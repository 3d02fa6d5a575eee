/** How many registers the compiler needs for the compound subterms that wait to be processed, and how
    many instructions it emits. */
module Waiting {
  import opened Terms
  import opened HeadSim

  function Max(a: nat, b: nat): nat {
    if a < b then b else a
  }

  function Subterms(p: Pattern): (ps: seq<Pattern>)
    requires p.IsCompound()
  {
    match p
    case PList(h, t) => [h, t]
    case PStruct(_, args) => args
  }

  /** How many of the patterns are compound. */
  function Compounds(ps: seq<Pattern>): nat {
    if ps == [] then 0 else (if ps[0].IsCompound() then 1 else 0) + Compounds(ps[1..])
  }

  /** The greatest number of compound subterms that wait at one time while the term is processed:
      they all wait at first, and each is processed while those after it still wait. */
  function Width(p: Pattern): nat
    decreases p, 0
  {
    match p
    case PVar(_) => 0
    case PConst(_) => 0
    case PList(h, t) =>
      var last := if t.IsCompound() then 1 else 0;
      var both := if h.IsCompound() then 1 + last else last;
      Max(both, Max(last + Width(h), Width(t)))
    case PStruct(_, args) => WidthAll(args)
  }

  function WidthAll(ps: seq<Pattern>): nat
    decreases ps, 1
  {
    if ps == [] then 0
    else Max(Compounds(ps), Max(Compounds(ps[1..]) + Width(ps[0]), WidthAll(ps[1..])))
  }

  /** The greatest number of compound subterms that wait at one time. */
  function Widest(ps: seq<Pattern>): nat {
    if ps == [] then 0 else Max(Width(ps[0]), Widest(ps[1..]))
  }

  /** The last subterm is a list that starts with a small integer. */
  predicate StartsSmall(p: Pattern) {
    p.PList? && p.head.PConst? && p.head.c.Integer? && 0 <= p.head.c.n <= 0xffff
  }

  /** How many instructions a compound term takes: one to enter it and one for each subterm, with those of
      the compound ones; a last subterm that is a list takes one for each small integer at its front. */
  function Emits(p: Pattern): nat
    decreases p, 0
  {
    match p
    case PVar(_) => 0
    case PConst(_) => 0
    case PList(h, t) => 1 + (1 + Emits(h)) + EmitsLast(t)
    case PStruct(_, args) => 1 + EmitsAll(args)
  }

  function EmitsLast(p: Pattern): nat
    decreases p, 1
  {
    if StartsSmall(p) then 1 + EmitsLast(p.tail) else 1 + Emits(p)
  }

  function EmitsAll(ps: seq<Pattern>): nat
    decreases ps, 2
  {
    if ps == [] then 0
    else if |ps| == 1 then EmitsLast(ps[0])
    else 1 + Emits(ps[0]) + EmitsAll(ps[1..])
  }

  function EmitsSub(p: Pattern, isLast: bool): nat {
    if isLast then EmitsLast(p) else 1 + Emits(p)
  }

  lemma OfSubterms(p: Pattern)
    requires p.IsCompound()
    ensures WidthAll(Subterms(p)) == Width(p)
    ensures EmitsAll(Subterms(p)) == Emits(p) - 1
    ensures VarsAll(Subterms(p)) == Vars(p)
  {
    if p.PList? {
      var h, t := p.head, p.tail;
      assert [h, t][1..] == [t] && [t][1..] == [];
      assert Compounds([t]) == if t.IsCompound() then 1 else 0;
      assert EmitsAll([t]) == EmitsLast(t) && VarsAll([t]) == Vars(t);
      assert WidthAll([t]) == Max(Compounds([t]), Width(t));
    }
  }

  /** With the compound ones among the terms numbered c1, ..., ck: k registers are enough for them
      to wait, and k - i besides those for ci while that is processed; and no fewer do. */
  lemma {:induction false} WidthIs(ps: seq<Pattern>, n: nat)
    ensures WidthAll(ps) <= n <==>
      Compounds(ps) <= n && forall i {:trigger ps[i]} :: 0 <= i < |ps| ==> Compounds(ps[i + 1..]) + Width(ps[i]) <= n
  {
    if ps != [] {
      WidthIs(ps[1..], n);
      assert forall i :: 0 <= i < |ps| - 1 ==> ps[1..][i] == ps[i + 1] && ps[1..][i + 1..] == ps[i + 2..];
      if forall i {:trigger ps[i]} :: 0 <= i < |ps| ==> Compounds(ps[i + 1..]) + Width(ps[i]) <= n {
        assert Compounds(ps[0 + 1..]) + Width(ps[0]) <= n;
      } else {
        var i :| 0 <= i < |ps| && Compounds(ps[i + 1..]) + Width(ps[i]) > n;
        if i > 0 {
          assert ps[1..][i - 1] == ps[i] && ps[1..][i - 1 + 1..] == ps[i + 1..];
        }
      }
    }
  }

  /** What comes from the subterm at i on. */
  lemma From(ps: seq<Pattern>, i: nat)
    requires i < |ps|
    ensures ps[i..] == [ps[i]] + ps[i + 1..]
    ensures Compounds(ps[i..]) == (if ps[i].IsCompound() then 1 else 0) + Compounds(ps[i + 1..])
    ensures EmitsAll(ps[i..]) == EmitsSub(ps[i], i == |ps| - 1) + EmitsAll(ps[i + 1..])
    ensures VarsAll(ps[i..]) == Vars(ps[i]) + VarsAll(ps[i + 1..])
    ensures i == |ps| - 1 ==> ps[i + 1..] == []
  {
    assert ps[i..][1..] == ps[i + 1..];
  }

  lemma SplitAt(args: seq<Pattern>, i: nat)
    requires i < |args|
    ensures args[..i + 1] == args[..i] + [args[i]] && args[..i + 1][..i] == args[..i] && |args[..i]| == i
    ensures args[i..] == [args[i]] + args[i + 1..]
  {
  }

  lemma {:induction false} Subset(a: set<nat>, b: set<nat>)
    requires a <= b
    ensures |a| <= |b|
  {
    assert b == a + (b - a);
  }

  lemma Union(a: set<nat>, b: set<nat>)
    ensures |a + b| == |a| + |b - a|
  {
    assert a + b == a + (b - a);
  }

  lemma UnionAssoc(a: set<nat>, b: set<nat>, c: set<nat>)
    ensures a + (b + c) == a + b + c
  {
  }

  /** The instructions for those that wait. */
  function PendEmits(pend: seq<Entry>): nat {
    if pend == [] then 0 else Emits(pend[0].p) + PendEmits(pend[1..])
  }

  /** The variables of those that wait. */
  function PendVars(pend: seq<Entry>): set<nat> {
    if pend == [] then {} else Vars(pend[0].p) + PendVars(pend[1..])
  }

  lemma {:induction false} PendConcat(a: seq<Entry>, b: seq<Entry>)
    ensures PendEmits(a + b) == PendEmits(a) + PendEmits(b)
    ensures PendVars(a + b) == PendVars(a) + PendVars(b)
  {
    if a == [] {
      assert a + b == b;
    } else {
      assert (a + b)[1..] == a[1..] + b;
      PendConcat(a[1..], b);
    }
  }

  lemma PendOne(e: Entry)
    ensures PendEmits([e]) == Emits(e.p) && PendVars([e]) == Vars(e.p)
  {
    assert [e][1..] == [];
  }

  /** With n registers for compound subterms there are enough for those that wait, the last of them
      to be processed first; `base` more will wait below them. */
  ghost predicate Fits(pend: seq<Entry>, base: nat, n: nat) {
    && base + |pend| <= n
    && forall i {:trigger pend[i]} :: 0 <= i < |pend| ==> base + i + Width(pend[i].p) <= n
  }

  /** Another one, or none, has come below those that wait. */
  lemma FitsBelow(more: seq<Entry>, newer: seq<Entry>, base: nat, was: nat, n: nat)
    requires Fits(newer, was, n) && Fits(more, base, n) && base + |more| <= was
    ensures Fits(more + newer, base, n)
  {
  }

  lemma FitsAbove(pend: seq<Entry>, newer: seq<Entry>, m: nat, n: nat)
    requires Fits(pend, 0, n) && Fits(newer, 0, m) && |pend| + m <= n
    ensures Fits(pend + newer, 0, n)
  {
  }

  /** What is left of a term without the small integers at its front. */
  predicate SameBut(p: Pattern, left: Pattern) {
    && Vars(left) == Vars(p) && Width(left) <= Width(p)
    && (!p.IsCompound() ==> left == p)
  }

  /** Of `was` registers one each has gone to the new variables and to the entries queued. Of the
      variables `vs` those not known before are known now, are in the entries, or are left. */
  ghost predicate Accounts(room: nat, newer: seq<Entry>, env: Env, left: set<nat>, was: nat, before: Env,
      vs: set<nat>)
  {
    && room + |newer| + |env| == was + |before| && before.Keys <= env.Keys
    && env.Keys + PendVars(newer) + left == before.Keys + vs
  }

  lemma NoneMore(p: Pattern, env: Env, room: nat)
    ensures Vars(p) <= env.Keys ==> Accounts(room, [], env, {}, room, env, Vars(p))
  {
  }

  lemma OneMore(v: nat, r: nat, env: Env, room: nat)
    requires v !in env
    ensures Accounts(room, [], env[v := r], {}, room + 1, env, Vars(PVar(v)))
  {
  }

  ghost predicate TwoVars(p: Pattern, env: Env) {
    && p.PList? && p.head.PVar? && p.tail.PVar? && p.head.v != p.tail.v
    && p.head.v !in env && p.tail.v !in env
  }

  lemma EmitsTwo(p: Pattern, env: Env)
    ensures TwoVars(p, env) ==> Emits(p) == 3
  {
    if TwoVars(p, env) {
      assert Emits(p.head) == 0 && EmitsLast(p.tail) == 1;
    }
  }

  lemma TwoNew(p: Pattern, env: Env)
    requires TwoVars(p, env)
    ensures |Vars(p) - env.Keys| == 2
  {
    assert Vars(p) - env.Keys == {p.head.v, p.tail.v};
  }

  lemma TwoMore(p: Pattern, env: Env, ra: nat, rb: nat, room: nat)
    requires TwoVars(p, env)
    ensures Accounts(room, [], env[p.head.v := ra][p.tail.v := rb], {}, room + 2, env, Vars(p))
  {
    var more := env[p.head.v := ra][p.tail.v := rb];
    assert more.Keys == env.Keys + {p.head.v, p.tail.v} && Vars(p) == {p.head.v, p.tail.v};
    assert more.Keys + PendVars([]) + {} == more.Keys;
  }

  lemma OneQueued(e: Entry, room: nat, env: Env, was: nat)
    requires room == was - 1
    ensures PendEmits([e]) == Emits(e.p) && Within([e], Width(e.p))
    ensures Accounts(room, [e], env, {}, was, env, Vars(e.p))
  {
    PendOne(e);
  }

  ghost predicate Within(pend: seq<Entry>, n: nat) {
    forall i {:trigger pend[i]} :: 0 <= i < |pend| ==> Width(pend[i].p) <= n
  }

  /** The entries made of the subterms before i, those of later subterms to come below them. */
  ghost predicate InSubterms(newer: seq<Entry>, subs: seq<Pattern>, i: nat)
    requires i <= |subs|
  {
    && Fits(newer, Compounds(subs[i..]), WidthAll(subs)) && |newer| + Compounds(subs[i..]) <= Compounds(subs)
  }

  /** The entry of the subterm at i has come below those before, or it has none. */
  lemma SubtermDone(subs: seq<Pattern>, i: nat, more: seq<Entry>, was: seq<Entry>)
    requires i < |subs| && InSubterms(was, subs, i)
    requires |more| <= (if subs[i].IsCompound() then 1 else 0) && Within(more, Width(subs[i]))
    ensures InSubterms(more + was, subs, i + 1)
  {
    From(subs, i);
    WidthIs(subs, WidthAll(subs));
    PendConcat(more, was);
    FitsBelow(more, was, Compounds(subs[i + 1..]), Compounds(subs[i..]), WidthAll(subs));
  }

  /** The account goes on with the subterm at i. */
  lemma AccountsThen(room: nat, was: seq<Entry>, env: Env, start: nat, before: Env, subs: seq<Pattern>, i: nat,
      room': nat, more: seq<Entry>, env': Env)
    requires i < |subs| && Accounts(room, was, env, VarsAll(subs[i..]), start, before, VarsAll(subs))
    requires Accounts(room', more, env', {}, room, env, Vars(subs[i]))
    ensures Accounts(room', more + was, env', VarsAll(subs[i + 1..]), start, before, VarsAll(subs))
  {
    From(subs, i);
    PendConcat(more, was);
    Regroup(env'.Keys, PendVars(more), PendVars(was), VarsAll(subs[i + 1..]), env.Keys, Vars(subs[i]));
  }

  lemma Regroup(a: set<nat>, b: set<nat>, c: set<nat>, rest: set<nat>, was: set<nat>, v: set<nat>)
    requires a + b + {} == was + v
    ensures a + (b + c) + rest == was + c + (v + rest)
  {
    assert a + (b + c) + rest == (a + b + {}) + (c + rest);
    assert was + c + (v + rest) == (was + v) + (c + rest);
  }

  /** The subterms before i are done, and the code has `len` instructions; at first it had `from`. */
  ghost predicate Partly(newer: seq<Entry>, subs: seq<Pattern>, i: nat, room: nat, env: Env, len: nat, start: nat,
      before: Env, from: nat)
    requires i <= |subs|
  {
    && InSubterms(newer, subs, i) && from <= len
    && len + PendEmits(newer) + EmitsAll(subs[i..]) == from + EmitsAll(subs)
    && Accounts(room, newer, env, VarsAll(subs[i..]), start, before, VarsAll(subs))
  }

  lemma PartlyStart(subs: seq<Pattern>, room: nat, env: Env, len: nat)
    ensures subs[0..] == subs && Partly([], subs, 0, room, env, len, room, env, len)
  {
    WidthIs(subs, WidthAll(subs));
  }

  lemma PartlyNext(newer: seq<Entry>, subs: seq<Pattern>, i: nat, room: nat, env: Env, len: nat, start: nat,
      before: Env, from: nat, more: seq<Entry>, room': nat, env': Env, len': nat)
    requires i < |subs| && Partly(newer, subs, i, room, env, len, start, before, from)
    requires |more| <= (if subs[i].IsCompound() then 1 else 0) && Within(more, Width(subs[i]))
    requires len <= len' && len' + PendEmits(more) == len + EmitsSub(subs[i], i == |subs| - 1)
    requires Accounts(room', more, env', {}, room, env, Vars(subs[i]))
    ensures Partly(more + newer, subs, i + 1, room', env', len', start, before, from)
  {
    From(subs, i);
    PendConcat(more, newer);
    SubtermDone(subs, i, more, newer);
    AccountsThen(room, newer, env, start, before, subs, i, room', more, env');
  }

  lemma PartlyEnd(newer: seq<Entry>, subs: seq<Pattern>, room: nat, env: Env, len: nat, start: nat, before: Env,
      from: nat)
    requires Partly(newer, subs, |subs|, room, env, len, start, before, from)
    ensures Fits(newer, 0, WidthAll(subs)) && from <= len && len + PendEmits(newer) == from + EmitsAll(subs)
    ensures Accounts(room, newer, env, {}, start, before, VarsAll(subs))
  {
    assert subs[|subs|..] == [];
  }

  /** Enough registers at the start are enough for the subterm at i. */
  lemma EnoughForNext(subs: seq<Pattern>, i: nat, newer: seq<Entry>, env: Env, room: nat, len: nat, was: nat,
      before: Env, from: nat)
    requires i < |subs| && Partly(newer, subs, i, room, env, len, was, before, from)
    ensures was >= Compounds(subs) + |VarsAll(subs) - before.Keys| ==>
      room > 0 || (!subs[i].IsCompound() && Vars(subs[i]) <= env.Keys)
  {
    var known, all := env.Keys, before.Keys + VarsAll(subs);
    var more := if Vars(subs[i]) <= known then 0 else 1;
    assert |all| >= |known| + more by {
      From(subs, i);
      AtLeast(known, Vars(subs[i]), all);
    }
    assert |all| == |before| + |VarsAll(subs) - before.Keys| by {
      Union(before.Keys, VarsAll(subs));
    }
    assert Compounds(subs[i..]) >= if subs[i].IsCompound() then 1 else 0 by {
      From(subs, i);
    }
  }

  lemma AtLeast(known: set<nat>, vs: set<nat>, all: set<nat>)
    requires known <= all && vs <= all
    ensures |all| >= |known| + (if vs <= known then 0 else 1)
  {
    Subset(known, all);
    if !(vs <= known) {
      var v :| v in vs && v !in known;
      Subset(known + {v}, all);
    }
  }

  /** The instructions for a compound term of the head: a list of two new variables takes a single one. */
  ghost function Instructions(p: Pattern, env: Env): nat {
    if TwoVars(p, env) then 1 else Emits(p)
  }

  /** The queue while a term is processed that needs n registers for its compound subterms: at first
      it holds just that, with a register that is not freed. */
  ghost predicate Waits(isTop: bool, entries: seq<Entry>, n: nat) {
    if isTop then |entries| == 1 && Width(entries[0].p) <= n else Fits(entries, 0, n)
  }

  function Freed(isTop: bool): nat {
    if isTop then 0 else 1
  }

  /** The variables known and those of the entries that wait are the variables `all`. */
  ghost predicate Covers(env: Env, entries: seq<Entry>, all: set<nat>) {
    all == env.Keys + PendVars(entries)
  }

  /** At first the known variables and the term's. */
  lemma CoversTop(top: Entry, env: Env, all: set<nat>)
    requires all == env.Keys + Vars(top.p)
    ensures Covers(env, [top], all) && |all| == |env| + |Vars(top.p) - env.Keys|
  {
    PendOne(top);
    Union(env.Keys, Vars(top.p));
  }

  /** In the end all are known. */
  lemma CoversAll(env: Env, all: set<nat>)
    requires Covers(env, [], all)
    ensures env.Keys == all && |env| == |all|
  {
  }

  /** The registers that are free or have been taken for the term. */
  ghost function Budget(isTop: bool, room: nat, entries: seq<Entry>, env: Env): int {
    room + |env| + |entries| - 1 + Freed(isTop)
  }

  /** There are registers for the new variables of the entry taken off the queue, and, with its own
      register if that is freed, for its subterms. */
  ghost predicate Enough(e: Entry, room: nat, freed: nat, env: Env) {
    && room >= |Vars(e.p) - env.Keys|
    && room + freed >= Width(e.p) + |Vars(e.p) - env.Keys|
  }

  /** What is enough for the entry is enough for its subterms. */
  lemma Entered(p: Pattern)
    requires p.IsCompound()
    ensures var subs := Subterms(p);
      && WidthAll(subs) == Width(p) && EmitsAll(subs) == Emits(p) - 1 && VarsAll(subs) == Vars(p)
      && Compounds(subs) <= Width(p)
  {
    OfSubterms(p);
    WidthIs(Subterms(p), Width(p));
  }

  lemma EnoughForTop(isTop: bool, pend: seq<Entry>, e: Entry, n: nat, env: Env, all: set<nat>, room: nat)
    requires Waits(isTop, pend + [e], n)
    requires Covers(env, pend + [e], all) && n + |all| <= Budget(isTop, room, pend + [e], env)
    ensures Enough(e, room, Freed(isTop), env)
  {
    assert (pend + [e])[|pend|] == e;
    PendConcat(pend, [e]);
    PendOne(e);
    Subset(env.Keys + Vars(e.p), all);
    Union(env.Keys, Vars(e.p));
  }

  lemma WaitsOn(isTop: bool, pend: seq<Entry>, e: Entry, newer: seq<Entry>, n: nat)
    requires Waits(isTop, pend + [e], n) && Fits(newer, 0, Width(e.p))
    ensures Waits(false, pend + newer, n)
  {
    assert (pend + [e])[|pend|] == e;
    assert forall i :: 0 <= i < |pend| ==> (pend + [e])[i] == pend[i];
    if !isTop {
      FitsAbove(pend, newer, Width(e.p), n);
    }
  }

  lemma CodeGrows(isTop: bool, pend: seq<Entry>, e: Entry, newer: seq<Entry>, n: nat, env: Env, len: nat, len': nat)
    requires Waits(isTop, pend + [e], n) && len' + PendEmits(newer) == len + Instructions(e.p, env)
    ensures len' + PendEmits(pend + newer) <= len + PendEmits(pend + [e])
    ensures isTop ==> len' + PendEmits(pend + newer) == len + Instructions((pend + [e])[0].p, env)
  {
    PendConcat(pend, newer);
    PendConcat(pend, [e]);
    PendOne(e);
    EmitsTwo(e.p, env);
  }

  lemma BudgetKept(isTop: bool, pend: seq<Entry>, e: Entry, newer: seq<Entry>, env: Env, env': Env, all: set<nat>,
      room: nat, room': nat)
    requires Accounts(room', newer, env', {}, room + Freed(isTop), env, Vars(e.p))
    requires Covers(env, pend + [e], all)
    ensures Covers(env', pend + newer, all)
    ensures Budget(false, room', pend + newer, env') == Budget(isTop, room, pend + [e], env)
    ensures PendEmits(pend + newer) - PendEmits(newer) == PendEmits(pend + [e]) - Emits(e.p)
  {
    PendConcat(pend, newer);
    PendConcat(pend, [e]);
    PendOne(e);
    assert env'.Keys + (PendVars(pend) + PendVars(newer)) == env.Keys + (PendVars(pend) + Vars(e.p));
  }

  /** A proper list of constants. */
  function ListOf(cs: seq<Constant>): Pattern {
    if cs == [] then PConst(EmptyList) else PList(PConst(cs[0]), ListOf(cs[1..]))
  }

  /** A list of n small integers takes n + 2 instructions. */
  lemma {:induction false} OneForEach(cs: seq<Constant>)
    requires forall i {:trigger cs[i]} :: 0 <= i < |cs| ==> cs[i].Integer? && 0 <= cs[i].n <= 0xffff
    ensures EmitsLast(ListOf(cs)) == |cs| + 1 && (cs != [] ==> Emits(ListOf(cs)) == |cs| + 2)
  {
    if cs != [] {
      assert forall i :: 0 <= i < |cs| - 1 ==> cs[1..][i] == cs[i + 1];
      OneForEach(cs[1..]);
      assert Emits(PConst(cs[0])) == 0;
    }
  }

  /** One register is enough for a list of constants of any length, beside the list's own. */
  lemma {:induction false} ListNeedsOne(cs: seq<Constant>)
    ensures Width(ListOf(cs)) == (if |cs| > 1 then 1 else 0) && Vars(ListOf(cs)) == {}
  {
    if cs != [] {
      ListNeedsOne(cs[1..]);
    }
  }
}
