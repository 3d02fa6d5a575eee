/** Compiling the head of a clause into get and unify instructions. */
module HeadCompiler {
  import opened Sequences
  import opened Terms
  import opened HeadSim
  import opened Registers
  import opened InstQueue
  import opened Waiting

  ghost predicate Apart(pend: seq<Entry>, i: int, j: int) {
    0 <= i < j < |pend| ==> pend[i].r != pend[j].r
  }

  /** Variables and pending entries have registers of their own; the argument registers `keep`
      are never handed out, and an entry that has none of them has a temporary one. */
  ghost predicate Allocated(env: Env, pend: seq<Entry>, uses: map<nat, Use>, keep: set<nat>) {
    && (forall v {:trigger env[v]} :: v in env ==> env[v] in uses && uses[env[v]] != TempVar)
    && (forall i {:trigger pend[i]} :: 0 <= i < |pend| ==>
          pend[i].r in uses && pend[i].p.IsCompound() && (pend[i].r in keep || uses[pend[i].r] == TempVar))
    && (forall i, j {:trigger Apart(pend, i, j)} :: Apart(pend, i, j))
    && (forall r {:trigger r in keep} :: r in keep ==> r in uses && uses[r] == Argument)
  }

  lemma FreshIsUnused(r: nat, env: Env, pend: seq<Entry>, uses: map<nat, Use>, keep: set<nat>)
    requires Allocated(env, pend, uses, keep) && r !in uses
    ensures Unused(r, env, pend, keep)
  {
  }

  lemma AllocVar(v: nat, r: nat, env: Env, pend: seq<Entry>, uses: map<nat, Use>, keep: set<nat>)
    requires Allocated(env, pend, uses, keep) && r !in uses
    ensures Allocated(env[v := r], pend, uses[r := RealVar], keep)
  {
    assert forall w :: w in env[v := r] ==> w == v || env[v := r][w] == env[w];
  }

  lemma AllocEntry(p: Pattern, r: nat, env: Env, pend: seq<Entry>, uses: map<nat, Use>, keep: set<nat>)
    requires Allocated(env, pend, uses, keep) && r !in uses && p.IsCompound()
    ensures Allocated(env, [Entry(r, p)] + pend, uses[r := TempVar], keep)
  {
    var pend' := [Entry(r, p)] + pend;
    assert pend'[0] == Entry(r, p) && forall i :: 0 < i < |pend'| ==> pend'[i] == pend[i - 1];
    forall i, j ensures Apart(pend', i, j) {
      assert Apart(pend, i - 1, j - 1);
    }
  }

  /** Taking an entry off the top and releasing its register. */
  lemma AllocPop(e: Entry, env: Env, pend: seq<Entry>, uses: map<nat, Use>, keep: set<nat>)
    requires Allocated(env, pend + [e], uses, keep)
    ensures e.r in uses && e.p.IsCompound() && Allocated(env, pend, uses, keep)
    ensures e.r in keep <==> uses[e.r] != TempVar
    ensures uses[e.r] == TempVar ==> Allocated(env, pend, uses - {e.r}, keep)
  {
    Split(pend, e);
    forall i, j ensures Apart(pend, i, j) {
      assert Apart(pend + [e], i, j);
    }
    forall i | 0 <= i < |pend| ensures pend[i] == (pend + [e])[i] && pend[i].r != e.r {
      assert Apart(pend + [e], i, |pend|);
    }
  }

  lemma AllocReorder(env: Env, a: seq<Entry>, b: seq<Entry>, uses: map<nat, Use>, keep: set<nat>)
    requires Allocated(env, a + b, uses, keep)
    ensures Allocated(env, b + a, uses, keep)
  {
    assert forall i :: 0 <= i < |a + b| ==> (b + a)[i] == if i < |b| then (a + b)[|a| + i] else (a + b)[i - |b|];
    forall i, j ensures Apart(b + a, i, j) {
      var i', j' := if i < |b| then |a| + i else i - |b|, if j < |b| then |a| + j else j - |b|;
      assert Apart(a + b, i', j') && Apart(a + b, j', i');
    }
  }

  /** A constant or a variable. */
  method GenSimple(sub: Pattern, reg: RegStat, code: seq<Instr>, env: Env,
      ghost pend: seq<Entry>, ghost rest: seq<Pattern>, ghost done: seq<Pattern>, ghost keep: set<nat>)
    returns (ok: bool, code': seq<Instr>, env': Env)
    requires reg.Valid() && !sub.IsCompound()
    requires Sim(code, done, Pos(env, pend, [sub] + rest), keep)
    requires Allocated(env, pend, reg.uses, keep)
    modifies reg, reg.regArray
    ensures old(reg.Room()) > 0 || Vars(sub) <= env.Keys ==> ok
    ensures ok ==> reg.Valid() && Accounts(reg.Room(), [], env', {}, old(reg.Room()), env, Vars(sub))
    ensures ok ==> reg.Room() <= old(reg.Room()) && |code'| == |code| + 1
    ensures ok ==> Sim(code', done, Pos(env', pend, rest), keep) && Allocated(env', pend, reg.uses, keep)
  {
    ok, code', env' := true, code, env;
    NoneMore(sub, env, reg.Room());
    match sub
    case PConst(Float(bits)) =>
      UniFloatAdvances(bits, env, pend, rest, keep);
      SimStep(code, done, Pos(env, pend, [sub] + rest), Pos(env, pend, rest), UniFloat(FloatWord(bits)), keep);
      code' := code + [UniFloat(FloatWord(bits))];
    case PConst(c) =>
      UniConstAdvances(c, env, pend, rest, keep);
      SimStep(code, done, Pos(env, pend, [sub] + rest), Pos(env, pend, rest), UniConst(c), keep);
      code' := code + [UniConst(c)];
    case PVar(v) =>
      if v in env {
        UniTValAdvances(v, env, pend, rest, keep);
        SimStep(code, done, Pos(env, pend, [sub] + rest), Pos(env, pend, rest), UniTVal(env[v]), keep);
        code' := code + [UniTVal(env[v])];
      } else {
        ghost var uses := reg.uses;
        var r;
        ok, r := reg.Get(RealVar);
        if ok {
          FreshIsUnused(r, env, pend, uses, keep);
          AllocVar(v, r, env, pend, uses, keep);
          OneMore(v, r, env, reg.Room());
          UniTVarAdvances(v, r, env, pend, rest, keep);
          SimStep(code, done, Pos(env, pend, [sub] + rest), Pos(env[v := r], pend, rest), UniTVar(r), keep);
          code', env' := code + [UniTVar(r)], env[v := r];
        }
      }
  }

  /** A compound subterm: its register is set, and it is queued. */
  method GenLater(sub: Pattern, q: Queue<Entry>, reg: RegStat, code: seq<Instr>, env: Env,
      ghost rest: seq<Pattern>, ghost done: seq<Pattern>, ghost keep: set<nat>)
    returns (ok: bool, code': seq<Instr>, ghost e: Entry)
    requires q.Valid() && reg.Valid() && q as object != reg && q.slots as object != reg.regArray
    requires sub.IsCompound()
    requires Sim(code, done, Pos(env, q.entries, [sub] + rest), keep)
    requires Allocated(env, q.entries, reg.uses, keep)
    requires |q.entries| + reg.Room() <= INST_QUEUE_SIZE - 1
    modifies q, q.slots, reg, reg.regArray
    ensures old(reg.Room()) > 0 ==> ok
    ensures ok ==> q.Valid() && reg.Valid() && q.entries == [e] + old(q.entries) && q.added == old(q.added) + 1
    ensures ok ==> e.p == sub && e.r !in keep
    ensures ok ==> |code'| == |code| + 1 && PendEmits([e]) == Emits(sub) && Within([e], Width(sub))
    ensures ok ==> Accounts(reg.Room(), [e], env, {}, old(reg.Room()), env, Vars(sub)) && reg.Room() < old(reg.Room())
    ensures ok ==> Sim(code', done, Pos(env, q.entries, rest), keep) && Allocated(env, q.entries, reg.uses, keep)
  {
    ghost var uses, pend := reg.uses, q.entries;
    code' := code;
    var r;
    ok, r := reg.Get(TempVar);
    e := Entry(r, sub);
    if ok {
      FreshIsUnused(r, env, pend, uses, keep);
      AllocEntry(sub, r, env, pend, uses, keep);
      OneQueued(e, reg.Room(), env, reg.Room() + 1);
      UniLaterAdvances(sub, r, env, pend, rest, keep);
      SimStep(code, done, Pos(env, pend, [sub] + rest), Pos(env, [Entry(r, sub)] + pend, rest), UniTVar(r), keep);
      code' := code + [UniTVar(r)];
      ok := q.Add(Entry(r, sub));
    }
  }

  /** The small integer at the front of a list in last position. */
  method GenOneSmall(sub: Pattern, reg: RegStat, code: seq<Instr>, ghost env: Env,
      ghost pend: seq<Entry>, ghost done: seq<Pattern>, ghost keep: set<nat>)
    returns (ok: bool, code': seq<Instr>)
    requires reg.Valid() && StartsSmall(sub)
    requires Sim(code, done, Pos(env, pend, [sub]), keep) && Allocated(env, pend, reg.uses, keep)
    modifies reg, reg.regArray
    ensures old(reg.Room()) > 0 ==> ok
    ensures ok ==> reg.Valid() && reg.Room() == old(reg.Room()) && reg.uses == old(reg.uses)
    ensures ok ==> Sim(code', done, Pos(env, pend, [sub.tail]), keep) && |code'| == |code| + 1
  {
    code' := code;
    ghost var uses := reg.uses;
    var n := sub.head.c.n;
    var r;
    ok, r := reg.Get(TempVar);
    if ok {
      FreshIsUnused(r, env, pend, uses, keep);
      UniListAdvances(n, sub.tail, r, n / 256, n % 256, env, pend, keep);
      var i := UniTVarGetListUniNumCon(r, n / 256, n % 256);
      SimStep(code, done, Pos(env, pend, [sub]), Pos(env, pend, [sub.tail]), i, keep);
      code' := code + [i];
      reg.Release(r);
    }
  }

  /** The small integers at the front of a list in last position, one instruction each. */
  method GenSmall(sub0: Pattern, reg: RegStat, code: seq<Instr>, ghost env: Env,
      ghost pend: seq<Entry>, ghost done: seq<Pattern>, ghost keep: set<nat>)
    returns (ok: bool, code': seq<Instr>, sub: Pattern)
    requires reg.Valid()
    requires Sim(code, done, Pos(env, pend, [sub0]), keep) && Allocated(env, pend, reg.uses, keep)
    modifies reg, reg.regArray
    ensures old(reg.Room()) > 0 || !StartsSmall(sub0) ==> ok
    ensures ok ==> |code| <= |code'| && |code'| + EmitsLast(sub) == |code| + EmitsLast(sub0)
    ensures ok ==> reg.Valid() && reg.Room() == old(reg.Room()) && SameBut(sub0, sub) && !StartsSmall(sub)
    ensures ok ==> Sim(code', done, Pos(env, pend, [sub]), keep) && Allocated(env, pend, reg.uses, keep)
  {
    ok, code', sub := true, code, sub0;
    while StartsSmall(sub)
      invariant reg.Valid() && reg.Room() == old(reg.Room()) && SameBut(sub0, sub)
      invariant sub == sub0 || StartsSmall(sub0)
      invariant |code| <= |code'| && |code'| + EmitsLast(sub) == |code| + EmitsLast(sub0)
      invariant Sim(code', done, Pos(env, pend, [sub]), keep) && Allocated(env, pend, reg.uses, keep)
      decreases sub
    {
      ok, code' := GenOneSmall(sub, reg, code', env, pend, done, keep);
      if !ok {
        return;
      }
      assert Vars(sub.tail) == Vars(sub) && sub0.IsCompound();
      sub := sub.tail;
    }
    ok := true;
  }

  /** The entries have registers that are released once they are processed. */
  ghost predicate Temporary(pend: seq<Entry>, keep: set<nat>) {
    forall i {:trigger pend[i]} :: 0 <= i < |pend| ==> pend[i].r !in keep
  }

  lemma TemporaryConcat(a: seq<Entry>, b: seq<Entry>, keep: set<nat>)
    requires Temporary(a, keep) && Temporary(b, keep)
    ensures Temporary(a + b, keep)
  {
  }

  /** Emits the unify instruction for one subterm; a compound subterm is queued. */
  method GenUnified(sub: Pattern, q: Queue<Entry>, reg: RegStat, code: seq<Instr>, env: Env,
      ghost rest: seq<Pattern>, ghost done: seq<Pattern>, ghost keep: set<nat>)
    returns (ok: bool, code': seq<Instr>, env': Env, ghost newer: seq<Entry>)
    requires q.Valid() && reg.Valid() && q as object != reg && q.slots as object != reg.regArray
    requires Sim(code, done, Pos(env, q.entries, [sub] + rest), keep)
    requires Allocated(env, q.entries, reg.uses, keep)
    requires |q.entries| + reg.Room() <= INST_QUEUE_SIZE - 1
    modifies q, q.slots, reg, reg.regArray
    ensures old(reg.Room()) > 0 || (!sub.IsCompound() && Vars(sub) <= env.Keys) ==> ok
    ensures ok ==> q.Valid() && reg.Valid() && q.entries == newer + old(q.entries) && q.added == old(q.added) + |newer|
    ensures ok ==> Sim(code', done, Pos(env', q.entries, rest), keep) && Allocated(env', q.entries, reg.uses, keep)
    ensures ok ==> |q.entries| + reg.Room() <= INST_QUEUE_SIZE - 1 && Temporary(newer, keep)
    ensures ok ==> |newer| <= (if sub.IsCompound() then 1 else 0) && Within(newer, Width(sub))
    ensures ok ==> |code'| == |code| + 1 && PendEmits(newer) == Emits(sub)
    ensures ok ==> Accounts(reg.Room(), newer, env', {}, old(reg.Room()), env, Vars(sub))
  {
    env', newer := env, [];
    if sub.IsCompound() {
      ghost var e;
      ok, code', e := GenLater(sub, q, reg, code, env, rest, done, keep);
      newer := [e];
    } else {
      ok, code', env' := GenSimple(sub, reg, code, env, q.entries, rest, done, keep);
    }
  }

  /** Emits the unify instructions for one subterm, which may start with small integers; a compound
      subterm is queued. */
  method GenInst(sub0: Pattern, isLast: bool, q: Queue<Entry>, reg: RegStat, code: seq<Instr>, env: Env,
      ghost rest: seq<Pattern>, ghost done: seq<Pattern>, ghost keep: set<nat>)
    returns (ok: bool, code': seq<Instr>, env': Env, ghost newer: seq<Entry>)
    requires q.Valid() && reg.Valid() && q as object != reg && q.slots as object != reg.regArray
    requires Sim(code, done, Pos(env, q.entries, [sub0] + rest), keep) && (isLast ==> rest == [])
    requires Allocated(env, q.entries, reg.uses, keep)
    requires |q.entries| + reg.Room() <= INST_QUEUE_SIZE - 1
    modifies q, q.slots, reg, reg.regArray
    ensures old(reg.Room()) > 0 || (!sub0.IsCompound() && Vars(sub0) <= env.Keys) ==> ok
    ensures ok ==> q.Valid() && reg.Valid() && q.entries == newer + old(q.entries) && q.added == old(q.added) + |newer|
    ensures ok ==> Sim(code', done, Pos(env', q.entries, rest), keep) && Allocated(env', q.entries, reg.uses, keep)
    ensures ok ==> |q.entries| + reg.Room() <= INST_QUEUE_SIZE - 1 && Temporary(newer, keep)
    ensures ok ==> |newer| <= (if sub0.IsCompound() then 1 else 0) && Within(newer, Width(sub0))
    ensures ok ==> |code| <= |code'| && |code'| + PendEmits(newer) == |code| + EmitsSub(sub0, isLast)
    ensures ok ==> Accounts(reg.Room(), newer, env', {}, old(reg.Room()), env, Vars(sub0))
  {
    var sub := sub0;
    code' := code;
    if isLast {
      assert [sub0] + rest == [sub0];
      ok, code', sub := GenSmall(sub0, reg, code, env, q.entries, done, keep);
      if !ok {
        env', newer := env, [];
        return;
      }
      assert [sub] + rest == [sub];
    }
    ok, code', env', newer := GenUnified(sub, q, reg, code', env, rest, done, keep);
  }

  /** Emits the unify instructions for the subterm at i. */
  method GenNextSub(subs: seq<Pattern>, i: nat, q: Queue<Entry>, reg: RegStat, code: seq<Instr>, env: Env,
      ghost rest: seq<Pattern>, ghost done: seq<Pattern>, ghost keep: set<nat>, ghost newer: seq<Entry>,
      ghost pend: seq<Entry>, ghost start: nat, ghost before: Env, ghost from: nat)
    returns (ok: bool, code': seq<Instr>, env': Env, ghost newer': seq<Entry>)
    requires q.Valid() && reg.Valid() && q as object != reg && q.slots as object != reg.regArray
    requires i < |subs| && q.entries == newer + pend && q.added == |newer|
    requires Sim(code, done, Pos(env, q.entries, [subs[i]] + rest), keep) && rest == subs[i + 1..]
    requires Allocated(env, q.entries, reg.uses, keep)
    requires |q.entries| + reg.Room() <= INST_QUEUE_SIZE - 1 && Temporary(newer, keep)
    requires Partly(newer, subs, i, reg.Room(), env, |code|, start, before, from)
    modifies q, q.slots, reg, reg.regArray
    ensures start >= Compounds(subs) + |VarsAll(subs) - before.Keys| ==> ok
    ensures ok ==> q.Valid() && reg.Valid() && q.entries == newer' + pend && q.added == |newer'|
    ensures ok ==> Sim(code', done, Pos(env', q.entries, rest), keep) && Allocated(env', q.entries, reg.uses, keep)
    ensures ok ==> |q.entries| + reg.Room() <= INST_QUEUE_SIZE - 1 && Temporary(newer', keep)
    ensures ok ==> Partly(newer', subs, i + 1, reg.Room(), env', |code'|, start, before, from)
  {
    EnoughForNext(subs, i, newer, env, reg.Room(), |code|, start, before, from);
    ghost var more, room := [], reg.Room();
    ok, code', env', more := GenInst(subs[i], i == |subs| - 1, q, reg, code, env, rest, done, keep);
    newer' := more + newer;
    if ok {
      ConcatAssoc(more, newer, pend);
      TemporaryConcat(more, newer, keep);
      PartlyNext(newer, subs, i, room, env, |code|, start, before, from, more, reg.Room(), env', |code'|);
    }
  }

  method GenSubAt(subs: seq<Pattern>, i: nat, q: Queue<Entry>, reg: RegStat, code: seq<Instr>, env: Env,
      ghost done: seq<Pattern>, ghost keep: set<nat>, ghost newer: seq<Entry>, ghost pend: seq<Entry>,
      ghost start: nat, ghost before: Env, ghost from: nat)
    returns (ok: bool, code': seq<Instr>, env': Env, ghost newer': seq<Entry>)
    requires q.Valid() && reg.Valid() && q as object != reg && q.slots as object != reg.regArray
    requires i < |subs| && q.entries == newer + pend && q.added == |newer|
    requires Sim(code, done, Pos(env, q.entries, subs[i..]), keep) && Allocated(env, q.entries, reg.uses, keep)
    requires |q.entries| + reg.Room() <= INST_QUEUE_SIZE - 1 && Temporary(newer, keep)
    requires Partly(newer, subs, i, reg.Room(), env, |code|, start, before, from)
    modifies q, q.slots, reg, reg.regArray
    ensures start >= Compounds(subs) + |VarsAll(subs) - before.Keys| ==> ok
    ensures ok ==> q.Valid() && reg.Valid() && q.entries == newer' + pend && q.added == |newer'|
    ensures ok ==> Sim(code', done, Pos(env', q.entries, subs[i + 1..]), keep)
    ensures ok ==> Allocated(env', q.entries, reg.uses, keep)
    ensures ok ==> |q.entries| + reg.Room() <= INST_QUEUE_SIZE - 1 && Temporary(newer', keep)
    ensures ok ==> Partly(newer', subs, i + 1, reg.Room(), env', |code'|, start, before, from)
  {
    From(subs, i);
    ok, code', env', newer' := GenNextSub(subs, i, q, reg, code, env, subs[i + 1..], done, keep, newer, pend, start,
      before, from);
  }

  /** Emits the unify instructions for the subterms of one structure. */
  method GenSubterms(subs: seq<Pattern>, q: Queue<Entry>, reg: RegStat, code: seq<Instr>, env: Env,
      ghost done: seq<Pattern>, ghost keep: set<nat>)
    returns (ok: bool, code': seq<Instr>, env': Env, ghost newer: seq<Entry>)
    requires q.Valid() && reg.Valid() && q as object != reg && q.slots as object != reg.regArray
    requires Sim(code, done, Pos(env, q.entries, subs), keep)
    requires Allocated(env, q.entries, reg.uses, keep)
    requires |q.entries| + reg.Room() <= INST_QUEUE_SIZE - 1
    modifies q, q.slots, reg, reg.regArray
    ensures old(reg.Room()) >= Compounds(subs) + |VarsAll(subs) - env.Keys| ==> ok
    ensures ok ==> q.Valid() && reg.Valid() && q.entries == newer + old(q.entries) && q.added == |newer|
    ensures ok ==> Sim(code', done, Pos(env', q.entries, []), keep) && Allocated(env', q.entries, reg.uses, keep)
    ensures ok ==> |q.entries| + reg.Room() <= INST_QUEUE_SIZE - 1 && Temporary(newer, keep)
    ensures ok ==> Fits(newer, 0, WidthAll(subs)) && |code| <= |code'|
    ensures ok ==> |code'| + PendEmits(newer) == |code| + EmitsAll(subs)
    ensures ok ==> Accounts(reg.Room(), newer, env', {}, old(reg.Room()), env, VarsAll(subs))
  {
    ok, code', env', newer := true, code, env, [];
    q.added := 0;
    PartlyStart(subs, reg.Room(), env, |code|);
    var i := 0;
    while i < |subs|
      invariant ok && i <= |subs| && q.Valid() && reg.Valid()
      invariant q.entries == newer + old(q.entries) && q.added == |newer|
      invariant Sim(code', done, Pos(env', q.entries, subs[i..]), keep) && Allocated(env', q.entries, reg.uses, keep)
      invariant |q.entries| + reg.Room() <= INST_QUEUE_SIZE - 1 && Temporary(newer, keep)
      invariant Partly(newer, subs, i, reg.Room(), env', |code'|, old(reg.Room()), env, |code|)
    {
      ok, code', env', newer := GenSubAt(subs, i, q, reg, code', env', done, keep, newer, old(q.entries),
        old(reg.Room()), env, |code|);
      if !ok {
        return;
      }
      i := i + 1;
    }
    PartlyEnd(newer, subs, reg.Room(), env', |code'|, old(reg.Room()), env, |code|);
  }

  /** A list of two new variables, taken off the queue. */
  method GenTwoVars(e: Entry, reg: RegStat, code: seq<Instr>, env: Env,
      ghost pend: seq<Entry>, ghost done: seq<Pattern>, ghost keep: set<nat>)
    returns (ok: bool, code': seq<Instr>, env': Env)
    requires reg.Valid() && e.p.PList? && e.p.head.PVar? && e.p.tail.PVar?
    requires e.p.head.v !in env && e.p.tail.v !in env && e.p.head.v != e.p.tail.v
    requires Sim(code, done, Pos(env, pend + [e], []), keep)
    requires Allocated(env, pend + [e], reg.uses, keep)
    modifies reg, reg.regArray
    ensures Enough(e, old(reg.Room()), FreedBy(e, keep), env) ==> ok
    ensures ok ==> reg.Valid() && reg.Room() < old(reg.Room()) && |code'| == |code| + 1
    ensures ok ==> Accounts(reg.Room(), [], env', {}, old(reg.Room()) + FreedBy(e, keep), env, Vars(e.p))
    ensures ok ==> Sim(code', done, Pos(env', pend, []), keep) && Allocated(env', pend, reg.uses, keep)
  {
    var a, b := e.p.head.v, e.p.tail.v;
    ghost var uses := reg.uses;
    TwoNew(e.p, env);
    code', env' := code, env;
    Split(pend, e);
    var ra, rb;
    ok, ra := reg.Get(RealVar);
    if ok {
      FreshIsUnused(ra, env, pend + [e], uses, keep);
      AllocVar(a, ra, env, pend + [e], uses, keep);
      uses := reg.uses;
      ok, rb := reg.Get(RealVar);
      if ok {
        FreshIsUnused(rb, env[a := ra], pend + [e], uses, keep);
        AllocVar(b, rb, env[a := ra], pend + [e], uses, keep);
        UnusedPop(ra, env, pend, e, keep);
        UnusedEarlier(rb, a, ra, env, pend, e, keep);
        GetListTVarTVarAdvances(e.r, a, b, ra, rb, env, pend, keep);
        var i := GetListTVarTVar(e.r, ra, rb);
        SimStep(code, done, Pos(env, pend + [e], []), Pos(env[a := ra][b := rb], pend, []), i, keep);
        AllocPop(e, env[a := ra][b := rb], pend, reg.uses, keep);
        code', env' := code + [i], env[a := ra][b := rb];
        reg.Release(e.r);
        TwoMore(e.p, env, ra, rb, reg.Room());
      }
    }
  }

  lemma UnusedPop(r: nat, env: Env, pend: seq<Entry>, e: Entry, keep: set<nat>)
    requires Unused(r, env, pend + [e], keep)
    ensures Unused(r, env, pend, keep) && e.r != r
  {
    Split(pend, e);
  }

  lemma UnusedEarlier(r: nat, a: nat, ra: nat, env: Env, pend: seq<Entry>, e: Entry, keep: set<nat>)
    requires Unused(r, env[a := ra], pend + [e], keep) && a !in env
    ensures Unused(r, env, pend, keep) && e.r != r && ra != r
  {
    UnusedPop(r, env[a := ra], pend, e, keep);
    assert env[a := ra][a] == ra && forall w :: w in env ==> env[a := ra][w] == env[w];
  }

  /** Enters the compound term taken off the queue; its subterms are to be processed next. */
  method GenGet(e: Entry, reg: RegStat, code: seq<Instr>, ghost env: Env,
      ghost pend: seq<Entry>, ghost done: seq<Pattern>, ghost keep: set<nat>)
    returns (code': seq<Instr>, subs: seq<Pattern>)
    requires reg.Valid() && e.p.IsCompound()
    requires Sim(code, done, Pos(env, pend + [e], []), keep)
    requires Allocated(env, pend + [e], reg.uses, keep)
    modifies reg, reg.regArray
    ensures reg.Valid() && subs == Subterms(e.p) && |code'| == |code| + 1
    ensures reg.Room() == old(reg.Room()) + FreedBy(e, keep)
    ensures Sim(code', done, Pos(env, pend, subs), keep) && Allocated(env, pend, reg.uses, keep)
  {
    AllocPop(e, env, pend, reg.uses, keep);
    match e.p
    case PList(h, t) =>
      subs := [h, t];
      GetListAdvances(e.r, h, t, env, pend, keep);
      SimStep(code, done, Pos(env, pend + [e], []), Pos(env, pend, subs), GetList(e.r), keep);
      code' := code + [GetList(e.r)];
      reg.Release(e.r);
    case PStruct(name, args) =>
      subs := args;
      GetStrAdvances(e.r, name, args, env, pend, keep);
      SimStep(code, done, Pos(env, pend + [e], []), Pos(env, pend, subs), GetStr(e.r, name, |args|), keep);
      code' := code + [GetStr(e.r, name, |args|)];
      reg.Release(e.r);
  }

  /** Whether processing the entry frees its register. */
  function FreedBy(e: Entry, keep: set<nat>): nat {
    if e.r in keep then 0 else 1
  }

  /** Emits the get instruction for the compound term taken off the queue, and the unify
      instructions for its subterms; the compound ones among them go on top of the queue. */
  method GenEnter(e: Entry, q: Queue<Entry>, reg: RegStat, code: seq<Instr>, env: Env,
      ghost done: seq<Pattern>, ghost keep: set<nat>)
    returns (ok: bool, code': seq<Instr>, env': Env, ghost newer: seq<Entry>)
    requires q.Valid() && reg.Valid() && q as object != reg && q.slots as object != reg.regArray
    requires e.p.IsCompound()
    requires Sim(code, done, Pos(env, q.entries + [e], []), keep)
    requires Allocated(env, q.entries + [e], reg.uses, keep)
    requires |q.entries| + 1 + reg.Room() <= INST_QUEUE_SIZE - 1
    modifies q, q.slots, reg, reg.regArray
    ensures Enough(e, old(reg.Room()), FreedBy(e, keep), env) ==> ok
    ensures ok ==> q.Valid() && reg.Valid() && q.entries == old(q.entries) + newer
    ensures ok ==> Sim(code', done, Pos(env', q.entries, []), keep) && Allocated(env', q.entries, reg.uses, keep)
    ensures ok ==> |q.entries| + reg.Room() <= INST_QUEUE_SIZE - 1 && Temporary(newer, keep)
    ensures ok ==> Fits(newer, 0, Width(e.p)) && |code| < |code'|
    ensures ok ==> |code'| + PendEmits(newer) == |code| + Emits(e.p)
    ensures ok ==> Accounts(reg.Room(), newer, env', {}, old(reg.Room()) + FreedBy(e, keep), env, Vars(e.p))
  {
    var subs;
    code', subs := GenGet(e, reg, code, env, q.entries, done, keep);
    Entered(e.p);
    ok, code', env', newer := GenInside(subs, q, reg, code', env, done, keep);
  }

  /** Emits the unify instructions for the subterms of one structure, whose compound subterms go on
      top of the queue. */
  method GenInside(subs: seq<Pattern>, q: Queue<Entry>, reg: RegStat, code: seq<Instr>, env: Env,
      ghost done: seq<Pattern>, ghost keep: set<nat>)
    returns (ok: bool, code': seq<Instr>, env': Env, ghost newer: seq<Entry>)
    requires q.Valid() && reg.Valid() && q as object != reg && q.slots as object != reg.regArray
    requires Sim(code, done, Pos(env, q.entries, subs), keep)
    requires Allocated(env, q.entries, reg.uses, keep)
    requires |q.entries| + reg.Room() <= INST_QUEUE_SIZE - 1
    modifies q, q.slots, reg, reg.regArray
    ensures old(reg.Room()) >= Compounds(subs) + |VarsAll(subs) - env.Keys| ==> ok
    ensures ok ==> q.Valid() && reg.Valid() && q.entries == old(q.entries) + newer
    ensures ok ==> Sim(code', done, Pos(env', q.entries, []), keep) && Allocated(env', q.entries, reg.uses, keep)
    ensures ok ==> |q.entries| + reg.Room() <= INST_QUEUE_SIZE - 1 && Temporary(newer, keep)
    ensures ok ==> Fits(newer, 0, WidthAll(subs)) && |code| <= |code'|
    ensures ok ==> |code'| + PendEmits(newer) == |code| + EmitsAll(subs)
    ensures ok ==> Accounts(reg.Room(), newer, env', {}, old(reg.Room()), env, VarsAll(subs))
  {
    ghost var pend := q.entries;
    ok, code', env', newer := GenSubterms(subs, q, reg, code, env, done, keep);
    if ok {
      Rotated(code', done, env', newer, pend, reg.uses, keep);
      ok := q.Rotate();
      assert q.entries == pend + newer;
    }
  }

  /** Emits the instructions that match one compound term with its register. */
  method GenEntry(e: Entry, q: Queue<Entry>, reg: RegStat, code: seq<Instr>, env: Env,
      ghost done: seq<Pattern>, ghost keep: set<nat>)
    returns (ok: bool, code': seq<Instr>, env': Env, ghost newer: seq<Entry>)
    requires q.Valid() && reg.Valid() && q as object != reg && q.slots as object != reg.regArray
    requires e.p.IsCompound()
    requires Sim(code, done, Pos(env, q.entries + [e], []), keep)
    requires Allocated(env, q.entries + [e], reg.uses, keep)
    requires |q.entries| + 1 + reg.Room() <= INST_QUEUE_SIZE - 1
    modifies q, q.slots, reg, reg.regArray
    ensures Enough(e, old(reg.Room()), FreedBy(e, keep), env) ==> ok
    ensures ok ==> q.Valid() && reg.Valid() && q.entries == old(q.entries) + newer
    ensures ok ==> Sim(code', done, Pos(env', q.entries, []), keep) && Allocated(env', q.entries, reg.uses, keep)
    ensures ok ==> |q.entries| + reg.Room() <= INST_QUEUE_SIZE - 1 && Temporary(newer, keep)
    ensures ok ==> Fits(newer, 0, Width(e.p)) && |code| < |code'|
    ensures ok ==> |code'| + PendEmits(newer) == |code| + Instructions(e.p, env)
    ensures ok ==> Accounts(reg.Room(), newer, env', {}, old(reg.Room()) + FreedBy(e, keep), env, Vars(e.p))
  {
    EmitsTwo(e.p, env);
    if e.p.PList? && e.p.head.PVar? && e.p.tail.PVar? && e.p.head.v !in env && e.p.tail.v !in env
       && e.p.head.v != e.p.tail.v {
      ok, code', env' := GenTwoVars(e, reg, code, env, q.entries, done, keep);
      newer := [];
    } else {
      ok, code', env', newer := GenEnter(e, q, reg, code, env, done, keep);
    }
  }

  /** The argument's term has the argument's register, and all others have temporary ones. */
  ghost predicate Registered(isTop: bool, entries: seq<Entry>, keep: set<nat>) {
    if isTop then |entries| == 1 && entries[0].r in keep else Temporary(entries, keep)
  }

  lemma RegisteredTop(isTop: bool, pend: seq<Entry>, e: Entry, keep: set<nat>)
    requires Registered(isTop, pend + [e], keep)
    ensures FreedBy(e, keep) == Freed(isTop)
  {
    assert (pend + [e])[|pend|] == e;
  }

  /** The entries added have been moved to the top. */
  lemma Rotated(code: seq<Instr>, done: seq<Pattern>, env: Env, newer: seq<Entry>, pend: seq<Entry>,
      uses: map<nat, Use>, keep: set<nat>)
    requires Sim(code, done, Pos(env, newer + pend, []), keep) && Allocated(env, newer + pend, uses, keep)
    ensures Sim(code, done, Pos(env, pend + newer, []), keep) && Allocated(env, pend + newer, uses, keep)
    ensures (newer + pend)[..|newer|] == newer && (newer + pend)[|newer|..] == pend
  {
    SimReorder(code, done, env, newer, pend, [], keep);
    AllocReorder(env, newer, pend, uses, keep);
  }

  lemma RegisteredOn(isTop: bool, pend: seq<Entry>, e: Entry, newer: seq<Entry>, keep: set<nat>)
    requires Registered(isTop, pend + [e], keep) && Temporary(newer, keep)
    ensures Registered(false, pend + newer, keep)
  {
    assert forall i :: 0 <= i < |pend| ==> (pend + [e])[i] == pend[i];
  }

  /** Processes the entry on top of the queue. */
  method GenNext(ghost isTop: bool, q: Queue<Entry>, reg: RegStat, code: seq<Instr>, env: Env, ghost n: nat,
      ghost all: set<nat>, ghost done: seq<Pattern>, ghost keep: set<nat>)
    returns (ok: bool, code': seq<Instr>, env': Env)
    requires q.Valid() && reg.Valid() && q as object != reg && q.slots as object != reg.regArray
    requires q.entries != [] && Waits(isTop, q.entries, n) && Covers(env, q.entries, all)
    requires Registered(isTop, q.entries, keep)
    requires Sim(code, done, Pos(env, q.entries, []), keep)
    requires Allocated(env, q.entries, reg.uses, keep)
    requires |q.entries| + reg.Room() <= INST_QUEUE_SIZE - 1
    modifies q, q.slots, reg, reg.regArray
    ensures n + |all| <= Budget(isTop, old(reg.Room()), old(q.entries), env) ==> ok
    ensures ok ==> q.Valid() && reg.Valid() && |q.entries| + reg.Room() <= INST_QUEUE_SIZE - 1
    ensures ok ==> Sim(code', done, Pos(env', q.entries, []), keep) && Allocated(env', q.entries, reg.uses, keep)
    ensures ok ==> Registered(false, q.entries, keep) && Waits(false, q.entries, n)
    ensures ok ==> |code| < |code'| && |code'| + PendEmits(q.entries) <= |code| + PendEmits(old(q.entries))
    ensures ok && isTop ==> |code'| + PendEmits(q.entries) == |code| + Instructions(old(q.entries)[0].p, env)
    ensures ok ==> Covers(env', q.entries, all)
    ensures ok ==>
      Budget(false, reg.Room(), q.entries, env') == Budget(isTop, old(reg.Room()), old(q.entries), env)
  {
    ghost var es := q.entries;
    var e := q.Pop();
    ghost var pend := q.entries;
    AllocPop(e, env, pend, reg.uses, keep);
    RegisteredTop(isTop, pend, e, keep);
    if n + |all| <= Budget(isTop, reg.Room(), es, env) {
      EnoughForTop(isTop, pend, e, n, env, all, reg.Room());
    }
    ghost var room := reg.Room();
    ghost var newer;
    ok, code', env', newer := GenEntry(e, q, reg, code, env, done, keep);
    if ok {
      WaitsOn(isTop, pend, e, newer, n);
      RegisteredOn(isTop, pend, e, newer, keep);
      CodeGrows(isTop, pend, e, newer, n, env, |code|, |code'|);
      BudgetKept(isTop, pend, e, newer, env, env', all, room, reg.Room());
    }
  }

  /** Emits the instructions that match an argument's compound term with its register. There are
      registers enough if there is one for each new variable and for the compound subterms that wait
      at one time; the new variables keep theirs, and no other is kept. */
  method GenTerms(q: Queue<Entry>, reg: RegStat, code: seq<Instr>, env: Env, ghost top: Entry,
      ghost done: seq<Pattern>, ghost keep: set<nat>)
    returns (ok: bool, code': seq<Instr>, env': Env)
    requires q.Valid() && reg.Valid() && q as object != reg && q.slots as object != reg.regArray
    requires q.entries == [top] && top.r in keep
    requires Sim(code, done, Pos(env, q.entries, []), keep)
    requires Allocated(env, q.entries, reg.uses, keep)
    requires |q.entries| + reg.Room() <= INST_QUEUE_SIZE - 1
    modifies q, q.slots, reg, reg.regArray
    ensures old(reg.Room()) >= Width(top.p) + |Vars(top.p) - env.Keys| ==> ok
    ensures ok ==> reg.Valid() && reg.Room() == old(reg.Room()) - |Vars(top.p) - env.Keys|
    ensures ok ==> env'.Keys == env.Keys + Vars(top.p) && |code| < |code'| <= |code| + Instructions(top.p, env)
    ensures ok ==> Sim(code', done, Pos(env', [], []), keep) && Allocated(env', [], reg.uses, keep)
  {
    ok, code', env' := true, code, env;
    ghost var isTop, room, all := true, reg.Room(), env.Keys + Vars(top.p);
    CoversTop(top, env, all);
    while !q.IsEmpty()
      invariant ok && q.Valid() && reg.Valid()
      invariant Sim(code', done, Pos(env', q.entries, []), keep) && Allocated(env', q.entries, reg.uses, keep)
      invariant |q.entries| + reg.Room() <= INST_QUEUE_SIZE - 1 && Waits(isTop, q.entries, Width(top.p))
      invariant Registered(isTop, q.entries, keep)
      invariant if isTop then q.entries == [top] && code' == code && env' == env
        else |code| < |code'| && |code'| + PendEmits(q.entries) <= |code| + Instructions(top.p, env)
      invariant Covers(env', q.entries, all) && Budget(isTop, reg.Room(), q.entries, env') == room + |env|
      decreases PendEmits(q.entries)
    {
      ok, code', env' := GenNext(isTop, q, reg, code', env', Width(top.p), all, done, keep);
      if !ok {
        return;
      }
      isTop := false;
    }
    CoversAll(env', all);
  }
}
