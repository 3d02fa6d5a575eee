/** Compiling the arguments of a clause's body into put and build instructions. */
module BodyCompiler {
  import opened Sequences
  import opened Terms
  import opened HeadSim
  import opened HeadCompiler
  import opened Registers
  import opened InstQueue
  import opened Waiting
  import B = BodySim
  import M = MoveScheduler

  type Code = seq<B.Build>

  ghost predicate OwnRegister(env: Env, head: Env, v: nat, w: nat) {
    v in env && w in env && v != w && v !in head ==> env[v] != env[w]
  }

  predicate OfHead(p: Pattern, head: Env) {
    p.PVar? && p.v in head
  }

  /** Pending entries have temporary registers; finished registers are in use for good, and only those of
      the head's variables can be arguments'; a new variable shares its register with no other. */
  ghost predicate Placed(env: Env, pend: seq<Entry>, done: seq<Entry>, head: Env, uses: map<nat, Use>) {
    && Allocated(env, pend, uses, {})
    && (forall i {:trigger done[i]} :: 0 <= i < |done| ==> done[i].r in uses && uses[done[i].r] != TempVar)
    && (forall i {:trigger done[i]} :: 0 <= i < |done| ==> OfHead(done[i].p, head) || uses[done[i].r] == RealVar)
    && (forall v {:trigger env[v]} :: v in env ==> v in head || uses[env[v]] == RealVar)
    && (forall v, w {:trigger OwnRegister(env, head, v, w)} :: OwnRegister(env, head, v, w))
  }

  lemma FreshUnused(r: nat, at: Pos, done: seq<Entry>, head: Env, uses: map<nat, Use>)
    requires Placed(at.env, at.pend, done, head, uses) && r !in uses
    ensures B.Unused(r, at, done)
  {
  }

  lemma PlaceVar(v: nat, r: nat, env: Env, pend: seq<Entry>, done: seq<Entry>, head: Env, uses: map<nat, Use>)
    requires Placed(env, pend, done, head, uses) && r !in uses && v !in env
    ensures Placed(env[v := r], pend, done, head, uses[r := RealVar])
  {
    AllocVar(v, r, env, pend, uses, {});
    var env' := env[v := r];
    forall x, y ensures OwnRegister(env', head, x, y) {
      assert OwnRegister(env, head, x, y);
      assert x in env ==> env[x] in uses;
      assert y in env ==> env[y] in uses;
    }
  }

  lemma PlaceEntry(p: Pattern, r: nat, env: Env, pend: seq<Entry>, done: seq<Entry>, head: Env, uses: map<nat, Use>)
    requires Placed(env, pend, done, head, uses) && r !in uses && p.IsCompound()
    ensures Placed(env, [Entry(r, p)] + pend, done, head, uses[r := TempVar])
  {
    AllocEntry(p, r, env, pend, uses, {});
    var pend' := [Entry(r, p)] + pend;
    assert forall i :: 0 < i < |pend'| ==> pend'[i] == pend[i - 1];
  }

  lemma PlacePop(e: Entry, env: Env, pend: seq<Entry>, done: seq<Entry>, head: Env, uses: map<nat, Use>)
    requires Placed(env, pend + [e], done, head, uses)
    ensures e.r in uses && uses[e.r] == TempVar && e.p.IsCompound()
    ensures Placed(env, pend, done, head, uses - {e.r})
    ensures forall j {:trigger pend[j]} :: 0 <= j < |pend| ==> pend[j].r != e.r
    ensures forall v {:trigger env[v]} :: v in env ==> env[v] != e.r
  {
    Split(pend, e);
    assert uses[(pend + [e])[|pend|].r] == TempVar;
    AllocPop(e, env, pend, uses, {});
    forall j | 0 <= j < |pend| ensures pend[j].r != e.r && uses[pend[j].r] == TempVar {
      assert Apart(pend + [e], j, |pend|);
      assert (pend + [e])[j] == pend[j];
    }
  }

  lemma PlaceReorder(env: Env, x: seq<Entry>, y: seq<Entry>, done: seq<Entry>, head: Env, uses: map<nat, Use>)
    requires Placed(env, x + y, done, head, uses)
    ensures Placed(env, y + x, done, head, uses)
  {
    AllocReorder(env, x, y, uses, {});
    assert forall i :: 0 <= i < |y + x| ==> (y + x)[i] == if i < |y| then (x + y)[|x| + i] else (x + y)[i - |y|];
  }

  /** A constant or a variable. */
  method BuildSimple(sub: Pattern, reg: RegStat, code: Code, env: Env, ghost pend: seq<Entry>, ghost rest: seq<Pattern>,
      ghost done: seq<Entry>, ghost head: Env)
    returns (ok: bool, code': Code, env': Env)
    requires reg.Valid() && !sub.IsCompound()
    requires B.Built(code, done, Pos(env, pend, [sub] + rest), head)
    requires Placed(env, pend, done, head, reg.uses)
    modifies reg, reg.regArray
    ensures old(reg.Room()) > 0 || Vars(sub) <= env.Keys ==> ok
    ensures ok ==> reg.Valid() && Accounts(reg.Room(), [], env', {}, old(reg.Room()), env, Vars(sub))
    ensures ok ==> reg.Room() <= old(reg.Room()) && |code'| == |code| + 1
    ensures ok ==> B.Built(code', done, Pos(env', pend, rest), head) && Placed(env', pend, done, head, reg.uses)
  {
    ok, code', env' := true, code, env;
    NoneMore(sub, env, reg.Room());
    ghost var at := Pos(env, pend, [sub] + rest);
    assert done + [] == done;
    match sub
    case PConst(c) =>
      B.BldConstAdvances(c, env, pend, rest, head, done);
      B.BuiltStep(code, done, at, Pos(env, pend, rest), B.BldConst(c), head, []);
      code' := code + [B.BldConst(c)];
    case PVar(v) =>
      if v in env {
        B.BldTValAdvances(v, env, pend, rest, head, done);
        B.BuiltStep(code, done, at, Pos(env, pend, rest), B.BldTVal(env[v]), head, []);
        code' := code + [B.BldTVal(env[v])];
      } else {
        ghost var uses := reg.uses;
        var r;
        ok, r := reg.Get(RealVar);
        if ok {
          FreshUnused(r, Pos(env, pend, rest), done, head, uses);
          PlaceVar(v, r, env, pend, done, head, uses);
          OneMore(v, r, env, reg.Room());
          B.BldTVarAdvances(v, r, env, pend, rest, head, done);
          B.BuiltStep(code, done, at, Pos(env[v := r], pend, rest), B.BldTVar(r), head, []);
          code', env' := code + [B.BldTVar(r)], env[v := r];
        }
      }
  }

  /** A compound subterm: a variable is left in its place, and it is queued. */
  method BuildLater(sub: Pattern, q: Queue<Entry>, reg: RegStat, code: Code, env: Env, ghost rest: seq<Pattern>,
      ghost done: seq<Entry>, ghost head: Env)
    returns (ok: bool, code': Code, ghost e: Entry)
    requires q.Valid() && reg.Valid() && q as object != reg && q.slots as object != reg.regArray
    requires sub.IsCompound()
    requires B.Built(code, done, Pos(env, q.entries, [sub] + rest), head)
    requires Placed(env, q.entries, done, head, reg.uses)
    requires |q.entries| + reg.Room() <= INST_QUEUE_SIZE - 1
    modifies q, q.slots, reg, reg.regArray
    ensures old(reg.Room()) > 0 ==> ok
    ensures ok ==> q.Valid() && reg.Valid() && q.entries == [e] + old(q.entries) && q.added == old(q.added) + 1
    ensures ok ==> e.p == sub && |code'| == |code| + 1 && PendEmits([e]) == Emits(sub) && Within([e], Width(sub))
    ensures ok ==> Accounts(reg.Room(), [e], env, {}, old(reg.Room()), env, Vars(sub)) && reg.Room() < old(reg.Room())
    ensures ok ==> B.Built(code', done, Pos(env, q.entries, rest), head) && Placed(env, q.entries, done, head, reg.uses)
  {
    ghost var uses, pend := reg.uses, q.entries;
    code' := code;
    var r;
    ok, r := reg.Get(TempVar);
    e := Entry(r, sub);
    if ok {
      FreshUnused(r, Pos(env, pend, rest), done, head, uses);
      PlaceEntry(sub, r, env, pend, done, head, uses);
      OneQueued(e, reg.Room(), env, reg.Room() + 1);
      B.BldLaterAdvances(sub, r, env, pend, rest, head, done);
      assert done + [] == done;
      B.BuiltStep(code, done, Pos(env, pend, [sub] + rest), Pos(env, [e] + pend, rest), B.BldTVar(r), head, []);
      code' := code + [B.BldTVar(r)];
      ok := q.Add(Entry(r, sub));
    }
  }

  /** The small integer at the front of a list in last position. */
  method BuildOneSmall(sub: Pattern, reg: RegStat, code: Code, env: Env, ghost pend: seq<Entry>, ghost done: seq<Entry>,
      ghost head: Env)
    returns (ok: bool, code': Code)
    requires reg.Valid() && StartsSmall(sub)
    requires B.Built(code, done, Pos(env, pend, [sub]), head) && Placed(env, pend, done, head, reg.uses)
    modifies reg, reg.regArray
    ensures old(reg.Room()) > 0 ==> ok
    ensures ok ==> reg.Valid() && reg.Room() == old(reg.Room()) && reg.uses == old(reg.uses)
    ensures ok ==> B.Built(code', done, Pos(env, pend, [sub.tail]), head) && |code'| == |code| + 1
  {
    code' := code;
    ghost var uses := reg.uses;
    var n := sub.head.c.n;
    var r;
    ok, r := reg.Get(TempVar);
    if ok {
      var i := B.BldTVarListNumCon(r, n / 256, n % 256);
      FreshUnused(r, Pos(env, pend, [sub]), done, head, uses);
      B.BldListAdvances(n, sub.tail, r, n / 256, n % 256, env, pend, head, done);
      assert done + [] == done;
      B.BuiltStep(code, done, Pos(env, pend, [sub]), Pos(env, pend, [sub.tail]), i, head, []);
      code' := code + [i];
      reg.Release(r);
      assert reg.uses == uses;
    }
  }

  /** The small integers at the front of a list in last position, one instruction each. */
  method BuildSmall(sub0: Pattern, reg: RegStat, code: Code, env: Env, ghost pend: seq<Entry>, ghost done: seq<Entry>,
      ghost head: Env)
    returns (ok: bool, code': Code, sub: Pattern)
    requires reg.Valid()
    requires B.Built(code, done, Pos(env, pend, [sub0]), head)
    requires Placed(env, pend, done, head, reg.uses)
    modifies reg, reg.regArray
    ensures old(reg.Room()) > 0 || !StartsSmall(sub0) ==> ok
    ensures ok ==> |code| <= |code'| && |code'| + EmitsLast(sub) == |code| + EmitsLast(sub0)
    ensures ok ==> reg.Valid() && reg.Room() == old(reg.Room()) && SameBut(sub0, sub) && !StartsSmall(sub)
    ensures ok ==> B.Built(code', done, Pos(env, pend, [sub]), head) && Placed(env, pend, done, head, reg.uses)
  {
    ok, code', sub := true, code, sub0;
    while StartsSmall(sub)
      invariant reg.Valid() && reg.Room() == old(reg.Room()) && SameBut(sub0, sub)
      invariant sub == sub0 || StartsSmall(sub0)
      invariant |code| <= |code'| && |code'| + EmitsLast(sub) == |code| + EmitsLast(sub0)
      invariant B.Built(code', done, Pos(env, pend, [sub]), head) && Placed(env, pend, done, head, reg.uses)
      decreases sub
    {
      ok, code' := BuildOneSmall(sub, reg, code', env, pend, done, head);
      if !ok {
        return;
      }
      assert Vars(sub.tail) == Vars(sub) && sub0.IsCompound();
      sub := sub.tail;
    }
    ok := true;
  }

  /** Emits the build instruction for one subterm; a compound subterm is queued. */
  method BuildOne(sub: Pattern, q: Queue<Entry>, reg: RegStat, code: Code, env: Env, ghost rest: seq<Pattern>,
      ghost done: seq<Entry>, ghost head: Env)
    returns (ok: bool, code': Code, env': Env, ghost newer: seq<Entry>)
    requires q.Valid() && reg.Valid() && q as object != reg && q.slots as object != reg.regArray
    requires B.Built(code, done, Pos(env, q.entries, [sub] + rest), head)
    requires Placed(env, q.entries, done, head, reg.uses)
    requires |q.entries| + reg.Room() <= INST_QUEUE_SIZE - 1
    modifies q, q.slots, reg, reg.regArray
    ensures old(reg.Room()) > 0 || (!sub.IsCompound() && Vars(sub) <= env.Keys) ==> ok
    ensures ok ==> q.Valid() && reg.Valid() && q.entries == newer + old(q.entries) && q.added == old(q.added) + |newer|
    ensures ok ==> B.Built(code', done, Pos(env', q.entries, rest), head)
    ensures ok ==> Placed(env', q.entries, done, head, reg.uses)
    ensures ok ==> |q.entries| + reg.Room() <= INST_QUEUE_SIZE - 1
    ensures ok ==> |code'| == |code| + 1 && PendEmits(newer) == Emits(sub)
    ensures ok ==> |newer| <= (if sub.IsCompound() then 1 else 0) && Within(newer, Width(sub))
    ensures ok ==> Accounts(reg.Room(), newer, env', {}, old(reg.Room()), env, Vars(sub))
  {
    env', newer := env, [];
    if sub.IsCompound() {
      ghost var e;
      ok, code', e := BuildLater(sub, q, reg, code, env, rest, done, head);
      newer := [e];
    } else {
      ok, code', env' := BuildSimple(sub, reg, code, env, q.entries, rest, done, head);
    }
  }

  /** Emits the build instructions for one subterm, which may start with small integers. */
  method BuildInst(sub0: Pattern, isLast: bool, q: Queue<Entry>, reg: RegStat, code: Code, env: Env,
      ghost rest: seq<Pattern>, ghost done: seq<Entry>, ghost head: Env)
    returns (ok: bool, code': Code, env': Env, ghost newer: seq<Entry>)
    requires q.Valid() && reg.Valid() && q as object != reg && q.slots as object != reg.regArray
    requires B.Built(code, done, Pos(env, q.entries, [sub0] + rest), head)
    requires (isLast ==> rest == [])
    requires Placed(env, q.entries, done, head, reg.uses)
    requires |q.entries| + reg.Room() <= INST_QUEUE_SIZE - 1
    modifies q, q.slots, reg, reg.regArray
    ensures old(reg.Room()) > 0 || (!sub0.IsCompound() && Vars(sub0) <= env.Keys) ==> ok
    ensures ok ==> q.Valid() && reg.Valid() && q.entries == newer + old(q.entries) && q.added == old(q.added) + |newer|
    ensures ok ==> B.Built(code', done, Pos(env', q.entries, rest), head)
    ensures ok ==> Placed(env', q.entries, done, head, reg.uses)
    ensures ok ==> |q.entries| + reg.Room() <= INST_QUEUE_SIZE - 1
    ensures ok ==> |code| <= |code'| && |code'| + PendEmits(newer) == |code| + EmitsSub(sub0, isLast)
    ensures ok ==> |newer| <= (if sub0.IsCompound() then 1 else 0) && Within(newer, Width(sub0))
    ensures ok ==> Accounts(reg.Room(), newer, env', {}, old(reg.Room()), env, Vars(sub0))
  {
    var sub := sub0;
    code' := code;
    if isLast {
      assert [sub0] + rest == [sub0];
      ok, code', sub := BuildSmall(sub0, reg, code, env, q.entries, done, head);
      if !ok {
        env', newer := env, [];
        return;
      }
      assert [sub] + rest == [sub];
    }
    ok, code', env', newer := BuildOne(sub, q, reg, code', env, rest, done, head);
  }

  /** Emits the build instructions for the subterm at i. */
  method BuildNextSub(subs: seq<Pattern>, i: nat, q: Queue<Entry>, reg: RegStat, code: Code, env: Env,
      ghost rest: seq<Pattern>, ghost done: seq<Entry>, ghost head: Env, ghost newer: seq<Entry>,
      ghost pend: seq<Entry>, ghost start: nat, ghost before: Env, ghost from: nat)
    returns (ok: bool, code': Code, env': Env, ghost newer': seq<Entry>)
    requires q.Valid() && reg.Valid() && q as object != reg && q.slots as object != reg.regArray
    requires i < |subs| && q.entries == newer + pend && q.added == |newer|
    requires B.Built(code, done, Pos(env, q.entries, [subs[i]] + rest), head) && rest == subs[i + 1..]
    requires Placed(env, q.entries, done, head, reg.uses)
    requires |q.entries| + reg.Room() <= INST_QUEUE_SIZE - 1
    requires Partly(newer, subs, i, reg.Room(), env, |code|, start, before, from)
    modifies q, q.slots, reg, reg.regArray
    ensures start >= Compounds(subs) + |VarsAll(subs) - before.Keys| ==> ok
    ensures ok ==> q.Valid() && reg.Valid() && q.entries == newer' + pend && q.added == |newer'|
    ensures ok ==> B.Built(code', done, Pos(env', q.entries, rest), head)
    ensures ok ==> Placed(env', q.entries, done, head, reg.uses)
    ensures ok ==> |q.entries| + reg.Room() <= INST_QUEUE_SIZE - 1
    ensures ok ==> Partly(newer', subs, i + 1, reg.Room(), env', |code'|, start, before, from)
  {
    EnoughForNext(subs, i, newer, env, reg.Room(), |code|, start, before, from);
    ghost var more, room := [], reg.Room();
    ok, code', env', more := BuildInst(subs[i], i == |subs| - 1, q, reg, code, env, rest, done, head);
    newer' := more + newer;
    if ok {
      ConcatAssoc(more, newer, pend);
      PartlyNext(newer, subs, i, room, env, |code|, start, before, from, more, reg.Room(), env', |code'|);
    }
  }

  method BuildSubAt(subs: seq<Pattern>, i: nat, q: Queue<Entry>, reg: RegStat, code: Code, env: Env,
      ghost done: seq<Entry>, ghost head: Env, ghost newer: seq<Entry>, ghost pend: seq<Entry>, ghost start: nat,
      ghost before: Env, ghost from: nat)
    returns (ok: bool, code': Code, env': Env, ghost newer': seq<Entry>)
    requires q.Valid() && reg.Valid() && q as object != reg && q.slots as object != reg.regArray
    requires i < |subs| && q.entries == newer + pend && q.added == |newer|
    requires B.Built(code, done, Pos(env, q.entries, subs[i..]), head) && Placed(env, q.entries, done, head, reg.uses)
    requires |q.entries| + reg.Room() <= INST_QUEUE_SIZE - 1
    requires Partly(newer, subs, i, reg.Room(), env, |code|, start, before, from)
    modifies q, q.slots, reg, reg.regArray
    ensures start >= Compounds(subs) + |VarsAll(subs) - before.Keys| ==> ok
    ensures ok ==> q.Valid() && reg.Valid() && q.entries == newer' + pend && q.added == |newer'|
    ensures ok ==> B.Built(code', done, Pos(env', q.entries, subs[i + 1..]), head)
    ensures ok ==> Placed(env', q.entries, done, head, reg.uses)
    ensures ok ==> |q.entries| + reg.Room() <= INST_QUEUE_SIZE - 1
    ensures ok ==> Partly(newer', subs, i + 1, reg.Room(), env', |code'|, start, before, from)
  {
    From(subs, i);
    ok, code', env', newer' := BuildNextSub(subs, i, q, reg, code, env, subs[i + 1..], done, head, newer, pend, start,
      before, from);
  }

  /** Emits the build instructions for the subterms of one structure. */
  method BuildSubterms(subs: seq<Pattern>, q: Queue<Entry>, reg: RegStat, code: Code, env: Env,
      ghost done: seq<Entry>, ghost head: Env)
    returns (ok: bool, code': Code, env': Env, ghost newer: seq<Entry>)
    requires q.Valid() && reg.Valid() && q as object != reg && q.slots as object != reg.regArray
    requires B.Built(code, done, Pos(env, q.entries, subs), head)
    requires Placed(env, q.entries, done, head, reg.uses)
    requires |q.entries| + reg.Room() <= INST_QUEUE_SIZE - 1
    modifies q, q.slots, reg, reg.regArray
    ensures old(reg.Room()) >= Compounds(subs) + |VarsAll(subs) - env.Keys| ==> ok
    ensures ok ==> q.Valid() && reg.Valid() && q.entries == newer + old(q.entries) && q.added == |newer|
    ensures ok ==> B.Built(code', done, Pos(env', q.entries, []), head) && Placed(env', q.entries, done, head, reg.uses)
    ensures ok ==> |q.entries| + reg.Room() <= INST_QUEUE_SIZE - 1
    ensures ok ==> Fits(newer, 0, WidthAll(subs)) && |code| <= |code'|
    ensures ok ==> |code'| + PendEmits(newer) == |code| + EmitsAll(subs)
    ensures ok ==> Accounts(reg.Room(), newer, env', {}, old(reg.Room()), env, VarsAll(subs))
  {
    ok, code', env', newer := true, code, env, [];
    q.added := 0;
    ghost var pend := q.entries;
    PartlyStart(subs, reg.Room(), env, |code|);
    var i := 0;
    while i < |subs|
      invariant ok && i <= |subs| && q.Valid() && reg.Valid()
      invariant q.entries == newer + pend && q.added == |newer|
      invariant B.Built(code', done, Pos(env', q.entries, subs[i..]), head)
      invariant Placed(env', q.entries, done, head, reg.uses)
      invariant |q.entries| + reg.Room() <= INST_QUEUE_SIZE - 1
      invariant Partly(newer, subs, i, reg.Room(), env', |code'|, old(reg.Room()), env, |code|)
    {
      ok, code', env', newer := BuildSubAt(subs, i, q, reg, code', env', done, head, newer, pend,
        old(reg.Room()), env, |code|);
      if !ok {
        return;
      }
      i := i + 1;
    }
    PartlyEnd(newer, subs, reg.Room(), env', |code'|, old(reg.Room()), env, |code|);
  }

  /** The entry e has just been taken off the queue. The first one is the argument itself, whose
      register is still to be set; the others refer to variables to be bound. */
  ghost predicate Taken(isTop: bool, e: Entry, code: Code, env: Env, pend: seq<Entry>, done: seq<Entry>, head: Env,
      uses: map<nat, Use>) {
    if isTop then
      && pend == [] && B.Built(code, done, Pos(env, [], []), head) && Placed(env, [], done, head, uses)
      && e.r in uses && uses[e.r] == RealVar && e.p.IsCompound() && B.Unused(e.r, Pos(env, [], []), done)
    else
      B.Built(code, done, Pos(env, pend + [e], []), head) && Placed(env, pend + [e], done, head, uses)
  }

  /** The registers finished, once the entry e is. */
  function Finishing(isTop: bool, e: Entry, done: seq<Entry>): seq<Entry> {
    if isTop then done + [e] else done
  }

  lemma PlaceTop(e: Entry, env: Env, done: seq<Entry>, head: Env, uses: map<nat, Use>)
    requires Placed(env, [], done, head, uses) && e.r in uses && uses[e.r] == RealVar
    ensures Placed(env, [], done + [e], head, uses)
  {
    assert forall i :: 0 <= i < |done| ==> (done + [e])[i] == done[i];
  }

  /** The instruction that starts the compound term e. */
  function StartTerm(isTop: bool, e: Entry): B.Build
    requires e.p.IsCompound()
  {
    match e.p
    case PList(h, t) => if isTop then B.PutList(e.r) else B.Build.GetList(e.r)
    case PStruct(name, args) => if isTop then B.PutStr(e.r, name, |args|) else B.Build.GetStr(e.r, name, |args|)
  }

  lemma TermStarted(isTop: bool, e: Entry, code: Code, env: Env, pend: seq<Entry>, done: seq<Entry>, head: Env,
      uses: map<nat, Use>)
    requires Taken(isTop, e, code, env, pend, done, head, uses)
    ensures e.p.IsCompound()
    ensures B.Built(code + [StartTerm(isTop, e)], Finishing(isTop, e, done), Pos(env, pend, Subterms(e.p)), head)
    ensures e.r in uses
    ensures Placed(env, pend, Finishing(isTop, e, done), head, if isTop then uses else uses - {e.r})
    ensures uses[e.r] == if isTop then RealVar else TempVar
  {
    if isTop {
      PlaceTop(e, env, done, head, uses);
    } else {
      PlacePop(e, env, pend, done, head, uses);
    }
    var i, subs := StartTerm(isTop, e), Subterms(e.p);
    if isTop {
      B.PutAdvances(e, i, env, subs, head, done);
      B.BuiltStep(code, done, Pos(env, [], []), Pos(env, [], subs), i, head, [e]);
    } else {
      if e.p.PList? {
        B.GetListAdvances(e.r, e.p.head, e.p.tail, env, pend, head, done);
      } else {
        B.GetStrAdvances(e.r, e.p.name, e.p.args, env, pend, head, done);
      }
      B.BuiltStep(code, done, Pos(env, pend + [e], []), Pos(env, pend, subs), i, head, []);
      assert done + [] == done;
    }
  }

  /** Emits the instruction that starts the compound term taken off the queue. */
  method BuildStart(isTop: bool, e: Entry, reg: RegStat, code: Code, ghost env: Env, ghost pend: seq<Entry>,
      ghost done: seq<Entry>, ghost head: Env)
    returns (code': Code, subs: seq<Pattern>)
    requires reg.Valid() && Taken(isTop, e, code, env, pend, done, head, reg.uses)
    modifies reg, reg.regArray
    ensures reg.Valid() && e.p.IsCompound() && subs == Subterms(e.p) && |code'| == |code| + 1
    ensures reg.Room() == old(reg.Room()) + Freed(isTop)
    ensures B.Built(code', Finishing(isTop, e, done), Pos(env, pend, subs), head)
    ensures Placed(env, pend, Finishing(isTop, e, done), head, reg.uses)
  {
    TermStarted(isTop, e, code, env, pend, done, head, reg.uses);
    code', subs := code + [StartTerm(isTop, e)], Subterms(e.p);
    reg.Release(e.r);
  }

  /** The entries added have been moved to the top. */
  lemma BuiltRotated(code: Code, done: seq<Entry>, env: Env, newer: seq<Entry>, pend: seq<Entry>, head: Env,
      uses: map<nat, Use>)
    requires B.Built(code, done, Pos(env, newer + pend, []), head) && Placed(env, newer + pend, done, head, uses)
    ensures B.Built(code, done, Pos(env, pend + newer, []), head) && Placed(env, pend + newer, done, head, uses)
    ensures (newer + pend)[..|newer|] == newer && (newer + pend)[|newer|..] == pend
  {
    B.BuiltReorder(code, done, env, newer, pend, [], head);
    PlaceReorder(env, newer, pend, done, head, uses);
  }

  /** Emits the build instructions for the subterms of one structure, whose compound subterms go on
      top of the queue. */
  method BuildInside(subs: seq<Pattern>, q: Queue<Entry>, reg: RegStat, code: Code, env: Env, ghost done: seq<Entry>,
      ghost head: Env)
    returns (ok: bool, code': Code, env': Env, ghost newer: seq<Entry>)
    requires q.Valid() && reg.Valid() && q as object != reg && q.slots as object != reg.regArray
    requires B.Built(code, done, Pos(env, q.entries, subs), head) && Placed(env, q.entries, done, head, reg.uses)
    requires |q.entries| + reg.Room() <= INST_QUEUE_SIZE - 1
    modifies q, q.slots, reg, reg.regArray
    ensures old(reg.Room()) >= Compounds(subs) + |VarsAll(subs) - env.Keys| ==> ok
    ensures ok ==> q.Valid() && reg.Valid() && q.entries == old(q.entries) + newer
    ensures ok ==> B.Built(code', done, Pos(env', q.entries, []), head) && Placed(env', q.entries, done, head, reg.uses)
    ensures ok ==> |q.entries| + reg.Room() <= INST_QUEUE_SIZE - 1
    ensures ok ==> Fits(newer, 0, WidthAll(subs)) && |code| <= |code'|
    ensures ok ==> |code'| + PendEmits(newer) == |code| + EmitsAll(subs)
    ensures ok ==> Accounts(reg.Room(), newer, env', {}, old(reg.Room()), env, VarsAll(subs))
  {
    ghost var pend := q.entries;
    ok, code', env', newer := BuildSubterms(subs, q, reg, code, env, done, head);
    if ok {
      BuiltRotated(code', done, env', newer, pend, head, reg.uses);
      ok := q.Rotate();
      assert q.entries == pend + newer;
    }
  }

  /** Builds the compound term taken off the queue, but for its compound subterms, which go on top
      of the queue. */
  method BuildEntry(isTop: bool, e: Entry, q: Queue<Entry>, reg: RegStat, code: Code, env: Env, ghost done: seq<Entry>,
      ghost head: Env)
    returns (ok: bool, code': Code, env': Env, ghost newer: seq<Entry>)
    requires q.Valid() && reg.Valid() && q as object != reg && q.slots as object != reg.regArray
    requires Taken(isTop, e, code, env, q.entries, done, head, reg.uses)
    requires |q.entries| + 1 + reg.Room() <= INST_QUEUE_SIZE - 1
    modifies q, q.slots, reg, reg.regArray
    ensures Enough(e, old(reg.Room()), Freed(isTop), env) ==> ok
    ensures ok ==> q.Valid() && reg.Valid() && q.entries == old(q.entries) + newer
    ensures ok ==> B.Built(code', Finishing(isTop, e, done), Pos(env', q.entries, []), head)
    ensures ok ==> Placed(env', q.entries, Finishing(isTop, e, done), head, reg.uses)
    ensures ok ==> |q.entries| + reg.Room() <= INST_QUEUE_SIZE - 1
    ensures ok ==> Fits(newer, 0, Width(e.p)) && |code| < |code'|
    ensures ok ==> |code'| + PendEmits(newer) == |code| + Emits(e.p)
    ensures ok ==> Accounts(reg.Room(), newer, env', {}, old(reg.Room()) + Freed(isTop), env, Vars(e.p))
  {
    var subs;
    code', subs := BuildStart(isTop, e, reg, code, env, q.entries, done, head);
    Entered(e.p);
    ok, code', env', newer := BuildInside(subs, q, reg, code', env, Finishing(isTop, e, done), head);
  }

  /** The queue while the argument `top` is built: at first it holds just that. */
  ghost predicate Building(isTop: bool, top: Entry, entries: seq<Entry>, code: Code, env: Env, done: seq<Entry>,
      head: Env, uses: map<nat, Use>) {
    if isTop then
      entries == [top] && Taken(true, top, code, env, [], done, head, uses)
    else
      B.Built(code, done + [top], Pos(env, entries, []), head) && Placed(env, entries, done + [top], head, uses)
  }

  /** Processes the entry on top of the queue. */
  method BuildNext(isTop: bool, q: Queue<Entry>, reg: RegStat, code: Code, env: Env, ghost n: nat,
      ghost all: set<nat>, ghost top: Entry, ghost done: seq<Entry>, ghost head: Env)
    returns (ok: bool, code': Code, env': Env)
    requires q.Valid() && reg.Valid() && q as object != reg && q.slots as object != reg.regArray
    requires q.entries != [] && Waits(isTop, q.entries, n) && Covers(env, q.entries, all)
    requires Building(isTop, top, q.entries, code, env, done, head, reg.uses)
    requires |q.entries| + reg.Room() <= INST_QUEUE_SIZE - 1
    modifies q, q.slots, reg, reg.regArray
    ensures n + |all| <= Budget(isTop, old(reg.Room()), old(q.entries), env) ==> ok
    ensures ok ==> q.Valid() && reg.Valid() && |q.entries| + reg.Room() <= INST_QUEUE_SIZE - 1
    ensures ok ==> Building(false, top, q.entries, code', env', done, head, reg.uses)
    ensures ok ==> Waits(false, q.entries, n) && |code| < |code'|
    ensures ok ==> |code'| + PendEmits(q.entries) == |code| + PendEmits(old(q.entries))
    ensures ok ==> Covers(env', q.entries, all)
    ensures ok ==>
      Budget(false, reg.Room(), q.entries, env') == Budget(isTop, old(reg.Room()), old(q.entries), env)
  {
    ghost var fin, es := if isTop then done else done + [top], q.entries;
    var e := q.Pop();
    ghost var pend := q.entries;
    assert isTop ==> pend == [] && e == top;
    if n + |all| <= Budget(isTop, reg.Room(), es, env) {
      EnoughForTop(isTop, pend, e, n, env, all, reg.Room());
    }
    ghost var room := reg.Room();
    ghost var newer;
    ok, code', env', newer := BuildEntry(isTop, e, q, reg, code, env, fin, head);
    if ok {
      WaitsOn(isTop, pend, e, newer, n);
      BudgetKept(isTop, pend, e, newer, env, env', all, room, reg.Room());
    }
  }

  /** Builds a compound argument. There are registers enough if there is one for each new variable and
      for the compound subterms that wait at one time; the new variables keep theirs, and no other is
      kept but the argument's own. */
  method BuildTerms(q: Queue<Entry>, reg: RegStat, code: Code, env: Env, ghost top: Entry, ghost done: seq<Entry>,
      ghost head: Env)
    returns (ok: bool, code': Code, env': Env)
    requires q.Valid() && reg.Valid() && q as object != reg && q.slots as object != reg.regArray
    requires Building(true, top, q.entries, code, env, done, head, reg.uses)
    requires 1 + reg.Room() <= INST_QUEUE_SIZE - 1
    modifies q, q.slots, reg, reg.regArray
    ensures old(reg.Room()) >= Width(top.p) + |Vars(top.p) - env.Keys| ==> ok
    ensures ok ==> reg.Valid() && reg.Room() == old(reg.Room()) - |Vars(top.p) - env.Keys|
    ensures ok ==> env'.Keys == env.Keys + Vars(top.p) && |code'| == |code| + Emits(top.p)
    ensures ok ==> B.Built(code', done + [top], Pos(env', [], []), head)
    ensures ok ==> Placed(env', [], done + [top], head, reg.uses)
  {
    ok, code', env' := true, code, env;
    ghost var room, all := reg.Room(), env.Keys + Vars(top.p);
    CoversTop(top, env, all);
    PendOne(top);
    var isTop := true;
    while !q.IsEmpty()
      invariant ok && q.Valid() && reg.Valid()
      invariant Building(isTop, top, q.entries, code', env', done, head, reg.uses)
      invariant |q.entries| + reg.Room() <= INST_QUEUE_SIZE - 1 && Waits(isTop, q.entries, Width(top.p))
      invariant |code'| + PendEmits(q.entries) == |code| + Emits(top.p)
      invariant Covers(env', q.entries, all) && Budget(isTop, reg.Room(), q.entries, env') == room + |env|
      decreases PendEmits(q.entries)
    {
      ok, code', env' := BuildNext(isTop, q, reg, code', env', Width(top.p), all, top, done, head);
      if !ok {
        return;
      }
      isTop := false;
    }
    CoversAll(env', all);
  }

  /** How an argument of the body gets into its register: constants are loaded, everything else is
      moved from a finished register. A float is loaded as the integer `asInt` makes of it. */
  ghost predicate LoadOf(load: M.Move, p: Pattern, argno: nat, done: seq<Entry>, asInt: int -> int) {
    match p
    case PConst(Integer(n)) => load == M.PutNumCon(n, argno)
    case PConst(Float(bits)) => load == M.PutNumCon(asInt(bits), argno)
    case PConst(EmptyList) => load == M.PutNil(argno)
    case PConst(Symbol(name)) => load == M.PutCon(name, argno)
    case _ => load.MovReg? && load.target == argno && Entry(load.src, p) in done
  }

  /** The load of a constant. */
  function ConstLoad(c: Constant, argno: nat, asInt: int -> int): (load: M.Move)
    ensures LoadOf(load, PConst(c), argno, [], asInt)
  {
    match c
    case Integer(n) => M.PutNumCon(n, argno)
    case Float(bits) => M.PutNumCon(asInt(bits), argno)
    case EmptyList => M.PutNil(argno)
    case Symbol(name) => M.PutCon(name, argno)
  }

  /** The register an argument of the body takes for itself: one for a compound term. */
  function Own(p: Pattern): nat {
    if p.IsCompound() then 1 else 0
  }

  /** Variables of the head stay where they are. */
  lemma HeadKept(code: Code, done: seq<Entry>, at: Pos, head: Env)
    requires B.Built(code, done, at, head)
    ensures forall v :: v in head ==> v in at.env && at.env[v] == head[v]
  {
    var init := B.Machine((r: nat) => B.Ground(Const(EmptyList)), []);
    assert B.Starts(init, head);
    assert B.BuiltFor(B.DoAll(code, init), done, at, head, init);
  }

  /** An argument that is a variable of the head is moved from where it is. */
  predicate FromHead(load: M.Move, p: Pattern, argno: nat, head: Env) {
    OfHead(p, head) ==> load == M.MovReg(head[p.v], argno)
  }

  /** How many instructions build an argument of the body: a variable takes one if it is new. */
  function ArgInstructions(p: Pattern, known: set<nat>): nat {
    match p
    case PVar(v) => if v in known then 0 else 1
    case PConst(_) => 0
    case _ => Emits(p)
  }

  function BodyInstructions(ps: seq<Pattern>, known: set<nat>): nat {
    if ps == [] then 0 else ArgInstructions(ps[0], known) + BodyInstructions(ps[1..], known + Vars(ps[0]))
  }

  /** Makes a new variable, in a register. */
  method BuildTopVar(v: nat, reg: RegStat, code: Code, env: Env, ghost done: seq<Entry>, ghost head: Env)
    returns (ok: bool, r: nat, code': Code, env': Env)
    requires reg.Valid() && v !in env
    requires B.Built(code, done, Pos(env, [], []), head) && Placed(env, [], done, head, reg.uses)
    modifies reg, reg.regArray
    ensures old(reg.Room()) > 0 ==> ok
    ensures ok ==> reg.Valid() && reg.Room() == old(reg.Room()) - 1 && env' == env[v := r] && |code'| == |code| + 1
    ensures ok ==> B.Built(code', done + [Entry(r, PVar(v))], Pos(env', [], []), head)
    ensures ok ==> Placed(env', [], done + [Entry(r, PVar(v))], head, reg.uses)
  {
    ghost var uses, e := reg.uses, Entry(0, PVar(v));
    code', env' := code, env;
    ok, r := reg.Get(RealVar);
    if ok {
      e := Entry(r, PVar(v));
      FreshUnused(r, Pos(env, [], []), done, head, uses);
      PlaceVar(v, r, env, [], done, head, uses);
      B.PutTVarAdvances(v, r, env, head, done);
      B.BuiltStep(code, done, Pos(env, [], []), Pos(env[v := r], [], []), B.PutTVar(r), head, [e]);
      code', env' := code + [B.PutTVar(r)], env[v := r];
      PlaceTop(e, env', done, head, reg.uses);
    }
  }

  /** Builds a compound argument, in a register of its own. */
  method BuildTopTerm(p: Pattern, reg: RegStat, code: Code, env: Env, ghost done: seq<Entry>, ghost head: Env)
    returns (ok: bool, r: nat, code': Code, env': Env)
    requires reg.Valid() && 0 < reg.size && p.IsCompound()
    requires B.Built(code, done, Pos(env, [], []), head) && Placed(env, [], done, head, reg.uses)
    modifies reg, reg.regArray
    ensures old(reg.Room()) > Width(p) + |Vars(p) - env.Keys| ==> ok
    ensures ok ==> reg.Valid() && reg.Room() == old(reg.Room()) - 1 - |Vars(p) - env.Keys|
    ensures ok ==> env'.Keys == env.Keys + Vars(p) && |code'| == |code| + Emits(p)
    ensures ok ==> B.Built(code', done + [Entry(r, p)], Pos(env', [], []), head)
    ensures ok ==> Placed(env', [], done + [Entry(r, p)], head, reg.uses)
  {
    ghost var uses := reg.uses;
    code', env' := code, env;
    assert IsArgument(1, reg.uses);
    reg.RoomTaken(1);
    ok, r := reg.Get(RealVar);
    if ok {
      FreshUnused(r, Pos(env, [], []), done, head, uses);
      PlaceUsed(r, env, done, head, uses);
      var q := new Queue();
      ok := q.Push(Entry(r, p));
      assert q.entries == [Entry(r, p)];
      ok, code', env' := BuildTerms(q, reg, code, env, Entry(r, p), done, head);
    }
  }

  lemma NothingNew(v: nat, env: Env)
    ensures |Vars(PVar(v)) - env.Keys| == if v in env then 0 else 1
    ensures v in env ==> env.Keys == env.Keys + Vars(PVar(v))
  {
    assert Vars(PVar(v)) - env.Keys == if v in env then {} else {v};
  }

  /** Builds an argument of the body that is not a constant, in a register. */
  method BuildTop(p: Pattern, reg: RegStat, code: Code, env: Env, ghost done: seq<Entry>, ghost head: Env)
    returns (ok: bool, r: nat, code': Code, env': Env)
    requires reg.Valid() && 0 < reg.size && !p.PConst?
    requires B.Built(code, done, Pos(env, [], []), head) && Placed(env, [], done, head, reg.uses)
    modifies reg, reg.regArray
    ensures old(reg.Room()) >= Own(p) + Width(p) + |Vars(p) - env.Keys| ==> ok
    ensures ok ==> reg.Valid() && reg.Room() == old(reg.Room()) - Own(p) - |Vars(p) - env.Keys|
    ensures ok ==> env'.Keys == env.Keys + Vars(p) && |code'| == |code| + ArgInstructions(p, env.Keys)
    ensures ok && p.PVar? && p.v in head ==> r == head[p.v]
    ensures ok ==> B.Built(code', done + [Entry(r, p)], Pos(env', [], []), head)
    ensures ok ==> Placed(env', [], done + [Entry(r, p)], head, reg.uses)
  {
    HeadKept(code, done, Pos(env, [], []), head);
    if !p.PVar? {
      ok, r, code', env' := BuildTopTerm(p, reg, code, env, done, head);
    } else if p.v in env {
      B.BuiltKnown(code, done, env, p.v, head);
      PlaceDone(env, done, p.v, head, reg.uses);
      NothingNew(p.v, env);
      ok, r, code', env' := true, env[p.v], code, env;
    } else {
      NothingNew(p.v, env);
      ok, r, code', env' := BuildTopVar(p.v, reg, code, env, done, head);
    }
  }

  lemma PlaceUsed(r: nat, env: Env, done: seq<Entry>, head: Env, uses: map<nat, Use>)
    requires Placed(env, [], done, head, uses) && r !in uses
    ensures Placed(env, [], done, head, uses[r := RealVar])
  {
  }

  lemma PlaceDone(env: Env, done: seq<Entry>, v: nat, head: Env, uses: map<nat, Use>)
    requires Placed(env, [], done, head, uses) && v in env
    ensures Placed(env, [], done + [Entry(env[v], PVar(v))], head, uses)
  {
    assert forall i :: 0 <= i < |done| ==> (done + [Entry(env[v], PVar(v))])[i] == done[i];
  }

  ghost predicate LoadsOf(loads: seq<M.Move>, ps: seq<Pattern>, done: seq<Entry>, asInt: int -> int) {
    |loads| == |ps| && forall j {:trigger loads[j]} {:trigger ps[j]} ::
      0 <= j < |ps| ==> LoadOf(loads[j], ps[j], j + 1, done, asInt)
  }

  lemma LoadsNext(loads: seq<M.Move>, ps: seq<Pattern>, done: seq<Entry>, asInt: int -> int, load: M.Move, p: Pattern,
      more: seq<Entry>)
    requires LoadsOf(loads, ps, done, asInt) && LoadOf(load, p, |ps| + 1, more, asInt)
    ensures LoadsOf(loads + [load], ps + [p], done + more, asInt)
  {
    forall j | 0 <= j < |ps| + 1 ensures LoadOf((loads + [load])[j], (ps + [p])[j], j + 1, done + more, asInt) {
      if j < |ps| {
        assert LoadOf(loads[j], ps[j], j + 1, done, asInt);
      }
    }
  }

  /** The loads are as the scheduler needs them. */
  lemma LoadsFit(loads: seq<M.Move>, ps: seq<Pattern>, done: seq<Entry>, asInt: int -> int, env: Env, head: Env,
      reg: RegStat)
    requires reg.Valid() && |ps| <= reg.size && LoadsOf(loads, ps, done, asInt)
    requires Placed(env, [], done, head, reg.uses)
    ensures M.Loads(loads, reg.uses)
  {
    forall j | 0 <= j < |loads|
      ensures loads[j].target == j + 1 && !loads[j].PutTVar? && loads[j].target in reg.uses
      ensures reg.uses[loads[j].target] == Argument
      ensures loads[j].MovReg? ==> loads[j].src in reg.uses && reg.uses[loads[j].src] != TempVar
    {
      assert LoadOf(loads[j], ps[j], j + 1, done, asInt);
      assert IsArgument(j + 1, reg.uses);
      if loads[j].MovReg? {
        var k :| 0 <= k < |done| && done[k] == Entry(loads[j].src, ps[j]);
      }
    }
  }

  /** Builds one argument of the body, and finds out how it is to be loaded. */
  method BuildLoad(p: Pattern, argno: nat, reg: RegStat, code: Code, env: Env, asInt: int -> int,
      ghost done: seq<Entry>, ghost head: Env)
    returns (ok: bool, load: M.Move, code': Code, env': Env, ghost more: seq<Entry>)
    requires reg.Valid() && 0 < reg.size
    requires B.Built(code, done, Pos(env, [], []), head) && Placed(env, [], done, head, reg.uses)
    modifies reg, reg.regArray
    ensures old(reg.Room()) >= Own(p) + Width(p) + |Vars(p) - env.Keys| ==> ok
    ensures ok ==> reg.Valid() && reg.Room() == old(reg.Room()) - Own(p) - |Vars(p) - env.Keys|
    ensures ok ==> env'.Keys == env.Keys + Vars(p) && |code'| == |code| + ArgInstructions(p, env.Keys)
    ensures ok ==> LoadOf(load, p, argno, more, asInt) && FromHead(load, p, argno, head)
    ensures ok ==> B.Built(code', done + more, Pos(env', [], []), head) && Placed(env', [], done + more, head, reg.uses)
  {
    if p.PConst? {
      ok, load, code', env', more := true, ConstLoad(p.c, argno, asInt), code, env, [];
      assert done + [] == done;
    } else {
      var r;
      ok, r, code', env' := BuildTop(p, reg, code, env, done, head);
      load, more := M.MovReg(r, argno), [Entry(r, p)];
    }
  }

  /** Builds one argument of the body and queues its load. */
  method BuildArg(p: Pattern, argno: nat, moves: Queue<M.Move>, reg: RegStat, code: Code, env: Env, asInt: int -> int,
      ghost done: seq<Entry>, ghost head: Env)
    returns (ok: bool, code': Code, env': Env, ghost load: M.Move, ghost more: seq<Entry>)
    requires reg.Valid() && moves.Valid() && moves as object != reg
    requires moves.slots as object != reg.regArray
    requires 0 < reg.size
    requires B.Built(code, done, Pos(env, [], []), head) && Placed(env, [], done, head, reg.uses)
    modifies reg, reg.regArray, moves, moves.slots
    ensures old(reg.Room()) >= Own(p) + Width(p) + |Vars(p) - env.Keys| && |old(moves.entries)| < INST_QUEUE_SIZE - 1
      ==> ok
    ensures ok ==> reg.Valid() && reg.Room() == old(reg.Room()) - Own(p) - |Vars(p) - env.Keys|
    ensures ok ==> moves.Valid() && env'.Keys == env.Keys + Vars(p)
    ensures ok ==> |code'| == |code| + ArgInstructions(p, env.Keys)
    ensures ok ==> moves.entries == old(moves.entries) + [load] && moves.bottom == old(moves.bottom)
    ensures ok ==> LoadOf(load, p, argno, more, asInt) && FromHead(load, p, argno, head)
    ensures ok ==> B.Built(code', done + more, Pos(env', [], []), head) && Placed(env', [], done + more, head, reg.uses)
  {
    var move;
    ok, move, code', env', more := BuildLoad(p, argno, reg, code, env, asInt, done, head);
    load := move;
    if ok {
      ok := moves.Push(move);
    }
  }

  /** The arguments still to be built: when they are, there will be `total` registers less those of the
      variables `all`, which will be known, and `size` instructions, of which there are `len` now. */
  ghost predicate ToBuild(rest: seq<Pattern>, env: Env, room: nat, len: nat, total: int, widest: nat, all: set<nat>,
      size: nat)
  {
    && room + |env| - Compounds(rest) == total && len + BodyInstructions(rest, env.Keys) == size
    && Widest(rest) <= widest && env.Keys + VarsAll(rest) == all
  }

  /** There are registers for the next argument, if there are enough at all. */
  lemma EnoughToBuild(p: Pattern, rest: seq<Pattern>, env: Env, room: nat, len: nat, total: int, widest: nat,
      all: set<nat>, size: nat)
    requires ToBuild([p] + rest, env, room, len, total, widest, all, size) && widest + |all| <= total
    ensures room >= Own(p) + Width(p) + |Vars(p) - env.Keys|
  {
    assert ([p] + rest)[0] == p && ([p] + rest)[1..] == rest;
    Union(env.Keys, Vars(p));
    Subset(env.Keys + Vars(p), all);
  }

  lemma BuiltOne(p: Pattern, rest: seq<Pattern>, env: Env, room: nat, len: nat, total: int, widest: nat, all: set<nat>,
      size: nat, env': Env, room': nat)
    requires ToBuild([p] + rest, env, room, len, total, widest, all, size) && env'.Keys == env.Keys + Vars(p)
    requires room' == room - Own(p) - |Vars(p) - env.Keys|
    ensures ToBuild(rest, env', room', len + ArgInstructions(p, env.Keys), total, widest, all, size)
  {
    assert ([p] + rest)[0] == p && ([p] + rest)[1..] == rest;
    Union(env.Keys, Vars(p));
    UnionAssoc(env.Keys, Vars(p), VarsAll(rest));
  }

  /** What is still to be built, at the start and in the end. */
  lemma NoneBuilt(body: seq<Pattern>, head: Env, room: nat, all: set<nat>)
    requires all == head.Keys + VarsAll(body)
    ensures body[0..] == body && |all| == |head| + |VarsAll(body) - head.Keys|
    ensures ToBuild(body, head, room, 0, room + |head| - Compounds(body), Widest(body), all,
      BodyInstructions(body, head.Keys))
  {
    Union(head.Keys, VarsAll(body));
  }

  lemma AllBuilt(body: seq<Pattern>, env: Env, room: nat, len: nat, total: int, all: set<nat>, size: nat)
    requires ToBuild(body[|body|..], env, room, len, total, Widest(body), all, size)
    ensures body[..|body|] == body && room == total - |all| && len == size
  {
    assert body[|body|..] == [];
  }

  /** The loads come from the head where the arguments do. */
  ghost predicate FromHeads(loads: seq<M.Move>, ps: seq<Pattern>, head: Env) {
    |loads| == |ps| && forall j {:trigger ps[j]} :: 0 <= j < |ps| ==> FromHead(loads[j], ps[j], j + 1, head)
  }

  /** The arguments `before` have been built. */
  ghost predicate BuiltSoFar(before: seq<Pattern>, loads: seq<M.Move>, code: Code, env: Env, done: seq<Entry>,
      head: Env, uses: map<nat, Use>, asInt: int -> int)
  {
    && LoadsOf(loads, before, done, asInt) && FromHeads(loads, before, head)
    && B.Built(code, done, Pos(env, [], []), head) && Placed(env, [], done, head, uses)
  }

  lemma BuiltThen(before: seq<Pattern>, loads: seq<M.Move>, head: Env, done: seq<Entry>, asInt: int -> int,
      load: M.Move, p: Pattern, more: seq<Entry>, code: Code, env: Env, uses: map<nat, Use>)
    requires LoadsOf(loads, before, done, asInt) && FromHeads(loads, before, head)
    requires LoadOf(load, p, |before| + 1, more, asInt) && FromHead(load, p, |before| + 1, head)
    requires B.Built(code, done + more, Pos(env, [], []), head) && Placed(env, [], done + more, head, uses)
    ensures BuiltSoFar(before + [p], loads + [load], code, env, done + more, head, uses, asInt)
  {
    LoadsNext(loads, before, done, asInt, load, p, more);
  }

  /** Builds the next argument of the body and queues its load. */
  method BuildNextArg(p: Pattern, moves: Queue<M.Move>, reg: RegStat, code: Code, env: Env, asInt: int -> int,
      ghost before: seq<Pattern>, argno: nat, ghost rest: seq<Pattern>, ghost done: seq<Entry>, ghost head: Env,
      ghost total: int, ghost widest: nat, ghost all: set<nat>, ghost size: nat)
    returns (ok: bool, code': Code, env': Env, ghost done': seq<Entry>)
    requires reg.Valid() && moves.Valid() && moves as object != reg
    requires moves.slots as object != reg.regArray
    requires 0 < reg.size && argno == |before| + 1
    requires ToBuild([p] + rest, env, reg.Room(), |code|, total, widest, all, size)
    requires BuiltSoFar(before, moves.entries, code, env, done, head, reg.uses, asInt)
    modifies reg, reg.regArray, moves, moves.slots
    ensures widest + |all| <= total && |before| < INST_QUEUE_SIZE - 1 ==> ok
    ensures ok ==> reg.Valid() && moves.Valid() && moves.bottom == old(moves.bottom)
    ensures ok ==> ToBuild(rest, env', reg.Room(), |code'|, total, widest, all, size)
    ensures ok ==> BuiltSoFar(before + [p], moves.entries, code', env', done', head, reg.uses, asInt)
  {
    if widest + |all| <= total {
      EnoughToBuild(p, rest, env, reg.Room(), |code|, total, widest, all, size);
    }
    ghost var loads, room, load, more := moves.entries, reg.Room(), M.PutNil(0), [];
    ok, code', env', load, more := BuildArg(p, argno, moves, reg, code, env, asInt, done, head);
    done' := done + more;
    if ok {
      BuiltOne(p, rest, env, room, |code|, total, widest, all, size, env', reg.Room());
      BuiltThen(before, loads, head, done, asInt, load, p, more, code', env', reg.uses);
    }
  }

  method BuildArgAt(body: seq<Pattern>, argno: nat, moves: Queue<M.Move>, reg: RegStat, code: Code, env: Env,
      asInt: int -> int, ghost done: seq<Entry>, ghost head: Env, ghost total: int, ghost all: set<nat>,
      ghost size: nat)
    returns (ok: bool, code': Code, env': Env, ghost done': seq<Entry>)
    requires reg.Valid() && moves.Valid() && moves as object != reg
    requires moves.slots as object != reg.regArray
    requires 0 < reg.size && 0 < argno <= |body|
    requires ToBuild(body[argno - 1..], env, reg.Room(), |code|, total, Widest(body), all, size)
    requires BuiltSoFar(body[..argno - 1], moves.entries, code, env, done, head, reg.uses, asInt)
    modifies reg, reg.regArray, moves, moves.slots
    ensures Widest(body) + |all| <= total && |body| < INST_QUEUE_SIZE ==> ok
    ensures ok ==> reg.Valid() && moves.Valid() && moves.bottom == old(moves.bottom)
    ensures ok ==> ToBuild(body[argno..], env', reg.Room(), |code'|, total, Widest(body), all, size)
    ensures ok ==> BuiltSoFar(body[..argno], moves.entries, code', env', done', head, reg.uses, asInt)
  {
    SplitAt(body, argno - 1);
    ok, code', env', done' := BuildNextArg(body[argno - 1], moves, reg, code, env, asInt, body[..argno - 1], argno,
      body[argno..], done, head, total, Widest(body), all, size);
  }

  /** Builds the arguments of the body and queues their loads. */
  method BuildArgs(body: seq<Pattern>, moves: Queue<M.Move>, reg: RegStat, head: Env, asInt: int -> int)
    returns (ok: bool, code: Code, env: Env, ghost done: seq<Entry>)
    requires reg.Valid() && moves.Valid() && moves as object != reg
    requires moves.slots as object != reg.regArray
    requires |body| <= reg.size && moves.entries == [] && Allocated(head, [], reg.uses, {})
    modifies reg, reg.regArray, moves, moves.slots
    ensures Compounds(body) + Widest(body) + |VarsAll(body) - head.Keys| <= old(reg.Room()) && |body| < INST_QUEUE_SIZE
      ==> ok
    ensures ok ==> reg.Valid() && moves.Valid()
    ensures ok ==> reg.Room() == old(reg.Room()) - Compounds(body) - |VarsAll(body) - head.Keys|
    ensures ok ==> BuiltSoFar(body, moves.entries, code, env, done, head, reg.uses, asInt)
    ensures ok ==> |code| == BodyInstructions(body, head.Keys)
    ensures ok ==> moves.bottom == old(moves.bottom)
  {
    ok, code, env, done := true, [], head, [];
    B.BuiltStart(head);
    ghost var total, all := reg.Room() + |head| - Compounds(body), head.Keys + VarsAll(body);
    ghost var size := BodyInstructions(body, head.Keys);
    NoneBuilt(body, head, reg.Room(), all);
    var argno := 1;
    while argno <= |body|
      invariant ok && 1 <= argno <= |body| + 1 && reg.Valid() && moves.Valid() && moves.bottom == old(moves.bottom)
      invariant ToBuild(body[argno - 1..], env, reg.Room(), |code|, total, Widest(body), all, size)
      invariant BuiltSoFar(body[..argno - 1], moves.entries, code, env, done, head, reg.uses, asInt)
    {
      ok, code, env, done := BuildArgAt(body, argno, moves, reg, code, env, asInt, done, head, total, all, size);
      if !ok {
        return;
      }
      argno := argno + 1;
    }
    AllBuilt(body, env, reg.Room(), |code|, total, all, size);
  }
}
