/** Loading the argument registers of a clause's body goal: a set of simultaneous register loads
    is turned into a sequence of single ones. */
module MoveScheduler {
  import opened Registers
  import opened Sequences
  import opened InstQueue

  /** One load, both as an entry of the queue and as an emitted instruction. */
  datatype Move =
    | MovReg(src: nat, target: nat)
    | PutCon(con: string, target: nat)
    | PutNumCon(num: int, target: nat)
    | PutNil(target: nat)
    | PutTVar(reg: nat, target: nat)

  datatype Cell = Given(v: int) | Con(con: string) | Num(num: int) | Nil | Unbound(k: nat)

  /** The registers, and how many heap variables have been made. */
  datatype Machine = Machine(regs: nat -> Cell, vars: nat)

  function Set(regs: nat -> Cell, r: nat, c: Cell): nat -> Cell {
    (x: nat) => if x == r then c else regs(x)
  }

  function Step(m: Machine, i: Move): Machine {
    match i
    case MovReg(s, t) => m.(regs := Set(m.regs, t, m.regs(s)))
    case PutCon(c, t) => m.(regs := Set(m.regs, t, Con(c)))
    case PutNumCon(n, t) => m.(regs := Set(m.regs, t, Num(n)))
    case PutNil(t) => m.(regs := Set(m.regs, t, Nil))
    case PutTVar(r, t) => Machine(Set(Set(m.regs, r, Unbound(m.vars)), t, Unbound(m.vars)), m.vars + 1)
  }

  /** The effect of running the instructions in order. */
  function Exec(code: seq<Move>, m: Machine): Machine {
    if code == [] then m else Step(Exec(code[..|code| - 1], m), code[|code| - 1])
  }

  lemma ExecSnoc(code: seq<Move>, i: Move, m: Machine)
    ensures Exec(code + [i], m) == Step(Exec(code, m), i)
  {
    assert (code + [i])[..|code|] == code;
  }

  /** The load has been done: its target holds what it should, given the initial registers. */
  predicate Loaded(want: Move, init: Machine, now: Machine) {
    match want
    case MovReg(s, t) => now.regs(t) == init.regs(s)
    case PutCon(c, t) => now.regs(t) == Con(c)
    case PutNumCon(n, t) => now.regs(t) == Num(n)
    case PutNil(t) => now.regs(t) == Nil
    case PutTVar(_, t) => now.regs(t).Unbound? && init.vars <= now.regs(t).k < now.vars
  }

  ghost predicate DistinctTargets(es: seq<Move>) {
    forall i, j :: 0 <= i < j < |es| ==> es[i].target != es[j].target
  }

  ghost predicate IsTarget(es: seq<Move>, r: nat) {
    exists i :: 0 <= i < |es| && es[i].target == r
  }

  ghost predicate IsSource(es: seq<Move>, r: nat) {
    exists i :: 0 <= i < |es| && es[i].MovReg? && es[i].src == r
  }

  /** What the compiler puts in the queue: the targets are distinct argument registers, no source
      is a temporary register, and a variable is made in the register it is loaded into. */
  ghost predicate Loads(es: seq<Move>, uses: map<nat, Use>) {
    && DistinctTargets(es)
    && (forall i :: 0 <= i < |es| ==> es[i].target in uses && uses[es[i].target] == Argument)
    && (forall i :: 0 <= i < |es| && es[i].MovReg? ==> es[i].src in uses && uses[es[i].src] != TempVar)
    && (forall i :: 0 <= i < |es| && es[i].PutTVar? ==> es[i].reg == es[i].target)
  }

  /** The entries are a consistent set of loads still to be done: as `Loads`, but a source may be
      a temporary register that no other entry reads. */
  ghost predicate Pending(es: seq<Move>, uses: map<nat, Use>) {
    && DistinctTargets(es)
    && (forall i :: 0 <= i < |es| ==> es[i].target in uses && uses[es[i].target] == Argument)
    && (forall i :: 0 <= i < |es| && es[i].MovReg? ==> es[i].src in uses)
    && (forall i, j ::
        0 <= i < |es| && 0 <= j < |es| && i != j && es[i].MovReg? && es[j].MovReg? && es[i].src == es[j].src ==>
          uses[es[i].src] != TempVar)
    && (forall i :: 0 <= i < |es| && es[i].PutTVar? ==> es[i].reg == es[i].target)
  }

  /** An entry still does what was wanted: its source now holds the wanted source's old value. */
  ghost predicate Serves(e: Move, want: Move, init: Machine, now: Machine) {
    && e.target == want.target
    && if want.MovReg? then e.MovReg? && now.regs(e.src) == init.regs(want.src) else e == want
  }

  /** A variable that has been made already. */
  ghost predicate Made(es: seq<Move>, want: Move) {
    want.PutTVar? && !IsTarget(es, want.target)
  }

  /** Each wanted load is either done or served by an entry. */
  ghost predicate Progress(es: seq<Move>, wants: seq<Move>, init: Machine, now: Machine) {
    && init.vars <= now.vars
    && (forall w :: 0 <= w < |wants| && !IsTarget(es, wants[w].target) ==> Loaded(wants[w], init, now))
    && (forall i, w ::
        0 <= i < |es| && 0 <= w < |wants| && es[i].target == wants[w].target ==> Serves(es[i], wants[w], init, now))
    && (forall v, w :: 0 <= v < w < |wants| && Made(es, wants[v]) && Made(es, wants[w]) ==>
          now.regs(wants[v].target) != now.regs(wants[w].target))
  }

  /** A used register that is not loaded keeps its value. */
  ghost predicate Kept(wants: seq<Move>, uses: map<nat, Use>, init: Machine, now: Machine) {
    forall r :: r in uses && !IsTarget(wants, r) ==> now.regs(r) == init.regs(r)
  }

  /** The sources of the re-queued entries are not targets. */
  ghost predicate Settled(second: seq<Move>, es: seq<Move>) {
    forall j :: 0 <= j < |second| && second[j].MovReg? ==> !IsTarget(es, second[j].src)
  }

  lemma StartProgress(wants: seq<Move>, uses: map<nat, Use>, init: Machine)
    requires Loads(wants, uses)
    ensures Pending(wants, uses) && Progress(wants, wants, init, init)
  {
  }

  lemma TargetHead(es: seq<Move>, r: nat)
    requires |es| > 0
    ensures IsTarget(es, r) <==> es[0].target == r || IsTarget(es[1..], r)
  {
    if IsTarget(es[1..], r) {
      var i :| 0 <= i < |es[1..]| && es[1..][i].target == r;
      assert es[i + 1].target == r;
    }
    if IsTarget(es, r) && es[0].target != r {
      var i :| 0 <= i < |es| && es[i].target == r;
      assert es[1..][i - 1].target == r;
    }
  }

  lemma TargetLast(es: seq<Move>, e: Move, r: nat)
    ensures IsTarget(es + [e], r) <==> IsTarget(es, r) || e.target == r
  {
    if IsTarget(es, r) {
      var i :| 0 <= i < |es| && es[i].target == r;
      assert (es + [e])[i].target == r;
    }
    assert (es + [e])[|es|] == e;
  }

  /** After the head has been taken off, the rest is still a consistent set of loads, also once
      the head's source register has been released. */
  lemma PendingRest(es: seq<Move>, uses: map<nat, Use>)
    requires Pending(es, uses) && |es| > 0
    ensures Pending(es[1..], uses) && !IsTarget(es[1..], es[0].target)
    ensures es[0].MovReg? && uses[es[0].src] == TempVar ==> Pending(es[1..], uses - {es[0].src})
  {
    var e, rest := es[0], es[1..];
    assert forall i :: 0 <= i < |rest| ==> rest[i] == es[i + 1];
    forall i | 0 <= i < |rest| && rest[i].MovReg? && e.MovReg? && uses[e.src] == TempVar ensures rest[i].src != e.src {
      assert es[i + 1].MovReg?;
    }
  }

  /** Emitting the head's load when no remaining load reads its target. */
  lemma EmitProgress(es: seq<Move>, wants: seq<Move>, uses: map<nat, Use>, init: Machine, now: Machine)
    requires Pending(es, uses) && |es| > 0 && DistinctTargets(wants)
    requires Progress(es, wants, init, now) && !IsSource(es[1..], es[0].target)
    ensures Progress(es[1..], wants, init, Step(now, es[0]))
  {
    var e, rest, next := es[0], es[1..], Step(now, es[0]);
    forall r ensures IsTarget(es, r) <==> e.target == r || IsTarget(rest, r) {
      TargetHead(es, r);
    }
    assert forall r :: r != e.target ==> next.regs(r) == now.regs(r);
    forall w | 0 <= w < |wants| && !IsTarget(rest, wants[w].target) ensures Loaded(wants[w], init, next) {
      if wants[w].target == e.target {
        assert Serves(e, wants[w], init, now);
      } else {
        assert Loaded(wants[w], init, now);
      }
    }
    forall i, w | 0 <= i < |rest| && 0 <= w < |wants| && rest[i].target == wants[w].target
      ensures Serves(rest[i], wants[w], init, next)
    {
      assert Serves(es[i + 1], wants[w], init, now);
      if rest[i].MovReg? {
        assert IsSource(rest, rest[i].src);
      }
    }
    forall v, w | 0 <= v < w < |wants| && Made(rest, wants[v]) && Made(rest, wants[w])
      ensures next.regs(wants[v].target) != next.regs(wants[w].target)
    {
      assert wants[v].target != wants[w].target;
      if wants[v].target != e.target && wants[w].target != e.target {
        assert Made(es, wants[v]) && Made(es, wants[w]);
      } else {
        var other := if wants[v].target == e.target then w else v;
        assert Made(es, wants[other]) && Loaded(wants[other], init, now);
        var mine := if wants[v].target == e.target then v else w;
        assert Serves(es[0], wants[mine], init, now);
      }
    }
  }

  /** A register moved to itself needs no instruction. */
  lemma SkipProgress(es: seq<Move>, wants: seq<Move>, uses: map<nat, Use>, init: Machine, now: Machine)
    requires Pending(es, uses) && |es| > 0 && DistinctTargets(wants)
    requires Progress(es, wants, init, now) && es[0].MovReg? && es[0].src == es[0].target
    ensures Progress(es[1..], wants, init, now)
  {
    var e, rest := es[0], es[1..];
    forall r ensures IsTarget(es, r) <==> e.target == r || IsTarget(rest, r) {
      TargetHead(es, r);
    }
    forall w | 0 <= w < |wants| && !IsTarget(rest, wants[w].target)
      ensures Loaded(wants[w], init, now) && (wants[w].PutTVar? ==> Made(es, wants[w]))
    {
      if wants[w].target == e.target {
        assert Serves(e, wants[w], init, now);
      } else {
        assert Loaded(wants[w], init, now);
      }
    }
    forall i, w | 0 <= i < |rest| && 0 <= w < |wants| && rest[i].target == wants[w].target
      ensures Serves(rest[i], wants[w], init, now)
    {
      assert Serves(es[i + 1], wants[w], init, now);
    }
  }

  /** The head goes to the end, possibly reading another register that holds the same value. */
  lemma RequeueProgress(es: seq<Move>, wants: seq<Move>, uses: map<nat, Use>, init: Machine, now: Machine, e': Move,
      next: Machine)
    requires Pending(es, uses) && |es| > 0 && DistinctTargets(wants)
    requires Progress(es, wants, init, now)
    requires e' == es[0]
      || (e'.MovReg? && es[0].MovReg? && e'.target == es[0].target && next.regs(e'.src) == now.regs(es[0].src))
    requires next.vars == now.vars && forall r :: r in uses ==> next.regs(r) == now.regs(r)
    requires forall w :: 0 <= w < |wants| ==> wants[w].target in uses
    ensures Progress(es[1..] + [e'], wants, init, next)
  {
    var e, rest, es' := es[0], es[1..], es[1..] + [e'];
    forall r ensures IsTarget(es', r) <==> IsTarget(es, r) {
      TargetHead(es, r);
      TargetLast(rest, e', r);
    }
    forall w | 0 <= w < |wants| && !IsTarget(es', wants[w].target) ensures Loaded(wants[w], init, next) {
      assert Loaded(wants[w], init, now);
    }
    forall i, w | 0 <= i < |es'| && 0 <= w < |wants| && es'[i].target == wants[w].target
      ensures Serves(es'[i], wants[w], init, next)
    {
      if i < |rest| {
        assert Serves(es[i + 1], wants[w], init, now);
      } else {
        assert Serves(es[0], wants[w], init, now);
      }
    }
    forall v, w | 0 <= v < w < |wants| && Made(es', wants[v]) && Made(es', wants[w])
      ensures next.regs(wants[v].target) != next.regs(wants[w].target)
    {
      assert Made(es, wants[v]) && Made(es, wants[w]);
    }
  }

  lemma RequeuePending(es: seq<Move>, uses: map<nat, Use>)
    requires Pending(es, uses) && |es| > 0
    ensures Pending(es[1..] + [es[0]], uses)
  {
    var es' := es[1..] + [es[0]];
    assert forall i :: 0 <= i < |es'| ==> es'[i] == if i < |es| - 1 then es[i + 1] else es[0];
  }

  /** The head is to read the temporary register r instead. */
  lemma DetourPending(es: seq<Move>, uses: map<nat, Use>, r: nat)
    requires Pending(es, uses) && |es| > 0 && r !in uses && es[0].MovReg?
    ensures Pending(es[1..] + [MovReg(r, es[0].target)], uses[r := TempVar])
    ensures uses[es[0].src] == TempVar ==>
      Pending(es[1..] + [MovReg(r, es[0].target)], uses[r := TempVar] - {es[0].src})
  {
    var es' := es[1..] + [MovReg(r, es[0].target)];
    assert forall i :: 0 <= i < |es'| - 1 ==> es'[i] == es[i + 1];
    PendingRest(es, uses);
    assert forall i :: 0 <= i < |es'| - 1 && es'[i].MovReg? ==> es'[i].src in uses;
  }

  /** The last entry of the first round, and every entry of the second, can be emitted at once. */
  lemma NoConflict(es: seq<Move>, second: seq<Move>)
    requires |es| > 0 && (es[1..] == second || es == second) && Settled(second, es)
    ensures !IsSource(es[1..], es[0].target)
  {
    assert IsTarget(es, es[0].target);
    forall i | 0 <= i < |es| - 1 && es[1..][i].MovReg? ensures es[1..][i].src != es[0].target {
      var j := if es == second then i + 1 else i;
      assert second[j] == es[1..][i];
    }
  }

  lemma SettledRest(second: seq<Move>, es: seq<Move>)
    requires Settled(second, es) && |es| > 0
    ensures Settled(second, es[1..])
    ensures es == second ==> Settled(second[1..], es[1..])
  {
    forall j | 0 <= j < |second| && second[j].MovReg? ensures !IsTarget(es[1..], second[j].src) {
      TargetHead(es, second[j].src);
    }
    assert forall j :: 0 <= j < |second| - 1 ==> second[1..][j] == second[j + 1];
  }

  /** Re-queueing keeps the re-queued entries settled. */
  lemma SettledRequeue(second: seq<Move>, es: seq<Move>, e': Move)
    requires Settled(second, es) && |es| > 0 && e'.target == es[0].target
    requires e'.MovReg? ==> !IsTarget(es[1..], e'.src) && e'.src != e'.target
    ensures Settled(second + [e'], es[1..] + [e'])
  {
    forall j | 0 <= j < |second| + 1 && (second + [e'])[j].MovReg?
      ensures !IsTarget(es[1..] + [e'], (second + [e'])[j].src)
    {
      TargetHead(es, (second + [e'])[j].src);
      TargetLast(es[1..], e', (second + [e'])[j].src);
    }
  }

  /** The entries the scans below look at: they do not follow the queue around its end. */
  function Visible(bottom: nat, es: seq<Move>): seq<Move> {
    if bottom + |es| < INST_QUEUE_SIZE then es else []
  }

  method TargetIsNotSource(q: Queue<Move>, r: nat) returns (b: bool)
    requires q.Valid()
    ensures b <==> !IsSource(Visible(q.bottom, q.entries), r)
  {
    var i := q.bottom;
    while i < q.top
      invariant q.bottom <= i && (q.bottom <= q.top ==> i <= q.top)
      invariant q.bottom <= q.top ==> forall k ::
        0 <= k < i - q.bottom ==> !(q.entries[k].MovReg? && q.entries[k].src == r)
    {
      assert q.slots[i] == q.entries[i - q.bottom];
      if q.slots[i].MovReg? && q.slots[i].src == r {
        return false;
      }
      i := i + 1;
    }
    return true;
  }

  method SourceIsNotTarget(q: Queue<Move>, r: nat) returns (b: bool)
    requires q.Valid()
    ensures b <==> !IsTarget(Visible(q.bottom, q.entries), r)
  {
    var i := q.bottom;
    while i < q.top
      invariant q.bottom <= i && (q.bottom <= q.top ==> i <= q.top)
      invariant q.bottom <= q.top ==> forall k :: 0 <= k < i - q.bottom ==> q.entries[k].target != r
    {
      assert q.slots[i] == q.entries[i - q.bottom];
      if q.slots[i].target == r {
        return false;
      }
      i := i + 1;
    }
    return true;
  }

  /** A load that goes to the end of the queue by way of the register `r`. */
  ghost predicate Detours(e: Move, seen: seq<Move>) {
    e.MovReg? && e.src != e.target && IsSource(seen, e.target) && IsTarget(seen, e.src)
  }

  /** What becomes of the load e: the queue and the code after it, when the scans see `seen` of the
      rest of the queue and `r` is the next free register. */
  ghost function Turned(e: Move, rest: seq<Move>, seen: seq<Move>, code: seq<Move>, r: nat): (seq<Move>, seq<Move>) {
    if e.MovReg? && e.src == e.target then (rest, code)
    else if !IsSource(seen, e.target) then (rest, code + [e])
    else if !e.MovReg? || !IsTarget(seen, e.src) then (rest + [e], code)
    else (rest + [MovReg(r, e.target)], code + [MovReg(e.src, r)])
  }

  /** The registers in use once the source of e has been released. */
  function Released(uses: map<nat, Use>, e: Move): map<nat, Use> {
    if e.MovReg? && e.src in uses && uses[e.src] == TempVar then uses - {e.src} else uses
  }

  /** The registers in use after the load e. */
  ghost function TurnedUses(e: Move, seen: seq<Move>, uses: map<nat, Use>, r: nat): map<nat, Use> {
    if e.MovReg? && e.src == e.target then uses
    else if !IsSource(seen, e.target) then Released(uses, e)
    else if Detours(e, seen) then Released(uses[r := TempVar], e)
    else uses
  }

  /** The loop's state: where the queue begins, the queue, the code, and the registers in use. */
  datatype Loop = Loop(bottom: nat, es: seq<Move>, code: seq<Move>, uses: map<nat, Use>)

  /** One turn of the loop on any queue, wrapped or not. */
  ghost function Turn(l: Loop, r: nat): Loop
    requires l.bottom < INST_QUEUE_SIZE && |l.es| > 0
  {
    var next := Slot(l.bottom, 1);
    var seen := Visible(next, l.es[1..]);
    var (es', code') := Turned(l.es[0], l.es[1..], seen, l.code, r);
    Loop(next, es', code', TurnedUses(l.es[0], seen, l.uses, r))
  }

  /** The register r can be handed out, if the turn needs one. */
  ghost predicate MayTurn(l: Loop, r: nat)
    requires l.bottom < INST_QUEUE_SIZE && |l.es| > 0
  {
    Detours(l.es[0], Visible(Slot(l.bottom, 1), l.es[1..])) ==> r !in l.uses
  }

  /** The loop can end, after some more turns, with the code `out`. */
  ghost predicate Ends(l: Loop, out: seq<Move>, turns: nat)
    decreases turns
  {
    l.bottom < INST_QUEUE_SIZE &&
    if l.es == [] then out == l.code
    else turns > 0 && exists r: nat {:trigger Turn(l, r)} :: MayTurn(l, r) && Ends(Turn(l, r), out, turns - 1)
  }

  /** Everything the loop keeps. The queue holds the entries not yet looked at, then the
      re-queued ones; `all` are the registers in use at the start. */
  ghost predicate State(first: seq<Move>, second: seq<Move>, wants: seq<Move>, uses: map<nat, Use>, all: map<nat, Use>,
      init: Machine, now: Machine)
  {
    && DistinctTargets(wants) && (forall w :: 0 <= w < |wants| ==> wants[w].target in all)
    && Pending(first + second, uses) && Progress(first + second, wants, init, now)
    && Settled(second, first + second) && Within(first + second, wants, all) && Untouched(wants, uses, all, init, now)
  }

  /** The entries set what is wanted, and read no temporary register of the start. */
  ghost predicate Within(es: seq<Move>, wants: seq<Move>, all: map<nat, Use>) {
    forall i {:trigger es[i]} :: 0 <= i < |es| ==>
      IsTarget(wants, es[i].target) && (es[i].MovReg? && es[i].src in all ==> all[es[i].src] != TempVar)
  }

  /** The registers in use at the start still are, and those that are no targets hold what they held. */
  ghost predicate Untouched(wants: seq<Move>, uses: map<nat, Use>, all: map<nat, Use>, init: Machine, now: Machine) {
    && (forall r :: r in all ==> r in uses && uses[r] == all[r])
    && (forall r :: r in all && !IsTarget(wants, r) ==> now.regs(r) == init.regs(r))
  }

  /** The queue without its bottom entry, in two parts. */
  function Rest(first: seq<Move>, second: seq<Move>): (r: (seq<Move>, seq<Move>))
    requires |first + second| > 0
    ensures r.0 + r.1 == (first + second)[1..]
  {
    if first == [] then ([], second[1..]) else (first[1..], second)
  }

  lemma EmitState(first: seq<Move>, second: seq<Move>, wants: seq<Move>, uses: map<nat, Use>, all: map<nat, Use>,
      init: Machine, code: seq<Move>)
    requires State(first, second, wants, uses, all, init, Exec(code, init)) && |first + second| > 0
    requires var es := first + second; !IsSource(es[1..], es[0].target)
    ensures var e := (first + second)[0]; var (f, s) := Rest(first, second);
      State(f, s, wants, Released(uses, e), all, init, Exec(code + [e], init))
  {
    var es := first + second;
    var (f, s) := Rest(first, second);
    ExecSnoc(code, es[0], init);
    PendingRest(es, uses);
    EmitProgress(es, wants, uses, init, Exec(code, init));
    SettledRest(second, es);
    WithinRest(es, wants, all);
  }

  lemma SkipState(first: seq<Move>, second: seq<Move>, wants: seq<Move>, uses: map<nat, Use>, all: map<nat, Use>,
      init: Machine, now: Machine)
    requires State(first, second, wants, uses, all, init, now) && |first + second| > 0
    requires var e := (first + second)[0]; e.MovReg? && e.src == e.target
    ensures var (f, s) := Rest(first, second); State(f, s, wants, uses, all, init, now)
  {
    var es := first + second;
    PendingRest(es, uses);
    SkipProgress(es, wants, uses, init, now);
    SettledRest(second, es);
    WithinRest(es, wants, all);
  }

  lemma WithinRest(es: seq<Move>, wants: seq<Move>, all: map<nat, Use>)
    requires |es| > 0 && Within(es, wants, all)
    ensures Within(es[1..], wants, all)
  {
    assert forall i :: 0 <= i < |es| - 1 ==> es[1..][i] == es[i + 1];
  }

  /** The first entry goes to the end, perhaps with another source. */
  lemma WithinRequeue(es: seq<Move>, wants: seq<Move>, all: map<nat, Use>, e: Move)
    requires |es| > 0 && Within(es, wants, all) && e.target == es[0].target
    requires e == es[0] || (e.MovReg? && e.src !in all)
    ensures Within(es[1..] + [e], wants, all)
  {
    assert forall i :: 0 <= i < |es| ==> (es[1..] + [e])[i] == if i < |es| - 1 then es[i + 1] else e;
  }

  /** A load whose target is still to be read goes to the end of the queue. */
  lemma RequeueState(first: seq<Move>, second: seq<Move>, wants: seq<Move>, uses: map<nat, Use>, all: map<nat, Use>,
      init: Machine, now: Machine)
    requires State(first, second, wants, uses, all, init, now) && |first| > 0
    requires first[0].MovReg? ==> first[0].src != first[0].target && !IsTarget((first + second)[1..], first[0].src)
    ensures State(first[1..], second + [first[0]], wants, uses, all, init, now)
  {
    var es := first + second;
    var es' := es[1..] + [first[0]];
    assert first[1..] + (second + [first[0]]) == es';
    RequeuePending(es, uses);
    RequeueProgress(es, wants, uses, init, now, first[0], now);
    SettledRequeue(second, es, first[0]);
    WithinRequeue(es, wants, all, first[0]);
  }

  lemma FreshIsNoTarget(es: seq<Move>, uses: map<nat, Use>, r: nat)
    requires Pending(es, uses) && |es| > 0 && r !in uses
    ensures !IsTarget(es[1..], r) && r != es[0].target
  {
    assert forall i :: 0 <= i < |es| - 1 ==> es[1..][i] == es[i + 1];
  }

  /** Copying to a fresh register, and releasing the one it is copied from. */
  lemma DetourUntouched(es: seq<Move>, wants: seq<Move>, uses: map<nat, Use>, all: map<nat, Use>, init: Machine,
      now: Machine, next: Machine, r: nat)
    requires Untouched(wants, uses, all, init, now) && Within(es, wants, all) && |es| > 0 && r !in uses
    requires forall x :: x in uses ==> next.regs(x) == now.regs(x)
    ensures Untouched(wants, Released(uses[r := TempVar], es[0]), all, init, next)
  {
  }

  lemma DetourQueue(es: seq<Move>, second: seq<Move>, wants: seq<Move>, uses: map<nat, Use>, all: map<nat, Use>,
      init: Machine, code: seq<Move>, r: nat)
    requires Pending(es, uses) && |es| > 0 && es[0].MovReg? && r !in uses && DistinctTargets(wants)
    requires Progress(es, wants, init, Exec(code, init)) && Settled(second, es) && Within(es, wants, all)
    requires forall w :: 0 <= w < |wants| ==> wants[w].target in uses
    ensures var e, e' := es[0], MovReg(r, es[0].target);
      && Pending(es[1..] + [e'], Released(uses[r := TempVar], e)) && Settled(second + [e'], es[1..] + [e'])
      && Progress(es[1..] + [e'], wants, init, Exec(code + [MovReg(e.src, r)], init))
  {
    var e, e' := es[0], MovReg(r, es[0].target);
    ExecSnoc(code, MovReg(e.src, r), init);
    var now, next := Exec(code, init), Exec(code + [MovReg(e.src, r)], init);
    assert forall x :: x in uses ==> next.regs(x) == now.regs(x);
    DetourPending(es, uses, r);
    RequeueProgress(es, wants, uses, init, now, e', next);
    FreshIsNoTarget(es, uses, r);
    SettledRequeue(second, es, e');
  }

  /** A load whose target is still to be read and whose source is still to be loaded goes to the
      end of the queue, reading a fresh register to which the source has been copied. */
  lemma DetourState(first: seq<Move>, second: seq<Move>, wants: seq<Move>, uses: map<nat, Use>, all: map<nat, Use>,
      init: Machine, code: seq<Move>, r: nat)
    requires State(first, second, wants, uses, all, init, Exec(code, init)) && |first| > 0
    requires first[0].MovReg? && r !in uses
    ensures State(first[1..], second + [MovReg(r, first[0].target)], wants, Released(uses[r := TempVar], first[0]), all,
                  init, Exec(code + [MovReg(first[0].src, r)], init))
  {
    var es, e' := first + second, MovReg(r, first[0].target);
    assert es[0] == first[0] && first[1..] + (second + [e']) == es[1..] + [e'];
    ExecSnoc(code, MovReg(first[0].src, r), init);
    DetourQueue(es, second, wants, uses, all, init, code, r);
    WithinRequeue(es, wants, all, e');
    DetourUntouched(es, wants, uses, all, init, Exec(code, init), Exec(code + [MovReg(first[0].src, r)], init), r);
  }

  /** Running the code does every load, makes distinct variables, and leaves alone the used
      registers that are not loaded. */
  ghost predicate Performs(code: seq<Move>, wants: seq<Move>, uses: map<nat, Use>, init: Machine) {
    var now := Exec(code, init);
    && (forall w :: 0 <= w < |wants| ==> Loaded(wants[w], init, now))
    && (forall v, w :: 0 <= v < w < |wants| && wants[v].PutTVar? && wants[w].PutTVar? ==>
          now.regs(wants[v].target) != now.regs(wants[w].target))
    && (forall r :: r in uses && !IsTarget(wants, r) ==> now.regs(r) == init.regs(r))
  }

  lemma EndPerforms(wants: seq<Move>, uses: map<nat, Use>, all: map<nat, Use>, code: seq<Move>, init: Machine)
    requires State([], [], wants, uses, all, init, Exec(code, init))
    ensures Performs(code, wants, all, init)
  {
    forall v, w | 0 <= v < w < |wants| && wants[v].PutTVar? && wants[w].PutTVar?
      ensures Exec(code, init).regs(wants[v].target) != Exec(code, init).regs(wants[w].target)
    {
      assert Made([], wants[v]) && Made([], wants[w]);
    }
  }

  /** Room for every entry that may still be re-queued, so that the queue never wraps. */
  ghost predicate NoWrap(bottom: nat, first: seq<Move>, second: seq<Move>) {
    bottom + |first + second| + (if |first| > 0 then |first| - 1 else 0) < INST_QUEUE_SIZE
  }

  /** A turn on a queue that does not wrap, whose load is done or need not be. */
  lemma TurnDone(l: Loop, r: nat, first: seq<Move>, second: seq<Move>, wants: seq<Move>, all: map<nat, Use>,
      init: Machine)
    requires l.es == first + second != [] && NoWrap(l.bottom, first, second)
    requires State(first, second, wants, l.uses, all, init, Exec(l.code, init))
    requires (l.es[0].MovReg? && l.es[0].src == l.es[0].target) || !IsSource(l.es[1..], l.es[0].target)
    ensures var (f, s) := Rest(first, second); var next := Turn(l, r);
      next.es == f + s && NoWrap(next.bottom, f, s) && State(f, s, wants, next.uses, all, init, Exec(next.code, init))
  {
    assert Visible(Slot(l.bottom, 1), l.es[1..]) == l.es[1..];
    if l.es[0].MovReg? && l.es[0].src == l.es[0].target {
      SkipState(first, second, wants, l.uses, all, init, Exec(l.code, init));
    } else {
      EmitState(first, second, wants, l.uses, all, init, l.code);
    }
  }

  /** What a load that has to wait goes back as. */
  ghost function Again(e: Move, rest: seq<Move>, r: nat): Move {
    if Detours(e, rest) then MovReg(r, e.target) else e
  }

  lemma DeferredTurn(l: Loop, r: nat)
    requires l.bottom + |l.es| < INST_QUEUE_SIZE - 1 && |l.es| > 0
    requires !(l.es[0].MovReg? && l.es[0].src == l.es[0].target) && IsSource(l.es[1..], l.es[0].target)
    ensures var e, rest := l.es[0], l.es[1..];
      Turn(l, r) == Loop(l.bottom + 1, rest + [Again(e, rest, r)],
        if Detours(e, rest) then l.code + [MovReg(e.src, r)] else l.code,
        if Detours(e, rest) then Released(l.uses[r := TempVar], e) else l.uses)
  {
    assert Visible(Slot(l.bottom, 1), l.es[1..]) == l.es[1..];
  }

  /** The queue then still does not wrap. */
  lemma DeferredQueue(l: Loop, r: nat, first: seq<Move>, second: seq<Move>)
    requires l.es == first + second && |first| > 1 && NoWrap(l.bottom, first, second)
    requires !(l.es[0].MovReg? && l.es[0].src == l.es[0].target) && IsSource(l.es[1..], l.es[0].target)
    ensures l.es[0] == first[0] && l.es[1..] == first[1..] + second
    ensures var next, again := Turn(l, r), Again(l.es[0], l.es[1..], r);
      next.es == first[1..] + (second + [again]) && NoWrap(next.bottom, first[1..], second + [again])
  {
    DeferredTurn(l, r);
    ConcatAssoc(first[1..], second, [Again(l.es[0], l.es[1..], r)]);
  }

  /** A turn on a queue that does not wrap, whose load goes to the end. */
  lemma TurnDeferred(l: Loop, r: nat, first: seq<Move>, second: seq<Move>, wants: seq<Move>, all: map<nat, Use>,
      init: Machine)
    requires l.es == first + second && |first| > 1 && NoWrap(l.bottom, first, second) && MayTurn(l, r)
    requires State(first, second, wants, l.uses, all, init, Exec(l.code, init))
    requires !(l.es[0].MovReg? && l.es[0].src == l.es[0].target) && IsSource(l.es[1..], l.es[0].target)
    ensures var next, again := Turn(l, r), Again(l.es[0], l.es[1..], r);
      State(first[1..], second + [again], wants, next.uses, all, init, Exec(next.code, init))
  {
    var e, rest := l.es[0], l.es[1..];
    DeferredTurn(l, r);
    if Detours(e, rest) {
      assert Visible(Slot(l.bottom, 1), rest) == rest;
      DetourState(first, second, wants, l.uses, all, init, l.code, r);
    } else {
      RequeueState(first, second, wants, l.uses, all, init, Exec(l.code, init));
    }
  }

  /** A turn on a queue that does not wrap. */
  lemma TurnState(l: Loop, r: nat, first: seq<Move>, second: seq<Move>, wants: seq<Move>, all: map<nat, Use>,
      init: Machine)
    returns (first': seq<Move>, second': seq<Move>)
    requires l.es == first + second != [] && NoWrap(l.bottom, first, second) && MayTurn(l, r)
    requires State(first, second, wants, l.uses, all, init, Exec(l.code, init))
    ensures Turn(l, r).es == first' + second' && NoWrap(Turn(l, r).bottom, first', second')
    ensures State(first', second', wants, Turn(l, r).uses, all, init, Exec(Turn(l, r).code, init))
  {
    if (l.es[0].MovReg? && l.es[0].src == l.es[0].target) || !IsSource(l.es[1..], l.es[0].target) {
      TurnDone(l, r, first, second, wants, all, init);
      first', second' := Rest(first, second).0, Rest(first, second).1;
    } else {
      if |first| <= 1 {
        NoConflict(l.es, second);
      }
      DeferredQueue(l, r, first, second);
      TurnDeferred(l, r, first, second, wants, all, init);
      first', second' := first[1..], second + [Again(l.es[0], l.es[1..], r)];
    }
  }

  lemma {:induction false} EndsPerforms(l: Loop, out: seq<Move>, turns: nat, first: seq<Move>, second: seq<Move>,
      wants: seq<Move>, all: map<nat, Use>, init: Machine)
    requires Ends(l, out, turns) && l.es == first + second && NoWrap(l.bottom, first, second)
    requires State(first, second, wants, l.uses, all, init, Exec(l.code, init))
    ensures Performs(out, wants, all, init)
    decreases turns
  {
    if l.es == [] {
      assert first == [] && second == [];
      EndPerforms(wants, l.uses, all, l.code, init);
    } else {
      var r: nat :| MayTurn(l, r) && Ends(Turn(l, r), out, turns - 1);
      var first', second' := TurnState(l, r, first, second, wants, all, init);
      EndsPerforms(Turn(l, r), out, turns - 1, first', second', wants, all, init);
    }
  }

  /** The loop on these loads, from the start. */
  function Start(loads: seq<Move>, uses: map<nat, Use>): Loop {
    Loop(10, loads, [], uses)
  }

  /** With at most 123 loads, the code the loop ends with has the effect of doing all of them at
      once. */
  lemma FewLoads(loads: seq<Move>, uses: map<nat, Use>, out: seq<Move>, turns: nat, init: Machine)
    requires Loads(loads, uses) && |loads| <= 123 && Ends(Start(loads, uses), out, turns)
    ensures Performs(out, loads, uses, init)
  {
    assert loads + [] == loads;
    StartProgress(loads, uses, init);
    EndsPerforms(Start(loads, uses), out, turns, loads, [], loads, uses, init);
  }

  /** The queue holds the entries not yet looked at, then the re-queued ones; whether or not it has
      wrapped, no source of these is a target. */
  ghost predicate Shape(first: seq<Move>, second: seq<Move>, uses: map<nat, Use>) {
    Pending(first + second, uses) && Settled(second, first + second)
  }

  function Others(es: seq<Move>): seq<Move> {
    if es == [] then [] else es[1..]
  }

  /** A turn leaves fewer loads, or fewer that have not been looked at. */
  lemma TurnShape(l: Loop, r: nat, first: seq<Move>, second: seq<Move>) returns (first': seq<Move>, second': seq<Move>)
    requires l.bottom < INST_QUEUE_SIZE && l.es == first + second != []
    requires Shape(first, second, l.uses) && MayTurn(l, r)
    ensures Turn(l, r).es == first' + second' && Shape(first', second', Turn(l, r).uses)
    ensures first' == Others(first) && |first'| + |Turn(l, r).es| < |first| + |l.es|
    ensures |Turn(l, r).code| + |first'| + |Turn(l, r).es| <= |l.code| + |first| + |l.es|
  {
    var e, rest := l.es[0], l.es[1..];
    var seen := Visible(Slot(l.bottom, 1), rest);
    first', second' := Rest(first, second).0, Rest(first, second).1;
    PendingRest(l.es, l.uses);
    if (e.MovReg? && e.src == e.target) || !IsSource(seen, e.target) {
      SettledRest(second, l.es);
    } else {
      if |first| <= 1 {
        NoConflict(l.es, second);
      }
      second' := second + [if Detours(e, seen) then MovReg(r, e.target) else e];
      first' := Others(first);
      assert first' + second' == rest + second'[|second|..];
      if Detours(e, seen) {
        DetourPending(l.es, l.uses, r);
        FreshIsNoTarget(l.es, l.uses, r);
      } else {
        RequeuePending(l.es, l.uses);
      }
      SettledRequeue(second, l.es, second'[|second|]);
    }
  }

  lemma {:induction false} Bounded(rs: set<nat>) returns (b: nat)
    ensures forall r :: r in rs ==> r < b
  {
    if rs == {} {
      b := 0;
    } else {
      var r :| r in rs;
      var rest := Bounded(rs - {r});
      b := if rest <= r then r + 1 else rest;
      assert forall x :: x in rs ==> x == r || x in rs - {r};
    }
  }

  /** The loop comes to an end from wherever it is. */
  lemma {:induction false} EndsSomehow(l: Loop, first: seq<Move>, second: seq<Move>)
    returns (out: seq<Move>, turns: nat)
    requires l.bottom < INST_QUEUE_SIZE && l.es == first + second && Shape(first, second, l.uses)
    ensures Ends(l, out, turns)
    decreases |first| + |l.es|
  {
    if l.es == [] {
      out, turns := l.code, 0;
    } else {
      var r := Bounded(l.uses.Keys);
      var first', second' := TurnShape(l, r, first, second);
      out, turns := EndsSomehow(Turn(l, r), first', second');
      turns := turns + 1;
    }
  }

  /** The turns so far lead from the loop's start to where it stands. */
  ghost predicate LeadsTo(start: Loop, l: Loop, turns: nat) {
    forall out, k: nat {:trigger Ends(l, out, k)} :: Ends(l, out, k) ==> Ends(start, out, turns + k)
  }

  lemma LeadsTurn(start: Loop, l: Loop, turns: nat, r: nat)
    requires LeadsTo(start, l, turns) && l.bottom < INST_QUEUE_SIZE && l.es != [] && MayTurn(l, r)
    ensures LeadsTo(start, Turn(l, r), turns + 1)
  {
    forall out, k: nat | Ends(Turn(l, r), out, k) ensures Ends(start, out, turns + 1 + k) {
      assert Ends(l, out, k + 1);
    }
  }

  /** The load e would overwrite a register still to be read: it goes to the end of the queue, by
      way of a fresh register if its own source is still to be loaded. */
  method Defer(e: Move, q: Queue<Move>, reg: RegStat, code: seq<Move>)
    returns (ok: bool, code': seq<Move>, ghost r: nat)
    requires q.Valid() && reg.Valid() && q as object != reg && q.slots as object != reg.regArray
    requires |q.entries| < INST_QUEUE_SIZE - 1
    requires (e.MovReg? ==> e.src in reg.uses && e.src != e.target)
    requires IsSource(Visible(q.bottom, q.entries), e.target)
    modifies q, q.slots, reg, reg.regArray
    ensures old(reg.Room()) > 0 || !Detours(e, Visible(old(q.bottom), old(q.entries))) ==> ok
    ensures ok ==> q.Valid() && reg.Valid() && q.bottom == old(q.bottom)
    ensures ok ==>
      reg.Room() >= old(reg.Room()) - (if Detours(e, Visible(old(q.bottom), old(q.entries))) then 1 else 0)
    ensures ok ==> (q.entries, code') == Turned(e, old(q.entries), Visible(q.bottom, old(q.entries)), code, r)
    ensures ok ==> reg.uses == TurnedUses(e, Visible(q.bottom, old(q.entries)), old(reg.uses), r)
    ensures ok ==> Detours(e, Visible(q.bottom, old(q.entries))) ==> r !in old(reg.uses)
  {
    code', r := code, 0;
    var free := true;
    if e.MovReg? {
      free := SourceIsNotTarget(q, e.src);
    }
    if free {
      ok := q.Push(e);
    } else {
      ok, code', r := Detour(e, q, reg, code);
    }
  }

  /** Copies the source of the load to a fresh register, which the load is to read instead. */
  method Detour(e: Move, q: Queue<Move>, reg: RegStat, code: seq<Move>) returns (ok: bool, code': seq<Move>, r: nat)
    requires q.Valid() && reg.Valid() && q as object != reg && q.slots as object != reg.regArray
    requires |q.entries| < INST_QUEUE_SIZE - 1 && e.MovReg? && e.src in reg.uses
    modifies q, q.slots, reg, reg.regArray
    ensures old(reg.Room()) > 0 ==> ok
    ensures ok ==> q.Valid() && reg.Valid() && q.bottom == old(q.bottom) && reg.Room() >= old(reg.Room()) - 1
    ensures ok ==> r !in old(reg.uses) && reg.uses == Released(old(reg.uses)[r := TempVar], e)
    ensures ok ==> q.entries == old(q.entries) + [MovReg(r, e.target)] && code' == code + [MovReg(e.src, r)]
  {
    code' := code;
    ok, r := reg.Get(TempVar);
    if ok {
      code' := code + [MovReg(e.src, r)];
      reg.Release(e.src);
      ok := q.Push(MovReg(r, e.target));
    }
  }

  /** Takes the next load, and finds out whether a load still in the queue reads its target. */
  method Front(q: Queue<Move>) returns (e: Move, clear: bool)
    requires q.Valid() && q.entries != []
    modifies q
    ensures q.Valid() && q.entries == old(q.entries)[1..] && e == old(q.entries)[0]
    ensures q.bottom == Slot(old(q.bottom), 1)
    ensures clear <==> !IsSource(Visible(q.bottom, q.entries), e.target)
  {
    ghost var es := q.entries;
    e := q.Rem();
    assert e == es[0] && q.entries == es[1..];
    clear := TargetIsNotSource(q, e.target);
  }

  /** The next load is to go round by way of another register. */
  ghost predicate Detoured(bottom: nat, es: seq<Move>)
    requires bottom < INST_QUEUE_SIZE && |es| > 0
  {
    Detours(es[0], Visible(Slot(bottom, 1), es[1..]))
  }

  /** One turn of the loop. */
  method NextLoad(q: Queue<Move>, reg: RegStat, code: seq<Move>) returns (ok: bool, code': seq<Move>, ghost r: nat)
    requires q.Valid() && reg.Valid() && q as object != reg && q.slots as object != reg.regArray
    requires q.entries != [] && (q.entries[0].MovReg? ==> q.entries[0].src in reg.uses)
    modifies q, q.slots, reg, reg.regArray
    ensures !Detoured(old(q.bottom), old(q.entries)) || old(reg.Room()) > 0 ==> ok
    ensures ok ==> q.Valid() && reg.Valid() && MayTurn(Loop(old(q.bottom), old(q.entries), code, old(reg.uses)), r)
    ensures ok ==>
      Loop(q.bottom, q.entries, code', reg.uses) == Turn(Loop(old(q.bottom), old(q.entries), code, old(reg.uses)), r)
    ensures ok ==> reg.Room() >= old(reg.Room()) - (if Detoured(old(q.bottom), old(q.entries)) then 1 else 0)
  {
    ok, code', r := true, code, 0;
    var e, clear := Front(q);
    if e.MovReg? && e.src == e.target {
    } else if clear {
      code' := code + [e];
      if e.MovReg? {
        reg.Release(e.src);
      }
    } else {
      ok, code', r := Defer(e, q, reg, code);
    }
  }

  /** How far the loop has come with n loads; the entries not yet looked at are `first`. */
  ghost predicate Running(start: Loop, l: Loop, turns: nat, first: seq<Move>, second: seq<Move>, n: nat) {
    && l.bottom < INST_QUEUE_SIZE && l.es == first + second && Shape(first, second, l.uses)
    && LeadsTo(start, l, turns) && |l.code| + |first| + |l.es| <= 2 * n
  }

  lemma RunsOn(start: Loop, l: Loop, turns: nat, first: seq<Move>, second: seq<Move>, n: nat, r: nat)
    returns (first': seq<Move>, second': seq<Move>)
    requires Running(start, l, turns, first, second, n) && l.es != [] && MayTurn(l, r)
    ensures Running(start, Turn(l, r), turns + 1, first', second', n)
    ensures first' == Others(first) && |first'| + |Turn(l, r).es| < |first| + |l.es|
  {
    LeadsTurn(start, l, turns, r);
    first', second' := TurnShape(l, r, first, second);
  }

  /** How many of the loads read an argument register: only these can need another one. */
  ghost function Crossing(es: seq<Move>, uses: map<nat, Use>): nat {
    if es == [] then 0
    else (if es[0].MovReg? && IsArgument(es[0].src, uses) then 1 else 0) + Crossing(es[1..], uses)
  }

  /** All registers that are arguments' now were so at first. */
  ghost predicate ArgumentsFrom(uses: map<nat, Use>, all: map<nat, Use>) {
    forall r: nat {:trigger IsArgument(r, uses)} :: IsArgument(r, uses) ==> IsArgument(r, all)
  }

  lemma TurnArguments(l: Loop, r: nat, all: map<nat, Use>)
    requires l.bottom < INST_QUEUE_SIZE && l.es != [] && ArgumentsFrom(l.uses, all) && MayTurn(l, r)
    ensures ArgumentsFrom(Turn(l, r).uses, all)
  {
    forall x: nat | IsArgument(x, Turn(l, r).uses) ensures IsArgument(x, all) {
      assert IsArgument(x, l.uses);
    }
  }

  /** A load that takes a detour has not been looked at before, and reads an argument register. */
  lemma DetoursCross(l: Loop, first: seq<Move>, second: seq<Move>, all: map<nat, Use>)
    requires l.bottom < INST_QUEUE_SIZE && l.es == first + second != [] && Shape(first, second, l.uses)
    requires ArgumentsFrom(l.uses, all)
    ensures Crossing(first, all) == Crossing(Others(first), all) +
      (if first != [] && first[0].MovReg? && IsArgument(first[0].src, all) then 1 else 0)
    ensures Detoured(l.bottom, l.es) ==> first != [] && first[0].MovReg? && IsArgument(first[0].src, all)
  {
    if Detoured(l.bottom, l.es) {
      var i :| 0 <= i < |l.es[1..]| && l.es[1..][i].target == l.es[0].src;
      assert l.es[i + 1].target in l.uses && IsArgument(l.es[0].src, l.uses);
    }
  }

  /** Does the loop, which always ends: a load that would overwrite a register still to be read goes
      round the queue once, never twice. With at most 123 loads the instructions together have the
      effect of doing all the loads at once. */
  method GenMvs(q: Queue<Move>, reg: RegStat) returns (ok: bool, code: seq<Move>, ghost turns: nat)
    requires q.Valid() && reg.Valid() && Loads(q.entries, reg.uses)
    requires q.bottom == 10 && q as object != reg && q.slots as object != reg.regArray
    modifies q, q.slots, reg, reg.regArray
    ensures Crossing(old(q.entries), old(reg.uses)) <= old(reg.Room()) ==> ok
    ensures ok ==> |code| <= 2 * |old(q.entries)| && Ends(Start(old(q.entries), old(reg.uses)), code, turns)
    ensures ok && |old(q.entries)| <= 123 ==> forall init :: Performs(code, old(q.entries), old(reg.uses), init)
  {
    ghost var wants, all := q.entries, reg.uses;
    ok, code, turns := RunLoop(q, reg);
    if ok {
      forall init | |wants| <= 123 ensures Performs(code, wants, all, init) {
        FewLoads(wants, all, code, turns, init);
      }
    }
  }

  /** One turn of the loop; there are registers left for the entries not yet looked at, if `enough`. */
  method RunTurn(q: Queue<Move>, reg: RegStat, code: seq<Move>, ghost l: Loop, ghost first: seq<Move>,
      ghost second: seq<Move>, ghost all: map<nat, Use>, ghost enough: bool)
    returns (ok: bool, code': seq<Move>, ghost r: nat)
    requires q.Valid() && reg.Valid() && q as object != reg && q.slots as object != reg.regArray
    requires l == Loop(q.bottom, q.entries, code, reg.uses) && l.es == first + second != []
    requires Shape(first, second, l.uses) && ArgumentsFrom(l.uses, all)
    requires enough ==> Crossing(first, all) <= reg.Room()
    modifies q, q.slots, reg, reg.regArray
    ensures enough ==> ok
    ensures ok ==> q.Valid() && reg.Valid() && MayTurn(l, r)
    ensures ok ==> Loop(q.bottom, q.entries, code', reg.uses) == Turn(l, r)
    ensures ok ==> ArgumentsFrom(reg.uses, all)
    ensures ok && enough ==> Crossing(Others(first), all) <= reg.Room()
  {
    DetoursCross(l, first, second, all);
    ok, code', r := NextLoad(q, reg, code);
    if ok {
      TurnArguments(l, r, all);
    }
  }

  /** The loop itself. */
  method RunLoop(q: Queue<Move>, reg: RegStat) returns (ok: bool, code: seq<Move>, ghost turns: nat)
    requires q.Valid() && reg.Valid() && Loads(q.entries, reg.uses)
    requires q.bottom == 10 && q as object != reg && q.slots as object != reg.regArray
    modifies q, q.slots, reg, reg.regArray
    ensures Crossing(old(q.entries), old(reg.uses)) <= old(reg.Room()) ==> ok
    ensures ok ==> |code| <= 2 * |old(q.entries)| && Ends(Start(old(q.entries), old(reg.uses)), code, turns)
  {
    ghost var start, n := Start(q.entries, reg.uses), |q.entries|;
    ghost var first, second := q.entries, [];
    ghost var all, enough := reg.uses, Crossing(q.entries, reg.uses) <= reg.Room();
    ok, code, turns := true, [], 0;
    ghost var l := start;
    assert q.entries + [] == q.entries;
    while !q.IsEmpty()
      invariant q.Valid() && reg.Valid()
      invariant l == Loop(q.bottom, q.entries, code, reg.uses) && Running(start, l, turns, first, second, n)
      invariant ArgumentsFrom(l.uses, all) && (enough ==> Crossing(first, all) <= reg.Room())
      decreases |first| + |q.entries|
    {
      ghost var r;
      ok, code, r := RunTurn(q, reg, code, l, first, second, all, enough);
      if !ok {
        return;
      }
      first, second := RunsOn(start, l, turns, first, second, n, r);
      l := Turn(l, r);
      turns := turns + 1;
    }
    ok := true;
    assert Ends(l, code, 0);
  }
}
