/** Where the register moves go wrong. The clause h(X1,..,Xm) :- q(a,X1,..,Xm) has n = m + 1 loads,
    each of which but the first reads the register that the next one sets. With more than 123 of
    them the queue is driven around its end, the scans then see an empty queue, and a register is
    overwritten before it is read. */
module QueueWrap {
  import opened InstQueue
  import opened MoveScheduler
  import opened Registers

  /** The n loads for q(a,X1,..), with Xk in register k. */
  function Shift(n: nat): (s: seq<Move>)
    requires n > 0
    ensures |s| == n && s[0] == PutCon("a", 1)
    ensures forall k :: 1 <= k < n ==> s[k] == MovReg(k, k + 1)
  {
    seq(n, k requires 0 <= k < n => if k == 0 then PutCon("a", 1) else MovReg(k, k + 1))
  }

  /** They are what the scheduler asks for. */
  lemma ShiftIsLoads(n: nat)
    requires n > 0
    ensures Loads(Shift(n), Arguments(n))
  {
  }

  /** The first k loads, re-queued: all but the constant read a fresh register. */
  function Requeued(k: nat, rs: seq<nat>): (s: seq<Move>)
    requires 1 <= k == |rs| + 1
    ensures |s| == k && s[0] == PutCon("a", 1)
    ensures forall j :: 1 <= j < k ==> s[j] == MovReg(rs[j - 1], j + 1)
  {
    seq(k, j requires 0 <= j < k => if j == 0 then PutCon("a", 1) else MovReg(rs[j - 1], j + 1))
  }

  /** The copies to the fresh registers. */
  function Copies(rs: seq<nat>): (s: seq<Move>)
    ensures |s| == |rs| && forall j :: 0 <= j < |rs| ==> s[j] == MovReg(j + 1, rs[j])
  {
    seq(|rs|, j requires 0 <= j < |rs| => MovReg(j + 1, rs[j]))
  }

  /** The queue after the first k turns. */
  function Queued(n: nat, k: nat, rs: seq<nat>): (s: seq<Move>)
    requires 1 <= k == |rs| + 1 && k < n
    ensures |s| == n
    ensures forall i :: 0 <= i < n - k ==> s[i] == MovReg(k + i, k + i + 1)
    ensures s[n - k] == PutCon("a", 1)
    ensures forall i :: n - k < i < n ==> s[i] == MovReg(rs[i - (n - k) - 1], i + k + 1 - n)
  {
    Shift(n)[k..] + Requeued(k, rs)
  }

  lemma QueuedNext(n: nat, k: nat, rs: seq<nat>, r: nat)
    requires 1 <= k == |rs| + 1 && k + 1 < n
    ensures Queued(n, k, rs)[1..] + [MovReg(r, k + 1)] == Queued(n, k + 1, rs + [r])
    ensures Copies(rs) + [MovReg(k, r)] == Copies(rs + [r])
  {
  }

  /** The argument registers stay in use. */
  ghost predicate ArgumentsKept(n: nat, uses: map<nat, Use>) {
    forall r: nat {:trigger r in uses} {:trigger uses[r]} :: r <= n ==> r in uses && uses[r] == Argument
  }

  /** The loop's state after the first k turns, in which the registers `rs` have been handed out. */
  ghost predicate Turning(l: Loop, n: nat, k: nat, rs: seq<nat>) {
    && 1 <= k == |rs| + 1 && k < n && l.bottom == 10 + k && l.es == Queued(n, k, rs) && l.code == Copies(rs)
    && ArgumentsKept(n, l.uses) && forall i {:trigger rs[i]} :: 0 <= i < |rs| ==> rs[i] > n
  }

  lemma FirstTurn(n: nat, uses: map<nat, Use>, r: nat)
    requires 124 <= n <= 245 && ArgumentsKept(n, uses)
    ensures Turning(Turn(Start(Shift(n), uses), r), n, 1, [])
  {
    var rest := Shift(n)[1..];
    assert rest[0] == MovReg(1, 2);
    assert IsSource(rest, 1);
    assert rest + [Shift(n)[0]] == Queued(n, 1, []);
  }

  /** The next turn re-queues its load too, by way of a fresh register. */
  lemma NextTurn(l: Loop, n: nat, k: nat, rs: seq<nat>, r: nat)
    requires Turning(l, n, k, rs) && k < 246 - n && n >= 124 && MayTurn(l, r)
    ensures Turning(Turn(l, r), n, k + 1, rs + [r])
  {
    var e, rest := MovReg(k, k + 1), l.es[1..];
    assert l.es[0] == e;
    StillToRead(n, k, rs);
    assert Visible(Slot(l.bottom, 1), rest) == rest && Detours(e, rest) && r !in l.uses;
    assert Turn(l, r) == Loop(l.bottom + 1, rest + [MovReg(r, k + 1)], l.code + [MovReg(k, r)], l.uses[r := TempVar]);
    QueuedNext(n, k, rs, r);
  }

  /** The next load reads what this one sets, and what this one reads is set by the last. */
  lemma StillToRead(n: nat, k: nat, rs: seq<nat>)
    requires 1 <= k == |rs| + 1 && k + 1 < n
    ensures IsSource(Queued(n, k, rs)[1..], k + 1) && IsTarget(Queued(n, k, rs)[1..], k)
  {
    var es := Queued(n, k, rs);
    var rest, j := es[1..], if k == 1 then n - k else n - 1;
    assert rest[0] == es[1] == MovReg(k + 1, k + 2);
    assert rest[j - 1] == es[j] && es[j].target == k;
  }

  /** The first 246 - n turns. */
  lemma {:induction false} FirstTurns(n: nat, uses: map<nat, Use>, k: nat, out: seq<Move>, turns: nat)
    returns (l: Loop, rs: seq<nat>, left: nat)
    requires 124 <= n <= 245 && 1 <= k <= 246 - n && ArgumentsKept(n, uses)
    requires Ends(Start(Shift(n), uses), out, turns)
    ensures Turning(l, n, k, rs) && Ends(l, out, left)
  {
    if k == 1 {
      var start := Start(Shift(n), uses);
      var r: nat :| MayTurn(start, r) && Ends(Turn(start, r), out, turns - 1);
      FirstTurn(n, uses, r);
      l, rs, left := Turn(start, r), [], turns - 1;
    } else {
      var l0, rs0, left0 := FirstTurns(n, uses, k - 1, out, turns);
      var r: nat :| MayTurn(l0, r) && Ends(Turn(l0, r), out, left0 - 1);
      NextTurn(l0, n, k - 1, rs0, r);
      l, rs, left := Turn(l0, r), rs0 + [r], left0 - 1;
    }
  }

  /** Once the top of the queue has come round the scans see nothing. */
  lemma UnseenTurn(l: Loop, r: nat)
    requires l.bottom < INST_QUEUE_SIZE - 1 && |l.es| > 0 && l.bottom + |l.es| >= INST_QUEUE_SIZE
    requires l.es[0].MovReg? ==> l.es[0].src != l.es[0].target
    ensures Turn(l, r) == Loop(l.bottom + 1, l.es[1..], l.code + [l.es[0]], Released(l.uses, l.es[0]))
  {
  }

  /** i moves, each reading the register that the one before has set. */
  function Chained(m: nat, i: nat): (s: seq<Move>)
    ensures |s| == i && forall j :: 0 <= j < i ==> s[j] == MovReg(m + j, m + j + 1)
  {
    seq(i, j requires 0 <= j < i => MovReg(m + j, m + j + 1))
  }

  /** The loop's state i turns later. */
  ghost predicate Emitting(l: Loop, n: nat, m: nat, rs: seq<nat>, i: nat) {
    && 1 <= m == |rs| + 1 && m < n && i <= n - m && l.bottom == 10 + m + i && l.es == Queued(n, m, rs)[i..]
    && l.code == Copies(rs) + Chained(m, i)
    && ArgumentsKept(n, l.uses) && forall i {:trigger rs[i]} :: 0 <= i < |rs| ==> rs[i] > n
  }

  lemma EmitNext(l: Loop, n: nat, m: nat, rs: seq<nat>, i: nat, r: nat)
    requires Emitting(l, n, m, rs, i) && i < n - m && n + m == 246
    ensures l.es != [] && Emitting(Turn(l, r), n, m, rs, i + 1)
  {
    assert l.es[0] == Queued(n, m, rs)[i] == MovReg(m + i, m + i + 1);
    UnseenTurn(l, r);
    assert Chained(m, i + 1) == Chained(m, i) + [MovReg(m + i, m + i + 1)];
    assert Copies(rs) + Chained(m, i + 1) == l.code + [MovReg(m + i, m + i + 1)];
  }

  /** Then they are emitted in the wrong order: each overwrites what the next was to read. */
  lemma {:induction false} WrongOrder(n: nat, uses: map<nat, Use>, m: nat, i: nat, out: seq<Move>, turns: nat)
    returns (l: Loop, rs: seq<nat>, left: nat)
    requires 124 <= n <= 245 && m == 246 - n && i <= n - m && ArgumentsKept(n, uses)
    requires Ends(Start(Shift(n), uses), out, turns)
    ensures Emitting(l, n, m, rs, i) && Ends(l, out, left)
  {
    if i == 0 {
      l, rs, left := FirstTurns(n, uses, m, out, turns);
      assert l.code + Chained(m, 0) == l.code;
    } else {
      var l0, rs0, left0 := WrongOrder(n, uses, m, i - 1, out, turns);
      EmitNext(l0, n, m, rs0, i - 1, 0);
      var r: nat :| MayTurn(l0, r) && Ends(Turn(l0, r), out, left0 - 1);
      EmitNext(l0, n, m, rs0, i - 1, r);
      l, rs, left := Turn(l0, r), rs0, left0 - 1;
    }
  }

  lemma {:induction false} CopiesKeep(rs: seq<nat>, init: Machine, r: nat)
    requires forall i {:trigger rs[i]} :: 0 <= i < |rs| ==> rs[i] > r
    ensures Exec(Copies(rs), init).regs(r) == init.regs(r)
  {
    if rs != [] {
      var k := |rs| - 1;
      CopiesKeep(rs[..k], init, r);
      assert Copies(rs) == Copies(rs[..k]) + [MovReg(k + 1, rs[k])];
      ExecSnoc(Copies(rs[..k]), MovReg(k + 1, rs[k]), init);
    }
  }

  lemma {:induction false} ChainedCopies(code: seq<Move>, m: nat, i: nat, init: Machine)
    ensures Exec(code + Chained(m, i), init).regs(m + i) == Exec(code, init).regs(m)
  {
    if i == 0 {
      assert code + Chained(m, 0) == code;
    } else {
      ChainedCopies(code, m, i - 1, init);
      assert code + Chained(m, i) == code + Chained(m, i - 1) + [MovReg(m + i - 1, m + i)];
      ExecSnoc(code + Chained(m, i - 1), MovReg(m + i - 1, m + i), init);
    }
  }

  /** What is left in the queue does not load register t. */
  ghost predicate Elsewhere(es: seq<Move>, t: nat) {
    forall i {:trigger es[i]} :: 0 <= i < |es| ==> es[i].target != t && !es[i].PutTVar?
  }

  lemma TurnElsewhere(l: Loop, r: nat, t: nat)
    requires l.bottom < INST_QUEUE_SIZE && l.es != [] && Elsewhere(l.es, t)
    ensures Elsewhere(Turn(l, r).es, t)
  {
    assert !l.es[0].PutTVar? && l.es[0].target != t;
    assert forall i :: 0 <= i < |l.es| - 1 ==> l.es[1..][i] == l.es[i + 1];
  }

  lemma TurnKeeps(l: Loop, r: nat, t: nat, init: Machine)
    requires l.bottom < INST_QUEUE_SIZE && l.es != [] && MayTurn(l, r) && t in l.uses
    requires l.uses[t] == Argument
    requires l.es[0].target != t && !l.es[0].PutTVar?
    ensures t in Turn(l, r).uses && Turn(l, r).uses[t] == Argument
    ensures Exec(Turn(l, r).code, init).regs(t) == Exec(l.code, init).regs(t)
  {
    var e := l.es[0];
    ExecSnoc(l.code, e, init);
    if e.MovReg? {
      ExecSnoc(l.code, MovReg(e.src, r), init);
    }
  }

  /** However long the loop goes on from there, register t keeps its contents. */
  lemma {:induction false} LoadLost(l: Loop, out: seq<Move>, turns: nat, t: nat, init: Machine)
    requires Ends(l, out, turns) && Elsewhere(l.es, t) && t in l.uses && l.uses[t] == Argument
    ensures Exec(out, init).regs(t) == Exec(l.code, init).regs(t)
    decreases turns
  {
    if l.es != [] {
      var r: nat :| MayTurn(l, r) && Ends(Turn(l, r), out, turns - 1);
      TurnElsewhere(l, r, t);
      TurnKeeps(l, r, t, init);
      LoadLost(Turn(l, r), out, turns - 1, t, init);
    }
  }

  /** With 124 to 245 loads the last register ends up with the value of X(246-n), not of X(n-1). */
  lemma LastLost(n: nat, uses: map<nat, Use>, out: seq<Move>, turns: nat, init: Machine)
    requires 124 <= n <= 245 && ArgumentsKept(n, uses) && Ends(Start(Shift(n), uses), out, turns)
    ensures Exec(out, init).regs(n) == init.regs(246 - n)
  {
    var m := 246 - n;
    var l, rs, left := WrongOrder(n, uses, m, n - m, out, turns);
    EmittedElsewhere(l, n, m, rs);
    LoadLost(l, out, left, n, init);
    EmittedValue(l, n, m, rs, init);
  }

  lemma EmittedValue(l: Loop, n: nat, m: nat, rs: seq<nat>, init: Machine)
    requires m <= n && Emitting(l, n, m, rs, n - m)
    ensures Exec(l.code, init).regs(n) == init.regs(m)
  {
    ChainedCopies(Copies(rs), m, n - m, init);
    CopiesKeep(rs, init, m);
  }

  lemma EmittedElsewhere(l: Loop, n: nat, m: nat, rs: seq<nat>)
    requires m <= n && Emitting(l, n, m, rs, n - m)
    ensures Elsewhere(l.es, n)
  {
    forall i | 0 <= i < |l.es| ensures l.es[i].target != n && !l.es[i].PutTVar? {
      assert l.es[i] == Queued(n, m, rs)[n - m + i];
    }
  }

  /** With more the queue has wrapped from the start, and the constant is in register 1 before that
      is read. */
  lemma SecondLost(n: nat, uses: map<nat, Use>, out: seq<Move>, turns: nat, init: Machine)
    requires 246 <= n < INST_QUEUE_SIZE && ArgumentsKept(n, uses) && Ends(Start(Shift(n), uses), out, turns)
    ensures Exec(out, init).regs(2) == Con("a")
  {
    var l0 := Start(Shift(n), uses);
    var r0: nat :| MayTurn(l0, r0) && Ends(Turn(l0, r0), out, turns - 1);
    UnseenTurn(l0, r0);
    var l1 := Turn(l0, r0);
    assert l1.es[0] == MovReg(1, 2);
    var r1: nat :| MayTurn(l1, r1) && Ends(Turn(l1, r1), out, turns - 2);
    UnseenTurn(l1, r1);
    ExecSnoc([], PutCon("a", 1), init);
    ExecSnoc([PutCon("a", 1)], MovReg(1, 2), init);
    LoadLost(Turn(l1, r1), out, turns - 2, 2, init);
  }

  /** However the registers are handed out, more than 123 such loads are not done, when the
      registers hold different values. */
  lemma LoadsNotDone(n: nat, uses: map<nat, Use>, out: seq<Move>, turns: nat, init: Machine)
    requires 123 < n < INST_QUEUE_SIZE && ArgumentsKept(n, uses) && Ends(Start(Shift(n), uses), out, turns)
    requires init.regs(1) != Con("a") && forall r, q: nat :: r != q ==> init.regs(r) != init.regs(q)
    ensures !Performs(out, Shift(n), uses, init)
  {
    if n <= 245 {
      LastLost(n, uses, out, turns, init);
      assert !Loaded(Shift(n)[n - 1], init, Exec(out, init));
    } else {
      SecondLost(n, uses, out, turns, init);
      assert !Loaded(Shift(n)[1], init, Exec(out, init));
    }
  }

  /** All sets of n loads are done, whatever the registers hold. */
  ghost predicate AllDone(n: nat) {
    forall loads, uses, out, turns: nat, init
      {:trigger Ends(Start(loads, uses), out, turns), Performs(out, loads, uses, init)} ::
      |loads| == n && Loads(loads, uses) && Ends(Start(loads, uses), out, turns) ==> Performs(out, loads, uses, init)
  }

  /** Of the numbers of loads that the queue can hold, the moves are right for exactly those up to
      123. */
  lemma ScheduledIff(n: nat)
    requires n < INST_QUEUE_SIZE
    ensures AllDone(n) <==> n <= 123
  {
    if n <= 123 {
      forall loads, uses, out, turns: nat, init |
        |loads| == n && Loads(loads, uses) && Ends(Start(loads, uses), out, turns)
        ensures Performs(out, loads, uses, init)
      {
        FewLoads(loads, uses, out, turns, init);
      }
    } else {
      ManyNotDone(n);
    }
  }

  lemma ManyNotDone(n: nat)
    requires 123 < n < INST_QUEUE_SIZE
    ensures !AllDone(n)
  {
    var loads, uses, init := Shift(n), Arguments(n), Machine((r: nat) => Given(r), 0);
    var out, turns := ShiftEnds(n);
    LoadsNotDone(n, uses, out, turns, init);
    assert Ends(Start(loads, uses), out, turns) && Loads(loads, uses);
  }

  lemma ShiftEnds(n: nat) returns (out: seq<Move>, turns: nat)
    requires n > 0
    ensures Loads(Shift(n), Arguments(n)) && Ends(Start(Shift(n), Arguments(n)), out, turns)
  {
    var loads, uses := Shift(n), Arguments(n);
    ShiftIsLoads(n);
    StartProgress(loads, uses, Machine(_ => Nil, 0));
    assert loads + [] == loads;
    out, turns := EndsSomehow(Start(loads, uses), loads, []);
  }
}
