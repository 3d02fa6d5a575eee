/** The clause h(X1,..,Xm) :- q(a,X1,..,Xm), whose n = m + 1 loads drive the queue around its end: its
    code is right exactly when n is at most 123. */
module ClauseWrap {
  import opened Terms
  import opened HeadSim
  import opened HeadCode
  import opened Registers
  import opened Waiting
  import opened InstQueue
  import opened BodyCompiler
  import opened ClauseCode
  import B = BodySim
  import M = MoveScheduler
  import W = QueueWrap

  function ShiftHead(n: nat): (ps: seq<Pattern>)
    requires n > 0
    ensures |ps| == n - 1 && forall j :: 0 <= j < n - 1 ==> ps[j] == PVar(j)
  {
    seq(n - 1, j requires 0 <= j < n - 1 => PVar(j))
  }

  function ShiftBody(n: nat): (ps: seq<Pattern>)
    requires n > 0
    ensures |ps| == n && ps[0] == PConst(Symbol("a")) && forall j :: 1 <= j < n ==> ps[j] == PVar(j - 1)
  {
    seq(n, j requires 0 <= j < n => if j == 0 then PConst(Symbol("a")) else PVar(j - 1))
  }

  /** Every variable stays in its argument's register. */
  lemma {:induction false} ShiftEnv(n: nat)
    requires n > 0
    ensures AllVars(ShiftHead(n))
    ensures forall v: nat {:trigger v in VarEnv(ShiftHead(n))} :: v in VarEnv(ShiftHead(n)) <==> v < n - 1
    ensures forall v: nat {:trigger VarEnv(ShiftHead(n))[v]} :: v < n - 1 ==> VarEnv(ShiftHead(n))[v] == v + 1
  {
    if n > 1 {
      var ps := ShiftHead(n);
      assert ps[..|ps| - 1] == ShiftHead(n - 1) && ps[|ps| - 1] == PVar(n - 2);
      ShiftEnv(n - 1);
      assert VarEnv(ps) == VarEnv(ShiftHead(n - 1))[n - 2 := n - 1];
    }
  }

  lemma ShiftLoads(n: nat, code: Clause, asInt: int -> int, t: Trace)
    requires n > 0 && Compiled(code, ShiftHead(n), ShiftBody(n), asInt, t)
    ensures t.loads == W.Shift(n) && W.ArgumentsKept(n, t.uses)
    ensures InPlace(n, t.headEnv)
  {
    var body := ShiftBody(n);
    ShiftEnv(n);
    assert LoadOf(t.loads[0], body[0], 1, t.done, asInt);
    forall j | 1 <= j < n ensures t.loads[j] == M.MovReg(j, j + 1) {
      assert body[j] == PVar(j - 1) && FromHead(t.loads[j], body[j], j + 1, t.headEnv);
    }
    forall r: nat | r <= n ensures r in t.uses && t.uses[r] == Argument {
      assert IsArgument(r, t.uses);
    }
  }

  /** A call whose arguments are all different. */
  function Numbers(n: nat): Subst {
    v => if v + 1 < n then Const(Integer(v)) else Const(EmptyList)
  }

  lemma {:induction false} VarsNoFloat(ps: seq<Pattern>)
    requires AllVars(ps)
    ensures !AnyFloat(ps)
  {
    if ps != [] {
      assert ps[0].PVar? && forall j :: 0 <= j < |ps| - 1 ==> ps[1..][j] == ps[j + 1];
      VarsNoFloat(ps[1..]);
    }
  }

  /** Variable k is in register k + 1. */
  ghost predicate InPlace(n: nat, env: Env) {
    && (forall v: nat {:trigger v in env} :: v in env <==> v + 1 < n)
    && (forall v: nat {:trigger env[v]} :: v + 1 < n ==> env[v] == v + 1)
  }

  /** The registers from 1 to n - 1 hold the numbers. */
  ghost predicate HoldsNumbers(m: B.Machine, n: nat) {
    m.Machine? && forall r: nat {:trigger m.regs(r)} :: 1 <= r < n ==> m.regs(r) == B.Ground(Const(Integer(r - 1)))
  }

  /** The head's code lets the call pass. */
  lemma ShiftMatch(n: nat, code: seq<Instr>, env: Env)
    requires n > 0 && Correct(code, ShiftHead(n), env) && InPlace(n, env)
    ensures var regs := CallRegs(ShiftHead(n), Numbers(n));
      MatchesArgs(ShiftHead(n), regs, Numbers(n)) && Exec(code, Run(regs, [])).Run?
    ensures forall v: nat {:trigger OccursIn(v, ShiftHead(n))} :: OccursIn(v, ShiftHead(n)) <==> v + 1 < n
  {
    var head, s := ShiftHead(n), Numbers(n);
    var regs := CallRegs(head, s);
    ShiftEnv(n);
    VarsNoFloat(head);
    MatchesInstance(head, s, s);
    assert MatchesArgs(head, regs, s) && Matching(head, regs);
    assert CorrectOn(code, head, env, regs);
    forall v: nat ensures OccursIn(v, head) <==> v + 1 < n {
      assert v in env <==> OccursIn(v, head);
    }
  }

  /** And it leaves each number in its register. */
  lemma ShiftRegs(n: nat, code: seq<Instr>, env: Env, st: State, r: nat)
    requires 1 <= r < n && Correct(code, ShiftHead(n), env) && InPlace(n, env)
    requires st == Exec(code, Run(CallRegs(ShiftHead(n), Numbers(n)), []))
    ensures st.Run? && r in st.regs && st.regs[r] == Const(Integer(r - 1))
  {
    var regs := CallRegs(ShiftHead(n), Numbers(n));
    ShiftMatch(n, code, env);
    assert CorrectOn(code, ShiftHead(n), env, regs);
    var v: nat := r - 1;
    assert v in env && env[v] == r && st.regs[env[v]] == Numbers(n)(v);
  }

  /** Building does not touch the registers of the head's variables. */
  lemma ShiftBuilt(n: nat, code: seq<B.Build>, done: seq<Entry>, env: Env, head: Env, init: B.Machine)
    requires B.Built(code, done, Pos(env, [], []), head) && InPlace(n, head) && HoldsNumbers(init, n)
    ensures HoldsNumbers(B.DoAll(code, init), n)
  {
    var m := B.DoAll(code, init);
    forall v | v in head ensures init.regs(head[v]).Ground? {
      assert head[v] == v + 1;
    }
    assert B.BuiltFor(m, done, Pos(env, [], []), head, init);
    forall r: nat | 1 <= r < n ensures m.regs(r) == B.Ground(Const(Integer(r - 1))) {
      var v: nat := r - 1;
      assert v in head && head[v] == r;
    }
  }

  /** The moves leave a wrong argument. */
  lemma ShiftMoved(n: nat, moves: seq<M.Move>, uses: map<nat, Use>, turns: nat, m: B.Machine, rho: B.Valuation)
    requires 123 < n < INST_QUEUE_SIZE && W.ArgumentsKept(n, uses) && M.Ends(M.Start(W.Shift(n), uses), moves, turns)
    requires HoldsNumbers(m, n)
    ensures !GoalLoaded(MoveAll(moves, m), ShiftBody(n), Numbers(n), rho)
  {
    var body, s, out := ShiftBody(n), Numbers(n), MoveAll(moves, m);
    MovesUniform(moves, m);
    var j := if n <= 245 then n - 1 else 1;
    if n <= 245 {
      W.LastLost(n, uses, moves, turns, TOKENS);
      assert out.regs(n) == m.regs(246 - n);
    } else {
      W.SecondLost(n, uses, moves, turns, TOKENS);
      assert out.regs(2) == B.Atomic(Symbol("a"));
    }
    assert body[j] == PVar(j - 1) && Apply(body[j], s) == s(j - 1) == Const(Integer(j - 1));
    assert !B.Denotes(out.heap, out.regs(j + 1), Apply(body[j], s), rho);
  }

  /** A call on which the code goes wrong. */
  lemma WrongOn(code: Clause, head: seq<Pattern>, body: seq<Pattern>, regs: Regs, init: B.Machine, s: Subst,
      rho: B.Valuation)
    requires ArgumentRegs(|head|) <= regs.Keys && MatchesArgs(head, regs, s)
    requires Exec(code.matching, Run(regs, [])).Run? && ClauseCode.Holds(init, Exec(code.matching, Run(regs, [])).regs)
    requires forall v, a: nat {:trigger s(v), rho(a)} :: !OccursIn(v, head) ==> s(v) == rho(a)
    requires B.DoAll(code.build, init).Machine?
    requires !GoalLoaded(MoveAll(code.moves, B.DoAll(code.build, init)), body, s, rho)
    ensures !ClauseCorrect(code, head, body)
  {
    var m := B.DoAll(code.build, init);
    forall addr | NewVariables(addr, init, MoveAll(code.moves, m), head)
      ensures !GoalFor(code, head, body, regs, m, addr)
    {
      forall v {:trigger addr[v]} | v in addr ensures s(v) == rho(addr[v]) {
        assert !OccursIn(v, head);
      }
    }
    assert !Continues(code, head, body, regs, init);
  }

  /** With more than 123 loads the code is wrong. */
  lemma ShiftWrong(n: nat, code: Clause, asInt: int -> int, t: Trace)
    requires 123 < n < INST_QUEUE_SIZE && Compiled(code, ShiftHead(n), ShiftBody(n), asInt, t)
    ensures !ClauseCorrect(code, ShiftHead(n), ShiftBody(n))
  {
    var head, s := ShiftHead(n), Numbers(n);
    var rho: B.Valuation := _ => Const(EmptyList);
    var regs := CallRegs(head, s);
    var st := Exec(code.matching, Run(regs, []));
    ShiftLoads(n, code, asInt, t);
    ShiftMatch(n, code.matching, t.headEnv);
    var init := B.Machine((r: nat) => if r in st.regs then B.Ground(st.regs[r]) else B.Ref(0), []);
    forall r: nat | 1 <= r < n ensures init.regs(r) == B.Ground(Const(Integer(r - 1))) {
      ShiftRegs(n, code.matching, t.headEnv, st, r);
    }
    ShiftBuilt(n, code.build, t.done, t.env, t.headEnv, init);
    ShiftMoved(n, code.moves, t.uses, t.turns, B.DoAll(code.build, init), rho);
    WrongOn(code, head, ShiftBody(n), regs, init, s, rho);
  }

  /** So of the clauses of this form exactly those with at most 123 arguments in the body get the
      right code. */
  lemma ShiftIff(n: nat, code: Clause, asInt: int -> int, t: Trace)
    requires 0 < n < INST_QUEUE_SIZE && Compiled(code, ShiftHead(n), ShiftBody(n), asInt, t)
    ensures ClauseCorrect(code, ShiftHead(n), ShiftBody(n)) <==> n <= 123
  {
    if n <= 123 {
      CompiledCorrect(code, ShiftHead(n), ShiftBody(n), asInt, t);
    } else {
      ShiftWrong(n, code, asInt, t);
    }
  }

  lemma {:induction false} KnownNeeds(vs: seq<Pattern>, head: seq<Pattern>)
    requires forall j :: 0 <= j < |vs| ==> vs[j].PConst? || (vs[j].PVar? && OccursIn(vs[j].v, head))
    ensures Compounds(vs) == 0 && Widest(vs) == 0 && VarsAll(vs) <= VarsAll(head) && Passed(vs, head) <= |vs|
  {
    if vs != [] {
      KnownNeeds(vs[1..], head);
    }
  }

  lemma {:induction false} HeadNeeds(ps: seq<Pattern>, known: set<nat>)
    requires AllVars(ps)
    ensures Introduced(ps, known) == 0 && Widest(ps) == 0
  {
    if ps != [] {
      assert ps[0].PVar? && forall j :: 0 <= j < |ps| - 1 ==> ps[1..][j] == ps[j + 1];
      HeadNeeds(ps[1..], known + Vars(ps[0]));
    }
  }

  lemma {:induction false} OccursAt(v: nat, ps: seq<Pattern>, j: nat)
    requires j < |ps| && ps[j] == PVar(v)
    ensures OccursIn(v, ps)
  {
    if j > 0 {
      OccursAt(v, ps[1..], j - 1);
    }
  }

  /** Compiles such a clause. There are enough registers for up to 127 arguments at least, so from 124
      to 127 the result is wrong code and no failure. */
  method CompileShift(n: nat, asInt: int -> int) returns (ok: bool, code: Clause)
    requires 0 < n < INST_QUEUE_SIZE
    ensures n <= 127 ==> ok
    ensures ok ==> (ClauseCorrect(code, ShiftHead(n), ShiftBody(n)) <==> n <= 123)
  {
    var head, body := ShiftHead(n), ShiftBody(n);
    ShiftEnv(n);
    HeadNeeds(head, {});
    VarsNoFloat(head);
    forall j | 0 <= j < n ensures body[j].PConst? || (body[j].PVar? && OccursIn(body[j].v, head)) {
      if j > 0 {
        OccursAt(j - 1, head, j - 1);
      }
    }
    KnownNeeds(body, head);
    assert VarsAll(body) - VarsAll(head) == {};
    ghost var t;
    ok, code, t := CompileClause(head, body, asInt);
    if ok {
      ShiftIff(n, code, asInt, t);
    }
  }
}
