/** The code of a whole clause, and what it means. */
module ClauseCode {
  import opened Terms
  import opened HeadSim
  import opened HeadCode
  import opened HeadCompiler
  import opened Registers
  import opened InstQueue
  import opened Waiting
  import opened BodyCompiler
  import B = BodySim
  import M = MoveScheduler

  /** Matching the head, building the body's arguments, and moving them into their registers. */
  datatype Clause = Clause(matching: seq<Instr>, build: seq<B.Build>, moves: seq<M.Move>)

  /** The moves on the machine that has built the arguments. */
  function Move(m: B.Machine, i: M.Move): B.Machine
    requires m.Machine?
    ensures Move(m, i).Machine?
  {
    match i
    case MovReg(s, t) => B.SetReg(m, t, m.regs(s))
    case PutCon(c, t) => B.SetReg(m, t, B.Atomic(Symbol(c)))
    case PutNumCon(n, t) => B.SetReg(m, t, B.Atomic(Integer(n)))
    case PutNil(t) => B.SetReg(m, t, B.Atomic(EmptyList))
    case PutTVar(r, t) =>
      var top := |m.heap|;
      B.Append(B.SetReg(B.SetReg(m, r, B.Ref(top)), t, B.Ref(top)), [B.Ref(top)])
  }

  function MoveAll(code: seq<M.Move>, m: B.Machine): (r: B.Machine)
    requires m.Machine?
    ensures r.Machine?
  {
    if code == [] then m else Move(MoveAll(code[..|code| - 1], m), code[|code| - 1])
  }

  /** What a word of the scheduler's machine stands for, when register k has been given k. */
  function Word(c: M.Cell, m: B.Machine): B.Cell
    requires m.Machine?
  {
    match c
    case Given(k) => if k >= 0 then m.regs(k) else B.Atomic(EmptyList)
    case Con(name) => B.Atomic(Symbol(name))
    case Num(n) => B.Atomic(Integer(n))
    case Nil => B.Atomic(EmptyList)
    case Unbound(k) => B.Ref(|m.heap| + k)
  }

  const TOKENS: M.Machine := M.Machine((r: nat) => M.Given(r), 0)

  /** The moves do not look at what they move. */
  lemma {:induction false} MovesUniform(code: seq<M.Move>, m: B.Machine)
    requires m.Machine?
    ensures var out := MoveAll(code, m); var abs := M.Exec(code, TOKENS);
      && m.heap <= out.heap && |out.heap| == |m.heap| + abs.vars
      && forall r :: out.regs(r) == Word(abs.regs(r), m)
  {
    if code != [] {
      MovesUniform(code[..|code| - 1], m);
    }
  }

  /** The variables that are new in the body, with their addresses: free, different, and made
      since the start. */
  ghost predicate NewVariables(addr: map<nat, nat>, init: B.Machine, out: B.Machine, head: seq<Pattern>)
    requires init.Machine? && out.Machine?
  {
    && init.heap <= out.heap
    && (forall v {:trigger addr[v]} :: v in addr ==>
          !OccursIn(v, head) && |init.heap| <= addr[v] < |out.heap| && out.heap[addr[v]] == B.Ref(addr[v]))
    && forall v, w {:trigger addr[v], addr[w]} :: v in addr && w in addr && v != w ==> addr[v] != addr[w]
  }

  predicate IsFloat(p: Pattern) {
    p.PConst? && p.c.Float?
  }

  /** The registers 1, 2, ... hold the instances of the arguments; where an argument is a float,
      the register holds something else. */
  ghost predicate GoalLoaded(out: B.Machine, body: seq<Pattern>, s: Subst, rho: B.Valuation)
    requires out.Machine?
  {
    forall j {:trigger body[j]} :: 0 <= j < |body| ==>
      (B.Denotes(out.heap, out.regs(j + 1), Apply(body[j], s), rho) <==> !IsFloat(body[j]))
  }

  /** From any machine whose registers hold what the head's code has left there, building and
      moving gives a heap with new variables in which the goal's registers hold the instances of
      the body's arguments: the head's variables have their matched subterms for values, and the
      new variables any. */
  ghost predicate Continues(code: Clause, head: seq<Pattern>, body: seq<Pattern>, regs: Regs, init: B.Machine)
    requires init.Machine?
  {
    var m := B.DoAll(code.build, init);
    && m.Machine?
    && exists addr :: NewVariables(addr, init, MoveAll(code.moves, m), head) && GoalFor(code, head, body, regs, m, addr)
  }

  ghost predicate GoalFor(code: Clause, head: seq<Pattern>, body: seq<Pattern>, regs: Regs, m: B.Machine,
      addr: map<nat, nat>)
    requires m.Machine?
  {
    forall s: Subst, rho: B.Valuation {:trigger GoalLoaded(MoveAll(code.moves, m), body, s, rho)} ::
      MatchesArgs(head, regs, s) && (forall v {:trigger addr[v]} :: v in addr ==> s(v) == rho(addr[v])) ==>
        GoalLoaded(MoveAll(code.moves, m), body, s, rho)
  }

  ghost predicate Holds(init: B.Machine, regs: Regs) {
    init.Machine? && forall r {:trigger regs[r]} :: r in regs ==> init.regs(r) == B.Ground(regs[r])
  }

  /** Running the code on any ground arguments fails exactly when the head does not match them or
      has a float in it, and otherwise leads to the instance of the body. */
  ghost predicate ClauseCorrect(code: Clause, head: seq<Pattern>, body: seq<Pattern>) {
    forall regs: Regs {:trigger Exec(code.matching, Run(regs, []))} :: ArgumentRegs(|head|) <= regs.Keys ==>
      var st := Exec(code.matching, Run(regs, []));
      && !st.Stuck?
      && (st.Run? <==> !AnyFloat(head) && Matching(head, regs))
      && (st.Run? ==> forall init {:trigger Holds(init, st.regs)} ::
          Holds(init, st.regs) ==> Continues(code, head, body, regs, init))
  }

  /** As `Continues`, with the instances of all arguments in the registers. */
  ghost predicate PassesOn(code: Clause, head: seq<Pattern>, body: seq<Pattern>, regs: Regs, init: B.Machine)
    requires init.Machine?
  {
    var m := B.DoAll(code.build, init);
    && m.Machine?
    && exists addr ::
      NewVariables(addr, init, MoveAll(code.moves, m), head) && InstanceFor(code, head, body, regs, m, addr)
  }

  ghost predicate InstanceFor(code: Clause, head: seq<Pattern>, body: seq<Pattern>, regs: Regs, m: B.Machine,
      addr: map<nat, nat>)
    requires m.Machine?
  {
    forall s: Subst, rho: B.Valuation {:trigger InstanceLoaded(MoveAll(code.moves, m), body, s, rho)} ::
      MatchesArgs(head, regs, s) && (forall v {:trigger addr[v]} :: v in addr ==> s(v) == rho(addr[v])) ==>
        InstanceLoaded(MoveAll(code.moves, m), body, s, rho)
  }

  ghost predicate InstanceLoaded(out: B.Machine, body: seq<Pattern>, s: Subst, rho: B.Valuation)
    requires out.Machine?
  {
    forall j {:trigger body[j]} :: 0 <= j < |body| ==> B.Denotes(out.heap, out.regs(j + 1), Apply(body[j], s), rho)
  }

  /** A matching call that the code goes on with, from a machine that holds what the match left. */
  ghost predicate Entered(code: Clause, regs: Regs, init: B.Machine) {
    Exec(code.matching, Run(regs, [])).Run? && Holds(init, Exec(code.matching, Run(regs, [])).regs)
  }

  /** The code goes on with exactly the calls that the head matches, and with the instance of the
      whole body. */
  ghost predicate AlwaysInstance(code: Clause, head: seq<Pattern>, body: seq<Pattern>) {
    && Decides(code.matching, head)
    && forall regs: Regs, init {:trigger PassesOn(code, head, body, regs, init)} ::
        ArgumentRegs(|head|) <= regs.Keys && Entered(code, regs, init) ==> PassesOn(code, head, body, regs, init)
  }

  /** That is so exactly when there is no float in the head, at any depth, and no argument of the
      body is a float. */
  lemma NoFloatIff(code: Clause, head: seq<Pattern>, body: seq<Pattern>)
    requires ClauseCorrect(code, head, body)
    ensures AlwaysInstance(code, head, body) <==> !AnyFloat(head) && forall p :: p in body ==> !IsFloat(p)
  {
    MatchDecidesIff(code, head, body);
    if forall p :: p in body ==> !IsFloat(p) {
      forall regs: Regs, init | ArgumentRegs(|head|) <= regs.Keys && Entered(code, regs, init)
        ensures PassesOn(code, head, body, regs, init)
      {
        FloatFree(code, head, body, regs, init);
      }
    } else if !AnyFloat(head) {
      var j :| 0 <= j < |body| && IsFloat(body[j]);
      FloatLost(code, head, body, j);
    }
  }

  lemma MatchDecidesIff(code: Clause, head: seq<Pattern>, body: seq<Pattern>)
    requires ClauseCorrect(code, head, body)
    ensures Decides(code.matching, head) <==> !AnyFloat(head)
  {
    var s: Subst := _ => Const(EmptyList);
    var regs := CallRegs(head, s);
    MatchesInstance(head, s, s);
    assert MatchesArgs(head, regs, s);
    assert Matching(head, regs) && ArgumentRegs(|head|) <= regs.Keys;
    assert Exec(code.matching, Run(regs, [])).Run? <==> !AnyFloat(head);
  }

  lemma FloatFree(code: Clause, head: seq<Pattern>, body: seq<Pattern>, regs: Regs, init: B.Machine)
    requires init.Machine? && Continues(code, head, body, regs, init) && forall p :: p in body ==> !IsFloat(p)
    ensures PassesOn(code, head, body, regs, init)
  {
    var m := B.DoAll(code.build, init);
    var addr :| NewVariables(addr, init, MoveAll(code.moves, m), head) && GoalFor(code, head, body, regs, m, addr);
    forall s: Subst, rho: B.Valuation | GoalLoaded(MoveAll(code.moves, m), body, s, rho)
      ensures InstanceLoaded(MoveAll(code.moves, m), body, s, rho)
    {
      forall j | 0 <= j < |body| ensures !IsFloat(body[j]) {
        assert body[j] in body;
      }
    }
    assert InstanceFor(code, head, body, regs, m, addr);
  }

  lemma FloatMissed(code: Clause, head: seq<Pattern>, body: seq<Pattern>, regs: Regs, init: B.Machine, s: Subst,
      rho: B.Valuation, j: nat)
    requires init.Machine? && Continues(code, head, body, regs, init) && MatchesArgs(head, regs, s)
    requires j < |body| && IsFloat(body[j]) && forall v: nat, a: nat :: s(v) == rho(a)
    ensures !PassesOn(code, head, body, regs, init)
  {
    var m := B.DoAll(code.build, init);
    var out := MoveAll(code.moves, m);
    var addr :| NewVariables(addr, init, out, head) && GoalFor(code, head, body, regs, m, addr);
    assert GoalLoaded(out, body, s, rho) && !InstanceLoaded(out, body, s, rho);
  }

  /** A call of the clause in which the float goes wrong. */
  lemma FloatLost(code: Clause, head: seq<Pattern>, body: seq<Pattern>, j: nat)
    requires ClauseCorrect(code, head, body) && !AnyFloat(head) && j < |body| && IsFloat(body[j])
    ensures !AlwaysInstance(code, head, body)
  {
    var s: Subst := _ => Const(EmptyList);
    var regs := CallRegs(head, s);
    MatchesInstance(head, s, s);
    var st := Exec(code.matching, Run(regs, []));
    assert MatchesArgs(head, regs, s);
    assert Matching(head, regs);
    assert st.Run?;
    var init := B.Machine((r: nat) => if r in st.regs then B.Ground(st.regs[r]) else B.Ref(0), []);
    assert Holds(init, st.regs) && Entered(code, regs, init);
    FloatMissed(code, head, body, regs, init, s, s, j);
  }

  /** One argument, from how it is loaded. */
  lemma ArgumentLoaded(j: nat, load: M.Move, p: Pattern, done: seq<Entry>, asInt: int -> int, m: B.Machine,
      out: B.Machine,
      s: Subst, rho: B.Valuation)
    requires out.Machine? && LoadOf(load, p, j + 1, done, asInt)
    requires B.Results(m, done, out.heap, s, rho)
    requires load.MovReg? ==> out.regs(j + 1) == m.regs(load.src)
    requires !load.MovReg? ==> out.regs(j + 1) == Word(
      match load case PutCon(c, _) => M.Con(c) case PutNumCon(n, _) => M.Num(n) case _ => M.Nil, m)
    ensures B.Denotes(out.heap, out.regs(j + 1), Apply(p, s), rho) <==> !IsFloat(p)
  {
    if !p.PConst? {
      var k :| 0 <= k < |done| && done[k] == Entry(load.src, p);
      assert B.Denotes(out.heap, m.regs(done[k].r), Apply(done[k].p, s), rho);
    }
  }

  /** The addresses of the new variables. */
  ghost function Addresses(env: Env, head: Env, m: B.Machine): (addr: map<nat, nat>)
    requires m.Machine? && forall v {:trigger env[v]} :: v in env && v !in head ==> m.regs(env[v]).Ref?
    ensures forall v {:trigger addr[v]} :: v in addr ==> v in env && v !in head && m.regs(env[v]) == B.Ref(addr[v])
    ensures forall v {:trigger v in addr} :: v in addr <==> v in env && v !in head
  {
    map v | v in env && v !in head :: m.regs(env[v]).a
  }

  /** The new variables of the machine m that has built the arguments. */
  lemma NewAddresses(env: Env, done: seq<Entry>, head: Env, uses: map<nat, Use>, args: seq<Pattern>, m: B.Machine,
      init: B.Machine, out: B.Machine) returns (addr: map<nat, nat>)
    requires B.Ready(m, Pos(env, [], []), head, init) && Placed(env, [], done, head, uses)
    requires out.Machine? && m.heap <= out.heap && forall v :: v in head <==> OccursIn(v, args)
    ensures forall v {:trigger addr[v]} :: v in addr ==> v in env && v !in head && m.regs(env[v]) == B.Ref(addr[v])
    ensures forall v {:trigger v in addr} :: v in addr <==> v in env && v !in head
    ensures NewVariables(addr, init, out, args)
  {
    B.HolesBelow(m, Pos(env, [], []), head, init);
    forall v | v in env && v !in head ensures B.InUse(env[v], Pos(env, [], []), head) && B.Open(m, env[v], init) {
      assert Pos(env, [], []).env[v] == env[v];
    }
    addr := Addresses(env, head, m);
    forall v | v in addr ensures out.heap[addr[v]] == B.Ref(addr[v]) {
      assert m.heap[addr[v]] == out.heap[addr[v]];
    }
    forall v, w | v in addr && w in addr && v != w ensures addr[v] != addr[w] {
      assert OwnRegister(env, head, v, w);
    }
  }

  /** Every value of the new variables is a value for the work that is done. */
  lemma AllFinished(env: Env, head: Env, m: B.Machine, init: B.Machine, out: B.Machine, addr: map<nat, nat>, s: Subst,
      rho: B.Valuation)
    requires B.Ready(m, Pos(env, [], []), head, init) && out.Machine? && m.heap <= out.heap
    requires forall v {:trigger addr[v]} :: v in addr ==> v in env && v !in head && m.regs(env[v]) == B.Ref(addr[v])
    requires forall v {:trigger v in addr} :: v in addr <==> v in env && v !in head
    requires forall v {:trigger addr[v]} ::
      v in addr ==> addr[v] < |out.heap| && out.heap[addr[v]] == B.Ref(addr[v]) && s(v) == rho(addr[v])
    requires forall v {:trigger head[v]} :: v in head ==> init.regs(head[v]) == B.Ground(s(v))
    ensures B.Finished(m, Pos(env, [], []), out.heap, s, rho)
  {
    forall v | v in env ensures B.Denotes(out.heap, m.regs(env[v]), s(v), rho) {
      if v in head {
        assert env[v] == head[v] && m.regs(head[v]) == init.regs(head[v]);
      } else {
        assert v in addr && m.regs(env[v]) == B.Ref(addr[v]);
      }
    }
    forall x | 0 <= x < |m.heap| ensures out.heap[x] == m.heap[x] {
    }
  }

  lemma LoadsDone(moves: seq<M.Move>, loads: seq<M.Move>, uses: map<nat, Use>, body: seq<Pattern>, done: seq<Entry>,
      asInt: int -> int, m: B.Machine, s: Subst, rho: B.Valuation)
    requires m.Machine? && LoadsOf(loads, body, done, asInt)
    requires M.Performs(moves, loads, uses, TOKENS)
    requires B.Results(m, done, MoveAll(moves, m).heap, s, rho)
    ensures GoalLoaded(MoveAll(moves, m), body, s, rho)
  {
    var out, abs := MoveAll(moves, m), M.Exec(moves, TOKENS);
    MovesUniform(moves, m);
    forall j | 0 <= j < |body|
      ensures B.Denotes(out.heap, out.regs(j + 1), Apply(body[j], s), rho) <==> !IsFloat(body[j])
    {
      assert LoadOf(loads[j], body[j], j + 1, done, asInt) && M.Loaded(loads[j], TOKENS, abs);
      LoadDone(j, loads[j], body[j], done, asInt, m, out, abs, s, rho);
    }
  }

  lemma LoadDone(j: nat, load: M.Move, p: Pattern, done: seq<Entry>, asInt: int -> int, m: B.Machine, out: B.Machine,
      abs: M.Machine, s: Subst, rho: B.Valuation)
    requires m.Machine? && out.Machine? && LoadOf(load, p, j + 1, done, asInt) && M.Loaded(load, TOKENS, abs)
    requires B.Results(m, done, out.heap, s, rho) && out.regs(j + 1) == Word(abs.regs(j + 1), m)
    ensures B.Denotes(out.heap, out.regs(j + 1), Apply(p, s), rho) <==> !IsFloat(p)
  {
    ArgumentLoaded(j, load, p, done, asInt, m, out, s, rho);
  }

  /** What the head's code leaves is what the body's code starts from. */
  lemma BuiltContinues(code: Clause, head: seq<Pattern>, body: seq<Pattern>, headEnv: Env, env: Env, done: seq<Entry>,
      loads: seq<M.Move>, uses: map<nat, Use>, asInt: int -> int, regs: Regs, init: B.Machine)
    requires Correct(code.matching, head, headEnv) && ArgumentRegs(|head|) <= regs.Keys
    requires B.Built(code.build, done, Pos(env, [], []), headEnv)
    requires Placed(env, [], done, headEnv, uses)
    requires LoadsOf(loads, body, done, asInt)
    requires forall start :: M.Performs(code.moves, loads, uses, start)
    requires var st := Exec(code.matching, Run(regs, [])); st.Run? && Holds(init, st.regs)
    ensures Continues(code, head, body, regs, init)
  {
    var st := Exec(code.matching, Run(regs, []));
    assert CorrectOn(code.matching, head, headEnv, regs);
    forall v | v in headEnv ensures headEnv[v] in st.regs && init.regs(headEnv[v]) == B.Ground(st.regs[headEnv[v]]) {
    }
    var m := B.DoAll(code.build, init);
    assert B.BuiltFor(m, done, Pos(env, [], []), headEnv, init);
    var out := MoveAll(code.moves, m);
    MovesUniform(code.moves, m);
    var addr := NewAddresses(env, done, headEnv, uses, head, m, init, out);
    forall s: Subst, rho: B.Valuation | MatchesArgs(head, regs, s) && forall v {:trigger addr[v]} ::
      v in addr ==> s(v) == rho(addr[v])
      ensures GoalLoaded(out, body, s, rho)
    {
      AllFinished(env, headEnv, m, init, out, addr, s, rho);
      assert M.Performs(code.moves, loads, uses, TOKENS);
      LoadsDone(code.moves, loads, uses, body, done, asInt, m, s, rho);
    }
    assert GoalFor(code, head, body, regs, m, addr);
  }

  lemma CodeCorrect(code: Clause, head: seq<Pattern>, body: seq<Pattern>, headEnv: Env, env: Env, done: seq<Entry>,
      loads: seq<M.Move>, uses: map<nat, Use>, asInt: int -> int)
    requires Correct(code.matching, head, headEnv)
    requires B.Built(code.build, done, Pos(env, [], []), headEnv)
    requires Placed(env, [], done, headEnv, uses)
    requires LoadsOf(loads, body, done, asInt)
    requires forall start :: M.Performs(code.moves, loads, uses, start)
    ensures ClauseCorrect(code, head, body)
  {
    forall regs: Regs | ArgumentRegs(|head|) <= regs.Keys
      ensures CorrectOn(code.matching, head, headEnv, regs)
      ensures var st := Exec(code.matching, Run(regs, []));
        st.Run? ==> forall init :: Holds(init, st.regs) ==> Continues(code, head, body, regs, init)
    {
      assert CorrectOn(code.matching, head, headEnv, regs);
      forall init | Exec(code.matching, Run(regs, [])).Run? && Holds(init, Exec(code.matching, Run(regs, [])).regs)
        ensures Continues(code, head, body, regs, init)
      {
        BuiltContinues(code, head, body, headEnv, env, done, loads, uses, asInt, regs, init);
      }
    }
  }

  /** What came of compiling a clause: where the variables of the head and all of them are, the
      registers with finished arguments, the loads, the registers in use, and the turns of the
      scheduler's loop. */
  datatype Trace = Trace(headEnv: Env, env: Env, done: seq<Entry>, loads: seq<M.Move>, uses: map<nat, Use>, turns: nat)

  /** The head has been compiled, and the code that builds the body's arguments. */
  ghost predicate Prepared(matching: seq<Instr>, build: seq<B.Build>, head: seq<Pattern>, body: seq<Pattern>,
      asInt: int -> int, t: Trace)
  {
    && Correct(matching, head, t.headEnv) && (AllVars(head) ==> t.headEnv == VarEnv(head))
    && B.Built(build, t.done, Pos(t.env, [], []), t.headEnv) && Placed(t.env, [], t.done, t.headEnv, t.uses)
    && LoadsOf(t.loads, body, t.done, asInt) && M.Loads(t.loads, t.uses)
    && FromHeads(t.loads, body, t.headEnv)
    && (forall r: nat {:trigger IsArgument(r, t.uses)} :: r <= |head| || r <= |body| ==> IsArgument(r, t.uses))
  }

  /** The clause has been compiled to the code. */
  ghost predicate Compiled(code: Clause, head: seq<Pattern>, body: seq<Pattern>, asInt: int -> int, t: Trace) {
    && Prepared(code.matching, code.build, head, body, asInt, t)
    && M.Ends(M.Start(t.loads, t.uses), code.moves, t.turns)
  }

  lemma CompiledCorrect(code: Clause, head: seq<Pattern>, body: seq<Pattern>, asInt: int -> int, t: Trace)
    requires Compiled(code, head, body, asInt, t) && |body| <= 123
    ensures ClauseCorrect(code, head, body)
  {
    forall init ensures M.Performs(code.moves, t.loads, t.uses, init) {
      M.FewLoads(t.loads, t.uses, code.moves, t.turns, init);
    }
    CodeCorrect(code, head, body, t.headEnv, t.env, t.done, t.loads, t.uses, asInt);
  }

  /** How many of the arguments are variables of the head. */
  function Passed(ps: seq<Pattern>, head: seq<Pattern>): nat {
    if ps == [] then 0 else (if ps[0].PVar? && OccursIn(ps[0].v, head) then 1 else 0) + Passed(ps[1..], head)
  }

  /** Only their loads read argument registers. */
  lemma {:induction false} PassedCross(i: nat, loads: seq<M.Move>, body: seq<Pattern>, done: seq<Entry>,
      asInt: int -> int, env: Env, head: seq<Pattern>, headEnv: Env, uses: map<nat, Use>)
    requires i <= |loads| && LoadsOf(loads, body, done, asInt) && Placed(env, [], done, headEnv, uses)
    requires headEnv.Keys == VarsAll(head)
    ensures M.Crossing(loads[i..], uses) <= Passed(body[i..], head)
    decreases |loads| - i
  {
    if i < |loads| {
      PassedCross(i + 1, loads, body, done, asInt, env, head, headEnv, uses);
      assert loads[i..][1..] == loads[i + 1..] && body[i..][1..] == body[i + 1..];
      assert LoadOf(loads[i], body[i], i + 1, done, asInt);
      if loads[i].MovReg? {
        var k :| 0 <= k < |done| && done[k] == Entry(loads[i].src, body[i]);
        assert OfHead(body[i], headEnv) || uses[done[k].r] == RealVar;
      }
    }
  }

  /** The registers kept for the clause: for its variables, but those met first as arguments of the
      head, and for the compound arguments of the body. */
  function Permanent(head: seq<Pattern>, body: seq<Pattern>): nat {
    Introduced(head, {}) + |VarsAll(body) - VarsAll(head)| + Compounds(body)
  }

  /** Compiles the head, and the code that builds the body's arguments; their loads are queued. */
  method CompileTerms(head: seq<Pattern>, body: seq<Pattern>, asInt: int -> int, reg: RegStat, loads: Queue<M.Move>)
    returns (ok: bool, matching: seq<Instr>, build: seq<B.Build>, ghost t: Trace)
    requires reg.Valid() && |head| <= reg.size && |body| <= reg.size
    requires loads.Valid() && loads as object != reg && loads.slots as object != reg.regArray && loads.entries == []
    modifies reg, reg.regArray, loads, loads.slots
    ensures Permanent(head, body) + Max(Widest(head), Widest(body)) <= old(reg.Room()) && |body| < INST_QUEUE_SIZE
      ==> ok
    ensures ok ==> reg.Valid() && loads.Valid() && loads.bottom == old(loads.bottom)
    ensures ok ==> reg.Room() == old(reg.Room()) - Permanent(head, body)
    ensures ok ==> M.Crossing(loads.entries, reg.uses) <= Passed(body, head)
    ensures ok ==> |matching| <= HeadInstructions(head) && |build| == BodyInstructions(body, VarsAll(head))
    ensures ok ==> Prepared(matching, build, head, body, asInt, t) && t.loads == loads.entries && t.uses == reg.uses
  {
    var headEnv, env;
    build, t := [], Trace(map[], map[], [], [], map[], 0);
    ok, matching, headEnv := CompileHead(head, reg);
    if !ok {
      return;
    }
    ghost var done;
    ok, build, env, done := BuildArgs(body, loads, reg, headEnv, asInt);
    if !ok {
      return;
    }
    t := Trace(headEnv, env, done, loads.entries, reg.uses, 0);
    assert loads.entries[0..] == loads.entries && body[0..] == body;
    PassedCross(0, loads.entries, body, done, asInt, env, head, headEnv, reg.uses);
    forall r: nat | r <= |head| || r <= |body| ensures IsArgument(r, reg.uses) {
    }
    LoadsFit(loads.entries, body, done, asInt, env, headEnv, reg);
  }

  /** The code of a clause with a body goal. There are registers enough if there are some for the
      arguments, those kept for the clause, and, besides, for the compound subterms that wait at one
      time and then for the arguments of the body that are variables of the head. The code is right for
      a body of at most 123 arguments; for more, the moves at its end need not be. */
  method CompileClause(head: seq<Pattern>, body: seq<Pattern>, asInt: int -> int)
    returns (ok: bool, code: Clause, ghost t: Trace)
    requires |head| < MAX_REGS - 1 && |body| < MAX_REGS - 1
    ensures var size := if |head| > |body| then |head| else |body|;
      size + Permanent(head, body) + Max(Max(Widest(head), Widest(body)), Passed(body, head)) <= MAX_REGS - 2 ==> ok
    ensures ok ==> |code.matching| <= HeadInstructions(head) && |code.build| == BodyInstructions(body, VarsAll(head))
    ensures ok ==> |code.moves| <= 2 * |body|
    ensures ok ==> Compiled(code, head, body, asInt, t)
    ensures ok && |body| <= 123 ==> ClauseCorrect(code, head, body)
    ensures ok && |body| <= 123 ==>
      (AlwaysInstance(code, head, body) <==> !AnyFloat(head) && forall p :: p in body ==> !IsFloat(p))
  {
    var size := if |head| > |body| then |head| else |body|;
    var reg := new RegStat(size);
    var loads := new Queue<M.Move>();
    var matching, build;
    code := Clause([], [], []);
    ok, matching, build, t := CompileTerms(head, body, asInt, reg, loads);
    if !ok {
      return;
    }
    var moves;
    ghost var turns;
    ok, moves, turns := M.GenMvs(loads, reg);
    if !ok {
      return;
    }
    code, t := Clause(matching, build, moves), t.(turns := turns);
    if |body| <= 123 {
      CompiledCorrect(code, head, body, asInt, t);
      NoFloatIff(code, head, body);
    }
  }
}
