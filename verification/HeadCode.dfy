/** The code of a whole clause head, and what it means. */
module HeadCode {
  import opened Terms
  import opened HeadSim
  import opened Registers
  import opened InstQueue
  import opened HeadCompiler
  import opened Waiting

  function ArgumentRegs(n: nat): (keep: set<nat>)
    ensures forall r: nat :: r in keep <==> 1 <= r <= n
  {
    if n == 0 then {} else ArgumentRegs(n - 1) + {n}
  }

  ghost predicate Matching(args: seq<Pattern>, regs: Regs) {
    exists s: Subst :: MatchesArgs(args, regs, s)
  }

  /** Running the code on any ground arguments succeeds exactly when the head matches them and has
      no float in it; then it leaves every variable of the head, and nothing else, in its register,
      and keeps the arguments. */
  ghost predicate Correct(code: seq<Instr>, args: seq<Pattern>, env: Env) {
    && (!AnyFloat(args) ==> forall v :: v in env <==> OccursIn(v, args))
    && forall regs: Regs {:trigger Exec(code, Run(regs, []))} :: ArgumentRegs(|args|) <= regs.Keys ==>
         CorrectOn(code, args, env, regs)
  }

  ghost predicate CorrectOn(code: seq<Instr>, args: seq<Pattern>, env: Env, regs: Regs) {
    var st := Exec(code, Run(regs, []));
    && !st.Stuck?
    && (st.Run? <==> !AnyFloat(args) && Matching(args, regs))
    && (st.Run? ==>
          && (forall v :: v in env ==> env[v] in st.regs)
          && (forall s: Subst, v :: MatchesArgs(args, regs, s) && v in env ==> st.regs[env[v]] == s(v))
          && (forall r :: r in ArgumentRegs(|args|) ==> r in regs && r in st.regs && st.regs[r] == regs[r]))
  }

  ghost predicate AgreeOn(p: Pattern, s: Subst, t: Subst) {
    forall v {:trigger Occurs(v, p)} :: Occurs(v, p) ==> s(v) == t(v)
  }

  ghost predicate AgreeOnAll(ps: seq<Pattern>, s: Subst, t: Subst) {
    forall v {:trigger OccursIn(v, ps)} :: OccursIn(v, ps) ==> s(v) == t(v)
  }

  /** Two instances of a pattern are equal exactly when the substitutions agree on its variables. */
  lemma {:induction false} ApplyEqual(p: Pattern, s: Subst, t: Subst)
    ensures Apply(p, s) == Apply(p, t) <==> AgreeOn(p, s, t)
    decreases p, 0
  {
    match p
    case PVar(w) =>
      assert Occurs(w, p);
    case PConst(_) =>
    case PList(h, tl) =>
      ApplyEqual(h, s, t);
      ApplyEqual(tl, s, t);
      if AgreeOn(p, s, t) {
        forall v | Occurs(v, h) || Occurs(v, tl) ensures s(v) == t(v) {
          assert Occurs(v, p);
        }
      } else {
        var v :| Occurs(v, p) && s(v) != t(v);
        assert Occurs(v, h) || Occurs(v, tl);
      }
    case PStruct(_, args) =>
      ApplyAllEqual(args, s, t);
      if AgreeOn(p, s, t) {
        forall v | OccursIn(v, args) ensures s(v) == t(v) {
          assert Occurs(v, p);
        }
      } else {
        var v :| Occurs(v, p) && s(v) != t(v);
        assert OccursIn(v, args);
      }
  }

  lemma {:induction false} ApplyAllEqual(ps: seq<Pattern>, s: Subst, t: Subst)
    ensures ApplyAll(ps, s) == ApplyAll(ps, t) <==> AgreeOnAll(ps, s, t)
    decreases ps, 1
  {
    if ps != [] {
      ApplyEqual(ps[0], s, t);
      ApplyAllEqual(ps[1..], s, t);
      if AgreeOnAll(ps, s, t) {
        forall v | Occurs(v, ps[0]) || OccursIn(v, ps[1..]) ensures s(v) == t(v) {
          assert OccursIn(v, ps);
        }
      } else {
        var v :| OccursIn(v, ps) && s(v) != t(v);
        assert Occurs(v, ps[0]) || OccursIn(v, ps[1..]);
      }
      assert ApplyAll(ps, s)[0] == Apply(ps[0], s) && ApplyAll(ps, t)[0] == Apply(ps[0], t);
      assert ApplyAll(ps, s)[1..] == ApplyAll(ps[1..], s) && ApplyAll(ps, t)[1..] == ApplyAll(ps[1..], t);
    }
  }

  lemma {:induction false} ApplyAllAt(ps: seq<Pattern>, s: Subst, j: nat)
    requires j < |ps|
    ensures ApplyAll(ps, s)[j] == Apply(ps[j], s)
  {
    if j > 0 {
      ApplyAllAt(ps[1..], s, j - 1);
    }
  }

  /** The argument registers of a call whose arguments are an instance of the head. */
  function CallRegs(ps: seq<Pattern>, s: Subst): (regs: Regs)
    ensures regs.Keys == ArgumentRegs(|ps|)
  {
    map r | r in ArgumentRegs(|ps|) :: ApplyAll(ps, s)[r - 1]
  }

  lemma MatchesInstance(ps: seq<Pattern>, s: Subst, t: Subst)
    ensures MatchesArgs(ps, CallRegs(ps, s), t) <==> ApplyAll(ps, s) == ApplyAll(ps, t)
  {
    var regs := CallRegs(ps, s);
    forall j | 0 <= j < |ps|
      ensures j + 1 in regs && (regs[j + 1] == Apply(ps[j], t) <==> ApplyAll(ps, s)[j] == ApplyAll(ps, t)[j])
    {
      ApplyAllAt(ps, t, j);
    }
  }

  /** Two instances that differ only in one variable are different exactly if it occurs. */
  lemma DifferInOne(ps: seq<Pattern>, s: Subst, t: Subst, v: nat)
    requires s(v) != t(v) && forall w :: w != v ==> s(w) == t(w)
    ensures MatchesArgs(ps, CallRegs(ps, s), s)
    ensures MatchesArgs(ps, CallRegs(ps, s), t) <==> !OccursIn(v, ps)
  {
    MatchesInstance(ps, s, s);
    MatchesInstance(ps, s, t);
    ApplyAllEqual(ps, s, t);
  }

  /** The compiler knows exactly the variables that occur: otherwise two instances that differ
      only in such a variable would be told apart, or not told apart, by the code. */
  lemma VariablesKnown(code: seq<Instr>, args: seq<Pattern>, env: Env, v: nat)
    requires !AnyFloat(args)
    requires Sim(code, args, Pos(env, [], []), ArgumentRegs(|args|))
    ensures v in env <==> OccursIn(v, args)
  {
    var s: Subst := _ => Const(EmptyList);
    var t: Subst := w => if w == v then Const(Integer(0)) else Const(EmptyList);
    var regs := CallRegs(args, s);
    DifferInOne(args, s, t, v);
    assert SimFor(code, args, Pos(env, [], []), ArgumentRegs(|args|), regs);
    var st := Exec(code, Run(regs, []));
    assert Holds(st, Pos(env, [], []), s);
    assert Holds(st, Pos(env, [], []), t) <==> v !in env by {
      if v in env {
        assert st.regs[env[v]] == s(v) != t(v);
      }
    }
  }

  lemma SimCorrect(code: seq<Instr>, args: seq<Pattern>, env: Env)
    requires Sim(code, args, Pos(env, [], []), ArgumentRegs(|args|))
    ensures Correct(code, args, env)
  {
    if !AnyFloat(args) {
      forall v ensures v in env <==> OccursIn(v, args) {
        VariablesKnown(code, args, env, v);
      }
    }
    var at := Pos(env, [], []);
    forall regs: Regs | ArgumentRegs(|args|) <= regs.Keys ensures CorrectOn(code, args, env, regs) {
      assert SimFor(code, args, at, ArgumentRegs(|args|), regs);
      var st := Exec(code, Run(regs, []));
      if st.Run? {
        var s: Subst := w => if w in env && env[w] in st.regs then st.regs[env[w]] else Const(EmptyList);
        assert Holds(st, at, s);
        assert MatchesArgs(args, regs, s);
      }
      if !AnyFloat(args) && Matching(args, regs) {
        var s: Subst :| MatchesArgs(args, regs, s);
        assert Holds(st, at, s);
      }
    }
  }

  /** The code decides for every call whether the head matches it. */
  ghost predicate Decides(code: seq<Instr>, args: seq<Pattern>) {
    forall regs: Regs {:trigger Exec(code, Run(regs, []))} :: ArgumentRegs(|args|) <= regs.Keys ==>
      (Exec(code, Run(regs, [])).Run? <==> Matching(args, regs))
  }

  /** The code refuses every call. */
  ghost predicate Refuses(code: seq<Instr>, args: seq<Pattern>) {
    forall regs: Regs {:trigger Exec(code, Run(regs, []))} :: ArgumentRegs(|args|) <= regs.Keys ==>
      Exec(code, Run(regs, [])) == Fail
  }

  /** The code decides every call exactly when there is no float in the head, at any depth; with a
      float it refuses even the head's own instances. */
  lemma DecidesIff(code: seq<Instr>, args: seq<Pattern>, env: Env)
    requires Correct(code, args, env)
    ensures Decides(code, args) <==> !AnyFloat(args)
    ensures Refuses(code, args) <==> AnyFloat(args)
  {
    forall regs: Regs | ArgumentRegs(|args|) <= regs.Keys
      ensures Exec(code, Run(regs, [])).Run? <==> !AnyFloat(args) && Matching(args, regs)
      ensures !Exec(code, Run(regs, [])).Stuck?
    {
      assert CorrectOn(code, args, env, regs);
    }
    var s: Subst := _ => Const(EmptyList);
    MatchesInstance(args, s, s);
    var regs := CallRegs(args, s);
    assert MatchesArgs(args, regs, s);
    assert Matching(args, regs) && ArgumentRegs(|args|) <= regs.Keys;
    assert Exec(code, Run(regs, [])).Run? <==> !AnyFloat(args);
  }

  /** How many variables get registers of their own: those that are met first inside a compound term,
      and are not among the variables `known`. */
  function Introduced(ps: seq<Pattern>, known: set<nat>): nat {
    if ps == [] then 0
    else (if ps[0].IsCompound() then |Vars(ps[0]) - known| else 0) + Introduced(ps[1..], known + Vars(ps[0]))
  }

  predicate AllVars(ps: seq<Pattern>) {
    forall j {:trigger ps[j]} :: 0 <= j < |ps| ==> ps[j].PVar?
  }

  /** Where the variables are when all arguments are variables: each in the register of the argument
      that it is first. */
  function VarEnv(ps: seq<Pattern>): Env
    requires AllVars(ps)
  {
    if ps == [] then map[]
    else
      var env, v := VarEnv(ps[..|ps| - 1]), ps[|ps| - 1].v;
      if v in env then env else env[v := |ps|]
  }

  lemma AllocTop(e: Entry, env: Env, uses: map<nat, Use>, keep: set<nat>)
    requires Allocated(env, [], uses, keep) && e.r in keep && e.p.IsCompound()
    ensures Allocated(env, [e], uses, keep)
  {
    assert [e][0] == e;
  }

  /** The instructions for a compound argument of the head. */
  method GenTopTerm(p: Pattern, argno: nat, reg: RegStat, code: seq<Instr>, env: Env, ghost done: seq<Pattern>,
      ghost keep: set<nat>)
    returns (ok: bool, code': seq<Instr>, env': Env)
    requires reg.Valid() && argno > 0 && argno in keep && p.IsCompound()
    requires Sim(code, done, Pos(env, [Entry(argno, p)], []), keep) && Allocated(env, [], reg.uses, keep)
    modifies reg, reg.regArray
    ensures old(reg.Room()) >= Width(p) + |Vars(p) - env.Keys| ==> ok
    ensures ok ==> reg.Valid() && reg.Room() == old(reg.Room()) - |Vars(p) - env.Keys|
    ensures ok ==> env'.Keys == env.Keys + Vars(p) && |code'| <= |code| + Instructions(p, env)
    ensures ok ==> Sim(code', done, Pos(env', [], []), keep) && Allocated(env', [], reg.uses, keep)
  {
    reg.RoomTaken(argno);
    var q := new Queue();
    ok := q.Push(Entry(argno, p));
    assert q.entries == [Entry(argno, p)];
    AllocTop(Entry(argno, p), env, reg.uses, keep);
    ok, code', env' := GenTerms(q, reg, code, env, Entry(argno, p), done, keep);
  }

  /** The instruction for a constant or a variable that is an argument of the head; a variable that is
      new needs none. */
  method GenTopSimple(p: Pattern, argno: nat, code: seq<Instr>, env: Env, ghost done: seq<Pattern>,
      ghost uses: map<nat, Use>, ghost keep: set<nat>)
    returns (code': seq<Instr>, env': Env)
    requires argno == |done| + 1 && argno in keep && !p.IsCompound()
    requires Sim(code, done, Pos(env, [], []), keep) && Allocated(env, [], uses, keep)
    ensures env' == if p.PVar? && p.v !in env then env[p.v := argno] else env
    ensures env'.Keys == env.Keys + Vars(p) && |code'| == |code| + (if p.PVar? && p.v !in env then 0 else 1)
    ensures Sim(code', done + [p], Pos(env', [], []), keep) && Allocated(env', [], uses, keep)
  {
    SimNextArg(code, done, env, p, keep);
    code', env' := code, env;
    match p
    case PConst(Float(bits)) =>
      var i := GetFloat(argno, FloatWord(bits));
      GetFloatAdvances(argno, bits, env, keep);
      SimStep(code, done + [p], Pos(env, [Entry(argno, p)], []), Pos(env, [], []), i, keep);
      code' := code + [i];
    case PConst(c) =>
      GetConstAdvances(argno, c, env, keep);
      SimStep(code, done + [p], Pos(env, [Entry(argno, p)], []), Pos(env, [], []), GetConst(argno, c), keep);
      code' := code + [GetConst(argno, c)];
    case PVar(v) =>
      if v in env {
        GetTValAdvances(argno, v, env, keep);
        SimStep(code, done + [p], Pos(env, [Entry(argno, p)], []), Pos(env, [], []), GetTVal(env[v], argno), keep);
        code' := code + [GetTVal(env[v], argno)];
      } else {
        SimNewVar(code, done + [p], env, v, argno, keep);
        env' := env[v := argno];
      }
  }

  /** How many instructions an argument of the head takes at most: a new variable takes none. */
  ghost function TopInstructions(p: Pattern, env: Env): nat {
    if p.IsCompound() then Instructions(p, env) else if p.PVar? && p.v !in env then 0 else 1
  }

  /** The instructions for one argument of the head. */
  method GenTopInst(p: Pattern, argno: nat, reg: RegStat, code: seq<Instr>, env: Env, ghost done: seq<Pattern>,
      ghost keep: set<nat>)
    returns (ok: bool, code': seq<Instr>, env': Env)
    requires reg.Valid() && argno == |done| + 1 && argno in keep
    requires Sim(code, done, Pos(env, [], []), keep) && Allocated(env, [], reg.uses, keep)
    modifies reg, reg.regArray
    ensures (p.IsCompound() ==> old(reg.Room()) >= Width(p) + |Vars(p) - env.Keys|) ==> ok
    ensures ok ==> reg.Valid()
    ensures ok ==> reg.Room() == old(reg.Room()) - (if p.IsCompound() then |Vars(p) - env.Keys| else 0)
    ensures ok ==> env'.Keys == env.Keys + Vars(p) && |code'| <= |code| + TopInstructions(p, env)
    ensures ok && p.PVar? ==> env' == if p.v in env then env else env[p.v := argno]
    ensures ok ==> Sim(code', done + [p], Pos(env', [], []), keep) && Allocated(env', [], reg.uses, keep)
  {
    if p.IsCompound() {
      SimNextArg(code, done, env, p, keep);
      ok, code', env' := GenTopTerm(p, argno, reg, code, env, done + [p], keep);
    } else {
      ok := true;
      code', env' := GenTopSimple(p, argno, code, env, done, reg.uses, keep);
    }
  }

  /** How many instructions the head takes at most. */
  function HeadInstructions(ps: seq<Pattern>): nat {
    if ps == [] then 0 else (if ps[0].IsCompound() then Emits(ps[0]) else 1) + HeadInstructions(ps[1..])
  }

  /** The arguments still to come: when they are done there will be `total` registers left, all the
      variables `all` will be known, and there will be at most `size` instructions, of which there are
      `len` now. */
  ghost predicate ToCome(rest: seq<Pattern>, env: Env, room: nat, len: nat, total: int, widest: nat, all: set<nat>,
      size: nat)
  {
    && room - Introduced(rest, env.Keys) == total && len + HeadInstructions(rest) <= size
    && Widest(rest) <= widest && env.Keys + VarsAll(rest) == all
  }

  /** There are registers for the next argument, if there are enough at all. */
  lemma EnoughForArg(p: Pattern, rest: seq<Pattern>, env: Env, room: nat, len: nat, total: int, widest: nat,
      all: set<nat>, size: nat)
    requires ToCome([p] + rest, env, room, len, total, widest, all, size) && widest <= total
    ensures p.IsCompound() ==> room >= Width(p) + |Vars(p) - env.Keys|
  {
    assert ([p] + rest)[0] == p;
  }

  lemma ArgDone(p: Pattern, rest: seq<Pattern>, env: Env, room: nat, len: nat, total: int, widest: nat, all: set<nat>,
      size: nat, env': Env, room': nat, len': nat)
    requires ToCome([p] + rest, env, room, len, total, widest, all, size) && env'.Keys == env.Keys + Vars(p)
    requires len' <= len + TopInstructions(p, env)
    requires room' == room - (if p.IsCompound() then |Vars(p) - env.Keys| else 0)
    ensures ToCome(rest, env', room', len', total, widest, all, size)
  {
    assert ([p] + rest)[1..] == rest;
    EmitsTwo(p, env);
    UnionAssoc(env.Keys, Vars(p), VarsAll(rest));
  }

  /** The instructions for the next argument. */
  method GenNextArg(p: Pattern, argno: nat, reg: RegStat, code: seq<Instr>, env: Env, ghost rest: seq<Pattern>,
      ghost done: seq<Pattern>, ghost total: int, ghost widest: nat, ghost all: set<nat>, ghost size: nat,
      ghost keep: set<nat>)
    returns (ok: bool, code': seq<Instr>, env': Env)
    requires reg.Valid() && argno == |done| + 1 && argno in keep
    requires ToCome([p] + rest, env, reg.Room(), |code|, total, widest, all, size)
    requires Sim(code, done, Pos(env, [], []), keep) && Allocated(env, [], reg.uses, keep)
    modifies reg, reg.regArray
    ensures widest <= total ==> ok
    ensures ok ==> reg.Valid() && ToCome(rest, env', reg.Room(), |code'|, total, widest, all, size)
    ensures ok && p.PVar? ==> env' == if p.v in env then env else env[p.v := argno]
    ensures ok ==> Sim(code', done + [p], Pos(env', [], []), keep) && Allocated(env', [], reg.uses, keep)
  {
    if widest <= total {
      EnoughForArg(p, rest, env, reg.Room(), |code|, total, widest, all, size);
    }
    ghost var room := reg.Room();
    ok, code', env' := GenTopInst(p, argno, reg, code, env, done, keep);
    if ok {
      ArgDone(p, rest, env, room, |code|, total, widest, all, size, env', reg.Room(), |code'|);
    }
  }

  /** What is still to come, at the start and in the end. */
  lemma NoneKnown(args: seq<Pattern>, room: nat)
    ensures args[0..] == args
    ensures ToCome(args, map[], room, 0, room - Introduced(args, {}), Widest(args), VarsAll(args),
      HeadInstructions(args))
  {
    var none: Env := map[];
    assert none.Keys == {};
  }

  lemma AllKnown(args: seq<Pattern>, env: Env, room: nat, len: nat, total: int, size: nat)
    requires ToCome(args[|args|..], env, room, len, total, Widest(args), VarsAll(args), size)
    ensures args[..|args|] == args && room == total && env.Keys == VarsAll(args) && len <= size
  {
    assert args[|args|..] == [];
  }

  /** The instructions for the arguments of the head, in order. */
  method GenArgs(args: seq<Pattern>, reg: RegStat, ghost keep: set<nat>)
    returns (ok: bool, code: seq<Instr>, env: Env)
    requires reg.Valid() && keep == ArgumentRegs(|args|) && Allocated(map[], [], reg.uses, keep)
    modifies reg, reg.regArray
    ensures Introduced(args, {}) + Widest(args) <= old(reg.Room()) ==> ok
    ensures ok ==> reg.Valid() && reg.Room() == old(reg.Room()) - Introduced(args, {}) && env.Keys == VarsAll(args)
    ensures ok && AllVars(args) ==> env == VarEnv(args)
    ensures ok ==> |code| <= HeadInstructions(args)
    ensures ok ==> Sim(code, args, Pos(env, [], []), keep) && Allocated(env, [], reg.uses, keep)
  {
    ok, code, env := true, [], map[];
    SimStart(keep);
    var argno := 1;
    NoneKnown(args, reg.Room());
    ghost var total, size := reg.Room() - Introduced(args, {}), HeadInstructions(args);
    while argno <= |args|
      invariant 1 <= argno <= |args| + 1 && reg.Valid()
      invariant ToCome(args[argno - 1..], env, reg.Room(), |code|, total, Widest(args), VarsAll(args), size)
      invariant AllVars(args) ==> env == VarEnv(args[..argno - 1])
      invariant Sim(code, args[..argno - 1], Pos(env, [], []), keep) && Allocated(env, [], reg.uses, keep)
    {
      SplitAt(args, argno - 1);
      ok, code, env := GenNextArg(args[argno - 1], argno, reg, code, env, args[argno..], args[..argno - 1], total,
        Widest(args), VarsAll(args), size, keep);
      if !ok {
        return;
      }
      argno := argno + 1;
    }
    ok := true;
    AllKnown(args, env, reg.Room(), |code|, total, size);
  }

  /** The code of a clause head; only the argument registers are in use. There are enough registers if
      there is one for each variable introduced, and for the compound subterms that wait at one time;
      in the end only those variables have them. */
  method CompileHead(args: seq<Pattern>, reg: RegStat) returns (ok: bool, code: seq<Instr>, env: Env)
    requires reg.Valid() && |args| <= reg.size
    modifies reg, reg.regArray
    ensures Introduced(args, {}) + Widest(args) <= old(reg.Room()) ==> ok
    ensures ok ==> reg.Valid() && reg.Room() == old(reg.Room()) - Introduced(args, {}) && env.Keys == VarsAll(args)
    ensures ok && AllVars(args) ==> env == VarEnv(args)
    ensures ok ==> |code| <= HeadInstructions(args)
    ensures ok ==> Correct(code, args, env)
    ensures ok ==> (Decides(code, args) <==> !AnyFloat(args)) && (Refuses(code, args) <==> AnyFloat(args))
    ensures ok ==> Allocated(env, [], reg.uses, {})
  {
    ghost var keep := ArgumentRegs(|args|);
    forall r | r in keep ensures r in reg.uses && reg.uses[r] == Argument {
      assert IsArgument(r, reg.uses);
    }
    ok, code, env := GenArgs(args, reg, keep);
    if ok {
      SimCorrect(code, args, env);
      DecidesIff(code, args, env);
    }
  }

  /** The fact h([a1, ..., an]) always compiles, however long the list; if all are small integers the
      code has n + 2 instructions at most. */
  method CompileListFact(cs: seq<Constant>) returns (ok: bool, code: seq<Instr>)
    ensures ok && (Decides(code, [ListOf(cs)]) <==> forall c :: c in cs ==> !c.Float?)
    ensures (forall i {:trigger cs[i]} :: 0 <= i < |cs| ==> cs[i].Integer? && 0 <= cs[i].n <= 0xffff) ==>
      |code| <= |cs| + 2
  {
    var reg := new RegStat(1);
    ListNeedsOne(cs);
    ListFloats(cs);
    if forall i {:trigger cs[i]} :: 0 <= i < |cs| ==> cs[i].Integer? && 0 <= cs[i].n <= 0xffff {
      OneForEach(cs);
    }
    var p := ListOf(cs);
    assert [p][1..] == [];
    assert Introduced([p], {}) == 0 && Widest([p]) == Width(p) && AnyFloat([p]) == HasFloat(p);
    var env;
    ok, code, env := CompileHead([p], reg);
  }

  lemma {:induction false} ListFloats(cs: seq<Constant>)
    ensures HasFloat(ListOf(cs)) <==> exists c :: c in cs && c.Float?
  {
    if cs != [] {
      ListFloats(cs[1..]);
      assert HasFloat(ListOf(cs)) <==> cs[0].Float? || HasFloat(ListOf(cs[1..]));
      assert forall c :: c in cs <==> c == cs[0] || c in cs[1..];
    }
  }
}
