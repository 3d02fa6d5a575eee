/** What the clause compiler's emitted code has done so far, and how each instruction advances it. */
module HeadSim {
  import opened Terms

  /** The register of a variable that has been met. */
  type Env = map<nat, nat>

  /** A register and the compound pattern its contents have still to be matched with. */
  datatype Entry = Entry(r: nat, p: Pattern)

  /** The compiler's position: the variables met, the entries pending, and the patterns of the
      current structure that are still to come. */
  datatype Pos = Pos(env: Env, pend: seq<Entry>, rest: seq<Pattern>)

  /** The run can go on: every register the position relies on is set, and the structure pointer
      is as far from the end as the compiler is. */
  ghost predicate Ready(st: State, at: Pos) {
    && !st.Stuck?
    && (st.Run? ==>
          && (forall v {:trigger at.env[v]} :: v in at.env ==> at.env[v] in st.regs)
          && (forall i {:trigger at.pend[i]} :: 0 <= i < |at.pend| ==> at.pend[i].r in st.regs)
          && |st.s| == |at.rest|)
  }

  /** What is still to be checked holds for s: the run has not failed, the variables' registers
      hold their values, and what is pending or still to come matches and has no float in it. */
  ghost predicate Holds(st: State, at: Pos, s: Subst) {
    && st.Run?
    && (forall v {:trigger at.env[v]} :: v in at.env ==> at.env[v] in st.regs && st.regs[at.env[v]] == s(v))
    && (forall i {:trigger at.pend[i]} :: 0 <= i < |at.pend| ==>
          at.pend[i].r in st.regs && st.regs[at.pend[i].r] == Apply(at.pend[i].p, s) && !HasFloat(at.pend[i].p))
    && st.s == ApplyAll(at.rest, s) && !AnyFloat(at.rest)
  }

  /** The registers `keep` are as they were. */
  ghost predicate Keeps(st: State, before: State, keep: set<nat>) {
    st.Run? && before.Run? ==> forall r {:trigger st.regs[r]} {:trigger r in st.regs} ::
      r in keep && r in before.regs ==> r in st.regs && st.regs[r] == before.regs[r]
  }

  /** From any run that is at `a`, the instruction leads to a run that is at `b`, with the same
      condition still to be checked. */
  ghost predicate Advances(i: Instr, a: Pos, b: Pos, keep: set<nat>) {
    forall st: State {:trigger Step(st, i)} :: Ready(st, a) ==>
      && Ready(Step(st, i), b) && Keeps(Step(st, i), st, keep)
      && (Step(st, i).Run? ==> st.Run?)
      && forall s: Subst {:trigger Holds(st, a, s)} {:trigger Holds(Step(st, i), b, s)} ::
        Holds(st, a, s) <==> Holds(Step(st, i), b, s)
  }

  lemma ApplyCons(p: Pattern, ps: seq<Pattern>, s: Subst)
    ensures ApplyAll([p] + ps, s) == [Apply(p, s)] + ApplyAll(ps, s)
    ensures AnyFloat([p] + ps) <==> HasFloat(p) || AnyFloat(ps)
  {
    assert ([p] + ps)[1..] == ps;
  }

  lemma UniConstAdvances(c: Constant, env: Env, pend: seq<Entry>, rest: seq<Pattern>, keep: set<nat>)
    requires !c.Float?
    ensures Advances(UniConst(c), Pos(env, pend, [PConst(c)] + rest), Pos(env, pend, rest), keep)
  {
    forall st: State, s: Subst | Ready(st, Pos(env, pend, [PConst(c)] + rest))
      ensures Holds(st, Pos(env, pend, [PConst(c)] + rest), s) <==>
        Holds(Step(st, UniConst(c)), Pos(env, pend, rest), s)
    {
      ApplyCons(PConst(c), rest, s);
      if st.Run? {
        assert st.s == [st.s[0]] + st.s[1..];
      }
    }
  }

  /** No float has the operand's bits: the operand has a tag. */
  lemma TagDiffers(t: Term, bits: int)
    ensures !EqualsFloat(t, FloatWord(bits))
  {
  }

  lemma UniFloatAdvances(bits: int, env: Env, pend: seq<Entry>, rest: seq<Pattern>, keep: set<nat>)
    ensures Advances(UniFloat(FloatWord(bits)), Pos(env, pend, [PConst(Float(bits))] + rest),
                     Pos(env, pend, rest), keep)
  {
    forall st: State, s: Subst | Ready(st, Pos(env, pend, [PConst(Float(bits))] + rest))
      ensures !Holds(st, Pos(env, pend, [PConst(Float(bits))] + rest), s)
      ensures !Step(st, UniFloat(FloatWord(bits))).Run?
    {
      ApplyCons(PConst(Float(bits)), rest, s);
      if st.Run? {
        TagDiffers(st.s[0], bits);
      }
    }
  }

  lemma UniTValAdvances(v: nat, env: Env, pend: seq<Entry>, rest: seq<Pattern>, keep: set<nat>)
    requires v in env
    ensures Advances(UniTVal(env[v]), Pos(env, pend, [PVar(v)] + rest), Pos(env, pend, rest), keep)
  {
    forall st: State, s: Subst | Ready(st, Pos(env, pend, [PVar(v)] + rest))
      ensures Holds(st, Pos(env, pend, [PVar(v)] + rest), s) <==>
        Holds(Step(st, UniTVal(env[v])), Pos(env, pend, rest), s)
    {
      ApplyCons(PVar(v), rest, s);
      if st.Run? {
        assert st.s == [st.s[0]] + st.s[1..];
      }
    }
  }

  /** r is free: no variable, pending entry or kept register uses it. */
  ghost predicate Unused(r: nat, env: Env, pend: seq<Entry>, keep: set<nat>) {
    && r !in keep
    && (forall v {:trigger env[v]} :: v in env ==> env[v] != r)
    && (forall i {:trigger pend[i]} :: 0 <= i < |pend| ==> pend[i].r != r)
  }

  lemma UniTVarAdvances(v: nat, r: nat, env: Env, pend: seq<Entry>, rest: seq<Pattern>, keep: set<nat>)
    requires v !in env && Unused(r, env, pend, keep)
    ensures Advances(UniTVar(r), Pos(env, pend, [PVar(v)] + rest), Pos(env[v := r], pend, rest), keep)
  {
    var env' := env[v := r];
    assert env'[v] == r && forall w :: w in env ==> env'[w] == env[w];
    forall st: State, s: Subst | Ready(st, Pos(env, pend, [PVar(v)] + rest))
      ensures Holds(st, Pos(env, pend, [PVar(v)] + rest), s) <==> Holds(Step(st, UniTVar(r)), Pos(env', pend, rest), s)
    {
      UniTVarHolds(st, v, r, env, pend, rest, keep, s);
    }
  }

  lemma UniTVarHolds(st: State, v: nat, r: nat, env: Env, pend: seq<Entry>, rest: seq<Pattern>, keep: set<nat>,
      s: Subst)
    requires v !in env && Unused(r, env, pend, keep) && Ready(st, Pos(env, pend, [PVar(v)] + rest))
    ensures Holds(st, Pos(env, pend, [PVar(v)] + rest), s) <==>
      Holds(Step(st, UniTVar(r)), Pos(env[v := r], pend, rest), s)
  {
    ApplyCons(PVar(v), rest, s);
    if st.Run? {
      assert st.s == [st.s[0]] + st.s[1..];
      assert env[v := r][v] == r && forall w :: w in env ==> env[v := r][w] == env[w];
    }
  }

  /** A compound subterm goes into a free register, to be matched later. */
  lemma UniLaterAdvances(p: Pattern, r: nat, env: Env, pend: seq<Entry>, rest: seq<Pattern>, keep: set<nat>)
    requires Unused(r, env, pend, keep)
    ensures Advances(UniTVar(r), Pos(env, pend, [p] + rest), Pos(env, [Entry(r, p)] + pend, rest), keep)
  {
    var pend' := [Entry(r, p)] + pend;
    assert pend'[0] == Entry(r, p) && forall i :: 0 <= i < |pend| ==> pend'[i + 1] == pend[i];
    forall st: State, s: Subst | Ready(st, Pos(env, pend, [p] + rest))
      ensures Holds(st, Pos(env, pend, [p] + rest), s) <==> Holds(Step(st, UniTVar(r)), Pos(env, pend', rest), s)
    {
      ApplyCons(p, rest, s);
      if st.Run? {
        assert st.s == [st.s[0]] + st.s[1..];
      }
    }
  }

  /** A last subterm that is a list with a small integer first: one instruction takes its register,
      enters the list and checks the integer; the tail takes the subterm's place. */
  lemma UniListAdvances(n: int, tail: Pattern, r: nat, hi: nat, lo: nat, env: Env, pend: seq<Entry>, keep: set<nat>)
    requires Unused(r, env, pend, keep) && n == hi * 256 + lo
    ensures Advances(UniTVarGetListUniNumCon(r, hi, lo), Pos(env, pend, [PList(PConst(Integer(n)), tail)]),
                     Pos(env, pend, [tail]), keep)
  {
    var p := PList(PConst(Integer(n)), tail);
    var i := UniTVarGetListUniNumCon(r, hi, lo);
    forall st: State, s: Subst | Ready(st, Pos(env, pend, [p]))
      ensures Holds(st, Pos(env, pend, [p]), s) <==> Holds(Step(st, i), Pos(env, pend, [tail]), s)
    {
      ApplyCons(p, [], s);
      ApplyCons(tail, [], s);
      assert [p] + [] == [p] && [tail] + [] == [tail];
      assert Apply(p, s) == List(Const(Integer(n)), Apply(tail, s));
      assert ApplyAll([p], s) == [Apply(p, s)] && ApplyAll([tail], s) == [Apply(tail, s)];
      if st.Run? {
        assert st.s == [st.s[0]];
      }
    }
  }

  lemma Split(pend: seq<Entry>, e: Entry)
    ensures (pend + [e])[|pend|] == e
    ensures forall i :: 0 <= i < |pend| ==> (pend + [e])[i] == pend[i]
  {
  }

  lemma GetListAdvances(r: nat, h: Pattern, t: Pattern, env: Env, pend: seq<Entry>, keep: set<nat>)
    ensures Advances(GetList(r), Pos(env, pend + [Entry(r, PList(h, t))], []), Pos(env, pend, [h, t]), keep)
  {
    Split(pend, Entry(r, PList(h, t)));
    forall st: State, s: Subst | Ready(st, Pos(env, pend + [Entry(r, PList(h, t))], []))
      ensures Holds(st, Pos(env, pend + [Entry(r, PList(h, t))], []), s) <==>
        Holds(Step(st, GetList(r)), Pos(env, pend, [h, t]), s)
    {
      ApplyCons(h, [t], s);
      ApplyCons(t, [], s);
      assert [h, t] == [h] + [t] && [t] == [t] + [];
      assert ApplyAll([h, t], s) == [Apply(h, s), Apply(t, s)];
      assert Apply(PList(h, t), s) == List(Apply(h, s), Apply(t, s));
      assert (pend + [Entry(r, PList(h, t))])[|pend|].p == PList(h, t);
    }
  }

  lemma GetStrAdvances(r: nat, name: string, args: seq<Pattern>, env: Env, pend: seq<Entry>, keep: set<nat>)
    ensures Advances(GetStr(r, name, |args|), Pos(env, pend + [Entry(r, PStruct(name, args))], []),
                     Pos(env, pend, args), keep)
  {
    Split(pend, Entry(r, PStruct(name, args)));
  }

  /** A list of two new, different variables: one instruction sets both their registers. */
  lemma GetListTVarTVarAdvances(r: nat, a: nat, b: nat, ra: nat, rb: nat, env: Env, pend: seq<Entry>, keep: set<nat>)
    requires a != b && a !in env && b !in env && ra != rb && r != ra && r != rb
    requires Unused(ra, env, pend, keep) && Unused(rb, env, pend, keep)
    ensures Advances(GetListTVarTVar(r, ra, rb), Pos(env, pend + [Entry(r, PList(PVar(a), PVar(b)))], []),
                     Pos(env[a := ra][b := rb], pend, []), keep)
  {
    var p := PList(PVar(a), PVar(b));
    var env' := env[a := ra][b := rb];
    Split(pend, Entry(r, p));
    assert env'[a] == ra && env'[b] == rb && forall w :: w in env ==> env'[w] == env[w];
    forall st: State, s: Subst | Ready(st, Pos(env, pend + [Entry(r, p)], []))
      ensures Holds(st, Pos(env, pend + [Entry(r, p)], []), s) <==>
        Holds(Step(st, GetListTVarTVar(r, ra, rb)), Pos(env', pend, []), s)
    {
      assert Apply(p, s) == List(s(a), s(b)) && !HasFloat(p);
      assert (pend + [Entry(r, p)])[|pend|].p == p;
      if st.Run? && st.regs[r].List? {
        var st' := Step(st, GetListTVarTVar(r, ra, rb));
        assert st'.regs[ra] == st.regs[r].head && st'.regs[rb] == st.regs[r].tail;
      }
    }
  }

  lemma GetConstAdvances(r: nat, c: Constant, env: Env, keep: set<nat>)
    requires !c.Float?
    ensures Advances(GetConst(r, c), Pos(env, [Entry(r, PConst(c))], []), Pos(env, [], []), keep)
  {
    var e := Entry(r, PConst(c));
    assert [e][0] == e;
  }

  lemma GetFloatAdvances(r: nat, bits: int, env: Env, keep: set<nat>)
    ensures Advances(GetFloat(r, FloatWord(bits)), Pos(env, [Entry(r, PConst(Float(bits)))], []),
                     Pos(env, [], []), keep)
  {
    var e := Entry(r, PConst(Float(bits)));
    assert [e][0] == e;
    forall st: State | Ready(st, Pos(env, [e], [])) ensures !Step(st, GetFloat(r, FloatWord(bits))).Run? {
      if st.Run? {
        TagDiffers(st.regs[r], bits);
      }
    }
  }

  lemma GetTValAdvances(r: nat, v: nat, env: Env, keep: set<nat>)
    requires v in env
    ensures Advances(GetTVal(env[v], r), Pos(env, [Entry(r, PVar(v))], []), Pos(env, [], []), keep)
  {
    var e := Entry(r, PVar(v));
    assert [e][0] == e;
  }

  /** The code emitted for the first arguments `done` has brought every run to `at`: a run has
      come that far without failing, and what is still to be checked holds, exactly for the
      substitutions that match those arguments, and only if there is no float in them. */
  ghost predicate Sim(code: seq<Instr>, done: seq<Pattern>, at: Pos, keep: set<nat>) {
    forall regs: Regs {:trigger Exec(code, Run(regs, []))} :: keep <= regs.Keys ==> SimFor(code, done, at, keep, regs)
  }

  ghost predicate SimFor(code: seq<Instr>, done: seq<Pattern>, at: Pos, keep: set<nat>, regs: Regs) {
    var st := Exec(code, Run(regs, []));
    && Ready(st, at) && Keeps(st, Run(regs, []), keep)
    && forall s: Subst {:trigger MatchesArgs(done, regs, s)} {:trigger Holds(st, at, s)} ::
        !AnyFloat(done) && MatchesArgs(done, regs, s) <==> Holds(st, at, s)
  }

  lemma SimStart(keep: set<nat>)
    ensures Sim([], [], Pos(map[], [], []), keep)
  {
    forall regs: Regs | keep <= regs.Keys ensures SimFor([], [], Pos(map[], [], []), keep, regs) {
      assert Exec([], Run(regs, [])) == Run(regs, []);
    }
  }

  /** One more instruction. */
  lemma SimStep(code: seq<Instr>, done: seq<Pattern>, a: Pos, b: Pos, i: Instr, keep: set<nat>)
    requires Sim(code, done, a, keep) && Advances(i, a, b, keep)
    ensures Sim(code + [i], done, b, keep)
  {
    forall regs: Regs | keep <= regs.Keys ensures SimFor(code + [i], done, b, keep, regs) {
      ExecSnoc(code, i, Run(regs, []));
      var st := Exec(code, Run(regs, []));
      assert SimFor(code, done, a, keep, regs);
      assert Ready(st, a);
      assert Step(st, i) == Exec(code + [i], Run(regs, []));
      forall s: Subst ensures !AnyFloat(done) && MatchesArgs(done, regs, s) <==> Holds(Step(st, i), b, s) {
        assert Holds(st, a, s) <==> Holds(Step(st, i), b, s);
      }
    }
  }

  /** The next argument's register joins the pending entries. */
  lemma SimNextArg(code: seq<Instr>, done: seq<Pattern>, env: Env, p: Pattern, keep: set<nat>)
    requires Sim(code, done, Pos(env, [], []), keep) && |done| + 1 in keep
    ensures Sim(code, done + [p], Pos(env, [Entry(|done| + 1, p)], []), keep)
  {
    var e := Entry(|done| + 1, p);
    assert [e][0] == e;
    forall regs: Regs | keep <= regs.Keys ensures SimFor(code, done + [p], Pos(env, [e], []), keep, regs) {
      assert SimFor(code, done, Pos(env, [], []), keep, regs);
      var st := Exec(code, Run(regs, []));
      forall s: Subst
        ensures !AnyFloat(done + [p]) && MatchesArgs(done + [p], regs, s) <==> Holds(st, Pos(env, [e], []), s)
      {
        assert !AnyFloat(done) && MatchesArgs(done, regs, s) <==> Holds(st, Pos(env, [], []), s);
        MatchesNext(done, p, regs, s);
        FloatNext(done, p);
        if st.Run? {
          assert |done| + 1 in regs && st.regs[|done| + 1] == regs[|done| + 1];
        }
      }
    }
  }

  lemma {:induction false} FloatNext(done: seq<Pattern>, p: Pattern)
    ensures AnyFloat(done + [p]) <==> AnyFloat(done) || HasFloat(p)
  {
    if done == [] {
      assert [p][1..] == [] && done + [p] == [p];
    } else {
      assert (done + [p])[1..] == done[1..] + [p];
      FloatNext(done[1..], p);
    }
  }

  lemma MatchesNext(done: seq<Pattern>, p: Pattern, regs: Regs, s: Subst)
    requires |done| + 1 in regs
    ensures MatchesArgs(done + [p], regs, s) <==> MatchesArgs(done, regs, s) && regs[|done| + 1] == Apply(p, s)
  {
    var all := done + [p];
    assert all[|done|] == p && forall j :: 0 <= j < |done| ==> all[j] == done[j];
    if MatchesArgs(all, regs, s) {
      assert MatchAt(all[|done|], |done| + 1, regs, s);
      forall j | 0 <= j < |done| ensures MatchAt(done[j], j + 1, regs, s) {
        assert MatchAt(all[j], j + 1, regs, s);
      }
    }
    if MatchesArgs(done, regs, s) && regs[|done| + 1] == Apply(p, s) {
      forall j | 0 <= j < |all| ensures MatchAt(all[j], j + 1, regs, s) {
        if j < |done| {
          assert MatchAt(done[j], j + 1, regs, s);
        }
      }
    }
  }

  /** Two positions with the same condition still to be checked. */
  lemma SimForSame(code: seq<Instr>, done: seq<Pattern>, a: Pos, b: Pos, keep: set<nat>, regs: Regs)
    requires SimFor(code, done, a, keep, regs)
    requires Ready(Exec(code, Run(regs, [])), b)
    requires forall s: Subst {:trigger Holds(Exec(code, Run(regs, [])), a, s)} ::
      Holds(Exec(code, Run(regs, [])), a, s) <==> Holds(Exec(code, Run(regs, [])), b, s)
    ensures SimFor(code, done, b, keep, regs)
  {
    var st := Exec(code, Run(regs, []));
    forall s: Subst ensures !AnyFloat(done) && MatchesArgs(done, regs, s) <==> Holds(st, b, s) {
      assert Holds(st, a, s) <==> Holds(st, b, s);
    }
  }

  /** An argument that is a new variable stays in its register; no instruction is needed. */
  lemma SimNewVar(code: seq<Instr>, done: seq<Pattern>, env: Env, v: nat, r: nat, keep: set<nat>)
    requires Sim(code, done, Pos(env, [Entry(r, PVar(v))], []), keep) && v !in env
    ensures Sim(code, done, Pos(env[v := r], [], []), keep)
  {
    var e := Entry(r, PVar(v));
    assert [e][0] == e && env[v := r][v] == r && forall w :: w in env ==> env[v := r][w] == env[w];
    forall regs: Regs | keep <= regs.Keys ensures SimFor(code, done, Pos(env[v := r], [], []), keep, regs) {
      assert SimFor(code, done, Pos(env, [e], []), keep, regs);
      var st := Exec(code, Run(regs, []));
      forall s: Subst ensures Holds(st, Pos(env, [e], []), s) <==> Holds(st, Pos(env[v := r], [], []), s) {
        assert Apply(e.p, s) == s(v) && !HasFloat(e.p);
      }
      SimForSame(code, done, Pos(env, [e], []), Pos(env[v := r], [], []), keep, regs);
    }
  }

  /** The order of the pending entries does not matter. */
  lemma SimReorder(code: seq<Instr>, done: seq<Pattern>, env: Env, a: seq<Entry>, b: seq<Entry>, rest: seq<Pattern>,
      keep: set<nat>)
    requires Sim(code, done, Pos(env, a + b, rest), keep)
    ensures Sim(code, done, Pos(env, b + a, rest), keep)
  {
    assert forall i :: 0 <= i < |a| ==> (b + a)[|b| + i] == a[i] == (a + b)[i];
    assert forall i :: 0 <= i < |b| ==> (b + a)[i] == b[i] == (a + b)[|a| + i];
    forall regs: Regs | keep <= regs.Keys ensures SimFor(code, done, Pos(env, b + a, rest), keep, regs) {
      assert SimFor(code, done, Pos(env, a + b, rest), keep, regs);
      var st := Exec(code, Run(regs, []));
      forall s: Subst ensures Holds(st, Pos(env, a + b, rest), s) <==> Holds(st, Pos(env, b + a, rest), s) {
      }
      SimForSame(code, done, Pos(env, a + b, rest), Pos(env, b + a, rest), keep, regs);
    }
  }
}
