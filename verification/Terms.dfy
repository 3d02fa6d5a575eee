/** Clause heads and argument terms, and the get/unify instructions on ground arguments. */
module Terms {

  /** A float is known by the bits of its tagged word above the tag. */
  datatype Constant = Integer(n: int) | Symbol(name: string) | Float(bits: int) | EmptyList

  const XSB_FLOAT := 6

  /** The tagged word of a float. */
  function FloatWord(bits: int): int {
    8 * bits + XSB_FLOAT
  }

  /** What the engine takes for the float of a tagged word: the word without its tag. */
  function FloatVal(word: int): int {
    word - word % 8
  }

  /** A ground term. */
  datatype Term = Const(c: Constant) | List(head: Term, tail: Term) | Struct(name: string, args: seq<Term>)

  /** A term of a clause head. */
  datatype Pattern =
    | PVar(v: nat)
    | PConst(c: Constant)
    | PList(head: Pattern, tail: Pattern)
    | PStruct(name: string, args: seq<Pattern>)
  {
    predicate IsCompound() {
      PList? || PStruct?
    }
  }

  type Subst = nat -> Term

  /** The instance of a pattern. */
  function Apply(p: Pattern, s: Subst): Term
    decreases p, 0
  {
    match p
    case PVar(v) => s(v)
    case PConst(c) => Const(c)
    case PList(h, t) => List(Apply(h, s), Apply(t, s))
    case PStruct(name, args) => Struct(name, ApplyAll(args, s))
  }

  function ApplyAll(ps: seq<Pattern>, s: Subst): (ts: seq<Term>)
    ensures |ts| == |ps|
    decreases ps, 1
  {
    if ps == [] then [] else [Apply(ps[0], s)] + ApplyAll(ps[1..], s)
  }

  datatype Instr =
    | GetConst(r: nat, c: Constant)
    | GetTVal(r: nat, r2: nat)
    | GetList(r: nat)
    | GetStr(r: nat, name: string, arity: nat)
    | GetListTVarTVar(r: nat, r1: nat, r2: nat)
    | GetFloat(r: nat, word: int)
    | UniConst(c: Constant)
    | UniFloat(word: int)
    | UniTVar(r: nat)
    | UniTVal(r: nat)
    | UniTVarGetListUniNumCon(r: nat, hi: nat, lo: nat)

  type Regs = map<nat, Term>

  /** A run on ground arguments: the registers, and the subterms the structure pointer has still
      to pass. `Stuck` is a read of a register never set, or past the last subterm. */
  datatype State = Fail | Stuck | Run(regs: Regs, s: seq<Term>)

  function Check(b: bool, st: State): State {
    if b then st else Fail
  }

  /** Comparing with the operand of an instruction, which is taken for a float as it is. */
  predicate EqualsFloat(t: Term, operand: int) {
    t.Const? && t.c.Float? && FloatVal(FloatWord(t.c.bits)) == operand
  }

  function Step(st: State, i: Instr): State {
    if !st.Run? then st else
    match i
    case GetConst(r, c) => if r !in st.regs then Stuck else Check(st.regs[r] == Const(c), st)
    case GetFloat(r, word) => if r !in st.regs then Stuck else Check(EqualsFloat(st.regs[r], word), st)
    case GetTVal(r, r2) => if r !in st.regs || r2 !in st.regs then Stuck else Check(st.regs[r] == st.regs[r2], st)
    case GetList(r) =>
      if r !in st.regs then Stuck
      else if st.regs[r].List? then Run(st.regs, [st.regs[r].head, st.regs[r].tail]) else Fail
    case GetStr(r, name, arity) =>
      if r !in st.regs then Stuck
      else if st.regs[r].Struct? && st.regs[r].name == name && |st.regs[r].args| == arity then
        Run(st.regs, st.regs[r].args)
      else Fail
    case GetListTVarTVar(r, r1, r2) =>
      if r !in st.regs then Stuck
      else if st.regs[r].List? then Run(st.regs[r1 := st.regs[r].head][r2 := st.regs[r].tail], []) else Fail
    case UniConst(c) => if st.s == [] then Stuck else Check(st.s[0] == Const(c), Run(st.regs, st.s[1..]))
    case UniFloat(word) => if st.s == [] then Stuck else Check(EqualsFloat(st.s[0], word), Run(st.regs, st.s[1..]))
    case UniTVar(r) => if st.s == [] then Stuck else Run(st.regs[r := st.s[0]], st.s[1..])
    case UniTVal(r) =>
      if st.s == [] || r !in st.regs then Stuck else Check(st.s[0] == st.regs[r], Run(st.regs, st.s[1..]))
    case UniTVarGetListUniNumCon(r, hi, lo) =>
      if st.s == [] then Stuck
      else
        var t := st.s[0];
        if t.List? && t.head == Const(Integer(hi * 256 + lo)) then Run(st.regs[r := t], [t.tail]) else Fail
  }

  function Exec(code: seq<Instr>, st: State): State {
    if code == [] then st else Step(Exec(code[..|code| - 1], st), code[|code| - 1])
  }

  lemma ExecSnoc(code: seq<Instr>, i: Instr, st: State)
    ensures Exec(code + [i], st) == Step(Exec(code, st), i)
  {
    assert (code + [i])[..|code|] == code;
  }

  /** The pattern arguments match the contents of the argument registers 1, 2, ... */
  ghost predicate MatchesArgs(ps: seq<Pattern>, regs: Regs, s: Subst) {
    forall j {:trigger ps[j]} :: 0 <= j < |ps| ==> MatchAt(ps[j], j + 1, regs, s)
  }

  predicate MatchAt(p: Pattern, r: nat, regs: Regs, s: Subst) {
    r in regs && regs[r] == Apply(p, s)
  }

  predicate HasFloat(p: Pattern)
    decreases p, 0
  {
    match p
    case PVar(_) => false
    case PConst(c) => c.Float?
    case PList(h, t) => HasFloat(h) || HasFloat(t)
    case PStruct(_, args) => AnyFloat(args)
  }

  predicate AnyFloat(ps: seq<Pattern>)
    decreases ps, 1
  {
    ps != [] && (HasFloat(ps[0]) || AnyFloat(ps[1..]))
  }

  /** The variables of a pattern. */
  function Vars(p: Pattern): set<nat>
    decreases p, 0
  {
    match p
    case PVar(v) => {v}
    case PConst(_) => {}
    case PList(h, t) => Vars(h) + Vars(t)
    case PStruct(_, args) => VarsAll(args)
  }

  function VarsAll(ps: seq<Pattern>): set<nat>
    decreases ps, 1
  {
    if ps == [] then {} else Vars(ps[0]) + VarsAll(ps[1..])
  }

  predicate Occurs(v: nat, p: Pattern) {
    v in Vars(p)
  }

  predicate OccursIn(v: nat, ps: seq<Pattern>) {
    v in VarsAll(ps)
  }
}
