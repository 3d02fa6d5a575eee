/** Building the arguments of a clause's body on the heap: the instructions, what a finished heap
    denotes, and what each instruction does for the compiler's position. */
module BodySim {
  import opened Terms
  import H = HeadSim

  type Entry = H.Entry
  type Pos = H.Pos
  type Env = H.Env

  /** A heap word or the contents of a register. A free variable refers to itself; `Ground` stands
      for a subterm of the call, built earlier. */
  datatype Cell =
    | Ground(t: Term)
    | Atomic(c: Constant)
    | ListAt(a: nat)
    | StructAt(a: nat)
    | Functor(name: string, arity: nat)
    | Ref(a: nat)

  /** The first free heap word is the one at |heap|. `Wrong`: a get instruction met a register
      that does not refer to a free variable. */
  datatype Machine = Wrong | Machine(regs: nat -> Cell, heap: seq<Cell>)

  datatype Build =
    | PutTVar(r: nat)
    | PutList(r: nat)
    | PutStr(r: nat, name: string, arity: nat)
    | GetList(r: nat)
    | GetStr(r: nat, name: string, arity: nat)
    | BldConst(c: Constant)
    | BldTVar(r: nat)
    | BldTVal(r: nat)
    | BldTVarListNumCon(r: nat, hi: nat, lo: nat)

  function Deref(heap: seq<Cell>, c: Cell): Cell {
    if c.Ref? && c.a < |heap| then heap[c.a] else c
  }

  predicate Free(heap: seq<Cell>, c: Cell) {
    c.Ref? && c.a < |heap| && heap[c.a] == c
  }

  function SetReg(m: Machine, r: nat, c: Cell): Machine
    requires m.Machine?
  {
    m.(regs := (x: nat) => if x == r then c else m.regs(x))
  }

  function Append(m: Machine, cells: seq<Cell>): Machine
    requires m.Machine?
  {
    m.(heap := m.heap + cells)
  }

  /** Binds the free variable the register refers to. */
  function BindReg(m: Machine, r: nat, c: Cell): Machine
    requires m.Machine?
  {
    if Free(m.heap, m.regs(r)) then m.(heap := m.heap[m.regs(r).a := c]) else Wrong
  }

  function Do(m: Machine, i: Build): Machine {
    if m.Wrong? then m else
    var top := |m.heap|;
    match i
    case PutTVar(r) => Append(SetReg(m, r, Ref(top)), [Ref(top)])
    case PutList(r) => SetReg(m, r, ListAt(top))
    case PutStr(r, name, n) => Append(SetReg(m, r, StructAt(top)), [Functor(name, n)])
    case GetList(r) => BindReg(m, r, ListAt(top))
    case GetStr(r, name, n) =>
      var bound := BindReg(m, r, StructAt(top));
      if bound.Wrong? then bound else Append(bound, [Functor(name, n)])
    case BldConst(c) => Append(m, [Atomic(c)])
    case BldTVar(r) => Append(SetReg(m, r, Ref(top)), [Ref(top)])
    case BldTVal(r) => Append(m, [Deref(m.heap, m.regs(r))])
    case BldTVarListNumCon(_, hi, lo) => Append(m, [ListAt(top + 1), Atomic(Integer(hi * 256 + lo))])
  }

  function DoAll(code: seq<Build>, m: Machine): Machine {
    if code == [] then m else Do(DoAll(code[..|code| - 1], m), code[|code| - 1])
  }

  lemma DoSnoc(code: seq<Build>, i: Build, m: Machine)
    ensures DoAll(code + [i], m) == Do(DoAll(code, m), i)
  {
    assert (code + [i])[..|code|] == code;
  }

  /** The values of the free variables, by address. */
  type Valuation = nat -> Term

  /** The word is the term t. */
  ghost predicate Denotes(heap: seq<Cell>, c: Cell, t: Term, rho: Valuation)
    decreases t, 0
  {
    match Deref(heap, c)
    case Ground(u) => t == u
    case Atomic(k) => t == Const(k)
    case ListAt(a) =>
      t.List? && a + 1 < |heap| && Denotes(heap, heap[a], t.head, rho) && Denotes(heap, heap[a + 1], t.tail, rho)
    case StructAt(a) =>
      t.Struct? && a < |heap| && heap[a] == Functor(t.name, |t.args|) && DenotesAll(heap, a + 1, t.args, rho)
    case Functor(_, _) => false
    case Ref(b) => t == rho(b)
  }

  /** The words from a on are the terms. */
  ghost predicate DenotesAll(heap: seq<Cell>, a: nat, ts: seq<Term>, rho: Valuation)
    decreases ts, 1
  {
    ts == [] || (a < |heap| && Denotes(heap, heap[a], ts[0], rho) && DenotesAll(heap, a + 1, ts[1..], rho))
  }

  /** The word at the address the register refers to is the term t. */
  ghost predicate DenotesAt(heap: seq<Cell>, c: Cell, t: Term, rho: Valuation) {
    c.Ref? && c.a < |heap| && Denotes(heap, heap[c.a], t, rho)
  }

  lemma DenotesCons(heap: seq<Cell>, a: nat, p: Pattern, ps: seq<Pattern>, s: Subst, rho: Valuation)
    ensures DenotesAll(heap, a, ApplyAll([p] + ps, s), rho) <==>
      a < |heap| && Denotes(heap, heap[a], Apply(p, s), rho) && DenotesAll(heap, a + 1, ApplyAll(ps, s), rho)
  {
    H.ApplyCons(p, ps, s);
    var ts := [Apply(p, s)] + ApplyAll(ps, s);
    assert ts[1..] == ApplyAll(ps, s);
  }

  ghost predicate IsHole(m: Machine, pend: seq<Entry>, a: nat)
    requires m.Machine?
  {
    exists i {:trigger pend[i]} :: 0 <= i < |pend| && m.regs(pend[i].r) == Ref(a)
  }

  /** The heap may come out like this: it goes on from here, and only what pending entries refer to
      has changed. */
  ghost predicate Extends(heap: seq<Cell>, m: Machine, pend: seq<Entry>)
    requires m.Machine?
  {
    && |m.heap| <= |heap|
    && forall a {:trigger heap[a]} {:trigger m.heap[a]} ::
      0 <= a < |m.heap| && !IsHole(m, pend, a) ==> heap[a] == m.heap[a]
  }

  /** The rest of the work has led to this heap: the variables have the values s, what is pending
      has been built, and so has what was still to come in the current structure. */
  ghost predicate Finished(m: Machine, at: Pos, heap: seq<Cell>, s: Subst, rho: Valuation) {
    && m.Machine? && Extends(heap, m, at.pend)
    && (forall v {:trigger at.env[v]} :: v in at.env ==> Denotes(heap, m.regs(at.env[v]), s(v), rho))
    && (forall i {:trigger at.pend[i]} ::
        0 <= i < |at.pend| ==> DenotesAt(heap, m.regs(at.pend[i].r), Apply(at.pend[i].p, s), rho))
    && DenotesAll(heap, |m.heap|, ApplyAll(at.rest, s), rho)
  }

  /** The registers finished so far hold their terms. */
  ghost predicate Results(m: Machine, done: seq<Entry>, heap: seq<Cell>, s: Subst, rho: Valuation) {
    m.Machine? && forall i {:trigger done[i]} ::
      0 <= i < |done| ==> Denotes(heap, m.regs(done[i].r), Apply(done[i].p, s), rho)
  }

  /** The register refers to a free variable made since the start. */
  ghost predicate Open(m: Machine, r: nat, init: Machine)
    requires m.Machine? && init.Machine?
  {
    Free(m.heap, m.regs(r)) && |init.heap| <= m.regs(r).a
  }

  /** The variables of the head have ground terms in their registers. */
  ghost predicate Starts(init: Machine, head: Env) {
    init.Machine? && forall v {:trigger head[v]} :: v in head ==> init.regs(head[v]).Ground?
  }

  /** The registers of the new variables and of the pending entries. */
  ghost predicate InUse(r: nat, at: Pos, head: Env) {
    || (exists v {:trigger at.env[v]} :: v in at.env && v !in head && at.env[v] == r)
    || (exists i {:trigger at.pend[i]} :: 0 <= i < |at.pend| && at.pend[i].r == r)
  }

  /** The head's variables are untouched; new variables and pending entries have free variables of
      their own. */
  ghost predicate Ready(m: Machine, at: Pos, head: Env, init: Machine) {
    && m.Machine? && init.Machine? && init.heap <= m.heap
    && (forall v {:trigger head[v]} ::
        v in head ==> v in at.env && at.env[v] == head[v] && m.regs(head[v]) == init.regs(head[v]))
    && (forall r {:trigger InUse(r, at, head)} :: InUse(r, at, head) ==> Open(m, r, init))
    && (forall q, r {:trigger InUse(q, at, head), InUse(r, at, head)} ::
        InUse(q, at, head) && InUse(r, at, head) && q != r ==> m.regs(q) != m.regs(r))
  }

  /** r is in no use. */
  ghost predicate Unused(r: nat, at: Pos, done: seq<Entry>) {
    && (forall v {:trigger at.env[v]} :: v in at.env ==> at.env[v] != r)
    && (forall i {:trigger at.pend[i]} :: 0 <= i < |at.pend| ==> at.pend[i].r != r)
    && (forall i {:trigger done[i]} :: 0 <= i < |done| ==> done[i].r != r)
  }

  /** From a machine at `a`, the instruction leads to one at `b`; what the rest of the work then
      has to achieve is enough at `a`, and for the registers `more` to hold their terms. The
      registers finished before are left alone. */
  ghost predicate Advances(i: Build, a: Pos, b: Pos, head: Env, done: seq<Entry>, more: seq<Entry>) {
    forall m, init {:trigger Ready(m, a, head, init), Do(m, i)} :: Starts(init, head) && Ready(m, a, head, init) ==>
      && Ready(Do(m, i), b, head, init)
      && (forall j {:trigger done[j]} :: 0 <= j < |done| ==> Do(m, i).regs(done[j].r) == m.regs(done[j].r))
      && forall heap, s, rho {:trigger Finished(Do(m, i), b, heap, s, rho)} :: Finished(Do(m, i), b, heap, s, rho) ==>
           Finished(m, a, heap, s, rho) && Results(Do(m, i), more, heap, s, rho)
  }

  /** Words added at the top stay, unless a pending entry refers to them. */
  lemma TopStays(m: Machine, m': Machine, pend: seq<Entry>, pend': seq<Entry>, heap: seq<Cell>, cells: seq<Cell>)
    requires m.Machine? && m'.Machine? && m'.heap == m.heap + cells && Extends(heap, m', pend')
    requires forall a: nat {:trigger IsHole(m', pend', a)} ::
      a < |m.heap| && IsHole(m', pend', a) ==> IsHole(m, pend, a)
    ensures Extends(heap, m, pend)
    ensures forall k {:trigger cells[k]} ::
      0 <= k < |cells| && !IsHole(m', pend', |m.heap| + k) ==> heap[|m.heap| + k] == cells[k]
  {
    forall a | 0 <= a < |m.heap| && !IsHole(m, pend, a) ensures heap[a] == m.heap[a] {
      assert m'.heap[a] == m.heap[a];
    }
    forall k | 0 <= k < |cells| && !IsHole(m', pend', |m.heap| + k) ensures heap[|m.heap| + k] == cells[k] {
      assert m'.heap[|m.heap| + k] == cells[k];
    }
  }

  /** The pending entries refer to words below the top. */
  lemma HolesBelow(m: Machine, at: Pos, head: Env, init: Machine)
    requires Ready(m, at, head, init)
    ensures forall a: nat {:trigger IsHole(m, at.pend, a)} :: IsHole(m, at.pend, a) ==> a < |m.heap|
    ensures forall j {:trigger at.pend[j]} :: 0 <= j < |at.pend| ==> Open(m, at.pend[j].r, init)
    ensures forall v {:trigger at.env[v]} ::
      v in at.env ==> if v in head then m.regs(at.env[v]) == init.regs(head[v]) else Open(m, at.env[v], init)
  {
    assert forall j {:trigger at.pend[j]} :: 0 <= j < |at.pend| ==> InUse(at.pend[j].r, at, head);
    assert forall v {:trigger at.env[v]} :: v in at.env && v !in head ==> InUse(at.env[v], at, head);
  }

  /** The variables and pending entries of `a` are among those of `b`, with the same words. */
  ghost predicate Carried(m: Machine, m': Machine, a: Pos, b: Pos, newer: seq<Entry>) {
    && m.Machine? && m'.Machine? && b.pend == newer + a.pend
    && (forall v {:trigger a.env[v]} :: v in a.env ==> v in b.env && m'.regs(b.env[v]) == m.regs(a.env[v]))
    && forall j {:trigger a.pend[j]} :: 0 <= j < |a.pend| ==> m'.regs(a.pend[j].r) == m.regs(a.pend[j].r)
  }

  lemma PushFinished(m: Machine, m': Machine, a: Pos, b: Pos, newer: seq<Entry>, heap: seq<Cell>, s: Subst,
      rho: Valuation)
    requires Carried(m, m', a, b, newer) && Finished(m', b, heap, s, rho)
    requires Extends(heap, m, a.pend)
    requires DenotesAll(heap, |m.heap|, ApplyAll(a.rest, s), rho)
    ensures Finished(m, a, heap, s, rho)
  {
    forall v | v in a.env ensures Denotes(heap, m.regs(a.env[v]), s(v), rho) {
      assert Denotes(heap, m'.regs(b.env[v]), s(v), rho);
    }
    forall j | 0 <= j < |a.pend| ensures DenotesAt(heap, m.regs(a.pend[j].r), Apply(a.pend[j].p, s), rho) {
      var k := |newer| + j;
      assert b.pend[k] == a.pend[j] && DenotesAt(heap, m'.regs(b.pend[k].r), Apply(b.pend[k].p, s), rho);
    }
  }

  /** The word at the top is the next subterm. */
  lemma NextFinished(m: Machine, m': Machine, a: Pos, b: Pos, newer: seq<Entry>, p: Pattern, heap: seq<Cell>, s: Subst,
      rho: Valuation)
    requires Carried(m, m', a, b, newer) && Finished(m', b, heap, s, rho)
    requires Extends(heap, m, a.pend)
    requires a.rest == [p] + b.rest && |m'.heap| == |m.heap| + 1
    requires |m.heap| < |heap| && Denotes(heap, heap[|m.heap|], Apply(p, s), rho)
    ensures Finished(m, a, heap, s, rho)
  {
    var top := |m.heap|;
    assert DenotesAll(heap, top + 1, ApplyAll(b.rest, s), rho);
    DenotesCons(heap, top, p, b.rest, s, rho);
    PushFinished(m, m', a, b, newer, heap, s, rho);
  }

  /** Words are added, and no register is opened. */
  lemma ReadyPush(m: Machine, m': Machine, a: Pos, b: Pos, head: Env, init: Machine)
    requires Ready(m, a, head, init) && m'.Machine? && m.heap <= m'.heap && m'.regs == m.regs
    requires a.env == b.env && a.pend == b.pend
    ensures Ready(m', b, head, init)
  {
    assert forall r :: InUse(r, b, head) <==> InUse(r, a, head);
  }

  /** A word is added that is a free variable, and a register is made to refer to it. */
  lemma ReadyOpen(m: Machine, m': Machine, a: Pos, b: Pos, r: nat, head: Env, init: Machine)
    requires Ready(m, a, head, init) && m' == Append(SetReg(m, r, Ref(|m.heap|)), [Ref(|m.heap|)])
    requires !InUse(r, a, head) && forall v {:trigger head[v]} :: v in head ==> v in b.env && b.env[v] == head[v] != r
    requires forall q {:trigger InUse(q, b, head)} :: InUse(q, b, head) ==> q == r || InUse(q, a, head)
    ensures Ready(m', b, head, init)
  {
    forall q | InUse(q, b, head) ensures Open(m', q, init) && (q != r ==> m'.regs(q) == m.regs(q) != Ref(|m.heap|)) {
      if q != r {
        assert InUse(q, a, head) && Open(m, q, init);
      }
    }
  }

  lemma BldConstAdvances(c: Constant, env: Env, pend: seq<Entry>, rest: seq<Pattern>, head: Env, done: seq<Entry>)
    ensures Advances(BldConst(c), H.Pos(env, pend, [PConst(c)] + rest), H.Pos(env, pend, rest), head, done, [])
  {
    var a, b, i := H.Pos(env, pend, [PConst(c)] + rest), H.Pos(env, pend, rest), BldConst(c);
    forall m, init | Starts(init, head) && Ready(m, a, head, init)
      ensures Ready(Do(m, i), b, head, init)
      ensures forall heap, s, rho :: Finished(Do(m, i), b, heap, s, rho) ==> Finished(m, a, heap, s, rho)
    {
      ReadyPush(m, Do(m, i), a, b, head, init);
      forall heap, s, rho | Finished(Do(m, i), b, heap, s, rho) ensures Finished(m, a, heap, s, rho) {
        BldFinished(m, a, b, Atomic(c), PConst(c), heap, s, rho, head, init);
      }
    }
  }

  /** A word that is the next subterm is added. */
  lemma BldFinished(m: Machine, a: Pos, b: Pos, c: Cell, p: Pattern, heap: seq<Cell>, s: Subst, rho: Valuation,
      head: Env, init: Machine)
    requires Ready(m, a, head, init) && a == H.Pos(b.env, b.pend, [p] + b.rest)
    requires Finished(Append(m, [c]), b, heap, s, rho) && Denotes(heap, c, Apply(p, s), rho)
    ensures Finished(m, a, heap, s, rho)
  {
    HolesBelow(m, a, head, init);
    var m' := Append(m, [c]);
    assert forall x: nat :: IsHole(m', b.pend, x) ==> IsHole(m, a.pend, x);
    TopStays(m, m', a.pend, b.pend, heap, [c]);
    assert heap[|m.heap|] == [c][0];
    NextFinished(m, m', a, b, [], p, heap, s, rho);
  }

  lemma VarDenotes(m: Machine, at: Pos, v: nat, heap: seq<Cell>, s: Subst, rho: Valuation)
    requires Finished(m, at, heap, s, rho) && v in at.env
    ensures Denotes(heap, m.regs(at.env[v]), Apply(PVar(v), s), rho)
  {
  }

  lemma BldTValAdvances(v: nat, env: Env, pend: seq<Entry>, rest: seq<Pattern>, head: Env, done: seq<Entry>)
    requires v in env
    ensures Advances(BldTVal(env[v]), H.Pos(env, pend, [PVar(v)] + rest), H.Pos(env, pend, rest), head, done, [])
  {
    var a, b, i := H.Pos(env, pend, [PVar(v)] + rest), H.Pos(env, pend, rest), BldTVal(env[v]);
    forall m, init | Starts(init, head) && Ready(m, a, head, init)
      ensures Ready(Do(m, i), b, head, init)
      ensures forall heap, s, rho :: Finished(Do(m, i), b, heap, s, rho) ==> Finished(m, a, heap, s, rho)
    {
      ReadyPush(m, Do(m, i), a, b, head, init);
      HolesBelow(m, a, head, init);
      var c := m.regs(env[v]);
      assert v in a.env && Deref(m.heap, c) == c;
      forall heap, s, rho | Finished(Do(m, i), b, heap, s, rho) ensures Finished(m, a, heap, s, rho) {
        VarDenotes(Do(m, i), b, v, heap, s, rho);
        BldFinished(m, a, b, c, PVar(v), heap, s, rho, head, init);
      }
    }
  }

  lemma BldTVarAdvances(v: nat, r: nat, env: Env, pend: seq<Entry>, rest: seq<Pattern>, head: Env, done: seq<Entry>)
    requires v !in env && Unused(r, H.Pos(env, pend, rest), done)
    ensures Advances(BldTVar(r), H.Pos(env, pend, [PVar(v)] + rest), H.Pos(env[v := r], pend, rest), head, done, [])
  {
    var a, b, i := H.Pos(env, pend, [PVar(v)] + rest), H.Pos(env[v := r], pend, rest), BldTVar(r);
    assert b.env[v] == r && forall w :: w in env ==> b.env[w] == env[w];
    forall m, init | Starts(init, head) && Ready(m, a, head, init)
      ensures Ready(Do(m, i), b, head, init)
      ensures forall heap, s, rho :: Finished(Do(m, i), b, heap, s, rho) ==> Finished(m, a, heap, s, rho)
    {
      ReadyOpen(m, Do(m, i), a, b, r, head, init);
      forall heap, s, rho | Finished(Do(m, i), b, heap, s, rho) ensures Finished(m, a, heap, s, rho) {
        VarDenotes(Do(m, i), b, v, heap, s, rho);
        OpenFinished(m, a, b, r, PVar(v), [], heap, s, rho, head, init);
      }
    }
  }

  /** A free variable is added as the next subterm p, and r refers to it; p is a new variable, or
      becomes a pending entry. */
  ghost predicate Opens(m: Machine, a: Pos, b: Pos, r: nat, p: Pattern, newer: seq<Entry>) {
    && m.Machine? && a.rest == [p] + b.rest && b.pend == newer + a.pend && (newer == [] || newer == [H.Entry(r, p)])
    && (forall v {:trigger a.env[v]} :: v in a.env ==> v in b.env && a.env[v] == b.env[v] != r)
    && (forall j {:trigger a.pend[j]} :: 0 <= j < |a.pend| ==> a.pend[j].r != r)
  }

  lemma OpenWord(m: Machine, a: Pos, b: Pos, r: nat, p: Pattern, newer: seq<Entry>, heap: seq<Cell>, s: Subst,
      rho: Valuation, head: Env, init: Machine)
    requires Ready(m, a, head, init) && Opens(m, a, b, r, p, newer)
    requires Finished(Do(m, BldTVar(r)), b, heap, s, rho)
    requires newer == [] ==> Denotes(heap, Ref(|m.heap|), Apply(p, s), rho)
    ensures Extends(heap, m, a.pend) && |m.heap| < |heap|
    ensures Denotes(heap, heap[|m.heap|], Apply(p, s), rho)
  {
    HolesBelow(m, a, head, init);
    var m', top := Do(m, BldTVar(r)), |m.heap|;
    assert newer != [] ==> b.pend[0] == newer[0];
    forall x: nat | x < top && IsHole(m', b.pend, x) ensures IsHole(m, a.pend, x) {
      var j :| 0 <= j < |b.pend| && m'.regs(b.pend[j].r) == Ref(x);
      assert j >= |newer| ==> b.pend[j] == a.pend[j - |newer|];
    }
    TopStays(m, m', a.pend, b.pend, heap, [Ref(top)]);
    if newer == [] {
      assert !IsHole(m', b.pend, top);
      assert heap[top] == [Ref(top)][0];
    } else {
      assert DenotesAt(heap, m'.regs(b.pend[0].r), Apply(b.pend[0].p, s), rho);
    }
  }

  lemma OpenCarried(m: Machine, a: Pos, b: Pos, r: nat, p: Pattern, newer: seq<Entry>)
    requires Opens(m, a, b, r, p, newer)
    ensures Carried(m, Do(m, BldTVar(r)), a, b, newer)
  {
  }

  lemma OpenFinished(m: Machine, a: Pos, b: Pos, r: nat, p: Pattern, newer: seq<Entry>, heap: seq<Cell>, s: Subst,
      rho: Valuation, head: Env, init: Machine)
    requires Ready(m, a, head, init) && Opens(m, a, b, r, p, newer)
    requires Finished(Do(m, BldTVar(r)), b, heap, s, rho)
    requires newer == [] ==> Denotes(heap, Ref(|m.heap|), Apply(p, s), rho)
    ensures Finished(m, a, heap, s, rho)
  {
    OpenWord(m, a, b, r, p, newer, heap, s, rho, head, init);
    OpenCarried(m, a, b, r, p, newer);
    NextFinished(m, Do(m, BldTVar(r)), a, b, newer, p, heap, s, rho);
  }

  lemma BldLaterAdvances(p: Pattern, r: nat, env: Env, pend: seq<Entry>, rest: seq<Pattern>, head: Env,
      done: seq<Entry>)
    requires Unused(r, H.Pos(env, pend, rest), done)
    ensures Advances(BldTVar(r), H.Pos(env, pend, [p] + rest), H.Pos(env, [H.Entry(r, p)] + pend, rest), head, done, [])
  {
    var e := H.Entry(r, p);
    var a, b, i := H.Pos(env, pend, [p] + rest), H.Pos(env, [e] + pend, rest), BldTVar(r);
    assert forall j :: 0 <= j < |b.pend| ==> b.pend[j] == if j == 0 then e else pend[j - 1];
    forall m, init | Starts(init, head) && Ready(m, a, head, init)
      ensures Ready(Do(m, i), b, head, init)
      ensures forall heap, s, rho :: Finished(Do(m, i), b, heap, s, rho) ==> Finished(m, a, heap, s, rho)
    {
      ReadyOpen(m, Do(m, i), a, b, r, head, init);
      forall heap, s, rho | Finished(Do(m, i), b, heap, s, rho) ensures Finished(m, a, heap, s, rho) {
        OpenFinished(m, a, b, r, p, [e], heap, s, rho, head, init);
      }
    }
  }

  /** A last subterm that is a list with a small integer first: the tail takes its place. */
  lemma BldListAdvances(n: int, tail: Pattern, r: nat, hi: nat, lo: nat, env: Env, pend: seq<Entry>, head: Env,
      done: seq<Entry>)
    requires n == hi * 256 + lo
    ensures Advances(BldTVarListNumCon(r, hi, lo), H.Pos(env, pend, [PList(PConst(Integer(n)), tail)]),
                     H.Pos(env, pend, [tail]), head, done, [])
  {
    var a, b := H.Pos(env, pend, [PList(PConst(Integer(n)), tail)]), H.Pos(env, pend, [tail]);
    var i := BldTVarListNumCon(r, hi, lo);
    forall m, init | Starts(init, head) && Ready(m, a, head, init)
      ensures Ready(Do(m, i), b, head, init)
      ensures forall heap, s, rho :: Finished(Do(m, i), b, heap, s, rho) ==> Finished(m, a, heap, s, rho)
    {
      ReadyPush(m, Do(m, i), a, b, head, init);
      forall heap, s, rho | Finished(Do(m, i), b, heap, s, rho) ensures Finished(m, a, heap, s, rho) {
        ListFinished(n, tail, m, Do(m, i), a, b, heap, s, rho, head, init);
      }
    }
  }

  lemma ListFinished(n: int, tail: Pattern, m: Machine, m': Machine, a: Pos, b: Pos, heap: seq<Cell>, s: Subst,
      rho: Valuation, head: Env, init: Machine)
    requires Ready(m, a, head, init) && a.env == b.env && a.pend == b.pend
    requires a.rest == [PList(PConst(Integer(n)), tail)] && b.rest == [tail]
    requires m' == Append(m, [ListAt(|m.heap| + 1), Atomic(Integer(n))])
    requires Finished(m', b, heap, s, rho)
    ensures Finished(m, a, heap, s, rho)
  {
    HolesBelow(m, a, head, init);
    var top, cells := |m.heap|, [ListAt(|m.heap| + 1), Atomic(Integer(n))];
    assert forall x: nat :: IsHole(m', b.pend, x) ==> IsHole(m, a.pend, x);
    TopStays(m, m', a.pend, b.pend, heap, cells);
    assert heap[top] == cells[0] && heap[top + 1] == cells[1];
    var p := PList(PConst(Integer(n)), tail);
    assert [tail] + [] == [tail] && [p] + [] == [p];
    DenotesCons(heap, top + 2, tail, [], s, rho);
    assert Apply(p, s) == List(Const(Integer(n)), Apply(tail, s));
    assert Denotes(heap, heap[top + 1], Const(Integer(n)), rho) && Denotes(heap, heap[top + 2], Apply(tail, s), rho);
    DenotesCons(heap, top, p, [], s, rho);
    PushFinished(m, m', a, b, [], heap, s, rho);
  }

  /** The entry e's variable is bound to d, and words are added. */
  lemma BindFinished(e: Entry, d: Cell, cells: seq<Cell>, m: Machine, a: Pos, b: Pos, heap: seq<Cell>, s: Subst,
      rho: Valuation, head: Env, init: Machine)
    requires Ready(m, a, head, init) && a.env == b.env && a.pend == b.pend + [e] && a.rest == []
    requires Free(m.heap, m.regs(e.r))
    requires Finished(Append(BindReg(m, e.r, d), cells), b, heap, s, rho)
    requires Denotes(heap, d, Apply(e.p, s), rho)
    requires forall j {:trigger b.pend[j]} :: 0 <= j < |b.pend| ==> m.regs(b.pend[j].r) != m.regs(e.r)
    ensures Finished(m, a, heap, s, rho)
  {
    var m', x := Append(BindReg(m, e.r, d), cells), m.regs(e.r).a;
    H.Split(b.pend, e);
    assert m'.heap[x] == d && !IsHole(m', b.pend, x) && heap[x] == d;
    assert IsHole(m, a.pend, x);
    forall y: nat | IsHole(m', b.pend, y) ensures IsHole(m, a.pend, y) {
      var j :| 0 <= j < |b.pend| && m'.regs(b.pend[j].r) == Ref(y);
      assert a.pend[j] == b.pend[j];
    }
    forall y | 0 <= y < |m.heap| && !IsHole(m, a.pend, y) ensures heap[y] == m.heap[y] {
      assert m'.heap[y] == m.heap[y];
    }
    forall j | 0 <= j < |a.pend| ensures DenotesAt(heap, m.regs(a.pend[j].r), Apply(a.pend[j].p, s), rho) {
      if j < |b.pend| {
        assert a.pend[j] == b.pend[j] && DenotesAt(heap, m'.regs(b.pend[j].r), Apply(b.pend[j].p, s), rho);
      }
    }
  }

  lemma OthersDiffer(m: Machine, pend: seq<Entry>, e: Entry, env: Env, head: Env, init: Machine, b: Pos, m': Machine)
    requires Ready(m, H.Pos(env, pend + [e], []), head, init) && b.env == env && b.pend == pend
    requires forall j {:trigger pend[j]} :: 0 <= j < |pend| ==> pend[j].r != e.r
    requires forall v {:trigger env[v]} :: v in env ==> env[v] != e.r
    requires m'.Machine? && m'.regs == m.regs && |m.heap| <= |m'.heap|
    requires forall x {:trigger m'.heap[x]} :: 0 <= x < |m.heap| && m.regs(e.r) != Ref(x) ==> m'.heap[x] == m.heap[x]
    ensures Free(m.heap, m.regs(e.r)) && Ready(m', b, head, init)
    ensures forall j {:trigger pend[j]} :: 0 <= j < |pend| ==> m.regs(pend[j].r) != m.regs(e.r)
  {
    var a := H.Pos(env, pend + [e], []);
    H.Split(pend, e);
    assert InUse(e.r, a, head) by {
      assert a.pend[|pend|].r == e.r;
    }
    forall r | InUse(r, b, head) ensures InUse(r, a, head) && r != e.r {
      if !(exists v {:trigger env[v]} :: v in env && v !in head && env[v] == r) {
        var j :| 0 <= j < |pend| && pend[j].r == r;
        assert a.pend[j].r == r;
      }
    }
    forall r | InUse(r, b, head) ensures Open(m', r, init) {
      assert Open(m, r, init) && m.regs(r) != m.regs(e.r);
    }
    forall j | 0 <= j < |pend| ensures m.regs(pend[j].r) != m.regs(e.r) {
      assert b.pend[j].r == pend[j].r && InUse(pend[j].r, b, head);
    }
  }

  lemma GetListAdvances(r: nat, h: Pattern, t: Pattern, env: Env, pend: seq<Entry>, head: Env, done: seq<Entry>)
    requires forall j {:trigger pend[j]} :: 0 <= j < |pend| ==> pend[j].r != r
    requires forall v {:trigger env[v]} :: v in env ==> env[v] != r
    ensures Advances(Build.GetList(r), H.Pos(env, pend + [H.Entry(r, PList(h, t))], []), H.Pos(env, pend, [h, t]),
                     head, done, [])
  {
    var p, i := PList(h, t), Build.GetList(r);
    var e := H.Entry(r, p);
    var a, b := H.Pos(env, pend + [e], []), H.Pos(env, pend, [h, t]);
    forall m, init | Starts(init, head) && Ready(m, a, head, init)
      ensures Ready(Do(m, i), b, head, init) && Do(m, i).regs == m.regs
      ensures forall heap, s, rho :: Finished(Do(m, i), b, heap, s, rho) ==> Finished(m, a, heap, s, rho)
    {
      H.Split(pend, e);
      assert a.pend[|pend|].r == r && InUse(r, a, head);
      var d, m' := ListAt(|m.heap|), Do(m, i);
      OthersDiffer(m, pend, e, env, head, init, b, m');
      forall heap, s, rho | Finished(m', b, heap, s, rho) ensures Finished(m, a, heap, s, rho) {
        ListDenotes(heap, |m.heap|, h, t, s, rho);
        assert m' == Append(BindReg(m, r, d), []);
        BindFinished(e, d, [], m, a, b, heap, s, rho, head, init);
      }
    }
  }

  lemma ListDenotes(heap: seq<Cell>, a: nat, h: Pattern, t: Pattern, s: Subst, rho: Valuation)
    requires DenotesAll(heap, a, ApplyAll([h, t], s), rho)
    ensures Denotes(heap, ListAt(a), Apply(PList(h, t), s), rho)
  {
    assert [h, t] == [h] + [t] && [t] == [t] + [];
    DenotesCons(heap, a, h, [t], s, rho);
    DenotesCons(heap, a + 1, t, [], s, rho);
    assert Apply(PList(h, t), s) == List(Apply(h, s), Apply(t, s));
  }

  lemma StructDenotes(heap: seq<Cell>, a: nat, name: string, args: seq<Pattern>, s: Subst, rho: Valuation)
    requires a < |heap| && heap[a] == Functor(name, |args|)
    requires DenotesAll(heap, a + 1, ApplyAll(args, s), rho)
    ensures Denotes(heap, StructAt(a), Apply(PStruct(name, args), s), rho)
  {
    assert Apply(PStruct(name, args), s) == Struct(name, ApplyAll(args, s));
  }

  lemma GetStrAdvances(r: nat, name: string, args: seq<Pattern>, env: Env, pend: seq<Entry>, head: Env,
      done: seq<Entry>)
    requires forall j {:trigger pend[j]} :: 0 <= j < |pend| ==> pend[j].r != r
    requires forall v {:trigger env[v]} :: v in env ==> env[v] != r
    ensures Advances(Build.GetStr(r, name, |args|), H.Pos(env, pend + [H.Entry(r, PStruct(name, args))], []),
                     H.Pos(env, pend, args), head, done, [])
  {
    var p, i := PStruct(name, args), Build.GetStr(r, name, |args|);
    var e := H.Entry(r, p);
    var a, b := H.Pos(env, pend + [e], []), H.Pos(env, pend, args);
    forall m, init | Starts(init, head) && Ready(m, a, head, init)
      ensures Ready(Do(m, i), b, head, init) && Do(m, i).regs == m.regs
      ensures forall heap, s, rho :: Finished(Do(m, i), b, heap, s, rho) ==> Finished(m, a, heap, s, rho)
    {
      H.Split(pend, e);
      assert a.pend[|pend|].r == r && InUse(r, a, head);
      var d, m', cells := StructAt(|m.heap|), Do(m, i), [Functor(name, |args|)];
      OthersDiffer(m, pend, e, env, head, init, b, m');
      forall heap, s, rho | Finished(m', b, heap, s, rho) ensures Finished(m, a, heap, s, rho) {
        assert m'.heap[|m.heap|] == Functor(name, |args|);
        HolesBelow(m, a, head, init);
        assert !IsHole(m', pend, |m.heap|);
        StructDenotes(heap, |m.heap|, name, args, s, rho);
        BindFinished(e, d, cells, m, a, b, heap, s, rho, head, init);
      }
    }
  }

  /** A register in no use is set, and words are added: nothing else changes. */
  lemma PutCarried(m: Machine, m': Machine, env: Env, b: Pos, r: nat, heap: seq<Cell>, s: Subst, rho: Valuation,
      head: Env, init: Machine)
    requires Ready(m, H.Pos(env, [], []), head, init) && m'.Machine? && m.heap <= m'.heap
    requires b.env == env && b.pend == []
    requires forall q :: q != r ==> m'.regs(q) == m.regs(q)
    requires forall v {:trigger env[v]} :: v in env ==> env[v] != r
    ensures Ready(m', b, head, init)
    ensures Finished(m', b, heap, s, rho) ==> Finished(m, H.Pos(env, [], []), heap, s, rho)
  {
    var a := H.Pos(env, [], []);
    assert forall q :: InUse(q, b, head) ==> InUse(q, a, head) && q != r;
    if Finished(m', b, heap, s, rho) {
      assert forall x: nat :: !IsHole(m', [], x);
      forall x | 0 <= x < |m.heap| ensures heap[x] == m.heap[x] {
        assert m'.heap[x] == m.heap[x];
      }
      forall v | v in env ensures Denotes(heap, m.regs(env[v]), s(v), rho) {
        VarDenotes(m', b, v, heap, s, rho);
      }
    }
  }

  /** The outermost term of an argument: its register is set, and building it begins. */
  lemma PutAdvances(e: Entry, i: Build, env: Env, rest: seq<Pattern>, head: Env, done: seq<Entry>)
    requires Unused(e.r, H.Pos(env, [], []), done)
    requires match e.p
      case PList(h, t) => i == PutList(e.r) && rest == [h, t]
      case PStruct(name, args) => i == PutStr(e.r, name, |args|) && rest == args
      case _ => false
    ensures Advances(i, H.Pos(env, [], []), H.Pos(env, [], rest), head, done, [e])
  {
    var a, b := H.Pos(env, [], []), H.Pos(env, [], rest);
    forall m, init | Starts(init, head) && Ready(m, a, head, init)
      ensures Ready(Do(m, i), b, head, init)
      ensures forall heap, s, rho :: Finished(Do(m, i), b, heap, s, rho) ==>
                Finished(m, a, heap, s, rho) && Results(Do(m, i), [e], heap, s, rho)
    {
      var m' := Do(m, i);
      PutCarried(m, m', env, b, e.r, [], _ => Const(EmptyList), _ => Const(EmptyList), head, init);
      forall heap, s, rho | Finished(m', b, heap, s, rho)
        ensures Finished(m, a, heap, s, rho) && Results(m', [e], heap, s, rho)
      {
        PutCarried(m, m', env, b, e.r, heap, s, rho, head, init);
        PutDenotes(e, m, m', b, heap, s, rho);
      }
    }
  }

  lemma PutDenotes(e: Entry, m: Machine, m': Machine, b: Pos, heap: seq<Cell>, s: Subst, rho: Valuation)
    requires m.Machine? && Finished(m', b, heap, s, rho) && b.pend == []
    requires match e.p
      case PList(h, t) => m' == Do(m, PutList(e.r)) && b.rest == [h, t]
      case PStruct(name, args) => m' == Do(m, PutStr(e.r, name, |args|)) && b.rest == args
      case _ => false
    ensures Results(m', [e], heap, s, rho)
  {
    match e.p
    case PList(h, t) =>
      ListDenotes(heap, |m.heap|, h, t, s, rho);
    case PStruct(name, args) =>
      assert !IsHole(m', [], |m.heap|) && m'.heap[|m.heap|] == Functor(name, |args|);
      StructDenotes(heap, |m.heap|, name, args, s, rho);
  }

  /** An argument that is a new variable. */
  lemma PutTVarAdvances(v: nat, r: nat, env: Env, head: Env, done: seq<Entry>)
    requires v !in env && Unused(r, H.Pos(env, [], []), done)
    ensures Advances(PutTVar(r), H.Pos(env, [], []), H.Pos(env[v := r], [], []), head, done, [H.Entry(r, PVar(v))])
  {
    var a, b, i := H.Pos(env, [], []), H.Pos(env[v := r], [], []), PutTVar(r);
    assert b.env[v] == r && forall w :: w in env ==> b.env[w] == env[w];
    forall m, init | Starts(init, head) && Ready(m, a, head, init)
      ensures Ready(Do(m, i), b, head, init)
      ensures forall heap, s, rho :: Finished(Do(m, i), b, heap, s, rho) ==>
                Finished(m, a, heap, s, rho) && Results(Do(m, i), [H.Entry(r, PVar(v))], heap, s, rho)
    {
      var m' := Do(m, i);
      ReadyOpen(m, m', a, b, r, head, init);
      forall heap, s, rho | Finished(m', b, heap, s, rho)
        ensures Finished(m, a, heap, s, rho) && Results(m', [H.Entry(r, PVar(v))], heap, s, rho)
      {
        VarDenotes(m', b, v, heap, s, rho);
        assert forall x: nat :: !IsHole(m', [], x);
        TopStays(m, m', [], [], heap, [Ref(|m.heap|)]);
        PushFinished(m, m', a, b, [], heap, s, rho);
      }
    }
  }

  /** The code has brought every run to `at`: once the rest of the work is finished, the registers
      `done` hold their terms. */
  ghost predicate Built(code: seq<Build>, done: seq<Entry>, at: Pos, head: Env) {
    forall init {:trigger DoAll(code, init)} :: Starts(init, head) ==> BuiltFor(DoAll(code, init), done, at, head, init)
  }

  ghost predicate BuiltFor(m: Machine, done: seq<Entry>, at: Pos, head: Env, init: Machine) {
    && Ready(m, at, head, init)
    && forall heap, s, rho {:trigger Finished(m, at, heap, s, rho)} ::
      Finished(m, at, heap, s, rho) ==> Results(m, done, heap, s, rho)
  }

  lemma BuiltStart(head: Env)
    ensures Built([], [], H.Pos(head, [], []), head)
  {
  }

  /** One more instruction. */
  lemma BuiltStep(code: seq<Build>, done: seq<Entry>, a: Pos, b: Pos, i: Build, head: Env, more: seq<Entry>)
    requires Built(code, done, a, head) && Advances(i, a, b, head, done, more)
    ensures Built(code + [i], done + more, b, head)
  {
    forall init | Starts(init, head) ensures BuiltFor(DoAll(code + [i], init), done + more, b, head, init) {
      DoSnoc(code, i, init);
      var m := DoAll(code, init);
      assert BuiltFor(m, done, a, head, init) && Ready(m, a, head, init);
      var m' := Do(m, i);
      forall heap, s, rho | Finished(m', b, heap, s, rho) ensures Results(m', done + more, heap, s, rho) {
        assert Results(m, done, heap, s, rho) && Results(m', more, heap, s, rho);
        forall j | 0 <= j < |done + more|
          ensures Denotes(heap, m'.regs((done + more)[j].r), Apply((done + more)[j].p, s), rho)
        {
          if j < |done| {
            assert (done + more)[j] == done[j];
          } else {
            assert (done + more)[j] == more[j - |done|];
          }
        }
      }
    }
  }

  /** An argument that is a variable met before is in its register. */
  lemma BuiltKnown(code: seq<Build>, done: seq<Entry>, env: Env, v: nat, head: Env)
    requires Built(code, done, H.Pos(env, [], []), head) && v in env
    ensures Built(code, done + [H.Entry(env[v], PVar(v))], H.Pos(env, [], []), head)
  {
    var at, all := H.Pos(env, [], []), done + [H.Entry(env[v], PVar(v))];
    forall init | Starts(init, head) ensures BuiltFor(DoAll(code, init), all, at, head, init) {
      var m := DoAll(code, init);
      assert BuiltFor(m, done, at, head, init);
      forall heap, s, rho | Finished(m, at, heap, s, rho) ensures Results(m, all, heap, s, rho) {
        assert Results(m, done, heap, s, rho);
        VarDenotes(m, at, v, heap, s, rho);
        assert forall j :: 0 <= j < |done| ==> all[j] == done[j];
      }
    }
  }

  /** The order of the pending entries does not matter. */
  lemma BuiltReorder(code: seq<Build>, done: seq<Entry>, env: Env, x: seq<Entry>, y: seq<Entry>, rest: seq<Pattern>,
      head: Env)
    requires Built(code, done, H.Pos(env, x + y, rest), head)
    ensures Built(code, done, H.Pos(env, y + x, rest), head)
  {
    var a, b := H.Pos(env, x + y, rest), H.Pos(env, y + x, rest);
    forall init | Starts(init, head) ensures BuiltFor(DoAll(code, init), done, b, head, init) {
      var m := DoAll(code, init);
      assert BuiltFor(m, done, a, head, init);
      ReadyReorder(m, a, b, x, y, head, init);
      forall heap, s, rho | Finished(m, b, heap, s, rho) ensures Finished(m, a, heap, s, rho) {
        FinishedReorder(m, a, b, x, y, heap, s, rho);
      }
    }
  }

  lemma ReadyReorder(m: Machine, a: Pos, b: Pos, x: seq<Entry>, y: seq<Entry>, head: Env, init: Machine)
    requires Ready(m, a, head, init) && a.env == b.env && a.pend == x + y && b.pend == y + x
    ensures Ready(m, b, head, init)
  {
    forall r | InUse(r, b, head) ensures InUse(r, a, head) {
      if !(exists v {:trigger b.env[v]} :: v in b.env && v !in head && b.env[v] == r) {
        var i :| 0 <= i < |b.pend| && b.pend[i].r == r;
        assert b.pend[i] == a.pend[if i < |y| then |x| + i else i - |y|];
      }
    }
  }

  lemma FinishedReorder(m: Machine, a: Pos, b: Pos, x: seq<Entry>, y: seq<Entry>, heap: seq<Cell>, s: Subst,
      rho: Valuation)
    requires Finished(m, b, heap, s, rho) && a.env == b.env && a.rest == b.rest && a.pend == x + y
    requires b.pend == y + x
    ensures Finished(m, a, heap, s, rho)
  {
    forall k: nat | IsHole(m, b.pend, k) ensures IsHole(m, a.pend, k) {
      var i :| 0 <= i < |b.pend| && m.regs(b.pend[i].r) == Ref(k);
      assert b.pend[i] == a.pend[if i < |y| then |x| + i else i - |y|];
    }
    forall i | 0 <= i < |a.pend| ensures DenotesAt(heap, m.regs(a.pend[i].r), Apply(a.pend[i].p, s), rho) {
      var j := if i < |x| then |y| + i else i - |x|;
      assert a.pend[i] == b.pend[j] && DenotesAt(heap, m.regs(b.pend[j].r), Apply(b.pend[j].p, s), rho);
    }
  }
}
