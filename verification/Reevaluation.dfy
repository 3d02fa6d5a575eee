/** Runs on the graph itself: leaves are invalidated, and invalid calls are evaluated again and turn
    out to be unchanged. */
module Reevaluation {
  import opened CallGraph
  import opened Sequences
  import opened InvalidState
  import Invalidation
  import Propagation
  import R = Recomputation

  /** Of the edges of the graph, h are those along which changes have still to be taken up: all
      those out of invalid calls are. */
  ghost predicate Due(g: Edges, h: Edges, deleted: set<CallNode>) {
    && h.Keys == g.Keys && WellFormed(h)
    && (forall p, x {:trigger x in h[p]} :: p in h && x in h[p] ==> x in g[p])
    && (forall p {:trigger h[p]} :: p in deleted && p in h ==> h[p] == g[p])
  }

  lemma {:induction false} DueReach(g: Edges, h: Edges, deleted: set<CallNode>, l: CallNode, x: CallNode, k: nat)
    requires Due(g, h, deleted) && ReachIn(h, h.Keys, l, x, k)
    ensures ReachIn(g, g.Keys, l, x, k)
  {
    if k > 0 {
      var y :| y in h && x in h[y] && ReachIn(h, h.Keys, l, y, k - 1);
      DueReach(g, h, deleted, l, y, k - 1);
    }
  }

  lemma DueAcyclic(g: Edges, h: Edges, deleted: set<CallNode>)
    requires Due(g, h, deleted) && Acyclic(g)
    ensures Acyclic(h)
  {
    forall n | n in h ensures !ReachPlus(h, h.Keys, n, n) {
      forall k: nat | k > 0 && ReachIn(h, h.Keys, n, n, k) ensures ReachPlus(g, g.Keys, n, n) {
        DueReach(g, h, deleted, n, n, k);
      }
    }
  }

  /** When c is evaluated again, none of its dependencies is invalid any more. */
  lemma CutDue(g: Edges, h: Edges, deleted: set<CallNode>, c: CallNode, deleted': set<CallNode>)
    requires Due(g, h, deleted) && deleted' <= deleted && Into(g, deleted, c) == {}
    ensures Due(g, Cut(h, c), deleted')
  {
    CutWellFormed(h, c);
    forall p | p in deleted' && p in h ensures Cut(h, c)[p] == g[p] {
      assert c in g[p] ==> p in Into(g, deleted, c);
      ExceptNothing(g[p], c);
    }
  }

  /** What propagation does along the edges of the graph it does along those still due. */
  lemma ReevaluatedDue(g: Edges, h: Edges, from: set<CallNode>, c: CallNode, cleared: set<CallNode>,
      deleted: set<CallNode>, fc: FalseCounts, deleted': set<CallNode>, fc': FalseCounts)
    requires Due(g, h, deleted) && WellFormed(g) && Invalid(h, from, deleted, fc) && c in deleted
    requires Reevaluated(g, c, cleared, deleted, fc, deleted', fc')
    ensures cleared <= deleted && Reevaluated(h, c, cleared, deleted, fc, deleted', fc')
  {
    forall x | x in cleared ensures x in deleted {
      assert |Into(g, cleared + {c}, x)| > 0;
      var p :| p in Into(g, cleared + {c}, x);
      var i :| 0 <= i < |g[p]| && g[p][i] == x;
      assert fc[x] == Bump(0, |Into(h, from + deleted, x)|) && fc[x] > 0;
      var q :| q in Into(h, from + deleted, x);
      AffectedStep(h, from, q, x);
    }
    forall n {:trigger Into(h, cleared + {c}, n)} | n in h
      ensures fc'[n] == Propagation.Drop(fc[c := 0][n], |Into(h, cleared + {c}, n)|)
    {
      assert Into(h, cleared + {c}, n) == Into(g, cleared + {c}, n);
    }
  }

  /** `Propagation.PropagateNoChange` for a call whose count has been reset, as a step from one state
      to the next. */
  method UndoFrom(c: CallNode, ghost S: set<CallNode>, ghost e: Edges) returns (ghost cleared: set<CallNode>)
    requires e == OutEdges(S) && WellFormed(e) && c in S && c.falsecount == 0
    modifies S`falsecount, S`deleted, S`computeDirectly
    ensures Propagated(e, c, cleared, old(Propagation.Deleted(S)), old(Propagation.FalseCounts(S)),
                       Propagation.Deleted(S), Propagation.FalseCounts(S))
    ensures R.Done(S) == old(R.Done(S)) - cleared
  {
    ghost var deleted, fc := Propagation.Deleted(S), Propagation.FalseCounts(S);
    ghost var paid;
    cleared, paid := Propagation.PropagateNoChange(c, S, e);
    ghost var deleted', fc' := Propagation.Deleted(S), Propagation.FalseCounts(S);
    forall n {:trigger Into(e, cleared + {c}, n)} | n in e
      ensures fc'[n] == Propagation.Drop(fc[n], |Into(e, cleared + {c}, n)|)
    {
      assert n.falsecount == fc'[n];
      assert paid[n] == |Into(e, cleared + {c}, n)|;
    }
    forall n {:trigger n in cleared} | n in e
      ensures n in cleared <==> fc[n] > 0 && fc'[n] == 0
      ensures n in deleted' <==> n in deleted && n !in cleared
    {
      assert n.falsecount == fc'[n] && n.deleted == (n in deleted');
    }
    assert deleted' == deleted - cleared;
  }

  /** The call c has been evaluated again, with the same answers: it is a new call without count, and
      the change is taken back from the calls it affects. */
  method ReevaluateUnchanged(c: CallNode, ghost S: set<CallNode>, ghost e: Edges) returns (ghost cleared: set<CallNode>)
    requires e == OutEdges(S) && WellFormed(e) && c in S
    modifies S`falsecount, S`deleted, S`computeDirectly
    ensures Reevaluated(e, c, cleared, old(Propagation.Deleted(S)), old(Propagation.FalseCounts(S)),
                        Propagation.Deleted(S), Propagation.FalseCounts(S))
    ensures R.Done(S) == old(R.Done(S)) - cleared - {c}
  {
    ghost var deleted, fc := Propagation.Deleted(S), Propagation.FalseCounts(S);
    c.falsecount, c.deleted, c.computeDirectly := 0, false, false;
    assert Propagation.Deleted(S) == deleted - {c};
    assert Propagation.FalseCounts(S) == fc[c := 0];
    assert R.Done(S) == old(R.Done(S)) - {c};
    cleared := UndoFrom(c, S, e);
  }

  /** The state of a run: the leaves `from` have been invalidated, and h is what is still due. */
  ghost predicate InState(S: set<CallNode>, g: Edges, h: Edges, from: set<CallNode>)
    reads S`outedges, S`deleted, S`falsecount
  {
    && g == OutEdges(S) && WellFormed(g) && Due(g, h, Propagation.Deleted(S))
    && Invalid(h, from, Propagation.Deleted(S), Propagation.FalseCounts(S))
  }

  lemma UndoDue(g: Edges, h: Edges, from: set<CallNode>, c: CallNode, cleared: set<CallNode>,
      deleted: set<CallNode>, fc: FalseCounts, deleted': set<CallNode>, fc': FalseCounts)
    requires WellFormed(g) && Acyclic(g) && Due(g, h, deleted) && Invalid(h, from, deleted, fc) && c in deleted
    requires Reevaluated(g, c, cleared, deleted, fc, deleted', fc')
    ensures cleared <= deleted
    ensures deleted' == Affected(Cut(h, c), from) <==> Undoable(h, from, c)
    ensures Invalid(Cut(h, c), from, deleted', fc') <==> Restorable(h, from, c)
    ensures Into(g, deleted, c) == {} ==> Due(g, Cut(h, c), deleted')
  {
    DueAcyclic(g, h, deleted);
    ReevaluatedDue(g, h, from, c, cleared, deleted, fc, deleted', fc');
    UndoCallIff(h, from, c, cleared, deleted, fc, deleted', fc');
    UndoCall(h, from, c, cleared, deleted, fc, deleted', fc');
    if Into(g, deleted, c) == {} {
      CutDue(g, h, deleted, c, deleted');
    }
  }

  /** The same as a step of a run: what is invalid afterwards is exactly what is affected without the
      edges into c, if and only if the 14-bit counts let it; and then the run can go on. */
  method UndoGraphCall(c: CallNode, ghost S: set<CallNode>, ghost g: Edges, ghost h: Edges, ghost from: set<CallNode>)
    returns (ghost cleared: set<CallNode>)
    requires InState(S, g, h, from) && Acyclic(g) && c in S && c.deleted
    requires Into(g, Propagation.Deleted(S), c) == {}
    modifies S`falsecount, S`deleted, S`computeDirectly
    ensures Propagation.Deleted(S) == Affected(Cut(h, c), from) <==> Undoable(h, from, c)
    ensures InState(S, g, Cut(h, c), from) <==> Restorable(h, from, c)
    ensures c in cleared && R.Done(S) == old(R.Done(S)) - cleared
    ensures Propagation.Deleted(S) == old(Propagation.Deleted(S)) - cleared
  {
    ghost var deleted, fc := Propagation.Deleted(S), Propagation.FalseCounts(S);
    cleared := ReevaluateUnchanged(c, S, g);
    ghost var deleted', fc' := Propagation.Deleted(S), Propagation.FalseCounts(S);
    UndoDue(g, h, from, c, cleared, deleted, fc, deleted', fc');
    cleared := cleared + {c};
  }

  /** All edges but those out of `keep` are due again. */
  ghost function Renewed(g: Edges, h: Edges, keep: set<CallNode>): (r: Edges)
    requires h.Keys == g.Keys
    ensures r.Keys == g.Keys
  {
    map p | p in g :: if p in keep then h[p] else g[p]
  }

  lemma {:induction false} RenewedReach(g: Edges, h: Edges, from: set<CallNode>, l: CallNode, x: CallNode, k: nat)
    requires h.Keys == g.Keys && WellFormed(h) && l in from && from <= h.Keys
    requires ReachIn(Renewed(g, h, from + Affected(h, from)), h.Keys, l, x, k)
    ensures x in from + Affected(h, from) && (k > 0 ==> x in Affected(h, from))
  {
    var r := Renewed(g, h, from + Affected(h, from));
    if k > 0 {
      var y :| y in r && x in r[y] && ReachIn(r, h.Keys, l, y, k - 1);
      RenewedReach(g, h, from, l, y, k - 1);
      AffectedStep(h, from, y, x);
    }
  }

  lemma {:induction false} ReachRenewed(g: Edges, h: Edges, from: set<CallNode>, l: CallNode, x: CallNode, k: nat)
    requires h.Keys == g.Keys && WellFormed(h) && l in from && ReachIn(h, h.Keys, l, x, k)
    ensures ReachIn(Renewed(g, h, from + Affected(h, from)), h.Keys, l, x, k)
  {
    if k > 0 {
      var y :| y in h && x in h[y] && ReachIn(h, h.Keys, l, y, k - 1);
      ReachRenewed(g, h, from, l, y, k - 1);
      assert k - 1 > 0 ==> ReachPlus(h, h.Keys, l, y);
    }
  }

  /** Edges out of valid calls do not matter to the state. */
  lemma RenewedInvalid(g: Edges, h: Edges, from: set<CallNode>, deleted: set<CallNode>, fc: FalseCounts)
    requires WellFormed(g) && Due(g, h, deleted) && Invalid(h, from, deleted, fc)
    ensures Due(g, Renewed(g, h, from + deleted), deleted) && Invalid(Renewed(g, h, from + deleted), from, deleted, fc)
  {
    var r := Renewed(g, h, from + deleted);
    forall n | n in h ensures n in Affected(r, from) <==> n in deleted {
      if n in Affected(r, from) {
        var l :| l in from && ReachPlus(r, r.Keys, l, n);
        var k: nat :| k > 0 && ReachIn(r, r.Keys, l, n, k);
        RenewedReach(g, h, from, l, n, k);
      }
      if n in deleted {
        var l :| l in from && ReachPlus(h, h.Keys, l, n);
        var k: nat :| k > 0 && ReachIn(h, h.Keys, l, n, k);
        ReachRenewed(g, h, from, l, n, k);
        assert ReachPlus(r, r.Keys, l, n);
      }
    }
    assert Affected(r, from) == deleted;
    forall n | n in h ensures Into(r, from + deleted, n) == Into(h, from + deleted, n) {
    }
  }

  /** Reaching from c through valid calls, the two have the same edges. */
  lemma {:induction false} RenewedValid(g: Edges, r: Edges, keep: set<CallNode>, via: set<CallNode>, c: CallNode,
      x: CallNode, k: nat)
    requires WellFormed(g) && WellFormed(r) && r.Keys == g.Keys && c !in keep
    requires forall p :: p in g && p !in keep ==> r[p] == g[p]
    requires forall p :: p in keep ==> p.leaf || p !in via
    ensures ReachIn(g, via, c, x, k) <==> ReachIn(r, via, c, x, k)
    ensures ReachIn(g, via, c, x, k) ==> x !in keep
  {
    if k > 0 {
      forall y | y in g ensures ReachIn(g, via, c, y, k - 1) <==> ReachIn(r, via, c, y, k - 1) {
        RenewedValid(g, r, keep, via, c, y, k - 1);
      }
      if ReachIn(g, via, c, x, k) {
        var y :| y in g && x in g[y] && ReachIn(g, via, c, y, k - 1);
        RenewedValid(g, r, keep, via, c, y, k - 1);
        var i :| 0 <= i < |g[y]| && g[y][i] == x;
        assert x in r[y] && ReachIn(r, via, c, y, k - 1);
      }
      if ReachIn(r, via, c, x, k) {
        var y :| y in r && x in r[y] && ReachIn(r, via, c, y, k - 1);
        RenewedValid(g, r, keep, via, c, y, k - 1);
        assert x in g[y] && ReachIn(g, via, c, y, k - 1);
      }
    }
  }

  lemma RenewedHit(g: Edges, r: Edges, keep: set<CallNode>, via: set<CallNode>, c: CallNode)
    requires WellFormed(g) && WellFormed(r) && r.Keys == g.Keys && c !in keep
    requires forall p :: p in g && p !in keep ==> r[p] == g[p]
    requires forall p :: p in keep ==> p.leaf || p !in via
    ensures Hit(g, via, c) == Hit(r, via, c) && forall n :: Into(g, Hit(g, via, c), n) == Into(r, Hit(r, via, c), n)
  {
    forall n | n in g ensures n in Hit(g, via, c) <==> n in Hit(r, via, c) {
      forall k: nat ensures ReachIn(g, via, c, n, k) <==> ReachIn(r, via, c, n, k) {
        RenewedValid(g, r, keep, via, c, n, k);
      }
    }
    assert Hit(g, via, c) == Hit(r, via, c);
    forall n | n in Hit(g, via, c) ensures r[n] == g[n] {
      var k: nat :| ReachIn(g, via, c, n, k);
      RenewedValid(g, r, keep, via, c, n, k);
    }
  }

  /** A leaf whose change has been taken up everywhere is as good as new. */
  lemma ForgetLeaf(h: Edges, from: set<CallNode>, deleted: set<CallNode>, fc: FalseCounts, l: CallNode)
    requires Invalid(h, from, deleted, fc) && l in from && h[l] == []
    ensures Invalid(h, from - {l}, deleted, fc)
  {
    forall n, k: nat | k > 0 ensures !ReachIn(h, h.Keys, l, n, k) {
      NoReach(h, l, n, k);
    }
    assert Affected(h, from - {l}) == Affected(h, from);
    forall n ensures Into(h, from - {l} + deleted, n) == Into(h, from + deleted, n) {
    }
  }

  lemma {:induction false} NoReach(h: Edges, l: CallNode, n: CallNode, k: nat)
    requires l in h && h[l] == [] && k > 0
    ensures !ReachIn(h, h.Keys, l, n, k)
  {
    if ReachIn(h, h.Keys, l, n, k) {
      var y :| y in h && n in h[y] && ReachIn(h, h.Keys, l, y, k - 1);
      if k > 1 {
        NoReach(h, l, y, k - 1);
      }
    }
  }

  /** Invalidating a leaf of the graph itself, in any state of a run. */
  method InvalidateGraphLeaf(c: CallNode, ghost S: set<CallNode>, ghost g: Edges, ghost h: Edges,
      ghost from: set<CallNode>) returns (ok: bool, ghost h': Edges)
    requires InState(S, g, h, from) && c in S && c.leaf && c !in from
    modifies S`deleted, S`falsecount
    ensures ok ==> InState(S, g, h', from + {c}) && h' == Renewed(g, h, from + old(Propagation.Deleted(S)))
    ensures (forall n :: n in S && !n.leaf ==> n.completed) ==> ok
  {
    ghost var deleted, fc := Propagation.Deleted(S), Propagation.FalseCounts(S);
    h' := Renewed(g, h, from + deleted);
    RenewedInvalid(g, h, from, deleted, fc);
    LeafUnaffected(h, from, c);
    assert Valid(S) == g.Keys - deleted;
    RenewedHit(g, h', from + deleted, g.Keys - deleted, c);
    ok := Invalidation.InvalidateCall(c, S, g);
    if ok {
      ghost var deleted', fc' := Propagation.Deleted(S), Propagation.FalseCounts(S);
      ghost var hit := Hit(g, g.Keys - deleted, c);
      forall n ensures n in deleted' <==> n in deleted + (set n | n in hit && !n.leaf) {
        if n in S {
          assert n.deleted <==> n in deleted || (n in hit && !n.leaf);
        }
      }
      InvalidateLeaf(h', from, c, deleted, fc, deleted', fc');
    }
  }

  /** The in-lists are the converse of the out-lists. */
  ghost predicate Converse(g: Edges, inn: Edges) {
    && inn.Keys == g.Keys
    && (forall p, n {:trigger n in g[p]} :: p in g && n in g[p] ==> n in inn && p in inn[n])
    && (forall p, n {:trigger p in inn[n]} :: n in inn && p in inn[n] ==> p in g && n in g[p])
  }

  /** No call has more predecessors than its count can hold. */
  ghost predicate Narrow(g: Edges) {
    forall n {:trigger Into(g, g.Keys, n)} :: n in g ==> |Into(g, g.Keys, n)| < FIELD_LIMIT
  }

  lemma {:induction false} ConverseReach(g: Edges, inn: Edges, via: set<CallNode>, a: CallNode, b: CallNode, k: nat)
    requires Converse(g, inn) && a in g && ReachIn(inn, via, a, b, k)
    ensures b in g && ReachIn(g, g.Keys, b, a, k)
  {
    if k > 0 {
      var y :| y in inn && b in inn[y] && ReachIn(inn, via, a, y, k - 1);
      ConverseReach(g, inn, via, a, y, k - 1);
      R.ReachPrepend(g, g.Keys, b, y, a, k - 1);
    }
  }

  lemma ConverseAcyclic(g: Edges, inn: Edges, via: set<CallNode>)
    requires Converse(g, inn) && Acyclic(g)
    ensures R.AcyclicVia(inn, via)
  {
    forall n | n in inn ensures !ReachPlus(inn, via, n, n) {
      forall k: nat | k > 0 && ReachIn(inn, via, n, n, k) ensures ReachPlus(g, g.Keys, n, n) {
        ConverseReach(g, inn, via, n, n, k);
      }
    }
  }

  /** The predecessors of a call that are due are fewer than its count can hold. */
  lemma NarrowDue(g: Edges, h: Edges, from: set<CallNode>, deleted: set<CallNode>, fc: FalseCounts, n: CallNode)
    requires Narrow(g) && Due(g, h, deleted) && Invalid(h, from, deleted, fc) && n in g && !n.leaf
    ensures |Into(h, from + deleted, n)| < FIELD_LIMIT
    ensures fc[n] > 0 <==> n in deleted
  {
    assert Into(h, from + deleted, n) <= Into(g, g.Keys, n);
    CardinalityMono(Into(h, from + deleted, n), Into(g, g.Keys, n));
    assert fc[n] == |Into(h, from + deleted, n)|;
    if n in deleted {
      InvalidPredecessor(h, from, n);
    }
    if fc[n] > 0 {
      var p :| p in Into(h, from + deleted, n);
      AffectedStep(h, from, p, n);
    }
  }

  lemma NarrowUndo(g: Edges, h: Edges, from: set<CallNode>, deleted: set<CallNode>, fc: FalseCounts, c: CallNode)
    requires Narrow(g) && Due(g, h, deleted) && Invalid(h, from, deleted, fc) && c in deleted
    ensures Restorable(h, from, c)
  {
    forall n | n in Affected(h, from) ensures Before(h, from, n) < FIELD_LIMIT {
      InvalidPredecessor(h, from, n);
      NarrowDue(g, h, from, deleted, fc, n);
    }
    NarrowRestorable(h, from, c);
  }

  /** How far a list of calls has been evaluated again, from its end: the calls from there on are
      valid, and those flagged are invalid calls of the list. */
  ghost predicate Evaluated(list: seq<CallNode>, i: nat, deleted: set<CallNode>, flagged: set<CallNode>) {
    && i <= |list| && (forall n :: n in list[i..] ==> n !in deleted)
    && (forall n :: n in flagged ==> n.leaf || (n in list && n in deleted))
  }

  lemma EvaluatedMore(list: seq<CallNode>, i: nat, deleted: set<CallNode>, flagged: set<CallNode>,
      cleared: set<CallNode>)
    requires Evaluated(list, i, deleted, flagged) && i > 0 && list[i - 1] !in deleted - cleared
    ensures Evaluated(list, i - 1, deleted - cleared, flagged - cleared)
  {
    assert list[i - 1..] == [list[i - 1]] + list[i..];
  }

  /** The dependencies of the next call are valid. */
  lemma DependenciesFirst(g: Edges, inn: Edges, live: set<CallNode>, list: seq<CallNode>, i: nat,
      deleted: set<CallNode>)
    requires Converse(g, inn) && R.Precedes(inn, live, list, []) && 0 < i <= |list| && list[i - 1] in g
    requires (forall n :: n in deleted ==> n in live && !n.leaf) && forall n :: n in list[i..] ==> n !in deleted
    ensures Into(g, deleted, list[i - 1]) == {}
  {
    forall j {:trigger list[j]} | i <= j < |list| ensures list[j] !in deleted {
      assert list[i..][j - i] == list[j];
    }
    if Into(g, deleted, list[i - 1]) != {} {
      var p :| p in Into(g, deleted, list[i - 1]);
      R.PrecedesAt(inn, live, list, i - 1, p);
    }
  }

  /** Evaluates an invalid call again, whose dependencies are valid. */
  method EvaluateOne(c: CallNode, ghost S: set<CallNode>, ghost g: Edges, ghost h: Edges, ghost from: set<CallNode>)
    returns (ghost cleared: set<CallNode>)
    requires InState(S, g, h, from) && Acyclic(g) && Narrow(g) && c in Propagation.Deleted(S)
    requires Into(g, Propagation.Deleted(S), c) == {}
    modifies S`falsecount, S`deleted, S`computeDirectly
    ensures InState(S, g, Cut(h, c), from)
    ensures R.Done(S) == old(R.Done(S)) - cleared && c in cleared
    ensures Propagation.Deleted(S) == old(Propagation.Deleted(S)) - cleared
  {
    NarrowUndo(g, h, from, Propagation.Deleted(S), Propagation.FalseCounts(S), c);
    cleared := UndoGraphCall(c, S, g, h, from);
  }

  /** Evaluates the next call of the list again, unless it has become valid meanwhile. */
  method EvaluateNext(list: seq<CallNode>, i: nat, ghost S: set<CallNode>, ghost g: Edges, ghost inn: Edges,
      ghost h: Edges,
      ghost from: set<CallNode>, ghost live: set<CallNode>) returns (again: bool, ghost h': Edges)
    requires Acyclic(g) && Narrow(g) && Converse(g, inn) && R.Precedes(inn, live, list, [])
    requires InState(S, g, h, from) && 0 < i && Evaluated(list, i, Propagation.Deleted(S), R.Done(S))
    requires list[i - 1] in S && !list[i - 1].leaf
    requires forall n :: n in Propagation.Deleted(S) ==> n in live && !n.leaf
    modifies S`falsecount, S`deleted, S`computeDirectly
    ensures InState(S, g, h', from) && Evaluated(list, i - 1, Propagation.Deleted(S), R.Done(S))
    ensures Propagation.Deleted(S) <= old(Propagation.Deleted(S))
    ensures h' == if again then Cut(h, list[i - 1]) else h
  {
    var c := list[i - 1];
    ghost var deleted, fc, flagged := Propagation.Deleted(S), Propagation.FalseCounts(S), R.Done(S);
    NarrowDue(g, h, from, deleted, fc, c);
    assert c.falsecount == fc[c];
    again := c.falsecount > 0;
    if again {
      DependenciesFirst(g, inn, live, list, i, deleted);
      ghost var cleared := EvaluateOne(c, S, g, h, from);
      h' := Cut(h, c);
      EvaluatedMore(list, i, deleted, flagged, cleared);
    } else {
      h' := h;
      EvaluatedMore(list, i, deleted, flagged, {});
    }
  }

  /** Without the edges into the calls at xs. */
  ghost function Cuts(e: Edges, xs: seq<CallNode>): Edges {
    if xs == [] then e else Cut(Cuts(e, xs[..|xs| - 1]), xs[|xs| - 1])
  }

  lemma CutsMore(e: Edges, xs: seq<CallNode>, x: CallNode)
    ensures Cuts(e, xs + [x]) == Cut(Cuts(e, xs), x)
  {
    assert (xs + [x])[..|xs|] == xs;
  }

  /** Evaluates the calls of a list again, from its end. */
  method EvaluateList(list: seq<CallNode>, ghost S: set<CallNode>, ghost g: Edges, ghost inn: Edges, ghost h: Edges,
      ghost from: set<CallNode>, ghost live: set<CallNode>) returns (ghost done: seq<CallNode>)
    requires Acyclic(g) && Narrow(g) && Converse(g, inn) && R.Precedes(inn, live, list, []) && InState(S, g, h, from)
    requires Evaluated(list, |list|, Propagation.Deleted(S), R.Done(S))
    requires forall n :: n in list ==> n in S && !n.leaf
    requires forall n :: n in Propagation.Deleted(S) ==> n in live && !n.leaf
    modifies S`falsecount, S`deleted, S`computeDirectly
    ensures InState(S, g, Cuts(h, done), from) && Evaluated(list, 0, Propagation.Deleted(S), R.Done(S))
    ensures forall n :: n in done ==> n in list
  {
    done := [];
    ghost var due, deleted := h, Propagation.Deleted(S);
    var i := |list|;
    while i > 0
      invariant 0 <= i <= |list| && Propagation.Deleted(S) <= deleted && due == Cuts(h, done)
      invariant InState(S, g, due, from) && Evaluated(list, i, Propagation.Deleted(S), R.Done(S))
      invariant forall n :: n in done ==> n in list
    {
      var x := list[i - 1];
      assert x in list;
      CutsMore(h, done, x);
      var again;
      again, due := EvaluateNext(list, i, S, g, inn, due, from, live);
      done := if again then done + [x] else done;
      i := i - 1;
    }
  }

  /** Evaluates an invalid call again, after the invalid calls it depends on. If all of them turn out
      to be unchanged, all of them are valid, and invalid is what is affected otherwise. */
  method Reevaluate(c: CallNode, ghost S: set<CallNode>, ghost g: Edges, ghost inn: Edges, ghost h: Edges,
      ghost from: set<CallNode>) returns (ok: bool, list: seq<CallNode>, ghost done: seq<CallNode>)
    requires InState(S, g, h, from) && Acyclic(g) && Narrow(g) && HoldsIn(S, inn) && Converse(g, inn)
    requires c in S && c.deleted && (forall n :: n in R.Done(S) ==> n.leaf)
    requires forall n :: n in S && !n.leaf ==> n.hasGoal && n.completed
    modifies S`falsecount, S`deleted, S`computeDirectly
    ensures ok && R.Lists(list, Hit(inn, old(R.Live(S)), c)) && forall n :: n in list ==> n in S && !n.deleted
    ensures (forall n :: n in done ==> n in list) && InState(S, g, Cuts(h, done), from)
    ensures forall n :: n in R.Done(S) ==> n.leaf
  {
    ghost var live := R.Live(S);
    ConverseInside(g, inn);
    ConverseAcyclic(g, inn, live);
    AllLive(S, g, h, from);
    ok, list := R.CallsToReevaluate(c, S, inn);
    assert R.Live(S) == live;
    ListInvalid(S, g, h, from, inn, live, list, c);
    done := EvaluateList(list, S, g, inn, h, from, live);
    assert list[0..] == list;
    assert forall n :: n in list ==> n !in Propagation.Deleted(S);
  }

  /** Before, the calls of the list are exactly the invalid calls that c depends on. */
  lemma ListInvalid(S: set<CallNode>, g: Edges, h: Edges, from: set<CallNode>, inn: Edges, live: set<CallNode>,
      list: seq<CallNode>, c: CallNode)
    requires InState(S, g, h, from) && Narrow(g) && inn.Keys == S && live == R.Live(S) && c in Propagation.Deleted(S)
    requires R.Lists(list, Hit(inn, live, c)) && forall n :: n in S && !n.leaf ==> n.hasGoal
    ensures forall n :: n in list ==> n in Propagation.Deleted(S)
  {
    AllLive(S, g, h, from);
    forall n | n in list ensures n in Propagation.Deleted(S) {
      assert n in Hit(inn, live, c) && !n.leaf;
      var k: nat :| ReachIn(inn, live, c, n, k);
      assert k > 0 ==> n in live;
    }
  }

  lemma ConverseInside(g: Edges, inn: Edges)
    requires Converse(g, inn) && WellFormed(g)
    ensures R.Inside(inn) && R.LeavesLast(inn)
  {
    forall n, i | n in inn && 0 <= i < |inn[n]| ensures inn[n][i] in inn {
      assert inn[n][i] in inn[n];
    }
    forall n | n in inn && inn[n] != [] ensures !n.leaf {
      var p := inn[n][0];
      assert p in inn[n];
      var i :| 0 <= i < |g[p]| && g[p][i] == n;
    }
  }

  lemma AllLive(S: set<CallNode>, g: Edges, h: Edges, from: set<CallNode>)
    requires InState(S, g, h, from) && Narrow(g) && forall n :: n in S && !n.leaf ==> n.hasGoal
    ensures forall n :: n in Propagation.Deleted(S) ==> n in R.Live(S) && !n.leaf
    ensures forall n :: n in R.Live(S) && !n.leaf ==> n in Propagation.Deleted(S)
  {
    forall n | n in S && (n in Propagation.Deleted(S) || (n in R.Live(S) && !n.leaf))
      ensures !n.leaf && n in R.Live(S) && n in Propagation.Deleted(S)
    {
      if n in Propagation.Deleted(S) {
        InvalidPredecessor(h, from, n);
      }
      NarrowDue(g, h, from, Propagation.Deleted(S), Propagation.FalseCounts(S), n);
      assert Propagation.FalseCounts(S)[n] == n.falsecount;
    }
  }
}
