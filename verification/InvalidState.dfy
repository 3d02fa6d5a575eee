/** What the invalid set and the falsecounts are after any invalidations of leaves, and what is left
    of them when a call is evaluated again without change. */
module InvalidState {
  import opened CallGraph
  import opened Sequences
  import Propagation

  type FalseCounts = map<CallNode, Count14>

  /** The nodes some leaf in `from` reaches along at least one edge. */
  ghost function Affected(e: Edges, from: set<CallNode>): set<CallNode> {
    set n | n in e && exists l {:trigger ReachPlus(e, e.Keys, l, n)} :: l in from && ReachPlus(e, e.Keys, l, n)
  }

  /** The falsecount of a call counts its predecessors in `from + deleted`. The count of a leaf
      is never looked at. */
  ghost predicate Counted(e: Edges, from: set<CallNode>, deleted: set<CallNode>, fc: FalseCounts) {
    && from <= e.Keys && deleted <= e.Keys && (forall l :: l in from ==> l.leaf)
    && fc.Keys == e.Keys
    && forall n {:trigger Into(e, from + deleted, n)} ::
      n in e && !n.leaf ==> fc[n] == Bump(0, |Into(e, from + deleted, n)|)
  }

  /** The state in which exactly the leaves `from` have been invalidated: the invalid nodes are
      those they affect, and a falsecount counts the invalidated or invalid predecessors. */
  ghost predicate Invalid(e: Edges, from: set<CallNode>, deleted: set<CallNode>, fc: FalseCounts) {
    Counted(e, from, deleted, fc) && deleted == Affected(e, from)
  }

  ghost predicate Acyclic(e: Edges) {
    forall n :: n in e ==> !ReachPlus(e, e.Keys, n, n)
  }

  lemma CleanStart(e: Edges, fc: FalseCounts)
    requires fc.Keys == e.Keys && forall n :: n in e && !n.leaf ==> fc[n] == 0
    ensures Invalid(e, {}, {}, fc)
  {
    assert Affected(e, {}) == {};
    forall n | n in e ensures Into(e, {} + {}, n) == {} {
    }
  }

  lemma CardinalityMono<T>(a: set<T>, b: set<T>)
    requires a <= b
    ensures |a| <= |b| && (|a| == |b| ==> a == b)
  {
    assert b == a + (b - a);
    assert |b| == |a| + |b - a|;
  }

  lemma ReachPlusNonLeaf(e: Edges, l: CallNode, n: CallNode)
    requires WellFormed(e) && ReachPlus(e, e.Keys, l, n)
    ensures n in e && !n.leaf
  {
    var k: nat :| k > 0 && ReachIn(e, e.Keys, l, n, k);
    var y :| y in e && n in e[y] && ReachIn(e, e.Keys, l, y, k - 1);
    var i :| 0 <= i < |e[y]| && e[y][i] == n;
  }

  lemma AffectedStep(e: Edges, from: set<CallNode>, p: CallNode, n: CallNode)
    requires WellFormed(e) && p in e && n in e[p] && (p in from || p in Affected(e, from))
    ensures n in Affected(e, from)
  {
    var i :| 0 <= i < |e[p]| && e[p][i] == n;
    if p in from {
      assert ReachIn(e, e.Keys, p, p, 0);
      ReachStep(e, e.Keys, p, p, n);
    } else {
      var l :| l in from && ReachPlus(e, e.Keys, l, p);
      ReachStep(e, e.Keys, l, p, n);
    }
  }

  /** Once the affected set is closed, reaching through valid nodes misses nothing new. */
  lemma {:induction false} ReachValidOrAffected(e: Edges, from: set<CallNode>, c: CallNode, x: CallNode, k: nat)
    requires WellFormed(e) && c in e && c !in Affected(e, from) && ReachIn(e, e.Keys, c, x, k)
    ensures x in Affected(e, from) || Reach(e, e.Keys - Affected(e, from), c, x)
  {
    var valid := e.Keys - Affected(e, from);
    if k == 0 {
      assert ReachIn(e, valid, c, c, 0);
    } else {
      var y :| y in e && x in e[y] && ReachIn(e, e.Keys, c, y, k - 1);
      ReachValidOrAffected(e, from, c, y, k - 1);
      if y in Affected(e, from) {
        AffectedStep(e, from, y, x);
      } else if x in valid {
        ReachStep(e, valid, c, y, x);
      }
    }
  }

  lemma AffectedGrows(e: Edges, from: set<CallNode>, c: CallNode, hit: set<CallNode>)
    requires WellFormed(e) && c in e && c.leaf
    requires hit == Hit(e, e.Keys - Affected(e, from), c)
    ensures Affected(e, from + {c}) == Affected(e, from) + (hit - {c})
    ensures c in hit && forall n :: n in hit && n != c ==> n in e && !n.leaf && n !in Affected(e, from)
  {
    var valid := e.Keys - Affected(e, from);
    assert ReachIn(e, valid, c, c, 0);
    forall n | n in hit && n != c
      ensures n in valid && !n.leaf && n in Affected(e, from + {c})
    {
      var k: nat :| ReachIn(e, valid, c, n, k);
      ReachMono(e, valid, c, n, k);
      assert ReachPlus(e, e.Keys, c, n);
      ReachPlusNonLeaf(e, c, n);
    }
    forall n | n in Affected(e, from + {c}) ensures n in Affected(e, from) + (hit - {c}) {
      var l :| l in from + {c} && ReachPlus(e, e.Keys, l, n);
      ReachPlusNonLeaf(e, l, n);
      if l == c && c !in Affected(e, from) {
        var k: nat :| k > 0 && ReachIn(e, e.Keys, c, n, k);
        ReachValidOrAffected(e, from, c, n, k);
      }
      LeafUnaffected(e, from, c);
    }
  }

  lemma LeafUnaffected(e: Edges, from: set<CallNode>, c: CallNode)
    requires WellFormed(e) && c.leaf
    ensures c !in Affected(e, from)
  {
    forall l | l in from && ReachPlus(e, e.Keys, l, c) ensures false {
      ReachPlusNonLeaf(e, l, c);
    }
  }

  /** Invalidating one more leaf: `Invalidation.InvalidateCall` leads from the state for `from`
      to the state for `from + {c}`. */
  lemma InvalidateLeaf(e: Edges, from: set<CallNode>, c: CallNode, deleted: set<CallNode>, fc: FalseCounts,
      deleted': set<CallNode>, fc': FalseCounts)
    requires WellFormed(e) && Invalid(e, from, deleted, fc) && c in e && c.leaf && c !in from
    requires var hit := Hit(e, e.Keys - deleted, c);
      deleted' == deleted + (set n | n in hit && !n.leaf)
    requires fc'.Keys == e.Keys && forall n {:trigger Into(e, Hit(e, e.Keys - deleted, c), n)} :: n in e ==>
      fc'[n] == Bump(fc[n], (if n == c then 1 else 0) + |Into(e, Hit(e, e.Keys - deleted, c), n)|)
    ensures Invalid(e, from + {c}, deleted', fc')
  {
    var hit := Hit(e, e.Keys - deleted, c);
    InvalidatedSets(e, from, c, hit);
    CountsGrow(e, c, from + deleted, hit, fc, fc');
  }

  lemma InvalidatedSets(e: Edges, from: set<CallNode>, c: CallNode, hit: set<CallNode>)
    requires WellFormed(e) && c in e && c.leaf && c !in from && (forall l :: l in from ==> l.leaf)
    requires hit == Hit(e, e.Keys - Affected(e, from), c)
    ensures (from + Affected(e, from)) !! hit && c in hit
    ensures Affected(e, from) + (set n | n in hit && !n.leaf) == Affected(e, from + {c})
    ensures from + {c} + Affected(e, from + {c}) == from + Affected(e, from) + hit
  {
    AffectedGrows(e, from, c, hit);
    LeafUnaffected(e, from, c);
  }

  lemma CountsGrow(e: Edges, c: CallNode, a: set<CallNode>, hit: set<CallNode>, fc: FalseCounts, fc': FalseCounts)
    requires a !! hit && fc.Keys == fc'.Keys == e.Keys && c.leaf
    requires forall n {:trigger Into(e, a, n)} :: n in e && !n.leaf ==> fc[n] == Bump(0, |Into(e, a, n)|)
    requires forall n {:trigger Into(e, hit, n)} ::
      n in e ==> fc'[n] == Bump(fc[n], (if n == c then 1 else 0) + |Into(e, hit, n)|)
    ensures forall n {:trigger Into(e, a + hit, n)} :: n in e && !n.leaf ==> fc'[n] == Bump(0, |Into(e, a + hit, n)|)
  {
    forall n {:trigger Into(e, a + hit, n)} | n in e && !n.leaf ensures fc'[n] == Bump(0, |Into(e, a + hit, n)|) {
      assert fc[n] == Bump(0, |Into(e, a, n)|) && fc'[n] == Bump(fc[n], |Into(e, hit, n)|);
      Propagation.IntoSplit(e, a, hit, n);
      BumpTwice(0, |Into(e, a, n)|, |Into(e, hit, n)|);
    }
  }

  /** What `Propagation.PropagateNoChange` does to the deleted set and the falsecounts. */
  ghost predicate Propagated(e: Edges, c: CallNode, cleared: set<CallNode>, deleted: set<CallNode>, fc: FalseCounts,
      deleted': set<CallNode>, fc': FalseCounts)
  {
    && fc.Keys == e.Keys && fc'.Keys == e.Keys && cleared <= e.Keys && c !in cleared
    && (forall n {:trigger Into(e, cleared + {c}, n)} ::
        n in e ==> fc'[n] == Propagation.Drop(fc[n], |Into(e, cleared + {c}, n)|))
    && (forall n {:trigger n in cleared} :: n in e ==> (n in cleared <==> fc[n] > 0 && fc'[n] == 0))
    && deleted' == deleted - cleared
  }

  lemma InvalidPredecessor(e: Edges, from: set<CallNode>, x: CallNode)
    requires WellFormed(e) && x in Affected(e, from)
    ensures Into(e, from + Affected(e, from), x) != {} && !x.leaf
  {
    var l :| l in from && ReachPlus(e, e.Keys, l, x);
    ReachPlusNonLeaf(e, l, x);
    var k: nat :| k > 0 && ReachIn(e, e.Keys, l, x, k);
    var y :| y in e && x in e[y] && ReachIn(e, e.Keys, l, y, k - 1);
    AffectedPredecessor(e, from, l, y, k - 1);
    assert y in Into(e, from + Affected(e, from), x);
  }

  lemma AffectedPredecessor(e: Edges, from: set<CallNode>, l: CallNode, y: CallNode, k: nat)
    requires l in from && y in e && ReachIn(e, e.Keys, l, y, k)
    ensures y in from + Affected(e, from)
  {
    if k > 0 {
      assert ReachPlus(e, e.Keys, l, y);
    }
  }

  ghost function Upstream(e: Edges, x: CallNode): set<CallNode> {
    set n | n in e && ReachPlus(e, e.Keys, n, x)
  }

  lemma UpstreamShrinks(e: Edges, p: CallNode, x: CallNode)
    requires Acyclic(e) && p in e && x in e && x in e[p]
    ensures Upstream(e, p) < Upstream(e, x)
  {
    assert ReachIn(e, e.Keys, p, p, 0);
    ReachStep(e, e.Keys, p, p, x);
    forall n | n in Upstream(e, p) ensures n in Upstream(e, x) {
      var k: nat :| k > 0 && ReachIn(e, e.Keys, n, p, k);
      ReachStep(e, e.Keys, n, p, x);
    }
    assert p in Upstream(e, x) && p !in Upstream(e, p);
  }

  /** The edges without those into c. */
  ghost function Cut(e: Edges, c: CallNode): (r: Edges)
    ensures r.Keys == e.Keys
    ensures forall p, x {:trigger x in r[p]} {:trigger x in e[p]} :: p in e && x in r[p] ==> x in e[p] && x != c
    ensures forall p, x {:trigger x in r[p]} {:trigger x in e[p]} :: p in e && x in e[p] && x != c ==> x in r[p]
  {
    map p | p in e :: Except(e[p], c)
  }

  lemma CutWellFormed(e: Edges, c: CallNode)
    requires WellFormed(e)
    ensures WellFormed(Cut(e, c))
  {
    forall n | n in e ensures Distinct(Cut(e, c)[n]) {
      DistinctExcept(e[n], c);
    }
    forall n, i | n in e && 0 <= i < |Cut(e, c)[n]| ensures Cut(e, c)[n][i] in e && !Cut(e, c)[n][i].leaf {
      var x := Cut(e, c)[n][i];
      assert x in Cut(e, c)[n];
      var j :| 0 <= j < |e[n]| && e[n][j] == x;
    }
  }

  lemma {:induction false} CutReach(e: Edges, c: CallNode, l: CallNode, x: CallNode, k: nat)
    requires ReachIn(Cut(e, c), e.Keys, l, x, k)
    ensures ReachIn(e, e.Keys, l, x, k)
    ensures k > 0 ==> x != c
  {
    if k > 0 {
      var y :| y in e && x in Cut(e, c)[y] && ReachIn(Cut(e, c), e.Keys, l, y, k - 1);
      CutReach(e, c, l, y, k - 1);
    }
  }

  /** Less is affected, and not c. */
  lemma CutAffected(e: Edges, from: set<CallNode>, c: CallNode)
    ensures Affected(Cut(e, c), from) <= Affected(e, from) && c !in Affected(Cut(e, c), from)
  {
    forall n | n in Affected(Cut(e, c), from) ensures n in Affected(e, from) && n != c {
      var l :| l in from && ReachPlus(Cut(e, c), e.Keys, l, n);
      var k: nat :| k > 0 && ReachIn(Cut(e, c), e.Keys, l, n, k);
      CutReach(e, c, l, n, k);
      assert ReachPlus(e, e.Keys, l, n);
    }
  }

  lemma CutInto(e: Edges, c: CallNode, some: set<CallNode>, x: CallNode)
    ensures Into(Cut(e, c), some, x) == if x == c then {} else Into(e, some, x)
  {
  }

  /** All invalid predecessors of x, and those of them that are not affected but through c. */
  ghost function Before(e: Edges, from: set<CallNode>, x: CallNode): nat {
    |Into(e, from + Affected(e, from), x)|
  }

  ghost function Undone(e: Edges, from: set<CallNode>, c: CallNode, x: CallNode): nat {
    |Into(e, Affected(e, from) - Affected(Cut(e, c), from), x)|
  }

  /** The count of x, with k invalid predecessors of which p become valid, comes down to zero
      exactly when it should. */
  predicate Revalidates(k: nat, p: nat) {
    0 < k % FIELD_LIMIT <= p <==> k == p
  }

  /** And otherwise it is again the number of those left, as a 14-bit field. */
  predicate CountsRight(k: nat, p: nat) {
    p <= k && Propagation.Drop(k % FIELD_LIMIT, p) == (k - p) % FIELD_LIMIT
  }

  /** Undoing c makes valid what it should. */
  ghost predicate Undoable(e: Edges, from: set<CallNode>, c: CallNode) {
    forall n {:trigger Before(e, from, n)} :: n in Affected(e, from) && n != c ==>
      Revalidates(Before(e, from, n), Undone(e, from, c, n))
  }

  /** Undoing c leaves the state of the edges without those into c. */
  ghost predicate Restorable(e: Edges, from: set<CallNode>, c: CallNode) {
    && Undoable(e, from, c)
    && forall n {:trigger Before(e, from, n)} :: n in Affected(e, from) && n != c ==>
      CountsRight(Before(e, from, n), Undone(e, from, c, n))
  }

  /** Without a wrap there is nothing to fear. */
  lemma NarrowRestorable(e: Edges, from: set<CallNode>, c: CallNode)
    requires WellFormed(e) && c in Affected(e, from) && (forall l :: l in from ==> l.leaf)
    requires forall n {:trigger Before(e, from, n)} :: n in Affected(e, from) ==> Before(e, from, n) < FIELD_LIMIT
    ensures Restorable(e, from, c)
  {
    forall n | n in Affected(e, from) && n != c
      ensures Revalidates(Before(e, from, n), Undone(e, from, c, n))
      ensures CountsRight(Before(e, from, n), Undone(e, from, c, n))
    {
      UndoneAll(e, from, c, n);
      NarrowCount(Before(e, from, n), Undone(e, from, c, n));
    }
  }

  lemma NarrowCount(k: nat, p: nat)
    requires p <= k && 0 < k < FIELD_LIMIT
    ensures Revalidates(k, p) && CountsRight(k, p)
  {
  }

  /** The invalid nodes are those left without c and those that become valid. */
  lemma UndoneSplit(e: Edges, from: set<CallNode>, c: CallNode)
    requires WellFormed(e) && forall l :: l in from ==> l.leaf
    ensures var left, undone := from + Affected(Cut(e, c), from), Affected(e, from) - Affected(Cut(e, c), from);
      left !! undone && left + undone == from + Affected(e, from)
  {
    CutAffected(e, from, c);
    forall l | l in from ensures l !in Affected(e, from) {
      LeafUnaffected(e, from, l);
    }
  }

  /** x becomes valid exactly when all its invalid predecessors do. */
  lemma UndoneAll(e: Edges, from: set<CallNode>, c: CallNode, x: CallNode)
    requires WellFormed(e) && x in Affected(e, from) && x != c && forall l :: l in from ==> l.leaf
    ensures Undone(e, from, c, x) <= Before(e, from, x) && Before(e, from, x) > 0
    ensures x !in Affected(Cut(e, c), from) <==> Before(e, from, x) == Undone(e, from, c, x)
    ensures |Into(e, from + Affected(Cut(e, c), from), x)| == Before(e, from, x) - Undone(e, from, c, x)
  {
    var cut, aff := Cut(e, c), Affected(Cut(e, c), from);
    UndoneSplit(e, from, c);
    InvalidPredecessor(e, from, x);
    Propagation.IntoSplit(e, from + aff, Affected(e, from) - aff, x);
    CutInto(e, c, from + aff, x);
    CutWellFormed(e, c);
    if x in aff {
      InvalidPredecessor(cut, from, x);
    } else {
      forall p | p in Into(cut, from + aff, x) ensures false {
        AffectedStep(cut, from, p, x);
      }
      assert Into(cut, from + aff, x) == {};
    }
  }

  /** The re-evaluation of c without change: its count is reset, and then
      `Propagation.PropagateNoChange` does its work. */
  ghost predicate Reevaluated(e: Edges, c: CallNode, cleared: set<CallNode>, deleted: set<CallNode>, fc: FalseCounts,
      deleted': set<CallNode>, fc': FalseCounts)
  {
    c in fc && Propagated(e, c, cleared, deleted - {c}, fc[c := 0], deleted', fc')
  }

  /** What becomes valid was invalid. */
  lemma ClearedWereInvalid(e: Edges, from: set<CallNode>, c: CallNode, cleared: set<CallNode>,
      deleted: set<CallNode>, fc: FalseCounts, deleted': set<CallNode>, fc': FalseCounts)
    requires WellFormed(e) && Invalid(e, from, deleted, fc)
    requires Reevaluated(e, c, cleared, deleted, fc, deleted', fc')
    ensures cleared <= deleted
  {
    forall x | x in cleared ensures x in deleted {
      assert |Into(e, cleared + {c}, x)| > 0;
      var p :| p in Into(e, cleared + {c}, x);
      assert x in e[p];
      var i :| 0 <= i < |e[p]| && e[p][i] == x;
      assert fc[x] == Bump(0, |Into(e, from + deleted, x)|) && fc[x] > 0;
      var q :| q in Into(e, from + deleted, x);
      AffectedStep(e, from, q, x);
    }
  }

  lemma ClearedByCount(e: Edges, from: set<CallNode>, c: CallNode, cleared: set<CallNode>,
      deleted: set<CallNode>, fc: FalseCounts, deleted': set<CallNode>, fc': FalseCounts, x: CallNode)
    requires WellFormed(e) && Invalid(e, from, deleted, fc) && x in deleted && x != c
    requires Reevaluated(e, c, cleared, deleted, fc, deleted', fc')
    ensures fc'[x] == Propagation.Drop(Before(e, from, x) % FIELD_LIMIT, |Into(e, cleared + {c}, x)|)
    ensures x in cleared <==> 0 < Before(e, from, x) % FIELD_LIMIT <= |Into(e, cleared + {c}, x)|
  {
    InvalidPredecessor(e, from, x);
    assert fc[x] == Bump(0, |Into(e, from + deleted, x)|);
  }

  /** When the counts of invalid calls are right, what becomes valid is what is affected through c
      only. */
  lemma {:induction false} ClearedExactly(e: Edges, from: set<CallNode>, c: CallNode, cleared: set<CallNode>,
      deleted: set<CallNode>, fc: FalseCounts, deleted': set<CallNode>, fc': FalseCounts, x: CallNode)
    requires WellFormed(e) && Acyclic(e) && Invalid(e, from, deleted, fc) && c in deleted
    requires Undoable(e, from, c)
    requires Reevaluated(e, c, cleared, deleted, fc, deleted', fc') && cleared <= deleted
    requires x in deleted && x != c
    ensures x in cleared <==> x !in Affected(Cut(e, c), from)
    decreases Upstream(e, x)
  {
    var undone := deleted - Affected(Cut(e, c), from);
    CutAffected(e, from, c);
    forall p | p in deleted && p != c && p in e && x in e[p] ensures p in cleared <==> p in undone {
      UpstreamShrinks(e, p, x);
      ClearedExactly(e, from, c, cleared, deleted, fc, deleted', fc', p);
    }
    assert Into(e, cleared + {c}, x) == Into(e, undone, x);
    ClearedByCount(e, from, c, cleared, deleted, fc, deleted', fc', x);
    UndoneAll(e, from, c, x);
    assert Revalidates(Before(e, from, x), Undone(e, from, c, x));
  }

  /** On an acyclic graph, re-evaluating an invalid call c without change leaves invalid exactly
      what is affected without the edges into c, if and only if the 14-bit counts of the invalid
      calls let it. */
  lemma UndoCallIff(e: Edges, from: set<CallNode>, c: CallNode, cleared: set<CallNode>,
      deleted: set<CallNode>, fc: FalseCounts, deleted': set<CallNode>, fc': FalseCounts)
    requires WellFormed(e) && Acyclic(e) && Invalid(e, from, deleted, fc) && c in deleted
    requires Reevaluated(e, c, cleared, deleted, fc, deleted', fc')
    ensures deleted' == Affected(Cut(e, c), from) <==> Undoable(e, from, c)
  {
    ClearedWereInvalid(e, from, c, cleared, deleted, fc, deleted', fc');
    CutAffected(e, from, c);
    if Undoable(e, from, c) {
      forall n | n in deleted && n != c ensures n in deleted' <==> n in Affected(Cut(e, c), from) {
        ClearedExactly(e, from, c, cleared, deleted, fc, deleted', fc', n);
      }
    }
    if deleted' == Affected(Cut(e, c), from) {
      assert cleared + {c} == deleted - Affected(Cut(e, c), from);
      forall n | n in deleted && n != c ensures Revalidates(Before(e, from, n), Undone(e, from, c, n)) {
        ClearedByCount(e, from, c, cleared, deleted, fc, deleted', fc', n);
        UndoneAll(e, from, c, n);
      }
    }
  }

  /** And it leaves the state of the edges without those into c, if and only if the counts that
      remain come out right too. */
  lemma UndoCall(e: Edges, from: set<CallNode>, c: CallNode, cleared: set<CallNode>,
      deleted: set<CallNode>, fc: FalseCounts, deleted': set<CallNode>, fc': FalseCounts)
    requires WellFormed(e) && Acyclic(e) && Invalid(e, from, deleted, fc) && c in deleted
    requires Reevaluated(e, c, cleared, deleted, fc, deleted', fc')
    ensures Invalid(Cut(e, c), from, deleted', fc') <==> Restorable(e, from, c)
  {
    UndoCallIff(e, from, c, cleared, deleted, fc, deleted', fc');
    if Undoable(e, from, c) {
      ClearedWereInvalid(e, from, c, cleared, deleted, fc, deleted', fc');
      CutAffected(e, from, c);
      assert cleared + {c} == deleted - deleted';
      forall n | n in e && !n.leaf
        ensures RightCount(e, from, c, deleted', fc', n) <==>
          (n in deleted && n != c ==> CountsRight(Before(e, from, n), Undone(e, from, c, n)))
      {
        CountAfter(e, from, c, cleared, deleted, fc, deleted', fc', n);
      }
      if Invalid(Cut(e, c), from, deleted', fc') {
        forall n | n in deleted && n != c ensures CountsRight(Before(e, from, n), Undone(e, from, c, n)) {
          InvalidPredecessor(e, from, n);
          assert RightCount(e, from, c, deleted', fc', n);
        }
      } else if Restorable(e, from, c) {
        forall n | n in e && !n.leaf ensures fc'[n] == Bump(0, |Into(Cut(e, c), from + deleted', n)|) {
          assert n in deleted ==> Before(e, from, n) >= 0;
          assert RightCount(e, from, c, deleted', fc', n);
        }
      }
    }
  }

  ghost predicate RightCount(e: Edges, from: set<CallNode>, c: CallNode, deleted': set<CallNode>, fc': FalseCounts,
      n: CallNode)
    requires n in fc'
  {
    fc'[n] == Bump(0, |Into(Cut(e, c), from + deleted', n)|)
  }

  lemma CountAfter(e: Edges, from: set<CallNode>, c: CallNode, cleared: set<CallNode>,
      deleted: set<CallNode>, fc: FalseCounts, deleted': set<CallNode>, fc': FalseCounts, n: CallNode)
    requires WellFormed(e) && Invalid(e, from, deleted, fc) && c in deleted && n in e && !n.leaf
    requires Reevaluated(e, c, cleared, deleted, fc, deleted', fc')
    requires deleted' == Affected(Cut(e, c), from) && cleared + {c} == deleted - deleted'
    ensures RightCount(e, from, c, deleted', fc', n) <==>
      (n in deleted && n != c ==> CountsRight(Before(e, from, n), Undone(e, from, c, n)))
  {
    CutInto(e, c, from + deleted', n);
    if n == c {
      assert fc'[c] == 0;
    } else if n in deleted {
      ClearedByCount(e, from, c, cleared, deleted, fc, deleted', fc', n);
      UndoneAll(e, from, c, n);
    } else {
      forall p | p in Into(e, from + deleted, n) ensures false {
        AffectedStep(e, from, p, n);
      }
      assert Into(e, from + deleted, n) == {};
      assert Into(e, from + deleted', n) == {} == Into(e, cleared + {c}, n);
      assert fc[n] == Bump(0, |Into(e, from + deleted, n)|);
    }
  }

  /** The falsecount of an affected node is the number of its invalid predecessors if and only
      if that number fits the 14-bit field. */
  lemma CountExactIff(e: Edges, from: set<CallNode>, deleted: set<CallNode>, fc: FalseCounts, n: CallNode)
    requires WellFormed(e) && Invalid(e, from, deleted, fc) && n in deleted
    ensures fc[n] == |Into(e, from + deleted, n)| <==> |Into(e, from + deleted, n)| < FIELD_LIMIT
  {
    InvalidPredecessor(e, from, n);
    assert fc[n] == Bump(0, |Into(e, from + deleted, n)|);
  }

  /** A node whose invalid predecessors number a multiple of the limit has falsecount zero, and
      then no propagation ever makes it valid, whatever becomes valid before it. */
  lemma WrappedStaysInvalid(e: Edges, from: set<CallNode>, deleted: set<CallNode>, fc: FalseCounts, n: CallNode,
      c: CallNode, cleared: set<CallNode>, deleted': set<CallNode>, fc': FalseCounts)
    requires WellFormed(e) && Invalid(e, from, deleted, fc) && n in deleted
    requires |Into(e, from + deleted, n)| % FIELD_LIMIT == 0
    requires n != c && Reevaluated(e, c, cleared, deleted, fc, deleted', fc')
    ensures fc[n] == fc'[n] == 0 && n in deleted'
  {
    ClearedByCount(e, from, c, cleared, deleted, fc, deleted', fc', n);
  }

  /** A node with one invalid predecessor more than a multiple of the limit becomes valid as soon
      as one of them turns out to be unchanged, however many others still affect it. */
  lemma WrappedTurnsValid(e: Edges, from: set<CallNode>, deleted: set<CallNode>, fc: FalseCounts, n: CallNode,
      c: CallNode, cleared: set<CallNode>, deleted': set<CallNode>, fc': FalseCounts, l: CallNode)
    requires WellFormed(e) && Invalid(e, from, deleted, fc) && c in deleted && n in e[c] && n != c
    requires l in Affected(Cut(e, c), from) && n in e[l] && |Into(e, from + deleted, n)| % FIELD_LIMIT == 1
    requires Reevaluated(e, c, cleared, deleted, fc, deleted', fc')
    ensures n !in deleted' && n in Affected(Cut(e, c), from)
  {
    AffectedStep(e, from, c, n);
    CutWellFormed(e, c);
    AffectedStep(Cut(e, c), from, l, n);
    assert c in Into(e, cleared + {c}, n);
    ClearedByCount(e, from, c, cleared, deleted, fc, deleted', fc', n);
  }
}
