/** What goes wrong when a 14-bit counter of a node wraps around. */
module CounterWraps {
  import opened CallGraph
  import opened Sequences
  import opened EdgeUpdates
  import InvalidState
  import Reevaluation
  import Propagation

  ghost function Of(calls: seq<CallNode>): set<CallNode> {
    set m | m in calls
  }

  /** The graph in which a leaf affects every call of `mids`, and each of them affects `top`. */
  ghost predicate Fan(S: set<CallNode>, out: Edges, leaf: CallNode, mids: seq<CallNode>, top: CallNode) {
    && leaf.leaf && !top.leaf && top !in mids && leaf !in mids && Distinct(mids)
    && out.Keys == S && leaf in S && out[leaf] == mids && top in S && out[top] == []
    && (forall m {:trigger out[m]} {:trigger m in mids} :: m in mids ==> m in S && !m.leaf && out[m] == [top])
    && forall n {:trigger n in S} :: n in S ==> n == leaf || n == top || n in mids
  }

  /** All nodes are valid, and the calls are completed. */
  ghost predicate Unspoilt(S: set<CallNode>)
    reads S`deleted, S`falsecount, S`completed
  {
    forall n :: n in S ==> !n.deleted && n.falsecount == 0 && (!n.leaf ==> n.completed)
  }

  lemma FanMore(S: set<CallNode>, out: Edges, leaf: CallNode, mids: seq<CallNode>, top: CallNode, m: CallNode)
    requires Fan(S, out, leaf, mids, top) && m !in S && !m.leaf
    ensures Fan(S + {m}, out[m := [top]][leaf := mids + [m]], leaf, mids + [m], top)
  {
    DistinctSnoc(mids, m);
    assert forall x :: x in mids + [m] <==> x in mids || x == m;
  }

  /** One more call in between. */
  method AddMid(leaf: CallNode, mids: seq<CallNode>, top: CallNode, ghost S: set<CallNode>) returns (m: CallNode)
    requires Fan(S, OutEdges(S), leaf, mids, top) && Unspoilt(S)
    modifies leaf`outedges
    ensures fresh(m) && Fan(S + {m}, OutEdges(S + {m}), leaf, mids + [m], top) && Unspoilt(S + {m})
  {
    ghost var out := OutEdges(S);
    m := new CallNode(|mids| + 2, false, true);
    m.completed := true;
    m.outedges := [top];
    FanMore(S, out, leaf, mids, top, m);
    leaf.outedges := leaf.outedges + [m];
    ghost var more: Edges := out[m := [top]];
    assert OutEdges(S + {m}) == more[leaf := mids + [m]];
  }

  /** Builds such a graph with n calls in between. */
  method BuildFan(n: nat) returns (leaf: CallNode, mids: seq<CallNode>, top: CallNode, ghost S: set<CallNode>)
    ensures |mids| == n && fresh(S) && Fan(S, OutEdges(S), leaf, mids, top) && Unspoilt(S)
  {
    leaf := new CallNode(0, true, true);
    top := new CallNode(1, false, true);
    top.completed := true;
    mids := [];
    S := {leaf, top};
    while |mids| < n
      invariant |mids| <= n && fresh(S) && Fan(S, OutEdges(S), leaf, mids, top) && Unspoilt(S)
    {
      var m := AddMid(leaf, mids, top, S);
      S, mids := S + {m}, mids + [m];
    }
  }

  lemma FanWellFormed(S: set<CallNode>, e: Edges, leaf: CallNode, mids: seq<CallNode>, top: CallNode)
    requires Fan(S, e, leaf, mids, top)
    ensures WellFormed(e)
  {
    forall n | n in e ensures Distinct(e[n]) && (forall i :: 0 <= i < |e[n]| ==> e[n][i] in e && !e[n][i].leaf) {
      if n == leaf {
        assert forall i :: 0 <= i < |mids| ==> mids[i] in mids;
      } else if n != top {
        assert n in mids && e[n] == [top];
      }
    }
  }

  /** What the leaf affects: all calls. */
  lemma FanAffected(S: set<CallNode>, e: Edges, leaf: CallNode, mids: seq<CallNode>, top: CallNode)
    requires Fan(S, e, leaf, mids, top) && mids != []
    ensures var all := InvalidState.Affected(e, {leaf});
      all == Of(mids) + {top} && Into(e, {leaf} + all, top) == Of(mids) && |Of(mids)| == |mids|
  {
    FanWellFormed(S, e, leaf, mids, top);
    forall m | m in mids ensures m in InvalidState.Affected(e, {leaf}) {
      InvalidState.AffectedStep(e, {leaf}, leaf, m);
    }
    assert mids[0] in mids;
    InvalidState.AffectedStep(e, {leaf}, mids[0], top);
    InvalidState.LeafUnaffected(e, {leaf}, leaf);
    DistinctSize(mids);
  }

  /** A call that only the leaf affects stays invalid. */
  lemma MidKept(S: set<CallNode>, e: Edges, leaf: CallNode, mids: seq<CallNode>, top: CallNode, deleted: set<CallNode>,
      fc: InvalidState.FalseCounts, cleared: set<CallNode>, deleted': set<CallNode>, fc': InvalidState.FalseCounts,
      c: CallNode, m: CallNode)
    requires Fan(S, e, leaf, mids, top) && WellFormed(e) && InvalidState.Invalid(e, {leaf}, deleted, fc)
    requires InvalidState.Reevaluated(e, c, cleared, deleted, fc, deleted', fc') && cleared <= deleted
    requires c in mids && m in mids && m != c && m in deleted
    ensures m !in cleared
  {
    InvalidState.LeafUnaffected(e, {leaf}, leaf);
    assert forall p :: p in e && m in e[p] ==> p == leaf;
    assert Into(e, cleared + {c}, m) == {};
    InvalidState.ClearedByCount(e, {leaf}, c, cleared, deleted, fc, deleted', fc', m);
  }

  /** With one call more than fits the field, a single unchanged one makes the top valid. */
  lemma TopCleared(S: set<CallNode>, e: Edges, leaf: CallNode, mids: seq<CallNode>, top: CallNode,
      deleted: set<CallNode>,
      fc: InvalidState.FalseCounts, cleared: set<CallNode>, deleted': set<CallNode>, fc': InvalidState.FalseCounts)
    requires Fan(S, e, leaf, mids, top) && WellFormed(e) && |mids| == FIELD_LIMIT + 1
    requires InvalidState.Invalid(e, {leaf}, deleted, fc) && deleted == Of(mids) + {top}
    requires |Into(e, {leaf} + deleted, top)| == FIELD_LIMIT + 1
    requires InvalidState.Reevaluated(e, mids[0], cleared, deleted, fc, deleted', fc')
    ensures top !in deleted' && top in InvalidState.Affected(InvalidState.Cut(e, mids[0]), {leaf})
  {
    var c, other := mids[0], mids[1];
    assert c in mids && other in mids && Differ(mids, 0, 1);
    InvalidState.CutWellFormed(e, c);
    InvalidState.AffectedStep(InvalidState.Cut(e, c), {leaf}, leaf, other);
    InvalidState.WrappedTurnsValid(e, {leaf}, deleted, fc, top, c, cleared, deleted', fc', other);
  }

  /** All the others are invalid still, and affect the top. */
  lemma FanUndone(S: set<CallNode>, e: Edges, leaf: CallNode, mids: seq<CallNode>, top: CallNode,
      deleted: set<CallNode>,
      fc: InvalidState.FalseCounts, cleared: set<CallNode>, deleted': set<CallNode>, fc': InvalidState.FalseCounts)
    requires Fan(S, e, leaf, mids, top) && |mids| == FIELD_LIMIT + 1
    requires InvalidState.Invalid(e, {leaf}, deleted, fc)
    requires InvalidState.Reevaluated(e, mids[0], cleared, deleted, fc, deleted', fc')
    ensures deleted' == Of(mids) - {mids[0]} && |deleted'| == FIELD_LIMIT
    ensures top in InvalidState.Affected(InvalidState.Cut(e, mids[0]), {leaf})
  {
    var c := mids[0];
    assert c in mids;
    FanWellFormed(S, e, leaf, mids, top);
    FanAffected(S, e, leaf, mids, top);
    InvalidState.ClearedWereInvalid(e, {leaf}, c, cleared, deleted, fc, deleted', fc');
    TopCleared(S, e, leaf, mids, top, deleted, fc, cleared, deleted', fc');
    forall m | m in mids && m != c ensures m !in cleared {
      MidKept(S, e, leaf, mids, top, deleted, fc, cleared, deleted', fc', c, m);
    }
  }

  /** Invalidates the leaf of such a graph. */
  method InvalidateFan(leaf: CallNode, mids: seq<CallNode>, top: CallNode, ghost S: set<CallNode>, ghost e: Edges)
    requires e == OutEdges(S) && Fan(S, e, leaf, mids, top) && Unspoilt(S)
    modifies S`deleted, S`falsecount
    ensures InvalidState.Invalid(e, {leaf}, Propagation.Deleted(S), Propagation.FalseCounts(S))
  {
    FanWellFormed(S, e, leaf, mids, top);
    assert Propagation.Deleted(S) == {};
    InvalidState.CleanStart(e, Propagation.FalseCounts(S));
    ghost var h;
    var ok;
    ok, h := Reevaluation.InvalidateGraphLeaf(leaf, S, e, e, {});
    assert h == e && {} + {leaf} == {leaf};
  }

  /** One of the calls is evaluated again and turns out to be unchanged. */
  method UndoOne(leaf: CallNode, mids: seq<CallNode>, top: CallNode, ghost S: set<CallNode>, ghost e: Edges)
    requires e == OutEdges(S) && Fan(S, e, leaf, mids, top) && |mids| == FIELD_LIMIT + 1
    requires InvalidState.Invalid(e, {leaf}, Propagation.Deleted(S), Propagation.FalseCounts(S))
    modifies S`falsecount, S`deleted, S`computeDirectly
    ensures Propagation.Deleted(S) == Of(mids) - {mids[0]} && |Propagation.Deleted(S)| == FIELD_LIMIT
  {
    ghost var deleted, fc := Propagation.Deleted(S), Propagation.FalseCounts(S);
    FanWellFormed(S, e, leaf, mids, top);
    assert mids[0] in mids;
    ghost var cleared := Reevaluation.ReevaluateUnchanged(mids[0], S, e);
    FanUndone(S, e, leaf, mids, top, deleted, fc, cleared, Propagation.Deleted(S), Propagation.FalseCounts(S));
  }

  /** One more invalid call than fits the field affects the top: when a single one of them is
      evaluated again and turns out to be unchanged, the top counts as valid, though every other one
      is still invalid. */
  method TurnsValidTooSoon() returns (top: CallNode, ghost S: set<CallNode>)
    ensures top in S && !top.deleted && |Propagation.Deleted(S)| == FIELD_LIMIT
    ensures forall m :: m in Propagation.Deleted(S) ==> m.outedges == [top]
  {
    var leaf, mids;
    leaf, mids, top, S := BuildFan(FIELD_LIMIT + 1);
    ghost var e := OutEdges(S);
    InvalidateFan(leaf, mids, top, S, e);
    UndoOne(leaf, mids, top, S, e);
    assert top !in Propagation.Deleted(S);
    forall m | m in Propagation.Deleted(S) ensures m.outedges == [top] {
      assert m in mids && e[m] == m.outedges;
    }
  }

  /** One more node that c affects. */
  method AddOutEdge(c: CallNode, g: Counters, ghost S: set<CallNode>, ghost out: Edges, ghost inn: Edges)
    returns (ghost S': set<CallNode>, ghost out': Edges, ghost inn': Edges)
    requires c in S && Consistent(S, g, out, inn) && Ids(S, g.total)
    modifies c`outedges, c`outcount, g
    ensures S <= S' && fresh(S' - S) && Consistent(S', g, out', inn') && Ids(S', g.total)
    ensures |c.outedges| == |old(c.outedges)| + 1
  {
    var n := AddCallNode(false, true, g, S, out, inn);
    assert n !in out[c] by {
      assert n in out[c] ==> Edge(out, c, n);
    }
    S', out', inn' := S + {n}, out[n := []], inn[n := []];
    out', inn' := AddCallEdge(c, n, g, S', out', inn');
  }

  /** A node with as many out-edges as the field has values is freed with all of them, if
      `EdgeUpdates.DeleteOutedges`, which the engine runs first, is left out. */
  method FreedWithEdges() returns (ok: bool, c: CallNode)
    ensures ok && |c.outedges| == FIELD_LIMIT && Distinct(c.outedges)
  {
    var g := new Counters();
    EmptyConsistent(g);
    c := AddCallNode(true, true, g, {}, map[], map[]);
    ghost var S := {c};
    ghost var out: Edges := map[c := []];
    ghost var inn: Edges := map[c := []];
    while |c.outedges| < FIELD_LIMIT
      invariant |c.outedges| <= FIELD_LIMIT && fresh(g) && fresh(S) && c in S && Consistent(S, g, out, inn)
      invariant Ids(S, g.total)
      decreases FIELD_LIMIT - |c.outedges|
    {
      S, out, inn := AddOutEdge(c, g, S, out, inn);
    }
    FreedWithEdgesIff(S, out, c);
    assert Distinct(out[c]);
    ok := DeleteCallNode(c, g);
  }
}
