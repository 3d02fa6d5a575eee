/** Undoing an invalidation: when a call turns out to be unchanged, the calls that were invalid
    only because of it become valid again. */
module Propagation {
  import opened CallGraph
  import opened Sequences

  type Tally = map<CallNode, nat>

  /** The field after k guarded decrements. */
  function Drop(a: Count14, k: nat): Count14 {
    if k <= a then a - k else 0
  }

  /** `paid` holds, for each node, the number of its in-edges from `from`. */
  ghost predicate Pays(e: Edges, from: set<CallNode>, paid: Tally) {
    paid.Keys == e.Keys && forall n {:trigger Into(e, from, n)} :: n in e ==> paid[n] == |Into(e, from, n)|
  }

  /** As `Pays`, with the first i out-edges of c counted too. */
  ghost predicate PaysPrefix(e: Edges, from: set<CallNode>, c: CallNode, i: nat, paid: Tally) {
    && c in e && i <= |e[c]| && paid.Keys == e.Keys
    && forall n {:trigger Into(e, from, n)} :: n in e ==>
      paid[n] == |Into(e, from, n)| + (if n in e[c][..i] then 1 else 0)
  }

  ghost predicate Dropped(S: set<CallNode>, before: map<CallNode, Count14>, paid: Tally)
    reads S`falsecount
  {
    && before.Keys == S && paid.Keys == S
    && forall n {:trigger n.falsecount} :: n in S ==> n.falsecount == Drop(before[n], paid[n])
  }

  /** The nodes whose falsecount has come down to zero have been made valid, and no others. */
  ghost predicate Revalidated(S: set<CallNode>, before: map<CallNode, Count14>, wasDeleted: set<CallNode>,
      cleared: set<CallNode>)
    reads S`falsecount, S`deleted
  {
    && before.Keys == S && cleared <= S
    && (forall n {:trigger n.falsecount} :: n in S ==> (n in cleared <==> before[n] > 0 && n.falsecount == 0))
    && (forall n {:trigger n.deleted} :: n in S ==> (n.deleted <==> n in wasDeleted && n !in cleared))
  }

  ghost function FalseCounts(S: set<CallNode>): (m: map<CallNode, Count14>)
    reads S`falsecount
    ensures m.Keys == S
  {
    map n | n in S :: n.falsecount
  }

  ghost function Deleted(S: set<CallNode>): set<CallNode>
    reads S`deleted
  {
    set n | n in S && n.deleted
  }

  lemma IntoSplit(e: Edges, a: set<CallNode>, b: set<CallNode>, n: CallNode)
    requires a !! b
    ensures |Into(e, a + b, n)| == |Into(e, a, n)| + |Into(e, b, n)|
  {
    assert Into(e, a + b, n) == Into(e, a, n) + Into(e, b, n);
    assert Into(e, a, n) !! Into(e, b, n);
  }

  lemma PaysStart(e: Edges, c: CallNode, paid: Tally)
    requires c in e && paid == (map n | n in e :: 0)
    ensures PaysPrefix(e, {}, c, 0, paid)
  {
    forall n | n in e ensures Into(e, {}, n) == {} {
    }
  }

  /** As `Pays`, with one more edge into cn. */
  ghost predicate PaysExtra(e: Edges, from: set<CallNode>, cn: CallNode, paid: Tally) {
    && paid.Keys == e.Keys
    && forall n {:trigger Into(e, from, n)} :: n in e ==> paid[n] == |Into(e, from, n)| + (if n == cn then 1 else 0)
  }

  function Sum(a: Tally, b: Tally): (r: Tally)
    requires a.Keys == b.Keys
    ensures r.Keys == a.Keys && forall n {:trigger r[n]} :: n in r ==> r[n] == a[n] + b[n]
  {
    map n | n in a :: a[n] + b[n]
  }

  /** Adding what following the next out-edge of c has paid. */
  lemma PayNext(e: Edges, from: set<CallNode>, c: CallNode, i: nat, paid: Tally, more: set<CallNode>, paid2: Tally,
      cn: CallNode)
    requires WellFormed(e) && c in e && PaysPrefix(e, from, c, i, paid) && i < |e[c]|
    requires cn == e[c][i]
    requires from !! more && PaysExtra(e, more, cn, paid2)
    ensures PaysPrefix(e, from + more, c, i + 1, Sum(paid, paid2))
  {
    assert e[c][..i + 1] == e[c][..i] + [cn];
    DistinctAt(e[c], i);
    forall n {:trigger Into(e, from + more, n)} | n in e
      ensures Sum(paid, paid2)[n] == |Into(e, from + more, n)| + (if n in e[c][..i + 1] then 1 else 0)
    {
      IntoSplit(e, from, more, n);
      assert paid[n] == |Into(e, from, n)| + (if n in e[c][..i] then 1 else 0);
      assert paid2[n] == |Into(e, more, n)| + (if n == cn then 1 else 0);
    }
  }

  lemma PaysNothing(e: Edges, cn: CallNode, paid: Tally)
    requires paid == map n | n in e :: if n == cn then 1 else 0
    ensures PaysExtra(e, {}, cn, paid)
  {
    forall n | n in e ensures Into(e, {}, n) == {} {
    }
  }

  lemma PaysOnTop(e: Edges, from: set<CallNode>, cn: CallNode, paid: Tally, paid2: Tally)
    requires PaysExtra(e, {}, cn, paid) && Pays(e, from, paid2)
    ensures PaysExtra(e, from, cn, Sum(paid, paid2))
  {
    forall n | n in e ensures Into(e, {}, n) == {} {
    }
  }

  /** Two rounds of decrements amount to one. */
  lemma DroppedTwice(S: set<CallNode>, before: map<CallNode, Count14>, paid: Tally, mid: map<CallNode, Count14>,
      paid2: Tally)
    requires before.Keys == paid.Keys == mid.Keys == paid2.Keys == S
    requires forall n {:trigger mid[n]} :: n in S ==> mid[n] == Drop(before[n], paid[n])
    requires Dropped(S, mid, paid2)
    ensures Dropped(S, before, Sum(paid, paid2))
  {
  }

  lemma RevalidatedTwice(S: set<CallNode>, before: map<CallNode, Count14>, was: set<CallNode>, cleared: set<CallNode>,
      mid: map<CallNode, Count14>, midWas: set<CallNode>, more: set<CallNode>)
    requires before.Keys == mid.Keys == S && cleared <= S && midWas == was - cleared
    requires forall n {:trigger mid[n]} ::
      n in S ==> mid[n] <= before[n] && (n in cleared <==> before[n] > 0 && mid[n] == 0)
    requires Revalidated(S, mid, midWas, more)
    requires forall n {:trigger n.falsecount} :: n in S ==> n.falsecount <= mid[n]
    ensures cleared !! more && Revalidated(S, before, was, cleared + more)
  {
    forall n | n in S ensures n in cleared + more <==> before[n] > 0 && n.falsecount == 0 {
      assert n.falsecount <= mid[n] <= before[n];
      assert n in more <==> mid[n] > 0 && n.falsecount == 0;
      assert n in cleared <==> before[n] > 0 && mid[n] == 0;
    }
  }

  lemma PaysAll(e: Edges, from: set<CallNode>, c: CallNode, paid: Tally)
    requires c in e && PaysPrefix(e, from, c, |e[c]|, paid) && c !in from
    ensures Pays(e, from + {c}, paid)
  {
    assert e[c][..|e[c]|] == e[c];
    forall n | n in e ensures paid[n] == |Into(e, from + {c}, n)| {
      IntoSplit(e, from, {c}, n);
      assert Into(e, {c}, n) == if n in e[c] then {c} else {};
      assert paid[n] == |Into(e, from, n)| + (if n in e[c][..|e[c]|] then 1 else 0);
    }
  }

  /** One more out-edge of c has been dealt with. */
  lemma EdgeDone(S: set<CallNode>, e: Edges, before: map<CallNode, Count14>, was: set<CallNode>, cleared: set<CallNode>,
      c: CallNode, i: nat, paid: Tally, mid: map<CallNode, Count14>, more: set<CallNode>, paid2: Tally)
    requires WellFormed(e) && c in e && PaysPrefix(e, cleared, c, i, paid) && i < |e[c]|
    requires PaysExtra(e, more, e[c][i], paid2)
    requires before.Keys == mid.Keys == paid.Keys == S && cleared <= S
    requires forall n {:trigger mid[n]} ::
      n in S ==> mid[n] == Drop(before[n], paid[n]) && (n in cleared <==> before[n] > 0 && mid[n] == 0)
    requires Dropped(S, mid, paid2) && Revalidated(S, mid, was - cleared, more)
    requires before[c] == 0
    ensures Dropped(S, before, Sum(paid, paid2)) && Revalidated(S, before, was, cleared + more)
    ensures PaysPrefix(e, cleared + more, c, i + 1, Sum(paid, paid2)) && c !in cleared + more
  {
    DroppedTwice(S, before, paid, mid, paid2);
    RevalidatedTwice(S, before, was, cleared, mid, was - cleared, more);
    PayNext(e, cleared, c, i, paid, more, paid2, e[c][i]);
    assert c.falsecount == Drop(before[c], Sum(paid, paid2)[c]);
  }

  ghost function Positive(S: set<CallNode>): set<CallNode>
    reads S`falsecount
  {
    set n | n in S && n.falsecount > 0
  }

  /** Every falsecount drops, never below zero, by the number of in-edges from c and from the
      nodes made valid; exactly the nodes that reach zero are made valid. It terminates on any
      graph: each recursive call follows a falsecount that has just become zero. */
  method PropagateNoChange(c: CallNode, ghost S: set<CallNode>, ghost e: Edges)
    returns (ghost cleared: set<CallNode>, ghost paid: Tally)
    requires c in S && e == OutEdges(S) && WellFormed(e)
    requires c.falsecount == 0
    modifies S`falsecount, S`deleted, S`computeDirectly
    ensures c !in cleared && Pays(e, cleared + {c}, paid)
    ensures Dropped(S, old(FalseCounts(S)), paid)
    ensures Revalidated(S, old(FalseCounts(S)), old(Deleted(S)), cleared)
    ensures forall n {:trigger n.computeDirectly} ::
      n in S ==> n.computeDirectly == (old(n.computeDirectly) && n !in cleared)
    decreases Positive(S), 1
  {
    ghost var before := FalseCounts(S);
    ghost var was := Deleted(S);
    cleared := {};
    paid := map n | n in e :: 0;
    PaysStart(e, c, paid);
    var i := 0;
    while i < |c.outedges|
      invariant 0 <= i <= |c.outedges| && c !in cleared
      invariant PaysPrefix(e, cleared, c, i, paid)
      invariant Dropped(S, before, paid)
      invariant Revalidated(S, before, was, cleared)
      invariant forall n {:trigger n.computeDirectly} ::
        n in S ==> n.computeDirectly == (old(n.computeDirectly) && n !in cleared)
    {
      ghost var mid := FalseCounts(S);
      var cn := c.outedges[i];
      assert cn in S && Positive(S) <= old(Positive(S)) && Deleted(S) == was - cleared;
      ghost var more, paid2 := FollowEdge(cn, S, e);
      EdgeDone(S, e, before, was, cleared, c, i, paid, mid, more, paid2);
      cleared, paid := cleared + more, Sum(paid, paid2);
      i := i + 1;
    }
    PaysAll(e, cleared, c, paid);
  }

  /** One edge into cn, followed on if it was the last to keep cn invalid. */
  method FollowEdge(cn: CallNode, ghost S: set<CallNode>, ghost e: Edges)
    returns (ghost cleared: set<CallNode>, ghost paid: Tally)
    requires cn in S && e == OutEdges(S) && WellFormed(e)
    modifies S`falsecount, S`deleted, S`computeDirectly
    ensures PaysExtra(e, cleared, cn, paid)
    ensures Dropped(S, old(FalseCounts(S)), paid)
    ensures Revalidated(S, old(FalseCounts(S)), old(Deleted(S)), cleared)
    ensures forall n {:trigger n.computeDirectly} ::
      n in S ==> n.computeDirectly == (old(n.computeDirectly) && n !in cleared)
    decreases Positive(S), 0
  {
    ghost var before, was := FalseCounts(S), Deleted(S);
    cleared := {};
    paid := map n | n in e :: if n == cn then 1 else 0;
    PaysNothing(e, cn, paid);
    if cn.falsecount > 0 {
      cn.falsecount := cn.falsecount - 1;
      if cn.falsecount == 0 {
        cn.deleted := false;
        cn.computeDirectly := false;
        assert Positive(S) < old(Positive(S)) by {
          assert cn in old(Positive(S)) && cn !in Positive(S);
        }
        cleared, paid := RevalidateFrom(cn, S, e, before, was, paid);
      }
    }
  }

  /** cn has just become valid: go on along its own out-edges. */
  method RevalidateFrom(cn: CallNode, ghost S: set<CallNode>, ghost e: Edges,
      ghost before: map<CallNode, Count14>, ghost was: set<CallNode>, ghost paid0: Tally)
    returns (ghost cleared: set<CallNode>, ghost paid: Tally)
    requires cn in S && e == OutEdges(S) && WellFormed(e)
    requires PaysExtra(e, {}, cn, paid0) && Dropped(S, before, paid0)
    requires was <= S && Revalidated(S, before, was, {cn})
    modifies S`falsecount, S`deleted, S`computeDirectly
    ensures PaysExtra(e, cleared, cn, paid) && cn in cleared
    ensures Dropped(S, before, paid)
    ensures Revalidated(S, before, was, cleared)
    ensures forall n {:trigger n.computeDirectly} ::
      n in S && n != cn ==> n.computeDirectly == (old(n.computeDirectly) && n !in cleared)
    ensures !old(cn.computeDirectly) ==> !cn.computeDirectly
    decreases Positive(S), 2
  {
    ghost var mid, midWas := FalseCounts(S), Deleted(S);
    assert cn.falsecount == 0;
    ghost var more, paid2 := PropagateNoChange(cn, S, e);
    DroppedTwice(S, before, paid0, mid, paid2);
    RevalidatedTwice(S, before, was, {cn}, mid, midWas, more);
    PaysOnTop(e, more + {cn}, cn, paid0, paid2);
    paid := Sum(paid0, paid2);
    cleared := {cn} + more;
    assert cleared == more + {cn};
  }
}
