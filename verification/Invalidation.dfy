/** Invalidating a call: the iterative depth-first search along affects-edges. */
module Invalidation {
  import opened CallGraph
  import opened Sequences

  /** One frame of the explicit stack; `itr` is the position of the frame's iterator over the
      out-edge table, or -1 while the iterator has not been created. */
  datatype Frame = Frame(cn: CallNode, itr: int)

  /** How many out-edges of each node the search has processed. */
  type Progress = map<CallNode, nat>

  ghost predicate Counts(e: Edges, done: Progress) {
    done.Keys == e.Keys && forall n {:trigger done[n]} :: n in e ==> done[n] <= |e[n]|
  }

  /** The edge from n to x has been processed. */
  ghost predicate Processed(e: Edges, done: Progress, n: CallNode, x: CallNode) {
    n in e && n in done && done[n] <= |e[n]| && x in e[n][..done[n]]
  }

  /** The sources of the processed edges into x. */
  ghost function Seen(e: Edges, done: Progress, x: CallNode): set<CallNode> {
    set n | n in e && Processed(e, done, n, x)
  }

  ghost predicate OnStack(stack: seq<Frame>, n: CallNode) {
    exists i :: 0 <= i < |stack| && stack[i].cn == n
  }

  lemma SeenNext(e: Edges, done: Progress, done': Progress, t: CallNode, x: CallNode)
    requires WellFormed(e) && t in e && Counts(e, done) && done[t] < |e[t]|
    requires done' == done[t := done[t] + 1]
    ensures Seen(e, done', x) == if x == e[t][done[t]] then Seen(e, done, x) + {t} else Seen(e, done, x)
    ensures x == e[t][done[t]] ==> t !in Seen(e, done, x)
  {
    var k := done[t];
    assert e[t][..k + 1] == e[t][..k] + [e[t][k]];
    assert forall n :: n != t ==> (Processed(e, done', n, x) <==> Processed(e, done, n, x));
    DistinctAt(e[t], k);
  }

  lemma SeeEdge(e: Edges, done: Progress, done': Progress, t: CallNode, x: CallNode)
    requires WellFormed(e) && t in e && Counts(e, done) && done[t] < |e[t]|
    requires done' == done[t := done[t] + 1]
    ensures Counts(e, done')
    ensures |Seen(e, done', x)| == |Seen(e, done, x)| + (if x == e[t][done[t]] then 1 else 0)
  {
    SeenNext(e, done, done', t, x);
  }

  /** `paid` holds, for each node, the number of processed edges into it. */
  ghost predicate Tally(e: Edges, done: Progress, paid: Progress) {
    paid.Keys == e.Keys && forall n {:trigger Seen(e, done, n)} :: n in e ==> paid[n] == |Seen(e, done, n)|
  }

  lemma PayEdge(e: Edges, done: Progress, paid: Progress, t: CallNode)
    requires WellFormed(e) && t in e && Counts(e, done) && done[t] < |e[t]| && Tally(e, done, paid)
    ensures var cn := e[t][done[t]]; cn in e && Tally(e, done[t := done[t] + 1], paid[cn := paid[cn] + 1])
  {
    var done' := done[t := done[t] + 1];
    var cn := e[t][done[t]];
    var paid' := paid[cn := paid[cn] + 1];
    forall x | x in e ensures paid'[x] == |Seen(e, done', x)| {
      SeeEdge(e, done, done', t, x);
    }
  }

  /** The frames are distinct hit nodes and their iterators agree with `done`. */
  ghost predicate Frames(done: Progress, hit: set<CallNode>, stack: seq<Frame>) {
    && hit <= done.Keys
    && (forall i :: 0 <= i < |stack| ==> stack[i].cn in hit)
    && (forall i :: 0 <= i < |stack| ==> -1 <= stack[i].itr && done[stack[i].cn] == stack[i].itr + 1)
    && (forall i, j :: 0 <= i < j < |stack| ==> stack[i].cn != stack[j].cn)
  }

  /** Hit nodes off the stack are exhausted, other nodes are untouched. */
  ghost predicate Exhausted(e: Edges, done: Progress, hit: set<CallNode>, stack: seq<Frame>) {
    && Counts(e, done)
    && (forall n {:trigger OnStack(stack, n)} :: n in hit && n in e && !OnStack(stack, n) ==> done[n] == |e[n]|)
    && (forall n {:trigger done[n]} :: n in e && n !in hit ==> done[n] == 0)
  }

  /** Every processed edge leads to a hit node or to one that was invalid at the start. */
  ghost predicate Followed(e: Edges, valid: set<CallNode>, done: Progress, hit: set<CallNode>) {
    forall n, y {:trigger Processed(e, done, n, y)} ::
      n in e && y in e && Processed(e, done, n, y) ==> y in hit || y !in valid
  }

  ghost predicate Search(e: Edges, valid: set<CallNode>, c: CallNode, done: Progress, paid: Progress,
      hit: set<CallNode>, stack: seq<Frame>) {
    && c in hit && hit <= valid && AllReached(e, valid, c, hit)
    && Frames(done, hit, stack)
    && Exhausted(e, done, hit, stack)
    && Followed(e, valid, done, hit)
    && Tally(e, done, paid)
  }

  lemma OnStackTop(stack: seq<Frame>, n: CallNode)
    requires |stack| > 0
    ensures OnStack(stack, n) <==> OnStack(stack[..|stack| - 1], n) || n == stack[|stack| - 1].cn
  {
    var rest := stack[..|stack| - 1];
    assert forall i :: 0 <= i < |rest| ==> rest[i] == stack[i];
  }

  lemma PopFrame(e: Edges, done: Progress, hit: set<CallNode>, stack: seq<Frame>)
    requires Frames(done, hit, stack) && Exhausted(e, done, hit, stack) && |stack| > 0
    requires stack[|stack| - 1].cn in e && done[stack[|stack| - 1].cn] == |e[stack[|stack| - 1].cn]|
    ensures Frames(done, hit, stack[..|stack| - 1]) && Exhausted(e, done, hit, stack[..|stack| - 1])
  {
    forall n | n in hit && n in e && !OnStack(stack[..|stack| - 1], n) ensures done[n] == |e[n]| {
      OnStackTop(stack, n);
    }
  }

  lemma DropFrame(e: Edges, valid: set<CallNode>, c: CallNode, done: Progress, paid: Progress, hit: set<CallNode>,
      stack: seq<Frame>)
    requires Search(e, valid, c, done, paid, hit, stack) && |stack| > 0
    requires stack[|stack| - 1].cn in e
    requires stack[|stack| - 1].itr + 1 == |e[stack[|stack| - 1].cn]|
    ensures Search(e, valid, c, done, paid, hit, stack[..|stack| - 1])
  {
    PopFrame(e, done, hit, stack);
  }

  /** Advancing the top frame over its next edge, without visiting the edge's target. */
  lemma AdvanceTop(e: Edges, done: Progress, hit: set<CallNode>, stack: seq<Frame>, t: CallNode, k: nat)
    requires Frames(done, hit, stack) && Exhausted(e, done, hit, stack) && |stack| > 0 && t in e
    requires t == stack[|stack| - 1].cn && k == stack[|stack| - 1].itr + 1 && k < |e[t]|
    ensures Frames(done[t := k + 1], hit, stack[|stack| - 1 := Frame(t, k)])
    ensures Exhausted(e, done[t := k + 1], hit, stack[|stack| - 1 := Frame(t, k)])
  {
    var stack' := stack[|stack| - 1 := Frame(t, k)];
    assert forall i :: 0 <= i < |stack| ==> stack'[i].cn == stack[i].cn;
    forall n | n in hit && n in e && !OnStack(stack', n) ensures done[t := k + 1][n] == |e[n]| {
      assert OnStack(stack', n) <==> OnStack(stack, n);
      assert OnStack(stack', t) by {
        assert stack'[|stack| - 1].cn == t;
      }
    }
  }

  lemma PushFrame(e: Edges, done: Progress, hit: set<CallNode>, stack: seq<Frame>, cn: CallNode)
    requires Frames(done, hit, stack) && Exhausted(e, done, hit, stack) && cn in e && cn !in hit
    ensures Frames(done, hit + {cn}, stack + [Frame(cn, -1)])
    ensures Exhausted(e, done, hit + {cn}, stack + [Frame(cn, -1)])
  {
    var stack' := stack + [Frame(cn, -1)];
    assert stack'[..|stack| ] == stack;
    forall n ensures OnStack(stack', n) <==> OnStack(stack, n) || n == cn {
      OnStackTop(stack', n);
    }
  }

  lemma FollowEdge(e: Edges, valid: set<CallNode>, done: Progress, hit: set<CallNode>, hit': set<CallNode>, t: CallNode)
    requires Followed(e, valid, done, hit) && t in e && t in done && done[t] < |e[t]| && hit <= hit'
    requires e[t][done[t]] in hit' || e[t][done[t]] !in valid
    ensures Followed(e, valid, done[t := done[t] + 1], hit')
  {
    assert e[t][..done[t] + 1] == e[t][..done[t]] + [e[t][done[t]]];
    forall n, y | n in e && y in e && Processed(e, done[t := done[t] + 1], n, y) ensures y in hit' || y !in valid {
      assert Processed(e, done, n, y) || (n == t && y == e[t][done[t]]);
    }
  }

  /** The top frame's next edge leads to a node that is not pushed. */
  lemma SkipEdge(e: Edges, valid: set<CallNode>, c: CallNode, done: Progress, paid: Progress, hit: set<CallNode>,
      stack: seq<Frame>,
      t: CallNode, k: nat, cn: CallNode)
    requires WellFormed(e) && Search(e, valid, c, done, paid, hit, stack) && |stack| > 0 && t in e
    requires cn in e
    requires t == stack[|stack| - 1].cn && k == stack[|stack| - 1].itr + 1 && k < |e[t]|
    requires cn == e[t][k]
    requires cn in hit || cn !in valid
    ensures Search(e, valid, c, done[t := k + 1], paid[cn := paid[cn] + 1], hit, stack[|stack| - 1 := Frame(t, k)])
  {
    PayEdge(e, done, paid, t);
    AdvanceTop(e, done, hit, stack, t, k);
    FollowEdge(e, valid, done, hit, hit, t);
  }

  /** The top frame's next edge leads to a node that is pushed. */
  lemma VisitEdge(e: Edges, valid: set<CallNode>, c: CallNode, done: Progress, paid: Progress, hit: set<CallNode>,
      stack: seq<Frame>,
      t: CallNode, k: nat, cn: CallNode)
    requires WellFormed(e) && Search(e, valid, c, done, paid, hit, stack) && |stack| > 0 && t in e
    requires cn in e
    requires t == stack[|stack| - 1].cn && k == stack[|stack| - 1].itr + 1 && k < |e[t]|
    requires cn == e[t][k]
    requires cn in valid && cn !in hit
    ensures Reach(e, valid, c, cn)
    ensures Search(e, valid, c, done[t := k + 1], paid[cn := paid[cn] + 1], hit + {cn},
                   stack[|stack| - 1 := Frame(t, k)] + [Frame(cn, -1)])
  {
    ReachEdge(e, valid, c, t, cn, hit);
    PayEdge(e, done, paid, t);
    AdvanceTop(e, done, hit, stack, t, k);
    FollowEdge(e, valid, done, hit, hit + {cn}, t);
    PushFrame(e, done[t := k + 1], hit, stack[|stack| - 1 := Frame(t, k)], cn);
    assert Reach(e, valid, c, cn);
  }

  lemma SearchStarts(e: Edges, valid: set<CallNode>, c: CallNode, done: Progress, stack: seq<Frame>)
    requires c in e && c in valid && done == (map n | n in e :: 0)
    requires stack == if |e[c]| > 0 then [Frame(c, -1)] else []
    ensures Search(e, valid, c, done, done, {c}, stack)
  {
    assert ReachIn(e, valid, c, c, 0);
    assert |e[c]| > 0 ==> stack[0].cn == c;
    forall n | n in e ensures |Seen(e, done, n)| == 0 {
      assert Seen(e, done, n) == {};
    }
  }

  lemma SearchDone(e: Edges, valid: set<CallNode>, c: CallNode, done: Progress, paid: Progress, hit: set<CallNode>)
    requires Search(e, valid, c, done, paid, hit, []) && valid <= e.Keys
    ensures hit == Hit(e, valid, c)
    ensures forall x :: x in e ==> paid[x] == |Into(e, hit, x)|
  {
    forall n | n in hit && n in e ensures done[n] == |e[n]| && e[n][..done[n]] == e[n] {
      assert !OnStack([], n);
    }
    forall n, y | n in hit && n in e && y in e[n] && y in valid ensures y in hit {
      assert Processed(e, done, n, y);
    }
    forall x | x in e ensures Seen(e, done, x) == Into(e, hit, x) {
      assert forall n :: n in e && n !in hit ==> done[n] == 0;
    }
    forall n | n in hit ensures Reach(e, valid, c, n) {
    }
    forall n | n in Hit(e, valid, c) ensures n in hit {
      var k: nat :| ReachIn(e, valid, c, n, k);
      ClosedContainsReach(e, valid, c, n, k, hit);
    }
  }

  /** If the invalid set is closed under out-edges, the nodes hit are the valid ones among all
      that c reaches, and the invalid set stays closed. */
  lemma ClosedHit(e: Edges, valid: set<CallNode>, c: CallNode)
    requires c in valid && valid <= e.Keys
    requires forall n, y :: n in e && n !in valid && y in e[n] ==> y !in valid
    ensures forall x :: x in e ==> (x in Hit(e, valid, c) <==> x in valid && Reach(e, e.Keys, c, x))
    ensures forall n, y ::
      n in e && (n !in valid || n in Hit(e, valid, c)) && y in e[n] ==> y !in valid || y in Hit(e, valid, c)
  {
    assert ReachIn(e, valid, c, c, 0);
    var hit := Hit(e, valid, c);
    var invalid := (e.Keys - valid) + hit;
    forall n, y | n in e && n in invalid && y in e[n] && y in valid ensures y in hit {
      ReachStep(e, valid, c, n, y);
    }
    forall x | x in e ensures x in hit <==> x in valid && Reach(e, e.Keys, c, x) {
      if x in hit {
        var k: nat :| ReachIn(e, valid, c, x, k);
        ReachMono(e, valid, c, x, k);
      } else if Reach(e, e.Keys, c, x) {
        var k: nat :| ReachIn(e, e.Keys, c, x, k);
        ClosedContainsReach(e, e.Keys, c, x, k, invalid);
      }
    }
  }

  /** The invalid set grows by exactly the valid nodes reached from c through valid nodes, and
      every falsecount rises by the number of edges from those nodes and from c. */
  method InvalidateCall(c: CallNode, ghost S: set<CallNode>, ghost e: Edges) returns (ok: bool)
    requires c in S && e == OutEdges(S) && WellFormed(e)
    modifies S`deleted, S`falsecount
    ensures old(c.deleted) ==>
      ok && forall n :: n in S ==> n.deleted == old(n.deleted) && n.falsecount == old(n.falsecount)
    ensures !old(c.deleted) ==>
      (ok <==> forall n :: n in Hit(e, old(Valid(S)), c) && !n.leaf ==> n.completed)
    ensures ok && !old(c.deleted) ==>
      && (forall n {:trigger n.deleted} :: n in S ==>
        (n.deleted <==> old(n.deleted) || (n in Hit(e, old(Valid(S)), c) && !n.leaf)))
      && (forall n {:trigger n.falsecount} :: n in S ==>
        n.falsecount == Bump(old(n.falsecount),
          (if n == c then 1 else 0) + |Into(e, Hit(e, old(Valid(S)), c), n)|))
  {
    ok := true;
    if !c.deleted {
      c.falsecount := Bump(c.falsecount, 1);
      ok := DfsOutedges(c, S, e);
      BumpTwice(old(c.falsecount), 1, |Into(e, Hit(e, old(Valid(S)), c), c)|);
    }
  }

  /** Each falsecount has risen from `before` by the node's tally. */
  ghost predicate Counted(S: set<CallNode>, before: map<CallNode, Count14>, paid: Progress)
    reads S`falsecount
  {
    && before.Keys == S && paid.Keys == S
    && forall n {:trigger n.falsecount} :: n in S ==> n.falsecount == Bump(before[n], paid[n])
  }

  /** The invalid nodes are those invalid from the start and the hit ones, leaves excepted. */
  ghost predicate Marked(S: set<CallNode>, valid: set<CallNode>, hit: set<CallNode>)
    reads S`deleted
  {
    forall n {:trigger n.deleted} :: n in S ==> (n.deleted <==> n !in valid || (n in hit && !n.leaf))
  }

  /** One edge into cn: count it, and mark cn unless it is invalid already. */
  method EnterNode(cn: CallNode, ghost S: set<CallNode>, ghost valid: set<CallNode>,
      ghost before: map<CallNode, Count14>,
      ghost paid: Progress, ghost hit: set<CallNode>) returns (isNew: bool)
    requires cn in S && !cn.leaf && Marked(S, valid, hit) && Counted(S, before, paid)
    modifies cn`deleted, cn`falsecount
    ensures isNew <==> cn in valid && cn !in hit
    ensures Marked(S, valid, if isNew then hit + {cn} else hit)
    ensures Counted(S, before, paid[cn := paid[cn] + 1])
  {
    BumpTwice(before[cn], paid[cn], 1);
    cn.falsecount := Bump(cn.falsecount, 1);
    isNew := !cn.deleted;
    if isNew {
      cn.deleted := true;
    }
  }

  method DfsOutedges(c: CallNode, ghost S: set<CallNode>, ghost e: Edges) returns (ok: bool)
    requires c in S && e == OutEdges(S) && WellFormed(e) && !c.deleted
    modifies S`deleted, S`falsecount
    ensures ok <==> forall n :: n in Hit(e, old(Valid(S)), c) && !n.leaf ==> n.completed
    ensures ok ==>
      && (forall n {:trigger n.deleted} :: n in S ==>
        (n.deleted <==> old(n.deleted) || (n in Hit(e, old(Valid(S)), c) && !n.leaf)))
      && (forall n {:trigger n.falsecount} :: n in S ==>
        n.falsecount == Bump(old(n.falsecount), |Into(e, Hit(e, old(Valid(S)), c), n)|))
  {
    ghost var valid := Valid(S);
    ghost var before := map n | n in S :: n.falsecount;
    if !c.leaf && !c.completed {
      assert ReachIn(e, valid, c, c, 0);
      return false;
    }
    if !c.leaf {
      c.deleted := true;
    }
    var stack: seq<Frame> := [];
    if |c.outedges| > 0 {
      stack := [Frame(c, -1)];
    }
    ghost var paid: Progress := map n | n in e :: 0;
    SearchStarts(e, valid, c, paid, stack);
    ok, paid := SearchLoop(c, stack, S, e, valid, before, paid);
  }

  /** The edges of the call on top of the stack that are still to be followed. */
  ghost function EdgesLeft(e: Edges, stack: seq<Frame>): int {
    if |stack| == 0 || stack[|stack| - 1].cn !in e then 0
    else |e[stack[|stack| - 1].cn]| - stack[|stack| - 1].itr
  }

  /** Follows the next edge of the call on top of the stack. */
  method NextEdge(c: CallNode, stack: seq<Frame>, ghost S: set<CallNode>, ghost e: Edges, ghost valid: set<CallNode>,
      ghost before: map<CallNode, Count14>, ghost done: Progress, ghost paid: Progress, ghost hit: set<CallNode>)
    returns (ok: bool, stack': seq<Frame>, ghost done': Progress, ghost paid': Progress, ghost hit': set<CallNode>)
    requires e == OutEdges(S) && WellFormed(e) && valid <= S
    requires Search(e, valid, c, done, paid, hit, stack)
    requires |stack| > 0 && stack[|stack| - 1].itr + 1 < |e[stack[|stack| - 1].cn]|
    requires Marked(S, valid, hit) && Counted(S, before, paid)
    requires forall n {:trigger n.completed} :: n in hit && !n.leaf ==> n.completed
    modifies S`deleted, S`falsecount
    ensures !ok ==> exists n :: n in Hit(e, valid, c) && !n.leaf && !n.completed
    ensures ok ==> Search(e, valid, c, done', paid', hit', stack')
    ensures ok ==> Marked(S, valid, hit') && Counted(S, before, paid') && forall n {:trigger n.completed} ::
      n in hit' && !n.leaf ==> n.completed
    ensures ok && !(valid - hit' < valid - hit) ==>
      hit' == hit && |stack'| == |stack| && EdgesLeft(e, stack') < EdgesLeft(e, stack)
  {
    var top := |stack| - 1;
    var t := stack[top].cn;
    assert t.outedges == e[t];
    var k := stack[top].itr + 1;
    var cn := t.outedges[k];
    assert cn in S && !cn.leaf;
    var isNew := EnterNode(cn, S, valid, before, paid, hit);
    done', paid' := done[t := k + 1], paid[cn := paid[cn] + 1];
    hit', stack' := hit, stack;
    if isNew {
      VisitEdge(e, valid, c, done, paid, hit, stack, t, k, cn);
      if !cn.leaf && !cn.completed {
        return false, stack', done', paid', hit';
      }
      hit' := hit + {cn};
      stack' := stack[top := Frame(t, k)] + [Frame(cn, -1)];
    } else {
      SkipEdge(e, valid, c, done, paid, hit, stack, t, k, cn);
      stack' := stack[top := Frame(t, k)];
    }
    ok := true;
  }

  /** The loop over the stack; `start` counts no edges and no node but c has been hit. */
  method SearchLoop(c: CallNode, stack0: seq<Frame>, ghost S: set<CallNode>, ghost e: Edges, ghost valid: set<CallNode>,
      ghost before: map<CallNode, Count14>, ghost start: Progress) returns (ok: bool, ghost paid: Progress)
    requires e == OutEdges(S) && WellFormed(e) && valid <= S && !(!c.leaf && !c.completed)
    requires Search(e, valid, c, start, start, {c}, stack0)
    requires Marked(S, valid, {c}) && Counted(S, before, start)
    modifies S`deleted, S`falsecount
    ensures ok <==> forall n :: n in Hit(e, valid, c) && !n.leaf ==> n.completed
    ensures ok ==> Marked(S, valid, Hit(e, valid, c)) && Counted(S, before, paid)
    ensures ok ==> forall n :: n in S ==> paid[n] == |Into(e, Hit(e, valid, c), n)|
  {
    var stack := stack0;
    ghost var done: Progress := start;
    ghost var hit: set<CallNode> := {c};
    paid := start;
    while |stack| > 0
      invariant Search(e, valid, c, done, paid, hit, stack)
      invariant forall n {:trigger n.completed} :: n in hit && !n.leaf ==> n.completed
      invariant Marked(S, valid, hit)
      invariant Counted(S, before, paid)
      decreases valid - hit, |stack|, EdgesLeft(e, stack)
    {
      var top := |stack| - 1;
      var t := stack[top].cn;
      assert t.outedges == e[t];
      if stack[top].itr + 1 == |t.outedges| {
        DropFrame(e, valid, c, done, paid, hit, stack);
        stack := stack[..top];
      } else {
        ok, stack, done, paid, hit := NextEdge(c, stack, S, e, valid, before, done, paid, hit);
        if !ok {
          return;
        }
      }
    }
    SearchDone(e, valid, c, done, paid, hit);
    ok := true;
  }
}
