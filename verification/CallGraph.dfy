/** The incremental dependency graph: call nodes, their edges, and reachability over a
    snapshot of the edges. */
module CallGraph {
  import opened Sequences

  /** `falsecount` and `outcount` are 14-bit fields of the node. */
  const FIELD_LIMIT: nat := 16384

  type Count14 = n: nat | n < FIELD_LIMIT

  /** The field after k increments. */
  function Bump(a: Count14, k: nat): Count14 {
    (a + k) % FIELD_LIMIT
  }

  lemma BumpTwice(a: Count14, j: nat, k: nat)
    ensures Bump(Bump(a, j), k) == Bump(a, j + k)
  {
    var q := (a + j) / FIELD_LIMIT;
    assert (a + j + k) == Bump(a, j) + k + q * FIELD_LIMIT;
    var q' := (Bump(a, j) + k) / FIELD_LIMIT;
    assert (a + j + k) == Bump(Bump(a, j), k) + (q + q') * FIELD_LIMIT;
  }

  class CallNode {
    const id: nat
    const leaf: bool
    const hasGoal: bool
    var completed: bool
    var deleted: bool
    var computeDirectly: bool
    var falsecount: Count14
    var outcount: Count14
    var outedges: seq<CallNode>
    var inedges: seq<CallNode>

    /** A node as it is created for a call (or, with dynLeaf, for a dynamic predicate). */
    constructor (nextId: nat, dynLeaf: bool, goal: bool)
      ensures id == nextId && leaf == dynLeaf && hasGoal == goal
      ensures !completed && !deleted && !computeDirectly
      ensures falsecount == 0 && outcount == 0 && outedges == [] && inedges == []
    {
      id, leaf, hasGoal := nextId, dynLeaf, goal;
      completed, deleted, computeDirectly := false, false, false;
      falsecount, outcount, outedges, inedges := 0, 0, [], [];
    }
  }

  type Edges = map<CallNode, seq<CallNode>>

  ghost predicate HoldsIn(S: set<CallNode>, inn: Edges)
    reads S`inedges
  {
    inn.Keys == S && forall n {:trigger n.inedges} :: n in S ==> n.inedges == inn[n]
  }

  ghost function OutEdges(S: set<CallNode>): (e: Edges)
    reads S`outedges
    ensures e.Keys == S && forall n :: n in S ==> e[n] == n.outedges
  {
    map n | n in S :: n.outedges
  }

  /** Edges stay inside the graph, no edge is listed twice, and nothing affects a leaf. */
  ghost predicate WellFormed(e: Edges) {
    && (forall n, i :: n in e && 0 <= i < |e[n]| ==> e[n][i] in e && !e[n][i].leaf)
    && (forall n :: n in e ==> Distinct(e[n]))
  }

  /** The sources in `from` of edges into `x`. */
  ghost function Into(e: Edges, from: set<CallNode>, x: CallNode): (r: set<CallNode>) {
    set n | n in e && n in from && x in e[n]
  }

  /** A path of k edges from c to x all of whose nodes after c lie in `via`. */
  ghost predicate ReachIn(e: Edges, via: set<CallNode>, c: CallNode, x: CallNode, k: nat) {
    if k == 0 then x == c
    else x in via && exists y {:trigger ReachIn(e, via, c, y, k - 1)} ::
      y in e && x in e[y] && ReachIn(e, via, c, y, k - 1)
  }

  ghost predicate Reach(e: Edges, via: set<CallNode>, c: CallNode, x: CallNode) {
    exists k: nat :: ReachIn(e, via, c, x, k)
  }

  /** Reachable by at least one edge. */
  ghost predicate ReachPlus(e: Edges, via: set<CallNode>, c: CallNode, x: CallNode) {
    exists k: nat :: k > 0 && ReachIn(e, via, c, x, k)
  }

  /** Everything c reaches through `via`, c included. */
  ghost function Hit(e: Edges, via: set<CallNode>, c: CallNode): set<CallNode> {
    set n | n in e && Reach(e, via, c, n)
  }

  ghost function Valid(S: set<CallNode>): set<CallNode>
    reads S`deleted
  {
    set n | n in S && !n.deleted
  }

  lemma ReachStep(e: Edges, via: set<CallNode>, c: CallNode, y: CallNode, x: CallNode)
    requires y in e && x in e[y] && x in via && Reach(e, via, c, y)
    ensures ReachPlus(e, via, c, x) && Reach(e, via, c, x)
  {
    var k: nat :| ReachIn(e, via, c, y, k);
    assert ReachIn(e, via, c, x, k + 1);
  }

  /** c reaches every node of `some`. */
  ghost predicate AllReached(e: Edges, via: set<CallNode>, c: CallNode, some: set<CallNode>) {
    forall n {:trigger Reach(e, via, c, n)} :: n in some ==> Reach(e, via, c, n)
  }

  lemma ReachEdge(e: Edges, via: set<CallNode>, c: CallNode, y: CallNode, x: CallNode, some: set<CallNode>)
    requires AllReached(e, via, c, some) && y in some && y in e && x in e[y] && x in via
    ensures AllReached(e, via, c, some + {x})
  {
    assert Reach(e, via, c, y);
    ReachStep(e, via, c, y, x);
  }

  /** A set that contains c and every `via`-successor of its members contains all c reaches. */
  lemma {:induction false} ClosedContainsReach(e: Edges, via: set<CallNode>, c: CallNode, x: CallNode, k: nat,
      closed: set<CallNode>)
    requires c in closed && ReachIn(e, via, c, x, k)
    requires forall n, y :: n in closed && n in e && y in e[n] && y in via ==> y in closed
    ensures x in closed
  {
    if k > 0 {
      var y :| y in e && x in e[y] && ReachIn(e, via, c, y, k - 1);
      ClosedContainsReach(e, via, c, y, k - 1, closed);
    }
  }

  lemma {:induction false} ReachMono(e: Edges, via: set<CallNode>, c: CallNode, x: CallNode, k: nat)
    requires via <= e.Keys && ReachIn(e, via, c, x, k)
    ensures ReachIn(e, e.Keys, c, x, k)
  {
    if k > 0 {
      var y :| y in e && x in e[y] && ReachIn(e, via, c, y, k - 1);
      ReachMono(e, via, c, y, k - 1);
    }
  }
}
