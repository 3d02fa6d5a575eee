/** Adding edges to the dependency graph and taking nodes out of it. */
module EdgeUpdates {
  import opened CallGraph
  import opened Sequences

  class Counters {
    var edges: int
    var nodes: int
    /** How many nodes have been made: the next node's id. */
    var total: nat

    constructor ()
      ensures edges == 0 && nodes == 0 && total == 0
    {
      edges, nodes, total := 0, 0, 0;
    }
  }

  ghost predicate Edge(e: Edges, n: CallNode, m: CallNode) {
    n in e && m in e[n]
  }

  ghost function EdgeSet(out: Edges): set<(CallNode, CallNode)> {
    set n, m | n in out && m in out[n] :: (n, m)
  }

  ghost predicate DistinctEdges(e: Edges) {
    && (forall n {:trigger Distinct(e[n])} :: n in e ==> Distinct(e[n]))
    && (forall n, m {:trigger Edge(e, n, m)} :: n in e && m in e[n] && Edge(e, n, m) ==> m in e)
  }

  /** In-edge lists and out-edge tables are converse to each other and have no duplicates. */
  ghost predicate Converse(out: Edges, inn: Edges) {
    && out.Keys == inn.Keys && DistinctEdges(out) && DistinctEdges(inn)
    && (forall n, m {:trigger Edge(out, n, m)} {:trigger Edge(inn, m, n)} ::
          n in out && m in out ==> (Edge(out, n, m) <==> Edge(inn, m, n)))
  }

  ghost predicate HoldsOut(S: set<CallNode>, out: Edges)
    reads S`outedges
  {
    out.Keys == S && forall n {:trigger n.outedges} :: n in S ==> n.outedges == out[n]
  }

  /** Each `outcount` is its table's size, as a 14-bit field. */
  ghost predicate OutCounts(S: set<CallNode>, out: Edges)
    reads S`outcount
  {
    out.Keys == S && forall n {:trigger n.outcount} :: n in S ==> n.outcount == Bump(0, |out[n]|)
  }

  /** No two nodes have the same id, and the next one is not taken. */
  ghost predicate Ids(S: set<CallNode>, total: nat) {
    && (forall n {:trigger n.id} :: n in S ==> n.id < total)
    && (forall n, m {:trigger n.id, m.id} :: n in S && m in S && n.id == m.id ==> n == m)
  }

  /** The graph is consistent, and the counters are the numbers of its edges and nodes. */
  ghost predicate Consistent(S: set<CallNode>, g: Counters, out: Edges, inn: Edges)
    reads S`outedges, S`inedges, S`outcount, g
  {
    && HoldsOut(S, out) && HoldsIn(S, inn) && Converse(out, inn) && OutCounts(S, out)
    && g.edges == |EdgeSet(out)|
    && g.nodes == |S|
  }

  lemma EmptyConsistent(g: Counters)
    requires g.edges == 0 && g.nodes == 0
    ensures Consistent({}, g, map[], map[])
  {
    assert EdgeSet(map[]) == {};
  }

  /** A new node, without edges. */
  method AddCallNode(dynLeaf: bool, goal: bool, g: Counters, ghost S: set<CallNode>, ghost out: Edges, ghost inn: Edges)
    returns (n: CallNode)
    requires Consistent(S, g, out, inn) && Ids(S, g.total)
    modifies g`nodes, g`total
    ensures fresh(n) && n.id == old(g.total) && n.leaf == dynLeaf && n.hasGoal == goal
    ensures !n.completed && !n.deleted && n.falsecount == 0
    ensures Consistent(S + {n}, g, out[n := []], inn[n := []]) && Ids(S + {n}, g.total)
  {
    n := new CallNode(g.total, dynLeaf, goal);
    g.total := g.total + 1;
    g.nodes := g.nodes + 1;
    NodeAdded(out, inn, n);
    FieldsAdded(S, n, out, inn);
    assert |S + {n}| == |S| + 1;
  }

  lemma FieldsAdded(S: set<CallNode>, n: CallNode, out: Edges, inn: Edges)
    requires HoldsOut(S, out) && HoldsIn(S, inn) && OutCounts(S, out) && n !in S
    requires n.outedges == [] && n.inedges == [] && n.outcount == 0
    ensures HoldsOut(S + {n}, out[n := []]) && HoldsIn(S + {n}, inn[n := []])
    ensures OutCounts(S + {n}, out[n := []])
  {
  }

  lemma NodeAdded(out: Edges, inn: Edges, n: CallNode)
    requires Converse(out, inn) && n !in out
    ensures Converse(out[n := []], inn[n := []]) && EdgeSet(out[n := []]) == EdgeSet(out)
  {
    var out', inn' := out[n := []], inn[n := []];
    forall m | m in out' ensures Distinct(out'[m]) && Distinct(inn'[m]) {
      assert m in out ==> Distinct(out[m]) && Distinct(inn[m]);
    }
    forall m, k | m in out' && k in out'[m] && Edge(out', m, k) ensures k in out' {
      assert Edge(out, m, k);
    }
    forall m, k | m in inn' && k in inn'[m] && Edge(inn', m, k) ensures k in inn' {
      assert Edge(inn, m, k);
    }
    forall m, k | m in out' && k in out' ensures Edge(out', m, k) <==> Edge(inn', k, m) {
      assert m in out && k in out ==> (Edge(out, m, k) <==> Edge(inn, k, m));
      assert k == n && m in out && n in out[m] ==> Edge(out, m, n);
      assert m == n && k in inn && n in inn[k] ==> Edge(inn, k, n);
    }
    forall p: (CallNode, CallNode) ensures p in EdgeSet(out') <==> p in EdgeSet(out) {
    }
  }

  /** An outcount is the size of its table if and only if that fits the 14-bit field. */
  lemma OutCountExactIff(S: set<CallNode>, out: Edges, n: CallNode)
    requires OutCounts(S, out) && n in S
    ensures n.outcount == |out[n]| <==> |out[n]| < FIELD_LIMIT
  {
    assert n.outcount == Bump(0, |out[n]|);
  }

  /** `DeleteCallNode` takes a node for one without out-edges if and only if their number is a
      multiple of the limit. */
  lemma FreedWithEdgesIff(S: set<CallNode>, out: Edges, n: CallNode)
    requires OutCounts(S, out) && n in S
    ensures n.outcount == 0 && out[n] != [] <==> |out[n]| > 0 && |out[n]| % FIELD_LIMIT == 0
  {
    assert n.outcount == Bump(0, |out[n]|);
  }

  /** s without the first occurrence of x. */
  function Removed<T(==)>(s: seq<T>, x: T): (r: seq<T>)
    ensures forall y :: y in r ==> y in s
    ensures x !in s ==> r == s
  {
    if s == [] then [] else if s[0] == x then s[1..] else [s[0]] + Removed(s[1..], x)
  }

  lemma {:induction false} RemovedDistinct<T>(s: seq<T>, x: T)
    requires Distinct(s)
    ensures Distinct(Removed(s, x))
    ensures forall y :: y in Removed(s, x) <==> y in s && y != x
    ensures |Removed(s, x)| == if x in s then |s| - 1 else |s|
  {
    if s != [] {
      assert s == [s[0]] + s[1..];
      DistinctTail(s);
      if s[0] != x {
        RemovedDistinct(s[1..], x);
        DistinctCons(s[0], Removed(s[1..], x));
      }
    }
  }

  lemma {:induction false} RemovedAt<T>(s: seq<T>, x: T, i: nat)
    requires i < |s| && s[i] == x && x !in s[..i]
    ensures Removed(s, x) == s[..i] + s[i + 1..]
  {
    if i > 0 {
      assert s[0] == s[..i][0];
      assert s[1..][..i - 1] == s[..i][1..];
      RemovedAt(s[1..], x, i - 1);
      assert s[..i] + s[i + 1..] == [s[0]] + (s[1..][..i - 1] + s[1..][i..]);
    }
  }

  lemma EdgeAdded(out: Edges, inn: Edges, from: CallNode, to: CallNode)
    requires Converse(out, inn) && from in out && to in out && !Edge(out, from, to)
    ensures Converse(out[from := out[from] + [to]], inn[to := [from] + inn[to]])
    ensures EdgeSet(out[from := out[from] + [to]]) == EdgeSet(out) + {(from, to)}
    ensures (from, to) !in EdgeSet(out)
  {
    var out', inn' := out[from := out[from] + [to]], inn[to := [from] + inn[to]];
    forall n, m | n in out && m in out
      ensures Edge(out', n, m) <==> Edge(out, n, m) || (n == from && m == to)
      ensures Edge(inn', m, n) <==> Edge(inn, m, n) || (n == from && m == to)
    {
    }
    assert !Edge(inn, to, from);
    assert Distinct(out[from]) && Distinct(inn[to]);
    DistinctSnoc(out[from], to);
    DistinctCons(from, inn[to]);
    forall n | n in out ensures Distinct(out'[n]) && Distinct(inn'[n]) {
      assert Distinct(out[n]) && Distinct(inn[n]);
    }
    forall n, m | n in out' && m in out'[n] ensures m in out' {
      assert Edge(out, n, m) || m == to;
    }
    forall n, m | n in inn' && m in inn'[n] ensures m in inn' {
      assert Edge(inn, n, m) || m == from;
    }
  }

  /** A new first element of the in-edge list. */
  method AddInEdge(to: CallNode, from: CallNode, ghost S: set<CallNode>, ghost inn: Edges)
    requires to in S && HoldsIn(S, inn)
    modifies to`inedges
    ensures HoldsIn(S, inn[to := [from] + inn[to]])
  {
    to.inedges := [from] + to.inedges;
  }

  /** A new entry of the out-edge table. */
  method InsertOutEdge(from: CallNode, to: CallNode, ghost S: set<CallNode>, ghost out: Edges)
    requires from in S && HoldsOut(S, out) && OutCounts(S, out)
    modifies from`outedges, from`outcount
    ensures HoldsOut(S, out[from := out[from] + [to]])
    ensures OutCounts(S, out[from := out[from] + [to]])
  {
    BumpTwice(0, |from.outedges|, 1);
    from.outedges := from.outedges + [to];
    from.outcount := Bump(from.outcount, 1);
  }

  /** Record that `to` depends on `from`; an edge already recorded is not recorded twice. */
  method AddCallEdge(from: CallNode, to: CallNode, g: Counters, ghost S: set<CallNode>, ghost out: Edges,
      ghost inn: Edges)
    returns (ghost out': Edges, ghost inn': Edges)
    requires from in S && to in S && Consistent(S, g, out, inn)
    modifies from`outedges, from`outcount, to`inedges, g`edges
    ensures Consistent(S, g, out', inn')
    ensures EdgeSet(out') == EdgeSet(out) + {(from, to)}
    ensures out' == if to in out[from] then out else out[from := out[from] + [to]]
    ensures inn' == if to in out[from] then inn else inn[to := [from] + inn[to]]
  {
    if to in from.outedges {
      assert (from, to) in EdgeSet(out);
      return out, inn;
    }
    assert !Edge(out, from, to);
    EdgeAdded(out, inn, from, to);
    InsertOutEdge(from, to, S, out);
    AddInEdge(to, from, S, inn);
    g.edges := g.edges + 1;
    out', inn' := out[from := out[from] + [to]], inn[to := [from] + inn[to]];
  }

  /** The edges of the graph without the node c. */
  ghost function Detached(e: Edges, c: CallNode): (r: Edges) {
    map n | n in e && n != c :: Removed(e[n], c)
  }

  lemma DetachedEdge(e: Edges, c: CallNode, n: CallNode, m: CallNode)
    requires DistinctEdges(e)
    ensures Edge(Detached(e, c), n, m) <==> Edge(e, n, m) && n != c && m != c
    ensures n in e ==> Distinct(Removed(e[n], c))
  {
    if n in e {
      RemovedDistinct(e[n], c);
    }
  }

  lemma DetachedDistinct(e: Edges, c: CallNode)
    requires DistinctEdges(e)
    ensures DistinctEdges(Detached(e, c))
  {
    var d := Detached(e, c);
    forall n | n in d ensures Distinct(d[n]) {
      DetachedEdge(e, c, n, n);
    }
    forall n, m | n in d && m in d[n] ensures m in d {
      DetachedEdge(e, c, n, m);
      assert Edge(e, n, m);
    }
  }

  lemma DetachedConverse(out: Edges, inn: Edges, c: CallNode)
    requires Converse(out, inn)
    ensures Converse(Detached(out, c), Detached(inn, c))
  {
    DetachedDistinct(out, c);
    DetachedDistinct(inn, c);
    forall n, m | n in Detached(out, c) && m in Detached(out, c)
      ensures Edge(Detached(out, c), n, m) <==> Edge(Detached(inn, c), m, n)
    {
      DetachedEdge(out, c, n, m);
      DetachedEdge(inn, c, m, n);
    }
  }

  lemma {:induction false} DistinctSize(s: seq<CallNode>)
    requires Distinct(s)
    ensures |set y | y in s| == |s|
  {
    if s != [] {
      var last := |s| - 1;
      DistinctAt(s, last);
      DistinctSize(s[..last]);
      assert s == s[..last] + [s[last]];
      assert (set y | y in s) == (set y | y in s[..last]) + {s[last]};
    }
  }

  lemma PairSize(ys: set<CallNode>, c: CallNode)
    ensures |set y | y in ys :: (c, y)| == |ys|
    ensures |set y | y in ys :: (y, c)| == |ys|
  {
    if ys != {} {
      var z :| z in ys;
      PairSize(ys - {z}, c);
      assert (set y | y in ys :: (c, y)) == (set y | y in ys - {z} :: (c, y)) + {(c, z)};
      assert (set y | y in ys :: (y, c)) == (set y | y in ys - {z} :: (y, c)) + {(z, c)};
    }
  }

  ghost function PairsFrom(c: CallNode, s: seq<CallNode>): set<(CallNode, CallNode)> {
    set y | y in s :: (c, y)
  }

  ghost function PairsTo(s: seq<CallNode>, c: CallNode): set<(CallNode, CallNode)> {
    set y | y in s :: (y, c)
  }

  lemma PairCounts(c: CallNode, s: seq<CallNode>)
    requires Distinct(s)
    ensures |PairsFrom(c, s)| == |s| && |PairsTo(s, c)| == |s|
  {
    var ys := set y | y in s;
    DistinctSize(s);
    PairSize(ys, c);
    assert PairsFrom(c, s) == set y | y in ys :: (c, y);
    assert PairsTo(s, c) == set y | y in ys :: (y, c);
  }

  lemma DetachedEdgeSet(out: Edges, inn: Edges, c: CallNode)
    requires Converse(out, inn) && c in out
    ensures EdgeSet(out) == EdgeSet(Detached(out, c)) + (PairsFrom(c, out[c]) + PairsTo(Removed(inn[c], c), c))
    ensures EdgeSet(Detached(out, c)) !! (PairsFrom(c, out[c]) + PairsTo(Removed(inn[c], c), c))
    ensures PairsFrom(c, out[c]) !! PairsTo(Removed(inn[c], c), c)
  {
    forall p: (CallNode, CallNode)
      ensures p in EdgeSet(out) <==>
        p in EdgeSet(Detached(out, c)) || p in PairsFrom(c, out[c]) || p in PairsTo(Removed(inn[c], c), c)
      ensures p in EdgeSet(Detached(out, c)) ==> p !in PairsFrom(c, out[c]) && p !in PairsTo(Removed(inn[c], c), c)
    {
      EdgeSplit(out, inn, c, p.0, p.1);
    }
    RemovedDistinct(inn[c], c);
  }

  /** Detaching c loses its out-edges, a self-loop among them once, and its other in-edges. */
  lemma DetachedCount(out: Edges, inn: Edges, c: CallNode)
    requires Converse(out, inn) && c in out
    ensures |EdgeSet(Detached(out, c))| == |EdgeSet(out)| - |out[c]| - |Removed(inn[c], c)|
  {
    DetachedEdgeSet(out, inn, c);
    RemovedDistinct(inn[c], c);
    PairCounts(c, out[c]);
    PairCounts(c, Removed(inn[c], c));
  }

  lemma EdgeSplit(out: Edges, inn: Edges, c: CallNode, n: CallNode, m: CallNode)
    requires Converse(out, inn) && c in out
    ensures (n, m) in EdgeSet(out) <==> Edge(out, n, m)
    ensures (n, m) in EdgeSet(Detached(out, c)) <==> Edge(out, n, m) && n != c && m != c
    ensures Edge(out, n, m) && m == c && n != c <==> m == c && n in Removed(inn[c], c)
  {
    DetachedEdge(out, c, n, m);
    RemovedDistinct(inn[c], c);
    if n in out {
      assert Edge(out, n, c) <==> Edge(inn, c, n);
    } else if n in inn[c] {
      assert Edge(inn, c, n);
    }
  }

  /** Takes c out of cn's in-edge list. */
  method UnlinkInEdge(cn: CallNode, c: CallNode, ghost S: set<CallNode>, ghost inn: Edges)
    requires cn in S && HoldsIn(S, inn)
    modifies cn`inedges
    ensures HoldsIn(S, inn[cn := Removed(inn[cn], c)])
  {
    var i := 0;
    while i < |cn.inedges| && cn.inedges[i] != c
      invariant 0 <= i <= |cn.inedges| && c !in cn.inedges[..i]
    {
      i := i + 1;
    }
    if i < |cn.inedges| {
      RemovedAt(cn.inedges, c, i);
      cn.inedges := cn.inedges[..i] + cn.inedges[i + 1..];
    } else {
      assert cn.inedges[..i] == cn.inedges;
    }
  }

  /** Takes c out of n's out-edge table. */
  method RemoveOutEdge(n: CallNode, c: CallNode, ghost S: set<CallNode>, ghost out: Edges)
    requires n in S && HoldsOut(S, out) && n.outcount == Bump(0, |out[n]|) && Distinct(out[n])
    requires c in out[n]
    modifies n`outedges, n`outcount
    ensures HoldsOut(S, out[n := Removed(out[n], c)]) && n.outcount == Bump(0, |Removed(out[n], c)|)
  {
    RemovedDistinct(n.outedges, c);
    assert Bump(Bump(0, |n.outedges|), FIELD_LIMIT - 1) == Bump(0, |n.outedges| - 1) by {
      BumpTwice(0, |n.outedges|, FIELD_LIMIT - 1);
      BumpTwice(0, FIELD_LIMIT, |n.outedges| - 1);
    }
    n.outedges := Removed(n.outedges, c);
    n.outcount := Bump(n.outcount, FIELD_LIMIT - 1);
  }

  /** The edge lists after c has been taken out of the lists of the nodes in `these`, its own
      list excepted. */
  ghost function Trimmed(e: Edges, these: seq<CallNode>, c: CallNode): (r: Edges)
    ensures r.Keys == e.Keys
  {
    map n | n in e :: if n in these && n != c then Removed(e[n], c) else e[n]
  }

  lemma TakeNext<T>(s: seq<T>, i: nat)
    requires i < |s|
    ensures s[..i + 1] == s[..i] + [s[i]]
  {
  }

  /** How often c occurs. */
  ghost function Loops(s: seq<CallNode>, c: CallNode): nat {
    if c in s then 1 else 0
  }

  lemma LoopsNext(s: seq<CallNode>, i: nat, c: CallNode)
    requires Distinct(s) && i < |s|
    ensures Loops(s[..i + 1], c) == Loops(s[..i], c) + (if s[i] == c then 1 else 0)
  {
    TakeNext(s, i);
    DistinctAt(s, i);
  }

  lemma TrimNext(e: Edges, these: seq<CallNode>, i: nat, c: CallNode)
    requires i < |these| && Distinct(these) && these[i] in e
    ensures var n := these[i]; Trimmed(e, these[..i], c)[n] == e[n]
    ensures var n := these[i];
      Trimmed(e, these[..i + 1], c) ==
        if n == c then Trimmed(e, these[..i], c) else Trimmed(e, these[..i], c)[n := Removed(e[n], c)]
  {
    TakeNext(these, i);
    DistinctAt(these, i);
  }

  /** Removes c from the in-edge lists of the calls it affects. */
  method DeleteOutedges(c: CallNode, g: Counters, ghost S: set<CallNode>, ghost inn: Edges)
    requires c in S && HoldsIn(S, inn) && Distinct(c.outedges) && forall n :: n in c.outedges ==> n in S
    modifies S`inedges, c`outcount, g`edges
    ensures HoldsIn(S, Trimmed(inn, c.outedges, c))
    ensures g.edges == old(g.edges) - |c.outedges|
    ensures c.outcount == if |c.outedges| > 0 then 0 else old(c.outcount)
  {
    var affected := c.outedges;
    var i := 0;
    while i < |affected|
      invariant 0 <= i <= |affected|
      invariant HoldsIn(S, Trimmed(inn, affected[..i], c))
      invariant g.edges == old(g.edges) - i && c.outcount == old(c.outcount)
    {
      TrimNext(inn, affected, i, c);
      if affected[i] != c {
        UnlinkInEdge(affected[i], c, S, Trimmed(inn, affected[..i], c));
      }
      g.edges := g.edges - 1;
      i := i + 1;
    }
    assert affected[..i] == affected;
    if |c.outedges| > 0 {
      c.outcount := 0;
    }
  }

  /** One dependency of c on n; a self-loop is left alone. */
  method DropDependency(n: CallNode, c: CallNode, g: Counters, ghost S: set<CallNode>, ghost out: Edges)
    requires n in S && HoldsOut(S, out) && OutCountsBut(S, out, c)
    requires n != c ==> Distinct(out[n]) && c in out[n]
    modifies n`outedges, n`outcount, g`edges
    ensures var out' := if n == c then out else out[n := Removed(out[n], c)];
      HoldsOut(S, out') && OutCountsBut(S, out', c)
    ensures n == c ==> c.outcount == old(c.outcount)
    ensures g.edges == if n == c then old(g.edges) else old(g.edges) - 1
  {
    if n != c {
      RemoveOutEdge(n, c, S, out);
      g.edges := g.edges - 1;
    }
  }

  /** Removes c from the out-edge tables of the calls it depends on; its own table is left alone. */
  method DeleteDependencyEdges(c: CallNode, g: Counters, ghost S: set<CallNode>, ghost out: Edges)
    requires c in S && HoldsOut(S, out) && Distinct(c.inedges)
    requires forall n :: n in c.inedges ==> n in S && c in out[n]
    requires forall n {:trigger Distinct(out[n])} :: n in c.inedges ==> Distinct(out[n])
    requires OutCountsBut(S, out, c)
    modifies S`outedges, S`outcount, g`edges
    ensures HoldsOut(S, Trimmed(out, c.inedges, c))
    ensures OutCountsBut(S, Trimmed(out, c.inedges, c), c)
    ensures c.outcount == old(c.outcount)
    ensures g.edges == old(g.edges) - |Removed(c.inedges, c)|
  {
    var depends := c.inedges;
    var i := 0;
    while i < |depends|
      invariant 0 <= i <= |depends|
      invariant HoldsOut(S, Trimmed(out, depends[..i], c)) && OutCountsBut(S, Trimmed(out, depends[..i], c), c)
      invariant c.outcount == old(c.outcount)
      invariant g.edges == old(g.edges) - i + Loops(depends[..i], c)
    {
      var n := depends[i];
      TrimNext(out, depends, i, c);
      LoopsNext(depends, i, c);
      assert Distinct(out[n]);
      DropDependency(n, c, g, S, Trimmed(out, depends[..i], c));
      i := i + 1;
    }
    assert depends[..i] == depends;
    RemovedDistinct(depends, c);
  }

  /** As `OutCounts`, for every node but c. */
  ghost predicate OutCountsBut(S: set<CallNode>, out: Edges, c: CallNode)
    reads S`outcount
  {
    out.Keys == S && forall n {:trigger n.outcount} :: n in S && n != c ==> n.outcount == Bump(0, |out[n]|)
  }

  /** Frees a node with no out-edges left. */
  method DeleteCallNode(c: CallNode, g: Counters) returns (ok: bool)
    modifies g`nodes
    ensures g.nodes == old(g.nodes) - 1
    ensures ok <==> c.outcount == 0
  {
    g.nodes := g.nodes - 1;
    ok := c.outcount == 0;
  }

  lemma TrimmedIsDetached(out: Edges, inn: Edges, c: CallNode)
    requires Converse(out, inn) && c in out
    ensures forall n :: n in out && n != c ==> Trimmed(out, inn[c], c)[n] == Detached(out, c)[n]
    ensures forall n :: n in inn && n != c ==> Trimmed(inn, out[c], c)[n] == Detached(inn, c)[n]
  {
    forall n | n in out && n != c
      ensures n in inn[c] || c !in out[n]
      ensures n in out[c] || c !in inn[n]
    {
      assert Edge(out, n, c) <==> Edge(inn, c, n);
      assert Edge(out, c, n) <==> Edge(inn, n, c);
    }
  }

  /** The lists with c taken out of those of all other nodes. */
  ghost predicate Cut(S: set<CallNode>, out: Edges, inn: Edges, c: CallNode)
    requires c in out && c in inn
    reads S`outedges, S`inedges, S`outcount
  {
    && HoldsOut(S, Trimmed(out, inn[c], c)) && OutCountsBut(S, Trimmed(out, inn[c], c), c)
    && HoldsIn(S, Trimmed(inn, out[c], c))
  }

  /** Cuts every edge of c. */
  method CutEdges(c: CallNode, g: Counters, ghost S: set<CallNode>, ghost out: Edges, ghost inn: Edges)
    requires c in S && HoldsOut(S, out) && HoldsIn(S, inn) && Converse(out, inn)
    requires OutCounts(S, out)
    modifies S`inedges, S`outedges, S`outcount, g`edges
    ensures c.outcount == 0 && g.edges == old(g.edges) - |out[c]| - |Removed(inn[c], c)|
    ensures Cut(S, out, inn, c)
  {
    CanDetach(out, inn, c);
    assert c.outcount == Bump(0, |out[c]|) && c.outedges == out[c];
    DeleteOutedges(c, g, S, inn);
    assert c.inedges == inn[c] && c.outcount == 0;
    DeleteDependencyEdges(c, g, S, out);
  }

  /** Taking a node out of the graph leaves a consistent graph without it and its edges. */
  method DetachCallNode(c: CallNode, g: Counters, ghost S: set<CallNode>, ghost out: Edges,
      ghost inn: Edges) returns (ok: bool)
    requires c in S && Consistent(S, g, out, inn)
    modifies S`inedges, S`outedges, S`outcount, g`edges, g`nodes
    ensures ok && Consistent(S - {c}, g, Detached(out, c), Detached(inn, c))
    ensures Ids(S, g.total) ==> Ids(S - {c}, g.total)
  {
    DetachedSizes(S, out, inn, c);
    CutEdges(c, g, S, out, inn);
    ok := DeleteCallNode(c, g);
    DetachedConsistent(S, g, out, inn, c);
  }

  lemma DetachedSizes(S: set<CallNode>, out: Edges, inn: Edges, c: CallNode)
    requires Converse(out, inn) && c in out && S == out.Keys
    ensures |EdgeSet(Detached(out, c))| == |EdgeSet(out)| - |out[c]| - |Removed(inn[c], c)|
    ensures |S - {c}| == |S| - 1
  {
    DetachedCount(out, inn, c);
  }

  lemma DetachedConsistent(S: set<CallNode>, g: Counters, out: Edges, inn: Edges, c: CallNode)
    requires Converse(out, inn) && c in out && S == out.Keys
    requires Cut(S, out, inn, c)
    requires g.edges == |EdgeSet(Detached(out, c))| && g.nodes == |S - {c}|
    ensures Consistent(S - {c}, g, Detached(out, c), Detached(inn, c))
  {
    DetachedFields(S, out, inn, c);
    DetachedConverse(out, inn, c);
  }

  lemma DetachedFields(S: set<CallNode>, out: Edges, inn: Edges, c: CallNode)
    requires Converse(out, inn) && c in out && S == out.Keys
    requires HoldsOut(S, Trimmed(out, inn[c], c)) && OutCountsBut(S, Trimmed(out, inn[c], c), c)
    requires HoldsIn(S, Trimmed(inn, out[c], c))
    ensures HoldsOut(S - {c}, Detached(out, c)) && OutCounts(S - {c}, Detached(out, c))
    ensures HoldsIn(S - {c}, Detached(inn, c))
  {
    TrimmedIsDetached(out, inn, c);
    assert Detached(out, c).Keys == S - {c} == Detached(inn, c).Keys;
  }

  lemma CanDetach(out: Edges, inn: Edges, c: CallNode)
    requires Converse(out, inn) && c in out
    ensures Distinct(out[c]) && Distinct(inn[c])
    ensures forall n :: n in out[c] ==> n in out
    ensures forall n :: n in inn[c] ==> n in out && Distinct(out[n]) && c in out[n]
  {
    forall n | n in out[c] ensures n in out {
      assert Edge(out, c, n);
    }
    forall n | n in inn[c] ensures n in out && Distinct(out[n]) && c in out[n] {
      assert Edge(inn, c, n);
      assert Edge(out, n, c);
    }
  }
}
