/** Ordering the calls to re-evaluate before a call: depth-first search along depends-edges. */
module Recomputation {
  import opened CallGraph

  /** The nodes the search goes on to: tabled calls that are affected. */
  ghost function Live(S: set<CallNode>): set<CallNode>
    reads S`falsecount
  {
    set n | n in S && n.hasGoal && n.falsecount > 0
  }

  ghost function Done(S: set<CallNode>): set<CallNode>
    reads S`computeDirectly
  {
    set n | n in S && n.computeDirectly
  }

  ghost predicate AcyclicVia(e: Edges, via: set<CallNode>) {
    forall n {:trigger ReachPlus(e, via, n, n)} :: n in e ==> !ReachPlus(e, via, n, n)
  }

  /** Every affected call that x depends on is in `later`. */
  ghost predicate DepsIn(inn: Edges, live: set<CallNode>, x: CallNode, later: seq<CallNode>) {
    x in inn && forall y :: y in inn[x] && y in live && !y.leaf ==> y in later
  }

  /** In `calls + rest`, every call of `calls` precedes the affected calls it depends on. */
  ghost predicate Precedes(inn: Edges, live: set<CallNode>, calls: seq<CallNode>, rest: seq<CallNode>) {
    calls == [] || (DepsIn(inn, live, calls[0], calls[1..] + rest) && Precedes(inn, live, calls[1..], rest))
  }

  lemma {:induction false} PrecedesConcat(inn: Edges, live: set<CallNode>, a: seq<CallNode>, b: seq<CallNode>,
      rest: seq<CallNode>)
    requires Precedes(inn, live, a, b + rest) && Precedes(inn, live, b, rest)
    ensures Precedes(inn, live, a + b, rest)
  {
    if a == [] {
      assert a + b == b;
    } else {
      PrecedesConcat(inn, live, a[1..], b, rest);
      assert (a + b)[1..] == a[1..] + b;
      assert a[1..] + b + rest == a[1..] + (b + rest);
    }
  }

  /** The order, position by position. */
  lemma {:induction false} PrecedesAt(inn: Edges, live: set<CallNode>, calls: seq<CallNode>, i: nat, y: CallNode)
    requires Precedes(inn, live, calls, []) && i < |calls| && calls[i] in inn && y in inn[calls[i]]
    requires y in live && !y.leaf
    ensures exists j :: i < j < |calls| && calls[j] == y
  {
    if i == 0 {
      assert y in calls[1..];
      var j :| 0 <= j < |calls| - 1 && calls[1..][j] == y;
      assert calls[j + 1] == y;
    } else {
      PrecedesAt(inn, live, calls[1..], i - 1, y);
      var j :| i - 1 < j < |calls| - 1 && calls[1..][j] == y;
      assert calls[j + 1] == y;
    }
  }

  /** `added` holds each non-leaf of `nodes` once and nothing else. */
  ghost predicate Lists(added: seq<CallNode>, nodes: set<CallNode>) {
    && (forall i, j :: 0 <= i < j < |added| ==> added[i] != added[j])
    && (forall n {:trigger n in added} :: n in added ==> n in nodes && !n.leaf)
    && (forall n {:trigger n in nodes} :: n in nodes && !n.leaf ==> n in added)
  }

  lemma ListsConcat(a: seq<CallNode>, b: seq<CallNode>, m: set<CallNode>, n: set<CallNode>)
    requires Lists(a, m) && Lists(b, n) && m !! n
    ensures Lists(a + b, m + n)
  {
    forall i, j | 0 <= i < j < |a + b| ensures (a + b)[i] != (a + b)[j] {
      if i < |a| <= j {
        assert a[i] in a && b[j - |a|] in b;
      }
    }
  }

  /** What a node's flag promises: its affected dependencies have been flagged too. */
  ghost predicate Closed(inn: Edges, live: set<CallNode>, nodes: set<CallNode>, done: set<CallNode>) {
    forall n, y {:trigger n in nodes, y in inn[n]} :: n in nodes && n in inn && y in inn[n] && y in live ==> y in done
  }

  /** The in-edges come from the graph. */
  ghost predicate Inside(inn: Edges) {
    forall n, i :: n in inn && 0 <= i < |inn[n]| ==> inn[n][i] in inn
  }

  /** While c is visited, the flagged non-leaves are listed or are calls that led to c. */
  ghost predicate Ancestry(inn: Edges, live: set<CallNode>, c: CallNode, done: set<CallNode>, list: seq<CallNode>,
      gray: set<CallNode>) {
    && AcyclicVia(inn, live)
    && (forall n {:trigger n in list} {:trigger n in gray} :: n in done && !n.leaf ==> n in list || n in gray)
    && (forall g {:trigger Reach(inn, live, g, c)} :: g in gray ==> Reach(inn, live, g, c))
  }

  lemma AncestryDown(inn: Edges, live: set<CallNode>, c: CallNode, done: set<CallNode>, list: seq<CallNode>,
      gray: set<CallNode>,
      added: seq<CallNode>, nodes: set<CallNode>, n: CallNode)
    requires Ancestry(inn, live, c, done, list, gray) && Lists(added, nodes - {c})
    requires c in inn && n in inn[c] && n in live
    ensures Ancestry(inn, live, n, done + nodes, added + list, gray + {c})
  {
    assert ReachIn(inn, live, c, c, 0);
    forall g | g in gray + {c} ensures Reach(inn, live, g, n) {
      assert Reach(inn, live, g, c);
      ReachStep(inn, live, g, c, n);
    }
    forall m | m in done + nodes && !m.leaf ensures m in added + list || m in gray + {c} {
      if m in nodes && m != c {
        assert m in nodes - {c};
      }
    }
  }

  lemma HeadPrecedes(inn: Edges, live: set<CallNode>, c: CallNode, done: set<CallNode>, list: seq<CallNode>,
      gray: set<CallNode>,
      added: seq<CallNode>, nodes: set<CallNode>)
    requires Ancestry(inn, live, c, done, list, gray) && Lists(added, nodes - {c}) && c in inn
    requires forall y :: y in inn[c] && y in live ==> y in inn && y in done + nodes
    ensures DepsIn(inn, live, c, added + list)
  {
    assert ReachIn(inn, live, c, c, 0);
    forall y | y in inn[c] && y in live && !y.leaf ensures y in added + list {
      ReachStep(inn, live, c, c, y);
      if y in done && y in gray {
        assert Reach(inn, live, y, c);
        ReachStep(inn, live, y, c, y);
        assert false;
      }
      assert y != c;
      if y in nodes {
        assert y in nodes - {c};
      }
    }
  }

  lemma ReachThrough(inn: Edges, live: set<CallNode>, c: CallNode, n: CallNode, some: set<CallNode>,
      more: set<CallNode>)
    requires c in inn && n in inn[c] && n in live
    requires AllReached(inn, live, c, some) && AllReached(inn, live, n, more)
    ensures AllReached(inn, live, c, some + more)
  {
    forall x | x in more ensures Reach(inn, live, c, x) {
      assert Reach(inn, live, n, x);
      var k: nat :| ReachIn(inn, live, n, x, k);
      ReachPrepend(inn, live, c, n, x, k);
    }
  }

  lemma {:induction false} ReachPrepend(e: Edges, via: set<CallNode>, c: CallNode, n: CallNode, x: CallNode, k: nat)
    requires c in e && n in e[c] && n in via && ReachIn(e, via, n, x, k)
    ensures ReachIn(e, via, c, x, k + 1)
  {
    if k == 0 {
      assert ReachIn(e, via, c, c, 0);
    } else {
      var y :| y in e && x in e[y] && ReachIn(e, via, n, y, k - 1);
      ReachPrepend(e, via, c, n, y, k - 1);
    }
  }

  /** One dependency's list goes in front of what is listed already. */
  lemma Gather(inn: Edges, live: set<CallNode>, c: CallNode, was: set<CallNode>, list: seq<CallNode>,
      added: seq<CallNode>, nodes: set<CallNode>, n: CallNode, added': seq<CallNode>, nodes': set<CallNode>)
    requires c in inn && n in inn[c] && n in live && c in nodes
    requires Lists(added, nodes - {c}) && Lists(added', nodes') && nodes' !! was + nodes
    requires AllReached(inn, live, c, nodes) && AllReached(inn, live, n, nodes')
    requires Closed(inn, live, nodes - {c}, was + nodes)
    requires Closed(inn, live, nodes', was + nodes + nodes')
    ensures Lists(added' + added, nodes + nodes' - {c})
    ensures AllReached(inn, live, c, nodes + nodes')
    ensures Closed(inn, live, nodes + nodes' - {c}, was + nodes + nodes')
  {
    assert nodes + nodes' - {c} == nodes' + (nodes - {c});
    ListsConcat(added', added, nodes', nodes - {c});
    ReachThrough(inn, live, c, n, nodes, nodes');
  }

  /** c itself comes first. */
  lemma Finish(inn: Edges, live: set<CallNode>, c: CallNode, list: seq<CallNode>, added: seq<CallNode>,
      nodes: set<CallNode>, done: set<CallNode>)
    requires Lists(added, nodes - {c}) && c in nodes && c in inn
    requires Closed(inn, live, nodes - {c}, done)
    requires forall y :: y in inn[c] && y in live ==> y in done
    ensures Lists(if c.leaf then added else [c] + added, nodes) && Closed(inn, live, nodes, done)
    ensures Precedes(inn, live, added, list) && DepsIn(inn, live, c, added + list) ==>
      Precedes(inn, live, [c] + added, list)
  {
    forall n, y | n in nodes && n in inn && y in inn[n] && y in live ensures y in done {
      assert n == c || n in nodes - {c};
    }
    var all := [c] + added;
    assert all[1..] == added;
    forall i, j | 0 <= i < j < |all| ensures all[i] != all[j] {
      assert all[j] == added[j - 1] && added[j - 1] in added;
    }
    forall n | n in nodes && !n.leaf ensures n in all {
      assert n == c || n in nodes - {c};
    }
    if c.leaf {
      forall n | n in nodes && !n.leaf ensures n in added {
        assert n in nodes - {c};
      }
    }
  }

  /** Nothing keeps the node from being evaluated again. */
  ghost predicate Ready(n: CallNode)
    reads n`completed
  {
    n.leaf || n.completed
  }

  /** What stops the search from n stops it from c. */
  lemma ReachFurther(inn: Edges, live: set<CallNode>, c: CallNode, n: CallNode, S: set<CallNode>)
    requires c in inn && n in inn[c] && n in live
    requires exists x {:trigger Reach(inn, live, n, x)} :: x in S && Reach(inn, live, n, x) && !Ready(x)
    ensures exists x {:trigger Reach(inn, live, c, x)} :: x in S && Reach(inn, live, c, x) && !Ready(x)
  {
    var x :| x in S && Reach(inn, live, n, x) && !Ready(x);
    var k: nat :| ReachIn(inn, live, n, x, k);
    ReachPrepend(inn, live, c, n, x, k);
    assert Reach(inn, live, c, x);
  }

  /** Lists c and the affected calls it depends on, in the order in which to re-evaluate them,
      in front of `list`; on an acyclic graph every call precedes what it depends on. */
  method DfsDependencyEdges(c: CallNode, list: seq<CallNode>, ghost S: set<CallNode>, ghost inn: Edges,
      ghost live: set<CallNode>,
      ghost ordered: bool, ghost gray: set<CallNode>)
    returns (ok: bool, list': seq<CallNode>, ghost added: seq<CallNode>, ghost nodes: set<CallNode>)
    requires c in S && HoldsIn(S, inn) && Inside(inn) && live == Live(S)
    requires ordered ==> Ancestry(inn, live, c, Done(S), list, gray)
    modifies S`computeDirectly
    ensures ok ==> list' == added + list && Lists(added, nodes)
    ensures ok ==> nodes !! old(Done(S)) && Done(S) == old(Done(S)) + nodes && c in Done(S)
    ensures ok ==> AllReached(inn, live, c, nodes) && Closed(inn, live, nodes, Done(S))
    ensures ok && ordered ==> Precedes(inn, live, added, list)
    ensures ok ==> Ready(c) && forall n :: n in nodes ==> Ready(n)
    ensures !ok ==> exists n {:trigger Reach(inn, live, c, n)} :: n in S && Reach(inn, live, c, n) && !Ready(n)
    ensures old(Done(S)) <= Done(S)
    decreases S - Done(S)
  {
    added, nodes := [], {};
    assert ReachIn(inn, live, c, c, 0) && Reach(inn, live, c, c);
    if !c.leaf && !c.completed {
      return false, list, added, nodes;
    }
    if c.computeDirectly {
      return true, list, added, nodes;
    }
    ghost var was := Done(S);
    c.computeDirectly := true;
    nodes := {c};
    list' := list;
    var depends := c.inedges;
    var i := 0;
    while i < |depends|
      invariant 0 <= i <= |depends| && depends == inn[c]
      invariant list' == added + list && Lists(added, nodes - {c})
      invariant nodes !! was && Done(S) == was + nodes && c in nodes
      invariant AllReached(inn, live, c, nodes) && Closed(inn, live, nodes - {c}, Done(S))
      invariant forall y :: y in depends[..i] && y in live ==> y in Done(S)
      invariant ordered ==> Precedes(inn, live, added, list)
      invariant forall n :: n in nodes ==> Ready(n)
    {
      var n := depends[i];
      if n.hasGoal && n.falsecount > 0 {
        if ordered {
          AncestryDown(inn, live, c, was, list, gray, added, nodes, n);
        }
        ghost var added', nodes';
        ok, list', added', nodes' := DfsDependencyEdges(n, list', S, inn, live, ordered, gray + {c});
        if !ok {
          ReachFurther(inn, live, c, n, S);
          return;
        }
        Gather(inn, live, c, was, list, added, nodes, n, added', nodes');
        if ordered {
          PrecedesConcat(inn, live, added', added, list);
        }
        added, nodes := added' + added, nodes + nodes';
      }
      assert depends[..i + 1] == depends[..i] + [n];
      i := i + 1;
    }
    assert depends[..i] == depends;
    ok := true;
    if ordered {
      HeadPrecedes(inn, live, c, was, list, gray, added, nodes);
    }
    Finish(inn, live, c, list, added, nodes, Done(S));
    if !c.leaf {
      ConsAppend(c, added, list);
      list' := [c] + list';
      added := [c] + added;
    }
  }

  lemma ConsAppend<T>(x: T, a: seq<T>, b: seq<T>)
    ensures [x] + (a + b) == [x] + a + b
  {
  }

  /** Leaves depend on nothing. */
  ghost predicate LeavesLast(inn: Edges) {
    forall n {:trigger inn[n]} :: n in inn && n.leaf ==> inn[n] == []
  }

  /** A fresh list for c: with no call flagged it holds c and every affected call c depends on,
      directly or not, each once, and on an acyclic graph in a possible order of re-evaluation. It fails
      exactly when one of these is not completed. */
  method CallsToReevaluate(c: CallNode, ghost S: set<CallNode>, ghost inn: Edges) returns (ok: bool,
      list: seq<CallNode>)
    requires c in S && HoldsIn(S, inn) && Inside(inn) && LeavesLast(inn) && forall n :: n in Done(S) ==> n.leaf
    modifies S`computeDirectly
    ensures ok <==> forall n :: n in Hit(inn, Live(S), c) ==> Ready(n)
    ensures ok ==> forall n {:trigger n.computeDirectly} :: n in S && n.computeDirectly ==> n.leaf || n in list
    ensures ok ==> Lists(list, Hit(inn, Live(S), c))
    ensures ok && AcyclicVia(inn, Live(S)) ==> Precedes(inn, Live(S), list, [])
  {
    ghost var live, was := Live(S), Done(S);
    ghost var added, nodes;
    ok, list, added, nodes := DfsDependencyEdges(c, [], S, inn, live, AcyclicVia(inn, live), {});
    if ok {
      assert list == added && Done(S) == was + nodes;
      FlaggedIsReached(inn, live, c, nodes, was);
    }
  }

  lemma FlaggedIsReached(inn: Edges, live: set<CallNode>, c: CallNode, nodes: set<CallNode>, was: set<CallNode>)
    requires c in was + nodes && was + nodes <= inn.Keys && LeavesLast(inn) && forall n :: n in was ==> n.leaf
    requires AllReached(inn, live, c, nodes) && Closed(inn, live, nodes, was + nodes)
    ensures forall n: CallNode :: !n.leaf ==> (n in nodes <==> n in Hit(inn, live, c))
  {
    forall n | n in nodes ensures Reach(inn, live, c, n) {
    }
    forall n | n in Hit(inn, live, c) ensures n in was + nodes {
      var k: nat :| ReachIn(inn, live, c, n, k);
      ClosedContainsReach(inn, live, c, n, k, was + nodes);
    }
  }
}
