/** Finding the clauses that may match a goal, one after the other. */
module ClauseLookup {
  import opened SobIndex

  /** The first level whose argument is bound in the goal, or 0 if there is none. */
  function UsableFrom(goal: seq<Key>, l: nat): (il: nat)
    requires 1 <= l <= |goal| + 1
    ensures il == 0 ==> forall j :: l - 1 <= j < |goal| ==> goal[j].Unbound?
    ensures il > 0 ==> l <= il <= |goal| && goal[il - 1].Bound? && forall j :: l - 1 <= j < il - 1 ==> goal[j].Unbound?
    decreases |goal| - l
  {
    if l == |goal| + 1 then 0 else if goal[l - 1].Bound? then l else UsableFrom(goal, l + 1)
  }

  function KeyOf(goal: seq<Key>, il: nat): Key
    requires il <= |goal|
  {
    if il == 0 then Unbound else goal[il - 1]
  }

  /** The level of the blocks that are searched. */
  function Depth(il: nat, ni: nat): nat {
    if il == 0 then ni else il
  }

  /** The clauses tried in a block at that level: one bucket, or without an index all of them. */
  function Tried(s: Sob, il: nat, key: Key): seq<Clause> {
    if il > 0 then Hits(s, key) else if s.below.Clauses? then s.below.cls else []
  }

  /** A clause: the i-th of those tried in the block a path leads to. */
  datatype Cursor = Cursor(path: seq<nat>, i: nat)
  datatype Found = None | Some(cur: Cursor)

  predicate IsCursor(ss: seq<Sob>, ni: nat, il: nat, key: Key, c: Cursor) {
    IsPath(ss, c.path) && |c.path| == Depth(il, ni) && c.i < |Tried(At(ss, c.path), il, key)|
  }

  function ClauseAt(ss: seq<Sob>, ni: nat, il: nat, key: Key, c: Cursor): Clause
    requires IsCursor(ss, ni, il, key, c)
  {
    Tried(At(ss, c.path), il, key)[c.i]
  }

  /** What is tried after a clause. */
  function Remaining(ss: seq<Sob>, ni: nat, il: nat, key: Key, c: Cursor): seq<Clause>
    requires IsCursor(ss, ni, il, key, c)
  {
    Tried(At(ss, c.path), il, key)[c.i + 1..] + After(ss, 1, c.path, il, key)
  }

  /** What is found is the first of what is to be tried, and the rest remains. */
  ghost predicate Heads(ss: seq<Sob>, ni: nat, il: nat, key: Key, r: Found, todo: seq<Clause>) {
    match r
    case None => todo == []
    case Some(c) =>
      IsCursor(ss, ni, il, key, c) && todo == [ClauseAt(ss, ni, il, key, c)] + Remaining(ss, ni, il, key, c)
  }

  lemma {:induction false} GoodAt(ss: seq<Sob>, l: nat, ni: nat, path: seq<nat>)
    requires Good(Sobs(ss), l, ni) && IsPath(ss, path)
    ensures l + |path| - 1 <= ni && GoodSob(At(ss, path), l + |path| - 1, ni)
  {
    assert GoodSob(ss[path[0]], l, ni);
    if |path| > 1 {
      GoodAt(ss[path[0]].below.sobs, l + 1, ni, path[1..]);
    }
  }

  lemma SobBelow(s: Sob, l: nat, ni: nat)
    requires GoodSob(s, l, ni)
    ensures l <= ni && if l < ni then s.below.Sobs? && s.below.sobs != [] else s.below.Clauses? && s.below.cls != []
  {
    match s.below
    case Clauses(cs) =>
      assert All(s.below) == cs;
    case Sobs(ss) =>
      assert All(s.below) == AllOf(ss);
  }

  /** A block above the searched level has blocks below it; one at that level is searched. */
  lemma BlockBelow(ss: seq<Sob>, ni: nat, path: seq<nat>)
    requires Good(Sobs(ss), 1, ni) && IsPath(ss, path)
    ensures |path| <= ni && if |path| < ni then At(ss, path).below.Sobs? && At(ss, path).below.sobs != []
      else At(ss, path).below.Clauses? && At(ss, path).below.cls != []
  {
    GoodAt(ss, 1, ni, path);
    SobBelow(At(ss, path), |path|, ni);
  }

  lemma OnwardTried(ss: seq<Sob>, ni: nat, il: nat, key: Key, path: seq<nat>)
    requires Good(Sobs(ss), 1, ni) && IsPath(ss, path) && |path| == Depth(il, ni)
    ensures Onward(ss, 1, path, il, key) == Tried(At(ss, path), il, key) + After(ss, 1, path, il, key)
  {
    BlockBelow(ss, ni, path);
    var s := At(ss, path);
    if il == 0 {
      assert Visit(s.below, |path| + 1, il, key) == s.below.cls;
    }
    assert VisitSob(s, |path|, il, key) == Tried(s, il, key);
  }

  /** The path to the first block at the searched level below the one given. */
  method GoDown(ss: seq<Sob>, ni: nat, il: nat, key: Key, path0: seq<nat>) returns (path: seq<nat>)
    requires Good(Sobs(ss), 1, ni) && il <= ni && IsPath(ss, path0) && |path0| <= Depth(il, ni)
    ensures IsPath(ss, path) && |path| == Depth(il, ni)
    ensures Onward(ss, 1, path0, il, key) == Onward(ss, 1, path, il, key)
    ensures SobWeight(At(ss, path)) + WeightAfter(ss, path) <= SobWeight(At(ss, path0)) + WeightAfter(ss, path0)
  {
    path := path0;
    while |path| < Depth(il, ni)
      invariant IsPath(ss, path) && |path| <= Depth(il, ni)
      invariant Onward(ss, 1, path0, il, key) == Onward(ss, 1, path, il, key)
      invariant SobWeight(At(ss, path)) + WeightAfter(ss, path) <= SobWeight(At(ss, path0)) + WeightAfter(ss, path0)
    {
      BlockBelow(ss, ni, path);
      DownPath(ss, path);
      StepDown(ss, 1, path, il, key);
      path := path + [0];
    }
  }

  /** Goes down from a top-level block until an index can be used, or there are no more. */
  method FindUsableIndex(ss: seq<Sob>, ni: nat, goal: seq<Key>, i: nat) returns (il: nat, path: seq<nat>)
    requires Good(Sobs(ss), 1, ni) && |goal| == ni && i < |ss|
    ensures il == UsableFrom(goal, 1) && IsPath(ss, path) && |path| == Depth(il, ni)
    ensures Onward(ss, 1, [i], il, KeyOf(goal, il)) == Onward(ss, 1, path, il, KeyOf(goal, il))
    ensures SobWeight(At(ss, path)) + WeightAfter(ss, path) <= SobWeight(At(ss, [i])) + WeightAfter(ss, [i])
  {
    ghost var usable := UsableFrom(goal, 1);
    path := [i];
    BlockBelow(ss, ni, path);
    while true
      invariant IsPath(ss, path) && |path| <= ni && UsableFrom(goal, |path|) == usable
      invariant Onward(ss, 1, [i], usable, KeyOf(goal, usable)) == Onward(ss, 1, path, usable, KeyOf(goal, usable))
      invariant SobWeight(At(ss, path)) + WeightAfter(ss, path) <= SobWeight(At(ss, [i])) + WeightAfter(ss, [i])
      decreases ni - |path|
    {
      if goal[|path| - 1].Bound? {
        il := |path|;
        return;
      }
      BlockBelow(ss, ni, path);
      if At(ss, path).below.Clauses? {
        il := 0;
        return;
      }
      DownPath(ss, path);
      StepDown(ss, 1, path, usable, KeyOf(goal, usable));
      path := path + [0];
    }
  }

  /** The next block to be searched: up until there is a block after, and on to it. */
  method NextSob(ss: seq<Sob>, ni: nat, goal: seq<Key>, il: nat, path0: seq<nat>) returns (found: bool, path: seq<nat>)
    requires Good(Sobs(ss), 1, ni) && |goal| == ni && il == UsableFrom(goal, 1)
    requires IsPath(ss, path0) && |path0| <= Depth(il, ni)
    ensures !found ==> After(ss, 1, path0, il, KeyOf(goal, il)) == []
    ensures found ==> IsPath(ss, path) && |path| <= Depth(il, ni)
    ensures found ==> After(ss, 1, path0, il, KeyOf(goal, il)) == Onward(ss, 1, path, il, KeyOf(goal, il))
    ensures found ==> SobWeight(At(ss, path)) + WeightAfter(ss, path) <= WeightAfter(ss, path0)
  {
    ghost var key := KeyOf(goal, il);
    path := path0;
    while path[|path| - 1] + 1 == |Siblings(ss, path)|
      invariant IsPath(ss, path) && |path| <= |path0|
      invariant After(ss, 1, path0, il, key) == After(ss, 1, path, il, key)
      invariant WeightAfter(ss, path) <= WeightAfter(ss, path0)
      decreases |path|
    {
      if |path| > 1 {
        UpPath(ss, path);
      }
      StepUp(ss, 1, path, il, key);
      if |path| == 1 {
        return false, path;
      }
      path := path[..|path| - 1];
    }
    LastInRange(ss, path);
    NextPath(ss, path);
    StepNext(ss, 1, path, il, key);
    path := Next(path);
    if |path| == 1 {
      assert path == [path[0]];
      var again;
      again, path := FindUsableIndex(ss, ni, goal, path[0]);
    }
    found := true;
  }

  lemma {:induction false} LastInRange(ss: seq<Sob>, path: seq<nat>)
    requires IsPath(ss, path)
    ensures path[|path| - 1] < |Siblings(ss, path)|
  {
    if |path| > 1 {
      LastInRange(ss[path[0]].below.sobs, path[1..]);
    }
  }

  lemma OnwardHeads(ss: seq<Sob>, ni: nat, il: nat, key: Key, path: seq<nat>)
    requires Good(Sobs(ss), 1, ni) && IsPath(ss, path) && |path| == Depth(il, ni)
    ensures if Tried(At(ss, path), il, key) == [] then Onward(ss, 1, path, il, key) == After(ss, 1, path, il, key)
      else Heads(ss, ni, il, key, Some(Cursor(path, 0)), Onward(ss, 1, path, il, key))
  {
    OnwardTried(ss, ni, il, key, path);
    var tried := Tried(At(ss, path), il, key);
    if tried != [] {
      assert tried == [tried[0]] + tried[1..];
    }
  }

  /** The first clause to be tried, from the given block on. */
  method FirstClauseSob(ss: seq<Sob>, ni: nat, goal: seq<Key>, il: nat, path0: seq<nat>) returns (r: Found)
    requires Good(Sobs(ss), 1, ni) && |goal| == ni && il == UsableFrom(goal, 1)
    requires IsPath(ss, path0) && |path0| <= Depth(il, ni)
    ensures Heads(ss, ni, il, KeyOf(goal, il), r, Onward(ss, 1, path0, il, KeyOf(goal, il)))
  {
    var key := KeyOf(goal, il);
    var path := path0;
    while true
      invariant IsPath(ss, path) && |path| <= Depth(il, ni)
      invariant Onward(ss, 1, path0, il, key) == Onward(ss, 1, path, il, key)
      decreases SobWeight(At(ss, path)) + WeightAfter(ss, path)
    {
      path := GoDown(ss, ni, il, key, path);
      OnwardHeads(ss, ni, il, key, path);
      if Tried(At(ss, path), il, key) != [] {
        return Some(Cursor(path, 0));
      }
      var found, next := NextSob(ss, ni, goal, il, path);
      if !found {
        return None;
      }
      path := next;
    }
  }

  /** The first clause to be tried for a goal, and the level of the index it uses. */
  method FirstClref(ss: seq<Sob>, ni: nat, goal: seq<Key>) returns (r: Found, il: nat)
    requires Good(Sobs(ss), 1, ni) && |goal| == ni
    ensures il == UsableFrom(goal, 1)
    ensures Heads(ss, ni, il, KeyOf(goal, il), r, VisitOf(ss, 1, il, KeyOf(goal, il)))
  {
    if ss == [] {
      il := UsableFrom(goal, 1);
      return None, il;
    }
    var path;
    il, path := FindUsableIndex(ss, ni, goal, 0);
    assert ss[0 + 1..] == ss[1..] && After(ss, 1, [0], il, KeyOf(goal, il)) == VisitOf(ss[1..], 1, il, KeyOf(goal, il));
    r := FirstClauseSob(ss, ni, goal, il, path);
  }

  /** The clause to be tried after the given one. */
  method NextClref(ss: seq<Sob>, ni: nat, goal: seq<Key>, il: nat, c: Cursor) returns (r: Found)
    requires Good(Sobs(ss), 1, ni) && |goal| == ni && il == UsableFrom(goal, 1)
    requires IsCursor(ss, ni, il, KeyOf(goal, il), c)
    ensures Heads(ss, ni, il, KeyOf(goal, il), r, Remaining(ss, ni, il, KeyOf(goal, il), c))
  {
    var tried := Tried(At(ss, c.path), il, KeyOf(goal, il));
    if c.i + 1 < |tried| {
      assert tried[c.i + 1..] == [tried[c.i + 1]] + tried[c.i + 2..];
      return Some(Cursor(c.path, c.i + 1));
    }
    assert tried[c.i + 1..] == [];
    var found, path := NextSob(ss, ni, goal, il, c.path);
    if !found {
      return None;
    }
    r := FirstClauseSob(ss, ni, goal, il, path);
  }

  /** All the clauses that are tried for a goal. */
  method TryAll(ss: seq<Sob>, ni: nat, goal: seq<Key>) returns (tried: seq<Clause>)
    requires Good(Sobs(ss), 1, ni) && |goal| == ni
    ensures var il := UsableFrom(goal, 1); tried == VisitOf(ss, 1, il, KeyOf(goal, il))
  {
    tried := [];
    var r, il := FirstClref(ss, ni, goal);
    ghost var key := KeyOf(goal, il);
    ghost var todo := VisitOf(ss, 1, il, key);
    while r.Some?
      invariant Heads(ss, ni, il, key, r, todo)
      invariant tried + todo == VisitOf(ss, 1, il, key)
      decreases |todo|
    {
      tried := tried + [ClauseAt(ss, ni, il, KeyOf(goal, il), r.cur)];
      todo := Remaining(ss, ni, il, key, r.cur);
      r := NextClref(ss, ni, goal, il, r.cur);
    }
  }
}
