/** What holds in a run of the trail operations, of the branch worked on and those left: switching to any
    of them brings back its cells and its choice points. */
module TrailRuns {
  import opened TrailFrames
  import opened TrailStack
  import opened TrailBindings
  import opened TrailBranches

  predicate Shaped(b: Branch) {
    && |b.cps| == |b.depth| == |b.snaps|
    && forall i {:trigger b.depth[i]} :: 0 <= i < |b.depth| ==> b.depth[i] <= |b.frames|
  }

  /** The branch as it was when its i-th choice point was made. */
  function PointAt(b: Branch, i: nat): Branch
    requires Shaped(b) && i < |b.cps|
  {
    Branch(b.frames[..b.depth[i]], b.snaps[i], b.cps[..i + 1], b.depth[..i + 1], b.snaps[..i + 1])
  }

  function Last(b: Branch): ChoicePoint
    requires b.cps != []
  {
    b.cps[|b.cps| - 1]
  }

  predicate Below(s: Frozen, r: Frozen) {
    s.tr <= r.tr && s.h <= r.h && r.e <= s.e
  }

  predicate FrozenCell(a: nat, r: Frozen) {
    There(a, r.h, r.e)
  }

  /** The cell was there at the i-th choice point, which is older than the j-th frame. */
  predicate SeenAt(b: Branch, i: int, j: int, a: nat) {
    0 <= i < |b.cps| && i < |b.depth| && b.depth[i] <= j && There(a, b.cps[i].hb, b.cps[i].eb)
  }

  /** The j-th frame is about a cell that is frozen or was there at an older choice point; about a
      frozen cell, if it is itself in the frozen part of the trail. */
  ghost predicate Wanted(w: Words, b: Branch, r: Frozen, j: int) {
    0 <= j < |b.frames| ==>
      && IsFrame(w, b.frames[j])
      && var a := AddrOf(w, b.frames[j]);
        FrozenCell(a, r) || (b.frames[j] > r.tr && exists i :: SeenAt(b, i, j, a))
  }

  ghost predicate AllWanted(w: Words, b: Branch, r: Frozen) {
    forall j {:trigger Wanted(w, b, r, j)} :: Wanted(w, b, r, j)
  }

  ghost predicate Restoring(w: Words, b: Branch) {
    && Ordered(b.cps, b.depth)
    && AllRestore(w, Top(b.frames), b.frames, b.cells, b.cps, b.depth, b.snaps)
  }

  ghost predicate AllBelow(cps: seq<ChoicePoint>, r: Frozen) {
    forall i {:trigger cps[i]} :: 0 <= i < |cps| ==> Below(cps[i].saved, r)
  }

  /** The branch at its youngest choice point. */
  ghost predicate Point(w: Words, b: Branch) {
    && b.cps != [] && Restoring(w, b) && b.depth[|b.cps| - 1] == |b.frames| && b.snaps[|b.cps| - 1] == b.cells
    && Faithful(w, b.frames, b.cells) && AllThere(w, b.frames, Last(b).hb, Last(b).eb)
    && AllWanted(w, b, Last(b).saved) && AllBelow(b.cps, Last(b).saved)
    && Even(Last(b).saved.h) && Even(Last(b).saved.e)
  }

  ghost predicate Points(w: Words, b: Branch) {
    Shaped(b) && forall i {:trigger PointAt(b, i)} :: 0 <= i < |b.cps| ==> Point(w, PointAt(b, i))
  }

  /** What the branch left needs to be there is frozen. */
  ghost predicate Kept(w: Words, r: Frozen, b: Branch) {
    && Points(w, b) && b.cps != [] && b == PointAt(b, |b.cps| - 1)
    && Top(b.frames) <= r.tr && Last(b).hb <= r.h && r.e <= Last(b).eb && AllBelow(b.cps, r)
  }

  /** Undone down to where they fork, the two branches agree on the cells that were there when b
      was left. */
  ghost predicate Linked(w: Words, cur: Branch, b: Branch)
    requires b.cps != []
  {
    var f := Shared(cur.frames, b.frames);
    Agree(UndoTo(w, cur.frames, f, cur.cells), UndoTo(w, b.frames, f, b.cells), Last(b).hb, Last(b).eb)
  }

  /** The state of a run: the words, the freeze registers, the branch worked on, and those left. */
  ghost predicate Inv(w: Words, r: Frozen, cur: Branch, left: set<Branch>) {
    && Woven(w, r.tr, cur.frames, left) && Restoring(w, cur) && Faithful(w, cur.frames, cur.cells)
    && AllWanted(w, cur, r) && Points(w, cur) && AllBelow(cur.cps, r)
    && forall b {:trigger b in left} :: b in left ==> Kept(w, r, b) && Linked(w, cur, b)
  }

  lemma InvStart(r: Frozen, c: Cells)
    requires r.tr == 0
    ensures Inv([0], r, Branch([], c, [], [], []), {})
  {
  }

  /** The bounds of the cells that need trailing. */
  function HeapBound(b: Branch, r: Frozen): nat {
    if b.cps == [] then r.h else Max(Last(b).hb, r.h)
  }

  function StackBound(b: Branch, r: Frozen): nat {
    if b.cps == [] then r.e else Min(Last(b).eb, r.e)
  }

  /** All frames are about cells that need trailing. */
  lemma WantedThere(w: Words, b: Branch, r: Frozen)
    requires AllWanted(w, b, r) && Ordered(b.cps, b.depth)
    ensures AllThere(w, b.frames, HeapBound(b, r), StackBound(b, r))
  {
    forall j | 0 <= j < |b.frames|
      ensures IsFrame(w, b.frames[j]) && There(AddrOf(w, b.frames[j]), HeapBound(b, r), StackBound(b, r))
    {
      assert Wanted(w, b, r, j);
      var a := AddrOf(w, b.frames[j]);
      if !FrozenCell(a, r) {
        var i :| SeenAt(b, i, j, a);
        assert Older(b.cps, b.depth, i, |b.cps| - 1);
      }
    }
  }

  /** A cell that needs no trailing is changed. */
  lemma InvChange(w: Words, r: Frozen, cur: Branch, left: set<Branch>, a: nat, x: nat)
    requires Inv(w, r, cur, left) && Fresh(a, HeapBound(cur, r), StackBound(cur, r))
    requires Restoring(w, cur.(cells := cur.cells[a := x]))
    ensures Inv(w, r, cur.(cells := cur.cells[a := x]), left)
  {
    var c := cur.cells[a := x];
    var next := cur.(cells := c);
    WantedThere(w, cur, r);
    FaithfulAgree(w, cur.frames, cur.cells, c, HeapBound(cur, r), StackBound(cur, r));
    SamePoints(w, cur, next);
    forall j ensures Wanted(w, next, r, j) {
      WantedMore(w, cur, next, r, j);
    }
    forall b | b in left ensures Linked(w, next, b) {
      var f := Shared(cur.frames, b.frames);
      UndoToAgree(w, cur.frames, f, c, cur.cells, Last(b).hb, Last(b).eb);
      AgreeTrans(UndoTo(w, cur.frames, f, c), UndoTo(w, cur.frames, f, cur.cells), UndoTo(w, b.frames, f, b.cells),
        Last(b).hb, Last(b).eb);
    }
  }

  lemma SamePoints(w: Words, b: Branch, e: Branch)
    requires Points(w, b) && e.cps == b.cps && e.depth == b.depth && e.snaps == b.snaps && Shaped(e)
    requires forall i :: 0 <= i < |b.cps| ==> e.frames[..b.depth[i]] == b.frames[..b.depth[i]]
    ensures Points(w, e)
  {
    forall i | 0 <= i < |e.cps| ensures Point(w, PointAt(e, i)) {
      assert PointAt(e, i) == PointAt(b, i);
    }
  }

  lemma WantedMore(w: Words, b: Branch, e: Branch, r: Frozen, j: int)
    requires AllWanted(w, b, r) && b.cps <= e.cps && b.depth <= e.depth
    requires 0 <= j < |e.frames| ==> j < |b.frames| && e.frames[j] == b.frames[j]
    ensures Wanted(w, e, r, j)
  {
    if 0 <= j < |e.frames| {
      assert Wanted(w, b, r, j);
      var a := AddrOf(w, b.frames[j]);
      if !FrozenCell(a, r) {
        var i :| SeenAt(b, i, j, a);
        assert SeenAt(e, i, j, a);
      }
    }
  }

  /** The words up to m are the same. */
  predicate SameUpTo(w: Words, v: Words, m: nat) {
    m < |w| && m < |v| && forall i {:trigger v[i]} {:trigger w[i]} :: 0 <= i <= m ==> v[i] == w[i]
  }

  lemma SameUpToFrames(w: Words, v: Words, ps: seq<nat>, m: nat)
    requires IsChain(w, Top(ps), ps) && Top(ps) <= m && SameUpTo(w, v, m)
    ensures SameFrames(w, v, ps) && IsChain(v, Top(ps), ps)
  {
    ChainTop(w, Top(ps), ps);
    ChainSame(w, v, Top(ps), ps);
  }

  /** What a branch was does not change with words above it. */
  lemma PointSame(w: Words, v: Words, b: Branch)
    requires Point(w, b) && SameUpTo(w, v, Top(b.frames))
    ensures Point(v, b)
  {
    var n := |b.cps| - 1;
    assert Restores(w, Top(b.frames), b.frames, b.cells, b.cps[n], b.depth[n], b.snaps[n]);
    SameUpToFrames(w, v, b.frames, Top(b.frames));
    SameFor(w, v, b.frames, 0, b.cells);
    forall i | 0 <= i < |b.cps|
      ensures Restores(v, Top(b.frames), b.frames, b.cells, b.cps[i], b.depth[i], b.snaps[i])
    {
      RestoresSame(w, v, Top(b.frames), b.frames, b.cells, b.cps[i], b.depth[i], b.snaps[i]);
    }
    forall j ensures Wanted(v, b, Last(b).saved, j) {
      assert Wanted(w, b, Last(b).saved, j);
      assert 0 <= j < |b.frames| ==> SameFrame(w, v, b.frames[j]);
    }
    forall i | 0 <= i < |b.frames|
      ensures IsFrame(v, b.frames[i]) && There(AddrOf(v, b.frames[i]), Last(b).hb, Last(b).eb)
    {
      assert SameFrame(w, v, b.frames[i]);
    }
  }

  lemma PointsSame(w: Words, v: Words, b: Branch, m: nat)
    requires Points(w, b) && SameUpTo(w, v, m)
    requires forall i {:trigger b.depth[i]} :: 0 <= i < |b.cps| ==> Top(b.frames[..b.depth[i]]) <= m
    ensures Points(v, b)
  {
    forall i | 0 <= i < |b.cps| ensures Point(v, PointAt(b, i)) {
      PointSame(w, v, PointAt(b, i));
    }
  }

  lemma TopBelow(w: Words, ps: seq<nat>, k: nat)
    requires IsChain(w, Top(ps), ps) && k <= |ps|
    ensures Top(ps[..k]) <= Top(ps)
  {
    ChainTop(w, Top(ps), ps);
  }

  lemma PointTops(w: Words, b: Branch)
    requires Shaped(b) && IsChain(w, Top(b.frames), b.frames)
    ensures forall i {:trigger b.depth[i]} :: 0 <= i < |b.cps| ==> Top(b.frames[..b.depth[i]]) <= Top(b.frames)
  {
    forall i | 0 <= i < |b.cps| ensures Top(b.frames[..b.depth[i]]) <= Top(b.frames) {
      TopBelow(w, b.frames, b.depth[i]);
    }
  }

  lemma KeptSame(w: Words, v: Words, r: Frozen, b: Branch)
    requires Kept(w, r, b) && SameUpTo(w, v, r.tr)
    ensures Kept(v, r, b) && SameFrames(w, v, b.frames)
  {
    assert Point(w, PointAt(b, |b.cps| - 1));
    ChainOf(w, b);
    PointTops(w, b);
    PointsSame(w, v, b, r.tr);
    SameUpToFrames(w, v, b.frames, r.tr);
  }

  lemma ChainOf(w: Words, b: Branch)
    requires Point(w, b)
    ensures IsChain(w, Top(b.frames), b.frames)
  {
    var n := |b.cps| - 1;
    assert Restores(w, Top(b.frames), b.frames, b.cells, b.cps[n], b.depth[n], b.snaps[n]);
  }

  /** Where the branches stop being shared is told by the first frame that differs. */
  lemma SharedIs(a: seq<nat>, b: seq<nat>, f: nat)
    requires f <= |a| && f <= |b| && a[..f] == b[..f] && (f < |a| && f < |b| ==> a[f] != b[f])
    ensures Shared(a, b) == f
  {
    var g := Shared(a, b);
    assert forall i :: 0 <= i < f ==> a[i] == a[..f][i] == b[..f][i] == b[i];
    assert forall i :: 0 <= i < g ==> a[i] == a[..g][i] == b[..g][i] == b[i];
  }

  /** A branch that starts with the same frames and goes on with others of the first branch, or with
      new ones, is shared as far. */
  lemma SharedStays(w: Words, a: seq<nat>, b: seq<nat>, c: seq<nat>)
    requires IsChain(w, Top(a), a) && IsChain(w, Top(b), b) && Shared(a, b) <= |c|
    requires c[..Shared(a, b)] == a[..Shared(a, b)]
    requires forall i :: Shared(a, b) <= i < |c| ==> c[i] in a || c[i] !in b
    ensures Shared(c, b) == Shared(a, b)
  {
    var f := Shared(a, b);
    if f < |c| && f < |b| && c[f] == b[f] {
      var i :| 0 <= i < |a| && a[i] == c[f];
      SharedEarly(w, a, b, i, f);
    }
    SharedIs(c, b, f);
  }

  /** A frame is pushed for a cell that is changed. */
  lemma InvPush(w: Words, v: Words, r: Frozen, cur: Branch, left: set<Branch>, p: nat, c: Cells)
    requires Inv(w, r, cur, left) && |v| >= |w| && IsFrame(v, p) && v[p] == Top(cur.frames)
    requires var m := Max(Top(cur.frames), r.tr); m + FrameWords(v, p) == p && SameUpTo(w, v, m)
    requires There(AddrOf(v, p), HeapBound(cur, r), StackBound(cur, r)) && Get(c, AddrOf(v, p)) == v[p - 1]
    requires Agree(UndoAt(v, p, c), cur.cells, 0, 0)
    requires Restoring(v, cur.(frames := cur.frames + [p], cells := c))
    ensures Inv(v, r, cur.(frames := cur.frames + [p], cells := c), left)
  {
    var next := cur.(frames := cur.frames + [p], cells := c);
    var m := Max(Top(cur.frames), r.tr);
    WovenPush(w, v, r.tr, cur.frames, left, p);
    SameUpToFrames(w, v, cur.frames, m);
    PushFaithful(w, v, cur, p, c);
    PointTops(w, cur);
    PointsSame(w, v, cur, m);
    SamePoints(v, cur, next);
    forall j ensures Wanted(v, next, r, j) {
      PushWanted(w, v, r, cur, next, p, j);
    }
    forall b | b in left ensures Kept(v, r, b) && Linked(v, next, b) {
      KeptSame(w, v, r, b);
      ChainBelow(w, b.frames, r.tr);
      PushLinked(w, v, cur, next, p, b);
    }
  }

  lemma PushFaithful(w: Words, v: Words, cur: Branch, p: nat, c: Cells)
    requires Faithful(w, cur.frames, cur.cells) && SameFrames(w, v, cur.frames)
    requires IsFrame(v, p) && Get(c, AddrOf(v, p)) == v[p - 1] && Agree(UndoAt(v, p, c), cur.cells, 0, 0)
    requires IsChain(v, Top(cur.frames), cur.frames)
    ensures Faithful(v, cur.frames + [p], c)
  {
    SameFor(w, v, cur.frames, 0, cur.cells);
    ChainFrames(v, Top(cur.frames), cur.frames);
    FaithfulAgree(v, cur.frames, cur.cells, UndoAt(v, p, c), 0, 0);
    assert (cur.frames + [p])[..|cur.frames|] == cur.frames;
  }

  lemma PushWanted(w: Words, v: Words, r: Frozen, cur: Branch, next: Branch, p: nat, j: int)
    requires AllWanted(w, cur, r) && SameFrames(w, v, cur.frames) && IsFrame(v, p) && p > r.tr && Shaped(cur)
    requires There(AddrOf(v, p), HeapBound(cur, r), StackBound(cur, r))
    requires next.frames == cur.frames + [p] && next.cps == cur.cps && next.depth == cur.depth
    ensures Wanted(v, next, r, j)
  {
    if 0 <= j < |cur.frames| {
      assert Wanted(w, cur, r, j) && SameFrame(w, v, cur.frames[j]);
      var a := AddrOf(w, cur.frames[j]);
      if !FrozenCell(a, r) {
        var i :| SeenAt(cur, i, j, a);
        assert SeenAt(next, i, j, a);
      }
    } else if j == |cur.frames| && !FrozenCell(AddrOf(v, p), r) {
      assert SeenAt(next, |cur.cps| - 1, j, AddrOf(v, p));
    }
  }

  lemma PushLinked(w: Words, v: Words, cur: Branch, next: Branch, p: nat, b: Branch)
    requires b.cps != [] && Linked(w, cur, b) && next.frames == cur.frames + [p] && p !in b.frames
    requires SameFrames(w, v, cur.frames) && SameFrames(w, v, b.frames)
    requires IsChain(w, Top(cur.frames), cur.frames) && IsChain(w, Top(b.frames), b.frames)
    requires Agree(UndoAt(v, p, next.cells), cur.cells, 0, 0)
    ensures Linked(v, next, b)
  {
    var f := Shared(cur.frames, b.frames);
    var back := UndoAt(v, p, next.cells);
    SharedStays(w, cur.frames, b.frames, next.frames);
    SameFor(w, v, cur.frames, f, cur.cells);
    SameFor(w, v, b.frames, f, b.cells);
    assert next.frames[..|cur.frames|] == cur.frames;
    UndoToAgree(v, cur.frames, f, back, cur.cells, Last(b).hb, Last(b).eb);
    AgreeTrans(UndoTo(v, next.frames, f, next.cells), UndoTo(v, cur.frames, f, cur.cells), UndoTo(v, b.frames, f,
      b.cells), Last(b).hb, Last(b).eb);
  }

  lemma PointMade(w: Words, r: Frozen, cur: Branch, cp: ChoicePoint)
    requires Points(w, cur) && Restoring(w, WithPoint(cur, cp)) && Faithful(w, cur.frames, cur.cells)
    requires AllWanted(w, WithPoint(cur, cp), r) && AllBelow(cur.cps, r) && cp.saved == r && Even(r.h) && Even(r.e)
    requires Ordered(cur.cps, cur.depth) && AllWanted(w, cur, r)
    requires cp.hb >= HeapBound(cur, r) && cp.eb <= StackBound(cur, r)
    ensures Points(w, WithPoint(cur, cp))
  {
    var next := WithPoint(cur, cp);
    var n := |cur.cps|;
    WantedThere(w, cur, r);
    assert AllThere(w, next.frames, cp.hb, cp.eb);
    assert cur.frames[..|cur.frames|] == cur.frames;
    assert next.cps[..n + 1] == next.cps && next.depth[..n + 1] == next.depth && next.snaps[..n + 1] == next.snaps;
    assert Restores(w, Top(next.frames), next.frames, next.cells, next.cps[n], next.depth[n], next.snaps[n]);
    forall i | 0 <= i < |next.cps| ensures next.depth[i] <= |next.frames| && Point(w, PointAt(next, i)) {
      if i < n {
        assert PointAt(next, i) == PointAt(cur, i);
      } else {
        assert PointAt(next, i) == next;
      }
    }
  }

  /** A choice point is made. */
  lemma InvPoint(w: Words, r: Frozen, cur: Branch, left: set<Branch>, cp: ChoicePoint)
    requires Inv(w, r, cur, left) && cp.saved == r && Even(r.h) && Even(r.e)
    requires cp.hb >= HeapBound(cur, r) && cp.eb <= StackBound(cur, r)
    requires Restoring(w, WithPoint(cur, cp))
    ensures Inv(w, r, WithPoint(cur, cp), left)
  {
    var next := WithPoint(cur, cp);
    forall j ensures Wanted(w, next, r, j) {
      WantedMore(w, cur, next, r, j);
    }
    PointMade(w, r, cur, cp);
    forall b | b in left ensures Linked(w, next, b) {
      assert Linked(w, cur, b);
    }
  }

  function WithPoint(b: Branch, cp: ChoicePoint): Branch {
    b.(cps := b.cps + [cp], depth := b.depth + [|b.frames|], snaps := b.snaps + [b.cells])
  }

  /** Back to the m-th frame. */
  function UndoneTo(w: Words, b: Branch, m: nat): Branch
    requires m <= |b.frames|
  {
    b.(frames := b.frames[..m], cells := UndoTo(w, b.frames, m, b.cells))
  }

  /** The branch goes back to its youngest choice point. */
  lemma InvBack(w: Words, r: Frozen, cur: Branch, left: set<Branch>)
    requires Inv(w, r, cur, left) && cur.cps != []
    requires Restoring(w, UndoneTo(w, cur, cur.depth[|cur.cps| - 1]))
    ensures Inv(w, r, UndoneTo(w, cur, cur.depth[|cur.cps| - 1]), left)
  {
    var m := cur.depth[|cur.cps| - 1];
    var next := UndoneTo(w, cur, m);
    WovenBack(w, r.tr, cur.frames, left, m);
    FaithfulPrefix(w, cur.frames, m, cur.cells);
    forall j ensures Wanted(w, next, r, j) {
      WantedMore(w, cur, next, r, j);
    }
    forall i | 0 <= i < |cur.cps|
      ensures cur.depth[i] <= m && next.frames[..cur.depth[i]] == cur.frames[..cur.depth[i]]
    {
      assert Older(cur.cps, cur.depth, i, |cur.cps| - 1);
    }
    SamePoints(w, cur, next);
    forall b | b in left ensures Linked(w, next, b) {
      BackLinked(w, cur, m, b);
    }
  }

  lemma BackLinked(w: Words, cur: Branch, m: nat, b: Branch)
    requires b.cps != [] && Linked(w, cur, b) && m <= |cur.frames|
    ensures Linked(w, UndoneTo(w, cur, m), b)
  {
    var f := Shared(cur.frames, b.frames);
    var next := UndoneTo(w, cur, m);
    if f <= m {
      assert next.frames[..f] == cur.frames[..f];
      SharedIs(next.frames, b.frames, f);
      UndoToSplit(w, cur.frames, f, m, cur.cells);
    } else {
      assert next.frames[..m] == cur.frames[..m] == cur.frames[..f][..m] == b.frames[..f][..m] == b.frames[..m];
      SharedIs(next.frames, b.frames, m);
      LowerFork(w, cur, b, f, m);
      assert UndoTo(w, next.frames, m, next.cells) == next.cells;
    }
  }

  /** Branches that agree at their fork agree below it. */
  lemma LowerFork(w: Words, a: Branch, b: Branch, f: nat, m: nat)
    requires m <= f <= |a.frames| && f <= |b.frames| && a.frames[..f] == b.frames[..f] && b.cps != []
    requires Agree(UndoTo(w, a.frames, f, a.cells), UndoTo(w, b.frames, f, b.cells), Last(b).hb, Last(b).eb)
    ensures Agree(UndoTo(w, a.frames, m, a.cells), UndoTo(w, b.frames, m, b.cells), Last(b).hb, Last(b).eb)
  {
    UndoToSplit(w, a.frames, m, f, a.cells);
    UndoToSplit(w, b.frames, m, f, b.cells);
    UndoToAgree(w, a.frames[..f], m, UndoTo(w, a.frames, f, a.cells), UndoTo(w, b.frames, f, b.cells), Last(b).hb,
      Last(b).eb);
  }

  /** Without the choice points from the n-th on. */
  function WithoutPoints(b: Branch, n: nat): Branch
    requires Shaped(b) && n <= |b.cps|
  {
    b.(cps := b.cps[..n], depth := b.depth[..n], snaps := b.snaps[..n])
  }

  lemma FewerPoints(w: Words, b: Branch, n: nat)
    requires Points(w, b) && n <= |b.cps|
    ensures Points(w, WithoutPoints(b, n))
  {
    var e := WithoutPoints(b, n);
    forall i | 0 <= i < n ensures e.depth[i] <= |e.frames| && Point(w, PointAt(e, i)) {
      assert PointAt(e, i) == PointAt(b, i);
    }
  }

  /** The branch is at its youngest choice point, which is dropped. */
  lemma InvDrop(w: Words, r: Frozen, cur: Branch, left: set<Branch>)
    requires Inv(w, r, cur, left) && cur.cps != [] && cur.depth[|cur.cps| - 1] == |cur.frames|
    requires Restoring(w, WithoutPoints(cur, |cur.cps| - 1))
    ensures Inv(w, r, WithoutPoints(cur, |cur.cps| - 1), left)
  {
    var n := |cur.cps| - 1;
    var next := WithoutPoints(cur, n);
    FewerPoints(w, cur, n);
    forall j ensures Wanted(w, next, r, j) {
      WantedFewer(w, cur, r, n, j);
    }
    assert forall i :: 0 <= i < n ==> next.cps[i] == cur.cps[i];
    forall b | b in left ensures Linked(w, next, b) {
      assert Linked(w, cur, b);
    }
  }

  /** A frame older than the n-th choice point is about a cell that an older one has seen. */
  lemma WantedFewer(w: Words, b: Branch, r: Frozen, n: nat, j: int)
    requires AllWanted(w, b, r) && Shaped(b) && Ordered(b.cps, b.depth) && n <= |b.cps|
    requires n < |b.cps| && 0 <= j < |b.frames| ==> j < b.depth[n]
    ensures Wanted(w, WithoutPoints(b, n), r, j)
  {
    var e := WithoutPoints(b, n);
    assert Wanted(w, b, r, j);
    if 0 <= j < |b.frames| && !FrozenCell(AddrOf(w, b.frames[j]), r) {
      var a := AddrOf(w, b.frames[j]);
      var i :| SeenAt(b, i, j, a);
      assert Older(b.cps, b.depth, n, i);
      assert SeenAt(e, i, j, a);
    }
  }

  /** What a cut back to the n-th choice point leaves. */
  function CutTo(cur: Branch, n: nat, qs: seq<nat>): Branch
    requires Shaped(cur) && n <= |cur.cps|
  {
    WithoutPoints(cur, n).(frames := qs)
  }

  function CutLimits(cur: Branch, n: nat, r: Frozen): Limits
    requires 1 <= n <= |cur.cps|
  {
    Limits(cur.cps[n - 1].hb, cur.cps[n - 1].eb, r.h, r.e)
  }

  /** The frames that the tidying does not look at are about cells that still need trailing. */
  lemma CutLow(w: Words, r: Frozen, cur: Branch, n: nat)
    requires AllWanted(w, cur, r) && Restoring(w, cur) && Shaped(cur) && 1 <= n < |cur.cps|
    ensures LowThere(w, cur.frames, Max(r.tr, cur.cps[n].trtop), CutLimits(cur, n, r))
  {
    var m := cur.depth[n];
    assert Restores(w, Top(cur.frames), cur.frames, cur.cells, cur.cps[n], m, cur.snaps[n]);
    forall j | 0 <= j < |cur.frames| && cur.frames[j] <= Max(r.tr, cur.cps[n].trtop)
      ensures IsFrame(w, cur.frames[j])
      ensures FrozenCell(AddrOf(w, cur.frames[j]), r)
        || There(AddrOf(w, cur.frames[j]), cur.cps[n - 1].hb, cur.cps[n - 1].eb)
    {
      assert Wanted(w, cur, r, j);
      var a := AddrOf(w, cur.frames[j]);
      if !FrozenCell(a, r) {
        AboveTop(w, Top(cur.frames), cur.frames, m, j);
        var i :| SeenAt(cur, i, j, a);
        assert Older(cur.cps, cur.depth, n, i);
        assert Older(cur.cps, cur.depth, i, n - 1);
      }
    }
  }

  /** The frames that a cut leaves are wanted. */
  lemma CutWanted(w: Words, v: Words, r: Frozen, cur: Branch, n: nat, qs: seq<nat>, j: int)
    requires AllWanted(w, cur, r) && Shaped(cur) && Ordered(cur.cps, cur.depth) && 1 <= n < |cur.cps|
    requires var m := cur.depth[n]; m <= |qs| && qs[..m] == cur.frames[..m]
    requires SameFrames(w, v, qs) && forall p :: p in qs ==> p in cur.frames
    requires var lim := CutLimits(cur, n, r); AllThere(w, qs, Max(lim.hb, lim.hf), Min(lim.eb, lim.ef))
    ensures Wanted(v, CutTo(cur, n, qs), r, j)
  {
    var m, e := cur.depth[n], CutTo(cur, n, qs);
    if 0 <= j < m {
      assert cur.frames[j] == cur.frames[..m][j] == qs[..m][j] == qs[j];
      assert SameFrame(w, v, qs[j]);
      WantedFewer(w, cur, r, n, j);
      var a := AddrOf(w, qs[j]);
      if !FrozenCell(a, r) {
        var i :| SeenAt(WithoutPoints(cur, n), i, j, a);
        assert SeenAt(e, i, j, a);
      }
    } else if m <= j < |qs| {
      var a := AddrOf(w, qs[j]);
      assert SameFrame(w, v, qs[j]) && qs[j] in qs;
      var k :| 0 <= k < |cur.frames| && cur.frames[k] == qs[j];
      assert Wanted(w, cur, r, k);
      if !FrozenCell(a, r) {
        assert Older(cur.cps, cur.depth, n - 1, n);
        assert SeenAt(e, n - 1, j, a);
      }
    }
  }

  /** The branch is cut back to its n-th choice point, and tidied. */
  lemma InvCut(w: Words, v: Words, r: Frozen, cur: Branch, left: set<Branch>, n: nat, qs: seq<nat>)
    requires Inv(w, r, cur, left) && 1 <= n < |cur.cps| && ButLinks(w, v, qs)
    requires qs == Tidy(w, cur.frames, Max(r.tr, cur.cps[n].trtop), CutLimits(cur, n, r))
    requires SameUpTo(w, v, r.tr) && SameUpTo(w, v, cur.cps[n].trtop)
    requires Restoring(v, CutTo(cur, n, qs)) && IsChain(v, Top(qs), qs)
    ensures Inv(v, r, CutTo(cur, n, qs), left)
  {
    var m, lo, lim := cur.depth[n], Max(r.tr, cur.cps[n].trtop), CutLimits(cur, n, r);
    var next := CutTo(cur, n, qs);
    TidySub(w, cur.frames, lo, lim);
    WovenTidy(w, v, r.tr, cur.frames, left, qs);
    CutLow(w, r, cur, n);
    TidyThere(w, Top(cur.frames), cur.frames, lo, lim);
    TidyFaithful(w, Top(cur.frames), cur.frames, lo, lim, cur.cells);
    SameFor(w, v, qs, 0, cur.cells);
    CutPrefix(w, r, cur, n, qs, m, r.h, r.e);
    forall j ensures Wanted(v, next, r, j) {
      CutWanted(w, v, r, cur, n, qs, j);
    }
    CutPoints(w, v, cur, n, qs);
    forall b | b in left ensures Kept(v, r, b) && Linked(v, next, b) {
      KeptSame(w, v, r, b);
      CutLinked(w, v, r, cur, n, qs, b);
    }
  }

  /** The frames up to a place that is frozen, or below the choice point, stay. */
  lemma CutPrefix(w: Words, r: Frozen, cur: Branch, n: nat, qs: seq<nat>, k: nat, hb: nat, eb: nat)
    requires hb <= r.h && r.e <= eb
    requires Restoring(w, cur) && 1 <= n < |cur.cps| && k <= |cur.frames|
    requires IsChain(w, Top(cur.frames), cur.frames)
    requires qs == Tidy(w, cur.frames, Max(r.tr, cur.cps[n].trtop), CutLimits(cur, n, r))
    requires Top(cur.frames[..k]) <= r.tr || k == cur.depth[n]
    ensures k <= |qs| && qs[..k] == cur.frames[..k]
    ensures Agree(UndoTo(w, qs, k, cur.cells), UndoTo(w, cur.frames, k, cur.cells), hb, eb)
  {
    var lo, lim := Max(r.tr, cur.cps[n].trtop), CutLimits(cur, n, r);
    assert Restores(w, Top(cur.frames), cur.frames, cur.cells, cur.cps[n], cur.depth[n], cur.snaps[n]);
    ChainPrefix(w, Top(cur.frames), cur.frames, k);
    ChainTop(w, Top(cur.frames[..k]), cur.frames[..k]);
    forall i | 0 <= i < k ensures cur.frames[i] <= lo {
      assert cur.frames[i] == cur.frames[..k][i];
    }
    TidyUndo(w, cur.frames, k, lo, lim, cur.cells, hb, eb);
  }

  lemma CutPoints(w: Words, v: Words, cur: Branch, n: nat, qs: seq<nat>)
    requires Points(w, cur) && Restoring(w, cur) && 1 <= n < |cur.cps| && SameUpTo(w, v, cur.cps[n].trtop)
    requires cur.depth[n] <= |qs| && qs[..cur.depth[n]] == cur.frames[..cur.depth[n]]
    ensures Points(v, CutTo(cur, n, qs))
  {
    var m, next := cur.depth[n], CutTo(cur, n, qs);
    assert Restores(w, Top(cur.frames), cur.frames, cur.cells, cur.cps[n], m, cur.snaps[n]);
    ChainPrefix(w, Top(cur.frames), cur.frames, m);
    forall i | 0 <= i < n ensures next.depth[i] == cur.depth[i] <= m {
      assert Older(cur.cps, cur.depth, i, n);
    }
    forall i | 0 <= i < n ensures Point(v, PointAt(next, i)) {
      var d := cur.depth[i];
      assert qs[..d] == qs[..m][..d] == cur.frames[..m][..d] == cur.frames[..d];
      assert PointAt(next, i) == PointAt(cur, i);
      TopBelow(w, cur.frames[..m], d);
      PointSame(w, v, PointAt(cur, i));
    }
  }

  lemma CutLinked(w: Words, v: Words, r: Frozen, cur: Branch, n: nat, qs: seq<nat>, b: Branch)
    requires Restoring(w, cur) && Shaped(cur) && 1 <= n < |cur.cps| && IsChain(w, Top(cur.frames), cur.frames)
    requires qs == Tidy(w, cur.frames, Max(r.tr, cur.cps[n].trtop), CutLimits(cur, n, r))
    requires Kept(w, r, b) && Linked(w, cur, b) && SameFrames(w, v, qs) && SameFrames(w, v, b.frames)
    requires IsChain(w, Top(b.frames), b.frames)
    ensures Linked(v, CutTo(cur, n, qs), b)
  {
    var f := Shared(cur.frames, b.frames);
    TopBelow(w, b.frames, f);
    CutPrefix(w, r, cur, n, qs, f, Last(b).hb, Last(b).eb);
    TidySub(w, cur.frames, Max(r.tr, cur.cps[n].trtop), CutLimits(cur, n, r));
    SharedStays(w, cur.frames, b.frames, qs);
    SameFor(w, v, qs, f, cur.cells);
    SameFor(w, v, b.frames, f, b.cells);
    AgreeTrans(UndoTo(w, qs, f, cur.cells), UndoTo(w, cur.frames, f, cur.cells), UndoTo(w, b.frames, f, b.cells),
      Last(b).hb, Last(b).eb);
  }

  /** All the places that the branch can be gone back to. */
  ghost function PointsOf(b: Branch): set<Branch>
    requires Shaped(b)
  {
    set i: nat | i < |b.cps| :: PointAt(b, i)
  }

  lemma PointOfPoint(b: Branch, i: nat)
    requires Shaped(b) && Ordered(b.cps, b.depth) && i < |b.cps|
    ensures Shaped(PointAt(b, i))
    ensures forall k {:trigger PointAt(PointAt(b, i), k)} :: 0 <= k <= i ==> PointAt(PointAt(b, i), k) == PointAt(b, k)
  {
    var e := PointAt(b, i);
    forall k | 0 <= k <= i ensures e.depth[k] == b.depth[k] <= |e.frames| {
      assert Older(b.cps, b.depth, k, i);
    }
    forall k | 0 <= k <= i ensures PointAt(e, k) == PointAt(b, k) {
      assert b.frames[..b.depth[i]][..b.depth[k]] == b.frames[..b.depth[k]];
      assert b.cps[..i + 1][..k + 1] == b.cps[..k + 1] && b.depth[..i + 1][..k + 1] == b.depth[..k + 1];
      assert b.snaps[..i + 1][..k + 1] == b.snaps[..k + 1];
    }
  }

  /** A place the branch has come through can be left and gone back to, once it is frozen. */
  lemma FrozenPoint(w: Words, r: Frozen, cur: Branch, i: nat)
    requires Points(w, cur) && Restoring(w, cur) && i < |cur.cps| && AllBelow(cur.cps, r)
    requires Top(cur.frames) <= r.tr && cur.cps[i].hb <= r.h && r.e <= cur.cps[i].eb
    ensures Kept(w, r, PointAt(cur, i)) && Linked(w, cur, PointAt(cur, i))
  {
    var b, d := PointAt(cur, i), cur.depth[i];
    PointOfPoint(cur, i);
    assert Restores(w, Top(cur.frames), cur.frames, cur.cells, cur.cps[i], d, cur.snaps[i]);
    TopBelow(w, cur.frames, d);
    forall k | 0 <= k < |b.cps| ensures Point(w, PointAt(b, k)) {
      assert PointAt(b, k) == PointAt(cur, k);
    }
    assert cur.frames[..d] == b.frames[..d];
    SharedIs(cur.frames, b.frames, d);
    ChainUndo(w, Top(cur.frames), cur.frames, d, cur.cells);
    assert UndoTo(w, b.frames, d, b.cells) == b.cells;
  }

  lemma FrozenWanted(w: Words, r: Frozen, s: Frozen, cur: Branch)
    requires AllWanted(w, cur, r) && Ordered(cur.cps, cur.depth)
    requires s.h >= HeapBound(cur, r) && s.e <= StackBound(cur, r)
    ensures AllWanted(w, cur, s)
  {
    WantedThere(w, cur, r);
    forall j ensures Wanted(w, cur, s, j) {
      assert 0 <= j < |cur.frames| ==> There(AddrOf(w, cur.frames[j]), HeapBound(cur, r), StackBound(cur, r));
    }
  }

  lemma BelowMore(cps: seq<ChoicePoint>, r: Frozen, s: Frozen)
    requires AllBelow(cps, r) && Below(r, s)
    ensures AllBelow(cps, s)
  {
    forall i | 0 <= i < |cps| ensures Below(cps[i].saved, s) {
      assert Below(cps[i].saved, r);
    }
  }

  lemma KeptMore(w: Words, r: Frozen, s: Frozen, b: Branch)
    requires Kept(w, r, b) && Below(r, s)
    ensures Kept(w, s, b)
  {
    BelowMore(b.cps, r, s);
  }

  /** What there is is frozen: the branch can be left. */
  lemma InvFreeze(w: Words, r: Frozen, s: Frozen, cur: Branch, left: set<Branch>)
    requires Inv(w, r, cur, left) && s.tr == Max(r.tr, Top(cur.frames))
    requires s.h >= HeapBound(cur, r) && s.e <= StackBound(cur, r)
    ensures Inv(w, s, cur, left + PointsOf(cur))
  {
    WovenFreeze(w, r.tr, cur.frames, left, PointsOf(cur));
    FrozenWanted(w, r, s, cur);
    forall b | b in left + PointsOf(cur) ensures Kept(w, s, b) && Linked(w, cur, b) {
      if b in left {
        assert Kept(w, r, b) && Linked(w, cur, b);
        KeptMore(w, r, s, b);
      } else {
        var i: nat :| i < |cur.cps| && b == PointAt(cur, i);
        assert Older(cur.cps, cur.depth, i, |cur.cps| - 1);
        BelowMore(cur.cps, r, s);
        FrozenPoint(w, s, cur, i);
      }
    }
    BelowMore(cur.cps, r, s);
  }

  /** The branches that need no more than r frozen. */
  ghost function Within(left: set<Branch>, r: Frozen): set<Branch> {
    set b |
      && b in left && b.cps != [] && Top(b.frames) <= r.tr && Last(b).hb <= r.h && r.e <= Last(b).eb
      && AllBelow(b.cps, r)
  }

  /** The branch is at its youngest choice point, and freezes no more than had been when that was
      made. */
  lemma InvGiveBack(w: Words, r: Frozen, cur: Branch, left: set<Branch>)
    requires Inv(w, r, cur, left) && cur.cps != [] && cur.depth[|cur.cps| - 1] == |cur.frames|
    ensures Below(Last(cur).saved, r)
    ensures Inv(w, Last(cur).saved, cur, Within(left, Last(cur).saved))
  {
    var n, s := |cur.cps| - 1, Last(cur).saved;
    var at := PointAt(cur, n);
    assert Point(w, at) && Below(cur.cps[n].saved, r);
    assert at.frames == cur.frames && at.cps == cur.cps && at.depth == cur.depth;
    forall j ensures Wanted(w, cur, s, j) {
      WantedMore(w, at, cur, s, j);
    }
    WovenNarrow(w, r.tr, s.tr, cur.frames, left, Within(left, s));
    forall b | b in Within(left, s) ensures Kept(w, s, b) && Linked(w, cur, b) {
      assert Kept(w, r, b) && Linked(w, cur, b);
    }
  }

  /** The cells after switching from one branch to another. */
  function Switched(w: Words, cur: Branch, b: Branch): Cells {
    var f := Shared(cur.frames, b.frames);
    RedoTo(w, b.frames, f, UndoTo(w, cur.frames, f, cur.cells))
  }

  /** The branch gets back the cells it was left with. */
  lemma SwitchCells(w: Words, cur: Branch, b: Branch)
    requires b.cps != [] && Linked(w, cur, b) && Faithful(w, b.frames, b.cells)
    ensures Agree(Switched(w, cur, b), b.cells, Last(b).hb, Last(b).eb)
  {
    var f := Shared(cur.frames, b.frames);
    RedoAgree(w, b.frames, f, UndoTo(w, cur.frames, f, cur.cells), UndoTo(w, b.frames, f, b.cells), Last(b).hb,
      Last(b).eb);
    RedoUndo(w, b.frames, f, b.cells);
    AgreeTrans(Switched(w, cur, b), RedoTo(w, b.frames, f, UndoTo(w, b.frames, f, b.cells)), b.cells, Last(b).hb,
      Last(b).eb);
  }

  /** And its choice points restore what they did. */
  lemma SwitchRestoring(w: Words, b: Branch, c: Cells)
    requires Point(w, b) && Agree(c, b.cells, Last(b).hb, Last(b).eb)
    ensures Restoring(w, b.(cells := c))
  {
    forall i | 0 <= i < |b.cps| ensures Restores(w, Top(b.frames), b.frames, c, b.cps[i], b.depth[i], b.snaps[i]) {
      assert Restores(w, Top(b.frames), b.frames, b.cells, b.cps[i], b.depth[i], b.snaps[i]);
      assert Older(b.cps, b.depth, i, |b.cps| - 1);
      var d, cp := b.depth[i], b.cps[i];
      AgreeTrans(c, b.cells, b.cells, cp.hb, cp.eb);
      UndoAgree(w, Top(b.frames), b.frames, d, c, b.cells, cp.hb, cp.eb);
      AgreeTrans(Undo(w, Top(b.frames), b.frames, d, c), Undo(w, Top(b.frames), b.frames, d, b.cells), b.snaps[i],
        cp.hb, cp.eb);
    }
  }

  /** Another branch that shares more with the branch entered than the branch left does. */
  lemma LinkedAbove(w: Words, cur: Branch, b: Branch, e: Branch, y: Cells)
    requires b.cps != [] && e.cps != [] && Linked(w, cur, b) && Linked(w, cur, e)
    requires Faithful(w, b.frames, b.cells) && AllThere(w, b.frames, Last(b).hb, Last(b).eb)
    requires Faithful(w, e.frames, e.cells) && y == Switched(w, cur, b)
    requires Shared(cur.frames, b.frames) < Shared(b.frames, e.frames)
    ensures Linked(w, b.(cells := y), e)
  {
    var f, g := Shared(cur.frames, b.frames), Shared(b.frames, e.frames);
    var x, low := UndoTo(w, cur.frames, f, cur.cells), e.frames[..g];
    var hb, eb := Last(e).hb, Last(e).eb;
    assert e.frames[..f] == low[..f] == b.frames[..g][..f] == b.frames[..f];
    assert b.frames[f] == b.frames[..g][f] == low[f] == e.frames[f];
    SharedIs(cur.frames, e.frames, f);
    UndoRedo(w, b.frames, f, g, b.cells, x, Last(b).hb, Last(b).eb);
    var there := UndoTo(w, e.frames, g, e.cells);
    UndoToSplit(w, e.frames, f, g, e.cells);
    FaithfulPrefix(w, e.frames, g, e.cells);
    RedoUndo(w, low, f, there);
    RedoAgree(w, low, f, x, UndoTo(w, low, f, there), hb, eb);
    AgreeTrans(UndoTo(w, b.frames, g, y), RedoTo(w, low, f, x), RedoTo(w, low, f, UndoTo(w, low, f, there)), hb, eb);
    AgreeTrans(UndoTo(w, b.frames, g, y), RedoTo(w, low, f, UndoTo(w, low, f, there)), there, hb, eb);
  }

  /** One that does not. */
  lemma LinkedBelow(w: Words, cur: Branch, b: Branch, e: Branch, y: Cells)
    requires b.cps != [] && e.cps != [] && Linked(w, cur, b) && Linked(w, cur, e)
    requires Faithful(w, b.frames, b.cells) && AllThere(w, b.frames, Last(b).hb, Last(b).eb)
    requires y == Switched(w, cur, b)
    requires Shared(b.frames, e.frames) <= Shared(cur.frames, b.frames)
    ensures Linked(w, b.(cells := y), e)
  {
    var f, g, j := Shared(cur.frames, b.frames), Shared(b.frames, e.frames), Shared(cur.frames, e.frames);
    var x := UndoTo(w, cur.frames, f, cur.cells);
    var hb, eb := Last(e).hb, Last(e).eb;
    assert cur.frames[..g] == cur.frames[..f][..g] == b.frames[..f][..g] == b.frames[..g] == e.frames[..g];
    SharedAtLeast(cur.frames, e.frames, g);
    LowerFork(w, cur, e, j, g);
    UndoRedo(w, b.frames, f, f, b.cells, x, Last(b).hb, Last(b).eb);
    UndoToSplit(w, b.frames, g, f, y);
    UndoToSplit(w, cur.frames, g, f, cur.cells);
    UndoToAgree(w, b.frames[..f], g, UndoTo(w, b.frames, f, y), x, hb, eb);
    AgreeTrans(UndoTo(w, b.frames, g, y), UndoTo(w, cur.frames, g, cur.cells), UndoTo(w, e.frames, g, e.cells), hb, eb);
  }

  lemma SharedAtLeast(a: seq<nat>, b: seq<nat>, f: nat)
    requires f <= |a| && f <= |b| && a[..f] == b[..f]
    ensures Shared(a, b) >= f
  {
    assert forall i :: 0 <= i < f ==> a[i] == a[..f][i] == b[..f][i] == b[i];
  }

  /** The engine switches to a branch that was left. */
  lemma InvSwitch(w: Words, r: Frozen, cur: Branch, left: set<Branch>, b: Branch)
    requires Inv(w, r, cur, left) && b in left
    ensures Agree(Switched(w, cur, b), b.cells, Last(b).hb, Last(b).eb)
    ensures Inv(w, r, b.(cells := Switched(w, cur, b)), left)
  {
    var y := Switched(w, cur, b);
    var next := b.(cells := y);
    assert Kept(w, r, b) && Linked(w, cur, b) && Point(w, PointAt(b, |b.cps| - 1));
    SwitchCells(w, cur, b);
    SwitchRestoring(w, b, y);
    FaithfulAgree(w, b.frames, b.cells, y, Last(b).hb, Last(b).eb);
    WovenSwitch(w, r.tr, cur.frames, left, b);
    forall j ensures Wanted(w, next, r, j) {
      assert 0 <= j < |b.frames| ==> There(AddrOf(w, b.frames[j]), Last(b).hb, Last(b).eb);
    }
    SamePoints(w, b, next);
    forall e | e in left ensures Linked(w, next, e) {
      assert Kept(w, r, e) && Linked(w, cur, e) && Point(w, PointAt(e, |e.cps| - 1));
      if Shared(cur.frames, b.frames) < Shared(b.frames, e.frames) {
        LinkedAbove(w, cur, b, e, y);
      } else {
        LinkedBelow(w, cur, b, e, y);
      }
    }
  }
}
