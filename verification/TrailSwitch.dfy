/** Switching from one branch of a frozen trail to another: the bindings of the branch left are
    undone and those of the branch entered are made again, on the way back up links that have been
    turned around. */
module TrailSwitch {
  import opened TrailFrames
  import opened TrailBindings

  /** The frames of a branch, and the bottom of the trail below them. */
  function Line(frames: seq<nat>): (l: seq<nat>)
    ensures |l| == |frames| + 1 && l[0] == 0 && forall i :: 0 <= i < |frames| ==> l[i + 1] == frames[i]
  {
    [0] + frames
  }

  ghost predicate Joint(w: Words, l: seq<nat>, k: int) {
    0 < k < |l| ==> IsFrame(w, l[k]) && w[l[k]] == l[k - 1]
  }

  ghost predicate Gap(l: seq<nat>, j: int, k: int) {
    0 <= j < k < |l| ==> l[j] + 3 <= l[k]
  }

  /** The parent of every frame is the one before it. */
  ghost predicate LinkedLine(w: Words, l: seq<nat>) {
    && l != [] && l[0] == 0 && |w| > 0 && w[0] == 0
    && (forall k {:trigger Joint(w, l, k)} :: Joint(w, l, k))
    && (forall j, k {:trigger Gap(l, j, k)} :: Gap(l, j, k))
  }

  lemma {:induction false} ChainLine(w: Words, t: nat, ps: seq<nat>)
    requires IsChain(w, t, ps)
    ensures LinkedLine(w, Line(ps)) && t == Line(ps)[|ps|]
  {
    if ps != [] {
      var n := |ps| - 1;
      ChainLine(w, w[t], ps[..n]);
      var l, low := Line(ps), Line(ps[..n]);
      assert forall k :: 0 <= k <= n ==> l[k] == low[k];
      forall k ensures Joint(w, l, k) {
        assert Joint(w, low, k);
      }
      forall j, k ensures Gap(l, j, k) {
        assert Gap(low, j, k) && Gap(low, j, n);
      }
    }
  }

  /** x is the place of a link of the line from p up to the last but one. */
  ghost predicate IsLink(l: seq<nat>, p: nat, x: int) {
    exists q :: p <= q < |l| - 1 && l[q] == x
  }

  ghost predicate TurnedAt(v: Words, l: seq<nat>, q: int) {
    0 <= q < |l| - 1 ==> l[q] < |v| && v[l[q]] == l[q + 1]
  }

  /** The words, when the links of the line from p up to the last but one are turned around. */
  ghost predicate Turned(w: Words, v: Words, l: seq<nat>, p: nat) {
    && |v| == |w| && p < |l|
    && (forall q {:trigger TurnedAt(v, l, q)} :: p <= q ==> TurnedAt(v, l, q))
    && forall x {:trigger v[x]} :: 0 <= x < |w| && !IsLink(l, p, x) ==> v[x] == w[x]
  }

  /** The branches share the line up to f, and the frames of the first above it have no word in
      common with the links of the second. */
  ghost predicate Fork(w: Words, ls: seq<nat>, lt: seq<nat>, f: nat) {
    && LinkedLine(w, ls) && LinkedLine(w, lt) && f < |ls| && f < |lt| && ls[..f + 1] == lt[..f + 1]
    && forall i, k {:trigger Apart(w, ls, lt, i, k)} :: f < i < |ls| && 0 <= k < |lt| ==> Apart(w, ls, lt, i, k)
  }

  ghost predicate Apart(w: Words, ls: seq<nat>, lt: seq<nat>, i: int, k: int)
    requires 0 <= i < |ls| && 0 <= k < |lt|
  {
    lt[k] > ls[i] || lt[k] + (if 2 <= ls[i] < |w| && Marked(w, ls[i]) then 4 else 3) <= ls[i]
  }

  /** Undoing the frames of a line above f, from i down. */
  ghost function UndoLine(w: Words, l: seq<nat>, i: nat, f: nat, c: Cells): Cells
    requires LinkedLine(w, l) && f <= i < |l|
    decreases i
  {
    if i == f then c else
      assert Joint(w, l, i);
      UndoLine(w, l, i - 1, f, UndoFrame(w, l[i], c))
  }

  function RedoFrame(w: Words, t: nat, c: Cells): Cells
    requires IsFrame(w, t)
  {
    c[AddrOf(w, t) := w[t - 1]]
  }

  /** Making the bindings of a line again, from f up to p. */
  ghost function RedoLine(w: Words, l: seq<nat>, f: nat, p: nat, c: Cells): Cells
    requires LinkedLine(w, l) && f <= p < |l|
    decreases p
  {
    if p == f then c else
      assert Joint(w, l, p);
      RedoFrame(w, l[p], RedoLine(w, l, f, p - 1, c))
  }

  /** Turning one more link. */
  lemma TurnOne(w: Words, v: Words, l: seq<nat>, p: nat)
    requires LinkedLine(w, l) && Turned(w, v, l, p) && p > 0 && |l| > 1
    ensures l[p - 1] < |w| && Turned(w, v[l[p - 1] := l[p]], l, p - 1)
    ensures v[l[p - 1]] == w[l[p - 1]]
  {
    assert Gap(l, p - 1, |l| - 1) && Joint(w, l, |l| - 1);
    var u := v[l[p - 1] := l[p]];
    forall q | p <= q < |l| - 1 ensures l[q] != l[p - 1] {
      assert Gap(l, p - 1, q);
    }
    assert !IsLink(l, p, l[p - 1]);
    forall q | p - 1 <= q ensures TurnedAt(u, l, q) {
      assert q >= p ==> TurnedAt(v, l, q);
    }
    forall x | 0 <= x < |w| && !IsLink(l, p - 1, x) ensures u[x] == w[x] {
      assert p - 1 < |l| - 1 && l[p - 1] != x;
    }
  }

  /** Turning one link back. */
  lemma TurnBack(w: Words, v: Words, l: seq<nat>, p: nat)
    requires LinkedLine(w, l) && Turned(w, v, l, p) && p < |l| && l[p] < |w|
    ensures p + 1 < |l| ==> Turned(w, v[l[p] := w[l[p]]], l, p + 1)
    ensures p + 1 == |l| ==> v == w
  {
    if p + 1 < |l| {
      var u := v[l[p] := w[l[p]]];
      forall q | p + 1 <= q ensures TurnedAt(u, l, q) {
        assert Gap(l, p, q) && TurnedAt(v, l, q);
      }
      forall x | 0 <= x < |w| && !IsLink(l, p + 1, x) ensures u[x] == w[x] {
        if x != l[p] {
          assert !IsLink(l, p, x);
        }
      }
    } else {
      forall x | 0 <= x < |w| ensures v[x] == w[x] {
        assert !IsLink(l, p, x);
      }
    }
  }

  /** The frames of the branch left have not been touched by turning links of the other. */
  lemma LeftSame(w: Words, v: Words, ls: seq<nat>, lt: seq<nat>, f: nat, p: nat, i: nat, c: Cells)
    requires Fork(w, ls, lt, f) && Turned(w, v, lt, p) && f < i < |ls|
    ensures IsFrame(w, ls[i]) && IsFrame(v, ls[i]) && v[ls[i]] == ls[i - 1]
    ensures UndoFrame(v, ls[i], c) == UndoFrame(w, ls[i], c)
  {
    assert Joint(w, ls, i);
    var s := ls[i];
    var low := s - (if Marked(w, s) then 4 else 3);
    forall q | p <= q < |lt| - 1 ensures lt[q] <= low || lt[q] > s {
      assert Apart(w, ls, lt, i, q);
    }
    assert forall x :: low < x <= s ==> !IsLink(lt, p, x);
    assert v[s] == w[s] && v[s - 2] == w[s - 2];
    assert Marked(w, s) ==> v[s - 3] == w[s - 3];
  }

  /** Nor have the values in the frames of the branch entered. */
  lemma EnteredSame(w: Words, v: Words, l: seq<nat>, p: nat, k: nat)
    requires LinkedLine(w, l) && Turned(w, v, l, p) && 0 < k < |l|
    ensures IsFrame(w, l[k]) && l[k] < |v| && v[l[k] - 1] == w[l[k] - 1]
    ensures v[l[k] - 2] == w[l[k] - 2]
  {
    assert Joint(w, l, k);
    forall q | p <= q < |l| - 1 ensures l[q] + 3 <= l[k] || l[q] >= l[k] {
      assert Gap(l, q, k) && Gap(l, k, q);
    }
    assert !IsLink(l, p, l[k] - 1) && !IsLink(l, p, l[k] - 2);
  }

  /** The fork is the only place both lines have above it. */
  lemma MeetAtFork(w: Words, ls: seq<nat>, lt: seq<nat>, f: nat, i: nat, p: nat)
    requires Fork(w, ls, lt, f) && f <= i < |ls| && f <= p < |lt| && ls[f] == lt[f]
    ensures ls[i] == lt[p] <==> i == f && p == f
    ensures ls[i] > lt[p] ==> i > f
    ensures ls[i] < lt[p] ==> p > f
  {
    assert Gap(lt, f, p) && Gap(ls, f, i);
    if i > f {
      assert Joint(w, ls, i) && Apart(w, ls, lt, i, p);
    }
  }

  class TrailTree {
    var trail: Words
    var trreg: nat
    var cells: Cells

    constructor (trail: Words, trreg: nat, cells: Cells)
      ensures this.trail == trail && this.trreg == trreg && this.cells == cells
    {
      this.trail, this.trreg, this.cells := trail, trreg, cells;
    }

    /** Where the search for the fork stands: the branch left has been undone down to its i-th
        frame, and the links of the other are turned down to its p-th. */
    ghost predicate Searching(w: Words, c: Cells, ls: seq<nat>, lt: seq<nat>, f: nat, start: nat, end: nat,
        parent: nat, i: nat, p: nat)
      reads this
    {
      && Fork(w, ls, lt, f) && f <= i < |ls| && f <= p < |lt| && start == ls[i] && end == lt[p]
      && Turned(w, trail, lt, p) && end < |w| && parent == w[end]
      && UndoLine(w, ls, i, f, cells) == UndoLine(w, ls, |ls| - 1, f, c)
    }

    /** Undoes the frame at `start`. */
    method UndoOne(start: nat, ghost w: Words, ghost c: Cells, ghost ls: seq<nat>, ghost lt: seq<nat>, ghost f: nat,
        ghost end: nat, ghost parent: nat, ghost i: nat, ghost p: nat) returns (start': nat)
      requires Searching(w, c, ls, lt, f, start, end, parent, i, p) && i > f
      modifies this`cells
      ensures Searching(w, c, ls, lt, f, start', end, parent, i - 1, p)
    {
      LeftSame(w, trail, ls, lt, f, p, i, cells);
      var addr := trail[start - 2];
      if addr % 2 == PRE_IMAGE_MARK {
        cells := cells[addr - PRE_IMAGE_MARK := trail[start - 3]];
      } else {
        cells := cells[addr := addr];
      }
      start' := trail[start];
    }

    /** Turns one link, and goes down to the parent. */
    method TurnLink(end: nat, parent: nat, ghost w: Words, ghost c: Cells, ghost ls: seq<nat>, ghost lt: seq<nat>,
        ghost f: nat,
        ghost start: nat, ghost i: nat, ghost p: nat) returns (end': nat, parent': nat)
      requires Searching(w, c, ls, lt, f, start, end, parent, i, p) && p > f
      modifies this`trail
      ensures Searching(w, c, ls, lt, f, start, end', parent', i, p - 1)
    {
      assert Joint(w, lt, p);
      TurnOne(w, trail, lt, p);
      var tmp := parent;
      parent' := trail[parent];
      trail := trail[tmp := end];
      end' := tmp;
    }

    /** Where making the bindings again stands: the links above the p-th frame are still turned. */
    ghost predicate Redoing(w: Words, c: Cells, l: seq<nat>, f: nat, p: nat, end: nat, parent: nat)
      reads this
    {
      && LinkedLine(w, l) && f <= p < |l| && end == l[p] && trreg == l[|l| - 1]
      && (if p + 1 < |l| then Turned(w, trail, l, p + 1) && parent == l[p + 1] else trail == w)
      && cells == RedoLine(w, l, f, p, c)
    }

    /** Makes one binding again, and turns its link back. */
    method RedoOne(end: nat, parent: nat, ghost w: Words, ghost c: Cells, ghost l: seq<nat>, ghost f: nat, ghost p: nat)
      returns (end': nat, parent': nat)
      requires Redoing(w, c, l, f, p, end, parent) && p + 1 < |l|
      modifies this`trail, this`cells
      ensures Redoing(w, c, l, f, p + 1, end', parent')
    {
      assert Joint(w, l, p + 1) && TurnedAt(trail, l, p + 1);
      EnteredSame(w, trail, l, p + 1, p + 1);
      TurnBack(w, trail, l, p + 1);
      var tmp := parent;
      var addr := trail[tmp - 2];
      cells := cells[(if addr % 2 == PRE_IMAGE_MARK then addr - PRE_IMAGE_MARK else addr) := trail[tmp - 1]];
      parent' := trail[parent];
      trail := trail[tmp := end];
      end' := tmp;
    }

    /** Makes the bindings of the branch entered again, from the fork up, and turns its links back. */
    method RedoPhase(end0: nat, parent0: nat, ghost w: Words, ghost lt: seq<nat>, ghost f: nat)
      requires LinkedLine(w, lt) && f < |lt| && Turned(w, trail, lt, f) && end0 == lt[f]
      requires end0 < |w| && parent0 == w[end0]
      requires trreg == lt[|lt| - 1]
      modifies this`trail, this`cells
      ensures trail == w && cells == RedoLine(w, lt, f, |lt| - 1, old(cells))
    {
      var end: nat := end0;
      assert TurnedAt(trail, lt, f);
      var parent: nat := trail[end];
      TurnBack(w, trail, lt, f);
      trail := trail[end := parent0];
      ghost var p: nat := f;
      while end < trreg
        invariant Redoing(w, old(cells), lt, f, p, end, parent)
        decreases |lt| - p
      {
        assert p + 1 < |lt|;
        end, parent := RedoOne(end, parent, w, old(cells), lt, f, p);
        p := p + 1;
      }
      assert Gap(lt, p, |lt| - 1);
    }

    /** Leaves the current branch for the one whose top is `target`. The words of the trail are as
        they were. */
    method SwitchEnvs(target: nat, ghost ls: seq<nat>, ghost lt: seq<nat>, ghost f: nat)
      requires Fork(trail, ls, lt, f) && trreg == ls[|ls| - 1] && target == lt[|lt| - 1]
      modifies this
      ensures trail == old(trail) && trreg == target
      ensures cells == RedoLine(trail, lt, f, |lt| - 1, UndoLine(trail, ls, |ls| - 1, f, old(cells)))
    {
      ghost var w, c := trail, cells;
      var start: nat := trreg;
      trreg := target;
      var end: nat := target;
      InWords(w, lt, |lt| - 1);
      assert !IsLink(lt, |lt| - 1, end);
      var parent: nat := trail[end];
      ghost var i: nat, p: nat := |ls| - 1, |lt| - 1;
      assert ls[f] == ls[..f + 1][f] == lt[f];
      MeetAtFork(w, ls, lt, f, i, p);
      if start != end {
        while start != end
          invariant Searching(w, c, ls, lt, f, start, end, parent, i, p) && trreg == target
          decreases i + p
        {
          ghost var i0, p0 := i, p;
          while start > end
            invariant Searching(w, c, ls, lt, f, start, end, parent, i, p) && trreg == target && i <= i0 && p == p0
            decreases i
          {
            MeetAtFork(w, ls, lt, f, i, p);
            start := UndoOne(start, w, c, ls, lt, f, end, parent, i, p);
            i := i - 1;
          }
          while end > start
            invariant Searching(w, c, ls, lt, f, start, end, parent, i, p) && trreg == target && i <= i0 && p <= p0
            decreases p
          {
            MeetAtFork(w, ls, lt, f, i, p);
            end, parent := TurnLink(end, parent, w, c, ls, lt, f, start, i, p);
            p := p - 1;
          }
        }
        MeetAtFork(w, ls, lt, f, i, p);
        RedoPhase(end, parent, w, lt, f);
      }
    }
  }

  /** The cells after a switch. */
  method SwitchedCells(trail: Words, trreg: nat, target: nat, c: Cells, ghost ls: seq<nat>, ghost lt: seq<nat>,
      ghost f: nat) returns (cells: Cells)
    requires Fork(trail, ls, lt, f) && trreg == ls[|ls| - 1] && target == lt[|lt| - 1]
    ensures cells == RedoLine(trail, lt, f, |lt| - 1, UndoLine(trail, ls, |ls| - 1, f, c))
  {
    var tree := new TrailTree(trail, trreg, c);
    tree.SwitchEnvs(target, ls, lt, f);
    cells := tree.cells;
  }

  lemma InWords(w: Words, l: seq<nat>, k: nat)
    requires LinkedLine(w, l) && k < |l|
    ensures l[k] < |w|
  {
    assert Joint(w, l, k);
  }

  /** The frames of a line are undone, and made again, as those of the branch. */
  lemma {:induction false} LineUndo(w: Words, ps: seq<nat>, i: nat, f: nat, c: Cells)
    requires LinkedLine(w, Line(ps)) && f <= i <= |ps|
    ensures UndoLine(w, Line(ps), i, f, c) == UndoTo(w, ps[..i], f, c)
    decreases i
  {
    if i > f {
      assert Joint(w, Line(ps), i) && ps[..i][..i - 1] == ps[..i - 1];
      LineUndo(w, ps, i - 1, f, UndoFrame(w, ps[i - 1], c));
    }
  }

  lemma {:induction false} LineRedo(w: Words, ps: seq<nat>, f: nat, p: nat, c: Cells)
    requires LinkedLine(w, Line(ps)) && f <= p <= |ps|
    ensures RedoLine(w, Line(ps), f, p, c) == RedoTo(w, ps[..p], f, c)
    decreases p
  {
    if p > f {
      assert Joint(w, Line(ps), p) && ps[..p][..p - 1] == ps[..p - 1];
      LineRedo(w, ps, f, p - 1, c);
    }
  }
}
