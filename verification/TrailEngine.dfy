/** The engine's trail operations. */
module TrailEngine {
  import opened TrailFrames
  import opened TrailStack

  class Engine {
    var trail: Words
    var trreg: nat
    var trfreg: nat
    var cells: Cells
    /** The top of the heap, and the registers that tell which cells were there at the youngest
        choice point and at the last freeze: those below the first and from the second on. */
    var hreg: nat
    var hbreg: nat
    var ebreg: nat
    var hfreg: nat
    var efreg: nat
    var cps: seq<ChoicePoint>
    const bottom: nat
    /** The frames of the current branch of the trail, bottom first. */
    ghost var frames: seq<nat>
    /** For every choice point, how many frames there were and what the cells held. */
    ghost var depth: seq<nat>
    ghost var snaps: seq<Cells>

    ghost predicate Registers()
      reads this
    {
      && Even(hreg) && Even(hbreg) && Even(ebreg) && Even(hfreg) && Even(efreg) && Even(bottom)
      && hreg >= hbreg && hreg >= hfreg && trfreg < |trail|
      && if cps == [] then hbreg == 0 && ebreg == bottom
         else hbreg == cps[|cps| - 1].hb && ebreg == cps[|cps| - 1].eb
    }

    ghost predicate Valid()
      reads this
    {
      && Registers() && IsChain(trail, trreg, frames) && Ordered(cps, depth)
      && AllRestore(trail, trreg, frames, cells, cps, depth, snaps)
    }

    constructor (bottom: nat)
      requires Even(bottom)
      ensures Valid() && cps == [] && trail == [0] && frames == [] && trreg == trfreg == 0
      ensures cells == map[] && hreg == hfreg == 0 && efreg == bottom == this.bottom
    {
      trail, trreg, trfreg, cells := [0], 0, 0, map[];
      hreg, hbreg, hfreg, ebreg, efreg, this.bottom := 0, 0, 0, bottom, bottom, bottom;
      cps, frames, depth, snaps := [], [], [], [];
    }

    function Lim(): Limits
      reads this`hbreg, this`ebreg, this`hfreg, this`efreg
    {
      Limits(hbreg, ebreg, hfreg, efreg)
    }

    function FreezeRegs(): Frozen
      reads this`trfreg, this`hfreg, this`efreg
    {
      Frozen(trfreg, hfreg, efreg)
    }

    /** Makes room for n words. */
    method HandleOverflow(n: nat)
      modifies this`trail
      ensures |trail| >= n && old(trail) <= trail
    {
      if |trail| < n {
        trail := trail + seq(n - |trail|, _ => 0);
      }
    }

    /** Pushes a frame above everything, frozen frames included. */
    method PushTrail0(addr: nat, val: nat)
      requires IsChain(trail, trreg, frames) && trfreg < |trail| && Even(addr)
      modifies this`trail, this`trreg, this`frames
      ensures frames == old(frames) + [trreg] && trreg > old(trreg) && trreg > trfreg
      ensures IsChain(trail, trreg, frames)
      ensures IsFrame(trail, trreg) && trail[trreg] == old(trreg) && !Marked(trail, trreg)
      ensures trreg == Max(old(trreg), trfreg) + 3
      ensures AddrOf(trail, trreg) == addr && trail[trreg - 1] == val
      ensures |trail| >= |old(trail)|
      ensures forall i :: 0 <= i < |old(trail)| && (i <= trfreg || i <= old(trreg)) ==> trail[i] == old(trail)[i]
    {
      ChainTop(trail, trreg, frames);
      if trfreg > trreg {
        HandleOverflow(trfreg + 4);
        trail := trail[trfreg + 3 := trreg];
        trreg := trfreg + 3;
        trail := trail[trreg - 1 := val];
        trail := trail[trreg - 2 := addr];
      } else {
        HandleOverflow(trreg + 4);
        trreg := trreg + 3;
        trail := trail[trreg := trreg - 3];
        trail := trail[trreg - 1 := val];
        trail := trail[trreg - 2 := addr];
      }
      ChainSame(old(trail), trail, old(trreg), frames);
      frames := frames + [trreg];
      assert frames[..|frames| - 1] == old(frames);
    }

    /** Writes a frame that also holds the cell's old contents. */
    method WritePreImage(p: nat, parent: nat, addr: nat, val: nat)
      requires 4 <= p < |trail| && parent <= p - 4 && Even(addr)
      modifies this`trail
      ensures |trail| == |old(trail)| && forall i :: 0 <= i < |trail| && i <= p - 4 ==> trail[i] == old(trail)[i]
      ensures IsFrame(trail, p) && Marked(trail, p) && AddrOf(trail, p) == addr
      ensures trail[p] == parent && trail[p - 1] == val && trail[p - 3] == Get(cells, addr)
    {
      trail := trail[p := parent];
      trail := trail[p - 1 := val];
      trail := trail[p - 2 := addr + PRE_IMAGE_MARK];
      trail := trail[p - 3 := Get(cells, addr)];
    }

    /** The same with a frame that also holds the cell's old contents. */
    method PushPreImageTrail0(addr: nat, val: nat)
      requires IsChain(trail, trreg, frames) && trfreg < |trail| && Even(addr)
      modifies this`trail, this`trreg, this`frames
      ensures frames == old(frames) + [trreg] && trreg > old(trreg) && trreg > trfreg
      ensures IsChain(trail, trreg, frames)
      ensures IsFrame(trail, trreg) && trail[trreg] == old(trreg) && Marked(trail, trreg)
      ensures trreg == Max(old(trreg), trfreg) + 4
      ensures AddrOf(trail, trreg) == addr && trail[trreg - 1] == val
      ensures trail[trreg - 3] == Get(cells, addr)
      ensures |trail| >= |old(trail)|
      ensures forall i :: 0 <= i < |old(trail)| && (i <= trfreg || i <= old(trreg)) ==> trail[i] == old(trail)[i]
    {
      ChainTop(trail, trreg, frames);
      if trfreg > trreg {
        HandleOverflow(trfreg + 5);
        WritePreImage(trfreg + 4, trreg, addr, val);
        trreg := trfreg + 4;
      } else {
        HandleOverflow(trreg + 5);
        WritePreImage(trreg + 4, trreg, addr, val);
        trreg := trreg + 4;
      }
      ChainSame(old(trail), trail, old(trreg), frames);
      frames := frames + [trreg];
      assert frames[..|frames| - 1] == old(frames);
    }

    /** What a push and the change of the cell it is about do for the choice points. */
    lemma Pushed(w: Words, t: nat, ps: seq<nat>, c: Cells)
      requires AllRestore(w, t, ps, c, cps, depth, snaps) && t < |w| && t < |trail|
      requires forall i :: 0 <= i <= t ==> trail[i] == w[i]
      requires IsFrame(trail, trreg) && trail[trreg] == t && frames == ps + [trreg]
      requires forall a :: Get(UndoFrame(trail, trreg, cells), a) == Get(c, a)
      ensures AllRestore(trail, trreg, frames, cells, cps, depth, snaps)
    {
      forall i | 0 <= i < |cps| ensures Restores(trail, trreg, frames, cells, cps[i], depth[i], snaps[i]) {
        RestoresPush(w, trail, t, ps, trreg, c, cells, cps[i], depth[i], snaps[i]);
      }
    }

    /** A cell that is not conditional was there at no choice point. */
    lemma Untrailed(c: Cells, a: nat, x: nat)
      requires Registers() && Ordered(cps, depth)
      requires AllRestore(trail, trreg, frames, c, cps, depth, snaps)
      requires cps != [] ==> Fresh(a, hbreg, ebreg)
      ensures AllRestore(trail, trreg, frames, c[a := x], cps, depth, snaps)
    {
      forall i | 0 <= i < |cps| ensures Restores(trail, trreg, frames, c[a := x], cps[i], depth[i], snaps[i]) {
        assert Older(cps, depth, i, |cps| - 1);
        RestoresFresh(trail, trreg, frames, c, cps[i], depth[i], snaps[i], a, x);
      }
    }

    /** A frame with the new value of the cell a, above everything; n is its size. */
    twostate predicate Trailed(a: nat, v: nat, n: nat)
      reads this
    {
      && frames == old(frames) + [trreg] && trreg == Max(old(trreg), trfreg) + n
      && IsFrame(trail, trreg) && trail[trreg] == old(trreg) && AddrOf(trail, trreg) == a && trail[trreg - 1] == v
      && |trail| >= |old(trail)|
      && forall i {:trigger trail[i]} ::
        0 <= i <= Max(old(trreg), trfreg) && i < |old(trail)| ==> trail[i] == old(trail)[i]
    }

    /** Binds a free cell. */
    method Bind(a: nat, v: nat)
      requires Valid() && Even(a) && Get(cells, a) == a
      modifies this`trail, this`trreg, this`frames, this`cells
      ensures Valid() && cells == old(cells)[a := v]
      ensures if Conditional(a, Lim()) then Trailed(a, v, 3) && !Marked(trail, trreg)
        else trail == old(trail) && frames == old(frames)
    {
      if Conditional(a, Lim()) {
        ChainTop(trail, trreg, frames);
        PushTrail0(a, v);
        cells := cells[a := v];
        Pushed(old(trail), old(trreg), old(frames), old(cells));
      } else {
        Untrailed(cells, a, v);
        cells := cells[a := v];
      }
    }

    /** Changes a cell whatever it holds. */
    method Update(a: nat, v: nat)
      requires Valid() && Even(a)
      modifies this`trail, this`trreg, this`frames, this`cells
      ensures Valid() && cells == old(cells)[a := v]
      ensures if Conditional(a, Lim()) then
          Trailed(a, v, 4) && Marked(trail, trreg) && trail[trreg - 3] == Get(old(cells), a)
        else trail == old(trail) && frames == old(frames)
    {
      if Conditional(a, Lim()) {
        ChainTop(trail, trreg, frames);
        PushPreImageTrail0(a, v);
        cells := cells[a := v];
        Pushed(old(trail), old(trreg), old(frames), old(cells));
      } else {
        Untrailed(cells, a, v);
        cells := cells[a := v];
      }
    }

    /** Builds a new cell on the heap. */
    method Build(v: nat)
      requires Valid() && hreg < ebreg && hreg < efreg
      modifies this`cells, this`hreg
      ensures Valid() && cells == old(cells)[old(hreg) := v] && hreg == old(hreg) + 2
      ensures !Conditional(old(hreg), Lim())
    {
      Untrailed(cells, hreg, v);
      cells := cells[hreg := v];
      hreg := hreg + 2;
    }

    /** Makes a choice point; `top` is the top of the local stack. */
    method PushChoicePoint(top: nat)
      requires Valid() && Even(top)
      modifies this`cps, this`hbreg, this`ebreg, this`depth, this`snaps
      ensures Valid() && |cps| == |old(cps)| + 1 && cps[..|old(cps)|] == old(cps)
      ensures snaps == old(snaps) + [cells] && depth == old(depth) + [|frames|]
      ensures cps[|old(cps)|] == ChoicePoint(trreg, hreg, Min(old(ebreg), Min(efreg, top)), FreezeRegs())
    {
      if efreg < ebreg && efreg < top {
        ebreg := efreg;
      } else if top < ebreg {
        ebreg := top;
      }
      var cp := ChoicePoint(trreg, hreg, ebreg, FreezeRegs());
      hbreg := hreg;
      if cps != [] {
        assert Restores(trail, trreg, frames, cells, cps[|cps| - 1], depth[|cps| - 1], snaps[|cps| - 1]);
      }
      OrderedPush(cps, depth, cp, |frames|);
      AllRestorePush(trail, trreg, frames, cells, cps, depth, snaps, cp);
      cps, depth, snaps := cps + [cp], depth + [|frames|], snaps + [cells];
    }

    method Untrail2(t: nat)
      requires IsFrame(trail, t)
      modifies this`cells
      ensures cells == UndoFrame(trail, t, old(cells))
    {
      var addr := trail[t - 2];
      if addr % 2 == PRE_IMAGE_MARK {
        cells := cells[addr - PRE_IMAGE_MARK := trail[t - 3]];
      } else {
        cells := cells[addr := addr];
      }
    }

    /** Undoes the bindings made since the youngest choice point. */
    method UndoBindings()
      requires Valid() && cps != []
      modifies this`cells, this`trreg, this`frames
      ensures Valid() && frames == old(frames)[..depth[|cps| - 1]] && trreg == cps[|cps| - 1].trtop
      ensures old(IsChain(trail, trreg, frames)) && depth[|cps| - 1] <= |old(frames)|
      ensures cells == Undo(trail, old(trreg), old(frames), depth[|cps| - 1], old(cells))
      ensures Agree(cells, snaps[|cps| - 1], hbreg, ebreg)
    {
      var n := |cps| - 1;
      ghost var t, ps := trreg, frames;
      ghost var d := depth[n];
      assert Restores(trail, t, ps, cells, cps[n], d, snaps[n]);
      ChainPrefix(trail, t, ps, d);
      while trreg > cps[n].trtop
        invariant IsChain(trail, trreg, frames) && d <= |frames| <= |ps| && frames == ps[..|frames|]
        invariant Undo(trail, trreg, frames, d, cells) == Undo(trail, t, ps, d, old(cells))
        decreases trreg
      {
        if d == |frames| {
          ChainTop(trail, trreg, frames);
        }
        Untrail2(trreg);
        trreg := trail[trreg];
        frames := frames[..|frames| - 1];
      }
      ChainTop(trail, trreg, frames);
      if d < |frames| {
        ChainIncreasing(trail, trreg, frames, d - 1, |frames| - 1);
      }
      assert frames[..d] == frames;
      forall i | 0 <= i < |cps| ensures Restores(trail, trreg, frames, cells, cps[i], depth[i], snaps[i]) {
        assert Older(cps, depth, i, n);
        RestoresOlder(trail, t, ps, old(cells), cps[i], depth[i], snaps[i], d);
      }
    }

    /** The choice points up to the one cut back to see no frame from depth m on. */
    ghost predicate Above(m: nat)
      reads this
    {
      && |depth| == |cps| && m <= |frames|
      && forall i {:trigger depth[i]} :: 0 <= i < |depth| ==> depth[i] <= m
    }

    lemma NotConditional(a: nat, i: nat)
      requires Registers() && Ordered(cps, depth) && i < |cps| && !Conditional(a, Lim())
      ensures Fresh(a, cps[i].hb, cps[i].eb)
    {
      assert Older(cps, depth, i, |cps| - 1);
    }

    /** Drops the top frame, which is about a cell that needs no trailing. */
    method DropTop(ghost m: nat)
      requires Valid() && Above(m) && |frames| > m && IsFrame(trail, trreg)
      requires !Conditional(AddrOf(trail, trreg), Lim())
      modifies this`trreg, this`frames
      ensures Valid() && Above(m) && frames == old(frames)[..|old(frames)| - 1]
      ensures trreg == trail[old(trreg)]
    {
      forall i | 0 <= i < |cps|
        ensures Restores(trail, trail[trreg], frames[..|frames| - 1], cells, cps[i], depth[i], snaps[i])
      {
        NotConditional(AddrOf(trail, trreg), i);
        assert depth[i] <= m;
        RestoresPop(trail, trreg, frames, cells, cps[i], depth[i], snaps[i]);
      }
      trreg := trail[trreg];
      frames := frames[..|frames| - 1];
    }

    /** Takes out the frame below t1 = frames[k], which is about a cell that needs no trailing. */
    method Unlink(t1: nat, ghost k: nat, ghost m: nat)
      requires Valid() && Above(m) && m < k < |frames| && t1 == frames[k] && t1 < |trail|
      requires trail[t1] == frames[k - 1]
      requires IsFrame(trail, frames[k - 1]) && !Conditional(AddrOf(trail, frames[k - 1]), Lim())
      modifies this`trail, this`frames
      ensures Valid() && Above(m) && frames == old(frames)[..k - 1] + old(frames)[k..]
      ensures trail == old(trail)[t1 := old(trail)[old(frames)[k - 1]]]
    {
      ghost var v, qs := trail[t1 := trail[trail[t1]]], frames[..k - 1] + frames[k..];
      Relink(trail, trreg, frames, k - 1);
      forall i | 0 <= i < |cps| ensures Restores(v, trreg, qs, cells, cps[i], depth[i], snaps[i]) {
        NotConditional(AddrOf(trail, frames[k - 1]), i);
        assert depth[i] <= m;
        RestoresRelink(trail, trreg, frames, cells, cps[i], depth[i], snaps[i], k - 1);
      }
      trail := trail[t1 := trail[trail[t1]]];
      frames := frames[..k - 1] + frames[k..];
    }

    lemma TopFrame(cptr: nat, m: nat)
      requires Valid() && m <= |frames| && cptr == Top(frames[..m]) && trreg > Max(trfreg, cptr)
      ensures |frames| > m && IsFrame(trail, trreg)
      ensures Conditional(trail[trreg - 2], Lim()) <==> Conditional(AddrOf(trail, trreg), Lim())
      ensures !Conditional(AddrOf(trail, trreg), Lim()) ==>
                Tidy(trail, frames, Max(trfreg, cptr), Lim()) == Tidy(trail, frames[..|frames| - 1], Max(trfreg, cptr),
                  Lim())
    {
      ChainTop(trail, trreg, frames);
      MarkNoMatter(trail, trreg, Lim());
      AboveTop(trail, trreg, frames, m, |frames| - 1);
      TidyStep(trail, trreg, frames, Max(trfreg, cptr), Lim());
    }

    /** Of the frames `was` only unconditional ones above lo have been dropped. */
    ghost predicate Dropping(was: seq<nat>, lo: nat, m: nat)
      reads this
    {
      && Valid() && Above(m) && frames <= was && frames[..m] == was[..m]
      && Tidy(trail, frames, lo, Lim()) == Tidy(trail, was, lo, Lim())
    }

    /** Drops one unconditional frame. */
    method DropUntrailed(cptr: nat, ghost was: seq<nat>, ghost m: nat)
      requires Valid() && Above(m) && cptr == Top(frames[..m]) && Dropping(was, Max(trfreg, cptr), m)
      requires trreg > Max(trfreg, cptr) && !Conditional(trail[trreg - 2], Lim())
      modifies this`trreg, this`frames
      ensures Dropping(was, Max(trfreg, cptr), m) && |frames| < |old(frames)|
    {
      TopFrame(cptr, m);
      ghost var before := frames;
      DropTop(m);
      assert before[..m] == frames[..m];
    }

    /** Drops the unconditional frames on top. */
    method UnwindTop(cptr: nat, ghost m: nat)
      requires Valid() && Above(m) && cptr == Top(frames[..m])
      modifies this`trreg, this`frames
      ensures Dropping(old(frames), Max(trfreg, cptr), m)
      ensures trreg > Max(trfreg, cptr) ==> IsFrame(trail, trreg) && Conditional(AddrOf(trail, trreg), Lim())
    {
      while trreg > trfreg && !Conditional(trail[trreg - 2], Lim()) && trreg > cptr
        invariant Dropping(old(frames), Max(trfreg, cptr), m)
        decreases |frames|
      {
        DropUntrailed(cptr, old(frames), m);
      }
      if trreg > Max(trfreg, cptr) {
        TopFrame(cptr, m);
      }
    }

    /** How far the tidying has come: the frames from k on are tidy, t1 is the lowest of them and
        t2 the next one down; the trail is as it was below t1. */
    ghost predicate Unwinding(w: Words, was: seq<nat>, lo: nat, k: nat, m: nat, t1: nat, t2: nat)
      reads this
    {
      && Valid() && Above(m) && m <= |was| && frames[..m] == was[..m] && k < |frames| && t1 == frames[k] && t1 < |trail|
      && t2 == trail[t1] == Top(frames[..k]) && |trail| == |w|
      && (forall i :: 0 <= i < t1 ==> trail[i] == w[i]) && ButLinks(w, trail, frames)
      && Tidy(w, was, lo, Lim()) == Tidy(trail, frames[..k], lo, Lim()) + frames[k..]
    }

    /** The same, or there was nothing to do from the start. */
    ghost predicate Tidying(w: Words, was: seq<nat>, lo: nat, k: nat, m: nat, t1: nat, t2: nat)
      reads this
    {
      && Valid() && Above(m) && |trail| == |w| && (forall i :: 0 <= i <= lo && i < |trail| ==> trail[i] == w[i])
      && ButLinks(w, trail, frames)
      && if trreg <= lo then t2 <= lo && frames == Tidy(w, was, lo, Lim()) else Unwinding(w, was, lo, k, m, t1, t2)
    }

    lemma UnwindStart(cptr: nat, lo: nat, k: nat, m: nat)
      requires Valid() && Above(m) && cptr == Top(frames[..m]) && lo == Max(trfreg, cptr)
      requires trreg > lo ==> IsFrame(trail, trreg) && Conditional(AddrOf(trail, trreg), Lim())
      requires k == if trreg > lo then |frames| - 1 else 0
      ensures trreg < |trail| && Tidying(trail, frames, lo, k, m, trreg, trail[trreg])
    {
      ChainTop(trail, trreg, frames);
      if trreg <= lo {
        TidyLow(trail, trreg, frames, lo, Lim());
      } else {
        TidyStep(trail, trreg, frames, lo, Lim());
        assert frames[|frames| - 1..] == [trreg];
        ChainTop(trail, trail[trreg], frames[..|frames| - 1]);
      }
    }

    lemma UnwindDone(w: Words, was: seq<nat>, lo: nat, k: nat, m: nat, t1: nat, t2: nat)
      requires Tidying(w, was, lo, k, m, t1, t2) && t2 <= lo
      ensures frames == Tidy(w, was, lo, Lim())
    {
      if trreg > lo {
        ChainPrefix(trail, trreg, frames, k);
        TidyLow(trail, t2, frames[..k], lo, Lim());
        assert frames == frames[..k] + frames[k..];
      }
    }

    /** Takes out the unconditional frames further down, without moving the others. */
    method UnwindRest(cptr: nat, ghost m: nat)
      requires Valid() && Above(m) && cptr == Top(frames[..m])
      requires trreg > Max(trfreg, cptr) ==> IsFrame(trail, trreg) && Conditional(AddrOf(trail, trreg), Lim())
      modifies this`trail, this`frames
      ensures Valid() && Above(m) && ButLinks(old(trail), trail, frames)
      ensures frames == Tidy(old(trail), old(frames), Max(trfreg, cptr), Lim())
      ensures |trail| == |old(trail)|
      ensures forall i :: 0 <= i <= Max(trfreg, cptr) && i < |trail| ==> trail[i] == old(trail)[i]
    {
      ghost var lo, was, w := Max(trfreg, cptr), frames, trail;
      ghost var k: nat := if trreg > lo then |frames| - 1 else 0;
      UnwindStart(cptr, lo, k, m);
      var t1: nat := trreg;
      var t2: nat := trail[t1];
      while t2 > cptr && t2 > trfreg
        invariant Tidying(w, was, lo, k, m, t1, t2)
        decreases t2
      {
        t1, t2, k := UnwindStep(t1, t2, w, was, cptr, k, m);
      }
      UnwindDone(w, was, lo, k, m, t1, t2);
    }

    /** t2, the next frame down, is to be kept. */
    lemma UnwindKeep(w: Words, was: seq<nat>, lo: nat, k: nat, m: nat, t1: nat, t2: nat)
      requires Unwinding(w, was, lo, k, m, t1, t2) && t2 > lo && IsFrame(trail, t2)
      requires Conditional(AddrOf(trail, t2), Lim())
      ensures k > 0 && Unwinding(w, was, lo, k - 1, m, t2, trail[t2]) && trail[t2] < t2
    {
      ChainPrefix(trail, trreg, frames, k);
      assert frames[..k][k - 1] == frames[k - 1] == t2 && frames[..k][..k - 1] == frames[..k - 1];
      ChainIncreasing(trail, trreg, frames, k - 1, k);
      TidyKeep(trail, frames, k, lo, Lim());
      ChainTop(trail, trail[t2], frames[..k - 1]);
    }

    /** t2, the next frame down, is to be taken out. */
    method UnwindRemove(t1: nat, t2: nat, ghost w: Words, ghost was: seq<nat>, ghost lo: nat, ghost k: nat,
        ghost m: nat) returns (t2': nat)
      requires Unwinding(w, was, lo, k, m, t1, t2) && t2 > lo && m < k && IsFrame(trail, t2)
      requires !Conditional(AddrOf(trail, t2), Lim())
      modifies this`trail, this`frames
      ensures Unwinding(w, was, lo, k - 1, m, t1, t2') && t2' < t2
      ensures t1 > lo && trail == old(trail)[t1 := t2']
    {
      ChainPrefix(trail, trreg, frames, k);
      ghost var before, low := frames, frames[..k];
      assert low[k - 1] == frames[k - 1] == t2 && low[..k - 1] == frames[..k - 1];
      ChainIncreasing(trail, trreg, frames, k - 1, k);
      TidyStep(trail, t2, low, lo, Lim());
      ChainTop(trail, trail[t2], low[..k - 1]);
      TidyBelow(trail, trail[t2], low[..k - 1], t1, trail[t2], lo, Lim());
      ButLinksRemove(w, trail, frames, k, trail[t2]);
      t2' := trail[t2];
      Unlink(t1, k, m);
      assert frames[..k - 1] == before[..k - 1] && frames[k - 1..] == before[k..];
      assert frames[..m] == before[..m];
    }

    method UnwindStep(t1: nat, t2: nat, ghost w: Words, ghost was: seq<nat>, cptr: nat, ghost k: nat,
        ghost m: nat) returns (t1': nat, t2': nat, ghost k': nat)
      requires Tidying(w, was, Max(trfreg, cptr), k, m, t1, t2) && t2 > cptr && t2 > trfreg
      requires m <= |was| && cptr == Top(was[..m])
      modifies this`trail, this`frames
      ensures Tidying(w, was, Max(trfreg, cptr), k', m, t1', t2') && t2' < t2
    {
      ChainPrefix(trail, trreg, frames, k);
      assert frames[..k][k - 1] == t2;
      AboveTop(trail, trreg, frames, m, k - 1);
      MarkNoMatter(trail, t2, Lim());
      if !Conditional(trail[t2 - 2], Lim()) {
        t1' := t1;
        t2' := UnwindRemove(t1, t2, w, was, Max(trfreg, cptr), k, m);
      } else {
        UnwindKeep(w, was, Max(trfreg, cptr), k, m, t1, t2);
        t1' := t2;
        t2' := trail[t2];
      }
      k' := k - 1;
    }

    /** Deletes the trail frames, above the given trail top and the frozen ones, about cells that
        need no trailing. The other frames stay, in order, and keep their places. */
    method UnwindTrail(cptr: nat, ghost m: nat)
      requires Valid() && Above(m) && cptr == Top(frames[..m])
      modifies this`trail, this`trreg, this`frames
      ensures Valid() && frames == Tidy(old(trail), old(frames), Max(trfreg, cptr), Lim())
      ensures ButLinks(old(trail), trail, frames)
      ensures |trail| == |old(trail)|
      ensures forall i :: 0 <= i <= Max(trfreg, cptr) && i < |trail| ==> trail[i] == old(trail)[i]
    {
      UnwindTop(cptr, m);
      UnwindRest(cptr, m);
    }

    /** Forgets the choice points after the n-th, and restores the registers it saved. */
    method DropChoicePoints(n: nat)
      requires Valid() && 1 <= n <= |cps|
      modifies this`cps, this`depth, this`snaps, this`hbreg, this`ebreg
      ensures Valid() && cps == old(cps)[..n] && snaps == old(snaps)[..n]
      ensures depth == old(depth)[..n]
    {
      assert Older(cps, depth, n - 1, |cps| - 1);
      OrderedTake(cps, depth, n);
      forall i | 0 <= i < n ensures Restores(trail, trreg, frames, cells, cps[i], depth[i], snaps[i]) {
      }
      hbreg, ebreg := cps[n - 1].hb, cps[n - 1].eb;
      cps, depth, snaps := cps[..n], depth[..n], snaps[..n];
    }

    /** Cuts back to the n-th choice point. The trail is tidied, and the choice points that are left
        still restore their cells. */
    method CutCode(n: nat)
      requires Valid() && 1 <= n <= |cps|
      modifies this`trail, this`trreg, this`frames, this`cps, this`depth, this`snaps, this`hbreg, this`ebreg
      ensures Valid() && cps == old(cps)[..n] && snaps == old(snaps)[..n] && depth == old(depth)[..n]
      ensures ButLinks(old(trail), trail, frames) && (n == |old(cps)| ==> frames == old(frames) && trail == old(trail))
      ensures n < |old(cps)| ==> frames == Tidy(old(trail), old(frames), Max(trfreg, old(cps)[n].trtop), Lim())
      ensures forall i :: 0 <= i <= trfreg ==> trail[i] == old(trail)[i]
      ensures n < |old(cps)| ==> forall i :: 0 <= i <= old(cps)[n].trtop && i < |trail| ==> trail[i] == old(trail)[i]
    {
      if n < |cps| {
        var cptr := cps[n].trtop;
        ghost var m := depth[n];
        assert Restores(trail, trreg, frames, cells, cps[n], m, snaps[n]);
        forall i | 0 <= i < n ensures depth[i] <= m {
          assert Older(cps, depth, i, n);
        }
        DropChoicePoints(n);
        UnwindTrail(cptr, m);
      } else {
        DropChoicePoints(n);
      }
    }

    /** The heap goes on where it was at the youngest choice point, or above what has been frozen since. */
    method ResetHeap()
      requires Registers()
      modifies this`hreg
      ensures hreg == Max(hbreg, hfreg)
    {
      hreg := if hbreg >= hfreg then hbreg else hfreg;
    }

    /** Retry: back to the youngest choice point, which stays. */
    method Retry()
      requires Valid() && cps != []
      modifies this`cells, this`trreg, this`frames, this`hreg
      ensures Valid() && Agree(cells, snaps[|cps| - 1], hbreg, ebreg)
      ensures frames == old(frames)[..depth[|cps| - 1]]
      ensures old(IsChain(trail, trreg, frames)) && depth[|cps| - 1] <= |old(frames)|
      ensures cells == Undo(trail, old(trreg), old(frames), depth[|cps| - 1], old(cells))
      ensures hreg == Max(cps[|cps| - 1].hb, hfreg)
    {
      UndoBindings();
      ResetHeap();
    }

    /** Drops the youngest choice point. */
    method PopChoicePoint()
      requires Valid() && cps != []
      modifies this`cps, this`depth, this`snaps, this`hbreg, this`ebreg
      ensures Valid() && cps == old(cps)[..|old(cps)| - 1]
      ensures depth == old(depth)[..|old(cps)| - 1] && snaps == old(snaps)[..|old(cps)| - 1]
    {
      if |cps| > 1 {
        DropChoicePoints(|cps| - 1);
      } else {
        cps, depth, snaps := [], [], [];
        hbreg, ebreg := 0, bottom;
      }
    }

    /** Trust: back to the youngest choice point, which goes. */
    method Trust()
      requires Valid() && cps != []
      modifies this`cells, this`trreg, this`frames, this`hreg, this`cps, this`depth, this`snaps, this`hbreg, this`ebreg
      ensures Valid() && cps == old(cps)[..|old(cps)| - 1]
      ensures depth == old(depth)[..|old(cps)| - 1] && snaps == old(snaps)[..|old(cps)| - 1]
      ensures old(IsChain(trail, trreg, frames)) && old(depth)[|old(cps)| - 1] <= |old(frames)|
      ensures frames == old(frames)[..old(depth)[|old(cps)| - 1]]
      ensures cells == Undo(trail, old(trreg), old(frames), old(depth)[|old(cps)| - 1], old(cells))
      ensures Agree(cells, old(snaps)[|old(cps)| - 1], old(hbreg), old(ebreg))
      ensures hreg == Max(old(cps)[|old(cps)| - 1].hb, hfreg)
    {
      Retry();
      PopChoicePoint();
    }

    /** Freezes what is there of the trail, the heap and the local stack. */
    method Freeze(top: nat)
      requires Valid() && Even(top)
      modifies this`trfreg, this`hfreg, this`efreg
      ensures Valid() && trfreg == Max(old(trfreg), trreg) && hfreg == Max(old(hfreg), hreg)
      ensures efreg == Min(old(efreg), top)
    {
      ChainTop(trail, trreg, frames);
      if trfreg < trreg {
        trfreg := trreg;
      }
      if hfreg < hreg {
        hfreg := hreg;
      }
      if efreg > top {
        efreg := top;
      }
    }

    /** Goes on at the last of the given choice points, on another branch. */
    method Enter(cps: seq<ChoicePoint>, cells: Cells, ghost frames: seq<nat>, ghost depth: seq<nat>,
        ghost snaps: seq<Cells>)
      requires Registers() && cps != [] && Even(cps[|cps| - 1].hb) && Even(cps[|cps| - 1].eb)
      modifies this`trreg, this`cells, this`cps, this`hbreg, this`ebreg, this`hreg, this`frames, this`depth, this`snaps
      ensures Registers() && trreg == cps[|cps| - 1].trtop && this.cps == cps && this.cells == cells
      ensures this.frames == frames && this.depth == depth && this.snaps == snaps
      ensures hreg == Max(cps[|cps| - 1].hb, hfreg)
    {
      var cp := cps[|cps| - 1];
      trreg, this.cps, this.cells, hbreg, ebreg := cp.trtop, cps, cells, cp.hb, cp.eb;
      hreg := if hbreg >= hfreg then hbreg else hfreg;
      this.frames, this.depth, this.snaps := frames, depth, snaps;
    }

    /** Gives frozen space back, to what a choice point has saved. */
    method AdjustFreezeRegisters(cp: ChoicePoint)
      requires Valid() && Even(cp.saved.h) && Even(cp.saved.e)
      modifies this`trfreg, this`hfreg, this`efreg
      ensures Valid() && trfreg == Min(old(trfreg), cp.saved.tr) && hfreg == Min(old(hfreg), cp.saved.h)
      ensures efreg == Max(old(efreg), cp.saved.e)
    {
      if trfreg > cp.saved.tr {
        trfreg := cp.saved.tr;
      }
      if hfreg > cp.saved.h {
        hfreg := cp.saved.h;
      }
      if efreg < cp.saved.e {
        efreg := cp.saved.e;
      }
    }
  }
}
