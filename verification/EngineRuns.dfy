/** The steps of the engine in a run: each keeps what all branches that were left need, and switching
    to one of them brings back its cells and its choice points. */
module EngineRuns {
  import opened TrailFrames
  import opened TrailStack
  import opened TrailBindings
  import opened TrailBranches
  import opened TrailEngine
  import opened TrailRuns
  import S = TrailSwitch

  ghost function Cur(engine: Engine): Branch
    reads engine
  {
    Branch(engine.frames, engine.cells, engine.cps, engine.depth, engine.snaps)
  }

  /** An engine that has left the given branches. */
  ghost predicate Keeps(engine: Engine, left: set<Branch>)
    reads engine
  {
    engine.Valid() && Inv(engine.trail, engine.FreezeRegs(), Cur(engine), left)
  }

  /** Every run starts here. */
  method Start(bottom: nat) returns (engine: Engine)
    requires Even(bottom)
    ensures fresh(engine) && Keeps(engine, {}) && engine.cps == []
  {
    engine := new Engine(bottom);
    assert engine.depth == [] && engine.snaps == [];
    InvStart(engine.FreezeRegs(), engine.cells);
  }

  /** The test for trailing, in terms of the branch; the local stack begins at `bottom`. */
  lemma ConditionalIff(engine: Engine, a: nat)
    requires engine.Registers() && a < engine.bottom
    ensures var h, e := HeapBound(Cur(engine), engine.FreezeRegs()), StackBound(Cur(engine), engine.FreezeRegs());
      Conditional(a, engine.Lim()) <==> There(a, h, e)
  {
  }

  /** A frame that is about a changed cell. */
  lemma Traced(engine: Engine, w: Words, r: Frozen, cur: Branch, left: set<Branch>)
    requires engine.Valid() && Inv(w, r, cur, left) && r == engine.FreezeRegs()
    requires engine.cps == cur.cps && engine.depth == cur.depth && engine.snaps == cur.snaps
    requires engine.frames == cur.frames + [engine.trreg] && |engine.trail| >= |w|
    requires IsFrame(engine.trail, engine.trreg)
    requires engine.trail[engine.trreg] == Top(cur.frames)
    requires var m := Max(Top(cur.frames), r.tr);
      m + FrameWords(engine.trail, engine.trreg) == engine.trreg && SameUpTo(w, engine.trail, m)
    requires var a := AddrOf(engine.trail, engine.trreg);
      a < engine.bottom && Conditional(a, engine.Lim()) && Get(engine.cells, a) == engine.trail[engine.trreg - 1]
    requires Agree(UndoAt(engine.trail, engine.trreg, engine.cells), cur.cells, 0, 0)
    ensures Keeps(engine, left)
  {
    ConditionalIff(engine, AddrOf(engine.trail, engine.trreg));
    InvPush(w, engine.trail, r, cur, left, engine.trreg, engine.cells);
  }

  /** A change that needs no frame. */
  lemma Untraced(engine: Engine, w: Words, r: Frozen, cur: Branch, left: set<Branch>, a: nat, v: nat)
    requires engine.Valid() && Inv(w, r, cur, left) && r == engine.FreezeRegs() && engine.trail == w
    requires a < engine.bottom && !Conditional(a, engine.Lim()) && Cur(engine) == cur.(cells := cur.cells[a := v])
    ensures Keeps(engine, left)
  {
    ConditionalIff(engine, a);
    InvChange(w, r, cur, left, a, v);
  }

  /** Binds a free cell. */
  method Bind(engine: Engine, a: nat, v: nat, ghost left: set<Branch>)
    requires Keeps(engine, left) && Even(a) && a < engine.bottom && Get(engine.cells, a) == a
    modifies engine`trail, engine`trreg, engine`frames, engine`cells
    ensures Keeps(engine, left) && engine.cells == old(engine.cells)[a := v]
    ensures if Conditional(a, engine.Lim()) then
        engine.frames == old(engine.frames) + [engine.trreg] && !Marked(engine.trail, engine.trreg)
      else engine.frames == old(engine.frames) && engine.trail == old(engine.trail)
  {
    ghost var w, cur, r := engine.trail, Cur(engine), engine.FreezeRegs();
    ChainTop(w, engine.trreg, engine.frames);
    ConditionalIff(engine, a);
    engine.Bind(a, v);
    if Conditional(a, engine.Lim()) {
      Traced(engine, w, r, cur, left);
    } else {
      Untraced(engine, w, r, cur, left, a, v);
    }
  }

  /** Changes a cell whatever it holds. */
  method Update(engine: Engine, a: nat, v: nat, ghost left: set<Branch>)
    requires Keeps(engine, left) && Even(a) && a < engine.bottom
    modifies engine`trail, engine`trreg, engine`frames, engine`cells
    ensures Keeps(engine, left) && engine.cells == old(engine.cells)[a := v]
    ensures if Conditional(a, engine.Lim()) then
        engine.frames == old(engine.frames) + [engine.trreg] && Marked(engine.trail, engine.trreg)
      else engine.frames == old(engine.frames) && engine.trail == old(engine.trail)
  {
    ghost var w, cur, r := engine.trail, Cur(engine), engine.FreezeRegs();
    ChainTop(w, engine.trreg, engine.frames);
    ConditionalIff(engine, a);
    engine.Update(a, v);
    if Conditional(a, engine.Lim()) {
      Traced(engine, w, r, cur, left);
    } else {
      Untraced(engine, w, r, cur, left, a, v);
    }
  }

  /** Builds a new cell on the heap. */
  method Build(engine: Engine, v: nat, ghost left: set<Branch>)
    requires Keeps(engine, left) && engine.hreg < engine.ebreg && engine.hreg < engine.efreg
    modifies engine`cells, engine`hreg
    ensures Keeps(engine, left) && engine.cells == old(engine.cells)[old(engine.hreg) := v]
    ensures engine.hreg > old(engine.hreg)
    ensures forall a: nat {:trigger Get(engine.cells, a)} ::
      a < old(engine.hreg) ==> Get(engine.cells, a) == Get(old(engine.cells), a)
  {
    ghost var w, cur, r, a := engine.trail, Cur(engine), engine.FreezeRegs(), engine.hreg;
    engine.Build(v);
    InvChange(w, r, cur, left, a, v);
  }

  /** Makes a choice point; `top` is the top of the local stack. */
  method PushChoicePoint(engine: Engine, top: nat, ghost left: set<Branch>)
    requires Keeps(engine, left) && Even(top)
    modifies engine`cps, engine`hbreg, engine`ebreg, engine`depth, engine`snaps
    ensures Keeps(engine, left)
    ensures engine.cps != [] && engine.cps[..|engine.cps| - 1] == old(engine.cps)
    ensures engine.snaps == old(engine.snaps) + [engine.cells] && engine.depth == old(engine.depth) + [|engine.frames|]
    ensures Last(Cur(engine)) ==
      ChoicePoint(engine.trreg, engine.hreg, Min(old(engine.ebreg), Min(engine.efreg, top)), engine.FreezeRegs())
  {
    ghost var w, cur, r := engine.trail, Cur(engine), engine.FreezeRegs();
    engine.PushChoicePoint(top);
    ghost var cp := Last(Cur(engine));
    assert engine.cps == cur.cps + [cp];
    InvPoint(w, r, cur, left, cp);
  }

  lemma Undone(engine: Engine, w: Words, r: Frozen, cur: Branch, left: set<Branch>)
    requires engine.Valid() && Inv(w, r, cur, left) && r == engine.FreezeRegs() && engine.trail == w && cur.cps != []
    requires engine.cps == cur.cps && engine.depth == cur.depth && engine.snaps == cur.snaps
    requires var m := cur.depth[|cur.cps| - 1];
      && engine.frames == cur.frames[..m] && IsChain(w, Top(cur.frames), cur.frames)
      && engine.cells == Undo(w, Top(cur.frames), cur.frames, m, cur.cells)
    ensures Keeps(engine, left)
  {
    var m := cur.depth[|cur.cps| - 1];
    ChainUndo(w, Top(cur.frames), cur.frames, m, cur.cells);
    assert Cur(engine) == UndoneTo(w, cur, m);
    InvBack(w, r, cur, left);
  }

  /** The heap cells built before the choice point was made, when they were as in `snap`, are what they were
      then and lie below the top of the heap, where the next cell is built: the top is where it was
      then, or above what has been frozen since. */
  ghost predicate StaysBuilt(engine: Engine, cp: ChoicePoint, snap: Cells)
    reads engine
  {
    && engine.hreg == Max(cp.hb, engine.hfreg)
    && forall a: nat {:trigger Get(engine.cells, a)} ::
      a < cp.hb ==> a < engine.hreg && Get(engine.cells, a) == Get(snap, a)
  }

  /** Retry: back to the youngest choice point. */
  method Retry(engine: Engine, ghost left: set<Branch>)
    requires Keeps(engine, left) && engine.cps != []
    modifies engine`cells, engine`trreg, engine`frames, engine`hreg
    ensures Keeps(engine, left)
    ensures Agree(engine.cells, engine.snaps[|engine.snaps| - 1], engine.hbreg, engine.ebreg)
    ensures |engine.frames| == engine.depth[|engine.cps| - 1]
    ensures StaysBuilt(engine, Last(Cur(engine)), engine.snaps[|engine.snaps| - 1])
  {
    ghost var w, cur, r := engine.trail, Cur(engine), engine.FreezeRegs();
    ChainTop(w, engine.trreg, engine.frames);
    engine.Retry();
    Undone(engine, w, r, cur, left);
  }

  /** Trust: back to the youngest choice point, which goes. */
  method Trust(engine: Engine, ghost left: set<Branch>)
    requires Keeps(engine, left) && engine.cps != []
    modifies engine`cells, engine`trreg, engine`frames, engine`hreg, engine`cps, engine`depth, engine`snaps
    modifies engine`hbreg, engine`ebreg
    ensures Keeps(engine, left) && engine.cps == old(engine.cps)[..|old(engine.cps)| - 1]
    ensures engine.snaps == old(engine.snaps)[..|old(engine.snaps)| - 1]
    ensures Agree(engine.cells, old(engine.snaps)[|old(engine.snaps)| - 1], old(engine.hbreg), old(engine.ebreg))
    ensures StaysBuilt(engine, old(Last(Cur(engine))), old(engine.snaps)[|old(engine.snaps)| - 1])
  {
    Retry(engine, left);
    ghost var w, cur, r := engine.trail, Cur(engine), engine.FreezeRegs();
    engine.PopChoicePoint();
    assert Cur(engine) == WithoutPoints(cur, |cur.cps| - 1);
    InvDrop(w, r, cur, left);
  }

  lemma Tidied(engine: Engine, w: Words, r: Frozen, cur: Branch, left: set<Branch>, n: nat)
    requires engine.Valid() && Inv(w, r, cur, left) && r == engine.FreezeRegs() && 1 <= n < |cur.cps|
    requires engine.cells == cur.cells && engine.cps == cur.cps[..n] && engine.depth == cur.depth[..n]
    requires engine.snaps == cur.snaps[..n] && ButLinks(w, engine.trail, engine.frames)
    requires engine.frames == Tidy(w, cur.frames, Max(r.tr, cur.cps[n].trtop), engine.Lim())
    requires forall i :: 0 <= i <= r.tr && i < |w| ==> engine.trail[i] == w[i]
    requires forall i :: 0 <= i <= cur.cps[n].trtop && i < |w| ==> engine.trail[i] == w[i]
    ensures Keeps(engine, left)
  {
    assert Restores(w, Top(cur.frames), cur.frames, cur.cells, cur.cps[n], cur.depth[n], cur.snaps[n]);
    ChainPrefix(w, Top(cur.frames), cur.frames, cur.depth[n]);
    ChainTop(w, cur.cps[n].trtop, cur.frames[..cur.depth[n]]);
    ChainTop(engine.trail, engine.trreg, engine.frames);
    InvCut(w, engine.trail, r, cur, left, n, engine.frames);
  }

  /** Cuts back to the n-th choice point. */
  method CutCode(engine: Engine, n: nat, ghost left: set<Branch>)
    requires Keeps(engine, left) && 1 <= n <= |engine.cps|
    modifies engine`trail, engine`trreg, engine`frames, engine`cps, engine`depth, engine`snaps
    modifies engine`hbreg, engine`ebreg
    ensures Keeps(engine, left) && engine.cps == old(engine.cps)[..n] && engine.snaps == old(engine.snaps)[..n]
    ensures engine.frames == if n == |old(engine.cps)| then old(engine.frames)
      else Tidy(old(engine.trail), old(engine.frames), Max(engine.trfreg, old(engine.cps)[n].trtop), engine.Lim())
  {
    ghost var w, cur, r := engine.trail, Cur(engine), engine.FreezeRegs();
    engine.CutCode(n);
    if n < |cur.cps| {
      Tidied(engine, w, r, cur, left, n);
    } else {
      assert Cur(engine) == cur && engine.trail == w;
    }
  }

  /** Freezes what there is; `top` is the top of the local stack. */
  method Freeze(engine: Engine, top: nat, ghost left: set<Branch>) returns (ghost more: set<Branch>)
    requires Keeps(engine, left) && Even(top) && top <= engine.ebreg
    modifies engine`trfreg, engine`hfreg, engine`efreg
    ensures Keeps(engine, more) && more == left + PointsOf(Cur(engine))
    ensures engine.FreezeRegs() ==
      Frozen(Max(old(engine.trfreg), engine.trreg), Max(old(engine.hfreg), engine.hreg), Min(old(engine.efreg), top))
  {
    ghost var w, cur, r := engine.trail, Cur(engine), engine.FreezeRegs();
    engine.Freeze(top);
    InvFreeze(w, r, engine.FreezeRegs(), cur, left);
    more := left + PointsOf(cur);
  }

  lemma LastPoint(b: Branch)
    requires Shaped(b) && b.cps != [] && b.depth[|b.cps| - 1] == |b.frames| && b.snaps[|b.cps| - 1] == b.cells
    ensures b in PointsOf(b)
  {
    assert PointAt(b, |b.cps| - 1) == b;
  }

  /** Suspends the branch: a choice point is made, and what there is is frozen. The branch can be
      gone back to, here or at any of its choice points. */
  method Suspend(engine: Engine, top: nat, ghost left: set<Branch>) returns (ghost more: set<Branch>)
    requires Keeps(engine, left) && Even(top)
    modifies engine`cps, engine`hbreg, engine`ebreg, engine`depth, engine`snaps, engine`trfreg
    modifies engine`hfreg, engine`efreg
    ensures Keeps(engine, more) && more == left + PointsOf(Cur(engine)) && Cur(engine) in more
    ensures engine.cells == old(engine.cells) && engine.frames == old(engine.frames)
    ensures engine.FreezeRegs() ==
      Frozen(Max(old(engine.trfreg), engine.trreg), Max(old(engine.hfreg), engine.hreg),
        Min(old(engine.efreg), engine.ebreg))
  {
    PushChoicePoint(engine, top, left);
    more := Freeze(engine, engine.ebreg, left);
    LastPoint(Cur(engine));
  }

  /** The branches fork, and switching gives the cells of `Switched`. */
  ghost predicate CanSwitch(w: Words, cur: Branch, b: Branch) {
    var f, ls, lt := Shared(cur.frames, b.frames), S.Line(cur.frames), S.Line(b.frames);
    && S.Fork(w, ls, lt, f)
    && S.RedoLine(w, lt, f, |b.frames|, S.UndoLine(w, ls, |cur.frames|, f, cur.cells)) == Switched(w, cur, b)
  }

  /** Every branch that was left can be switched to. */
  lemma SwitchReady(engine: Engine, left: set<Branch>, b: Branch)
    requires Keeps(engine, left) && b in left
    ensures CanSwitch(engine.trail, Cur(engine), b) && engine.trreg == Top(engine.frames)
  {
    var w, ps, n := engine.trail, engine.frames, |b.cps| - 1;
    var f := Shared(ps, b.frames);
    assert Kept(w, engine.FreezeRegs(), b) && Point(w, PointAt(b, n));
    assert Restores(w, Top(b.frames), b.frames, b.cells, b.cps[n], b.depth[n], b.snaps[n]);
    assert b.frames[..|b.frames|] == b.frames && ps[..|ps|] == ps;
    ChainTop(w, engine.trreg, ps);
    OutsideTurned(w, b.frames, ps);
    BranchesFork(w, ps, b.frames);
    S.LineUndo(w, ps, |ps|, f, engine.cells);
    S.LineRedo(w, b.frames, f, |b.frames|, UndoTo(w, ps, f, engine.cells));
  }

  lemma Resumed(engine: Engine, w: Words, r: Frozen, b: Branch, left: set<Branch>)
    requires engine.Registers() && engine.trail == w && engine.FreezeRegs() == r && Point(w, b)
    requires Inv(w, r, Cur(engine), left) && engine.frames == b.frames && engine.trreg == Last(b).trtop
    ensures Keeps(engine, left)
  {
    var n := |b.cps| - 1;
    assert Restores(w, Top(b.frames), b.frames, b.cells, b.cps[n], b.depth[n], b.snaps[n]);
    assert b.frames[..|b.frames|] == b.frames;
  }

  /** The cells, once the bindings of the branch have been undone and those of b made again. */
  method SwitchedCells(engine: Engine, target: nat, ghost b: Branch) returns (cells: Cells)
    requires CanSwitch(engine.trail, Cur(engine), b) && engine.trreg == Top(engine.frames) && target == Top(b.frames)
    ensures cells == Switched(engine.trail, Cur(engine), b)
  {
    cells := S.SwitchedCells(engine.trail, engine.trreg, target, engine.cells, S.Line(engine.frames), S.Line(b.frames),
      Shared(engine.frames, b.frames));
  }

  lemma LeftPoint(w: Words, r: Frozen, b: Branch)
    requires Kept(w, r, b)
    ensures Point(w, b) && Last(b).trtop == Top(b.frames) && Even(Last(b).hb) && Even(Last(b).eb)
  {
    var n := |b.cps| - 1;
    assert Point(w, PointAt(b, n));
    assert Restores(w, Top(b.frames), b.frames, b.cells, b.cps[n], b.depth[n], b.snaps[n]);
    assert b.frames[..|b.frames|] == b.frames;
  }

  /** Switches to a branch that was left; `cps` is the choice point it was left at, with those
      before it. The cells that were there at that choice point are as they were. */
  method SwitchTo(engine: Engine, cps: seq<ChoicePoint>, ghost b: Branch, ghost left: set<Branch>)
    requires Keeps(engine, left) && b in left && cps == b.cps
    modifies engine
    ensures Keeps(engine, left) && engine.cps == cps && engine.frames == b.frames && engine.trail == old(engine.trail)
    ensures cps != [] && Agree(engine.cells, b.cells, Last(b).hb, Last(b).eb)
    ensures engine.depth == b.depth && engine.snaps == b.snaps && engine.FreezeRegs() == old(engine.FreezeRegs())
    ensures StaysBuilt(engine, Last(b), b.cells)
  {
    ghost var w, r := engine.trail, engine.FreezeRegs();
    LeftPoint(w, r, b);
    InvSwitch(w, r, Cur(engine), left, b);
    SwitchReady(engine, left, b);
    var cells := SwitchedCells(engine, cps[|cps| - 1].trtop, b);
    engine.Enter(cps, cells, b.frames, b.depth, b.snaps);
    Resumed(engine, w, r, b, left);
  }

  /** Gives back what was frozen since the youngest choice point was made, once the branch is back
      there. The branches left before that can still be gone back to. */
  method GiveBack(engine: Engine, ghost left: set<Branch>) returns (ghost fewer: set<Branch>)
    requires Keeps(engine, left) && engine.cps != [] && |engine.frames| == engine.depth[|engine.cps| - 1]
    modifies engine`trfreg, engine`hfreg, engine`efreg
    ensures engine.FreezeRegs() == Last(Cur(engine)).saved
    ensures Keeps(engine, fewer) && fewer == Within(left, engine.FreezeRegs())
  {
    ghost var w, cur, r := engine.trail, Cur(engine), engine.FreezeRegs();
    InvGiveBack(w, r, cur, left);
    fewer := Within(left, Last(cur).saved);
    assert Point(w, PointAt(cur, |cur.cps| - 1));
    engine.AdjustFreezeRegisters(engine.cps[|engine.cps| - 1]);
  }
}
