/** Bindings, choice points, backtracking and cuts over the trail. */
module TrailStack {
  import opened TrailFrames

  /** The freeze registers: how far the trail, the heap and the local stack are frozen. */
  datatype Frozen = Frozen(tr: nat, h: nat, e: nat)

  /** What a choice point saves: the top of the trail, the registers that tell which cells were
      there before it, and the freeze registers. */
  datatype ChoicePoint = ChoicePoint(trtop: nat, hb: nat, eb: nat, saved: Frozen)

  predicate Even(n: nat) {
    n % 2 == 0
  }

  /** Undoing the frames above the d lowest brings back every cell that was there when the choice
      point was made. */
  ghost predicate Restores(w: Words, t: nat, ps: seq<nat>, c: Cells, cp: ChoicePoint, d: nat, snap: Cells) {
    && IsChain(w, t, ps) && d <= |ps| && cp.trtop == Top(ps[..d])
    && Agree(Undo(w, t, ps, d, c), snap, cp.hb, cp.eb)
  }

  ghost predicate AllRestore(w: Words, t: nat, ps: seq<nat>, c: Cells, cps: seq<ChoicePoint>, depth: seq<nat>,
      snaps: seq<Cells>) {
    && |cps| == |depth| == |snaps|
    && forall i {:trigger cps[i]} :: 0 <= i < |cps| ==> Restores(w, t, ps, c, cps[i], depth[i], snaps[i])
  }

  predicate Older(cps: seq<ChoicePoint>, depth: seq<nat>, i: int, j: int)
    requires |cps| == |depth|
  {
    0 <= i <= j < |cps| ==> depth[i] <= depth[j] && cps[i].hb <= cps[j].hb && cps[j].eb <= cps[i].eb
  }

  /** A younger choice point has seen more cells. */
  ghost predicate Ordered(cps: seq<ChoicePoint>, depth: seq<nat>) {
    && |cps| == |depth|
    && (forall i {:trigger cps[i]} :: 0 <= i < |cps| ==> Even(cps[i].hb) && Even(cps[i].eb))
    && forall i, j {:trigger Older(cps, depth, i, j)} :: Older(cps, depth, i, j)
  }

  lemma RestoresSame(w: Words, v: Words, t: nat, ps: seq<nat>, c: Cells, cp: ChoicePoint, d: nat, snap: Cells)
    requires Restores(w, t, ps, c, cp, d, snap) && t < |w| && t < |v| && forall i :: 0 <= i <= t ==> v[i] == w[i]
    ensures Restores(v, t, ps, c, cp, d, snap)
  {
    ChainSame(w, v, t, ps);
    UndoSame(w, v, t, ps, d, c);
  }

  /** Changing a cell that was not there does not matter. */
  lemma RestoresFresh(w: Words, t: nat, ps: seq<nat>, c: Cells, cp: ChoicePoint, d: nat, snap: Cells, a: nat, x: nat)
    requires Restores(w, t, ps, c, cp, d, snap) && Fresh(a, cp.hb, cp.eb)
    ensures Restores(w, t, ps, c[a := x], cp, d, snap)
  {
    UndoAgree(w, t, ps, d, c[a := x], c, cp.hb, cp.eb);
    AgreeTrans(Undo(w, t, ps, d, c[a := x]), Undo(w, t, ps, d, c), snap, cp.hb, cp.eb);
  }

  /** A new frame on top that says how to get the cell back. */
  lemma RestoresPush(w: Words, v: Words, t: nat, ps: seq<nat>, p: nat, c: Cells, c': Cells, cp: ChoicePoint, d: nat,
      snap: Cells)
    requires Restores(w, t, ps, c, cp, d, snap) && t < |w| && t < |v| && forall i :: 0 <= i <= t ==> v[i] == w[i]
    requires IsFrame(v, p) && v[p] == t && forall a :: Get(UndoFrame(v, p, c'), a) == Get(c, a)
    ensures Restores(v, p, ps + [p], c', cp, d, snap)
  {
    RestoresSame(w, v, t, ps, c, cp, d, snap);
    assert (ps + [p])[..|ps|] == ps && (ps + [p])[..d] == ps[..d];
    var back := UndoFrame(v, p, c');
    UndoAgree(v, t, ps, d, back, c, cp.hb, cp.eb);
    assert Undo(v, p, ps + [p], d, c') == Undo(v, t, ps, d, back);
    AgreeTrans(Undo(v, t, ps, d, back), Undo(v, t, ps, d, c), snap, cp.hb, cp.eb);
  }

  /** After backtracking to a choice point, the older ones still restore. */
  lemma RestoresOlder(w: Words, t: nat, ps: seq<nat>, c: Cells, cp: ChoicePoint, d: nat, snap: Cells, m: nat)
    requires Restores(w, t, ps, c, cp, d, snap) && d <= m <= |ps|
    ensures IsChain(w, Top(ps[..m]), ps[..m])
    ensures Restores(w, Top(ps[..m]), ps[..m], Undo(w, t, ps, m, c), cp, d, snap)
  {
    ChainPrefix(w, t, ps, m);
    UndoSplit(w, t, ps, d, m, c);
    assert ps[..m][..d] == ps[..d];
  }

  /** A frame about a cell that was not there can be taken out of the middle of the trail. */
  lemma RestoresRelink(w: Words, t: nat, ps: seq<nat>, c: Cells, cp: ChoicePoint, d: nat, snap: Cells, k: nat)
    requires Restores(w, t, ps, c, cp, d, snap) && d <= k && k + 1 < |ps| && ps[k + 1] < |w|
    requires IsFrame(w, ps[k])
    requires Fresh(AddrOf(w, ps[k]), cp.hb, cp.eb)
    ensures Restores(w[ps[k + 1] := w[ps[k]]], t, ps[..k] + ps[k + 1..], c, cp, d, snap)
  {
    Relink(w, t, ps, k);
    RelinkUndo(w, t, ps, k, d, c, cp.hb, cp.eb);
    assert (ps[..k] + ps[k + 1..])[..d] == ps[..d];
    var v, qs := w[ps[k + 1] := w[ps[k]]], ps[..k] + ps[k + 1..];
    AgreeTrans(Undo(v, t, qs, d, c), Undo(w, t, ps, d, c), snap, cp.hb, cp.eb);
  }

  lemma RestoresPop(w: Words, t: nat, ps: seq<nat>, c: Cells, cp: ChoicePoint, d: nat, snap: Cells)
    requires Restores(w, t, ps, c, cp, d, snap) && d < |ps| && Fresh(AddrOf(w, t), cp.hb, cp.eb)
    ensures Restores(w, w[t], ps[..|ps| - 1], c, cp, d, snap)
  {
    PopUndo(w, t, ps, d, c, cp.hb, cp.eb);
    assert ps[..|ps| - 1][..d] == ps[..d];
    AgreeTrans(Undo(w, w[t], ps[..|ps| - 1], d, c), Undo(w, t, ps, d, c), snap, cp.hb, cp.eb);
  }

  lemma OrderedTake(cps: seq<ChoicePoint>, depth: seq<nat>, n: nat)
    requires Ordered(cps, depth) && n <= |cps|
    ensures Ordered(cps[..n], depth[..n])
  {
    forall i, j ensures Older(cps[..n], depth[..n], i, j) {
      assert Older(cps, depth, i, j);
    }
    assert forall i :: 0 <= i < n ==> cps[..n][i] == cps[i];
  }

  lemma OrderedPush(cps: seq<ChoicePoint>, depth: seq<nat>, cp: ChoicePoint, d: nat)
    requires Ordered(cps, depth) && Even(cp.hb) && Even(cp.eb)
    requires cps != [] ==> depth[|cps| - 1] <= d && cps[|cps| - 1].hb <= cp.hb && cp.eb <= cps[|cps| - 1].eb
    ensures Ordered(cps + [cp], depth + [d])
  {
    forall i, j ensures Older(cps + [cp], depth + [d], i, j) {
      assert Older(cps, depth, i, j) && Older(cps, depth, i, |cps| - 1);
    }
  }

  lemma AllRestorePush(w: Words, t: nat, ps: seq<nat>, c: Cells, cps: seq<ChoicePoint>, depth: seq<nat>,
      snaps: seq<Cells>, cp: ChoicePoint)
    requires AllRestore(w, t, ps, c, cps, depth, snaps) && IsChain(w, t, ps) && cp.trtop == t
    ensures AllRestore(w, t, ps, c, cps + [cp], depth + [|ps|], snaps + [c])
  {
    ChainTop(w, t, ps);
    assert ps[..|ps|] == ps;
    forall i | 0 <= i <= |cps| ensures Restores(w, t, ps, c, (cps + [cp])[i], (depth + [|ps|])[i], (snaps + [c])[i]) {
      if i < |cps| {
        assert Restores(w, t, ps, c, cps[i], depth[i], snaps[i]);
      }
    }
  }

  /** The registers that tell which cells have to be trailed. */
  datatype Limits = Limits(hb: nat, eb: nat, hf: nat, ef: nat)

  predicate Conditional(a: nat, lim: Limits) {
    a >= lim.eb || a >= lim.ef || a < lim.hb || a < lim.hf
  }

  predicate EvenLimits(lim: Limits) {
    Even(lim.hb) && Even(lim.eb) && Even(lim.hf) && Even(lim.ef)
  }

  /** The test of a frame may look at the marked address. */
  lemma MarkNoMatter(w: Words, t: nat, lim: Limits)
    requires IsFrame(w, t) && EvenLimits(lim)
    ensures Conditional(w[t - 2], lim) <==> Conditional(AddrOf(w, t), lim)
  {
    var q := w[t - 2] / 2;
    if Marked(w, t) {
      assert w[t - 2] == 2 * q + 1;
      assert lim.hb == 2 * (lim.hb / 2) && lim.eb == 2 * (lim.eb / 2);
      assert lim.hf == 2 * (lim.hf / 2) && lim.ef == 2 * (lim.ef / 2);
    }
  }

  /** The trail without the frames above `lo` that are about cells that need no trailing. */
  ghost function Tidy(w: Words, ps: seq<nat>, lo: nat, lim: Limits): seq<nat> {
    if ps == [] then []
    else
      var n, p := |ps| - 1, ps[|ps| - 1];
      if p <= lo then ps
      else if IsFrame(w, p) && !Conditional(AddrOf(w, p), lim) then Tidy(w, ps[..n], lo, lim)
      else Tidy(w, ps[..n], lo, lim) + [p]
  }

  /** Tidying depends on the frames themselves only, not on how they are linked. */
  lemma {:induction false} TidySame(w: Words, v: Words, ps: seq<nat>, lo: nat, lim: Limits)
    requires forall i :: 0 <= i < |ps| ==>
      (IsFrame(v, ps[i]) <==> IsFrame(w, ps[i])) && (IsFrame(w, ps[i]) ==> AddrOf(v, ps[i]) == AddrOf(w, ps[i]))
    ensures Tidy(v, ps, lo, lim) == Tidy(w, ps, lo, lim)
  {
    if ps != [] {
      TidySame(w, v, ps[..|ps| - 1], lo, lim);
    }
  }

  /** Of the words only the links of the frames at ps have changed. */
  ghost predicate ButLinks(w: Words, v: Words, ps: seq<nat>) {
    |v| == |w| && forall i {:trigger v[i]} :: 0 <= i < |w| && i !in ps ==> v[i] == w[i]
  }

  /** Taking a frame, whose own link is as it was, out of the chain. */
  lemma ButLinksRemove(w: Words, v: Words, ps: seq<nat>, k: nat, x: nat)
    requires ButLinks(w, v, ps) && 0 < k < |ps| && ps[k] < |v|
    requires ps[k - 1] < |v| && v[ps[k - 1]] == w[ps[k - 1]]
    ensures ButLinks(w, v[ps[k] := x], ps[..k - 1] + ps[k..])
  {
    var qs := ps[..k - 1] + ps[k..];
    assert qs[k - 1] == ps[k];
    forall j | 0 <= j < |ps| && j != k - 1 ensures ps[j] in qs {
      assert ps[j] == if j < k - 1 then qs[j] else qs[j - 1];
    }
    forall i | 0 <= i < |w| && i !in qs ensures v[ps[k] := x][i] == w[i] {
      assert i in ps ==> i == ps[k - 1];
    }
  }

  function Max(a: nat, b: nat): nat {
    if a > b then a else b
  }

  function Min(a: nat, b: nat): nat {
    if a < b then a else b
  }

  /** A chain with nothing above lo is tidy. */
  lemma TidyLow(w: Words, t: nat, ps: seq<nat>, lo: nat, lim: Limits)
    requires IsChain(w, t, ps) && t <= lo
    ensures Tidy(w, ps, lo, lim) == ps
  {
  }

  /** One step of tidying. */
  lemma TidyStep(w: Words, t: nat, ps: seq<nat>, lo: nat, lim: Limits)
    requires IsChain(w, t, ps) && t > lo
    ensures ps != [] && Tidy(w, ps, lo, lim) ==
      if Conditional(AddrOf(w, t), lim) then Tidy(w, ps[..|ps| - 1], lo, lim) + [t]
      else Tidy(w, ps[..|ps| - 1], lo, lim)
  {
  }

  /** A conditional frame stays where it is. */
  lemma TidyKeep(w: Words, ps: seq<nat>, k: nat, lo: nat, lim: Limits)
    requires 0 < k <= |ps| && IsChain(w, ps[k - 1], ps[..k]) && ps[k - 1] > lo
    requires Conditional(AddrOf(w, ps[k - 1]), lim)
    ensures Tidy(w, ps[..k], lo, lim) + ps[k..] == Tidy(w, ps[..k - 1], lo, lim) + ps[k - 1..]
  {
    TidyStep(w, ps[k - 1], ps[..k], lo, lim);
    assert ps[..k][..k - 1] == ps[..k - 1] && ps[k - 1..] == [ps[k - 1]] + ps[k..];
  }

  /** The frames above a choice point's trail top are those from its depth on. */
  lemma AboveTop(w: Words, t: nat, ps: seq<nat>, m: nat, k: nat)
    requires IsChain(w, t, ps) && m <= |ps| && k < |ps|
    ensures ps[k] > Top(ps[..m]) <==> k >= m
  {
    if k >= m {
      if m > 0 {
        ChainIncreasing(w, t, ps, m - 1, k);
      } else {
        ChainTop(w, t, ps);
      }
    } else {
      if k < m - 1 {
        ChainIncreasing(w, t, ps, k, m - 1);
      }
    }
  }

  /** Relinking a frame above a chain leaves the chain as tidy as it was. */
  lemma TidyBelow(w: Words, t: nat, ps: seq<nat>, t1: nat, x: nat, lo: nat, lim: Limits)
    requires IsChain(w, t, ps) && t < t1 < |w|
    ensures Tidy(w[t1 := x], ps, lo, lim) == Tidy(w, ps, lo, lim)
  {
    ChainTop(w, t, ps);
    TidySame(w, w[t1 := x], ps, lo, lim);
  }
}
