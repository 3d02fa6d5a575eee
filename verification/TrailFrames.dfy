/** The trail: frames of three or four words that are linked by their parent pointers. */
module TrailFrames {

  /** The words of the trail stack. A register points to the last word of a frame, which is the
      pointer to the frame before; word 0 is the bottom. Cell addresses are even. */
  type Words = seq<nat>

  const PRE_IMAGE_MARK := 1

  predicate Marked(w: Words, t: nat)
    requires 2 <= t < |w|
  {
    w[t - 2] % 2 == PRE_IMAGE_MARK
  }

  /** There is a whole frame at t, above its parent. */
  predicate IsFrame(w: Words, t: nat) {
    && 3 <= t < |w| && w[t] + (if Marked(w, t) then 4 else 3) <= t
  }

  /** The frames at ps, bottom first, are those reached from t. */
  ghost predicate IsChain(w: Words, t: nat, ps: seq<nat>) {
    if ps == [] then t == 0 && |w| > 0 && w[0] == 0
    else t == ps[|ps| - 1] && IsFrame(w, t) && IsChain(w, w[t], ps[..|ps| - 1])
  }

  function Top(ps: seq<nat>): nat {
    if ps == [] then 0 else ps[|ps| - 1]
  }

  lemma {:induction false} ChainTop(w: Words, t: nat, ps: seq<nat>)
    requires IsChain(w, t, ps)
    ensures t == Top(ps) && t < |w|
    ensures forall i :: 0 <= i < |ps| ==> 0 < ps[i] <= t
  {
    if ps != [] {
      ChainTop(w, w[t], ps[..|ps| - 1]);
    }
  }

  /** A chain depends on the words up to its top only. */
  lemma {:induction false} ChainSame(w: Words, v: Words, t: nat, ps: seq<nat>)
    requires IsChain(w, t, ps) && t < |v| && forall i :: 0 <= i <= t < |w| ==> v[i] == w[i]
    ensures IsChain(v, t, ps)
  {
    if ps != [] {
      ChainSame(w, v, w[t], ps[..|ps| - 1]);
    }
  }

  lemma {:induction false} ChainPrefix(w: Words, t: nat, ps: seq<nat>, k: nat)
    requires IsChain(w, t, ps) && k <= |ps|
    ensures IsChain(w, Top(ps[..k]), ps[..k])
  {
    if k == |ps| {
      assert ps[..k] == ps;
      ChainTop(w, t, ps);
    } else {
      ChainPrefix(w, w[t], ps[..|ps| - 1], k);
      assert ps[..|ps| - 1][..k] == ps[..k];
    }
  }

  lemma {:induction false} ChainIncreasing(w: Words, t: nat, ps: seq<nat>, i: nat, j: nat)
    requires IsChain(w, t, ps) && i < j < |ps|
    ensures ps[i] < ps[j]
  {
    ChainPrefix(w, t, ps, j + 1);
    assert ps[..j + 1][..j] == ps[..j];
    ChainTop(w, w[ps[j]], ps[..j]);
  }

  /** The contents of the cells; one that has not been set points to itself. */
  type Cells = map<nat, nat>

  function Get(c: Cells, a: nat): nat {
    if a in c then c[a] else a
  }

  /** Undoing one frame: a plain one frees its cell, a pre-image one restores it. */
  function UndoFrame(w: Words, t: nat, c: Cells): Cells
    requires IsFrame(w, t)
  {
    if Marked(w, t) then c[w[t - 2] - 1 := w[t - 3]] else c[w[t - 2] := w[t - 2]]
  }

  /** Undoing the frames at ps, from the top down. */
  ghost function Undo(w: Words, t: nat, ps: seq<nat>, k: nat, c: Cells): Cells
    requires IsChain(w, t, ps) && k <= |ps|
    decreases |ps|
  {
    if k == |ps| then c else Undo(w, w[t], ps[..|ps| - 1], k, UndoFrame(w, t, c))
  }

  lemma {:induction false} UndoSame(w: Words, v: Words, t: nat, ps: seq<nat>, k: nat, c: Cells)
    requires IsChain(w, t, ps) && IsChain(v, t, ps) && k <= |ps|
    requires forall i :: 0 <= i <= t && t < |w| && t < |v| ==> v[i] == w[i]
    ensures Undo(v, t, ps, k, c) == Undo(w, t, ps, k, c)
    decreases |ps|
  {
    if k < |ps| {
      UndoSame(w, v, w[t], ps[..|ps| - 1], k, UndoFrame(w, t, c));
    }
  }

  /** Undoing in two steps. */
  lemma {:induction false} UndoSplit(w: Words, t: nat, ps: seq<nat>, k: nat, m: nat, c: Cells)
    requires IsChain(w, t, ps) && k <= m <= |ps| && IsChain(w, Top(ps[..m]), ps[..m])
    ensures Undo(w, t, ps, k, c) == Undo(w, Top(ps[..m]), ps[..m], k, Undo(w, t, ps, m, c))
    decreases |ps|
  {
    if m == |ps| {
      assert ps[..m] == ps;
    } else {
      assert ps[..|ps| - 1][..m] == ps[..m];
      UndoSplit(w, w[t], ps[..|ps| - 1], k, m, UndoFrame(w, t, c));
    }
  }

  /** Two states of the cells agree on a set of addresses. */
  ghost predicate Agree(c: Cells, d: Cells, hb: nat, eb: nat) {
    forall a: nat :: a < hb || a >= eb ==> Get(c, a) == Get(d, a)
  }

  lemma UndoFrameAgree(w: Words, t: nat, c: Cells, d: Cells, hb: nat, eb: nat)
    requires IsFrame(w, t) && Agree(c, d, hb, eb)
    ensures Agree(UndoFrame(w, t, c), UndoFrame(w, t, d), hb, eb)
  {
    forall a: nat | a < hb || a >= eb ensures Get(UndoFrame(w, t, c), a) == Get(UndoFrame(w, t, d), a) {
      assert Get(c, a) == Get(d, a);
    }
  }

  lemma {:induction false} UndoAgree(w: Words, t: nat, ps: seq<nat>, k: nat, c: Cells, d: Cells, hb: nat, eb: nat)
    requires IsChain(w, t, ps) && k <= |ps| && Agree(c, d, hb, eb)
    ensures Agree(Undo(w, t, ps, k, c), Undo(w, t, ps, k, d), hb, eb)
    decreases |ps|
  {
    if k < |ps| {
      UndoFrameAgree(w, t, c, d, hb, eb);
      UndoAgree(w, w[t], ps[..|ps| - 1], k, UndoFrame(w, t, c), UndoFrame(w, t, d), hb, eb);
    }
  }

  /** The address of the cell a frame is about. */
  function AddrOf(w: Words, t: nat): nat
    requires IsFrame(w, t)
  {
    if Marked(w, t) then w[t - 2] - 1 else w[t - 2]
  }

  /** A cell that is not among those below hb or from eb on. */
  predicate Fresh(a: nat, hb: nat, eb: nat) {
    hb <= a < eb
  }

  lemma UndoFresh(w: Words, t: nat, c: Cells, hb: nat, eb: nat)
    requires IsFrame(w, t) && Fresh(AddrOf(w, t), hb, eb)
    ensures Agree(UndoFrame(w, t, c), c, hb, eb)
  {
  }

  lemma AgreeTrans(c: Cells, d: Cells, e: Cells, hb: nat, eb: nat)
    requires Agree(c, d, hb, eb) && Agree(d, e, hb, eb)
    ensures Agree(c, e, hb, eb)
  {
    forall a: nat | a < hb || a >= eb ensures Get(c, a) == Get(e, a) {
      assert Get(c, a) == Get(d, a);
    }
  }

  /** Taking the frame x = ps[k] out of a chain, by giving the frame above it x's parent, leaves
      the other frames. */
  lemma {:induction false} Relink(w: Words, t: nat, ps: seq<nat>, k: nat)
    requires IsChain(w, t, ps) && k + 1 < |ps| && ps[k + 1] < |w| && ps[k] < |w|
    ensures IsChain(w[ps[k + 1] := w[ps[k]]], t, ps[..k] + ps[k + 1..])
  {
    var v := w[ps[k + 1] := w[ps[k]]];
    var n := |ps| - 1;
    if k + 1 == n {
      assert ps[..n][..k] == ps[..k] && ps[..n][..n - 1] == ps[..k];
      assert ps[..k] + ps[k + 1..] == ps[..k] + [t];
      assert (ps[..k] + [t])[..k] == ps[..k];
      assert IsChain(w, w[ps[k]], ps[..k]);
      ChainTop(w, w[ps[k]], ps[..k]);
      ChainSame(w, v, w[ps[k]], ps[..k]);
      FrameSame(w, v, t);
    } else {
      ChainTop(w, w[t], ps[..n]);
      assert ps[..n][k + 1] == ps[k + 1] <= w[t];
      Relink(w, w[t], ps[..n], k);
      assert ps[..n][..k] == ps[..k] && ps[..n][k + 1..] == ps[k + 1..n];
      assert (ps[..k] + ps[k + 1..])[..n - 1] == ps[..k] + ps[k + 1..n];
    }
  }

  lemma FrameSame(w: Words, v: Words, t: nat)
    requires IsFrame(w, t) && |v| == |w| && v[t] <= w[t] && forall i :: 0 <= i < t ==> v[i] == w[i]
    ensures IsFrame(v, t)
  {
  }

  /** Undoing does not miss the frame taken out, if it is about a cell that does not matter. */
  lemma {:induction false} RelinkUndo(w: Words, t: nat, ps: seq<nat>, k: nat, j: nat, c: Cells, hb: nat, eb: nat)
    requires IsChain(w, t, ps) && j <= k && k + 1 < |ps| && ps[k + 1] < |w| && IsFrame(w, ps[k])
    requires Fresh(AddrOf(w, ps[k]), hb, eb)
    requires IsChain(w[ps[k + 1] := w[ps[k]]], t, ps[..k] + ps[k + 1..])
    ensures Agree(Undo(w[ps[k + 1] := w[ps[k]]], t, ps[..k] + ps[k + 1..], j, c), Undo(w, t, ps, j, c), hb, eb)
    decreases |ps|
  {
    var v := w[ps[k + 1] := w[ps[k]]];
    var n := |ps| - 1;
    var c' := UndoFrame(w, t, c);
    ChainTop(w, w[t], ps[..n]);
    assert UndoFrame(v, t, c) == c';
    if k + 1 == n {
      var low := ps[..k];
      assert ps[..n][..n - 1] == low && (low + ps[k + 1..])[..k] == low;
      assert v[t] == w[ps[k]];
      ChainTop(w, w[ps[k]], low);
      UndoSame(w, v, w[ps[k]], low, j, c');
      UndoFresh(w, ps[k], c', hb, eb);
      UndoAgree(w, w[ps[k]], low, j, c', UndoFrame(w, ps[k], c'), hb, eb);
      assert w[t] == ps[k];
      assert Undo(w, t, ps, j, c) == Undo(w, w[ps[k]], low, j, UndoFrame(w, ps[k], c'));
      assert low + ps[k + 1..] == low + [t];
      assert Undo(v, t, low + ps[k + 1..], j, c) == Undo(v, w[ps[k]], low, j, c');
    } else {
      assert ps[..n][..k] == ps[..k] && ps[..n][k + 1..] == ps[k + 1..n];
      assert (ps[..k] + ps[k + 1..])[..n - 1] == ps[..k] + ps[k + 1..n];
      assert v[t] == w[t];
      RelinkUndo(w, w[t], ps[..n], k, j, c', hb, eb);
    }
  }

  /** Leaving out the top frame, if it is about a cell that does not matter. */
  lemma PopUndo(w: Words, t: nat, ps: seq<nat>, j: nat, c: Cells, hb: nat, eb: nat)
    requires IsChain(w, t, ps) && j < |ps| && Fresh(AddrOf(w, t), hb, eb)
    ensures Agree(Undo(w, w[t], ps[..|ps| - 1], j, c), Undo(w, t, ps, j, c), hb, eb)
  {
    UndoFresh(w, t, c, hb, eb);
    UndoAgree(w, w[t], ps[..|ps| - 1], j, UndoFrame(w, t, c), c, hb, eb);
  }
}
