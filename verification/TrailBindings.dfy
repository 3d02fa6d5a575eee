/** What the frames of a branch do to the cells, whichever way the frames are linked: undoing them,
    making their bindings again, and leaving out those that need no trailing. */
module TrailBindings {
  import opened TrailFrames
  import opened TrailStack

  function UndoAt(w: Words, t: nat, c: Cells): Cells {
    if IsFrame(w, t) then UndoFrame(w, t, c) else c
  }

  function RedoAt(w: Words, t: nat, c: Cells): Cells {
    if IsFrame(w, t) then c[AddrOf(w, t) := w[t - 1]] else c
  }

  /** Undoing the frames at ps from the k-th on, from the top down. */
  function UndoTo(w: Words, ps: seq<nat>, k: nat, c: Cells): Cells
    requires k <= |ps|
    decreases |ps|
  {
    if k == |ps| then c else UndoTo(w, ps[..|ps| - 1], k, UndoAt(w, ps[|ps| - 1], c))
  }

  /** Making the bindings of the frames at ps from the f-th on, from the bottom up. */
  function RedoTo(w: Words, ps: seq<nat>, f: nat, c: Cells): Cells
    requires f <= |ps|
    decreases |ps|
  {
    if f == |ps| then c else RedoAt(w, ps[|ps| - 1], RedoTo(w, ps[..|ps| - 1], f, c))
  }

  /** Every cell holds, once the frames above have been undone, the value its frame gave it. */
  predicate Faithful(w: Words, ps: seq<nat>, c: Cells)
    decreases |ps|
  {
    ps == [] ||
    var p := ps[|ps| - 1];
    IsFrame(w, p) && Get(c, AddrOf(w, p)) == w[p - 1] && Faithful(w, ps[..|ps| - 1], UndoAt(w, p, c))
  }

  /** The cell was there when there were cells below hb and from eb on. */
  predicate There(a: nat, hb: nat, eb: nat) {
    a < hb || a >= eb
  }

  ghost predicate AllThere(w: Words, ps: seq<nat>, hb: nat, eb: nat) {
    forall i {:trigger ps[i]} :: 0 <= i < |ps| ==> IsFrame(w, ps[i]) && There(AddrOf(w, ps[i]), hb, eb)
  }

  /** Apart from its link the frame is the same. */
  predicate SameFrame(w: Words, v: Words, t: nat) {
    && (IsFrame(v, t) <==> IsFrame(w, t))
    && (IsFrame(w, t) ==>
          && v[t - 1] == w[t - 1] && v[t - 2] == w[t - 2]
          && (Marked(w, t) ==> v[t - 3] == w[t - 3]))
  }

  ghost predicate SameFrames(w: Words, v: Words, ps: seq<nat>) {
    forall i {:trigger ps[i]} :: 0 <= i < |ps| ==> SameFrame(w, v, ps[i])
  }

  lemma {:induction false} SameFor(w: Words, v: Words, ps: seq<nat>, k: nat, c: Cells)
    requires SameFrames(w, v, ps) && k <= |ps|
    ensures UndoTo(v, ps, k, c) == UndoTo(w, ps, k, c)
    ensures Faithful(v, ps, c) == Faithful(w, ps, c)
    decreases |ps|
  {
    if ps != [] {
      var n := |ps| - 1;
      assert SameFrame(w, v, ps[n]);
      assert UndoAt(v, ps[n], c) == UndoAt(w, ps[n], c);
      SameFor(w, v, ps[..n], if k <= n then k else n, UndoAt(w, ps[n], c));
    }
  }

  /** On a chain this is the walk down the links. */
  lemma {:induction false} ChainUndo(w: Words, t: nat, ps: seq<nat>, k: nat, c: Cells)
    requires IsChain(w, t, ps) && k <= |ps|
    ensures Undo(w, t, ps, k, c) == UndoTo(w, ps, k, c)
    decreases |ps|
  {
    if k < |ps| {
      ChainUndo(w, w[t], ps[..|ps| - 1], k, UndoFrame(w, t, c));
    }
  }

  lemma AgreeAt(w: Words, t: nat, c: Cells, d: Cells, hb: nat, eb: nat)
    requires Agree(c, d, hb, eb)
    ensures Agree(UndoAt(w, t, c), UndoAt(w, t, d), hb, eb)
    ensures Agree(RedoAt(w, t, c), RedoAt(w, t, d), hb, eb)
  {
    if IsFrame(w, t) {
      UndoFrameAgree(w, t, c, d, hb, eb);
      forall a: nat | a < hb || a >= eb ensures Get(RedoAt(w, t, c), a) == Get(RedoAt(w, t, d), a) {
        assert Get(c, a) == Get(d, a);
      }
    }
  }

  lemma {:induction false} UndoToAgree(w: Words, ps: seq<nat>, k: nat, c: Cells, d: Cells, hb: nat, eb: nat)
    requires k <= |ps| && Agree(c, d, hb, eb)
    ensures Agree(UndoTo(w, ps, k, c), UndoTo(w, ps, k, d), hb, eb)
    decreases |ps|
  {
    if k < |ps| {
      var p := ps[|ps| - 1];
      AgreeAt(w, p, c, d, hb, eb);
      UndoToAgree(w, ps[..|ps| - 1], k, UndoAt(w, p, c), UndoAt(w, p, d), hb, eb);
    }
  }

  lemma {:induction false} RedoAgree(w: Words, ps: seq<nat>, f: nat, c: Cells, d: Cells, hb: nat, eb: nat)
    requires f <= |ps| && Agree(c, d, hb, eb)
    ensures Agree(RedoTo(w, ps, f, c), RedoTo(w, ps, f, d), hb, eb)
    decreases |ps|
  {
    if f < |ps| {
      var low := ps[..|ps| - 1];
      RedoAgree(w, low, f, c, d, hb, eb);
      AgreeAt(w, ps[|ps| - 1], RedoTo(w, low, f, c), RedoTo(w, low, f, d), hb, eb);
    }
  }

  /** Undoing in two steps. */
  lemma {:induction false} UndoToSplit(w: Words, ps: seq<nat>, k: nat, m: nat, c: Cells)
    requires k <= m <= |ps|
    ensures UndoTo(w, ps, k, c) == UndoTo(w, ps[..m], k, UndoTo(w, ps, m, c))
    decreases |ps|
  {
    if m == |ps| {
      assert ps[..m] == ps;
    } else {
      assert ps[..|ps| - 1][..m] == ps[..m];
      UndoToSplit(w, ps[..|ps| - 1], k, m, UndoAt(w, ps[|ps| - 1], c));
    }
  }

  lemma {:induction false} FaithfulPrefix(w: Words, ps: seq<nat>, k: nat, c: Cells)
    requires Faithful(w, ps, c) && k <= |ps|
    ensures Faithful(w, ps[..k], UndoTo(w, ps, k, c))
    decreases |ps|
  {
    if k == |ps| {
      assert ps[..k] == ps;
    } else {
      assert ps[..|ps| - 1][..k] == ps[..k];
      FaithfulPrefix(w, ps[..|ps| - 1], k, UndoAt(w, ps[|ps| - 1], c));
    }
  }

  /** Only the cells of the frames matter. */
  lemma {:induction false} FaithfulAgree(w: Words, ps: seq<nat>, c: Cells, d: Cells, hb: nat, eb: nat)
    requires Faithful(w, ps, c) && AllThere(w, ps, hb, eb) && Agree(c, d, hb, eb)
    ensures Faithful(w, ps, d)
    decreases |ps|
  {
    if ps != [] {
      var n := |ps| - 1;
      assert Get(c, AddrOf(w, ps[n])) == Get(d, AddrOf(w, ps[n]));
      AgreeAt(w, ps[n], c, d, hb, eb);
      assert forall i :: 0 <= i < n ==> ps[..n][i] == ps[i];
      FaithfulAgree(w, ps[..n], UndoAt(w, ps[n], c), UndoAt(w, ps[n], d), hb, eb);
    }
  }

  /** Making bindings again after undoing them brings back what there was. */
  lemma {:induction false} RedoUndo(w: Words, ps: seq<nat>, f: nat, c: Cells)
    requires Faithful(w, ps, c) && f <= |ps|
    ensures Agree(RedoTo(w, ps, f, UndoTo(w, ps, f, c)), c, 0, 0)
    decreases |ps|
  {
    if f < |ps| {
      var n, p := |ps| - 1, ps[|ps| - 1];
      var undone := UndoAt(w, p, c);
      RedoUndo(w, ps[..n], f, undone);
      var again := RedoTo(w, ps[..n], f, UndoTo(w, ps[..n], f, undone));
      forall a: nat ensures Get(RedoAt(w, p, again), a) == Get(c, a) {
        assert Get(again, a) == Get(undone, a);
      }
    }
  }

  lemma UndoRedoAt(w: Words, p: nat, y: Cells, s: Cells, hb: nat, eb: nat)
    requires IsFrame(w, p) && There(AddrOf(w, p), hb, eb) && Agree(y, UndoFrame(w, p, s), hb, eb)
    ensures Agree(UndoAt(w, p, RedoAt(w, p, y)), y, 0, 0)
  {
    var a := AddrOf(w, p);
    assert Get(y, a) == Get(UndoFrame(w, p, s), a);
  }

  /** Undoing bindings after making them again gives back what there was, if that agrees, on the
      cells the branch knows, with what undoing the branch had left. */
  lemma {:induction false} UndoRedo(w: Words, ps: seq<nat>, f: nat, k: nat, s: Cells, y: Cells, hb: nat, eb: nat)
    requires f <= k <= |ps| && Faithful(w, ps, s) && AllThere(w, ps, hb, eb)
    requires Agree(y, UndoTo(w, ps, f, s), hb, eb)
    ensures Agree(UndoTo(w, ps, k, RedoTo(w, ps, f, y)), RedoTo(w, ps[..k], f, y), 0, 0)
    decreases |ps|
  {
    if k == |ps| {
      assert ps[..k] == ps;
    } else {
      var n, p := |ps| - 1, ps[|ps| - 1];
      var low, undone := ps[..n], UndoAt(w, p, s);
      assert low[..k] == ps[..k] && forall i :: 0 <= i < n ==> low[i] == ps[i];
      var below := RedoTo(w, low, f, y);
      RedoAgree(w, low, f, y, UndoTo(w, low, f, undone), hb, eb);
      RedoUndo(w, low, f, undone);
      AgreeTrans(below, RedoTo(w, low, f, UndoTo(w, low, f, undone)), undone, hb, eb);
      UndoRedoAt(w, p, below, s, hb, eb);
      UndoToAgree(w, low, k, UndoAt(w, p, RedoAt(w, p, below)), below, 0, 0);
      UndoRedo(w, low, f, k, undone, y, hb, eb);
      AgreeTrans(UndoTo(w, ps, k, RedoTo(w, ps, f, y)), UndoTo(w, low, k, below), RedoTo(w, ps[..k], f, y), 0, 0);
    }
  }

  lemma {:induction false} TidySub(w: Words, ps: seq<nat>, lo: nat, lim: Limits)
    ensures forall p :: p in Tidy(w, ps, lo, lim) ==> p in ps
  {
    if ps != [] {
      TidySub(w, ps[..|ps| - 1], lo, lim);
    }
  }

  /** Undoing does not miss the frames that tidying leaves out, on the frozen cells. */
  lemma {:induction false} TidyUndo(w: Words, ps: seq<nat>, k: nat, lo: nat, lim: Limits, c: Cells, hb: nat, eb: nat)
    requires k <= |ps| && (forall i :: 0 <= i < k ==> ps[i] <= lo) && hb <= lim.hf && lim.ef <= eb
    ensures k <= |Tidy(w, ps, lo, lim)| && Tidy(w, ps, lo, lim)[..k] == ps[..k]
    ensures Agree(UndoTo(w, Tidy(w, ps, lo, lim), k, c), UndoTo(w, ps, k, c), hb, eb)
    decreases |ps|
  {
    if k < |ps| && ps[|ps| - 1] > lo {
      var n, p := |ps| - 1, ps[|ps| - 1];
      var low := Tidy(w, ps[..n], lo, lim);
      assert ps[..n][..k] == ps[..k] && forall i :: 0 <= i < k ==> ps[..n][i] == ps[i];
      if IsFrame(w, p) && !Conditional(AddrOf(w, p), lim) {
        TidyUndo(w, ps[..n], k, lo, lim, c, hb, eb);
        UndoFresh(w, p, c, hb, eb);
        UndoToAgree(w, ps[..n], k, UndoAt(w, p, c), c, hb, eb);
        AgreeTrans(UndoTo(w, low, k, c), UndoTo(w, ps[..n], k, c), UndoTo(w, ps, k, c), hb, eb);
      } else {
        TidyUndo(w, ps[..n], k, lo, lim, UndoAt(w, p, c), hb, eb);
        assert (low + [p])[..|low|] == low;
      }
    }
  }

  /** What the limits tell to be trailed, as one pair of bounds. */
  lemma ConditionalThere(a: nat, lim: Limits)
    ensures Conditional(a, lim) <==> There(a, Max(lim.hb, lim.hf), Min(lim.eb, lim.ef))
  {
  }

  /** The frames of the chain up to lo are about cells that need trailing. */
  ghost predicate LowThere(w: Words, ps: seq<nat>, lo: nat, lim: Limits) {
    forall i {:trigger ps[i]} :: 0 <= i < |ps| && ps[i] <= lo ==>
      IsFrame(w, ps[i]) && There(AddrOf(w, ps[i]), Max(lim.hb, lim.hf), Min(lim.eb, lim.ef))
  }

  /** Then tidying leaves only such frames. */
  lemma {:induction false} TidyThere(w: Words, t: nat, ps: seq<nat>, lo: nat, lim: Limits)
    requires IsChain(w, t, ps) && LowThere(w, ps, lo, lim)
    ensures AllThere(w, Tidy(w, ps, lo, lim), Max(lim.hb, lim.hf), Min(lim.eb, lim.ef))
    decreases |ps|
  {
    if t <= lo {
      ChainTop(w, t, ps);
    } else {
      var n := |ps| - 1;
      assert forall i :: 0 <= i < n ==> ps[..n][i] == ps[i];
      TidyThere(w, w[t], ps[..n], lo, lim);
      ConditionalThere(AddrOf(w, t), lim);
    }
  }

  /** And it keeps the frames faithful. */
  lemma {:induction false} TidyFaithful(w: Words, t: nat, ps: seq<nat>, lo: nat, lim: Limits, c: Cells)
    requires IsChain(w, t, ps) && Faithful(w, ps, c) && LowThere(w, ps, lo, lim)
    ensures Faithful(w, Tidy(w, ps, lo, lim), c)
    decreases |ps|
  {
    if t > lo {
      var n := |ps| - 1;
      var low := Tidy(w, ps[..n], lo, lim);
      assert forall i :: 0 <= i < n ==> ps[..n][i] == ps[i];
      TidyFaithful(w, w[t], ps[..n], lo, lim, UndoAt(w, t, c));
      if Conditional(AddrOf(w, t), lim) {
        assert (low + [t])[..|low|] == low;
      } else {
        TidyThere(w, w[t], ps[..n], lo, lim);
        ConditionalThere(AddrOf(w, t), lim);
        UndoFresh(w, t, c, Max(lim.hb, lim.hf), Min(lim.eb, lim.ef));
        FaithfulAgree(w, low, UndoAt(w, t, c), c, Max(lim.hb, lim.hf), Min(lim.eb, lim.ef));
      }
    }
  }
}
