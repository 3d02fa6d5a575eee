/** The branches of a trail that freezing keeps apart: no frame of one shares a word with a frame of
    another, unless it is the same frame. So any two of them fork, as switching between them needs. */
module TrailBranches {
  import opened TrailFrames
  import opened TrailStack
  import opened TrailBindings
  import opened TrailSwitch

  /** A branch of the computation: its frames, its cells, and its choice points, with how many
      frames there were and what the cells held when each was made. */
  datatype Branch = Branch(frames: seq<nat>, cells: Cells, cps: seq<ChoicePoint>, depth: seq<nat>, snaps: seq<Cells>)

  /** How many words the frame at q has. */
  function FrameWords(w: Words, q: nat): nat {
    if 2 <= q < |w| && Marked(w, q) then 4 else 3
  }

  /** The word p is not inside the frame at q. */
  predicate Outside(w: Words, p: nat, q: nat) {
    p < q ==> p + FrameWords(w, q) <= q
  }

  ghost predicate BothOutside(w: Words, a: seq<nat>, b: seq<nat>) {
    forall p, q {:trigger p in a, q in b} :: p in a && q in b ==> Outside(w, p, q) && Outside(w, q, p)
  }

  /** The branch being worked on, and the branches that have been left and frozen. */
  ghost predicate Woven(w: Words, limit: nat, frames: seq<nat>, left: set<Branch>) {
    && limit < |w| && IsChain(w, Top(frames), frames) && BothOutside(w, frames, frames)
    && (forall b {:trigger b in left} :: b in left ==>
          IsChain(w, Top(b.frames), b.frames) && Top(b.frames) <= limit && BothOutside(w, b.frames, frames))
    && forall a, b {:trigger a in left, b in left} :: a in left && b in left ==> BothOutside(w, a.frames, b.frames)
  }

  /** The words of a frame that lies below `m` are the same. */
  lemma OutsideSame(w: Words, v: Words, m: nat, a: seq<nat>, b: seq<nat>)
    requires BothOutside(w, a, b) && m < |w| && m < |v| && forall i :: 0 <= i <= m ==> v[i] == w[i]
    requires (forall p :: p in a ==> p <= m) && forall q :: q in b ==> q <= m
    ensures BothOutside(v, a, b)
  {
    forall p, q | p in a && q in b ensures Outside(v, p, q) && Outside(v, q, p) {
      assert Outside(w, p, q) && Outside(w, q, p);
      assert FrameWords(v, q) == FrameWords(w, q) && FrameWords(v, p) == FrameWords(w, p);
    }
  }

  lemma ChainBelow(w: Words, b: seq<nat>, m: nat)
    requires IsChain(w, Top(b), b) && Top(b) <= m
    ensures forall p :: p in b ==> 0 < p <= m
  {
    ChainTop(w, Top(b), b);
  }

  lemma LeftOutside(w: Words, v: Words, limit: nat, m: nat, frames: seq<nat>, left: set<Branch>)
    requires Woven(w, limit, frames, left) && limit <= m < |w| && m < |v| && forall i :: 0 <= i <= m ==> v[i] == w[i]
    ensures forall a, b {:trigger a in left, b in left} :: a in left && b in left ==> BothOutside(v, a.frames, b.frames)
  {
    forall a, b | a in left && b in left ensures BothOutside(v, a.frames, b.frames) {
      ChainBelow(w, a.frames, m);
      ChainBelow(w, b.frames, m);
      assert BothOutside(w, a.frames, b.frames);
      OutsideSame(w, v, m, a.frames, b.frames);
    }
  }

  /** A frame pushed above everything. */
  lemma WovenPush(w: Words, v: Words, limit: nat, frames: seq<nat>, left: set<Branch>, p: nat)
    requires Woven(w, limit, frames, left) && |v| >= |w| && IsFrame(v, p) && v[p] == Top(frames)
    requires var m := Max(Top(frames), limit); m < |w| && m + FrameWords(v, p) == p && forall i ::
      0 <= i <= m ==> v[i] == w[i]
    ensures Woven(v, limit, frames + [p], left)
  {
    var m := Max(Top(frames), limit);
    ChainBelow(w, frames, m);
    ChainSame(w, v, Top(frames), frames);
    assert (frames + [p])[..|frames|] == frames;
    OutsideSame(w, v, m, frames, frames);
    PushOutside(v, m, frames, frames, p);
    assert Outside(v, p, p);
    forall b | b in left ensures IsChain(v, Top(b.frames), b.frames) && BothOutside(v, b.frames, frames + [p]) {
      ChainBelow(w, b.frames, m);
      ChainSame(w, v, Top(b.frames), b.frames);
      OutsideSame(w, v, m, b.frames, frames);
      PushOutside(v, m, b.frames, frames, p);
    }
    LeftOutside(w, v, limit, m, frames, left);
    assert BothOutside(v, frames + [p], frames + [p]) by {
      assert BothOutside(v, frames, frames + [p]);
    }
  }

  lemma PushOutside(v: Words, m: nat, a: seq<nat>, b: seq<nat>, p: nat)
    requires BothOutside(v, a, b) && m + FrameWords(v, p) <= p && forall q :: q in a ==> q <= m
    ensures BothOutside(v, a, b + [p])
  {
    forall q, x | q in a && x in b + [p] ensures Outside(v, q, x) && Outside(v, x, q) {
      if x in b {
        assert Outside(v, q, x) && Outside(v, x, q);
      }
    }
  }

  /** Going back to an earlier frame of the branch. */
  lemma WovenBack(w: Words, limit: nat, frames: seq<nat>, left: set<Branch>, k: nat)
    requires Woven(w, limit, frames, left) && k <= |frames|
    ensures Woven(w, limit, frames[..k], left)
  {
    ChainPrefix(w, Top(frames), frames, k);
    assert forall p :: p in frames[..k] ==> p in frames;
  }

  lemma OutsideTurned(w: Words, a: seq<nat>, b: seq<nat>)
    requires BothOutside(w, a, b)
    ensures BothOutside(w, b, a)
  {
    forall p, q | p in b && q in a ensures Outside(w, p, q) && Outside(w, q, p) {
      assert Outside(w, q, p) && Outside(w, p, q);
    }
  }

  /** Freezing: the branch can be left where it had come to, or gone back from to an earlier place. */
  lemma WovenFreeze(w: Words, limit: nat, frames: seq<nat>, left: set<Branch>, more: set<Branch>)
    requires Woven(w, limit, frames, left) && forall b :: b in more ==> b.frames <= frames
    ensures Woven(w, Max(limit, Top(frames)), frames, left + more)
  {
    ChainTop(w, Top(frames), frames);
    forall b | b in more ensures IsChain(w, Top(b.frames), b.frames) && forall p :: p in b.frames ==> p in frames {
      ChainPrefix(w, Top(frames), frames, |b.frames|);
      assert frames[..|b.frames|] == b.frames;
    }
    forall b | b in more ensures Top(b.frames) <= Top(frames) {
      assert b.frames != [] ==> b.frames[|b.frames| - 1] == frames[|b.frames| - 1];
    }
    forall b | b in left ensures BothOutside(w, frames, b.frames) {
      OutsideTurned(w, b.frames, frames);
    }
    forall a, b | a in left + more && b in left + more ensures BothOutside(w, a.frames, b.frames) {
      assert BothOutside(w, a.frames, frames) && BothOutside(w, frames, b.frames);
    }
  }

  /** Going on with a branch that was left. */
  lemma WovenSwitch(w: Words, limit: nat, frames: seq<nat>, left: set<Branch>, b: Branch)
    requires Woven(w, limit, frames, left) && b in left
    ensures Woven(w, limit, b.frames, left)
  {
  }

  /** Freezing less: the branches that reach higher are given up. */
  lemma WovenNarrow(w: Words, limit: nat, low: nat, frames: seq<nat>, left: set<Branch>, fewer: set<Branch>)
    requires Woven(w, limit, frames, left) && low <= limit && fewer <= left
    requires forall b :: b in fewer ==> Top(b.frames) <= low
    ensures Woven(w, low, frames, fewer)
  {
  }

  /** The frames qs of the branch stay, and only their links have changed. */
  lemma WovenTidy(w: Words, v: Words, limit: nat, frames: seq<nat>, left: set<Branch>, qs: seq<nat>)
    requires Woven(w, limit, frames, left) && IsChain(v, Top(qs), qs) && ButLinks(w, v, qs)
    requires (forall p :: p in qs ==> p in frames) && forall i :: 0 <= i <= limit ==> v[i] == w[i]
    ensures Woven(v, limit, qs, left) && forall p :: p in qs ==> SameFrame(w, v, p)
  {
    ChainFrames(w, Top(frames), frames);
    ChainFrames(v, Top(qs), qs);
    forall p | p in qs ensures SameFrame(w, v, p) && FrameWords(v, p) == FrameWords(w, p) {
      TidyWords(w, v, frames, qs, p);
    }
    forall p, q | p in qs && q in qs ensures Outside(v, p, q) && Outside(v, q, p) {
      assert Outside(w, p, q) && Outside(w, q, p);
    }
    forall b | b in left ensures IsChain(v, Top(b.frames), b.frames) && BothOutside(v, b.frames, qs) {
      ChainBelow(w, b.frames, limit);
      ChainSame(w, v, Top(b.frames), b.frames);
      assert BothOutside(w, b.frames, frames);
      forall p, q | p in b.frames && q in qs ensures Outside(v, p, q) && Outside(v, q, p) {
        assert Outside(w, p, q) && Outside(w, q, p) && FrameWords(v, p) == FrameWords(w, p);
      }
    }
    LeftOutside(w, v, limit, limit, frames, left);
  }

  lemma {:induction false} ChainFrames(w: Words, t: nat, ps: seq<nat>)
    requires IsChain(w, t, ps)
    ensures forall p :: p in ps ==> IsFrame(w, p)
  {
    if ps != [] {
      ChainFrames(w, w[t], ps[..|ps| - 1]);
    }
  }

  /** The words of a frame below its link are no links. */
  lemma TidyWords(w: Words, v: Words, frames: seq<nat>, qs: seq<nat>, p: nat)
    requires BothOutside(w, frames, frames) && ButLinks(w, v, qs) && p in qs && IsFrame(w, p) && IsFrame(v, p)
    requires forall q :: q in qs ==> q in frames
    ensures SameFrame(w, v, p) && FrameWords(v, p) == FrameWords(w, p)
  {
    forall q: nat | q in qs ensures q != p - 1 && q != p - 2 && (Marked(w, p) ==> q != p - 3) {
      assert Outside(w, q, p);
    }
    assert v[p - 1] == w[p - 1] && v[p - 2] == w[p - 2];
  }

  /** Two branches that share a frame share everything below it. */
  lemma {:induction false} SharedBelow(w: Words, a: seq<nat>, b: seq<nat>, i: nat, j: nat)
    requires IsChain(w, Top(a), a) && IsChain(w, Top(b), b) && i < |a| && j < |b| && a[i] == b[j]
    ensures a[..i + 1] == b[..j + 1]
    decreases i
  {
    ParentOf(w, a, i);
    ParentOf(w, b, j);
    assert i > 0 ==> a[i - 1] == Top(a[..i]);
    assert j > 0 ==> b[j - 1] == Top(b[..j]);
    if i == 0 || j == 0 {
      ChainTop(w, Top(a), a);
      ChainTop(w, Top(b), b);
    } else {
      SharedBelow(w, a, b, i - 1, j - 1);
      assert a[..i + 1] == a[..i] + [a[i]] && b[..j + 1] == b[..j] + [b[j]];
    }
  }

  lemma ParentOf(w: Words, a: seq<nat>, i: nat)
    requires IsChain(w, Top(a), a) && i < |a|
    ensures a[i] < |w| && w[a[i]] == Top(a[..i])
  {
    ChainPrefix(w, Top(a), a, i + 1);
    assert a[..i + 1][..i] == a[..i];
    ChainTop(w, w[a[i]], a[..i]);
  }

  /** How many frames two branches share. */
  function Shared(a: seq<nat>, b: seq<nat>): (f: nat)
    ensures f <= |a| && f <= |b| && a[..f] == b[..f]
    ensures f < |a| && f < |b| ==> a[f] != b[f]
  {
    if a == [] || b == [] || a[0] != b[0] then 0
    else
      var f := Shared(a[1..], b[1..]) + 1;
      assert a[..f] == [a[0]] + a[1..][..f - 1] && b[..f] == [b[0]] + b[1..][..f - 1];
      f
  }

  lemma SharedEarly(w: Words, a: seq<nat>, b: seq<nat>, i: nat, j: nat)
    requires IsChain(w, Top(a), a) && IsChain(w, Top(b), b) && i < |a| && j < |b| && a[i] == b[j]
    ensures i == j && i < Shared(a, b)
  {
    SharedBelow(w, a, b, i, j);
    assert |a[..i + 1]| == |b[..j + 1]|;
    forall x | 0 <= x <= i ensures a[x] == b[x] {
      assert a[..i + 1][x] == b[..j + 1][x];
    }
  }

  lemma BranchesApart(w: Words, a: seq<nat>, b: seq<nat>, i: nat, k: nat)
    requires IsChain(w, Top(a), a) && IsChain(w, Top(b), b) && BothOutside(w, a, b)
    requires Shared(a, b) < i <= |a| && k <= |b|
    ensures Apart(w, Line(a), Line(b), i, k)
  {
    ChainLine(w, Top(a), a);
    assert Joint(w, Line(a), i);
    if k > 0 {
      assert a[i - 1] in a && b[k - 1] in b && Outside(w, b[k - 1], a[i - 1]);
      if a[i - 1] == b[k - 1] {
        SharedEarly(w, a, b, i - 1, k - 1);
      }
    }
  }

  /** Any two branches that have been kept apart fork where they stop being shared. */
  lemma BranchesFork(w: Words, a: seq<nat>, b: seq<nat>)
    requires IsChain(w, Top(a), a) && IsChain(w, Top(b), b) && BothOutside(w, a, b)
    ensures Fork(w, Line(a), Line(b), Shared(a, b))
  {
    var f := Shared(a, b);
    ChainLine(w, Top(a), a);
    ChainLine(w, Top(b), b);
    assert Line(a)[..f + 1] == [0] + a[..f] && Line(b)[..f + 1] == [0] + b[..f];
    forall i, k | f < i < |Line(a)| && 0 <= k < |Line(b)| ensures Apart(w, Line(a), Line(b), i, k) {
      BranchesApart(w, a, b, i, k);
    }
  }
}
