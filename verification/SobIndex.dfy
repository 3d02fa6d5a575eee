/** Indexed dynamic clauses: index blocks nested one level per index, and the enumeration of the
    clauses that may match a goal. */
module SobIndex {
  import opened Sequences

  /** What an indexed argument hashes by: nothing if it is unbound, or else a number that may
      depend on the size of the table. */
  datatype Key = Unbound | Bound(code: nat -> nat)

  /** A clause, with the keys of its indexed arguments. */
  datatype Clause = Clause(id: nat, keys: seq<Key>)

  /** A chain of index blocks, or below the last index a chain of clauses. */
  datatype Chain = Sobs(sobs: seq<Sob>) | Clauses(cls: seq<Clause>)

  /** An index block: a hash table of the clauses below it, and the chain of what is below it. */
  datatype Sob = Sob(size: nat, buckets: seq<seq<Clause>>, nonempty: nat, below: Chain)

  function BucketOf(k: Key, size: nat): (b: nat)
    requires size > 0
    ensures b < size
  {
    match k
    case Unbound => 0
    case Bound(code) => code(size) % size
  }

  /** The clauses of a chain, in the order in which they are tried. */
  function All(ch: Chain): seq<Clause>
    decreases ch, 0
  {
    match ch
    case Clauses(cs) => cs
    case Sobs(ss) => AllOf(ss)
  }

  function AllOf(ss: seq<Sob>): seq<Clause>
    decreases ss, 1
  {
    if ss == [] then [] else All(ss[0].below) + AllOf(ss[1..])
  }

  /** The clauses whose key at the level hashes to b. */
  function InBucket(cs: seq<Clause>, l: nat, size: nat, b: nat): seq<Clause>
    requires size > 0
  {
    if cs == [] then []
    else if l - 1 < |cs[0].keys| && l > 0 && BucketOf(cs[0].keys[l - 1], size) == b then
      [cs[0]] + InBucket(cs[1..], l, size, b)
    else InBucket(cs[1..], l, size, b)
  }

  function CountNonempty(buckets: seq<seq<Clause>>): (n: nat)
    ensures n <= |buckets|
  {
    if buckets == [] then 0 else (if buckets[0] == [] then 0 else 1) + CountNonempty(buckets[1..])
  }

  /** A chain at level l of ni: every block's buckets are its clauses, sorted by hash and otherwise
      in order, and none is without clauses. */
  ghost predicate Good(ch: Chain, l: nat, ni: nat)
    decreases ch, 0
  {
    match ch
    case Clauses(cs) => l == ni + 1 && forall i :: 0 <= i < |cs| ==> |cs[i].keys| == ni
    case Sobs(ss) => 1 <= l <= ni && forall i :: 0 <= i < |ss| ==> GoodSob(ss[i], l, ni)
  }

  ghost predicate GoodSob(s: Sob, l: nat, ni: nat)
    decreases s, 1
  {
    && 0 < s.size == |s.buckets| && s.nonempty == CountNonempty(s.buckets)
    && (forall b :: 0 <= b < s.size ==> s.buckets[b] == InBucket(All(s.below), l, s.size, b))
    && All(s.below) != [] && Good(s.below, l + 1, ni)
    && (forall i :: 0 <= i < |All(s.below)| ==> KeyFits(All(s.below)[i], l, s.size))
  }

  /** A clause with an unbound argument is only in a table of size 1. */
  predicate KeyFits(c: Clause, l: nat, size: nat) {
    0 < l <= |c.keys| && (c.keys[l - 1].Unbound? ==> size == 1)
  }

  /** The bucket of a block that a goal with this key looks at. */
  function Hits(s: Sob, key: Key): seq<Clause> {
    if 0 < s.size == |s.buckets| then s.buckets[BucketOf(key, s.size)] else []
  }

  /** What a goal that uses the index of level il tries in a chain at level l; with il = 0 it uses
      none. */
  function Visit(ch: Chain, l: nat, il: nat, key: Key): seq<Clause>
    decreases ch, 0
  {
    match ch
    case Clauses(cs) => cs
    case Sobs(ss) => VisitOf(ss, l, il, key)
  }

  function VisitOf(ss: seq<Sob>, l: nat, il: nat, key: Key): seq<Clause>
    decreases ss, 2
  {
    if ss == [] then [] else VisitSob(ss[0], l, il, key) + VisitOf(ss[1..], l, il, key)
  }

  function VisitSob(s: Sob, l: nat, il: nat, key: Key): seq<Clause>
    decreases s, 1
  {
    if l == il then Hits(s, key) else Visit(s.below, l + 1, il, key)
  }

  /** The block a path of positions leads to. */
  predicate IsPath(ss: seq<Sob>, path: seq<nat>)
    decreases path
  {
    && path != [] && path[0] < |ss|
    && (|path| > 1 ==> ss[path[0]].below.Sobs? && IsPath(ss[path[0]].below.sobs, path[1..]))
  }

  function At(ss: seq<Sob>, path: seq<nat>): Sob
    requires IsPath(ss, path)
    decreases path
  {
    if |path| == 1 then ss[path[0]] else At(ss[path[0]].below.sobs, path[1..])
  }

  /** The chain the last position of the path is in. */
  function Siblings(ss: seq<Sob>, path: seq<nat>): seq<Sob>
    requires IsPath(ss, path)
    decreases path
  {
    if |path| == 1 then ss else Siblings(ss[path[0]].below.sobs, path[1..])
  }

  /** What is tried after the block the path leads to. */
  function After(ss: seq<Sob>, l: nat, path: seq<nat>, il: nat, key: Key): seq<Clause>
    requires IsPath(ss, path)
    decreases path
  {
    (if |path| == 1 then [] else After(ss[path[0]].below.sobs, l + 1, path[1..], il, key))
    + VisitOf(ss[path[0] + 1..], l, il, key)
  }

  /** What is tried in the block the path leads to, and after it. */
  function Onward(ss: seq<Sob>, l: nat, path: seq<nat>, il: nat, key: Key): seq<Clause>
    requires IsPath(ss, path)
  {
    VisitSob(At(ss, path), l + |path| - 1, il, key) + After(ss, l, path, il, key)
  }

  /** The number of blocks in a chain, and of those in and after the one a path leads to. */
  function Weight(ss: seq<Sob>): nat {
    if ss == [] then 0 else SobWeight(ss[0]) + Weight(ss[1..])
  }

  function SobWeight(s: Sob): nat {
    1 + if s.below.Sobs? then Weight(s.below.sobs) else 0
  }

  function WeightAfter(ss: seq<Sob>, path: seq<nat>): nat
    requires IsPath(ss, path)
    decreases path
  {
    (if |path| == 1 then 0 else WeightAfter(ss[path[0]].below.sobs, path[1..])) + Weight(ss[path[0] + 1..])
  }

  /** The path to the block after, in the same chain. */
  function Next(path: seq<nat>): seq<nat>
    requires path != []
  {
    path[..|path| - 1] + [path[|path| - 1] + 1]
  }

  lemma {:induction false} NextPath(ss: seq<Sob>, path: seq<nat>)
    requires IsPath(ss, path) && path[|path| - 1] + 1 < |Siblings(ss, path)|
    ensures IsPath(ss, Next(path)) && Siblings(ss, Next(path)) == Siblings(ss, path)
    ensures At(ss, path) == Siblings(ss, path)[path[|path| - 1]]
    ensures At(ss, Next(path)) == Siblings(ss, path)[path[|path| - 1] + 1]
    ensures WeightAfter(ss, path) == SobWeight(At(ss, Next(path))) + WeightAfter(ss, Next(path))
  {
    var next := Next(path);
    if |path| == 1 {
      var i := path[0] + 1;
      assert next == [i] && ss[i..][0] == ss[i] && ss[i..][1..] == ss[i + 1..];
    } else {
      assert next[1..] == Next(path[1..]) && next[0] == path[0];
      NextPath(ss[path[0]].below.sobs, path[1..]);
    }
  }

  lemma NextTop(ss: seq<Sob>, l: nat, i: nat, il: nat, key: Key)
    requires i + 1 < |ss|
    ensures After(ss, l, [i], il, key) == Onward(ss, l, [i + 1], il, key)
  {
    assert ss[i + 1..][0] == ss[i + 1] && ss[i + 1..][1..] == ss[i + 2..];
  }

  lemma {:induction false} StepNext(ss: seq<Sob>, l: nat, path: seq<nat>, il: nat, key: Key)
    requires IsPath(ss, path) && path[|path| - 1] + 1 < |Siblings(ss, path)|
    requires IsPath(ss, Next(path))
    ensures After(ss, l, path, il, key) == Onward(ss, l, Next(path), il, key)
  {
    var next := Next(path);
    if |path| == 1 {
      assert path == [path[0]] && next == [path[0] + 1];
      NextTop(ss, l, path[0], il, key);
    } else {
      assert next[1..] == Next(path[1..]) && next[0] == path[0];
      var below := ss[path[0]].below.sobs;
      StepNext(below, l + 1, path[1..], il, key);
      ConcatAssoc(VisitSob(At(below, next[1..]), l + |path| - 1, il, key), After(below, l + 1, next[1..], il, key),
                  VisitOf(ss[path[0] + 1..], l, il, key));
    }
  }

  lemma {:induction false} UpPath(ss: seq<Sob>, path: seq<nat>)
    requires IsPath(ss, path) && |path| > 1
    ensures IsPath(ss, path[..|path| - 1])
    ensures At(ss, path[..|path| - 1]).below == Sobs(Siblings(ss, path))
    ensures path[|path| - 1] + 1 == |Siblings(ss, path)| ==>
      WeightAfter(ss, path) == WeightAfter(ss, path[..|path| - 1])
  {
    var below := ss[path[0]].below.sobs;
    if |path| == 2 {
      assert path[..1] == [path[0]];
      if path[1] + 1 == |below| {
        assert below[path[1] + 1..] == [];
      }
    } else {
      UpPath(below, path[1..]);
      assert path[..|path| - 1][1..] == path[1..][..|path| - 2];
    }
  }

  lemma UpTop(ss: seq<Sob>, l: nat, i: nat, j: nat, il: nat, key: Key)
    requires i < |ss| && ss[i].below.Sobs? && j + 1 == |ss[i].below.sobs|
    ensures After(ss, l, [i, j], il, key) == After(ss, l, [i], il, key)
  {
    var below := ss[i].below.sobs;
    assert [i, j][1..] == [j] && below[j + 1..] == [];
    assert After(below, l + 1, [j], il, key) == [];
  }

  lemma {:induction false} StepUp(ss: seq<Sob>, l: nat, path: seq<nat>, il: nat, key: Key)
    requires IsPath(ss, path) && path[|path| - 1] + 1 == |Siblings(ss, path)|
    requires |path| > 1 ==> IsPath(ss, path[..|path| - 1])
    ensures After(ss, l, path, il, key) == if |path| == 1 then [] else After(ss, l, path[..|path| - 1], il, key)
  {
    if |path| == 1 {
      assert ss[path[0] + 1..] == [];
    } else if |path| == 2 {
      assert path == [path[0], path[1]] && path[..1] == [path[0]];
      UpTop(ss, l, path[0], path[1], il, key);
    } else {
      assert path[..|path| - 1][1..] == path[1..][..|path| - 2];
      StepUp(ss[path[0]].below.sobs, l + 1, path[1..], il, key);
    }
  }

  lemma {:induction false} DownPath(ss: seq<Sob>, path: seq<nat>)
    requires IsPath(ss, path) && At(ss, path).below.Sobs? && At(ss, path).below.sobs != []
    ensures IsPath(ss, path + [0]) && At(ss, path + [0]) == At(ss, path).below.sobs[0]
    ensures SobWeight(At(ss, path)) + WeightAfter(ss, path) ==
      1 + SobWeight(At(ss, path + [0])) + WeightAfter(ss, path + [0])
  {
    if |path| == 1 {
      var below := ss[path[0]].below.sobs;
      assert (path + [0])[1..] == [0] && below[0 + 1..] == below[1..];
    } else {
      assert (path + [0])[1..] == path[1..] + [0];
      DownPath(ss[path[0]].below.sobs, path[1..]);
    }
  }

  lemma OnwardTop(ss: seq<Sob>, l: nat, i: nat, il: nat, key: Key)
    requires i < |ss| && ss[i].below.Sobs? && ss[i].below.sobs != [] && l != il
    ensures IsPath(ss, [i])
    ensures Onward(ss, l, [i], il, key) == VisitOf(ss[i].below.sobs, l + 1, il, key) + VisitOf(ss[i + 1..], l, il, key)
  {
    assert After(ss, l, [i], il, key) == VisitOf(ss[i + 1..], l, il, key);
    assert ss[i].below == Sobs(ss[i].below.sobs);
    assert VisitSob(ss[i], l, il, key) == VisitOf(ss[i].below.sobs, l + 1, il, key);
  }

  lemma OnwardSecond(ss: seq<Sob>, l: nat, i: nat, il: nat, key: Key)
    requires i < |ss| && ss[i].below.Sobs? && ss[i].below.sobs != []
    ensures IsPath(ss, [i, 0])
    ensures Onward(ss, l, [i, 0], il, key) ==
            VisitSob(ss[i].below.sobs[0], l + 1, il, key) + (VisitOf(ss[i].below.sobs[1..], l + 1, il,
              key) + VisitOf(ss[i + 1..], l, il, key))
  {
    var below := ss[i].below.sobs;
    assert [i, 0][1..] == [0];
    assert At(below, [0]) == below[0];
    assert After(below, l + 1, [0], il, key) == VisitOf(below[1..], l + 1, il, key);
  }

  lemma StepInto(ss: seq<Sob>, l: nat, i: nat, il: nat, key: Key)
    requires i < |ss| && ss[i].below.Sobs? && ss[i].below.sobs != [] && l != il
    requires IsPath(ss, [i, 0])
    ensures Onward(ss, l, [i], il, key) == Onward(ss, l, [i, 0], il, key)
  {
    var below := ss[i].below.sobs;
    OnwardTop(ss, l, i, il, key);
    OnwardSecond(ss, l, i, il, key);
    ConcatAssoc(VisitSob(below[0], l + 1, il, key), VisitOf(below[1..], l + 1, il, key), VisitOf(ss[i + 1..], l, il,
      key));
  }

  lemma {:induction false} StepDown(ss: seq<Sob>, l: nat, path: seq<nat>, il: nat, key: Key)
    requires IsPath(ss, path) && At(ss, path).below.Sobs? && At(ss, path).below.sobs != []
    requires l + |path| - 1 != il
    requires IsPath(ss, path + [0])
    ensures Onward(ss, l, path, il, key) == Onward(ss, l, path + [0], il, key)
  {
    if |path| == 1 {
      assert path == [path[0]] && path + [0] == [path[0], 0];
      StepInto(ss, l, path[0], il, key);
    } else {
      var below := ss[path[0]].below.sobs;
      var rest := VisitOf(ss[path[0] + 1..], l, il, key);
      assert (path + [0])[1..] == path[1..] + [0];
      StepDown(below, l + 1, path[1..], il, key);
      ConcatAssoc(VisitSob(At(ss, path), l + |path| - 1, il, key), After(below, l + 1, path[1..], il, key), rest);
      ConcatAssoc(VisitSob(At(ss, path + [0]), l + |path|, il, key), After(below, l + 1, path[1..] + [0], il, key),
        rest);
    }
  }
}
