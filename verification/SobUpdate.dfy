/** Adding clauses to the index blocks of a predicate and deleting them. */
module SobUpdate {
  import opened SobIndex

  const HASH_SIZES: seq<nat> := [17, 389, 6151, 49157, 196613, 393241, 786433, 1572869, 3145739, 6291469, 12582917,
                                 25165843, 50331653, 50331653, 50331653, 50331653]

  const LARGEST: nat := 50331653

  predicate Enough(size: nat, n: nat, same: bool) {
    size > n || (same && size == n)
  }

  /** The least of the table sizes that is larger than n, or at least n if `same`; if there is none, the
      largest. */
  ghost predicate Least(size: nat, n: nat, same: bool) {
    && size in HASH_SIZES && (Enough(size, n, same) || size == LARGEST)
    && forall s {:trigger s in HASH_SIZES} :: s in HASH_SIZES && Enough(s, n, same) ==> size <= s
  }

  lemma SizesSorted(i: nat, j: nat)
    requires i <= j < |HASH_SIZES|
    ensures HASH_SIZES[i] <= HASH_SIZES[j] <= LARGEST
  {
  }

  /** The first of the table sizes from the i-th on that is enough, if those before are not. */
  function SizeFrom(i: nat, n: nat, same: bool): (size: nat)
    requires i < |HASH_SIZES| && forall j :: 0 <= j < i ==> !Enough(HASH_SIZES[j], n, same)
    ensures Least(size, n, same)
    decreases |HASH_SIZES| - i
  {
    if Enough(HASH_SIZES[i], n, same) || i == |HASH_SIZES| - 1 then
      LeastAt(i, n, same);
      HASH_SIZES[i]
    else SizeFrom(i + 1, n, same)
  }

  lemma LeastAt(i: nat, n: nat, same: bool)
    requires i < |HASH_SIZES| && forall j :: 0 <= j < i ==> !Enough(HASH_SIZES[j], n, same)
    requires Enough(HASH_SIZES[i], n, same) || i == |HASH_SIZES| - 1
    ensures Least(HASH_SIZES[i], n, same)
  {
    forall s | s in HASH_SIZES && Enough(s, n, same) ensures HASH_SIZES[i] <= s {
      var j :| 0 <= j < |HASH_SIZES| && HASH_SIZES[j] == s;
      SizesSorted(i, j);
    }
  }

  /** More than three quarters of the buckets are in use. */
  predicate Crowded(s: Sob) {
    s.nonempty > (s.size / 4) * 3
  }

  /** The table size for a clause added next to the block `edge`, if there is one: that block's, or the
      next size if it is crowded, but at least the size asked for. */
  function HashResize(ss: seq<Sob>, edge: nat, oldTabSize: nat): (size: nat)
    requires ss != [] ==> edge < |ss| && ss[edge].size > 0
    ensures size > 0
    ensures ss == [] ==>
      && size in HASH_SIZES && (size >= oldTabSize || size == LARGEST)
      && forall s {:trigger s in HASH_SIZES} :: s in HASH_SIZES && s >= oldTabSize ==> size <= s
    ensures ss != [] ==> size >= oldTabSize && size >= ss[edge].size
    ensures ss != [] && ss[edge].nonempty <= (ss[edge].size / 4) * 3 ==> size == oldTabSize || size == ss[edge].size
    ensures ss != [] && ss[edge].nonempty > (ss[edge].size / 4) * 3 ==> size > ss[edge].size
    ensures ss != [] && ss[edge].nonempty > (ss[edge].size / 4) * 3 && size > oldTabSize ==>
      if ss[edge].size >= LARGEST then size == ss[edge].size + 2
      else size in HASH_SIZES && forall s {:trigger s in HASH_SIZES} ::
        s in HASH_SIZES && s > ss[edge].size ==> size <= s
  {
    if ss == [] then SizeFrom(0, oldTabSize, true) else
      var t := ss[edge].size;
      var t' := if Crowded(ss[edge]) then
                  if t >= HASH_SIZES[|HASH_SIZES| - 1] then t + 2 else SizeFrom(0, t, false)
                else t;
      if t' > oldTabSize then t' else oldTabSize
  }

  function Put<T>(s: seq<T>, x: T, az: int): seq<T> {
    if az == 0 then [x] + s else s + [x]
  }

  function NewSob(size: nat, l: nat, ni: nat): Sob {
    Sob(size, seq(size, _ => []), 0, if l == ni then Clauses([]) else Sobs([]))
  }

  /** The block in which a clause is put at the end `az` of a chain: the one that is there, if its
      table has the right size, or a new one. */
  function Edge(ss: seq<Sob>, az: int): nat {
    if az == 0 || ss == [] then 0 else |ss| - 1
  }

  function TabSize(c: Clause, l: nat, tab: nat): (size: nat)
    requires 0 < l <= |c.keys| && tab > 0
    ensures size > 0
  {
    if c.keys[l - 1].Unbound? then 1 else tab
  }

  /** Adds a clause to a chain at level l. */
  function Add(ch: Chain, l: nat, ni: nat, c: Clause, az: int, tab: nat): Chain
    requires 1 <= l <= ni + 1 && |c.keys| == ni && tab > 0
    decreases ni + 1 - l, 1
  {
    match ch
    case Clauses(cs) => Clauses(Put(cs, c, az))
    case Sobs(ss) =>
      if l == ni + 1 then ch else
      var size := TabSize(c, l, tab);
      if ss == [] || ss[Edge(ss, az)].size != size then
        Sobs(Put(ss, AddToSob(NewSob(size, l, ni), l, ni, c, az, size), az))
      else Sobs(ss[Edge(ss, az) := AddToSob(ss[Edge(ss, az)], l, ni, c, az, size)])
  }

  function AddToSob(s: Sob, l: nat, ni: nat, c: Clause, az: int, tab: nat): Sob
    requires 1 <= l <= ni && |c.keys| == ni && tab > 0
    decreases ni + 1 - l, 0
  {
    if 0 < s.size == |s.buckets| then
      var h := BucketOf(c.keys[l - 1], s.size);
      Sob(s.size, s.buckets[h := Put(s.buckets[h], c, az)], if s.buckets[h] == [] then s.nonempty + 1 else s.nonempty,
          Add(s.below, l + 1, ni, c, az, tab))
    else s
  }

  lemma {:induction false} InBucketConcat(a: seq<Clause>, b: seq<Clause>, l: nat, size: nat, k: nat)
    requires size > 0
    ensures InBucket(a + b, l, size, k) == InBucket(a, l, size, k) + InBucket(b, l, size, k)
  {
    if a == [] {
      assert a + b == b;
    } else {
      assert (a + b)[1..] == a[1..] + b;
      InBucketConcat(a[1..], b, l, size, k);
    }
  }

  lemma InBucketPut(cs: seq<Clause>, c: Clause, az: int, l: nat, size: nat, k: nat)
    requires size > 0 && 0 < l <= |c.keys|
    ensures InBucket(Put(cs, c, az), l, size, k) ==
            if BucketOf(c.keys[l - 1], size) == k then Put(InBucket(cs, l, size, k), c, az)
            else InBucket(cs, l, size, k)
  {
    assert [c][1..] == [];
    assert InBucket([c], l, size, k) == if BucketOf(c.keys[l - 1], size) == k then [c] else [];
    if az == 0 {
      InBucketConcat([c], cs, l, size, k);
    } else {
      InBucketConcat(cs, [c], l, size, k);
    }
  }

  lemma {:induction false} CountUpdate(bs: seq<seq<Clause>>, h: nat, x: seq<Clause>)
    requires h < |bs|
    ensures CountNonempty(bs[h := x]) == CountNonempty(bs) - (if bs[h] == [] then 0 else 1) + (if x == [] then 0 else 1)
  {
    var after := bs[h := x];
    if h == 0 {
      assert after[1..] == bs[1..];
    } else {
      assert after[1..] == bs[1..][h - 1 := x];
      CountUpdate(bs[1..], h - 1, x);
    }
  }

  lemma {:induction false} CountNone(n: nat)
    ensures CountNonempty(seq(n, _ => [])) == 0
  {
    if n > 0 {
      CountNone(n - 1);
      assert seq<seq<Clause>>(n, _ => [])[1..] == seq(n - 1, _ => []);
    }
  }

  /** A block whose table and chain fit each other; it may still be without clauses. */
  ghost predicate Fitting(s: Sob, l: nat, ni: nat) {
    && 0 < s.size == |s.buckets| && s.nonempty == CountNonempty(s.buckets)
    && (forall b :: 0 <= b < s.size ==> s.buckets[b] == InBucket(All(s.below), l, s.size, b))
    && Good(s.below, l + 1, ni)
    && (forall i :: 0 <= i < |All(s.below)| ==> KeyFits(All(s.below)[i], l, s.size))
  }

  lemma NewSobFitting(size: nat, l: nat, ni: nat)
    requires size > 0 && 1 <= l <= ni
    ensures Fitting(NewSob(size, l, ni), l, ni) && All(NewSob(size, l, ni).below) == []
  {
    CountNone(size);
  }

  lemma {:induction false} AllOfConcat(a: seq<Sob>, b: seq<Sob>)
    ensures AllOf(a + b) == AllOf(a) + AllOf(b)
  {
    if a == [] {
      assert a + b == b;
    } else {
      assert (a + b)[1..] == a[1..] + b;
      AllOfConcat(a[1..], b);
    }
  }

  lemma AllOfOne(s: Sob)
    ensures AllOf([s]) == All(s.below)
  {
    assert [s][1..] == [];
  }

  /** What changing the block at an end of the chain does to the clauses. */
  lemma AllOfEdge(ss: seq<Sob>, s: Sob, c: Clause, az: int)
    requires ss != [] && All(s.below) == Put(All(ss[Edge(ss, az)].below), c, az)
    ensures AllOf(ss[Edge(ss, az) := s]) == Put(AllOf(ss), c, az)
  {
    var e := Edge(ss, az);
    AllOfOne(s);
    AllOfOne(ss[e]);
    if az == 0 {
      assert ss[e := s] == [s] + ss[1..] && ss == [ss[0]] + ss[1..];
      AllOfConcat([s], ss[1..]);
    } else {
      assert ss[e := s] == ss[..e] + [s] && ss == ss[..e] + [ss[e]];
      AllOfConcat(ss[..e], [s]);
      AllOfConcat(ss[..e], [ss[e]]);
    }
  }

  lemma AllOfPut(ss: seq<Sob>, s: Sob, c: Clause, az: int)
    requires All(s.below) == [c]
    ensures AllOf(Put(ss, s, az)) == Put(AllOf(ss), c, az)
  {
    AllOfOne(s);
    AllOfConcat(ss, [s]);
    AllOfConcat([s], ss);
  }

  /** Adding a clause keeps every block in order, and puts the clause at the end asked for. */
  lemma {:induction false} AddGood(ch: Chain, l: nat, ni: nat, c: Clause, az: int, tab: nat)
    requires Good(ch, l, ni) && 1 <= l <= ni + 1 && |c.keys| == ni && tab > 0
    ensures Good(Add(ch, l, ni, c, az, tab), l, ni)
    ensures All(Add(ch, l, ni, c, az, tab)) == Put(All(ch), c, az)
    decreases ni + 1 - l, 1
  {
    match ch
    case Clauses(cs) =>
    case Sobs(ss) =>
      var size, e := TabSize(c, l, tab), Edge(ss, az);
      if ss == [] || ss[e].size != size {
        NewSobFitting(size, l, ni);
        AddSobGood(NewSob(size, l, ni), l, ni, c, az, size);
        var s := AddToSob(NewSob(size, l, ni), l, ni, c, az, size);
        AllOfPut(ss, s, c, az);
        assert forall i :: 0 <= i < |ss| ==> GoodSob(ss[i], l, ni);
      } else {
        assert GoodSob(ss[e], l, ni);
        AddSobGood(ss[e], l, ni, c, az, size);
        AllOfEdge(ss, AddToSob(ss[e], l, ni, c, az, size), c, az);
      }
  }

  lemma {:induction false} AddSobGood(s: Sob, l: nat, ni: nat, c: Clause, az: int, tab: nat)
    requires Fitting(s, l, ni) && 1 <= l <= ni && |c.keys| == ni && tab > 0
    requires (c.keys[l - 1].Unbound? ==> s.size == 1)
    ensures GoodSob(AddToSob(s, l, ni, c, az, tab), l, ni)
    ensures All(AddToSob(s, l, ni, c, az, tab).below) == Put(All(s.below), c, az)
    decreases ni + 1 - l, 0
  {
    var h := BucketOf(c.keys[l - 1], s.size);
    AddGood(s.below, l + 1, ni, c, az, tab);
    CountUpdate(s.buckets, h, Put(s.buckets[h], c, az));
    var s' := AddToSob(s, l, ni, c, az, tab);
    forall b | 0 <= b < s.size ensures s'.buckets[b] == InBucket(All(s'.below), l, s.size, b) {
      InBucketPut(All(s.below), c, az, l, s.size, b);
    }
  }

  predicate HasId(cs: seq<Clause>, id: nat) {
    exists i :: 0 <= i < |cs| && cs[i].id == id
  }

  function WithoutId(cs: seq<Clause>, id: nat): seq<Clause> {
    if cs == [] then []
    else if cs[0].id == id then WithoutId(cs[1..], id)
    else [cs[0]] + WithoutId(cs[1..], id)
  }

  /** Deletes a clause from a chain at level l; a block left without clauses goes too. */
  function Delete(ch: Chain, l: nat, c: Clause): Chain
    decreases ch, 0
  {
    match ch
    case Clauses(cs) => Clauses(WithoutId(cs, c.id))
    case Sobs(ss) => Sobs(DeleteOf(ss, l, c))
  }

  function DeleteOf(ss: seq<Sob>, l: nat, c: Clause): seq<Sob>
    decreases ss, 2
  {
    if ss == [] then [] else
      var s := DeleteFromSob(ss[0], l, c);
      (if s.nonempty == 0 then [] else [s]) + DeleteOf(ss[1..], l, c)
  }

  function DeleteFromSob(s: Sob, l: nat, c: Clause): Sob
    decreases s, 1
  {
    if 0 < s.size == |s.buckets| && 0 < l <= |c.keys| && HasId(s.buckets[BucketOf(c.keys[l - 1], s.size)], c.id) then
      var h := BucketOf(c.keys[l - 1], s.size);
      var bucket := WithoutId(s.buckets[h], c.id);
      Sob(s.size, s.buckets[h := bucket], if bucket == [] && s.nonempty > 0 then s.nonempty - 1 else s.nonempty,
          Delete(s.below, l + 1, c))
    else s
  }

  /** The clause with this number, if there is one, is c. */
  ghost predicate Only(cs: seq<Clause>, c: Clause) {
    forall i :: 0 <= i < |cs| && cs[i].id == c.id ==> cs[i] == c
  }

  lemma {:induction false} WithoutIdConcat(a: seq<Clause>, b: seq<Clause>, id: nat)
    ensures WithoutId(a + b, id) == WithoutId(a, id) + WithoutId(b, id)
  {
    if a == [] {
      assert a + b == b;
    } else {
      assert (a + b)[1..] == a[1..] + b;
      WithoutIdConcat(a[1..], b, id);
    }
  }

  lemma {:induction false} WithoutNone(cs: seq<Clause>, id: nat)
    requires !HasId(cs, id)
    ensures WithoutId(cs, id) == cs
  {
    if cs != [] {
      assert forall i :: 0 <= i < |cs| - 1 ==> cs[1..][i] == cs[i + 1];
      WithoutNone(cs[1..], id);
    }
  }

  lemma {:induction false} WithoutIdIn(cs: seq<Clause>, id: nat, i: nat)
    requires i < |WithoutId(cs, id)|
    ensures exists j :: 0 <= j < |cs| && cs[j] == WithoutId(cs, id)[i]
  {
    if cs[0].id == id {
      WithoutIdIn(cs[1..], id, i);
      var j :| 0 <= j < |cs[1..]| && cs[1..][j] == WithoutId(cs, id)[i];
      assert cs[j + 1] == WithoutId(cs, id)[i];
    } else if i > 0 {
      WithoutIdIn(cs[1..], id, i - 1);
      var j :| 0 <= j < |cs[1..]| && cs[1..][j] == WithoutId(cs, id)[i];
      assert cs[j + 1] == WithoutId(cs, id)[i];
    }
  }

  /** Deleting commutes with sorting by hash. */
  lemma {:induction false} InBucketWithout(cs: seq<Clause>, id: nat, l: nat, size: nat, b: nat)
    requires size > 0
    ensures InBucket(WithoutId(cs, id), l, size, b) == WithoutId(InBucket(cs, l, size, b), id)
  {
    if cs != [] {
      InBucketWithout(cs[1..], id, l, size, b);
      if cs[0].id != id {
        assert ([cs[0]] + WithoutId(cs[1..], id))[1..] == WithoutId(cs[1..], id);
      }
      if l - 1 < |cs[0].keys| && l > 0 && BucketOf(cs[0].keys[l - 1], size) == b {
        assert ([cs[0]] + InBucket(cs[1..], l, size, b))[1..] == InBucket(cs[1..], l, size, b);
      }
    }
  }

  /** Whether the clause is below a block shows in its bucket, and in no other. */
  lemma {:induction false} InOneBucket(cs: seq<Clause>, c: Clause, l: nat, size: nat, b: nat)
    requires Only(cs, c) && size > 0 && 0 < l <= |c.keys|
    ensures HasId(InBucket(cs, l, size, b), c.id) <==> HasId(cs, c.id) && b == BucketOf(c.keys[l - 1], size)
  {
    if cs != [] {
      assert forall i :: 0 <= i < |cs| - 1 ==> cs[1..][i] == cs[i + 1];
      InOneBucket(cs[1..], c, l, size, b);
      assert HasId(cs, c.id) <==> cs[0].id == c.id || HasId(cs[1..], c.id) by {
        if cs[0].id != c.id && HasId(cs, c.id) {
          var i :| 0 <= i < |cs| && cs[i].id == c.id;
          assert cs[1..][i - 1].id == c.id;
        }
      }
      var rest := InBucket(cs[1..], l, size, b);
      if l - 1 < |cs[0].keys| && BucketOf(cs[0].keys[l - 1], size) == b {
        var all := [cs[0]] + rest;
        assert all[0] == cs[0] && forall i :: 0 <= i < |rest| ==> all[i + 1] == rest[i];
        assert HasId(all, c.id) <==> cs[0].id == c.id || HasId(rest, c.id);
      }
    }
  }

  lemma {:induction false} CountSome(bs: seq<seq<Clause>>, b: nat)
    requires b < |bs| && bs[b] != []
    ensures CountNonempty(bs) > 0
  {
    if b > 0 {
      CountSome(bs[1..], b - 1);
    }
  }

  lemma {:induction false} CountZero(bs: seq<seq<Clause>>)
    requires forall b :: 0 <= b < |bs| ==> bs[b] == []
    ensures CountNonempty(bs) == 0
  {
    if bs != [] {
      CountZero(bs[1..]);
    }
  }

  /** No bucket has clauses exactly when there are none below the block. */
  lemma NonemptyIff(s: Sob, l: nat, ni: nat)
    requires Fitting(s, l, ni)
    ensures s.nonempty == 0 <==> All(s.below) == []
  {
    var cs := All(s.below);
    if cs == [] {
      CountZero(s.buckets);
    } else {
      assert KeyFits(cs[0], l, s.size);
      CountSome(s.buckets, BucketOf(cs[0].keys[l - 1], s.size));
    }
  }

  lemma DeleteFits(cs: seq<Clause>, id: nat, l: nat, size: nat)
    requires forall i :: 0 <= i < |cs| ==> KeyFits(cs[i], l, size)
    ensures forall i :: 0 <= i < |WithoutId(cs, id)| ==> KeyFits(WithoutId(cs, id)[i], l, size)
  {
    forall i | 0 <= i < |WithoutId(cs, id)| ensures KeyFits(WithoutId(cs, id)[i], l, size) {
      WithoutIdIn(cs, id, i);
    }
  }

  /** Deleting a clause keeps every block in order, and leaves the other clauses as they were. */
  lemma {:induction false} DeleteGood(ch: Chain, l: nat, ni: nat, c: Clause)
    requires Good(ch, l, ni) && |c.keys| == ni && Only(All(ch), c)
    ensures Good(Delete(ch, l, c), l, ni) && All(Delete(ch, l, c)) == WithoutId(All(ch), c.id)
    decreases ch, 0
  {
    match ch
    case Clauses(cs) =>
      forall i | 0 <= i < |WithoutId(cs, c.id)| ensures |WithoutId(cs, c.id)[i].keys| == ni {
        WithoutIdIn(cs, c.id, i);
      }
    case Sobs(ss) =>
      assert forall i :: 0 <= i < |ss| ==> GoodSob(ss[i], l, ni);
      DeleteOfGood(ss, l, ni, c);
  }

  lemma {:induction false} DeleteOfGood(ss: seq<Sob>, l: nat, ni: nat, c: Clause)
    requires 1 <= l <= ni && (forall i :: 0 <= i < |ss| ==> GoodSob(ss[i], l, ni)) && |c.keys| == ni
    requires Only(AllOf(ss), c)
    ensures forall i :: 0 <= i < |DeleteOf(ss, l, c)| ==> GoodSob(DeleteOf(ss, l, c)[i], l, ni)
    ensures AllOf(DeleteOf(ss, l, c)) == WithoutId(AllOf(ss), c.id)
    decreases ss, 2
  {
    if ss != [] {
      var s, rest := ss[0], ss[1..];
      assert GoodSob(s, l, ni);
      assert forall i :: 0 <= i < |rest| ==> rest[i] == ss[i + 1];
      OnlyParts(All(s.below), AllOf(rest), c);
      DeleteOfGood(rest, l, ni, c);
      DeleteSobGood(s, l, ni, c);
      WithoutIdConcat(All(s.below), AllOf(rest), c.id);
      KeepNonempty(DeleteFromSob(s, l, c), DeleteOf(rest, l, c), l, ni);
    }
  }

  /** A block left without clauses can be left out of its chain. */
  lemma KeepNonempty(s: Sob, rest: seq<Sob>, l: nat, ni: nat)
    requires Fitting(s, l, ni) && forall i :: 0 <= i < |rest| ==> GoodSob(rest[i], l, ni)
    ensures var ss := (if s.nonempty == 0 then [] else [s]) + rest;
      (forall i :: 0 <= i < |ss| ==> GoodSob(ss[i], l, ni)) && AllOf(ss) == All(s.below) + AllOf(rest)
  {
    NonemptyIff(s, l, ni);
    if s.nonempty == 0 {
      assert [] + rest == rest;
    } else {
      var ss := [s] + rest;
      assert ss[1..] == rest && forall i :: 0 < i < |ss| ==> ss[i] == rest[i - 1];
    }
  }

  lemma OnlyParts(a: seq<Clause>, b: seq<Clause>, c: Clause)
    requires Only(a + b, c)
    ensures Only(a, c) && Only(b, c)
  {
    assert forall i :: 0 <= i < |a| ==> (a + b)[i] == a[i];
    assert forall i :: 0 <= i < |b| ==> (a + b)[|a| + i] == b[i];
  }

  lemma {:induction false} DeleteSobGood(s: Sob, l: nat, ni: nat, c: Clause)
    requires GoodSob(s, l, ni) && 1 <= l <= ni && |c.keys| == ni && Only(All(s.below), c)
    ensures Fitting(DeleteFromSob(s, l, c), l, ni)
    ensures All(DeleteFromSob(s, l, c).below) == WithoutId(All(s.below), c.id)
    decreases s, 1
  {
    var h := BucketOf(c.keys[l - 1], s.size);
    var all := All(s.below);
    InOneBucket(all, c, l, s.size, h);
    if HasId(s.buckets[h], c.id) {
      var s' := DeleteFromSob(s, l, c);
      DeleteGood(s.below, l + 1, ni, c);
      CountSome(s.buckets, h);
      CountUpdate(s.buckets, h, WithoutId(s.buckets[h], c.id));
      DeleteFits(all, c.id, l, s.size);
      forall b | 0 <= b < s.size ensures s'.buckets[b] == InBucket(All(s'.below), l, s.size, b) {
        InBucketWithout(all, c.id, l, s.size, b);
        InOneBucket(all, c, l, s.size, b);
        if b != h {
          WithoutNone(s.buckets[b], c.id);
        }
      }
    } else {
      WithoutNone(all, c.id);
    }
  }
}
