/** The sizes of the tables that the clauses of a predicate are hashed in, as clauses come and go. */
module TableSizes {
  import opened SobIndex
  import opened SobUpdate
  import opened LookupExact

  /** The size of the table a clause is to be put in at level il, when it is added to a chain at level l
      with tables of size `tab` asked for: 1 as soon as one of its keys is unbound. */
  function SizeFor(c: Clause, l: nat, il: nat, tab: nat): nat
    requires 1 <= l && il <= |c.keys|
  {
    if forall i {:trigger c.keys[i]} :: l - 1 <= i < il ==> c.keys[i].Bound? then tab else 1
  }

  lemma {:induction false} HashedConcat(a: seq<Sob>, b: seq<Sob>, l: nat, il: nat)
    ensures AllHashed(a + b, l, il) == AllHashed(a, l, il) + AllHashed(b, l, il)
  {
    if a == [] {
      assert a + b == b;
    } else {
      assert (a + b)[1..] == a[1..] + b;
      HashedConcat(a[1..], b, l, il);
    }
  }

  /** The clauses of one block. */
  function BlockHashed(s: Sob, l: nat, il: nat): seq<Hashed> {
    if l == il then HashedIn(All(s.below), s.size)
    else if s.below.Sobs? then AllHashed(s.below.sobs, l + 1, il) else []
  }

  lemma HashedOne(s: Sob, l: nat, il: nat)
    ensures AllHashed([s], l, il) == BlockHashed(s, l, il)
  {
    assert [s][1..] == [];
  }

  lemma {:induction false} HashedInPut(cs: seq<Clause>, c: Clause, az: int, size: nat)
    ensures HashedIn(Put(cs, c, az), size) == Put(HashedIn(cs, size), Hashed(c, size), az)
  {
    if az == 0 {
      assert Put(cs, c, az)[1..] == cs;
    } else if cs == [] {
      assert [c][1..] == [];
    } else {
      assert (cs + [c])[1..] == cs[1..] + [c];
      HashedInPut(cs[1..], c, az, size);
    }
  }

  /** A change of the block at an end of the chain. */
  lemma HashedEdge(ss: seq<Sob>, s: Sob, x: Hashed, az: int, l: nat, il: nat)
    requires ss != [] && BlockHashed(s, l, il) == Put(BlockHashed(ss[Edge(ss, az)], l, il), x, az)
    ensures AllHashed(ss[Edge(ss, az) := s], l, il) == Put(AllHashed(ss, l, il), x, az)
  {
    var e := Edge(ss, az);
    HashedOne(s, l, il);
    HashedOne(ss[e], l, il);
    if az == 0 {
      assert ss[e := s] == [s] + ss[1..] && ss == [ss[0]] + ss[1..];
      HashedConcat([s], ss[1..], l, il);
    } else {
      assert ss[e := s] == ss[..e] + [s] && ss == ss[..e] + [ss[e]];
      HashedConcat(ss[..e], [s], l, il);
      HashedConcat(ss[..e], [ss[e]], l, il);
    }
  }

  lemma HashedPut(ss: seq<Sob>, s: Sob, x: Hashed, az: int, l: nat, il: nat)
    requires BlockHashed(s, l, il) == [x]
    ensures AllHashed(Put(ss, s, az), l, il) == Put(AllHashed(ss, l, il), x, az)
  {
    HashedOne(s, l, il);
    HashedConcat(ss, [s], l, il);
    HashedConcat([s], ss, l, il);
  }

  /** Adding a clause puts it in tables of the sizes asked for, or of size 1 from its first unbound key
      on; every other clause stays in a table of the same size. */
  lemma {:induction false} AddHashed(ss: seq<Sob>, l: nat, ni: nat, c: Clause, az: int, tab: nat, il: nat)
    requires Good(Sobs(ss), l, ni) && l <= il <= ni && |c.keys| == ni && tab > 0
    ensures Add(Sobs(ss), l, ni, c, az, tab).Sobs?
    ensures AllHashed(Add(Sobs(ss), l, ni, c, az, tab).sobs, l, il) ==
      Put(AllHashed(ss, l, il), Hashed(c, SizeFor(c, l, il, tab)), az)
    decreases ni + 1 - l, 1
  {
    var size, e, x := TabSize(c, l, tab), Edge(ss, az), Hashed(c, SizeFor(c, l, il, tab));
    if ss == [] || ss[e].size != size {
      var none := NewSob(size, l, ni);
      NewSobFitting(size, l, ni);
      AddBlockHashed(none, l, ni, c, az, tab, il);
      HashedPut(ss, AddToSob(none, l, ni, c, az, size), x, az, l, il);
    } else {
      assert GoodSob(ss[e], l, ni);
      AddBlockHashed(ss[e], l, ni, c, az, tab, il);
      HashedEdge(ss, AddToSob(ss[e], l, ni, c, az, size), x, az, l, il);
    }
  }

  lemma {:induction false} AddBlockHashed(s: Sob, l: nat, ni: nat, c: Clause, az: int, tab: nat, il: nat)
    requires Fitting(s, l, ni) && 1 <= l <= il <= ni && |c.keys| == ni && tab > 0 && s.size == TabSize(c, l, tab)
    ensures BlockHashed(AddToSob(s, l, ni, c, az, s.size), l, il) ==
      Put(BlockHashed(s, l, il), Hashed(c, SizeFor(c, l, il, tab)), az)
    decreases ni + 1 - l, 0
  {
    AddSobGood(s, l, ni, c, az, s.size);
    if l == il {
      HashedInPut(All(s.below), c, az, s.size);
    } else {
      AddHashed(s.below.sobs, l + 1, ni, c, az, s.size, il);
      SizeOnward(c, l, il, tab);
    }
  }

  lemma SizeOnward(c: Clause, l: nat, il: nat, tab: nat)
    requires 1 <= l < il <= |c.keys| && tab > 0
    ensures SizeFor(c, l + 1, il, TabSize(c, l, tab)) == SizeFor(c, l, il, tab)
  {
    if c.keys[l - 1].Bound? {
      if forall i {:trigger c.keys[i]} :: l <= i < il ==> c.keys[i].Bound? {
        assert SizeFor(c, l + 1, il, tab) == tab;
      }
    }
  }

  /** Neighbouring blocks have tables of different sizes, at every level: a clause joins the block at its
      end of the chain whenever it can. */
  ghost predicate Compact(ch: Chain)
    decreases ch, 0
  {
    match ch
    case Clauses(_) => true
    case Sobs(ss) =>
      && (forall i {:trigger ss[i]} :: 0 <= i < |ss| - 1 ==> ss[i].size != ss[i + 1].size)
      && forall i :: 0 <= i < |ss| ==> CompactBelow(ss[i])
  }

  ghost predicate CompactBelow(s: Sob)
    decreases s, 1
  {
    Compact(s.below)
  }

  /** Adding clauses keeps it so. */
  lemma {:induction false} AddCompact(ch: Chain, l: nat, ni: nat, c: Clause, az: int, tab: nat)
    requires Compact(ch) && 1 <= l <= ni + 1 && |c.keys| == ni && tab > 0
    ensures Compact(Add(ch, l, ni, c, az, tab))
    decreases ni + 1 - l
  {
    if ch.Sobs? && l <= ni {
      var ss, size := ch.sobs, TabSize(c, l, tab);
      var e := Edge(ss, az);
      var isNew := ss == [] || ss[e].size != size;
      var was := if isNew then NewSob(size, l, ni) else ss[e];
      assert isNew || CompactBelow(ss[e]);
      AddCompact(was.below, l + 1, ni, c, az, size);
      var s := AddToSob(was, l, ni, c, az, size);
      assert CompactBelow(s) && s.size == size;
      var ss' := Add(ch, l, ni, c, az, tab).sobs;
      assert ss' == if isNew then Put(ss, s, az) else ss[e := s];
      forall i | 0 <= i < |ss'| ensures CompactBelow(ss'[i]) {
        var k := if isNew && az == 0 then i - 1 else i;
        assert 0 <= k < |ss| ==> CompactBelow(ss[k]);
      }
      forall i | 0 <= i < |ss'| - 1 ensures ss'[i].size != ss'[i + 1].size {
        var k := if isNew && az == 0 then i - 1 else i;
        assert 0 <= k < |ss| - 1 ==> ss[k].size != ss[k + 1].size;
      }
    }
  }

  function WithoutHashed(hs: seq<Hashed>, id: nat): seq<Hashed> {
    if hs == [] then []
    else if hs[0].c.id == id then WithoutHashed(hs[1..], id)
    else [hs[0]] + WithoutHashed(hs[1..], id)
  }

  lemma {:induction false} WithoutHashedConcat(a: seq<Hashed>, b: seq<Hashed>, id: nat)
    ensures WithoutHashed(a + b, id) == WithoutHashed(a, id) + WithoutHashed(b, id)
  {
    if a == [] {
      assert a + b == b;
    } else {
      assert (a + b)[1..] == a[1..] + b;
      WithoutHashedConcat(a[1..], b, id);
    }
  }

  lemma {:induction false} HashedInWithout(cs: seq<Clause>, id: nat, size: nat)
    ensures HashedIn(WithoutId(cs, id), size) == WithoutHashed(HashedIn(cs, size), id)
  {
    if cs != [] {
      HashedInWithout(cs[1..], id, size);
      assert HashedIn(cs, size)[1..] == HashedIn(cs[1..], size);
      if cs[0].id != id {
        assert WithoutId(cs, id)[1..] == WithoutId(cs[1..], id);
      }
    }
  }

  lemma {:induction false} WithoutHashedNone(hs: seq<Hashed>, id: nat)
    requires !HasId(Plain(hs), id)
    ensures WithoutHashed(hs, id) == hs
  {
    if hs != [] {
      var all := Plain(hs);
      assert all[0] == hs[0].c && all[1..] == Plain(hs[1..]);
      assert forall i :: 0 <= i < |all| - 1 ==> all[1..][i] == all[i + 1];
      WithoutHashedNone(hs[1..], id);
    }
  }

  /** Deleting a clause leaves all others in tables of the same sizes. */
  lemma {:induction false} DeleteHashed(ss: seq<Sob>, l: nat, ni: nat, c: Clause, il: nat)
    requires Good(Sobs(ss), l, ni) && |c.keys| == ni && Only(AllOf(ss), c) && l <= il <= ni
    ensures AllHashed(DeleteOf(ss, l, c), l, il) == WithoutHashed(AllHashed(ss, l, il), c.id)
    decreases ss, 2
  {
    if ss != [] {
      var s, rest := ss[0], ss[1..];
      var s' := DeleteFromSob(s, l, c);
      assert GoodSob(s, l, ni);
      GoodTail(ss, l, ni);
      OnlyParts(All(s.below), AllOf(rest), c);
      DeleteHashed(rest, l, ni, c, il);
      DeleteBlockHashed(s, l, ni, c, il);
      WithoutHashedConcat(BlockHashed(s, l, il), AllHashed(rest, l, il), c.id);
      var kept := if s'.nonempty == 0 then [] else [s'];
      HashedConcat(kept, DeleteOf(rest, l, c), l, il);
      HashedOne(s', l, il);
    }
  }

  lemma {:induction false} DeleteBlockHashed(s: Sob, l: nat, ni: nat, c: Clause, il: nat)
    requires GoodSob(s, l, ni) && 1 <= l <= il <= ni && |c.keys| == ni && Only(All(s.below), c)
    ensures BlockHashed(DeleteFromSob(s, l, c), l, il) == WithoutHashed(BlockHashed(s, l, il), c.id)
    ensures DeleteFromSob(s, l, c).nonempty == 0 ==> BlockHashed(DeleteFromSob(s, l, c), l, il) == []
    decreases s, 1
  {
    var s', all := DeleteFromSob(s, l, c), All(s.below);
    DeleteSobGood(s, l, ni, c);
    NonemptyIff(s', l, ni);
    BlockPlain(s, l, ni, il);
    BlockPlain(s', l, ni, il);
    InOneBucket(all, c, l, s.size, BucketOf(c.keys[l - 1], s.size));
    if !HasId(all, c.id) {
      WithoutHashedNone(BlockHashed(s, l, il), c.id);
    } else if l == il {
      DeleteGood(s.below, l + 1, ni, c);
      HashedInWithout(all, c.id, s.size);
    } else {
      DeleteHashed(s.below.sobs, l + 1, ni, c, il);
    }
  }

  lemma BlockPlain(s: Sob, l: nat, ni: nat, il: nat)
    requires Fitting(s, l, ni) && 1 <= l <= il <= ni
    ensures Plain(BlockHashed(s, l, il)) == All(s.below)
    ensures All(s.below) == [] ==> BlockHashed(s, l, il) == []
  {
    if l == il {
      HashedInPlain(All(s.below), il, s.size, Unbound);
    } else {
      VisitExact(s.below.sobs, l + 1, ni, il, Unbound);
    }
  }

  ghost predicate Unlike(cs: seq<Clause>, i: int, j: int) {
    0 <= i < j < |cs| ==> cs[i].id != cs[j].id
  }

  ghost predicate Unique(cs: seq<Clause>) {
    forall i, j {:trigger Unlike(cs, i, j)} :: Unlike(cs, i, j)
  }

  lemma {:induction false} PlainAt(hs: seq<Hashed>, i: nat)
    requires i < |hs|
    ensures |Plain(hs)| == |hs| && Plain(hs)[i] == hs[i].c
    decreases i
  {
    PlainLength(hs);
    if i > 0 {
      PlainAt(hs[1..], i - 1);
    }
  }

  lemma {:induction false} PlainLength(hs: seq<Hashed>)
    ensures |Plain(hs)| == |hs|
  {
    if hs != [] {
      PlainLength(hs[1..]);
    }
  }

  lemma {:induction false} SelectFrom(hs: seq<Hashed>, il: nat, key: Key, c: Clause)
    ensures c in Select(hs, il, key) <==> exists j :: 0 <= j < |hs| && hs[j].c == c && MayMatch(hs[j], il, key)
  {
    if hs != [] {
      var rest := hs[1..];
      SelectFrom(rest, il, key, c);
      assert forall j :: 0 <= j < |rest| ==> rest[j] == hs[j + 1];
      if exists j :: 0 <= j < |hs| && hs[j].c == c && MayMatch(hs[j], il, key) {
        var j :| 0 <= j < |hs| && hs[j].c == c && MayMatch(hs[j], il, key);
        assert j > 0 ==> rest[j - 1] == hs[j];
      }
    }
  }

  /** A clause is tried exactly if it may match in its own table. */
  lemma TriedIff(hs: seq<Hashed>, il: nat, key: Key, i: nat)
    requires Unique(Plain(hs)) && i < |hs|
    ensures hs[i].c in Select(hs, il, key) <==> MayMatch(hs[i], il, key)
  {
    SelectFrom(hs, il, key, hs[i].c);
    if hs[i].c in Select(hs, il, key) {
      var j :| 0 <= j < |hs| && hs[j].c == hs[i].c && MayMatch(hs[j], il, key);
      PlainAt(hs, i);
      PlainAt(hs, j);
      assert Unlike(Plain(hs), i, j) && Unlike(Plain(hs), j, i);
    }
  }

  /** The index tells two clauses apart: their tables have one size, and they are in different buckets. */
  ghost predicate Apart(g: Hashed, h: Hashed, il: nat) {
    && 0 < il <= |g.c.keys| && il <= |h.c.keys|
    && g.size == h.size > 0 && BucketOf(g.c.keys[il - 1], g.size) != BucketOf(h.c.keys[il - 1], g.size)
  }

  /** Then no goal has both of them tried. */
  lemma NeverBoth(hs: seq<Hashed>, il: nat, key: Key, i: nat, j: nat)
    requires Unique(Plain(hs)) && i < |hs| && j < |hs|
    requires Apart(hs[i], hs[j], il)
    ensures !(hs[i].c in Select(hs, il, key) && hs[j].c in Select(hs, il, key))
  {
    TriedIff(hs, il, key, i);
    TriedIff(hs, il, key, j);
  }
}
