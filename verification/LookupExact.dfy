/** The clauses found for a goal are exactly those that may match it, in order. */
module LookupExact {
  import opened SobIndex
  import opened ClauseLookup

  /** A clause with the size of the table it is hashed in at some level. */
  datatype Hashed = Hashed(c: Clause, size: nat)

  function HashedIn(cs: seq<Clause>, size: nat): (r: seq<Hashed>)
    ensures |r| == |cs|
  {
    if cs == [] then [] else [Hashed(cs[0], size)] + HashedIn(cs[1..], size)
  }

  /** All the clauses of a chain in order, each with its table size at level il. */
  function AllHashed(ss: seq<Sob>, l: nat, il: nat): seq<Hashed>
    decreases ss
  {
    if ss == [] then [] else
      (if l == il then HashedIn(All(ss[0].below), ss[0].size)
       else if ss[0].below.Sobs? then AllHashed(ss[0].below.sobs, l + 1, il) else [])
      + AllHashed(ss[1..], l, il)
  }

  function Plain(hs: seq<Hashed>): seq<Clause> {
    if hs == [] then [] else [hs[0].c] + Plain(hs[1..])
  }

  /** The clause's argument is unbound, or hashes with the goal's. */
  predicate MayMatch(h: Hashed, il: nat, key: Key) {
    h.size > 0 && 0 < il <= |h.c.keys| && BucketOf(h.c.keys[il - 1], h.size) == BucketOf(key, h.size)
  }

  function Select(hs: seq<Hashed>, il: nat, key: Key): seq<Clause> {
    if hs == [] then []
    else if MayMatch(hs[0], il, key) then [hs[0].c] + Select(hs[1..], il, key)
    else Select(hs[1..], il, key)
  }

  lemma {:induction false} PlainConcat(a: seq<Hashed>, b: seq<Hashed>)
    ensures Plain(a + b) == Plain(a) + Plain(b)
  {
    if a == [] {
      assert a + b == b;
    } else {
      assert (a + b)[1..] == a[1..] + b;
      PlainConcat(a[1..], b);
    }
  }

  lemma {:induction false} SelectConcat(a: seq<Hashed>, b: seq<Hashed>, il: nat, key: Key)
    ensures Select(a + b, il, key) == Select(a, il, key) + Select(b, il, key)
  {
    if a == [] {
      assert a + b == b;
    } else {
      assert (a + b)[1..] == a[1..] + b;
      SelectConcat(a[1..], b, il, key);
    }
  }

  lemma {:induction false} HashedInPlain(cs: seq<Clause>, il: nat, size: nat, key: Key)
    requires size > 0
    ensures Plain(HashedIn(cs, size)) == cs
    ensures Select(HashedIn(cs, size), il, key) == InBucket(cs, il, size, BucketOf(key, size))
  {
    if cs != [] {
      HashedInPlain(cs[1..], il, size, key);
      var hs := HashedIn(cs, size);
      assert hs[0] == Hashed(cs[0], size) && hs[1..] == HashedIn(cs[1..], size);
    }
  }

  /** With an index: the clauses tried are, in order, those that may match. */
  lemma {:induction false} VisitExact(ss: seq<Sob>, l: nat, ni: nat, il: nat, key: Key)
    requires Good(Sobs(ss), l, ni) && l <= il <= ni
    ensures Plain(AllHashed(ss, l, il)) == AllOf(ss)
    ensures VisitOf(ss, l, il, key) == Select(AllHashed(ss, l, il), il, key)
    decreases ss
  {
    if ss != [] {
      var s := ss[0];
      assert GoodSob(s, l, ni);
      GoodTail(ss, l, ni);
      VisitExact(ss[1..], l, ni, il, key);
      SobBelow(s, l, ni);
      var first := if l == il then HashedIn(All(s.below), s.size) else AllHashed(s.below.sobs, l + 1, il);
      assert Plain(first) == All(s.below) && VisitSob(s, l, il, key) == Select(first, il, key) by {
        if l == il {
          HashedInPlain(All(s.below), il, s.size, key);
        } else {
          VisitExact(s.below.sobs, l + 1, ni, il, key);
        }
      }
      PlainConcat(first, AllHashed(ss[1..], l, il));
      SelectConcat(first, AllHashed(ss[1..], l, il), il, key);
    }
  }

  lemma GoodTail(ss: seq<Sob>, l: nat, ni: nat)
    requires Good(Sobs(ss), l, ni) && ss != []
    ensures Good(Sobs(ss[1..]), l, ni)
  {
    forall i | 0 <= i < |ss| - 1 ensures GoodSob(ss[1..][i], l, ni) {
      assert GoodSob(ss[i + 1], l, ni);
    }
  }

  /** Without an index: all clauses are tried, in order. */
  lemma {:induction false} VisitAll(ss: seq<Sob>, l: nat, ni: nat, key: Key)
    requires Good(Sobs(ss), l, ni)
    ensures VisitOf(ss, l, 0, key) == AllOf(ss)
    decreases ss
  {
    if ss != [] {
      var s := ss[0];
      assert GoodSob(s, l, ni);
      GoodTail(ss, l, ni);
      VisitAll(ss[1..], l, ni, key);
      SobBelow(s, l, ni);
      assert Visit(s.below, l + 1, 0, key) == All(s.below) by {
        if s.below.Sobs? {
          VisitAll(s.below.sobs, l + 1, ni, key);
        }
      }
    }
  }

  /** Every clause is in a table it fits. */
  lemma {:induction false} HashedFits(ss: seq<Sob>, l: nat, ni: nat, il: nat, i: nat)
    requires Good(Sobs(ss), l, ni) && l <= il <= ni && i < |AllHashed(ss, l, il)|
    ensures var h := AllHashed(ss, l, il)[i]; h.size > 0 && KeyFits(h.c, il, h.size)
    decreases ss
  {
    var s := ss[0];
    assert GoodSob(s, l, ni);
    GoodTail(ss, l, ni);
    SobBelow(s, l, ni);
    var first := if l == il then HashedIn(All(s.below), s.size) else AllHashed(s.below.sobs, l + 1, il);
    assert AllHashed(ss, l, il) == first + AllHashed(ss[1..], l, il);
    if i >= |first| {
      HashedFits(ss[1..], l, ni, il, i - |first|);
    } else if l == il {
      HashedAt(All(s.below), s.size, i);
    } else {
      HashedFits(s.below.sobs, l + 1, ni, il, i);
    }
  }

  lemma {:induction false} HashedAt(cs: seq<Clause>, size: nat, i: nat)
    requires i < |cs|
    ensures HashedIn(cs, size)[i] == Hashed(cs[i], size)
  {
    if i > 0 {
      HashedAt(cs[1..], size, i - 1);
    }
  }

  /** The argument of the clause could be the one of the goal: it is unbound, or the same. */
  ghost predicate Unifies(k: Key, key: Key) {
    k.Unbound? || (key.Bound? && forall n: nat :: k.code(n) == key.code(n))
  }

  /** No clause that could match is skipped, whatever table it is in. */
  lemma NoneMissed(ss: seq<Sob>, ni: nat, il: nat, key: Key, i: nat)
    requires Good(Sobs(ss), 1, ni) && 1 <= il <= ni && i < |AllHashed(ss, 1, il)|
    ensures |AllHashed(ss, 1, il)[i].c.keys| >= il
    ensures Unifies(AllHashed(ss, 1, il)[i].c.keys[il - 1], key) ==> MayMatch(AllHashed(ss, 1, il)[i], il, key)
  {
    HashedFits(ss, 1, ni, il, i);
  }

  /** Looking up the clauses for a goal: with an index those that may match, and else all. */
  method Lookup(ss: seq<Sob>, ni: nat, goal: seq<Key>) returns (tried: seq<Clause>)
    requires Good(Sobs(ss), 1, ni) && |goal| == ni
    ensures var il := UsableFrom(goal, 1);
      tried == if il == 0 then AllOf(ss) else Select(AllHashed(ss, 1, il), il, goal[il - 1])
  {
    tried := TryAll(ss, ni, goal);
    ghost var il := UsableFrom(goal, 1);
    if il == 0 {
      VisitAll(ss, 1, ni, Unbound);
    } else {
      VisitExact(ss, 1, ni, il, goal[il - 1]);
    }
  }
}
