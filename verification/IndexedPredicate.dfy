/** An indexed dynamic predicate under assert, retract and lookup. */
module IndexedPredicate {
  import opened SobIndex
  import opened SobUpdate
  import opened LookupExact
  import opened TableSizes
  import ClauseLookup

  lemma UniquePut(cs: seq<Clause>, c: Clause, az: int)
    requires Unique(cs) && !HasId(cs, c.id)
    ensures Unique(Put(cs, c, az))
  {
    forall i, j ensures Unlike(Put(cs, c, az), i, j) {
      assert Unlike(cs, i, j) && Unlike(cs, i - 1, j - 1);
    }
  }

  lemma UniqueOnly(cs: seq<Clause>, c: Clause)
    requires Unique(cs) && c in cs
    ensures Only(cs, c)
  {
    var k :| 0 <= k < |cs| && cs[k] == c;
    forall i | 0 <= i < |cs| && cs[i].id == c.id ensures cs[i] == c {
      assert Unlike(cs, i, k) && Unlike(cs, k, i);
    }
  }

  lemma {:induction false} UniqueWithout(cs: seq<Clause>, id: nat)
    requires Unique(cs)
    ensures Unique(WithoutId(cs, id))
  {
    if cs != [] {
      var rest := cs[1..];
      forall i, j ensures Unlike(rest, i, j) {
        assert Unlike(cs, i + 1, j + 1);
      }
      UniqueWithout(rest, id);
      if cs[0].id != id {
        forall i | 0 <= i < |WithoutId(rest, id)| ensures WithoutId(rest, id)[i].id != cs[0].id {
          WithoutIdIn(rest, id, i);
          var j :| 0 <= j < |rest| && rest[j] == WithoutId(rest, id)[i];
          assert Unlike(cs, 0, j + 1);
        }
        forall i, j ensures Unlike(WithoutId(cs, id), i, j) {
          assert Unlike(WithoutId(rest, id), i - 1, j - 1);
        }
      }
    }
  }

  class Predicate {
    /** The number of indexes. */
    const ni: nat
    var sobs: seq<Sob>
    /** The clauses, in the order in which they are tried. */
    ghost var clauses: seq<Clause>

    ghost predicate Valid()
      reads this
    {
      ni >= 1 && Good(Sobs(sobs), 1, ni) && AllOf(sobs) == clauses && Unique(clauses)
    }

    /** The clauses in order, each with the size of the table it is hashed in at level il. */
    ghost function Tables(il: nat): seq<Hashed>
      reads this
    {
      AllHashed(sobs, 1, il)
    }

    constructor (ni: nat)
      requires ni >= 1
      ensures Valid() && clauses == [] && this.ni == ni && Compact(Sobs(sobs))
    {
      this.ni, sobs, clauses := ni, [], [];
    }

    /** Adds a clause: asserta when `az` is 0, else assertz. Its tables get the size that `HashResize`
        finds, or 1 from its first unbound key on; all other clauses stay in tables of their sizes. A
        block is made for it only where that at its end of the chain has another size. */
    method Assert(c: Clause, az: int, hashTabSize: nat)
      requires Valid() && |c.keys| == ni && !HasId(clauses, c.id)
      modifies this
      ensures Valid() && clauses == Put(old(clauses), c, az)
      ensures old(Compact(Sobs(sobs))) ==> Compact(Sobs(sobs))
      ensures old(sobs) != [] ==> Edge(old(sobs), az) < |old(sobs)| && old(sobs)[Edge(old(sobs), az)].size > 0
      ensures var tab := HashResize(old(sobs), Edge(old(sobs), az), hashTabSize);
        forall il {:trigger Tables(il)} ::
          1 <= il <= ni ==> Tables(il) == Put(old(Tables(il)), Hashed(c, SizeFor(c, 1, il, tab)), az)
    {
      assert sobs != [] ==> GoodSob(sobs[Edge(sobs, az)], 1, ni);
      var tab := HashResize(sobs, Edge(sobs, az), hashTabSize);
      AddGood(Sobs(sobs), 1, ni, c, az, tab);
      if Compact(Sobs(sobs)) {
        AddCompact(Sobs(sobs), 1, ni, c, az, tab);
      }
      forall il | 1 <= il <= ni
        ensures AllHashed(Add(Sobs(sobs), 1, ni, c, az, tab).sobs, 1, il) ==
          Put(AllHashed(sobs, 1, il), Hashed(c, SizeFor(c, 1, il, tab)), az)
      {
        AddHashed(sobs, 1, ni, c, az, tab, il);
      }
      UniquePut(clauses, c, az);
      sobs := Add(Sobs(sobs), 1, ni, c, az, tab).sobs;
      clauses := Put(clauses, c, az);
    }

    method Retract(c: Clause)
      requires Valid() && c in clauses
      modifies this
      ensures Valid() && clauses == WithoutId(old(clauses), c.id)
      ensures forall il {:trigger Tables(il)} :: 1 <= il <= ni ==> Tables(il) == WithoutHashed(old(Tables(il)), c.id)
    {
      ghost var k: nat :| k < |clauses| && clauses[k] == c;
      KeysLength(sobs, 1, ni, k);
      UniqueOnly(clauses, c);
      DeleteGood(Sobs(sobs), 1, ni, c);
      forall il | 1 <= il <= ni
        ensures AllHashed(DeleteOf(sobs, 1, c), 1, il) == WithoutHashed(AllHashed(sobs, 1, il), c.id)
      {
        DeleteHashed(sobs, 1, ni, c, il);
      }
      UniqueWithout(clauses, c.id);
      sobs := DeleteOf(sobs, 1, c);
      clauses := WithoutId(clauses, c.id);
    }

    /** The clauses tried for a goal, one after the other. Without a bound index argument they are
        all the clauses; otherwise those, in order, whose argument is unbound or hashes with the
        goal's in the clause's table; so never both of two that the index tells apart. */
    method Lookup(goal: seq<Key>) returns (tried: seq<Clause>)
      requires Valid() && |goal| == ni
      ensures var il := ClauseLookup.UsableFrom(goal, 1);
        if il == 0 then tried == clauses
        else
          && Plain(Tables(il)) == clauses && tried == Select(Tables(il), il, goal[il - 1])
          && forall i, j ::
            0 <= i < |Tables(il)| && 0 <= j < |Tables(il)| && Apart(Tables(il)[i], Tables(il)[j], il) ==>
              !(Tables(il)[i].c in tried && Tables(il)[j].c in tried)
    {
      tried := LookupExact.Lookup(sobs, ni, goal);
      ghost var il := ClauseLookup.UsableFrom(goal, 1);
      if il > 0 {
        VisitExact(sobs, 1, ni, il, goal[il - 1]);
        ghost var hs := Tables(il);
        forall i, j | 0 <= i < |hs| && 0 <= j < |hs| && Apart(hs[i], hs[j], il)
          ensures !(hs[i].c in tried && hs[j].c in tried)
        {
          NeverBoth(hs, il, goal[il - 1], i, j);
        }
      }
    }
  }

  lemma {:induction false} KeysLength(ss: seq<Sob>, l: nat, ni: nat, k: nat)
    requires Good(Sobs(ss), l, ni) && k < |AllOf(ss)|
    ensures |AllOf(ss)[k].keys| == ni
    decreases ss
  {
    var s := ss[0];
    assert GoodSob(s, l, ni);
    GoodTail(ss, l, ni);
    if k >= |All(s.below)| {
      KeysLength(ss[1..], l, ni, k - |All(s.below)|);
    } else {
      match s.below
      case Clauses(cs) =>
      case Sobs(below) =>
        KeysLength(below, l + 1, ni, k);
    }
  }
}
