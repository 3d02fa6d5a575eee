/** The store of dynamic clauses together with the choice points that refer to it: calls,
    backtracking, assert, retract and clause garbage collection. */
module DynamicStore {
  import opened Sequences
  import opened Retraction

  /** The elements the choice points refer to. */
  function Referred(cps: seq<ChoicePoint>): (r: set<nat>)
    ensures forall i {:trigger cps[i]} :: 0 <= i < |cps| && cps[i].Dynamic? ==> cps[i].elem in r
    ensures forall e :: e in r ==> exists i :: 0 <= i < |cps| && cps[i].Dynamic? && cps[i].elem == e
  {
    if cps == [] then {} else
      var last := cps[|cps| - 1];
      Referred(cps[..|cps| - 1]) + (if last.Dynamic? then {last.elem} else {})
  }

  ghost predicate Blocked(cps: seq<ChoicePoint>) {
    exists i :: 0 <= i < |cps| && cps[i].Blocking?
  }

  /** None of the chains the clause stands in forbids taking it out. */
  ghost predicate Safe(db: Db, c: nat, marked: set<nat>)
    requires WellFormed(db) && c in db.lay.places
  {
    assert PlacesOk(db, c);
    forall p :: p in db.lay.places[c] ==> SafeIn(db.chains[p], c, marked)
  }

  /** An index block that may have to stay: it, or a block in the same chain, is referred to. */
  ghost predicate Kept(db: Db, b: nat, marked: set<nat>)
    requires b in db.lay.home && db.lay.home[b] in db.chains
  {
    exists m :: m in marked && (m == b || m in db.chains[db.lay.home[b]])
  }

  /** The index block of the clause's i-th chain is freed if the deletion leaves it without
      clauses, and it may be. */
  ghost predicate SweptAt(was: Db, c: nat, i: nat, now: Db, gone: set<nat>, marked: set<nat>)
    requires WellFormed(was) && c in was.lay.places && i < |was.lay.places[c]|
  {
    var k := was.lay.places[c][i];
    k in was.lay.block && (Empty(now, was.lay.block[k]) && was.lay.block[k] in was.lay.home ==>
        was.lay.block[k] in gone || Kept(was, was.lay.block[k], marked))
  }

  ghost predicate Swept(was: Db, c: nat, n: nat, now: Db, gone: set<nat>, marked: set<nat>)
    requires WellFormed(was) && c in was.lay.places && n <= |was.lay.places[c]|
  {
    forall i :: 1 <= i < n ==> SweptAt(was, c, i, now, gone, marked)
  }

  lemma SweptClause(was: Db, c: nat, i: nat, before: Db, now: Db, gone: set<nat>, marked: set<nat>)
    requires WellFormed(was) && c in was.lay.places && 1 <= i < |was.lay.places[c]|
    requires Swept(was, c, i, before, gone, marked)
    requires before.lay.block == now.lay.block == was.lay.block
    requires was.lay.places[c][i] in before.chains
    requires now.chains == before.chains[was.lay.places[c][i] := Drop(before.chains[was.lay.places[c][i]], {c})]
    requires was.lay.places[c][i] in was.lay.block
    ensures Empty(now, was.lay.block[was.lay.places[c][i]]) || Swept(was, c, i + 1, now, gone, marked)
    ensures var b := was.lay.block[was.lay.places[c][i]];
      b in was.lay.home && (b in gone || Kept(was, b, marked)) ==> Swept(was, c, i + 1, now, gone, marked)
  {
    var k := was.lay.places[c][i];
    forall j | 1 <= j <= i && (Empty(now, was.lay.block[k]) ==>
        was.lay.block[k] in was.lay.home && (was.lay.block[k] in gone || Kept(was, was.lay.block[k], marked)))
      ensures SweptAt(was, c, j, now, gone, marked)
    {
      if j < i {
        assert SweptAt(was, c, j, before, gone, marked);
        var b := was.lay.block[was.lay.places[c][j]];
        if b != was.lay.block[k] && Empty(now, b) {
          forall x | x in before.lay.block && before.lay.block[x] == b
            ensures x in before.chains && before.chains[x] == []
          {
            assert x in now.chains && now.chains[x] == [];
          }
        }
      }
    }
  }

  lemma SweptMore(was: Db, c: nat, n: nat, before: Db, now: Db, gone: set<nat>, gone': set<nat>, marked: set<nat>)
    requires WellFormed(was) && c in was.lay.places && n <= |was.lay.places[c]|
    requires Swept(was, c, n, before, gone, marked)
    requires gone <= gone' && forall b :: Empty(now, b) <==> Empty(before, b)
    ensures Swept(was, c, n, now, gone', marked)
  {
    forall i | 1 <= i < n ensures SweptAt(was, c, i, now, gone', marked) {
      assert SweptAt(was, c, i, before, gone, marked);
    }
  }

  lemma SweptFreed(was: Db, c: nat, i: nat, before: Db, mid: Db, now: Db, gone: set<nat>, gone': set<nat>,
      marked: set<nat>)
    requires WellFormed(was) && c in was.lay.places && 1 <= i < |was.lay.places[c]|
    requires Swept(was, c, i, before, gone, marked)
    requires before.lay.block == mid.lay.block == was.lay.block
    requires was.lay.places[c][i] in before.chains
    requires mid.chains == before.chains[was.lay.places[c][i] := Drop(before.chains[was.lay.places[c][i]], {c})]
    requires was.lay.places[c][i] in was.lay.block
    requires was.lay.block[was.lay.places[c][i]] in was.lay.home
    requires var b := was.lay.block[was.lay.places[c][i]];
      (b in gone' && gone' == gone + {b}) || (gone' == gone && Kept(was, b, marked))
    requires forall b :: Empty(now, b) <==> Empty(mid, b)
    ensures Swept(was, c, i + 1, now, gone', marked)
  {
    SweptMore(was, c, i, before, before, gone, gone', marked);
    SweptClause(was, c, i, before, mid, gone', marked);
    SweptMore(was, c, i + 1, mid, now, gone', gone', marked);
  }

  lemma RemovingNone(db: Db, c: nat)
    requires c in db.lay.places
    ensures Removing(db, c, 0, {}, db.chains)
  {
    forall k | k in db.chains ensures db.chains[k] == Drop(db.chains[k], {}) {
      DropNothing(db.chains[k], {});
    }
  }

  lemma EmptyAlone(s: seq<nat>, c: nat)
    requires Distinct(s) && c in s && Drop(s, {c}) == []
    ensures |s| == 1
  {
    assert forall i :: 0 <= i < |s| ==> s[i] in s;
    assert forall i :: 0 <= i < |s| ==> s[i] == c;
    assert Differ(s, 0, 1);
  }

  lemma EmptySame(db: Db, h: nat, s: seq<nat>)
    requires h in db.chains && h !in db.lay.block
    ensures forall b :: Empty(Db(db.chains[h := s], db.lay), b) <==> Empty(db, b)
  {
    forall b ensures Empty(Db(db.chains[h := s], db.lay), b) <==> Empty(db, b) {
      assert forall k :: k in db.lay.block ==> (k in db.chains <==> k in db.chains[h := s]);
      assert forall k :: k in db.lay.block && k in db.chains ==> db.chains[h := s][k] == db.chains[k];
    }
  }

  lemma NoBlockIsClause(db: Db)
    requires WellFormed(db)
    ensures forall b :: b in db.lay.home ==> b !in db.lay.places
  {
    forall b | b in db.lay.places ensures b !in db.lay.home {
      assert PlacesOk(db, b);
    }
  }

  /** A clause that a choice point forbids freeing is not made free to go by freeing others. */
  lemma StaysUnsafe(was: Db, c: nat, gone: set<nat>, marked: set<nat>, d: nat)
    requires WellFormed(was) && WellFormed(Deleted(was, c, gone)) && Unmarked(gone, marked)
    requires c !in marked
    requires d in was.lay.places && d != c && d !in gone && !Safe(was, d, marked)
    ensures !Safe(Deleted(was, c, gone), d, marked)
  {
    assert PlacesOk(was, d);
    var p :| p in was.lay.places[d] && !SafeIn(was.chains[p], d, marked);
    var s := was.chains[p];
    if d !in marked {
      assert Drop(s, gone + {c}) == [s[0]] + Drop(s[1..], gone + {c}) && Drop(s[1..], gone + {c})[0] == s[1];
    }
    assert !SafeIn(Deleted(was, c, gone).chains[p], d, marked);
  }

  ghost predicate Unmarked(gone: set<nat>, marked: set<nat>) {
    forall b {:trigger b in gone} :: b in gone ==> b !in marked
  }

  ghost predicate AllEmpty(db: Db, gone: set<nat>) {
    forall b {:trigger Empty(db, b)} :: b in gone ==> Empty(db, b)
  }

  /** The clause has left all its chains and the layout, and with it the index blocks `gone`: those left
      without clauses that no choice point keeps. */
  ghost predicate Freed(was: Db, c: nat, now: Db, gone: set<nat>, marked: set<nat>)
    requires WellFormed(was) && c in was.lay.places
  {
    && now == Deleted(was, c, gone) && Unmarked(gone, marked) && AllEmpty(now, gone)
    && Swept(was, c, |was.lay.places[c]|, now, gone, marked)
  }

  /** No choice point is unclear, refers to the clause, or would see an instruction change. */
  ghost predicate Freeable(db: Db, c: nat, cps: seq<ChoicePoint>)
    requires WellFormed(db) && c in db.lay.places
  {
    !Blocked(cps) && c !in Referred(cps) && Safe(db, c, Referred(cps))
  }

  function ElementsOf(s: seq<nat>): (r: set<nat>)
    ensures forall e :: e in r <==> e in s
  {
    set e | e in s
  }

  /** What a collection does: nothing if a choice point is unclear; otherwise it frees clauses that were
      not marked and not referred to and that were safe to free, and leaves those that are marked,
      referred to or not safe. */
  ghost predicate Collected(was: Db, wasDeferred: seq<nat>, wasMarked: set<nat>, now: Db, deferred: seq<nat>,
      cps: seq<ChoicePoint>)
    requires WellFormed(was) && WellFormed(now)
    requires forall d :: d in wasDeferred ==> d in was.lay.places
    requires forall d :: d in deferred ==> d in now.lay.places
  {
    && (Blocked(cps) ==> now == was && deferred == wasDeferred)
    && (forall d :: d in deferred ==> d in wasDeferred)
    && (!Blocked(cps) ==> forall d :: d in wasDeferred ==>
          if d in deferred then d in wasMarked || d in Referred(cps) || !Safe(now, d, Referred(cps))
          else d !in wasMarked && Freeable(was, d, cps))
    && now.lay.places.Keys - ElementsOf(deferred) == was.lay.places.Keys - ElementsOf(wasDeferred)
  }

  lemma EmptyKept(before: Db, now: Db, gone: set<nat>, k: nat, c: nat)
    requires AllEmpty(before, gone) && k in before.chains && now.lay.block == before.lay.block
    requires now.chains == before.chains[k := Drop(before.chains[k], {c})]
    ensures AllEmpty(now, gone)
  {
    forall b | b in gone ensures Empty(now, b) {
      assert Empty(before, b);
    }
  }

  lemma NothingForbids(db: Db, d: nat)
    requires WellFormed(db) && d in db.lay.places
    ensures Safe(db, d, {})
  {
  }

  class Store {
    var chains: Chains
    var lay: Layout
    var cps: seq<ChoicePoint>
    /** The clauses whose code has been replaced by a fail. */
    var dead: set<nat>
    /** The frames of dead clauses that have not been freed, and which of them are marked. */
    var deferred: seq<nat>
    var frameMarked: set<nat>
    /** The elements marked as referred to by a choice point. */
    var marked: set<nat>

    /** A store of predicates without clauses, each with its empty chain. */
    constructor (predicates: set<nat>)
      ensures Valid() && cps == [] && dead == {} && deferred == [] && Live() == {}
      ensures chains == (map k | k in predicates :: [])
    {
      chains, lay := map k | k in predicates :: [], Layout(map[], map[], map[], {});
      cps, dead, deferred, frameMarked, marked := [], {}, [], {}, {};
    }

    function Now(): Db
      reads this`chains, this`lay
    {
      Db(chains, lay)
    }

    ghost predicate Sound()
      reads this
    {
      && WellFormed(Now()) && AllResumable(chains, cps)
      && Distinct(deferred) && dead <= lay.places.Keys
      && forall c :: c in dead <==> c in deferred
    }

    /** The clauses that can still be resolved with. */
    ghost function Live(): set<nat>
      reads this
    {
      lay.places.Keys - dead
    }

    ghost predicate Valid()
      reads this
    {
      Sound() && marked == {}
    }

    /** Marks what the choice points refer to, up to one that forbids freeing the clause. */
    method MarkCpstackRetract(c: nat) returns (found: bool)
      requires marked == {}
      modifies this`marked
      ensures found <==> Blocked(cps) || c in Referred(cps)
      ensures marked <= Referred(cps) && (!found ==> marked == Referred(cps))
    {
      found := false;
      var i := |cps|;
      while i > 0 && !found
        invariant 0 <= i <= |cps|
        invariant marked <= Referred(cps)
        invariant found ==> Blocked(cps) || c in Referred(cps)
        invariant !found ==> c !in marked && forall j {:trigger cps[j]} :: i <= j < |cps| ==>
                              !cps[j].Blocking? && (cps[j].Dynamic? ==> cps[j].elem in marked)
      {
        i := i - 1;
        var cp := cps[i];
        match cp
        case Dynamic(_, e) =>
          if e == c {
            found := true;
          } else {
            marked := marked + {e};
          }
        case Blocking =>
          found := true;
        case Other =>
      }
    }

    method UnmarkCpstackRetract()
      modifies this`marked
      ensures marked == old(marked) - Referred(cps)
    {
      var i := |cps|;
      while i > 0
        invariant 0 <= i <= |cps|
        invariant old(marked) - Referred(cps) <= marked <= old(marked)
        invariant forall j {:trigger cps[j]} :: i <= j < |cps| && cps[j].Dynamic? ==> cps[j].elem !in marked
      {
        i := i - 1;
        if cps[i].Dynamic? {
          marked := marked - {cps[i].elem};
        }
      }
    }

    method DetermineIfSafe(c: nat) returns (safe: bool)
      requires WellFormed(Now()) && c in lay.places
      ensures safe <==> Safe(Now(), c, marked)
    {
      assert PlacesOk(Now(), c);
      var ps := lay.places[c];
      if c in marked {
        assert ps[0] in ps;
        return false;
      }
      var i := 0;
      while i < |ps|
        invariant 0 <= i <= |ps|
        invariant forall j :: 0 <= j < i ==> SafeIn(chains[ps[j]], c, marked)
      {
        var chain := chains[ps[i]];
        if |chain| > 1 && chain[0] == c && chain[1] in marked {
          assert ps[i] in ps;
          return false;
        }
        i := i + 1;
      }
      return true;
    }

    method SobSafe(b: nat) returns (safe: bool)
      requires b in lay.home && lay.home[b] in chains
      ensures safe <==> SafeIn(chains[lay.home[b]], b, marked)
    {
      if b in marked {
        return false;
      }
      var chain := chains[lay.home[b]];
      return !(|chain| > 1 && chain[0] == b && chain[1] in marked);
    }

    method DeleteFromChain(k: nat, e: nat)
      requires k in chains && Distinct(chains[k]) && AllResumable(chains, cps) && Marks(marked, cps)
      requires SafeIn(chains[k], e, marked)
      modifies this`chains
      ensures chains == old(chains)[k := Drop(old(chains)[k], {e})]
      ensures AllResumable(chains, cps)
    {
      SafeResumable(chains, cps, marked, k, e);
      chains := chains[k := Drop(chains[k], {e})];
    }

    method FreeBlock(b: nat, ghost c: nat, ghost i: nat, ghost was: Db, gone: set<nat>) returns (gone': set<nat>)
      requires WellFormed(was) && c in was.lay.places && i <= |was.lay.places[c]| && lay == was.lay
      requires Removing(was, c, i, gone, chains) && AllResumable(chains, cps) && Marks(marked, cps)
      requires b in lay.home && Empty(Now(), b)
      modifies this`chains
      ensures Removing(was, c, i, gone', chains) && AllResumable(chains, cps)
      ensures (gone' == gone + {b} && b !in marked) || (gone' == gone && Kept(was, b, marked))
      ensures forall b' :: Empty(Now(), b') <==> Empty(old(Now()), b')
    {
      gone' := gone;
      var safe := SobSafe(b);
      if safe {
        RemovingBlock(was, c, i, gone, chains, b);
        assert ChainOk(was, lay.home[b]);
        DropDistinct(was.chains[lay.home[b]], Taken(was.lay.places[c], i, lay.home[b], c, gone));
        EmptySame(Now(), lay.home[b], Drop(chains[lay.home[b]], {b}));
        DeleteFromChain(lay.home[b], b);
        gone' := gone + {b};
      }
    }

    /** An index block left without clauses is freed, or stays when a choice point forbids it. */
    method FreeIfEmpty(b: nat, ghost c: nat, ghost i: nat, ghost was: Db, ghost before: Db,
        gone: set<nat>) returns (gone': set<nat>)
      requires WellFormed(was) && c in was.lay.places && 1 <= i < |was.lay.places[c]|
      requires lay == was.lay == before.lay
      requires Removing(was, c, i + 1, gone, chains) && AllResumable(chains, cps)
      requires Marks(marked, cps)
      requires was.lay.places[c][i] in lay.block && b == lay.block[was.lay.places[c][i]]
      requires b in lay.home && Empty(Now(), b)
      requires was.lay.places[c][i] in before.chains && Swept(was, c, i, before, gone, marked)
      requires chains == before.chains[was.lay.places[c][i] := Drop(before.chains[was.lay.places[c][i]], {c})]
      requires Unmarked(gone, marked) && AllEmpty(Now(), gone)
      modifies this`chains
      ensures Removing(was, c, i + 1, gone', chains) && AllResumable(chains, cps)
      ensures Unmarked(gone', marked) && AllEmpty(Now(), gone')
      ensures Swept(was, c, i + 1, Now(), gone', marked)
    {
      ghost var mid := Now();
      gone' := FreeBlock(b, c, i + 1, was, gone);
      SweptFreed(was, c, i, before, mid, Now(), gone, gone', marked);
    }

    /** Takes the clause out of one bucket chain. */
    method DeleteFromBucket(c: nat, i: nat, ghost was: Db, ghost gone: set<nat>)
      requires WellFormed(was) && c in was.lay.places && 1 <= i < |was.lay.places[c]|
      requires lay == was.lay
      requires Removing(was, c, i, gone, chains) && AllResumable(chains, cps) && Marks(marked, cps)
      requires AllEmpty(Now(), gone) && Swept(was, c, i, Now(), gone, marked)
      requires was.lay.places[c][i] in was.chains
      requires SafeIn(was.chains[was.lay.places[c][i]], c, marked)
      requires c in was.chains[was.lay.places[c][i]] && was.lay.places[c][i] in was.lay.block
      modifies this`chains
      ensures lay == was.lay && Removing(was, c, i + 1, gone, chains) && AllResumable(chains, cps)
      ensures AllEmpty(Now(), gone)
      ensures chains == old(chains)[was.lay.places[c][i] := Drop(old(chains)[was.lay.places[c][i]], {c})]
      ensures var b := was.lay.block[was.lay.places[c][i]];
        && (Empty(Now(), b) ==> |old(chains)[was.lay.places[c][i]]| == 1)
        && (!Empty(Now(), b) || (b in was.lay.home && (b in gone || Kept(was, b, marked))) ==>
            Swept(was, c, i + 1, Now(), gone, marked))
    {
      var k := lay.places[c][i];
      ghost var before := Now();
      assert ChainOk(was, k);
      RemovingLater(was, c, i, i, gone, chains);
      RemovingClause(was, c, i, gone, chains);
      DeleteFromChain(k, c);
      EmptyKept(before, Now(), gone, k, c);
      SweptClause(was, c, i, before, Now(), gone, marked);
      if Empty(Now(), lay.block[k]) {
        EmptyAlone(before.chains[k], c);
      }
    }

    /** Takes the clause out of one bucket chain; an index block left without clauses goes too. */
    method LeaveBucket(c: nat, i: nat, ghost was: Db, gone: set<nat>) returns (gone': set<nat>)
      requires WellFormed(was) && c in was.lay.places && 1 <= i < |was.lay.places[c]|
      requires lay == was.lay
      requires Removing(was, c, i, gone, chains) && AllResumable(chains, cps) && Marks(marked, cps)
      requires Unmarked(gone, marked) && AllEmpty(Now(), gone)
      requires Swept(was, c, i, Now(), gone, marked)
      requires was.lay.places[c][i] in was.chains
      requires SafeIn(was.chains[was.lay.places[c][i]], c, marked)
      modifies this`chains
      ensures lay == was.lay && Removing(was, c, i + 1, gone', chains) && AllResumable(chains, cps)
      ensures Unmarked(gone', marked) && AllEmpty(Now(), gone')
      ensures Swept(was, c, i + 1, Now(), gone', marked)
    {
      gone' := gone;
      var k := lay.places[c][i];
      assert PlacesOk(was, c) && k in was.lay.places[c] && ChainOk(was, k);
      RemovingLater(was, c, i, i, gone, chains);
      var alone := |chains[k]| == 1;
      ghost var before := Now();
      DeleteFromBucket(c, i, was, gone);
      var b := lay.block[k];
      if alone && Empty(Now(), b) {
        gone' := FreeIfEmpty(b, c, i, was, before, gone);
      }
    }

    /** Takes the clause out of all its chains. */
    method Unlink(c: nat) returns (gone: set<nat>)
      requires WellFormed(Now()) && c in lay.places && AllResumable(chains, cps)
      requires Marks(marked, cps) && Safe(Now(), c, marked)
      modifies this`chains
      ensures gone <= old(lay).home.Keys && Unmarked(gone, marked) && AllEmpty(Now(), gone)
      ensures Swept(old(Now()), c, |old(lay).places[c]|, Now(), gone, marked)
      ensures chains == Deleted(old(Now()), c, gone).chains && AllResumable(chains, cps)
    {
      gone := {};
      ghost var was := Now();
      var ps := lay.places[c];
      assert PlacesOk(was, c) && ps[0] in ps && ChainOk(was, ps[0]);
      RemovingNone(was, c);
      RemovingClause(was, c, 0, {}, was.chains);
      DeleteFromChain(ps[0], c);
      var i := 1;
      while i < |ps|
        invariant 1 <= i <= |ps| && lay == was.lay && Removing(was, c, i, gone, chains)
        invariant AllResumable(chains, cps) && Unmarked(gone, marked) && AllEmpty(Now(), gone)
        invariant Swept(was, c, i, Now(), gone, marked)
      {
        assert ps[i] in ps;
        gone := LeaveBucket(c, i, was, gone);
        i := i + 1;
      }
      RemovingDone(was, c, gone, chains);
    }

    /** Takes the clause out of all its chains and frees it. */
    method ReallyDelete(c: nat) returns (gone: set<nat>)
      requires WellFormed(Now()) && c in lay.places && AllResumable(chains, cps)
      requires Marks(marked, cps) && Safe(Now(), c, marked)
      modifies this`chains, this`lay
      ensures gone <= old(lay).home.Keys && Unmarked(gone, marked) && AllEmpty(Now(), gone)
      ensures Swept(old(Now()), c, |old(lay).places[c]|, Now(), gone, marked)
      ensures Now() == Deleted(old(Now()), c, gone) && WellFormed(Now())
      ensures AllResumable(chains, cps) && Shrunk(old(chains), chains, cps, gone + {c})
    {
      ghost var was := Now();
      gone := Unlink(c);
      ghost var mid := Now();
      lay := Layout(lay.places - {c}, lay.block, lay.home - gone, lay.heap - gone - {c});
      assert PlacesOk(was, c) && was.lay.places[c][0] in was.lay.places[c];
      assert SafeIn(was.chains[was.lay.places[c][0]], c, marked);
      assert forall b :: Empty(Now(), b) <==> Empty(mid, b);
      SweptMore(was, c, |was.lay.places[c]|, mid, Now(), gone, gone, marked);
      DeletedWellFormed(was, c, gone);
      DeletedShrunk(was, c, gone, cps, marked);
    }

    /** Marks what the choice points refer to, and the frames of clauses they refer to. */
    method MarkDynamic() returns (found: bool)
      requires marked == {}
      modifies this`marked, this`frameMarked
      ensures found <==> Blocked(cps)
      ensures marked <= Referred(cps) && (!found ==> marked == Referred(cps))
      ensures old(frameMarked) <= frameMarked <= old(frameMarked) + Referred(cps)
      ensures !found ==> frameMarked == old(frameMarked) + (set d | d in deferred && d in Referred(cps))
    {
      found := false;
      var i := |cps|;
      while i > 0 && !found
        invariant 0 <= i <= |cps| && marked <= Referred(cps)
        invariant old(frameMarked) <= frameMarked <= old(frameMarked) + Referred(cps)
        invariant found ==> Blocked(cps)
        invariant forall d :: d in frameMarked ==> d in old(frameMarked) || d in deferred
        invariant !found ==> forall j {:trigger cps[j]} :: i <= j < |cps| ==>
                    !cps[j].Blocking? && (cps[j].Dynamic? ==>
                        cps[j].elem in marked && (cps[j].elem in deferred ==> cps[j].elem in frameMarked))
      {
        i := i - 1;
        match cps[i]
        case Dynamic(_, e) =>
          marked := marked + {e};
          if e in deferred {
            frameMarked := frameMarked + {e};
          }
        case Blocking =>
          found := true;
        case Other =>
      }
    }

    /** Frees the clause of one frame, unless the frame is marked or freeing it is unsafe. */
    method SweepFrame(c: nat) returns (gone: set<nat>)
      requires Sound() && Marks(marked, cps) && c in deferred
      modifies this`chains, this`lay, this`dead, this`deferred, this`frameMarked
      ensures Sound() && Shrunk(old(chains), chains, cps, gone)
      ensures Live() == old(Live()) && forall e :: e in gone ==> e !in Live()
      ensures forall d :: d in old(deferred) && d != c ==> d in deferred
      ensures forall d :: d in deferred ==> d in old(deferred)
      ensures c !in deferred <==> c !in old(frameMarked) && Safe(old(Now()), c, marked)
      ensures frameMarked == old(frameMarked) - {c}
      ensures forall d {:trigger d in lay.places} :: d in lay.places ==>
                d in old(lay).places && (!Safe(old(Now()), d, marked) ==> !Safe(Now(), d, marked))
    {
      gone := {};
      ShrunkNone(chains, cps);
      if c in frameMarked {
        frameMarked := frameMarked - {c};
      } else {
        var safe := DetermineIfSafe(c);
        if safe {
          ghost var was := Now();
          NoBlockIsClause(was);
          assert PlacesOk(was, c) && was.lay.places[c][0] in was.lay.places[c] && c !in marked;
          gone := ReallyDelete(c);
          forall d | d in lay.places && !Safe(was, d, marked) ensures !Safe(Now(), d, marked) {
            StaysUnsafe(was, c, gone, marked, d);
          }
          gone := gone + {c};
          dead := dead - {c};
          DropDistinct(deferred, {c});
          deferred := Drop(deferred, {c});
        }
      }
    }

    /** Frees the clauses of the frames that are not marked and can be freed safely: what it leaves
        was marked, or still cannot be freed when it is done. */
    method SweepDynamic() returns (gone: set<nat>)
      requires Sound() && Marks(marked, cps)
      modifies this`chains, this`lay, this`dead, this`deferred, this`frameMarked
      ensures Sound() && Shrunk(old(chains), chains, cps, gone) && Live() == old(Live())
      ensures forall e :: e in gone ==> e !in Live()
      ensures forall d {:trigger d in deferred} ::
        d in old(deferred) && d in deferred && d !in old(frameMarked) ==> !Safe(Now(), d, marked)
      ensures forall d {:trigger d in deferred} ::
        d in old(deferred) && d !in deferred ==> d !in old(frameMarked) && Safe(old(Now()), d, marked)
      ensures frameMarked == old(frameMarked) - (set d | d in old(deferred))
      ensures forall d :: d in deferred ==> d in old(deferred)
      ensures marked == {} && old(frameMarked) == {} ==> dead == {}
    {
      gone := {};
      ShrunkNone(chains, cps);
      ghost var was := Now();
      var frames := deferred;
      var i := 0;
      while i < |frames|
        invariant 0 <= i <= |frames| && Distinct(frames)
        invariant Sound() && Shrunk(old(chains), chains, cps, gone) && Live() == old(Live())
        invariant forall e :: e in gone ==> e !in Live()
        invariant forall j :: i <= j < |frames| ==> frames[j] in deferred
        invariant WellFormed(was) && (forall d :: d in deferred ==> d in frames)
        invariant frameMarked == old(frameMarked) - (set d | d in frames[..i])
        invariant forall d {:trigger d in lay.places} ::
          d in lay.places ==> d in was.lay.places && (!Safe(was, d, marked) ==> !Safe(Now(), d, marked))
        invariant forall j {:trigger frames[j]} :: 0 <= j < i ==>
          if frames[j] in deferred then frames[j] in old(frameMarked) || !Safe(Now(), frames[j], marked)
          else frames[j] !in old(frameMarked) && Safe(was, frames[j], marked)
      {
        forall j | 0 <= j < |frames| && j != i ensures frames[j] != frames[i] {
          assert Differ(frames, i, j) && Differ(frames, j, i);
        }
        ghost var before := chains;
        var more := SweepFrame(frames[i]);
        ShrunkTwice(old(chains), before, chains, cps, gone, more);
        gone := gone + more;
        i := i + 1;
      }
      assert frames[..i] == frames;
      forall d | d in deferred ensures d in old(frameMarked) || !Safe(Now(), d, marked) {
        var j :| 0 <= j < |frames| && frames[j] == d;
      }
      forall d | d in dead ensures Safe(Now(), d, {}) {
        NothingForbids(Now(), d);
      }
    }

    /** Collects dead clauses. It never changes what a choice point can still resolve with, and
        without choice points it frees them all. */
    method GcDynamic() returns (gone: set<nat>)
      requires Valid()
      modifies this`chains, this`lay, this`dead, this`deferred, this`frameMarked, this`marked
      ensures Valid() && Live() == old(Live())
      ensures Shrunk(old(chains), chains, cps, gone) && forall e :: e in gone ==> e !in Live()
      ensures SameCandidates(old(chains), old(Live()), chains, Live(), cps, {})
      ensures Collected(old(Now()), old(deferred), old(frameMarked), Now(), deferred, cps)
      ensures Referred(cps) == {} && !Blocked(cps) && old(frameMarked) == {} ==> dead == {}
    {
      gone := {};
      ShrunkNone(chains, cps);
      assert dead == ElementsOf(deferred);
      if deferred != [] {
        var found := MarkDynamic();
        if !found {
          gone := SweepDynamic();
        }
        UnmarkCpstackRetract();
      }
      ShrunkDead(old(chains), chains, cps, gone, Live());
      assert dead == ElementsOf(deferred);
    }

    /** Frees a clause just retracted, unless a choice point would see its instruction change. */
    method Reclaim(c: nat) returns (done: bool, gone: set<nat>)
      requires WellFormed(Now()) && AllResumable(chains, cps) && c in lay.places && marked == {}
      modifies this`chains, this`lay, this`marked
      ensures WellFormed(Now()) && AllResumable(chains, cps) && marked == {}
      ensures Shrunk(old(chains), chains, cps, gone)
      ensures lay.places.Keys == if done then old(lay).places.Keys - {c} else old(lay).places.Keys
      ensures (c in gone <==> done) && forall e :: e in gone && e != c ==> e !in old(lay).places
      ensures done <==> Freeable(old(Now()), c, cps)
      ensures if done then Freed(old(Now()), c, Now(), gone - {c}, Referred(cps)) else Now() == old(Now()) && gone == {}
    {
      done, gone := false, {};
      ShrunkNone(chains, cps);
      var found := MarkCpstackRetract(c);
      if !found {
        var safe := DetermineIfSafe(c);
        if safe {
          NoBlockIsClause(Now());
          gone := ReallyDelete(c);
          ghost var blocks := gone;
          gone := gone + {c};
          assert gone - {c} == blocks;
          done := true;
        }
      }
      UnmarkCpstackRetract();
    }

    /** Frees the clause, if it may and can be freed; otherwise the clause is dead, and waits. */
    method RetractNow(c: nat, mayReclaim: bool) returns (gone: set<nat>)
      requires Valid() && c in Live()
      modifies this`chains, this`lay, this`dead, this`deferred, this`marked
      ensures if mayReclaim && Freeable(old(Now()), c, cps) then
          && Freed(old(Now()), c, Now(), gone - {c}, Referred(cps))
          && deferred == old(deferred) && dead == old(dead)
        else
          && Now() == old(Now()) && gone == {}
          && deferred == [c] + old(deferred) && dead == old(dead) + {c}
      ensures Valid() && Live() == old(Live()) - {c}
      ensures Shrunk(old(chains), chains, cps, gone) && forall e :: e in gone && e != c ==> e !in old(Live())
    {
      gone := {};
      ShrunkNone(chains, cps);
      dead := dead + {c};
      var reallyDeleted := false;
      if mayReclaim {
        reallyDeleted, gone := Reclaim(c);
      }
      if reallyDeleted {
        dead := dead - {c};
      } else {
        DistinctCons(c, deferred);
        deferred := [c] + deferred;
      }
    }

    /** Retracts a clause. Its space is reclaimed exactly if that may be tried and no choice point is
        unclear, refers to it, or would see an instruction change; otherwise it waits, in all its
        chains. Either way every choice point loses exactly this clause. A collection comes first if it
        is time for one; `mid` is the store and `waiting` the dead clauses after that. */
    method RetractClause(c: nat, timeToGc: bool, mayReclaim: bool)
      returns (gone: set<nat>, ghost mid: Db, ghost waiting: seq<nat>)
      requires Valid() && c in Live()
      modifies this`chains, this`lay, this`dead, this`deferred, this`frameMarked, this`marked
      ensures Valid() && Live() == old(Live()) - {c}
      ensures Shrunk(old(chains), chains, cps, gone) && forall e :: e in gone ==> e !in Live()
      ensures SameCandidates(old(chains), old(Live()), chains, Live(), cps, {c})
      ensures WellFormed(mid) && c in mid.lay.places && forall d :: d in waiting ==> d in mid.lay.places
      ensures if timeToGc then Collected(old(Now()), old(deferred), old(frameMarked), mid, waiting, cps)
        else mid == old(Now()) && waiting == old(deferred)
      ensures if mayReclaim && Freeable(mid, c, cps) then
          && (exists blocks :: Freed(mid, c, Now(), blocks, Referred(cps)))
          && c !in lay.places && (forall k :: k in chains ==> c !in chains[k]) && deferred == waiting
        else
          Now() == mid && c in dead && deferred == [c] + waiting
    {
      gone := {};
      ShrunkNone(chains, cps);
      if timeToGc {
        gone := GcDynamic();
      }
      mid, waiting := Now(), deferred;
      var more := RetractNow(c, mayReclaim);
      ShrunkTwice(old(chains), mid.chains, chains, cps, gone, more);
      gone := gone + more;
      ShrunkCandidates(old(chains), chains, cps, gone, old(Live()), c);
    }

    /** Enters a chain. With more than one element it leaves a choice point for the rest. */
    method Call(k: nat)
      requires Valid() && k in chains
      modifies this`cps
      ensures Valid()
      ensures if |chains[k]| <= 1 then cps == old(cps)
        else
          && |cps| == |old(cps)| + 1 && cps[..|old(cps)|] == old(cps)
          && Alternatives(chains, cps[|old(cps)|]) == chains[k][1..]
    {
      if |chains[k]| > 1 {
        assert ChainOk(Now(), k) && Differ(chains[k], 0, 1);
        FromNext(chains[k], 1);
        cps := cps + [Dynamic(k, chains[k][1])];
      }
    }

    /** Goes on with the top choice point: a retry moves it to the next element, a trust drops it. */
    method Backtrack() returns (e: nat)
      requires Valid() && cps != [] && cps[|cps| - 1].Dynamic?
      modifies this`cps
      ensures Valid() && e == old(cps)[|old(cps)| - 1].elem
      ensures var n, rest := |old(cps)| - 1, Alternatives(chains, old(cps)[|old(cps)| - 1])[1..];
        if rest == [] then cps == old(cps)[..n]
        else |cps| == n + 1 && cps[..n] == old(cps)[..n] && Alternatives(chains, cps[n]) == rest
    {
      var n := |cps| - 1;
      var k := cps[n].chain;
      e := cps[n].elem;
      assert Resumable(chains, cps[n]) && ChainOk(Now(), k);
      var chain := chains[k];
      var i := 0;
      while chain[i] != e
        invariant 0 <= i < |chain| && e !in chain[..i]
        decreases |chain| - i
      {
        i := i + 1;
      }
      FromNext(chain, i);
      assert chain[i..][1..] == chain[i + 1..];
      if i == |chain| - 1 {
        cps := cps[..n];
      } else {
        FromNext(chain, i + 1);
        assert Differ(chain, 0, i + 1);
        cps := cps[..n] + [Dynamic(k, chain[i + 1])];
      }
    }

    /** A cut drops choice points; other code leaves some of its own. */
    method Cut(n: nat)
      requires Valid() && n <= |cps|
      modifies this`cps
      ensures Valid() && cps == old(cps)[..n]
    {
      cps := cps[..n];
    }

    method PushOther(blocking: bool)
      requires Valid()
      modifies this`cps
      ensures Valid() && cps == old(cps) + [if blocking then Blocking else Other]
    {
      cps := cps + [if blocking then Blocking else Other];
    }

    /** Adds a clause to its chains, from the outermost index in. */
    method PutClause(c: nat, az: int, ps: seq<nat>)
      requires Distinct(ps) && forall p :: p in ps ==> p in chains
      modifies this`chains
      ensures chains.Keys == old(chains).Keys
      ensures forall k ::
        k in chains ==> chains[k] == if k in ps then Put(old(chains)[k], c, az != 0) else old(chains)[k]
    {
      var i := |ps|;
      while i > 0
        invariant 0 <= i <= |ps| && chains.Keys == old(chains).Keys
        invariant forall k {:trigger chains[k]} :: k in chains ==>
                    chains[k] == if k in ps[i..] then Put(old(chains)[k], c, az != 0) else old(chains)[k]
      {
        i := i - 1;
        assert ps[i..] == [ps[i]] + ps[i + 1..] && ps[i] in ps;
        forall j | i < j < |ps| ensures ps[j] != ps[i] {
          assert Differ(ps, i, j);
        }
        chains := chains[ps[i] := Put(chains[ps[i]], c, az != 0)];
      }
      assert ps[0..] == ps;
    }

    /** Adds a clause to the program. */
    method AddClause(c: nat, az: int, ps: seq<nat>)
      requires Valid() && CanAdd(Now(), c, ps)
      modifies this`chains, this`lay
      ensures Valid() && Now() == Added(old(Now()), c, az != 0, ps) && Live() == old(Live()) + {c}
      ensures Grown(old(chains), chains, cps, c, az != 0, ps)
    {
      AddedWellFormed(Now(), c, az != 0, ps);
      AddedGrown(Now(), c, az != 0, ps, cps);
      PutClause(c, az, ps);
      lay := Layout(lay.places[c := ps], lay.block, lay.home, lay.heap + {c});
      assert chains == Added(old(Now()), c, az != 0, ps).chains;
    }

    /** Adds an index block, as yet without clauses, to the chain h. */
    method AddBlock(b: nat, az: int, h: nat, inner: nat, buckets: seq<nat>)
      requires Valid() && CanAddBlock(Now(), b, h, inner, buckets)
      modifies this`chains, this`lay
      ensures Valid() && Live() == old(Live()) && Grown(old(chains), chains, cps, b, az != 0, [h])
      ensures b in lay.home && Empty(Now(), b)
      ensures lay.places == old(lay).places && lay.heap == old(lay).heap + {b} && lay.home == old(lay).home[b := h]
      ensures chains.Keys == old(chains).Keys + {inner} + ElementsOf(buckets)
      ensures forall k :: k in chains && k in old(chains) ==>
        chains[k] == if k == h then Put(old(chains)[h], b, az != 0) else old(chains)[k]
      ensures forall k :: k in chains && k !in old(chains) ==> chains[k] == []
      ensures lay.block.Keys == old(lay).block.Keys + ElementsOf(buckets)
      ensures forall k :: k in lay.block ==> lay.block[k] == if k in buckets then b else old(lay).block[k]
    {
      BlockAddedWellFormed(Now(), b, az != 0, h, inner, buckets);
      BlockAddedGrown(Now(), b, az != 0, h, inner, buckets, cps);
      var next := BlockAdded(Now(), b, az != 0, h, inner, buckets);
      chains, lay := next.chains, next.lay;
    }
  }
}
