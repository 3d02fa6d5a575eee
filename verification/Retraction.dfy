/** Retracting clauses of dynamic predicates while choice points still refer to them. */
module Retraction {
  import opened Sequences
  import ClauseChain

  /** A choice point left by a dynamic clause or index block is to go on with `elem`; `Blocking`
      is one whose next instruction makes it unclear what it may still reach. */
  datatype ChoicePoint = Dynamic(chain: nat, elem: nat) | Blocking | Other

  /** The sequence without the elements of a set. */
  function Drop(s: seq<nat>, gone: set<nat>): (r: seq<nat>)
    ensures forall e :: e in r <==> e in s && e !in gone
  {
    if s == [] then []
    else if s[0] in gone then Drop(s[1..], gone)
    else [s[0]] + Drop(s[1..], gone)
  }

  /** The sequence from an element on. */
  function From(s: seq<nat>, e: nat): (r: seq<nat>)
    ensures e in s ==> |r| > 0 && r[0] == e
  {
    if s == [] || s[0] == e then s else From(s[1..], e)
  }

  type Chains = map<nat, seq<nat>>

  /** The element is in the chain, and is not its first: its instruction is a retry or a trust. */
  ghost predicate Resumable(chains: Chains, cp: ChoicePoint) {
    cp.Dynamic? ==> cp.chain in chains && cp.elem in chains[cp.chain] && cp.elem != chains[cp.chain][0]
  }

  /** What backtracking to the choice point will try, in order. */
  function Alternatives(chains: Chains, cp: ChoicePoint): seq<nat> {
    if cp.Dynamic? && cp.chain in chains then From(chains[cp.chain], cp.elem) else []
  }

  lemma {:induction false} DropDistinct(s: seq<nat>, gone: set<nat>)
    requires Distinct(s)
    ensures Distinct(Drop(s, gone))
  {
    if s != [] {
      DistinctTail(s);
      DropDistinct(s[1..], gone);
      if s[0] !in gone {
        DistinctCons(s[0], Drop(s[1..], gone));
      }
    }
  }

  lemma {:induction false} DropNothing(s: seq<nat>, gone: set<nat>)
    requires forall e :: e in s ==> e !in gone
    ensures Drop(s, gone) == s
  {
    if s != [] {
      DropNothing(s[1..], gone);
    }
  }

  lemma {:induction false} DropTwice(s: seq<nat>, a: set<nat>, b: set<nat>)
    ensures Drop(Drop(s, a), b) == Drop(s, a + b)
  {
    if s != [] {
      DropTwice(s[1..], a, b);
      if s[0] !in a {
        assert ([s[0]] + Drop(s[1..], a))[1..] == Drop(s[1..], a);
      }
    }
  }

  lemma {:induction false} DropFrom(s: seq<nat>, gone: set<nat>, e: nat)
    requires e !in gone
    ensures From(Drop(s, gone), e) == Drop(From(s, e), gone)
  {
    if s != [] && s[0] != e {
      DropFrom(s[1..], gone, e);
      if s[0] !in gone {
        assert ([s[0]] + Drop(s[1..], gone))[1..] == Drop(s[1..], gone);
      }
    }
  }

  lemma {:induction false} FromAppend(s: seq<nat>, c: nat, e: nat)
    requires e in s
    ensures From(s + [c], e) == From(s, e) + [c]
  {
    if s[0] != e {
      assert (s + [c])[1..] == s[1..] + [c];
      FromAppend(s[1..], c, e);
    }
  }

  /** Deleting one element keeps a choice point resumable exactly when it is not the element the
      choice point refers to, nor the first of its chain with that one second. */
  lemma DeleteResumable(chains: Chains, cp: ChoicePoint, e: nat)
    requires Resumable(chains, cp) && cp.Dynamic? && Distinct(chains[cp.chain])
    ensures var s := chains[cp.chain];
      Resumable(chains[cp.chain := Drop(s, {e})], cp) <==> cp.elem != e && !(s[0] == e && s[1] == cp.elem)
  {
    var s := chains[cp.chain];
    DistinctTail(s);
    if s[0] == e {
      DropNothing(s[1..], {e});
    }
  }

  /** The dynamic clauses of a program. A clause stands in the chains `places`: the chain of all
      clauses of its innermost index block (or of its predicate), then, from the innermost index
      out, its bucket chains. A bucket chain lies in `block`, and an index block stands in the
      chain `home`. */
  datatype Layout = Layout(places: map<nat, seq<nat>>, block: map<nat, nat>, home: map<nat, nat>, heap: set<nat>)

  datatype Db = Db(chains: Chains, lay: Layout)

  predicate Empty(db: Db, b: nat) {
    forall k :: k in db.lay.block && db.lay.block[k] == b ==> k in db.chains && db.chains[k] == []
  }

  ghost predicate ChainOk(db: Db, k: nat)
    requires k in db.chains
  {
    && Distinct(db.chains[k])
    && (forall e :: e in db.chains[k] ==> e in db.lay.heap && (e in db.lay.places || e in db.lay.home))
    && (forall c :: c in db.chains[k] && c in db.lay.places ==> k in db.lay.places[c])
    && (forall b :: b in db.chains[k] && b in db.lay.home ==> k == db.lay.home[b])
    && (db.chains[k] != [] && k in db.lay.block ==> db.lay.block[k] in db.lay.home)
  }

  ghost predicate PlacesOk(db: Db, c: nat)
    requires c in db.lay.places
  {
    var ps := db.lay.places[c];
    && c !in db.lay.home && ps != [] && Distinct(ps)
    && (forall p :: p in ps ==> p in db.chains && c in db.chains[p])
    && (forall p :: p in ps && |ps| > 1 ==> p !in db.lay.home.Values)
    && (forall i :: 1 <= i < |ps| ==> ps[i] in db.lay.block)
  }

  ghost predicate WellFormed(db: Db) {
    && (forall k {:trigger ChainOk(db, k)} :: k in db.chains ==> ChainOk(db, k))
    && (forall c {:trigger PlacesOk(db, c)} :: c in db.lay.places ==> PlacesOk(db, c))
    && (forall k :: k in db.lay.block ==> k in db.chains)
    && (forall b :: b in db.lay.home ==> db.lay.home[b] in db.chains && db.lay.home[b] !in db.lay.block)
  }

  /** What a resumable choice point refers to has not been freed, and its instruction is a retry or
      a trust. */
  lemma ResumableInstr(db: Db, cp: ChoicePoint, i: nat, op: ClauseChain.Opcode)
    requires WellFormed(db) && Resumable(db.chains, cp) && cp.Dynamic?
    requires i < |db.chains[cp.chain]| && db.chains[cp.chain][i] == cp.elem
    requires ClauseChain.Fits(op, i, |db.chains[cp.chain]|)
    ensures cp.elem in db.lay.heap
    ensures (op == ClauseChain.DynRetryMeElse || op == ClauseChain.DynTrustMeElseFail)
  {
    assert ChainOk(db, cp.chain);
  }

  /** The program after the clause c, and the index blocks it leaves empty, have been freed. */
  function Deleted(db: Db, c: nat, gone: set<nat>): Db {
    Db(map k | k in db.chains :: Drop(db.chains[k], gone + {c}),
       Layout(db.lay.places - {c}, db.lay.block, db.lay.home - gone, db.lay.heap - gone - {c}))
  }

  lemma DeletedWellFormed(db: Db, c: nat, gone: set<nat>)
    requires WellFormed(db) && c in db.lay.places && gone <= db.lay.home.Keys
    requires forall b :: b in gone ==> Empty(Deleted(db, c, gone), b)
    ensures WellFormed(Deleted(db, c, gone))
  {
    var db' := Deleted(db, c, gone);
    forall k | k in db'.chains ensures ChainOk(db', k) {
      assert ChainOk(db, k);
      DropDistinct(db.chains[k], gone + {c});
    }
    forall d | d in db'.lay.places ensures PlacesOk(db', d) {
      assert PlacesOk(db, d);
    }
  }

  ghost predicate AllResumable(chains: Chains, cps: seq<ChoicePoint>) {
    forall i {:trigger cps[i]} :: 0 <= i < |cps| ==> Resumable(chains, cps[i])
  }

  ghost predicate Marks(marked: set<nat>, cps: seq<ChoicePoint>) {
    forall i {:trigger cps[i]} :: 0 <= i < |cps| && cps[i].Dynamic? ==> cps[i].elem in marked
  }

  /** Every choice point's alternatives are what they were, without the elements `gone`. */
  ghost predicate Shrunk(before: Chains, after: Chains, cps: seq<ChoicePoint>, gone: set<nat>) {
    forall i {:trigger cps[i]} ::
      0 <= i < |cps| ==> Alternatives(after, cps[i]) == Drop(Alternatives(before, cps[i]), gone)
  }

  lemma ShrunkNone(chains: Chains, cps: seq<ChoicePoint>)
    ensures Shrunk(chains, chains, cps, {})
  {
    forall i | 0 <= i < |cps| ensures Alternatives(chains, cps[i]) == Drop(Alternatives(chains, cps[i]), {}) {
      DropNothing(Alternatives(chains, cps[i]), {});
    }
  }

  lemma ShrunkTwice(before: Chains, mid: Chains, after: Chains, cps: seq<ChoicePoint>, a: set<nat>, b: set<nat>)
    requires Shrunk(before, mid, cps, a) && Shrunk(mid, after, cps, b)
    ensures Shrunk(before, after, cps, a + b)
  {
    forall i | 0 <= i < |cps| ensures Alternatives(after, cps[i]) == Drop(Alternatives(before, cps[i]), a + b) {
      DropTwice(Alternatives(before, cps[i]), a, b);
    }
  }

  lemma DeletedShrunk(db: Db, c: nat, gone: set<nat>, cps: seq<ChoicePoint>, marked: set<nat>)
    requires Marks(marked, cps) && (gone + {c}) !! marked
    ensures Shrunk(db.chains, Deleted(db, c, gone).chains, cps, gone + {c})
  {
    forall i | 0 <= i < |cps|
      ensures Alternatives(Deleted(db, c, gone).chains, cps[i]) == Drop(Alternatives(db.chains, cps[i]), gone + {c})
    {
      if cps[i].Dynamic? && cps[i].chain in db.chains {
        DropFrom(db.chains[cps[i].chain], gone + {c}, cps[i].elem);
      }
    }
  }

  /** What is tested of one chain before e is taken out of it. */
  predicate SafeIn(chain: seq<nat>, e: nat, marked: set<nat>) {
    e !in marked && !(|chain| > 1 && chain[0] == e && chain[1] in marked)
  }

  lemma SafeResumable(chains: Chains, cps: seq<ChoicePoint>, marked: set<nat>, k: nat, e: nat)
    requires AllResumable(chains, cps) && Marks(marked, cps) && k in chains && Distinct(chains[k])
    requires SafeIn(chains[k], e, marked)
    ensures AllResumable(chains[k := Drop(chains[k], {e})], cps)
  {
    forall i | 0 <= i < |cps| ensures Resumable(chains[k := Drop(chains[k], {e})], cps[i]) {
      assert Resumable(chains, cps[i]);
      if cps[i].Dynamic? && cps[i].chain == k {
        DeleteResumable(chains, cps[i], e);
      }
    }
  }

  lemma {:induction false} DropSame(s: seq<nat>, a: set<nat>, b: set<nat>)
    requires forall e :: e in s ==> (e in a <==> e in b)
    ensures Drop(s, a) == Drop(s, b)
  {
    if s != [] {
      DropSame(s[1..], a, b);
    }
  }

  /** What has been taken out of chain k once c has left the first i of its chains. */
  function Taken(ps: seq<nat>, i: nat, k: nat, c: nat, gone: set<nat>): set<nat>
    requires i <= |ps|
  {
    if k in ps[..i] then gone + {c} else gone
  }

  lemma TakenNext(ps: seq<nat>, i: nat, k: nat, c: nat, gone: set<nat>)
    requires i < |ps|
    ensures Taken(ps, i + 1, k, c, gone) == if k == ps[i] then gone + {c} else Taken(ps, i, k, c, gone)
  {
    assert ps[..i + 1] == ps[..i] + [ps[i]];
  }

  /** The clause c is being taken out of its chains: out of the first i, and the blocks `gone` out
      of theirs. */
  ghost predicate Removing(db: Db, c: nat, i: nat, gone: set<nat>, now: Chains)
    requires c in db.lay.places && i <= |db.lay.places[c]|
  {
    && now.Keys == db.chains.Keys && gone <= db.lay.home.Keys
    && forall k {:trigger now[k]} :: k in now ==>
         now[k] == Drop(db.chains[k], Taken(db.lay.places[c], i, k, c, gone))
  }

  lemma RemovingClause(db: Db, c: nat, i: nat, gone: set<nat>, now: Chains)
    requires WellFormed(db) && c in db.lay.places && i < |db.lay.places[c]|
    requires Removing(db, c, i, gone, now)
    requires db.lay.places[c][i] in now
    ensures Removing(db, c, i + 1, gone, now[db.lay.places[c][i] := Drop(now[db.lay.places[c][i]], {c})])
  {
    var ps, k := db.lay.places[c], db.lay.places[c][i];
    var next := now[k := Drop(now[k], {c})];
    forall x | x in next ensures next[x] == Drop(db.chains[x], Taken(ps, i + 1, x, c, gone)) {
      TakenNext(ps, i, x, c, gone);
      assert now[x] == Drop(db.chains[x], Taken(ps, i, x, c, gone));
      if x == k {
        DropTwice(db.chains[k], Taken(ps, i, k, c, gone), {c});
        DropSame(db.chains[k], Taken(ps, i, k, c, gone) + {c}, gone + {c});
      }
    }
  }

  lemma RemovingBlock(db: Db, c: nat, i: nat, gone: set<nat>, now: Chains, b: nat)
    requires WellFormed(db) && c in db.lay.places && i <= |db.lay.places[c]|
    requires Removing(db, c, i, gone, now)
    requires b in db.lay.home && db.lay.home[b] in now
    ensures Removing(db, c, i, gone + {b}, now[db.lay.home[b] := Drop(now[db.lay.home[b]], {b})])
  {
    var ps, h := db.lay.places[c], db.lay.home[b];
    var next := now[h := Drop(now[h], {b})];
    forall x | x in next ensures next[x] == Drop(db.chains[x], Taken(ps, i, x, c, gone + {b})) {
      var was := Taken(ps, i, x, c, gone);
      assert now[x] == Drop(db.chains[x], was);
      assert ChainOk(db, x);
      if x == h {
        DropTwice(db.chains[x], was, {b});
      }
      DropSame(db.chains[x], was + {b}, Taken(ps, i, x, c, gone + {b}));
      if x != h {
        DropSame(db.chains[x], was, was + {b});
      }
    }
  }

  /** The chains the clause has still to be taken out of are as they were. */
  lemma RemovingLater(db: Db, c: nat, i: nat, j: nat, gone: set<nat>, now: Chains)
    requires WellFormed(db) && c in db.lay.places && i <= j < |db.lay.places[c]|
    requires Removing(db, c, i, gone, now)
    requires |db.lay.places[c]| == 1 ==> gone == {}
    ensures db.lay.places[c][j] in now && now[db.lay.places[c][j]] == db.chains[db.lay.places[c][j]]
  {
    var ps := db.lay.places[c];
    assert PlacesOk(db, c);
    forall m | 0 <= m < i ensures ps[m] != ps[j] {
      assert Differ(ps, m, j);
    }
    assert ps[j] !in ps[..i];
    assert ChainOk(db, ps[j]);
    assert now[ps[j]] == Drop(db.chains[ps[j]], gone);
    DropSame(db.chains[ps[j]], gone, {});
    DropNothing(db.chains[ps[j]], {});
  }

  lemma RemovingDone(db: Db, c: nat, gone: set<nat>, now: Chains)
    requires WellFormed(db) && c in db.lay.places && Removing(db, c, |db.lay.places[c]|, gone, now)
    ensures now == Deleted(db, c, gone).chains
  {
    var ps := db.lay.places[c];
    assert ps[..|ps|] == ps;
    forall k | k in now ensures now[k] == Drop(db.chains[k], gone + {c}) {
      assert ChainOk(db, k);
      if k !in ps {
        DropSame(db.chains[k], gone, gone + {c});
      }
    }
  }

  /** The elements of a sequence that are in a set. */
  function Only(s: seq<nat>, live: set<nat>): (r: seq<nat>)
    ensures forall e :: e in r <==> e in s && e in live
  {
    if s == [] then []
    else if s[0] in live then [s[0]] + Only(s[1..], live)
    else Only(s[1..], live)
  }

  lemma {:induction false} OnlyDrop(s: seq<nat>, gone: set<nat>, live: set<nat>)
    requires forall e :: e in gone ==> e !in live
    ensures Only(Drop(s, gone), live) == Only(s, live)
  {
    if s != [] {
      OnlyDrop(s[1..], gone, live);
      if s[0] !in gone {
        assert ([s[0]] + Drop(s[1..], gone))[1..] == Drop(s[1..], gone);
      }
    }
  }

  lemma {:induction false} OnlyLess(s: seq<nat>, live: set<nat>, c: nat)
    ensures Only(s, live - {c}) == Drop(Only(s, live), {c})
  {
    if s != [] {
      OnlyLess(s[1..], live, c);
      if s[0] in live {
        assert ([s[0]] + Only(s[1..], live))[1..] == Only(s[1..], live);
      }
    }
  }

  /** The clauses that backtracking to the choice point can still resolve with, in order. */
  function Candidates(chains: Chains, live: set<nat>, cp: ChoicePoint): seq<nat> {
    Only(Alternatives(chains, cp), live)
  }

  ghost predicate SameCandidates(before: Chains, wasLive: set<nat>, after: Chains, live: set<nat>,
      cps: seq<ChoicePoint>, gone: set<nat>) {
    forall i {:trigger cps[i]} ::
      0 <= i < |cps| ==> Candidates(after, live, cps[i]) == Drop(Candidates(before, wasLive, cps[i]), gone)
  }

  lemma ShrunkCandidates(before: Chains, after: Chains, cps: seq<ChoicePoint>, gone: set<nat>, live: set<nat>, c: nat)
    requires Shrunk(before, after, cps, gone) && forall e :: e in gone && e != c ==> e !in live
    ensures SameCandidates(before, live, after, live - {c}, cps, {c})
  {
    forall i | 0 <= i < |cps|
      ensures Candidates(after, live - {c}, cps[i]) == Drop(Candidates(before, live, cps[i]), {c})
    {
      OnlyDrop(Alternatives(before, cps[i]), gone, live - {c});
      OnlyLess(Alternatives(before, cps[i]), live, c);
    }
  }

  /** Freeing what is dead anyway changes nothing for a choice point. */
  lemma ShrunkDead(before: Chains, after: Chains, cps: seq<ChoicePoint>, gone: set<nat>, live: set<nat>)
    requires Shrunk(before, after, cps, gone) && forall e :: e in gone ==> e !in live
    ensures SameCandidates(before, live, after, live, cps, {})
  {
    forall i | 0 <= i < |cps| ensures Candidates(after, live, cps[i]) == Drop(Candidates(before, live, cps[i]), {}) {
      OnlyDrop(Alternatives(before, cps[i]), gone, live);
      DropNothing(Candidates(before, live, cps[i]), {});
    }
  }

  /** What a choice point with this next element leaves after it is backtracked to. */
  lemma {:induction false} FromNext(s: seq<nat>, i: nat)
    requires Distinct(s) && i < |s|
    ensures From(s, s[i]) == s[i..]
  {
    if i > 0 {
      assert Differ(s, 0, i);
      DistinctTail(s);
      FromNext(s[1..], i - 1);
      assert s[1..][i - 1..] == s[i..];
    }
  }

  /** What adding clause c to the chains ps does to a choice point's alternatives: when it goes to
      their ends, it is one more. */
  ghost predicate Grown(before: Chains, after: Chains, cps: seq<ChoicePoint>, c: nat, atEnd: bool, ps: seq<nat>) {
    forall i {:trigger cps[i]} :: 0 <= i < |cps| ==>
      Alternatives(after, cps[i]) == Alternatives(before, cps[i]) +
        (if atEnd && cps[i].Dynamic? && cps[i].chain in ps then [c] else [])
  }

  function Put(s: seq<nat>, c: nat, atEnd: bool): seq<nat> {
    if atEnd then s + [c] else [c] + s
  }

  lemma PutDistinct(s: seq<nat>, c: nat, atEnd: bool)
    requires Distinct(s) && c !in s
    ensures Distinct(Put(s, c, atEnd))
  {
    if atEnd {
      DistinctSnoc(s, c);
    } else {
      DistinctCons(c, s);
    }
  }

  /** The program after the clause c has been added to the chains ps. */
  function Added(db: Db, c: nat, atEnd: bool, ps: seq<nat>): Db {
    Db(map k | k in db.chains :: if k in ps then Put(db.chains[k], c, atEnd) else db.chains[k],
       Layout(db.lay.places[c := ps], db.lay.block, db.lay.home, db.lay.heap + {c}))
  }

  /** A new clause may go into these chains: the first is not a bucket chain, the others are
      bucket chains of existing blocks. */
  ghost predicate CanAdd(db: Db, c: nat, ps: seq<nat>) {
    && c !in db.lay.heap && c !in db.lay.home && c !in db.lay.places && ps != [] && Distinct(ps)
    && (forall p :: p in ps ==> p in db.chains && c !in db.chains[p])
    && (forall p :: p in ps && p in db.lay.block ==> db.lay.block[p] in db.lay.home)
    && (forall p :: p in ps && |ps| > 1 ==> p !in db.lay.home.Values)
    && (forall i :: 1 <= i < |ps| ==> ps[i] in db.lay.block)
  }

  lemma AddedWellFormed(db: Db, c: nat, atEnd: bool, ps: seq<nat>)
    requires WellFormed(db) && CanAdd(db, c, ps)
    ensures WellFormed(Added(db, c, atEnd, ps))
  {
    var db' := Added(db, c, atEnd, ps);
    forall k | k in db'.chains ensures ChainOk(db', k) {
      assert ChainOk(db, k);
      if k in ps {
        PutDistinct(db.chains[k], c, atEnd);
      }
    }
    forall d | d in db'.lay.places ensures PlacesOk(db', d) {
      if d != c {
        assert PlacesOk(db, d);
      }
    }
  }

  /** Adding a clause only appends to what a choice point will try, and only at the end. */
  lemma AddedGrown(db: Db, c: nat, atEnd: bool, ps: seq<nat>, cps: seq<ChoicePoint>)
    requires WellFormed(db) && CanAdd(db, c, ps) && AllResumable(db.chains, cps)
    ensures AllResumable(Added(db, c, atEnd, ps).chains, cps)
    ensures Grown(db.chains, Added(db, c, atEnd, ps).chains, cps, c, atEnd, ps)
  {
    var after := Added(db, c, atEnd, ps).chains;
    forall i | 0 <= i < |cps|
      ensures Resumable(after, cps[i])
      ensures Alternatives(after, cps[i]) ==
              Alternatives(db.chains, cps[i]) + (if atEnd && cps[i].Dynamic? && cps[i].chain in ps then [c] else [])
    {
      assert Resumable(db.chains, cps[i]);
      if cps[i].Dynamic? && cps[i].chain in ps {
        var s := db.chains[cps[i].chain];
        if atEnd {
          FromAppend(s, c, cps[i].elem);
        } else {
          assert ([c] + s)[1..] == s;
        }
      }
    }
  }

  /** The program after the index block b, still without clauses, has been added to the chain h. */
  function BlockAdded(db: Db, b: nat, atEnd: bool, h: nat, inner: nat, buckets: seq<nat>): Db
    requires h in db.chains
  {
    Db(map k | k in db.chains.Keys + {inner} + (set x | x in buckets) ::
         if k !in db.chains then [] else if k == h then Put(db.chains[h], b, atEnd) else db.chains[k],
       Layout(db.lay.places, map k | k in db.lay.block.Keys + (set x | x in buckets) ::
           if k in buckets then b else db.lay.block[k],
              db.lay.home[b := h], db.lay.heap + {b}))
  }

  ghost predicate CanAddBlock(db: Db, b: nat, h: nat, inner: nat, buckets: seq<nat>) {
    && b !in db.lay.heap && b !in db.lay.home && b !in db.lay.places && h in db.chains && h !in db.lay.block
    && (forall c :: c in db.lay.places && |db.lay.places[c]| > 1 ==> h !in db.lay.places[c])
    && b !in db.lay.block.Values && inner !in db.chains && (forall k :: k in buckets ==> k !in db.chains)
  }

  lemma BlockAddedWellFormed(db: Db, b: nat, atEnd: bool, h: nat, inner: nat, buckets: seq<nat>)
    requires WellFormed(db) && CanAddBlock(db, b, h, inner, buckets)
    ensures WellFormed(BlockAdded(db, b, atEnd, h, inner, buckets))
  {
    var db' := BlockAdded(db, b, atEnd, h, inner, buckets);
    forall k | k in db'.chains ensures ChainOk(db', k) {
      if k in db.chains {
        assert ChainOk(db, k);
        if k == h {
          PutDistinct(db.chains[h], b, atEnd);
        }
      }
    }
    forall c | c in db'.lay.places ensures PlacesOk(db', c) {
      assert PlacesOk(db, c);
    }
  }

  lemma BlockAddedGrown(db: Db, b: nat, atEnd: bool, h: nat, inner: nat, buckets: seq<nat>, cps: seq<ChoicePoint>)
    requires WellFormed(db) && CanAddBlock(db, b, h, inner, buckets) && AllResumable(db.chains, cps)
    ensures AllResumable(BlockAdded(db, b, atEnd, h, inner, buckets).chains, cps)
    ensures Grown(db.chains, BlockAdded(db, b, atEnd, h, inner, buckets).chains, cps, b, atEnd, [h])
  {
    var after := BlockAdded(db, b, atEnd, h, inner, buckets).chains;
    assert ChainOk(db, h);
    forall i | 0 <= i < |cps|
      ensures Resumable(after, cps[i])
      ensures Alternatives(after, cps[i]) ==
              Alternatives(db.chains, cps[i]) + (if atEnd && cps[i].Dynamic? && cps[i].chain in [h] then [b] else [])
    {
      assert Resumable(db.chains, cps[i]);
      if cps[i].Dynamic? && cps[i].chain == h {
        var s := db.chains[h];
        if atEnd {
          FromAppend(s, b, cps[i].elem);
        } else {
          assert ([b] + s)[1..] == s;
        }
      }
    }
  }
}
