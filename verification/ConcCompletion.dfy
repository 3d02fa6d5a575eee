/** Completion of subgoals that several threads compute together: which threads a thread depends on,
    and when they can all complete. */
module ConcCompletion {

  const MAX_THREAD_DEPS: nat := 256

  /** A subgoal: the thread that computes it, and its place on that thread's completion stack; the
      older of two subgoals of a thread has the higher place. */
  datatype Subgoal = Subgoal(tid: nat, place: nat, completed: bool)

  /** Another thread: whether it is blocked in completion, the leader it completes, and the oldest
      subgoals, one a thread, that it depends on. */
  datatype Context = Context(completing: bool, ccLeader: nat, deps: seq<Subgoal>)

  type Contexts = map<nat, Context>

  /** There is an entry for the subgoal's thread that is at least as old. */
  predicate Covered(deps: seq<Subgoal>, sg: Subgoal) {
    exists i :: 0 <= i < |deps| && deps[i].tid == sg.tid && deps[i].place >= sg.place
  }

  predicate Listed(deps: seq<Subgoal>, tid: nat) {
    exists i :: 0 <= i < |deps| && deps[i].tid == tid
  }

  class ThreadDepList {
    const deps: array<Subgoal>
    var numDeps: nat

    ghost predicate Valid()
      reads this, deps
    {
      && deps.Length == MAX_THREAD_DEPS && numDeps < MAX_THREAD_DEPS
      && forall i, j {:trigger deps[i], deps[j]} :: 0 <= i < j < numDeps ==> deps[i].tid != deps[j].tid
    }

    ghost function Entries(): seq<Subgoal>
      requires Valid()
      reads this, deps
    {
      deps[..numDeps]
    }

    constructor ()
      ensures Valid() && Entries() == [] && fresh(deps)
    {
      deps := new Subgoal[MAX_THREAD_DEPS];
      numDeps := 0;
    }

    /** Takes over another list. */
    method Copy(from: ThreadDepList)
      requires Valid() && from.Valid() && deps != from.deps
      modifies this, deps
      ensures Valid() && Entries() == from.Entries()
    {
      numDeps := from.numDeps;
      var i := 0;
      while i < numDeps
        invariant 0 <= i <= numDeps == from.numDeps && forall j :: 0 <= j < i ==> deps[j] == from.deps[j]
      {
        deps[i] := from.deps[i];
        i := i + 1;
      }
    }

    method FindTid(tid: nat) returns (found: bool)
      requires Valid()
      ensures found <==> Listed(Entries(), tid)
    {
      var i := 0;
      while i < numDeps
        invariant 0 <= i <= numDeps && forall j :: 0 <= j < i ==> deps[j].tid != tid
      {
        if deps[i].tid == tid {
          assert Entries()[i].tid == tid;
          return true;
        }
        i := i + 1;
      }
      return false;
    }

    /** Sees to it that a dependency is covered; `isNew` says that it was not. Fails when the list is
        full. */
    method CheckInsSubg(sg: Subgoal) returns (ok: bool, isNew: bool)
      requires Valid()
      modifies this, deps
      ensures ok <==> old(numDeps) < MAX_THREAD_DEPS - 1 || Listed(old(Entries()), sg.tid)
      ensures ok ==> Valid() && Covered(Entries(), sg) && (isNew <==> !Covered(old(Entries()), sg))
      ensures ok && !isNew ==> Entries() == old(Entries())
      ensures ok ==> Covers(Entries(), old(Entries())) && forall s :: s in Entries() ==> s in old(Entries()) || s == sg
    {
      ghost var was := Entries();
      var i := 0;
      while i < numDeps
        invariant 0 <= i <= numDeps && forall j :: 0 <= j < i ==> deps[j].tid != sg.tid
      {
        if deps[i].tid == sg.tid {
          assert was[i].tid == sg.tid;
          if sg.place > deps[i].place {
            OneCovers(was, i, sg);
            deps[i] := sg;
            assert Entries() == was[i := sg];
            assert Entries()[i] == sg;
            return true, true;
          }
          assert Covered(was, sg);
          return true, false;
        }
        i := i + 1;
      }
      if numDeps == MAX_THREAD_DEPS - 1 {
        return false, false;
      }
      deps[numDeps] := sg;
      numDeps := numDeps + 1;
      assert Entries() == was + [sg];
      assert Entries()[|was|] == sg && forall j :: 0 <= j < |was| ==> Entries()[j] == was[j];
      return true, true;
    }
  }

  function Tids(deps: seq<Subgoal>): (r: set<nat>)
    ensures forall t :: t in r <==> Listed(deps, t)
  {
    if deps == [] then {} else
      var last := deps[|deps| - 1];
      var rest := Tids(deps[..|deps| - 1]);
      assert forall t :: Listed(deps, t) <==> Listed(deps[..|deps| - 1], t) || t == last.tid;
      rest + {last.tid}
  }

  lemma {:induction false} TidsCount(deps: seq<Subgoal>)
    requires forall i, j :: 0 <= i < j < |deps| ==> deps[i].tid != deps[j].tid
    ensures |Tids(deps)| == |deps|
  {
    if deps != [] {
      var n := |deps| - 1;
      TidsCount(deps[..n]);
      assert deps[n].tid !in Tids(deps[..n]);
    }
  }

  /** A list can be full only if there are too many threads. */
  lemma FullList(tdl: ThreadDepList, sg: Subgoal, ctx: Contexts)
    requires tdl.Valid() && tdl.numDeps == MAX_THREAD_DEPS - 1 && sg.tid in ctx
    requires !Listed(tdl.Entries(), sg.tid)
    requires forall s :: s in tdl.Entries() ==> s.tid in ctx
    ensures |ctx| >= MAX_THREAD_DEPS
  {
    var list := tdl.Entries();
    TidsCount(list);
    forall t | t in Tids(list) + {sg.tid} ensures t in ctx.Keys {
      if t != sg.tid {
        var i :| 0 <= i < |list| && list[i].tid == t;
        assert list[i] in list;
      }
    }
    Subset(Tids(list) + {sg.tid}, ctx.Keys);
  }

  lemma {:induction false} Subset(a: set<nat>, b: set<nat>)
    requires a <= b
    ensures |a| <= |b|
    decreases |a|
  {
    if a != {} {
      var x :| x in a;
      Subset(a - {x}, b - {x});
    }
  }

  /** What was covered is still covered. */
  ghost predicate Covers(now: seq<Subgoal>, was: seq<Subgoal>) {
    forall s: Subgoal {:trigger Covered(now, s)} {:trigger Covered(was, s)} :: Covered(was, s) ==> Covered(now, s)
  }

  lemma OneCovers(was: seq<Subgoal>, i: nat, sg: Subgoal)
    requires i < |was| && was[i].tid == sg.tid && was[i].place < sg.place
    requires forall j :: 0 <= j < |was| && j != i ==> was[j].tid != sg.tid
    ensures Covers(was[i := sg], was) && !Covered(was, sg)
  {
    forall s: Subgoal | Covered(was, s) ensures Covered(was[i := sg], s) {
      var j :| 0 <= j < |was| && was[j].tid == s.tid && was[j].place >= s.place;
      assert was[i := sg][j].tid == s.tid;
    }
  }

  /** A dependency that still matters is covered: by the list, or, if it is on a subgoal of the
      thread itself, by its leader. */
  predicate Settled(sg: Subgoal, self: nat, deps: seq<Subgoal>, leader: nat) {
    sg.completed || (if sg.tid == self then leader >= sg.place else Covered(deps, sg))
  }

  ghost predicate AllSettled(of: seq<Subgoal>, self: nat, deps: seq<Subgoal>, leader: nat) {
    forall i {:trigger of[i]} :: 0 <= i < |of| ==> Settled(of[i], self, deps, leader)
  }

  lemma SettledMore(of: seq<Subgoal>, self: nat, was: seq<Subgoal>, now: seq<Subgoal>, leader: nat, leader': nat)
    requires AllSettled(of, self, was, leader) && Covers(now, was) && leader <= leader'
    ensures AllSettled(of, self, now, leader')
  {
  }

  /** Where a dependency can come from: the list there was, or the list of a completing thread that
      is now listed itself. */
  ghost predicate Explained(sg: Subgoal, self: nat, start: seq<Subgoal>, ctx: Contexts, now: seq<Subgoal>) {
    || sg in start
    || (!sg.completed && sg.tid != self && exists t ::
        t in ctx && ctx[t].completing && sg in ctx[t].deps && Listed(now, t))
  }

  ghost predicate AllExplained(deps: seq<Subgoal>, self: nat, start: seq<Subgoal>, ctx: Contexts, now: seq<Subgoal>) {
    forall s {:trigger s in deps} :: s in deps ==> Explained(s, self, start, ctx, now)
  }

  ghost predicate LeaderExplained(leader: nat, leader0: nat, self: nat, ctx: Contexts, now: seq<Subgoal>) {
    || leader == leader0
    || exists t, s ::
      && t in ctx && ctx[t].completing && s in ctx[t].deps && Listed(now, t)
      && !s.completed && s.tid == self && s.place == leader
  }

  lemma ListedMore(now: seq<Subgoal>, was: seq<Subgoal>)
    requires Covers(now, was)
    ensures forall t :: Listed(was, t) ==> Listed(now, t)
  {
    forall t | Listed(was, t) ensures Listed(now, t) {
      var i :| 0 <= i < |was| && was[i].tid == t;
      assert Covered(was, was[i]) && Covered(now, was[i]);
    }
  }

  lemma ExplainedMore(sg: Subgoal, self: nat, start: seq<Subgoal>, ctx: Contexts, was: seq<Subgoal>, now: seq<Subgoal>)
    requires Explained(sg, self, start, ctx, was) && Covers(now, was)
    ensures Explained(sg, self, start, ctx, now)
  {
    ListedMore(now, was);
  }

  /** Every thread that is depended on has a context. */
  ghost predicate Known(self: nat, ctx: Contexts, deps: seq<Subgoal>) {
    forall s :: s in deps ==> s.tid != self && s.tid in ctx
  }

  ghost predicate AllKnown(self: nat, ctx: Contexts) {
    forall t, s :: t in ctx && s in ctx[t].deps ==> s.tid == self || s.tid in ctx
  }

  /** What the state of the new list says about the threads so far. */
  ghost predicate Sound(self: nat, ctx: Contexts, start: seq<Subgoal>, leader0: nat, now: seq<Subgoal>, leader: nat) {
    && Known(self, ctx, now) && AllExplained(now, self, start, ctx, now)
    && leader0 <= leader && LeaderExplained(leader, leader0, self, ctx, now)
  }

  lemma SoundMore(self: nat, ctx: Contexts, start: seq<Subgoal>, leader0: nat, was: seq<Subgoal>, now: seq<Subgoal>,
      leader: nat, sg: Subgoal)
    requires Sound(self, ctx, start, leader0, was, leader) && Covers(now, was)
    requires forall s :: s in now ==> s in was || s == sg
    requires sg.tid != self && sg.tid in ctx && Explained(sg, self, start, ctx, was)
    ensures Sound(self, ctx, start, leader0, now, leader)
  {
    ListedMore(now, was);
    forall s | s in now ensures Explained(s, self, start, ctx, now) {
      if s in was {
        assert Explained(s, self, start, ctx, was);
      }
      ExplainedMore(s, self, start, ctx, was, now);
    }
  }

  /** The dependencies in the universe that are not covered yet. */
  ghost function Uncovered(universe: set<Subgoal>, deps: seq<Subgoal>): set<Subgoal> {
    set s | s in universe && !Covered(deps, s)
  }

  lemma UncoveredLess(universe: set<Subgoal>, was: seq<Subgoal>, now: seq<Subgoal>)
    requires Covers(now, was)
    ensures Uncovered(universe, now) <= Uncovered(universe, was)
  {
  }

  /** The subgoals on the threads' lists. */
  ghost function Universe(ctx: Contexts): set<Subgoal> {
    set t, s | t in ctx && s in ctx[t].deps :: s
  }

  /** Takes over the dependencies of a completing thread. */
  method PropagateDeps(self: nat, t: nat, ctx: Contexts, newTDL: ThreadDepList, leader0: nat, newDeps0: bool,
      ghost start: seq<Subgoal>, ghost first: nat) returns (ok: bool, leader: nat, newDeps: bool)
    requires newTDL.Valid() && AllKnown(self, ctx) && t in ctx && ctx[t].completing
    requires Listed(newTDL.Entries(), t)
    requires Sound(self, ctx, start, first, newTDL.Entries(), leader0)
    modifies newTDL, newTDL.deps
    ensures ok ==> newTDL.Valid() && Covers(newTDL.Entries(), old(newTDL.Entries())) && leader0 <= leader
    ensures |ctx| < MAX_THREAD_DEPS ==> ok
    ensures ok ==> AllSettled(ctx[t].deps, self, newTDL.Entries(), leader)
    ensures ok ==> Sound(self, ctx, start, first, newTDL.Entries(), leader)
    ensures ok ==> (newDeps0 ==> newDeps) && (!newDeps ==> newTDL.Entries() == old(newTDL.Entries()))
    ensures ok && newDeps && !newDeps0 ==>
      Uncovered(Universe(ctx), newTDL.Entries()) < Uncovered(Universe(ctx), old(newTDL.Entries()))
  {
    ok, leader, newDeps := true, leader0, newDeps0;
    var deps := ctx[t].deps;
    var i := 0;
    while i < |deps|
      invariant 0 <= i <= |deps| && ok && newTDL.Valid()
      invariant Covers(newTDL.Entries(), old(newTDL.Entries())) && leader0 <= leader
      invariant AllSettled(deps[..i], self, newTDL.Entries(), leader)
      invariant Sound(self, ctx, start, first, newTDL.Entries(), leader)
      invariant (newDeps0 ==> newDeps) && (!newDeps ==> newTDL.Entries() == old(newTDL.Entries()))
      invariant newDeps && !newDeps0 ==>
        Uncovered(Universe(ctx), newTDL.Entries()) < Uncovered(Universe(ctx), old(newTDL.Entries()))
    {
      var sgf := deps[i];
      ghost var was := newTDL.Entries();
      assert sgf in deps && deps[..i + 1] == deps[..i] + [sgf];
      ListedMore(was, old(newTDL.Entries()));
      if !sgf.completed {
        if sgf.tid == self {
          if sgf.place > leader {
            leader := sgf.place;
          }
        } else {
          if newTDL.numDeps == MAX_THREAD_DEPS - 1 && !Listed(was, sgf.tid) {
            FullList(newTDL, sgf, ctx);
          }
          var isNew;
          ok, isNew := newTDL.CheckInsSubg(sgf);
          if !ok {
            return;
          }
          SoundMore(self, ctx, start, first, was, newTDL.Entries(), leader, sgf);
          SettledMore(deps[..i], self, was, newTDL.Entries(), leader, leader);
          UncoveredLess(Universe(ctx), was, newTDL.Entries());
          if isNew {
            assert sgf in Uncovered(Universe(ctx), was);
            newDeps := true;
          }
        }
      }
      i := i + 1;
    }
    assert deps[..i] == deps;
  }

  /** What is known after a dependency of the list has been dealt with. */
  ghost predicate Done(d: Subgoal, self: nat, ctx: Contexts, now: seq<Subgoal>, leader: nat, busy: bool) {
    && d.tid in ctx && Covered(now, d)
    && (if ctx[d.tid].completing then AllSettled(ctx[d.tid].deps, self, now, leader) else busy)
  }

  ghost predicate AllDone(ds: seq<Subgoal>, self: nat, ctx: Contexts, now: seq<Subgoal>, leader: nat, busy: bool) {
    forall i {:trigger ds[i]} :: 0 <= i < |ds| ==> Done(ds[i], self, ctx, now, leader, busy)
  }

  lemma DoneMore(ds: seq<Subgoal>, self: nat, ctx: Contexts, was: seq<Subgoal>, now: seq<Subgoal>, leader: nat,
      leader': nat, busy: bool, busy': bool)
    requires AllDone(ds, self, ctx, was, leader, busy) && Covers(now, was) && leader <= leader'
    requires (busy ==> busy')
    ensures AllDone(ds, self, ctx, now, leader', busy')
  {
    forall i | 0 <= i < |ds| ensures Done(ds[i], self, ctx, now, leader', busy') {
      assert Done(ds[i], self, ctx, was, leader, busy);
      if ctx[ds[i].tid].completing {
        SettledMore(ctx[ds[i].tid].deps, self, was, now, leader, leader');
      }
    }
  }

  /** Some listed thread is not blocked in completion. */
  ghost predicate SomeBusy(ctx: Contexts, now: seq<Subgoal>) {
    exists t :: t in ctx && !ctx[t].completing && Listed(now, t)
  }

  lemma BusyMore(ctx: Contexts, was: seq<Subgoal>, now: seq<Subgoal>)
    requires SomeBusy(ctx, was) && Covers(now, was)
    ensures SomeBusy(ctx, now)
  {
    ListedMore(now, was);
  }

  /** Everything that is known of the new list while the list `ds` is gone through. */
  ghost predicate Updating(self: nat, ctx: Contexts, start: seq<Subgoal>, first: nat, now: seq<Subgoal>, leader: nat,
      busy: bool) {
    Sound(self, ctx, start, first, now, leader) && (busy ==> SomeBusy(ctx, now))
  }

  /** Deals with one dependency. */
  method UpdateDep(self: nat, d: Subgoal, ctx: Contexts, newTDL: ThreadDepList, leader0: nat, busy0: bool,
      newDeps0: bool,
      ghost start: seq<Subgoal>, ghost first: nat) returns (ok: bool, leader: nat, busy: bool, newDeps: bool)
    requires newTDL.Valid() && AllKnown(self, ctx) && d.tid in ctx && d.tid != self
    requires Explained(d, self, start, ctx, newTDL.Entries())
    requires Updating(self, ctx, start, first, newTDL.Entries(), leader0, busy0)
    modifies newTDL, newTDL.deps
    ensures ok ==>
      newTDL.Valid() && Covers(newTDL.Entries(), old(newTDL.Entries())) && leader0 <= leader && (busy0 ==> busy)
    ensures |ctx| < MAX_THREAD_DEPS ==> ok
    ensures ok ==> Done(d, self, ctx, newTDL.Entries(), leader, busy)
    ensures ok ==> Updating(self, ctx, start, first, newTDL.Entries(), leader, busy)
    ensures ok ==> (newDeps0 ==> newDeps)
    ensures ok && !newDeps ==> forall s :: s in newTDL.Entries() ==> s in old(newTDL.Entries()) || s == d
    ensures ok && newDeps && !newDeps0 ==>
      Uncovered(Universe(ctx), newTDL.Entries()) < Uncovered(Universe(ctx), old(newTDL.Entries()))
  {
    leader, busy, newDeps := leader0, busy0, newDeps0;
    ghost var was := newTDL.Entries();
    if newTDL.numDeps == MAX_THREAD_DEPS - 1 && !Listed(was, d.tid) {
      FullList(newTDL, d, ctx);
    }
    var isNew;
    ok, isNew := newTDL.CheckInsSubg(d);
    if !ok {
      return;
    }
    ghost var mid := newTDL.Entries();
    SoundMore(self, ctx, start, first, was, mid, leader, d);
    UncoveredLess(Universe(ctx), was, mid);
    assert Listed(mid, d.tid);
    if ctx[d.tid].completing {
      ok, leader, newDeps := PropagateDeps(self, d.tid, ctx, newTDL, leader0, newDeps0, start, first);
      if !ok {
        return;
      }
    } else {
      busy := true;
    }
    if busy0 {
      BusyMore(ctx, was, newTDL.Entries());
    }
  }

  /** Goes through the list once. */
  method UpdatePass(self: nat, tdl: ThreadDepList, ctx: Contexts, newTDL: ThreadDepList, leader0: nat, busy0: bool,
      ghost start: seq<Subgoal>, ghost first: nat) returns (ok: bool, leader: nat, busy: bool, newDeps: bool)
    requires tdl.Valid() && newTDL.Valid() && tdl != newTDL && tdl.deps != newTDL.deps
    requires AllKnown(self, ctx) && Known(self, ctx, tdl.Entries())
    requires AllExplained(tdl.Entries(), self, start, ctx, newTDL.Entries())
    requires Updating(self, ctx, start, first, newTDL.Entries(), leader0, busy0)
    modifies newTDL, newTDL.deps
    ensures ok ==>
      newTDL.Valid() && Covers(newTDL.Entries(), old(newTDL.Entries())) && leader0 <= leader && (busy0 ==> busy)
    ensures |ctx| < MAX_THREAD_DEPS ==> ok
    ensures ok ==> AllDone(tdl.Entries(), self, ctx, newTDL.Entries(), leader, busy)
    ensures ok ==> Updating(self, ctx, start, first, newTDL.Entries(), leader, busy)
    ensures ok && !newDeps ==> forall s :: s in newTDL.Entries() ==> s in old(newTDL.Entries()) || s in tdl.Entries()
    ensures ok && newDeps ==>
      Uncovered(Universe(ctx), newTDL.Entries()) < Uncovered(Universe(ctx), old(newTDL.Entries()))
  {
    ok, leader, busy, newDeps := true, leader0, busy0, false;
    ghost var list, before := tdl.Entries(), newTDL.Entries();
    var i := 0;
    while i < tdl.numDeps
      invariant 0 <= i <= tdl.numDeps && ok && newTDL.Valid() && tdl.Valid() && tdl.Entries() == list
      invariant Covers(newTDL.Entries(), before) && leader0 <= leader && (busy0 ==> busy)
      invariant AllDone(list[..i], self, ctx, newTDL.Entries(), leader, busy)
      invariant Updating(self, ctx, start, first, newTDL.Entries(), leader, busy)
      invariant !newDeps ==> forall s :: s in newTDL.Entries() ==> s in before || s in list
      invariant newDeps ==> Uncovered(Universe(ctx), newTDL.Entries()) < Uncovered(Universe(ctx), before)
    {
      var d := tdl.deps[i];
      ghost var was, wasLeader, wasBusy, wasNew := newTDL.Entries(), leader, busy, newDeps;
      assert d == list[i] && d in list && list[..i + 1] == list[..i] + [d];
      ExplainedMore(d, self, start, ctx, before, was);
      ok, leader, busy, newDeps := UpdateDep(self, d, ctx, newTDL, leader, busy, newDeps, start, first);
      if !ok {
        return;
      }
      DoneMore(list[..i], self, ctx, was, newTDL.Entries(), wasLeader, leader, wasBusy, busy);
      UncoveredLess(Universe(ctx), was, newTDL.Entries());
      UncoveredLess(Universe(ctx), before, was);
      i := i + 1;
    }
    assert list[..i] == list;
  }

  /** Brings the dependencies of a thread up to date: it takes over those of the completing threads
      it depends on, until there are no new ones. */
  method UpdateDeps(self: nat, tdl: ThreadDepList, ctx: Contexts, leader0: nat) returns (ok: bool, busy: bool,
      leader: nat)
    requires tdl.Valid() && AllKnown(self, ctx) && Known(self, ctx, tdl.Entries())
    modifies tdl, tdl.deps
    ensures ok ==> tdl.Valid() && Covers(tdl.Entries(), old(tdl.Entries()))
    ensures ok ==> Known(self, ctx, tdl.Entries()) && forall d :: d in tdl.Entries() && ctx[d.tid].completing ==>
              AllSettled(ctx[d.tid].deps, self, tdl.Entries(), leader)
    ensures |ctx| < MAX_THREAD_DEPS ==> ok
    ensures ok ==> (busy <==> SomeBusy(ctx, tdl.Entries()))
    ensures ok ==> Sound(self, ctx, old(tdl.Entries()), leader0, tdl.Entries(), leader)
  {
    var newTDL := new ThreadDepList();
    ghost var start := tdl.Entries();
    leader, busy := leader0, false;
    var newDeps := true;
    ghost var list := start;
    while newDeps
      invariant tdl.Valid() && newTDL.Valid() && tdl != newTDL && tdl.deps != newTDL.deps && fresh(newTDL)
      invariant fresh(newTDL.deps)
      invariant Known(self, ctx, tdl.Entries()) && AllExplained(tdl.Entries(), self, start, ctx, newTDL.Entries())
      invariant Updating(self, ctx, start, leader0, newTDL.Entries(), leader, busy)
      invariant newTDL.Entries() == [] || newTDL.Entries() == tdl.Entries()
      invariant Covers(tdl.Entries(), start)
      invariant !newDeps ==> AllDone(list, self, ctx, tdl.Entries(), leader, busy) && newTDL.Entries() == tdl.Entries()
      invariant !newDeps ==> forall s :: s in tdl.Entries() ==> s in list
      decreases newDeps, Uncovered(Universe(ctx), newTDL.Entries())
    {
      ghost var before := newTDL.Entries();
      list := tdl.Entries();
      ok, leader, busy, newDeps := UpdatePass(self, tdl, ctx, newTDL, leader, busy, start, leader0);
      if !ok {
        return;
      }
      CoversDone(list, start, self, ctx, newTDL.Entries(), leader, busy);
      tdl.Copy(newTDL);
    }
    ok := true;
    BusyDone(list, self, ctx, tdl.Entries(), leader, busy);
  }

  lemma CoversDone(list: seq<Subgoal>, start: seq<Subgoal>, self: nat, ctx: Contexts, now: seq<Subgoal>, leader: nat,
      busy: bool)
    requires Covers(list, start) && AllDone(list, self, ctx, now, leader, busy)
    ensures Covers(now, start)
  {
    forall s: Subgoal | Covered(start, s) ensures Covered(now, s) {
      assert Covered(list, s);
      var i :| 0 <= i < |list| && list[i].tid == s.tid && list[i].place >= s.place;
      assert Done(list[i], self, ctx, now, leader, busy);
      var j :| 0 <= j < |now| && now[j].tid == list[i].tid && now[j].place >= list[i].place;
    }
  }

  lemma BusyDone(list: seq<Subgoal>, self: nat, ctx: Contexts, now: seq<Subgoal>, leader: nat, busy: bool)
    requires AllDone(list, self, ctx, now, leader, busy) && forall s :: s in now ==> s in list
    ensures SomeBusy(ctx, now) ==> busy
  {
    if SomeBusy(ctx, now) {
      var t :| t in ctx && !ctx[t].completing && Listed(now, t);
      var i :| 0 <= i < |now| && now[i].tid == t;
      assert now[i] in list;
      var j :| 0 <= j < |list| && list[j] == now[i];
      assert Done(list[j], self, ctx, now, leader, busy);
    }
  }

  /** The threads of the group: the thread itself and those it depends on. */
  ghost predicate InGroup(t: nat, self: nat, deps: seq<Subgoal>) {
    t == self || Listed(deps, t)
  }

  /** The thread d depends on the same threads as the group, itself aside. */
  ghost predicate Agrees(d: Subgoal, self: nat, deps: seq<Subgoal>, ctx: Contexts)
    requires d.tid in ctx
  {
    && ctx[d.tid].ccLeader >= d.place
    && (forall s :: s in ctx[d.tid].deps ==> InGroup(s.tid, self, deps))
    && (forall s :: s in deps && s.tid != d.tid ==> Listed(ctx[d.tid].deps, s.tid))
  }

  /** Whether all the threads depended on depend on the same threads. */
  method CheckForSCC(self: nat, tdl: ThreadDepList, ctx: Contexts) returns (closed: bool)
    requires tdl.Valid() && forall s :: s in tdl.Entries() ==> s.tid in ctx
    ensures closed <==> forall d :: d in tdl.Entries() ==> Agrees(d, self, tdl.Entries(), ctx)
  {
    ghost var list := tdl.Entries();
    var i := 0;
    while i < tdl.numDeps
      invariant 0 <= i <= tdl.numDeps && forall d :: d in list[..i] ==> Agrees(d, self, list, ctx)
    {
      var d := tdl.deps[i];
      assert d == list[i] && d in list && list[..i + 1] == list[..i] + [d];
      if ctx[d.tid].ccLeader < d.place {
        return false;
      }
      var inside := DepsInside(self, tdl, ctx[d.tid].deps);
      if !inside {
        return false;
      }
      var shared := DepsShared(d, tdl, ctx[d.tid].deps);
      if !shared {
        return false;
      }
      i := i + 1;
    }
    assert list[..i] == list;
    return true;
  }

  method DepsInside(self: nat, tdl: ThreadDepList, deps: seq<Subgoal>) returns (inside: bool)
    requires tdl.Valid()
    ensures inside <==> forall s :: s in deps ==> InGroup(s.tid, self, tdl.Entries())
  {
    var i := 0;
    while i < |deps|
      invariant 0 <= i <= |deps| && forall j :: 0 <= j < i ==> InGroup(deps[j].tid, self, tdl.Entries())
    {
      var found := tdl.FindTid(deps[i].tid);
      if deps[i].tid != self && !found {
        assert deps[i] in deps;
        return false;
      }
      i := i + 1;
    }
    return true;
  }

  method DepsShared(d: Subgoal, tdl: ThreadDepList, deps: seq<Subgoal>) returns (shared: bool)
    requires tdl.Valid()
    ensures shared <==> forall s :: s in tdl.Entries() && s.tid != d.tid ==> Listed(deps, s.tid)
  {
    ghost var list := tdl.Entries();
    var i := 0;
    while i < tdl.numDeps
      invariant 0 <= i <= tdl.numDeps && forall s :: s in list[..i] && s.tid != d.tid ==> Listed(deps, s.tid)
    {
      assert tdl.deps[i] == list[i] && list[i] in list && list[..i + 1] == list[..i] + [list[i]];
      var found := InList(deps, tdl.deps[i].tid);
      if tdl.deps[i].tid != d.tid && !found {
        return false;
      }
      i := i + 1;
    }
    assert list[..i] == list;
    return true;
  }

  method InList(deps: seq<Subgoal>, tid: nat) returns (found: bool)
    ensures found <==> Listed(deps, tid)
  {
    var i := 0;
    while i < |deps|
      invariant 0 <= i <= |deps| && forall j :: 0 <= j < i ==> deps[j].tid != tid
    {
      if deps[i].tid == tid {
        return true;
      }
      i := i + 1;
    }
    return false;
  }

  /** t depends on u through n threads' lists. */
  ghost predicate DependsIn(t: nat, u: nat, n: nat, self: nat, deps: seq<Subgoal>, ctx: Contexts)
    decreases n
  {
    if n == 0 then t == u
    else exists v :: DependsOn(t, v, self, deps, ctx) && DependsIn(v, u, n - 1, self, deps, ctx)
  }

  ghost predicate DependsOn(t: nat, v: nat, self: nat, deps: seq<Subgoal>, ctx: Contexts) {
    if t == self then Listed(deps, v) else t in ctx && Listed(ctx[t].deps, v)
  }

  /** When the check succeeds no thread of the group depends, through however many others, on a
      thread outside it. */
  lemma {:induction false} GroupClosed(t: nat, u: nat, n: nat, self: nat, deps: seq<Subgoal>, ctx: Contexts)
    requires forall d :: d in deps ==> d.tid in ctx && Agrees(d, self, deps, ctx)
    requires InGroup(t, self, deps) && DependsIn(t, u, n, self, deps, ctx)
    ensures InGroup(u, self, deps)
    decreases n
  {
    if n > 0 {
      var v :| DependsOn(t, v, self, deps, ctx) && DependsIn(v, u, n - 1, self, deps, ctx);
      if t != self {
        var i :| 0 <= i < |deps| && deps[i].tid == t;
        assert deps[i] in deps && Agrees(deps[i], self, deps, ctx);
        var j :| 0 <= j < |ctx[t].deps| && ctx[t].deps[j].tid == v;
        assert ctx[t].deps[j] in ctx[t].deps;
      }
      GroupClosed(v, u, n - 1, self, deps, ctx);
    }
  }
}
