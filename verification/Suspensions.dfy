/** Gathering the completion suspensions of a group of subgoals into one chain of choice points. */
module Suspensions {
  import opened Sequences

  /** What a link of a suspension chain points to. */
  datatype Link = NoFrame | ToSuspension(s: Suspension) | ToChoicePoint(cp: nat)

  class SubgoalFrame {
    var completed: bool
    /** The first of the subgoal's completion suspensions. */
    var susp: Link

    constructor (completed: bool)
      ensures this.completed == completed && susp == NoFrame
    {
      this.completed, susp := completed, NoFrame;
    }
  }

  class Suspension {
    /** The subgoal in whose computation the suspension was made. */
    const root: SubgoalFrame
    var prev: Link
    var hreg: nat
    var ebreg: nat

    constructor (root: SubgoalFrame, prev: Link)
      ensures this.root == root && this.prev == prev
    {
      this.root, this.prev, hreg, ebreg := root, prev, 0, 0;
    }
  }

  /** Where the i-th link of the chain points. */
  function To(list: seq<Suspension>, i: nat, end: Link): Link
  {
    if i < |list| then ToSuspension(list[i]) else end
  }

  ghost predicate LinkAt(list: seq<Suspension>, i: int, end: Link)
    reads list
  {
    0 <= i < |list| ==> list[i].prev == To(list, i + 1, end)
  }

  /** The links from `start` lead through the list to `end`. */
  ghost predicate Linked(start: Link, list: seq<Suspension>, end: Link)
    reads list
  {
    && start == To(list, 0, end)
    && forall i {:trigger LinkAt(list, i, end)} :: LinkAt(list, i, end)
  }

  /** The suspensions whose root subgoals are not among the completed ones. */
  ghost function Kept(list: seq<Suspension>, done: set<SubgoalFrame>): (r: seq<Suspension>)
    ensures forall s :: s in r ==> s in list && s.root !in done
  {
    if list == [] then []
    else Kept(list[..|list| - 1], done) + (if list[|list| - 1].root in done then [] else [list[|list| - 1]])
  }

  /** The subgoals in `done` are the completed ones. */
  ghost predicate Completed(list: seq<Suspension>, done: set<SubgoalFrame>)
    reads set s | s in list :: s.root`completed
  {
    forall s {:trigger s in list} :: s in list ==> (s.root.completed <==> s.root in done)
  }

  function Last(list: seq<Suspension>): Link {
    if list == [] then NoFrame else ToSuspension(list[|list| - 1])
  }

  /** Takes s out of the subgoal's chain; `prevNsf` is the suspension before it. */
  method Unlink(sg: SubgoalFrame, prevNsf: Link, s: Suspension, ghost chain: seq<Suspension>, ghost k: nat,
      ghost all: set<Suspension>)
    returns (nsf: Link)
    requires Linked(sg.susp, chain, NoFrame) && Distinct(chain) && k < |chain| && s == chain[k]
    requires prevNsf == if k == 0 then NoFrame else ToSuspension(chain[k - 1])
    requires forall x :: x in chain ==> x in all
    modifies sg`susp, all`prev
    ensures Linked(sg.susp, Without(chain, k), NoFrame) && nsf == To(chain, k + 1, NoFrame)
    ensures forall x {:trigger x.prev} :: x in all && x !in chain ==> x.prev == old(x.prev)
  {
    ghost var shorter := Without(chain, k);
    assert LinkAt(chain, k, NoFrame);
    nsf := s.prev;
    if prevNsf == NoFrame {
      sg.susp := nsf;
    } else {
      prevNsf.s.prev := nsf;
    }
    forall i ensures LinkAt(shorter, i, NoFrame) {
      assert old(LinkAt(chain, if i < k then i else i + 1, NoFrame));
      assert Differ(chain, i, k - 1) && Differ(chain, k - 1, i + 1);
    }
  }

  /** The chain while the first n of the list have been looked at. */
  ghost predicate Dropping(chain: seq<Suspension>, kept: seq<Suspension>, list: seq<Suspension>, n: nat,
      done: set<SubgoalFrame>) {
    && n <= |list| && kept == Kept(list[..n], done) && chain == kept + list[n..] && Distinct(chain)
  }

  lemma DroppingNext(chain: seq<Suspension>, kept: seq<Suspension>, list: seq<Suspension>, n: nat,
      done: set<SubgoalFrame>)
    requires Dropping(chain, kept, list, n, done) && n < |list|
    ensures |kept| < |chain| && chain[|kept|] == list[n]
    ensures list[n].root in done ==> Dropping(Without(chain, |kept|), kept, list, n + 1, done)
    ensures list[n].root !in done ==> Dropping(chain, kept + [list[n]], list, n + 1, done)
  {
    assert list[..n + 1] == list[..n] + [list[n]] && list[..n + 1][..n] == list[..n];
    assert list[n..] == [list[n]] + list[n + 1..];
    assert chain == (kept + [list[n]]) + list[n + 1..];
    DistinctWithout(chain, |kept|);
    assert Without(chain, |kept|) == kept + list[n + 1..];
  }

  lemma DroppingIn(chain: seq<Suspension>, kept: seq<Suspension>, list: seq<Suspension>, n: nat,
      done: set<SubgoalFrame>)
    requires Dropping(chain, kept, list, n, done)
    ensures forall s :: s in chain ==> s in list
  {
  }

  /** Where the loop below stands: the links lead through `chain`, and the next suspension to be
      looked at is the n-th of the list. */
  ghost predicate Looking(sg: SubgoalFrame, prevNsf: Link, nsf: Link, chain: seq<Suspension>, kept: seq<Suspension>,
      list: seq<Suspension>, n: nat, done: set<SubgoalFrame>)
    reads sg`susp, chain
  {
    && Dropping(chain, kept, list, n, done) && Linked(sg.susp, chain, NoFrame)
    && nsf == To(list, n, NoFrame) && prevNsf == if kept == [] then NoFrame else ToSuspension(kept[|kept| - 1])
  }

  /** Looks at one suspension: it stays in the chain, or is taken out. */
  method DropOne(sg: SubgoalFrame, prevNsf: Link, nsf: Link, ghost chain: seq<Suspension>, ghost kept: seq<Suspension>,
      ghost list: seq<Suspension>, ghost n: nat, ghost done: set<SubgoalFrame>, ghost all: set<Suspension>)
    returns (prevNsf': Link, nsf': Link, ghost chain': seq<Suspension>, ghost kept': seq<Suspension>)
    requires Looking(sg, prevNsf, nsf, chain, kept, list, n, done) && nsf.ToSuspension?
    requires Completed(list, done)
    requires forall x :: x in list ==> x in all
    modifies sg`susp, all`prev
    ensures n < |list| && Looking(sg, prevNsf', nsf', chain', kept', list, n + 1, done)
    ensures forall x {:trigger x.prev} :: x in all && x !in list ==> x.prev == old(x.prev)
  {
    var s := nsf.s;
    DroppingNext(chain, kept, list, n, done);
    DroppingIn(chain, kept, list, n, done);
    assert s == list[n] && s in list;
    if s.root.completed {
      prevNsf', kept' := prevNsf, kept;
      nsf' := Unlink(sg, prevNsf, s, chain, |kept|, all);
      chain' := Without(chain, |kept|);
    } else {
      assert LinkAt(chain, |kept|, NoFrame);
      prevNsf', nsf', chain', kept' := nsf, s.prev, chain, kept + [s];
    }
  }

  /** Takes the suspensions of completed subgoals out of a subgoal's chain. */
  method DropCompleted(sg: SubgoalFrame, ghost list: seq<Suspension>, ghost done: set<SubgoalFrame>,
      ghost all: set<Suspension>)
    requires Linked(sg.susp, list, NoFrame) && Distinct(list) && Completed(list, done)
    requires forall x :: x in list ==> x in all
    modifies sg`susp, all`prev
    ensures Linked(sg.susp, Kept(list, done), NoFrame)
    ensures forall x {:trigger x.prev} :: x in all && x !in list ==> x.prev == old(x.prev)
  {
    ghost var n: nat := 0;
    ghost var kept, chain := [], list;
    var prevNsf, nsf := NoFrame, sg.susp;
    assert list[..0] == [] && list[0..] == list;
    while nsf.ToSuspension?
      invariant Looking(sg, prevNsf, nsf, chain, kept, list, n, done) && Completed(list, done)
      invariant forall x {:trigger x.prev} :: x in all && x !in list ==> x.prev == old(x.prev)
      decreases |list| - n
    {
      prevNsf, nsf, chain, kept := DropOne(sg, prevNsf, nsf, chain, kept, list, n, done, all);
      n := n + 1;
    }
    assert list[n..] == [] && list[..n] == list && kept + [] == kept;
  }

  /** Puts a chain behind the suspensions gathered so far. */
  method Join(first: Link, cur: Link, cc0: Link, breg: Link, ghost acc: seq<Suspension>, ghost more: seq<Suspension>,
      ghost all: set<Suspension>)
    returns (cc: Link)
    requires more != [] && Linked(first, more, NoFrame) && Distinct(acc) && cur == Last(acc)
    requires (acc != [] ==> Linked(cc0, acc, breg))
    requires (forall x :: x in acc ==> x !in more) && forall x :: x in acc + more ==> x in all
    modifies all`prev
    ensures Linked(cc, acc + more, NoFrame) && cc == (if acc == [] then first else cc0)
    ensures Linked(first, more, NoFrame)
    ensures forall x {:trigger x.prev} :: x in all && x !in acc ==> x.prev == old(x.prev)
  {
    if cur == NoFrame {
      assert acc + more == more;
      return first;
    }
    assert LinkAt(acc, |acc| - 1, breg);
    cc := cc0;
    cur.s.prev := first;
    forall i ensures LinkAt(more, i, NoFrame) {
      assert old(LinkAt(more, i, NoFrame));
      assert 0 <= i < |more| ==> more[i] in more;
    }
    forall i ensures LinkAt(acc + more, i, NoFrame) {
      assert old(LinkAt(acc, i, breg)) && old(LinkAt(more, i - |acc|, NoFrame));
      assert Differ(acc, i, |acc| - 1);
      assert |acc| <= i < |acc + more| ==> more[i - |acc|] in more;
    }
  }

  /** Makes the last link of a chain lead to the choice point `breg`, and resets the registers of the
      suspensions in it. */
  method Close(first: Link, breg: Link, hreg: nat, ebreg: nat, ghost list: seq<Suspension>,
      ghost all: set<Suspension>) returns (last: Link)
    requires list != [] && Linked(first, list, NoFrame) && Distinct(list) && forall x :: x in list ==> x in all
    modifies all`prev, all`hreg, all`ebreg
    ensures Linked(first, list, breg) && last == Last(list)
    ensures forall x {:trigger x in list} :: x in list ==> x.hreg == hreg && x.ebreg == ebreg
    ensures forall x {:trigger x.prev} {:trigger x.hreg} {:trigger x.ebreg} :: x in all && x !in list ==>
              x.prev == old(x.prev) && x.hreg == old(x.hreg) && x.ebreg == old(x.ebreg)
  {
    ghost var i := 0;
    last := first;
    assert list[0] in list;
    while true
      invariant 0 <= i < |list| && last == ToSuspension(list[i])
      invariant forall x {:trigger x.prev} :: x in all ==> x.prev == old(x.prev)
      invariant forall j {:trigger list[j]} :: 0 <= j < i ==> list[j].hreg == hreg && list[j].ebreg == ebreg
      invariant forall x {:trigger x.hreg} {:trigger x.ebreg} ::
        x in all && x !in list ==> x.hreg == old(x.hreg) && x.ebreg == old(x.ebreg)
      decreases |list| - i
    {
      assert old(LinkAt(list, i, NoFrame)) && list[i] in list;
      forall j | 0 <= j < i ensures list[j] != list[i] {
        assert Differ(list, j, i);
      }
      last.s.hreg := hreg;
      last.s.ebreg := ebreg;
      if last.s.prev == NoFrame {
        break;
      }
      last := last.s.prev;
      i := i + 1;
    }
    last.s.prev := breg;
    forall j ensures LinkAt(list, j, breg) {
      assert old(LinkAt(list, j, NoFrame)) && Differ(list, j, i);
      assert 0 <= j < |list| ==> list[j] in list;
    }
  }

  /** The same for the last part of a chain. */
  method CloseBehind(cc: Link, first: Link, breg: Link, hreg: nat, ebreg: nat,
      ghost acc: seq<Suspension>, ghost more: seq<Suspension>, ghost all: set<Suspension>) returns (last: Link)
    requires more != [] && Linked(first, more, NoFrame) && Linked(cc, acc + more, NoFrame)
    requires Distinct(more)
    requires (forall x :: x in acc ==> x !in more) && forall x :: x in acc + more ==> x in all
    modifies all`prev, all`hreg, all`ebreg
    ensures Linked(cc, acc + more, breg) && last == Last(acc + more)
    ensures forall x {:trigger x in more} :: x in more ==> x.hreg == hreg && x.ebreg == ebreg
    ensures forall x {:trigger x.prev} {:trigger x.hreg} {:trigger x.ebreg} :: x in all && x !in more ==>
              x.prev == old(x.prev) && x.hreg == old(x.hreg) && x.ebreg == old(x.ebreg)
  {
    last := Close(first, breg, hreg, ebreg, more, all);
    forall i ensures LinkAt(acc + more, i, breg) {
      assert old(LinkAt(acc + more, i, NoFrame)) && LinkAt(more, i - |acc|, breg);
      assert 0 <= i < |acc| ==> acc[i] in acc;
    }
  }

  /** Moves the suspensions left to a subgoal behind those gathered so far. */
  method ResumeCSFs(sg: SubgoalFrame, cur0: Link, cc0: Link, breg: Link, hreg: nat, ebreg: nat,
      ghost acc: seq<Suspension>, ghost more: seq<Suspension>, ghost all: set<Suspension>) returns (cc: Link, cur: Link)
    requires more != [] && Linked(sg.susp, more, NoFrame) && Distinct(acc) && Distinct(more)
    requires cur0 == Last(acc)
    requires acc != [] ==> Linked(cc0, acc, breg)
    requires (forall x :: x in acc ==> x !in more) && forall x :: x in acc + more ==> x in all
    modifies sg`susp, all`prev, all`hreg, all`ebreg
    ensures Linked(cc, acc + more, breg) && cur == Last(acc + more) && sg.susp == NoFrame
    ensures forall x {:trigger x in more} :: x in more ==> x.hreg == hreg && x.ebreg == ebreg
    ensures forall x {:trigger x.hreg} {:trigger x.ebreg} ::
      x in all && x !in more ==> x.hreg == old(x.hreg) && x.ebreg == old(x.ebreg)
    ensures forall x {:trigger x.prev} :: x in all && x !in acc && x !in more ==> x.prev == old(x.prev)
  {
    var first := sg.susp;
    cc := Join(first, cur0, cc0, breg, acc, more, all);
    cur := CloseBehind(cc, first, breg, hreg, ebreg, acc, more, all);
    sg.susp := NoFrame;
  }

  lemma {:induction false} KeptDistinct(list: seq<Suspension>, done: set<SubgoalFrame>)
    requires Distinct(list)
    ensures Distinct(Kept(list, done))
  {
    if list != [] {
      var n := |list| - 1;
      assert list == list[..n] + [list[n]];
      DistinctParts(list[..n], [list[n]]);
      KeptDistinct(list[..n], done);
      assert list[n] in [list[n]];
      DistinctJoin(Kept(list[..n], done), if list[n].root in done then [] else [list[n]]);
    }
  }

  predicate Other(stack: seq<SubgoalFrame>, j: int, k: int) {
    0 <= j < |stack| && 0 <= k < |stack| && j != k ==> stack[j] != stack[k]
  }

  /** The suspensions that survive in the n oldest subgoals, in order. */
  ghost function Gathered(stack: seq<SubgoalFrame>, lists: seq<seq<Suspension>>, n: nat,
      done: set<SubgoalFrame>): seq<Suspension>
    requires n <= |stack| == |lists|
  {
    if n == 0 then []
    else Gathered(stack, lists, n - 1, done) + (if stack[n - 1] in done then [] else Kept(lists[n - 1], done))
  }

  /** The k-th subgoal's suspensions: they are its own, in one chain, and not yet touched. */
  ghost predicate Waiting(stack: seq<SubgoalFrame>, lists: seq<seq<Suspension>>, owner: map<Suspension, nat>,
      done: set<SubgoalFrame>, k: nat)
    requires k < |stack| == |lists|
    reads stack, owner.Keys, set x | x in owner.Keys :: x.root`completed
  {
    && (set x | x in lists[k]) <= owner.Keys && (forall x {:trigger x in lists[k]} :: x in lists[k] ==> owner[x] == k)
    && Linked(stack[k].susp, lists[k], NoFrame) && Distinct(lists[k]) && Completed(lists[k], done)
    && (stack[k].completed <==> stack[k] in done)
  }

  /** The subgoals from the i-th on. */
  ghost predicate AllWaiting(stack: seq<SubgoalFrame>, lists: seq<seq<Suspension>>, owner: map<Suspension, nat>,
      done: set<SubgoalFrame>, i: nat)
    reads stack, owner.Keys, set x | x in owner.Keys :: x.root`completed
  {
    && |stack| == |lists|
    && forall k {:trigger Waiting(stack, lists, owner, done, k)} ::
      i <= k < |stack| ==> Waiting(stack, lists, owner, done, k)
  }

  /** The chain of the suspensions gathered so far. */
  ghost predicate Gathering(acc: seq<Suspension>, owner: map<Suspension, nat>, i: nat, cc: Link, cur: Link,
      ccIn: Link, breg: Link, hreg: nat, ebreg: nat)
    reads acc
  {
    && Distinct(acc) && cur == Last(acc) && (if acc == [] then cc == ccIn else Linked(cc, acc, breg))
    && forall x {:trigger x in acc} :: x in acc ==> x in owner && owner[x] < i && x.hreg == hreg && x.ebreg == ebreg
  }

  /** Puts the surviving suspensions of a subgoal that is not completed behind those gathered. */
  method GatherSubgoal(stack: seq<SubgoalFrame>, sg: SubgoalFrame, i: nat, cc0: Link, cur0: Link, ccIn: Link,
      breg: Link, hreg: nat, ebreg: nat,
      ghost lists: seq<seq<Suspension>>, ghost owner: map<Suspension, nat>, ghost done: set<SubgoalFrame>,
      ghost acc: seq<Suspension>)
    returns (cc: Link, cur: Link)
    requires i < |stack| == |lists| && sg == stack[i] && Waiting(stack, lists, owner, done, i)
    requires Gathering(acc, owner, i, cc0, cur0, ccIn, breg, hreg, ebreg)
    modifies sg`susp, owner.Keys`prev, owner.Keys`hreg, owner.Keys`ebreg
    ensures sg.susp == NoFrame
    ensures Gathering(acc + Kept(lists[i], done), owner, i + 1, cc, cur, ccIn, breg, hreg, ebreg)
    ensures forall x {:trigger x.prev} :: x in owner && owner[x] > i ==> x.prev == old(x.prev)
  {
    cc, cur := cc0, cur0;
    ghost var kept := Kept(lists[i], done);
    KeptDistinct(lists[i], done);
    DropCompleted(sg, lists[i], done, owner.Keys);
    forall j ensures LinkAt(acc, j, breg) || acc == [] {
      assert acc != [] ==> old(LinkAt(acc, j, breg));
      assert 0 <= j < |acc| ==> acc[j] in acc && acc[j] !in lists[i];
    }
    if sg.susp != NoFrame {
      DistinctJoin(acc, kept);
      cc, cur := ResumeCSFs(sg, cur0, cc0, breg, hreg, ebreg, acc, kept, owner.Keys);
    } else {
      assert kept == [] && acc + [] == acc;
    }
  }

  /** Deals with one subgoal of the group. */
  method ProcessSubgoal(stack: seq<SubgoalFrame>, sg: SubgoalFrame, i: nat, cc0: Link, cur0: Link, ccIn: Link,
      breg: Link, hreg: nat, ebreg: nat,
      ghost lists: seq<seq<Suspension>>, ghost owner: map<Suspension, nat>, ghost done: set<SubgoalFrame>,
      ghost acc: seq<Suspension>)
    returns (cc: Link, cur: Link)
    requires i < |stack| == |lists| && sg == stack[i] && Waiting(stack, lists, owner, done, i)
    requires Gathering(acc, owner, i, cc0, cur0, ccIn, breg, hreg, ebreg)
    modifies sg`susp, owner.Keys`prev, owner.Keys`hreg, owner.Keys`ebreg
    ensures sg.susp == NoFrame
    ensures Gathering(acc + (if stack[i] in done then [] else Kept(lists[i], done)), owner, i + 1, cc, cur, ccIn, breg,
                      hreg, ebreg)
    ensures forall x {:trigger x.prev} :: x in owner && owner[x] > i ==> x.prev == old(x.prev)
  {
    if sg.completed {
      cc, cur := cc0, cur0;
      sg.susp := NoFrame;
      assert acc + [] == acc;
    } else {
      cc, cur := GatherSubgoal(stack, sg, i, cc0, cur0, ccIn, breg, hreg, ebreg, lists, owner, done, acc);
    }
  }

  /** The i oldest subgoals have been dealt with, and the others are as they were. */
  ghost predicate Progress(stack: seq<SubgoalFrame>, lists: seq<seq<Suspension>>, owner: map<Suspension, nat>,
      done: set<SubgoalFrame>, i: nat, cc: Link, cur: Link, ccIn: Link, breg: Link, hreg: nat, ebreg: nat)
    requires i <= |stack| == |lists|
    reads stack, owner.Keys, set x | x in owner.Keys :: x.root`completed
  {
    var acc := Gathered(stack, lists, i, done);
    && AllWaiting(stack, lists, owner, done, i)
    && (set x | x in acc) <= owner.Keys && Gathering(acc, owner, i, cc, cur, ccIn, breg, hreg, ebreg)
    && forall k :: 0 <= k < i ==> stack[k].susp == NoFrame
  }

  lemma ProgressStart(stack: seq<SubgoalFrame>, lists: seq<seq<Suspension>>, owner: map<Suspension, nat>,
      done: set<SubgoalFrame>, ccIn: Link, breg: Link, hreg: nat, ebreg: nat)
    requires AllWaiting(stack, lists, owner, done, 0)
    ensures Progress(stack, lists, owner, done, 0, ccIn, NoFrame, ccIn, breg, hreg, ebreg)
  {
  }

  /** Deals with the next subgoal; those still to be dealt with stay as they were. */
  method ProcessNext(stack: seq<SubgoalFrame>, i: nat, cc0: Link, cur0: Link, ccIn: Link, breg: Link, hreg: nat,
      ebreg: nat,
      ghost lists: seq<seq<Suspension>>, ghost owner: map<Suspension, nat>, ghost done: set<SubgoalFrame>,
      ghost subgoals: set<SubgoalFrame>)
    returns (cc: Link, cur: Link)
    requires forall sg :: sg in stack ==> sg in subgoals
    requires i < |stack| == |lists|
    requires forall j, k {:trigger Other(stack, j, k)} :: Other(stack, j, k)
    requires Progress(stack, lists, owner, done, i, cc0, cur0, ccIn, breg, hreg, ebreg)
    modifies subgoals`susp, owner.Keys`prev, owner.Keys`hreg, owner.Keys`ebreg
    ensures Progress(stack, lists, owner, done, i + 1, cc, cur, ccIn, breg, hreg, ebreg)
  {
    assert Waiting(stack, lists, owner, done, i);
    ghost var acc := Gathered(stack, lists, i, done);
    cc, cur := ProcessSubgoal(stack, stack[i], i, cc0, cur0, ccIn, breg, hreg, ebreg, lists, owner, done, acc);
    forall k | 0 <= k < |stack| && k != i ensures stack[k].susp == old(stack[k].susp) {
      assert Other(stack, i, k);
    }
    forall k | i < k < |stack| ensures Waiting(stack, lists, owner, done, k) {
      assert old(Waiting(stack, lists, owner, done, k)) && Other(stack, i, k);
      forall j ensures LinkAt(lists[k], j, NoFrame) {
        assert old(LinkAt(lists[k], j, NoFrame));
        assert 0 <= j < |lists[k]| ==> lists[k][j] in lists[k];
      }
    }
  }

  /** Gathers the suspensions of a group of subgoals, from the leader to the youngest, that do not
      belong to completed subgoals, into one chain that ends at `breg`. */
  method ProcessSuspensionFrames(stack: seq<SubgoalFrame>, ccIn: Link, breg: Link, hreg: nat, ebreg: nat,
      ghost lists: seq<seq<Suspension>>, ghost owner: map<Suspension, nat>, ghost done: set<SubgoalFrame>,
      ghost subgoals: set<SubgoalFrame>)
    returns (cc: Link)
    requires forall sg :: sg in stack ==> sg in subgoals
    requires AllWaiting(stack, lists, owner, done, 0)
    requires forall j, k {:trigger Other(stack, j, k)} :: Other(stack, j, k)
    modifies subgoals`susp, owner.Keys`prev, owner.Keys`hreg, owner.Keys`ebreg
    ensures var all := Gathered(stack, lists, |stack|, done);
      if all == [] then cc == ccIn else Linked(cc, all, breg) && forall x ::
        x in all ==> x.hreg == hreg && x.ebreg == ebreg
    ensures forall k :: 0 <= k < |stack| ==> stack[k].susp == NoFrame
  {
    cc := ccIn;
    var cur := NoFrame;
    var i := 0;
    ProgressStart(stack, lists, owner, done, ccIn, breg, hreg, ebreg);
    while i < |stack|
      invariant 0 <= i <= |stack| && Progress(stack, lists, owner, done, i, cc, cur, ccIn, breg, hreg, ebreg)
    {
      cc, cur := ProcessNext(stack, i, cc, cur, ccIn, breg, hreg, ebreg, lists, owner, done, subgoals);
      i := i + 1;
    }
  }
}
