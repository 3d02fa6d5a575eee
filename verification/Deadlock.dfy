/** The waits of threads for shared tables: the deadlock test, the recording of waits, and the reset
    of the threads in a deadlock. */
module Deadlock {
  import opened WaitGraph

  /** The waits that are cleared have been kept as links, and no other link has changed. */
  ghost predicate Kept(links: map<nat, nat>, links': map<nat, nat>, w: Waits, w': Waits) {
    && (forall x {:trigger x in w'} :: x in w' ==> x in w && w'[x] == w[x])
    && (forall x {:trigger x in w} {:trigger x in links'} :: x in w && x !in w' ==> x in links' && links'[x] == w[x])
    && forall x {:trigger x in links} {:trigger x in links'} :: x !in w || x in w' ==>
         (x in links <==> x in links') && (x in links ==> links'[x] == links[x])
  }

  class Threads {
    /** The waits recorded in the threads' contexts, and the links a reset leaves there. */
    var waitingFor: Waits
    var tmpNext: map<nat, nat>
    /** For every thread that is resetting others, the next one to be reset, and the table by which
        that is to be done. */
    var resetting: map<nat, nat>
    var resetTable: map<nat, nat>
    /** The thread that computes each table, and the tables that are completed. */
    var computes: map<nat, nat>
    var completed: set<nat>
    /** The table that each thread in the wait loop waits for, and what its context says of that. */
    var awaits: map<nat, nat>
    var waitingTable: map<nat, nat>
    var numDeadlocks: nat
    var numSuspends: nat

    constructor ()
      ensures waitingFor == map[] && Acyclic(waitingFor) && resetting == map[] && awaits == map[]
      ensures computes == map[] && completed == {} && waitingTable == map[]
      ensures tmpNext == map[] && resetTable == map[] && numDeadlocks == numSuspends == 0
    {
      waitingFor, tmpNext, resetting, resetTable, numDeadlocks, numSuspends := map[], map[], map[], map[], 0, 0;
      computes, completed, awaits, waitingTable := map[], {}, map[], map[];
      new;
      forall a: nat, n: nat | n > 0 ensures !Leads(waitingFor, a, a, n) {
      }
    }

    /** Whether t2 waiting for t1 would close a cycle. */
    method WouldDeadlock(t1: nat, t2: nat) returns (dead: bool)
      requires Acyclic(waitingFor)
      modifies this`numDeadlocks, this`numSuspends
      ensures dead <==> Reach(waitingFor, t1, t2)
      ensures dead <==> !Acyclic(waitingFor[t2 := t1])
      ensures numDeadlocks == old(numDeadlocks) + (if dead then 1 else 0)
      ensures numSuspends == old(numSuspends) + (if dead then 0 else 1)
    {
      NewWait(waitingFor, t2, t1);
      var t: int := t1;
      ghost var seen: set<nat> := {};
      while t >= 0
        invariant t >= 0 ==> (Reach(waitingFor, t1, t2) <==> Reach(waitingFor, t, t2))
        invariant t < 0 ==> !Reach(waitingFor, t1, t2)
        invariant seen <= waitingFor.Keys
        invariant t >= 0 ==> forall x :: x in seen ==> x in waitingFor && Reach(waitingFor, waitingFor[x], t)
        invariant numDeadlocks == old(numDeadlocks) && numSuspends == old(numSuspends)
        decreases waitingFor.Keys - seen, t >= 0
      {
        if t == t2 {
          assert Leads(waitingFor, t, t2, 0);
          numDeadlocks := numDeadlocks + 1;
          return true;
        }
        if t in waitingFor {
          ReachStep(waitingFor, t, t2);
          NotSeen(seen, t);
          SeenStep(seen, t);
          seen := seen + {t};
          t := waitingFor[t];
        } else {
          ReachEnd(waitingFor, t, t2);
          t := -1;
        }
      }
      numSuspends := numSuspends + 1;
      return false;
    }

    lemma NotSeen(seen: set<nat>, t: nat)
      requires Acyclic(waitingFor) && forall x :: x in seen ==> x in waitingFor && Reach(waitingFor, waitingFor[x], t)
      ensures t !in seen
    {
      if t in seen {
        var n: nat :| Leads(waitingFor, waitingFor[t], t, n);
        assert Leads(waitingFor, t, t, n + 1);
      }
    }

    lemma SeenStep(seen: set<nat>, t: nat)
      requires t in waitingFor && forall x :: x in seen ==> x in waitingFor && Reach(waitingFor, waitingFor[x], t)
      ensures forall x :: x in seen + {t} ==> x in waitingFor && Reach(waitingFor, waitingFor[x], waitingFor[t])
    {
      forall x | x in seen + {t} ensures x in waitingFor && Reach(waitingFor, waitingFor[x], waitingFor[t]) {
        if x in seen {
          var n: nat :| Leads(waitingFor, waitingFor[x], t, n);
          var one: nat := 1;
          assert Leads(waitingFor, t, waitingFor[t], one);
          LeadsMore(waitingFor, waitingFor[x], t, waitingFor[t], n, one);
        } else {
          assert Leads(waitingFor, waitingFor[t], waitingFor[t], 0);
        }
      }
    }

    /** A thread that would not close a cycle records its wait and suspends. */
    method Suspend(th: nat, owner: nat)
      requires Acyclic(waitingFor) && !Reach(waitingFor, owner, th)
      modifies this`waitingFor
      ensures Acyclic(waitingFor) && waitingFor == old(waitingFor)[th := owner]
    {
      NewWait(waitingFor, th, owner);
      waitingFor := waitingFor[th := owner];
    }

    /** A thread calls a new table, and computes it. */
    method NewTable(table: nat, th: nat)
      requires table !in computes
      modifies this`computes
      ensures computes == old(computes)[table := th]
    {
      computes := computes[table := th];
    }

    /** A table is completed by the thread that computes it. */
    method Complete(table: nat, ghost th: nat)
      requires table in computes && computes[table] == th
      modifies this`completed
      ensures completed == old(completed) + {table}
    {
      completed := completed + {table};
    }

    /** A thread whose table has been completed waits no more. */
    method Resume(th: nat)
      requires Acyclic(waitingFor) && th in awaits && awaits[th] in completed
      modifies this`waitingFor, this`waitingTable, this`awaits
      ensures Acyclic(waitingFor) && waitingFor == old(waitingFor) - {th}
      ensures waitingTable == old(waitingTable) - {th} && awaits == old(awaits) - {th}
    {
      AcyclicSub(waitingFor - {th}, waitingFor);
      waitingFor := waitingFor - {th};
      waitingTable := waitingTable - {th};
      awaits := awaits - {th};
    }

    /** One pass through the wait loop for a table, on entry or after a wake-up: the thread
        suspends, or it starts to reset the threads that wait, in the end, for it. */
    method AwaitTable(th: nat, table: nat) returns (suspended: bool)
      requires Acyclic(waitingFor) && th !in resetting && (th in awaits ==> awaits[th] == table)
      requires table in computes && table !in completed
      modifies this`waitingFor, this`tmpNext, this`resetting, this`resetTable, this`awaits
      modifies this`waitingTable, this`numDeadlocks, this`numSuspends
      ensures var owner := computes[table];
        && Acyclic(waitingFor) && (suspended <==> !Reach(old(waitingFor), owner, th))
        && waitingFor == (if suspended then old(waitingFor)[th := owner] else Clear(old(waitingFor), owner, th))
        && awaits == (if suspended then old(awaits)[th := table] else old(awaits) - {th})
        && waitingTable == (if suspended then old(waitingTable)[th := table] else old(waitingTable))
        && resetting == (if suspended then old(resetting) else old(resetting)[th := owner])
        && resetTable == (if suspended then old(resetTable) else old(resetTable)[th := table])
        && if suspended then tmpNext == old(tmpNext)
           else WayCleared(old(tmpNext), tmpNext, old(waitingFor), waitingFor, owner, th) && Reach(tmpNext, owner, th)
    {
      var owner := computes[table];
      var dead := WouldDeadlock(owner, th);
      if dead {
        BeginReset(th, owner);
        resetTable := resetTable[th := table];
        awaits := awaits - {th};
        return false;
      }
      waitingTable := waitingTable[th := table];
      Suspend(th, owner);
      awaits := awaits[th := table];
      return true;
    }

    /** The first part of a reset, under the mutex: exactly the waits on the way from the owner to the
        thread are cleared, so that no thread on the way has a recorded wait, and the way is kept in the
        contexts. */
    method BeginReset(th: nat, owner: nat)
      requires Acyclic(waitingFor) && Reach(waitingFor, owner, th)
      modifies this`waitingFor, this`tmpNext, this`resetting
      ensures Acyclic(waitingFor) && waitingFor == Clear(old(waitingFor), owner, th)
      ensures resetting == old(resetting)[th := owner]
      ensures WayCleared(old(tmpNext), tmpNext, old(waitingFor), waitingFor, owner, th)
      ensures Reach(tmpNext, owner, th)
    {
      ghost var w, links := waitingFor, tmpNext;
      var tmp := owner;
      while tmp != th
        invariant Reach(waitingFor, tmp, th) && Acyclic(waitingFor)
        invariant Clear(waitingFor, tmp, th) == Clear(old(waitingFor), owner, th)
        invariant resetting == old(resetting) && Kept(old(tmpNext), tmpNext, old(waitingFor), waitingFor)
        decreases |waitingFor|
      {
        if tmp !in waitingFor {
          ReachEnd(waitingFor, tmp, th);
        }
        WayAhead(waitingFor, tmp, th);
        AcyclicSub(waitingFor - {tmp}, waitingFor);
        assert (waitingFor - {tmp}).Keys == waitingFor.Keys - {tmp};
        tmpNext := tmpNext[tmp := waitingFor[tmp]];
        waitingFor := waitingFor - {tmp};
        tmp := tmpNext[tmp];
      }
      resetting := resetting[th := owner];
      forall x: nat ensures OnWay(w, owner, th, x) <==> x in w && x !in waitingFor {
        ClearedIff(w, owner, th, x);
      }
      ghost var n: nat :| Leads(w, owner, th, n);
      assert Leads(w, owner, owner, 0);
      LinksLead(links, tmpNext, w, waitingFor, owner, th, owner, n);
    }

    /** The tables that the thread `tmp` loses in a reset by way of `table`: `group`, the part of its
        completion stack down to the leader, unless the table has been taken from it meanwhile. */
    predicate CanTake(tmp: nat, table: nat, group: set<nat>, leader: nat)
      reads this`computes
    {
      if table in computes && computes[table] == tmp then
        table in group && leader in group && forall t :: t in group ==> t in computes && computes[t] == tmp
      else group == {}
    }

    /** The thread `tmp` is put back to the leader of its table, and loses its tables that are not
        completed; `nextTable` is what its context is to say that it waits for. */
    method ResetThread(th: nat, tmp: nat, table: nat, group: set<nat>, leader: nat)
      requires CanTake(tmp, table, group, leader) && tmp in waitingTable
      modifies this`computes, this`waitingTable
      ensures computes == map t | t in old(computes) :: if t in group && t !in completed then th else old(computes)[t]
      ensures waitingTable == if group == {} then old(waitingTable) else old(waitingTable)[tmp := leader]
    {
      if table in computes && computes[table] == tmp {
        computes := map t | t in computes :: if t in group && t !in completed then th else computes[t];
        waitingTable := waitingTable[tmp := leader];
      } else {
        assert computes == map t | t in computes :: if t in group && t !in completed then th else computes[t];
      }
    }

    /** One step of the second part, which runs without the mutex: the next thread on the way loses
        its tables, and is made to wait for the resetting thread. That keeps the waits acyclic
        exactly when the resetting thread does not lead to it, which is so if it has no recorded
        wait itself. */
    method ResetOne(th: nat, group: set<nat>, leader: nat)
      requires Acyclic(waitingFor) && th in resetting && resetting[th] != th
      requires resetting[th] in tmpNext && th in resetTable
      requires CanTake(resetting[th], resetTable[th], group, leader)
      requires resetting[th] in waitingTable
      modifies this`waitingFor, this`resetting, this`resetTable, this`computes, this`waitingTable
      ensures waitingFor == old(waitingFor)[old(resetting)[th] := th]
      ensures Acyclic(waitingFor) <==> !Reach(old(waitingFor), th, old(resetting)[th])
      ensures th !in old(waitingFor) ==> Acyclic(waitingFor)
      ensures computes == map t | t in old(computes) :: if t in group && t !in completed then th else old(computes)[t]
      ensures waitingTable == if group == {} then old(waitingTable) else old(waitingTable)[old(resetting)[th] := leader]
      ensures resetting == old(resetting)[th := tmpNext[old(resetting)[th]]]
      ensures resetTable == old(resetTable)[th := old(waitingTable)[old(resetting)[th]]]
    {
      var tmp := resetting[th];
      var nextTable := waitingTable[tmp];
      ResetThread(th, tmp, resetTable[th], group, leader);
      resetTable := resetTable[th := nextTable];
      NewWait(waitingFor, tmp, th);
      if th !in waitingFor {
        ReachEnd(waitingFor, th, tmp);
      }
      waitingFor := waitingFor[tmp := th];
      resetting := resetting[th := tmpNext[tmp]];
    }

    /** The reset ends when the way is back at the resetting thread. */
    method EndReset(th: nat)
      requires th in resetting && resetting[th] == th
      modifies this`resetting
      ensures resetting == old(resetting) - {th}
    {
      resetting := resetting - {th};
    }
  }

  /** On a cycle the deadlock test never ends: there is always a next thread. */
  lemma {:induction false} CycleForever(w: Waits, a: nat, n: nat, k: nat)
    requires n > 0 && Leads(w, a, a, n)
    ensures exists x :: Leads(w, a, x, k) && x in w
    decreases k
  {
    if k == 0 {
      assert Leads(w, a, a, k) && a in w;
    } else {
      CycleForever(w, a, n, k - 1);
      var x :| Leads(w, a, x, k - 1) && x in w;
      var one: nat := 1;
      assert Leads(w, x, w[x], one);
      LeadsMore(w, a, x, w[x], k - 1, one);
      OnCycle(w, a, n, w[x], k);
    }
  }

  /** Every thread reached from a cycle waits for another. */
  lemma {:induction false} OnCycle(w: Waits, a: nat, n: nat, x: nat, k: nat)
    requires n > 0 && Leads(w, a, a, n) && Leads(w, a, x, k)
    ensures x in w
    decreases k
  {
    if k > n {
      Suffix(w, a, a, x, n, k);
      OnCycle(w, a, n, x, k - n);
    } else {
      Suffix(w, a, x, a, k, n);
      if k == n {
        Suffix(w, a, a, x, n, n);
      }
    }
  }

  /** The tables of the run below, named by their numbers. */
  const T: nat := 10
  const U: nat := 20
  const V: nat := 30

  /** Threads 1, 2 and 3 compute V, T and U. Thread 1 waits for T, and 2 for U. */
  method TwoWait() returns (threads: Threads)
    ensures fresh(threads) && threads.waitingFor == map[1 := 2, 2 := 3]
    ensures Acyclic(threads.waitingFor)
    ensures threads.computes == map[V := 1, T := 2, U := 3] && threads.completed == {}
    ensures threads.resetting == map[]
    ensures threads.awaits == threads.waitingTable == map[1 := T, 2 := U]
  {
    threads := new Threads();
    threads.NewTable(V, 1);
    threads.NewTable(T, 2);
    threads.NewTable(U, 3);
    ReachEnd(map[], 2, 1);
    var suspended := threads.AwaitTable(1, T);
    ReachEnd(map[1 := 2], 3, 2);
    suspended := threads.AwaitTable(2, U);
  }

  /** Thread 3 calls T, and finds the deadlock. */
  method FindDeadlock() returns (threads: Threads)
    ensures fresh(threads) && threads.waitingFor == map[1 := 2] && Acyclic(threads.waitingFor)
    ensures threads.computes == map[V := 1, T := 2, U := 3] && threads.completed == {}
    ensures threads.resetting == map[3 := 2] && 3 in threads.resetTable
    ensures threads.resetTable[3] == T
    ensures 2 in threads.tmpNext && threads.tmpNext[2] == 3
    ensures threads.awaits == threads.waitingTable == map[1 := T, 2 := U]
  {
    threads := TwoWait();
    var w: Waits := map[1 := 2, 2 := 3];
    ReachStep(w, 2, 3);
    assert Leads(w, 3, 3, 0);
    var suspended := threads.AwaitTable(3, T);
    assert threads.waitingFor == map[1 := 2] by {
      assert Clear(w - {2}, 3, 3) == w - {2} == map[1 := 2];
    }
    assert 2 in w;
  }

  /** It resets thread 2, so that T is 3's. */
  method TakeOver() returns (threads: Threads)
    ensures fresh(threads) && threads.waitingFor == map[1 := 2, 2 := 3]
    ensures Acyclic(threads.waitingFor)
    ensures threads.computes == map[V := 1, T := 3, U := 3] && threads.completed == {}
    ensures threads.resetting == map[]
    ensures threads.awaits == map[1 := T, 2 := U] && 3 !in threads.waitingTable
  {
    threads := FindDeadlock();
    threads.ResetOne(3, {T}, T);
    threads.EndReset(3);
  }

  /** A reset by a thread that still has a recorded wait, left over from before it was woken, can
      close a cycle. After the take-over U is completed, and 2 goes on; 3 waits for V, which 1
      computes; 1 is woken, and finds that T is now computed by 3, which waits for it; while 1
      resets 3, thread 2 suspends for T. */
  method StaleWait() returns (threads: Threads)
    ensures threads.waitingFor == map[1 := 2, 2 := 3, 3 := 1] && !Acyclic(threads.waitingFor)
  {
    threads := TakeOver();
    threads.Complete(U, 3);
    threads.Resume(2);
    assert threads.waitingFor == map[1 := 2];
    ReachStep(map[1 := 2], 1, 3);
    ReachEnd(map[1 := 2], 2, 3);
    var suspended := threads.AwaitTable(3, V);
    var v: Waits := map[1 := 2, 3 := 1];
    assert threads.waitingFor == v;
    ReachStep(v, 3, 1);
    assert Leads(v, 1, 1, 0);
    suspended := threads.AwaitTable(1, T);
    assert threads.waitingFor == map[1 := 2] by {
      assert Clear(v - {3}, 1, 1) == v - {3} == map[1 := 2];
    }
    ReachEnd(map[1 := 2], 3, 2);
    suspended := threads.AwaitTable(2, T);
    var w: Waits := map[1 := 2, 2 := 3];
    assert threads.waitingFor == w;
    ReachStep(w, 1, 3);
    ReachStep(w, 2, 3);
    assert Leads(w, 3, 3, 0) && 3 in v && 3 in threads.tmpNext;
    threads.ResetOne(1, {T}, T);
  }
}
