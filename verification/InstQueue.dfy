/** The instruction queue of the clause compiler: a ring of fixed size that grows and shrinks at
    both ends. */
module InstQueue {

  const INST_QUEUE_SIZE: nat := 256

  /** The slot i places after `from`. */
  function Slot(from: nat, i: nat): (k: nat)
    requires from < INST_QUEUE_SIZE && i < INST_QUEUE_SIZE
    ensures k < INST_QUEUE_SIZE
  {
    if from + i < INST_QUEUE_SIZE then from + i else from + i - INST_QUEUE_SIZE
  }

  class Queue<T(0)> {
    const slots: array<T>
    var top: nat
    var bottom: nat
    /** How many entries have been added at the bottom since the last rotation. */
    var added: int
    /** The entries from bottom to top. */
    ghost var entries: seq<T>

    ghost predicate Valid()
      reads this, slots
    {
      && slots.Length == INST_QUEUE_SIZE && top < INST_QUEUE_SIZE && bottom < INST_QUEUE_SIZE
      && |entries| < INST_QUEUE_SIZE && top == Slot(bottom, |entries|)
      && forall i {:trigger entries[i]} :: 0 <= i < |entries| ==> entries[i] == slots[Slot(bottom, i)]
    }

    constructor ()
      ensures Valid() && fresh(slots) && entries == [] && bottom == 10
    {
      slots := new T[INST_QUEUE_SIZE];
      top, bottom := 10, 10;
      added := 0;
      entries := [];
    }

    predicate IsEmpty()
      requires Valid()
      reads this, slots
      ensures IsEmpty() <==> entries == []
    {
      top == bottom
    }

    /** Adds an entry at the top; fails on overflow. */
    method Push(x: T) returns (ok: bool)
      requires Valid()
      modifies this, slots
      ensures ok <==> |old(entries)| < INST_QUEUE_SIZE - 1
      ensures ok ==> Valid() && entries == old(entries) + [x] && bottom == old(bottom) && added == old(added)
    {
      slots[top] := x;
      top := (top + 1) % INST_QUEUE_SIZE;
      ok := top != bottom;
      if ok {
        entries := entries + [x];
      }
    }

    /** Takes the entry at the top. */
    method Pop() returns (x: T)
      requires Valid() && entries != []
      modifies this
      ensures Valid() && old(entries) == entries + [x] && bottom == old(bottom)
      ensures added == old(added)
    {
      if top == 0 {
        top := INST_QUEUE_SIZE;
      }
      top := top - 1;
      x := slots[top];
      entries := entries[..|entries| - 1];
    }

    /** Takes the entry at the bottom. */
    method Rem() returns (x: T)
      requires Valid() && entries != []
      modifies this
      ensures Valid() && old(entries) == [x] + entries && added == old(added)
      ensures bottom == Slot(old(bottom), 1)
    {
      x := slots[bottom];
      bottom := (bottom + 1) % INST_QUEUE_SIZE;
      entries := entries[1..];
      assert forall i :: 0 <= i < |entries| ==> entries[i] == old(entries)[i + 1];
    }

    /** Adds an entry at the bottom; fails on overflow. */
    method Add(x: T) returns (ok: bool)
      requires Valid()
      modifies this, slots
      ensures ok <==> |old(entries)| < INST_QUEUE_SIZE - 1
      ensures ok ==> Valid() && entries == [x] + old(entries) && added == old(added) + 1
    {
      if bottom == 0 {
        bottom := INST_QUEUE_SIZE;
      }
      bottom := bottom - 1;
      if top == bottom {
        return false;
      }
      slots[bottom] := x;
      added := added + 1;
      entries := [x] + entries;
      ok := true;
    }

    /** Moves the entries added at the bottom to the top, so that the first added is on top. */
    method Rotate() returns (ok: bool)
      requires Valid() && 0 <= added <= |entries|
      modifies this, slots
      ensures ok && Valid()
      ensures entries == old(entries[added..] + entries[..added]) && added == -1
    {
      ghost var was, k := entries, 0;
      ok := true;
      while added > 0
        invariant ok && Valid() && added >= 0 && k + added == old(added)
        invariant entries == was[k..] + was[..k]
      {
        added := added - 1;
        ghost var rest := was[k + 1..] + was[..k];
        assert was[k..] + was[..k] == [was[k]] + rest;
        var x := Rem();
        assert ([x] + entries)[1..] == entries && ([was[k]] + rest)[1..] == rest;
        ok := Push(x);
        assert was[..k + 1] == was[..k] + [was[k]];
        k := k + 1;
      }
      added := -1;
    }
  }
}
