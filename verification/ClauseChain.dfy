/** The doubly linked chains of clauses, index blocks and index entries, whose instruction words
    say where in the chain they stand. */
module ClauseChain {
  import opened Sequences

  datatype Opcode = DynNoop | TryMeElse | DynTryMeElse | DynRetryMeElse | DynTrustMeElseFail

  /** What a prev or next word points to: the header at either end, or another element. */
  datatype Link = ToHeader(header: Chain) | ToElem(elem: Elem)

  /** An element of a chain: the three words every element starts with. */
  class Elem {
    var prev: Link
    var opcode: Opcode
    var next: Link

    constructor (h: Chain)
      ensures opcode == DynNoop
    {
      prev, next, opcode := ToHeader(h), ToHeader(h), DynNoop;
    }
  }

  /** The instruction says whether the element is alone, first, in the middle or last. */
  predicate Fits(op: Opcode, i: nat, n: nat) {
    if n == 1 then op == DynNoop
    else if i == 0 then op == TryMeElse || op == DynTryMeElse
    else if i == n - 1 then op == DynTrustMeElseFail
    else op == DynRetryMeElse
  }

  /** Puts `c` before the first element of a chain; the header is the caller's to change. */
  method PrefixToChain(ifSOB: bool, first: Elem, c: Elem)
    requires first != c && first.opcode in {DynNoop, DynTryMeElse, TryMeElse}
    modifies first`prev, first`opcode, c
    ensures c.opcode == (if ifSOB then TryMeElse else DynTryMeElse) && c.next == ToElem(first)
    ensures c.prev == old(first.prev)
    ensures first.opcode == (if old(first.opcode) == DynNoop then DynTrustMeElseFail else DynRetryMeElse)
    ensures first.prev == ToElem(c)
  {
    c.opcode := if ifSOB then TryMeElse else DynTryMeElse;
    c.next := ToElem(first);
    if first.opcode == DynNoop {
      first.opcode := DynTrustMeElseFail;
    } else if first.opcode == DynTryMeElse || first.opcode == TryMeElse {
      first.opcode := DynRetryMeElse;
    }
    c.prev := first.prev;
    first.prev := ToElem(c);
  }

  /** Puts `c` after the last element of a chain; the header is the caller's to change. */
  method AppendToChain(last: Elem, c: Elem)
    requires last != c && last.opcode in {DynNoop, DynTrustMeElseFail}
    modifies last`next, last`opcode, c
    ensures c.opcode == DynTrustMeElseFail && c.next == old(last.next) && c.prev == ToElem(last)
    ensures last.opcode == (if old(last.opcode) == DynNoop then DynTryMeElse else DynRetryMeElse)
    ensures last.next == ToElem(c)
  {
    c.opcode := DynTrustMeElseFail;
    c.next := last.next;
    c.prev := ToElem(last);
    if last.opcode == DynNoop {
      last.opcode := DynTryMeElse;
      last.next := ToElem(c);
    } else if last.opcode == DynTrustMeElseFail {
      last.opcode := DynRetryMeElse;
      last.next := ToElem(c);
    }
  }

  /** Unlinks an element from its neighbours, and gives them the instructions for their new
      places; the header is the caller's to change. */
  method DeleteFromChain(op: Opcode, c: Elem)
    requires op == c.opcode
    requires op in {TryMeElse, DynTryMeElse, DynRetryMeElse} ==> c.next.ToElem? && c.next.elem != c
    requires op in {DynRetryMeElse, DynTrustMeElseFail} ==> c.prev.ToElem? && c.prev.elem != c
    requires op == DynRetryMeElse ==> c.prev.elem != c.next.elem
    modifies if op in {TryMeElse, DynTryMeElse, DynRetryMeElse} then {c.next.elem} else {}
    modifies if op in {DynRetryMeElse, DynTrustMeElseFail} then {c.prev.elem} else {}
    ensures op in {TryMeElse, DynTryMeElse, DynRetryMeElse} ==>
              c.next.elem.prev == c.prev && c.next.elem.next == old(c.next.elem.next)
    ensures op in {DynRetryMeElse, DynTrustMeElseFail} ==>
              c.prev.elem.next == c.next && c.prev.elem.prev == old(c.prev.elem.prev)
    ensures op == DynRetryMeElse ==>
      c.next.elem.opcode == old(c.next.elem.opcode) && c.prev.elem.opcode == old(c.prev.elem.opcode)
    ensures op in {TryMeElse, DynTryMeElse} ==>
              c.next.elem.opcode == if old(c.next.elem.opcode) == DynRetryMeElse then op else DynNoop
    ensures op == DynTrustMeElseFail ==>
              c.prev.elem.opcode == if old(c.prev.elem.opcode) == DynRetryMeElse then DynTrustMeElseFail else DynNoop
  {
    match op
    case DynNoop =>
    case TryMeElse =>
      var next := c.next.elem;
      next.prev := c.prev;
      next.opcode := if next.opcode == DynRetryMeElse then TryMeElse else DynNoop;
    case DynTryMeElse =>
      var next := c.next.elem;
      next.prev := c.prev;
      next.opcode := if next.opcode == DynRetryMeElse then DynTryMeElse else DynNoop;
    case DynRetryMeElse =>
      c.next.elem.prev := c.prev;
      c.prev.elem.next := c.next;
    case DynTrustMeElseFail =>
      var prev := c.prev.elem;
      prev.next := c.next;
      prev.opcode := if prev.opcode == DynRetryMeElse then DynTrustMeElseFail else DynNoop;
  }

  /** The header of a chain: a predicate reference, or the part of an index block that works as
      one. `empty` is its instruction: fail when there is nothing to jump to. */
  class Chain {
    var empty: bool
    var first: Link
    var last: Link
    ghost var elems: seq<Elem>

    ghost predicate At(i: nat)
      requires i < |elems|
      reads this, elems[i]
    {
      && elems[i].prev == (if i == 0 then ToHeader(this) else ToElem(elems[i - 1]))
      && elems[i].next == (if i == |elems| - 1 then ToHeader(this) else ToElem(elems[i + 1]))
      && Fits(elems[i].opcode, i, |elems|)
    }

    ghost predicate Valid()
      reads this, elems
    {
      && Distinct(elems)
      && (empty <==> elems == [])
      && first == (if elems == [] then ToHeader(this) else ToElem(elems[0]))
      && last == (if elems == [] then ToHeader(this) else ToElem(elems[|elems| - 1]))
      && forall i {:trigger At(i)} :: 0 <= i < |elems| ==> At(i)
    }

    /** The instruction of the first element. */
    ghost function First(): Opcode
      reads this, elems
    {
      if elems == [] then DynNoop else elems[0].opcode
    }

    constructor ()
      ensures Valid() && elems == []
    {
      empty, first, last, elems := true, ToHeader(this), ToHeader(this), [];
    }

    /** The first element of a chain. */
    method AddFirst(c: Elem)
      requires Valid() && elems == []
      modifies this, c
      ensures Valid() && elems == [c]
    {
      c.opcode := DynNoop;
      c.next := ToHeader(this);
      empty := false;
      first := ToElem(c);
      last := ToElem(c);
      c.prev := ToHeader(this);
      elems := [c];
      assert At(0);
    }

    method Prefix(c: Elem, ifSOB: bool)
      requires Valid() && c !in elems && elems != []
      modifies this, elems, c
      ensures Valid() && elems == [c] + old(elems)
      ensures c.opcode == if ifSOB then TryMeElse else DynTryMeElse
    {
      assert At(0);
      PrefixToChain(ifSOB, first.elem, c);
      first := ToElem(c);
      elems := [c] + elems;
      DistinctCons(c, old(elems));
      forall i | 0 <= i < |elems| ensures At(i) {
        assert i > 0 ==> old(At(i - 1)) && elems[i] == old(elems)[i - 1];
        assert Differ(old(elems), 0, i - 1);
      }
    }

    method Append(c: Elem, end: Elem)
      requires Valid() && c !in elems && elems != [] && end == elems[|elems| - 1]
      modifies this, elems, c
      ensures Valid() && elems == old(elems) + [c]
      ensures elems[0].opcode == if |old(elems)| == 1 then DynTryMeElse else old(elems[0].opcode)
    {
      assert At(0) && At(|elems| - 1) && Differ(elems, 0, |elems| - 1);
      AppendToChain(end, c);
      last := ToElem(c);
      elems := elems + [c];
      DistinctSnoc(old(elems), c);
      forall i | 0 <= i < |elems| ensures At(i) {
        assert i < |elems| - 1 ==> old(At(i)) && elems[i] == old(elems)[i];
        assert Differ(old(elems), i, |elems| - 2);
      }
    }

    /** Adds an element to the chain, at its beginning when `az` is 0, and else at its end. */
    method AddBuff(c: Elem, az: int, ifSOB: bool)
      requires Valid() && c !in elems
      modifies this, elems, c
      ensures Valid() && elems == if az == 0 then [c] + old(elems) else old(elems) + [c]
      ensures old(elems) != [] ==>
        First() ==
          if az != 0 && |old(elems)| > 1 then old(First()) else if az == 0 && ifSOB then TryMeElse else DynTryMeElse
    {
      if empty {
        AddFirst(c);
      } else if az == 0 {
        Prefix(c, ifSOB);
      } else {
        Append(c, last.elem);
      }
    }

    /** The same for the chain of a hash bucket, whose end is found by its instruction word. */
    method AddToHashchain(c: Elem, az: int)
      requires Valid() && c !in elems
      modifies this, elems, c
      ensures Valid() && elems == if az == 0 then [c] + old(elems) else old(elems) + [c]
      ensures old(elems) != [] ==> First() == if az != 0 && |old(elems)| > 1 then old(First()) else DynTryMeElse
    {
      if empty {
        AddFirst(c);
      } else if az == 0 {
        Prefix(c, false);
      } else {
        var end := first.elem;
        ghost var i := 0;
        assert At(0);
        if end.opcode != DynNoop {
          while end.opcode != DynTrustMeElseFail
            invariant 0 <= i < |elems| && end == elems[i] && |elems| > 1 && At(i)
            decreases |elems| - i
          {
            assert At(i + 1);
            end := end.next.elem;
            i := i + 1;
          }
        }
        Append(c, end);
      }
    }

    /** Takes an element out of the chain. */
    method Delete(c: Elem, ghost k: nat)
      requires Valid() && k < |elems| && c == elems[k]
      modifies this, elems
      ensures Valid() && elems == Without(old(elems), k)
      ensures c.prev == old(c.prev) && c.next == old(c.next) && c.opcode == old(c.opcode)
      ensures |elems| > 1 ==> First() == old(First())
    {
      assert At(k) && (k > 0 ==> At(k - 1)) && (k + 1 < |elems| ==> At(k + 1));
      assert Differ(elems, k, k + 1) && Differ(elems, k - 1, k) && Differ(elems, k - 1, k + 1);
      var op := c.opcode;
      DeleteFromChain(op, c);
      match op {
        case DynNoop =>
          empty := true;
          first, last := ToHeader(this), ToHeader(this);
        case DynTryMeElse | TryMeElse =>
          first := c.next;
        case DynTrustMeElseFail =>
          last := c.prev;
        case DynRetryMeElse =>
      }
      elems := Without(elems, k);
      if |elems| > 1 {
        assert old(At(0)) && old(At(1)) && Differ(old(elems), 0, k) && Differ(old(elems), 0, k + 1);
        assert elems[0] == old(elems)[if k == 0 then 1 else 0];
      }
      DistinctWithout(old(elems), k);
      forall i | 0 <= i < |elems| ensures At(i) {
        var j := if i < k then i else i + 1;
        assert old(At(j)) && elems[i] == old(elems)[j];
        assert Differ(old(elems), j, k - 1) && Differ(old(elems), k - 1, j);
        assert Differ(old(elems), j, k + 1) && Differ(old(elems), k + 1, j);
      }
    }
  }
}
