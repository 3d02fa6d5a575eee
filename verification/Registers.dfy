/** The register allocator of the clause compiler: a free list threaded through the array that
    also records what each register is used for. */
module Registers {
  import opened Sequences

  const MAX_REGS: nat := 257

  const RVAR := -1
  const TVAR := -2
  const NVAR := -3

  /** Used for a variable of the clause, for a subterm still to be processed, or by an argument. */
  datatype Use = RealVar | TempVar | Argument

  function Code(u: Use): int {
    match u
    case RealVar => RVAR
    case TempVar => TVAR
    case Argument => NVAR
  }

  /** The registers 0 to `size`, all of them arguments. */
  function Arguments(size: nat): (m: map<nat, Use>)
    ensures forall r: nat {:trigger r in m} :: r in m <==> r <= size
    ensures forall r {:trigger m[r]} :: r in m ==> m[r] == Argument
    ensures |m| == size + 1
  {
    if size == 0 then map[0 := Argument] else Arguments(size - 1)[size := Argument]
  }

  ghost predicate IsArgument(r: nat, uses: map<nat, Use>) {
    r in uses && uses[r] == Argument
  }

  lemma CardMinus(m: map<nat, Use>, r: nat)
    requires r in m
    ensures |m| == |m - {r}| + 1
  {
    assert m == (m - {r})[r := m[r]];
  }

  class RegStat {
    const regArray: array<int>
    var freeReg: nat
    /** The registers up to this one are the arguments'. */
    ghost const size: nat
    /** The registers in use. */
    ghost var uses: map<nat, Use>
    /** The free list; its last register and all above it have never been used. */
    ghost var free: seq<nat>

    ghost predicate Valid()
      reads this, regArray
    {
      && regArray.Length == MAX_REGS
      && |free| > 0 && freeReg == free[0]
      && (forall i :: 0 <= i < |free| ==> 0 < free[i] < MAX_REGS && free[i] !in uses)
      && (forall i {:trigger regArray[free[i]]} :: 0 <= i < |free| - 1 ==> regArray[free[i]] == free[i + 1])
      && (forall i {:trigger free[i]} :: 0 <= i < |free| - 1 ==> free[i] < free[|free| - 1])
      && regArray[free[|free| - 1]] == 0
      && Distinct(free)
      && 0 in uses && uses[0] == Argument
      && (forall r: nat {:trigger IsArgument(r, uses)} :: r <= size ==> IsArgument(r, uses))
      && MAX_REGS - 1 - free[|free| - 1] + |free| - 1 + |uses| == MAX_REGS - 1
      && (forall r ::
          r in uses ==> r < free[|free| - 1] && regArray[r] == Code(uses[r]) && (uses[r] == TempVar ==> r > 0))
    }

    /** How many more registers can be handed out. */
    ghost function Room(): (n: nat)
      requires Valid()
      reads this, regArray
    {
      (MAX_REGS - 1 - free[|free| - 1]) + (|free| - 1)
    }

    /** An argument register in use, besides register 0, is not to be handed out. */
    lemma RoomTaken(r: nat)
      requires Valid() && r in uses && r > 0
      ensures Room() <= MAX_REGS - 3
    {
      assert |uses| == |uses - {r}| + 1 && |uses - {r}| == |uses - {r} - {0}| + 1 by {
        CardMinus(uses, r);
        CardMinus(uses - {r}, 0);
      }
    }

    /** All registers up to `size` hold arguments. */
    constructor (size: nat)
      requires size + 1 < MAX_REGS
      ensures Valid() && fresh(regArray)
      ensures uses == Arguments(size) && this.size == size
      ensures Room() == MAX_REGS - 2 - size
    {
      this.size := size;
      regArray := new int[MAX_REGS];
      freeReg := size + 1;
      free := [size + 1];
      uses := Arguments(size);
      new;
      var i := 0;
      while i < freeReg
        invariant 0 <= i <= freeReg == size + 1 && free == [size + 1]
        invariant uses == Arguments(size)
        invariant forall r :: 0 <= r < i ==> regArray[r] == NVAR
      {
        regArray[i] := NVAR;
        i := i + 1;
      }
      regArray[freeReg] := 0;
    }

    /** Takes a register off the free list; fails when none is left. */
    method Get(use: Use) returns (ok: bool, r: nat)
      requires Valid()
      modifies this, regArray
      ensures ok <==> old(Room()) > 0
      ensures ok ==> Valid() && Room() == old(Room()) - 1
      ensures ok ==> 0 < r < MAX_REGS && r !in old(uses) && uses == old(uses)[r := use]
    {
      assert |free| > 1 ==> regArray[free[0]] == free[1] > 0;
      r := freeReg;
      if regArray[freeReg] == 0 {
        freeReg := freeReg + 1;
        if freeReg >= MAX_REGS {
          return false, r;
        }
        regArray[freeReg] := 0;
        free := [freeReg];
      } else {
        forall i | 0 <= i < |free| - 1 ensures free[1..][i] != r {
          assert Differ(free, 0, i + 1);
        }
        assert forall i, j :: Differ(free[1..], i, j) by {
          forall i, j ensures Differ(free[1..], i, j) {
            assert Differ(free, i + 1, j + 1);
          }
        }
        freeReg := regArray[freeReg];
        free := free[1..];
      }
      regArray[r] := Code(use);
      uses := uses[r := use];
      assert forall x: nat {:trigger IsArgument(x, uses)} :: IsArgument(x, old(uses)) ==> IsArgument(x, uses);
      ok := true;
    }

    /** Puts a register back on the free list if it held an unprocessed subterm. */
    method Release(r: nat)
      requires Valid() && r in uses
      modifies this, regArray
      ensures Valid()
      ensures uses == if old(uses[r]) == TempVar then old(uses) - {r} else old(uses)
      ensures Room() == if old(uses[r]) == TempVar then old(Room()) + 1 else old(Room())
    {
      if regArray[r] == TVAR {
        regArray[r] := freeReg;
        freeReg := r;
        forall i, j ensures Differ([r] + free, i, j) {
          assert Differ(free, i - 1, j - 1);
        }
        free := [r] + free;
        CardMinus(uses, r);
        uses := uses - {r};
        assert forall x: nat {:trigger IsArgument(x, uses)} :: IsArgument(x, old(uses)) ==> IsArgument(x, uses);
      }
    }
  }
}
