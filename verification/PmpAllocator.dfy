/**
 `PMPSlotAllocator` (library/pmpm/src/bitmap.rs) as an object: the loops of `alloc` and `free` over the
 shared bitmap. What other callers write between a load and its compare-exchange is a parameter:
 `others[n]` is the bitmap that the compare-exchange of attempt `n` finds.
 */
module PmpAllocator {
  import opened Bits
  import opened PmpSlots

  predicate Words(c: Config, others: seq<nat>) {
    forall n | 0 <= n < |others| :: others[n] < Pow2(c.w)
  }

  /** The bitmap that attempt `n` loads, when all earlier ones failed. */
  function Loaded(first: nat, others: seq<nat>, n: nat): nat
    requires n <= |others|
  {
    if n == 0 then first else others[n - 1]
  }

  datatype Query = OutOfRange | Answer(yes: bool)

  class PMPSlotAllocator {
    const c: Config
    const manageMask: nat
    var pmpSlots: nat

    ghost predicate Valid()
      reads this
    {
      c.Valid() && pmpSlots < Pow2(c.w)
    }

    constructor (w: nat, allocMask: nat, manage: nat)
      requires w >= MAX_PMP_ENTRY_COUNT && allocMask < Pow2(w)
      ensures Valid() && c == Config(w, allocMask) && manageMask == manage && pmpSlots == 0
    {
      c := Config(w, allocMask);
      manageMask, pmpSlots := manage, 0;
    }

    /**
     The attempts before the last failed because the bitmap had changed. The last one either found no
     free slot, or took the lowest slot that was free at its compare-exchange.
     */
    method Alloc(others: seq<nat>) returns (r: Outcome, attempts: nat)
      requires Valid() && Words(c, others)
      modifies `pmpSlots
      ensures Valid() && attempts <= |others|
      ensures forall n | 0 <= n < attempts :: others[n] != Loaded(old(pmpSlots), others, n)
      ensures var cur := Loaded(old(pmpSlots), others, attempts);
              match r
              case NoFreeSlot => AllTaken(c, cur) && pmpSlots == cur
              case Allocated(idx) => LowestFree(c, cur, idx) && BitChanged(cur, idx, true, pmpSlots)
              case _ => false
    {
      attempts := 0;
      while true
        invariant attempts <= |others| && Valid()
        invariant pmpSlots == Loaded(old(pmpSlots), others, attempts)
        invariant forall n | 0 <= n < attempts :: others[n] != Loaded(old(pmpSlots), others, n)
        decreases |others| - attempts
      {
        var cur := pmpSlots;
        AllocTakesLowest(c, cur);
        var available := And(Not(c.w, cur), c.mask);
        if available == 0 { return NoFreeSlot, attempts; }
        var idx := TrailingZeros(c.w, available);
        var bitmap := Or(cur, Pow2(idx));
        if attempts < |others| { pmpSlots := others[attempts]; }
        if pmpSlots == cur {
          pmpSlots := bitmap;
          return Allocated(idx), attempts;
        }
        attempts := attempts + 1;
      }
    }

    /** The same for `free`: it refuses when slot `idx & 15` is not allocated, or clears exactly that slot. */
    method Free(idx: nat, others: seq<nat>) returns (r: Outcome, attempts: nat)
      requires Valid() && Words(c, others)
      modifies `pmpSlots
      ensures Valid() && attempts <= |others|
      ensures forall n | 0 <= n < attempts :: others[n] != Loaded(old(pmpSlots), others, n)
      ensures var cur, slot := Loaded(old(pmpSlots), others, attempts), SlotOf(idx);
              if Bit(cur, slot) && Bit(c.mask, slot)
              then r == Freed && BitChanged(cur, slot, false, pmpSlots)
              else r == IndexOutOfRange && pmpSlots == cur
    {
      SlotBelow(c, idx);
      var freeSlot := Pow2(And(idx, MAX_PMP_ENTRY_COUNT - 1));
      attempts := 0;
      while true
        invariant attempts <= |others| && Valid()
        invariant pmpSlots == Loaded(old(pmpSlots), others, attempts)
        invariant forall n | 0 <= n < attempts :: others[n] != Loaded(old(pmpSlots), others, n)
        decreases |others| - attempts
      {
        var cur := pmpSlots;
        FreeClearsSlot(c, cur, idx);
        if And(And(cur, freeSlot), c.mask) == 0 { return IndexOutOfRange, attempts; }
        var bitmap := And(cur, Not(c.w, freeSlot));
        if attempts < |others| { pmpSlots := others[attempts]; }
        if pmpSlots == cur {
          pmpSlots := bitmap;
          return Freed, attempts;
        }
        attempts := attempts + 1;
      }
    }

    /** Is slot `idx & 15` allocated? An error when the allocator does not hand that slot out. */
    method IsAlloc(idx: nat) returns (r: Query)
      requires Valid()
      ensures r == if Bit(c.mask, SlotOf(idx)) then Answer(Bit(pmpSlots, SlotOf(idx))) else OutOfRange
    {
      var slot := And(idx, MAX_PMP_ENTRY_COUNT - 1);
      MeetsBit(slot, c.mask);
      if And(Pow2(slot), c.mask) == 0 { return OutOfRange; }
      MeetsBit(slot, pmpSlots);
      r := Answer(And(Pow2(slot), pmpSlots) != 0);
    }

    /** Does this allocator manage slot `idx`? Shifting by the width of the bitmap or more is a panic. */
    method IsManaged(idx: nat) returns (r: Query)
      ensures r == if idx < c.w then Answer(Bit(manageMask, idx)) else OutOfRange
    {
      if idx >= c.w { return OutOfRange; }
      MeetsBit(idx, manageMask);
      r := Answer(And(Pow2(idx), manageMask) != 0);
    }
  }

  lemma MeetsBit(idx: nat, x: nat)
    ensures And(Pow2(idx), x) != 0 <==> Bit(x, idx)
  {
    var r := And(Pow2(idx), x);
    forall k: nat ensures Bit(r, k) == (k == idx && Bit(x, k)) {
      AndBit(Pow2(idx), x, k);
      Pow2Bit(idx, k);
    }
    if r == 0 { ZeroBit(idx); } else { var k := SomeBit(r); }
  }
}
