/**
 Hart masks (library/sbi-spec/src/binary) and the loops of the bench kernel that cut the
 secondary harts into as many masks as the register width asks for.
 The width `w` of a register is a parameter; `usize::MAX` is `Pow2(w) - 1`.
 */
module HartMasks {
  import opened Bits

  datatype HartMask = HartMask(mask: nat, base: nat)

  datatype InsertResult = Inserted(mask: HartMask) | InvalidBit

  function IgnoreBase(w: nat): nat { Pow2(w) - 1 }

  predicate ValidBit(w: nat, base: nat, bit: nat) {
    base <= bit && bit - base < w
  }

  predicate HasBit(w: nat, m: HartMask, hart: nat) {
    m.base == IgnoreBase(w) || (ValidBit(w, m.base, hart) && Bit(m.mask, hart - m.base))
  }

  function Insert(w: nat, m: HartMask, hart: nat): InsertResult {
    if m.base == IgnoreBase(w) then Inserted(m)
    else if ValidBit(w, m.base, hart) then Inserted(m.(mask := Or(m.mask, Pow2(hart - m.base))))
    else InvalidBit
  }

  /** A successful insertion adds the hart and nothing else; it fails on harts outside the window. */
  lemma InsertAdds(w: nat, m: HartMask, hart: nat, other: nat)
    requires m.base != IgnoreBase(w)
    ensures Insert(w, m, hart).Inserted? <==> m.base <= hart < m.base + w
    ensures Insert(w, m, hart).Inserted? ==>
              (HasBit(w, Insert(w, m, hart).mask, other) <==> other == hart || HasBit(w, m, other))
  {
    if ValidBit(w, m.base, hart) && ValidBit(w, m.base, other) {
      OrBit(m.mask, Pow2(hart - m.base), other - m.base);
      Pow2Bit(hart - m.base, other - m.base);
    }
  }

  /** The mask of all harts already has every hart, and every insertion leaves it as it is. */
  lemma InsertIntoAll(w: nat, m: HartMask, hart: nat)
    requires m.base == Pow2(w) - 1
    ensures Insert(w, m, hart) == Inserted(m) && HasBit(w, m, hart)
  {
  }

  // ----- what a receiver of a mask does with it -----

  /** The harts named by the `k` lowest bits of a mask, among `harts` harts, lowest first. */
  function HartsBelow(m: HartMask, harts: nat, k: nat): seq<nat> {
    if k == 0 then []
    else HartsBelow(m, harts, k - 1)
         + if Bit(m.mask, k - 1) && m.base + (k - 1) < harts then [m.base + (k - 1)] else []
  }

  /** All harts from `i` up to, not including, `n`. */
  function HartRange(i: nat, n: nat): seq<nat>
    decreases n - i
  {
    if i >= n then [] else [i] + HartRange(i + 1, n)
  }

  /** The harts that an SBI implementation with `harts` harts selects for a mask. */
  function Decode(w: nat, m: HartMask, harts: nat): seq<nat> {
    if m == HartMask(0, IgnoreBase(w)) then HartRange(0, harts) else HartsBelow(m, harts, w)
  }

  /** Some hart that the mask names has a number that the register cannot hold. */
  ghost predicate Overflows(w: nat, m: HartMask) {
    m != HartMask(0, IgnoreBase(w)) && exists k: nat :: k < w && Bit(m.mask, k) && m.base + k >= Pow2(w)
  }

  /**
   The mock `send_ipi`: `woken` is the sequence of harts that are unparked; `panicked` when the sum of
   the base and a bit offset overflows.
   */
  method SendIpi(w: nat, m: HartMask, harts: nat) returns (woken: seq<nat>, panicked: bool)
    ensures panicked <==> Overflows(w, m)
    ensures !panicked ==> woken == Decode(w, m, harts)
  {
    woken, panicked := [], false;
    if m == HartMask(0, IgnoreBase(w)) {
      var hart := 0;
      while hart < harts
        invariant 0 <= hart <= harts
        invariant woken + HartRange(hart, harts) == HartRange(0, harts)
      {
        woken := woken + [hart];
        hart := hart + 1;
      }
      return;
    }
    var bitOffset := 0;
    while bitOffset < w
      invariant 0 <= bitOffset <= w
      invariant woken == HartsBelow(m, harts, bitOffset)
      invariant forall k: nat | k < bitOffset && Bit(m.mask, k) :: m.base + k < Pow2(w)
    {
      if Bit(m.mask, bitOffset) {
        var hart := m.base + bitOffset;
        if hart >= Pow2(w) { return woken, true; }
        if hart < harts {
          woken := woken + [hart];
        }
      }
      bitOffset := bitOffset + 1;
    }
  }

  lemma {:induction false} HartsBelowMembers(m: HartMask, harts: nat, k: nat, hart: nat)
    ensures hart in HartsBelow(m, harts, k) <==>
            m.base <= hart < m.base + k && hart < harts && Bit(m.mask, hart - m.base)
  {
    if k > 0 { HartsBelowMembers(m, harts, k - 1, hart); }
  }

  /** The harts woken are those of which `has_bit` is true. */
  ghost predicate Agrees(w: nat, m: HartMask, harts: nat) {
    forall hart: nat | hart < harts :: hart in Decode(w, m, harts) <==> HasBit(w, m, hart)
  }

  lemma {:induction false} HartRangeMembers(i: nat, n: nat, hart: nat)
    ensures hart in HartRange(i, n) <==> i <= hart < n
    decreases n - i
  {
    if i < n { HartRangeMembers(i + 1, n, hart); }
  }

  /**
   Decoding agrees with the membership test of the mask exactly when the base is not `usize::MAX` or the
   mask is zero: with that base and any bit set, `has_bit` is true of every hart.
   */
  lemma DecodeIsHasBit(w: nat, m: HartMask, harts: nat)
    requires w > 0 && harts > 0
    ensures Agrees(w, m, harts) <==> m.base != IgnoreBase(w) || m.mask == 0
  {
    forall hart: nat
      ensures hart in HartsBelow(m, harts, w) <==>
              m.base <= hart < m.base + w && hart < harts && Bit(m.mask, hart - m.base)
      ensures hart in HartRange(0, harts) <==> hart < harts
    {
      HartsBelowMembers(m, harts, w, hart);
      HartRangeMembers(0, harts, hart);
    }
    if m.base == IgnoreBase(w) && m.mask != 0 {
      assert Pow2(w) >= 2;
      assert 0 !in Decode(w, m, harts) && HasBit(w, m, 0);
    }
  }

  // ----- cutting the secondary harts into masks -----

  /** The masks sent for harts `i..smp` when `m` is the mask under construction. */
  function BatchesFrom(w: nat, smp: nat, boot: nat, i: nat, m: HartMask): (masks: seq<HartMask>)
    decreases smp - i
  {
    if i >= smp then [m]
    else if i == boot then BatchesFrom(w, smp, boot, i + 1, m)
    else match Insert(w, m, i)
      case Inserted(m') => BatchesFrom(w, smp, boot, i + 1, m')
      case InvalidBit => [m] + BatchesFrom(w, smp, boot, i + 1, HartMask(1, i))
  }

  function Batches(w: nat, smp: nat, boot: nat): seq<HartMask> {
    BatchesFrom(w, smp, boot, 0, HartMask(0, 0))
  }

  /** The loop around `HartMask::insert`, as it stands in `rust_main` and in `send_ipi`. */
  method BuildBatches(w: nat, smp: nat, boot: nat) returns (sent: seq<HartMask>)
    ensures sent == Batches(w, smp, boot)
  {
    sent := [];
    var mask := HartMask(0, 0);
    var i := 0;
    while i < smp
      invariant 0 <= i <= smp
      invariant sent + BatchesFrom(w, smp, boot, i, mask) == Batches(w, smp, boot)
    {
      if i != boot {
        match Insert(w, mask, i) {
          case Inserted(m) =>
            mask := m;
          case InvalidBit =>
            sent := sent + [mask];
            mask := HartMask(1, i);
        }
      }
      i := i + 1;
    }
    sent := sent + [mask];
  }

  /** The secondary harts from `i` on: every hart but the boot hart, in order. */
  function SecondariesFrom(smp: nat, boot: nat, i: nat): seq<nat>
    decreases smp - i
  {
    if i >= smp then []
    else (if i == boot then [] else [i]) + SecondariesFrom(smp, boot, i + 1)
  }

  function DecodeAll(w: nat, masks: seq<HartMask>, harts: nat): seq<nat> {
    if masks == [] then [] else Decode(w, masks[0], harts) + DecodeAll(w, masks[1..], harts)
  }

  /** A mask whose bits all name harts below `i`. */
  ghost predicate Below(w: nat, m: HartMask, i: nat) {
    && m.base <= i && m.base != IgnoreBase(w)
    && forall k: nat :: Bit(m.mask, k) ==> k < w && m.base + k < i
  }

  lemma {:induction false} HartsBelowGrows(m: HartMask, d: nat, harts: nat, k: nat)
    requires m.base + d < harts
    requires forall j: nat :: Bit(m.mask, j) ==> j < d
    ensures HartsBelow(m.(mask := Or(m.mask, Pow2(d))), harts, k)
         == HartsBelow(m, harts, k) + if d < k then [m.base + d] else []
  {
    if k > 0 {
      HartsBelowGrows(m, d, harts, k - 1);
      OrBit(m.mask, Pow2(d), k - 1);
      Pow2Bit(d, k - 1);
    }
  }

  /** Inserting the next hart appends it to the harts that the mask decodes to. */
  lemma InsertAppends(w: nat, m: HartMask, i: nat, harts: nat)
    requires Below(w, m, i) && i < harts && Insert(w, m, i).Inserted?
    ensures var m' := Insert(w, m, i).mask;
            Below(w, m', i + 1) && Decode(w, m', harts) == Decode(w, m, harts) + [i]
  {
    var m' := Insert(w, m, i).mask;
    forall k: nat | Bit(m'.mask, k) ensures k < w && m'.base + k < i + 1 {
      OrBit(m.mask, Pow2(i - m.base), k);
      Pow2Bit(i - m.base, k);
    }
    HartsBelowGrows(m, i - m.base, harts, w);
  }

  lemma {:induction false} SingletonDecodes(w: nat, i: nat, harts: nat, k: nat)
    requires i < harts
    ensures HartsBelow(HartMask(1, i), harts, k) == if k == 0 then [] else [i]
  {
    if k > 0 {
      SingletonDecodes(w, i, harts, k - 1);
      Pow2Bit(0, k - 1);
    }
  }

  lemma {:induction false} BatchesFromDecode(w: nat, smp: nat, boot: nat, i: nat, m: HartMask)
    requires 0 < w && smp <= IgnoreBase(w) && i <= smp && Below(w, m, i)
    ensures DecodeAll(w, BatchesFrom(w, smp, boot, i, m), smp)
         == Decode(w, m, smp) + SecondariesFrom(smp, boot, i)
    decreases smp - i
  {
    if i < smp {
      if i == boot {
        BatchesFromDecode(w, smp, boot, i + 1, m);
      } else if Insert(w, m, i).Inserted? {
        InsertAppends(w, m, i, smp);
        BatchesFromDecode(w, smp, boot, i + 1, Insert(w, m, i).mask);
      } else {
        SingletonDecodes(w, i, smp, w);
        forall k: nat | Bit(1, k) ensures k < w && i + k < i + 1 { Pow2Bit(0, k); }
        BatchesFromDecode(w, smp, boot, i + 1, HartMask(1, i));
        var rest := BatchesFrom(w, smp, boot, i + 1, HartMask(1, i));
        assert ([m] + rest)[1..] == rest;
      }
    } else {
      assert DecodeAll(w, [m], smp) == Decode(w, m, smp) + DecodeAll(w, [m][1..], smp);
    }
  }

  /**
   The masks sent decode, one after the other, to the harts `0..smp` without the boot hart:
   in ascending order, each covered exactly once, for every number of harts and every width.
   */
  lemma BatchesCoverSecondaries(w: nat, smp: nat, boot: nat)
    requires 0 < smp < Pow2(w)
    ensures DecodeAll(w, Batches(w, smp, boot), smp) == SecondariesFrom(smp, boot, 0)
  {
    forall k: nat ensures !Bit(0, k) { ZeroBit(k); }
    BatchesFromDecode(w, smp, boot, 0, HartMask(0, 0));
    assert Decode(w, HartMask(0, 0), smp) == [] by { EmptyMaskDecodes(smp, w); }
  }

  lemma {:induction false} EmptyMaskDecodes(harts: nat, k: nat)
    ensures HartsBelow(HartMask(0, 0), harts, k) == []
  {
    if k > 0 {
      EmptyMaskDecodes(harts, k - 1);
      ZeroBit(k - 1);
    }
  }

  lemma {:induction false} SecondariesMembers(smp: nat, boot: nat, i: nat, h: nat)
    ensures h in SecondariesFrom(smp, boot, i) <==> i <= h < smp && h != boot
    decreases smp - i
  {
    if i < smp { SecondariesMembers(smp, boot, i + 1, h); }
  }

  lemma {:induction false} SecondariesAscend(smp: nat, boot: nat, i: nat, j: nat, k: nat)
    requires j < k < |SecondariesFrom(smp, boot, i)|
    ensures SecondariesFrom(smp, boot, i)[j] < SecondariesFrom(smp, boot, i)[k]
    decreases smp - i
  {
    var rest := SecondariesFrom(smp, boot, i + 1);
    if i == boot {
      SecondariesAscend(smp, boot, i + 1, j, k);
    } else if j > 0 {
      SecondariesAscend(smp, boot, i + 1, j - 1, k - 1);
    } else {
      SecondariesMembers(smp, boot, i + 1, rest[k - 1]);
    }
  }

  /** `SecondariesFrom` lists exactly the secondary harts, and lists none twice. */
  lemma SecondariesAreAllOnce(smp: nat, boot: nat, i: nat)
    ensures forall h: nat :: h in SecondariesFrom(smp, boot, i) <==> i <= h < smp && h != boot
    ensures forall j: nat, k: nat :: j < k < |SecondariesFrom(smp, boot, i)| ==>
                                       SecondariesFrom(smp, boot, i)[j] < SecondariesFrom(smp, boot, i)[k]
  {
    forall h: nat ensures h in SecondariesFrom(smp, boot, i) <==> i <= h < smp && h != boot {
      SecondariesMembers(smp, boot, i, h);
    }
    forall j: nat, k: nat | j < k < |SecondariesFrom(smp, boot, i)|
      ensures SecondariesFrom(smp, boot, i)[j] < SecondariesFrom(smp, boot, i)[k]
    {
      SecondariesAscend(smp, boot, i, j, k);
    }
  }
}
