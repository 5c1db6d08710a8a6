/**
 PMP address registers (library/pmpm/src/lib.rs). The width `w` of `usize` is a parameter: any power
 of two from 8 up, 64 in the firmware.
 An arithmetic overflow is a panic, as in a build with overflow checks: `None`.
 */
module PmpCodec {
  import opened Bits
  import opened Helpers

  const PMP_SHIFT: nat := 2

  predicate WordWidth(w: nat) {
    w >= 8 && w == Pow2(Ilog2(w))
  }

  /** `usize::MAX` */
  function UsizeMax(w: nat): nat { Pow2(w) - 1 }

  datatype Range = OFF | TOR | NA4 | NAPOT

  datatype PmpSlice = PmpSlice(log2len: nat, paLo: nat, paHi: nat)

  predicate CheckArea(addr: nat, len: nat, range: Range) {
    match range
    case NA4 => And(addr, Pow2(PMP_SHIFT) - 1) == 0 && len == 4
    case NAPOT => len >= 8 && And(len, len - 1) == 0 && addr % len == 0
    case TOR => And(addr, Pow2(PMP_SHIFT) - 1) == 0 && len % 4 == 0
    case OFF => true
  }

  /** `encode_pmp_addr` */
  function Encode(w: nat, slice: PmpSlice, range: Range): Option<nat>
    requires WordWidth(w)
  {
    var log2len := And(slice.log2len, Or(w, w - 1));
    match range
    case NAPOT =>
      if log2len == w then Some(UsizeMax(w))
      else if log2len < PMP_SHIFT || log2len - PMP_SHIFT >= w then None
      else Some(EncodeNapot(w, slice.paLo, log2len))
    case NA4 => Some(Shr(slice.paLo, PMP_SHIFT))
    case TOR => Some(Shr(slice.paLo, PMP_SHIFT))
    case OFF => Some(0)
  }

  function EncodeNapot(w: nat, paLo: nat, log2len: nat): nat
    requires PMP_SHIFT <= log2len < w + PMP_SHIFT
  {
    var addrmask := Pow2(log2len - PMP_SHIFT) - 1;
    Pow2Monotone(log2len - PMP_SHIFT, w);
    Or(And(Shr(paLo, PMP_SHIFT), Not(w, addrmask)), Shr(addrmask, 1))
  }

  /** `decode_pmp_addr` */
  function Decode(w: nat, pmpaddr: nat, range: Range): PmpSlice
    requires pmpaddr < Pow2(w)
  {
    match range
    case NAPOT =>
      if pmpaddr == UsizeMax(w) then PmpSlice(w, 0, 0)
      else
        var zeros := TrailingZeros(w, Not(w, pmpaddr));
        InvertedTrailing(w, pmpaddr);
        Pow2Monotone(zeros, w);
        PmpSlice(zeros + PMP_SHIFT + 1,
                 Shl(w, And(pmpaddr, Not(w, Pow2(zeros) - 1)), PMP_SHIFT), 0)
    case NA4 => PmpSlice(2, Shl(w, pmpaddr, PMP_SHIFT), 0)
    case TOR => PmpSlice(0, Shl(w, pmpaddr, PMP_SHIFT), 0)
    case OFF => PmpSlice(0, 0, 0)
  }

  /** The value that `set_pmp_entry` writes to the address register. */
  function EntryAddr(w: nat, addr: nat, len: nat, range: Range): Option<nat>
    requires WordWidth(w)
  {
    if len == UsizeMax(w) then Encode(w, PmpSlice(w, addr, 0), range)
    else if len == 0 then None
    else Encode(w, PmpSlice(Ilog2(len), addr, 0), range)
  }

  /**
   The NAPOT matching rule (section 3.7.1 of the RISC-V Privileged Architecture): byte address `a`
   matches when `a >> 2` and the register agree on every bit above the register's lowest zero bit.
   */
  ghost predicate Matches(pmpaddr: nat, a: nat) {
    forall k: nat | k > TrailingOnes(pmpaddr) :: Bit(Shr(a, PMP_SHIFT), k) == Bit(pmpaddr, k)
  }

  // ----- regions -----

  /** A multiple of `2^n` has its low `n` bits clear. */
  lemma AlignedBits(x: nat, n: nat, k: nat)
    requires x % Pow2(n) == 0 && k < n
    ensures !Bit(x, k)
  {
    var q := x / Pow2(n);
    assert x == q * Pow2(n);
    TimesPow2Bit(q, n, k);
  }

  /** The addresses that agree with an aligned base above bit `n` are the `2^n` bytes from it. */
  lemma {:induction false} AlignedRegion(base: nat, n: nat, a: nat)
    requires forall k: nat | k < n :: !Bit(base, k)
    ensures Shr(a, n) == Shr(base, n) <==> base <= a < base + Pow2(n)
  {
    if n > 0 {
      assert !Bit(base, 0);
      forall k: nat | k < n - 1 ensures !Bit(base / 2, k) { assert !Bit(base, k + 1); }
      AlignedRegion(base / 2, n - 1, a / 2);
    }
  }

  ghost predicate AgreeFrom(a: nat, b: nat, n: nat) {
    forall k: nat | n <= k :: Bit(a, k) == Bit(b, k)
  }

  lemma SameAbove(a: nat, b: nat, n: nat)
    ensures Shr(a, n) == Shr(b, n) <==> AgreeFrom(a, b, n)
  {
    if AgreeFrom(a, b, n) {
      forall k: nat ensures Bit(Shr(a, n), k) == Bit(Shr(b, n), k) {
        ShrBit(a, n, k);
        ShrBit(b, n, k);
      }
      SameBits(Shr(a, n), Shr(b, n));
    }
    if Shr(a, n) == Shr(b, n) {
      forall k: nat | n <= k ensures Bit(a, k) == Bit(b, k) {
        ShrBit(a, n, k - n);
        ShrBit(b, n, k - n);
      }
    }
  }

  lemma LengthBitKept(w: nat, log2len: nat, k: nat)
    requires WordWidth(w) && log2len < 2 * w
    ensures Bit(And(log2len, Or(w, w - 1)), k) == Bit(log2len, k)
  {
    var m := Ilog2(w);
    FitsIffNoHighBit(log2len, m + 1);
    AndBit(log2len, Or(w, w - 1), k);
    OrBit(w, w - 1, k);
    Pow2Bit(m, k);
    OnesBit(m, k);
  }

  /** `log2len & (w | (w - 1))` leaves every length below `2 * w` alone. */
  lemma LengthKept(w: nat, log2len: nat)
    requires WordWidth(w)
    requires log2len < 2 * w
    ensures And(log2len, Or(w, w - 1)) == log2len
  {
    forall k: nat ensures Bit(And(log2len, Or(w, w - 1)), k) == Bit(log2len, k) {
      LengthBitKept(w, log2len, k);
    }
    SameBits(And(log2len, Or(w, w - 1)), log2len);
  }

  // ----- encoded registers, bit by bit -----

  /** `p` has ones below bit `log2len - 3`, a zero there, and the bits of `addr >> 2` above. */
  ghost predicate Encoded(w: nat, addr: nat, log2len: nat, p: nat) {
    forall k: nat :: Bit(p, k) == (k + 3 < log2len || (log2len <= k + 2 && k < w && Bit(addr, k + 2)))
  }

  lemma EncodeNapotBits(w: nat, addr: nat, log2len: nat)
    requires PMP_SHIFT < log2len < w + PMP_SHIFT
    ensures Encoded(w, addr, log2len, EncodeNapot(w, addr, log2len))
  {
    var mask := Pow2(log2len - PMP_SHIFT) - 1;
    Pow2Monotone(log2len - PMP_SHIFT, w);
    var high, low := And(Shr(addr, PMP_SHIFT), Not(w, mask)), Shr(mask, 1);
    forall k: nat
      ensures Bit(Or(high, low), k) == (k + 3 < log2len || (log2len <= k + 2 && k < w && Bit(addr, k + 2)))
    {
      OrBit(high, low, k);
      AndBit(Shr(addr, PMP_SHIFT), Not(w, mask), k);
      ShrBit(addr, PMP_SHIFT, k);
      NotBit(w, mask, k);
      OnesBit(log2len - PMP_SHIFT, k);
      ShrBit(mask, 1, k);
      OnesBit(log2len - PMP_SHIFT, k + 1);
    }
  }

  lemma EncodedShape(w: nat, addr: nat, n: nat, p: nat)
    requires 3 <= n < w + PMP_SHIFT && Encoded(w, addr, n, p)
    ensures TrailingOnes(p) == n - 3
    ensures n < w + 3 ==> p < Pow2(w)
    ensures n < w ==> p != UsizeMax(w)
  {
    TrailingOnesUnique(p, n - 3);
    FitsIffNoHighBit(p, w);
    OnesBit(w, n - 3);
  }

  /** An encoded region matches what agrees with its base from bit `n` up. */
  lemma EncodedMatches(w: nat, addr: nat, n: nat, p: nat, a: nat)
    requires addr < Pow2(w) && 3 <= n < w && Encoded(w, addr, n, p)
    ensures Matches(p, a) <==> AgreeFrom(a, addr, n)
  {
    EncodedShape(w, addr, n, p);
    FitsIffNoHighBit(addr, w);
    forall k: nat | k > n - 3
      ensures Bit(p, k) == Bit(addr, k + 2) && Bit(Shr(a, PMP_SHIFT), k) == Bit(a, k + 2)
    {
      ShrBit(a, PMP_SHIFT, k);
    }
    if Matches(p, a) {
      forall k: nat | n <= k ensures Bit(a, k) == Bit(addr, k) {
        assert Bit(Shr(a, PMP_SHIFT), k - 2) == Bit(p, k - 2);
      }
    }
  }

  lemma RegionCovered(w: nat, addr: nat, n: nat, p: nat, a: nat)
    requires addr < Pow2(w) && 3 <= n < w && Encoded(w, addr, n, p)
    requires forall k: nat | k < n :: !Bit(addr, k)
    ensures Matches(p, a) <==> addr <= a < addr + Pow2(n)
  {
    EncodedMatches(w, addr, n, p, a);
    SameAbove(a, addr, n);
    AlignedRegion(addr, n, a);
  }

  // ----- decoded registers, bit by bit -----

  /** The region that a register other than all ones decodes to. */
  ghost predicate Decoded(w: nat, p: nat, slice: PmpSlice) {
    && slice.log2len == TrailingOnes(p) + 3 && slice.paHi == 0
    && forall k: nat :: Bit(slice.paLo, k) == (TrailingOnes(p) + 2 <= k < w && Bit(p, k - 2))
  }

  /** Only the all-ones word has no zero bit below its width. */
  lemma AllOnes(w: nat, p: nat)
    requires p < Pow2(w) && TrailingOnes(p) >= w
    ensures p == UsizeMax(w)
  {
    TrailingOnesBits(p);
    FitsIffNoHighBit(p, w);
    forall k: nat ensures Bit(p, k) == Bit(Pow2(w) - 1, k) { OnesBit(w, k); }
    SameBits(p, Pow2(w) - 1);
  }

  lemma NotAllOnes(w: nat, p: nat)
    requires p < Pow2(w) && p != UsizeMax(w)
    ensures TrailingOnes(p) < w
  {
    if TrailingOnes(p) >= w { AllOnes(w, p); }
  }

  lemma MaskedBit(w: nat, p: nat, t: nat, k: nat)
    requires t < w && Pow2(t) <= Pow2(w)
    ensures Bit(Shl(w, And(p, Not(w, Pow2(t) - 1)), PMP_SHIFT), k) == (t + 2 <= k < w && Bit(p, k - 2))
  {
    var inverse := Not(w, Pow2(t) - 1);
    ShlBit(w, And(p, inverse), PMP_SHIFT, k);
    if k >= 2 {
      AndBit(p, inverse, k - 2);
      NotBit(w, Pow2(t) - 1, k - 2);
      OnesBit(t, k - 2);
    }
  }

  lemma DecodeBits(w: nat, p: nat)
    requires p < Pow2(w) && p != UsizeMax(w)
    ensures Decoded(w, p, Decode(w, p, NAPOT)) && TrailingOnes(p) < w
  {
    var t := TrailingOnes(p);
    NotAllOnes(w, p);
    InvertedTrailing(w, p);
    Pow2Monotone(t, w);
    var slice := Decode(w, p, NAPOT);
    forall k: nat ensures Bit(slice.paLo, k) == (t + 2 <= k < w && Bit(p, k - 2)) { MaskedBit(w, p, t, k); }
  }

  lemma RegionDecoded(w: nat, addr: nat, n: nat, p: nat, slice: PmpSlice)
    requires addr < Pow2(w) && 3 <= n < w && Encoded(w, addr, n, p) && Decoded(w, p, slice)
    requires forall k: nat | k < n :: !Bit(addr, k)
    ensures slice == PmpSlice(n, addr, 0)
  {
    EncodedShape(w, addr, n, p);
    FitsIffNoHighBit(addr, w);
    forall k: nat ensures Bit(slice.paLo, k) == Bit(addr, k) {
      if k >= 2 { assert Bit(p, k - 2) == (k - 2 + 3 < n || (n <= k && k - 2 < w && Bit(addr, k - 2 + 2))); }
    }
    SameBits(slice.paLo, addr);
  }

  // ----- checked areas -----

  lemma {:induction false} Ilog2Pow2(n: nat)
    ensures Ilog2(Pow2(n)) == n
  {
    if n > 0 {
      Ilog2Pow2(n - 1);
      assert Pow2(n) / 2 == Pow2(n - 1);
    }
  }

  /** What a checked NAPOT area is: a power of two of at least eight bytes, aligned to itself. */
  lemma CheckedArea(w: nat, addr: nat, len: nat) returns (n: nat)
    requires len < Pow2(w) && CheckArea(addr, len, NAPOT)
    ensures 3 <= n < w && len == Pow2(n) && Ilog2(len) == n
    ensures forall k: nat | k < n :: !Bit(addr, k)
  {
    PowerOfTwoTest(len);
    n := Ilog2(len);
    if n >= w { Pow2Monotone(w, n); }
    if n < 3 { Pow2Monotone(n, 2); }
    forall k: nat | k < n ensures !Bit(addr, k) { AlignedBits(addr, n, k); }
  }

  lemma PowerIsNotMax(w: nat, n: nat)
    requires 1 <= n < w
    ensures Pow2(n) != UsizeMax(w)
  {
    assert Pow2(n) == 2 * Pow2(n - 1) && Pow2(w) == 2 * Pow2(w - 1);
  }

  lemma EntryOfPower(w: nat, addr: nat, n: nat)
    requires WordWidth(w)
    requires 3 <= n < w
    ensures EntryAddr(w, addr, Pow2(n), NAPOT) == Some(EncodeNapot(w, addr, n))
  {
    Ilog2Pow2(n);
    PowerIsNotMax(w, n);
    EncodeOfLength(w, addr, n);
  }

  lemma EncodeOfLength(w: nat, addr: nat, n: nat)
    requires WordWidth(w)
    requires 3 <= n < w
    ensures Encode(w, PmpSlice(n, addr, 0), NAPOT) == Some(EncodeNapot(w, addr, n))
  {
    LengthKept(w, n);
  }

  /** The register written for a checked NAPOT area matches exactly the bytes of the area. */
  lemma NapotEntryCoversArea(w: nat, addr: nat, len: nat, a: nat)
    requires WordWidth(w)
    requires addr < Pow2(w) && len < Pow2(w) && CheckArea(addr, len, NAPOT)
    ensures EntryAddr(w, addr, len, NAPOT).Some?
    ensures Matches(EntryAddr(w, addr, len, NAPOT).value, a) <==> addr <= a < addr + len
  {
    var n := CheckedArea(w, addr, len);
    EntryOfPower(w, addr, n);
    EncodeNapotBits(w, addr, n);
    RegionCovered(w, addr, n, EncodeNapot(w, addr, n), a);
  }

  /** Decoding the register of a checked NAPOT area gives back its start and its length. */
  lemma NapotEntryDecodes(w: nat, addr: nat, len: nat)
    requires WordWidth(w)
    requires addr < Pow2(w) && len < Pow2(w) && CheckArea(addr, len, NAPOT)
    ensures var p := EntryAddr(w, addr, len, NAPOT);
            && p.Some? && p.value < Pow2(w)
            && Decode(w, p.value, NAPOT) == PmpSlice(Ilog2(len), addr, 0) && len == Pow2(Ilog2(len))
  {
    var n := CheckedArea(w, addr, len);
    EntryOfPower(w, addr, n);
    EncodeNapotBits(w, addr, n);
    var p := EncodeNapot(w, addr, n);
    EncodedShape(w, addr, n, p);
    DecodeBits(w, p);
    RegionDecoded(w, addr, n, p, Decode(w, p, NAPOT));
  }

  // ----- registers read back -----

  /** A register that went through decoding and encoding loses its two top bits and nothing else. */
  lemma ReencodedBits(w: nat, p: nat, slice: PmpSlice, r: nat)
    requires w >= 8 && Decoded(w, p, slice) && Encoded(w, slice.paLo, slice.log2len, r) && TrailingOnes(p) < w - 1
    ensures forall k: nat :: Bit(r, k) == (Bit(p, k) && k < w - 2)
  {
    TrailingOnesBits(p);
    forall k: nat ensures Bit(r, k) == (Bit(p, k) && k < w - 2) {
      assert Bit(slice.paLo, k + 2) == (TrailingOnes(p) + 2 <= k + 2 < w && Bit(p, k + 2 - 2));
    }
  }

  lemma SurvivesIffLow(w: nat, p: nat, r: nat)
    requires w >= 2 && forall k: nat :: Bit(r, k) == (Bit(p, k) && k < w - 2)
    ensures r == p <==> p < Pow2(w - 2)
  {
    FitsIffNoHighBit(p, w - 2);
    FitsIffNoHighBit(r, w - 2);
    if p < Pow2(w - 2) { SameBits(r, p); }
  }

  lemma OnesTrailing(n: nat)
    ensures TrailingOnes(Pow2(n) - 1) == n
  {
    var x := Pow2(n) - 1;
    forall k: nat ensures Bit(x, k) == (k < n) { OnesBit(n, k); }
    TrailingOnesUnique(x, n);
  }

  /** Below 2^(w-2), only 2^(w-3) - 1 has its lowest zero at bit w - 3. */
  lemma LoneOnes(w: nat, p: nat)
    requires w >= 8 && p < Pow2(w - 2)
    ensures TrailingOnes(p) == w - 3 <==> p == Pow2(w - 3) - 1
  {
    OnesTrailing(w - 3);
    TrailingOnesBits(p);
    FitsIffNoHighBit(p, w - 2);
    if TrailingOnes(p) == w - 3 {
      var ones := Pow2(w - 3) - 1;
      forall k: nat ensures Bit(p, k) == Bit(ones, k) { OnesBit(w - 3, k); }
      SameBits(p, ones);
    }
  }

  /** The three ways that encoding the region of a register goes. */
  lemma EncodeOfSlice(w: nat, slice: PmpSlice)
    requires WordWidth(w)
    requires 3 <= slice.log2len < w + 3
    ensures Encode(w, slice, NAPOT) ==
              if slice.log2len == w then Some(UsizeMax(w))
              else if slice.log2len == w + 2 then None
              else Some(EncodeNapot(w, slice.paLo, slice.log2len))
  {
    LengthKept(w, slice.log2len);
  }

  lemma ReencodeOfMost(w: nat, p: nat)
    requires WordWidth(w)
    requires p < Pow2(w) && p != UsizeMax(w) && TrailingOnes(p) != w - 1 && TrailingOnes(p) != w - 3
    ensures Encode(w, Decode(w, p, NAPOT), NAPOT) == Some(p) <==> p < Pow2(w - 2)
  {
    DecodeBits(w, p);
    var slice := Decode(w, p, NAPOT);
    EncodeOfSlice(w, slice);
    EncodeNapotBits(w, slice.paLo, slice.log2len);
    ReencodedBits(w, p, slice, EncodeNapot(w, slice.paLo, slice.log2len));
    SurvivesIffLow(w, p, EncodeNapot(w, slice.paLo, slice.log2len));
  }

  /** The two lengths that `Encode` takes for something else: the whole address space, or none. */
  lemma ReencodeOfWide(w: nat, p: nat)
    requires WordWidth(w)
    requires p < Pow2(w) && p != UsizeMax(w) && (TrailingOnes(p) == w - 1 || TrailingOnes(p) == w - 3)
    ensures Encode(w, Decode(w, p, NAPOT), NAPOT) != Some(p)
    ensures TrailingOnes(p) == w - 1 ==> p >= Pow2(w - 2)
  {
    DecodeBits(w, p);
    EncodeOfSlice(w, Decode(w, p, NAPOT));
    TrailingOnesBits(p);
    FitsIffNoHighBit(p, w - 2);
    if TrailingOnes(p) == w - 1 { assert Bit(p, w - 2); }
  }

  lemma ReencodeOfAllOnes(w: nat)
    requires WordWidth(w)
    ensures Encode(w, Decode(w, UsizeMax(w), NAPOT), NAPOT) == Some(UsizeMax(w))
  {
    LengthKept(w, w);
  }

  /**
   Exactly which registers survive decoding and encoding: those below 2^(w-2) but for 2^(w-3) - 1,
   whose length of 2^w reads as the whole address space, and the all-ones register.
   */
  lemma ReencodeIffInRange(w: nat, p: nat)
    requires WordWidth(w)
    requires p < Pow2(w)
    ensures Encode(w, Decode(w, p, NAPOT), NAPOT) == Some(p)
       <==> (p < Pow2(w - 2) && p != Pow2(w - 3) - 1) || p == UsizeMax(w)
  {
    if p == UsizeMax(w) {
      ReencodeOfAllOnes(w);
    } else {
      if p < Pow2(w - 2) { LoneOnes(w, p); }
      if TrailingOnes(p) == w - 1 || TrailingOnes(p) == w - 3 {
        ReencodeOfWide(w, p);
      } else {
        OnesTrailing(w - 3);
        ReencodeOfMost(w, p);
      }
    }
  }

  /** A length of `usize::MAX` asks for the all-ones register, which reads back as the whole address space. */
  lemma FullEntry(w: nat, addr: nat)
    requires WordWidth(w)
    ensures EntryAddr(w, addr, UsizeMax(w), NAPOT) == Some(UsizeMax(w))
    ensures Decode(w, UsizeMax(w), NAPOT) == PmpSlice(w, 0, 0)
  {
    LengthKept(w, w);
  }

  /**
   Which lengths below twice the width a NAPOT encoding takes: it panics, in the subtraction or in the shift,
   exactly below `2^2` and from `2^(w+2)` up; `2^2` itself gives the register of an NA4 entry.
   */
  lemma NapotPanicsIff(w: nat, addr: nat, n: nat)
    requires WordWidth(w) && n < 2 * w
    ensures Encode(w, PmpSlice(n, addr, 0), NAPOT) == None <==> n < 2 || n >= w + 2
    ensures n == 2 ==> Encode(w, PmpSlice(n, addr, 0), NAPOT) == Some(Trunc(w, Shr(addr, 2)))
  {
    EncodeOfAnyLength(w, addr, n);
    NapotOfFour(w, addr);
  }

  lemma EncodeOfAnyLength(w: nat, addr: nat, n: nat)
    requires WordWidth(w) && n < 2 * w
    ensures Encode(w, PmpSlice(n, addr, 0), NAPOT) ==
              if n == w then Some(UsizeMax(w))
              else if 2 <= n < w + 2 then Some(EncodeNapot(w, addr, n))
              else None
  {
    LengthKept(w, n);
  }

  lemma NapotOfFour(w: nat, addr: nat)
    requires w > 0
    ensures EncodeNapot(w, addr, 2) == Trunc(w, Shr(addr, 2))
  {
    Pow2Monotone(0, w);
    var p := EncodeNapot(w, addr, 2);
    forall k: nat ensures Bit(p, k) == Bit(Trunc(w, Shr(addr, 2)), k) {
      OrBit(And(Shr(addr, PMP_SHIFT), Not(w, 0)), Shr(0, 1), k);
      AndBit(Shr(addr, PMP_SHIFT), Not(w, 0), k);
      NotBit(w, 0, k);
      ShrBit(0, 1, k);
      ZeroBit(k);
      ZeroBit(k + 1);
      TruncBit(w, Shr(addr, 2), k);
    }
    SameBits(p, Trunc(w, Shr(addr, 2)));
  }

  /** The all-ones register matches every address. */
  lemma AllOnesMatches(w: nat, a: nat)
    requires a < Pow2(w)
    ensures Matches(UsizeMax(w), a)
  {
    OnesTrailing(w);
    FitsIffNoHighBit(a, w);
    forall k: nat | k > w ensures Bit(Shr(a, PMP_SHIFT), k) == Bit(UsizeMax(w), k) {
      ShrBit(a, PMP_SHIFT, k);
      OnesBit(w, k);
    }
  }

  lemma AlignedToFour(addr: nat, k: nat)
    requires And(addr, Pow2(2) - 1) == 0 && k < 2
    ensures !Bit(addr, k)
  {
    AndBit(addr, Pow2(2) - 1, k);
    OnesBit(2, k);
    ZeroBit(k);
  }

  lemma ShiftedBack(w: nat, addr: nat)
    requires addr < Pow2(w) && forall k: nat | k < 2 :: !Bit(addr, k)
    ensures Shr(addr, 2) < Pow2(w) && Shl(w, Shr(addr, 2), 2) == addr
  {
    var p := Shr(addr, 2);
    FitsIffNoHighBit(addr, w);
    forall k: nat ensures Bit(p, k) == Bit(addr, k + 2) { ShrBit(addr, 2, k); }
    FitsIffNoHighBit(p, w);
    forall k: nat ensures Bit(Shl(w, p, 2), k) == Bit(addr, k) { ShlBit(w, p, 2, k); }
    SameBits(Shl(w, p, 2), addr);
  }

  /** A checked NA4 area is the four bytes that its register names, and decodes to itself. */
  lemma Na4EntryCoversArea(w: nat, addr: nat, len: nat, a: nat)
    requires WordWidth(w)
    requires addr < Pow2(w) && CheckArea(addr, len, NA4)
    ensures var p := EntryAddr(w, addr, len, NA4);
            && p.Some? && p.value < Pow2(w)
            && (Shr(a, PMP_SHIFT) == p.value <==> addr <= a < addr + len)
            && Decode(w, p.value, NA4) == PmpSlice(2, addr, 0)
  {
    forall k: nat | k < 2 ensures !Bit(addr, k) { AlignedToFour(addr, k); }
    AlignedRegion(addr, 2, a);
    ShiftedBack(w, addr);
    assert Pow2(2) == 4;
    Pow2Monotone(3, w);
    assert Pow2(3) == 8;
  }

  // ----- which areas are accepted, and top-of-range entries -----

  /** The low two bits of an address are its remainder by four. */
  lemma LowTwoBits(x: nat)
    ensures And(x, Pow2(2) - 1) == 0 <==> x % 4 == 0
    ensures Shr(x, 2) == x / 4
  {
    assert Pow2(2) - 1 == 3 && And(x / 2, 1) == BitOf(x / 2 % 2 == 1) + 2 * And(x / 2 / 2, 0);
    if x > 0 { assert And(x, 3) == 2 * And(x / 2, 1) + BitOf(x % 2 == 1); }
    assert Shr(x, 2) == Shr(x / 2, 1) == Shr(x / 2 / 2, 0);
  }

  /** The powers of two from eight up that the address is a multiple of. */
  ghost predicate AlignedPower(addr: nat, len: nat) {
    exists n: nat :: n >= 3 && len == Pow2(n) && addr % len == 0
  }

  /**
   Exactly which areas the check accepts: four bytes at a multiple of four for NA4; a power of two from
   eight up, at a multiple of itself, for NAPOT; start and length multiples of four for TOR.
   */
  lemma AcceptedAreas(addr: nat, len: nat, range: Range)
    ensures CheckArea(addr, len, range) <==>
              match range
              case NA4 => addr % 4 == 0 && len == 4
              case NAPOT => AlignedPower(addr, len)
              case TOR => addr % 4 == 0 && len % 4 == 0
              case OFF => true
  {
    LowTwoBits(addr);
    if range == NAPOT && len > 0 {
      PowerOfTwoTest(len);
      if CheckArea(addr, len, range) {
        var n := Ilog2(len);
        if n < 3 { Pow2Monotone(n, 2); }
        assert n >= 3 && len == Pow2(n) && addr % len == 0;
      }
      if AlignedPower(addr, len) {
        var n: nat :| n >= 3 && len == Pow2(n) && addr % len == 0;
        Ilog2Pow2(n);
        Pow2Monotone(3, n);
        assert Pow2(3) == 8;
      }
    }
  }

  /**
   The TOR matching rule (section 3.7.1 of the RISC-V Privileged Architecture): from the address in the
   register before to below the address in this one.
   */
  predicate MatchesTor(previous: nat, pmpaddr: nat, a: nat) {
    previous <= Shr(a, PMP_SHIFT) < pmpaddr
  }

  /**
   The register that a checked TOR area writes decodes to the start of the area, and that is where the
   matched range ends, whatever register comes before and whatever the length: it reaches from there up to
   the area, and no byte of the area is in it.
   */
  lemma TorEntryEndsAtArea(w: nat, addr: nat, len: nat, previous: nat, a: nat)
    requires WordWidth(w)
    requires addr < Pow2(w) && 0 < len && CheckArea(addr, len, TOR)
    ensures var p := EntryAddr(w, addr, len, TOR);
            && p.Some? && p.value < Pow2(w) && Decode(w, p.value, TOR) == PmpSlice(0, addr, 0)
            && (MatchesTor(previous, p.value, a) <==> 4 * previous <= a < addr)
  {
    TorRegister(w, addr);
    LowTwoBits(addr);
    BelowRegister(previous, addr, a);
  }

  lemma TorRegister(w: nat, addr: nat)
    requires addr < Pow2(w) && And(addr, Pow2(2) - 1) == 0
    ensures Shr(addr, 2) < Pow2(w) && Shl(w, Shr(addr, 2), 2) == addr
  {
    forall k: nat | k < 2 ensures !Bit(addr, k) { AlignedToFour(addr, k); }
    ShiftedBack(w, addr);
  }

  lemma BelowRegister(previous: nat, addr: nat, a: nat)
    requires addr % 4 == 0
    ensures MatchesTor(previous, Shr(addr, 2), a) <==> 4 * previous <= a < addr
  {
    LowTwoBits(addr);
    LowTwoBits(a);
  }

  /** An entry that is off writes zero, which reads back as an empty slice. */
  lemma OffEntry(w: nat, addr: nat, len: nat)
    requires WordWidth(w) && len > 0
    ensures EntryAddr(w, addr, len, OFF) == Some(0) && Decode(w, 0, OFF) == PmpSlice(0, 0, 0)
  {
  }

  /** A length of zero has no logarithm: setting the entry panics, whatever the range. */
  lemma ZeroLengthPanics(w: nat, addr: nat, range: Range)
    requires WordWidth(w)
    ensures EntryAddr(w, addr, 0, range) == None
  {
    Pow2Monotone(1, w);
  }
}
