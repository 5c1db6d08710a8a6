/**
 The bitmap of PMP slots (library/pmpm/src/bitmap.rs): `alloc` and `free` as loops of a load and a
 compare-exchange that many callers interleave. `w` is the width of the bitmap, 64 in the firmware.
 */
module PmpSlots {
  import opened Bits

  const MAX_PMP_ENTRY_COUNT: nat := 16

  /** The width of the bitmap and `alloc_mask`. */
  datatype Config = Config(w: nat, mask: nat) {
    predicate Valid() {
      w >= MAX_PMP_ENTRY_COUNT && mask < Pow2(w)
    }
  }

  datatype Op = Alloc | Free(idx: nat)

  datatype Outcome = Allocated(idx: nat) | Freed | NoFreeSlot | IndexOutOfRange

  /** `idx & (MAX_PMP_ENTRY_COUNT - 1)` */
  function SlotOf(idx: nat): nat {
    And(idx, MAX_PMP_ENTRY_COUNT - 1)
  }

  // ----- one attempt: what a loop body makes of the bitmap it loaded -----

  datatype Attempt = Refuse(error: Outcome) | Try(bitmap: nat, result: Outcome)

  function Available(c: Config, cur: nat): nat
    requires cur < Pow2(c.w)
  {
    And(Not(c.w, cur), c.mask)
  }

  function AttemptAlloc(c: Config, cur: nat): Attempt
    requires cur < Pow2(c.w)
  {
    var available := Available(c, cur);
    if available == 0 then Refuse(NoFreeSlot)
    else
      var idx := TrailingZeros(c.w, available);
      Try(Or(cur, Pow2(idx)), Allocated(idx))
  }

  function AttemptFree(c: Config, cur: nat, idx: nat): Attempt
    requires c.Valid() && cur < Pow2(c.w)
  {
    var slot := Pow2(SlotOf(idx));
    SlotBelow(c, idx);
    if And(And(cur, slot), c.mask) == 0 then Refuse(IndexOutOfRange)
    else Try(And(cur, Not(c.w, slot)), Freed)
  }

  function AttemptOf(c: Config, op: Op, cur: nat): Attempt
    requires c.Valid() && cur < Pow2(c.w)
  {
    match op
    case Alloc => AttemptAlloc(c, cur)
    case Free(idx) => AttemptFree(c, cur, idx)
  }

  // ----- what an attempt means, bit by bit -----

  lemma SlotBelow(c: Config, idx: nat)
    requires c.Valid()
    ensures SlotOf(idx) < MAX_PMP_ENTRY_COUNT && Pow2(SlotOf(idx)) < Pow2(c.w)
    ensures SlotOf(idx) == idx <==> idx < MAX_PMP_ENTRY_COUNT
  {
    assert Pow2(4) == MAX_PMP_ENTRY_COUNT;
    forall k: nat ensures Bit(SlotOf(idx), k) == (Bit(idx, k) && k < 4) {
      AndBit(idx, MAX_PMP_ENTRY_COUNT - 1, k);
      OnesBit(4, k);
    }
    FitsIffNoHighBit(SlotOf(idx), 4);
    FitsIffNoHighBit(idx, 4);
    if idx < MAX_PMP_ENTRY_COUNT { SameBits(SlotOf(idx), idx); }
    Pow2Monotone(SlotOf(idx), c.w);
  }

  /** `idx` is the lowest slot of the mask that is free in `cur`. */
  ghost predicate LowestFree(c: Config, cur: nat, idx: nat) {
    Bit(c.mask, idx) && !Bit(cur, idx) && forall k: nat | k < idx :: Bit(c.mask, k) ==> Bit(cur, k)
  }

  ghost predicate AllTaken(c: Config, cur: nat) {
    forall k: nat :: Bit(c.mask, k) ==> Bit(cur, k)
  }

  /** `r` is `cur` with bit `idx` changed to `value`. */
  ghost predicate BitChanged(cur: nat, idx: nat, value: bool, r: nat) {
    forall k: nat :: Bit(r, k) == if k == idx then value else Bit(cur, k)
  }

  lemma {:induction false} TrailingZerosBits(w: nat, x: nat)
    requires 0 < x < Pow2(w)
    ensures TrailingZeros(w, x) < w && Bit(x, TrailingZeros(w, x))
    ensures forall k: nat | k < TrailingZeros(w, x) :: !Bit(x, k)
  {
    if x % 2 == 0 { TrailingZerosBits(w - 1, x / 2); }
  }

  lemma AvailableBit(c: Config, cur: nat, k: nat)
    requires c.Valid() && cur < Pow2(c.w)
    ensures Bit(Available(c, cur), k) == (Bit(c.mask, k) && !Bit(cur, k))
  {
    AndBit(Not(c.w, cur), c.mask, k);
    NotBit(c.w, cur, k);
    FitsIffNoHighBit(c.mask, c.w);
  }

  lemma FitsMask(c: Config, cur: nat)
    requires c.Valid() && forall k: nat :: Bit(cur, k) ==> k < c.w
    ensures cur < Pow2(c.w)
  {
    FitsIffNoHighBit(cur, c.w);
  }

  /** `alloc` refuses exactly when no slot of the mask is free, and otherwise takes the lowest free one. */
  lemma AllocTakesLowest(c: Config, cur: nat)
    requires c.Valid() && cur < Pow2(c.w)
    ensures AttemptAlloc(c, cur).Refuse? <==> AllTaken(c, cur)
    ensures var a := AttemptAlloc(c, cur);
            && (a.Refuse? ==> a.error == NoFreeSlot)
            && (a.Try? ==>
                  && a.result.Allocated? && LowestFree(c, cur, a.result.idx) && a.bitmap < Pow2(c.w)
                  && BitChanged(cur, a.result.idx, true, a.bitmap))
  {
    var available := Available(c, cur);
    forall k: nat ensures Bit(available, k) == (Bit(c.mask, k) && !Bit(cur, k)) { AvailableBit(c, cur, k); }
    FitsIffNoHighBit(c.mask, c.w);
    FitsIffNoHighBit(cur, c.w);
    if available == 0 {
      forall k: nat ensures !Bit(available, k) { ZeroBit(k); }
    } else {
      FitsMask(c, available);
      TrailingZerosBits(c.w, available);
      var idx := TrailingZeros(c.w, available);
      SetBit(c, cur, idx);
    }
  }

  lemma SetBit(c: Config, cur: nat, idx: nat)
    requires c.Valid() && cur < Pow2(c.w) && idx < c.w
    ensures BitChanged(cur, idx, true, Or(cur, Pow2(idx))) && Or(cur, Pow2(idx)) < Pow2(c.w)
  {
    var r := Or(cur, Pow2(idx));
    forall k: nat ensures Bit(r, k) == if k == idx then true else Bit(cur, k) {
      OrBit(cur, Pow2(idx), k);
      Pow2Bit(idx, k);
    }
    FitsIffNoHighBit(cur, c.w);
    FitsMask(c, r);
  }

  lemma ClearBit(c: Config, cur: nat, idx: nat)
    requires c.Valid() && cur < Pow2(c.w) && Pow2(idx) < Pow2(c.w)
    ensures BitChanged(cur, idx, false, And(cur, Not(c.w, Pow2(idx)))) && And(cur, Not(c.w, Pow2(idx))) < Pow2(c.w)
  {
    var r := And(cur, Not(c.w, Pow2(idx)));
    FitsIffNoHighBit(cur, c.w);
    forall k: nat ensures Bit(r, k) == if k == idx then false else Bit(cur, k) {
      AndBit(cur, Not(c.w, Pow2(idx)), k);
      NotBit(c.w, Pow2(idx), k);
      Pow2Bit(idx, k);
    }
    FitsMask(c, r);
  }

  lemma TestBit(c: Config, cur: nat, idx: nat)
    ensures And(And(cur, Pow2(idx)), c.mask) == 0 <==> !(Bit(cur, idx) && Bit(c.mask, idx))
  {
    var r := And(And(cur, Pow2(idx)), c.mask);
    forall k: nat ensures Bit(r, k) == (k == idx && Bit(cur, k) && Bit(c.mask, k)) {
      AndBit(And(cur, Pow2(idx)), c.mask, k);
      AndBit(cur, Pow2(idx), k);
      Pow2Bit(idx, k);
    }
    if r == 0 { ZeroBit(idx); } else { var k := SomeBit(r); }
  }

  /** `free` refuses exactly when slot `idx & 15` is not allocated, and otherwise clears that slot only. */
  lemma FreeClearsSlot(c: Config, cur: nat, idx: nat)
    requires c.Valid() && cur < Pow2(c.w)
    ensures AttemptFree(c, cur, idx).Refuse? <==> !(Bit(cur, SlotOf(idx)) && Bit(c.mask, SlotOf(idx)))
    ensures var a := AttemptFree(c, cur, idx);
            && (a.Refuse? ==> a.error == IndexOutOfRange)
            && (a.Try? ==>
                  a.result == Freed && BitChanged(cur, SlotOf(idx), false, a.bitmap) && a.bitmap < Pow2(c.w))
  {
    SlotBelow(c, idx);
    TestBit(c, cur, SlotOf(idx));
    ClearBit(c, cur, SlotOf(idx));
  }

  // ----- many callers -----

  /** `since` is how many compare-exchanges had succeeded at the load; it is history. */
  datatype Pc = Rest | Load(op: Op) | Cas(op: Op, seen: nat, since: nat)

  /** `held`: the indices `alloc` gave this caller and `free` has not taken back. */
  datatype Caller = Caller(pc: Pc, held: set<nat>)

  /** `log` lists, oldest first, the callers whose compare-exchange succeeded. */
  datatype State = State(slots: nat, callers: seq<Caller>, log: seq<nat>)

  datatype Event = Call(who: nat, op: Op) | Turn(who: nat)

  predicate Shaped(c: Config, s: State) {
    && c.Valid() && s.slots < Pow2(c.w)
    && forall i | 0 <= i < |s.callers| :: s.callers[i].pc.Cas? ==> s.callers[i].pc.seen < Pow2(c.w)
  }

  /** A caller asks for a slot, or gives back an index that it holds. */
  predicate MayCall(s: State, who: nat, op: Op) {
    who < |s.callers| && s.callers[who].pc.Rest? && (op.Free? ==> op.idx in s.callers[who].held)
  }

  function Holding(held: set<nat>, op: Op, result: Outcome): set<nat> {
    if result.Allocated? then held + {result.idx}
    else if result.Freed? && op.Free? then held - {op.idx}
    else held
  }

  /** `load`, and the early return when there is nothing to do. */
  function LoadNext(c: Config, s: State, who: nat, op: Op): (r: State)
    requires Shaped(c, s) && who < |s.callers|
    ensures Shaped(c, r)
  {
    var pc := if AttemptOf(c, op, s.slots).Refuse? then Rest else Cas(op, s.slots, |s.log|);
    s.(callers := s.callers[who := s.callers[who].(pc := pc)])
  }

  /** `compare_exchange(cur_slots, new_bitmap)` */
  function CasNext(c: Config, s: State, who: nat, op: Op, seen: nat): (r: State)
    requires Shaped(c, s) && who < |s.callers| && seen < Pow2(c.w)
    ensures Shaped(c, r)
  {
    var attempt := AttemptOf(c, op, seen);
    if s.slots == seen && attempt.Try? then
      if op.Alloc? then AllocTakesLowest(c, seen); Won(c, s, who, op, attempt)
      else FreeClearsSlot(c, seen, op.idx); Won(c, s, who, op, attempt)
    else s.(callers := s.callers[who := s.callers[who].(pc := Load(op))])
  }

  function Won(c: Config, s: State, who: nat, op: Op, attempt: Attempt): (r: State)
    requires Shaped(c, s) && who < |s.callers| && attempt.Try? && attempt.bitmap < Pow2(c.w)
    ensures Shaped(c, r)
  {
    State(attempt.bitmap,
          s.callers[who := Caller(Rest, Holding(s.callers[who].held, op, attempt.result))],
          s.log + [who])
  }

  function Next(c: Config, s: State, e: Event): (r: State)
    requires Shaped(c, s)
    ensures Shaped(c, r) && |r.callers| == |s.callers|
  {
    match e
    case Call(who, op) =>
      if MayCall(s, who, op) then s.(callers := s.callers[who := s.callers[who].(pc := Load(op))]) else s
    case Turn(who) =>
      if who >= |s.callers| then s
      else match s.callers[who].pc
        case Rest => s
        case Load(op) => LoadNext(c, s, who, op)
        case Cas(op, seen, _) => CasNext(c, s, who, op, seen)
  }

  function Run(c: Config, s: State, schedule: seq<Event>): (r: State)
    requires Shaped(c, s)
    ensures Shaped(c, r) && |r.callers| == |s.callers|
  {
    if schedule == [] then s
    else Next(c, Run(c, s, schedule[..|schedule| - 1]), schedule[|schedule| - 1])
  }

  /** `PMPSlotAllocator::new`, shared by `n` callers that hold nothing. */
  function Initial(n: nat): State {
    State(0, seq(n, _ => Caller(Rest, {})), [])
  }

  lemma InitialShaped(c: Config, n: nat)
    requires c.Valid()
    ensures Shaped(c, Initial(n))
  {
  }

  // ----- the lock-free loops -----

  /** A compare-exchange in hand: if nobody has won since the load, the bitmap is still what was loaded. */
  ghost predicate InHand(s: State, who: nat)
    requires who < |s.callers|
  {
    var pc := s.callers[who].pc;
    pc.Cas? ==>
      && pc.since <= |s.log| && (pc.since == |s.log| ==> s.slots == pc.seen)
      && forall n | pc.since <= n < |s.log| :: s.log[n] != who
  }

  ghost predicate AllInHand(s: State) {
    forall i: nat | i < |s.callers| :: InHand(s, i)
  }

  lemma NextInHand(c: Config, s: State, e: Event)
    requires Shaped(c, s) && AllInHand(s)
    ensures AllInHand(Next(c, s, e))
  {
    var s' := Next(c, s, e);
    forall i: nat | i < |s'.callers| ensures InHand(s', i) {
      assert InHand(s, i);
    }
  }

  lemma {:induction false} RunInHand(c: Config, n: nat, schedule: seq<Event>)
    requires c.Valid()
    ensures Shaped(c, Initial(n)) && AllInHand(Run(c, Initial(n), schedule))
  {
    InitialShaped(c, n);
    if schedule != [] {
      var last := |schedule| - 1;
      RunInHand(c, n, schedule[..last]);
      NextInHand(c, Run(c, Initial(n), schedule[..last]), schedule[last]);
    }
  }

  /**
   In every run, a compare-exchange that fails does so because another caller has succeeded since the
   load; hence, while nobody succeeds, nobody fails.
   */
  lemma FailureMeansAnotherWon(c: Config, n: nat, schedule: seq<Event>, who: nat)
    requires c.Valid() && Shaped(c, Initial(n))
    requires var s := Run(c, Initial(n), schedule);
             who < |s.callers| && s.callers[who].pc.Cas? && s.slots != s.callers[who].pc.seen
    ensures var s := Run(c, Initial(n), schedule);
            exists k :: s.callers[who].pc.since <= k < |s.log| && s.log[k] != who
  {
    RunInHand(c, n, schedule);
    var s := Run(c, Initial(n), schedule);
    assert InHand(s, who);
    assert s.log[s.callers[who].pc.since] != who;
  }

  // ----- who holds what -----

  ghost predicate HeldBySome(s: State, k: nat) {
    exists i: nat :: i < |s.callers| && k in s.callers[i].held
  }

  /** The bitmap marks the indices that are held, all inside the mask, and nobody shares one. */
  ghost predicate Owned(c: Config, s: State) {
    && (forall k: nat :: Bit(s.slots, k) <==> HeldBySome(s, k))
    && (forall k: nat :: Bit(s.slots, k) ==> Bit(c.mask, k))
    && (forall i: nat, j: nat | i < j < |s.callers| :: s.callers[i].held !! s.callers[j].held)
  }

  ghost predicate Mannered(c: Config, s: State) {
    forall i: nat | i < |s.callers| :: PolitePc(c, s.callers[i])
  }

  /** A caller at work frees an index that it holds, and carries an attempt worth making. */
  predicate PolitePc(c: Config, caller: Caller) {
    match caller.pc
    case Rest => true
    case Load(op) => op.Free? ==> op.idx in caller.held
    case Cas(op, seen, _) => op.Free? ==> op.idx in caller.held
  }

  /** No index of the mask from 16 up stands for another one of the mask, as `idx & 15` would have it. */
  ghost predicate Apart(c: Config) {
    forall b: nat | Bit(c.mask, b) && b >= MAX_PMP_ENTRY_COUNT :: !Bit(c.mask, SlotOf(b))
  }

  ghost predicate Inv(c: Config, s: State) {
    Shaped(c, s) && Owned(c, s) && Mannered(c, s)
  }

  lemma AllocKeepsOwned(c: Config, s: State, who: nat)
    requires Inv(c, s) && who < |s.callers|
    requires AttemptAlloc(c, s.slots).Try? && AttemptAlloc(c, s.slots).bitmap < Pow2(c.w)
    ensures Owned(c, Won(c, s, who, Alloc, AttemptAlloc(c, s.slots)))
  {
    AllocTakesLowest(c, s.slots);
    var a := AttemptAlloc(c, s.slots);
    var s' := Won(c, s, who, Alloc, a);
    TakeKeepsOwned(c, s, s', who, a.result.idx);
  }

  /** One caller more holds an index that was free. */
  lemma TakeKeepsOwned(c: Config, s: State, s': State, who: nat, idx: nat)
    requires Owned(c, s) && who < |s.callers| == |s'.callers|
    requires !Bit(s.slots, idx) && Bit(c.mask, idx) && BitChanged(s.slots, idx, true, s'.slots)
    requires forall i: nat | i < |s.callers| ::
               s'.callers[i].held == if i == who then s.callers[i].held + {idx} else s.callers[i].held
    ensures Owned(c, s')
  {
    forall k: nat ensures Bit(s'.slots, k) <==> HeldBySome(s', k) {
      if HeldBySome(s, k) {
        var i: nat :| i < |s.callers| && k in s.callers[i].held;
        assert k in s'.callers[i].held;
      }
      if k == idx { assert k in s'.callers[who].held; }
      if HeldBySome(s', k) && k != idx {
        var i: nat :| i < |s.callers| && k in s'.callers[i].held;
        assert k in s.callers[i].held;
      }
    }
    assert !HeldBySome(s, idx);
  }

  /** The caller that holds an index gives it up. */
  lemma GiveKeepsOwned(c: Config, s: State, s': State, who: nat, idx: nat)
    requires Owned(c, s) && who < |s.callers| == |s'.callers|
    requires idx in s.callers[who].held && BitChanged(s.slots, idx, false, s'.slots)
    requires forall i: nat | i < |s.callers| ::
               s'.callers[i].held == if i == who then s.callers[i].held - {idx} else s.callers[i].held
    ensures Owned(c, s')
  {
    forall k: nat ensures Bit(s'.slots, k) <==> HeldBySome(s', k) {
      if HeldBySome(s, k) && k != idx {
        var i: nat :| i < |s.callers| && k in s.callers[i].held;
        assert k in s'.callers[i].held;
      }
      if HeldBySome(s', k) {
        var i: nat :| i < |s.callers| && k in s'.callers[i].held;
        assert k in s.callers[i].held;
      }
    }
  }

  lemma FreeKeepsOwned(c: Config, s: State, who: nat, idx: nat)
    requires Inv(c, s) && Apart(c) && who < |s.callers| && idx in s.callers[who].held
    requires AttemptFree(c, s.slots, idx).Try? && AttemptFree(c, s.slots, idx).bitmap < Pow2(c.w)
    ensures Owned(c, Won(c, s, who, Free(idx), AttemptFree(c, s.slots, idx)))
  {
    FreeClearsSlot(c, s.slots, idx);
    SlotBelow(c, idx);
    assert HeldBySome(s, idx);
    GiveKeepsOwned(c, s, Won(c, s, who, Free(idx), AttemptFree(c, s.slots, idx)), who, idx);
  }

  lemma SameHeld(c: Config, s: State, s': State)
    requires Owned(c, s) && s'.slots == s.slots && |s'.callers| == |s.callers|
    requires forall i: nat | i < |s.callers| :: s'.callers[i].held == s.callers[i].held
    ensures Owned(c, s')
  {
    forall k: nat ensures HeldBySome(s', k) <==> HeldBySome(s, k) {
      if HeldBySome(s, k) {
        var i: nat :| i < |s.callers| && k in s.callers[i].held;
        assert k in s'.callers[i].held;
      }
    }
  }

  lemma NextMannered(c: Config, s: State, e: Event)
    requires Inv(c, s)
    ensures Mannered(c, Next(c, s, e))
  {
    var s' := Next(c, s, e);
    forall i: nat | i < |s'.callers| ensures PolitePc(c, s'.callers[i]) { assert PolitePc(c, s.callers[i]); }
  }

  lemma CasKeepsOwned(c: Config, s: State, who: nat)
    requires Inv(c, s) && Apart(c) && who < |s.callers| && s.callers[who].pc.Cas?
    ensures Owned(c, CasNext(c, s, who, s.callers[who].pc.op, s.callers[who].pc.seen))
  {
    var Cas(op, seen, _) := s.callers[who].pc;
    assert PolitePc(c, s.callers[who]);
    if s.slots == seen && AttemptOf(c, op, seen).Try? {
      match op
      case Alloc => AllocTakesLowest(c, seen); AllocKeepsOwned(c, s, who);
      case Free(idx) => FreeClearsSlot(c, seen, idx); FreeKeepsOwned(c, s, who, idx);
    } else {
      SameHeld(c, s, CasNext(c, s, who, op, seen));
    }
  }

  lemma NextKeeps(c: Config, s: State, e: Event)
    requires Inv(c, s) && Apart(c)
    ensures Inv(c, Next(c, s, e))
  {
    NextMannered(c, s, e);
    if e.Turn? && e.who < |s.callers| && s.callers[e.who].pc.Cas? {
      CasKeepsOwned(c, s, e.who);
    } else {
      SameHeld(c, s, Next(c, s, e));
    }
  }

  lemma InitialInv(c: Config, n: nat)
    requires c.Valid()
    ensures Inv(c, Initial(n))
  {
    forall k: nat ensures !Bit(0, k) { ZeroBit(k); }
  }

  lemma {:induction false} RunKeeps(c: Config, n: nat, schedule: seq<Event>)
    requires c.Valid() && Apart(c)
    ensures Shaped(c, Initial(n)) && Inv(c, Run(c, Initial(n), schedule))
  {
    InitialInv(c, n);
    if schedule != [] {
      var last := |schedule| - 1;
      RunKeeps(c, n, schedule[..last]);
      NextKeeps(c, Run(c, Initial(n), schedule[..last]), schedule[last]);
    }
  }

  /** Each success of `alloc` takes the lowest slot of the mask that is free at its compare-exchange. */
  lemma SuccessTakesLowest(c: Config, s: State, who: nat)
    requires Shaped(c, s) && who < |s.callers| && s.callers[who].pc.Cas? && s.callers[who].pc.op == Alloc
    requires Next(c, s, Turn(who)).log != s.log
    ensures var s' := Next(c, s, Turn(who));
            exists idx: nat ::
              && LowestFree(c, s.slots, idx) && BitChanged(s.slots, idx, true, s'.slots)
              && s'.callers[who].held == s.callers[who].held + {idx}
  {
    AllocTakesLowest(c, s.slots);
    var idx := AttemptAlloc(c, s.slots).result.idx;
    assert LowestFree(c, s.slots, idx);
  }

  // ----- when no slot is held twice -----

  ghost predicate Exclusive(s: State) {
    forall i: nat, j: nat | i < j < |s.callers| :: s.callers[i].held !! s.callers[j].held
  }

  ghost predicate ExclusiveAfter(c: Config, n: nat, schedule: seq<Event>) {
    Shaped(c, Initial(n)) && Exclusive(Run(c, Initial(n), schedule))
  }

  /** No schedule of any number of callers ends with two of them holding the same index. */
  ghost predicate AlwaysExclusive(c: Config) {
    forall n: nat, schedule: seq<Event> :: ExclusiveAfter(c, n, schedule)
  }

  lemma Then(c: Config, s: State, before: seq<Event>, e: Event) returns (schedule: seq<Event>)
    requires Shaped(c, s)
    ensures Run(c, s, schedule) == Next(c, Run(c, s, before), e)
  {
    schedule := before + [e];
    assert schedule[..|before|] == before;
  }

  /** An operation that nobody interrupts succeeds at its first attempt. */
  lemma Alone(c: Config, s: State, before: seq<Event>, who: nat, op: Op) returns (schedule: seq<Event>)
    requires Shaped(c, s)
    requires var t := Run(c, s, before);
             MayCall(t, who, op) && AttemptOf(c, op, t.slots).Try? && AttemptOf(c, op, t.slots).bitmap < Pow2(c.w)
    ensures var t := Run(c, s, before); Run(c, s, schedule) == Won(c, t, who, op, AttemptOf(c, op, t.slots))
  {
    var t := Run(c, s, before);
    schedule := Then(c, s, before, Call(who, op));
    schedule := Then(c, s, schedule, Turn(who));
    assert Run(c, s, schedule) == t.(callers := t.callers[who := t.callers[who].(pc := Cas(op, t.slots, |t.log|))]);
    schedule := Then(c, s, schedule, Turn(who));
  }

  /** Of two callers, the first holds every index of the mask below `k` and the second none. */
  ghost predicate Filled(c: Config, s: State, k: nat) {
    && Shaped(c, s) && |s.callers| == 2
    && s.callers[0].pc.Rest? && s.callers[1] == Caller(Rest, {})
    && (forall j: nat :: Bit(s.slots, j) <==> j < k && Bit(c.mask, j))
    && (forall j: nat :: j in s.callers[0].held <==> j < k && Bit(c.mask, j))
  }

  lemma {:induction false} Fill(c: Config, k: nat) returns (schedule: seq<Event>)
    requires c.Valid() && Shaped(c, Initial(2))
    ensures Filled(c, Run(c, Initial(2), schedule), k)
  {
    if k == 0 {
      schedule := [];
      forall j: nat ensures !Bit(0, j) { ZeroBit(j); }
    } else {
      schedule := Fill(c, k - 1);
      var t := Run(c, Initial(2), schedule);
      if Bit(c.mask, k - 1) {
        AllocTakesLowest(c, t.slots);
        assert !Bit(t.slots, k - 1);
        assert LowestFree(c, t.slots, k - 1);
        schedule := Alone(c, Initial(2), schedule, 0, Alloc);
      }
    }
  }

  /** The caller of the lower index loses it to one who frees the higher one that stands for it. */
  lemma Collide(c: Config, b: nat) returns (schedule: seq<Event>)
    requires c.Valid() && Shaped(c, Initial(2))
    requires b >= MAX_PMP_ENTRY_COUNT && Bit(c.mask, b) && Bit(c.mask, SlotOf(b))
    ensures !Exclusive(Run(c, Initial(2), schedule))
  {
    var slot := SlotOf(b);
    SlotBelow(c, b);
    schedule := Fill(c, b + 1);
    var t := Run(c, Initial(2), schedule);
    assert Bit(t.slots, slot) && b in t.callers[0].held && slot in t.callers[0].held;
    FreeClearsSlot(c, t.slots, b);
    schedule := Alone(c, Initial(2), schedule, 0, Free(b));
    var u := Run(c, Initial(2), schedule);
    AllocTakesLowest(c, u.slots);
    assert LowestFree(c, u.slots, slot);
    schedule := Alone(c, Initial(2), schedule, 1, Alloc);
    var v := Run(c, Initial(2), schedule);
    assert slot in v.callers[0].held && slot in v.callers[1].held;
  }

  /**
   No slot is ever held twice, under any interleaving of any number of callers that free what they hold,
   exactly when no index of the mask from 16 up stands for another index of the mask.
   */
  lemma ExclusiveIffApart(c: Config)
    requires c.Valid()
    ensures AlwaysExclusive(c) <==> Apart(c)
  {
    if Apart(c) {
      forall n: nat, schedule: seq<Event> ensures ExclusiveAfter(c, n, schedule) { RunKeeps(c, n, schedule); }
    } else {
      var b: nat :| Bit(c.mask, b) && b >= MAX_PMP_ENTRY_COUNT && Bit(c.mask, SlotOf(b));
      InitialShaped(c, 2);
      var schedule := Collide(c, b);
      assert !ExclusiveAfter(c, 2, schedule);
    }
  }

  /** In such runs the bitmap is exactly the set of held indices, and stays inside the mask. */
  lemma BitmapIsHeld(c: Config, n: nat, schedule: seq<Event>, k: nat)
    requires c.Valid() && Apart(c) && Shaped(c, Initial(n))
    ensures var s := Run(c, Initial(n), schedule);
            (Bit(s.slots, k) <==> HeldBySome(s, k)) && (Bit(s.slots, k) ==> Bit(c.mask, k))
  {
    RunKeeps(c, n, schedule);
  }

  // ----- when `free` undoes `alloc` -----

  /** Freeing the index that `alloc` returned succeeds and gives the bitmap back. */
  predicate FreeUndoes(c: Config, cur: nat)
    requires c.Valid() && cur < Pow2(c.w)
  {
    var a := AttemptAlloc(c, cur);
    a.Try? && a.result.Allocated? ==>
      a.bitmap < Pow2(c.w) && AttemptFree(c, a.bitmap, a.result.idx) == Try(cur, Freed)
  }

  /** From a given bitmap, `free` undoes `alloc` exactly when the slot taken is below 16. */
  lemma FreeUndoesIffLow(c: Config, cur: nat, idx: nat)
    requires c.Valid() && cur < Pow2(c.w) && LowestFree(c, cur, idx)
    ensures FreeUndoes(c, cur) <==> idx < MAX_PMP_ENTRY_COUNT
  {
    AllocTakesLowest(c, cur);
    var a := AttemptAlloc(c, cur);
    assert a.result.idx == idx;
    FreeClearsSlot(c, a.bitmap, idx);
    SlotBelow(c, idx);
    var f := AttemptFree(c, a.bitmap, idx);
    if idx < MAX_PMP_ENTRY_COUNT { SameBits(f.bitmap, cur); }
  }

  ghost predicate AlwaysUndoes(c: Config)
    requires c.Valid()
  {
    forall cur: nat | cur < Pow2(c.w) && (forall k: nat :: Bit(cur, k) ==> Bit(c.mask, k)) :: FreeUndoes(c, cur)
  }

  /** From every bitmap within the mask, `free` undoes `alloc`, exactly when the mask lies below bit 16. */
  lemma UndoesIffMaskLow(c: Config)
    requires c.Valid()
    ensures AlwaysUndoes(c) <==> c.mask < Pow2(MAX_PMP_ENTRY_COUNT)
  {
    FitsIffNoHighBit(c.mask, MAX_PMP_ENTRY_COUNT);
    if c.mask < Pow2(MAX_PMP_ENTRY_COUNT) {
      forall cur: nat | cur < Pow2(c.w) ensures FreeUndoes(c, cur) {
        AllocTakesLowest(c, cur);
        if !AllTaken(c, cur) { FreeUndoesIffLow(c, cur, AttemptAlloc(c, cur).result.idx); }
      }
    } else {
      var b: nat :| MAX_PMP_ENTRY_COUNT <= b && Bit(c.mask, b);
      FitsIffNoHighBit(c.mask, c.w);
      Pow2Monotone(b, c.w);
      ClearBit(c, c.mask, b);
      var cur := And(c.mask, Not(c.w, Pow2(b)));
      assert LowestFree(c, cur, b);
      FreeUndoesIffLow(c, cur, b);
      assert !FreeUndoes(c, cur);
    }
  }
}
