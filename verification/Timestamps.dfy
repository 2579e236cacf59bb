/**
  Block time slots (contracts/eosiolib/time.hpp): slots of three seconds counted
  from the year 2000, in 32 bits, against microseconds since 1970.
*/
module Timestamps {
  import opened Lists

  const INTERVAL_MS := 3000
  const EPOCH_MS := 946684800000
  const SLOTS := 0x1_0000_0000
  const INT64 := 0x8000_0000_0000_0000

  /** Division that rounds towards zero, as in C++. */
  function TruncatedDiv(a: int, b: int): int
    requires b > 0
  {
    if a >= 0 then a / b else -((-a) / b)
  }

  /** The time at which a slot starts, in microseconds. */
  function TimeOf(slot: int): int {
    (slot * INTERVAL_MS + EPOCH_MS) * 1000
  }

  class BlockTimestamp {
    var slot: nat

    constructor (s: nat)
      requires s < SLOTS
      ensures slot == s
    {
      slot := s;
    }

    /** Sets the slot from a time in microseconds. It is the slot that contains the time exactly when the
        time lies within the 32-bit range of slots. */
    method SetTimePoint(t: int)
      requires -INT64 <= t < INT64
      modifies this
      ensures slot == SlotOf(t) < SLOTS
      ensures var since := t - 946684800000000;
              slot * 3000000 <= since < (slot + 1) * 3000000 <==> 0 <= since < 0x1_0000_0000 * 3000000
    {
      var msec := TruncatedDiv(t, 1000);
      var slots := TruncatedDiv(msec - EPOCH_MS, INTERVAL_MS);
      SlotContains(t);
      slot := slots % SLOTS;
    }

    /** Sets the slot from whole seconds: the same slot as from the same time in microseconds. */
    method SetTimePointSec(seconds: nat)
      requires seconds < SLOTS
      modifies this
      ensures slot == SlotOf(seconds * 1000000)
    {
      SecondsAgree(seconds);
      slot := TruncatedDiv(seconds * 1000 - EPOCH_MS, INTERVAL_MS) % SLOTS;
    }

    /** The slot after this one, unless this is the last one. */
    method Next() returns (next: Option<nat>)
      requires slot < SLOTS
      ensures next.None? <==> slot == 0xFFFF_FFFF
      ensures next.Some? ==> next.value < SLOTS && TimeOf(next.value) == TimeOf(slot) + 3000000
    {
      next := if SLOTS - 1 - slot >= 1 then Some(slot + 1) else None;
    }
  }

  /** The slot of a time in microseconds. */
  function SlotOf(t: int): int {
    TruncatedDiv(TruncatedDiv(t, 1000) - EPOCH_MS, INTERVAL_MS) % SLOTS
  }

  lemma SecondsAgree(seconds: nat)
    ensures TruncatedDiv(seconds * 1000000, 1000) == seconds * 1000
  {
  }

  /** A time lies in its slot exactly when it is not before the epoch nor after the last slot. */
  lemma SlotContains(t: int)
    ensures 0 <= SlotOf(t) < SLOTS
    ensures var since := t - 946684800000000;
            SlotOf(t) * 3000000 <= since < (SlotOf(t) + 1) * 3000000 <==> 0 <= since < 0x1_0000_0000 * 3000000
  {
    if TimeOf(0) <= t < TimeOf(SLOTS) {
      InRange(t);
    }
  }

  lemma InRange(t: int)
    requires TimeOf(0) <= t < TimeOf(SLOTS)
    ensures SlotOf(t) == (t / 1000 - EPOCH_MS) / INTERVAL_MS
    ensures TimeOf(SlotOf(t)) <= t < TimeOf(SlotOf(t) + 1)
  {
    var msec := t / 1000;
    assert EPOCH_MS <= msec < SLOTS * INTERVAL_MS + EPOCH_MS;
    assert 0 <= (msec - EPOCH_MS) / INTERVAL_MS < SLOTS;
  }

  /** A time before the epoch gets the first slot if it is less than three seconds early, counted in milliseconds
      begun, and otherwise a slot at the upper end of the range. */
  lemma BeforeEpoch(t: nat)
    requires t < 946684800000000
    ensures var early := (946684800000000 - t + 999) / 1000;
            SlotOf(t) == if early < 3000 then 0 else 0x1_0000_0000 - early / 3000
  {
    var early := (946684800000000 - t + 999) / 1000;
    assert EPOCH_MS - t / 1000 == early;
    assert TruncatedDiv(t / 1000 - EPOCH_MS, INTERVAL_MS) == -(early / INTERVAL_MS);
  }

  /** From slot to time and back nothing changes, for every 32-bit slot. */
  lemma SlotRoundTrip(slot: nat)
    requires slot < 0x1_0000_0000
    ensures TimeOf(slot) == 946684800000000 + slot * 3000000 && SlotOf(TimeOf(slot)) == slot
  {
    InRange(TimeOf(slot));
  }

  /** Later times have later slots, as long as both are in range. */
  lemma SlotMonotone(t: int, u: int)
    requires 946684800000000 <= t <= u < 946684800000000 + 0x1_0000_0000 * 3000000
    ensures SlotOf(t) <= SlotOf(u)
  {
    InRange(t);
    InRange(u);
  }
}
