/** The decision the bookkeeper bot takes on each pass of its loop
    (src/bin/bookkeeper/main.rs): given the bookkeeping account's
    `last_update_slot` and the cluster's current slot, either update the
    books for the slot 500 after the last update, or sleep until that slot
    is due. Arithmetic is on u64 with the overflow checks of a debug build:
    an overflow or underflow ends the bot with a panic. */
module Bookkeeper {
  import opened Ints

  const SlotsBetweenUpdates: nat := 500
  const EstimatedSlotDurationMs: nat := 401
  /** One exits/prices account covers 10 end-slot intervals of 100 slots. */
  const SlotsPerIndex: nat := 1000

  datatype Panic = AddOverflow | IndexUnderflow | MulOverflow

  datatype Action =
    | UpdateBooks(referenceSlot: u64, referenceIndex: u64, previousIndex: u64)
    | Sleep(durationMs: u64)
    | Panicked(panic: Panic)

  /** One pass of the loop. */
  function NextAction(lastUpdateSlot: u64, currentSlot: u64): (a: Action)
    ensures a.UpdateBooks? ==>
      && currentSlot >= lastUpdateSlot + SlotsBetweenUpdates
      && a.referenceSlot == lastUpdateSlot + SlotsBetweenUpdates
      && a.referenceIndex * SlotsPerIndex <= a.referenceSlot < (a.referenceIndex + 1) * SlotsPerIndex
      && a.previousIndex + 1 == a.referenceIndex
    ensures a.Sleep? ==>
      && currentSlot < lastUpdateSlot + SlotsBetweenUpdates
      && a.durationMs == (lastUpdateSlot + SlotsBetweenUpdates - currentSlot) * EstimatedSlotDurationMs
      && a.durationMs >= EstimatedSlotDurationMs
      && (currentSlot >= lastUpdateSlot ==> a.durationMs <= SlotsBetweenUpdates * EstimatedSlotDurationMs)
  {
    if lastUpdateSlot + SlotsBetweenUpdates > U64_MAX then Panicked(AddOverflow)
    else if currentSlot >= lastUpdateSlot + SlotsBetweenUpdates then
      var referenceSlot := lastUpdateSlot + SlotsBetweenUpdates;
      var referenceIndex := referenceSlot / SlotsPerIndex;
      if referenceIndex == 0 then Panicked(IndexUnderflow)
      else UpdateBooks(referenceSlot, referenceIndex, referenceIndex - 1)
    else
      var durationMs := (lastUpdateSlot + SlotsBetweenUpdates - currentSlot) * EstimatedSlotDurationMs;
      if durationMs > U64_MAX then Panicked(MulOverflow) else Sleep(durationMs)
  }

  /** The books are updated exactly when the slot 500 after the last update
      has been reached (when that slot is below 1000 the previous index
      underflows instead), and the bot panics on the first addition only
      when that slot does not fit in a u64. */
  lemma UpdateIffDue(lastUpdateSlot: u64, currentSlot: u64)
    ensures NextAction(lastUpdateSlot, currentSlot) == Panicked(AddOverflow)
            <==> lastUpdateSlot + SlotsBetweenUpdates > U64_MAX
    ensures lastUpdateSlot + SlotsBetweenUpdates <= U64_MAX ==>
      (NextAction(lastUpdateSlot, currentSlot).UpdateBooks? || NextAction(lastUpdateSlot, currentSlot) == Panicked(IndexUnderflow)
       <==> currentSlot >= lastUpdateSlot + SlotsBetweenUpdates)
    ensures NextAction(lastUpdateSlot, currentSlot) == Panicked(IndexUnderflow)
            <==> currentSlot >= lastUpdateSlot + SlotsBetweenUpdates && lastUpdateSlot + SlotsBetweenUpdates < SlotsPerIndex
  {
  }

  /** The update does not depend on how far past due the bot is: any two
      current slots that both lead to an update lead to the same one. */
  lemma UpdateIgnoresCurrentSlot(lastUpdateSlot: u64, currentSlot: u64, laterSlot: u64)
    requires NextAction(lastUpdateSlot, currentSlot).UpdateBooks?
    requires laterSlot >= currentSlot
    ensures NextAction(lastUpdateSlot, laterSlot) == NextAction(lastUpdateSlot, currentSlot)
  {
  }

  /** With the current slot at or after the last update the sleep never
      overflows: every such pass either updates, sleeps or hits the index
      underflow. */
  lemma NoSleepOverflowWhenCaughtUp(lastUpdateSlot: u64, currentSlot: u64)
    requires currentSlot >= lastUpdateSlot
    ensures NextAction(lastUpdateSlot, currentSlot) != Panicked(MulOverflow)
  {
  }

  /** Sleeping the computed time and adding one slot per 401 ms brings
      the bot to the due slot. */
  lemma SleepReachesDueSlot(lastUpdateSlot: u64, currentSlot: u64)
    requires NextAction(lastUpdateSlot, currentSlot).Sleep?
    ensures currentSlot + NextAction(lastUpdateSlot, currentSlot).durationMs / EstimatedSlotDurationMs
            == lastUpdateSlot + SlotsBetweenUpdates
  {
  }
}
