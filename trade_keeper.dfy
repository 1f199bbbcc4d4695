/** One pass of the trade keeper's loop (src/bin/trade-keeper/main.rs):
    every position whose end slot has passed is closed, with the exits and
    prices accounts of its end index, of the current index and of the index
    before it; for the positions still open, the smallest end slot is kept.
    u64 arithmetic has the checks of a debug build, so `reference_index - 1`
    at a current slot below 1000 panics at the first expired position. */
module TradeKeeper {
  import opened Wrappers
  import opened Ints

  const SlotsPerIndex: nat := 1000

  /** The fields of a `TradePosition` account the keeper looks at. */
  datatype TradePosition = TradePosition(address: string, authority: string, endSlot: u64)

  /** The index arguments of one `PublicClosePosition` instruction. */
  datatype CloseOrder = CloseOrder(position: string, endIndex: u64, referenceIndex: u64, previousIndex: u64)

  /** What a pass produces when it does not panic. */
  datatype Pass = Pass(closes: seq<CloseOrder>, nextEndSlot: u64)

  datatype Panic = IndexUnderflow

  /** A position is closed once the current slot is strictly past its end. */
  predicate Expired(currentSlot: u64, p: TradePosition) {
    currentSlot > p.endSlot
  }

  /** The close order for an expired position. */
  function CloseOrderFor(currentSlot: u64, p: TradePosition): (o: CloseOrder)
    requires currentSlot >= SlotsPerIndex && Expired(currentSlot, p)
    ensures o.endIndex <= o.referenceIndex && o.previousIndex + 1 == o.referenceIndex
    ensures o.referenceIndex * SlotsPerIndex <= currentSlot < (o.referenceIndex + 1) * SlotsPerIndex
    ensures o.endIndex * SlotsPerIndex <= p.endSlot < (o.endIndex + 1) * SlotsPerIndex
  {
    CloseOrder(p.address, p.endSlot / SlotsPerIndex, currentSlot / SlotsPerIndex, currentSlot / SlotsPerIndex - 1)
  }

  /** The close orders of a pass, in account order. */
  function ClosesOf(currentSlot: u64, positions: seq<TradePosition>): seq<CloseOrder>
    requires currentSlot >= SlotsPerIndex
  {
    if |positions| == 0 then []
    else
      var last := positions[|positions| - 1];
      ClosesOf(currentSlot, positions[..|positions| - 1])
      + (if Expired(currentSlot, last) then [CloseOrderFor(currentSlot, last)] else [])
  }

  /** The smallest end slot of the positions still open, `u64::MAX` when
      none is. */
  function MinOpenEndSlot(currentSlot: u64, positions: seq<TradePosition>): (r: u64)
    ensures r >= currentSlot
    ensures r == U64_MAX || exists i :: 0 <= i < |positions| && positions[i].endSlot == r
  {
    if |positions| == 0 then U64_MAX
    else
      var last := positions[|positions| - 1];
      var rest := MinOpenEndSlot(currentSlot, positions[..|positions| - 1]);
      if !Expired(currentSlot, last) && last.endSlot < rest then last.endSlot else rest
  }

  /** `MinOpenEndSlot` is the minimum: no open position ends before it, and
      it is the end slot of an open position unless it is `u64::MAX`. It
      is never before the current slot. */
  lemma {:induction false} MinOpenEndSlotIsMinimum(currentSlot: u64, positions: seq<TradePosition>)
    ensures forall i :: 0 <= i < |positions| && !Expired(currentSlot, positions[i]) ==>
      MinOpenEndSlot(currentSlot, positions) <= positions[i].endSlot
    ensures MinOpenEndSlot(currentSlot, positions) == U64_MAX
      || exists i :: 0 <= i < |positions| && !Expired(currentSlot, positions[i])
                     && positions[i].endSlot == MinOpenEndSlot(currentSlot, positions)
    ensures MinOpenEndSlot(currentSlot, positions) >= currentSlot
    decreases |positions|
  {
    if |positions| > 0 {
      var init := positions[..|positions| - 1];
      MinOpenEndSlotIsMinimum(currentSlot, init);
      forall i | 0 <= i < |init| ensures init[i] == positions[i] { }
    }
  }

  /** Exactly the expired positions are closed, each once, in account
      order: the k-th order belongs to the k-th expired position. */
  lemma {:induction false} ClosesAreTheExpired(currentSlot: u64, positions: seq<TradePosition>)
    requires currentSlot >= SlotsPerIndex
    ensures |ClosesOf(currentSlot, positions)| == ExpiredCount(currentSlot, positions)
    ensures forall i :: 0 <= i < |positions| && Expired(currentSlot, positions[i]) ==>
      ExpiredCount(currentSlot, positions[..i]) < |ClosesOf(currentSlot, positions)|
      && ClosesOf(currentSlot, positions)[ExpiredCount(currentSlot, positions[..i])] == CloseOrderFor(currentSlot, positions[i])
    decreases |positions|
  {
    if |positions| > 0 {
      var n := |positions| - 1;
      var init := positions[..n];
      ClosesAreTheExpired(currentSlot, init);
      forall i | 0 <= i < |positions| && Expired(currentSlot, positions[i])
        ensures ExpiredCount(currentSlot, positions[..i]) < |ClosesOf(currentSlot, positions)|
        ensures ClosesOf(currentSlot, positions)[ExpiredCount(currentSlot, positions[..i])] == CloseOrderFor(currentSlot, positions[i])
      {
        if i < n {
          assert init[i] == positions[i];
          assert init[..i] == positions[..i];
        } else {
          assert positions[..i] == init;
        }
      }
    }
  }

  /** The number of expired positions. */
  function ExpiredCount(currentSlot: u64, positions: seq<TradePosition>): nat {
    if |positions| == 0 then 0
    else ExpiredCount(currentSlot, positions[..|positions| - 1])
         + (if Expired(currentSlot, positions[|positions| - 1]) then 1 else 0)
  }

  /** The loop over `position_accounts`. It panics exactly when some
      position has expired while the current slot is below 1000; otherwise
      it closes the expired positions and leaves `next_end_slot` at the
      smallest end slot still open, never before the current slot. */
  method ScanPositions(currentSlot: u64, positions: seq<TradePosition>) returns (r: Result<Pass, Panic>)
    ensures r.Err? <==> currentSlot < SlotsPerIndex && exists i :: 0 <= i < |positions| && Expired(currentSlot, positions[i])
    ensures r.Ok? ==> r.value.closes == if currentSlot >= SlotsPerIndex then ClosesOf(currentSlot, positions) else []
    ensures r.Ok? ==> r.value.nextEndSlot == MinOpenEndSlot(currentSlot, positions)
    ensures r.Ok? ==> r.value.nextEndSlot >= currentSlot
    ensures r.Ok? ==> forall o :: o in r.value.closes ==> o.endIndex <= o.referenceIndex
  {
    var nextEndSlot: u64 := U64_MAX;
    var referenceIndex := currentSlot / SlotsPerIndex;
    var closes: seq<CloseOrder> := [];
    var i := 0;
    while i < |positions|
      invariant 0 <= i <= |positions|
      invariant forall j :: 0 <= j < i ==> !(currentSlot < SlotsPerIndex && Expired(currentSlot, positions[j]))
      invariant currentSlot >= SlotsPerIndex ==> closes == ClosesOf(currentSlot, positions[..i])
      invariant currentSlot < SlotsPerIndex ==> closes == []
      invariant nextEndSlot == MinOpenEndSlot(currentSlot, positions[..i])
    {
      var p := positions[i];
      assert positions[..i + 1][..i] == positions[..i];
      if currentSlot > p.endSlot {
        var endIndex := p.endSlot / SlotsPerIndex;
        if referenceIndex == 0 {
          return Err(IndexUnderflow);
        }
        closes := closes + [CloseOrder(p.address, endIndex, referenceIndex, referenceIndex - 1)];
      } else {
        if p.endSlot < nextEndSlot {
          nextEndSlot := p.endSlot;
        }
      }
      i := i + 1;
    }
    assert positions[..i] == positions;
    MinOpenEndSlotIsMinimum(currentSlot, positions);
    if currentSlot >= SlotsPerIndex {
      forall o | o in closes ensures o.endIndex <= o.referenceIndex {
        ClosesWellIndexed(currentSlot, positions);
      }
    }
    r := Ok(Pass(closes, nextEndSlot));
  }

  /** Every close order has its end index at or before the current index. */
  lemma {:induction false} ClosesWellIndexed(currentSlot: u64, positions: seq<TradePosition>)
    requires currentSlot >= SlotsPerIndex
    ensures forall o :: o in ClosesOf(currentSlot, positions) ==> o.endIndex <= o.referenceIndex
    decreases |positions|
  {
    if |positions| > 0 {
      ClosesWellIndexed(currentSlot, positions[..|positions| - 1]);
    }
  }
}
