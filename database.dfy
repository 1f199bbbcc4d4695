/** The keeper's store (src/database.rs): two tables, `market_update_events`
    and `close_position_events`, each written by one `INSERT ... ON CONFLICT
    (signature) DO NOTHING`. The connection pool is not modelled; whether a
    write reaches the store is a `StoreFault` the caller supplies. */
module Store {
  import opened Wrappers
  import opened Ints

  /** A `market_update_events` row, without its key. */
  datatype MarketRow = MarketRow(slot: i64, marketId: i64, baseFlow: i64, quoteFlow: i64)

  /** A `close_position_events` row, without its key. */
  datatype CloseRow = CloseRow(
    slot: i64,
    positionAuthority: string,
    marketId: i64,
    startSlot: i64,
    endSlot: i64,
    depositAmount: i64,
    swappedAmount: i64,
    remainingAmount: i64,
    feeAmount: i64,
    isBuy: i16)

  /** How one write fares: it reaches the table, no pooled connection can be
      had, or the statement itself fails (the store's error text). */
  datatype StoreFault = NoFault | PoolUnavailable | ExecuteFailed(detail: string)

  /** `is_buy as i16`: widening keeps the value. */
  function AsI16(x: u8): (r: i16)
    ensures r == x
  {
    x
  }

  /** The row `insert_market_update_event` binds: every u64 goes through
      `as i64`. */
  function MarketRowOf(slot: u64, marketId: u64, baseFlow: u64, quoteFlow: u64): MarketRow {
    MarketRow(AsI64(slot), AsI64(marketId), AsI64(baseFlow), AsI64(quoteFlow))
  }

  /** The row `insert_close_position_event` binds. */
  function CloseRowOf(
    slot: u64, positionAuthority: string, marketId: u64, startSlot: u64, endSlot: u64,
    depositAmount: u64, swappedAmount: u64, remainingAmount: u64, feeAmount: u64, isBuy: u8): CloseRow
  {
    CloseRow(AsI64(slot), positionAuthority, AsI64(marketId), AsI64(startSlot), AsI64(endSlot),
             AsI64(depositAmount), AsI64(swappedAmount), AsI64(remainingAmount), AsI64(feeAmount),
             AsI16(isBuy))
  }

  /** Stored market rows read back as u64 give the original numbers: the
      casts lose nothing, although values from 2^63 up are stored negative. */
  lemma MarketRowLossless(slot: u64, marketId: u64, baseFlow: u64, quoteFlow: u64)
    ensures var row := MarketRowOf(slot, marketId, baseFlow, quoteFlow);
      && AsU64(row.slot) == slot && AsU64(row.marketId) == marketId
      && AsU64(row.baseFlow) == baseFlow && AsU64(row.quoteFlow) == quoteFlow
      && (row.baseFlow < 0 <==> baseFlow >= TWO_POW_63)
      && (row.quoteFlow < 0 <==> quoteFlow >= TWO_POW_63)
  {
  }

  /** The same for close rows, whose `is_buy` is kept as it is. */
  lemma CloseRowLossless(
    slot: u64, positionAuthority: string, marketId: u64, startSlot: u64, endSlot: u64,
    depositAmount: u64, swappedAmount: u64, remainingAmount: u64, feeAmount: u64, isBuy: u8)
    ensures var row := CloseRowOf(slot, positionAuthority, marketId, startSlot, endSlot,
                                  depositAmount, swappedAmount, remainingAmount, feeAmount, isBuy);
      && AsU64(row.slot) == slot && row.positionAuthority == positionAuthority
      && AsU64(row.marketId) == marketId && AsU64(row.startSlot) == startSlot
      && AsU64(row.endSlot) == endSlot && AsU64(row.depositAmount) == depositAmount
      && AsU64(row.swappedAmount) == swappedAmount && AsU64(row.remainingAmount) == remainingAmount
      && AsU64(row.feeAmount) == feeAmount && row.isBuy == isBuy
  {
  }

  /** `ON CONFLICT (signature) DO NOTHING`: the row is added under `key`
      unless the key is taken. */
  function InsertOrIgnore<V>(table: map<string, V>, key: string, row: V): (r: map<string, V>)
    ensures key in r && r.Keys == table.Keys + {key}
    ensures key in table ==> r == table
    ensures key !in table ==> r[key] == row
    ensures forall k :: k in table ==> r[k] == table[k]
  {
    if key in table then table else table[key := row]
  }

  /** Writing again under a key already written changes nothing, whatever
      the second row holds. */
  lemma InsertOrIgnoreIdempotent<V>(table: map<string, V>, key: string, row: V, again: V)
    ensures InsertOrIgnore(InsertOrIgnore(table, key, row), key, again) == InsertOrIgnore(table, key, row)
  {
  }

  /** A run of writes, in order. */
  function InsertAll<V>(table: map<string, V>, writes: seq<(string, V)>): map<string, V>
    decreases |writes|
  {
    if |writes| == 0 then table
    else InsertOrIgnore(InsertAll(table, writes[..|writes| - 1]), writes[|writes| - 1].0, writes[|writes| - 1].1)
  }

  /** `writes[i]` is the first write under `key`. */
  predicate FirstWriteOf<V>(writes: seq<(string, V)>, key: string, i: int) {
    0 <= i < |writes| && writes[i].0 == key && forall j :: 0 <= j < i ==> writes[j].0 != key
  }

  /** Over a run of writes the first write under a fresh key wins: a key
      ends up present iff it was present or written, a present key keeps its
      row, and a fresh key holds the row of its first write. */
  lemma {:induction false} FirstWriteWins<V>(table: map<string, V>, writes: seq<(string, V)>, key: string)
    ensures key in InsertAll(table, writes) <==> key in table || exists i :: 0 <= i < |writes| && writes[i].0 == key
    ensures key in table ==> InsertAll(table, writes)[key] == table[key]
    ensures key !in table ==>
      forall i :: FirstWriteOf(writes, key, i) ==> InsertAll(table, writes)[key] == writes[i].1
    decreases |writes|
  {
    if |writes| > 0 {
      var init := writes[..|writes| - 1];
      FirstWriteWins(table, init, key);
      forall i | key !in table && FirstWriteOf(writes, key, i)
        ensures InsertAll(table, writes)[key] == writes[i].1
      {
        if i < |init| {
          assert init[i] == writes[i];
          assert forall j :: 0 <= j < i ==> init[j] == writes[j];
        } else {
          assert forall j :: 0 <= j < |init| ==> init[j].0 != key by {
            forall j | 0 <= j < |init| ensures init[j].0 != key { assert init[j] == writes[j]; }
          }
        }
      }
      if key in InsertAll(table, writes) && key !in table {
        if key != writes[|writes| - 1].0 {
          var i :| 0 <= i < |init| && init[i].0 == key;
          assert writes[i] == init[i];
        }
      }
      if exists i :: 0 <= i < |writes| && writes[i].0 == key {
        var i :| 0 <= i < |writes| && writes[i].0 == key;
        if i < |init| { assert init[i] == writes[i]; }
      }
    }
  }

  /** Delivering the same run of writes twice leaves the table as one
      delivery does. */
  lemma {:induction false} InsertAllIdempotent<V>(table: map<string, V>, writes: seq<(string, V)>)
    ensures InsertAll(InsertAll(table, writes), writes) == InsertAll(table, writes)
  {
    var once := InsertAll(table, writes);
    forall i | 0 <= i < |writes| ensures writes[i].0 in once {
      FirstWriteWins(table, writes, writes[i].0);
    }
    InsertAllAbsorbs(once, writes);
  }

  /** Writes whose keys are all taken are all ignored. */
  lemma {:induction false} InsertAllAbsorbs<V>(table: map<string, V>, writes: seq<(string, V)>)
    requires forall i :: 0 <= i < |writes| ==> writes[i].0 in table
    ensures InsertAll(table, writes) == table
    decreases |writes|
  {
    if |writes| > 0 {
      InsertAllAbsorbs(table, writes[..|writes| - 1]);
    }
  }

  /** `Database`, reduced to the contents of its two tables. */
  class Database {
    var marketUpdateEvents: map<string, MarketRow>
    var closePositionEvents: map<string, CloseRow>

    /** A handle on a store that already holds the given rows. */
    constructor (market: map<string, MarketRow>, close: map<string, CloseRow>)
      ensures marketUpdateEvents == market && closePositionEvents == close
    {
      marketUpdateEvents := market;
      closePositionEvents := close;
    }

    /** `insert_market_update_event`: insert-or-ignore under the signature
        when the write goes through (a duplicate signature is `Ok` too); on
        a fault, `Err` and no change, with no retry. The close table is
        never touched. */
    method InsertMarketUpdateEvent(
      signature: string, slot: u64, marketId: u64, baseFlow: u64, quoteFlow: u64, fault: StoreFault)
      returns (r: Result<Unit, string>)
      modifies this`marketUpdateEvents
      ensures r.Ok? <==> fault.NoFault?
      ensures r == WriteOutcome(fault, "Failed to insert market update event: ")
      ensures marketUpdateEvents ==
        if fault.NoFault? then InsertOrIgnore(old(marketUpdateEvents), signature, MarketRowOf(slot, marketId, baseFlow, quoteFlow))
        else old(marketUpdateEvents)
    {
      match fault
      case PoolUnavailable =>
        r := Err(PoolErrorMessage);
      case ExecuteFailed(detail) =>
        r := Err("Failed to insert market update event: " + detail);
      case NoFault =>
        if signature !in marketUpdateEvents {
          marketUpdateEvents := marketUpdateEvents[signature := MarketRowOf(slot, marketId, baseFlow, quoteFlow)];
        }
        r := Ok(Unit);
    }

    /** `insert_close_position_event`: the same, for the close table, with
        all ten fields stored under the signature. */
    method InsertClosePositionEvent(
      signature: string, slot: u64, positionAuthority: string, marketId: u64, startSlot: u64,
      endSlot: u64, depositAmount: u64, swappedAmount: u64, remainingAmount: u64, feeAmount: u64,
      isBuy: u8, fault: StoreFault)
      returns (r: Result<Unit, string>)
      modifies this`closePositionEvents
      ensures r.Ok? <==> fault.NoFault?
      ensures r == WriteOutcome(fault, "Failed to insert close position event: ")
      ensures closePositionEvents ==
        if fault.NoFault? then
          InsertOrIgnore(old(closePositionEvents), signature,
            CloseRowOf(slot, positionAuthority, marketId, startSlot, endSlot,
                       depositAmount, swappedAmount, remainingAmount, feeAmount, isBuy))
        else old(closePositionEvents)
    {
      match fault
      case PoolUnavailable =>
        r := Err(PoolErrorMessage);
      case ExecuteFailed(detail) =>
        r := Err("Failed to insert close position event: " + detail);
      case NoFault =>
        var row := CloseRowOf(slot, positionAuthority, marketId, startSlot, endSlot,
                              depositAmount, swappedAmount, remainingAmount, feeAmount, isBuy);
        if signature !in closePositionEvents {
          closePositionEvents := closePositionEvents[signature := row];
        }
        r := Ok(Unit);
    }
  }

  const PoolErrorMessage: string := "Failed to get connection"

  /** What an insert returns: `Ok(())` when the write goes through,
      otherwise the error of the failing step, the statement's own error
      prefixed with `context`, or the pool's own message when no
      connection can be had. */
  function WriteOutcome(fault: StoreFault, context: string): (r: Result<Unit, string>)
    ensures r.Ok? <==> fault.NoFault?
    ensures fault.ExecuteFailed? ==>
      && r.Err? && |r.error| == |context| + |fault.detail|
      && r.error[..|context|] == context && r.error[|context|..] == fault.detail
    ensures fault.PoolUnavailable? ==> r == Err(PoolErrorMessage)
  {
    match fault
    case NoFault => Ok(Unit)
    case PoolUnavailable => Err(PoolErrorMessage)
    case ExecuteFailed(detail) => Err(context + detail)
  }
}
