/** `handle_logs_notification`: one transaction's notification is parsed,
    every decoded event is counted and then written to its table, and a
    failed write is counted as a database error (src/bin/event-keeper/main.rs). */
module Notifications {
  import opened Wrappers
  import opened Ints
  import opened Text
  import opened LogLines
  import opened Events
  import opened Stats
  import opened Store
  import opened Attribution

  /** One notification of the log feed: the slot, the transaction
      signature and the transaction's log lines in order. */
  datatype LogNotification = LogNotification(slot: u64, signature: string, logs: seq<string>)

  /** The market write an event asks for. */
  function MarketWrite(signature: string, slot: u64, e: MarketUpdateEvent): (string, MarketRow) {
    (signature, MarketRowOf(slot, e.marketId, e.baseFlow, e.quoteFlow))
  }

  /** The close write an event asks for. */
  function CloseWrite(signature: string, slot: u64, e: ClosePositionEvent): (string, CloseRow) {
    (signature, CloseRowOf(slot, e.positionAuthority, e.marketId, e.startSlot, e.endSlot,
                           e.depositAmount, e.swappedAmount, e.remainingAmount, e.feeAmount, e.isBuy))
  }

  /** The market writes that reach the store: the k-th event's write fares
      as `faults(k)` says. */
  function MarketWrites(signature: string, slot: u64, events: seq<KeeperEvent>, faults: nat -> StoreFault)
    : seq<(string, MarketRow)>
    decreases |events|
  {
    if |events| == 0 then []
    else
      var k := |events| - 1;
      MarketWrites(signature, slot, events[..k], faults)
      + (if events[k].MarketUpdate? && faults(k).NoFault? then [MarketWrite(signature, slot, events[k].market)] else [])
  }

  /** The close writes that reach the store. */
  function CloseWrites(signature: string, slot: u64, events: seq<KeeperEvent>, faults: nat -> StoreFault)
    : seq<(string, CloseRow)>
    decreases |events|
  {
    if |events| == 0 then []
    else
      var k := |events| - 1;
      CloseWrites(signature, slot, events[..k], faults)
      + (if events[k].ClosePosition? && faults(k).NoFault? then [CloseWrite(signature, slot, events[k].close)] else [])
  }

  function MarketCount(events: seq<KeeperEvent>): nat {
    if |events| == 0 then 0
    else MarketCount(events[..|events| - 1]) + (if events[|events| - 1].MarketUpdate? then 1 else 0)
  }

  function CloseCount(events: seq<KeeperEvent>): nat {
    if |events| == 0 then 0
    else CloseCount(events[..|events| - 1]) + (if events[|events| - 1].ClosePosition? then 1 else 0)
  }

  /** The number of writes among the first `|events|` that fail. */
  function FailedInserts(events: seq<KeeperEvent>, faults: nat -> StoreFault): nat {
    if |events| == 0 then 0
    else FailedInserts(events[..|events| - 1], faults) + (if faults(|events| - 1).NoFault? then 0 else 1)
  }

  /** The stats after the events are counted: every event is counted before
      its write is tried, so a duplicate or failed write is counted too;
      only the failed writes add database errors. */
  function Recorded(v: StatsView, events: seq<KeeperEvent>, faults: nat -> StoreFault): StatsView {
    v.(marketEvents := v.marketEvents + MarketCount(events),
       closeEvents := v.closeEvents + CloseCount(events),
       dbErrors := v.dbErrors + FailedInserts(events, faults),
       marketSeen := v.marketSeen || MarketCount(events) > 0,
       closeSeen := v.closeSeen || CloseCount(events) > 0)
  }

  /** The stats after one event is counted and its write, faring as
      `fault` says, is tried. */
  function RecordedOne(v: StatsView, event: KeeperEvent, fault: StoreFault): StatsView {
    v.(marketEvents := v.marketEvents + (if event.MarketUpdate? then 1 else 0),
       closeEvents := v.closeEvents + (if event.ClosePosition? then 1 else 0),
       dbErrors := v.dbErrors + (if fault.NoFault? then 0 else 1),
       marketSeen := v.marketSeen || event.MarketUpdate?,
       closeSeen := v.closeSeen || event.ClosePosition?)
  }

  lemma RecordedSnoc(v: StatsView, events: seq<KeeperEvent>, e: KeeperEvent, faults: nat -> StoreFault)
    ensures Recorded(v, events + [e], faults) == RecordedOne(Recorded(v, events, faults), e, faults(|events|))
  {
    CountsSnoc("", 0, events, e, faults);
  }

  /** One more event, for the summaries of the counting loop. */
  lemma CountsSnoc(signature: string, slot: u64, events: seq<KeeperEvent>, e: KeeperEvent, faults: nat -> StoreFault)
    ensures var longer := events + [e];
      var k := |events|;
      && MarketCount(longer) == MarketCount(events) + (if e.MarketUpdate? then 1 else 0)
      && CloseCount(longer) == CloseCount(events) + (if e.ClosePosition? then 1 else 0)
      && FailedInserts(longer, faults) == FailedInserts(events, faults) + (if faults(k).NoFault? then 0 else 1)
      && MarketWrites(signature, slot, longer, faults) == MarketWrites(signature, slot, events, faults)
         + (if e.MarketUpdate? && faults(k).NoFault? then [MarketWrite(signature, slot, e.market)] else [])
      && CloseWrites(signature, slot, longer, faults) == CloseWrites(signature, slot, events, faults)
         + (if e.ClosePosition? && faults(k).NoFault? then [CloseWrite(signature, slot, e.close)] else [])
  {
    assert (events + [e])[..|events|] == events;
  }

  /** Each write is one step of a run of writes. */
  lemma InsertAllSnoc<V>(table: map<string, V>, writes: seq<(string, V)>, w: (string, V))
    ensures InsertAll(table, writes + [w]) == InsertOrIgnore(InsertAll(table, writes), w.0, w.1)
  {
    assert (writes + [w])[..|writes|] == writes;
  }

  /** The tables after one more event's write. */
  lemma TablesSnoc(
    market0: map<string, MarketRow>, close0: map<string, CloseRow>, signature: string, slot: u64,
    events: seq<KeeperEvent>, e: KeeperEvent, faults: nat -> StoreFault)
    ensures var k := |events|;
      InsertAll(market0, MarketWrites(signature, slot, events + [e], faults)) ==
        if e.MarketUpdate? && faults(k).NoFault? then
          InsertOrIgnore(InsertAll(market0, MarketWrites(signature, slot, events, faults)), signature, MarketWrite(signature, slot, e.market).1)
        else InsertAll(market0, MarketWrites(signature, slot, events, faults))
    ensures var k := |events|;
      InsertAll(close0, CloseWrites(signature, slot, events + [e], faults)) ==
        if e.ClosePosition? && faults(k).NoFault? then
          InsertOrIgnore(InsertAll(close0, CloseWrites(signature, slot, events, faults)), signature, CloseWrite(signature, slot, e.close).1)
        else InsertAll(close0, CloseWrites(signature, slot, events, faults))
  {
    CountsSnoc(signature, slot, events, e, faults);
    var mw := MarketWrites(signature, slot, events, faults);
    var cw := CloseWrites(signature, slot, events, faults);
    if e.MarketUpdate? && faults(|events|).NoFault? {
      InsertAllSnoc(market0, mw, MarketWrite(signature, slot, e.market));
    } else {
      assert mw + [] == mw;
    }
    if e.ClosePosition? && faults(|events|).NoFault? {
      InsertAllSnoc(close0, cw, CloseWrite(signature, slot, e.close));
    } else {
      assert cw + [] == cw;
    }
  }

  /** The body of the loop of `handle_logs_notification` for one event:
      count it, try its write, and count a failed write. */
  method PersistEvent(db: Database, signature: string, slot: u64, event: KeeperEvent, stats: IngestStats, fault: StoreFault)
    requires stats.Valid()
    modifies db, stats
    ensures stats.Valid()
    ensures stats.View() == RecordedOne(old(stats.View()), event, fault)
    ensures db.marketUpdateEvents ==
      if event.MarketUpdate? && fault.NoFault? then
        InsertOrIgnore(old(db.marketUpdateEvents), signature, MarketWrite(signature, slot, event.market).1)
      else old(db.marketUpdateEvents)
    ensures db.closePositionEvents ==
      if event.ClosePosition? && fault.NoFault? then
        InsertOrIgnore(old(db.closePositionEvents), signature, CloseWrite(signature, slot, event.close).1)
      else old(db.closePositionEvents)
  {
    match event
    case MarketUpdate(e) =>
      stats.RecordMarketEvent();
      var res := db.InsertMarketUpdateEvent(signature, slot, e.marketId, e.baseFlow, e.quoteFlow, fault);
      if res.Err? {
        stats.RecordDbError();
      }
    case ClosePosition(e) =>
      stats.RecordCloseEvent();
      var res := db.InsertClosePositionEvent(
        signature, slot, e.positionAuthority, e.marketId, e.startSlot, e.endSlot,
        e.depositAmount, e.swappedAmount, e.remainingAmount, e.feeAmount, e.isBuy, fault);
      if res.Err? {
        stats.RecordDbError();
      }
  }

  /** The loop of `handle_logs_notification` over the decoded events, in
      order; the write of the k-th event fares as `faults(k)` says. */
  method PersistEvents(
    db: Database, signature: string, slot: u64, events: seq<KeeperEvent>, stats: IngestStats,
    faults: nat -> StoreFault)
    requires stats.Valid()
    modifies db, stats
    ensures stats.Valid()
    ensures stats.View() == Recorded(old(stats.View()), events, faults)
    ensures db.marketUpdateEvents == InsertAll(old(db.marketUpdateEvents), MarketWrites(signature, slot, events, faults))
    ensures db.closePositionEvents == InsertAll(old(db.closePositionEvents), CloseWrites(signature, slot, events, faults))
  {
    ghost var stats0, market0, close0 := stats.View(), db.marketUpdateEvents, db.closePositionEvents;
    var k := 0;
    while k < |events|
      invariant 0 <= k <= |events|
      invariant stats.Valid()
      invariant stats.View() == Recorded(stats0, events[..k], faults)
      invariant db.marketUpdateEvents == InsertAll(market0, MarketWrites(signature, slot, events[..k], faults))
      invariant db.closePositionEvents == InsertAll(close0, CloseWrites(signature, slot, events[..k], faults))
    {
      ghost var done := events[..k];
      assert events[..k + 1] == done + [events[k]];
      RecordedSnoc(stats0, done, events[k], faults);
      TablesSnoc(market0, close0, signature, slot, done, events[k], faults);
      PersistEvent(db, signature, slot, events[k], stats, faults(k));
      k := k + 1;
    }
    assert events[..k] == events;
  }

  /** `handle_logs_notification`. The write of the k-th decoded event fares
      as `faults(k)` says. It always returns `Ok(())`. */
  method HandleLogsNotification(
    c: Codecs, db: Database, programId: string, n: LogNotification, stats: IngestStats,
    faults: nat -> StoreFault)
    returns (r: Result<Unit, string>)
    requires stats.Valid()
    modifies db, stats
    ensures r == Ok(Unit)
    ensures stats.Valid()
    ensures var effects := Effects(c, programId, n.logs);
      stats.View() == Recorded(AfterEffects(old(stats.View()), effects), EventsOf(effects), faults)
    ensures db.marketUpdateEvents ==
      InsertAll(old(db.marketUpdateEvents), MarketWrites(n.signature, n.slot, EventsOf(Effects(c, programId, n.logs)), faults))
    ensures db.closePositionEvents ==
      InsertAll(old(db.closePositionEvents), CloseWrites(n.signature, n.slot, EventsOf(Effects(c, programId, n.logs)), faults))
  {
    var events := ParseEventsFromLogs(c, programId, n.logs, n.signature, n.slot, stats);
    PersistEvents(db, n.signature, n.slot, events, stats, faults);
    r := Ok(Unit);
  }

  /** Every write of a notification is keyed by its signature, and there
      is at most one write per event of the kind, exactly one when no write
      fails. */
  lemma {:induction false} MarketWritesShape(signature: string, slot: u64, events: seq<KeeperEvent>, faults: nat -> StoreFault)
    ensures var w := MarketWrites(signature, slot, events, faults);
      && (forall i :: 0 <= i < |w| ==> w[i].0 == signature)
      && |w| <= MarketCount(events)
      && ((forall k :: faults(k).NoFault?) ==> |w| == MarketCount(events))
    decreases |events|
  {
    if |events| > 0 {
      MarketWritesShape(signature, slot, events[..|events| - 1], faults);
    }
  }

  lemma {:induction false} CloseWritesShape(signature: string, slot: u64, events: seq<KeeperEvent>, faults: nat -> StoreFault)
    ensures var w := CloseWrites(signature, slot, events, faults);
      && (forall i :: 0 <= i < |w| ==> w[i].0 == signature)
      && |w| <= CloseCount(events)
      && ((forall k :: faults(k).NoFault?) ==> |w| == CloseCount(events))
    decreases |events|
  {
    if |events| > 0 {
      CloseWritesShape(signature, slot, events[..|events| - 1], faults);
    }
  }

  /** Every decoded event is counted exactly once, as market or as close,
      and every event's write either reaches its table or is counted as a
      database error, never both. */
  lemma {:induction false} EveryEventAccounted(signature: string, slot: u64, events: seq<KeeperEvent>, faults: nat -> StoreFault)
    ensures MarketCount(events) + CloseCount(events) == |events|
    ensures |MarketWrites(signature, slot, events, faults)| + |CloseWrites(signature, slot, events, faults)|
            + FailedInserts(events, faults) == |events|
    decreases |events|
  {
    if |events| > 0 {
      EveryEventAccounted(signature, slot, events[..|events| - 1], faults);
    }
  }

  /** When no write fails, a notification's signature ends up in the market
      table exactly when it was there already or the notification carried
      a market event; the same holds for the close table. */
  lemma StoredIffObserved(
    market: map<string, MarketRow>, close: map<string, CloseRow>, signature: string, slot: u64,
    events: seq<KeeperEvent>, faults: nat -> StoreFault)
    requires forall k :: faults(k).NoFault?
    ensures signature in InsertAll(market, MarketWrites(signature, slot, events, faults))
            <==> signature in market || MarketCount(events) > 0
    ensures signature in InsertAll(close, CloseWrites(signature, slot, events, faults))
            <==> signature in close || CloseCount(events) > 0
  {
    var mw := MarketWrites(signature, slot, events, faults);
    var cw := CloseWrites(signature, slot, events, faults);
    MarketWritesShape(signature, slot, events, faults);
    CloseWritesShape(signature, slot, events, faults);
    FirstWriteWins(market, mw, signature);
    FirstWriteWins(close, cw, signature);
    if |mw| > 0 { assert mw[0].0 == signature; }
    if |cw| > 0 { assert cw[0].0 == signature; }
  }

  /** Delivering a notification again changes neither table once a first
      delivery has gone through, however the writes of the second delivery
      fare; only the counters move. */
  lemma RedeliveryChangesNothing(
    market: map<string, MarketRow>, close: map<string, CloseRow>, signature: string, slot: u64,
    events: seq<KeeperEvent>, first: nat -> StoreFault, again: nat -> StoreFault)
    requires forall k :: first(k).NoFault?
    ensures var once := InsertAll(market, MarketWrites(signature, slot, events, first));
      InsertAll(once, MarketWrites(signature, slot, events, again)) == once
    ensures var once := InsertAll(close, CloseWrites(signature, slot, events, first));
      InsertAll(once, CloseWrites(signature, slot, events, again)) == once
  {
    var mw := MarketWrites(signature, slot, events, again);
    var cw := CloseWrites(signature, slot, events, again);
    MarketWritesShape(signature, slot, events, again);
    CloseWritesShape(signature, slot, events, again);
    StoredIffObserved(market, close, signature, slot, events, first);
    InsertAllAbsorbs(InsertAll(market, MarketWrites(signature, slot, events, first)), mw);
    InsertAllAbsorbs(InsertAll(close, CloseWrites(signature, slot, events, first)), cw);
  }

  /** The market writes of the first `m` events come first. */
  lemma {:induction false} MarketWritesPrefix(signature: string, slot: u64, events: seq<KeeperEvent>, faults: nat -> StoreFault, m: nat)
    requires m <= |events|
    ensures var w := MarketWrites(signature, slot, events, faults);
      var p := MarketWrites(signature, slot, events[..m], faults);
      |p| <= |w| && w[..|p|] == p
    decreases |events|
  {
    if m < |events| {
      var init := events[..|events| - 1];
      MarketWritesPrefix(signature, slot, init, faults, m);
      assert init[..m] == events[..m];
    } else {
      assert events[..m] == events;
    }
  }

  /** The key is the signature alone: when a fresh signature's notification
      carries several market events, only the first one's row is stored and
      the others are silently dropped. */
  lemma FirstMarketEventWins(
    market: map<string, MarketRow>, signature: string, slot: u64, events: seq<KeeperEvent>,
    faults: nat -> StoreFault, i: nat)
    requires forall k :: faults(k).NoFault?
    requires signature !in market
    requires i < |events| && events[i].MarketUpdate?
    requires forall j :: 0 <= j < i ==> !events[j].MarketUpdate?
    ensures signature in InsertAll(market, MarketWrites(signature, slot, events, faults))
    ensures InsertAll(market, MarketWrites(signature, slot, events, faults))[signature]
            == MarketRowOf(slot, events[i].market.marketId, events[i].market.baseFlow, events[i].market.quoteFlow)
  {
    var w := MarketWrites(signature, slot, events, faults);
    NoMarketWritesBefore(signature, slot, events, faults, i);
    assert events[..i + 1][..i] == events[..i];
    assert MarketWrites(signature, slot, events[..i + 1], faults) == [MarketWrite(signature, slot, events[i].market)];
    MarketWritesPrefix(signature, slot, events, faults, i + 1);
    assert w[0] == MarketWrite(signature, slot, events[i].market);
    FirstWriteWins(market, w, signature);
    assert FirstWriteOf(w, signature, 0);
  }

  /** No market event among the first `i`, no market write. */
  lemma {:induction false} NoMarketWritesBefore(signature: string, slot: u64, events: seq<KeeperEvent>, faults: nat -> StoreFault, i: nat)
    requires i <= |events|
    requires forall j :: 0 <= j < i ==> !events[j].MarketUpdate?
    ensures MarketWrites(signature, slot, events[..i], faults) == []
    decreases i
  {
    if i > 0 {
      NoMarketWritesBefore(signature, slot, events, faults, i - 1);
      assert events[..i][..i - 1] == events[..i - 1];
    }
  }
}
