# twob-keepers: event ingestion and keeper decisions in Dafny

This project models the core of the twob keepers, a set of Rust bots for an
on-chain program.

- **Event keeper.** It subscribes to the transaction logs that mention the
  program. For each transaction it walks the log lines with a call stack of
  program names, so it knows which program wrote each line. Only lines
  written while the target program is innermost are decoded. Those lines
  are stripped of `Program data: ` or `Program log: ` and base64-decoded.
  The bytes are then dispatched on an 8-byte discriminator, giving a
  market-update event or a close-position event.
- **Store.** Each decoded event is counted in `IngestStats` and written
  to one of two tables with `INSERT ... ON CONFLICT (signature) DO
  NOTHING`. After a subscription ends, the keeper sleeps and reconnects.
  The sleep starts at 1 s and doubles, capped at 30 s.
- **Bookkeeper.** It decides when to update the books and for which slot
  and index.
- **Trade keeper.** It decides which positions have expired and must be
  closed, and it tracks the earliest end slot among the positions still
  open.

Modules, one per source component:

- `Wrappers`, `Ints`, `Text`: Option/Result, Rust's fixed-width integers and `as` casts, and
  `strip_prefix` / `ends_with` / `contains` / `split_once`, where `split_once`
  and `contains` use the first occurrence.
- `Events`: the two event kinds, `decode_event`, `hex_discriminator`.
- `LogLines`: `parse_invoked_program`, `is_program_completion`, and how a line is classified.
- `Attribution`: `parse_events_from_logs`, both as an imperative method and
  as specification functions (`Run` for the call stack, `Effects` for what
  each line does).
- `Stats`: the `IngestStats` class.
- `Store`: the `Database` class with its two signature-keyed tables.
- `Notifications`: `handle_logs_notification`.
- `Reconnect`: the backoff loop of `main`.
- `Bookkeeper`, `TradeKeeper`: the decision arithmetic of the two bots.

Some inputs come from code that is not part of this model, so they are
parameters. Base64 decoding, the two discriminators and the two Borsh
deserializers are fields of a `Codecs` value. `Codecs.Valid()` says the
discriminators are 8 bytes long and distinct. Whether a database write goes
through is a `StoreFault`: no fault, no pooled connection, or a failed
statement. `HandleLogsNotification` takes `faults: nat -> StoreFault`, which
says how the write of the k-th decoded event fares.

The model follows the code as written, including:

- The backoff is never reset after a successful subscription.
- The table key is the signature alone.
- Any line that starts with `Program ` and contains ` failed:` pops the call
  stack. That includes a program's own `Program log: ... failed: ...` message
  (`LogLines.LogMessageWithFailedIsCompletion`).
- The two discriminators are not checked for distinctness anywhere.
  Distinctness is assumed only where a lemma needs it.
- `run_subscription` builds a fresh `IngestStats` for every subscription
  (src/bin/event-keeper/main.rs:168). All counters and the set of unknown
  discriminators start over after each reconnect, so an unknown key is
  reported once per subscription, not once per process.

## Model

| member | source | states |
|---|---|---|
| `Ints.AsI64` | src/database.rs:52-55 | `x as i64` keeps values below 2^63 and maps larger ones to x - 2^64 (negative); the bit pattern is kept mod 2^64 |
| `Ints.AsI64RoundTrip` | src/database.rs:52-55 | reading a stored i64 back as u64 gives the original value |
| `Text.StripPrefix` | src/bin/event-keeper/main.rs:333 | `Some(rest)` iff the line starts with the prefix, and then line == prefix + rest |
| `Text.Find` | src/bin/event-keeper/main.rs:349 | the index of the first occurrence of the pattern, or `None` iff it occurs nowhere |
| `Text.SplitOnce` | src/bin/event-keeper/main.rs:334 | splits at the first occurrence: s == before + pat + after, and the pattern does not start anywhere inside `before` |
| `Events.DecodeEvent` | src/bin/event-keeper/main.rs:314-330 | market discriminator tried first; a matched body that fails to deserialize gives `Err` (with the kind's message) and never an event; `Ok(None)` iff neither discriminator is a prefix; payloads under 8 bytes give `Ok(None)` |
| `Events.DiscriminatorsExclusive` | src/bin/event-keeper/main.rs:315-322 | with distinct 8-byte discriminators no payload matches both kinds |
| `Events.HexDiscriminator` | src/bin/event-keeper/main.rs:359-364 | two characters per byte, all lowercase hex digits (16 for a discriminator) |
| `Events.HexRoundTrip` | src/bin/event-keeper/main.rs:359-364 | parsing the hex text back gives the bytes |
| `Events.HexDiscriminatorInjective` | src/bin/event-keeper/main.rs:359-364 | distinct discriminators are reported with distinct text |
| `LogLines.ParseInvokedProgram` | src/bin/event-keeper/main.rs:332-341 | a returned name is framed by `Program ` and ` invoke [`, and the line ends with `]` |
| `LogLines.ParseInvokedProgramIff` | src/bin/event-keeper/main.rs:332-341 | returns `Some(name)` iff the line is `Program ` + name + ` invoke [` + text ending in `]`, with no ` invoke [` starting inside name (the first occurrence is used) |
| `LogLines.Classify` | src/bin/event-keeper/main.rs:274-287 | the invoke test comes before the completion test; Completion and Other lines are never invoke lines, and Other lines are not completion lines |
| `LogLines.InvokeLineOf` | src/bin/event-keeper/main.rs:332-341 | the runtime's `Program P invoke [d]` line pushes P |
| `LogLines.IsProgramCompletionIff` | src/bin/event-keeper/main.rs:343-350 | a line is a completion line iff it starts with `Program ` and the rest ends with ` success` or has ` failed:` at some position |
| `LogLines.SuccessLineOf` | src/bin/event-keeper/main.rs:343-350 | `Program P success` is a completion line |
| `LogLines.FailedLineOf` | src/bin/event-keeper/main.rs:343-350 | `Program P failed: reason` is a completion line |
| `LogLines.LogMessageWithFailedIsCompletion` | src/bin/event-keeper/main.rs:343-350 | a `Program log: ` message that contains ` failed:` is also a completion line |
| `LogLines.BareSuccessIsNotCompletion` | src/bin/event-keeper/main.rs:343-350 | `Program success` is not a completion line: the suffix test is applied after `Program ` has been stripped |
| `LogLines.DataLineIsOther` | src/bin/event-keeper/main.rs:274-291 | a `Program data: ` line carrying padded base64 is neither an invoke line nor a completion line |
| `Attribution.EncodedPayload` | src/bin/event-keeper/main.rs:293-298 | `Program data: ` is stripped in preference to `Program log: `; `None` iff neither prefix is present |
| `Attribution.Interpret` | src/bin/event-keeper/main.rs:293-308 | a line that is not skipped had a prefix and base64 text; an emitted event, an unknown payload and a rejection are exactly what `DecodeEvent` made of those bytes |
| `Attribution.InterpretCases` | src/bin/event-keeper/main.rs:293-308 | a considered line is skipped iff it has neither prefix or its remainder is not base64; an unknown payload is one `DecodeEvent` maps to `Ok(None)` |
| `Attribution.StepShape` | src/bin/event-keeper/main.rs:273-287 | an invoke line pushes its name; a completion line pops exactly one frame whatever it names, and leaves an empty stack empty; any other line leaves the stack alone |
| `Attribution.Run` | src/bin/event-keeper/main.rs:270-287 | the call stack after a run of lines; each line pushes at most one frame |
| `Attribution.RunAppend` | src/bin/event-keeper/main.rs:270-287 | the stack after `a + b` is the stack after `b` started from the stack after `a` |
| `Attribution.Effects` | src/bin/event-keeper/main.rs:270-309 | one effect per line, in line order; `EffectsAt` gives the i-th |
| `Attribution.EffectsAt` | src/bin/event-keeper/main.rs:273-309 | line i is interpreted iff it is neither an invoke nor a completion line and the target is on top of the stack built by lines 0..i-1; otherwise it is skipped |
| `Attribution.OnlyAttributedLinesDecode` | src/bin/event-keeper/main.rs:289-291 | a line reaches decoding only if it is an Other line under a non-empty stack whose top is the target; under an empty stack it is skipped |
| `Attribution.SummariesSnoc` | src/bin/event-keeper/main.rs:304-311 | events are appended in line order; each rejected line adds one decode error; each unknown payload is passed on, in order |
| `Attribution.ConsiderLine` | src/bin/event-keeper/main.rs:293-308 | returns the decoded event, if any; an unknown discriminator goes to the seen-set, a rejected body adds one decode error, and a skipped line leaves the stats alone |
| `Attribution.WalkLine` | src/bin/event-keeper/main.rs:273-309 | one loop iteration: the stack is stepped, and the events and stats are extended by the line's effect under the stack before it |
| `Attribution.ParseEventsFromLogs` | src/bin/event-keeper/main.rs:263-312 | returns the emitted events in line order; decode errors grow by the number of rejected lines, and the seen-set by the unknown payloads' keys |
| `Attribution.OneInvocationEffects` | src/bin/event-keeper/main.rs:273-309 | in `invoke, data, success` only the data line is interpreted, and the stack ends empty |
| `Attribution.MarketPayloadEmits` | src/bin/event-keeper/main.rs:293-305 | a `Program data: ` line whose base64 decodes to market discriminator + a valid body emits that market event |
| `Attribution.OneInvocationOneEvent` | src/bin/event-keeper/main.rs:263-312 | such a transaction yields exactly that one event, no decode error and no unknown payload, and the call stack ends empty |
| `Stats.UnknownDiscriminatorMessage` | src/bin/event-keeper/main.rs:86-89 | the warning embeds the discriminator as 16 hex digits |
| `Stats.IngestStats.constructor` | src/bin/event-keeper/main.rs:44-55 | all counters start at zero, nothing has been seen yet, and the seen-set is empty |
| `Stats.IngestStats.RecordMarketEvent` | src/bin/event-keeper/main.rs:57-60 | market_events + 1 and last-market set; nothing else changes |
| `Stats.IngestStats.RecordCloseEvent` | src/bin/event-keeper/main.rs:62-65 | close_events + 1 and last-close set; nothing else changes |
| `Stats.IngestStats.RecordDbError` | src/bin/event-keeper/main.rs:67-69 | db_errors + 1; nothing else changes |
| `Stats.IngestStats.RecordDecodeError` | src/bin/event-keeper/main.rs:71-76 | decode_errors + 1; nothing else changes |
| `Stats.IngestStats.RecordUnknownDiscriminator` | src/bin/event-keeper/main.rs:78-91 | acts as `Sighting` says; returns the warning exactly when the key is new |
| `Stats.Sighting` | src/bin/event-keeper/main.rs:78-91 | payloads under 8 bytes change nothing; otherwise the first 8 bytes join the set, and they are reported iff they were not in it before |
| `Stats.EachUnknownKeyReportedOnce` | src/bin/event-keeper/main.rs:78-91 | over any run of payloads filed with one stats object (one subscription) the set only grows, by exactly the filed keys; the reported keys are pairwise distinct and are exactly the filed keys not seen before |
| `Store.AsI16` | src/database.rs:111 | `is_buy as i16` keeps the value |
| `Store.MarketRowLossless` | src/database.rs:50-56 | every stored market field reads back as the original u64; a flow is stored negative iff it is at least 2^63 |
| `Store.CloseRowLossless` | src/database.rs:100-112 | every stored close field reads back as the original; the authority text and `is_buy` are stored as given |
| `Store.InsertOrIgnore` | src/database.rs:47-49 | the key is present afterwards; a taken key leaves the table unchanged; a fresh key gets the row; no other key changes |
| `Store.InsertOrIgnoreIdempotent` | src/database.rs:47-49 | a second write under the same key changes nothing, whatever its row |
| `Store.FirstWriteWins` | src/database.rs:96-99 | after a run of writes a key is present iff it was present or written; a present key keeps its row; a fresh key holds its first write's row |
| `Store.InsertAllIdempotent` | src/database.rs:47-49 | replaying a run of writes leaves the table as one run does |
| `Store.InsertAllAbsorbs` | src/database.rs:96-99 | writes whose keys are all taken change nothing |
| `Store.WriteOutcome` | src/database.rs:43-75 | `Ok` iff the write went through; a statement error gives `Err` whose text is the insert's message prefix followed by the store's error; no pooled connection gives `Err("Failed to get connection")` |
| `Store.Database.constructor` | src/database.rs:5-7 | a handle on the given table contents |
| `Store.Database.InsertMarketUpdateEvent` | src/database.rs:35-76 | with no fault: `Ok`, and insert-or-ignore of the cast row under the signature (a duplicate is `Ok` and changes nothing); on a fault: `Err` and the table unchanged; the close table is never touched |
| `Store.Database.InsertClosePositionEvent` | src/database.rs:78-132 | the same for the close table, storing all ten fields; the market table is never touched |
| `Notifications.PersistEvent` | src/bin/event-keeper/main.rs:208-257 | an event is counted before its insert is tried; a failed insert adds exactly one db error; only the event kind's own table can change |
| `Notifications.PersistEvents` | src/bin/event-keeper/main.rs:201-258 | over the decoded events in order: the counters grow by the number of events of each kind, db errors by the number of failed writes, and each table by the run of its successful writes |
| `Notifications.HandleLogsNotification` | src/bin/event-keeper/main.rs:192-261 | always returns `Ok(())`; the stats are the parse effects followed by the per-event counting; each table is the old one plus the notification's successful writes |
| `Notifications.MarketWritesShape` | src/bin/event-keeper/main.rs:216-223 | every market write is keyed by the notification's signature; there is at most one write per market event, and exactly one when no write fails |
| `Notifications.CloseWritesShape` | src/bin/event-keeper/main.rs:237-251 | the same for close writes |
| `Notifications.EveryEventAccounted` | src/bin/event-keeper/main.rs:208-257 | market + close counts equal the number of events; every event's write either lands or is counted as a db error, never both |
| `Notifications.StoredIffObserved` | src/bin/event-keeper/main.rs:216-251 | with no failed writes, the signature is in a table afterwards iff it was already there or the notification carried an event of that kind |
| `Notifications.RedeliveryChangesNothing` | src/database.rs:47-49 | once a delivery has gone through, delivering the same notification again leaves both tables unchanged, however its writes fare |
| `Notifications.FirstMarketEventWins` | src/database.rs:47-49 | a fresh signature whose notification has several market events stores only the first event's row |
| `Reconnect.Delay` | src/bin/event-keeper/main.rs:130-144 | every delay is between 1 and 30 seconds |
| `Reconnect.DelayDoubles` | src/bin/event-keeper/main.rs:143-144 | the delays start at 1, and each next delay is min(2 * previous, 30) |
| `Reconnect.DelayMonotone` | src/bin/event-keeper/main.rs:143-144 | the delay never decreases, because it is never reset |
| `Reconnect.DelayValues` | src/bin/event-keeper/main.rs:130-144 | the schedule is 1, 2, 4, 8, 16, then 30 forever |
| `Reconnect.ReconnectDelays` | src/bin/event-keeper/main.rs:130-145 | the i-th sleep is `Delay(i)`, whether the subscription ended cleanly or with an error |
| `Bookkeeper.NextAction` | src/bin/bookkeeper/main.rs:46-84 | on an update: due, reference slot = last + 500, reference index = slot div 1000, and previous = index - 1. On a sleep: not due, (last + 500 - current) * 401 ms, at least 401 ms, and at most 500 * 401 ms when current >= last |
| `Bookkeeper.UpdateIffDue` | src/bin/bookkeeper/main.rs:46-55 | the books are updated (or the previous index underflows) iff current >= last + 500; the underflow happens iff the reference slot is below 1000; the addition overflows iff last + 500 exceeds u64 |
| `Bookkeeper.UpdateIgnoresCurrentSlot` | src/bin/bookkeeper/main.rs:48-49 | the update does not depend on the current slot once the update is due |
| `Bookkeeper.NoSleepOverflowWhenCaughtUp` | src/bin/bookkeeper/main.rs:83-84 | when current >= last, the sleep multiplication cannot overflow |
| `Bookkeeper.SleepReachesDueSlot` | src/bin/bookkeeper/main.rs:83-84 | current slot + sleep / 401 is exactly the due slot |
| `TradeKeeper.CloseOrderFor` | src/bin/trade-keeper/main.rs:51-71 | end index = end slot div 1000 and reference index = current slot div 1000; end index <= reference index; previous = reference - 1 |
| `TradeKeeper.MinOpenEndSlot` | src/bin/trade-keeper/main.rs:49-126 | never before the current slot, and either `u64::MAX` or some position's end slot |
| `TradeKeeper.MinOpenEndSlotIsMinimum` | src/bin/trade-keeper/main.rs:49-126 | the value is at most every open position's end slot, and is one of them unless it is `u64::MAX`; it is at least the current slot |
| `TradeKeeper.ClosesAreTheExpired` | src/bin/trade-keeper/main.rs:56-71 | one close order per expired position, in account order; the k-th order belongs to the k-th expired position |
| `TradeKeeper.ClosesWellIndexed` | src/bin/trade-keeper/main.rs:51-60 | every close order's end index is at most its reference index |
| `TradeKeeper.ScanPositions` | src/bin/trade-keeper/main.rs:49-126 | panics iff some position has expired (current > end, strictly) while current < 1000. Otherwise: the close orders are `ClosesOf`, `next_end_slot` is the minimum open end slot (or `u64::MAX`) and at least the current slot, and every end index is at most the reference index |

## Left out

- The pubsub websocket client, `logs_subscribe`, `tokio::select!`, the heartbeat timer and `log_health` are out. So are `unsubscribe` and the commitment configuration. They are network I/O and async multiplexing. The reconnect loop is modelled as the delays it sleeps.
- Clock readings (`started_at`, `last_market_at`, `last_close_at`, uptime, `format_last_seen`) are out. The "last seen" timestamps are booleans set by the record methods.
- `println!` / `eprintln!` output is out. This includes the empty-call-stack warning, the decode-error line and the database error details. The one exception is the unknown-discriminator warning, which is returned as a value.
- Base64 decoding, the Borsh layouts of the two event bodies and the discriminator bytes are out. The program's interface description generates them, and it is not part of this model. They are abstract `Codecs` fields.
- `position_authority.to_string()` (base58) is out. Events carry the authority already in text form.
- `Database::connect` and connection pooling are out. A failed `pool.get()` or `execute` is the `StoreFault` parameter. A failed statement is modelled as leaving its table unchanged, because it is a single `INSERT`.
- Keypair loading, the RPC calls, instruction building and signing, and account-address derivation in both bots are out. The RPC errors that end the bots with `?` are out too. The bots' decisions take the slots and positions as inputs.
- Release-build wrap-around of u64 arithmetic is out. An overflow or underflow in the bots is modelled as the panic of a debug build.
- `Duration::as_secs_f64` in the bookkeeper's message is out, because it is floating point.
- The trade keeper's constant 400-second pause after each pass is out. `next_end_slot` is computed but the source never reads it.
- `Stats.EachUnknownKeyReportedOnce`: the once-only report holds per `IngestStats` object, that is per subscription; the reconnect loop does not carry the stats across subscriptions, and the model does not connect the two.
- `Stats.IngestStats`: counters are unbounded `nat`. The u64 overflow after 2^64 increments is not modelled.
- `src/lib.rs` and `examples/accounts_usage.rs` are out. They only parse a constant program id and print derived addresses.
