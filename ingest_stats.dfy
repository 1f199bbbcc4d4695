/** `IngestStats`: the single-owner health accumulator of the event keeper
    (src/bin/event-keeper/main.rs). Timestamps are reduced to "seen at least
    once" flags. */
module Stats {
  import opened Wrappers
  import opened Ints
  import opened Events

  /** All observable fields of an `IngestStats`, as one value. */
  datatype StatsView = StatsView(
    marketEvents: nat,
    closeEvents: nat,
    decodeErrors: nat,
    dbErrors: nat,
    marketSeen: bool,
    closeSeen: bool,
    unknownDiscriminators: set<seq<u8>>)

  const UnknownLogPrefix: string := "Observed unknown event discriminator 0x"
  const UnknownLogSuffix: string := "; keeper IDL may be outdated"

  /** The line written the first time a discriminator is seen. */
  function UnknownDiscriminatorMessage(discriminator: seq<u8>): (m: string)
    ensures |m| == |UnknownLogPrefix| + 2 * |discriminator| + |UnknownLogSuffix|
    ensures m[|UnknownLogPrefix|..|UnknownLogPrefix| + 2 * |discriminator|] == HexDiscriminator(discriminator)
  {
    UnknownLogPrefix + HexDiscriminator(discriminator) + UnknownLogSuffix
  }

  class IngestStats {
    var marketEvents: nat
    var closeEvents: nat
    var decodeErrors: nat
    var dbErrors: nat
    var marketSeen: bool
    var closeSeen: bool
    var unknownDiscriminators: set<seq<u8>>

    /** Every remembered discriminator is exactly 8 bytes. */
    ghost predicate Valid()
      reads this
    {
      forall d :: d in unknownDiscriminators ==> |d| == 8
    }

    function View(): StatsView
      reads this
    {
      StatsView(marketEvents, closeEvents, decodeErrors, dbErrors, marketSeen, closeSeen, unknownDiscriminators)
    }

    /** `IngestStats::new` */
    constructor ()
      ensures Valid()
      ensures View() == StatsView(0, 0, 0, 0, false, false, {})
    {
      marketEvents, closeEvents, decodeErrors, dbErrors := 0, 0, 0, 0;
      marketSeen, closeSeen := false, false;
      unknownDiscriminators := {};
    }

    /** `record_market_event` */
    method RecordMarketEvent()
      requires Valid()
      modifies this
      ensures Valid()
      ensures View() == old(View()).(marketEvents := old(marketEvents) + 1, marketSeen := true)
    {
      marketEvents := marketEvents + 1;
      marketSeen := true;
    }

    /** `record_close_event` */
    method RecordCloseEvent()
      requires Valid()
      modifies this
      ensures Valid()
      ensures View() == old(View()).(closeEvents := old(closeEvents) + 1, closeSeen := true)
    {
      closeEvents := closeEvents + 1;
      closeSeen := true;
    }

    /** `record_db_error` */
    method RecordDbError()
      requires Valid()
      modifies this
      ensures Valid()
      ensures View() == old(View()).(dbErrors := old(dbErrors) + 1)
    {
      dbErrors := dbErrors + 1;
    }

    /** `record_decode_error`; the diagnostic it prints names the signature,
        the slot and the error. */
    method RecordDecodeError(signature: string, slot: u64, error: string)
      requires Valid()
      modifies this
      ensures Valid()
      ensures View() == old(View()).(decodeErrors := old(decodeErrors) + 1)
    {
      decodeErrors := decodeErrors + 1;
    }

    /** `record_unknown_discriminator`, as `Sighting` describes it; the
        message is the one printed on a first sighting. */
    method RecordUnknownDiscriminator(logBytes: seq<u8>) returns (logged: Option<string>)
      requires Valid()
      modifies this
      ensures Valid()
      ensures View() == old(View()).(unknownDiscriminators := Sighting(old(unknownDiscriminators), logBytes).0)
      ensures logged == match Sighting(old(unknownDiscriminators), logBytes).1
                        case None => None
                        case Some(d) => Some(UnknownDiscriminatorMessage(d))
    {
      if |logBytes| < 8 {
        return None;
      }
      var discriminator := logBytes[..8];
      var inserted := discriminator !in unknownDiscriminators;
      unknownDiscriminators := unknownDiscriminators + {discriminator};
      if inserted {
        logged := Some(UnknownDiscriminatorMessage(discriminator));
      } else {
        logged := None;
      }
    }
  }

  /** One unknown-discriminator sighting against the set of keys seen so
      far: the new set and the key to report, if any. Payloads shorter than
      8 bytes are ignored; otherwise the first 8 bytes join the set and are
      reported only when they were not in it already. */
  function Sighting(seen: set<seq<u8>>, payload: seq<u8>): (r: (set<seq<u8>>, Option<seq<u8>>))
    ensures |payload| < 8 ==> r == (seen, None)
    ensures |payload| >= 8 ==> r.0 == seen + {payload[..8]}
    ensures |payload| >= 8 ==> (r.1.Some? <==> payload[..8] !in seen)
    ensures r.1.Some? ==> |payload| >= 8 && r.1.value == payload[..8]
  {
    if |payload| < 8 then (seen, None)
    else
      var d := payload[..8];
      (seen + {d}, if d in seen then None else Some(d))
  }

  /** The keys that a run of payloads files. */
  function KeysOf(payloads: seq<seq<u8>>): (r: set<seq<u8>>)
    ensures forall d :: d in r ==> |d| == 8
  {
    if |payloads| == 0 then {}
    else KeysOf(payloads[..|payloads| - 1])
         + (if |payloads[|payloads| - 1]| >= 8 then {payloads[|payloads| - 1][..8]} else {})
  }

  /** A run of sightings, in order: the final set and the keys reported. */
  function Sightings(seen: set<seq<u8>>, payloads: seq<seq<u8>>): (set<seq<u8>>, seq<seq<u8>>)
  {
    if |payloads| == 0 then (seen, [])
    else
      var (mid, reported) := Sightings(seen, payloads[..|payloads| - 1]);
      var (after, key) := Sighting(mid, payloads[|payloads| - 1]);
      (after, if key.Some? then reported + [key.value] else reported)
  }

  /** Over any run of sightings the set only grows, by exactly the filed
      keys, and each key not seen before is reported exactly once. */
  lemma {:induction false} EachUnknownKeyReportedOnce(seen: set<seq<u8>>, payloads: seq<seq<u8>>)
    ensures Sightings(seen, payloads).0 == seen + KeysOf(payloads)
    ensures var reported := Sightings(seen, payloads).1;
      forall i, j :: 0 <= i < j < |reported| ==> reported[i] != reported[j]
    ensures forall d :: d in Sightings(seen, payloads).1 <==> d in KeysOf(payloads) && d !in seen
  {
    if |payloads| > 0 {
      var init := payloads[..|payloads| - 1];
      EachUnknownKeyReportedOnce(seen, init);
    }
  }
}
