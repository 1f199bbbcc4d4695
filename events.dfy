/** The two event kinds the keeper understands, the discriminator dispatch
    of `decode_event`, and the hex form used when an unknown discriminator
    is reported (src/bin/event-keeper/main.rs). */
module Events {
  import opened Wrappers
  import opened Ints

  datatype MarketUpdateEvent = MarketUpdateEvent(marketId: u64, baseFlow: u64, quoteFlow: u64)

  /** `positionAuthority` is the account key in its printed (base58) form,
      the form the keeper stores. */
  datatype ClosePositionEvent = ClosePositionEvent(
    positionAuthority: string,
    marketId: u64,
    startSlot: u64,
    endSlot: u64,
    depositAmount: u64,
    swappedAmount: u64,
    remainingAmount: u64,
    feeAmount: u64,
    isBuy: u8)

  /** `KeeperEvent` */
  datatype KeeperEvent = MarketUpdate(market: MarketUpdateEvent) | ClosePosition(close: ClosePositionEvent)

  /** What the keeper takes from libraries it does not define: the standard
      base64 engine, the two discriminators that the program's interface
      description fixes, and the binary deserializers of the two event
      bodies. All of them are partial, hence `Option` and `Result`. */
  datatype Codecs = Codecs(
    base64Decode: string -> Option<seq<u8>>,
    marketDiscriminator: seq<u8>,
    closeDiscriminator: seq<u8>,
    deserializeMarket: seq<u8> -> Result<MarketUpdateEvent, string>,
    deserializeClose: seq<u8> -> Result<ClosePositionEvent, string>)
  {
    /** Discriminators are 8 bytes long and tell the kinds apart. */
    predicate Valid() {
      |marketDiscriminator| == 8 && |closeDiscriminator| == 8 && marketDiscriminator != closeDiscriminator
    }
  }

  /** `bytes.starts_with(prefix)` on byte slices. */
  predicate HasPrefix(bytes: seq<u8>, prefix: seq<u8>) {
    |prefix| <= |bytes| && bytes[..|prefix|] == prefix
  }

  const MarketDecodeError: string := "MarketUpdateEvent decode error: "
  const CloseDecodeError: string := "ClosePositionEvent decode error: "

  /** `decode_event`: the market discriminator is tried before the close
      one; a matching discriminator whose body does not deserialize is an
      error and yields no event; no match is `Ok(None)`. */
  function DecodeEvent(c: Codecs, bytes: seq<u8>): (r: Result<Option<KeeperEvent>, string>)
    ensures r.Ok? && r.value.Some? && r.value.value.MarketUpdate? ==>
      HasPrefix(bytes, c.marketDiscriminator)
      && c.deserializeMarket(bytes[|c.marketDiscriminator|..]) == Ok(r.value.value.market)
    ensures r.Ok? && r.value.Some? && r.value.value.ClosePosition? ==>
      !HasPrefix(bytes, c.marketDiscriminator) && HasPrefix(bytes, c.closeDiscriminator)
      && c.deserializeClose(bytes[|c.closeDiscriminator|..]) == Ok(r.value.value.close)
    ensures r == Ok(None) <==> !HasPrefix(bytes, c.marketDiscriminator) && !HasPrefix(bytes, c.closeDiscriminator)
    ensures r.Err? <==>
      (HasPrefix(bytes, c.marketDiscriminator) && c.deserializeMarket(bytes[|c.marketDiscriminator|..]).Err?)
      || (!HasPrefix(bytes, c.marketDiscriminator) && HasPrefix(bytes, c.closeDiscriminator)
          && c.deserializeClose(bytes[|c.closeDiscriminator|..]).Err?)
    ensures r.Err? && HasPrefix(bytes, c.marketDiscriminator) ==>
      r.error == MarketDecodeError + c.deserializeMarket(bytes[|c.marketDiscriminator|..]).error
    ensures r.Err? && !HasPrefix(bytes, c.marketDiscriminator) ==>
      r.error == CloseDecodeError + c.deserializeClose(bytes[|c.closeDiscriminator|..]).error
    ensures c.Valid() && |bytes| < 8 ==> r == Ok(None)
  {
    if HasPrefix(bytes, c.marketDiscriminator) then
      match c.deserializeMarket(bytes[|c.marketDiscriminator|..])
      case Ok(event) => Ok(Some(MarketUpdate(event)))
      case Err(e) => Err(MarketDecodeError + e)
    else if HasPrefix(bytes, c.closeDiscriminator) then
      match c.deserializeClose(bytes[|c.closeDiscriminator|..])
      case Ok(event) => Ok(Some(ClosePosition(event)))
      case Err(e) => Err(CloseDecodeError + e)
    else
      Ok(None)
  }

  /** With valid codecs the two kinds never compete for one payload. */
  lemma DiscriminatorsExclusive(c: Codecs, bytes: seq<u8>)
    requires c.Valid()
    ensures !(HasPrefix(bytes, c.marketDiscriminator) && HasPrefix(bytes, c.closeDiscriminator))
  {
  }

  /** The lowercase hex digit of a nibble. */
  function HexDigit(n: nat): (c: char)
    requires n < 16
    ensures ('0' <= c <= '9') || ('a' <= c <= 'f')
  {
    if n < 10 then ('0' as int + n) as char else ('a' as int + n - 10) as char
  }

  /** The nibble a lowercase hex digit stands for. */
  function HexValue(c: char): (r: Option<nat>)
    ensures r.Some? ==> r.value < 16
  {
    if '0' <= c <= '9' then Some(c as int - '0' as int)
    else if 'a' <= c <= 'f' then Some(c as int - 'a' as int + 10)
    else None
  }

  /** `hex_discriminator`: each byte as two lowercase hex digits. */
  function HexDiscriminator(bytes: seq<u8>): (r: string)
    ensures |r| == 2 * |bytes|
    ensures forall i :: 0 <= i < |r| ==> ('0' <= r[i] <= '9') || ('a' <= r[i] <= 'f')
  {
    if |bytes| == 0 then ""
    else [HexDigit(bytes[0] / 16), HexDigit(bytes[0] % 16)] + HexDiscriminator(bytes[1..])
  }

  /** Reads hex text back into bytes; the partner of `HexDiscriminator`. */
  function ParseHex(s: string): Option<seq<u8>>
  {
    if |s| == 0 then Some([])
    else if |s| == 1 then None
    else match (HexValue(s[0]), HexValue(s[1]), ParseHex(s[2..]))
      case (Some(hi), Some(lo), Some(rest)) => Some([hi * 16 + lo] + rest)
      case _ => None
  }

  /** The hex form of a discriminator determines it. */
  lemma {:induction false} HexRoundTrip(bytes: seq<u8>)
    ensures ParseHex(HexDiscriminator(bytes)) == Some(bytes)
  {
    if |bytes| > 0 {
      var s := HexDiscriminator(bytes);
      assert s[2..] == HexDiscriminator(bytes[1..]);
      HexRoundTrip(bytes[1..]);
      assert HexValue(s[0]) == Some(bytes[0] / 16);
      assert HexValue(s[1]) == Some(bytes[0] % 16);
      assert [bytes[0]] + bytes[1..] == bytes;
    }
  }

  /** Two different discriminators are never reported with the same text. */
  lemma HexDiscriminatorInjective(a: seq<u8>, b: seq<u8>)
    requires HexDiscriminator(a) == HexDiscriminator(b)
    ensures a == b
  {
    HexRoundTrip(a);
    HexRoundTrip(b);
  }
}
