/** `parse_events_from_logs`: the call-stack walk over one transaction's
    log lines that decides which lines the target program wrote, and the
    decoding of those lines (src/bin/event-keeper/main.rs). */
module Attribution {
  import opened Wrappers
  import opened Ints
  import opened Text
  import opened LogLines
  import opened Events
  import opened Stats

  const ProgramDataPrefix: string := "Program data: "
  const ProgramLogPrefix: string := "Program log: "

  /** The encoded payload of a considered line: `Program data: ` is
      stripped in preference to `Program log: `. */
  function EncodedPayload(line: string): (r: Option<string>)
    ensures StartsWith(line, ProgramDataPrefix) ==> r == Some(line[|ProgramDataPrefix|..])
    ensures !StartsWith(line, ProgramDataPrefix) && StartsWith(line, ProgramLogPrefix) ==>
      r == Some(line[|ProgramLogPrefix|..])
    ensures r.None? <==> !StartsWith(line, ProgramDataPrefix) && !StartsWith(line, ProgramLogPrefix)
  {
    match StripPrefix(line, ProgramDataPrefix)
    case Some(data) => Some(data)
    case None => StripPrefix(line, ProgramLogPrefix)
  }

  /** What one log line contributes once the walk has looked at it. */
  datatype LineEffect =
    | Skipped
    | Emitted(event: KeeperEvent)
    | UnknownPayload(bytes: seq<u8>)
    | Rejected(error: string)

  /** The fate of a line attributed to the target program. A line without
      either prefix, or whose remainder is not base64, is skipped. */
  function Interpret(c: Codecs, line: string): (r: LineEffect)
    ensures !r.Skipped? ==> EncodedPayload(line).Some? && c.base64Decode(EncodedPayload(line).value).Some?
    ensures r.Emitted? ==> DecodeEvent(c, c.base64Decode(EncodedPayload(line).value).value) == Ok(Some(r.event))
    ensures r.UnknownPayload? ==> r.bytes == c.base64Decode(EncodedPayload(line).value).value
    ensures r.Rejected? ==> DecodeEvent(c, c.base64Decode(EncodedPayload(line).value).value) == Err(r.error)
  {
    match EncodedPayload(line)
    case None => Skipped
    case Some(text) =>
      match c.base64Decode(text)
      case None => Skipped
      case Some(bytes) =>
        match DecodeEvent(c, bytes)
        case Ok(Some(event)) => Emitted(event)
        case Ok(None) => UnknownPayload(bytes)
        case Err(error) => Rejected(error)
  }

  /** A considered line is skipped, leaving the stats alone, exactly when
      it has neither prefix or its remainder is not base64; otherwise the
      discriminator dispatch of `DecodeEvent` decides. */
  lemma InterpretCases(c: Codecs, line: string)
    ensures Interpret(c, line).Skipped? <==>
      EncodedPayload(line).None? || c.base64Decode(EncodedPayload(line).value).None?
    ensures Interpret(c, line).UnknownPayload? ==> DecodeEvent(c, Interpret(c, line).bytes) == Ok(None)
  {
  }

  /** The innermost active program, if any. */
  function Top(stack: seq<string>): Option<string> {
    if |stack| == 0 then None else Some(stack[|stack| - 1])
  }

  /** The call stack after a line of the given kind. */
  function Advance(stack: seq<string>, kind: LineKind): seq<string>
  {
    match kind
    case Invoke(program) => stack + [program]
    case Completion => if |stack| == 0 then [] else stack[..|stack| - 1]
    case Other => stack
  }

  /** The call stack after one line. */
  function Step(stack: seq<string>, line: string): seq<string>
  {
    Advance(stack, Classify(line))
  }

  /** An invoke line pushes its program; a completion line pops exactly one
      frame, whatever program it names, and leaves an empty stack empty (the
      source only warns); any other line leaves the stack alone. */
  lemma StepShape(stack: seq<string>, line: string)
    ensures Classify(line).Invoke? ==>
      var r := Step(stack, line);
      |r| == |stack| + 1 && r[..|stack|] == stack && Top(r) == Some(Classify(line).program)
    ensures Classify(line).Completion? ==>
      var r := Step(stack, line);
      |r| == (if |stack| == 0 then 0 else |stack| - 1) && r == stack[..|r|]
    ensures Classify(line).Other? ==> Step(stack, line) == stack
  {
  }

  /** The call stack after a run of lines, starting from `stack`. */
  function Run(stack: seq<string>, lines: seq<string>): (r: seq<string>)
    decreases |lines|
    ensures |r| <= |stack| + |lines|
  {
    if |lines| == 0 then stack
    else Step(Run(stack, lines[..|lines| - 1]), lines[|lines| - 1])
  }

  /** Walking two runs of lines one after the other is walking the whole
      run: the stack after `a` is where `b` starts. */
  lemma {:induction false} RunAppend(stack: seq<string>, a: seq<string>, b: seq<string>)
    ensures Run(stack, a + b) == Run(Run(stack, a), b)
    decreases |b|
  {
    if |b| > 0 {
      var n := |b| - 1;
      assert (a + b)[..|a + b| - 1] == a + b[..n];
      RunAppend(stack, a, b[..n]);
    } else {
      assert a + b == a;
    }
  }

  /** The effect of `line` when `stack` is the call stack before it: only
      an ordinary line under the target program is interpreted. */
  function EffectUnder(c: Codecs, programId: string, stack: seq<string>, line: string): LineEffect
  {
    if Classify(line).Other? && Top(stack) == Some(programId) then Interpret(c, line) else Skipped
  }

  /** The effect of every line of a transaction, in order. */
  function Effects(c: Codecs, programId: string, lines: seq<string>): (r: seq<LineEffect>)
    decreases |lines|
    ensures |r| == |lines|
  {
    if |lines| == 0 then []
    else
      var init := lines[..|lines| - 1];
      Effects(c, programId, init) + [EffectUnder(c, programId, Run([], init), lines[|lines| - 1])]
  }

  /** Line `i` is considered: it is neither an invoke nor a completion
      line, and the target program is on top of the stack before it. */
  predicate Attributed(programId: string, lines: seq<string>, i: int)
    requires 0 <= i < |lines|
  {
    Classify(lines[i]).Other? && Top(Run([], lines[..i])) == Some(programId)
  }

  /** The effect of line `i` depends only on the line and the stack that
      the lines before it build: an attributed line is interpreted, every
      other line is skipped. */
  lemma {:induction false} EffectsAt(c: Codecs, programId: string, lines: seq<string>, i: int)
    requires 0 <= i < |lines|
    ensures Effects(c, programId, lines)[i] ==
      if Attributed(programId, lines, i) then Interpret(c, lines[i]) else Skipped
    decreases |lines|
  {
    var init := lines[..|lines| - 1];
    if i < |lines| - 1 {
      EffectsAt(c, programId, init, i);
      assert init[..i] == lines[..i];
    }
  }

  /** A line reaches payload decoding only if it is neither an invoke nor
      a completion line and the target program is on top of a non-empty
      stack; under an empty stack every line is skipped. */
  lemma OnlyAttributedLinesDecode(c: Codecs, programId: string, lines: seq<string>, i: int)
    requires 0 <= i < |lines|
    ensures !Effects(c, programId, lines)[i].Skipped? ==>
      && Classify(lines[i]).Other?
      && Run([], lines[..i]) != []
      && Run([], lines[..i])[|Run([], lines[..i])| - 1] == programId
    ensures Run([], lines[..i]) == [] ==> Effects(c, programId, lines)[i] == Skipped
  {
    EffectsAt(c, programId, lines, i);
  }

  /** The events, in line order. */
  function EventsOf(effects: seq<LineEffect>): seq<KeeperEvent>
  {
    if |effects| == 0 then []
    else
      var last := effects[|effects| - 1];
      EventsOf(effects[..|effects| - 1]) + (if last.Emitted? then [last.event] else [])
  }

  /** The number of lines whose matched body did not deserialize. */
  function Rejections(effects: seq<LineEffect>): nat
  {
    if |effects| == 0 then 0
    else Rejections(effects[..|effects| - 1]) + (if effects[|effects| - 1].Rejected? then 1 else 0)
  }

  /** The payloads handed to `record_unknown_discriminator`, in order. */
  function UnknownPayloads(effects: seq<LineEffect>): seq<seq<u8>>
  {
    if |effects| == 0 then []
    else
      var last := effects[|effects| - 1];
      UnknownPayloads(effects[..|effects| - 1]) + (if last.UnknownPayload? then [last.bytes] else [])
  }

  /** The work `parse_events_from_logs` does on one considered line:
      strip the prefix, base64-decode, dispatch on the discriminator, and
      file unknown discriminators and decode errors with `stats`. */
  method ConsiderLine(c: Codecs, line: string, signature: string, slot: u64, stats: IngestStats)
    returns (event: Option<KeeperEvent>)
    requires stats.Valid()
    modifies stats
    ensures stats.Valid()
    ensures event == if Interpret(c, line).Emitted? then Some(Interpret(c, line).event) else None
    ensures stats.View() == AfterEffect(old(stats.View()), Interpret(c, line))
  {
    event := None;
    var encoded := EncodedPayload(line);
    if encoded.None? {
      return;
    }
    var decoded := c.base64Decode(encoded.value);
    if decoded.None? {
      return;
    }
    var logBytes := decoded.value;
    match DecodeEvent(c, logBytes)
    case Ok(Some(e)) =>
      assert Interpret(c, line) == Emitted(e);
      event := Some(e);
    case Ok(None) =>
      assert Interpret(c, line) == UnknownPayload(logBytes);
      var _ := stats.RecordUnknownDiscriminator(logBytes);
    case Err(error) =>
      assert Interpret(c, line) == Rejected(error);
      stats.RecordDecodeError(signature, slot, error);
  }

  /** One more line of the walk: the stack is stepped and one effect,
      decided under the stack before the line, is appended. */
  lemma WalkSnoc(c: Codecs, programId: string, lines: seq<string>, i: int)
    requires 0 <= i < |lines|
    ensures Run([], lines[..i + 1]) == Step(Run([], lines[..i]), lines[i])
    ensures Effects(c, programId, lines[..i + 1]) ==
      Effects(c, programId, lines[..i]) + [EffectUnder(c, programId, Run([], lines[..i]), lines[i])]
  {
    TakeTake(lines, i, i + 1);
  }

  /** One more effect, for the three summaries of a walk. */
  lemma SummariesSnoc(effects: seq<LineEffect>, e: LineEffect)
    ensures EventsOf(effects + [e]) == if e.Emitted? then EventsOf(effects) + [e.event] else EventsOf(effects)
    ensures Rejections(effects + [e]) == Rejections(effects) + (if e.Rejected? then 1 else 0)
    ensures UnknownPayloads(effects + [e]) ==
      if e.UnknownPayload? then UnknownPayloads(effects) + [e.bytes] else UnknownPayloads(effects)
  {
    assert (effects + [e])[..|effects|] == effects;
    assert EventsOf(effects) + [] == EventsOf(effects);
    assert UnknownPayloads(effects) + [] == UnknownPayloads(effects);
  }

  /** What one effect does to the stats: a rejected body is a decode
      error, an unknown payload is a sighting, anything else leaves them. */
  function AfterEffect(v: StatsView, e: LineEffect): StatsView
  {
    match e
    case Rejected(_) => v.(decodeErrors := v.decodeErrors + 1)
    case UnknownPayload(bytes) => v.(unknownDiscriminators := Sighting(v.unknownDiscriminators, bytes).0)
    case _ => v
  }

  /** What a walk does to the stats. */
  function AfterEffects(v: StatsView, effects: seq<LineEffect>): StatsView
  {
    v.(decodeErrors := v.decodeErrors + Rejections(effects),
       unknownDiscriminators := Sightings(v.unknownDiscriminators, UnknownPayloads(effects)).0)
  }

  lemma AfterEffectsSnoc(v: StatsView, effects: seq<LineEffect>, e: LineEffect)
    ensures AfterEffects(v, effects + [e]) == AfterEffect(AfterEffects(v, effects), e)
  {
    SummariesSnoc(effects, e);
    var payloads := UnknownPayloads(effects);
    if e.UnknownPayload? {
      var longer := payloads + [e.bytes];
      assert longer[..|longer| - 1] == payloads;
      assert Sightings(v.unknownDiscriminators, longer).0
          == Sighting(Sightings(v.unknownDiscriminators, payloads).0, e.bytes).0;
    }
  }

  /** One pass of the loop body of `parse_events_from_logs`: the stack,
      the events and the stats after the lines `done` describes are carried
      one line further. */
  method WalkLine(
    c: Codecs, programId: string, callStack: seq<string>, line: string, events: seq<KeeperEvent>,
    signature: string, slot: u64, stats: IngestStats, ghost before: StatsView, ghost done: seq<LineEffect>)
    returns (stack: seq<string>, events': seq<KeeperEvent>)
    requires stats.Valid()
    requires events == EventsOf(done)
    requires stats.View() == AfterEffects(before, done)
    modifies stats
    ensures stats.Valid()
    ensures stack == Step(callStack, line)
    ensures events' == EventsOf(done + [EffectUnder(c, programId, callStack, line)])
    ensures stats.View() == AfterEffects(before, done + [EffectUnder(c, programId, callStack, line)])
  {
    ghost var effect := EffectUnder(c, programId, callStack, line);
    SummariesSnoc(done, effect);
    AfterEffectsSnoc(before, done, effect);
    stack, events' := callStack, events;
    var kind := Classify(line);
    match kind {
      case Invoke(program) =>
        stack := stack + [program];
      case Completion =>
        if |stack| > 0 {
          stack := stack[..|stack| - 1];
        }
        // else: the source warns about an unexpected empty call stack
      case Other =>
        if Top(stack) == Some(programId) {
          var event := ConsiderLine(c, line, signature, slot, stats);
          if event.Some? {
            events' := events' + [event.value];
          }
        }
    }
  }

  /** `parse_events_from_logs` */
  method ParseEventsFromLogs(
    c: Codecs, programId: string, logs: seq<string>, signature: string, slot: u64, stats: IngestStats)
    returns (events: seq<KeeperEvent>)
    requires stats.Valid()
    modifies stats
    ensures stats.Valid()
    ensures events == EventsOf(Effects(c, programId, logs))
    ensures stats.View() == AfterEffects(old(stats.View()), Effects(c, programId, logs))
  {
    ghost var before := stats.View();
    var callStack: seq<string> := [];
    events := [];
    var i := 0;
    while i < |logs|
      invariant 0 <= i <= |logs|
      invariant callStack == Run([], logs[..i])
      invariant events == EventsOf(Effects(c, programId, logs[..i]))
      invariant stats.Valid()
      invariant stats.View() == AfterEffects(before, Effects(c, programId, logs[..i]))
    {
      ghost var done := Effects(c, programId, logs[..i]);
      WalkSnoc(c, programId, logs, i);
      callStack, events := WalkLine(c, programId, callStack, logs[i], events, signature, slot, stats, before, done);
      i := i + 1;
    }
    assert logs[..i] == logs;
  }

  /** The three lines of a transaction in which the target program is
      invoked, writes one payload and returns. */
  function OneInvocation(programId: string, depth: string, text: string): seq<string> {
    [ProgramPrefix + programId + InvokeMarker + depth + "]",
     ProgramDataPrefix + text,
     ProgramPrefix + programId + SuccessSuffix]
  }

  /** Only the payload line of such a transaction is interpreted, and the
      call stack is empty again at the end. */
  lemma OneInvocationEffects(c: Codecs, programId: string, depth: string, text: string)
    requires ' ' !in programId
    requires forall i :: 0 <= i < |text| ==> IsBase64Char(text[i])
    requires |text| % 4 == 0
    ensures var logs := OneInvocation(programId, depth, text);
      && Effects(c, programId, logs) == [Skipped, Interpret(c, logs[1]), Skipped]
      && Run([], logs) == []
  {
    var logs := OneInvocation(programId, depth, text);
    var invoke, data, success := logs[0], logs[1], logs[2];
    InvokeLineOf(programId, depth);
    DataLineIsOther(text);
    SuccessLineOf(programId);
    var l1, l2 := [invoke], [invoke, data];
    assert l1[..0] == [] && l2[..1] == l1 && logs[..2] == l2;
    assert Run([], l1) == [programId] && Effects(c, programId, l1) == [Skipped];
    assert Run([], l2) == [programId] && Effects(c, programId, l2) == [Skipped, Interpret(c, data)];
    assert Run([], logs) == Step([programId], success);
  }

  /** A `Program data: ` line whose payload is a market-update event. */
  lemma MarketPayloadEmits(c: Codecs, text: string, body: seq<u8>, event: MarketUpdateEvent)
    requires c.base64Decode(text) == Some(c.marketDiscriminator + body)
    requires c.deserializeMarket(body) == Ok(event)
    ensures Interpret(c, ProgramDataPrefix + text) == Emitted(MarketUpdate(event))
  {
    var data := ProgramDataPrefix + text;
    var bytes := c.marketDiscriminator + body;
    assert bytes[..|c.marketDiscriminator|] == c.marketDiscriminator;
    assert bytes[|c.marketDiscriminator|..] == body;
    assert data[..|ProgramDataPrefix|] == ProgramDataPrefix;
    assert data[|ProgramDataPrefix|..] == text;
  }

  /** A transaction in which the target program is invoked, writes one
      market-update payload and returns: exactly that event comes out, no
      stats are touched, and the call stack is empty again at the end. */
  lemma OneInvocationOneEvent(
    c: Codecs, programId: string, depth: string, text: string, body: seq<u8>, event: MarketUpdateEvent)
    requires ' ' !in programId
    requires forall i :: 0 <= i < |text| ==> IsBase64Char(text[i])
    requires |text| % 4 == 0
    requires c.base64Decode(text) == Some(c.marketDiscriminator + body)
    requires c.deserializeMarket(body) == Ok(event)
    ensures var effects := Effects(c, programId, OneInvocation(programId, depth, text));
      && EventsOf(effects) == [MarketUpdate(event)]
      && Rejections(effects) == 0
      && UnknownPayloads(effects) == []
      && Run([], OneInvocation(programId, depth, text)) == []
  {
    var logs := OneInvocation(programId, depth, text);
    OneInvocationEffects(c, programId, depth, text);
    MarketPayloadEmits(c, text, body, event);
    var emitted := Emitted(MarketUpdate(event));
    assert logs[1] == ProgramDataPrefix + text;
    assert Effects(c, programId, logs) == [Skipped, emitted, Skipped];
    SummariesSnoc([], Skipped);
    assert [] + [Skipped] == [Skipped];
    SummariesSnoc([Skipped], emitted);
    assert [Skipped] + [emitted] == [Skipped, emitted];
    SummariesSnoc([Skipped, emitted], Skipped);
    assert [Skipped, emitted] + [Skipped] == [Skipped, emitted, Skipped];
  }
}
