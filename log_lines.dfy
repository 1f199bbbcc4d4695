/** Recognition of the runtime's call-structure lines in a transaction log:
    `Program <id> invoke [<depth>]` opens a call, `Program <id> success` and
    `Program <id> failed: <reason>` close one (src/bin/event-keeper/main.rs). */
module LogLines {
  import opened Wrappers
  import opened Text

  const ProgramPrefix: string := "Program "
  const InvokeMarker: string := " invoke ["
  const SuccessSuffix: string := " success"
  const FailedMarker: string := " failed:"

  /** `parse_invoked_program`: the program named by an invoke line. */
  function ParseInvokedProgram(line: string): (r: Option<string>)
    ensures r.Some? ==> StartsWith(line, ProgramPrefix + r.value + InvokeMarker) && EndsWith(line, "]")
  {
    match StripPrefix(line, ProgramPrefix)
    case None => None
    case Some(stripped) =>
      match SplitOnce(stripped, InvokeMarker)
      case None => None
      case Some((program, depth)) =>
        if EndsWith(depth, "]") then Some(program) else None
  }

  /** `line` is an invoke line naming `name`: it starts with `Program `, then
      `name`, then the FIRST ` invoke [` after `Program `, and the text after
      that marker ends with `]`. */
  ghost predicate NamesInvocation(line: string, name: string) {
    && StartsWith(line, ProgramPrefix + name + InvokeMarker)
    && EndsWith(line[|ProgramPrefix + name + InvokeMarker|..], "]")
    && forall j :: 0 <= j < |name| ==> !OccursAt(line[|ProgramPrefix|..], InvokeMarker, j)
  }

  /** The pushed name is exactly the text between `Program ` and the first
      ` invoke [`, and only such lines are invoke lines. */
  lemma ParseInvokedProgramIff(line: string, name: string)
    ensures ParseInvokedProgram(line) == Some(name) <==> NamesInvocation(line, name)
  {
    if ParseInvokedProgram(line) == Some(name) {
      ParsedNameIsInvocation(line, name);
    }
    if NamesInvocation(line, name) {
      InvocationParses(line, name);
    }
  }

  lemma ParsedNameIsInvocation(line: string, name: string)
    requires ParseInvokedProgram(line) == Some(name)
    ensures NamesInvocation(line, name)
  {
    var head := ProgramPrefix + name + InvokeMarker;
    var stripped := line[|ProgramPrefix|..];
    var split := SplitOnce(stripped, InvokeMarker).value;
    assert stripped == name + InvokeMarker + split.1;
    assert line == head + split.1;
    assert line[|head|..] == split.1;
  }

  lemma InvocationParses(line: string, name: string)
    requires NamesInvocation(line, name)
    ensures ParseInvokedProgram(line) == Some(name)
  {
    var head := ProgramPrefix + name + InvokeMarker;
    var stripped := line[|ProgramPrefix|..];
    assert line == ProgramPrefix + stripped;
    assert StripPrefix(line, ProgramPrefix) == Some(stripped);
    var rest := line[|head|..];
    assert stripped == name + InvokeMarker + rest;
    assert OccursAt(stripped, InvokeMarker, |name|);
    var i := Find(stripped, InvokeMarker).value;
    assert i == |name|;
  }

  /** `is_program_completion`: `Program `, then text that ends with
      ` success` or contains ` failed:`. The tests apply to the text after
      `Program `, whatever it is. */
  predicate IsProgramCompletion(line: string) {
    match StripPrefix(line, ProgramPrefix)
    case None => false
    case Some(stripped) => EndsWith(stripped, SuccessSuffix) || Contains(stripped, FailedMarker)
  }

  /** A completion line is `Program ` followed by text that ends with
      ` success` or has ` failed:` somewhere in it; nothing else is. */
  lemma IsProgramCompletionIff(line: string)
    ensures IsProgramCompletion(line) <==>
      && StartsWith(line, ProgramPrefix)
      && (|| EndsWith(line[|ProgramPrefix|..], SuccessSuffix)
          || exists j :: OccursAt(line[|ProgramPrefix|..], FailedMarker, j))
  {
    if StartsWith(line, ProgramPrefix) {
      assert StripPrefix(line, ProgramPrefix) == Some(line[|ProgramPrefix|..]);
    }
  }

  datatype LineKind = Invoke(program: string) | Completion | Other

  /** How `parse_events_from_logs` treats a line: the invoke test comes first,
      the completion test second, everything else is an ordinary line. */
  function Classify(line: string): (k: LineKind)
    ensures k.Invoke? ==> NamesInvocation(line, k.program)
    ensures k.Completion? ==> IsProgramCompletion(line) && ParseInvokedProgram(line).None?
    ensures k.Other? ==> !IsProgramCompletion(line) && ParseInvokedProgram(line).None?
  {
    match ParseInvokedProgram(line)
    case Some(program) => ParseInvokedProgramIff(line, program); Invoke(program)
    case None => if IsProgramCompletion(line) then Completion else Other
  }

  /** The log line the runtime writes when `program` is invoked at a depth. */
  lemma InvokeLineOf(program: string, depth: string)
    requires ' ' !in program
    ensures Classify(ProgramPrefix + program + InvokeMarker + depth + "]") == Invoke(program)
  {
    var line := ProgramPrefix + program + InvokeMarker + depth + "]";
    var head := ProgramPrefix + program + InvokeMarker;
    assert line[..|head|] == head;
    assert line[|head|..] == depth + "]";
    forall j | 0 <= j < |program| ensures !OccursAt(line[|ProgramPrefix|..], InvokeMarker, j) {
      assert line[|ProgramPrefix|..][j] == program[j];
    }
    ParseInvokedProgramIff(line, program);
  }

  /** The log line the runtime writes when `program` returns normally. */
  lemma SuccessLineOf(program: string)
    requires ' ' !in program
    ensures Classify(ProgramPrefix + program + SuccessSuffix) == Completion
  {
    var line := ProgramPrefix + program + SuccessSuffix;
    var stripped := program + SuccessSuffix;
    assert line == ProgramPrefix + stripped;
    assert StripPrefix(line, ProgramPrefix) == Some(stripped);
    forall j | 0 <= j < |program| ensures !OccursAt(stripped, InvokeMarker, j) {
      assert stripped[j] == program[j];
    }
    assert EndsWith(stripped, SuccessSuffix);
  }

  /** The log line the runtime writes when `program` fails with `reason`. */
  lemma FailedLineOf(program: string, reason: string)
    requires '[' !in program && '[' !in reason
    ensures Classify(ProgramPrefix + program + FailedMarker + reason) == Completion
  {
    var line := ProgramPrefix + program + FailedMarker + reason;
    var stripped := program + FailedMarker + reason;
    assert line == ProgramPrefix + stripped;
    assert StripPrefix(line, ProgramPrefix) == Some(stripped);
    assert '[' !in FailedMarker;
    AbsentCharBlocksPattern(stripped, InvokeMarker, '[', 8);
    assert stripped[|program|..|program| + |FailedMarker|] == FailedMarker;
    assert OccursAt(stripped, FailedMarker, |program|);
  }

  /** A program's own log message that contains ` failed:` also counts as a
      completion line, because the test only looks for the marker in the text
      after `Program `. */
  lemma LogMessageWithFailedIsCompletion(before: string, after: string)
    ensures IsProgramCompletion("Program log: " + before + FailedMarker + after)
  {
    var line := "Program log: " + before + FailedMarker + after;
    var stripped := "log: " + before + FailedMarker + after;
    assert line == ProgramPrefix + stripped;
    assert StripPrefix(line, ProgramPrefix) == Some(stripped);
    assert stripped[5 + |before|..5 + |before| + |FailedMarker|] == FailedMarker;
    assert OccursAt(stripped, FailedMarker, 5 + |before|);
  }

  /** `Program success` is not a completion line: after `Program ` only
      `success` is left, which does not end with ` success`. */
  lemma BareSuccessIsNotCompletion()
    ensures Classify("Program success") == Other
  {
    var stripped := "success";
    assert "Program success" == ProgramPrefix + stripped;
    assert StripPrefix("Program success", ProgramPrefix) == Some(stripped);
    AbsentCharBlocksPattern(stripped, InvokeMarker, '[', 8);
    AbsentCharBlocksPattern(stripped, FailedMarker, ' ', 0);
  }

  /** Characters of the standard base64 alphabet, with its padding. */
  predicate IsBase64Char(c: char) {
    ('A' <= c <= 'Z') || ('a' <= c <= 'z') || ('0' <= c <= '9') || c == '+' || c == '/' || c == '='
  }

  /** A `Program data: ` line whose payload is padded base64 text is an
      ordinary line, so it is attributed to the current program. */
  lemma DataLineIsOther(text: string)
    requires forall i :: 0 <= i < |text| ==> IsBase64Char(text[i])
    requires |text| % 4 == 0
    ensures Classify("Program data: " + text) == Other
  {
    var line := "Program data: " + text;
    var stripped := "data: " + text;
    assert line == ProgramPrefix + stripped;
    assert StripPrefix(line, ProgramPrefix) == Some(stripped);
    assert '[' !in text by {
      forall i | 0 <= i < |text| ensures text[i] != '[' { assert IsBase64Char(text[i]); }
    }
    assert '[' !in "data: ";
    AbsentCharBlocksPattern(stripped, InvokeMarker, '[', 8);
    forall j | 0 <= j ensures !OccursAt(stripped, FailedMarker, j) {
      if j + 8 <= |stripped| {
        assert stripped[j + 7] == text[j + 1];
        assert IsBase64Char(text[j + 1]);
        assert stripped[j..j + 8][7] == stripped[j + 7];
      }
    }
    assert !EndsWith(stripped, SuccessSuffix) by {
      if |stripped| >= 8 {
        var j := |stripped| - 8;
        if j >= 6 {
          assert stripped[j] == text[j - 6];
        } else {
          assert |text| == 4;
          assert stripped[2] == 't';
        }
      }
    }
  }
}
