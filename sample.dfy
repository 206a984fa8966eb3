/**
 * Concrete captures read by both parsers.
 *
 * The capture of tests/test_parse.py holds six envelopes from one sender,
 * each header with curly quotes around the name, and a single `Body: yo`
 * in the fourth. The current parser reads it as the message "yo" from
 * +11234567890 with no group; the older parser, which looks for straight
 * quotes, finds no sender in it.
 *
 * A short capture with a group name in front of a second envelope shows
 * where the two parsers differ on group scope.
 */
module Sample {
  import opened Optional
  import opened PyStr
  import opened SignalCli
  import opened SignalServer
  import opened LegacyServer
  import opened Search

  /** A signal-cli timestamp: milliseconds, then the ISO form in parentheses. */
  function Stamp(ms: string, iso: string): string {
    ms + " (" + iso + ")"
  }

  /** The header line of every envelope of the capture, for a given device number. */
  function Header(device: string): string {
    "Envelope from: \U{201C}Bob Sagat\U{201D} " + "+" + "11234567890 (device: " + device + ") to " + "+" + "15551234567"
  }

  /** The digits after the first `+` of a header, up to the blank. */
  const SenderDigits := "11234567890"

  const Front := "Envelope from: \U{201C}Bob Sagat\U{201D} "
  const Back := "15551234567"

  function Middle(device: string): string {
    SenderDigits + " (device: " + device + ") to "
  }

  predicate Digit(device: string) {
    |device| == 1 && '0' <= device[0] <= '9'
  }

  lemma HeaderPieces(device: string)
    ensures Header(device) == Front + ['+'] + (Middle(device) + ['+'] + Back)
  {
  }

  lemma HeaderTrimmed(device: string)
    ensures Strip(Header(device)) == Header(device)
  {
    var h := Header(device);
    HeaderPieces(device);
    assert h[0] == 'E' && h[|h| - 1] == '7';
    StripKeepsTrimmed(h);
  }

  lemma HeaderLabelled(device: string)
    ensures IsHeader(Header(device))
  {
    var h := Header(device);
    HeaderPieces(device);
    assert h[..|EnvelopeLabel|] == EnvelopeLabel;
  }

  lemma HeaderUnquoted(device: string)
    requires Digit(device)
    ensures '"' !in Header(device)
  {
    HeaderPieces(device);
    assert '"' !in Front;
    assert '"' !in SenderDigits;
    assert '"' !in Middle(device);
    assert '"' !in Back;
  }

  lemma HeaderSplit(device: string)
    requires Digit(device)
    ensures Split(Header(device), '+') == [Front, Middle(device), Back]
  {
    HeaderPieces(device);
    assert '+' !in Front;
    assert '+' !in Middle(device);
    assert '+' !in Back;
    SplitThree(Front, Middle(device), Back, '+');
  }

  lemma HeaderSender(device: string)
    requires Digit(device)
    ensures SenderOf(Header(device)) == Sender("+" + SenderDigits)
  {
    HeaderSplit(device);
    var rest := " (device: " + device + ") to ";
    assert Middle(device) == SenderDigits + rest;
    assert NoSpace(SenderDigits);
    assert Middle(device) == [] + SenderDigits + rest;
    SenderFromWord(Header(device), [], SenderDigits, rest);
  }

  /** `Server timestamps:` line: when the server received the message and when it was delivered. */
  function ServerTimes(received: string, receivedIso: string, delivered: string, deliveredIso: string): string {
    "Server timestamps: received: " + Stamp(received, receivedIso) + " delivered: " + Stamp(delivered, deliveredIso)
  }

  const Sealed := "Sent by unidentified/sealed sender"
  const ReadAt := Stamp("1744185570322", "2025-04-09T07:59:30.322Z")

  const Envelope1: seq<string> := [
    Header("4"),
    "Timestamp: " + Stamp("1744185564802", "2025-04-09T07:59:24.802Z"),
    ServerTimes("1744185564847", "2025-04-09T07:59:24.847Z", "1744185565739", "2025-04-09T07:59:25.739Z"),
    Sealed,
    "Received a receipt message",
    "  When: " + Stamp("1744185564802", "2025-04-09T07:59:24.802Z"),
    "  Is read receipt",
    "  Timestamps:",
    "  - " + ReadAt,
    ""]

  const Envelope2: seq<string> := [
    Header("4"),
    "Timestamp: " + Stamp("1744185565138", "2025-04-09T07:59:25.138Z"),
    ServerTimes("1744185565194", "2025-04-09T07:59:25.194Z", "1744185565739", "2025-04-09T07:59:25.739Z"),
    Sealed,
    "Received a typing message",
    "  Action: STARTED",
    "  Timestamp: " + Stamp("1744185565138", "2025-04-09T07:59:25.138Z"),
    ""]

  const Envelope3: seq<string> := [
    Header("4"),
    "Timestamp: " + Stamp("1744185565192", "2025-04-09T07:59:25.192Z"),
    ServerTimes("1744185565302", "2025-04-09T07:59:25.302Z", "1744185565740", "2025-04-09T07:59:25.740Z"),
    Sealed,
    "Received a receipt message",
    "  When: " + Stamp("1744185565192", "2025-04-09T07:59:25.192Z"),
    "  Is delivery receipt",
    "  Timestamps:",
    "  - " + ReadAt,
    ""]

  /** The only envelope with a body. */
  const Envelope4: seq<string> := [
    Header("4"),
    "Timestamp: " + Stamp("1744185565466", "2025-04-09T07:59:25.466Z"),
    ServerTimes("1744185565586", "2025-04-09T07:59:25.586Z", "1744185565740", "2025-04-09T07:59:25.740Z"),
    Sealed,
    "Message timestamp: " + Stamp("1744185565466", "2025-04-09T07:59:25.466Z"),
    "Body: yo",
    "With profile key",
    ""]

  const Envelope5: seq<string> := [
    Header("3"),
    "Timestamp: " + Stamp("1744185572206", "2025-04-09T07:59:32.206Z"),
    ServerTimes("1744185566038", "2025-04-09T07:59:26.038Z", "1744185566039", "2025-04-09T07:59:26.039Z"),
    Sealed,
    "Received a receipt message",
    "  When: " + Stamp("1744185572206", "2025-04-09T07:59:32.206Z"),
    "  Is delivery receipt",
    "  Timestamps:",
    "  - " + ReadAt,
    ""]

  /** The last envelope; the text ends with a newline, hence the final empty line. */
  const Envelope6: seq<string> := [
    Header("1"),
    "Timestamp: " + Stamp("1744185569713", "2025-04-09T07:59:29.713Z"),
    ServerTimes("1744185567862", "2025-04-09T07:59:27.862Z", "1744185567863", "2025-04-09T07:59:27.863Z"),
    Sealed,
    "Received a receipt message",
    "  When: " + Stamp("1744185569713", "2025-04-09T07:59:29.713Z"),
    "  Is delivery receipt",
    "  Timestamps:",
    "  - " + ReadAt,
    ""]

  /**
   * The capture split at its newlines: it starts with a newline, so the
   * first line is empty, and it ends with one, so the last line is empty.
   */
  const CaptureLines: seq<string> := [""] + Envelope1 + Envelope2 + Envelope3 + Envelope4 + Envelope5 + Envelope6

  predicate Unlabelled(c: char) {
    c != 'E' && c != 'B' && c != 'G' && c != 'N'
  }

  /** A detail line: blank, or its first character after at most two blanks starts none of the labels. */
  predicate Plain(line: string) {
    || line == ""
    || (!IsSpace(line[0]) && Unlabelled(line[0]))
    || (|line| > 2 && line[0] == ' ' && line[1] == ' ' && !IsSpace(line[2]) && Unlabelled(line[2]))
  }

  /** A detail line strips to a line that neither parser treats as a label. */
  lemma PlainIsUnlabelled(line: string)
    requires Plain(line)
    ensures var t := Strip(line);
      !IsHeader(t) && !IsBody(t) && !IsGroupInfo(t) && !IsName(t) && t != GroupInfoLabel
  {
    if line == "" {
      assert Strip(line) == "";
    } else if !IsSpace(line[0]) && Unlabelled(line[0]) {
      StripStartsAt(line, 0);
    } else {
      StripStartsAt(line, 2);
    }
  }

  /** Every line stripped. */
  function StripAll(lines: seq<string>): (r: seq<string>)
    ensures |r| == |lines|
    ensures forall k :: 0 <= k < |lines| ==> r[k] == Strip(lines[k])
  {
    seq(|lines|, k requires 0 <= k < |lines| => Strip(lines[k]))
  }

  /** No header of the lines holds a straight double quote. */
  predicate UnquotedHeaders(lines: seq<string>) {
    forall k :: 0 <= k < |lines| && IsHeader(lines[k]) ==> '"' !in lines[k]
  }

  /** An envelope without a body: its header gives a sender and every other line is a detail line. */
  ghost predicate Quiet(raw: seq<string>) {
    && |raw| >= 1
    && (exists device :: Digit(device) && raw[0] == Header(device))
    && (forall x :: 1 <= x < |raw| ==> Plain(raw[x]))
  }

  /** The header line of the sample, stripped, as both parsers read it. */
  lemma HeaderLine(device: string)
    requires Digit(device)
    ensures var t := Strip(Header(device));
      IsHeader(t) && !IsBody(t) && SenderOf(t) == Sender("+" + SenderDigits) && '"' !in t
  {
    HeaderTrimmed(device);
    HeaderLabelled(device);
    HeaderSender(device);
    HeaderUnquoted(device);
    LabelsExclusive(Header(device));
  }

  /** An envelope without a body ends nothing: the current parser returns `None` on it. */
  lemma QuietEnvelope(raw: seq<string>)
    requires Quiet(raw)
    ensures ParseLines(StripAll(raw)).NotParsed?
    ensures UnquotedHeaders(StripAll(raw))
    ensures IsHeader(StripAll(raw)[0])
  {
    var device :| Digit(device) && raw[0] == Header(device);
    var lines := StripAll(raw);
    HeaderLine(device);
    forall x | 0 <= x < |lines|
      ensures !Decides(lines, x)
      ensures IsHeader(lines[x]) ==> '"' !in lines[x]
    {
      if x > 0 {
        PlainIsUnlabelled(raw[x]);
      }
    }
    NotParsedWhenUndecided(lines);
  }

  lemma QuietFirst()
    ensures Quiet(Envelope1)
  {
    assert Digit("4") && Envelope1[0] == Header("4");
  }

  lemma QuietSecond()
    ensures Quiet(Envelope2)
  {
    assert Digit("4") && Envelope2[0] == Header("4");
  }

  lemma QuietThird()
    ensures Quiet(Envelope3)
  {
    assert Digit("4") && Envelope3[0] == Header("4");
  }

  lemma QuietFifth()
    ensures Quiet(Envelope5)
  {
    assert Digit("3") && Envelope5[0] == Header("3");
  }

  lemma QuietSixth()
    ensures Quiet(Envelope6)
  {
    assert Digit("1") && Envelope6[0] == Header("1");
  }

  /** A body read after the first header, with no label in between, is delivered with that header's sender and no group. */
  lemma DeliveredAt(lines: seq<string>, k: nat, id: string)
    requires k < |lines| && IsBody(lines[k])
    requires IsHeader(lines[0]) && SenderOf(lines[0]) == Sender(id)
    requires forall x :: 0 < x < k ==> !IsHeader(lines[x]) && !IsBody(lines[x]) && !IsName(lines[x])
    ensures ParseLines(lines) == Parsed(MessageResponse(Some(AfterLabel(lines[k])), Some(id), None, None))
  {
    LabelsExclusive(lines[0]);
    LabelsExclusive(lines[k]);
    LastHeaderIsNearest(lines, k);
    assert LastHeader(lines, k) == Some(0);
    GroupNameAbsent(lines, 1, k);
    assert OpenEnvelope(lines, k).Some?;
    forall x | 0 <= x < k
      ensures !Decides(lines, x)
    {
    }
    FirstDecisionAt(lines, k);
  }

  /** The body line of the sample. */
  lemma BodyYo()
    ensures Strip("Body: yo") == "Body: yo"
    ensures IsBody("Body: yo")
    ensures AfterLabel("Body: yo") == "yo"
  {
    StripKeepsTrimmed("Body: yo");
    assert "Body: yo"[5..] == " yo";
    assert TrimLeft(" yo") == TrimLeft("yo");
    StripKeepsTrimmed("yo");
  }

  /** An envelope whose line `k` is `Body: yo` and whose other lines after the header are detail lines. */
  ghost predicate Announced(raw: seq<string>, k: nat) {
    && 0 < k < |raw|
    && (exists device :: Digit(device) && raw[0] == Header(device))
    && raw[k] == "Body: yo"
    && (forall x :: 0 < x < |raw| && x != k ==> Plain(raw[x]))
  }

  /** Such an envelope yields the body and the sender, outside any group. */
  lemma AnnouncedEnvelope(raw: seq<string>, k: nat)
    requires Announced(raw, k)
    ensures ParseLines(StripAll(raw)) == Parsed(MessageResponse(Some("yo"), Some("+" + SenderDigits), None, None))
    ensures UnquotedHeaders(StripAll(raw))
    ensures IsHeader(StripAll(raw)[0])
  {
    var device :| Digit(device) && raw[0] == Header(device);
    var lines := StripAll(raw);
    HeaderLine(device);
    BodyYo();
    forall x | 0 < x < |lines| && x != k
      ensures !IsHeader(lines[x]) && !IsBody(lines[x]) && !IsName(lines[x])
    {
      PlainIsUnlabelled(raw[x]);
    }
    DeliveredAt(lines, k, "+" + SenderDigits);
  }

  /** The envelope with `Body: yo`. */
  lemma BodyEnvelope()
    ensures Announced(Envelope4, 5)
  {
    assert Digit("4") && Envelope4[0] == Header("4");
  }

  lemma StripAllAppend(a: seq<string>, b: seq<string>)
    ensures StripAll(a + b) == StripAll(a) + StripAll(b)
  {
    assert forall k :: 0 <= k < |a + b| ==> StripAll(a + b)[k] == (StripAll(a) + StripAll(b))[k];
  }

  /** The stripped capture, envelope by envelope. */
  lemma CaptureBlocks()
    ensures StripAll(CaptureLines) ==
      StripAll([""]) + StripAll(Envelope1) + StripAll(Envelope2) + StripAll(Envelope3)
      + (StripAll(Envelope4) + (StripAll(Envelope5) + StripAll(Envelope6)))
  {
    var head := [""] + Envelope1 + Envelope2 + Envelope3;
    var tail := Envelope4 + (Envelope5 + Envelope6);
    assert CaptureLines == head + tail;
    StripAllAppend(head, tail);
    StripAllAppend([""] + Envelope1 + Envelope2, Envelope3);
    StripAllAppend([""] + Envelope1, Envelope2);
    StripAllAppend([""], Envelope1);
    StripAllAppend(Envelope4, Envelope5 + Envelope6);
    StripAllAppend(Envelope5, Envelope6);
  }

  /** Envelopes that end nothing, in front of one that does, leave its result as it is. */
  lemma ComposeEnvelopes(s0: seq<string>, s1: seq<string>, s2: seq<string>, s3: seq<string>,
                         s4: seq<string>, rest: seq<string>)
    requires ParseLines(s0).NotParsed?
    requires |s1| >= 1 && IsHeader(s1[0]) && ParseLines(s1).NotParsed?
    requires |s2| >= 1 && IsHeader(s2[0]) && ParseLines(s2).NotParsed?
    requires |s3| >= 1 && IsHeader(s3[0]) && ParseLines(s3).NotParsed?
    requires |s4| >= 1 && IsHeader(s4[0]) && ParseLines(s4).Parsed?
    ensures ParseLines(s0 + s1 + s2 + s3 + (s4 + rest)) == ParseLines(s4)
  {
    EnvelopeIsolation(s0, s1);
    EnvelopeIsolation(s0 + s1, s2);
    EnvelopeIsolation(s0 + s1 + s2, s3);
    EnvelopeIsolation(s0 + s1 + s2 + s3, s4 + rest);
    ParseLinesIgnoresRest(s4, rest);
  }

  /** The blank first line ends nothing. */
  lemma BlankStart()
    ensures StripAll([""]) == [""]
    ensures ParseLines([""]).NotParsed?
    ensures UnquotedHeaders([""])
  {
    assert Strip("") == "";
    NotParsedWhenUndecided([""]);
  }

  /**
   * The current parser reads the capture as the message "yo" from
   * +11234567890 with no group: the three envelopes before the body leave
   * nothing behind, and what follows the body is never read.
   */
  lemma CaptureParsed()
    ensures ParseLines(StripAll(CaptureLines)) == Parsed(MessageResponse(Some("yo"), Some("+" + SenderDigits), None, None))
  {
    CaptureBlocks();
    BlankStart();
    QuietFirst();
    QuietEnvelope(Envelope1);
    QuietSecond();
    QuietEnvelope(Envelope2);
    QuietThird();
    QuietEnvelope(Envelope3);
    BodyEnvelope();
    AnnouncedEnvelope(Envelope4, 5);
    ComposeEnvelopes(StripAll([""]), StripAll(Envelope1), StripAll(Envelope2), StripAll(Envelope3),
                     StripAll(Envelope4), StripAll(Envelope5) + StripAll(Envelope6));
  }

  lemma UnquotedAppend(a: seq<string>, b: seq<string>)
    requires UnquotedHeaders(a) && UnquotedHeaders(b)
    ensures UnquotedHeaders(a + b)
  {
    forall k | 0 <= k < |a + b| && IsHeader((a + b)[k])
      ensures '"' !in (a + b)[k]
    {
      if k >= |a| {
        assert (a + b)[k] == b[k - |a|];
      }
    }
  }

  /**
   * The older parser finds nothing in the capture: its headers put the
   * sender's name between curly quotes, and it looks for a straight one.
   */
  lemma CaptureNotParsedByLegacy()
    ensures LegacyParseLines(StripAll(CaptureLines)) == None
  {
    var s0, s1, s2, s3 := StripAll([""]), StripAll(Envelope1), StripAll(Envelope2), StripAll(Envelope3);
    var s4, s5, s6 := StripAll(Envelope4), StripAll(Envelope5), StripAll(Envelope6);
    CaptureBlocks();
    BlankStart();
    QuietFirst();
    QuietEnvelope(Envelope1);
    QuietSecond();
    QuietEnvelope(Envelope2);
    QuietThird();
    QuietEnvelope(Envelope3);
    BodyEnvelope();
    AnnouncedEnvelope(Envelope4, 5);
    QuietFifth();
    QuietEnvelope(Envelope5);
    QuietSixth();
    QuietEnvelope(Envelope6);
    UnquotedAppend(s0, s1);
    UnquotedAppend(s0 + s1, s2);
    UnquotedAppend(s0 + s1 + s2, s3);
    UnquotedAppend(s5, s6);
    UnquotedAppend(s4, s5 + s6);
    UnquotedAppend(s0 + s1 + s2 + s3, s4 + (s5 + s6));
    NoQuoteNotParsed(StripAll(CaptureLines));
  }

  /** A group name read before a header is carried by the older parser into the reply of the envelope that header opens. */
  lemma LegacyGroupLeaks(name: string, header: string, body: string)
    requires IsHeader(header) && Truthy(QuotedSender(header))
    requires IsBody(body) && AfterLabel(body) != ""
    ensures LegacyParseLines([GroupInfoLabel, NameLabel + name, header, body])
      == Some(Reply(AfterLabel(body), QuotedSender(header).value, Some(AfterLabel(NameLabel + name))))
  {
    var lines := [GroupInfoLabel, NameLabel + name, header, body];
    var group := Some(AfterLabel(NameLabel + name));
    LabelsExclusive(header);
    LabelsExclusive(body);
    assert (NameLabel + name)[..|NameLabel|] == NameLabel;
    assert !IsHeader(lines[0]) && !IsBody(lines[0]) && !IsHeader(lines[1]) && !IsBody(lines[1]);
    assert GroupInfoSeen(lines, 1) by {
      assert lines[0] == GroupInfoLabel;
    }
    assert SenderAfter(lines, 1) == None;
    assert SenderAfter(lines, 2) == None;
    assert SenderAfter(lines, 3) == QuotedSender(header);
    assert SenderAfter(lines, 4) == QuotedSender(header);
    assert MessageAfter(lines, 1) == None;
    assert MessageAfter(lines, 2) == None;
    assert MessageAfter(lines, 3) == None;
    assert MessageAfter(lines, 4) == Some(AfterLabel(body));
    assert GroupAfter(lines, 2) == group;
    assert GroupAfter(lines, 3) == group;
    assert GroupAfter(lines, 4) == group;
    assert Readiness(lines) == [false, false, false, true];
    assert FirstTrue([false, false, false, true], 0) == Some(3);
  }

  /** The current parser opens the next envelope with no group: a name read before its header is forgotten. */
  lemma GroupScopedToEnvelope(name: string, header: string, body: string)
    requires IsHeader(header) && SenderOf(header).Sender?
    requires IsBody(body)
    ensures ParseLines([GroupInfoLabel, NameLabel + name, header, body])
      == Parsed(MessageResponse(Some(AfterLabel(body)), Some(SenderOf(header).id), None, None))
  {
    var lines := [GroupInfoLabel, NameLabel + name, header, body];
    LabelsExclusive(header);
    LabelsExclusive(body);
    assert (NameLabel + name)[..|NameLabel|] == NameLabel;
    var before, after := lines[..2], lines[2..];
    assert after == [header, body];
    DeliveredAt(after, 1, SenderOf(header).id);
    assert !IsHeader(before[0]) && !IsBody(before[0]) && !IsHeader(before[1]) && !IsBody(before[1]);
    assert !Decides(before, 0) && !Decides(before, 1);
    NotParsedWhenUndecided(before);
    EnvelopeIsolation(before, after);
    assert before + after == lines;
  }
}
