/**
 * The current server (signal_mcp/main.py): the per-envelope parser of
 * `signal-cli receive` output and the `receive_message` tool.
 *
 * The parser reads the capture line by line. An `Envelope from:` line opens
 * a new envelope; when it holds a `+`, the envelope's sender is `+` followed
 * by the first whitespace-delimited token after that `+`, and otherwise the
 * envelope stays empty. `Group info:` marks the open envelope as a group
 * message, a later `Name:` line gives its group name, and the first `Body:`
 * line met while an envelope with a sender is open ends the parse.
 */
module SignalServer {
  import opened Optional
  import opened PyStr
  import opened SignalCli
  import opened Search

  const IndexErrorText := "list index out of range"

  /** The `MessageResponse` dataclass: every field optional. */
  datatype MessageResponse = MessageResponse(
    message: Option<string>,
    senderId: Option<string>,
    groupName: Option<string>,
    error: Option<string>)

  /** `MessageResponse()`: nothing received, and no error. */
  const NoMessage := MessageResponse(None, None, None, None)

  function ErrorResponse(e: string): MessageResponse {
    MessageResponse(None, None, None, Some(e))
  }

  /** What `_parse_receive_output` does: return a record, return `None`, or raise. */
  datatype ParseResult = Parsed(response: MessageResponse) | NotParsed | Raised(error: string)

  /** What an `Envelope from:` line yields: no `+` at all, a sender, or an IndexError. */
  datatype HeaderSender = NoPlus | Sender(id: string) | NoToken

  /**
   * `line.split("+")`, then `"+" + parts[1].split()[0]`: the first token
   * between the first `+` and the next one. When that stretch is blank the
   * indexing raises.
   */
  function SenderOf(header: string): (h: HeaderSender)
    ensures h.NoPlus? <==> '+' !in header
    ensures h.NoToken? <==> '+' in header && AllSpace(Split(header, '+')[1])
    ensures h.Sender? ==> |h.id| >= 2 && h.id[0] == '+' && NoSpace(h.id) && '+' !in h.id[1..]
  {
    var parts := Split(header, '+');
    if |parts| <= 1 then NoPlus
    else
      var words := SplitWs(parts[1]);
      if words == [] then NoToken
      else
        FirstWordShape(parts[1], '+');
        Sender("+" + words[0])
  }

  /** `+` followed by the first word of a non-blank stretch without `c` is a `+`-token without blanks or `c`. */
  lemma FirstWordShape(s: string, c: char)
    requires !AllSpace(s) && c !in s
    ensures var id := "+" + SplitWs(s)[0];
      |id| >= 2 && id[0] == '+' && NoSpace(id) && c !in id[1..]
  {
    var t := TrimLeft(s);
    TrimLeftShape(s);
    assert t != [] by { assert s[..|s|] == s; }
    assert s[|s| - |t|] == t[0];
    var w := Word(t);
    assert SplitWs(s)[0] == w;
    assert forall x :: x in w ==> x in t;
    var id := "+" + w;
    assert id[1..] == w && !IsSpace(id[0]);
  }

  /**
   * The sender is `+` and the first whitespace-delimited token after the
   * first `+`: blanks before the token are skipped, and the token ends at
   * the next blank or `+`.
   */
  lemma SenderFromWord(header: string, sp: string, w: string, rest: string)
    requires |Split(header, '+')| > 1 && Split(header, '+')[1] == sp + w + rest
    requires AllSpace(sp) && w != [] && NoSpace(w) && (rest == [] || IsSpace(rest[0]))
    ensures SenderOf(header) == Sender("+" + w)
  {
    FirstWordAfterBlanks(sp, w, rest);
  }

  /**
   * Conversely, every sender is `+` and such a token: the text between the
   * first two `+` (or after the only one) is blanks, the token, and then a
   * blank or nothing.
   */
  lemma SenderIsFirstToken(header: string) returns (sp: string, rest: string)
    requires SenderOf(header).Sender?
    ensures var id := SenderOf(header).id;
      && |id| >= 2 && id[0] == '+'
      && Split(header, '+')[1] == sp + id[1..] + rest
      && AllSpace(sp) && NoSpace(id[1..]) && (rest == [] || IsSpace(rest[0]))
  {
    var parts := Split(header, '+');
    sp, rest := FirstWordSplit(parts[1]);
    var w := SplitWs(parts[1])[0];
    assert SenderOf(header).id == "+" + w;
    assert ("+" + w)[1..] == w;
  }

  /** The last `Envelope from:` line before line `j`, if any. */
  function LastHeader(lines: seq<string>, j: nat): (h: Option<nat>)
    requires j <= |lines|
    ensures h.Some? ==> h.value < j
  {
    if j == 0 then None
    else if IsHeader(lines[j - 1]) then Some(j - 1)
    else LastHeader(lines, j - 1)
  }

  /** LastHeader finds the header nearest before `j`: no header lies between it and `j`. */
  lemma {:induction false} LastHeaderIsNearest(lines: seq<string>, j: nat)
    requires j <= |lines|
    ensures var h := LastHeader(lines, j);
      && (h.Some? ==> h.value < j && IsHeader(lines[h.value]))
      && forall m :: (if h.Some? then h.value + 1 else 0) <= m < j ==> !IsHeader(lines[m])
  {
    if j > 0 && !IsHeader(lines[j - 1]) {
      LastHeaderIsNearest(lines, j - 1);
    }
  }

  /** Some line in `[lo, hi)` is a `Group info:` line. */
  predicate HasGroupInfo(lines: seq<string>, lo: nat, hi: nat)
    requires lo <= hi <= |lines|
  {
    exists g :: lo <= g < hi && IsGroupInfo(lines[g])
  }

  /** A `Name:` line at `n` that follows a `Group info:` line of the envelope whose lines start at `lo`. */
  predicate GroupNameLine(lines: seq<string>, lo: nat, n: nat)
    requires lo <= n < |lines|
  {
    IsName(lines[n]) && HasGroupInfo(lines, lo, n)
  }

  /**
   * The group name in force at line `hi` for an envelope whose lines start
   * at `lo`: the text of the last `Name:` line that follows a `Group info:`
   * line, if there is one.
   */
  function GroupName(lines: seq<string>, lo: nat, hi: nat): Option<string>
    requires lo <= hi <= |lines|
    decreases hi
  {
    if hi == lo then None
    else if GroupNameLine(lines, lo, hi - 1) then Some(AfterLabel(lines[hi - 1]))
    else GroupName(lines, lo, hi - 1)
  }

  /** A `Group info:` line before `n` is also before any later line. */
  lemma HasGroupInfoGrows(lines: seq<string>, lo: nat, n: nat, hi: nat)
    requires lo <= n <= hi <= |lines| && HasGroupInfo(lines, lo, n)
    ensures HasGroupInfo(lines, lo, hi)
  {
    var g :| lo <= g < n && IsGroupInfo(lines[g]);
    assert g < hi;
  }

  /** The group name is absent exactly when the envelope has no `Name:` line after a `Group info:` line. */
  lemma {:induction false} GroupNameAbsent(lines: seq<string>, lo: nat, hi: nat)
    requires lo <= hi <= |lines|
    ensures GroupName(lines, lo, hi).None? <==> forall n :: lo <= n < hi ==> !GroupNameLine(lines, lo, n)
    decreases hi
  {
    if hi > lo && !GroupNameLine(lines, lo, hi - 1) {
      GroupNameAbsent(lines, lo, hi - 1);
    }
  }

  /**
   * A present group name is the text of a `Name:` line after a `Group info:`
   * line of the same envelope, and no `Name:` line follows it: the last
   * one wins.
   */
  lemma {:induction false} GroupNameIsLastName(lines: seq<string>, lo: nat, hi: nat) returns (n: nat)
    requires lo <= hi <= |lines|
    requires GroupName(lines, lo, hi).Some?
    ensures lo <= n < hi && GroupNameLine(lines, lo, n)
    ensures GroupName(lines, lo, hi).value == AfterLabel(lines[n])
    ensures forall m :: n < m < hi ==> !IsName(lines[m])
    decreases hi
  {
    if GroupNameLine(lines, lo, hi - 1) {
      n := hi - 1;
    } else {
      n := GroupNameIsLastName(lines, lo, hi - 1);
      HasGroupInfoGrows(lines, lo, n, hi - 1);
    }
  }

  /** The parser's envelope state: Python's `current_envelope` dict once it holds a sender. */
  datatype Envelope = Envelope(sender: string, inGroup: bool, group: Option<string>)

  /**
   * The envelope open before line `j` is read: the one the last header
   * started, provided that header gave a sender; its group state comes
   * only from the lines after that header.
   */
  function OpenEnvelope(lines: seq<string>, j: nat): Option<Envelope>
    requires j <= |lines|
  {
    match LastHeader(lines, j)
    case None => None
    case Some(h) =>
      match SenderOf(lines[h])
      case Sender(id) => Some(Envelope(id, HasGroupInfo(lines, h + 1, j), GroupName(lines, h + 1, j)))
      case _ => None
  }

  /** Line `k` is a header whose sender extraction raises. */
  predicate Raises(lines: seq<string>, k: nat)
    requires k < |lines|
  {
    IsHeader(lines[k]) && SenderOf(lines[k]).NoToken?
  }

  /** Line `k` is a `Body:` line read while an envelope with a sender is open. */
  predicate Delivers(lines: seq<string>, k: nat)
    requires k < |lines|
  {
    IsBody(lines[k]) && OpenEnvelope(lines, k).Some?
  }

  /** Line `k` ends the parse, one way or the other. */
  predicate Decides(lines: seq<string>, k: nat)
    requires k < |lines|
  {
    Raises(lines, k) || Delivers(lines, k)
  }

  /** The verdict on every line: does it end the parse? */
  function Verdicts(lines: seq<string>): (v: seq<bool>)
    ensures |v| == |lines|
    ensures forall k :: 0 <= k < |lines| ==> v[k] == Decides(lines, k)
  {
    seq(|lines|, k requires 0 <= k < |lines| => Decides(lines, k))
  }

  /** The first line that ends the parse, if any. */
  function FirstDecision(lines: seq<string>): Option<nat> {
    FirstTrue(Verdicts(lines), 0)
  }

  /** The first line that decides is the one after a run of lines that do not. */
  lemma FirstDecisionAt(lines: seq<string>, i: nat)
    requires i < |lines| && Decides(lines, i)
    requires forall m :: 0 <= m < i ==> !Decides(lines, m)
    ensures FirstDecision(lines) == Some(i)
  {
    var v := Verdicts(lines);
    FirstTrueFrom(v, 0, i);
    assert v[i];
  }

  /**
   * What parsing the lines yields: an IndexError if a bad header comes
   * first, the first delivered body with its envelope's sender and group,
   * or `None` when no line ends the parse.
   */
  function ParseLines(lines: seq<string>): ParseResult {
    match FirstDecision(lines)
    case None => NotParsed
    case Some(k) => DecisionAt(lines, k)
  }

  /** What a deciding line makes the parse return: the IndexError, or the body with its envelope's sender and group. */
  function DecisionAt(lines: seq<string>, k: nat): ParseResult
    requires k < |lines| && Decides(lines, k)
  {
    if Raises(lines, k) then Raised(IndexErrorText)
    else
      var envelope := OpenEnvelope(lines, k).value;
      Parsed(MessageResponse(Some(AfterLabel(lines[k])), Some(envelope.sender), envelope.group, None))
  }

  function ParseCapture(stdout: string): ParseResult {
    ParseLines(StrippedLines(stdout))
  }

  /** A line that is not a `Group info:` line leaves the group-info test unchanged. */
  lemma HasGroupInfoStep(lines: seq<string>, lo: nat, i: nat)
    requires lo <= i < |lines|
    ensures HasGroupInfo(lines, lo, i + 1) == (HasGroupInfo(lines, lo, i) || IsGroupInfo(lines[i]))
  {
    if HasGroupInfo(lines, lo, i + 1) && !IsGroupInfo(lines[i]) {
      var g :| lo <= g < i + 1 && IsGroupInfo(lines[g]);
      assert g < i;
    }
  }

  /** A header line opens a fresh envelope: one with its sender and no group, or none. */
  lemma EnvelopeAfterHeader(lines: seq<string>, i: nat)
    requires i < |lines| && IsHeader(lines[i])
    ensures OpenEnvelope(lines, i + 1) ==
      if SenderOf(lines[i]).Sender? then Some(Envelope(SenderOf(lines[i]).id, false, None)) else None
  {
    assert LastHeader(lines, i + 1) == Some(i);
    assert !HasGroupInfo(lines, i + 1, i + 1);
  }

  /** Any other line keeps the envelope (open or not) and its sender. */
  lemma SenderAfterOther(lines: seq<string>, i: nat)
    requires i < |lines| && !IsHeader(lines[i])
    ensures OpenEnvelope(lines, i + 1).Some? == OpenEnvelope(lines, i).Some?
    ensures OpenEnvelope(lines, i).Some? ==> OpenEnvelope(lines, i + 1).value.sender == OpenEnvelope(lines, i).value.sender
  {
    assert LastHeader(lines, i + 1) == LastHeader(lines, i);
  }

  /** A `Group info:` line marks the open envelope as a group message; nothing unmarks it. */
  lemma InGroupAfterOther(lines: seq<string>, i: nat)
    requires i < |lines| && !IsHeader(lines[i]) && OpenEnvelope(lines, i).Some?
    ensures OpenEnvelope(lines, i + 1).Some?
    ensures OpenEnvelope(lines, i + 1).value.inGroup == (OpenEnvelope(lines, i).value.inGroup || IsGroupInfo(lines[i]))
  {
    assert LastHeader(lines, i + 1) == LastHeader(lines, i);
    LastHeaderIsNearest(lines, i);
    var h := LastHeader(lines, i).value;
    HasGroupInfoStep(lines, h + 1, i);
  }

  /** A `Name:` line in a group envelope replaces the group name; any other line keeps it. */
  lemma GroupAfterOther(lines: seq<string>, i: nat)
    requires i < |lines| && !IsHeader(lines[i]) && OpenEnvelope(lines, i).Some?
    ensures OpenEnvelope(lines, i + 1).Some?
    ensures OpenEnvelope(lines, i + 1).value.group ==
      if IsName(lines[i]) && OpenEnvelope(lines, i).value.inGroup then Some(AfterLabel(lines[i]))
      else OpenEnvelope(lines, i).value.group
  {
    var h := LastHeader(lines, i).value;
    assert LastHeader(lines, i + 1) == Some(h);
    var before, after := OpenEnvelope(lines, i).value, OpenEnvelope(lines, i + 1).value;
    assert before.inGroup == HasGroupInfo(lines, h + 1, i);
    assert before.group == GroupName(lines, h + 1, i);
    assert after.group == GroupName(lines, h + 1, i + 1);
    assert GroupNameLine(lines, h + 1, i) == (IsName(lines[i]) && before.inGroup);
  }

  /**
   * How one stripped line changes the open envelope: a header replaces it,
   * `Group info:` marks it, a `Name:` line of a group envelope renames it.
   */
  function Advance(current: Option<Envelope>, line: string): Option<Envelope> {
    if IsHeader(line) then
      (match SenderOf(line) case Sender(id) => Some(Envelope(id, false, None)) case _ => None)
    else if current.None? then None
    else
      var e := current.value;
      Some(Envelope(e.sender, e.inGroup || IsGroupInfo(line),
        if IsName(line) && e.inGroup then Some(AfterLabel(line)) else e.group))
  }

  /** The envelope open after line `i` is the one open before it, advanced by that line. */
  lemma OpenEnvelopeStep(lines: seq<string>, i: nat)
    requires i < |lines|
    ensures OpenEnvelope(lines, i + 1) == Advance(OpenEnvelope(lines, i), lines[i])
  {
    if IsHeader(lines[i]) {
      EnvelopeAfterHeader(lines, i);
    } else {
      SenderAfterOther(lines, i);
      if OpenEnvelope(lines, i).Some? {
        InGroupAfterOther(lines, i);
        GroupAfterOther(lines, i);
      }
    }
  }

  /** Reaching line `i` with no earlier decision, a line that does not decide leaves the search to the next line. */
  lemma PassLine(lines: seq<string>, i: nat)
    requires i < |lines| && FirstTrue(Verdicts(lines), i) == FirstDecision(lines)
    requires !Decides(lines, i)
    ensures FirstTrue(Verdicts(lines), i + 1) == FirstDecision(lines)
  {
  }

  /** Reaching line `i` with no earlier decision, a line that decides gives the parse its result. */
  lemma DecideLine(lines: seq<string>, i: nat)
    requires i < |lines| && FirstTrue(Verdicts(lines), i) == FirstDecision(lines)
    requires Decides(lines, i)
    ensures ParseLines(lines) == if Raises(lines, i) then Raised(IndexErrorText)
      else Parsed(MessageResponse(Some(AfterLabel(lines[i])), Some(OpenEnvelope(lines, i).value.sender),
                                  OpenEnvelope(lines, i).value.group, None))
  {
    assert FirstDecision(lines) == Some(i);
  }

  /** Line `line`, read with envelope `current` open, ends the parse: a header that raises, or a body under a sender. */
  predicate LineDecides(current: Option<Envelope>, line: string) {
    (IsHeader(line) && SenderOf(line).NoToken?) || (IsBody(line) && current.Some?)
  }

  /** What a deciding line makes the parse return. */
  function Outcome(current: Option<Envelope>, line: string): ParseResult
    requires LineDecides(current, line)
  {
    if IsHeader(line) then Raised(IndexErrorText)
    else Parsed(MessageResponse(Some(AfterLabel(line)), Some(current.value.sender), current.value.group, None))
  }

  /** Whether line `i` ends the parse depends only on that line and the envelope open before it. */
  lemma DecidesByLine(lines: seq<string>, i: nat)
    requires i < |lines|
    ensures Decides(lines, i) == LineDecides(OpenEnvelope(lines, i), lines[i])
    ensures Decides(lines, i) ==> Raises(lines, i) == IsHeader(lines[i])
  {
    LabelsExclusive(lines[i]);
  }

  /**
   * The body of the loop of `_parse_receive_output` for one stripped line:
   * skip it when blank, otherwise test the four labels in turn against the
   * open envelope; `stop` is the value returned or raised, if any.
   */
  method ReadLine(current: Option<Envelope>, line: string) returns (next: Option<Envelope>, stop: Option<ParseResult>)
    ensures next == Advance(current, line)
    ensures stop.Some? <==> LineDecides(current, line)
    ensures stop.Some? ==> stop.value == Outcome(current, line)
  {
    LabelsExclusive(line);
    next, stop := current, None;
    if line == "" {
      return;
    }
    if StartsWith(line, EnvelopeLabel) {
      next := None;
      var parts := Split(line, '+');
      if |parts| > 1 {
        var words := SplitWs(parts[1]);
        if words == [] {
          return next, Some(Raised(IndexErrorText));
        }
        next := Some(Envelope("+" + words[0], false, None));
      }
    } else if StartsWith(line, BodyLabel) {
      if current.Some? {
        var body := AfterLabel(line);
        return next, Some(Parsed(MessageResponse(Some(body), Some(current.value.sender), current.value.group, None)));
      }
    } else if StartsWith(line, GroupInfoLabel) {
      if current.Some? {
        next := Some(current.value.(inGroup := true));
      }
    } else if StartsWith(line, NameLabel) && current.Some? && current.value.inGroup {
      next := Some(current.value.(group := Some(AfterLabel(line))));
    }
  }

  /**
   * The parse run line by line from line `i` with envelope `current` open:
   * the first line that decides gives the result.
   */
  function Run(lines: seq<string>, i: nat, current: Option<Envelope>): ParseResult
    requires i <= |lines|
    decreases |lines| - i
  {
    if i == |lines| then NotParsed
    else if LineDecides(current, lines[i]) then Outcome(current, lines[i])
    else Run(lines, i + 1, Advance(current, lines[i]))
  }

  /**
   * Run from any line reached with no earlier decision, with the envelope
   * the earlier lines leave open, the line-by-line parse gives the
   * declarative result.
   */
  lemma {:induction false} RunFrom(lines: seq<string>, i: nat)
    requires i <= |lines| && FirstTrue(Verdicts(lines), i) == FirstDecision(lines)
    ensures Run(lines, i, OpenEnvelope(lines, i)) == ParseLines(lines)
    decreases |lines| - i
  {
    if i < |lines| {
      DecidesByLine(lines, i);
      if Decides(lines, i) {
        DecideLine(lines, i);
      } else {
        PassLine(lines, i);
        OpenEnvelopeStep(lines, i);
        RunFrom(lines, i + 1);
      }
    }
  }

  /** The line-by-line parse from the top agrees with the declarative one. */
  lemma RunIsParse(lines: seq<string>)
    ensures Run(lines, 0, None) == ParseLines(lines)
  {
    RunFrom(lines, 0);
  }

  /**
   * `_parse_receive_output`: one pass over the stripped lines, keeping the
   * open envelope and returning at the first body of an envelope that has
   * a sender. A header whose `+` is followed by nothing (or by another `+`)
   * makes `parts[1].split()[0]` raise.
   */
  method ParseReceiveOutput(stdout: string) returns (r: ParseResult)
    ensures r == ParseCapture(stdout)
  {
    var lines := Split(stdout, '\n');
    ghost var stripped := StrippedLines(stdout);
    // None is the empty `current_envelope` dict; the `message` and
    // `has_body` keys are set only on the way out and are not kept.
    var current: Option<Envelope> := None;
    RunIsParse(stripped);
    for i := 0 to |lines|
      invariant Run(stripped, i, current) == Run(stripped, 0, None)
    {
      var line := Strip(lines[i]);
      assert line == stripped[i];
      var next, stop := ReadLine(current, line);
      if stop.Some? {
        return stop.value;
      }
      current := next;
    }
    return NotParsed;
  }

  /**
   * The `receive_message` tool. Branches in order: a launch failure becomes
   * the error it raised; a non-zero exit is a quiet timeout when the
   * lower-cased stderr mentions "timeout" and an error otherwise; blank
   * output means nothing arrived; then the parse decides, an exception
   * inside it becoming an error response.
   */
  method ReceiveMessage(config: SignalConfig, timeoutSeconds: int, run: RunOutcome)
    returns (r: MessageResponse, issued: Command)
    ensures issued == Receive(config.userId, timeoutSeconds)
    ensures run.LaunchFailed? ==> r == ErrorResponse(LaunchError(run.cause))
    ensures run.Completed? && !run.ExitedZero() ==>
      r == if Contains(Lower(run.stderr), "timeout") then NoMessage else ErrorResponse(ReceiveFailedPrefix + run.stderr)
    ensures run.ExitedZero() && AllSpace(run.stdout) ==> r == NoMessage
    ensures run.ExitedZero() && !AllSpace(run.stdout) ==>
      r == match ParseCapture(run.stdout)
           case Parsed(response) => response
           case NotParsed => ErrorResponse(ParseFailedText)
           case Raised(e) => ErrorResponse(e)
    // The reply is an error, a message with its sender, or empty.
    ensures r.error.Some? ==> r.message.None? && r.senderId.None? && r.groupName.None?
    ensures r.message.Some? <==> r.senderId.Some?
    ensures r.senderId.Some? ==> |r.senderId.value| >= 2 && r.senderId.value[0] == '+'
  {
    issued := Receive(config.userId, timeoutSeconds);
    if run.LaunchFailed? {
      return ErrorResponse(LaunchError(run.cause)), issued;
    }
    if run.returnCode != Some(0) {
      if Contains(Lower(run.stderr), "timeout") {
        return NoMessage, issued;
      }
      return ErrorResponse(ReceiveFailedPrefix + run.stderr), issued;
    }
    StripShape(run.stdout);
    if Strip(run.stdout) == "" {
      return NoMessage, issued;
    }
    var result := ParseReceiveOutput(run.stdout);
    match result
    case Parsed(response) =>
      ghost var h, k := ParsedFromEnvelope(StrippedLines(run.stdout));
      r := response;
    case NotParsed =>
      r := ErrorResponse(ParseFailedText);
    case Raised(e) =>
      r := ErrorResponse(e);
  }

  /**
   * A parsed record comes from a `Body:` line `k` inside the envelope
   * opened by header `h`: a header that gave a `+`-token sender, with no
   * header in between. Its group name is the envelope's, and nothing
   * before `k` ends the parse.
   */
  lemma ParsedFromEnvelope(lines: seq<string>) returns (h: nat, k: nat)
    requires ParseLines(lines).Parsed?
    ensures var m := ParseLines(lines).response;
      && h < k < |lines|
      && IsHeader(lines[h]) && SenderOf(lines[h]) == Sender(m.senderId.value)
      && (forall x :: h < x < k ==> !IsHeader(lines[x]))
      && IsBody(lines[k]) && m.message == Some(AfterLabel(lines[k]))
      && m.groupName == GroupName(lines, h + 1, k)
      && m.error.None?
      && |m.senderId.value| >= 2 && m.senderId.value[0] == '+' && NoSpace(m.senderId.value)
      && (forall x :: 0 <= x < k ==> !Decides(lines, x))
  {
    k := FirstDecision(lines).value;
    var verdicts := Verdicts(lines);
    assert verdicts[k] && forall x :: 0 <= x < k ==> !verdicts[x];
    assert Decides(lines, k) && !Raises(lines, k);
    LabelsExclusive(lines[k]);
    LastHeaderIsNearest(lines, k);
    h := LastHeader(lines, k).value;
    var e := OpenEnvelope(lines, k).value;
    assert SenderOf(lines[h]) == Sender(e.sender);
    assert ParseLines(lines).response == MessageResponse(Some(AfterLabel(lines[k])), Some(e.sender), e.group, None);
  }

  /**
   * A `Body:` line is passed over when no header precedes it, or when the
   * nearest header before it holds no `+`.
   */
  lemma IgnoredBody(lines: seq<string>, k: nat)
    requires k < |lines| && IsBody(lines[k])
    requires (forall x :: 0 <= x < k ==> !IsHeader(lines[x]))
          || (exists h :: 0 <= h < k && IsHeader(lines[h]) && '+' !in lines[h]
                && forall x :: h < x < k ==> !IsHeader(lines[x]))
    ensures !Decides(lines, k)
  {
    LabelsExclusive(lines[k]);
    LastHeaderIsNearest(lines, k);
    if exists h :: 0 <= h < k && IsHeader(lines[h]) && '+' !in lines[h] && forall x :: h < x < k ==> !IsHeader(lines[x]) {
      var h :| 0 <= h < k && IsHeader(lines[h]) && '+' !in lines[h] && forall x :: h < x < k ==> !IsHeader(lines[x]);
      assert LastHeader(lines, k) == Some(h);
    }
  }

  /** The parse gives `None` exactly when no line ends it: no body under an envelope with a sender, no bad header. */
  lemma NotParsedWhenUndecided(lines: seq<string>)
    ensures ParseLines(lines).NotParsed? <==> forall x :: 0 <= x < |lines| ==> !Decides(lines, x)
  {
    var d := FirstDecision(lines);
    if d.Some? {
      assert Decides(lines, d.value);
    }
  }

  /** Empty output holds no message. */
  lemma EmptyCaptureNotParsed()
    ensures ParseCapture("") == NotParsed
  {
    var lines := StrippedLines("");
    assert Split("", '\n') == [""];
    assert lines == [""];
    assert !Decides(lines, 0);
    assert Verdicts(lines) == [false];
  }

  /**
   * A header whose first `+` ends the line, or is followed straight away by
   * another `+`, makes the parse raise when no earlier line ended it.
   */
  lemma BlankTokenRaises(lines: seq<string>, k: nat, before: string, after: string)
    requires k < |lines| && IsHeader(lines[k])
    requires lines[k] == before + ['+'] + after && '+' !in before
    requires after == [] || after[0] == '+'
    requires forall m :: 0 <= m < k ==> !Decides(lines, m)
    ensures ParseLines(lines) == Raised(IndexErrorText)
  {
    SplitAtSeparator(before, after, '+');
    SplitNoSeparator(before, '+');
    var parts := Split(lines[k], '+');
    assert parts == [before] + Split(after, '+');
    assert parts[1] == [];
    assert SenderOf(lines[k]).NoToken?;
    FirstDecisionAt(lines, k);
  }

  // What happens after the deciding line does not matter: every spec
  // function below agrees on a prefix and on the whole.

  lemma {:induction false} LastHeaderPrefix(lines: seq<string>, more: seq<string>, j: nat)
    requires j <= |lines|
    ensures LastHeader(lines + more, j) == LastHeader(lines, j)
  {
    if j > 0 {
      assert (lines + more)[j - 1] == lines[j - 1];
      LastHeaderPrefix(lines, more, j - 1);
    }
  }

  lemma HasGroupInfoPrefix(lines: seq<string>, more: seq<string>, lo: nat, hi: nat)
    requires lo <= hi <= |lines|
    ensures HasGroupInfo(lines + more, lo, hi) == HasGroupInfo(lines, lo, hi)
  {
    forall g | lo <= g < hi
      ensures (lines + more)[g] == lines[g]
    {
    }
  }

  lemma {:induction false} GroupNamePrefix(lines: seq<string>, more: seq<string>, lo: nat, hi: nat)
    requires lo <= hi <= |lines|
    ensures GroupName(lines + more, lo, hi) == GroupName(lines, lo, hi)
    decreases hi
  {
    if hi > lo {
      assert (lines + more)[hi - 1] == lines[hi - 1];
      HasGroupInfoPrefix(lines, more, lo, hi - 1);
      GroupNamePrefix(lines, more, lo, hi - 1);
    }
  }

  lemma OpenEnvelopePrefix(lines: seq<string>, more: seq<string>, j: nat)
    requires j <= |lines|
    ensures OpenEnvelope(lines + more, j) == OpenEnvelope(lines, j)
  {
    LastHeaderPrefix(lines, more, j);
    var h := LastHeader(lines, j);
    if h.Some? {
      assert (lines + more)[h.value] == lines[h.value];
      HasGroupInfoPrefix(lines, more, h.value + 1, j);
      GroupNamePrefix(lines, more, h.value + 1, j);
    }
  }

  lemma DecidesPrefix(lines: seq<string>, more: seq<string>, k: nat)
    requires k < |lines|
    ensures Decides(lines + more, k) == Decides(lines, k)
  {
    assert (lines + more)[k] == lines[k];
    OpenEnvelopePrefix(lines, more, k);
  }

  lemma VerdictsPrefix(lines: seq<string>, more: seq<string>)
    ensures Verdicts(lines + more)[..|lines|] == Verdicts(lines)
  {
    forall k | 0 <= k < |lines|
      ensures Decides(lines + more, k) == Decides(lines, k)
    {
      DecidesPrefix(lines, more, k);
    }
  }

  /** Once some line ends the parse, appending lines changes nothing. */
  lemma ParseLinesIgnoresRest(lines: seq<string>, more: seq<string>)
    requires !ParseLines(lines).NotParsed?
    ensures ParseLines(lines + more) == ParseLines(lines)
  {
    VerdictsPrefix(lines, more);
    FirstTrueExtend(Verdicts(lines), Verdicts(lines + more));
    var k := FirstDecision(lines).value;
    assert (lines + more)[k] == lines[k];
    OpenEnvelopePrefix(lines, more, k);
  }

  /**
   * Whatever output follows a capture that already yields a record or an
   * error is never examined: later envelopes cannot change the result.
   */
  lemma ParseCaptureIgnoresRest(s: string, t: string)
    requires !ParseCapture(s).NotParsed?
    ensures ParseCapture(s + "\n" + t) == ParseCapture(s)
  {
    StrippedLinesAppend(s, t);
    ParseLinesIgnoresRest(StrippedLines(s), StrippedLines(t));
  }

  // Envelopes are independent: once a header is read, nothing before it
  // matters. Below, `before + after` is a capture whose `after` part starts
  // with a header, and positions in `after` are shifted by `|before|`.

  lemma {:induction false} LastHeaderShift(before: seq<string>, after: seq<string>, j: nat)
    requires 1 <= j <= |after| && IsHeader(after[0])
    ensures LastHeader(after, j).Some?
    ensures LastHeader(before + after, |before| + j) == Some(|before| + LastHeader(after, j).value)
  {
    assert (before + after)[|before| + j - 1] == after[j - 1];
    if j > 1 && !IsHeader(after[j - 1]) {
      LastHeaderShift(before, after, j - 1);
    }
  }

  lemma HasGroupInfoShift(before: seq<string>, after: seq<string>, lo: nat, hi: nat)
    requires lo <= hi <= |after|
    ensures HasGroupInfo(before + after, |before| + lo, |before| + hi) == HasGroupInfo(after, lo, hi)
  {
    if HasGroupInfo(before + after, |before| + lo, |before| + hi) {
      var g :| |before| + lo <= g < |before| + hi && IsGroupInfo((before + after)[g]);
      assert after[g - |before|] == (before + after)[g];
    }
    if HasGroupInfo(after, lo, hi) {
      var g :| lo <= g < hi && IsGroupInfo(after[g]);
      assert (before + after)[|before| + g] == after[g];
    }
  }

  lemma {:induction false} GroupNameShift(before: seq<string>, after: seq<string>, lo: nat, hi: nat)
    requires lo <= hi <= |after|
    ensures GroupName(before + after, |before| + lo, |before| + hi) == GroupName(after, lo, hi)
    decreases hi
  {
    if hi > lo {
      assert (before + after)[|before| + hi - 1] == after[hi - 1];
      HasGroupInfoShift(before, after, lo, hi - 1);
      GroupNameShift(before, after, lo, hi - 1);
    }
  }

  lemma OpenEnvelopeShift(before: seq<string>, after: seq<string>, j: nat)
    requires 1 <= j <= |after| && IsHeader(after[0])
    ensures OpenEnvelope(before + after, |before| + j) == OpenEnvelope(after, j)
  {
    LastHeaderShift(before, after, j);
    var h := LastHeader(after, j).value;
    assert (before + after)[|before| + h] == after[h];
    HasGroupInfoShift(before, after, h + 1, j);
    GroupNameShift(before, after, h + 1, j);
  }

  lemma DecidesShift(before: seq<string>, after: seq<string>, x: nat)
    requires x < |after| && IsHeader(after[0])
    ensures Decides(before + after, |before| + x) == Decides(after, x)
  {
    assert (before + after)[|before| + x] == after[x];
    if x == 0 {
      LabelsExclusive(after[0]);
    } else {
      OpenEnvelopeShift(before, after, x);
    }
  }

  lemma VerdictsShift(before: seq<string>, after: seq<string>)
    requires |after| >= 1 && IsHeader(after[0])
    ensures Verdicts(before + after)[|before|..] == Verdicts(after)
  {
    forall x | 0 <= x < |after|
      ensures Decides(before + after, |before| + x) == Decides(after, x)
    {
      DecidesShift(before, after, x);
    }
  }

  /** Lines that end nothing keep their verdicts when more lines follow. */
  lemma NoVerdictBefore(before: seq<string>, after: seq<string>)
    requires ParseLines(before).NotParsed?
    ensures forall m :: 0 <= m < |before| ==> !Verdicts(before + after)[m]
  {
    NotParsedWhenUndecided(before);
    forall m | 0 <= m < |before|
      ensures !Decides(before + after, m)
    {
      DecidesPrefix(before, after, m);
    }
  }

  /** Behind lines that end nothing, the deciding line is the one the lines from the header on find, shifted. */
  lemma FirstDecisionShifted(before: seq<string>, after: seq<string>)
    requires |after| >= 1 && IsHeader(after[0])
    requires ParseLines(before).NotParsed?
    ensures var d := FirstDecision(after);
      FirstDecision(before + after) == if d.Some? then Some(|before| + d.value) else None
  {
    var c, d := Verdicts(before + after), Verdicts(after);
    assert forall m :: 0 <= m < |before| ==> !c[m] by {
      NoVerdictBefore(before, after);
    }
    assert c[|before|..] == d by {
      VerdictsShift(before, after);
    }
    FirstTrueAfter(c, d, |before|);
  }

  /** The same shift, one case at a time: no decision stays none, a decision moves up by `|before|`. */
  lemma FirstDecisionBehind(before: seq<string>, after: seq<string>)
    requires |after| >= 1 && IsHeader(after[0])
    requires ParseLines(before).NotParsed?
    ensures FirstDecision(after).None? ==> FirstDecision(before + after).None?
    ensures FirstDecision(after).Some? ==> FirstDecision(before + after) == Some(|before| + FirstDecision(after).value)
  {
    FirstDecisionShifted(before, after);
  }

  /** A deciding line of `after` decides the same way behind `before`. */
  lemma OutcomeShift(before: seq<string>, after: seq<string>, k: nat)
    requires k < |after| && IsHeader(after[0]) && Decides(after, k)
    ensures Decides(before + after, |before| + k)
    ensures DecisionAt(before + after, |before| + k) == DecisionAt(after, k)
  {
    DecidesShift(before, after, k);
    assert (before + after)[|before| + k] == after[k];
    if k == 0 {
      LabelsExclusive(after[0]);
    } else {
      OpenEnvelopeShift(before, after, k);
    }
  }

  /** Two captures whose deciding lines decide alike parse alike. */
  lemma DecidedAlike(lines: seq<string>, j: nat, other: seq<string>, k: nat)
    requires FirstDecision(lines) == Some(j) && FirstDecision(other) == Some(k)
    requires j < |lines| && Decides(lines, j) && k < |other| && Decides(other, k)
    requires DecisionAt(lines, j) == DecisionAt(other, k)
    ensures ParseLines(lines) == ParseLines(other)
  {
  }

  /** When the deciding line of `after` is also the deciding line behind `before`, both parse alike. */
  lemma {:induction false} DecidedBehind(before: seq<string>, after: seq<string>)
    requires |after| >= 1 && IsHeader(after[0])
    requires FirstDecision(after).Some?
    requires FirstDecision(before + after) == Some(|before| + FirstDecision(after).value)
    ensures ParseLines(before + after) == ParseLines(after)
  {
    var k := FirstDecision(after).value;
    assert k < |after| && Decides(after, k) by {
      assert Verdicts(after)[k];
    }
    OutcomeShift(before, after, k);
    DecidedAlike(before + after, |before| + k, after, k);
  }

  /** Two captures that neither decide parse alike. */
  lemma {:induction false} UndecidedBehind(before: seq<string>, after: seq<string>)
    requires FirstDecision(after).None? && FirstDecision(before + after).None?
    ensures ParseLines(before + after) == ParseLines(after)
  {
  }

  /**
   * Envelope scoping: when the lines before a header do not end the parse,
   * the result is what the lines from that header on give by themselves.
   * No sender, group flag or group name crosses a header.
   */
  lemma EnvelopeIsolation(before: seq<string>, after: seq<string>)
    requires |after| >= 1 && IsHeader(after[0])
    requires ParseLines(before).NotParsed?
    ensures ParseLines(before + after) == ParseLines(after)
  {
    FirstDecisionBehind(before, after);
    if FirstDecision(after).Some? {
      DecidedBehind(before, after);
    } else {
      UndecidedBehind(before, after);
    }
  }


}
