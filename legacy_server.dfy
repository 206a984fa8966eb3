/**
 * The older server (main.py): a parser of `signal-cli receive` output that
 * keeps four variables for the whole capture, and its `receive_message`
 * tool, which answers with tuples and dictionaries.
 *
 * Nothing is reset between envelopes. A header takes its sender from
 * between straight double quotes, a line equal to `Group info:` switches
 * group mode on for good, `Name:` lines in group mode set the group name,
 * `Body:` lines set the message, and the parse ends after the first line
 * at which both sender and message are non-empty.
 */
module LegacyServer {
  import opened Optional
  import opened PyStr
  import opened SignalCli
  import opened Search

  /** Python truthiness of an optional string: present and non-empty. */
  predicate Truthy(s: Option<string>) {
    s.Some? && s.value != ""
  }

  /** `line.split('"')[1]` when the split has at least two parts: the text after the first `"`, up to the next one. */
  function QuotedSender(line: string): (q: Option<string>)
    ensures q.Some? <==> '"' in line
    ensures q.Some? ==> '"' !in q.value
  {
    var parts := Split(line, '"');
    if |parts| >= 2 then Some(parts[1]) else None
  }

  /** A header with two straight quotes or more gives the text between the first two. */
  lemma QuotedBetween(a: string, b: string, c: string)
    requires '"' !in a && '"' !in b
    ensures QuotedSender(a + ['"'] + b + ['"'] + c) == Some(b)
  {
    SplitAtSeparator(a, b + ['"'] + c, '"');
    SplitAtSeparator(b, c, '"');
    SplitNoSeparator(a, '"');
    SplitNoSeparator(b, '"');
    assert a + ['"'] + b + ['"'] + c == a + ['"'] + (b + ['"'] + c);
  }

  /** A header with a single straight quote gives the rest of the line after it. */
  lemma QuotedToEnd(a: string, b: string)
    requires '"' !in a && '"' !in b
    ensures QuotedSender(a + ['"'] + b) == Some(b)
  {
    SplitAtSeparator(a, b, '"');
    SplitNoSeparator(a, '"');
    SplitNoSeparator(b, '"');
  }

  /** `sender_id` once lines `[0, j)` are read: the quoted text of the last header that has a `"`. */
  function SenderAfter(lines: seq<string>, j: nat): Option<string>
    requires j <= |lines|
  {
    if j == 0 then None
    else if IsHeader(lines[j - 1]) && QuotedSender(lines[j - 1]).Some? then QuotedSender(lines[j - 1])
    else SenderAfter(lines, j - 1)
  }

  /** `message` once lines `[0, j)` are read: the text of the last `Body:` line. */
  function MessageAfter(lines: seq<string>, j: nat): Option<string>
    requires j <= |lines|
  {
    if j == 0 then None
    else if IsBody(lines[j - 1]) then Some(AfterLabel(lines[j - 1]))
    else MessageAfter(lines, j - 1)
  }

  /** `in_group_info` once lines `[0, j)` are read: some line so far is exactly `Group info:`. */
  predicate GroupInfoSeen(lines: seq<string>, j: nat)
    requires j <= |lines|
  {
    j > 0 && (lines[j - 1] == GroupInfoLabel || GroupInfoSeen(lines, j - 1))
  }

  /** `group_name` once lines `[0, j)` are read: the text of the last `Name:` line read in group mode. */
  function GroupAfter(lines: seq<string>, j: nat): Option<string>
    requires j <= |lines|
  {
    if j == 0 then None
    else if IsName(lines[j - 1]) && GroupInfoSeen(lines, j - 1) then Some(AfterLabel(lines[j - 1]))
    else GroupAfter(lines, j - 1)
  }

  /** After line `k`, both sender and message are non-empty. */
  predicate Ready(lines: seq<string>, k: nat)
    requires k < |lines|
  {
    Truthy(SenderAfter(lines, k + 1)) && Truthy(MessageAfter(lines, k + 1))
  }

  /** The verdict on every line: can the parse return after it? */
  function Readiness(lines: seq<string>): (v: seq<bool>)
    ensures |v| == |lines|
    ensures forall k :: 0 <= k < |lines| ==> v[k] == Ready(lines, k)
  {
    seq(|lines|, k requires 0 <= k < |lines| => Ready(lines, k))
  }

  /** The first line after which the parse can return, if any. */
  function FirstReady(lines: seq<string>): Option<nat> {
    FirstTrue(Readiness(lines), 0)
  }

  /** The `(message, sender_id, group_name)` tuple the parser returns. */
  datatype Reply = Reply(message: string, sender: string, group: Option<string>)

  /** What the parse returns: the three variables at the first line where it can return, or `None`. */
  function LegacyParseLines(lines: seq<string>): Option<Reply> {
    match FirstReady(lines)
    case None => None
    case Some(k) => Some(Reply(MessageAfter(lines, k + 1).value, SenderAfter(lines, k + 1).value, GroupAfter(lines, k + 1)))
  }

  function LegacyParseCapture(stdout: string): Option<Reply> {
    LegacyParseLines(StrippedLines(stdout))
  }

  /** Once on, group mode stays on: nothing resets `in_group_info`. */
  lemma {:induction false} GroupInfoNeverResets(lines: seq<string>, i: nat, j: nat)
    requires i <= j <= |lines| && GroupInfoSeen(lines, i)
    ensures GroupInfoSeen(lines, j)
    decreases j - i
  {
    if i < j {
      GroupInfoNeverResets(lines, i + 1, j);
    }
  }

  /** The exact `Group info:` line carries the group-info label. */
  lemma GroupInfoLineLabelled()
    ensures IsGroupInfo(GroupInfoLabel)
  {
    assert GroupInfoLabel[..|GroupInfoLabel|] == GroupInfoLabel;
  }

  /**
   * The body of the parser's loop for one stripped line: the `if`/`elif`
   * chain that updates the four variables.
   */
  method LegacyReadLine(senderId: Option<string>, message: Option<string>, groupName: Option<string>,
                        inGroupInfo: bool, line: string)
    returns (senderId': Option<string>, message': Option<string>, groupName': Option<string>, inGroupInfo': bool)
    ensures senderId' == if IsHeader(line) && QuotedSender(line).Some? then QuotedSender(line) else senderId
    ensures message' == if IsBody(line) then Some(AfterLabel(line)) else message
    ensures groupName' == if IsName(line) && inGroupInfo then Some(AfterLabel(line)) else groupName
    ensures inGroupInfo' == (inGroupInfo || line == GroupInfoLabel)
  {
    senderId', message', groupName', inGroupInfo' := senderId, message, groupName, inGroupInfo;
    LabelsExclusive(line);
    if StartsWith(line, EnvelopeLabel) {
      var parts := Split(line, '"');
      if |parts| >= 2 {
        senderId' := Some(parts[1]);
      }
      assert line != GroupInfoLabel by {
        GroupInfoLineLabelled();
      }
    } else if line == GroupInfoLabel {
      assert line[..|GroupInfoLabel|] == line;
      inGroupInfo' := true;
    } else if inGroupInfo && StartsWith(line, NameLabel) {
      groupName' := Some(AfterLabel(line));
    } else if StartsWith(line, BodyLabel) {
      message' := Some(AfterLabel(line));
    }
  }

  /** The parse run line by line from line `i`, with the variables lines `[0, i)` leave. */
  function LegacyRun(lines: seq<string>, i: nat): Option<Reply>
    requires i <= |lines|
    decreases |lines| - i
  {
    if i == |lines| then None
    else if Ready(lines, i) then Some(Reply(MessageAfter(lines, i + 1).value, SenderAfter(lines, i + 1).value, GroupAfter(lines, i + 1)))
    else LegacyRun(lines, i + 1)
  }

  /** Run from any line before the first one after which the parse can return, the line-by-line parse gives the declarative result. */
  lemma {:induction false} LegacyRunFrom(lines: seq<string>, i: nat)
    requires i <= |lines| && FirstTrue(Readiness(lines), i) == FirstReady(lines)
    ensures LegacyRun(lines, i) == LegacyParseLines(lines)
    decreases |lines| - i
  {
    if i < |lines| && !Ready(lines, i) {
      LegacyRunFrom(lines, i + 1);
    }
  }

  /**
   * `_parse_receive_output` of main.py: one pass over the stripped lines
   * updating four variables, testing after every line (blank ones
   * included) whether sender and message are both non-empty.
   */
  method LegacyParseReceiveOutput(stdout: string) returns (r: Option<Reply>)
    ensures r == LegacyParseCapture(stdout)
  {
    var lines := Split(stdout, '\n');
    ghost var stripped := StrippedLines(stdout);
    LegacyRunFrom(stripped, 0);
    var senderId: Option<string> := None;
    var message: Option<string> := None;
    var groupName: Option<string> := None;
    var inGroupInfo := false;
    for i := 0 to |lines|
      invariant senderId == SenderAfter(stripped, i)
      invariant message == MessageAfter(stripped, i)
      invariant groupName == GroupAfter(stripped, i)
      invariant inGroupInfo == GroupInfoSeen(stripped, i)
      invariant LegacyRun(stripped, i) == LegacyParseLines(stripped)
    {
      var line := Strip(lines[i]);
      assert line == stripped[i];
      senderId, message, groupName, inGroupInfo := LegacyReadLine(senderId, message, groupName, inGroupInfo, line);
      assert senderId == SenderAfter(stripped, i + 1);
      assert message == MessageAfter(stripped, i + 1);
      assert groupName == GroupAfter(stripped, i + 1);
      if Truthy(senderId) && Truthy(message) {
        return Some(Reply(message.value, senderId.value, groupName));
      }
    }
    return None;
  }

  /** What main.py's `receive_message` returns: a `(message, sender, group)` tuple or an `{"error": …}` dictionary. */
  datatype LegacyReply =
    | Tuple(message: Option<string>, sender: Option<string>, group: Option<string>)
    | ErrorDict(error: string)

  const EmptyTuple := Tuple(None, None, None)

  /**
   * The `receive_message` tool of main.py: the same branch order as the
   * current server, with `(None, None, None)` for a timeout or blank
   * output and the parsed tuple passed through. The parse cannot raise.
   */
  method LegacyReceiveMessage(config: SignalConfig, timeoutSeconds: int, run: RunOutcome)
    returns (r: LegacyReply, issued: Command)
    ensures issued == Receive(config.userId, timeoutSeconds)
    ensures run.LaunchFailed? ==> r == ErrorDict(LaunchError(run.cause))
    ensures run.Completed? && !run.ExitedZero() ==>
      r == if Contains(Lower(run.stderr), "timeout") then EmptyTuple else ErrorDict(ReceiveFailedPrefix + run.stderr)
    ensures run.ExitedZero() && AllSpace(run.stdout) ==> r == EmptyTuple
    ensures run.ExitedZero() && !AllSpace(run.stdout) ==>
      r == match LegacyParseCapture(run.stdout)
           case Some(reply) => Tuple(Some(reply.message), Some(reply.sender), reply.group)
           case None => ErrorDict(ParseFailedText)
    // A tuple either carries nothing or a non-empty message and sender.
    ensures r.Tuple? ==> (r.message.None? <==> r.sender.None?)
    ensures r.Tuple? && r.message.Some? ==> Truthy(r.message) && Truthy(r.sender)
  {
    issued := Receive(config.userId, timeoutSeconds);
    if run.LaunchFailed? {
      return ErrorDict(LaunchError(run.cause)), issued;
    }
    if run.returnCode != Some(0) {
      if Contains(Lower(run.stderr), "timeout") {
        return EmptyTuple, issued;
      }
      return ErrorDict(ReceiveFailedPrefix + run.stderr), issued;
    }
    StripShape(run.stdout);
    if Strip(run.stdout) == "" {
      return EmptyTuple, issued;
    }
    var result := LegacyParseReceiveOutput(run.stdout);
    if result.Some? {
      ghost var k := FirstReady(StrippedLines(run.stdout)).value;
      r := Tuple(Some(result.value.message), Some(result.value.sender), result.value.group);
    } else {
      r := ErrorDict(ParseFailedText);
    }
  }

  /** A present sender is the quoted text of the last header before `j` that has a `"`. */
  lemma {:induction false} SenderAfterIsLast(lines: seq<string>, j: nat) returns (h: nat)
    requires j <= |lines| && SenderAfter(lines, j).Some?
    ensures h < j && IsHeader(lines[h]) && SenderAfter(lines, j) == QuotedSender(lines[h])
    ensures forall x :: h < x < j ==> !(IsHeader(lines[x]) && '"' in lines[x])
  {
    if IsHeader(lines[j - 1]) && QuotedSender(lines[j - 1]).Some? {
      h := j - 1;
    } else {
      h := SenderAfterIsLast(lines, j - 1);
    }
  }

  /** A present message is the text of the last `Body:` line before `j`. */
  lemma {:induction false} MessageAfterIsLast(lines: seq<string>, j: nat) returns (b: nat)
    requires j <= |lines| && MessageAfter(lines, j).Some?
    ensures b < j && IsBody(lines[b]) && MessageAfter(lines, j) == Some(AfterLabel(lines[b]))
    ensures forall x :: b < x < j ==> !IsBody(lines[x])
  {
    if IsBody(lines[j - 1]) {
      b := j - 1;
    } else {
      b := MessageAfterIsLast(lines, j - 1);
    }
  }

  /**
   * A returned tuple pairs the text of the last `Body:` line with the
   * quoted text of the last quoted header, both non-empty, as they stand
   * at the first line where both are; the two lines may come in either
   * order, and later ones overwrite earlier ones.
   */
  lemma LegacyParsedFrom(lines: seq<string>) returns (k: nat, h: nat, b: nat)
    requires LegacyParseLines(lines).Some?
    ensures var reply := LegacyParseLines(lines).value;
      && k < |lines| && h <= k && b <= k
      && reply.message != "" && reply.sender != ""
      && IsHeader(lines[h]) && QuotedSender(lines[h]) == Some(reply.sender)
      && (forall x :: h < x <= k ==> !(IsHeader(lines[x]) && '"' in lines[x]))
      && IsBody(lines[b]) && AfterLabel(lines[b]) == reply.message
      && (forall x :: b < x <= k ==> !IsBody(lines[x]))
      && reply.group == GroupAfter(lines, k + 1)
      && (forall x :: 0 <= x < k ==> !Ready(lines, x))
  {
    k := FirstReady(lines).value;
    h := SenderAfterIsLast(lines, k + 1);
    b := MessageAfterIsLast(lines, k + 1);
  }

  /** The parse returns `None` exactly when no line leaves both sender and message non-empty. */
  lemma LegacyNotParsedWhenNeverReady(lines: seq<string>)
    ensures LegacyParseLines(lines).None? <==> forall x :: 0 <= x < |lines| ==> !Ready(lines, x)
  {
    var d := FirstReady(lines);
    if d.Some? {
      assert Ready(lines, d.value);
    }
  }

  /** `Body:` with nothing after it leaves the message falsy, so the parse cannot return on that line. */
  lemma BareBodyCannotTrigger(lines: seq<string>, k: nat)
    requires k < |lines| && IsBody(lines[k]) && AfterLabel(lines[k]) == ""
    ensures !Ready(lines, k)
  {
  }

  /** When no header holds a straight double quote, no sender is ever set, so the parse yields `None`. */
  lemma {:induction false} NoQuoteNoSender(lines: seq<string>, j: nat)
    requires j <= |lines|
    requires forall x :: 0 <= x < |lines| && IsHeader(lines[x]) ==> '"' !in lines[x]
    ensures SenderAfter(lines, j) == None
  {
    if j > 0 {
      NoQuoteNoSender(lines, j - 1);
    }
  }

  lemma NoQuoteNotParsed(lines: seq<string>)
    requires forall x :: 0 <= x < |lines| && IsHeader(lines[x]) ==> '"' !in lines[x]
    ensures LegacyParseLines(lines) == None
  {
    var d := FirstReady(lines);
    if d.Some? {
      NoQuoteNoSender(lines, d.value + 1);
    }
  }

  /** A header leaves group mode and the group name as they were: nothing is scoped to an envelope. */
  lemma HeaderKeepsGroup(lines: seq<string>, k: nat)
    requires k < |lines| && IsHeader(lines[k])
    ensures GroupInfoSeen(lines, k + 1) == GroupInfoSeen(lines, k)
    ensures GroupAfter(lines, k + 1) == GroupAfter(lines, k)
  {
    LabelsExclusive(lines[k]);
    assert lines[k] != GroupInfoLabel by {
      GroupInfoLineLabelled();
    }
  }

  /**
   * A body and a quoted header give the same tuple in either order: the
   * message is kept until a sender arrives.
   */
  lemma BodyAndHeaderEitherOrder(header: string, body: string)
    requires IsHeader(header) && Truthy(QuotedSender(header))
    requires IsBody(body) && AfterLabel(body) != ""
    ensures LegacyParseLines([header, body]) == Some(Reply(AfterLabel(body), QuotedSender(header).value, None))
    ensures LegacyParseLines([body, header]) == Some(Reply(AfterLabel(body), QuotedSender(header).value, None))
  {
    LabelsExclusive(header);
    LabelsExclusive(body);
    assert FirstTrue([false, true], 0) == Some(1);
    var hb := [header, body];
    assert SenderAfter(hb, 1) == QuotedSender(header);
    assert SenderAfter(hb, 2) == SenderAfter(hb, 1);
    assert MessageAfter(hb, 1) == None;
    assert MessageAfter(hb, 2) == Some(AfterLabel(body));
    assert GroupAfter(hb, 2) == GroupAfter(hb, 1) == None;
    assert Readiness(hb) == [false, true];
    var bh := [body, header];
    assert SenderAfter(bh, 1) == None;
    assert SenderAfter(bh, 2) == QuotedSender(header);
    assert MessageAfter(bh, 1) == Some(AfterLabel(body));
    assert MessageAfter(bh, 2) == MessageAfter(bh, 1);
    assert GroupAfter(bh, 2) == GroupAfter(bh, 1) == None;
    assert Readiness(bh) == [false, true];
  }

  // Lines after the one where the parse returns are never read.

  lemma {:induction false} SenderAfterPrefix(lines: seq<string>, more: seq<string>, j: nat)
    requires j <= |lines|
    ensures SenderAfter(lines + more, j) == SenderAfter(lines, j)
  {
    if j > 0 {
      assert (lines + more)[j - 1] == lines[j - 1];
      SenderAfterPrefix(lines, more, j - 1);
    }
  }

  lemma {:induction false} MessageAfterPrefix(lines: seq<string>, more: seq<string>, j: nat)
    requires j <= |lines|
    ensures MessageAfter(lines + more, j) == MessageAfter(lines, j)
  {
    if j > 0 {
      assert (lines + more)[j - 1] == lines[j - 1];
      MessageAfterPrefix(lines, more, j - 1);
    }
  }

  lemma {:induction false} GroupInfoSeenPrefix(lines: seq<string>, more: seq<string>, j: nat)
    requires j <= |lines|
    ensures GroupInfoSeen(lines + more, j) == GroupInfoSeen(lines, j)
  {
    if j > 0 {
      assert (lines + more)[j - 1] == lines[j - 1];
      GroupInfoSeenPrefix(lines, more, j - 1);
    }
  }

  lemma {:induction false} GroupAfterPrefix(lines: seq<string>, more: seq<string>, j: nat)
    requires j <= |lines|
    ensures GroupAfter(lines + more, j) == GroupAfter(lines, j)
  {
    if j > 0 {
      assert (lines + more)[j - 1] == lines[j - 1];
      GroupInfoSeenPrefix(lines, more, j - 1);
      GroupAfterPrefix(lines, more, j - 1);
    }
  }

  lemma ReadinessPrefix(lines: seq<string>, more: seq<string>)
    ensures Readiness(lines + more)[..|lines|] == Readiness(lines)
  {
    forall k | 0 <= k < |lines|
      ensures Ready(lines + more, k) == Ready(lines, k)
    {
      SenderAfterPrefix(lines, more, k + 1);
      MessageAfterPrefix(lines, more, k + 1);
    }
  }

  /** Once the parse can return, appending lines changes nothing. */
  lemma LegacyParseLinesIgnoresRest(lines: seq<string>, more: seq<string>)
    requires LegacyParseLines(lines).Some?
    ensures LegacyParseLines(lines + more) == LegacyParseLines(lines)
  {
    ReadinessPrefix(lines, more);
    FirstTrueExtend(Readiness(lines), Readiness(lines + more));
    var k := FirstReady(lines).value;
    SenderAfterPrefix(lines, more, k + 1);
    MessageAfterPrefix(lines, more, k + 1);
    GroupAfterPrefix(lines, more, k + 1);
  }

  /** Output after the line where the parse returns is never examined. */
  lemma LegacyParseCaptureIgnoresRest(s: string, t: string)
    requires LegacyParseCapture(s).Some?
    ensures LegacyParseCapture(s + "\n" + t) == LegacyParseCapture(s)
  {
    StrippedLinesAppend(s, t);
    LegacyParseLinesIgnoresRest(StrippedLines(s), StrippedLines(t));
  }
}
