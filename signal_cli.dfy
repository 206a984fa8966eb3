/**
 * What both versions of the server share: the configuration, the signal-cli
 * invocations (as argument lists), the outcome of running one, the labels of
 * the `receive` text format, and the group lookup and send tools, whose code
 * is the same in signal_mcp/main.py and in the older main.py.
 */
module SignalCli {
  import opened Optional
  import opened PyStr

  datatype Transport = Sse | Stdio

  /** Set once at start-up and passed to every tool instead of living in a global. */
  datatype SignalConfig = SignalConfig(userId: string, transport: Transport)

  /** One signal-cli invocation, as the arguments the server puts after the executable name. */
  datatype Command =
    | ListGroups(user: string)
    | Send(user: string, toGroup: bool, target: string, message: string)
    | Receive(user: string, timeoutSeconds: int)

  /**
   * What `_run_signal_cli` hands back: the decoded output and the exit status
   * (which may be absent), or the SignalCLIError it raises when the process
   * cannot be started or drained.
   */
  datatype RunOutcome =
    | Completed(stdout: string, stderr: string, returnCode: Option<int>)
    | LaunchFailed(cause: string)
  {
    predicate ExitedZero() {
      Completed? && returnCode == Some(0)
    }
  }

  /** The text of the SignalCLIError raised on a launch failure. */
  function LaunchError(cause: string): string {
    "Failed to run signal-cli: " + cause
  }

  /** The `{"message": …}` / `{"error": …}` dictionaries the send tools return. */
  datatype ToolReply = MessageReply(message: string) | ErrorReply(error: string)

  const SentText := "Message sent successfully"
  const SendFailedText := "Failed to send message"
  const GroupMissingPrefix := "Could not find group: "
  const ReceiveFailedPrefix := "Failed to receive message: "
  const ParseFailedText := "Failed to parse message output"

  // Labels of the `signal-cli receive` text format; lines are matched by prefix.
  const EnvelopeLabel := "Envelope from:"
  const BodyLabel := "Body:"
  const GroupInfoLabel := "Group info:"
  const NameLabel := "Name:"

  predicate IsHeader(line: string) { StartsWith(line, EnvelopeLabel) }
  predicate IsBody(line: string) { StartsWith(line, BodyLabel) }
  predicate IsGroupInfo(line: string) { StartsWith(line, GroupInfoLabel) }
  predicate IsName(line: string) { StartsWith(line, NameLabel) }

  /** `line[5:].strip()`: the text after a `Body:` or `Name:` label. */
  function AfterLabel(line: string): string {
    if |line| >= 5 then Strip(line[5..]) else ""
  }

  /** A line carries at most one of the four labels, so the order in which they are tested does not matter. */
  lemma LabelsExclusive(line: string)
    ensures IsHeader(line) ==> !IsBody(line) && !IsGroupInfo(line) && !IsName(line)
    ensures IsBody(line) ==> !IsGroupInfo(line) && !IsName(line)
    ensures IsGroupInfo(line) ==> !IsName(line)
  {
    if line != [] {
      assert IsHeader(line) ==> line[0] == EnvelopeLabel[0];
      assert IsBody(line) ==> line[0] == BodyLabel[0];
      assert IsGroupInfo(line) ==> line[0] == GroupInfoLabel[0];
      assert IsName(line) ==> line[0] == NameLabel[0];
    }
  }

  /** The lines of the capture as both parsers see them: split on newlines, then: stripped. */
  function StrippedLines(stdout: string): (ls: seq<string>)
    ensures |ls| == |Split(stdout, '\n')|
    ensures forall k :: 0 <= k < |ls| ==> ls[k] == Strip(Split(stdout, '\n')[k])
  {
    var lines := Split(stdout, '\n');
    seq(|lines|, k requires 0 <= k < |lines| => Strip(lines[k]))
  }

  /** No line the parsers read holds a newline or starts or ends with whitespace. */
  lemma StrippedLinesShape(stdout: string)
    ensures forall k :: 0 <= k < |StrippedLines(stdout)| ==>
      var line := StrippedLines(stdout)[k];
      '\n' !in line && (line == [] || (!IsSpace(line[0]) && !IsSpace(line[|line| - 1])))
  {
    var ls, parts := StrippedLines(stdout), Split(stdout, '\n');
    forall k | 0 <= k < |ls|
      ensures '\n' !in ls[k] && (ls[k] == [] || (!IsSpace(ls[k][0]) && !IsSpace(ls[k][|ls[k]| - 1])))
    {
      StripShape(parts[k]);
      StripKeepsAbsent(parts[k], '\n');
    }
  }

  /** Text joined at a newline has the lines of each side. */
  lemma StrippedLinesAppend(s: string, t: string)
    ensures StrippedLines(s + "\n" + t) == StrippedLines(s) + StrippedLines(t)
  {
    SplitAtSeparator(s, t, '\n');
  }

  /** A `listGroups` line that names the requested group: it holds `"Name: "` and the request. */
  predicate NamesGroup(line: string, groupName: string) {
    Contains(line, "Name: ") && Contains(line, groupName)
  }

  /** Some line of the `listGroups` output names the requested group. */
  predicate Listed(stdout: string, groupName: string) {
    var lines := Split(stdout, '\n');
    exists k :: 0 <= k < |lines| && NamesGroup(lines[k], groupName)
  }

  /** What `_get_group_id` produces: the group to send to, `None`, or the error it lets escape. */
  datatype Lookup = Found(name: string) | NotFound | Failed(error: string)

  /**
   * `_get_group_id`: scan the `listGroups` output for the first line that
   * names the group. The request itself is returned, not the listed name.
   */
  method GetGroupId(listing: RunOutcome, groupName: string) returns (r: Lookup)
    ensures r.Failed? <==> listing.LaunchFailed?
    ensures listing.LaunchFailed? ==> r.error == LaunchError(listing.cause)
    ensures r.Found? <==> listing.ExitedZero() && Listed(listing.stdout, groupName)
    ensures r.Found? ==> r.name == groupName
  {
    if listing.LaunchFailed? {
      return Failed(LaunchError(listing.cause));
    }
    if listing.returnCode != Some(0) {
      return NotFound;
    }
    var lines := Split(listing.stdout, '\n');
    for k := 0 to |lines|
      invariant forall m :: 0 <= m < k ==> !NamesGroup(lines[m], groupName)
    {
      if NamesGroup(lines[k], groupName) {
        return Found(groupName);
      }
    }
    return NotFound;
  }

  /**
   * `_send_message`: one `send` invocation, with `-g` for a group; it reports
   * success exactly when signal-cli exits with status 0, and a launch failure
   * is swallowed as a plain failure.
   */
  method SendMessage(config: SignalConfig, message: string, target: string, isGroup: bool, run: RunOutcome)
    returns (ok: bool, issued: Command)
    ensures ok <==> run.ExitedZero()
    ensures issued == Send(config.userId, isGroup, target, message)
  {
    issued := Send(config.userId, isGroup, target, message);
    match run
    case LaunchFailed(_) =>
      ok := false;
    case Completed(_, _, returnCode) =>
      ok := returnCode == Some(0);
  }

  /** The `send_message_to_user` tool: one send, and a fixed error text whatever went wrong. */
  method SendMessageToUser(config: SignalConfig, message: string, userId: string, run: RunOutcome)
    returns (reply: ToolReply, issued: seq<Command>)
    ensures issued == [Send(config.userId, false, userId, message)]
    ensures reply == MessageReply(SentText) <==> run.ExitedZero()
    ensures !run.ExitedZero() ==> reply == ErrorReply(SendFailedText)
  {
    var ok, command := SendMessage(config, message, userId, false, run);
    issued := [command];
    if ok {
      reply := MessageReply(SentText);
    } else {
      reply := ErrorReply(SendFailedText);
    }
  }

  /**
   * The `send_message_to_group` tool: look the group up, then send to the
   * requested name with `-g`. `listing` and `sending` are what signal-cli
   * does for the lookup and for the send; the send happens only when the
   * lookup finds a non-empty name.
   */
  method SendMessageToGroup(config: SignalConfig, message: string, groupId: string,
                            listing: RunOutcome, sending: RunOutcome)
    returns (reply: ToolReply, issued: seq<Command>)
    ensures 1 <= |issued| <= 2 && issued[0] == ListGroups(config.userId)
    ensures |issued| == 2 <==> listing.ExitedZero() && groupId != "" && Listed(listing.stdout, groupId)
    ensures |issued| == 2 ==> issued[1] == Send(config.userId, true, groupId, message)
    ensures reply == MessageReply(SentText) <==> |issued| == 2 && sending.ExitedZero()
    ensures |issued| == 2 && !sending.ExitedZero() ==> reply == ErrorReply(SendFailedText)
    ensures listing.LaunchFailed? ==> reply == ErrorReply(LaunchError(listing.cause))
    ensures listing.Completed? && |issued| == 1 ==> reply == ErrorReply(GroupMissingPrefix + groupId)
  {
    issued := [ListGroups(config.userId)];
    var found := GetGroupId(listing, groupId);
    match found
    case Failed(e) =>
      reply := ErrorReply(e);
    case NotFound =>
      reply := ErrorReply(GroupMissingPrefix + groupId);
    case Found(name) =>
      if name == "" {
        reply := ErrorReply(GroupMissingPrefix + groupId);
      } else {
        var ok, command := SendMessage(config, message, name, true, sending);
        issued := issued + [command];
        if ok {
          reply := MessageReply(SentText);
        } else {
          reply := ErrorReply(SendFailedText);
        }
      }
  }

}
