/** The second prototype of the host side of the serial link (PICOLINKV2.cpp).
    It has no protocol flag: the listener appends what it reads to the global
    `serialMessages` buffer and then logs and clears the whole buffer every
    cycle, and the token wait consumes through the end of the line that holds
    the token. The buffer, the listener's connection state, the log and the
    serial output are the fields of one `Coordinator`. */
module PicoLinkV2 {
  import opened Bytes
  import opened Protocol

  // Protocol tokens: bare words, without their line ending.
  const AckToken: string := "ACK"
  const ReadyToken: string := "READY"
  const UploadOkToken: string := "UPLOAD_OK"

  /** The only port the listener looks for. */
  const PortToFind: string := "COM4"

  // Fixed parts of the log lines.
  const RawPrefix: string := "[PICO RAW] "
  const CanceledText: string := "Upload canceled."
  const OpenFailedText: string := "ERROR: Failed to open file."
  const SentCommandText: string := "Sent upload command for "
  const NoReadyText: string := "ERROR: Pico did not respond with READY"
  const ReadyText: string := "Pico READY received, sending file with ACK flow control..."
  const NoAckText: string := "ERROR: Pico did not acknowledge block #"
  const AckAbortText: string := "Upload aborted due to missing ACK."
  const NoUploadOkText: string := "ERROR: Pico did not confirm UPLOAD_OK"
  const UploadedText: string := "SUCCESS: File transfer complete. Total bytes sent: "
  const TimeoutSuffixText: string := " (Timeout). Current buffer: "
  const DisconnectedText: string := "Pico disconnected on COM4"
  const ConnectedText: string := "Pico connected on COM4"

  // ---------------------------------------------------------------------------
  // Flush

  /** What the flush logs for a buffer: the whole buffer as one raw line, or
      nothing when the buffer is empty. */
  function RawLog(b: string): (r: seq<string>)
    ensures r == [] <==> b == []
    ensures r != [] ==> |r| == 1 && |r[0]| == |RawPrefix| + |b| && r[0][..|RawPrefix|] == RawPrefix && r[0][|RawPrefix|..] == b
  {
    if b == [] then [] else [RawPrefix + b]
  }

  // ---------------------------------------------------------------------------
  // Token wait

  /** How many bytes one successful poll erases: through the first '\n' at or
      after the first occurrence of `token` (`find_first_of('\n', pos)`), or
      through the token itself when no newline follows it; None when the
      token does not occur. */
  function Consumed(b: string, token: string): (r: Option<nat>)
    ensures r.None? <==> !Occurs(b, token)
    ensures r.Some? ==> r.value <= |b|
  {
    match IndexOf(b, token, 0)
    case None => None
    case Some(p) =>
      match IndexOf(b, "\n", p)
      case Some(e) => Some(e + 1)
      case None => Some(p + |token|)
  }

  /** From the start of the first occurrence of the token, a successful poll
      erases through the first newline when there is one, through the token
      otherwise. */
  lemma ConsumedThroughLine(b: string, token: string)
    requires Occurs(b, token)
    ensures var p := IndexOf(b, token, 0).value;
      var c := Consumed(b, token).value;
      && ('\n' in b[p..] ==> p < c && b[c - 1] == '\n' && '\n' !in b[p..c - 1])
      && ('\n' !in b[p..] ==> c == p + |token|)
  {
    var p := IndexOf(b, token, 0).value;
    IndexOfCharIsFirst(b, "\n", p);
  }

  /** For a token without a newline, what is erased always covers the whole
      first occurrence of the token. */
  lemma ConsumedCoversToken(b: string, token: string)
    requires Occurs(b, token) && '\n' !in token
    ensures IndexOf(b, token, 0).value + |token| <= Consumed(b, token).value
  {
    var p := IndexOf(b, token, 0).value;
    ConsumedThroughLine(b, token);
    if '\n' in b[p..] {
      var c := Consumed(b, token).value;
      assert b[p..p + |token|] == token;
      forall k | p <= k < p + |token| ensures b[k] != '\n' {
        assert b[k] == token[k - p];
      }
      assert p <= c - 1 && b[c - 1] == '\n';
    }
  }

  /** A READY line is erased with its line ending and the garbage before it. */
  lemma ReadyLineConsumed()
    ensures var b := "junk READY\r\nmore";
      Consumed(b, ReadyToken).Some? && b[Consumed(b, ReadyToken).value..] == "more"
  {
    var b := "junk READY\r\nmore";
    assert OccursAt(b, ReadyToken, 5);
    forall j | 0 <= j < 5 ensures !OccursAt(b, ReadyToken, j) {
      assert b[j..j + 5][0] == b[j] != 'R';
    }
    IndexOfFirstOccurrence(b, ReadyToken, 0, 5);
    assert b[11] == '\n';
    OccursAtChar(b, "\n", 11);
    forall j | 5 <= j < 11 ensures !OccursAt(b, "\n", j) {
      OccursAtChar(b, "\n", j);
    }
    IndexOfFirstOccurrence(b, "\n", 5, 11);
  }

  /** Without a newline after it only the token and what precedes it go. */
  lemma BareTokenConsumed()
    ensures var b := "xACK";
      Consumed(b, AckToken) == Some(4) && b[4..] == []
  {
    var b := "xACK";
    assert OccursAt(b, AckToken, 1);
    assert !OccursAt(b, AckToken, 0) by {
      assert b[0..3][0] == 'x';
    }
    IndexOfFirstOccurrence(b, AckToken, 0, 1);
    IndexOfCharIsFirst(b, "\n", 1);
  }

  /** WaitForPicoResponse over a poll script: the buffer is checked; while
      the token is missing and the script is not used up, the listener
      appends the script's next chunk and the buffer is checked again; once
      the script is used up, the wait times out. */
  function Await(b: string, token: string, polls: seq<string>): WaitResult
    decreases |polls|
  {
    match Consumed(b, token)
    case Some(c) => WaitResult(true, b[c..])
    case None => if polls == [] then WaitResult(false, b) else Await(b + polls[0], token, polls[1..])
  }

  /** A wait succeeds exactly when the token is somewhere in the buffer and
      what arrives during the wait; a wait that times out consumes nothing. */
  lemma {:induction false} AwaitFindsIff(b: string, token: string, polls: seq<string>)
    ensures Await(b, token, polls).found <==> Occurs(b + Concat(polls), token)
    ensures !Await(b, token, polls).found ==> Await(b, token, polls).rest == b + Concat(polls)
    decreases |polls|
  {
    if Consumed(b, token).Some? {
      var j :| OccursAt(b, token, j);
      OccursExtend(b, token, Concat(polls), j);
    } else if polls == [] {
      assert b + Concat(polls) == b;
    } else {
      var fed := b + polls[0];
      assert b + Concat(polls) == fed + Concat(polls[1..]);
      AwaitFindsIff(fed, token, polls[1..]);
    }
  }

  /** A check that misses the token lets the next chunk of the script arrive. */
  lemma AwaitPoll(b: string, token: string, polls: seq<string>, i: nat)
    requires i < |polls| && Consumed(b, token).None?
    ensures Await(b, token, polls[i..]) == Await(b + polls[i], token, polls[i + 1..])
  {
    assert polls[i..][0] == polls[i] && polls[i..][1..] == polls[i + 1..];
  }

  /** A wait ends at the first check whose buffer holds the token, after `k`
      chunks arrived, and leaves what follows the part that poll erases. */
  lemma {:induction false} AwaitStopsAtFirstHit(b: string, token: string, polls: seq<string>, k: nat)
    requires k <= |polls| && Occurs(b + Concat(polls[..k]), token)
    requires forall j :: 0 <= j < k ==> !Occurs(b + Concat(polls[..j]), token)
    ensures var fed := b + Concat(polls[..k]);
      Await(b, token, polls) == WaitResult(true, fed[Consumed(fed, token).value..])
    decreases k
  {
    assert b + Concat(polls[..0]) == b;
    if k > 0 {
      var fed := b + polls[0];
      forall j | 0 <= j < k ensures fed + Concat(polls[1..][..j]) == b + Concat(polls[..j + 1]) {
        ConcatPrefixStep(polls, j);
      }
      AwaitStopsAtFirstHit(fed, token, polls[1..], k - 1);
    }
  }

  /** A token line ending in CRLF is consumed whole. */
  lemma LineConsumed(token: string)
    requires token != [] && '\n' !in token
    ensures Consumed(token + "\r\n", token) == Some(|token| + 2)
  {
    var s := token + "\r\n";
    assert s[..|token|] == token;
    assert OccursAt(s, token, 0);
    IndexOfFirstOccurrence(s, token, 0, 0);
    OccursAtChar(s, "\n", |token| + 1);
    forall j | 0 <= j < |token| + 1 ensures !OccursAt(s, "\n", j) {
      OccursAtChar(s, "\n", j);
      if j < |token| {
        assert s[j] == token[j];
      }
    }
    IndexOfFirstOccurrence(s, "\n", 0, |token| + 1);
  }

  /** A lone token line that arrives during a wait on an empty buffer is
      found and erased with its line ending, leaving nothing behind. */
  lemma AwaitLoneLine(token: string)
    requires token != [] && '\n' !in token
    ensures Await([], token, [token + "\r\n"]) == WaitResult(true, [])
  {
    assert [] + (token + "\r\n") == token + "\r\n";
    LineConsumed(token);
  }

  // ---------------------------------------------------------------------------
  // Upload effect
  //
  // The block loop and the upload have the same shape as in PicoLinkV1 on
  // purpose: both hosts run the same loop. What differs is the wait each
  // round makes, which here is this module's Await on the bare tokens,
  // consuming through the end of the line.

  /** The block loop of UploadFile from `sent` bytes on, with `b` buffered
      and `j` the index of the next token wait: a block, then an ACK wait
      while bytes remain, stopping at the first ACK that does not come. */
  function SendFrom(content: string, sent: nat, b: string, device: seq<seq<string>>, j: nat): (r: BlockRun)
    requires sent <= |content|
    ensures sent <= r.sent <= |content| && j <= r.next
    ensures r.acked <==> r.sent == |content|
    decreases |content| - sent
  {
    if sent == |content| then BlockRun(true, sent, b, j)
    else
      var after := sent + Min(BlockSize, |content| - sent);
      if after == |content| then BlockRun(true, after, b, j)
      else
        var w := Await(b, AckToken, Script(device, j));
        if w.found then SendFrom(content, after, w.rest, device, j + 1)
        else BlockRun(false, after, w.rest, j + 1)
  }

  /** The block loop after some rounds lies on `run`, the run from the
      start of the file: a running loop goes on to it, a stopped one is its end. */
  ghost predicate OnRun(content: string, sent: nat, b: string, device: seq<seq<string>>, j: nat, running: bool, run: BlockRun)
    requires sent <= |content|
  {
    if running then SendFrom(content, sent, b, device, j) == run else BlockRun(false, sent, b, j) == run
  }

  /** One round of the block loop keeps it on its run. */
  lemma RunRound(content: string, sent: nat, b: string, device: seq<seq<string>>, j: nat, run: BlockRun,
                 acked: bool, after: nat, b': string)
    requires sent < |content| && OnRun(content, sent, b, device, j, true, run)
    requires after == sent + Min(BlockSize, |content| - sent)
    requires after < |content| ==>
      acked == Await(b, AckToken, Script(device, j)).found && b' == Await(b, AckToken, Script(device, j)).rest
    requires after == |content| ==> acked && b' == b
    ensures OnRun(content, after, b', device, if after < |content| then j + 1 else j, acked, run)
  {
  }

  /** What UploadFile does on the link once a file was chosen: the READY
      wait on the buffer cleared after the header, the block loop on what
      that wait left, then the UPLOAD_OK wait on what the loop left. */
  function ExpectedUpload(content: string, device: seq<seq<string>>): (e: UploadEffect)
    ensures e.outcome in {NoReady, NoAck, NoUploadOk, Uploaded} && e.sent <= |content|
    ensures e.outcome == NoReady ==> e.sent == 0
    ensures e.outcome == NoAck ==> e.sent < |content|
    ensures e.outcome in {NoUploadOk, Uploaded} ==> e.sent == |content|
  {
    var ready := Await([], ReadyToken, Script(device, 0));
    if !ready.found then UploadEffect(NoReady, 0, ready.rest)
    else
      var run := SendFrom(content, 0, ready.rest, device, 1);
      if !run.acked then UploadEffect(NoAck, run.sent, run.rest)
      else
        var done := Await(run.rest, UploadOkToken, Script(device, run.next));
        UploadEffect(if done.found then Uploaded else NoUploadOk, run.sent, done.rest)
  }

  /** The device answers the `count` token waits from index `from` on with
      one ACK line each. */
  predicate AcksAt(device: seq<seq<string>>, from: nat, count: nat)
  {
    from + count <= |device| && forall k :: from <= k < from + count ==> device[k] == [AckToken + "\r\n"]
  }

  /** A device that answers each ACK wait of the loop with one ACK line gets
      every block, and the loop leaves nothing buffered. */
  lemma {:induction false} AnsweredAcksSendAll(content: string, sent: nat, device: seq<seq<string>>, j: nat)
    requires sent <= |content| && AcksAt(device, j, AckWaits(|content| - sent))
    ensures SendFrom(content, sent, [], device, j) == BlockRun(true, |content|, [], j + AckWaits(|content| - sent))
    decreases |content| - sent
  {
    if sent < |content| && BlockSize < |content| - sent {
      assert AckWaits(|content| - sent) == 1 + AckWaits(|content| - (sent + BlockSize));
      AckedRound(content, sent, device, j);
      AnsweredAcksSendAll(content, sent + BlockSize, device, j + 1);
    }
  }

  /** A full block whose ACK wait gets a lone ACK line on an empty buffer. */
  lemma AckedRound(content: string, sent: nat, device: seq<seq<string>>, j: nat)
    requires BlockSize < |content| - sent && j < |device| && device[j] == [AckToken + "\r\n"]
    ensures SendFrom(content, sent, [], device, j) == SendFrom(content, sent + BlockSize, [], device, j + 1)
  {
    LoneReply(device, j, AckToken);
  }

  /** A wait whose script is the lone token line finds it on an empty buffer. */
  lemma LoneReply(device: seq<seq<string>>, j: nat, token: string)
    requires token != [] && '\n' !in token
    requires j < |device| && device[j] == [token + "\r\n"]
    ensures Await([], token, Script(device, j)) == WaitResult(true, [])
  {
    AwaitLoneLine(token);
  }

  /** A device that sends a READY line, one ACK line per ACK wait and an
      UPLOAD_OK line, each as the only chunk of its wait, completes the
      upload of any file and leaves the buffer empty. */
  lemma CooperativeDeviceUploads(content: string, device: seq<seq<string>>)
    requires |device| == AckWaits(|content|) + 2 && AcksAt(device, 1, AckWaits(|content|))
    requires device[0] == [ReadyToken + "\r\n"] && device[|device| - 1] == [UploadOkToken + "\r\n"]
    ensures ExpectedUpload(content, device) == UploadEffect(Uploaded, |content|, [])
  {
    AllAcksSendAll(content, device);
    UploadOfRun(content, device, |device| - 1);
  }

  /** The block loop of such a device, from the start of the file. */
  lemma AllAcksSendAll(content: string, device: seq<seq<string>>)
    requires |device| == AckWaits(|content|) + 2 && AcksAt(device, 1, AckWaits(|content|))
    ensures SendFrom(content, 0, [], device, 1) == BlockRun(true, |content|, [], |device| - 1)
  {
    AnsweredAcksSendAll(content, 0, device, 1);
  }

  /** The upload succeeds with an empty buffer when READY arrives alone,
      every ACK comes and UPLOAD_OK arrives alone in the `m`-th wait. */
  lemma UploadOfRun(content: string, device: seq<seq<string>>, m: nat)
    requires 0 < m < |device| && device[0] == [ReadyToken + "\r\n"] && device[m] == [UploadOkToken + "\r\n"]
    requires SendFrom(content, 0, [], device, 1) == BlockRun(true, |content|, [], m)
    ensures ExpectedUpload(content, device) == UploadEffect(Uploaded, |content|, [])
  {
    assert Await([], ReadyToken, Script(device, 0)) == WaitResult(true, []) by {
      LoneReply(device, 0, ReadyToken);
    }
    assert Await([], UploadOkToken, Script(device, m)) == WaitResult(true, []) by {
      LoneReply(device, m, UploadOkToken);
    }
  }

  /** A chunk holding the READY line and then the ACK line answers the READY
      wait and leaves the ACK line buffered. */
  lemma ReadyThenAck()
    ensures Await([], ReadyToken, [ReadyToken + "\r\n" + (AckToken + "\r\n")]) == WaitResult(true, AckToken + "\r\n")
  {
    var chunk := ReadyToken + "\r\n" + (AckToken + "\r\n");
    assert [] + chunk == chunk;
    assert OccursAt(chunk, ReadyToken, 0);
    IndexOfFirstOccurrence(chunk, ReadyToken, 0, 0);
    OccursAtChar(chunk, "\n", 6);
    forall j | 0 <= j < 6 ensures !OccursAt(chunk, "\n", j) {
      OccursAtChar(chunk, "\n", j);
    }
    IndexOfFirstOccurrence(chunk, "\n", 0, 6);
    assert chunk[7..] == AckToken + "\r\n";
  }

  /** An ACK line that arrives in the same chunk as the READY line stays
      buffered and answers the first block's wait: a file of two blocks is
      then sent whole, and only the UPLOAD_OK wait times out. */
  lemma BufferedAckAnswers(content: string)
    requires BlockSize < |content| <= 2 * BlockSize
    ensures ExpectedUpload(content, [[ReadyToken + "\r\n" + (AckToken + "\r\n")]]) == UploadEffect(NoUploadOk, |content|, [])
  {
    var ack := AckToken + "\r\n";
    var device := [[ReadyToken + "\r\n" + ack]];
    ReadyThenAck();
    assert Await(ack, AckToken, Script(device, 1)) == WaitResult(true, []) by {
      LineConsumed(AckToken);
      assert ack[|ack|..] == [];
    }
    assert SendFrom(content, 0, ack, device, 1) == BlockRun(true, |content|, [], 2);
    assert Await([], UploadOkToken, Script(device, 2)) == WaitResult(false, []);
  }

  // ---------------------------------------------------------------------------
  // Connection transitions

  /** The listener's connection state after one cycle and the transition
      lines it logs. */
  datatype Transition = Transition(connected: bool, lines: seq<string>)

  /** One cycle of the listener's connection logic: `probed` is whether the
      open port passed the liveness check, `opens` whether reopening it would
      succeed. */
  function Transit(wasConnected: bool, probed: bool, opens: bool): (t: Transition)
    ensures t.connected <==> probed || opens
  {
    var now := probed || opens;
    Transition(now,
      (if !probed && wasConnected then [DisconnectedText] else [])
      + (if now && !wasConnected then [ConnectedText] else []))
  }

  /** "connected" is logged exactly when the listener goes from disconnected
      to connected, "disconnected" exactly when a connected port fails its
      liveness check, and nothing else is logged. */
  lemma TransitionLogsOnChange(wasConnected: bool, probed: bool, opens: bool)
    ensures var t := Transit(wasConnected, probed, opens);
      && (ConnectedText in t.lines <==> !wasConnected && t.connected)
      && (DisconnectedText in t.lines <==> wasConnected && !probed)
      && forall line :: line in t.lines ==> line == ConnectedText || line == DisconnectedText
  {
    var t := Transit(wasConnected, probed, opens);
    assert ConnectedText != DisconnectedText by {
      assert ConnectedText[5] != DisconnectedText[5];
    }
    assert |t.lines| <= 1;
  }

  /** A connection that stays up, and a port that stays closed, log nothing. */
  lemma SteadyStatesLogNothing(opens: bool)
    ensures Transit(true, true, opens) == Transition(true, [])
    ensures Transit(false, false, false) == Transition(false, [])
  {
  }

  /** A connected port that fails its check and is reopened in the same cycle
      logs "disconnected" only: the state stays connected, so the reconnection
      itself is never reported. */
  lemma ReconnectWithinCycle()
    ensures Transit(true, false, true) == Transition(true, [DisconnectedText])
  {
  }

  // ---------------------------------------------------------------------------
  // The coordinator

  /** The shared receive buffer and the listener's connection state, with the
      log and the serial output as traces. */
  class Coordinator {
    var buf: string          // serialMessages
    var log: seq<string>     // messages passed to Log, without their timestamps
    var wire: string         // bytes passed to SendData
    var portOpen: bool       // hSerial is a valid handle
    var wasConnected: bool   // the listener's wasConnected

    constructor ()
      ensures buf == [] && log == [] && wire == [] && !portOpen && !wasConnected
    {
      buf, log, wire, portOpen, wasConnected := [], [], [], false, false;
    }

    /** FlushSerialMessagesToLog: log a non-empty buffer as one raw line and
        clear it; an empty buffer logs nothing. */
    method FlushSerialMessagesToLog()
      modifies this`buf, this`log
      ensures buf == []
      ensures log == old(log) + RawLog(old(buf))
    {
      if buf != [] {
        log := log + [RawPrefix + buf];
        buf := [];
      }
    }

    /** One poll of WaitForPicoResponse: when the token is in the buffer,
        erase through the end of its line. */
    method PollForToken(token: string) returns (found: bool)
      modifies this`buf
      ensures found == Consumed(old(buf), token).Some?
      ensures buf == if found then old(buf)[Consumed(old(buf), token).value..] else old(buf)
    {
      var b := buf;
      var pos := IndexOf(b, token, 0);
      found := pos.Some?;
      if found {
        var endOfLine := IndexOf(b, "\n", pos.value);
        if endOfLine.Some? {
          buf := b[endOfLine.value + 1..];
        } else {
          buf := b[pos.value + |token|..];
        }
      }
    }

    /** WaitForPicoResponse: check the buffer; while the token is missing
        and the script has chunks left, let the listener append the next
        one and check again; log the buffer on timeout. */
    method WaitForPicoResponse(token: string, errorMsg: string, polls: seq<string>) returns (ok: bool)
      modifies this`buf, this`log
      ensures ok == Await(old(buf), token, polls).found
      ensures buf == Await(old(buf), token, polls).rest
      ensures log == old(log) + (if ok then [] else [errorMsg + TimeoutSuffixText + buf])
    {
      var i := 0;
      while true
        invariant i <= |polls|
        invariant Await(buf, token, polls[i..]) == Await(old(buf), token, polls)
        invariant log == old(log)
        decreases |polls| - i
      {
        ok := PollForToken(token);
        if ok {
          return;
        }
        if i == |polls| {
          log := log + [errorMsg + TimeoutSuffixText + buf];
          return;
        }
        AwaitPoll(buf, token, polls, i);
        buf := buf + polls[i];
        i := i + 1;
      }
    }

    /** UploadFile: file choice, then header, READY, blocks and UPLOAD_OK. */
    method UploadFile(choice: FileChoice, device: seq<seq<string>>) returns (report: UploadReport)
      modifies this`buf, this`log, this`wire
      ensures UploadReportFits(choice, report)
      ensures wire == old(wire) + if choice.Chosen?
        then UploadHeader(choice.name, |choice.content|) + choice.content[..report.sent] else []
      ensures choice.Chosen? ==> (report.outcome == NoReady <==> !Await([], ReadyToken, Script(device, 0)).found)
      ensures choice.Chosen? ==> var e := ExpectedUpload(choice.content, device);
        report.outcome == e.outcome && report.sent == e.sent && buf == e.rest
      ensures !choice.Chosen? ==> buf == old(buf) && log == old(log) + [if choice.Canceled? then CanceledText else OpenFailedText]
    {
      if choice.Canceled? {
        log := log + [CanceledText];
        return UploadReport(UploadCanceled, [], 0);
      }
      if choice.Unreadable? {
        log := log + [OpenFailedText];
        return UploadReport(OpenFailed, [], 0);
      }
      report := UploadChosen(choice.name, choice.content, device);
    }

    /** UploadFile once a file was chosen and opened. The buffer is cleared
        after the header went out, so the READY wait sees only what arrives
        afterwards; a missing READY ends the upload without a further line. */
    method UploadChosen(name: string, content: string, device: seq<seq<string>>) returns (report: UploadReport)
      modifies this`buf, this`log, this`wire
      ensures UploadReportFits(Chosen(name, content), report)
      ensures wire == old(wire) + UploadHeader(name, |content|) + content[..report.sent]
      ensures report.outcome == NoReady <==> !Await([], ReadyToken, Script(device, 0)).found
      ensures var e := ExpectedUpload(content, device);
        report.outcome == e.outcome && report.sent == e.sent && buf == e.rest
    {
      var size := |content|;
      wire := wire + UploadHeader(name, size);
      buf := [];
      log := log + [SentCommandText + name];
      var head := [SendHeader(name, size), AwaitReady];
      var ready := WaitForPicoResponse(ReadyToken, NoReadyText, Script(device, 0));
      if !ready {
        report := UploadReport(NoReady, head, 0);
        assert head + [] == head && content[..0] == [];
        ChosenReportFits(name, content, report, []);
        return;
      }
      log := log + [ReadyText];
      var blocks, sent, waits := SendBlocks(content, device);
      if sent < size {
        log := log + [AckAbortText];
        report := UploadReport(NoAck, head + blocks, sent);
        ChosenReportFits(name, content, report, blocks);
        return;
      }
      var confirmed := WaitForPicoResponse(UploadOkToken, NoUploadOkText, Script(device, waits));
      if confirmed {
        log := log + [UploadedText + Decimal(sent)];
      }
      report := UploadReport(if confirmed then Uploaded else NoUploadOk, UploadSchedule(name, size), sent);
      ChosenReportFits(name, content, report, blocks);
    }

    /** The block loop of UploadFile: blocks of up to 512 bytes, an ACK wait
        after every block but the last, stopping at the first ACK that does
        not come. `waits` is the index of the next token wait of the upload. */
    method SendBlocks(content: string, device: seq<seq<string>>) returns (blocks: seq<Event>, sent: nat, waits: nat)
      modifies this`buf, this`log, this`wire
      ensures waits >= 1 && OnSchedule(blocks, |content|, sent)
      ensures wire == old(wire) + content[..sent]
      ensures sent < |content| ==> blocks != [] && blocks[|blocks| - 1] == AwaitAck
      ensures var run := SendFrom(content, 0, old(buf), device, 1);
        sent == run.sent && buf == run.rest && waits == run.next
    {
      var size := |content|;
      sent := 0;
      var success := true;
      var blockCounter := 0;
      waits := 1;
      blocks := [];
      ghost var run := SendFrom(content, 0, buf, device, 1);
      while sent < size && success
        invariant waits >= 1 && OnSchedule(blocks, size, sent)
        invariant wire == old(wire) + content[..sent]
        invariant !success ==> sent < size && blocks != [] && blocks[|blocks| - 1] == AwaitAck
        invariant sent <= size && OnRun(content, sent, buf, device, waits, success, run)
        decreases size - sent
      {
        blockCounter := blockCounter + 1;
        var before := sent;
        ghost var b, j := buf, waits;
        success, blocks, sent := SendNextBlock(content, sent, blocks, blockCounter, Script(device, waits));
        assert old(wire) + content[..before] + content[before..sent] == old(wire) + (content[..before] + content[before..sent]);
        if sent < size {
          waits := waits + 1;
        }
        RunRound(content, before, b, device, j, run, success, sent, buf);
      }
    }

    /** One round of the block loop: send the next block of up to 512 bytes
        and, when bytes remain after it, wait for its ACK. `blocks` are the
        actions of the rounds before, `next` those including this one. */
    method SendNextBlock(content: string, sent: nat, blocks: seq<Event>, blockCounter: nat, polls: seq<string>)
      returns (acked: bool, next: seq<Event>, sentAfter: nat)
      requires sent < |content| && OnSchedule(blocks, |content|, sent)
      modifies this`buf, this`log, this`wire
      ensures sentAfter == sent + Min(BlockSize, |content| - sent) && OnSchedule(next, |content|, sentAfter)
      ensures wire == old(wire) + content[sent..sentAfter]
      ensures content[..sent] + content[sent..sentAfter] == content[..sentAfter]
      ensures sentAfter < |content| ==> |next| > 0 && next[|next| - 1] == AwaitAck
      ensures sentAfter < |content| ==> var w := Await(old(buf), AckToken, polls);
        acked == w.found && buf == w.rest
        && log == old(log) + (if acked then [] else [NoAckText + Decimal(blockCounter) + TimeoutSuffixText + buf])
      ensures sentAfter == |content| ==> acked && buf == old(buf) && log == old(log)
    {
      var n := Min(BlockSize, |content| - sent);
      BlockRound(content, sent, blocks);
      wire := wire + content[sent..sent + n];
      next := blocks + RoundEvents(|content| - sent);
      sentAfter := sent + n;
      acked := true;
      if sentAfter < |content| {
        acked := WaitForPicoResponse(AckToken, NoAckText + Decimal(blockCounter), polls);
      }
    }

    /** `serialMessages.append(buffer, bytesRead)`: the bytes read go to the
        tail and nothing before them changes. */
    method Append(bytes: string)
      modifies this`buf
      ensures |buf| == |old(buf)| + |bytes|
      ensures buf[..|old(buf)|] == old(buf) && buf[|old(buf)|..] == bytes
    {
      buf := buf + bytes;
    }

    /** The read of the listener: bytes read are appended; a pending or
        failed read changes nothing. */
    method ReadSerial(read: ReadResult)
      modifies this`buf
      ensures buf == old(buf) + if read.ReadBytes? then read.data else []
    {
      if read.ReadBytes? && read.data != [] {
        Append(read.data);
      }
    }

    /** One cycle of PicoListenerThread: liveness check, transition logging,
        reconnection, read, then the flush. `alive` is the result of the
        liveness check of an open port, `opens` whether reopening succeeds. */
    method ListenerCycle(alive: bool, opens: bool, read: ReadResult) returns (connected: bool)
      modifies this`buf, this`log, this`portOpen, this`wasConnected
      ensures var t := Transit(old(wasConnected), old(portOpen) && alive, opens);
        var fed := old(buf) + if connected && read.ReadBytes? then read.data else [];
        && connected == t.connected && wasConnected == connected && portOpen == connected
        && buf == []
        && log == old(log) + t.lines + RawLog(fed)
    {
      ghost var t := Transit(wasConnected, portOpen && alive, opens);
      connected := false;
      if portOpen {
        if alive {
          connected := true;
        } else {
          portOpen := false;
        }
      }
      if !connected && wasConnected {
        log := log + [DisconnectedText];
      }
      if !connected && opens {
        portOpen := true;
        connected := true;
      }
      if connected && !wasConnected {
        log := log + [ConnectedText];
      }
      assert log == old(log) + t.lines;
      wasConnected := connected;
      ghost var fed := buf + if connected && read.ReadBytes? then read.data else [];
      if connected {
        ReadSerial(read);
      }
      assert buf == fed;
      FlushSerialMessagesToLog();
    }
  }
}
