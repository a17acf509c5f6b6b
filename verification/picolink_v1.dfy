/** The first prototype of the host side of the serial link (PICOLINKV1.cpp).
    The global `serialMessages` buffer and the `protocolActive` flag become the
    fields of one `SessionCoordinator`; the listener thread, the upload and the
    download run as its methods, one after the other. Device bytes are appended
    from scripts, serial writes are appended to `wire`, log calls to `log`. */
module PicoLinkV1 {
  import opened Bytes
  import opened Protocol

  // Protocol tokens as the device sends them, each with its CRLF.
  const AckMsg: string := "ACK\r\n"
  const ReadyMsg: string := "READY\r\n"
  const UploadOkMsg: string := "UPLOAD_OK\r\n"
  const EndMarker: string := "END\r\n"
  const NackMsg: string := "NACK\r\n"
  const SendKeyword: string := "SEND "

  // Fixed parts of the log lines.
  const CanceledText: string := "Upload canceled."
  const OpenFailedText: string := "ERROR: Failed to open file."
  const SentCommandText: string := "Sent upload command: "
  const NoReadyText: string := "ERROR: Pico did not send READY"
  const ReadyAbortText: string := "Upload aborted due to missing READY message."
  const ReadyText: string := "Pico READY received, sending file with ACK flow control..."
  const AckAbortText: string := "Upload aborted due to missing ACK."
  const NoUploadOkText: string := "ERROR: Pico did not confirm UPLOAD_OK"
  const UploadedText: string := "SUCCESS: File transfer complete. Total bytes sent: "
  const NoAckText: string := "ERROR: Pico did not acknowledge block #"
  const DownloadTimeoutText: string := "TIMEOUT: Download timed out before receiving all expected bytes."
  const MalformedText: string := "ERROR: Invalid SEND command format received."
  const NoFolderText: string := "FATAL ERROR: Could not find or create PicoLink folder for saving."
  const CannotOpenText: string := "FATAL ERROR: Failed to open file for writing: "
  const DownloadStartText: string := "Download initiated from Pico."
  const DownloadEndText: string := "Download session concluded."
  const LogPrefix: string := "[PICO] "
  const CommandPrefix: string := "[PICO COMMAND] "
  const DetectedText: string := "Pico detected on "
  const DisconnectedText: string := "Pico disconnected."
  const ReadErrorText: string := "FATAL SERIAL READ ERROR (Error: "
  const ReadErrorSuffixText: string := "). Forcing reconnection."
  const TimeoutSuffixText: string := " (Timeout). Current buffer: "
  const RawRecvText: string := "[RAW RECV: "
  const RawBytesText: string := " bytes] "

  // ---------------------------------------------------------------------------
  // Line flusher

  /** The complete lines at the head of a buffer (each without its '\n') and
      the unterminated tail after them. */
  datatype Split = Split(lines: seq<string>, rest: string)

  /** Each line followed by its '\n'. */
  function Joined(lines: seq<string>): string
  {
    if lines == [] then [] else lines[0] + "\n" + Joined(lines[1..])
  }

  /** The lines FlushSerialMessagesToLog takes off the buffer, in order. */
  function SplitLines(b: string): Split
    decreases |b|
  {
    match IndexOf(b, "\n", 0)
    case None => Split([], b)
    case Some(p) =>
      var r := SplitLines(b[p + 1..]);
      Split([b[..p]] + r.lines, r.rest)
  }

  /** The flusher takes whole lines only: the lines with their newlines,
      followed by the tail it keeps, are the buffer it started from; no line
      and not the tail holds a newline. */
  lemma {:induction false} SplitLinesSound(b: string)
    ensures Joined(SplitLines(b).lines) + SplitLines(b).rest == b
    ensures '\n' !in SplitLines(b).rest
    ensures forall i :: 0 <= i < |SplitLines(b).lines| ==> '\n' !in SplitLines(b).lines[i]
    decreases |b|
  {
    match IndexOf(b, "\n", 0)
    case None =>
      NoNewlineWhenNotFound(b);
    case Some(p) =>
      NewlineFound(b, p);
      var r := SplitLines(b[p + 1..]);
      SplitLinesSound(b[p + 1..]);
      JoinedCons(b[..p], r.lines);
      RejoinLine(b, p, Joined(r.lines), r.rest);
      LinesCons(b[..p], r.lines);
  }

  lemma RejoinLine(b: string, p: nat, joined: string, rest: string)
    requires p < |b| && b[p] == '\n' && joined + rest == b[p + 1..]
    ensures b[..p] + "\n" + joined + rest == b
  {
    assert b[..p] + "\n" + joined + rest == b[..p] + [b[p]] + b[p + 1..];
    assert b == b[..p] + [b[p]] + b[p + 1..];
  }

  lemma LinesCons(line: string, lines: seq<string>)
    requires '\n' !in line
    requires forall i :: 0 <= i < |lines| ==> '\n' !in lines[i]
    ensures forall i :: 0 <= i < |[line] + lines| ==> '\n' !in ([line] + lines)[i]
  {
  }

  lemma NoNewlineWhenNotFound(b: string)
    requires IndexOf(b, "\n", 0).None?
    ensures '\n' !in b
  {
    IndexOfCharIsFirst(b, "\n", 0);
    assert b[0..] == b;
  }

  lemma NewlineFound(b: string, p: nat)
    requires IndexOf(b, "\n", 0) == Some(p)
    ensures p < |b| && b[p] == '\n' && '\n' !in b[..p]
  {
    IndexOfCharIsFirst(b, "\n", 0);
    assert b[0..p] == b[..p];
  }

  lemma JoinedCons(line: string, lines: seq<string>)
    ensures Joined([line] + lines) == line + "\n" + Joined(lines)
  {
    assert ([line] + lines)[1..] == lines;
  }

  /** A line without its trailing '\r', if it has one. */
  function StripCR(line: string): string
  {
    if line != [] && line[|line| - 1] == '\r' then line[..|line| - 1] else line
  }

  /** What the flusher logs for one line. */
  function LogLine(line: string): string
  {
    LogPrefix + StripCR(line)
  }

  function LogLines(lines: seq<string>): (r: seq<string>)
    ensures |r| == |lines|
    ensures forall i :: 0 <= i < |lines| ==> r[i] == LogLine(lines[i])
  {
    if lines == [] then [] else [LogLine(lines[0])] + LogLines(lines[1..])
  }

  /** A buffer without a newline yields no line: a partial line is never logged. */
  lemma {:induction false} NoNewlineNoLines(b: string)
    requires '\n' !in b
    ensures SplitLines(b) == Split([], b)
  {
    IndexOfCharIsFirst(b, "\n", 0);
  }

  /** Flushing what a flush left behind logs nothing and keeps it. */
  lemma FlushIdempotent(b: string)
    ensures SplitLines(SplitLines(b).rest) == Split([], SplitLines(b).rest)
  {
    SplitLinesSound(b);
    NoNewlineNoLines(SplitLines(b).rest);
  }

  /** "A\r\nB\r\n" is logged as A then B and leaves an empty buffer. */
  lemma FlushTwoLines()
    ensures SplitLines("A\r\nB\r\n") == Split(["A\r", "B\r"], "")
    ensures LogLines(SplitLines("A\r\nB\r\n").lines) == ["[PICO] A", "[PICO] B"]
  {
    SplitTwoLines();
    var logged := LogLines(["A\r", "B\r"]);
    assert LogLine("A\r") == "[PICO] A" && LogLine("B\r") == "[PICO] B";
    assert |logged| == 2 && logged[0] == "[PICO] A" && logged[1] == "[PICO] B";
  }

  lemma SplitTwoLines()
    ensures SplitLines("A\r\nB\r\n") == Split(["A\r", "B\r"], "")
  {
    var b := "A\r\nB\r\n";
    var b1 := "B\r\n";
    NewlineAt(b1, 2);
    assert b1[..2] == "B\r" && b1[3..] == "";
    NoNewlineNoLines("");
    assert SplitLines(b1) == Split(["B\r"], "");
    NewlineAt(b, 2);
    assert b[..2] == "A\r" && b[3..] == b1;
  }

  lemma NewlineAt(b: string, p: nat)
    requires p < |b| && b[p] == '\n' && '\n' !in b[..p]
    ensures IndexOf(b, "\n", 0) == Some(p)
  {
    OccursAtChar(b, "\n", p);
    forall j | 0 <= j < p ensures !OccursAt(b, "\n", j) {
      OccursAtChar(b, "\n", j);
      assert b[..p][j] == b[j];
    }
    IndexOfFirstOccurrence(b, "\n", 0, p);
  }

  /** One round of the flush loop takes the first line off the split; the
      lines logged so far followed by the split of `b` are those logged after
      the round followed by the split of what it keeps. */
  lemma FlushStep(done: seq<string>, b: string, p: nat)
    requires IndexOf(b, "\n", 0) == Some(p)
    ensures SplitLines(b).lines == [b[..p]] + SplitLines(b[p + 1..]).lines
    ensures SplitLines(b).rest == SplitLines(b[p + 1..]).rest
    ensures done + SplitLines(b).lines == (done + [b[..p]]) + SplitLines(b[p + 1..]).lines
  {
    var line, later := b[..p], SplitLines(b[p + 1..]).lines;
    assert done + ([line] + later) == (done + [line]) + later;
  }

  /** The flush loop has logged the lines `done` of `orig` and kept `b`,
      whose lines and tail are the rest of the split of `orig`. */
  ghost predicate FlushedSoFar(orig: string, done: seq<string>, b: string)
  {
    SplitLines(orig) == Split(done + SplitLines(b).lines, SplitLines(b).rest)
  }

  lemma FlushRound(orig: string, done: seq<string>, b: string, p: nat)
    requires FlushedSoFar(orig, done, b) && IndexOf(b, "\n", 0) == Some(p)
    ensures p < |b| && FlushedSoFar(orig, done + [b[..p]], b[p + 1..])
  {
    NewlineFound(b, p);
    FlushStep(done, b, p);
  }

  lemma FlushFinished(orig: string, done: seq<string>, b: string)
    requires FlushedSoFar(orig, done, b) && IndexOf(b, "\n", 0).None?
    ensures SplitLines(orig) == Split(done, b) && '\n' !in b
  {
    NoNewlineWhenNotFound(b);
    NoNewlineNoLines(b);
    assert done + [] == done;
  }

  lemma LogRound(before: seq<string>, done: seq<string>, line: string)
    ensures before + LogLines(done + [line]) == (before + LogLines(done)) + [LogLine(line)]
  {
    LogLinesSnoc(done, line);
    assert before + (LogLines(done) + [LogLine(line)]) == (before + LogLines(done)) + [LogLine(line)];
  }

  /** `log` is `before` with lines appended. */
  ghost predicate Extends(log: seq<string>, before: seq<string>)
  {
    before <= log
  }

  lemma ExtendsTrans(c: seq<string>, b: seq<string>, a: seq<string>)
    requires Extends(b, a) && Extends(c, b)
    ensures Extends(c, a)
  {
  }

  lemma LogLinesSnoc(lines: seq<string>, line: string)
    ensures LogLines(lines + [line]) == LogLines(lines) + [LogLine(line)]
  {
  }

  // ---------------------------------------------------------------------------
  // Token wait

  /** What `serialMessages.erase(0, pos + token.length())` leaves after the
      first occurrence of `token`, or None when the token does not occur. */
  function AfterToken(b: string, token: string): (r: Option<string>)
    ensures r.None? <==> !Occurs(b, token)
    ensures r.Some? ==>
      var cut := |b| - |r.value|;
      cut >= |token| && r.value == b[cut..]
      && OccursAt(b, token, cut - |token|)
      && forall j :: 0 <= j < cut - |token| ==> !OccursAt(b, token, j)
  {
    match IndexOf(b, token, 0)
    case None => None
    case Some(p) => Some(b[p + |token|..])
  }

  /** The documented example: everything through READY and its CRLF goes. */
  lemma ReadyConsumesThroughToken()
    ensures AfterToken("garbage READY\r\nmore", ReadyMsg) == Some("more")
  {
    var b := "garbage READY\r\nmore";
    assert OccursAt(b, ReadyMsg, 8);
    forall j | 0 <= j < 8 ensures !OccursAt(b, ReadyMsg, j) {
      assert b[j..j + 7][5] == b[j + 5] != '\r';
    }
    IndexOfFirstOccurrence(b, ReadyMsg, 0, 8);
  }

  /** WaitForPicoResponse over a poll script: the buffer is checked; while
      the token is missing and the script is not used up, the listener
      appends the script's next chunk and the buffer is checked again; once
      the script is used up, the wait times out. */
  function Await(b: string, token: string, polls: seq<string>): WaitResult
    decreases |polls|
  {
    match AfterToken(b, token)
    case Some(rest) => WaitResult(true, rest)
    case None => if polls == [] then WaitResult(false, b) else Await(b + polls[0], token, polls[1..])
  }

  /** A wait succeeds exactly when the token is somewhere in the buffer and
      what arrives during the wait; a wait that times out consumes nothing. */
  lemma {:induction false} AwaitFindsIff(b: string, token: string, polls: seq<string>)
    ensures Await(b, token, polls).found <==> Occurs(b + Concat(polls), token)
    ensures !Await(b, token, polls).found ==> Await(b, token, polls).rest == b + Concat(polls)
    decreases |polls|
  {
    if AfterToken(b, token).Some? {
      var j :| OccursAt(b, token, j);
      OccursExtend(b, token, Concat(polls), j);
    } else if polls == [] {
      assert b + Concat(polls) == b;
    } else {
      var fed := b + polls[0];
      assert b + Concat(polls) == fed + Concat(polls[1..]);
      AwaitFindsIff(fed, token, polls[1..]);
    }
  }

  /** A check that misses the token lets the next chunk of the script arrive. */
  lemma AwaitPoll(b: string, token: string, polls: seq<string>, i: nat)
    requires i < |polls| && AfterToken(b, token).None?
    ensures Await(b, token, polls[i..]) == Await(b + polls[i], token, polls[i + 1..])
  {
    assert polls[i..][0] == polls[i] && polls[i..][1..] == polls[i + 1..];
  }

  /** A wait ends at the first check whose buffer holds the token, after `k`
      chunks arrived, and leaves what follows the token's first occurrence. */
  lemma {:induction false} AwaitStopsAtFirstHit(b: string, token: string, polls: seq<string>, k: nat)
    requires k <= |polls| && Occurs(b + Concat(polls[..k]), token)
    requires forall j :: 0 <= j < k ==> !Occurs(b + Concat(polls[..j]), token)
    ensures Await(b, token, polls) == WaitResult(true, AfterToken(b + Concat(polls[..k]), token).value)
    decreases k
  {
    assert b + Concat(polls[..0]) == b;
    if k > 0 {
      var fed := b + polls[0];
      forall j | 0 <= j < k ensures fed + Concat(polls[1..][..j]) == b + Concat(polls[..j + 1]) {
        ConcatPrefixStep(polls, j);
      }
      AwaitStopsAtFirstHit(fed, token, polls[1..], k - 1);
    }
  }

  /** A lone token that arrives during a wait on an empty buffer is found
      and leaves nothing behind. */
  lemma AwaitLoneToken(token: string)
    ensures Await([], token, [token]) == WaitResult(true, [])
  {
    assert [] + token == token;
    assert OccursAt(token, token, 0);
    IndexOfFirstOccurrence(token, token, 0, 0);
  }

  // ---------------------------------------------------------------------------
  // Upload effect

  /** The block loop of UploadFile from `sent` bytes on, with `b` buffered
      and `j` the index of the next token wait: a block, then an ACK wait
      while bytes remain, stopping at the first ACK that does not come. */
  function SendFrom(content: string, sent: nat, b: string, device: seq<seq<string>>, j: nat): (r: BlockRun)
    requires sent <= |content|
    ensures sent <= r.sent <= |content| && j <= r.next
    ensures r.acked <==> r.sent == |content|
    decreases |content| - sent
  {
    if sent == |content| then BlockRun(true, sent, b, j)
    else
      var after := sent + Min(BlockSize, |content| - sent);
      if after == |content| then BlockRun(true, after, b, j)
      else
        var w := Await(b, AckMsg, Script(device, j));
        if w.found then SendFrom(content, after, w.rest, device, j + 1)
        else BlockRun(false, after, w.rest, j + 1)
  }

  /** The block loop after some rounds lies on `run`, the run from the
      start of the file: a running loop goes on to it, a stopped one is its end. */
  ghost predicate OnRun(content: string, sent: nat, b: string, device: seq<seq<string>>, j: nat, running: bool, run: BlockRun)
    requires sent <= |content|
  {
    if running then SendFrom(content, sent, b, device, j) == run else BlockRun(false, sent, b, j) == run
  }

  /** One round of the block loop keeps it on its run. */
  lemma RunRound(content: string, sent: nat, b: string, device: seq<seq<string>>, j: nat, run: BlockRun,
                 acked: bool, after: nat, b': string)
    requires sent < |content| && OnRun(content, sent, b, device, j, true, run)
    requires after == sent + Min(BlockSize, |content| - sent)
    requires after < |content| ==>
      acked == Await(b, AckMsg, Script(device, j)).found && b' == Await(b, AckMsg, Script(device, j)).rest
    requires after == |content| ==> acked && b' == b
    ensures OnRun(content, after, b', device, if after < |content| then j + 1 else j, acked, run)
  {
  }

  /** What UploadFile does on the link once a file was chosen: the READY
      wait on the buffer cleared after the header, the block loop on what
      that wait left, then the UPLOAD_OK wait on what the loop left. */
  function ExpectedUpload(content: string, device: seq<seq<string>>): (e: UploadEffect)
    ensures e.outcome in {NoReady, NoAck, NoUploadOk, Uploaded} && e.sent <= |content|
    ensures e.outcome == NoReady ==> e.sent == 0
    ensures e.outcome == NoAck ==> e.sent < |content|
    ensures e.outcome in {NoUploadOk, Uploaded} ==> e.sent == |content|
  {
    var ready := Await([], ReadyMsg, Script(device, 0));
    if !ready.found then UploadEffect(NoReady, 0, ready.rest)
    else
      var run := SendFrom(content, 0, ready.rest, device, 1);
      if !run.acked then UploadEffect(NoAck, run.sent, run.rest)
      else
        var done := Await(run.rest, UploadOkMsg, Script(device, run.next));
        UploadEffect(if done.found then Uploaded else NoUploadOk, run.sent, done.rest)
  }

  /** The device answers the `count` token waits from index `from` on with
      one ACK line each. */
  predicate AcksAt(device: seq<seq<string>>, from: nat, count: nat)
  {
    from + count <= |device| && forall k :: from <= k < from + count ==> device[k] == [AckMsg]
  }

  /** A device that answers each ACK wait of the loop with one ACK line gets
      every block, and the loop leaves nothing buffered. */
  lemma {:induction false} AnsweredAcksSendAll(content: string, sent: nat, device: seq<seq<string>>, j: nat)
    requires sent <= |content| && AcksAt(device, j, AckWaits(|content| - sent))
    ensures SendFrom(content, sent, [], device, j) == BlockRun(true, |content|, [], j + AckWaits(|content| - sent))
    decreases |content| - sent
  {
    if sent < |content| && BlockSize < |content| - sent {
      assert AckWaits(|content| - sent) == 1 + AckWaits(|content| - (sent + BlockSize));
      AckedRound(content, sent, device, j);
      AnsweredAcksSendAll(content, sent + BlockSize, device, j + 1);
    }
  }

  /** A full block whose ACK wait gets a lone ACK on an empty buffer. */
  lemma AckedRound(content: string, sent: nat, device: seq<seq<string>>, j: nat)
    requires BlockSize < |content| - sent && j < |device| && device[j] == [AckMsg]
    ensures SendFrom(content, sent, [], device, j) == SendFrom(content, sent + BlockSize, [], device, j + 1)
  {
    LoneReply(device, j, AckMsg);
  }

  /** A wait whose script is the lone token finds it on an empty buffer. */
  lemma LoneReply(device: seq<seq<string>>, j: nat, token: string)
    requires j < |device| && device[j] == [token]
    ensures Await([], token, Script(device, j)) == WaitResult(true, [])
  {
    AwaitLoneToken(token);
  }

  /** A device that sends READY, one ACK per ACK wait and UPLOAD_OK, each as
      the only chunk of its wait, completes the upload of any file and leaves
      the buffer empty. */
  lemma CooperativeDeviceUploads(content: string, device: seq<seq<string>>)
    requires |device| == AckWaits(|content|) + 2 && AcksAt(device, 1, AckWaits(|content|))
    requires device[0] == [ReadyMsg] && device[|device| - 1] == [UploadOkMsg]
    ensures ExpectedUpload(content, device) == UploadEffect(Uploaded, |content|, [])
  {
    AllAcksSendAll(content, device);
    UploadOfRun(content, device, |device| - 1);
  }

  /** The block loop of such a device, from the start of the file. */
  lemma AllAcksSendAll(content: string, device: seq<seq<string>>)
    requires |device| == AckWaits(|content|) + 2 && AcksAt(device, 1, AckWaits(|content|))
    ensures SendFrom(content, 0, [], device, 1) == BlockRun(true, |content|, [], |device| - 1)
  {
    AnsweredAcksSendAll(content, 0, device, 1);
  }

  /** The upload succeeds with an empty buffer when READY arrives alone,
      every ACK comes and UPLOAD_OK arrives alone in the `m`-th wait. */
  lemma UploadOfRun(content: string, device: seq<seq<string>>, m: nat)
    requires 0 < m < |device| && device[0] == [ReadyMsg] && device[m] == [UploadOkMsg]
    requires SendFrom(content, 0, [], device, 1) == BlockRun(true, |content|, [], m)
    ensures ExpectedUpload(content, device) == UploadEffect(Uploaded, |content|, [])
  {
    assert Await([], ReadyMsg, Script(device, 0)) == WaitResult(true, []) by {
      LoneReply(device, 0, ReadyMsg);
    }
    assert Await([], UploadOkMsg, Script(device, m)) == WaitResult(true, []) by {
      LoneReply(device, m, UploadOkMsg);
    }
  }

  /** An ACK that arrives in the same chunk as READY stays buffered and
      answers the first block's wait: a file of two blocks is then sent
      whole, and only the UPLOAD_OK wait times out. */
  lemma BufferedAckAnswers(content: string)
    requires BlockSize < |content| <= 2 * BlockSize
    ensures ExpectedUpload(content, [[ReadyMsg + AckMsg]]) == UploadEffect(NoUploadOk, |content|, [])
  {
    var chunk := ReadyMsg + AckMsg;
    var device := [[chunk]];
    assert [] + chunk == chunk;
    assert OccursAt(chunk, ReadyMsg, 0);
    IndexOfFirstOccurrence(chunk, ReadyMsg, 0, 0);
    assert chunk[|ReadyMsg|..] == AckMsg;
    assert Await([], ReadyMsg, Script(device, 0)) == WaitResult(true, AckMsg);
    assert OccursAt(AckMsg, AckMsg, 0);
    IndexOfFirstOccurrence(AckMsg, AckMsg, 0, 0);
    assert Await(AckMsg, AckMsg, Script(device, 1)) == WaitResult(true, []);
    assert SendFrom(content, BlockSize, [], device, 2) == BlockRun(true, |content|, [], 2);
    assert SendFrom(content, 0, AckMsg, device, 1) == BlockRun(true, |content|, [], 2);
    assert Await([], UploadOkMsg, Script(device, 2)) == WaitResult(false, []);
  }

  // ---------------------------------------------------------------------------
  // SEND trigger

  /** Where the trigger line lies: from the first "SEND " to the first '\n' after it. */
  datatype Span = Span(start: nat, end: nat)

  /** The trigger search of the listener: `find("SEND ")`, then `find('\n', send_pos)`. */
  function SendTrigger(b: string): (r: Option<Span>)
    ensures r.Some? ==>
      r.value.start + |SendKeyword| <= r.value.end < |b|
      && OccursAt(b, SendKeyword, r.value.start)
      && (forall j :: 0 <= j < r.value.start ==> !OccursAt(b, SendKeyword, j))
      && b[r.value.end] == '\n' && '\n' !in b[r.value.start..r.value.end]
    ensures r.None? ==>
      forall s :: OccursAt(b, SendKeyword, s) && (forall j :: 0 <= j < s ==> !OccursAt(b, SendKeyword, j))
        ==> '\n' !in b[s..]
  {
    match IndexOf(b, SendKeyword, 0)
    case None => None
    case Some(s) =>
      IndexOfCharIsFirst(b, "\n", s);
      assert '\n' !in b[s..s + |SendKeyword|] by {
        assert b[s..s + |SendKeyword|] == SendKeyword;
      }
      match IndexOf(b, "\n", s)
      case None =>
        forall s' | OccursAt(b, SendKeyword, s') && (forall j :: 0 <= j < s' ==> !OccursAt(b, SendKeyword, j))
          ensures s' == s
        {
          assert !(s < s');
        }
        None
      case Some(e) =>
        Some(Span(s, e))
  }

  /** A cut trigger: the command line and the buffer left without it. */
  datatype Trigger = Trigger(command: string, rest: string)

  /** The command line the listener cuts out, and the buffer it leaves. */
  function CutTrigger(b: string): (r: Option<Trigger>)
    ensures r.None? <==> SendTrigger(b).None?
    ensures r.Some? ==>
      var s, e := SendTrigger(b).value.start, SendTrigger(b).value.end;
      r.value.command == b[s..e + 1] && r.value.rest == b[..s] + b[e + 1..]
      && b == b[..s] + r.value.command + b[e + 1..]
  {
    match SendTrigger(b)
    case None => None
    case Some(sp) =>
      assert b == b[..sp.start] + b[sp.start..sp.end + 1] + b[sp.end + 1..];
      Some(Trigger(b[sp.start..sp.end + 1], b[..sp.start] + b[sp.end + 1..]))
  }

  // ---------------------------------------------------------------------------
  // Download

  /** The parse at the top of HandleIncomingSend: `ss >> command >> filename
      >> size`, rejected unless the command is SEND. */
  function ParseSend(line: string): (r: Option<CommandLine>)
    ensures r.Some? ==>
      var ts := Tokens(line);
      && |ts| >= 3 && ts[0] == "SEND" && r.value.keyword == "SEND"
      && ts[1] == r.value.name
      && AllDigits(ts[2]) && DigitsValue(ts[2]) == r.value.size
  {
    var c := ParseCommandLine(line);
    if c.Some? && c.value.keyword == "SEND" then c else None
  }

  /** A trigger line `SEND name size\r\n` parses back to its name and size. */
  lemma SendLineRoundTrip(name: string, size: nat)
    requires name != [] && NoSpace(name) && size < SizeLimit
    ensures ParseSend("SEND " + name + " " + Decimal(size) + "\r\n") == Some(CommandLine("SEND", name, size))
  {
    assert "SEND " + name + " " + Decimal(size) + "\r\n" == "SEND" + " " + name + " " + Decimal(size) + "\r\n";
    ControlLineRoundTrip("SEND", name, size);
  }

  /** The documented trigger: "SEND a.txt 4\r\n" asks for a.txt with 4 bytes. */
  lemma SendExample()
    ensures ParseSend("SEND a.txt 4\r\n") == Some(CommandLine("SEND", "a.txt", 4))
  {
    assert Decimal(4) == "4";
    assert "SEND " + "a.txt" + " " + Decimal(4) + "\r\n" == "SEND a.txt 4\r\n";
    SendLineRoundTrip("a.txt", 4);
  }

  /** What the receive loop has taken, what it left in the buffer, and how many polls it used. */
  datatype Received = Received(data: string, rest: string, polls: nat)

  /** The receive loop of HandleIncomingSend with `need` bytes outstanding
      and `polls[i..]` still to come: each poll sees the bytes appended since
      the last one and moves `min(available, need)` of them from the buffer
      head to the file. */
  function Receive(b: string, need: nat, polls: seq<string>, i: nat): Received
    requires i <= |polls|
    decreases |polls| - i
  {
    if need == 0 || i == |polls| then Received([], b, 0)
    else
      var avail := b + polls[i];
      var n := Min(|avail|, need);
      var r := Receive(avail[n..], need - n, polls, i + 1);
      Received(avail[..n] + r.data, r.rest, r.polls + 1)
  }

  /** The polls the receive loop makes. Its clock starts just before the
      loop, so the first pass never times out and always takes from the
      buffer: a script without chunks stands for one poll at which nothing
      new has arrived. */
  function TakeScript(polls: seq<string>): (t: seq<string>)
    ensures t != [] && (polls != [] ==> t == polls)
  {
    if polls == [] then [[]] else polls
  }

  /** The polls of the receive loop carry exactly the arrivals of the script. */
  lemma TakeScriptArrivals(polls: seq<string>)
    ensures Concat(TakeScript(polls)) == Concat(polls)
  {
    if polls == [] {
      assert Concat([[]]) == [] + Concat([]);
    }
  }

  /** The receive loop has written `file` and left `b` after `i` polls: the
      rest of the loop, run from there, completes the file and the buffer of
      a run from the start. */
  ghost predicate ReceivedSoFar(orig: string, size: nat, polls: seq<string>, file: string, b: string, i: nat)
  {
    && i <= |polls| && |file| <= size
    && file + Receive(b, size - |file|, polls, i).data == Receive(orig, size, polls, 0).data
    && Receive(b, size - |file|, polls, i).rest == Receive(orig, size, polls, 0).rest
  }

  /** One round of the receive loop: take what is available, up to what is missing. */
  lemma ReceiveRound(orig: string, size: nat, polls: seq<string>, file: string, b: string, i: nat)
    requires ReceivedSoFar(orig, size, polls, file, b, i) && i < |polls| && |file| < size
    ensures var avail := b + polls[i];
      var n := Min(|avail|, size - |file|);
      ReceivedSoFar(orig, size, polls, file + avail[..n], avail[n..], i + 1)
  {
    var avail := b + polls[i];
    var need := size - |file|;
    var n := Min(|avail|, need);
    var r := Receive(avail[n..], need - n, polls, i + 1);
    assert Receive(b, need, polls, i) == Received(avail[..n] + r.data, r.rest, r.polls + 1);
    assert file + (avail[..n] + r.data) == (file + avail[..n]) + r.data;
  }

  /** When the loop stops it has the result of the whole run. */
  lemma ReceiveFinished(orig: string, size: nat, polls: seq<string>, file: string, b: string, i: nat)
    requires ReceivedSoFar(orig, size, polls, file, b, i) && (|file| == size || i == |polls|)
    ensures file == Receive(orig, size, polls, 0).data && b == Receive(orig, size, polls, 0).rest
  {
    assert Receive(b, size - |file|, polls, i) == Received([], b, 0);
    assert file + [] == file;
  }

  /** The receive loop never takes more than asked and never uses more
      polls than it has; a loop that stopped short used every poll and left
      the buffer empty. */
  lemma {:induction false} ReceiveBounds(b: string, need: nat, polls: seq<string>, i: nat)
    requires i <= |polls|
    ensures |Receive(b, need, polls, i).data| <= need
    ensures i + Receive(b, need, polls, i).polls <= |polls|
    ensures i < |polls| && |Receive(b, need, polls, i).data| < need ==>
      Receive(b, need, polls, i).rest == [] && i + Receive(b, need, polls, i).polls == |polls|
    decreases |polls| - i
  {
    if need > 0 && i < |polls| {
      var avail := b + polls[i];
      var n := Min(|avail|, need);
      ReceiveBounds(avail[n..], need - n, polls, i + 1);
    }
  }

  /** Nothing is lost or invented: the file followed by the buffer is the
      old buffer followed by everything that arrived during the polls used. */
  lemma {:induction false} ReceiveConserves(b: string, need: nat, polls: seq<string>, i: nat)
    requires i <= |polls|
    ensures i + Receive(b, need, polls, i).polls <= |polls|
    ensures Receive(b, need, polls, i).data + Receive(b, need, polls, i).rest
      == b + Concat(polls[i..i + Receive(b, need, polls, i).polls])
    decreases |polls| - i
  {
    var r := Receive(b, need, polls, i);
    if need == 0 || i == |polls| {
      assert r == Received([], b, 0);
      assert polls[i..i] == [];
    } else {
      var avail := b + polls[i];
      var n := Min(|avail|, need);
      var r' := Receive(avail[n..], need - n, polls, i + 1);
      assert r == Received(avail[..n] + r'.data, r'.rest, r'.polls + 1);
      ReceiveConserves(avail[n..], need - n, polls, i + 1);
      ConservesStep(b, polls, i, n, r'.data, r'.rest, r'.polls);
    }
  }

  lemma ConservesStep(b: string, polls: seq<string>, i: nat, n: nat, data: string, rest: string, k: nat)
    requires i + k < |polls| && n <= |b + polls[i]|
    requires data + rest == (b + polls[i])[n..] + Concat(polls[i + 1..i + 1 + k])
    ensures ((b + polls[i])[..n] + data) + rest == b + Concat(polls[i..i + (k + 1)])
  {
    var a, tail := b + polls[i], Concat(polls[i + 1..i + 1 + k]);
    ConcatSliceStep(polls, i, i + (k + 1));
    calc {
      (a[..n] + data) + rest;
      a[..n] + (data + rest);
      a[..n] + (a[n..] + tail);
      (a[..n] + a[n..]) + tail;
      { assert a[..n] + a[n..] == a; }
      a + tail;
      b + (polls[i] + tail);
    }
  }

  lemma ConcatSliceStep(ss: seq<string>, i: nat, j: nat)
    requires i < j <= |ss|
    ensures Concat(ss[i..j]) == ss[i] + Concat(ss[i + 1..j])
  {
    assert ss[i..j][1..] == ss[i + 1..j];
  }

  /** The file is the head of the stream (old buffer, then every arrival),
      as long as the stream allows. */
  lemma {:induction false} ReceiveIsHead(b: string, need: nat, polls: seq<string>, i: nat)
    requires i < |polls|
    ensures Receive(b, need, polls, i).data == (b + Concat(polls[i..]))[..Min(need, |b + Concat(polls[i..])|)]
    decreases |polls| - i
  {
    if need > 0 {
      var avail := b + polls[i];
      var n := Min(|avail|, need);
      var r := Receive(avail[n..], need - n, polls, i + 1);
      assert Receive(b, need, polls, i).data == avail[..n] + r.data;
      ConcatStep(polls, i);
      assert b + Concat(polls[i..]) == avail + Concat(polls[i + 1..]);
      if i + 1 == |polls| {
        assert r.data == [] && Concat(polls[i + 1..]) == [];
        assert avail + Concat(polls[i + 1..]) == avail;
      } else if n < need {
        ReceiveIsHead(avail[n..], need - n, polls, i + 1);
        assert avail[n..] == [];
        ReceiveHead(avail, Concat(polls[i + 1..]), n, need, r.data);
      } else {
        assert r.data == [];
        assert avail[..need] == (avail + Concat(polls[i + 1..]))[..need];
      }
    }
  }

  lemma ReceiveHead(avail: string, more: string, n: nat, need: nat, data: string)
    requires n == |avail| < need
    requires data == ([] + more)[..Min(need - n, |more|)]
    ensures avail + data == (avail + more)[..Min(need, |avail + more|)]
  {
    assert [] + more == more;
  }

  /** However the device splits `size` payload bytes across reads, the file
      receives exactly those bytes in order (anything after them stays in the
      buffer). */
  lemma DownloadAnyFragmentation(payload: string, trailer: string, polls: seq<string>)
    requires Concat(polls) == payload + trailer
    ensures Receive([], |payload|, polls, 0).data == payload
  {
    if polls == [] {
      assert |payload + trailer| == 0;
    } else {
      ReceiveIsHead([], |payload|, polls, 0);
      assert polls[0..] == polls;
      assert [] + Concat(polls) == payload + trailer;
      assert (payload + trailer)[..|payload|] == payload;
    }
  }

  /** The end marker is found anywhere in the buffer, not only at its head:
      when no earlier marker overlaps the one after `pre`, that one is cut
      out and nothing else moves. */
  lemma EndMarkerErasedAnywhere(pre: string, post: string)
    requires !Occurs(pre + EndMarker[..|EndMarker| - 1], EndMarker)
    ensures EraseFirst(pre + EndMarker + post, EndMarker) == pre + post
  {
    var b := pre + EndMarker + post;
    var head := pre + EndMarker[..|EndMarker| - 1];
    assert OccursAt(b, EndMarker, |pre|) by {
      assert b[|pre|..|pre| + 5] == EndMarker;
    }
    forall j | 0 <= j < |pre| ensures !OccursAt(b, EndMarker, j) {
      assert b[j..j + 5] == head[j..j + 5];
      assert !OccursAt(head, EndMarker, j);
    }
    IndexOfFirstOccurrence(b, EndMarker, 0, |pre|);
    assert b[..|pre|] == pre;
    assert b[|pre| + 5..] == post;
  }

  datatype DownloadOutcome = Malformed | NoFolder | CannotOpen | Complete | Incomplete

  /** What the outside world supplies to one download: the folder
      GetPicoLinkFolder resolved (None when it failed), whether the output
      file opens, and the bytes arriving before each receive poll. */
  datatype DownloadEnv = DownloadEnv(folder: Option<string>, canOpen: bool, polls: seq<string>)

  /** The outcome of a download and the bytes written to the output file. */
  datatype DownloadReport = DownloadReport(outcome: DownloadOutcome, file: string)

  datatype Download = Download(report: DownloadReport, buf: string)

  // The log lines of a download that got its output file open.

  function ReceivingLine(name: string, size: nat, path: string): string
  {
    "Receiving file: " + name + " (" + Decimal(size) + " bytes) to: " + path
  }

  function DownloadedLine(received: nat, path: string): string
  {
    "SUCCESS: File transfer complete. Bytes received: " + Decimal(received) + " to " + path
  }

  function IncompleteLine(size: nat, received: nat): string
  {
    "ERROR: File transfer incomplete. Expected " + Decimal(size) + " bytes, got " + Decimal(received) + " bytes."
  }

  /** The effect of one download session on its report and on the buffer. */
  function ExpectedDownload(commandLine: string, env: DownloadEnv, b: string): (d: Download)
    ensures d.report.outcome == Malformed <==> ParseSend(commandLine).None?
    ensures d.report.outcome in {Malformed, NoFolder, CannotOpen} ==> d.report.file == [] && d.buf == b
    ensures d.report.outcome == Complete <==>
      ParseSend(commandLine).Some? && env.folder.Some? && env.canOpen
      && |d.report.file| == ParseSend(commandLine).value.size
    ensures d.report.outcome == Incomplete ==> |d.report.file| < ParseSend(commandLine).value.size
  {
    match ParseSend(commandLine)
    case None => Download(DownloadReport(Malformed, []), b)
    case Some(cmd) =>
      if env.folder.None? then Download(DownloadReport(NoFolder, []), b)
      else if !env.canOpen then Download(DownloadReport(CannotOpen, []), b)
      else
        var r := Receive(b, cmd.size, TakeScript(env.polls), 0);
        ReceiveBounds(b, cmd.size, TakeScript(env.polls), 0);
        var outcome := if |r.data| == cmd.size then Complete else Incomplete;
        Download(DownloadReport(outcome, r.data), EraseFirst(r.rest, EndMarker))
  }

  /** A download that gets its file open writes the head of the stream (the
      buffer left by the trigger, then every arrival), of the announced size
      or shorter, whatever the script. */
  lemma DownloadIsHead(commandLine: string, env: DownloadEnv, b: string)
    requires ParseSend(commandLine).Some? && env.folder.Some? && env.canOpen
    ensures var s := b + Concat(env.polls);
      ExpectedDownload(commandLine, env, b).report.file == s[..Min(ParseSend(commandLine).value.size, |s|)]
  {
    var script := TakeScript(env.polls);
    TakeScriptArrivals(env.polls);
    ReceiveIsHead(b, ParseSend(commandLine).value.size, script, 0);
    assert script[0..] == script;
  }

  /** A payload that arrived with the trigger is taken on the first pass,
      even when nothing more arrives. */
  lemma BufferedPayloadDownloads(folder: string)
    ensures ExpectedDownload("SEND a.txt 4\r\n", DownloadEnv(Some(folder), true, []), "abcd").report
      == DownloadReport(Complete, "abcd")
  {
    SendExample();
    DownloadIsHead("SEND a.txt 4\r\n", DownloadEnv(Some(folder), true, []), "abcd");
    assert "abcd" + Concat([]) == "abcd";
  }

  /** The trigger line is cut out of the middle of the buffer: bytes before
      it, when no `SEND ` starts among them, stay at the head. */
  lemma TriggerKeepsLeadingBytes(pre: string, mid: string, post: string)
    requires !Occurs(pre + SendKeyword[..|SendKeyword| - 1], SendKeyword) && '\n' !in mid
    ensures CutTrigger(pre + (SendKeyword + mid + "\n") + post)
      == Some(Trigger(SendKeyword + mid + "\n", pre + post))
  {
    var x := SendKeyword + mid + "\n";
    var b := pre + x + post;
    assert x[..5] == SendKeyword;
    FirstSendAt(pre, x, post);
    assert x[..|x| - 1] == SendKeyword + mid;
    FirstNewlineAt(pre, x, post);
    assert SendTrigger(b) == Some(Span(|pre|, |pre| + |x| - 1));
    CutMiddle(pre, x, post);
  }

  lemma FirstSendAt(pre: string, x: string, post: string)
    requires !Occurs(pre + SendKeyword[..|SendKeyword| - 1], SendKeyword)
    requires |x| >= 5 && x[..5] == SendKeyword
    ensures IndexOf(pre + x + post, SendKeyword, 0) == Some(|pre|)
  {
    var b := pre + x + post;
    var head := pre + SendKeyword[..|SendKeyword| - 1];
    var c := pre + SendKeyword;
    assert b[|pre|..|pre| + 5] == x[..5];
    assert b[..|pre| + 5] == c;
    assert c[..|pre| + 4] == head;
    forall j | 0 <= j < |pre| ensures !OccursAt(b, SendKeyword, j) {
      assert b[j..j + 5] == c[j..j + 5] == head[j..j + 5];
      assert !OccursAt(head, SendKeyword, j);
    }
    IndexOfFirstOccurrence(b, SendKeyword, 0, |pre|);
  }

  lemma FirstNewlineAt(pre: string, x: string, post: string)
    requires |x| >= 1 && x[|x| - 1] == '\n' && '\n' !in x[..|x| - 1]
    ensures IndexOf(pre + x + post, "\n", |pre|) == Some(|pre| + |x| - 1)
  {
    var b := pre + x + post;
    var s, e := |pre|, |pre| + |x| - 1;
    assert b[e] == x[|x| - 1];
    OccursAtChar(b, "\n", e);
    forall j | s <= j < e ensures !OccursAt(b, "\n", j) {
      OccursAtChar(b, "\n", j);
      assert b[j] == x[..|x| - 1][j - s];
    }
    IndexOfFirstOccurrence(b, "\n", s, e);
  }

  lemma CutMiddle(a: string, x: string, c: string)
    ensures (a + x + c)[|a|..|a| + |x|] == x
    ensures (a + x + c)[..|a|] + (a + x + c)[|a| + |x|..] == a + c
  {
    var b := a + x + c;
    assert b[..|a|] == a;
    assert b[|a| + |x|..] == c;
  }

  /** Consequently the download that follows receives those leading bytes
      ahead of the payload. */
  lemma LeadingBytesReachDownload(pre: string, post: string, size: nat, polls: seq<string>)
    requires polls != [] && |pre| <= size
    ensures Receive(pre + post, size, polls, 0).data[..|pre|] == pre
  {
    ReceiveIsHead(pre + post, size, polls, 0);
    assert polls[0..] == polls;
    var t := pre + post + Concat(polls);
    assert t[..Min(size, |t|)][..|pre|] == pre;
  }

  // ---------------------------------------------------------------------------
  // Raw receive log

  /** The line logged for one read of `raw` bytes: the byte count, then the
      bytes with surrounding whitespace trimmed. */
  function RawRecvLine(raw: string): string
  {
    RawRecvText + Decimal(|raw|) + RawBytesText + TrimStart(TrimEnd(raw))
  }

  /** A READY reply with surrounding whitespace is counted in full and
      logged without it. */
  lemma RawRecvExample()
    ensures RawRecvLine(" READY\r\n") == "[RAW RECV: 8 bytes] READY"
  {
    TrimReadyReply();
    assert Decimal(8) == "8";
  }

  lemma TrimReadyReply()
    ensures TrimStart(TrimEnd(" READY\r\n")) == "READY"
  {
    var raw := " READY\r\n";
    var cut := raw[..|raw| - 1];
    assert cut == " READY\r";
    assert TrimEnd(raw) == TrimEnd(cut);
    assert cut[..|cut| - 1] == " READY";
    assert TrimEnd(raw) == " READY";
    assert LeadingSpace(" READY") == 1;
    assert " READY"[1..] == "READY";
  }

  /** The suppression test as the listener writes it: while a session is
      active, a read of exactly five bytes that is an ACK or a NACK reply. */
  predicate SuppressedAsWritten(raw: string, active: bool)
  {
    active && |raw| == 5 && (raw == AckMsg || raw == NackMsg)
  }

  /** The suppression the listener's comment announces: while a session is
      active, neither an ACK nor a NACK reply is logged raw. */
  predicate Suppressed(raw: string, active: bool)
  {
    active && (raw == AckMsg || raw == NackMsg)
  }

  /** As written, the five-byte guard keeps the six-byte NACK reply from ever
      matching: only an ACK read is suppressed. */
  lemma SuppressedAsWrittenOnlyAck(raw: string, active: bool)
    ensures SuppressedAsWritten(raw, active) <==> active && raw == AckMsg
    ensures !SuppressedAsWritten(NackMsg, true)
  {
    assert |NackMsg| == 6;
  }

  /** The corrected test suppresses exactly what the written one does, and
      additionally the NACK reply. */
  lemma SuppressedExtendsAsWritten(raw: string, active: bool)
    ensures Suppressed(raw, active) <==> SuppressedAsWritten(raw, active) || (active && raw == NackMsg)
    ensures Suppressed(NackMsg, true) && !Suppressed(NackMsg, false)
  {
    SuppressedAsWrittenOnlyAck(raw, active);
  }

  // ---------------------------------------------------------------------------
  // The coordinator

  /** The shared receive buffer, the protocol flag and the listener's
      connection state, with the log and the serial output as traces. */
  class SessionCoordinator {
    var buf: string       // serialMessages
    var active: bool      // protocolActive
    var log: seq<string>  // messages passed to Log, without their timestamps
    var wire: string      // bytes passed to SendData
    var portOpen: bool    // hSerial is a valid handle
    var portName: string  // currentPortName of the listener

    constructor ()
      ensures buf == [] && !active && log == [] && wire == [] && !portOpen && portName == []
    {
      buf, active, log, wire, portOpen, portName := [], false, [], [], false, [];
    }

    /** FlushSerialMessagesToLog: while no session is active, log every
        complete line at the head of the buffer without its CR and keep the
        unterminated tail. */
    method FlushSerialMessagesToLog()
      modifies this`buf, this`log
      ensures active ==> buf == old(buf) && log == old(log)
      ensures !active ==> buf == SplitLines(old(buf)).rest && '\n' !in buf
      ensures !active ==> log == old(log) + LogLines(SplitLines(old(buf)).lines)
    {
      if active {
        return;
      }
      var b := buf;
      ghost var done: seq<string> := [];
      var pos := IndexOf(b, "\n", 0);
      assert [] + SplitLines(b).lines == SplitLines(b).lines;
      while pos.Some?
        invariant pos == IndexOf(b, "\n", 0)
        invariant FlushedSoFar(old(buf), done, b)
        invariant log == old(log) + LogLines(done)
        decreases |b|
      {
        var p := pos.value;
        var raw := b[..p];
        var line := raw;
        if raw != [] && raw[|raw| - 1] == '\r' {
          line := raw[..|raw| - 1];
        }
        assert LogPrefix + line == LogLine(raw);
        assert p < |b| && FlushedSoFar(old(buf), done + [raw], b[p + 1..])
            && log + [LogLine(raw)] == old(log) + LogLines(done + [raw]) by {
          FlushRound(old(buf), done, b, p);
          LogRound(old(log), done, raw);
        }
        log := log + [LogPrefix + line];
        done := done + [raw];
        b := b[p + 1..];
        pos := IndexOf(b, "\n", 0);
      }
      FlushFinished(old(buf), done, b);
      buf := b;
    }

    /** One poll of WaitForPicoResponse: when the token is in the buffer,
        erase everything through its end. */
    method PollForToken(token: string) returns (found: bool)
      modifies this`buf
      ensures found == AfterToken(old(buf), token).Some?
      ensures buf == if found then AfterToken(old(buf), token).value else old(buf)
    {
      match IndexOf(buf, token, 0)
      case None =>
        found := false;
      case Some(pos) =>
        found := true;
        buf := buf[pos + |token|..];
    }

    /** WaitForPicoResponse: check the buffer; while the token is missing
        and the script has chunks left, let the listener append the next
        one and check again; log the buffer on timeout. */
    method WaitForPicoResponse(token: string, errorMsg: string, polls: seq<string>) returns (ok: bool)
      modifies this`buf, this`log
      ensures Extends(log, old(log))
      ensures ok == Await(old(buf), token, polls).found
      ensures buf == Await(old(buf), token, polls).rest
      ensures log == old(log) + (if ok then [] else [errorMsg + TimeoutSuffixText + buf])
    {
      var i := 0;
      while true
        invariant i <= |polls|
        invariant Await(buf, token, polls[i..]) == Await(old(buf), token, polls)
        invariant log == old(log)
        decreases |polls| - i
      {
        ok := PollForToken(token);
        if ok {
          return;
        }
        if i == |polls| {
          log := log + [errorMsg + TimeoutSuffixText + buf];
          return;
        }
        AwaitPoll(buf, token, polls, i);
        buf := buf + polls[i];
        i := i + 1;
      }
    }

    /** The body of UploadFile inside its scope guard. */
    method UploadSession(choice: FileChoice, device: seq<seq<string>>) returns (report: UploadReport)
      modifies this`buf, this`log, this`wire
      ensures UploadReportFits(choice, report)
      ensures wire == old(wire) + if choice.Chosen?
        then UploadHeader(choice.name, |choice.content|) + choice.content[..report.sent] else []
      ensures choice.Chosen? ==> (report.outcome == NoReady <==> !Await([], ReadyMsg, Script(device, 0)).found)
      ensures choice.Chosen? ==> var e := ExpectedUpload(choice.content, device);
        report.outcome == e.outcome && report.sent == e.sent && buf == e.rest
      ensures !choice.Chosen? ==> buf == old(buf) && log == old(log) + [if choice.Canceled? then CanceledText else OpenFailedText]
    {
      if choice.Canceled? {
        log := log + [CanceledText];
        return UploadReport(UploadCanceled, [], 0);
      }
      if choice.Unreadable? {
        log := log + [OpenFailedText];
        return UploadReport(OpenFailed, [], 0);
      }
      report := UploadChosen(choice.name, choice.content, device);
    }

    /** UploadFile once a file was chosen and opened: header, READY, blocks, UPLOAD_OK. */
    method UploadChosen(name: string, content: string, device: seq<seq<string>>) returns (report: UploadReport)
      modifies this`buf, this`log, this`wire
      ensures UploadReportFits(Chosen(name, content), report)
      ensures wire == old(wire) + UploadHeader(name, |content|) + content[..report.sent]
      ensures report.outcome == NoReady <==> !Await([], ReadyMsg, Script(device, 0)).found
      ensures var e := ExpectedUpload(content, device);
        report.outcome == e.outcome && report.sent == e.sent && buf == e.rest
    {
      var size := |content|;
      var header := UploadHeader(name, size);
      buf := [];
      wire := wire + header;
      log := log + [SentCommandText + header[..|header| - 2]];
      buf := [];
      var head := [SendHeader(name, size), AwaitReady];
      var ready := WaitForPicoResponse(ReadyMsg, NoReadyText, Script(device, 0));
      if !ready {
        log := log + [ReadyAbortText];
        report := UploadReport(NoReady, head, 0);
        assert head + [] == head && content[..0] == [];
        ChosenReportFits(name, content, report, []);
        return;
      }
      log := log + [ReadyText];
      var blocks, sent, waits := SendBlocks(content, device);
      if sent < size {
        log := log + [AckAbortText];
        report := UploadReport(NoAck, head + blocks, sent);
        ChosenReportFits(name, content, report, blocks);
        return;
      }
      var confirmed := WaitForPicoResponse(UploadOkMsg, NoUploadOkText, Script(device, waits));
      if confirmed {
        log := log + [UploadedText + Decimal(sent)];
      }
      report := UploadReport(if confirmed then Uploaded else NoUploadOk, UploadSchedule(name, size), sent);
      ChosenReportFits(name, content, report, blocks);
    }

    /** The block loop of UploadFile: blocks of up to 512 bytes, an ACK wait
        after every block but the last, stopping at the first ACK that does
        not come. `waits` is the index of the next token wait of the upload. */
    method SendBlocks(content: string, device: seq<seq<string>>) returns (blocks: seq<Event>, sent: nat, waits: nat)
      modifies this`buf, this`log, this`wire
      ensures waits >= 1 && OnSchedule(blocks, |content|, sent)
      ensures wire == old(wire) + content[..sent]
      ensures sent < |content| ==> blocks != [] && blocks[|blocks| - 1] == AwaitAck
      ensures var run := SendFrom(content, 0, old(buf), device, 1);
        sent == run.sent && buf == run.rest && waits == run.next
    {
      var size := |content|;
      sent := 0;
      var success := true;
      var blockCounter := 0;
      waits := 1;
      blocks := [];
      ghost var run := SendFrom(content, 0, buf, device, 1);
      while sent < size && success
        invariant waits >= 1 && OnSchedule(blocks, size, sent)
        invariant wire == old(wire) + content[..sent]
        invariant !success ==> sent < size && blocks != [] && blocks[|blocks| - 1] == AwaitAck
        invariant sent <= size && OnRun(content, sent, buf, device, waits, success, run)
        decreases size - sent
      {
        blockCounter := blockCounter + 1;
        var before := sent;
        ghost var b, j := buf, waits;
        success, blocks, sent := SendNextBlock(content, sent, blocks, blockCounter, Script(device, waits));
        assert old(wire) + content[..before] + content[before..sent] == old(wire) + (content[..before] + content[before..sent]);
        if sent < size {
          waits := waits + 1;
        }
        RunRound(content, before, b, device, j, run, success, sent, buf);
      }
    }

    /** One round of the block loop: send the next block of up to 512 bytes
        and, when bytes remain after it, wait for its ACK. `blocks` are the
        actions of the rounds before, `next` those including this one. */
    method SendNextBlock(content: string, sent: nat, blocks: seq<Event>, blockCounter: nat, polls: seq<string>)
      returns (acked: bool, next: seq<Event>, sentAfter: nat)
      requires sent < |content| && OnSchedule(blocks, |content|, sent)
      modifies this`buf, this`log, this`wire
      ensures sentAfter == sent + Min(BlockSize, |content| - sent) && OnSchedule(next, |content|, sentAfter)
      ensures wire == old(wire) + content[sent..sentAfter]
      ensures content[..sent] + content[sent..sentAfter] == content[..sentAfter]
      ensures sentAfter < |content| ==> |next| > 0 && next[|next| - 1] == AwaitAck
      ensures sentAfter < |content| ==> var w := Await(old(buf), AckMsg, polls);
        acked == w.found && buf == w.rest
        && log == old(log) + (if acked then [] else [NoAckText + Decimal(blockCounter) + TimeoutSuffixText + buf])
      ensures sentAfter == |content| ==> acked && buf == old(buf) && log == old(log)
    {
      var n := Min(BlockSize, |content| - sent);
      BlockRound(content, sent, blocks);
      wire := wire + content[sent..sent + n];
      next := blocks + RoundEvents(|content| - sent);
      sentAfter := sent + n;
      acked := true;
      if sentAfter < |content| {
        acked := WaitForPicoResponse(AckMsg, NoAckText + Decimal(blockCounter), polls);
      }
    }

    /** UploadFile: the flag is held for the whole session and released,
        followed by a flush, on every exit path. */
    method UploadFile(choice: FileChoice, device: seq<seq<string>>) returns (report: UploadReport)
      modifies this`buf, this`log, this`wire, this`active
      ensures !active && '\n' !in buf
      ensures UploadReportFits(choice, report)
      ensures wire == old(wire) + if choice.Chosen?
        then UploadHeader(choice.name, |choice.content|) + choice.content[..report.sent] else []
      ensures choice.Chosen? ==> (report.outcome == NoReady <==> !Await([], ReadyMsg, Script(device, 0)).found)
      ensures choice.Chosen? ==> var e := ExpectedUpload(choice.content, device);
        report.outcome == e.outcome && report.sent == e.sent && buf == SplitLines(e.rest).rest
      ensures !choice.Chosen? ==> buf == SplitLines(old(buf)).rest
    {
      active := true;
      report := UploadSession(choice, device);
      active := false;
      FlushSerialMessagesToLog();
    }

    /** The download initiation block of the listener: while no session is
        active, cut the first `SEND ` line out of the buffer and log it; the
        trigger line is not looked for inside an existing session. */
    method DetectSendTrigger() returns (command: Option<string>)
      modifies this`buf, this`log
      ensures active || CutTrigger(old(buf)).None? ==>
        command.None? && buf == old(buf) && log == old(log)
      ensures !active && CutTrigger(old(buf)).Some? ==>
        command == Some(CutTrigger(old(buf)).value.command)
        && buf == CutTrigger(old(buf)).value.rest
        && log == old(log) + [CommandPrefix + CutTrigger(old(buf)).value.command]
    {
      command := None;
      if !active {
        var sendPos := IndexOf(buf, SendKeyword, 0);
        if sendPos.Some? {
          var eolPos := IndexOf(buf, "\n", sendPos.value);
          if eolPos.Some? {
            var s, e := sendPos.value, eolPos.value;
            var line := buf[s..e + 1];
            buf := buf[..s] + buf[e + 1..];
            log := log + [CommandPrefix + line];
            command := Some(line);
          }
        }
      }
    }

    /** The receive loop of HandleIncomingSend. */
    method ReceivePayload(size: nat, polls: seq<string>) returns (file: string)
      modifies this`buf, this`log
      ensures file == Receive(old(buf), size, TakeScript(polls), 0).data
      ensures buf == Receive(old(buf), size, TakeScript(polls), 0).rest
      ensures log == old(log)
        + if |file| < size then [DownloadTimeoutText] else []
    {
      var script := TakeScript(polls);
      file := [];
      var received := 0;
      var i := 0;
      var b := buf;
      assert ReceivedSoFar(old(buf), size, script, file, b, i);
      while received < size && i < |script|
        invariant i <= |script| && received == |file| <= size
        invariant ReceivedSoFar(old(buf), size, script, file, b, i)
        invariant log == old(log)
        decreases |script| - i
      {
        var avail := b + script[i];
        var n := Min(|avail|, size - received);
        ReceiveRound(old(buf), size, script, file, b, i);
        file := file + avail[..n];
        received := received + n;
        b := avail[n..];
        i := i + 1;
      }
      ReceiveFinished(old(buf), size, script, file, b, i);
      buf := b;
      if received < size {
        log := log + [DownloadTimeoutText];
      }
    }

    /** Erase the first `END\r\n` in the buffer, wherever it is. */
    method RemoveEndMarker()
      modifies this`buf
      ensures buf == EraseFirst(old(buf), EndMarker)
    {
      var endPos := IndexOf(buf, EndMarker, 0);
      if endPos.Some? {
        buf := buf[..endPos.value] + buf[endPos.value + 5..];
      }
    }

    /** The body of HandleIncomingSend inside its scope guard. */
    method DownloadSession(commandLine: string, env: DownloadEnv) returns (report: DownloadReport)
      modifies this`buf, this`log
      ensures report == ExpectedDownload(commandLine, env, old(buf)).report
      ensures buf == ExpectedDownload(commandLine, env, old(buf)).buf
      ensures Extends(log, old(log))
    {
      var parsed := ParseSend(commandLine);
      if parsed.None? {
        log := log + [MalformedText];
        return DownloadReport(Malformed, []);
      }
      var name, size := parsed.value.name, parsed.value.size;
      if env.folder.None? {
        log := log + [NoFolderText];
        return DownloadReport(NoFolder, []);
      }
      var path := env.folder.value + "\\" + name;
      if !env.canOpen {
        log := log + [CannotOpenText + path];
        return DownloadReport(CannotOpen, []);
      }
      log := log + [ReceivingLine(name, size, path)];
      var file := ReceivePayload(size, env.polls);
      RemoveEndMarker();
      if |file| == size {
        log := log + [DownloadedLine(|file|, path)];
        report := DownloadReport(Complete, file);
      } else {
        log := log + [IncompleteLine(size, |file|)];
        report := DownloadReport(Incomplete, file);
      }
    }

    /** HandleIncomingSend: the flag is held for the whole session and
        released, followed by a flush, on every exit path. */
    method HandleIncomingSend(commandLine: string, env: DownloadEnv) returns (report: DownloadReport)
      modifies this`buf, this`log, this`active
      ensures !active && '\n' !in buf
      ensures report == ExpectedDownload(commandLine, env, old(buf)).report
      ensures buf == SplitLines(ExpectedDownload(commandLine, env, old(buf)).buf).rest
      ensures Extends(log, old(log))
    {
      active := true;
      log := log + [DownloadStartText];
      report := DownloadSession(commandLine, env);
      active := false;
      FlushSerialMessagesToLog();
      log := log + [DownloadEndText];
    }

    /** The connection block of the listener: a port that still answers stays
        connected; otherwise the port the device enumerates on (`found`,
        empty when none) is opened if it `opens`. A successful open on a new
        port logs the detection, a missing device logs the disconnection once. */
    method SuperviseConnection(alive: bool, found: string, opens: bool) returns (connected: bool)
      modifies this`portOpen, this`portName, this`log
      ensures connected == portOpen
      ensures connected <==> (old(portOpen) && alive) || (!(old(portOpen) && alive) && found != [] && opens)
      ensures old(portOpen) && alive ==> portName == old(portName) && log == old(log)
      ensures !(old(portOpen) && alive) && found != [] ==>
        portName == (if opens then found else old(portName))
        && log == old(log) + if opens && old(portName) != found then [DetectedText + found] else []
      ensures !(old(portOpen) && alive) && found == [] ==>
        portName == [] && log == old(log) + if old(portName) != [] then [DisconnectedText] else []
      ensures log != old(log) ==> portName != old(portName)
    {
      connected := false;
      if portOpen {
        if alive {
          connected := true;
        } else {
          portOpen := false;
        }
      }
      if !connected {
        if found != [] {
          if opens {
            portOpen := true;
            connected := true;
            if portName != found {
              log := log + [DetectedText + found];
              portName := found;
            }
          }
        } else {
          if portName != [] {
            log := log + [DisconnectedText];
            portName := [];
          }
        }
      }
    }

    /** The read block of the listener on a connected port: received bytes
        are logged raw (unless suppressed during a session) and appended to
        the buffer, a pending read changes nothing, and a failed read closes
        the port. */
    method ReadSerial(read: ReadResult)
      modifies this`buf, this`portOpen, this`log
      ensures read.ReadBytes? ==>
        buf == old(buf) + read.data && portOpen == old(portOpen)
        && log == old(log) + (if read.data != [] && !Suppressed(read.data, active) then [RawRecvLine(read.data)] else [])
      ensures read.ReadPending? ==> buf == old(buf) && portOpen == old(portOpen) && log == old(log)
      ensures read.ReadFailed? ==>
        buf == old(buf) && !portOpen && log == old(log) + [ReadErrorText + Decimal(read.code) + ReadErrorSuffixText]
    {
      match read
      case ReadBytes(data) =>
        if data != [] && !Suppressed(data, active) {
          log := log + [RawRecvLine(data)];
        }
        buf := buf + data;
      case ReadPending =>
      case ReadFailed(code) =>
        log := log + [ReadErrorText + Decimal(code) + ReadErrorSuffixText];
        portOpen := false;
    }

    /** One cycle of PicoListenerThread: supervise the connection, read when
        connected, then either start a download for a trigger line (run here
        to completion) or flush complete lines, never both in one cycle. */
    method ListenerCycle(alive: bool, found: string, opens: bool, read: ReadResult, env: DownloadEnv)
      returns (connected: bool, command: Option<string>, download: Option<DownloadReport>)
      modifies this`buf, this`log, this`portOpen, this`portName, this`active
      ensures connected <==> (old(portOpen) && alive) || (!(old(portOpen) && alive) && found != [] && opens)
      ensures command.Some? <==> download.Some?
      ensures var fed := if connected && read.ReadBytes? then old(buf) + read.data else old(buf);
        && (old(active) ==> command.None? && buf == fed && active)
        && (!old(active) && CutTrigger(fed).None? ==> command.None? && buf == SplitLines(fed).rest && !active)
        && (!old(active) && CutTrigger(fed).Some? ==>
              var t := CutTrigger(fed).value;
              && command == Some(t.command)
              && download == Some(ExpectedDownload(t.command, env, t.rest).report)
              && buf == SplitLines(ExpectedDownload(t.command, env, t.rest).buf).rest
              && !active)
    {
      connected := SuperviseConnection(alive, found, opens);
      ghost var fed := if connected && read.ReadBytes? then buf + read.data else buf;
      if connected {
        ReadSerial(read);
      }
      assert buf == fed;
      command, download := ServeBuffer(env);
    }

    /** The buffer half of a listener cycle: while no session is active, a
        trigger line starts a download (run here to completion) and otherwise
        complete lines are flushed. */
    method ServeBuffer(env: DownloadEnv) returns (command: Option<string>, download: Option<DownloadReport>)
      modifies this`buf, this`log, this`active
      ensures command.Some? <==> download.Some?
      ensures old(active) ==> command.None? && buf == old(buf) && active
      ensures !old(active) && CutTrigger(old(buf)).None? ==> command.None? && buf == SplitLines(old(buf)).rest && !active
      ensures !old(active) && CutTrigger(old(buf)).Some? ==>
        var t := CutTrigger(old(buf)).value;
        && command == Some(t.command)
        && download == Some(ExpectedDownload(t.command, env, t.rest).report)
        && buf == SplitLines(ExpectedDownload(t.command, env, t.rest).buf).rest
        && !active
    {
      command := DetectSendTrigger();
      download := None;
      if command.Some? {
        var report := HandleIncomingSend(command.value, env);
        download := Some(report);
      } else {
        FlushSerialMessagesToLog();
      }
    }
  }
}
