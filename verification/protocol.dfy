/** The wire protocol shared by both prototype versions: the upload header line,
    the 512-byte block schedule of an upload, and the `keyword name size`
    command-line parse the download handler applies to a `SEND` trigger. */
module Protocol {
  import opened Bytes

  const BlockSize: nat := 512

  /** `size_t` is 64 bits wide: `>> size_t` sets failbit on larger values. */
  const SizeLimit: nat := 0x1_0000_0000_0000_0000

  function Min(a: nat, b: nat): nat
  {
    if a <= b then a else b
  }

  function Sum(bs: seq<nat>): nat
  {
    if bs == [] then 0 else bs[0] + Sum(bs[1..])
  }

  lemma {:induction false} SumAppend(xs: seq<nat>, ys: seq<nat>)
    ensures Sum(xs + ys) == Sum(xs) + Sum(ys)
  {
    if xs == [] {
      assert xs + ys == ys;
    } else {
      assert (xs + ys)[1..] == xs[1..] + ys;
      SumAppend(xs[1..], ys);
    }
  }

  /** The sizes of the successive `file.read(buffer, BLOCK_SIZE)` results for a
      file of `size` bytes: full blocks, then whatever is left. */
  function Blocks(size: nat): seq<nat>
    decreases size
  {
    if size == 0 then [] else
      var n := Min(BlockSize, size);
      [n] + Blocks(size - n)
  }

  /** The number of ACK waits in an upload of `size` bytes: one after every
      block but the last. */
  function AckWaits(size: nat): (r: nat)
    ensures size == 0 ==> r == 0
    ensures size > 0 ==> r + 1 == |Blocks(size)|
    decreases size
  {
    if size <= BlockSize then 0 else 1 + AckWaits(size - BlockSize)
  }

  /** The blocks cover the file exactly: every block but the last is 512
      bytes, the last holds 1 to 512, and their sizes add up to the file size. */
  lemma {:induction false} BlocksShape(size: nat)
    ensures Sum(Blocks(size)) == size
    ensures |Blocks(size)| == (size + BlockSize - 1) / BlockSize
    ensures forall i :: 0 <= i < |Blocks(size)| - 1 ==> Blocks(size)[i] == BlockSize
    ensures size > 0 ==> 0 < Blocks(size)[|Blocks(size)| - 1] <= BlockSize
  {
    if size > 0 {
      var n := Min(BlockSize, size);
      BlocksShape(size - n);
      var bs := Blocks(size);
      assert bs[1..] == Blocks(size - n);
    }
  }

  /** Bytes sent once the first `k` blocks are out. */
  function SentAfter(size: nat, k: nat): nat
    requires k <= |Blocks(size)|
  {
    Sum(Blocks(size)[..k])
  }

  /** The upload loop waits for an ACK after block `i` exactly when the bytes
      sent so far are still short of the file size, that is after every block
      but the last. */
  lemma {:induction false} AckFollowsBlockIff(size: nat, i: nat)
    requires i < |Blocks(size)|
    ensures SentAfter(size, i + 1) < size <==> i < |Blocks(size)| - 1
  {
    var bs := Blocks(size);
    assert bs == bs[..i + 1] + bs[i + 1..];
    SumAppend(bs[..i + 1], bs[i + 1..]);
    BlocksShape(size);
    if i < |bs| - 1 {
      assert bs[i + 1..] == [bs[i + 1]] + bs[i + 2..];
      assert bs[i + 1] > 0 by {
        if i + 1 < |bs| - 1 { assert bs[i + 1] == BlockSize; }
      }
    }
  }

  /** One action of an upload session, as seen on the wire. */
  datatype Event =
    | SendHeader(name: string, size: nat)   // the UPLOAD header line for this file
    | AwaitReady
    | SendBlock(bytes: nat)
    | AwaitAck
    | AwaitUploadOk

  /** The block loop for `rem` bytes still to send: a block, then an ACK wait
      if bytes remain after it. */
  function BlockPhase(rem: nat): seq<Event>
    decreases rem
  {
    if rem == 0 then [] else
      var n := Min(BlockSize, rem);
      [SendBlock(n)] + (if rem - n > 0 then [AwaitAck] + BlockPhase(rem - n) else [])
  }

  /** The block loop alternates blocks and ACK waits: block k stands at
      position 2k with the k-th size of `Blocks`, an ACK wait follows every
      block but the last, and nothing follows the last block. */
  lemma {:induction false} BlockPhaseInterleaves(size: nat)
    ensures size == 0 ==> BlockPhase(size) == []
    ensures size > 0 ==> |BlockPhase(size)| == 2 * |Blocks(size)| - 1
    ensures forall k :: 0 <= k < |Blocks(size)| ==> BlockPhase(size)[2 * k] == SendBlock(Blocks(size)[k])
    ensures forall k :: 0 <= k < |Blocks(size)| - 1 ==> BlockPhase(size)[2 * k + 1] == AwaitAck
  {
    if size > 0 {
      var n := Min(BlockSize, size);
      BlockPhaseInterleaves(size - n);
      var bs, ph := Blocks(size), BlockPhase(size);
      assert bs[1..] == Blocks(size - n);
      if size - n > 0 {
        assert ph == [SendBlock(n), AwaitAck] + BlockPhase(size - n);
        forall k | 1 <= k < |bs| ensures ph[2 * k] == SendBlock(bs[k]) {
          assert ph[2 * k] == BlockPhase(size - n)[2 * (k - 1)];
        }
        forall k | 1 <= k < |bs| - 1 ensures ph[2 * k + 1] == AwaitAck {
          assert ph[2 * k + 1] == BlockPhase(size - n)[2 * (k - 1) + 1];
        }
      }
    }
  }

  /** The total of the block sizes in a trace: the payload bytes it puts on the wire. */
  function PayloadOf(trace: seq<Event>): nat
  {
    if trace == [] then 0
    else (if trace[0].SendBlock? then trace[0].bytes else 0) + PayloadOf(trace[1..])
  }

  lemma {:induction false} PayloadOfAppend(xs: seq<Event>, ys: seq<Event>)
    ensures PayloadOf(xs + ys) == PayloadOf(xs) + PayloadOf(ys)
  {
    if xs == [] {
      assert xs + ys == ys;
    } else {
      assert (xs + ys)[1..] == xs[1..] + ys;
      PayloadOfAppend(xs[1..], ys);
    }
  }

  /** The block loop puts exactly the file's bytes on the wire. */
  lemma {:induction false} BlockPhasePayload(rem: nat)
    ensures PayloadOf(BlockPhase(rem)) == rem
  {
    if rem > 0 {
      var n := Min(BlockSize, rem);
      var tail := if rem - n > 0 then [AwaitAck] + BlockPhase(rem - n) else [];
      PayloadOfAppend([SendBlock(n)], tail);
      if rem - n > 0 {
        PayloadOfAppend([AwaitAck], BlockPhase(rem - n));
        BlockPhasePayload(rem - n);
      }
    }
  }

  /** A 1500-byte file goes out as 512, 512 and 476 bytes, with an ACK wait
      after the first two blocks only. */
  lemma Upload1500Schedule()
    ensures Blocks(1500) == [512, 512, 476]
    ensures BlockPhase(1500) == [SendBlock(512), AwaitAck, SendBlock(512), AwaitAck, SendBlock(476)]
  {
    Blocks1500();
    BlockPhase1500();
  }

  lemma Blocks1500()
    ensures Blocks(1500) == [512, 512, 476]
  {
    assert Blocks(0) == [];
    assert Blocks(476) == [476];
    assert Blocks(988) == [512, 476];
  }

  lemma BlockPhase1500()
    ensures BlockPhase(1500) == [SendBlock(512), AwaitAck, SendBlock(512), AwaitAck, SendBlock(476)]
  {
    assert BlockPhase(0) == [];
    assert BlockPhase(476) == [SendBlock(476)];
    assert BlockPhase(988) == [SendBlock(512), AwaitAck, SendBlock(476)];
  }

  /** `cmd << "UPLOAD " << filename << " " << filesize << "\r\n"`. */
  function UploadHeader(name: string, size: nat): string
  {
    "UPLOAD " + name + " " + Decimal(size) + "\r\n"
  }

  /** Every action of a complete upload, in order. */
  function UploadSchedule(name: string, size: nat): seq<Event>
  {
    [SendHeader(name, size), AwaitReady] + BlockPhase(size) + [AwaitUploadOk]
  }

  /** What one ReadFile call on the port returned: the bytes read (possibly
      none), a pending read, or a failure with its error code. */
  datatype ReadResult = ReadBytes(data: string) | ReadPending | ReadFailed(code: nat)

  /** The prefix relation on traces. */
  lemma PrefixOfAppend<T>(a: seq<T>, b: seq<T>)
    ensures a <= a + b
  {
    assert (a + b)[..|a|] == a;
  }

  /** `keyword name size`, the three fields of a control line. */
  datatype CommandLine = CommandLine(keyword: string, name: string, size: nat)

  /** `ss >> command >> filename >> size` on a stringstream over `line`: three
      whitespace-separated tokens, the third an unsigned decimal that fits in
      `size_t`. Tokens after the third are ignored. */
  function ParseCommandLine(line: string): (r: Option<CommandLine>)
    ensures r.Some? ==> r.value.keyword != [] && r.value.name != [] && r.value.size < SizeLimit
    ensures r.Some? ==> NoSpace(r.value.keyword) && NoSpace(r.value.name)
  {
    var ts := Tokens(line);
    if |ts| < 3 || !AllDigits(ts[2]) then None
    else if DigitsValue(ts[2]) >= SizeLimit then None
    else Some(CommandLine(ts[0], ts[1], DigitsValue(ts[2])))
  }

  /** A well-formed control line `keyword name size\r\n` parses back to its fields. */
  lemma ControlLineRoundTrip(keyword: string, name: string, size: nat)
    requires keyword != [] && NoSpace(keyword) && name != [] && NoSpace(name)
    requires size < SizeLimit
    ensures ParseCommandLine(keyword + " " + name + " " + Decimal(size) + "\r\n")
      == Some(CommandLine(keyword, name, size))
  {
    DecimalRoundTrip(size);
    DigitsHaveNoSpace(Decimal(size));
    ControlLineTokens(keyword, name, Decimal(size));
  }

  lemma ControlLineTokens(keyword: string, name: string, digits: string)
    requires keyword != [] && NoSpace(keyword) && name != [] && NoSpace(name)
    requires digits != [] && NoSpace(digits)
    ensures Tokens(keyword + " " + name + " " + digits + "\r\n") == [keyword, name, digits]
  {
    var t0 := keyword + ([' '] + (name + ([' '] + (digits + "\r\n"))));
    TokensOfThreeWords(keyword, name, digits);
    Reassociate(keyword, name, digits);
  }

  lemma Reassociate(keyword: string, name: string, digits: string)
    ensures keyword + " " + name + " " + digits + "\r\n"
      == keyword + ([' '] + (name + ([' '] + (digits + "\r\n"))))
  {
  }

  lemma TokensOfThreeWords(keyword: string, name: string, digits: string)
    requires keyword != [] && NoSpace(keyword) && name != [] && NoSpace(name)
    requires digits != [] && NoSpace(digits)
    ensures Tokens(keyword + ([' '] + (name + ([' '] + (digits + "\r\n"))))) == [keyword, name, digits]
  {
    var crlf := "\r\n";
    TokensOfCrLf();
    var t2 := digits + crlf;
    TokensOfWord(digits, crlf);
    var s2 := [' '] + t2;
    TokensSkipSpace(' ', t2);
    var t1 := name + s2;
    TokensOfWord(name, s2);
    var s1 := [' '] + t1;
    TokensSkipSpace(' ', t1);
    TokensOfWord(keyword, s1);
  }

  lemma TokensOfCrLf()
    ensures Tokens("\r\n") == []
  {
    assert "\r\n" == ['\r'] + "\n";
    TokensSkipSpace('\r', "\n");
    assert "\n" == ['\n'] + "";
    TokensSkipSpace('\n', "");
  }

  /** The upload header is a control line the device reads back as
      `UPLOAD`, the file name and the file size. */
  lemma UploadHeaderRoundTrip(name: string, size: nat)
    requires name != [] && NoSpace(name) && size < SizeLimit
    ensures ParseCommandLine(UploadHeader(name, size)) == Some(CommandLine("UPLOAD", name, size))
  {
    assert UploadHeader(name, size) == "UPLOAD" + " " + name + " " + Decimal(size) + "\r\n";
    ControlLineRoundTrip("UPLOAD", name, size);
  }

  // ---------------------------------------------------------------------------
  // Upload sessions

  /** What the file dialog and the file open produced. */
  datatype FileChoice = Canceled | Unreadable | Chosen(name: string, content: string)

  datatype UploadOutcome = UploadCanceled | OpenFailed | NoReady | NoAck | NoUploadOk | Uploaded

  /** How an upload ended, the protocol actions it performed and the payload bytes it sent. */
  datatype UploadReport = UploadReport(outcome: UploadOutcome, trace: seq<Event>, sent: nat)

  /** The outcome of a token wait: whether the token came and the buffer after it. */
  datatype WaitResult = WaitResult(found: bool, rest: string)

  /** How far the block loop of an upload got: whether every ACK came, the
      payload bytes sent, the buffer left and the index of the next token wait. */
  datatype BlockRun = BlockRun(acked: bool, sent: nat, rest: string, next: nat)

  /** What an upload of a chosen file does on the link: its outcome, the
      payload bytes sent and the buffer it leaves. */
  datatype UploadEffect = UploadEffect(outcome: UploadOutcome, sent: nat, rest: string)

  /** The arrivals that feed the j-th token wait of an upload (none once the script runs out). */
  function Script(device: seq<seq<string>>, j: nat): seq<string>
  {
    if j < |device| then device[j] else []
  }

  /** What an upload report can say for a file choice: a cancelled or
      unreadable choice does nothing; otherwise the actions are a prefix of
      the full schedule, a missing READY stops before any block, a missing
      ACK stops right after that ACK wait, and UPLOAD_OK is awaited only
      after every block went out. */
  predicate UploadReportFits(choice: FileChoice, r: UploadReport)
  {
    && (choice.Canceled? <==> r.outcome == UploadCanceled)
    && (choice.Unreadable? <==> r.outcome == OpenFailed)
    && (!choice.Chosen? ==> r.trace == [] && r.sent == 0)
    && (choice.Chosen? ==> ChosenFits(choice.name, choice.content, r))
  }

  /** The part of UploadReportFits for a file that was chosen and opened. */
  predicate ChosenFits(name: string, content: string, r: UploadReport)
  {
    var schedule := UploadSchedule(name, |content|);
    && r.trace <= schedule && |r.trace| >= 2
    && r.sent == PayloadOf(r.trace) <= |content|
    && (r.outcome == NoReady ==> r.trace == schedule[..2])
    && (r.outcome == NoAck ==> |r.trace| > 2 && r.trace[|r.trace| - 1] == AwaitAck)
    && (r.outcome == NoUploadOk || r.outcome == Uploaded ==>
          r.trace == schedule && r.sent == |content|)
  }

  /** The actions of one round of the block loop with `rem` bytes left: the
      next block, and an ACK wait when bytes remain after it. */
  function RoundEvents(rem: nat): seq<Event>
    requires rem > 0
  {
    var n := Min(BlockSize, rem);
    if rem - n > 0 then [SendBlock(n), AwaitAck] else [SendBlock(n)]
  }

  /** `blocks` are the actions of the rounds of the block loop that sent the
      first `sent` of `size` bytes: the rest of the block phase follows them. */
  predicate OnSchedule(blocks: seq<Event>, size: nat, sent: nat)
  {
    sent <= size && PayloadOf(blocks) == sent && blocks + BlockPhase(size - sent) == BlockPhase(size)
  }

  /** The block phase starts with the actions of one round. */
  lemma BlockPhaseStep(rem: nat)
    requires rem > 0
    ensures var n := Min(BlockSize, rem);
      BlockPhase(rem) == RoundEvents(rem) + BlockPhase(rem - n)
      && PayloadOf(RoundEvents(rem)) == n
  {
    var n := Min(BlockSize, rem);
    if rem - n > 0 {
      assert BlockPhase(rem) == [SendBlock(n)] + ([AwaitAck] + BlockPhase(rem - n));
      assert PayloadOf([SendBlock(n), AwaitAck]) == n + PayloadOf([AwaitAck]);
    } else {
      assert BlockPhase(rem - n) == [];
    }
  }

  /** One round of the block loop follows the schedule: its actions are the
      next ones of the block phase, and its block is the next slice of the file. */
  lemma BlockRound(content: string, sent: nat, blocks: seq<Event>)
    requires sent < |content| && OnSchedule(blocks, |content|, sent)
    ensures var n := Min(BlockSize, |content| - sent);
      var next := blocks + RoundEvents(|content| - sent);
      && 0 < n && sent + n <= |content|
      && content[..sent] + content[sent..sent + n] == content[..sent + n]
      && OnSchedule(next, |content|, sent + n)
      && next[|next| - 1] == if sent + n < |content| then AwaitAck else SendBlock(n)
  {
    var rem, n := |content| - sent, Min(BlockSize, |content| - sent);
    BlockPhaseStep(rem);
    assert blocks + (RoundEvents(rem) + BlockPhase(rem - n)) == (blocks + RoundEvents(rem)) + BlockPhase(rem - n);
    PayloadOfAppend(blocks, RoundEvents(rem));
    assert content[..sent] + content[sent..sent + n] == content[..sent + n];
  }

  /** The actions of an upload that got through the first `sent` bytes of
      its block loop: a prefix of the schedule carrying `sent` payload bytes,
      the whole schedule once every byte is out. */
  lemma UploadTraceFits(name: string, size: nat, blocks: seq<Event>, sent: nat)
    requires OnSchedule(blocks, size, sent)
    ensures var head := [SendHeader(name, size), AwaitReady];
      && UploadSchedule(name, size)[..2] == head
      && head + blocks <= UploadSchedule(name, size)
      && PayloadOf(head + blocks) == sent
      && (sent == size ==> head + blocks + [AwaitUploadOk] == UploadSchedule(name, size))
      && (sent == size ==> PayloadOf(UploadSchedule(name, size)) == size)
  {
    var head := [SendHeader(name, size), AwaitReady];
    var tail := BlockPhase(size - sent) + [AwaitUploadOk];
    ScheduleAfterBlocks(name, size, blocks, sent);
    PrefixOfAppend(head + blocks, tail);
    PayloadOfAppend(head, blocks);
    assert PayloadOf(head) == 0 by {
      assert head[1..] == [AwaitReady] && head[1..][1..] == [];
    }
    if sent == size {
      assert tail == [AwaitUploadOk];
      PayloadOfAppend(head + blocks, [AwaitUploadOk]);
      assert PayloadOf([AwaitUploadOk]) == 0;
    }
  }

  /** The schedule is the header actions, the rounds so far and the rest. */
  lemma ScheduleAfterBlocks(name: string, size: nat, blocks: seq<Event>, sent: nat)
    requires OnSchedule(blocks, size, sent)
    ensures UploadSchedule(name, size)
      == ([SendHeader(name, size), AwaitReady] + blocks) + (BlockPhase(size - sent) + [AwaitUploadOk])
  {
    var head := [SendHeader(name, size), AwaitReady];
    assert head + (blocks + BlockPhase(size - sent)) == (head + blocks) + BlockPhase(size - sent);
    assert (head + blocks) + (BlockPhase(size - sent) + [AwaitUploadOk]) == (head + blocks + BlockPhase(size - sent)) + [AwaitUploadOk];
  }

  /** The report of an upload that got past the file choice fits it. */
  lemma ChosenReportFits(name: string, content: string, r: UploadReport, blocks: seq<Event>)
    requires r.outcome != UploadCanceled && r.outcome != OpenFailed
    requires OnSchedule(blocks, |content|, r.sent)
    requires r.outcome == NoReady ==> blocks == []
    requires r.outcome == NoAck ==> r.sent < |content| && blocks != [] && blocks[|blocks| - 1] == AwaitAck
    requires r.outcome == NoReady || r.outcome == NoAck ==>
      r.trace == [SendHeader(name, |content|), AwaitReady] + blocks
    requires r.outcome == NoUploadOk || r.outcome == Uploaded ==>
      r.sent == |content| && r.trace == UploadSchedule(name, |content|)
    ensures ChosenFits(name, content, r)
  {
    UploadTraceFits(name, |content|, blocks, r.sent);
    if r.outcome == NoReady {
      assert blocks == [] && r.trace == [SendHeader(name, |content|), AwaitReady];
    }
  }
}
