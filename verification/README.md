# PicoLink host-side transfer protocol, in Dafny

PicoLink is a Windows host program that talks to a Raspberry Pi Pico over a
USB serial port. A listener thread polls the port and appends every byte read
to a shared text buffer (`serialMessages`). The user can upload a file to the
device. The device can push a file to the host by sending a `SEND <name>
<size>` line. Two prototypes of the host exist. This project models the
transfer-protocol core of both, one module each:

- `PicoLinkV1` (`picolink_v1.dfy`) models `PICOLINKV1.cpp`. The tokens carry
  their CRLF (`"ACK\r\n"`). A `protocolActive` flag stops the flusher while a
  transfer runs. Upload and download both run under a scope guard that clears
  the flag and flushes the buffer. The listener logs complete lines (`[PICO]`),
  logs each read raw, and detects `SEND` lines to start a download.
- `PicoLinkV2` (`picolink_v2.dfy`) models `PICOLINKV2.cpp`. The tokens are bare
  (`"ACK"`). A wait consumes through the end of the line holding the token.
  The flusher logs and clears the whole buffer every listener cycle. The
  listener logs connection transitions on the fixed port `COM4`.
- `Protocol` (`protocol.dfy`) holds what both versions share:
  - the 512-byte block schedule and the ACK after every block but the last;
  - the `UPLOAD <name> <size>\r\n` header;
  - the parse of a control line by `operator>>`;
  - the upload outcome report.
- `Bytes` (`bytes.dfy`) holds `std::string::find`, stream tokenising, decimal
  text and whitespace trimming.

Each version's global state becomes a class, `SessionCoordinator` (V1) and
`Coordinator` (V2). Its fields are:

- the receive buffer;
- the protocol flag (V1 only);
- the log, one string per `Log` call;
- `wire`, the bytes written to the port;
- the port state.

Every method that changes the buffer states the new buffer in terms of a
specification function of the old buffer and the poll scripts. Lemmas prove
the properties of those functions.

Time is modelled as fuel. A wait receives a *poll script*: a sequence of the
chunks that arrive before each poll. A wait checks the buffer before each
poll, so a token already buffered is found even with an empty script. When
the script runs out and the token is still missing, the wait has timed out.
The download's receive loop always makes its first pass, because its clock
starts just before it. An empty script stands for one pass at which nothing
new has arrived. An upload receives one script per wait (`device`): script 0
for READY, then one per ACK, then one for UPLOAD_OK. The upload returns an
`UploadReport` whose outcome and bytes sent are those of
`ExpectedUpload(content, device)`, the upload the device's replies determine.
The report holds:

- its outcome;
- the trace of protocol events it performed;
- the payload bytes sent.

Every report is proved to fit the protocol. Its trace is a prefix of the full
schedule `UploadSchedule(name, size)`: header, READY, then blocks of 512 bytes
with an ACK wait between consecutive blocks, then UPLOAD_OK. A completed
transfer has sent the whole file. The bytes written to the port are the header
followed by exactly the first `sent` bytes of the file.

## Model

| member | source | states |
|---|---|---|
| Bytes.IndexOf | PICOLINKV1/PICOLINKV1/PICOLINKV1.cpp:378 | `find` returns the first index at or after `from` where the pattern occurs, and none when there is no such index |
| Bytes.IndexOfCharIsFirst | PICOLINKV1/PICOLINKV1/PICOLINKV1.cpp:235 | searching for `'\n'` yields the first newline; with no result there is no newline in the searched part |
| Bytes.Word | PICOLINKV1/PICOLINKV1/PICOLINKV1.cpp:585 | a word extracted by `>>` is the longest space-free prefix: it is followed by whitespace or ends the input |
| Bytes.Tokens | PICOLINKV1/PICOLINKV1/PICOLINKV1.cpp:585 | every token read by successive `>>` is non-empty and contains no whitespace |
| Bytes.TokensOfWord | PICOLINKV1/PICOLINKV1/PICOLINKV1.cpp:585 | a word followed by whitespace is read as exactly that one token |
| Bytes.TokensSkipSpace | PICOLINKV1/PICOLINKV1/PICOLINKV1.cpp:585 | leading whitespace before a token is skipped |
| Bytes.DecimalRoundTrip | PICOLINKV1/PICOLINKV1/PICOLINKV1.cpp:444 | the decimal text `<<` writes for a size is a non-empty digit string that reads back as the same number |
| Bytes.EraseFirst | PICOLINKV1/PICOLINKV1/PICOLINKV1.cpp:649-652 | text without the pattern is unchanged; otherwise exactly its first occurrence is cut out, leaving the text before it followed by the text after it |
| Bytes.TrimEnd | PICOLINKV1/PICOLINKV1/PICOLINKV1.cpp:779-781 | the trimmed text is a prefix that does not end in whitespace, and everything cut off is whitespace |
| Bytes.LeadingSpace | PICOLINKV1/PICOLINKV1/PICOLINKV1.cpp:782-784 | the count of leading characters trimmed off covers only whitespace and stops at the first non-space |
| Protocol.BlocksShape | PICOLINKV1/PICOLINKV1/PICOLINKV1.cpp:490-498 | the blocks read from a file sum to its size; there are ceil(size/512) of them, all 512 bytes except a last one of 1..512 |
| Protocol.AckFollowsBlockIff | PICOLINKV1/PICOLINKV1/PICOLINKV1.cpp:500-505 | an ACK is awaited after block i if and only if block i is not the last one |
| Protocol.AckWaits | PICOLINKV1/PICOLINKV1/PICOLINKV1.cpp:498-504 | an upload makes one ACK wait per block but the last: none for an empty file, one fewer than the blocks otherwise |
| Protocol.BlockPhaseInterleaves | PICOLINKV1/PICOLINKV1/PICOLINKV1.cpp:490-507 | the block phase alternates block k and an ACK wait, with no wait after the last block and no event for an empty file |
| Protocol.BlockPhasePayload | PICOLINKV1/PICOLINKV1/PICOLINKV1.cpp:497-498 | the blocks of the phase carry exactly the remaining bytes |
| Protocol.Upload1500Schedule | PICOLINKV1/PICOLINKV1/PICOLINKV1.cpp:490-507 | a 1500-byte file goes out as blocks of 512, 512 and 476 bytes, with ACK waits after the first two |
| Protocol.ParseCommandLine | PICOLINKV1/PICOLINKV1/PICOLINKV1.cpp:585 | a parsed control line has a non-empty space-free keyword and name, and a size that fits in `size_t` |
| Protocol.ControlLineRoundTrip | PICOLINKV1/PICOLINKV1/PICOLINKV1.cpp:583-585 | a line `<keyword> <name> <size>\r\n` parses back to exactly its keyword, name and size |
| Protocol.UploadHeaderRoundTrip | PICOLINKV1/PICOLINKV1/PICOLINKV1.cpp:443-445 | the UPLOAD header the host writes parses back to `UPLOAD`, the file name and its size |
| Protocol.BlockRound | PICOLINKV1/PICOLINKV1/PICOLINKV1.cpp:491-506 | one loop round sends the next min(512, rest) bytes and keeps the trace on the schedule, ending in an ACK wait unless the file is done |
| Protocol.UploadTraceFits | PICOLINKV1/PICOLINKV1/PICOLINKV1.cpp:443-519 | a trace of header, READY and scheduled blocks is a prefix of the upload schedule carrying the bytes sent; with UPLOAD_OK added after the last block it is the whole schedule |
| Protocol.ChosenReportFits | PICOLINKV1/PICOLINKV1/PICOLINKV1.cpp:476-519 | each way the upload ends yields a report that fits the schedule: no READY stops after the READY wait, a missing ACK stops on an ACK wait, UPLOAD_OK is awaited only after the whole file |
| PicoLinkV1.SplitLinesSound | PICOLINKV1/PICOLINKV1/PICOLINKV1.cpp:232-246 | the lines taken off the buffer, rejoined with `'\n'`, followed by the rest give back the buffer; no line and no rest holds a `'\n'` |
| PicoLinkV1.NoNewlineNoLines | PICOLINKV1/PICOLINKV1/PICOLINKV1.cpp:234 | a buffer without a newline yields no line and stays as it is |
| PicoLinkV1.FlushIdempotent | PICOLINKV1/PICOLINKV1/PICOLINKV1.cpp:220-247 | flushing what a flush leaves behind takes off nothing more |
| PicoLinkV1.FlushStep | PICOLINKV1/PICOLINKV1/PICOLINKV1.cpp:234-245 | one round takes the text before the first newline as a line and continues after the newline |
| PicoLinkV1.LogLines | PICOLINKV1/PICOLINKV1/PICOLINKV1.cpp:238-243 | one log entry per line, in order, each `[PICO] ` followed by the line without a trailing CR |
| PicoLinkV1.FlushTwoLines | PICOLINKV1/PICOLINKV1/PICOLINKV1.cpp:232-246 | `A\r\nB\r\n` is logged as `[PICO] A` and `[PICO] B` and leaves an empty buffer |
| PicoLinkV1.AfterToken | PICOLINKV1/PICOLINKV1/PICOLINKV1.cpp:378-384 | a token is consumed if and only if it occurs, and then the buffer keeps exactly what follows its first occurrence |
| PicoLinkV1.ReadyConsumesThroughToken | PICOLINKV1/PICOLINKV1/PICOLINKV1.cpp:378-384 | `garbage READY\r\nmore` waited on for READY leaves `more` |
| PicoLinkV1.AwaitFindsIff | PICOLINKV1/PICOLINKV1/PICOLINKV1.cpp:373-398 | the buffer is checked before every timeout test, so a wait succeeds if and only if the token occurs in the buffer followed by everything that arrived, even with no poll; on timeout all of that stays buffered |
| PicoLinkV1.AwaitStopsAtFirstHit | PICOLINKV1/PICOLINKV1/PICOLINKV1.cpp:376-384 | a wait ends at the first poll after which the token is present and cuts the buffer after its first occurrence; later arrivals are not read |
| PicoLinkV1.AwaitLoneToken | PICOLINKV1/PICOLINKV1/PICOLINKV1.cpp:376-384 | a token arriving alone in an empty buffer is consumed whole |
| PicoLinkV1.SendFrom | PICOLINKV1/PICOLINKV1/PICOLINKV1.cpp:489-507 | from any point of the block loop the bytes sent only grow, up to the file size, and the loop ends acknowledged exactly when the whole file was sent |
| PicoLinkV1.ExpectedUpload | PICOLINKV1/PICOLINKV1/PICOLINKV1.cpp:475-519 | the outcome the device's replies give: no READY sends nothing, a missing ACK stops short of the file, UPLOAD_OK is awaited (with success or timeout) only after the whole file |
| PicoLinkV1.AnsweredAcksSendAll | PICOLINKV1/PICOLINKV1/PICOLINKV1.cpp:489-507 | when each ACK wait is answered by one ACK, the loop sends the whole rest of the file, using exactly one script per ACK |
| PicoLinkV1.CooperativeDeviceUploads | PICOLINKV1/PICOLINKV1/PICOLINKV1.cpp:474-519 | a device that answers READY, every ACK and UPLOAD_OK with one message each receives the whole file, and the upload succeeds with an empty buffer |
| PicoLinkV1.BufferedAckAnswers | PICOLINKV1/PICOLINKV1/PICOLINKV1.cpp:379-384 | an ACK read in the same chunk as READY stays buffered and answers the first ACK wait: a two-block file is sent whole and only the UPLOAD_OK wait times out |
| PicoLinkV1.SendTrigger | PICOLINKV1/PICOLINKV1/PICOLINKV1.cpp:804-806 | a trigger spans from the first `SEND ` through the first newline after it; there is none when either is missing |
| PicoLinkV1.CutTrigger | PICOLINKV1/PICOLINKV1/PICOLINKV1.cpp:804-809 | the command is the triggered span and the buffer keeps everything before and after it |
| PicoLinkV1.TriggerKeepsLeadingBytes | PICOLINKV1/PICOLINKV1/PICOLINKV1.cpp:804-809 | bytes before the `SEND` line, when no `SEND ` starts among them, stay at the head of the buffer once the command line is cut out |
| PicoLinkV1.ParseSend | PICOLINKV1/PICOLINKV1/PICOLINKV1.cpp:583-588 | an accepted command line has keyword `SEND`, a space-free name and a size that fits in `size_t` |
| PicoLinkV1.SendLineRoundTrip | PICOLINKV1/PICOLINKV1/PICOLINKV1.cpp:583-588 | a `SEND <name> <size>\r\n` line is accepted with exactly that name and size |
| PicoLinkV1.SendExample | PICOLINKV1/PICOLINKV1/PICOLINKV1.cpp:583-585 | `SEND a.txt 4\r\n` parses as file `a.txt` of 4 bytes |
| PicoLinkV1.ReceiveBounds | PICOLINKV1/PICOLINKV1/PICOLINKV1.cpp:618-642 | the receive loop never writes more than the announced size and uses no more polls than it has; a loop that stopped short used every poll and left the buffer empty |
| PicoLinkV1.ReceiveConserves | PICOLINKV1/PICOLINKV1/PICOLINKV1.cpp:618-642 | nothing is lost or invented: file written plus buffer left equals old buffer plus everything that arrived during the polls used |
| PicoLinkV1.ReceiveIsHead | PICOLINKV1/PICOLINKV1/PICOLINKV1.cpp:618-642 | the file written is the head, of the announced size or shorter, of the buffer followed by all later arrivals |
| PicoLinkV1.DownloadAnyFragmentation | PICOLINKV1/PICOLINKV1/PICOLINKV1.cpp:618-642 | however the payload and trailer are split across reads, the file written is exactly the payload |
| PicoLinkV1.EndMarkerErasedAnywhere | PICOLINKV1/PICOLINKV1/PICOLINKV1.cpp:646-653 | an `END\r\n` marker is removed wherever it stands, when no earlier marker starts before it |
| PicoLinkV1.ExpectedDownload | PICOLINKV1/PICOLINKV1/PICOLINKV1.cpp:562-661 | a malformed command exactly when the line does not parse; no file and an untouched buffer on each setup error; complete exactly when the command parsed, the folder exists, the file opens and the announced size was received; incomplete only when short; the receive always makes its first pass |
| PicoLinkV1.TakeScript | PICOLINKV1/PICOLINKV1/PICOLINKV1.cpp:615-640 | the receive loop polls at least once, since its 30-second test cannot fire on the first pass; a non-empty script is polled as it is |
| PicoLinkV1.TakeScriptArrivals | PICOLINKV1/PICOLINKV1/PICOLINKV1.cpp:615-640 | the polls of the receive loop carry exactly the arrivals of the script |
| PicoLinkV1.DownloadIsHead | PICOLINKV1/PICOLINKV1/PICOLINKV1.cpp:615-640 | a download with its file open writes the head of the buffer followed by every arrival, of the announced size or shorter, for any script including an empty one |
| PicoLinkV1.BufferedPayloadDownloads | PICOLINKV1/PICOLINKV1/PICOLINKV1.cpp:615-640 | `SEND a.txt 4` with `abcd` already buffered completes with file `abcd` even when nothing more arrives |
| PicoLinkV1.LeadingBytesReachDownload | PICOLINKV1/PICOLINKV1/PICOLINKV1.cpp:800-818 | bytes buffered before a `SEND` line become the first bytes of the downloaded file |
| PicoLinkV1.RawRecvExample | PICOLINKV1/PICOLINKV1/PICOLINKV1.cpp:777-786 | a read of ` READY\r\n` is logged as `[RAW RECV: 8 bytes] READY`: counted in full, trimmed at both ends |
| PicoLinkV1.SuppressedAsWrittenOnlyAck | PICOLINKV1/PICOLINKV1/PICOLINKV1.cpp:767-775 | the raw-log suppression as written hides only an `ACK\r\n` read during a session and never a `NACK\r\n` read |
| PicoLinkV1.SuppressedExtendsAsWritten | PICOLINKV1/PICOLINKV1/PICOLINKV1.cpp:767-775 | the corrected suppression hides what the written one does plus a `NACK\r\n` read during a session, and nothing outside a session |
| PicoLinkV1.SessionCoordinator.constructor | PICOLINKV1/PICOLINKV1/PICOLINKV1.cpp:25-27 | the buffer starts empty, no protocol is active, the port is closed |
| PicoLinkV1.SessionCoordinator.FlushSerialMessagesToLog | PICOLINKV1/PICOLINKV1/PICOLINKV1.cpp:220-247 | nothing happens during a session; otherwise every complete line is logged in order and only the unterminated tail stays |
| PicoLinkV1.SessionCoordinator.PollForToken | PICOLINKV1/PICOLINKV1/PICOLINKV1.cpp:376-386 | one check of the buffer: found exactly when the token occurs, and then the buffer is cut after it |
| PicoLinkV1.SessionCoordinator.WaitForPicoResponse | PICOLINKV1/PICOLINKV1/PICOLINKV1.cpp:373-398 | the buffer is checked first and after each arrival; the result and the new buffer are those of `Await`; on timeout exactly one error line with the buffer is logged, on success nothing |
| PicoLinkV1.SessionCoordinator.UploadSession | PICOLINKV1/PICOLINKV1/PICOLINKV1.cpp:416-519 | for a chosen file the outcome, the bytes sent and the buffer left are those of `ExpectedUpload` on the device's replies; the report fits the schedule; the port receives the header and exactly the bytes sent; cancel or open failure logs its one line and leaves the buffer |
| PicoLinkV1.SessionCoordinator.UploadChosen | PICOLINKV1/PICOLINKV1/PICOLINKV1.cpp:438-519 | the outcome, the bytes sent and the buffer left are those of `ExpectedUpload`; it ends for lack of READY exactly when READY never arrives after the buffer was cleared; the report fits the schedule |
| PicoLinkV1.SessionCoordinator.SendBlocks | PICOLINKV1/PICOLINKV1/PICOLINKV1.cpp:484-507 | the bytes sent, the buffer left and the scripts used are those of `SendFrom` from the start of the file; the loop stays on the schedule, writes exactly the first `sent` bytes, and stops short only on an ACK wait |
| PicoLinkV1.SessionCoordinator.SendNextBlock | PICOLINKV1/PICOLINKV1/PICOLINKV1.cpp:491-506 | one block of min(512, rest) bytes is written; when more data follows, the ACK wait's result and buffer are those of `Await` and a missed ACK logs the block's error line; after the last block nothing is awaited or logged |
| PicoLinkV1.SessionCoordinator.UploadFile | PICOLINKV1/PICOLINKV1/PICOLINKV1.cpp:401-520 | after the scope guard the flag is clear and no complete line remains; the outcome and bytes sent are those of `ExpectedUpload`, and the buffer is its leftover with complete lines flushed |
| PicoLinkV1.SessionCoordinator.DetectSendTrigger | PICOLINKV1/PICOLINKV1/PICOLINKV1.cpp:800-812 | outside a session a `SEND` line is cut out and logged as a command; otherwise nothing changes |
| PicoLinkV1.SessionCoordinator.ReceivePayload | PICOLINKV1/PICOLINKV1/PICOLINKV1.cpp:614-642 | the file and the buffer left are those of `Receive` over the polls of `TakeScript`, so the buffer is always taken from once; a receive that ends short of the announced size logs the TIMEOUT line, otherwise nothing is logged |
| PicoLinkV1.SessionCoordinator.RemoveEndMarker | PICOLINKV1/PICOLINKV1/PICOLINKV1.cpp:646-653 | the first `END\r\n` is erased from the buffer |
| PicoLinkV1.SessionCoordinator.DownloadSession | PICOLINKV1/PICOLINKV1/PICOLINKV1.cpp:577-660 | the report and the buffer left are those of `ExpectedDownload`; the log only grows |
| PicoLinkV1.SessionCoordinator.HandleIncomingSend | PICOLINKV1/PICOLINKV1/PICOLINKV1.cpp:562-661 | after the scope guard the flag is clear and the buffer is the download's leftover, flushed |
| PicoLinkV1.SessionCoordinator.SuperviseConnection | PICOLINKV1/PICOLINKV1/PICOLINKV1.cpp:710-747 | connected exactly when the open port still answers or a found port opens; detection is logged on a new port, disconnection once when no port is found |
| PicoLinkV1.SessionCoordinator.ReadSerial | PICOLINKV1/PICOLINKV1/PICOLINKV1.cpp:749-798 | read bytes are appended and, when not empty, logged raw unless the corrected suppression (see Findings) applies; a pending read changes nothing; a failed read logs its code and closes the port |
| PicoLinkV1.SessionCoordinator.ServeBuffer | PICOLINKV1/PICOLINKV1/PICOLINKV1.cpp:800-818 | outside a session a trigger starts a download and otherwise the buffer is flushed; never both |
| PicoLinkV1.SessionCoordinator.ListenerCycle | PICOLINKV1/PICOLINKV1/PICOLINKV1.cpp:701-821 | one cycle: connection, read, then either the download of the trigger found in the fed buffer or the flush of its lines |
| PicoLinkV2.RawLog | PICOLINKV1/PICOLINKV1/PICOLINKV2.cpp:204-214 | an empty buffer logs nothing; otherwise one line, `[PICO RAW] ` followed by the whole buffer |
| PicoLinkV2.Consumed | PICOLINKV1/PICOLINKV1/PICOLINKV2.cpp:298-312 | something is consumed if and only if the token occurs, and never past the end of the buffer |
| PicoLinkV2.ConsumedThroughLine | PICOLINKV1/PICOLINKV1/PICOLINKV2.cpp:301-312 | consumption runs through the first newline after the token, or just past the token when no newline follows |
| PicoLinkV2.ConsumedCoversToken | PICOLINKV1/PICOLINKV1/PICOLINKV2.cpp:301-312 | the token itself is always consumed |
| PicoLinkV2.ReadyLineConsumed | PICOLINKV1/PICOLINKV1/PICOLINKV2.cpp:301-312 | `junk READY\r\nmore` waited on for READY leaves `more` |
| PicoLinkV2.BareTokenConsumed | PICOLINKV1/PICOLINKV1/PICOLINKV2.cpp:309-311 | `xACK` without a newline is consumed entirely |
| PicoLinkV2.AwaitFindsIff | PICOLINKV1/PICOLINKV1/PICOLINKV2.cpp:291-324 | the buffer is checked before every timeout test, so a wait succeeds if and only if the token occurs in the buffer followed by everything that arrived, even with no poll; on timeout all of that stays buffered |
| PicoLinkV2.AwaitStopsAtFirstHit | PICOLINKV1/PICOLINKV1/PICOLINKV2.cpp:296-313 | a wait ends at the first poll after which the token is present and consumes the buffer through the line holding it; later arrivals are not read |
| PicoLinkV2.LineConsumed | PICOLINKV1/PICOLINKV1/PICOLINKV2.cpp:301-312 | a token line ending in CRLF is consumed through its newline |
| PicoLinkV2.AwaitLoneLine | PICOLINKV1/PICOLINKV1/PICOLINKV2.cpp:296-313 | a token line arriving alone in an empty buffer is consumed whole |
| PicoLinkV2.SendFrom | PICOLINKV1/PICOLINKV1/PICOLINKV2.cpp:394-412 | from any point of the block loop the bytes sent only grow, up to the file size, and the loop ends acknowledged exactly when the whole file was sent |
| PicoLinkV2.ExpectedUpload | PICOLINKV1/PICOLINKV1/PICOLINKV2.cpp:382-425 | the outcome the device's replies give: no READY sends nothing, a missing ACK stops short of the file, UPLOAD_OK is awaited (with success or timeout) only after the whole file |
| PicoLinkV2.AnsweredAcksSendAll | PICOLINKV1/PICOLINKV1/PICOLINKV2.cpp:394-412 | when each ACK wait is answered by one ACK line, the loop sends the whole rest of the file, using exactly one script per ACK |
| PicoLinkV2.CooperativeDeviceUploads | PICOLINKV1/PICOLINKV1/PICOLINKV2.cpp:382-425 | a device that answers READY, every ACK and UPLOAD_OK with one line each receives the whole file, and the upload succeeds with an empty buffer |
| PicoLinkV2.ReadyThenAck | PICOLINKV1/PICOLINKV1/PICOLINKV2.cpp:301-312 | a chunk holding the READY line and then the ACK line answers the READY wait and keeps the ACK line buffered |
| PicoLinkV2.BufferedAckAnswers | PICOLINKV1/PICOLINKV1/PICOLINKV2.cpp:301-312 | an ACK line read in the same chunk as READY stays buffered and answers the first ACK wait: a two-block file is sent whole and only the UPLOAD_OK wait times out |
| PicoLinkV2.Transit | PICOLINKV1/PICOLINKV1/PICOLINKV2.cpp:457-477 | connected after the cycle exactly when the port answered or reopening succeeded |
| PicoLinkV2.TransitionLogsOnChange | PICOLINKV1/PICOLINKV1/PICOLINKV2.cpp:457-477 | a disconnection is logged exactly when a connected port stops answering; a connection exactly when the link comes up from down |
| PicoLinkV2.SteadyStatesLogNothing | PICOLINKV1/PICOLINKV1/PICOLINKV2.cpp:457-477 | a link that stays up, or stays down, logs nothing |
| PicoLinkV2.ReconnectWithinCycle | PICOLINKV1/PICOLINKV1/PICOLINKV2.cpp:457-477 | a port lost and reopened in the same cycle logs only the disconnection |
| PicoLinkV2.Coordinator.constructor | PICOLINKV1/PICOLINKV1/PICOLINKV2.cpp:23 | the buffer starts empty and the port closed |
| PicoLinkV2.Coordinator.FlushSerialMessagesToLog | PICOLINKV1/PICOLINKV1/PICOLINKV2.cpp:204-214 | the buffer is logged as one raw line when not empty and then cleared |
| PicoLinkV2.Coordinator.PollForToken | PICOLINKV1/PICOLINKV1/PICOLINKV2.cpp:296-313 | one check of the buffer: found exactly when the token occurs, and then the consumed head is removed |
| PicoLinkV2.Coordinator.WaitForPicoResponse | PICOLINKV1/PICOLINKV1/PICOLINKV2.cpp:291-324 | the buffer is checked first and after each arrival; the result and the new buffer are those of `Await`; on timeout exactly one error line with the buffer is logged, on success nothing |
| PicoLinkV2.Coordinator.UploadFile | PICOLINKV1/PICOLINKV1/PICOLINKV2.cpp:329-425 | for a chosen file the outcome, the bytes sent and the buffer left are those of `ExpectedUpload` on the device's replies; the report fits the schedule; the port receives the header and exactly the bytes sent; cancel or open failure logs its one line and leaves the buffer |
| PicoLinkV2.Coordinator.UploadChosen | PICOLINKV1/PICOLINKV1/PICOLINKV2.cpp:352-425 | the outcome, the bytes sent and the buffer left are those of `ExpectedUpload`; it ends for lack of READY exactly when READY never arrives after the buffer was cleared; the report fits the schedule |
| PicoLinkV2.Coordinator.SendBlocks | PICOLINKV1/PICOLINKV1/PICOLINKV2.cpp:389-412 | the bytes sent, the buffer left and the scripts used are those of `SendFrom` from the start of the file; the loop stays on the schedule, writes exactly the first `sent` bytes, and stops short only on an ACK wait |
| PicoLinkV2.Coordinator.SendNextBlock | PICOLINKV1/PICOLINKV1/PICOLINKV2.cpp:396-411 | one block of min(512, rest) bytes is written; when more data follows, the ACK wait's result and buffer are those of `Await` and a missed ACK logs the block's error line; after the last block nothing is awaited or logged |
| PicoLinkV2.Coordinator.Append | PICOLINKV1/PICOLINKV1/PICOLINKV2.cpp:490 | the bytes read go to the tail and nothing before them changes |
| PicoLinkV2.Coordinator.ReadSerial | PICOLINKV1/PICOLINKV1/PICOLINKV2.cpp:480-493 | bytes read are appended; a pending or failed read changes nothing |
| PicoLinkV2.Coordinator.ListenerCycle | PICOLINKV1/PICOLINKV1/PICOLINKV2.cpp:427-499 | after a cycle the connection state follows `Transit`, its transition lines are logged, then the fed buffer is logged raw and cleared |

## Left out

- The Win32 user interface, the log window and `Log`'s timestamps are left out. A log entry is the string passed to `Log`.
- Real time is left out. Time-outs, sleeps and the 30-second download limit are represented by the length of a poll script.
- Threads and locks are left out. V1 starts the download on a thread; here it runs to completion inside the listener cycle. The V2 listener flushes the buffer every cycle, which can race with a wait; the model runs uploads and listener cycles one after the other, so that race is not represented.
- File streams and dialogs become the `FileChoice` and `DownloadEnv` parameters. The download folder and whether the output file opens are inputs. The file written is returned in the report.
- `FindPicoCOMPort`, `OpenSerialPort`, `GetPicoLinkFolder` and `PurgeComm` are not part of this model. Their results are parameters, and the lines they log themselves (for example V2's connection message inside `OpenSerialPort`) are not in the log.
- `SendData` is modelled as a complete write to a connected port. Its not-connected branch and partial writes are left out.
- The 512-byte cap of one `ReadFile` is not enforced on the scripted reads.
- `operator>>` into `size_t` accepts only all-digit tokens below 2^64 in the model. Signs, leading `+`/`-` and wrap-around of negative input are not modelled.
- PicoLinkV1.SessionCoordinator.UploadSession, PicoLinkV1.SessionCoordinator.UploadChosen, PicoLinkV1.SessionCoordinator.SendBlocks and PicoLinkV1.SessionCoordinator.UploadFile do not state the log lines of a chosen file's upload. Only the cancel and open-failure lines, and SendNextBlock's missed-ACK line, are stated.
- PicoLinkV2.Coordinator.UploadChosen, PicoLinkV2.Coordinator.SendBlocks and PicoLinkV2.Coordinator.UploadFile do not state the log lines of a chosen file's upload either.
- PicoLinkV1.SessionCoordinator.ReadSerial follows the corrected suppression (see Findings): a 6-byte `NACK\r\n` read during a session is not logged raw here, while the code as written logs it.
- PicoLinkV1.SessionCoordinator.DownloadSession and PicoLinkV1.SessionCoordinator.HandleIncomingSend state their log only as growing (`Extends`). The lines themselves are not stated.
- PicoLinkV1.SessionCoordinator.ListenerCycle and PicoLinkV1.SessionCoordinator.ServeBuffer do not state the log. The logging of their parts is stated on SuperviseConnection, ReadSerial, DetectSendTrigger and FlushSerialMessagesToLog.
- The token searches are plain substring searches, as in the source. In V2 `"ACK"` also matches inside `"NACK"`, and bytes in front of a V1 `SEND` line become payload of the download (`LeadingBytesReachDownload`). The model keeps this behaviour.

## Findings

| source | as written | input that shows it | evidently intended | confidence | as-written member | corrected member |
|---|---|---|---|---|---|---|
| PICOLINKV1/PICOLINKV1/PICOLINKV1.cpp:767-775 | raw logging is suppressed only for a read of exactly 5 bytes equal to `ACK\r\n` or `NACK\r\n` | a 6-byte read `NACK\r\n` during an upload: it never equals a 5-byte read, so it is logged raw | both ACK and NACK replies are kept out of the raw log during a session | high, not executed | PicoLinkV1.SuppressedAsWrittenOnlyAck | PicoLinkV1.SuppressedExtendsAsWritten |
