# Printable-characters counting server, modelled in Dafny

`pcc_server.c` is a TCP server that counts printable characters. A client
sends a 4-byte big-endian length N followed by N bytes; the server answers
with a 4-byte big-endian count of the bytes in [32, 126] (space through
tilde). Only after that answer has gone out does it add the connection's
per-character histogram to a process-wide total of 95 counters. On SIGINT it
prints one line per printable character with its total and exits with
status 0. If a client is being served when SIGINT arrives, it first finishes
that client.

The model has five modules:

- `Framing`: the 4-byte header (`htonl` / `ntohl`) as functions between
  four bytes and a 32-bit unsigned value, with both round trips.
- `Transfer`: `is_it_a_tcp_error`, `read_bytes` and `send_bytes`.
  - The kernel's answers are a script given as a parameter, one entry per
    `read` or `write` call: the bytes delivered or count reported, or -1
    with an errno.
  - Each loop is a function that walks the script. It returns SUCCESS,
    SPECIAL_ERROR, FAILURE, or `Blocked` when the script runs out while the
    loop still wants bytes.
- `Counter`: `init_client_ppc`, `printable_chars_counter`,
  `update_pcc_total` and the report of `print_printable_char_counter`.
  - The counter is a method with a loop, checked against a recursive
    reference histogram (`Tally`), against a filter (`Printables`) and
    against the multiset of the payload.
- `Server`: the client loop of `main` (lines 175-233) and `sigint_handler`.
  - Serving one connection is a function from a `Session` to an `Ending`:
    `Completed`, `Abandoned` (close and continue), `Fatal` (exit 1) or
    `Hung`.
  - A `Session` holds the scripted read and write outcomes, whether
    `malloc` succeeds, and whether a SIGINT arrived meanwhile.
  - The process is a state machine over events: a SIGINT, `accept`
    returning a client, or `accept` failing.
  - The main theorem, `TotalsCountCompletedConnections`: the total the
    server holds, and the report it prints, is always the histogram of the
    concatenated payloads of the connections that completed.
- `Scenarios`: concrete exchanges worked through the model, for example a
  payload split across reads, a peer closing mid-payload, a reset during
  the reply, and a fatal errno.

Values are unbounded `nat`s: `Byte` is below 256 and `U32` is below 2^32.
Errno values are Linux's: EPIPE 32, ECONNRESET 104, ETIMEDOUT 110.

## Model

| member | source | states |
|---|---|---|
| `Framing.EncodeU32` | pcc_server.c:219 | The reply header is four bytes in network order: byte k is digit 3-k of the count in base 256, so the count is b0*2^24 + b1*2^16 + b2*2^8 + b3. |
| `Framing.DecodeU32` | pcc_server.c:199 | The length read from the header has header byte k as its base-256 digit 3-k: the first byte is the top byte and the fourth the low byte. |
| `Framing.DecodeEncode` | pcc_server.c:219 | Decoding the reply header gives back the count, for every 32-bit value. |
| `Framing.EncodeDecode` | pcc_server.c:199 | Re-encoding a decoded length header gives back the same four bytes, for every header. |
| `Framing.DecodeInjective` | pcc_server.c:199 | Two headers that decode to the same length are the same bytes. |
| `Transfer.IsTcpError` | pcc_server.c:39-44 | Exactly three errno values concern only the connection: 110, 104 and 32, which are Linux's ETIMEDOUT, ECONNRESET and EPIPE. |
| `Transfer.ErrorStatus` | pcc_server.c:78-83 | A call returning -1 makes a transfer loop answer SPECIAL_ERROR exactly when errno is a TCP error, and FAILURE for every other errno. The same mapping serves `read_bytes` at lines 94-99. |
| `Transfer.ReadLoop` | pcc_server.c:92-104 | The read loop makes calls only while the buffer is short of `len`, and the buffer is the concatenation of what those calls delivered. SUCCESS holds exactly when `len` bytes are in. Every call before the last delivered at least one byte. It stops with an error exactly at a call that delivers nothing: SPECIAL_ERROR for a 0-byte read, otherwise the errno's classification. |
| `Transfer.ReadBytes` | pcc_server.c:89-106 | `len == 0` is SUCCESS with no call made. SUCCESS means at least `len` bytes were read and every call made progress. Any other answer leaves fewer than `len`. The buffer holds the bytes the calls made delivered. |
| `Transfer.ReadBytesPrefix` | pcc_server.c:89-106 | What `read_bytes` places in its buffer is a prefix of the peer's byte stream. |
| `Transfer.ReadLoopExact` | pcc_server.c:92-104 | When no call returns more than was asked, a successful read loop has read exactly `len` bytes. |
| `Transfer.ReadBytesExact` | pcc_server.c:89-106 | `read_bytes` answers SUCCESS only once exactly `len` bytes have been read, when no call returns more than was asked. |
| `Transfer.ReadLoopReassembles` | pcc_server.c:92-104 | However a stream is cut into non-empty pieces, reading its whole length returns it intact and uses every call. |
| `Transfer.ReadBytesReassembles` | pcc_server.c:89-106 | The same, for `read_bytes` starting with an empty buffer. |
| `Transfer.ZeroReadCloses` | pcc_server.c:100-102 | A 0-byte read ends `read_bytes` at once with SPECIAL_ERROR and an empty buffer. |
| `Transfer.SendLoop` | pcc_server.c:76-85 | The write loop keeps writing while the reported counts are short of `len`, and SUCCESS holds exactly when they add up to `len`. Every call before the last succeeded. It stops with an error exactly at a call that returned -1, classified by its errno. |
| `Transfer.SendBytes` | pcc_server.c:73-87 | `len == 0` is SUCCESS with no call. SUCCESS means the reported counts reach `len` with no failed call. Any other answer leaves them short. |
| `Transfer.SendLoopExact` | pcc_server.c:76-85 | When no call reports more than was asked, a successful write loop has sent exactly `len` bytes. |
| `Transfer.SendBytesExact` | pcc_server.c:73-87 | `send_bytes` answers SUCCESS only once exactly `len` bytes have gone out, when no call reports more than was asked. |
| `Transfer.ZeroWriteRetries` | pcc_server.c:77-84 | A write reporting 0 bytes is not an error: `send_bytes` carries on with the next call as if it had not been made. |
| `Transfer.ZeroWritesNeverFinish` | pcc_server.c:76-85 | A run of writes that all report 0 never ends `send_bytes`, however long the run is. |
| `Transfer.Segments` | pcc_server.c:77 | The pieces that successful writes of `data` put on the wire are non-empty and concatenate to `data`. |
| `Transfer.SendThenReceive` | pcc_server.c:73-106 | Framing round trip: when no write reports more than it was asked to write, a peer reading the pieces of a successful `send_bytes` of `data` gets exactly `data` back, for every length, 0 included. |
| `Counter.EmptyHistogram` | pcc_server.c:107-111 | `init_client_ppc` leaves 95 buckets, every one 0, summing to 0. |
| `Counter.Bump` | pcc_server.c:118-121 | A printable byte adds one to its own bucket (index byte - 32) and one to the sum. Every other bucket is unchanged, and a non-printable byte changes nothing. |
| `Counter.TallySum` | pcc_server.c:116-123 | The buckets of a payload's histogram add up to the number of its printable bytes. |
| `Counter.TallyCounts` | pcc_server.c:116-121 | Bucket `i` of a payload's histogram is the number of occurrences of the byte `i + 32`. |
| `Counter.PrintableCharsCounter` | pcc_server.c:112-124 | The histogram is cleared, then bucket `i` ends as the occurrences of byte `i + 32`. The returned count is the sum of the buckets and the number of bytes in [32, 126], so it is at most `len`. |
| `Counter.CountPrintable` | pcc_server.c:112-124 | The count is at most the payload length and is the sum of the histogram. It equals the length exactly when every byte is printable, and is 0 exactly when none is. |
| `Counter.Printables` | pcc_server.c:118 | The bytes counted are printable ones, and there are no more of them than bytes in the payload. |
| `Counter.CountConcat` | pcc_server.c:116-122 | The count of two payloads back to back is the sum of their counts. |
| `Counter.CountOne` | pcc_server.c:117-121 | A single byte counts 1 exactly when it lies in [32, 126]. |
| `Counter.UpdateTotal` | pcc_server.c:126-130 | Each total bucket grows by the matching bucket of the connection's histogram, so none shrinks and the grand sum grows by the connection's sum. |
| `Counter.TallyConcat` | pcc_server.c:126-130 | Folding two payloads' histograms gives the histogram of the two payloads back to back. |
| `Counter.UpdateTotalCommutes` | pcc_server.c:126-130 | Folding two connections' histograms gives the same total in either order. |
| `Counter.Report` | pcc_server.c:46-49 | The report has 95 lines in strictly ascending character order. Every character lies in [32, 126], and each line shows that character's total. |
| `Counter.ReportCoversPrintables` | pcc_server.c:47-48 | Every printable character has a line in the report showing its total. |
| `Server.Stopped` | pcc_server.c:189-197 | A transfer that did not succeed abandons the connection on SPECIAL_ERROR and is fatal on FAILURE. It hangs only when the call never returns. The stage where it happened is recorded. |
| `Server.Serve` | pcc_server.c:188-229 | A completed connection has a payload exactly as long as the announced length. The reply decodes to the payload's printable count, which is at most the length. It completes only if both header transfers succeeded and the buffer was allocated. |
| `Server.Receive` | pcc_server.c:205-216 | After the header, the payload is the first `n` bytes the second read loop delivered. A failure of that loop ends the connection at the payload stage with the loop's classification. |
| `Server.Reply` | pcc_server.c:218-229 | The connection completes exactly when `send_bytes` of the 4-byte count succeeds, carrying the encoded printable count. Otherwise it ends at the reply stage with the send's classification. |
| `Server.ServeCompletes` | pcc_server.c:188-229 | When the length read, the allocation, the payload read and the reply all succeed, the connection completes with that payload and the encoded count of its printable bytes. |
| `Server.ServeEndsEarly` | pcc_server.c:188-229 | The first transfer that fails decides how the connection ends and at which stage, and a failed `malloc` is fatal. |
| `Server.ServeReadsTheFrame` | pcc_server.c:188-205 | The length of a completed connection is the big-endian value of the first four bytes of the client's stream. When no read returns more than asked, the payload is the next `length` bytes of that stream. |
| `Server.Init` | pcc_server.c:20-23 | The process starts with every total at 0, no client and no deferred SIGINT. |
| `Server.Shutdown` | pcc_server.c:46-51 | The process exits with status 0 after printing line `i` as character `i + 32` with its total, for all 95 characters. |
| `Server.SigintHandler` | pcc_server.c:53-59 | With a client connected, SIGINT only sets the deferred flag and the total is untouched. With none, it prints the report and exits 0. |
| `Server.InterruptedConnection` | pcc_server.c:53-57 | A SIGINT during a connection is deferred by the handler: a connection that then completes is counted, and the report printed right after it includes its payload. An abandoned one is left out of the report. |
| `Server.LoopTop` | pcc_server.c:175-180 | At the top of the loop a deferred SIGINT prints the report and exits 0. Otherwise the server waits for a client with no flag set. |
| `Server.ServeClient` | pcc_server.c:182-232 | A completed connection adds each payload byte's occurrences to its bucket. An abandoned one leaves the total unchanged, and FAILURE exits 1 with no report. A SIGINT during the connection goes through the handler in the connected state; it, or one already pending, exits 0 with the report right after the connection. |
| `Server.Step` | pcc_server.c:175-186 | A failed `accept` exits 1. An exited process stays exited. A process blocked inside a connection keeps its total, and only a SIGINT reaches it. |
| `Server.Run` | pcc_server.c:175-233 | The loop over a sequence of events: every state it reaches from a valid one keeps a 95-bucket total. |
| `Server.IdleBetweenEvents` | pcc_server.c:175-182 | Whenever the loop is back at `accept`, no client is marked as connected and no SIGINT is pending. |
| `Server.ExitIsFinal` | pcc_server.c:50 | Once the process has exited, no later event changes anything. |
| `Server.StuckStays` | pcc_server.c:53-57 | A server blocked in a connection's I/O keeps its total whatever signals arrive. |
| `Server.ConnectCompletes` | pcc_server.c:218-232 | A completed connection with no SIGINT turns the total for the stream seen so far into the total for that stream plus the payload, and waits for the next client. |
| `Server.ConnectAbandons` | pcc_server.c:188-229 | A connection abandoned with no SIGINT leaves the server exactly as it was. |
| `Server.LastEvent` | pcc_server.c:175-186 | After an idle SIGINT, a failed `accept`, a fatal or hung connection, or a connection during which SIGINT arrived, the state shows the final total for good. |
| `Server.RunFrom` | pcc_server.c:175-233 | From a total that is the histogram of some bytes, every run of events shows the histogram of those bytes followed by the completed payloads. |
| `Server.TotalsCountCompletedConnections` | pcc_server.c:175-233 | From start-up, the total held, and the report printed on exit 0, is the histogram of the payloads of the completed connections only. |
| `Scenarios.MixedPayloadCountsFour` | pcc_server.c:188-229 | "AB\x01C " announced as 5 and split over four reads and two writes completes with count 4 and reply bytes 0, 0, 0, 4. |
| `Scenarios.MixedPayloadFolds` | pcc_server.c:126-130 | Completing that payload adds one to the buckets of ' ', 'A', 'B' and 'C' and leaves 'D' unchanged. |
| `Scenarios.EmptyPayloadRepliesZero` | pcc_server.c:199-220 | A header announcing length 0 needs no further read, and the connection completes with an empty payload and reply bytes 0, 0, 0, 0. |
| `Scenarios.ZeroLengthKeepsTotal` | pcc_server.c:199-230 | A completed connection of length 0 leaves every total as it was. |
| `Scenarios.PeerClosesMidPayload` | pcc_server.c:211-215 | A client that announces 10 bytes, sends 3 and closes is abandoned at the payload stage. |
| `Scenarios.ResetDuringReply` | pcc_server.c:225-229 | ECONNRESET while the count is sent back abandons the connection at the reply stage. |
| `Scenarios.BadDescriptorIsFatal` | pcc_server.c:189-192 | A read failing with EBADF is fatal: the process exits 1 without a report. |
| `Scenarios.InterruptWhileIdle` | pcc_server.c:53-59 | SIGINT while waiting for a client exits 0 with the full report of the current totals. |

## Left out

- Start-up is not modelled: argument checking, `atoi`, `sigaction`, `socket`, `setsockopt`, `bind` and `listen` (lines 61-71, 133-173). The model starts at the listening state.
- What `perror` and `printf` write is not modelled. The report is a sequence of (character, total) lines, not formatted text.
- `close` and `free` are not modelled: they do not change the totals or the control flow. The buffer that is not freed on the reply-error path (lines 225-229) is not modelled either.
- Real signal asynchrony is left out. A SIGINT during a connection is the session's `interrupted` flag. With SA_RESTART the handler only sets a flag there, so its exact moment does not matter. A SIGINT while blocked in `accept` is the `Interrupt` event.
- A call that never returns is shown as a script that runs out (`Blocked`, `Hung`, `Stuck`). Nothing models time.
- `malloc` is a per-session boolean `allocates`. That includes `malloc(0)`, which may return NULL and then exits as a failed allocation would.
- SIGPIPE is not ignored by the program, so on Linux a write to a vanished peer may kill the process before `write` can report EPIPE. The model follows the code's classification of EPIPE as connection-local and does not model default signal dispositions.
- The client program (`pcc_client.c`) is not part of this model.
- `Counter.UpdateTotal`: totals are unbounded naturals. The source's `uint32_t` counters wrap modulo 2^32 after 2^32 occurrences of one character; that wrap is not modelled.
- `Server.ServeClient`: inherits the unbounded totals of `Counter.UpdateTotal`, with no 32-bit wrap-around.
- `Counter.PrintableCharsCounter`: the loop index in the source is a signed `int` compared with a `size_t` length. A payload of 2^31 bytes or more makes it overflow, which is undefined behaviour; the model's index is unbounded.
- `Counter.PrintableCharsCounter`: the model's bytes are 0-255. Whether the source's `char` is signed does not change the result, because bytes from 128 up are excluded either way.
- `Transfer.ReadBytesExact`, `Transfer.ReadLoopExact`, `Transfer.SendBytesExact`, `Transfer.SendLoopExact`, `Transfer.SendThenReceive`: these state "exactly `len`" only when no call returns more than it was asked for. The loops themselves promise only "at least `len`", because nothing in the code clamps an over-long result.
- A `write` that keeps returning 0 makes `send_bytes` spin forever (`Transfer.ZeroWritesNeverFinish`), while a 0-byte `read` is a connection-local error. The model follows the code in both: it has no zero-byte check on the write side.
