# GRBL host streaming, modelled in Dafny

This project models the host side of a small GRBL tool-chain. GRBL is the firmware of a CNC or
pen-plotter controller: it queues G-code lines it receives over a serial line and answers each one
with `ok` or `error:N`. The model covers three parts.

- **`GRBLSender`** (grbl_sender.py), the session object.
  - It connects with a `$I` build-info handshake and checks the firmware signature `[VER:1.1h.20190825:]`.
  - It writes commands, collects replies line by line and waits for an acknowledgment.
  - It streams a G-code file one command at a time, cleaning each line first: comments and blank
    lines are dropped, and anything after `;` is cut off.
  - It also sends the real-time and status commands.
- **`GRBLProtocol.data_received`** (grbl_protocol.py) is a byte buffer. It reports every complete
  `\n`-terminated line and keeps the unterminated tail. Reporting a line decodes it as UTF-8, and a
  line that does not decode ends the call with the whole text still in the buffer (see
  "## Findings").
- **`find_port`** (egg_bot_serial.py) picks the first serial port whose description starts with "USB".

## How it is organised

- `wrappers.dfy`: `Option`.
- `text.dfy`: the pieces of Python's `str` that the sender uses.
  - `strip()` uses the `str.isspace()` character set.
  - `startswith` and the substring test `p in s`.
  - Joining lines with `"\n"`.
- `gcode.dfy`: `Normalize`, what the streaming loop does to one raw file line, and `Commands`, the
  commands a whole file yields.
- `link.dfy`: the serial port as the sender sees it.
  - `SerialPort` is a class whose fields are `isOpen`, the controller's unread reply lines, and a
    trace of everything written (`Tx`) and read (`Rx`).
  - `Wire` is an immutable snapshot of those fields.
  - The module also defines predicates over traces. `Paced` means an "ok" was read between any two
    writes. `Settled` means every write was followed by an "ok".
- `exchange.dfy`: the protocol as functions on a `Wire`.
  - The core functions are `Send`, `Read`, `AwaitOk`, `Round`, `Stream`, `Deliver`, `Transfer` and
    `Handshake`; the lemmas about them are proved here.
  - Every wall-clock timeout is a budget of polls, one per 10 ms sleep:
    - `read_response()` is 100 polls;
    - `read_response(10)` is 1000 polls;
    - `read_response(0.1)` is 10 polls;
    - `wait_for_ok()` is 273 rounds, since one round (0.1 s of reading and 10 ms of sleep) starts
      every 0.11 s within 30 s.
  - The file loop is defined over an arbitrary exchange function `round`. Its general lemmas hold
    for any `round` that meets `RoundSpec`, and `RoundSound` proves that the real exchange
    `Round` does (`send_command`, then `wait_for_ok()`).
  - The runs in which the controller answers "ok" are proved about `Round` itself:
    `RoundAcked`, `StreamOnOks`, `TransferOnOks` and `ExampleTransfer`.
- `sender.dfy`: the class `GrblSender` with a `link: SerialPort?` field (`null` is `None`).
  - Each method is imperative, with the loops of the source where the source has them.
  - Each method is proved to leave the port exactly as the matching `Exchange` function says and
    to return the same value. Every lemma about those functions therefore describes the methods.
- `protocol.dfy`: `GrblProtocol` with its `buffer` field. Python's `bytes.split(b"\n")` is
  modelled as `Split`, alongside the join, count and round-trip lemmas. `Decodable` is strict
  UTF-8 decoding: the well-formed byte sequences of section 4 of RFC 3629.
- `discovery.dfy`: `FindPort`, a loop with a `break` at the first match.

The controller is not concurrent in the model: what it will send is a queue of lines that is
already waiting. `Connect` receives that queue as the lines that arrive after the input buffer
is reset. Whether the port opens is a parameter of `Connect`, and whether the G-code file exists
is the `Option` passed to `SendGcodeFile`.

`soft_reset` sends `$X` (GRBL's unlock command), and the model does the same.

The model follows the code, including where it behaves differently from what the method names
suggest:

- A session whose port is closed but still set behaves as the code does:
  - `send_command` returns false, because pyserial's `write` raises on a closed port.
  - `read_response` returns "", because `in_waiting` raises.
- `send_command` does not normalise its argument beyond `strip()`. It writes even an empty
  command as "\n".
- `connect` keeps the newly opened port even when the signature does not match.
- `send_gcode_file` returns only a boolean. The count of acknowledged lines, which the source
  only logs, is returned as `lineCount`.

## Model

| member | source | states |
|---|---|---|
| Text.Strip | grbl_sender.py:179 | `strip()` leaves no whitespace at either end, and leaves a text that has none unchanged |
| Text.StripRemovesOnlySpace | grbl_sender.py:179 | `strip()` keeps a contiguous middle part of the text and removes only whitespace before and after it |
| Text.ContainsJoinLines | grbl_sender.py:130-132 | a search for "ok" or "error" in the joined reply succeeds exactly when one reply line contains the pattern |
| Text.StripTerminated | grbl_sender.py:114-120 | `response.strip()` of the accumulated `line + "\n"` pieces is the kept lines joined by "\n" |
| Text.TerminatedSnoc | grbl_sender.py:115 | `response += line + "\n"` appends one terminated line |
| Gcode.Normalize | grbl_sender.py:179-190 | the command sent for one raw file line, "" when the loop skips it (no contract of its own; its properties are the lemmas below) |
| Gcode.Commands | grbl_sender.py:178-194 | the commands a file yields, in file order (no contract of its own; see `FileStep`, `CommandsWellFormed` and `CommandsFromLines`) |
| Gcode.Before | grbl_sender.py:187 | `split(';')[0]` is a prefix free of ';' that stops at the first ';', or the whole text when there is none |
| Gcode.NormalizeShape | grbl_sender.py:179-190 | a command that is sent is trimmed, has no ';' and does not start with '(' |
| Gcode.NormalizeSkipsExactlyComments | grbl_sender.py:182-190 | a line is skipped exactly when its stripped form is empty or starts with ';' or '(' (so the test at line 189 never fires) |
| Gcode.NormalizeIdempotent | grbl_sender.py:179-187 | cleaning a command that is already clean changes nothing |
| Gcode.SolidCommand | grbl_sender.py:179-190 | a trimmed line without ';' that does not start with '(' is sent unchanged |
| Gcode.ExampleCommands | grbl_sender.py:178-190 | the file "G21", "; comment", "G1 X10 Y5 F100", "G1 X0" yields exactly the three commands, in order |
| Gcode.ExampleCount | grbl_sender.py:178-190 | the example file yields three commands |
| Gcode.CommentBetween | grbl_sender.py:178-190 | four file lines whose second is a comment yield the commands of the other three, in order |
| Gcode.FileStep | grbl_sender.py:178-190 | from line i onwards, a file's commands are line i's command (if any) followed by the commands of the later lines |
| Gcode.CommandsWellFormed | grbl_sender.py:178-194 | every command of a file is non-empty, trimmed and free of ';' |
| Gcode.CommandsFromLines | grbl_sender.py:178-194 | every command is the cleaned form of some file line |
| Link.SerialPort.Open | grbl_sender.py:47-58 | a freshly opened port is open, has an empty trace, and holds the controller's replies that follow the buffer reset |
| Link.SerialPort.Write | grbl_sender.py:94-95 | a write to an open port appends one `Tx`; on a closed port it fails and changes nothing |
| Link.SerialPort.InWaiting | grbl_sender.py:112 | data is waiting exactly when an unread line exists |
| Link.SerialPort.ReadLine | grbl_sender.py:113 | `readline()` takes the oldest unread line and records it as an `Rx` |
| Link.SerialPort.Close | grbl_sender.py:81 | closing changes only the open flag |
| Link.OneRound | grbl_sender.py:194-201 | one write followed only by reads is paced, and it is settled once one of the reads contains "ok" |
| Link.PacedConcat | grbl_sender.py:178-203 | a paced, settled stretch followed by a paced stretch is paced |
| Link.SettledConcat | grbl_sender.py:178-203 | two settled stretches in a row are settled |
| Exchange.IsAck | grbl_sender.py:116 | a line that ends the read: it starts with "ok" or "error" (no contract of its own) |
| Exchange.Scan | grbl_sender.py:111-117 | the read loop over the stripped lines takes no more lines than there are and no more than one per poll |
| Exchange.ReadLoop | grbl_sender.py:108-120 | the polling loop itself, poll by poll (no contract of its own; see `ReadLoopScans` and `ReadIsLoop`) |
| Exchange.Read | grbl_sender.py:102-120 | `read_response` in closed form (no contract of its own; see `ReadIsLoop`, `ReadDrains`, `ReadSees` and `ReadSawOk`) |
| Exchange.Send | grbl_sender.py:85-100 | `send_command` on a wire (no contract of its own; see `SendWrites`) |
| Exchange.AwaitOk | grbl_sender.py:125-138 | `wait_for_ok` on a wire (no contract of its own; see `AwaitOkDrains`, `AwaitOkSeen`, `WaitTimesOutWithoutOk` and `WaitStopsAtError`) |
| Exchange.Round | grbl_sender.py:194-201 | one command's exchange in the file loop (no contract of its own; see `RoundSound` and `RoundAcked`) |
| Exchange.Stream | grbl_sender.py:177-203 | the file loop over the commands (no contract of its own; see `StreamWrites`, `StreamPaced` and `StreamOnOks`) |
| Exchange.Deliver | grbl_sender.py:168-203 | the feed command, then the file loop (no contract of its own; see `DeliverWrites` and `FeedFailureAborts`) |
| Exchange.Transfer | grbl_sender.py:159-210 | `send_gcode_file` once the file was read and a connection exists (no contract of its own; see `TransferWrites`, `TransferPaced`, `SendFilePromise` and `TransferOnOks`) |
| Exchange.Handshake | grbl_sender.py:61-64 | the `$I` handshake of `connect` (no contract of its own; see `HandshakeShape`) |
| Exchange.ScanKeepsNonEmpty | grbl_sender.py:111-117 | a read keeps exactly the non-empty stripped lines it took, in order |
| Exchange.ScanSolid | grbl_sender.py:113-115 | the kept lines are non-empty and trimmed |
| Exchange.ScanStopsAtAck | grbl_sender.py:116-117 | only the last kept line can start with "ok" or "error", and a read that stops early stops on such a line |
| Exchange.ReadLoopScans | grbl_sender.py:108-120 | the polling loop, from any point, ends with the lines kept so far followed by the non-empty stripped lines it goes on to read, stops after an "ok"/"error" line or when the polls run out, and moves exactly the lines it read from the port to the trace, in order |
| Exchange.ReadIsLoop | grbl_sender.py:102-120 | on an open port, `Read`, the closed-form description of a read, is what the polling loop gives from its start |
| Exchange.ReadDrains | grbl_sender.py:111-120 | a read only takes lines off the port, in order, and records each in the trace |
| Exchange.ReadSees | grbl_sender.py:113-120 | a pattern without "\n" in the reply occurs in a raw line that the read took |
| Exchange.ReadSawOk | grbl_sender.py:113-131 | a reply that contains "ok" comes from reading a line that contains "ok", and the read only extends the trace |
| Exchange.AwaitOkDrains | grbl_sender.py:125-138 | `wait_for_ok` only reads, and leaves the port open or closed as it was |
| Exchange.AwaitOkSeen | grbl_sender.py:128-131 | `wait_for_ok` returns true only after a line containing "ok" was read |
| Exchange.WaitTimesOutWithoutOk | grbl_sender.py:128-138 | if no reply line contains "ok", `wait_for_ok` returns false |
| Exchange.WaitStopsAtError | grbl_sender.py:129-134 | an `error` reply as the next line ends the wait at once with false, after reading just that line |
| Exchange.SendWrites | grbl_sender.py:85-100 | `send_command` writes exactly the stripped command and "\n" when the port is open, and writes nothing otherwise |
| Exchange.OneCommand | grbl_sender.py:194-201 | sending one command and waiting writes that command alone; an acknowledgment means "ok" was read after it |
| Exchange.RoundMeetsSpec | grbl_sender.py:194-201 | one exchange fails and changes nothing on a closed port; otherwise it writes the one command, stays paced, and is settled when acknowledged |
| Exchange.RoundSound | grbl_sender.py:194-201 | every exchange meets that specification |
| Exchange.StreamStep | grbl_sender.py:194-203 | a command is followed by the rest of the stream only when it was acknowledged, and the count rises by one |
| Exchange.FileLineStep | grbl_sender.py:178-203 | the loop's step for file line i: a skipped line changes nothing, and a command takes one exchange |
| Exchange.StreamWrites | grbl_sender.py:178-203 | the loop writes the commands in file order and nothing after the first failure; success means every command was acknowledged |
| Exchange.StreamPaced | grbl_sender.py:178-203 | the loop keeps one command in flight at a time, and on success the last command was acknowledged |
| Exchange.AnswersOk | grbl_sender.py:116-131 | the controller's next n reply lines are all "ok" (no contract of its own) |
| Exchange.RoundAcked | grbl_sender.py:194-201 | on an open port whose next reply line is "ok", the command is acknowledged and only that line is read |
| Exchange.StreamOnOks | grbl_sender.py:178-203 | a controller that answers each command with "ok" gets every command acknowledged and counted, and only those answers are read |
| Exchange.TransferOnOks | grbl_sender.py:159-210 | without a feed rate, a file sent to a controller that answers each command with "ok" succeeds with every command counted, writes exactly the framed commands, and reads one answer per command |
| Exchange.ExampleTransfer | grbl_sender.py:159-210 | the four-line example file, sent to a controller that answers "ok" three times, succeeds with three lines sent and reads just those three answers |
| Exchange.DeliverWrites | grbl_sender.py:168-203 | what is written is a prefix of the feed command followed by the framed commands, and it goes at most one command past those acknowledged; success means all of it went out |
| Exchange.TransferWrites | grbl_sender.py:168-210 | the same, for the lines of a file |
| Exchange.TransferPaced | grbl_sender.py:168-210 | the whole transfer is paced, and it is settled on success |
| Exchange.SendFilePromise | grbl_sender.py:168-210 | with `send_command` and `wait_for_ok()`, the transfer writes in order and at most one command past those acknowledged, is paced, and on success every command was acknowledged |
| Exchange.FeedFailureAborts | grbl_sender.py:168-174 | a feed command without an acknowledgment ends the transfer with false, before any file line is written |
| Exchange.HandshakeShape | grbl_sender.py:61-64 | the handshake writes only "$I\n" and reads part of the replies; it succeeds exactly when a kept reply line carries the signature, which the controller must then have sent |
| Sender.GrblSender.constructor | grbl_sender.py:39-42 | a new session stores port, baud rate and timeout, and has no connection |
| Sender.GrblSender.Connect | grbl_sender.py:44-76 | a port that cannot be opened leaves the session unchanged and gives false; otherwise the new port is kept and the result is whether the handshake reply carries the signature |
| Sender.GrblSender.Disconnect | grbl_sender.py:78-83 | closes the port when there is one, and changes nothing else |
| Sender.GrblSender.SendCommand | grbl_sender.py:85-100 | without a connection the result is false; otherwise the method does exactly what `Send` says |
| Sender.GrblSender.ReadResponse | grbl_sender.py:102-123 | without a connection the result is ""; otherwise the reply and the new port state are `Read`'s |
| Sender.GrblSender.WaitForOk | grbl_sender.py:125-138 | the result and the port state are `AwaitOk`'s; without a connection the result is false |
| Sender.GrblSender.Exchange | grbl_sender.py:194-201 | one command sent and acknowledged, as `Round` says |
| Sender.GrblSender.SendGcodeFile | grbl_sender.py:140-214 | a missing file or connection gives false with nothing written; otherwise the result, the count and the port state are `Transfer`'s |
| Sender.GrblSender.GetStatus | grbl_sender.py:216-219 | sends "?", then reads the reply for up to 1 s |
| Sender.GrblSender.EmergencyStop | grbl_sender.py:221-224 | sends "!" |
| Sender.GrblSender.SoftReset | grbl_sender.py:226-229 | sends "$X" |
| Sender.GrblSender.HardReset | grbl_sender.py:231-234 | sends "$RST=*" |
| LineBuffer.Split | grbl_protocol.py:21 | `split(b"\n")` always yields at least one piece |
| LineBuffer.JoinSplit | grbl_protocol.py:21 | joining the pieces with newlines gives back the original bytes |
| LineBuffer.SplitPiecesClean | grbl_protocol.py:21-24 | no piece contains a newline |
| LineBuffer.SplitCount | grbl_protocol.py:21-22 | there is one piece more than there are newlines |
| LineBuffer.SplitWithoutNewline | grbl_protocol.py:19-20 | bytes without a newline form a single piece |
| LineBuffer.Complete | grbl_protocol.py:21-22 | `lines[:-1]`, the complete lines of the text (no contract of its own; see `NothingLost` and `LinesAndTail`) |
| LineBuffer.Tail | grbl_protocol.py:21-24 | `lines[-1]`, the unterminated end of the text (no contract of its own; see `NothingLost` and `LinesAndTail`) |
| LineBuffer.SplitPrefix | grbl_protocol.py:21 | more bytes after a text leave the text's complete pieces first, unchanged |
| LineBuffer.CompletePrefix | grbl_protocol.py:19-22 | the complete lines of a text stay the first complete lines of any longer text |
| LineBuffer.NothingLost | grbl_protocol.py:19-24 | with a newline, the buffer plus the data is the reported lines joined by newlines, then a newline, then the new buffer; without one, nothing is reported and the buffer is the whole text |
| LineBuffer.LinesAndTail | grbl_protocol.py:19-24 | as many lines are reported as there are newlines; neither they nor the kept tail contain a newline |
| LineBuffer.GrblProtocol.constructor | grbl_protocol.py:9-11 | the buffer starts empty and nothing has been reported |
| LineBuffer.Decodable | grbl_protocol.py:23 | strict UTF-8 decoding accepts the bytes (no contract of its own) |
| LineBuffer.AsciiDecodes | grbl_protocol.py:23 | ASCII bytes always decode |
| LineBuffer.Reported | grbl_protocol.py:22-23 | how many lines are reported before the first that fails to decode; at most all of them |
| LineBuffer.ReportedSpec | grbl_protocol.py:22-23 | every line before that count decodes, and the line at that count, if any, does not |
| LineBuffer.ReportedAt | grbl_protocol.py:22-23 | conversely, the index of the first line that does not decode, or the number of lines if all decode, is that count |
| LineBuffer.JamRepeats | grbl_protocol.py:19-24 | after a line fails to decode, any further data makes the next call fail on the same line again, after reporting the same lines again |
| LineBuffer.UndecodableLineJams | grbl_protocol.py:19-24 | the single line of `b"\xff\n"` fails to decode, so nothing is reported |
| LineBuffer.GrblProtocol.ReportLines | grbl_protocol.py:22-23 | the report loop reports the lines in order up to the first that does not decode, and answers how many it reported |
| LineBuffer.GrblProtocol.DataReceived | grbl_protocol.py:18-24 | the call fails exactly when a complete line of the old buffer plus the data does not decode; the lines before the first such line are reported in order; on success the unterminated tail becomes the buffer, which then holds no newline, and on failure the buffer keeps all of the text |
| LineBuffer.GrblProtocol.DataReceivedReplacing | grbl_protocol.py:18-24 | with a decoding that cannot fail, every complete line is reported in order and the buffer keeps only the tail, with no newline |
| Discovery.FindPort | egg_bot_serial.py:5-18 | no listing gives None; otherwise there is a result exactly when some description starts with "USB", and the result is the device of the first such port |

## Left out

- Serial I/O itself (pyserial, baud rate, timeouts at the driver level) is abstracted to the
  `SerialPort` class. The bytes the controller sends are given up front as a queue of lines.
- Time: `time.time()` and `time.sleep()` become poll budgets. This assumes each poll costs 10 ms
  and that reading takes no time. The 2 s settling sleep in `connect` is dropped.
- Text encoding: `encode()` and `decode()` are the identity on strings. A `UnicodeDecodeError`
  in `readline().decode()` is not modelled.
- `readline()` yields whole lines. The partial line that a driver timeout could return is not modelled.
- Exception handlers other than the closed-port cases:
  - write and read failures other than a closed port;
  - file read errors in `send_gcode_file`;
  - `connect` failures after the port has opened.
  They are not modelled. A port that fails to open is the `opens` parameter of `Connect`.
- `reset_output_buffer()` has no effect in the model, because nothing written stays pending.
- Logging, and the progress message every 100 lines, are not modelled.
- `disconnect` sets the otherwise unused attribute `is_connected`. It is not modelled.
- `FeedRate` is the feed value as Python formats it in `f"F{feed_rate}"`, together with its
  truthiness. Float formatting is not modelled.
- grbl_protocol.py, the asyncio side:
  - `connection_made`, `connection_lost`, `write`, `main` and `main2` are asyncio and console
    plumbing, and are not modelled;
  - the `print` of each report is not modelled. A reported line is logged as its raw bytes, and
    only whether `line.decode()` succeeds is modelled, not the text it yields.
- LineBuffer.GrblProtocol.DataReceived: the model ends the call with `failed` where the source
  raises `UnicodeDecodeError` out of `data_received`. What asyncio does with that exception is not
  modelled.
- egg_bot_grbl.py, svg_gcode.py, `list_available_ports` and the command-line `main` of
  grbl_sender.py are not part of this model.
- `find_port`'s import failure and a falsy `comports` both appear as `None` for the port
  listing. The two cases give the same result.

## Findings

| source | as written | input that shows it | evidently intended | confidence | as-written member | corrected member |
|---|---|---|---|---|---|---|
| grbl_protocol.py:19-24 | each complete line is decoded while it is reported, before line 24 moves the tail into the buffer; a line that is not UTF-8 raises there and leaves the whole text, newlines included, in `self.buffer` | `data_received(b"\xff\n")`, then any further data: every later call splits the same text again, re-reports the same lines and raises on the same line, and the buffer only grows | every complete line is consumed and the buffer keeps only the unterminated tail, whatever the bytes, for example with `line.decode(errors="replace")` | not executed; follows from Python's strict `bytes.decode()` | LineBuffer.GrblProtocol.DataReceived, with LineBuffer.JamRepeats and LineBuffer.UndecodableLineJams | LineBuffer.GrblProtocol.DataReceivedReplacing |
