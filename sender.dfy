/** `GRBLSender` from grbl_sender.py: a session holding an optional serial connection.
    Every method is proved to do exactly what the matching function of `Exchange`
    computes on the link's snapshot, so the lemmas proved there hold of the methods. */
module Sender {
  import opened Wrappers
  import opened Text
  import opened Gcode
  import opened Link
  import opened Exchange

  class GrblSender {
    const port: string
    const baudrate: int
    /** The read timeout handed to pyserial, in seconds. */
    const timeout: real
    /** `serial_connection`; `null` stands for `None`. */
    var link: SerialPort?

    constructor (port: string, baudrate: int, timeout: real)
      ensures this.port == port && this.baudrate == baudrate && this.timeout == timeout
      ensures link == null
    {
      this.port := port;
      this.baudrate := baudrate;
      this.timeout := timeout;
      link := null;
    }

    /** `connect`. `opens` says whether pyserial could open the port; `replies` is what the
        controller sends once the input buffer was reset. A port that cannot be opened leaves
        the session as it was; otherwise the new port replaces the old one, whatever the
        handshake gives. */
    method Connect(opens: bool, replies: seq<string>) returns (ok: bool)
      modifies this
      ensures !opens ==> !ok && link == old(link)
      ensures opens ==> link != null && fresh(link)
      ensures opens ==> var h := Handshake(replies); ok == Contains(h.text, SIGNATURE) && link.View() == h.wire
    {
      if !opens {
        return false;
      }
      var serial := new SerialPort.Open(replies);
      link := serial;
      var _ := SendCommand("$I");
      var response := ReadResponse(CONNECT_POLLS);
      ok := Contains(response, SIGNATURE);
    }

    /** `disconnect`: closes the port when there is one and it is open. */
    method Disconnect()
      modifies link
      ensures link == old(link)
      ensures link != null ==> link.View() == old(link.View()).(open := false)
    {
      if link != null && link.isOpen {
        link.Close();
      }
    }

    /** `send_command`. */
    method SendCommand(command: string) returns (ok: bool)
      modifies link
      ensures link == old(link)
      ensures link == null ==> !ok
      ensures link != null ==> var s := Send(old(link.View()), command); ok == s.ok && link.View() == s.wire
    {
      if link == null {
        return false;
      }
      var full := Strip(command) + "\n";
      ok := link.Write(full);
    }

    /** `read_response(timeout)`, with the timeout given as a number of 10 ms polls. On a
        closed port the first `in_waiting` raises and the handler returns "". */
    method ReadResponse(polls: nat) returns (response: string)
      modifies link
      ensures link == old(link)
      ensures link == null ==> response == ""
      ensures link != null ==> var r := Read(old(link.View()), polls); response == r.text && link.View() == r.wire
    {
      if link == null || !link.isOpen {
        return "";
      }
      var serial := link;
      ghost var goal := Read(serial.View(), polls);
      ReadIsLoop(serial.View(), polls);
      ghost var kept: seq<string> := [];
      var acc := "";
      var i := 0;
      var done := false;
      while i < polls && !done
        invariant serial.isOpen
        invariant SolidLines(kept) && acc == Terminated(kept)
        invariant !done ==> i <= polls && goal == ReadLoop(serial.View(), polls - i, kept)
        invariant done ==> goal == Reply(JoinLines(kept), serial.View())
        decreases polls - i, if done then 0 else 1
      {
        var waiting := serial.InWaiting();
        if waiting {
          var raw := serial.ReadLine();
          var line := Strip(raw);
          if line != "" {
            TerminatedSnoc(kept, line);
            SolidSnoc(kept, line);
            acc := acc + line + "\n";
            kept := kept + [line];
            if IsAck(line) {
              done := true;
            }
          }
        }
        i := i + 1;
      }
      StripTerminated(kept);
      response := Strip(acc);
    }

    /** `wait_for_ok(timeout)`, with the timeout given as a number of reading rounds. */
    method WaitForOk(rounds: nat) returns (ok: bool)
      modifies link
      ensures link == old(link)
      ensures link == null ==> !ok
      ensures link != null ==> var a := AwaitOk(old(link.View()), rounds, ACK_POLLS); ok == a.ok && link.View() == a.wire
    {
      var r := 0;
      while r < rounds
        invariant r <= rounds
        invariant link != null ==> AwaitOk(old(link.View()), rounds, ACK_POLLS) == AwaitOk(link.View(), rounds - r, ACK_POLLS)
      {
        var response := ReadResponse(ACK_POLLS);
        if Contains(response, "ok") {
          return true;
        } else if Contains(response, "error") {
          return false;
        }
        r := r + 1;
      }
      ok := false;
    }

    /** One command of the transfer: `send_command`, then `wait_for_ok()`. */
    method Exchange(command: string) returns (ok: bool)
      requires link != null
      modifies link
      ensures link == old(link)
      ensures var a := Round(old(link.View()), command); ok == a.ok && link.View() == a.wire
    {
      ok := SendCommand(command);
      if ok {
        ok := WaitForOk(ACK_ROUNDS);
      }
    }

    /** `send_gcode_file`. `file` is the file's lines as `readlines()` returns them, or `None`
        when it does not exist; `lineCount` is the number of file commands acknowledged. */
    method SendGcodeFile(file: Option<seq<string>>, feed: Option<FeedRate>) returns (ok: bool, lineCount: nat)
      modifies link
      ensures link == old(link)
      ensures file.None? || link == null ==> !ok && lineCount == 0
      ensures file.None? && link != null ==> link.View() == old(link.View())
      ensures file.Some? && link != null ==>
        var t := Transfer(Round, old(link.View()), file.value, feed);
        ok == t.ok && lineCount == t.sent && link.View() == t.wire
    {
      if file.None? || link == null {
        return false, 0;
      }
      var lines := file.value;
      ghost var goal := Transfer(Round, link.View(), lines, feed);
      if HasFeed(feed) {
        var acked := Exchange("F" + feed.value.text);
        if !acked {
          return false, 0;
        }
      }
      lineCount := 0;
      var i := 0;
      while i < |lines|
        invariant i <= |lines|
        invariant goal == Stream(Round, link.View(), Commands(lines[i..]), lineCount)
      {
        ghost var command := Normalize(lines[i]);
        FileLineStep(Round, link.View(), lines, i, lineCount);
        var line := Strip(lines[i]);
        if line == "" || line[0] == ';' || line[0] == '(' {
          i := i + 1;
          continue;
        }
        if ';' in line {
          line := Strip(Before(line, ';'));
        }
        if line == "" {
          i := i + 1;
          continue;
        }
        assert line == command;
        var acked := Exchange(line);
        if !acked {
          return false, lineCount;
        }
        lineCount := lineCount + 1;
        i := i + 1;
      }
      assert lines[i..] == [];
      ok := true;
    }

    /** `get_status`: sends "?" and returns the reply read within 1 s. */
    method GetStatus() returns (status: string)
      modifies link
      ensures link == old(link)
      ensures link == null ==> status == ""
      ensures link != null ==> var r := Read(Send(old(link.View()), "?").wire, READ_POLLS); status == r.text && link.View() == r.wire
    {
      var _ := SendCommand("?");
      status := ReadResponse(READ_POLLS);
    }

    /** `emergency_stop`: the feed-hold character "!". */
    method EmergencyStop()
      modifies link
      ensures link == old(link)
      ensures link != null ==> link.View() == Send(old(link.View()), "!").wire
    {
      var _ := SendCommand("!");
    }

    /** `soft_reset`: "$X", as the source sends it. */
    method SoftReset()
      modifies link
      ensures link == old(link)
      ensures link != null ==> link.View() == Send(old(link.View()), "$X").wire
    {
      var _ := SendCommand("$X");
    }

    /** `hard_reset`: "$RST=*". */
    method HardReset()
      modifies link
      ensures link == old(link)
      ensures link != null ==> link.View() == Send(old(link.View()), "$RST=*").wire
    {
      var _ := SendCommand("$RST=*");
    }
  }
}
