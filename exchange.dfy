/** The command/acknowledgment protocol of `GRBLSender` as functions on a link snapshot.
    Every wall-clock timeout is a budget of polls: the read loop sleeps 10 ms after each
    poll, so a budget of n polls stands for a timeout of n * 10 ms. */
module Exchange {
  import opened Wrappers
  import opened Text
  import opened Gcode
  import opened Link

  /** `read_response()`'s default timeout of 1.0 s. */
  const READ_POLLS: nat := 100
  /** `read_response(10)`, the handshake read in `connect`. */
  const CONNECT_POLLS: nat := 1000
  /** `read_response(0.1)`, one round of `wait_for_ok`. */
  const ACK_POLLS: nat := 10
  /** `wait_for_ok()`'s default of 30 s: a round takes 0.1 s of reading and 10 ms of sleep,
      so round k starts at k * 0.11 s, and rounds start for k = 0 .. 272. */
  const ACK_ROUNDS: nat := 273
  /** The firmware build string `connect` looks for in the reply to `$I`. */
  const SIGNATURE := "[VER:1.1h.20190825:]"

  /** A reply line that ends a `read_response`. */
  predicate IsAck(line: string)
  {
    StartsWith(line, "ok") || StartsWith(line, "error")
  }

  /** What `readline().decode().strip()` gives for each line the controller sends. */
  function StripEach(lines: seq<string>): (r: seq<string>)
    ensures |r| == |lines|
  {
    if lines == [] then [] else [Strip(lines[0])] + StripEach(lines[1..])
  }

  lemma {:induction false} StripEachAt(lines: seq<string>, i: nat)
    requires i < |lines|
    ensures StripEach(lines)[i] == Strip(lines[i]) && Stripped(StripEach(lines)[i])
  {
    if i > 0 {
      StripEachAt(lines[1..], i - 1);
    }
  }

  /** The lines one `read_response` keeps, and how many lines it took off the link. */
  datatype Scanned = Scanned(kept: seq<string>, consumed: nat)

  /** The loop of `read_response` over the stripped lines: each poll takes at most one
      waiting line, keeps it when non-empty and stops right after an `ok`/`error` line. */
  function Scan(lines: seq<string>, polls: nat): (s: Scanned)
    ensures s.consumed <= |lines| && s.consumed <= polls
    decreases polls
  {
    if polls == 0 || lines == [] then Scanned([], 0)
    else if lines[0] == "" then
      var rest := Scan(lines[1..], polls - 1);
      Scanned(rest.kept, rest.consumed + 1)
    else if IsAck(lines[0]) then Scanned([lines[0]], 1)
    else
      var rest := Scan(lines[1..], polls - 1);
      Scanned([lines[0]] + rest.kept, rest.consumed + 1)
  }

  /** One poll of `read_response` on raw lines: the first line, stripped, decides. */
  lemma ScanUnfold(raw: seq<string>, polls: nat)
    requires raw != [] && polls > 0
    ensures var line := Strip(raw[0]);
      var rest := Scan(StripEach(raw[1..]), polls - 1);
      Scan(StripEach(raw), polls)
        == if line == "" then Scanned(rest.kept, rest.consumed + 1)
           else if IsAck(line) then Scanned([line], 1)
           else Scanned([line] + rest.kept, rest.consumed + 1)
  {
    var lines := StripEach(raw);
    assert lines[0] == Strip(raw[0]);
    assert lines[1..] == StripEach(raw[1..]);
  }

  /** The non-empty lines among `lines`, in order. */
  function NonEmpty(lines: seq<string>): seq<string>
  {
    if lines == [] then []
    else if lines[0] == "" then NonEmpty(lines[1..])
    else [lines[0]] + NonEmpty(lines[1..])
  }

  /** A read keeps exactly the non-empty lines it took off the link, in order. */
  lemma {:induction false} ScanKeepsNonEmpty(lines: seq<string>, polls: nat)
    ensures var s := Scan(lines, polls); s.kept == NonEmpty(lines[..s.consumed])
    decreases polls
  {
    var s := Scan(lines, polls);
    if polls == 0 || lines == [] {
      assert lines[..s.consumed] == [];
    } else {
      var taken := lines[..s.consumed];
      assert taken[0] == lines[0];
      if lines[0] != "" && IsAck(lines[0]) {
        assert taken[1..] == [];
      } else {
        ScanKeepsNonEmpty(lines[1..], polls - 1);
        var rest := Scan(lines[1..], polls - 1);
        assert taken[1..] == lines[1..][..rest.consumed];
      }
    }
  }

  /** Of stripped lines, a read keeps only non-empty stripped ones. */
  lemma {:induction false} ScanSolid(lines: seq<string>, polls: nat)
    requires forall i :: 0 <= i < |lines| ==> Stripped(lines[i])
    ensures SolidLines(Scan(lines, polls).kept)
    decreases polls
  {
    if polls > 0 && lines != [] && !(lines[0] != "" && IsAck(lines[0])) {
      ScanSolid(lines[1..], polls - 1);
      var rest := Scan(lines[1..], polls - 1).kept;
      if lines[0] != "" {
        var kept := [lines[0]] + rest;
        forall i | 0 < i < |kept| ensures kept[i] != "" && Stripped(kept[i]) {
          assert kept[i] == rest[i - 1];
        }
      }
    }
  }

  /** Only the last kept line may be an `ok`/`error` line, and a read that ends before its
      budget and before the waiting lines run out ends on one. */
  lemma {:induction false} ScanStopsAtAck(lines: seq<string>, polls: nat)
    ensures var s := Scan(lines, polls);
      && (forall i :: 0 <= i < |s.kept| - 1 ==> !IsAck(s.kept[i]))
      && (s.consumed < |lines| && s.consumed < polls ==> |s.kept| > 0 && IsAck(s.kept[|s.kept| - 1]))
    decreases polls
  {
    if polls > 0 && lines != [] && !(lines[0] != "" && IsAck(lines[0])) {
      ScanStopsAtAck(lines[1..], polls - 1);
      var rest := Scan(lines[1..], polls - 1).kept;
      if lines[0] != "" {
        var kept := [lines[0]] + rest;
        forall i | 0 < i < |kept| - 1 ensures !IsAck(kept[i]) {
          assert kept[i] == rest[i - 1];
        }
        if |rest| > 0 {
          assert kept[|kept| - 1] == rest[|rest| - 1];
        }
      }
    }
  }

  /** Each kept line is one of the lines read. */
  lemma {:induction false} NonEmptyOrigin(lines: seq<string>, i: nat)
    requires i < |NonEmpty(lines)|
    ensures exists j :: 0 <= j < |lines| && NonEmpty(lines)[i] == lines[j]
  {
    var rest := NonEmpty(lines[1..]);
    if lines[0] == "" {
      NonEmptyOrigin(lines[1..], i);
      var j :| 0 <= j < |lines[1..]| && rest[i] == lines[1..][j];
    } else if i > 0 {
      assert NonEmpty(lines) == [lines[0]] + rest;
      NonEmptyOrigin(lines[1..], i - 1);
      var j :| 0 <= j < |lines[1..]| && rest[i - 1] == lines[1..][j];
    }
  }

  datatype Reply = Reply(text: string, wire: Wire)
  datatype Step = Step(ok: bool, wire: Wire)
  /** The boolean result of a transfer, with the number of file lines acknowledged. */
  datatype Outcome = Outcome(ok: bool, sent: nat, wire: Wire)

  /** `send_command`: writes the stripped command and a newline; a closed port writes nothing. */
  function Send(w: Wire, command: string): Step
  {
    if w.open then Step(true, w.(trace := w.trace + [Tx(Strip(command) + "\n")])) else Step(false, w)
  }

  /** `read_response`: the kept reply lines joined by "\n"; a closed port yields "". */
  function Read(w: Wire, polls: nat): Reply
  {
    if !w.open then Reply("", w)
    else
      var s := Scan(StripEach(w.pending), polls);
      Reply(JoinLines(s.kept),
            w.(pending := w.pending[s.consumed..], trace := w.trace + Rxs(w.pending[..s.consumed])))
  }

  /** The loop of `read_response` itself, from the point where `budget` polls are left and
      `kept` are the lines kept so far: a poll that finds nothing waiting only uses up the
      poll; one that finds a line reads it, keeps it when its stripped form is non-empty, and
      breaks out of the loop when that line starts with `ok` or `error`. The reply is the
      kept lines joined by "\n". */
  function ReadLoop(v: Wire, budget: nat, kept: seq<string>): Reply
    decreases budget
  {
    if budget == 0 then Reply(JoinLines(kept), v)
    else if v.pending == [] then ReadLoop(v, budget - 1, kept)
    else
      var raw := v.pending[0];
      var line := Strip(raw);
      var next := v.(pending := v.pending[1..], trace := v.trace + [Rx(raw)]);
      if line == "" then ReadLoop(next, budget - 1, kept)
      else if IsAck(line) then Reply(JoinLines(kept + [line]), next)
      else ReadLoop(next, budget - 1, kept + [line])
  }

  /** What `Scan` says the loop gives from `v` with `budget` polls left and `kept` kept so
      far: the lines it keeps are appended to `kept`, and the lines it takes leave the queue
      for the trace, in order. */
  function ScanFrom(v: Wire, budget: nat, kept: seq<string>): Reply
  {
    After(v, kept, Scan(StripEach(v.pending), budget))
  }

  /** The reply once the lines `s` describes are read from `v`, after `kept`. */
  function After(v: Wire, kept: seq<string>, s: Scanned): Reply
    requires s.consumed <= |v.pending|
  {
    Reply(JoinLines(kept + s.kept), v.(pending := v.pending[s.consumed..], trace := v.trace + Rxs(v.pending[..s.consumed])))
  }

  /** The loop computes what `Scan` describes. The proof is by induction on the polls
      left, one case lemma per kind of poll. */
  lemma {:induction false} ReadLoopScans(v: Wire, budget: nat, kept: seq<string>)
    ensures ReadLoop(v, budget, kept) == ScanFrom(v, budget, kept)
    decreases budget, 1
  {
    if budget == 0 || v.pending == [] {
      IdleLoopScans(v, budget, kept);
    } else {
      var line := Strip(v.pending[0]);
      var next := Wire(v.open, v.pending[1..], v.trace + [Rx(v.pending[0])]);
      if line != "" && IsAck(line) {
        AckLoopScans(v, next, budget, kept);
      } else {
        var kept1 := if line == "" then kept else kept + [line];
        NextLoopScans(v, next, budget, kept, kept1);
      }
    }
  }

  /** The case of a poll that finds nothing waiting, or of no poll left. */
  lemma IdleLoopScans(v: Wire, budget: nat, kept: seq<string>)
    requires budget == 0 || v.pending == []
    ensures ReadLoop(v, budget, kept) == ScanFrom(v, budget, kept)
    decreases budget, 0
  {
    if budget > 0 {
      ReadLoopScans(v, budget - 1, kept);
    }
    ScanFromIdle(v, budget, kept);
  }

  /** The case of a poll that reads an `ok`/`error` line. */
  lemma AckLoopScans(v: Wire, next: Wire, budget: nat, kept: seq<string>)
    requires budget > 0 && v.pending != []
    requires Strip(v.pending[0]) != "" && IsAck(Strip(v.pending[0]))
    requires next == Wire(v.open, v.pending[1..], v.trace + [Rx(v.pending[0])])
    ensures ReadLoop(v, budget, kept) == ScanFrom(v, budget, kept)
  {
    ScanFromAck(v, next, budget, kept);
  }

  /** The case of a poll that reads any other line. */
  lemma NextLoopScans(v: Wire, next: Wire, budget: nat, kept: seq<string>, kept1: seq<string>)
    requires budget > 0 && v.pending != []
    requires !(Strip(v.pending[0]) != "" && IsAck(Strip(v.pending[0])))
    requires next == Wire(v.open, v.pending[1..], v.trace + [Rx(v.pending[0])])
    requires kept1 == if Strip(v.pending[0]) == "" then kept else kept + [Strip(v.pending[0])]
    ensures ReadLoop(v, budget, kept) == ScanFrom(v, budget, kept)
    decreases budget, 0
  {
    ReadLoopNext(v, next, budget, kept, kept1);
    ReadLoopScans(next, budget - 1, kept1);
    ScanFromNext(v, next, budget, kept, kept1);
  }

  /** With no poll left or nothing waiting, nothing more is read. */
  lemma ScanFromIdle(v: Wire, budget: nat, kept: seq<string>)
    requires budget == 0 || v.pending == []
    ensures ScanFrom(v, budget, kept) == Reply(JoinLines(kept), v)
    ensures budget > 0 ==> ScanFrom(v, budget, kept) == ScanFrom(v, budget - 1, kept)
  {
    assert Scan(StripEach(v.pending), budget) == Scanned([], 0);
    if budget > 0 {
      assert Scan(StripEach(v.pending), budget - 1) == Scanned([], 0);
    }
    assert kept + [] == kept && v.pending[0..] == v.pending && v.pending[..0] == [];
  }

  /** An `ok`/`error` line is the last line read. */
  lemma ScanFromAck(v: Wire, next: Wire, budget: nat, kept: seq<string>)
    requires budget > 0 && v.pending != []
    requires Strip(v.pending[0]) != "" && IsAck(Strip(v.pending[0]))
    requires next == Wire(v.open, v.pending[1..], v.trace + [Rx(v.pending[0])])
    ensures ScanFrom(v, budget, kept) == Reply(JoinLines(kept + [Strip(v.pending[0])]), next)
  {
    ScanUnfold(v.pending, budget);
    assert Scan(StripEach(v.pending), budget) == Scanned([Strip(v.pending[0])], 1);
    assert v.pending[..1] == [v.pending[0]];
  }

  /** The loop, after a line that is not `ok`/`error`, goes on from the next line. */
  lemma ReadLoopNext(v: Wire, next: Wire, budget: nat, kept: seq<string>, kept1: seq<string>)
    requires budget > 0 && v.pending != []
    requires !(Strip(v.pending[0]) != "" && IsAck(Strip(v.pending[0])))
    requires next == Wire(v.open, v.pending[1..], v.trace + [Rx(v.pending[0])])
    requires kept1 == if Strip(v.pending[0]) == "" then kept else kept + [Strip(v.pending[0])]
    ensures ReadLoop(v, budget, kept) == ReadLoop(next, budget - 1, kept1)
  {
  }

  /** `Scan` past a line that is not `ok`/`error`: one line more is taken, and it is kept
      when non-empty. */
  lemma ScanPastLine(raw: seq<string>, budget: nat, kept: seq<string>, kept1: seq<string>)
    requires budget > 0 && raw != []
    requires !(Strip(raw[0]) != "" && IsAck(Strip(raw[0])))
    requires kept1 == if Strip(raw[0]) == "" then kept else kept + [Strip(raw[0])]
    ensures var s := Scan(StripEach(raw), budget);
      var s1 := Scan(StripEach(raw[1..]), budget - 1);
      && s.consumed == s1.consumed + 1
      && kept + s.kept == kept1 + s1.kept
  {
    ScanUnfold(raw, budget);
    var line := Strip(raw[0]);
    var s := Scan(StripEach(raw), budget);
    var rest := Scan(StripEach(raw[1..]), budget - 1);
    if line == "" {
      assert s == Scanned(rest.kept, rest.consumed + 1);
    } else {
      assert s == Scanned([line] + rest.kept, rest.consumed + 1);
      assert kept + ([line] + rest.kept) == (kept + [line]) + rest.kept;
    }
  }

  /** Any other line is read, kept when non-empty, and the rest of the read goes on from there. */
  lemma ScanFromNext(v: Wire, next: Wire, budget: nat, kept: seq<string>, kept1: seq<string>)
    requires budget > 0 && v.pending != []
    requires !(Strip(v.pending[0]) != "" && IsAck(Strip(v.pending[0])))
    requires next == Wire(v.open, v.pending[1..], v.trace + [Rx(v.pending[0])])
    requires kept1 == if Strip(v.pending[0]) == "" then kept else kept + [Strip(v.pending[0])]
    ensures ScanFrom(v, budget, kept) == ScanFrom(next, budget - 1, kept1)
  {
    ScanPastLine(v.pending, budget, kept, kept1);
    AfterNext(v, next, kept, kept1, Scan(StripEach(v.pending), budget), Scan(StripEach(next.pending), budget - 1));
  }

  /** Having read one line more from `v` is having read from `next`, the wire once its first
      line is read. */
  lemma AfterNext(v: Wire, next: Wire, kept: seq<string>, kept1: seq<string>, s: Scanned, s1: Scanned)
    requires v.pending != [] && next == Wire(v.open, v.pending[1..], v.trace + [Rx(v.pending[0])])
    requires s1.consumed <= |next.pending| && s.consumed == s1.consumed + 1
    requires kept + s.kept == kept1 + s1.kept
    ensures After(v, kept, s) == After(next, kept1, s1)
  {
    var n := s1.consumed;
    var taken := next.pending[..n];
    assert v.pending[..n + 1] == [v.pending[0]] + taken;
    RxsConcat([v.pending[0]], taken);
    assert v.trace + ([Rx(v.pending[0])] + Rxs(taken)) == next.trace + Rxs(taken);
    assert v.pending[n + 1..] == next.pending[n..];
  }

  /** On an open port, `Read` is the loop run from its start. */
  lemma ReadIsLoop(w: Wire, polls: nat)
    requires w.open
    ensures Read(w, polls) == ReadLoop(w, polls, [])
  {
    ReadLoopScans(w, polls, []);
    assert [] + Scan(StripEach(w.pending), polls).kept == Scan(StripEach(w.pending), polls).kept;
  }

  /** `wait_for_ok`: reads until a reply contains "ok" (true) or "error" (false), or the
      rounds run out (false). */
  function AwaitOk(w: Wire, rounds: nat, polls: nat): Step
    decreases rounds
  {
    if rounds == 0 then Step(false, w)
    else
      var r := Read(w, polls);
      if Contains(r.text, "ok") then Step(true, r.wire)
      else if Contains(r.text, "error") then Step(false, r.wire)
      else AwaitOk(r.wire, rounds - 1, polls)
  }

  /** `w1` is `w0` after reading some of its pending lines, and nothing else. */
  predicate Drains(w0: Wire, w1: Wire)
  {
    && w1.open == w0.open
    && |w1.pending| <= |w0.pending|
    && var n := |w0.pending| - |w1.pending|;
       w0.pending == w0.pending[..n] + w1.pending && w1.trace == w0.trace + Rxs(w0.pending[..n])
  }

  lemma DrainsSince(w0: Wire, w1: Wire)
    requires Drains(w0, w1)
    ensures Extends(w0.trace, w1.trace)
    ensures Since(w0, w1) == Rxs(w0.pending[..|w0.pending| - |w1.pending|])
    ensures ReadsOnly(Since(w0, w1))
  {
    assert w1.trace[..|w0.trace|] == w0.trace;
  }

  lemma DrainsTrans(a: Wire, b: Wire, c: Wire)
    requires Drains(a, b) && Drains(b, c)
    ensures Drains(a, c)
  {
    var n1, n2 := |a.pending| - |b.pending|, |b.pending| - |c.pending|;
    assert b.pending[..n2] == a.pending[n1..n1 + n2];
    assert a.pending[n1..][n2..] == a.pending[n1 + n2..];
    assert a.pending[..n1 + n2] == a.pending[..n1] + a.pending[n1..n1 + n2];
    RxsConcat(a.pending[..n1], a.pending[n1..n1 + n2]);
  }

  /** A read only takes lines off the link, recording them in the trace. */
  lemma ReadDrains(w: Wire, polls: nat)
    ensures Drains(w, Read(w, polls).wire)
  {
    if w.open {
      var s := Scan(StripEach(w.pending), polls);
      assert |w.pending| - |w.pending[s.consumed..]| == s.consumed;
    } else {
      assert w.pending[..0] == [];
    }
  }

  /** A pattern without "\n" found in a reply was in one raw line the read took off the link. */
  lemma ReadSees(w: Wire, polls: nat, p: string)
    requires '\n' !in p && p != ""
    requires Contains(Read(w, polls).text, p)
    ensures w.open
    ensures exists j :: 0 <= j < Scan(StripEach(w.pending), polls).consumed && Contains(w.pending[j], p)
  {
    var lines := StripEach(w.pending);
    var s := Scan(lines, polls);
    ScanKeepsNonEmpty(lines, polls);
    ContainsJoinLines(s.kept, p);
    var i :| 0 <= i < |s.kept| && Contains(s.kept[i], p);
    NonEmptyOrigin(lines[..s.consumed], i);
    var j :| 0 <= j < s.consumed && s.kept[i] == lines[..s.consumed][j];
    StripEachAt(w.pending, j);
    ContainsStripped(w.pending[j], p);
  }

  /** Waiting only takes lines off the link. */
  lemma {:induction false} AwaitOkDrains(w: Wire, rounds: nat, polls: nat)
    ensures Drains(w, AwaitOk(w, rounds, polls).wire)
    decreases rounds
  {
    var a := AwaitOk(w, rounds, polls);
    if rounds == 0 {
      assert a.wire == w;
      assert w.pending[..0] == [] && w.pending[0..] == w.pending;
    } else {
      var r := Read(w, polls);
      ReadDrains(w, polls);
      if Contains(r.text, "ok") || Contains(r.text, "error") {
        assert a.wire == r.wire;
      } else {
        var b := AwaitOk(r.wire, rounds - 1, polls);
        assert a == b;
        AwaitOkDrains(r.wire, rounds - 1, polls);
        DrainsTrans(w, r.wire, b.wire);
      }
    }
  }

  /** A reply that contains "ok" comes from reading a line that contains "ok". */
  lemma ReadSawOk(w: Wire, polls: nat)
    requires Contains(Read(w, polls).text, "ok")
    ensures Extends(w.trace, Read(w, polls).wire.trace)
    ensures SawOk(Since(w, Read(w, polls).wire))
  {
    var r := Read(w, polls);
    ReadDrains(w, polls);
    DrainsSince(w, r.wire);
    ReadSees(w, polls, "ok");
    var n := Scan(StripEach(w.pending), polls).consumed;
    var j :| 0 <= j < n && Contains(w.pending[j], "ok");
    assert w.pending[..n][j] == w.pending[j];
    SawOkReads(w.pending[..n], j);
  }

  /** An acknowledgment means a line containing "ok" was read while waiting. */
  lemma {:induction false} AwaitOkSeen(w: Wire, rounds: nat, polls: nat)
    ensures Extends(w.trace, AwaitOk(w, rounds, polls).wire.trace)
    ensures var a := AwaitOk(w, rounds, polls); a.ok ==> SawOk(Since(w, a.wire))
    decreases rounds
  {
    var a := AwaitOk(w, rounds, polls);
    AwaitOkDrains(w, rounds, polls);
    DrainsSince(w, a.wire);
    if rounds > 0 {
      var r := Read(w, polls);
      ReadDrains(w, polls);
      DrainsSince(w, r.wire);
      if Contains(r.text, "ok") {
        assert a == Step(true, r.wire);
        ReadSawOk(w, polls);
      } else if Contains(r.text, "error") {
        assert !a.ok;
      } else {
        var b := AwaitOk(r.wire, rounds - 1, polls);
        assert a == b;
        AwaitOkSeen(r.wire, rounds - 1, polls);
        SinceConcat(w, r.wire, b.wire);
        SawOkConcat(Since(w, r.wire), Since(r.wire, b.wire));
      }
    }
  }

  /** When no line the controller will send contains "ok", waiting ends in failure. */
  lemma WaitTimesOutWithoutOk(w: Wire, rounds: nat, polls: nat)
    requires forall j :: 0 <= j < |w.pending| ==> !Contains(w.pending[j], "ok")
    ensures !AwaitOk(w, rounds, polls).ok
  {
    var a := AwaitOk(w, rounds, polls);
    AwaitOkDrains(w, rounds, polls);
    AwaitOkSeen(w, rounds, polls);
    DrainsSince(w, a.wire);
    var n := |w.pending| - |a.wire.pending|;
    assert forall k :: 0 <= k < n ==> Rxs(w.pending[..n])[k] == Rx(w.pending[k]);
  }

  /** An `error` reply (without "ok") as the next line ends the wait at once, after one line. */
  lemma WaitStopsAtError(w: Wire, rounds: nat, polls: nat)
    requires w.open && rounds > 0 && polls > 0 && w.pending != []
    requires StartsWith(Strip(w.pending[0]), "error") && !Contains(Strip(w.pending[0]), "ok")
    ensures AwaitOk(w, rounds, polls)
         == Step(false, w.(pending := w.pending[1..], trace := w.trace + [Rx(w.pending[0])]))
  {
    var line := Strip(w.pending[0]);
    StripEachAt(w.pending, 0);
    assert Scan(StripEach(w.pending), polls) == Scanned([line], 1);
    assert Rxs(w.pending[..1]) == [Rx(w.pending[0])];
  }

  /** `send_command` writes exactly the stripped command and "\n" when the port is open, and nothing otherwise. */
  lemma SendWrites(w: Wire, command: string)
    ensures var s := Send(w, command);
      && s.ok == w.open && s.wire.open == w.open && s.wire.pending == w.pending
      && Extends(w.trace, s.wire.trace)
      && Txs(Since(w, s.wire)) == (if w.open then [Strip(command) + "\n"] else [])
  {
    var s := Send(w, command);
    assert s.wire.trace[..|w.trace|] == w.trace;
    if w.open {
      assert Since(w, s.wire) == [Tx(Strip(command) + "\n")];
      assert Txs([Tx(Strip(command) + "\n")]) == [Strip(command) + "\n"] + Txs([]);
    } else {
      assert Since(w, s.wire) == [];
    }
  }

  /** The command lines of a file, each with its terminating newline. */
  function Framed(commands: seq<string>): (r: seq<string>)
    ensures |r| == |commands| && forall i :: 0 <= i < |r| ==> r[i] == commands[i] + "\n"
  {
    seq(|commands|, i requires 0 <= i < |commands| => commands[i] + "\n")
  }

  /** Commands free of surrounding whitespace, as `Commands` yields them. */
  predicate AllStripped(commands: seq<string>)
  {
    forall i :: 0 <= i < |commands| ==> Stripped(commands[i])
  }

  /** The write and the wait for one command, bundled. */
  lemma OneCommand(w: Wire, command: string)
    requires w.open && Stripped(command)
    ensures var s := Send(w, command);
      var a := AwaitOk(s.wire, ACK_ROUNDS, ACK_POLLS);
      && s.ok
      && a.wire.open
      && Extends(w.trace, a.wire.trace)
      && Extends(s.wire.trace, a.wire.trace)
      && Since(w, a.wire) == [Tx(command + "\n")] + Since(s.wire, a.wire)
      && ReadsOnly(Since(s.wire, a.wire))
      && Txs(Since(w, a.wire)) == [command + "\n"]
      && (a.ok ==> SawOk(Since(s.wire, a.wire)))
  {
    var s := Send(w, command);
    var a := AwaitOk(s.wire, ACK_ROUNDS, ACK_POLLS);
    SendWrites(w, command);
    AwaitOkDrains(s.wire, ACK_ROUNDS, ACK_POLLS);
    AwaitOkSeen(s.wire, ACK_ROUNDS, ACK_POLLS);
    DrainsSince(s.wire, a.wire);
    SinceConcat(w, s.wire, a.wire);
    assert Since(w, s.wire) == [Tx(command + "\n")];
    ReadsWriteNothing(Since(s.wire, a.wire));
    TxsConcat([Tx(command + "\n")], Since(s.wire, a.wire));
    assert Txs([Tx(command + "\n")]) == [command + "\n"] + Txs([]);
  }

  /** One command's exchange as `send_gcode_file` does it: `send_command`, then `wait_for_ok()`. */
  function Round(w: Wire, command: string): Step
  {
    var s := Send(w, command);
    if !s.ok then s else AwaitOk(s.wire, ACK_ROUNDS, ACK_POLLS)
  }

  /** What one exchange promises: on a closed link nothing happens and it fails; on an open
      link the link stays open, the stripped command is the one thing written, and an
      acknowledgment means a line with "ok" was read after it. */
  predicate RoundSpec(w: Wire, command: string, st: Step)
  {
    && (!w.open ==> st == Step(false, w))
    && (w.open ==>
          && st.wire.open
          && Extends(w.trace, st.wire.trace)
          && Txs(Since(w, st.wire)) == [Strip(command) + "\n"]
          && Paced(Since(w, st.wire))
          && (st.ok ==> Settled(Since(w, st.wire))))
  }

  /** Every exchange `round` performs meets `RoundSpec`. */
  ghost predicate Sound(round: (Wire, string) -> Step)
  {
    forall w: Wire, command: string :: RoundSpec(w, command, round(w, command))
  }

  /** `send_command` followed by `wait_for_ok` meets `RoundSpec`. */
  lemma RoundMeetsSpec(w: Wire, command: string)
    ensures RoundSpec(w, command, Round(w, command))
  {
    if w.open {
      var c := Strip(command);
      var s := Send(w, command);
      var a := AwaitOk(s.wire, ACK_ROUNDS, ACK_POLLS);
      assert Send(w, c) == s;
      OneCommand(w, c);
      OneRound(c + "\n", Since(s.wire, a.wire));
    }
  }

  lemma RoundSound()
    ensures Sound(Round)
  {
    forall w: Wire, command: string ensures RoundSpec(w, command, Round(w, command)) {
      RoundMeetsSpec(w, command);
    }
  }

  /** The loop of `send_gcode_file` over the commands of the file, each exchanged by
      `round`; the first failure ends the transfer. `sent` counts acknowledged commands
      (the `line_count` the loop logs). */
  function Stream(round: (Wire, string) -> Step, w: Wire, commands: seq<string>, sent: nat): Outcome
    decreases |commands|
  {
    if commands == [] then Outcome(true, sent, w)
    else
      var a := round(w, commands[0]);
      if !a.ok then Outcome(false, sent, a.wire)
      else Stream(round, a.wire, commands[1..], sent + 1)
  }

  /** One more command of the stream: its round, then the rest when it was acknowledged. */
  lemma StreamStep(round: (Wire, string) -> Step, w: Wire, command: string, rest: seq<string>, sent: nat)
    ensures Stream(round, w, [command] + rest, sent)
      == var a := round(w, command); if !a.ok then Outcome(false, sent, a.wire) else Stream(round, a.wire, rest, sent + 1)
  {
    assert ([command] + rest)[0] == command && ([command] + rest)[1..] == rest;
  }

  /** Where a transfer stands before file line `i`: a line without a command changes nothing;
      a command takes one round, and the transfer goes on only when it was acknowledged. */
  lemma FileLineStep(round: (Wire, string) -> Step, w: Wire, lines: seq<string>, i: nat, sent: nat)
    requires i < |lines|
    ensures var command, rest := Normalize(lines[i]), Commands(lines[i + 1..]);
      Stream(round, w, Commands(lines[i..]), sent)
        == if command == "" then Stream(round, w, rest, sent)
           else var a := round(w, command);
             if !a.ok then Outcome(false, sent, a.wire) else Stream(round, a.wire, rest, sent + 1)
  {
    FileStep(lines, i);
    StreamLineStep(round, w, Commands(lines[i..]), Normalize(lines[i]), Commands(lines[i + 1..]), sent);
  }

  /** The same step for a line whose command is `command` ("" for none). */
  lemma StreamLineStep(round: (Wire, string) -> Step, w: Wire, commands: seq<string>, command: string,
                       rest: seq<string>, sent: nat)
    requires commands == (if command == "" then [] else [command]) + rest
    ensures Stream(round, w, commands, sent)
      == if command == "" then Stream(round, w, rest, sent)
         else var a := round(w, command);
           if !a.ok then Outcome(false, sent, a.wire) else Stream(round, a.wire, rest, sent + 1)
  {
    if command == "" {
      assert commands == rest;
    } else {
      StreamStep(round, w, command, rest, sent);
    }
  }

  /** What a transfer of `commands` that ended in `t` wrote, starting from `w` with `sent`
      commands already acknowledged: commands in order, nothing after the first failure;
      on success every command was written and acknowledged, on failure the writes are the
      acknowledged commands plus, at most, the one that failed. */
  predicate WroteInOrder(w: Wire, commands: seq<string>, sent: nat, t: Outcome)
  {
    && t.wire.open == w.open
    && Extends(w.trace, t.wire.trace)
    && sent <= t.sent <= sent + |commands|
    && (t.ok <==> t.sent == sent + |commands|)
    && var tx := Txs(Since(w, t.wire));
       && (|tx| == t.sent - sent || (!t.ok && |tx| == t.sent - sent + 1))
       && |tx| <= |commands|
       && tx == Framed(commands)[..|tx|]
  }

  /** What happened as `Txs` over two stretches is the writes of the first, then of the second. */
  lemma TxsSinceConcat(w0: Wire, w1: Wire, w2: Wire)
    requires Extends(w0.trace, w1.trace) && Extends(w1.trace, w2.trace)
    ensures Extends(w0.trace, w2.trace)
    ensures Txs(Since(w0, w2)) == Txs(Since(w0, w1)) + Txs(Since(w1, w2))
  {
    SinceConcat(w0, w1, w2);
    TxsConcat(Since(w0, w1), Since(w1, w2));
  }

  /** One acknowledged command in front of a transfer. */
  lemma WroteInOrderCons(w: Wire, a: Wire, commands: seq<string>, sent: nat, t: Outcome)
    requires commands != []
    requires a.open == w.open && Extends(w.trace, a.trace) && Txs(Since(w, a)) == [commands[0] + "\n"]
    requires WroteInOrder(a, commands[1..], sent + 1, t)
    ensures WroteInOrder(w, commands, sent, t)
  {
    TxsSinceConcat(w, a, t.wire);
    var tx2 := Txs(Since(a, t.wire));
    var head, tail := commands[0] + "\n", Framed(commands[1..]);
    assert Framed(commands) == [head] + tail;
    assert Framed(commands)[..1 + |tx2|] == [head] + tail[..|tx2|];
  }

  /** The loop writes the commands in order, as `WroteInOrder` says. */
  lemma {:induction false} StreamWrites(round: (Wire, string) -> Step, w: Wire, commands: seq<string>, sent: nat)
    requires Sound(round) && AllStripped(commands)
    ensures WroteInOrder(w, commands, sent, Stream(round, w, commands, sent))
    decreases |commands|
  {
    if commands == [] {
      assert Since(w, w) == [];
    } else {
      var a := round(w, commands[0]);
      assert RoundSpec(w, commands[0], a);
      if !w.open {
        assert Since(w, w) == [];
      } else {
        assert Strip(commands[0]) == commands[0];
        if a.ok {
          AllStrippedTail(commands);
          StreamWrites(round, a.wire, commands[1..], sent + 1);
          WroteInOrderCons(w, a.wire, commands, sent, Stream(round, a.wire, commands[1..], sent + 1));
        } else {
          assert Framed(commands)[..1] == [commands[0] + "\n"];
        }
      }
    }
  }

  lemma AllStrippedTail(commands: seq<string>)
    requires commands != [] && AllStripped(commands)
    ensures AllStripped(commands[1..])
  {
    forall i | 0 <= i < |commands| - 1 ensures Stripped(commands[1..][i]) {
      assert commands[1..][i] == commands[i + 1];
    }
  }

  /** Between any two commands of a transfer an "ok" was read, and on success the last
      command was acknowledged too. */
  lemma {:induction false} StreamPaced(round: (Wire, string) -> Step, w: Wire, commands: seq<string>, sent: nat)
    requires Sound(round)
    ensures var t := Stream(round, w, commands, sent);
      && Extends(w.trace, t.wire.trace)
      && Paced(Since(w, t.wire))
      && (t.ok ==> Settled(Since(w, t.wire)))
    decreases |commands|
  {
    var t := Stream(round, w, commands, sent);
    if commands == [] {
      assert Since(w, t.wire) == [];
    } else {
      var a := round(w, commands[0]);
      assert RoundSpec(w, commands[0], a);
      if !w.open {
        assert Since(w, t.wire) == [];
      } else if a.ok {
        StreamPaced(round, a.wire, commands[1..], sent + 1);
        SinceConcat(w, a.wire, t.wire);
        PacedConcat(Since(w, a.wire), Since(a.wire, t.wire));
        if t.ok {
          SettledConcat(Since(w, a.wire), Since(a.wire, t.wire));
        }
      }
    }
  }

  /** The feed rate as the caller gave it: its text as Python formats it, and whether it is truthy. */
  datatype FeedRate = FeedRate(text: string, nonzero: bool)

  predicate HasFeed(feed: Option<FeedRate>)
  {
    feed.Some? && feed.value.nonzero
  }

  /** The optional `F<rate>` command that precedes the file. */
  function FeedPrefix(feed: Option<FeedRate>): seq<string>
  {
    if HasFeed(feed) then [Strip("F" + feed.value.text) + "\n"] else []
  }

  /** The feed command (if any), then the loop over `commands`. */
  function Deliver(round: (Wire, string) -> Step, w: Wire, commands: seq<string>, feed: Option<FeedRate>): Outcome
  {
    if HasFeed(feed) then
      var a := round(w, "F" + feed.value.text);
      if !a.ok then Outcome(false, 0, a.wire) else Stream(round, a.wire, commands, 0)
    else Stream(round, w, commands, 0)
  }

  /** `send_gcode_file` once the file was read and a connection exists. */
  function Transfer(round: (Wire, string) -> Step, w: Wire, lines: seq<string>, feed: Option<FeedRate>): Outcome
  {
    Deliver(round, w, Commands(lines), feed)
  }

  /** What was written, on any outcome, is the start of the feed command and the framed
      commands, and goes at most one command past those acknowledged: nothing is written
      after the first command that was not acknowledged. Success means all of them went out
      and every command was acknowledged; without a feed command, success is exactly that. */
  predicate WroteAll(w: Wire, commands: seq<string>, feed: Option<FeedRate>, t: Outcome)
  {
    var all := FeedPrefix(feed) + Framed(commands);
    && Extends(w.trace, t.wire.trace)
    && t.sent <= |commands|
    && (!HasFeed(feed) ==> (t.ok <==> t.sent == |commands|))
    && var tx := Txs(Since(w, t.wire));
       && |tx| <= |all|
       && tx == all[..|tx|]
       && |tx| <= |FeedPrefix(feed)| + t.sent + 1
       && (t.ok ==> t.sent == |commands| && tx == all)
  }

  /** The feed command (if any) and the loop write exactly what `WroteAll` says. */
  lemma DeliverWrites(round: (Wire, string) -> Step, w: Wire, commands: seq<string>, feed: Option<FeedRate>)
    requires Sound(round) && AllStripped(commands)
    ensures WroteAll(w, commands, feed, Deliver(round, w, commands, feed))
  {
    if !HasFeed(feed) {
      StreamWrites(round, w, commands, 0);
      assert FeedPrefix(feed) + Framed(commands) == Framed(commands);
    } else {
      FeedWrites(round, w, commands, feed);
    }
  }

  /** With a feed rate, its command is written first; once it is acknowledged the loop's
      writes follow it. */
  lemma FeedWrites(round: (Wire, string) -> Step, w: Wire, commands: seq<string>, feed: Option<FeedRate>)
    requires Sound(round) && AllStripped(commands) && HasFeed(feed)
    ensures WroteAll(w, commands, feed, Deliver(round, w, commands, feed))
  {
    var t := Deliver(round, w, commands, feed);
    var f := "F" + feed.value.text;
    var a := round(w, f);
    assert RoundSpec(w, f, a);
    if !w.open {
      assert Since(w, t.wire) == [];
    } else if a.ok {
      StreamWrites(round, a.wire, commands, 0);
      TxsSinceConcat(w, a.wire, t.wire);
      var tx2 := Txs(Since(a.wire, t.wire));
      assert (FeedPrefix(feed) + Framed(commands))[..1 + |tx2|] == FeedPrefix(feed) + Framed(commands)[..|tx2|];
    }
  }

  /** The whole transfer writes the feed command (if any) and then the file's commands, in
      that order and nothing else, as `WroteAll` says. */
  lemma TransferWrites(round: (Wire, string) -> Step, w: Wire, lines: seq<string>, feed: Option<FeedRate>)
    requires Sound(round)
    ensures WroteAll(w, Commands(lines), feed, Transfer(round, w, lines, feed))
  {
    CommandsWellFormed(lines);
    DeliverWrites(round, w, Commands(lines), feed);
  }

  /** A transfer keeps one command in flight at a time, and on success the last command
      was acknowledged. */
  lemma TransferPaced(round: (Wire, string) -> Step, w: Wire, lines: seq<string>, feed: Option<FeedRate>)
    requires Sound(round)
    ensures var t := Transfer(round, w, lines, feed);
      && Extends(w.trace, t.wire.trace)
      && Paced(Since(w, t.wire))
      && (t.ok ==> Settled(Since(w, t.wire)))
  {
    var t := Transfer(round, w, lines, feed);
    var commands := Commands(lines);
    if !HasFeed(feed) {
      StreamPaced(round, w, commands, 0);
    } else {
      var f := "F" + feed.value.text;
      var a := round(w, f);
      assert RoundSpec(w, f, a);
      if !w.open {
        assert Since(w, t.wire) == [];
      } else if a.ok {
        StreamPaced(round, a.wire, commands, 0);
        SinceConcat(w, a.wire, t.wire);
        PacedConcat(Since(w, a.wire), Since(a.wire, t.wire));
        if t.ok {
          SettledConcat(Since(w, a.wire), Since(a.wire, t.wire));
        }
      }
    }
  }

  /** `send_gcode_file` as written, with `send_command` and `wait_for_ok()` for each command:
      it writes the feed command and the commands in order, one at a time, and succeeds only
      when every command was written and acknowledged. */
  lemma SendFilePromise(w: Wire, lines: seq<string>, feed: Option<FeedRate>)
    ensures var t := Transfer(Round, w, lines, feed);
      && WroteAll(w, Commands(lines), feed, t)
      && Paced(Since(w, t.wire))
      && (t.ok ==> Settled(Since(w, t.wire)))
  {
    RoundSound();
    TransferWrites(Round, w, lines, feed);
    TransferPaced(Round, w, lines, feed);
  }

  /** The controller's next `n` lines are all "ok". */
  predicate AnswersOk(w: Wire, n: nat)
  {
    n <= |w.pending| && forall i :: 0 <= i < n ==> w.pending[i] == "ok"
  }

  /** One exchange with a controller whose next line is "ok": the command is acknowledged
      by that line, and only that line is read. */
  lemma RoundAcked(w: Wire, command: string)
    requires w.open && w.pending != [] && w.pending[0] == "ok"
    ensures var a := Round(w, command); a.ok && a.wire.open && a.wire.pending == w.pending[1..]
  {
    var s := Send(w, command);
    ScanUnfold(s.wire.pending, ACK_POLLS);
    assert Stripped("ok");
    var r := Read(s.wire, ACK_POLLS);
    assert Scan(StripEach(s.wire.pending), ACK_POLLS) == Scanned(["ok"], 1);
    assert r.text == "ok";
    assert Contains(r.text, "ok");
  }

  /** A controller that answers each of the commands with an "ok" line gets all of them:
      the file loop succeeds, counts every command and reads one line per command. */
  lemma {:induction false} StreamOnOks(w: Wire, commands: seq<string>, sent: nat)
    requires w.open && AnswersOk(w, |commands|)
    ensures var t := Stream(Round, w, commands, sent);
      t.ok && t.sent == sent + |commands| && t.wire.pending == w.pending[|commands|..]
    decreases |commands|
  {
    if commands != [] {
      var a := Round(w, commands[0]);
      RoundAcked(w, commands[0]);
      forall i | 0 <= i < |commands| - 1 ensures a.wire.pending[i] == "ok" {
        assert a.wire.pending[i] == w.pending[i + 1];
      }
      assert AnswersOk(a.wire, |commands[1..]|);
      StreamOnOks(a.wire, commands[1..], sent + 1);
      assert a.wire.pending[|commands| - 1..] == w.pending[|commands|..];
    }
  }

  /** `send_gcode_file` without a feed rate, to a controller that answers each command of
      the file with "ok": every command is sent and acknowledged, exactly the framed commands
      are written, and one answer per command is read. */
  lemma TransferOnOks(w: Wire, lines: seq<string>)
    requires w.open && AnswersOk(w, |Commands(lines)|)
    ensures var t := Transfer(Round, w, lines, None);
      && t.ok && t.sent == |Commands(lines)|
      && t.wire.pending == w.pending[|Commands(lines)|..]
      && Extends(w.trace, t.wire.trace)
      && Txs(Since(w, t.wire)) == Framed(Commands(lines))
  {
    var commands := Commands(lines);
    StreamOnOks(w, commands, 0);
    SendFilePromise(w, lines, None);
    assert FeedPrefix(None) + Framed(commands) == Framed(commands);
  }

  /** The four-line file of `ExampleCommands`, sent by `send_gcode_file` to a controller
      that answers "ok" three times: the transfer succeeds with three lines sent, and it
      reads just the three answers. */
  lemma ExampleTransfer(w: Wire)
    requires w.open && AnswersOk(w, 3)
    ensures var t := Transfer(Round, w, EXAMPLE_FILE, None);
      t.ok && t.sent == 3 && t.wire.pending == w.pending[3..]
  {
    ExampleCount();
    TransferOnOks(w, EXAMPLE_FILE);
  }

  /** When the feed command is not acknowledged (or cannot be written), the transfer fails
      before any file line is written. */
  lemma FeedFailureAborts(round: (Wire, string) -> Step, w: Wire, lines: seq<string>, feed: Option<FeedRate>)
    requires Sound(round) && HasFeed(feed) && !round(w, "F" + feed.value.text).ok
    ensures var t := Transfer(round, w, lines, feed);
      && !t.ok && t.sent == 0
      && Extends(w.trace, t.wire.trace)
      && Txs(Since(w, t.wire)) == (if w.open then FeedPrefix(feed) else [])
  {
    var t := Transfer(round, w, lines, feed);
    assert RoundSpec(w, "F" + feed.value.text, round(w, "F" + feed.value.text));
    if !w.open {
      assert Since(w, t.wire) == [];
    }
  }

  /** `connect` after the port opened: send `$I`, then read for up to 10 s. */
  function Handshake(replies: seq<string>): Reply
  {
    Read(Send(Wire(true, replies, []), "$I").wire, CONNECT_POLLS)
  }

  /** The handshake writes `$I` and reads part of the reply; it is accepted exactly when
      one of the reply lines it kept carries the firmware signature, which then was sent
      by the controller. */
  lemma HandshakeShape(replies: seq<string>)
    ensures var h := Handshake(replies);
      var s := Scan(StripEach(replies), CONNECT_POLLS);
      && h.wire.open
      && h.wire.pending == replies[s.consumed..]
      && h.wire.trace == [Tx("$I\n")] + Rxs(replies[..s.consumed])
      && (Contains(h.text, SIGNATURE) <==> exists i :: 0 <= i < |s.kept| && Contains(s.kept[i], SIGNATURE))
      && (Contains(h.text, SIGNATURE) ==> exists j :: 0 <= j < s.consumed && Contains(replies[j], SIGNATURE))
  {
    var s := Scan(StripEach(replies), CONNECT_POLLS);
    var w := Wire(true, replies, [Tx("$I\n")]);
    assert Stripped("$I");
    assert "$I" + "\n" == "$I\n";
    assert Send(Wire(true, replies, []), "$I").wire == w;
    assert Handshake(replies) == Read(w, CONNECT_POLLS);
    ContainsJoinLines(s.kept, SIGNATURE);
    if Contains(Handshake(replies).text, SIGNATURE) {
      ReadSees(w, CONNECT_POLLS, SIGNATURE);
    }
  }
}
