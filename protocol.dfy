/** `GRBLProtocol` from grbl_protocol.py: the asyncio protocol that collects the bytes the
    controller sends and reports every complete line. Only the buffering and the decoding
    of each reported line are modelled; the reports ("Received: ...") are kept as a log of
    the lines reported, in order. */
module LineBuffer {

  newtype byte = x: int | 0 <= x < 256

  /** `b"\n"`. */
  const NL: byte := 10

  /** The number of newline bytes in `s`. */
  function CountNL(s: seq<byte>): nat
  {
    if s == [] then 0 else (if s[0] == NL then 1 else 0) + CountNL(s[1..])
  }

  /** Python's `s.split(b"\n")`: the pieces between newlines, always at least one. */
  function Split(s: seq<byte>): (r: seq<seq<byte>>)
    ensures |r| >= 1
    decreases |s|
  {
    if s == [] then [[]]
    else
      var r := Split(s[1..]);
      if s[0] == NL then [[]] + r else [[s[0]] + r[0]] + r[1..]
  }

  /** `b"\n".join(parts)`. */
  function Join(parts: seq<seq<byte>>): seq<byte>
    requires |parts| >= 1
    decreases |parts|
  {
    if |parts| == 1 then parts[0] else parts[0] + [NL] + Join(parts[1..])
  }

  /** Joining the pieces again gives back the bytes that were split. */
  lemma {:induction false} JoinSplit(s: seq<byte>)
    ensures Join(Split(s)) == s
    decreases |s|
  {
    if s != [] {
      var r := Split(s[1..]);
      JoinSplit(s[1..]);
      if s[0] == NL {
        assert Split(s) == [[]] + r;
        assert ([[]] + r)[1..] == r;
      } else {
        var parts := [[s[0]] + r[0]] + r[1..];
        assert Split(s) == parts;
        if |r| > 1 {
          assert parts[1..] == r[1..];
          assert Join(r) == r[0] + [NL] + Join(r[1..]);
        }
        assert s == [s[0]] + s[1..];
      }
    }
  }

  /** No piece holds a newline. */
  lemma {:induction false} SplitPiecesClean(s: seq<byte>)
    ensures forall i :: 0 <= i < |Split(s)| ==> NL !in Split(s)[i]
    decreases |s|
  {
    if s != [] {
      SplitPiecesClean(s[1..]);
      var r := Split(s[1..]);
      if s[0] == NL {
        forall i | 0 < i < |Split(s)| ensures NL !in Split(s)[i] {
          assert Split(s)[i] == r[i - 1];
        }
      } else {
        forall i | 0 < i < |Split(s)| ensures NL !in Split(s)[i] {
          assert Split(s)[i] == r[i];
        }
      }
    }
  }

  /** There is one piece more than there are newlines. */
  lemma {:induction false} SplitCount(s: seq<byte>)
    ensures |Split(s)| == CountNL(s) + 1
    decreases |s|
  {
    if s != [] {
      SplitCount(s[1..]);
    }
  }

  /** Without a newline there is nothing to split. */
  lemma {:induction false} SplitWithoutNewline(s: seq<byte>)
    requires NL !in s
    ensures Split(s) == [s]
    decreases |s|
  {
    if s != [] {
      assert NL !in s[1..];
      SplitWithoutNewline(s[1..]);
      assert s == [s[0]] + s[1..];
    }
  }

  /** Joining one more piece puts a newline before it. */
  lemma {:induction false} JoinSnoc(parts: seq<seq<byte>>, last: seq<byte>)
    requires |parts| >= 1
    ensures Join(parts + [last]) == Join(parts) + [NL] + last
    decreases |parts|
  {
    var all := parts + [last];
    if |parts| > 1 {
      assert all[1..] == parts[1..] + [last];
      JoinSnoc(parts[1..], last);
    } else {
      assert all[1..] == [last];
    }
  }

  /** The complete lines in `s`: every piece but the last. */
  function Complete(s: seq<byte>): seq<seq<byte>>
  {
    var parts := Split(s);
    parts[..|parts| - 1]
  }

  /** The unterminated end of `s`: the last piece. */
  function Tail(s: seq<byte>): seq<byte>
  {
    var parts := Split(s);
    parts[|parts| - 1]
  }

  /** No byte is lost: with a newline, the bytes are the complete lines joined by newlines,
      a newline, then the tail; without one, there are no complete lines and the tail is
      all of it. */
  lemma NothingLost(s: seq<byte>)
    ensures NL in s ==> Complete(s) != [] && s == Join(Complete(s)) + [NL] + Tail(s)
    ensures NL !in s ==> Complete(s) == [] && Tail(s) == s
  {
    var parts := Split(s);
    if NL in s {
      SplitCount(s);
      CountPositive(s);
      JoinSplit(s);
      assert parts == Complete(s) + [Tail(s)];
      JoinSnoc(Complete(s), Tail(s));
    } else {
      SplitWithoutNewline(s);
    }
  }

  lemma {:induction false} CountPositive(s: seq<byte>)
    requires NL in s
    ensures CountNL(s) > 0
    decreases |s|
  {
    if s[0] != NL {
      assert NL in s[1..];
      CountPositive(s[1..]);
    }
  }

  /** A prefix of the bytes keeps its complete lines in front of those of the whole. */
  lemma {:induction false} SplitPrefix(a: seq<byte>, b: seq<byte>)
    ensures |Split(a)| <= |Split(a + b)|
    ensures Split(a)[..|Split(a)| - 1] == Split(a + b)[..|Split(a)| - 1]
    decreases |a|
  {
    if a != [] {
      assert (a + b)[1..] == a[1..] + b;
      SplitPrefix(a[1..], b);
      var ra, rb := Split(a[1..]), Split(a[1..] + b);
      var m := |ra|;
      if a[0] == NL {
        assert Split(a)[..m] == [[]] + ra[..m - 1];
        assert Split(a + b)[..m] == [[]] + rb[..m - 1];
      } else if m > 1 {
        assert ra[0] == ra[..m - 1][0] == rb[..m - 1][0] == rb[0];
        assert Split(a)[..m - 1] == [[a[0]] + ra[0]] + ra[1..m - 1];
        assert ra[1..m - 1] == ra[..m - 1][1..] == rb[..m - 1][1..] == rb[1..m - 1];
        assert Split(a + b)[..m - 1] == [[a[0]] + rb[0]] + rb[1..m - 1];
      }
    }
  }

  /** The complete lines of `s` stay the first complete lines once more bytes arrive. */
  lemma CompletePrefix(s: seq<byte>, d: seq<byte>)
    ensures |Complete(s)| <= |Complete(s + d)|
    ensures Complete(s + d)[..|Complete(s)|] == Complete(s)
  {
    SplitPrefix(s, d);
  }

  /** As many complete lines as newlines; neither they nor the tail hold a newline. */
  lemma LinesAndTail(s: seq<byte>)
    ensures |Complete(s)| == CountNL(s)
    ensures NL !in Tail(s)
    ensures forall i :: 0 <= i < |Complete(s)| ==> NL !in Complete(s)[i]
  {
    SplitCount(s);
    SplitPiecesClean(s);
    var parts := Split(s);
    forall i | 0 <= i < |Complete(s)| ensures NL !in Complete(s)[i] {
      assert Complete(s)[i] == parts[i];
    }
  }

  /** A continuation byte of a multi-byte UTF-8 sequence. */
  predicate Continuation(b: byte)
  {
    0x80 <= b <= 0xBF
  }

  /** Whether `line.decode()`, Python's strict UTF-8 decoder, accepts the bytes: the
      well-formed byte sequences of RFC 3629, section 4 (no overlong forms, no surrogates,
      nothing above U+10FFFF). */
  predicate Decodable(s: seq<byte>)
    decreases |s|
  {
    if s == [] then true
    else if s[0] < 0x80 then Decodable(s[1..])
    else if 0xC2 <= s[0] <= 0xDF then
      |s| >= 2 && Continuation(s[1]) && Decodable(s[2..])
    else if 0xE0 <= s[0] <= 0xEF then
      && |s| >= 3
      && (if s[0] == 0xE0 then 0xA0 <= s[1] <= 0xBF
          else if s[0] == 0xED then 0x80 <= s[1] <= 0x9F
          else Continuation(s[1]))
      && Continuation(s[2])
      && Decodable(s[3..])
    else if 0xF0 <= s[0] <= 0xF4 then
      && |s| >= 4
      && (if s[0] == 0xF0 then 0x90 <= s[1] <= 0xBF
          else if s[0] == 0xF4 then 0x80 <= s[1] <= 0x8F
          else Continuation(s[1]))
      && Continuation(s[2]) && Continuation(s[3])
      && Decodable(s[4..])
    else false
  }

  /** GRBL answers in ASCII, and ASCII always decodes. */
  lemma {:induction false} AsciiDecodes(s: seq<byte>)
    requires forall i :: 0 <= i < |s| ==> s[i] < 0x80
    ensures Decodable(s)
    decreases |s|
  {
    if s != [] {
      AsciiDecodes(s[1..]);
    }
  }

  /** How many of `lines` are reported before the first one that does not decode. */
  function Reported(lines: seq<seq<byte>>): (n: nat)
    ensures n <= |lines|
    decreases |lines|
  {
    if lines == [] || !Decodable(lines[0]) then 0 else 1 + Reported(lines[1..])
  }

  /** `Reported` counts the lines before the first that does not decode: all of them when
      every line decodes. */
  lemma {:induction false} ReportedSpec(lines: seq<seq<byte>>)
    ensures forall i :: 0 <= i < Reported(lines) ==> Decodable(lines[i])
    ensures Reported(lines) < |lines| ==> !Decodable(lines[Reported(lines)])
    decreases |lines|
  {
    if lines != [] && Decodable(lines[0]) {
      ReportedSpec(lines[1..]);
      forall i | 0 < i < Reported(lines) ensures Decodable(lines[i]) {
        assert lines[i] == lines[1..][i - 1];
      }
    }
  }

  /** Conversely, the first line that does not decode is the one `Reported` stops at. */
  lemma ReportedAt(lines: seq<seq<byte>>, i: nat)
    requires i <= |lines|
    requires forall j :: 0 <= j < i ==> Decodable(lines[j])
    requires i < |lines| ==> !Decodable(lines[i])
    ensures Reported(lines) == i
  {
    ReportedSpec(lines);
  }

  /** When a line fails to decode, any bytes that arrive later leave it where it is: the
      next text fails on the same line again, after reporting the same lines again. */
  lemma JamRepeats(s: seq<byte>, d: seq<byte>)
    requires Reported(Complete(s)) < |Complete(s)|
    ensures var k := Reported(Complete(s));
      && Reported(Complete(s + d)) == k < |Complete(s + d)|
      && Complete(s + d)[..k] == Complete(s)[..k]
  {
    CompletePrefix(s, d);
    var xs, ys := Complete(s), Complete(s + d);
    var k := Reported(xs);
    forall i | 0 <= i <= k ensures ys[i] == xs[i] {
      assert ys[..|xs|][i] == ys[i];
    }
    assert ys[..k] == ys[..|xs|][..k];
    ReportedSpec(xs);
    ReportedAt(ys, k);
  }

  /** One line of bytes that is not UTF-8, such as `b"\xff\n"`, jams the protocol. */
  lemma UndecodableLineJams()
    ensures var s: seq<byte> := [0xFF, NL]; Reported(Complete(s)) == 0 < |Complete(s)|
  {
    var s: seq<byte> := [0xFF, NL];
    var t: seq<byte> := [NL];
    assert Split(t[1..]) == [[]];
    assert Split(t) == [[], []];
    assert s[1..] == t;
    assert Split(s) == [[s[0]] + Split(t)[0]] + Split(t)[1..];
    assert [s[0]] + Split(t)[0] == [0xFF];
    assert Complete(s) == [[0xFF]];
  }

  class GrblProtocol {
    /** `self.buffer`: bytes received and not yet reported. */
    var buffer: seq<byte>
    /** The complete lines reported so far, in arrival order. */
    var received: seq<seq<byte>>

    /** The buffer holds no newline, as after every call that did not fail. */
    predicate Valid()
      reads this
    {
      NL !in buffer
    }

    constructor ()
      ensures buffer == [] && received == []
      ensures Valid()
    {
      buffer := [];
      received := [];
    }

    /** The loop over `lines[:-1]` in `data_received`: reports the lines in order until one
        does not decode, and answers how many were reported. */
    method ReportLines(complete: seq<seq<byte>>) returns (n: nat)
      modifies this
      ensures n == Reported(complete)
      ensures received == old(received) + complete[..n]
      ensures buffer == old(buffer)
    {
      n := 0;
      while n < |complete|
        invariant n <= |complete|
        invariant buffer == old(buffer)
        invariant received == old(received) + complete[..n]
        invariant forall j :: 0 <= j < n ==> Decodable(complete[j])
      {
        if !Decodable(complete[n]) {
          break;
        }
        received := received + [complete[n]];
        n := n + 1;
      }
      ReportedAt(complete, n);
    }

    /** `data_received(data)`: appends the data, then, when the buffer holds a newline,
        reports the complete lines in order and keeps the unterminated tail. Reporting a
        line decodes it; when a line does not decode, `UnicodeDecodeError` ends the call
        (`failed`) after the earlier lines were reported, and the buffer keeps all the
        bytes, newlines included. */
    method DataReceived(data: seq<byte>) returns (failed: bool)
      modifies this
      ensures var s := old(buffer) + data;
        failed == (Reported(Complete(s)) < |Complete(s)|)
      ensures var s := old(buffer) + data;
        received == old(received) + Complete(s)[..Reported(Complete(s))]
      ensures buffer == if failed then old(buffer) + data else Tail(old(buffer) + data)
      ensures !failed ==> Valid()
    {
      failed := false;
      buffer := buffer + data;
      ghost var s := buffer;
      LinesAndTail(s);
      if NL in buffer {
        var lines := Split(buffer);
        var n := ReportLines(lines[..|lines| - 1]);
        if n < |lines| - 1 {
          failed := true;
          return;
        }
        buffer := lines[|lines| - 1];
      } else {
        NothingLost(s);
      }
    }

    /** `data_received` with each line decoded as `line.decode(errors="replace")`, which
        never fails: every complete line is reported and the buffer keeps just the
        unterminated tail. */
    method DataReceivedReplacing(data: seq<byte>)
      modifies this
      ensures var s := old(buffer) + data;
        buffer == Tail(s) && received == old(received) + Complete(s)
      ensures Valid()
    {
      buffer := buffer + data;
      ghost var s := buffer;
      if NL in buffer {
        var lines := Split(buffer);
        var i := 0;
        while i < |lines| - 1
          invariant i <= |lines| - 1
          invariant buffer == s
          invariant received == old(received) + lines[..i]
        {
          received := received + [lines[i]];
          i := i + 1;
        }
        assert lines[..|lines| - 1] == Complete(s);
        buffer := lines[|lines| - 1];
      } else {
        NothingLost(s);
      }
      LinesAndTail(s);
    }
  }
}
