/** The serial link as the sender sees it. The hardware side (pyserial) is abstracted:
    the controller's output is a queue of lines waiting to be read, and everything that
    crosses the link is recorded, in order, as a trace of writes and reads. */
module Link {
  import opened Text

  /** One transfer on the link: bytes the host wrote, or one line it read. */
  datatype Event = Tx(data: string) | Rx(line: string)

  /** A snapshot of the link: open or not, the controller's unread lines, the trace so far. */
  datatype Wire = Wire(open: bool, pending: seq<string>, trace: seq<Event>)

  /** The trace of reading `lines`, one after the other. */
  function Rxs(lines: seq<string>): seq<Event>
  {
    seq(|lines|, i requires 0 <= i < |lines| => Rx(lines[i]))
  }

  /** The data written, in order. */
  function Txs(t: seq<Event>): seq<string>
  {
    if t == [] then [] else (if t[0].Tx? then [t[0].data] else []) + Txs(t[1..])
  }

  /** A trace without writes. */
  predicate ReadsOnly(t: seq<Event>)
  {
    forall i :: 0 <= i < |t| ==> t[i].Rx?
  }

  /** `t0` is an earlier state of the trace `t1`. */
  predicate Extends(t0: seq<Event>, t1: seq<Event>)
  {
    |t0| <= |t1| && t1[..|t0|] == t0
  }

  /** What happened on the link between two snapshots. */
  function Since(w0: Wire, w1: Wire): seq<Event>
    requires Extends(w0.trace, w1.trace)
  {
    w1.trace[|w0.trace|..]
  }

  /** A read of a line that contains "ok". */
  predicate OkLine(e: Event)
  {
    e.Rx? && Contains(e.line, "ok")
  }

  /** Some line with "ok" was read. */
  predicate SawOk(t: seq<Event>)
  {
    exists k :: 0 <= k < |t| && OkLine(t[k])
  }

  lemma SawOkConcat(a: seq<Event>, b: seq<Event>)
    ensures SawOk(a) || SawOk(b) ==> SawOk(a + b)
  {
    if SawOk(a) {
      var k :| 0 <= k < |a| && OkLine(a[k]);
      assert (a + b)[k] == a[k];
    } else if SawOk(b) {
      var k :| 0 <= k < |b| && OkLine(b[k]);
      assert (a + b)[|a| + k] == b[k];
    }
  }

  /** Reading a line that contains "ok" is seeing an "ok". */
  lemma SawOkReads(lines: seq<string>, j: nat)
    requires j < |lines| && Contains(lines[j], "ok")
    ensures SawOk(Rxs(lines))
  {
    assert OkLine(Rxs(lines)[j]);
  }

  /** One command in flight at a time: between any two writes a line with "ok" was read. */
  predicate Paced(t: seq<Event>)
  {
    forall i, j :: 0 <= i < j < |t| && t[i].Tx? && t[j].Tx? ==> exists k :: i < k < j && OkLine(t[k])
  }

  /** Every write was followed by a line with "ok". */
  predicate Settled(t: seq<Event>)
  {
    forall i :: 0 <= i < |t| && t[i].Tx? ==> exists k :: i < k < |t| && OkLine(t[k])
  }

  /** What happened over two stretches is what happened over the first, then over the second. */
  lemma SinceConcat(w0: Wire, w1: Wire, w2: Wire)
    requires Extends(w0.trace, w1.trace) && Extends(w1.trace, w2.trace)
    ensures Extends(w0.trace, w2.trace)
    ensures Since(w0, w2) == Since(w0, w1) + Since(w1, w2)
  {
    assert w2.trace[..|w1.trace|][..|w0.trace|] == w2.trace[..|w0.trace|];
    assert w2.trace[|w0.trace|..] == w2.trace[|w0.trace|..|w1.trace|] + w2.trace[|w1.trace|..];
  }

  lemma {:induction false} TxsConcat(a: seq<Event>, b: seq<Event>)
    ensures Txs(a + b) == Txs(a) + Txs(b)
    decreases |a|
  {
    if a != [] {
      assert (a + b)[0] == a[0] && (a + b)[1..] == a[1..] + b;
      TxsConcat(a[1..], b);
      var head := if a[0].Tx? then [a[0].data] else [];
      assert Txs(a + b) == head + Txs(a[1..] + b);
    } else {
      assert a + b == b;
    }
  }

  lemma {:induction false} ReadsWriteNothing(t: seq<Event>)
    requires ReadsOnly(t)
    ensures Txs(t) == []
    decreases |t|
  {
    if t != [] {
      ReadsWriteNothing(t[1..]);
    }
  }

  lemma RxsConcat(a: seq<string>, b: seq<string>)
    ensures Rxs(a + b) == Rxs(a) + Rxs(b)
  {
  }

  /** Gluing a paced, settled trace to a paced trace keeps one command in flight. */
  lemma PacedConcat(a: seq<Event>, b: seq<Event>)
    requires Paced(a) && Settled(a) && Paced(b)
    ensures Paced(a + b)
  {
    var t := a + b;
    forall i, j | 0 <= i < j < |t| && t[i].Tx? && t[j].Tx? ensures exists k :: i < k < j && OkLine(t[k]) {
      if j < |a| {
        assert a[i] == t[i] && a[j] == t[j];
        var k :| i < k < j && OkLine(a[k]);
        assert t[k] == a[k];
      } else if i >= |a| {
        assert b[i - |a|] == t[i] && b[j - |a|] == t[j];
        var k :| i - |a| < k < j - |a| && OkLine(b[k]);
        assert t[k + |a|] == b[k];
      } else {
        assert a[i] == t[i];
        var k :| i < k < |a| && OkLine(a[k]);
        assert t[k] == a[k];
      }
    }
  }

  lemma SettledConcat(a: seq<Event>, b: seq<Event>)
    requires Settled(a) && Settled(b)
    ensures Settled(a + b)
  {
    var t := a + b;
    forall i | 0 <= i < |t| && t[i].Tx? ensures exists k :: i < k < |t| && OkLine(t[k]) {
      if i < |a| {
        assert a[i] == t[i];
        var k :| i < k < |a| && OkLine(a[k]);
        assert t[k] == a[k];
      } else {
        assert b[i - |a|] == t[i];
        var k :| i - |a| < k < |b| && OkLine(b[k]);
        assert t[k + |a|] == b[k];
      }
    }
  }

  /** One write followed only by reads is paced; it is settled once one of the reads sees "ok". */
  lemma OneRound(data: string, replies: seq<Event>)
    requires ReadsOnly(replies)
    ensures Paced([Tx(data)] + replies)
    ensures SawOk(replies) ==> Settled([Tx(data)] + replies)
  {
    var t := [Tx(data)] + replies;
    forall i | 0 < i < |t| ensures t[i].Rx? {
      assert t[i] == replies[i - 1];
    }
    if SawOk(replies) {
      var k :| 0 <= k < |replies| && OkLine(replies[k]);
      assert t[k + 1] == replies[k];
    }
  }

  /** pyserial's `Serial` object, reduced to what the sender uses. */
  class SerialPort {
    var isOpen: bool
    var pending: seq<string>
    var trace: seq<Event>

    function View(): Wire
      reads this
    {
      Wire(isOpen, pending, trace)
    }

    /** An opened port whose input buffer was reset; `replies` is what the controller sends afterwards. */
    constructor Open(replies: seq<string>)
      ensures View() == Wire(true, replies, [])
    {
      isOpen := true;
      pending := replies;
      trace := [];
    }

    /** `write` followed by `flush`; on a closed port pyserial raises, reported here as `false`. */
    method Write(data: string) returns (ok: bool)
      modifies this
      ensures ok == old(isOpen)
      ensures View() == if ok then old(View()).(trace := old(trace) + [Tx(data)]) else old(View())
    {
      ok := isOpen;
      if ok {
        trace := trace + [Tx(data)];
      }
    }

    /** `in_waiting`, as a flag: some line is ready to be read. */
    method InWaiting() returns (waiting: bool)
      requires isOpen
      ensures waiting <==> pending != []
    {
      waiting := pending != [];
    }

    /** `readline()` when data is waiting: the next whole line from the controller. */
    method ReadLine() returns (line: string)
      requires isOpen && pending != []
      modifies this
      ensures line == old(pending[0])
      ensures View() == old(View()).(pending := old(pending[1..]), trace := old(trace) + [Rx(line)])
    {
      line := pending[0];
      pending := pending[1..];
      trace := trace + [Rx(line)];
    }

    method Close()
      modifies this
      ensures View() == old(View()).(open := false)
    {
      isOpen := false;
    }
  }
}
