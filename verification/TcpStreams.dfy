/**
  What two connections say to each other: which bytes a connection puts on the wire over whole runs, what a call
  of `write` that has to wait does to them, and what becomes of the segments at the other end
  (`kernel/ipc/socket/tcp.c`).
 */
module TcpStreams {

  import opened Tcp

  // ----- the bytes sent in a run

  /** How many bytes a write puts out; nothing else puts out any. */
  function Progress(c: Conn, e: Event): (n: nat)
    ensures e.Writes? ==> n <= |e.data|
  {
    if e.Writes? && Writable(c) && IsSeq(c.snd.nxt) then
      WriteBytes(c, e.mss, e.data);
      Write(c, e.mss, e.data).sent - c.sent
    else 0
  }

  function Wrote(c: Conn, e: Event): seq<Byte> {
    if e.Writes? then e.data[..Progress(c, e)] else []
  }

  function RunWrote(c: Conn, es: seq<Event>): seq<Byte>
    decreases |es|
  {
    if es == [] then [] else Wrote(c, es[0]) + RunWrote(Apply(c, es[0]), es[1..])
  }

  predicate PlainData(o: Out) {
    o.ack && !o.syn && !o.fin && !o.rst
  }

  /** Each byte of data stands at its place behind the initial number. */
  ghost predicate InPlace(log: seq<Out>, iss: Seq32) {
    forall i :: 0 <= i < |log| && log[i].data != [] ==>
      PlainData(log[i]) && log[i].sequence == Wrap(iss + 1 + |Payloads(log[..i])|)
  }

  function FinCount(c: Conn): nat {
    if AfterOurFin(c.state) then 1 else 0
  }

  ghost predicate SentOk(c: Conn) {
    && InPlace(c.log, c.snd.iss)
    && (Connected(c.state) ==> c.sent == 1 + |Payloads(c.log)| + FinCount(c))
    && (!c.sock.hasParent && c.sock.state != IsConnected ==> Payloads(c.log) == [])
  }

  /** Only segments without data are added to the log, and nothing is counted as sent but a FIN. */
  ghost predicate Quiet(c: Conn, d: Conn) {
    && c.log <= d.log && (forall i :: |c.log| <= i < |d.log| ==> d.log[i].data == [])
    && d.snd.iss == c.snd.iss
    && (Connected(d.state) ==> Connected(c.state) && d.sent - FinCount(d) == c.sent - FinCount(c))
    && (!d.sock.hasParent && d.sock.state != IsConnected ==> !c.sock.hasParent && c.sock.state != IsConnected)
  }

  lemma {:induction false} QuietPayloads(a: seq<Out>, b: seq<Out>)
    requires a <= b && forall i :: |a| <= i < |b| ==> b[i].data == []
    ensures Payloads(b) == Payloads(a)
    decreases |b|
  {
    if |b| > |a| {
      QuietPayloads(a, b[..|b| - 1]);
    } else {
      assert a == b;
    }
  }

  lemma QuietOk(c: Conn, d: Conn)
    requires SentOk(c) && Quiet(c, d)
    ensures SentOk(d) && Payloads(d.log) == Payloads(c.log)
  {
    hide Wrap, Payloads;
    QuietPayloads(c.log, d.log);
    forall i | 0 <= i < |d.log| && d.log[i].data != []
      ensures PlainData(d.log[i]) && d.log[i].sequence == Wrap(d.snd.iss + 1 + |Payloads(d.log[..i])|)
    {
      assert i < |c.log| && d.log[..i] == c.log[..i];
    }
  }

  lemma {:induction false} NoBytes(log: seq<Out>, i: nat)
    requires Payloads(log) == [] && i < |log|
    ensures log[i].data == []
    decreases |log|
  {
    if i < |log| - 1 {
      NoBytes(log[..|log| - 1], i);
    }
  }

  lemma ConnectSent(c: Conn, isn: Seq32)
    requires Inv(c) && SentOk(c) && HasDescriptor(c)
    ensures SentOk(Connect(c, isn)) && Payloads(Connect(c, isn).log) == Payloads(c.log)
  {
    hide Wrap, Payloads, TraceOk;
    var d := Connect(c, isn);
    if MayConnect(c) {
      assert Payloads(c.log) == [];
      QuietPayloads(c.log, d.log);
      forall i | 0 <= i < |d.log| ensures d.log[i].data == [] {
        NoBytes(d.log, i);
      }
    }
  }

  lemma WriteSent(c: Conn, mss: nat, data: seq<Byte>)
    requires Inv(c) && SentOk(c) && Writable(c)
    ensures var d := Write(c, mss, data);
            SentOk(d) && Payloads(d.log) == Payloads(c.log) + Wrote(c, Writes(mss, data))
  {
    hide Wrap, Payloads, Write, TraceOk, StreamOk, FinOk, OrderOk;
    var d := Write(c, mss, data);
    var segments := WriteSegments(c, mss, data);
    PayloadsJoin(c.log, segments);
    forall i | 0 <= i < |d.log| && d.log[i].data != []
      ensures PlainData(d.log[i]) && d.log[i].sequence == Wrap(d.snd.iss + 1 + |Payloads(d.log[..i])|)
    {
      WrittenInPlace(c, segments, mss, i);
    }
  }

  lemma WrittenInPlace(c: Conn, segments: seq<Out>, mss: nat, i: nat)
    requires InPlace(c.log, c.snd.iss) && c.snd.nxt == Wrap(c.snd.iss + 1 + |Payloads(c.log)|)
    requires Numbered(segments, c.snd.nxt, c.rcvnxt, mss) && i < |c.log + segments|
    requires (c.log + segments)[i].data != []
    ensures var o := (c.log + segments)[i];
            PlainData(o) && o.sequence == Wrap(c.snd.iss + 1 + |Payloads((c.log + segments)[..i])|)
  {
    hide Wrap, Payloads;
    var log := c.log + segments;
    if i < |c.log| {
      assert log[..i] == c.log[..i];
    } else {
      var j := i - |c.log|;
      assert log[..i] == c.log + segments[..j] && log[i] == segments[j];
      PayloadsJoin(c.log, segments[..j]);
      WrapAgain(c.snd.iss + 1 + |Payloads(c.log)|, |Payloads(segments[..j])|);
    }
  }

  lemma OnSynSentQuiet(c: Conn, s: Segment)
    requires Inv(c) && c.state == SynSent
    ensures Quiet(c, OnSynSent(c, s))
  {
    hide Wrap, TraceOk;
  }

  lemma OnAckQuiet(c: Conn, s: Segment)
    requires Synchronized(c.state)
    ensures Quiet(c, OnAck(c, s).conn)
    ensures !OnAck(c, s).drop ==> Synchronized(OnAck(c, s).conn.state)
  {
    hide Wrap;
  }

  lemma OnDataQuiet(c: Conn, s: Segment)
    ensures Quiet(c, OnData(c, s).conn) && OnData(c, s).conn.state == c.state
  {
    hide Wrap, Numbers;
  }

  lemma OnFinQuiet(c: Conn, s: Segment)
    requires Synchronized(c.state)
    ensures Quiet(c, OnFin(c, s))
  {
    hide Wrap;
  }

  lemma QuietTrans(c: Conn, d: Conn, e: Conn)
    requires Quiet(c, d) && Quiet(d, e)
    ensures Quiet(c, e)
  {
  }

  lemma OnSegmentQuiet(c: Conn, s: Segment)
    requires Synchronized(c.state)
    ensures Quiet(c, OnSegment(c, s))
  {
    hide OnAck, OnData, OnFin, Acceptable, Quiet, Send, Abort, Ack;
    var a := OnAck(c, s);
    OnAckQuiet(c, s);
    OnDataQuiet(a.conn, s);
    var d := OnData(a.conn, s);
    QuietTrans(c, a.conn, d.conn);
    if !a.drop {
      OnFinQuiet(d.conn, s);
      QuietTrans(c, d.conn, OnFin(d.conn, s));
    }
    RepliesQuiet(c);
  }

  lemma RepliesQuiet(c: Conn)
    ensures Quiet(c, c) && Quiet(c, Ack(c)) && Quiet(c, Abort(c)) && Quiet(c, Abort(c.(eventstate := Reset)))
    ensures Quiet(c, Abort(Send(c, false, false, false, true, []).(eventstate := Reset)))
  {
  }

  lemma ApplySent(c: Conn, e: Event)
    requires Inv(c) && SentOk(c) && Enabled(c, e)
    ensures SentOk(Apply(c, e)) && Payloads(Apply(c, e).log) == Payloads(c.log) + Wrote(c, e)
  {
    hide SentOk, Payloads, Quiet, OnSegment, OnSynSent, Write, Wrote, Connect, Close;
    hide TraceOk, SockOk, StreamOk, SequenceOk, FinOk, OrderOk;
    NothingWrote(c, e);
    match e
    case Arrives(s) => ArriveQuiet(c, s); QuietOk(c, Arrive(c, s));
    case Connects(isn) => ConnectSent(c, isn);
    case Writes(mss, data) => if Writable(c) { WriteSent(c, mss, data); }
    case Reads(count) => ReadQuiet(c, count); QuietOk(c, Read(c, count));
    case Closes => CloseQuiet(c); QuietOk(c, Close(c));
    case _ => CallQuiet(c, e); QuietOk(c, Apply(c, e));
  }

  lemma NothingWrote(c: Conn, e: Event)
    ensures !e.Writes? || !Writable(c) ==> Wrote(c, e) == []
  {
  }

  lemma ArriveQuiet(c: Conn, s: Segment)
    requires Inv(c) && c.state != Closed
    ensures Quiet(c, Arrive(c, s))
  {
    hide OnSegment, OnSynSent, Inv;
    match c.state
    case Listen =>
    case SynSent => OnSynSentQuiet(c, s);
    case _ => OnSegmentQuiet(c, s);
  }

  lemma ReadQuiet(c: Conn, count: nat)
    ensures Quiet(c, Read(c, count))
  {
  }

  lemma CloseQuiet(c: Conn)
    ensures Quiet(c, Close(c))
  {
    hide Wrap;
  }

  lemma CallQuiet(c: Conn, e: Event)
    requires SockOk(c) && !e.Arrives? && !e.Connects? && !e.Writes? && !e.Reads? && !e.Closes?
    ensures Quiet(c, Apply(c, e))
  {
    hide Close;
  }

  /** The bytes put on the wire in a run are those its writes count as sent, in order, each at its place. */
  lemma {:induction false} RunSent(c: Conn, es: seq<Event>)
    requires Inv(c) && SentOk(c) && CanRun(c, es)
    ensures SentOk(Run(c, es)) && Payloads(Run(c, es).log) == Payloads(c.log) + RunWrote(c, es)
    decreases |es|
  {
    hide Inv, SentOk, Apply, Enabled, Wrote, Payloads;
    if es != [] {
      ApplyInv(c, es[0]);
      ApplySent(c, es[0]);
      RunSent(Apply(c, es[0]), es[1..]);
    }
  }

  lemma StartSent(c: Conn)
    requires Start(c)
    ensures SentOk(c) && Payloads(c.log) == []
  {
    if c != NewConn() {
      var s: Segment, isn :| GoodSegment(s) && IsSeq(isn) && c == Accept(s, isn);
      assert c.log[..0] == [];
    }
  }

  /**
    In every run, of a new socket or of the child of a listening one, the segments carry, joined, exactly the bytes
    that were written, in order; each of them stands behind the initial sequence number by as many as came before.
   */
  lemma SentMeaning(start: Conn, es: seq<Event>)
    requires Start(start) && CanRun(start, es)
    ensures var c := Run(start, es);
            Payloads(c.log) == RunWrote(start, es) && InPlace(c.log, c.snd.iss)
  {
    hide Run, RunWrote, CanRun, Start, Payloads;
    StartInv(start);
    StartSent(start);
    RunSent(start, es);
  }

  // ----- a call of write that waits

  /**
    The events from the beginning of a call of `write` to its return. When the window is full the call waits, and
    then starts over with its whole buffer; only a pass that sends all of it is the last one. No one else writes in
    the meantime.
   */
  ghost predicate IsCall(c: Conn, es: seq<Event>, mss: nat, data: seq<Byte>)
    decreases |es|
  {
    && es != []
    && if |es| == 1 then es[0] == Writes(mss, data) && Progress(c, es[0]) == |data|
       else
         && (es[0].Writes? ==> es[0] == Writes(mss, data) && Progress(c, es[0]) < |data|)
         && IsCall(Apply(c, es[0]), es[1..], mss, data)
  }

  /** No pass but the last sends anything. */
  ghost predicate WaitsFirst(c: Conn, es: seq<Event>)
    decreases |es|
  {
    |es| <= 1 || (Progress(c, es[0]) == 0 && WaitsFirst(Apply(c, es[0]), es[1..]))
  }

  /**
    What a call puts on the wire ends in its buffer, and is its buffer if and only if every pass but the last found
    the window full already: else the first bytes go out again, as new ones.
   */
  lemma {:induction false} CallExact(c: Conn, es: seq<Event>, mss: nat, data: seq<Byte>)
    requires IsCall(c, es, mss, data)
    ensures |RunWrote(c, es)| >= |data| && RunWrote(c, es)[|RunWrote(c, es)| - |data|..] == data
    ensures RunWrote(c, es) == data <==> WaitsFirst(c, es)
    decreases |es|
  {
    hide Apply, Progress;
    if |es| == 1 {
      assert RunWrote(Apply(c, es[0]), es[1..]) == [];
      assert RunWrote(c, es) == data;
    } else {
      var d := Apply(c, es[0]);
      CallExact(d, es[1..], mss, data);
      assert Progress(c, es[0]) == |Wrote(c, es[0])| by { WroteLength(c, es[0]); }
      var rest := RunWrote(d, es[1..]);
      assert RunWrote(c, es) == Wrote(c, es[0]) + rest;
      assert (Wrote(c, es[0]) + rest)[|Wrote(c, es[0]) + rest| - |data|..] == rest[|rest| - |data|..];
    }
  }

  lemma WroteLength(c: Conn, e: Event)
    ensures |Wrote(c, e)| == Progress(c, e)
  {
  }

  /** A pass sends all of its buffer exactly when that fits the peer's window, or the window was overrun before. */
  lemma PassExact(c: Conn, mss: nat, data: seq<Byte>)
    requires Inv(c) && Writable(c) && mss > 0 && c.snd.iss + c.sent + |data| < MODULUS
    ensures Progress(c, Writes(mss, data)) == |data| <==>
              || c.snd.nxt - c.snd.una + |data| <= c.snd.wnd || c.snd.wnd < c.snd.nxt - c.snd.una || data == []
  {
    hide Write, Inv;
    InvSequence(c);
    WriteExact(c, mss, data);
  }

  /** An established connection that sent nothing yet, with room for `wnd` bytes. */
  predicate Fresh(c: Conn, wnd: nat) {
    && c.state == Established && c.sock.state == IsConnected && !c.sock.hasParent && !c.freed
    && c.snd == SendVars(8, 8, 100, 8, 7, wnd) && c.sent == 1 && c.rcvnxt == 101 && c.rcvwnd == BUFFER_SIZE
  }

  const FIRST: Segment := Segment(100, 8, 0x1_0000, true, true, false, false, [])
  const UPDATE: Segment := Segment(101, 0x1_0008, 0x2_0000, false, true, false, false, [])

  lemma Opening()
    ensures var c1 := Apply(NewConn(), Connects(7));
            var c2 := Apply(c1, Arrives(FIRST));
            && Inv(c1) && c1.state == SynSent && !c1.freed && Inv(c2) && Fresh(c2, 0x1_0000) && HasDescriptor(c1)
            && Enabled(NewConn(), Connects(7)) && Enabled(c1, Arrives(FIRST))
  {
    hide Inv;
    NewInv();
    ApplyInv(NewConn(), Connects(7));
    var c1 := OpenConnection(NewConn(), 7);
    assert Apply(NewConn(), Connects(7)) == c1 && c1.state == SynSent && c1.snd == SendVars(7, 8, 0, 0, 7, 0);
    ApplyInv(c1, Arrives(FIRST));
    SynSentResult(c1, FIRST);
  }

  /** The first pass fills the window; after an update the second sends everything. */
  lemma TwoPasses(c: Conn, mss: nat, data: seq<Byte>)
    requires Inv(c) && Fresh(c, 0x1_0000) && mss > 0 && |data| == 0x1_0001
    ensures var d := Apply(c, Writes(mss, data));
            var e := Apply(d, Arrives(UPDATE));
            && Enabled(c, Writes(mss, data)) && Progress(c, Writes(mss, data)) == 0x1_0000
            && Enabled(d, Arrives(UPDATE)) && Enabled(e, Writes(mss, data))
            && Progress(e, Writes(mss, data)) == 0x1_0001
  {
    hide Inv, Write;
    WriteExact(c, mss, data);
    WriteBytes(c, mss, data);
    var d := Apply(c, Writes(mss, data));
    ApplyInv(c, Writes(mss, data));
    assert d.snd == SendVars(8, 0x1_0008, 100, 8, 7, 0x1_0000) && d.sent == 0x1_0001;
    Updated(d);
    var e := Apply(d, Arrives(UPDATE));
    ApplyInv(d, Arrives(UPDATE));
    WriteExact(e, mss, data);
  }

  lemma Updated(d: Conn)
    requires d.state == Established && d.snd == SendVars(8, 0x1_0008, 100, 8, 7, 0x1_0000)
    requires d.rcvnxt == 101 && d.rcvwnd == BUFFER_SIZE
    ensures Apply(d, Arrives(UPDATE)) == d.(snd := SendVars(0x1_0008, 0x1_0008, 101, 0x1_0008, 7, 0x2_0000))
  {
    assert Acceptable(d, UPDATE);
  }

  lemma After(c: Conn, e: Event, es: seq<Event>)
    ensures Run(c, [e] + es) == Run(Apply(c, e), es)
    ensures CanRun(c, [e] + es) <==> Enabled(c, e) && CanRun(Apply(c, e), es)
    ensures RunWrote(c, [e] + es) == Wrote(c, e) + RunWrote(Apply(c, e), es)
  {
    hide Apply, Enabled, Wrote;
    assert ([e] + es)[1..] == es;
  }

  lemma CallRun(c: Conn, e0: Event, e1: Event, e2: Event, mss: nat, data: seq<Byte>)
    requires e0 == e2 == Writes(mss, data) && !e1.Writes?
    ensures var d := Apply(c, e0);
            var e := Apply(d, e1);
            && RunWrote(c, [e0, e1, e2]) == Wrote(c, e0) + Wrote(e, e2)
            && (CanRun(c, [e0, e1, e2]) <==> Enabled(c, e0) && Enabled(d, e1) && Enabled(e, e2))
            && (Progress(c, e0) < |data| && Progress(e, e2) == |data| ==> IsCall(c, [e0, e1, e2], mss, data))
  {
    hide Apply, Enabled, Progress;
    var d := Apply(c, e0);
    var e := Apply(d, e1);
    assert [e0, e1, e2][1..] == [e1, e2] && [e1, e2][1..] == [e2] && [e2][1..] == [];
    assert RunWrote(e, [e2]) == Wrote(e, e2) + RunWrote(Apply(e, e2), []);
    assert RunWrote(d, [e1, e2]) == Wrote(d, e1) + RunWrote(e, [e2]);
    assert CanRun(e, [e2]) <==> Enabled(e, e2) && CanRun(Apply(e, e2), []);
    assert CanRun(d, [e1, e2]) <==> Enabled(d, e1) && CanRun(e, [e2]);
    if Progress(c, e0) < |data| && Progress(e, e2) == |data| {
      assert IsCall(e, [e2], mss, data);
      assert IsCall(d, [e1, e2], mss, data);
    }
  }

  /** A call of one byte more than the window sends all but that byte twice. */
  lemma ResentRun(mss: nat, data: seq<Byte>)
    requires mss > 0 && |data| == 0x1_0001
    ensures var call := [Writes(mss, data), Arrives(UPDATE), Writes(mss, data)];
            && CanRun(NewConn(), [Connects(7), Arrives(FIRST)] + call)
            && IsCall(Run(NewConn(), [Connects(7), Arrives(FIRST)]), call, mss, data)
            && Payloads(Run(NewConn(), [Connects(7), Arrives(FIRST)] + call).log) == data[..0x1_0000] + data
  {
    hide Apply, Enabled, Progress, Inv, Payloads, Fresh, Run, CanRun, RunWrote, IsCall;
    var call := [Writes(mss, data), Arrives(UPDATE), Writes(mss, data)];
    Opening();
    var c1 := Apply(NewConn(), Connects(7));
    var c2 := Apply(c1, Arrives(FIRST));
    TwoPasses(c2, mss, data);
    CallRun(c2, Writes(mss, data), Arrives(UPDATE), Writes(mss, data), mss, data);
    After(c1, Arrives(FIRST), call);
    After(NewConn(), Connects(7), [Arrives(FIRST)] + call);
    After(c1, Arrives(FIRST), []);
    After(NewConn(), Connects(7), [Arrives(FIRST)]);
    assert [Connects(7), Arrives(FIRST)] + call == [Connects(7)] + ([Arrives(FIRST)] + call);
    assert [Connects(7), Arrives(FIRST)] == [Connects(7)] + [Arrives(FIRST)];
    assert [Arrives(FIRST)] + [] == [Arrives(FIRST)];
    NoEvents(c2);
    SentMeaning(NewConn(), [Connects(7), Arrives(FIRST)] + call);
    assert data[..|data|] == data;
  }

  lemma NoEvents(c: Conn)
    ensures Run(c, []) == c
  {
  }

  // ----- the window that a header carries

  function Swap16(x: bv16): bv16 {
    (x << 8) | (x >> 8)
  }

  function Swap32(x: bv32): bv32 {
    (x << 24) | ((x & 0xff00) << 8) | ((x >> 8) & 0xff00) | (x >> 24)
  }

  /** The window field holds `w` in network order; the code reads it as 16 bits and swaps 32. */
  function Stored(w: bv16): bv32 {
    Swap32(Swap16(w) as bv32)
  }

  lemma StoredIs(w: bv16)
    ensures Stored(w) == (w as bv32) << 16
  {
  }

  /**
    So the socket takes the window for 65536 times what the peer has. With nothing in flight, a write stays within
    the peer's real window `w` if and only if its buffer does, or the window is closed.
   */
  lemma OverrunExact(c: Conn, w: nat, mss: nat, data: seq<Byte>)
    requires Inv(c) && Writable(c) && mss > 0 && c.snd.iss + c.sent + |data| < MODULUS
    requires c.snd.wnd == 0x1_0000 * w && c.snd.nxt == c.snd.una
    ensures var d := Write(c, mss, data); d.snd.nxt - d.snd.una <= w <==> |data| <= w || w == 0
  {
    hide Write, Inv;
    InvSequence(c);
    WriteExact(c, mss, data);
  }
}
