/**
  Two connections, each at the other's end: what one of them sends, put in the other's way, opens the connection,
  brings the bytes across, and closes it (`kernel/ipc/socket/tcp.c`).
 */
module TcpDialogue {

  import opened Tcp

  /** The segment as it comes in at the other end, with the window the receiver stores. */
  function Carried(o: Out, win: Seq32): Segment {
    Segment(o.sequence, o.acknumber, win, o.syn, o.ack, o.fin, o.rst, o.data)
  }

  function Last(c: Conn): Out
    requires c.log != []
  {
    c.log[|c.log| - 1]
  }

  /** What one side numbers next the other expects, and everything sent is acknowledged. */
  ghost predicate Linked(c: Conn, p: Conn) {
    && c.snd.nxt == p.rcvnxt && p.snd.nxt == c.rcvnxt && c.snd.una == c.snd.nxt && p.snd.una <= p.snd.nxt
    && IsSeq(c.snd.nxt) && IsSeq(p.snd.nxt)
  }

  // ----- opening

  /** The listening side takes the SYN for one that opens a connection. */
  predicate OpensChild(s: Segment) {
    s.syn && !s.ack && !s.rst && s.data == []
  }

  lemma Opened(c: Conn, a: Seq32)
    requires MayConnect(c) && c.state == Closed && IsSeq(a) && IsSeq(c.rcvnxt)
    ensures var d := Connect(c, a);
            && d.state == SynSent && |d.log| == |c.log| + 1 && Last(d).sequence == a
            && OpensChild(Carried(Last(d), 0)) && d.snd.una == d.snd.iss == a && d.snd.nxt == Wrap(a + 1)
  {
    hide Wrap;
  }

  lemma Answered(syn: Segment, b: Seq32)
    requires IsSeq(b)
    ensures var p := Accept(syn, b);
            && p.state == SynRecv && p.snd.una == p.snd.iss == b && p.snd.nxt == Wrap(b + 1)
            && p.rcvnxt == Wrap(syn.sequence + 1) && p.rcvwnd == BUFFER_SIZE && p.stream == [] && |p.log| == 1
            && Last(p) == Out(b, p.rcvnxt, true, true, false, false, [])
  {
    hide Wrap;
  }

  lemma SynAcked(c: Conn, s: Segment)
    requires c.state == SynSent && c.snd.una == c.snd.iss && c.log != [] && s.syn && s.ack && !s.rst
    requires c.snd.nxt == Wrap(c.snd.iss + 1) && s.acknumber == c.snd.nxt && IsSeq(c.snd.iss)
    ensures var d := Arrive(c, s);
            && d.log != [] && (d.state == Established <==> c.snd.iss + 1 < MODULUS)
            && (c.snd.iss + 1 < MODULUS ==>
                  && d.snd.una == d.snd.nxt == c.snd.nxt && d.rcvnxt == Wrap(s.sequence + 1) && d.rcvwnd == c.rcvwnd
                  && Last(d) == Out(d.snd.nxt, d.rcvnxt, false, true, false, false, []))
  {
    if c.snd.iss + 1 < MODULUS {
      SynSentResult(c, s);
    }
  }

  lemma LastAcked(p: Conn, s: Segment)
    requires p.state == SynRecv && IsSeq(p.snd.iss) && p.snd.una == p.snd.iss && p.snd.nxt == Wrap(p.snd.iss + 1)
    requires IsSeq(p.rcvnxt) && p.rcvwnd == BUFFER_SIZE && IsSeq(s.win)
    requires s.sequence == p.rcvnxt && s.acknumber == p.snd.nxt && s.ack && !s.syn && !s.rst && !s.fin && s.data == []
    ensures var q := Arrive(p, s);
            && (q.state == Established <==> p.rcvnxt + BUFFER_SIZE < MODULUS && p.snd.iss + 1 < MODULUS)
            && (q.state == Established ==>
                  && q.snd.una == q.snd.nxt == p.snd.nxt && q.rcvnxt == p.rcvnxt && q.rcvwnd == p.rcvwnd
                  && q.accepted == p.accepted && q.stream == p.stream && q.delivered == p.delivered)
  {
    AcceptableMeans(p, s);
    hide Acceptable;
    if p.rcvnxt + BUFFER_SIZE < MODULUS {
      assert Acceptable(p, s);
      if p.snd.iss + 1 < MODULUS {
        assert OnAck(p, s) == OnAckOpen(Tcp.Opened(p), s);
      }
    }
  }

  /**
    A client that connects with the number `a` to a listening socket whose child gets the number `b`: three segments
    open both ends, and each expects what the other sends next, if and only if neither number is so high that the
    numbers of the handshake, or the first window, reach 2^32.
   */
  lemma Handshake(c: Conn, a: Seq32, b: Seq32, w0: Seq32, w1: Seq32, w2: Seq32)
    requires MayConnect(c) && c.state == Closed && IsSeq(a) && IsSeq(b) && IsSeq(c.rcvnxt) && IsSeq(w2)
    ensures var c1 := Connect(c, a);
            && c1.log != [] && OpensChild(Carried(Last(c1), w0))
            && var p1 := Accept(Carried(Last(c1), w0), b);
            && p1.log != []
            && var c2 := Arrive(c1, Carried(Last(p1), w1));
            && c2.log != []
            && var p2 := Arrive(p1, Carried(Last(c2), w2));
            && (c2.state == Established && p2.state == Established <==>
                  a + 1 + BUFFER_SIZE < MODULUS && b + 1 < MODULUS)
            && (c2.state == Established && p2.state == Established ==>
                  Linked(c2, p2) && Linked(p2, c2) && p2.accepted == [] && c2.rcvwnd == p2.rcvwnd == BUFFER_SIZE)
  {
    Opened(c, a);
    var c1 := Connect(c, a);
    var p1 := Accept(Carried(Last(c1), w0), b);
    Answered(Carried(Last(c1), w0), b);
    SynAcked(c1, Carried(Last(p1), w1));
    var c2 := Arrive(c1, Carried(Last(p1), w1));
    assert c1.rcvwnd == BUFFER_SIZE;
    if a + 1 < MODULUS {
      LastAcked(p1, Carried(Last(c2), w2));
    }
    hide Arrive, Accept, Connect;
  }

  // ----- data

  /** The segments come in one after the other, with the window `win`. */
  function ArriveAll(p: Conn, segments: seq<Out>, win: Seq32): Conn
    decreases |segments|
  {
    if segments == [] then p else ArriveAll(Arrive(p, Carried(segments[0], win)), segments[1..], win)
  }

  /** An established connection at whose end plain data arrives. */
  ghost predicate Receiving(p: Conn, sequence: Seq32, ack: Seq32) {
    && p.state == Established && p.rcvnxt == sequence && p.snd.una <= ack <= p.snd.nxt && Inv(p) && !p.freed
    && p.rcvnxt + p.rcvwnd < MODULUS
  }

  /** A segment of plain data in order: it is taken whole exactly when it fits, and else refused whole. */
  lemma TakesSegment(p: Conn, o: Out, win: Seq32, mss: nat)
    requires Receiving(p, o.sequence, o.acknumber) && IsData(o, o.sequence, o.acknumber, mss) && IsSeq(win)
    requires IsSeq(o.sequence) && IsSeq(o.acknumber)
    ensures var q := Arrive(p, Carried(o, win));
            && q.delivered == p.delivered && Inv(q)
            && (|o.data| <= p.rcvwnd ==>
                  && q.accepted == p.accepted + o.data && Receiving(q, p.rcvnxt + |o.data|, o.acknumber)
                  && q.rcvwnd == p.rcvwnd - |o.data| && q.snd.nxt == p.snd.nxt
                  && (p.sock.state == IsConnected ==> Readable(q)) && q.sock == p.sock
                  && q.log != [] && Last(q) == Out(q.snd.nxt, q.rcvnxt, false, true, false, false, []))
            && (|o.data| > p.rcvwnd ==> q.accepted == p.accepted)
  {
    var s := Carried(o, win);
    ArriveInv(p, s);
    RoomIs(p);
    TakesAck(p, s);
    hide Inv, OnAck;
    AcceptableMeans(p, s);
    if |o.data| <= p.rcvwnd {
      assert Acceptable(p, s);
    }
  }

  lemma RoomIs(p: Conn)
    requires Inv(p) && p.state == Established
    ensures p.rcvwnd + |p.stream| == BUFFER_SIZE && IsSeq(p.rcvnxt) && IsSeq(p.snd.una) && IsSeq(p.snd.nxt)
  {
  }

  lemma TakesAck(p: Conn, s: Segment)
    requires p.state == Established && p.snd.una <= s.acknumber <= p.snd.nxt
    ensures var a := OnAck(p, s);
            !a.drop && a.conn == p.(snd := a.conn.snd) && a.conn.snd.una == s.acknumber && a.conn.snd.nxt == p.snd.nxt
  {
  }

  /** Whatever plain data comes, an established connection stays established, and keeps what its reader has. */
  lemma StaysOpen(p: Conn, s: Segment)
    requires Inv(p) && p.state == Established && !p.freed && GoodSegment(s) && !s.syn && !s.fin && !s.rst
    ensures var q := Arrive(p, s);
            Inv(q) && q.state == Established && !q.freed && q.delivered == p.delivered
  {
    ArriveInv(p, s);
    AckStaysOpen(p, s);
    hide Inv, Acceptable, OnAck, OnData;
    DataStaysOpen(OnAck(p, s).conn, s);
  }

  lemma AckStaysOpen(p: Conn, s: Segment)
    requires p.state == Established
    ensures var a := OnAck(p, s).conn; a.state == Established && a.freed == p.freed && a.delivered == p.delivered
  {
  }

  lemma DataStaysOpen(p: Conn, s: Segment)
    ensures var d := OnData(p, s).conn; d.state == p.state && d.freed == p.freed && d.delivered == p.delivered
  {
    hide Wrap, Numbers;
  }

  lemma {:induction false} AllStayOpen(p: Conn, segments: seq<Out>, win: Seq32)
    requires Inv(p) && p.state == Established && !p.freed && IsSeq(win)
    requires forall o :: o in segments ==>
               IsSeq(o.sequence) && IsSeq(o.acknumber) && !o.syn && !o.fin && !o.rst
    ensures var q := ArriveAll(p, segments, win);
            && |q.accepted| <= |p.accepted| + p.rcvwnd
            && Inv(q) && q.state == Established && !q.freed && q.delivered == p.delivered
    decreases |segments|
  {
    hide Arrive, Inv;
    BoundedBytes(p);
    if segments != [] {
      StaysOpen(p, Carried(segments[0], win));
      AllStayOpen(Arrive(p, Carried(segments[0], win)), segments[1..], win);
      BoundedBytes(ArriveAll(p, segments, win));
    }
  }

  lemma BoundedBytes(p: Conn)
    requires Inv(p) && p.state == Established
    ensures |p.accepted| <= |p.delivered| + BUFFER_SIZE
    ensures |p.accepted| + p.rcvwnd == |p.delivered| + BUFFER_SIZE
  {
  }

  lemma NumberedRest(segments: seq<Out>, nxt: Seq32, ack: Seq32, mss: nat)
    requires segments != [] && Numbered(segments, nxt, ack, mss) && IsSeq(nxt)
    ensures IsData(segments[0], nxt, ack, mss) && Numbered(segments[1..], Wrap(nxt + |segments[0].data|), ack, mss)
    ensures Payloads(segments) == segments[0].data + Payloads(segments[1..])
  {
    hide Wrap, Payloads, IsData, Numbered;
    var first, rest := segments[0], segments[1..];
    assert segments == [first] + rest;
    FirstPayload(first, rest);
    NoPayload(segments[..0]);
    WrapSeq(nxt);
    NumberedAt(segments, nxt, ack, mss, 0);
    forall i: nat | i < |rest|
      ensures IsData(rest[i], Wrap(Wrap(nxt + |first.data|) + |Payloads(rest[..i])|), ack, mss)
    {
      NumberedAt(segments, nxt, ack, mss, i + 1);
      assert segments[..i + 1] == [first] + rest[..i] && segments[i + 1] == rest[i];
      PlaceInRest(first, rest[..i], nxt);
    }
    AllNumbered(rest, Wrap(nxt + |first.data|), ack, mss);
  }

  lemma NumberedAt(segments: seq<Out>, nxt: Seq32, ack: Seq32, mss: nat, i: nat)
    requires Numbered(segments, nxt, ack, mss) && i < |segments|
    ensures IsData(segments[i], Wrap(nxt + |Payloads(segments[..i])|), ack, mss)
  {
  }

  lemma AllNumbered(segments: seq<Out>, nxt: Seq32, ack: Seq32, mss: nat)
    requires forall i: nat :: i < |segments| ==>
               IsData(segments[i], Wrap(nxt + |Payloads(segments[..i])|), ack, mss)
    ensures Numbered(segments, nxt, ack, mss)
  {
  }

  lemma PlaceInRest(first: Out, part: seq<Out>, nxt: Seq32)
    ensures Wrap(nxt + |Payloads([first] + part)|) == Wrap(Wrap(nxt + |first.data|) + |Payloads(part)|)
  {
    hide Wrap, Payloads;
    FirstPayload(first, part);
    WrapAgain(nxt + |first.data|, |Payloads(part)|);
  }

  lemma NumberedGood(segments: seq<Out>, nxt: Seq32, ack: Seq32, mss: nat)
    requires Numbered(segments, nxt, ack, mss) && IsSeq(ack)
    ensures forall o :: o in segments ==> IsSeq(o.sequence) && IsSeq(o.acknumber) && !o.syn && !o.fin && !o.rst
  {
    hide Payloads, Wrap;
    forall o | o in segments ensures IsSeq(o.sequence) && o.acknumber == ack && !o.syn && !o.fin && !o.rst {
      var i :| 0 <= i < |segments| && segments[i] == o;
      assert IsData(segments[i], Wrap(nxt + |Payloads(segments[..i])|), ack, mss);
      WrapSeq(nxt + |Payloads(segments[..i])|);
    }
  }

  /** Data that fits is taken in full, and acknowledged. */
  lemma {:induction false} TakesAll(p: Conn, segments: seq<Out>, ack: Seq32, mss: nat, win: Seq32)
    requires Receiving(p, p.rcvnxt, ack) && Numbered(segments, p.rcvnxt, ack, mss)
    requires IsSeq(ack) && IsSeq(win) && IsSeq(p.rcvnxt) && |Payloads(segments)| <= p.rcvwnd
    ensures var q := ArriveAll(p, segments, win);
            && q.accepted == p.accepted + Payloads(segments)
            && Receiving(q, p.rcvnxt + |Payloads(segments)|, ack) && q.snd.nxt == p.snd.nxt
            && q.rcvwnd == p.rcvwnd - |Payloads(segments)| && q.sock == p.sock
            && (segments != [] && p.sock.state == IsConnected ==> Readable(q))
            && (segments != [] ==>
                  q.log != [] && Last(q) == Out(q.snd.nxt, q.rcvnxt, false, true, false, false, []))
    decreases |segments|
  {
    hide Arrive, Inv, Payloads, Numbered, IsData, Last;
    if segments == [] {
      NoPayload(segments);
    } else {
      NumberedRest(segments, p.rcvnxt, ack, mss);
      TakesFirst(p, segments[0], ack, mss, win);
      var q := Arrive(p, Carried(segments[0], win));
      TakesAll(q, segments[1..], ack, mss, win);
      if segments[1..] == [] {
        assert ArriveAll(p, segments, win) == q;
      }
    }
  }

  lemma TakesFirst(p: Conn, o: Out, ack: Seq32, mss: nat, win: Seq32)
    requires Receiving(p, p.rcvnxt, ack) && IsData(o, p.rcvnxt, ack, mss) && |o.data| <= p.rcvwnd
    requires IsSeq(ack) && IsSeq(win) && IsSeq(p.rcvnxt)
    ensures var q := Arrive(p, Carried(o, win));
            && q.accepted == p.accepted + o.data && Receiving(q, p.rcvnxt + |o.data|, ack)
            && q.rcvwnd == p.rcvwnd - |o.data| && q.snd.nxt == p.snd.nxt
            && q.rcvnxt == Wrap(p.rcvnxt + |o.data|) == p.rcvnxt + |o.data| && q.sock == p.sock
            && (p.sock.state == IsConnected ==> Readable(q))
            && q.log != [] && Last(q) == Out(q.snd.nxt, q.rcvnxt, false, true, false, false, [])
  {
    TakesSegment(p, o, win, mss);
    hide Arrive, Inv;
  }

  lemma Acknowledged(d: Conn, o: Out, win: Seq32)
    requires (d.state == Established || d.state == CloseWait) && IsSeq(d.rcvnxt) && IsSeq(d.rcvwnd) && IsSeq(win)
    requires o == Out(d.rcvnxt, d.snd.nxt, false, true, false, false, []) && d.rcvnxt + d.rcvwnd < MODULUS
    requires d.snd.una <= d.snd.nxt && IsSeq(d.snd.nxt)
    ensures var e := Arrive(d, Carried(o, win));
            && e.state == d.state && e.snd.una == e.snd.nxt == d.snd.nxt && e.rcvnxt == d.rcvnxt
            && e.rcvwnd == d.rcvwnd && e.accepted == d.accepted
  {
    AcceptableMeans(d, Carried(o, win));
    hide Acceptable, Wrap;
  }

  /**
    What one side writes and puts on the wire, the other takes as it was written, if and only if it fits the
    receiver's buffer. Then it can be read, and the acknowledgment that goes
    back links the two again.
   */
  lemma Transfer(c: Conn, p: Conn, mss: nat, data: seq<Byte>, win: Seq32, back: Seq32)
    requires Linked(c, p) && Inv(c) && Writable(c) && Inv(p) && p.state == Established && !p.freed
    requires p.rcvnxt + p.rcvwnd < MODULUS && c.rcvnxt + c.rcvwnd < MODULUS && IsSeq(win) && IsSeq(back)
    ensures var d := Write(c, mss, data);
            && c.log <= d.log && c.sent <= d.sent <= c.sent + |data|
            && var n := d.sent - c.sent;
            && var q := ArriveAll(p, d.log[|c.log|..], win);
            && (q.accepted == p.accepted + data[..n] <==> n <= p.rcvwnd)
            && (0 < n <= p.rcvwnd && p.sock.state == IsConnected ==> Readable(q))
            && (0 < n <= p.rcvwnd ==> q.log != [] && Linked(Arrive(d, Carried(Last(q), back)), q))
  {
    hide Write, Arrive, ArriveAll, Inv, Payloads, Numbered, Wrap, Last;
    WriteBytes(c, mss, data);
    InvSequence(c);
    RoomOf(c);
    RoomIs(p);
    var d := Write(c, mss, data);
    var n := d.sent - c.sent;
    var segments := d.log[|c.log|..];
    NumberedGood(segments, c.snd.nxt, c.rcvnxt, mss);
    AllStayOpen(p, segments, win);
    if n <= p.rcvwnd {
      TakesAll(p, segments, c.rcvnxt, mss, win);
      if n > 0 {
        NoPayload([]);
        WrapSeq(c.snd.nxt + n);
        SmallSum(c, p, n);
        var q := ArriveAll(p, segments, win);
        assert segments != [];
        hide Linked, Readable;
        LinkedAgain(c, p, d, q, n, back);
      }
    }
  }

  lemma LinkedAgain(c: Conn, p: Conn, d: Conn, q: Conn, n: nat, back: Seq32)
    requires Linked(c, p) && Writable(c) && d == c.(log := d.log, sent := d.sent, snd := c.snd.(nxt := d.snd.nxt))
    requires d.snd.nxt == c.snd.nxt + n == q.rcvnxt < MODULUS && q.snd.nxt == p.snd.nxt && q.snd.una <= q.snd.nxt
    requires q.log != [] && Last(q) == Out(q.snd.nxt, q.rcvnxt, false, true, false, false, [])
    requires IsSeq(c.rcvnxt) && IsSeq(c.rcvwnd) && IsSeq(back) && c.rcvnxt + c.rcvwnd < MODULUS
    ensures Linked(Arrive(d, Carried(Last(q), back)), q)
  {
    hide Arrive;
    Acknowledged(d, Last(q), back);
  }

  lemma SmallSum(c: Conn, p: Conn, n: nat)
    requires c.snd.nxt == p.rcvnxt && n <= p.rcvwnd && p.rcvnxt + p.rcvwnd < MODULUS && IsSeq(p.rcvnxt)
    ensures Wrap(c.snd.nxt + n) == c.snd.nxt + n
  {
  }

  lemma RoomOf(c: Conn)
    requires Inv(c) && Writable(c)
    ensures IsSeq(c.rcvwnd) && IsSeq(c.rcvnxt)
  {
  }

  // ----- half-open connections

  /** It does not know the connection that the segment belongs to. */
  predicate Forgot(l: Conn, s: Segment) {
    l.state == Listen || (l.state == SynSent && (s.acknumber <= l.snd.iss || l.snd.nxt < s.acknumber))
  }

  /**
    Whatever a connection sends to an end that has forgotten it is answered by a reset, which it believes exactly when
    its window does not reach 2^32 (section 3.4 of RFC 793).
   */
  lemma HalfOpen(p: Conn, l: Conn, data: seq<Byte>, win: Seq32)
    requires Synchronized(p.state) && IsSeq(p.rcvnxt) && IsSeq(p.rcvwnd) && IsSeq(win) && IsSeq(p.snd.nxt)
    requires Forgot(l, Carried(Out(p.snd.nxt, p.rcvnxt, false, true, false, false, data), win))
    ensures var m := Arrive(l, Carried(Out(p.snd.nxt, p.rcvnxt, false, true, false, false, data), win));
            && |m.log| == |l.log| + 1 && m == l.(log := m.log)
            && var q := Arrive(p, Carried(Last(m), win));
               if p.rcvnxt + p.rcvwnd < MODULUS then q.state == Closed && q.freed else q == p
  {
    var m := Arrive(l, Carried(Out(p.snd.nxt, p.rcvnxt, false, true, false, false, data), win));
    var s := Carried(Last(m), win);
    assert s == Segment(p.rcvnxt, 0, win, false, false, false, true, []);
    AcceptableMeans(p, s);
    ResetExact(p, s);
  }

  // ----- closing

  /** The receive window is open, and does not reach 2^32. */
  predicate TakesFins(c: Conn) {
    0 < c.rcvwnd && c.rcvnxt + c.rcvwnd < MODULUS
  }

  ghost predicate Ready(c: Conn) {
    c.state == Established && c.log != [] && IsSeq(c.rcvnxt) && IsSeq(c.rcvwnd) && IsSeq(c.snd.nxt)
  }

  lemma FirstFin(c: Conn)
    requires Ready(c)
    ensures var d := Close(c);
            && d.state == FinWait1 && |d.log| == |c.log| + 1 && d.rcvnxt == c.rcvnxt && d.rcvwnd == c.rcvwnd
            && d.snd == c.snd.(nxt := Wrap(c.snd.nxt + 1))
            && Last(d) == Out(c.snd.nxt, c.rcvnxt, false, true, true, false, [])
  {
    hide Wrap;
  }

  lemma FinTaken(p: Conn, s: Segment)
    requires Ready(p) && s.sequence == p.rcvnxt && p.snd.una <= s.acknumber == p.snd.nxt && IsSeq(s.win)
    requires s.ack && s.fin && !s.syn && !s.rst && s.data == []
    ensures var q := Arrive(p, s);
            && (TakesFins(p) ==>
                  && q.state == CloseWait && q.snd.nxt == p.snd.nxt && q.rcvnxt == Wrap(p.rcvnxt + 1)
                  && q.rcvwnd == p.rcvwnd && (p.sock.state == IsConnected ==> Writable(q))
                  && (Readable(p) ==> Readable(q) && q.stream == p.stream)
                  && |q.log| == |p.log| + 1 && Last(q) == Out(q.snd.nxt, q.rcvnxt, false, true, false, false, []))
            && (!TakesFins(p) ==>
                  q.state == Established && q == p.(log := q.log) && |q.log| == |p.log| + 1
                  && Last(q) == Out(p.snd.nxt, p.rcvnxt, false, true, false, false, []))
  {
    AcceptableMeans(p, s);
    assert Acceptable(p, s) <==> TakesFins(p) by {
      if TakesFins(p) {
        assert s.sequence <= p.rcvnxt < s.sequence + SegLen(s);
        assert Overlaps(p, s);
      }
    }
    hide Acceptable, Wrap;
  }

  lemma FinAcked(d: Conn, s: Segment)
    requires d.state == FinWait1 && IsSeq(d.rcvnxt) && IsSeq(d.rcvwnd) && IsSeq(s.win) && IsSeq(d.snd.nxt)
    requires s.sequence == d.rcvnxt && s.ack && !s.fin && !s.syn && !s.rst && s.data == [] && IsSeq(s.acknumber)
    requires d.snd.una <= d.snd.nxt || s.acknumber != d.snd.nxt
    ensures var e := Arrive(d, s);
            && e.rcvnxt == d.rcvnxt && e.rcvwnd == d.rcvwnd && e.snd.nxt == d.snd.nxt && d.log <= e.log
            && (e.state == FinWait1 || e.state == FinWait2)
            && (d.rcvnxt + d.rcvwnd < MODULUS && s.acknumber == d.snd.nxt ==>
                  e.state == FinWait2 && e.snd.una == e.snd.nxt)
            && (s.acknumber != d.snd.nxt ==> e.state == FinWait1)
            && (d.rcvnxt + d.rcvwnd >= MODULUS ==> e.state == FinWait1)
  {
    AcceptableMeans(d, s);
    hide Acceptable, Wrap;
  }

  lemma SecondFin(q: Conn)
    requires q.state == CloseWait && q.log != []
    ensures var r := Close(q);
            && r.state == LastAck && r.log != [] && r.snd.nxt == Wrap(q.snd.nxt + 1) && r.rcvnxt == q.rcvnxt
            && r.rcvwnd == q.rcvwnd && Last(r) == Out(q.snd.nxt, q.rcvnxt, false, true, true, false, [])
  {
    hide Wrap;
  }

  lemma LastFinTaken(e: Conn, s: Segment)
    requires (e.state == FinWait1 || e.state == FinWait2) && IsSeq(e.rcvnxt) && IsSeq(e.rcvwnd) && IsSeq(s.win)
    requires s.sequence == e.rcvnxt && s.ack && s.fin && !s.syn && !s.rst && s.data == [] && IsSeq(s.acknumber)
    ensures var g := Arrive(e, s);
            && (g.state == TimeWait ==> TakesFins(e))
            && (e.state == FinWait1 && s.acknumber != e.snd.nxt ==> g.state != TimeWait)
            && (TakesFins(e) && e.state == FinWait2 && s.acknumber == e.snd.nxt == e.snd.una ==>
                  && g.state == TimeWait && g.log != []
                  && Last(g) == Out(e.snd.nxt, Wrap(e.rcvnxt + 1), false, true, false, false, []))
  {
    AcceptableMeans(e, s);
    assert Acceptable(e, s) <==> TakesFins(e) by {
      if TakesFins(e) {
        assert s.sequence <= e.rcvnxt < s.sequence + SegLen(s);
        assert Overlaps(e, s);
      }
    }
    hide Acceptable, Wrap;
  }

  lemma LastAckTaken(r: Conn, s: Segment)
    requires r.state == LastAck && IsSeq(r.rcvnxt) && IsSeq(r.rcvwnd) && IsSeq(s.win) && IsSeq(s.acknumber)
    requires s.sequence == r.rcvnxt && s.ack && !s.fin && !s.syn && !s.rst && s.data == []
    requires r.rcvnxt + r.rcvwnd < MODULUS && s.acknumber == r.snd.nxt
    ensures Arrive(r, s).state == Closed && Arrive(r, s).freed
  {
    AcceptableMeans(r, s);
    hide Acceptable;
  }

  lemma LastAckLost(r: Conn, s: Segment)
    requires r.state == LastAck && IsSeq(r.rcvnxt) && IsSeq(r.rcvwnd) && GoodSegment(s)
    requires r.rcvnxt + r.rcvwnd >= MODULUS
    ensures Arrive(r, s).state == LastAck
  {
    AcceptableMeans(r, s);
    hide Acceptable;
  }

  /** Both sides close, first `c` and then `p`. Where it ends, and whether the last segment was sent at all. */
  ghost predicate Closes(c: Conn, p: Conn, win: Seq32)
    requires Ready(c) && Ready(p)
  {
    var c1 := Close(c);
    c1.log != [] &&
    var p1 := Arrive(p, Carried(Last(c1), win));
    p1.log != [] &&
    var c2 := Arrive(c1, Carried(Last(p1), win));
    var p2 := Close(p1);
    p2.log != [] &&
    var c3 := Arrive(c2, Carried(Last(p2), win));
    c3.log != [] && c3.state == TimeWait && Arrive(p2, Carried(Last(c3), win)).state == Closed
  }

  /**
    Four segments close both ends, one waiting and one gone, if and only if both windows are open and neither
    reaches 2^32, that of the side closed last not even with the number of the peer's FIN.
   */
  lemma Shutdown(c: Conn, p: Conn, win: Seq32)
    requires Linked(c, p) && Linked(p, c) && Ready(c) && Ready(p) && IsSeq(win)
    ensures Closes(c, p, win) <==> TakesFins(c) && TakesFins(p) && p.rcvnxt + 1 + p.rcvwnd < MODULUS
  {
    hide Close, Arrive, Wrap;
    FirstFin(c);
    var c1 := Close(c);
    FinTaken(p, Carried(Last(c1), win));
    var p1 := Arrive(p, Carried(Last(c1), win));
    NextDiffers(c.snd.nxt);
    FinAcked(c1, Carried(Last(p1), win));
    var c2 := Arrive(c1, Carried(Last(p1), win));
    if TakesFins(p) {
      SecondFin(p1);
      var p2 := Close(p1);
      LastFinTaken(c2, Carried(Last(p2), win));
      if TakesFins(c) {
        var c3 := Arrive(c2, Carried(Last(p2), win));
        NextDiffers(p.rcvnxt);
        NextDiffers(p.snd.nxt);
        if p.rcvnxt + 1 + p.rcvwnd < MODULUS {
          LastAckTaken(p2, Carried(Last(c3), win));
        } else {
          LastAckLost(p2, Carried(Last(c3), win));
        }
      }
    } else {
      FirstFin(p1);
      LastFinTaken(c2, Carried(Last(Close(p1)), win));
    }
  }

  predicate Plain(s: Segment) {
    s.ack && !s.fin && !s.syn && !s.rst && s.data == []
  }

  lemma CrossingFin(d: Conn, s: Segment)
    requires d.state == FinWait1 && IsSeq(d.rcvnxt) && IsSeq(d.rcvwnd) && GoodSegment(s)
    requires s.sequence == d.rcvnxt && s.ack && s.fin && !s.syn && !s.rst && s.data == []
    requires s.acknumber == d.snd.una && d.snd.nxt == Wrap(d.snd.una + 1)
    ensures var e := Arrive(d, s);
            && e.log != [] && e.rcvwnd == d.rcvwnd && e.snd.nxt == d.snd.nxt
            && Plain(Carried(Last(e), s.win)) && IsSeq(e.rcvnxt)
            && Last(e).sequence == e.snd.nxt && Last(e).acknumber == e.rcvnxt
            && (TakesFins(d) && d.snd.una + 1 < MODULUS ==>
                  e.state == Closing && e.rcvnxt == Wrap(d.rcvnxt + 1))
            && (!TakesFins(d) ==> e.state == FinWait1)
  {
    AcceptableMeans(d, s);
    assert Acceptable(d, s) <==> TakesFins(d) by {
      if TakesFins(d) {
        assert s.sequence <= d.rcvnxt < s.sequence + SegLen(s);
        assert Overlaps(d, s);
      }
    }
    hide Acceptable;
  }

  lemma CrossingAck(e: Conn, s: Segment)
    requires (e.state == Closing || e.state == FinWait1) && IsSeq(e.rcvnxt) && IsSeq(e.rcvwnd) && GoodSegment(s)
    requires Plain(s) && (e.state == Closing ==> s.sequence == e.rcvnxt)
    ensures Arrive(e, s).state == TimeWait <==>
              e.state == Closing && e.rcvnxt + e.rcvwnd < MODULUS && s.acknumber == e.snd.nxt
  {
    AcceptableMeans(e, s);
    if Acceptable(e, s) {
      OurFinAcked(e, s);
    } else {
      StrayAnswers(e, s);
    }
  }

  /**
    When both sides close at the same time, their FINs and then the acknowledgments cross, and both end up waiting,
    if and only if both windows are open and do not reach 2^32 even with the number of the other's FIN.
   */
  lemma BothClose(c: Conn, p: Conn, win: Seq32)
    requires Linked(c, p) && Linked(p, c) && Ready(c) && Ready(p) && IsSeq(win)
    ensures var c1, p1 := Close(c), Close(p);
            && c1.log != [] && p1.log != []
            && var c2, p2 := Arrive(c1, Carried(Last(p1), win)), Arrive(p1, Carried(Last(c1), win));
            && c2.log != [] && p2.log != []
            && var c3, p3 := Arrive(c2, Carried(Last(p2), win)), Arrive(p2, Carried(Last(c2), win));
               (c3.state == TimeWait && p3.state == TimeWait <==>
                  && 0 < c.rcvwnd && c.rcvnxt + 1 + c.rcvwnd < MODULUS
                  && 0 < p.rcvwnd && p.rcvnxt + 1 + p.rcvwnd < MODULUS)
  {
    hide Close, Arrive, Wrap;
    FirstFin(c);
    FirstFin(p);
    NextDiffers(c.snd.nxt);
    NextDiffers(p.snd.nxt);
    var c1, p1 := Close(c), Close(p);
    CrossingFin(c1, Carried(Last(p1), win));
    CrossingFin(p1, Carried(Last(c1), win));
    if TakesFins(c) && TakesFins(p) {
      var c2, p2 := Arrive(c1, Carried(Last(p1), win)), Arrive(p1, Carried(Last(c1), win));
      CrossingAck(c2, Carried(Last(p2), win));
      CrossingAck(p2, Carried(Last(c2), win));
    } else {
      OneStays(c1, p1, win);
      OneStays(p1, c1, win);
    }
  }

  lemma OneStays(d: Conn, other: Conn, win: Seq32)
    requires d.state == FinWait1 && other.state == FinWait1 && IsSeq(d.rcvnxt) && IsSeq(d.rcvwnd) && IsSeq(win)
    requires other.log != [] && d.log != []
    requires var e := Arrive(d, Carried(Last(other), win));
             (e.state == FinWait1 && e.rcvwnd == d.rcvwnd && IsSeq(e.rcvnxt)) || TakesFins(d)
    requires var o := Arrive(other, Carried(Last(d), win));
             o.log != [] && Plain(Carried(Last(o), win)) && GoodSegment(Carried(Last(o), win))
    ensures var e, o := Arrive(d, Carried(Last(other), win)), Arrive(other, Carried(Last(d), win));
            !TakesFins(d) ==> Arrive(e, Carried(Last(o), win)).state != TimeWait
  {
    hide Arrive, TakesFins;
    var e, o := Arrive(d, Carried(Last(other), win)), Arrive(other, Carried(Last(d), win));
    if !TakesFins(d) {
      CrossingAck(e, Carried(Last(o), win));
    }
  }

  lemma NextDiffers(n: Seq32)
    requires IsSeq(n)
    ensures Wrap(n + 1) != n && IsSeq(Wrap(n + 1)) && (n + 1 < MODULUS ==> Wrap(n + 1) == n + 1)
  {
  }
}
