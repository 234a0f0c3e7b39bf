/**
  The socket that carries out the steps of module Tcp in place. `View` is the connection a socket stands
  for; each method changes it exactly as the corresponding step does.
 */
module TcpSockets {
  import opened Tcp

  /** The bookkeeping of a connection, and the unread bytes. */
  datatype Book = Book(
    stream: seq<Byte>, trace: seq<ConnState>, freed: bool, sent: nat, finAt: nat, peerFin: bool,
    accepted: seq<Byte>, delivered: seq<Byte>, marks: Marks)

  class TcpSocket {
    var tcpstate: ConnState
    var sock: SockVars               // socket state, parent, port
    var eventstate: EventState
    var snd: SendVars                // the send-side numbers
    var rcvwnd: Seq32
    var rcvnxt: Seq32
    const buf: array<Byte>           // the receive stream: buf[..pos] waits to be read
    var pos: nat
    var log: seq<Out>                // everything given to the network
    ghost var book: Book

    ghost predicate Ok()
      reads this, buf
    {
      buf.Length == BUFFER_SIZE && pos <= BUFFER_SIZE && book.stream == buf[..pos]
    }

    ghost function View(): Conn
      reads this
    {
      Conn(tcpstate, sock, eventstate, snd, rcvwnd, rcvnxt, book.stream, log, book.trace, book.freed,
           book.sent, book.finAt, book.peerFin, book.accepted, book.delivered, book.marks)
    }

    constructor ()
      ensures Ok() && fresh(buf) && View() == NewConn()
    {
      tcpstate, sock, eventstate := Closed, SockVars(IsCreated, false, false), Data;
      snd, rcvwnd, rcvnxt := SendVars(0, 0, 0, 0, 0, 0), 0, 0;
      buf := new Byte[BUFFER_SIZE];
      pos, log := 0, [];
      book := Book([], [Closed], false, 0, 0, false, [], [], Marks(false, 0, [], true));
    }

    method SetState(s: ConnState)
      requires Ok()
      modifies `tcpstate, `book
      ensures Ok() && View() == To(old(View()), s)
    {
      tcpstate := s;
      book := book.(trace := book.trace + [s]);
    }

    method SendSegment(syn: bool, ack: bool, fin: bool, rst: bool, data: seq<Byte>)
      requires Ok()
      modifies `log
      ensures Ok() && View() == Send(old(View()), syn, ack, fin, rst, data)
    {
      var sequence := snd.nxt;
      if syn {
        sequence := snd.iss;
      }
      log := log + [Out(sequence, rcvnxt, syn, ack, fin, rst, data)];
    }

    method SendReset(sequence: Seq32)
      requires Ok()
      modifies `log
      ensures Ok() && View() == Refuse(old(View()), sequence)
    {
      log := log + [Out(sequence, 0, false, false, false, true, [])];
    }

    method AbortConnection()
      requires Ok()
      modifies `tcpstate, `book
      ensures Ok() && View() == Abort(old(View()))
    {
      SetState(Closed);
      book := book.(freed := true);
    }

    // ----- the receive stream

    /** Takes the first `len` bytes, or all there are, and moves the rest down within the same buffer. */
    method StreamRead(out: array<Byte>, count: nat) returns (len: nat)
      requires Ok() && out != buf && count <= out.Length
      modifies buf, out, `pos, `book
      ensures Ok() && book == old(book).(stream := book.stream) && len == Min(count, old(pos)) && pos == old(pos) - len
      ensures out[..len] == old(buf[..len]) && out[len..] == old(out[..])[len..]
      ensures book.stream == old(book.stream)[len..]
    {
      len := count;
      if len > pos {
        len := pos;
      }
      CopyOut(out, len);
      ShiftDown(len);
      pos := pos - len;
      book := book.(stream := buf[..pos]);
    }

    /** Copies the oldest bytes to the reader. */
    method CopyOut(out: array<Byte>, len: nat)
      requires out != buf && len <= out.Length && len <= buf.Length
      modifies out
      ensures out[..len] == buf[..len] && out[len..] == old(out[..])[len..]
    {
      var i := 0;
      while i < len
        invariant 0 <= i <= len && buf[..] == old(buf[..])
        invariant forall j :: 0 <= j < out.Length ==> out[j] == if j < i then buf[j] else old(out[j])
      {
        out[i] := buf[i];
        i := i + 1;
      }
    }

    /** Moves the rest down: an ascending copy of the buffer over itself. */
    method ShiftDown(len: nat)
      requires len <= pos <= buf.Length
      modifies buf
      ensures buf[..pos - len] == old(buf[..])[len..pos] && buf[pos - len..] == old(buf[..])[pos - len..]
    {
      var i := 0;
      while i < pos - len
        invariant 0 <= i <= pos - len
        invariant forall j :: 0 <= j < buf.Length ==> buf[j] == if j < i then old(buf[len + j]) else old(buf[j])
      {
        buf[i] := buf[len + i];
        i := i + 1;
      }
    }

    /** Appends `data`, or refuses it whole when it does not fit. */
    method StreamWrite(data: seq<Byte>) returns (ok: bool)
      requires Ok()
      modifies buf, `pos, `book
      ensures Ok() && book == old(book).(stream := book.stream) && (ok <==> old(pos) + |data| <= BUFFER_SIZE)
      ensures !ok ==> pos == old(pos) && buf[..] == old(buf[..]) && book == old(book)
      ensures ok ==> pos == old(pos) + |data| && book.stream == old(book.stream) + data
    {
      if pos + |data| > buf.Length {
        return false;
      }
      var i := 0;
      while i < |data|
        invariant 0 <= i <= |data| && pos == old(pos) && book == old(book)
        invariant forall j :: 0 <= j < buf.Length ==>
                    buf[j] == if pos <= j < pos + i then data[j - pos] else old(buf[j])
      {
        buf[pos + i] := data[i];
        i := i + 1;
      }
      pos := pos + |data|;
      book := book.(stream := buf[..pos]);
      ok := true;
    }

    // ----- segment arrival

    method AcceptSyn(s: Segment, isn: Seq32)
      requires Ok() && View() == NewConn()
      modifies this
      ensures Ok() && View() == Accept(s, isn)
    {
      hide Wrap;
      sock := sock.(hasParent := true);
      book := book.(trace := [Listen]);  // the new connection begins as the listening one
      rcvwnd := BUFFER_SIZE;
      rcvnxt := Wrap(s.sequence + 1);
      book := book.(marks := book.marks.(first := rcvnxt));
      snd := snd.(iss := isn);
      SendSegment(true, true, false, false, []);
      snd := snd.(nxt := Wrap(snd.iss + 1), una := snd.iss);
      book := book.(sent := 1);
      SetState(SynRecv);
    }

    method SynSentPacket(s: Segment)
      requires Ok()
      modifies this
      ensures Ok() && View() == OnSynSent(old(View()), s)
    {
      var acceptable := false;
      if s.ack {
        if s.acknumber <= snd.iss || s.acknumber > snd.nxt {
          SendReset(s.acknumber);
          return;
        }
        if snd.una <= s.acknumber && s.acknumber <= snd.nxt {
          acceptable := true;
        }
      }
      if s.rst {
        if acceptable {
          AbortConnection();
        }
        return;
      }
      if s.syn && s.ack {
        rcvnxt := Wrap(s.sequence + 1);
        book := book.(marks := book.marks.(first := rcvnxt));
        if acceptable {
          snd := snd.(una := s.acknumber);
        }
        // the source tests this, and otherwise falls back to SYN-RCVD; but the test cannot fail
        assert snd.una > snd.iss;
        SetState(Established);
        sock := sock.(state := IsConnected);
        SendSegment(false, true, false, false, []);
        snd := snd.(wnd := s.win, wl1 := s.sequence, wl2 := s.acknumber);
      } else if s.ack {
        SendReset(s.acknumber);
      }
    }

    method AckPacket(s: Segment) returns (drop: bool)
      requires Ok()
      modifies this
      ensures Ok() && Step(View(), drop) == OnAck(old(View()), s)
    {
      if tcpstate == SynRecv {
        if snd.una <= s.acknumber && s.acknumber <= snd.nxt {
          SetState(Established);
          sock := sock.(state := IsConnected);
        } else {
          SendReset(if s.ack then 0x100_0000 else 0);
          return true;
        }
      }
      if tcpstate == LastAck {
        if s.acknumber == snd.nxt {
          AbortConnection();
        }
        return true;
      }
      if tcpstate == TimeWait {
        return false;
      }
      if snd.una < s.acknumber && s.acknumber <= snd.nxt {
        snd := snd.(una := s.acknumber);
        if snd.wl1 < s.sequence || (snd.wl1 == s.sequence && snd.wl2 <= s.acknumber) {
          snd := snd.(wnd := s.win, wl1 := s.sequence, wl2 := s.acknumber);
        }
      } else if s.acknumber > snd.nxt {
        SendSegment(false, true, false, false, []);
        return true;
      }
      if tcpstate == FinWait1 {
        if s.acknumber == snd.nxt {
          SetState(FinWait2);
        }
      } else if tcpstate == Closing {
        if s.acknumber == snd.nxt {
          SetState(TimeWait);
        }
      }
      drop := false;
    }

    /** Moves the numbers past the data of the segment. */
    method NoteData(s: Segment)
      requires Ok()
      modifies `rcvnxt, `rcvwnd, `book
      ensures var c := old(View());
              var marks := c.marks.(places := c.marks.places + Numbers(s.sequence, |s.data|),
                                    orderly := c.marks.orderly && s.sequence == c.rcvnxt);
              Ok() && View() == c.(accepted := c.accepted + s.data, marks := marks,
                                   rcvnxt := Wrap(s.sequence + SegLen(s)), rcvwnd := Wrap(c.rcvwnd - |s.data|))
    {
      hide Wrap, SegLen, Numbers;
      book := book.(marks := book.marks.(places := book.marks.places + Numbers(s.sequence, |s.data|),
                                         orderly := book.marks.orderly && s.sequence == rcvnxt));
      book := book.(accepted := book.accepted + s.data);
      rcvnxt := Wrap(s.sequence + SegLen(s));
      rcvwnd := Wrap(rcvwnd - |s.data|);
    }

    method DataPacket(s: Segment) returns (drop: bool)
      requires Ok()
      modifies this, buf
      ensures Ok() && Step(View(), drop) == OnData(old(View()), s)
    {
      hide Wrap, SegLen, Numbers;
      drop := false;
      if (tcpstate == Established || tcpstate == FinWait1 || tcpstate == FinWait2) && |s.data| > 0 {
        var ok := StreamWrite(s.data);
        if !ok {
          return true;
        }
        NoteData(s);
        SendSegment(false, true, false, false, []);
        eventstate := Data;
      }
    }

    method FinPacket(s: Segment)
      requires Ok()
      modifies this
      ensures Ok() && View() == OnFin(old(View()), s)
    {
      hide Wrap;
      match tcpstate {
        case SynRecv | Established =>
          SetState(CloseWait);
        case FinWait1 =>
          if s.acknumber == snd.nxt {
            SetState(TimeWait);
          } else {
            SetState(Closing);
          }
        case FinWait2 =>
          SetState(TimeWait);
        case _ =>
      }
      book := book.(peerFin := true);
      rcvnxt := Wrap(s.sequence + 1);
      SendSegment(false, true, false, false, []);
    }

    /** Does the segment fall into the receive window? */
    method CheckWindow(s: Segment) returns (acceptable: bool)
      requires Ok()
      ensures acceptable == Acceptable(View(), s)
    {
      var seglen := |s.data|;
      if s.syn {
        seglen := seglen + 1;
      }
      if s.fin {
        seglen := seglen + 1;
      }
      acceptable := false;
      if seglen == 0 {
        if rcvwnd == 0 {
          acceptable := s.sequence == rcvnxt;
        } else {
          acceptable := rcvnxt <= s.sequence && s.sequence < Wrap(rcvnxt + rcvwnd);
        }
      } else if rcvwnd != 0 {
        acceptable := (rcvnxt <= s.sequence && s.sequence < Wrap(rcvnxt + rcvwnd)) ||
                      (rcvnxt <= s.sequence + seglen - 1 && s.sequence + seglen - 1 < Wrap(rcvnxt + rcvwnd));
      }
    }

    /** A segment for this socket. A listening socket answers a plain SYN with a new socket in SYN-RCVD. */
    method NetPacket(s: Segment, isn: Seq32) returns (child: TcpSocket?)
      requires Ok()
      modifies this, buf
      ensures Ok() && View() == Arrive(old(View()), s)
      ensures child != null <==> old(tcpstate) == Listen && s.syn && !s.rst && !s.ack
      ensures child != null ==> fresh(child) && child.Ok() && child.View() == Accept(s, isn)
    {
      child := null;
      if tcpstate == Listen {
        if s.rst {
          return;
        }
        if s.ack {
          SendReset(s.acknumber);
          return;
        }
        if s.syn {
          var socket := new TcpSocket();
          socket.AcceptSyn(s, isn);
          child := socket;
        }
        return;
      }
      if tcpstate == SynSent {
        SynSentPacket(s);
        return;
      }
      SegmentPacket(s);
    }

    method SegmentPacket(s: Segment)
      requires Ok()
      modifies this, buf
      ensures Ok() && View() == OnSegment(old(View()), s)
    {
      hide OnAck, OnData, OnFin, Acceptable;
      var acceptable := CheckWindow(s);
      if !acceptable {
        if !s.rst {
          SendSegment(false, true, false, false, []);
        }
        return;
      }
      if s.rst {
        if tcpstate != SynRecv {
          eventstate := Reset;
        }
        AbortConnection();
        return;
      }
      if s.syn {
        SendSegment(false, false, false, true, []);
        eventstate := Reset;
        AbortConnection();
        return;
      }
      if !s.ack {
        return;
      }
      var drop := AckPacket(s);
      if drop {
        return;
      }
      drop := DataPacket(s);
      if drop {
        return;
      }
      if s.fin {
        FinPacket(s);
      }
    }

    // ----- user calls

    /** The system call. */
    method SyscallBind(addressOk: bool) returns (ok: bool)
      requires Ok()
      modifies `sock
      ensures Ok() && View() == Bind(old(View()), addressOk) && (ok <==> MayBind(old(View()), addressOk))
    {
      ok := false;
      if sock.state != IsCreated {
        return;
      }
      ok := BindSocket(addressOk);
      if ok {
        sock := sock.(state := IsBound);
      }
    }

    /** Acquires the port that the socket has; the port of the address is not looked at. */
    method BindSocket(addressOk: bool) returns (ok: bool)
      requires Ok()
      ensures ok <==> addressOk && sock.hasPort
    {
      if !addressOk {
        return false;
      }
      ok := sock.hasPort;
    }

    method SyscallListen() returns (ok: bool)
      requires Ok()
      modifies this
      ensures Ok() && View() == StartListening(old(View())) && (ok <==> MayListen(old(View())))
    {
      if sock.state != IsBound {
        return false;
      }
      ok := ListenSocket();
      if ok {
        sock := sock.(state := IsListening);
      }
    }

    method ListenSocket() returns (ok: bool)
      requires Ok()
      modifies `tcpstate, `book
      ensures Ok() && (ok <==> sock.state == IsBound)
      ensures var c := old(View());
              var marks := c.marks.(astray := c.marks.astray || c.state == SynSent);
              View() == if ok then To(c, Listen).(marks := marks) else c
    {
      if sock.state == IsConnected {
        return false;
      }
      if sock.state != IsBound {
        return false;
      }
      book := book.(marks := book.marks.(astray := book.marks.astray || tcpstate == SynSent));
      SetState(Listen);
      ok := true;
    }

    /** The system call, up to where it waits for the peer. */
    method SyscallConnect(isn: Seq32) returns (ok: bool)
      requires Ok()
      modifies this
      ensures Ok() && View() == Connect(old(View()), isn) && (ok <==> MayConnect(old(View())))
    {
      if sock.state == IsConnected {
        return false;
      } else if sock.state != IsCreated {
        return false;
      }
      ok := ConnectSocket(isn);
    }

    method PrepareSyn(isn: Seq32)
      requires Ok()
      modifies `tcpstate, `sock, `rcvwnd, `snd, `book
      ensures var c := old(View());
              var d := c.(sock := c.sock.(hasPort := true), rcvwnd := BUFFER_SIZE, snd := c.snd.(iss := isn));
              Ok() && View() == To(d, SynSent)
    {
      if !sock.hasPort {
        sock := sock.(hasPort := true);
      }
      rcvwnd := BUFFER_SIZE;
      snd := snd.(iss := isn);
      SetState(SynSent);
    }

    method ConnectSocket(isn: Seq32) returns (ok: bool)
      requires Ok()
      modifies `tcpstate, `sock, `rcvwnd, `snd, `log, `book
      ensures Ok() && (ok <==> !ConnectRefused(old(View())))
      ensures View() == if ok then OpenConnection(old(View()), isn) else old(View())
    {
      hide Wrap;
      if sock.state == IsConnected && tcpstate == Established {
        return false;
      } else if tcpstate == SynSent {
        return false;
      }
      PrepareSyn(isn);
      SendSegment(true, false, false, false, []);
      snd := snd.(una := snd.iss, nxt := Wrap(snd.iss + 1));
      book := book.(sent := 1, peerFin := false, accepted := book.stream, delivered := [],
                    marks := book.marks.(places := [], orderly := true));
      ok := true;
    }

    method SendFinSegment()
      requires Ok()
      modifies `log, `snd, `book
      ensures Ok() && View() == SendFin(old(View()))
    {
      book := book.(finAt := |log|, sent := book.sent + 1);
      SendSegment(false, true, true, false, []);
      snd := snd.(nxt := Wrap(snd.nxt + 1));
    }

    method CloseSocket() returns (ok: bool)
      requires Ok()
      modifies this
      ensures Ok() && View() == Close(old(View())) && (ok <==> !CloseRefused(old(View())))
    {
      hide SendFin;
      match tcpstate {
        case Closed =>
          book := book.(freed := true);
        case Listen | SynSent =>
          AbortConnection();
        case Established | SynRecv =>
          SendFinSegment();
          SetState(FinWait1);
        case CloseWait =>
          SendFinSegment();
          SetState(LastAck);
        case _ =>
          return false;
      }
      ok := true;
    }

    /** Reads up to `count` unread bytes into `out`; `ret` is -1 for an error or a call that has to wait. */
    method ReadSocket(out: array<Byte>, count: nat) returns (ret: int)
      requires Ok() && out != buf && count <= out.Length
      modifies this, buf, out
      ensures Ok() && View() == Read(old(View()), count)
      ensures Readable(old(View())) ==> ret == Min(count, old(pos)) && out[..ret] == old(book.stream)[..ret]
      ensures !Readable(old(View())) ==> ret <= 0 && out[..] == old(out[..])
    {
      hide Wrap;
      ret := -1;
      if sock.state != IsConnected {
        return;
      }
      match tcpstate {
        case Closed | Listen | SynSent | SynRecv =>
          return;
        case Established | FinWait1 | FinWait2 =>
          if pos == 0 {
            return;  // would block
          }
        case CloseWait =>
          if pos == 0 {
            return 0;
          }
        case Closing | LastAck | TimeWait =>
          return 0;
      }
      if eventstate != Data {
        return;
      }
      var n := count;
      if pos < n {
        n := pos;
      }
      rcvwnd := Wrap(rcvwnd + n);
      book := book.(delivered := book.delivered + book.stream[..n]);
      var len := StreamRead(out, n);
      ret := n;
    }

    /** Sends `data` in segments; `progress` bytes are out when the call ends or has to wait. */
    method WriteSocket(mss: nat, data: seq<Byte>) returns (progress: nat)
      requires Ok() && Writable(View()) && mss > 0 && IsSeq(snd.nxt)
      modifies `log, `snd, `book
      ensures Ok() && View() == Write(old(View()), mss, data) && progress <= |data|
      ensures progress < |data| ==> Wrap(snd.wnd - Wrap(snd.nxt - snd.una)) == 0
      ensures book.sent == old(book.sent) + progress
      ensures old(log) <= log && Payloads(log[|old(log)|..]) == data[..progress]
      ensures Numbered(log[|old(log)|..], old(snd.nxt), rcvnxt, mss)
    {
      hide Wrap, Write, WriteOne, Payloads, Numbered, Inv;
      ghost var was := View();
      progress := 0;
      assert data[0..] == data;
      while progress < |data|
        invariant progress <= |data| && Ok() && book.sent == old(book.sent) + progress
        invariant Write(View(), mss, data[progress..]) == Write(old(View()), mss, data)
      {
        ghost var c := View();
        var cap := Wrap(snd.wnd - Wrap(snd.nxt - snd.una));
        if cap == 0 {
          break;
        }
        var seglen := Min(Min(mss, |data| - progress), cap);
        WriteUnfold(c, mss, data, progress, seglen);
        WriteSegment(data[progress..progress + seglen]);
        progress := progress + seglen;
      }
      WriteStops(View(), mss, data[progress..]);
      Wrote(was, mss, data, progress);
    }

    method WriteSegment(data: seq<Byte>)
      requires Ok()
      modifies `log, `snd, `book
      ensures Ok() && View() == WriteOne(old(View()), data) && book.sent == old(book.sent) + |data|
    {
      SendSegment(false, true, false, false, data);
      snd := snd.(nxt := Wrap(snd.nxt + |data|));
      book := book.(sent := book.sent + |data|);
    }
  }

  lemma WriteUnfold(c: Conn, mss: nat, data: seq<Byte>, at: nat, n: nat)
    requires at < |data| && n == Chunk(c, mss, |data| - at) && n > 0
    ensures at + n <= |data|
    ensures Write(c, mss, data[at..]) == Write(WriteOne(c, data[at..at + n]), mss, data[at + n..])
  {
    hide WriteOne;
    var rest := data[at..];
    assert rest[..n] == data[at..at + n] && rest[n..] == data[at + n..];
  }

  lemma Wrote(c: Conn, mss: nat, data: seq<Byte>, progress: nat)
    requires IsSeq(c.snd.nxt) && progress <= |data| && Write(c, mss, data).sent == c.sent + progress
    ensures var log := Write(c, mss, data).log;
            && c.log <= log && Payloads(log[|c.log|..]) == data[..progress]
            && Numbered(log[|c.log|..], c.snd.nxt, c.rcvnxt, mss)
  {
    hide Write, Payloads, Numbered, Wrap;
    WriteBytes(c, mss, data);
  }

  lemma WriteStops(c: Conn, mss: nat, data: seq<Byte>)
    requires data == [] || Chunk(c, mss, |data|) == 0
    ensures Write(c, mss, data) == c
  {
  }
}
