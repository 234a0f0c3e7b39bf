/**
  The TCP connection machine (sections 3.2 and 3.9 of RFC 793), as transitions on a value.

  Each function below is one atomic step of the machine; module TcpSockets holds the socket whose methods
  carry the steps out in place. Sequence numbers are 32 bits wide and, as in the source, compared as
  plain unsigned numbers; `NoWrap` says that the numbers used so far have not wrapped around.
 */
module Tcp {

  type Byte = int
  type Seq32 = int

  const MODULUS: int := 0x1_0000_0000
  const BUFFER_SIZE: nat := 0xffff

  datatype ConnState = Closed | Listen | SynSent | SynRecv | Established | CloseWait
                     | FinWait1 | Closing | LastAck | FinWait2 | TimeWait

  /** The state of the socket as the system calls see it, beside the state of the connection. */
  datatype SockState = IsCreated | IsBound | IsListening | IsConnected

  datatype EventState = Data | Reset

  /** An arriving segment; `win` is the window value as the socket stores it. */
  datatype Segment = Segment(
    sequence: Seq32, acknumber: Seq32, win: Seq32, syn: bool, ack: bool, fin: bool, rst: bool, data: seq<Byte>)

  /** A segment given to the network. */
  datatype Out = Out(
    sequence: Seq32, acknumber: Seq32, syn: bool, ack: bool, fin: bool, rst: bool, data: seq<Byte>)

  /** Send-side numbers. */
  datatype SendVars = SendVars(una: Seq32, nxt: Seq32, wl1: Seq32, wl2: Seq32, iss: Seq32, wnd: Seq32)

  /** What the system calls keep of a socket. */
  datatype SockVars = SockVars(state: SockState, hasParent: bool, hasPort: bool)

  /**
    Marks for stating what runs do: whether a `listen` went astray; the number expected when the connection
    opened, the sequence number of each accepted byte, and whether every accepted segment began with the
    number expected then.
   */
  datatype Marks = Marks(astray: bool, first: Seq32, places: seq<Seq32>, orderly: bool)

  /**
    A connection. The last two lines are bookkeeping that the code does not have: every value of the state
    so far, whether the socket was freed, how many sequence numbers were used, which entry of the log is
    our FIN, whether the peer's FIN was processed, the bytes accepted and returned to the reader, and marks.
   */
  datatype Conn = Conn(
    state: ConnState, sock: SockVars, eventstate: EventState, snd: SendVars,
    rcvwnd: Seq32, rcvnxt: Seq32, stream: seq<Byte>, log: seq<Out>,
    trace: seq<ConnState>, freed: bool, sent: nat, finAt: nat, peerFin: bool,
    accepted: seq<Byte>, delivered: seq<Byte>, marks: Marks)

  function Wrap(x: int): (r: Seq32)
    ensures 0 <= r < MODULUS
    ensures 0 <= x < MODULUS ==> r == x
  {
    x % MODULUS
  }

  lemma WrapAgain(x: int, y: int)
    ensures Wrap(Wrap(x) + y) == Wrap(x + y)
  {
    var q := x / MODULUS;
    assert x + y == MODULUS * q + (Wrap(x) + y);
    ModShift(Wrap(x) + y, q);
  }

  lemma ModShift(x: int, q: int)
    ensures (MODULUS * q + x) % MODULUS == x % MODULUS
  {
    var k, r := x / MODULUS, x % MODULUS;
    assert MODULUS * q + x == MODULUS * (q + k) + r;
  }

  predicate IsSeq(x: int) {
    0 <= x < MODULUS
  }

  predicate GoodSegment(s: Segment) {
    IsSeq(s.sequence) && IsSeq(s.acknumber) && IsSeq(s.win)
  }

  function SegLen(s: Segment): nat {
    |s.data| + (if s.syn then 1 else 0) + (if s.fin then 1 else 0)
  }

  // ----- the steps

  function NewConn(): Conn {
    Conn(Closed, SockVars(IsCreated, false, false), Data, SendVars(0, 0, 0, 0, 0, 0), 0, 0, [], [],
         [Closed], false, 0, 0, false, [], [], Marks(false, 0, [], true))
  }

  function To(c: Conn, s: ConnState): Conn {
    c.(state := s, trace := c.trace + [s])
  }

  /** Sends a segment numbered `nxt`, or the initial number for a SYN. */
  function Send(c: Conn, syn: bool, ack: bool, fin: bool, rst: bool, data: seq<Byte>): Conn {
    c.(log := c.log + [Out(if syn then c.snd.iss else c.snd.nxt, c.rcvnxt, syn, ack, fin, rst, data)])
  }

  function Ack(c: Conn): Conn {
    Send(c, false, true, false, false, [])
  }

  function Refuse(c: Conn, sequence: Seq32): Conn {
    c.(log := c.log + [Out(sequence, 0, false, false, false, true, [])])
  }

  /** Goes to CLOSED and frees the socket. */
  function Abort(c: Conn): Conn {
    To(c, Closed).(freed := true)
  }

  /** The connection is open, and the socket connected. */
  function Opened(c: Conn): Conn {
    To(c, Established).(sock := c.sock.(state := IsConnected))
  }

  /** A SYN that reached a listening socket sets up a new connection. */
  function Accept(s: Segment, isn: Seq32): Conn {
    var next := Wrap(s.sequence + 1);
    var c := NewConn().(sock := SockVars(IsCreated, true, false), trace := [Listen], rcvwnd := BUFFER_SIZE,
                        rcvnxt := next, marks := Marks(false, next, [], true), snd := SendVars(0, 0, 0, 0, isn, 0));
    var c := Send(c, true, true, false, false, []);
    To(c.(snd := c.snd.(nxt := Wrap(isn + 1), una := isn), sent := 1), SynRecv)
  }

  /** LISTEN: nothing changes in the listening socket itself. */
  function OnListen(c: Conn, s: Segment): Conn {
    if !s.rst && s.ack then Refuse(c, s.acknumber) else c
  }

  function OnSynSent(c: Conn, s: Segment): Conn {
    if s.ack && (s.acknumber <= c.snd.iss || s.acknumber > c.snd.nxt) then Refuse(c, s.acknumber)
    else
      var acceptable := s.ack && c.snd.una <= s.acknumber <= c.snd.nxt;
      if s.rst then (if acceptable then Abort(c) else c)
      else if s.syn && s.ack then
        var next := Wrap(s.sequence + 1);
        var snd := if acceptable then c.snd.(una := s.acknumber) else c.snd;
        var c := c.(rcvnxt := next, marks := c.marks.(first := next), snd := snd);
        if c.snd.una > c.snd.iss then
          var c := Ack(Opened(c));
          c.(snd := c.snd.(wnd := s.win, wl1 := s.sequence, wl2 := s.acknumber))
        else Send(To(c, SynRecv), true, true, false, false, [])
      else if s.ack then Refuse(c, s.acknumber)
      else c
  }

  /** The window test of the source, in synchronized states. */
  predicate Acceptable(c: Conn, s: Segment) {
    var end := Wrap(c.rcvnxt + c.rcvwnd);
    if SegLen(s) == 0 then
      if c.rcvwnd == 0 then s.sequence == c.rcvnxt else c.rcvnxt <= s.sequence < end
    else
      c.rcvwnd != 0 && (c.rcvnxt <= s.sequence < end || c.rcvnxt <= s.sequence + SegLen(s) - 1 < end)
  }

  /** Does sequence number `k` lie in the receive window? */
  predicate InWindow(c: Conn, k: int) {
    c.rcvnxt <= k < c.rcvnxt + c.rcvwnd
  }

  /** Does some octet of the segment lie in the receive window? */
  ghost predicate Overlaps(c: Conn, s: Segment) {
    exists k :: s.sequence <= k < s.sequence + SegLen(s) && InWindow(c, k)
  }

  /** Does the segment begin before the window and end behind it? */
  predicate Surrounds(c: Conn, s: Segment) {
    s.sequence < c.rcvnxt && c.rcvnxt + c.rcvwnd < s.sequence + SegLen(s)
  }

  /**
    What the window test means. While the window ends below 2^32, a segment that takes up sequence numbers
    is acceptable exactly when one of them lies in the window and it does not surround the window (which
    it can only when it is longer); an empty one when it stands in the window, or at its start. Once
    the window reaches 2^32 every segment is refused, and only then.
   */
  lemma AcceptableMeans(c: Conn, s: Segment)
    requires IsSeq(c.rcvnxt) && IsSeq(c.rcvwnd) && GoodSegment(s)
    ensures c.rcvnxt + c.rcvwnd < MODULUS && SegLen(s) > 0 ==>
              (Acceptable(c, s) <==> Overlaps(c, s) && !Surrounds(c, s))
    ensures SegLen(s) <= c.rcvwnd ==> !Surrounds(c, s)
    ensures c.rcvnxt + c.rcvwnd < MODULUS && SegLen(s) == 0 ==>
              (Acceptable(c, s) <==> s.sequence == c.rcvnxt || InWindow(c, s.sequence))
    ensures c.rcvnxt + c.rcvwnd >= MODULUS ==> !Acceptable(c, s)
    ensures c.rcvnxt + c.rcvwnd < MODULUS ==> Acceptable(c, Segment(c.rcvnxt, 0, 0, false, true, false, false, []))
  {
    var last := s.sequence + SegLen(s) - 1;
    if SegLen(s) > 0 && InWindow(c, s.sequence) {
      assert Overlaps(c, s);
    } else if SegLen(s) > 0 && InWindow(c, last) {
      assert s.sequence <= last < s.sequence + SegLen(s);
      assert Overlaps(c, s);
    }
  }

  /** A connection, and whether the segment is done with. */
  datatype Step = Step(conn: Conn, drop: bool)

  function OnAck(c: Conn, s: Segment): Step {
    if c.state == SynRecv then
      if c.snd.una <= s.acknumber <= c.snd.nxt then OnAckOpen(Opened(c), s)
      else Step(Refuse(c, if s.ack then 0x100_0000 else 0), true)
    else if c.state == LastAck then Step(if s.acknumber == c.snd.nxt then Abort(c) else c, true)
    else if c.state == TimeWait then Step(c, false)
    else OnAckOpen(c, s)
  }

  function OnAckOpen(c: Conn, s: Segment): Step {
    if c.snd.una < s.acknumber <= c.snd.nxt then
      var v := c.snd.(una := s.acknumber);
      var newer := v.wl1 < s.sequence || (v.wl1 == s.sequence && v.wl2 <= s.acknumber);
      var w := if newer then v.(wnd := s.win, wl1 := s.sequence, wl2 := s.acknumber) else v;
      Step(OnFinAcked(c.(snd := w), s), false)
    else if s.acknumber > c.snd.nxt then Step(Ack(c), true)
    else Step(OnFinAcked(c, s), false)
  }

  function OnFinAcked(c: Conn, s: Segment): Conn {
    if c.state == FinWait1 && s.acknumber == c.snd.nxt then To(c, FinWait2)
    else if c.state == Closing && s.acknumber == c.snd.nxt then To(c, TimeWait)
    else c
  }

  predicate TakesData(s: ConnState) {
    s == Established || s == FinWait1 || s == FinWait2
  }

  /** The sequence numbers of `n` bytes from `sequence` on. */
  function Numbers(sequence: Seq32, n: nat): (r: seq<Seq32>)
    ensures |r| == n && forall i :: 0 <= i < n ==> r[i] == Wrap(sequence + i)
  {
    seq(n, i => Wrap(sequence + i))
  }

  /** Data is taken in three states only, and only if all of it fits the buffer. */
  function OnData(c: Conn, s: Segment): Step {
    if TakesData(c.state) && |s.data| > 0 then
      if |c.stream| + |s.data| > BUFFER_SIZE then Step(c, true)
      else
        var marks := c.marks.(places := c.marks.places + Numbers(s.sequence, |s.data|),
                              orderly := c.marks.orderly && s.sequence == c.rcvnxt);
        var d := c.(stream := c.stream + s.data, accepted := c.accepted + s.data, marks := marks,
                    rcvnxt := Wrap(s.sequence + SegLen(s)), rcvwnd := Wrap(c.rcvwnd - |s.data|));
        Step(Ack(d).(eventstate := Data), false)
    else Step(c, false)
  }

  function OnFin(c: Conn, s: Segment): Conn {
    var d := match c.state
      case SynRecv => To(c, CloseWait)
      case Established => To(c, CloseWait)
      case FinWait1 => if s.acknumber == c.snd.nxt then To(c, TimeWait) else To(c, Closing)
      case FinWait2 => To(c, TimeWait)
      case _ => c;
    Ack(d.(peerFin := true, rcvnxt := Wrap(s.sequence + 1)))
  }

  /** A segment for a synchronized connection. */
  function OnSegment(c: Conn, s: Segment): Conn {
    if !Acceptable(c, s) then (if s.rst then c else Ack(c))
    else if s.rst then Abort(if c.state == SynRecv then c else c.(eventstate := Reset))
    else if s.syn then Abort(Send(c, false, false, false, true, []).(eventstate := Reset))
    else if !s.ack then c
    else
      var a := OnAck(c, s);
      if a.drop then a.conn
      else
        var d := OnData(a.conn, s);
        if d.drop || !s.fin then d.conn else OnFin(d.conn, s)
  }

  function Arrive(c: Conn, s: Segment): Conn {
    match c.state
    case Listen => OnListen(c, s)
    case SynSent => OnSynSent(c, s)
    case _ => OnSegment(c, s)
  }

  /** A user reaches a socket through a descriptor, which a child gets from `accept`, once it is connected. */
  predicate HasDescriptor(c: Conn) {
    !c.sock.hasParent || c.sock.state == IsConnected
  }

  /** `bind` wants a new socket, an address of this machine, and a port; but only `connect` gives out ports. */
  predicate MayBind(c: Conn, addressOk: bool) {
    c.sock.state == IsCreated && addressOk && c.sock.hasPort
  }

  function Bind(c: Conn, addressOk: bool): Conn {
    if MayBind(c, addressOk) then c.(sock := c.sock.(state := IsBound)) else c
  }

  /** The system call and `tcp_listen` both want a bound socket; neither looks at the connection. */
  predicate MayListen(c: Conn) {
    c.sock.state == IsBound
  }

  function StartListening(c: Conn): Conn {
    if MayListen(c) then
      To(c, Listen).(sock := c.sock.(state := IsListening),
                     marks := c.marks.(astray := c.marks.astray || c.state == SynSent))
    else c
  }

  /** What `tcp_connect` itself refuses. */
  predicate ConnectRefused(c: Conn) {
    (c.sock.state == IsConnected && c.state == Established) || c.state == SynSent
  }

  /** The system call wants a new socket, and `tcp_connect` one that is not being connected. */
  predicate MayConnect(c: Conn) {
    c.sock.state == IsCreated && !ConnectRefused(c)
  }

  function Connect(c: Conn, isn: Seq32): Conn {
    if MayConnect(c) then OpenConnection(c, isn) else c
  }

  function OpenConnection(c: Conn, isn: Seq32): Conn {
    var d := To(c.(sock := c.sock.(hasPort := true), rcvwnd := BUFFER_SIZE, snd := c.snd.(iss := isn)), SynSent);
    var d := Send(d, true, false, false, false, []);
    d.(snd := d.snd.(una := isn, nxt := Wrap(isn + 1)), sent := 1, peerFin := false,
       accepted := c.stream, delivered := [], marks := c.marks.(places := [], orderly := true))
  }

  function SendFin(c: Conn): Conn {
    var d := Send(c, false, true, true, false, []);
    d.(snd := d.snd.(nxt := Wrap(d.snd.nxt + 1)), sent := d.sent + 1, finAt := |c.log|)
  }

  predicate CloseRefused(c: Conn) {
    AfterOurFin(c.state)
  }

  function Close(c: Conn): Conn {
    match c.state
    case Closed => c.(freed := true)
    case Listen => Abort(c)
    case SynSent => Abort(c)
    case Established => To(SendFin(c), FinWait1)
    case SynRecv => To(SendFin(c), FinWait1)
    case CloseWait => To(SendFin(c), LastAck)
    case _ => c
  }

  predicate Readable(c: Conn) {
    && c.sock.state == IsConnected && c.eventstate == Data && c.stream != []
    && (c.state == Established || c.state == FinWait1 || c.state == FinWait2 || c.state == CloseWait)
  }

  function Min(a: nat, b: nat): nat {
    if a < b then a else b
  }

  function Read(c: Conn, count: nat): Conn {
    if !Readable(c) then c
    else
      var n := Min(count, |c.stream|);
      c.(rcvwnd := Wrap(c.rcvwnd + n), stream := c.stream[n..], delivered := c.delivered + c.stream[..n])
  }

  /** The bytes a segment may carry: limited by its maximum size and by the room in the peer's window. */
  function Chunk(c: Conn, mss: nat, left: nat): nat {
    Min(Min(mss, left), Wrap(c.snd.wnd - Wrap(c.snd.nxt - c.snd.una)))
  }

  function WriteOne(c: Conn, data: seq<Byte>): Conn {
    var d := Send(c, false, true, false, false, data);
    d.(snd := d.snd.(nxt := Wrap(d.snd.nxt + |data|)), sent := d.sent + |data|)
  }

  predicate Writable(c: Conn) {
    c.sock.state == IsConnected && (c.state == Established || c.state == CloseWait)
  }

  /** One pass of the write loop: segments go out until all is sent or the window is full. */
  function Write(c: Conn, mss: nat, data: seq<Byte>): Conn
    decreases |data|
  {
    if data == [] || Chunk(c, mss, |data|) == 0 then c
    else
      var n := Chunk(c, mss, |data|);
      Write(WriteOne(c, data[..n]), mss, data[n..])
  }

  /** A retransmission was given up: the state changes, nothing is freed. */
  function GiveUp(c: Conn): Conn {
    To(c, Closed)
  }

  // ----- the invariant

  /** The edges of the connection state diagram in section 3.2 of RFC 793. */
  predicate RfcEdge(s: ConnState, t: ConnState) {
    match s
    case Closed => t == Listen || t == SynSent
    case Listen => t == SynRecv || t == SynSent || t == Closed
    case SynSent => t == SynRecv || t == Established || t == Closed
    case SynRecv => t == Established || t == FinWait1
    case Established => t == FinWait1 || t == CloseWait
    case CloseWait => t == LastAck
    case FinWait1 => t == FinWait2 || t == Closing
    case FinWait2 => t == TimeWait
    case Closing => t == TimeWait
    case LastAck => t == Closed
    case TimeWait => t == Closed
  }

  /** Every state change so far was an edge of the diagram or an abort. */
  ghost predicate Lawful(trace: seq<ConnState>) {
    forall i :: 0 <= i < |trace| - 1 ==> LawfulAt(trace, i)
  }

  predicate LawfulAt(trace: seq<ConnState>, i: nat)
    requires i < |trace| - 1
  {
    RfcEdge(trace[i], trace[i + 1]) || trace[i + 1] == Closed
  }

  /** The one change outside the diagram: a connection attempt turned into a listening socket. */
  predicate StrayAt(trace: seq<ConnState>, i: nat)
    requires i < |trace| - 1
  {
    trace[i] == SynSent && trace[i + 1] == Listen
  }

  ghost predicate HasStray(trace: seq<ConnState>) {
    exists i :: 0 <= i < |trace| - 1 && StrayAt(trace, i)
  }

  lemma StrayUnlawful(trace: seq<ConnState>)
    requires HasStray(trace)
    ensures !Lawful(trace)
  {
    var i :| 0 <= i < |trace| - 1 && StrayAt(trace, i);
    assert !LawfulAt(trace, i);
  }

  predicate Connected(s: ConnState) {
    s != Closed && s != Listen
  }

  predicate Synchronized(s: ConnState) {
    Connected(s) && s != SynSent
  }

  /** States entered only after our FIN went out. */
  predicate AfterOurFin(s: ConnState) {
    s == FinWait1 || s == FinWait2 || s == Closing || s == LastAck || s == TimeWait
  }

  /** States entered only after the peer's FIN came in. */
  predicate AfterPeerFin(s: ConnState) {
    s == CloseWait || s == Closing || s == LastAck || s == TimeWait
  }

  predicate NoWrap(c: Conn) {
    c.snd.iss + c.sent < MODULUS
  }

  /** Every change was lawful or the stray one, and that one happened only if the connection went astray. */
  ghost predicate TraceOk(trace: seq<ConnState>, state: ConnState, astray: bool) {
    && trace != [] && trace[|trace| - 1] == state
    && (forall i :: 0 <= i < |trace| - 1 ==> LawfulAt(trace, i) || StrayAt(trace, i))
    && (astray <==> HasStray(trace))
  }

  /** How the two states of a socket fit together. */
  ghost predicate SockOk(c: Conn) {
    && (c.sock.hasParent ==> c.sock.state == IsCreated || c.sock.state == IsConnected)
    && (c.sock.hasParent ==> c.state != Listen && c.state != SynSent)
    && (!c.sock.hasParent && c.sock.state != IsConnected ==> !Synchronized(c.state) && c.stream == [])
    && (c.state == Listen ==> c.sock.state == IsListening)
    && (c.state == SynSent ==> c.sock.state == IsCreated || c.sock.state == IsBound)
    && (c.state == SynRecv ==> c.sock.hasParent)
    && (c.sock.state == IsBound || c.sock.state == IsListening ==> c.sock.hasPort)
    && (c.sock.hasPort ==> SynSent in c.trace)
  }

  predicate MayTakeData(s: ConnState) {
    TakesData(s) || s == SynRecv
  }

  /** The accepted bytes stand at consecutive sequence numbers from the first one on. */
  ghost predicate InOrder(places: seq<Seq32>, first: Seq32) {
    forall i :: 0 <= i < |places| ==> places[i] == Wrap(first + i)
  }

  ghost predicate OrderOk(c: Conn) {
    && |c.marks.places| == |c.accepted|
    && (c.marks.orderly <==> InOrder(c.marks.places, c.marks.first))
    && (!c.sock.hasParent && c.sock.state != IsConnected ==> c.marks.places == [] && c.marks.orderly)
    && (MayTakeData(c.state) && c.marks.orderly ==> c.rcvnxt == Wrap(c.marks.first + |c.marks.places|))
  }

  /** What was accepted and not yet read is in the buffer, in order, and the window is the room left. */
  ghost predicate StreamOk(c: Conn) {
    && |c.stream| <= BUFFER_SIZE && c.accepted == c.delivered + c.stream
    && (Connected(c.state) ==> c.rcvwnd + |c.stream| == BUFFER_SIZE)
  }

  ghost predicate SequenceOk(c: Conn) {
    && IsSeq(c.snd.una) && IsSeq(c.snd.nxt) && IsSeq(c.snd.iss) && IsSeq(c.snd.wnd) && IsSeq(c.rcvnxt)
    && (Connected(c.state) ==> c.snd.nxt == Wrap(c.snd.iss + c.sent))
    && (Connected(c.state) && NoWrap(c) ==> c.snd.iss <= c.snd.una <= c.snd.nxt)
    && (c.state == SynSent ==> c.snd.una == c.snd.iss)
  }

  ghost predicate FinOk(c: Conn) {
    && (AfterOurFin(c.state) ==>
          c.finAt < |c.log| && c.log[c.finAt].fin && Wrap(c.log[c.finAt].sequence + 1) == c.snd.nxt)
    && ((c.state == FinWait2 || c.state == TimeWait) && NoWrap(c) ==> c.snd.una == c.snd.nxt)
    && (AfterPeerFin(c.state) ==> c.peerFin)
  }

  ghost predicate Inv(c: Conn) {
    && TraceOk(c.trace, c.state, c.marks.astray) && SockOk(c)
    && StreamOk(c) && SequenceOk(c) && FinOk(c) && OrderOk(c)
  }

  lemma ToTrace(c: Conn, s: ConnState)
    requires TraceOk(c.trace, c.state, c.marks.astray)
    ensures RfcEdge(c.state, s) || s == Closed ==> TraceOk(c.trace + [s], s, c.marks.astray)
  {
    TraceGrows(c, s);
  }

  lemma StrayTrace(c: Conn)
    requires TraceOk(c.trace, c.state, c.marks.astray) && c.state == SynSent
    ensures TraceOk(c.trace + [Listen], Listen, true)
  {
    TraceGrows(c, Listen);
    assert StrayAt(c.trace + [Listen], |c.trace| - 1);
  }

  /** Appending a state adds one change, from the last state. */
  lemma TraceGrows(c: Conn, s: ConnState)
    requires TraceOk(c.trace, c.state, c.marks.astray)
    ensures var t := c.trace + [s];
            && (forall i :: 0 <= i < |c.trace| - 1 ==>
                  LawfulAt(t, i) == LawfulAt(c.trace, i) && StrayAt(t, i) == StrayAt(c.trace, i))
            && t[|c.trace| - 1] == c.state
            && (HasStray(t) <==> HasStray(c.trace) || (c.state == SynSent && s == Listen))
  {
    var t := c.trace + [s];
    if HasStray(c.trace) {
      var i :| 0 <= i < |c.trace| - 1 && StrayAt(c.trace, i);
      assert StrayAt(t, i);
    }
    if c.state == SynSent && s == Listen {
      assert StrayAt(t, |c.trace| - 1);
    }
    if HasStray(t) {
      var i :| 0 <= i < |t| - 1 && StrayAt(t, i);
      assert i < |c.trace| - 1 ==> StrayAt(c.trace, i);
    }
  }

  lemma NewInv()
    ensures Inv(NewConn()) && !NewConn().marks.astray && NewConn().marks.orderly
  {
  }

  lemma AbortInv(c: Conn)
    requires Inv(c)
    ensures Inv(Abort(c)) && Inv(GiveUp(c))
  {
    ToTrace(c, Closed);
  }

  lemma LogInv(c: Conn, d: Conn)
    requires Inv(c) && c.log <= d.log && d == c.(log := d.log)
    ensures Inv(d)
  {
    hide TraceOk, Wrap;
  }

  lemma AcceptInv(s: Segment, isn: Seq32)
    requires GoodSegment(s) && IsSeq(isn)
    ensures Inv(Accept(s, isn)) && Accept(s, isn).trace == [Listen, SynRecv]
    ensures !Accept(s, isn).marks.astray && Accept(s, isn).marks.orderly
  {
  }

  /** What an arriving reset does: an acceptable one ends the connection, any other nothing, and none is answered. */
  lemma ResetExact(c: Conn, s: Segment)
    requires s.rst && Connected(c.state) && c.state != SynSent && GoodSegment(s)
    ensures var d := Arrive(c, s);
            && d.log == c.log
            && if Acceptable(c, s) then d.state == Closed && d.freed && d.accepted == c.accepted else d == c
  {
  }

  /** While a connection is opened, only a reset that acknowledges the SYN ends it. */
  lemma ResetOpening(c: Conn, s: Segment)
    requires s.rst && c.state == SynSent && c.snd.una == c.snd.iss && GoodSegment(s)
    ensures var d := Arrive(c, s);
            && (d.freed && !c.freed <==> !c.freed && s.ack && c.snd.iss < s.acknumber <= c.snd.nxt)
            && (d.freed != c.freed ==> d.state == Closed && d.log == c.log)
  {
  }

  /**
    What a segment gets as an answer in the synchronized states. One outside the window gets the number expected; a
    SYN inside it gets a reset, and ends the connection; one without an acknowledgment, or one that acknowledges what
    was never sent, brings nothing.
   */
  lemma StrayAnswers(c: Conn, s: Segment)
    requires Synchronized(c.state) && GoodSegment(s) && !s.rst
    ensures !Acceptable(c, s) ==>
              Arrive(c, s) == c.(log := c.log + [Out(c.snd.nxt, c.rcvnxt, false, true, false, false, [])])
    ensures Acceptable(c, s) && s.syn ==>
              var d := Arrive(c, s);
              && d.state == Closed && d.freed && d.accepted == c.accepted
              && d.log == c.log + [Out(c.snd.nxt, c.rcvnxt, false, false, false, true, [])]
    ensures Acceptable(c, s) && !s.syn && !s.ack ==> Arrive(c, s) == c
    ensures Acceptable(c, s) && !s.syn && s.ack && s.acknumber > c.snd.nxt && c.state != SynRecv
            && c.state != LastAck && c.state != TimeWait ==>
              Arrive(c, s) == c.(log := c.log + [Out(c.snd.nxt, c.rcvnxt, false, true, false, false, [])])
  {
  }

  /**
    While a connection is opened, a segment without a reset opens it if it is a SYN that acknowledges ours. Any other
    that acknowledges something is answered by a reset that begins there; one that does not is passed over.
   */
  lemma OpeningAnswers(c: Conn, s: Segment)
    requires c.state == SynSent && c.snd.una == c.snd.iss && GoodSegment(s) && !s.rst
    ensures var opens := s.syn && s.ack && c.snd.iss < s.acknumber <= c.snd.nxt;
            && (opens <==> Arrive(c, s).state != SynSent)
            && (opens ==> Arrive(c, s).state == Established)
            && (!opens && s.ack ==>
                  Arrive(c, s) == c.(log := c.log + [Out(s.acknumber, 0, false, false, false, true, [])]))
            && (!s.ack ==> Arrive(c, s) == c)
  {
    hide Wrap;
  }

  /** Once our FIN went out, a plain acknowledgment moves the connection on just if it is that of the FIN. */
  lemma OurFinAcked(c: Conn, s: Segment)
    requires AfterOurFin(c.state) && GoodSegment(s) && Acceptable(c, s)
    requires s.ack && !s.syn && !s.rst && !s.fin && s.data == []
    ensures var d, acked := Arrive(c, s), s.acknumber == c.snd.nxt;
            && d.state == (match c.state
                           case FinWait1 => if acked then FinWait2 else FinWait1
                           case Closing => if acked then TimeWait else Closing
                           case LastAck => if acked then Closed else LastAck
                           case _ => c.state)
            && d.freed == (c.freed || (c.state == LastAck && acked))
            && d.accepted == c.accepted && d.rcvnxt == c.rcvnxt && (c.state == TimeWait ==> d == c)
  {
    hide Acceptable;
  }

  /** In TIME-WAIT a FIN is acknowledged once more. */
  lemma FinAgain(c: Conn, s: Segment)
    requires c.state == TimeWait && GoodSegment(s) && Acceptable(c, s) && s.ack && !s.syn && !s.rst && s.fin
    ensures var d, next := Arrive(c, s), Wrap(s.sequence + 1);
            && d.state == TimeWait && d.accepted == c.accepted
            && d.log == c.log + [Out(c.snd.nxt, next, false, true, false, false, [])]
  {
    hide Acceptable, Wrap;
  }

  lemma OnAckOpenKeeps(c: Conn, s: Segment)
    requires Synchronized(c.state)
    ensures var d := OnAckOpen(c, s).conn;
            && d.accepted == c.accepted && d.stream == c.stream && d.rcvnxt == c.rcvnxt && d.rcvwnd == c.rcvwnd
            && d.peerFin == c.peerFin && Synchronized(d.state) && d.freed == c.freed
            && (d.state != c.state ==> (c.state == FinWait1 && d.state == FinWait2) || c.state == Closing)
  {
  }

  /** The acknowledgment stage leaves what came in alone, and ends the connection only by freeing it. */
  lemma OnAckKeeps(c: Conn, s: Segment)
    requires Synchronized(c.state)
    ensures var d := OnAck(c, s).conn;
            && d.accepted == c.accepted && d.stream == c.stream && d.rcvnxt == c.rcvnxt && d.rcvwnd == c.rcvwnd
            && d.peerFin == c.peerFin && (d.state == Closed || Synchronized(d.state))
            && (!c.freed ==> (d.freed <==> d.state == Closed))
            && (TakesData(c.state) ==> TakesData(d.state) && (d.state != c.state ==> d.state == FinWait2))
  {
    hide OnAckOpen;
    OnAckOpenKeeps(if c.state == SynRecv then Opened(c) else c, s);
  }

  /** Of a segment whose data does not fit the buffer nothing is taken, and not its FIN. */
  lemma DoesNotFit(c: Conn, s: Segment)
    requires TakesData(c.state) && GoodSegment(s) && !s.rst && !s.syn
    requires |s.data| > 0 && |c.stream| + |s.data| > BUFFER_SIZE
    ensures var d := Arrive(c, s);
            && d.accepted == c.accepted && d.stream == c.stream && d.rcvnxt == c.rcvnxt && d.rcvwnd == c.rcvwnd
            && d.peerFin == c.peerFin && TakesData(d.state) && (d.state != c.state ==> d.state == FinWait2)
  {
    hide Acceptable, Wrap, OnAck, OnFin;
    OnAckKeeps(c, s);
  }

  /** Where a connection can be when the acknowledgment of a segment was dealt with. */
  predicate PastAck(c: Conn) {
    Synchronized(c.state) && c.state != SynRecv && c.state != LastAck && !c.freed
  }

  /** The connection stays in order unless data was accepted out of order; it does not go astray. */
  predicate MarksStep(c: Conn, d: Conn, s: Segment) {
    && d.marks.astray == c.marks.astray
    && d.marks.orderly == (c.marks.orderly && (d.accepted != c.accepted ==> s.sequence == c.rcvnxt))
  }

  /** A synchronized connection that moves on leaves socket state and order as they are. */
  lemma SideKept(c: Conn, d: Conn)
    requires SockOk(c) && OrderOk(c) && Synchronized(c.state)
    requires d.sock == c.sock && d.marks == c.marks && d.accepted == c.accepted && c.trace <= d.trace
    requires d.state == Closed || Synchronized(d.state)
    requires d.state == SynRecv ==> c.state == SynRecv
    requires MayTakeData(d.state) ==> MayTakeData(c.state) && d.rcvnxt == c.rcvnxt
    ensures SockOk(d) && OrderOk(d)
  {
    hide InOrder, Wrap;
  }

  /** SYN-SENT leads to ESTABLISHED or CLOSED; the fall-back to SYN-RCVD is never taken. */
  lemma SynSentInv(c: Conn, s: Segment)
    requires Inv(c) && c.state == SynSent && GoodSegment(s)
    ensures Inv(OnSynSent(c, s))
    ensures OnSynSent(c, s).state == SynSent || OnSynSent(c, s).state == Established || OnSynSent(c, s).freed
  {
    hide Inv, Wrap, Opened;
    var d := OnSynSent(c, s);
    AbortInv(c);
    SynSentNumbers(c);
    if c.log <= d.log && d == c.(log := d.log) {
      LogInv(c, d);
    } else if s.syn && s.ack && !s.rst {
      SynSentOpens(c, s);
    }
  }

  lemma SynSentNumbers(c: Conn)
    requires Inv(c) && c.state == SynSent
    ensures c.snd.una == c.snd.iss
  {
  }

  lemma SynSentOpens(c: Conn, s: Segment)
    requires Inv(c) && c.state == SynSent && GoodSegment(s) && s.syn && s.ack && !s.rst
    requires c.snd.una == c.snd.iss < s.acknumber <= c.snd.nxt
    ensures Inv(OnSynSent(c, s)) && OnSynSent(c, s).state == Established
  {
    hide TraceOk, Wrap, OnSynSent;
    ToTrace(c, Established);
    SynSentResult(c, s);
    WrapSeq(s.sequence + 1);
    var d := OnSynSent(c, s);
    assert StreamOk(d) && SequenceOk(d);
    assert FinOk(d) && SockOk(d) && OrderOk(d);
  }

  lemma WrapSeq(x: int)
    ensures IsSeq(Wrap(x)) && Wrap(Wrap(x)) == Wrap(x)
  {
  }

  lemma SynSentResult(c: Conn, s: Segment)
    requires c.state == SynSent && s.syn && s.ack && !s.rst
    requires c.snd.una == c.snd.iss < s.acknumber <= c.snd.nxt
    ensures var next := Wrap(s.sequence + 1);
            var d := c.(state := Established, trace := c.trace + [Established], rcvnxt := next,
                        sock := c.sock.(state := IsConnected), marks := c.marks.(first := next));
            OnSynSent(c, s) == d.(
              log := c.log + [Out(c.snd.nxt, next, false, true, false, false, [])],
              snd := SendVars(s.acknumber, c.snd.nxt, s.sequence, s.acknumber, c.snd.iss, s.win))
  {
    hide Wrap;
  }

  lemma OnFinAckedInv(c: Conn, s: Segment)
    requires Inv(c) && PastAck(c)
    requires NoWrap(c) && s.acknumber == c.snd.nxt ==> c.snd.una == c.snd.nxt
    ensures Inv(OnFinAcked(c, s)) && PastAck(OnFinAcked(c, s))
    ensures OnFinAcked(c, s).state == FinWait1 ==> s.acknumber != c.snd.nxt
  {
    hide TraceOk, Wrap, SockOk, OrderOk;
    ToTrace(c, FinWait2);
    ToTrace(c, TimeWait);
    SideKept(c, OnFinAcked(c, s));
  }

  /** After the peer's acknowledgment: FIN-WAIT-1 is left as soon as our FIN is covered. */
  lemma OnAckInv(c: Conn, s: Segment)
    requires Inv(c) && Synchronized(c.state) && !c.freed && GoodSegment(s)
    ensures Inv(OnAck(c, s).conn)
    ensures var a := OnAck(c, s);
            && a.conn.stream == c.stream && a.conn.accepted == c.accepted && a.conn.delivered == c.delivered
            && a.conn.marks == c.marks && a.conn.rcvnxt == c.rcvnxt && a.conn.rcvwnd == c.rcvwnd
            && a.conn.snd.nxt == c.snd.nxt
            && (!a.drop ==> PastAck(a.conn) && a.conn.log == c.log)
            && (!a.drop && a.conn.state == FinWait1 ==> s.acknumber != a.conn.snd.nxt)
  {
    hide OnAckOpen, To, Inv, Abort;
    if c.state == SynRecv {
      OpenInv(c);
      if c.snd.una <= s.acknumber <= c.snd.nxt {
        OnAckOpenInv(Opened(c), s);
      } else {
        LogInv(c, Refuse(c, if s.ack then 0x100_0000 else 0));
      }
    } else if c.state == LastAck {
      AbortInv(c);
      AbortKeeps(c);
    } else if c.state != TimeWait {
      OnAckOpenInv(c, s);
    }
  }

  lemma OpenInv(c: Conn)
    requires Inv(c) && c.state == SynRecv
    ensures Inv(Opened(c)) && PastAck(Opened(c).(freed := false)) && Opened(c).freed == c.freed
    ensures var d := c.(state := Established, trace := c.trace + [Established]);
            Opened(c) == d.(sock := c.sock.(state := IsConnected))
  {
    hide TraceOk, Wrap, SequenceOk, FinOk, StreamOk;
    ToTrace(c, Established);
    OpenNumbers(c, Opened(c));
  }

  lemma OpenNumbers(c: Conn, d: Conn)
    requires SequenceOk(c) && FinOk(c) && StreamOk(c) && c.state == SynRecv && d.state == Established
    requires d == c.(state := d.state, trace := d.trace, sock := d.sock)
    ensures SequenceOk(d) && FinOk(d) && StreamOk(d)
  {
    hide Wrap;
  }

  lemma AbortKeeps(c: Conn)
    ensures Abort(c) == c.(state := Closed, trace := c.trace + [Closed], freed := true)
  {
  }

  lemma OnAckOpenInv(c: Conn, s: Segment)
    requires Inv(c) && PastAck(c) && c.state != TimeWait && GoodSegment(s)
    ensures Inv(OnAckOpen(c, s).conn)
    ensures var a := OnAckOpen(c, s);
            && a.conn.stream == c.stream && a.conn.accepted == c.accepted && a.conn.delivered == c.delivered
            && a.conn.marks == c.marks && a.conn.rcvnxt == c.rcvnxt && a.conn.rcvwnd == c.rcvwnd
            && a.conn.snd.nxt == c.snd.nxt
            && (!a.drop ==> PastAck(a.conn) && a.conn.log == c.log)
            && (!a.drop && a.conn.state == FinWait1 ==> s.acknumber != a.conn.snd.nxt)
  {
    hide Inv, OnFinAcked, Wrap;
    if c.snd.una < s.acknumber <= c.snd.nxt {
      var v := c.snd.(una := s.acknumber);
      var newer := v.wl1 < s.sequence || (v.wl1 == s.sequence && v.wl2 <= s.acknumber);
      var w := if newer then v.(wnd := s.win, wl1 := s.sequence, wl2 := s.acknumber) else v;
      AckedInv(c, w);
      OnFinAckedInv(c.(snd := w), s);
      OnFinAckedKeeps(c.(snd := w), s);
    } else if s.acknumber > c.snd.nxt {
      LogInv(c, Ack(c));
    } else {
      PastAckNumbers(c, s);
      OnFinAckedInv(c, s);
      OnFinAckedKeeps(c, s);
    }
  }

  lemma OnFinAckedKeeps(c: Conn, s: Segment)
    ensures var d := OnFinAcked(c, s);
            d == c.(state := d.state, trace := d.trace)
  {
  }

  lemma PastAckNumbers(c: Conn, s: Segment)
    requires Inv(c) && PastAck(c) && s.acknumber <= c.snd.una
    ensures NoWrap(c) && s.acknumber == c.snd.nxt ==> c.snd.una == c.snd.nxt
  {
  }

  /** A new acknowledgment, and maybe a new window. */
  lemma AckedInv(c: Conn, w: SendVars)
    requires Inv(c) && PastAck(c) && c.state != TimeWait
    requires IsSeq(w.una) && (IsSeq(w.wnd) || w.wnd == c.snd.wnd) && w.nxt == c.snd.nxt && w.iss == c.snd.iss
    requires c.snd.una < w.una <= c.snd.nxt
    ensures Inv(c.(snd := w))
  {
    hide TraceOk, Wrap, SockOk, OrderOk;
    SideKept(c, c.(snd := w));
  }

  lemma FinKept(c: Conn, d: Conn)
    requires FinOk(c) && d.state == c.state && d.snd == c.snd && d.sent == c.sent
    requires d.finAt == c.finAt && d.peerFin == c.peerFin && c.log <= d.log
    ensures FinOk(d)
  {
    hide Wrap;
  }

  /** After the data stage, with the next number as it would be without a FIN. */
  function BeforeFin(c: Conn, s: Segment): Conn {
    var d := OnData(c, s).conn;
    if d == c then c else d.(rcvnxt := Wrap(s.sequence + |s.data|))
  }

  /** Taking data keeps window and buffer in balance; a segment that does not fit changes nothing. */
  lemma OnDataInv(c: Conn, s: Segment)
    requires Inv(c) && Synchronized(c.state) && GoodSegment(s) && !s.syn
    ensures Inv(BeforeFin(c, s)) && (!s.fin ==> BeforeFin(c, s) == OnData(c, s).conn)
    ensures var d := OnData(c, s);
            && d.conn.state == c.state && d.conn.freed == c.freed && d.conn.snd == c.snd
            && (d.drop ==> d.conn == c)
            && (d.conn.accepted == c.accepted
                || (d.conn.accepted == c.accepted + s.data && |c.stream| + |s.data| <= BUFFER_SIZE))
            && MarksStep(c, d.conn, s)
  {
    hide TraceOk, FinOk, OrderOk, Wrap, Numbers;
    var d := BeforeFin(c, s);
    if d != c {
      assert (c.delivered + c.stream) + s.data == c.delivered + (c.stream + s.data);
      assert StreamOk(d) && SequenceOk(d);
      assert FinOk(d) by { FinKept(c, d); }
      OnDataOrder(c, s);
      assert SockOk(d);
    }
  }

  /** New bytes keep the places consecutive exactly when they begin at the number expected. */
  lemma OnDataOrder(c: Conn, s: Segment)
    requires OrderOk(c) && SockOk(c) && GoodSegment(s) && IsSeq(c.rcvnxt)
    requires TakesData(c.state) && |s.data| > 0 && |c.stream| + |s.data| <= BUFFER_SIZE
    ensures OrderOk(BeforeFin(c, s))
  {
    hide Wrap;
    var d := BeforeFin(c, s);
    var before, more := c.marks.places, Numbers(s.sequence, |s.data|);
    assert d.marks.places == before + more && d.marks.first == c.marks.first;
    assert d.accepted == c.accepted + s.data;
    if c.marks.orderly && s.sequence == c.rcvnxt {
      PlacesGrow(before, more, c.marks.first, s.sequence);
    } else if c.marks.orderly {
      assert (before + more)[|before|] == Wrap(s.sequence);
      WrapSmall(s.sequence);
    } else {
      var i :| 0 <= i < |before| && before[i] != Wrap(c.marks.first + i);
      assert (before + more)[i] == before[i];
    }
  }

  lemma PlacesGrow(before: seq<Seq32>, more: seq<Seq32>, first: Seq32, sequence: Seq32)
    requires InOrder(before, first) && sequence == Wrap(first + |before|) && more == Numbers(sequence, |more|)
    ensures InOrder(before + more, first) && Wrap(sequence + |more|) == Wrap(first + |before + more|)
  {
    hide Wrap;
    WrapAgain(first + |before|, |more|);
    forall i | 0 <= i < |before + more| ensures (before + more)[i] == Wrap(first + i) {
      if i >= |before| {
        WrapAgain(first + |before|, i - |before|);
      }
    }
  }

  lemma WrapSmall(x: int)
    requires IsSeq(x)
    ensures Wrap(x) == x
  {
  }

  lemma OnFinInv(c: Conn, s: Segment)
    requires Inv(c) && PastAck(c) && GoodSegment(s)
    requires c.state == FinWait1 ==> s.acknumber != c.snd.nxt
    ensures Inv(OnFin(c, s)) && AfterPeerFin(OnFin(c, s).state) && OnFin(c, s).accepted == c.accepted
    ensures OnFin(c, s).marks == c.marks
  {
    hide Inv, Wrap;
    var t := match c.state
      case Established => CloseWait
      case FinWait1 => Closing
      case FinWait2 => TimeWait
      case _ => c.state;
    FinMoves(c, t, Wrap(s.sequence + 1));
    WrapSeq(s.sequence + 1);
    var d := (if t == c.state then c else To(c, t)).(peerFin := true, rcvnxt := Wrap(s.sequence + 1));
    LogInv(d, Ack(d));
  }

  lemma FinMoves(c: Conn, t: ConnState, next: Seq32)
    requires Inv(c) && PastAck(c) && IsSeq(next)
    requires match c.state
      case Established => t == CloseWait
      case FinWait1 => t == Closing
      case FinWait2 => t == TimeWait
      case _ => t == c.state
    ensures Inv((if t == c.state then c else To(c, t)).(peerFin := true, rcvnxt := next))
  {
    hide TraceOk, Wrap, SockOk, OrderOk;
    ToTrace(c, t);
    SideKept(c, (if t == c.state then c else To(c, t)).(peerFin := true, rcvnxt := next));
  }

  /** A FIN sets the number expected, whatever it was before. */
  lemma OnFinForgets(c: Conn, s: Segment, next: Seq32)
    ensures OnFin(c.(rcvnxt := next), s) == OnFin(c, s)
  {
    hide Wrap, To, Ack;
    var d := c.(rcvnxt := next);
    forall t: ConnState ensures To(d, t) == To(c, t).(rcvnxt := next) {
      ToForgets(c, next, t);
    }
  }

  lemma ToForgets(c: Conn, next: Seq32, t: ConnState)
    ensures To(c.(rcvnxt := next), t) == To(c, t).(rcvnxt := next)
  {
  }

  lemma WrapApart(x: int, n: nat)
    requires 0 <= x <= MODULUS && 0 < n < MODULUS
    ensures Wrap(x) != Wrap(x + n)
  {
  }

  lemma EventstateInv(c: Conn)
    requires Inv(c)
    ensures Inv(c.(eventstate := Reset))
  {
    hide TraceOk, Wrap;
  }

  lemma OnSegmentInv(c: Conn, s: Segment)
    requires Inv(c) && Synchronized(c.state) && !c.freed && GoodSegment(s)
    ensures Inv(OnSegment(c, s))
    ensures OnSegment(c, s).accepted == c.accepted
            || (OnSegment(c, s).accepted == c.accepted + s.data && |c.stream| + |s.data| <= BUFFER_SIZE
                && Acceptable(c, s))
    ensures MarksStep(c, OnSegment(c, s), s)
  {
    hide Inv, Wrap, OnAck, OnData, OnFin, Acceptable;
    if !Acceptable(c, s) {
      LogInv(c, Ack(c));
    } else if s.rst {
      EventstateInv(c);
      AbortInv(if c.state == SynRecv then c else c.(eventstate := Reset));
    } else if s.syn {
      var d := Send(c, false, false, false, true, []);
      LogInv(c, d);
      EventstateInv(d);
      AbortInv(d.(eventstate := Reset));
    } else if s.ack {
      OnAckInv(c, s);
      var a := OnAck(c, s);
      if !a.drop {
        OnDataInv(a.conn, s);
        var d := OnData(a.conn, s);
        if !d.drop && s.fin {
          OnFinInv(BeforeFin(a.conn, s), s);
          OnFinForgets(d.conn, s, BeforeFin(a.conn, s).rcvnxt);
        }
      }
    }
  }

  /** The segment gets as far as its FIN. */
  predicate TakesFin(c: Conn, s: Segment) {
    && Acceptable(c, s) && !s.rst && !s.syn && s.ack && s.fin
    && var a := OnAck(c, s);
       !a.drop && !OnData(a.conn, s).drop
  }

  function AckOf(c: Conn, next: Seq32): Out {
    Out(c.snd.nxt, next, false, true, false, false, [])
  }

  /**
    After a FIN the number expected is the one after the segment's first, which is right exactly when no data
    was accepted with the FIN. With data, data and FIN are acknowledged first, and then the shorter number.
   */
  lemma FinExpected(c: Conn, s: Segment)
    requires Inv(c) && Synchronized(c.state) && !c.freed && GoodSegment(s) && TakesFin(c, s)
    ensures var d := OnSegment(c, s);
            && d.peerFin && AfterPeerFin(d.state) && d.rcvnxt == Wrap(s.sequence + 1)
            && (d.accepted == c.accepted || d.accepted == c.accepted + s.data)
            && (d.rcvnxt == Wrap(s.sequence + (|d.accepted| - |c.accepted|) + 1) <==> d.accepted == c.accepted)
            && d.log == c.log + (if d.accepted == c.accepted then [] else [AckOf(c, Wrap(s.sequence + SegLen(s)))])
                        + [AckOf(c, d.rcvnxt)]
  {
    hide Inv, Wrap, OnAck, OnData, OnFin, Acceptable;
    OnAckInv(c, s);
    var a := OnAck(c, s).conn;
    OnDataInv(a, s);
    DataLog(a, s);
    OnFinInv(BeforeFin(a, s), s);
    var d := OnData(a, s).conn;
    OnFinForgets(d, s, BeforeFin(a, s).rcvnxt);
    FinLog(d, s);
    if d.accepted != c.accepted {
      assert 0 < |s.data| <= BUFFER_SIZE;
      WrapApart(s.sequence + 1, |s.data|);
    }
  }

  lemma DataLog(c: Conn, s: Segment)
    ensures var d := OnData(c, s).conn;
            && d.snd == c.snd
            && (if d.accepted == c.accepted then d == c
                else d.log == c.log + [AckOf(c, Wrap(s.sequence + SegLen(s)))] && 0 < |s.data| <= BUFFER_SIZE)
  {
    hide Wrap, Numbers;
    assert |s.data| > 0 ==> |c.accepted + s.data| > |c.accepted|;
  }

  lemma FinLog(c: Conn, s: Segment)
    ensures var d := OnFin(c, s);
            d.rcvnxt == Wrap(s.sequence + 1) && d.log == c.log + [AckOf(c, d.rcvnxt)] && d.peerFin
  {
    hide Wrap;
  }

  /** Every arriving segment keeps the invariant; what it adds to the accepted bytes fits the room left. */
  lemma ArriveInv(c: Conn, s: Segment)
    requires Inv(c) && c.state != Closed && !c.freed && GoodSegment(s)
    ensures Inv(Arrive(c, s))
    ensures Arrive(c, s).accepted == c.accepted
            || (Arrive(c, s).accepted == c.accepted + s.data && |c.stream| + |s.data| <= BUFFER_SIZE)
    ensures MarksStep(c, Arrive(c, s), s)
  {
    hide TraceOk, Wrap, OnSegment, OnSynSent;
    match c.state
    case Listen =>
    case SynSent =>
      SynSentInv(c, s);
      SynSentBytes(c, s);
    case _ =>
      OnSegmentInv(c, s);
  }

  lemma SynSentBytes(c: Conn, s: Segment)
    ensures OnSynSent(c, s).accepted == c.accepted && OnSynSent(c, s).delivered == c.delivered
    ensures OnSynSent(c, s).marks.astray == c.marks.astray && OnSynSent(c, s).marks.orderly == c.marks.orderly
  {
    hide Wrap;
  }

  lemma LawfulExact(c: Conn)
    requires TraceOk(c.trace, c.state, c.marks.astray)
    ensures Lawful(c.trace) <==> !c.marks.astray
  {
    if c.marks.astray {
      StrayUnlawful(c.trace);
    }
  }

  lemma BindInv(c: Conn, addressOk: bool)
    requires Inv(c) && HasDescriptor(c)
    ensures Inv(Bind(c, addressOk))
  {
    hide TraceOk, Wrap;
  }

  /**
    A `listen` that passes the guards finds a closed connection, or one that is just being opened; it is a
    lawful change in the first case and in no other.
   */
  lemma ListenInv(c: Conn)
    requires Inv(c) && HasDescriptor(c)
    ensures Inv(StartListening(c))
    ensures MayListen(c) ==> c.state == Closed || c.state == SynSent
    ensures Lawful(StartListening(c).trace) <==> Lawful(c.trace) && (MayListen(c) ==> c.state == Closed)
  {
    hide TraceOk, Wrap;
    if MayListen(c) {
      if c.state == SynSent {
        StrayTrace(c);
      } else {
        ToTrace(c, Listen);
      }
      LawfulExact(StartListening(c));
    }
    LawfulExact(c);
  }

  /** Every `connect` that passes the guards is a lawful change: it finds the connection closed and unused. */
  lemma ConnectInv(c: Conn, isn: Seq32)
    requires Inv(c) && HasDescriptor(c) && IsSeq(isn)
    ensures Inv(Connect(c, isn))
    ensures MayConnect(c) ==> c.state == Closed && c.stream == [] && RfcEdge(c.state, SynSent)
  {
    hide TraceOk;
    if MayConnect(c) {
      ToTrace(c, SynSent);
    }
  }

  lemma SendFinInv(c: Conn, t: ConnState)
    requires Inv(c) && Synchronized(c.state) && !AfterOurFin(c.state)
    requires (t == FinWait1 && c.state != CloseWait) || (t == LastAck && c.state == CloseWait)
    ensures Inv(To(SendFin(c), t))
  {
    hide TraceOk, Wrap, SockOk, OrderOk;
    WrapAgain(c.snd.iss + c.sent, 1);
    ToTrace(c, t);
    SideKept(c, To(SendFin(c), t));
  }

  lemma CloseInv(c: Conn)
    requires Inv(c)
    ensures Inv(Close(c))
    ensures AfterOurFin(Close(c).state) || Close(c).freed
  {
    hide TraceOk, Wrap, SendFin, Inv, To;
    match c.state
    case Closed => FreedInv(c);
    case Listen | SynSent => AbortInv(c); AbortFreed(c);
    case Established | SynRecv => SendFinInv(c, FinWait1); ToState(SendFin(c), FinWait1);
    case CloseWait => SendFinInv(c, LastAck); ToState(SendFin(c), LastAck);
    case _ =>
  }

  lemma FreedInv(c: Conn)
    requires Inv(c)
    ensures Inv(c.(freed := true))
  {
  }

  lemma AbortFreed(c: Conn)
    ensures Abort(c).freed
  {
  }

  lemma ToState(c: Conn, t: ConnState)
    ensures To(c, t).state == t
  {
  }

  /** Reading returns the oldest unread bytes and gives their room back to the window. */
  lemma ReadInv(c: Conn, count: nat)
    requires Inv(c)
    ensures Inv(Read(c, count))
    ensures Readable(c) ==> Read(c, count).delivered == c.delivered + c.stream[..Min(count, |c.stream|)]
    ensures Read(c, count).accepted == c.accepted
  {
    hide TraceOk, Wrap;
    if Readable(c) {
      var n := Min(count, |c.stream|);
      assert c.delivered + c.stream == (c.delivered + c.stream[..n]) + c.stream[n..];
    }
  }

  lemma WriteOneInv(c: Conn, data: seq<Byte>)
    requires Inv(c) && (c.state == Established || c.state == CloseWait)
    ensures Inv(WriteOne(c, data)) && WriteOne(c, data).state == c.state && WriteOne(c, data).freed == c.freed
  {
    hide TraceOk, Wrap;
    WrapAgain(c.snd.iss + c.sent, |data|);
  }

  /** Writing keeps the invariant, and never puts more in flight than the window allows, if less was before. */
  lemma {:induction false} WriteInv(c: Conn, mss: nat, data: seq<Byte>)
    requires Inv(c) && (c.state == Established || c.state == CloseWait)
    ensures Inv(Write(c, mss, data)) && Write(c, mss, data).state == c.state && Write(c, mss, data).freed == c.freed
    ensures NoWrap(Write(c, mss, data)) && c.snd.nxt - c.snd.una <= c.snd.wnd ==>
              Write(c, mss, data).snd.nxt - Write(c, mss, data).snd.una <= c.snd.wnd
    ensures Write(c, mss, data).sent >= c.sent && Write(c, mss, data).snd.iss == c.snd.iss
    decreases |data|
  {
    hide TraceOk, Inv, StreamOk, FinOk;
    var n := Chunk(c, mss, |data|);
    if data != [] && n != 0 {
      WriteOneInv(c, data[..n]);
      var d := WriteOne(c, data[..n]);
      WriteInv(d, mss, data[n..]);
      assert SequenceOk(c) && SequenceOk(d) by { InvSequence(c); InvSequence(d); }
    }
  }

  /** The bytes a write sends: the room in the peer's window, or everything if that was overrun before. */
  function WriteCount(c: Conn, mss: nat, left: nat): nat {
    if mss == 0 then 0
    else if c.snd.nxt - c.snd.una <= c.snd.wnd then
      if left < c.snd.wnd - (c.snd.nxt - c.snd.una) then left else c.snd.wnd - (c.snd.nxt - c.snd.una)
    else left
  }

  /**
    While numbers do not wrap, a write sends exactly so much; it leaves no more in flight than the window
    allows if and only if there was no more before.
   */
  lemma {:induction false} WriteExact(c: Conn, mss: nat, data: seq<Byte>)
    requires Inv(c) && (c.state == Established || c.state == CloseWait) && c.snd.iss + c.sent + |data| < MODULUS
    ensures var d := Write(c, mss, data);
            && d.sent == c.sent + WriteCount(c, mss, |data|) && d.snd == c.snd.(nxt := d.snd.nxt)
            && d.snd.nxt == c.snd.nxt + WriteCount(c, mss, |data|)
            && (d.snd.nxt - d.snd.una <= d.snd.wnd <==> c.snd.nxt - c.snd.una <= c.snd.wnd)
    decreases |data|
  {
    hide TraceOk, Inv, StreamOk, FinOk, OrderOk, SockOk;
    InvSequence(c);
    WrapSmall(c.snd.nxt - c.snd.una);
    var n := Chunk(c, mss, |data|);
    ChunkIs(c, mss, |data|);
    if data != [] && n != 0 {
      WriteOneInv(c, data[..n]);
      WriteExact(WriteOne(c, data[..n]), mss, data[n..]);
    }
  }

  lemma ChunkIs(c: Conn, mss: nat, left: nat)
    requires SequenceOk(c) && Connected(c.state) && c.snd.iss + c.sent + left < MODULUS
    ensures Chunk(c, mss, left) == Min(mss, WriteCount(c, mss, left))
  {
  }

  /** The bytes that the segments carry, joined. */
  function Payloads(log: seq<Out>): seq<Byte> {
    if log == [] then [] else Payloads(log[..|log| - 1]) + log[|log| - 1].data
  }

  lemma {:induction false} PayloadsJoin(a: seq<Out>, b: seq<Out>)
    ensures Payloads(a + b) == Payloads(a) + Payloads(b)
    decreases |b|
  {
    if b == [] {
      assert a + b == a;
    } else {
      var l := |b| - 1;
      assert (a + b)[..|a + b| - 1] == a + b[..l];
      PayloadsJoin(a, b[..l]);
    }
  }

  /** A segment of plain data, not empty and no longer than `mss`. */
  predicate IsData(o: Out, sequence: Seq32, ack: Seq32, mss: nat) {
    o == Out(sequence, ack, false, true, false, false, o.data) && 0 < |o.data| <= mss
  }

  /** The segments are plain data, each numbered by what came before it, from `nxt` on. */
  ghost predicate Numbered(log: seq<Out>, nxt: Seq32, ack: Seq32, mss: nat) {
    forall i :: 0 <= i < |log| ==> IsData(log[i], Wrap(nxt + |Payloads(log[..i])|), ack, mss)
  }

  lemma NumberedFirst(first: Out, rest: seq<Out>, nxt: Seq32, ack: Seq32, mss: nat)
    requires IsSeq(nxt) && IsData(first, nxt, ack, mss) && Numbered(rest, Wrap(nxt + |first.data|), ack, mss)
    ensures Numbered([first] + rest, nxt, ack, mss) && Payloads([first] + rest) == first.data + Payloads(rest)
  {
    hide Wrap, IsData, Payloads;
    var log := [first] + rest;
    FirstPayload(first, rest);
    forall i | 0 <= i < |log| ensures IsData(log[i], Wrap(nxt + |Payloads(log[..i])|), ack, mss) {
      if i == 0 {
        NoPayload(log[..0]);
      } else {
        var part := rest[..i - 1];
        assert log[i] == rest[i - 1] && log[..i] == [first] + part;
        FirstPayload(first, part);
        WrapAgain(nxt + |first.data|, |Payloads(part)|);
      }
    }
  }

  lemma NoPayload(log: seq<Out>)
    requires |log| == 0
    ensures Payloads(log) == []
  {
  }

  lemma FirstPayload(first: Out, rest: seq<Out>)
    ensures Payloads([first] + rest) == first.data + Payloads(rest)
  {
    PayloadsJoin([first], rest);
    assert [first][..0] == [];
  }

  /** The segments that a write appends to the log. */
  lemma {:induction false} WriteSegments(c: Conn, mss: nat, data: seq<Byte>) returns (segments: seq<Out>)
    requires IsSeq(c.snd.nxt)
    ensures var d := Write(c, mss, data);
            && d.log == c.log + segments && c.sent <= d.sent <= c.sent + |data|
            && Payloads(segments) == data[..d.sent - c.sent] && Numbered(segments, c.snd.nxt, c.rcvnxt, mss)
            && d == c.(log := d.log, sent := d.sent, snd := c.snd.(nxt := d.snd.nxt))
            && d.snd.nxt == Wrap(c.snd.nxt + (d.sent - c.sent))
    decreases |data|
  {
    hide Wrap, Chunk, Numbered, Payloads, IsData;
    var n := Chunk(c, mss, |data|);
    ChunkFits(c, mss, |data|);
    if data == [] || n == 0 {
      segments := [];
      NoNumbers(c.snd.nxt, c.rcvnxt, mss);
    } else {
      var b := WriteOne(c, data[..n]);
      var rest := WriteSegments(b, mss, data[n..]);
      var first := FirstSegment(c, data[..n], mss);
      segments := [first] + rest;
      NumberedFirst(first, rest, c.snd.nxt, c.rcvnxt, mss);
      WriteJoin(c, b, Write(b, mss, data[n..]), data, n);
    }
  }

  lemma NoNumbers(nxt: Seq32, ack: Seq32, mss: nat)
    ensures Numbered([], nxt, ack, mss) && Payloads([]) == []
  {
  }

  lemma FirstSegment(c: Conn, data: seq<Byte>, mss: nat) returns (first: Out)
    requires 0 < |data| <= mss
    ensures IsData(first, c.snd.nxt, c.rcvnxt, mss) && first.data == data
    ensures WriteOne(c, data).log == c.log + [first]
  {
    hide Wrap;
    first := Out(c.snd.nxt, c.rcvnxt, false, true, false, false, data);
  }

  lemma WriteJoin(c: Conn, b: Conn, d: Conn, data: seq<Byte>, n: nat)
    requires n <= |data| && b.sent == c.sent + n && b.sent <= d.sent <= b.sent + |data| - n
    requires b.snd.nxt == Wrap(c.snd.nxt + n) && d.snd.nxt == Wrap(b.snd.nxt + (d.sent - b.sent))
    ensures data[..d.sent - c.sent] == data[..n] + data[n..][..d.sent - b.sent]
    ensures d.snd.nxt == Wrap(c.snd.nxt + (d.sent - c.sent))
  {
    hide Wrap;
    WrapAgain(c.snd.nxt + n, d.sent - b.sent);
    FirstBytes(data, n, d.sent - c.sent);
  }

  lemma FirstBytes(data: seq<Byte>, n: nat, k: nat)
    requires n <= k <= |data|
    ensures data[..k] == data[..n] + data[n..][..k - n]
  {
    assert data[..k][..n] == data[..n] && data[..k][n..] == data[n..][..k - n];
  }

  /** A write puts the first bytes of its buffer on the wire, as many as it counts as sent, in order and numbered. */
  lemma WriteBytes(c: Conn, mss: nat, data: seq<Byte>)
    requires IsSeq(c.snd.nxt)
    ensures var d := Write(c, mss, data);
            && c.log <= d.log && c.sent <= d.sent <= c.sent + |data|
            && Payloads(d.log[|c.log|..]) == data[..d.sent - c.sent]
            && Numbered(d.log[|c.log|..], c.snd.nxt, c.rcvnxt, mss)
            && d == c.(log := d.log, sent := d.sent, snd := c.snd.(nxt := d.snd.nxt))
            && d.snd.nxt == Wrap(c.snd.nxt + (d.sent - c.sent))
  {
    hide Write, Numbered, Payloads, Wrap;
    var segments := WriteSegments(c, mss, data);
    assert (c.log + segments)[|c.log|..] == segments;
  }

  lemma {:induction false} WriteMarks(c: Conn, mss: nat, data: seq<Byte>)
    ensures Write(c, mss, data).marks.astray == c.marks.astray && Write(c, mss, data).marks.orderly == c.marks.orderly
    decreases |data|
  {
    hide Wrap, Chunk;
    var n := Chunk(c, mss, |data|);
    if data != [] && n != 0 {
      ChunkFits(c, mss, |data|);
      WriteMarks(WriteOne(c, data[..n]), mss, data[n..]);
    }
  }

  lemma ChunkFits(c: Conn, mss: nat, left: nat)
    ensures Chunk(c, mss, left) <= left && Chunk(c, mss, left) <= mss
  {
  }

  lemma InvSequence(c: Conn)
    requires Inv(c)
    ensures SequenceOk(c)
  {
  }

  // ----- whole runs

  datatype Event = Arrives(s: Segment) | Binds(addressOk: bool) | Listens | Connects(isn: Seq32) | ConnectFails
                 | Closes | Reads(count: nat) | Writes(mss: nat, data: seq<Byte>) | WaitEnds | GivesUp

  /** When an event can happen. What a call does then is decided by its own guards. */
  predicate Enabled(c: Conn, e: Event) {
    && !c.freed
    && match e
       case Arrives(s) => c.state != Closed && GoodSegment(s)
       case Connects(isn) => HasDescriptor(c) && IsSeq(isn)
       case ConnectFails => !c.sock.hasParent && c.state != Established && c.state != SynRecv
       case WaitEnds => c.state == TimeWait
       case GivesUp => c.state != Closed
       case _ => HasDescriptor(c)
  }

  function Apply(c: Conn, e: Event): Conn {
    match e
    case Arrives(s) => Arrive(c, s)
    case Binds(addressOk) => Bind(c, addressOk)
    case Listens => StartListening(c)
    case Connects(isn) => Connect(c, isn)
    case ConnectFails => Abort(c)
    case Closes => Close(c)
    case Reads(count) => Read(c, count)
    case Writes(mss, data) => if Writable(c) then Write(c, mss, data) else c
    case WaitEnds => Abort(c)
    case GivesUp => GiveUp(c)
  }

  lemma ArriveFrees(c: Conn, s: Segment)
    requires !c.freed && c.state != Closed
    ensures Arrive(c, s).freed <==> Arrive(c, s).state == Closed
  {
    hide Wrap, Acceptable, OnAck;
    if Synchronized(c.state) {
      OnAckKeeps(c, s);
      SegmentFrees(c, s);
    }
  }

  lemma SegmentFrees(c: Conn, s: Segment)
    requires !c.freed && Synchronized(c.state)
    ensures OnSegment(c, s).freed <==> OnSegment(c, s).state == Closed
  {
    hide Wrap, Acceptable, OnAck, Numbers;
    OnAckKeeps(c, s);
  }

  lemma {:induction false} WriteFrees(c: Conn, mss: nat, data: seq<Byte>)
    ensures Write(c, mss, data).freed == c.freed && Write(c, mss, data).state == c.state
    decreases |data|
  {
    hide Wrap;
    var n := Chunk(c, mss, |data|);
    if data != [] && n != 0 {
      WriteFrees(WriteOne(c, data[..n]), mss, data[n..]);
    }
  }

  /** A connection that comes to its end frees its socket, unless it was given up; and nothing else frees it. */
  lemma EndFrees(c: Conn, e: Event)
    requires Enabled(c, e)
    ensures var d := Apply(c, e);
            && (d.freed ==> d.state == Closed && !e.GivesUp?)
            && (d.state == Closed && c.state != Closed && !e.GivesUp? ==> d.freed)
  {
    hide Wrap, Arrive, Write;
    if e.Arrives? {
      ArriveFrees(c, e.s);
    } else if e.Writes? {
      WriteFrees(c, e.mss, e.data);
    }
  }

  lemma ApplyInv(c: Conn, e: Event)
    requires Inv(c) && Enabled(c, e)
    ensures Inv(Apply(c, e))
  {
    hide Inv, Arrive, Bind, Connect, Close, Read, Write, Abort, GiveUp, StartListening;
    match e
    case Arrives(s) => ArriveInv(c, s);
    case Binds(addressOk) => BindInv(c, addressOk);
    case Listens => ListenInv(c);
    case Connects(isn) => ConnectInv(c, isn);
    case Closes => CloseInv(c);
    case Reads(count) => ReadInv(c, count);
    case Writes(mss, data) => if Writable(c) { WriteInv(c, mss, data); }
    case _ => AbortInv(c);
  }

  ghost predicate CanRun(c: Conn, es: seq<Event>)
    decreases |es|
  {
    es == [] || (Enabled(c, es[0]) && CanRun(Apply(c, es[0]), es[1..]))
  }

  function Run(c: Conn, es: seq<Event>): Conn
    decreases |es|
  {
    if es == [] then c else Run(Apply(c, es[0]), es[1..])
  }

  lemma {:induction false} RunSafe(c: Conn, es: seq<Event>)
    requires Inv(c) && CanRun(c, es)
    ensures Inv(Run(c, es))
    decreases |es|
  {
    hide Inv, Apply, Enabled;
    if es != [] {
      ApplyInv(c, es[0]);
      RunSafe(Apply(c, es[0]), es[1..]);
    }
  }

  /** A connection begins as a new socket, or as the child of a listening one. */
  ghost predicate Start(c: Conn) {
    c == NewConn() || exists s: Segment, isn :: GoodSegment(s) && IsSeq(isn) && c == Accept(s, isn)
  }

  lemma StartInv(c: Conn)
    requires Start(c)
    ensures Inv(c) && !c.marks.astray && c.marks.orderly
  {
    hide Inv, Accept, NewConn;
    if c == NewConn() {
      NewInv();
    } else {
      var s: Segment, isn :| GoodSegment(s) && IsSeq(isn) && c == Accept(s, isn);
      AcceptInv(s, isn);
    }
  }

  /** A `listen` is carried out while a connection is being opened. */
  predicate Strays(c: Conn, e: Event) {
    e.Listens? && MayListen(c) && c.state == SynSent
  }

  /** If data is accepted, its segment begins with the number expected. */
  predicate Expected(c: Conn, e: Event) {
    e.Arrives? && Apply(c, e).accepted != c.accepted ==> e.s.sequence == c.rcvnxt
  }

  predicate RunStrays(c: Conn, es: seq<Event>)
    decreases |es|
  {
    es != [] && (Strays(c, es[0]) || RunStrays(Apply(c, es[0]), es[1..]))
  }

  predicate RunExpected(c: Conn, es: seq<Event>)
    decreases |es|
  {
    es == [] || (Expected(c, es[0]) && RunExpected(Apply(c, es[0]), es[1..]))
  }

  /** Only these two events touch the two marks. */
  lemma ApplyMarks(c: Conn, e: Event)
    requires Inv(c) && Enabled(c, e)
    ensures Apply(c, e).marks.astray == (c.marks.astray || Strays(c, e))
    ensures Apply(c, e).marks.orderly == (c.marks.orderly && Expected(c, e))
  {
    hide Arrive, Write, Wrap, TraceOk, StreamOk, SequenceOk, FinOk;
    match e
    case Arrives(s) => ArriveInv(c, s);
    case Connects(isn) => assert MayConnect(c) ==> c.marks.orderly;
    case Writes(mss, data) => if Writable(c) { WriteMarks(c, mss, data); }
    case _ =>
  }

  lemma {:induction false} RunMarks(c: Conn, es: seq<Event>)
    requires Inv(c) && CanRun(c, es)
    ensures Run(c, es).marks.astray == (c.marks.astray || RunStrays(c, es))
    ensures Run(c, es).marks.orderly == (c.marks.orderly && RunExpected(c, es))
    decreases |es|
  {
    hide Inv, Apply, Enabled, Strays, Expected;
    if es != [] {
      ApplyInv(c, es[0]);
      ApplyMarks(c, es[0]);
      RunMarks(Apply(c, es[0]), es[1..]);
    }
  }

  /**
    In every run, of a new socket or of the child of a listening one: state changes follow the diagram or
    abort if and only if no `listen` is carried out while the connection is being opened; the bytes
    accepted stand at consecutive sequence numbers if and only if every segment they came in began with
    the number expected; FIN-WAIT-2 and TIME-WAIT mean that our FIN was sent and acknowledged; CLOSE-WAIT,
    CLOSING, LAST-ACK and TIME-WAIT mean that the peer's FIN came in; the bytes read so far are the first
    of the bytes accepted, in order; and a socket that listens tried to connect before.
   */
  lemma RunMeaning(start: Conn, es: seq<Event>)
    requires Start(start) && CanRun(start, es)
    ensures var c := Run(start, es);
            && (Lawful(c.trace) <==> !RunStrays(start, es))
            && |c.marks.places| == |c.accepted| && (InOrder(c.marks.places, c.marks.first) <==> RunExpected(start, es))
            && (AfterPeerFin(c.state) ==> c.peerFin)
            && (AfterOurFin(c.state) ==> c.finAt < |c.log| && c.log[c.finAt].fin)
            && ((c.state == FinWait2 || c.state == TimeWait) && NoWrap(c) ==>
                  c.snd.una == c.snd.nxt == Wrap(c.log[c.finAt].sequence + 1))
            && (Connected(c.state) && NoWrap(c) ==> c.snd.iss <= c.snd.una <= c.snd.nxt)
            && (Connected(c.state) ==> c.rcvwnd + |c.stream| == BUFFER_SIZE)
            && c.delivered <= c.accepted
            && (c.state == Listen ==> SynSent in c.trace)
  {
    hide Run, CanRun, RunStrays, RunExpected, Start, TraceOk, Lawful, InOrder;
    StartInv(start);
    RunSafe(start, es);
    RunMarks(start, es);
    LawfulExact(Run(start, es));
  }

  function SynAck(sequence: Seq32, acknumber: Seq32): Segment {
    Segment(sequence, acknumber, 1000, true, true, false, false, [])
  }

  /**
    The system calls let a run go astray: while one thread waits in `connect`, which has given the socket a
    port, another can bind it and make it listen.
   */
  lemma StrayRun()
    ensures var es := [Connects(7), Binds(true), Listens];
            && CanRun(NewConn(), es) && Run(NewConn(), es).trace == [Closed, SynSent, Listen]
            && !Lawful(Run(NewConn(), es).trace)
  {
    var c0 := NewConn();
    var c1 := Apply(c0, Connects(7));
    var c2 := Apply(c1, Binds(true));
    var c3 := Apply(c2, Listens);
    assert c3.trace == [Closed, SynSent, Listen];
    RunThree(c0, Connects(7), Binds(true), Listens);
    assert !LawfulAt(c3.trace, 1);
  }

  /** A segment that leaves a gap is accepted like any other: here eleven bytes are skipped. */
  lemma GapRun()
    ensures var gap := Segment(112, 8, 1000, false, true, false, false, [42]);
            var es := [Connects(7), Arrives(SynAck(100, 8)), Arrives(gap)];
            var c := Run(NewConn(), es);
            && CanRun(NewConn(), es) && c.accepted == [42] && c.marks.places == [112] && c.rcvnxt == 113
            && c.marks.first == 101 && !InOrder(c.marks.places, c.marks.first)
  {
    hide Apply;
    var gap := Segment(112, 8, 1000, false, true, false, false, [42]);
    var c1 := Apply(NewConn(), Connects(7));
    var c2 := Apply(c1, Arrives(SynAck(100, 8)));
    GapOpens();
    GapTaken(c2, gap);
    RunThree(NewConn(), Connects(7), Arrives(SynAck(100, 8)), Arrives(gap));
    var c3 := Apply(c2, Arrives(gap));
    assert c3.marks.places[0] != Wrap(c3.marks.first + 0);
  }

  lemma GapOpens()
    ensures var c1 := Apply(NewConn(), Connects(7));
            var c2 := Apply(c1, Arrives(SynAck(100, 8)));
            && c1.state == SynSent && !c1.freed && c2.state == Established && !c2.freed && c2.rcvnxt == 101
            && c2.rcvwnd == BUFFER_SIZE && c2.snd.una == c2.snd.nxt == 8 && c2.stream == c2.accepted == []
            && c2.marks == Marks(false, 101, [], true)
  {
    var c1 := OpenConnection(NewConn(), 7);
    assert Apply(NewConn(), Connects(7)) == c1 && c1.state == SynSent && c1.snd == SendVars(7, 8, 0, 0, 7, 0);
    SynSentResult(c1, SynAck(100, 8));
  }

  lemma GapTaken(c: Conn, s: Segment)
    requires c.state == Established && c.rcvnxt == 101 && c.rcvwnd == BUFFER_SIZE && c.snd.una == c.snd.nxt == 8
    requires c.stream == c.accepted == [] && c.marks == Marks(false, 101, [], true)
    requires s == Segment(112, 8, 1000, false, true, false, false, [42])
    ensures var d := Apply(c, Arrives(s));
            d.accepted == [42] && d.marks == Marks(false, 101, [112], false) && d.rcvnxt == 113
  {
    hide OnFin;
    assert Acceptable(c, s);
    assert OnAck(c, s) == Step(c, false);
    assert OnSegment(c, s) == OnData(c, s).conn;
    assert Numbers(112, 1) == [112];
  }

  /** A run in which data comes with the FIN: 103 is acknowledged, then 102, and 102 remains expected. */
  lemma FinRun()
    ensures var fin := Segment(101, 8, 1000, false, true, true, false, [42]);
            var es := [Connects(7), Arrives(SynAck(100, 8)), Arrives(fin)];
            var c := Run(NewConn(), es);
            && CanRun(NewConn(), es) && c.state == CloseWait && c.accepted == [42] && c.rcvnxt == 102
            && |c.log| >= 2 && c.log[|c.log| - 2].acknumber == 103 && c.log[|c.log| - 1].acknumber == 102
  {
    hide Apply;
    var fin := Segment(101, 8, 1000, false, true, true, false, [42]);
    GapOpens();
    FinTaken(Apply(Apply(NewConn(), Connects(7)), Arrives(SynAck(100, 8))), fin);
    RunThree(NewConn(), Connects(7), Arrives(SynAck(100, 8)), Arrives(fin));
  }

  lemma FinTaken(c: Conn, s: Segment)
    requires c.state == Established && c.rcvnxt == 101 && c.rcvwnd == BUFFER_SIZE && c.snd.una == c.snd.nxt == 8
    requires c.stream == c.accepted == [] && s == Segment(101, 8, 1000, false, true, true, false, [42])
    ensures var d := Apply(c, Arrives(s));
            && d.state == CloseWait && d.accepted == [42] && d.rcvnxt == 102
            && |d.log| >= 2 && d.log[|d.log| - 2].acknumber == 103 && d.log[|d.log| - 1].acknumber == 102
  {
    hide OnFin, Numbers;
    assert Acceptable(c, s);
    assert OnAck(c, s) == Step(c, false);
    var d := OnData(c, s).conn;
    assert d.state == Established && d.accepted == [42];
    DataLog(c, s);
    FinLog(d, s);
    assert OnSegment(c, s) == OnFin(d, s);
    FinFrom(d, s);
  }

  lemma FinFrom(c: Conn, s: Segment)
    requires c.state == Established
    ensures OnFin(c, s).state == CloseWait && OnFin(c, s).accepted == c.accepted
  {
    hide Wrap;
  }

  // ----- after the peer's FIN

  /** The peer's FIN was processed, and the connection has not been closed and reopened since. */
  predicate Ended(c: Conn) {
    AfterPeerFin(c.state) || (c.state == Closed && (c.sock.hasParent || c.sock.state == IsConnected))
  }

  /** Everything sent from `c` to `d` carries the number that `c` expects, but for resets. */
  ghost predicate Carries(c: Conn, d: Conn) {
    && c.log <= d.log && d.rcvnxt == c.rcvnxt
    && forall i :: |c.log| <= i < |d.log| ==> d.log[i].rst || d.log[i].acknumber == c.rcvnxt
  }

  predicate BringsFin(e: Event) {
    e.Arrives? && e.s.fin
  }

  /** After the peer's FIN nothing but another FIN changes the number expected, and everything sent carries it. */
  lemma {:induction false} FinNumberStays(c: Conn, es: seq<Event>)
    requires Inv(c) && Ended(c) && CanRun(c, es) && forall e :: e in es ==> !BringsFin(e)
    ensures Ended(Run(c, es)) && Carries(c, Run(c, es))
    decreases |es|
  {
    hide Inv, Apply, Enabled, Ended, Carries, BringsFin;
    if es == [] {
      CarriesSelf(c);
    } else {
      assert es[0] in es;
      ApplyInv(c, es[0]);
      EndedStep(c, es[0]);
      FinNumberStays(Apply(c, es[0]), es[1..]);
      CarriesOn(c, Apply(c, es[0]), Run(c, es));
    }
  }

  lemma CarriesSelf(c: Conn)
    ensures Carries(c, c)
  {
  }

  lemma CarriesOn(c: Conn, d: Conn, e: Conn)
    requires Carries(c, d) && Carries(d, e)
    ensures Carries(c, e)
  {
  }

  lemma EndedStep(c: Conn, e: Event)
    requires Inv(c) && Ended(c) && Enabled(c, e) && !BringsFin(e)
    ensures Ended(Apply(c, e)) && Carries(c, Apply(c, e))
  {
    hide TraceOk, StreamOk, SequenceOk, FinOk, OrderOk, OnSegment, Write, Wrap;
    match e
    case Arrives(s) => EndedSegment(c, s);
    case Writes(mss, data) => if Writable(c) { EndedWrite(c, mss, data); }
    case _ =>
  }

  lemma EndedSegment(c: Conn, s: Segment)
    requires Inv(c) && AfterPeerFin(c.state) && !c.freed && !s.fin
    ensures Ended(OnSegment(c, s)) && Carries(c, OnSegment(c, s))
  {
    EndedAck(c, s);
    EndedReplies(c);
    hide Inv, Acceptable, OnAck, OnData, OnFin, Ack, Abort, Send, Ended, Carries;
  }

  lemma EndedAck(c: Conn, s: Segment)
    requires SockOk(c) && AfterPeerFin(c.state) && !s.fin
    ensures var a := OnAck(c, s);
            Carries(c, a.conn) && Ended(a.conn) && (!a.drop ==> OnData(a.conn, s) == Step(a.conn, false))
  {
    hide Wrap, Numbers;
  }

  /** What is sent in reply to a segment that is not looked at any further. */
  lemma EndedReplies(c: Conn)
    requires SockOk(c) && AfterPeerFin(c.state)
    ensures Ended(c) && Carries(c, c) && Ended(Ack(c)) && Carries(c, Ack(c)) && c.state != SynRecv
    ensures var d := Abort(c.(eventstate := Reset)); Ended(d) && Carries(c, d)
    ensures var d := Abort(Send(c, false, false, false, true, []).(eventstate := Reset)); Ended(d) && Carries(c, d)
  {
  }

  lemma {:induction false} EndedWrite(c: Conn, mss: nat, data: seq<Byte>)
    requires AfterPeerFin(c.state)
    ensures var d := Write(c, mss, data); AfterPeerFin(d.state) && Carries(c, d)
    decreases |data|
  {
    hide Wrap, Chunk;
    var n := Chunk(c, mss, |data|);
    if data != [] && n != 0 {
      ChunkFits(c, mss, |data|);
      EndedWrite(WriteOne(c, data[..n]), mss, data[n..]);
    }
  }

  lemma RunThree(c: Conn, e0: Event, e1: Event, e2: Event)
    ensures var c1 := Apply(c, e0);
            var c2 := Apply(c1, e1);
            && Run(c, [e0, e1, e2]) == Apply(c2, e2)
            && (CanRun(c, [e0, e1, e2]) <==> Enabled(c, e0) && Enabled(c1, e1) && Enabled(c2, e2))
  {
    hide Apply, Enabled;
    var c1 := Apply(c, e0);
    var c2 := Apply(c1, e1);
    assert [e0, e1, e2][1..] == [e1, e2] && [e1, e2][1..] == [e2] && [e2][1..] == [];
    assert Run(c1, [e1, e2]) == Run(c2, [e2]) == Run(Apply(c2, e2), []);
    assert CanRun(Apply(c2, e2), []);
    assert CanRun(c2, [e2]) <==> Enabled(c2, e2);
    assert CanRun(c1, [e1, e2]) <==> Enabled(c1, e1) && CanRun(c2, [e2]);
  }
}
