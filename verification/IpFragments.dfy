/** IPv4 fragmentation, reassembly and the header checksum (`kernel/dev/net/net.c`). */
module IpFragments {

  import opened Wrappers

  type Bytes = seq<int>

  const HEADER: nat := 20
  const WORD: nat := 0x1_0000

  /** The header fields that travel unchanged; the fragment field and the length are kept beside them. */
  datatype Inet = Inet(version: nat, ihl: nat, id: nat, src: nat, dest: nat, protocol: nat)
  datatype Frag = Frag(header: Inet, off: nat, more: bool, data: Bytes)
  datatype Datagram = Datagram(header: Inet, data: Bytes)
  datatype Key = Key(id: nat, src: nat, dest: nat)

  /** What is left of a number in a `uint16_t`. */
  function U16(x: nat): (r: nat)
    ensures r <= x && r < WORD && (x < WORD ==> r == x)
  {
    x % WORD
  }

  function KeyOf(h: Inet): Key {
    Key(h.id, h.src, h.dest)
  }

  /** Headers with the same identification, source and destination belong to one datagram. */
  predicate Names(h: Inet, k: Key) {
    h.id == k.id && h.src == k.src && h.dest == k.dest
  }

  // ----- net_fragment -----

  /**
    One call of `net_fragment`. The header of every fragment after the first is copied out of the buffer of the
    fragment before it, which has been freed by then: `stale(j)` is what the copy finds there, and module
    FragmentBuffers says what that is.
   */
  datatype Job = Job(header: Inet, link: nat, mtu: nat, buffer: Bytes, stale: nat -> Inet) {
    function Room(): int {
      mtu - HEADER - link
    }

    function Chunk(): int {
      Room() / 8 * 8
    }

    ghost predicate Valid() {
      link <= 14 && 8 <= Room() < WORD
    }

    function Copied(j: nat): Inet {
      if j == 0 then header else stale(j)
    }
  }

  /** The fragments sent from the `j`th on, with `left` bytes to go, reading at `poff` and numbering from `fragoff`. */
  ghost function Sent(job: Job, left: nat, poff: nat, fragoff: nat, j: nat): seq<Frag>
    requires job.Valid() && poff + left <= |job.buffer|
    decreases left
  {
    if left == 0 then []
    else if left <= job.Room() then [Frag(job.Copied(j), fragoff % 0x2000, false, job.buffer[poff..poff + left])]
    else [Frag(job.Copied(j), fragoff % 0x2000, true, job.buffer[poff..poff + job.Chunk()])]
         + Sent(job, left - job.Chunk(), U16(poff + job.Chunk()), U16(fragoff + job.Room() / 8), j + 1)
  }

  /** All the fragments of a datagram. */
  ghost function Fragments(job: Job): seq<Frag>
    requires job.Valid() && job.link + HEADER <= |job.buffer|
  {
    Sent(job, |job.buffer| - job.link - HEADER, job.link + HEADER, 0, 0)
  }

  /** The fragment sent now, of `cop` bytes. */
  ghost function First(job: Job, poff: nat, cop: nat, fragoff: nat, j: nat, last: bool): Frag
    requires poff + cop <= |job.buffer|
  {
    Frag(job.Copied(j), fragoff % 0x2000, !last, job.buffer[poff..poff + cop])
  }

  lemma SentLast(job: Job, left: nat, poff: nat, fragoff: nat, j: nat)
    requires job.Valid() && poff + left <= |job.buffer| && 0 < left <= job.Room()
    ensures Sent(job, left, poff, fragoff, j) == [First(job, poff, left, fragoff, j, true)] + []
  {
  }

  lemma SentMore(job: Job, left: nat, poff: nat, fragoff: nat, j: nat)
    requires job.Valid() && poff + left <= |job.buffer| && job.Room() < left
    ensures 0 < job.Chunk() < left
    ensures Sent(job, left, poff, fragoff, j) == [First(job, poff, job.Chunk(), fragoff, j, false)]
              + Sent(job, left - job.Chunk(), U16(poff + job.Chunk()), U16(fragoff + job.Room() / 8), j + 1)
  {
  }

  /** What was sent, and what would be sent from here, are the fragments of the datagram. */
  ghost predicate Progress(job: Job, sent: seq<Frag>, left: nat, poff: nat, fragoff: nat, j: nat) {
    && job.Valid() && job.link + HEADER <= |job.buffer| && poff + left <= |job.buffer|
    && sent + Sent(job, left, poff, fragoff, j) == Fragments(job)
  }

  lemma ProgressStart(job: Job)
    requires job.Valid() && job.link + HEADER <= |job.buffer|
    ensures Progress(job, [], |job.buffer| - HEADER - job.link, job.link + HEADER, 0, 0)
  {
    hide Sent;
    assert [] + Fragments(job) == Fragments(job);
  }

  lemma ProgressStep(job: Job, sent: seq<Frag>, left: nat, poff: nat, fragoff: nat, j: nat, cop: nat)
    requires Progress(job, sent, left, poff, fragoff, j) && 0 < left
    requires cop == if left <= job.Room() then left else job.Chunk()
    ensures 0 < cop <= left && poff + cop <= |job.buffer|
    ensures Progress(job, sent + [First(job, poff, cop, fragoff, j, left <= job.Room())],
                     left - cop, U16(poff + cop), U16(fragoff + job.Room() / 8), j + 1)
  {
    hide Sent, U16, First, Fragments;
    var f := First(job, poff, cop, fragoff, j, left <= job.Room());
    var rest := Sent(job, left - cop, U16(poff + cop), U16(fragoff + job.Room() / 8), j + 1);
    if left <= job.Room() {
      SentLast(job, left, poff, fragoff, j);
      SentNone(job, U16(poff + cop), U16(fragoff + job.Room() / 8), j + 1);
    } else {
      SentMore(job, left, poff, fragoff, j);
    }
    assert sent + ([f] + rest) == sent + [f] + rest;
  }

  lemma ProgressEnd(job: Job, sent: seq<Frag>, poff: nat, fragoff: nat, j: nat)
    requires Progress(job, sent, 0, poff, fragoff, j)
    ensures sent == Fragments(job)
  {
    hide Fragments;
    SentNone(job, poff, fragoff, j);
    assert sent + [] == sent;
  }

  /** One fragment is put together in its own buffer. */
  method Build(job: Job, poff: nat, cop: nat, fragoff: nat, j: nat, last: bool) returns (f: Frag)
    requires poff + cop <= |job.buffer|
    ensures f == First(job, poff, cop, fragoff, j, last)
  {
    f := Frag(job.Copied(j), fragoff % 0x2000, !last, job.buffer[poff..poff + cop]);
  }

  method Fragment(job: Job) returns (sent: seq<Frag>)
    requires job.Valid() && job.link + HEADER <= |job.buffer| && |job.buffer| - job.link - HEADER < WORD
    ensures sent == Fragments(job)
  {
    var left: nat := |job.buffer| - HEADER - job.link;
    var poff: nat := job.link + HEADER;
    var fragoff: nat := 0;
    var nfb: nat := (job.mtu - HEADER - job.link) / 8;
    var j: nat := 0;
    sent := [];
    hide Sent, U16, First, Fragments, Progress;
    ProgressStart(job);
    while left != 0
      invariant Progress(job, sent, left, poff, fragoff, j)
      decreases left
    {
      var last := left <= job.mtu - HEADER - job.link;
      var cop: nat := if last then left else nfb * 8;
      ProgressStep(job, sent, left, poff, fragoff, j, cop);
      var fragment := Build(job, poff, cop, fragoff, j, last);
      sent := sent + [fragment];
      poff := U16(poff + cop);
      left := left - cop;
      fragoff := U16(fragoff + nfb);
      j := j + 1;
    }
    ProgressEnd(job, sent, poff, fragoff, j);
  }

  lemma SentNone(job: Job, poff: nat, fragoff: nat, j: nat)
    requires job.Valid() && poff <= |job.buffer|
    ensures Sent(job, 0, poff, fragoff, j) == []
  {
  }

  /** Where in the payload the last fragment starts. */
  function LastStart(job: Job, left: nat): (s: nat)
    requires job.Valid()
    ensures s <= left && (0 < left ==> s < left)
  {
    if left <= job.Room() then 0 else job.Chunk() + LastStart(job, left - job.Chunk())
  }

  ghost function Joined(frags: seq<Frag>): Bytes {
    if frags == [] then [] else frags[0].data + Joined(frags[1..])
  }

  lemma JoinedCons(f: Frag, rest: seq<Frag>)
    ensures Joined([f] + rest) == f.data + Joined(rest)
  {
    assert ([f] + rest)[1..] == rest;
  }

  lemma {:induction false} JoinedSent(job: Job, left: nat, poff: nat, fragoff: nat, j: nat)
    requires job.Valid() && poff + left == |job.buffer| && poff + LastStart(job, left) < WORD
    ensures Joined(Sent(job, left, poff, fragoff, j)) == job.buffer[poff..]
    decreases left
  {
    if job.Room() < left {
      JoinedSent(job, left - job.Chunk(), poff + job.Chunk(), U16(fragoff + job.Room() / 8), j + 1);
      assert job.buffer[poff..] == job.buffer[poff..poff + job.Chunk()] + job.buffer[poff + job.Chunk()..];
    }
  }

  /** The last fragment reads where the 16-bit position says, which is the front of the frame once it wraps. */
  lemma {:induction false} JoinedLast(job: Job, left: nat, poff: nat, fragoff: nat, j: nat)
    requires job.Valid() && 0 < left < WORD && left <= |job.buffer| && poff == U16(|job.buffer| - left)
    ensures |Joined(Sent(job, left, poff, fragoff, j))| == left
    ensures Joined(Sent(job, left, poff, fragoff, j))[LastStart(job, left)]
         == job.buffer[U16(|job.buffer| - left + LastStart(job, left))]
    decreases left
  {
    hide U16, Sent;
    if job.Room() < left {
      var c := job.Chunk();
      SentMore(job, left, poff, fragoff, j);
      var rest := left - c;
      PositionStep(|job.buffer|, left, c, poff);
      var next, number := U16(poff + c), U16(fragoff + job.Room() / 8);
      JoinedLast(job, rest, next, number, j + 1);
      JoinedCons(First(job, poff, c, fragoff, j, false), Sent(job, rest, next, number, j + 1));
      hide Joined;
      assert LastStart(job, left) == c + LastStart(job, rest);
    } else {
      SentLast(job, left, poff, fragoff, j);
      JoinedCons(First(job, poff, left, fragoff, j, true), []);
    }
  }

  lemma PositionStep(n: nat, left: nat, c: nat, poff: nat)
    requires c <= left <= n && poff == U16(n - left)
    ensures U16(poff + c) == U16(n - (left - c))
  {
    Wraps(poff + c, (n - left) / WORD);
    assert n - (left - c) == poff + c + (n - left) / WORD * WORD;
  }

  lemma {:induction false} Wraps(x: nat, q: nat)
    ensures (x + q * WORD) % WORD == x % WORD
  {
    if q != 0 {
      Wraps(x, q - 1);
      assert (x + (q - 1) * WORD + WORD) % WORD == (x + (q - 1) * WORD) % WORD;
    }
  }

  // ----- net_reassemble -----

  datatype Partial = Partial(header: Inet, data: Bytes, len: nat)

  function Zeros(n: nat): Bytes {
    seq(n, _ => 0)
  }

  /** `realloc`: grown memory reads as zeros. */
  function Resize(data: Bytes, n: nat): (r: Bytes)
    ensures |r| == n
  {
    if n <= |data| then data[..n] else data + Zeros(n - |data|)
  }

  /** `memcpy` into the buffer at an offset; what would land past its end is not part of the model. */
  function Write(data: Bytes, off: nat, bytes: Bytes): (r: Bytes)
    ensures |r| == |data|
  {
    seq(|data|, i requires 0 <= i < |data| => if off <= i < off + |bytes| then bytes[i - off] else data[i])
  }

  function Begun(h: Inet, f: Frag): Partial {
    Partial(h, Zeros(HEADER + |f.data|), 0)
  }

  /** A datagram in one piece goes past the reassembly. */
  predicate Whole(f: Frag) {
    f.off == 0 && !f.more
  }

  /** One fragment arrives for a datagram of which `e` has been received. */
  function StepEntry(e: Option<Partial>, f: Frag): (r: (Option<Partial>, seq<Datagram>)) {
    if f.header.version != 4 then (e, [])
    else if Whole(f) then (e, [Datagram(f.header, f.data)])
    else if f.header.ihl * 4 > HEADER || (e.None? && f.off * 8 != 0) then (e, [])
    else
      var p := if e.None? then Begun(f.header, f) else e.value;
      var len := (p.len + |f.data|) % WORD;
      var data := Write(Resize(p.data, len), f.off * 8, f.data);
      if f.more then (Some(Partial(p.header, data, len)), []) else (None, [Datagram(p.header, data)])
  }

  /** The table position of the last entry with that key, or -1. */
  function FindLast(t: seq<Partial>, k: Key): (i: int)
    ensures -1 <= i < |t|
    ensures i >= 0 ==> KeyOf(t[i].header) == k
    ensures forall j :: i < j < |t| ==> KeyOf(t[j].header) != k
  {
    if t == [] then -1 else if KeyOf(t[|t| - 1].header) == k then |t| - 1 else FindLast(t[..|t| - 1], k)
  }

  ghost predicate Unique(t: seq<Partial>) {
    forall i, j :: 0 <= i < j < |t| ==> KeyOf(t[i].header) != KeyOf(t[j].header)
  }

  function Entry(t: seq<Partial>, k: Key): Option<Partial> {
    var i := FindLast(t, k);
    if i < 0 then None else Some(t[i])
  }

  /** The table after the entry of a key is what `e` says. */
  function SetEntry(t: seq<Partial>, k: Key, e: Option<Partial>): seq<Partial> {
    var i := FindLast(t, k);
    if i < 0 then (if e.None? then t else t + [e.value])
    else if e.None? then t[..i] + t[i + 1..] else t[i := e.value]
  }

  function Step(t: seq<Partial>, f: Frag): (r: (seq<Partial>, seq<Datagram>)) {
    var (e, out) := StepEntry(Entry(t, KeyOf(f.header)), f);
    (SetEntry(t, KeyOf(f.header), e), out)
  }

  lemma FindUnique(t: seq<Partial>, k: Key, i: nat)
    requires Unique(t) && i < |t| && KeyOf(t[i].header) == k
    ensures FindLast(t, k) == i
  {
  }

  /** The vector acts as a map from keys to entries. */
  lemma SetEntryExact(t: seq<Partial>, k: Key, e: Option<Partial>, other: Key)
    requires Unique(t) && (e.Some? ==> KeyOf(e.value.header) == k)
    ensures Unique(SetEntry(t, k, e))
    ensures Entry(SetEntry(t, k, e), other) == if other == k then e else Entry(t, other)
  {
    SetEntryUnique(t, k, e);
    if other == k { SetEntrySelf(t, k, e); } else { SetEntryOther(t, k, e, other); }
  }

  lemma SetEntrySelf(t: seq<Partial>, k: Key, e: Option<Partial>)
    requires Unique(t) && (e.Some? ==> KeyOf(e.value.header) == k)
    ensures Entry(SetEntry(t, k, e), k) == e
  {
    var i := FindLast(t, k);
    var n := SetEntry(t, k, e);
    SetEntryUnique(t, k, e);
    if e.Some? {
      FindUnique(n, k, if i < 0 then |t| else i);
    } else if i >= 0 {
      var j := FindLast(n, k);
      assert forall x :: 0 <= x < |n| ==> n[x] == if x < i then t[x] else t[x + 1];
    }
  }

  lemma SetEntryOther(t: seq<Partial>, k: Key, e: Option<Partial>, other: Key)
    requires Unique(t) && (e.Some? ==> KeyOf(e.value.header) == k) && other != k
    ensures Entry(SetEntry(t, k, e), other) == Entry(t, other)
  {
    var i := FindLast(t, k);
    if i < 0 && e.Some? {
      hide Unique;
      assert (t + [e.value])[..|t|] == t;
    } else if i >= 0 && e.Some? {
      SetEntryUnique(t, k, e);
      UpdatedOther(t, i, e.value, other);
    } else if i >= 0 {
      SetEntryUnique(t, k, e);
      RemovedOther(t, i, other);
    }
  }

  lemma UpdatedOther(t: seq<Partial>, i: nat, p: Partial, other: Key)
    requires Unique(t) && i < |t| && KeyOf(t[i].header) == KeyOf(p.header) != other && Unique(t[i := p])
    ensures Entry(t[i := p], other) == Entry(t, other)
  {
    var n := t[i := p];
    var j := FindLast(t, other);
    if j >= 0 {
      FindUnique(n, other, j);
    } else {
      assert forall x :: 0 <= x < |n| ==> KeyOf(n[x].header) == KeyOf(t[x].header);
    }
  }

  lemma RemovedOther(t: seq<Partial>, i: nat, other: Key)
    requires Unique(t) && i < |t| && KeyOf(t[i].header) != other && Unique(t[..i] + t[i + 1..])
    ensures Entry(t[..i] + t[i + 1..], other) == Entry(t, other)
  {
    var n := t[..i] + t[i + 1..];
    var j := FindLast(t, other);
    if j >= 0 {
      assert n[if i < j then j - 1 else j] == t[j];
      FindUnique(n, other, if i < j then j - 1 else j);
    } else {
      assert forall x :: 0 <= x < |n| ==> n[x] == if x < i then t[x] else t[x + 1];
    }
  }

  lemma SetEntryUnique(t: seq<Partial>, k: Key, e: Option<Partial>)
    requires Unique(t) && (e.Some? ==> KeyOf(e.value.header) == k)
    ensures Unique(SetEntry(t, k, e))
  {
    var i := FindLast(t, k);
    var n := SetEntry(t, k, e);
    if i >= 0 && e.None? {
      forall x | 0 <= x < |n| ensures n[x] == if x < i then t[x] else t[x + 1] { }
    }
  }

  class Reassembler {
    var table: seq<Partial>

    /**
      `net_oninet`: a header of another version, or whose checksum is wrong, is not looked at, and a datagram in one
      piece is handed on as it is.
     */
    method OnInet(f: Frag, sumOk: bool) returns (out: seq<Datagram>)
      modifies this
      ensures if sumOk then (table, out) == Step(old(table), f) else table == old(table) && out == []
    {
      SetSame(table, KeyOf(f.header));
      if f.header.version != 4 || !sumOk {
        return [];
      }
      if !f.more && f.off == 0 {
        return [Datagram(f.header, f.data)];
      }
      out := Reassemble(f);
    }

    /** `net_reassemble`. */
    method Reassemble(f: Frag) returns (out: seq<Datagram>)
      requires f.header.version == 4 && !Whole(f)
      modifies this
      ensures (table, out) == Step(old(table), f)
    {
      hide Write, Resize, Zeros, FindLast, KeyOf, Begun, SetEntry;
      out := [];
      ghost var k := KeyOf(f.header);
      ghost var t := table;
      SetSame(table, k);
      if f.header.ihl * 4 > HEADER {
        assert StepEntry(Entry(t, k), f) == (Entry(t, k), []);
        return;
      }
      var found := Find(f.header);
      if found == -1 {
        if f.off * 8 != 0 {
          return;
        }
        found := |table|;
        table := table + [Partial(f.header, Zeros(HEADER + |f.data|), 0)];
        assert table[found] == Begun(f.header, f) by { BegunIs(f); }
      }
      var meta := table[found];
      assert meta == if Entry(t, k).None? then Begun(f.header, f) else Entry(t, k).value;
      var len := (meta.len + |f.data|) % WORD;
      var data := Write(Resize(meta.data, len), f.off * 8, f.data);
      Replaced(t, k, table[|table| - 1], Partial(meta.header, data, len));
      table := table[found := Partial(meta.header, data, len)];
      if !f.more {
        out := [Datagram(meta.header, data)];
        assert StepEntry(Entry(t, k), f) == (None, out);
        Remove(found);
      } else {
        assert StepEntry(Entry(t, k), f) == (Some(Partial(meta.header, data, len)), []);
      }
    }

    /** The search of the table keeps the last match. */
    method Find(h: Inet) returns (found: int)
      ensures found == FindLast(table, KeyOf(h))
    {
      found := -1;
      var i := 0;
      while i < |table|
        invariant 0 <= i <= |table| && found == FindLast(table[..i], KeyOf(h))
      {
        assert table[..i + 1][..i] == table[..i];
        if table[i].header.id == h.id && table[i].header.src == h.src && table[i].header.dest == h.dest {
          found := i;
        }
        i := i + 1;
      }
      assert table[..|table|] == table;
    }

    /** `VECTOR_REMOVE`: later entries move down by one. */
    method Remove(i: nat)
      requires i < |table|
      modifies this
      ensures table == old(table)[..i] + old(table)[i + 1..]
    {
      ghost var was := table;
      var j := i;
      while j < |table| - 1
        invariant i <= j < |was| == |table|
        invariant table == was[..i] + was[i + 1..j + 1] + was[j..]
      {
        table := table[j := table[j + 1]];
        assert was[i + 1..j + 2] == was[i + 1..j + 1] + [was[j + 1]];
        j := j + 1;
      }
      table := table[..|table| - 1];
    }
  }

  lemma BegunIs(f: Frag)
    ensures Begun(f.header, f) == Partial(f.header, Zeros(HEADER + |f.data|), 0)
  {
  }

  /** The entry of a key, found or just added, is replaced, or replaced and removed. */
  lemma Replaced(t: seq<Partial>, k: Key, begun: Partial, p: Partial)
    ensures var i := FindLast(t, k);
            var u := if i < 0 then t + [begun] else t;
            var v := u[if i < 0 then |t| else i := p];
            v == SetEntry(t, k, Some(p))
            && v[..if i < 0 then |t| else i] + v[(if i < 0 then |t| else i) + 1..] == SetEntry(t, k, None)
  {
    hide FindLast;
  }

  lemma SetSame(t: seq<Partial>, k: Key)
    ensures SetEntry(t, k, Entry(t, k)) == t
  {
  }

  // ----- interleaving -----

  /** A run of arrivals, with the datagrams that come out. */
  ghost function Run(t: seq<Partial>, arrivals: seq<Frag>): (r: (seq<Partial>, seq<Datagram>))
    decreases |arrivals|
  {
    if arrivals == [] then (t, [])
    else
      var (t1, out) := Step(t, arrivals[0]);
      var (t2, more) := Run(t1, arrivals[1..]);
      (t2, out + more)
  }

  /** The same for the fragments of one key alone. */
  ghost function RunEntry(e: Option<Partial>, arrivals: seq<Frag>): (r: (Option<Partial>, seq<Datagram>))
    decreases |arrivals|
  {
    if arrivals == [] then (e, [])
    else
      var (e1, out) := StepEntry(e, arrivals[0]);
      var (e2, more) := RunEntry(e1, arrivals[1..]);
      (e2, out + more)
  }

  ghost function OfKey(arrivals: seq<Frag>, k: Key): seq<Frag> {
    if arrivals == [] then []
    else (if Names(arrivals[0].header, k) then [arrivals[0]] else []) + OfKey(arrivals[1..], k)
  }

  ghost function Delivered(out: seq<Datagram>, k: Key): seq<Datagram> {
    if out == [] then []
    else (if Names(out[0].header, k) then [out[0]] else []) + Delivered(out[1..], k)
  }

  lemma {:induction false} DeliveredConcat(a: seq<Datagram>, b: seq<Datagram>, k: Key)
    ensures Delivered(a + b, k) == Delivered(a, k) + Delivered(b, k)
  {
    if a == [] {
      assert a + b == b;
    } else {
      hide KeyOf;
      var first := if KeyOf(a[0].header) == k then [a[0]] else [];
      DeliveredConcat(a[1..], b, k);
      assert (a + b)[0] == a[0] && (a + b)[1..] == a[1..] + b;
      assert first + (Delivered(a[1..], k) + Delivered(b, k)) == first + Delivered(a[1..], k) + Delivered(b, k);
    }
  }

  ghost predicate EntryKeyed(e: Option<Partial>, k: Key) {
    e.Some? ==> KeyOf(e.value.header) == k
  }

  lemma StepEntryKey(e: Option<Partial>, f: Frag)
    requires EntryKeyed(e, KeyOf(f.header))
    ensures EntryKeyed(StepEntry(e, f).0, KeyOf(f.header))
    ensures |StepEntry(e, f).1| <= 1 && forall d :: d in StepEntry(e, f).1 ==> KeyOf(d.header) == KeyOf(f.header)
  {
  }

  lemma DeliveredOne(out: seq<Datagram>, k: Key, own: Key)
    requires |out| <= 1 && forall d :: d in out ==> KeyOf(d.header) == own
    ensures Delivered(out, k) == if own == k then out else []
  {
    assert out != [] ==> out == [out[0]] && out[1..] == [];
  }

  /** What becomes of one key does not depend on the arrivals of the others: any interleaving treats it as if its
      fragments had come alone. */
  lemma {:induction false} Interleaved(t: seq<Partial>, arrivals: seq<Frag>, k: Key)
    requires Unique(t)
    ensures Unique(Run(t, arrivals).0)
    ensures Entry(Run(t, arrivals).0, k) == RunEntry(Entry(t, k), OfKey(arrivals, k)).0
    ensures Delivered(Run(t, arrivals).1, k) == RunEntry(Entry(t, k), OfKey(arrivals, k)).1
    decreases |arrivals|
  {
    hide StepEntry, Entry, SetEntry, Unique;
    if arrivals != [] {
      var f, rest := arrivals[0], arrivals[1..];
      var own := KeyOf(f.header);
      var (t1, out) := Step(t, f);
      assert EntryKeyed(Entry(t, own), own) by { EntryHasKey(t, own); }
      StepEntryKey(Entry(t, own), f);
      SetEntryExact(t, own, StepEntry(Entry(t, own), f).0, k);
      Interleaved(t1, rest, k);
      DeliveredConcat(out, Run(t1, rest).1, k);
      DeliveredOne(out, k, own);
      if own == k {
        assert OfKey(arrivals, k)[0] == f && OfKey(arrivals, k)[1..] == OfKey(rest, k);
      } else {
        assert OfKey(arrivals, k) == OfKey(rest, k);
      }
    }
  }

  lemma EntryHasKey(t: seq<Partial>, k: Key)
    ensures EntryKeyed(Entry(t, k), k)
  {
  }

  // ----- the round trip -----

  /** A receiver takes the fragment as one of the datagram's. */
  ghost predicate Counts(f: Frag, k: Key) {
    HeaderCounts(f.header, k)
  }

  predicate HeaderCounts(h: Inet, k: Key) {
    KeyOf(h) == k && h.version == 4 && h.ihl * 4 <= HEADER
  }

  ghost predicate AllCount(frags: seq<Frag>, k: Key) {
    forall f :: f in frags ==> Counts(f, k)
  }

  /** Fragments of one datagram in order, the first of them at byte `at`. */
  ghost predicate InOrder(frags: seq<Frag>, k: Key, at: nat) {
    frags != [] ==>
      && Counts(frags[0], k) && frags[0].off * 8 == at
      && frags[0].more == (|frags| > 1) && 0 < |frags[0].data|
      && at + |frags[0].data| < WORD && InOrder(frags[1..], k, at + |frags[0].data|)
  }

  lemma {:induction false} ResizeWrite(data: Bytes, more: Bytes)
    ensures Write(Resize(data, |data| + |more|), |data|, more) == data + more
  {
  }

  lemma LastOne(e: Option<Partial>, f: Frag, d: Datagram)
    requires StepEntry(e, f) == (None, [d])
    ensures RunEntry(e, [f]) == (None, [d]) && Joined([f]) == f.data
  {
    hide StepEntry;
    assert [f][0] == f && [f][1..] == [];
    assert [d] + [] == [d];
    assert RunEntry(None, []) == (None, []);
    assert f.data + [] == f.data;
    assert Joined([f]) == f.data + Joined([]);
  }

  lemma OneMore(e: Option<Partial>, f: Frag, q: Partial, rest: seq<Frag>)
    requires StepEntry(e, f) == (Some(q), [])
    ensures RunEntry(e, [f] + rest) == RunEntry(Some(q), rest) && Joined([f] + rest) == f.data + Joined(rest)
  {
    hide StepEntry;
    assert ([f] + rest)[0] == f && ([f] + rest)[1..] == rest;
    assert [] + RunEntry(Some(q), rest).1 == RunEntry(Some(q), rest).1;
  }

  /** Nothing comes out before the last fragment; then the joined data does, and the entry is gone. */
  lemma {:induction false} RunInOrder(p: Partial, frags: seq<Frag>, k: Key, n: nat)
    requires KeyOf(p.header) == k && InOrder(frags, k, |p.data|) && p.len == |p.data| > 0 && n <= |frags|
    ensures n < |frags| ==> RunEntry(Some(p), frags[..n]).1 == []
    ensures n == |frags| > 0 ==> RunEntry(Some(p), frags[..n]) == (None, [Datagram(p.header, p.data + Joined(frags))])
    decreases |frags|
  {
    hide Resize, Write;
    if n > 0 {
      var f := frags[0];
      ResizeWrite(p.data, f.data);
      var q := Partial(p.header, p.data + f.data, |p.data| + |f.data|);
      assert frags[..n][0] == f && frags[..n][1..] == frags[1..][..n - 1];
      if f.more {
        assert StepEntry(Some(p), f) == (Some(q), []);
        OneMore(Some(p), f, q, frags[1..][..n - 1]);
        assert frags[..n] == [f] + frags[1..][..n - 1];
        RunInOrder(q, frags[1..], k, n - 1);
        assert p.data + (f.data + Joined(frags[1..])) == p.data + f.data + Joined(frags[1..]);
      } else {
        assert StepEntry(Some(p), f) == (None, [Datagram(p.header, q.data)]);
        LastOne(Some(p), f, Datagram(p.header, q.data));
        assert frags == [f] == frags[..n];
      }
    }
  }

  lemma RunFirst(frags: seq<Frag>, k: Key, n: nat)
    requires frags != [] && InOrder(frags, k, 0) && n <= |frags|
    ensures n < |frags| ==> RunEntry(None, frags[..n]).1 == []
    ensures n == |frags| ==> RunEntry(None, frags[..n]) == (None, [Datagram(frags[0].header, Joined(frags))])
  {
    hide Resize, Write, Zeros;
    if n > 0 {
      var f := frags[0];
      var p := Partial(f.header, f.data, |f.data|);
      assert Write(Resize(Begun(f.header, f).data, |f.data|), 0, f.data) == f.data by { FirstWrite(f); }
      assert frags[..n][0] == f && frags[..n][1..] == frags[1..][..n - 1];
      if f.more {
        assert StepEntry(None, f) == (Some(p), []);
        OneMore(None, f, p, frags[1..][..n - 1]);
        assert frags[..n] == [f] + frags[1..][..n - 1];
        RunInOrder(p, frags[1..], k, n - 1);
      } else {
        assert Whole(f);
        LastOne(None, f, Datagram(f.header, f.data));
        assert frags == [f] == frags[..n];
      }
    }
  }

  lemma FirstWrite(f: Frag)
    ensures Write(Resize(Begun(f.header, f).data, |f.data|), 0, f.data) == f.data
  {
  }

  lemma {:induction false} SentInOrder(job: Job, left: nat, poff: nat, done: nat, j: nat, k: Key)
    requires job.Valid() && poff + left <= |job.buffer| && AllCount(Sent(job, left, poff, done / 8, j), k)
    requires done % 8 == 0 && done / 8 < 0x2000 && done + left <= 0x1_0000 - 21
    ensures InOrder(Sent(job, left, poff, done / 8, j), k, done)
    decreases left
  {
    hide U16, Sent, InOrder, Counts;
    if left == 0 {
      SentNone(job, poff, done / 8, j);
      NoneInOrder(k, done);
    } else if left <= job.Room() {
      var f := First(job, poff, left, done / 8, j, true);
      SentLast(job, left, poff, done / 8, j);
      CountTail(f, [], k);
      NoneInOrder(k, done + left);
      InOrderCons(f, [], k, done);
    } else {
      var c := job.Chunk();
      SentMore(job, left, poff, done / 8, j);
      Blocks(done, job.Room());
      var f := First(job, poff, c, done / 8, j, false);
      var rest := Sent(job, left - c, U16(poff + c), (done + c) / 8, j + 1);
      CountTail(f, rest, k);
      SentFilled(job, left - c, U16(poff + c), (done + c) / 8, j + 1);
      SentInOrder(job, left - c, U16(poff + c), done + c, j + 1, k);
      InOrderCons(f, rest, k, done);
    }
  }

  lemma CountTail(f: Frag, rest: seq<Frag>, k: Key)
    requires AllCount([f] + rest, k)
    ensures Counts(f, k) && AllCount(rest, k)
  {
    assert ([f] + rest)[0] == f;
    assert forall g :: g in rest ==> g in [f] + rest;
  }

  /** No fragment is empty, and the first one carries the datagram's own header. */
  lemma {:induction false} SentFilled(job: Job, left: nat, poff: nat, fragoff: nat, j: nat)
    requires job.Valid() && poff + left <= |job.buffer|
    ensures forall f :: f in Sent(job, left, poff, fragoff, j) ==> 0 < |f.data|
    ensures left > 0 ==>
              Sent(job, left, poff, fragoff, j) != [] && Sent(job, left, poff, fragoff, j)[0].header == job.Copied(j)
    decreases left
  {
    hide U16, Sent;
    if left == 0 {
      SentNone(job, poff, fragoff, j);
    } else if left <= job.Room() {
      SentLast(job, left, poff, fragoff, j);
    } else {
      SentMore(job, left, poff, fragoff, j);
      SentFilled(job, left - job.Chunk(), U16(poff + job.Chunk()), U16(fragoff + job.Room() / 8), j + 1);
    }
  }

  lemma NoneInOrder(k: Key, at: nat)
    ensures InOrder([], k, at)
  {
  }

  lemma Blocks(done: nat, room: nat)
    requires done % 8 == 0
    ensures (done + room / 8 * 8) % 8 == 0 && (done + room / 8 * 8) / 8 == done / 8 + room / 8
  {
  }

  lemma InOrderCons(f: Frag, rest: seq<Frag>, k: Key, at: nat)
    requires Counts(f, k) && f.off * 8 == at && f.more == (rest != []) && 0 < |f.data|
    requires at + |f.data| < WORD && InOrder(rest, k, at + |f.data|)
    ensures InOrder([f] + rest, k, at)
  {
    assert ([f] + rest)[1..] == rest;
  }

  /** The largest payload that needs no more than the 16-bit total length. */
  const MOST: nat := 65515

  /** A frame that `net_sendinet` has filled in. */
  ghost predicate Sendable(job: Job) {
    && job.Valid() && job.link + HEADER < |job.buffer| && |job.buffer| - job.link - HEADER <= MOST
    && HeaderCounts(job.header, KeyOf(job.header))
  }

  function Payload(job: Job): Bytes
    requires job.link + HEADER <= |job.buffer|
  {
    job.buffer[job.link + HEADER..]
  }

  /** How many fragments `left` bytes make. */
  function Pieces(job: Job, left: nat): nat
    requires job.Valid()
  {
    if left == 0 then 0 else if left <= job.Room() then 1 else 1 + Pieces(job, left - job.Chunk())
  }

  /** Fragments count when their headers do. */
  lemma {:induction false} SentCounts(job: Job, left: nat, poff: nat, fragoff: nat, j: nat, k: Key)
    requires job.Valid() && poff + left <= |job.buffer|
    ensures |Sent(job, left, poff, fragoff, j)| == Pieces(job, left)
    ensures AllCount(Sent(job, left, poff, fragoff, j), k)
       <==> forall i: nat :: j <= i < j + Pieces(job, left) ==> HeaderCounts(job.Copied(i), k)
    decreases left
  {
    hide U16, Sent, HeaderCounts, AllCount;
    if left == 0 {
      SentNone(job, poff, fragoff, j);
      NoneCount(k);
    } else if left <= job.Room() {
      SentLast(job, left, poff, fragoff, j);
      NoneCount(k);
      CountCons(First(job, poff, left, fragoff, j, true), [], k);
    } else {
      var c := job.Chunk();
      SentMore(job, left, poff, fragoff, j);
      SentCounts(job, left - c, U16(poff + c), U16(fragoff + job.Room() / 8), j + 1, k);
      CountCons(First(job, poff, c, fragoff, j, false),
                Sent(job, left - c, U16(poff + c), U16(fragoff + job.Room() / 8), j + 1), k);
    }
  }

  /** What is found in freed buffers decides the headers, and nothing else. */
  lemma {:induction false} SentHeaders(job: Job, other: Job, left: nat, poff: nat, fragoff: nat, j: nat)
    requires job.Valid() && other == job.(stale := other.stale) && poff + left <= |job.buffer|
    ensures var a, b := Sent(job, left, poff, fragoff, j), Sent(other, left, poff, fragoff, j);
            |a| == |b| && forall i :: 0 <= i < |a| ==> b[i] == a[i].(header := other.Copied(j + i))
    decreases left
  {
    hide U16, Sent;
    if left == 0 {
      SentNone(job, poff, fragoff, j);
      SentNone(other, poff, fragoff, j);
    } else if left <= job.Room() {
      SentLast(job, left, poff, fragoff, j);
      SentLast(other, left, poff, fragoff, j);
    } else {
      SentMore(job, left, poff, fragoff, j);
      SentMore(other, left, poff, fragoff, j);
      SentHeaders(job, other, left - job.Chunk(), U16(poff + job.Chunk()), U16(fragoff + job.Room() / 8), j + 1);
    }
  }

  lemma NoneCount(k: Key)
    ensures AllCount([], k)
  {
  }

  lemma CountCons(f: Frag, rest: seq<Frag>, k: Key)
    ensures AllCount([f] + rest, k) <==> HeaderCounts(f.header, k) && AllCount(rest, k)
  {
    assert ([f] + rest)[0] == f;
    assert forall g :: g in [f] + rest <==> g == f || g in rest;
    assert Counts(f, k) <==> HeaderCounts(f.header, k);
  }

  /** The headers copied from freed buffers still name the datagram. */
  ghost predicate Undisturbed(job: Job)
    requires job.Valid() && job.link + HEADER <= |job.buffer|
  {
    AllCount(Fragments(job), KeyOf(job.header))
  }

  /** A datagram's fragments, interleaved in any way with fragments of other datagrams: nothing is delivered for it
      until the last one, then one datagram is, and the table forgets it. What it carries is what was sent when the
      last fragment starts below 2^16 in the frame. */
  lemma RoundTrip(t: seq<Partial>, arrivals: seq<Frag>, job: Job, n: nat)
    requires Unique(t) && Sendable(job) && Undisturbed(job) && Entry(t, KeyOf(job.header)) == None
    requires n <= |Fragments(job)| && OfKey(arrivals, KeyOf(job.header)) == Fragments(job)[..n]
    ensures n < |Fragments(job)| ==> Delivered(Run(t, arrivals).1, KeyOf(job.header)) == []
    ensures n == |Fragments(job)| ==>
      Entry(Run(t, arrivals).0, KeyOf(job.header)) == None
      && Delivered(Run(t, arrivals).1, KeyOf(job.header)) == [Datagram(job.header, Joined(Fragments(job)))]
    ensures job.link + HEADER + LastStart(job, |Payload(job)|) < WORD ==> Joined(Fragments(job)) == Payload(job)
  {
    FragmentsFilled(job);
    FragmentsInOrder(job);
    hide Fragments, InOrder, Run, RunEntry, OfKey, Entry, Unique, LastStart, AllCount;
    RunFirst(Fragments(job), KeyOf(job.header), n);
    Interleaved(t, arrivals, KeyOf(job.header));
    if job.link + HEADER + LastStart(job, |Payload(job)|) < WORD {
      FragmentsJoined(job);
    }
  }

  lemma FragmentsFilled(job: Job)
    requires Sendable(job)
    ensures Fragments(job) != [] && Fragments(job)[0].header == job.header
    ensures forall f :: f in Fragments(job) ==> 0 < |f.data|
  {
    hide Sent;
    SentFilled(job, |job.buffer| - job.link - HEADER, job.link + HEADER, 0, 0);
  }

  lemma FragmentsInOrder(job: Job)
    requires Sendable(job) && Undisturbed(job)
    ensures InOrder(Fragments(job), KeyOf(job.header), 0)
  {
    hide Sent, InOrder, AllCount;
    SentInOrder(job, |job.buffer| - job.link - HEADER, job.link + HEADER, 0, 0, KeyOf(job.header));
  }

  lemma FragmentsJoined(job: Job)
    requires job.Valid() && job.link + HEADER <= |job.buffer|
    requires job.link + HEADER + LastStart(job, |Payload(job)|) < WORD
    ensures Joined(Fragments(job)) == Payload(job)
  {
    hide Sent;
    JoinedSent(job, |job.buffer| - job.link - HEADER, job.link + HEADER, 0, 0);
  }

  /** The bytes of the fragments that count. */
  ghost function Weight(frags: seq<Frag>, k: Key): nat {
    if frags == [] then 0 else (if Counts(frags[0], k) then |frags[0].data| else 0) + Weight(frags[1..], k)
  }

  lemma {:induction false} WeightOfKey(frags: seq<Frag>, k: Key)
    ensures Weight(OfKey(frags, k), k) == Weight(frags, k)
    ensures forall f :: f in OfKey(frags, k) ==> KeyOf(f.header) == k
  {
    if frags != [] {
      WeightOfKey(frags[1..], k);
      if KeyOf(frags[0].header) == k {
        assert OfKey(frags, k)[1..] == OfKey(frags[1..], k);
        assert OfKey(frags, k)[0] == frags[0];
      } else {
        assert OfKey(frags, k) == OfKey(frags[1..], k);
      }
    }
  }

  /** A fragment that does not count is missing from the weight. */
  lemma {:induction false} WeightMissing(frags: seq<Frag>, k: Key)
    requires forall f :: f in frags ==> 0 < |f.data|
    ensures Weight(frags, k) <= |Joined(frags)|
    ensures !AllCount(frags, k) ==> Weight(frags, k) < |Joined(frags)|
  {
    if frags != [] {
      assert frags[0] in frags;
      WeightMissing(frags[1..], k);
      if Counts(frags[0], k) && AllCount(frags[1..], k) {
        forall f | f in frags ensures Counts(f, k) {
          assert f == frags[0] || f in frags[1..];
        }
      }
    }
  }

  /** Nothing that comes out is longer than what went in and counted. */
  lemma {:induction false} OutWeight(e: Option<Partial>, frags: seq<Frag>, k: Key)
    requires forall f :: f in frags ==> KeyOf(f.header) == k && (Whole(f) ==> Counts(f, k))
    ensures forall d :: d in RunEntry(e, frags).1 ==>
              |d.data| <= (if e.Some? then e.value.len else 0) + Weight(frags, k)
    decreases |frags|
  {
    hide Resize, Write, Zeros;
    if frags != [] {
      var f := frags[0];
      assert f in frags && forall g :: g in frags[1..] ==> g in frags;
      var (e1, out) := StepEntry(e, f);
      OutWeight(e1, frags[1..], k);
      assert RunEntry(e, frags).1 == out + RunEntry(e1, frags[1..]).1;
    }
  }

  /** After the first fragment none has the offset 0. */
  lemma {:induction false} LaterOffsets(job: Job, left: nat, poff: nat, done: nat, j: nat)
    requires job.Valid() && poff + left <= |job.buffer| && 0 < done && done % 8 == 0 && done + left <= MOST
    ensures forall f :: f in Sent(job, left, poff, done / 8, j) ==> !Whole(f)
    decreases left
  {
    hide U16, Sent;
    if left == 0 {
      SentNone(job, poff, done / 8, j);
    } else if left <= job.Room() {
      SentLast(job, left, poff, done / 8, j);
    } else {
      var c := job.Chunk();
      SentMore(job, left, poff, done / 8, j);
      Blocks(done, job.Room());
      assert U16(done / 8 + job.Room() / 8) == (done + c) / 8;
      LaterOffsets(job, left - c, U16(poff + c), done + c, j + 1);
    }
  }

  /** So only a datagram that needs no cutting up is sent whole, under its own header. */
  lemma WholeCounts(job: Job)
    requires Sendable(job)
    ensures forall f :: f in Fragments(job) && Whole(f) ==> Counts(f, KeyOf(job.header))
  {
    hide Sent, U16;
    var left: nat := |job.buffer| - job.link - HEADER;
    var poff := job.link + HEADER;
    if left <= job.Room() {
      SentLast(job, left, poff, 0, 0);
    } else {
      var c := job.Chunk();
      SentMore(job, left, poff, 0, 0);
      Blocks(0, job.Room());
      assert U16(job.Room() / 8) == c / 8;
      LaterOffsets(job, left - c, U16(poff + c), c, 1);
    }
  }

  lemma {:induction false} KeyedIn(frags: seq<Frag>, k: Key)
    ensures forall f :: f in OfKey(frags, k) ==> f in frags
  {
    if frags != [] {
      KeyedIn(frags[1..], k);
      forall f | f in OfKey(frags, k) ensures f in frags {
        assert f == frags[0] || f in frags[1..];
      }
    }
  }

  /** A receiver with no partial datagrams gets the datagram, and nothing else under its name. */
  ghost predicate Arrives(job: Job, sent: seq<Frag>)
    requires job.link + HEADER <= |job.buffer|
  {
    Delivered(Run([], sent).1, KeyOf(job.header)) == [Datagram(job.header, Payload(job))]
  }

  /**
    Fed alone to a receiver with no partial datagrams, the fragments give back what they carry exactly when
    every header copied from a freed buffer still names the datagram: a fragment sent under another name is
    lost, and what is delivered without it, if anything, is too short. So the datagram arrives as it was sent
    exactly when, besides, what they carry is its payload.
   */
  lemma DeliveredExactly(job: Job)
    requires Sendable(job)
    ensures Delivered(Run([], Fragments(job)).1, KeyOf(job.header)) == [Datagram(job.header, Joined(Fragments(job)))]
       <==> Undisturbed(job)
    ensures Arrives(job, Fragments(job)) <==> Undisturbed(job) && Joined(Fragments(job)) == Payload(job)
  {
    var k := KeyOf(job.header);
    var frags := Fragments(job);
    if Undisturbed(job) {
      AllOfKey(frags, k);
      assert frags[..|frags|] == frags;
      RoundTrip([], frags, job, |frags|);
    } else {
      FragmentsFilled(job);
      FragmentsLast(job);
      hide Fragments, InOrder, Run, RunEntry, Delivered, OfKey, Weight, Joined, Payload, Counts, Whole, Sendable;
      Interleaved([], frags, k);
      WeightOfKey(frags, k);
      WeightMissing(frags, k);
      WholeCounts(job);
      KeyedIn(frags, k);
      OutWeight(Entry([], k), OfKey(frags, k), k);
      assert Entry([], k) == None;
      TooShort(RunEntry(None, OfKey(frags, k)).1, job.header, Joined(frags));
      TooShort(RunEntry(None, OfKey(frags, k)).1, job.header, Payload(job));
    }
  }

  lemma TooShort(out: seq<Datagram>, h: Inet, data: Bytes)
    requires forall d :: d in out ==> |d.data| < |data|
    ensures out != [Datagram(h, data)]
  {
    assert Datagram(h, data) in [Datagram(h, data)];
    assert Datagram(h, data) !in out;
  }

  lemma {:induction false} AllOfKey(frags: seq<Frag>, k: Key)
    requires AllCount(frags, k)
    ensures OfKey(frags, k) == frags
  {
    if frags != [] {
      assert Counts(frags[0], k);
      AllOfKey(frags[1..], k);
    }
  }

  /** A frame with the given front. */
  function Framed(job: Job, front: Bytes, payload: Bytes): Job {
    job.(buffer := front + payload)
  }

  ghost predicate Survives(job: Job, front: Bytes, payload: Bytes)
    requires job.Valid() && |front| == job.link + HEADER
  {
    Joined(Fragments(Framed(job, front, payload))) == payload
  }

  /** Every payload of a length survives exactly when the last fragment starts below 2^16 in the frame; past that the
      16-bit reading position wraps and the last fragment carries the frame's own front. */
  lemma SurvivesExactly(job: Job, front: Bytes, size: nat)
    requires job.Valid() && |front| == job.link + HEADER && 0 < size <= MOST
    ensures (forall payload: Bytes :: |payload| == size ==> Survives(job, front, payload))
       <==> job.link + HEADER + LastStart(job, size) < WORD
  {
    if job.link + HEADER + LastStart(job, size) < WORD {
      forall payload: Bytes | |payload| == size ensures Survives(job, front, payload) {
        SurvivesBelow(job, front, payload);
      }
    } else {
      SurvivesNot(job, front, size);
    }
  }

  /** The last fragment starts at a multiple of what the others carry. */
  lemma {:induction false} LastStartIs(job: Job, left: nat, q: nat)
    requires job.Valid() && q * job.Chunk() < left <= q * job.Chunk() + job.Room()
    requires q > 0 ==> job.Room() + (q - 1) * job.Chunk() < left
    ensures LastStart(job, left) == q * job.Chunk()
    decreases q
  {
    hide LastStart;
    var c := job.Chunk();
    LastStartUnfold(job, left);
    if q > 0 {
      TimesLess(q, c);
      if q > 1 { TimesLess(q - 1, c); }
      LastStartIs(job, left - c, q - 1);
    }
  }

  /** In numbers. */
  lemma LastStartFormula(job: Job, left: nat)
    requires job.Valid() && 0 < left
    ensures LastStart(job, left) ==
              if left <= job.Room() then 0 else (left - job.Room() + job.Chunk() - 1) / job.Chunk() * job.Chunk()
  {
    hide LastStart;
    if left <= job.Room() {
      LastStartUnfold(job, left);
    } else {
      var c := job.Chunk();
      var over: nat := left - job.Room() + c - 1;
      var q := over / c;
      Quotient(over, c);
      TimesLess(q, c);
      LastStartIs(job, left, q);
    }
  }

  lemma Quotient(x: nat, c: nat)
    requires 0 < c <= x
    ensures 0 < x / c && x / c * c <= x < x / c * c + c
  {
    var q, r := x / c, x % c;
    assert x == c * q + r;
  }

  lemma LastStartUnfold(job: Job, left: nat)
    requires job.Valid()
    ensures LastStart(job, left) == if left <= job.Room() then 0 else job.Chunk() + LastStart(job, left - job.Chunk())
  {
  }

  lemma TimesLess(q: nat, c: nat)
    requires q > 0
    ensures q * c == (q - 1) * c + c && (q - 1) * c >= 0
  {
  }

  lemma {:induction false} LastStartMultiple(job: Job, left: nat) returns (q: nat)
    requires job.Valid()
    ensures LastStart(job, left) == q * job.Chunk()
    decreases left
  {
    if left <= job.Room() {
      q := 0;
    } else {
      var p := LastStartMultiple(job, left - job.Chunk());
      q := p + 1;
      TimesLess(q, job.Chunk());
    }
  }

  /** At the MTU an Ethernet adapter starts with, every datagram survives. */
  lemma EthernetSurvives(job: Job, front: Bytes, payload: Bytes)
    requires job.link == 14 && job.mtu == 1500 && |front| == 34 && 0 < |payload| <= MOST
    ensures job.Valid() && Survives(job, front, payload)
  {
    hide LastStart;
    var q := LastStartMultiple(job, |payload|);
    LastStartBelow(job, |payload|);
    assert job.Chunk() == 1464;
    SurvivesBelow(job, front, payload);
  }

  lemma LastStartBelow(job: Job, left: nat)
    requires job.Valid() && 0 < left
    ensures LastStart(job, left) < left
  {
  }

  /** At another one the longest does not: 46 fragments of 1424 bytes, and the last 11 bytes are read from the front. */
  lemma WrapExample(job: Job, front: Bytes)
    requires job.link == 14 && job.mtu == 1458 && |front| == 34
    ensures job.Valid() && LastStart(job, MOST) == 65504
    ensures exists payload: Bytes :: |payload| == MOST && !Survives(job, front, payload)
  {
    hide LastStart;
    assert job.Chunk() == 1424;
    LastStartIs(job, MOST, 46);
    SurvivesNot(job, front, MOST);
  }

  lemma SurvivesBelow(job: Job, front: Bytes, payload: Bytes)
    requires job.Valid() && |front| == job.link + HEADER && job.link + HEADER + LastStart(job, |payload|) < WORD
    ensures Survives(job, front, payload)
  {
    var framed := Framed(job, front, payload);
    SameStart(job, framed, |payload|);
    assert Payload(framed) == payload;
    hide Fragments;
    FragmentsJoined(framed);
  }

  lemma SurvivesNot(job: Job, front: Bytes, size: nat)
    requires job.Valid() && |front| == job.link + HEADER && 0 < size <= MOST
    requires WORD <= job.link + HEADER + LastStart(job, size)
    ensures exists payload: Bytes :: |payload| == size && !Survives(job, front, payload)
  {
    var last := LastStart(job, size);
    var at := job.link + HEADER + last - WORD;
    var payload := seq(size, _ => front[at] + 1);
    var framed := Framed(job, front, payload);
    hide Sent, LastStart, Joined, U16, Fragments;
    SameStart(job, framed, size);
    FragmentsLast(framed);
    U16Over(job.link + HEADER + last);
    assert framed.buffer[at] == front[at];
    assert !Survives(job, front, payload);
  }

  /** What fragments carry does not depend on the headers found. */
  lemma {:induction false} JoinedBodies(a: seq<Frag>, b: seq<Frag>)
    requires |a| == |b| && forall i :: 0 <= i < |a| ==> a[i].data == b[i].data
    ensures Joined(a) == Joined(b)
  {
    if a != [] {
      JoinedBodies(a[1..], b[1..]);
    }
  }

  lemma FragmentsLast(job: Job)
    requires job.Valid() && job.link + HEADER < |job.buffer| && |Payload(job)| < WORD
    ensures |Joined(Fragments(job))| == |Payload(job)|
    ensures Joined(Fragments(job))[LastStart(job, |Payload(job)|)]
              == job.buffer[U16(job.link + HEADER + LastStart(job, |Payload(job)|))]
  {
    hide Sent, LastStart, Joined, U16;
    JoinedLast(job, |Payload(job)|, job.link + HEADER, 0, 0);
  }

  lemma U16Over(x: nat)
    requires WORD <= x < 2 * WORD
    ensures U16(x) == x - WORD
  {
  }

  lemma {:induction false} SameStart(a: Job, b: Job, left: nat)
    requires a.Valid() && b == a.(buffer := b.buffer)
    ensures LastStart(a, left) == LastStart(b, left)
    decreases left
  {
    if a.Room() < left {
      SameStart(a, b, left - a.Chunk());
    }
  }

  // ----- net_checksum -----

  ghost function Sum(words: seq<int>): int {
    if words == [] then 0 else Sum(words[..|words| - 1]) + words[|words| - 1]
  }

  /** The sum with its carries added in once, complemented. */
  ghost function ChecksumOf(words: seq<int>): int {
    var folded := Sum(words) % WORD + Sum(words) / WORD;
    WORD - 1 - (if folded > WORD - 1 then folded + 1 else folded) % WORD
  }

  /** `net_checksum` over the 16-bit words of a header or segment: with the result added in, the words sum to zero
      in one's complement arithmetic. */
  method Checksum(words: seq<int>) returns (r: nat)
    requires |words| <= 0x8000 && forall i :: 0 <= i < |words| ==> 0 <= words[i] < WORD
    ensures r < WORD && (Sum(words) + r) % (WORD - 1) == 0 && r == ChecksumOf(words)
  {
    var csum: nat := 0;
    var i := 0;
    while i < |words|
      invariant 0 <= i <= |words| && csum == Sum(words[..i]) && csum <= i * (WORD - 1)
    {
      assert words[..i + 1][..i] == words[..i];
      csum := csum + words[i];
      i := i + 1;
    }
    assert words[..i] == words;
    Fold(csum);
    csum := csum % WORD + csum / WORD;
    if csum > WORD - 1 {
      csum := csum + 1;
    }
    r := WORD - 1 - csum % WORD;
  }

  /** Adding the carries back in once is enough for a 32-bit sum of at most 2^15 words. */
  lemma Fold(sum: nat)
    requires sum <= 0x8000 * (WORD - 1)
    ensures var folded := sum % WORD + sum / WORD;
            var carried := if folded > WORD - 1 then folded + 1 else folded;
            (sum + (WORD - 1 - carried % WORD)) % (WORD - 1) == 0
  {
    var q, m := sum / WORD, sum % WORD;
    assert sum == q * (WORD - 1) + (q + m);
    var k := if q + m > WORD - 1 then 2 else 1;
    var carried := if q + m > WORD - 1 then q + m + 1 else q + m;
    assert sum + (WORD - 1 - carried % WORD) == (q + k) * (WORD - 1);
    Folds(sum + (WORD - 1 - carried % WORD), q + k);
  }

  lemma {:induction false} Folds(x: int, q: nat)
    requires x == q * (WORD - 1)
    ensures x % (WORD - 1) == 0
  {
    if q != 0 {
      Folds(x - (WORD - 1), q - 1);
    }
  }
}
