/**
  `net_fragment` on the kernel heap (`kernel/dev/net/net.c`): each fragment is put together in a block of its
  own, with a header copied out of the block of the fragment before it, which has been freed by then. What that
  copy finds is decided by the heap.

  The frames are Ethernet frames, for which alone the sender has a header to fill in. No one else allocates or
  frees while the fragments go out.
 */
module FragmentBuffers {

  import opened KernelHeap
  import opened SlabHeap
  import F = IpFragments
  import M = ByteMemory
  import Pmm

  const LINK: nat := 14
  const FRONT: nat := LINK + F.HEADER

  // ----- headers in memory

  function U8(x: int): (r: nat)
    ensures r < 256
  {
    x % 256
  }

  /** The header that twenty bytes are. */
  function Parse(b: seq<int>): F.Inet
    requires |b| == F.HEADER
  {
    F.Inet(U8(b[0]) / 16, U8(b[0]) % 16, Pair(b, 4), Pair(b, 12) + F.WORD * Pair(b, 14),
           Pair(b, 16) + F.WORD * Pair(b, 18), U8(b[9]))
  }

  function Pair(b: seq<int>, i: nat): nat
    requires i + 1 < |b|
  {
    U8(b[i]) + 256 * U8(b[i + 1])
  }

  const NOBODY: F.Inet := F.Inet(0, 0, 0, 0, 0, 0)

  /** The header in the block at `a`. */
  function HeaderAt(m: M.Memory, a: nat): F.Inet
    requires a + FRONT <= |m|
  {
    Parse(m[a + LINK..a + FRONT])
  }

  lemma SameHeader(m: M.Memory, n: M.Memory, a: nat)
    requires a + FRONT <= |m| == |n| && forall i :: a + LINK <= i < a + FRONT ==> n[i] == m[i]
    ensures HeaderAt(n, a) == HeaderAt(m, a)
  {
    assert n[a + LINK..a + FRONT] == m[a + LINK..a + FRONT];
  }

  lemma ZeroHeader(m: M.Memory, a: nat, n: nat)
    requires Zero(m, a, n) && FRONT <= n
    ensures HeaderAt(m, a) == NOBODY
  {
  }

  // ----- the runs that one search after the other takes

  /** The frame bitmap, the cursor, and the number of frames. */
  datatype Frames = Frames(bits: seq<bv8>, last: nat, highest: nat)

  ghost function FramesOf(k: Kernel): Frames
    reads k.pmm, k.pmm.bitmap
  {
    Frames(k.pmm.bitmap[..], k.pmm.last, k.pmm.highest)
  }

  ghost predicate Chosen(fr: Frames, k: nat, page: nat) {
    Pmm.Chosen(fr.bits, k, fr.last, fr.highest, page)
  }

  /** Some run of `k` frames lies wholly above or wholly below the cursor. */
  ghost predicate Served(fr: Frames, k: nat) {
    Pmm.HasRun(fr.bits, k, fr.last, fr.highest) || Pmm.HasRun(fr.bits, k, 0, fr.last)
  }

  /**
    Runs of so many frames are taken and given back one after the other, and none covers the second frame of the
    run before it, where that run's block began. For the first of them this is frame `q`.
   */
  ghost predicate Spared(fr: Frames, q: nat, needs: seq<nat>)
    decreases |needs|
  {
    needs == [] || forall page: nat :: Chosen(fr, needs[0], page) ==>
      !(page < q < page + needs[0]) && Spared(fr.(last := page + needs[0]), page + 1, needs[1..])
  }

  lemma SparedStep(fr: Frames, q: nat, needs: seq<nat>, page: nat)
    requires needs != [] && needs[0] > 0 && Chosen(fr, needs[0], page)
    ensures Spared(fr, q, needs) <==>
              !(page < q < page + needs[0]) && Spared(fr.(last := page + needs[0]), page + 1, needs[1..])
  {
    hide Pmm.Chosen;
    forall p: nat | Chosen(fr, needs[0], p) ensures p == page {
      Pmm.ChosenUnique(fr.bits, needs[0], fr.last, fr.highest, p, page);
    }
  }

  function Total(needs: seq<nat>): nat {
    if needs == [] then 0 else needs[0] + Total(needs[1..])
  }

  /** One stretch of free frames at the cursor spares everything. */
  lemma {:induction false} StretchAhead(fr: Frames, q: nat, needs: seq<nat>)
    requires Pmm.FreeRun(fr.bits, fr.last, fr.last + Total(needs)) && fr.last + Total(needs) <= fr.highest
    requires q <= fr.last && forall k :: k in needs ==> k > 0
    ensures Spared(fr, q, needs)
    decreases |needs|
  {
    hide Pmm.Test;
    if needs != [] {
      var k := needs[0];
      assert k in needs && forall n :: n in needs[1..] ==> n in needs;
      assert Pmm.RunAt(fr.bits, fr.last, k);
      assert Chosen(fr, k, fr.last);
      SparedStep(fr, q, needs, fr.last);
      StretchAhead(fr.(last := fr.last + k), fr.last + 1, needs[1..]);
    }
  }

  // ----- a search that starts over

  /** The first run of all. */
  ghost predicate Lowest(fr: Frames, k: nat, f: nat) {
    Pmm.FirstRun(fr.bits, k, 0, fr.highest, f)
  }

  /** After the run at `p`, the next search takes a run behind it, or else the first of all. */
  lemma AfterRun(fr: Frames, k: nat, p: nat, f: nat) returns (page: nat)
    requires k > 0 && Pmm.RunAt(fr.bits, p, k) && p + k <= fr.highest && Lowest(fr, k, f)
    ensures f <= p && Chosen(fr.(last := p + k), k, page) && Pmm.RunAt(fr.bits, page, k) && page + k <= fr.highest
    ensures if Pmm.HasRun(fr.bits, k, p + k, fr.highest) then p + k <= page else page == f
  {
    hide Pmm.FreeRun;
    assert f <= p;
    if Pmm.HasRun(fr.bits, k, p + k, fr.highest) {
      var r: nat :| p + k <= r && r + k <= fr.highest && Pmm.RunAt(fr.bits, r, k);
      page := FirstRunExists(fr.bits, k, p + k, fr.highest, r);
    } else {
      page := f;
    }
  }

  /** If there is a run, there is a first one. */
  lemma {:induction false} FirstRunExists(bits: seq<bv8>, k: nat, last: nat, highest: nat, p: nat) returns (page: nat)
    requires k > 0 && last <= p && p + k <= highest && Pmm.RunAt(bits, p, k)
    ensures Pmm.FirstRun(bits, k, last, highest, page) && page <= p
    decreases p
  {
    hide Pmm.Test;
    if Pmm.HasRun(bits, k, last, p + k - 1) {
      var q: nat :| last <= q && q + k <= p + k - 1 && Pmm.RunAt(bits, q, k);
      page := FirstRunExists(bits, k, last, highest, q);
    } else {
      page := p;
    }
  }

  function Alike(k: nat, n: nat): (r: seq<nat>)
    ensures |r| == n && forall i :: 0 <= i < n ==> r[i] == k
  {
    seq(n, _ => k)
  }

  lemma AlikeNext(k: nat, n: nat)
    requires n > 0
    ensures Alike(k, n)[0] == k && Alike(k, n)[1..] == Alike(k, n - 1)
  {
  }

  /** `n` more runs after one at `p`. */
  ghost predicate SparedAfter(fr: Frames, k: nat, p: nat, n: nat) {
    Spared(fr.(last := p + k), p + 1, Alike(k, n))
  }

  lemma AfterStep(fr: Frames, k: nat, p: nat, n: nat, page: nat)
    requires k > 0 && n > 0 && Chosen(fr.(last := p + k), k, page)
    ensures SparedAfter(fr, k, p, n) <==> !(page <= p < page + k - 1) && SparedAfter(fr, k, page, n - 1)
  {
    hide Pmm.Chosen;
    AlikeNext(k, n);
    SparedStep(fr.(last := p + k), p + 1, Alike(k, n), page);
  }

  /** A run behind the first of all, and enough distance now, last for ever. */
  lemma {:induction false} RoomForTwo(fr: Frames, k: nat, p: nat, f: nat, n: nat)
    requires k > 0 && Pmm.RunAt(fr.bits, p, k) && p + k <= fr.highest && Lowest(fr, k, f)
    requires Pmm.HasRun(fr.bits, k, f + k, fr.highest)
    requires f + k <= p + 1 || Pmm.HasRun(fr.bits, k, p + k, fr.highest)
    ensures SparedAfter(fr, k, p, n)
    decreases n
  {
    hide Pmm.HasRun, Pmm.RunAt, Pmm.Chosen, Lowest;
    if n > 0 {
      var page := AfterRun(fr, k, p, f);
      AfterStep(fr, k, p, n, page);
      RoomForTwo(fr, k, page, f, n - 1);
    }
  }

  /** The search starts over and covers the block just freed. */
  lemma NoRoom(fr: Frames, k: nat, p: nat, f: nat, n: nat)
    requires n > 0 && k > 0 && Pmm.RunAt(fr.bits, p, k) && p + k <= fr.highest && Lowest(fr, k, f)
    requires !Pmm.HasRun(fr.bits, k, p + k, fr.highest) && p + 1 < f + k
    ensures !SparedAfter(fr, k, p, n)
  {
    hide Pmm.HasRun, Pmm.RunAt, Pmm.Chosen, Lowest;
    var page := AfterRun(fr, k, p, f);
    AfterStep(fr, k, p, n, page);
  }

  /**
    Of `n` equal runs, the first of them at `p`, all are spared if and only if there is but one; or there is
    another run behind `p`; or the first run of all ends low enough below `p`, and there are two in all or
    another run behind that one.
   */
  lemma AlikeSpared(fr: Frames, k: nat, n: nat, p: nat, f: nat)
    requires k > 1 && Chosen(fr, k, p) && fr.last <= fr.highest && Lowest(fr, k, f)
    ensures Spared(fr, 0, Alike(k, n)) <==>
              || n <= 1 || Pmm.HasRun(fr.bits, k, p + k, fr.highest)
              || (f + k <= p + 1 && (n == 2 || Pmm.HasRun(fr.bits, k, f + k, fr.highest)))
  {
    if n > 0 {
      ChosenRun(fr, k, p);
      AlikeNext(k, n);
      SparedStep(fr, 0, Alike(k, n), p);
      assert Spared(fr, 0, Alike(k, n)) <==> SparedAfter(fr, k, p, n - 1);
      if n > 1 {
        AlikeAfter(fr, k, p, n - 1, f);
      }
    }
  }

  lemma ChosenRun(fr: Frames, k: nat, p: nat)
    requires Chosen(fr, k, p) && fr.last <= fr.highest
    ensures Pmm.RunAt(fr.bits, p, k) && p + k <= fr.highest
  {
    hide Pmm.FreeRun;
  }

  lemma AlikeAfter(fr: Frames, k: nat, p: nat, n: nat, f: nat)
    requires n > 0 && k > 1 && Pmm.RunAt(fr.bits, p, k) && p + k <= fr.highest && Lowest(fr, k, f)
    ensures SparedAfter(fr, k, p, n) <==>
              || Pmm.HasRun(fr.bits, k, p + k, fr.highest)
              || (f + k <= p + 1 && (n == 1 || Pmm.HasRun(fr.bits, k, f + k, fr.highest)))
  {
    var page := AfterRun(fr, k, p, f);
    RunBehind(fr, k, p, f);
    hide Pmm.HasRun, Pmm.RunAt, Pmm.Chosen, Lowest, SparedAfter;
    if Pmm.HasRun(fr.bits, k, p + k, fr.highest) || p + 1 < f + k {
      if Pmm.HasRun(fr.bits, k, p + k, fr.highest) {
        RoomForTwo(fr, k, p, f, n);
      } else {
        NoRoom(fr, k, p, f, n);
      }
    } else if Pmm.HasRun(fr.bits, k, f + k, fr.highest) {
      RoomForTwo(fr, k, p, f, n);
    } else {
      AfterStep(fr, k, p, n, page);
      if n == 1 {
        NoneAfter(fr, k, page);
      } else {
        NoRoom(fr, k, page, f, n - 1);
      }
    }
  }

  lemma NoneAfter(fr: Frames, k: nat, p: nat)
    ensures SparedAfter(fr, k, p, 0)
  {
  }

  lemma RunBehind(fr: Frames, k: nat, p: nat, f: nat)
    requires Lowest(fr, k, f) && f <= p
    ensures Pmm.HasRun(fr.bits, k, p + k, fr.highest) ==> Pmm.HasRun(fr.bits, k, f + k, fr.highest)
  {
    hide Pmm.RunAt;
  }

  /** The needs of a datagram: equal ones, but for a last one that may be less. */
  ghost predicate Needed(k: nat, needs: seq<nat>) {
    forall i :: 0 <= i < |needs| ==> 0 < needs[i] <= k && (i < |needs| - 1 ==> needs[i] == k)
  }

  /** Two free runs of the largest need, far enough apart, spare everything. */
  lemma {:induction false} RunsApartSpare(fr: Frames, k: nat, q: nat, needs: seq<nat>, low: nat, high: nat)
    requires Needed(k, needs) && (q == 0 || fr.last == q - 1 + k)
    requires Pmm.RunAt(fr.bits, low, k) && Pmm.RunAt(fr.bits, high, k) && high + k <= fr.highest
    requires low + 2 * k <= high + 2 && low + k <= high
    ensures Spared(fr, q, needs)
    decreases |needs|
  {
    if needs != [] {
      hide Pmm.Test;
      var n := needs[0];
      assert Pmm.RunAt(fr.bits, low, n) && Pmm.RunAt(fr.bits, high, n);
      forall page: nat | Chosen(fr, n, page)
        ensures !(page < q < page + n) && Spared(fr.(last := page + n), page + 1, needs[1..])
      {
        hide Pmm.FreeRun;
        if |needs| > 1 {
          RunsApartSpare(fr.(last := page + n), k, page + 1, needs[1..], low, high);
        }
      }
    }
  }

  // ----- where the freed block lies

  /** A freed run: its pages are nobody's. */
  ghost predicate WasRun(m: M.Memory, b: Book, prev: nat, k: nat) {
    prev % PAGE == 0 && 2 * PAGE <= prev && Fresh(m, b, prev / PAGE - 1, k)
  }

  /** A freed object: the first on the free list of its slab. */
  ghost predicate WasObject(heads: seq<int>, b: Book, prev: nat, c: nat) {
    c < SLABS && c < |heads| && InSlab(b, prev, c) && heads[c] == prev
  }

  /** What a new block touches: pages that were granted and an object, or a run of those pages. */
  ghost predicate Placed(b: Book, t: Book, a: nat, size: nat, page: nat, cap: nat) {
    if size <= 1024 then exists c: nat :: Smallest(c, size) && InSlab(t, a, c) && cap == Ent(c)
    else page != 0 && a == (page + 1) * PAGE && cap == PageCount(size) * PAGE
  }

  /** The new block is a run over the one that was freed. */
  ghost predicate Covers(page: nat, size: nat, prev: nat) {
    1024 < size && page < prev / PAGE < page + Asked(size)
  }

  /** A new run that does not cover the freed one leaves it as it was. */
  lemma RunIntact(m: M.Memory, n: M.Memory, b: Book, prev: nat, k: nat, page: nat, a: nat, size: nat, cap: nat)
    requires WasRun(m, b, prev, k) && prev + FRONT <= |m| && 1024 < size && size + PAGE <= M.WORD_LIMIT
    requires page != prev / PAGE && !Covers(page, size, prev)
    requires Wrote(m, n, page, Asked(size), a, cap) && page != 0
    requires a == (page + 1) * PAGE && cap == PageCount(size) * PAGE
    ensures HeaderAt(n, prev) == HeaderAt(m, prev)
    ensures Apart(prev + LINK, F.HEADER, a, LINK)
  {
    hide PageCount;
    var q := prev / PAGE;
    assert prev == q * PAGE;
    assert q < page || page + Asked(size) <= q;
    SameHeader(m, n, prev);
  }

  /** One that does leaves zeros. */
  lemma RunCovered(n: M.Memory, prev: nat, page: nat, a: nat, size: nat, cap: nat)
    requires prev % PAGE == 0 && Covers(page, size, prev) && Zero(n, a, cap)
    requires a == (page + 1) * PAGE && cap == PageCount(size) * PAGE
    ensures prev + FRONT <= |n| && HeaderAt(n, prev) == NOBODY && Apart(prev + LINK, F.HEADER, a, LINK)
  {
    hide PageCount;
    var q := prev / PAGE;
    assert prev == q * PAGE && a <= prev && prev + PAGE <= a + cap;
  }

  /** An object leaves it as it was, even in a slab page that is made of it. */
  lemma RunBeside(m: M.Memory, n: M.Memory, b: Book, t: Book, prev: nat, k: nat, page: nat, a: nat, c: nat)
    requires WasRun(m, b, prev, k) && 2 <= k && prev + FRONT <= |m| && FRONT <= Ent(c)
    requires Wrote(m, n, page, 1, a, Ent(c)) && Holders(b, t, page, 1) && InSlab(t, a, c)
    ensures HeaderAt(n, prev) == HeaderAt(m, prev) && Apart(prev + LINK, F.HEADER, a, LINK)
  {
    hide Ent;
    var q, o := prev / PAGE, a % PAGE;
    assert q !in b.owner;
    assert a == a / PAGE * PAGE + o && prev == q * PAGE;
    SameHeader(m, n, prev);
  }

  /** A block that is not of its slab leaves a freed object as it was, but for its first word. */
  lemma ObjectIntact(m: M.Memory, n: M.Memory, heads: seq<int>, b: Book, t: Book, prev: nat, c: nat,
                     page: nat, a: nat, size: nat, cap: nat)
    requires WasObject(heads, b, prev, c) && FRONT <= Ent(c) && prev + FRONT <= |m|
    requires SlabHeap.Grant(m, b, page, Asked(size)) && !Smallest(c, size)
    requires Wrote(m, n, page, Asked(size), a, cap) && Extends(b, t) && Placed(b, t, a, size, page, cap)
    ensures HeaderAt(n, prev) == HeaderAt(m, prev) && Apart(prev + LINK, F.HEADER, a, LINK)
  {
    hide Slot, Ent, Smallest, PageCount;
    var q := prev / PAGE;
    SlotNotAligned(prev, c);
    assert q in b.owner && t.owner[q] == SlabPage(c);
    assert page == 0 || !(page <= q < page + Asked(size));
    if size <= 1024 {
      var d: nat :| Smallest(d, size) && InSlab(t, a, d) && cap == Ent(d);
      SlotNotAligned(a, d);
      assert a / PAGE != q;
    }
    SameHeader(m, n, prev);
  }

  /** An object of the same slab is the freed object, zeroed. */
  lemma ObjectTaken(m: M.Memory, b: Book, n: M.Memory, t: Book, prev: nat, size: nat)
    requires NewBlock(m, b, n, t, prev, size) && FRONT <= size
    ensures prev + FRONT <= |n| && HeaderAt(n, prev) == NOBODY && Apart(prev + LINK, F.HEADER, prev, LINK)
  {
    ZeroHeader(n, prev, t.live[prev].cap);
  }

  // ----- one fragment

  function Size(cop: nat): nat {
    FRONT + cop
  }

  /** The job is for an Ethernet adapter, and its header is the one in its frame. */
  ghost predicate Ethernet(job: F.Job) {
    && job.link == LINK && F.Sendable(job)
    && job.header == Parse(job.buffer[LINK..FRONT]) && F.HeaderCounts(job.header, F.KeyOf(job.header))
  }

  /** The frame to be cut up lies in a live block. */
  ghost predicate Holds(m: M.Memory, b: Book, src: nat, buffer: F.Bytes) {
    && src in b.live && |buffer| <= b.live[src].cap && src + b.live[src].cap <= |m|
    && m[src..src + |buffer|] == buffer
  }

  lemma HoldsFits(m: M.Memory, b: Book, src: nat, buffer: F.Bytes)
    requires Holds(m, b, src, buffer)
    ensures src in b.live && src + |buffer| <= |m| && src + b.live[src].cap <= |m|
  {
  }

  lemma HoldsKept(m: M.Memory, b: Book, n: M.Memory, t: Book, src: nat, buffer: F.Bytes, live: map<nat, Block>)
    requires Holds(m, b, src, buffer) && Kept(m, n, live) && src in live && live[src] == b.live[src]
    requires src in t.live && t.live[src] == b.live[src]
    ensures Holds(n, t, src, buffer)
  {
    var cap := b.live[src].cap;
    forall i | 0 <= i < |buffer| ensures n[src + i] == buffer[i] {
      assert n[src..src + cap][i] == m[src..src + cap][i];
      assert m[src..src + |buffer|][i] == buffer[i];
    }
    assert n[src..src + |buffer|] == buffer;
  }

  function Words(b: seq<int>): (r: seq<int>)
    requires |b| == F.HEADER
    ensures |r| == 10 && forall i :: 0 <= i < |r| ==> 0 <= r[i] < F.WORD
  {
    seq(10, i requires 0 <= i < 10 => Pair(b, 2 * i))
  }

  /** Length, fragment field and checksum, which `Parse` does not read. */
  predicate StampAt(i: int) {
    2 <= i < 4 || 6 <= i < 8 || 10 <= i < 12
  }

  lemma Stamped(m: M.Memory, n: M.Memory, a: nat)
    requires a + FRONT <= |m| == |n|
    requires forall i :: 0 <= i < F.HEADER && !StampAt(i) ==> n[a + LINK + i] == m[a + LINK + i]
    ensures HeaderAt(n, a) == HeaderAt(m, a)
  {
    var h, g := m[a + LINK..a + FRONT], n[a + LINK..a + FRONT];
    assert forall i :: 0 <= i < F.HEADER && !StampAt(i) ==> g[i] == h[i];
    assert !StampAt(0) && !StampAt(4) && !StampAt(5) && !StampAt(9);
    assert !StampAt(12) && !StampAt(13) && !StampAt(14) && !StampAt(15);
    assert !StampAt(16) && !StampAt(17) && !StampAt(18) && !StampAt(19);
  }

  function BigEndian(v: nat): seq<int> {
    [v / 256 % 256, v % 256]
  }

  function Swapped(b: seq<int>, i: nat): nat
    requires i + 1 < |b|
  {
    256 * U8(b[i]) + U8(b[i + 1])
  }

  /** A fragment as it is read from its bytes, of which the header says how many there are. */
  ghost function Wire(b: seq<int>): F.Frag
    requires F.HEADER <= |b|
  {
    var field, len := Swapped(b, 6), Swapped(b, 2);
    F.Frag(Parse(b[..F.HEADER]), field % 0x2000, field / 0x2000 % 2 == 1,
           if F.HEADER <= len <= |b| then b[F.HEADER..len] else [])
  }

  /** The header's checksum is what the receiver computes with the field set to zero. */
  ghost predicate SumOk(b: seq<int>)
    requires F.HEADER <= |b|
  {
    Pair(b, 10) == F.ChecksumOf(Words(b[..10] + [0, 0] + b[12..F.HEADER]))
  }

  /** The fields of the header that differ from fragment to fragment are these. */
  ghost predicate Stamps(h: seq<int>, cop: nat, tmp: nat)
    requires |h| == F.HEADER
  {
    Swapped(h, 2) == cop + F.HEADER && Swapped(h, 6) == tmp && SumOk(h)
  }

  /** The fields of the header that differ from fragment to fragment. */
  method Stamp(heap: Heap, buf: nat, cop: nat, tmp: nat)
    requires heap.Valid() && buf in heap.book.live && FRONT <= heap.book.live[buf].cap
    requires cop <= F.MOST && tmp < F.WORD
    modifies heap`mem
    ensures heap.Valid() && buf + FRONT <= |heap.mem| == |old(heap.mem)|
    ensures HeaderAt(heap.mem, buf) == HeaderAt(old(heap.mem), buf)
    ensures Stamps(heap.mem[buf + LINK..buf + FRONT], cop, tmp)
    ensures Outside(old(heap.mem), heap.mem, buf + LINK, F.HEADER)
    ensures Kept(old(heap.mem), heap.mem, heap.book.live - {buf})
  {
    hide Inv, Kept, M.Put, Stamps, Words;
    ghost var m := heap.mem;
    ghost var others := heap.book.live - {buf};
    LiveFits(heap.mem, heap.heads, heap.book);
    heap.Write(buf, LINK + 6, BigEndian(tmp));
    ghost var m1 := heap.mem;
    heap.Write(buf, LINK + 2, BigEndian(cop + F.HEADER));
    ghost var m2 := heap.mem;
    KeptTrans(m, m1, m2, others);
    heap.Write(buf, LINK + 10, [0, 0]);
    ghost var m3 := heap.mem;
    KeptTrans(m, m2, m3, others);
    var csum := F.Checksum(Words(heap.mem[buf + LINK..buf + FRONT]));
    heap.Write(buf, LINK + 10, [csum % 256, csum / 256]);
    KeptTrans(m, m3, heap.mem, others);
    Stamped(m, heap.mem, buf);
    StampedFields(m2, m3, heap.mem, buf, cop, tmp, csum);
  }

  lemma StampedFields(m: M.Memory, n: M.Memory, k: M.Memory, a: nat, cop: nat, tmp: nat, csum: nat)
    requires a + FRONT <= |m| == |n| == |k| && cop <= F.MOST && tmp < F.WORD && csum < F.WORD
    requires m[a + LINK + 2] == BigEndian(cop + F.HEADER)[0] && m[a + LINK + 3] == BigEndian(cop + F.HEADER)[1]
    requires m[a + LINK + 6] == BigEndian(tmp)[0] && m[a + LINK + 7] == BigEndian(tmp)[1]
    requires n == M.Put(m, a + LINK + 10, [0, 0]) && csum == F.ChecksumOf(Words(n[a + LINK..a + FRONT]))
    requires k == M.Put(n, a + LINK + 10, [csum % 256, csum / 256])
    ensures Stamps(k[a + LINK..a + FRONT], cop, tmp)
  {
    hide Words, BigEndian;
    var h, g := k[a + LINK..a + FRONT], n[a + LINK..a + FRONT];
    assert h[..10] + [0, 0] + h[12..F.HEADER] == g;
    BigEndianBack(cop + F.HEADER);
    BigEndianBack(tmp);
    assert h[2] == m[a + LINK + 2] && h[3] == m[a + LINK + 3] && h[6] == m[a + LINK + 6] && h[7] == m[a + LINK + 7];
    assert h[10] == csum % 256 && h[11] == csum / 256;
  }

  lemma BigEndianBack(v: nat)
    requires v < F.WORD
    ensures |BigEndian(v)| == 2 && 256 * U8(BigEndian(v)[0]) + U8(BigEndian(v)[1]) == v
  {
  }

  lemma PutThere(m: M.Memory, a: nat, bytes: seq<int>)
    requires a + |bytes| <= |m|
    ensures M.Put(m, a, bytes)[a..a + |bytes|] == bytes
  {
  }

  lemma PutApart(m: M.Memory, a: nat, bytes: seq<int>, x: nat, len: nat)
    requires a + |bytes| <= |m| && x + len <= |m| && Apart(x, len, a, |bytes|)
    ensures M.Put(m, a, bytes)[x..x + len] == m[x..x + len]
  {
  }

  lemma HeldSlice(m: M.Memory, b: Book, src: nat, buffer: F.Bytes, poff: nat, cop: nat)
    requires Holds(m, b, src, buffer) && poff + cop <= |buffer|
    ensures m[src + poff..src + poff + cop] == buffer[poff..poff + cop]
  {
    var part := m[src + poff..src + poff + cop];
    forall i | 0 <= i < cop ensures part[i] == buffer[poff..poff + cop][i] {
      assert m[src..src + |buffer|][poff + i] == m[src + (poff + i)] == part[i];
    }
  }

  /** The first two copies: the link layer out of the frame, the header from where the last one was. */
  method ComposeFront(heap: Heap, src: nat, from: nat, buf: nat)
    requires heap.Valid() && buf in heap.book.live && FRONT <= heap.book.live[buf].cap
    requires src + LINK <= |heap.mem| && from + FRONT <= |heap.mem|
    requires Apart(from + LINK, F.HEADER, buf, LINK)
    modifies heap`mem
    ensures heap.Valid() && buf + FRONT <= |heap.mem| == |old(heap.mem)|
    ensures heap.mem[buf + LINK..buf + FRONT] == old(heap.mem)[from + LINK..from + FRONT]
    ensures Outside(old(heap.mem), heap.mem, buf, FRONT)
    ensures Kept(old(heap.mem), heap.mem, heap.book.live - {buf})
  {
    hide Inv, Kept, M.Put;
    ghost var m := heap.mem;
    LiveFits(heap.mem, heap.heads, heap.book);
    var link := heap.mem[src..src + LINK];
    heap.Write(buf, 0, link);
    ghost var n := heap.mem;
    PutApart(m, buf, link, from + LINK, F.HEADER);
    var header := heap.mem[from + LINK..from + FRONT];
    heap.Write(buf, LINK, header);
    KeptTrans(m, n, heap.mem, heap.book.live - {buf});
    PutThere(n, buf + LINK, header);
  }

  /** And the third: the payload out of the frame. */
  method Compose(heap: Heap, src: nat, from: nat, buf: nat, poff: nat, cop: nat, ghost buffer: F.Bytes)
    requires heap.Valid() && Holds(heap.mem, heap.book, src, buffer) && FRONT <= |buffer| && poff + cop <= |buffer|
    requires buf in heap.book.live && buf != src && Size(cop) <= heap.book.live[buf].cap
    requires from + FRONT <= |heap.mem|
    requires Apart(from + LINK, F.HEADER, buf, LINK)
    modifies heap`mem
    ensures heap.Valid() && |heap.mem| == |old(heap.mem)| && buf + Size(cop) <= |heap.mem|
    ensures HeaderAt(heap.mem, buf) == HeaderAt(old(heap.mem), from)
    ensures heap.mem[buf + FRONT..buf + Size(cop)] == buffer[poff..poff + cop]
    ensures Kept(old(heap.mem), heap.mem, heap.book.live - {buf})
  {
    hide Inv, Kept, M.Put, Parse, Holds, Outside;
    ghost var m := heap.mem;
    HoldsFits(m, heap.book, src, buffer);
    LiveFits(heap.mem, heap.heads, heap.book);
    ComposeFront(heap, src, from, buf);
    ghost var n := heap.mem;
    HoldsKept(m, heap.book, n, heap.book, src, buffer, heap.book.live - {buf});
    HeldSlice(n, heap.book, src, buffer, poff, cop);
    var data := heap.mem[src + poff..src + poff + cop];
    heap.Write(buf, FRONT, data);
    KeptTrans(m, n, heap.mem, heap.book.live - {buf});
    PutApart(n, buf + FRONT, data, buf + LINK, F.HEADER);
    PutThere(n, buf + FRONT, data);
  }

  /** The block of a full fragment, freed. */
  ghost predicate Prev(m: M.Memory, heads: seq<int>, b: Book, full: nat, prev: nat) {
    && prev + FRONT <= |m|
    && if full <= 1024 then exists c: nat :: Smallest(c, full) && WasObject(heads, b, prev, c)
       else WasRun(m, b, prev, Asked(full))
  }

  ghost predicate SameSlab(x: nat, y: nat) {
    exists c: nat :: Smallest(c, x) && Smallest(c, y)
  }

  /** The new block lies over the one that was freed: an object of the same slab, or a run that covers its run. */
  ghost predicate Overlaid(full: nat, size: nat, prev: nat, page: nat) {
    if full <= 1024 then SameSlab(full, size) else Covers(page, size, prev)
  }

  /** The header a fragment gets: its predecessor's, or nobody's if its block lies over that one's. */
  ghost function HeaderFound(m: M.Memory, full: nat, size: nat, prev: nat, page: nat): F.Inet
    requires prev + FRONT <= |m|
  {
    if Overlaid(full, size, prev, page) then NOBODY else HeaderAt(m, prev)
  }

  /** What the copy of a header finds after the new block was allocated. */
  lemma Found(m: M.Memory, n: M.Memory, heads: seq<int>, b: Book, t: Book, full: nat, prev: nat,
              page: nat, a: nat, size: nat)
    requires Prev(m, heads, b, full, prev) && FRONT <= size && size + PAGE <= M.WORD_LIMIT
    requires FRONT <= full && full + PAGE <= M.WORD_LIMIT && (1024 < full && 1024 < size ==> page != prev / PAGE)
    requires NewBlock(m, b, n, t, a, size) && SlabHeap.Grant(m, b, page, Asked(size))
    requires Wrote(m, n, page, Asked(size), a, t.live[a].cap) && Holders(b, t, page, Asked(size)) && Extends(b, t)
    requires Placed(b, t, a, size, page, t.live[a].cap)
    requires forall c: nat :: Smallest(c, size) && c < |heads| && heads[c] != 0 ==> a == heads[c]
    ensures |n| == |m| && HeaderAt(n, prev) == HeaderFound(m, full, size, prev, page)
    ensures Apart(prev + LINK, F.HEADER, a, LINK)
  {
    hide Wrote, Extends, Holders, Slot, Ent, PageCount, HeaderAt, Fresh, Zero, Covers;
    assert |n| == |m| by { WroteSize(m, n, page, Asked(size), a, t.live[a].cap); }
    if full <= 1024 {
      var c: nat :| Smallest(c, full) && WasObject(heads, b, prev, c);
      OneSmallest(full);
      OneSmallest(size);
      SlotNotAligned(prev, c);
      if Smallest(c, size) {
        ObjectTaken(m, b, n, t, prev, size);
      } else {
        ObjectIntact(m, n, heads, b, t, prev, c, page, a, size, t.live[a].cap);
      }
    } else {
      FoundRun(m, n, b, t, full, prev, page, a, size);
    }
  }

  lemma FoundRun(m: M.Memory, n: M.Memory, b: Book, t: Book, full: nat, prev: nat, page: nat, a: nat, size: nat)
    requires 1024 < full && full + PAGE <= M.WORD_LIMIT && prev + FRONT <= |m| && WasRun(m, b, prev, Asked(full))
    requires FRONT <= size && size + PAGE <= M.WORD_LIMIT && (1024 < size ==> page != prev / PAGE)
    requires NewBlock(m, b, n, t, a, size) && |n| == |m|
    requires Wrote(m, n, page, Asked(size), a, t.live[a].cap) && Holders(b, t, page, Asked(size))
    requires Placed(b, t, a, size, page, t.live[a].cap)
    ensures HeaderAt(n, prev) == HeaderFound(m, full, size, prev, page)
    ensures Apart(prev + LINK, F.HEADER, a, LINK)
  {
    hide Wrote, Holders, Slot, Ent, PageCount, HeaderAt, Fresh, Zero;
    if 1024 < size {
      if Covers(page, size, prev) {
        RunCovered(n, prev, page, a, size, t.live[a].cap);
      } else {
        RunIntact(m, n, b, prev, Asked(full), page, a, size, t.live[a].cap);
      }
    } else {
      var c: nat :| Smallest(c, size) && InSlab(t, a, c) && t.live[a].cap == Ent(c);
      PageCountFits(full);
      RunBeside(m, n, b, t, prev, Asked(full), page, a, c);
    }
  }

  lemma WroteSize(m: M.Memory, n: M.Memory, page: nat, k: nat, a: nat, cap: nat)
    requires Wrote(m, n, page, k, a, cap)
    ensures |n| == |m|
  {
  }

  /** A block just freed is what `Prev` says. */
  lemma Freed(m: M.Memory, n: M.Memory, heads: seq<int>, b: Book, hs: seq<int>, t: Book, buf: nat, size: nat,
              page: nat)
    requires buf in b.live && buf + FRONT <= |m| == |n| && buf != 0
    requires Placed(b, b, buf, size, page, b.live[buf].cap)
    requires buf % PAGE == 0 ==> n == m && PAGE <= buf && Fresh(n, t, buf / PAGE - 1, b.live[buf].cap / PAGE + 1)
    requires buf % PAGE != 0 ==>
      && buf / PAGE in b.owner && b.owner[buf / PAGE].SlabPage?
      && var c := b.owner[buf / PAGE].slab;
         c < |heads| && hs == heads[c := buf] && Outside(m, n, buf, 8) && t.owner == b.owner
    ensures Prev(n, hs, t, size, buf) && HeaderAt(n, buf) == HeaderAt(m, buf)
  {
    hide Slot, Ent, PageCount, HeaderAt;
    if size <= 1024 {
      var c: nat :| Smallest(c, size) && InSlab(b, buf, c) && b.live[buf].cap == Ent(c);
      SlotNotAligned(buf, c);
      assert WasObject(hs, t, buf, c);
      SameHeader(m, n, buf);
    }
  }

  lemma SourceKept(m: M.Memory, b: Book, n: M.Memory, src: nat, buffer: F.Bytes)
    requires Holds(m, b, src, buffer) && Kept(m, n, b.live) && FRONT <= |buffer|
    ensures |n| == |m| && HeaderAt(n, src) == HeaderAt(m, src) == Parse(buffer[LINK..FRONT])
  {
    HoldsKept(m, b, n, b, src, buffer, b.live);
    HeldSlice(m, b, src, buffer, LINK, F.HEADER);
    HeldSlice(n, b, src, buffer, LINK, F.HEADER);
  }

  /** The block is filled, and this is what the adapter is given. */
  method Build(heap: Heap, src: nat, from: nat, buf: nat, poff: nat, cop: nat, fragoff: nat, last: bool,
               ghost buffer: F.Bytes)
    returns (f: F.Frag)
    requires heap.Valid() && Holds(heap.mem, heap.book, src, buffer) && FRONT <= |buffer| && poff + cop <= |buffer|
    requires buf in heap.book.live && buf != src && Size(cop) <= heap.book.live[buf].cap && cop <= F.MOST
    requires from + FRONT <= |heap.mem|
    requires Apart(from + LINK, F.HEADER, buf, LINK)
    modifies heap`mem
    ensures heap.Valid() && buf + Size(cop) <= |heap.mem| == |old(heap.mem)|
    ensures Wire(heap.mem[buf + LINK..buf + Size(cop)]) == f && SumOk(heap.mem[buf + LINK..buf + Size(cop)])
    ensures f == F.Frag(HeaderAt(old(heap.mem), from), fragoff % 0x2000, !last, buffer[poff..poff + cop])
    ensures HeaderAt(heap.mem, buf) == f.header
    ensures Kept(old(heap.mem), heap.mem, heap.book.live - {buf})
  {
    hide Inv, Kept, HeaderAt, Holds;
    ghost var m := heap.mem;
    Compose(heap, src, from, buf, poff, cop, buffer);
    ghost var n := heap.mem;
    var flags := 0x2000;
    if last {
      flags := 0;
    }
    Stamp(heap, buf, cop, fragoff % 0x2000 + flags);
    KeptTrans(m, n, heap.mem, heap.book.live - {buf});
    f := F.Frag(HeaderAt(heap.mem, buf), fragoff % 0x2000, !last, heap.mem[buf + FRONT..buf + Size(cop)]);
    assert f.data == n[buf + FRONT..buf + Size(cop)];
    WireIs(heap.mem, buf, cop, fragoff % 0x2000 + flags);
  }

  /** What is in the block is read as that fragment. */
  lemma WireIs(m: M.Memory, buf: nat, cop: nat, tmp: nat)
    requires buf + Size(cop) <= |m| && Stamps(m[buf + LINK..buf + FRONT], cop, tmp)
    ensures var b := m[buf + LINK..buf + Size(cop)];
            && Wire(b) == F.Frag(HeaderAt(m, buf), tmp % 0x2000, tmp / 0x2000 % 2 == 1, m[buf + FRONT..buf + Size(cop)])
            && SumOk(b)
  {
    hide Parse, Words;
    var b, h := m[buf + LINK..buf + Size(cop)], m[buf + LINK..buf + FRONT];
    assert b[..F.HEADER] == h && b[F.HEADER..cop + F.HEADER] == m[buf + FRONT..buf + Size(cop)];
    assert b[..10] + [0, 0] + b[12..F.HEADER] == h[..10] + [0, 0] + h[12..F.HEADER];
    assert b[2] == h[2] && b[3] == h[3] && b[6] == h[6] && b[7] == h[7] && b[10] == h[10] && b[11] == h[11];
  }

  /** What a round does to the frames: a run is taken and given back, or a slab gets a frame and keeps it. */
  ghost predicate Round(fr: Frames, to: Frames, size: nat, page: nat) {
    if 1024 < size then
      && Chosen(fr, Asked(size), page) && Pmm.FreeRun(fr.bits, page, page + Asked(size))
      && page + Asked(size) <= fr.highest && to == fr.(last := page + Asked(size))
    else if page == 0 then to == fr
    else to.highest == fr.highest && to.last <= fr.highest && Pmm.Marked(fr.bits, to.bits, page, page + 1)
  }

  /** Giving a block back clears what its allocation marked. */
  lemma RoundBits(b: Book, fr: Frames, mid: Frames, now: seq<bv8>, a: nat, size: nat, page: nat)
    requires a in b.live && Returned(b, mid.bits, now, a) && Placed(b, b, a, size, page, b.live[a].cap)
    requires Granted(fr.bits, mid.bits, fr.last, mid.last, fr.highest, page, Asked(size)) && mid.highest == fr.highest
    ensures Round(fr, mid.(bits := now), size, page) && (1024 < size ==> a == (page + 1) * PAGE)
  {
    hide Pmm.Test, Slot, Ent, PageCount, Pmm.FreeRun, Pmm.Marked, Pmm.Cleared, Pmm.Chosen;
    if size <= 1024 {
      var c: nat :| Smallest(c, size) && InSlab(b, a, c) && b.live[a].cap == Ent(c);
      SlotNotAligned(a, c);
    } else {
      assert a / PAGE - 1 == page && b.live[a].cap / PAGE == PageCount(size);
      Pmm.AllocFree(fr.bits, mid.bits, now, page, page + Asked(size));
    }
  }

  /** The block goes back, and a later round finds its header. */
  method Release(k: Kernel, buf: nat, ghost size: nat, ghost page: nat, ghost fr: Frames)
    requires k.Valid() && buf in k.heap.book.live && buf != 0 && buf + FRONT <= |k.heap.mem|
    requires Placed(k.heap.book, k.heap.book, buf, size, page, k.heap.book.live[buf].cap)
    requires Granted(fr.bits, k.pmm.bitmap[..], fr.last, k.pmm.last, fr.highest, page, Asked(size))
    requires fr.highest == k.pmm.highest
    modifies k.heap, k.pmm.bitmap
    ensures k.Valid() && k.heap.book.live == old(k.heap.book.live) - {buf}
    ensures Kept(old(k.heap.mem), k.heap.mem, k.heap.book.live)
    ensures Round(fr, FramesOf(k), size, page) && (1024 < size ==> buf == (page + 1) * PAGE)
    ensures Prev(k.heap.mem, k.heap.heads, k.heap.book, size, buf)
    ensures HeaderAt(k.heap.mem, buf) == HeaderAt(old(k.heap.mem), buf)
  {
    hide Inv, Kept, HeaderAt, Pmm.Test, Placed, Prev, Outside, Fresh, Granted, Round;
    ghost var m, hs, b, mid := k.heap.mem, k.heap.heads, k.heap.book, FramesOf(k);
    k.Free(buf);
    SizeKept(m, k.heap.mem, k.heap.book.live);
    Freed(m, k.heap.mem, hs, b, k.heap.heads, k.heap.book, buf, size, page);
    RoundBits(b, fr, mid, k.pmm.bitmap[..], buf, size, page);
  }

  lemma SizeKept(m: M.Memory, n: M.Memory, live: map<nat, Block>)
    requires Kept(m, n, live)
    ensures |n| == |m|
  {
  }

  /** The header that the next fragment will get. */
  ghost function NextHeader(m: M.Memory, job: F.Job, full: nat, size: nat, src: nat, prev: nat, page: nat): F.Inet
    requires prev + FRONT <= |m| && FRONT <= |job.buffer|
  {
    if prev == src then Parse(job.buffer[LINK..FRONT]) else HeaderFound(m, full, size, prev, page)
  }

  /** The run given back last ends at the cursor. */
  ghost predicate Behind(fr: Frames, prev: nat, k: nat) {
    && PAGE <= prev && fr.last == prev / PAGE - 1 + k && fr.last <= fr.highest
    && Pmm.FreeRun(fr.bits, prev / PAGE - 1, fr.last)
  }

  /** So the next one never begins in its second frame. */
  lemma NotInside(fr: Frames, prev: nat, k: nat, n: nat, page: nat)
    requires Behind(fr, prev, k) && 1 < k && 0 < n && Chosen(fr, n, page)
    ensures page != prev / PAGE
  {
    hide Pmm.Test;
    if n <= k {
      assert Pmm.RunAt(fr.bits, prev / PAGE - 1, n);
    }
  }

  lemma AskedSome(size: nat)
    requires size + PAGE <= M.WORD_LIMIT
    ensures 1 <= Asked(size) && (1024 < size ==> 2 <= Asked(size))
  {
  }

  /** The next block; the header to be copied is what `NextHeader` says. */
  method Next(k: Kernel, job: F.Job, src: nat, prev: nat, size: nat, ghost full: nat)
    returns (buf: nat, ghost page: nat)
    requires k.Valid() && Holds(k.heap.mem, k.heap.book, src, job.buffer) && FRONT <= |job.buffer|
    requires FRONT <= size && size + PAGE <= M.WORD_LIMIT && FRONT <= full && full + PAGE <= M.WORD_LIMIT
    requires Asks(k.heap, size, Asked(size)) ==> Served(FramesOf(k), Asked(size))
    requires prev != src ==> Prev(k.heap.mem, k.heap.heads, k.heap.book, full, prev)
    requires prev != src && 1024 < full ==> Behind(FramesOf(k), prev, Asked(full))
    modifies k.heap, k.pmm, k.pmm.bitmap
    ensures k.Valid() && buf != 0 && buf != src && prev + FRONT <= |k.heap.mem| == |old(k.heap.mem)|
    ensures NewBlock(old(k.heap.mem), old(k.heap.book), k.heap.mem, k.heap.book, buf, size)
    ensures Holds(k.heap.mem, k.heap.book, src, job.buffer)
    ensures HeaderAt(k.heap.mem, prev) == NextHeader(old(k.heap.mem), job, full, size, src, prev, page)
    ensures Apart(prev + LINK, F.HEADER, buf, LINK)
    ensures Placed(k.heap.book, k.heap.book, buf, size, page, k.heap.book.live[buf].cap)
    ensures Granted(old(k.pmm.bitmap[..]), k.pmm.bitmap[..], old(k.pmm.last), k.pmm.last, k.pmm.highest, page,
                    Asked(size))
    ensures forall c: nat :: Smallest(c, size) && c < |old(k.heap.heads)| && old(k.heap.heads)[c] != 0 ==> page == 0
  {
    hide Inv, Kept, Parse, Pmm.Test, Pmm.HasRun, Pmm.FirstRun, Prev, Wrote, Extends, Holders, Holds, Slot, Ent;
    hide HeaderAt, PageCount, Pmm.FreeRun, Outside, Fresh, Zero, HeaderFound, Behind, Pmm.Chosen, Pmm.Marked;
    ghost var m, b, fr := k.heap.mem, k.heap.book, FramesOf(k);
    HoldsFits(m, b, src, job.buffer);
    assert 1024 < size ==> Asks(k.heap, size, Asked(size));
    buf, page := k.Alloc(size);
    ghost var n, t := k.heap.mem, k.heap.book;
    HoldsKept(m, b, n, t, src, job.buffer, b.live);
    AllocPlaced(b, t, buf, size, page);
    PlacedAnyway(b, t, buf, size, page, t.live[buf].cap);
    if prev == src {
      SourceKept(m, b, n, src, job.buffer);
      LiveApart(n, k.heap.heads, t, src, buf);
    } else {
      PrevFits(m, old(k.heap.heads), b, full, prev);
      if 1024 < size && 1024 < full {
        AskedSome(size);
        AskedSome(full);
        NotInside(fr, prev, Asked(full), Asked(size), page);
      }
      Found(m, n, old(k.heap.heads), b, t, full, prev, page, buf, size);
    }
  }

  lemma PlacedAnyway(b: Book, t: Book, a: nat, size: nat, page: nat, cap: nat)
    requires Placed(b, t, a, size, page, cap)
    ensures Placed(t, t, a, size, page, cap)
  {
  }

  lemma PrevFits(m: M.Memory, heads: seq<int>, b: Book, full: nat, prev: nat)
    requires Prev(m, heads, b, full, prev)
    ensures prev + FRONT <= |m|
  {
  }

  /** One round of the loop. The first header comes out of the frame (`prev == src`). */
  method SendOne(k: Kernel, job: F.Job, src: nat, prev: nat, poff: nat, cop: nat, fragoff: nat, last: bool,
                 ghost full: nat)
    returns (buf: nat, f: F.Frag, ghost page: nat)
    requires k.Valid() && Holds(k.heap.mem, k.heap.book, src, job.buffer) && FRONT <= |job.buffer|
    requires 0 < cop <= F.MOST && poff + cop <= |job.buffer| && Size(cop) + PAGE <= M.WORD_LIMIT
    requires FRONT <= full && full + PAGE <= M.WORD_LIMIT
    requires Asks(k.heap, Size(cop), Asked(Size(cop))) ==> Served(FramesOf(k), Asked(Size(cop)))
    requires prev != src ==> Prev(k.heap.mem, k.heap.heads, k.heap.book, full, prev)
    requires prev != src && 1024 < full ==> Behind(FramesOf(k), prev, Asked(full))
    modifies k.heap, k.pmm, k.pmm.bitmap
    ensures k.Valid() && k.heap.book.live == old(k.heap.book.live)
    ensures Kept(old(k.heap.mem), k.heap.mem, k.heap.book.live)
    ensures Holds(k.heap.mem, k.heap.book, src, job.buffer) && buf != src && prev + FRONT <= |old(k.heap.mem)|
    ensures var h := NextHeader(old(k.heap.mem), job, full, Size(cop), src, prev, page);
            f == F.Frag(h, fragoff % 0x2000, !last, job.buffer[poff..poff + cop])
    ensures Round(old(FramesOf(k)), FramesOf(k), Size(cop), page) && (1024 < Size(cop) ==> buf == (page + 1) * PAGE)
    ensures Prev(k.heap.mem, k.heap.heads, k.heap.book, Size(cop), buf)
    ensures HeaderAt(k.heap.mem, buf) == f.header
    ensures forall c: nat :: Smallest(c, Size(cop)) && c < |old(k.heap.heads)| && old(k.heap.heads)[c] != 0 ==>
              page == 0
  {
    hide Inv, Kept, Placed, Prev, Holds, HeaderAt, NextHeader, Apart, Zero, Pmm.Test, Accounted, Granted, Round, Behind;
    hide Served, Smallest, Asks;
    ghost var m, b, fr := k.heap.mem, k.heap.book, FramesOf(k);
    ghost var live: map<nat, Block> := b.live;
    HoldsFits(m, b, src, job.buffer);
    buf, page := Next(k, job, src, prev, Size(cop), full);
    ghost var n := k.heap.mem;
    assert k.heap.book.live - {buf} == live;
    f := Build(k.heap, src, prev, buf, poff, cop, fragoff, last, job.buffer);
    ghost var filled := k.heap.mem;
    KeptTrans(m, n, filled, live);
    Release(k, buf, Size(cop), page, fr);
    KeptTrans(m, filled, k.heap.mem, live);
    HoldsKept(m, b, k.heap.mem, k.heap.book, src, job.buffer, live);
  }

  lemma AllocPlaced(b: Book, t: Book, a: nat, size: nat, page: nat)
    requires if size <= 1024 then InSmallest(t, a, size)
             else a in t.live && page != 0 && a == (page + 1) * PAGE && t.live[a].cap == PageCount(size) * PAGE
    ensures a in t.live && Placed(b, t, a, size, page, t.live[a].cap)
  {
  }

  // ----- the whole datagram

  /** The blocks of the fragments still to come. */
  function Sizes(job: F.Job, left: nat): (r: seq<nat>)
    requires job.Valid()
    ensures left > 0 ==> r != [] && r[0] == Size(if left <= job.Room() then left else job.Chunk())
  {
    if left == 0 then [] else if left <= job.Room() then [Size(left)]
    else [Size(job.Chunk())] + Sizes(job, left - job.Chunk())
  }

  /** The runs of frames among the blocks. */
  function RunsOf(sizes: seq<nat>): seq<nat> {
    if sizes == [] then [] else (if 1024 < sizes[0] then [Asked(sizes[0])] else []) + RunsOf(sizes[1..])
  }

  /** The bytes in the last fragment. */
  function LastLength(job: F.Job, left: nat): nat
    requires job.Valid()
  {
    if left <= job.Room() then left else LastLength(job, left - job.Chunk())
  }

  /** The block of a full fragment. */
  function Full(job: F.Job): nat
    requires job.Valid()
  {
    Size(job.Chunk())
  }

  /** The job with the headers that were really found in the freed blocks. */
  function Actual(job: F.Job, sent: seq<F.Frag>): F.Job {
    job.(stale := (j: nat) => if j < |sent| then sent[j].header else job.header)
  }

  /** The fragments are those of the job but for their headers. */
  ghost predicate SameBodies(sent: seq<F.Frag>, plain: seq<F.Frag>) {
    |sent| == |plain| && forall i :: 0 <= i < |sent| ==> sent[i] == plain[i].(header := sent[i].header)
  }

  lemma ActualFragments(job: F.Job, sent: seq<F.Frag>)
    requires F.Sendable(job) && SameBodies(sent, F.Fragments(job)) && sent != [] && sent[0].header == job.header
    ensures sent == F.Fragments(Actual(job, sent))
  {
    hide F.Sent;
    var actual := Actual(job, sent);
    var a, b := F.Fragments(job), F.Fragments(actual);
    F.SentHeaders(job, actual, |job.buffer| - job.link - F.HEADER, job.link + F.HEADER, 0, 0);
    forall i | 0 <= i < |sent| ensures sent[i] == b[i] {
      assert b[i] == a[i].(header := actual.Copied(i)) && actual.Copied(i) == sent[i].header;
    }
  }

  /** One after the other, the blocks are served: where a search is made it finds a run. */
  ghost predicate Enough(fr: Frames, sizes: seq<nat>)
    decreases |sizes|
  {
    sizes == [] || (Served(fr, Asked(sizes[0])) &&
      forall to: Frames, page: nat :: Round(fr, to, sizes[0], page) ==> Enough(to, sizes[1..]))
  }

  /** Equal runs, and a last block that needs no more frames: if the first search is served, all are. */
  lemma FirstServes(fr: Frames, sizes: seq<nat>)
    requires sizes != [] && 1024 < sizes[0] && fr.last <= fr.highest && Served(fr, Asked(sizes[0]))
    requires Asked(sizes[|sizes| - 1]) <= Asked(sizes[0])
    requires forall i :: 0 <= i < |sizes| - 1 ==> sizes[i] == sizes[0]
    ensures Enough(fr, sizes)
  {
    hide Pmm.Chosen, Pmm.FreeRun, Asked;
    forall to: Frames, page: nat | Round(fr, to, sizes[0], page) ensures Enough(to, sizes[1..]) {
      RunServes(to, page, sizes[0], sizes[1..]);
    }
  }

  lemma {:induction false} RunServes(fr: Frames, page: nat, size: nat, sizes: seq<nat>)
    requires fr.last == page + Asked(size) <= fr.highest && Pmm.FreeRun(fr.bits, page, fr.last) && 1024 < size
    requires sizes != [] ==> Asked(sizes[|sizes| - 1]) <= Asked(size)
    requires forall i :: 0 <= i < |sizes| - 1 ==> sizes[i] == size
    ensures Enough(fr, sizes)
    decreases |sizes|
  {
    hide Pmm.Chosen, Pmm.FreeRun, Pmm.Marked, Served, Pmm.HasRun;
    if sizes != [] {
      RunServed(fr, page, Asked(size), Asked(sizes[0]));
      forall to: Frames, next: nat | Round(fr, to, sizes[0], next) ensures Enough(to, sizes[1..]) {
        if |sizes| > 1 {
          hide Asked;
          RunServes(to, next, size, sizes[1..]);
        }
      }
    }
  }

  lemma RunServed(fr: Frames, page: nat, k: nat, n: nat)
    requires fr.last == page + k && Pmm.FreeRun(fr.bits, page, page + k) && n <= k
    ensures Served(fr, n)
  {
    hide Pmm.Test;
    assert Pmm.RunAt(fr.bits, page, n);
  }

  /** The blocks for which the frame allocator may be asked: a slab is asked once. */
  ghost function Asking(job: F.Job, size: nat): seq<nat>
    requires job.Valid()
  {
    if 1024 < Full(job) || size <= job.Room() then Sizes(job, size) else [Full(job)] + Later(job, size)
  }

  ghost function Later(job: F.Job, size: nat): seq<nat>
    requires job.Valid()
  {
    var last := Size(LastLength(job, size));
    if SameSlab(Full(job), last) then [] else [last]
  }

  lemma {:induction false} SizesShape(job: F.Job, left: nat)
    requires job.Valid() && left > 0
    ensures var r := Sizes(job, left);
            r[|r| - 1] == Size(LastLength(job, left)) && forall i :: 0 <= i < |r| - 1 ==> r[i] == Full(job)
    decreases left
  {
    if job.Room() < left {
      SizesShape(job, left - job.Chunk());
    }
  }

  /**
    When full fragments are built in runs, and the last one needs no more frames than the others, it is enough
    that the first search finds a run.
   */
  lemma RunsServed(job: F.Job, fr: Frames, size: nat)
    requires job.Valid() && 1024 < Full(job) && job.Room() < size && fr.last <= fr.highest
    requires Asked(Size(LastLength(job, size))) <= Asked(Full(job)) && Served(fr, Asked(Full(job)))
    ensures Enough(fr, Asking(job, size))
  {
    hide Asked, Served, LastLength;
    SizesShape(job, size);
    FirstServes(fr, Sizes(job, size));
  }

  /** The searches still to come are served. */
  ghost predicate Stocked(job: F.Job, fr: Frames, first: bool, left: nat, size: nat)
    requires job.Valid()
  {
    left > 0 ==> Enough(fr, if first then Asking(job, left) else if 1024 < Full(job) then Sizes(job, left)
                            else Later(job, size))
  }

  /** Whether blocks were laid over freed ones so far, and what it takes that none will be. */
  ghost predicate Track(job: F.Job, start: Frames, size: nat, fr: Frames, q: nat, left: nat, lost: bool)
    requires job.Valid()
  {
    1024 < Full(job) ==>
      (Spared(start, 0, RunsOf(Sizes(job, size))) <==> !lost && Spared(fr, q, RunsOf(Sizes(job, left))))
  }

  lemma TrackStep(job: F.Job, start: Frames, size: nat, fr: Frames, q: nat, left: nat, lost: bool,
                  cop: nat, to: Frames, page: nat, hit: bool)
    requires job.Valid() && left > 0 && cop == if left <= job.Room() then left else job.Chunk()
    requires Track(job, start, size, fr, q, left, lost) && Size(cop) + PAGE <= M.WORD_LIMIT
    requires Round(fr, to, Size(cop), page)
    requires 1024 < Full(job) ==> (hit <==> 1024 < Size(cop) && page < q < page + Asked(Size(cop)))
    ensures 0 < cop <= left && Track(job, start, size, to, page + 1, left - cop, lost || hit)
  {
    hide Asked, Chosen, Pmm.FreeRun, Pmm.Marked, Spared;
    AskedSome(Size(cop));
    var sizes := Sizes(job, left);
    assert sizes[1..] == Sizes(job, left - cop);
    if 1024 < Size(cop) {
      var needs := RunsOf(sizes);
      assert needs[0] == Asked(Size(cop)) && needs[1..] == RunsOf(sizes[1..]);
      SparedStep(fr, q, needs, page);
    } else if 1024 < Full(job) {
      assert sizes == [Size(cop)] && RunsOf(sizes[1..]) == [] && RunsOf(sizes) == [];
      NoneSpared(fr, q);
      NoneSpared(to, page + 1);
    }
  }

  lemma NoneSpared(fr: Frames, q: nat)
    ensures Spared(fr, q, [])
  {
  }

  /** The headers sent so far, with `left` bytes to go and the last fragment `size` bytes long. */
  ghost predicate HeadersSo(job: F.Job, sent: seq<F.Frag>, left: nat, size: nat, lost: bool)
    requires job.Valid()
  {
    && (sent != [] ==> sent[0].header == job.header)
    && (Full(job) > 1024 && !lost ==> forall i :: 0 <= i < |sent| ==> sent[i].header == job.header)
    && (Full(job) > 1024 && lost ==> |sent| >= 2 && sent[|sent| - 1].header == NOBODY)
    && (Full(job) <= 1024 && |sent| >= 2 ==>
          sent[1].header == if left > 0 || |sent| > 2 || SameSlab(Full(job), size) then NOBODY else job.header)
  }

  /**
    Every copy of a header finds the datagram's, for a payload of `size` bytes: the blocks of full fragments are
    runs of frames and each is spared, or there is one fragment, or there are two and the second block comes from
    another slab.
   */
  ghost predicate KeepsHeaders(job: F.Job, fr: Frames, size: nat)
    requires job.Valid()
  {
    if 1024 < Full(job) then Spared(fr, 0, RunsOf(Sizes(job, size)))
    else
      || F.Pieces(job, size) == 1
      || (F.Pieces(job, size) == 2 && !SameSlab(Full(job), Size(LastLength(job, size))))
  }

  ghost predicate Delivers(job: F.Job, fr: Frames)
    requires job.Valid() && job.link + F.HEADER <= |job.buffer|
  {
    KeepsHeaders(job, fr, |F.Payload(job)|)
  }

  /** And the last fragment starts where the reading position has not wrapped. */
  ghost predicate Reaches(job: F.Job, fr: Frames, size: nat)
    requires job.Valid()
  {
    KeepsHeaders(job, fr, size) && FRONT + F.LastStart(job, size) < F.WORD
  }

  /** What that is, in terms of MTU and length. */
  lemma ReachesMeans(job: F.Job, fr: Frames, size: nat)
    requires job.link == LINK && job.Valid() && 0 < size <= F.MOST
    ensures KeepsHeaders(job, fr, size) <==>
              || size <= job.Room()
              || (job.mtu >= 1026 && Spared(fr, 0, RunsOf(Sizes(job, size))))
              || (job.mtu < 1026 && size <= job.Room() + job.Chunk()
                  && !SameSlab(Full(job), FRONT + size - job.Chunk()))
    ensures FRONT + F.LastStart(job, size) < F.WORD <==>
              || size <= job.Room()
              || FRONT + (size - job.Room() + job.Chunk() - 1) / job.Chunk() * job.Chunk() < F.WORD
  {
    hide SameSlab;
    F.LastStartFormula(job, size);
    hide F.LastStart;
    if job.Room() < size {
      assert F.Pieces(job, size) == 1 + F.Pieces(job, size - job.Chunk());
      assert LastLength(job, size) == LastLength(job, size - job.Chunk());
    } else {
      OneSpared(fr, Size(size));
    }
  }

  /** Nothing is laid over before the first block. */
  lemma OneSpared(fr: Frames, size: nat)
    ensures Spared(fr, 0, RunsOf([size]))
  {
    assert RunsOf([size][1..]) == [];
  }

  lemma HeadersUndisturbed(job: F.Job, sent: seq<F.Frag>, fr: Frames, lost: bool)
    requires Ethernet(job) && HeadersSo(job, sent, 0, Size(LastLength(job, |F.Payload(job)|)), lost)
    requires |sent| == F.Pieces(job, |F.Payload(job)|) > 0
    requires 1024 < Full(job) ==> (Spared(fr, 0, RunsOf(Sizes(job, |F.Payload(job)|))) <==> !lost)
    ensures F.Undisturbed(Actual(job, sent)) <==> Delivers(job, fr)
  {
    hide F.Sent, SameSlab, F.Pieces, LastLength, Spared, Sizes, RunsOf;
    var actual := Actual(job, sent);
    var k := F.KeyOf(job.header);
    F.SentCounts(actual, |job.buffer| - job.link - F.HEADER, job.link + F.HEADER, 0, 0, k);
    PiecesSame(job, actual, |F.Payload(job)|);
    forall i: nat | i < |sent| ensures actual.Copied(i) == sent[i].header {
    }
    if |sent| >= 2 {
      assert F.HeaderCounts(actual.Copied(1), k) <==> F.HeaderCounts(sent[1].header, k);
      assert !F.HeaderCounts(NOBODY, k);
      var last: nat := |sent| - 1;
      assert F.HeaderCounts(actual.Copied(last), k) <==> F.HeaderCounts(sent[last].header, k);
    }
  }

  lemma {:induction false} PiecesSame(a: F.Job, b: F.Job, left: nat)
    requires a.Valid() && b == a.(stale := b.stale)
    ensures F.Pieces(a, left) == F.Pieces(b, left)
    decreases left
  {
    if a.Room() < left {
      PiecesSame(a, b, left - a.Chunk());
    }
  }

  lemma PieceStep(job: F.Job, left: nat, cop: nat)
    requires job.Valid() && left > 0 && cop == if left <= job.Room() then left else job.Chunk()
    ensures 0 < cop <= left && F.Pieces(job, left) == 1 + F.Pieces(job, left - cop)
    ensures LastLength(job, left) == if left == cop then cop else LastLength(job, left - cop)
  {
  }

  lemma BodiesStep(sent: seq<F.Frag>, plain: seq<F.Frag>, f: F.Frag, g: F.Frag)
    requires SameBodies(sent, plain) && f == g.(header := f.header)
    ensures SameBodies(sent + [f], plain + [g])
  {
  }

  lemma FirstBody(job: F.Job, poff: nat, cop: nat, fragoff: nat, j: nat, last: bool, h: F.Inet)
    requires poff + cop <= |job.buffer|
    ensures F.Frag(h, fragoff % 0x2000, !last, job.buffer[poff..poff + cop])
         == F.First(job, poff, cop, fragoff, j, last).(header := h)
  {
  }

  lemma HeadersStep(job: F.Job, sent: seq<F.Frag>, left: nat, cop: nat, f: F.Frag, size: nat, lost: bool, hit: bool)
    requires job.Valid() && left > 0 && cop == if left <= job.Room() then left else job.Chunk()
    requires HeadersSo(job, sent, left, size, lost) && (left == cop ==> size == Size(cop)) && (hit ==> sent != [])
    requires f.header == if sent == [] then job.header
                         else if (if Full(job) <= 1024 then SameSlab(Full(job), Size(cop)) else hit) then NOBODY
                         else sent[|sent| - 1].header
    ensures 0 < cop <= left && HeadersSo(job, sent + [f], left - cop, size, lost || hit)
  {
    hide SameSlab;
    SlabItself(Full(job));
    assert forall i :: 0 <= i < |sent| ==> (sent + [f])[i] == sent[i];
  }

  lemma SlabItself(size: nat)
    ensures size <= 1024 ==> SameSlab(size, size)
  {
    if size <= 1024 {
      var c := SlabAt(size);
    }
  }

  lemma SlabAt(size: nat) returns (c: nat)
    requires size <= 1024
    ensures Smallest(c, size)
  {
    c := 0;
    while Ent(c) < size
      invariant c < SLABS && forall d: nat :: d < c ==> Ent(d) < size
    {
      c := c + 1;
    }
  }

  /** The next search is served, if it is made. */
  lemma AskServed(k: Kernel, job: F.Job, first: bool, left: nat, size: nat, cop: nat, prev: nat)
    requires k.Valid() && job.Valid() && left > 0 && cop == if left <= job.Room() then left else job.Chunk()
    requires Stocked(job, FramesOf(k), first, left, size) && (left == cop ==> LastLength(job, size) == cop)
    requires !first ==> Prev(k.heap.mem, k.heap.heads, k.heap.book, Full(job), prev)
    ensures Asks(k.heap, Size(cop), Asked(Size(cop))) ==> Served(FramesOf(k), Asked(Size(cop)))
  {
    hide Served, Inv, Ent, LastLength, Asked, Accounted, Pmm.Test, Round;
    if !first && Full(job) <= 1024 {
      var c: nat :| Smallest(c, Full(job)) && WasObject(k.heap.heads, k.heap.book, prev, c);
      assert k.heap.heads[c] != 0 by { SlotNotAligned(prev, c); }
      hide Smallest, WasObject;
      OneSmallest(Size(cop));
    }
  }

  lemma StockedStep(job: F.Job, fr: Frames, first: bool, left: nat, size: nat, cop: nat, to: Frames, page: nat)
    requires job.Valid() && left > 0 && cop == if left <= job.Room() then left else job.Chunk()
    requires Stocked(job, fr, first, left, size) && (first ==> left == size)
    requires Round(fr, to, Size(cop), page) && (!first && Full(job) <= 1024 && left > cop ==> page == 0)
    ensures 0 < cop <= left && Stocked(job, to, false, left - cop, size)
  {
    hide Round, Served, LastLength, SameSlab;
    if left > cop && (first || 1024 < Full(job)) {
      var sizes := if first then Asking(job, left) else Sizes(job, left);
      assert sizes[0] == Size(cop);
      assert sizes[1..] == if 1024 < Full(job) then Sizes(job, left - cop) else Later(job, size);
    } else if left > cop {
      SmallRound(fr, to, Size(cop));
    }
  }

  lemma SmallRound(fr: Frames, to: Frames, size: nat)
    requires size <= 1024 && Round(fr, to, size, 0)
    ensures to == fr
  {
  }

  /** Where the block just given back lies. */
  lemma RoundBehind(fr: Frames, to: Frames, size: nat, page: nat, buf: nat)
    requires 1024 < size && Round(fr, to, size, page) && buf == (page + 1) * PAGE
    ensures Behind(to, buf, Asked(size)) && buf / PAGE == page + 1
  {
    hide Pmm.FreeRun, Asked;
  }

  lemma PrevSmall(heads: seq<int>, m: M.Memory, b: Book, full: nat, prev: nat)
    requires Prev(m, heads, b, full, prev) && full <= 1024
    ensures exists c: nat :: Smallest(c, full) && c < |heads| && heads[c] != 0
  {
    hide Ent;
    var c: nat :| Smallest(c, full) && WasObject(heads, b, prev, c);
    SlotNotAligned(prev, c);
  }

  /** `net_fragment`. */
  method Fragment(k: Kernel, job: F.Job, src: nat) returns (sent: seq<F.Frag>)
    requires k.Valid() && Ethernet(job) && Holds(k.heap.mem, k.heap.book, src, job.buffer)
    requires Enough(FramesOf(k), Asking(job, |F.Payload(job)|))
    modifies k.heap, k.pmm, k.pmm.bitmap
    ensures k.Valid() && k.heap.book.live == old(k.heap.book.live)
    ensures Kept(old(k.heap.mem), k.heap.mem, k.heap.book.live)
    ensures sent == F.Fragments(Actual(job, sent))
    ensures F.Undisturbed(Actual(job, sent)) <==> Delivers(job, old(FramesOf(k)))
    ensures F.Arrives(job, sent) <==> Delivers(job, old(FramesOf(k))) && F.Joined(sent) == F.Payload(job)
    ensures Reaches(job, old(FramesOf(k)), |F.Payload(job)|) ==> F.Arrives(job, sent)
  {
    hide F.Delivered, F.Run, F.Undisturbed, F.Joined, F.LastStart, Track, Round, Stocked, Behind, Smallest;
    hide Inv, Kept, Holds, Prev, HeaderAt, F.Sent, F.U16, F.First, F.Fragments, F.Progress, Parse, Served, Spared;
    hide Accounted, Pmm.Test, SameSlab, Asked, LastLength, F.Pieces, HeadersSo, SameBodies, Delivers, Sizes, RunsOf;
    ghost var size, fr0 := |F.Payload(job)|, FramesOf(k);
    ghost var plain: seq<F.Frag> := [];
    ghost var full: nat := Full(job);
    ghost var lost, q := false, 0;
    var left: nat := |job.buffer| - F.HEADER - LINK;
    var poff: nat := FRONT;
    var fragoff: nat := 0;
    var nfb: nat := (job.mtu - F.HEADER - LINK) / 8;
    var prev: nat := src;
    sent := [];
    F.ProgressStart(job);
    Starts(k.heap.mem, k.heap.heads, k.heap.book, job, fr0);
    while left != 0
      invariant k.Valid() && k.heap.book.live == old(k.heap.book.live)
      invariant Kept(old(k.heap.mem), k.heap.mem, k.heap.book.live)
      invariant Holds(k.heap.mem, k.heap.book, src, job.buffer)
      invariant F.Progress(job, plain, left, poff, fragoff, |sent|) && SameBodies(sent, plain)
      invariant |sent| + F.Pieces(job, left) == F.Pieces(job, size)
      invariant left > 0 ==> LastLength(job, left) == LastLength(job, size)
      invariant Stocked(job, FramesOf(k), sent == [], left, size) && Track(job, fr0, size, FramesOf(k), q, left, lost)
      invariant HeadersSo(job, sent, left, Size(LastLength(job, size)), lost)
      invariant (sent == [] <==> prev == src) && (sent == [] ==> left == size && q == 0)
      invariant left > 0 && sent != [] ==>
                  && Prev(k.heap.mem, k.heap.heads, k.heap.book, full, prev)
                  && prev + FRONT <= |k.heap.mem| && HeaderAt(k.heap.mem, prev) == sent[|sent| - 1].header
                  && (1024 < full ==> q == prev / PAGE && Behind(FramesOf(k), prev, Asked(full)))
      decreases left
    {
      var last := left <= job.mtu - F.HEADER - LINK;
      var cop: nat := if last then left else nfb * 8;
      F.ProgressStep(job, plain, left, poff, fragoff, |sent|, cop);
      PieceStep(job, left, cop);
      ghost var m, fr := k.heap.mem, FramesOf(k);
      AskServed(k, job, sent == [], left, size, cop, prev);
      if sent != [] && full <= 1024 {
        PrevSmall(k.heap.heads, m, k.heap.book, full, prev);
      }
      var buf, f, page := SendOne(k, job, src, prev, poff, cop, fragoff, last, full);
      KeptTrans(old(k.heap.mem), m, k.heap.mem, k.heap.book.live);
      PrevFits(k.heap.mem, k.heap.heads, k.heap.book, Size(cop), buf);
      FirstBody(job, poff, cop, fragoff, |sent|, last, f.header);
      BodiesStep(sent, plain, f, F.First(job, poff, cop, fragoff, |sent|, last));
      plain := plain + [F.First(job, poff, cop, fragoff, |sent|, last)];
      ghost var hit := 1024 < full && sent != [] && Covers(page, Size(cop), prev);
      HeadersStep(job, sent, left, cop, f, Size(LastLength(job, size)), lost, hit);
      StockedStep(job, fr, sent == [], left, size, cop, FramesOf(k), page);
      TrackStep(job, fr0, size, fr, q, left, lost, cop, FramesOf(k), page, hit);
      if 1024 < Size(cop) {
        RoundBehind(fr, FramesOf(k), Size(cop), page, buf);
      }
      lost, q := lost || hit, page + 1;
      prev := buf;
      sent := sent + [f];
      poff := F.U16(poff + cop);
      left := left - cop;
      fragoff := F.U16(fragoff + nfb);
    }
    F.ProgressEnd(job, plain, poff, fragoff, |sent|);
    SentHeader(job, sent, size, Size(LastLength(job, size)), lost);
    ActualFragments(job, sent);
    TrackEnd(job, fr0, size, FramesOf(k), q, lost);
    HeadersUndisturbed(job, sent, fr0, lost);
    OutcomeArrives(job, sent, fr0);
  }

  lemma TrackEnd(job: F.Job, start: Frames, size: nat, fr: Frames, q: nat, lost: bool)
    requires job.Valid() && Track(job, start, size, fr, q, 0, lost)
    ensures 1024 < Full(job) ==> (Spared(start, 0, RunsOf(Sizes(job, size))) <==> !lost)
  {
  }

  /** What `Fragment` promises of the fragments it sends. */
  ghost predicate Outcome(job: F.Job, sent: seq<F.Frag>, fr: Frames) {
    && Ethernet(job) && sent == F.Fragments(Actual(job, sent))
    && (F.Undisturbed(Actual(job, sent)) <==> Delivers(job, fr))
  }

  lemma OutcomeArrives(job: F.Job, sent: seq<F.Frag>, fr: Frames)
    requires Outcome(job, sent, fr)
    ensures F.Joined(sent) == F.Joined(F.Fragments(job))
    ensures F.Arrives(job, sent) <==> Delivers(job, fr) && F.Joined(sent) == F.Payload(job)
    ensures Reaches(job, fr, |F.Payload(job)|) ==> F.Arrives(job, sent)
  {
    hide F.Fragments, F.Joined, F.Delivered, F.Run, F.LastStart, F.Undisturbed, KeepsHeaders;
    F.DeliveredExactly(Actual(job, sent));
    ActualJoined(job, sent);
    if FRONT + F.LastStart(job, |F.Payload(job)|) < F.WORD {
      F.FragmentsJoined(job);
    }
  }

  lemma ActualJoined(job: F.Job, sent: seq<F.Frag>)
    requires F.Sendable(job)
    ensures F.Joined(F.Fragments(Actual(job, sent))) == F.Joined(F.Fragments(job))
  {
    hide F.Sent, F.Joined;
    F.SentHeaders(job, Actual(job, sent), |job.buffer| - job.link - F.HEADER, job.link + F.HEADER, 0, 0);
    F.JoinedBodies(F.Fragments(Actual(job, sent)), F.Fragments(job));
  }

  /**
    Over all payloads of a length: if the length reaches, each of them arrives as it was sent, whatever else the
    heap holds; if it does not, some payload never does.
   */
  lemma ArrivesExactly(job: F.Job, fr: Frames, front: F.Bytes, size: nat)
    requires job.link == LINK && job.Valid() && |front| == FRONT && 0 < size <= F.MOST
    ensures Reaches(job, fr, size) ==>
              forall payload: F.Bytes, sent ::
                |payload| == size && Outcome(F.Framed(job, front, payload), sent, fr) ==>
                  F.Arrives(F.Framed(job, front, payload), sent)
    ensures !Reaches(job, fr, size) ==>
              exists payload: F.Bytes :: |payload| == size && NeverArrives(F.Framed(job, front, payload), fr)
  {
    hide Outcome, F.Arrives, KeepsHeaders, F.LastStart, F.Survives;
    F.SurvivesExactly(job, front, size);
    if Reaches(job, fr, size) {
      forall payload: F.Bytes, sent | |payload| == size && Outcome(F.Framed(job, front, payload), sent, fr)
        ensures F.Arrives(F.Framed(job, front, payload), sent)
      {
        FramedReaches(job, fr, front, payload);
        OutcomeArrives(F.Framed(job, front, payload), sent, fr);
      }
    } else if KeepsHeaders(job, fr, size) {
      var payload: F.Bytes :| |payload| == size && !F.Survives(job, front, payload);
      FramedFails(job, fr, front, payload);
    } else {
      var payload := F.Zeros(size);
      FramedReaches(job, fr, front, payload);
      FramedFails(job, fr, front, payload);
    }
  }

  ghost predicate NeverArrives(job: F.Job, fr: Frames)
    requires job.link + F.HEADER <= |job.buffer|
  {
    forall sent {:trigger Outcome(job, sent, fr)} :: Outcome(job, sent, fr) ==> !F.Arrives(job, sent)
  }

  lemma FramedFails(job: F.Job, fr: Frames, front: F.Bytes, payload: F.Bytes)
    requires job.link == LINK && job.Valid() && |front| == FRONT
    requires !F.Survives(job, front, payload) || !Delivers(F.Framed(job, front, payload), fr)
    ensures NeverArrives(F.Framed(job, front, payload), fr)
  {
    hide Outcome, F.Arrives, Delivers, F.LastStart, F.Fragments, F.Joined;
    var framed := F.Framed(job, front, payload);
    assert F.Payload(framed) == payload;
    forall sent | Outcome(framed, sent, fr) ensures !F.Arrives(framed, sent) {
      OutcomeArrives(framed, sent, fr);
    }
  }

  lemma FramedReaches(job: F.Job, fr: Frames, front: F.Bytes, payload: F.Bytes)
    requires job.link == LINK && job.Valid() && |front| == FRONT
    ensures F.Payload(F.Framed(job, front, payload)) == payload
    ensures KeepsHeaders(F.Framed(job, front, payload), fr, |payload|) <==> KeepsHeaders(job, fr, |payload|)
    ensures Reaches(F.Framed(job, front, payload), fr, |payload|) <==> Reaches(job, fr, |payload|)
  {
    hide SameSlab, Spared;
    var framed := F.Framed(job, front, payload);
    F.SameStart(job, framed, |payload|);
    FramedPieces(job, framed, |payload|);
  }

  lemma {:induction false} FramedPieces(a: F.Job, b: F.Job, left: nat)
    requires a.Valid() && b == a.(buffer := b.buffer)
    ensures F.Pieces(a, left) == F.Pieces(b, left) && LastLength(a, left) == LastLength(b, left)
    ensures Sizes(a, left) == Sizes(b, left)
    decreases left
  {
    if a.Room() < left {
      FramedPieces(a, b, left - a.Chunk());
    }
  }

  /**
    At the MTU an Ethernet adapter starts with, all but short last fragments are runs of two frames. A datagram
    with `n` of them arrives as it was sent if and only if there is but one; or the search that finds the first,
    at `p`, leaves another run behind it; or the first run of all, at `f`, is not that one, and there are two in
    all or another run behind `f`.
   */
  lemma DefaultMtu(job: F.Job, fr: Frames, p: nat, f: nat)
    requires Ethernet(job) && job.mtu == 1500
    requires Chosen(fr, 2, p) && fr.last <= fr.highest && Lowest(fr, 2, f)
    ensures var n := |RunsOf(Sizes(job, |F.Payload(job)|))|;
            Reaches(job, fr, |F.Payload(job)|) <==>
              || n <= 1 || Pmm.HasRun(fr.bits, 2, p + 2, fr.highest)
              || (f < p && (n == 2 || Pmm.HasRun(fr.bits, 2, f + 2, fr.highest)))
  {
    hide F.Fragments, F.Joined, F.LastStart, Pmm.Chosen, Lowest, Pmm.HasRun, Spared;
    var size := |F.Payload(job)|;
    var q := F.LastStartMultiple(job, size);
    F.LastStartBelow(job, size);
    assert job.Chunk() == 1464;
    DefaultRuns(job, size);
    AlikeSpared(fr, 2, |RunsOf(Sizes(job, size))|, p, f);
    ChosenBelow(fr, 2, p, f);
  }

  lemma ChosenBelow(fr: Frames, k: nat, p: nat, f: nat)
    requires k > 0 && Chosen(fr, k, p) && fr.last <= fr.highest && Lowest(fr, k, f)
    ensures f <= p
  {
    hide Pmm.FreeRun;
    assert Pmm.RunAt(fr.bits, p, k);
  }

  lemma {:induction false} DefaultRuns(job: F.Job, left: nat)
    requires job.Valid() && job.link == LINK && job.mtu == 1500
    ensures RunsOf(Sizes(job, left)) == Alike(2, |RunsOf(Sizes(job, left))|)
    ensures |RunsOf(Sizes(job, left))| ==
              if left == 0 || LastLength(job, left) > 990 then F.Pieces(job, left) else F.Pieces(job, left) - 1
    decreases left
  {
    var sizes := Sizes(job, left);
    assert job.Room() == 1466 && job.Chunk() == 1464;
    if job.Room() < left {
      DefaultRuns(job, left - job.Chunk());
      assert sizes[1..] == Sizes(job, left - job.Chunk()) && sizes[0] == 1498 && Asked(1498) == 2;
    } else if left > 0 {
      assert sizes == [Size(left)] && RunsOf(sizes[1..]) == [];
    }
  }

  /** With two free frames left, those that are taken for the first fragment, a datagram of 3000 bytes is lost. */
  lemma TightExample(job: F.Job)
    requires Ethernet(job) && job.mtu == 1500 && |F.Payload(job)| == 3000
    ensures !Delivers(job, Frames([0xe7], 0, 8))
  {
    var fr := Frames([0xe7], 0, 8);
    TightBits();
    DefaultMtu(job, fr, 3, 3);
    DefaultRuns(job, 3000);
    F.LastStartFormula(job, 3000);
    hide Spared, F.LastStart;
  }

  lemma TightBits()
    ensures Chosen(Frames([0xe7], 0, 8), 2, 3) && Lowest(Frames([0xe7], 0, 8), 2, 3)
    ensures !Pmm.HasRun([0xe7], 2, 5, 8)
  {
    forall i: nat | i < 8 ensures Pmm.Test([0xe7], i) <==> i != 3 && i != 4 {
      Pmm.BitTable(i);
    }
    hide Pmm.Test;
    assert Pmm.RunAt([0xe7], 3, 2);
    forall p: nat | p != 3 && p + 2 <= 8 ensures !Pmm.RunAt([0xe7], p, 2) {
      assert Pmm.Test([0xe7], p) || Pmm.Test([0xe7], p + 1);
    }
  }

  /** At the smallest MTU a host has to accept, a datagram of three fragments is lost. */
  lemma LostExample(job: F.Job, fr: Frames)
    requires Ethernet(job) && job.mtu == 576 && |F.Payload(job)| == 1200
    ensures !Delivers(job, fr)
  {
    ReachesMeans(job, fr, 1200);
  }

  lemma SentHeader(job: F.Job, sent: seq<F.Frag>, size: nat, last: nat, lost: bool)
    requires job.Valid() && size > 0 && |sent| + F.Pieces(job, 0) == F.Pieces(job, size)
    requires HeadersSo(job, sent, 0, last, lost)
    ensures |sent| == F.Pieces(job, size) > 0 && sent[0].header == job.header
  {
  }

  lemma Starts(m: M.Memory, heads: seq<int>, b: Book, job: F.Job, fr: Frames)
    requires Inv(m, heads, b) && Ethernet(job) && Enough(fr, Asking(job, |F.Payload(job)|))
    ensures Kept(m, m, b.live) && SameBodies([], [])
    ensures forall left: nat, size: nat :: HeadersSo(job, [], left, size, false)
    ensures Stocked(job, fr, true, |F.Payload(job)|, |F.Payload(job)|)
    ensures Track(job, fr, |F.Payload(job)|, fr, 0, |F.Payload(job)|, false)
  {
    hide Inv, Kept, Spared;
    KeptSame(m, heads, b);
  }
}
