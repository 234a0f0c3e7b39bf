/**
  The physical frame allocator: a bitmap searched next-fit from a persistent cursor.

  The bitmap is the byte array of the source; `Used` reads it as a predicate on pages. Page numbers
  stand for addresses, so page 0 is the address that means failure.
 */
module Pmm {

  const PAGE_SIZE: nat := 4096

  // ----- bits of a byte array

  function Bit(k: nat): bv8
    requires k < 8
  {
    1 << k
  }

  lemma BitOps(x: bv8, j: nat, k: nat)
    requires j < 8 && k < 8
    ensures (x | Bit(k)) & Bit(j) != 0 <==> j == k || x & Bit(j) != 0
    ensures (x & !Bit(k)) & Bit(j) != 0 <==> j != k && x & Bit(j) != 0
  {
    BitTable(j);
    BitTable(k);
  }

  lemma BitTable(k: nat)
    requires k < 8
    ensures Bit(k) == if k == 0 then 1 else if k == 1 then 2 else if k == 2 then 4 else if k == 3 then 8
                      else if k == 4 then 16 else if k == 5 then 32 else if k == 6 then 64 else 128
  {
  }

  /** Where the bit of page `i` lies. */
  function ByteOf(i: nat): (n: nat)
    ensures 8 * n <= i < 8 * n + 8
  {
    i / 8
  }

  function BitOf(i: nat): (k: nat)
    ensures k < 8
  {
    i % 8
  }

  /** Is page `i` marked? */
  predicate Test(bits: seq<bv8>, i: nat)
    requires i < 8 * |bits|
  {
    bits[ByteOf(i)] & Bit(BitOf(i)) != 0
  }

  lemma SetAt(bits: seq<bv8>, n: nat, k: nat, m: nat, l: nat)
    requires n < |bits| && m < |bits| && k < 8 && l < 8
    ensures bits[n := bits[n] | Bit(k)][m] & Bit(l) != 0 <==> (m == n && l == k) || bits[m] & Bit(l) != 0
  {
    BitOps(bits[n], l, k);
  }

  lemma ResetAt(bits: seq<bv8>, n: nat, k: nat, m: nat, l: nat)
    requires n < |bits| && m < |bits| && k < 8 && l < 8
    ensures bits[n := bits[n] & !Bit(k)][m] & Bit(l) != 0 <==> !(m == n && l == k) && bits[m] & Bit(l) != 0
  {
    BitOps(bits[n], l, k);
  }

  lemma SamePlace(i: nat, j: nat)
    ensures ByteOf(i) == ByteOf(j) && BitOf(i) == BitOf(j) <==> i == j
  {
  }

  /** Setting the bit of one page marks that page only; resetting it frees that page only. */
  lemma SetBit(bits: seq<bv8>, i: nat, j: nat)
    requires i < 8 * |bits| && j < 8 * |bits|
    ensures Test(bits[ByteOf(i) := bits[ByteOf(i)] | Bit(BitOf(i))], j) <==> j == i || Test(bits, j)
  {
    hide Bit, ByteOf, BitOf;
    SetAt(bits, ByteOf(i), BitOf(i), ByteOf(j), BitOf(j));
    SamePlace(i, j);
  }

  lemma ResetBit(bits: seq<bv8>, i: nat, j: nat)
    requires i < 8 * |bits| && j < 8 * |bits|
    ensures Test(bits[ByteOf(i) := bits[ByteOf(i)] & !Bit(BitOf(i))], j) <==> j != i && Test(bits, j)
  {
    hide Bit, ByteOf, BitOf;
    ResetAt(bits, ByteOf(i), BitOf(i), ByteOf(j), BitOf(j));
    SamePlace(i, j);
  }

  // ----- runs of free pages

  /** Pages lo..hi are all free. */
  ghost predicate FreeRun(bits: seq<bv8>, lo: nat, hi: nat) {
    hi <= 8 * |bits| && forall i :: lo <= i < hi ==> !Test(bits, i)
  }

  /** Some run of `pages` free pages lies wholly in lo..hi. */
  ghost predicate HasRun(bits: seq<bv8>, pages: nat, lo: nat, hi: nat) {
    exists p: nat :: lo <= p && p + pages <= hi && RunAt(bits, p, pages)
  }

  ghost predicate RunAt(bits: seq<bv8>, p: nat, pages: nat) {
    FreeRun(bits, p, p + pages)
  }

  /** The bitmap with exactly pages lo..hi marked in addition. */
  ghost predicate Marked(was: seq<bv8>, now: seq<bv8>, lo: nat, hi: nat) {
    |now| == |was| && forall i: nat :: i < 8 * |was| ==> (Test(now, i) <==> Test(was, i) || lo <= i < hi)
  }

  ghost predicate Cleared(was: seq<bv8>, now: seq<bv8>, lo: nat, hi: nat) {
    |now| == |was| && forall i: nat :: i < 8 * |was| ==> (Test(now, i) <==> Test(was, i) && !(lo <= i < hi))
  }

  /** A request loses a run at page 0: the run is the one the search finds, and its address reads as a failure. */
  ghost predicate Leaks(bits: seq<bv8>, pages: nat, last: nat, highest: nat) {
    && FreeRun(bits, 0, pages)
    && ((last == 0 && pages <= highest) || (!HasRun(bits, pages, last, highest) && pages <= last))
  }

  /** `page` starts the first run of free pages from `last` on. */
  ghost predicate FirstRun(bits: seq<bv8>, pages: nat, last: nat, highest: nat, page: nat) {
    && last <= page && page + pages <= highest && FreeRun(bits, page, page + pages)
    && (pages > 0 ==> !HasRun(bits, pages, last, page + pages - 1))
  }

  lemma FirstRunUnique(bits: seq<bv8>, pages: nat, last: nat, highest: nat, p: nat, q: nat)
    requires pages > 0 && FirstRun(bits, pages, last, highest, p) && FirstRun(bits, pages, last, highest, q)
    ensures p == q
  {
    hide FreeRun;
    assert RunAt(bits, p, pages) && RunAt(bits, q, pages);
  }

  /** The run a search takes: the first from the cursor on, or else the first of all up to the cursor. */
  ghost predicate Chosen(bits: seq<bv8>, pages: nat, last: nat, highest: nat, page: nat) {
    if HasRun(bits, pages, last, highest) then FirstRun(bits, pages, last, highest, page)
    else FirstRun(bits, pages, 0, last, page)
  }

  lemma ChosenUnique(bits: seq<bv8>, pages: nat, last: nat, highest: nat, p: nat, q: nat)
    requires pages > 0 && Chosen(bits, pages, last, highest, p) && Chosen(bits, pages, last, highest, q)
    ensures p == q
  {
    hide FirstRun, HasRun;
    if HasRun(bits, pages, last, highest) {
      FirstRunUnique(bits, pages, last, highest, p, q);
    } else {
      FirstRunUnique(bits, pages, 0, last, p, q);
    }
  }

  /** A concrete loss: eight free pages, a fresh cursor, one page asked for. */
  lemma LeakExample()
    ensures Leaks([0], 1, 0, 8)
  {
    assert !Test([0], 0);
  }

  /** With page 0 marked nothing is lost. */
  lemma ReservedKeeps(bits: seq<bv8>, pages: nat, last: nat, highest: nat)
    requires pages > 0 && bits != [] && Test(bits, 0)
    ensures !Leaks(bits, pages, last, highest)
  {
  }

  lemma MarkedDiffers(was: seq<bv8>, now: seq<bv8>, pages: nat)
    requires pages > 0 && FreeRun(was, 0, pages) && Marked(was, now, 0, pages)
    ensures now != was
  {
    hide Test;
    assert !Test(was, 0) && Test(now, 0);
  }

  class Allocator {
    const bitmap: array<bv8>
    const highest: nat        // highest_page_index
    var last: nat             // last_used_index

    ghost predicate Valid()
      reads this
    {
      highest <= 8 * bitmap.Length && last <= highest
    }

    constructor (bytes: array<bv8>, pages: nat)
      requires pages <= 8 * bytes.Length
      ensures Valid() && bitmap == bytes && highest == pages && last == 0
    {
      bitmap, highest, last := bytes, pages, 0;
    }

    method BitmapSet(i: nat)
      requires i < 8 * bitmap.Length
      modifies bitmap
      ensures Marked(old(bitmap[..]), bitmap[..], i, i + 1)
    {
      ghost var was := bitmap[..];
      bitmap[ByteOf(i)] := bitmap[ByteOf(i)] | Bit(BitOf(i));
      assert bitmap[..] == was[ByteOf(i) := was[ByteOf(i)] | Bit(BitOf(i))];
      forall j: nat | j < 8 * |was| ensures Test(bitmap[..], j) <==> Test(was, j) || j == i {
        SetBit(was, i, j);
      }
    }

    method BitmapReset(i: nat)
      requires i < 8 * bitmap.Length
      modifies bitmap
      ensures Cleared(old(bitmap[..]), bitmap[..], i, i + 1)
    {
      ghost var was := bitmap[..];
      bitmap[ByteOf(i)] := bitmap[ByteOf(i)] & !Bit(BitOf(i));
      assert bitmap[..] == was[ByteOf(i) := was[ByteOf(i)] & !Bit(BitOf(i))];
      forall j: nat | j < 8 * |was| ensures Test(bitmap[..], j) <==> Test(was, j) && j != i {
        ResetBit(was, i, j);
      }
    }

    /**
      Searches from the cursor up to `limit`. A run found is marked and the cursor stops behind it;
      otherwise no run lies in the part searched, and nothing was marked.
     */
    method InnerAlloc(pages: nat, limit: nat) returns (found: bool, page: nat)
      requires Valid() && pages > 0 && limit <= highest
      modifies bitmap, `last
      ensures Valid()
      ensures found ==> old(last) <= page && page + pages <= limit && last == page + pages
      ensures found ==>
                FreeRun(old(bitmap[..]), page, page + pages) && Marked(old(bitmap[..]), bitmap[..], page, page + pages)
      ensures found ==>
                HasRun(old(bitmap[..]), pages, old(last), limit)
                && !HasRun(old(bitmap[..]), pages, old(last), page + pages - 1)
      ensures !found ==> bitmap[..] == old(bitmap[..]) && last == (if old(last) < limit then limit else old(last))
      ensures !found ==> !HasRun(old(bitmap[..]), pages, old(last), limit)
    {
      hide Test;
      ghost var was, start := bitmap[..], last;
      var p := 0;
      page := 0;
      while last < limit
        invariant Valid() && start <= last && (last <= limit || last == start) && bitmap[..] == was
        invariant p < pages && p <= last - start
        invariant FreeRun(was, last - p, last) && (last - p == start || Test(was, last - p - 1))
        invariant !HasRun(was, pages, start, last)
      {
        last := last + 1;
        var used := TestBit(last - 1);
        if !used {
          p := p + 1;
          if p == pages {
            page := last - pages;
            assert RunAt(was, page, pages);
            var i := page;
            while i < last
              invariant page <= i <= last && last == page + pages && Valid()
              invariant Marked(was, bitmap[..], page, i)
            {
              BitmapSet(i);
              i := i + 1;
            }
            return true, page;
          }
        } else {
          p := 0;
        }
        NoRunYet(was, pages, start, last, p);
      }
      found := false;
    }

    method TestBit(i: nat) returns (used: bool)
      requires i < 8 * bitmap.Length
      ensures used == Test(bitmap[..], i)
    {
      used := bitmap[ByteOf(i)] & Bit(BitOf(i)) != 0;
    }

    /**
      Allocates a run of pages; 0 means failure. A result is a run that was free and is now marked. A run
      found at page 0 is taken for a failure and stays marked, which happens exactly when `Leaks` says so.
      With page 0 reserved, failure means that no free run lies wholly above or wholly below the cursor.
     */
    method Alloc(pages: nat) returns (page: nat)
      requires Valid() && pages > 0 && highest > 0
      modifies bitmap, `last
      ensures Valid()
      ensures page != 0 ==>
                page + pages <= highest && FreeRun(old(bitmap[..]), page, page + pages)
                && Marked(old(bitmap[..]), bitmap[..], page, page + pages)
      ensures page != 0 ==> last == page + pages
      ensures Test(old(bitmap[..]), 0) ==>
                (page == 0 <==>
                      !HasRun(old(bitmap[..]), pages, old(last), highest)
                      && !HasRun(old(bitmap[..]), pages, 0, old(last)))
      ensures Test(old(bitmap[..]), 0) && page == 0 ==> bitmap[..] == old(bitmap[..]) && last == old(last)
      ensures page == 0 && bitmap[..] != old(bitmap[..]) <==> Leaks(old(bitmap[..]), pages, old(last), highest)
      ensures Leaks(old(bitmap[..]), pages, old(last), highest) ==> Marked(old(bitmap[..]), bitmap[..], 0, pages)
      ensures page != 0 ==> Chosen(old(bitmap[..]), pages, old(last), highest, page)
    {
      hide Test;
      var start := last;
      ghost var was := bitmap[..];
      forall hi: nat | FreeRun(was, 0, pages) && pages <= hi ensures HasRun(was, pages, 0, hi) {
        assert RunAt(was, 0, pages);
      }
      forall now | FreeRun(was, 0, pages) && Marked(was, now, 0, pages) ensures now != was {
        MarkedDiffers(was, now, pages);
      }
      var found;
      found, page := InnerAlloc(pages, highest);
      if !found || page == 0 {
        last := 0;
        found, page := InnerAlloc(pages, start);
        if !found {
          page := 0;
        }
      }
    }

    /** Returns a run of pages. Right after its allocation this restores the bitmap. */
    method Free(page: nat, pages: nat)
      requires Valid() && page + pages <= highest
      modifies bitmap
      ensures Valid() && Cleared(old(bitmap[..]), bitmap[..], page, page + pages)
    {
      hide Test;
      var i := page;
      while i < page + pages
        invariant page <= i <= page + pages
        invariant Cleared(old(bitmap[..]), bitmap[..], page, i)
      {
        BitmapReset(i);
        i := i + 1;
      }
    }
  }

  /** Extending the search by one page finds no run while fewer than `pages` free pages end there. */
  lemma NoRunYet(bits: seq<bv8>, pages: nat, start: nat, last: nat, p: nat)
    requires last > start && p < pages && p <= last - start && last <= 8 * |bits|
    requires last - p == start || Test(bits, last - p - 1)
    requires !HasRun(bits, pages, start, last - 1)
    ensures !HasRun(bits, pages, start, last)
  {
    hide Test;
    forall q: nat | start <= q && q + pages <= last ensures !RunAt(bits, q, pages) {
      if q + pages < last {
        assert q + pages <= last - 1;
      } else {
        assert q <= last - p - 1;
      }
    }
  }

  /** Two bitmaps that mark the same pages are the same. */
  lemma SameBits(a: seq<bv8>, b: seq<bv8>)
    requires |a| == |b| && forall i: nat :: i < 8 * |a| ==> (Test(a, i) <==> Test(b, i))
    ensures a == b
  {
    forall n | 0 <= n < |a| ensures a[n] == b[n] {
      forall k: nat | k < 8 ensures a[n] & Bit(k) != 0 <==> b[n] & Bit(k) != 0 {
        assert ByteOf(8 * n + k) == n && BitOf(8 * n + k) == k;
        assert Test(a, 8 * n + k) <==> Test(b, 8 * n + k);
      }
      SameByte(a[n], b[n]);
    }
  }

  lemma SameByte(x: bv8, y: bv8)
    requires forall k: nat :: k < 8 ==> (x & Bit(k) != 0 <==> y & Bit(k) != 0)
    ensures x == y
  {
    forall k: nat | k < 8 ensures x & Bit(k) != 0 <==> y & Bit(k) != 0 {
    }
    BitTable(0); BitTable(1); BitTable(2); BitTable(3); BitTable(4); BitTable(5); BitTable(6); BitTable(7);
    SameByteBits(x, y);
  }

  lemma SameByteBits(x: bv8, y: bv8)
    requires (x & 1 != 0 <==> y & 1 != 0) && (x & 2 != 0 <==> y & 2 != 0) && (x & 4 != 0 <==> y & 4 != 0)
    requires (x & 8 != 0 <==> y & 8 != 0)
    requires (x & 16 != 0 <==> y & 16 != 0) && (x & 32 != 0 <==> y & 32 != 0) && (x & 64 != 0 <==> y & 64 != 0)
    requires (x & 128 != 0 <==> y & 128 != 0)
    ensures x == y
  {
  }

  /** Allocating a run and freeing it restores the bitmap, byte for byte. */
  lemma AllocFree(was: seq<bv8>, mid: seq<bv8>, now: seq<bv8>, lo: nat, hi: nat)
    requires FreeRun(was, lo, hi) && Marked(was, mid, lo, hi) && Cleared(mid, now, lo, hi)
    ensures now == was
  {
    hide Test;
    forall i: nat | i < 8 * |was| ensures Test(now, i) <==> Test(was, i) {
    }
    SameBits(now, was);
  }
}
