/**
  The heap over the frame allocator: every page the heap holds is marked in the bitmap, so what the allocator
  grants is never a page the heap still uses.
 */
module KernelHeap {

  import opened SlabHeap
  import Pmm
  import M = ByteMemory

  /** The pages of the heap are in range and marked. */
  ghost predicate Accounted(b: Book, bits: seq<bv8>, highest: nat) {
    highest <= 8 * |bits| && forall p :: p in b.owner ==> p < highest && Pmm.Test(bits, p)
  }

  /** Pages that were free are not the heap's. */
  lemma FreeIsFresh(m: M.Memory, b: Book, bits: seq<bv8>, highest: nat, page: nat, k: nat)
    requires Accounted(b, bits, highest) && 0 < page && page + k <= highest && highest * PAGE <= |m|
    requires Pmm.FreeRun(bits, page, page + k)
    ensures Fresh(m, b, page, k)
  {
    hide Pmm.Test;
  }

  lemma MarkedAccounted(b: Book, t: Book, was: seq<bv8>, now: seq<bv8>, highest: nat, page: nat, k: nat)
    requires Accounted(b, was, highest) && page + k <= highest
    requires Pmm.Marked(was, now, page, page + k) && Holders(b, t, page, k)
    ensures Accounted(t, now, highest)
  {
    hide Pmm.Test;
  }

  lemma SameAccounted(b: Book, t: Book, bits: seq<bv8>, highest: nat)
    requires Accounted(b, bits, highest) && Holders(b, t, 0, 0)
    ensures Accounted(t, bits, highest)
  {
    hide Pmm.Test;
  }

  lemma ClearedAccounted(m: M.Memory, b: Book, t: Book, was: seq<bv8>, now: seq<bv8>, highest: nat,
                         page: nat, k: nat)
    requires Accounted(b, was, highest) && Holders(b, t, 0, 0)
    requires Fresh(m, t, page, k) && Pmm.Cleared(was, now, page, page + k)
    ensures Accounted(t, now, highest)
  {
    hide Pmm.Test;
  }

  /** The heap would have to ask for pages, and how many. */
  ghost predicate Asks(h: Heap, size: nat, k: nat)
    reads h
  {
    k == Asked(size) && (size <= 1024 ==> exists c: nat :: Smallest(c, size) && c < |h.heads| && h.heads[c] == 0)
  }

  /**
    What a request for `k` frames did to the bitmap and to the cursor: nothing (`page == 0`), or it marked the
    run that the search takes and put the cursor behind it.
   */
  ghost predicate Granted(was: seq<bv8>, now: seq<bv8>, last: nat, next: nat, highest: nat, page: nat, k: nat) {
    if page == 0 then now == was && next == last
    else
      && next == page + k <= highest && Pmm.FreeRun(was, page, page + k) && Pmm.Marked(was, now, page, page + k)
      && Pmm.Chosen(was, k, last, highest, page)
  }

  /** The block at `a` is new: no block lay there, the others are as they were, and it reads as zeros. */
  ghost predicate NewBlock(m: M.Memory, b: Book, n: M.Memory, t: Book, a: nat, size: nat) {
    && a !in b.live && a in t.live && size <= t.live[a].cap && t.live == b.live[a := Block(t.live[a].cap, size)]
    && Zero(n, a, t.live[a].cap) && Kept(m, n, b.live)
  }

  /** The bits of the block's run, if it has one, are cleared, and no others. */
  ghost predicate Returned(b: Book, was: seq<bv8>, now: seq<bv8>, a: nat)
    requires a in b.live
  {
    if a % PAGE != 0 then now == was
    else PAGE <= a && Pmm.Cleared(was, now, a / PAGE - 1, a / PAGE + b.live[a].cap / PAGE)
  }

  class Kernel {
    const pmm: Pmm.Allocator
    const heap: Heap

    ghost predicate Valid()
      reads this, pmm, pmm.bitmap, heap
    {
      && pmm.Valid() && heap.Valid() && 0 < pmm.highest && pmm.highest * PAGE <= |heap.mem|
      && Pmm.Test(pmm.bitmap[..], 0) && Accounted(heap.book, pmm.bitmap[..], pmm.highest)
    }

    constructor (frames: Pmm.Allocator, slabs: Heap)
      requires frames.Valid() && slabs.Valid() && 0 < frames.highest && frames.highest * PAGE <= |slabs.mem|
      requires Pmm.Test(frames.bitmap[..], 0) && Accounted(slabs.book, frames.bitmap[..], frames.highest)
      ensures Valid() && pmm == frames && heap == slabs
    {
      pmm, heap := frames, slabs;
    }

    /** The frames a request for `size` bytes needs, if it needs any. */
    method Grant(size: nat) returns (page: nat)
      requires Valid() && size + PAGE <= M.WORD_LIMIT
      modifies pmm, pmm.bitmap
      ensures pmm.Valid() && Pmm.Test(pmm.bitmap[..], 0)
      ensures SlabHeap.Grant(heap.mem, heap.book, page, Asked(size))
      ensures Granted(old(pmm.bitmap[..]), pmm.bitmap[..], old(pmm.last), pmm.last, pmm.highest, page, Asked(size))
      ensures page != 0 ==> Asks(heap, size, Asked(size))
      ensures Asks(heap, size, Asked(size)) ==>
                (Pmm.HasRun(old(pmm.bitmap[..]), Asked(size), 0, old(pmm.last)) ==> page != 0)
      ensures Asks(heap, size, Asked(size)) ==>
                (Pmm.HasRun(old(pmm.bitmap[..]), Asked(size), old(pmm.last), pmm.highest) ==> page != 0)
    {
      hide Inv, Pmm.Test, Ent;
      page := 0;
      var c := Heap.SlabFor(size);
      assert |heap.heads| == SLABS by { heap.NoHead(0); }
      OneSmallest(size);
      if c < SLABS && heap.heads[c] != 0 {
        return;
      }
      ghost var was := pmm.bitmap[..];
      page := pmm.Alloc(if c < SLABS then 1 else PageCount(size) + 1);
      if page != 0 {
        FreeIsFresh(heap.mem, heap.book, was, pmm.highest, page, Asked(size));
      }
    }

    /**
      `slab_alloc` with its calls of the frame allocator. A small block is refused only by running out of
      frames, which the kernel does not survive.
     */
    method Alloc(size: nat) returns (a: nat, ghost page: nat)
      requires Valid() && size + PAGE <= M.WORD_LIMIT
      requires size <= 1024 && Asks(heap, size, 1) ==>
        Pmm.HasRun(pmm.bitmap[..], 1, 0, pmm.last) || Pmm.HasRun(pmm.bitmap[..], 1, pmm.last, pmm.highest)
      modifies heap, pmm, pmm.bitmap
      ensures Valid()
      ensures a == 0 ==> 1024 < size && page == 0 && heap.book == old(heap.book) && heap.mem == old(heap.mem)
                         && !Pmm.HasRun(old(pmm.bitmap[..]), Asked(size), 0, old(pmm.last))
                         && !Pmm.HasRun(old(pmm.bitmap[..]), Asked(size), old(pmm.last), pmm.highest)
      ensures a != 0 ==> NewBlock(old(heap.mem), old(heap.book), heap.mem, heap.book, a, size)
      ensures Granted(old(pmm.bitmap[..]), pmm.bitmap[..], old(pmm.last), pmm.last, pmm.highest, page, Asked(size))
      ensures SlabHeap.Grant(old(heap.mem), old(heap.book), page, Asked(size))
      ensures a != 0 ==> Wrote(old(heap.mem), heap.mem, page, Asked(size), a, heap.book.live[a].cap)
      ensures a != 0 ==> if size <= 1024 then InSmallest(heap.book, a, size)
                         else page != 0 && a == (page + 1) * PAGE && heap.book.live[a].cap == PageCount(size) * PAGE
      ensures Extends(old(heap.book), heap.book) && Holders(old(heap.book), heap.book, page, Asked(size))
      ensures forall c: nat :: Smallest(c, size) && c < |old(heap.heads)| && old(heap.heads)[c] != 0 ==>
                a == old(heap.heads)[c] && page == 0
    {
      hide Inv, Pmm.Test, Kept, Ent, Wrote, Extends;
      var granted := Grant(size);
      page := granted;
      OneSmallest(size);
      assert |heap.heads| == SLABS by { heap.NoHead(0); }
      a := heap.Alloc(size, granted);
      if page != 0 {
        MarkedAccounted(old(heap.book), heap.book, old(pmm.bitmap[..]), pmm.bitmap[..], pmm.highest, page, Asked(size));
      } else {
        SameAccounted(old(heap.book), heap.book, pmm.bitmap[..], pmm.highest);
      }
    }

    /** `slab_free`: a run's frames go back to the allocator, and no others. */
    method Free(a: nat)
      requires Valid() && (a == 0 || a in heap.book.live)
      modifies heap, pmm.bitmap
      ensures Valid()
      ensures heap.book.live == old(heap.book.live) - {a} && Kept(old(heap.mem), heap.mem, heap.book.live)
      ensures a == 0 ==> pmm.bitmap[..] == old(pmm.bitmap[..]) && heap.book == old(heap.book)
      ensures a != 0 ==> Returned(old(heap.book), old(pmm.bitmap[..]), pmm.bitmap[..], a)
      ensures Holders(old(heap.book), heap.book, 0, 0)
      ensures a % PAGE == 0 ==> heap.mem == old(heap.mem) && heap.heads == old(heap.heads)
      ensures a != 0 && a % PAGE == 0 ==>
        PAGE <= a && Fresh(heap.mem, heap.book, a / PAGE - 1, old(heap.book).live[a].cap / PAGE + 1)
      ensures a % PAGE != 0 ==>
        && a / PAGE in old(heap.book.owner) && old(heap.book.owner)[a / PAGE].SlabPage?
        && var c := old(heap.book.owner)[a / PAGE].slab;
           c < |old(heap.heads)| && heap.heads == old(heap.heads)[c := a] && Outside(old(heap.mem), heap.mem, a, 8)
           && heap.book.owner == old(heap.book.owner)
    {
      hide Inv, Pmm.Test, Kept, Slot, Outside, Fresh;
      if a != 0 && a % PAGE == 0 { RunHeld(heap.mem, heap.heads, heap.book, a, pmm.bitmap[..], pmm.highest); }
      var page, count := heap.Free(a);
      if count > 0 {
        pmm.Free(page, count);
        ClearedAccounted(heap.mem, old(heap.book), heap.book, old(pmm.bitmap[..]), pmm.bitmap[..], pmm.highest,
                         page, count);
      } else {
        SameAccounted(old(heap.book), heap.book, pmm.bitmap[..], pmm.highest);
      }
    }

    /**
      `slab_realloc` with its calls of the frame allocator: with NULL a new block, in place no change of the
      bitmap, and otherwise the new run is marked (`mid`) before the old one is cleared.
     */
    method Realloc(a: nat, size: nat) returns (r: nat, ghost page: nat, ghost mid: seq<bv8>)
      requires Valid() && (a == 0 || a in heap.book.live) && size + PAGE <= M.WORD_LIMIT
      requires size <= 1024 && Asks(heap, size, 1) && !(a != 0 && InPlace(heap.book, a, size)) ==>
        Pmm.HasRun(pmm.bitmap[..], 1, 0, pmm.last) || Pmm.HasRun(pmm.bitmap[..], 1, pmm.last, pmm.highest)
      modifies heap, pmm, pmm.bitmap
      ensures Valid()
      ensures r == 0 ==> 1024 < size && page == 0 && heap.book == old(heap.book) && heap.mem == old(heap.mem)
                         && !Pmm.HasRun(old(pmm.bitmap[..]), Asked(size), 0, old(pmm.last))
                         && !Pmm.HasRun(old(pmm.bitmap[..]), Asked(size), old(pmm.last), pmm.highest)
      ensures r != 0 && r != a ==> Suits(heap.book, r, size, page)
      ensures page != 0 ==> old(Asks(heap, size, Asked(size)))
      ensures a == 0 && r != 0 ==> NewBlock(old(heap.mem), old(heap.book), heap.mem, heap.book, r, size)
      ensures a != 0 ==> (InPlace(old(heap.book), a, size) <==> r == a)
      ensures a != 0 && r != 0 ==>
                Moved(old(heap.mem), old(heap.book), heap.mem, heap.book, a, r, size, page) && (r == a ==> page == 0)
      ensures Granted(old(pmm.bitmap[..]), mid, old(pmm.last), pmm.last, pmm.highest, page, Asked(size))
      ensures a == 0 || r == 0 || r == a ==> pmm.bitmap[..] == mid
      ensures a != 0 && r != 0 && r != a ==> Returned(old(heap.book), mid, pmm.bitmap[..], a)
    {
      hide Inv, Pmm.Test, Kept, Ent, InPlace, Moved, Copied, PageCount, Slot, Suits;
      var room := false;
      if a != 0 {
        if a % PAGE == 0 { RunHeld(heap.mem, heap.heads, heap.book, a, pmm.bitmap[..], pmm.highest); }
        var n;
        room, n := heap.HasRoom(a, size);
      }
      var granted := 0;
      if !room {
        granted := Grant(size);
      }
      page := granted;
      OneSmallest(size);
      assert |heap.heads| == SLABS by { heap.NoHead(0); }
      var freed, count;
      r, freed, count := heap.Realloc(a, size, granted);
      if a != 0 && r != 0 { MovedHolders(old(heap.mem), old(heap.book), heap.mem, heap.book, a, r, size, page); }
      if page != 0 {
        MarkedAccounted(old(heap.book), heap.book, old(pmm.bitmap[..]), pmm.bitmap[..], pmm.highest, page, Asked(size));
      } else {
        SameAccounted(old(heap.book), heap.book, pmm.bitmap[..], pmm.highest);
      }
      mid := pmm.bitmap[..];
      if count > 0 {
        pmm.Free(freed, count);
        ClearedAccounted(heap.mem, heap.book, heap.book, mid, pmm.bitmap[..], pmm.highest, freed, count);
      }
    }
  }

  lemma MovedHolders(m: M.Memory, b: Book, n: M.Memory, t: Book, a: nat, r: nat, size: nat, page: nat)
    requires a in b.live && Moved(m, b, n, t, a, r, size, page)
    ensures Holders(b, t, page, Asked(size))
  {
  }

  lemma OneSmallest(size: nat)
    ensures forall c: nat, d: nat :: Smallest(c, size) && Smallest(d, size) ==> c == d
    ensures forall c: nat :: Smallest(c, size) ==> size <= 1024
  {
  }

  lemma RunHeld(m: M.Memory, heads: seq<int>, b: Book, a: nat, bits: seq<bv8>, highest: nat)
    requires Inv(m, heads, b) && a in b.live && a % PAGE == 0
    requires Accounted(b, bits, highest) && bits != [] && Pmm.Test(bits, 0)
    ensures 2 * PAGE <= a && a / PAGE + b.live[a].cap / PAGE <= highest
  {
    hide Lists, Pmm.Test, M.Load, PageCount;
    assert BlockOk(m, b, a);
    assert a / PAGE + b.live[a].cap / PAGE - 1 in b.owner;
  }
}
