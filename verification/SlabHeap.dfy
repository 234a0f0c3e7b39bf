/** The kernel heap (`kernel/mm/slab.c`): ten slabs whose free objects are linked through the objects
    themselves, and page runs for larger blocks. Addresses are offsets in the direct map; 0 is NULL. */
module SlabHeap {

  import opened ByteMemory

  const PAGE: nat := 4096
  const SLABS: nat := 10

  function Ent(c: nat): (e: nat)
    ensures 8 <= e <= 1024
  {
    if c == 0 then 8 else if c == 1 then 16 else if c == 2 then 24 else if c == 3 then 32 else if c == 4 then 48
    else if c == 5 then 64 else if c == 6 then 128 else if c == 7 then 256 else if c == 8 then 512 else 1024
  }

  /** `DIV_ROUNDUP(size, PAGE_SIZE)` on a 64-bit `size_t`. */
  function PageCount(size: nat): nat {
    (size + (PAGE - 1)) % WORD_LIMIT / PAGE
  }

  /** The rounding wraps for the last page of sizes, and only there: a run of `PageCount` pages holds the block
      exactly when the addition stays below 2^64. */
  lemma PageCountHolds(size: nat)
    requires 1024 < size < WORD_LIMIT
    ensures size <= PageCount(size) * PAGE <==> size + (PAGE - 1) < WORD_LIMIT
    ensures size + (PAGE - 1) < WORD_LIMIT ==> (PageCount(size) - 1) * PAGE < size
  {
    if WORD_LIMIT <= size + (PAGE - 1) {
      assert (size + (PAGE - 1)) % WORD_LIMIT == size + (PAGE - 1) - WORD_LIMIT < PAGE;
    }
  }

  datatype Owner = SlabPage(slab: nat) | Run(block: nat)
  datatype Block = Block(cap: nat, size: nat)

  /** Who holds each allocated page, the free list of each slab, and the blocks handed out. */
  datatype Book = Book(owner: map<nat, Owner>, lists: seq<seq<nat>>, live: map<nat, Block>)

  /** Object positions in a slab page: the first is lost to the header. */
  ghost predicate Slot(a: nat, c: nat) {
    var o := a % PAGE;
    o % Ent(c) == 0 && Ent(c) <= o && o + Ent(c) <= PAGE
  }

  ghost predicate InSlab(b: Book, a: nat, c: nat) {
    a / PAGE in b.owner && b.owner[a / PAGE] == SlabPage(c) && c < SLABS && Slot(a, c)
  }

  ghost predicate Chain(m: Memory, head: int, list: seq<nat>)
    decreases |list|
  {
    if list == [] then head == 0
    else head == list[0] && list[0] + 8 <= |m| && Chain(m, Load(m, list[0]), list[1..])
  }

  ghost predicate NoDup(list: seq<nat>) {
    list != [] ==> list[0] !in list[1..] && NoDup(list[1..])
  }

  ghost predicate ListOk(m: Memory, head: int, b: Book, c: nat)
    requires c < |b.lists|
  {
    && Chain(m, head, b.lists[c])
    && NoDup(b.lists[c])
    && forall a: nat :: a in b.lists[c] <==> InSlab(b, a, c) && a !in b.live
  }

  ghost predicate PageOk(m: Memory, b: Book, p: nat)
    requires p in b.owner
  {
    && 0 < p && (p + 1) * PAGE <= |m|
    && (b.owner[p].SlabPage? ==> b.owner[p].slab < SLABS && Load(m, p * PAGE) == b.owner[p].slab)
    && (b.owner[p].Run? ==> var a := b.owner[p].block;
                            a in b.live && a % PAGE == 0 && a / PAGE - 1 <= p < a / PAGE + b.live[a].cap / PAGE)
  }

  ghost predicate RunOk(m: Memory, b: Book, a: nat, cap: nat, size: nat) {
    && 2 * PAGE <= a && a % PAGE == 0 && 0 < cap && cap % PAGE == 0 && a + cap <= |m|
    && Load(m, a - PAGE) == cap / PAGE == PageCount(size) && Load(m, a - PAGE + 8) == size
    && forall p: nat {:trigger p in b.owner} :: a / PAGE - 1 <= p < a / PAGE + cap / PAGE ==>
          p in b.owner && b.owner[p] == Run(a)
  }

  ghost predicate SlabBlockOk(b: Book, a: nat, cap: nat) {
    && a / PAGE in b.owner && b.owner[a / PAGE].SlabPage? && InSlab(b, a, b.owner[a / PAGE].slab)
    && cap == Ent(b.owner[a / PAGE].slab)
  }

  ghost predicate BlockOk(m: Memory, b: Book, a: nat)
    requires a in b.live
  {
    && b.live[a].size <= b.live[a].cap && b.live[a].size + PAGE <= WORD_LIMIT
    && if a % PAGE == 0 then RunOk(m, b, a, b.live[a].cap, b.live[a].size) else SlabBlockOk(b, a, b.live[a].cap)
  }

  ghost predicate Pages(m: Memory, b: Book) {
    forall p :: p in b.owner ==> PageOk(m, b, p)
  }

  ghost predicate Blocks(m: Memory, b: Book) {
    forall a :: a in b.live ==> BlockOk(m, b, a)
  }

  ghost predicate Lists(m: Memory, heads: seq<int>, b: Book)
    requires |heads| == |b.lists|
  {
    forall c :: 0 <= c < |heads| ==> ListOk(m, heads[c], b, c)
  }

  /** Every slab page carries its slab in its header, every slot of it is either live or on that slab's free
      list and never both, and every other allocated page belongs to the run of one live block. */
  ghost predicate Inv(m: Memory, heads: seq<int>, b: Book) {
    |heads| == |b.lists| == SLABS && Pages(m, b) && Blocks(m, b) && Lists(m, heads, b)
  }

  // ----- positions -----

  /** No slab object is page aligned, so the alignment test in free and realloc tells runs from objects. */
  lemma SlotNotAligned(a: nat, c: nat)
    requires Slot(a, c)
    ensures a % PAGE != 0 && a + Ent(c) <= (a / PAGE + 1) * PAGE && a / PAGE * PAGE + 8 <= a
  {
  }

  lemma Multiples(x: nat, y: nat, e: nat)
    requires 0 < e && x % e == 0 && y % e == 0 && x < y
    ensures x + e <= y
  {
    var i, j := x / e, y / e;
    assert x == e * i && y == e * j;
    assert j <= i ==> e * j <= e * i;
    assert e * (i + 1) <= e * j;
  }

  lemma SlotsApart(a: nat, c: nat, b: nat)
    requires Slot(a, c) && Slot(b, c) && a / PAGE == b / PAGE && a < b
    ensures a + Ent(c) <= b
  {
    Multiples(a % PAGE, b % PAGE, Ent(c));
  }

  ghost predicate Apart(x: nat, n: nat, y: int, k: nat) {
    x + n <= y || y + k <= x
  }

  lemma RunPages(m: Memory, b: Book, a: nat, cap: nat, size: nat, p: nat)
    requires RunOk(m, b, a, cap, size)
    requires p !in b.owner || b.owner[p] != Run(a)
    ensures (p + 1) * PAGE <= a - PAGE || a + cap <= p * PAGE
  {
    assert !(a / PAGE - 1 <= p < a / PAGE + cap / PAGE);
  }

  /** Live blocks are pairwise disjoint, and large enough. */
  lemma LiveApart(m: Memory, heads: seq<int>, b: Book, x: nat, y: nat)
    requires Inv(m, heads, b) && x in b.live && y in b.live && x != y
    ensures Apart(x, b.live[x].cap, y, b.live[y].cap)
    ensures 0 < x && x + b.live[x].cap <= |m| && b.live[x].size <= b.live[x].cap
  {
    hide Lists, Slot, Load, PageCount;
    assert BlockOk(m, b, x) && BlockOk(m, b, y);
    assert x % PAGE != 0 ==> PageOk(m, b, x / PAGE);
    if x % PAGE != 0 { SlotNotAligned(x, b.owner[x / PAGE].slab); }
    if y % PAGE != 0 { SlotNotAligned(y, b.owner[y / PAGE].slab); }
    if x % PAGE == 0 && y % PAGE == 0 {
      assert forall p: nat :: x / PAGE - 1 <= p < x / PAGE + b.live[x].cap / PAGE ==> b.owner[p] == Run(x);
      var p := x / PAGE;
      var q := y / PAGE;
      RunPages(m, b, x, b.live[x].cap, b.live[x].size, q);
      RunPages(m, b, y, b.live[y].cap, b.live[y].size, p);
    } else if x % PAGE == 0 {
      RunPages(m, b, x, b.live[x].cap, b.live[x].size, y / PAGE);
    } else if y % PAGE == 0 {
      RunPages(m, b, y, b.live[y].cap, b.live[y].size, x / PAGE);
    } else if x / PAGE == y / PAGE {
      if x < y { SlotsApart(x, b.owner[x / PAGE].slab, y); } else { SlotsApart(y, b.owner[x / PAGE].slab, x); }
    }
  }

  // ----- writes that touch no bookkeeping -----

  ghost predicate Outside(m: Memory, n: Memory, x: nat, len: nat) {
    |m| == |n| && forall i :: 0 <= i < |m| && !(x <= i < x + len) ==> n[i] == m[i]
  }

  /** The region holds no page header, no run's metadata and no link of a free object. */
  ghost predicate Clear(b: Book, x: nat, len: nat) {
    && (forall p :: p in b.owner && b.owner[p].SlabPage? ==> Apart(x, len, p * PAGE, 8))
    && (forall a :: a in b.live && a % PAGE == 0 ==> Apart(x, len, a - PAGE, 16))
    && (forall c: nat, a :: c < |b.lists| && a in b.lists[c] ==> Apart(x, len, a, 8))
  }

  lemma LoadOutside(m: Memory, n: Memory, x: nat, len: nat, a: nat)
    requires Outside(m, n, x, len) && a + 8 <= |m| && Apart(x, len, a, 8)
    ensures Load(n, a) == Load(m, a)
  {
    LoadSame(m, n, a);
  }

  lemma {:induction false} ChainOutside(m: Memory, n: Memory, x: nat, len: nat, head: int, list: seq<nat>)
    requires Outside(m, n, x, len) && Chain(m, head, list)
    requires forall a :: a in list ==> Apart(x, len, a, 8)
    ensures Chain(n, head, list)
    decreases |list|
  {
    hide Load;
    if list != [] {
      assert list[0] in list;
      LoadOutside(m, n, x, len, list[0]);
      ChainOutside(m, n, x, len, Load(m, list[0]), list[1..]);
    }
  }

  lemma FramePages(m: Memory, n: Memory, b: Book, x: nat, len: nat)
    requires Pages(m, b) && Outside(m, n, x, len) && Clear(b, x, len)
    ensures Pages(n, b)
  {
    hide Load;
    forall p | p in b.owner ensures PageOk(n, b, p) {
      assert PageOk(m, b, p);
      if b.owner[p].SlabPage? { LoadOutside(m, n, x, len, p * PAGE); }
    }
  }

  lemma FrameBlocks(m: Memory, n: Memory, b: Book, x: nat, len: nat)
    requires Blocks(m, b) && Outside(m, n, x, len) && Clear(b, x, len)
    ensures Blocks(n, b)
  {
    hide Load, Slot, PageCount;
    forall a | a in b.live ensures BlockOk(n, b, a) {
      assert BlockOk(m, b, a);
      if a % PAGE == 0 {
        LoadOutside(m, n, x, len, a - PAGE);
        LoadOutside(m, n, x, len, a - PAGE + 8);
      }
    }
  }

  /** A write that touches no bookkeeping keeps the heap's invariant. */
  lemma Frame(m: Memory, n: Memory, heads: seq<int>, b: Book, x: nat, len: nat)
    requires Inv(m, heads, b) && Outside(m, n, x, len) && Clear(b, x, len)
    ensures Inv(n, heads, b)
  {
    hide Load, Outside, Pages, Blocks, InSlab, Chain, NoDup;
    FramePages(m, n, b, x, len);
    FrameBlocks(m, n, b, x, len);
    forall c | 0 <= c < |heads| ensures ListOk(n, heads[c], b, c) {
      assert ListOk(m, heads[c], b, c);
      ChainOutside(m, n, x, len, heads[c], b.lists[c]);
    }
  }

  /** Every part of a live block is clear. */
  lemma ClearLive(m: Memory, heads: seq<int>, b: Book, a: nat, x: nat, len: nat)
    requires Inv(m, heads, b) && a in b.live && a <= x && x + len <= a + b.live[a].cap
    ensures Clear(b, x, len)
  {
    hide Load, Slot, PageCount, Chain, NoDup;
    assert BlockOk(m, b, a);
    if a % PAGE != 0 { SlotNotAligned(a, b.owner[a / PAGE].slab); }
    forall p | p in b.owner && b.owner[p].SlabPage? ensures Apart(x, len, p * PAGE, 8) {
      if a % PAGE == 0 { RunPages(m, b, a, b.live[a].cap, b.live[a].size, p); }
    }
    forall d | d in b.live && d % PAGE == 0 ensures Apart(x, len, d - PAGE, 16) {
      if d != a {
        MetadataApart(m, heads, b, a, d);
      }
    }
    forall c: nat, d | c < |b.lists| && d in b.lists[c] ensures Apart(x, len, d, 8) {
      FreeApart(m, heads, b, a, c, d);
    }
  }

  lemma MetadataApart(m: Memory, heads: seq<int>, b: Book, a: nat, d: nat)
    requires Inv(m, heads, b) && a in b.live && d in b.live && a != d && d % PAGE == 0
    ensures Apart(a, b.live[a].cap, d - PAGE, 16)
  {
    hide Load, Slot, PageCount, Lists, Pages;
    assert BlockOk(m, b, a) && BlockOk(m, b, d);
    assert d / PAGE - 1 in b.owner && b.owner[d / PAGE - 1] == Run(d);
    if a % PAGE != 0 {
      SlotNotAligned(a, b.owner[a / PAGE].slab);
    } else {
      RunPages(m, b, a, b.live[a].cap, b.live[a].size, d / PAGE - 1);
    }
  }

  lemma FreeApart(m: Memory, heads: seq<int>, b: Book, a: nat, c: nat, d: nat)
    requires Inv(m, heads, b) && a in b.live && c < |b.lists| && d in b.lists[c]
    ensures Apart(a, b.live[a].cap, d, 8)
  {
    hide Load, Slot, PageCount, Pages, Chain, NoDup;
    assert BlockOk(m, b, a) && ListOk(m, heads[c], b, c);
    SlotNotAligned(d, c);
    if a % PAGE == 0 {
      RunPages(m, b, a, b.live[a].cap, b.live[a].size, d / PAGE);
    } else {
      SlotNotAligned(a, b.owner[a / PAGE].slab);
      if a / PAGE == d / PAGE {
        if a < d { SlotsApart(a, c, d); } else { SlotsApart(d, c, a); }
      }
    }
  }

  /** No page of the run is allocated. */
  ghost predicate Fresh(m: Memory, b: Book, page: nat, k: nat) {
    0 < page && (page + k) * PAGE <= |m| && forall p :: page <= p < page + k ==> p !in b.owner
  }

  /** Pages nobody holds are clear. */
  lemma ClearFresh(m: Memory, heads: seq<int>, b: Book, page: nat, k: nat)
    requires Inv(m, heads, b) && Fresh(m, b, page, k) && 0 < k
    ensures Clear(b, page * PAGE, k * PAGE)
    ensures forall a :: a in b.live ==> Apart(page * PAGE, k * PAGE, a, b.live[a].cap)
  {
    hide Load, Slot, PageCount, Chain, NoDup, Pages;
    forall a | a in b.live
      ensures Apart(page * PAGE, k * PAGE, a, b.live[a].cap)
      ensures a % PAGE == 0 ==> Apart(page * PAGE, k * PAGE, a - PAGE, 16)
    {
      assert BlockOk(m, b, a);
      if a % PAGE != 0 { SlotNotAligned(a, b.owner[a / PAGE].slab); } else { RunFresh(m, b, a, page, k); }
    }
    forall c: nat, d | c < |b.lists| && d in b.lists[c] ensures Apart(page * PAGE, k * PAGE, d, 8) {
      assert ListOk(m, heads[c], b, c);
      SlotNotAligned(d, c);
    }
  }

  lemma RunFresh(m: Memory, b: Book, a: nat, page: nat, k: nat)
    requires a in b.live && a % PAGE == 0 && BlockOk(m, b, a) && Fresh(m, b, page, k) && 0 < k
    ensures Apart(page * PAGE, k * PAGE, a - PAGE, PAGE + b.live[a].cap)
  {
    hide Load, PageCount;
    var lo := a / PAGE - 1;
    var hi := a / PAGE + b.live[a].cap / PAGE;
    assert lo in b.owner;
    assert lo <= page < hi ==> page in b.owner;
  }

  // ----- changes of hands -----

  /** The first object of a slab's free list is handed out. */
  function Taken(b: Book, c: nat, size: nat): Book
    requires c < |b.lists| && b.lists[c] != []
  {
    Book(b.owner, b.lists[c := b.lists[c][1..]], b.live[b.lists[c][0] := Block(Ent(c), size)])
  }

  /** An object goes back to the front of its slab's free list. */
  function Given(b: Book, c: nat, a: nat): Book
    requires c < |b.lists|
  {
    Book(b.owner, b.lists[c := [a] + b.lists[c]], b.live - {a})
  }

  /** A page becomes a slab page, all of it free. */
  function WithPage(b: Book, c: nat, page: nat, list: seq<nat>): Book
    requires c < |b.lists|
  {
    Book(b.owner[page := SlabPage(c)], b.lists[c := list], b.live)
  }

  predicate NotBelow(p: nat, page: nat) {
    page <= p
  }

  /** A page of metadata and the pages after it become the run of a new block. */
  function WithRun(b: Book, page: nat, k: nat, size: nat): Book
    requires 0 < k
  {
    var a := (page + 1) * PAGE;
    Book(b.owner + map p: nat | p < page + k && NotBelow(p, page) :: Run(a),
         b.lists, b.live[a := Block((k - 1) * PAGE, size)])
  }

  function WithoutRun(b: Book, a: nat): Book {
    Book(map p | p in b.owner && b.owner[p] != Run(a) :: b.owner[p], b.lists, b.live - {a})
  }

  lemma TakenInv(m: Memory, heads: seq<int>, b: Book, c: nat, size: nat)
    requires Inv(m, heads, b) && c < SLABS && b.lists[c] != [] && size <= Ent(c)
    ensures b.lists[c][0] == heads[c] && heads[c] + 8 <= |m| && InSlab(b, heads[c], c) && b.lists[c][0] !in b.live
    ensures Inv(m, heads[c := Load(m, heads[c])], Taken(b, c, size))
  {
    hide Load, Slot, PageCount;
    assert ListOk(m, heads[c], b, c);
    var a := b.lists[c][0];
    assert a in b.lists[c] && InSlab(b, a, c);
    SlotNotAligned(a, c);
    var t := Taken(b, c, size);
    assert Pages(m, t) by {
      forall p | p in t.owner ensures PageOk(m, t, p) { assert PageOk(m, b, p); }
    }
    assert Blocks(m, t) by {
      forall x | x in t.live ensures BlockOk(m, t, x) { assert x != a ==> BlockOk(m, b, x); }
    }
    var hs := heads[c := Load(m, a)];
    forall d | 0 <= d < SLABS ensures ListOk(m, hs[d], t, d) {
      assert ListOk(m, heads[d], b, d);
      TakenList(m, heads, b, c, size, d);
    }
  }

  lemma TakenList(m: Memory, heads: seq<int>, b: Book, c: nat, size: nat, d: nat)
    requires |heads| == |b.lists| == SLABS && c < SLABS && d < SLABS && ListOk(m, heads[c], b, c)
    requires ListOk(m, heads[d], b, d)
    requires b.lists[c] != []
    ensures heads[c] == b.lists[c][0] && heads[c] + 8 <= |m|
    ensures ListOk(m, heads[c := Load(m, heads[c])][d], Taken(b, c, size), d)
  {
    hide Load, Slot;
    var a := b.lists[c][0];
    var t := Taken(b, c, size);
    assert a in b.lists[c] && InSlab(b, a, c);
    if c == d { assert b.lists[c] == [a] + t.lists[c]; }
    forall x: nat ensures x in t.lists[d] <==> InSlab(t, x, d) && x !in t.live {
      assert InSlab(t, x, d) == InSlab(b, x, d);
    }
  }

  lemma GivenInv(m: Memory, heads: seq<int>, b: Book, c: nat, a: nat)
    requires Inv(m, heads, b) && c < SLABS && a in b.live && InSlab(b, a, c) && a + 8 <= |m| && Load(m, a) == heads[c]
    ensures Inv(m, heads[c := a], Given(b, c, a))
  {
    hide Load, Slot, PageCount;
    SlotNotAligned(a, c);
    var t := Given(b, c, a);
    assert Pages(m, t) by {
      forall p | p in t.owner ensures PageOk(m, t, p) { assert PageOk(m, b, p); }
    }
    assert Blocks(m, t) by {
      forall x | x in t.live ensures BlockOk(m, t, x) { assert BlockOk(m, b, x); }
    }
    var hs := heads[c := a];
    forall d | 0 <= d < SLABS ensures ListOk(m, hs[d], t, d) {
      assert ListOk(m, heads[d], b, d) && ListOk(m, heads[c], b, c);
      GivenList(m, heads, b, c, a, d);
    }
  }

  lemma GivenList(m: Memory, heads: seq<int>, b: Book, c: nat, a: nat, d: nat)
    requires |heads| == |b.lists| == SLABS && c < SLABS && d < SLABS && ListOk(m, heads[c], b, c)
    requires ListOk(m, heads[d], b, d)
    requires a in b.live && InSlab(b, a, c) && a + 8 <= |m| && Load(m, a) == heads[c]
    ensures ListOk(m, heads[c := a][d], Given(b, c, a), d)
  {
    hide Load, Slot;
    var t := Given(b, c, a);
    if c == d { assert t.lists[c][1..] == b.lists[c]; }
    forall x: nat ensures x in t.lists[d] <==> InSlab(t, x, d) && x !in t.live {
      assert InSlab(t, x, d) == InSlab(b, x, d);
    }
  }

  /** Nothing is taken away from the holders of pages. */
  ghost predicate Extends(b: Book, t: Book) {
    forall p :: p in b.owner ==> p in t.owner && t.owner[p] == b.owner[p]
  }

  lemma BlockStays(m: Memory, b: Book, t: Book, x: nat)
    requires x in b.live && BlockOk(m, b, x) && Extends(b, t) && x in t.live && t.live[x] == b.live[x]
    ensures BlockOk(m, t, x)
  {
    hide Load, Slot, PageCount;
    if x % PAGE == 0 {
      forall p: nat | x / PAGE - 1 <= p < x / PAGE + b.live[x].cap / PAGE ensures p in t.owner && t.owner[p] == Run(x) {
        assert p in b.owner;
      }
    }
  }

  lemma WithPageList(m: Memory, heads: seq<int>, b: Book, c: nat, page: nat, list: seq<nat>, d: nat, head: int)
    requires Inv(m, heads, b) && c < SLABS && Fresh(m, b, page, 1) && b.lists[c] == [] && d < SLABS
    requires Chain(m, head, list) && NoDup(list)
    requires forall a: nat :: a in list <==> a / PAGE == page && Slot(a, c)
    ensures ListOk(m, if c == d then head else heads[d], WithPage(b, c, page, list), d)
  {
    hide Load, Slot, PageCount, Chain, NoDup, Pages, Blocks;
    var t := WithPage(b, c, page, list);
    assert ListOk(m, heads[d], b, d);
    assert page !in b.owner;
    forall x: nat ensures x in t.lists[d] <==> InSlab(t, x, d) && x !in t.live {
      if x / PAGE == page {
        LiveOwned(m, heads, b, x);
      } else {
        assert InSlab(t, x, d) == InSlab(b, x, d);
      }
    }
  }

  lemma LiveOwned(m: Memory, heads: seq<int>, b: Book, x: nat)
    requires Inv(m, heads, b)
    ensures x in b.live ==> x / PAGE in b.owner
  {
    hide Load, Slot, PageCount, Pages, Lists;
    if x in b.live {
      assert BlockOk(m, b, x);
    }
  }

  lemma WithPageInv(m: Memory, heads: seq<int>, b: Book, c: nat, page: nat, head: nat, list: seq<nat>)
    requires Inv(m, heads, b) && c < SLABS && Fresh(m, b, page, 1) && b.lists[c] == []
    requires Load(m, page * PAGE) == c && Chain(m, head, list) && NoDup(list)
    requires forall a: nat :: a in list <==> a / PAGE == page && Slot(a, c)
    ensures Inv(m, heads[c := head], WithPage(b, c, page, list))
  {
    hide Load, Slot, PageCount, BlockOk, ListOk, Chain, NoDup;
    var t := WithPage(b, c, page, list);
    assert page !in b.owner;
    assert Pages(m, t) by {
      forall p | p in t.owner ensures PageOk(m, t, p) { assert p != page ==> PageOk(m, b, p); }
    }
    assert Blocks(m, t) by {
      forall x | x in t.live ensures BlockOk(m, t, x) { BlockStays(m, b, t, x); }
    }
    var hs := heads[c := head];
    forall d | 0 <= d < SLABS ensures ListOk(m, hs[d], t, d) {
      WithPageList(m, heads, b, c, page, list, d, head);
    }
  }

  lemma ListStays(m: Memory, head: int, b: Book, t: Book, d: nat)
    requires |b.lists| == SLABS && d < SLABS && t.lists == b.lists && ListOk(m, head, b, d)
    requires forall x: nat :: InSlab(t, x, d) <==> InSlab(b, x, d)
    requires forall x: nat :: x % PAGE != 0 ==> (x in t.live <==> x in b.live)
    ensures ListOk(m, head, t, d)
  {
    hide Load, Chain, NoDup;
    forall x: nat ensures x in t.lists[d] <==> InSlab(t, x, d) && x !in t.live {
      SlotOff(x, d);
      assert InSlab(t, x, d) == InSlab(b, x, d);
    }
  }

  lemma WithRunFresh(m: Memory, heads: seq<int>, b: Book, page: nat, k: nat)
    requires Inv(m, heads, b) && Fresh(m, b, page, k) && 1 < k
    ensures (page + 1) * PAGE !in b.live
  {
    LiveOwned(m, heads, b, (page + 1) * PAGE);
    assert (page + 1) * PAGE / PAGE == page + 1;
    assert page + 1 !in b.owner;
  }

  lemma WithRunInv(m: Memory, heads: seq<int>, b: Book, page: nat, k: nat, size: nat)
    requires Inv(m, heads, b) && Fresh(m, b, page, k) && 1 < k && size + PAGE <= WORD_LIMIT && 0 < size
    requires k - 1 == PageCount(size)
    requires Load(m, page * PAGE) == k - 1 && Load(m, page * PAGE + 8) == size
    ensures (page + 1) * PAGE !in b.live && Inv(m, heads, WithRun(b, page, k, size))
  {
    hide Load, Slot, ListOk, Fresh;
    var t := WithRun(b, page, k, size);
    var a := (page + 1) * PAGE;
    WithRunFresh(m, heads, b, page, k);
    assert Fresh(m, b, page, k) && 0 < page && (page + k) * PAGE <= |m| && Extends(b, t) by {
      WithRunExtends(m, b, page, k, size);
    }
    assert Pages(m, t) by {
      hide BlockOk;
      forall p | p in t.owner
        ensures PageOk(m, t, p)
      {
        assert !(page <= p < page + k) ==> p in b.owner && PageOk(m, b, p);
      }
    }
    assert Blocks(m, t) by {
      forall x | x in t.live ensures BlockOk(m, t, x) {
        if x != a { hide BlockOk; BlockStays(m, b, t, x); }
      }
    }
    forall d | 0 <= d < SLABS ensures ListOk(m, heads[d], t, d) {
      hide BlockOk;
      ListStays(m, heads[d], b, t, d);
    }
  }

  lemma WithRunExtends(m: Memory, b: Book, page: nat, k: nat, size: nat)
    requires Fresh(m, b, page, k) && 0 < k
    ensures 0 < page && (page + k) * PAGE <= |m| && Extends(b, WithRun(b, page, k, size))
  {
  }

  lemma WithoutRunInv(m: Memory, heads: seq<int>, b: Book, a: nat)
    requires Inv(m, heads, b) && a in b.live && a % PAGE == 0
    ensures 2 * PAGE <= a && 0 < b.live[a].cap && Inv(m, heads, WithoutRun(b, a))
    ensures Fresh(m, WithoutRun(b, a), a / PAGE - 1, b.live[a].cap / PAGE + 1)
  {
    hide Load, Slot, PageCount;
    var t := WithoutRun(b, a);
    assert BlockOk(m, b, a);
    assert Pages(m, t) by {
      forall p | p in t.owner ensures PageOk(m, t, p) { assert PageOk(m, b, p); }
    }
    assert Blocks(m, t) by {
      forall x | x in t.live ensures BlockOk(m, t, x) {
        assert BlockOk(m, b, x);
        if x % PAGE == 0 {
          forall p: nat | x / PAGE - 1 <= p < x / PAGE + b.live[x].cap / PAGE
            ensures p in t.owner && t.owner[p] == Run(x)
          {
            assert p in b.owner;
          }
        }
      }
    }
    forall d | 0 <= d < SLABS ensures ListOk(m, heads[d], t, d) {
      assert ListOk(m, heads[d], b, d);
      forall x: nat ensures x in t.lists[d] <==> InSlab(t, x, d) && x !in t.live {
        assert InSlab(t, x, d) == InSlab(b, x, d);
        SlotOff(x, d);
      }
    }
  }

  lemma SlotOff(a: nat, c: nat)
    ensures Slot(a, c) ==> a % PAGE != 0
  {
  }

  // ----- the free list of a new page -----

  function At(x: nat, e: nat, i: nat): nat {
    x + i * e
  }

  ghost function Slots(x: nat, e: nat, k: nat): seq<nat>
    decreases k
  {
    if k == 0 then [] else [x] + Slots(x + e, e, k - 1)
  }

  lemma {:induction false} SlotsMember(x: nat, e: nat, k: nat, y: nat)
    requires 0 < e
    ensures y in Slots(x, e, k) <==> x <= y < x + k * e && (y - x) % e == 0
    decreases k
  {
    if k != 0 {
      SlotsMember(x + e, e, k - 1, y);
      assert k * e == (k - 1) * e + e;
      if x < y { GridStep(y - x, e); }
    }
  }

  lemma GridStep(d: nat, e: nat)
    requires 0 < d && 0 < e
    ensures d % e == 0 <==> e <= d && (d - e) % e == 0
  {
    if e <= d {
      var q1, r1 := (d - e) / e, (d - e) % e;
      OneMore(d, e, q1, r1);
      Divided(d, e);
      Unique(e, d / e, d % e, q1 + 1, r1);
    } else {
      assert d % e == d;
    }
  }

  lemma Divided(d: nat, e: nat)
    requires 0 < e
    ensures d == e * (d / e) + d % e
  {
  }

  lemma OneMore(d: nat, e: nat, q: nat, r: nat)
    requires 0 < e <= d && q == (d - e) / e && r == (d - e) % e
    ensures d == e * (q + 1) + r && r < e
  {
    Divided(d - e, e);
  }

  lemma Unique(e: nat, q: nat, r: nat, q1: nat, r1: nat)
    requires r < e && r1 < e && e * q + r == e * q1 + r1
    ensures r == r1
  {
    assert q < q1 ==> e * (q + 1) <= e * q1;
    assert q1 < q ==> e * (q1 + 1) <= e * q;
  }

  lemma {:induction false} SlotsNoDup(x: nat, e: nat, k: nat)
    requires 0 < e
    ensures NoDup(Slots(x, e, k))
    decreases k
  {
    if k != 0 {
      SlotsNoDup(x + e, e, k - 1);
      SlotsMember(x + e, e, k - 1, x);
    }
  }

  ghost predicate Linked(m: Memory, x: nat, e: nat, i: nat) {
    forall j: nat {:trigger At(x, e, j)} :: j < i ==> At(x, e, j) + 8 <= |m| && Load(m, At(x, e, j)) == At(x, e, j + 1)
  }

  lemma {:induction false} LinkedChain(m: Memory, x: nat, e: nat, k: nat, i: nat)
    requires i < k && Linked(m, x, e, k - 1) && At(x, e, k - 1) + 8 <= |m| && Load(m, At(x, e, k - 1)) == 0
    ensures Chain(m, At(x, e, i), Slots(At(x, e, i), e, k - i))
    decreases k - i
  {
    hide Load;
    var list := Slots(At(x, e, i), e, k - i);
    assert At(x, e, i) + e == At(x, e, i + 1);
    assert list[1..] == Slots(At(x, e, i + 1), e, k - i - 1);
    if i + 1 < k {
      LinkedChain(m, x, e, k, i + 1);
    }
  }

  lemma AtApart(x: nat, e: nat, i: nat, j: nat)
    requires j < i && 8 <= e
    ensures At(x, e, j) + 8 <= At(x, e, i)
  {
    assert j * e + e == (j + 1) * e <= i * e;
  }

  lemma LinkedStep(m: Memory, x: nat, e: nat, i: nat)
    requires Linked(m, x, e, i) && 8 <= e && At(x, e, i) + 8 <= |m| && At(x, e, i + 1) < WORD_LIMIT
    ensures Linked(Store(m, At(x, e, i), At(x, e, i + 1)), x, e, i + 1)
  {
    hide Load, At;
    var n := Store(m, At(x, e, i), At(x, e, i + 1));
    LoadStore(m, At(x, e, i), At(x, e, i + 1));
    forall j: nat | j < i ensures Load(n, At(x, e, j)) == At(x, e, j + 1) {
      AtApart(x, e, i, j);
      LoadOutside(m, n, At(x, e, i), 8, At(x, e, j));
    }
  }

  /** The objects of a slab page: as many as fit behind the header. */
  function SlotCount(c: nat): nat {
    (PAGE - Ent(c)) / Ent(c)
  }

  lemma PageSlots(page: nat, c: nat, a: nat)
    requires c < SLABS
    ensures a in Slots(page * PAGE + Ent(c), Ent(c), SlotCount(c)) <==> a / PAGE == page && Slot(a, c)
  {
    SlotsMember(page * PAGE + Ent(c), Ent(c), SlotCount(c), a);
    var o := a - page * PAGE;
    if 0 <= o < PAGE {
      assert o == a % PAGE && a / PAGE == page;
      CountSlots(o, c);
    }
  }

  lemma CountSlots(o: nat, c: nat)
    requires c < SLABS && o < PAGE
    ensures Ent(c) <= o < Ent(c) + SlotCount(c) * Ent(c) && (o - Ent(c)) % Ent(c) == 0
       <==> o % Ent(c) == 0 && Ent(c) <= o && o + Ent(c) <= PAGE
  {
    var e := Ent(c);
    var k := SlotCount(c);
    hide Ent;
    assert PAGE - e == e * k + (PAGE - e) % e;
    if e <= o { GridStep(o, e); }
    if e <= o < e + k * e && o % e == 0 {
      Whole(e, k + 1);
      Multiples(o, e * (k + 1), e);
    }
  }

  lemma Whole(e: nat, k: nat)
    requires 0 < e
    ensures (e * k) % e == 0
  {
    var q, r := e * k / e, e * k % e;
    Unique(e, q, r, k, 0);
  }

  // ----- the heap -----

  /** What the live blocks hold is the same in both memories. */
  ghost predicate Kept(m: Memory, n: Memory, live: map<nat, Block>) {
    |m| == |n| && forall a :: a in live ==> a + live[a].cap <= |m| && n[a..a + live[a].cap] == m[a..a + live[a].cap]
  }

  lemma KeptOutside(m: Memory, n: Memory, live: map<nat, Block>, x: nat, len: nat)
    requires Outside(m, n, x, len)
    requires forall a :: a in live ==> a + live[a].cap <= |m| && Apart(x, len, a, live[a].cap)
    ensures Kept(m, n, live)
  {
  }

  /** Memory the frame allocator may hand out: a run nobody holds, or 0 for a refusal. */
  ghost predicate Grant(m: Memory, b: Book, page: nat, k: nat) {
    page != 0 ==> Fresh(m, b, page, k)
  }

  /** Pages the heap asks of the frame allocator for a block. */
  function Asked(size: nat): nat {
    if size <= 1024 then 1 else PageCount(size) + 1
  }

  /** The slab is the first whose objects are large enough. */
  ghost predicate Smallest(c: nat, size: nat) {
    c < SLABS && size <= Ent(c) && forall d: nat :: d < c ==> Ent(d) < size
  }

  /** The block is an object of the smallest slab that will do. */
  ghost predicate InSmallest(b: Book, a: nat, size: nat) {
    a in b.live && exists c: nat :: Smallest(c, size) && InSlab(b, a, c) && b.live[a].cap == Ent(c)
  }

  /** The block at `r` is one that `slab_alloc` makes: an object of the smallest slab that will do, or a run. */
  ghost predicate Suits(b: Book, r: nat, size: nat, page: nat) {
    && r in b.live
    && if size <= 1024 then r % PAGE != 0 && exists c: nat :: Smallest(c, size) && b.live[r].cap == Ent(c)
       else page != 0 && r == (page + 1) * PAGE && b.live[r].cap == PageCount(size) * PAGE
  }

  lemma AllocSuits(b: Book, r: nat, size: nat, page: nat)
    requires if size <= 1024 then InSmallest(b, r, size)
             else page != 0 && r == (page + 1) * PAGE && r in b.live && b.live[r].cap == PageCount(size) * PAGE
    ensures Suits(b, r, size, page)
  {
    hide Ent, PageCount, Slot;
    if size <= 1024 {
      var c: nat :| Smallest(c, size) && InSlab(b, r, c) && b.live[r].cap == Ent(c);
      SlotNotAligned(r, c);
    }
  }

  lemma SuitsKept(b: Book, t: Book, r: nat, size: nat, page: nat)
    requires Suits(b, r, size, page) && r in t.live && t.live[r].cap == b.live[r].cap
    ensures Suits(t, r, size, page)
  {
  }

  /** The block has room for the new size where it is: the same number of pages, or an object large enough. */
  ghost predicate InPlace(b: Book, a: nat, size: nat)
    requires a in b.live
  {
    if a % PAGE == 0 then PageCount(b.live[a].size) == PageCount(size) else size <= b.live[a].cap
  }

  /** Pages held anew are pages of the run that was granted. */
  ghost predicate Holders(b: Book, t: Book, page: nat, k: nat) {
    forall p :: p in t.owner ==> p in b.owner || (page != 0 && page <= p < page + k)
  }

  /** The block at `a` has become that at `r`, with its bytes as far as both sizes go; no other is touched. */
  ghost predicate Moved(m: Memory, b: Book, n: Memory, t: Book, a: nat, r: nat, size: nat, page: nat)
    requires a in b.live
  {
    && r in t.live && size <= t.live[r].cap && t.live == (b.live - {a})[r := Block(t.live[r].cap, size)]
    && Copied(m, a, n, r, Least(b.live[a].size, size)) && Kept(m, n, b.live - {a}) && Holders(b, t, page, Asked(size))
  }

  /** The pages of the block's run, if it has one, are no longer the heap's. */
  ghost predicate GivenBack(b: Book, n: Memory, t: Book, a: nat, page: nat, count: nat)
    requires a in b.live
  {
    if a % PAGE != 0 then count == 0
    else page == a / PAGE - 1 && count == b.live[a].cap / PAGE + 1 && Fresh(n, t, page, count)
  }

  /** Of a page, the bytes between the header and a first object of `e` bytes were not written. */
  ghost predicate Skips(m: Memory, n: Memory, page: nat, e: nat) {
    |m| == |n| && forall i :: page * PAGE + 8 <= i < page * PAGE + e && i < |m| ==> n[i] == m[i]
  }

  lemma SkipsBefore(m: Memory, n: Memory, page: nat, e: nat, x: nat)
    requires Outside(m, n, x, 8) && page * PAGE + e <= x
    ensures Skips(m, n, page, e)
  {
  }

  /** Only the granted pages and the block were written, and in a new slab page not what lies before the objects. */
  ghost predicate Wrote(m: Memory, n: Memory, page: nat, k: nat, a: nat, cap: nat) {
    && |m| == |n|
    && (forall i :: 0 <= i < |m| && !(page != 0 && page * PAGE <= i < (page + k) * PAGE) && !(a <= i < a + cap) ==>
         n[i] == m[i])
    && (k == 1 ==> Skips(m, n, page, cap))
  }

  lemma WroteBlock(m: Memory, n: Memory, k: Memory, page: nat, a: nat, c: nat)
    requires (page != 0 && Outside(m, n, page * PAGE, PAGE) && Skips(m, n, page, Ent(c))) || m == n
    requires Outside(n, k, a, Ent(c)) && Slot(a, c)
    ensures Wrote(m, k, page, 1, a, Ent(c))
  {
    hide Ent;
    var o, q := a % PAGE, a / PAGE;
    assert a == q * PAGE + o && Ent(c) <= o;
    assert q < page || q == page || page + 1 <= q;
  }

  lemma WroteRun(m: Memory, n: Memory, page: nat, k: nat, a: nat, cap: nat)
    requires page != 0 && k != 1 && Outside(m, n, page * PAGE, k * PAGE)
    ensures Wrote(m, n, page, k, a, cap)
  {
  }

  ghost predicate Zero(m: Memory, a: nat, n: nat) {
    a + n <= |m| && forall i :: a <= i < a + n ==> m[i] == 0
  }

  /** Live blocks other than `a` are not disturbed by a write inside `a`. */
  lemma KeptOthers(m: Memory, n: Memory, heads: seq<int>, b: Book, a: nat, x: nat, len: nat)
    requires Inv(m, heads, b) && a in b.live && a <= x && x + len <= a + b.live[a].cap && Outside(m, n, x, len)
    ensures Kept(m, n, b.live - {a})
  {
    hide Inv, Outside;
    LiveFits(m, heads, b);
    forall y | y in b.live && y != a ensures Apart(x, len, y, b.live[y].cap) {
      LiveApart(m, heads, b, a, y);
    }
    KeptOutside(m, n, b.live - {a}, x, len);
  }

  lemma KeptTrans(m: Memory, n: Memory, k: Memory, live: map<nat, Block>)
    requires Kept(m, n, live) && Kept(n, k, live)
    ensures Kept(m, k, live)
  {
  }

  lemma LiveSlab(m: Memory, heads: seq<int>, b: Book, a: nat)
    requires Inv(m, heads, b) && a in b.live && a % PAGE != 0
    ensures a / PAGE in b.owner && b.owner[a / PAGE].SlabPage? && InSlab(b, a, b.owner[a / PAGE].slab)
    ensures b.live[a].cap == Ent(b.owner[a / PAGE].slab) && b.live[a].size <= b.live[a].cap && a + b.live[a].cap <= |m|
    ensures (a / PAGE + 1) * PAGE <= |m| && Load(m, a / PAGE * PAGE) == b.owner[a / PAGE].slab
  {
    hide Load, Lists, Slot;
    assert BlockOk(m, b, a);
    assert PageOk(m, b, a / PAGE);
    SlotNotAligned(a, b.owner[a / PAGE].slab);
  }

  lemma LiveRun(m: Memory, heads: seq<int>, b: Book, a: nat)
    requires Inv(m, heads, b) && a in b.live && a % PAGE == 0
    ensures 2 * PAGE <= a && 0 < b.live[a].cap && b.live[a].cap % PAGE == 0 && a + b.live[a].cap <= |m|
    ensures Load(m, a - PAGE) == b.live[a].cap / PAGE == PageCount(b.live[a].size)
    ensures Load(m, a - PAGE + 8) == b.live[a].size
    ensures b.live[a].size <= b.live[a].cap && b.live[a].size + PAGE <= WORD_LIMIT
  {
    hide Load, Lists, PageCount;
    assert BlockOk(m, b, a);
  }

  lemma KeptSame(m: Memory, heads: seq<int>, b: Book)
    requires Inv(m, heads, b)
    ensures Kept(m, m, b.live)
  {
    LiveFits(m, heads, b);
  }

  lemma KeptLess(m: Memory, n: Memory, live: map<nat, Block>, a: nat)
    requires Kept(m, n, live)
    ensures Kept(m, n, live - {a})
  {
  }

  lemma KeptBytes(m: Memory, n: Memory, live: map<nat, Block>, a: nat)
    requires Kept(m, n, live) && a in live
    ensures Copied(m, a, n, a, live[a].cap)
  {
  }

  /** The first `len` bytes at `a` are the first `len` bytes at `r` of the later memory. */
  ghost predicate Copied(m: Memory, a: nat, n: Memory, r: nat, len: nat) {
    a + len <= |m| && r + len <= |n| && n[r..r + len] == m[a..a + len]
  }

  lemma CopiedTrans(m: Memory, a: nat, n: Memory, b: nat, k: Memory, c: nat, len: nat, cap: nat, most: nat)
    requires Copied(m, a, n, b, cap) && Copied(n, b, k, c, most) && len <= cap && len <= most
    ensures Copied(m, a, k, c, len)
  {
    assert n[b..b + len] == n[b..b + cap][..len] == m[a..a + cap][..len] == m[a..a + len];
    assert k[c..c + len] == k[c..c + most][..len] == n[b..b + most][..len] == n[b..b + len];
  }

  lemma ZeroNotLive(m: Memory, heads: seq<int>, b: Book)
    requires Inv(m, heads, b)
    ensures 0 !in b.live
  {
    hide Load;
    forall x | x in b.live ensures x != 0 {
      assert BlockOk(m, b, x);
    }
  }

  lemma FillOutside(m: Memory, x: nat, len: nat)
    requires x + len <= |m|
    ensures Outside(m, Fill(m, x, len), x, len) && Zero(Fill(m, x, len), x, len)
  {
  }

  lemma CopyOutside(m: Memory, dst: nat, src: nat, len: nat)
    requires dst + len <= |m| && src + len <= |m|
    ensures Outside(m, Copy(m, dst, src, len), dst, len)
    ensures Copied(m, src, Copy(m, dst, src, len), dst, len)
  {
  }

  lemma FreshFits(m: Memory, b: Book, page: nat, k: nat)
    requires Fresh(m, b, page, k)
    ensures 0 < page && (page + k) * PAGE <= |m|
  {
  }

  lemma FreshPage(m: Memory, b: Book, page: nat, k: nat)
    requires Fresh(m, b, page, k) && 0 < k
    ensures page !in b.owner
  {
  }

  lemma FreshSame(m: Memory, n: Memory, b: Book, page: nat, k: nat)
    requires Fresh(m, b, page, k) && |m| == |n|
    ensures Fresh(n, b, page, k)
  {
  }

  function Least(x: nat, y: nat): nat {
    if x < y then x else y
  }

  /** The run of a new block: its metadata, then zeros. */
  lemma NewRun(m: Memory, page: nat, count: nat, size: nat)
    requires (page + count + 1) * PAGE <= |m| < WORD_LIMIT && size < WORD_LIMIT
    ensures page * PAGE + (count + 1) * PAGE <= |m|
    ensures var n := Store(Store(Fill(m, page * PAGE, (count + 1) * PAGE), page * PAGE, count), page * PAGE + 8, size);
      && Outside(m, n, page * PAGE, (count + 1) * PAGE)
      && Load(n, page * PAGE) == count && Load(n, page * PAGE + 8) == size
      && Zero(n, page * PAGE + PAGE, count * PAGE)
  {
    hide Load;
    var f := Fill(m, page * PAGE, (count + 1) * PAGE);
    var g := Store(f, page * PAGE, count);
    LoadStore(f, page * PAGE, count);
    LoadStore(g, page * PAGE + 8, size);
    LoadOutside(g, Store(g, page * PAGE + 8, size), page * PAGE + 8, 8, page * PAGE);
  }

  lemma SlabResized(m: Memory, heads: seq<int>, b: Book, a: nat, size: nat)
    requires Inv(m, heads, b) && a in b.live && a % PAGE != 0 && size <= b.live[a].cap && size + PAGE <= WORD_LIMIT
    ensures Inv(m, heads, Book(b.owner, b.lists, b.live[a := Block(b.live[a].cap, size)]))
  {
    hide Load, PageCount, Slot, Chain, NoDup;
    var t := Book(b.owner, b.lists, b.live[a := Block(b.live[a].cap, size)]);
    assert Pages(m, t) by {
      forall p | p in t.owner ensures PageOk(m, t, p) { assert PageOk(m, b, p); }
    }
    assert Blocks(m, t) by {
      forall x | x in t.live ensures BlockOk(m, t, x) { assert BlockOk(m, b, x); }
    }
    forall d | 0 <= d < SLABS ensures ListOk(m, heads[d], t, d) {
      assert ListOk(m, heads[d], b, d);
      ListStays(m, heads[d], b, t, d);
    }
  }

  lemma ResizedInv(m: Memory, heads: seq<int>, b: Book, a: nat, size: nat)
    requires Inv(m, heads, b) && a in b.live && a % PAGE == 0 && size + PAGE <= WORD_LIMIT
    requires PageCount(size) == PageCount(b.live[a].size) && PAGE <= a <= |m|
    ensures Inv(Store(m, a - PAGE + 8, size), heads, Book(b.owner, b.lists, b.live[a := Block(b.live[a].cap, size)]))
    ensures size <= b.live[a].cap && Kept(m, Store(m, a - PAGE + 8, size), b.live)
  {
    hide Inv, Load, Clear, PageCount;
    LiveRun(m, heads, b, a);
    LiveFits(m, heads, b);
    WithoutRunInv(m, heads, b, a);
    var t := WithoutRun(b, a);
    var page, k := a / PAGE - 1, b.live[a].cap / PAGE + 1;
    var n := Store(m, a - PAGE + 8, size);
    ClearFresh(m, heads, t, page, k);
    assert page * PAGE == a - PAGE;
    Frame(m, n, heads, t, page * PAGE, k * PAGE);
    LoadStore(m, a - PAGE + 8, size);
    LoadOutside(m, n, a - PAGE + 8, 8, a - PAGE);
    PageCountFits(size);
    WithRunInv(n, heads, t, page, k, size);
    assert WithRun(t, page, k, size) == Book(b.owner, b.lists, b.live[a := Block(b.live[a].cap, size)]) by {
      RunBack(m, heads, b, a, size);
    }
    assert Kept(m, n, b.live) by {
      forall y | y in b.live ensures Apart(a - PAGE + 8, 8, y, b.live[y].cap) {
        assert y != a ==> y in t.live && t.live[y] == b.live[y];
      }
      KeptOutside(m, n, b.live, a - PAGE + 8, 8);
    }
  }

  lemma PageCountFits(size: nat)
    requires size + PAGE <= WORD_LIMIT
    ensures size <= PageCount(size) * PAGE
    ensures 0 < PageCount(size) ==> 0 < size
  {
  }

  lemma RunBack(m: Memory, heads: seq<int>, b: Book, a: nat, size: nat)
    requires Inv(m, heads, b) && a in b.live && a % PAGE == 0 && 2 * PAGE <= a
    ensures WithRun(WithoutRun(b, a), a / PAGE - 1, b.live[a].cap / PAGE + 1, size)
         == Book(b.owner, b.lists, b.live[a := Block(b.live[a].cap, size)])
  {
    hide Inv, Load, PageCount;
    var page, k := a / PAGE - 1, b.live[a].cap / PAGE + 1;
    assert (page + 1) * PAGE == a;
    LiveRun(m, heads, b, a);
    var t := WithRun(WithoutRun(b, a), page, k, size);
    forall p: nat ensures p in t.owner <==> p in b.owner
      ensures p in b.owner ==> t.owner[p] == b.owner[p]
    {
      RunOwner(m, heads, b, a, p);
    }
    assert t.owner == b.owner;
    assert t.live == b.live[a := Block(b.live[a].cap, size)];
  }

  /** The pages of a run are its block's, and no others are. */
  lemma RunOwner(m: Memory, heads: seq<int>, b: Book, a: nat, p: nat)
    requires Inv(m, heads, b) && a in b.live && a % PAGE == 0 && 2 * PAGE <= a
    ensures p in b.owner && b.owner[p] == Run(a) <==> a / PAGE - 1 <= p < a / PAGE - 1 + (b.live[a].cap / PAGE + 1)
  {
    hide Lists, Load, PageCount, Slot;
    assert BlockOk(m, b, a);
    if p in b.owner {
      assert PageOk(m, b, p);
    }
  }

  lemma NothingInv(m: Memory, heads: seq<int>, b: Book)
    requires |heads| == |b.lists| == SLABS && b.owner == map[] && b.live == map[]
    requires forall c :: 0 <= c < SLABS ==> heads[c] == 0 && b.lists[c] == []
    ensures Inv(m, heads, b)
  {
    hide Slot, Load;
    forall c | 0 <= c < SLABS ensures ListOk(m, heads[c], b, c) {
      assert forall a: nat :: !InSlab(b, a, c);
    }
  }

  /** The first `n` slabs hold the first `n` pages, one each, and nothing else is held. */
  ghost predicate Started(b: Book, pages: seq<nat>, n: nat)
    requires n <= |pages|
  {
    (forall p :: p in b.owner <==> p in pages[..n]) && forall i :: 0 <= i < n ==> b.owner[pages[i]] == SlabPage(i)
  }

  lemma StartedFresh(m: Memory, b: Book, pages: seq<nat>, n: nat)
    requires n < |pages| && Started(b, pages, n) && 0 < pages[n] && (pages[n] + 1) * PAGE <= |m|
    requires forall i, j :: 0 <= i < j < |pages| ==> pages[i] != pages[j]
    ensures Fresh(m, b, pages[n], 1)
  {
    assert pages[n] !in pages[..n];
  }

  lemma StartedStep(b: Book, pages: seq<nat>, n: nat, list: seq<nat>)
    requires n < |pages| && n < |b.lists| && Started(b, pages, n)
    requires forall i, j :: 0 <= i < j < |pages| ==> pages[i] != pages[j]
    ensures Started(WithPage(b, n, pages[n], list), pages, n + 1)
  {
    assert pages[..n + 1] == pages[..n] + [pages[n]];
    forall i | 0 <= i < n ensures pages[i] in pages[..n] { assert pages[..n][i] == pages[i]; }
  }

  class Heap {
    var mem: Memory
    var heads: seq<int>
    ghost var book: Book

    ghost predicate Valid()
      reads this
    {
      Inv(mem, heads, book) && |mem| < WORD_LIMIT
    }

    /** `slab_init`: every slab starts with one page, and nothing is live. */
    constructor (memory: Memory, pages: seq<nat>)
      requires |memory| < WORD_LIMIT && |pages| == SLABS
      requires forall i :: 0 <= i < SLABS ==> 0 < pages[i] && (pages[i] + 1) * PAGE <= |memory|
      requires forall i, j :: 0 <= i < j < SLABS ==> pages[i] != pages[j]
      ensures Valid() && |mem| == |memory| && book.live == map[] && Started(book, pages, SLABS)
    {
      mem := memory;
      heads := seq(SLABS, _ => 0);
      book := Book(map[], seq(SLABS, _ => []), map[]);
      new;
      hide Slots, Inv, Slot, Load, Fresh;
      NothingInv(memory, heads, book);
      var i := 0;
      while i < SLABS
        invariant i <= SLABS && Valid() && |mem| == |memory| && book.live == map[] && |heads| == SLABS
        invariant forall d :: i <= d < SLABS ==> heads[d] == 0
        invariant Started(book, pages, i)
      {
        hide Started;
        ghost var before := book;
        NoHead(i);
        StartedFresh(mem, book, pages, i);
        CreateSlab(i, pages[i]);
        NoHead(i);
        StartedStep(before, pages, i, Slots(pages[i] * PAGE + Ent(i), Ent(i), SlotCount(i)));
        i := i + 1;
      }
    }

    /** `slab_for`: the smallest slab whose objects hold `size` bytes. */
    static method SlabFor(size: nat) returns (c: nat)
      ensures c <= SLABS && (c < SLABS <==> size <= 1024)
      ensures c < SLABS ==> Smallest(c, size)
    {
      c := 0;
      while c < SLABS
        invariant c <= SLABS && forall d: nat :: d < c ==> Ent(d) < size
      {
        if Ent(c) >= size { return; }
        c := c + 1;
      }
      assert Ent(9) < size;
    }

    /** The loop of `create_slab`: the page gets its header and its objects are linked in address order. */
    method CutPage(c: nat, page: nat)
      requires c < SLABS && (page + 1) * PAGE <= |mem| < WORD_LIMIT
      modifies this`mem
      ensures Outside(old(mem), mem, page * PAGE, PAGE)
      ensures Load(mem, page * PAGE) == c
      ensures Chain(mem, page * PAGE + Ent(c), Slots(page * PAGE + Ent(c), Ent(c), SlotCount(c)))
      ensures Skips(old(mem), mem, page, Ent(c))
    {
      hide Load, Chain, Slots, Ent, At, Linked;
      var e := Ent(c);
      var first := page * PAGE + e;
      LoadStore(mem, page * PAGE, c);
      mem := Store(mem, page * PAGE, c);
      SlotsFit(page, c);
      var max := SlotCount(c) - 1;
      LinkedNone(mem, first, e);
      var i := 0;
      while i < max
        invariant i <= max && |mem| == old(|mem|)
        invariant Outside(old(mem), mem, page * PAGE, PAGE)
        invariant Load(mem, page * PAGE) == c && Skips(old(mem), mem, page, e)
        invariant Linked(mem, first, e, i)
      {
        SlotFits(page, c, i);
        SlotFits(page, c, i + 1);
        LinkedStep(mem, first, e, i);
        Relink(page, c, i, At(first, e, i + 1));
        i := i + 1;
      }
      SlotFits(page, c, max);
      LoadStore(mem, At(first, e, max), 0);
      LinkedLast(mem, first, e, max);
      Relink(page, c, max, 0);
      LinkedChain(mem, first, e, max + 1, 0);
      AtZero(first, e);
    }

    /** One assignment to the object array of a page. */
    method Relink(page: nat, c: nat, i: nat, v: nat)
      requires c < SLABS && i < SlotCount(c) && (page + 1) * PAGE <= |mem|
      modifies this`mem
      ensures At(page * PAGE + Ent(c), Ent(c), i) + 8 <= |mem| == old(|mem|)
      ensures mem == Store(old(mem), At(page * PAGE + Ent(c), Ent(c), i), v)
      ensures Outside(old(mem), mem, page * PAGE, PAGE)
      ensures Load(mem, page * PAGE) == old(Load(mem, page * PAGE)) && Skips(old(mem), mem, page, Ent(c))
    {
      hide Load, Ent, At, Skips;
      SlotFits(page, c, i);
      ghost var now := mem;
      var x := At(page * PAGE + Ent(c), Ent(c), i);
      mem := Store(mem, x, v);
      LoadOutside(now, mem, x, 8, page * PAGE);
      SkipsBefore(now, mem, page, Ent(c), x);
    }

    /** `create_slab`: a fresh page becomes a slab page, all of it free. */
    method CreateSlab(c: nat, page: nat)
      requires Valid() && c < SLABS && heads[c] == 0 && Fresh(mem, book, page, 1)
      modifies this
      ensures Valid() && |mem| == old(|mem|) && Kept(old(mem), mem, book.live)
      ensures Outside(old(mem), mem, page * PAGE, PAGE) && Skips(old(mem), mem, page, Ent(c))
      ensures book == WithPage(old(book), c, page, Slots(page * PAGE + Ent(c), Ent(c), SlotCount(c)))
      ensures forall d :: 0 <= d < SLABS && d != c ==> heads[d] == old(heads)[d]
      ensures book.lists[c] != [] && book.lists[c][0] == heads[c]
    {
      hide Inv, Load, Slot, Kept, PageCount, Clear, Ent, Chain, Slots, NoDup;
      ghost var before := mem;
      ghost var hs := heads;
      NoHead(c);
      assert Inv(before, hs, book);
      ClearFresh(mem, heads, book, page, 1);
      LiveFits(before, hs, book);
      CutPage(c, page);
      var first := page * PAGE + Ent(c);
      heads := heads[c := first];
      ghost var list := Slots(first, Ent(c), SlotCount(c));
      Frame(before, mem, hs, book, page * PAGE, PAGE);
      SlotsNoDup(first, Ent(c), SlotCount(c));
      forall a: nat ensures a in list <==> a / PAGE == page && Slot(a, c) { PageSlots(page, c, a); }
      WithPageInv(mem, hs, book, c, page, first, list);
      KeptOutside(before, mem, book.live, page * PAGE, PAGE);
      SlotsFit(page, c);
      book := WithPage(book, c, page, list);
    }

    /** `alloc_from_slab`. */
    method AllocFromSlab(c: nat, size: nat, page: nat) returns (a: nat)
      requires Valid() && c < SLABS && size <= Ent(c) && (heads[c] == 0 ==> Fresh(mem, book, page, 1))
      modifies this
      ensures Valid() && |mem| == old(|mem|)
      ensures 0 < a && a !in old(book.live) && book.live == old(book.live)[a := Block(Ent(c), size)]
      ensures InSlab(book, a, c)
      ensures book.owner == if old(heads[c]) == 0 then old(book.owner)[page := SlabPage(c)] else old(book.owner)
      ensures Kept(old(mem), mem, old(book.live)) && Zero(mem, a, Ent(c))
      ensures old(heads[c]) != 0 ==> a == old(heads[c])
      ensures Wrote(old(mem), mem, page, 1, a, Ent(c))
    {
      hide Inv, Load, Slot, PageCount, Clear, Ent, Chain, Slots, NoDup, Fresh, Kept, Outside, Wrote, Skips;
      ghost var live: map<nat, Block> := book.live;
      NoHead(c);
      KeptSame(mem, heads, book);
      if heads[c] == 0 {
        FreshFits(mem, book, page, 1);
        CreateSlab(c, page);
      }
      ghost var now := mem;
      NoHead(c);
      TakenInv(mem, heads, book, c, size);
      a := heads[c];
      heads := heads[c := Load(mem, a)];
      book := Taken(book, c, size);
      LiveFits(mem, heads, book);
      assert a in book.live && book.live[a] == Block(Ent(c), size);
      mem := Fill(mem, a, Ent(c));
      FillOutside(now, a, Ent(c));
      ClearLive(now, heads, book, a, a, Ent(c));
      Frame(now, mem, heads, book, a, Ent(c));
      KeptOthers(now, mem, heads, book, a, a, Ent(c));
      assert book.live - {a} == live;
      KeptTrans(old(mem), now, mem, live);
      WroteBlock(old(mem), now, mem, page, a, c);
      ZeroNotLive(mem, heads, book);
    }

    /** `slab_alloc`; `page` is the frame allocator's answer, 0 for none. */
    method Alloc(size: nat, page: nat) returns (a: nat)
      requires Valid() && size + PAGE <= WORD_LIMIT && Grant(mem, book, page, Asked(size))
      requires forall c: nat :: Smallest(c, size) && heads[c] == 0 ==> page != 0
      modifies this
      ensures Valid() && |mem| == old(|mem|) && Holders(old(book), book, page, Asked(size))
      ensures a == 0 <==> 1024 < size && page == 0
      ensures a == 0 ==> mem == old(mem) && heads == old(heads) && book == old(book)
      ensures a != 0 ==> a !in old(book.live) && a in book.live && size <= book.live[a].cap
                         && book.live == old(book.live)[a := Block(book.live[a].cap, size)]
                         && Zero(mem, a, book.live[a].cap)
      ensures a != 0 ==> if size <= 1024 then InSmallest(book, a, size)
                         else a == (page + 1) * PAGE && book == WithRun(old(book), page, PageCount(size) + 1, size)
      ensures a != 0 ==> Wrote(old(mem), mem, page, Asked(size), a, book.live[a].cap)
      ensures Extends(old(book), book)
      ensures forall c: nat :: Smallest(c, size) && c < |old(heads)| && old(heads)[c] != 0 ==> a == old(heads)[c]
      ensures Kept(old(mem), mem, old(book.live))
    {
      hide Inv, Load, Slot, Clear, Ent, PageCount, Fresh, Kept, Outside, Wrote;
      KeptSame(mem, heads, book);
      var c := SlabFor(size);
      if c < SLABS {
        NoHead(c);
        if heads[c] == 0 { FreshPage(mem, book, page, 1); }
        a := AllocFromSlab(c, size, page);
        return;
      }
      var count := PageCount(size);
      if page == 0 {
        return 0;
      }
      ghost var before := mem;
      PageCountFits(size);
      FreshFits(mem, book, page, count + 1);
      LiveFits(mem, heads, book);
      ClearFresh(mem, heads, book, page, count + 1);
      mem := Fill(mem, page * PAGE, (count + 1) * PAGE);
      mem := Store(mem, page * PAGE, count);
      mem := Store(mem, page * PAGE + 8, size);
      a := page * PAGE + PAGE;
      NewRun(before, page, count, size);
      WroteRun(before, mem, page, count + 1, a, count * PAGE);
      WithRunExtends(before, book, page, count + 1, size);
      Frame(before, mem, heads, book, page * PAGE, (count + 1) * PAGE);
      FreshSame(before, mem, book, page, count + 1);
      WithRunInv(mem, heads, book, page, count + 1, size);
      KeptOutside(before, mem, book.live, page * PAGE, (count + 1) * PAGE);
      book := WithRun(book, page, count + 1, size);
    }

    /** `free_in_slab`. */
    method FreeInSlab(c: nat, a: nat)
      requires Valid() && a in book.live && InSlab(book, a, c)
      modifies this
      ensures Valid() && |mem| == old(|mem|)
      ensures book == Given(old(book), c, a) && heads == old(heads)[c := a]
      ensures Kept(old(mem), mem, book.live) && Outside(old(mem), mem, a, 8)
    {
      hide Inv, Load, Slot, Clear, Kept, PageCount;
      ghost var before := mem;
      assert a % PAGE != 0 by { SlotOff(a, c); }
      LiveSlab(mem, heads, book, a);
      NoHead(c);
      HeadFits(c);
      mem := Store(mem, a, heads[c]);
      LoadStore(before, a, heads[c]);
      ClearLive(before, heads, book, a, a, 8);
      Frame(before, mem, heads, book, a, 8);
      KeptOthers(before, mem, heads, book, a, a, 8);
      GivenInv(mem, heads, book, c, a);
      heads := heads[c := a];
      book := Given(book, c, a);
    }

    /** `slab_free`; the result is the run given back to the frame allocator, if any. */
    method Free(a: nat) returns (page: nat, count: nat)
      requires Valid() && (a == 0 || a in book.live)
      modifies this
      ensures Valid() && |mem| == old(|mem|)
      ensures book.live == old(book.live) - {a} && Kept(old(mem), mem, book.live)
      ensures a == 0 ==> mem == old(mem) && heads == old(heads) && book == old(book)
      ensures a % PAGE != 0 ==> a / PAGE in old(book.owner) && old(book.owner)[a / PAGE].SlabPage?
                                && old(book.owner)[a / PAGE].slab < |old(book.lists)|
                                && book == Given(old(book), old(book.owner)[a / PAGE].slab, a)
                                && old(book.owner)[a / PAGE].slab < |old(heads)|
                                && heads == old(heads)[old(book.owner)[a / PAGE].slab := a]
                                && Outside(old(mem), mem, a, 8)
      ensures a % PAGE == 0 ==> mem == old(mem) && heads == old(heads)
      ensures a % PAGE == 0 && a != 0 ==> book == WithoutRun(old(book), a) && Fresh(mem, book, page, count)
                                          && page == a / PAGE - 1 && count == old(book).live[a].cap / PAGE + 1
      ensures a % PAGE != 0 || a == 0 ==> count == 0
    {
      hide Inv, Load, Slot, Kept, PageCount, Fresh;
      page, count := 0, 0;
      KeptSame(mem, heads, book);
      ZeroNotLive(mem, heads, book);
      if a == 0 { return; }
      if a % PAGE == 0 {
        LiveRun(mem, heads, book, a);
        WithoutRunInv(mem, heads, book, a);
        page, count := a / PAGE - 1, Load(mem, a - PAGE) + 1;
        KeptLess(mem, mem, book.live, a);
        book := WithoutRun(book, a);
        return;
      }
      LiveSlab(mem, heads, book, a);
      NoHead(0);
      FreeInSlab(Load(mem, a / PAGE * PAGE), a);
    }

    /** `slab_realloc`; the last two results are the run given back to the frame allocator, if any. */
    method Realloc(a: nat, size: nat, page: nat) returns (r: nat, freed: nat, count: nat)
      requires Valid() && (a == 0 || a in book.live)
      requires size + PAGE <= WORD_LIMIT && Grant(mem, book, page, Asked(size))
      requires (a != 0 && InPlace(book, a, size)) || forall c: nat :: Smallest(c, size) && heads[c] == 0 ==> page != 0
      modifies this
      ensures Valid() && |mem| == old(|mem|)
      ensures r == 0 ==> 1024 < size && page == 0 && mem == old(mem) && heads == old(heads) && book == old(book)
      ensures a != 0 ==> (InPlace(old(book), a, size) <==> r == a)
      ensures if a == 0 || r == 0 || r == a then count == 0 else GivenBack(old(book), mem, book, a, freed, count)
      ensures a != 0 && r != 0 ==> (r == a || r !in old(book.live))
                                   && Moved(old(mem), old(book), mem, book, a, r, size, if r == a then 0 else page)
      ensures a == 0 && r != 0 ==> r !in old(book.live) && r in book.live && size <= book.live[r].cap
                                   && book.live == old(book.live)[r := Block(book.live[r].cap, size)]
                                   && Zero(mem, r, book.live[r].cap)
                                   && Kept(old(mem), mem, old(book.live)) && Holders(old(book), book, page, Asked(size))
      ensures r != 0 && r != a ==> Suits(book, r, size, page)
    {
      hide Inv, Load, Slot, Kept, PageCount, Fresh, Ent, Smallest, Grant, Asked, InPlace, Copied, Moved, GivenBack;
      hide Suits;
      ZeroNotLive(mem, heads, book);
      freed, count := 0, 0;
      if a == 0 {
        r := Alloc(size, page);
        if r != 0 {
          AllocSuits(book, r, size, page);
        }
        return;
      }
      var room, n := HasRoom(a, size);
      if room {
        Resize(a, size);
        r := a;
      } else {
        r, freed, count := Relocate(a, size, page, n);
      }
    }

    /** The test of `slab_realloc` for staying in place, and the bytes it copies otherwise. */
    method HasRoom(a: nat, size: nat) returns (room: bool, n: nat)
      requires Valid() && a in book.live
      ensures room == InPlace(book, a, size)
      ensures !room ==> Least(book.live[a].size, size) <= n <= book.live[a].cap && (a % PAGE == 0 || 0 < n < size)
      ensures !room && a % PAGE == 0 ==> n <= size
    {
      hide Inv, Load, Slot, PageCount;
      if a % PAGE == 0 {
        LiveRun(mem, heads, book, a);
        var had := Load(mem, a - PAGE + 8);
        room, n := PageCount(had) == PageCount(size), if had > size then size else had;
      } else {
        LiveSlab(mem, heads, book, a);
        var slab := Load(mem, a / PAGE * PAGE);
        room, n := size <= Ent(slab), Ent(slab);
      }
    }

    /** The block gets its new size where it is; an object does not record its size. */
    method Resize(a: nat, size: nat)
      requires Valid() && a in book.live && InPlace(book, a, size) && size + PAGE <= WORD_LIMIT
      modifies this`mem, this`book
      ensures Valid() && |mem| == old(|mem|) && Moved(old(mem), old(book), mem, book, a, a, size, 0)
    {
      hide Inv, Load, Slot, PageCount, Kept;
      ghost var before := mem;
      ghost var live: map<nat, Block> := book.live;
      KeptSame(mem, heads, book);
      LiveFits(mem, heads, book);
      if a % PAGE == 0 {
        LiveRun(mem, heads, book, a);
        ResizedInv(mem, heads, book, a, size);
        mem := Store(mem, a - PAGE + 8, size);
      } else {
        SlabResized(mem, heads, book, a, size);
      }
      KeptLess(before, mem, live, a);
      KeptBytes(before, mem, live, a);
      KeptSame(before, heads, book);
      KeptBytes(before, before, live, a);
      book := Book(book.owner, book.lists, book.live[a := Block(book.live[a].cap, size)]);
      CopiedTrans(before, a, before, a, mem, a, Least(live[a].size, size), live[a].cap, live[a].cap);
      assert book.live == (live - {a})[a := Block(live[a].cap, size)];
    }

    /** A new block is found, `n` bytes go over, and the old block is freed. */
    method Relocate(a: nat, size: nat, page: nat, n: nat) returns (r: nat, freed: nat, count: nat)
      requires Valid() && a in book.live && size + PAGE <= WORD_LIMIT && Grant(mem, book, page, Asked(size))
      requires forall c: nat :: Smallest(c, size) && heads[c] == 0 ==> page != 0
      requires Least(book.live[a].size, size) <= n <= book.live[a].cap && n <= size
      modifies this
      ensures Valid() && |mem| == old(|mem|) && r != a
      ensures r == 0 ==> 1024 < size && page == 0 && mem == old(mem) && heads == old(heads) && book == old(book)
      ensures r != 0 ==> r !in old(book.live) && Moved(old(mem), old(book), mem, book, a, r, size, page)
      ensures r != 0 ==> Suits(book, r, size, page)
      ensures if r == 0 then count == 0 else GivenBack(old(book), mem, book, a, freed, count)
    {
      hide Inv, Load, Slot, Kept, PageCount, Fresh, Ent, Smallest, Grant, Asked, Copied, Suits;
      ghost var live: map<nat, Block> := book.live;
      ghost var before := mem;
      ZeroNotLive(mem, heads, book);
      freed, count := 0, 0;
      r := Alloc(size, page);
      if r == 0 {
        return;
      }
      ghost var between := mem;
      ghost var made := book;
      ghost var grown: map<nat, Block> := book.live;
      AllocSuits(book, r, size, page);
      assert grown - {a} - {r} == live - {a};
      freed, count := Move(a, r, n);
      KeptLess(before, between, live, a);
      KeptBytes(before, between, live, a);
      CopiedTrans(before, a, between, a, mem, r, Least(live[a].size, size), live[a].cap, n);
      KeptTrans(before, between, mem, live - {a});
      assert book.live == (live - {a})[r := Block(grown[r].cap, size)];
      SuitsKept(made, book, r, size, page);
    }

    /** The block is copied into its new place and the old one freed. */
    method Move(a: nat, r: nat, n: nat) returns (freed: nat, count: nat)
      requires Valid() && a in book.live && r in book.live && a != r && n <= book.live[a].cap && n <= book.live[r].cap
      modifies this
      ensures Valid() && |mem| == old(|mem|) && book.live == old(book.live) - {a} && Holders(old(book), book, 0, 0)
      ensures Copied(old(mem), a, mem, r, n)
      ensures Kept(old(mem), mem, old(book.live) - {a} - {r})
      ensures GivenBack(old(book), mem, book, a, freed, count)
    {
      hide Inv, Load, Slot, PageCount, Fresh, Ent, Kept, Clear;
      ghost var before := mem;
      ghost var live: map<nat, Block> := book.live;
      ZeroNotLive(mem, heads, book);
      LiveFits(mem, heads, book);
      mem := Copy(mem, r, a, n);
      ghost var copied := mem;
      CopyOutside(before, r, a, n);
      ClearLive(before, heads, book, r, r, n);
      Frame(before, mem, heads, book, r, n);
      KeptOthers(before, mem, heads, book, r, r, n);
      KeptLess(before, mem, live - {r}, a);
      assert live - {r} - {a} == live - {a} - {r};
      freed, count := Free(a);
      KeptBytes(copied, mem, live - {a}, r);
      KeptLess(copied, mem, live - {a}, r);
      KeptTrans(before, copied, mem, live - {a} - {r});
      CopiedTrans(before, a, copied, r, mem, r, n, n, live[r].cap);
    }

    /** Bytes go into a live block. */
    method Write(a: nat, off: nat, bytes: seq<Byte>)
      requires Valid() && a in book.live && off + |bytes| <= book.live[a].cap
      modifies this`mem
      ensures Valid() && a + off + |bytes| <= |old(mem)| && mem == Put(old(mem), a + off, bytes)
      ensures Kept(old(mem), mem, book.live - {a})
    {
      hide Inv, Clear, Kept;
      ghost var before := mem;
      LiveFits(mem, heads, book);
      mem := Put(mem, a + off, bytes);
      ClearLive(before, heads, book, a, a + off, |bytes|);
      Frame(before, mem, heads, book, a + off, |bytes|);
      KeptOthers(before, mem, heads, book, a, a + off, |bytes|);
    }

    /** An object that is freed and an object of the same slab asked for next are the same object, zeroed: whoever
        still reads the freed one finds zeros. */
    method FreeThenAlloc(a: nat, size: nat, page: nat) returns (r: nat)
      requires Valid() && a in book.live && a % PAGE != 0
      requires forall c: nat :: Smallest(c, size) ==> InSlab(book, a, c)
      requires size <= 1024
      modifies this
      ensures Valid() && r == a && Zero(mem, a, size)
    {
      hide Inv, Load, Slot, Kept, PageCount, Fresh, Ent, InSlab;
      var c := SlabFor(size);
      ZeroNotLive(mem, heads, book);
      assert c < SLABS && InSlab(book, a, c);
      NoHead(c);
      FreeInSlab(c, a);
      r := AllocFromSlab(c, size, page);
    }

    lemma HeadFits(c: nat)
      requires Valid() && c < SLABS
      ensures |heads| == SLABS && 0 <= heads[c] < WORD_LIMIT
    {
      assert ListOk(mem, heads[c], book, c);
    }

    lemma NoHead(c: nat)
      requires Valid() && c < SLABS
      ensures |heads| == |book.lists| == SLABS
      ensures book.lists[c] == [] <==> heads[c] == 0
    {
      assert ListOk(mem, heads[c], book, c);
      if book.lists[c] != [] {
        assert book.lists[c][0] in book.lists[c];
        assert PageOk(mem, book, book.lists[c][0] / PAGE);
      }
    }
  }

  lemma SlotsFit(page: nat, c: nat)
    requires c < SLABS
    ensures 1 <= SlotCount(c) && Ent(c) + SlotCount(c) * Ent(c) <= PAGE
    ensures Slots(page * PAGE + Ent(c), Ent(c), SlotCount(c)) != []
    ensures Slots(page * PAGE + Ent(c), Ent(c), SlotCount(c))[0] == page * PAGE + Ent(c)
  {
    var e := Ent(c);
    hide Ent;
    assert PAGE - e == e * SlotCount(c) + (PAGE - e) % e;
    assert SlotCount(c) == 0 ==> PAGE - e < e;
  }

  lemma SlotFits(page: nat, c: nat, i: nat)
    requires c < SLABS && i < SlotCount(c)
    ensures page * PAGE + 8 <= page * PAGE + Ent(c) <= At(page * PAGE + Ent(c), Ent(c), i)
    ensures At(page * PAGE + Ent(c), Ent(c), i) + Ent(c) <= (page + 1) * PAGE
  {
    SlotsFit(page, c);
    var e, k := Ent(c), SlotCount(c);
    hide Ent, SlotCount;
    Monotone(i + 1, k, e);
    assert (i + 1) * e == i * e + e;
  }

  lemma Monotone(i: nat, k: nat, e: nat)
    requires i <= k
    ensures i * e <= k * e
  {
  }

  lemma LinkedNone(m: Memory, x: nat, e: nat)
    ensures Linked(m, x, e, 0)
  {
  }

  lemma AtZero(x: nat, e: nat)
    ensures At(x, e, 0) == x
  {
  }

  lemma LinkedLast(m: Memory, x: nat, e: nat, i: nat)
    requires Linked(m, x, e, i) && 8 <= e && At(x, e, i) + 8 <= |m|
    ensures Linked(Store(m, At(x, e, i), 0), x, e, i)
  {
    hide Load, At;
    var n := Store(m, At(x, e, i), 0);
    forall j: nat | j < i ensures Load(n, At(x, e, j)) == At(x, e, j + 1) {
      AtApart(x, e, i, j);
      LoadOutside(m, n, At(x, e, i), 8, At(x, e, j));
    }
  }

  lemma LiveFits(m: Memory, heads: seq<int>, b: Book)
    requires Inv(m, heads, b)
    ensures forall a :: a in b.live ==> a + b.live[a].cap <= |m| && b.live[a].size <= b.live[a].cap
  {
    forall a | a in b.live ensures a + b.live[a].cap <= |m| && b.live[a].size <= b.live[a].cap {
      assert BlockOk(m, b, a);
      if a % PAGE != 0 {
        assert PageOk(m, b, a / PAGE);
        SlotNotAligned(a, b.owner[a / PAGE].slab);
      }
    }
  }
}
