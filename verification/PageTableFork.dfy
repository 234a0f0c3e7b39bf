/**
  Forking an address space: shared ranges get the parent's entries, private anonymous ranges get copies
  of the parent's pages in fresh frames, recorded in a shadow page table as well.
 */
module PageTableFork {
  import opened PageEntries
  import opened PageTables
  import opened Wrappers

  const LOWER_PAGES: nat := 0x8_0000_0000  // pages of the lower half

  /** A range of the address space, in pages. */
  datatype Range = Range(base: nat, length: nat, shared: bool)

  predicate InRange(r: Range, page: nat) {
    r.base <= page < r.base + r.length
  }

  ghost predicate GoodRanges(ranges: seq<Range>) {
    && (forall k :: 0 <= k < |ranges| ==> ranges[k].base + ranges[k].length <= LOWER_PAGES)
    && (forall j, k, n :: 0 <= j < k < |ranges| && InRange(ranges[j], n) ==> !InRange(ranges[k], n))
  }

  /** A frame in use that is not a page table. */
  ghost predicate IsData(mem: Memory, pos: map<Frame, Pos>, free: set<Frame>, f: Frame) {
    f in mem && f !in pos && f !in free
  }

  /** The parent's private pages lie in data frames. */
  ghost predicate Backed(mem: Memory, pos: map<Frame, Pos>, free: set<Frame>, parent: Frame, r: Range) {
    forall n :: InRange(r, n) && Present(View(mem, parent, n)) ==> IsData(mem, pos, free, Addr(View(mem, parent, n)))
  }

  /** The whole state at one moment. */
  datatype State = State(mem: Memory, roots: set<Frame>, pos: map<Frame, Pos>, free: set<Frame>)

  ghost function Now(mm: AddressSpaces): State
    reads mm
  {
    State(mm.mem, mm.roots, mm.pos, mm.free)
  }

  /** Frames in use stay in use, and data frames keep their contents. */
  ghost predicate Keeps(a: State, b: State) {
    && b.free <= a.free
    && (forall u :: u in a.pos ==> u in b.pos && b.pos[u] == a.pos[u])
    && (forall u :: u in b.pos && u !in a.pos ==> u in a.free)
    && (forall u :: IsData(a.mem, a.pos, a.free, u) ==> u in b.mem && b.mem[u] == a.mem[u])
  }

  lemma KeepsTrans(a: State, b: State, c: State)
    requires Keeps(a, b) && Keeps(b, c)
    ensures Keeps(a, c)
  {
  }

  lemma LowerPath(n: nat)
    requires n < LOWER_PAGES
    ensures PathOf(n)[0] < KERNEL_HALF
  {
  }

  lemma SamePath(m: nat, n: nat)
    requires m < LOWER_PAGES && n < LOWER_PAGES
    ensures PathOf(m) == PathOf(n) <==> m == n
  {
    if PathOf(m) == PathOf(n) {
      PathInjective(m, n);
    }
  }

  /** What fork promises for page `n` of a range; `now` is the state it is asked about. */
  ghost predicate Forked(was: State, now: State, parent: Frame, child: Frame, shadow: Frame, shared: bool, n: nat) {
    var e, c := View(was.mem, parent, n), View(now.mem, child, n);
    if shared then c == e
    else
      && (Present(c) <==> Present(e))
      && View(now.mem, shadow, n) == c
      && (Present(e) ==>
            && Flags(c) == Flags(e)
            && Addr(c) in was.free && IsData(now.mem, now.pos, now.free, Addr(c))
            && Addr(e) in was.mem && now.mem[Addr(c)] == was.mem[Addr(e)])
  }

  /** Private pages never share a frame. */
  ghost predicate Distinct(now: State, child: Frame, pages: set<nat>) {
    forall m, n ::
          m in pages && n in pages && m != n && Present(View(now.mem, child, m)) && Present(View(now.mem, child, n)) ==>
      Addr(View(now.mem, child, m)) != Addr(View(now.mem, child, n))
  }

  /** Later steps that leave the entries of page `n` alone keep what was promised for it. */
  lemma ForkedKept(was: State, a: State, b: State, parent: Frame, child: Frame, shadow: Frame, shared: bool, n: nat)
    requires Forked(was, a, parent, child, shadow, shared, n) && Keeps(a, b)
    requires View(b.mem, child, n) == View(a.mem, child, n) && View(b.mem, shadow, n) == View(a.mem, shadow, n)
    ensures Forked(was, b, parent, child, shadow, shared, n)
  {
    hide Addr, Present, Flags, View;
  }

  /** The entry stored for one page: every other lookup of the old address spaces is untouched. */
  ghost predicate Stored(a: State, b: State, child: Frame, shadow: Frame, n: nat, c: Word) {
    && b.roots == a.roots
    && forall r, q :: r in a.roots && |q| == 4 && IsPath(q) ==>
         Lookup(b.mem, r, q) == if q == PathOf(n) && (r == child || r == shadow) then c else Lookup(a.mem, r, q)
  }

  /** Present entries above the last level stay, so a leaf that was found is still found. */
  lemma {:induction false} LeafStays(mem: Memory, roots: set<Frame>, pos: map<Frame, Pos>, free: set<Frame>,
                                     mem': Memory, pos': map<Frame, Pos>, free': set<Frame>, t: Frame, p: Path)
    requires Placed(mem, roots, pos) && Grows(mem, pos, free, mem', pos', free', roots)
    requires t in pos && p != [] && IsPath(p) && |pos[t].path| + |p| == 4 && LeafTable(mem, t, p).Some?
    ensures LeafTable(mem', t, p) == LeafTable(mem, t, p)
    decreases |p|
  {
    hide Addr, Present, Unchanged;
    if |p| > 1 {
      LeafStep(mem, t, p);
      assert mem'[t][p[0]] == mem[t][p[0]];
      LeafStep(mem', t, p);
      LeafStays(mem, roots, pos, free, mem', pos', free', Addr(mem[t][p[0]]), p[1..]);
    }
  }

  /** Fills a free frame with a copy of a data frame. */
  method CopyFrame(mm: AddressSpaces, src: Frame) returns (page: Option<Frame>)
    requires mm.Valid() && src in mm.mem
    modifies mm`mem, mm`free
    ensures mm.Valid()
    ensures page.None? ==> mm.free == {} == old(mm.free) && mm.mem == old(mm.mem)
    ensures page.Some? ==> page.value in old(mm.free) && mm.free == old(mm.free) - {page.value} && IsFrame(page.value)
    ensures page.Some? ==> page.value !in mm.pos && mm.mem == old(mm.mem)[page.value := old(mm.mem)[src]]
    ensures Unchanged(old(mm.mem), mm.mem, mm.roots)
    ensures forall r, p :: r in mm.roots && |p| == 4 && IsPath(p) ==>
              LeafTable(mm.mem, r, p) == LeafTable(old(mm.mem), r, p)
  {
    hide Addr, Present, Inv, LeafTable, Lookup;
    ghost var was, spare := mm.mem, mm.free;
    FreeOk(was, mm.roots, mm.pos, spare);
    InvParts(was, mm.roots, mm.pos, spare);
    TableOk(was, mm.roots, mm.pos, spare);
    page := mm.AllocFrame(false);
    if page.Some? {
      mm.mem := mm.mem[page.value := mm.mem[src]];
      DataWriteInv(was, mm.roots, mm.pos, spare, page.value, was[src]);
      forall r, p | r in mm.roots && |p| == 4 && IsPath(p)
        ensures LeafTable(mm.mem, r, p) == LeafTable(was, r, p) && Lookup(mm.mem, r, p) == Lookup(was, r, p)
      {
        LookupOutside(was, mm.roots, mm.pos, page.value, was[src], r, p);
      }
    }
  }

  lemma DataWriteInv(mem: Memory, roots: set<Frame>, pos: map<Frame, Pos>, free: set<Frame>, f: Frame, page: seq<Word>)
    requires Inv(mem, roots, pos, free) && f in free
    ensures Inv(mem[f := page], roots, pos, free - {f})
  {
    hide Addr, Present;
    var mem' := mem[f := page];
    assert Placed(mem', roots, pos);
    forall u | u in pos && pos[u].owner.Some? && pos[u].path != [] ensures Hangs(mem', pos, u) {
      assert Hangs(mem, pos, u);
    }
    assert Shared(mem', roots);
  }

  lemma StoredOnce(a: State, mem1: Memory, b: State, child: Frame, n: nat, c: Word)
    requires Unchanged(a.mem, mem1, a.roots) && OnlyChanges(mem1, b.mem, a.roots, child, PathOf(n), c)
    requires b.roots == a.roots && n < LOWER_PAGES
    ensures Stored(a, b, child, child, n, c)
  {
    hide Lookup;
    LowerPath(n);
  }

  lemma StoredTwice(a: State, mem1: Memory, mem2: Memory, b: State, child: Frame, shadow: Frame, n: nat, c: Word)
    requires Unchanged(a.mem, mem1, a.roots) && OnlyChanges(mem1, mem2, a.roots, child, PathOf(n), c)
    requires OnlyChanges(mem2, b.mem, a.roots, shadow, PathOf(n), c)
    requires b.roots == a.roots && n < LOWER_PAGES
    ensures Stored(a, b, child, shadow, n, c)
  {
    hide Lookup;
    LowerPath(n);
  }

  lemma SameStored(a: State, b: State, child: Frame, shadow: Frame, n: nat, c: Word)
    requires Unchanged(a.mem, b.mem, a.roots) && b.roots == a.roots
    requires child in a.roots && shadow in a.roots && View(a.mem, child, n) == c && View(a.mem, shadow, n) == c
    ensures Stored(a, b, child, shadow, n, c)
  {
    hide Lookup;
  }

  /** A page of a shared range: the child gets the parent's entry, if the parent has the table for it. */
  method ShareEntry(mm: AddressSpaces, parent: Frame, child: Frame, n: nat) returns (ok: bool)
    requires mm.Valid() && parent in mm.roots && child in mm.roots && n < LOWER_PAGES && View(mm.mem, child, n) == 0
    modifies mm
    ensures mm.Valid() && mm.roots == old(mm.roots) && Keeps(old(Now(mm)), Now(mm))
    ensures ok ==> Stored(old(Now(mm)), Now(mm), child, child, n, old(View(mm.mem, parent, n)))
    ensures !ok ==> mm.free == {} && Unchanged(old(mm.mem), mm.mem, mm.roots)
  {
    hide Addr, Present, Inv, LeafTable;
    ghost var a := Now(mm);
    var oldPte := mm.WalkExisting(parent, n);
    if oldPte.None? {
      SameStored(a, a, child, child, n, 0);
      return true;
    }
    var pte := mm.mem[oldPte.value][PathOf(n)[3]];
    var newPte := mm.Walk(child, n);
    if newPte.None? {
      return false;
    }
    ghost var walked := mm.mem;
    mm.SetEntry(child, n, newPte.value, pte);
    StoredOnce(a, walked, Now(mm), child, n, pte);
    ok := true;
  }

  /** The two walks of a private page: afterwards both last-level tables are there at once. */
  method WalkBoth(mm: AddressSpaces, child: Frame, shadow: Frame, n: nat) returns (u: Option<Frame>, v: Option<Frame>)
    requires mm.Valid() && child in mm.roots && shadow in mm.roots
    modifies mm
    ensures mm.Valid() && mm.roots == old(mm.roots)
    ensures Grows(old(mm.mem), old(mm.pos), old(mm.free), mm.mem, mm.pos, mm.free, mm.roots)
    ensures u.None? || v.None? ==> mm.free == {}
    ensures u.Some? && v.Some? ==> LeafTable(mm.mem, child, PathOf(n)) == u && LeafTable(mm.mem, shadow, PathOf(n)) == v
    ensures u.Some? && v.Some? ==>
              u.value in mm.pos && v.value in mm.pos && |mm.pos[u.value].path| == 3 == |mm.pos[v.value].path|
  {
    hide Addr, Present, Inv, LeafTable, Grows;
    ghost var a := Now(mm);
    v := None;
    u := mm.Walk(child, n);
    if u.None? {
      return;
    }
    ghost var b := Now(mm);
    v := mm.Walk(shadow, n);
    GrowsTrans(a.mem, a.pos, a.free, b.mem, b.pos, b.free, mm.mem, mm.pos, mm.free, mm.roots);
    if v.None? {
      return;
    }
    InvParts(b.mem, b.roots, b.pos, b.free);
    TableOk(b.mem, b.roots, b.pos, b.free);
    LeafStays(b.mem, b.roots, b.pos, b.free, mm.mem, mm.pos, mm.free, child, PathOf(n));
    PosKept(b.mem, b.pos, b.free, mm.mem, mm.pos, mm.free, mm.roots, u.value);
  }

  lemma PosKept(mem: Memory, pos: map<Frame, Pos>, free: set<Frame>, mem': Memory, pos': map<Frame, Pos>,
                free': set<Frame>, roots: set<Frame>, u: Frame)
    requires Grows(mem, pos, free, mem', pos', free', roots) && u in pos
    ensures u in pos' && pos'[u] == pos[u]
  {
  }

  lemma GrowsKeeps(a: State, b: State)
    requires Grows(a.mem, a.pos, a.free, b.mem, b.pos, b.free, a.roots)
    ensures Keeps(a, b) && Unchanged(a.mem, b.mem, a.roots)
  {
    hide Unchanged;
  }

  /** Enters `w` for page `n` in the two tables that the walks found. */
  method StoreBoth(mm: AddressSpaces, child: Frame, shadow: Frame, n: nat, u: Frame, v: Frame, w: Word)
    requires mm.Valid() && child in mm.roots && shadow in mm.roots && n < LOWER_PAGES
    requires LeafTable(mm.mem, child, PathOf(n)) == Some(u) && LeafTable(mm.mem, shadow, PathOf(n)) == Some(v)
    requires u in mm.pos && v in mm.pos && |mm.pos[u].path| == 3 == |mm.pos[v].path|
    modifies mm`mem
    ensures mm.Valid() && Stored(old(Now(mm)), Now(mm), child, shadow, n, w)
    ensures forall f :: f in old(mm.mem) && f !in mm.pos ==> f in mm.mem && mm.mem[f] == old(mm.mem)[f]
  {
    hide Addr, Present, Inv, LeafTable;
    ghost var a := Now(mm);
    TableOk(mm.mem, mm.roots, mm.pos, mm.free);
    InvParts(mm.mem, mm.roots, mm.pos, mm.free);
    LeafKept(mm.mem, mm.roots, mm.pos, u, PathOf(n)[3], w, shadow, PathOf(n));
    mm.SetEntry(child, n, u, w);
    ghost var half := mm.mem;
    TableOk(mm.mem, mm.roots, mm.pos, mm.free);
    mm.SetEntry(shadow, n, v, w);
    StoredTwice(a, a.mem, half, Now(mm), child, shadow, n, w);
  }

  lemma StoredAfter(a: State, b: State, d: State, child: Frame, shadow: Frame, n: nat, c: Word)
    requires Unchanged(a.mem, b.mem, a.roots) && a.roots == b.roots && Stored(b, d, child, shadow, n, c)
    ensures Stored(a, d, child, shadow, n, c)
  {
    hide Lookup;
  }

  /** A page of a private range: if present, it is copied to a fresh frame and entered twice. */
  method CopyPage(mm: AddressSpaces, parent: Frame, child: Frame, shadow: Frame, n: nat)
    returns (ok: bool, ghost c: Word)
    requires mm.Valid() && parent in mm.roots && child in mm.roots && shadow in mm.roots && n < LOWER_PAGES
    requires View(mm.mem, child, n) == 0 && View(mm.mem, shadow, n) == 0
    requires Present(View(mm.mem, parent, n)) ==> IsData(mm.mem, mm.pos, mm.free, Addr(View(mm.mem, parent, n)))
    modifies mm
    ensures mm.Valid() && mm.roots == old(mm.roots) && Keeps(old(Now(mm)), Now(mm))
    ensures ok ==> Stored(old(Now(mm)), Now(mm), child, shadow, n, c)
    ensures !ok ==> mm.free == {} && Unchanged(old(mm.mem), mm.mem, mm.roots)
    ensures ok ==> var e := old(View(mm.mem, parent, n));
              && (Present(c) <==> Present(e))
              && (Present(e) ==>
                    Flags(c) == Flags(e) && Addr(c) in old(mm.free) && IsData(mm.mem, mm.pos, mm.free, Addr(c)))
              && (Present(e) ==> Addr(e) in old(mm.mem) && mm.mem[Addr(c)] == old(mm.mem)[Addr(e)])
    ensures ok && !Present(old(View(mm.mem, parent, n))) ==> c == 0
  {
    hide Addr, Present, Inv, LeafTable, Entry, Flags, Unchanged, Stored, Grows;
    ghost var a := Now(mm);
    ZeroAbsent();
    var oldPte := mm.WalkExisting(parent, n);
    if oldPte.None? || !Present(mm.mem[oldPte.value][PathOf(n)[3]]) {
      NoChange(a, child, shadow, n);
      return true, 0;
    }
    var pte := mm.mem[oldPte.value][PathOf(n)[3]];
    c := 0;
    ok := false;
    var newPte, newSpte := WalkBoth(mm, child, shadow, n);
    ghost var b := Now(mm);
    GrowsKeeps(a, b);
    if newPte.None? || newSpte.None? {
      return;
    }
    var page := CopyFrame(mm, Addr(pte));
    ghost var d := Now(mm);
    UnchangedTrans(a.mem, b.mem, d.mem, mm.roots);
    if page.None? {
      return;
    }
    EntrySplit(pte);
    EntryParts(page.value, Flags(pte));
    EntryPresent(page.value, Flags(pte));
    c := Entry(page.value, Flags(pte));
    StoreBoth(mm, child, shadow, n, newPte.value, newSpte.value, Entry(page.value, Flags(pte)));
    StoredAfter(a, d, Now(mm), child, shadow, n, c);
    ok := true;
  }

  lemma NoChange(a: State, child: Frame, shadow: Frame, n: nat)
    requires child in a.roots && shadow in a.roots && View(a.mem, child, n) == 0 && View(a.mem, shadow, n) == 0
    ensures Keeps(a, a) && Stored(a, a, child, shadow, n, 0)
  {
    SameStored(a, a, child, shadow, n, 0);
  }

  // ----- the whole fork

  /** Page `n` of range `j` comes before page `i` of range `k`. */
  predicate Before(ranges: seq<Range>, k: nat, i: nat, j: nat, n: nat)
    requires j < |ranges|
  {
    InRange(ranges[j], n) && (j < k || (j == k && n < i))
  }

  /** `done` maps each page handled so far to its range. */
  ghost predicate Covers(done: map<nat, nat>, ranges: seq<Range>, k: nat, i: nat) {
    && (forall n :: n in done ==> done[n] < |ranges| && Before(ranges, k, i, done[n], n))
    && (forall j, n :: 0 <= j < |ranges| && Before(ranges, k, i, j, n) ==> n in done && done[n] == j)
  }

  ghost function Private(done: map<nat, nat>, ranges: seq<Range>): set<nat> {
    set n | n in done && done[n] < |ranges| && !ranges[done[n]].shared
  }

  /** The child so far: handled pages are forked, the others still empty; the old address spaces are intact. */
  ghost predicate Forking(was: State, now: State, parent: Frame, child: Frame, shadows: seq<Frame>, ranges: seq<Range>,
                          done: map<nat, nat>)
  {
    && child in now.roots && child !in was.roots && parent in was.roots && was.roots <= now.roots
    && (forall s :: s in shadows ==> s in now.roots && s !in was.roots)
    && Keeps(was, now) && Unchanged(was.mem, now.mem, was.roots)
    && (forall n :: n in done ==> n < LOWER_PAGES && done[n] < |ranges| && done[n] < |shadows|)
    && (forall n :: n in done ==> Forked(was, now, parent, child, shadows[done[n]], ranges[done[n]].shared, n))
    && (forall n: nat :: n < LOWER_PAGES && n !in done ==> View(now.mem, child, n) == 0)
    && Distinct(now, child, Private(done, ranges))
  }

  lemma DataKept(a: State, b: State, f: Frame)
    requires Keeps(a, b) && IsData(a.mem, a.pos, a.free, f)
    ensures IsData(b.mem, b.pos, b.free, f) && b.mem[f] == a.mem[f]
  {
  }

  lemma ViewKept(a: State, b: State, r: Frame, n: nat)
    requires Unchanged(a.mem, b.mem, a.roots) && r in a.roots
    ensures View(b.mem, r, n) == View(a.mem, r, n)
  {
    hide Lookup;
  }

  lemma ViewStored(a: State, b: State, child: Frame, shadow: Frame, m: nat, c: Word, r: Frame, n: nat)
    requires Stored(a, b, child, shadow, m, c) && r in a.roots && m < LOWER_PAGES && n < LOWER_PAGES
    ensures View(b.mem, r, n) == if m == n && (r == child || r == shadow) then c else View(a.mem, r, n)
  {
    hide Lookup;
    SamePath(m, n);
  }

  lemma UnchangedStored(was: State, a: State, b: State, child: Frame, shadow: Frame, n: nat, c: Word)
    requires Unchanged(was.mem, a.mem, was.roots) && was.roots <= a.roots
    requires Stored(a, b, child, shadow, n, c) && child !in was.roots && shadow !in was.roots
    ensures Unchanged(was.mem, b.mem, was.roots) && b.roots == a.roots
  {
    hide Lookup;
  }

  /** Handling one more page. */
  lemma ForkingStep(was: State, a: State, b: State, parent: Frame, child: Frame, shadows: seq<Frame>,
                    ranges: seq<Range>, done: map<nat, nat>,
                    k: nat, n: nat, c: Word)
    requires Forking(was, a, parent, child, shadows, ranges, done)
    requires k < |ranges| && k < |shadows| && n < LOWER_PAGES && n !in done
    requires Keeps(a, b) && Stored(a, b, child, shadows[k], n, c)
    requires Forked(a, b, parent, child, shadows[k], ranges[k].shared, n)
    requires Present(View(was.mem, parent, n)) && !ranges[k].shared ==>
              IsData(was.mem, was.pos, was.free, Addr(View(was.mem, parent, n)))
    ensures Forking(was, b, parent, child, shadows, ranges, done[n := k])
  {
    hide Addr, Present, Flags, View, Stored, Unchanged;
    var done' := done[n := k];
    KeepsTrans(was, a, b);
    assert shadows[k] in shadows;
    UnchangedStored(was, a, b, child, shadows[k], n, c);
    forall m | m in done ensures View(b.mem, child, m) == View(a.mem, child, m) {
      ViewStored(a, b, child, shadows[k], n, c, child, m);
    }
    forall m: nat | m < LOWER_PAGES && m !in done' ensures View(b.mem, child, m) == 0 {
      ViewStored(a, b, child, shadows[k], n, c, child, m);
    }
    forall m | m in done ensures Forked(was, b, parent, child, shadows[done[m]], ranges[done[m]].shared, m) {
      assert shadows[done[m]] in shadows;
      ViewStored(a, b, child, shadows[k], n, c, shadows[done[m]], m);
      ForkedKept(was, a, b, parent, child, shadows[done[m]], ranges[done[m]].shared, m);
    }
    ForkedSince(was, a, b, parent, child, shadows[k], ranges[k].shared, n);
    DistinctStep(was, a, b, parent, child, shadows, ranges, done, k, n);
  }

  /** A promise about the state before one step is a promise about the state before the fork. */
  lemma ForkedSince(was: State, a: State, b: State, parent: Frame, child: Frame, shadow: Frame, shared: bool, n: nat)
    requires Forked(a, b, parent, child, shadow, shared, n) && Keeps(was, a)
    requires Unchanged(was.mem, a.mem, was.roots) && parent in was.roots
    requires Present(View(was.mem, parent, n)) && !shared ==>
              IsData(was.mem, was.pos, was.free, Addr(View(was.mem, parent, n)))
    ensures Forked(was, b, parent, child, shadow, shared, n)
  {
    hide Addr, Present, Flags, View, Unchanged;
    ViewKept(was, a, parent, n);
  }

  /** A page copied now lies in a frame that was free until now, so no earlier page can have it. */
  lemma DistinctStep(was: State, a: State, b: State, parent: Frame, child: Frame, shadows: seq<Frame>,
                     ranges: seq<Range>, done: map<nat, nat>, k: nat, n: nat)
    requires Forking(was, a, parent, child, shadows, ranges, done) && k < |ranges| && k < |shadows|
    requires Forked(a, b, parent, child, shadows[k], ranges[k].shared, n) && n !in done
    requires forall m :: m in done ==> View(b.mem, child, m) == View(a.mem, child, m)
    ensures Distinct(b, child, Private(done[n := k], ranges))
  {
    hide Addr, Present, Flags, View, Unchanged, Keeps;
    var done' := done[n := k];
    var pages := Private(done, ranges);
    forall m | m in pages && Present(View(b.mem, child, m)) ensures Addr(View(b.mem, child, m)) !in a.free {
      assert Forked(was, a, parent, child, shadows[done[m]], ranges[done[m]].shared, m);
    }
    assert forall m :: m in done' && m != n ==> m in done && done'[m] == done[m];
  }

  /** Creating the shadow page table of a private range disturbs nothing. */
  lemma ForkingRoot(was: State, a: State, b: State, parent: Frame, child: Frame, shadows: seq<Frame>,
                    ranges: seq<Range>, done: map<nat, nat>, kernel: Frame, f: Frame)
    requires Inv(a.mem, a.roots, a.pos, a.free) && kernel in a.roots && f in a.free && IsTable(a.mem, kernel)
    requires b == State(a.mem[f := HalfTable(a.mem[kernel])], a.roots + {f}, a.pos[f := Pos(Some(f), [], f)],
                        a.free - {f})
    requires Forking(was, a, parent, child, shadows, ranges, done)
    ensures Forking(was, b, parent, child, shadows + [f], ranges, done)
    ensures forall n: nat :: n < LOWER_PAGES ==> View(b.mem, f, n) == 0
    ensures f !in was.roots && f in b.roots
  {
    hide Addr, Present, Flags, View, Unchanged, Inv;
    RootFrame(a, b, kernel, f);
    KeepsTrans(was, a, b);
    UnchangedSub(was.mem, a.mem, b.mem, was.roots, a.roots);
    assert f !in was.roots by {
      NotRoot(a, f);
    }
    forall n | n in done ensures Forked(was, b, parent, child, (shadows + [f])[done[n]], ranges[done[n]].shared, n) {
      assert (shadows + [f])[done[n]] == shadows[done[n]] && shadows[done[n]] in shadows;
      ViewKept(a, b, child, n);
      ViewKept(a, b, shadows[done[n]], n);
      ForkedKept(was, a, b, parent, child, shadows[done[n]], ranges[done[n]].shared, n);
    }
    forall n: nat ensures View(b.mem, child, n) == View(a.mem, child, n) {
      ViewKept(a, b, child, n);
    }
  }

  lemma NotRoot(a: State, f: Frame)
    requires Inv(a.mem, a.roots, a.pos, a.free) && f in a.free
    ensures f !in a.roots && f !in a.pos
  {
  }

  lemma UnchangedSub(mem: Memory, mem1: Memory, mem2: Memory, roots: set<Frame>, roots1: set<Frame>)
    requires Unchanged(mem, mem1, roots) && Unchanged(mem1, mem2, roots1) && roots <= roots1
    ensures Unchanged(mem, mem2, roots)
  {
    hide Lookup;
  }

  lemma RootFrame(a: State, b: State, kernel: Frame, f: Frame)
    requires Inv(a.mem, a.roots, a.pos, a.free) && kernel in a.roots && f in a.free && IsTable(a.mem, kernel)
    requires b == State(a.mem[f := HalfTable(a.mem[kernel])], a.roots + {f}, a.pos[f := Pos(Some(f), [], f)],
                        a.free - {f})
    ensures Keeps(a, b) && Unchanged(a.mem, b.mem, a.roots)
    ensures forall n: nat :: n < LOWER_PAGES ==> View(b.mem, f, n) == 0
  {
    hide Addr, Present, Lookup, LeafTable, Inv;
    NotRoot(a, f);
    InvParts(a.mem, a.roots, a.pos, a.free);
    TableOk(a.mem, a.roots, a.pos, a.free);
    forall r, p | r in a.roots && |p| == 4 && IsPath(p) ensures Lookup(b.mem, r, p) == Lookup(a.mem, r, p) {
      LookupOutside(a.mem, a.roots, a.pos, f, HalfTable(a.mem[kernel]), r, p);
    }
    forall n: nat | n < LOWER_PAGES ensures View(b.mem, f, n) == 0 {
      LowerPath(n);
      NewRootLookup(a.mem, a.roots, a.pos, a.free, kernel, f, PathOf(n));
    }
  }

  /** All address spaces agree on the kernel half. */
  lemma KernelHalf(mem: Memory, roots: set<Frame>, pos: map<Frame, Pos>, free: set<Frame>, r: Frame, s: Frame, p: Path)
    requires Inv(mem, roots, pos, free) && r in roots && s in roots && |p| == 4 && IsPath(p) && p[0] >= KERNEL_HALF
    ensures Lookup(mem, r, p) == Lookup(mem, s, p)
  {
    hide Addr, Present;
    assert mem[r][p[0]] == mem[s][p[0]];
    LeafStep(mem, r, p);
    LeafStep(mem, s, p);
  }

  lemma ForkingParts(was: State, now: State, parent: Frame, child: Frame, shadows: seq<Frame>, ranges: seq<Range>,
                     done: map<nat, nat>)
    requires Forking(was, now, parent, child, shadows, ranges, done)
    ensures child in now.roots && child !in was.roots && parent in was.roots && was.roots <= now.roots
    ensures Keeps(was, now) && Unchanged(was.mem, now.mem, was.roots)
    ensures forall n: nat :: n < LOWER_PAGES && n !in done ==> View(now.mem, child, n) == 0
  {
  }

  lemma CoversNext(done: map<nat, nat>, ranges: seq<Range>, k: nat, i: nat)
    requires GoodRanges(ranges) && k < |ranges| && InRange(ranges[k], i) && Covers(done, ranges, k, i)
    ensures i !in done && Covers(done[i := k], ranges, k, i + 1)
  {
    forall n | n in done ensures n != i && Before(ranges, k, i + 1, done[n], n) {
      assert Before(ranges, k, i, done[n], n);
    }
    var done', i' := done[i := k], i + 1;
    forall j, n | 0 <= j < |ranges| && Before(ranges, k, i', j, n) ensures n in done' && done'[n] == j {
      if n != i {
        assert Before(ranges, k, i, j, n);
      }
    }
  }

  lemma CoversRange(done: map<nat, nat>, ranges: seq<Range>, k: nat)
    requires k < |ranges|
    ensures Covers(done, ranges, k, 0) ==> Covers(done, ranges, k, ranges[k].base)
    ensures Covers(done, ranges, k, ranges[k].base + ranges[k].length) ==> Covers(done, ranges, k + 1, 0)
  {
    BeforeSame(ranges, k, 0, k, ranges[k].base);
    BeforeSame(ranges, k, ranges[k].base + ranges[k].length, k + 1, 0);
  }

  lemma BeforeSame(ranges: seq<Range>, k: nat, i: nat, k': nat, i': nat)
    requires k < |ranges|
    requires if k' == k then i == 0 && i' == ranges[k].base
             else k' == k + 1 && i' == 0 && i == ranges[k].base + ranges[k].length
    ensures forall j: nat, n: nat :: j < |ranges| ==> (Before(ranges, k, i, j, n) <==> Before(ranges, k', i', j, n))
  {
  }

  /** A shared range: the loop over its pages. */
  method ForkShared(mm: AddressSpaces, ghost was: State, parent: Frame, child: Frame, ranges: seq<Range>, k: nat,
                    ghost shadows: seq<Frame>, ghost start: map<nat, nat>)
    returns (ok: bool, ghost done: map<nat, nat>)
    requires mm.Valid() && GoodRanges(ranges) && k < |ranges| && ranges[k].shared
    requires Forking(was, Now(mm), parent, child, shadows, ranges, start) && |shadows| == k
    requires Covers(start, ranges, k, 0)
    modifies mm
    ensures mm.Valid()
    ensures was.roots <= mm.roots && Unchanged(was.mem, mm.mem, was.roots)
    ensures !ok ==> mm.free == {}
    ensures ok ==>
              Forking(was, Now(mm), parent, child, shadows + [child], ranges, done) && Covers(done, ranges, k + 1, 0)
  {
    hide Addr, Present, Flags, View, Stored, Unchanged, Keeps, Inv, Covers, Forking;
    done := start;
    ghost var all := shadows + [child];
    var i := ranges[k].base;
    CoversRange(done, ranges, k);
    ForkingParts(was, Now(mm), parent, child, shadows, ranges, done);
    ForkingShadow(was, Now(mm), parent, child, shadows, ranges, done, child);
    while i < ranges[k].base + ranges[k].length
      invariant ranges[k].base <= i <= ranges[k].base + ranges[k].length && mm.Valid()
      invariant Forking(was, Now(mm), parent, child, all, ranges, done) && Covers(done, ranges, k, i)
    {
      ghost var a := Now(mm);
      CoversNext(done, ranges, k, i);
      ForkingParts(was, a, parent, child, all, ranges, done);
      ok := ShareEntry(mm, parent, child, i);
      if !ok {
        UnchangedSub(was.mem, a.mem, mm.mem, was.roots, a.roots);
        return;
      }
      ghost var e := View(a.mem, parent, i);
      ViewStored(a, Now(mm), child, child, i, e, child, i);
      ForkingStep(was, a, Now(mm), parent, child, all, ranges, done, k, i, e);
      done := done[i := k];
      i := i + 1;
    }
    CoversRange(done, ranges, k);
    ForkingParts(was, Now(mm), parent, child, all, ranges, done);
    ok := true;
  }

  lemma ForkingShadow(was: State, now: State, parent: Frame, child: Frame, shadows: seq<Frame>, ranges: seq<Range>,
                      done: map<nat, nat>, s: Frame)
    requires Forking(was, now, parent, child, shadows, ranges, done) && s in now.roots && s !in was.roots
    ensures Forking(was, now, parent, child, shadows + [s], ranges, done)
  {
    hide Addr, Present, Flags, View, Unchanged, Keeps, Distinct;
    forall n | n in done ensures (shadows + [s])[done[n]] == shadows[done[n]] {
    }
  }

  /** A private range: a shadow page table, then the loop over its pages. */
  method ForkPrivate(mm: AddressSpaces, ghost was: State, kernel: Frame, parent: Frame, child: Frame,
                     ranges: seq<Range>, k: nat, ghost shadows: seq<Frame>, ghost start: map<nat, nat>)
    returns (ok: bool, shadow: Frame, ghost done: map<nat, nat>)
    requires mm.Valid() && kernel in mm.roots && GoodRanges(ranges) && k < |ranges| && !ranges[k].shared
    requires Forking(was, Now(mm), parent, child, shadows, ranges, start) && |shadows| == k
    requires Covers(start, ranges, k, 0)
    requires Backed(was.mem, was.pos, was.free, parent, ranges[k])
    modifies mm
    ensures mm.Valid()
    ensures was.roots <= mm.roots && Unchanged(was.mem, mm.mem, was.roots)
    ensures !ok ==> mm.free == {}
    ensures ok ==>
              Forking(was, Now(mm), parent, child, shadows + [shadow], ranges, done) && Covers(done, ranges, k + 1, 0)
    ensures ok ==> kernel in mm.roots
  {
    hide Addr, Present, Flags, View, Stored, Unchanged, Keeps, Inv, Covers, Forking, IsData;
    done := start;
    shadow := child;
    ok := false;
    ghost var before := Now(mm);
    ForkingParts(was, before, parent, child, shadows, ranges, done);
    var root := mm.NewPagemap(kernel);
    if root.None? {
      return;
    }
    shadow := root.value;
    ForkingRoot(was, before, Now(mm), parent, child, shadows, ranges, done, kernel, shadow);
    ghost var all := shadows + [shadow];
    var i := ranges[k].base;
    CoversRange(done, ranges, k);
    while i < ranges[k].base + ranges[k].length
      invariant ranges[k].base <= i <= ranges[k].base + ranges[k].length && mm.Valid()
      invariant Forking(was, Now(mm), parent, child, all, ranges, done) && Covers(done, ranges, k, i)
      invariant forall n: nat :: i <= n < LOWER_PAGES ==> View(mm.mem, shadow, n) == 0
      invariant kernel in mm.roots && shadow in mm.roots
    {
      ghost var a := Now(mm);
      CoversNext(done, ranges, k, i);
      ForkingParts(was, a, parent, child, all, ranges, done);
      ViewKept(was, a, parent, i);
      assert Present(View(was.mem, parent, i)) ==> IsData(was.mem, was.pos, was.free, Addr(View(was.mem, parent, i)));
      if Present(View(was.mem, parent, i)) {
        DataKept(was, a, Addr(View(was.mem, parent, i)));
      }
      ghost var c;
      ok, c := CopyPage(mm, parent, child, shadow, i);
      if !ok {
        UnchangedSub(was.mem, a.mem, mm.mem, was.roots, a.roots);
        return;
      }
      ViewStored(a, Now(mm), child, shadow, i, c, child, i);
      ViewStored(a, Now(mm), child, shadow, i, c, shadow, i);
      ForkingStep(was, a, Now(mm), parent, child, all, ranges, done, k, i, c);
      forall n: nat | i + 1 <= n < LOWER_PAGES ensures View(mm.mem, shadow, n) == 0 {
        ViewStored(a, Now(mm), child, shadow, i, c, shadow, n);
      }
      done := done[i := k];
      i := i + 1;
    }
    CoversRange(done, ranges, k);
    ForkingParts(was, Now(mm), parent, child, all, ranges, done);
    ok := true;
  }

  /** What the child of a fork is: a faithful copy, isolated in its private pages. */
  ghost predicate IsFork(was: State, now: State, parent: Frame, child: Frame, shadows: seq<Frame>, ranges: seq<Range>) {
    && |shadows| == |ranges|
    && (forall k, n: nat :: 0 <= k < |ranges| && InRange(ranges[k], n) ==>
          Forked(was, now, parent, child, shadows[k], ranges[k].shared, n))
    && (forall n: nat :: n < LOWER_PAGES && (forall k :: 0 <= k < |ranges| ==> !InRange(ranges[k], n)) ==>
          View(now.mem, child, n) == 0)
    && (forall p :: |p| == 4 && IsPath(p) && p[0] >= KERNEL_HALF ==>
          Lookup(now.mem, child, p) == Lookup(now.mem, parent, p))
    && Distinct(now, child, PrivatePages(ranges))
  }

  ghost predicate IsPrivate(ranges: seq<Range>, n: nat) {
    exists k :: 0 <= k < |ranges| && !ranges[k].shared && InRange(ranges[k], n)
  }

  ghost function PrivatePages(ranges: seq<Range>): set<nat> {
    set n: nat | n < LOWER_PAGES && IsPrivate(ranges, n)
  }

  lemma ForkingDone(was: State, now: State, parent: Frame, child: Frame, shadows: seq<Frame>, ranges: seq<Range>,
                    done: map<nat, nat>)
    requires Inv(now.mem, now.roots, now.pos, now.free)
    requires Forking(was, now, parent, child, shadows, ranges, done) && |shadows| == |ranges|
    requires Covers(done, ranges, |ranges|, 0)
    ensures IsFork(was, now, parent, child, shadows, ranges)
  {
    hide Addr, Present, Flags, View, Stored, Unchanged, Keeps, Inv;
    forall n: nat | n < LOWER_PAGES && forall k :: 0 <= k < |ranges| ==> !InRange(ranges[k], n)
      ensures View(now.mem, child, n) == 0
    {
      assert n !in done by {
        assert forall m :: m in done ==> Before(ranges, |ranges|, 0, done[m], m);
      }
    }
    forall p | |p| == 4 && IsPath(p) && p[0] >= KERNEL_HALF
      ensures Lookup(now.mem, child, p) == Lookup(now.mem, parent, p)
    {
      KernelHalf(now.mem, now.roots, now.pos, now.free, child, parent, p);
    }
    forall k, n: nat | 0 <= k < |ranges| && InRange(ranges[k], n)
      ensures Forked(was, now, parent, child, shadows[k], ranges[k].shared, n)
    {
      assert Before(ranges, |ranges|, 0, k, n);
    }
    forall m | m in PrivatePages(ranges) ensures m in Private(done, ranges) {
      var j :| 0 <= j < |ranges| && !ranges[j].shared && InRange(ranges[j], m);
      assert Before(ranges, |ranges|, 0, j, m);
    }
  }

  /**
    Forks the address space `parent`. The child is a faithful, isolated copy, and is refused only with no frame
    left; in either case no address space that existed before changes, the parent included.
   */
  method ForkPagemap(mm: AddressSpaces, kernel: Frame, parent: Frame, ranges: seq<Range>)
    returns (child: Option<Frame>, shadows: seq<Frame>)
    requires mm.Valid() && kernel in mm.roots && parent in mm.roots && GoodRanges(ranges)
    requires forall k :: 0 <= k < |ranges| && !ranges[k].shared ==> Backed(mm.mem, mm.pos, mm.free, parent, ranges[k])
    modifies mm
    ensures mm.Valid() && old(mm.roots) <= mm.roots
    ensures Unchanged(old(mm.mem), mm.mem, old(mm.roots))
    ensures child.None? ==> mm.free == {}
    ensures child.Some? ==> child.value in old(mm.free) && child.value in mm.roots
    ensures child.Some? ==> IsFork(old(Now(mm)), Now(mm), parent, child.value, shadows, ranges)
    ensures child.Some? ==> Keeps(old(Now(mm)), Now(mm))
  {
    hide Addr, Present, Flags, View, Stored, Unchanged, Keeps, Inv, Covers, Forking, IsFork, Backed;
    ghost var was := Now(mm);
    shadows := [];
    child := None;
    UnchangedSelf(was);
    var root := mm.NewPagemap(kernel);
    if root.None? {
      return;
    }
    ForkingStart(was, Now(mm), kernel, parent, root.value, ranges);
    ghost var done: map<nat, nat> := map[];
    ForkingParts(was, Now(mm), parent, root.value, shadows, ranges, done);
    var k := 0;
    while k < |ranges|
      invariant 0 <= k <= |ranges| && |shadows| == k && mm.Valid() && kernel in mm.roots
      invariant Forking(was, Now(mm), parent, root.value, shadows, ranges, done) && Covers(done, ranges, k, 0)
      invariant was.roots <= mm.roots && Unchanged(was.mem, mm.mem, was.roots)
    {
      var ok;
      if ranges[k].shared {
        ok, done := ForkShared(mm, was, parent, root.value, ranges, k, shadows, done);
        shadows := shadows + [root.value];
      } else {
        var shadow;
        ok, shadow, done := ForkPrivate(mm, was, kernel, parent, root.value, ranges, k, shadows, done);
        shadows := shadows + [shadow];
      }
      if !ok {
        return;
      }
      k := k + 1;
    }
    ForkingDone(was, Now(mm), parent, root.value, shadows, ranges, done);
    ForkingParts(was, Now(mm), parent, root.value, shadows, ranges, done);
    child := root;
  }

  lemma UnchangedSelf(a: State)
    ensures Unchanged(a.mem, a.mem, a.roots) && Keeps(a, a)
  {
  }

  lemma ForkingStart(was: State, now: State, kernel: Frame, parent: Frame, child: Frame, ranges: seq<Range>)
    requires Inv(was.mem, was.roots, was.pos, was.free) && kernel in was.roots && parent in was.roots
    requires child in was.free && IsTable(was.mem, kernel)
    requires now == State(was.mem[child := HalfTable(was.mem[kernel])], was.roots + {child},
                          was.pos[child := Pos(Some(child), [], child)], was.free - {child})
    ensures Forking(was, now, parent, child, [], ranges, map[]) && Covers(map[], ranges, 0, 0)
  {
    hide Addr, Present, Flags, View, Unchanged, Inv;
    RootFrame(was, now, kernel, child);
    NotRoot(was, child);
  }
}
