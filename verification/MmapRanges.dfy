/**
  Address-space ranges: `mmap`, `munmap`, `mprotect` and the page table that follows them.

  Addresses, lengths and file offsets are counted in pages. A range list is read as a partial map from
  pages to attributes, by the first range that covers a page; ranges may be empty.
 */
module MmapRanges {

  import opened Wrappers

  /**
    `global` names the mapping that the range was cut from. The range that `mmap` made is `listed` among
    the mapping's locals; the pieces that splitting makes are not.
   */
  datatype Range = Range(base: nat, length: nat, offset: int, prot: Prot, flags: int, global: nat, listed: bool)

  /** What a page of a range is. */
  datatype Attr = Attr(prot: Prot, flags: int, filePage: int, global: nat)

  /** The protection that `mmap` is asked for, and the flags of a page-table entry (`kernel/mm/vmm.k.h`). */
  type Prot = bv32
  type Flags = bv64

  const PROT_WRITE: Prot := 0x2
  const PROT_EXEC: Prot := 0x4

  const PTE_PRESENT: Flags := 0x1
  const PTE_WRITABLE: Flags := 0x2
  const PTE_USER: Flags := 0x4
  const PTE_NX: Flags := 0x8000_0000_0000_0000

  /** A present page-table entry. */
  datatype Pte = Pte(frame: nat, flags: Flags)

  /** The flags let a user process write, and execute, just what the protection allows, and say nothing else. */
  predicate Grants(flags: Flags, prot: Prot) {
    && flags & PTE_PRESENT != 0 && flags & PTE_USER != 0
    && (flags & PTE_WRITABLE != 0 <==> prot & PROT_WRITE != 0)
    && (flags & PTE_NX != 0 <==> prot & PROT_EXEC == 0)
    && flags & !(PTE_PRESENT | PTE_USER | PTE_WRITABLE | PTE_NX) == 0
  }

  /** The flags an entry gets for a protection. */
  function PteFlags(prot: Prot): (flags: Flags)
    ensures Grants(flags, prot)
  {
    PTE_PRESENT | PTE_USER | (if prot & PROT_WRITE != 0 then PTE_WRITABLE else 0)
    | (if prot & PROT_EXEC == 0 then PTE_NX else 0)
  }

  function Top(r: Range): nat {
    r.base + r.length
  }

  predicate Covers(r: Range, p: nat) {
    r.base <= p < Top(r)
  }

  function AttrOf(r: Range, p: nat): Attr {
    Attr(r.prot, r.flags, r.offset + (p - r.base), r.global)
  }

  function Find(ranges: seq<Range>, p: nat): Option<Range> {
    if ranges == [] then None
    else if Covers(ranges[0], p) then Some(ranges[0])
    else Find(ranges[1..], p)
  }

  /** The meaning of a range list. */
  function Lookup(ranges: seq<Range>, p: nat): Option<Attr> {
    match Find(ranges, p)
    case None => None
    case Some(r) => Some(AttrOf(r, p))
  }

  predicate Mapped(ranges: seq<Range>, p: nat) {
    Find(ranges, p).Some?
  }

  /** Where the range covering `p` ends. */
  function EndOf(ranges: seq<Range>, p: nat): nat {
    match Find(ranges, p)
    case None => p
    case Some(r) => Top(r)
  }

  /** Number of ranges that cover a page. */
  function Count(ranges: seq<Range>, p: nat): nat {
    if ranges == [] then 0 else (if Covers(ranges[0], p) then 1 else 0) + Count(ranges[1..], p)
  }

  ghost predicate Disjoint(ranges: seq<Range>) {
    forall p: nat :: Count(ranges, p) <= 1
  }

  /** One range ends and the next begins right at `p`. */
  predicate Seam(ranges: seq<Range>, p: nat) {
    p > 0 && Mapped(ranges, p) && Mapped(ranges, p - 1) && EndOf(ranges, p - 1) == p
  }

  lemma {:induction false} FindConcat(a: seq<Range>, b: seq<Range>, p: nat)
    ensures Find(a + b, p) == if Find(a, p).Some? then Find(a, p) else Find(b, p)
    ensures Count(a + b, p) == Count(a, p) + Count(b, p)
  {
    if a == [] {
      assert a + b == b;
    } else {
      FindConcat(a[1..], b, p);
      assert (a + b)[1..] == a[1..] + b;
    }
  }

  lemma {:induction false} FindCount(a: seq<Range>, p: nat)
    ensures Find(a, p).None? <==> Count(a, p) == 0
    ensures Find(a, p).Some? ==> Covers(Find(a, p).value, p)
  {
    if a != [] {
      FindCount(a[1..], p);
    }
  }

  /** A page of range `k` is found there: no other range covers it. */
  lemma FindSplit(ranges: seq<Range>, k: nat, p: nat)
    requires k < |ranges| && Disjoint(ranges)
    ensures Covers(ranges[k], p) ==>
              Find(ranges, p) == Some(ranges[k]) && Find(ranges[..k], p).None? && Find(ranges[k + 1..], p).None?
    ensures !Covers(ranges[k], p) ==> Find(ranges, p) == Find(ranges[..k] + ranges[k + 1..], p)
    ensures Count(ranges, p) == Count(ranges[..k] + ranges[k + 1..], p) + if Covers(ranges[k], p) then 1 else 0
  {
    var a, r, b := ranges[..k], [ranges[k]], ranges[k + 1..];
    assert ranges == a + (r + b);
    assert r[0] == ranges[k] && r[1..] == [];
    FindConcat(a, r + b, p);
    FindConcat(r, b, p);
    FindConcat(a, b, p);
    FindCount(a, p);
    FindCount(b, p);
    assert Count(ranges, p) <= 1;
  }

  /** Replacing range `k` by pieces, some in its place and some at the end of the list. */
  function Replace(ranges: seq<Range>, k: nat, mid: seq<Range>, post: seq<Range>): seq<Range>
    requires k < |ranges|
  {
    ranges[..k] + mid + ranges[k + 1..] + post
  }

  /**
    If the pieces lie inside range `k` and cover no page twice, they decide the pages of `k`, and every
    other page keeps its range.
   */
  lemma ReplaceFind(ranges: seq<Range>, k: nat, mid: seq<Range>, post: seq<Range>, p: nat)
    requires k < |ranges| && Disjoint(ranges)
    requires Count(mid + post, p) <= if Covers(ranges[k], p) then 1 else 0
    ensures Find(Replace(ranges, k, mid, post), p) ==
              if Covers(ranges[k], p) then Find(mid + post, p) else Find(ranges, p)
    ensures Count(Replace(ranges, k, mid, post), p) <= 1
  {
    var a, b := ranges[..k], ranges[k + 1..];
    FindSplit(ranges, k, p);
    assert Replace(ranges, k, mid, post) == a + (mid + (b + post));
    FindConcat(a, mid + (b + post), p);
    FindConcat(mid, b + post, p);
    FindConcat(b, post, p);
    FindConcat(a, b, p);
    FindConcat(mid, post, p);
    FindCount(mid, p);
    FindCount(post, p);
    FindCount(a, p);
    FindCount(b, p);
    assert Count(ranges, p) <= 1;
  }

  // ----- cutting one piece out of one range

  /** What is left of a range below and above pages b..e. */
  function Lower(r: Range, b: nat): Range
    requires r.base <= b <= Top(r)
  {
    r.(length := b - r.base)
  }

  function Upper(r: Range, e: nat): Range
    requires r.base <= e <= Top(r)
  {
    r.(base := e, length := Top(r) - e, offset := r.offset + (e - r.base))
  }

  function Middle(r: Range, b: nat, e: nat): Range
    requires r.base <= b <= e <= Top(r)
  {
    r.(base := b, length := e - b, offset := r.offset + (b - r.base))
  }

  /** One snip of `munmap`: pages b..e of range `k` go; a range with nothing left is removed. */
  function UnmapSnip(ranges: seq<Range>, k: nat, b: nat, e: nat): seq<Range>
    requires k < |ranges| && ranges[k].base <= b < e <= Top(ranges[k])
  {
    var r := ranges[k];
    if r.base < b && e < Top(r) then Replace(ranges, k, [Lower(r, b)], [Upper(r, e).(listed := false)])
    else if r.base < b then Replace(ranges, k, [Lower(r, b)], [])
    else if e < Top(r) then Replace(ranges, k, [Upper(r, e)], [])
    else Replace(ranges, k, [], [])
  }

  /** One snip of `mprotect`: pages b..e get a range of their own; an emptied range stays in the list. */
  function ProtectSnip(ranges: seq<Range>, k: nat, b: nat, e: nat, prot: Prot): seq<Range>
    requires k < |ranges| && ranges[k].base <= b < e <= Top(ranges[k])
  {
    var r := ranges[k];
    var snip := Middle(r, b, e).(prot := prot, listed := false);
    if r.base < b && e < Top(r) then Replace(ranges, k, [Lower(r, b)], [Upper(r, e).(listed := false), snip])
    else if r.base < b then Replace(ranges, k, [Lower(r, b)], [snip])
    else Replace(ranges, k, [Upper(r, e)], [snip])
  }

  lemma UnmapSnipFind(ranges: seq<Range>, k: nat, b: nat, e: nat, p: nat)
    requires k < |ranges| && Disjoint(ranges) && ranges[k].base <= b < e <= Top(ranges[k])
    ensures Lookup(UnmapSnip(ranges, k, b, e), p) == if b <= p < e then None else Lookup(ranges, p)
    ensures p >= e ==> EndOf(UnmapSnip(ranges, k, b, e), p) == EndOf(ranges, p)
    ensures Count(UnmapSnip(ranges, k, b, e), p) <= 1
  {
    var r := ranges[k];
    var (mid, post) :=
      if r.base < b && e < Top(r) then ([Lower(r, b)], [Upper(r, e).(listed := false)])
      else if r.base < b then ([Lower(r, b)], [])
      else if e < Top(r) then ([Upper(r, e)], [])
      else ([], []);
    assert UnmapSnip(ranges, k, b, e) == Replace(ranges, k, mid, post);
    FindConcat(mid, post, p);
    ReplaceFind(ranges, k, mid, post, p);
    FindSplit(ranges, k, p);
  }

  lemma ProtectSnipFind(ranges: seq<Range>, k: nat, b: nat, e: nat, prot: Prot, p: nat)
    requires k < |ranges| && Disjoint(ranges) && ranges[k].base <= b < e <= Top(ranges[k])
    ensures Lookup(ProtectSnip(ranges, k, b, e, prot), p) ==
            if b <= p < e then Some(AttrOf(ranges[k], p).(prot := prot)) else Lookup(ranges, p)
    ensures p >= e ==> EndOf(ProtectSnip(ranges, k, b, e, prot), p) == EndOf(ranges, p)
    ensures Count(ProtectSnip(ranges, k, b, e, prot), p) <= 1
  {
    var r := ranges[k];
    var snip := Middle(r, b, e).(prot := prot, listed := false);
    var (mid, post) :=
      if r.base < b && e < Top(r) then ([Lower(r, b)], [Upper(r, e).(listed := false), snip])
      else if r.base < b then ([Lower(r, b)], [snip])
      else ([Upper(r, e)], [snip]);
    assert ProtectSnip(ranges, k, b, e, prot) == Replace(ranges, k, mid, post);
    FindConcat(mid, post, p);
    var upper := Upper(r, e).(listed := false);
    assert [upper, snip] == [upper] + [snip];
    FindConcat([upper], [snip], p);
    ReplaceFind(ranges, k, mid, post, p);
    FindSplit(ranges, k, p);
  }

  /** The page's range is not among the locals of its mapping. */
  ghost predicate Unlisted(ranges: seq<Range>, p: nat) {
    Find(ranges, p).Some? && !Find(ranges, p).value.listed
  }

  // ----- the page table beside the ranges

  /** Every mapped page lies in a range, and its entry carries the flags of that range's protection. */
  ghost predicate Agrees(ranges: seq<Range>, pt: map<nat, Pte>) {
    forall p :: p in pt ==>
      Lookup(ranges, p).Some? && Grants(pt[p].flags, Lookup(ranges, p).value.prot)
  }

  /** The list after pages `gone` of the old list were unmapped: the others keep their attributes. */
  ghost predicate Without(was: seq<Range>, now: seq<Range>, gone: set<nat>) {
    forall p: nat :: Lookup(now, p) == if p in gone then None else Lookup(was, p)
  }

  /** Nothing is mapped from page `b` on. */
  ghost predicate FreeFrom(ranges: seq<Range>, b: nat) {
    forall p: nat :: b <= p ==> !Mapped(ranges, p)
  }

  lemma FreeBelow(was: seq<Range>, now: seq<Range>, base: nat, length: nat)
    requires forall p: nat :: p < base || base + length <= p ==> Lookup(now, p) == Lookup(was, p)
    ensures FreeFrom(was, base) ==> FreeFrom(now, base + length) && forall p: nat :: base <= p ==> !Mapped(was, p)
  {
    hide Find;
    forall p: nat | base + length <= p ensures Mapped(now, p) <==> Mapped(was, p) {
      assert Lookup(now, p) == Lookup(was, p);
    }
  }

  /** Unmapping and protecting leave the pages free on which the next mapping is to lie. */
  lemma FreeStays(was: seq<Range>, now: seq<Range>, b: nat, pages: set<nat>, prot: Prot)
    requires FreeFrom(was, b) && (Without(was, now, pages) || Reprotected(was, now, pages, prot))
    ensures FreeFrom(now, b)
  {
    hide Find;
    forall p: nat | b <= p ensures !Mapped(now, p) {
      assert !Mapped(was, p) && Lookup(was, p) == None;
    }
  }

  /** The pages of `set` have protection `prot` now; the others keep their attributes. */
  ghost predicate Reprotected(was: seq<Range>, now: seq<Range>, changed: set<nat>, prot: Prot) {
    && (forall p: nat :: Lookup(now, p).Some? <==> Lookup(was, p).Some?)
    && (forall p: nat :: Lookup(was, p).Some? ==>
          Lookup(now, p) == Some(if p in changed then Lookup(was, p).value.(prot := prot) else Lookup(was, p).value))
  }

  /** Ends of ranges do not move from `i` on. */
  ghost predicate SameEnds(was: seq<Range>, now: seq<Range>, i: nat) {
    forall p: nat :: p >= i ==> EndOf(now, p) == EndOf(was, p)
  }

  predicate Within(b: nat, e: nat, p: nat) {
    b <= p < e
  }

  ghost function Pages(b: nat, e: nat): set<nat> {
    set p: nat | p < e && Within(b, e, p)
  }

  ghost predicate NoSeam(ranges: seq<Range>, addr: nat, end: nat) {
    forall p :: addr < p < end ==> !Seam(ranges, p)
  }

  /** A seam between two ranges whose protections both have to change. */
  ghost predicate HardSeam(ranges: seq<Range>, p: nat, prot: Prot) {
    Seam(ranges, p) && Lookup(ranges, p - 1).value.prot != prot && Lookup(ranges, p).value.prot != prot
  }

  ghost predicate NoHardSeam(ranges: seq<Range>, addr: nat, end: nat, prot: Prot) {
    forall p :: addr < p < end ==> !HardSeam(ranges, p, prot)
  }

  /** The page just past a range end is a seam, if it is mapped. */
  lemma EndIsSeam(ranges: seq<Range>, i: nat, e: nat)
    requires Disjoint(ranges) && Mapped(ranges, i) && e == EndOf(ranges, i)
    ensures i < e && EndOf(ranges, e - 1) == e && Mapped(ranges, e - 1) && (Mapped(ranges, e) <==> Seam(ranges, e))
    ensures forall p :: i <= p < e ==> Find(ranges, p) == Find(ranges, i)
  {
    FindCount(ranges, i);
    var r := Find(ranges, i).value;
    var k := FoundAt(ranges, i);
    forall p | i <= p < e ensures Find(ranges, p) == Some(r) {
      FindSplit(ranges, k, p);
    }
  }

  lemma {:induction false} FoundAt(ranges: seq<Range>, p: nat) returns (k: nat)
    requires Mapped(ranges, p)
    ensures k < |ranges| && Find(ranges, p) == Some(ranges[k]) && Covers(ranges[k], p)
  {
    if Covers(ranges[0], p) {
      k := 0;
    } else {
      k := FoundAt(ranges[1..], p);
      k := k + 1;
    }
  }

  // ----- the frames behind a mapping

  /** Some range of mapping `g` lost all its pages. */
  ghost predicate Emptied(was: seq<Range>, gone: set<nat>, g: nat) {
    exists k :: 0 <= k < |was| && was[k].global == g && AllGone(was[k], gone)
  }

  ghost predicate AllGone(r: Range, gone: set<nat>) {
    r.length > 0 && Pages(r.base, Top(r)) <= gone
  }

  /** The shadow page tables when those of the emptied mappings were cleared, and their frames freed. */
  ghost function Unshadowed(shadow: map<(nat, nat), nat>, was: seq<Range>, gone: set<nat>): map<(nat, nat), nat> {
    map key | key in shadow && !Emptied(was, gone, key.0) :: shadow[key]
  }

  function WithoutMapping(shadow: map<(nat, nat), nat>, g: nat): map<(nat, nat), nat> {
    map key | key in shadow && key.0 != g :: shadow[key]
  }

  /** Every present page has the frame that its mapping's shadow page table holds for it. */
  ghost predicate Backed(ranges: seq<Range>, pt: map<nat, Pte>, shadow: map<(nat, nat), nat>) {
    forall p :: p in pt ==>
      && Lookup(ranges, p).Some? && (Lookup(ranges, p).value.global, p) in shadow
      && shadow[(Lookup(ranges, p).value.global, p)] == pt[p].frame
  }

  /** No present page belongs to an emptied mapping. */
  ghost predicate NoneOrphaned(was: seq<Range>, now: seq<Range>, pt: map<nat, Pte>, gone: set<nat>) {
    forall p :: p in pt && Lookup(now, p).Some? ==> !Emptied(was, gone, Lookup(now, p).value.global)
  }

  lemma NothingEmptied(was: seq<Range>, shadow: map<(nat, nat), nat>)
    ensures Unshadowed(shadow, was, {}) == shadow
  {
    forall g ensures !Emptied(was, {}, g) {
      forall k | 0 <= k < |was| && was[k].length > 0 ensures !AllGone(was[k], {}) {
        assert was[k].base in Pages(was[k].base, Top(was[k]));
      }
    }
  }

  lemma BackedExact(was: seq<Range>, now: seq<Range>, pt: map<nat, Pte>, gone: set<nat>, shadow: map<(nat, nat), nat>)
    requires Without(was, now, gone) && Backed(was, pt, shadow)
    ensures Backed(now, pt - gone, Unshadowed(shadow, was, gone)) <==> NoneOrphaned(was, now, pt - gone, gone)
  {
    hide Lookup, Emptied;
  }

  lemma BackedKept(was: seq<Range>, now: seq<Range>, pt: map<nat, Pte>, pt': map<nat, Pte>, changed: set<nat>,
                   prot: Prot, shadow: map<(nat, nat), nat>)
    requires Reprotected(was, now, changed, prot) && Backed(was, pt, shadow) && pt'.Keys == pt.Keys
    requires forall p :: p in pt ==> pt'[p].frame == pt[p].frame
    ensures Backed(now, pt', shadow)
  {
    hide Lookup;
  }

  /** From page `i` to the end of the request the ranges are those of before. */
  ghost predicate SameRanges(was: seq<Range>, now: seq<Range>, i: nat, end: nat) {
    forall p: nat :: i <= p < end ==> Find(now, p) == Find(was, p)
  }

  lemma SnipSame(ranges: seq<Range>, k: nat, b: nat, e: nat, p: nat)
    requires k < |ranges| && Disjoint(ranges) && ranges[k].base <= b < e == Top(ranges[k]) && e <= p
    ensures Find(UnmapSnip(ranges, k, b, e), p) == Find(ranges, p)
  {
    var r := ranges[k];
    var mid := if r.base < b then [Lower(r, b)] else [];
    assert UnmapSnip(ranges, k, b, e) == Replace(ranges, k, mid, []);
    FindConcat(mid, [], p);
    ReplaceFind(ranges, k, mid, [], p);
  }

  /** One snip empties the mapping of its range exactly when it takes the whole range. */
  lemma EmptiedStep(was: seq<Range>, now: seq<Range>, gone: set<nat>, k: nat, b: nat, e: nat, g: nat)
    requires Disjoint(was) && Disjoint(now) && Without(was, now, gone) && (forall p :: p in gone ==> p < b)
    requires k < |now| && now[k].base <= b < e <= Top(now[k]) && Find(was, b) == Some(now[k])
    ensures Emptied(was, gone + Pages(b, e), g) <==>
              Emptied(was, gone, g) || (g == now[k].global && b == now[k].base && e == Top(now[k]))
  {
    hide Find, Lookup, Disjoint;
    var gone' := gone + Pages(b, e);
    var m := FoundAt(was, b);
    forall j | 0 <= j < |was|
      ensures AllGone(was[j], gone') <==> AllGone(was[j], gone) || (AllGone(was[j], gone') && was[j] == now[k])
    {
      if AllGone(was[j], gone') {
        TouchesOne(was, m, j, gone, b, e);
      }
    }
    WholeGone(was, now, gone, k, b, e);
    if Emptied(was, gone', g) {
      var j :| 0 <= j < |was| && was[j].global == g && AllGone(was[j], gone');
      assert AllGone(was[j], gone) || was[j] == now[k];
    }
    if Emptied(was, gone, g) {
      var j :| 0 <= j < |was| && was[j].global == g && AllGone(was[j], gone);
      assert AllGone(was[j], gone');
    }
    assert was[m] == now[k];
  }

  /** A range whose last pages go with pages b..e of range `m` is that range. */
  lemma TouchesOne(was: seq<Range>, m: nat, j: nat, gone: set<nat>, b: nat, e: nat)
    requires Disjoint(was) && m < |was| && j < |was| && was[m].base <= b < e <= Top(was[m])
    requires AllGone(was[j], gone + Pages(b, e))
    ensures AllGone(was[j], gone) || was[j] == was[m]
  {
    hide Find, Disjoint;
    if !AllGone(was[j], gone) {
      var p :| p in Pages(was[j].base, Top(was[j])) && p !in gone;
      FindSplit(was, j, p);
      FindSplit(was, m, p);
    }
  }

  lemma WholeGone(was: seq<Range>, now: seq<Range>, gone: set<nat>, k: nat, b: nat, e: nat)
    requires Disjoint(now) && Without(was, now, gone) && (forall p :: p in gone ==> p < b)
    requires k < |now| && now[k].base <= b < e <= Top(now[k])
    ensures AllGone(now[k], gone + Pages(b, e)) <==> b == now[k].base && e == Top(now[k])
  {
    hide Find, Disjoint;
    var r := now[k];
    NotGone(was, now, gone, k, r.base);
    assert r.base in Pages(r.base, Top(r)) && Top(r) - 1 in Pages(r.base, Top(r));
  }

  lemma NotGone(was: seq<Range>, now: seq<Range>, gone: set<nat>, k: nat, p: nat)
    requires Disjoint(now) && Without(was, now, gone) && k < |now| && Covers(now[k], p)
    ensures p !in gone
  {
    FindSplit(now, k, p);
    assert Lookup(now, p).Some?;
  }

  // ----- which pages lose their place among the mapping's locals

  /** In the page's range of the old list a page further down was kept, and one between the two was cut out. */
  ghost predicate Detached(was: seq<Range>, cut: set<nat>, p: nat) {
    exists q: nat, g: nat ::
      q < g < p && Find(was, q) == Find(was, g) == Find(was, p) && q !in cut && g in cut
  }

  /**
    A page still mapped lies off its mapping's list exactly if it did before, was itself cut, or lies above
    a hole cut into its range.
   */
  ghost predicate ListsExactly(was: seq<Range>, now: seq<Range>, cut: set<nat>) {
    forall p: nat :: Mapped(now, p) ==>
      Mapped(was, p) && (Unlisted(now, p) <==> Unlisted(was, p) || p in cut || Detached(was, cut, p))
  }

  /** From page `i` on the ranges are those of before, and no page was cut from any of them. */
  ghost predicate Ahead(was: seq<Range>, now: seq<Range>, cut: set<nat>, i: nat) {
    forall p: nat :: i <= p ==>
      Find(now, p) == Find(was, p) && (Mapped(was, p) ==> forall g :: g in cut ==> Find(was, g) != Find(was, p))
  }

  /** What cutting pages b..e out of range `k` does to the mapping's list. */
  ghost predicate Snipped(now: seq<Range>, now': seq<Range>, k: nat, b: nat, e: nat)
    requires k < |now|
  {
    forall p: nat :: SnippedAt(now, now', k, b, e, p)
  }

  ghost predicate SnippedAt(now: seq<Range>, now': seq<Range>, k: nat, b: nat, e: nat, p: nat)
    requires k < |now|
  {
    && (Mapped(now', p) ==>
          && Mapped(now, p)
          && (Unlisted(now', p) <==>
                Unlisted(now, p) || b <= p < e || (Covers(now[k], p) && now[k].base < b && e <= p)))
    && (e == Top(now[k]) <= p ==> Find(now', p) == Find(now, p))
  }

  lemma UnmapSnipListed(ranges: seq<Range>, k: nat, b: nat, e: nat)
    requires k < |ranges| && Disjoint(ranges) && ranges[k].base <= b < e <= Top(ranges[k])
    ensures Snipped(ranges, UnmapSnip(ranges, k, b, e), k, b, e)
  {
    var r := ranges[k];
    var (mid, post) :=
      if r.base < b && e < Top(r) then ([Lower(r, b)], [Upper(r, e).(listed := false)])
      else if r.base < b then ([Lower(r, b)], [])
      else if e < Top(r) then ([Upper(r, e)], [])
      else ([], []);
    assert UnmapSnip(ranges, k, b, e) == Replace(ranges, k, mid, post);
    forall p: nat ensures SnippedAt(ranges, Replace(ranges, k, mid, post), k, b, e, p) {
      FindConcat(mid, post, p);
      ReplaceFind(ranges, k, mid, post, p);
      FindSplit(ranges, k, p);
    }
  }

  lemma ProtectSnipListed(ranges: seq<Range>, k: nat, b: nat, e: nat, prot: Prot)
    requires k < |ranges| && Disjoint(ranges) && ranges[k].base <= b < e <= Top(ranges[k])
    ensures Snipped(ranges, ProtectSnip(ranges, k, b, e, prot), k, b, e)
  {
    var r := ranges[k];
    var snip := Middle(r, b, e).(prot := prot, listed := false);
    var (mid, post) :=
      if r.base < b && e < Top(r) then ([Lower(r, b)], [Upper(r, e).(listed := false), snip])
      else if r.base < b then ([Lower(r, b)], [snip])
      else ([Upper(r, e)], [snip]);
    assert ProtectSnip(ranges, k, b, e, prot) == Replace(ranges, k, mid, post);
    var upper := Upper(r, e).(listed := false);
    assert [upper, snip] == [upper] + [snip];
    forall p: nat ensures SnippedAt(ranges, Replace(ranges, k, mid, post), k, b, e, p) {
      FindConcat(mid, post, p);
      FindConcat([upper], [snip], p);
      ReplaceFind(ranges, k, mid, post, p);
      FindSplit(ranges, k, p);
    }
  }

  lemma DetachedBy(was: seq<Range>, cut: set<nat>, m: nat, b: nat, e: nat, p: nat)
    requires Disjoint(was) && m < |was| && was[m].base <= b < e <= Top(was[m])
    requires forall g :: g in cut ==> Find(was, g) != Some(was[m])
    ensures Covers(was[m], p) && !(b <= p < e) ==>
              (Detached(was, cut + Pages(b, e), p) <==> was[m].base < b && e <= p)
    ensures Covers(was[m], p) ==> !Detached(was, cut, p) && p !in cut
    ensures !Covers(was[m], p) && Mapped(was, p) ==>
              (Detached(was, cut + Pages(b, e), p) <==> Detached(was, cut, p)) && p !in Pages(b, e)
  {
    hide Find, Disjoint;
    var r, cut' := was[m], cut + Pages(b, e);
    forall q: nat ensures Covers(r, q) <==> Find(was, q) == Some(r) {
      FindSplit(was, m, q);
      FindCount(was, q);
    }
    if Covers(r, p) && r.base < b && e <= p {
      assert r.base !in cut' && b in cut' && Find(was, r.base) == Find(was, b) == Find(was, p);
    }
    if !Covers(r, p) && Mapped(was, p) && Detached(was, cut, p) {
      var q: nat, g: nat :| q < g < p && Find(was, q) == Find(was, g) == Find(was, p) && q !in cut && g in cut;
      assert q !in cut' && g in cut';
    }
  }

  lemma ListStep(was: seq<Range>, now: seq<Range>, now': seq<Range>, cut: set<nat>, k: nat, b: nat, e: nat)
    requires Disjoint(was) && Disjoint(now) && k < |now| && now[k].base <= b < e <= Top(now[k])
    requires Ahead(was, now, cut, b) && ListsExactly(was, now, cut) && Snipped(now, now', k, b, e)
    ensures ListsExactly(was, now', cut + Pages(b, e))
    ensures e == Top(now[k]) ==>
              Ahead(was, now', cut + Pages(b, e), e + 1)
  {
    hide Find, Disjoint, Detached;
    FindSplit(now, k, b);
    var m := FoundAt(was, b);
    forall p: nat
      ensures Covers(now[k], p) <==> Find(was, p) == Some(was[m])
      ensures Covers(now[k], p) ==> Find(now, p) == Some(now[k])
    {
      FindSplit(was, m, p);
      FindSplit(now, k, p);
      FindCount(was, p);
    }
    var cut' := cut + Pages(b, e);
    forall p: nat
      ensures Mapped(now', p) ==>
                Mapped(was, p) && (Unlisted(now', p) <==> Unlisted(was, p) || p in cut' || Detached(was, cut', p))
      ensures e == Top(now[k]) <= p ==> Find(now', p) == Find(now, p)
    {
      assert SnippedAt(now, now', k, b, e, p);
      DetachedBy(was, cut, m, b, e, p);
    }
  }

  lemma ListStart(was: seq<Range>, i: nat)
    ensures ListsExactly(was, was, {}) && Ahead(was, was, {}, i)
  {
  }

  lemma AheadOn(was: seq<Range>, now: seq<Range>, cut: set<nat>, i: nat)
    requires Ahead(was, now, cut, i)
    ensures Ahead(was, now, cut, i + 1)
  {
  }

  // ----- the loop of munmap

  /**
    Before page `i`: pages `gone` were removed, mapped pages left behind are seams, and the first seam of
    the request is one of them as soon as the loop is past it.
   */
  ghost predicate Unmapping(was: seq<Range>, now: seq<Range>, gone: set<nat>, addr: nat, i: nat, end: nat) {
    && Disjoint(was) && Disjoint(now) && addr <= i
    && Without(was, now, gone) && SameEnds(was, now, i)
    && (forall p :: p in gone ==> addr <= p < i && p < end)
    && (forall p: nat :: addr <= p < i && p < end && Mapped(was, p) && p !in gone ==> p > addr && Seam(was, p))
    && (forall s :: addr < s < end && Seam(was, s) && NoSeam(was, addr, s) ==> i != s && s !in gone)
  }

  lemma MappedNow(was: seq<Range>, now: seq<Range>, gone: set<nat>, p: nat)
    requires Without(was, now, gone)
    ensures Mapped(now, p) <==> Mapped(was, p) && p !in gone
  {
    assert Lookup(now, p) == if p in gone then None else Lookup(was, p);
  }

  lemma UnmapSkip(was: seq<Range>, now: seq<Range>, gone: set<nat>, addr: nat, i: nat, end: nat)
    requires Unmapping(was, now, gone, addr, i, end) && !Mapped(now, i)
    ensures Unmapping(was, now, gone, addr, i + 1, end)
  {
    hide Find, Lookup;
    MappedNow(was, now, gone, i);
    forall s | addr < s < end && Seam(was, s) && NoSeam(was, addr, s) ensures i + 1 != s {
    }
  }

  /** A snip b..e of the range found at `b`, after which page `e` is skipped. */
  lemma UnmapStep(was: seq<Range>, now: seq<Range>, gone: set<nat>, addr: nat, b: nat, e: nat, end: nat, k: nat)
    requires Unmapping(was, now, gone, addr, b, end) && b < e <= end
    requires k < |now| && Covers(now[k], b) && Find(now, b) == Some(now[k])
    requires e == if Top(now[k]) < end then Top(now[k]) else end
    ensures Unmapping(was, UnmapSnip(now, k, b, e), gone + Pages(b, e), addr, e + 1, end)
  {
    hide UnmapSnip, Find, NoSeam, Count, Seam, EndOf, Mapped, Lookup;
    EndAt(now, b, now[k]);
    var now', gone' := UnmapSnip(now, k, b, e), gone + Pages(b, e);
    MappedNow(was, now, gone, b);
    assert EndOf(was, b) == EndOf(now, b);
    EndIsSeam(was, b, Top(now[k]));
    forall p: nat
      ensures Lookup(now', p) == if p in gone' then None else Lookup(was, p)
      ensures p >= e + 1 ==> EndOf(now', p) == EndOf(was, p)
      ensures Count(now', p) <= 1
    {
      UnmapSnipFind(now, k, b, e, p);
      assert Lookup(now, p) == if p in gone then None else Lookup(was, p);
    }
    forall s | addr < s < end && Seam(was, s) && NoSeam(was, addr, s) ensures e + 1 != s && s !in gone' {
      if b < s < Top(now[k]) {
        NotInside(was, b, Top(now[k]), s);
      }
      if s == e + 1 {
        SeamMapped(was, s);
        FirstSeamOnly(was, addr, s, e);
      }
    }
  }

  lemma SeamMapped(ranges: seq<Range>, s: nat)
    requires Seam(ranges, s)
    ensures s > 0 && Mapped(ranges, s) && Mapped(ranges, s - 1)
  {
  }

  lemma FirstSeamOnly(ranges: seq<Range>, addr: nat, s: nat, p: nat)
    requires NoSeam(ranges, addr, s) && addr < p < s
    ensures !Seam(ranges, p)
  {
  }

  lemma NotInside(ranges: seq<Range>, b: nat, top: nat, s: nat)
    requires forall p :: b <= p < top ==> Find(ranges, p) == Find(ranges, b)
    requires Mapped(ranges, b) && EndOf(ranges, b) == top && b < s < top
    ensures !Seam(ranges, s)
  {
    hide Find;
    assert Find(ranges, s - 1) == Find(ranges, b);
  }

  lemma EndAt(ranges: seq<Range>, p: nat, r: Range)
    requires Find(ranges, p) == Some(r)
    ensures Mapped(ranges, p) && EndOf(ranges, p) == Top(r)
  {
  }

  /** The first seam strictly inside a request that has one. */
  lemma FirstSeam(ranges: seq<Range>, addr: nat, end: nat) returns (s: nat)
    requires !NoSeam(ranges, addr, end)
    ensures addr < s < end && Seam(ranges, s) && NoSeam(ranges, addr, s)
  {
    hide Seam;
    s := addr + 1;
    while !Seam(ranges, s)
      invariant addr < s < end && NoSeam(ranges, addr, s)
      decreases end - s
    {
      assert NoSeam(ranges, addr, s + 1);
      s := s + 1;
    }
  }

  lemma UnmapDone(was: seq<Range>, now: seq<Range>, gone: set<nat>, addr: nat, i: nat, end: nat)
    requires Unmapping(was, now, gone, addr, i, end) && i >= end
    ensures NoSeam(was, addr, end) <==> forall p :: addr <= p < end ==> !Mapped(now, p)
  {
    hide Find, Lookup, Seam;
    forall p: nat ensures Mapped(now, p) <==> Mapped(was, p) && p !in gone {
      MappedNow(was, now, gone, p);
    }
    if !NoSeam(was, addr, end) {
      var s := FirstSeam(was, addr, end);
      SeamMapped(was, s);
      assert Mapped(now, s);
    } else {
      forall p | addr <= p < end ensures !Mapped(now, p) {
      }
    }
  }

  lemma UnmapStart(ranges: seq<Range>, addr: nat, end: nat)
    requires Disjoint(ranges)
    ensures Unmapping(ranges, ranges, {}, addr, addr, end)
  {
  }

  lemma UnmapAgrees(was: seq<Range>, now: seq<Range>, pt: map<nat, Pte>, gone: set<nat>)
    requires Agrees(was, pt) && Without(was, now, gone)
    ensures Agrees(now, pt - gone)
  {
    hide Lookup;
  }

  // ----- the loop of mprotect

  /** As for munmap, with `changed` the pages that got the new protection; only hard seams matter here. */
  ghost predicate Protecting(was: seq<Range>, now: seq<Range>, changed: set<nat>, addr: nat, i: nat, end: nat,
                             prot: Prot)
  {
    && Disjoint(was) && Disjoint(now) && addr <= i
    && Reprotected(was, now, changed, prot) && SameEnds(was, now, i)
    && (forall p :: p in changed ==> addr <= p < i && p < end)
    && (forall p: nat :: addr <= p < i && p < end ==>
          p in changed || (Mapped(was, p) && Lookup(was, p).value.prot == prot) || (p > addr && HardSeam(was, p, prot)))
    && (forall s :: addr < s < end && HardSeam(was, s, prot) && NoHardSeam(was, addr, s, prot) ==>
          i != s && s !in changed)
  }

  lemma ProtectStart(ranges: seq<Range>, addr: nat, end: nat, prot: Prot)
    requires Disjoint(ranges)
    ensures Protecting(ranges, ranges, {}, addr, addr, end, prot)
  {
  }

  lemma LookupMapped(ranges: seq<Range>, p: nat)
    ensures Mapped(ranges, p) <==> Lookup(ranges, p).Some?
  {
  }

  lemma ProtectSkip(was: seq<Range>, now: seq<Range>, changed: set<nat>, addr: nat, i: nat, end: nat, prot: Prot)
    requires Protecting(was, now, changed, addr, i, end, prot) && i < end
    requires Lookup(now, i).Some? && Lookup(now, i).value.prot == prot
    ensures Protecting(was, now, changed, addr, i + 1, end, prot)
  {
    hide Find, Lookup, Seam, EndOf, Mapped;
    LookupMapped(was, i);
    assert Lookup(was, i).Some? && Lookup(was, i).value.prot == prot;
  }

  lemma HardSeamIs(ranges: seq<Range>, p: nat, prot: Prot)
    requires Seam(ranges, p) && Lookup(ranges, p - 1).value.prot != prot && Lookup(ranges, p).value.prot != prot
    ensures HardSeam(ranges, p, prot)
  {
  }

  lemma SameProt(ranges: seq<Range>, p: nat, q: nat)
    requires Find(ranges, p) == Find(ranges, q) && Mapped(ranges, p)
    ensures Lookup(ranges, p).Some? && Lookup(ranges, q).Some?
    ensures Lookup(ranges, p).value.prot == Lookup(ranges, q).value.prot
  {
  }

  lemma ProtectStep(was: seq<Range>, now: seq<Range>, changed: set<nat>, addr: nat, b: nat, e: nat, end: nat,
                    prot: Prot,
                    k: nat)
    requires Protecting(was, now, changed, addr, b, end, prot) && b < e <= end
    requires k < |now| && Covers(now[k], b) && Find(now, b) == Some(now[k])
    requires e == if Top(now[k]) < end then Top(now[k]) else end
    requires now[k].prot != prot
    requires e < end ==> Mapped(was, e)
    ensures Protecting(was, ProtectSnip(now, k, b, e, prot), changed + Pages(b, e), addr, e + 1, end, prot)
  {
    hide ProtectSnip, Find, NoHardSeam, Count, Seam, EndOf, Mapped, Lookup, HardSeam;
    var now', changed', top := ProtectSnip(now, k, b, e, prot), changed + Pages(b, e), Top(now[k]);
    EndAt(now, b, now[k]);
    BeforeSnip(was, now, changed, b, prot, k);
    assert EndOf(was, b) == EndOf(now, b);
    EndIsSeam(was, b, top);
    forall p: nat
      ensures Lookup(now', p).Some? <==> Lookup(was, p).Some?
      ensures Lookup(was, p).Some? ==>
                Lookup(now', p)
                == Some(if p in changed' then Lookup(was, p).value.(prot := prot) else Lookup(was, p).value)
      ensures p >= e + 1 ==> EndOf(now', p) == EndOf(was, p)
      ensures Count(now', p) <= 1
    {
      ProtectSnipFind(now, k, b, e, prot, p);
      if b <= p < e {
        FindSplit(now, k, p);
        CoveredLookup(now, k, p);
      }
    }
    forall p: nat | b <= p < top ensures Lookup(was, p).Some? && Lookup(was, p).value.prot != prot {
      SameProt(was, b, p);
    }
    if e < end {
      LookupMapped(was, e);
      if Lookup(was, e).value.prot != prot {
        HardSeamIs(was, e, prot);
      }
    }
    forall s | addr < s < end && HardSeam(was, s, prot) && NoHardSeam(was, addr, s, prot)
      ensures e + 1 != s && s !in changed'
    {
      HardSeamFacts(was, s, prot);
      if b < s < top {
        NotInside(was, b, top, s);
      }
      if s == e + 1 {
        FirstHardSeamOnly(was, addr, s, e, prot);
      }
    }
  }

  lemma BeforeSnip(was: seq<Range>, now: seq<Range>, changed: set<nat>, b: nat, prot: Prot, k: nat)
    requires Reprotected(was, now, changed, prot) && k < |now| && Find(now, b) == Some(now[k]) && b !in changed
    ensures Mapped(was, b) && Lookup(was, b) == Lookup(now, b) && Lookup(was, b).value.prot == now[k].prot
  {
    hide Find;
    assert Lookup(now, b).Some?;
  }

  lemma CoveredLookup(ranges: seq<Range>, k: nat, p: nat)
    requires k < |ranges| && Find(ranges, p) == Some(ranges[k])
    ensures Lookup(ranges, p) == Some(AttrOf(ranges[k], p))
  {
  }

  lemma HardSeamFacts(ranges: seq<Range>, s: nat, prot: Prot)
    requires HardSeam(ranges, s, prot)
    ensures s > 0 && Seam(ranges, s) && Lookup(ranges, s - 1).Some? && Lookup(ranges, s).Some?
    ensures Lookup(ranges, s - 1).value.prot != prot && Lookup(ranges, s).value.prot != prot
  {
  }

  lemma FirstHardSeamOnly(ranges: seq<Range>, addr: nat, s: nat, p: nat, prot: Prot)
    requires NoHardSeam(ranges, addr, s, prot) && addr < p < s
    ensures !HardSeam(ranges, p, prot)
  {
  }

  lemma FirstHardSeam(ranges: seq<Range>, addr: nat, end: nat, prot: Prot) returns (s: nat)
    requires !NoHardSeam(ranges, addr, end, prot)
    ensures addr < s < end && HardSeam(ranges, s, prot) && NoHardSeam(ranges, addr, s, prot)
  {
    hide HardSeam;
    s := addr + 1;
    while !HardSeam(ranges, s, prot)
      invariant addr < s < end && NoHardSeam(ranges, addr, s, prot)
      decreases end - s
    {
      assert NoHardSeam(ranges, addr, s + 1, prot);
      s := s + 1;
    }
  }

  lemma ProtectDone(was: seq<Range>, now: seq<Range>, changed: set<nat>, addr: nat, i: nat, end: nat, prot: Prot)
    requires Protecting(was, now, changed, addr, i, end, prot) && i >= end
    requires forall p :: addr <= p < end ==> Mapped(was, p)
    ensures NoHardSeam(was, addr, end, prot) <==> forall p :: addr <= p < end ==>
              Lookup(now, p).Some? && Lookup(now, p).value.prot == prot
  {
    hide Find, Lookup, Seam, HardSeam, EndOf, Mapped;
    forall p: nat | addr <= p < end ensures Lookup(was, p).Some? && Lookup(now, p).Some? {
      LookupMapped(was, p);
    }
    if !NoHardSeam(was, addr, end, prot) {
      var s := FirstHardSeam(was, addr, end, prot);
      HardSeamFacts(was, s, prot);
      assert Lookup(now, s).value.prot != prot;
    }
  }

  lemma ProtectAgrees(was: seq<Range>, now: seq<Range>, pt: map<nat, Pte>, pt': map<nat, Pte>, changed: set<nat>,
                      prot: Prot)
    requires Agrees(was, pt) && Reprotected(was, now, changed, prot) && pt'.Keys == pt.Keys
    requires forall p :: p in pt ==> pt'[p] == if p in changed then pt[p].(flags := PteFlags(prot)) else pt[p]
    ensures Agrees(now, pt')
  {
    hide Lookup, PteFlags, Grants;
  }

  class Pagemap {
    var ranges: seq<Range>
    var pt: map<nat, Pte>
    var shadow: map<(nat, nat), nat>  // the frames in the shadow page table of each mapping
    var anonBase: nat                 // where the next mapping without a fixed address goes

    ghost predicate Valid()
      reads this
    {
      Disjoint(ranges) && Agrees(ranges, pt)
    }

    constructor (base: nat)
      ensures Valid() && ranges == [] && pt == map[] && shadow == map[] && anonBase == base
    {
      ranges, pt, shadow, anonBase := [], map[], map[], base;
    }

    /** Index of the range covering a page, or -1. */
    method Addr2Range(p: nat) returns (k: int)
      ensures -1 <= k < |ranges|
      ensures k == -1 <==> !Mapped(ranges, p)
      ensures k >= 0 ==> Find(ranges, p) == Some(ranges[k]) && Covers(ranges[k], p)
    {
      k := 0;
      assert ranges[0..] == ranges;
      while k < |ranges|
        invariant 0 <= k <= |ranges| && Find(ranges, p) == Find(ranges[k..], p)
      {
        if Covers(ranges[k], p) {
          return;
        }
        assert ranges[k..][1..] == ranges[k + 1..];
        k := k + 1;
      }
      k := -1;
    }

    /** Removes the entries of pages b..e. */
    method UnmapPages(b: nat, e: nat)
      requires b <= e
      modifies `pt
      ensures pt == old(pt) - Pages(b, e)
    {
      var j := b;
      while j < e
        invariant b <= j <= e && pt == old(pt) - Pages(b, j)
      {
        pt := pt - {j};
        assert Pages(b, j + 1) == Pages(b, j) + {j};
        j := j + 1;
      }
    }

    /** The flags that `mmap_page_in_range` and `mprotect` put together. */
    static method FlagsFor(prot: Prot) returns (flags: Flags)
      ensures flags == PteFlags(prot)
    {
      flags := PTE_PRESENT | PTE_USER;
      if prot & PROT_WRITE != 0 {
        flags := flags | PTE_WRITABLE;
      }
      if prot & PROT_EXEC == 0 {
        flags := flags | PTE_NX;
      }
    }

    /** Gives the present entries of pages b..e the flags of a protection. */
    method FlagPages(b: nat, e: nat, prot: Prot)
      requires b <= e
      modifies `pt
      ensures pt.Keys == old(pt).Keys
      ensures forall p :: p in pt ==> pt[p] == if b <= p < e then old(pt)[p].(flags := PteFlags(prot)) else old(pt)[p]
    {
      var j := b;
      var flags := FlagsFor(prot);
      while j < e
        invariant b <= j <= e && pt.Keys == old(pt).Keys
        invariant forall p :: p in pt ==>
                    pt[p] == if b <= p < j then old(pt)[p].(flags := PteFlags(prot)) else old(pt)[p]
      {
        if j in pt {
          pt := pt[j := pt[j].(flags := flags)];
        }
        j := j + 1;
      }
    }

    /** The bookkeeping of one snip: split off what lies above it, then shrink or remove the range. */
    method CutRange(k: nat, b: nat, e: nat) returns (whole: bool)
      requires k < |ranges| && ranges[k].base <= b < e <= Top(ranges[k])
      modifies `ranges
      ensures ranges == UnmapSnip(old(ranges), k, b, e)
      ensures whole <==> b == old(ranges)[k].base && e == Top(old(ranges)[k])
    {
      var local := ranges[k];
      if b > local.base && e < Top(local) {
        var postsplit := Range(e, Top(local) - e, local.offset + (e - local.base), local.prot, local.flags,
                               local.global, false);
        ranges := ranges + [postsplit];
        local := local.(length := local.length - postsplit.length);
      }
      whole := e - b == local.length;
      if whole {
        ranges := ranges[..k] + ranges[k + 1..];
      } else {
        if b == local.base {
          local := local.(offset := local.offset + (e - b), base := e, length := local.length - (e - b));
        } else {
          local := local.(length := local.length - (e - b));
        }
        ranges := ranges[k := local];
      }
      assert ranges == UnmapSnip(old(ranges), k, b, e);
    }

    /** One snip of `mprotect`: what lies above it and the snip itself become ranges of their own. */
    method SplitRange(k: nat, b: nat, e: nat, prot: Prot)
      requires k < |ranges| && ranges[k].base <= b < e <= Top(ranges[k])
      modifies `ranges
      ensures ranges == ProtectSnip(old(ranges), k, b, e, prot)
    {
      var local := ranges[k];
      if b > local.base && e < Top(local) {
        var postsplit := Range(e, Top(local) - e, local.offset + (e - local.base), local.prot, local.flags,
                               local.global, false);
        ranges := ranges + [postsplit];
        local := local.(length := local.length - postsplit.length);
      }
      var newOffset := local.offset + (b - local.base);
      if b == local.base {
        local := local.(offset := local.offset + (e - b), base := e);
      }
      local := local.(length := local.length - (e - b));
      var newRange := Range(b, e - b, newOffset, prot, local.flags, local.global, false);
      ranges := ranges[k := local] + [newRange];
      assert ranges == ProtectSnip(old(ranges), k, b, e, prot);
    }

    /** Clears the shadow page table of a mapping; its frames go back to the frame allocator. */
    method ClearShadow(g: nat)
      modifies `shadow
      ensures shadow == WithoutMapping(old(shadow), g)
    {
      shadow := map key | key in shadow && key.0 != g :: shadow[key];
    }

    /**
      Removes pages addr..addr+length. Exactly the pages in `gone` go, from range list and page table, and
      they lie in the request; every other page keeps its attributes. The loop skips the page right after
      each snip, so all requested pages go if and only if no two ranges meet strictly inside the request.
      A range that goes as a whole takes all frames of its mapping along, also those of its other pieces: so
      present pages stay backed exactly when none is left of a mapping of which some piece went as a whole.
     */
    method MUnmap(addr: nat, length: nat) returns (ok: bool, ghost gone: set<nat>)
      requires Valid()
      modifies `ranges, `pt, `shadow
      ensures Valid() && (ok <==> length > 0)
      ensures shadow == Unshadowed(old(shadow), old(ranges), gone)
      ensures Backed(old(ranges), old(pt), old(shadow)) ==>
                (Backed(ranges, pt, shadow) <==> NoneOrphaned(old(ranges), ranges, pt, gone))
      ensures gone <= Pages(addr, addr + length) && Without(old(ranges), ranges, gone) && pt == old(pt) - gone
      ensures ListsExactly(old(ranges), ranges, gone)
      ensures ok ==>
                (NoSeam(old(ranges), addr, addr + length) <==>
                   forall p :: addr <= p < addr + length ==> !Mapped(ranges, p))
    {
      hide Find, Lookup, Seam, NoSeam, UnmapSnip, Backed, NoneOrphaned, Emptied, Unshadowed, SameRanges, Without;
      hide ListsExactly, Ahead, Snipped;
      gone := {};
      ghost var was := ranges;
      NothingEmptied(was, shadow);
      var i, end := addr, addr + length;
      UnmapStart(was, addr, end);
      ListStart(was, addr);
      UnmapBacked(was, ranges, gone, addr, i, end, pt, shadow);
      if length == 0 {
        return false, {};
      }
      SameStart(was, i, end);
      while i < end
        invariant pt == old(pt) - gone && Unmapping(was, ranges, gone, addr, i, end)
        invariant ListsExactly(was, ranges, gone) && (i < end ==> Ahead(was, ranges, gone, i))
        invariant SameRanges(was, ranges, i, end) && shadow == Unshadowed(old(shadow), was, gone)
      {
        var k := Addr2Range(i);
        if k == -1 {
          UnmapSkip(was, ranges, gone, addr, i, end);
          SameOn(was, ranges, i, i + 1, end);
          AheadOn(was, ranges, gone, i);
          i := i + 1;
          continue;
        }
        var b, top, g := i, Top(ranges[k]), ranges[k].global;
        i := i + 1;
        while !(i >= top || i >= end)
          invariant b < i <= top && i <= end
          decreases top - i
        {
          i := i + 1;
        }
        UnmapStep(was, ranges, gone, addr, b, i, end, k);
        SnipStep(was, ranges, gone, addr, b, i, end, k);
        ShadowStep(was, ranges, gone, addr, b, i, end, k, old(shadow));
        UnmapSnipListed(ranges, k, b, i);
        ListStep(was, ranges, UnmapSnip(ranges, k, b, i), gone, k, b, i);
        UnmapPages(b, i);
        var whole := CutRange(k, b, i);
        if whole {
          ClearShadow(g);
        }
        gone := gone + Pages(b, i);
        i := i + 1;
      }
      UnmapDone(was, ranges, gone, addr, i, end);
      UnmapAgrees(was, ranges, old(pt), gone);
      UnmapBacked(was, ranges, gone, addr, i, end, old(pt), old(shadow));
      ok := true;
    }

    /**
      Sets the protection of mapped pages. Exactly the pages in `changed` get it, and the present ones
      among them its page-table flags; they lie in the request. As `munmap` does, the loop skips the page
      after each snip, so the whole request gets the protection if and only if no seam inside it joins
      two ranges that both have to change.
     */
    method MProtect(addr: nat, length: nat, prot: Prot) returns (ok: bool, ghost changed: set<nat>)
      requires Valid() && forall p :: addr <= p < addr + length ==> Mapped(ranges, p)
      modifies `ranges, `pt
      ensures Valid() && (ok <==> length > 0)
      ensures changed <= Pages(addr, addr + length) && Reprotected(old(ranges), ranges, changed, prot)
      ensures pt.Keys == old(pt).Keys
      ensures forall p :: p in pt && p !in changed ==> pt[p] == old(pt)[p]
      ensures forall p :: p in pt && p in changed ==> pt[p].frame == old(pt)[p].frame && Grants(pt[p].flags, prot)
      ensures ListsExactly(old(ranges), ranges, changed)
      ensures Backed(old(ranges), old(pt), shadow) ==> Backed(ranges, pt, shadow)
      ensures ok ==> (NoHardSeam(old(ranges), addr, addr + length, prot) <==>
                      forall p :: addr <= p < addr + length ==>
                        Lookup(ranges, p).Some? && Lookup(ranges, p).value.prot == prot)
    {
      hide Find, Lookup, Seam, HardSeam, NoHardSeam, ProtectSnip, Mapped, EndOf, PteFlags, Grants, Disjoint;
      hide Backed, ListsExactly, Ahead, Snipped;
      changed := {};
      ghost var was := ranges;
      var i, end := addr, addr + length;
      ProtectStart(was, addr, end, prot);
      ListStart(was, addr);
      if length == 0 {
        ProtectAgrees(was, was, pt, pt, {}, prot);
        return false, {};
      }
      while i < end
        invariant pt.Keys == old(pt).Keys && Protecting(was, ranges, changed, addr, i, end, prot)
        invariant ListsExactly(was, ranges, changed) && (i < end ==> Ahead(was, ranges, changed, i))
        invariant forall p :: p in pt ==>
                    pt[p] == if p in changed then old(pt)[p].(flags := PteFlags(prot)) else old(pt)[p]
      {
        var k := Addr2Range(i);
        StillMapped(was, ranges, changed, prot, i);
        CoveredLookup(ranges, k, i);
        if ranges[k].prot == prot {
          ProtectSkip(was, ranges, changed, addr, i, end, prot);
          AheadOn(was, ranges, changed, i);
          i := i + 1;
          continue;
        }
        var b, top := i, Top(ranges[k]);
        i := i + 1;
        while !(i >= top || i >= end)
          invariant b < i <= top && i <= end
          decreases top - i
        {
          i := i + 1;
        }
        ProtectStep(was, ranges, changed, addr, b, i, end, prot, k);
        ProtectSnipListed(ranges, k, b, i, prot);
        ListStep(was, ranges, ProtectSnip(ranges, k, b, i, prot), changed, k, b, i);
        FlagPages(b, i, prot);
        SplitRange(k, b, i, prot);
        changed := changed + Pages(b, i);
        i := i + 1;
      }
      ProtectDone(was, ranges, changed, addr, i, end, prot);
      ProtectAgrees(was, ranges, old(pt), pt, changed, prot);
      if Backed(was, old(pt), shadow) {
        ProtectBacked(was, ranges, addr, i, end, old(pt), pt, changed, prot, shadow);
      }
      ok := true;
    }

    /**
      Adds a mapping. At a fixed address the request is unmapped first, so the new mapping is in force on
      the whole request, and ranges stay disjoint, exactly when no seam made `munmap` leave a page behind.
     */
    method MMap(addr: nat, length: nat, prot: Prot, flags: int, fixed: bool, offset: int, global: nat)
      returns (base: int, ghost gone: set<nat>)
      requires Valid()
      modifies `ranges, `pt, `shadow, `anonBase
      ensures pt == old(pt) - gone && gone <= Pages(addr, addr + length) && (!fixed ==> gone == {})
      ensures shadow == Unshadowed(old(shadow), old(ranges), gone)
      ensures base == if length == 0 then -1 else if fixed then addr else old(anonBase)
      ensures base == -1 ==> ranges == old(ranges) && pt == old(pt)
      ensures base >= 0 ==>
                |ranges| > 0 && ranges[|ranges| - 1] == Range(base, length, offset, prot, flags, global, true)
      ensures base >= 0 && fixed ==> (NoSeam(old(ranges), addr, addr + length) <==> Disjoint(ranges))
      ensures base >= 0 && !fixed ==>
                ((forall p :: base <= p < base + length ==> !Mapped(old(ranges), p)) <==> Disjoint(ranges))
      ensures Disjoint(ranges) && base >= 0 ==> Valid()
      ensures anonBase == if base >= 0 && !fixed then old(anonBase) + length + 1 else old(anonBase)
      ensures base >= 0 && !fixed && FreeFrom(old(ranges), old(anonBase)) ==>
                Disjoint(ranges) && FreeFrom(ranges, anonBase - 1)
      ensures Disjoint(ranges) && base >= 0 ==> forall p: nat :: base <= p < base + length ==>
                Lookup(ranges, p) == Some(Attr(prot, flags, offset + (p - base), global))
      ensures forall p: nat :: base < 0 || p < base || p >= base + length ==>
                Lookup(ranges, p) == Lookup(old(ranges), p)
    {
      hide Find, Lookup, Seam, NoSeam, Mapped, Unshadowed, FreeFrom;
      gone := {};
      NothingEmptied(ranges, shadow);
      if length == 0 {
        return -1, {};
      }
      if fixed {
        var ok;
        ok, gone := MUnmap(addr, length);
        base := addr;
      } else {
        base := anonBase;
        anonBase := anonBase + length + 1;
      }
      var local := Range(base, length, offset, prot, flags, global, true);
      PushRange(ranges, pt, local);
      ranges := ranges + [local];
      if !fixed {
        FreeBelow(old(ranges), ranges, base, length);
      }
    }

    /**
      A fault on page `p`: the page goes to the mapping's shadow, then to the listed local that covers it.
      So the fault makes the page present exactly when its range is the one that `mmap` made; a piece split
      off by `munmap` or `mprotect` is not on the list, and its fault is reported as handled all the same.
     */
    method HandleFault(p: nat, frame: nat) returns (ok: bool)
      requires Valid() && p !in pt
      modifies `pt, `shadow
      ensures Valid()
      ensures ok <==> Mapped(ranges, p) && (Find(ranges, p).value.global, p) !in old(shadow)
      ensures shadow == if ok then old(shadow)[(Find(ranges, p).value.global, p) := frame] else old(shadow)
      ensures Backed(ranges, old(pt), old(shadow)) ==> Backed(ranges, pt, shadow)
      ensures ok ==> (p in pt <==> Find(ranges, p).value.listed)
      ensures p in pt ==> pt == old(pt)[p := Pte(frame, pt[p].flags)]
      ensures p in pt ==> Lookup(ranges, p).Some? && Grants(pt[p].flags, Lookup(ranges, p).value.prot)
      ensures p !in pt ==> pt == old(pt)
    {
      hide PteFlags, Grants, Disjoint, Backed;
      var k := Addr2Range(p);
      if k == -1 {
        return false;
      }
      var local := ranges[k];
      if (local.global, p) in shadow {
        return false;
      }
      var flags := FlagsFor(local.prot);
      shadow := shadow[(local.global, p) := frame];
      var j := 0;
      while j < |ranges|
        invariant 0 <= j <= |ranges| && shadow == old(shadow)[(local.global, p) := frame]
        invariant pt == if k < j && local.listed then old(pt)[p := Pte(frame, PteFlags(local.prot))] else old(pt)
      {
        if ranges[j].listed && ranges[j].global == local.global && Covers(ranges[j], p) {
          OnlyOne(ranges, j, k, p);
          pt := pt[p := Pte(frame, flags)];
        }
        j := j + 1;
      }
      FaultBacked(ranges, old(pt), pt, old(shadow), local.global, p, frame);
      ok := true;
    }
  }

  lemma FaultBacked(ranges: seq<Range>, pt: map<nat, Pte>, pt': map<nat, Pte>, shadow: map<(nat, nat), nat>,
                    g: nat, p: nat, frame: nat)
    requires p !in pt && Lookup(ranges, p).Some? && Lookup(ranges, p).value.global == g
    requires pt' == pt || (p in pt' && pt' == pt[p := pt'[p]] && pt'[p].frame == frame)
    ensures Backed(ranges, pt, shadow) ==> Backed(ranges, pt', shadow[(g, p) := frame])
  {
    hide Lookup;
  }

  lemma SameStart(was: seq<Range>, i: nat, end: nat)
    ensures SameRanges(was, was, i, end)
  {
  }

  lemma SameOn(was: seq<Range>, now: seq<Range>, i: nat, j: nat, end: nat)
    requires SameRanges(was, now, i, end) && i <= j
    ensures SameRanges(was, now, j, end)
  {
    hide Find;
  }

  lemma SnipStep(was: seq<Range>, now: seq<Range>, gone: set<nat>, addr: nat, b: nat, e: nat, end: nat, k: nat)
    requires Unmapping(was, now, gone, addr, b, end) && SameRanges(was, now, b, end) && k < |now|
    requires now[k].base <= b < e <= end && e == if Top(now[k]) < end then Top(now[k]) else end
    ensures SameRanges(was, UnmapSnip(now, k, b, e), e + 1, end)
  {
    hide Find, UnmapSnip;
    forall p: nat | e + 1 <= p < end ensures Find(UnmapSnip(now, k, b, e), p) == Find(was, p) {
      SnipSame(now, k, b, e, p);
    }
  }

  lemma ShadowStep(was: seq<Range>, now: seq<Range>, gone: set<nat>, addr: nat, b: nat, e: nat, end: nat, k: nat,
                   shadow: map<(nat, nat), nat>)
    requires Unmapping(was, now, gone, addr, b, end) && SameRanges(was, now, b, end) && k < |now|
    requires now[k].base <= b < e <= end && e <= Top(now[k]) && Find(now, b) == Some(now[k])
    ensures Unshadowed(shadow, was, gone + Pages(b, e)) ==
            if b == now[k].base && e == Top(now[k]) then WithoutMapping(Unshadowed(shadow, was, gone), now[k].global)
            else Unshadowed(shadow, was, gone)
  {
    hide Find, Emptied, Without, Disjoint;
    forall g: nat
      ensures Emptied(was, gone + Pages(b, e), g) <==>
                Emptied(was, gone, g) || (g == now[k].global && b == now[k].base && e == Top(now[k]))
    {
      EmptiedStep(was, now, gone, k, b, e, g);
    }
  }

  lemma UnmapBacked(was: seq<Range>, now: seq<Range>, gone: set<nat>, addr: nat, i: nat, end: nat,
                    pt: map<nat, Pte>, shadow: map<(nat, nat), nat>)
    requires Unmapping(was, now, gone, addr, i, end)
    ensures Backed(was, pt, shadow) ==>
              (Backed(now, pt - gone, Unshadowed(shadow, was, gone)) <==> NoneOrphaned(was, now, pt - gone, gone))
  {
    hide Backed, NoneOrphaned, Without, Disjoint, Unshadowed;
    if Backed(was, pt, shadow) {
      BackedExact(was, now, pt, gone, shadow);
    }
  }

  lemma ProtectBacked(was: seq<Range>, now: seq<Range>, addr: nat, i: nat, end: nat, pt: map<nat, Pte>,
                      pt': map<nat, Pte>, changed: set<nat>, prot: Prot, shadow: map<(nat, nat), nat>)
    requires Protecting(was, now, changed, addr, i, end, prot) && Backed(was, pt, shadow) && pt'.Keys == pt.Keys
    requires forall p :: p in pt ==> pt'[p] == if p in changed then pt[p].(flags := PteFlags(prot)) else pt[p]
    ensures Backed(now, pt', shadow)
  {
    hide Backed, Reprotected, Disjoint, PteFlags, Grants;
    BackedKept(was, now, pt, pt', changed, prot, shadow);
  }

  /** In a disjoint list a page has one range only. */
  lemma OnlyOne(ranges: seq<Range>, j: nat, k: nat, p: nat)
    requires Disjoint(ranges) && j < |ranges| && k < |ranges| && Covers(ranges[j], p) && Covers(ranges[k], p)
    ensures j == k
  {
    FindSplit(ranges, if j < k then j else k, p);
    if j < k {
      NotFound(ranges[j + 1..], k - j - 1, p);
    } else if k < j {
      NotFound(ranges[k + 1..], j - k - 1, p);
    }
  }

  lemma {:induction false} NotFound(ranges: seq<Range>, k: nat, p: nat)
    requires k < |ranges| && Covers(ranges[k], p)
    ensures Find(ranges, p).Some?
  {
    if k > 0 {
      NotFound(ranges[1..], k - 1, p);
    }
  }

  /** Appending a range: it decides the pages that no other range covers. */
  lemma PushRange(ranges: seq<Range>, pt: map<nat, Pte>, r: Range)
    requires Disjoint(ranges) && Agrees(ranges, pt)
    ensures forall p: nat :: Lookup(ranges + [r], p) ==
              if Mapped(ranges, p) then Lookup(ranges, p) else if Covers(r, p) then Some(AttrOf(r, p)) else None
    ensures Disjoint(ranges + [r]) <==> forall p: nat :: r.base <= p < Top(r) ==> !Mapped(ranges, p)
    ensures Agrees(ranges + [r], pt)
    ensures forall p: nat :: !Mapped(ranges, p) ==> Lookup(ranges, p) == None
  {
    forall p: nat
      ensures Lookup(ranges + [r], p) ==
                if Mapped(ranges, p) then Lookup(ranges, p) else if Covers(r, p) then Some(AttrOf(r, p)) else None
      ensures Count(ranges + [r], p) == Count(ranges, p) + if Covers(r, p) then 1 else 0
      ensures Mapped(ranges, p) <==> Count(ranges, p) != 0
    {
      FindConcat(ranges, [r], p);
      FindCount(ranges, p);
    }
  }

  lemma StillMapped(was: seq<Range>, now: seq<Range>, changed: set<nat>, prot: Prot, p: nat)
    requires Reprotected(was, now, changed, prot) && Mapped(was, p)
    ensures Mapped(now, p)
  {
    hide Find;
    assert Lookup(was, p).Some?;
    assert Lookup(now, p).Some?;
  }

  // ----- requests that are not carried out

  /** Neighbouring pages of different protection lie in different ranges. */
  lemma ProtSeam(ranges: seq<Range>, p: nat)
    requires Disjoint(ranges) && p > 0 && Lookup(ranges, p - 1).Some? && Lookup(ranges, p).Some?
    requires Lookup(ranges, p - 1).value.prot != Lookup(ranges, p).value.prot
    ensures Seam(ranges, p)
  {
    LookupMapped(ranges, p - 1);
    var k := FoundAt(ranges, p - 1);
    FindSplit(ranges, k, p);
  }

  /** Three pages are mapped, and the one in the middle is protected on its own. */
  method Striped() returns (pm: Pagemap)
    ensures fresh(pm) && pm.Valid() && pm.pt == map[] && pm.shadow == map[] && Unlisted(pm.ranges, 101)
    ensures forall p: nat :: 100 <= p < 103 ==> Mapped(pm.ranges, p) && Lookup(pm.ranges, p).Some?
    ensures forall p: nat :: 100 <= p < 103 ==> Lookup(pm.ranges, p).value.prot == if p == 101 then 1 else 3
  {
    hide Find, Lookup, Seam, HardSeam;
    pm := new Pagemap(100);
    var base;
    ghost var gone, changed;
    base, gone := pm.MMap(0, 3, 3, 0, false, 0, 7);
    NothingMapped();
    assert Disjoint(pm.ranges);
    ghost var before := pm.ranges;
    forall p: nat | 100 <= p < 103
      ensures Lookup(before, p).Some? && Lookup(before, p).value.prot == 3 && Mapped(before, p)
    {
      assert Lookup(before, p) == Some(Attr(3, 0, 0 + (p - 100), 7));
      LookupMapped(before, p);
    }
    var ok;
    ok, changed := pm.MProtect(101, 1, 1);
    assert NoHardSeam(before, 101, 102, 1);
    assert Lookup(pm.ranges, 101).value.prot == 1;
    forall p: nat | 100 <= p < 103 ensures Mapped(pm.ranges, p) { StillMapped(before, pm.ranges, changed, 1, p); }
    forall p: nat | 100 <= p < 103
      ensures Lookup(pm.ranges, p).Some? && Lookup(pm.ranges, p).value.prot == if p == 101 then 1 else 3
    {
      LookupMapped(pm.ranges, p);
      assert p in changed ==> p in Pages(101, 102);
    }
    assert 101 in changed;
  }

  lemma NothingMapped()
    ensures forall p: nat :: !Mapped([], p)
  {
  }

  /** Unmapping the three pages leaves one of them mapped, and says that it succeeded. */
  method UnmapLeavesPage() returns (pm: Pagemap, ok: bool, ghost left: nat)
    ensures fresh(pm) && ok && 100 <= left < 103 && Mapped(pm.ranges, left)
  {
    hide Find, Lookup, Seam;
    pm := Striped();
    ghost var gone;
    ProtSeam(pm.ranges, 101);
    assert !NoSeam(pm.ranges, 100, 103);
    ok, gone := pm.MUnmap(100, 3);
    left :| 100 <= left < 103 && Mapped(pm.ranges, left);
  }

  /** Protecting the three pages leaves one of them as it was, and says that it succeeded. */
  method ProtectLeavesPage() returns (pm: Pagemap, ok: bool, ghost left: nat)
    ensures fresh(pm) && ok && 100 <= left < 103 && Lookup(pm.ranges, left).Some?
    ensures Lookup(pm.ranges, left).value.prot != 7
  {
    hide Find, Lookup, Seam;
    pm := Striped();
    ghost var before, changed := pm.ranges, {};
    ProtSeam(before, 101);
    assert HardSeam(before, 101, 7);
    ok, changed := pm.MProtect(100, 3, 7);
    forall p: nat | 100 <= p < 103 ensures Lookup(pm.ranges, p).Some? {
      StillMapped(before, pm.ranges, changed, 7, p);
      LookupMapped(pm.ranges, p);
    }
    left :| 100 <= left < 103 && Lookup(pm.ranges, left).value.prot != 7;
  }

  /** A fault on the page in the middle is reported as handled, and the page is still absent. */
  method FaultLeavesAbsent() returns (pm: Pagemap, ok: bool)
    ensures fresh(pm) && ok && Mapped(pm.ranges, 101) && 101 !in pm.pt
  {
    pm := Striped();
    ok := pm.HandleFault(101, 55);
  }

  /** A page whose neighbours have another protection is a range of its own. */
  lemma AloneAt(ranges: seq<Range>, p: nat) returns (k: nat)
    requires Disjoint(ranges) && p > 0 && Lookup(ranges, p).Some?
    requires Lookup(ranges, p - 1).Some? && Lookup(ranges, p - 1).value.prot != Lookup(ranges, p).value.prot
    requires Lookup(ranges, p + 1).Some? && Lookup(ranges, p + 1).value.prot != Lookup(ranges, p).value.prot
    ensures k < |ranges| && ranges[k].base == p && ranges[k].length == 1
    ensures ranges[k].global == Lookup(ranges, p).value.global
  {
    LookupMapped(ranges, p);
    k := FoundAt(ranges, p);
    FindSplit(ranges, k, p - 1);
    FindSplit(ranges, k, p + 1);
  }

  /** Three pages are mapped and touched. */
  method Touched() returns (pm: Pagemap)
    ensures fresh(pm) && pm.Valid() && 100 in pm.pt && 101 in pm.pt && 102 in pm.pt
    ensures forall p :: 100 <= p < 103 ==> Lookup(pm.ranges, p) == Some(Attr(3, 0, p - 100, 7))
  {
    hide Find, Lookup, Seam, NoSeam, Unshadowed, Backed, Grants;
    pm := new Pagemap(100);
    var base;
    ghost var gone;
    base, gone := pm.MMap(0, 3, 3, 0, false, 0, 7);
    NothingMapped();
    NothingEmptied([], map[]);
    assert pm.shadow == map[];
    ThreePages(pm.ranges);
    var ok := pm.HandleFault(100, 55);
    ok := pm.HandleFault(101, 56);
    ok := pm.HandleFault(102, 57);
  }

  /**
    The one in the middle is protected on its own and unmapped: the frames of all three are freed, while the
    other two are still present.
   */
  method UnmapFreesOthers() returns (pm: Pagemap, ok: bool)
    ensures fresh(pm) && ok && pm.Valid() && 100 in pm.pt && 102 in pm.pt && 101 !in pm.pt
    ensures (7, 100) !in pm.shadow && (7, 102) !in pm.shadow && !Backed(pm.ranges, pm.pt, pm.shadow)
  {
    hide Find, Lookup, Seam, NoSeam, HardSeam, NoHardSeam, Unshadowed, Emptied, NoneOrphaned, Grants;
    pm := Touched();
    ghost var whole := pm.ranges;
    ghost var gone, changed;
    Touching(whole);
    ok, changed := pm.MProtect(101, 1, 1);
    ghost var pieces, frames := pm.ranges, pm.shadow;
    Alone(whole, pieces, changed);
    ok, gone := pm.MUnmap(101, 1);
    OneGone(pieces, pm.ranges, gone);
    MiddleEmptied(pieces, gone, frames);
    OthersStay(pieces, pm.ranges, gone);
  }

  lemma Touching(ranges: seq<Range>)
    requires forall p :: 100 <= p < 103 ==> Lookup(ranges, p) == Some(Attr(3, 0, p - 100, 7))
    ensures Mapped(ranges, 101)
  {
    LookupMapped(ranges, 101);
  }

  lemma ThreePages(ranges: seq<Range>)
    requires Disjoint(ranges) && |ranges| > 0 && ranges[|ranges| - 1] == Range(100, 3, 0, 3, 0, 7, true)
    ensures forall p :: 100 <= p < 103 ==> Mapped(ranges, p) && Find(ranges, p) == Some(ranges[|ranges| - 1])
    ensures forall p :: 100 <= p < 103 ==> Lookup(ranges, p) == Some(Attr(3, 0, p - 100, 7))
  {
    forall p | 100 <= p < 103 ensures Find(ranges, p) == Some(ranges[|ranges| - 1]) {
      FindSplit(ranges, |ranges| - 1, p);
    }
  }

  /** Protecting the middle page puts it into a range of its own. */
  lemma Alone(was: seq<Range>, now: seq<Range>, changed: set<nat>)
    requires forall p :: 100 <= p < 103 ==> Lookup(was, p) == Some(Attr(3, 0, p - 100, 7))
    requires Reprotected(was, now, changed, 1) && changed <= Pages(101, 102)
    requires NoHardSeam(was, 101, 102, 1) <==>
               forall p :: 101 <= p < 102 ==> Lookup(now, p).Some? && Lookup(now, p).value.prot == 1
    ensures forall p: nat :: 100 <= p < 103 ==>
              Lookup(now, p) == Some(Attr(if p == 101 then 1 else 3, 0, p - 100, 7))
  {
    hide Lookup, HardSeam;
    assert NoHardSeam(was, 101, 102, 1);
    assert Lookup(now, 101).value.prot == 1;
    forall p: nat | 100 <= p < 103
      ensures Lookup(now, p) == Some(Attr(if p == 101 then 1 else 3, 0, p - 100, 7))
    {
      assert p in changed ==> p in Pages(101, 102);
    }
  }

  lemma OneGone(was: seq<Range>, now: seq<Range>, gone: set<nat>)
    requires gone <= Pages(101, 102) && Without(was, now, gone) && Lookup(was, 101).Some?
    requires NoSeam(was, 101, 102) <==> forall p :: 101 <= p < 102 ==> !Mapped(now, p)
    ensures gone == {101}
  {
    hide Lookup, Seam;
    assert NoSeam(was, 101, 102);
    LookupMapped(was, 101);
    MappedNow(was, now, gone, 101);
    assert forall p :: p in gone ==> p in Pages(101, 102);
  }

  lemma MiddleEmptied(ranges: seq<Range>, gone: set<nat>, shadow: map<(nat, nat), nat>)
    requires Disjoint(ranges) && gone == {101}
    requires forall p: nat :: 100 <= p < 103 ==>
               Lookup(ranges, p) == Some(Attr(if p == 101 then 1 else 3, 0, p - 100, 7))
    ensures Emptied(ranges, gone, 7)
    ensures (7, 100) !in Unshadowed(shadow, ranges, gone) && (7, 102) !in Unshadowed(shadow, ranges, gone)
  {
    hide Lookup;
    var k := AloneAt(ranges, 101);
    assert AllGone(ranges[k], gone);
  }

  lemma OthersStay(was: seq<Range>, now: seq<Range>, gone: set<nat>)
    requires Without(was, now, gone) && gone == {101} && Lookup(was, 100) == Some(Attr(3, 0, 0, 7))
    ensures Lookup(now, 100) == Some(Attr(3, 0, 0, 7))
  {
    hide Lookup;
  }
}
