/**
  Page-table entries. An entry is a 64-bit word: bits 12-51 are the address of a frame, and the other
  bits are flags. Frames are numbered, so the frame at address `a` is `a / 4096`.
 */
module PageEntries {

  type Frame = int
  type Word = int

  const TABLE_FLAGS: Word := 7  // present, writable, user

  function Addr(w: Word): Frame {
    w / 4096 % 0x100_0000_0000
  }

  function Flags(w: Word): Word {
    w - 4096 * Addr(w)
  }

  predicate Present(w: Word) {
    w % 2 == 1
  }

  /** The frame address or-ed with flags that are clear of the address bits. */
  function Entry(f: Frame, flags: Word): Word {
    4096 * f + flags
  }

  predicate IsFrame(f: Frame) {
    0 <= f < 0x100_0000_0000
  }

  /** Words clear of the address bits. */
  predicate IsFlags(w: Word) {
    Addr(w) == 0
  }

  /** On 64-bit words, or-ing a page-aligned address below 2^52 with such flags is adding them. */
  lemma OrIsSum(phys: bv64, flags: bv64)
    requires phys & 0x000f_ffff_ffff_f000 == phys && flags & 0x000f_ffff_ffff_f000 == 0
    ensures phys | flags == phys + flags
    ensures (phys | flags) & 0x000f_ffff_ffff_f000 == phys
    ensures (phys | flags) & 0xfff0_0000_0000_0fff == flags
  {
  }

  lemma Quotient(q: int, r: int)
    requires 0 <= r < 4096
    ensures (4096 * q + r) / 4096 == q && (4096 * q + r) % 4096 == r
  {
  }

  lemma Remainder(f: int, k: int)
    requires IsFrame(f)
    ensures (f + 0x100_0000_0000 * k) % 0x100_0000_0000 == f
  {
  }

  /** An entry gives back the frame and the flags it was made of. */
  lemma EntryParts(f: Frame, flags: Word)
    requires IsFrame(f) && IsFlags(flags)
    ensures Addr(Entry(f, flags)) == f && Flags(Entry(f, flags)) == flags
  {
    var k, r := flags / 4096 / 0x100_0000_0000, flags % 4096;
    assert flags / 4096 == 0x100_0000_0000 * k;
    assert Entry(f, flags) == 4096 * (f + 0x100_0000_0000 * k) + r;
    Quotient(f + 0x100_0000_0000 * k, r);
    Remainder(f, k);
  }

  lemma EntryPresent(f: Frame, flags: Word)
    ensures Present(Entry(f, flags)) <==> Present(flags)
  {
  }

  /** And any entry is made of its frame and flags. */
  lemma EntrySplit(w: Word)
    ensures IsFrame(Addr(w)) && IsFlags(Flags(w)) && Entry(Addr(w), Flags(w)) == w
    ensures Present(Flags(w)) <==> Present(w)
  {
    FlagsSplit(w);
    Parity(w, Addr(w));
    hide Addr;
  }

  lemma FlagsSplit(w: Word)
    ensures IsFrame(Addr(w)) && IsFlags(Flags(w))
  {
    var k, r := w / 4096 / 0x100_0000_0000, w % 4096;
    assert w / 4096 == 0x100_0000_0000 * k + Addr(w);
    assert Flags(w) == 4096 * (0x100_0000_0000 * k) + r;
    Quotient(0x100_0000_0000 * k, r);
    Remainder(0, k);
  }

  lemma Parity(w: Word, a: Frame)
    ensures (w - 4096 * a) % 2 == w % 2
  {
  }

  lemma ZeroAbsent()
    ensures !Present(0)
  {
  }

  /** The entry of a table that hangs above table `f`. */
  predicate LeadsTo(w: Word, f: Frame) {
    Present(w) && Addr(w) == f && Flags(w) == TABLE_FLAGS
  }

  lemma TableEntry(f: Frame)
    requires IsFrame(f)
    ensures LeadsTo(Entry(f, TABLE_FLAGS), f)
  {
    EntryParts(f, TABLE_FLAGS);
    EntryPresent(f, TABLE_FLAGS);
  }
}

/**
  The 4-level page tables (Intel SDM volume 3A, section 4.5).

  Physical memory maps a frame to its 512 words; frames serve as page tables or hold
  data. A virtual address is given by its page number `virt / 4096`; the four 9-bit indices of that
  number form its path. The ghost map `pos` says where each table hangs, which makes the tables of all
  address spaces a forest whose upper halves share the kernel's subtrees.
 */
module PageTables {

  import opened PageEntries
  import opened Wrappers

  type Path = seq<nat>
  type Memory = map<Frame, seq<Word>>

  const KERNEL_HALF: nat := 256

  /** The table's place: its address space (none for the shared kernel half), path, and parent table. */
  datatype Pos = Pos(owner: Option<Frame>, path: Path, parent: Frame)

  function ZeroPage(): seq<Word> {
    seq(512, _ => 0)
  }

  /** The four table indices of a page, top level first: the digits of its number to the base 512. */
  function PathOf(page: nat): (p: Path)
    ensures |p| == 4 && IsPath(p)
    ensures page < 0x10_0000_0000 ==> page == ((p[0] * 512 + p[1]) * 512 + p[2]) * 512 + p[3]
  {
    [page / 512 / 512 / 512 % 512, page / 512 / 512 % 512, page / 512 % 512, page % 512]
  }

  predicate IsPath(p: Path) {
    forall i :: 0 <= i < |p| ==> p[i] < 512
  }

  /** Distinct pages of the 48-bit address space have distinct paths. */
  lemma PathInjective(m: nat, n: nat)
    requires m < 0x10_0000_0000 && n < 0x10_0000_0000 && PathOf(m) == PathOf(n)
    ensures m == n
  {
    var p, q := PathOf(m), PathOf(n);
    assert p[0] == q[0] && p[1] == q[1] && p[2] == q[2] && p[3] == q[3];
  }

  // ----- the partial map read from the tables

  ghost predicate IsTable(mem: Memory, t: Frame) {
    t in mem && |mem[t]| == 512
  }

  /** The last-level table for `p`, walking from `t`; none if some level is missing. */
  ghost function LeafTable(mem: Memory, t: Frame, p: Path): Option<Frame>
    requires p != [] && IsPath(p)
    decreases |p|
  {
    if |p| == 1 then Some(t)
    else if IsTable(mem, t) && Present(mem[t][p[0]]) then LeafTable(mem, Addr(mem[t][p[0]]), p[1..])
    else None
  }

  /** The entry for `p`, or zero where the walk fails. A page is mapped when its entry is present. */
  ghost function Lookup(mem: Memory, t: Frame, p: Path): Word
    requires p != [] && IsPath(p)
  {
    match LeafTable(mem, t, p)
    case None => 0
    case Some(u) => if IsTable(mem, u) then mem[u][p[|p| - 1]] else 0
  }

  ghost function View(mem: Memory, root: Frame, page: nat): Word {
    Lookup(mem, root, PathOf(page))
  }

  // ----- the invariant

  ghost function ChildOwner(at: Pos, i: nat): Option<Frame> {
    if at.path == [] && i >= KERNEL_HALF then None else at.owner
  }

  /**
    Each table lies at one place, and the present entries above the last level lead to tables placed below, with the
    flags of a table.
   */
  ghost predicate Placed(mem: Memory, roots: set<Frame>, pos: map<Frame, Pos>) {
    && (forall t :: t in pos ==> IsTable(mem, t) && IsFrame(t) && |pos[t].path| <= 3 && IsPath(pos[t].path))
    && (forall t :: t in pos && pos[t].path == [] ==> t in roots)
    && (forall r :: r in roots ==> r in pos && pos[r].path == [] && pos[r].owner == Some(r))
    && (forall t, i {:trigger mem[t][i]} :: t in pos && |pos[t].path| < 3 && 0 <= i < 512 && Present(mem[t][i]) ==>
          var c := Addr(mem[t][i]);
          && c in pos && pos[c].path == pos[t].path + [i] && pos[c].owner == ChildOwner(pos[t], i)
          && Flags(mem[t][i]) == TABLE_FLAGS)
  }

  /** Table `t` hangs from its parent table, in the same address space. */
  ghost predicate Hangs(mem: Memory, pos: map<Frame, Pos>, t: Frame)
    requires t in pos && pos[t].path != []
  {
    var q, last := pos[t].parent, |pos[t].path| - 1;
    var i := pos[t].path[last];
    && q in pos && pos[q].owner == pos[t].owner && pos[q].path == pos[t].path[..last]
    && IsTable(mem, q) && i < 512 && Present(mem[q][i]) && Addr(mem[q][i]) == t
  }

  ghost predicate Rooted(mem: Memory, pos: map<Frame, Pos>) {
    forall t {:trigger Hangs(mem, pos, t)} :: t in pos && pos[t].owner.Some? && pos[t].path != [] ==> Hangs(mem, pos, t)
  }

  /** All address spaces have the kernel's upper half, whose top-level entries are all present. */
  ghost predicate Shared(mem: Memory, roots: set<Frame>) {
    && (forall r, s, i :: r in roots && s in roots && KERNEL_HALF <= i < 512 && IsTable(mem, r) && IsTable(mem, s) ==>
          mem[r][i] == mem[s][i])
    && (forall r, i :: r in roots && KERNEL_HALF <= i < 512 && IsTable(mem, r) ==> Present(mem[r][i]))
  }

  ghost predicate Free(mem: Memory, pos: map<Frame, Pos>, free: set<Frame>) {
    forall f :: f in free ==> f !in pos && IsTable(mem, f) && IsFrame(f)
  }

  ghost predicate Inv(mem: Memory, roots: set<Frame>, pos: map<Frame, Pos>, free: set<Frame>) {
    Placed(mem, roots, pos) && Rooted(mem, pos) && Shared(mem, roots) && Free(mem, pos, free)
  }

  /** A walk from `t` ends in a table placed where the path says. */
  lemma {:induction false} LeafPos(mem: Memory, roots: set<Frame>, pos: map<Frame, Pos>, t: Frame, p: Path)
    requires Placed(mem, roots, pos) && t in pos && p != [] && IsPath(p) && |pos[t].path| + |p| == 4
    ensures LeafTable(mem, t, p).Some? ==>
              var u := LeafTable(mem, t, p).value;
              && u in pos && pos[u].path == pos[t].path + p[..|p| - 1]
              && pos[u].owner == if |p| == 1 then pos[t].owner else ChildOwner(pos[t], p[0])
    decreases |p|
  {
    hide Addr, Present, Entry;
    if |p| > 1 && Present(mem[t][p[0]]) {
      var c := Addr(mem[t][p[0]]);
      LeafPos(mem, roots, pos, c, p[1..]);
      assert p[..|p| - 1] == [p[0]] + p[1..][..|p| - 2];
    }
  }

  // ----- what the processor allows

  /** Bits 1 and 2 of an entry: writable, and for user processes. */
  predicate Permits(w: Word, write: bool) {
    Present(w) && w / 4 % 2 == 1 && (write ==> w / 2 % 2 == 1)
  }

  /** An access of a user process has to be permitted at every level (section 4.6 of the manual cited above). */
  ghost predicate Allowed(mem: Memory, t: Frame, p: Path, write: bool)
    requires p != [] && IsPath(p)
    decreases |p|
  {
    && IsTable(mem, t) && Permits(mem[t][p[0]], write)
    && (|p| == 1 || Allowed(mem, Addr(mem[t][p[0]]), p[1..], write))
  }

  lemma TablesPermit(f: Frame, write: bool)
    requires IsFrame(f)
    ensures Permits(Entry(f, TABLE_FLAGS), write)
  {
    var w := Entry(f, TABLE_FLAGS);
    EntryPresent(f, TABLE_FLAGS);
    var quarter, half := 1024 * f + 1, 2048 * f + 3;
    assert w == 4 * quarter + 3 && w == 2 * half + 1;
    assert quarter == 2 * (512 * f) + 1 && half == 2 * (1024 * f + 1) + 1;
    hide Entry, Present;
    Halves(512 * f);
    Halves(1024 * f + 1);
    Divides(w, 4, quarter, 3);
    Divides(w, 2, half, 1);
  }

  lemma Halves(q: int)
    ensures (2 * q + 1) % 2 == 1
  {
  }

  lemma Divides(w: int, d: nat, q: int, r: nat)
    requires (d == 2 || d == 4) && w == d * q + r && r < d
    ensures w / d == q
  {
  }

  /** The tables permit everything, so that it is decided by the last-level entry alone. */
  lemma {:induction false} AllowedExact(mem: Memory, roots: set<Frame>, pos: map<Frame, Pos>, t: Frame, p: Path,
                                        write: bool)
    requires Placed(mem, roots, pos) && t in pos && p != [] && IsPath(p) && |pos[t].path| + |p| == 4
    ensures Allowed(mem, t, p, write) <==> Permits(Lookup(mem, t, p), write)
    decreases |p|
  {
    hide Addr, Flags, Entry;
    if |p| > 1 && Present(mem[t][p[0]]) {
      var c := Addr(mem[t][p[0]]);
      EntrySplit(mem[t][p[0]]);
      TablesPermit(c, write);
      AllowedExact(mem, roots, pos, c, p[1..], write);
      assert p[1..][|p| - 2] == p[|p| - 1];
    }
  }

  // ----- writing a last-level entry

  lemma {:induction false} LeafKept(mem: Memory, roots: set<Frame>, pos: map<Frame, Pos>, u: Frame, i: nat, w: Word,
                                    t: Frame, p: Path)
    requires Placed(mem, roots, pos) && t in pos && p != [] && IsPath(p) && |pos[t].path| + |p| == 4
    requires u in pos && |pos[u].path| == 3 && i < 512
    ensures LeafTable(mem[u := mem[u][i := w]], t, p) == LeafTable(mem, t, p)
    decreases |p|
  {
    var mem' := mem[u := mem[u][i := w]];
    if |p| > 1 {
      assert t != u && mem'[t] == mem[t] && IsTable(mem', t) && IsTable(mem, t);
      if Present(mem[t][p[0]]) {
        LeafKept(mem, roots, pos, u, i, w, Addr(mem[t][p[0]]), p[1..]);
      }
    }
  }

  lemma WriteLeafInv(mem: Memory, roots: set<Frame>, pos: map<Frame, Pos>, free: set<Frame>, u: Frame, i: nat, w: Word)
    requires Inv(mem, roots, pos, free) && u in pos && |pos[u].path| == 3 && i < 512
    ensures Inv(mem[u := mem[u][i := w]], roots, pos, free)
  {
    hide Addr, Present, Entry;
    var mem' := mem[u := mem[u][i := w]];
    assert Placed(mem', roots, pos);
    forall t | t in pos && pos[t].owner.Some? && pos[t].path != [] ensures Hangs(mem', pos, t) {
      assert Hangs(mem, pos, t);
    }
    assert Shared(mem', roots);
  }

  /** Address spaces meet in a last-level table only on one path, and only in the kernel half. */
  lemma SameLeaf(mem: Memory, roots: set<Frame>, pos: map<Frame, Pos>, root: Frame, p: Path, r: Frame, q: Path)
    requires Placed(mem, roots, pos) && root in roots && r in roots && |p| == |q| == 4 && IsPath(p) && IsPath(q)
    requires LeafTable(mem, root, p).Some? && LeafTable(mem, r, q) == LeafTable(mem, root, p)
    ensures p[..3] == q[..3] && (r == root || p[0] >= KERNEL_HALF)
  {
    hide Addr, Present, Entry;
    LeafPos(mem, roots, pos, root, p);
    LeafPos(mem, roots, pos, r, q);
    var u := LeafTable(mem, root, p).value;
    assert p[..3] == [] + p[..3] == pos[u].path == [] + q[..3] == q[..3];
    assert p[0] == pos[u].path[0] == q[0];
  }

  lemma KernelLeaf(mem: Memory, roots: set<Frame>, pos: map<Frame, Pos>, root: Frame, r: Frame, p: Path)
    requires Placed(mem, roots, pos) && Shared(mem, roots) && root in roots && r in roots
    requires |p| == 4 && IsPath(p) && p[0] >= KERNEL_HALF
    ensures LeafTable(mem, r, p) == LeafTable(mem, root, p)
  {
    hide Addr, Present, Entry;
    assert IsTable(mem, r) && IsTable(mem, root);
    assert mem[r][p[0]] == mem[root][p[0]];
  }

  /** Writing one last-level entry changes the lookups of one path, in the address spaces that share the table. */
  lemma WriteLeafLookup(mem: Memory, roots: set<Frame>, pos: map<Frame, Pos>, u: Frame, w: Word, root: Frame, p: Path,
                        r: Frame, q: Path)
    requires Placed(mem, roots, pos) && Shared(mem, roots) && root in roots && r in roots
    requires |p| == |q| == 4 && IsPath(p) && IsPath(q) && LeafTable(mem, root, p) == Some(u)
    ensures u in pos && |mem[u]| == 512
    ensures Lookup(mem[u := mem[u][p[3] := w]], r, q) ==
            if q == p && (r == root || p[0] >= KERNEL_HALF) then w else Lookup(mem, r, q)
  {
    hide Addr, Present, Entry;
    LeafPos(mem, roots, pos, root, p);
    LeafPos(mem, roots, pos, r, q);
    LeafKept(mem, roots, pos, u, p[3], w, r, q);
    if LeafTable(mem, r, q) == Some(u) {
      SameLeaf(mem, roots, pos, root, p, r, q);
      assert q[3] == p[3] ==> q == p[..3] + [p[3]] == p;
    }
    if p[0] >= KERNEL_HALF {
      KernelLeaf(mem, roots, pos, root, r, p);
    }
  }

  // ----- hanging a new table

  lemma {:induction false} ZeroTable(mem: Memory, f: Frame, p: Path)
    requires f in mem && mem[f] == ZeroPage() && p != [] && IsPath(p)
    ensures Lookup(mem, f, p) == 0
  {
    ZeroAbsent();
  }

  lemma {:induction false} NewTableLookup(mem: Memory, roots: set<Frame>, pos: map<Frame, Pos>, t0: Frame, i: nat,
                                          f: Frame, t: Frame, p: Path)
    requires Placed(mem, roots, pos) && t0 in pos && |pos[t0].path| < 3 && i < 512 && !Present(mem[t0][i])
    requires f !in pos && IsFrame(f)
    requires t in pos && p != [] && IsPath(p) && |pos[t].path| + |p| == 4
    ensures Lookup(mem[f := ZeroPage()][t0 := mem[t0][i := Entry(f, TABLE_FLAGS)]], t, p) == Lookup(mem, t, p)
    decreases |p|
  {
    hide Addr, Present, Entry;
    var mem' := mem[f := ZeroPage()][t0 := mem[t0][i := Entry(f, TABLE_FLAGS)]];
    TableEntry(f);
    assert mem'[f] == ZeroPage();
    if |p| > 1 {
      assert IsTable(mem', t) && IsTable(mem, t);
      if t == t0 && p[0] == i {
        ZeroTable(mem', f, p[1..]);
        assert LeafTable(mem', t, p) == LeafTable(mem', f, p[1..]);
        assert Lookup(mem', t, p) == Lookup(mem', f, p[1..]);
      } else if Present(mem[t][p[0]]) {
        NewTableLookup(mem, roots, pos, t0, i, f, Addr(mem[t][p[0]]), p[1..]);
      }
    }
  }

  lemma TablesIn(mem: Memory, roots: set<Frame>, pos: map<Frame, Pos>)
    requires Placed(mem, roots, pos)
    ensures forall t :: t in pos ==> IsTable(mem, t)
    ensures forall r :: r in roots ==> r in pos
  {
  }

  lemma NewTablePlaced(mem: Memory, roots: set<Frame>, pos: map<Frame, Pos>, free: set<Frame>, t: Frame, i: nat,
                       f: Frame)
    requires Inv(mem, roots, pos, free) && t in pos && |pos[t].path| < 3 && i < 512 && !Present(mem[t][i]) && f in free
    ensures Placed(mem[f := ZeroPage()][t := mem[t][i := Entry(f, TABLE_FLAGS)]], roots,
                   pos[f := Pos(ChildOwner(pos[t], i), pos[t].path + [i], t)])
  {
    hide Addr, Flags, Present, Entry, Rooted, Shared;
    TableEntry(f);
    ZeroAbsent();
  }

  lemma NewTableInv(mem: Memory, roots: set<Frame>, pos: map<Frame, Pos>, free: set<Frame>, t: Frame, i: nat, f: Frame)
    requires Inv(mem, roots, pos, free) && t in pos && |pos[t].path| < 3 && i < 512 && !Present(mem[t][i]) && f in free
    ensures var mem' := mem[f := ZeroPage()][t := mem[t][i := Entry(f, TABLE_FLAGS)]];
            Inv(mem', roots, pos[f := Pos(ChildOwner(pos[t], i), pos[t].path + [i], t)], free - {f})
  {
    hide Addr, Present, Entry, Placed;
    NewTablePlaced(mem, roots, pos, free, t, i, f);
    TablesIn(mem, roots, pos);
    TableEntry(f);
    var mem' := mem[f := ZeroPage()][t := mem[t][i := Entry(f, TABLE_FLAGS)]];
    var pos' := pos[f := Pos(ChildOwner(pos[t], i), pos[t].path + [i], t)];
    assert t in roots ==> i < KERNEL_HALF;
    forall u | u in pos' && pos'[u].owner.Some? && pos'[u].path != [] ensures Hangs(mem', pos', u) {
      if u != f {
        assert Hangs(mem, pos, u);
      }
    }
    assert Shared(mem', roots);
  }

  // ----- a new address space

  /** The top-level table of a new address space: the kernel's upper half over an empty lower half. */
  function HalfTable(k: seq<Word>): seq<Word>
    requires |k| == 512
  {
    seq(512, i requires 0 <= i < 512 => if i < KERNEL_HALF then 0 else k[i])
  }

  /** Lookups do not depend on frames that are not tables. */
  lemma {:induction false} LookupOutside(mem: Memory, roots: set<Frame>, pos: map<Frame, Pos>, f: Frame,
                                         page: seq<Word>, t: Frame, p: Path)
    requires Placed(mem, roots, pos) && t in pos && p != [] && IsPath(p) && |pos[t].path| + |p| == 4 && f !in pos
    ensures LeafTable(mem[f := page], t, p) == LeafTable(mem, t, p)
    ensures Lookup(mem[f := page], t, p) == Lookup(mem, t, p)
    decreases |p|
  {
    hide Addr, Present;
    var mem' := mem[f := page];
    if |p| > 1 {
      assert mem'[t] == mem[t];
      if Present(mem[t][p[0]]) {
        LookupOutside(mem, roots, pos, f, page, Addr(mem[t][p[0]]), p[1..]);
      }
    }
  }

  lemma NewRootInv(mem: Memory, roots: set<Frame>, pos: map<Frame, Pos>, free: set<Frame>, kernel: Frame, f: Frame)
    requires Inv(mem, roots, pos, free) && kernel in roots && f in free
    ensures IsTable(mem, kernel)
    ensures Inv(mem[f := HalfTable(mem[kernel])], roots + {f}, pos[f := Pos(Some(f), [], f)], free - {f})
  {
    hide Addr, Present;
    ZeroAbsent();
    var mem', roots', pos' := mem[f := HalfTable(mem[kernel])], roots + {f}, pos[f := Pos(Some(f), [], f)];
    assert IsTable(mem, kernel);
    forall i | 0 <= i < 512 && Present(mem'[f][i])
      ensures var c := Addr(mem'[f][i]); c in pos' && pos'[c].path == [i] && pos'[c].owner == None
    {
      assert mem[kernel][i] == mem'[f][i];
    }
    assert Placed(mem', roots', pos');
    forall u | u in pos' && pos'[u].owner.Some? && pos'[u].path != [] ensures Hangs(mem', pos', u) {
      assert Hangs(mem, pos, u);
    }
    assert Shared(mem', roots');
  }

  /** It maps what the kernel maps in the upper half and nothing below. */
  lemma NewRootLookup(mem: Memory, roots: set<Frame>, pos: map<Frame, Pos>, free: set<Frame>, kernel: Frame, f: Frame,
                      p: Path)
    requires Inv(mem, roots, pos, free) && kernel in roots && f in free && |p| == 4 && IsPath(p)
    ensures IsTable(mem, kernel)
    ensures Lookup(mem[f := HalfTable(mem[kernel])], f, p) == if p[0] < KERNEL_HALF then 0 else Lookup(mem, kernel, p)
  {
    hide Addr, Present;
    ZeroAbsent();
    var mem' := mem[f := HalfTable(mem[kernel])];
    LeafStep(mem', f, p);
    LeafStep(mem, kernel, p);
    if p[0] >= KERNEL_HALF {
      assert mem[kernel][p[0]] == mem'[f][p[0]];
      LookupOutside(mem, roots, pos, f, mem'[f], Addr(mem[kernel][p[0]]), p[1..]);
      assert p[1..][2] == p[3];
    }
  }

  // ----- one walk

  lemma LeafStep(mem: Memory, t: Frame, p: Path)
    requires |p| > 1 && IsPath(p) && IsTable(mem, t)
    ensures IsPath(p[1..])
    ensures LeafTable(mem, t, p) == if Present(mem[t][p[0]]) then LeafTable(mem, Addr(mem[t][p[0]]), p[1..]) else None
  {
  }

  /** Every address space maps what it mapped. */
  ghost predicate Unchanged(mem: Memory, mem': Memory, roots: set<Frame>) {
    forall r, p :: r in roots && |p| == 4 && IsPath(p) ==> Lookup(mem', r, p) == Lookup(mem, r, p)
  }

  lemma FreeOk(mem: Memory, roots: set<Frame>, pos: map<Frame, Pos>, free: set<Frame>)
    requires Inv(mem, roots, pos, free)
    ensures Free(mem, pos, free)
  {
  }

  lemma InvParts(mem: Memory, roots: set<Frame>, pos: map<Frame, Pos>, free: set<Frame>)
    requires Inv(mem, roots, pos, free)
    ensures Placed(mem, roots, pos) && Shared(mem, roots)
  {
  }

  /** Only page `p` of `root` changed, to `w`; a kernel page changes in every address space. */
  ghost predicate OnlyChanges(mem: Memory, mem': Memory, roots: set<Frame>, root: Frame, p: Path, w: Word)
    requires p != []
  {
    forall r, q :: r in roots && |q| == 4 && IsPath(q) ==>
      Lookup(mem', r, q) == if q == p && (r == root || p[0] >= KERNEL_HALF) then w else Lookup(mem, r, q)
  }

  lemma ChangesAfter(mem: Memory, mem1: Memory, mem2: Memory, roots: set<Frame>, root: Frame, p: Path, w: Word)
    requires Unchanged(mem, mem1, roots) && p != [] && OnlyChanges(mem1, mem2, roots, root, p, w)
    ensures OnlyChanges(mem, mem2, roots, root, p, w)
  {
    hide Lookup;
  }

  lemma TableOk(mem: Memory, roots: set<Frame>, pos: map<Frame, Pos>, free: set<Frame>)
    requires Inv(mem, roots, pos, free)
    ensures forall t :: t in pos ==> IsTable(mem, t)
    ensures forall r :: r in roots ==> r in pos && pos[r].path == []
  {
    hide Addr, Present;
  }

  /** Tables were hung, out of free frames; no mapping and no data frame changed. */
  ghost predicate Grows(mem: Memory, pos: map<Frame, Pos>, free: set<Frame>, mem': Memory, pos': map<Frame, Pos>,
                        free': set<Frame>, roots: set<Frame>)
  {
    && free' <= free
    && (forall u :: u in pos ==> u in pos' && pos'[u] == pos[u])
    && (forall u :: u in pos' && u !in pos ==> u in free)
    && (forall u :: u in mem && u !in pos && u !in free ==> u in mem' && mem'[u] == mem[u])
    && (forall u, i :: u in pos && IsTable(mem, u) && 0 <= i < 512 && Present(mem[u][i]) ==>
          IsTable(mem', u) && mem'[u][i] == mem[u][i])
    && Unchanged(mem, mem', roots)
  }

  lemma UnchangedTrans(mem: Memory, mem1: Memory, mem2: Memory, roots: set<Frame>)
    requires Unchanged(mem, mem1, roots) && Unchanged(mem1, mem2, roots)
    ensures Unchanged(mem, mem2, roots)
  {
    hide Lookup;
  }

  lemma GrowsTrans(mem: Memory, pos: map<Frame, Pos>, free: set<Frame>, mem1: Memory, pos1: map<Frame, Pos>,
                   free1: set<Frame>,
                   mem2: Memory, pos2: map<Frame, Pos>, free2: set<Frame>, roots: set<Frame>)
    requires Grows(mem, pos, free, mem1, pos1, free1, roots) && Grows(mem1, pos1, free1, mem2, pos2, free2, roots)
    ensures Grows(mem, pos, free, mem2, pos2, free2, roots)
  {
    hide Unchanged, Addr, Present;
    UnchangedTrans(mem, mem1, mem2, roots);
  }

  lemma SomeMember(s: set<Frame>)
    requires s != {}
    ensures exists f :: f in s
  {
    assert (forall f :: f !in s) ==> s == {};
  }

  // ----- the first address space

  /** The kernel's top-level table with the tables of its first `|kids|` upper entries hung. */
  ghost predicate Booting(mem: Memory, free: set<Frame>, top: Frame, kids: seq<Frame>, pos: map<Frame, Pos>) {
    && |kids| <= 512 - KERNEL_HALF && IsFrame(top) && IsTable(mem, top) && top !in free && top !in kids
    && (forall j :: 0 <= j < 512 ==>
          if KERNEL_HALF <= j < KERNEL_HALF + |kids| then LeadsTo(mem[top][j], kids[j - KERNEL_HALF])
          else mem[top][j] == 0)
    && (forall j :: 0 <= j < |kids| ==>
          && IsFrame(kids[j]) && kids[j] in mem && mem[kids[j]] == ZeroPage() && kids[j] !in free
          && kids[j] in pos && pos[kids[j]] == Pos(None, [KERNEL_HALF + j], top))
    && (forall t :: t in pos <==> t == top || t in kids) && pos[top] == Pos(Some(top), [], top)
    && (forall f :: f in free ==> IsTable(mem, f) && IsFrame(f))
  }

  lemma BootStart(mem: Memory, free: set<Frame>, top: Frame)
    requires IsFrame(top) && top in mem && mem[top] == ZeroPage() && top !in free
    requires forall f :: f in free ==> IsTable(mem, f) && IsFrame(f)
    ensures Booting(mem, free, top, [], map[top := Pos(Some(top), [], top)])
  {
  }

  lemma BootStep(mem: Memory, free: set<Frame>, top: Frame, kids: seq<Frame>, pos: map<Frame, Pos>, f: Frame)
    requires Booting(mem, free, top, kids, pos) && f in free && |kids| < 512 - KERNEL_HALF
    ensures IsTable(mem, top)
    ensures var i := KERNEL_HALF + |kids|;
            Booting(mem[f := ZeroPage()][top := mem[top][i := Entry(f, TABLE_FLAGS)]], free - {f}, top, kids + [f],
                    pos[f := Pos(None, [i], top)])
  {
    hide Entry, LeadsTo;
    TableEntry(f);
    var i := KERNEL_HALF + |kids|;
    var pos' := pos[f := Pos(None, [i], top)];
    assert f !in kids && f !in pos;
    forall j | 0 <= j < |kids + [f]| ensures pos'[(kids + [f])[j]] == Pos(None, [KERNEL_HALF + j], top) {
      assert j < |kids| ==> kids[j] in kids;
    }
  }

  /** With all of them hung, this is a sound first address space that maps nothing. */
  lemma BootInv(mem: Memory, free: set<Frame>, top: Frame, kids: seq<Frame>, pos: map<Frame, Pos>)
    requires Booting(mem, free, top, kids, pos) && |kids| == 512 - KERNEL_HALF
    ensures Inv(mem, {top}, pos, free)
  {
    hide Addr, Flags, Present, Entry;
    ZeroAbsent();
    forall t | t in pos && t != top ensures IsTable(mem, t) && IsFrame(t) && mem[t] == ZeroPage() {
      var j :| 0 <= j < |kids| && kids[j] == t;
    }
    forall i | 0 <= i < 512 && Present(mem[top][i])
      ensures var c := Addr(mem[top][i]);
              c in pos && pos[c] == Pos(None, [i], top) && Flags(mem[top][i]) == TABLE_FLAGS
    {
      assert kids[i - KERNEL_HALF] in kids;
    }
    assert forall t :: t in pos && t != top ==> pos[t].owner == None;
    forall i | KERNEL_HALF <= i < 512 ensures Present(mem[top][i]) {
      assert kids[i - KERNEL_HALF] in kids;
    }
  }

  lemma BootMapsNothing(mem: Memory, free: set<Frame>, top: Frame, kids: seq<Frame>, pos: map<Frame, Pos>, p: Path)
    requires Booting(mem, free, top, kids, pos) && |p| == 4 && IsPath(p)
    ensures Lookup(mem, top, p) == 0
  {
    hide Addr, Present, Entry;
    ZeroAbsent();
    LeafStep(mem, top, p);
    if Present(mem[top][p[0]]) {
      var f := kids[p[0] - KERNEL_HALF];
      ZeroTable(mem, f, p[1..]);
      assert p[1..][2] == p[3];
    }
  }

  lemma BootTable(mem: Memory, free: set<Frame>, top: Frame, kids: seq<Frame>, pos: map<Frame, Pos>)
    requires Booting(mem, free, top, kids, pos)
    ensures IsTable(mem, top) && top !in free && Inv(mem, {}, map[], free)
  {
    NothingInv(mem, free);
  }

  lemma NothingInv(mem: Memory, free: set<Frame>)
    requires forall f :: f in free ==> IsTable(mem, f) && IsFrame(f)
    ensures Inv(mem, {}, map[], free)
  {
  }

  // ----- the address spaces

  class AddressSpaces {
    var mem: Memory
    var free: set<Frame>
    ghost var roots: set<Frame>
    ghost var pos: map<Frame, Pos>

    ghost predicate Valid()
      reads this
    {
      Inv(mem, roots, pos, free)
    }

    /** Before paging: memory, and the frames that are free. */
    constructor (memory: Memory, spare: set<Frame>)
      requires forall f :: f in spare ==> IsTable(memory, f) && IsFrame(f)
      ensures Valid() && mem == memory && free == spare && roots == {} && pos == map[]
    {
      mem, free, roots, pos := memory, spare, {}, map[];
      new;
      NothingInv(mem, free);
    }

    /**
      `vmm_init` up to its first mapping: the kernel's own address space, whose upper half gets all its tables
      at once. The kernel stops when it runs out of frames here.
     */
    method Boot() returns (kernel: Frame)
      requires Valid() && roots == {} && pos == map[] && |free| > 512 - KERNEL_HALF
      modifies this
      ensures Valid() && roots == {kernel} && kernel in old(free) && |free| == |old(free)| - 1 - (512 - KERNEL_HALF)
      ensures forall p :: |p| == 4 && IsPath(p) ==> Lookup(mem, kernel, p) == 0
    {
      hide Inv, Booting, Lookup, Entry;
      FreeOk(mem, roots, pos, free);
      ghost var spare := free;
      var top := AllocFrame(true);
      kernel := top.value;
      ghost var kids: seq<Frame>, places: map<Frame, Pos> := [], map[kernel := Pos(Some(kernel), [], kernel)];
      BootStart(mem, free, kernel);
      var i := KERNEL_HALF;
      while i < 512
        invariant KERNEL_HALF <= i <= 512 && |kids| == i - KERNEL_HALF && roots == {} && pos == map[]
        invariant Booting(mem, free, kernel, kids, places) && |free| == |spare| - 1 - |kids|
      {
        BootTable(mem, free, kernel, kids, places);
        ghost var was, before := mem, free;
        var next := AllocFrame(true);
        var f := next.value;
        BootStep(was, before, kernel, kids, places, f);
        mem := mem[kernel := mem[kernel][i := Entry(f, TABLE_FLAGS)]];
        kids, places := kids + [f], places[f := Pos(None, [i], kernel)];
        i := i + 1;
      }
      BootInv(mem, free, kernel, kids, places);
      forall p | |p| == 4 && IsPath(p) ensures Lookup(mem, kernel, p) == 0 {
        BootMapsNothing(mem, free, kernel, kids, places, p);
      }
      roots, pos := {kernel}, places;
    }

    /** One free frame, zeroed; none when memory is exhausted. */
    method AllocFrame(zero: bool) returns (f: Option<Frame>)
      requires Valid()
      modifies `mem, `free
      ensures f.None? ==> free == {} && mem == old(mem) && free == old(free)
      ensures f.Some? ==> f.value in old(free) && free == old(free) - {f.value}
      ensures f.Some? ==> mem == if zero then old(mem)[f.value := ZeroPage()] else old(mem)
    {
      hide Inv;
      if free == {} {
        return None;
      }
      SomeMember(free);
      var g :| g in free;
      free := free - {g};
      if zero {
        mem := mem[g := ZeroPage()];
      }
      f := Some(g);
    }

    /** The next table of a walk, if it is there: `get_next_level` without allocation. */
    method PeekNextLevel(t: Frame, i: nat) returns (next: Option<Frame>)
      requires t in pos && IsTable(mem, t) && i < 512
      ensures next == if Present(mem[t][i]) then Some(Addr(mem[t][i])) else None
    {
      next := if Present(mem[t][i]) then Some(Addr(mem[t][i])) else None;
    }

    /** The next table of a walk, hung on demand. No lookup changes, whatever happens. */
    method GetNextLevel(t: Frame, i: nat) returns (next: Option<Frame>)
      requires Valid() && t in pos && |pos[t].path| < 3 && i < 512
      modifies this
      ensures Valid() && roots == old(roots) && Grows(old(mem), old(pos), old(free), mem, pos, free, roots)
      ensures next.Some? ==> Present(mem[t][i]) && next.value == Addr(mem[t][i])
      ensures next.Some? ==>
                next.value in pos && pos[next.value].path == pos[t].path + [i]
                && pos[next.value].owner == ChildOwner(pos[t], i)
      ensures next.None? ==>
                !Present(mem[t][i]) && free == {} && mem == old(mem) && pos == old(pos) && free == old(free)
    {
      hide Addr, Present, Entry;
      next := PeekNextLevel(t, i);
      if next.Some? {
        return;
      }
      ghost var was, places, spare := mem, pos, free;
      var nextLevel := AllocFrame(true);
      if nextLevel.None? {
        return None;
      }
      var f := nextLevel.value;
      TableEntry(f);
      NewTableInv(was, roots, places, spare, t, i, f);
      mem := mem[t := mem[t][i := Entry(f, TABLE_FLAGS)]];
      pos := pos[f := Pos(ChildOwner(pos[t], i), pos[t].path + [i], t)];
      forall r, p | r in roots && |p| == 4 && IsPath(p) ensures Lookup(mem, r, p) == Lookup(was, r, p) {
        NewTableLookup(was, roots, places, t, i, f, r, p);
      }
      next := Some(f);
    }

    /** Walks to the last-level table of a page, hanging the tables that are missing. */
    method Walk(root: Frame, page: nat) returns (u: Option<Frame>)
      requires Valid() && root in roots
      modifies this
      ensures Valid() && roots == old(roots) && Grows(old(mem), old(pos), old(free), mem, pos, free, roots)
      ensures u.None? ==> !Present(View(mem, root, page)) && free == {}
      ensures u.Some? ==>
                u == LeafTable(mem, root, PathOf(page)) && u.value in pos && |pos[u.value].path| == 3 && u.value in mem
                && |mem[u.value]| == 512
    {
      hide Addr, Present, Entry, Inv, Unchanged;
      var p := PathOf(page);
      ghost var mem0, pos0, free0 := mem, pos, free;
      ZeroAbsent();
      TableOk(mem, roots, pos, free);
      u := GetNextLevel(root, p[0]);
      TableOk(mem, roots, pos, free);
      LeafStep(mem, root, p);
      if u.None? {
        return;
      }
      var pml3 := u.value;
      ghost var mem1, pos1, free1 := mem, pos, free;
      u := GetNextLevel(pml3, p[1]);
      GrowsTrans(mem0, pos0, free0, mem1, pos1, free1, mem, pos, free, roots);
      TableOk(mem, roots, pos, free);
      LeafStep(mem, root, p);
      LeafStep(mem, pml3, p[1..]);
      if u.None? {
        return;
      }
      var pml2 := u.value;
      ghost var mem2, pos2, free2 := mem, pos, free;
      u := GetNextLevel(pml2, p[2]);
      GrowsTrans(mem0, pos0, free0, mem2, pos2, free2, mem, pos, free, roots);
      TableOk(mem, roots, pos, free);
      LeafStep(mem, root, p);
      LeafStep(mem, pml3, p[1..]);
      LeafStep(mem, pml2, p[1..][1..]);
    }

    /** Stores one last-level entry, which a walk has found. */
    method SetEntry(root: Frame, page: nat, u: Frame, w: Word)
      requires Valid() && root in roots && LeafTable(mem, root, PathOf(page)) == Some(u)
      requires u in pos && |pos[u].path| == 3 && IsTable(mem, u)
      modifies `mem
      ensures Valid() && mem == old(mem)[u := old(mem)[u][PathOf(page)[3] := w]]
      ensures OnlyChanges(old(mem), mem, roots, root, PathOf(page), w)
    {
      hide Inv, LeafTable;
      ghost var was := mem;
      var p := PathOf(page);
      forall r, q | r in roots && |q| == 4 && IsPath(q)
        ensures Lookup(was[u := was[u][p[3] := w]], r, q) ==
                  if q == p && (r == root || p[0] >= KERNEL_HALF) then w else Lookup(was, r, q)
      {
        InvParts(was, roots, pos, free);
        WriteLeafLookup(was, roots, pos, u, w, root, p, r, q);
      }
      WriteLeafInv(was, roots, pos, free, u, p[3], w);
      mem := mem[u := mem[u][p[3] := w]];
    }

    /** Maps a page that is not mapped yet. */
    method MapPage(root: Frame, page: nat, phys: Frame, flags: Word) returns (ok: bool)
      requires Valid() && root in roots && IsFrame(phys) && IsFlags(flags)
      modifies this
      ensures Valid() && roots == old(roots)
      ensures !ok ==> Unchanged(old(mem), mem, roots) && (Present(old(View(mem, root, page))) || free == {})
      ensures ok ==> !Present(old(View(mem, root, page)))
      ensures ok ==> OnlyChanges(old(mem), mem, roots, root, PathOf(page), Entry(phys, flags))
      ensures ok ==> Addr(View(mem, root, page)) == phys && Flags(View(mem, root, page)) == flags
      ensures forall f :: f in old(mem) && f !in old(pos) && f !in old(free) ==> f in mem && mem[f] == old(mem)[f]
    {
      hide Addr, Flags, Present, Entry, Inv, LeafTable, IsFlags, IsFrame;
      var u := Walk(root, page);
      if u.None? {
        return false;
      }
      if Present(mem[u.value][PathOf(page)[3]]) {
        return false;
      }
      ghost var walked := mem;
      ok := true;
      SetEntry(root, page, u.value, Entry(phys, flags));
      ChangesAfter(old(mem), walked, mem, roots, root, PathOf(page), Entry(phys, flags));
      EntryParts(phys, flags);
      assert View(mem, root, page) == Entry(phys, flags);
    }

    /** Replaces the flags of a mapped page and keeps its frame. */
    method FlagPage(root: Frame, page: nat, flags: Word) returns (ok: bool)
      requires Valid() && root in roots && IsFlags(flags)
      modifies `mem
      ensures Valid() && mem.Keys == old(mem).Keys
      ensures ok <==> Present(old(View(mem, root, page)))
      ensures !ok ==> mem == old(mem)
      ensures ok ==>
                OnlyChanges(old(mem), mem, roots, root, PathOf(page), Entry(Addr(old(View(mem, root, page))), flags))
      ensures ok ==>
                Addr(View(mem, root, page)) == Addr(old(View(mem, root, page))) && Flags(View(mem, root, page)) == flags
      ensures forall f :: f in mem && f !in pos ==> mem[f] == old(mem)[f]
    {
      hide Addr, Flags, Present, Entry, Inv, LeafTable, IsFlags, IsFrame;
      var u := WalkExisting(root, page);
      if u.None? {
        return false;
      }
      var pte := mem[u.value][PathOf(page)[3]];
      if !Present(pte) {
        return false;
      }
      ok := true;
      SetEntry(root, page, u.value, Entry(Addr(pte), flags));
      EntrySplit(pte);
      EntryParts(Addr(pte), flags);
      assert View(mem, root, page) == Entry(Addr(pte), flags);
    }

    method UnmapPage(root: Frame, page: nat) returns (ok: bool)
      requires Valid() && root in roots
      modifies `mem
      ensures Valid() && mem.Keys == old(mem).Keys
      ensures ok <==> Present(old(View(mem, root, page)))
      ensures !ok ==> mem == old(mem)
      ensures ok ==> OnlyChanges(old(mem), mem, roots, root, PathOf(page), 0)
      ensures forall f :: f in mem && f !in pos ==> mem[f] == old(mem)[f]
    {
      hide Addr, Present, Entry, Inv, LeafTable;
      var u := WalkExisting(root, page);
      if u.None? {
        return false;
      }
      if !Present(mem[u.value][PathOf(page)[3]]) {
        return false;
      }
      ok := true;
      SetEntry(root, page, u.value, 0);
    }

    /** The walk of an operation that must not allocate; it writes nothing. */
    method WalkExisting(root: Frame, page: nat) returns (u: Option<Frame>)
      requires Valid() && root in roots
      ensures u == LeafTable(mem, root, PathOf(page))
      ensures u.None? ==> !Present(View(mem, root, page))
      ensures u.Some? ==> u.value in pos && |pos[u.value].path| == 3 && IsTable(mem, u.value)
    {
      hide Addr, Present, Entry, Inv;
      var p := PathOf(page);
      ZeroAbsent();
      TableOk(mem, roots, pos, free);
      InvParts(mem, roots, pos, free);
      LeafPos(mem, roots, pos, root, p);
      LeafStep(mem, root, p);
      u := PeekNextLevel(root, p[0]);
      if u.None? {
        return;
      }
      var pml3 := u.value;
      LeafStep(mem, pml3, p[1..]);
      u := PeekNextLevel(pml3, p[1]);
      if u.None? {
        return;
      }
      LeafStep(mem, u.value, p[1..][1..]);
      u := PeekNextLevel(u.value, p[2]);
    }

    /** The physical address a page translates to, as the partial map says. */
    method Virt2Phys(root: Frame, page: nat) returns (f: Option<Frame>)
      requires Valid() && root in roots
      ensures f == if Present(View(mem, root, page)) then Some(Addr(View(mem, root, page))) else None
    {
      hide Addr, Present, Entry, Inv, LeafTable;
      var u := WalkExisting(root, page);
      if u.None? {
        return None;
      }
      var pte := mem[u.value][PathOf(page)[3]];
      f := if Present(pte) then Some(Addr(pte)) else None;
    }

    /** A new address space, sharing the kernel half with `kernel`. */
    method NewPagemap(kernel: Frame) returns (root: Option<Frame>)
      requires Valid() && kernel in roots
      modifies this
      ensures Valid()
      ensures root.None? ==>
                free == {} && mem == old(mem) && pos == old(pos) && free == old(free) && roots == old(roots)
      ensures root.Some? ==> root.value in old(free) && free == old(free) - {root.value}
      ensures root.Some? ==>
                roots == old(roots) + {root.value} && pos == old(pos)[root.value := Pos(root, [], root.value)]
      ensures root.Some? ==> IsTable(old(mem), kernel) && mem == old(mem)[root.value := HalfTable(old(mem)[kernel])]
    {
      hide Addr, Present, Entry, Inv;
      ghost var was, spare := mem, free;
      TableOk(mem, roots, pos, free);
      FreeOk(mem, roots, pos, free);
      root := AllocFrame(true);
      if root.None? {
        return;
      }
      var f := root.value;
      var i := KERNEL_HALF;
      while i < 512
        invariant KERNEL_HALF <= i <= 512 && free == old(free) - {f} && roots == old(roots) && pos == old(pos)
        invariant f in mem && |mem[f]| == 512 && mem == was[f := mem[f]]
        invariant forall j :: 0 <= j < 512 ==> mem[f][j] == if KERNEL_HALF <= j < i then was[kernel][j] else 0
      {
        mem := mem[f := mem[f][i := mem[kernel][i]]];
        i := i + 1;
      }
      assert mem[f] == HalfTable(was[kernel]);
      NewRootInv(was, roots, pos, spare, kernel, f);
      roots := roots + {f};
      pos := pos[f := Pos(Some(f), [], f)];
    }
  }
}
