/** The write-through block cache of an NVMe namespace (`kernel/dev/storage/nvme/nvme.c`). */
module NvmeCache {

  type Bytes = seq<int>

  const SLOTS: nat := 512

  datatype Slot = Slot(block: nat, status: nat, data: Bytes)

  /** `old` with the bytes from `at` on replaced by `piece`. */
  function Patch(whole: Bytes, at: nat, piece: Bytes): (r: Bytes)
    requires at + |piece| <= |whole|
    ensures |r| == |whole|
    ensures forall i :: 0 <= i < |r| ==> r[i] == if at <= i < at + |piece| then piece[i - at] else whole[i]
  {
    whole[..at] + piece + whole[at + |piece|..]
  }

  function Least(x: nat, y: nat): nat {
    if x < y then x else y
  }

  /** Where a block of `k` bytes starts. */
  function Start(block: nat, k: nat): nat {
    block * k
  }

  /** The bytes of a cache block that lie on the disk: all of it, save for the last block of a disk whose size is not
      a whole number of cache blocks. */
  function Reach(size: nat, block: nat, k: nat): nat
    requires Start(block, k) <= size
  {
    Least(k, size - Start(block, k))
  }

  /** A slot in use holds its disk block. */
  ghost predicate SlotOk(disk: Bytes, k: nat, s: Slot) {
    && Start(s.block, k) < |disk| && |s.data| == k
    && s.data[..Reach(|disk|, s.block, k)] == disk[Start(s.block, k)..Start(s.block, k) + Reach(|disk|, s.block, k)]
  }

  ghost predicate Slots(disk: Bytes, k: nat, cache: seq<Slot>) {
    forall i :: 0 <= i < |cache| && cache[i].status != 0 ==> SlotOk(disk, k, cache[i])
  }

  ghost predicate Once(cache: seq<Slot>) {
    forall i, j :: 0 <= i < j < |cache| && cache[i].status != 0 && cache[j].status != 0 ==>
          cache[i].block != cache[j].block
  }

  lemma Position(pos: nat, k: nat)
    requires 0 < k
    ensures pos == Start(pos / k, k) + pos % k && pos % k < k
  {
  }

  /** Different blocks do not overlap. */
  lemma BlocksApart(a: nat, b: nat, k: nat)
    requires a < b
    ensures Start(a, k) + k <= Start(b, k)
  {
    assert (a + 1) * k <= b * k;
  }

  /** A slot's bytes, written over its block, change the disk by the piece that changed the slot. */
  lemma WriteBack(disk: Bytes, k: nat, s: Slot, off: nat, piece: Bytes)
    requires SlotOk(disk, k, s) && off + |piece| <= k && Start(s.block, k) + off + |piece| <= |disk|
    ensures Start(s.block, k) + Reach(|disk|, s.block, k) <= |disk|
    ensures Patch(disk, Start(s.block, k), Patch(s.data, off, piece)[..Reach(|disk|, s.block, k)])
              == Patch(disk, Start(s.block, k) + off, piece)
    ensures SlotOk(Patch(disk, Start(s.block, k) + off, piece), k, Slot(s.block, 1, Patch(s.data, off, piece)))
  {
    hide Start, Patch;
    var at, n := Start(s.block, k), Reach(|disk|, s.block, k);
    var data := Patch(s.data, off, piece);
    var after := Patch(disk, at + off, piece);
    forall i | 0 <= i < n ensures data[..n][i] == after[at..at + n][i] {
      assert s.data[..n][i] == disk[at..at + n][i];
    }
    assert data[..n] == after[at..at + n];
    assert Patch(disk, at, data[..n]) == after;
  }

  /** Slots of other blocks still hold their blocks. */
  lemma OthersKeep(disk: Bytes, k: nat, s: Slot, block: nat, off: nat, piece: Bytes)
    requires SlotOk(disk, k, s) && s.block != block && off + |piece| <= k && Start(block, k) + off + |piece| <= |disk|
    ensures SlotOk(Patch(disk, Start(block, k) + off, piece), k, s)
  {
    hide Start, Patch, SlotOk;
    if s.block < block { BlocksApart(s.block, block, k); } else { BlocksApart(block, s.block, k); }
    KeepsOutside(disk, k, s, Start(block, k) + off, piece, Start(s.block, k));
  }

  lemma KeepsOutside(disk: Bytes, k: nat, s: Slot, x: nat, piece: Bytes, at: nat)
    requires SlotOk(disk, k, s) && x + |piece| <= |disk| && at == Start(s.block, k)
    requires at + k <= x || x + |piece| <= at
    ensures SlotOk(Patch(disk, x, piece), k, s)
  {
    hide Patch, Start;
    PatchOutside(disk, x, piece, at, Reach(|disk|, s.block, k));
  }

  lemma PatchOutside(disk: Bytes, x: nat, piece: Bytes, at: nat, n: nat)
    requires x + |piece| <= |disk| && at + n <= |disk| && (at + n <= x || x + |piece| <= at)
    ensures Patch(disk, x, piece)[at..at + n] == disk[at..at + n]
  {
  }

  class Namespace {
    const lba: nat
    var disk: Bytes
    var cache: seq<Slot>
    var overwritten: nat

    /** `cacheblocksize`. */
    function Unit(): nat {
      lba * 4
    }

    ghost predicate Valid()
      reads this
    {
      && 0 < lba && |disk| % lba == 0
      && |cache| == SLOTS && overwritten <= SLOTS
      && Slots(disk, Unit(), cache) && Once(cache)
    }

    /** The set-up of a namespace: an empty cache over the disk as it is found. */
    constructor (lbaSize: nat, contents: Bytes)
      requires 0 < lbaSize && |contents| % lbaSize == 0
      ensures Valid() && disk == contents && lba == lbaSize
    {
      lba := lbaSize;
      disk := contents;
      cache := seq(SLOTS, _ => Slot(0, 0, []));
      overwritten := 0;
    }

    /** `nvme_findblock`. */
    method FindBlock(block: nat) returns (i: int)
      requires |cache| == SLOTS
      ensures -1 <= i < SLOTS
      ensures i >= 0 ==> cache[i].block == block && cache[i].status != 0
      ensures i == -1 ==> forall j :: 0 <= j < SLOTS ==> cache[j].block != block || cache[j].status == 0
    {
      i := 0;
      while i < SLOTS
        invariant 0 <= i <= SLOTS && forall j :: 0 <= j < i ==> cache[j].block != block || cache[j].status == 0
      {
        if cache[i].block == block && cache[i].status != 0 {
          return;
        }
        i := i + 1;
      }
      i := -1;
    }

    /** The blocks a transfer of `count` blocks from `start` moves: `nvme_rwlba` stops at the end of the disk. */
    function Clamp(start: nat, count: nat): (n: nat)
      requires 0 < lba && Start(start, lba) <= |disk| && |disk| % lba == 0
      reads this
      ensures Start(n, lba) == Least(Start(count, lba), |disk| - Start(start, lba))
    {
      var lbas := |disk| / lba;
      Position(|disk|, lba);
      assert start <= lbas by {
        if lbas < start { BlocksApart(lbas, start, lba); }
      }
      Products(lbas, start, count);
      if start + count >= lbas then lbas - start else count
    }

    lemma Products(lbas: nat, start: nat, count: nat)
      requires start <= lbas
      ensures Start(lbas - start, lba) == Start(lbas, lba) - Start(start, lba)
      ensures start + count >= lbas ==> Start(lbas, lba) <= Start(start, lba) + Start(count, lba)
      ensures start + count < lbas ==> Start(start, lba) + Start(count, lba) <= Start(lbas, lba)
    {
      assert (start + count) * lba == Start(start, lba) + count * lba;
      if start + count >= lbas { assert lbas * lba <= (start + count) * lba; }
    }
  
    lemma UnitPositive()
      requires 0 < lba
      ensures 0 < Unit()
    {
    }

    /** The transfer of a cache block covers what of it lies on the disk. */
    lemma UnitBlocks(block: nat)
      requires 0 < lba && Start(block, Unit()) <= |disk| && |disk| % lba == 0
      ensures Unit() / lba == 4 && Start(4 * block, lba) == Start(block, Unit())
      ensures Start(Clamp(4 * block, 4), lba) == Reach(|disk|, block, Unit()) <= Unit()
    {
      Position(Unit(), lba);
      var q := Unit() / lba;
      assert q == 4 by {
        if q < 4 { BlocksApart(q, 4, lba); }
        if 4 < q { BlocksApart(4, q, lba); }
      }
    }

    /** `nvme_rwlba` reading into `data`. */
    method ReadBlocks(data: Bytes, start: nat, count: nat) returns (r: Bytes)
      requires 0 < lba && Start(start, lba) <= |disk| && |disk| % lba == 0 && Start(Clamp(start, count), lba) <= |data|
      ensures Start(start, lba) + Start(Clamp(start, count), lba) <= |disk|
      ensures r == Patch(data, 0, disk[Start(start, lba)..Start(start, lba) + Start(Clamp(start, count), lba)])
    {
      var n := Clamp(start, count);
      r := Patch(data, 0, disk[Start(start, lba)..Start(start, lba) + Start(n, lba)]);
    }

    /** `nvme_rwlba` writing from `data`. */
    method WriteBlocks(data: Bytes, start: nat, count: nat)
      requires 0 < lba && Start(start, lba) <= |disk| && |disk| % lba == 0 && Start(Clamp(start, count), lba) <= |data|
      modifies this`disk
      ensures Start(start, lba) + Start(old(Clamp(start, count)), lba) <= old(|disk|)
      ensures disk == Patch(old(disk), Start(start, lba), data[..Start(old(Clamp(start, count)), lba)])
    {
      var n := Clamp(start, count);
      disk := Patch(disk, Start(start, lba), data[..Start(n, lba)]);
    }

    /** `nvme_cacheblock`: a free slot, else the next one of the round, takes the block in. */
    method CacheBlock(block: nat) returns (target: nat)
      requires Valid() && Start(block, Unit()) < |disk|
      requires forall j :: 0 <= j < SLOTS ==> cache[j].block != block || cache[j].status == 0
      modifies this`cache, this`overwritten
      ensures Valid() && target < SLOTS && cache[target].block == block && cache[target].status != 0
      ensures forall j :: 0 <= j < SLOTS && j != target ==> cache[j] == old(cache)[j]
      ensures old(cache)[target].status == 0 ==> overwritten == old(overwritten)
      ensures old(cache)[target].status == 0 ==> forall j :: 0 <= j < target ==> old(cache)[j].status != 0
      ensures old(cache)[target].status != 0 ==>
        (forall j :: 0 <= j < SLOTS ==> old(cache)[j].status != 0)
        && target == (if old(overwritten) == SLOTS then 0 else old(overwritten))
        && overwritten == if old(overwritten) == SLOTS then 0 else old(overwritten) + 1
    {
      hide Slots, Once, SlotOk, Patch, Unit, Clamp, Reach;
      target := 0;
      while target < SLOTS && cache[target].status != 0
        invariant target <= SLOTS && forall j :: 0 <= j < target ==> cache[j].status != 0
      {
        target := target + 1;
      }
      ghost var before := cache;
      if target < SLOTS {
        cache := cache[target := cache[target].(data := seq(Unit(), _ => 0))];
      } else if overwritten == SLOTS {
        overwritten := 0;
        target := overwritten;
        SlotData(disk, Unit(), cache, target);
      } else {
        target := overwritten;
        overwritten := overwritten + 1;
        SlotData(disk, Unit(), cache, target);
      }
      UnitBlocks(block);
      TakenIn(disk, Unit(), block, cache[target].data);
      var data := ReadBlocks(cache[target].data, Unit() / lba * block, Unit() / lba);
      Installed(disk, Unit(), before, target, block, data);
      cache := cache[target := cache[target].(data := data)];
      cache := cache[target := Slot(block, 1, cache[target].data)];
      assert cache == before[target := Slot(block, 1, data)];
    }

    /** The slot of a block, taken in if it is not cached. */
    method Fetch(block: nat) returns (slot: nat)
      requires Valid() && Start(block, Unit()) < |disk|
      modifies this`cache, this`overwritten
      ensures Valid() && slot < SLOTS && cache[slot].block == block && cache[slot].status != 0
      ensures SlotOk(disk, Unit(), cache[slot])
    {
      hide Once, SlotOk, Unit, Start;
      var found := FindBlock(block);
      if found == -1 {
        slot := CacheBlock(block);
      } else {
        slot := found;
      }
    }

    /** `nvme_read`. */
    method Read(loc: nat, count: nat) returns (buf: Bytes)
      requires Valid() && loc + count <= |disk|
      modifies this`cache, this`overwritten
      ensures Valid() && buf == disk[loc..loc + count]
    {
      hide Slots, Once, SlotOk, Unit, Start;
      UnitPositive();
      buf := [];
      var progress := 0;
      while progress < count
        invariant progress <= count && Valid() && buf == disk[loc..loc + progress]
      {
        var sector := (loc + progress) / Unit();
        var off := (loc + progress) % Unit();
        Position(loc + progress, Unit());
        var slot := Fetch(sector);
        var chunk := count - progress;
        if chunk > Unit() - off {
          chunk := Unit() - off;
        }
        SlotBytes(disk, Unit(), cache[slot], off, chunk);
        buf := buf + cache[slot].data[off..off + chunk];
        assert disk[loc..loc + progress + chunk]
              == disk[loc..loc + progress] + disk[loc + progress..loc + progress + chunk];
        progress := progress + chunk;
      }
    }

    /** `nvme_write`. */
    method Write(buf: Bytes, loc: nat)
      requires Valid() && loc + |buf| <= |disk|
      modifies this`cache, this`overwritten, this`disk
      ensures Valid() && disk == Patch(old(disk), loc, buf)
    {
      hide Slots, Once, SlotOk, Unit, Patch, Start;
      UnitPositive();
      var progress := 0;
      while progress < |buf|
        invariant progress <= |buf| && Valid() && |disk| == old(|disk|)
        invariant disk == Patch(old(disk), loc, buf[..progress])
      {
        var sector := (loc + progress) / Unit();
        var off := (loc + progress) % Unit();
        Position(loc + progress, Unit());
        var slot := Fetch(sector);
        var chunk := |buf| - progress;
        if chunk > Unit() - off {
          chunk := Unit() - off;
        }
        Put(slot, sector, off, buf[progress..progress + chunk]);
        Patched(old(disk), loc, buf[..progress], buf[progress..progress + chunk]);
        assert buf[..progress + chunk] == buf[..progress] + buf[progress..progress + chunk];
        progress := progress + chunk;
      }
      assert buf[..progress] == buf;
    }

    /** One round of the write loop: the slot is changed and written through. */
    method Put(slot: nat, sector: nat, off: nat, piece: Bytes)
      requires Valid() && slot < SLOTS && cache[slot].block == sector && cache[slot].status != 0
      requires SlotOk(disk, Unit(), cache[slot])
      requires off + |piece| <= Unit() && Start(sector, Unit()) + off + |piece| <= |disk|
      modifies this`cache, this`disk
      ensures Valid() && disk == Patch(old(disk), Start(sector, Unit()) + off, piece)
    {
      hide Slots, Once, SlotOk, Unit, Patch, Clamp, Reach, Start;
      UnitBlocks(sector);
      SlotData(disk, Unit(), cache, slot);
      OnceStill(cache, slot, Patch(cache[slot].data, off, piece));
      WriteBack(disk, Unit(), cache[slot], off, piece);
      OthersHold(disk, Unit(), cache, slot, off, piece);
      cache := cache[slot := Slot(cache[slot].block, 1, Patch(cache[slot].data, off, piece))];
      WriteBlocks(cache[slot].data, Unit() / lba * cache[slot].block, Unit() / lba);
    }
  }

  lemma SlotBytes(disk: Bytes, k: nat, s: Slot, off: nat, chunk: nat)
    requires SlotOk(disk, k, s) && off + chunk <= k && Start(s.block, k) + off + chunk <= |disk|
    ensures |s.data| == k
    ensures s.data[off..off + chunk] == disk[Start(s.block, k) + off..Start(s.block, k) + off + chunk]
  {
    var at, n := Start(s.block, k), Reach(|disk|, s.block, k);
    Part(s.data, 0, n, off, chunk);
    Part(disk, at, n, off, chunk);
  }

  lemma Part(s: Bytes, at: nat, n: nat, off: nat, chunk: nat)
    requires off + chunk <= n && at + n <= |s|
    ensures s[at..at + n][off..off + chunk] == s[at + off..at + off + chunk]
  {
    var t := s[at..at + n];
    var a, b := t[off..off + chunk], s[at + off..at + off + chunk];
    forall i | 0 <= i < chunk ensures a[i] == b[i] {
      assert t[off + i] == s[at + (off + i)];
    }
  }

  /** A slot given a block that no slot holds. */
  lemma Installed(disk: Bytes, k: nat, cache: seq<Slot>, target: nat, block: nat, data: Bytes)
    requires Slots(disk, k, cache) && Once(cache) && target < |cache| && SlotOk(disk, k, Slot(block, 1, data))
    requires forall j :: 0 <= j < |cache| ==> cache[j].block != block || cache[j].status == 0
    ensures Slots(disk, k, cache[target := Slot(block, 1, data)]) && Once(cache[target := Slot(block, 1, data)])
  {
    hide SlotOk;
  }

  lemma SlotData(disk: Bytes, k: nat, cache: seq<Slot>, i: nat)
    requires Slots(disk, k, cache) && i < |cache| && cache[i].status != 0
    ensures SlotOk(disk, k, cache[i]) && |cache[i].data| == k
  {
  }

  lemma OnceStill(cache: seq<Slot>, slot: nat, data: Bytes)
    requires Once(cache) && slot < |cache| && cache[slot].status != 0
    ensures Once(cache[slot := Slot(cache[slot].block, 1, data)])
  {
  }

  lemma TakenIn(disk: Bytes, k: nat, block: nat, was: Bytes)
    requires Start(block, k) < |disk| && |was| == k
    ensures Start(block, k) + Reach(|disk|, block, k) <= |disk|
    ensures SlotOk(disk, k,
              Slot(block, 1, Patch(was, 0, disk[Start(block, k)..Start(block, k) + Reach(|disk|, block, k)])))
  {
    var n := Reach(|disk|, block, k);
    assert Patch(was, 0, disk[Start(block, k)..Start(block, k) + n])[..n] == disk[Start(block, k)..Start(block, k) + n];
  }

  lemma Patched(disk: Bytes, at: nat, a: Bytes, b: Bytes)
    requires at + |a| + |b| <= |disk|
    ensures Patch(Patch(disk, at, a), at + |a|, b) == Patch(disk, at, a + b)
  {
  }

  /** After the write the slot holds its new bytes, and every other slot still its block. */
  lemma OthersHold(disk: Bytes, k: nat, cache: seq<Slot>, slot: nat, off: nat, piece: Bytes)
    requires Slots(disk, k, cache) && Once(cache) && slot < |cache| && cache[slot].status != 0
    requires off + |piece| <= k && Start(cache[slot].block, k) + off + |piece| <= |disk| && |cache[slot].data| == k
    ensures Slots(Patch(disk, Start(cache[slot].block, k) + off, piece), k,
                  cache[slot := Slot(cache[slot].block, 1, Patch(cache[slot].data, off, piece))])
  {
    hide Start, Patch, Reach, SlotOk;
    var after := Patch(disk, Start(cache[slot].block, k) + off, piece);
    var s := Slot(cache[slot].block, 1, Patch(cache[slot].data, off, piece));
    WriteBack(disk, k, cache[slot], off, piece);
    var now := cache[slot := s];
    forall i | 0 <= i < |now| && now[i].status != 0 ensures SlotOk(after, k, now[i]) {
      if i != slot {
        OthersKeep(disk, k, cache[i], cache[slot].block, off, piece);
      }
    }
  }
}
