/**
  The directory layer of the FAT32 driver: long-name entries are written by `insertdent`, erased when
  the last reference to a file goes away, and read back by `fat32fs_populate`.

  A directory is an array of 32-byte slots. A slot is read either as a short entry or as a long-name
  entry; both views share the first byte and the attribute byte. The ghost field `live` says which
  files the directory holds: it maps the slot of a short entry to the name inserted with it.
 */
module FatDirectory {

  type Byte = int
  type Word = int
  type Name = seq<Byte>

  const ATTR_LFN: Byte := 0x0f
  const ATTR_DIR: Byte := 0x10
  const UNUSED: Byte := 0xe5
  const DOT: Byte := 0x2e
  const SPACE: Byte := 0x20

  /** The 32 bytes of a slot, cut where the fields of either view begin and end. */
  datatype Slot = Slot(
    first: Byte,        // byte 0: first name byte, or order of a long-name entry
    b1: seq<Byte>,      // bytes 1-10: rest of the short name, or name1
    attr: Byte,         // byte 11
    kind: Byte,         // byte 12
    sum: Byte,          // byte 13: creation time, or checksum
    b2: seq<Byte>,      // bytes 14-25: times and high cluster, or name2
    low: seq<Byte>,     // bytes 26-27: low cluster, or zero
    b3: seq<Byte>       // bytes 28-31: size, or name3
  )

  function Zeros(n: nat): seq<Byte> {
    seq(n, _ => 0)
  }

  function ZeroSlot(): Slot {
    Slot(0, Zeros(10), 0, 0, 0, Zeros(12), Zeros(2), Zeros(4))
  }

  function ShortName(s: Slot): seq<Byte> {
    [s.first] + s.b1
  }

  /** Names the layer can store and read back: zero-free and at most 246 bytes long. */
  predicate ValidName(n: Name) {
    |n| <= 246 && forall i :: 0 <= i < |n| ==> 0 < n[i] < 256
  }

  /** Number of long-name entries a name takes. */
  function Parts(n: Name): (r: nat)
    ensures 13 * (r - 1) <= |n| < 13 * r
  {
    1 + |n| / 13
  }

  // ----- encoding

  /** Decimal digits, as printed by "%011lu". */
  function Decimal(k: nat, width: nat): (r: seq<Byte>)
    ensures |r| == width && forall i :: 0 <= i < width ==> 48 <= r[i] < 58
  {
    if width == 0 then [] else Decimal(k / 10, width - 1) + [48 + k % 10]
  }

  function Pow10(n: nat): (r: nat)
    ensures r > 0
  {
    if n == 0 then 1 else 10 * Pow10(n - 1)
  }

  /** The number that a run of digits spells, read from the left. */
  function Spelled(digits: seq<Byte>): int {
    if digits == [] then 0 else 10 * Spelled(digits[..|digits| - 1]) + digits[|digits| - 1] - 48
  }

  lemma {:induction false} DecimalSpells(k: nat, width: nat)
    requires k < Pow10(width)
    ensures Spelled(Decimal(k, width)) == k
  {
    if width > 0 {
      DecimalSpells(k / 10, width - 1);
      assert Decimal(k, width)[..width - 1] == Decimal(k / 10, width - 1);
    }
  }

  /** Short names are the decimal slot index, so no two entries of a directory share one. */
  lemma DecimalInjective(j: nat, k: nat, width: nat)
    requires j < Pow10(width) && k < Pow10(width) && Decimal(j, width) == Decimal(k, width)
    ensures j == k
  {
    DecimalSpells(j, width);
    DecimalSpells(k, width);
  }

  function Rotate(sum: bv8, b: bv8): bv8 {
    sum.RotateRight(1) + b
  }

  /** The low bit goes to the top, the others down by one. */
  lemma RotateBits(sum: bv8, b: bv8)
    ensures ((sum & 1) << 7) + (sum >> 1) + b == Rotate(sum, b)
  {
    assert ((sum & 1) << 7) + (sum >> 1) == ((sum & 1) << 7) | (sum >> 1);
  }

  function Octet(b: Byte): bv8 {
    (b % 256) as bv8
  }

  /** All bytes, each added after a rotation of the sum so far. */
  function Rotated(name: seq<Byte>): bv8 {
    if name == [] then 0 else Rotate(Rotated(name[..|name| - 1]), Octet(name[|name| - 1]))
  }

  function Checksum(name: seq<Byte>): Byte {
    Rotated(name) as int
  }

  method LfnChecksum(name: seq<Byte>) returns (sum: Byte)
    requires |name| == 11
    ensures sum == Checksum(name)
  {
    hide Rotate, Octet;
    var sum8: bv8 := 0;
    var i := 11;
    while i != 0
      invariant 0 <= i <= 11 && sum8 == Rotated(name[..11 - i])
    {
      assert name[..12 - i][..11 - i] == name[..11 - i];
      var b := Octet(name[11 - i]);
      RotateBits(sum8, b);
      sum8 := ((sum8 & 1) << 7) + (sum8 >> 1) + b;
      i := i - 1;
    }
    assert name[..11] == name;
    sum := sum8 as int;
  }

  /** A `char` is signed, so storing it in 16 bits extends the sign; reading keeps the low byte. */
  function Widen(b: Byte): (w: Word)
    ensures (if w < 0x8000 then w else w - 0x10000) == (if b < 0x80 then b else b - 0x100)
  {
    if b < 128 then b else 0xff00 + b
  }

  /** The 16-bit characters of one field: the text, one terminator, then padding. */
  function Field(str: Name, limit: nat): (r: seq<Word>)
    ensures |r| == limit
  {
    seq(limit, i requires 0 <= i < limit => if i < |str| then Widen(str[i]) else if i == |str| then 0 else 0xffff)
  }

  method CopyToLfn(str: Name, limit: nat) returns (lfn: seq<Word>, used: nat)
    ensures lfn == Field(str, limit)
    ensures used == if limit > |str| then |str| else limit
  {
    lfn := [];
    var putnull, slen, i := false, |str|, 0;
    while i < limit
      invariant 0 <= i <= limit && |lfn| == i
      invariant slen == if i < |str| then |str| - i else 0
      invariant putnull <==> i > |str|
      invariant forall j :: 0 <= j < i ==> lfn[j] == Field(str, limit)[j]
    {
      if slen == 0 {
        if putnull {
          lfn := lfn + [0xffff];
        } else {
          lfn := lfn + [0];
          putnull := true;
        }
      } else {
        lfn := lfn + [Widen(str[i])];
        slen := slen - 1;
      }
      i := i + 1;
    }
    used := if limit > |str| then |str| else limit;
  }

  function Bytes(ws: seq<Word>): (r: seq<Byte>)
    ensures |r| == 2 * |ws|
  {
    seq(2 * |ws|, i requires 0 <= i < 2 * |ws| => if i % 2 == 0 then ws[i / 2] % 256 else ws[i / 2] / 256)
  }

  function Drop(str: Name, n: nat): Name {
    if n <= |str| then str[n..] else []
  }

  predicate Sized(s: Slot) {
    |s.b1| == 10 && |s.b2| == 12 && |s.b3| == 4
  }

  /** Long-name entry number `i` of `name`, counted backwards from the short entry. */
  function LfnSlot(name: Name, i: nat, sum: Byte): (r: Slot)
    requires 1 <= i <= Parts(name)
    ensures Sized(r) && r.attr == ATTR_LFN && r.sum == sum && r.first != 0
    ensures |name| <= 255 ==> r.first % 32 == i && r.first < UNUSED
  {
    var str := name[13 * (i - 1)..];
    Slot(if i == Parts(name) then i + 0x40 else i, Bytes(Field(str, 5)), ATTR_LFN, 0, sum,
         Bytes(Field(Drop(str, 5), 6)), [0, 0], Bytes(Field(Drop(str, 11), 2)))
  }

  method MakeLfn(name: Name, i: nat, entriesneeded: nat, sum: Byte) returns (ent: Slot)
    requires entriesneeded == 1 + Parts(name) && 1 <= i < entriesneeded
    ensures ent == LfnSlot(name, i, sum)
  {
    var order := if i + 1 == entriesneeded then i + 0x40 else i;
    var str := name[13 * (i - 1)..];
    var name1, used1 := CopyToLfn(str, 5);
    assert str[used1..] == Drop(str, 5);
    var name2, used2 := CopyToLfn(str[used1..], 6);
    assert str[used1..][used2..] == Drop(str, 11);
    var name3, used3 := CopyToLfn(str[used1..][used2..], 2);
    ent := Slot(order, Bytes(name1), ATTR_LFN, 0, sum, Bytes(name2), [0, 0], Bytes(name3));
  }

  /** The 32 bytes of a slot. */
  function OnDisk(s: Slot): seq<Byte> {
    [s.first] + s.b1 + [s.attr, s.kind, s.sum] + s.b2 + s.low + s.b3
  }

  /** Where the characters of a long-name entry stand, by the FAT specification. */
  const CHARACTERS: seq<nat> := [1, 3, 5, 7, 9, 14, 16, 18, 20, 22, 24, 28, 30]

  function WordAt(b: seq<Byte>, i: nat): Word
    requires i + 1 < |b|
  {
    b[i] + 256 * b[i + 1]
  }

  /** Character `p` of entry `i`: each field that begins past the end of the name gets a terminator of its own. */
  function CharOf(name: Name, i: nat, p: nat): Word
    requires 1 <= i && p < 13
  {
    var at := 13 * (i - 1) + p;
    if at < |name| then Widen(name[at])
    else if at == |name| || p == 0 || p == 5 || p == 11 then 0
    else 0xffff
  }

  /**
    A long-name entry on the disk: its order with a mark on the one that holds the end of the name, the attribute, a
    zero, the checksum, and thirteen characters in little-endian words.
   */
  lemma LongEntryOnDisk(name: Name, i: nat, sum: Byte, p: nat)
    requires ValidName(name) && 1 <= i <= Parts(name) && p < 13
    ensures var b := OnDisk(LfnSlot(name, i, sum));
            && |b| == 32 && b[0] == i + (if 13 * i > |name| then 0x40 else 0)
            && b[11] == 0x0f && b[12] == 0 && b[13] == sum && b[26] == b[27] == 0
            && WordAt(b, CHARACTERS[p]) == CharOf(name, i, p)
  {
    var s := LfnSlot(name, i, sum);
    HeadOnDisk(name, i, sum);
    PieceWords(name, i, sum, p);
    hide LfnSlot, OnDisk, Widen;
    PartOnDisk(s, p);
  }

  /** After its terminator the name is padded with ones, as the FAT specification has it. */
  ghost predicate Padded(name: Name, i: nat)
    requires 1 <= i
  {
    forall p: nat {:trigger CharOf(name, i, p)} :: p < 13 && |name| < 13 * (i - 1) + p ==> CharOf(name, i, p) == 0xffff
  }

  /** That is so exactly when the entry holds eleven characters of the name at least. */
  lemma PaddedExact(name: Name, i: nat)
    requires 1 <= i <= Parts(name)
    ensures Padded(name, i) <==> 13 * (i - 1) + 11 <= |name|
  {
    assert CharOf(name, i, 11) == 0 || 13 * (i - 1) + 11 < |name|;
  }

  lemma HeadOnDisk(name: Name, i: nat, sum: Byte)
    requires 1 <= i <= Parts(name)
    ensures var s := LfnSlot(name, i, sum); var b := OnDisk(s);
            && Sized(s) && |s.low| == 2 && |b| == 32 && b[0] == i + (if 13 * i > |name| then 0x40 else 0)
            && b[11] == 0x0f && b[12] == 0 && b[13] == sum && b[26] == b[27] == 0
  {
    hide Bytes, Field;
  }

  lemma PieceWords(name: Name, i: nat, sum: Byte, p: nat)
    requires ValidName(name) && 1 <= i <= Parts(name) && p < 13
    ensures var s := LfnSlot(name, i, sum);
            && Sized(s)
            && CharOf(name, i, p) ==
               if p < 5 then WordAt(s.b1, 2 * p) else if p < 11 then WordAt(s.b2, 2 * (p - 5))
               else WordAt(s.b3, 2 * (p - 11))
  {
    hide Bytes, Field, Widen, WordAt;
    var str := name[13 * (i - 1)..];
    if p < 5 {
      FieldWords(str, 5, p);
    } else if p < 11 {
      FieldWords(Drop(str, 5), 6, p - 5);
    } else {
      FieldWords(Drop(str, 11), 2, p - 11);
    }
  }

  lemma PartOnDisk(s: Slot, p: nat)
    requires Sized(s) && |s.low| == 2 && p < 13
    ensures |OnDisk(s)| == 32
    ensures WordAt(OnDisk(s), CHARACTERS[p]) ==
              if p < 5 then WordAt(s.b1, 2 * p) else if p < 11 then WordAt(s.b2, 2 * (p - 5))
              else WordAt(s.b3, 2 * (p - 11))
  {
  }

  lemma FieldWords(str: Name, limit: nat, p: nat)
    requires p < limit && forall i :: 0 <= i < |str| ==> 0 < str[i] < 256
    ensures WordAt(Bytes(Field(str, limit)), 2 * p) ==
              if p < |str| then Widen(str[p]) else if p == |str| then 0 else 0xffff
  {
    var w := Field(str, limit)[p];
    var bs := Bytes(Field(str, limit));
    assert bs[2 * p] == w % 256 && bs[2 * p + 1] == w / 256;
  }

  // ----- decoding one entry

  function Char(bs: seq<Byte>, i: nat): Byte
    requires 2 * i + 1 < |bs|
  {
    (bs[2 * i] + 256 * bs[2 * i + 1]) % 256
  }

  /** The thirteen characters of a long-name entry, in the order they are copied out. */
  function LfnChar(s: Slot, p: nat): Byte
    requires Sized(s) && p < 13
  {
    if p < 5 then Char(s.b1, p) else if p < 11 then Char(s.b2, p - 5) else Char(s.b3, p - 11)
  }

  /** Reading an entry back gives the bytes of its piece of the name, and a terminator after the last. */
  lemma LfnCharDecodes(name: Name, i: nat, sum: Byte, p: nat)
    requires ValidName(name) && 1 <= i <= Parts(name) && p < 13 && 13 * (i - 1) + p <= |name|
    ensures Sized(LfnSlot(name, i, sum))
    ensures LfnChar(LfnSlot(name, i, sum), p) == if 13 * (i - 1) + p < |name| then name[13 * (i - 1) + p] else 0
  {
    var str := name[13 * (i - 1)..];
    if p < 5 {
      FieldDecodes(str, 5, p);
    } else if p < 11 {
      FieldDecodes(Drop(str, 5), 6, p - 5);
    } else {
      FieldDecodes(Drop(str, 11), 2, p - 11);
    }
  }

  /**
    The driver accepts names of up to 255 bytes, but the decoder copies entry `o` to bytes
    13 * (o - 1) .. 13 * o of a 256-byte buffer: it stays inside exactly for names of at most 246 bytes.
   */
  lemma DecodeStaysInBuffer(name: Name, sum: Byte)
    requires |name| <= 255
    ensures (forall i :: 1 <= i <= Parts(name) ==> 13 * (LfnSlot(name, i, sum).first % 32) <= 256) <==> |name| <= 246
  {
    if |name| > 246 {
      assert LfnSlot(name, Parts(name), sum).first % 32 == 20;
    }
  }

  lemma FieldDecodes(str: Name, limit: nat, p: nat)
    requires p < limit && p <= |str| && forall i :: 0 <= i < |str| ==> 0 < str[i] < 256
    ensures Char(Bytes(Field(str, limit)), p) == if p < |str| then str[p] else 0
  {
    var w := Field(str, limit)[p];
    var bs := Bytes(Field(str, limit));
    assert bs[2 * p] == w % 256 && bs[2 * p + 1] == w / 256;
  }

  // ----- well-formed directories

  type Files = map<nat, Name>

  ghost predicate IsShort(s: Slot, k: nat) {
    Sized(s) && ShortName(s) == Decimal(k, 11) && (s.attr == 0 || s.attr == ATTR_DIR)
  }

  /** Slot `k` is a short entry, preceded by the long-name entries of `n`, all with its checksum. */
  ghost predicate IsGroup(slots: seq<Slot>, k: nat, n: Name) {
    && Parts(n) <= k < |slots|
    && IsShort(slots[k], k)
    && forall i :: k - Parts(n) <= i < k ==> slots[i] == LfnSlot(n, k - i, Checksum(ShortName(slots[k])))
  }

  ghost predicate InGroup(live: Files, k: nat, i: int) {
    k in live && k - Parts(live[k]) <= i <= k
  }

  predicate Used(slots: seq<Slot>, i: nat)
    requires i < |slots|
  {
    slots[i].first != UNUSED
  }

  function Dots(m: nat): seq<Byte> {
    seq(11, j requires 0 <= j < 11 => if j < m then DOT else SPACE)
  }

  ghost predicate IsDot(s: Slot, i: nat) {
    Sized(s) && ShortName(s) == Dots(i + 1) && s.attr == ATTR_DIR
  }

  /** The slot before `i` does not look like a long-name entry, so walking back from a group stops there. */
  ghost predicate Guarded(slots: seq<Slot>, i: nat)
    requires i <= |slots|
  {
    i == 0 || slots[i - 1].attr != ATTR_LFN
  }

  /** Where a group lies, and what delimits it. */
  lemma GroupAt(slots: seq<Slot>, base: nat, end: nat, live: Files, k: nat)
    requires WellFormed(slots, base, end, live) && k in live
    ensures base <= k - Parts(live[k]) && k < end < |slots| && Guarded(slots, k - Parts(live[k]))
    ensures forall i :: k - Parts(live[k]) <= i < k ==> slots[i].attr == ATTR_LFN
    ensures slots[k].attr != ATTR_LFN
  {
    hide Checksum, Decimal, LfnSlot;
    assert IsGroup(slots, k, live[k]);
  }

  /**
    The directory ends at slot `end`. Its first `base` slots are the entries "." and "..", and every
    other used slot belongs to exactly one group.
   */
  ghost predicate WellFormed(slots: seq<Slot>, base: nat, end: nat, live: Files) {
    && base <= end < |slots| && base <= 2
    && (forall i :: 0 <= i < base ==> IsDot(slots[i], i))
    && slots[end].first == 0
    && (forall i :: 0 <= i < end ==> slots[i].first != 0)
    && (forall k :: k in live ==> base + Parts(live[k]) <= k < end && ValidName(live[k]))
    && (forall k :: k in live ==> IsGroup(slots, k, live[k]) && Guarded(slots, k - Parts(live[k])))
    && (forall k, m :: k in live && m in live && k < m ==> k < m - Parts(live[m]))
    && (forall i {:trigger Used(slots, i)} :: base <= i < end && Used(slots, i) ==> exists k :: InGroup(live, k, i))
  }

  /** What a used slot is: an entry of the long name (and then so marked), or the short entry itself. */
  lemma GroupSlot(slots: seq<Slot>, base: nat, end: nat, live: Files, k: nat, i: nat)
    requires WellFormed(slots, base, end, live) && InGroup(live, k, i)
    ensures base <= i < end && Sized(slots[i]) && slots[i].first != UNUSED && slots[i].first != 0
    ensures i < k ==>
              slots[i] == LfnSlot(live[k], k - i, Checksum(ShortName(slots[k]))) && slots[i].attr == ATTR_LFN
              && slots[i].first % 32 == k - i
    ensures i == k ==> IsShort(slots[i], k) && slots[i].attr != ATTR_LFN
    ensures forall m :: InGroup(live, m, i) ==> m == k
  {
    hide Checksum, Decimal, LfnSlot;
    assert IsGroup(slots, k, live[k]);
    if i == k {
      assert ShortName(slots[k])[0] == Decimal(k, 11)[0];
    }
    assert InGroup(live, k, k);
    forall m | InGroup(live, m, i) ensures m == k {
    }
  }

  // ----- inserting

  /** `slots` with the entries of `name` written below the short entry `sh` at slot `d`. */
  function Placed(slots: seq<Slot>, d: nat, name: Name, sh: Slot): (r: seq<Slot>)
    ensures |r| == |slots|
  {
    seq(|slots|, i requires 0 <= i < |slots| =>
      if i == d then sh
      else if d - Parts(name) <= i < d then LfnSlot(name, d - i, Checksum(ShortName(sh)))
      else slots[i])
  }

  /** Room for a group whose short entry is slot `d`: only unused slots, starting right after a used one. */
  ghost predicate Room(slots: seq<Slot>, end: nat, d: nat, needed: nat) {
    var s := d + 1 - needed;
    && 0 <= s <= end < |slots|
    && (forall i :: s <= i <= d && i < end ==> slots[i].first == UNUSED)
    && (s == 0 || slots[s - 1].first != UNUSED)
  }

  /** From `p` on, `needed` slots are unused or lie at the end mark or behind it. */
  ghost predicate Vacant(slots: seq<Slot>, end: nat, p: nat, needed: nat) {
    end <= |slots| && forall i :: p <= i < p + needed && i < end ==> slots[i].first == UNUSED
  }

  /** The place `p` is the first one. */
  ghost predicate FirstVacant(slots: seq<Slot>, end: nat, p: nat, needed: nat) {
    Vacant(slots, end, p, needed) && forall q: nat :: q < p ==> !Vacant(slots, end, q, needed)
  }

  /** Somewhere inside the directory there is room for that many slots and an end mark behind them. */
  ghost predicate HasPlace(slots: seq<Slot>, end: nat, needed: nat) {
    exists p: nat :: p + needed < |slots| && Vacant(slots, end, p, needed)
  }

  /** The first place decides. */
  lemma PlaceInside(slots: seq<Slot>, end: nat, d: nat, needed: nat)
    requires needed <= d + 1 && FirstVacant(slots, end, d + 1 - needed, needed)
    ensures HasPlace(slots, end, needed) <==> d + 1 < |slots|
  {
    hide Vacant;
    if d + 1 < |slots| {
      var p := d + 1 - needed;
      assert p + needed < |slots|;
    }
  }

  lemma UsedInside(slots: seq<Slot>, end: nat, q: nat, needed: nat, d: nat)
    requires q <= d < q + needed && d < end <= |slots| && slots[d].first != UNUSED
    ensures !Vacant(slots, end, q, needed)
  {
  }

  /** Such room lies between groups. */
  lemma RoomApart(slots: seq<Slot>, base: nat, end: nat, live: Files, d: nat, needed: nat)
    requires WellFormed(slots, base, end, live) && Room(slots, end, d, needed) && needed > 0
    ensures base <= d + 1 - needed && Guarded(slots, d + 1 - needed)
    ensures forall k :: k in live ==> k < d + 1 - needed || d < k - Parts(live[k])
  {
    hide Checksum, Decimal, LfnSlot;
    var s := d + 1 - needed;
    forall i | 0 <= i < base ensures slots[i].first == DOT && slots[i].attr != ATTR_LFN {
      assert IsDot(slots[i], i);
      assert ShortName(slots[i])[0] == Dots(i + 1)[0];
    }
    forall k | k in live ensures k < s || d < k - Parts(live[k]) {
      var i := if k - Parts(live[k]) < s then s else k - Parts(live[k]);
      if i <= k && i <= d {
        GroupSlot(slots, base, end, live, k, i);
      }
    }
    if s > 0 && s - 1 >= base {
      assert Used(slots, s - 1);
      var k :| InGroup(live, k, s - 1);
      GroupSlot(slots, base, end, live, k, s - 1);
      assert k == s - 1;
    }
    assert s < end ==> slots[s].first == UNUSED;
  }

  /** Writing between groups leaves them and what guards them as they were. */
  lemma PlacedGroup(slots: seq<Slot>, base: nat, end: nat, live: Files, d: nat, name: Name, sh: Slot, slots': seq<Slot>,
                    k: nat)
    requires WellFormed(slots, base, end, live) && k in live && sh.attr != ATTR_LFN
    requires d >= Parts(name) && (k < d - Parts(name) || d < k - Parts(live[k]))
    requires |slots'| >= |slots| && (forall i :: 0 <= i < end ==> slots'[i] == slots[i])
    ensures IsGroup(Placed(slots', d, name, sh), k, live[k])
    ensures Guarded(Placed(slots', d, name, sh), k - Parts(live[k]))
    ensures Placed(slots', d, name, sh)[k] == slots[k]
  {
    hide Checksum, Decimal, LfnSlot;
    assert IsGroup(slots, k, live[k]) && Guarded(slots, k - Parts(live[k]));
  }

  lemma GuardedSame(slots: seq<Slot>, slots': seq<Slot>, end: nat, i: nat)
    requires i <= end <= |slots| && end <= |slots'| && Guarded(slots, i)
    requires forall j :: 0 <= j < end ==> slots'[j] == slots[j]
    ensures Guarded(slots', i)
  {
  }

  lemma PlacedSelf(slots: seq<Slot>, d: nat, name: Name, sh: Slot)
    requires Parts(name) <= d < |slots| && IsShort(sh, d) && Guarded(slots, d - Parts(name))
    ensures IsGroup(Placed(slots, d, name, sh), d, name)
    ensures Guarded(Placed(slots, d, name, sh), d - Parts(name))
  {
    hide Checksum, Decimal, LfnSlot;
  }

  lemma PlacedSlots(slots: seq<Slot>, base: nat, end: nat, live: Files, d: nat, name: Name, sh: Slot, slots': seq<Slot>)
    requires WellFormed(slots, base, end, live) && IsShort(sh, d) && base + Parts(name) <= d <= end + Parts(name)
    requires |slots'| >= |slots| && (forall i :: 0 <= i < end ==> slots'[i] == slots[i])
    requires if d < end then slots'[end] == slots[end] else d + 1 < |slots'| && slots'[d + 1].first == 0
    ensures var r, end' := Placed(slots', d, name, sh), if d < end then end else d + 1;
            && (forall i :: 0 <= i < base ==> IsDot(r[i], i))
            && r[end'].first == 0 && (forall i :: 0 <= i < end' ==> r[i].first != 0)
  {
    hide Checksum, Decimal, LfnSlot, IsGroup, Guarded;
    assert ShortName(sh)[0] == Decimal(d, 11)[0];
    var r, end' := Placed(slots', d, name, sh), if d < end then end else d + 1;
    forall i | 0 <= i < end' ensures r[i].first != 0 {
      if d - Parts(name) <= i < d {
        assert r[i] == LfnSlot(name, d - i, Checksum(ShortName(sh)));
      }
    }
  }

  lemma PlacedCovered(slots: seq<Slot>, base: nat, end: nat, live: Files, d: nat, name: Name, sh: Slot,
                      slots': seq<Slot>)
    requires WellFormed(slots, base, end, live) && base + Parts(name) <= d <= end + Parts(name)
    requires |slots'| >= |slots| && (forall i :: 0 <= i < end ==> slots'[i] == slots[i]) && d < |slots'|
    requires forall k :: k in live ==> k < d - Parts(name) || d < k - Parts(live[k])
    ensures var r, end', live' := Placed(slots', d, name, sh), if d < end then end else d + 1, live[d := name];
            forall i {:trigger Used(r, i)} :: base <= i < end' && Used(r, i) ==>
                  exists k {:trigger InGroup(live', k, i)} :: InGroup(live', k, i)
  {
    hide Checksum, Decimal, LfnSlot, IsGroup, Guarded;
    var live': Files := live[d := name];
    var r, end' := Placed(slots', d, name, sh), if d < end then end else d + 1;
    var s := d - Parts(name);
    forall i | base <= i < end' && Used(r, i) ensures exists k :: InGroup(live', k, i) {
      if s <= i <= d {
        assert InGroup(live', d, i);
      } else {
        assert Used(slots, i);
        var k :| InGroup(live, k, i);
        assert InGroup(live', k, i);
      }
    }
  }

  lemma PlacedGroups(slots: seq<Slot>, base: nat, end: nat, live: Files, d: nat, name: Name, sh: Slot,
                     slots': seq<Slot>)
    requires WellFormed(slots, base, end, live) && IsShort(sh, d) && base + Parts(name) <= d <= end + Parts(name)
    requires |slots'| >= |slots| && (forall i :: 0 <= i < end ==> slots'[i] == slots[i]) && d < |slots'|
    requires Guarded(slots, d - Parts(name))
    requires forall k :: k in live ==> k < d - Parts(name) || d < k - Parts(live[k])
    ensures var r, live' := Placed(slots', d, name, sh), live[d := name];
            forall k :: k in live' ==>
                  IsGroup(r, k, live'[k]) && Guarded(r, k - Parts(live'[k])) && (k != d ==> r[k] == slots[k])
  {
    hide Checksum, Decimal, LfnSlot, IsGroup, Guarded, Placed;
    var r, live' := Placed(slots', d, name, sh), live[d := name];
    forall k | k in live'
      ensures IsGroup(r, k, live'[k]) && Guarded(r, k - Parts(live'[k])) && (k != d ==> r[k] == slots[k])
    {
      if k != d {
        PlacedGroup(slots, base, end, live, d, name, sh, slots', k);
      } else {
        GuardedSame(slots, slots', end, d - Parts(name));
        PlacedSelf(slots', d, name, sh);
      }
    }
  }

  lemma PlacedWellFormed(slots: seq<Slot>, base: nat, end: nat, live: Files, d: nat, name: Name, sh: Slot,
                         slots': seq<Slot>)
    requires WellFormed(slots, base, end, live) && ValidName(name) && IsShort(sh, d)
    requires Room(slots, end, d, 1 + Parts(name))
    requires |slots'| >= |slots| && (forall i :: 0 <= i < end ==> slots'[i] == slots[i])
    requires if d < end then slots'[end] == slots[end] else d + 1 < |slots'| && slots'[d + 1].first == 0
    ensures d !in live && forall k :: k in live ==> 0 <= k < |slots| && Placed(slots', d, name, sh)[k] == slots[k]
    ensures WellFormed(Placed(slots', d, name, sh), base, if d < end then end else d + 1, live[d := name])
  {
    hide Checksum, Decimal, LfnSlot, IsGroup, Guarded, Placed, IsDot, IsShort, InGroup, ValidName;
    RoomApart(slots, base, end, live, d, 1 + Parts(name));
    PlacedGroups(slots, base, end, live, d, name, sh, slots');
    PlacedCovered(slots, base, end, live, d, name, sh, slots');
    PlacedSlots(slots, base, end, live, d, name, sh, slots');
    var r, live' := Placed(slots', d, name, sh), live[d := name];
    forall k | k in live ensures k != d && k in live' && live'[k] == live[k] && r[k] == slots[k] {
    }
  }

  // ----- erasing

  function Erased(slots: seq<Slot>, lo: nat, hi: nat, byte: Byte): (r: seq<Slot>)
    ensures |r| == |slots|
  {
    seq(|slots|, i requires 0 <= i < |slots| => if lo <= i <= hi then slots[i].(first := byte) else slots[i])
  }

  lemma ErasedGroup(slots: seq<Slot>, base: nat, end: nat, live: Files, k: nat, byte: Byte, m: nat)
    requires WellFormed(slots, base, end, live) && k in live && m in live && m != k
    ensures var lo := k - Parts(live[k]);
            IsGroup(Erased(slots, lo, k, byte), m, live[m]) && Guarded(Erased(slots, lo, k, byte), m - Parts(live[m]))
    ensures m < k - Parts(live[k]) || k + 1 < end
  {
    hide Checksum, Decimal, LfnSlot;
    assert IsGroup(slots, m, live[m]) && Guarded(slots, m - Parts(live[m]));
    assert m < k - Parts(live[k]) || k < m - Parts(live[m]);
  }

  /** What is still used belongs to one of the other files. */
  lemma ErasedCovered(slots: seq<Slot>, base: nat, end: nat, live: Files, k: nat, byte: Byte, end': nat)
    requires WellFormed(slots, base, end, live) && k in live && end' <= end && (byte == UNUSED || byte == 0)
    requires byte == 0 ==> end' == k - Parts(live[k])
    ensures var r := Erased(slots, k - Parts(live[k]), k, byte);
            forall i | base <= i < end' && Used(r, i) :: exists m :: InGroup(live - {k}, m, i)
  {
    hide Checksum, Decimal, LfnSlot, IsGroup, Guarded;
    var r, live' := Erased(slots, k - Parts(live[k]), k, byte), live - {k};
    forall i | base <= i < end' && Used(r, i) ensures exists m :: InGroup(live', m, i) {
      assert Used(slots, i);
      var m :| InGroup(live, m, i);
      assert InGroup(live', m, i);
    }
  }

  /** The ends of the shorter directory. */
  lemma ErasedEnds(slots: seq<Slot>, base: nat, end: nat, live: Files, k: nat, byte: Byte, end': nat)
    requires WellFormed(slots, base, end, live) && k in live
    requires if byte == 0 then end' == k - Parts(live[k]) else end' == end
    ensures var r := Erased(slots, k - Parts(live[k]), k, byte);
            && (forall i :: 0 <= i < base ==> IsDot(r[i], i))
            && r[end'].first == 0 && (forall i :: 0 <= i < end' ==> r[i].first != 0)
  {
    hide Checksum, Decimal, LfnSlot, IsGroup, Guarded, Used, InGroup, IsDot;
  }

  lemma ErasedWellFormed(slots: seq<Slot>, base: nat, end: nat, live: Files, k: nat)
    requires WellFormed(slots, base, end, live) && k in live
    ensures var lo := k - Parts(live[k]);
            if slots[k + 1].first == 0 then WellFormed(Erased(slots, lo, k, 0), base, lo, live - {k})
            else WellFormed(Erased(slots, lo, k, UNUSED), base, end, live - {k})
  {
    hide Checksum, Decimal, LfnSlot, IsGroup, Guarded, Used, InGroup, IsDot, Erased;
    var lo, live' := k - Parts(live[k]), live - {k};
    var last := slots[k + 1].first == 0;
    var byte := if last then 0 else UNUSED;
    var r, end' := Erased(slots, lo, k, byte), if last then lo else end;
    forall m | m in live'
      ensures IsGroup(r, m, live'[m]) && Guarded(r, m - Parts(live'[m])) && m < end'
    {
      ErasedGroup(slots, base, end, live, k, byte, m);
    }
    ErasedEnds(slots, base, end, live, k, byte, end');
    ErasedCovered(slots, base, end, live, k, byte, end');
  }

  // ----- reading back

  predicate IsDotName(n: Name) {
    n == [DOT] || n == [DOT, DOT]
  }

  /** The files with a short entry below slot `hi`, in slot order; "." and ".." are left to the VFS. */
  function Listing(live: Files, hi: nat): seq<(Name, nat)> {
    if hi == 0 then []
    else Listing(live, hi - 1) + if hi - 1 in live && !IsDotName(live[hi - 1]) then [(live[hi - 1], hi - 1)] else []
  }

  /** The listing holds each file once, and nothing else. */
  lemma {:induction false} ListingExact(live: Files, hi: nat, n: Name, k: nat)
    ensures (n, k) in Listing(live, hi) <==> k < hi && k in live && live[k] == n && !IsDotName(n)
    ensures forall i, j :: 0 <= i < j < |Listing(live, hi)| ==> Listing(live, hi)[i].1 < Listing(live, hi)[j].1 < hi
    ensures forall i :: 0 <= i < |Listing(live, hi)| ==> Listing(live, hi)[i].1 < hi
  {
    if hi > 0 {
      ListingExact(live, hi - 1, n, k);
    }
  }

  lemma {:induction false} ListingEnd(live: Files, end: nat, hi: nat)
    requires end <= hi && forall k :: k in live ==> k < end
    ensures Listing(live, hi) == Listing(live, end)
    decreases hi
  {
    if hi > end {
      ListingEnd(live, end, hi - 1);
    }
  }

  /** The C string at the start of a buffer. */
  function CString(buf: seq<Byte>): Name {
    if buf == [] || buf[0] == 0 then [] else [buf[0]] + CString(buf[1..])
  }

  lemma {:induction false} CStringIs(buf: seq<Byte>, n: Name)
    requires |n| < |buf| && buf[..|n|] == n && buf[|n|] == 0
    requires forall i :: 0 <= i < |n| ==> n[i] != 0
    ensures CString(buf) == n
  {
    if n != [] {
      assert buf[0] == n[0];
      CStringIs(buf[1..], n[1..]);
    }
  }

  /** The pieces of `n` after the first `todo` ones are in the buffer. */
  ghost predicate Filled(buf: seq<Byte>, n: Name, todo: nat) {
    |buf| == 256 && forall p :: 13 * todo <= p <= |n| && p < 256 ==> buf[p] == if p < |n| then n[p] else 0
  }

  /** Decoding entry `j` adds its piece of the name to the buffer. */
  lemma FillStep(buf: seq<Byte>, buf': seq<Byte>, n: Name, j: nat, sum: Byte)
    requires ValidName(n) && 1 <= j <= Parts(n) && |buf| == |buf'| == 256
    requires j < Parts(n) ==> Filled(buf, n, j)
    requires forall p :: 0 <= p < 256 ==>
              buf'[p] == if 13 * (j - 1) <= p < 13 * j then LfnChar(LfnSlot(n, j, sum), p - 13 * (j - 1)) else buf[p]
    ensures Filled(buf', n, j - 1)
  {
    hide LfnSlot, LfnChar;
    forall p | 13 * (j - 1) <= p <= |n| && p < 256 ensures buf'[p] == if p < |n| then n[p] else 0 {
      if p < 13 * j {
        LfnCharDecodes(n, j, sum, p - 13 * (j - 1));
      }
    }
  }

  lemma DotString(buf: seq<Byte>, m: nat)
    requires |buf| == 256 && 1 <= m <= 2 && forall p :: 0 <= p < 256 ==> buf[p] == if p < m then DOT else 0
    ensures IsDotName(CString(buf))
  {
    CStringIs(buf, if m == 1 then [DOT] else [DOT, DOT]);
  }

  /** Number of trailing spaces. */
  method CountSpacePadding(str: seq<Byte>) returns (count: nat)
    ensures count <= |str|
    ensures forall i :: |str| - count <= i < |str| ==> str[i] == SPACE
    ensures count < |str| ==> str[|str| - count - 1] != SPACE
  {
    count := 0;
    while count < |str| && str[|str| - count - 1] == SPACE
      invariant count <= |str|
      invariant forall i :: |str| - count <= i < |str| ==> str[i] == SPACE
    {
      count := count + 1;
    }
  }

  method CopyLfnToString(entry: Slot, buf: array<Byte>, at: nat)
    requires Sized(entry) && at + 13 <= buf.Length
    modifies buf
    ensures forall p :: 0 <= p < buf.Length ==>
              buf[p] == if at <= p < at + 13 then LfnChar(entry, p - at) else old(buf[p])
  {
    for i := 0 to 5
      invariant forall p :: 0 <= p < buf.Length ==>
                  buf[p] == if at <= p < at + i then LfnChar(entry, p - at) else old(buf[p])
    {
      buf[at + i] := Char(entry.b1, i);
    }
    for i := 0 to 6
      invariant forall p :: 0 <= p < buf.Length ==>
                  buf[p] == if at <= p < at + 5 + i then LfnChar(entry, p - at) else old(buf[p])
    {
      buf[at + 5 + i] := Char(entry.b2, i);
    }
    for i := 0 to 2
      invariant forall p :: 0 <= p < buf.Length ==>
                  buf[p] == if at <= p < at + 11 + i then LfnChar(entry, p - at) else old(buf[p])
    {
      buf[at + 11 + i] := Char(entry.b3, i);
    }
  }

  lemma DotsPadding(name: seq<Byte>, m: nat, pad8: nat, pad3: nat)
    requires name == Dots(m) && 1 <= m <= 2 && pad8 <= 8 && pad3 <= 3
    requires forall i :: 8 - pad8 <= i < 8 ==> name[..8][i] == SPACE
    requires pad8 < 8 ==> name[..8][8 - pad8 - 1] != SPACE
    requires pad3 < 3 ==> name[8..][3 - pad3 - 1] != SPACE
    ensures pad8 == 8 - m && pad3 == 3
  {
    assert name[..8][m - 1] == DOT;
    assert forall i :: m <= i < 8 ==> name[..8][i] == SPACE;
    assert forall i :: 0 <= i < 3 ==> name[8..][i] == SPACE;
  }

  /** Copies an 8.3 name into the buffer, without a terminator, as the source does. */
  method CopyShortName(name: seq<Byte>, buf: array<Byte>)
    requires |name| == 11 && buf.Length == 256
    modifies buf
    ensures forall m :: 1 <= m <= 2 && name == Dots(m) ==> forall p :: 0 <= p < 256 ==>
              buf[p] == if p < m then DOT else old(buf[p])
  {
    var pad8 := CountSpacePadding(name[..8]);
    var pad3 := CountSpacePadding(name[8..]);
    var namesize, extsize := 8 - pad8, 3 - pad3;
    forall m | 1 <= m <= 2 && name == Dots(m) ensures namesize == m && extsize == 0 {
      DotsPadding(name, m, pad8, pad3);
    }
    if namesize > 0 {
      forall p | 0 <= p < namesize {
        buf[p] := name[p];
      }
    }
    if extsize > 0 {
      buf[namesize] := DOT;
      forall p | 0 <= p < extsize {
        buf[namesize + 1 + p] := name[8 + p];
      }
    }
  }

  // ----- the decoder's state

  /** What the decoder may find in a slot before the end. */
  lemma Classify(slots: seq<Slot>, base: nat, end: nat, live: Files, i: nat)
    requires WellFormed(slots, base, end, live) && i < end
    ensures slots[i].first != 0
    ensures slots[i].first == UNUSED ==> base <= i && forall k :: !InGroup(live, k, i)
    ensures slots[i].first != UNUSED && i < base ==>
              slots[i].attr % 16 == 0 && Sized(slots[i]) && ShortName(slots[i]) == Dots(i + 1)
    ensures slots[i].first != UNUSED && base <= i ==> exists k :: InGroup(live, k, i)
    ensures i < base ==> i !in live && forall k :: !InGroup(live, k, i)
  {
    hide Checksum, Decimal, LfnSlot;
    if i < base {
      assert IsDot(slots[i], i);
      assert ShortName(slots[i])[0] == Dots(i + 1)[0];
    } else {
      assert Used(slots, i) ==> exists k :: InGroup(live, k, i);
    }
    forall k | InGroup(live, k, i) ensures slots[i].first != UNUSED && base <= i {
      GroupSlot(slots, base, end, live, k, i);
    }
  }

  /**
    Before slot `i`: inside the group of `cur`, with its later pieces decoded, when `islfn` holds;
    between groups otherwise. While "." and ".." are read, the buffer holds only dots.
   */
  ghost predicate Scan(slots: seq<Slot>, base: nat, live: Files, i: nat, islfn: bool, cur: nat, checksum: Byte,
                       buf: seq<Byte>)
    requires forall k :: k in live ==> k < |slots|
  {
    && |buf| == 256
    && (islfn ==> InGroup(live, cur, i - 1) && i <= cur)
    && (islfn ==> checksum == Checksum(ShortName(slots[cur])) && Filled(buf, live[cur], cur - i))
    && (!islfn ==> forall k :: k in live ==> i <= k - Parts(live[k]) || k < i)
    && (i < base ==> forall p :: 0 <= p < 256 ==> buf[p] == if p < i then DOT else 0)
  }

  /** The loop stops exactly at the end mark, and what follows it adds nothing. */
  lemma ScanSlot(slots: seq<Slot>, base: nat, end: nat, live: Files, i: nat)
    requires WellFormed(slots, base, end, live) && i <= end
    ensures slots[i].first == 0 <==> i == end
    ensures forall k :: k in live ==> k < |slots|
  {
  }

  lemma ScanEnd(slots: seq<Slot>, base: nat, end: nat, live: Files)
    requires WellFormed(slots, base, end, live)
    ensures Listing(live, |slots|) == Listing(live, end)
  {
    ListingEnd(live, end, |slots|);
  }

  lemma ScanStart(slots: seq<Slot>, base: nat, end: nat, live: Files, buf: seq<Byte>)
    requires WellFormed(slots, base, end, live) && |buf| == 256 && forall p :: 0 <= p < 256 ==> buf[p] == 0
    ensures (forall k :: k in live ==> k < |slots|) && Scan(slots, base, live, 0, false, 0, 0, buf)
    ensures Listing(live, 0) == [] && end < |slots|
  {
  }

  lemma ScanUnused(slots: seq<Slot>, base: nat, end: nat, live: Files, i: nat, islfn: bool, cur: nat, checksum: Byte,
                   buf: seq<Byte>)
    requires WellFormed(slots, base, end, live) && i < end && slots[i].first == UNUSED
    requires Scan(slots, base, live, i, islfn, cur, checksum, buf)
    ensures Scan(slots, base, live, i + 1, islfn, cur, checksum, buf) && Listing(live, i + 1) == Listing(live, i)
  {
    hide Checksum, Decimal, LfnSlot, IsGroup;
    Classify(slots, base, end, live, i);
    assert islfn ==> InGroup(live, cur, i);
    assert i in live ==> InGroup(live, i, i);
    forall k | k in live ensures i + 1 <= k - Parts(live[k]) || k < i {
      assert !InGroup(live, k, i);
    }
  }

  /** A long-name entry: its group is the current one, or begins here. */
  lemma ScanLfn(slots: seq<Slot>, base: nat, end: nat, live: Files, i: nat, islfn: bool, cur: nat, checksum: Byte,
                buf: seq<Byte>)
    returns (k: nat)
    requires WellFormed(slots, base, end, live) && i < end && slots[i].first != UNUSED && slots[i].attr % 16 != 0
    requires Scan(slots, base, live, i, islfn, cur, checksum, buf)
    ensures k in live && i < k < end && InGroup(live, k, i) && slots[i].first % 32 == k - i && k - i <= 19
    ensures |ShortName(slots[k])| == 11
    ensures Sized(slots[i]) && slots[i].sum == Checksum(ShortName(slots[k]))
    ensures if islfn then checksum == Checksum(ShortName(slots[k])) && Filled(buf, live[k], k - i)
              else i == k - Parts(live[k])
  {
    hide Checksum, Decimal, LfnSlot, IsGroup;
    Classify(slots, base, end, live, i);
    k :| InGroup(live, k, i);
    GroupSlot(slots, base, end, live, k, i);
    GroupSlot(slots, base, end, live, k, k);
    assert InGroup(live, k, k);
    assert islfn ==> InGroup(live, cur, i);
  }

  lemma ScanLfnStep(slots: seq<Slot>, base: nat, end: nat, live: Files, i: nat, k: nat, buf: seq<Byte>, buf': seq<Byte>)
    requires WellFormed(slots, base, end, live) && i < k && InGroup(live, k, i) && |buf| == |buf'| == 256
    requires i == k - Parts(live[k]) || Filled(buf, live[k], k - i)
    requires Sized(slots[i]) && forall p :: 0 <= p < 256 ==>
              buf'[p] ==
              if 13 * (k - i - 1) <= p < 13 * (k - i) then LfnChar(slots[i], p - 13 * (k - i - 1)) else buf[p]
    ensures Scan(slots, base, live, i + 1, true, k, Checksum(ShortName(slots[k])), buf')
    ensures Listing(live, i + 1) == Listing(live, i)
  {
    hide Checksum, Decimal, LfnSlot, IsGroup, LfnChar;
    GroupSlot(slots, base, end, live, k, i);
    FillStep(buf, buf', live[k], k - i, Checksum(ShortName(slots[k])));
    assert i in live ==> InGroup(live, i, i);
  }

  /** A short entry: "." or "..", or the end of the current group. */
  lemma ScanShort(slots: seq<Slot>, base: nat, end: nat, live: Files, i: nat, islfn: bool, cur: nat, checksum: Byte,
                  buf: seq<Byte>)
    requires WellFormed(slots, base, end, live) && i < end && slots[i].first != UNUSED && slots[i].attr % 16 == 0
    requires Scan(slots, base, live, i, islfn, cur, checksum, buf)
    ensures |ShortName(slots[i])| == 11
    ensures if islfn then i >= base && cur == i && i in live
              else i < base <= 2 && i !in live && ShortName(slots[i]) == Dots(i + 1)
  {
    hide Checksum, Decimal, LfnSlot, IsGroup;
    Classify(slots, base, end, live, i);
    assert islfn ==> InGroup(live, cur, i);
    if i >= base {
      var k :| InGroup(live, k, i);
      GroupSlot(slots, base, end, live, k, i);
    }
  }

  lemma ScanShortStep(slots: seq<Slot>, base: nat, end: nat, live: Files, i: nat, islfn: bool, cur: nat, checksum: Byte,
                      buf: seq<Byte>, buf': seq<Byte>)
    requires WellFormed(slots, base, end, live) && i < end && slots[i].first != UNUSED && slots[i].attr % 16 == 0
    requires Scan(slots, base, live, i, islfn, cur, checksum, buf) && |buf'| == 256
    requires if islfn then i >= base && cur == i && i in live && buf' == buf else i < base && i !in live
    requires !islfn ==> forall p :: 0 <= p < 256 ==> buf'[p] == if p < i + 1 then DOT else buf[p]
    ensures Scan(slots, base, live, i + 1, false, cur, checksum, buf')
    ensures Listing(live, i + 1) == Listing(live, i) + if IsDotName(CString(buf')) then [] else [(CString(buf'), i)]
  {
    hide Checksum, Decimal, LfnSlot, IsGroup;
    if islfn {
      CStringIs(buf', live[i]);
    } else {
      DotString(buf', i + 1);
    }
  }

  // ----- the directory

  class Directory {
    var slots: seq<Slot>
    const base: nat        // 2 in a subdirectory, which begins with "." and ".."; 0 in the root
    const perCluster: nat  // slots per cluster
    ghost var end: nat
    ghost var live: Files

    ghost predicate Valid()
      reads this
    {
      perCluster > 0 && WellFormed(slots, base, end, live)
    }

    /** A directory that starts with an end mark, after "." and ".." if it has them, holds no files. */
    constructor (initial: seq<Slot>, first: nat, clusterSlots: nat)
      requires first <= 2 && first < |initial| && initial[first].first == 0 && clusterSlots > 0
      requires forall i :: 0 <= i < first ==> IsDot(initial[i], i)
      ensures Valid() && live == map[] && slots == initial && base == first && perCluster == clusterSlots
    {
      slots, base, perCluster := initial, first, clusterSlots;
      end, live := first, map[];
      new;
      forall i | 0 <= i < first ensures initial[i].first == DOT {
        assert ShortName(initial[i])[0] == Dots(i + 1)[0];
      }
    }

    /** Looks for `needed` unused slots in a row, or else for the end of the directory. */
    method FindRoom(needed: nat) returns (d: nat, atEnd: bool, buffer: Slot)
      requires Valid() && needed >= 1
      ensures Room(slots, end, d, needed) && (atEnd <==> end <= d)
      ensures needed <= d + 1 && FirstVacant(slots, end, d + 1 - needed, needed)
      ensures atEnd ==> buffer == slots[end] && buffer.first == 0
    {
      var found := 0;
      d, atEnd, buffer := 0, false, ZeroSlot();
      while d < |slots|
        invariant d <= end && found <= d && found < needed && !atEnd
        invariant forall i :: d - found <= i < d ==> slots[i].first == UNUSED
        invariant d == found || slots[d - found - 1].first != UNUSED
        invariant forall q: nat :: q < d - found ==> !Vacant(slots, end, q, needed)
      {
        buffer := slots[d];
        if buffer.first == 0 {
          d := d + (needed - found - 1);
          atEnd := true;
          break;
        }
        if buffer.first == UNUSED {
          found := found + 1;
          if found == needed {
            break;
          }
        } else {
          forall q: nat | q < d + 1 ensures !Vacant(slots, end, q, needed) {
            if q >= d - found {
              UsedInside(slots, end, q, needed, d);
            }
          }
          found := 0;
        }
        d := d + 1;
      }
    }

    /** Writes one slot; past the last cluster the directory grows by zeroed clusters, if it can. */
    method WriteSlot(i: nat, s: Slot, growOk: bool) returns (ok: bool)
      requires perCluster > 0
      modifies `slots
      ensures !ok <==> i >= |old(slots)| && !growOk
      ensures !ok ==> slots == old(slots)
      ensures ok ==> |slots| >= |old(slots)| && i < |slots| && slots[i] == s
      ensures ok ==> forall j :: 0 <= j < |old(slots)| && j != i ==> slots[j] == old(slots)[j]
      ensures i < |old(slots)| ==> |slots| == |old(slots)|
    {
      if i >= |slots| {
        if !growOk {
          return false;
        }
        var size := (i / perCluster + 1) * perCluster;
        assert size > i by { assert size == i - i % perCluster + perCluster; }
        slots := slots + seq(size - |slots|, _ => ZeroSlot());
      }
      slots := slots[i := s];
      ok := true;
    }

    /**
      Adds an entry called `name` and returns its slot. Only unused slots and slots past the end are
      written, at the first place that is vacant; the call fails exactly when no place with an end mark behind it
      lies inside the directory, which cannot grow, and then changes nothing.
     */
    method InsertDent(entry: Slot, name: Name, growOk: bool) returns (ret: int)
      requires Valid() && ValidName(name) && Sized(entry) && (entry.attr == 0 || entry.attr == ATTR_DIR)
      modifies `slots, `live, `end
      ensures Valid()
      ensures ret == -1 ==> slots == old(slots) && live == old(live)
      ensures ret == -1 <==> !growOk && !HasPlace(old(slots), old(end), Parts(name) + 1)
      ensures ret != -1 ==>
                ret >= Parts(name) && FirstVacant(old(slots), old(end), ret - Parts(name), Parts(name) + 1)
      ensures ret != -1 ==> 0 <= ret < |slots| && ret !in old(live) && live == old(live)[ret := name]
      ensures ret != -1 ==> slots[ret] == entry.(first := Decimal(ret, 11)[0], b1 := Decimal(ret, 11)[1..])
      ensures ret != -1 ==> forall k :: k in old(live) ==> 0 <= k < |slots| && slots[k] == old(slots[k])
    {
      hide WellFormed, LfnSlot, Decimal, Checksum, FirstVacant, Vacant, HasPlace;
      var entriesneeded := 2 + |name| / 13;
      var d, atEnd, buffer := FindRoom(entriesneeded);
      PlaceInside(slots, end, d, entriesneeded);
      if atEnd {
        // write the new end of the directory
        var ok := WriteSlot(d + 1, buffer, growOk);
        if !ok {
          return -1;
        }
      }
      ret := d;
      ghost var grown := slots;
      var digits := Decimal(d, 11);
      var sh := entry.(first := digits[0], b1 := digits[1..]);
      assert ShortName(sh) == digits;
      slots := slots[d := sh];
      var checksum := LfnChecksum(ShortName(sh));
      var i := 1;
      while i < entriesneeded
        invariant 1 <= i <= entriesneeded && |slots| == |grown| && live == old(live) && end == old(end)
        invariant forall j :: 0 <= j < |slots| ==>
                    slots[j] == if j > d - i then Placed(grown, d, name, sh)[j] else grown[j]
      {
        var ent := MakeLfn(name, i, entriesneeded, checksum);
        slots := slots[d - i := ent];
        i := i + 1;
      }
      forall j | 0 <= j < |slots| ensures slots[j] == Placed(grown, d, name, sh)[j] {
        if j <= d - i {
          assert i == 1 + Parts(name) && !(d - Parts(name) <= j);
          assert Placed(grown, d, name, sh)[j] == grown[j];
        }
      }
      assert slots == Placed(grown, d, name, sh);
      PlacedWellFormed(old(slots), base, end, live, d, name, sh, grown);
      end := if d < end then end else d + 1;
      live := live[d := name];
    }

    /** Drops the file whose short entry is slot `k`: marks exactly its own slots as unused or as the end. */
    method EraseDent(k: nat)
      requires Valid() && k in live
      modifies `slots, `live, `end
      ensures Valid() && live == old(live) - {k} && |slots| == |old(slots)|
      ensures forall i :: 0 <= i < |slots| && !InGroup(old(live), k, i) ==> slots[i] == old(slots)[i]
    {
      hide LfnSlot, Decimal, Checksum, WellFormed;
      GroupAt(slots, base, end, live, k);
      var byte := if slots[k + 1].first == 0 then 0 else UNUSED;
      ghost var was, lo := slots, k - Parts(live[k]);
      slots := slots[k := slots[k].(first := byte)];
      var offset := k;
      while offset > 0
        invariant lo <= offset <= k && |slots| == |was| && live == old(live) && end == old(end)
        invariant forall i :: 0 <= i < |slots| ==>
                    slots[i] == if offset <= i <= k then was[i].(first := byte) else was[i]
      {
        if slots[offset - 1].attr != ATTR_LFN {
          break;
        }
        offset := offset - 1;
        slots := slots[offset := slots[offset].(first := byte)];
      }
      assert slots == Erased(was, lo, k, byte);
      ErasedWellFormed(was, base, end, live, k);
      end := if byte == 0 then lo else end;
      live := live - {k};
    }

    /** Rebuilds the list of files from the slots alone. It never aborts and lists exactly the live files. */
    method Populate() returns (out: seq<(Name, nat)>, complete: bool)
      requires Valid()
      ensures complete && out == Listing(live, |slots|)
    {
      hide WellFormed, Scan, Listing, LfnSlot;
      var namebuffer := new Byte[256](_ => 0);
      out, complete := [], true;
      var islfn, checksum, i := false, 0, 0;
      ghost var cur: nat := 0;
      ScanStart(slots, base, end, live, namebuffer[..]);
      while i < |slots|
        invariant i <= end < |slots| && complete && out == Listing(live, i)
        invariant Scan(slots, base, live, i, islfn, cur, checksum, namebuffer[..])
      {
        var entry := slots[i];
        ScanSlot(slots, base, end, live, i);
        if entry.first == 0 {
          break;
        }
        if entry.first == UNUSED {
          ScanUnused(slots, base, end, live, i, islfn, cur, checksum, namebuffer[..]);
          i := i + 1;
          continue;
        }
        if entry.attr % 16 != 0 {
          ghost var was := namebuffer[..];
          var order := entry.first % 32;
          cur := ScanLfn(slots, base, end, live, i, islfn, cur, checksum, was);
          if !islfn {
            checksum := LfnChecksum(ShortName(slots[i + order]));
            islfn := true;
          } else if entry.sum != checksum {
            complete := false;
            break;
          }
          CopyLfnToString(entry, namebuffer, (order - 1) * 13);
          ScanLfnStep(slots, base, end, live, i, cur, was, namebuffer[..]);
          i := i + 1;
          continue;
        }
        ghost var before := namebuffer[..];
        ScanShort(slots, base, end, live, i, islfn, cur, checksum, before);
        if !islfn {
          CopyShortName(ShortName(entry), namebuffer);
        }
        ScanShortStep(slots, base, end, live, i, islfn, cur, checksum, before, namebuffer[..]);
        islfn := false;
        var name := CString(namebuffer[..]);
        if !IsDotName(name) {
          out := out + [(name, i)];
        }
        i := i + 1;
      }
      ScanEnd(slots, base, end, live);
    }
  }
}
