/** Byte-addressed memory with little-endian 64-bit words. */
module ByteMemory {

  type Byte = int
  type Memory = seq<Byte>

  const WORD_LIMIT: int := 0x1_0000_0000_0000_0000

  function Digit(v: nat, k: nat): Byte {
    if k == 0 then v % 256
    else if k == 1 then v / 0x100 % 256
    else if k == 2 then v / 0x1_0000 % 256
    else if k == 3 then v / 0x100_0000 % 256
    else if k == 4 then v / 0x1_0000_0000 % 256
    else if k == 5 then v / 0x100_0000_0000 % 256
    else if k == 6 then v / 0x1_0000_0000_0000 % 256
    else v / 0x100_0000_0000_0000 % 256
  }

  function Load(m: Memory, a: nat): int
    requires a + 8 <= |m|
  {
    m[a] + 0x100 * m[a + 1] + 0x1_0000 * m[a + 2] + 0x100_0000 * m[a + 3] + 0x1_0000_0000 * m[a + 4]
    + 0x100_0000_0000 * m[a + 5] + 0x1_0000_0000_0000 * m[a + 6] + 0x100_0000_0000_0000 * m[a + 7]
  }

  function Store(m: Memory, a: nat, v: nat): (r: Memory)
    requires a + 8 <= |m|
    ensures |r| == |m| && forall i :: 0 <= i < |m| ==> r[i] == if a <= i < a + 8 then Digit(v, i - a) else m[i]
  {
    seq(|m|, i requires 0 <= i < |m| => if a <= i < a + 8 then Digit(v, i - a) else m[i])
  }

  function Fill(m: Memory, a: nat, n: nat): (r: Memory)
    requires a + n <= |m|
    ensures |r| == |m| && forall i :: 0 <= i < |m| ==> r[i] == if a <= i < a + n then 0 else m[i]
  {
    seq(|m|, i requires 0 <= i < |m| => if a <= i < a + n then 0 else m[i])
  }

  function Copy(m: Memory, dst: nat, src: nat, n: nat): (r: Memory)
    requires dst + n <= |m| && src + n <= |m|
    ensures |r| == |m| && forall i :: 0 <= i < |m| ==> r[i] == if dst <= i < dst + n then m[src + (i - dst)] else m[i]
  {
    seq(|m|, i requires 0 <= i < |m| => if dst <= i < dst + n then m[src + (i - dst)] else m[i])
  }

  function Put(m: Memory, a: nat, bytes: seq<Byte>): (r: Memory)
    requires a + |bytes| <= |m|
    ensures |r| == |m| && forall i :: 0 <= i < |m| ==> r[i] == if a <= i < a + |bytes| then bytes[i - a] else m[i]
  {
    seq(|m|, i requires 0 <= i < |m| => if a <= i < a + |bytes| then bytes[i - a] else m[i])
  }

  lemma Digits(v: nat)
    requires v < WORD_LIMIT
    ensures v == Digit(v, 0) + 0x100 * Digit(v, 1) + 0x1_0000 * Digit(v, 2) + 0x100_0000 * Digit(v, 3)
                 + 0x1_0000_0000 * Digit(v, 4) + 0x100_0000_0000 * Digit(v, 5)
                 + 0x1_0000_0000_0000 * Digit(v, 6) + 0x100_0000_0000_0000 * Digit(v, 7)
  {
    var q1 := v / 0x100;
    var q2 := q1 / 0x100;
    var q3 := q2 / 0x100;
    var q4 := q3 / 0x100;
    var q5 := q4 / 0x100;
    var q6 := q5 / 0x100;
    var q7 := q6 / 0x100;
    assert q2 == v / 0x1_0000;
    assert q3 == v / 0x100_0000;
    assert q4 == v / 0x1_0000_0000;
    assert q5 == v / 0x100_0000_0000;
    assert q6 == v / 0x1_0000_0000_0000;
    assert q7 == v / 0x100_0000_0000_0000;
    assert q7 < 256;
  }

  /** A word reads back as it was stored. */
  lemma LoadStore(m: Memory, a: nat, v: nat)
    requires a + 8 <= |m| && v < WORD_LIMIT
    ensures Load(Store(m, a, v), a) == v
  {
    hide Digit;
    Digits(v);
    var r := Store(m, a, v);
    assert r[a] == Digit(v, 0) && r[a + 1] == Digit(v, 1) && r[a + 2] == Digit(v, 2) && r[a + 3] == Digit(v, 3);
    assert r[a + 4] == Digit(v, 4) && r[a + 5] == Digit(v, 5) && r[a + 6] == Digit(v, 6) && r[a + 7] == Digit(v, 7);
  }

  /** A word depends on its eight bytes only. */
  lemma LoadSame(m: Memory, n: Memory, a: nat)
    requires |m| == |n| && a + 8 <= |m| && forall i :: a <= i < a + 8 ==> m[i] == n[i]
    ensures Load(m, a) == Load(n, a)
  {
  }
}
