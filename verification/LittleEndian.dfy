/** Bytes, and the little-endian integers that the archive and the object header are made of. */
module LittleEndian {
  type Byte = b: int | 0 <= b < 0x100

  type Bytes = seq<Byte>

  type Half = h: int | 0 <= h < 0x1_0000

  type Word = w: int | 0 <= w < 0x1_0000_0000

  // A value wider than its field is cut to it, as the casts in the source do.
  function Put16(v: nat): Bytes
    ensures |Put16(v)| == 2
  {
    [v % 0x100, v / 0x100 % 0x100]
  }

  function Put32(v: nat): Bytes
    ensures |Put32(v)| == 4
  {
    Put16(v % 0x1_0000) + Put16(v / 0x1_0000)
  }

  function Put64(v: nat): Bytes
    ensures |Put64(v)| == 8
  {
    Put32(v % 0x1_0000_0000) + Put32(v / 0x1_0000_0000)
  }

  function Get16(s: Bytes, at: nat): Half
    requires at + 2 <= |s|
  {
    (s[at] as int) + (s[at + 1] as int) * 0x100
  }

  function Get32(s: Bytes, at: nat): Word
    requires at + 4 <= |s|
  {
    (Get16(s, at) as int) + (Get16(s, at + 2) as int) * 0x1_0000
  }

  function Get64(s: Bytes, at: nat): (v: nat)
    requires at + 8 <= |s|
    ensures v < 0x1_0000_0000_0000_0000
  {
    (Get32(s, at) as int) + (Get32(s, at + 4) as int) * 0x1_0000_0000
  }

  lemma Get16Put16(s: Bytes, at: nat, v: nat)
    requires at + 2 <= |s| && v < 0x1_0000
    requires s[at] == Put16(v)[0] && s[at + 1] == Put16(v)[1]
    ensures Get16(s, at) == v
  {
  }

  lemma Get32Put32(s: Bytes, at: nat, v: nat)
    requires at + 4 <= |s| && v < 0x1_0000_0000
    requires s[at] == Put32(v)[0] && s[at + 1] == Put32(v)[1] && s[at + 2] == Put32(v)[2] && s[at + 3] == Put32(v)[3]
    ensures Get32(s, at) == v
  {
    Get16Put16(s, at, v % 0x1_0000);
    Get16Put16(s, at + 2, v / 0x1_0000);
  }

  lemma Get64Put64(s: Bytes, at: nat, v: nat)
    requires at + 8 <= |s| && v < 0x1_0000_0000_0000_0000
    requires s[at] == Put64(v)[0] && s[at + 1] == Put64(v)[1] && s[at + 2] == Put64(v)[2] && s[at + 3] == Put64(v)[3]
    requires s[at + 4] == Put64(v)[4] && s[at + 5] == Put64(v)[5] && s[at + 6] == Put64(v)[6]
    requires s[at + 7] == Put64(v)[7]
    ensures Get64(s, at) == v
  {
    Get32Put32(s, at, v % 0x1_0000_0000);
    Get32Put32(s, at + 4, v / 0x1_0000_0000);
  }

  /** A part of a part lies in the whole. */
  lemma Slice(file: Bytes, at: nat, whole: Bytes, i: nat, j: nat)
    requires at + |whole| <= |file| && file[at..at + |whole|] == whole && i <= j <= |whole|
    ensures file[at + i..at + j] == whole[i..j]
  {
    forall k | i <= k < j ensures file[at + k] == whole[k] {
      assert file[at..at + |whole|][k] == whole[k];
    }
  }

  // ---------- the bytes themselves ----------

  /** The least significant byte comes first. */
  lemma PutBytes(v: nat)
    ensures Put16(v) == [v % 0x100, v / 0x100 % 0x100]
    ensures Put32(v) == [v % 0x100, v / 0x100 % 0x100, v / 0x1_0000 % 0x100, v / 0x100_0000 % 0x100]
    ensures Put64(v)
         == [v % 0x100, v / 0x100 % 0x100, v / 0x1_0000 % 0x100, v / 0x100_0000 % 0x100, v / 0x1_0000_0000 % 0x100,
             v / 0x100_0000_0000 % 0x100, v / 0x1_0000_0000_0000 % 0x100, v / 0x100_0000_0000_0000 % 0x100]
  {
    Put32Bytes(v);
    var low, high := v % 0x1_0000_0000, v / 0x1_0000_0000;
    Put32Bytes(low);
    Put32Bytes(high);
    LowBytes(v);
    HighBytes(v);
  }

  lemma Put32Bytes(v: nat)
    ensures Put32(v) == [v % 0x100, v / 0x100 % 0x100, v / 0x1_0000 % 0x100, v / 0x100_0000 % 0x100]
  {
    assert v % 0x1_0000 % 0x100 == v % 0x100;
    assert v % 0x1_0000 / 0x100 % 0x100 == v / 0x100 % 0x100;
    assert v / 0x1_0000 / 0x100 == v / 0x100_0000;
  }

  lemma LowBytes(v: nat)
    ensures var low := v % 0x1_0000_0000;
            && low % 0x100 == v % 0x100 && low / 0x100 % 0x100 == v / 0x100 % 0x100
            && low / 0x1_0000 % 0x100 == v / 0x1_0000 % 0x100 && low / 0x100_0000 % 0x100 == v / 0x100_0000 % 0x100
  {
    var low, high := v % 0x1_0000_0000, v / 0x1_0000_0000;
    assert v == low + 0x1_0000_0000 * high;
    assert v / 0x100 == low / 0x100 + 0x100_0000 * high;
    assert v / 0x1_0000 == low / 0x1_0000 + 0x1_0000 * high;
    assert v / 0x100_0000 == low / 0x100_0000 + 0x100 * high;
    Byte0(low, 0x100_0000 * high);
    Byte0(low / 0x100, 0x1_0000 * high);
    Byte0(low / 0x1_0000, 0x100 * high);
    Byte0(low / 0x100_0000, high);
  }

  lemma Byte0(x: nat, q: nat)
    ensures (x + 0x100 * q) % 0x100 == x % 0x100
  {
  }

  lemma HighBytes(v: nat)
    ensures var high := v / 0x1_0000_0000;
            && high / 0x100 == v / 0x100_0000_0000 && high / 0x1_0000 == v / 0x1_0000_0000_0000
            && high / 0x100_0000 == v / 0x100_0000_0000_0000
  {
  }

  lemma GetBytes(s: Bytes, at: nat)
    ensures at + 2 <= |s| ==> Get16(s, at) == Place(s, at, 1) + Place(s, at + 1, 0x100)
    ensures at + 4 <= |s| ==>
              Get32(s, at) == Place(s, at, 1) + Place(s, at + 1, 0x100) + Place(s, at + 2, 0x1_0000)
                              + Place(s, at + 3, 0x100_0000)
    ensures at + 8 <= |s| ==>
              Get64(s, at) == Place(s, at, 1) + Place(s, at + 1, 0x100) + Place(s, at + 2, 0x1_0000)
                              + Place(s, at + 3, 0x100_0000) + Place(s, at + 4, 0x1_0000_0000)
                              + Place(s, at + 5, 0x100_0000_0000) + Place(s, at + 6, 0x1_0000_0000_0000)
                              + Place(s, at + 7, 0x100_0000_0000_0000)
  {
  }

  function Place(s: Bytes, at: nat, weight: nat): int
    requires at < |s|
  {
    (s[at] as int) * weight
  }
}
