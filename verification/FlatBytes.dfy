/**
 Little-endian integers in byte sequences, and the accessors by which a reader follows
 offsets, vtables and vectors.  Bytes outside the buffer read as 0, as an undefined array
 element does in the bit operations of the original.
 */
module FlatBytes {
  import opened Common

  const SIZEOF_INT := 4

  // Two's complement

  function Signed16(u: int): int {
    if u < 0x8000 then u else u - 0x1_0000
  }

  function Signed32(u: int): int {
    if u < 0x8000_0000 then u else u - 0x1_0000_0000
  }

  function ToInt16(v: int): int {
    Signed16(v % 0x1_0000)
  }

  // Writing: a byte array keeps the lowest eight bits of what is stored

  function Int16Bytes(v: int): (bytes: seq<Byte>)
    ensures |bytes| == 2
  {
    [v % 0x100, v / 0x100 % 0x100]
  }

  function Int32Bytes(v: int): (bytes: seq<Byte>)
    ensures |bytes| == 4
  {
    [v % 0x100, v / 0x100 % 0x100, v / 0x1_0000 % 0x100, v / 0x100_0000 % 0x100]
  }

  // Reading

  function ByteAt(b: seq<Byte>, i: int): Byte {
    if 0 <= i < |b| then b[i] else 0
  }

  function ReadInt16(b: seq<Byte>, i: int): int {
    Signed16(ByteAt(b, i) + 0x100 * ByteAt(b, i + 1))
  }

  function ReadInt32(b: seq<Byte>, i: int): int {
    Signed32(ByteAt(b, i) + 0x100 * ByteAt(b, i + 1) + 0x1_0000 * ByteAt(b, i + 2) + 0x100_0000 * ByteAt(b, i + 3))
  }

  /** The offset of a field in the table at `pos`, or 0 if the field is not present. */
  function FieldOffset(b: seq<Byte>, pos: int, vtableOffset: int): int {
    var vtable := pos - ReadInt32(b, pos);
    if vtableOffset < ReadInt16(b, vtable) then ReadInt16(b, vtable + vtableOffset) else 0
  }

  function Indirect(b: seq<Byte>, pos: int): int {
    pos + ReadInt32(b, pos)
  }

  function VectorStart(b: seq<Byte>, pos: int): int {
    pos + ReadInt32(b, pos) + SIZEOF_INT
  }

  function VectorLength(b: seq<Byte>, pos: int): int {
    ReadInt32(b, pos + ReadInt32(b, pos))
  }

  lemma LowBytes(v: int)
    ensures v % 0x100 + 0x100 * (v / 0x100 % 0x100) == v % 0x1_0000
    ensures v / 0x1_0000 == v / 0x100 / 0x100
  {}

  lemma AllBytes(v: int)
    ensures v % 0x100 + 0x100 * (v / 0x100 % 0x100) + 0x1_0000 * (v / 0x1_0000 % 0x100)
      + 0x100_0000 * (v / 0x100_0000 % 0x100) == v % 0x1_0000_0000
  {
    LowBytes(v);
    LowBytes(v / 0x1_0000);
    assert v / 0x1_0000 / 0x100 == v / 0x100_0000;
    assert v % 0x1_0000 + 0x1_0000 * (v / 0x1_0000 % 0x1_0000) == v % 0x1_0000_0000;
  }

  lemma ReadInt16Bytes(b: seq<Byte>, i: int, v: int)
    requires 0 <= i && i + 2 <= |b| && b[i..i + 2] == Int16Bytes(v)
    ensures ReadInt16(b, i) == ToInt16(v)
  {
    var s := b[i..i + 2];
    assert b[i] == s[0] && b[i + 1] == s[1];
    LowBytes(v);
  }

  lemma ReadInt32Bytes(b: seq<Byte>, i: int, v: int)
    requires 0 <= i && i + 4 <= |b| && b[i..i + 4] == Int32Bytes(v)
    ensures ReadInt32(b, i) == ToInt32(v)
  {
    var s := b[i..i + 4];
    assert b[i] == s[0] && b[i + 1] == s[1] && b[i + 2] == s[2] && b[i + 3] == s[3];
    AllBytes(v);
  }

  /** Bytes that are not there read as 0. */
  lemma ReadsZeroOutside(b: seq<Byte>, i: int)
    requires i >= |b| || i + 4 <= 0
    ensures ReadInt16(b, i) == ReadInt32(b, i) == 0
  {}

  function Digits(b: seq<Byte>): int {
    if b == [] then 0 else b[0] + 0x100 * Digits(b[1..])
  }

  lemma DigitsOf(b: seq<Byte>)
    ensures |b| == 2 ==> Digits(b) == b[0] as int + 0x100 * b[1] as int
    ensures |b| == 4 ==>
              Digits(b) == b[0] as int + 0x100 * b[1] as int + 0x1_0000 * b[2] as int + 0x100_0000 * b[3] as int
  {
    if |b| == 4 {
      assert Digits(b[2..]) == b[2] as int + 0x100 * Digits(b[2..][1..]) && b[2..][1..] == b[3..];
      assert Digits(b[1..]) == b[1] as int + 0x100 * Digits(b[1..][1..]) && b[1..][1..] == b[2..];
      assert Digits(b[3..]) == b[3] as int + 0x100 * Digits(b[3..][1..]) && b[3..][1..] == [];
    } else if |b| == 2 {
      assert Digits(b[1..]) == b[1] as int + 0x100 * Digits(b[1..][1..]) && b[1..][1..] == [];
    }
  }

  /** The lowest byte comes first. */
  lemma LowestByteFirst(v: int)
    ensures Digits(Int16Bytes(v)) == v % 0x1_0000 && Digits(Int32Bytes(v)) == v % 0x1_0000_0000
  {
    DigitsOf(Int16Bytes(v));
    DigitsOf(Int32Bytes(v));
    LowBytes(v);
    AllBytes(v);
  }

  /** Readers take the lowest byte first, and the highest bit for the sign. */
  lemma ReadsLowestByteFirst(b: seq<Byte>, i: nat)
    ensures i + 2 <= |b| ==> ReadInt16(b, i) == Digits(b[i..i + 2]) - if b[i + 1] >= 0x80 then 0x1_0000 else 0
    ensures i + 4 <= |b| ==> ReadInt32(b, i) == Digits(b[i..i + 4]) - if b[i + 3] >= 0x80 then 0x1_0000_0000 else 0
  {
    if i + 2 <= |b| {
      DigitsOf(b[i..i + 2]);
    }
    if i + 4 <= |b| {
      DigitsOf(b[i..i + 4]);
    }
  }

  lemma SmallInt32(v: int)
    requires -0x8000_0000 <= v < 0x8000_0000
    ensures ToInt32(v) == v
  {}

  /** A small integer behind some other bytes. */
  lemma ReadWord(front: seq<Byte>, v: int, rest: seq<Byte>)
    requires -0x8000_0000 <= v < 0x8000_0000
    ensures ReadInt32(front + (Int32Bytes(v) + rest), |front|) == v
  {
    var b := front + (Int32Bytes(v) + rest);
    assert b[|front|..|front| + 4] == Int32Bytes(v);
    ReadInt32Bytes(b, |front|, v);
    SmallInt32(v);
  }

  lemma ReadFirstWord(v: int, rest: seq<Byte>)
    requires -0x8000_0000 <= v < 0x8000_0000
    ensures ReadInt32(Int32Bytes(v) + rest, 0) == v
  {
    ReadInt32Bytes(Int32Bytes(v) + rest, 0, v);
    SmallInt32(v);
  }

  /** Two bytes are determined by the signed integer they read as. */
  lemma SameInt16SameBytes(b: seq<Byte>, i: int, j: int)
    requires ReadInt16(b, i) == ReadInt16(b, j)
    ensures ByteAt(b, i) == ByteAt(b, j) && ByteAt(b, i + 1) == ByteAt(b, j + 1)
  {}

  // Buffers grow at the front

  /** `d` is what `d'` ends with. */
  predicate Extends(d: seq<Byte>, d': seq<Byte>) {
    |d| <= |d'| && d'[|d'| - |d|..] == d
  }

  lemma ExtendsTransitive(d: seq<Byte>, d': seq<Byte>, d'': seq<Byte>)
    requires Extends(d, d') && Extends(d', d'')
    ensures Extends(d, d'')
  {
    assert d''[|d''| - |d|..] == d''[|d''| - |d'|..][|d'| - |d|..];
  }

  lemma ExtendsItself(d: seq<Byte>)
    ensures Extends(d, d)
  {}

  lemma PrependExtends(front: seq<Byte>, d: seq<Byte>)
    ensures Extends(d, front + d)
  {}

  lemma ByteStays(d: seq<Byte>, d': seq<Byte>, i: int)
    requires Extends(d, d') && i >= 0
    ensures ByteAt(d', |d'| - |d| + i) == ByteAt(d, i)
  {
    if i < |d| {
      assert d'[|d'| - |d|..][i] == d[i];
    }
  }

  lemma IntStays(d: seq<Byte>, d': seq<Byte>, i: int)
    requires Extends(d, d') && i >= 0
    ensures ReadInt16(d', |d'| - |d| + i) == ReadInt16(d, i)
    ensures ReadInt32(d', |d'| - |d| + i) == ReadInt32(d, i)
  {
    ByteStays(d, d', i);
    ByteStays(d, d', i + 1);
    ByteStays(d, d', i + 2);
    ByteStays(d, d', i + 3);
  }

  /**
   A table is located by its distance from the end of the buffer, so what a reader finds in
   it stays the same whatever is built in front of it, as long as its vtable lies in the buffer.
   */
  lemma FieldStays(d: seq<Byte>, d': seq<Byte>, table: nat, vtableOffset: nat)
    requires Extends(d, d') && table <= |d|
    requires |d| - table - ReadInt32(d, |d| - table) >= 0
    ensures FieldOffset(d', |d'| - table, vtableOffset) == FieldOffset(d, |d| - table, vtableOffset)
  {
    var pos := |d| - table;
    IntStays(d, d', pos);
    var vtable := pos - ReadInt32(d, pos);
    IntStays(d, d', vtable);
    IntStays(d, d', vtable + vtableOffset);
  }

  /** References, too, resolve to the same distance from the end. */
  lemma IndirectStays(d: seq<Byte>, d': seq<Byte>, ref: nat)
    requires Extends(d, d') && ref <= |d|
    ensures |d'| - Indirect(d', |d'| - ref) == |d| - Indirect(d, |d| - ref)
  {
    IntStays(d, d', |d| - ref);
  }
}
