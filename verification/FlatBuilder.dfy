/**
 The FlatBuffer builder: a byte buffer that is written from its end to its start, doubles
 when it is full, and shares equal vtables between objects.
 */
module FlatBuilder {
  import opened Common
  import opened FlatBytes
  import Utf

  /** An operation either completes or throws. */
  datatype Status = Ok | Thrown {
    predicate IsFailure() {
      Thrown?
    }

    function PropagateFailure(): Status
      requires IsFailure()
    {
      Thrown
    }
  }

  const FILE_IDENTIFIER_LENGTH := 4
  const SIZE_PREFIX_LENGTH := 4

  /** A buffer of a gigabyte does not grow any more. */
  const FULL := 0x4000_0000

  /** The size that a buffer gets to by doubling. */
  function MaxCapacity(size: nat): (max: nat)
    requires size > 0
    ensures max >= size && max >= FULL
    decreases FULL - size
  {
    if size >= FULL then size else MaxCapacity(2 * size)
  }

  ghost predicate PowerOfTwo(n: nat) {
    n == 1 || (n > 1 && n % 2 == 0 && PowerOfTwo(n / 2))
  }

  lemma SmallPowers()
    ensures PowerOfTwo(1) && PowerOfTwo(2) && PowerOfTwo(4) && PowerOfTwo(8)
  {
    assert PowerOfTwo(1) && PowerOfTwo(2) && PowerOfTwo(4);
  }

  lemma PowersArePositive(n: nat)
    requires PowerOfTwo(n)
    ensures n > 0
  {}

  lemma MulAtLeast(a: nat, k: int)
    requires k >= 1
    ensures a * k >= a
  {}

  /** The rest of a division is the only number below the divisor that leaves a multiple. */
  lemma RestIsUnique(x: int, a: nat, q: int, r: nat)
    requires r < a && x == a * q + r
    ensures x % a == r
  {
    var q', r' := x / a, x % a;
    assert a * (q - q') == r' - r;
    if q > q' {
      MulAtLeast(a, q - q');
    } else if q < q' {
      MulAtLeast(a, q' - q);
    }
  }

  lemma {:induction false} SmallerPowerDivides(a: nat, b: nat) returns (q: nat)
    requires PowerOfTwo(a) && PowerOfTwo(b) && a <= b
    ensures b == a * q
  {
    if a == 1 {
      q := b;
    } else {
      q := SmallerPowerDivides(a / 2, b / 2);
      assert b == 2 * (b / 2) && a == 2 * (a / 2);
      assert a * q == 2 * ((a / 2) * q);
    }
  }

  lemma QuotientOf(x: int, b: nat) returns (r: int)
    requires b > 0 && x % b == 0
    ensures x == b * r
  {
    r := x / b;
  }

  lemma MulAssociative(a: int, b: int, c: int)
    ensures (a * b) * c == a * (b * c)
  {}

  lemma OneMoreZero(n: nat, d: seq<Byte>)
    ensures [0] + (Zeros(n) + d) == Zeros(n + 1) + d
  {}

  /** `(~x + 1) & (size - 1)`: what is missing from `x` to the next multiple of a power of two. */
  function Missing(x: nat, size: nat): (k: nat)
    requires size > 0
    ensures k < size
  {
    (-(x as int)) % size
  }

  predicate Aligned(x: int, alignment: nat) {
    alignment > 0 && x % alignment == 0
  }

  /** What is a multiple of an alignment is a multiple of every smaller one. */
  lemma SmallerAlignment(x: int, a: nat, b: nat)
    requires PowerOfTwo(a) && PowerOfTwo(b) && a <= b && Aligned(x, b)
    ensures Aligned(x, a)
  {
    var q := SmallerPowerDivides(a, b);
    var r := QuotientOf(x, b);
    MulAssociative(a, q, r);
    RestIsUnique(x, a, q * r, 0);
  }

  /** The padding after which `size` is aligned once `additional` more bytes are written. */
  function Padding(offset: nat, size: nat, additional: nat): nat
    requires size > 0
  {
    Missing(offset + additional, size)
  }

  lemma PaddingAligns(offset: nat, size: nat, additional: nat)
    requires size > 0
    ensures Aligned(offset + Padding(offset, size, additional) + additional, size)
  {
    var x := offset + additional;
    var y: int := -(x as int);
    var q := y / size;
    assert y == size * q + y % size;
    assert x + y % size == size * (-q) + 0;
    RestIsUnique(x + y % size, size, -q, 0);
  }

  // How much room is needed in between

  function Max(a: nat, b: nat): nat {
    if a > b then a else b
  }

  /** A table and its vtable of `n` slots, before the vtable may be dropped again. */
  function TableNeed(offset: nat, n: nat): nat {
    offset + Padding(offset, 4, 0) + 4 + 2 * n + 4
  }

  /** A vector, of which room is made for the length, and for one more element. */
  function VectorNeed(offset: nat, size: nat, alignment: nat): (need: nat)
    requires alignment > 0
    ensures need >= offset + 4 + size
  {
    var start := offset + Padding(offset, 4, size);
    Max(start + 4 + size, start + Padding(start, alignment, size) + alignment + size)
  }

  lemma BytesAreSmall(length: nat)
    ensures VectorSize(1, length) == length
  {}

  /** The number of bytes with the root in front of them. */
  function WithRoot(offset: nat, minalign: nat, prefix: nat): nat
    requires minalign > 0
  {
    var start := offset + Padding(offset, minalign, 4 + prefix);
    start + Padding(start, 4, 0) + 4
  }

  function RootNeed(offset: nat, minalign: nat, prefix: nat): nat
    requires minalign > 0
  {
    var start := offset + Padding(offset, minalign, 4 + prefix);
    Max(start + minalign + 4 + prefix, WithRoot(offset, minalign, prefix) + prefix)
  }

  function FinishNeed(offset: nat, minalign: nat, identified: bool, sizePrefix: bool): nat
    requires minalign > 0
  {
    var prefix := if sizePrefix then 4 else 0;
    if identified then
      RootNeed(offset + Padding(offset, minalign, 8 + prefix) + 4, minalign, prefix)
    else RootNeed(offset, minalign, prefix)
  }

  // Vtables: their size, the size of the object, and one field offset per slot

  /** Sizes are read as signed 16-bit numbers: a reader sees vtables of at most this many slots. */
  const MAX_FIELDS := 16381

  /** `d` holds `c`, starting `v` bytes before its end. */
  ghost predicate HoldsAt(d: seq<Byte>, v: nat, c: seq<Byte>) {
    |c| <= v <= |d| && d[|d| - v..|d| - v + |c|] == c
  }

  ghost predicate IsVtable(c: seq<Byte>) {
    4 <= |c| && c[..2] == Int16Bytes(|c|)
  }

  /** The vtables written so far are in the buffer. */
  ghost predicate VtablesStored(d: seq<Byte>, vtables: seq<nat>, contents: seq<seq<Byte>>) {
    && |vtables| == |contents|
    && forall i :: 0 <= i < |vtables| ==> IsVtable(contents[i]) && HoldsAt(d, vtables[i], contents[i])
  }

  /** No vtable that a reader sees in full is stored twice. */
  ghost predicate AllDifferent(contents: seq<seq<Byte>>) {
    forall i, j :: 0 <= i < j < |contents| && |contents[i]| < 0x8000 ==> contents[i] != contents[j]
  }

  lemma HoldsStill(d: seq<Byte>, d': seq<Byte>, v: nat, c: seq<Byte>)
    requires Extends(d, d') && HoldsAt(d, v, c)
    ensures HoldsAt(d', v, c)
  {
    SliceOfSlice(d', |d'| - |d|, |d|, |d| - v, |d| - v + |c|);
    assert d'[|d'| - |d|..|d'| - |d| + |d|] == d;
  }

  lemma VtablesStay(d: seq<Byte>, d': seq<Byte>, vtables: seq<nat>, contents: seq<seq<Byte>>)
    requires Extends(d, d') && VtablesStored(d, vtables, contents)
    ensures VtablesStored(d', vtables, contents)
  {
    forall i | 0 <= i < |vtables|
      ensures HoldsAt(d', vtables[i], contents[i])
    {
      HoldsStill(d, d', vtables[i], contents[i]);
    }
  }

  lemma ReadHeld(d: seq<Byte>, v: nat, c: seq<Byte>, i: nat)
    requires HoldsAt(d, v, c) && i + 2 <= |c|
    ensures ReadInt16(d, |d| - v + i) == ReadInt16(c, i)
  {
    var s := d[|d| - v..|d| - v + |c|];
    assert s[i] == d[|d| - v + i] && s[i + 1] == d[|d| - v + i + 1];
  }

  lemma VtableSize(c: seq<Byte>)
    requires IsVtable(c)
    ensures ReadInt16(c, 0) == ToInt16(|c|)
  {
    assert c[0..2] == c[..2];
    ReadInt16Bytes(c, 0, |c|);
  }

  /** The entries of a vtable for the slots from `i` to `n`: field offsets relative to the table. */
  ghost function Entries(slots: map<nat, nat>, table: nat, i: nat, n: nat): (e: seq<Byte>)
    requires i <= n && forall k :: i <= k < n ==> k in slots
    ensures |e| == 2 * (n - i)
    decreases n - i
  {
    if i == n then [] else Int16Bytes(EntryOf(slots, table, i)) + Entries(slots, table, i + 1, n)
  }

  function EntryOf(slots: map<nat, nat>, table: nat, i: nat): int
    requires i in slots
  {
    if slots[i] != 0 then table - slots[i] else 0
  }

  ghost function VtableBytes(slots: map<nat, nat>, table: nat, start: nat, n: nat): (v: seq<Byte>)
    requires forall k :: 0 <= k < n ==> k in slots
    ensures |v| == 4 + 2 * n
    ensures IsVtable(v)
  {
    Int16Bytes(4 + 2 * n) + (Int16Bytes(table - start) + Entries(slots, table, 0, n))
  }

  lemma {:induction false} EntryAt(slots: map<nat, nat>, table: nat, i: nat, n: nat, k: nat)
    requires i <= k < n && forall k :: i <= k < n ==> k in slots
    ensures Entries(slots, table, i, n)[2 * (k - i)..2 * (k - i) + 2] == Int16Bytes(EntryOf(slots, table, k))
    decreases n - i
  {
    if i < k {
      EntryAt(slots, table, i + 1, n, k);
      var rest := Entries(slots, table, i + 1, n);
      assert Entries(slots, table, i, n) == Int16Bytes(EntryOf(slots, table, i)) + rest;
      assert Entries(slots, table, i, n)[2 * (k - i)..2 * (k - i) + 2] == rest[2 * (k - i) - 2..2 * (k - i)];
    }
  }

  /** What a reader finds for slot `i` of the table that ends `table` bytes before the end. */
  function FieldOf(d: seq<Byte>, table: nat, i: nat): int {
    FieldOffset(d, |d| - table, 4 + 2 * i)
  }

  function VectorSize(elemSize: nat, numElems: nat): nat {
    elemSize * numElems
  }

  predicate IsSet(slots: map<nat, nat>, i: nat) {
    i in slots && slots[i] != 0
  }

  /** The number of slots up to the last one that was set. */
  function TrimmedLength(slots: map<nat, nat>, numFields: nat): (n: nat)
    ensures n <= numFields && (n > 0 ==> IsSet(slots, n - 1))
    ensures forall k :: n <= k < numFields ==> !IsSet(slots, k)
  {
    if numFields == 0 || IsSet(slots, numFields - 1) then numFields else TrimmedLength(slots, numFields - 1)
  }

  /** The size of the vtable, as a reader sees it, covers the slot. */
  predicate IsSeen(slots: map<nat, nat>, numFields: nat, i: nat) {
    4 + 2 * i < ToInt16(4 + 2 * TrimmedLength(slots, numFields))
  }

  /** All slots that were set are seen, exactly up to the greatest number of slots. */
  lemma AllSeenExactly(slots: map<nat, nat>, numFields: nat)
    ensures (forall i :: 0 <= i < numFields && IsSet(slots, i) ==> IsSeen(slots, numFields, i)) <==>
            TrimmedLength(slots, numFields) <= MAX_FIELDS
  {
    var n := TrimmedLength(slots, numFields);
    if n > MAX_FIELDS {
      assert IsSet(slots, n - 1) && !IsSeen(slots, numFields, n - 1);
    }
  }

  /** Exactly the slots that were set, and are seen, lead back to their fields. */
  ghost predicate FieldsStored(d: seq<Byte>, table: nat, slots: map<nat, nat>, numFields: nat) {
    forall i: nat :: FieldOf(d, table, i) == StoredField(table, slots, numFields, i)
  }

  ghost function StoredField(table: nat, slots: map<nat, nat>, numFields: nat, i: nat): int {
    if i < numFields && IsSet(slots, i) && IsSeen(slots, numFields, i) then ToInt16(table - slots[i]) else 0
  }

  ghost predicate IsTable(d: seq<Byte>, table: nat) {
    table <= |d| && table % 4 == 0 && 0 <= |d| - table - ReadInt32(d, |d| - table)
  }

  lemma OneMoreEntry(slots: map<nat, nat>, table: nat, i: nat, n: nat, d: seq<Byte>)
    requires i < n && forall k :: i <= k < n ==> k in slots
    ensures Int16Bytes(EntryOf(slots, table, i)) + (Entries(slots, table, i + 1, n) + d)
         == Entries(slots, table, i, n) + d
  {}

  lemma SliceOfSlice(d: seq<Byte>, at: nat, n: nat, i: nat, j: nat)
    requires i <= j <= n && at + n <= |d|
    ensures d[at..at + n][i..j] == d[at + i..at + j]
  {
    var s, t := d[at..at + n][i..j], d[at + i..at + j];
    assert forall k :: 0 <= k < |s| ==> s[k] == t[k];
  }

  lemma VtableFields(d: seq<Byte>, v: nat, table: nat, slots: map<nat, nat>, start: nat, n: nat, numFields: nat)
    requires TrimmedAt(slots, n, numFields) && HoldsAt(d, v, VtableBytes(slots, table, start, n))
    requires ReadInt32(d, |d| - table) == v - table
    ensures FieldsStored(d, table, slots, numFields)
  {
    hide HoldsAt, ReadInt16, ReadInt32, VtableBytes, IsVtable;
    var c := VtableBytes(slots, table, start, n);
    ReadHeld(d, v, c, 0);
    VtableSize(c);
    forall i: nat
      ensures FieldOf(d, table, i) == StoredField(table, slots, numFields, i)
    {
      if i < n {
        ReadHeld(d, v, c, 4 + 2 * i);
        VtableEntry(slots, table, start, n, i);
      }
    }
  }

  lemma VtableEntry(slots: map<nat, nat>, table: nat, start: nat, n: nat, i: nat)
    requires i < n && forall k :: 0 <= k < n ==> k in slots
    ensures ReadInt16(VtableBytes(slots, table, start, n), 4 + 2 * i) == ToInt16(EntryOf(slots, table, i))
  {
    var c, entries := VtableBytes(slots, table, start, n), Entries(slots, table, 0, n);
    EntryAt(slots, table, 0, n, i);
    SliceOfTail(Int16Bytes(4 + 2 * n) + Int16Bytes(table - start), entries, 2 * i);
    assert c == Int16Bytes(4 + 2 * n) + Int16Bytes(table - start) + entries;
    ReadInt16Bytes(c, 4 + 2 * i, EntryOf(slots, table, i));
  }

  lemma SliceOfTail(front: seq<Byte>, back: seq<Byte>, i: nat)
    requires i + 2 <= |back|
    ensures (front + back)[|front| + i..|front| + i + 2] == back[i..i + 2]
  {}

  ghost predicate TrimmedAt(slots: map<nat, nat>, n: nat, numFields: nat) {
    n == TrimmedLength(slots, numFields) && forall k :: 0 <= k < numFields ==> k in slots
  }

  class Builder {
    var bytes: array<Byte>
    var position: nat
    var space: nat
    var minalign: nat
    var vtable: map<nat, nat>
    var hasVtable: bool
    var vtableInUse: nat
    var isNested: bool
    var objectStart: nat
    var vtables: seq<nat>
    ghost var contents: seq<seq<Byte>>  // the vtables at these offsets
    var vectorNumElems: nat
    var forceDefaults: bool

    ghost predicate Valid(): (valid: bool)
      reads this, bytes
      ensures valid ==> 0 < bytes.Length < 0x8000_0000 && space <= bytes.Length && PowerOfTwo(minalign)
      ensures valid ==> minalign > 0 && (vtables != [] ==> minalign >= 4)
    {
      && 0 < bytes.Length < 0x8000_0000 && space <= bytes.Length
      && PowerOfTwo(minalign) && minalign > 0 && (vtables != [] ==> minalign >= 4)
      && VtablesStored(Data(), vtables, contents) && AllDifferent(contents)
      && (isNested ==> hasVtable && forall i :: 0 <= i < vtableInUse ==> i in vtable)
    }

    /** The bytes written so far. */
    ghost function Data(): (d: seq<Byte>)
      requires space <= bytes.Length
      reads this, bytes
      ensures |d| == bytes.Length - space
    {
      bytes[space..]
    }

    /** The distance of the last written byte from the end of the buffer. */
    function Offset(): (o: nat)
      requires space <= bytes.Length
      reads this, bytes
      ensures o == |Data()|
    {
      bytes.Length - space
    }

    /** As many bytes as the buffer can get to hold. */
    ghost function Limit(): (limit: nat)
      requires 0 < bytes.Length
      reads this`bytes
      ensures limit >= bytes.Length
    {
      MaxCapacity(bytes.Length)
    }

    /** So many more bytes do not fit, however much the buffer grows. */
    ghost predicate Overflows(extra: nat)
      requires 0 < bytes.Length && space <= bytes.Length
      reads this`bytes, this`space
    {
      bytes.Length - space + extra > Limit()
    }

    constructor (initialSize: nat)
      requires initialSize < 0x8000_0000
      ensures Valid() && Data() == [] && fresh(bytes) && minalign == 1 && !isNested && vtables == []
      ensures bytes.Length == space == if initialSize == 0 then 1024 else initialSize
      ensures position == objectStart == vectorNumElems == 0 && !hasVtable && !forceDefaults
    {
      var size := if initialSize == 0 then 1024 else initialSize;
      bytes := new Byte[size](_ => 0);
      position := 0;
      space := size;
      minalign := 1;
      vtable, hasVtable, vtableInUse := map[], false, 0;
      isNested := false;
      objectStart := 0;
      vtables, contents := [], [];
      vectorNumElems := 0;
      forceDefaults := false;
    }

    method WriteInt8(value: int)
      requires 1 <= space <= bytes.Length
      modifies this`space, bytes
      ensures space == old(space) - 1 && Data() == [value % 0x100] + old(Data())
    {
      space := space - 1;
      bytes[space] := value % 0x100;
    }

    method WriteInt16(value: int)
      requires 2 <= space <= bytes.Length
      modifies this`space, bytes
      ensures space == old(space) - 2 && Data() == Int16Bytes(value) + old(Data())
    {
      space := space - 2;
      bytes[space] := value % 0x100;
      bytes[space + 1] := value / 0x100 % 0x100;
    }

    method WriteInt32(value: int)
      requires 4 <= space <= bytes.Length
      modifies this`space, bytes
      ensures space == old(space) - 4 && Data() == Int32Bytes(value) + old(Data())
    {
      space := space - 4;
      PutInt32(space, value);
      assert bytes[space..] == Int32Bytes(value) + bytes[space + 4..];
    }

    method WriteInt64(low: int, high: int)
      requires 8 <= space <= bytes.Length
      modifies this`space, bytes
      ensures space == old(space) - 8 && Data() == (Int32Bytes(low) + Int32Bytes(high)) + old(Data())
    {
      space := space - 8;
      PutInt32(space, low);
      PutInt32(space + 4, high);
      assert bytes[space..] == (Int32Bytes(low) + Int32Bytes(high)) + bytes[space + 8..];
    }

    /** Overwrites four bytes, wherever they are. */
    method PutInt32(offset: nat, value: int)
      requires offset + 4 <= bytes.Length
      modifies bytes
      ensures bytes[..] == old(bytes[..offset]) + Int32Bytes(value) + old(bytes[offset + 4..])
    {
      bytes[offset] := value % 0x100;
      bytes[offset + 1] := value / 0x100 % 0x100;
      bytes[offset + 2] := value / 0x1_0000 % 0x100;
      bytes[offset + 3] := value / 0x100_0000 % 0x100;
    }

    /** Overwrites a word of what has been written already. */
    method PatchInt32(offset: nat, value: int)
      requires space <= offset && offset + 4 <= bytes.Length
      modifies bytes
      ensures Data() == old(Data()[..offset - space]) + (Int32Bytes(value) + old(Data()[offset - space + 4..]))
    {
      ghost var before := bytes[..];
      PutInt32(offset, value);
      Patched(before, space, offset, Int32Bytes(value), bytes[..]);
      assert before[space..offset] == before[space..][..offset - space];
      assert before[offset + 4..] == before[space..][offset - space + 4..];
    }

    /** Forgets what was written after `offset`. */
    method RollBack(offset: nat)
      requires space <= bytes.Length && offset <= |Data()|
      modifies this`space
      ensures space == bytes.Length - offset && Data() == old(Data()[|Data()| - offset..])
    {
      space := bytes.Length - offset;
    }

    method Pad(byteSize: nat)
      requires byteSize <= space <= bytes.Length
      modifies this`space, bytes
      ensures space == old(space) - byteSize && Data() == Zeros(byteSize) + old(Data())
    {
      for i := 0 to byteSize
        invariant space == old(space) - i && Data() == Zeros(i) + old(Data())
      {
        WriteInt8(0);
        OneMoreZero(i, old(Data()));
      }
    }

    static method GrowByteBuffer(bytes: array<Byte>) returns (status: Status, grown: array<Byte>)
      requires bytes.Length < 0x8000_0000
      ensures status.Thrown? <==> bytes.Length >= 0x4000_0000
      ensures status.Ok? ==> fresh(grown) && grown.Length == 2 * bytes.Length && grown[bytes.Length..] == bytes[..]
    {
      var size := bytes.Length;
      // a buffer never grows beyond what fits in an int
      if size >= FULL {
        return Thrown, bytes;
      }
      grown := new Byte[2 * size](_ => 0);
      forall i | 0 <= i < size {
        grown[size + i] := bytes[i];
      }
      status := Ok;
    }

    /** Doubles the buffer. */
    method Grow() returns (status: Status)
      requires 0 < bytes.Length < 0x8000_0000 && space <= bytes.Length
      modifies this`bytes, this`space, this`position
      ensures 0 < bytes.Length < 0x8000_0000 && space <= bytes.Length
      ensures status.Thrown? <==> old(bytes.Length) >= FULL
      ensures status.Thrown? ==> bytes == old(bytes) && space == old(space)
      ensures status.Ok? ==> fresh(bytes) && bytes.Length == 2 * old(bytes.Length)
      ensures Data() == old(Data()) && Limit() == old(Limit())
    {
      var oldSize := bytes.Length;
      var grown;
      status, grown := GrowByteBuffer(bytes);
      if status.Ok? {
        assert grown[space + oldSize..] == grown[oldSize..][space..] == bytes[space..];
        position := oldSize;
        bytes := grown;
        space := space + oldSize;
      }
    }

    /** Doubles the buffer until `needed` bytes are free. */
    method Reserve(needed: nat) returns (status: Status)
      requires 0 < bytes.Length < 0x8000_0000 && space <= bytes.Length
      modifies this`bytes, this`space, this`position
      ensures 0 < bytes.Length < 0x8000_0000 && space <= bytes.Length
      ensures Limit() == old(Limit())
      ensures (bytes == old(bytes) || fresh(bytes)) && Data() == old(Data())
      ensures status.Ok? ==> space >= needed && space >= old(space)
      ensures status.Thrown? <==> old(Overflows(needed))
      ensures status.Thrown? ==> bytes.Length >= FULL && space < needed
    {
      while space < needed
        invariant 0 < bytes.Length < 0x8000_0000 && space <= bytes.Length
        invariant bytes == old(bytes) || fresh(bytes)
        invariant Data() == old(Data()) && space >= old(space)
        invariant Limit() == old(Limit())
        decreases 0x8000_0000 - bytes.Length
      {
        :- Grow();
      }
      status := Ok;
    }

    /** Makes room for an element of `size` bytes, aligned after `additional` more bytes. */
    method Prep(size: nat, additional: nat) returns (status: Status)
      requires Valid() && PowerOfTwo(size)
      modifies this`minalign, this`bytes, this`space, this`position, bytes
      ensures Valid() && (bytes == old(bytes) || fresh(bytes))
      ensures Limit() == old(Limit())
      ensures Extends(old(Data()), Data())
      ensures minalign == if size > old(minalign) then size else old(minalign)
      ensures status.Thrown? ==> Data() == old(Data())
      ensures status.Thrown? ==> bytes.Length >= FULL
      ensures status.Thrown? <==> old(Overflows(Padding(|Data()|, size, additional) + size + additional))
      ensures status.Ok? ==> Data() == Zeros(Padding(old(|Data()|), size, additional)) + old(Data())
      ensures status.Ok? ==> space >= size + additional && space >= old(space) - (|Data()| - |old(Data())|)
    {
      hide Overflows, Limit, MaxCapacity, Valid, Data, Extends, Zeros, Padding, PowerOfTwo;
      PowersArePositive(size);
      ghost var d := Data();
      RaiseAlignment(size);
      var alignSize := Padding(Offset(), size, additional);
      :- ReserveRoom(alignSize + size + additional);
      PadFront(alignSize);
      status := Ok;
    }

    /** Keeps track of the largest size that anything was aligned to. */
    method RaiseAlignment(size: nat)
      requires Valid() && PowerOfTwo(size)
      modifies this`minalign
      ensures Valid() && Data() == old(Data()) && minalign == if size > old(minalign) then size else old(minalign)
    {
      hide Extends, VtablesStored, AllDifferent, PowerOfTwo;
      if size > minalign {
        minalign := size;
      }
    }

    method ReserveRoom(needed: nat) returns (status: Status)
      requires Valid()
      modifies this`bytes, this`space, this`position
      ensures Valid() && (bytes == old(bytes) || fresh(bytes))
      ensures Limit() == old(Limit())
      ensures Data() == old(Data()) && Extends(old(Data()), Data())
      ensures status.Ok? ==> space >= needed && space >= old(space)
      ensures status.Thrown? ==> bytes.Length >= FULL
      ensures status.Thrown? <==> old(Overflows(needed))
    {
      hide Overflows, Limit, MaxCapacity, Extends, VtablesStored, AllDifferent, PowerOfTwo;
      status := Reserve(needed);
      ExtendsItself(Data());
    }

    method PadFront(byteSize: nat)
      requires Valid() && byteSize <= space
      modifies this`space, bytes
      ensures Valid() && space == old(space) - byteSize
      ensures Data() == Zeros(byteSize) + old(Data()) && Extends(old(Data()), Data())
    {
      hide Extends, VtablesStored, AllDifferent, PowerOfTwo, Zeros;
      ghost var d := Data();
      Pad(byteSize);
      PrependExtends(Zeros(byteSize), d);
      VtablesStay(d, Data(), vtables, contents);
    }

    /** The buffer after an aligned scalar was added in front of it. */
    ghost predicate IsAdded(d: seq<Byte>, scalar: seq<Byte>, d': seq<Byte>)
      requires |scalar| > 0
    {
      d' == scalar + (Zeros(Padding(|d|, |scalar|, 0)) + d)
    }

    method AddInt8(value: int) returns (status: Status)
      requires Valid()
      modifies this`minalign, this`bytes, this`space, this`position, bytes
      ensures Valid() && (bytes == old(bytes) || fresh(bytes)) && minalign >= old(minalign)
      ensures Limit() == old(Limit())
      ensures Extends(old(Data()), Data())
      ensures status.Ok? ==> Data() == [value % 0x100] + old(Data())
      ensures status.Thrown? ==> Data() == old(Data())
      ensures status.Thrown? ==> bytes.Length >= FULL
      ensures status.Thrown? <==> old(Overflows(1))
    {
      hide Extends, VtablesStored, AllDifferent;
      SmallPowers();
      :- Prep(1, 0);
      assert Data() == old(Data());
      WriteInt8(value);
      PrependExtends([value % 0x100], old(Data()));
      VtablesStay(old(Data()), Data(), vtables, contents);
      status := Ok;
    }

    method AddInt16(value: int) returns (status: Status)
      requires Valid()
      modifies this`minalign, this`bytes, this`space, this`position, bytes
      ensures Valid() && (bytes == old(bytes) || fresh(bytes))
      ensures Limit() == old(Limit())
      ensures Extends(old(Data()), Data())
      ensures minalign == if 2 > old(minalign) then 2 else old(minalign)
      ensures status.Ok? ==> IsAdded(old(Data()), Int16Bytes(value), Data())
      ensures status.Ok? && old(|Data()|) % 2 == 0 ==> Data() == Int16Bytes(value) + old(Data())
      ensures status.Ok? ==> |Data()| % 2 == 0
      ensures status.Thrown? ==> Data() == old(Data())
      ensures status.Thrown? ==> bytes.Length >= FULL
      ensures status.Thrown? <==> old(Overflows(Padding(|Data()|, 2, 0) + 2))
      ensures old(|Data()|) % 2 == 0 ==> (status.Thrown? <==> old(Overflows(2)))
    {
      hide Extends, VtablesStored, AllDifferent;
      SmallPowers();
      :- Prep(2, 0);
      WriteInt16(value);
      AddedScalar(old(Data()), Int16Bytes(value), Data());
      if old(|Data()|) % 2 == 0 {
        NoPadding(old(Data()), 2);
      }
      VtablesStay(old(Data()), Data(), vtables, contents);
      status := Ok;
    }

    method AddInt32(value: int) returns (status: Status)
      requires Valid()
      modifies this`minalign, this`bytes, this`space, this`position, bytes
      ensures Valid() && (bytes == old(bytes) || fresh(bytes))
      ensures Limit() == old(Limit())
      ensures Extends(old(Data()), Data())
      ensures minalign == if 4 > old(minalign) then 4 else old(minalign)
      ensures status.Ok? ==> IsAdded(old(Data()), Int32Bytes(value), Data())
      ensures status.Ok? ==> space >= old(space) - (|Data()| - |old(Data())|)
      ensures status.Thrown? ==> Data() == old(Data())
      ensures status.Thrown? ==> bytes.Length >= FULL
      ensures status.Thrown? <==> old(Overflows(Padding(|Data()|, 4, 0) + 4))
    {
      hide Extends, VtablesStored, AllDifferent;
      SmallPowers();
      :- Prep(4, 0);
      WriteInt32(value);
      AddedScalar(old(Data()), Int32Bytes(value), Data());
      VtablesStay(old(Data()), Data(), vtables, contents);
      status := Ok;
    }

    /** A 64-bit integer is given by its low and high words. */
    method AddInt64(low: int, high: int) returns (status: Status)
      requires Valid()
      modifies this`minalign, this`bytes, this`space, this`position, bytes
      ensures Valid() && (bytes == old(bytes) || fresh(bytes))
      ensures Limit() == old(Limit())
      ensures Extends(old(Data()), Data())
      ensures minalign == if 8 > old(minalign) then 8 else old(minalign)
      ensures status.Ok? ==> IsAdded(old(Data()), Int32Bytes(low) + Int32Bytes(high), Data())
      ensures status.Thrown? ==> Data() == old(Data())
      ensures status.Thrown? ==> bytes.Length >= FULL
      ensures status.Thrown? <==> old(Overflows(Padding(|Data()|, 8, 0) + 8))
    {
      hide Extends, VtablesStored, AllDifferent;
      SmallPowers();
      :- Prep(8, 0);
      WriteInt64(low, high);
      AddedScalar(old(Data()), Int32Bytes(low) + Int32Bytes(high), Data());
      VtablesStay(old(Data()), Data(), vtables, contents);
      status := Ok;
    }

    /** Adds a reference to what was written up to `offset`. */
    method AddOffset(offset: nat) returns (status: Status)
      requires Valid()
      modifies this`minalign, this`bytes, this`space, this`position, bytes
      ensures Valid() && (bytes == old(bytes) || fresh(bytes))
      ensures Limit() == old(Limit())
      ensures Extends(old(Data()), Data())
      ensures minalign == if 4 > old(minalign) then 4 else old(minalign)
      ensures status.Ok? ==> IsAdded(old(Data()), Int32Bytes(|Data()| - offset), Data())
      ensures status.Ok? ==> IsReference(Data(), offset)
      ensures status.Thrown? ==> Data() == old(Data())
      ensures status.Thrown? ==> bytes.Length >= FULL
      ensures status.Thrown? <==> old(Overflows(Padding(|Data()|, 4, 0) + 4))
    {
      hide Extends, VtablesStored, AllDifferent, IsFinished, Aligned, IsVectorStart, IsReference;
      SmallPowers();
      :- Prep(SIZEOF_INT, 0);
      WriteInt32(Offset() - offset + SIZEOF_INT);
      ReferenceResolves(old(Data()), offset, Data());
      VtablesStay(old(Data()), Data(), vtables, contents);
      status := Ok;
    }

    /** The field at `slotIndex` is what was written last. */
    method Slot(slotIndex: nat)
      requires Valid() && hasVtable
      modifies this`vtable
      ensures Valid() && vtable == old(vtable)[slotIndex := |Data()|]
    {
      hide Extends, VtablesStored, AllDifferent;
      vtable := vtable[slotIndex := Offset()];
    }

    method AddFieldInt32(slotIndex: nat, value: int, defaultValue: int) returns (status: Status)
      requires Valid() && hasVtable
      modifies this`minalign, this`bytes, this`space, this`position, this`vtable, bytes
      ensures Valid() && (bytes == old(bytes) || fresh(bytes)) && Extends(old(Data()), Data())
      ensures Limit() == old(Limit())
      ensures status.Ok? && (forceDefaults || value != defaultValue) ==>
                && vtable == old(vtable)[slotIndex := |Data()|]
                && |Data()| % 4 == 0 && |Data()| > |old(Data())| && ReadInt32(Data(), 0) == ToInt32(value)
      ensures status.Thrown? || !(forceDefaults || value != defaultValue) ==>
                vtable == old(vtable) && Data() == old(Data())
      ensures status.Thrown? ==> bytes.Length >= FULL
      ensures status.Thrown? <==>
                (forceDefaults || value != defaultValue) && old(Overflows(Padding(|Data()|, 4, 0) + 4))
    {
      hide Limit, MaxCapacity, Extends, VtablesStored, AllDifferent;
      ExtendsItself(Data());
      if forceDefaults || value != defaultValue {
        :- AddInt32(value);
        AddedScalar(old(Data()), Int32Bytes(value), Data());
        ReadInt32Bytes(Data(), 0, value);
        Slot(slotIndex);
      }
      status := Ok;
    }

    method AddFieldOffset(slotIndex: nat, value: nat, defaultValue: nat) returns (status: Status)
      requires Valid() && hasVtable
      modifies this`minalign, this`bytes, this`space, this`position, this`vtable, bytes
      ensures Valid() && (bytes == old(bytes) || fresh(bytes)) && Extends(old(Data()), Data())
      ensures Limit() == old(Limit())
      ensures status.Ok? && (forceDefaults || value != defaultValue) ==>
                && vtable == old(vtable)[slotIndex := |Data()|]
                && IsReference(Data(), value) && |Data()| > |old(Data())|
      ensures status.Thrown? || !(forceDefaults || value != defaultValue) ==>
                vtable == old(vtable) && Data() == old(Data())
      ensures status.Thrown? ==> bytes.Length >= FULL
      ensures status.Thrown? <==>
                (forceDefaults || value != defaultValue) && old(Overflows(Padding(|Data()|, 4, 0) + 4))
    {
      hide Limit, MaxCapacity, Extends, VtablesStored, AllDifferent;
      ExtendsItself(Data());
      if forceDefaults || value != defaultValue {
        :- AddOffset(value);
        Slot(slotIndex);
      }
      status := Ok;
    }

    method StartObject(numFields: nat) returns (status: Status)
      requires Valid()
      modifies this`vtable, this`hasVtable, this`vtableInUse, this`isNested, this`objectStart
      ensures Valid() && (status.Thrown? <==> old(isNested))
      ensures status.Thrown? ==> unchanged(this)
      ensures status.Ok? ==>
                && hasVtable && isNested && vtableInUse == numFields && objectStart == |Data()|
                && forall i :: 0 <= i < numFields ==> i in vtable && vtable[i] == 0
    {
      hide Extends, VtablesStored, AllDifferent;
      if isNested {
        return Thrown;
      }
      if !hasVtable {
        vtable := map[];
        hasVtable := true;
      }
      vtableInUse := numFields;
      for i := 0 to numFields
        invariant hasVtable && vtableInUse == numFields
        invariant forall k :: 0 <= k < i ==> k in vtable && vtable[k] == 0
      {
        vtable := vtable[i := 0];
      }
      isNested := true;
      objectStart := Offset();
      status := Ok;
    }

    /** `readInt16` on the buffer, for what has been written already. */
    function Int16At(a: nat): (v: int)
      requires space <= a && a + 2 <= bytes.Length
      reads this, bytes
      ensures v == ReadInt16(Data(), a - space)
    {
      assert bytes[a] == Data()[a - space] && bytes[a + 1] == Data()[a - space + 1];
      Signed16(bytes[a] as int + 0x100 * bytes[a + 1] as int)
    }

    /** Compares `len` bytes at `vt2` with those written last, in steps of two. */
    method SamePairs(len: nat, vt2: nat, ghost last: nat) returns (same: bool)
      requires space <= vt2 && vt2 + len <= bytes.Length && 1 <= last && len == 2 * last
      requires SameUpTo(Data(), vt2 - space, 2)
      ensures same <==> SameUpTo(Data(), vt2 - space, len)
    {
      ghost var d, at := Data(), vt2 - space;
      var vt1 := space;
      var j := 2;
      ghost var pairs := 1;
      while j < len
        invariant j == 2 * pairs && 1 <= pairs <= last
        invariant SameUpTo(d, at, j)
      {
        ComparePair(d, at, len, j);
        if Int16At(vt1 + j) != Int16At(vt2 + j) {
          return false;
        }
        j, pairs := j + 2, pairs + 1;
      }
      same := true;
    }

    /**
     Whether the vtable at `v` reads like the one of `len` bytes written last.  One that is too
     large for its size to be read takes part with what its size reads as.
     */
    method IsSameVtable(len: nat, v: nat, ghost c: seq<Byte>) returns (same: bool)
      requires space <= bytes.Length && HoldsAt(Data(), v, c) && IsVtable(c)
      requires 4 <= len <= |Data()| && len % 2 == 0 && Data()[..2] == Int16Bytes(len)
      ensures same <==> ToInt16(|c|) == len && Data()[..len] <= c
    {
      hide HoldsAt, IsVtable, ToInt16, ReadInt16, Int16Bytes, SameUpTo;
      var vt2 := bytes.Length - v;
      ReadVtable(Data(), v, c, len);
      if len != Int16At(vt2) {
        return false;
      }
      same := SamePairs(len, vt2, len / 2);
    }

    /** The first stored vtable that reads like the one written last, or 0. */
    method FindVtable(len: nat) returns (existing: nat, ghost k: nat)
      requires Valid()
      requires 4 <= len <= |Data()| && len % 2 == 0 && Data()[..2] == Int16Bytes(len)
      ensures existing == 0 && len < 0x8000 ==> Data()[..len] !in contents
      ensures existing != 0 ==> k < |vtables| && existing == vtables[k] && Data()[..len] <= contents[k] && len < 0x8000
    {
      existing, k := 0, 0;
      for i := 0 to |vtables|
        invariant existing == 0
        invariant forall j :: 0 <= j < i && len < 0x8000 ==> contents[j] != Data()[..len]
      {
        var same := IsSameVtable(len, vtables[i], contents[i]);
        if same {
          existing, k := vtables[i], i;
          return;
        }
      }
    }

    /** The offsets of the fields, from the last used slot to the first. */
    method WriteEntries(table: nat, n: nat) returns (status: Status)
      requires Valid() && isNested && n <= vtableInUse && |Data()| % 2 == 0
      modifies this`minalign, this`bytes, this`space, this`position, bytes
      ensures Valid() && (bytes == old(bytes) || fresh(bytes)) && minalign >= old(minalign)
      ensures Limit() == old(Limit())
      ensures status.Thrown? ==> bytes.Length >= FULL
      ensures status.Thrown? <==> old(|Data()|) + 2 * n > old(Limit())
      ensures Extends(old(Data()), Data())
      ensures status.Ok? ==> Data() == Entries(vtable, table, 0, n) + old(Data()) && |Data()| % 2 == 0
    {
      hide Extends, VtablesStored, AllDifferent;
      ghost var d := Data();
      var i := n;
      while i > 0
        invariant 0 <= i <= n
        invariant Valid() && (bytes == old(bytes) || fresh(bytes)) && minalign >= old(minalign)
        invariant Data() == Entries(vtable, table, i, n) + d && Limit() == old(Limit())
        invariant |Data()| % 2 == 0
      {
        i := i - 1;
        status := AddInt16(EntryOf(vtable, table, i));
        if status.Thrown? {
          PrependExtends(Entries(vtable, table, i + 1, n), d);
          return;
        }
        OneMoreEntry(vtable, table, i, n, d);
      }
      PrependExtends(Entries(vtable, table, 0, n), d);
      status := Ok;
    }

    method TrimmedSize() returns (n: nat)
      requires Valid() && isNested
      ensures n == TrimmedLength(vtable, vtableInUse)
    {
      hide Extends, VtablesStored, AllDifferent;
      var i := vtableInUse - 1;
      while i >= 0 && vtable[i] == 0
        invariant -1 <= i < vtableInUse
        invariant TrimmedLength(vtable, i + 1) == TrimmedLength(vtable, vtableInUse)
      {
        i := i - 1;
      }
      n := i + 1;
    }

    /** Writes the vtable of the current object in front of its table. */
    method WriteVtable(table: nat, n: nat) returns (status: Status)
      requires Valid() && isNested && n <= vtableInUse && |Data()| % 2 == 0
      modifies this`minalign, this`bytes, this`space, this`position, bytes
      ensures Valid() && (bytes == old(bytes) || fresh(bytes)) && minalign >= old(minalign)
      ensures Limit() == old(Limit())
      ensures status.Thrown? ==> bytes.Length >= FULL
      ensures status.Thrown? <==> old(|Data()|) + 2 * n + 4 > old(Limit())
      ensures Extends(old(Data()), Data())
      ensures status.Ok? ==> Data() == VtableBytes(vtable, table, objectStart, n) + old(Data())
    {
      hide Limit, MaxCapacity, Extends, VtablesStored, AllDifferent;
      ghost var d := Data();
      :- WriteEntries(table, n);
      ghost var w := Data();
      status := WriteSizes(table - objectStart, 4 + 2 * n);
      ExtendsTransitive(d, w, Data());
      if status.Ok? {
        VtableParts(vtable, table, objectStart, n, d, w, Data());
      }
    }

    /** The first two entries of a vtable: the size of the object, and that of the vtable. */
    method WriteSizes(objectSize: int, vtableSize: int) returns (status: Status)
      requires Valid() && |Data()| % 2 == 0
      modifies this`minalign, this`bytes, this`space, this`position, bytes
      ensures Valid() && (bytes == old(bytes) || fresh(bytes)) && minalign >= old(minalign)
      ensures Limit() == old(Limit())
      ensures status.Thrown? ==> bytes.Length >= FULL
      ensures status.Thrown? <==> old(|Data()|) + 4 > old(Limit())
      ensures Extends(old(Data()), Data())
      ensures status.Ok? ==> Data() == Int16Bytes(vtableSize) + (Int16Bytes(objectSize) + old(Data()))
    {
      hide Limit, MaxCapacity, Extends, VtablesStored, AllDifferent;
      ghost var d := Data();
      :- AddInt16(objectSize);
      PrependExtends(Int16Bytes(objectSize), d);
      :- AddInt16(vtableSize);
      ThenExtends(d, Int16Bytes(vtableSize), Int16Bytes(objectSize) + d);
      status := Ok;
    }

    /** What `EndObject` has written when it looks for an equal vtable. */
    ghost predicate VtableWritten(d0: seq<Byte>, table: nat, n: nat)
      reads this, bytes
    {
      && Valid() && isNested && minalign >= 4 && TrimmedAt(vtable, n, vtableInUse)
      && VtablesStored(d0, vtables, contents) && table == |Blank(d0)| && table % 4 == 0
      && Data() == VtableBytes(vtable, table, objectStart, n) + Blank(d0)
    }

    /** The outcome for the object that starts `table` bytes before the end. */
    ghost predicate ObjectStored(d0: seq<Byte>, table: nat)
      requires space <= bytes.Length
      reads this, bytes
    {
      Extends(d0, Data()) && IsTable(Data(), table) && FieldsStored(Data(), table, vtable, vtableInUse)
    }

    /** Rolls the buffer back to the start of the table, and writes its first word. */
    method DropAndLink(ghost v: seq<Byte>, ghost rest: seq<Byte>, table: nat, value: int)
      requires space <= bytes.Length && Data() == v + rest && table == |rest| && 4 <= |rest|
      modifies this`space, bytes
      ensures space <= bytes.Length && Data() == Int32Bytes(value) + rest[4..]
    {
      FrontAndRest(v, rest);
      RollBack(table);
      assert Data() == rest;
      PatchInt32(space, value);
      assert Data() == rest[..0] + (Int32Bytes(value) + rest[4..]);
      EmptyFront(Data(), rest, Int32Bytes(value));
    }

    /** Writes the first word of the table, behind the vtable. */
    method LinkBehind(ghost v: seq<Byte>, ghost rest: seq<Byte>, table: nat, value: int)
      requires space <= bytes.Length && Data() == v + rest && table == |rest| && 4 <= |rest|
      modifies bytes
      ensures Data() == v + (Int32Bytes(value) + rest[4..])
    {
      FrontAndRest(v, rest);
      PatchInt32(bytes.Length - table, value);
    }

    /**
     Links the table to its vtable: to an equal one that was stored before, in which case the
     one just written is dropped again, or else to the one just written.
     */
    method LinkVtable(ghost d0: seq<Byte>, table: nat, n: nat)
      requires VtableWritten(d0, table, n)
      modifies this`space, this`vtables, this`contents, bytes
      ensures Valid() && ObjectStored(d0, table)
      ensures if vtables == old(vtables) then |Data()| == table else vtables == old(vtables) + [|Data()|]
      ensures vtables != []
    {
      hide Extends, VtablesStored, AllDifferent, ObjectStored, VtableBytes, IsVtable, Int16Bytes, Blank, PowerOfTwo;
      NewVtable(VtableBytes(vtable, table, objectStart, n), Blank(d0));
      var existing, k := FindVtable(4 + 2 * n);
      if existing != 0 {
        ShareVtable(d0, table, n, existing, k);
      } else {
        KeepVtable(d0, table, n);
      }
    }

    method ShareVtable(ghost d0: seq<Byte>, table: nat, ghost n: nat, existing: nat, ghost k: nat)
      requires VtableWritten(d0, table, n) && k < |vtables| && existing == vtables[k]
      requires VtableBytes(vtable, table, objectStart, n) <= contents[k]
      modifies this`space, bytes
      ensures Valid() && ObjectStored(d0, table) && |Data()| == table
    {
      hide Extends, VtablesStored, AllDifferent;
      DropAndLink(VtableBytes(vtable, table, objectStart, n), Blank(d0), table, existing - table);
      SharedIsStored(d0, vtables, contents, k, vtable, table, objectStart, n, vtableInUse, Data());
    }

    method KeepVtable(ghost d0: seq<Byte>, table: nat, ghost n: nat)
      requires VtableWritten(d0, table, n)
      requires 4 + 2 * n < 0x8000 ==> VtableBytes(vtable, table, objectStart, n) !in contents
      modifies this`vtables, this`contents, bytes
      ensures Valid() && ObjectStored(d0, table) && vtables == old(vtables) + [|Data()|]
    {
      hide Extends, VtablesStored, IsVtable, HoldsAt, IsTable, FieldsStored, Int32Bytes;
      ghost var v := VtableBytes(vtable, table, objectStart, n);
      LinkBehind(v, Blank(d0), table, Offset() - table);
      FreshIsStored(d0, vtables, contents, vtable, table, objectStart, n, vtableInUse, Data());
      vtables, contents := vtables + [Offset()], contents + [v];
    }

    /**
     Completes the current object.  Whether its vtable is new or shared with an earlier
     object, every slot that was set leads to its field, and every other slot is absent.
     */
    method EndObject() returns (status: Status, table: nat)
      requires Valid()
      modifies this, bytes
      ensures Valid() && (bytes == old(bytes) || fresh(bytes)) && minalign >= old(minalign)
      ensures Limit() == old(Limit())
      ensures Extends(old(Data()), Data())
      ensures status.Thrown? ==> !old(isNested) || !old(hasVtable) || bytes.Length >= FULL
      ensures status.Thrown? <==>
                || !old(isNested) || !old(hasVtable)
                || TableNeed(old(|Data()|), TrimmedLength(old(vtable), old(vtableInUse))) > old(Limit())
      ensures status.Ok? ==>
                && !isNested && minalign >= 4
                && |old(Data())| < table && IsTable(Data(), table)
                && FieldsStored(Data(), table, old(vtable), old(vtableInUse))
                && if vtables == old(vtables) then |Data()| == table else vtables == old(vtables) + [|Data()|]
      ensures status.Ok? ==> vtables != []
    {
      hide Limit, MaxCapacity, Extends, VtablesStored, AllDifferent, FieldsStored;
      ExtendsItself(Data());
      table := 0;
      if !hasVtable || !isNested {
        return Thrown, 0;
      }
      ghost var d0 := Data();
      var n;
      status, table, n := WriteTable();
      if status.Ok? {
        LinkVtable(d0, table, n);
        isNested := false;
      }
    }

    /** Writes the start of the table and the vtable in front of it. */
    method WriteTable() returns (status: Status, table: nat, n: nat)
      requires Valid() && isNested
      modifies this`minalign, this`bytes, this`space, this`position, bytes
      ensures Valid() && (bytes == old(bytes) || fresh(bytes)) && minalign >= old(minalign)
      ensures Limit() == old(Limit())
      ensures status.Thrown? ==> bytes.Length >= FULL
      ensures status.Thrown? <==> TableNeed(old(|Data()|), TrimmedLength(vtable, vtableInUse)) > old(Limit())
      ensures Extends(old(Data()), Data())
      ensures status.Ok? ==> minalign >= 4 && table > |old(Data())| && VtableWritten(old(Data()), table, n)
    {
      hide Limit, MaxCapacity, Extends, VtablesStored, AllDifferent;
      ExtendsItself(Data());
      table, n := 0, 0;
      ghost var d0 := Data();
      :- StartTable();
      table := Offset();
      n := TrimmedSize();
      status := WriteVtable(table, n);
      ExtendsTransitive(d0, Blank(d0), Data());
    }

    /** Makes room for the offset to the vtable. */
    method StartTable() returns (status: Status)
      requires Valid()
      modifies this`minalign, this`bytes, this`space, this`position, bytes
      ensures Valid() && (bytes == old(bytes) || fresh(bytes)) && minalign >= old(minalign)
      ensures Limit() == old(Limit())
      ensures status.Thrown? ==> bytes.Length >= FULL
      ensures status.Thrown? <==> old(Overflows(Padding(|Data()|, 4, 0) + 4))
      ensures status.Thrown? ==> Data() == old(Data())
      ensures status.Ok? ==>
                && Data() == Blank(old(Data())) && Extends(old(Data()), Data()) && |Data()| > |old(Data())|
                && |Data()| % 4 == 0 && |Data()| % 2 == 0 && minalign >= 4
    {
      hide Limit, MaxCapacity, Extends, VtablesStored, AllDifferent;
      ghost var d0 := Data();
      :- AddInt32(0);
      assert Data() == Blank(d0);
      AddedScalar(d0, Int32Bytes(0), Data());
      EvenFromFour(Offset());
      status := Ok;
    }

    // Vectors

    method StartVector(elemSize: nat, numElems: nat, alignment: nat) returns (status: Status)
      requires Valid() && PowerOfTwo(alignment)
      modifies this`minalign, this`bytes, this`space, this`position, this`vectorNumElems, bytes
      ensures Valid() && (bytes == old(bytes) || fresh(bytes)) && minalign >= old(minalign)
      ensures Limit() == old(Limit())
      ensures Extends(old(Data()), Data())
      ensures status.Thrown? ==> old(isNested) || bytes.Length >= FULL
      ensures status.Thrown? <==>
                || old(isNested)
                || VectorNeed(old(|Data()|), VectorSize(elemSize, numElems), alignment) > old(Limit())
      ensures status.Ok? ==> vectorNumElems == numElems && space >= 4 + VectorSize(elemSize, numElems)
      ensures status.Ok? ==> IsVectorStart(old(Data()), VectorSize(elemSize, numElems), alignment, Data())
    {
      hide Extends, Aligned, IsVectorStart, Zeros, Padding, PowerOfTwo, VtablesStored, AllDifferent, VectorNeed, Limit;
      ExtendsItself(Data());
      if isNested {
        return Thrown;
      }
      vectorNumElems := numElems;
      status := PrepVector(VectorSize(elemSize, numElems), alignment);
    }

    method PrepVector(size: nat, alignment: nat) returns (status: Status)
      requires Valid() && PowerOfTwo(alignment)
      modifies this`minalign, this`bytes, this`space, this`position, bytes
      ensures Valid() && (bytes == old(bytes) || fresh(bytes)) && minalign >= old(minalign)
      ensures Limit() == old(Limit())
      ensures Extends(old(Data()), Data())
      ensures status.Thrown? ==> bytes.Length >= FULL
      ensures status.Thrown? <==> VectorNeed(old(|Data()|), size, alignment) > old(Limit())
      ensures status.Ok? ==> space >= 4 + size && IsVectorStart(old(Data()), size, alignment, Data())
    {
      hide Extends, Aligned, IsVectorStart, Zeros, Padding, PowerOfTwo, Limit, MaxCapacity, Valid, Data;
      ghost var d0 := Data();
      ExtendsItself(d0);
      SmallPowers();
      PowersArePositive(alignment);
      :- Prep(SIZEOF_INT, size);
      ghost var d1 := Data();
      PrependExtends(Zeros(Padding(|d0|, SIZEOF_INT, size)), d0);
      :- Prep(alignment, size);
      VectorStarts(d0, size, alignment, d1, Data());
      status := Ok;
    }

    method EndVector() returns (vector: nat)
      requires Valid() && 4 <= space
      modifies this`space, bytes
      ensures Valid() && vector == |Data()| && Data() == Int32Bytes(vectorNumElems) + old(Data())
    {
      hide Extends, VtablesStored, AllDifferent;
      ghost var d := Data();
      WriteInt32(vectorNumElems);
      PrependExtends(Int32Bytes(vectorNumElems), d);
      VtablesStay(d, Data(), vtables, contents);
      vector := Offset();
    }

    /** Copies bytes as they are in front of what has been written. */
    method WriteBytes(data: seq<Byte>)
      requires Valid() && |data| <= space
      modifies this`space, this`position, bytes
      ensures space == old(space) - |data| && Data() == data + old(Data())
      ensures Valid() && Extends(old(Data()), Data())
    {
      hide Extends, VtablesStored, AllDifferent;
      CopyTo(space - |data|, data);
      space := space - |data|;
      position := space;
      PrependExtends(data, old(Data()));
      VtablesStay(old(Data()), data + old(Data()), vtables, contents);
    }

    method CopyTo(offset: nat, data: seq<Byte>)
      requires offset + |data| <= bytes.Length
      modifies bytes
      ensures bytes[offset..] == data + old(bytes[offset + |data|..])
    {
      for i := 0 to |data|
        invariant bytes[offset..offset + i] == data[..i]
        invariant bytes[offset + |data|..] == old(bytes[offset + |data|..])
      {
        bytes[offset + i] := data[i];
      }
      assert bytes[offset..] == bytes[offset..offset + |data|] + bytes[offset + |data|..];
    }

    /** Writes the zero that ends a string, and makes room for the rest of it. */
    method StartString(length: nat) returns (status: Status)
      requires Valid()
      modifies this`minalign, this`bytes, this`space, this`position, this`vectorNumElems, bytes
      ensures Valid() && (bytes == old(bytes) || fresh(bytes)) && minalign >= old(minalign)
      ensures Limit() == old(Limit())
      ensures Extends(old(Data()), Data())
      ensures status.Thrown? ==> old(isNested) || bytes.Length >= FULL
      ensures status.Thrown? <==> old(isNested) || VectorNeed(old(|Data()|) + 1, length, 1) > old(Limit())
      ensures status.Ok? ==> vectorNumElems == length && space >= 4 + length
      ensures status.Ok? ==> IsVectorStart([0] + old(Data()), length, 1, Data())
    {
      hide VectorSize;
      hide Limit, MaxCapacity, VectorNeed, Valid, Data, Extends, IsFinished, Aligned, IsVectorStart, IsReference;
      hide Zeros, Padding, PowerOfTwo;
      ExtendsItself(Data());
      ghost var d0 := Data();
      SmallPowers();
      :- AddInt8(0);
      ghost var d1 := Data();
      assert d1 == [0] + d0;
      PrependExtends([0], d0);
      BytesAreSmall(length);
      status := StartVector(1, length, 1);
      ExtendsTransitive(d0, [0] + d0, Data());
    }

    /** Stores bytes that are valid UTF-8 already. */
    method CreateStringOfBytes(utf8: seq<Byte>) returns (status: Status, offset: nat)
      requires Valid()
      modifies this`minalign, this`bytes, this`space, this`position, this`vectorNumElems, bytes
      ensures Valid() && (bytes == old(bytes) || fresh(bytes)) && minalign >= old(minalign)
      ensures Limit() == old(Limit())
      ensures Extends(old(Data()), Data())
      ensures status.Thrown? ==> old(isNested) || bytes.Length >= FULL
      ensures status.Thrown? <==> old(isNested) || VectorNeed(old(|Data()|) + 1, |utf8|, 1) > old(Limit())
      ensures status.Ok? ==> offset == |Data()| && offset % 4 == 0 && HoldsAt(Data(), offset, StringBytes(utf8))
    {
      hide Limit, MaxCapacity, Valid, Data, Extends, IsFinished, Aligned, IsVectorStart, IsReference;
      hide Zeros, Padding, PowerOfTwo;
      offset := 0;
      ghost var d0 := Data();
      status := StartString(|utf8|);
      if status.Ok? {
        ghost var z := Data();
        WriteBytes(utf8);
        offset := EndVector();
        StringIsStored(d0, utf8, z, Data());
      }
    }

    method CreateString(s: seq<Utf.Unit>) returns (status: Status, offset: nat)
      requires Valid()
      modifies this`minalign, this`bytes, this`space, this`position, this`vectorNumElems, bytes
      ensures Valid() && (bytes == old(bytes) || fresh(bytes)) && minalign >= old(minalign)
      ensures Limit() == old(Limit())
      ensures Extends(old(Data()), Data())
      ensures status.Thrown? ==> old(isNested) || bytes.Length >= FULL
      ensures status.Thrown? <==> old(isNested) || VectorNeed(old(|Data()|) + 1, |Utf.Encode(s)|, 1) > old(Limit())
      ensures status.Ok? ==>
                offset == |Data()| && offset % 4 == 0 && HoldsAt(Data(), offset, StringBytes(Utf.Encode(s)))
    {
      hide Limit, MaxCapacity, Extends, VtablesStored, AllDifferent;
      var utf8 := Utf.EncodeString(s);
      status, offset := CreateStringOfBytes(utf8);
    }

    /** Writes the low byte of each unit, from the last to the first. */
    method WriteLowBytes(units: seq<Utf.Unit>)
      requires |units| <= space <= bytes.Length
      modifies this`space, bytes
      ensures space == old(space) - |units| && Data() == LowBytesFrom(units, 0) + old(Data())
    {
      hide Data, LowBytesFrom;
      ghost var d := Data();
      NoUnits(units, d);
      var i := |units| - 1;
      while i >= 0
        invariant -1 <= i < |units| && space == old(space) - (|units| - 1 - i)
        invariant Data() == LowBytesFrom(units, i + 1) + d
      {
        WriteInt8(units[i]);
        OneMoreUnit(units, i, d);
        i := i - 1;
      }
    }

    method WriteUnits(units: seq<Utf.Unit>)
      requires Valid() && |units| <= space
      modifies this`space, bytes
      ensures Valid() && Data() == LowBytesOf(units) + old(Data())
    {
      hide Extends, VtablesStored, AllDifferent;
      WriteLowBytes(units);
      PrependExtends(LowBytesOf(units), old(Data()));
      VtablesStay(old(Data()), Data(), vtables, contents);
    }

    /** Writes the file identifier so that it will stand right behind the root offset. */
    method WriteIdentifier(identifier: seq<Utf.Unit>, additional: nat) returns (status: Status)
      requires Valid() && additional >= FILE_IDENTIFIER_LENGTH
      modifies this`minalign, this`bytes, this`space, this`position, bytes
      ensures Valid() && (bytes == old(bytes) || fresh(bytes)) && minalign == old(minalign)
      ensures Limit() == old(Limit())
      ensures status.Thrown? ==> |identifier| != 4 || bytes.Length >= FULL
      ensures status.Thrown? <==>
                || |identifier| != 4
                || old(Overflows(Padding(|Data()|, minalign, additional) + minalign + additional))
      ensures Extends(old(Data()), Data())
      ensures status.Ok? ==>
                && |identifier| == 4 && |Data()| >= 4 && Data()[..4] == LowBytesOf(identifier)
                && Aligned(|Data()| + (additional - 4), minalign)
                && |Data()| == old(|Data()| + Padding(|Data()|, minalign, additional)) + 4
    {
      hide Limit, MaxCapacity, Valid, Data, Extends, IsFinished, Aligned, IsVectorStart, IsReference;
      hide Zeros, Padding, PowerOfTwo;
      ExtendsItself(Data());
      ghost var d0 := Data();
      :- Prep(minalign, additional);
      ghost var d1 := Data();
      PowersArePositive(minalign);
      PaddingAligns(|d0|, minalign, additional);
      if |identifier| != FILE_IDENTIFIER_LENGTH {
        return Thrown;
      }
      WriteUnits(identifier);
      ThenExtends(d0, LowBytesOf(identifier), d1);
      status := Ok;
    }

    /** Completes the buffer: the root, the identifier unless it is empty, and the size if asked for. */
    method Finish(rootTable: nat, identifier: seq<Utf.Unit>, sizePrefix: bool) returns (status: Status)
      requires Valid()
      modifies this`minalign, this`bytes, this`space, this`position, bytes
      ensures Valid() && (bytes == old(bytes) || fresh(bytes)) && minalign >= old(minalign)
      ensures Limit() == old(Limit())
      ensures Extends(old(Data()), Data())
      ensures status.Thrown? ==> |identifier| !in {0, 4} || bytes.Length >= FULL
      ensures status.Thrown? <==>
                || |identifier| !in {0, 4}
                || FinishNeed(old(|Data()|), old(minalign), identifier != [], sizePrefix) > old(Limit())
      ensures status.Ok? ==>
                && position == space && Aligned(|Data()|, minalign)
                && IsFinished(Data(), rootTable, identifier,
                              IdentifierGap(old(|Data()|), old(minalign), sizePrefix), sizePrefix)
      ensures status.Ok? && old(vtables) != [] ==> IsFinished(Data(), rootTable, identifier, 0, sizePrefix)
    {
      hide Limit, MaxCapacity, Valid, Data, Extends, IsFinished, Aligned, IsVectorStart, IsReference;
      hide Zeros, Padding, PowerOfTwo;
      ExtendsItself(Data());
      ghost var d0 := Data();
      PowersArePositive(minalign);
      var prefix := if sizePrefix then SIZE_PREFIX_LENGTH else 0;
      if identifier != [] {
        :- WriteIdentifier(identifier, SIZEOF_INT + FILE_IDENTIFIER_LENGTH + prefix);
      }
      ghost var d1 := Data();
      status := WriteRoot(rootTable, sizePrefix, prefix);
      ExtendsTransitive(d0, d1, Data());
      if status.Ok? {
        IsInPlace(|d0|, old(minalign), d1, rootTable, identifier, sizePrefix, Data());
        MarkStart();
      }
    }

    method MarkStart()
      requires Valid()
      modifies this`position
      ensures Valid() && position == space && Data() == old(Data())
    {
      hide Extends, VtablesStored, AllDifferent;
      position := space;
    }

    method WriteRoot(rootTable: nat, sizePrefix: bool, prefix: nat) returns (status: Status)
      requires Valid() && prefix == if sizePrefix then 4 else 0
      modifies this`minalign, this`bytes, this`space, this`position, bytes
      ensures Valid() && (bytes == old(bytes) || fresh(bytes)) && minalign >= old(minalign)
      ensures Limit() == old(Limit())
      ensures status.Thrown? ==> bytes.Length >= FULL
      ensures status.Thrown? <==> RootNeed(old(|Data()|), old(minalign), prefix) > old(Limit())
      ensures Extends(old(Data()), Data())
      ensures status.Ok? ==> Aligned(|Data()|, minalign) && IsFinished(Data(), rootTable, [], 0, sizePrefix)
      ensures status.Ok? && Aligned(old(|Data()|) + 4 + prefix, old(minalign)) ==>
                |Data()| == old(|Data()| + Padding(|Data()|, 4, 0)) + 4 + prefix
    {
      hide Limit, MaxCapacity, Valid, Data, Extends, IsFinished, Aligned, IsVectorStart, IsReference;
      hide Zeros, Padding, PowerOfTwo;
      ghost var d1 := Data();
      status := AddRoot(rootTable, prefix);
      if status.Ok? && sizePrefix {
        ghost var d3 := Data();
        status := AddSize(rootTable);
        ExtendsTransitive(d1, d3, Data());
      }
    }

    /** Aligns the buffer so that it will end up aligned behind the root and the size. */
    method PrepRoot(prefix: nat) returns (status: Status)
      requires Valid() && (prefix == 0 || prefix == 4)
      modifies this`minalign, this`bytes, this`space, this`position, bytes
      ensures Valid() && (bytes == old(bytes) || fresh(bytes)) && minalign == old(minalign)
      ensures Limit() == old(Limit())
      ensures status.Thrown? ==> bytes.Length >= FULL
      ensures status.Thrown? <==> old(Overflows(Padding(|Data()|, minalign, 4 + prefix) + minalign + 4 + prefix))
      ensures Extends(old(Data()), Data())
      ensures status.Ok? && minalign >= 4 ==> Aligned(|Data()| + 4 + prefix, minalign) && |Data()| % 4 == 0
      ensures status.Ok? ==> |Data()| == old(|Data()| + Padding(|Data()|, minalign, 4 + prefix))
      ensures status.Ok? && Aligned(old(|Data()|) + 4 + prefix, minalign) ==> Data() == old(Data())
    {
      hide Limit, MaxCapacity, Valid, Data, Extends, Aligned, Zeros, Padding, PowerOfTwo;
      ghost var d1 := Data();
      ExtendsItself(d1);
      PowersArePositive(minalign);
      :- Prep(minalign, SIZEOF_INT + prefix);
      RootIsAligned(d1, minalign, prefix, Data());
      status := Ok;
    }

    method AddRoot(rootTable: nat, prefix: nat) returns (status: Status)
      requires Valid() && (prefix == 0 || prefix == 4)
      modifies this`minalign, this`bytes, this`space, this`position, bytes
      ensures Valid() && (bytes == old(bytes) || fresh(bytes)) && minalign >= old(minalign)
      ensures Limit() == old(Limit())
      ensures status.Thrown? ==> bytes.Length >= FULL
      ensures status.Thrown? <==>
                || old(Overflows(Padding(|Data()|, minalign, 4 + prefix) + minalign + 4 + prefix))
                || WithRoot(old(|Data()|), old(minalign), prefix) > old(Limit())
      ensures Extends(old(Data()), Data())
      ensures status.Ok? ==>
                && minalign >= 4 && |Data()| % 4 == 0 && Aligned(|Data()| + prefix, minalign)
                && IsFinished(Data(), rootTable, [], 0, false)
      ensures status.Ok? ==> |Data()| == WithRoot(old(|Data()|), old(minalign), prefix)
      ensures status.Ok? && Aligned(old(|Data()|) + 4 + prefix, old(minalign)) ==>
                |Data()| == old(|Data()| + Padding(|Data()|, 4, 0)) + 4
    {
      hide Limit, MaxCapacity, Valid, Data, Extends, IsFinished, Aligned, IsReference, Zeros, Padding, PowerOfTwo;
      ghost var d1 := Data();
      :- PrepRoot(prefix);
      ghost var d2 := Data();
      status := AddOffset(rootTable);
      ExtendsTransitive(d1, d2, Data());
      if status.Ok? {
        RootIsAdded(d2, old(minalign), prefix, rootTable, Data());
      }
    }

    method AddSize(rootTable: nat) returns (status: Status)
      requires Valid() && minalign >= 4 && |Data()| % 4 == 0 && IsFinished(Data(), rootTable, [], 0, false)
      modifies this`minalign, this`bytes, this`space, this`position, bytes
      ensures Valid() && (bytes == old(bytes) || fresh(bytes)) && minalign == old(minalign)
      ensures Limit() == old(Limit())
      ensures status.Thrown? ==> bytes.Length >= FULL
      ensures status.Thrown? <==> old(Overflows(4))
      ensures Extends(old(Data()), Data())
      ensures status.Ok? ==> IsFinished(Data(), rootTable, [], 0, true) && |Data()| == old(|Data()|) + 4
    {
      hide Limit, MaxCapacity, Valid, Data, Extends, IsFinished, Aligned, IsVectorStart, IsReference;
      hide Zeros, Padding, PowerOfTwo;
      ghost var d3 := Data();
      NoPaddingOfWords(|d3|);
      status := AddInt32(Offset());
      if status.Ok? {
        SizeIsAdded(d3, rootTable, Data());
      }
    }
  }

  lemma {:induction false} RootIsAligned(d1: seq<Byte>, m: nat, prefix: nat, d2: seq<Byte>)
    requires PowerOfTwo(m) && (prefix == 0 || prefix == 4)
    requires d2 == Zeros(Padding(|d1|, m, 4 + prefix)) + d1
    ensures m >= 4 ==> Aligned(|d2| + 4 + prefix, m) && |d2| % 4 == 0
    ensures Aligned(|d1| + 4 + prefix, m) ==> d2 == d1
  {
    SmallPowers();
    PaddingAligns(|d1|, m, 4 + prefix);
    assert |d2| + 4 + prefix == |d1| + Padding(|d1|, m, 4 + prefix) + (4 + prefix);
    if m >= 4 {
      SmallerAlignment(|d2| + 4 + prefix, 4, m);
      var q := QuotientOf(|d2| + 4 + prefix, 4);
      RestIsUnique(|d2|, 4, q - 1 - prefix / 4, 0);
    }
    if Aligned(|d1| + 4 + prefix, m) {
      AlignedAlready(|d1| + 4 + prefix, m);
    }
  }

  lemma RootIsAdded(d2: seq<Byte>, m: nat, prefix: nat, rootTable: nat, d3: seq<Byte>)
    requires PowerOfTwo(m) && (prefix == 0 || prefix == 4)
    requires m >= 4 ==> Aligned(|d2| + 4 + prefix, m) && |d2| % 4 == 0
    requires d3 == Int32Bytes(|d3| - rootTable) + (Zeros(Padding(|d2|, 4, 0)) + d2)
    ensures |d3| % 4 == 0 && Aligned(|d3| + prefix, if m >= 4 then m else 4)
    ensures |d3| == |d2| + Padding(|d2|, 4, 0) + 4
    ensures IsReference(d3, rootTable) && |d3| < 0x8000_0000 ==> IsFinished(d3, rootTable, [], 0, false)
  {
    AddedScalar(d2, Int32Bytes(|d3| - rootTable), d3);
    if m >= 4 {
      NoPadding(d2, 4);
      assert |d3| + prefix == |d2| + 4 + prefix;
    } else {
      var q := QuotientOf(|d3|, 4);
      RestIsUnique(|d3| + prefix, 4, q + prefix / 4, 0);
    }
  }

  /** In a finished buffer, every scalar is aligned from the start as well. */
  lemma {:induction false} ScalarIsAligned(d0: seq<Byte>, scalar: seq<Byte>, d1: seq<Byte>, d: seq<Byte>,
                                           minalign: nat)
    requires scalar != [] && d1 == scalar + (Zeros(Padding(|d0|, |scalar|, 0)) + d0) && Extends(d1, d)
    requires PowerOfTwo(|scalar|) && PowerOfTwo(minalign) && |scalar| <= minalign && Aligned(|d|, minalign)
    ensures var at := |d| - |d1|; Aligned(at, |scalar|) && at + |scalar| <= |d| && d[at..at + |scalar|] == scalar
  {
    hide Aligned, PowerOfTwo, Zeros, Padding;
    AddedIsAligned(d0, scalar, d1);
    SmallerAlignment(|d|, |scalar|, minalign);
    DifferenceIsAligned(|d|, |d1|, |scalar|);
    FrontStays(d1, |d| - |d1|, scalar, d);
  }

  lemma AddedIsAligned(d0: seq<Byte>, scalar: seq<Byte>, d1: seq<Byte>)
    requires scalar != [] && d1 == scalar + (Zeros(Padding(|d0|, |scalar|, 0)) + d0)
    ensures Aligned(|d1|, |scalar|) && d1[..|scalar|] == scalar
  {
    PaddingAligns(|d0|, |scalar|, 0);
    OneMoreMultiple(|d0| + Padding(|d0|, |scalar|, 0), |scalar|);
  }

  lemma OneMoreMultiple(x: int, alignment: nat)
    requires Aligned(x, alignment)
    ensures Aligned(x + alignment, alignment)
  {
    var q := QuotientOf(x, alignment);
    RestIsUnique(x + alignment, alignment, q + 1, 0);
  }

  lemma DifferenceIsAligned(x: int, y: int, alignment: nat)
    requires Aligned(x, alignment) && Aligned(y, alignment)
    ensures Aligned(x - y, alignment)
  {
    var q := QuotientOf(x, alignment);
    var r := QuotientOf(y, alignment);
    MulDistributes(alignment, q, r);
    RestIsUnique(x - y, alignment, q - r, 0);
  }

  lemma MulDistributes(a: int, b: int, c: int)
    ensures a * (b - c) == a * b - a * c
  {}

  lemma SizeIsAdded(d3: seq<Byte>, rootTable: nat, d4: seq<Byte>)
    requires |d3| % 4 == 0 && d4 == Int32Bytes(|d3|) + (Zeros(Padding(|d3|, 4, 0)) + d3) && |d4| < 0x8000_0000
    requires IsFinished(d3, rootTable, [], 0, false)
    ensures |d4| == |d3| + 4 && Extends(d3, d4) && IsFinished(d4, rootTable, [], 0, true)
  {
    NoPadding(d3, 4);
    PrependExtends(Int32Bytes(|d3|), d3);
    ReadFirstWord(|d3|, d3);
    IndirectStays(d3, d4, |d3|);
  }

  /**
   The root resolves, the size is in its place if it is there, and the identifier stands `gap`
   bytes behind the root.
   */
  ghost predicate IsFinished(d: seq<Byte>, rootTable: nat, identifier: seq<Utf.Unit>, gap: nat, sizePrefix: bool) {
    var start := if sizePrefix then 4 else 0;
    && (identifier != [] ==> start + 4 + gap + |identifier| <= |d|) && start + 4 <= |d|
    && (sizePrefix ==> ReadInt32(d, 0) == |d| - 4)
    && (rootTable <= |d| - start ==> |d| - Indirect(d, start) == rootTable)
    && (identifier != [] ==> d[start + 4 + gap..start + 4 + gap + |identifier|] == LowBytesOf(identifier))
  }

  function IdentifierGap(offset: nat, minalign: nat, sizePrefix: bool): nat
    requires minalign > 0
  {
    Padding(offset + Padding(offset, minalign, 8 + if sizePrefix then 4 else 0) + 4, 4, 0)
  }

  /**
   The identifier stands right behind the root, where readers look for it, exactly if something
   was aligned to words before, or the bytes written before happen to fill words.
   */
  lemma IdentifierIsBehindRoot(offset: nat, minalign: nat, sizePrefix: bool)
    requires PowerOfTwo(minalign)
    ensures IdentifierGap(offset, minalign, sizePrefix) == 0 <==>
            minalign >= 4 || offset % 4 == 0 || (minalign == 2 && offset % 4 == 3)
  {
    hide PowerOfTwo, Padding;
    if minalign >= 4 {
      WordsAreFilled(offset, minalign, 8 + if sizePrefix then 4 else 0);
    } else {
      SmallGaps(offset, 8 + if sizePrefix then 4 else 0);
      assert minalign == 1 || minalign == 2 by {
        SmallPowersOnly(minalign);
      }
    }
  }

  lemma SmallPowersOnly(n: nat)
    requires PowerOfTwo(n) && n < 4
    ensures n == 1 || n == 2
  {}

  lemma WordsAreFilled(offset: nat, minalign: nat, additional: nat)
    requires PowerOfTwo(minalign) && minalign >= 4 && (additional == 8 || additional == 12)
    ensures Padding(offset + Padding(offset, minalign, additional) + 4, 4, 0) == 0
  {
    hide Padding, PowerOfTwo;
    var end := offset + Padding(offset, minalign, additional) + 4;
    SmallPowers();
    PaddingAligns(offset, minalign, additional);
    SmallerAlignment(end + additional - 4, 4, minalign);
    PaddingOfAligned(end, 4, 0);
  }

  lemma SmallGaps(offset: nat, additional: nat)
    requires additional == 8 || additional == 12
    ensures Padding(offset + Padding(offset, 1, additional) + 4, 4, 0) == 0 <==> offset % 4 == 0
    ensures Padding(offset + Padding(offset, 2, additional) + 4, 4, 0) == 0 <==> offset % 4 == 0 || offset % 4 == 3
  {
    var k, r := offset / 4, offset % 4;
    hide Missing;
    MissingToOne(offset + additional);
    MissingToFour(k + 1, r);
    MissingToFour(k + 1, r + r % 2);
    MissingToTwo(2 * (k + additional / 4), r);
  }

  lemma MissingToFour(k: nat, r: nat)
    requires r <= 4
    ensures Missing(4 * k + r, 4) == (4 - r) % 4
  {
    RestIsUnique(-(4 * k + r), 4, -(k as int) - (r + 3) / 4, (4 - r) % 4);
  }

  lemma MissingToTwo(k: nat, r: nat)
    requires r < 4
    ensures Missing(2 * k + r, 2) == r % 2
  {
    RestIsUnique(-(2 * k + r), 2, -(k as int) - (r + 1) / 2, r % 2);
  }

  lemma MissingToOne(x: nat)
    ensures Missing(x, 1) == 0
  {}

  /** A byte without any alignment: the identifier ends up behind three bytes of padding. */
  lemma IdentifierIsMisplaced()
    ensures PowerOfTwo(1) && IdentifierGap(1, 1, false) == 3
  {
    SmallPowers();
  }

  lemma IdentifierIsInPlace(d1: seq<Byte>, rootTable: nat, identifier: seq<Utf.Unit>, sizePrefix: bool, d: seq<Byte>)
    requires IsFinished(d, rootTable, [], 0, sizePrefix) && Extends(d1, d)
    requires |identifier| == 4 <= |d1| && d1[..4] == LowBytesOf(identifier)
    requires |d| == |d1| + Padding(|d1|, 4, 0) + 4 + if sizePrefix then 4 else 0
    ensures IsFinished(d, rootTable, identifier, Padding(|d1|, 4, 0), sizePrefix)
  {
    FrontStays(d1, Padding(|d1|, 4, 0) + if sizePrefix then 8 else 4, LowBytesOf(identifier), d);
  }

  /** The identifier, if there is one, stands where it should. */
  lemma {:induction false} IsInPlace(offset: nat, minalign: nat, d1: seq<Byte>, rootTable: nat,
                                     identifier: seq<Utf.Unit>, sizePrefix: bool, d: seq<Byte>)
    requires PowerOfTwo(minalign) && minalign > 0 && IsFinished(d, rootTable, [], 0, sizePrefix) && Extends(d1, d)
    requires identifier != [] ==>
               && |identifier| == 4 <= |d1| && d1[..4] == LowBytesOf(identifier)
               && |d1| == offset + Padding(offset, minalign, 8 + if sizePrefix then 4 else 0) + 4
               && |d| == |d1| + Padding(|d1|, 4, 0) + 4 + if sizePrefix then 4 else 0
    ensures IsFinished(d, rootTable, identifier, IdentifierGap(offset, minalign, sizePrefix), sizePrefix)
    ensures minalign >= 4 ==> IsFinished(d, rootTable, identifier, 0, sizePrefix)
  {
    hide IsFinished, Extends, Padding, PowerOfTwo, LowBytesOf;
    IdentifierIsBehindRoot(offset, minalign, sizePrefix);
    if identifier != [] {
      IdentifierIsInPlace(d1, rootTable, identifier, sizePrefix, d);
    } else {
      NoIdentifier(rootTable, IdentifierGap(offset, minalign, sizePrefix), sizePrefix, d);
    }
  }

  lemma NoIdentifier(rootTable: nat, gap: nat, sizePrefix: bool, d: seq<Byte>)
    requires IsFinished(d, rootTable, [], 0, sizePrefix)
    ensures IsFinished(d, rootTable, [], gap, sizePrefix)
  {}

  lemma FrontStays(d1: seq<Byte>, at: nat, front: seq<Byte>, d: seq<Byte>)
    requires Extends(d1, d) && |d| == |d1| + at && |front| <= |d1| && d1[..|front|] == front
    ensures d[at..at + |front|] == front
  {
    assert d1 == d[at..];
    assert d[at..][..|front|] == d[at..at + |front|];
  }

  /** The low bytes of the units from `i` on. */
  function LowBytesFrom(units: seq<Utf.Unit>, i: nat): (b: seq<Byte>)
    requires i <= |units|
    ensures |b| == |units| - i
    decreases |units| - i
  {
    if i == |units| then [] else [units[i] % 0x100] + LowBytesFrom(units, i + 1)
  }

  function LowBytesOf(units: seq<Utf.Unit>): (b: seq<Byte>)
    ensures |b| == |units|
  {
    LowBytesFrom(units, 0)
  }

  lemma NoUnits(units: seq<Utf.Unit>, d: seq<Byte>)
    ensures LowBytesFrom(units, |units|) + d == d
  {}

  lemma OneMoreUnit(units: seq<Utf.Unit>, i: nat, d: seq<Byte>)
    requires i < |units|
    ensures [units[i] % 0x100] + (LowBytesFrom(units, i + 1) + d) == LowBytesFrom(units, i) + d
  {}

  /** A string as it is stored: its size, its bytes, and a zero that ends it. */
  function StringBytes(utf8: seq<Byte>): seq<Byte> {
    Int32Bytes(|utf8|) + (utf8 + [0])
  }

  lemma StringIsStored(d0: seq<Byte>, utf8: seq<Byte>, z: seq<Byte>, d: seq<Byte>)
    requires IsVectorStart([0] + d0, |utf8|, 1, z) && d == Int32Bytes(|utf8|) + (utf8 + z)
    ensures HoldsAt(d, |d|, StringBytes(utf8)) && |d| % 4 == 0 && Extends(d0, d)
  {
    StringStart(d0, |utf8|, z);
    hide IsVectorStart, Extends, Int32Bytes;
    ThenExtends(d0, utf8, z);
    ThenExtends(d0, Int32Bytes(|utf8|), utf8 + z);
    assert |d| == 4 + |utf8| + |z|;
    FourMore(|z| + |utf8|, |d|);
    assert d[0..|StringBytes(utf8)|] == StringBytes(utf8);
  }

  lemma FourMore(x: nat, y: nat)
    requires Aligned(x, 4) && y == x + 4
    ensures y % 4 == 0
  {}

  /** The zero that ends a string stands at the start of its padding. */
  lemma StringStart(d0: seq<Byte>, length: nat, z: seq<Byte>)
    requires IsVectorStart([0] + d0, length, 1, z)
    ensures z != [] && z[0] == 0 && Extends(d0, z) && Aligned(|z| + length, 4)
  {
    var d := [0] + d0;
    if |z| == |d| {
      assert z == z[|z| - |d|..] == d;
    }
    PrependExtends([0], d0);
    ExtendsTransitive(d0, d, z);
  }

  /** Nothing but zeros in front of `d`, so that `size` more bytes are aligned to words and to `alignment`. */
  ghost predicate IsVectorStart(d: seq<Byte>, size: nat, alignment: nat, d': seq<Byte>) {
    && Extends(d, d') && (forall i :: 0 <= i < |d'| - |d| ==> d'[i] == 0)
    && Aligned(|d'| + size, alignment) && Aligned(|d'| + size, 4)
  }

  lemma VectorStarts(d0: seq<Byte>, size: nat, alignment: nat, d1: seq<Byte>, d2: seq<Byte>)
    requires PowerOfTwo(alignment)
    requires d1 == Zeros(Padding(|d0|, 4, size)) + d0 && d2 == Zeros(Padding(|d1|, alignment, size)) + d1
    ensures IsVectorStart(d0, size, alignment, d2) && Extends(d0, d2)
    ensures alignment <= 4 ==> d2 == d1
  {
    hide Padding, PowerOfTwo;
    PowersArePositive(alignment);
    var p, q := Padding(|d0|, 4, size), Padding(|d1|, alignment, size);
    VectorAlignment(|d0|, p, size, alignment, q);
    ZerosInFront(p, q, size, alignment, d0);
  }

  lemma ZerosInFront(p: nat, q: nat, size: nat, alignment: nat, d0: seq<Byte>)
    requires Aligned(|d0| + p + q + size, alignment) && Aligned(|d0| + p + q + size, 4)
    ensures IsVectorStart(d0, size, alignment, Zeros(q) + (Zeros(p) + d0))
    ensures q == 0 ==> Zeros(q) + (Zeros(p) + d0) == Zeros(p) + d0
  {
    hide Aligned, Extends;
    var d1 := Zeros(p) + d0;
    var d2 := Zeros(q) + d1;
    AreZeros(p, d0);
    AreZeros(q, d1);
    PrependExtends(Zeros(p), d0);
    PrependExtends(Zeros(q), d1);
    ExtendsTransitive(d0, d1, d2);
    assert |d2| == |d0| + p + q;
    forall i | 0 <= i < |d2| - |d0|
      ensures d2[i] == 0
    {
      if i >= q {
        assert d2[i] == d1[i - q];
      }
    }
  }

  lemma VectorAlignment(offset: nat, p: nat, size: nat, alignment: nat, q: nat)
    requires PowerOfTwo(alignment)
    requires p == Padding(offset, 4, size) && q == Padding(offset + p, alignment, size)
    ensures Aligned(offset + p + q + size, alignment) && Aligned(offset + p + q + size, 4)
    ensures alignment <= 4 ==> q == 0
  {
    hide Padding;
    SmallPowers();
    PaddingAligns(offset, 4, size);
    PaddingAligns(offset + p, alignment, size);
    if alignment <= 4 {
      SmallerAlignment(offset + p + size, alignment, 4);
      PaddingOfAligned(offset + p, alignment, size);
    } else {
      SmallerAlignment(offset + p + q + size, 4, alignment);
    }
  }

  lemma PaddingOfAligned(offset: nat, size: nat, additional: nat)
    requires Aligned(offset + additional, size)
    ensures Padding(offset, size, additional) == 0
  {
    AlignedAlready(offset + additional, size);
  }

  lemma NoPaddingOfWords(offset: nat)
    requires offset % 4 == 0
    ensures Padding(offset, 4, 0) == 0
  {
    AlignedAlready(offset, 4);
  }

  lemma {:induction false} AreZeros(n: nat, d: seq<Byte>)
    ensures forall i :: 0 <= i < n ==> (Zeros(n) + d)[i] == 0
  {
    if n > 0 {
      AreZeros(n - 1, d);
      assert (Zeros(n) + d)[1..] == Zeros(n - 1) + d;
      forall i | 0 <= i < n
        ensures (Zeros(n) + d)[i] == 0
      {
        if i > 0 {
          assert (Zeros(n) + d)[1..][i - 1] == 0;
        }
      }
    }
  }

  /** A new table: room for the offset to its vtable, in front of the padding. */
  ghost function Blank(d0: seq<Byte>): (b: seq<Byte>)
    ensures |b| == |d0| + Padding(|d0|, 4, 0) + 4
  {
    Int32Bytes(0) + (Zeros(Padding(|d0|, 4, 0)) + d0)
  }

  lemma FrontAndRest(v: seq<Byte>, rest: seq<Byte>)
    requires 4 <= |rest|
    ensures (v + rest)[..|v|] == v && (v + rest)[|v|..] == rest && (v + rest)[|v| + 4..] == rest[4..]
  {}

  lemma EmptyFront(d: seq<Byte>, before: seq<Byte>, word: seq<Byte>)
    requires 4 <= |before| && d == before[..0] + (word + before[4..])
    ensures d == word + before[4..]
  {}

  lemma ThenExtends(d: seq<Byte>, front: seq<Byte>, d': seq<Byte>)
    requires Extends(d, d')
    ensures Extends(d, front + d')
  {
    PrependExtends(front, d');
    ExtendsTransitive(d, d', front + d');
  }

  lemma EvenFromFour(x: nat)
    requires x % 4 == 0
    ensures x % 2 == 0
  {
    RestIsUnique(x, 2, 2 * (x / 4), 0);
  }

  lemma VtableParts(slots: map<nat, nat>, table: nat, start: nat, n: nat, d: seq<Byte>, w: seq<Byte>, w': seq<Byte>)
    requires forall k :: 0 <= k < n ==> k in slots
    requires w == Entries(slots, table, 0, n) + d && w' == Int16Bytes(4 + 2 * n) + (Int16Bytes(table - start) + w)
    ensures w' == VtableBytes(slots, table, start, n) + d
  {}

  lemma NewVtable(v: seq<Byte>, d: seq<Byte>)
    requires IsVtable(v)
    ensures (v + d)[..2] == Int16Bytes(|v|) && (v + d)[..|v|] == v
  {
    assert (v + d)[..2] == v[..2];
  }

  /** Where the size that is read equals one that was written, the sizes agree in the first two bytes. */
  lemma SizesAgree(d: seq<Byte>, len: nat, at: nat)
    requires at + 2 <= |d| && 2 <= |d| && d[..2] == Int16Bytes(len) && ReadInt16(d, at) == len
    ensures SameUpTo(d, at, 2)
  {
    assert d[0..2] == d[..2];
    ReadInt16Bytes(d, 0, len);
    SamePair(d, 0, at);
  }

  /** Replacing a word of a buffer replaces it in what has been written. */
  lemma Patched(b: seq<Byte>, space: nat, offset: nat, word: seq<Byte>, b': seq<Byte>)
    requires space <= offset && offset + |word| <= |b|
    requires b' == b[..offset] + word + b[offset + |word|..]
    ensures b'[space..] == b[space..offset] + (word + b[offset + |word|..])
  {}

  /** The offset to the vtable replaces the first word of the table. */
  lemma WithOffset(d0: seq<Byte>, word: seq<Byte>)
    requires |word| == 4
    ensures Extends(d0, word + Blank(d0)[4..])
  {
    var padding := Zeros(Padding(|d0|, 4, 0));
    assert Blank(d0)[4..] == padding + d0;
    PrependExtends(padding, d0);
    ThenExtends(d0, word, padding + d0);
  }

  lemma TableFinished(d: seq<Byte>, v: nat, slots: map<nat, nat>, table: nat, start: nat, n: nat, numFields: nat)
    requires TrimmedAt(slots, n, numFields) && HoldsAt(d, v, VtableBytes(slots, table, start, n))
    requires table <= |d| && table % 4 == 0 && ReadInt32(d, |d| - table) == v - table
    ensures IsTable(d, table) && FieldsStored(d, table, slots, numFields)
  {
    VtableFields(d, v, table, slots, start, n, numFields);
  }

  lemma HoldsPrefix(d: seq<Byte>, v: nat, c: seq<Byte>, front: seq<Byte>)
    requires HoldsAt(d, v, c) && front <= c
    ensures HoldsAt(d, v, front)
  {
    SliceOfSlice(d, |d| - v, |c|, 0, |front|);
    assert c[0..|front|] == front;
  }

  lemma SharedIsStored(d0: seq<Byte>, vtables: seq<nat>, contents: seq<seq<Byte>>, k: nat, slots: map<nat, nat>,
                       table: nat, start: nat, n: nat, numFields: nat, d: seq<Byte>)
    requires TrimmedAt(slots, n, numFields) && VtablesStored(d0, vtables, contents)
    requires table == |Blank(d0)| < 0x8000_0000 && table % 4 == 0
    requires k < |vtables| && VtableBytes(slots, table, start, n) <= contents[k]
    requires d == Int32Bytes(vtables[k] - table) + Blank(d0)[4..]
    ensures VtablesStored(d, vtables, contents) && Extends(d0, d)
    ensures IsTable(d, table) && FieldsStored(d, table, slots, numFields)
  {
    WithOffset(d0, Int32Bytes(vtables[k] - table));
    VtablesStay(d0, d, vtables, contents);
    ReadFirstWord(vtables[k] - table, Blank(d0)[4..]);
    HoldsPrefix(d, vtables[k], contents[k], VtableBytes(slots, table, start, n));
    TableFinished(d, vtables[k], slots, table, start, n, numFields);
  }

  lemma FreshIsStored(d0: seq<Byte>, vtables: seq<nat>, contents: seq<seq<Byte>>, slots: map<nat, nat>,
                      table: nat, start: nat, n: nat, numFields: nat, d: seq<Byte>)
    requires TrimmedAt(slots, n, numFields) && VtablesStored(d0, vtables, contents)
    requires table == |Blank(d0)| && table % 4 == 0 && |d| < 0x8000_0000
    requires var v := VtableBytes(slots, table, start, n); d == v + (Int32Bytes(|d| - table) + Blank(d0)[4..])
    ensures VtablesStored(d, vtables + [|d|], contents + [VtableBytes(slots, table, start, n)]) && Extends(d0, d)
    ensures IsTable(d, table) && FieldsStored(d, table, slots, numFields)
  {
    var v := VtableBytes(slots, table, start, n);
    WithOffset(d0, Int32Bytes(|d| - table));
    ThenExtends(d0, v, Int32Bytes(|d| - table) + Blank(d0)[4..]);
    VtablesStay(d0, d, vtables, contents);
    assert d[..|v|] == v;
    assert HoldsAt(d, |d|, v);
    ReadWord(v, |d| - table, Blank(d0)[4..]);
    TableFinished(d, |d|, slots, table, start, n, numFields);
  }

  lemma SamePair(d: seq<Byte>, i: nat, j: nat)
    requires ReadInt16(d, i) == ReadInt16(d, j) && i + 2 <= |d| && j + 2 <= |d|
    ensures d[i] == d[j] && d[i + 1] == d[j + 1]
  {
    SameInt16SameBytes(d, i, j);
  }

  ghost predicate SameUpTo(d: seq<Byte>, at: nat, j: nat) {
    at + j <= |d| && forall k :: 0 <= k < j ==> d[k] == d[at + k]
  }

  lemma ComparePair(d: seq<Byte>, at: nat, len: nat, j: nat)
    requires j + 2 <= len && at + len <= |d| && SameUpTo(d, at, j)
    ensures if ReadInt16(d, j) == ReadInt16(d, at + j) then SameUpTo(d, at, j + 2) else !SameUpTo(d, at, len)
  {
    if ReadInt16(d, j) == ReadInt16(d, at + j) {
      SamePair(d, j, at + j);
    }
  }

  lemma SameSlices(d: seq<Byte>, at: nat, len: nat)
    requires at + len <= |d|
    ensures SameUpTo(d, at, len) <==> d[at..at + len] == d[..len]
  {
    if d[at..at + len] == d[..len] {
      forall k | 0 <= k < len
        ensures d[k] == d[at + k]
      {
        assert d[k] == d[..len][k] && d[at + k] == d[at..at + len][k];
      }
    }
  }

  /** What comparing with the vtable at `v` amounts to. */
  lemma {:induction false} ReadVtable(d: seq<Byte>, v: nat, c: seq<Byte>, len: nat)
    requires HoldsAt(d, v, c) && IsVtable(c) && 4 <= len <= |d| && d[..2] == Int16Bytes(len)
    ensures v <= |d| && 2 <= v && ReadInt16(d, |d| - v) == ToInt16(|c|)
    ensures ToInt16(|c|) == len ==>
              && len <= v && SameUpTo(d, |d| - v, 2)
              && (SameUpTo(d, |d| - v, len) <==> d[..len] <= c)
  {
    ReadHeld(d, v, c, 0);
    VtableSize(c);
    if ToInt16(|c|) == len {
      SizesAgree(d, len, |d| - v);
      SameFront(d, v, c, len);
    }
  }

  lemma SameFront(d: seq<Byte>, v: nat, c: seq<Byte>, len: nat)
    requires HoldsAt(d, v, c) && len <= |c|
    ensures SameUpTo(d, |d| - v, len) <==> d[..len] <= c
  {
    var at := |d| - v;
    SameSlices(d, at, len);
    SliceOfSlice(d, at, |c|, 0, len);
    assert c[..len] == c[0..len] == d[at..at + len];
  }

  lemma AlignedAlready(x: nat, size: nat)
    requires size > 0 && x % size == 0
    ensures Missing(x, size) == 0
  {
    var q := QuotientOf(x, size);
    var y: int := -(x as int);
    assert y == size * (-q) + 0;
    RestIsUnique(y, size, -q, 0);
  }

  /** What is already aligned needs no padding. */
  lemma NoPadding(d: seq<Byte>, size: nat)
    requires size > 0 && |d| % size == 0
    ensures Zeros(Padding(|d|, size, 0)) + d == d
  {
    AlignedAlready(|d|, size);
  }

  /** What was written last is an aligned reference to `target`. */
  ghost predicate IsReference(d: seq<Byte>, target: nat) {
    |d| % 4 == 0 && (target <= |d| < 0x8000_0000 ==> |d| - Indirect(d, 0) == target)
  }

  lemma ReferenceResolves(d: seq<Byte>, target: nat, d': seq<Byte>)
    requires d' == Int32Bytes(|d'| - target) + (Zeros(Padding(|d|, 4, 0)) + d)
    ensures Extends(d, d') && |d'| > |d| && IsReference(d', target)
  {
    var rest := Zeros(Padding(|d|, 4, 0)) + d;
    AddedScalar(d, Int32Bytes(|d'| - target), d');
    if target <= |d'| < 0x8000_0000 {
      ReadFirstWord(|d'| - target, rest);
    }
  }

  /** An aligned scalar sits at a multiple of its size from the end, where it can be read. */
  lemma AddedScalar(d: seq<Byte>, scalar: seq<Byte>, d': seq<Byte>)
    requires |scalar| > 0 && d' == scalar + (Zeros(Padding(|d|, |scalar|, 0)) + d)
    ensures Extends(d, d') && |d'| > |d| && |d'| % |scalar| == 0 && d'[..|scalar|] == scalar
  {
    var k := Padding(|d|, |scalar|, 0);
    PaddingAligns(|d|, |scalar|, 0);
    var q := QuotientOf(|d| + k, |scalar|);
    assert |d'| == |scalar| * (q + 1) + 0;
    RestIsUnique(|d'|, |scalar|, q + 1, 0);
  }
}
