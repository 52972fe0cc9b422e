/**
 What a reader finds in a finished buffer: fields, references, strings and vectors lead back
 to what was written, whatever was built after it.
 */
module FlatReader {
  import opened Common
  import opened FlatBytes
  import opened FlatBuilder
  import Utf

  // Fields

  lemma SmallInt16(v: int)
    ensures ToInt16(v) == v <==> -0x8000 <= v < 0x8000
  {}

  /** The table that ends `table` bytes before the end was completed in `d` with these slots. */
  ghost predicate IsCompleted(d: seq<Byte>, table: nat, slots: map<nat, nat>, numFields: nat) {
    IsTable(d, table) && FieldsStored(d, table, slots, numFields)
  }

  lemma CompletedFieldStays(d: seq<Byte>, d': seq<Byte>, table: nat, slots: map<nat, nat>, numFields: nat, i: nat)
    requires IsCompleted(d, table, slots, numFields) && Extends(d, d')
    ensures FieldOf(d', table, i) == FieldOf(d, table, i)
  {
    FieldStays(d, d', table, 4 + 2 * i);
  }

  /** A slot that was not set is absent, and one that was set is present if it is seen and near enough. */
  lemma PresentExactlyIfSet(d: seq<Byte>, d': seq<Byte>, table: nat, slots: map<nat, nat>, numFields: nat, i: nat)
    requires IsCompleted(d, table, slots, numFields) && Extends(d, d')
    requires i < numFields && i in slots && slots[i] < table
    ensures slots[i] == 0 ==> FieldOf(d', table, i) == 0
    ensures slots[i] != 0 && table - slots[i] < 0x1_0000 ==>
              (FieldOf(d', table, i) != 0 <==> IsSeen(slots, numFields, i))
  {
    hide Extends, FieldOf, IsSeen;
    CompletedFieldStays(d, d', table, slots, numFields, i);
  }

  lemma UnknownSlotIsAbsent(d: seq<Byte>, d': seq<Byte>, table: nat, slots: map<nat, nat>, numFields: nat, i: nat)
    requires IsCompleted(d, table, slots, numFields) && Extends(d, d') && i >= numFields
    ensures FieldOf(d', table, i) == 0
  {
    hide Extends, FieldOf, IsSeen;
    CompletedFieldStays(d, d', table, slots, numFields, i);
  }

  /**
   Sizes and offsets have 15 bits: a field is found exactly if its slot is seen, and if it is at
   most that far from its table.
   */
  lemma FoundExactlyIfNear(d: seq<Byte>, d': seq<Byte>, table: nat, slots: map<nat, nat>, numFields: nat, i: nat)
    requires IsCompleted(d, table, slots, numFields) && Extends(d, d')
    requires i < numFields && i in slots && 0 < slots[i] < table
    ensures |d'| - table + FieldOf(d', table, i) == |d'| - slots[i] <==>
            IsSeen(slots, numFields, i) && table - slots[i] < 0x8000
  {
    hide Extends, FieldOf, ToInt16, IsSeen;
    CompletedFieldStays(d, d', table, slots, numFields, i);
    SmallInt16(table - slots[i]);
  }

  /** A table with its only field 2^15 bytes behind its start: the field is not found. */
  lemma FarFieldIsMissed(field: seq<Byte>)
    requires |field| == 4
    ensures var table, slots := 0x8004, map[0 := 4];
            var d := VtableBytes(slots, table, 0, 1) + (Int32Bytes(6) + (Zeros(0x7FFC) + field));
            && IsCompleted(d, table, slots, 1) && IsSeen(slots, 1, 0) && slots[0] < table
            && |d| - table + FieldOf(d, table, 0) != |d| - slots[0]
  {
    var table, slots := 0x8004, map[0 := 4];
    var v, rest := VtableBytes(slots, table, 0, 1), Zeros(0x7FFC) + field;
    var d := v + (Int32Bytes(6) + rest);
    assert IsSet(slots, 0) && TrimmedLength(slots, 1) == 1;
    hide VtableBytes, Int32Bytes;
    assert |d| == 6 + table;
    assert HoldsAt(d, |d|, v) by {
      assert d[0..6] == v;
    }
    ReadWord(v, 6, rest);
    TableFinished(d, |d|, slots, table, 0, 1, 1);
    FoundExactlyIfNear(d, d, table, slots, 1, 0) by {
      ExtendsItself(d);
    }
  }

  /** With one slot too many, none of the fields is seen. */
  lemma TooManyFieldsAreLost(slots: map<nat, nat>, i: nat)
    requires IsSet(slots, MAX_FIELDS)
    ensures !IsSeen(slots, MAX_FIELDS + 1, i)
  {
    assert TrimmedLength(slots, MAX_FIELDS + 1) == MAX_FIELDS + 1;
  }

  /** An integer field reads as the integer that was added, whatever is built after the table. */
  lemma Int32FieldRoundTrip(field: seq<Byte>, d: seq<Byte>, d': seq<Byte>, table: nat, slots: map<nat, nat>,
                            numFields: nat, i: nat, value: int)
    requires IsCompleted(d, table, slots, numFields) && Extends(field, d) && Extends(d, d')
    requires i < numFields && i in slots && slots[i] == |field| && IsSeen(slots, numFields, i)
    requires 0 < |field| < table && table - |field| < 0x8000 && ReadInt32(field, 0) == ToInt32(value)
    ensures ReadInt32(d', |d'| - table + FieldOf(d', table, i)) == ToInt32(value)
  {
    hide Extends, FieldOf, ReadInt32, ToInt32;
    FoundExactlyIfNear(d, d', table, slots, numFields, i);
    ExtendsTransitive(field, d, d');
    IntStays(field, d', 0);
  }

  /** A reference field leads to the object, string or vector that it was set to. */
  lemma OffsetFieldRoundTrip(field: seq<Byte>, d: seq<Byte>, d': seq<Byte>, table: nat, slots: map<nat, nat>,
                             numFields: nat, i: nat, target: nat)
    requires IsCompleted(d, table, slots, numFields) && Extends(field, d) && Extends(d, d')
    requires i < numFields && i in slots && slots[i] == |field| && IsSeen(slots, numFields, i)
    requires 0 < |field| < table && table - |field| < 0x8000
    requires IsReference(field, target) && target <= |field| < 0x8000_0000
    ensures |d'| - Indirect(d', |d'| - table + FieldOf(d', table, i)) == target
  {
    hide Extends, FieldOf, ReadInt32;
    FoundExactlyIfNear(d, d', table, slots, numFields, i);
    ExtendsTransitive(field, d, d');
    IndirectStays(field, d', |field|);
  }

  // Strings

  /** What is held somewhere can be read byte by byte. */
  lemma HeldAt(d: seq<Byte>, v: nat, c: seq<Byte>, i: nat, part: seq<Byte>)
    requires HoldsAt(d, v, c) && i + |part| <= |c| && c[i..i + |part|] == part
    ensures d[|d| - v + i..|d| - v + i + |part|] == part
  {
    SliceOfSlice(d, |d| - v, |c|, i, i + |part|);
  }

  lemma HeldWord(d: seq<Byte>, v: nat, n: nat, rest: seq<Byte>)
    requires HoldsAt(d, v, Int32Bytes(n) + rest) && n < 0x8000_0000
    ensures ReadInt32(d, |d| - v) == n
  {
    var c := Int32Bytes(n) + rest;
    assert c[0..4] == Int32Bytes(n);
    HeldAt(d, v, c, 0, Int32Bytes(n));
    ReadInt32Bytes(d, |d| - v, n);
    SmallInt32(n);
  }

  lemma HeldRest(d: seq<Byte>, v: nat, word: seq<Byte>, rest: seq<Byte>)
    requires HoldsAt(d, v, word + rest)
    ensures d[|d| - v + |word|..|d| - v + |word| + |rest|] == rest
  {
    var c := word + rest;
    assert c[|word|..|word| + |rest|] == rest;
    HeldAt(d, v, c, |word|, rest);
  }

  /** `ref` bytes before the end of the buffer, there is a reference to what ends `target` bytes before it. */
  ghost predicate LeadsTo(d: seq<Byte>, ref: nat, target: nat) {
    ref <= |d| && |d| - Indirect(d, |d| - ref) == target
  }

  /** The bytes of a stored string, and the zero behind them. */
  lemma StringIsFound(d: seq<Byte>, ref: nat, target: nat, utf8: seq<Byte>)
    requires LeadsTo(d, ref, target) && HoldsAt(d, target, StringBytes(utf8)) && |utf8| < 0x8000_0000
    ensures VectorLength(d, |d| - ref) == |utf8| && VectorStart(d, |d| - ref) >= 0
    ensures Utf.StartsAt(d, VectorStart(d, |d| - ref), utf8 + [0])
  {
    HeldWord(d, target, |utf8|, utf8 + [0]);
    HeldRest(d, target, Int32Bytes(|utf8|), utf8 + [0]);
  }

  /** A created string reads back as it was exactly if all its high surrogates are paired. */
  lemma CreatedStringReadsBack(d: seq<Byte>, d': seq<Byte>, ref: nat, target: nat, s: seq<Utf.Unit>)
    requires HoldsAt(d, target, StringBytes(Utf.Encode(s))) && Extends(d, d') && |Utf.Encode(s)| < 0x8000_0000
    requires LeadsTo(d', ref, target)
    ensures VectorStart(d', |d'| - ref) >= 0
    ensures var start := VectorStart(d', |d'| - ref);
            Utf.Decode(d', start, start + VectorLength(d', |d'| - ref)) == s <==> Utf.HighSurrogatesPaired(s)
  {
    hide LeadsTo, HoldsAt, Extends, VectorStart, VectorLength;
    hide Utf.Decode, Utf.Encode, Utf.HighSurrogatesPaired, Utf.StartsAt;
    var utf8 := Utf.Encode(s);
    HoldsStill(d, d', target, StringBytes(utf8));
    StringIsFound(d', ref, target, utf8);
    var start := VectorStart(d', |d'| - ref);
    Utf.StartsWithBoth(d', start, utf8, [0]);
    Utf.StringRoundTrip(s, d', start);
  }

  // Vectors

  function Int32sBytes(data: seq<int>): (b: seq<Byte>)
    ensures |b| == 4 * |data|
  {
    if data == [] then [] else Int32Bytes(data[0]) + Int32sBytes(data[1..])
  }

  function VectorBytes(data: seq<int>): seq<Byte> {
    Int32Bytes(|data|) + Int32sBytes(data)
  }

  lemma {:induction false} Int32sAt(data: seq<int>, k: nat)
    requires k < |data|
    ensures Int32sBytes(data)[4 * k..4 * k + 4] == Int32Bytes(data[k])
  {
    var b, rest := Int32sBytes(data), Int32sBytes(data[1..]);
    if k == 0 {
      assert b[0..4] == Int32Bytes(data[0]);
    } else {
      Int32sAt(data[1..], k - 1);
      assert b[4 * k..4 * k + 4] == rest[4 * (k - 1)..4 * (k - 1) + 4];
    }
  }

  lemma OneMoreInt32(data: seq<int>, i: nat, d: seq<Byte>)
    requires i < |data|
    ensures Int32Bytes(data[i]) + (Int32sBytes(data[i + 1..]) + d) == Int32sBytes(data[i..]) + d
  {
    assert data[i..][1..] == data[i + 1..];
  }

  /**
   Writes a vector of integers the way generated code does: the elements from the last to
   the first.  No padding gets between them, since the vector was aligned for all of them.
   */
  method CreateInt32Vector(builder: Builder, data: seq<int>) returns (status: Status, vector: nat)
    requires builder.Valid()
    modifies builder`minalign, builder`bytes, builder`space, builder`position, builder`vectorNumElems, builder.bytes
    ensures builder.Valid() && (builder.bytes == old(builder.bytes) || fresh(builder.bytes))
    ensures Extends(old(builder.Data()), builder.Data())
    ensures builder.Limit() == old(builder.Limit())
    ensures status.Thrown? <==>
              old(builder.isNested) || VectorNeed(old(|builder.Data()|), 4 * |data|, 4) > old(builder.Limit())
    ensures status.Thrown? ==> old(builder.isNested) || builder.bytes.Length >= FULL
    ensures status.Ok? ==>
              && vector == |builder.Data()| && vector % 4 == 0
              && HoldsAt(builder.Data(), vector, VectorBytes(data))
  {
    hide Extends, HoldsAt, Builder.Valid, Builder.Data, IsVectorStart;
    vector := 0;
    ghost var d0 := builder.Data();
    SmallPowers();
    status := builder.StartVector(4, |data|, 4);
    if status.Ok? {
      ghost var z := builder.Data();
      VectorStartIsAligned(d0, |data|, z);
      AddInt32s(builder, data);
      ExtendsTransitive(d0, z, builder.Data());
      vector := builder.EndVector();
      VectorIsStored(d0, data, z, builder.Data());
      StillAligned(|z|, |data| + 1, vector);
    }
  }

  /** Room was made for all elements, so that none of them makes the buffer grow. */
  method AddInt32s(builder: Builder, data: seq<int>)
    requires builder.Valid() && |builder.Data()| % 4 == 0 && builder.space >= 4 + 4 * |data|
    modifies builder`minalign, builder`bytes, builder`space, builder`position, builder.bytes
    ensures builder.Valid() && (builder.bytes == old(builder.bytes) || fresh(builder.bytes))
    ensures builder.minalign >= old(builder.minalign) && Extends(old(builder.Data()), builder.Data())
    ensures builder.Limit() == old(builder.Limit())
    ensures builder.Data() == Int32sBytes(data) + old(builder.Data()) && builder.space >= 4
  {
    hide Extends, Builder.Valid, Builder.Data, Int32sBytes, Int32Bytes;
    ghost var d := builder.Data();
    ExtendsItself(d);
    NoInt32s(data, d);
    var i := |data|;
    while i > 0
      invariant 0 <= i <= |data|
      invariant builder.Valid() && (builder.bytes == old(builder.bytes) || fresh(builder.bytes))
      invariant builder.minalign >= old(builder.minalign) && Extends(d, builder.Data())
      invariant builder.Limit() == old(builder.Limit())
      invariant builder.Data() == Int32sBytes(data[i..]) + d && builder.space >= 4 + 4 * i
    {
      i := i - 1;
      ghost var before := builder.Data();
      NoPaddingBehind(data[i + 1..], d);
      var status := builder.AddInt32(data[i]);
      assert status.Ok?;
      ExtendsTransitive(d, before, builder.Data());
      AddedInt32(data, i, d, before, builder.Data());
    }
    assert data[0..] == data;
  }

  lemma NoPaddingBehind(data: seq<int>, d: seq<Byte>)
    requires |d| % 4 == 0
    ensures Padding(|Int32sBytes(data) + d|, 4, 0) == 0
  {
    var q := QuotientOf(|d|, 4);
    RestIsUnique(|Int32sBytes(data) + d|, 4, q + |data|, 0);
    NoPadding(Int32sBytes(data) + d, 4);
  }

  lemma NoInt32s(data: seq<int>, d: seq<Byte>)
    ensures Int32sBytes(data[|data|..]) + d == d
  {}

  lemma AddedInt32(data: seq<int>, i: nat, d: seq<Byte>, before: seq<Byte>, after: seq<Byte>)
    requires i < |data| && |d| % 4 == 0 && before == Int32sBytes(data[i + 1..]) + d
    requires after == Int32Bytes(data[i]) + (Zeros(Padding(|before|, 4, 0)) + before)
    ensures after == Int32sBytes(data[i..]) + d && |after| == |before| + 4
  {
    var q := QuotientOf(|d|, 4);
    RestIsUnique(|before|, 4, q + |data[i + 1..]|, 0);
    NoPadding(before, 4);
    OneMoreInt32(data, i, d);
  }

  lemma StillAligned(x: nat, k: nat, y: nat)
    requires x % 4 == 0 && y == x + 4 * k
    ensures y % 4 == 0
  {
    var q := QuotientOf(x, 4);
    RestIsUnique(y, 4, q + k, 0);
  }

  lemma VectorIsStored(d0: seq<Byte>, data: seq<int>, z: seq<Byte>, d: seq<Byte>)
    requires Extends(d0, z) && d == Int32Bytes(|data|) + (Int32sBytes(data) + z)
    ensures Extends(d0, d) && |d| == |z| + 4 * (|data| + 1) && HoldsAt(d, |d|, VectorBytes(data))
  {
    hide Extends, Int32Bytes, Int32sBytes;
    ThenExtends(d0, Int32sBytes(data), z);
    ThenExtends(d0, Int32Bytes(|data|), Int32sBytes(data) + z);
    assert d[0..|VectorBytes(data)|] == VectorBytes(data);
  }

  lemma VectorStartIsAligned(d: seq<Byte>, n: nat, z: seq<Byte>)
    requires IsVectorStart(d, VectorSize(4, n), 4, z)
    ensures |z| % 4 == 0
  {
    var q := QuotientOf(|z| + 4 * n, 4);
    RestIsUnique(|z|, 4, q - n, 0);
  }

  /** A vector of integers reads back with its length and every element. */
  lemma CreatedVectorReadsBack(d: seq<Byte>, d': seq<Byte>, ref: nat, target: nat, data: seq<int>, k: nat)
    requires HoldsAt(d, target, VectorBytes(data)) && Extends(d, d') && |data| < 0x8000_0000
    requires LeadsTo(d', ref, target)
    ensures VectorLength(d', |d'| - ref) == |data|
    ensures k < |data| ==> ReadInt32(d', VectorStart(d', |d'| - ref) + 4 * k) == ToInt32(data[k])
  {
    HoldsStill(d, d', target, VectorBytes(data));
    HeldWord(d', target, |data|, Int32sBytes(data));
    if k < |data| {
      HeldElement(d', target, data, k);
    }
  }

  lemma HeldElement(d: seq<Byte>, target: nat, data: seq<int>, k: nat)
    requires HoldsAt(d, target, VectorBytes(data)) && k < |data|
    ensures ReadInt32(d, |d| - target + 4 + 4 * k) == ToInt32(data[k])
  {
    var c, b := VectorBytes(data), Int32sBytes(data);
    Int32sAt(data, k);
    assert c[4 + 4 * k..4 + 4 * k + 4] == b[4 * k..4 * k + 4];
    HeldAt(d, target, c, 4 + 4 * k, Int32Bytes(data[k]));
    ReadInt32Bytes(d, |d| - target + 4 + 4 * k, data[k]);
  }
}
