/**
 The string codec of the FlatBuffers runtime: UTF-16 code units to the bytes of a stored
 string, and back.
 */
module Utf {
  import opened Common
  import opened FlatBytes

  type Unit = u: int | 0 <= u < 0x1_0000

  predicate IsHighSurrogate(u: Unit) {
    0xD800 <= u < 0xDC00
  }

  predicate IsLowSurrogate(u: Unit) {
    0xDC00 <= u < 0xE000
  }

  /** Every number that the codec takes for a code point has at most 21 bits. */
  type CodePoint = c: int | 0 <= c < 0x20_0000

  /** The code point of a surrogate pair; the second unit is not checked. */
  function Pair(a: Unit, b: Unit): CodePoint
    requires IsHighSurrogate(a)
  {
    a * 0x400 + b + (0x1_0000 - 0xD800 * 0x400 - 0xDC00)
  }

  function Encoded(c: CodePoint): (bytes: seq<Byte>)
    ensures 1 <= |bytes| <= 4
  {
    if c < 0x80 then
      [c]
    else if c < 0x800 then
      [c / 0x40 % 0x20 + 0xC0, c % 0x40 + 0x80]
    else if c < 0x1_0000 then
      [c / 0x1000 % 0x10 + 0xE0, c / 0x40 % 0x40 + 0x80, c % 0x40 + 0x80]
    else
      [c / 0x4_0000 % 0x8 + 0xF0, c / 0x1000 % 0x40 + 0x80, c / 0x40 % 0x40 + 0x80, c % 0x40 + 0x80]
  }

  /** What is written when the unit after a high surrogate is missing: all bits of NaN are 0. */
  const ENCODED_NAN: seq<Byte> := [0xF0, 0x80, 0x80, 0x80]

  function Encode(s: seq<Unit>): seq<Byte> {
    if s == [] then []
    else if !IsHighSurrogate(s[0]) then Encoded(s[0]) + Encode(s[1..])
    else if |s| == 1 then ENCODED_NAN
    else Encoded(Pair(s[0], s[1])) + Encode(s[2..])
  }

  /** The bytes of a string, as they are collected before the string is written. */
  method EncodeString(s: seq<Unit>) returns (utf8: seq<Byte>)
    ensures utf8 == Encode(s)
  {
    utf8 := [];
    var i := 0;
    while i < |s|
      invariant 0 <= i && utf8 + Encode(if i <= |s| then s[i..] else []) == Encode(s)
      decreases |s| - i
    {
      ghost var rest := s[i..];
      var a := s[i];
      i := i + 1;
      if !IsHighSurrogate(a) {
        utf8 := utf8 + Encoded(a);
        assert rest[1..] == s[i..];
      } else if i < |s| {
        var b := s[i];
        i := i + 1;
        utf8 := utf8 + Encoded(Pair(a, b));
        assert rest[2..] == s[i..];
      } else {
        i := i + 1;
        utf8 := utf8 + ENCODED_NAN;
      }
    }
  }

  // Decoding reads the buffer byte by byte, and may read behind the end of the string

  function UnitsOf(c: CodePoint): (u: seq<Unit>)
    ensures 1 <= |u| <= 2
  {
    if c < 0x1_0000 then [c]
    else [(c - 0x1_0000) / 0x400 + 0xD800, (c - 0x1_0000) % 0x400 + 0xDC00]
  }

  function SizeOf(lead: Byte): (n: nat)
    ensures 1 <= n <= 4
  {
    if lead < 0xC0 then 1 else if lead < 0xE0 then 2 else if lead < 0xF0 then 3 else 4
  }

  /** The code point of a lead byte and the bytes after it, as many as its size tells. */
  function Assembled(lead: Byte, b: Byte, c: Byte, d: Byte): CodePoint {
    var n := SizeOf(lead);
    if n == 1 then lead
    else if n == 2 then lead % 0x20 * 0x40 + b % 0x40
    else if n == 3 then lead % 0x10 * 0x1000 + b % 0x40 * 0x40 + c % 0x40
    else lead % 0x8 * 0x4_0000 + b % 0x40 * 0x1000 + c % 0x40 * 0x40 + d % 0x40
  }

  /** How many bytes the code point at `i` takes; a byte outside of the buffer counts as a long lead byte. */
  function SizeAt(b: seq<Byte>, i: nat): (n: nat)
    ensures 1 <= n <= 4
  {
    if i >= |b| then 4 else SizeOf(b[i])
  }

  function CodePointAt(b: seq<Byte>, i: nat): CodePoint {
    if i >= |b| then 0 else Assembled(b[i], ByteAt(b, i + 1), ByteAt(b, i + 2), ByteAt(b, i + 3))
  }

  function Decode(b: seq<Byte>, i: nat, end: int): seq<Unit>
    decreases end - i
  {
    if i >= end then [] else UnitsOf(CodePointAt(b, i)) + Decode(b, i + SizeAt(b, i), end)
  }

  function LowBits(b: Byte): int {
    if b < 0x40 then b else if b < 0x80 then b - 0x40 else if b < 0xC0 then b - 0x80 else b - 0xC0
  }

  lemma LowBitsOf(b: Byte)
    ensures b % 0x40 == LowBits(b) && b % 8 == LowBits(b) % 8
    ensures 0xC0 <= b < 0xE0 ==> b % 0x20 == b as int - 0xC0
    ensures 0xE0 <= b < 0xF0 ==> b % 0x10 == b as int - 0xE0
  {}

  lemma AssembledOf(lead: Byte, x: Byte, y: Byte, z: Byte)
    ensures lead < 0xC0 ==> Assembled(lead, x, y, z) == lead
    ensures 0xC0 <= lead < 0xE0 ==> Assembled(lead, x, y, z) == (lead as int - 0xC0) * 0x40 + LowBits(x)
    ensures 0xE0 <= lead < 0xF0 ==>
              Assembled(lead, x, y, z) == ((lead as int - 0xE0) * 0x40 + LowBits(x)) * 0x40 + LowBits(y)
    ensures 0xF0 <= lead ==>
              Assembled(lead, x, y, z)
              == ((LowBits(lead) % 8 * 0x40 + LowBits(x)) * 0x40 + LowBits(y)) * 0x40 + LowBits(z)
  {
    LowBitsOf(lead);
    LowBitsOf(x);
    LowBitsOf(y);
    LowBitsOf(z);
    hide LowBits;
  }

  /** What any bytes are read as: those of a continuation stand for themselves when no lead byte asks for them. */
  lemma ReadsAnyBytes(b: seq<Byte>, i: nat)
    requires i + 4 <= |b|
    ensures SizeAt(b, i) == if b[i] < 0xC0 then 1 else if b[i] < 0xE0 then 2 else if b[i] < 0xF0 then 3 else 4
    ensures var lead, x, y, z := b[i] as int, LowBits(b[i + 1]), LowBits(b[i + 2]), LowBits(b[i + 3]);
            CodePointAt(b, i)
            == if lead < 0xC0 then lead
               else if lead < 0xE0 then (lead - 0xC0) * 0x40 + x
               else if lead < 0xF0 then ((lead - 0xE0) * 0x40 + x) * 0x40 + y
               else ((LowBits(b[i]) % 8 * 0x40 + x) * 0x40 + y) * 0x40 + z
  {
    hide LowBits, Assembled;
    AssembledOf(b[i], b[i + 1], b[i + 2], b[i + 3]);
  }

  /** The string that the reference at `offset` leads to. */
  method ReadString(b: seq<Byte>, offset: nat) returns (result: seq<Unit>)
    requires Indirect(b, offset) >= 0
    ensures var start := VectorStart(b, offset); result == Decode(b, start, start + VectorLength(b, offset))
  {
    hide SizeAt, CodePointAt, UnitsOf, ReadInt32;
    var at := offset + ReadInt32(b, offset);
    var length := ReadInt32(b, at);
    result := [];
    var i: nat := 0;
    at := at + SIZEOF_INT;
    while i < length
      invariant result + Decode(b, at + i, at + length) == Decode(b, at, at + length)
      decreases length - i
    {
      var codePoint := CodePointAt(b, at + i);
      i := i + SizeAt(b, at + i);
      result := result + UnitsOf(codePoint);
    }
  }

  // What a stored string is read as

  /** The units that the code points of a string are decoded to. */
  ghost function Reread(s: seq<Unit>): (r: seq<Unit>)
    ensures |r| <= |s|
  {
    if s == [] then []
    else if !IsHighSurrogate(s[0]) then UnitsOf(s[0]) + Reread(s[1..])
    else if |s| == 1 then [0]
    else UnitsOf(Pair(s[0], s[1])) + Reread(s[2..])
  }

  predicate StartsAt(b: seq<Byte>, i: nat, bytes: seq<Byte>) {
    i + |bytes| <= |b| && b[i..i + |bytes|] == bytes
  }

  function At(bytes: seq<Byte>, k: nat, otherwise: Byte): Byte {
    if k < |bytes| then bytes[k] else otherwise
  }

  lemma Digits(c: CodePoint)
    ensures c == c / 0x40 * 0x40 + c % 0x40
    ensures c / 0x40 == c / 0x1000 * 0x40 + c / 0x40 % 0x40
    ensures c / 0x1000 == c / 0x4_0000 * 0x40 + c / 0x1000 % 0x40
  {}

  lemma TailDigit(d: int)
    requires 0 <= d < 0x40
    ensures (d + 0x80) % 0x40 == d
  {}

  lemma LeadDigits(h: int)
    ensures 0 <= h < 0x20 ==> (h + 0xC0) % 0x20 == h
    ensures 0 <= h < 0x10 ==> (h + 0xE0) % 0x10 == h
    ensures 0 <= h < 0x8 ==> (h + 0xF0) % 0x8 == h
  {}

  /** Digits of six bits each, the first one in the lead byte. */
  lemma DigitsAssemble(h: nat, x: nat, y: nat, z: nat, u: Byte, v: Byte)
    requires x < 0x40 && y < 0x40 && z < 0x40
    ensures h < 0x20 ==> Assembled(h + 0xC0, x + 0x80, u, v) == h * 0x40 + x
    ensures h < 0x10 ==> Assembled(h + 0xE0, x + 0x80, y + 0x80, v) == h * 0x1000 + x * 0x40 + y
    ensures h < 0x8 ==> Assembled(h + 0xF0, x + 0x80, y + 0x80, z + 0x80) == h * 0x4_0000 + x * 0x1000 + y * 0x40 + z
  {
    TailDigit(x);
    TailDigit(y);
    TailDigit(z);
    LeadDigits(h);
  }

  /** The bytes `e` of the code point `c`, whose last six-bit digits are `d0`, `d1` and `d2`. */
  ghost predicate InDigits(c: CodePoint, d0: nat, d1: nat, d2: nat, h1: nat, h2: nat, h3: nat, e: seq<Byte>) {
    && d0 < 0x40 && d1 < 0x40 && d2 < 0x40
    && c == h1 * 0x40 + d0 && h1 == h2 * 0x40 + d1 && h2 == h3 * 0x40 + d2
    && (c < 0x80 ==> e == [c])
    && (0x80 <= c < 0x800 ==> h1 < 0x20 && e == [h1 + 0xC0, d0 + 0x80])
    && (0x800 <= c < 0x1_0000 ==> h2 < 0x10 && e == [h2 + 0xE0, d1 + 0x80, d0 + 0x80])
    && (0x1_0000 <= c ==> h3 < 0x8 && e == [h3 + 0xF0, d2 + 0x80, d1 + 0x80, d0 + 0x80])
  }

  lemma EncodedDigits(c: CodePoint, d0: nat, d1: nat, d2: nat, h1: nat, h2: nat, h3: nat)
    requires d0 == c % 0x40 && d1 == c / 0x40 % 0x40 && d2 == c / 0x1000 % 0x40
    requires h1 == c / 0x40 && h2 == c / 0x1000 && h3 == c / 0x4_0000
    ensures InDigits(c, d0, d1, d2, h1, h2, h3, Encoded(c))
  {
    Digits(c);
  }

  lemma EncodedAssembles(c: CodePoint, x: Byte, y: Byte, z: Byte)
    ensures var e := Encoded(c);
            SizeOf(e[0]) == |e| && Assembled(e[0], At(e, 1, x), At(e, 2, y), At(e, 3, z)) == c
  {
    hide Encoded;
    var d0, d1, d2 := c % 0x40, c / 0x40 % 0x40, c / 0x1000 % 0x40;
    var h1, h2, h3 := c / 0x40, c / 0x1000, c / 0x4_0000;
    EncodedDigits(c, d0, d1, d2, h1, h2, h3);
    DigitsReassemble(c, d0, d1, d2, h1, h2, h3, Encoded(c), x, y, z);
  }

  lemma DigitsReassemble(c: CodePoint, d0: nat, d1: nat, d2: nat, h1: nat, h2: nat, h3: nat,
                         e: seq<Byte>, x: Byte, y: Byte, z: Byte)
    requires InDigits(c, d0, d1, d2, h1, h2, h3, e)
    ensures SizeOf(e[0]) == |e| && Assembled(e[0], At(e, 1, x), At(e, 2, y), At(e, 3, z)) == c
  {
    if c < 0x80 {
    } else if c < 0x800 {
      DigitsAssemble(h1, d0, 0, 0, y, z);
    } else if c < 0x1_0000 {
      DigitsAssemble(h2, d1, d0, 0, 0, z);
    } else {
      DigitsAssemble(h3, d2, d1, d0, 0, 0);
    }
  }

  lemma CodePointDecodes(b: seq<Byte>, i: nat, c: CodePoint)
    requires StartsAt(b, i, Encoded(c))
    ensures SizeAt(b, i) == |Encoded(c)| && CodePointAt(b, i) == c
  {
    var e := Encoded(c);
    var x, y, z := ByteAt(b, i + 1), ByteAt(b, i + 2), ByteAt(b, i + 3);
    forall k | 0 <= k < |e|
      ensures b[i + k] == e[k]
    {
      assert b[i..i + |e|][k] == e[k];
    }
    EncodedAssembles(c, x, y, z);
    assert b[i + 0] == e[0];
    assert At(e, 1, x) == x && At(e, 2, y) == y && At(e, 3, z) == z;
  }

  lemma StartsWithBoth(b: seq<Byte>, i: nat, front: seq<Byte>, back: seq<Byte>)
    requires StartsAt(b, i, front + back)
    ensures StartsAt(b, i, front) && StartsAt(b, i + |front|, back)
  {
    var bytes := b[i..i + |front + back|];
    assert b[i..i + |front|] == bytes[..|front|];
    assert b[i + |front|..i + |front| + |back|] == bytes[|front|..];
  }

  lemma DecodeStep(b: seq<Byte>, i: nat, c: CodePoint, end: int)
    requires StartsAt(b, i, Encoded(c)) && i < end
    ensures Decode(b, i, end) == UnitsOf(c) + Decode(b, i + |Encoded(c)|, end)
  {
    hide Encoded, SizeAt, CodePointAt, UnitsOf;
    CodePointDecodes(b, i, c);
  }

  lemma NanDecodes(b: seq<Byte>, i: nat)
    requires StartsAt(b, i, ENCODED_NAN)
    ensures Decode(b, i, i + 4) == [0]
  {
    var bytes := b[i..i + 4];
    assert b[i] == bytes[0] && b[i + 1] == bytes[1] && b[i + 2] == bytes[2] && b[i + 3] == bytes[3];
  }

  lemma {:induction false} DecodesAsReread(s: seq<Unit>, b: seq<Byte>, i: nat)
    requires StartsAt(b, i, Encode(s))
    ensures Decode(b, i, i + |Encode(s)|) == Reread(s)
  {
    hide Encoded, SizeAt, CodePointAt, UnitsOf, Pair;
    if s == [] {
    } else if IsHighSurrogate(s[0]) && |s| == 1 {
      NanDecodes(b, i);
    } else {
      var (c, n) := FirstCodePoint(s);
      var e, rest := Encoded(c), Encode(s[n..]);
      assert Encode(s) == e + rest && Reread(s) == UnitsOf(c) + Reread(s[n..]);
      StartsWithBoth(b, i, e, rest);
      DecodesAsReread(s[n..], b, i + |e|);
      DecodeStep(b, i, c, i + |e + rest|);
    }
  }

  ghost function FirstCodePoint(s: seq<Unit>): (CodePoint, nat)
    requires s != [] && (IsHighSurrogate(s[0]) ==> |s| >= 2)
  {
    if IsHighSurrogate(s[0]) then (Pair(s[0], s[1]), 2) else (s[0], 1)
  }

  /** Every high surrogate is followed by a low one; low ones may also stand alone. */
  predicate HighSurrogatesPaired(s: seq<Unit>) {
    forall i :: 0 <= i < |s| && IsHighSurrogate(s[i]) ==> i + 1 < |s| && IsLowSurrogate(s[i + 1])
  }

  lemma PairDecodes(a: Unit, b: Unit)
    requires IsHighSurrogate(a)
    ensures UnitsOf(Pair(a, b)) == [a, b] <==> IsLowSurrogate(b)
  {
    var c: int := Pair(a, b);
    assert c - 0x1_0000 == (a - 0xD800) * 0x400 + (b - 0xDC00);
  }

  lemma {:induction false} RereadIsSame(s: seq<Unit>)
    ensures Reread(s) == s <==> HighSurrogatesPaired(s)
  {
    if s == [] {
    } else if !IsHighSurrogate(s[0]) {
      RereadIsSame(s[1..]);
      assert Reread(s)[1..] == Reread(s[1..]) && Reread(s)[0] == s[0];
      PairedRest(s, 1);
    } else if |s| == 1 {
    } else {
      RereadIsSame(s[2..]);
      PairDecodes(s[0], s[1]);
      PairedRest(s, 2);
      var units := UnitsOf(Pair(s[0], s[1]));
      assert |units| == 2 ==> Reread(s)[..2] == units && Reread(s)[2..] == Reread(s[2..]);
      assert s == s[..2] + s[2..] && s[..2] == [s[0], s[1]];
    }
  }

  lemma PairedRest(s: seq<Unit>, n: nat)
    requires 1 <= n <= 2 && n <= |s|
    requires n == 1 ==> !IsHighSurrogate(s[0])
    requires n == 2 ==> IsHighSurrogate(s[0])
    ensures n == 2 && !IsLowSurrogate(s[1]) ==> !HighSurrogatesPaired(s)
    ensures n == 1 || IsLowSurrogate(s[1]) ==> (HighSurrogatesPaired(s) <==> HighSurrogatesPaired(s[n..]))
  {
    var t := s[n..];
    assert forall i :: 0 <= i < |t| ==> t[i] == s[n + i];
    if HighSurrogatesPaired(t) && (n == 1 || IsLowSurrogate(s[1])) {
      forall i | 0 <= i < |s| && IsHighSurrogate(s[i])
        ensures i + 1 < |s| && IsLowSurrogate(s[i + 1])
      {
        if i >= n {
          assert IsHighSurrogate(t[i - n]);
        }
      }
    }
    if HighSurrogatesPaired(s) {
      forall i | 0 <= i < |t| && IsHighSurrogate(t[i])
        ensures i + 1 < |t| && IsLowSurrogate(t[i + 1])
      {
        assert IsHighSurrogate(s[n + i]);
      }
    }
  }

  /** A stored string reads back as it was exactly if all its high surrogates are paired. */
  lemma StringRoundTrip(s: seq<Unit>, b: seq<Byte>, i: nat)
    requires StartsAt(b, i, Encode(s))
    ensures Decode(b, i, i + |Encode(s)|) == s <==> HighSurrogatesPaired(s)
  {
    DecodesAsReread(s, b, i);
    RereadIsSame(s);
  }

  /** A high surrogate on its own does not read back. */
  lemma LoneSurrogateIsLost(b: seq<Byte>)
    requires b == Encode([0xD800])
    ensures Decode(b, 0, |b|) != [0xD800]
  {
    var s: seq<Unit> := [0xD800];
    assert b[0..|b|] == b;
    assert IsHighSurrogate(s[0]) && !HighSurrogatesPaired(s);
    StringRoundTrip(s, b, 0);
  }

  // The form of UTF-8 (section 4 of RFC 3629)

  predicate IsTail(b: Byte) {
    0x80 <= b <= 0xBF
  }

  predicate IsUtf8Char(b: seq<Byte>) {
    || (|b| == 1 && b[0] <= 0x7F)
    || (|b| == 2 && 0xC2 <= b[0] <= 0xDF && IsTail(b[1]))
    || (|b| == 3 && IsTail(b[1]) && IsTail(b[2])
        && ((b[0] == 0xE0 && 0xA0 <= b[1]) || 0xE1 <= b[0] <= 0xEC || (b[0] == 0xED && b[1] <= 0x9F)
            || 0xEE <= b[0] <= 0xEF))
    || (|b| == 4 && IsTail(b[1]) && IsTail(b[2]) && IsTail(b[3])
        && ((b[0] == 0xF0 && 0x90 <= b[1]) || 0xF1 <= b[0] <= 0xF3 || (b[0] == 0xF4 && b[1] <= 0x8F)))
  }

  ghost predicate IsUtf8(b: seq<Byte>) {
    b == [] || exists n :: 1 <= n <= |b| && IsUtf8Char(b[..n]) && IsUtf8(b[n..])
  }

  /** Pairs of a high and a low surrogate, and no other surrogates. */
  predicate IsUtf16(s: seq<Unit>) {
    || s == []
    || (!IsHighSurrogate(s[0]) && !IsLowSurrogate(s[0]) && IsUtf16(s[1..]))
    || (|s| >= 2 && IsHighSurrogate(s[0]) && IsLowSurrogate(s[1]) && IsUtf16(s[2..]))
  }

  lemma EncodedIsUtf8(c: CodePoint)
    ensures IsUtf8Char(Encoded(c)) <==> (c < 0xD800 || 0xE000 <= c < 0x11_0000)
  {
    hide Encoded;
    var d0, d1, d2 := c % 0x40, c / 0x40 % 0x40, c / 0x1000 % 0x40;
    var h1, h2, h3 := c / 0x40, c / 0x1000, c / 0x4_0000;
    EncodedDigits(c, d0, d1, d2, h1, h2, h3);
    DigitsAreUtf8(c, d0, d1, d2, h1, h2, h3, Encoded(c));
  }

  lemma DigitsAreUtf8(c: CodePoint, d0: nat, d1: nat, d2: nat, h1: nat, h2: nat, h3: nat, e: seq<Byte>)
    requires InDigits(c, d0, d1, d2, h1, h2, h3, e)
    ensures IsUtf8Char(e) <==> (c < 0xD800 || 0xE000 <= c < 0x11_0000)
  {}

  lemma Utf8Prepend(front: seq<Byte>, back: seq<Byte>)
    requires IsUtf8Char(front) && IsUtf8(back)
    ensures IsUtf8(front + back)
  {
    var n := |front|;
    assert (front + back)[..n] == front && (front + back)[n..] == back;
  }

  /** A well-formed string is stored as well-formed UTF-8, and reads back as it was. */
  lemma {:induction false} WellFormedIsUtf8(s: seq<Unit>)
    requires IsUtf16(s)
    ensures IsUtf8(Encode(s)) && HighSurrogatesPaired(s)
  {
    if s == [] {
    } else if !IsHighSurrogate(s[0]) {
      WellFormedIsUtf8(s[1..]);
      EncodedIsUtf8(s[0]);
      Utf8Prepend(Encoded(s[0]), Encode(s[1..]));
      PairedRest(s, 1);
    } else {
      WellFormedIsUtf8(s[2..]);
      EncodedIsUtf8(Pair(s[0], s[1]));
      Utf8Prepend(Encoded(Pair(s[0], s[1])), Encode(s[2..]));
      PairedRest(s, 2);
    }
  }
}
