/** Base64: bytes regrouped into six bits for each character, padded to groups of four. */
module Base64 {
  import opened Common

  type Sixth = v: int | 0 <= v < 64

  const PAD := '='

  // The alphabet (table 1 of RFC 4648)

  function CharOf(v: Sixth): (c: char)
    ensures c != PAD
  {
    if v < 26 then 'A' + v as char
    else if v < 52 then 'a' + (v - 26) as char
    else if v < 62 then '0' + (v - 52) as char
    else if v == 62 then '+'
    else '/'
  }

  function ValueOf(c: char): Option<Sixth> {
    if 'A' <= c <= 'Z' then Some((c - 'A') as int)
    else if 'a' <= c <= 'z' then Some((c - 'a') as int + 26)
    else if '0' <= c <= '9' then Some((c - '0') as int + 52)
    else if c == '+' then Some(62)
    else if c == '/' then Some(63)
    else None
  }

  /** The characters are those of the table, in its order, and the padding is the equals sign. */
  lemma IsTheAlphabet(v: Sixth, c: char)
    ensures CharOf(0) == 'A' && CharOf(25) == 'Z' && CharOf(26) == 'a' && CharOf(51) == 'z'
    ensures CharOf(52) == '0' && CharOf(61) == '9' && CharOf(62) == '+' && CharOf(63) == '/' && PAD == '='
    ensures v !in {25, 51, 61, 62, 63} ==> CharOf(v + 1) as int == CharOf(v) as int + 1
    ensures ValueOf(c) == Some(v) <==> CharOf(v) == c
    ensures ValueOf(c).Some? ==> CharOf(ValueOf(c).value) == c
  {}

  lemma ValueOfChar(v: Sixth)
    ensures ValueOf(CharOf(v)) == Some(v)
  {}

  // Encoding

  function ByteAt(data: seq<Byte>, i: nat): Byte {
    if i < |data| then data[i] else 0
  }

  /** Three bytes as four times six bits (section 4 of RFC 4648). */
  function Split(a: Byte, b: Byte, c: Byte): (Sixth, Sixth, Sixth, Sixth) {
    (a / 4, a % 4 * 16 + b / 16, b % 16 * 4 + c / 64, c % 64)
  }

  /** The `k`th six bits of the data, as if zeros followed. */
  function Sextet(data: seq<Byte>, k: nat): Sixth {
    var i := k / 4 * 3;
    var (p, q, r, s) := Split(ByteAt(data, i), ByteAt(data, i + 1), ByteAt(data, i + 2));
    if k % 4 == 0 then p else if k % 4 == 1 then q else if k % 4 == 2 then r else s
  }

  /** As many characters as are needed for all the bits. */
  function CharCount(n: nat): nat {
    (8 * n + 5) / 6
  }

  function PadCount(n: nat): nat {
    (3 - n % 3) % 3
  }

  /** The encoding, group by group. */
  function Encoded(data: seq<Byte>): string {
    if data == [] then []
    else
      var (p, q, r, s) := Split(ByteAt(data, 0), ByteAt(data, 1), ByteAt(data, 2));
      if |data| == 1 then [CharOf(p), CharOf(q), PAD, PAD]
      else if |data| == 2 then [CharOf(p), CharOf(q), CharOf(r), PAD]
      else [CharOf(p), CharOf(q), CharOf(r), CharOf(s)] + Encoded(data[3..])
  }

  /** All the data in characters, before the padding. */
  function Sextets(data: seq<Byte>): (s: string)
    ensures |s| == CharCount(|data|) && forall k :: 0 <= k < |s| ==> s[k] == CharOf(Sextet(data, k))
  {
    seq(CharCount(|data|), k requires k >= 0 => CharOf(Sextet(data, k)))
  }

  function Pads(n: nat): (s: string)
    ensures |s| == n && forall k :: 0 <= k < n ==> s[k] == PAD
  {
    seq(n, _ => PAD)
  }

  method EncodeBase64(data: seq<Byte>) returns (encoded: string)
    requires |data| > 0
    ensures encoded == Encoded(data)
  {
    hide Sextet, CharOf, CharCount, Encoded;
    encoded := [];
    var size := |data|;
    var padding := (3 - size % 3) % 3;
    for k := 0 to CharCount(size)
      invariant encoded == Sextets(data)[..k]
    {
      encoded := encoded + [CharOf(Sextet(data, k))];
    }
    ghost var unpadded := encoded;
    for index := 0 to padding
      invariant encoded == unpadded + Pads(padding)[..index]
    {
      encoded := encoded + [PAD];
    }
    SextetsAreEncoded(data);
  }

  lemma SextetOfRest(data: seq<Byte>, k: nat)
    requires |data| >= 3
    ensures Sextet(data, k + 4) == Sextet(data[3..], k)
  {
    assert (k + 4) / 4 == k / 4 + 1 && (k + 4) % 4 == k % 4;
    var i := k / 4 * 3;
    assert ByteAt(data, i + 3) == ByteAt(data[3..], i) && ByteAt(data, i + 4) == ByteAt(data[3..], i + 1)
        && ByteAt(data, i + 5) == ByteAt(data[3..], i + 2);
  }

  lemma CountsOfRest(n: nat)
    requires n >= 3
    ensures CharCount(n) == CharCount(n - 3) + 4 && PadCount(n) == PadCount(n - 3)
  {}

  lemma FirstSextets(data: seq<Byte>)
    ensures var (p, q, r, s) := Split(ByteAt(data, 0), ByteAt(data, 1), ByteAt(data, 2));
            Sextet(data, 0) == p && Sextet(data, 1) == q && Sextet(data, 2) == r && Sextet(data, 3) == s
  {}

  /** The characters in a row, with the padding behind them, are the encoding by groups. */
  lemma {:induction false} SextetsAreEncoded(data: seq<Byte>)
    requires |data| > 0
    ensures Sextets(data) + Pads(PadCount(|data|)) == Encoded(data)
    decreases |data|, 0
  {
    hide Split, Sextet, CharOf, CharCount, PadCount, Sextets, Encoded;
    if |data| <= 2 {
      LastSextets(data);
    } else {
      FirstGroup(data);
      RestIsEncoded(data[3..]);
      CountsOfRest(|data|);
    }
  }

  /** The characters of an incomplete group. */
  lemma FewSextets(data: seq<Byte>)
    requires |data| <= 2
    ensures var (p, q, r, s) := Split(ByteAt(data, 0), ByteAt(data, 1), ByteAt(data, 2));
            Sextets(data) == if data == [] then [] else [CharOf(p), CharOf(q)] + if |data| == 1 then [] else [CharOf(r)]
  {
    hide Split, Sextet, CharOf, CharCount;
    FewCounts();
    FirstSextets(data);
  }

  lemma FewCounts()
    ensures CharCount(0) == 0 && CharCount(1) == 2 && CharCount(2) == 3 && PadCount(1) == 2 && PadCount(2) == 1
  {}

  lemma LastSextets(data: seq<Byte>)
    requires 1 <= |data| <= 2
    ensures Sextets(data) + Pads(PadCount(|data|)) == Encoded(data)
  {
    hide Split, Sextet, CharOf, CharCount, PadCount, Sextets;
    FewSextets(data);
    FewCounts();
    assert Pads(1) == [PAD] && Pads(2) == [PAD, PAD];
  }

  lemma FirstGroup(data: seq<Byte>)
    requires |data| > 2
    ensures var (p, q, r, s) := Split(ByteAt(data, 0), ByteAt(data, 1), ByteAt(data, 2));
            var group := [CharOf(p), CharOf(q), CharOf(r), CharOf(s)];
            Sextets(data) == group + Sextets(data[3..]) && Encoded(data) == group + Encoded(data[3..])
  {
    hide Split, Sextet, CharOf, CharCount;
    var rest := data[3..];
    FirstSextets(data);
    CountsOfRest(|data|);
    forall k | 0 <= k < CharCount(|rest|)
      ensures Sextets(data)[k + 4] == Sextets(rest)[k]
    {
      SextetOfRest(data, k);
    }
  }

  lemma {:induction false} RestIsEncoded(rest: seq<Byte>)
    ensures Sextets(rest) + Pads(PadCount(|rest|)) == Encoded(rest)
    decreases |rest|, 1
  {
    if rest != [] {
      SextetsAreEncoded(rest);
    }
  }

  // Decoding

  function Replaced(c: char): char {
    if c == PAD then 'A' else c
  }

  predicate IsDecodable(encoded: string) {
    forall i :: 0 <= i < |encoded| ==> ValueOf(Replaced(encoded[i])).Some?
  }

  /** The characters as numbers, with zero bits for the padding. */
  function Values(encoded: string): (values: seq<Sixth>)
    requires IsDecodable(encoded)
    ensures |values| == |encoded| && forall i :: 0 <= i < |encoded| ==> values[i] == ValueOf(Replaced(encoded[i])).value
  {
    seq(|encoded|, i requires 0 <= i < |encoded| => ValueOf(Replaced(encoded[i])).value)
  }

  function CountPads(encoded: string): (n: nat)
    ensures n <= |encoded|
  {
    if encoded == [] then 0
    else CountPads(encoded[..|encoded| - 1]) + if encoded[|encoded| - 1] == PAD then 1 else 0
  }

  function Joined(p: Sixth, q: Sixth, r: Sixth, s: Sixth): (Byte, Byte, Byte) {
    (p as int * 4 + q / 16, (q % 16) as int * 16 + r / 4, (r % 4) as int * 64 + s)
  }

  function ValueAt(values: seq<Sixth>, i: nat): Sixth {
    if i < |values| then values[i] else 0
  }

  /** The `j`th eight bits of a sequence of six-bit numbers. */
  function Octet(values: seq<Sixth>, j: nat): Byte {
    var i := j / 3 * 4;
    var (a, b, c) := Joined(ValueAt(values, i), ValueAt(values, i + 1), ValueAt(values, i + 2), ValueAt(values, i + 3));
    if j % 3 == 0 then a else if j % 3 == 1 then b else c
  }

  /** As many bytes as `n` characters make; bits that are left over are dropped. */
  function ByteCount(n: nat): nat {
    3 * n / 4
  }

  function Octets(values: seq<Sixth>): (s: seq<Byte>)
    ensures |s| == ByteCount(|values|) && forall j :: 0 <= j < |s| ==> s[j] == Octet(values, j)
  {
    seq(ByteCount(|values|), j requires j >= 0 => Octet(values, j))
  }

  /** A single character in the last group makes no byte: the original then reads behind the end. */
  predicate IsComplete(encoded: string) {
    |encoded| % 4 != 1 && CountPads(encoded) <= ByteCount(|encoded|)
  }

  function Decoded(encoded: string): Option<seq<Byte>>
    requires IsComplete(encoded)
  {
    if IsDecodable(encoded) then Some(Octets(Values(encoded))[..ByteCount(|encoded|) - CountPads(encoded)])
    else None
  }

  /** Decodes, if all characters belong to the alphabet. */
  method DecodeBase64(encoded: string) returns (decoded: Option<seq<Byte>>)
    requires IsComplete(encoded)
    ensures decoded == Decoded(encoded)
  {
    hide ValueOf, Replaced, Octet, ByteCount;
    var unpadded := [];
    var numPadded := 0;
    for i := 0 to |encoded|
      invariant |unpadded| == i && numPadded == CountPads(encoded[..i])
      invariant forall k :: 0 <= k < i ==> ValueOf(Replaced(encoded[k])) == Some(unpadded[k])
    {
      assert encoded[..i + 1][..i] == encoded[..i];
      if encoded[i] == PAD {
        numPadded := numPadded + 1;
      }
      var value := ValueOf(Replaced(encoded[i]));
      if value.None? {
        return None;
      }
      unpadded := unpadded + [value.value];
    }
    assert encoded[..|encoded|] == encoded && unpadded == Values(encoded);
    var bytes := [];
    for j := 0 to ByteCount(|encoded|)
      invariant bytes == Octets(unpadded)[..j]
    {
      bytes := bytes + [Octet(unpadded, j)];
    }
    assert Octets(unpadded)[..|bytes|] == Octets(unpadded);
    decoded := Some(bytes[..|bytes| - numPadded]);
  }

  // Round trip

  lemma {:induction false} EncodedLength(data: seq<Byte>)
    ensures |Encoded(data)| == (|data| + 2) / 3 * 4
  {
    hide CharOf, Split;
    if |data| >= 3 {
      EncodedLength(data[3..]);
      var m := |data| - 3;
      assert (m + 3 + 2) / 3 == (m + 2) / 3 + 1;
    }
  }

  /** Encoding distributes over a concatenation at a group boundary. */
  lemma {:induction false} EncodedConcatenation(a: seq<Byte>, b: seq<Byte>)
    requires |a| % 3 == 0
    ensures Encoded(a + b) == Encoded(a) + Encoded(b)
  {
    if a == [] {
      assert a + b == b;
    } else {
      assert (a + b)[3..] == a[3..] + b;
      EncodedConcatenation(a[3..], b);
    }
  }

  lemma {:induction false} PadsOfConcatenation(s: string, t: string)
    ensures CountPads(s + t) == CountPads(s) + CountPads(t)
  {
    if t == [] {
      assert s + t == s;
    } else {
      assert (s + t)[..|s + t| - 1] == s + t[..|t| - 1];
      PadsOfConcatenation(s, t[..|t| - 1]);
    }
  }

  lemma ValuesOfConcatenation(s: string, t: string)
    requires IsDecodable(s) && IsDecodable(t)
    ensures IsDecodable(s + t) && Values(s + t) == Values(s) + Values(t)
  {}

  lemma PadCounts(n: nat)
    ensures PadCount(1) == 2 && PadCount(2) == 1 && PadCount(3) == 0
    ensures n > 3 ==> PadCount(n) == PadCount(n - 3)
  {}

  lemma Rejoined(a: Byte, b: Byte, c: Byte)
    ensures var (p, q, r, s) := Split(a, b, c); Joined(p, q, r, s) == (a, b, c)
  {
    FirstByte(a, b);
    SecondByte(a, b, c);
    ThirdByte(b, c);
  }

  lemma FirstByte(a: Byte, b: Byte)
    ensures (a / 4) as int * 4 + (a % 4 * 16 + b / 16) / 16 == a
  {}

  lemma SecondByte(a: Byte, b: Byte, c: Byte)
    ensures (a % 4 * 16 + b / 16) % 16 * 16 + (b % 16 * 4 + c / 64) / 4 == b
  {
    assert (a % 4 * 16 + b / 16) % 16 == b / 16;
    assert (b % 16 * 4 + c / 64) / 4 == b % 16;
  }

  lemma ThirdByte(b: Byte, c: Byte)
    ensures (b % 16 * 4 + c / 64) % 4 * 64 + c % 64 == c
  {}

  lemma OctetsOfGroup(p: Sixth, q: Sixth, r: Sixth, s: Sixth)
    ensures var (a, b, c) := Joined(p, q, r, s);
            && Octets([p, q, r, s]) == [a, b, c] && (r == s == 0 ==> Octets([p, q]) == [a])
            && (s == 0 ==> Octets([p, q, r]) == [a, b])
  {
    hide Joined;
    var v := [p, q, r, s];
    assert Octet(v, 0) == Joined(p, q, r, s).0 && Octet(v, 1) == Joined(p, q, r, s).1;
    assert Octet(v, 2) == Joined(p, q, r, s).2;
    assert ByteCount(4) == 3 && ByteCount(3) == 2 && ByteCount(2) == 1;
    assert s == 0 ==> Octet([p, q, r], 0) == Octet(v, 0) && Octet([p, q, r], 1) == Octet(v, 1);
    assert r == s == 0 ==> Octet([p, q], 0) == Octet(v, 0);
  }

  lemma OctetOfRest(v: seq<Sixth>, w: seq<Sixth>, j: nat)
    requires |v| == 4
    ensures Octet(v + w, j + 3) == Octet(w, j)
  {
    hide Joined;
    assert (j + 3) / 3 == j / 3 + 1 && (j + 3) % 3 == j % 3;
    assert forall i: nat :: ValueAt(v + w, i + 4) == ValueAt(w, i);
  }

  lemma OctetsOfConcatenation(v: seq<Sixth>, w: seq<Sixth>)
    requires |v| == 4
    ensures Octets(v + w) == Octets(v) + Octets(w)
  {
    hide Octet;
    assert ByteCount(|v + w|) == 3 + ByteCount(|w|) && ByteCount(4) == 3;
    forall j | 0 <= j < 3
      ensures Octets(v + w)[j] == Octets(v)[j]
    {
      FirstOctet(v, w, j);
    }
    forall j | 0 <= j < |Octets(w)|
      ensures Octets(v + w)[j + 3] == Octets(w)[j]
    {
      OctetOfRest(v, w, j);
    }
    assert Octets(v + w)[3..] == Octets(w) && Octets(v + w)[..3] == Octets(v);
  }

  lemma FirstOctet(v: seq<Sixth>, w: seq<Sixth>, j: nat)
    requires |v| == 4 && j < 3
    ensures Octet(v + w, j) == Octet(v, j)
  {
    hide Joined;
    assert j / 3 == 0;
  }

  /** The last group, where zeros stand for the bytes that are not there. */
  lemma LastGroup(data: seq<Byte>)
    requires 1 <= |data| <= 3
    ensures |Encoded(data)| == 4 && IsDecodable(Encoded(data)) && CountPads(Encoded(data)) == 3 - |data|
    ensures var (p, q, r, s) := Split(ByteAt(data, 0), ByteAt(data, 1), ByteAt(data, 2));
            Values(Encoded(data)) == [p, q, r, s]
  {
    hide CharOf, ValueOf;
    var (p, q, r, s) := Split(ByteAt(data, 0), ByteAt(data, 1), ByteAt(data, 2));
    ValueOfChar(p);
    ValueOfChar(q);
    ValueOfChar(r);
    ValueOfChar(s);
    ZeroValue();
    var e := Encoded(data);
    EncodedLength(data);
    assert |e| == 4;
    PadsOfFour(e);
    assert |data| == 1 ==> r == 0;
    assert |data| <= 2 ==> s == 0;
  }

  lemma ZeroValue()
    ensures ValueOf(Replaced(PAD)) == Some(0)
  {}

  lemma PadsOfFour(e: string)
    requires |e| == 4
    ensures CountPads(e) == (if e[0] == PAD then 1 else 0) + (if e[1] == PAD then 1 else 0)
                            + (if e[2] == PAD then 1 else 0) + (if e[3] == PAD then 1 else 0)
  {
    assert e[..3][..2] == e[..2] && e[..2][..1] == e[..1] && e[..1][..0] == [];
    assert CountPads(e[..1]) == if e[0] == PAD then 1 else 0;
    assert CountPads(e[..2]) == CountPads(e[..1]) + if e[1] == PAD then 1 else 0;
  }

  /** The characters stand for the data, and for as many zeros as there is padding. */
  ghost predicate StandsFor(e: string, data: seq<Byte>) {
    && IsDecodable(e) && |e| % 4 == 0 && CountPads(e) == PadCount(|data|)
    && Octets(Values(e)) == data + Zeros(PadCount(|data|))
  }

  lemma {:induction false} EncodedValues(data: seq<Byte>)
    requires data != []
    ensures StandsFor(Encoded(data), data)
    decreases |data|
  {
    hide StandsFor;
    if |data| <= 3 {
      FewEncoded(data);
    } else {
      EncodedValues(data[3..]);
      MoreEncoded(data);
    }
  }

  lemma {:induction false} FewEncoded(data: seq<Byte>)
    requires 1 <= |data| <= 3
    ensures StandsFor(Encoded(data), data)
  {
    hide Split, Joined, CharOf, ValueOf, Octets, Encoded, PadCount, CountPads, IsDecodable;
    PadCounts(|data|);
    var a, b, c := ByteAt(data, 0), ByteAt(data, 1), ByteAt(data, 2);
    var (p, q, r, s) := Split(a, b, c);
    Rejoined(a, b, c);
    OctetsOfGroup(p, q, r, s);
    LastGroup(data);
    assert [a, b, c] == data + Zeros(3 - |data|);
  }

  lemma {:induction false} MoreEncoded(data: seq<Byte>)
    requires |data| > 3 && StandsFor(Encoded(data[3..]), data[3..])
    ensures StandsFor(Encoded(data), data)
  {
    hide Split, Joined, CharOf, ValueOf, Octets, Encoded, PadCount, CountPads, IsDecodable, Values;
    var first, rest := data[..3], data[3..];
    PadCounts(|data|);
    assert data == first + rest;
    EncodedConcatenation(first, rest);
    FewEncoded(first);
    GroupOfThree(first);
    PadsOfConcatenation(Encoded(first), Encoded(rest));
    ValuesOfConcatenation(Encoded(first), Encoded(rest));
    OctetsOfConcatenation(Values(Encoded(first)), Values(Encoded(rest)));
    assert Octets(Values(Encoded(first))) == first + Zeros(0) == first;
  }

  lemma {:induction false} GroupOfThree(data: seq<Byte>)
    requires |data| == 3
    ensures |Encoded(data)| == 4 && PadCount(|data|) == 0
  {
    EncodedLength(data);
  }

  /** Decoding gives back every non-empty sequence of bytes. */
  lemma RoundTrip(data: seq<Byte>)
    requires data != []
    ensures IsComplete(Encoded(data)) && Decoded(Encoded(data)) == Some(data)
  {
    hide Encoded, Octet, IsDecodable;
    EncodedValues(data);
    assert ByteCount(|Encoded(data)|) - PadCount(|data|) == |data|;
  }

  /** Test vectors of section 10 of RFC 4648: "f", "fo" and "foo". */
  lemma TestVectors()
    ensures Encoded([0x66]) == "Zg==" && Encoded([0x66, 0x6F]) == "Zm8=" && Encoded([0x66, 0x6F, 0x6F]) == "Zm9v"
  {
    hide Split, CharOf;
    EncodedGroup([0x66]);
    EncodedGroup([0x66, 0x6F]);
    EncodedGroup([0x66, 0x6F, 0x6F]);
    TestSplits();
    TestChars();
  }

  lemma EncodedGroup(data: seq<Byte>)
    requires 1 <= |data| <= 3
    ensures var (p, q, r, s) := Split(ByteAt(data, 0), ByteAt(data, 1), ByteAt(data, 2));
            Encoded(data) == [CharOf(p), CharOf(q), if |data| == 1 then PAD else CharOf(r),
                              if |data| <= 2 then PAD else CharOf(s)]
  {
    hide Split, CharOf;
    if |data| == 3 {
      assert data[3..] == [];
    }
  }

  lemma TestSplits()
    ensures Split(0x66, 0, 0).0 == 25 && Split(0x66, 0, 0).1 == 32
    ensures Split(0x66, 0x6F, 0).0 == 25 && Split(0x66, 0x6F, 0).1 == 38 && Split(0x66, 0x6F, 0).2 == 60
    ensures Split(0x66, 0x6F, 0x6F).0 == 25 && Split(0x66, 0x6F, 0x6F).1 == 38
    ensures Split(0x66, 0x6F, 0x6F).2 == 61 && Split(0x66, 0x6F, 0x6F).3 == 47
  {
    assert 0x66 / 4 == 25 && 0x66 % 4 == 2 && 0x6F / 16 == 6 && 0x6F % 16 == 15 && 0x6F / 64 == 1 && 0x6F % 64 == 47;
  }

  lemma TestChars()
    ensures CharOf(25) == 'Z' && CharOf(32) == 'g' && CharOf(38) == 'm' && CharOf(60) == '8' && CharOf(61) == '9'
    ensures CharOf(47) == 'v'
  {}

  /** The padding does not matter: the characters alone decode to the data as well. */
  lemma UnpaddedRoundTrip(data: seq<Byte>)
    ensures IsComplete(Sextets(data)) && Decoded(Sextets(data)) == Some(data)
  {
    hide Octet, Octets, IsDecodable, Sextet, CharOf, CharCount, ByteCount, CountPads, Values, Replaced, ValueOf;
    UnpaddedValues(data);
    CountsAgree(|data|);
    assert data[..|data|] == data;
  }

  lemma CountsAgree(n: nat)
    ensures CharCount(n) % 4 != 1 && ByteCount(CharCount(n)) == n
  {}

  function CharsOf(values: seq<Sixth>): (s: string)
    ensures |s| == |values| && forall k :: 0 <= k < |s| ==> s[k] == CharOf(values[k])
  {
    seq(|values|, k requires 0 <= k < |values| => CharOf(values[k]))
  }

  lemma {:induction false} CharsDecode(values: seq<Sixth>)
    ensures IsDecodable(CharsOf(values)) && CountPads(CharsOf(values)) == 0 && Values(CharsOf(values)) == values
  {
    forall k | 0 <= k < |values|
      ensures ValueOf(Replaced(CharsOf(values)[k])) == Some(values[k])
    {
      ValueOfChar(values[k]);
    }
    if values != [] {
      CharsDecode(values[..|values| - 1]);
      assert CharsOf(values)[..|values| - 1] == CharsOf(values[..|values| - 1]);
    }
  }

  lemma ZeroBits(a: Byte, b: Byte)
    ensures Split(a, 0, 0).2 == 0 && Split(a, b, 0).3 == 0
  {}

  /** Six bits at a time, without the zeros behind the data. */
  function SextetValues(data: seq<Byte>): (values: seq<Sixth>)
    requires |data| <= 3
  {
    var (p, q, r, s) := Split(ByteAt(data, 0), ByteAt(data, 1), ByteAt(data, 2));
    if data == [] then [] else if |data| == 1 then [p, q] else if |data| == 2 then [p, q, r] else [p, q, r, s]
  }

  lemma FewValues(data: seq<Byte>)
    requires |data| <= 2
    ensures Sextets(data) == CharsOf(SextetValues(data))
  {
    hide Split, Sextet, CharOf, CharCount, Sextets;
    FewSextets(data);
  }

  lemma FewOctets(data: seq<Byte>)
    requires |data| <= 3
    ensures Octets(SextetValues(data)) == data
  {
    hide Split, Joined, Octets;
    var a, b, c := ByteAt(data, 0), ByteAt(data, 1), ByteAt(data, 2);
    var (p, q, r, s) := Split(a, b, c);
    ZeroBits(a, b);
    Rejoined(a, b, c);
    OctetsOfGroup(p, q, r, s);
    assert Octets([]) == [];
  }

  /** The characters of the data have no padding, and stand for the data. */
  ghost predicate StandsUnpadded(data: seq<Byte>) {
    IsDecodable(Sextets(data)) && CountPads(Sextets(data)) == 0 && Octets(Values(Sextets(data))) == data
  }

  lemma {:induction false} UnpaddedValues(data: seq<Byte>)
    ensures StandsUnpadded(data)
    decreases |data|
  {
    hide StandsUnpadded;
    if |data| <= 2 {
      FewUnpadded(data);
    } else {
      UnpaddedValues(data[3..]);
      MoreUnpadded(data);
    }
  }

  lemma {:induction false} FewUnpadded(data: seq<Byte>)
    requires |data| <= 2
    ensures StandsUnpadded(data)
  {
    hide Split, CharOf, CharsOf, ValueOf, Octets, CountPads, IsDecodable, Sextets, SextetValues, Values;
    FewValues(data);
    CharsDecode(SextetValues(data));
    FewOctets(data);
  }

  lemma {:induction false} MoreUnpadded(data: seq<Byte>)
    requires |data| > 2 && StandsUnpadded(data[3..])
    ensures StandsUnpadded(data)
  {
    hide Split, CharOf, CharsOf, ValueOf, Octets, CountPads, IsDecodable, Sextets, SextetValues, Values;
    var first, rest := data[..3], data[3..];
    var values := SextetValues(first);
    var group := CharsOf(values);
    GroupIsFirst(data);
    CharsDecode(values);
    FewOctets(first);
    PadsOfConcatenation(group, Sextets(rest));
    ValuesOfConcatenation(group, Sextets(rest));
    OctetsOfConcatenation(values, Values(Sextets(rest)));
    assert data == first + rest;
  }

  lemma {:induction false} GroupIsFirst(data: seq<Byte>)
    requires |data| > 2
    ensures |SextetValues(data[..3])| == 4
    ensures Sextets(data) == CharsOf(SextetValues(data[..3])) + Sextets(data[3..])
  {
    hide Split, CharOf, Sextets;
    FirstGroup(data);
  }
}
