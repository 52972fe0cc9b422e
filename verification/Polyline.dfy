/**
 The polyline format: differences of rounded coordinates, as zig-zag numbers in chunks of
 five bits, each in one printable character.
 */
module Polyline {
  import opened Common

  type Char = c: int | -0x80 <= c < 0x80

  function ToChar(v: int): Char {
    var u := v % 0x100;
    if u < 0x80 then u else u - 0x100
  }

  /** A character keeps the lowest eight bits. */
  lemma CharKeepsByte(v: int)
    ensures (ToChar(v) - v) % 0x100 == 0
  {}

  // Numbers

  /** The number with its sign moved to the lowest bit, in 32 bits. */
  function ZigZag(n: Int32): Int32 {
    if n < 0 then ToInt32(0xFFFF_FFFF - 2 * (n % 0x1_0000_0000) % 0x1_0000_0000) else ToInt32(2 * n)
  }

  function Chunks(m: Int32): (s: seq<Char>)
    ensures |s| >= 1
    decreases if m < 0 then 0 else m
  {
    if m >= 0x20 then [0x20 + m % 0x20 + 63] + Chunks(m / 0x20) else [ToChar(m + 63)]
  }

  method EncodeNumber(numberToEncode: Int32, output: seq<Char>) returns (r: seq<Char>)
    ensures r == output + Chunks(ZigZag(numberToEncode))
  {
    var number: Int32;
    if numberToEncode < 0 {
      var binary: int := -(numberToEncode as int);
      var twos := (0xFFFF_FFFF - binary + 1) % 0x1_0000_0000;
      var shl := 2 * twos % 0x1_0000_0000;
      TwosComplement(numberToEncode, twos);
      number := ToInt32(0xFFFF_FFFF - shl);
    } else {
      number := ToInt32(2 * numberToEncode);
    }
    r := output;
    while number >= 0x20
      invariant r + Chunks(number) == output + Chunks(ZigZag(numberToEncode))
      decreases if number < 0 then 0 else number
    {
      var nextValue := 0x20 + number % 0x20 + 63;
      r := r + [nextValue];
      number := number / 0x20;
    }
    r := r + [ToChar(number + 63)];
  }

  lemma TwosComplement(n: int, twos: int)
    requires -0x8000_0000 <= n < 0 && twos == (0xFFFF_FFFF - (-n) + 1) % 0x1_0000_0000
    ensures twos == n % 0x1_0000_0000
  {}

  /** The weight of a chunk: a power of 32. */
  function Weight(k: nat): (w: nat)
    ensures w >= 1
  {
    if k == 0 then 1 else 0x20 * Weight(k - 1)
  }

  const MAX_CHUNKS := 7  // as many as start within the first 31 bits

  function Value(c: Char): (value: nat) {
    (c - 63) % 0x1_0000_0000
  }

  /** The bits from the `k`th chunk on, and where the next number starts. */
  function Scan(s: seq<Char>, i: nat, k: nat): (r: (nat, nat))
    requires i <= |s|
    ensures i <= r.1 <= |s|
    ensures i < |s| && k < MAX_CHUNKS ==> i < r.1
    decreases |s| - i
  {
    if i == |s| || k >= MAX_CHUNKS then (0, i)
    else
      var bits := Value(s[i]) % 0x20 * Weight(k) % 0x1_0000_0000;
      if Value(s[i]) / 0x20 % 2 == 0 then (bits, i + 1)
      else
        var (rest, next) := Scan(s, i + 1, k + 1);
        (bits + rest, next)
  }

  function FromZigZag(result: nat): int {
    var u := result % 0x1_0000_0000;
    if u % 2 == 1 then -(u / 2) - 1 else u / 2
  }

  method DecodeNumber(s: seq<Char>, first: nat) returns (n: int, next: nat)
    requires first <= |s|
    ensures n == FromZigZag(Scan(s, first, 0).0) && next == Scan(s, first, 0).1
  {
    var result := 0;
    next := first;
    var chunk := 0;
    var more := true;
    while more && chunk < MAX_CHUNKS && next < |s|
      invariant first <= next <= |s|
      invariant result + (if more then Scan(s, next, chunk).0 else 0) == Scan(s, first, 0).0
      invariant (if more then Scan(s, next, chunk).1 else next) == Scan(s, first, 0).1
      decreases |s| - next
    {
      var value := Value(s[next]);
      result := result + value % 0x20 * Weight(chunk) % 0x1_0000_0000;
      more := value / 0x20 % 2 == 1;
      next, chunk := next + 1, chunk + 1;
    }
    n := FromZigZag(result);
  }

  // One number

  lemma WeightGrows(k: nat)
    ensures Weight(7) == 0x8_0000_0000
    ensures k >= 7 ==> Weight(k) >= 0x8_0000_0000
  {
    assert Weight(1) == 0x20 && Weight(2) == 0x400 && Weight(3) == 0x8000;
    assert Weight(4) == 0x10_0000 && Weight(5) == 0x200_0000 && Weight(6) == 0x4000_0000;
    if k > 7 {
      WeightGrows(k - 1);
    }
  }

  lemma TimesAtLeast(a: nat, w: nat)
    requires a >= 1
    ensures a * w >= w
  {}

  lemma ScanLast(m: nat, k: nat, s: seq<Char>, i: nat)
    requires i < |s| && k < MAX_CHUNKS && m < 0x20 && m * Weight(k) < 0x8000_0000 && s[i] == m + 63
    ensures Scan(s, i, k) == (m * Weight(k), i + 1)
  {
    hide Weight, Value;
    LastBits(m, s[i]);
    SmallBits(m * Weight(k));
  }

  lemma ScanMore(d: nat, k: nat, s: seq<Char>, i: nat)
    requires i < |s| && k < MAX_CHUNKS && d < 0x20 && d * Weight(k) < 0x8000_0000 && s[i] == 0x20 + d + 63
    ensures Scan(s, i, k) == (d * Weight(k) + Scan(s, i + 1, k + 1).0, Scan(s, i + 1, k + 1).1)
  {
    hide Weight, Value;
    MoreBits(d, s[i]);
    SmallBits(d * Weight(k));
  }

  lemma MoreBits(d: nat, c: Char)
    requires d < 0x20 && c == 0x20 + d + 63
    ensures Value(c) % 0x20 == d && Value(c) / 0x20 % 2 == 1
  {}

  lemma LastBits(m: nat, c: Char)
    requires m < 0x20 && c == m + 63
    ensures Value(c) % 0x20 == m && Value(c) / 0x20 % 2 == 0
  {}

  lemma SmallBits(bits: int)
    requires 0 <= bits < 0x1_0000_0000
    ensures bits % 0x1_0000_0000 == bits
  {}

  /** What follows a number is not read with it. */
  lemma {:induction false} ScanChunks(m: nat, k: nat, s: seq<Char>, i: nat, rest: seq<Char>)
    requires m * Weight(k) < 0x8000_0000 && m < 0x8000_0000 && k < MAX_CHUNKS
    requires i <= |s| && s[i..] == Chunks(m) + rest
    ensures Scan(s, i, k) == (m * Weight(k), i + |Chunks(m)|)
    decreases m
  {
    hide Scan;
    var t := s[i..];
    assert s[i] == t[0] == Chunks(m)[0];
    if m < 0x20 {
      ScanLast(m, k, s, i);
    } else {
      var q, d, w := m / 0x20, m % 0x20, Weight(k);
      Distribute(q, d, w, m);
      assert s[i + 1..] == t[1..] == Chunks(q) + rest;
      ScanMore(d, k, s, i);
      ChunksLeft(q, k);
      ScanChunks(q, k + 1, s, i + 1, rest);
    }
  }

  lemma ChunksLeft(q: nat, k: nat)
    requires q >= 1 && k < MAX_CHUNKS && q * Weight(k + 1) < 0x8000_0000
    ensures k + 1 < MAX_CHUNKS
  {
    WeightGrows(k + 1);
    TimesAtLeast(q, Weight(k + 1));
  }

  lemma Distribute(q: nat, d: nat, w: nat, m: nat)
    requires m == q * 0x20 + d
    ensures m * w == q * (0x20 * w) + d * w
    ensures q * (0x20 * w) >= 0 && d * w >= 0
  {}

  lemma SmallZigZag(n: Int32)
    requires IsEncodable(n)
    ensures ZigZag(n) == if n < 0 then -2 * n - 1 else 2 * n
  {
    if n < 0 {
      var u: int := n % 0x1_0000_0000;
      assert u == n + 0x1_0000_0000 && 2 * u % 0x1_0000_0000 == 2 * n + 0x1_0000_0000;
    }
  }

  lemma SmallFromZigZag(n: int)
    requires IsEncodable(n)
    ensures n >= 0 ==> FromZigZag(2 * n) == n
    ensures n < 0 ==> FromZigZag(-2 * n - 1) == n
  {}

  lemma ZigZagRoundTrip(n: Int32)
    requires IsEncodable(n)
    ensures 0 <= ZigZag(n) < 0x8000_0000 && FromZigZag(ZigZag(n)) == n
  {
    hide ZigZag, FromZigZag;
    SmallZigZag(n);
    SmallFromZigZag(n);
  }

  /** The range in which a number has at most 31 bits besides its sign. */
  predicate IsEncodable(n: int) {
    -0x4000_0000 <= n < 0x4000_0000
  }

  lemma NumberDecodes(n: Int32, s: seq<Char>, i: nat, rest: seq<Char>)
    requires IsEncodable(n) && i <= |s| && s[i..] == Chunks(ZigZag(n)) + rest
    ensures FromZigZag(Scan(s, i, 0).0) == n && Scan(s, i, 0).1 == i + |Chunks(ZigZag(n))|
  {
    hide ZigZag, Scan, FromZigZag, Chunks;
    ZigZagRoundTrip(n);
    ScanChunks(ZigZag(n), 0, s, i, rest);
  }

  lemma LargeZigZag(n: Int32)
    requires !IsEncodable(n)
    ensures ZigZag(n) < 0
  {
    if n < 0 {
      var u: int := n % 0x1_0000_0000;
      assert u == n + 0x1_0000_0000 && 2 * u % 0x1_0000_0000 < 0x8000_0000;
    }
  }

  /** A number decodes to itself exactly if it lies in the range; every other one loses its high bits. */
  lemma NumberRoundTrip(n: Int32)
    ensures FromZigZag(Scan(Chunks(ZigZag(n)), 0, 0).0) == n <==> IsEncodable(n)
  {
    var s := Chunks(ZigZag(n));
    if IsEncodable(n) {
      assert s[0..] == s + [];
      NumberDecodes(n, s, 0, []);
    } else {
      LargeZigZag(n);
      assert |s| == 1;
      assert Scan(s, 1, 1).0 == 0;
      assert Scan(s, 0, 0).0 < 0x20;
    }
  }

  /** The example of the format: -179.98321 degrees with five digits are "`~oia@". */
  lemma ExampleNumber()
    ensures Chunks(ZigZag(-17998321)) == [96, 126, 111, 105, 97, 64]
  {
    SmallZigZag(-17998321);
    assert ZigZag(-17998321) == 35996641;
    ChunkStep(35996641, 1124895, 1);
    ChunkStep(1124895, 35152, 31);
    ChunkStep(35152, 1098, 16);
    ChunkStep(1098, 34, 10);
    ChunkStep(34, 1, 2);
    assert Chunks(1) == [64];
  }

  lemma ChunkStep(m: Int32, q: Int32, d: int)
    requires m >= 0x20 && m == 0x20 * q + d && 0 <= d < 0x20
    ensures Chunks(m) == [0x20 + d + 63] + Chunks(q)
  {}

  /** Of 2^30 nothing but a zero is left. */
  lemma LargeNumberIsLost()
    ensures FromZigZag(Scan(Chunks(ZigZag(0x4000_0000)), 0, 0).0) == 0
  {
    assert ZigZag(0x4000_0000) == -0x8000_0000;
    assert Chunks(-0x8000_0000) == [ToChar(-0x8000_0000 + 63)] == [63];
    assert Weight(0) == 1 && Value(63) == 0;
  }

  // Lines

  datatype Coordinate = Coordinate(lon: Int32, lat: Int32)

  /** How many units of a coordinate make one of the polyline: 10 for five digits, 1 for six. */
  type Units = u: nat | u == 1 || u == 10 witness 1

  /** Rounds to the nearest unit, and halves away from zero. */
  function Rounded(x: int, units: Units): int {
    if units == 1 then x else if x >= 0 then (x + 5) / 10 else -((-x + 5) / 10)
  }

  lemma RoundedIsNear(x: int, units: Units)
    ensures units == 1 ==> Rounded(x, units) * units == x
    ensures units == 10 ==> -5 <= Rounded(x, units) * units - x <= 5
    ensures Rounded(x, units) * units - x == 5 ==> x > 0
    ensures Rounded(x, units) * units - x == -5 ==> x < 0
  {}

  /** The differences of the rounded coordinates are 32-bit integers. */
  predicate StepsFit(line: seq<Coordinate>, lat: int, lon: int, units: Units) {
    line == [] ||
    var lat', lon' := Rounded(line[0].lat, units), Rounded(line[0].lon, units);
    IsInt32(lat' - lat) && IsInt32(lon' - lon) && StepsFit(line[1..], lat', lon', units)
  }

  predicate IsInt32(n: int) {
    -0x8000_0000 <= n < 0x8000_0000
  }

  /** None of the differences has too many bits to be encoded. */
  predicate StepsEncodable(line: seq<Coordinate>, lat: int, lon: int, units: Units) {
    line == [] ||
    var lat', lon' := Rounded(line[0].lat, units), Rounded(line[0].lon, units);
    IsEncodable(lat' - lat) && IsEncodable(lon' - lon) && StepsEncodable(line[1..], lat', lon', units)
  }

  predicate IsValid(c: Coordinate) {
    -180_000_000 <= c.lon <= 180_000_000 && -90_000_000 <= c.lat <= 90_000_000
  }

  predicate IsSmall(x: int) {
    -0x2000_0000 < x < 0x2000_0000
  }

  /** So it is with five digits, and with valid longitudes and latitudes. */
  lemma {:induction false} UsuallyEncodable(line: seq<Coordinate>, lat: int, lon: int, units: Units)
    requires units == 10 || forall c :: c in line ==> IsValid(c)
    requires IsSmall(lat) && IsSmall(lon)
    ensures StepsFit(line, lat, lon, units) && StepsEncodable(line, lat, lon, units)
  {
    if line != [] {
      assert line[0] in line;
      UsuallyEncodable(line[1..], Rounded(line[0].lat, units), Rounded(line[0].lon, units), units);
    }
  }

  ghost function Encoded(line: seq<Coordinate>, lat: int, lon: int, units: Units): seq<Char>
    requires StepsFit(line, lat, lon, units)
  {
    if line == [] then []
    else
      var lat', lon' := Rounded(line[0].lat, units), Rounded(line[0].lon, units);
      Chunks(ZigZag(lat' - lat)) + (Chunks(ZigZag(lon' - lon)) + Encoded(line[1..], lat', lon', units))
  }

  method EncodePolyline(line: seq<Coordinate>, units: Units) returns (output: seq<Char>)
    requires StepsFit(line, 0, 0, units)
    ensures output == Encoded(line, 0, 0, units)
  {
    hide Chunks, ZigZag, Rounded, Encoded, StepsFit;
    output := [];
    NoneEncoded(line, 0, 0, units);
    if line == [] {
      return;
    }
    var currentLat, currentLon := 0, 0;
    assert line[0..] == line;
    for i := 0 to |line|
      invariant StepsFit(line[i..], currentLat, currentLon, units)
      invariant output + Encoded(line[i..], currentLat, currentLon, units) == Encoded(line, 0, 0, units)
    {
      OneMoreEncoded(line, i, currentLat, currentLon, units);
      var latDiff := Rounded(line[i].lat, units) - currentLat;
      var lonDiff := Rounded(line[i].lon, units) - currentLon;
      output := EncodeNumber(latDiff, output);
      output := EncodeNumber(lonDiff, output);
      currentLat := currentLat + latDiff;
      currentLon := currentLon + lonDiff;
    }
    NoneEncoded(line[|line|..], currentLat, currentLon, units);
  }

  lemma NoneEncoded(line: seq<Coordinate>, lat: int, lon: int, units: Units)
    requires StepsFit(line, lat, lon, units)
    ensures line == [] ==> Encoded(line, lat, lon, units) == []
  {}

  lemma OneMoreEncoded(line: seq<Coordinate>, i: nat, lat: int, lon: int, units: Units)
    requires i < |line| && StepsFit(line[i..], lat, lon, units)
    ensures var lat', lon' := Rounded(line[i].lat, units), Rounded(line[i].lon, units);
            && IsInt32(lat' - lat) && IsInt32(lon' - lon) && StepsFit(line[i + 1..], lat', lon', units)
            && Encoded(line[i..], lat, lon, units)
               == Chunks(ZigZag(lat' - lat)) + (Chunks(ZigZag(lon' - lon)) + Encoded(line[i + 1..], lat', lon', units))
  {
    hide Chunks, ZigZag, Rounded;
    assert line[i..][0] == line[i] && line[i..][1..] == line[i + 1..];
  }

  function Scaled(lat: int, lon: int, units: Units): (int, int) {
    (lat * units, lon * units)
  }

  lemma ScaledIsInjective(lat: int, lon: int, lat': int, lon': int, units: Units)
    requires Scaled(lat, lon, units) == Scaled(lat', lon', units)
    ensures lat == lat' && lon == lon'
  {
    assert units == 1 || units == 10;
  }

  /** The coordinates of a line, latitude first. */
  function Decoded(s: seq<Char>, i: nat, lat: int, lon: int, units: Units): seq<(int, int)>
    requires i <= |s|
    decreases |s| - i
  {
    if i == |s| then []
    else
      var (dlat, j) := Scan(s, i, 0);
      var (dlon, next) := Scan(s, j, 0);
      var lat', lon' := lat + FromZigZag(dlat), lon + FromZigZag(dlon);
      [Scaled(lat', lon', units)] + Decoded(s, next, lat', lon', units)
  }

  method DecodePolyline(s: seq<Char>, units: Units) returns (coordinates: seq<(int, int)>)
    ensures coordinates == Decoded(s, 0, 0, 0, units)
  {
    hide Scan, FromZigZag, Decoded, Scaled;
    coordinates := [];
    var latitude, longitude := 0, 0;
    var first := 0;
    while first != |s|
      invariant first <= |s|
      invariant coordinates + Decoded(s, first, latitude, longitude, units) == Decoded(s, 0, 0, 0, units)
      decreases |s| - first
    {
      DecodedUnfolds(s, first, latitude, longitude, units);
      var dlat, dlon;
      dlat, first := DecodeNumber(s, first);
      dlon, first := DecodeNumber(s, first);
      latitude := latitude + dlat;
      longitude := longitude + dlon;
      coordinates := coordinates + [Scaled(latitude, longitude, units)];
    }
    DecodedEnds(s, latitude, longitude, units);
  }

  function RoundedLine(line: seq<Coordinate>, units: Units): (r: seq<(int, int)>)
    ensures |r| == |line|
    ensures forall k :: 0 <= k < |line| ==>
              r[k] == Scaled(Rounded(line[k].lat, units), Rounded(line[k].lon, units), units)
  {
    if line == [] then []
    else [Scaled(Rounded(line[0].lat, units), Rounded(line[0].lon, units), units)] + RoundedLine(line[1..], units)
  }

  /** The running sums of the decoder are the rounded coordinates themselves: errors do not add up. */
  lemma {:induction false} LineDecodes(line: seq<Coordinate>, lat: int, lon: int, units: Units, s: seq<Char>, i: nat)
    requires StepsFit(line, lat, lon, units) && StepsEncodable(line, lat, lon, units)
    requires i <= |s| && s[i..] == Encoded(line, lat, lon, units)
    ensures Decoded(s, i, lat, lon, units) == RoundedLine(line, units)
    decreases line
  {
    hide Chunks, ZigZag, Scan, FromZigZag, Rounded;
    if line != [] {
      var lat', lon' := Rounded(line[0].lat, units), Rounded(line[0].lon, units);
      var a, b := Chunks(ZigZag(lat' - lat)), Chunks(ZigZag(lon' - lon));
      var rest := Encoded(line[1..], lat', lon', units);
      NumberDecodes(lat' - lat, s, i, b + rest);
      var j := i + |a|;
      assert s[j..] == s[i..][|a|..] == b + rest;
      NumberDecodes(lon' - lon, s, j, rest);
      var next := j + |b|;
      assert s[next..] == s[j..][|b|..] == rest;
      LineDecodes(line[1..], lat', lon', units, s, next);
    }
  }

  // Conversely, a number that cannot be encoded takes more characters to decode than it was given

  /** With `n` characters read, the bits stay below the `n`th weight. */
  lemma {:induction false} ScanIsBounded(s: seq<Char>, i: nat, k: nat)
    requires i <= |s|
    ensures var (bits, next) := Scan(s, i, k); bits <= Weight(k + next - i) - Weight(k)
    decreases |s| - i
  {
    if i < |s| && k < MAX_CHUNKS {
      var low := Value(s[i]) % 0x20;
      ChunkIsBounded(low, Weight(k));
      assert Weight(k + 1) == 0x20 * Weight(k);
      if Value(s[i]) / 0x20 % 2 != 0 {
        ScanIsBounded(s, i + 1, k + 1);
      }
    }
  }

  lemma ChunkIsBounded(low: nat, w: nat)
    requires low < 0x20
    ensures low * w % 0x1_0000_0000 <= 0x1F * w
  {
    assert low * w <= 0x1F * w;
    var p := low * w;
    assert p % 0x1_0000_0000 <= p;
  }

  lemma {:induction false} WeightIsMonotone(k: nat, n: nat)
    requires k <= n
    ensures Weight(k) <= Weight(n)
  {
    if k < n {
      WeightIsMonotone(k, n - 1);
    }
  }

  lemma {:induction false} ChunksNeedWeight(m: Int32)
    ensures |Chunks(m)| > 1 ==> m >= Weight(|Chunks(m)| - 1)
  {
    if m >= 0x20 {
      ChunksNeedWeight(m / 0x20);
    }
  }

  lemma {:induction false} FromZigZagIsUnique(n: Int32, result: nat)
    requires FromZigZag(result) == n
    ensures ZigZag(n) % 0x1_0000_0000 == result % 0x1_0000_0000
  {
    var u := result % 0x1_0000_0000;
    var h := u / 2;
    if u % 2 == 1 {
      assert n == -h - 1 && n % 0x1_0000_0000 == 0xFFFF_FFFF - h;
      assert 2 * (0xFFFF_FFFF - h) % 0x1_0000_0000 == 0xFFFF_FFFF - u;
    } else {
      assert n == h && 2 * n == u;
    }
  }

  /** A number that is read right took at least as many characters as it is written with. */
  lemma ScanNeeds(s: seq<Char>, i: nat, n: Int32)
    requires i <= |s| && FromZigZag(Scan(s, i, 0).0) == n
    ensures var taken := Scan(s, i, 0).1 - i;
            && (i < |s| ==> taken >= |Chunks(ZigZag(n))|) && |Chunks(ZigZag(n))| <= taken + 1
            && (!IsEncodable(n) ==> taken >= MAX_CHUNKS && |Chunks(ZigZag(n))| == 1)
  {
    var (bits, next) := Scan(s, i, 0);
    var m, taken, length := ZigZag(n), next - i, |Chunks(ZigZag(n))|;
    FromZigZagIsUnique(n, bits);
    ScanIsBounded(s, i, 0);
    ChunksNeedWeight(m);
    if !IsEncodable(n) {
      LargeZigZag(n);
    }
    LowBitsAtMost(m, bits);
    assert bits < Weight(taken);
    if length > 1 && taken < length {
      WeightIsMonotone(taken, length - 1);
    }
    if m < 0 && taken < MAX_CHUNKS {
      WeightGrows(6);
      WeightIsMonotone(taken, 6);
    }
  }

  lemma LowBitsAtMost(m: Int32, bits: nat)
    requires m % 0x1_0000_0000 == bits % 0x1_0000_0000
    ensures if m < 0 then bits >= 0x8000_0000 else bits >= m
  {}

  /** Whether the decoder gives back the line, it has then read at least what was written for it. */
  lemma {:induction false} LineNeeds(line: seq<Coordinate>, lat: int, lon: int, units: Units, s: seq<Char>, i: nat)
    requires i <= |s| && StepsFit(line, lat, lon, units)
    requires Decoded(s, i, lat, lon, units) == RoundedLine(line, units)
    ensures var written := |Encoded(line, lat, lon, units)|;
            && |s| - i + 1 >= written
            && (!StepsEncodable(line, lat, lon, units) ==> |s| - i > written)
    decreases line
  {
    hide Scan, Chunks, ZigZag, FromZigZag, Rounded, Decoded, RoundedLine, IsEncodable;
    DecodedIsEmpty(line, lat, lon, units, s, i);
    if line != [] {
      var lat', lon' := Rounded(line[0].lat, units), Rounded(line[0].lon, units);
      var (dlat, j) := Scan(s, i, 0);
      var (dlon, next) := Scan(s, j, 0);
      FirstDecoded(line, lat, lon, units, s, i);
      ScanNeeds(s, i, lat' - lat);
      ScanNeeds(s, j, lon' - lon);
      LineNeeds(line[1..], lat', lon', units, s, next);
    }
  }

  lemma DecodedIsEmpty(line: seq<Coordinate>, lat: int, lon: int, units: Units, s: seq<Char>, i: nat)
    requires i <= |s| && Decoded(s, i, lat, lon, units) == RoundedLine(line, units)
    ensures line == [] <==> i == |s|
  {}

  lemma {:induction false} FirstDecoded(line: seq<Coordinate>, lat: int, lon: int, units: Units, s: seq<Char>, i: nat)
    requires i < |s| && line != [] && Decoded(s, i, lat, lon, units) == RoundedLine(line, units)
    ensures var lat', lon' := Rounded(line[0].lat, units), Rounded(line[0].lon, units);
            var (dlat, j) := Scan(s, i, 0);
            var (dlon, next) := Scan(s, j, 0);
            && FromZigZag(dlat) == lat' - lat && FromZigZag(dlon) == lon' - lon
            && Decoded(s, next, lat', lon', units) == RoundedLine(line[1..], units)
  {
    hide Scan, FromZigZag, Rounded, Scaled, Decoded, RoundedLine;
    var (dlat, j) := Scan(s, i, 0);
    var (dlon, next) := Scan(s, j, 0);
    DecodedUnfolds(s, i, lat, lon, units);
    RoundedUnfolds(line, units);
    ScaledIsInjective(lat + FromZigZag(dlat), lon + FromZigZag(dlon),
                      Rounded(line[0].lat, units), Rounded(line[0].lon, units), units);
  }

  lemma DecodedUnfolds(s: seq<Char>, i: nat, lat: int, lon: int, units: Units)
    requires i < |s|
    ensures var (dlat, j) := Scan(s, i, 0);
            var (dlon, next) := Scan(s, j, 0);
            var lat', lon' := lat + FromZigZag(dlat), lon + FromZigZag(dlon);
            Decoded(s, i, lat, lon, units) == [Scaled(lat', lon', units)] + Decoded(s, next, lat', lon', units)
  {}

  lemma DecodedEnds(s: seq<Char>, lat: int, lon: int, units: Units)
    ensures Decoded(s, |s|, lat, lon, units) == []
  {}

  lemma RoundedUnfolds(line: seq<Coordinate>, units: Units)
    requires line != []
    ensures RoundedLine(line, units)[0] == Scaled(Rounded(line[0].lat, units), Rounded(line[0].lon, units), units)
    ensures RoundedLine(line, units)[1..] == RoundedLine(line[1..], units)
  {}

  /**
   A line decodes to its rounded coordinates exactly if every difference can be encoded.  Rounding is
   exact with six digits, and moves a point by at most half a unit of the fifth digit otherwise.
   */
  lemma PolylineRoundTrip(line: seq<Coordinate>, units: Units)
    requires StepsFit(line, 0, 0, units)
    ensures Decoded(Encoded(line, 0, 0, units), 0, 0, 0, units) == RoundedLine(line, units)
            <==> StepsEncodable(line, 0, 0, units)
    ensures forall k :: 0 <= k < |line| ==>
              var (lat, lon) := RoundedLine(line, units)[k];
              if units == 1 then lat == line[k].lat && lon == line[k].lon
              else -5 <= lat - line[k].lat <= 5 && -5 <= lon - line[k].lon <= 5
  {
    var s := Encoded(line, 0, 0, units);
    assert s[0..] == s;
    if StepsEncodable(line, 0, 0, units) {
      LineDecodes(line, 0, 0, units, s, 0);
    } else if Decoded(s, 0, 0, 0, units) == RoundedLine(line, units) {
      LineNeeds(line, 0, 0, units, s, 0);
    }
    forall k | 0 <= k < |line|
      ensures units == 1 ==> Rounded(line[k].lat, units) == line[k].lat && Rounded(line[k].lon, units) == line[k].lon
      ensures units == 10 ==> -5 <= Rounded(line[k].lat, units) * units - line[k].lat <= 5
      ensures units == 10 ==> -5 <= Rounded(line[k].lon, units) * units - line[k].lon <= 5
    {
      RoundedIsNear(line[k].lat, units);
      RoundedIsNear(line[k].lon, units);
    }
  }
}
