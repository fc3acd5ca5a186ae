/**
 Bytes, their lexicographic order, and the fixed and variable width encodings of one key field.
 */
module KeyBytes {
  import opened ByteText

  const SIGN: nat := 0x8000_0000_0000_0000
  const WORD: nat := 0x1_0000_0000_0000_0000
  type u32 = x: int | 0 <= x < 0x1_0000_0000
  type u64 = x: int | 0 <= x < 0x1_0000_0000_0000_0000
  type i64 = x: int | -0x8000_0000_0000_0000 <= x < 0x8000_0000_0000_0000

  function Sign(x: int): (r: int) {
    if x < 0 then -1 else if x == 0 then 0 else 1
  }

  /** std::string::compare: unsigned bytes, a proper prefix first. */
  function Cmp(a: Bytes, b: Bytes): (r: int)
    ensures -1 <= r <= 1 && (r == 0 <==> a == b)
  {
    if a == [] || b == [] then Sign(|a| - |b|)
    else if a[0] < b[0] then -1
    else if a[0] > b[0] then 1
    else assert a == [a[0]] + a[1..] && b == [b[0]] + b[1..]; Cmp(a[1..], b[1..])
  }

  /** Equally long heads decide, and their tails only when the heads agree. */
  lemma {:induction false} CmpConcat(a: Bytes, b: Bytes, x: Bytes, y: Bytes)
    requires |a| == |b|
    ensures Cmp(a + x, b + y) == if a == b then Cmp(x, y) else Cmp(a, b)
  {
    if a == [] {
      assert a + x == x && b + y == y;
    } else {
      assert (a + x)[1..] == a[1..] + x && (b + y)[1..] == b[1..] + y;
      assert a == [a[0]] + a[1..] && b == [b[0]] + b[1..];
      CmpConcat(a[1..], b[1..], x, y);
    }
  }

  lemma {:induction false} CmpAntisymmetric(a: Bytes, b: Bytes)
    ensures Cmp(b, a) == -Cmp(a, b)
  {
    if a != [] && b != [] { CmpAntisymmetric(a[1..], b[1..]); }
  }

  // ---- words: htonll and the copy of its memory ----

  function Htonl(x: u32): (r: u32) {
    x % 0x100 * 0x100_0000 + x / 0x100 % 0x100 * 0x1_0000 + x / 0x1_0000 % 0x100 * 0x100 + x / 0x100_0000
  }

  /** htonll, and ntohll, which has the same body. */
  function Htonll(v: u64): (r: u64) {
    Htonl(v % 0x1_0000_0000) * 0x1_0000_0000 + Htonl(v / 0x1_0000_0000)
  }

  /** The memory of an n-byte word on a little-endian host. */
  function Memory(v: nat, n: nat): (r: Bytes)
    ensures |r| == n
  {
    if n == 0 then [] else [v % 256] + Memory(v / 256, n - 1)
  }

  function FromMemory(s: Bytes): (v: nat) {
    if s == [] then 0 else s[0] + 256 * FromMemory(s[1..])
  }

  function BigEndian(v: nat, n: nat): (r: Bytes)
    ensures |r| == n
  {
    if n == 0 then [] else BigEndian(v / 256, n - 1) + [v % 256]
  }

  function Pow256(n: nat): (r: nat)
    ensures r > 0
  {
    if n == 0 then 1 else 256 * Pow256(n - 1)
  }

  /** EncodeBytes(uint64_t) */
  function EncodeWord(v: u64): (r: Bytes) {
    Memory(Htonll(v), 8)
  }

  /** DecodeBytes into a uint64_t */
  function DecodeWord(s: Bytes): (v: u64)
    requires |s| == 8
  {
    MemoryWord(s);
    Htonll(FromMemory(s))
  }

  lemma WordStep(v: nat, n: nat)
    requires n > 0
    ensures Memory(v, n) == [v % 256] + Memory(v / 256, n - 1) &&
            BigEndian(v, n) == BigEndian(v / 256, n - 1) + [v % 256]
  {
  }

  lemma Memory4(v: u32)
    ensures Memory(v, 4) == [v % 0x100, v / 0x100 % 0x100, v / 0x1_0000 % 0x100, v / 0x100_0000]
    ensures BigEndian(v, 4) == [v / 0x100_0000, v / 0x1_0000 % 0x100, v / 0x100 % 0x100, v % 0x100]
  {
    hide Memory, BigEndian;
    WordStep(v, 4);
    WordStep(v / 0x100, 3);
    WordStep(v / 0x1_0000, 2);
    WordStep(v / 0x100_0000, 1);
  }

  /** Four base-256 digits determine each other. */
  lemma Digits4(x: u32, a: byte, b: byte, c: byte, d: byte)
    requires x == a * 0x100_0000 + b * 0x1_0000 + c * 0x100 + d
    ensures x % 0x100 == d && x / 0x100 % 0x100 == c && x / 0x1_0000 % 0x100 == b && x / 0x100_0000 == a
  {
    assert x / 0x100 == a * 0x1_0000 + b * 0x100 + c;
    assert x / 0x1_0000 == a * 0x100 + b;
  }

  lemma SplitDigits(x: u32, a: byte, b: byte, c: byte, d: byte)
    requires a == x / 0x100_0000 && b == x / 0x1_0000 % 0x100 && c == x / 0x100 % 0x100 && d == x % 0x100
    ensures x == a * 0x100_0000 + b * 0x1_0000 + c * 0x100 + d
  {
    assert x / 0x1_0000 == x / 0x100 / 0x100 && x / 0x100_0000 == x / 0x1_0000 / 0x100;
  }

  lemma HtonlDigits(x: u32, a: byte, b: byte, c: byte, d: byte)
    requires x == a * 0x100_0000 + b * 0x1_0000 + c * 0x100 + d
    ensures Htonl(x) == d * 0x100_0000 + c * 0x1_0000 + b * 0x100 + a
    ensures x % 0x100 == d && x / 0x100 % 0x100 == c && x / 0x1_0000 % 0x100 == b && x / 0x100_0000 == a
  {
    Digits4(x, a, b, c, d);
  }

  lemma HtonlSwaps(x: u32)
    ensures Memory(Htonl(x), 4) == BigEndian(x, 4) && Htonl(Htonl(x)) == x
  {
    hide Htonl, Memory, BigEndian;
    var a, b, c, d := x / 0x100_0000, x / 0x1_0000 % 0x100, x / 0x100 % 0x100, x % 0x100;
    SplitDigits(x, a, b, c, d);
    HtonlDigits(x, a, b, c, d);
    HtonlDigits(Htonl(x), d, c, b, a);
    Memory4(x);
    Memory4(Htonl(x));
  }

  lemma CarryFree(lo: nat, hi: nat, p: nat)
    ensures (lo + hi * (256 * p)) % 256 == lo % 256 && (lo + hi * (256 * p)) / 256 == lo / 256 + hi * p
  {
    assert hi * (256 * p) == 256 * (hi * p);
  }

  lemma {:induction false} MemorySplit(lo: nat, hi: nat, m: nat, n: nat)
    requires lo < Pow256(m)
    ensures Memory(lo + hi * Pow256(m), m + n) == Memory(lo, m) + Memory(hi, n)
  {
    if m > 0 {
      var v := lo + hi * Pow256(m);
      CarryFree(lo, hi, Pow256(m - 1));
      MemorySplit(lo / 256, hi, m - 1, n);
    } else {
      assert Pow256(0) == 1;
    }
  }

  lemma {:induction false} BigEndianSplit(lo: nat, hi: nat, m: nat, n: nat)
    requires lo < Pow256(m)
    ensures BigEndian(lo + hi * Pow256(m), m + n) == BigEndian(hi, n) + BigEndian(lo, m)
  {
    if m > 0 {
      var v := lo + hi * Pow256(m);
      CarryFree(lo, hi, Pow256(m - 1));
      BigEndianSplit(lo / 256, hi, m - 1, n);
    } else {
      assert Pow256(0) == 1;
    }
  }

  lemma Pow256Values()
    ensures Pow256(4) == 0x1_0000_0000 && Pow256(8) == 0x1_0000_0000_0000_0000
  {
    assert Pow256(2) == 0x1_0000;
    assert Pow256(4) == 0x1_0000_0000;
    assert Pow256(6) == 0x1_0000_0000_0000;
  }

  /** A word's encoding is its eight bytes, the most significant first. */
  lemma NetworkOrder(v: u64)
    ensures EncodeWord(v) == BigEndian(v, 8)
  {
    Pow256Values();
    var hi, lo := v / 0x1_0000_0000, v % 0x1_0000_0000;
    MemorySplit(Htonl(hi), Htonl(lo), 4, 4);
    BigEndianSplit(lo, hi, 4, 4);
    HtonlSwaps(hi);
    HtonlSwaps(lo);
  }

  lemma {:induction false} MemoryBound(s: Bytes)
    ensures FromMemory(s) < Pow256(|s|) && Memory(FromMemory(s), |s|) == s
  {
    if s != [] {
      MemoryBound(s[1..]);
      var v := FromMemory(s);
      assert v % 256 == s[0] && v / 256 == FromMemory(s[1..]);
      assert s == [s[0]] + s[1..];
    }
  }

  lemma MemoryWord(s: Bytes)
    requires |s| == 8
    ensures FromMemory(s) < 0x1_0000_0000_0000_0000
  {
    MemoryBound(s);
    Pow256Values();
  }

  lemma {:induction false} FromMemoryOf(v: nat, n: nat)
    requires v < Pow256(n)
    ensures FromMemory(Memory(v, n)) == v
  {
    if n > 0 {
      FromMemoryOf(v / 256, n - 1);
      assert Memory(v, n)[1..] == Memory(v / 256, n - 1);
    } else {
      assert Pow256(0) == 1;
    }
  }

  lemma WordRoundTrip(v: u64)
    ensures |EncodeWord(v)| == 8 && DecodeWord(EncodeWord(v)) == v
  {
    hide Memory, FromMemory, Pow256, Htonl;
    Pow256Values();
    FromMemoryOf(Htonll(v), 8);
    HtonlSwaps(v / 0x1_0000_0000);
    HtonlSwaps(v % 0x1_0000_0000);
  }

  lemma {:induction false} BigEndianOrder(u: nat, v: nat, n: nat, x: Bytes, y: Bytes)
    requires u < Pow256(n) && v < Pow256(n)
    ensures Cmp(BigEndian(u, n) + x, BigEndian(v, n) + y) == if u == v then Cmp(x, y) else Sign(u - v)
  {
    if n > 0 {
      assert BigEndian(u, n) + x == BigEndian(u / 256, n - 1) + ([u % 256] + x);
      assert BigEndian(v, n) + y == BigEndian(v / 256, n - 1) + ([v % 256] + y);
      BigEndianOrder(u / 256, v / 256, n - 1, [u % 256] + x, [v % 256] + y);
      CmpConcat([u % 256], [v % 256], x, y);
    } else {
      assert Pow256(0) == 1;
      assert BigEndian(u, 0) + x == x && BigEndian(v, 0) + y == y;
    }
  }

  /** Encoded words compare as the words, whatever follows them. */
  lemma WordOrder(u: u64, v: u64, x: Bytes, y: Bytes)
    ensures Cmp(EncodeWord(u) + x, EncodeWord(v) + y) == if u == v then Cmp(x, y) else Sign(u - v)
  {
    Pow256Values();
    NetworkOrder(u);
    NetworkOrder(v);
    BigEndianOrder(u, v, 8, x, y);
  }

  // ---- signed integers ----

  /** The word's bits with the sign bit inverted. */
  function FlipSign(u: u64): (r: u64) {
    if u >= SIGN then u - SIGN else u + SIGN
  }

  /** encode_into_cmp_uint */
  function CmpUint(v: i64): (r: u64) {
    FlipSign(v % WORD)
  }

  function EncodeInt(v: i64): (r: Bytes) {
    EncodeWord(CmpUint(v))
  }

  function DecodeInt(s: Bytes): (v: i64)
    requires |s| == 8
  {
    var u := FlipSign(DecodeWord(s));
    if u >= SIGN then u - WORD else u
  }

  lemma IntOrder(u: i64, v: i64, x: Bytes, y: Bytes)
    ensures Cmp(EncodeInt(u) + x, EncodeInt(v) + y) == if u == v then Cmp(x, y) else Sign(u - v)
  {
    hide EncodeWord;
    WordOrder(CmpUint(u), CmpUint(v), x, y);
  }

  lemma IntRoundTrip(v: i64)
    ensures |EncodeInt(v)| == 8 && DecodeInt(EncodeInt(v)) == v
  {
    hide EncodeWord, DecodeWord;
    WordRoundTrip(CmpUint(v));
  }

  // ---- doubles, as IEEE 754 bit patterns ----

  const INFINITY: nat := 0x7FF0_0000_0000_0000
  const FRACTION: nat := 0x10_0000_0000_0000

  predicate IsNaN(u: u64) {
    u % SIGN > INFINITY
  }

  function Pow2(n: nat): (r: nat)
    ensures r > 0
  {
    if n == 0 then 1 else 2 * Pow2(n - 1)
  }

  /** Exponent bits `e` and fraction bits `f`, in units of the smallest positive double: 2^-1074. */
  function Scaled(e: nat, f: nat): (r: nat) {
    if e == 0 then f else (FRACTION + f) * Pow2(e - 1)
  }

  /** The absolute value, in the same units. */
  function Magnitude(m: nat): (r: nat) {
    Scaled(m / FRACTION, m % FRACTION)
  }

  /** The double's value in the same units; an infinity is beyond every finite value. */
  function Value(u: u64): (r: int) {
    if u >= SIGN then 0 - Magnitude(u % SIGN) else Magnitude(u % SIGN)
  }

  /** src >= 0, false of a NaN and true of negative zero */
  predicate NonNegative(u: u64) {
    !IsNaN(u) && Value(u) >= 0
  }

  function EncodeDoubleWord(u: u64): (r: u64) {
    if NonNegative(u) then u % SIGN + SIGN else WORD - 1 - u
  }

  function EncodeDouble(u: u64): (r: Bytes) {
    EncodeWord(EncodeDoubleWord(u))
  }

  function DecodeDouble(s: Bytes): (u: u64)
    requires |s| == 8
  {
    var v := DecodeWord(s);
    if v >= SIGN then v - SIGN else WORD - 1 - v
  }

  lemma {:induction false} Pow2Monotone(m: nat, n: nat)
    requires m <= n
    ensures Pow2(m) <= Pow2(n)
  {
    if m < n { Pow2Monotone(m, n - 1); }
  }

  lemma ScaledLess(a: nat, b: nat, p: nat)
    requires a < b && p > 0
    ensures a * p < b * p
  {
  }

  lemma ScaledLeq(a: nat, p: nat, q: nat)
    requires p <= q
    ensures a * p <= a * q
  {
  }

  lemma ScaledMonotone(e: nat, f: nat, e': nat, f': nat)
    requires f < FRACTION && f' < FRACTION && (e < e' || (e == e' && f < f'))
    ensures Scaled(e, f) < Scaled(e', f')
  {
    if e == e' {
      if e > 0 { ScaledLess(FRACTION + f, FRACTION + f', Pow2(e - 1)); }
    } else {
      Pow2Monotone(e, e' - 1);
      ScaledLeq(FRACTION, Pow2(e), Pow2(e' - 1));
      ScaledLeq(Pow2(e' - 1), FRACTION, FRACTION + f');
      if e > 0 {
        ScaledLess(FRACTION + f, 2 * FRACTION, Pow2(e - 1));
      } else {
        assert Pow2(0) == 1;
      }
    }
  }

  /** Larger exponent and fraction bits mean a larger absolute value. */
  lemma MagnitudeMonotone(m: nat, n: nat)
    requires m < n
    ensures Magnitude(m) < Magnitude(n)
  {
    hide Scaled;
    ScaledMonotone(m / FRACTION, m % FRACTION, n / FRACTION, n % FRACTION);
  }

  lemma DoubleWordOrder(u: u64, v: u64)
    requires !IsNaN(u) && !IsNaN(v)
    ensures Sign(EncodeDoubleWord(u) - EncodeDoubleWord(v)) == Sign(Value(u) - Value(v))
  {
    hide Magnitude;
    var m, n := u % SIGN, v % SIGN;
    if m < n { MagnitudeMonotone(m, n); }
    if n < m { MagnitudeMonotone(n, m); }
    MagnitudeZero(m);
    MagnitudeZero(n);
  }

  lemma MagnitudeZero(m: nat)
    ensures Magnitude(m) == 0 <==> m == 0
  {
    if m > 0 { MagnitudeMonotone(0, m); }
  }

  lemma DoubleOrder(u: u64, v: u64, x: Bytes, y: Bytes)
    requires !IsNaN(u) && !IsNaN(v)
    ensures Cmp(EncodeDouble(u) + x, EncodeDouble(v) + y) == if Value(u) == Value(v) then Cmp(x, y)
                                                             else Sign(Value(u) - Value(v))
  {
    hide EncodeWord, Value, EncodeDoubleWord;
    DoubleWordOrder(u, v);
    WordOrder(EncodeDoubleWord(u), EncodeDoubleWord(v), x, y);
  }

  /** Decoding restores the bit pattern of every double but negative zero and the NaNs without sign. */
  lemma DoubleRoundTrip(u: u64)
    ensures |EncodeDouble(u)| == 8
    ensures DecodeDouble(EncodeDouble(u)) == u <==> u != SIGN && !(IsNaN(u) && u < SIGN)
    ensures !IsNaN(u) ==> Value(DecodeDouble(EncodeDouble(u))) == Value(u)
  {
    hide EncodeWord, DecodeWord, Magnitude;
    MagnitudeZero(u % SIGN);
    WordRoundTrip(EncodeDoubleWord(u));
  }

  // ---- strings ----

  const SEGMENT_SIZE: nat := 8
  const ENCODER_MARKER: nat := 127

  /** Filled up with zeros to n bytes. */
  function Padded(s: Bytes, n: nat): (r: Bytes)
    requires |s| <= n
    ensures |r| == n && r[..|s|] == s
  {
    s + seq(n - |s|, _ => 0)
  }

  /**
   Groups of seven bytes, each followed by a marker; the last group holds fewer than seven, and is filled up with
   zeros.
   */
  function EncodeString(s: Bytes): (r: Bytes)
    ensures |r| > 0 && |r| % SEGMENT_SIZE == 0
  {
    if |s| < 7 then Padded(s, 7) + [120 + |s|]
    else s[..7] + [127] + EncodeString(s[7..])
  }

  /** Filling up with zeros either keeps the order or hides it: then the shorter of the two is a prefix. */
  lemma {:induction false} PaddedOrder(s: Bytes, t: Bytes, n: nat)
    requires |s| <= n && |t| <= n
    ensures Cmp(Padded(s, n), Padded(t, n)) == 0 ==> Cmp(s, t) == Sign(|s| - |t|)
    ensures Cmp(Padded(s, n), Padded(t, n)) != 0 ==> Cmp(Padded(s, n), Padded(t, n)) == Cmp(s, t)
  {
    hide Padded;
    if n > 0 {
      PaddedTail(s, n);
      PaddedTail(t, n);
      PaddedOrder(Tail(s), Tail(t), n - 1);
    }
  }

  function Tail(s: Bytes): (r: Bytes) {
    if s == [] then [] else s[1..]
  }

  lemma PaddedTail(s: Bytes, n: nat)
    requires |s| <= n && n > 0
    ensures Padded(s, n)[1..] == Padded(Tail(s), n - 1) && Padded(s, n)[0] == if s == [] then 0 else s[0]
  {
  }

  lemma MarkerOrder(m: byte, n: byte)
    ensures Cmp([m], [n]) == if m < n then -1 else if m > n then 1 else 0
  {
  }

  /** One group and its marker against another. */
  lemma GroupOrder(s: Bytes, t: Bytes, x: Bytes, y: Bytes)
    requires |s| <= 7 && |t| <= 7
    ensures Cmp(Padded(s, 7) + [120 + |s|] + x, Padded(t, 7) + [120 + |t|] + y) == if s == t then Cmp(x, y)
                                                                                   else Cmp(s, t)
  {
    hide Cmp, Padded;
    PaddedOrder(s, t, 7);
    MarkedOrder(Padded(s, 7), Padded(t, 7), 120 + |s|, 120 + |t|, x, y);
    if Padded(s, 7) == Padded(t, 7) && |s| == |t| {
      assert s == Padded(s, 7)[..|s|] == t;
    }
  }

  lemma MarkedOrder(a: Bytes, b: Bytes, m: byte, n: byte, x: Bytes, y: Bytes)
    requires |a| == |b|
    ensures Cmp(a + [m] + x, b + [n] + y) == if a != b then Cmp(a, b) else if m != n then (if m < n then -1 else 1)
                                             else Cmp(x, y)
  {
    hide Cmp;
    assert a + [m] + x == a + ([m] + x) && b + [n] + y == b + ([n] + y);
    CmpConcat(a, b, [m] + x, [n] + y);
    CmpConcat([m], [n], x, y);
    MarkerOrder(m, n);
  }

  /** The first seven bytes, or all. */
  function Head(s: Bytes): (r: Bytes) {
    if |s| < 7 then s else s[..7]
  }

  function Rest(s: Bytes): (r: Bytes) {
    if |s| < 7 then [] else EncodeString(s[7..])
  }

  lemma EncodeStringParts(s: Bytes)
    ensures |Head(s)| <= 7 && EncodeString(s) == Padded(Head(s), 7) + [120 + |Head(s)|] + Rest(s)
  {
    if |s| >= 7 { assert Padded(Head(s), 7) == Head(s); }
  }

  /** A string and the other's first seven bytes. */
  lemma HeadOrder(s: Bytes, t: Bytes)
    ensures Head(s) != Head(t) ==> Cmp(Head(s), Head(t)) == Cmp(s, t)
    ensures |s| >= 7 && |t| >= 7 && Head(s) == Head(t) ==> Cmp(s, t) == Cmp(s[7..], t[7..])
  {
    if |s| >= 7 && |t| >= 7 {
      assert s == s[..7] + s[7..] && t == t[..7] + t[7..];
      CmpConcat(s[..7], t[..7], s[7..], t[7..]);
    } else if |s| >= 7 {
      CmpPrefix(t, s[..7], s[7..]);
      assert s == s[..7] + s[7..];
      CmpAntisymmetric(s, t);
      CmpAntisymmetric(s[..7], t);
    } else if |t| >= 7 {
      CmpPrefix(s, t[..7], t[7..]);
      assert t == t[..7] + t[7..];
    }
  }

  /** Bytes added to the longer string do not matter. */
  lemma {:induction false} CmpPrefix(s: Bytes, t: Bytes, x: Bytes)
    requires |s| < |t|
    ensures Cmp(s, t + x) == Cmp(s, t)
  {
    if s != [] {
      assert (t + x)[1..] == t[1..] + x;
      CmpPrefix(s[1..], t[1..], x);
    }
  }

  /** Encoded strings compare as the strings, whatever follows them: zero bytes and prefixes included. */
  lemma {:induction false} StringOrder(s: Bytes, t: Bytes, x: Bytes, y: Bytes)
    ensures Cmp(EncodeString(s) + x, EncodeString(t) + y) == if s == t then Cmp(x, y) else Cmp(s, t)
    decreases |s|
  {
    hide EncodeString, Cmp;
    var hs, ht := Head(s), Head(t);
    EncodeStringParts(s);
    EncodeStringParts(t);
    var gs, gt := Padded(hs, 7) + [120 + |hs|], Padded(ht, 7) + [120 + |ht|];
    assert EncodeString(s) + x == gs + (Rest(s) + x) && EncodeString(t) + y == gt + (Rest(t) + y);
    GroupOrder(hs, ht, Rest(s) + x, Rest(t) + y);
    HeadOrder(s, t);
    if hs == ht && |hs| < 7 {
      assert [] + x == x && [] + y == y;
    } else if hs == ht {
      StringOrder(s[7..], t[7..], x, y);
      assert s == hs + s[7..] && t == ht + t[7..];
    }
  }
}
