/** What union keys mean: the values their fields hold, told by type numbers and decimal texts. */
module KeyMeaning {
  import opened ByteText
  import opened KeyBytes
  import opened KeyFormat

  // ---- decimal texts ----

  /** `d` writes the number n with decimal digits, leading zeros allowed. */
  ghost predicate Decimal(d: Bytes, n: nat) {
    d != [] && d[|d| - 1] == 48 + n % 10 && if |d| == 1 then n < 10 else Decimal(d[..|d| - 1], n / 10)
  }

  /** A text of blanks, perhaps a sign, the digits of v's absolute value, and then anything but a digit. */
  ghost predicate Spelled(text: Bytes, v: int, blanks: Bytes, sign: Bytes, digits: Bytes, rest: Bytes) {
    text == blanks + sign + digits + rest && (forall i :: 0 <= i < |blanks| ==> blanks[i] in {9, 10, 11, 12, 13, 32}) &&
    ((sign == [45] && v <= 0 && Decimal(digits, -v)) || (sign in {[], [43]} && v >= 0 && Decimal(digits, v))) &&
    (rest == [] || !(48 <= rest[0] <= 57))
  }

  ghost predicate Spells(text: Bytes, v: int) {
    exists blanks, sign, digits, rest :: Spelled(text, v, blanks, sign, digits, rest)
  }

  lemma {:induction false} NumberIs(d: Bytes, n: nat)
    requires Decimal(d, n)
    ensures d != [] && (forall i :: 0 <= i < |d| ==> IsDigit(d[i])) && Number(d) == n
  {
    if |d| > 1 {
      NumberIs(d[..|d| - 1], n / 10);
      assert d == d[..|d| - 1] + [d[|d| - 1]];
    } else {
      assert d[..0] == [];
    }
  }

  lemma {:induction false} SpanIs(d: Bytes, rest: Bytes)
    requires (forall i :: 0 <= i < |d| ==> IsDigit(d[i])) && (rest == [] || !IsDigit(rest[0]))
    ensures (d + rest)[..DigitSpan(d + rest)] == d
  {
    if d == [] {
      assert d + rest == rest;
    } else {
      assert (d + rest)[1..] == d[1..] + rest;
      SpanIs(d[1..], rest);
      assert d == [d[0]] + d[1..];
    }
  }

  lemma SignedIs(sign: Bytes, d: Bytes)
    requires sign in {[], [43], [45]} && d != [] && IsDigit(d[0])
    ensures var n := Number(d[..DigitSpan(d)]); Strtoll(sign + d) == Clamp(if sign == [45] then 0 - n else n)
  {
    if sign == [] { assert sign + d == d; } else { assert (sign + d)[1..] == d; }
  }

  /** strtoll gives the number spelled; beyond 64 bits the nearest it has. */
  lemma {:induction false} StrtollMeans(text: Bytes, v: int, blanks: Bytes, sign: Bytes, digits: Bytes, rest: Bytes)
    requires Spelled(text, v, blanks, sign, digits, rest)
    ensures Strtoll(text) == if v > 0x7FFF_FFFF_FFFF_FFFF then 0x7FFF_FFFF_FFFF_FFFF
                             else if v < -0x8000_0000_0000_0000 then -0x8000_0000_0000_0000 else v
    decreases blanks
  {
    hide Decimal, Number, DigitSpan;
    if blanks == [] {
      assert text == sign + (digits + rest);
      NumberIs(digits, if v < 0 then -v else v);
      SpanIs(digits, rest);
      assert (digits + rest)[0] == digits[0];
      SignedIs(sign, digits + rest);
    } else {
      assert text == [blanks[0]] + (blanks[1..] + sign + digits + rest);
      assert text[1..] == blanks[1..] + sign + digits + rest;
      StrtollMeans(text[1..], v, blanks[1..], sign, digits, rest);
    }
  }

  lemma StrtollSpells(text: Bytes, v: i64)
    requires Spells(text, v)
    ensures Strtoll(text) == v
  {
    var blanks, sign, digits, rest :| Spelled(text, v, blanks, sign, digits, rest);
    StrtollMeans(text, v, blanks, sign, digits, rest);
  }

  /** The shortest such text: the sign of a negative number, and no zero in front. */
  ghost predicate Written(text: Bytes, v: int) {
    text != [] && if v < 0 then text[0] == 45 && Shortest(text[1..], -v) else Shortest(text, v)
  }

  ghost predicate Shortest(d: Bytes, n: nat) {
    Decimal(d, n) && (|d| > 1 ==> d[0] != 48)
  }

  lemma {:induction false} DigitsShortest(n: nat)
    ensures Shortest(Digits(n), n) && (n > 0 ==> Digits(n)[0] != 48)
  {
    if n >= 10 {
      DigitsShortest(n / 10);
      assert Digits(n)[..|Digits(n)| - 1] == Digits(n / 10);
    }
  }

  lemma ToStringMeans(v: int)
    ensures Written(ToString(v), v)
  {
    DigitsShortest(if v < 0 then -v else v);
    if v < 0 { assert ToString(v)[1..] == Digits(-v); }
  }

  // ---- values ----

  /** The bit pattern of a double that is a number: sign, exponent and fraction bits. */
  lemma DoubleMeans(negative: bool, e: nat, f: nat)
    requires e <= 2047 && f < 0x10_0000_0000_0000
    ensures var u := (if negative then 0x8000_0000_0000_0000 else 0) + e * 0x10_0000_0000_0000 + f;
      var m := if e == 0 then f else (0x10_0000_0000_0000 + f) * Pow2(e - 1);
      (IsNaN(u) <==> e == 2047 && f != 0) && Value(u) == if negative then -m else m
  {
    hide Pow2, Magnitude;
    MagnitudeOf(e, f);
  }

  lemma MagnitudeOf(e: nat, f: nat)
    requires f < 0x10_0000_0000_0000
    ensures Magnitude(e * 0x10_0000_0000_0000 + f) ==
            if e == 0 then f else (0x10_0000_0000_0000 + f) * Pow2(e - 1)
  {
    hide Pow2, Scaled;
    assert (e * FRACTION + f) / FRACTION == e && (e * FRACTION + f) % FRACTION == f;
    ScaledOf(e, f);
  }

  lemma ScaledOf(e: nat, f: nat)
    ensures Scaled(e, f) == if e == 0 then f else (0x10_0000_0000_0000 + f) * Pow2(e - 1)
  {
  }

  datatype Typed = Whole(v: i64) | Double(u: u64) | Text(s: Bytes)

  /** The value of a field: types 1, 4 and 10 hold integers, 9 doubles, and 2, 3, 5 and 14 texts. */
  ghost predicate Holds(strtod: Bytes -> u64, f: Field, t: Typed) {
    match t
    case Whole(v) => f.kind in {1, 4, 10} && Spells(f.text, v)
    case Double(u) => f.kind == 9 && strtod(f.text) == u && !IsNaN(u)
    case Text(s) => f.kind in {2, 3, 5, 14} && f.text == s
  }

  ghost predicate HoldsAll(strtod: Bytes -> u64, k: Key, ts: seq<Typed>) {
    |k| == |ts| && forall i :: 0 <= i < |k| ==> Holds(strtod, k[i], ts[i])
  }

  /** Integers and doubles compare by value, texts by their bytes. */
  function CmpTyped(t: Typed, u: Typed): int {
    match (t, u)
    case (Whole(v), Whole(w)) => Sign(v - w)
    case (Double(v), Double(w)) => Sign(Value(v) - Value(w))
    case (Text(a), Text(b)) => Cmp(a, b)
    case _ => 0
  }

  function CmpTuple(ts: seq<Typed>, us: seq<Typed>): int
    requires |ts| == |us|
  {
    if ts == [] then 0
    else
      var c := CmpTyped(ts[0], us[0]);
      if c != 0 then c else CmpTuple(ts[1..], us[1..])
  }

  lemma FieldMeans(strtod: Bytes -> u64, f: Field, g: Field, t: Typed, u: Typed)
    requires Holds(strtod, f, t) && Holds(strtod, g, u) && f.kind == g.kind
    ensures Supported(f.kind) && CmpField(strtod, f, g) == CmpTyped(t, u)
  {
    hide Spells, Strtoll, Value, Cmp;
    if t.Whole? {
      StrtollSpells(f.text, t.v);
      StrtollSpells(g.text, u.v);
    }
  }

  lemma {:induction false} KeyMeans(strtod: Bytes -> u64, k: Key, l: Key, ts: seq<Typed>, us: seq<Typed>)
    requires SameKinds(k, l) && HoldsAll(strtod, k, ts) && HoldsAll(strtod, l, us)
    ensures AllSupported(k) && NoNaN(strtod, k) && NoNaN(strtod, l) && CmpKey(strtod, k, l) == CmpTuple(ts, us)
    decreases |k|
  {
    hide CmpField, CmpTyped, Spells;
    if k != [] {
      FieldMeans(strtod, k[0], l[0], ts[0], us[0]);
      KeyMeans(strtod, k[1..], l[1..], ts[1..], us[1..]);
      assert k == [k[0]] + k[1..] && l == [l[0]] + l[1..];
    }
  }

  /** Encoded keys compare as the tuples of values they hold. */
  lemma TupleOrder(strtod: Bytes -> u64, k: Key, l: Key, ts: seq<Typed>, us: seq<Typed>)
    requires SameKinds(k, l) && HoldsAll(strtod, k, ts) && HoldsAll(strtod, l, us)
    ensures Cmp(EncodeKey(strtod, k), EncodeKey(strtod, l)) == CmpTuple(ts, us)
  {
    hide *;
    KeyMeans(strtod, k, l, ts, us);
    EncodeKeepsOrder(strtod, k, l);
  }

  // ---- bytes ----

  /** An integer is eight bytes, a double eight, a text its groups; a field of any other type empties the key. */
  lemma FieldBytes(strtod: Bytes -> u64, k: Key, f: Field)
    ensures forall v: i64 :: f.kind in {1, 4, 10} && Spells(f.text, v) ==>
      EncodeKey(strtod, k + [f]) == EncodeKey(strtod, k) + BigEndian(v + 0x8000_0000_0000_0000, 8)
    ensures f.kind == 9 ==>
      EncodeKey(strtod, k + [f]) == EncodeKey(strtod, k) + EncodeDouble(strtod(f.text))
    ensures f.kind in {2, 3, 5, 14} ==> EncodeKey(strtod, k + [f]) == EncodeKey(strtod, k) + EncodeString(f.text)
    ensures f.kind !in {1, 2, 3, 4, 5, 9, 10, 14} ==> EncodeKey(strtod, k + [f]) == []
  {
    hide EncodeString, EncodeWord, EncodeDouble, Strtoll, Spells, BigEndian;
    assert (k + [f])[..|k|] == k;
    forall v: i64 | f.kind in {1, 4, 10} && Spells(f.text, v)
      ensures EncodeKey(strtod, k + [f]) == EncodeKey(strtod, k) + BigEndian(v + 0x8000_0000_0000_0000, 8)
    {
      StrtollSpells(f.text, v);
      NetworkOrder(CmpUint(v));
    }
  }

  /** Eight bytes are the encoding of what they decode to. */
  lemma WordDecoded(s: Bytes)
    requires |s| == 8
    ensures s == BigEndian(DecodeWord(s), 8)
  {
    hide Memory, FromMemory, BigEndian, Htonl, Pow256;
    MemoryWord(s);
    MemoryBound(s);
    var v := FromMemory(s);
    HtonlSwaps(v / 0x1_0000_0000);
    HtonlSwaps(v % 0x1_0000_0000);
    NetworkOrder(DecodeWord(s));
  }

  ghost predicate Full(s: Bytes, pos: nat, g: nat) {
    pos + 8 * g + 7 < |s| && s[pos + 8 * g + 7] == 127
  }

  /** Groups of eight bytes up to the first whose last byte is not 127. */
  ghost predicate Grouped(s: Bytes, pos: nat, next: nat, n: nat) {
    next == pos + 8 * n + 8 <= |s| && (forall g :: 0 <= g < n ==> Full(s, pos, g)) && !Full(s, pos, n)
  }

  /** One field of a key as Decode reads it at `pos`, and where the next one starts. */
  ghost predicate ReadAs(show: u64 -> Bytes, s: Bytes, pos: nat, kind: int, text: Bytes, next: nat) {
    if kind in {1, 4, 10} then
      next == pos + 8 <= |s| &&
      exists v: i64 :: Written(text, v) && s[pos..next] == BigEndian(v + 0x8000_0000_0000_0000, 8)
    else if kind == 9 then
      next == pos + 8 <= |s| && exists u: u64 :: text == show(u) && s[pos..next] == BigEndian(Ordered(u), 8)
    else
      kind in {2, 3} && exists n :: Grouped(s, pos, next, n) && text == DecodeString(s[pos..next])
  }

  /** The sign bit set, or all bits inverted. */
  function Ordered(u: u64): u64 {
    if u < 0x8000_0000_0000_0000 then u + 0x8000_0000_0000_0000 else 0xFFFF_FFFF_FFFF_FFFF - u
  }

  lemma GroupedNext(s: Bytes, pos: nat, next: nat, n: nat)
    ensures Grouped(s, pos, next, n) <==>
            pos + 8 <= |s| && if n == 0 then next == pos + 8 && s[pos + 7] != 127
                              else s[pos + 7] == 127 && Grouped(s, pos + 8, next, n - 1)
  {
    assert Full(s, pos, 0) <==> pos + 8 <= |s| && s[pos + 7] == 127;
    if n > 0 && Grouped(s, pos, next, n) {
      var p := pos + 8;
      FullNext(s, pos, n - 1);
      forall g | 0 <= g < n - 1
        ensures Full(s, p, g)
      {
        FullNext(s, pos, g);
      }
    }
    if n > 0 && Grouped(s, pos + 8, next, n - 1) && Full(s, pos, 0) {
      FullNext(s, pos, n - 1);
      forall g | 0 <= g < n
        ensures Full(s, pos, g)
      {
        if g > 0 { FullNext(s, pos, g - 1); }
      }
    }
  }

  lemma FullNext(s: Bytes, pos: nat, g: nat)
    ensures Full(s, pos + 8, g) <==> Full(s, pos, g + 1)
  {
  }

  lemma GroupedTail(s: Bytes, n: nat)
    requires |s| >= 8
    ensures Grouped(s, 8, |s|, n) <==> Grouped(s[8..], 0, |s| - 8, n)
  {
    forall g: nat | g <= n
      ensures Full(s, 8, g) <==> Full(s[8..], 0, g)
    {
    }
  }

  lemma GroupedSize(s: Bytes, n: nat)
    requires Grouped(s, 0, |s|, n)
    ensures |s| >= 8 && |s| % 8 == 0
  {
  }

  /** The first seven bytes of every group, but as many of the last as its marker says; if that makes no sense, all. */
  lemma TextMeans(s: Bytes, n: nat)
    requires Grouped(s, 0, |s|, n)
    ensures if n == 0 then |s| == 8 && DecodeString(s) == if 120 <= s[7] < 127 then s[..s[7] - 120] else s
            else |s| > 8 && DecodeString(s) == s[..7] + DecodeString(s[8..]) && Grouped(s[8..], 0, |s| - 8, n - 1)
  {
    hide Grouped, DecodeString, TakenBy;
    GroupedSize(s, n);
    GroupedNext(s, 0, |s|, n);
    DecodeCons(s);
    TakenMeans(s[7], |s|);
    if n > 0 {
      GroupedTail(s, n - 1);
      GroupedSize(s[8..], n - 1);
    } else {
      DecodeNone();
      assert s[8..] == [] && s[..8] == s;
    }
  }

  lemma TakenMeans(m: byte, left: nat)
    requires left >= 8
    ensures TakenBy(m, left) == if 120 <= m < 120 + left then m - 120 else left
  {
  }

  lemma {:induction false} EndMeans(s: Bytes, pos: nat) returns (n: nat)
    ensures var r := StringEnd(s, pos);
      if r == -1 then forall next: nat, m: nat :: !Grouped(s, pos, next, m) else Grouped(s, pos, r, n)
    decreases |s| - pos
  {
    hide Grouped;
    n := 0;
    StringEndStep(s, pos);
    GroupedNext(s, pos, pos + 8, 0);
    if pos + 8 <= |s| && s[pos + 7] == 127 {
      n := EndMeans(s, pos + 8);
      n := n + 1;
      if StringEnd(s, pos) != -1 { GroupedNext(s, pos, StringEnd(s, pos), n); }
    }
    forall next: nat, m: nat | Grouped(s, pos, next, m) && StringEnd(s, pos) == -1
      ensures false
    {
      GroupedNext(s, pos, next, m);
    }
  }

  /** Decode reads the first field so and goes on, or stops there. */
  lemma DecodeMeans(show: u64 -> Bytes, s: Bytes, pos: nat, k: Key) returns (text: Bytes, next: nat)
    requires k != []
    ensures var r := DecodeFrom(show, s, pos, k);
      if k[0].kind !in {1, 2, 3, 4, 9, 10} then r == (Refused, k)
      else if ReadAs(show, s, pos, k[0].kind, text, next) then
        var (st, l) := DecodeFrom(show, s, next, k[1..]); r == (st, [Field(k[0].kind, text)] + l)
      else r == (OutOfRange, k) && forall t, n :: !ReadAs(show, s, pos, k[0].kind, t, n)
  {
    hide BigEndian, DecodeWord, ToString, Written, StringEnd, DecodeString, Grouped;
    text, next := [], pos + 8;
    if k[0].kind in {2, 3} {
      var n := EndMeans(s, pos);
      if StringEnd(s, pos) != -1 {
        next := StringEnd(s, pos);
        text := DecodeString(s[pos..next]);
      }
    } else if next <= |s| {
      WordDecoded(s[pos..next]);
      if k[0].kind in {1, 4, 10} {
        text := ToString(DecodeInt(s[pos..next]));
        ToStringMeans(DecodeInt(s[pos..next]));
      } else {
        text := show(DecodeDouble(s[pos..next]));
      }
    }
  }

  /** What comes back for a field's value: the shortest decimal text, a double of that value, or the text. */
  ghost predicate Returned(show: u64 -> Bytes, f: Field, t: Typed) {
    match t
    case Whole(v) => Written(f.text, v)
    case Double(u) => exists w: u64 :: f.text == show(w) && !IsNaN(w) && Value(w) == Value(u)
    case Text(s) => f.text == s
  }

  /** Decoding an encoded key gives back the values it held, unless one is of type 5 or 14. */
  lemma TupleReturns(strtod: Bytes -> u64, show: u64 -> Bytes, k: Key, l: Key, ts: seq<Typed>)
    requires SameKinds(k, l) && HoldsAll(strtod, k, ts) && forall i :: 0 <= i < |k| ==> k[i].kind !in {5, 14}
    ensures var (st, r) := DecodeFrom(show, EncodeKey(strtod, k), 0, l);
      st == Done && SameKinds(r, k) && forall i :: 0 <= i < |k| ==> Returned(show, r[i], ts[i])
  {
    hide EncodeKey, Strtoll, ToString, DecodeFrom, Written, Spells, Value;
    DecodeEncoded(strtod, show, [], k, l, []);
    assert [] + EncodeKey(strtod, k) + [] == EncodeKey(strtod, k);
    forall i | 0 <= i < |k|
      ensures Returned(show, Restored(strtod, show, k[i]), ts[i])
    {
      if ts[i].Whole? {
        StrtollSpells(k[i].text, ts[i].v);
        ToStringMeans(ts[i].v);
      } else if ts[i].Double? {
        DoubleRoundTrip(ts[i].u);
        NumberKept(ts[i].u);
      }
    }
  }

  lemma NumberKept(u: u64)
    requires !IsNaN(u)
    ensures !IsNaN(DecodeDouble(EncodeDouble(u)))
  {
    hide EncodeWord, DecodeWord, Magnitude;
    MagnitudeZero(u % SIGN);
    WordRoundTrip(EncodeDoubleWord(u));
  }
}
