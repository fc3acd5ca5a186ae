/**
 KeyFormat: union keys, lists of typed fields, become byte strings that compare as the lists do.
 */
module KeyFormat {
  import opened ByteText
  import opened KeyBytes

  const FIELD_INT := 1
  const FIELD_STRING := 2
  const FIELD_TEXT := 3
  const FIELD_IP := 4
  const FIELD_GEO_POINT := 5
  const FIELD_DOUBLE := 9
  const FIELD_LONG := 10
  const FIELD_GEO_SHAPE := 14

  /** A field's type and text. */
  datatype Field = Field(kind: int, text: Bytes)
  type Key = seq<Field>

  predicate IsInt(kind: int) { kind in {FIELD_INT, FIELD_LONG, FIELD_IP} }
  predicate IsString(kind: int) { kind in {FIELD_STRING, FIELD_TEXT} }
  predicate IsGeo(kind: int) { kind in {FIELD_GEO_POINT, FIELD_GEO_SHAPE} }
  predicate Supported(kind: int) { IsInt(kind) || kind == FIELD_DOUBLE || IsString(kind) || IsGeo(kind) }

  // ---- strtoll and std::to_string in base ten ----

  predicate IsDigit(c: byte) { 48 <= c <= 57 }
  predicate IsSpace(c: byte) { c == 32 || 9 <= c <= 13 }

  function DigitSpan(s: Bytes): (n: nat)
    ensures n <= |s| && (forall i :: 0 <= i < n ==> IsDigit(s[i])) && (n < |s| ==> !IsDigit(s[n]))
  {
    if s == [] || !IsDigit(s[0]) then 0 else 1 + DigitSpan(s[1..])
  }

  /** The number that a row of digits stands for. */
  function Number(s: Bytes): (n: nat)
    requires forall i :: 0 <= i < |s| ==> IsDigit(s[i])
  {
    if s == [] then 0
    else assert IsDigit(s[|s| - 1]); 10 * Number(s[..|s| - 1]) + s[|s| - 1] - 48
  }

  function Clamp(n: int): (v: i64) {
    if n < -0x8000_0000_0000_0000 then -0x8000_0000_0000_0000
    else if n > 0x7FFF_FFFF_FFFF_FFFF then 0x7FFF_FFFF_FFFF_FFFF else n
  }

  /** strtoll: white space, a sign, digits; whatever follows is ignored and an overflow saturates. */
  function Strtoll(s: Bytes): (v: i64) {
    if s == [] then 0
    else if IsSpace(s[0]) then Strtoll(s[1..])
    else
      var signed := s[0] == 43 || s[0] == 45;
      var d := if signed then s[1..] else s;
      var n := Number(d[..DigitSpan(d)]);
      Clamp(if s[0] == 45 then 0 - n else n)
  }

  function Digits(n: nat): (s: Bytes)
    ensures s != [] && forall i :: 0 <= i < |s| ==> IsDigit(s[i])
  {
    if n < 10 then [48 + n] else Digits(n / 10) + [48 + n % 10]
  }

  function ToString(v: int): (s: Bytes) {
    if v < 0 then [45] + Digits(-v) else Digits(v)
  }

  lemma {:induction false} NumberOfDigits(n: nat)
    ensures Number(Digits(n)) == n
  {
    if n >= 10 {
      NumberOfDigits(n / 10);
      assert Digits(n)[..|Digits(n)| - 1] == Digits(n / 10);
    }
  }

  lemma AllDigits(s: Bytes)
    requires forall i :: 0 <= i < |s| ==> IsDigit(s[i])
    ensures s[..DigitSpan(s)] == s
  {
  }

  /** strtoll reads back what to_string wrote. */
  lemma StrtollToString(v: i64)
    ensures Strtoll(ToString(v)) == v
  {
    var n: nat := if v < 0 then 0 - v else v;
    var d := Digits(n);
    NumberOfDigits(n);
    AllDigits(d);
    assert IsDigit(d[0]);
    if v < 0 { assert ([45] + d)[1..] == d; }
  }

  // ---- fields and keys ----

  /** What Encode appends for one field; strtod is a parameter that gives the bits of a double. */
  function EncodeField(strtod: Bytes -> u64, f: Field): (r: Bytes)
    requires Supported(f.kind)
  {
    if IsInt(f.kind) then EncodeInt(Strtoll(f.text))
    else if f.kind == FIELD_DOUBLE then EncodeDouble(strtod(f.text))
    else EncodeString(f.text)
  }

  /** A field of another type discards what has been encoded before it. */
  function EncodeKey(strtod: Bytes -> u64, k: Key): (r: Bytes) {
    if k == [] then []
    else
      var f := k[|k| - 1];
      if Supported(f.kind) then EncodeKey(strtod, k[..|k| - 1]) + EncodeField(strtod, f) else []
  }

  /** One group of seven bytes, or the last one. */
  lemma EncodeStep(src: Bytes, pos: nat, dst: Bytes)
    requires pos <= |src|
    ensures |src| - pos >= 7 ==>
      dst + EncodeString(src[pos..]) == dst + src[pos..pos + 7] + [127] + EncodeString(src[pos + 7..])
    ensures var n := |src| - pos;
      n < 7 ==> dst + EncodeString(src[pos..]) == dst + src[pos..pos + n] + seq(7 - n, _ => 0) + [120 + n]
  {
    var rest := src[pos..];
    if |rest| >= 7 { assert rest[..7] == src[pos..pos + 7] && rest[7..] == src[pos + 7..]; }
  }

  /** EncodeBytes(string) */
  method EncodeStringBytes(src: Bytes) returns (dst: Bytes)
    ensures dst == EncodeString(src)
  {
    hide EncodeString;
    dst := [];
    var left, pos := |src|, 0;
    assert src[0..] == src;
    while true
      invariant left == |src| - pos && 0 <= pos <= |src|
      invariant EncodeString(src) == dst + EncodeString(src[pos..])
      decreases left
    {
      EncodeStep(src, pos, dst);
      var copied := if SEGMENT_SIZE - 1 < left then SEGMENT_SIZE - 1 else left;
      var padding := SEGMENT_SIZE - 1 - copied;
      dst := dst + src[pos..pos + copied];
      pos, left := pos + copied, left - copied;
      if padding != 0 {
        dst := dst + seq(padding, _ => 0) + [ENCODER_MARKER - padding];
        break;
      } else {
        dst := dst + [ENCODER_MARKER];
      }
    }
  }

  /** KeyFormat::Encode */
  method Encode(strtod: Bytes -> u64, k: Key) returns (r: Bytes)
    ensures r == EncodeKey(strtod, k)
  {
    r := [];
    for i := 0 to |k|
      invariant r == EncodeKey(strtod, k[..i])
    {
      assert k[..i + 1][..i] == k[..i];
      if IsInt(k[i].kind) {
        r := r + EncodeInt(Strtoll(k[i].text));
      } else if k[i].kind == FIELD_DOUBLE {
        r := r + EncodeDouble(strtod(k[i].text));
      } else if IsString(k[i].kind) || IsGeo(k[i].kind) {
        var s := EncodeStringBytes(k[i].text);
        r := r + s;
      } else {
        r := [];
      }
    }
    assert k[..|k|] == k;
  }

  ghost predicate AllSupported(k: Key) {
    forall i :: 0 <= i < |k| ==> Supported(k[i].kind)
  }

  ghost predicate SameKinds(k: Key, l: Key) {
    |k| == |l| && forall i :: 0 <= i < |k| ==> k[i].kind == l[i].kind
  }

  /** No field holds a double that is not a number. */
  ghost predicate NoNaN(strtod: Bytes -> u64, k: Key) {
    forall i :: 0 <= i < |k| && k[i].kind == FIELD_DOUBLE ==> !IsNaN(strtod(k[i].text))
  }

  /** How two fields of one type compare: integers and doubles by value, strings by their bytes. */
  function CmpField(strtod: Bytes -> u64, f: Field, g: Field): (r: int) {
    if IsInt(f.kind) then Sign(Strtoll(f.text) - Strtoll(g.text))
    else if f.kind == FIELD_DOUBLE then Sign(Value(strtod(f.text)) - Value(strtod(g.text)))
    else Cmp(f.text, g.text)
  }

  /** Tuple order: the first field that differs decides. */
  function CmpKey(strtod: Bytes -> u64, k: Key, l: Key): (r: int)
    requires |k| == |l|
  {
    if k == [] then 0
    else
      var c := CmpField(strtod, k[0], l[0]);
      if c != 0 then c else CmpKey(strtod, k[1..], l[1..])
  }

  lemma FieldOrder(strtod: Bytes -> u64, f: Field, g: Field, x: Bytes, y: Bytes)
    requires f.kind == g.kind && Supported(f.kind)
    requires f.kind == FIELD_DOUBLE ==> !IsNaN(strtod(f.text)) && !IsNaN(strtod(g.text))
    ensures Cmp(EncodeField(strtod, f) + x, EncodeField(strtod, g) + y) ==
            if CmpField(strtod, f, g) == 0 then Cmp(x, y) else CmpField(strtod, f, g)
  {
    hide Cmp, EncodeInt, EncodeDouble, EncodeString, Strtoll, Value;
    if IsInt(f.kind) {
      IntOrder(Strtoll(f.text), Strtoll(g.text), x, y);
    } else if f.kind == FIELD_DOUBLE {
      DoubleOrder(strtod(f.text), strtod(g.text), x, y);
    } else {
      StringOrder(f.text, g.text, x, y);
    }
  }

  /** Fields whose types are all supported are encoded one after the other. */
  lemma {:induction false} EncodeKeyFirst(strtod: Bytes -> u64, k: Key)
    requires AllSupported(k) && k != []
    ensures EncodeKey(strtod, k) == EncodeField(strtod, k[0]) + EncodeKey(strtod, k[1..])
  {
    hide EncodeField;
    var n := |k| - 1;
    if n == 0 {
      assert k[..0] == k[1..] == [];
      assert EncodeKey(strtod, []) == [];
    } else {
      EncodeKeyFirst(strtod, k[..n]);
      assert k[..n][1..] == k[1..][..n - 1];
    }
  }

  /** An unsupported field discards everything up to it, so different keys may share one encoding. */
  lemma {:induction false} EncodeForgets(strtod: Bytes -> u64, k: Key, f: Field, l: Key)
    requires !Supported(f.kind)
    ensures EncodeKey(strtod, k + [f] + l) == EncodeKey(strtod, l)
  {
    hide EncodeField;
    var n, m := |k + [f] + l| - 1, |l| - 1;
    if l == [] {
      assert (k + [f] + l)[n] == f;
    } else {
      assert (k + [f] + l)[..n] == k + [f] + l[..m] && (k + [f] + l)[n] == l[m];
      EncodeForgets(strtod, k, f, l[..m]);
    }
  }

  lemma EncodeNothing(strtod: Bytes -> u64)
    ensures EncodeKey(strtod, []) == []
  {
  }

  /** Encoded keys with the same field types compare as the keys do, field by field, whatever follows them. */
  lemma {:induction false} KeyOrder(strtod: Bytes -> u64, k: Key, l: Key, x: Bytes, y: Bytes)
    requires SameKinds(k, l) && AllSupported(k) && NoNaN(strtod, k) && NoNaN(strtod, l)
    ensures Cmp(EncodeKey(strtod, k) + x, EncodeKey(strtod, l) + y) ==
            if CmpKey(strtod, k, l) == 0 then Cmp(x, y) else CmpKey(strtod, k, l)
    decreases |k|
  {
    hide Cmp, EncodeField, CmpField, EncodeKey;
    if k == [] {
      EncodeNothing(strtod);
      assert EncodeKey(strtod, k) + x == x && EncodeKey(strtod, l) + y == y;
    } else {
      var x', y' := EncodeKey(strtod, k[1..]) + x, EncodeKey(strtod, l[1..]) + y;
      EncodeKeyFirst(strtod, k);
      EncodeKeyFirst(strtod, l);
      assert EncodeKey(strtod, k) + x == EncodeField(strtod, k[0]) + x' &&
             EncodeKey(strtod, l) + y == EncodeField(strtod, l[0]) + y';
      FieldOrder(strtod, k[0], l[0], x', y');
      KeyOrder(strtod, k[1..], l[1..], x, y);
    }
  }

  /** The byte order of encoded keys is the order of the keys, and equal encodings mean equal field values. */
  lemma EncodeKeepsOrder(strtod: Bytes -> u64, k: Key, l: Key)
    requires SameKinds(k, l) && AllSupported(k) && NoNaN(strtod, k) && NoNaN(strtod, l)
    ensures Cmp(EncodeKey(strtod, k), EncodeKey(strtod, l)) == CmpKey(strtod, k, l)
  {
    KeyOrder(strtod, k, l, [], []);
    assert EncodeKey(strtod, k) + [] == EncodeKey(strtod, k) && EncodeKey(strtod, l) + [] == EncodeKey(strtod, l);
  }

  // ---- decoding ----

  function SignedChar(b: byte): (c: int) {
    if b < 128 then b else b - 256
  }

  /**
   How many bytes DecodeBytes takes from a group with this marker; nothing but the string's end limits a negative
   count.
   */
  function TakenBy(marker: byte, left: nat): (n: nat)
    ensures n <= left
  {
    var padding := SignedChar((ENCODER_MARKER - SignedChar(marker)) % 256);
    var count := SEGMENT_SIZE - 1 - padding;
    if count < 0 || count > left then left else count
  }

  function DecodeString(s: Bytes): (r: Bytes)
    requires |s| % SEGMENT_SIZE == 0
  {
    if s == [] then [] else s[..TakenBy(s[7], |s|)] + DecodeString(s[8..])
  }

  lemma DecodeStep(src: Bytes, i: nat, dst: Bytes)
    requires |src| % SEGMENT_SIZE == 0 && i % SEGMENT_SIZE == 0 && i <= |src|
    ensures i < |src| ==>
      dst + DecodeString(src[i..]) == dst + src[i..i + TakenBy(src[i + 7], |src| - i)] + DecodeString(src[i + 8..])
    ensures i == |src| ==> dst + DecodeString(src[i..]) == dst
  {
    hide TakenBy;
    var rest := src[i..];
    if i < |src| {
      var n := TakenBy(src[i + 7], |src| - i);
      assert rest[..n] == src[i..i + n] && rest[8..] == src[i + 8..] && rest[7] == src[i + 7];
    }
  }

  /** DecodeBytes into a string; reading a marker past the end is left to callers, who pass whole groups. */
  method DecodeStringBytes(src: Bytes) returns (dst: Bytes)
    requires |src| % SEGMENT_SIZE == 0
    ensures dst == DecodeString(src)
  {
    hide DecodeString, TakenBy;
    dst := [];
    var i := 0;
    assert src[0..] == src;
    while i < |src|
      invariant i <= |src| && i % SEGMENT_SIZE == 0
      invariant DecodeString(src) == dst + DecodeString(src[i..])
    {
      DecodeStep(src, i, dst);
      var n := TakenBy(src[i + 7], |src| - i);
      dst := dst + src[i..i + n];
      i := i + SEGMENT_SIZE;
    }
    DecodeStep(src, i, dst);
  }

  /** Decoding a string inverts encoding it, for strings of every length and content. */
  lemma {:induction false} StringRoundTrip(s: Bytes)
    ensures DecodeString(EncodeString(s)) == s
  {
    hide Padded, TakenBy, DecodeString, EncodeString;
    EncodeStringStep(s);
    Marker(if |s| < 7 then |s| else 7, |EncodeString(s)|);
    DecodeCons(EncodeString(s));
    if |s| < 7 {
      DecodeNone();
    } else {
      StringRoundTrip(s[7..]);
      assert s == s[..7] + s[7..];
    }
  }

  lemma EncodeStringStep(s: Bytes)
    ensures var e := EncodeString(s);
      |e| >= 8 &&
      if |s| < 7 then e[..|s|] == s && e[7] == 120 + |s| && e[8..] == []
      else e[..7] == s[..7] && e[7] == 127 && e[8..] == EncodeString(s[7..])
  {
    if |s| < 7 { assert Padded(s, 7)[..|s|] == s; }
  }

  /** A marker tells how many bytes its group holds. */
  lemma Marker(n: nat, left: nat)
    requires n <= 7 <= left
    ensures TakenBy(120 + n, left) == n
  {
  }

  lemma DecodeCons(s: Bytes)
    requires |s| >= 8 && |s| % SEGMENT_SIZE == 0
    ensures DecodeString(s) == s[..TakenBy(s[7], |s|)] + DecodeString(s[8..])
  {
    hide TakenBy;
  }

  lemma DecodeNone()
    ensures DecodeString([]) == []
  {
  }

  /** The end of the string that starts at `pos`: the first group whose marker is not 127, if there is one. */
  function StringEnd(s: Bytes, pos: nat): (r: int)
    ensures r == -1 || (pos + SEGMENT_SIZE <= r <= |s| && (r - pos) % SEGMENT_SIZE == 0)
    decreases |s| - pos
  {
    if pos + SEGMENT_SIZE > |s| then -1
    else if s[pos + SEGMENT_SIZE - 1] != ENCODER_MARKER then pos + SEGMENT_SIZE
    else StringEnd(s, pos + SEGMENT_SIZE)
  }

  lemma StringEndStep(s: Bytes, pos: nat)
    ensures StringEnd(s, pos) ==
            if pos + SEGMENT_SIZE > |s| then -1
            else if s[pos + SEGMENT_SIZE - 1] != ENCODER_MARKER then pos + SEGMENT_SIZE
                 else StringEnd(s, pos + SEGMENT_SIZE)
  {
  }

  /** The encoding of a string ends at its first marker other than 127, whatever surrounds it. */
  lemma {:induction false} SelfDelimiting(w: Bytes, s: Bytes, x: Bytes)
    ensures StringEnd(w + EncodeString(s) + x, |w|) == |w| + |EncodeString(s)|
    decreases |s|
  {
    var e := EncodeString(s);
    assert (w + e + x)[|w| + 7] == e[7];
    if |s| >= 7 {
      assert w + e + x == (w + e[..8]) + EncodeString(s[7..]) + x;
      SelfDelimiting(w + e[..8], s[7..], x);
    }
  }

  /** OutOfRange: the key is shorter than its field types demand, and the source reads past its end. */
  datatype Status = Done | Refused | OutOfRange

  /** The status and the fields, of which those before a failure have been overwritten. */
  function DecodeFrom(show: u64 -> Bytes, s: Bytes, pos: nat, k: Key): (r: (Status, Key))
    decreases |k|
  {
    hide *;
    if k == [] then (Done, [])
    else if IsInt(k[0].kind) || k[0].kind == FIELD_DOUBLE then
      if pos + 8 > |s| then (OutOfRange, k)
      else
        var t := if IsInt(k[0].kind) then ToString(DecodeInt(s[pos..pos + 8])) else show(DecodeDouble(s[pos..pos + 8]));
        var (st, l) := DecodeFrom(show, s, pos + 8, k[1..]);
        (st, [Field(k[0].kind, t)] + l)
    else if IsString(k[0].kind) then
      var end := StringEnd(s, pos);
      if end == -1 then (OutOfRange, k)
      else
        var (st, l) := DecodeFrom(show, s, end, k[1..]);
        (st, [Field(k[0].kind, DecodeString(s[pos..end]))] + l)
    else (Refused, k)
  }

  /** Decode's loop over the groups of a string; past the end if no marker ends it. */
  method ReadString(s: Bytes, begin: nat) returns (pos: nat, text: Bytes)
    ensures if pos > |s| then StringEnd(s, begin) == -1
            else begin < pos == StringEnd(s, begin) && text == DecodeString(s[begin..pos])
  {
    hide StringEnd, DecodeString;
    pos, text := begin + SEGMENT_SIZE, [];
    while pos <= |s| && s[pos - 1] == ENCODER_MARKER
      invariant begin + SEGMENT_SIZE <= pos && (pos - begin) % SEGMENT_SIZE == 0
      invariant StringEnd(s, begin) == StringEnd(s, pos - SEGMENT_SIZE)
      decreases |s| + SEGMENT_SIZE - pos
    {
      StringEndStep(s, pos - SEGMENT_SIZE);
      pos := pos + SEGMENT_SIZE;
    }
    StringEndStep(s, pos - SEGMENT_SIZE);
    if pos <= |s| { text := DecodeStringBytes(s[begin..pos]); }
  }

  /** KeyFormat::Decode: the types of `k` say how to read `s`; `show` is std::to_string of a double. */
  method Decode(show: u64 -> Bytes, s: Bytes, k: Key) returns (st: Status, r: Key)
    ensures (st, r) == if k == [] then (Refused, k) else DecodeFrom(show, s, 0, k)
  {
    hide StringEnd, DecodeString, DecodeInt, DecodeDouble, ToString, DecodeFrom;
    r := k;
    if k == [] { return Refused, r; }
    var pos := 0;
    assert k[0..] == k && r[..0] == [];
    assert [] + DecodeFrom(show, s, 0, k).1 == DecodeFrom(show, s, 0, k).1;
    for i := 0 to |k|
      invariant 0 <= pos && |r| == |k| && r[i..] == k[i..]
      invariant var (t, l) := DecodeFrom(show, s, pos, k[i..]); DecodeFrom(show, s, 0, k) == (t, r[..i] + l)
    {
      ghost var from, before := pos, r;
      assert r == r[..i] + r[i..];
      DecodeStops(show, s, pos, k, i, r[..i]);
      if IsInt(k[i].kind) || k[i].kind == FIELD_DOUBLE {
        if pos + 8 > |s| { return OutOfRange, r; }
        var word := s[pos..pos + 8];
        pos := pos + 8;
        r := r[i := Field(k[i].kind, if IsInt(k[i].kind) then ToString(DecodeInt(word)) else show(DecodeDouble(word)))];
      } else if IsString(k[i].kind) {
        var end, text := ReadString(s, pos);
        if end > |s| { return OutOfRange, r; }
        pos := end;
        r := r[i := Field(k[i].kind, text)];
      } else {
        return Refused, r;
      }
      assert r[..i + 1] == before[..i] + [r[i]];
      DecodeFieldStep(show, s, from, k, i, before[..i], pos, r[i]);
    }
    st := Done;
    DecodeStops(show, s, pos, k, |k|, r);
    assert r[..|k|] == r;
  }

  /** One step of Decode's loop. */
  lemma DecodeFieldStep(show: u64 -> Bytes, s: Bytes, pos: nat, k: Key, i: nat, done: Key, next: nat, f: Field)
    requires i < |k| && pos < next && f.kind == k[i].kind
    requires (IsInt(f.kind) || f.kind == FIELD_DOUBLE) ==> next == pos + 8 <= |s|
    requires IsInt(f.kind) ==> f.text == ToString(DecodeInt(s[pos..pos + 8]))
    requires f.kind == FIELD_DOUBLE ==> f.text == show(DecodeDouble(s[pos..pos + 8]))
    requires !IsInt(f.kind) && f.kind != FIELD_DOUBLE ==>
      IsString(f.kind) && next == StringEnd(s, pos) && f.text == DecodeString(s[pos..next])
    ensures var (t, l) := DecodeFrom(show, s, pos, k[i..]); var (t', l') := DecodeFrom(show, s, next, k[i + 1..]);
      t == t' && done + l == (done + [f]) + l'
  {
    hide StringEnd, DecodeString, DecodeInt, DecodeDouble, ToString;
    assert k[i..][1..] == k[i + 1..] && k[i..][0] == k[i];
  }

  /** Where Decode's loop ends. */
  lemma DecodeStops(show: u64 -> Bytes, s: Bytes, pos: nat, k: Key, i: nat, done: Key)
    requires i <= |k|
    ensures i == |k| ==> DecodeFrom(show, s, pos, k[i..]) == (Done, []) && done + [] == done
    ensures i < |k| && (IsInt(k[i].kind) || k[i].kind == FIELD_DOUBLE) && pos + 8 > |s| ==>
      DecodeFrom(show, s, pos, k[i..]) == (OutOfRange, k[i..])
    ensures i < |k| && IsString(k[i].kind) && StringEnd(s, pos) == -1 ==>
      DecodeFrom(show, s, pos, k[i..]) == (OutOfRange, k[i..])
    ensures i < |k| && !IsInt(k[i].kind) && k[i].kind != FIELD_DOUBLE && !IsString(k[i].kind) ==>
      DecodeFrom(show, s, pos, k[i..]) == (Refused, k[i..])
  {
    hide StringEnd, DecodeString, DecodeInt, DecodeDouble, ToString;
    if i < |k| { assert k[i..][0] == k[i]; }
  }

  /** What a round trip makes of a field: integers and doubles are written anew, strings stay. */
  function Restored(strtod: Bytes -> u64, show: u64 -> Bytes, f: Field): (r: Field) {
    if IsInt(f.kind) then Field(f.kind, ToString(Strtoll(f.text)))
    else if f.kind == FIELD_DOUBLE then Field(f.kind, show(DecodeDouble(EncodeDouble(strtod(f.text)))))
    else f
  }

  function RestoredKey(strtod: Bytes -> u64, show: u64 -> Bytes, k: Key): (r: Key)
    ensures |r| == |k| && forall i :: 0 <= i < |k| ==> r[i] == Restored(strtod, show, k[i])
  {
    if k == [] then [] else [Restored(strtod, show, k[0])] + RestoredKey(strtod, show, k[1..])
  }

  ghost predicate Decodable(k: Key) {
    forall i :: 0 <= i < |k| ==> IsInt(k[i].kind) || k[i].kind == FIELD_DOUBLE || IsString(k[i].kind)
  }

  lemma SliceInside(w: Bytes, e: Bytes, x: Bytes)
    ensures (w + e + x)[|w|..|w| + |e|] == e
  {
  }

  /** The fields of an encoded key are found again one by one, whatever text `l` holds beforehand. */
  lemma {:induction false} DecodeEncoded(strtod: Bytes -> u64, show: u64 -> Bytes, w: Bytes, k: Key, l: Key, x: Bytes)
    requires Decodable(k) && SameKinds(k, l)
    ensures DecodeFrom(show, w + EncodeKey(strtod, k) + x, |w|, l) == (Done, RestoredKey(strtod, show, k))
    decreases |k|
  {
    hide EncodeString, DecodeString, EncodeInt, DecodeInt, EncodeDouble, DecodeDouble, StringEnd, Strtoll, ToString,
         EncodeKey;
    if k != [] {
      var e, s := EncodeField(strtod, k[0]), w + EncodeKey(strtod, k) + x;
      EncodeKeyFirst(strtod, k);
      var x' := EncodeKey(strtod, k[1..]) + x;
      assert s == w + e + x';
      assert s == (w + e) + EncodeKey(strtod, k[1..]) + x;
      DecodeEncoded(strtod, show, w + e, k[1..], l[1..], x);
      SliceInside(w, e, x');
      if IsInt(k[0].kind) {
        IntRoundTrip(Strtoll(k[0].text));
      } else if k[0].kind == FIELD_DOUBLE {
        DoubleRoundTrip(strtod(k[0].text));
      } else {
        SelfDelimiting(w, k[0].text, x');
        StringRoundTrip(k[0].text);
      }
    }
  }

  /** An integer field as to_string writes it. */
  ghost predicate Canonical(f: Field) {
    IsString(f.kind) || (IsInt(f.kind) && exists v: i64 :: f.text == ToString(v))
  }

  /** Decode restores every key of strings and canonical decimal integers from its encoding. */
  lemma DecodeInvertsEncode(strtod: Bytes -> u64, show: u64 -> Bytes, k: Key, l: Key)
    requires SameKinds(k, l) && forall i :: 0 <= i < |k| ==> Canonical(k[i])
    ensures DecodeFrom(show, EncodeKey(strtod, k), 0, l) == (Done, k)
  {
    hide EncodeKey, Strtoll, ToString, DecodeFrom;
    DecodeEncoded(strtod, show, [], k, l, []);
    assert [] + EncodeKey(strtod, k) + [] == EncodeKey(strtod, k);
    forall i | 0 <= i < |k|
      ensures Restored(strtod, show, k[i]) == k[i]
    {
      if IsInt(k[i].kind) {
        var v: i64 :| k[i].text == ToString(v);
        StrtollToString(v);
      }
    }
    assert RestoredKey(strtod, show, k) == k;
  }
}
