/**
 iutf8string: the characters of a byte string, found through a table of offsets.
 */
module Utf8Text {
  import opened ByteText

  /** The bytes at which refresh starts a character: 1..127 and those with the bit 0x40. */
  predicate Lead(b: byte) {
    0 < b < 128 || b / 64 % 2 == 1
  }

  /** A character: one lead byte and the bytes up to the next one. */
  ghost predicate IsChar(c: Bytes) {
    c != [] && Lead(c[0]) && forall i :: 1 <= i < |c| ==> !Lead(c[i])
  }

  ghost predicate AllChars(cs: seq<Bytes>) {
    forall i :: 0 <= i < |cs| ==> IsChar(cs[i])
  }

  /** The characters; bytes before the first lead byte belong to none. */
  function Chars(s: Bytes): (cs: seq<Bytes>) {
    if s == [] then []
    else
      var n := |s| - 1;
      var cs := Chars(s[..n]);
      if Lead(s[n]) then cs + [[s[n]]]
      else if cs == [] then []
      else cs[|cs| - 1 := cs[|cs| - 1] + [s[n]]]
  }

  lemma {:induction false} CharsAreChars(s: Bytes)
    ensures AllChars(Chars(s))
  {
    if s != [] { CharsAreChars(s[..|s| - 1]); }
  }

  /** A character appended to a string is its next character. */
  lemma {:induction false} CharsSnoc(s: Bytes, c: Bytes)
    requires IsChar(c)
    ensures Chars(s + c) == Chars(s) + [c]
  {
    var n := |c| - 1;
    assert (s + c)[..|s| + n] == s + c[..n] && (s + c)[|s| + n] == c[n];
    if n == 0 {
      assert s + c[..0] == s && c == [c[0]];
    } else {
      CharsSnoc(s, c[..n]);
      assert c == c[..n] + [c[n]];
    }
  }

  /** Characters put together come apart again. */
  lemma {:induction false} CharsConcat(cs: seq<Bytes>)
    requires AllChars(cs)
    ensures Chars(Concat(cs)) == cs
  {
    if cs != [] {
      var n := |cs| - 1;
      CharsConcat(cs[..n]);
      CharsSnoc(Concat(cs[..n]), cs[n]);
    }
  }

  /** A string without stray bytes before its first character. */
  ghost predicate Clean(s: Bytes) {
    Concat(Chars(s)) == s
  }

  /** The characters of a list of words. */
  function Flat(ws: seq<Bytes>): (cs: seq<Bytes>) {
    if ws == [] then [] else Flat(ws[..|ws| - 1]) + Chars(ws[|ws| - 1])
  }

  ghost predicate AllClean(ws: seq<Bytes>) {
    forall i :: 0 <= i < |ws| ==> Clean(ws[i]) && ws[i] != []
  }

  lemma {:induction false} FlatPlus(a: seq<Bytes>, b: seq<Bytes>)
    ensures Flat(a + b) == Flat(a) + Flat(b)
  {
    hide Chars;
    if b == [] {
      assert a + b == a;
    } else {
      var m := |b| - 1;
      FlatPlus(a, b[..m]);
      assert (a + b)[..|a| + m] == a + b[..m] && (a + b)[|a| + m] == b[m];
    }
  }

  /** Words without stray bytes hold the characters of the text they make up. */
  lemma {:induction false} FlatConcat(ws: seq<Bytes>)
    requires AllClean(ws)
    ensures Flat(ws) == Chars(Concat(ws)) && Concat(Flat(ws)) == Concat(ws)
  {
    if ws != [] {
      var n := |ws| - 1;
      FlatConcat(ws[..n]);
      ConcatPlus(Flat(ws[..n]), Chars(ws[n]));
      CharsAreChars(Concat(ws[..n]));
      CharsAreChars(ws[n]);
      CharsConcat(Flat(ws[..n]) + Chars(ws[n]));
    }
  }

  // ---- the offset table ----

  /** The offsets of the lead bytes. */
  function Starts(s: Bytes): (r: seq<nat>) {
    if s == [] then []
    else
      var n := |s| - 1;
      if Lead(s[n]) then Starts(s[..n]) + [n] else Starts(s[..n])
  }

  datatype Utf8 = Utf8(data: Bytes, offset: seq<nat>) {
    function Length(): int { |offset| - 1 }

    ghost predicate Valid() {
      offset == Starts(data) + [|data|]
    }

    /** operator[] */
    function Get(i: nat): (r: Bytes)
      requires Valid()
      ensures r == if i < |Chars(data)| then Chars(data)[i] else []
    {
      StartsCount(data);
      if i >= Length() then [] else StartsCut(data, i); data[offset[i]..offset[i + 1]]
    }

    /** substr */
    function Substr(i: nat, n: nat): (r: Bytes)
      requires Valid()
      ensures i + n <= |Chars(data)| ==>
        Clean(r) && Chars(r) == Chars(data)[i..i + n] && r == Concat(Chars(data)[i..i + n])
      ensures i + n > |Chars(data)| ==> r == []
    {
      StartsCount(data);
      if i + n > Length() then []
      else
        SliceIsConcat(data, i, n);
        SliceChars(data, i, n);
        data[offset[i]..offset[i + n]]
    }

    lemma LengthIs()
      requires Valid()
      ensures Length() == |Chars(data)|
    {
      StartsCount(data);
    }
  }

  /** refresh */
  method Refresh(data: Bytes) returns (u: Utf8)
    ensures u.data == data && u.Valid() && u.Length() == |Chars(data)|
  {
    var tmp: seq<nat> := [];
    for i := 0 to |data|
      invariant tmp == Starts(data[..i])
    {
      assert data[..i + 1][..i] == data[..i];
      if Lead(data[i]) { tmp := tmp + [i]; }
    }
    assert data[..|data|] == data;
    u := Utf8(data, tmp + [|data|]);
    u.LengthIs();
  }

  /** The offset of character i, or of the end. */
  function Offset(s: Bytes, i: nat): (r: nat) {
    if i < |Starts(s)| then Starts(s)[i] else |s|
  }

  lemma {:induction false} StartsCount(s: Bytes)
    ensures |Starts(s)| == |Chars(s)|
  {
    if s != [] { StartsCount(s[..|s| - 1]); }
  }

  /** The table cuts the string into its characters. */
  lemma {:induction false} StartsCut(s: Bytes, i: nat)
    requires i < |Chars(s)|
    ensures |Starts(s)| == |Chars(s)| && Offset(s, i) < Offset(s, i + 1) <= |s| &&
            Chars(s)[i] == s[Offset(s, i)..Offset(s, i + 1)]
  {
    var n := |s| - 1;
    var t := s[..n];
    StartsCount(s);
    StartsCount(t);
    if i < |Chars(t)| {
      StartsCut(t, i);
      var x, y := Offset(t, i), Offset(t, i + 1);
      assert t[x..y] == s[x..y];
      if y == n && !Lead(s[n]) && i + 1 == |Chars(t)| { assert s[x..n + 1] == s[x..n] + [s[n]]; }
    }
  }

  lemma {:induction false} SliceIsConcat(s: Bytes, i: nat, n: nat)
    requires i + n <= |Chars(s)|
    ensures Offset(s, i) <= Offset(s, i + n) <= |s| && s[Offset(s, i)..Offset(s, i + n)] == Concat(Chars(s)[i..i + n])
    decreases n
  {
    hide Offset, Chars;
    OffsetBound(s, i);
    if n > 0 {
      SliceIsConcat(s, i, n - 1);
      StartsCut(s, i + n - 1);
      var cs, x, y, z := Chars(s), Offset(s, i), Offset(s, i + n - 1), Offset(s, i + n);
      assert cs[i..i + n] == cs[i..i + n - 1] + [cs[i + n - 1]];
      ConcatSnoc(cs[i..i + n - 1], cs[i + n - 1]);
      assert s[x..z] == s[x..y] + s[y..z];
    }
  }

  lemma {:induction false} OffsetBound(s: Bytes, i: nat)
    ensures Offset(s, i) <= |s|
  {
    if s != [] { OffsetBound(s[..|s| - 1], i); }
  }

  /** The characters from i on, put together and taken apart. */
  lemma SliceChars(s: Bytes, i: nat, n: nat)
    requires i + n <= |Chars(s)|
    ensures var r := Concat(Chars(s)[i..i + n]); Chars(r) == Chars(s)[i..i + n] && Clean(r)
  {
    CharsAreChars(s);
    CharsConcat(Chars(s)[i..i + n]);
  }

  /** Bytes 1 to 127 and from 192 on start a character; any other belongs to the one before it, if there is one. */
  lemma NextByte(s: Bytes, b: byte)
    ensures 1 <= b <= 127 || 192 <= b ==> Chars(s + [b]) == Chars(s) + [[b]]
    ensures b == 0 || 128 <= b <= 191 ==>
      var cs, n := Chars(s), |Chars(s)| - 1;
      Chars(s + [b]) == if n < 0 then [] else cs[..n] + [cs[n] + [b]]
  {
    hide Lead;
    LeadMeans(b);
    assert (s + [b])[..|s|] == s;
    var cs, n := Chars(s), |Chars(s)| - 1;
    if n >= 0 { assert cs[n := cs[n] + [b]] == cs[..n] + [cs[n] + [b]]; }
  }

  lemma LeadMeans(b: byte)
    ensures Lead(b) <==> 1 <= b <= 127 || 192 <= b
  {
  }

  /** The encoding of a code point, as in section 3 of RFC 3629. */
  function Encoded(n: nat): (c: Bytes)
    requires 0 < n < 0x11_0000
  {
    if n < 0x80 then [n]
    else if n < 0x800 then [0xC0 + n / 0x40, 0x80 + n % 0x40]
    else if n < 0x1_0000 then [0xE0 + n / 0x1000, 0x80 + n / 0x40 % 0x40, 0x80 + n % 0x40]
    else [0xF0 + n / 0x4_0000, 0x80 + n / 0x1000 % 0x40, 0x80 + n / 0x40 % 0x40, 0x80 + n % 0x40]
  }

  /** In well-formed text the characters are the code points. */
  lemma {:induction false} CodePoints(cs: seq<Bytes>, ns: seq<nat>)
    requires |cs| == |ns| && forall i :: 0 <= i < |ns| ==> 0 < ns[i] < 0x11_0000 && cs[i] == Encoded(ns[i])
    ensures Chars(Concat(cs)) == cs
  {
    hide Chars, Concat, Encoded, IsChar;
    forall i | 0 <= i < |cs|
      ensures IsChar(cs[i])
    {
      OneChar(ns[i]);
    }
    CharsConcat(cs);
  }

  lemma OneChar(n: nat)
    requires 0 < n < 0x11_0000
    ensures IsChar(Encoded(n))
  {
  }
}
