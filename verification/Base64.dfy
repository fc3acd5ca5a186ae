/**
 EncodeBase64 and DecodeBase64: lines of 64 characters (section 4 of RFC 4648), in buffers whose sizes are computed
 beforehand.
 */
module Base64 {
  type Octets = seq<bv8>

  const CR: bv8 := 13
  const LF: bv8 := 10
  const PAD: bv8 := 61
  const CRLF: Octets := [CR, LF]

  /** The character for six bits, as in the table of codes. */
  function Code(x: bv32): (c: bv8)
    requires x < 64
  {
    if x < 26 then (x + 65) as bv8 else if x < 52 then (x + 71) as bv8 else if x < 62 then (x - 4) as bv8
    else if x == 62 then 43 else 47
  }

  /** What the decoder adds for a character that is no padding. */
  function Bits(c: bv8): (x: bv32) {
    var n := c as bv32;
    if c > 96 then n - 71 else if c > 64 then n - 65 else if c > 47 then n + 4 else if c == 47 then 63
    else if c == 43 then 62 else 0
  }

  predicate IsBreak(c: bv8) { c == CR || c == LF }

  lemma CodeReads(x: bv32)
    requires x < 64
    ensures Bits(Code(x)) == x && !IsBreak(Code(x)) && Code(x) != PAD
  {
  }

  /** Three bytes in 24 bits. */
  function Pack3(a: bv8, b: bv8, c: bv8): (n: bv32) {
    (((a as bv32) << 16) | ((b as bv32) << 8)) | (c as bv32)
  }

  /** Up to three bytes; zeros stand for missing ones. */
  function Pack(s: Octets): (n: bv32) {
    Pack3(if |s| > 0 then s[0] else 0, if |s| > 1 then s[1] else 0, if |s| > 2 then s[2] else 0)
  }

  function Next6(n: bv32): bv32 { n >> 6 }

  function Low6(n: bv32): (x: bv32)
    ensures x < 64
  {
    n & 0x3f
  }

  /** Without the last k groups of six bits. */
  function Shifted(n: bv32, k: nat): (r: bv32) {
    if k == 0 then n else if k == 1 then Next6(n) else if k == 2 then Next6(Next6(n))
    else if k == 3 then Next6(Next6(Next6(n))) else Next6(Next6(Next6(Next6(n))))
  }

  /** Six of the 24 bits, counted from the left. */
  function Sextet(n: bv32, k: nat): (x: bv32)
    requires k < 4
    ensures x < 64
  {
    Low6(Shifted(n, 3 - k))
  }

  function Next8(n: bv32): bv32 { n >> 8 }

  function Low8(n: bv32): bv8 { (n & 0xff) as bv8 }

  function Shifted8(n: bv32, k: nat): (r: bv32) {
    if k == 0 then n else if k == 1 then Next8(n) else if k == 2 then Next8(Next8(n)) else Next8(Next8(Next8(n)))
  }

  /** Eight of the 24 bits, counted from the left. */
  function Octet(n: bv32, k: nat): (x: bv8)
    requires k < 3
  {
    Low8(Shifted8(n, 2 - k))
  }

  function Join6(n: bv32, x: bv32): (r: bv32) {
    (n << 6) | x
  }

  /** Four sextets put together are the 24 bits again; padding stands for sextets that are zero. */
  lemma Unpack(a: bv8, b: bv8, c: bv8)
    ensures var n := Pack3(a, b, c);
      Join6(Join6(Join6(Join6(0, Sextet(n, 0)), Sextet(n, 1)), Sextet(n, 2)), Sextet(n, 3)) == n &&
      Octet(n, 0) == a && Octet(n, 1) == b && Octet(n, 2) == c &&
      (c == 0 ==> Sextet(n, 3) == 0) && (b == 0 && c == 0 ==> Sextet(n, 2) == 0)
  {
  }

  // ---- what is encoded ----

  /** Four characters for one to three bytes. */
  function GroupText(s: Octets): (t: Octets)
    requires 1 <= |s| <= 3
    ensures |t| == 4
  {
    var n := Pack(s);
    [Code(Sextet(n, 0)), Code(Sextet(n, 1)),
     if |s| >= 2 then Code(Sextet(n, 2)) else PAD, if |s| >= 3 then Code(Sextet(n, 3)) else PAD]
  }

  /** A line ends where the offset in the text is a multiple of 66, and at the end if there is padding. */
  function Break(s: Octets, off: nat): (t: Octets) {
    if (off + 4) % 66 == 0 || |s| < 3 then CRLF else []
  }

  function Head(s: Octets): (r: Octets) {
    if |s| < 3 then s else s[..3]
  }

  function Tail(s: Octets): (r: Octets) {
    if |s| < 3 then [] else s[3..]
  }

  function EncodedFrom(s: Octets, off: nat): (t: Octets)
    decreases |s|
  {
    if s == [] then []
    else
      var b := Break(s, off);
      GroupText(Head(s)) + b + EncodedFrom(Tail(s), off + 4 + |b|)
  }

  function Encoded(s: Octets): (t: Octets) {
    CRLF + EncodedFrom(s, 2)
  }

  // ---- encoding into a buffer of the precomputed size ----

  function EncodedSize(n: nat): (r: nat) {
    var m := n + n / 3 + 3;
    m + m / 64 * 2 + 4
  }

  /** The offset after k whole groups: every sixteenth one ends a line. */
  function OffsetAfter(k: nat): (r: nat) {
    2 + 4 * k + 2 * (k / 16)
  }

  lemma OffsetStep(k: nat)
    ensures (OffsetAfter(k) + 4) % 66 == 0 <==> (k + 1) % 16 == 0
    ensures OffsetAfter(k + 1) == OffsetAfter(k) + 4 + (if (k + 1) % 16 == 0 then 2 else 0)
  {
    var j, r := k / 16, k % 16;
    assert k == 16 * j + r && OffsetAfter(k) == 66 * j + 2 + 4 * r;
    if r == 15 { assert (k + 1) / 16 == j + 1; } else { assert (k + 1) / 16 == j; }
  }

  /** The buffer has room for the next group and a line break. */
  lemma Room(n: nat, k: nat)
    requires 3 * k < n
    ensures OffsetAfter(k) + 4 + (if n - 3 * k < 3 || (k + 1) % 16 == 0 then 2 else 0) <= EncodedSize(n)
  {
    var m := n + n / 3 + 3;
    assert n / 3 >= k;
    assert 4 * k + 4 <= m;
    assert (k + 1) / 16 <= m / 64;
    assert k / 16 <= (k + 1) / 16;
  }

  method PutGroup(buf: array<bv8>, off: nat, n3: bv32, pad: nat, ghost s: Octets)
    requires off + 4 <= buf.Length && 1 <= |s| <= 3 && pad == 3 - |s| && n3 == Pack(s)
    modifies buf
    ensures buf[..off + 4] == old(buf[..off]) + GroupText(s)
  {
    hide GroupText, Pack, Sextet, Code, Shifted, Next6, Low6;
    var top, n := off + 4, n3;
    ShiftedNext(n3, 0);
    while top != off
      invariant off <= top <= off + 4
      invariant n == Shifted(n3, off + 4 - top)
      invariant buf[..off] == old(buf[..off])
      invariant forall k :: top - off <= k < 4 ==> buf[off + k] == GroupText(s)[k]
      decreases top
    {
      top := top - 1;
      ShiftedNext(n3, off + 3 - top);
      GroupChar(s, top - off);
      if pad == 0 || top < off + 4 - pad { buf[top] := Code(Low6(n)); } else { buf[top] := PAD; }
      n := Next6(n);
    }
    assert forall k :: 0 <= k < 4 ==> buf[..off + 4][off + k] == GroupText(s)[k];
  }

  lemma ShiftedNext(n: bv32, k: nat)
    requires k < 4
    ensures Shifted(n, 0) == n && Next6(Shifted(n, k)) == Shifted(n, k + 1) && Low6(Shifted(n, k)) == Sextet(n, 3 - k)
  {
    hide Next6, Low6;
  }

  lemma GroupChar(s: Octets, k: nat)
    requires 1 <= |s| <= 3 && k < 4
    ensures GroupText(s)[k] == if k <= |s| then Code(Sextet(Pack(s), k)) else PAD
  {
    hide Pack, Sextet, Code;
  }

  method PutBreak(buf: array<bv8>, off: nat)
    requires off + 2 <= buf.Length
    modifies buf
    ensures buf[..off + 2] == old(buf[..off]) + CRLF
  {
    buf[off] := CR;
    buf[off + 1] := LF;
  }

  /** Reads the next group of bytes, as the loop body does: zeros stand for missing ones. */
  method TakeGroup(s: Octets, at: nat) returns (n3: bv32, next: nat, pad: nat)
    requires at < |s|
    ensures var g := Head(s[at..]); n3 == Pack(g) && next == at + |g| && pad == 3 - |g|
  {
    hide Join8, Pack3;
    next, pad := at, 0;
    n3 := s[next] as bv32;
    next := next + 1;
    if next < |s| {
      n3 := Join8(n3, s[next]);
      next := next + 1;
    } else {
      n3 := Join8(n3, 0);
      pad := pad + 1;
    }
    if next < |s| {
      n3 := Join8(n3, s[next]);
      next := next + 1;
    } else {
      n3 := Join8(n3, 0);
      pad := pad + 1;
    }
    ghost var g := Head(s[at..]);
    assert g[0] == s[at] && (|g| > 1 ==> g[1] == s[at + 1]) && (|g| > 2 ==> g[2] == s[at + 2]);
    PackSteps(s[at], if |g| > 1 then s[at + 1] else 0, if |g| > 2 then s[at + 2] else 0);
  }

  function Join8(n: bv32, b: bv8): (r: bv32) {
    (n << 8) | (b as bv32)
  }

  lemma PackSteps(a: bv8, b: bv8, c: bv8)
    ensures Join8(Join8(a as bv32, b), c) == Pack3(a, b, c)
  {
  }

  /** One round of EncodeBase64: group number k, and a line break after a full line or at the end. */
  method PutNext(buf: array<bv8>, s: Octets, at: nat, off: nat, ghost k: nat) returns (next: nat, end: nat, pad: nat)
    requires at == 3 * k < |s| && off == OffsetAfter(k) && buf.Length == EncodedSize(|s|) && off <= buf.Length
    modifies buf
    ensures var g, b := Head(s[at..]), Break(s[at..], off);
      next == at + |g| && pad == 3 - |g| && end == off + 4 + |b| <= buf.Length &&
      buf[..end] == old(buf[..off]) + GroupText(g) + b
    ensures next < |s| ==> pad == 0 && next == 3 * (k + 1) && end == OffsetAfter(k + 1)
  {
    hide GroupText, EncodedSize, OffsetAfter, Pack;
    Room(|s|, k);
    OffsetStep(k);
    var n3;
    n3, next, pad := TakeGroup(s, at);
    PutGroup(buf, off, n3, pad, Head(s[at..]));
    end := off + 4;
    if end % 66 == 0 || pad != 0 {
      PutBreak(buf, end);
      end := end + 2;
    }
  }

  /** EncodeBase64: every write is inside the buffer of the precomputed size. */
  method EncodeBase64(s: Octets) returns (t: Octets)
    ensures t == Encoded(s)
  {
    hide EncodedFrom, GroupText, EncodedSize, OffsetAfter, Break, Head, Tail;
    var buf := new bv8[EncodedSize(|s|)](_ => 0);
    SizeAtLeast2(|s|);
    PutBreak(buf, 0);
    var off: nat, at: nat, pad: nat := 2, 0, 0;
    ghost var k := 0;
    assert buf[..off] == CRLF && s[0..] == s;
    while at < |s|
      invariant at <= |s| && off <= buf.Length && buf[..off] + EncodedFrom(s[at..], off) == Encoded(s)
      invariant at < |s| ==> pad == 0 && at == 3 * k && off == OffsetAfter(k)
      decreases |s| - at
    {
      EncodedStep(s[at..], off, buf[..off]);
      HeadTail(s, at);
      var p;
      at, off, p := PutNext(buf, s, at, off, k);
      pad, k := pad + p, k + 1;
    }
    EncodedNone(off);
    assert s[at..] == [];
    t := buf[..off];
  }

  lemma HeadTail(s: Octets, at: nat)
    requires at < |s|
    ensures 1 <= |Head(s[at..])| <= 3 && at + |Head(s[at..])| <= |s| && Tail(s[at..]) == s[at + |Head(s[at..])|..]
  {
  }

  lemma SizeAtLeast2(n: nat)
    ensures EncodedSize(n) >= 2 && OffsetAfter(0) == 2
  {
  }

  lemma EncodedNone(off: nat)
    ensures EncodedFrom([], off) == []
  {
  }

  lemma EncodedStep(s: Octets, off: nat, before: Octets)
    requires s != []
    ensures var b := Break(s, off);
      before + EncodedFrom(s, off) == (before + GroupText(Head(s)) + b) + EncodedFrom(Tail(s), off + 4 + |b|)
  {
    hide GroupText;
    var b := Break(s, off);
    assert before + (GroupText(Head(s)) + b + EncodedFrom(Tail(s), off + 4 + |b|)) ==
           (before + GroupText(Head(s)) + b) + EncodedFrom(Tail(s), off + 4 + |b|);
  }

  // ---- decoding ----

  /** The bits read so far, with those of one more character. */
  function Push(n: bv32, c: bv8): (r: bv32) {
    if c == PAD then Join6(n, 0) else Join6(n, Bits(c))
  }

  /**
   What the inner loop of DecodeBase64 has read: how many characters, their bits, where it stands, and all padding so
   far.
   */
  datatype Reading = Reading(count: nat, n: bv32, next: nat, pad: nat)

  function Read(t: Octets, r: Reading): (q: Reading)
    ensures r.next <= |t| ==> r.next <= q.next <= |t|
    ensures r.next < |t| && r.count < 4 ==> r.next < q.next
    ensures r.count <= 4 ==> q.count <= 4
    ensures q.pad >= r.pad
    decreases |t| - r.next
  {
    hide Push;
    if r.count == 4 || r.next >= |t| then r else Read(t, Step(t, r))
  }

  function Step(t: Octets, r: Reading): (q: Reading)
    requires r.next < |t|
    ensures q.next == r.next + 1
  {
    var c := t[r.next];
    if IsBreak(c) then r.(next := r.next + 1)
    else Reading(r.count + 1, Push(r.n, c), r.next + 1, if c == PAD then r.pad + 1 else r.pad)
  }

  /** The bytes of a group with this much padding. */
  function Octets3(n: bv32, pad: nat): (r: Octets)
    ensures |r| == if pad < 3 then 3 - pad else 0
  {
    if pad == 0 then [Octet(n, 0), Octet(n, 1), Octet(n, 2)] else if pad == 1 then [Octet(n, 0), Octet(n, 1)]
    else if pad == 2 then [Octet(n, 0)] else []
  }

  /** The bytes written and the length returned, from character i on. */
  function Decoded(t: Octets, i: nat, pad: nat, off: int, out: Octets, limit: nat): (r: (Octets, int))
    requires i <= |t|
    decreases |t| - i
  {
    hide Push, Octet;
    if i >= |t| then (out, off)
    else
      var g := Read(t, Reading(0, 0, i, pad));
      if g.count != 4 then Decoded(t, g.next, g.pad, off, out, limit)
      else if off + 3 - g.pad > limit then (out, 0)
      else Decoded(t, g.next, g.pad, off + 3 - g.pad, out + Octets3(g.n, g.pad), limit)
  }

  /** One group of the decoder's buffer. */
  method PutOctets(buf: array<bv8>, off: int, n3: bv32, pad: nat, ghost out: Octets)
    requires off + 3 - pad <= buf.Length && (pad <= 3 ==> off == |out|) && |out| <= buf.Length && buf[..|out|] == out
    modifies buf
    ensures |out| + |Octets3(n3, pad)| <= buf.Length && buf[..|out| + |Octets3(n3, pad)|] == out + Octets3(n3, pad)
    ensures buf[|out| + |Octets3(n3, pad)|..] == old(buf[|out| + |Octets3(n3, pad)|..])
  {
    hide Octet, Next8, Low8, Shifted8;
    var top, n := off + 3, n3;
    ghost var bs := Octets3(n3, pad);
    Shifted8Next(n3, 0);
    while top != off
      invariant off <= top <= off + 3 && n == Shifted8(n3, off + 3 - top)
      invariant forall k :: 0 <= k < buf.Length && !(top <= k < off + |bs|) ==> buf[k] == old(buf[k])
      invariant forall k :: top - off <= k < |bs| ==> buf[off + k] == bs[k]
      decreases top - off
    {
      top := top - 1;
      Shifted8Next(n3, off + 2 - top);
      if pad == 0 || top < off + 3 - pad { buf[top] := Low8(n); }
      n := Next8(n);
    }
    assert forall k :: 0 <= k < |bs| ==> buf[|out| + k] == bs[k];
  }

  lemma Shifted8Next(n: bv32, k: nat)
    requires k < 3
    ensures Shifted8(n, 0) == n && Next8(Shifted8(n, k)) == Shifted8(n, k + 1) &&
            Low8(Shifted8(n, k)) == Octet(n, 2 - k)
  {
    hide Next8, Low8;
  }

  /** The inner loop of DecodeBase64: up to four characters, line breaks passed over. */
  method ReadGroup(t: Octets, i: nat, pad: nat) returns (g: Reading)
    requires i <= |t|
    ensures g == Read(t, Reading(0, 0, i, pad))
  {
    hide Push, Read, Step;
    g := Reading(0, 0, i, pad);
    while g.count != 4 && g.next < |t|
      invariant g.next <= |t| && Read(t, g) == Read(t, Reading(0, 0, i, pad))
      decreases |t| - g.next
    {
      ReadStep(t, g);
      g := Step(t, g);
    }
    ReadStep(t, g);
  }

  /** DecodeBase64: nothing is written outside the first nBufferLen bytes, whatever the text. */
  method DecodeBase64(t: Octets, buf: array<bv8>, nBufferLen: nat) returns (r: int, ghost out: Octets)
    requires nBufferLen <= buf.Length
    modifies buf
    ensures nBufferLen == 0 ==> r == |t| / 4 * 3 + 3 && out == []
    ensures nBufferLen > 0 ==> (out, r) == Decoded(t, 0, 0, 0, [], nBufferLen)
    ensures |out| <= nBufferLen && buf[..|out|] == out && buf[|out|..] == old(buf[|out|..])
  {
    hide Push, Octet, Decoded, Read, Octets3;
    out := [];
    if nBufferLen == 0 { return |t| / 4 * 3 + 3, out; }
    var i: nat, off, pad: nat := 0, 0, 0;
    while i < |t|
      invariant i <= |t| && (pad <= 3 ==> off == |out|) && |out| <= nBufferLen && buf[..|out|] == out &&
                buf[|out|..] == old(buf[|out|..])
      invariant Decoded(t, 0, 0, 0, [], nBufferLen) == Decoded(t, i, pad, off, out, nBufferLen)
      decreases |t| - i
    {
      DecodedStep(t, i, pad, off, out, nBufferLen);
      var g := ReadGroup(t, i, pad);
      i, pad := g.next, g.pad;
      if g.count == 4 {
        if off + 3 - pad > nBufferLen { return 0, out; }
        PutOctets(buf, off, g.n, pad, out);
        out := out + Octets3(g.n, pad);
        off := off + 3 - pad;
      }
    }
    DecodedStep(t, i, pad, off, out, nBufferLen);
    r := off;
  }

  lemma ReadStep(t: Octets, r: Reading)
    ensures r.count != 4 && r.next < |t| ==> Read(t, r) == Read(t, Step(t, r))
    ensures !(r.count != 4 && r.next < |t|) ==> Read(t, r) == r
  {
    hide Push;
  }

  lemma DecodedStep(t: Octets, i: nat, pad: nat, off: int, out: Octets, limit: nat)
    requires i <= |t|
    ensures i == |t| ==> Decoded(t, i, pad, off, out, limit) == (out, off)
    ensures var g := Read(t, Reading(0, 0, i, pad));
      i < |t| ==> i < g.next <= |t| &&
                  Decoded(t, i, pad, off, out, limit) ==
                  if g.count != 4 then Decoded(t, g.next, g.pad, off, out, limit)
                  else if off + 3 - g.pad > limit then (out, 0)
                  else Decoded(t, g.next, g.pad, off + 3 - g.pad, out + Octets3(g.n, g.pad), limit)
  {
    hide Push, Octet, Read, Octets3;
  }

  // ---- the round trip ----

  lemma BreaksRead(t: Octets, r: Reading, w: Octets, x: Octets)
    requires t == w + CRLF + x && r.next == |w| && r.count < 4
    ensures Read(t, r) == Read(t, r.(next := |w| + 2))
  {
    hide Push, Read;
    assert t[|w|] == CR && t[|w| + 1] == LF;
    ReadStep(t, r);
    ReadStep(t, r.(next := |w| + 1));
  }

  /** Reading the four characters of a group. */
  lemma GroupRead(t: Octets, i: nat, c: Octets)
    requires i + 4 <= |t| && t[i..i + 4] == c && forall k :: 0 <= k < 4 ==> !IsBreak(c[k])
    requires c[0] != PAD && c[1] != PAD
    ensures var pad := (if c[2] == PAD then 1 else 0) + (if c[3] == PAD then 1 else 0);
      Read(t, Reading(0, 0, i, 0)) == Reading(4, Push(Push(Push(Push(0, c[0]), c[1]), c[2]), c[3]), i + 4, pad)
  {
    hide Push, Read, IsBreak;
    assert t[i] == c[0] && t[i + 1] == c[1] && t[i + 2] == c[2] && t[i + 3] == c[3];
    var r0 := Reading(0, 0, i, 0);
    ReadStep(t, r0);
    var r1 := Step(t, r0);
    ReadStep(t, r1);
    var r2 := Step(t, r1);
    ReadStep(t, r2);
    var r3 := Step(t, r2);
    ReadStep(t, r3);
    ReadStep(t, Step(t, r3));
  }

  /** The characters of a group give its bytes back. */
  lemma GroupRoundTrip(s: Octets)
    requires 1 <= |s| <= 3
    ensures var c := GroupText(s);
      (forall k :: 0 <= k < 4 ==> !IsBreak(c[k])) && c[0] != PAD && c[1] != PAD && (c[2] == PAD <==> |s| < 2) &&
      (c[3] == PAD <==> |s| < 3) &&
      Octets3(Push(Push(Push(Push(0, c[0]), c[1]), c[2]), c[3]), 3 - |s|) == s
  {
    hide Sextet, Octet, Code, Push, Join6, Pack3;
    var n := Pack(s);
    var m1 := Join6(0, Sextet(n, 0));
    var m2 := Join6(m1, Sextet(n, 1));
    var m3 := Join6(m2, Sextet(n, 2));
    Unpack(s[0], if |s| > 1 then s[1] else 0, if |s| > 2 then s[2] else 0);
    PushCode(0, Sextet(n, 0));
    PushCode(m1, Sextet(n, 1));
    PushCode(m2, Sextet(n, 2));
    PushCode(m3, Sextet(n, 3));
  }

  lemma PushCode(n: bv32, x: bv32)
    requires x < 64
    ensures Push(n, Code(x)) == Join6(n, x) && !IsBreak(Code(x)) && Code(x) != PAD && Push(n, PAD) == Join6(n, 0)
  {
    hide Bits, Code, Join6;
    CodeReads(x);
  }

  /** Decoding the rest of an encoded text adds the bytes that are left. */
  lemma {:induction false} DecodeRest(t: Octets, w: Octets, breaks: Octets, s: Octets, off: nat, out: Octets,
                                      limit: nat)
    requires t == w + breaks + EncodedFrom(s, off) && (breaks == [] || breaks == CRLF) && |out| + |s| <= limit
    ensures Decoded(t, |w|, 0, |out|, out, limit) == (out + s, |out| + |s|)
    decreases |s|
  {
    hide Push, Read, GroupText, Octets3, Decoded, Break, IsBreak, EncodedFrom;
    EncodedNone(off);
    var i := |w| + |breaks|;
    DecodedStep(t, |w|, 0, |out|, out, limit);
    var r := Reading(0, 0, |w|, 0);
    if breaks == CRLF { BreaksRead(t, r, w, EncodedFrom(s, off)); }
    var r' := Reading(0, 0, i, 0);
    assert breaks == [] || breaks == CRLF ==> Read(t, r) == Read(t, r');
    if s == [] {
      assert i == |t| && out + s == out;
      ReadStep(t, r');
      DecodedStep(t, i, 0, |out|, out, limit);
    } else {
      var g, b := Head(s), Break(s, off);
      var c := GroupText(g);
      BreakIs(s, off);
      NextGroup(t, w + breaks, s, off);
      GroupRoundTrip(g);
      GroupRead(t, i, c);
      assert out + s == (out + g) + Tail(s);
      if |g| == 3 {
        DecodeRest(t, w + breaks + c, b, Tail(s), off + 4 + |b|, out + g, limit);
      } else {
        EncodedNone(off + 4 + |b|);
        LastGroup(t, w + breaks + c, b, 3 - |g|, out + g, limit);
      }
    }
  }

  lemma NextGroup(t: Octets, w: Octets, s: Octets, off: nat)
    requires t == w + EncodedFrom(s, off) && s != []
    ensures var c, b := GroupText(Head(s)), Break(s, off);
      t == (w + c) + b + EncodedFrom(Tail(s), off + 4 + |b|) && |w| + |c| <= |t| && t[|w|..|w| + |c|] == c
  {
    hide GroupText, Break, EncodedFrom;
    var c, b := GroupText(Head(s)), Break(s, off);
    var tail := EncodedFrom(Tail(s), off + 4 + |b|);
    EncodedStep(s, off, w);
    assert t == w + c + (b + tail);
    NextChars(t, w, c, b + tail);
  }

  lemma NextChars(t: Octets, w: Octets, c: Octets, x: Octets)
    requires t == w + c + x
    ensures t[|w|..|w| + |c|] == c
  {
  }

  lemma BreakIs(s: Octets, off: nat)
    ensures Break(s, off) == [] || Break(s, off) == CRLF
    ensures |s| < 3 ==> Break(s, off) == CRLF && Tail(s) == []
  {
  }

  /** After the group with padding there is nothing but a line break. */
  lemma LastGroup(t: Octets, w: Octets, breaks: Octets, pad: nat, out: Octets, limit: nat)
    requires t == w + breaks + [] && breaks == CRLF
    ensures Decoded(t, |w|, pad, |out|, out, limit) == (out, |out|)
  {
    hide Push, Read, Octets3, Decoded;
    DecodedStep(t, |w|, pad, |out|, out, limit);
    var r := Reading(0, 0, |w|, pad);
    assert t == w + CRLF + [];
    BreaksRead(t, r, w, []);
    ReadStep(t, r.(next := |w| + 2));
    DecodedStep(t, |w| + 2, pad, |out|, out, limit);
  }

  /** Every byte string comes back, if the buffer is as long as it or longer. */
  lemma RoundTrip(s: Octets, limit: nat)
    requires |s| <= limit
    ensures Decoded(Encoded(s), 0, 0, 0, [], limit) == (s, |s|)
  {
    hide Decoded, EncodedFrom;
    assert Encoded(s) == [] + CRLF + EncodedFrom(s, 2);
    DecodeRest(Encoded(s), [], CRLF, s, 2, [], limit);
    assert [] + s == s;
  }

  /** A group takes at least as many characters as it counts. */
  lemma {:induction false} ReadCounts(t: Octets, r: Reading)
    requires r.next <= |t|
    ensures Read(t, r).next - r.next >= Read(t, r).count - r.count
    decreases |t| - r.next
  {
    hide Push, Read;
    ReadStep(t, r);
    if r.count != 4 && r.next < |t| { ReadCounts(t, Step(t, r)); }
  }

  /**
   With a buffer of at least three bytes for every four characters left, decoding any text neither fails nor depends
   on the size.
   */
  lemma {:induction false} LimitDoesNotMatter(t: Octets, i: nat, pad: nat, off: int, out: Octets, limit: nat,
                                              limit': nat)
    requires i <= |t| && off + (|t| - i) / 4 * 3 <= limit && off + (|t| - i) / 4 * 3 <= limit'
    ensures Decoded(t, i, pad, off, out, limit) == Decoded(t, i, pad, off, out, limit')
    ensures |Decoded(t, i, pad, off, out, limit).0| <= |out| + (|t| - i) / 4 * 3
    decreases |t| - i
  {
    hide Push, Read, Octets3, Decoded;
    DecodedStep(t, i, pad, off, out, limit);
    DecodedStep(t, i, pad, off, out, limit');
    var g := Read(t, Reading(0, 0, i, pad));
    ReadCounts(t, Reading(0, 0, i, pad));
    if i < |t| {
      if g.count != 4 {
        LimitDoesNotMatter(t, g.next, g.pad, off, out, limit, limit');
      } else {
        LimitDoesNotMatter(t, g.next, g.pad, off + 3 - g.pad, out + Octets3(g.n, g.pad), limit, limit');
      }
    }
  }

  /** The length that DecodeBase64 returns for an empty buffer is large enough for the text, whatever it is. */
  lemma EstimateIsEnough(t: Octets, limit: nat)
    requires limit >= |t| / 4 * 3 + 3
    ensures Decoded(t, 0, 0, 0, [], |t| / 4 * 3 + 3) == Decoded(t, 0, 0, 0, [], limit)
    ensures |Decoded(t, 0, 0, 0, [], limit).0| <= |t| / 4 * 3 + 3
  {
    hide Decoded;
    LimitDoesNotMatter(t, 0, 0, 0, [], |t| / 4 * 3 + 3, limit);
  }

  /** The alphabet of table 1 of RFC 4648. */
  function Letter(n: nat): (c: char)
    requires n < 64
  {
    if n < 26 then ('A' as int + n) as char else if n < 52 then ('a' as int + n - 26) as char
    else if n < 62 then ('0' as int + n - 52) as char else if n == 62 then '+' else '/'
  }

  /** Every six bits are written as their letter, padding as '='; a line ends with a carriage return and a line feed. */
  lemma CodeMeans(x: bv32)
    requires x < 64
    ensures Code(x) as int == Letter(x as int) as int
    ensures PAD as int == '=' as int && CR as int == '\r' as int && LF as int == '\n' as int
  {
  }

  /** The six bits of a group's four letters, from the left. */
  lemma SextetsMean(a: bv8, b: bv8, c: bv8)
    ensures var n := Pack3(a, b, c);
      Sextet(n, 0) == (a >> 2) as bv32 && Sextet(n, 1) == (((a & 3) << 4) | (b >> 4)) as bv32 &&
      Sextet(n, 2) == (((b & 15) << 2) | (c >> 6)) as bv32 && Sextet(n, 3) == (c & 63) as bv32
  {
  }
}
