/**
 MD5: a message fed in pieces, folded block by block and padded at the end (RFC 1321); the block transform is a
 parameter.
 */
module Md5Stream {
  import opened ByteText
  import opened KeyBytes

  const BLOCK: nat := 64

  datatype Words = Words(a: u32, b: u32, c: u32, d: u32)

  type Transform = (Words, Bytes) -> Words

  /** The initial words of section 3.3 of RFC 1321. */
  const INIT: Words := Words(0x67452301, 0xefcdab89, 0x98badcfe, 0x10325476)

  /** The words after all blocks of a message. */
  function Fold(t: Transform, m: Bytes): (w: Words)
    requires |m| % BLOCK == 0
  {
    if m == [] then INIT else t(Fold(t, m[..|m| - BLOCK]), m[|m| - BLOCK..])
  }

  lemma FoldNext(t: Transform, m: Bytes, block: Bytes)
    requires |m| % BLOCK == 0 && |block| == BLOCK
    ensures Fold(t, m + block) == t(Fold(t, m), block)
  {
    assert (m + block)[..|m|] == m && (m + block)[|m|..] == block;
  }

  /** The bytes of words, the least significant first. */
  function EncodeWords(w: Words): (r: Bytes) {
    Memory(w.a, 4) + Memory(w.b, 4) + Memory(w.c, 4) + Memory(w.d, 4)
  }

  /** Sections 3.1 and 3.2: a bit 1, zeros up to 56 bytes modulo 64, and the bit length modulo 2^64. */
  function Padded(m: Bytes): (r: Bytes)
    ensures |r| % BLOCK == 0
  {
    PaddedLength(|m|);
    m + [0x80] + seq((55 - |m|) % 64, _ => 0) + Memory(8 * |m| % 0x1_0000_0000_0000_0000, 8)
  }

  lemma PaddedLength(n: nat)
    ensures (n + 1 + (55 - n) % 64 + 8) % BLOCK == 0
  {
    var q := (55 - n) / 64;
    assert 55 - n == q * 64 + (55 - n) % 64;
  }

  /** The digest of a whole message. */
  function Digest(t: Transform, m: Bytes): (r: Bytes) {
    EncodeWords(Fold(t, Padded(m)))
  }

  // ---- the counter of bits: two words of 32 bits ----

  function Counter(lo: u32, hi: u32): (r: u64) {
    lo + hi * 0x1_0000_0000
  }

  /** How update counts: the low word wraps, with a carry, and the bits beyond 2^32 go to the high word. */
  function CountLow(lo: u32, length: u32): (r: u32) {
    (lo + length * 8 % 0x1_0000_0000) % 0x1_0000_0000
  }

  function CountHigh(lo: u32, hi: u32, length: u32): (r: u32) {
    var carried := if CountLow(lo, length) < length * 8 % 0x1_0000_0000 then (hi + 1) % 0x1_0000_0000 else hi;
    (carried + length / 0x2000_0000) % 0x1_0000_0000
  }

  lemma Counts(lo: u32, hi: u32, length: u32)
    ensures Counter(CountLow(lo, length), CountHigh(lo, hi, length)) ==
            (Counter(lo, hi) + 8 * length) % 0x1_0000_0000_0000_0000
  {
    var low := length * 8 % 0x1_0000_0000;
    LengthParts(length);
    var carry := if lo + low >= 0x1_0000_0000 then 1 else 0;
    var total := hi + carry + length / 0x2000_0000;
    LowCarries(lo, low, carry);
    HighCarries(hi, carry, length / 0x2000_0000);
    HighWraps(total, lo + low - carry * 0x1_0000_0000);
  }

  lemma LengthParts(length: u32)
    ensures length * 8 == length / 0x2000_0000 * 0x1_0000_0000 + length * 8 % 0x1_0000_0000
  {
    assert length == length / 0x2000_0000 * 0x2000_0000 + length % 0x2000_0000;
  }

  lemma LowCarries(lo: u32, low: u32, carry: nat)
    requires carry == if lo + low >= 0x1_0000_0000 then 1 else 0
    ensures (lo + low) % 0x1_0000_0000 == lo + low - carry * 0x1_0000_0000 &&
            (lo + low - carry * 0x1_0000_0000 < low <==> carry == 1)
  {
  }

  lemma HighCarries(hi: u32, carry: nat, more: nat)
    requires carry <= 1
    ensures ((if carry == 1 then (hi + 1) % 0x1_0000_0000 else hi) + more) % 0x1_0000_0000 ==
            (hi + carry + more) % 0x1_0000_0000
  {
    if carry == 1 && hi + 1 == 0x1_0000_0000 { assert (hi + 1) % 0x1_0000_0000 == 0; }
  }

  lemma HighWraps(total: nat, low: u32)
    ensures (total * 0x1_0000_0000 + low) % 0x1_0000_0000_0000_0000 == total % 0x1_0000_0000 * 0x1_0000_0000 + low
  {
    var q, r := total / 0x1_0000_0000, total % 0x1_0000_0000;
    assert total * 0x1_0000_0000 + low == q * 0x1_0000_0000_0000_0000 + (r * 0x1_0000_0000 + low);
  }

  /** The counter tells how many bytes are waiting. */
  lemma CounterIndex(lo: u32, hi: u32, n: nat)
    requires Counter(lo, hi) == 8 * n % 0x1_0000_0000_0000_0000
    ensures lo / 8 % 64 == n % 64
  {
    IndexOf(8 * n / 0x1_0000_0000_0000_0000, lo, hi, n);
  }

  lemma IndexOf(q: nat, lo: u32, hi: u32, n: nat)
    requires 8 * n == q * 0x1_0000_0000_0000_0000 + hi * 0x1_0000_0000 + lo
    ensures lo / 8 % 64 == n % 64
  {
    var k := n - q * 0x2000_0000_0000_0000 - hi * 0x2000_0000;
    assert lo == 8 * k;
  }

  lemma CounterBytes(lo: u32, hi: u32)
    ensures Memory(lo, 4) + Memory(hi, 4) == Memory(Counter(lo, hi), 8)
  {
    hide Memory, Pow256;
    Pow256Values();
    MemorySplit(lo, hi, 4, 4);
  }

  /** Everything up to the last block boundary is folded into `w`, and `rest` is waiting. */
  ghost predicate Folded(t: Transform, m: Bytes, w: Words, rest: Bytes) {
    |rest| == |m| % BLOCK && m[|m| - |rest|..] == rest && w == Fold(t, m[..|m| - |rest|])
  }

  /** Text that completes the waiting bytes to a block. */
  lemma FoldedBlock(t: Transform, m: Bytes, w: Words, rest: Bytes, part: Bytes)
    requires Folded(t, m, w, rest) && |rest| + |part| == BLOCK
    ensures Folded(t, m + part, t(w, rest + part), [])
  {
    var k := |m| - |rest|;
    assert m == m[..k] + rest;
    assert m + part == m[..k] + (rest + part);
    assert |m + part| % BLOCK == 0;
    FoldNext(t, m[..k], rest + part);
    assert (m + part)[..|m + part|] == m + part;
  }

  /** Text too short for that. */
  lemma FoldedMore(t: Transform, m: Bytes, w: Words, rest: Bytes, part: Bytes)
    requires Folded(t, m, w, rest) && |rest| + |part| < BLOCK
    ensures Folded(t, m + part, w, rest + part) && |m + part| % BLOCK == |rest + part|
  {
    hide Fold;
    var k := |m| - |rest|;
    BlocksAnd(|m|, |part|);
    assert m == m[..k] + rest;
    assert (m + part)[..k] == m[..k] && (m + part)[k..] == rest + part;
  }

  lemma BlocksAnd(n: nat, more: nat)
    requires n % BLOCK + more < BLOCK
    ensures (n + more) % BLOCK == n % BLOCK + more
  {
    assert n + more == n / BLOCK * BLOCK + (n % BLOCK + more);
  }

  /** The loop over whole blocks ends: its 32-bit index does not wrap around before it passes the length. */
  predicate NoWrap(index: nat, length: u32) {
    var first := 64 - index;
    length < first || first + (length - first) / 64 * 64 + 64 < 0x1_0000_0000
  }

  /** With an empty buffer, an input of 2^32 - 1 bytes is one on which the loop does not end. */
  lemma WrapsAround()
    ensures !NoWrap(0, 0xFFFF_FFFF)
  {
  }

  method Memcpy(dst: array<byte>, at: nat, src: Bytes)
    requires at + |src| <= dst.Length
    modifies dst
    ensures dst[..] == old(dst[..at]) + src + old(dst[at + |src|..])
  {
    for i := 0 to |src|
      invariant forall k :: 0 <= k < dst.Length ==> dst[k] == if at <= k < at + i then src[k - at] else old(dst[k])
    {
      dst[at + i] := src[i];
    }
  }

  class Md5 {
    const t: Transform
    const buffer: array<byte>
    var finalized: bool
    var count0: u32
    var count1: u32
    var state: Words
    var digest: Bytes
    ghost var message: Bytes

    /**
     The buffer holds the unprocessed tail, the state all blocks before it, and the counter the bit length modulo
     2^64.
     */
    ghost predicate Valid()
      reads this, buffer
    {
      buffer.Length == BLOCK && Counter(count0, count1) == 8 * |message| % 0x1_0000_0000_0000_0000 &&
      Folded(t, message, state, buffer[..|message| % BLOCK])
    }

    constructor (t: Transform)
      ensures Valid() && !finalized && message == [] && this.t == t && fresh(buffer)
    {
      this.t := t;
      buffer := new byte[64](_ => 0);
      finalized, count0, count1, state, digest := false, 0, 0, INIT, [];
      message := [];
    }

    /** The loop of update over whole blocks, from i on; false if its index would wrap around. */
    method Blocks(input: Bytes, first: nat, ghost m: Bytes) returns (ok: bool, i: nat)
      requires 1 <= first <= 64 && first <= |input| < 0x1_0000_0000 && Folded(t, m + input[..first], state, [])
      modifies this`state
      ensures ok <==> NoWrap(64 - first, |input|)
      ensures ok ==> i <= |input| < i + 64 && Folded(t, m + input[..i], state, [])
    {
      hide Folded;
      i := first;
      while (i + BLOCK) % 0x1_0000_0000 <= |input|
        invariant first <= i <= |input| && (i - first) % 64 == 0 && Folded(t, m + input[..i], state, [])
        decreases |input| - i
      {
        LastBlock(first, i, |input|);
        if i + BLOCK >= 0x1_0000_0000 { return false, i; }
        FoldedBlock(t, m + input[..i], state, [], input[i..i + BLOCK]);
        assert m + input[..i] + input[i..i + BLOCK] == m + input[..i + BLOCK] &&
               [] + input[i..i + BLOCK] == input[i..i + BLOCK];
        state := t(state, input[i..i + BLOCK]);
        i := i + BLOCK;
      }
      LastBlock(first, i, |input|);
      ok := true;
    }

    /** Fills up the buffer and folds it. */
    method FillBlock(part: Bytes, index: nat, ghost m: Bytes)
      requires buffer.Length == BLOCK == index + |part| && Folded(t, m, state, buffer[..index])
      modifies this`state, buffer
      ensures Folded(t, m + part, state, [])
    {
      hide Folded;
      FoldedBlock(t, m, state, buffer[..index], part);
      Memcpy(buffer, index, part);
      assert buffer[..] == old(buffer[..index]) + part;
      state := t(state, buffer[..]);
    }

    /** The part of update after the counter. */
    method Feed(input: Bytes, start: nat) returns (ok: bool)
      requires buffer.Length == BLOCK && start == |message| % BLOCK && Folded(t, message, state, buffer[..start]) &&
               |input| < 0x1_0000_0000
      modifies this`state, this`message, buffer
      ensures ok <==> NoWrap(start, |input|)
      ensures ok ==> message == old(message) + input && Folded(t, message, state, buffer[..|message| % BLOCK])
    {
      hide Folded, NoWrap;
      ghost var m, rest := message, buffer[..start];
      message := message + input;
      var index, firstpart := start, 64 - start;
      var i: nat := 0;
      if |input| >= firstpart {
        FillBlock(input[..firstpart], index, m);
        ok, i := Blocks(input, firstpart, m);
        if !ok { return; }
        index, rest := 0, [];
      } else {
        ShortInput(index, |input|);
        assert m + input[..0] == m;
      }
      ok := true;
      Keep(index, input[i..], rest);
      Joined(m, input, i);
      FoldedMore(t, m + input[..i], state, rest, input[i..]);
    }

    /** Buffers the remaining input behind the bytes that wait. */
    method Keep(index: nat, part: Bytes, ghost rest: Bytes)
      requires buffer.Length == BLOCK && index + |part| <= BLOCK && buffer[..index] == rest
      modifies buffer
      ensures buffer[..index + |part|] == rest + part
    {
      Memcpy(buffer, index, part);
      assert buffer[..index + |part|] == rest + part;
    }

    /** update; false where the source would not end */
    method Update(input: Bytes) returns (ok: bool)
      requires Valid() && |input| < 0x1_0000_0000
      modifies this`count0, this`count1, this`state, this`message, buffer
      ensures ok <==> NoWrap(|old(message)| % BLOCK, |input|)
      ensures ok ==> Valid() && message == old(message) + input
    {
      hide Folded, Counter, NoWrap, CountLow, CountHigh;
      CounterIndex(count0, count1, |message|);
      var index := count0 / 8 % BLOCK;
      Counts(count0, count1, |input|);
      CountsMessage(|message|, |input|);
      count0, count1 := CountLow(count0, |input|), CountHigh(count0, count1, |input|);
      ok := Feed(input, index);
    }

    /** finalize: the digest is that of the whole message, however it was cut. */
    method Finalize()
      requires !finalized ==> Valid()
      modifies this, buffer
      ensures finalized && (old(finalized) ==> digest == old(digest))
      ensures !old(finalized) ==> digest == Digest(t, old(message))
    {
      hide Fold, Counter, NoWrap, Folded;
      if !finalized {
        ghost var m := message;
        var bits := Memory(count0, 4) + Memory(count1, 4);
        CounterBytes(count0, count1);
        CounterIndex(count0, count1, |message|);
        var index := count0 / 8 % 64;
        var padLen := if index < 56 then 56 - index else 120 - index;
        var padding := [0x80] + seq(63, _ => 0);
        SmallInput(index, padLen);
        var ok := Update(padding[..padLen]);
        SmallInput(|message| % BLOCK, 8);
        ok := Update(bits);
        PaddingIs(m, padding, padLen);
        WholeBlocks(t, message, state, buffer[..|message| % BLOCK]);
        digest := EncodeWords(state);
        forall k | 0 <= k < buffer.Length { buffer[k] := 0; }
        count0, count1 := 0, 0;
        finalized := true;
      }
    }
  }

  lemma LastBlock(first: nat, i: nat, length: u32)
    requires 1 <= first <= 64 && first <= i <= length && (i - first) % 64 == 0
    ensures i + 64 >= 0x1_0000_0000 ==> !NoWrap(64 - first, length)
    ensures (i + 64) % 0x1_0000_0000 > length ==>
      i + 64 < 0x1_0000_0000 && length < i + 64 && NoWrap(64 - first, length)
    ensures i + 64 < 0x1_0000_0000 && (i + 64) % 0x1_0000_0000 <= length ==> i + 64 <= length
  {
    var k := (i - first) / 64;
    assert i == first + 64 * k;
    if length < i + 64 { assert (length - first) / 64 == k; }
  }

  lemma Joined(m: Bytes, input: Bytes, i: nat)
    requires i <= |input|
    ensures (m + input[..i]) + input[i..] == m + input
  {
  }

  lemma ShortInput(index: nat, length: u32)
    requires length < 64 - index
    ensures NoWrap(index, length)
  {
  }

  lemma SmallInput(index: nat, length: u32)
    requires index < 64 && length <= 64
    ensures NoWrap(index, length)
  {
  }

  lemma CountsMessage(n: nat, length: nat)
    ensures (8 * n % 0x1_0000_0000_0000_0000 + 8 * length) % 0x1_0000_0000_0000_0000 ==
            8 * (n + length) % 0x1_0000_0000_0000_0000
  {
    var q := 8 * n / 0x1_0000_0000_0000_0000;
    assert 8 * (n + length) == q * 0x1_0000_0000_0000_0000 + (8 * n % 0x1_0000_0000_0000_0000 + 8 * length);
    ModAdd(8 * n % 0x1_0000_0000_0000_0000 + 8 * length, q);
  }

  lemma ModAdd(x: nat, q: nat)
    ensures (q * 0x1_0000_0000_0000_0000 + x) % 0x1_0000_0000_0000_0000 == x % 0x1_0000_0000_0000_0000
  {
  }

  lemma PaddingIs(m: Bytes, padding: Bytes, padLen: nat)
    requires padding == [0x80] + seq(63, _ => 0)
    requires var index := |m| % 64; padLen == if index < 56 then 56 - index else 120 - index
    ensures padLen <= 64 && m + padding[..padLen] + Memory(8 * |m| % 0x1_0000_0000_0000_0000, 8) == Padded(m)
  {
    hide Memory;
    PaddingLength(|m|);
    PaddingCut(m, padding, (55 - |m|) % 64);
  }

  lemma PaddingCut(m: Bytes, padding: Bytes, k: nat)
    requires padding == [0x80] + seq(63, _ => 0) && k < 64
    ensures m + padding[..k + 1] == m + [0x80] + seq(k, _ => 0)
  {
    assert padding[..k + 1] == [0x80] + seq(k, _ => 0);
  }

  lemma PaddingLength(n: nat)
    ensures var index := n % 64; (55 - n) % 64 + 1 == if index < 56 then 56 - index else 120 - index
  {
    ModNegative(n / 64, n % 64);
  }

  lemma ModNegative(q: nat, index: nat)
    requires index < 64
    ensures (55 - (q * 64 + index)) % 64 == if index < 56 then 55 - index else 119 - index
  {
  }

  lemma WholeBlocks(t: Transform, m: Bytes, w: Words, rest: Bytes)
    requires Folded(t, m, w, rest) && |m| % BLOCK == 0
    ensures w == Fold(t, m)
  {
    assert m[..|m|] == m;
  }

  /** Feeding a message in pieces gives the digest of the message. */
  method DigestInPieces(t: Transform, pieces: seq<Bytes>) returns (digest: Bytes)
    requires forall i :: 0 <= i < |pieces| ==>
               |pieces[i]| < 0x1_0000_0000 && NoWrap(|Concat(pieces[..i])| % BLOCK, |pieces[i]|)
    ensures digest == Digest(t, Concat(pieces))
  {
    hide Md5.Valid, Digest, Concat;
    var md5 := new Md5(t);
    assert pieces[..0] == [] && Concat([]) == [] by { ConcatNone(); }
    for i := 0 to |pieces|
      invariant md5.Valid() && !md5.finalized && md5.t == t && fresh(md5) && fresh(md5.buffer) &&
                md5.message == Concat(pieces[..i])
    {
      assert pieces[..i + 1] == pieces[..i] + [pieces[i]];
      ConcatSnoc(pieces[..i], pieces[i]);
      var ok := md5.Update(pieces[i]);
    }
    assert pieces[..|pieces|] == pieces;
    md5.Finalize();
    digest := md5.digest;
  }

  /** The initial words as bytes: 01 23 45 67 89 ab cd ef fe dc ba 98 76 54 32 10. */
  lemma InitMeans()
    ensures EncodeWords(INIT) == [0x01, 0x23, 0x45, 0x67, 0x89, 0xab, 0xcd, 0xef,
                                  0xfe, 0xdc, 0xba, 0x98, 0x76, 0x54, 0x32, 0x10]
  {
    hide EncodeWords, LittleEndian;
    WordsMean(INIT);
    BytesOf(0x67452301, 0x01, 0x23, 0x45, 0x67);
    BytesOf(0xefcdab89, 0x89, 0xab, 0xcd, 0xef);
    BytesOf(0x98badcfe, 0xfe, 0xdc, 0xba, 0x98);
    BytesOf(0x10325476, 0x76, 0x54, 0x32, 0x10);
  }

  lemma BytesOf(x: u32, a: byte, b: byte, c: byte, d: byte)
    requires x == 0x100_0000 * d + 0x1_0000 * c + 0x100 * b + a
    ensures LittleEndian(x) == [a, b, c, d]
  {
    Digits4(x, d, c, b, a);
  }

  /** The least significant byte first. */
  function LittleEndian(x: u32): (r: Bytes) {
    [x % 0x100, x / 0x100 % 0x100, x / 0x1_0000 % 0x100, x / 0x100_0000]
  }

  /** The digest is the four words in order. */
  lemma WordsMean(w: Words)
    ensures EncodeWords(w) == LittleEndian(w.a) + LittleEndian(w.b) + LittleEndian(w.c) + LittleEndian(w.d)
  {
    hide Memory;
    Memory4(w.a);
    Memory4(w.b);
    Memory4(w.c);
    Memory4(w.d);
  }
}
