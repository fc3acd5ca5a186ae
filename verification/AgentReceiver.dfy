/**
 CAgentReceiver: packets put together from a stream that arrives in arbitrary pieces, and CAgentMultiRequest's walk over
 what it delivers.
 */
module AgentReceiver {
  import opened ByteText
  import opened KeyBytes

  const HEADER: nat := 12
  const MAGIC: nat := 0xFDFC
  const MAXPACKETSIZE: nat := 0x400_0000
  const INIT_BUFF_SIZE: nat := 4096

  function Magic(s: Bytes): (r: nat)
    requires |s| >= HEADER
  {
    (s[0] as int) * 0x100 + s[1]
  }

  /** The length field, in network byte order. */
  function BodyLen(s: Bytes): (r: nat)
    requires |s| >= HEADER
  {
    (s[4] as int) * 0x100_0000 + (s[5] as int) * 0x1_0000 + (s[6] as int) * 0x100 + s[7]
  }

  /** DecodeHeader; a length of 2^31 or more is negative in the source's int, and refused like one that is too large. */
  function DecodeHeader(s: Bytes): (r: int)
    requires |s| >= HEADER
    ensures r == -1 || r == BodyLen(s) <= MAXPACKETSIZE
  {
    if Magic(s) != MAGIC || BodyLen(s) > MAXPACKETSIZE then -1 else BodyLen(s)
  }

  /** The length of the packet at the start: 0 if it is not complete, -1 if its header is refused. */
  function FrameLen(s: Bytes): (n: int)
    ensures n == -1 || n == 0 || HEADER <= n <= |s|
  {
    if |s| < HEADER then 0
    else
      var n := DecodeHeader(s);
      if n == -1 then -1 else if |s| < HEADER + n then 0 else HEADER + n
  }

  /** The header and the packet do not depend on what follows. */
  lemma FrameStable(s: Bytes, t: Bytes)
    ensures FrameLen(s) != 0 ==> FrameLen(s + t) == FrameLen(s)
    ensures FrameLen(s) > 0 ==> FrameLen(s[..FrameLen(s)] + t) == FrameLen(s)
  {
    if |s| >= HEADER {
      assert (s + t)[0] == s[0] && (s + t)[1] == s[1] && (s + t)[4] == s[4] && (s + t)[5] == s[5] &&
             (s + t)[6] == s[6] && (s + t)[7] == s[7];
      if FrameLen(s) > 0 {
        var u := s[..FrameLen(s)] + t;
        assert u[0] == s[0] && u[1] == s[1] && u[4] == s[4] && u[5] == s[5] && u[6] == s[6] && u[7] == s[7];
      }
    }
  }

  /** The complete packets of a stream and the bytes after them, unless a header is refused. */
  datatype Walk = Bad | Ok(packets: seq<Bytes>, rest: Bytes)

  function WalkOf(s: Bytes): (w: Walk) {
    hide FrameLen;
    var n := FrameLen(s);
    if n == -1 then Bad else if n == 0 then Ok([], s) else Prepend([s[..n]], WalkOf(s[n..]))
  }

  /** Nothing is lost: the packets and the bytes after them make up the stream. */
  lemma {:induction false} WalkText(s: Bytes)
    requires WalkOf(s).Ok?
    ensures Concat(WalkOf(s).packets) + WalkOf(s).rest == s
    decreases |s|
  {
    hide FrameLen, Concat, WalkOf, Prepend;
    var n := FrameLen(s);
    WalkUnfold(s);
    ConcatNone();
    if n > 0 {
      var w := WalkOf(s[n..]);
      PrependParts([s[..n]], w);
      WalkText(s[n..]);
      ConcatCons(s[..n], w.packets);
      assert s == s[..n] + s[n..];
    }
  }

  /** A walk that began with these packets. */
  function Prepend(done: seq<Bytes>, w: Walk): (r: Walk) {
    if w.Bad? then Bad else Ok(done + w.packets, w.rest)
  }

  lemma PrependTwice(a: seq<Bytes>, b: seq<Bytes>, w: Walk)
    ensures Prepend(a, Prepend(b, w)) == Prepend(a + b, w) && Prepend([], w) == w
  {
    if w.Ok? { assert a + (b + w.packets) == (a + b) + w.packets; }
  }

  /** A stream that goes on: the bytes left over are walked again together with what follows. */
  lemma {:induction false} WalkOn(s: Bytes, t: Bytes)
    requires WalkOf(s).Ok?
    ensures var w := WalkOf(s); WalkOf(s + t) == Prepend(w.packets, WalkOf(w.rest + t))
    decreases |s|
  {
    hide Concat, FrameLen, WalkOf, Prepend;
    var k := FrameLen(s);
    WalkUnfold(s);
    if k > 0 {
      FrameStable(s, t);
      PrependParts([s[..k]], WalkOf(s[k..]));
      WalkOn(s[k..], t);
      WalkUnfold(s + t);
      assert (s + t)[k..] == s[k..] + t && (s + t)[..k] == s[..k];
      var w := WalkOf(s[k..]);
      PrependTwice([s[..k]], w.packets, WalkOf(w.rest + t));
    } else {
      PrependTwice([], [], WalkOf(s + t));
    }
  }

  lemma PrependParts(done: seq<Bytes>, w: Walk)
    ensures w.Ok? <==> Prepend(done, w).Ok?
    ensures w.Ok? ==> Prepend(done, w).packets == done + w.packets && Prepend(done, w).rest == w.rest
  {
  }

  /** A refused header stays refused. */
  lemma {:induction false} WalkBad(s: Bytes, t: Bytes)
    requires WalkOf(s).Bad?
    ensures WalkOf(s + t).Bad?
    decreases |s|
  {
    hide Concat, FrameLen;
    FrameStable(s, t);
    var k := FrameLen(s);
    if k > 0 {
      WalkBad(s[k..], t);
      assert (s + t)[k..] == s[k..] + t;
    }
  }

  /** The bytes of the complete packets are walked to exactly their end, and those left over hold none. */
  lemma {:induction false} WalkDelivered(s: Bytes)
    requires WalkOf(s).Ok?
    ensures var w := WalkOf(s); WalkOf(Concat(w.packets)) == Ok(w.packets, []) && WalkOf(w.rest) == Ok([], w.rest)
    decreases |s|
  {
    hide Concat, FrameLen;
    ConcatNone();
    NoFrame();
    var k := FrameLen(s);
    if k > 0 {
      WalkDelivered(s[k..]);
      var w := WalkOf(s[k..]);
      var d := s[..k] + Concat(w.packets);
      ConcatCons(s[..k], w.packets);
      FrameStable(s, Concat(w.packets));
      assert d[k..] == Concat(w.packets) && d[..k] == s[..k];
    }
  }

  lemma NoFrame()
    ensures FrameLen([]) == 0
  {
  }

  // ---- what a sender writes ----

  /** 0xFD, 0xFC, two bytes, the length of the body most significant byte first, four bytes, and the body. */
  ghost predicate IsFrame(f: Bytes) {
    12 <= |f| <= 12 + 0x400_0000 && f[0] == 0xFD && f[1] == 0xFC && LengthAt(f, |f| - 12)
  }

  ghost predicate LengthAt(f: Bytes, n: nat) {
    |f| >= 12 && n < 0x1_0000_0000 &&
    f[4] == n / 0x100_0000 && f[5] == n / 0x1_0000 % 0x100 && f[6] == n / 0x100 % 0x100 && f[7] == n % 0x100
  }

  ghost predicate AllFrames(fs: seq<Bytes>) {
    forall i :: 0 <= i < |fs| ==> IsFrame(fs[i])
  }

  /** Less than a header, or a proper prefix of a frame. */
  ghost predicate Unfinished(t: Bytes) {
    |t| < 12 || exists f :: IsFrame(f) && |t| < |f| && f[..|t|] == t
  }

  /** A stream of frames and the beginning of one more. */
  ghost predicate Framed(s: Bytes, fs: seq<Bytes>, t: Bytes) {
    AllFrames(fs) && Unfinished(t) && s == Concat(fs) + t
  }

  lemma LengthMeans(s: Bytes, n: nat)
    requires |s| >= 12
    ensures LengthAt(s, n) <==> n == BodyLen(s)
  {
    if LengthAt(s, n) { SplitDigits(n, s[4], s[5], s[6], s[7]); }
    Digits4(BodyLen(s), s[4], s[5], s[6], s[7]);
  }

  /** A header is refused exactly if it does not begin with 0xFD, 0xFC or announces more than 2^26 bytes. */
  lemma RefusedExactly(s: Bytes)
    requires |s| >= 12
    ensures FrameLen(s) == -1 <==>
            s[0] != 0xFD || s[1] != 0xFC || exists n: nat :: n > 0x400_0000 && LengthAt(s, n)
  {
    hide LengthAt;
    forall n: nat
      ensures LengthAt(s, n) <==> n == BodyLen(s)
    {
      LengthMeans(s, n);
    }
    assert LengthAt(s, BodyLen(s));
    assert Magic(s) == MAGIC <==> s[0] == 0xFD && s[1] == 0xFC;
  }

  lemma FrameFirst(f: Bytes, x: Bytes)
    requires IsFrame(f)
    ensures FrameLen(f + x) == |f| > 0
  {
    hide LengthAt;
    LengthMeans(f, |f| - 12);
    FrameStable(f, x);
  }

  lemma FirstFrame(s: Bytes)
    requires FrameLen(s) > 0
    ensures IsFrame(s[..FrameLen(s)])
  {
    hide LengthAt, BodyLen;
    var f := s[..FrameLen(s)];
    FrameStable(s, []);
    assert f + [] == f;
    LengthMeans(f, |f| - 12);
  }

  lemma FrameBegun(s: Bytes)
    ensures FrameLen(s) == 0 <==> Unfinished(s)
  {
    hide LengthAt, BodyLen, FrameLen;
    if |s| >= 12 {
      FrameIs(s);
      var n := BodyLen(s);
      var f := s + seq(if 12 + n > |s| then 12 + n - |s| else 0, _ => 0);
      if FrameLen(s) == 0 {
        SameHeader(s, f);
        LengthMeans(f, n);
        assert f[..|s|] == s && IsFrame(f);
      }
      if Unfinished(s) {
        var g :| IsFrame(g) && |s| < |g| && g[..|s|] == s;
        SameHeader(s, g);
        LengthMeans(g, |g| - 12);
      }
    } else {
      FrameIs(s);
    }
  }

  lemma SameHeader(s: Bytes, f: Bytes)
    requires 12 <= |s| <= |f| && f[..|s|] == s
    ensures Magic(f) == Magic(s) && BodyLen(f) == BodyLen(s)
  {
    assert s[0] == f[0] && s[1] == f[1] && s[4] == f[4] && s[5] == f[5] && s[6] == f[6] && s[7] == f[7];
  }

  /** A stream of frames without its first one. */
  lemma FramedNext(s: Bytes, fs: seq<Bytes>, t: Bytes)
    requires fs != []
    ensures Framed(s, fs, t) <==>
            var n := FrameLen(s); n > 0 && s[..n] == fs[0] && Framed(s[n..], fs[1..], t)
  {
    hide FrameLen, Concat, IsFrame, Unfinished;
    var x := Concat(fs[1..]) + t;
    assert fs == [fs[0]] + fs[1..];
    ConcatCons(fs[0], fs[1..]);
    assert Concat(fs) + t == fs[0] + x;
    var n := FrameLen(s);
    if Framed(s, fs, t) {
      FrameFirst(fs[0], x);
      assert n == |fs[0]| && s == fs[0] + x;
      assert s[n..] == x && s[..n] == fs[0];
      assert AllFrames(fs[1..]);
    } else if n > 0 && s[..n] == fs[0] && Framed(s[n..], fs[1..], t) {
      FirstFrame(s);
      assert s == s[..n] + s[n..];
      forall i | 0 <= i < |fs|
        ensures IsFrame(fs[i])
      {
        if i > 0 { assert fs[i] == fs[1..][i - 1]; }
      }
    }
  }

  lemma FramedNone(s: Bytes, t: Bytes)
    ensures Framed(s, [], t) <==> FrameLen(s) == 0 && s == t
  {
    hide FrameLen, IsFrame, Unfinished;
    FrameBegun(s);
    assert [] + t == t;
  }

  /** The walk finds exactly the frames that were written and what is left of one more. */
  lemma {:induction false} WalkMeans(s: Bytes, fs: seq<Bytes>, t: Bytes)
    ensures WalkOf(s) == Ok(fs, t) <==> Framed(s, fs, t)
    decreases |s|
  {
    hide FrameLen, WalkOf, Framed;
    var n := FrameLen(s);
    WalkUnfold(s);
    if fs == [] {
      FramedNone(s, t);
    } else {
      FramedNext(s, fs, t);
      if n > 0 {
        WalkMeans(s[n..], fs[1..], t);
        assert fs == [fs[0]] + fs[1..];
      }
    }
  }

  /** A stream is refused exactly if it is none of frames. */
  lemma BadMeans(s: Bytes)
    ensures WalkOf(s).Bad? <==> forall fs, t :: !Framed(s, fs, t)
    ensures WalkOf(s).Ok? ==> Framed(s, WalkOf(s).packets, WalkOf(s).rest)
  {
    hide WalkOf, Framed;
    if WalkOf(s).Ok? { WalkMeans(s, WalkOf(s).packets, WalkOf(s).rest); }
    forall fs, t
      ensures WalkOf(s) == Ok(fs, t) <==> Framed(s, fs, t)
    {
      WalkMeans(s, fs, t);
    }
  }

  /** A frame alone is one packet. */
  lemma OneFrame(f: Bytes)
    requires IsFrame(f)
    ensures WalkOf(f) == Ok([f], [])
  {
    hide Concat, WalkOf, FrameLen, IsFrame;
    ConcatSnoc([], f);
    ConcatNone();
    assert [] + [f] == [f] && [] + f == f && f + [] == f;
    WalkMeans(f, [f], []);
  }

  /** A packet with a body of five bytes. */
  lemma FiveBytes(f: Bytes)
    requires f == [0xFD, 0xFC, 0, 1, 0, 0, 0, 5, 0, 0, 0, 0, 1, 2, 3, 4, 5]
    ensures WalkOf(f) == Ok([f], [])
  {
    hide WalkOf;
    assert |f| == 17 && f[0] == 0xFD && f[1] == 0xFC && f[4] == 0 && f[5] == 0 && f[6] == 0 && f[7] == 5;
    OneFrame(f);
  }

  // ---- the receiver ----

  /** What one call of Recv returns. */
  datatype Received = Received(buff: Bytes, pktCnt: nat, err: bool)

  class Receiver {
    var buffer: seq<byte>
    var offset: nat
    var pktTail: nat
    var pktCnt: nat
    ghost var received: Bytes
    ghost var packets: seq<Bytes>

    /** Packets delivered so far and the bytes kept are what a walk over the whole stream so far gives. */
    ghost predicate Valid()
      reads this
    {
      offset <= |buffer| && |buffer| > 0 && WalkOf(received) == Ok(packets, buffer[..offset])
    }

    constructor ()
      ensures Valid() && InStep() && received == [] && packets == []
    {
      buffer := seq(INIT_BUFF_SIZE, _ => 0);
      offset, pktTail, pktCnt := 0, 0, 0;
      received, packets := [], [];
      new;
      ValidInStep();
    }

    lemma ValidInStep()
      requires Valid()
      ensures InStep()
    {
      hide WalkOf, Continues;
      ContinuesFrom(packets, buffer[..offset], received);
    }

    /** RealRecv and RecvAgain: enlarges a full buffer, then takes up to `want` of the bytes that wait. */
    method RecvInto(pending: Bytes, want: nat) returns (n: nat)
      requires offset <= |buffer| && |buffer| > 0
      modifies this`buffer, this`offset
      ensures n <= |pending| && offset == old(offset) + n <= |buffer| && |buffer| > 0
      ensures buffer[..offset] == old(buffer[..offset]) + pending[..n]
    {
      if offset == |buffer| { buffer := buffer + seq(|buffer|, _ => 0); }
      var room := |buffer| - offset;
      n := if want < |pending| then want else |pending|;
      if n > room { n := room; }
      buffer := buffer[..offset] + pending[..n] + buffer[offset + n..];
      offset := offset + n;
      assert buffer[..offset] == old(buffer[..offset]) + pending[..n];
    }

    /** CountPacket; false for a refused header */
    method CountPacket() returns (ok: bool)
      requires offset <= |buffer|
      modifies this`pktCnt, this`pktTail
      ensures ok <==> WalkOf(buffer[..offset]).Ok?
      ensures ok <==> exists fs, t :: Framed(buffer[..offset], fs, t)
      ensures ok && offset > 0 ==>
        var w := WalkOf(buffer[..offset]);
          Framed(buffer[..offset], w.packets, w.rest) &&
          pktCnt == |w.packets| && pktTail <= offset && buffer[..pktTail] == Concat(w.packets)
      ensures offset == 0 ==> pktCnt == 0
    {
      hide FrameLen, Concat, WalkOf, Framed;
      pktCnt := 0;
      ghost var all := buffer[..offset];
      BadMeans(all);
      if offset == 0 {
        Delivered0([]);
        assert all == [];
        return true;
      }
      var pos, left := 0, offset;
      ghost var done: seq<Bytes> := [];
      WalkStarts(all);
      while true
        invariant 0 <= pos <= offset && left == offset - pos && pktCnt == |done| && all[..pos] == Concat(done)
        invariant Walking(all, pos, done)
        decreases left
      {
        ghost var rest := all[pos..];
        WalkNext(all, pos, done);
        assert buffer[pos..offset] == rest;
        FrameIs(rest);
        if left < HEADER { break; }
        var n := DecodeHeader(buffer[pos..offset]);
        if n < 0 { return false; }
        if left < HEADER + n { break; }
        done := done + [rest[..HEADER + n]];
        pos, left := pos + HEADER + n, left - (HEADER + n);
        pktCnt := pktCnt + 1;
      }
      pktTail := pos;
      ok := true;
      assert buffer[..pos] == all[..pos];
    }

    /** SetRecvedInfo: hands the complete packets over and keeps the rest in a new buffer. */
    method SetRecvedInfo() returns (r: Received)
      requires offset <= |buffer| && |buffer| > 0
      modifies this`buffer, this`offset, this`pktCnt, this`pktTail
      ensures r.err <==> WalkOf(old(buffer[..offset])).Bad?
      ensures r.err ==> buffer == old(buffer) && offset == old(offset)
      ensures !r.err ==> offset <= |buffer| && |buffer| > 0 && var w := WalkOf(old(buffer[..offset]));
                         r.buff == Concat(w.packets) && r.pktCnt == |w.packets| && buffer[..offset] == w.rest
    {
      hide WalkOf, Concat, Framed;
      ghost var all := buffer[..offset];
      var ok := CountPacket();
      if !ok { return Received([], 0, true); }
      WalkNothing(all);
      if pktCnt == 0 { return Received([], 0, false); }
      var tmp := buffer[pktTail..offset] + seq(|buffer| - (offset - pktTail), _ => 0);
      r := Received(buffer[..pktTail], pktCnt, false);
      ghost var w := WalkOf(all);
      WalkParts(all);
      buffer := tmp;
      offset := offset - pktTail;
    }

    /**
     What holds after every call, failed ones included: nothing is lost, and walking on over the bytes kept gives what
     walking the whole stream gives, whatever follows.
     */
    ghost predicate InStep()
      reads this
    {
      offset <= |buffer| && |buffer| > 0 && Continues(packets, buffer[..offset], received)
    }

    /** Recv: up to two system calls, of which either may fail, then the packets that are complete. */
    method Recv(pending: Bytes, want1: nat, want2: nat, fail1: bool, fail2: bool) returns (r: Received, n: nat)
      requires InStep()
      modifies this
      ensures n <= |pending| && received == old(received) + pending[..n] && InStep()
      ensures r.err ==>
        packets == old(packets) && (fail1 || fail2 || forall more: Bytes :: WalkOf(received + more).Bad?)
      ensures !r.err ==> WalkOf(r.buff).Ok? && var w := WalkOf(r.buff);
                         w.rest == [] && |w.packets| == r.pktCnt && packets == old(packets) + w.packets
      ensures !r.err && (n > 0 || old(Valid())) ==> Valid() && Framed(received, packets, buffer[..offset])
      ensures r.err && !fail1 && !fail2 ==> forall more, fs, t :: !Framed(received + more, fs, t)
      ensures WalkOf(received).Bad? && (n > 0 || old(Valid())) ==> r.err
    {
      hide WalkOf, Concat, Continues, Framed;
      n := 0;
      assert received + pending[..0] == received;
      ghost var kept := buffer[..offset];
      if fail1 { return Received([], 0, true), 0; }
      n := RecvInto(pending, want1);
      if n == 0 {
        Delivered0(packets);
        assert kept + pending[..0] == kept && buffer[..offset] == kept;
        if old(Valid()) { WalkMeans(received, packets, buffer[..offset]); }
        return Received([], 0, false), 0;
      }
      if offset == |buffer| && fail2 {
        ContinuesOn(packets, kept, received, pending[..n]);
        received := received + pending[..n];
        return Received([], 0, true), n;
      }
      if offset == |buffer| {
        var k := RecvInto(pending[n..], want2);
        assert pending[..n] + pending[n..][..k] == pending[..n + k];
        n := n + k;
      }
      assert buffer[..offset] == kept + pending[..n];
      r := Deliver(kept, pending[..n]);
    }

    /** The end of Recv, with the bytes `more` appended to those kept. */
    method Deliver(ghost kept: Bytes, ghost more: Bytes) returns (r: Received)
      requires offset <= |buffer| && |buffer| > 0 && buffer[..offset] == kept + more &&
               Continues(packets, kept, received)
      modifies this
      ensures received == old(received) + more && InStep() && (r.err ==> packets == old(packets))
      ensures r.err <==> WalkOf(received).Bad?
      ensures r.err ==> forall x: Bytes :: WalkOf(received + x).Bad?
      ensures r.err ==> forall x, fs, t :: !Framed(received + x, fs, t)
      ensures !r.err ==> Framed(received, packets, buffer[..offset])
      ensures !r.err ==> Valid() && WalkOf(r.buff).Ok? && var w := WalkOf(r.buff);
                         w.rest == [] && |w.packets| == r.pktCnt && packets == old(packets) + w.packets
    {
      hide WalkOf, Concat, Continues, Framed;
      ContinuesOn(packets, kept, received, more);
      r := SetRecvedInfo();
      received := received + more;
      ContinuesHere(packets, kept + more, received);
      if r.err {
        forall x: Bytes
          ensures WalkOf(received + x).Bad? && forall fs, t :: !Framed(received + x, fs, t)
        {
          WalkBad(received, x);
          BadMeans(received + x);
        }
      } else {
        ghost var w := WalkOf(kept + more);
        WalkDelivered(kept + more);
        ContinuesPast(packets, kept + more, received);
        packets := packets + w.packets;
        WalkMeans(received, packets, buffer[..offset]);
      }
    }
  }

  /** The stream is these packets and the bytes kept, and goes on as those do. */
  ghost predicate Continues(packets: seq<Bytes>, kept: Bytes, received: Bytes) {
    Concat(packets) + kept == received &&
    forall more: Bytes :: WalkOf(received + more) == Prepend(packets, WalkOf(kept + more))
  }

  lemma ContinuesFrom(packets: seq<Bytes>, kept: Bytes, received: Bytes)
    requires WalkOf(received) == Ok(packets, kept)
    ensures Continues(packets, kept, received)
  {
    hide WalkOf, Concat, Prepend;
    WalkText(received);
    forall more: Bytes
      ensures WalkOf(received + more) == Prepend(packets, WalkOf(kept + more))
    {
      WalkOn(received, more);
    }
  }

  lemma ContinuesOn(packets: seq<Bytes>, kept: Bytes, received: Bytes, more: Bytes)
    requires Continues(packets, kept, received)
    ensures Continues(packets, kept + more, received + more)
  {
    hide WalkOf, Concat, Prepend;
    Joined(packets, kept, more);
    forall x: Bytes
      ensures WalkOf((received + more) + x) == Prepend(packets, WalkOf((kept + more) + x))
    {
      assert (received + more) + x == received + (more + x) && (kept + more) + x == kept + (more + x);
    }
  }

  /** What the walk over the whole stream gives. */
  lemma ContinuesHere(packets: seq<Bytes>, kept: Bytes, received: Bytes)
    requires Continues(packets, kept, received)
    ensures WalkOf(received) == Prepend(packets, WalkOf(kept)) && (WalkOf(received).Bad? <==> WalkOf(kept).Bad?)
    ensures WalkOf(kept).Ok? ==> WalkOf(received) == Ok(packets + WalkOf(kept).packets, WalkOf(kept).rest)
  {
    hide WalkOf, Concat;
    assert received + [] == received && kept + [] == kept;
  }

  /** Past the complete packets among the bytes kept. */
  lemma ContinuesPast(packets: seq<Bytes>, kept: Bytes, received: Bytes)
    requires Continues(packets, kept, received) && WalkOf(kept).Ok?
    ensures var w := WalkOf(kept); Continues(packets + w.packets, w.rest, received)
  {
    hide WalkOf, Concat, Prepend;
    var w := WalkOf(kept);
    WalkText(kept);
    ConcatPlus(packets, w.packets);
    assert Concat(packets + w.packets) + w.rest == received;
    forall x: Bytes
      ensures WalkOf(received + x) == Prepend(packets + w.packets, WalkOf(w.rest + x))
    {
      WalkOn(kept, x);
      PrependTwice(packets, w.packets, WalkOf(w.rest + x));
    }
  }

  lemma Joined(packets: seq<Bytes>, kept: Bytes, more: Bytes)
    ensures (Concat(packets) + kept) + more == Concat(packets) + (kept + more)
  {
  }

  /** The walk over `all` has passed the packets `done` and come to `pos`. */
  ghost predicate Walking(all: Bytes, pos: nat, done: seq<Bytes>) {
    pos <= |all| && all[..pos] == Concat(done) &&
    WalkOf(all) == Prepend(done, WalkOf(all[pos..]))
  }

  lemma WalkStarts(all: Bytes)
    ensures Walking(all, 0, [])
  {
    hide WalkOf;
    assert all[0..] == all;
    PrependTwice([], [], WalkOf(all));
  }

  lemma FrameIs(s: Bytes)
    ensures |s| < HEADER ==> FrameLen(s) == 0
    ensures |s| >= HEADER ==>
      FrameLen(s) == (var n := DecodeHeader(s); if n == -1 then -1 else if |s| < HEADER + n then 0 else HEADER + n)
  {
  }

  lemma WalkNext(all: Bytes, pos: nat, done: seq<Bytes>)
    requires Walking(all, pos, done)
    ensures var n := FrameLen(all[pos..]);
      if n == -1 then WalkOf(all).Bad?
      else if n == 0 then WalkOf(all) == Ok(done, all[pos..])
      else pos + n <= |all| && all[pos..pos + n] == all[pos..][..n] && Walking(all, pos + n, done + [all[pos..][..n]])
  {
    hide *;
    WalkEnds(all, pos, done);
    if FrameLen(all[pos..]) > 0 { WalkGoesOn(all, pos, done, FrameLen(all[pos..])); }
  }

  lemma WalkEnds(all: Bytes, pos: nat, done: seq<Bytes>)
    requires Walking(all, pos, done)
    ensures pos <= |all|
    ensures FrameLen(all[pos..]) == -1 ==> WalkOf(all).Bad?
    ensures FrameLen(all[pos..]) == 0 ==> WalkOf(all) == Ok(done, all[pos..])
  {
    hide FrameLen, Concat, WalkOf;
    WalkUnfold(all[pos..]);
    assert done + [] == done;
  }

  lemma WalkGoesOn(all: Bytes, pos: nat, done: seq<Bytes>, n: nat)
    requires Walking(all, pos, done) && n == FrameLen(all[pos..]) > 0
    ensures pos + n <= |all| && all[pos..pos + n] == all[pos..][..n] && Walking(all, pos + n, done + [all[pos..][..n]])
  {
    hide FrameLen, Concat, WalkOf, Prepend;
    WalkUnfold(all[pos..]);
    SliceOn(all, pos, n);
    WalkPast(all, pos, done, n, all[pos..][..n], all[pos..][n..]);
  }

  lemma WalkPast(all: Bytes, pos: nat, done: seq<Bytes>, n: nat, packet: Bytes, tail: Bytes)
    requires pos + n <= |all| && all[..pos + n] == all[..pos] + packet && tail == all[pos + n..]
    requires all[..pos] == Concat(done) && WalkOf(all) == Prepend(done, Prepend([packet], WalkOf(tail)))
    ensures Walking(all, pos + n, done + [packet])
  {
    hide Concat, WalkOf, Prepend;
    ConcatSnoc(done, packet);
    PrependTwice(done, [packet], WalkOf(tail));
  }

  lemma WalkUnfold(s: Bytes)
    ensures var n := FrameLen(s);
      WalkOf(s) == if n == -1 then Bad else if n == 0 then Ok([], s) else Prepend([s[..n]], WalkOf(s[n..]))
  {
    hide FrameLen, Concat;
  }

  lemma SliceOn(all: Bytes, pos: nat, n: nat)
    requires pos + n <= |all|
    ensures all[pos..][n..] == all[pos + n..] && all[pos..][..n] == all[pos..pos + n] &&
            all[..pos + n] == all[..pos] + all[pos..pos + n]
  {
  }

  lemma WalkNothing(s: Bytes)
    requires WalkOf(s).Ok?
    ensures WalkOf(s).packets == [] ==> WalkOf(s).rest == s && Concat([]) == []
    ensures s == [] ==> WalkOf(s).packets == []
  {
    ConcatNone();
    WalkText(s);
    assert [] + WalkOf(s).rest == WalkOf(s).rest;
  }

  lemma WalkParts(s: Bytes)
    requires WalkOf(s).Ok?
    ensures var w := WalkOf(s); var k := |Concat(w.packets)|;
      k <= |s| && s[..k] == Concat(w.packets) && s[k..] == w.rest
  {
    hide Concat;
    WalkText(s);
  }

  lemma Delivered0(packets: seq<Bytes>)
    ensures WalkOf([]) == Ok([], []) && packets + [] == packets
  {
  }

  /**
   DecodeAgentRequest over a delivered buffer: one task for each packet, and the cursor ends where the buffer does.
   */
  method DecodeAgentRequest(buff: Bytes, packetCnt: nat) returns (ok: bool, tasks: seq<Bytes>, cursor: nat)
    requires WalkOf(buff).Ok? && WalkOf(buff).rest == [] && packetCnt == |WalkOf(buff).packets|
    ensures ok && tasks == WalkOf(buff).packets && cursor == |buff| && Framed(buff, tasks, [])
  {
    hide Concat, WalkOf, FrameLen, Framed;
    WalkMeans(buff, WalkOf(buff).packets, []);
    tasks, cursor := [], 0;
    WalkStarts(buff);
    for i := 0 to packetCnt
      invariant cursor <= |buff| && Walking(buff, cursor, tasks) && |tasks| == i
    {
      WalkNext(buff, cursor, tasks);
      FrameIs(buff[cursor..]);
      var packetlen := BodyLen(buff[cursor..]) + HEADER;
      if packetlen < 2 || packetlen > |buff| - cursor { return false, tasks, cursor; }
      tasks := tasks + [buff[cursor..cursor + packetlen]];
      cursor := cursor + packetlen;
    }
    WalkComplete(buff, cursor, tasks);
    ok := true;
  }

  lemma WalkComplete(all: Bytes, pos: nat, done: seq<Bytes>)
    requires Walking(all, pos, done) && WalkOf(all).Ok? && WalkOf(all).rest == [] && |done| == |WalkOf(all).packets|
    ensures done == WalkOf(all).packets && pos == |all|
  {
    hide WalkOf;
    var v := WalkOf(all[pos..]);
    assert v.packets == [] && done + [] == done;
    WalkText(all);
    assert Concat(done) + [] == Concat(done);
  }
}
