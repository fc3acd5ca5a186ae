/**
 CAgentSender: packets queued for a socket that may take any part of them at a time.
 */
module AgentSender {
  import opened ByteText

  /** A packet's vectors and how many of them have been sent. */
  datatype Packet = Packet(vecs: seq<Bytes>, sendedVecCount: nat) {
    /** A packet as the server encodes it: one vector, which is not empty since it begins with a header. */
    ghost predicate Fresh() { |vecs| == 1 && vecs[0] != [] && sendedVecCount == 0 }
  }

  /**
   What a vector array still holds after n bytes of it have gone: the whole vectors among them, and the part of the
   next.
   */
  ghost predicate Drained(vec: seq<Bytes>, n: nat, cursor: nat, sd: nat) {
    cursor <= |vec| && n == |Concat(vec[..cursor])| + sd && (sd > 0 ==> cursor < |vec| && sd < |vec[cursor]|)
  }

  /** The vectors after `cursor` of them and `sd` bytes of the next have gone. */
  function Left(vec: seq<Bytes>, cursor: nat, sd: nat): (r: seq<Bytes>)
    requires cursor <= |vec| && (sd > 0 ==> cursor < |vec| && sd < |vec[cursor]|)
  {
    if sd == 0 then vec[cursor..] else [vec[cursor][sd..]] + vec[cursor + 1..]
  }

  lemma LeftText(vec: seq<Bytes>, n: nat, cursor: nat, sd: nat)
    requires Drained(vec, n, cursor, sd)
    ensures n <= |Concat(vec)| && Concat(Left(vec, cursor, sd)) == Concat(vec)[n..]
  {
    hide Concat;
    var a, b := vec[..cursor], vec[cursor..];
    assert vec == a + b;
    ConcatPlus(a, b);
    if sd > 0 {
      var v, c := vec[cursor], vec[cursor + 1..];
      assert b == [v] + c;
      ConcatCons(v, c);
      ConcatCons(v[sd..], c);
      assert Concat(vec)[n..] == v[sd..] + Concat(c);
    }
  }

  lemma {:induction false} ConcatLonger(ws: seq<Bytes>, k: nat)
    requires k <= |ws|
    ensures |Concat(ws[..k])| <= |Concat(ws)| &&
            (k < |ws| ==> |Concat(ws[..k + 1])| == |Concat(ws[..k])| + |ws[k]| <= |Concat(ws)|)
  {
    hide Concat;
    ConcatPlus(ws[..k], ws[k..]);
    assert ws == ws[..k] + ws[k..];
    if k < |ws| {
      assert ws[..k + 1] == ws[..k] + [ws[k]];
      ConcatSnoc(ws[..k], ws[k]);
      ConcatPlus(ws[..k + 1], ws[k + 1..]);
      assert ws == ws[..k + 1] + ws[k + 1..];
    }
  }

  class Sender {
    var vec: seq<Bytes>
    var totalVec: nat
    var packet: seq<Packet>
    var totalPacket: nat
    var totalLen: nat
    var sended: nat
    var leftLen: nat
    var broken: bool
    ghost var added: seq<Bytes>
    ghost var sent: Bytes
    ghost var released: nat

    ghost predicate Valid()
      reads this
    {
      0 < totalVec && |vec| <= totalVec && 0 < totalPacket && |packet| <= totalPacket && leftLen == |Concat(vec)| &&
      Balanced(vec, packet, added, sent, released)
    }

    constructor ()
      ensures Valid() && added == [] && sent == [] && released == 0 && !broken
    {
      vec, totalVec, packet, totalPacket := [], 1024, [], 512;
      totalLen, sended, leftLen, broken := 0, 0, 0, false;
      added, sent, released := [], [], 0;
    }

    /** AddPacket; `alloc` says whether a needed enlargement gets memory */
    method AddPacket(pkt: Packet, alloc: bool) returns (ok: bool)
      requires Valid() && !broken && pkt.Fresh()
      modifies this
      ensures ok == !broken && (!ok ==> !alloc) && sent == old(sent) && released == old(released)
      ensures ok ==> Valid() && added == old(added) + pkt.vecs
      ensures !ok ==> added == old(added)
    {
      hide Concat, Balanced;
      QueuedLast(vec, packet, added, sent, released, pkt);
      if |vec| == totalVec {
        if !alloc {
          broken := true;
          return false;
        }
        totalVec := totalVec * 2;
      }
      if |packet| == totalPacket {
        if !alloc {
          broken := true;
          return false;
        }
        totalPacket := totalPacket * 2;
      }
      vec := vec + [pkt.vecs[0]];
      packet := packet + [pkt];
      leftLen := leftLen + |pkt.vecs[0]|;
      added := added + pkt.vecs;
      ok := true;
    }

    /** The loop of Send over the vectors that have gone completely; each completes its packet, which is released. */
    method Pass(n: nat) returns (cursor: nat, pcursor: nat, sd: nat)
      requires Balanced(vec, packet, added, sent, released) && n <= |Concat(vec)|
      modifies this`packet
      ensures Drained(vec, n, cursor, sd) && pcursor == cursor && |packet| == |old(packet)| &&
              packet[cursor..] == old(packet)[cursor..]
    {
      hide Concat;
      cursor, pcursor, sd := 0, 0, n;
      assert vec[..0] == [];
      ConcatNone();
      while cursor < |vec| && sd >= |vec[cursor]|
        invariant cursor == pcursor <= |vec| == |packet| == |old(packet)| && n == |Concat(vec[..cursor])| + sd
        invariant packet[cursor..] == old(packet)[cursor..]
        decreases |vec| - cursor
      {
        ConcatLonger(vec, cursor);
        sd := sd - |vec[cursor]|;
        assert packet[pcursor] == packet[cursor..][0] == old(packet)[cursor];
        packet := packet[pcursor := packet[pcursor].(sendedVecCount := packet[pcursor].sendedVecCount + 1)];
        if packet[pcursor].sendedVecCount == |packet[pcursor].vecs| { pcursor := pcursor + 1; }
        cursor := cursor + 1;
        assert packet[cursor..] == old(packet)[cursor..];
      }
      if cursor == |vec| { assert vec[..cursor] == vec; }
    }

    /** Send; `result` is what sendmsg returns, at most the bytes it is given, and `retry` whether an error may pass. */
    method Send(result: int, retry: bool) returns (ok: bool)
      requires Valid() && !broken && result <= leftLen
      modifies this
      ensures Valid() && added == old(added) && ok == !broken && ok == !(old(leftLen) > 0 && result < 0 && !retry)
      ensures var n := if old(leftLen) == 0 || result < 0 then 0 else result;
        n <= |old(Concat(vec))| && sent == old(sent) + old(Concat(vec))[..n]
      ensures leftLen == old(leftLen) - (if old(leftLen) == 0 || result < 0 then 0 else result)
    {
      hide Concat, Balanced, Left, Drained;
      ok := true;
      ghost var text := Concat(vec);
      assert sent + text[..0] == sent;
      if leftLen == 0 { return; }
      if result < 0 {
        if retry { return; }
        broken := true;
        return false;
      }
      totalLen, sended := leftLen, result;
      leftLen := leftLen - result;
      if result == 0 { return; }
      var cursor, pcursor, sd := Pass(result);
      SentOn(vec, old(packet), added, sent, released, result, cursor, sd);
      vec := Left(vec, cursor, sd);
      packet := packet[pcursor..];
      released := released + cursor;
      sent := sent + text[..result];
    }
  }

  /** A packet queued last. */
  lemma QueuedLast(vec: seq<Bytes>, packet: seq<Packet>, added: seq<Bytes>, sent: Bytes, released: nat, pkt: Packet)
    requires Balanced(vec, packet, added, sent, released) && pkt.Fresh()
    ensures Balanced(vec + [pkt.vecs[0]], packet + [pkt], added + pkt.vecs, sent, released)
    ensures |vec| == |packet| && |Concat(vec + [pkt.vecs[0]])| == |Concat(vec)| + |pkt.vecs[0]|
  {
    hide Concat, Queue;
    ConcatSnoc(vec, pkt.vecs[0]);
    ConcatSnoc(added, pkt.vecs[0]);
    assert pkt.vecs == [pkt.vecs[0]];
    QueueSnoc(vec, packet, added, released, pkt);
  }

  lemma QueueSnoc(vec: seq<Bytes>, packet: seq<Packet>, added: seq<Bytes>, released: nat, pkt: Packet)
    requires Queue(vec, packet, added, released) && pkt.Fresh()
    ensures |vec| == |packet| && Queue(vec + [pkt.vecs[0]], packet + [pkt], added + [pkt.vecs[0]], released)
  {
    hide IsSuffix;
    var v, p, a := vec + [pkt.vecs[0]], packet + [pkt], added + [pkt.vecs[0]];
    forall i | 0 <= i < |p|
      ensures p[i].Fresh() && p[i].vecs[0] == a[released + i] && v[i] != [] && (i > 0 ==> v[i] == a[released + i])
    {
      if i < |packet| { assert p[i] == packet[i] && v[i] == vec[i] && a[released + i] == added[released + i]; }
    }
    if vec == [] { SelfSuffix(pkt.vecs[0]); }
  }

  lemma SelfSuffix(a: Bytes)
    ensures IsSuffix(a, a)
  {
  }

  /** The first n bytes gone, which are the first `cursor` vectors and `sd` bytes of the next. */
  lemma SentOn(vec: seq<Bytes>, packet: seq<Packet>, added: seq<Bytes>, sent: Bytes, released: nat, n: nat, cursor: nat,
               sd: nat)
    requires Balanced(vec, packet, added, sent, released) && Drained(vec, n, cursor, sd)
    ensures cursor <= |vec| == |packet| && n <= |Concat(vec)| && (sd > 0 ==> cursor < |vec| && sd < |vec[cursor]|)
    ensures |Left(vec, cursor, sd)| == |vec| - cursor && |Concat(Left(vec, cursor, sd))| == |Concat(vec)| - n
    ensures Balanced(Left(vec, cursor, sd), packet[cursor..], added, sent + Concat(vec)[..n], released + cursor)
  {
    hide Concat, Queue, Left;
    LeftText(vec, n, cursor, sd);
    QueueLeft(vec, packet, added, released, cursor, sd);
    SentText(sent, Concat(vec), n);
  }

  lemma SentText(sent: Bytes, text: Bytes, n: nat)
    requires n <= |text|
    ensures (sent + text[..n]) + text[n..] == sent + text
  {
    assert text == text[..n] + text[n..];
  }

  lemma QueueLeft(vec: seq<Bytes>, packet: seq<Packet>, added: seq<Bytes>, released: nat, cursor: nat, sd: nat)
    requires Queue(vec, packet, added, released) && cursor <= |vec| && (sd > 0 ==> cursor < |vec| && sd < |vec[cursor]|)
    ensures |vec| == |packet| && |Left(vec, cursor, sd)| == |vec| - cursor &&
            Queue(Left(vec, cursor, sd), packet[cursor..], added, released + cursor)
  {
    var v, p := Left(vec, cursor, sd), packet[cursor..];
    forall i | 0 <= i < |p|
      ensures p[i].Fresh() && p[i].vecs[0] == added[released + cursor + i] && v[i] != [] &&
              (i > 0 ==> v[i] == added[released + cursor + i])
    {
      assert p[i] == packet[cursor + i];
      if i > 0 || sd == 0 { assert v[i] == vec[cursor + i]; }
    }
    if cursor < |vec| { FirstLeft(vec, added, released, cursor, sd); }
  }

  lemma FirstLeft(vec: seq<Bytes>, added: seq<Bytes>, released: nat, cursor: nat, sd: nat)
    requires cursor < |vec| <= |added| - released && sd < |vec[cursor]| &&
             IsSuffix(vec[cursor], added[released + cursor])
    ensures IsSuffix(Left(vec, cursor, sd)[0], added[released + cursor])
  {
    var a, v := added[released + cursor], vec[cursor];
    assert v[sd..] == a[|a| - |v| + sd..];
  }

  /** The packets released are exactly those whose last byte has gone. */
  lemma ReleasedExactly(vec: seq<Bytes>, packet: seq<Packet>, added: seq<Bytes>, released: nat, sent: Bytes, k: nat)
    requires Queue(vec, packet, added, released) && sent + Concat(vec) == Concat(added) && k < |added|
    ensures k < released <==> |Concat(added[..k + 1])| <= |sent|
  {
    hide Concat, Queue;
    SentIs(vec, packet, added, released, sent);
    if k < released { PrefixLonger(added, k + 1, released); } else { PrefixLonger(added, released + 1, k + 1); }
  }

  lemma PrefixLonger(ws: seq<Bytes>, i: nat, j: nat)
    requires i <= j <= |ws|
    ensures |Concat(ws[..i])| <= |Concat(ws[..j])|
  {
    ConcatLonger(ws[..j], i);
    assert ws[..j][..i] == ws[..i];
  }

  lemma SentIs(vec: seq<Bytes>, packet: seq<Packet>, added: seq<Bytes>, released: nat, sent: Bytes)
    requires Queue(vec, packet, added, released) && sent + Concat(vec) == Concat(added)
    ensures released <= |added| && |Concat(added[..released])| <= |sent|
    ensures released < |added| ==> |sent| < |Concat(added[..released + 1])|
  {
    hide Concat;
    var a, b := added[..released], added[released..];
    assert added == a + b;
    ConcatPlus(a, b);
    if released < |added| {
      assert b == [b[0]] + b[1..] && vec == [vec[0]] + vec[1..] && b[1..] == vec[1..];
      ConcatCons(b[0], b[1..]);
      ConcatCons(vec[0], vec[1..]);
      ConcatLonger(added, released);
    } else {
      assert b == vec == [];
    }
  }

  /** Bytes sent and bytes left are the packets in order, and the packets kept are those not sent to the end. */
  ghost predicate Balanced(vec: seq<Bytes>, packet: seq<Packet>, added: seq<Bytes>, sent: Bytes, released: nat) {
    sent + Concat(vec) == Concat(added) && Queue(vec, packet, added, released)
  }

  /** Each vector belongs to one packet, and only the first may be partly sent. */
  ghost predicate Queue(vec: seq<Bytes>, packet: seq<Packet>, added: seq<Bytes>, released: nat) {
    released <= |added| && |vec| == |packet| == |added| - released &&
    (forall i :: 0 <= i < |packet| ==> packet[i].Fresh() && packet[i].vecs[0] == added[released + i] && vec[i] != []) &&
    (vec != [] ==> IsSuffix(vec[0], added[released])) && forall i :: 1 <= i < |vec| ==> vec[i] == added[released + i]
  }

  ghost predicate IsSuffix(a: Bytes, b: Bytes) {
    |a| <= |b| && a == b[|b| - |a|..]
  }
}
