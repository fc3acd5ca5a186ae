/** Byte strings, shared by the modules below. */
module ByteText {
  type byte = x: int | 0 <= x < 256
  type Bytes = seq<byte>

  /** All strings of a list, one after the other. */
  function Concat(ws: seq<Bytes>): (r: Bytes) {
    if ws == [] then [] else Concat(ws[..|ws| - 1]) + ws[|ws| - 1]
  }

  lemma ConcatNone()
    ensures Concat([]) == []
  {
  }

  lemma ConcatSnoc(ws: seq<Bytes>, w: Bytes)
    ensures Concat(ws + [w]) == Concat(ws) + w
  {
    assert (ws + [w])[..|ws|] == ws;
  }

  lemma {:induction false} ConcatPlus(a: seq<Bytes>, b: seq<Bytes>)
    ensures Concat(a + b) == Concat(a) + Concat(b)
  {
    if b == [] {
      assert a + b == a;
    } else {
      var m := |b| - 1;
      ConcatPlus(a, b[..m]);
      ConcatSnoc(a + b[..m], b[m]);
      assert a + b == (a + b[..m]) + [b[m]];
    }
  }

  lemma ConcatCons(w: Bytes, ws: seq<Bytes>)
    ensures Concat([w] + ws) == w + Concat(ws)
  {
    ConcatPlus([w], ws);
    ConcatSnoc([], w);
    assert [] + [w] == [w] && [] + w == w;
  }
}
