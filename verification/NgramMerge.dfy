/**
 NgramSegment: forward and backward maximum matching, merged with two cursors; where they differ, the
 more probable of the two is taken.
 */
module NgramMerge {
  import opened ByteText
  import opened Utf8Text
  import opened MaxMatch

  const BEG: Bytes := [60, 66, 69, 71, 62]
  const END: Bytes := [60, 69, 78, 68, 62]

  function Len(ws: seq<Bytes>): (n: nat) {
    |Concat(ws)|
  }

  ghost predicate NonEmpty(ws: seq<Bytes>) {
    forall i :: 0 <= i < |ws| ==> ws[i] != []
  }

  /** The two lists never have equally long words at the same place. */
  ghost predicate NoSync(a: seq<Bytes>, b: seq<Bytes>) {
    forall i, j :: 0 <= i < |a| && 0 <= j < |b| && Len(a[..i]) == Len(b[..j]) ==> |a[i]| != |b[j]|
  }

  /** A word on which both lists agree, or a stretch on which they differ, with the choice. */
  datatype Piece = Same(word: Bytes) | Differ(fwd: seq<Bytes>, bwd: seq<Bytes>, takeFwd: bool) {
    function Fwd(): seq<Bytes> { if Same? then [word] else fwd }
    function Bwd(): seq<Bytes> { if Same? then [word] else bwd }
    function Out(): seq<Bytes> { if Same? then [word] else if takeFwd then fwd else bwd }
  }

  function Fwd(ps: seq<Piece>): (ws: seq<Bytes>) {
    if ps == [] then [] else Fwd(ps[..|ps| - 1]) + ps[|ps| - 1].Fwd()
  }

  function Bwd(ps: seq<Piece>): (ws: seq<Bytes>) {
    if ps == [] then [] else Bwd(ps[..|ps| - 1]) + ps[|ps| - 1].Bwd()
  }

  function Out(ps: seq<Piece>): (ws: seq<Bytes>) {
    if ps == [] then [] else Out(ps[..|ps| - 1]) + ps[|ps| - 1].Out()
  }

  /** The words on both sides, the one after only if it is not the end mark (the last of n words). */
  ghost function After(ps: seq<Piece>, k: nat, n: nat): (ws: seq<Bytes>)
    requires k < |ps|
  {
    if ps[k].Same? && |Fwd(ps[..k])| < n - 1 then [ps[k].word] else []
  }

  /**
   A differing stretch lies between two agreeing words, has none inside, covers the same text, and the more probable
   side was taken.
   */
  ghost predicate DecidedAt(prob: seq<Bytes> -> real, ps: seq<Piece>, n: nat, k: nat)
    requires k < |ps|
  {
    ps[k].Differ? ==>
      0 < k < |ps| - 1 && ps[k - 1].Same? && ps[k + 1].Same? && NoSync(ps[k].fwd, ps[k].bwd) &&
      ps[k].fwd != [] && ps[k].bwd != [] && Concat(ps[k].fwd) == Concat(ps[k].bwd) &&
      var before, after := [ps[k - 1].word], After(ps, k + 1, n);
      ps[k].takeFwd == (prob(before + ps[k].fwd + after) > prob(before + ps[k].bwd + after))
  }

  ghost predicate Decided(prob: seq<Bytes> -> real, ps: seq<Piece>, n: nat) {
    forall k :: 0 <= k < |ps| ==> DecidedAt(prob, ps, n, k)
  }

  // ---- lists of words over one text ----

  lemma LenSnoc(ws: seq<Bytes>, w: Bytes)
    ensures Len(ws + [w]) == Len(ws) + |w|
  {
    ConcatSnoc(ws, w);
  }

  lemma LenPrefix(ws: seq<Bytes>, i: nat)
    requires i < |ws|
    ensures Len(ws[..i + 1]) == Len(ws[..i]) + |ws[i]|
  {
    assert ws[..i + 1] == ws[..i] + [ws[i]];
    LenSnoc(ws[..i], ws[i]);
  }

  lemma {:induction false} LenMonotone(ws: seq<Bytes>, i: nat, j: nat)
    requires NonEmpty(ws) && i <= j <= |ws|
    ensures Len(ws[..i]) + (j - i) <= Len(ws[..j])
  {
    if i < j {
      LenMonotone(ws, i, j - 1);
      LenPrefix(ws, j - 1);
    }
  }

  /** Word i of a list is a slice of its text. */
  lemma WordInText(ws: seq<Bytes>, i: nat)
    requires i < |ws|
    ensures var x := Len(ws[..i]); x + |ws[i]| <= Len(ws) && Concat(ws)[x..x + |ws[i]|] == ws[i]
  {
    hide Concat;
    var a, b := ws[..i], ws[i + 1..];
    assert ws == (a + [ws[i]]) + b;
    ConcatPlus(a + [ws[i]], b);
    ConcatSnoc(a, ws[i]);
  }

  /** The words before cursor i are a prefix of the text. */
  lemma PrefixInText(ws: seq<Bytes>, i: nat)
    requires i <= |ws|
    ensures Len(ws[..i]) <= Len(ws) && Concat(ws[..i]) == Concat(ws)[..Len(ws[..i])]
  {
    hide Concat;
    ConcatPlus(ws[..i], ws[i..]);
    assert ws == ws[..i] + ws[i..];
  }

  // ---- the two cursors inside a differing stretch ----

  /** `y` is no partner for the word of `a` that starts where `b` ends. */
  ghost predicate Pending(a: seq<Bytes>, b: seq<Bytes>, y: Bytes) {
    forall i :: 0 <= i < |a| && Len(a[..i]) == Len(b) ==> |a[i]| != |y|
  }

  /**
   The stretches `a` and `b` since the last agreeing word, and the words `x` and `y` at the cursors: neither cursor is
   past the other's word.
   */
  ghost predicate Gap(a: seq<Bytes>, b: seq<Bytes>, x: Bytes, y: Bytes) {
    NonEmpty(a) && NonEmpty(b) && NoSync(a, b) && Len(a) <= Len(b) + |y| && Len(b) <= Len(a) + |x| &&
    Pending(a, b, y) && Pending(b, a, x)
  }

  lemma NoSyncSnoc(a: seq<Bytes>, b: seq<Bytes>, y: Bytes)
    requires NoSync(a, b) && Pending(a, b, y)
    ensures NoSync(a, b + [y])
  {
    hide Len;
    forall i, j | 0 <= i < |a| && 0 <= j < |b + [y]| && Len(a[..i]) == Len((b + [y])[..j])
      ensures |a[i]| != |(b + [y])[j]|
    {
      if j < |b| { assert (b + [y])[..j] == b[..j]; } else { assert (b + [y])[..j] == b; }
    }
  }

  lemma PendingLater(a: seq<Bytes>, b: seq<Bytes>, y: Bytes)
    requires NonEmpty(a) && Len(a) <= Len(b)
    ensures Pending(a, b, y)
  {
    hide Len;
    forall i | 0 <= i < |a|
      ensures Len(a[..i]) < Len(a)
    {
      LenMonotone(a, i, |a|);
      assert a[..|a|] == a;
    }
  }

  /** Pending on one word more, which starts where `b` ended. */
  lemma PendingSnoc(b: seq<Bytes>, y: Bytes, a: seq<Bytes>, x: Bytes)
    requires Pending(b, a, x) && (Len(b) == Len(a) ==> |y| != |x|)
    ensures Pending(b + [y], a, x)
  {
    hide Len;
    forall i | 0 <= i < |b + [y]| && Len((b + [y])[..i]) == Len(a)
      ensures |(b + [y])[i]| != |x|
    {
      if i < |b| { assert (b + [y])[..i] == b[..i]; } else { assert (b + [y])[..i] == b; }
    }
  }

  lemma NoSyncSwap(a: seq<Bytes>, b: seq<Bytes>)
    requires NoSync(a, b)
    ensures NoSync(b, a)
  {
    hide Len;
  }

  lemma GapSwap(a: seq<Bytes>, b: seq<Bytes>, x: Bytes, y: Bytes)
    requires Gap(a, b, x, y)
    ensures Gap(b, a, y, x)
  {
    hide Len, NoSync, Pending;
    NoSyncSwap(a, b);
  }

  /** The word that ends first is passed. */
  lemma GapOne(a: seq<Bytes>, b: seq<Bytes>, x: Bytes, y: Bytes, y': Bytes)
    requires Gap(a, b, x, y) && y != [] && Len(a) + |x| > Len(b) + |y|
    ensures Gap(a, b + [y], x, y')
  {
    hide Len, NoSync, Pending;
    LenSnoc(b, y);
    NoSyncSnoc(a, b, y);
    PendingSnoc(b, y, a, x);
    PendingLater(a, b + [y], y');
  }

  /** Two words with different starts and one end are passed together. */
  lemma GapBoth(a: seq<Bytes>, b: seq<Bytes>, x: Bytes, y: Bytes, x': Bytes, y': Bytes)
    requires Gap(a, b, x, y) && x != [] && y != [] && Len(a) != Len(b) && Len(a) + |x| == Len(b) + |y|
    ensures Gap(a + [x], b + [y], x', y')
  {
    hide Len, NoSync, Pending;
    LenSnoc(a, x);
    LenSnoc(b, y);
    NoSyncSnoc(a, b, y);
    NoSyncSwap(a, b + [y]);
    PendingSnoc(b, y, a, x);
    NoSyncSnoc(b + [y], a, x);
    NoSyncSwap(b + [y], a + [x]);
    PendingLater(a + [x], b + [y], y');
    PendingLater(b + [y], a + [x], x');
  }

  // ---- the merge ----

  /** Two lists for one text, between the marks. */
  ghost predicate Texts(w1: seq<Bytes>, w2: seq<Bytes>) {
    NonEmpty(w1) && NonEmpty(w2) && Concat(w1) == Concat(w2) && |w1| >= 2 && |w2| >= 2 &&
    w1[0] == w2[0] == BEG && w1[|w1| - 1] == w2[|w2| - 1] == END
  }

  /** One list: cursor, position, the words since the last agreeing one and those up to it. */
  ghost predicate Side(w: seq<Bytes>, cur: nat, pos: nat, cal: seq<Bytes>, done: seq<Bytes>) {
    cur <= |w| && pos == Len(w[..cur]) == Len(done) + Len(cal) && done + cal == w[..cur]
  }

  lemma SidePass(w: seq<Bytes>, cur: nat, pos: nat, cal: seq<Bytes>, done: seq<Bytes>)
    requires Side(w, cur, pos, cal, done) && cur < |w|
    ensures Side(w, cur + 1, pos + |w[cur]|, cal + [w[cur]], done)
  {
    hide Len;
    LenPrefix(w, cur);
    LenSnoc(cal, w[cur]);
    assert w[..cur + 1] == w[..cur] + [w[cur]];
  }

  /** A word ends at the end of the text exactly if it is the last one. */
  lemma SideEnd(w: seq<Bytes>, cur: nat)
    requires NonEmpty(w) && cur < |w|
    ensures Len(w[..cur]) + |w[cur]| <= Len(w) && (Len(w[..cur]) + |w[cur]| == Len(w) <==> cur + 1 == |w|)
  {
    hide Len;
    LenPrefix(w, cur);
    LenMonotone(w, cur + 1, |w|);
    assert w[..|w|] == w;
  }

  /** All of the loop's state. */
  ghost predicate Merging(prob: seq<Bytes> -> real, w1: seq<Bytes>, w2: seq<Bytes>, cur1: nat, cur2: nat, pos1: nat,
                          pos2: nat, cal1: seq<Bytes>, cal2: seq<Bytes>, ps: seq<Piece>) {
    Side(w1, cur1, pos1, cal1, Fwd(ps)) && Side(w2, cur2, pos2, cal2, Bwd(ps)) && Len(Fwd(ps)) == Len(Bwd(ps)) &&
    (cur1 == |w1| <==> cur2 == |w2|) && (cur1 == |w1| ==> cal1 == cal2 == []) &&
    (cur1 < |w1| && cur2 < |w2| ==> Gap(cal1, cal2, w1[cur1], w2[cur2])) &&
    (ps == [] ==> cur1 == cur2 == 0) && (ps != [] ==> ps[|ps| - 1].Same?) && Decided(prob, ps, |w1|)
  }

  lemma PassBackward(prob: seq<Bytes> -> real, w1: seq<Bytes>, w2: seq<Bytes>, cur1: nat, cur2: nat, pos1: nat,
                     pos2: nat, cal1: seq<Bytes>, cal2: seq<Bytes>, ps: seq<Piece>)
    requires Texts(w1, w2) && Merging(prob, w1, w2, cur1, cur2, pos1, pos2, cal1, cal2, ps) && cur1 < |w1|
    requires pos1 + |w1[cur1]| > pos2 + |w2[cur2]|
    ensures Merging(prob, w1, w2, cur1, cur2 + 1, pos1, pos2 + |w2[cur2]|, cal1, cal2 + [w2[cur2]], ps)
  {
    hide Len, Gap, Decided, Fwd, Bwd, Concat;
    SideEnd(w1, cur1);
    SideEnd(w2, cur2);
    LenIs(w1, w2);
    SidePass(w2, cur2, pos2, cal2, Bwd(ps));
    GapOne(cal1, cal2, w1[cur1], w2[cur2], w2[cur2 + 1]);
  }

  lemma PassForward(prob: seq<Bytes> -> real, w1: seq<Bytes>, w2: seq<Bytes>, cur1: nat, cur2: nat, pos1: nat,
                    pos2: nat, cal1: seq<Bytes>, cal2: seq<Bytes>, ps: seq<Piece>)
    requires Texts(w1, w2) && Merging(prob, w1, w2, cur1, cur2, pos1, pos2, cal1, cal2, ps) && cur1 < |w1|
    requires pos1 + |w1[cur1]| < pos2 + |w2[cur2]|
    ensures Merging(prob, w1, w2, cur1 + 1, cur2, pos1 + |w1[cur1]|, pos2, cal1 + [w1[cur1]], cal2, ps)
  {
    hide Len, Gap, Decided, Fwd, Bwd, Concat;
    SideEnd(w1, cur1);
    SideEnd(w2, cur2);
    LenIs(w1, w2);
    SidePass(w1, cur1, pos1, cal1, Fwd(ps));
    GapSwap(cal1, cal2, w1[cur1], w2[cur2]);
    GapOne(cal2, cal1, w2[cur2], w1[cur1], w1[cur1 + 1]);
    GapSwap(cal2, cal1 + [w1[cur1]], w2[cur2], w1[cur1 + 1]);
  }

  lemma PassBoth(prob: seq<Bytes> -> real, w1: seq<Bytes>, w2: seq<Bytes>, cur1: nat, cur2: nat, pos1: nat, pos2: nat,
                 cal1: seq<Bytes>, cal2: seq<Bytes>, ps: seq<Piece>)
    requires Texts(w1, w2) && Merging(prob, w1, w2, cur1, cur2, pos1, pos2, cal1, cal2, ps) && cur1 < |w1|
    requires pos1 != pos2 && pos1 + |w1[cur1]| == pos2 + |w2[cur2]|
    ensures Merging(prob, w1, w2, cur1 + 1, cur2 + 1, pos1 + |w1[cur1]|, pos2 + |w2[cur2]|, cal1 + [w1[cur1]],
                    cal2 + [w2[cur2]], ps)
  {
    hide Len, Gap, Decided, Fwd, Bwd, Concat;
    SideEnd(w1, cur1);
    SideEnd(w2, cur2);
    LenIs(w1, w2);
    SidePass(w1, cur1, pos1, cal1, Fwd(ps));
    SidePass(w2, cur2, pos2, cal2, Bwd(ps));
    GapBoth(cal1, cal2, w1[cur1], w2[cur2], w1[cur1 + 1], w2[cur2 + 1]);
  }

  lemma LenIs(w1: seq<Bytes>, w2: seq<Bytes>)
    requires Concat(w1) == Concat(w2)
    ensures Len(w1) == Len(w2)
  {
  }

  /** The pieces after the two lists agree on `word`. */
  function Agreed(ps: seq<Piece>, cal1: seq<Bytes>, cal2: seq<Bytes>, takeFwd: bool, word: Bytes): (r: seq<Piece>) {
    (if cal1 == [] then ps else ps + [Differ(cal1, cal2, takeFwd)]) + [Same(word)]
  }

  /** Where both cursors stand at one position before equally long words, the words and all before them agree. */
  lemma AgreeText(w1: seq<Bytes>, w2: seq<Bytes>, cur1: nat, cur2: nat, pos: nat, cal1: seq<Bytes>, cal2: seq<Bytes>,
                  f: seq<Bytes>, b: seq<Bytes>)
    requires Texts(w1, w2) && Side(w1, cur1, pos, cal1, f) && Side(w2, cur2, pos, cal2, b) && Len(f) == Len(b)
    requires cur1 < |w1| && cur2 < |w2| && |w1[cur1]| == |w2[cur2]|
    ensures w1[cur1] == w2[cur2] && Concat(cal1) == Concat(cal2) && (cal1 == [] <==> cal2 == []) &&
            (cur1 + 1 == |w1| <==> cur2 + 1 == |w2|)
  {
    hide Concat;
    WordInText(w1, cur1);
    WordInText(w2, cur2);
    PrefixInText(w1, cur1);
    PrefixInText(w2, cur2);
    ConcatPlus(f, cal1);
    ConcatPlus(b, cal2);
    assert Concat(cal1) == Concat(w1[..cur1])[Len(f)..] && Concat(cal2) == Concat(w2[..cur2])[Len(b)..];
    SideEnd(w1, cur1);
    SideEnd(w2, cur2);
    EmptyLists(w1, cur1, f, cal1);
    EmptyLists(w2, cur2, b, cal2);
  }

  lemma EmptyLists(w: seq<Bytes>, cur: nat, done: seq<Bytes>, cal: seq<Bytes>)
    requires NonEmpty(w) && cur <= |w| && done + cal == w[..cur]
    ensures NonEmpty(cal) && (cal == [] <==> Concat(cal) == [])
  {
    forall i | 0 <= i < |cal|
      ensures cal[i] != []
    {
      assert cal[i] == (done + cal)[|done| + i] == w[|done| + i];
    }
    if cal != [] {
      LenMonotone(cal, 0, |cal|);
      assert cal[..|cal|] == cal;
    }
  }

  lemma PieceSnoc(ps: seq<Piece>, p: Piece)
    ensures Fwd(ps + [p]) == Fwd(ps) + p.Fwd() && Bwd(ps + [p]) == Bwd(ps) + p.Bwd() &&
            Out(ps + [p]) == Out(ps) + p.Out()
  {
    assert (ps + [p])[..|ps|] == ps;
  }

  lemma AgreedSides(ps: seq<Piece>, cal1: seq<Bytes>, cal2: seq<Bytes>, takeFwd: bool, word: Bytes)
    requires cal1 == [] <==> cal2 == []
    ensures var r := Agreed(ps, cal1, cal2, takeFwd, word);
      Fwd(r) == Fwd(ps) + cal1 + [word] && Bwd(r) == Bwd(ps) + cal2 + [word] &&
      Out(r) == Out(ps) + (if takeFwd then cal1 else cal2) + [word]
  {
    hide Fwd, Bwd, Out;
    var ps' := if cal1 == [] then ps else ps + [Differ(cal1, cal2, takeFwd)];
    PieceSnoc(ps, Differ(cal1, cal2, takeFwd));
    PieceSnoc(ps', Same(word));
  }

  /** Earlier decisions stay, since every differing stretch already has an agreeing word after it. */
  lemma DecidedKept(prob: seq<Bytes> -> real, ps: seq<Piece>, more: seq<Piece>, n: nat, k: nat)
    requires k < |ps| && DecidedAt(prob, ps, n, k)
    ensures DecidedAt(prob, ps + more, n, k)
  {
    hide NoSync, Fwd, Concat;
    var all := ps + more;
    if ps[k].Differ? {
      assert all[..k + 1] == ps[..k + 1];
      assert all[k] == ps[k] && all[k - 1] == ps[k - 1] && all[k + 1] == ps[k + 1];
      assert After(all, k + 1, n) == After(ps, k + 1, n);
    }
  }

  /** The new decision. */
  lemma DecidedNew(prob: seq<Bytes> -> real, ps: seq<Piece>, cal1: seq<Bytes>, cal2: seq<Bytes>, takeFwd: bool,
                   word: Bytes, n: nat, last: bool)
    requires Decided(prob, ps, n) && (ps == [] ==> cal1 == []) && (ps != [] ==> ps[|ps| - 1].Same?)
    requires NoSync(cal1, cal2) && Concat(cal1) == Concat(cal2) && (cal1 == [] <==> cal2 == [])
    requires last <==> |Fwd(ps) + cal1| >= n - 1
    requires cal1 != [] ==> var before, after := [ps[|ps| - 1].word], if last then [] else [word];
                            takeFwd == (prob(before + cal1 + after) > prob(before + cal2 + after))
    ensures Decided(prob, Agreed(ps, cal1, cal2, takeFwd, word), n)
  {
    hide NoSync, Fwd, Concat;
    var m := |ps|;
    var d, r := Differ(cal1, cal2, takeFwd), Agreed(ps, cal1, cal2, takeFwd, word);
    assert r == ps + (if cal1 == [] then [Same(word)] else [d, Same(word)]);
    forall k | 0 <= k < |r|
      ensures DecidedAt(prob, r, n, k)
    {
      if k < m {
        DecidedKept(prob, ps, r[m..], n, k);
        assert r == ps + r[m..];
      } else if k == m && cal1 != [] {
        assert r[..m + 1] == ps + [d];
        PieceSnoc(ps, d);
        assert r[m] == d && r[m - 1] == ps[m - 1] && r[m + 1] == Same(word);
        assert After(r, m + 1, n) == if last then [] else [word];
      }
    }
  }

  lemma Agree(prob: seq<Bytes> -> real, w1: seq<Bytes>, w2: seq<Bytes>, cur1: nat, cur2: nat, pos: nat,
              cal1: seq<Bytes>, cal2: seq<Bytes>, ps: seq<Piece>, takeFwd: bool)
    requires Texts(w1, w2) && Merging(prob, w1, w2, cur1, cur2, pos, pos, cal1, cal2, ps) && cur1 < |w1|
    requires |w1[cur1]| == |w2[cur2]|
    requires cal1 != [] ==> ps != [] && ps[|ps| - 1].Same? &&
                            var before, after := [ps[|ps| - 1].word], if cur1 < |w1| - 1 then [w1[cur1]] else [];
                            takeFwd == (prob(before + cal1 + after) > prob(before + cal2 + after))
    ensures Merging(prob, w1, w2, cur1 + 1, cur2 + 1, pos + |w1[cur1]|, pos + |w2[cur2]|, [], [],
                    Agreed(ps, cal1, cal2, takeFwd, w1[cur1]))
  {
    hide Len, NoSync, Decided, Fwd, Bwd, Out, Concat, Pending;
    var word, r := w1[cur1], Agreed(ps, cal1, cal2, takeFwd, w1[cur1]);
    AgreeText(w1, w2, cur1, cur2, pos, cal1, cal2, Fwd(ps), Bwd(ps));
    AgreedSides(ps, cal1, cal2, takeFwd, word);
    assert w1[..cur1 + 1] == w1[..cur1] + [word] && w2[..cur2 + 1] == w2[..cur2] + [word];
    LenPrefix(w1, cur1);
    LenPrefix(w2, cur2);
    LenNone();
    DecidedNew(prob, ps, cal1, cal2, takeFwd, word, |w1|, cur1 == |w1| - 1);
    if cur1 + 1 < |w1| { GapNone(w1[cur1 + 1], w2[cur2 + 1]); }
  }

  lemma GapNone(x: Bytes, y: Bytes)
    ensures Gap([], [], x, y)
  {
  }

  lemma LenNone()
    ensures Len([]) == 0
  {
  }

  lemma MergingStarts(prob: seq<Bytes> -> real, w1: seq<Bytes>, w2: seq<Bytes>)
    requires Texts(w1, w2)
    ensures Merging(prob, w1, w2, 0, 0, 0, 0, [], [], [])
  {
    hide NoSync, Pending;
    GapNone(w1[0], w2[0]);
  }

  /** The more probable stretch, judged with the words around it. */
  method Choose(prob: seq<Bytes> -> real, before: Bytes, cal1: seq<Bytes>, cal2: seq<Bytes>, word: Bytes, last: bool)
    returns (cal: seq<Bytes>, ghost takeFwd: bool)
    ensures var after := if last then [] else [word];
      takeFwd == (prob([before] + cal1 + after) > prob([before] + cal2 + after))
    ensures cal == var after := if last then [] else [word];
      if prob([before] + cal1 + after) > prob([before] + cal2 + after) then cal1 else cal2
  {
    var list1, list2 := [before] + cal1, [before] + cal2;
    assert last ==> list1 == list1 + [] && list2 == list2 + [];
    if !last { list1, list2 := list1 + [word], list2 + [word]; }
    takeFwd := prob(list1) > prob(list2);
    cal := if prob(list1) > prob(list2) then list1 else list2;
    cal := cal[1..];
    if !last { cal := cal[..|cal| - 1]; }
  }

  /** The loop of ConcreteSplit over the two lists with their marks. */
  method MergeMarked(prob: seq<Bytes> -> real, w1: seq<Bytes>, w2: seq<Bytes>)
    returns (list: seq<Bytes>, ghost ps: seq<Piece>)
    requires Texts(w1, w2)
    ensures Fwd(ps) == w1 && Bwd(ps) == w2 && list == Out(ps) && Decided(prob, ps, |w1|)
    ensures Concat(list) == Concat(w1) && forall w :: w in list ==> w in w1 || w in w2
  {
    hide Len, Gap, Decided, Fwd, Bwd, Out, Concat, Side;
    var cal1: seq<Bytes>, cal2: seq<Bytes> := [], [];
    var pos1: nat, pos2: nat, cur1: nat, cur2: nat := 0, 0, 0, 0;
    list, ps := [], [];
    MergingStarts(prob, w1, w2);
    OutNone();
    while true
      invariant Merging(prob, w1, w2, cur1, cur2, pos1, pos2, cal1, cal2, ps) && list == Out(ps)
      invariant cur1 <= |w1| && cur2 <= |w2|
      decreases |w1| - cur1 + |w2| - cur2
    {
      Within(w1, w2, prob, cur1, cur2, pos1, pos2, cal1, cal2, ps);
      if cur1 == |w1| && cur2 == |w2| { break; }
      if pos1 == pos2 {
        if |w1[cur1]| == |w2[cur2]| {
          ghost var takeFwd := false;
          var cal: seq<Bytes> := [];
          AgreeText(w1, w2, cur1, cur2, pos1, cal1, cal2, Fwd(ps), Bwd(ps));
          if |cal1| > 0 {
            LastOut(ps);
            cal, takeFwd := Choose(prob, list[|list| - 1], cal1, cal2, w1[cur1], cur1 == |w1| - 1);
          }
          Agree(prob, w1, w2, cur1, cur2, pos1, cal1, cal2, ps, takeFwd);
          AgreedSides(ps, cal1, cal2, takeFwd, w1[cur1]);
          list := list + cal + [w1[cur1]];
          ps := Agreed(ps, cal1, cal2, takeFwd, w1[cur1]);
          pos1, pos2 := pos1 + |w1[cur1]|, pos2 + |w2[cur2]|;
          cal1, cal2 := [], [];
          cur1, cur2 := cur1 + 1, cur2 + 1;
        } else if |w1[cur1]| > |w2[cur2]| {
          PassBackward(prob, w1, w2, cur1, cur2, pos1, pos2, cal1, cal2, ps);
          cal2 := cal2 + [w2[cur2]];
          pos2 := pos2 + |w2[cur2]|;
          cur2 := cur2 + 1;
        } else {
          PassForward(prob, w1, w2, cur1, cur2, pos1, pos2, cal1, cal2, ps);
          cal1 := cal1 + [w1[cur1]];
          pos1 := pos1 + |w1[cur1]|;
          cur1 := cur1 + 1;
        }
      } else if pos1 + |w1[cur1]| == pos2 + |w2[cur2]| {
        PassBoth(prob, w1, w2, cur1, cur2, pos1, pos2, cal1, cal2, ps);
        cal1, cal2 := cal1 + [w1[cur1]], cal2 + [w2[cur2]];
        pos1, pos2 := pos1 + |w1[cur1]|, pos2 + |w2[cur2]|;
        cur1, cur2 := cur1 + 1, cur2 + 1;
      } else if pos1 + |w1[cur1]| > pos2 + |w2[cur2]| {
        PassBackward(prob, w1, w2, cur1, cur2, pos1, pos2, cal1, cal2, ps);
        cal2 := cal2 + [w2[cur2]];
        pos2 := pos2 + |w2[cur2]|;
        cur2 := cur2 + 1;
      } else {
        PassForward(prob, w1, w2, cur1, cur2, pos1, pos2, cal1, cal2, ps);
        cal1 := cal1 + [w1[cur1]];
        pos1 := pos1 + |w1[cur1]|;
        cur1 := cur1 + 1;
      }
    }
    MergingEnds(prob, w1, w2, pos1, pos2, cal1, cal2, ps);
    DecidedText(prob, ps, |w1|);
    OutText(ps);
    OutWords(ps);
  }

  lemma DecidedText(prob: seq<Bytes> -> real, ps: seq<Piece>, n: nat)
    requires Decided(prob, ps, n)
    ensures forall k :: 0 <= k < |ps| && ps[k].Differ? ==> Concat(ps[k].fwd) == Concat(ps[k].bwd)
  {
    hide Concat, NoSync, After;
    forall k | 0 <= k < |ps| && ps[k].Differ?
      ensures Concat(ps[k].fwd) == Concat(ps[k].bwd)
    {
      assert DecidedAt(prob, ps, n, k);
    }
  }

  lemma OutNone()
    ensures Out([]) == []
  {
  }

  /** The cursors never leave their lists, and no decision is due before the first agreeing word. */
  lemma Within(w1: seq<Bytes>, w2: seq<Bytes>, prob: seq<Bytes> -> real, cur1: nat, cur2: nat, pos1: nat, pos2: nat,
               cal1: seq<Bytes>, cal2: seq<Bytes>, ps: seq<Piece>)
    requires Texts(w1, w2) && Merging(prob, w1, w2, cur1, cur2, pos1, pos2, cal1, cal2, ps)
    ensures cur1 <= |w1| && cur2 <= |w2| && (cur1 == |w1| <==> cur2 == |w2|) && (ps == [] ==> cal1 == [])
  {
    hide Len, Gap, Decided, Concat;
  }

  lemma LastOut(ps: seq<Piece>)
    requires ps != [] && ps[|ps| - 1].Same?
    ensures Out(ps) != [] && Out(ps)[|Out(ps)| - 1] == ps[|ps| - 1].word
  {
  }

  lemma MergingEnds(prob: seq<Bytes> -> real, w1: seq<Bytes>, w2: seq<Bytes>, pos1: nat, pos2: nat, cal1: seq<Bytes>,
                    cal2: seq<Bytes>, ps: seq<Piece>)
    requires Merging(prob, w1, w2, |w1|, |w2|, pos1, pos2, cal1, cal2, ps)
    ensures Fwd(ps) == w1 && Bwd(ps) == w2 && Decided(prob, ps, |w1|)
  {
    hide Len, Gap, Decided, Fwd, Bwd, Concat;
    assert w1[..|w1|] == w1 && w2[..|w2|] == w2;
  }

  // ---- what the merge gives ----

  /** Either way the text is the same. */
  lemma {:induction false} OutText(ps: seq<Piece>)
    requires forall k :: 0 <= k < |ps| && ps[k].Differ? ==> Concat(ps[k].fwd) == Concat(ps[k].bwd)
    ensures Concat(Out(ps)) == Concat(Fwd(ps))
  {
    hide Concat;
    if ps != [] {
      var m := |ps| - 1;
      OutText(ps[..m]);
      ConcatPlus(Out(ps[..m]), ps[m].Out());
      ConcatPlus(Fwd(ps[..m]), ps[m].Fwd());
    }
  }

  /** Every word comes from one of the lists. */
  lemma {:induction false} OutWords(ps: seq<Piece>)
    ensures forall w :: w in Out(ps) ==> w in Fwd(ps) || w in Bwd(ps)
  {
    if ps != [] {
      var m := |ps| - 1;
      OutWords(ps[..m]);
      assert forall w :: w in ps[m].Out() ==> w in ps[m].Fwd() || w in ps[m].Bwd();
    }
  }

  lemma {:induction false} OutFirst(ps: seq<Piece>)
    requires ps != [] && ps[0].Same?
    ensures Out(ps) != [] && Fwd(ps) != [] && Out(ps)[0] == Fwd(ps)[0] == ps[0].word
  {
    if |ps| > 1 { OutFirst(ps[..|ps| - 1]); }
  }

  lemma OutLast(ps: seq<Piece>)
    requires ps != [] && ps[|ps| - 1].Same?
    ensures Out(ps) != [] && Fwd(ps) != [] && Out(ps)[|Out(ps)| - 1] == Fwd(ps)[|Fwd(ps)| - 1] == ps[|ps| - 1].word
  {
  }

  /** The list without the marks is still a segmentation of the text. */
  lemma Unmarked(prob: seq<Bytes> -> real, ps: seq<Piece>, l1: seq<Bytes>, l2: seq<Bytes>, cs: seq<Bytes>)
    requires Segments(l1, cs) && Segments(l2, cs) && Decided(prob, ps, |l1| + 2)
    requires Fwd(ps) == [BEG] + l1 + [END] && Bwd(ps) == [BEG] + l2 + [END]
    ensures var out := Out(ps);
      |out| >= 2 && out == [BEG] + out[1..|out| - 1] + [END] && Segments(out[1..|out| - 1], cs)
  {
    hide Concat, Chars, NoSync, After, Out, Fwd, Bwd, Clean;
    var out := Out(ps);
    assert ps != [] by { NoPieces(); }
    var n := |l1| + 2;
    assert DecidedAt(prob, ps, n, 0) && DecidedAt(prob, ps, n, |ps| - 1);
    OutFirst(ps);
    OutLast(ps);
    DecidedText(prob, ps, n);
    OutText(ps);
    OutWords(ps);
    TwoMarks(out);
    MarkedText(l1);
    MarkedText(out[1..|out| - 1]);
    BetweenMarks(Concat(l1), Concat(out[1..|out| - 1]));
    WordsKept(ps, l1, l2, out);
  }

  lemma NoPieces()
    ensures Fwd([]) == []
  {
  }

  lemma MarkedText(l: seq<Bytes>)
    ensures Concat([BEG] + l + [END]) == BEG + Concat(l) + END
  {
    ConcatSnoc([BEG] + l, END);
    ConcatCons(BEG, l);
  }

  lemma BetweenMarks(x: Bytes, y: Bytes)
    requires BEG + x + END == BEG + y + END
    ensures x == y
  {
    assert x == (BEG + x + END)[5..5 + |x|] && y == (BEG + y + END)[5..5 + |y|];
  }

  lemma TwoMarks(out: seq<Bytes>)
    requires out != [] && out[0] == BEG && out[|out| - 1] == END
    ensures |out| >= 2 && out == [BEG] + out[1..|out| - 1] + [END]
  {
  }

  lemma WordsKept(ps: seq<Piece>, l1: seq<Bytes>, l2: seq<Bytes>, out: seq<Bytes>)
    requires AllClean(l1) && AllClean(l2) && |out| >= 2
    requires forall w :: w in out ==> w in [BEG] + l1 + [END] || w in [BEG] + l2 + [END]
    ensures AllClean(out[1..|out| - 1])
  {
    hide Clean;
    MarksClean();
    forall i | 1 <= i < |out| - 1
      ensures Clean(out[i]) && out[i] != []
    {
      assert out[i] in out;
    }
  }

  lemma MarksClean()
    ensures Clean(BEG) && Clean(END)
  {
    hide Concat;
    SingleBytes(BEG);
    SingleBytes(END);
  }

  /** Text in one-byte characters. */
  lemma {:induction false} SingleBytes(s: Bytes)
    requires forall i :: 0 <= i < |s| ==> 0 < s[i] < 128
    ensures Clean(s)
  {
    if s != [] {
      var n := |s| - 1;
      SingleBytes(s[..n]);
      ConcatSnoc(Chars(s[..n]), [s[n]]);
      assert s == s[..n] + [s[n]];
    }
  }

  /**
   ConcreteSplit: the words make up the text, and between words on which forward and backward matching agree they are
   wholly the forward or wholly the backward ones, whichever `prob` prefers.
   */
  method ConcreteSplit(d: Dict, appid: nat, prob: seq<Bytes> -> real, str: Bytes)
    returns (list: seq<Bytes>, ghost ps: seq<Piece>)
    ensures Segments(list, Chars(str))
    ensures var beg, end := [60, 66, 69, 71, 62], [60, 69, 78, 68, 62];
      Fwd(ps) == [beg] + Forward(d, appid, Chars(str)) + [end] &&
      Bwd(ps) == [beg] + Backward(d, appid, Chars(str)) + [end] && Out(ps) == [beg] + list + [end]
    ensures Decided(prob, ps, |Fwd(ps)|)
  {
    hide Concat, Chars, Fwd, Bwd, Out, Forward, Backward, Decided, Clean;
    var l1 := Fmm(d, appid, str);
    var l2 := Bmm(d, appid, str);
    CharsAreChars(str);
    ForwardSegments(d, appid, Chars(str));
    BackwardSegments(d, appid, Chars(str));
    MarkedText(l1);
    MarkedText(l2);
    list, ps := MergeMarked(prob, [BEG] + l1 + [END], [BEG] + l2 + [END]);
    Unmarked(prob, ps, l1, l2, Chars(str));
    ghost var out := list;
    list := list[1..];
    list := list[..|list| - 1];
    assert list == out[1..|out| - 1];
  }
}
