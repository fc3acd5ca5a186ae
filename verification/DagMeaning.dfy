/** How the dictionary's entries for the appid and for everyone decide between the paths of a sentence. */
module DagMeaning {
  import opened ByteText
  import opened Utf8Text
  import opened MaxMatch
  import opened DagSegment

  /** The same punctuation, the same words known to the appid or to all, with the same entry in force. */
  ghost predicate Agree(d: Dict, e: Dict, appid: nat) {
    d.punct == e.punct && forall w :: AgreeOn(d, e, appid, w)
  }

  ghost predicate AgreeOn(d: Dict, e: Dict, appid: nat, w: Bytes) {
    (w in d.words <==> w in e.words) &&
    (w in d.words ==> SameEntry(d.words[w], e.words[w], appid) &&
                      (appid !in d.words[w] ==> SameEntry(d.words[w], e.words[w], 0)) &&
                      (appid in d.words[w] || 0 in d.words[w] <==> appid in e.words[w] || 0 in e.words[w]))
  }

  ghost predicate SameEntry(m: map<nat, nat>, n: map<nat, nat>, appid: nat) {
    (appid in m <==> appid in n) && (appid in m ==> m[appid] == n[appid])
  }

  type Routes = map<nat, RouteValue>

  /** The two dictionaries on one sentence. */
  ghost predicate Alike(s: Sentence, t: Sentence) {
    Agree(s.d, t.d, s.appid) && t == s.(d := t.d)
  }

  lemma SameEdges(s: Sentence, t: Sentence, i: nat, j: nat)
    requires Alike(s, t)
    ensures (s.IsEdge(i, j) <==> t.IsEdge(i, j)) && (s.IsEdge(i, j) ==> i <= j < |s.cs|)
    ensures i <= j < |s.cs| ==> s.Word(i, j) == t.Word(i, j) && s.EdgeWeight(i, j) == t.EdgeWeight(i, j)
  {
    forall k | i <= k < |s.cs|
      ensures s.Word(i, k) == t.Word(i, k) && s.Freq(s.Word(i, k)) == t.Freq(s.Word(i, k))
      ensures s.d.Valid(s.Word(i, k), s.appid) <==> t.d.Valid(s.Word(i, k), s.appid)
    {
      assert AgreeOn(s.d, t.d, s.appid, s.Word(i, k));
    }
  }

  /** They give the same paths with the same weights and words. */
  lemma {:induction false} SamePaths(s: Sentence, t: Sentence, i: nat, p: seq<nat>)
    requires Alike(s, t)
    ensures s.IsPath(i, p) <==> t.IsPath(i, p)
    ensures s.IsPath(i, p) ==> s.PathWeight(i, p) == t.PathWeight(i, p) && s.PathWords(i, p) == t.PathWords(i, p)
    decreases |p|
  {
    hide Sentence.EdgeWeight, Sentence.IsEdge, Agree;
    if p != [] {
      SameEdges(s, t, i, p[0]);
      SamePaths(s, t, p[0] + 1, p[1..]);
    }
  }

  /** The best edges are determined. */
  lemma {:induction false} SameRoutes(s: Sentence, t: Sentence, r: Routes, q: Routes, i: nat)
    requires Alike(s, t) && s.RoutesOk(r, 0) && t.RoutesOk(q, 0) && i <= |s.cs|
    ensures forall k :: i <= k <= |s.cs| ==> r[k] == q[k]
    decreases |s.cs| - i
  {
    hide Sentence.EdgeWeight, Sentence.IsEdge, Agree;
    if i < |s.cs| {
      SameRoutes(s, t, r, q, i + 1);
      assert s.RouteOk(r, i) && t.RouteOk(q, i);
      SameEdges(s, t, i, r[i].idx);
      SameEdges(s, t, i, q[i].idx);
      assert r[i] == q[i];
    }
  }

  lemma {:induction false} SameRoutePath(s: Sentence, t: Sentence, r: Routes, q: Routes, i: nat)
    requires Alike(s, t) && s.RoutesOk(r, 0) && t.RoutesOk(q, 0) && i <= |s.cs| && r[i].max.Fin? && q[i].max.Fin?
    ensures RoutePath(s, r, i) == RoutePath(t, q, i)
    decreases |s.cs| - i
  {
    hide Sentence.EdgeWeight, Sentence.IsEdge, Agree;
    SameRoutes(s, t, r, q, i);
    if i < |s.cs| {
      assert s.RouteOk(r, i) && t.RouteOk(q, i);
      SameEdges(s, t, i, r[i].idx);
      SameRoutePath(s, t, r, q, r[i].idx + 1);
    }
  }

  lemma RoutesFrom(s: Sentence, r: Routes)
    requires s.RoutesOk(r, 0)
    ensures 0 in r && r[|s.cs|].max.Fin?
  {
  }

  /** They give the same words; and one dictionary never gives two answers. */
  lemma SameSplit(s: Sentence, t: Sentence, ws: seq<Bytes>, vs: seq<Bytes>)
    requires Alike(s, t) && Chosen(s, ws) && Chosen(t, vs)
    ensures ws == vs
  {
    hide Sentence.RoutesOk, Agree, RoutePath, Sentence.PathWords;
    var r: Routes :| s.RoutesOk(r, 0) && FromStart(s, r, ws);
    var q: Routes :| t.RoutesOk(q, 0) && FromStart(t, q, vs);
    SameRoutes(s, t, r, q, 0);
    RoutesFrom(s, r);
    RoutesFrom(t, q);
    var start := if r[0].max.Fin? then 0 else 1;
    SameRoutePath(s, t, r, q, start);
    SamePaths(s, t, start, RoutePath(s, r, start));
  }

  /**
   The word of an edge weighs by the appid's own entry, else by the entry for all; an unknown one as if it had been
   counted once, and one known to other appids only nothing.
   */
  lemma EdgeMeans(s: Sentence, i: nat, j: nat)
    requires i <= j < |s.cs|
    ensures var w := Concat(s.cs[i..j + 1]);
      (w !in s.d.words ==> s.EdgeWeight(i, j) == Fin(s.log(1) - s.log(8000000))) &&
      (w in s.d.words ==>
         (forall f: nat :: s.appid in s.d.words[w] && f == s.d.words[w][s.appid] > 0 ==>
            s.EdgeWeight(i, j) == Fin(s.log(f) - s.log(8000000))) &&
         (forall g: nat :: s.appid !in s.d.words[w] && 0 in s.d.words[w] && g == s.d.words[w][0] > 0 ==>
            s.EdgeWeight(i, j) == Fin(s.log(g) - s.log(8000000))) &&
         (s.appid in s.d.words[w] && s.d.words[w][s.appid] == 0 ==> s.EdgeWeight(i, j) == Bottom) &&
         (s.appid !in s.d.words[w] && 0 !in s.d.words[w] ==> s.EdgeWeight(i, j) == Bottom))
  {
  }

  /** Three characters: the pair "ab" is frequent for all, but rare for appid 7. */
  function RareForSeven(log: nat -> real): (s: Sentence) {
    Sentence(Dict(map[[97] := map[0 := 10], [99] := map[0 := 10], [98, 99] := map[0 := 100],
                      [97, 98] := map[0 := 1000, 7 := 1]], {}, {}), 7, log, [[97], [98], [99]])
  }

  lemma RareWords(log: nat -> real)
    ensures var s := RareForSeven(log);
      s.Word(0, 0) == [97] && s.Word(0, 1) == [97, 98] && s.Word(0, 2) == [97, 98, 99] &&
      s.Word(1, 1) == [98] && s.Word(1, 2) == [98, 99] && s.Word(2, 2) == [99]
  {
    hide Concat;
    var s := RareForSeven(log);
    ConcatOne([97]);
    ConcatOne([98]);
    ConcatOne([99]);
    assert s.cs[0..1] == [[97]] && s.cs[1..2] == [[98]] && s.cs[2..3] == [[99]];
    assert s.cs[0..2] == [[97]] + [[98]] && s.cs[1..3] == [[98]] + [[99]] && s.cs[0..3] == [[97]] + ([[98]] + [[99]]);
    ConcatPlus([[97]], [[98]]);
    ConcatPlus([[98]], [[99]]);
    ConcatPlus([[97]], [[98]] + [[99]]);
  }

  lemma RareEdges(log: nat -> real)
    ensures var s := RareForSeven(log);
      (forall j :: s.IsEdge(0, j) <==> j == 0 || j == 1) && (forall j :: s.IsEdge(1, j) <==> j == 2) &&
      (forall j :: s.IsEdge(2, j) <==> j == 2)
    ensures var s := RareForSeven(log); var n := log(8000000);
      s.EdgeWeight(0, 0) == Fin(log(10) - n) && s.EdgeWeight(0, 1) == Fin(log(1) - n) &&
      s.EdgeWeight(1, 2) == Fin(log(100) - n) && s.EdgeWeight(2, 2) == Fin(log(10) - n)
  {
    hide Sentence.Word;
    RareWords(log);
    var s := RareForSeven(log);
    assert s.d.Valid(s.Word(1, 2), 7) && !s.d.Valid(s.Word(1, 1), 7) && !s.d.Valid(s.Word(0, 2), 7);
  }

  lemma RarePath(log: nat -> real, p: seq<nat>)
    requires RareForSeven(log).IsPath(0, p)
    ensures p == [0, 2] || p == [1, 2]
  {
    hide Sentence.IsEdge, Sentence.Word, Sentence.EdgeWeight;
    RareEdges(log);
    var s := RareForSeven(log);
    assert forall j :: !s.IsEdge(3, j) by { NoEdge(s); }
    if p[0] == 0 { assert p[1] == 2 && s.IsPath(3, p[1..][1..]); } else { assert s.IsPath(2, p[1..]); }
  }

  lemma NoEdge(s: Sentence)
    ensures forall j :: !s.IsEdge(|s.cs|, j)
  {
  }

  lemma RareWeights(log: nat -> real)
    ensures var s := RareForSeven(log); var n := log(8000000);
      s.IsPath(0, [0, 2]) && s.PathWeight(0, [0, 2]) == Fin(log(10) - n + (log(100) - n)) &&
      s.PathWords(0, [0, 2]) == [[97], [98, 99]]
    ensures var s := RareForSeven(log); var n := log(8000000);
      s.IsPath(0, [1, 2]) && s.PathWeight(0, [1, 2]) == Fin(log(1) - n + (log(10) - n))
  {
    hide Sentence.IsEdge, Sentence.EdgeWeight, Sentence.Word;
    var s := RareForSeven(log);
    RareEdges(log);
    RareWords(log);
    assert s.IsPath(3, []) && s.PathWeight(3, []) == Fin(0.0) && s.PathWords(3, []) == [];
    PathCons(s, 2, 2, []);
    PathCons(s, 1, 2, []);
    PathCons(s, 0, 0, [2]);
    PathCons(s, 0, 1, [2]);
    assert [2] + [] == [2] && [0] + [2] == [0, 2] && [1] + [2] == [1, 2];
  }

  /** So "abc" is split into "a" and "bc". */
  lemma OwnEntryDecides(log: nat -> real)
    requires log(1) < log(100)
    ensures RareForSeven(log).HasRoute(0)
    ensures forall p, ws :: Heaviest(RareForSeven(log), p, ws) ==> ws == [[97], [98, 99]]
  {
    hide Sentence.IsPath, Sentence.PathWeight, Sentence.PathWords;
    RareWeights(log);
    forall p, ws | Heaviest(RareForSeven(log), p, ws)
      ensures ws == [[97], [98, 99]]
    {
      RarePath(log, p);
    }
  }
}
