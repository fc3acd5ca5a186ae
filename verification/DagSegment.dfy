/**
 DagSegment: the words of a sentence are chosen along the heaviest path through the graph of dictionary words.
 */
module DagSegment {
  import opened ByteText
  import opened Utf8Text
  import opened MaxMatch

  const TOTAL: nat := 8000000

  /** The doubles of `calc`: Bottom stands for log(0) and for -DBL_MAX, which no sum with them exceeds. */
  datatype Weight = Bottom | Fin(value: real) {
    function Plus(w: Weight): (r: Weight) {
      if Bottom? || w.Bottom? then Bottom else Fin(value + w.value)
    }

    predicate Less(w: Weight) {
      w.Fin? && (Bottom? || value < w.value)
    }
  }

  /** A sentence of characters with the dictionary, the appid and the logarithm. */
  datatype Sentence = Sentence(d: Dict, appid: nat, log: nat -> real, cs: seq<Bytes>) {
    /** The characters i..j, both included. */
    function Word(i: nat, j: nat): (r: Bytes)
      requires i <= j < |cs|
    {
      Concat(cs[i..j + 1])
    }

    /**
     The entry for the appid, else for appid 0; a word known to other appids only counts as 0, an unknown one as 1.
     */
    function Freq(w: Bytes): (r: nat) {
      if w !in d.words then 1
      else if appid in d.words[w] then d.words[w][appid]
      else if 0 in d.words[w] then d.words[w][0] else 0
    }

    function EdgeWeight(i: nat, j: nat): (r: Weight)
      requires i <= j < |cs|
    {
      var f := Freq(Word(i, j));
      if f == 0 then Bottom else Fin(log(f) - log(TOTAL))
    }

    /** A dictionary word from i to j, or a single character where no dictionary word starts. */
    ghost predicate IsEdge(i: nat, j: nat) {
      i <= j < |cs| &&
      (d.Valid(Word(i, j), appid) || (i == j && forall m :: i <= m < |cs| ==> !d.Valid(Word(i, m), appid)))
    }

    /** A path from character i to the end: the last character of each word. */
    ghost predicate IsPath(i: nat, p: seq<nat>)
      decreases |p|
    {
      if p == [] then i == |cs| else IsEdge(i, p[0]) && IsPath(p[0] + 1, p[1..])
    }

    ghost function PathWeight(i: nat, p: seq<nat>): (r: Weight)
      requires IsPath(i, p)
      decreases |p|
    {
      if p == [] then Fin(0.0) else EdgeWeight(i, p[0]).Plus(PathWeight(p[0] + 1, p[1..]))
    }

    ghost function PathWords(i: nat, p: seq<nat>): (r: seq<Bytes>)
      requires IsPath(i, p)
      decreases |p|
    {
      if p == [] then [] else [Word(i, p[0])] + PathWords(p[0] + 1, p[1..])
    }

    /** Some path from i uses only words of positive frequency. */
    ghost predicate HasRoute(i: nat) {
      exists p :: IsPath(i, p) && PathWeight(i, p).Fin?
    }

    /** The route at i is the best edge from there, the first of several, given the routes behind it. */
    ghost predicate RouteOk(route: map<nat, RouteValue>, i: nat)
      requires i < |cs| && forall k :: i <= k <= |cs| ==> k in route
    {
      var r := route[i];
      (r.max.Fin? ==> IsEdge(i, r.idx) && r.max == EdgeWeight(i, r.idx).Plus(route[r.idx + 1].max)) &&
      (r.max.Bottom? ==> r.idx == 0) &&
      forall j: nat :: IsEdge(i, j) ==> Beats(r, EdgeWeight(i, j).Plus(route[j + 1].max), j)
    }

    ghost predicate RoutesOk(route: map<nat, RouteValue>, from: nat) {
      from <= |cs| && (forall k :: from <= k <= |cs| ==> k in route) && route[|cs|] == RouteValue(Fin(0.0), 0) &&
      forall i :: from <= i < |cs| ==> RouteOk(route, i)
    }
  }

  datatype RouteValue = RouteValue(max: Weight, idx: nat)

  /** No edge to j of weight w is better, and none before the chosen one as good. */
  predicate Beats(r: RouteValue, w: Weight, j: nat) {
    !r.max.Less(w) && (j < r.idx ==> w.Less(r.max))
  }

  ghost predicate Rising(list: seq<nat>) {
    forall a, b :: 0 <= a < b < |list| ==> list[a] < list[b]
  }

  /** The entry for one character in getDag. */
  method EdgesFrom(s: Sentence, u: Utf8, k: nat) returns (list: seq<nat>)
    requires u.Valid() && Chars(u.data) == s.cs && k < |s.cs|
    ensures forall j :: j in list <==> s.IsEdge(k, j)
    ensures Rising(list)
  {
    hide Chars, Concat;
    u.LengthIs();
    var i := k;
    list := [];
    assert s.cs[k..k + 1] == [s.cs[k]];
    ConcatOne(s.cs[k]);
    var frag := u.Get(k);
    while i < u.Length()
      invariant k <= i <= |s.cs|
      invariant i < |s.cs| ==> frag == s.Word(k, i)
      invariant forall j :: j in list <==> k <= j < i && s.d.Valid(s.Word(k, j), s.appid)
      invariant forall a :: 0 <= a < |list| ==> list[a] < i
      invariant forall a, b :: 0 <= a < b < |list| ==> list[a] < list[b]
    {
      if s.d.Valid(frag, s.appid) { list := list + [i]; }
      i := i + 1;
      frag := u.Substr(k, i + 1 - k);
    }
    if list == [] {
      assert forall m :: k <= m < |s.cs| ==> !s.d.Valid(s.Word(k, m), s.appid) by {
        assert forall m :: k <= m < |s.cs| ==> m !in list;
      }
      list := [k];
    } else {
      assert list[0] in list;
    }
  }

  /** getDag */
  method GetDag(s: Sentence, u: Utf8) returns (dag: map<nat, seq<nat>>)
    requires u.Valid() && Chars(u.data) == s.cs
    ensures forall k :: 0 <= k < |s.cs| ==> k in dag && Rising(dag[k]) && forall j :: j in dag[k] <==> s.IsEdge(k, j)
  {
    hide Chars, Sentence.IsEdge, Rising;
    u.LengthIs();
    dag := map[];
    for k := 0 to u.Length()
      invariant forall m :: 0 <= m < k ==> m in dag && Rising(dag[m]) && forall j :: j in dag[m] <==> s.IsEdge(m, j)
    {
      var list := EdgesFrom(s, u, k);
      dag := dag[k := list];
    }
  }

  /** The inner loop of calc: the heaviest edge from i, the first of several. */
  method BestEdge(s: Sentence, u: Utf8, list: seq<nat>, route: map<nat, RouteValue>, i: nat) returns (r: RouteValue)
    requires u.Valid() && Chars(u.data) == s.cs && i < |s.cs| && s.RoutesOk(route, i + 1)
    requires Rising(list) && forall j :: j in list <==> s.IsEdge(i, j)
    ensures s.RoutesOk(route[i := r], i)
  {
    hide Chars, Concat, Rising, Beats, Sentence.IsEdge, Sentence.RouteOk, Sentence.Freq;
    EdgeRange(s, i);
    r := RouteValue(Bottom, 0);
    for t := 0 to |list|
      invariant r.max.Fin? ==> s.IsEdge(i, r.idx) && r.max == s.EdgeWeight(i, r.idx).Plus(route[r.idx + 1].max)
      invariant r.max.Bottom? ==> r.idx == 0
      invariant forall j :: 0 <= j < t ==>
                  s.IsEdge(i, list[j]) && Beats(r, s.EdgeWeight(i, list[j]).Plus(route[list[j] + 1].max), list[j])
      invariant r.max.Fin? ==> exists j :: 0 <= j < t && list[j] == r.idx
    {
      var j := list[t];
      assert s.IsEdge(i, j);
      var word := u.Substr(i, j + 1 - i);
      var freq := s.Freq(word);
      var logFreq := if freq == 0 then Bottom else Fin(s.log(freq) - s.log(TOTAL));
      var value := logFreq.Plus(route[j + 1].max);
      BeatsNext(s, route, i, list, t, r);
      if r.max.Less(value) { r := RouteValue(value, j); }
    }
    RouteExtends(s, route, i, r, list);
  }

  lemma EdgeRange(s: Sentence, i: nat)
    ensures forall j: nat :: s.IsEdge(i, j) ==> i <= j < |s.cs|
  {
  }

  /** The next edge takes over if it is heavier. */
  lemma BeatsNext(s: Sentence, route: map<nat, RouteValue>, i: nat, list: seq<nat>, t: nat, r: RouteValue)
    requires t < |list| && Rising(list) && (r.max.Fin? ==> exists j :: 0 <= j < t && list[j] == r.idx)
    requires r.max.Bottom? ==> r.idx == 0
    requires forall j :: 0 <= j <= t ==> i <= list[j] < |s.cs| && list[j] + 1 in route
    requires forall j :: 0 <= j < t ==> Beats(r, s.EdgeWeight(i, list[j]).Plus(route[list[j] + 1].max), list[j])
    ensures var v := s.EdgeWeight(i, list[t]).Plus(route[list[t] + 1].max);
      var r' := if r.max.Less(v) then RouteValue(v, list[t]) else r;
      forall j :: 0 <= j <= t ==> Beats(r', s.EdgeWeight(i, list[j]).Plus(route[list[j] + 1].max), list[j])
  {
    hide Sentence.EdgeWeight;
  }

  lemma RouteExtends(s: Sentence, route: map<nat, RouteValue>, i: nat, r: RouteValue, list: seq<nat>)
    requires i < |s.cs| && s.RoutesOk(route, i + 1)
    requires forall j :: j in list <==> s.IsEdge(i, j)
    requires r.max.Fin? ==> s.IsEdge(i, r.idx) && r.max == s.EdgeWeight(i, r.idx).Plus(route[r.idx + 1].max)
    requires r.max.Bottom? ==> r.idx == 0
    requires forall j :: 0 <= j < |list| ==>
               s.IsEdge(i, list[j]) && Beats(r, s.EdgeWeight(i, list[j]).Plus(route[list[j] + 1].max), list[j])
    ensures s.RoutesOk(route[i := r], i)
  {
    hide Sentence.EdgeWeight, Sentence.RouteOk, Sentence.IsEdge, Beats;
    EdgeRange(s, i);
    var n := route[i := r];
    RouteNew(s, route, i, r, list);
    forall k | i < k < |s.cs|
      ensures s.RouteOk(n, k)
    {
      RouteOld(s, route, i, r, k);
    }
  }

  lemma RouteNew(s: Sentence, route: map<nat, RouteValue>, i: nat, r: RouteValue, list: seq<nat>)
    requires i < |s.cs| && forall k :: i < k <= |s.cs| ==> k in route
    requires forall j :: j in list <==> s.IsEdge(i, j)
    requires r.max.Fin? ==> s.IsEdge(i, r.idx) && r.max == s.EdgeWeight(i, r.idx).Plus(route[r.idx + 1].max)
    requires r.max.Bottom? ==> r.idx == 0
    requires forall j :: 0 <= j < |list| ==>
               s.IsEdge(i, list[j]) && Beats(r, s.EdgeWeight(i, list[j]).Plus(route[list[j] + 1].max), list[j])
    ensures s.RouteOk(route[i := r], i)
  {
    hide Sentence.EdgeWeight, Sentence.IsEdge, Beats;
    EdgeRange(s, i);
    var n := route[i := r];
    forall j | s.IsEdge(i, j)
      ensures Beats(r, s.EdgeWeight(i, j).Plus(n[j + 1].max), j)
    {
      assert j in list;
    }
  }

  lemma RouteOld(s: Sentence, route: map<nat, RouteValue>, i: nat, r: RouteValue, k: nat)
    requires i < k < |s.cs| && (forall m :: i < m <= |s.cs| ==> m in route) && s.RouteOk(route, k)
    ensures s.RouteOk(route[i := r], k)
  {
    hide Sentence.EdgeWeight, Sentence.IsEdge, Beats;
    EdgeRange(s, k);
  }

  /** calc */
  method Calc(s: Sentence, u: Utf8, dag: map<nat, seq<nat>>) returns (route: map<nat, RouteValue>)
    requires u.Valid() && Chars(u.data) == s.cs
    requires forall k :: 0 <= k < |s.cs| ==> k in dag && Rising(dag[k]) && forall j :: j in dag[k] <==> s.IsEdge(k, j)
    ensures s.RoutesOk(route, 0)
  {
    hide Chars, Sentence.IsEdge, Sentence.RouteOk, Rising;
    u.LengthIs();
    var n := u.Length();
    route := map[n := RouteValue(Fin(0.0), 0)];
    var i := n - 1;
    while i > -1
      invariant -1 <= i < n && s.RoutesOk(route, i + 1)
    {
      var r := BestEdge(s, u, dag[i], route, i);
      route := route[i := r];
      i := i - 1;
    }
  }

  /** No path weighs more than the route where it starts. */
  lemma {:induction false} RouteIsUpper(s: Sentence, route: map<nat, RouteValue>, i: nat, p: seq<nat>)
    requires s.RoutesOk(route, 0) && i <= |s.cs| && s.IsPath(i, p)
    ensures !route[i].max.Less(s.PathWeight(i, p))
    decreases |p|
  {
    hide Sentence.EdgeWeight;
    if p != [] {
      RouteIsUpper(s, route, p[0] + 1, p[1..]);
      assert s.RouteOk(route, i);
    }
  }

  /** The path along the routes from i. */
  ghost function RoutePath(s: Sentence, route: map<nat, RouteValue>, i: nat): (p: seq<nat>)
    requires s.RoutesOk(route, 0) && i <= |s.cs| && route[i].max.Fin?
    ensures s.IsPath(i, p)
    decreases |s.cs| - i
  {
    if i == |s.cs| then []
    else
      assert s.RouteOk(route, i);
      [route[i].idx] + RoutePath(s, route, route[i].idx + 1)
  }

  /** It weighs what the routes promise. */
  lemma {:induction false} RouteIsReached(s: Sentence, route: map<nat, RouteValue>, i: nat)
    requires s.RoutesOk(route, 0) && i <= |s.cs| && route[i].max.Fin?
    ensures s.PathWeight(i, RoutePath(s, route, i)) == route[i].max
    decreases |s.cs| - i
  {
    hide Sentence.EdgeWeight;
    if i < |s.cs| {
      assert s.RouteOk(route, i);
      RouteIsReached(s, route, route[i].idx + 1);
      PathCons(s, i, route[i].idx, RoutePath(s, route, route[i].idx + 1));
    }
  }

  /** One step along the routes. */
  lemma RouteStep(s: Sentence, route: map<nat, RouteValue>, i: nat, ws: seq<Bytes>)
    requires s.RoutesOk(route, 0) && i < |s.cs|
    ensures route[i].max.Bottom? ==> route[i].idx == 0
    ensures route[i].max.Fin? ==> var j := route[i].idx;
      i <= j < |s.cs| && route[j + 1].max.Fin? &&
      ws + s.PathWords(i, RoutePath(s, route, i)) ==
      (ws + [s.Word(i, j)]) + s.PathWords(j + 1, RoutePath(s, route, j + 1))
  {
    hide Sentence.EdgeWeight;
    assert s.RouteOk(route, i);
    if route[i].max.Fin? {
      assert route[route[i].idx + 1].max.Fin?;
      PathCons(s, i, route[i].idx, RoutePath(s, route, route[i].idx + 1));
    }
  }

  lemma RouteFinite(s: Sentence, route: map<nat, RouteValue>, i: nat)
    requires s.RoutesOk(route, 0) && i <= |s.cs|
    ensures route[i].max.Fin? <==> s.HasRoute(i)
  {
    if route[i].max.Fin? {
      RouteIsReached(s, route, i);
    } else if s.HasRoute(i) {
      var p :| s.IsPath(i, p) && s.PathWeight(i, p).Fin?;
      RouteIsUpper(s, route, i, p);
    }
  }

  /** One word more before a path. */
  lemma PathCons(s: Sentence, i: nat, j: nat, p: seq<nat>)
    requires s.IsEdge(i, j) && s.IsPath(j + 1, p)
    ensures s.IsPath(i, [j] + p) && s.PathWeight(i, [j] + p) == s.EdgeWeight(i, j).Plus(s.PathWeight(j + 1, p))
    ensures s.PathWords(i, [j] + p) == [s.Word(i, j)] + s.PathWords(j + 1, p)
  {
    assert ([j] + p)[1..] == p;
  }

  /** If every edge has a positive frequency, there is a route from everywhere. */
  lemma {:induction false} AllFrequent(s: Sentence, i: nat)
    requires i <= |s.cs| && forall k, j :: s.IsEdge(k, j) ==> s.Freq(s.Word(k, j)) >= 1
    ensures s.HasRoute(i)
    decreases |s.cs| - i
  {
    hide Sentence.Freq;
    if i == |s.cs| {
      assert s.IsPath(i, []) && s.PathWeight(i, []).Fin?;
    } else {
      var j := SomeEdge(s, i);
      AllFrequent(s, j + 1);
      var p :| s.IsPath(j + 1, p) && s.PathWeight(j + 1, p).Fin?;
      PathCons(s, i, j, p);
    }
  }

  lemma SomeEdge(s: Sentence, i: nat) returns (j: nat)
    requires i < |s.cs|
    ensures s.IsEdge(i, j)
  {
    j := i;
    if m :| i <= m < |s.cs| && s.d.Valid(s.Word(i, m), s.appid) { j := m; }
  }

  /** The words on a path make up the rest of the sentence. */
  lemma {:induction false} PathSegments(s: Sentence, i: nat, p: seq<nat>)
    requires AllChars(s.cs) && i <= |s.cs| && s.IsPath(i, p)
    ensures Segments(s.PathWords(i, p), s.cs[i..])
    decreases |p|
  {
    hide Concat, Chars;
    ConcatNone();
    if p == [] {
      assert s.cs[i..] == [];
    } else {
      var j := p[0];
      PathSegments(s, j + 1, p[1..]);
      var rest := s.cs[i..];
      assert rest[..j + 1 - i] == s.cs[i..j + 1] && rest[j + 1 - i..] == s.cs[j + 1..];
      WordAndRest(rest, j + 1 - i);
      ConcatCons(s.Word(i, j), s.PathWords(j + 1, p[1..]));
    }
  }

  /** The emitted words are those on a path at least as heavy as any other. */
  ghost predicate Heaviest(s: Sentence, p: seq<nat>, ws: seq<Bytes>) {
    s.IsPath(0, p) && ws == s.PathWords(0, p) &&
    forall q :: s.IsPath(0, q) ==> !s.PathWeight(0, p).Less(s.PathWeight(0, q))
  }

  /** The words along the routes from `start`, after the characters before it. */
  ghost function RouteWords(s: Sentence, route: map<nat, RouteValue>, start: nat): (ws: seq<Bytes>)
    requires s.RoutesOk(route, 0) && start <= |s.cs| && start <= 1 && route[start].max.Fin?
  {
    (if start == 0 then [] else [s.Word(0, 0)]) + s.PathWords(start, RoutePath(s, route, start))
  }

  /** The words along such routes. */
  ghost predicate Chosen(s: Sentence, ws: seq<Bytes>) {
    exists route :: s.RoutesOk(route, 0) && FromStart(s, route, ws)
  }

  /** From character 0 if a route leads to the end from there, else after it. */
  ghost predicate FromStart(s: Sentence, route: map<nat, RouteValue>, ws: seq<Bytes>)
    requires s.RoutesOk(route, 0)
  {
    var start := if route[0].max.Fin? then 0 else 1;
    start <= |s.cs| && route[start].max.Fin? && ws == RouteWords(s, route, start)
  }

  lemma RouteWordsRight(s: Sentence, route: map<nat, RouteValue>, start: nat)
    requires s.RoutesOk(route, 0) && AllChars(s.cs) && start <= |s.cs| && start <= 1 && route[start].max.Fin?
    ensures Segments(RouteWords(s, route, start), s.cs)
    ensures start == 0 ==> Heaviest(s, RoutePath(s, route, 0), RouteWords(s, route, 0))
  {
    hide Concat, Chars, Sentence.EdgeWeight, Sentence.RouteOk;
    var p := RoutePath(s, route, start);
    PathSegments(s, start, p);
    if start == 0 {
      assert s.cs[0..] == s.cs && RouteWords(s, route, 0) == s.PathWords(0, p);
      RouteIsReached(s, route, 0);
      forall q | s.IsPath(0, q)
        ensures !s.PathWeight(0, p).Less(s.PathWeight(0, q))
      {
        RouteIsUpper(s, route, 0, q);
      }
    } else {
      WordAndRest(s.cs, 1);
      assert s.cs[0..1] == s.cs[..1];
      ConcatCons(s.Word(0, 0), s.PathWords(1, p));
    }
  }

  lemma RouteEnd(s: Sentence, route: map<nat, RouteValue>, ws: seq<Bytes>)
    requires s.RoutesOk(route, 0)
    ensures route[|s.cs|].max.Fin? && ws + s.PathWords(|s.cs|, RoutePath(s, route, |s.cs|)) == ws
  {
  }

  /**
   ConcreteSplit; `ok` is false where the emitting loop would stay at character 1 for ever.
   It ends exactly if words of positive frequency lead from character 0 or from character 1 to the end.
   */
  method ConcreteSplit(d: Dict, appid: nat, log: nat -> real, str: Bytes)
    returns (ok: bool, ws: seq<Bytes>, ghost p: seq<nat>)
    ensures var s := Sentence(d, appid, log, Chars(str)); ok <==> s.HasRoute(0) || s.HasRoute(1)
    ensures ok ==> Segments(ws, Chars(str)) && Chosen(Sentence(d, appid, log, Chars(str)), ws)
    ensures var s := Sentence(d, appid, log, Chars(str)); s.HasRoute(0) ==> Heaviest(s, p, ws)
  {
    hide Chars, Concat, Sentence.RouteOk, Sentence.PathWeight, Sentence.PathWords, Sentence.IsPath, Sentence.HasRoute,
         RoutePath;
    var u := Refresh(str);
    var s := Sentence(d, appid, log, Chars(str));
    var dag := GetDag(s, u);
    var route := Calc(s, u, dag);
    CharsAreChars(str);
    RouteFinite(s, route, 0);
    ghost var start := if route[0].max.Fin? then 0 else 1;
    RouteFinite(s, route, start);
    if start == 0 { p := RoutePath(s, route, 0); } else { p := []; }
    ws := [];
    var i := 0;
    while i < u.Length()
      invariant i <= |s.cs| && (i < start ==> ws == [])
      invariant i >= start && route[start].max.Fin? ==>
        route[i].max.Fin? && ws + s.PathWords(i, RoutePath(s, route, i)) == RouteWords(s, route, start)
      invariant i >= start && route[start].max.Bottom? ==> i == start
      decreases |s.cs| - i
    {
      RouteStep(s, route, i, ws);
      var j := route[i].idx + 1;
      if j == i { return false, ws, p; }
      var word := u.Substr(i, j - i);
      ws := ws + [word];
      i := j;
    }
    RouteEnd(s, route, ws);
    RouteWordsRight(s, route, start);
    ok := true;
  }

  /** Two characters; the dictionary knows the second one for appid 7 only, with frequency 5. */
  function Unlucky(log: nat -> real): (s: Sentence) {
    Sentence(Dict(map[[98] := map[7 := 5]], {}, {}), 1, log, [[97], [98]])
  }

  /** For appid 1 that sentence has no route, so the emitting loop never ends. */
  lemma FrequencyZero(log: nat -> real)
    ensures var s := Unlucky(log); AllChars(s.cs) && !s.HasRoute(0) && !s.HasRoute(1)
  {
    var s := Unlucky(log);
    assert s.cs[1..2] == [[98]];
    ConcatOne([98]);
    assert s.Word(1, 1) == [98] && s.EdgeWeight(1, 1) == Bottom;
    assert forall w :: !s.d.Valid(w, 1);
    forall p | s.IsPath(1, p)
      ensures s.PathWeight(1, p) == Bottom
    {
      assert p != [] && p[0] == 1;
    }
    forall p | s.IsPath(0, p)
      ensures s.PathWeight(0, p) == Bottom
    {
      assert p != [] && p[0] == 0;
      assert s.IsPath(1, p[1..]);
    }
  }
}
