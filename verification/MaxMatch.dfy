/**
 The dictionary of the segmenters, and forward and backward maximum matching.
 */
module MaxMatch {
  import opened ByteText
  import opened Utf8Text

  const MAX_WORD_LEN: nat := 8

  /** Words with their frequency for each appid, punctuation marks, letters and digits. */
  datatype Dict = Dict(words: map<Bytes, map<nat, nat>>, punct: set<Bytes>, alpha: set<Bytes>) {
    /** WordValid: known to everyone (appid 0) or to this appid. */
    predicate Valid(word: Bytes, appid: nat) {
      word !in punct && word in words && (0 in words[word] || appid in words[word])
    }
  }

  /** A list of words that makes up a text of these characters. */
  ghost predicate Segments(ws: seq<Bytes>, cs: seq<Bytes>) {
    AllClean(ws) && Concat(ws) == Concat(cs)
  }

  /** Words that make up a text hold exactly its characters. */
  lemma SegmentsChars(ws: seq<Bytes>, cs: seq<Bytes>)
    requires Segments(ws, cs) && AllChars(cs)
    ensures Flat(ws) == cs
  {
    FlatConcat(ws);
    CharsConcat(cs);
  }

  lemma ConcatClean(cs: seq<Bytes>)
    requires AllChars(cs) && cs != []
    ensures Clean(Concat(cs)) && Concat(cs) != []
  {
    CharsConcat(cs);
    assert Concat(cs) == Concat(cs[..|cs| - 1]) + cs[|cs| - 1];
  }

  function FirstWord(cs: seq<Bytes>, n: nat): (r: Bytes)
    requires n <= |cs|
  {
    Concat(cs[..n])
  }

  function LastWord(cs: seq<Bytes>, n: nat): (r: Bytes)
    requires n <= |cs|
  {
    Concat(cs[|cs| - n..])
  }

  /** A text is its first word and the rest, or all before its last word and that. */
  lemma WordAndRest(cs: seq<Bytes>, n: nat)
    requires AllChars(cs) && 1 <= n <= |cs|
    ensures Clean(FirstWord(cs, n)) && FirstWord(cs, n) != [] && Concat(cs) == FirstWord(cs, n) + Concat(cs[n..])
    ensures Clean(LastWord(cs, n)) && LastWord(cs, n) != [] && Concat(cs) == Concat(cs[..|cs| - n]) + LastWord(cs, n)
  {
    hide Concat, Chars;
    var k := |cs| - n;
    ConcatClean(cs[..n]);
    ConcatClean(cs[k..]);
    ConcatPlus(cs[..n], cs[n..]);
    ConcatPlus(cs[..k], cs[k..]);
    assert cs == cs[..n] + cs[n..] == cs[..k] + cs[k..];
  }

  /** The longest word of at most `limit` characters at the start, or one character. */
  function LongestFirst(d: Dict, appid: nat, cs: seq<Bytes>, limit: nat): (n: nat)
    requires 1 <= limit <= |cs|
    ensures 1 <= n <= limit && (n > 1 ==> d.Valid(FirstWord(cs, n), appid))
    ensures forall m :: n < m <= limit ==> !d.Valid(FirstWord(cs, m), appid)
  {
    if limit == 1 || d.Valid(FirstWord(cs, limit), appid) then limit else LongestFirst(d, appid, cs, limit - 1)
  }

  /** The longest word of at most `limit` characters at the end, or one character. */
  function LongestLast(d: Dict, appid: nat, cs: seq<Bytes>, limit: nat): (n: nat)
    requires 1 <= limit <= |cs|
    ensures 1 <= n <= limit && (n > 1 ==> d.Valid(LastWord(cs, n), appid))
    ensures forall m :: n < m <= limit ==> !d.Valid(LastWord(cs, m), appid)
  {
    if limit == 1 || d.Valid(LastWord(cs, limit), appid) then limit else LongestLast(d, appid, cs, limit - 1)
  }

  function Limit(n: nat): (r: nat) {
    if n < MAX_WORD_LEN then n else MAX_WORD_LEN
  }

  function Forward(d: Dict, appid: nat, cs: seq<Bytes>): (ws: seq<Bytes>) {
    if cs == [] then []
    else
      var n := LongestFirst(d, appid, cs, Limit(|cs|));
      [FirstWord(cs, n)] + Forward(d, appid, cs[n..])
  }

  function Backward(d: Dict, appid: nat, cs: seq<Bytes>): (ws: seq<Bytes>) {
    if cs == [] then []
    else
      var n := LongestLast(d, appid, cs, Limit(|cs|));
      Backward(d, appid, cs[..|cs| - n]) + [LastWord(cs, n)]
  }

  lemma {:induction false} ForwardSegments(d: Dict, appid: nat, cs: seq<Bytes>)
    requires AllChars(cs)
    ensures Segments(Forward(d, appid, cs), cs)
    decreases |cs|
  {
    hide LongestFirst, FirstWord, Concat, Chars;
    if cs != [] {
      var n := LongestFirst(d, appid, cs, Limit(|cs|));
      ForwardSegments(d, appid, cs[n..]);
      ConcatCons(FirstWord(cs, n), Forward(d, appid, cs[n..]));
      WordAndRest(cs, n);
    } else {
      ConcatNone();
    }
  }

  lemma {:induction false} BackwardSegments(d: Dict, appid: nat, cs: seq<Bytes>)
    requires AllChars(cs)
    ensures Segments(Backward(d, appid, cs), cs)
    decreases |cs|
  {
    hide LongestLast, LastWord, Concat, Chars;
    if cs != [] {
      var n := LongestLast(d, appid, cs, Limit(|cs|));
      BackwardSegments(d, appid, cs[..|cs| - n]);
      ConcatSnoc(Backward(d, appid, cs[..|cs| - n]), LastWord(cs, n));
      WordAndRest(cs, n);
    } else {
      ConcatNone();
    }
  }

  /** The first characters of a window, seen from the text: what phrase_sub and key hold. */
  lemma WindowFirst(cs: seq<Bytes>, i: nat, end: nat, j: nat)
    requires i < end <= |cs| && 1 <= j <= end - i
    ensures Concat(cs[i..end][0..j]) == FirstWord(cs[i..], j) && cs[i..end][0] == FirstWord(cs[i..], 1)
  {
    hide Concat;
    assert cs[i..end][0..j] == cs[i..][..j];
    ConcatOne(cs[i]);
    assert cs[i..][..1] == [cs[i]];
  }

  lemma WindowLast(cs: seq<Bytes>, start: nat, i: nat, j: nat)
    requires start < i <= |cs| && j < i - start
    ensures Concat(cs[start..i][j..j + (i - start - j)]) == LastWord(cs[..i], i - start - j) &&
            cs[start..i][i - start - 1] == LastWord(cs[..i], 1)
  {
    hide Concat;
    assert cs[start..i][j..j + (i - start - j)] == cs[..i][start + j..];
    ConcatOne(cs[i - 1]);
    assert cs[..i][i - 1..] == [cs[i - 1]];
  }

  lemma ConcatOne(c: Bytes)
    ensures Concat([c]) == c
  {
    ConcatSnoc([], c);
    assert [] + [c] == [c] && Concat([]) + c == c;
  }

  /** One step of either search. */
  lemma LongestStep(d: Dict, appid: nat, cs: seq<Bytes>, limit: nat)
    requires 1 <= limit <= |cs|
    ensures limit == 1 || d.Valid(FirstWord(cs, limit), appid) ==> LongestFirst(d, appid, cs, limit) == limit
    ensures limit > 1 && !d.Valid(FirstWord(cs, limit), appid) ==>
      LongestFirst(d, appid, cs, limit) == LongestFirst(d, appid, cs, limit - 1)
    ensures limit == 1 || d.Valid(LastWord(cs, limit), appid) ==> LongestLast(d, appid, cs, limit) == limit
    ensures limit > 1 && !d.Valid(LastWord(cs, limit), appid) ==>
      LongestLast(d, appid, cs, limit) == LongestLast(d, appid, cs, limit - 1)
  {
    hide FirstWord, LastWord;
  }

  /** One round of forward matching at character i. */
  method MatchFirst(d: Dict, appid: nat, phrase: Utf8, i: nat) returns (word: Bytes, n: nat)
    requires phrase.Valid() && i < |Chars(phrase.data)|
    ensures n == LongestFirst(d, appid, Chars(phrase.data)[i..], Limit(|Chars(phrase.data)| - i))
    ensures word == FirstWord(Chars(phrase.data)[i..], n)
  {
    hide Chars, Concat, FirstWord, LastWord, LongestFirst, LongestLast, Starts, Utf8.Substr, Utf8.Get;
    phrase.LengthIs();
    ghost var cs := Chars(phrase.data);
    var end := i + MAX_WORD_LEN;
    if end >= phrase.Length() { end := phrase.Length(); }
    var sub := Refresh(phrase.Substr(i, end - i));
    var j := sub.Length();
    while j >= 0
      invariant 1 <= j <= end - i
      invariant LongestFirst(d, appid, cs[i..], end - i) == LongestFirst(d, appid, cs[i..], j)
    {
      WindowFirst(cs, i, end, j);
      LongestStep(d, appid, cs[i..], j);
      if j == 1 { break; }
      var key := sub.Substr(0, j);
      if d.Valid(key, appid) {
        var u := Refresh(key);
        return key, u.Length();
      }
      j := j - 1;
    }
    word, n := sub.Get(0), 1;
  }

  lemma ForwardStep(d: Dict, appid: nat, cs: seq<Bytes>, ws: seq<Bytes>)
    requires cs != []
    ensures var n := LongestFirst(d, appid, cs, Limit(|cs|));
      ws + Forward(d, appid, cs) == (ws + [FirstWord(cs, n)]) + Forward(d, appid, cs[n..])
  {
    hide LongestFirst, FirstWord;
  }

  lemma BackwardStep(d: Dict, appid: nat, cs: seq<Bytes>, ws: seq<Bytes>)
    requires cs != []
    ensures var n := LongestLast(d, appid, cs, Limit(|cs|));
      Backward(d, appid, cs) + ws == Backward(d, appid, cs[..|cs| - n]) + ([LastWord(cs, n)] + ws)
  {
    hide LongestLast, LastWord;
  }

  lemma NothingLeft(d: Dict, appid: nat, cs: seq<Bytes>)
    ensures Forward(d, appid, cs[|cs|..]) == [] && Backward(d, appid, cs[..0]) == []
  {
  }

  /** FmmSegment::ConcreteSplit, and the forward pass of NgramSegment */
  method Fmm(d: Dict, appid: nat, str: Bytes) returns (ws: seq<Bytes>)
    ensures ws == Forward(d, appid, Chars(str))
  {
    hide Chars, Concat, FirstWord, LastWord, LongestFirst, LongestLast, Forward, Backward;
    var phrase := Refresh(str);
    ghost var cs := Chars(str);
    ws := [];
    var i := 0;
    assert cs[0..] == cs;
    while i < phrase.Length()
      invariant 0 <= i <= |cs|
      invariant Forward(d, appid, cs) == ws + Forward(d, appid, cs[i..])
    {
      var word, n := MatchFirst(d, appid, phrase, i);
      assert cs[i..][n..] == cs[i + n..];
      ForwardStep(d, appid, cs[i..], ws);
      ws := ws + [word];
      i := i + n;
    }
    NothingLeft(d, appid, cs);
  }

  /** One round of backward matching before character i. */
  method MatchLast(d: Dict, appid: nat, phrase: Utf8, i: nat) returns (word: Bytes, n: nat)
    requires phrase.Valid() && 0 < i <= |Chars(phrase.data)|
    ensures n == LongestLast(d, appid, Chars(phrase.data)[..i], Limit(i))
    ensures word == LastWord(Chars(phrase.data)[..i], n)
  {
    hide Chars, Concat, FirstWord, LastWord, LongestFirst, LongestLast, Starts, Utf8.Substr, Utf8.Get;
    ghost var cs := Chars(phrase.data);
    var start := i - MAX_WORD_LEN;
    if start < 0 { start := 0; }
    var sub := Refresh(phrase.Substr(start, i - start));
    var len := sub.Length();
    var j := 0;
    while j < len
      invariant 0 <= j < len == i - start
      invariant LongestLast(d, appid, cs[..i], len) == LongestLast(d, appid, cs[..i], len - j)
    {
      WindowLast(cs, start, i, j);
      LongestStep(d, appid, cs[..i], len - j);
      if j == len - 1 { break; }
      var key := sub.Substr(j, len - j);
      if d.Valid(key, appid) {
        var u := Refresh(key);
        return key, u.Length();
      }
      j := j + 1;
    }
    word, n := sub.Get(j), 1;
  }

  /** BmmSegment::ConcreteSplit, and the backward pass of NgramSegment */
  method Bmm(d: Dict, appid: nat, str: Bytes) returns (ws: seq<Bytes>)
    ensures ws == Backward(d, appid, Chars(str))
  {
    hide Chars, Concat, FirstWord, LastWord, LongestFirst, LongestLast, Forward, Backward;
    var phrase := Refresh(str);
    ghost var cs := Chars(str);
    ws := [];
    var i := phrase.Length();
    assert cs[..i] == cs;
    while i > 0
      invariant 0 <= i <= |cs|
      invariant Backward(d, appid, cs) == Backward(d, appid, cs[..i]) + ws
    {
      var word, n := MatchLast(d, appid, phrase, i);
      assert cs[..i][..i - n] == cs[..i - n];
      BackwardStep(d, appid, cs[..i], ws);
      ws := [word] + ws;
      i := i - n;
    }
    NothingLeft(d, appid, cs);
  }

  /** A word of at least one and at most eight characters that everyone or this appid knows, and no punctuation. */
  ghost predicate Known(d: Dict, appid: nat, cs: seq<Bytes>) {
    var w := Concat(cs);
    1 <= |cs| <= 8 && w !in d.punct && w in d.words && (d.words[w].Keys * {0, appid} != {})
  }

  /** Forward matching takes the longest such word, or one character, and goes on behind it. */
  lemma ForwardMeans(d: Dict, appid: nat, cs: seq<Bytes>) returns (n: nat)
    requires cs != []
    ensures 1 <= n <= |cs| && Forward(d, appid, cs) == [Concat(cs[..n])] + Forward(d, appid, cs[n..])
    ensures n == 1 || Known(d, appid, cs[..n])
    ensures forall m :: n < m <= |cs| ==> !Known(d, appid, cs[..m])
  {
    hide Concat, LongestFirst;
    n := LongestFirst(d, appid, cs, Limit(|cs|));
    if n > 1 { ValidMeans(d, appid, FirstWord(cs, n)); }
    forall m | n < m <= |cs|
      ensures !Known(d, appid, cs[..m])
    {
      ValidMeans(d, appid, FirstWord(cs, m));
    }
  }

  /** Backward matching takes the longest one at the end, and goes on before it. */
  lemma BackwardMeans(d: Dict, appid: nat, cs: seq<Bytes>) returns (k: nat)
    requires cs != []
    ensures k < |cs| && Backward(d, appid, cs) == Backward(d, appid, cs[..k]) + [Concat(cs[k..])]
    ensures k == |cs| - 1 || Known(d, appid, cs[k..])
    ensures forall m :: 0 <= m < k ==> !Known(d, appid, cs[m..])
  {
    hide Concat, LongestLast;
    var n := LongestLast(d, appid, cs, Limit(|cs|));
    k := |cs| - n;
    if n > 1 { ValidMeans(d, appid, LastWord(cs, n)); }
    forall m | 0 <= m < k
      ensures !Known(d, appid, cs[m..])
    {
      assert cs[|cs| - (|cs| - m)..] == cs[m..];
      ValidMeans(d, appid, LastWord(cs, |cs| - m));
    }
  }

  lemma ValidMeans(d: Dict, appid: nat, w: Bytes)
    ensures d.Valid(w, appid) <==> w !in d.punct && w in d.words && d.words[w].Keys * {0, appid} != {}
  {
    if w in d.words {
      var both := d.words[w].Keys * {0, appid};
      assert 0 in d.words[w] <==> 0 in both;
      assert appid in d.words[w] <==> appid in both;
    }
  }
}
