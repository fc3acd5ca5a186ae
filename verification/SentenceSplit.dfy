/**
 Segment::Split without HMM: punctuation is dropped, letters and digits stay together, the rest is segmented.
 */
module SentenceSplit {
  import opened ByteText
  import opened Utf8Text
  import opened MaxMatch
  import DagSegment
  import NgramMerge

  /** The four classes that override ConcreteSplit. */
  datatype Segmenter = Fmm | Bmm | Dag(log: nat -> real) | Ngram(prob: seq<Bytes> -> real)

  datatype Kind = Alnum | Punct | Other

  function KindOf(d: Dict, c: Bytes): (k: Kind) {
    if c in d.alpha then Alnum else if c in d.punct then Punct else Other
  }

  /** What Init makes of the two character sets. */
  ghost predicate Initialised(d: Dict) {
    d.alpha !! d.punct && (forall c :: c in d.alpha ==> IsChar(c)) && forall c :: c in d.punct ==> IsChar(c)
  }

  /** How many characters from the start are of kind k. */
  function Span(d: Dict, k: Kind, cs: seq<Bytes>): (n: nat)
    ensures n <= |cs| && (forall i :: 0 <= i < n ==> KindOf(d, cs[i]) == k) && (n < |cs| ==> KindOf(d, cs[n]) != k)
  {
    if cs == [] || KindOf(d, cs[0]) != k then 0 else 1 + Span(d, k, cs[1..])
  }

  /** The maximal stretches of letters and digits and of other characters, between punctuation marks. */
  function Runs(d: Dict, cs: seq<Bytes>): (rs: seq<seq<Bytes>>)
    decreases |cs|
  {
    if cs == [] then []
    else if KindOf(d, cs[0]) == Punct then Runs(d, cs[1..])
    else
      var n := Span(d, KindOf(d, cs[0]), cs);
      [cs[..n]] + Runs(d, cs[n..])
  }

  function NotPunct(d: Dict, cs: seq<Bytes>): (r: seq<Bytes>) {
    if cs == [] then []
    else (if KindOf(d, cs[0]) == Punct then [] else [cs[0]]) + NotPunct(d, cs[1..])
  }

  function Join(parts: seq<seq<Bytes>>): (r: seq<Bytes>) {
    if parts == [] then [] else Join(parts[..|parts| - 1]) + parts[|parts| - 1]
  }

  // ---- runs as the loop collects them ----

  /** A stretch of one kind. */
  ghost predicate IsRun(d: Dict, r: seq<Bytes>, k: Kind) {
    r != [] && AllChars(r) && k != Punct && forall i :: 0 <= i < |r| ==> KindOf(d, r[i]) == k
  }

  /** The runs of `rest`, the first of which may continue `run`. */
  ghost function RunsFrom(d: Dict, run: seq<Bytes>, rest: seq<Bytes>): (rs: seq<seq<Bytes>>)
    decreases |rest|
  {
    var closed := if run == [] then [] else [run];
    if rest == [] then closed
    else
      var k := KindOf(d, rest[0]);
      if k == Punct then closed + RunsFrom(d, [], rest[1..])
      else if run != [] && KindOf(d, run[0]) != k then closed + RunsFrom(d, [rest[0]], rest[1..])
      else RunsFrom(d, run + [rest[0]], rest[1..])
  }

  lemma RunsSkip(d: Dict, cs: seq<Bytes>)
    ensures Runs(d, []) == [] && (cs != [] && KindOf(d, cs[0]) == Punct ==> Runs(d, cs) == Runs(d, cs[1..]))
  {
    hide KindOf;
  }

  lemma SpanSplit(run: seq<Bytes>, rest: seq<Bytes>, n: nat)
    requires 1 <= n <= |rest|
    ensures run + [rest[0]] + rest[1..][..n - 1] == run + rest[..n] && rest[1..][n - 1..] == rest[n..]
  {
    assert rest[..n] == [rest[0]] + rest[1..][..n - 1];
  }

  lemma {:induction false} RunsFromStarted(d: Dict, run: seq<Bytes>, rest: seq<Bytes>, k: Kind)
    requires run != [] && KindOf(d, run[0]) == k != Punct
    ensures var n := Span(d, k, rest); RunsFrom(d, run, rest) == [run + rest[..n]] + Runs(d, rest[n..])
    decreases |rest|, 1
  {
    hide KindOf, Runs;
    var n := Span(d, k, rest);
    if n == 0 {
      assert run + rest[..0] == run && rest[0..] == rest;
      RunsSkip(d, rest);
      if rest != [] {
        RunsFromNone(d, rest[1..]);
        if KindOf(d, rest[0]) != Punct { RunsFromFirst(d, rest); }
      }
    } else {
      RunsFromStarted(d, run + [rest[0]], rest[1..], k);
      SpanSplit(run, rest, n);
    }
  }

  lemma RunsFromFirst(d: Dict, cs: seq<Bytes>)
    requires cs != [] && KindOf(d, cs[0]) != Punct
    ensures RunsFrom(d, [cs[0]], cs[1..]) == Runs(d, cs)
    decreases |cs| - 1, 2
  {
    hide KindOf;
    var k := KindOf(d, cs[0]);
    var n := Span(d, k, cs[1..]);
    RunsFromStarted(d, [cs[0]], cs[1..], k);
    assert [cs[0]] + cs[1..][..n] == cs[..n + 1] && cs[1..][n..] == cs[n + 1..];
  }

  /** The loop's way of collecting gives the maximal stretches. */
  lemma RunsFromNone(d: Dict, cs: seq<Bytes>)
    ensures RunsFrom(d, [], cs) == Runs(d, cs)
    decreases |cs|, 0
  {
    hide KindOf;
    if cs != [] {
      if KindOf(d, cs[0]) == Punct {
        RunsFromNone(d, cs[1..]);
      } else {
        assert [] + [cs[0]] == [cs[0]];
        RunsFromFirst(d, cs);
      }
    }
  }

  /** Stretches hold the characters that are not punctuation, in order. */
  lemma {:induction false} RunsText(d: Dict, cs: seq<Bytes>)
    ensures Join(Runs(d, cs)) == NotPunct(d, cs)
    decreases |cs|
  {
    hide KindOf;
    if cs != [] {
      if KindOf(d, cs[0]) == Punct {
        RunsText(d, cs[1..]);
      } else {
        var n := Span(d, KindOf(d, cs[0]), cs);
        RunsText(d, cs[n..]);
        NotPunctRun(d, cs, n);
        JoinCons(cs[..n], Runs(d, cs[n..]));
      }
    }
  }

  lemma {:induction false} NotPunctRun(d: Dict, cs: seq<Bytes>, n: nat)
    requires n <= |cs| && forall i :: 0 <= i < n ==> KindOf(d, cs[i]) != Punct
    ensures NotPunct(d, cs) == cs[..n] + NotPunct(d, cs[n..])
  {
    hide KindOf;
    if n > 0 {
      NotPunctRun(d, cs[1..], n - 1);
      assert cs[1..][..n - 1] == cs[1..n] && cs[1..][n - 1..] == cs[n..] && cs[..n] == [cs[0]] + cs[1..n];
    } else {
      assert cs[0..] == cs;
    }
  }

  lemma {:induction false} JoinPlus(a: seq<seq<Bytes>>, b: seq<seq<Bytes>>)
    ensures Join(a + b) == Join(a) + Join(b)
  {
    if b == [] {
      assert a + b == a;
    } else {
      var m := |b| - 1;
      JoinPlus(a, b[..m]);
      assert (a + b)[..|a| + m] == a + b[..m] && (a + b)[|a| + m] == b[m];
    }
  }

  lemma JoinCons(x: seq<Bytes>, xs: seq<seq<Bytes>>)
    ensures Join([x] + xs) == x + Join(xs)
  {
    JoinPlus([x], xs);
    assert [x][..0] == [] && Join([x]) == x;
  }

  // ---- segmenting one stretch ----

  /** What the segmenter promises for a stretch. */
  ghost predicate SegmentedBy(m: Segmenter, d: Dict, appid: nat, cs: seq<Bytes>, ws: seq<Bytes>) {
    Segments(ws, cs) &&
    match m
    case Fmm => ws == Forward(d, appid, cs)
    case Bmm => ws == Backward(d, appid, cs)
    case Dag(log) =>
      var s := DagSegment.Sentence(d, appid, log, cs);
      s.HasRoute(0) ==> exists p :: DagSegment.Heaviest(s, p, ws)
    case Ngram(prob) =>
      exists ps :: Merged(d, appid, prob, cs, ws, ps)
  }

  ghost predicate Merged(d: Dict, appid: nat, prob: seq<Bytes> -> real, cs: seq<Bytes>, ws: seq<Bytes>,
                         ps: seq<NgramMerge.Piece>) {
    NgramMerge.Fwd(ps) == [NgramMerge.BEG] + Forward(d, appid, cs) + [NgramMerge.END] &&
    NgramMerge.Bwd(ps) == [NgramMerge.BEG] + Backward(d, appid, cs) + [NgramMerge.END] &&
    NgramMerge.Out(ps) == [NgramMerge.BEG] + ws + [NgramMerge.END] && NgramMerge.Decided(prob, ps, |NgramMerge.Fwd(ps)|)
  }

  /** The DAG segmenter's loop would not end on this stretch. */
  ghost predicate Endless(m: Segmenter, d: Dict, appid: nat, cs: seq<Bytes>) {
    m.Dag? && var s := DagSegment.Sentence(d, appid, m.log, cs); !s.HasRoute(0) && !s.HasRoute(1)
  }

  method ConcreteSplit(m: Segmenter, d: Dict, appid: nat, str: Bytes) returns (ok: bool, ws: seq<Bytes>)
    ensures ok <==> !Endless(m, d, appid, Chars(str))
    ensures ok ==> SegmentedBy(m, d, appid, Chars(str), ws)
  {
    hide Chars, Concat, Forward, Backward, Clean, NgramMerge.Fwd, NgramMerge.Bwd, NgramMerge.Out, NgramMerge.Decided;
    ok := true;
    CharsAreChars(str);
    match m
    case Fmm =>
      ws := MaxMatch.Fmm(d, appid, str);
      ForwardSegments(d, appid, Chars(str));
    case Bmm =>
      ws := MaxMatch.Bmm(d, appid, str);
      BackwardSegments(d, appid, Chars(str));
    case Dag(log) =>
      ghost var p;
      ok, ws, p := DagSegment.ConcreteSplit(d, appid, log, str);
    case Ngram(prob) =>
      ghost var ps;
      ws, ps := NgramMerge.ConcreteSplit(d, appid, prob, str);
      assert Merged(d, appid, prob, Chars(str), ws, ps);
  }

  // ---- the whole ----

  /** The words of each stretch: one word of letters and digits, or what the segmenter gives. */
  ghost predicate PartOk(m: Segmenter, d: Dict, appid: nat, run: seq<Bytes>, part: seq<Bytes>)
    requires run != []
  {
    if KindOf(d, run[0]) == Alnum then part == [Concat(run)] else SegmentedBy(m, d, appid, run, part)
  }

  ghost predicate PartsOk(m: Segmenter, d: Dict, appid: nat, runs: seq<seq<Bytes>>, parts: seq<seq<Bytes>>) {
    |runs| == |parts| && forall i :: 0 <= i < |runs| ==> runs[i] != [] && PartOk(m, d, appid, runs[i], parts[i])
  }

  /** The strings of a list that are no punctuation marks. */
  function Kept(d: Dict, list: seq<Bytes>): (r: seq<Bytes>) {
    if list == [] then []
    else
      var n := |list| - 1;
      Kept(d, list[..n]) + (if list[n] in d.punct then [] else [list[n]])
  }

  function Texts(runs: seq<seq<Bytes>>): (r: seq<Bytes>)
    ensures |r| == |runs| && forall i :: 0 <= i < |r| ==> r[i] == Concat(runs[i])
  {
    if runs == [] then [] else Texts(runs[..|runs| - 1]) + [Concat(runs[|runs| - 1])]
  }

  /** All characters of a string are letters or digits. */
  ghost predicate AlnumText(d: Dict, s: Bytes) {
    IsRun(d, Chars(s), Alnum)
  }

  /**
   What the first loop has collected: the closed stretches, among punctuation marks, and the set of those of letters
   and digits.
   */
  ghost predicate Collected(d: Dict, runs: seq<seq<Bytes>>, list: seq<Bytes>, special: set<Bytes>) {
    Kept(d, list) == Texts(runs) && (forall r :: r in runs ==> IsRun(d, r, Alnum) || IsRun(d, r, Other)) &&
    (forall r :: r in runs && IsRun(d, r, Alnum) ==> Concat(r) in special) &&
    forall s :: s in special ==> AlnumText(d, s)
  }

  lemma KeptSnoc(d: Dict, list: seq<Bytes>, s: Bytes)
    ensures Kept(d, list + [s]) == Kept(d, list) + (if s in d.punct then [] else [s])
  {
    assert (list + [s])[..|list|] == list;
  }

  lemma RunNotPunct(d: Dict, run: seq<Bytes>, k: Kind)
    requires Initialised(d) && IsRun(d, run, k)
    ensures Concat(run) !in d.punct && Concat(run) != [] && Chars(Concat(run)) == run
  {
    hide Chars;
    CharsConcat(run);
    ConcatClean(run);
    var s := Concat(run);
    if IsChar(s) {
      CharsConcat([s]);
      ConcatOne(s);
      assert run == [s];
    }
  }

  lemma RunKind(d: Dict, run: seq<Bytes>, k: Kind)
    requires IsRun(d, run, k)
    ensures k != Punct && (IsRun(d, run, Alnum) <==> k == Alnum)
  {
    assert KindOf(d, run[0]) == k;
  }

  lemma TextsSnoc(runs: seq<seq<Bytes>>, run: seq<Bytes>)
    ensures Texts(runs + [run]) == Texts(runs) + [Concat(run)]
  {
    assert (runs + [run])[..|runs|] == runs;
  }

  /** A stretch is closed. */
  lemma Close(d: Dict, runs: seq<seq<Bytes>>, list: seq<Bytes>, special: set<Bytes>, run: seq<Bytes>, k: Kind)
    requires Initialised(d) && Collected(d, runs, list, special) && IsRun(d, run, k)
    ensures Collected(d, runs + [run], list + [Concat(run)], if k == Alnum then special + {Concat(run)} else special)
  {
    hide Chars, Concat, KindOf, IsRun, Kept, Texts, Initialised;
    RunNotPunct(d, run, k);
    KeptSnoc(d, list, Concat(run));
    TextsSnoc(runs, run);
    RunKind(d, run, k);
  }

  /** A punctuation mark is listed. */
  lemma Mark(d: Dict, runs: seq<seq<Bytes>>, list: seq<Bytes>, special: set<Bytes>, c: Bytes)
    requires Collected(d, runs, list, special) && c in d.punct
    ensures Collected(d, runs, list + [c], special)
  {
    hide Chars, Concat, KindOf, IsRun;
    KeptSnoc(d, list, c);
  }

  /** The first loop of Split. */
  method Collect(d: Dict, str: Bytes) returns (list: seq<Bytes>, special: set<Bytes>)
    requires Initialised(d)
    ensures Collected(d, Runs(d, Chars(str)), list, special)
  {
    hide Chars, Concat, Collected, Collecting, IsRun, Runs, Initialised, RunsFrom, Kept, Texts, Utf8.Get, Starts;
    var phrase := Refresh(str);
    ghost var cs := Chars(str);
    CharsAreChars(str);
    var tmp: Bytes, flag := [], false;
    list, special := [], {};
    ghost var runs: seq<seq<Bytes>>, run: seq<Bytes> := [], [];
    CollectStarts(d, cs);
    for i := 0 to phrase.Length()
      invariant Collected(d, runs, list, special) && tmp == Concat(run)
      invariant Collecting(d, cs, runs, run, i, flag)
    {
      var c := phrase.Get(i);
      CollectStep(d, cs, runs, run, i, flag);
      if run != [] {
        RunNotPunct(d, run, if flag then Alnum else Other);
        Close(d, runs, list, special, run, if flag then Alnum else Other);
      }
      ConcatSnoc(run, c);
      assert [] + [c] == [c] && [] + c == c;
      ConcatOne(c);
      ConcatNone();
      if c in d.alpha {
        if tmp != [] && !flag {
          list := list + [tmp];
          tmp := [];
          runs, run := runs + [run], [];
        }
        flag := true;
        tmp := tmp + c;
        run := run + [c];
      } else if c in d.punct {
        if tmp != [] {
          list := list + [tmp];
          Mark(d, runs + [run], list, if flag then special + {tmp} else special, c);
          list := list + [c];
          if flag {
            special := special + {tmp};
            flag := false;
          }
          tmp := [];
          runs, run := runs + [run], [];
        }
      } else {
        if flag {
          list := list + [tmp];
          special := special + {tmp};
          flag := false;
          tmp := c;
          runs, run := runs + [run], [c];
        } else {
          tmp := tmp + c;
          run := run + [c];
        }
      }
    }
    CollectEnds(d, cs, runs, run, flag);
    if run != [] {
      RunNotPunct(d, run, if flag then Alnum else Other);
      Close(d, runs, list, special, run, if flag then Alnum else Other);
    } else {
      ConcatNone();
    }
    if tmp != [] {
      list := list + [tmp];
      if flag { special := special + {tmp}; }
    }
  }

  /** The stretch being collected, and the runs that are left. */
  ghost predicate Collecting(d: Dict, cs: seq<Bytes>, runs: seq<seq<Bytes>>, run: seq<Bytes>, i: nat, flag: bool) {
    i <= |cs| && Runs(d, cs) == runs + RunsFrom(d, run, cs[i..]) && (run == [] ==> !flag) &&
    (run != [] ==> IsRun(d, run, if flag then Alnum else Other))
  }

  lemma CollectStarts(d: Dict, cs: seq<Bytes>)
    ensures Collecting(d, cs, [], [], 0, false) && Collected(d, [], [], {}) && Concat([]) == []
  {
    assert cs[0..] == cs;
    RunsFromNone(d, cs);
  }

  lemma CollectStep(d: Dict, cs: seq<Bytes>, runs: seq<seq<Bytes>>, run: seq<Bytes>, i: nat, flag: bool)
    requires AllChars(cs) && i < |cs| && Collecting(d, cs, runs, run, i, flag)
    ensures (run == [] ==> !flag) && (run != [] ==> IsRun(d, run, if flag then Alnum else Other))
    ensures var c := cs[i];
      match KindOf(d, c)
      case Alnum =>
        Collecting(d, cs, if run != [] && !flag then runs + [run] else runs,
                   if run != [] && !flag then [c] else run + [c], i + 1, true)
      case Punct => Collecting(d, cs, if run == [] then runs else runs + [run], [], i + 1, false)
      case Other =>
        Collecting(d, cs, if flag then runs + [run] else runs, if flag then [c] else run + [c], i + 1, false)
  {
    hide Runs, IsChar;
    var rest := cs[i..];
    assert rest[0] == cs[i] && rest[1..] == cs[i + 1..];
    if run != [] { assert KindOf(d, run[0]) == if flag then Alnum else Other; }
  }

  lemma CollectEnds(d: Dict, cs: seq<Bytes>, runs: seq<seq<Bytes>>, run: seq<Bytes>, flag: bool)
    requires Collecting(d, cs, runs, run, |cs|, flag)
    ensures Runs(d, cs) == (if run == [] then runs else runs + [run]) && (run == [] ==> !flag)
    ensures run != [] ==> IsRun(d, run, if flag then Alnum else Other)
  {
    assert cs[|cs|..] == [];
  }

  /** The next string to keep is the next stretch, and the set tells its kind. */
  lemma NextKept(d: Dict, runs: seq<seq<Bytes>>, list: seq<Bytes>, special: set<Bytes>, i: nat)
    requires Initialised(d) && Collected(d, runs, list, special) && i < |list|
    ensures var j := |Kept(d, list[..i])|;
      if list[i] in d.punct then Kept(d, list[..i + 1]) == Kept(d, list[..i])
      else
        j < |runs| && list[i] == Concat(runs[j]) && runs[j] != [] && Chars(list[i]) == runs[j] &&
        |Kept(d, list[..i + 1])| == j + 1 &&
        (list[i] in special <==> KindOf(d, runs[j][0]) == Alnum)
  {
    hide Chars, Concat, KindOf;
    KeptSnoc(d, list[..i], list[i]);
    assert list[..i + 1] == list[..i] + [list[i]];
    KeptPrefix(d, list, i + 1);
    if list[i] !in d.punct {
      var j := |Kept(d, list[..i])|;
      assert Kept(d, list)[j] == Kept(d, list[..i + 1])[j] == list[i];
      var r := runs[j];
      assert r in runs;
      RunNotPunct(d, r, if IsRun(d, r, Alnum) then Alnum else Other);
      if list[i] in special { assert AlnumText(d, list[i]); }
      assert KindOf(d, r[0]) == if IsRun(d, r, Alnum) then Alnum else Other;
    }
  }

  lemma {:induction false} KeptPrefix(d: Dict, list: seq<Bytes>, i: nat)
    requires i <= |list|
    ensures |Kept(d, list[..i])| <= |Kept(d, list)| && Kept(d, list[..i]) == Kept(d, list)[..|Kept(d, list[..i])|]
    decreases |list| - i
  {
    if i < |list| {
      KeptPrefix(d, list, i + 1);
      KeptSnoc(d, list[..i], list[i]);
      assert list[..i + 1] == list[..i] + [list[i]];
    } else {
      assert list[..i] == list;
    }
  }

  /** The stretch is one word, or the segmenter ends on it. */
  ghost predicate Ends(m: Segmenter, d: Dict, appid: nat, run: seq<Bytes>) {
    run != [] && (KindOf(d, run[0]) == Alnum || !Endless(m, d, appid, run))
  }

  /**
   Split: the words are those of the stretches between punctuation marks, each stretch of letters and digits as one
   word; `ok` is false exactly where the DAG segmenter would not end on one of the other stretches.
   */
  method Split(m: Segmenter, d: Dict, appid: nat, str: Bytes)
    returns (ok: bool, words: seq<Bytes>, ghost parts: seq<seq<Bytes>>)
    requires Initialised(d)
    ensures ok ==> words == Join(parts) && PartsOk(m, d, appid, Runs(d, Chars(str)), parts)
    ensures ok <==> forall r :: r in Runs(d, Chars(str)) ==> Ends(m, d, appid, r)
  {
    hide Chars, Concat, KindOf, Collected, Runs, Initialised, Kept, SegmentedBy, Endless, PartsOk, Join;
    var list, special := Collect(d, str);
    ghost var runs := Runs(d, Chars(str));
    words, parts := [], [];
    NothingKept(m, d, appid, runs);
    assert list[..0] == [];
    for i := 0 to |list|
      invariant |parts| == |Kept(d, list[..i])| <= |runs| && words == Join(parts)
      invariant PartsOk(m, d, appid, runs[..|parts|], parts)
      invariant forall j :: 0 <= j < |parts| ==> Ends(m, d, appid, runs[j])
    {
      NextKept(d, runs, list, special, i);
      if list[i] !in special && list[i] !in d.punct {
        ghost var r := runs[|parts|];
        var part;
        ok, part := ConcreteSplit(m, d, appid, list[i]);
        if !ok {
          assert r in runs;
          return;
        }
        PartAdded(m, d, appid, runs, parts, part);
        words := words + part;
        parts := parts + [part];
      } else if list[i] !in d.punct {
        PartAdded(m, d, appid, runs, parts, [list[i]]);
        words := words + [list[i]];
        parts := parts + [[list[i]]];
      }
    }
    AllKept(d, runs, list, special);
    ok := true;
  }

  lemma NothingKept(m: Segmenter, d: Dict, appid: nat, runs: seq<seq<Bytes>>)
    ensures Kept(d, []) == [] && Join([]) == [] && PartsOk(m, d, appid, runs[..0], [])
  {
  }

  lemma PartAdded(m: Segmenter, d: Dict, appid: nat, runs: seq<seq<Bytes>>, parts: seq<seq<Bytes>>, part: seq<Bytes>)
    requires |parts| < |runs| && runs[|parts|] != []
    requires PartsOk(m, d, appid, runs[..|parts|], parts) && PartOk(m, d, appid, runs[|parts|], part)
    ensures PartsOk(m, d, appid, runs[..|parts| + 1], parts + [part]) && Join(parts + [part]) == Join(parts) + part
  {
    hide *;
    JoinSnoc(parts, part);
    PartsExtended(m, d, appid, runs[..|parts|], parts, runs[|parts|], part);
    assert runs[..|parts| + 1] == runs[..|parts|] + [runs[|parts|]];
  }

  lemma JoinSnoc(parts: seq<seq<Bytes>>, part: seq<Bytes>)
    ensures Join(parts + [part]) == Join(parts) + part
  {
    assert (parts + [part])[..|parts|] == parts;
  }

  lemma PartsExtended(m: Segmenter, d: Dict, appid: nat, runs: seq<seq<Bytes>>, parts: seq<seq<Bytes>>, run: seq<Bytes>,
                      part: seq<Bytes>)
    requires PartsOk(m, d, appid, runs, parts) && run != [] && PartOk(m, d, appid, run, part)
    ensures PartsOk(m, d, appid, runs + [run], parts + [part])
  {
    hide Concat, KindOf, SegmentedBy;
    var rs, ps := runs + [run], parts + [part];
    forall i | 0 <= i < |rs|
      ensures rs[i] != [] && PartOk(m, d, appid, rs[i], ps[i])
    {
      if i < |runs| { assert rs[i] == runs[i] && ps[i] == parts[i]; }
    }
  }

  lemma AllKept(d: Dict, runs: seq<seq<Bytes>>, list: seq<Bytes>, special: set<Bytes>)
    requires Collected(d, runs, list, special)
    ensures |Kept(d, list[..|list|])| == |runs| && runs[..|runs|] == runs
  {
    hide Concat, Chars, IsRun;
    assert list[..|list|] == list;
  }

  /** The words of each stretch hold its characters. */
  lemma {:induction false} PartsText(m: Segmenter, d: Dict, appid: nat, runs: seq<seq<Bytes>>, parts: seq<seq<Bytes>>)
    requires PartsOk(m, d, appid, runs, parts) && forall r :: r in runs ==> AllChars(r)
    ensures Flat(Join(parts)) == Join(runs)
  {
    hide Concat, Chars, KindOf, Flat, PartOk, AllChars, SegmentedBy;
    if runs == [] {
      FlatNone();
    } else {
      var n := |runs| - 1;
      PartsText(m, d, appid, runs[..n], parts[..n]);
      FlatPlus(Join(parts[..n]), parts[n]);
      PartText(m, d, appid, runs[n], parts[n]);
    }
  }

  lemma PartText(m: Segmenter, d: Dict, appid: nat, run: seq<Bytes>, part: seq<Bytes>)
    requires run != [] && PartOk(m, d, appid, run, part) && AllChars(run)
    ensures Flat(part) == run
  {
    hide Concat, Chars, KindOf, Flat;
    if KindOf(d, run[0]) == Alnum {
      ConcatClean(run);
      CharsConcat(run);
      FlatOne(Concat(run));
    } else {
      SegmentsChars(part, run);
    }
  }

  lemma FlatNone()
    ensures Flat([]) == []
  {
  }

  lemma FlatOne(w: Bytes)
    ensures Flat([w]) == Chars(w)
  {
    assert [w][..0] == [];
  }

  /**
   Split loses and adds nothing: its words hold exactly the characters of the input that are no punctuation, in order.
   */
  lemma SplitKeepsText(m: Segmenter, d: Dict, appid: nat, str: Bytes, parts: seq<seq<Bytes>>)
    requires PartsOk(m, d, appid, Runs(d, Chars(str)), parts)
    ensures Flat(Join(parts)) == NotPunct(d, Chars(str))
  {
    hide Concat, Chars, KindOf, Flat, Join, NotPunct, PartsOk;
    CharsAreChars(str);
    RunsChars(d, Chars(str));
    PartsText(m, d, appid, Runs(d, Chars(str)), parts);
    RunsText(d, Chars(str));
  }

  lemma {:induction false} RunsChars(d: Dict, cs: seq<Bytes>)
    requires AllChars(cs)
    ensures forall r :: r in Runs(d, cs) ==> AllChars(r)
    decreases |cs|
  {
    hide KindOf, IsChar;
    if cs != [] {
      RunsChars(d, cs[1..]);
      if KindOf(d, cs[0]) != Punct { RunsChars(d, cs[Span(d, KindOf(d, cs[0]), cs)..]); }
    }
  }
}
