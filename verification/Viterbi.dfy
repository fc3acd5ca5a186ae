/**
 HmmManager::viterbi: the most probable sequence of tags for the characters of a sentence.
 */
module Viterbi {
  import opened ByteText
  import opened Utf8Text

  /** Previous probability, transition and emission. */
  function Times(p: real, trans: real, emit: real): (r: real) {
    p * trans * emit
  }

  datatype State = B | M | E | S

  const STATES: seq<State> := [B, M, E, S]

  /** Trained probabilities; characters that a state never emitted get `minEmit`. */
  datatype Hmm = Hmm(start: State -> real, trans: (State, State) -> real, emit: map<(State, Bytes), real>,
                     minEmit: real) {
    ghost predicate Valid() {
      minEmit >= 0.0 && (forall y :: start(y) >= 0.0) && (forall x, y :: trans(x, y) >= 0.0) &&
      forall k :: k in emit ==> emit[k] >= 0.0
    }

    function Emit(y: State, c: Bytes): (r: real)
      ensures Valid() ==> r >= 0.0
    {
      if (y, c) in emit then emit[(y, c)] else minEmit
    }

    /** The probability that the tags produce the characters. */
    ghost function Prob(cs: seq<Bytes>, tags: seq<State>): (r: real)
      requires |cs| == |tags| > 0
      decreases |tags|
    {
      var n := |tags| - 1;
      if n == 0 then start(tags[0]) * Emit(tags[0], cs[0])
      else Times(Prob(cs[..n], tags[..n]), trans(tags[n - 1], tags[n]), Emit(tags[n], cs[n]))
    }

    /** What viterbi_vec[j] and path hold for one state: zero, or the probability of a best sequence that ends there. */
    ghost predicate Best(cs: seq<Bytes>, y: State, v: real, path: seq<State>)
      requires cs != []
    {
      v >= 0.0 && (forall t: seq<State> :: |t| == |cs| && t[|t| - 1] == y ==> Prob(cs, t) <= v) &&
      (v > 0.0 ==> |path| == |cs| && path[|path| - 1] == y && Prob(cs, path) == v)
    }
  }

  lemma Product(a: real, b: real)
    requires a >= 0.0 && b >= 0.0
    ensures a * b >= 0.0
  {
  }

  lemma Scale(a: real, b: real, c: real, d: real)
    requires a <= b && c >= 0.0 && d >= 0.0
    ensures Times(a, c, d) <= Times(b, c, d)
  {
    assert a * c <= b * c;
  }

  lemma PositiveFactor(a: real, c: real, d: real)
    requires a >= 0.0 && Times(a, c, d) > 0.0
    ensures a > 0.0
  {
  }

  /** The probability of one step from y0 to y at character j. */
  function Step(h: Hmm, v: map<State, real>, y0: State, y: State, c: Bytes): (r: real)
    requires y0 in v
  {
    Times(v[y0], h.trans(y0, y), h.Emit(y, c))
  }

  ghost predicate AllBest(h: Hmm, cs: seq<Bytes>, v: map<State, real>, path: map<State, seq<State>>)
    requires cs != []
  {
    forall y: State :: y in v && y in path && h.Best(cs, y, v[y], path[y])
  }

  /** path[state], where the state of no predecessor has an empty path */
  function PathOf(path: map<State, seq<State>>, state: State, found: bool): (r: seq<State>)
    requires state in path
  {
    if found then path[state] else []
  }

  /** The innermost loop: the best predecessor of y, if any gives a positive probability; the first of several. */
  method BestBefore(h: Hmm, v: map<State, real>, y: State, c: Bytes) returns (max: real, state: State, found: bool)
    requires forall y0: State :: y0 in v
    ensures max >= 0.0 && (found <==> max > 0.0) && (found ==> max == Step(h, v, state, y, c))
    ensures forall y0: State :: Step(h, v, y0, y, c) <= max
    ensures found ==> forall y0: State :: Index(y0) < Index(state) ==> Step(h, v, y0, y, c) < max
  {
    hide Step;
    max, state, found := 0.0, B, false;
    for m := 0 to 4
      invariant max >= 0.0 && (found <==> max > 0.0) && (found ==> max == Step(h, v, state, y, c))
      invariant forall i :: 0 <= i < m ==> Step(h, v, STATES[i], y, c) <= max
      invariant found ==> Index(state) < m && forall i :: 0 <= i < Index(state) ==> Step(h, v, STATES[i], y, c) < max
    {
      var prob := Step(h, v, STATES[m], y, c);
      if prob > max { max, state, found := prob, STATES[m], true; }
    }
    forall y0: State
      ensures Step(h, v, y0, y, c) <= max
      ensures found && Index(y0) < Index(state) ==> Step(h, v, y0, y, c) < max
    {
      assert STATES[Index(y0)] == y0;
    }
  }

  /** Its place in the order in which the states are tried. */
  function Index(y: State): (i: nat)
    ensures i < 4 && STATES[i] == y
  {
    match y case B => 0 case M => 1 case E => 2 case S => 3
  }

  /** The last step of a sequence. */
  lemma ProbStep(h: Hmm, cs: seq<Bytes>, t: seq<State>)
    requires |cs| == |t| > 1
    ensures var n := |t| - 1;
      h.Prob(cs, t) == Times(h.Prob(cs[..n], t[..n]), h.trans(t[n - 1], t[n]), h.Emit(t[n], cs[n]))
  {
    hide Hmm.Emit, Times;
  }

  /** No sequence that ends in y beats the best step to it. */
  lemma StepIsUpper(h: Hmm, cs: seq<Bytes>, v: map<State, real>, path: map<State, seq<State>>, t: seq<State>)
    requires h.Valid() && |cs| == |t| > 1 && AllBest(h, cs[..|cs| - 1], v, path)
    ensures h.Prob(cs, t) <= Step(h, v, t[|t| - 2], t[|t| - 1], cs[|cs| - 1])
  {
    hide Hmm.Emit, Hmm.Prob, Times;
    var n := |t| - 1;
    var y0, y := t[n - 1], t[n];
    assert t[..n][n - 1] == y0;
    ProbStep(h, cs, t);
    assert h.Best(cs[..n], y0, v[y0], path[y0]);
    Scale(h.Prob(cs[..n], t[..n]), v[y0], h.trans(y0, y), h.Emit(y, cs[n]));
  }

  /** A step with positive probability comes from a complete sequence. */
  lemma StepIsReached(h: Hmm, cs: seq<Bytes>, v: map<State, real>, path: map<State, seq<State>>, state: State, y: State)
    requires h.Valid() && |cs| > 1 && AllBest(h, cs[..|cs| - 1], v, path) && Step(h, v, state, y, cs[|cs| - 1]) > 0.0
    ensures var t := path[state] + [y]; |t| == |cs| && h.Prob(cs, t) == Step(h, v, state, y, cs[|cs| - 1])
  {
    hide Hmm.Emit, Hmm.Prob, Times;
    var n := |cs| - 1;
    assert h.Best(cs[..n], state, v[state], path[state]);
    PositiveFactor(v[state], h.trans(state, y), h.Emit(y, cs[n]));
    var t := path[state] + [y];
    assert t[..n] == path[state] && t[n - 1] == state && t[n] == y;
    ProbStep(h, cs, t);
  }

  /** A best sequence for one character more. */
  lemma BestExtends(h: Hmm, cs: seq<Bytes>, c: Bytes, v: map<State, real>, path: map<State, seq<State>>, y: State,
                    max: real, state: State, found: bool)
    requires h.Valid() && |cs| > 1 && c == cs[|cs| - 1] && AllBest(h, cs[..|cs| - 1], v, path)
    requires max >= 0.0 && (found <==> max > 0.0) && (found ==> max == Step(h, v, state, y, c))
    requires forall y0: State :: Step(h, v, y0, y, c) <= max
    ensures h.Best(cs, y, max, PathOf(path, state, found) + [y])
  {
    hide Hmm.Emit, Hmm.Prob, Step, Hmm.Valid;
    forall t: seq<State> | |t| == |cs| && t[|t| - 1] == y
      ensures h.Prob(cs, t) <= max
    {
      StepIsUpper(h, cs, v, path, t);
    }
    if found { StepIsReached(h, cs, v, path, state, y); }
  }

  /** One character: the start probabilities. */
  lemma BestFirst(h: Hmm, c: Bytes, y: State)
    requires h.Valid()
    ensures h.Best([c], y, h.start(y) * h.Emit(y, c), [y])
  {
    hide Hmm.Emit;
    assert h.start(y) >= 0.0 && h.Emit(y, c) >= 0.0;
    Product(h.start(y), h.Emit(y, c));
    forall t: seq<State> | |t| == 1 && t[0] == y
      ensures h.Prob([c], t) <= h.start(y) * h.Emit(y, c)
    {
    }
  }

  /** Position 0. */
  method First(h: Hmm, c: Bytes) returns (v: map<State, real>, path: map<State, seq<State>>)
    requires h.Valid()
    ensures AllBest(h, [c], v, path)
  {
    hide Hmm.Best, Hmm.Emit;
    v, path := map[], map[];
    for i := 0 to 4
      invariant forall k :: 0 <= k < i ==>
                  STATES[k] in v && STATES[k] in path && h.Best([c], STATES[k], v[STATES[k]], path[STATES[k]])
    {
      var y := STATES[i];
      BestFirst(h, c, y);
      v, path := v[y := h.start(y) * h.Emit(y, c)], path[y := [y]];
    }
    forall y: State
      ensures y in v && y in path && h.Best([c], y, v[y], path[y])
    {
      assert STATES[Index(y)] == y;
    }
  }

  /** Position j > 0, whose character is the last of `cs`. */
  method Next(h: Hmm, ghost cs: seq<Bytes>, c: Bytes, v: map<State, real>, path: map<State, seq<State>>)
    returns (prob: map<State, real>, newPath: map<State, seq<State>>)
    requires h.Valid() && |cs| > 1 && c == cs[|cs| - 1] && AllBest(h, cs[..|cs| - 1], v, path)
    ensures AllBest(h, cs, prob, newPath)
  {
    hide Hmm.Best, Hmm.Emit;
    prob, newPath := map[], map[];
    for k := 0 to 4
      invariant forall m :: 0 <= m < k ==>
        STATES[m] in prob && STATES[m] in newPath && h.Best(cs, STATES[m], prob[STATES[m]], newPath[STATES[m]])
    {
      var y := STATES[k];
      var max, state, found := BestBefore(h, v, y, c);
      BestExtends(h, cs, c, v, path, y, max, state, found);
      prob, newPath := prob[y := max], newPath[y := PathOf(path, state, found) + [y]];
    }
    forall y: State
      ensures y in prob && y in newPath && h.Best(cs, y, prob[y], newPath[y])
    {
      assert STATES[Index(y)] == y;
    }
  }

  /**
   viterbi: if any tag sequence has a positive probability, the result is as long as the sentence and no
   sequence is more probable; otherwise it is empty.
   */
  method Tag(h: Hmm, sentence: Bytes) returns (output: seq<State>)
    requires h.Valid() && Chars(sentence) != []
    ensures (exists t: seq<State> :: |t| == |Chars(sentence)| && h.Prob(Chars(sentence), t) > 0.0) <==> output != []
    ensures output != [] ==> |output| == |Chars(sentence)|
    ensures output != [] ==> forall t: seq<State> :: |t| == |Chars(sentence)| ==>
              h.Prob(Chars(sentence), t) <= h.Prob(Chars(sentence), output)
  {
    hide Chars, Hmm.Prob, Hmm.Emit, Hmm.Valid, Hmm.Best, AllBest, Starts, Utf8.Get, PathOf;
    var u := Refresh(sentence);
    ghost var cs := Chars(sentence);
    var v, path := First(h, u.Get(0));
    assert cs[..1] == [cs[0]];
    for j := 1 to u.Length()
      invariant AllBest(h, cs[..j], v, path)
    {
      assert cs[..j + 1][..j] == cs[..j];
      v, path := Next(h, cs[..j + 1], u.Get(j), v, path);
    }
    assert cs[..|cs|] == cs;
    EveryState(h, cs, v, path);
    var max, state, found := BestLast(v);
    output := PathOf(path, state, found);
    BestOfAll(h, cs, v, path, max, state, found);
  }

  /** The last loop: the best state at the end of the sentence, the first of several. */
  method BestLast(v: map<State, real>) returns (max: real, state: State, found: bool)
    requires forall y: State :: y in v
    ensures max >= 0.0 && (found <==> max > 0.0) && (found ==> max == v[state])
    ensures forall y: State :: v[y] <= max
    ensures found ==> forall y: State :: Index(y) < Index(state) ==> v[y] < max
  {
    max, state, found := 0.0, B, false;
    for i := 0 to 4
      invariant max >= 0.0 && (found <==> max > 0.0) && (found ==> max == v[state])
      invariant forall k :: 0 <= k < i ==> v[STATES[k]] <= max
      invariant found ==> Index(state) < i && forall k :: 0 <= k < Index(state) ==> v[STATES[k]] < max
    {
      if v[STATES[i]] > max { max, state, found := v[STATES[i]], STATES[i], true; }
    }
    forall y: State
      ensures v[y] <= max && (found && Index(y) < Index(state) ==> v[y] < max)
    {
      assert STATES[Index(y)] == y;
    }
  }

  lemma EveryState(h: Hmm, cs: seq<Bytes>, v: map<State, real>, path: map<State, seq<State>>)
    requires cs != [] && AllBest(h, cs, v, path)
    ensures forall y: State :: y in v && y in path
  {
    hide Hmm.Best;
  }

  /** The best of all states' best sequences is the best sequence. */
  lemma BestOfAll(h: Hmm, cs: seq<Bytes>, v: map<State, real>, path: map<State, seq<State>>, max: real, state: State,
                  found: bool)
    requires cs != [] && AllBest(h, cs, v, path) && max >= 0.0 && (found <==> max > 0.0) && (found ==> max == v[state])
    requires forall y: State :: v[y] <= max
    ensures (exists t: seq<State> :: |t| == |cs| && h.Prob(cs, t) > 0.0) <==> PathOf(path, state, found) != []
    ensures found ==> |PathOf(path, state, found)| == |cs|
    ensures found ==> forall t: seq<State> :: |t| == |cs| ==> h.Prob(cs, t) <= h.Prob(cs, PathOf(path, state, found))
    ensures PathOf(path, state, found) != [] ==> found
  {
    hide Hmm.Prob;
    forall t: seq<State> | |t| == |cs|
      ensures h.Prob(cs, t) <= max
    {
      var y := t[|t| - 1];
      assert h.Best(cs, y, v[y], path[y]);
    }
    if found { assert h.Best(cs, state, v[state], path[state]); }
  }

  /** The probability of tags: the start, then a transition and an emission for each character more. */
  lemma ProbMeans(h: Hmm, cs: seq<Bytes>, t: seq<State>)
    requires |cs| == |t| > 0
    ensures var n := |t| - 1;
      var e := if (t[n], cs[n]) in h.emit then h.emit[(t[n], cs[n])] else h.minEmit;
      h.Prob(cs, t) == if n == 0 then h.start(t[0]) * e else h.Prob(cs[..n], t[..n]) * h.trans(t[n - 1], t[n]) * e
  {
    hide Hmm.Prob;
    var n := |t| - 1;
    if n == 0 {
      ProbOne(h, cs, t);
    } else {
      ProbStep(h, cs, t);
    }
  }

  lemma ProbOne(h: Hmm, cs: seq<Bytes>, t: seq<State>)
    requires |cs| == |t| == 1
    ensures h.Prob(cs, t) == h.start(t[0]) * h.Emit(t[0], cs[0])
  {
    hide Hmm.Emit;
  }
}
