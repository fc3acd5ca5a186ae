/** Tags as strings: which edits of a tag leave it a tag, with the same name and the same tokens around the edit. */
module MarkupTags {
  import opened MarkupText
  import opened MarkupLayout

  /** Names free of markup characters. */
  predicate NameOk(name: string) {
    |name| > 0 && forall i :: 0 <= i < |name| ==> !In(name[i], Special) && !IsQuote(name[i])
  }

  lemma ScanIs(s: string, i: nat, cs: Class, want: bool, r: nat)
    requires i <= r <= |s| && (r < |s| ==> In(s[r], cs) == want) && forall k :: i <= k < r ==> In(s[k], cs) != want
    ensures Scan(s, i, cs, want) == r
  {
    hide In;
  }

  /**
   A token that ends before `m`, or at `m` with a special character next, is the same in every text that agrees up to
   `m`.
   */
  lemma TokenStable(s: string, s': string, i: nat, m: nat)
    requires i <= m <= |s| && m <= |s'| && s[..m] == s'[..m] && TokenAt(s, i).found
    requires TokenAt(s, i).next < m || (TokenAt(s, i).next == m < |s| && m < |s'| && In(s'[m], Special))
    ensures TokenAt(s', i) == TokenAt(s, i)
  {
    hide In, IsQuote, TokenFrom;
    PrefixChars(s, s', m);
    var b := Scan(s, i, Space, false);
    TokenFromStable(s, s', b, m);
    ScanIs(s', i, Space, false, b);
  }

  lemma PrefixChars(s: string, s': string, m: nat)
    requires m <= |s| && m <= |s'| && s[..m] == s'[..m]
    ensures forall k :: 0 <= k < m ==> s'[k] == s[k]
  {
    forall k | 0 <= k < m
      ensures s'[k] == s[k]
    {
      assert s'[k] == s'[..m][k] == s[..m][k];
    }
  }

  lemma TokenFromStable(s: string, s': string, b: nat, m: nat)
    requires b < |s| && m <= |s| && m <= |s'| && forall k :: 0 <= k < m ==> s'[k] == s[k]
    requires TokenFrom(s, b).next < m || (TokenFrom(s, b).next == m < |s| && m < |s'| && In(s'[m], Special))
    ensures b < m && TokenFrom(s', b) == TokenFrom(s, b)
  {
    hide In, IsQuote;
    if IsQuote(s[b]) {
      ScanIs(s', b + 1, Is(s[b]), true, Scan(s, b + 1, Is(s[b]), true));
    } else {
      ScanIs(s', b, Special, true, Scan(s, b, Special, true));
    }
  }

  /** Tokens up to `m` are kept by such a text, and can be continued there. */
  lemma {:induction false} TokensJoin(s: string, s': string, i: nat, m: nat, m': nat)
    requires i <= m < |s| && m <= m' <= |s'| && m < |s'| && s[..m] == s'[..m] && In(s'[m], Special)
    requires TokensTo(s, i, m) && TokensTo(s', m, m')
    ensures TokensTo(s', i, m')
    decreases m - i
  {
    hide In;
    if Scan(s, i, Space, false) == m {
      assert forall k :: i <= k < m ==> s'[k] == s'[..m][k] == s[..m][k] == s[k];
      ScanIs(s', i, Space, false, Scan(s', m, Space, false));
    } else {
      TokenStable(s, s', i, m);
      TokensJoin(s, s', TokenAt(s, i).next, m, m');
    }
  }

  lemma TokenSuffix(s: string, i: nat)
    requires i <= |s|
    ensures TokenAt(s, i) == TokenAt(s[i..], 0).Plus(i)
  {
    assert s[i..] == s[i..|s|];
    ScanWindow(s, i, |s|, i, Space, false);
    if TokenAt(s, i).found { TokenWindow(s, i, |s|, i); }
  }

  /** Tokens depend only on the text from where they are looked for. */
  lemma TokenShift(s: string, s': string, i: nat, d: int)
    requires i <= |s| && 0 <= i + d <= |s'| && s'[i + d..] == s[i..]
    ensures TokenAt(s', i + d) == TokenAt(s, i).Plus(d)
  {
    TokenSuffix(s, i);
    TokenSuffix(s', i + d);
  }

  lemma SuffixShift(s: string, s': string, i: nat, d: int, x: nat)
    requires i <= x <= |s| && 0 <= i + d <= |s'| && s'[i + d..] == s[i..]
    ensures |s'| == |s| + d && s'[x + d..] == s[x..]
  {
    assert |s'[i + d..]| == |s[i..]|;
    SliceTail(s, i, |s|, x - i);
    SliceTail(s', i + d, |s'|, x - i);
    assert s[i..] == s[i..|s|] && s'[i + d..] == s'[i + d..|s'|] && s[x..] == s[x..|s|] &&
           s'[x + d..] == s'[x + d..|s'|];
  }

  lemma SpacesShift(s: string, s': string, i: nat, d: int)
    requires i <= |s| && 0 <= i + d <= |s'| && s'[i + d..] == s[i..]
    ensures Scan(s', i + d, Space, false) == Scan(s, i, Space, false) + d
  {
    hide In;
    assert s[i..] == s[i..|s|] && s'[i + d..] == s'[i + d..|s'|];
    ScanWindow(s, i, |s|, i, Space, false);
    ScanWindow(s', i + d, |s'|, i + d, Space, false);
  }

  lemma {:induction false} TokensShift(s: string, s': string, i: nat, m: nat, d: int)
    requires i <= m <= |s| && 0 <= i + d <= |s'| && s'[i + d..] == s[i..] && TokensTo(s, i, m)
    ensures m + d <= |s'| && TokensTo(s', i + d, m + d)
    decreases m - i
  {
    hide TokenAt, Scan;
    SuffixShift(s, s', i, d, m);
    TokenShift(s, s', i, d);
    SpacesShift(s, s', i, d);
    if Scan(s, i, Space, false) != m {
      var t := TokenAt(s, i);
      SuffixShift(s, s', i, d, t.next);
      TokensShift(s, s', t.next, m, d);
    }
  }

  /** A slash just before `m` is a token of its own. */
  lemma {:induction false} TokensToSlash(s: string, i: nat, m: nat)
    requires i < m < |s| && s[m - 1] == '/' && TokensTo(s, i, m)
    ensures TokensTo(s, i, m - 1)
    decreases m - i
  {
    var b := Scan(s, i, Space, false);
    var t := TokenAt(s, i);
    if t.next == m {
      assert b <= m - 1;
    } else {
      TokensToSlash(s, t.next, m);
    }
  }

  /** The text of a token that is not a string: no special character in it, or a single one. */
  predicate IsWord(w: string) {
    |w| > 0 && !IsSpace(w[0]) && !IsQuote(w[0]) && (|w| == 1 || forall i :: 0 <= i < |w| ==> !In(w[i], Special))
  }

  lemma TokenWord(s: string, i: nat, w: string)
    requires IsWord(w) && i + |w| < |s| && s[i..i + |w|] == w && In(s[i + |w|], Special)
    ensures TokenAt(s, i) == Token(true, false, i, i + |w| - 1, i + |w|)
  {
    assert forall k :: 0 <= k < |w| ==> s[i + k] == s[i..i + |w|][k] == w[k];
    assert s[i] == w[0];
    ScanIs(s, i, Space, false, i);
    hide IsQuote;
    if In(s[i], Special) {
      ScanIs(s, i, Special, true, i);
    } else {
      forall k | i <= k < i + |w| ensures !In(s[k], Special) { assert s[k] == w[k - i]; }
      hide In;
      ScanIs(s, i, Special, true, i + |w|);
    }
  }

  lemma WordOfToken(s: string, i: nat)
    requires i <= |s| && TokenAt(s, i).found && !TokenAt(s, i).isString
    ensures var t := TokenAt(s, i); IsWord(s[t.l..t.r + 1])
  {
  }

  lemma EndTagWritten(w: string)
    requires IsWord(w)
    ensures EndTagOk("</" + w + ">", w)
  {
    hide TokenAt, In, IsSpace, IsWord;
    var e := "</" + w + ">";
    assert e[1..2] == "/" && e[1] == '/' && e[2..2 + |w|] == w && e[2 + |w|] == '>';
    TagEnders();
    TokenOne(e, 1);
    TokenWord(e, 2, w);
  }

  lemma StartTagWritten(w: string, close: string)
    requires NameOk(w) && (close == ">" || close == "/>")
    ensures StartTagOk("<" + w + close, true) && TagName("<" + w + close) == w
  {
    var s := "<" + w + close;
    assert s[1..|w| + 1] == w && s[|w| + 1] == close[0] && s[|s| - 1] == '>' && s[1] == w[0] && s[0] == '<';
    NameNotSpecial(w);
    NameTagged(s, w, |w| + 1);
  }

  lemma NameNotSpecial(w: string)
    requires NameOk(w)
    ensures IsWord(w) && w[0] != '/' && w[0] != '?' && w[0] != '!'
  {
  }

  lemma NameTagged(s: string, w: string, m: nat)
    requires m == |w| + 1 && |s| >= 3 && s[0] == '<' && s[|s| - 1] == '>' &&
             (m == |s| - 1 || (m == |s| - 2 && s[m] == '/')) && s[1..m] == w
    requires IsWord(w) && w[0] != '/' && w[0] != '?' && w[0] != '!'
    ensures StartTagOk(s, true) && TagName(s) == w
  {
    assert s[1] == s[1..m][0];
    TokenWord(s, 1, w);
    LastToken(s);
    if m == |s| - 2 { TokenOne(s, m); }
    hide TokenAt, In, Scan, IsWord;
    if m == |s| - 2 { TokensStep(s, m, |s| - 1); }
    TokensStep(s, 1, |s| - 1);
  }

  /** `<X .../>` becomes `<X ...>`. */
  lemma OpenedTag(tag: string, strict: bool)
    requires StartTagOk(tag, strict) && tag[|tag| - 2] == '/'
    ensures var s := tag[..|tag| - 2] + ">";
      |s| >= 1 && StartTagOk(s, strict) && TagName(s) == TagName(tag) && IsWord(TagName(tag))
  {
    hide TokenAt, Scan, In, IsWord, TokensTo;
    var m := |tag| - 2;
    var s := tag[..m] + ">";
    assert s[..m] == tag[..m] && s[m] == '>';
    WordOfToken(tag, 1);
    NameBefore(tag, true, strict);
    GtSpecial();
    if strict {
      TokensToSlash(tag, 1, m + 1);
      LastToken(s);
      TokensJoin(tag, s, 1, m, m);
    }
    NameKept(tag, s, m, strict);
  }

  lemma GtSpecial()
    ensures In('>', Special)
  {
  }

  const NO_TOKEN := Token(false, false, 0, 0, 0)

  /** The '>' or '/' at which x_FindAttrib gives up. */
  predicate EndsTag(s: string, t: Token)
    requires t.found && t.l <= t.r + 1 <= t.next <= |s| && (!t.isString ==> t.l <= t.r)
  {
    !t.isString && (s[t.l] == '>' || s[t.l] == '/')
  }

  /** Which token carried the attribute's name, after token `t`, number `count`, has been read (0 for "not yet"). */
  function HitAfter(s: string, t: Token, attr: string, count: nat, hit: nat): nat
    requires t.found && t.l <= t.r + 1 <= t.next <= |s| && (!t.isString ==> t.l <= t.r)
  {
    if !t.isString && s[t.l] != '=' && hit == 0 && count != 0 && Match(s, t, attr) then count else hit
  }

  /** x_FindAttrib for a named attribute, from token number `count`, the name having matched at token `hit`. */
  function AttribAt(s: string, i: nat, attr: string, count: nat, hit: nat): (t: Token)
    requires i <= |s|
    ensures t.found ==> t.isString && i < t.l <= t.r + 1 <= t.next <= |s|
    decreases |s| - i
  {
    var t := TokenAt(s, i);
    if !t.found || EndsTag(s, t) then NO_TOKEN
    else if t.isString && hit != 0 && count == hit + 2 then t
    else AttribAt(s, t.next, attr, count + 1, HitAfter(s, t, attr, count, hit))
  }

  /** One round of the search, branch by branch. */
  lemma AttribRound(s: string, i: nat, attr: string, count: nat, hit: nat)
    requires i <= |s|
    ensures var t, r := TokenAt(s, i), AttribAt(s, i, attr, count, hit);
      if !t.found || (!t.isString && (s[t.l] == '>' || s[t.l] == '/')) then r == NO_TOKEN
      else if t.isString && hit != 0 && count == hit + 2 then r == t
      else if !t.isString && s[t.l] != '=' && hit == 0 && count != 0 && Match(s, t, attr)
      then r == AttribAt(s, t.next, attr, count + 1, count)
      else r == AttribAt(s, t.next, attr, count + 1, hit)
  {
    hide TokenAt, Match;
  }

  /** How a token is judged depends on its text alone. */
  lemma SameJudgement(s: string, s': string, t: Token, d: int, attr: string, count: nat, hit: nat)
    requires t.found && t.l <= t.r + 1 <= t.next <= |s| && (!t.isString ==> t.l <= t.r)
    requires 0 <= t.l + d && t.next + d <= |s'| && s'[t.l + d..t.r + 1 + d] == s[t.l..t.r + 1]
    ensures EndsTag(s', t.Plus(d)) == EndsTag(s, t) &&
            HitAfter(s', t.Plus(d), attr, count, hit) == HitAfter(s, t, attr, count, hit)
  {
    if !t.isString { assert s'[t.l + d] == s'[t.l + d..t.r + 1 + d][0] == s[t.l..t.r + 1][0] == s[t.l]; }
  }

  lemma GtToken(s: string, i: nat, m: nat)
    requires i <= m < |s| && s[m] == '>' && Scan(s, i, Space, false) == m
    ensures TokenAt(s, i) == Token(true, false, m, m, m + 1)
  {
    ScanIs(s, m, Special, true, m);
  }

  lemma SubSlice(s: string, b: nat, m: nat, x: nat, y: nat)
    requires b <= m <= |s| && x <= y <= m - b
    ensures s[b..m][x..y] == s[b + x..b + y]
  {
    var u, w := s[b..m][x..y], s[b + x..b + y];
    forall k | 0 <= k < |u| ensures u[k] == w[k] { assert u[k] == s[b..m][x + k] == s[b + x + k] == w[k]; }
  }

  lemma PrefixSlice(s: string, s': string, m: nat, x: nat, y: nat)
    requires x <= y <= m <= |s| && m <= |s'| && s[..m] == s'[..m]
    ensures s[x..y] == s'[x..y]
  {
    SubSlice(s, 0, m, x, y);
    SubSlice(s', 0, m, x, y);
  }

  /** One step of the search is the same in a text that agrees far enough. */
  lemma StableStep(s: string, s': string, i: nat, m: nat, attr: string, count: nat, hit: nat)
    requires i <= m <= |s| && m <= |s'| && s[..m] == s'[..m] && TokenAt(s, i).found
    requires TokenAt(s, i).next < m || (TokenAt(s, i).next == m < |s| && m < |s'| && In(s'[m], Special))
    ensures var u := TokenAt(s, i);
      TokenAt(s', i) == u && EndsTag(s', u) == EndsTag(s, u) &&
      HitAfter(s', u, attr, count, hit) == HitAfter(s, u, attr, count, hit)
  {
    hide In, EndsTag, HitAfter;
    var u := TokenAt(s, i);
    TokenStable(s, s', i, m);
    PrefixSlice(s, s', m, u.l, u.r + 1);
    SameJudgement(s, s', u, 0, attr, count, hit);
  }

  lemma AttribWindowEnd(doc: string, b: nat, m: nat, i: nat, attr: string, count: nat, hit: nat)
    requires b <= i < m <= |doc| && doc[m - 1] == '>' && Scan(doc[b..m], i - b, Space, false) == m - 1 - b
    ensures AttribAt(doc, i, attr, count, hit) == AttribAt(doc[b..m], i - b, attr, count, hit) == NO_TOKEN
  {
    hide In;
    assert doc[b..m][m - 1 - b] == '>';
    ScanWindow(doc, b, m, i, Space, false);
    GtToken(doc[b..m], i - b, m - 1 - b);
    GtToken(doc, i, m - 1);
  }

  /** In a clean tag the search does not leave the tag. */
  lemma {:induction false} AttribWindow(doc: string, b: nat, m: nat, i: nat, attr: string, count: nat, hit: nat)
    requires b <= i < m <= |doc| && doc[m - 1] == '>' && TokensTo(doc[b..m], i - b, m - 1 - b)
    ensures var t, u := AttribAt(doc, i, attr, count, hit), AttribAt(doc[b..m], i - b, attr, count, hit);
      t == (if u.found then u.Plus(b) else NO_TOKEN) && (u.found ==> u.next < m - b)
    decreases m - i
  {
    hide In, IsQuote, TokenFrom, TokenAt, HitAfter, EndsTag, Scan, AttribAt, TokensTo;
    var s := doc[b..m];
    var u := TokenAt(s, i - b);
    if Scan(s, i - b, Space, false) == m - 1 - b {
      AttribWindowEnd(doc, b, m, i, attr, count, hit);
    } else {
      TokensNext(s, i - b, m - 1 - b);
      TokenWindow(doc, b, m, i);
      SubSlice(doc, b, m, u.l, u.r + 1);
      SameJudgement(s, doc, u, b, attr, count, hit);
      if EndsTag(s, u) {
        AttribStops(s, i - b, attr, count, hit);
        AttribStops(doc, i, attr, count, hit);
      } else if u.isString && hit != 0 && count == hit + 2 {
        AttribHere(s, i - b, attr, count, hit);
        AttribHere(doc, i, attr, count, hit);
      } else {
        AttribStep(s, i - b, attr, count, hit);
        AttribStep(doc, i, attr, count, hit);
        AttribWindow(doc, b, m, u.next + b, attr, count + 1, HitAfter(s, u, attr, count, hit));
      }
    }
  }

  /** A search that meets the end of the tag. */
  lemma AttribStops(s: string, i: nat, attr: string, count: nat, hit: nat)
    requires i <= |s| && TokenAt(s, i).found && EndsTag(s, TokenAt(s, i))
    ensures AttribAt(s, i, attr, count, hit) == NO_TOKEN
  {
  }

  /** A search that goes past a token. */
  lemma AttribStep(s: string, i: nat, attr: string, count: nat, hit: nat)
    requires i <= |s| && TokenAt(s, i).found && !EndsTag(s, TokenAt(s, i)) &&
             !(TokenAt(s, i).isString && hit != 0 && count == hit + 2)
    ensures var u := TokenAt(s, i);
      AttribAt(s, i, attr, count, hit) == AttribAt(s, u.next, attr, count + 1, HitAfter(s, u, attr, count, hit))
  {
  }

  lemma AttribHere(s: string, i: nat, attr: string, count: nat, hit: nat)
    requires i <= |s| && TokenAt(s, i).found && TokenAt(s, i).isString && hit != 0 && count == hit + 2
    ensures AttribAt(s, i, attr, count, hit) == TokenAt(s, i)
  {
  }

  lemma TokensStep(s: string, i: nat, m: nat)
    requires i <= m <= |s| && TokenAt(s, i).found && TokenAt(s, i).next <= m && TokensTo(s, TokenAt(s, i).next, m)
    ensures TokensTo(s, i, m)
  {
  }

  lemma AttribEnd(s: string, i: nat, m: nat, attr: string, count: nat, hit: nat)
    requires i <= m < |s| && s[m] == '>' && TokensTo(s, i, m) && AttribAt(s, i, attr, count, hit).found
    ensures var u := TokenAt(s, i);
      Scan(s, i, Space, false) != m && u.found && u.next <= m && TokensTo(s, u.next, m) && !EndsTag(s, u)
  {
    if Scan(s, i, Space, false) == m { GtToken(s, i, m); }
  }

  /** The new value of an attribute is read back where the old one was, and the tag stays clean. */
  lemma {:induction false} AttribReplaced(s: string, s': string, v: string, i: nat, m: nat, attr: string, count: nat,
                                          hit: nat)
    requires i <= m < |s| && s[m] == '>' && TokensTo(s, i, m) && AttribAt(s, i, attr, count, hit).found
    requires var t := AttribAt(s, i, attr, count, hit); Respelled(s, s', v, t.l, t.r + 1)
    ensures var t := AttribAt(s, i, attr, count, hit); var n := |v| - (t.r + 1 - t.l);
      t.next <= m && TokensTo(s', i, m + n) &&
      AttribAt(s', i, attr, count, hit) == Token(true, true, t.l, t.l + |v| - 1, t.next + n)
    decreases m - i
  {
    hide In, IsQuote, TokenFrom, TokenAt, HitAfter, EndsTag, Scan, AttribAt, TokensTo, Respelled;
    var t := AttribAt(s, i, attr, count, hit);
    var u := TokenAt(s, i);
    AttribEnd(s, i, m, attr, count, hit);
    if u.isString && hit != 0 && count == hit + 2 {
      AttribHere(s, i, attr, count, hit);
      ReplacedHere(s, s', v, i, m, attr, count, hit);
    } else {
      AttribStep(s, i, attr, count, hit);
      AttribReplaced(s, s', v, u.next, m, attr, count + 1, HitAfter(s, u, attr, count, hit));
      Spliced(s, s', v, t.l, t.r + 1);
      StepKept(s, s', i, t.l, m + |v| - (t.r + 1 - t.l), attr, count, hit);
    }
  }

  /** A token before the change is passed in the new text as in the old. */
  lemma StepKept(s: string, s': string, i: nat, l: nat, m: nat, attr: string, count: nat, hit: nat)
    requires i <= l <= |s| && l <= m <= |s'| && s[..l] == s'[..l] && TokenAt(s, i).found && TokenAt(s, i).next < l
    requires !EndsTag(s, TokenAt(s, i)) && !(TokenAt(s, i).isString && hit != 0 && count == hit + 2) &&
             TokensTo(s', TokenAt(s, i).next, m)
    ensures var u := TokenAt(s, i);
      TokensTo(s', i, m) &&
      AttribAt(s', i, attr, count, hit) == AttribAt(s', u.next, attr, count + 1, HitAfter(s, u, attr, count, hit))
  {
    hide In, TokenAt, HitAfter, EndsTag, AttribAt, TokensTo;
    StableStep(s, s', i, l, attr, count, hit);
    AttribStep(s', i, attr, count, hit);
    TokensStep(s', i, m);
  }

  lemma ReplacedString(s: string, s': string, v: string, i: nat)
    requires i <= |s| && TokenAt(s, i).found && TokenAt(s, i).isString && TokenAt(s, i).next < |s|
    requires var t := TokenAt(s, i); Respelled(s, s', v, t.l, t.r + 1)
    ensures var t := TokenAt(s, i);
      TokenAt(s', i) == Token(true, true, t.l, t.l + |v| - 1, t.next + |v| - (t.r + 1 - t.l))
  {
    var t := TokenAt(s, i);
    var b := t.l - 1;
    Spliced(s, s', v, t.l, t.r + 1);
    hide Scan;
    ScanIs(s', i, Space, false, b);
    ScanIs(s', t.l, Is(s[b]), true, t.l + |v|);
  }

  /** s[l..r] is replaced by `v`, which holds no quote. */
  ghost predicate Respelled(s: string, s': string, v: string, l: nat, r: nat) {
    l <= r <= |s| && s' == s[..l] + v + s[r..] && '"' !in v && '\'' !in v
  }

  lemma Spliced(s: string, s': string, v: string, l: nat, r: nat)
    requires Respelled(s, s', v, l, r) && r < |s|
    ensures |s'| == |s| + |v| - (r - l) && s'[l + |v|] == s[r] && s'[..l] == s[..l]
    ensures forall k :: 0 <= k < l ==> s'[k] == s[k]
    ensures forall k :: l <= k < l + |v| ==> !IsQuote(s'[k])
  {
    forall k | l <= k < l + |v|
      ensures !IsQuote(s'[k])
    {
      assert s'[k] == v[k - l];
    }
  }

  lemma TokensNext(s: string, i: nat, m: nat)
    requires i <= m <= |s| && TokensTo(s, i, m) && Scan(s, i, Space, false) != m
    ensures var t := TokenAt(s, i); t.found && t.next <= m && TokensTo(s, t.next, m)
  {
  }

  lemma SpliceTail(s: string, s': string, v: string, l: nat, r: nat, x: nat)
    requires Respelled(s, s', v, l, r) && r <= x <= |s|
    ensures var n := |v| - (r - l); 0 <= x + n <= |s'| && s'[x + n..] == s[x..]
  {
  }

  lemma ReplacedHere(s: string, s': string, v: string, i: nat, m: nat, attr: string, count: nat, hit: nat)
    requires i <= m < |s| && TokensTo(s, i, m) && TokenAt(s, i).found && TokenAt(s, i).isString
    requires Scan(s, i, Space, false) != m && hit != 0 && count == hit + 2
    requires var t := TokenAt(s, i); Respelled(s, s', v, t.l, t.r + 1)
    ensures var t := TokenAt(s, i); var n := |v| - (t.r + 1 - t.l);
      AttribAt(s, i, attr, count, hit) == t && t.next <= m && TokensTo(s', i, m + n) &&
      AttribAt(s', i, attr, count, hit) == Token(true, true, t.l, t.l + |v| - 1, t.next + n)
  {
    hide TokenAt, Scan, AttribAt, TokensTo;
    var t := TokenAt(s, i);
    var n := |v| - (t.r + 1 - t.l);
    TokensNext(s, i, m);
    ReplacedString(s, s', v, i);
    AttribHere(s, i, attr, count, hit);
    AttribHere(s', i, attr, count, hit);
    SpliceTail(s, s', v, t.l, t.r + 1, t.next);
    TokensShift(s, s', t.next, m, n);
    TokensStep(s', i, m + n);
  }

  /** What x_SetAttrib inserts for an attribute it did not find. */
  function Pair(attr: string, v: string): string {
    " " + attr + "=\"" + v + "\""
  }

  function Inserted(s: string, m: nat, attr: string, v: string): string
    requires m <= |s|
  {
    s[..m] + Pair(attr, v) + s[m..]
  }

  lemma TokenOne(s: string, i: nat)
    requires i < |s| && In(s[i], Special) && !IsSpace(s[i])
    ensures TokenAt(s, i) == Token(true, false, i, i, i + 1)
  {
    ScanIs(s, i, Space, false, i);
    ScanIs(s, i, Special, true, i);
  }

  lemma TokenQuoted(s: string, i: nat, v: string)
    requires i + |v| + 1 < |s| && s[i] == '"' && s[i + 1 + |v|] == '"' && s[i + 1..i + 1 + |v|] == v && '"' !in v
    ensures TokenAt(s, i) == Token(true, true, i + 1, i + |v|, i + |v| + 2)
  {
    assert forall k :: i + 1 <= k < i + 1 + |v| ==> s[k] == s[i + 1..i + 1 + |v|][k - i - 1] == v[k - i - 1];
    ScanIs(s, i, Space, false, i);
    ScanIs(s, i + 1, Is('"'), true, i + 1 + |v|);
  }

  /** `s` reads ` attr="v"` at `m`, and then the end of a tag. */
  ghost predicate PairWritten(s: string, m: nat, attr: string, v: string) {
    var a := m + 1 + |attr|;
    a + 3 + |v| < |s| && s[m] == ' ' && s[m + 1..a] == attr && s[a] == '=' && s[a + 1] == '"' &&
    s[a + 2..a + 2 + |v|] == v && s[a + 2 + |v|] == '"' && (s[a + 3 + |v|] == '>' || s[a + 3 + |v|] == '/')
  }

  lemma PairText(s: string, m: nat, attr: string, v: string)
    requires m < |s| && (s[m] == '>' || s[m] == '/')
    ensures var s' := Inserted(s, m, attr, v);
      PairWritten(s', m, attr, v) && s'[m + |attr| + |v| + 4..] == s[m..] && s'[..m] == s[..m]
  {
    var s', a := Inserted(s, m, attr, v), m + 1 + |attr|;
    assert s'[a + 3 + |v|..] == s[m..];
    assert s'[a + 3 + |v|] == s'[a + 3 + |v|..][0] == s[m..][0];
  }

  /** The three tokens of a written pair, and the end of the tag after them. */
  ghost predicate PairAt(s: string, m: nat, attr: string, v: string) {
    var a := m + 1 + |attr|;
    var e := a + 3 + |v|;
    e < |s| && |attr| > 0 && TokenAt(s, m) == Token(true, false, m + 1, a - 1, a) && s[m + 1..a] == attr &&
    !In(s[m + 1], Special) &&
    TokenAt(s, a) == Token(true, false, a, a, a + 1) && s[a] == '=' &&
    TokenAt(s, a + 1) == Token(true, true, a + 2, a + 1 + |v|, e) &&
    TokenAt(s, e) == Token(true, false, e, e, e + 1) && (s[e] == '>' || s[e] == '/')
  }

  lemma PairName(s: string, m: nat, attr: string)
    requires m + 1 + |attr| < |s| && NameOk(attr) && s[m] == ' ' && s[m + 1..m + 1 + |attr|] == attr &&
             s[m + 1 + |attr|] == '='
    ensures TokenAt(s, m) == Token(true, false, m + 1, m + |attr|, m + 1 + |attr|) && !In(s[m + 1], Special)
  {
    assert s[m + 1] == s[m + 1..m + 1 + |attr|][0] == attr[0];
    TokenWord(s, m + 1, attr);
    assert Scan(s, m, Space, false) == Scan(s, m + 1, Space, false);
  }

  lemma TagEnders()
    ensures In('=', Special) && In('>', Special) && In('/', Special) && !IsSpace('=') && !IsSpace('>') && !IsSpace('/')
  {
  }

  lemma NameNotEmpty(name: string)
    requires NameOk(name)
    ensures |name| > 0
  {
  }

  lemma PairTokens(s: string, m: nat, attr: string, v: string)
    requires PairWritten(s, m, attr, v) && NameOk(attr) && '"' !in v
    ensures PairAt(s, m, attr, v)
  {
    hide TokenAt, In, IsSpace, IsQuote, NameOk;
    var a := m + 1 + |attr|;
    TagEnders();
    NameNotEmpty(attr);
    PairName(s, m, attr);
    TokenOne(s, a);
    TokenQuoted(s, a + 1, v);
    TokenOne(s, a + 3 + |v|);
  }

  lemma PairNameMatches(s: string, m: nat, attr: string, v: string, count: nat, hit: nat)
    requires PairAt(s, m, attr, v)
    ensures !EndsTag(s, TokenAt(s, m))
    ensures HitAfter(s, TokenAt(s, m), attr, count, hit) == if hit == 0 && count != 0 then count else hit
  {
    hide TokenAt;
    NameNotEnd(s[m + 1]);
    assert attr[..|attr|] == attr;
  }

  /** The search from the inserted pair on finds its value if the name had not matched before, and nothing otherwise. */
  lemma PairFound(s: string, m: nat, attr: string, v: string, count: nat, hit: nat)
    requires PairAt(s, m, attr, v) && (hit == 0 || hit < count)
    ensures var a := m + 1 + |attr|;
      AttribAt(s, m, attr, count, hit) ==
      if hit == 0 && count != 0 then Token(true, true, a + 2, a + 1 + |v|, a + 3 + |v|) else NO_TOKEN
  {
    hide TokenAt, In, AttribAt;
    var a := m + 1 + |attr|;
    var hit' := if hit == 0 && count != 0 then count else hit;
    PairNameMatches(s, m, attr, v, count, hit);
    AttribStep(s, m, attr, count, hit);
    AttribStep(s, a, attr, count + 1, hit');
    if hit == 0 && count != 0 {
      AttribHere(s, a + 1, attr, count + 2, hit');
    } else {
      AttribStep(s, a + 1, attr, count + 2, hit');
      AttribStops(s, a + 3 + |v|, attr, count + 3, hit');
    }
  }

  lemma NameNotEnd(c: char)
    requires !In(c, Special)
    ensures c != '>' && c != '/' && c != '='
  {
  }

  lemma HitBounds(s: string, t: Token, attr: string, count: nat, hit: nat)
    requires t.found && t.l <= t.r + 1 <= t.next <= |s| && (!t.isString ==> t.l <= t.r) && (hit == 0 || hit < count)
    ensures var h := HitAfter(s, t, attr, count, hit); (h == 0 || h < count + 1) && (hit != 0 ==> h == hit)
  {
  }

  lemma StableStep'(s: string, s': string, i: nat, m: nat, attr: string, count: nat, hit: nat)
    requires i <= m < |s| && m < |s'| && s[..m] == s'[..m] && s'[m] == ' ' && TokensTo(s, i, m) &&
             Scan(s, i, Space, false) != m
    ensures var u := TokenAt(s, i);
      u.found && u.next <= m && TokensTo(s, u.next, m) && TokenAt(s', i) == u && EndsTag(s', u) == EndsTag(s, u) &&
      HitAfter(s', u, attr, count, hit) == HitAfter(s, u, attr, count, hit)
  {
    hide EndsTag, HitAfter;
    StableStep(s, s', i, m, attr, count, hit);
  }

  lemma SpacesSkipped(s: string, s': string, i: nat, m: nat, attr: string, count: nat, hit: nat)
    requires i <= m < |s| && m < |s'| && s[..m] == s'[..m] && Scan(s, i, Space, false) == m
    ensures AttribAt(s', i, attr, count, hit) == AttribAt(s', m, attr, count, hit)
  {
    assert forall k :: i <= k < m ==> s'[k] == s'[..m][k] == s[..m][k] == s[k];
    hide In;
    ScanIs(s', i, Space, false, Scan(s', m, Space, false));
  }

  /** Reading from `i` reaches `m`, past the tag's name, without meeting the attribute's name. */
  ghost predicate Vacant(s: string, i: nat, m: nat, attr: string, count: nat)
    requires i <= m <= |s|
    decreases m - i
  {
    if Scan(s, i, Space, false) == m then count != 0
    else
      var u := TokenAt(s, i);
      u.found && u.next <= m && !EndsTag(s, u) && HitAfter(s, u, attr, count, 0) == 0 &&
      Vacant(s, u.next, m, attr, count + 1)
  }

  /**
   A pair inserted at the end of a tag that lacks it is found if and only if the name does not occur there without a
   value.
   */
  lemma {:induction false} AttribInserted(s: string, i: nat, m: nat, attr: string, v: string, count: nat, hit: nat)
    requires 0 < i <= m < |s| && NameOk(attr) && '"' !in v && (s[m] == '>' || s[m] == '/') && (hit == 0 || hit < count)
    requires TokensTo(s, i, m) && !AttribAt(s, i, attr, count, hit).found
    ensures var s', a := Inserted(s, m, attr, v), m + 1 + |attr|;
      AttribAt(s', i, attr, count, hit) ==
      if hit == 0 && Vacant(s, i, m, attr, count) then Token(true, true, a + 2, a + 1 + |v|, a + 3 + |v|) else NO_TOKEN
    decreases m - i
  {
    hide In, IsQuote, TokenFrom, TokenAt, HitAfter, EndsTag, AttribAt, Inserted, NameOk, PairAt;
    var s' := Inserted(s, m, attr, v);
    PairText(s, m, attr, v);
    if Scan(s, i, Space, false) == m {
      PairTokens(s', m, attr, v);
      PairFound(s', m, attr, v, count, hit);
      SpacesSkipped(s, s', i, m, attr, count, hit);
    } else {
      var u := TokenAt(s, i);
      StableStep'(s, s', i, m, attr, count, hit);
      if EndsTag(s, u) {
        AttribStops(s', i, attr, count, hit);
      } else if u.isString && hit != 0 && count == hit + 2 {
        AttribHere(s, i, attr, count, hit);
      } else {
        AttribStep(s, i, attr, count, hit);
        AttribStep(s', i, attr, count, hit);
        HitBounds(s, u, attr, count, hit);
        AttribInserted(s, u.next, m, attr, v, count + 1, HitAfter(s, u, attr, count, hit));
      }
    }
  }

  /** Where x_SetAttrib inserts a pair: before the '>' or, in an empty element, before the '/'. */
  function InsertAt(tag: string, empty: bool): int { |tag| - (if empty then 2 else 1) }

  /** The start tag that x_SetAttrib leaves. */
  function AttribTag(tag: string, empty: bool, attr: string, value: string): string
    requires 1 <= |tag| && 0 <= InsertAt(tag, empty)
  {
    var t := AttribAt(tag, 1, attr, 0, 0);
    if t.found then tag[..t.l] + Escape(value, true) + tag[t.r + 1..]
    else Inserted(tag, InsertAt(tag, empty), attr, Escape(value, true))
  }

  /** x_GetAttrib */
  function ReadAttrib(tag: string, attr: string): string
    requires 1 <= |tag|
  {
    var t := AttribAt(tag, 1, attr, 0, 0);
    if t.found then Unescape(tag[t.l..t.r + 1]) else ""
  }

  ghost predicate TagFor(tag: string, empty: bool, strict: bool) {
    |tag| >= 3 && StartTagOk(tag, strict) && (empty ==> tag[|tag| - 2] == '/')
  }

  lemma NameKept(tag: string, s: string, m: nat, strict: bool)
    requires StartTagOk(tag, strict) && m <= |tag| && m < |s| && tag[..m] == s[..m] && 1 <= m && |s| >= 3
    requires TokenAt(tag, 1).next < m || (TokenAt(tag, 1).next == m < |tag| && In(s[m], Special))
    requires s[|s| - 1] == '>' && (strict ==> CleanTag(s))
    ensures StartTagOk(s, strict) && TagName(s) == TagName(tag)
  {
    hide TokenAt, In, TokensTo;
    var t := TokenAt(tag, 1);
    TokenStable(tag, s, 1, m);
    PrefixChars(tag, s, m);
    PrefixSlice(tag, s, m, t.l, t.r + 1);
  }

  lemma InsertedTagOk(tag: string, empty: bool, attr: string, v: string, strict: bool)
    requires TagFor(tag, empty, strict) && NameOk(attr) && '"' !in v
    ensures var s := Inserted(tag, InsertAt(tag, empty), attr, v);
      |s| >= 1 && TagFor(s, empty, strict) && TagName(s) == TagName(tag)
  {
    hide TokenAt, In, Inserted, NameOk, TokensTo;
    var m := InsertAt(tag, empty);
    var s := Inserted(tag, m, attr, v);
    PairText(tag, m, attr, v);
    NameBefore(tag, empty, strict);
    InsertedEnds(tag, m, attr, v);
    if strict { InsertedClean(tag, empty, attr, v); }
    SpaceSpecial();
    NameKept(tag, s, m, strict);
  }

  /** The name token of a tag ends before the place where x_SetAttrib inserts. */
  lemma NameBefore(tag: string, empty: bool, strict: bool)
    requires TagFor(tag, empty, strict)
    ensures 1 < TokenAt(tag, 1).next <= InsertAt(tag, empty)
  {
  }

  lemma LastToken(s: string)
    requires |s| > 0 && s[|s| - 1] == '>'
    ensures TokensTo(s, |s| - 1, |s| - 1)
  {
    ScanIs(s, |s| - 1, Space, false, |s| - 1);
  }

  lemma PairTokensTo(s: string, m: nat, attr: string, v: string)
    requires PairAt(s, m, attr, v) && s[|s| - 1] == '>' && |s| - 2 <= m + |attr| + |v| + 4 < |s|
    ensures TokensTo(s, m, |s| - 1)
  {
    hide TokenAt, In;
    var a := m + 1 + |attr|;
    LastToken(s);
    if a + 3 + |v| < |s| - 1 { TokensStep(s, a + 3 + |v|, |s| - 1); }
    hide TokensTo;
    TokensStep(s, a + 1, |s| - 1);
    TokensStep(s, a, |s| - 1);
    TokensStep(s, m, |s| - 1);
  }

  lemma TokensToInsert(tag: string, empty: bool)
    requires TagFor(tag, empty, true)
    ensures 1 <= InsertAt(tag, empty) && TokensTo(tag, 1, InsertAt(tag, empty))
  {
    NameBefore(tag, empty, true);
    if empty { TokensToSlash(tag, 1, |tag| - 1); }
  }

  lemma InsertedEnds(tag: string, m: nat, attr: string, v: string)
    requires m < |tag|
    ensures var s := Inserted(tag, m, attr, v);
      |s| == |tag| + |attr| + |v| + 4 && s[|s| - 1] == tag[|tag| - 1] && s[m + |attr| + |v| + 4] == tag[m]
  {
  }

  lemma InsertedClean(tag: string, empty: bool, attr: string, v: string)
    requires TagFor(tag, empty, true) && NameOk(attr) && '"' !in v
    ensures CleanTag(Inserted(tag, InsertAt(tag, empty), attr, v))
  {
    hide TokenAt, In, Inserted, NameOk, PairAt, TokensTo;
    var m := InsertAt(tag, empty);
    var s := Inserted(tag, m, attr, v);
    TokensToInsert(tag, empty);
    PairText(tag, m, attr, v);
    InsertedEnds(tag, m, attr, v);
    PairTokens(s, m, attr, v);
    PairTokensTo(s, m, attr, v);
    SpaceSpecial();
    TokensJoin(tag, s, 1, m, |s| - 1);
  }

  lemma SpaceSpecial()
    ensures In(' ', Special)
  {
  }

  lemma ReplacedEnds(tag: string, l: nat, r: nat, v: string)
    requires l <= r < |tag| - 1
    ensures var s := tag[..l] + v + tag[r..];
      |s| == |tag| + |v| - (r - l) && s[|s| - 1] == tag[|tag| - 1] &&
      (r < |tag| - 2 ==> s[|s| - 2] == tag[|tag| - 2]) && s[..l] == tag[..l]
  {
  }

  lemma ReplacedTagOk(tag: string, empty: bool, attr: string, v: string)
    requires TagFor(tag, empty, true) && AttribAt(tag, 1, attr, 0, 0).found && '"' !in v && '\'' !in v
    ensures var t := AttribAt(tag, 1, attr, 0, 0); var s := tag[..t.l] + v + tag[t.r + 1..];
      t.next < |tag| && |s| >= 1 && TagFor(s, empty, true) && TagName(s) == TagName(tag)
  {
    hide AttribAt, TokenAt, TokensTo, In;
    var t := AttribAt(tag, 1, attr, 0, 0);
    var s := tag[..t.l] + v + tag[t.r + 1..];
    AttribReplaced(tag, s, v, 1, |tag| - 1, attr, 0, 0);
    QuoteAfter(tag, 1, attr, 0, 0);
    ReplacedEnds(tag, t.l, t.r + 1, v);
    NameKept(tag, s, t.l, true);
  }

  lemma StringClosed(s: string, i: nat)
    requires i <= |s| && TokenAt(s, i).found && TokenAt(s, i).isString && TokenAt(s, i).next < |s|
    ensures var t := TokenAt(s, i); t.next == t.r + 2 && IsQuote(s[t.r + 1])
  {
  }

  lemma AttribUnfold(s: string, i: nat, attr: string, count: nat, hit: nat)
    requires i <= |s| && AttribAt(s, i, attr, count, hit).found
    ensures TokenAt(s, i).found
    ensures var u := TokenAt(s, i);
      AttribAt(s, i, attr, count, hit) ==
      if u.isString && hit != 0 && count == hit + 2 then u
      else AttribAt(s, u.next, attr, count + 1, HitAfter(s, u, attr, count, hit))
  {
  }

  /** The value found lies after the tag's name and its closing quote follows it. */
  lemma {:induction false} QuoteAfter(s: string, i: nat, attr: string, count: nat, hit: nat)
    requires i <= |s| && AttribAt(s, i, attr, count, hit).found && AttribAt(s, i, attr, count, hit).next < |s| &&
             hit <= count
    ensures var t := AttribAt(s, i, attr, count, hit); t.next == t.r + 2 && IsQuote(s[t.r + 1])
    ensures hit == 0 ==> TokenAt(s, i).found && TokenAt(s, i).next < AttribAt(s, i, attr, count, hit).l
    decreases |s| - i
  {
    hide AttribAt, TokenAt, IsQuote;
    var u := TokenAt(s, i);
    AttribUnfold(s, i, attr, count, hit);
    if u.isString && hit != 0 && count == hit + 2 {
      StringClosed(s, i);
    } else {
      QuoteAfter(s, u.next, attr, count + 1, HitAfter(s, u, attr, count, hit));
    }
  }

  lemma EscapedValue(value: string)
    ensures var v := Escape(value, true); '"' !in v && '\'' !in v && Unescape(v) == value
  {
    EscapeClean(value, true, '"');
    EscapeClean(value, true, '\'');
    EscapeRoundTrip(value, true);
  }

  /** x_SetAttrib leaves a start tag of the same name, clean if it was clean. */
  lemma AttribTagOk(tag: string, empty: bool, attr: string, value: string, strict: bool)
    requires TagFor(tag, empty, strict) && NameOk(attr) && (strict || !AttribAt(tag, 1, attr, 0, 0).found)
    ensures var s := AttribTag(tag, empty, attr, value);
      |s| >= 1 && TagFor(s, empty, strict) && TagName(s) == TagName(tag)
  {
    hide AttribAt, StartTagOk, Inserted, Escape, Unescape, NameOk, TagName;
    EscapedValue(value);
    if AttribAt(tag, 1, attr, 0, 0).found {
      ReplacedTagOk(tag, empty, attr, Escape(value, true));
    } else {
      InsertedTagOk(tag, empty, attr, Escape(value, true), strict);
    }
  }

  lemma ReadReplaced(tag: string, empty: bool, attr: string, v: string)
    requires TagFor(tag, empty, true) && AttribAt(tag, 1, attr, 0, 0).found && '"' !in v && '\'' !in v
    ensures var t := AttribAt(tag, 1, attr, 0, 0); var s := tag[..t.l] + v + tag[t.r + 1..];
      |s| >= 1 && AttribAt(s, 1, attr, 0, 0).found && ReadAttrib(s, attr) == Unescape(v)
  {
    hide AttribAt, TokenAt, TokensTo, Unescape, In;
    var t := AttribAt(tag, 1, attr, 0, 0);
    var s := tag[..t.l] + v + tag[t.r + 1..];
    AttribReplaced(tag, s, v, 1, |tag| - 1, attr, 0, 0);
    assert s[t.l..t.l + |v|] == v;
  }

  lemma ReadInserted(tag: string, empty: bool, attr: string, v: string)
    requires TagFor(tag, empty, true) && NameOk(attr) && !AttribAt(tag, 1, attr, 0, 0).found && '"' !in v
    ensures 1 <= InsertAt(tag, empty)
    ensures var s := Inserted(tag, InsertAt(tag, empty), attr, v);
      |s| >= 1 && ReadAttrib(s, attr) == if Vacant(tag, 1, InsertAt(tag, empty), attr, 0) then Unescape(v) else ""
  {
    hide AttribAt, TokenAt, TokensTo, Unescape, In, Inserted, Vacant, NameOk;
    var m := InsertAt(tag, empty);
    TokensToInsert(tag, empty);
    AttribInserted(tag, 1, m, attr, v, 0, 0);
    PairText(tag, m, attr, v);
  }

  /**
   In a clean tag an attribute that was set reads back as the value set, unless the tag carries
   the attribute's name without a value, or a '/' before its end: then it reads back as "".
   */
  lemma AttribRoundTrip(tag: string, empty: bool, attr: string, value: string)
    requires TagFor(tag, empty, true) && NameOk(attr)
    ensures 1 <= InsertAt(tag, empty) && |AttribTag(tag, empty, attr, value)| >= 1
    ensures ReadAttrib(AttribTag(tag, empty, attr, value), attr) ==
      if AttribAt(tag, 1, attr, 0, 0).found || Vacant(tag, 1, InsertAt(tag, empty), attr, 0) then value else ""
  {
    hide AttribAt, StartTagOk, Inserted, Escape, NameOk, Vacant, Unescape, ReadAttrib, Inserted;
    EscapedValue(value);
    if AttribAt(tag, 1, attr, 0, 0).found {
      ReadReplaced(tag, empty, attr, Escape(value, true));
    } else {
      ReadInserted(tag, empty, attr, Escape(value, true));
    }
  }

  /** An attribute without a value is in the way: on the tag <a b>, whatever is set for b reads back as "". */
  lemma AttribLost(value: string)
    ensures TagFor("<a b>", false, true) && NameOk("b") && ReadAttrib(AttribTag("<a b>", false, "b", value), "b") == ""
  {
    hide Escape, Unescape, ReadAttrib, AttribTag;
    var tag := "<a b>";
    ScanIs(tag, 1, Space, false, 1);
    ScanIs(tag, 1, Special, true, 2);
    ScanIs(tag, 2, Space, false, 3);
    ScanIs(tag, 3, Special, true, 4);
    ScanIs(tag, 4, Space, false, 4);
    ScanIs(tag, 4, Special, true, 4);
    var t, u, w := TokenAt(tag, 1), TokenAt(tag, 2), TokenAt(tag, 4);
    assert t == Token(true, false, 1, 1, 2) && u == Token(true, false, 3, 3, 4) && w == Token(true, false, 4, 4, 5);
    assert tag[1..2] == "a" && tag[3..4] == "b";
    assert TokensTo(tag, 4, 4) && TokensTo(tag, 2, 4) && TokensTo(tag, 1, 4);
    assert HitAfter(tag, u, "b", 1, 0) == 1;
    AttribRoundTrip(tag, false, "b", value);
  }
}
