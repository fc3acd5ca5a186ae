/**
 Reading a document again: how the grammar of the text moves with the text, and lists of elements that are exactly what
 the parser would find.
 */
module MarkupTidy {
  import opened MarkupText
  import opened MarkupArena
  import opened MarkupLayout
  import opened MarkupEdits
  import opened MarkupParse
  import opened MarkupGrammar

  // ---- scanners in a window that moves ----

  lemma ScanMoved(doc: string, doc': string, lo: int, hi: int, d: int, i: int, cs: Class, want: bool)
    requires SameText(doc, doc', lo, hi, d) && lo <= i <= hi
    ensures var r, r' := Scan(doc, i, cs, want), Scan(doc', i + d, cs, want);
      (r < hi ==> r' == r + d) && (r >= hi ==> r' >= hi + d)
  {
    hide In;
    var r, r' := Scan(doc, i, cs, want), Scan(doc', i + d, cs, want);
    if r < hi { assert doc'[r + d] == doc[r]; }
    if r' < hi + d { assert doc'[(r' - d) + d] == doc[r' - d]; }
  }

  /** A token that ends inside the window, or is a single special character at its end, is the same token. */
  lemma TokenMoved(doc: string, doc': string, lo: int, hi: int, d: int, i: int)
    requires SameText(doc, doc', lo, hi, d) && lo <= i <= hi
    requires var t := TokenAt(doc, i);
      t.found && (t.next < hi || (t.next <= hi && !t.isString && In(doc[t.l], Special)))
    ensures TokenAt(doc', i + d) == TokenAt(doc, i).Plus(d)
  {
    hide In, Scan;
    var b := Scan(doc, i, Space, false);
    ScanMoved(doc, doc', lo, hi, d, i, Space, false);
    assert doc'[b + d] == doc[b];
    if IsQuote(doc[b]) {
      ScanMoved(doc, doc', lo, hi, d, b + 1, Is(doc[b]), true);
    } else {
      ScanMoved(doc, doc', lo, hi, d, b, Special, true);
    }
  }

  // ---- tags ----

  /**
   The start tag from `x` to `y` as the parser would read it.  The parser also takes `>` for the name of an empty
   element, and several slashes before its final '>'; those tags do not survive being split in two, and are left out
   here.
   */
  ghost predicate StartMade(doc: string, x: int, y: int, empty: bool) {
    OpensAt(doc, x, y) && x + 2 <= y < |doc| &&
    if empty then x + 3 <= y && doc[y - 1] == '/' && doc[y - 2] != '/' && doc[TokenAt(doc, x + 1).l] != '>'
    else doc[y - 1] != '/'
  }

  /** The end tag from `z` to `w` as the parser would read it. */
  ghost predicate EndMade(doc: string, z: int, w: int, name: string) {
    0 <= z < w < |doc| && EndTagStarts(doc, z) && EndFrom(doc, z + 1, 0, name) == w
  }

  ghost predicate WellMade(doc: string, e: ElemPos) {
    StartMade(doc, e.startL, e.startR, e.IsEmptyElement()) &&
    if e.IsEmptyElement() then e.endR == e.startR
    else e.startR < e.endL && EndMade(doc, e.endL, e.endR, NameAt(doc, e.startL))
  }

  lemma StartMoved(doc: string, doc': string, lo: int, hi: int, d: int, x: int, y: int, empty: bool)
    requires SameText(doc, doc', lo, hi, d) && lo <= x && y < hi && StartMade(doc, x, y, empty)
    ensures StartMade(doc', x + d, y + d, empty) && NameAt(doc', x + d) == NameAt(doc, x)
  {
    hide Scan, TokenAt, SameText, OpensAt, NameAt;
    SameAt(doc, doc', lo, hi, d, y - 1);
    OpensMoved(doc, doc', lo, hi, d, x, y);
    var t := TokenAt(doc, x + 1);
    SameAt(doc, doc', lo, hi, d, y - 2);
    SameAt(doc, doc', lo, hi, d, t.l);
  }

  lemma OpensMoved(doc: string, doc': string, lo: int, hi: int, d: int, x: int, y: int)
    requires SameText(doc, doc', lo, hi, d) && lo <= x && y < hi && OpensAt(doc, x, y)
    ensures OpensAt(doc', x + d, y + d) && NameAt(doc', x + d) == NameAt(doc, x)
    ensures var t := TokenAt(doc, x + 1); x < t.l < y && TokenAt(doc', x + d + 1) == t.Plus(d)
  {
    hide Scan, TokenAt, SameText, NameAt;
    var t := TokenAt(doc, x + 1);
    SameAt(doc, doc', lo, hi, d, x);
    SameAt(doc, doc', lo, hi, d, t.l);
    TokenMoved(doc, doc', lo, hi, d, x + 1);
    ScanMoved(doc, doc', lo, hi, d, t.next, Is('>'), true);
    NameMoved(doc, doc', lo, hi, d, x);
  }

  lemma NameMoved(doc: string, doc': string, lo: int, hi: int, d: int, x: int)
    requires SameText(doc, doc', lo, hi, d) && lo <= x < hi && 0 <= x && 0 <= x + d
    requires var t := TokenAt(doc, x + 1);
      t.found && t.next <= hi && t.next + d >= 0 && t.l + d >= 0 && x + d + 1 <= |doc'|
    requires TokenAt(doc', x + d + 1) == TokenAt(doc, x + 1).Plus(d)
    ensures NameAt(doc', x + d) == NameAt(doc, x)
  {
    hide TokenAt, SameText;
    var t := TokenAt(doc, x + 1);
    Slice(doc, doc', lo, hi, d, t.l, t.r + 1);
  }

  lemma SameAt(doc: string, doc': string, lo: int, hi: int, d: int, k: int)
    requires SameText(doc, doc', lo, hi, d)
    ensures 0 <= lo <= hi <= |doc| && 0 <= lo + d && hi + d <= |doc'| && (lo <= k < hi ==> doc'[k + d] == doc[k])
  {
  }

  lemma MatchMoved(doc: string, doc': string, lo: int, hi: int, d: int, t: Token, name: string)
    requires SameText(doc, doc', lo, hi, d) && lo <= t.l <= t.r + 1 <= hi && t.next + d >= 0
    ensures Match(doc', t.Plus(d), name) == Match(doc, t, name)
  {
    Slice(doc, doc', lo, hi, d, t.l, t.r + 1);
  }

  lemma {:induction false} EndFromMoved(doc: string, doc': string, lo: int, hi: int, d: int, i: int, count: nat,
                                        name: string)
    requires SameText(doc, doc', lo, hi, d) && lo <= i <= hi && EndFrom(doc, i, count, name) < hi &&
             EndFrom(doc, i, count, name) < |doc|
    ensures EndFrom(doc', i + d, count, name) == EndFrom(doc, i, count, name) + d
    decreases hi - i
  {
    hide Match, TokenAt;
    var t := TokenAt(doc, i);
    var w := EndFrom(doc, i, count, name);
    if !t.isString && doc[t.l] == '>' && w == t.l {
      GtSingle(doc, i);
      TokenMoved(doc, doc', lo, hi, d, i);
    } else {
      assert t.next <= w;
      TokenMoved(doc, doc', lo, hi, d, i);
      EndFromMoved(doc, doc', lo, hi, d, t.next, count + 1, name);
    }
    if !t.isString {
      assert doc'[t.l + d] == doc[t.l];
      MatchMoved(doc, doc', lo, hi, d, t, name);
    }
  }

  lemma EndMoved(doc: string, doc': string, lo: int, hi: int, d: int, z: int, w: int, name: string)
    requires SameText(doc, doc', lo, hi, d) && lo <= z && w < hi && EndMade(doc, z, w, name)
    ensures EndMade(doc', z + d, w + d, name)
  {
    hide TokenAt, EndFrom;
    EndFromMoved(doc, doc', lo, hi, d, z + 1, 0, name);
    EndInside(doc, z, w, name);
    TokenMoved(doc, doc', lo, hi, d, z + 1);
    var t := TokenAt(doc, z + 1);
    assert doc'[z + d] == doc[z] && doc'[t.l + d] == doc[t.l];
  }

  lemma EndInside(doc: string, z: int, w: int, name: string)
    requires EndMade(doc, z, w, name)
    ensures TokenAt(doc, z + 1).next <= w
  {
    hide Match;
    var t := TokenAt(doc, z + 1);
    assert EndFrom(doc, z + 1, 0, name) == EndFrom(doc, t.next, 1, name);
  }

  lemma WellMoved(doc: string, doc': string, e: ElemPos, e': ElemPos, lo: int, hi: int, d: int)
    requires WellMade(doc, e) && SameText(doc, doc', lo, hi, d) && lo <= e.startL && e.endR < hi && MovedBy(e, e', d, d)
    ensures WellMade(doc', e')
  {
    hide StartMade, EndMade, NameAt;
    WellBounds(doc, e);
    StartMoved(doc, doc', lo, hi, d, e.startL, e.startR, e.IsEmptyElement());
    if !e.IsEmptyElement() { EndMoved(doc, doc', lo, hi, d, e.endL, e.endR, NameAt(doc, e.startL)); }
  }

  /** Text between the tags of `e` has changed. */
  lemma WellAround(doc: string, doc': string, e: ElemPos, e': ElemPos, x: int, y: int, n: int)
    requires WellMade(doc, e) && !e.IsEmptyElement() && e.startR < x && y <= e.endL && MovedBy(e, e', 0, n)
    requires SameText(doc, doc', 0, x, 0) && SameText(doc, doc', y, |doc|, n) && x <= y + n
    ensures WellMade(doc', e')
  {
    hide StartMade, EndMade, NameAt;
    WellBounds(doc, e);
    StartMoved(doc, doc', 0, x, 0, e.startL, e.startR, false);
    EndMoved(doc, doc', y, |doc|, n, e.endL, e.endR, NameAt(doc, e.startL));
  }

  lemma WellBounds(doc: string, e: ElemPos)
    requires WellMade(doc, e)
    ensures 0 <= e.startL && e.startL + 2 <= e.startR <= e.endR < |doc| && doc[e.startL] == '<'
    ensures if e.IsEmptyElement() then e.endR == e.startR else e.startR < e.endL < e.endR && doc[e.endL] == '<'
  {
    hide TokenAt, EndFrom;
  }

  // ---- gaps ----

  lemma StrMoved(doc: string, doc': string, lo: int, hi: int, d: int, k: int, pat: string)
    requires SameText(doc, doc', lo, hi, d) && lo <= k && k + |pat| <= hi
    ensures StrAt(doc', k + d, pat) == StrAt(doc, k, pat)
  {
    Slice(doc, doc', lo, hi, d, k, k + |pat|);
  }

  lemma {:induction false} FindStrMoved(doc: string, doc': string, lo: int, hi: int, d: int, i: int, pat: string)
    requires SameText(doc, doc', lo, hi, d) && lo <= i <= hi && FindStr(doc, i, pat) + |pat| <= hi
    ensures FindStr(doc', i + d, pat) == FindStr(doc, i, pat) + d
    decreases hi - i
  {
    hide StrAt;
    StrMoved(doc, doc', lo, hi, d, i, pat);
    if !StrAt(doc, i, pat) { FindStrMoved(doc, doc', lo, hi, d, i + 1, pat); }
  }

  lemma {:induction false} DoctypeMoved(doc: string, doc': string, lo: int, hi: int, d: int, i: int, brackets: int)
    requires SameText(doc, doc', lo, hi, d) && lo <= i <= hi && DoctypeEnd(doc, i, brackets) <= hi
    ensures DoctypeEnd(doc', i + d, brackets) == DoctypeEnd(doc, i, brackets) + d
    decreases hi - i
  {
    hide TokenAt;
    var t := TokenAt(doc, i);
    var r := DoctypeEnd(doc, i, brackets);
    if !t.isString && brackets == 0 && doc[t.l] == '>' {
      GtSingle(doc, i);
      TokenMoved(doc, doc', lo, hi, d, i);
      assert doc'[t.l + d] == doc[t.l];
    } else {
      TokenMoved(doc, doc', lo, hi, d, i);
      if !t.isString { assert doc'[t.l + d] == doc[t.l]; }
      DoctypeMoved(doc, doc', lo, hi, d, t.next,
                   if t.isString then brackets else if doc[t.l] == '[' then brackets + 1
                   else if doc[t.l] == ']' then brackets - 1 else brackets);
    }
  }

  lemma NodeMoved(doc: string, doc': string, lo: int, hi: int, d: int, x: int)
    requires SameText(doc, doc', lo, hi, d) && lo <= x < |doc| && doc[x] == '<' && x < NodeEnd(doc, x) <= hi
    ensures NodeEnd(doc', x + d) == NodeEnd(doc, x) + d && x + 2 < hi
  {
    hide FindStr, DoctypeEnd;
    NodeLong(doc, x);
    assert doc'[(x + 1) + d] == doc[x + 1] && doc'[(x + 2) + d] == doc[x + 2];
    if doc[x + 1] == '?' {
      FindStrMoved(doc, doc', lo, hi, d, x, "?>");
    } else if doc[x + 2] == '[' {
      FindStrMoved(doc, doc', lo, hi, d, x, "]]>");
    } else if doc[x + 2] == '-' {
      FindStrMoved(doc, doc', lo, hi, d, x, "-->");
    } else {
      DoctypeMoved(doc, doc', lo, hi, d, x, 0);
    }
  }

  /** A node is at least three characters long. */
  lemma NodeLong(doc: string, x: nat)
    requires x < |doc| && doc[x] == '<' && x < NodeEnd(doc, x) <= |doc|
    ensures x + 2 < NodeEnd(doc, x) && (doc[x + 1] == '?' || doc[x + 1] == '!')
  {
    hide FindStr, DoctypeEnd;
    if doc[x + 1] == '?' {
      var r := FindStr(doc, x, "?>");
      assert doc[r..r + 2][0] == doc[r] == '?';
    } else if doc[x + 2] != '[' && doc[x + 2] != '-' {
      DoctypeLong(doc, x);
    }
  }

  lemma DoctypeLong(doc: string, x: nat)
    requires x + 1 < |doc| && doc[x] == '<' && doc[x + 1] == '!'
    ensures x + 2 < DoctypeEnd(doc, x, 0)
  {
    assert TokenAt(doc, x) == Token(true, false, x, x, x + 1);
    NodeToken(doc, x);
    assert DoctypeEnd(doc, x, 0) == DoctypeEnd(doc, x + 1, 0) == DoctypeEnd(doc, x + 2, 0);
  }

  lemma {:induction false} GapMoved(doc: string, doc': string, lo: int, hi: int, d: int, x: int, y: int)
    requires SameText(doc, doc', lo, hi, d) && lo <= x <= y <= hi && Gap(doc, x, y)
    ensures Gap(doc', x + d, y + d)
    decreases y - x
  {
    hide NodeEnd, Scan;
    ScanMoved(doc, doc', lo, hi, d, x, Is('<'), true);
    var z := Scan(doc, x, Is('<'), true);
    if z < y {
      NodeMoved(doc, doc', lo, hi, d, z);
      assert doc'[(z + 1) + d] == doc[z + 1];
      GapMoved(doc, doc', lo, hi, d, NodeEnd(doc, z), y);
    }
  }

  lemma GapPlain(doc: string, lo: nat, hi: nat)
    requires lo <= hi <= |doc| && forall k :: lo <= k < hi ==> doc[k] != '<'
    ensures Gap(doc, lo, hi)
  {
    hide NodeEnd;
  }

  lemma {:induction false} GapJoin(doc: string, lo: nat, m: nat, hi: nat)
    requires lo <= m <= hi <= |doc| && Gap(doc, lo, m) && Gap(doc, m, hi)
    ensures Gap(doc, lo, hi)
    decreases m - lo
  {
    hide NodeEnd, Scan;
    var z := Scan(doc, lo, Is('<'), true);
    if z >= m {
      ScanFrom(doc, lo, m, Is('<'));
    } else {
      GapJoin(doc, NodeEnd(doc, z), m, hi);
    }
  }

  lemma GapRaise(doc: string, lo: nat, m: nat, hi: nat)
    requires lo <= m <= hi <= |doc| && Gap(doc, lo, hi) && forall k :: lo <= k < m ==> doc[k] != '<'
    ensures Gap(doc, m, hi)
  {
    hide NodeEnd, Scan;
    ScanFrom(doc, lo, m, Is('<'));
  }

  // ---- lists of elements ----

  /** The elements between `lo` and `hi` are exactly those of `f`. */
  ghost predicate TidyIn(doc: string, a: seq<ElemPos>, f: Forest, lo: int, hi: int) {
    0 <= lo <= hi <= |doc| &&
    match f
    case Nil => Gap(doc, lo, hi)
    case Cons(i, k, r) =>
      i < |a| && lo <= a[i].startL <= |doc| && WellMade(doc, a[i]) && Gap(doc, lo, a[i].startL) &&
      (if a[i].IsEmptyElement() then k == Nil else TidyIn(doc, a, k, a[i].startR + 1, a[i].endL)) &&
      TidyIn(doc, a, r, a[i].endR + 1, hi)
  }

  lemma {:induction false} TidyMoved(doc: string, doc': string, a: seq<ElemPos>, b: seq<ElemPos>, f: Forest, lo: int,
                                     hi: int, d: int)
    requires TidyIn(doc, a, f, lo, hi) && Moved(a, b, Ids(f), d, d) && SameText(doc, doc', lo, hi, d)
    ensures TidyIn(doc', b, f, lo + d, hi + d)
  {
    hide Gap, WellMade;
    match f
    case Nil => GapMoved(doc, doc', lo, hi, d, lo, hi);
    case Cons(i, k, r) =>
      var e := a[i];
      WellBounds(doc, e);
      TidyBounds(doc, a, r, e.endR + 1, hi);
      GapMoved(doc, doc', lo, hi, d, lo, e.startL);
      WellMoved(doc, doc', e, b[i], lo, hi, d);
      TidyMoved(doc, doc', a, b, r, e.endR + 1, hi, d);
      if !e.IsEmptyElement() { TidyMoved(doc, doc', a, b, k, e.startR + 1, e.endL, d); }
  }

  lemma TidyBounds(doc: string, a: seq<ElemPos>, f: Forest, lo: int, hi: int)
    requires TidyIn(doc, a, f, lo, hi)
    ensures 0 <= lo <= hi <= |doc|
  {
  }

  lemma TidyLower(doc: string, a: seq<ElemPos>, f: Forest, lo: int, lo': int, hi: int)
    requires 0 <= lo <= lo' && TidyIn(doc, a, f, lo', hi) && Gap(doc, lo, lo')
    ensures TidyIn(doc, a, f, lo, hi)
  {
    hide Gap, WellMade;
    GapJoin(doc, lo, lo', if f.Nil? then hi else a[f.elem].startL);
  }

  lemma TidyRaise(doc: string, a: seq<ElemPos>, f: Forest, lo: int, lo': int, hi: int)
    requires TidyIn(doc, a, f, lo, hi) && lo <= lo' <= hi && forall k :: lo <= k < lo' ==> doc[k] != '<'
    ensures TidyIn(doc, a, f, lo', hi)
  {
    hide Gap, WellMade;
    if f.Cons? { WellBounds(doc, a[f.elem]); }
    GapRaise(doc, lo, lo', if f.Nil? then hi else a[f.elem].startL);
  }

  lemma {:induction false} TidyJoin(doc: string, a: seq<ElemPos>, f: Forest, g: Forest, lo: int, m: int, hi: int)
    requires TidyIn(doc, a, f, lo, m) && TidyIn(doc, a, g, m, hi)
    ensures TidyIn(doc, a, Append(f, g), lo, hi)
  {
    hide Gap, WellMade;
    if f.Cons? { TidyJoin(doc, a, f.rest, g, a[f.elem].endR + 1, m, hi); } else { TidyLower(doc, a, g, lo, m, hi); }
  }

  /** The list opens up after `b`. */
  lemma {:induction false} TidySplit(doc: string, a: seq<ElemPos>, f: Forest, b: nat, lo: int, hi: int)
    requires TidyIn(doc, a, f, lo, hi) && IsPlace(f, b)
    ensures b < |a| || b == 0
    ensures var m := if b == 0 then lo else a[b].endR + 1;
      lo <= m <= hi && TidyIn(doc, a, Upto(f, b), lo, m) && TidyIn(doc, a, Past(f, b), m, hi)
  {
    hide Gap, WellMade;
    if b == 0 {
      EmptyGap(doc, lo);
    } else {
      WellBounds(doc, a[f.elem]);
      if f.elem == b { EmptyGap(doc, a[b].endR + 1); } else { TidySplit(doc, a, f.rest, b, a[f.elem].endR + 1, hi); }
      TidyBounds(doc, a, f.rest, a[f.elem].endR + 1, hi);
    }
  }

  // ---- an edit inside one element ----

  lemma {:induction false} TidyAt(doc: string, a: seq<ElemPos>, f: Forest, t: nat, up: Path, lo: int, hi: int)
    requires TidyIn(doc, a, f, lo, hi) && t in Ids(f)
    ensures t < |a| && lo <= a[t].startL <= a[t].endR < hi && WellMade(doc, a[t])
    ensures var k := Find(f, t, up).0;
      if a[t].IsEmptyElement() then k == Nil else TidyIn(doc, a, k, a[t].startR + 1, a[t].endL)
  {
    hide Gap, WellMade;
    var e := a[f.elem];
    WellBounds(doc, e);
    TidyBounds(doc, a, f.rest, e.endR + 1, hi);
    if t == f.elem {
    } else if t in Ids(f.kids) {
      TidyAt(doc, a, f.kids, t, Inside(f.elem, f.rest, up), e.startR + 1, e.endL);
    } else {
      TidyAt(doc, a, f.rest, t, up, e.endR + 1, hi);
    }
  }

  /** Outside element `t` the text is the same; `t` and its new children `k` are exactly what is there. */
  ghost predicate EditedTidy(doc: string, doc': string, a: seq<ElemPos>, b: seq<ElemPos>, t: nat, k: Forest, n: int) {
    t < |a| && SameText(doc, doc', 0, a[t].startL, 0) && SameText(doc, doc', a[t].endR + 1, |doc|, n) &&
    t < |b| && WellMade(doc', b[t]) && b[t].startL == a[t].startL && b[t].endR == a[t].endR + n &&
    if b[t].IsEmptyElement() then k == Nil else TidyIn(doc', b, k, b[t].startR + 1, b[t].endL)
  }

  lemma TidyWithin(doc: string, doc': string, a: seq<ElemPos>, b: seq<ElemPos>, f: Forest, t: nat, k: Forest,
                   k': Forest, lo: int, hi: int, n: int)
    requires f.Cons? && t in Ids(f.kids) && TidyIn(doc, a, f, lo, hi) && EditedTidy(doc, doc', a, b, t, k, n)
    requires Moved(a, b, {f.elem}, 0, n) && Moved(a, b, Ids(f.rest), n, n)
    requires TidyIn(doc', b, k', a[f.elem].startR + 1, a[f.elem].endL + n)
    ensures TidyIn(doc', b, f.(kids := k'), lo, hi + n)
  {
    hide Gap, WellMade;
    var e := a[f.elem];
    WellBounds(doc, e);
    WellBounds(doc', b[t]);
    TidyAt(doc, a, f.kids, t, Top, e.startR + 1, e.endL);
    assert MovedBy(e, b[f.elem], 0, n);
    GapMoved(doc, doc', 0, a[t].startL, 0, lo, e.startL);
    WellAround(doc, doc', e, b[f.elem], a[t].startL, a[t].endR + 1, n);
    TidyBounds(doc, a, f.rest, e.endR + 1, hi);
    TextPart(doc, doc', a[t].endR + 1, |doc|, n, e.endR + 1, hi);
    TidyMoved(doc, doc', a, b, f.rest, e.endR + 1, hi, n);
  }

  lemma TidyBeyond(doc: string, doc': string, a: seq<ElemPos>, b: seq<ElemPos>, f: Forest, t: nat, k: Forest,
                   r': Forest, lo: int, hi: int, n: int)
    requires f.Cons? && t in Ids(f.rest) && TidyIn(doc, a, f, lo, hi) && EditedTidy(doc, doc', a, b, t, k, n)
    requires Moved(a, b, {f.elem} + Ids(f.kids), 0, 0) && TidyIn(doc', b, r', a[f.elem].endR + 1, hi + n)
    ensures TidyIn(doc', b, f.(rest := r'), lo, hi + n)
  {
    hide Gap, WellMade;
    var e := a[f.elem];
    WellBounds(doc, e);
    TidyAt(doc, a, f.rest, t, Top, e.endR + 1, hi);
    assert MovedBy(e, b[f.elem], 0, 0);
    GapMoved(doc, doc', 0, a[t].startL, 0, lo, e.startL);
    WellMoved(doc, doc', e, b[f.elem], 0, a[t].startL, 0);
    if !e.IsEmptyElement() {
      TextPart(doc, doc', 0, a[t].startL, 0, e.startR + 1, e.endL);
      TidyMoved(doc, doc', a, b, f.kids, e.startR + 1, e.endL, 0);
    }
  }

  lemma TidyHere(doc: string, doc': string, a: seq<ElemPos>, b: seq<ElemPos>, f: Forest, k': Forest, up: Path, lo: int,
                 hi: int, n: int)
    requires f.Cons? && UniqIn(f, up) && TidyIn(doc, a, f, lo, hi)
    requires RepairedBut(a, b, f, f.elem, up, n) && EditedTidy(doc, doc', a, b, f.elem, k', n)
    ensures TidyIn(doc', b, f.(kids := k'), lo, hi + n)
  {
    hide Gap, WellMade;
    var e := a[f.elem];
    WellBounds(doc, e);
    WellBounds(doc', b[f.elem]);
    assert Moved(a, b, Ids(f.rest), n, n);
    TidyBounds(doc, a, f.rest, e.endR + 1, hi);
    GapMoved(doc, doc', 0, e.startL, 0, lo, e.startL);
    TextPart(doc, doc', e.endR + 1, |doc|, n, e.endR + 1, hi);
    TidyMoved(doc, doc', a, b, f.rest, e.endR + 1, hi, n);
  }

  /** An edit strictly inside element `t` leaves the whole list exact. */
  lemma {:induction false} TidyAround(doc: string, doc': string, a: seq<ElemPos>, b: seq<ElemPos>, f: Forest, t: nat,
                                      k': Forest, up: Path, lo: int, hi: int, n: int)
    requires t in Ids(f) && UniqIn(f, up) && TidyIn(doc, a, f, lo, hi)
    requires RepairedBut(a, b, f, t, up, n) && EditedTidy(doc, doc', a, b, t, k', n)
    ensures TidyIn(doc', b, ReplaceKids(f, t, k'), lo, hi + n)
  {
    hide UniqIn, RepairedBut, EditedTidy, Moved, WellMade, Gap;
    if t == f.elem {
      TidyHere(doc, doc', a, b, f, k', up, lo, hi, n);
    } else if t in Ids(f.kids) {
      TidyFull(doc, a, f, t, lo, hi);
      RepairedWithin(a, b, f, t, up, n);
      TidyAround(doc, doc', a, b, f.kids, t, k', Inside(f.elem, f.rest, up), a[f.elem].startR + 1, a[f.elem].endL, n);
      TidyWithin(doc, doc', a, b, f, t, k', ReplaceKids(f.kids, t, k'), lo, hi, n);
    } else {
      RepairedBeyond(a, b, f, t, up, n);
      TidyAround(doc, doc', a, b, f.rest, t, k', up, a[f.elem].endR + 1, hi, n);
      TidyBeyond(doc, doc', a, b, f, t, k', ReplaceKids(f.rest, t, k'), lo, hi, n);
    }
  }

  lemma TidyFull(doc: string, a: seq<ElemPos>, f: Forest, t: nat, lo: int, hi: int)
    requires TidyIn(doc, a, f, lo, hi) && f.Cons? && t in Ids(f.kids)
    ensures f.elem < |a| && !a[f.elem].IsEmptyElement() && TidyIn(doc, a, f.kids, a[f.elem].startR + 1, a[f.elem].endL)
  {
    hide WellMade, Gap;
  }

  // ---- what the parser makes of it ----

  ghost predicate FirmTrees(doc: string, ts: Trees) {
    match ts
    case Leaf => true
    case Tree(s, k, r) => Firm(doc, s) && FirmTrees(doc, k) && FirmTrees(doc, r)
  }

  /** If the element is empty, its name is not `>` and a single slash ends its tag. */
  ghost predicate Firm(doc: string, s: Span) {
    s.IsEmpty() ==>
      0 <= s.startL < |doc| && TokenAt(doc, s.startL + 1).l < |doc| && doc[TokenAt(doc, s.startL + 1).l] != '>' &&
      0 < s.endL <= |doc| && doc[s.endL - 1] != '/'
  }

  /** Exactly what is there, as the parser sees it: the elements without their slots. */
  lemma {:induction false} TidyTrees(doc: string, a: seq<ElemPos>, f: Forest, lo: int, hi: int)
    requires TidyIn(doc, a, f, lo, hi)
    ensures Tidy(doc, TreesOf(a, f), lo, hi)
  {
    hide Gap, WellMade, Exact;
    match f
    case Nil =>
    case Cons(i, k, r) =>
      WellExact(doc, a[i]);
      WellBounds(doc, a[i]);
      TidyTrees(doc, a, r, a[i].endR + 1, hi);
      if !a[i].IsEmptyElement() { TidyTrees(doc, a, k, a[i].startR + 1, a[i].endL); }
  }

  lemma WellExact(doc: string, e: ElemPos)
    requires WellMade(doc, e)
    ensures Exact(doc, SpanOf(e))
  {
    hide OpensAt, EndFrom, EndTagStarts, NameAt;
    WellBounds(doc, e);
  }

  lemma ExactWell(doc: string, e: ElemPos)
    requires Exact(doc, SpanOf(e)) && Firm(doc, SpanOf(e))
    ensures WellMade(doc, e)
  {
    hide EndFrom, EndTagStarts;
  }

  lemma {:induction false} TreesTidy(doc: string, a: seq<ElemPos>, f: Forest, lo: nat, hi: nat)
    requires Tidy(doc, TreesOf(a, f), lo, hi) && FirmTrees(doc, TreesOf(a, f)) && forall j :: j in Ids(f) ==> j < |a|
    ensures TidyIn(doc, a, f, lo, hi)
  {
    hide Gap, WellMade, Exact, Firm;
    match f
    case Nil =>
    case Cons(i, k, r) =>
      ExactWell(doc, a[i]);
      WellBounds(doc, a[i]);
      assert forall j :: j in Ids(k) || j in Ids(r) ==> j in Ids(f);
      TreesTidy(doc, a, r, a[i].endR + 1, hi);
      if !a[i].IsEmptyElement() { TreesTidy(doc, a, k, a[i].startR + 1, a[i].endL); }
  }
}
