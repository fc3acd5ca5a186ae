/**
 What it means for the arena's offsets to agree with the text, and how that agreement
 survives an edit of the text that is followed by the matching shift of offsets.
 */
module MarkupLayout {
  import opened MarkupText
  import opened MarkupArena

  /** Tokenising `s` from `i` reaches position `m` exactly. */
  ghost predicate TokensTo(s: string, i: nat, m: nat)
    requires i <= m <= |s|
    decreases m - i
  {
    Scan(s, i, Space, false) == m ||
    (TokenAt(s, i).found && TokenAt(s, i).next <= m && TokensTo(s, TokenAt(s, i).next, m))
  }

  /** A start tag whose quoted strings all close before the final '>'. */
  ghost predicate CleanTag(tag: string) {
    |tag| >= 2 && TokensTo(tag, 1, |tag| - 1)
  }

  function TagName(tag: string): string
    requires |tag| >= 1
  {
    var t := TokenAt(tag, 1);
    if t.found then tag[t.l..t.r + 1] else ""
  }

  ghost predicate StartTagOk(tag: string, strict: bool) {
    |tag| >= 3 && tag[0] == '<' && tag[|tag| - 1] == '>' && (strict ==> CleanTag(tag)) &&
    var t := TokenAt(tag, 1);
    t.found && !t.isString && t.next < |tag| && tag[t.l] != '/' && tag[t.l] != '?' && tag[t.l] != '!'
  }

  /** An end tag: "/" and then the element's name (the parser also lets a quoted string pass). */
  ghost predicate EndTagOk(tag: string, name: string) {
    |tag| >= 3 && tag[0] == '<' && tag[|tag| - 1] == '>' &&
    var t := TokenAt(tag, 1);
    t.found && !t.isString && tag[t.l] == '/' &&
    var u := TokenAt(tag, t.next);
    u.found && (u.isString || Match(tag, u, name))
  }

  function StartTag(doc: string, e: ElemPos): string
    requires 0 <= e.startL <= e.startR < |doc|
  {
    doc[e.startL..e.startR + 1]
  }

  function EndTag(doc: string, e: ElemPos): string
    requires 0 <= e.endL <= e.endR < |doc|
  {
    doc[e.endL..e.endR + 1]
  }

  /** Start and end tag of one element; the "end tag" of an empty element is the "/>" inside its start tag. */
  ghost predicate TagsOk(start: string, end: string, empty: bool, strict: bool) {
    StartTagOk(start, strict) && if empty then end == "/>" else EndTagOk(end, TagName(start))
  }

  ghost predicate Bounded(doc: string, e: ElemPos) {
    0 <= e.startL && e.startL + 2 <= e.startR && e.endR < |doc| &&
    if e.IsEmptyElement() then e.endR == e.startR else e.startR < e.endL && e.endL + 2 <= e.endR
  }

  /** The four offsets of `e` point at its own tags in `doc`. */
  ghost predicate ElemOk(doc: string, e: ElemPos, strict: bool) {
    Bounded(doc, e) && TagsOk(StartTag(doc, e), EndTag(doc, e), e.IsEmptyElement(), strict)
  }

  /** The siblings of `f` and all below them lie in doc[lo..hi], in order, each inside its parent. */
  ghost predicate Laid(doc: string, a: seq<ElemPos>, f: Forest, lo: int, hi: int, strict: bool) {
    0 <= lo <= hi <= |doc| &&
    match f
    case Nil => true
    case Cons(i, k, r) =>
      i < |a| && lo <= a[i].startL && ElemOk(doc, a[i], strict) &&
      (if a[i].IsEmptyElement() then k == Nil else Laid(doc, a, k, a[i].startR + 1, a[i].endL, strict)) &&
      Laid(doc, a, r, a[i].endR + 1, hi, strict)
  }

  predicate MovedBy(e: ElemPos, e': ElemPos, ds: int, de: int) {
    e'.startL == e.startL + ds && e'.startR == e.startR + ds && e'.endL == e.endL + de && e'.endR == e.endR + de
  }

  /** The slots in `ids` have moved: start tags by `ds`, end tags by `de`. */
  ghost predicate Moved(a: seq<ElemPos>, b: seq<ElemPos>, ids: set<nat>, ds: int, de: int) {
    forall j :: j in ids ==> j < |a| && j < |b| && MovedBy(a[j], b[j], ds, de)
  }

  /** doc[lo..hi] reappears in doc' moved by `d`. */
  ghost predicate SameText(doc: string, doc': string, lo: int, hi: int, d: int) {
    0 <= lo <= hi <= |doc| && 0 <= lo + d && hi + d <= |doc'| &&
    forall k :: lo <= k < hi ==> doc'[k + d] == doc[k]
  }

  lemma TextPart(doc: string, doc': string, lo: int, hi: int, d: int, x: int, y: int)
    requires SameText(doc, doc', lo, hi, d) && lo <= x <= y <= hi
    ensures SameText(doc, doc', x, y, d) && 0 <= x + d && y + d <= |doc'|
  {
  }

  lemma Slice(doc: string, doc': string, lo: int, hi: int, d: int, x: int, y: int)
    requires SameText(doc, doc', lo, hi, d) && lo <= x <= y <= hi
    ensures doc'[x + d..y + d] == doc[x..y]
  {
    var s, t := doc[x..y], doc'[x + d..y + d];
    forall k | 0 <= k < |s|
      ensures s[k] == t[k]
    {
      assert s[k] == doc[x + k] && t[k] == doc'[x + k + d];
    }
  }

  lemma ElemMoved(doc: string, doc': string, e: ElemPos, e': ElemPos, lo: int, hi: int, d: int, strict: bool)
    requires ElemOk(doc, e, strict) && SameText(doc, doc', lo, hi, d) && lo <= e.startL && e.endR < hi
    requires MovedBy(e, e', d, d)
    ensures ElemOk(doc', e', strict)
  {
    hide TagsOk;
    Slice(doc, doc', lo, hi, d, e.startL, e.startR + 1);
    Slice(doc, doc', lo, hi, d, e.endL, e.endR + 1);
  }

  /** A list that lies in a window moves with the window. */
  lemma {:induction false} LaidMoved(doc: string, doc': string, a: seq<ElemPos>, b: seq<ElemPos>, f: Forest, lo: int,
                                     hi: int, d: int, strict: bool)
    requires Laid(doc, a, f, lo, hi, strict) && Moved(a, b, Ids(f), d, d) && SameText(doc, doc', lo, hi, d)
    ensures Laid(doc', b, f, lo + d, hi + d, strict)
  {
    hide TagsOk;
    match f
    case Nil =>
    case Cons(i, k, r) =>
      var e := a[i];
      ElemMoved(doc, doc', e, b[i], lo, hi, d, strict);
      LaidMoved(doc, doc', a, b, r, e.endR + 1, hi, d, strict);
      if !e.IsEmptyElement() { LaidMoved(doc, doc', a, b, k, e.startR + 1, e.endL, d, strict); }
  }

  /** Inside a laid-out list every element is in place, and so are its children. */
  lemma {:induction false} LaidAt(doc: string, a: seq<ElemPos>, f: Forest, t: nat, up: Path, lo: int, hi: int,
                                  strict: bool)
    requires Laid(doc, a, f, lo, hi, strict) && t in Ids(f)
    ensures t < |a| && lo <= a[t].startL && a[t].endR < hi && ElemOk(doc, a[t], strict)
    ensures var k := Find(f, t, up).0;
      if a[t].IsEmptyElement() then k == Nil else Laid(doc, a, k, a[t].startR + 1, a[t].endL, strict)
  {
    hide TagsOk;
    if t == f.elem {
    } else if t in Ids(f.kids) {
      LaidAt(doc, a, f.kids, t, Inside(f.elem, f.rest, up), a[f.elem].startR + 1, a[f.elem].endL, strict);
    } else {
      LaidAt(doc, a, f.rest, t, up, a[f.elem].endR + 1, hi, strict);
    }
  }

  lemma ElemAround(doc: string, doc': string, e: ElemPos, e': ElemPos, x: int, y: int, n: int, strict: bool)
    requires ElemOk(doc, e, strict) && !e.IsEmptyElement() && e.startR < x && y <= e.endL && MovedBy(e, e', 0, n)
    requires SameText(doc, doc', 0, x, 0) && SameText(doc, doc', y, |doc|, n) && x <= y + n
    ensures ElemOk(doc', e', strict)
  {
    hide TagsOk;
    Slice(doc, doc', 0, x, 0, e.startL, e.startR + 1);
    Slice(doc, doc', y, |doc|, n, e.endL, e.endR + 1);
  }

  /**
   Of the slots in `ids`, those in `both` moved by `n`, those in `ends` moved their end tags by `n`, the rest stayed.
   */
  ghost predicate Repaired(a: seq<ElemPos>, b: seq<ElemPos>, ids: set<nat>, both: set<nat>, ends: set<nat>, n: int) {
    forall j :: j in ids ==> j < |a| && j < |b| &&
                             MovedBy(a[j], b[j], if j in both then n else 0, if j in both || j in ends then n else 0)
  }

  /** Outside element `t` the text is the same; `t` and its new children `k` are in place. */
  ghost predicate EditedInside(doc: string, doc': string, a: seq<ElemPos>, b: seq<ElemPos>, t: nat, k: Forest, n: int,
                               strict: bool) {
    t < |a| && SameText(doc, doc', 0, a[t].startL, 0) && SameText(doc, doc', a[t].endR + 1, |doc|, n) &&
    t < |b| && ElemOk(doc', b[t], strict) && b[t].startL == a[t].startL && b[t].endR == a[t].endR + n &&
    if b[t].IsEmptyElement() then k == Nil else Laid(doc', b, k, b[t].startR + 1, b[t].endL, strict)
  }

  /** The step of `LaidAround` when `t` is inside the first element of the list. */
  lemma AroundWithin(doc: string, doc': string, a: seq<ElemPos>, b: seq<ElemPos>, f: Forest, t: nat, k: Forest,
                     k': Forest, lo: int, hi: int, n: int, strict: bool)
    requires f.Cons? && t in Ids(f.kids) && Laid(doc, a, f, lo, hi, strict) &&
             EditedInside(doc, doc', a, b, t, k, n, strict)
    requires Moved(a, b, {f.elem}, 0, n) && Moved(a, b, Ids(f.rest), n, n)
    requires Laid(doc', b, k', a[f.elem].startR + 1, a[f.elem].endL + n, strict)
    ensures Laid(doc', b, f.(kids := k'), lo, hi + n, strict)
  {
    hide TagsOk;
    var e := a[f.elem];
    LaidAt(doc, a, f.kids, t, Top, e.startR + 1, e.endL, strict);
    assert MovedBy(e, b[f.elem], 0, n);
    ElemAround(doc, doc', e, b[f.elem], a[t].startL, a[t].endR + 1, n, strict);
    LaidMoved(doc, doc', a, b, f.rest, e.endR + 1, hi, n, strict);
  }

  lemma ElemBounds(doc: string, e: ElemPos, strict: bool)
    requires ElemOk(doc, e, strict)
    ensures 0 <= e.startL < e.startR <= e.endR < |doc| && e.endL <= e.endR &&
            (!e.IsEmptyElement() ==> e.startR < e.endL)
  {
    hide TagsOk;
  }

  /** The step of `LaidAround` when `t` is among the following siblings of the first element. */
  lemma AroundBeyond(doc: string, doc': string, a: seq<ElemPos>, b: seq<ElemPos>, f: Forest, t: nat, k: Forest,
                     r': Forest, lo: int, hi: int, n: int, strict: bool)
    requires f.Cons? && t in Ids(f.rest) && Laid(doc, a, f, lo, hi, strict) &&
             EditedInside(doc, doc', a, b, t, k, n, strict)
    requires Moved(a, b, {f.elem} + Ids(f.kids), 0, 0) && Laid(doc', b, r', a[f.elem].endR + 1, hi + n, strict)
    ensures Laid(doc', b, f.(rest := r'), lo, hi + n, strict)
  {
    hide ElemOk, SameText;
    var e := a[f.elem];
    LaidAt(doc, a, f.rest, t, Top, e.endR + 1, hi, strict);
    ElemBounds(doc, e, strict);
    ElemMoved(doc, doc', e, b[f.elem], 0, a[t].startL, 0, strict);
    if !e.IsEmptyElement() {
      TextPart(doc, doc', 0, a[t].startL, 0, e.startR + 1, e.endL);
      LaidMoved(doc, doc', a, b, f.kids, e.startR + 1, e.endL, 0, strict);
    }
  }

  ghost predicate RepairedBut(a: seq<ElemPos>, b: seq<ElemPos>, f: Forest, t: nat, up: Path, n: int)
    requires t in Ids(f)
  {
    var (k, r, p) := Find(f, t, up);
    Repaired(a, b, Ids(f) - Ids(k) - {t}, Ids(r) + PathAfter(p), PathAnc(p), n)
  }

  lemma RepairedWithin(a: seq<ElemPos>, b: seq<ElemPos>, f: Forest, t: nat, up: Path, n: int)
    requires t in Ids(f) && UniqIn(f, up) && RepairedBut(a, b, f, t, up, n) && t != f.elem && t in Ids(f.kids)
    ensures RepairedBut(a, b, f.kids, t, Inside(f.elem, f.rest, up), n) && UniqIn(f.kids, Inside(f.elem, f.rest, up))
    ensures Moved(a, b, {f.elem}, 0, n) && Moved(a, b, Ids(f.rest), n, n)
  {
    FindUniq(f, t, up);
    FindUniq(f.kids, t, Inside(f.elem, f.rest, up));
    PathDisjoint(Find(f, t, up).2);
  }

  lemma RepairedBeyond(a: seq<ElemPos>, b: seq<ElemPos>, f: Forest, t: nat, up: Path, n: int)
    requires t in Ids(f) && UniqIn(f, up) && RepairedBut(a, b, f, t, up, n) && t != f.elem && t !in Ids(f.kids)
    ensures RepairedBut(a, b, f.rest, t, up, n) && UniqIn(f.rest, up) && Moved(a, b, {f.elem} + Ids(f.kids), 0, 0)
  {
    FindUniq(f.rest, t, up);
  }

  lemma AroundHere(doc: string, doc': string, a: seq<ElemPos>, b: seq<ElemPos>, f: Forest, k': Forest, up: Path,
                   lo: int, hi: int, n: int, strict: bool)
    requires f.Cons? && UniqIn(f, up) && Laid(doc, a, f, lo, hi, strict)
    requires RepairedBut(a, b, f, f.elem, up, n) && EditedInside(doc, doc', a, b, f.elem, k', n, strict)
    ensures Laid(doc', b, f.(kids := k'), lo, hi + n, strict)
  {
    hide TagsOk;
    assert Moved(a, b, Ids(f.rest), n, n);
    LaidMoved(doc, doc', a, b, f.rest, a[f.elem].endR + 1, hi, n, strict);
  }

  /**
   An edit strictly inside element `t`, whose new record and new children are in place, leaves
   the whole list in place once the offsets ahead of and around `t` have been repaired.
   */
  lemma {:induction false} LaidAround(doc: string, doc': string, a: seq<ElemPos>, b: seq<ElemPos>, f: Forest, t: nat,
                                      k': Forest, up: Path, lo: int, hi: int, n: int, strict: bool)
    requires t in Ids(f) && UniqIn(f, up) && Laid(doc, a, f, lo, hi, strict)
    requires RepairedBut(a, b, f, t, up, n) && EditedInside(doc, doc', a, b, t, k', n, strict)
    ensures Laid(doc', b, ReplaceKids(f, t, k'), lo, hi + n, strict)
  {
    hide UniqIn, RepairedBut, EditedInside, Moved, ElemOk;
    if t == f.elem {
      AroundHere(doc, doc', a, b, f, k', up, lo, hi, n, strict);
    } else if t in Ids(f.kids) {
      RepairedWithin(a, b, f, t, up, n);
      LaidAround(doc, doc', a, b, f.kids, t, k', Inside(f.elem, f.rest, up), a[f.elem].startR + 1, a[f.elem].endL, n,
                 strict);
      AroundWithin(doc, doc', a, b, f, t, k', ReplaceKids(f.kids, t, k'), lo, hi, n, strict);
    } else {
      RepairedBeyond(a, b, f, t, up, n);
      LaidAround(doc, doc', a, b, f.rest, t, k', up, a[f.elem].endR + 1, hi, n, strict);
      AroundBeyond(doc, doc', a, b, f, t, k', ReplaceKids(f.rest, t, k'), lo, hi, n, strict);
    }
  }
}
