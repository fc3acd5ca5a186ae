/** The invariant of a CMarkupSTL document, and what each kind of edit must establish to keep it. */
module MarkupState {
  import opened MarkupArena
  import opened MarkupLayout
  import opened MarkupEdits
  import opened MarkupTags

  /** Links spell out `f`, all of it below the free mark, and its offsets agree with the text. */
  ghost predicate Sound(doc: string, a: seq<ElemPos>, free: nat, f: Forest, strict: bool) {
    2 <= |a| && 1 <= free <= |a| && a[0].startL == 0 && a[0].startR == 0 &&
    UniqIn(f, Top) && (forall j :: j in Ids(f) ==> j < free) &&
    Linked(a, f, a[0].child, 0) && Laid(doc, a, f, 0, |doc|, strict)
  }

  lemma SoundEmpty(doc: string, a: seq<ElemPos>)
    requires 2 <= |a| && a[0] == CLEARED
    ensures Sound(doc, a, 1, Nil, true)
  {
  }

  /** doc with `r` characters at `p` replaced: x_DocChange. */
  function DocChange(doc: string, p: nat, r: nat, ins: string): string
    requires p + r <= |doc|
  {
    doc[..p] + ins + doc[p + r..]
  }

  lemma DocChanged(doc: string, p: nat, r: nat, ins: string)
    requires p + r <= |doc|
    ensures var doc' := DocChange(doc, p, r, ins); var n := |ins| - r;
      |doc'| == |doc| + n && SameText(doc, doc', 0, p, 0) && SameText(doc, doc', p + r, |doc|, n) &&
      doc'[p..p + |ins|] == ins
  {
  }

  ghost predicate SameOffsets(a: seq<ElemPos>, b: seq<ElemPos>, ids: set<nat>) {
    Moved(a, b, ids, 0, 0)
  }

  /** The shift of x_Adjust repairs everything outside element `t`. */
  lemma ShiftRepaired(a: seq<ElemPos>, b: seq<ElemPos>, f: Forest, t: nat, n: int, inner: set<nat>, self: set<nat>)
    requires t in Ids(f) && UniqIn(f, Top) && inner <= Ids(Find(f, t, Top).0) && self <= {t}
    requires SameOffsets(a, b, Ids(f) - Ids(Find(f, t, Top).0) - {t})
    ensures var (k, r, p) := Find(f, t, Top);
      RepairedBut(a, Shift(b, inner + Ids(r) + PathAfter(p), self + PathAnc(p), n), f, t, Top, n)
  {
  }

  /** An edit inside element `t` that gives it the children `k'`. */
  lemma SoundInside(doc: string, doc': string, a: seq<ElemPos>, b: seq<ElemPos>, free: nat, free': nat, f: Forest,
                    t: nat, k': Forest, n: int, strict: bool)
    requires Sound(doc, a, free, f, strict) && t in Ids(f) && |doc'| == |doc| + n
    requires EditedInside(doc, doc', a, b, t, k', n, strict) && RepairedBut(a, b, f, t, Top, n)
    requires Uniq(k') && (Ids(f) - Ids(Find(f, t, Top).0)) !! Ids(k') && 0 !in Ids(k')
    requires free <= free' <= |b| && forall j :: j in Ids(k') ==> j < free'
    requires LinksKept(a, b, Ids(f) - Ids(Find(f, t, Top).0) - {t}, {t}) && t < |b| && Linked(b, k', b[t].child, t)
    requires b[0].child == a[0].child && b[0].startL == 0 && b[0].startR == 0
    ensures Sound(doc', b, free', ReplaceKids(f, t, k'), strict)
  {
    hide EditedInside, RepairedBut, Laid, Linked;
    LaidAround(doc, doc', a, b, f, t, k', Top, 0, |doc|, n, strict);
    ReplaceKidsIds(f, t, k', Top);
    ReplaceKidsUniq(f, t, k', Top);
    ReplaceKidsLinked(a, b, f, t, k', a[0].child, Top);
  }

  lemma {:induction false} ReplaceOwnKids(f: Forest, t: nat, up: Path)
    requires t in Ids(f)
    ensures ReplaceKids(f, t, Find(f, t, up).0) == f
  {
    if t == f.elem {
    } else if t in Ids(f.kids) {
      ReplaceOwnKids(f.kids, t, Inside(f.elem, f.rest, up));
    } else {
      ReplaceOwnKids(f.rest, t, up);
    }
  }

  lemma SoundAt(doc: string, a: seq<ElemPos>, free: nat, f: Forest, t: nat, strict: bool)
    requires Sound(doc, a, free, f, strict) && t in Ids(f)
    ensures 0 < t < free && ElemOk(doc, a[t], strict)
    ensures var (k, r, p) := Find(f, t, Top);
      Cursor(a, t, true, k, r, p) && Ids(k) <= Ids(f) &&
      if a[t].IsEmptyElement() then k == Nil else Laid(doc, a, k, a[t].startR + 1, a[t].endL, strict)
  {
    hide Laid;
    FindLinked(a, f, t, a[0].child, Top);
    FindUniq(f, t, Top);
    LaidAt(doc, a, f, t, Top, 0, |doc|, strict);
  }

  /** Slot 0 and the links are those of the arena before the shift. */
  lemma ShiftLinks(a: seq<ElemPos>, both: set<nat>, ends: set<nat>, n: int)
    requires 0 !in both && 0 < |a|
    ensures var b := Shift(a, both, ends, n);
      SameLinks(a, b) && b[0].startL == a[0].startL && b[0].startR == a[0].startR
  {
  }

  /** Element `t`, kept by the arena's links with the children it has, gets the record `e`; then offsets are shifted. */
  lemma SoundRecord(doc: string, doc': string, a: seq<ElemPos>, free: nat, f: Forest, t: nat, e: ElemPos,
                    b: seq<ElemPos>, n: int, strict: bool)
    requires Sound(doc, a, free, f, strict) && t in Ids(f) && |doc'| == |doc| + n && t < |a|
    requires SameLinks(a, b) && b[0].startL == 0 && b[0].startR == 0 && b[t] == e
    requires RepairedBut(a, b, f, t, Top, n) && EditedInside(doc, doc', a, b, t, Find(f, t, Top).0, n, strict)
    ensures Sound(doc', b, free, f, strict)
  {
    var (k, r, p) := Find(f, t, Top);
    SoundAt(doc, a, free, f, t, strict);
    hide EditedInside, RepairedBut, Laid;
    ReplaceOwnKids(f, t, Top);
    LinkedKept(a, b, k, a[t].child, t);
    SoundInside(doc, doc', a, b, free, free, f, t, k, n, strict);
  }

  /** The record of an element whose start tag is replaced by `s`. */
  function Retagged(e: ElemPos, n: int): ElemPos {
    e.(startR := e.startR + n).AdjustEnd(n)
  }

  lemma RetaggedOk(doc: string, doc': string, e: ElemPos, s: string, n: int, strict: bool)
    requires ElemOk(doc, e, strict) && n == |s| - (e.startR + 1 - e.startL)
    requires doc' == DocChange(doc, e.startL, e.startR + 1 - e.startL, s)
    requires TagFor(s, e.IsEmptyElement(), strict) && TagName(s) == TagName(StartTag(doc, e))
    ensures ElemOk(doc', Retagged(e, n), strict) && StartTag(doc', Retagged(e, n)) == s
  {
    hide StartTagOk, EndTagOk, TagName, DocChange, SameText;
    var e' := Retagged(e, n);
    DocChanged(doc, e.startL, e.startR + 1 - e.startL, s);
    SliceIs(doc', e.startL, s);
    if e.IsEmptyElement() {
      LastIsGt(s, strict);
      assert EndTag(doc', e') == "/>";
    } else {
      Slice(doc, doc', e.startR + 1, |doc|, n, e.endL, e.endR + 1);
    }
  }

  /** A text that is found at `x`, character by character. */
  lemma SliceIs(doc: string, x: nat, s: string)
    requires x + |s| <= |doc| && doc[x..x + |s|] == s
    ensures forall k :: x <= k < x + |s| ==> doc[k] == s[k - x]
  {
    forall k | x <= k < x + |s|
      ensures doc[k] == s[k - x]
    {
      assert doc[k] == doc[x..x + |s|][k - x];
    }
  }

  lemma LastIsGt(s: string, strict: bool)
    requires StartTagOk(s, strict)
    ensures s[|s| - 1] == '>'
  {
  }

  /** The arena after element `t` has got the record `e` and x_Adjust has run from `t`. */
  lemma RecordShift(doc: string, a: seq<ElemPos>, b: seq<ElemPos>, free: nat, f: Forest, t: nat, e: ElemPos, k: Forest,
                    r: Forest, p: Path, n: int, strict: bool)
    requires Sound(doc, a, free, f, strict) && t in Ids(f) && t < |a| && Find(f, t, Top) == (k, r, p)
    requires e.parent == a[t].parent && e.child == a[t].child && e.next == a[t].next
    requires b == Shift(a[t := e], Ahead(k, r, p), PathAnc(p), n)
    ensures |b| == |a| && b[t] == e && RepairedBut(a, b, f, t, Top, n) && SameLinks(a, b) && Moved(a, b, Ids(k), n, n)
    ensures b[0].startL == 0 && b[0].startR == 0
  {
    hide *;
    SoundFresh(doc, a, free, f, strict);
    var a1 := a[t := e];
    var both, ends := Ahead(k, r, p), PathAnc(p);
    RecordSets(f, t, k, r, p);
    RecordOffsets(doc, a, free, f, t, e, strict);
    SomeOffsets(a, a1, Ids(f) - {t}, Ids(f) - Ids(k) - {t});
    SomeOffsets(a, a1, Ids(f) - {t}, Ids(k));
    ShiftRepaired(a, a1, f, t, n, Ids(k), {});
    ShiftLinks(a1, both, ends, n);
    ShiftOne(a1, both, ends, n, t);
    ShiftMoved(a, a1, both, ends, n, Ids(k), n);
    SameLinksVia(a, a1, b, t);
  }

  lemma RecordSets(f: Forest, t: nat, k: Forest, r: Forest, p: Path)
    requires UniqIn(f, Top) && t in Ids(f) && Find(f, t, Top) == (k, r, p)
    ensures var both, ends := Ahead(k, r, p), PathAnc(p);
      both == Ids(k) + Ids(r) + PathAfter(p) && ends == {} + PathAnc(p) && t !in both && t !in ends && 0 !in both &&
      Ids(k) <= Ids(f) - {t} && Ids(k) <= both
  {
    hide Find, UniqIn, Ids, Uniq, PathAfter, PathAnc, UniqPath;
    FindUniq(f, t, Top);
    UniqAtFacts(t, k, r, p);
  }

  lemma UniqAtFacts(t: nat, k: Forest, r: Forest, p: Path)
    requires UniqAt(t, k, r, p)
    ensures t !in Ids(k) && t !in Ids(r) && t !in PathAfter(p) && t !in PathAnc(p) && 0 !in Ids(k) && 0 !in Ids(r) &&
            0 !in PathAfter(p)
  {
    PathDisjoint(p);
    ZeroAbove(p);
  }

  lemma {:induction false} ZeroAbove(p: Path)
    ensures 0 in PathAnc(p)
  {
    if p.Inside? { ZeroAbove(p.up); }
  }

  lemma RecordOffsets(doc: string, a: seq<ElemPos>, free: nat, f: Forest, t: nat, e: ElemPos, strict: bool)
    requires Sound(doc, a, free, f, strict) && 0 < t < |a|
    ensures SameOffsets(a, a[t := e], Ids(f) - {t}) && a[t := e][0].startL == 0 && a[t := e][0].startR == 0
  {
    hide Laid, Linked;
  }

  lemma SameLinksVia(a: seq<ElemPos>, a1: seq<ElemPos>, b: seq<ElemPos>, t: nat)
    requires t < |a| && |a1| == |a| && a1 == a[t := a1[t]] && SameLinks(a1, b)
    requires a1[t].parent == a[t].parent && a1[t].child == a[t].child && a1[t].next == a[t].next
    ensures SameLinks(a, b)
  {
  }

  /** x_SetAttrib: the start tag of `t` becomes `s`, its record follows, and x_Adjust shifts the rest. */
  lemma SoundStartTag(doc: string, doc': string, a: seq<ElemPos>, b: seq<ElemPos>, free: nat, f: Forest, t: nat,
                      s: string, k: Forest, r: Forest, p: Path, n: int, strict: bool)
    requires Sound(doc, a, free, f, strict) && t in Ids(f) && t < |a| && Find(f, t, Top) == (k, r, p)
    requires ElemOk(doc, a[t], strict) && n == |s| - (a[t].startR + 1 - a[t].startL)
    requires doc' == DocChange(doc, a[t].startL, a[t].startR + 1 - a[t].startL, s)
    requires TagFor(s, a[t].IsEmptyElement(), strict) && TagName(s) == TagName(StartTag(doc, a[t]))
    requires b == Shift(a[t := Retagged(a[t], n)], Ahead(k, r, p), PathAnc(p), n)
    ensures Sound(doc', b, free, f, strict)
  {
    hide Laid, Linked, TagsOk, TagFor, DocChange, Cursor, RepairedBut, Moved, Sound, UniqIn, Ahead, Shift, SameLinks;
    var e := a[t];
    SoundAt(doc, a, free, f, t, strict);
    RecordShift(doc, a, b, free, f, t, Retagged(e, n), k, r, p, n, strict);
    RetaggedOk(doc, doc', e, s, n, strict);
    DocChanged(doc, e.startL, e.startR + 1 - e.startL, s);
    if !e.IsEmptyElement() {
      LaidMoved(doc, doc', a, b, k, e.startR + 1, e.endL, n, strict);
    }
    SoundRecord(doc, doc', a, free, f, t, b[t], b, n, strict);
  }

  /** x_SetData on an element with tags of its own: everything between them is replaced. */
  lemma SoundContent(doc: string, doc': string, a: seq<ElemPos>, b: seq<ElemPos>, free: nat, f: Forest, t: nat,
                     ins: string, r: Forest, p: Path, n: int, strict: bool)
    requires Sound(doc, a, free, f, strict) && t in Ids(f) && t < |a| && Find(f, t, Top) == (Nil, r, p)
    requires ElemOk(doc, a[t], strict) && !a[t].IsEmptyElement() && n == |ins| - (a[t].endL - a[t].startR - 1)
    requires doc' == DocChange(doc, a[t].startR + 1, a[t].endL - a[t].startR - 1, ins)
    requires b == Shift(a[t := a[t].AdjustEnd(n)], Ahead(Nil, r, p), PathAnc(p), n)
    ensures Sound(doc', b, free, f, strict)
  {
    hide Laid, Linked, TagsOk, DocChange, Cursor, RepairedBut, Moved, Sound, UniqIn, Ahead, Shift, SameLinks;
    var e := a[t];
    RecordShift(doc, a, b, free, f, t, e.AdjustEnd(n), Nil, r, p, n, strict);
    DocChanged(doc, e.startR + 1, e.endL - e.startR - 1, ins);
    ElemAround(doc, doc', e, b[t], e.startR + 1, e.endL, n, strict);
    LaidNothing(doc', b, b[t].startR + 1, b[t].endL, strict);
    SoundRecord(doc, doc', a, free, f, t, b[t], b, n, strict);
  }

  lemma LaidNothing(doc: string, a: seq<ElemPos>, lo: int, hi: int, strict: bool)
    requires 0 <= lo <= hi <= |doc|
    ensures Laid(doc, a, Nil, lo, hi, strict)
  {
  }

  /** `<NAME/>` becomes `<NAME>` text `</NAME>`: what replaces the slash, and the new record. */
  function OpenedBy(name: string, text: string): string { ">" + text + "</" + name }

  function Opened(e: ElemPos, name: string, text: string): ElemPos {
    e.(startR := e.startR - 1, endL := e.endL + 1 + |text|, endR := e.endR + |text| + 2 + |name|)
  }

  lemma OpenedStart(doc: string, doc': string, x: nat, y: nat)
    requires SameText(doc, doc', 0, y, 0) && x <= y < |doc'| && y + 2 <= |doc| && doc'[y] == '>'
    ensures doc'[x..y + 1] == doc[x..y + 2][..y - x] + ">"
  {
    Slice(doc, doc', 0, y, 0, x, y);
    assert doc[x..y + 2][..y - x] == doc[x..y];
  }

  lemma OpenedEnd(doc': string, x: nat, y: nat, ins: string, name: string, text: string)
    requires x + |ins| <= |doc'| && doc'[x..x + |ins|] == ins && ins == OpenedBy(name, text)
    requires y == x + |ins| < |doc'| && doc'[y] == '>'
    ensures doc'[x + 1 + |text|..y + 1] == "</" + name + ">" && doc'[x] == '>'
  {
    var u := doc'[x + 1 + |text|..y + 1];
    assert doc'[x] == doc'[x..x + |ins|][0];
    forall i | 0 <= i < |name| + 2
      ensures u[i] == ("</" + name + ">")[i]
    {
      assert u[i] == doc'[x..x + |ins|][1 + |text| + i] == ins[1 + |text| + i];
    }
  }

  lemma OpenedText(doc: string, doc': string, e: ElemPos, name: string, text: string)
    requires Bounded(doc, e) && e.IsEmptyElement() && doc' == DocChange(doc, e.endL, 1, OpenedBy(name, text)) &&
             doc[e.endR] == '>'
    requires e.startL + 3 <= e.startR
    ensures var e' := Opened(e, name, text);
      Bounded(doc', e') && StartTag(doc', e') == StartTag(doc, e)[..e.startR - e.startL - 1] + ">" &&
      EndTag(doc', e') == "</" + name + ">"
  {
    hide DocChange;
    var ins := OpenedBy(name, text);
    DocChanged(doc, e.endL, 1, ins);
    assert doc'[e.endR + |ins| - 1] == doc[e.endR];
    OpenedEnd(doc', e.endL, e.endL + |ins|, ins, name, text);
    OpenedStart(doc, doc', e.startL, e.endL);
  }

  lemma EmptyElem(doc: string, e: ElemPos, strict: bool)
    requires ElemOk(doc, e, strict) && e.IsEmptyElement()
    ensures doc[e.endR] == '>' && e.startL + 3 <= e.startR && TagFor(StartTag(doc, e), true, strict)
  {
    var tag := StartTag(doc, e);
    assert EndTag(doc, e)[1] == doc[e.endR] && EndTag(doc, e)[0] == doc[e.endL] == tag[|tag| - 2];
    NameBefore(tag, true, strict);
  }

  lemma OpenedOk(doc: string, doc': string, e: ElemPos, name: string, text: string, strict: bool)
    requires ElemOk(doc, e, strict) && e.IsEmptyElement() && name == TagName(StartTag(doc, e))
    requires doc' == DocChange(doc, e.endL, 1, OpenedBy(name, text))
    ensures ElemOk(doc', Opened(e, name, text), strict)
  {
    hide StartTagOk, EndTagOk, TagName, DocChange, OpenedBy, IsWord;
    EmptyElem(doc, e, strict);
    OpenedText(doc, doc', e, name, text);
    OpenedTag(StartTag(doc, e), strict);
    EndTagWritten(name);
  }

  lemma SoundOpened(doc: string, doc': string, a: seq<ElemPos>, b: seq<ElemPos>, free: nat, f: Forest, t: nat,
                    name: string, text: string, r: Forest, p: Path, n: int, strict: bool)
    requires Sound(doc, a, free, f, strict) && t in Ids(f) && t < |a| && Find(f, t, Top) == (Nil, r, p)
    requires ElemOk(doc, a[t], strict) && a[t].IsEmptyElement() && name == TagName(StartTag(doc, a[t]))
    requires doc' == DocChange(doc, a[t].endL, 1, OpenedBy(name, text)) && n == |text| + 2 + |name|
    requires b == Shift(a[t := Opened(a[t], name, text)], Ahead(Nil, r, p), PathAnc(p), n)
    ensures Sound(doc', b, free, f, strict)
  {
    hide Laid, Linked, TagsOk, DocChange, Cursor, RepairedBut, Moved, Sound, UniqIn, Ahead, Shift, SameLinks;
    var e := a[t];
    RecordShift(doc, a, b, free, f, t, Opened(e, name, text), Nil, r, p, n, strict);
    DocChanged(doc, e.endL, 1, OpenedBy(name, text));
    OpenedOk(doc, doc', e, name, text, strict);
    LaidNothing(doc', b, b[t].startR + 1, b[t].endL, strict);
    SoundRecord(doc, doc', a, free, f, t, b[t], b, n, strict);
  }

  lemma SoundFresh(doc: string, a: seq<ElemPos>, free: nat, f: Forest, strict: bool)
    requires Sound(doc, a, free, f, strict)
    ensures UniqIn(f, Top) && free !in Ids(f) && 0 < free <= |a| && forall j :: j in Ids(f) ==> 0 < j < free
  {
    hide Laid, Linked;
  }

  lemma InsertUniq(f: Forest, top: nat, before: nat, t: nat, k: Forest, r: Forest, p: Path)
    requires UniqIn(f, Top) && top in Ids(f) && Find(f, top, Top) == (k, r, p) && IsPlace(k, before) && t !in Ids(f) &&
             t != 0
    ensures UniqAt(t, Nil, Past(k, before), Inside(top, r, p)) && Ids(k) <= Ids(f)
  {
    FindUniq(f, top, Top);
    PlaceIds(k, before);
  }

  /** What x_Adjust starts from when element `t` has just been linked in below `top` after `before`. */
  lemma InsertCursor(doc: string, a: seq<ElemPos>, b: seq<ElemPos>, free: nat, f: Forest, top: nat, before: nat, t: nat,
                     k: Forest, r: Forest, p: Path, strict: bool)
    requires Sound(doc, a, free, f, strict) && top in Ids(f) && Find(f, top, Top) == (k, r, p) && IsPlace(k, before)
    requires LinkedIn(a, b, top, before, t) && t == free
    ensures Cursor(b, t, true, Nil, Past(k, before), Inside(top, r, p)) &&
            Linked(b, Insert(k, before, t), b[top].child, top)
    ensures Uniq(Insert(k, before, t)) && Ids(Insert(k, before, t)) == Ids(k) + {t}
  {
    hide Laid, Sound, Insert, UniqIn, Past, TopIds, Uniq;
    SoundFresh(doc, a, free, f, strict);
    SoundAt(doc, a, free, f, top, strict);
    InsertUniq(f, top, before, t, k, r, p);
    InsertPast(a, b, k, top, before, t);
    InsertLinked(a, b, k, top, before, t);
    InsertIds(k, before, t);
    KeptAbove(a, b, f, top, before, t, k, r, p);
  }

  lemma KeptAbove(a: seq<ElemPos>, b: seq<ElemPos>, f: Forest, top: nat, before: nat, t: nat, k: Forest, r: Forest,
                  p: Path)
    requires UniqIn(f, Top) && top in Ids(f) && Find(f, top, Top) == (k, r, p) && Cursor(a, top, true, k, r, p)
    requires IsPlace(k, before) && LinkedIn(a, b, top, before, t) && t !in Ids(f) && t != 0
    ensures PathLinked(b, Inside(top, r, p))
  {
    hide Past, Upto, TopIds, Find;
    FindUniq(f, top, Top);
    PlaceIds(k, before);
    CursorKept(a, b, top, false, Nil, r, p);
  }

  /** The slots below an element, around it and behind it are different. */
  lemma UniqBelow(f: Forest, t: nat, k: Forest, r: Forest, p: Path)
    requires UniqIn(f, Top) && t in Ids(f) && Find(f, t, Top) == (k, r, p)
    ensures Uniq(k) && t != 0 && t !in Ids(k) && t !in Ids(r) + PathAfter(p) && 0 !in Ids(k) + Ids(r) + PathAfter(p)
    ensures Ids(k) !! Ids(r) && Ids(k) !! PathAfter(p) && Ids(k) !! PathAnc(p)
    ensures Ids(k) <= Ids(f) && Ids(r) + PathAfter(p) <= Ids(f) && PathAnc(p) <= Ids(f) + {0}
  {
    hide Find, Uniq, Ids;
    FindUniq(f, t, Top);
  }

  lemma AheadInside(g: Forest, t: nat, r: Forest, p: Path)
    ensures Ahead(Nil, g, Inside(t, r, p)) == Ids(g) + Ids(r) + PathAfter(p) &&
            PathAnc(Inside(t, r, p)) == {t} + PathAnc(p)
    ensures g.Cons? ==> g.elem in Ids(g) && Ids(g.rest) <= Ids(g)
  {
  }

  lemma InsertSets(f: Forest, top: nat, before: nat, t: nat, k: Forest, r: Forest, p: Path)
    requires UniqIn(f, Top) && top in Ids(f) && Find(f, top, Top) == (k, r, p) && IsPlace(k, before) && t !in Ids(f) &&
             t != 0
    ensures var both, ends := Ahead(Nil, Past(k, before), Inside(top, r, p)), PathAnc(Inside(top, r, p));
      both == Ids(Past(k, before)) + Ids(r) + PathAfter(p) && ends == {top} + PathAnc(p) &&
      t !in both && t !in ends && top !in both && 0 !in both && Ids(Upto(k, before)) !! both + ends &&
      Ids(Past(k, before)) <= Ids(k) &&
      Ids(Upto(k, before)) + Ids(Past(k, before)) <= Ids(f) - {top}
  {
    hide Past, Upto, TopIds, Find, UniqIn, UniqAt, Ids, Uniq, Ahead, PathAnc, PathAfter;
    UniqBelow(f, top, k, r, p);
    PlaceIds(k, before);
    AheadInside(Past(k, before), top, r, p);
  }

  lemma ShiftOne(a: seq<ElemPos>, both: set<nat>, ends: set<nat>, n: int, j: nat)
    requires j < |a|
    ensures |Shift(a, both, ends, n)| == |a|
    ensures j !in both && j !in ends ==> Shift(a, both, ends, n)[j] == a[j]
    ensures j !in both && j in ends ==> Shift(a, both, ends, n)[j] == a[j].AdjustEnd(n)
  {
  }

  lemma ShiftMoved(a: seq<ElemPos>, a2: seq<ElemPos>, both: set<nat>, ends: set<nat>, n: int, ids: set<nat>, d: int)
    requires SameOffsets(a, a2, ids) && ((d == 0 && ids !! both + ends) || (d == n && ids <= both))
    ensures Moved(a, Shift(a2, both, ends, n), ids, d, d)
  {
  }

  lemma SomeOffsets(a: seq<ElemPos>, b: seq<ElemPos>, ids: set<nat>, some: set<nat>)
    requires SameOffsets(a, b, ids) && some <= ids
    ensures SameOffsets(a, b, some)
  {
  }

  /** The arena after `t` has been linked in below `top` and x_Adjust has run from `t`. */
  lemma InsertShift(doc: string, a: seq<ElemPos>, a2: seq<ElemPos>, b: seq<ElemPos>, free: nat, f: Forest, top: nat,
                    before: nat, t: nat, k: Forest, r: Forest, p: Path, n: int, strict: bool)
    requires Sound(doc, a, free, f, strict) && top in Ids(f) && Find(f, top, Top) == (k, r, p) && IsPlace(k, before)
    requires LinkedIn(a, a2, top, before, t) && t == free && SameOffsets(a, a2, Ids(f) - {top})
    requires a2[0].startL == 0 && a2[0].startR == 0
    requires b == Shift(a2, Ahead(Nil, Past(k, before), Inside(top, r, p)), PathAnc(Inside(top, r, p)), n)
    ensures |b| == |a2| && b[t] == a2[t] && b[top] == a2[top].AdjustEnd(n) && SameLinks(a2, b) && b[0].startL == 0 &&
            b[0].startR == 0
    ensures Moved(a, b, Ids(Upto(k, before)), 0, 0) && Moved(a, b, Ids(Past(k, before)), n, n)
    ensures RepairedBut(a, b, f, top, Top, n)
  {
    hide Sound, UniqIn, RepairedBut, Past, Upto, TopIds, SameLinks, Moved, SameOffsets, Ahead, PathAnc, Shift, Ids,
         PathAfter, Find;
    SoundFresh(doc, a, free, f, strict);
    InsertSets(f, top, before, t, k, r, p);
    var both, ends := Ahead(Nil, Past(k, before), Inside(top, r, p)), PathAnc(Inside(top, r, p));
    SomeOffsets(a, a2, Ids(f) - {top}, Ids(f) - Ids(k) - {top});
    SomeOffsets(a, a2, Ids(f) - {top}, Ids(Upto(k, before)));
    SomeOffsets(a, a2, Ids(f) - {top}, Ids(Past(k, before)));
    ShiftRepaired(a, a2, f, top, n, Ids(Past(k, before)), {top});
    ShiftLinks(a2, both, ends, n);
    ShiftOne(a2, both, ends, n, t);
    ShiftOne(a2, both, ends, n, top);
    ShiftMoved(a, a2, both, ends, n, Ids(Upto(k, before)), 0);
    ShiftMoved(a, a2, both, ends, n, Ids(Past(k, before)), n);
  }

  /** All that is left once `t` is linked in below `top`: that `top` and its new list of children are in place. */
  lemma SoundInserted(doc: string, doc': string, a: seq<ElemPos>, a2: seq<ElemPos>, b: seq<ElemPos>, free: nat,
                      f: Forest, top: nat, before: nat, t: nat, k: Forest, r: Forest, p: Path, n: int, strict: bool)
    requires Sound(doc, a, free, f, strict) && top in Ids(f) && Find(f, top, Top) == (k, r, p) && IsPlace(k, before)
    requires LinkedIn(a, a2, top, before, t) && t == free && |doc'| == |doc| + n
    requires SameLinks(a2, b) && b[0].startL == 0 && b[0].startR == 0 && RepairedBut(a, b, f, top, Top, n)
    requires EditedInside(doc, doc', a, b, top, Insert(k, before, t), n, strict)
    ensures Sound(doc', b, free + 1, ReplaceKids(f, top, Insert(k, before, t)), strict)
  {
    hide Sound, UniqIn, RepairedBut, Past, Upto, Insert, TopIds, EditedInside, Cursor, Find, Linked, Ids;
    SoundFresh(doc, a, free, f, strict);
    InsertUniq(f, top, before, t, k, r, p);
    InsertCursor(doc, a, a2, free, f, top, before, t, k, r, p, strict);
    LinkedSame(a2, b, Insert(k, before, t), b[top].child, top);
    InsertKept(a, a2, b, f, top, before, t, k, r, p);
    SoundInside(doc, doc', a, b, free, free + 1, f, top, Insert(k, before, t), n, strict);
  }

  lemma LinkedSame(a: seq<ElemPos>, b: seq<ElemPos>, f: Forest, head: nat, parent: nat)
    requires Linked(a, f, head, parent) && SameLinks(a, b)
    ensures Linked(b, f, head, parent)
  {
    hide Linked;
    LinkedKept(a, b, f, head, parent);
  }

  lemma InsertKept(a: seq<ElemPos>, a2: seq<ElemPos>, b: seq<ElemPos>, f: Forest, top: nat, before: nat, t: nat,
                   k: Forest, r: Forest, p: Path)
    requires UniqIn(f, Top) && top in Ids(f) && Find(f, top, Top) == (k, r, p) && IsPlace(k, before) && t !in Ids(f)
    requires LinkedIn(a, a2, top, before, t) && SameLinks(a2, b) && top != 0
    ensures LinksKept(a, b, Ids(f) - Ids(k) - {top}, {top}) && (t != 0 ==> b[0].child == a[0].child)
  {
    hide Upto, Past, TopIds, LinkedIn, SameLinks, LinksKept;
    FindUniq(f, top, Top);
    PlaceIds(k, before);
    KeptOn(a, a2, b, Ids(f) - Ids(k) - {top}, top, before, t);
  }

  lemma KeptOn(a: seq<ElemPos>, a2: seq<ElemPos>, b: seq<ElemPos>, ids: set<nat>, top: nat, before: nat, t: nat)
    requires LinkedIn(a, a2, top, before, t) && SameLinks(a2, b) && top != 0
    requires top !in ids && before !in ids && t !in ids && before != top
    ensures LinksKept(a, b, ids, {top}) && (t != 0 ==> b[0].child == a[0].child)
  {
  }

  /** x_AddElem below an element that has tags of its own. */
  lemma SoundInsert(doc: string, doc': string, a: seq<ElemPos>, a2: seq<ElemPos>, b: seq<ElemPos>, free: nat, f: Forest,
                    top: nat, before: nat, t: nat, k: Forest, r: Forest, p: Path, q: int, ins: string, strict: bool)
    requires Sound(doc, a, free, f, strict) && top in Ids(f) && Find(f, top, Top) == (k, r, p) && IsPlace(k, before)
    requires LinkedIn(a, a2, top, before, t) && t == free && SameOffsets(a, a2, Ids(f)) && a2[0].startL == 0 &&
             a2[0].startR == 0
    requires top < |a| && ElemOk(doc, a[top], strict) && !a[top].IsEmptyElement()
    requires Laid(doc, a, Upto(k, before), a[top].startR + 1, q, strict) &&
             Laid(doc, a, Past(k, before), q, a[top].endL, strict)
    requires a[top].startR < q <= a[top].endL && doc' == DocChange(doc, q, 0, ins)
    requires ElemOk(doc', a2[t], strict) && a2[t].startL == q && a2[t].endR < q + |ins|
    requires b == Shift(a2, Ahead(Nil, Past(k, before), Inside(top, r, p)), PathAnc(Inside(top, r, p)), |ins|)
    ensures Sound(doc', b, free + 1, ReplaceKids(f, top, Insert(k, before, t)), strict)
  {
    hide Sound, UniqIn, RepairedBut, Past, Upto, Insert, IsPlace, Find, Linked, Ids, ElemOk, DocChange, Laid, Ahead,
         PathAnc, Shift, SameOffsets, SameLinks, Moved, EditedInside;
    SomeOffsets(a, a2, Ids(f), Ids(f) - {top});
    InsertShift(doc, a, a2, b, free, f, top, before, t, k, r, p, |ins|, strict);
    OffsetsAt(a, a2, Ids(f), top);
    ElemBounds(doc, a[top], strict);
    InsertedAround(doc, doc', a, b, top, before, t, k, q, ins, strict);
    SoundInserted(doc, doc', a, a2, b, free, f, top, before, t, k, r, p, |ins|, strict);
  }

  /** The text around an element that gets a child, and its children. */
  lemma InsertedAround(doc: string, doc': string, a: seq<ElemPos>, b: seq<ElemPos>, top: nat, before: nat, t: nat,
                       k: Forest, q: int, ins: string, strict: bool)
    requires top < |a| && top < |b| && ElemOk(doc, a[top], strict) && !a[top].IsEmptyElement() &&
             MovedBy(a[top], b[top], 0, |ins|)
    requires Laid(doc, a, Upto(k, before), a[top].startR + 1, q, strict) &&
             Laid(doc, a, Past(k, before), q, a[top].endL, strict)
    requires a[top].startR < q <= a[top].endL && q <= |doc| && doc' == DocChange(doc, q, 0, ins)
    requires Moved(a, b, Ids(Upto(k, before)), 0, 0) && Moved(a, b, Ids(Past(k, before)), |ins|, |ins|)
    requires t < |b| && ElemOk(doc', b[t], strict) && b[t].startL == q && b[t].endR < q + |ins|
    ensures |doc'| == |doc| + |ins| && EditedInside(doc, doc', a, b, top, Insert(k, before, t), |ins|, strict)
  {
    hide Past, Upto, Insert, IsPlace, Ids, TagsOk, DocChange, Laid, Moved, SameText;
    var n, e := |ins|, a[top];
    DocChanged(doc, q, 0, ins);
    ElemAround(doc, doc', e, b[top], q, q, n, strict);
    TextPart(doc, doc', 0, q, 0, 0, e.startL);
    TextPart(doc, doc', q, |doc|, n, e.endR + 1, |doc|);
    InsertLaid(doc, doc', a, b, k, before, t, e.startR + 1, q, e.endL, n, strict);
  }

  lemma OffsetsAt(a: seq<ElemPos>, b: seq<ElemPos>, ids: set<nat>, j: nat)
    requires SameOffsets(a, b, ids) && j in ids
    ensures j < |a| && j < |b| && MovedBy(a[j], b[j], 0, 0)
  {
  }

  /** x_AddElem below an empty element, which is split into two tags. */
  lemma SoundInsertOpened(doc: string, doc': string, a: seq<ElemPos>, a2: seq<ElemPos>, b: seq<ElemPos>, free: nat,
                          f: Forest, top: nat, t: nat, r: Forest, p: Path, name: string, text: string, strict: bool)
    requires Sound(doc, a, free, f, strict) && top in Ids(f) && Find(f, top, Top) == (Nil, r, p)
    requires LinkedIn(a, a2, top, 0, t) && t == free && SameOffsets(a, a2, Ids(f) - {top}) && a2[0].startL == 0 &&
             a2[0].startR == 0
    requires top < |a| && ElemOk(doc, a[top], strict) && a[top].IsEmptyElement() &&
             name == TagName(StartTag(doc, a[top]))
    requires MovedBy(Opened(a[top], name, text), a2[top].AdjustEnd(|text| + 2 + |name|), 0, 0)
    requires doc' == DocChange(doc, a[top].endL, 1, OpenedBy(name, text))
    requires ElemOk(doc', a2[t], strict) && a[top].startR <= a2[t].startL && a2[t].endR < a[top].endL + 1 + |text|
    requires b == Shift(a2, Ahead(Nil, Nil, Inside(top, r, p)), PathAnc(Inside(top, r, p)), |text| + 2 + |name|)
    ensures Sound(doc', b, free + 1, ReplaceKids(f, top, Cons(t, Nil, Nil)), strict)
  {
    hide Sound, UniqIn, RepairedBut, Find, Linked, Ids, ElemOk, DocChange, Ahead, PathAnc, Shift, SameOffsets,
         SameLinks, Moved, Insert, EditedInside, Opened, OpenedBy;
    var n := |text| + 2 + |name|;
    InsertShift(doc, a, a2, b, free, f, top, 0, t, Nil, r, p, n, strict);
    OpenedAround(doc, doc', a, b, top, t, name, text, n, strict);
    SoundInserted(doc, doc', a, a2, b, free, f, top, 0, t, Nil, r, p, n, strict);
  }

  /** The text around an empty element that is split, and the one element inside it. */
  lemma OpenedAround(doc: string, doc': string, a: seq<ElemPos>, b: seq<ElemPos>, top: nat, t: nat, name: string,
                     text: string, n: int, strict: bool)
    requires top < |a| && top < |b| && t < |b| && ElemOk(doc, a[top], strict) && a[top].IsEmptyElement()
    requires name == TagName(StartTag(doc, a[top])) && n == |text| + 2 + |name| &&
             doc' == DocChange(doc, a[top].endL, 1, OpenedBy(name, text))
    requires MovedBy(Opened(a[top], name, text), b[top], 0, 0)
    requires ElemOk(doc', b[t], strict) && a[top].startR <= b[t].startL && b[t].endR < a[top].endL + 1 + |text|
    ensures |doc'| == |doc| + n && EditedInside(doc, doc', a, b, top, Cons(t, Nil, Nil), n, strict)
    ensures Insert(Nil, 0, t) == Cons(t, Nil, Nil) && IsPlace(Nil, 0)
  {
    hide TagsOk, DocChange, OpenedBy, SameText, Laid, TagName;
    var e := a[top];
    DocChanged(doc, e.endL, 1, OpenedBy(name, text));
    OpenedSize(name, text);
    OpenedOk(doc, doc', e, name, text, strict);
    OpenedSame(doc', b[top], Opened(e, name, text), strict);
    OneLaid(doc', b, t, b[top].startR + 1, b[top].endL, strict);
    TextPart(doc, doc', 0, e.endL, 0, 0, e.startL);
    TextPart(doc, doc', e.endL + 1, |doc|, n, e.endR + 1, |doc|);
  }

  lemma OpenedSize(name: string, text: string)
    ensures |OpenedBy(name, text)| == |text| + |name| + 3
  {
  }

  lemma OneLaid(doc: string, a: seq<ElemPos>, t: nat, lo: int, hi: int, strict: bool)
    requires 0 <= lo <= hi <= |doc| && t < |a| && ElemOk(doc, a[t], strict) && lo <= a[t].startL && a[t].endR < hi
    ensures Insert(Nil, 0, t) == Cons(t, Nil, Nil) && Laid(doc, a, Cons(t, Nil, Nil), lo, hi, strict)
  {
    hide ElemOk;
    ElemBounds(doc, a[t], strict);
  }

  lemma OpenedSame(doc: string, e: ElemPos, e': ElemPos, strict: bool)
    requires ElemOk(doc, e', strict) && MovedBy(e, e', 0, 0)
    ensures ElemOk(doc, e, strict)
  {
    hide TagsOk;
  }

  /** x_AddElem at the root of a document without elements. */
  lemma SoundRoot(doc: string, doc': string, a: seq<ElemPos>, a2: seq<ElemPos>, b: seq<ElemPos>, free: nat, t: nat,
                  q: int, ins: string, strict: bool)
    requires Sound(doc, a, free, Nil, strict) && LinkedIn(a, a2, 0, 0, t) && t == free && 0 <= q <= |doc|
    requires a2[0].startL == 0 && a2[0].startR == 0 && doc' == DocChange(doc, q, 0, ins)
    requires ElemOk(doc', a2[t], strict) && a2[t].startL == q && a2[t].endR < q + |ins|
    requires b == Shift(a2, {}, {0}, |ins|)
    ensures Sound(doc', b, free + 1, Cons(t, Nil, Nil), strict)
  {
    hide TagsOk;
    DocChanged(doc, q, 0, ins);
    hide DocChange;
    ShiftLinks(a2, {}, {0}, |ins|);
    assert b[t] == a2[t];
    assert Linked(b, Cons(t, Nil, Nil), b[0].child, 0);
    assert Laid(doc', b, Cons(t, Nil, Nil), 0, |doc'|, strict);
  }

  /** A child of `t`, seen from below. */
  lemma InnerUniq(t: nat, k: Forest, r: Forest, p: Path, g: Forest)
    requires UniqAt(t, k, r, p) && g.Cons? && Uniq(g) && Ids(g) <= Ids(k)
    ensures UniqAt(g.elem, Nil, g.rest, Inside(t, r, p))
  {
  }

  /** The child of `top` after `before` has been bypassed: what x_Adjust starts from, and which slots it shifts. */
  lemma RemoveSets(f: Forest, top: nat, before: nat, k: Forest, r: Forest, p: Path)
    requires UniqIn(f, Top) && top in Ids(f) && Find(f, top, Top) == (k, r, p) && IsPlace(k, before) &&
             Past(k, before).Cons?
    ensures var g := Past(k, before);
      var both, ends := Ahead(Nil, g.rest, Inside(top, r, p)), PathAnc(Inside(top, r, p));
      UniqAt(g.elem, Nil, g.rest, Inside(top, r, p)) && both == Ids(g.rest) + Ids(r) + PathAfter(p) &&
      ends == {top} + PathAnc(p) &&
      top !in both && 0 !in both && Ids(Upto(k, before)) !! both + ends && Ids(g.rest) <= Ids(k) <= Ids(f) &&
      Ids(Upto(k, before)) <= Ids(f) - {top} && g.elem in Ids(k) && g.elem !in Ids(Upto(k, before))
  {
    hide Past, Upto, TopIds, Find, UniqIn, UniqAt, Ids, Uniq, Ahead, PathAnc, PathAfter;
    FindUniq(f, top, Top);
    UniqBelow(f, top, k, r, p);
    PlaceIds(k, before);
    AheadInside(Past(k, before).rest, top, r, p);
    AheadInside(Past(k, before), top, r, p);
    InnerUniq(top, k, r, p, Past(k, before));
  }

  lemma RemoveCursor(a: seq<ElemPos>, b: seq<ElemPos>, f: Forest, top: nat, before: nat, k: Forest, r: Forest, p: Path)
    requires UniqIn(f, Top) && top in Ids(f) && Find(f, top, Top) == (k, r, p) && Cursor(a, top, true, k, r, p)
    requires IsPlace(k, before) && Past(k, before).Cons? && LinkedOut(a, b, top, before, Past(k, before).elem)
    ensures Cursor(b, Past(k, before).elem, false, Nil, Past(k, before).rest, Inside(top, r, p))
    ensures Linked(b, Remove(k, before), b[top].child, top)
  {
    hide Past, Upto, TopIds, UniqIn, Find, Remove, Ids, Uniq, Ahead, PathAfter, UniqAt;
    RemoveSets(f, top, before, k, r, p);
    UniqBelow(f, top, k, r, p);
    PlaceIds(k, before);
    RemovePast(a, b, k, top, before);
    PastLinked(a, k, before, a[top].child, top);
    RemoveLinked(a, b, k, top, before);
    RemoveAbove(a, b, f, top, before, k, r, p);
  }

  lemma RemoveAbove(a: seq<ElemPos>, b: seq<ElemPos>, f: Forest, top: nat, before: nat, k: Forest, r: Forest, p: Path)
    requires UniqIn(f, Top) && top in Ids(f) && Find(f, top, Top) == (k, r, p) && Cursor(a, top, true, k, r, p)
    requires IsPlace(k, before) && Past(k, before).Cons? && LinkedOut(a, b, top, before, Past(k, before).elem)
    ensures PathLinked(b, Inside(top, r, p))
  {
    hide Past, Upto, TopIds;
    FindUniq(f, top, Top);
    PlaceIds(k, before);
    CursorKept(a, b, top, false, Nil, r, p);
  }

  /** x_RemoveElem below an element. */
  lemma SoundRemove(doc: string, doc': string, a: seq<ElemPos>, a2: seq<ElemPos>, b: seq<ElemPos>, free: nat, f: Forest,
                    top: nat, before: nat, k: Forest, r: Forest, p: Path, s: nat, q: nat, strict: bool)
    requires Sound(doc, a, free, f, strict) && top in Ids(f) && Find(f, top, Top) == (k, r, p) && IsPlace(k, before) &&
             Past(k, before).Cons?
    requires LinkedOut(a, a2, top, before, Past(k, before).elem) && SameOffsets(a, a2, Ids(f)) && a2[0].startL == 0 &&
             a2[0].startR == 0
    requires top < |a| && ElemOk(doc, a[top], strict) && !a[top].IsEmptyElement() &&
             a[top].startR < s <= q <= a[top].endL
    requires Laid(doc, a, Upto(k, before), a[top].startR + 1, s, strict) &&
             Laid(doc, a, Past(k, before).rest, q, a[top].endL, strict)
    requires doc' == DocChange(doc, s, q - s, "")
    requires b == Shift(a2, Ahead(Nil, Past(k, before).rest, Inside(top, r, p)), PathAnc(Inside(top, r, p)), s - q)
    ensures Sound(doc', b, free, ReplaceKids(f, top, Remove(k, before)), strict)
  {
    hide Sound, UniqIn, RepairedBut, Past, Upto, Remove, TopIds, Find, Linked, Ids, TagsOk, DocChange, Laid, Ahead,
         PathAnc, Shift, SameOffsets, SameLinks, Moved, Cursor;
    var n := s - q;
    var g := Past(k, before);
    SoundFresh(doc, a, free, f, strict);
    SoundAt(doc, a, free, f, top, strict);
    RemoveSets(f, top, before, k, r, p);
    RemoveShift(a, a2, b, f, top, before, k, r, p, n);
    OffsetsAt(a, a2, Ids(f), top);
    DocChanged(doc, s, q - s, "");
    ElemAround(doc, doc', a[top], b[top], s, q, n, strict);
    RemoveLaid(doc, doc', a, b, k, before, a[top].startR + 1, s, q, a[top].endL, strict);
    RemoveCursor(a, a2, f, top, before, k, r, p);
    LinkedSame(a2, b, Remove(k, before), b[top].child, top);
    RemoveKept(a, a2, b, f, top, before, k, r, p);
    SoundInside(doc, doc', a, b, free, free, f, top, Remove(k, before), n, strict);
  }

  lemma RemoveShift(a: seq<ElemPos>, a2: seq<ElemPos>, b: seq<ElemPos>, f: Forest, top: nat, before: nat, k: Forest,
                    r: Forest, p: Path, n: int)
    requires UniqIn(f, Top) && top in Ids(f) && Find(f, top, Top) == (k, r, p) && IsPlace(k, before) &&
             Past(k, before).Cons?
    requires SameOffsets(a, a2, Ids(f)) && 0 < |a2| && top < |a2| && a2[0].startL == 0 && a2[0].startR == 0
    requires b == Shift(a2, Ahead(Nil, Past(k, before).rest, Inside(top, r, p)), PathAnc(Inside(top, r, p)), n)
    ensures |b| == |a2| && b[top] == a2[top].AdjustEnd(n) && SameLinks(a2, b) && b[0].startL == 0 && b[0].startR == 0
    ensures Moved(a, b, Ids(Upto(k, before)), 0, 0) && Moved(a, b, Ids(Past(k, before).rest), n, n)
    ensures RepairedBut(a, b, f, top, Top, n)
  {
    hide UniqIn, RepairedBut, Past, Upto, TopIds, SameLinks, Moved, SameOffsets, Ahead, PathAnc, Shift, Ids, PathAfter,
         Find;
    RemoveSets(f, top, before, k, r, p);
    var g := Past(k, before);
    var both, ends := Ahead(Nil, g.rest, Inside(top, r, p)), PathAnc(Inside(top, r, p));
    SomeOffsets(a, a2, Ids(f), Ids(f) - Ids(k) - {top});
    SomeOffsets(a, a2, Ids(f), Ids(Upto(k, before)));
    SomeOffsets(a, a2, Ids(f), Ids(g.rest));
    ShiftRepaired(a, a2, f, top, n, Ids(g.rest), {top});
    ShiftLinks(a2, both, ends, n);
    ShiftOne(a2, both, ends, n, top);
    ShiftMoved(a, a2, both, ends, n, Ids(Upto(k, before)), 0);
    ShiftMoved(a, a2, both, ends, n, Ids(g.rest), n);
  }

  lemma RemoveKept(a: seq<ElemPos>, a2: seq<ElemPos>, b: seq<ElemPos>, f: Forest, top: nat, before: nat, k: Forest,
                   r: Forest, p: Path)
    requires UniqIn(f, Top) && top in Ids(f) && Find(f, top, Top) == (k, r, p) && IsPlace(k, before) &&
             Past(k, before).Cons?
    requires LinkedOut(a, a2, top, before, Past(k, before).elem) && SameLinks(a2, b)
    ensures LinksKept(a, b, Ids(f) - Ids(k) - {top}, {top}) && b[0].child == a[0].child
    ensures Uniq(Remove(k, before)) && Ids(Remove(k, before)) <= Ids(k)
  {
    hide Upto, Past, TopIds, LinkedOut, SameLinks, LinksKept;
    FindUniq(f, top, Top);
    PlaceIds(k, before);
    RemoveIds(k, before);
    KeptOut(a, a2, b, Ids(f) - Ids(k) - {top}, top, before, Past(k, before).elem);
  }

  lemma KeptOut(a: seq<ElemPos>, a2: seq<ElemPos>, b: seq<ElemPos>, ids: set<nat>, top: nat, before: nat, t: nat)
    requires LinkedOut(a, a2, top, before, t) && SameLinks(a2, b) && top != 0
    requires top !in ids && before !in ids && before != top
    ensures LinksKept(a, b, ids, {top}) && b[0].child == a[0].child
  {
  }

  /** x_RemoveElem at the root. */
  lemma SoundRemoveRoot(doc: string, doc': string, a: seq<ElemPos>, a2: seq<ElemPos>, b: seq<ElemPos>, free: nat,
                        f: Forest, before: nat, s: nat, q: nat, strict: bool)
    requires Sound(doc, a, free, f, strict) && IsPlace(f, before) && Past(f, before).Cons? && s <= q <= |doc|
    requires LinkedOut(a, a2, 0, before, Past(f, before).elem) && SameOffsets(a, a2, Ids(f)) && a2[0].startL == 0 &&
             a2[0].startR == 0
    requires Laid(doc, a, Upto(f, before), 0, s, strict) && Laid(doc, a, Past(f, before).rest, q, |doc|, strict)
    requires doc' == DocChange(doc, s, q - s, "")
    requires b == Shift(a2, Ids(Past(f, before).rest), {0}, s - q)
    ensures Sound(doc', b, free, Remove(f, before), strict)
  {
    hide Past, Upto, Remove, TopIds, TagsOk, DocChange, Laid, Shift, SameOffsets, SameLinks, Moved, Linked, Ids, Uniq;
    var g := Past(f, before);
    var both, ends := Ids(g.rest), {0};
    RootSets(f, before);
    SomeOffsets(a, a2, Ids(f), Ids(Upto(f, before)));
    SomeOffsets(a, a2, Ids(f), Ids(g.rest));
    ShiftLinks(a2, both, ends, s - q);
    ShiftOne(a2, both, ends, s - q, 0);
    ShiftMoved(a, a2, both, ends, s - q, Ids(Upto(f, before)), 0);
    ShiftMoved(a, a2, both, ends, s - q, Ids(g.rest), s - q);
    DocChanged(doc, s, q - s, "");
    RemoveLaid(doc, doc', a, b, f, before, 0, s, q, |doc|, strict);
    RemoveLinked(a, a2, f, 0, before);
    LinkedSame(a2, b, Remove(f, before), a2[0].child, 0);
  }

  lemma RootSets(f: Forest, before: nat)
    requires UniqIn(f, Top) && IsPlace(f, before) && Past(f, before).Cons?
    ensures var g := Past(f, before);
      Ids(g.rest) <= Ids(f) && Ids(Upto(f, before)) <= Ids(f) && 0 !in Ids(g.rest) &&
      Ids(Upto(f, before)) !! Ids(g.rest) + {0} &&
      UniqIn(Remove(f, before), Top) && Ids(Remove(f, before)) <= Ids(f)
  {
    hide Past, Upto, Remove, TopIds;
    PlaceIds(f, before);
    RemoveIds(f, before);
  }
}
