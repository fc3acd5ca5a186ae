/** The text that x_AddElem writes, and where x_LocateNew and x_RemoveElem cut. */
module MarkupWrite {
  import opened MarkupText
  import opened MarkupArena
  import opened MarkupLayout
  import opened MarkupEdits
  import opened MarkupTags
  import opened MarkupState

  /** `<NAME/>`, or `<NAME>value</NAME>` when there is a value. */
  function ElemText(name: string, value: string): string {
    if value == "" then "<" + name + "/>"
    else "<" + name + ">" + Escape(value, false) + "</" + name + ">"
  }

  /** The record of an element written at `q`. */
  function ElemAt(q: int, name: string, value: string, e: ElemPos): ElemPos {
    if value == "" then
      e.(startL := q, startR := q + |name| + 2, endL := q + |name| + 1, endR := q + |name| + 2)
    else
      var startR, n := q + |name| + 1, |Escape(value, false)|;
      e.(startL := q, startR := startR, endL := startR + n + 1, endR := startR + n + 1 + |name| + 2)
  }

  lemma EmptyWritten(doc: string, q: nat, name: string, e: ElemPos, strict: bool)
    requires NameOk(name) && q + |name| + 3 <= |doc| && doc[q..q + |name| + 3] == "<" + name + "/>"
    requires e.startL == q && e.startR == e.endR == q + |name| + 2 && e.endL == q + |name| + 1
    ensures ElemOk(doc, e, strict)
  {
    hide StartTagOk;
    StartTagWritten(name, "/>");
    StrictAny("<" + name + "/>", strict);
    SubSlice(doc, q, q + |name| + 3, |name| + 1, |name| + 3);
    assert ("<" + name + "/>")[|name| + 1..|name| + 3] == "/>";
  }

  lemma StrictAny(s: string, strict: bool)
    requires StartTagOk(s, true)
    ensures StartTagOk(s, strict)
  {
  }

  lemma FullWritten(doc: string, q: nat, name: string, v: string, e: ElemPos, strict: bool)
    requires NameOk(name) && q + 2 * |name| + |v| + 5 <= |doc|
    requires doc[q..q + 2 * |name| + |v| + 5] == "<" + name + ">" + v + "</" + name + ">"
    requires e.startL == q && e.startR == q + |name| + 1 && e.endL == e.startR + |v| + 1 &&
             e.endR == e.endL + |name| + 2
    ensures ElemOk(doc, e, strict)
  {
    hide StartTagOk, EndTagOk, NameOk, TagName;
    var n := 2 * |name| + |v| + 5;
    var w := "<" + name + ">" + v + "</" + name + ">";
    SubSlice(doc, q, q + n, 0, |name| + 2);
    SubSlice(doc, q, q + n, |name| + |v| + 2, n);
    TwoTags(w, "<" + name + ">", v, "</" + name + ">");
    StartTagWritten(name, ">");
    StrictAny("<" + name + ">", strict);
    NameIsWord(name);
    EndTagWritten(name);
  }

  lemma TwoTags(w: string, start: string, v: string, end: string)
    requires w == start + v + end
    ensures w[0..|start|] == start && w[|start| + |v|..|w|] == end
  {
  }

  lemma NameIsWord(name: string)
    requires NameOk(name)
    ensures IsWord(name)
  {
  }

  /** A written element is in place. */
  lemma Written(doc: string, q: nat, name: string, value: string, e: ElemPos, strict: bool)
    requires NameOk(name) && q + |ElemText(name, value)| <= |doc| &&
             doc[q..q + |ElemText(name, value)|] == ElemText(name, value)
    ensures ElemOk(doc, ElemAt(q, name, value, e), strict) && ElemAt(q, name, value, e).startL == q &&
      ElemAt(q, name, value, e).endR + 1 == q + |ElemText(name, value)|
  {
    hide ElemOk, NameOk, Escape;
    if value == "" {
      EmptyWritten(doc, q, name, ElemAt(q, name, value, e), strict);
    } else {
      FullWritten(doc, q, name, Escape(value, false), ElemAt(q, name, value, e), strict);
    }
  }

  /** Up to the start of the next node, if only white space (or one stray quote) is in between. */
  function NextNode(doc: string, x: nat): (y: nat)
    requires x <= |doc|
    ensures x <= y <= |doc|
  {
    var t := TokenAt(doc, x);
    if !t.found || (t.l < |doc| && doc[t.l] == '<') then t.l else x
  }

  /** No tag is passed over on the way. */
  lemma NextNodeClear(doc: string, x: nat, hi: nat)
    requires x <= hi <= |doc| && (hi == |doc| || doc[hi] == '<')
    ensures x <= NextNode(doc, x) <= hi && forall k :: x <= k < NextNode(doc, x) ==> doc[k] != '<'
  {
    var b := Scan(doc, x, Space, false);
    assert forall k :: x <= k < b ==> IsSpace(doc[k]);
    assert b <= hi;
  }

  lemma {:induction false} PastNext(k: Forest, b: nat)
    requires Uniq(k) && 0 !in Ids(k) && IsPlace(k, b) && Past(k, b).Cons?
    ensures var g := Past(k, b);
      g.elem in TopIds(k) && Past(k, g.elem) == g.rest && TopIds(g) <= TopIds(k) && Upto(k, g.elem).Cons?
  {
    if b != 0 && k.elem != b {
      PastNext(k.rest, b);
      PlaceIds(k.rest, b);
    } else if b == 0 {
      PlaceIds(k, 0);
    } else {
      PlaceIds(k.rest, 0);
    }
  }

  lemma {:induction false} PastEnd(k: Forest, b: nat)
    requires IsPlace(k, b) && Past(k, b) == Nil
    ensures Upto(k, b) == k
  {
    if b != 0 && k.elem != b { PastEnd(k.rest, b); }
  }

  /** Where a list opens up for a new element after `before`: anywhere up to the next tag. */
  lemma OpenAfter(doc: string, a: seq<ElemPos>, k: Forest, before: nat, lo: int, y: int, hi: int, strict: bool)
    requires Laid(doc, a, k, lo, hi, strict) && IsPlace(k, before)
    requires before < |a| && var m := if before == 0 then lo else a[before].endR + 1;
      0 <= m <= y <= hi <= |doc| && forall j :: m <= j < y ==> doc[j] != '<'
    ensures Laid(doc, a, Upto(k, before), lo, y, strict) && Laid(doc, a, Past(k, before), y, hi, strict)
  {
    hide Laid, Upto, Past, TopIds;
    var m := if before == 0 then lo else a[before].endR + 1;
    LaidSplit(doc, a, k, before, lo, hi, strict);
    LaidBounds(doc, a, k, lo, hi, strict);
    LaidWiden(doc, a, Upto(k, before), lo, m, y, strict);
    LaidRaise(doc, a, Past(k, before), m, y, hi, strict);
  }

  /** ... or right before the next sibling. */
  lemma OpenBefore(doc: string, a: seq<ElemPos>, k: Forest, before: nat, lo: int, hi: int, strict: bool)
    requires Laid(doc, a, k, lo, hi, strict) && IsPlace(k, before) && Past(k, before).Cons?
    ensures Past(k, before).elem < |a|
    ensures var t := Past(k, before).elem;
      Laid(doc, a, Upto(k, before), lo, a[t].startL, strict) &&
      Laid(doc, a, Past(k, before), a[t].startL, hi, strict) &&
      ElemOk(doc, a[t], strict) && Laid(doc, a, Past(k, before).rest, a[t].endR + 1, hi, strict) && lo <= a[t].startL &&
      a[t].endR < hi
  {
    hide Upto, Past, TopIds, ElemOk;
    LaidSplit(doc, a, k, before, lo, hi, strict);
    var t := Past(k, before).elem;
    LaidBounds(doc, a, k, lo, hi, strict);
    ElemBounds(doc, a[t], strict);
    LaidBounds(doc, a, Past(k, before).rest, a[t].endR + 1, hi, strict);
    LaidWiden(doc, a, Upto(k, before), lo, if before == 0 then lo else a[before].endR + 1, a[t].startL, strict);
  }

  /** An element is in the list of children of its parent. */
  lemma {:induction false} InParent(a: seq<ElemPos>, f: Forest, t: nat, head: nat, up: Path)
    requires t in Ids(f) && Linked(a, f, head, ParentOf(up)) && UniqIn(f, up)
    ensures t < |a|
    ensures var top := a[t].parent;
      if top == ParentOf(up) then t in TopIds(f) else top in Ids(f) && t in TopIds(Find(f, top, up).0)
  {
    if t == f.elem {
    } else if t in Ids(f.kids) {
      InParent(a, f.kids, t, a[f.elem].child, Inside(f.elem, f.rest, up));
    } else {
      InParent(a, f.rest, t, a[f.elem].next, up);
    }
  }

  ghost function Kids(f: Forest, top: nat): Forest
    requires top == 0 || top in Ids(f)
  {
    if top == 0 then f else Find(f, top, Top).0
  }

  /** The elements with `i` as a new child of `top`, after its sibling `before`. */
  ghost function WithChild(f: Forest, top: nat, before: nat, i: nat): Forest
    requires top == 0 || top in Ids(f)
  {
    if top == 0 then Insert(f, before, i) else ReplaceKids(f, top, Insert(Kids(f, top), before, i))
  }

  lemma OnlyChild(f: Forest, top: nat, before: nat, i: nat)
    requires (top == 0 || top in Ids(f)) && Kids(f, top) == Nil && IsPlace(Kids(f, top), before)
    ensures WithChild(f, top, before, i) == if top == 0 then Cons(i, Nil, Nil)
                                            else ReplaceKids(f, top, Cons(i, Nil, Nil))
  {
    hide Find, ReplaceKids;
  }

  /** The children of `top` are what its child link leads to. */
  lemma KidsLinked(doc: string, a: seq<ElemPos>, free: nat, f: Forest, top: nat, strict: bool)
    requires Sound(doc, a, free, f, strict) && (top == 0 || top in Ids(f))
    ensures top < |a| && Linked(a, Kids(f, top), a[top].child, top) && Uniq(Kids(f, top)) && 0 !in Ids(Kids(f, top)) &&
            top !in Ids(Kids(f, top))
  {
    hide Laid, Linked;
    if top != 0 {
      SoundAt(doc, a, free, f, top, strict);
      FindUniq(f, top, Top);
    }
  }

  /** The offset x_LocateNew starts from. */
  function PlaceAt(a: seq<ElemPos>, top: nat, rel: nat, insert: bool): int
    requires top < |a| && rel < |a|
  {
    if rel != 0 then (if insert then a[rel].startL else a[rel].endR + 1)
    else if a[top].IsEmptyElement() then a[top].startR
    else if insert then a[top].startR + 1 else a[top].endL
  }

  lemma PlaceInDoc(doc: string, a: seq<ElemPos>, free: nat, f: Forest, top: nat, rel: nat, insert: bool, strict: bool)
    requires Sound(doc, a, free, f, strict) && (top == 0 || top in Ids(f)) && (rel == 0 || rel in TopIds(Kids(f, top)))
    requires top == 0 ==> f == Nil && a[0].endL == |doc| && (insert ==> |doc| > 0)
    ensures top < |a| && rel < |a| && 0 <= PlaceAt(a, top, rel, insert) <= |doc| &&
            (top == 0 ==> rel == 0 && a[0].child == 0)
    ensures top != 0 && a[top].IsEmptyElement() ==> Kids(f, top) == Nil && rel == 0 && a[top].child == 0
    ensures top != 0 ==> (a[top].child == 0 <==> Kids(f, top) == Nil)
  {
    hide TagsOk, Laid;
    if top != 0 {
      SoundAt(doc, a, free, f, top, strict);
      if rel != 0 {
        FindUniq(f, top, Top);
        PlaceIds(Kids(f, top), 0);
        SoundAt(doc, a, free, f, rel, strict);
      }
    }
  }

  ghost predicate Placed(k: Forest, rel: nat, insert: bool, before: nat) {
    IsPlace(k, before) &&
    if rel != 0 then (if insert then Past(k, before).Cons? && Past(k, before).elem == rel else before == rel)
    else if insert then before == 0 else Past(k, before) == Nil
  }

  lemma EndTagAt(doc: string, e: ElemPos, strict: bool)
    requires ElemOk(doc, e, strict) && !e.IsEmptyElement()
    ensures doc[e.endL] == '<' && e.startR < e.endL < e.endR < |doc|
  {
    assert EndTag(doc, e)[0] == doc[e.endL];
  }

  lemma StartTagAt(doc: string, e: ElemPos, strict: bool)
    requires ElemOk(doc, e, strict)
    ensures 0 <= e.startL < |doc| && doc[e.startL] == '<'
  {
    assert StartTag(doc, e)[0] == doc[e.startL];
  }

  /** Where x_LocateNew points, the list of children opens up. */
  lemma LocatedRight(doc: string, a: seq<ElemPos>, free: nat, f: Forest, top: nat, rel: nat, insert: bool, before: nat,
                     strict: bool)
    requires Sound(doc, a, free, f, strict) && top in Ids(f) && Placed(Kids(f, top), rel, insert, before)
    requires top < |a| && rel < |a| && !a[top].IsEmptyElement() && 0 <= PlaceAt(a, top, rel, insert) <= |doc|
    ensures var y := NextNode(doc, PlaceAt(a, top, rel, insert));
      a[top].startR < y <= a[top].endL && Laid(doc, a, Upto(Kids(f, top), before), a[top].startR + 1, y, strict) &&
      Laid(doc, a, Past(Kids(f, top), before), y, a[top].endL, strict)
  {
    hide ElemOk, Upto, Past, TopIds, Laid, NextNode, Cursor, Sound;
    var k, e := Kids(f, top), a[top];
    var lo, hi := e.startR + 1, e.endL;
    var x := PlaceAt(a, top, rel, insert);
    SoundFresh(doc, a, free, f, strict);
    SoundAt(doc, a, free, f, top, strict);
    EndTagAt(doc, e, strict);
    StartTagAt(doc, e, strict);
    if rel != 0 && insert {
      OpenBefore(doc, a, k, before, lo, hi, strict);
      StartTagAt(doc, a[rel], strict);
      ElemBounds(doc, a[rel], strict);
      NextNodeClear(doc, x, hi);
    } else {
      LaidSplit(doc, a, k, before, lo, hi, strict);
      NextNodeClear(doc, x, hi);
      if rel == 0 && !insert {
        PastEnd(k, before);
        LaidWiden(doc, a, k, lo, hi, hi, strict);
        LaidNothing(doc, a, hi, hi, strict);
      } else {
        OpenAfter(doc, a, k, before, lo, NextNode(doc, x), hi, strict);
      }
    }
  }

  lemma PlaceBelow(f: Forest, top: nat, before: nat, free: nat)
    requires UniqIn(f, Top) && top in Ids(f) && IsPlace(Kids(f, top), before) && 0 < free &&
             forall j :: j in Ids(f) ==> j < free
    ensures before < free && before != top
  {
    hide Past, Upto;
    FindUniq(f, top, Top);
    PlaceIds(Kids(f, top), before);
  }

  /** The element written reads back from its record, and every other element keeps its parent. */
  ghost predicate Added(doc: string, a: seq<ElemPos>, b: seq<ElemPos>, f: Forest, i: nat, top: nat, name: string,
                        value: string, strict: bool) {
    i < |b| && b[i].parent == top && ElemOk(doc, b[i], strict) &&
    doc[b[i].startL..b[i].endR + 1] == ElemText(name, value) &&
    ParentsKept(a, b, Ids(f))
  }

  /** The text around what x_AddElem wrote at `x` is kept; an empty parent is split in two. */
  ghost predicate AddedText(doc: string, a: seq<ElemPos>, top: nat, doc': string, x: int, name: string, value: string) {
    if top != 0 && top < |a| && a[top].IsEmptyElement() then
      Bounded(doc, a[top]) &&
      doc' == DocChange(doc, a[top].endL, 1,
                        OpenedBy(TagName(StartTag(doc, a[top])), "\r\n" + ElemText(name, value) + "\r\n"))
    else 0 <= x <= |doc| && doc' == DocChange(doc, x, 0, ElemText(name, value) + "\r\n")
  }

  /** The elements without the child of `top` that comes after `prev`. */
  ghost function WithoutChild(f: Forest, top: nat, prev: nat): Forest
    requires (top == 0 || top in Ids(f)) && Past(Kids(f, top), prev).Cons?
  {
    if top == 0 then Remove(f, prev) else ReplaceKids(f, top, Remove(Kids(f, top), prev))
  }

  ghost predicate ParentsKept(a: seq<ElemPos>, b: seq<ElemPos>, ids: set<nat>) {
    forall j :: j in ids ==> j < |a| && j < |b| && b[j].parent == a[j].parent
  }

  lemma AddedParents(doc: string, a: seq<ElemPos>, a2: seq<ElemPos>, f: Forest, free: nat, top: nat, before: nat,
                     both: set<nat>, ends: set<nat>, n: int, strict: bool)
    requires Sound(doc, a, free, f, strict) && LinkedIn(a, a2, top, before, free)
    ensures ParentsKept(a, Shift(a2, both, ends, n), Ids(f))
  {
    hide Laid, Linked;
  }

  ghost predicate OffsetsBut(a: seq<ElemPos>, b: seq<ElemPos>, i: nat) {
    |a| <= |b| && forall j :: 0 <= j < |a| && j != i ==> MovedBy(a[j], b[j], 0, 0)
  }

  lemma InsertReady(doc: string, a: seq<ElemPos>, free: nat, f: Forest, top: nat, before: nat, strict: bool)
    requires Sound(doc, a, free, f, strict) && top in Ids(f) && IsPlace(Kids(f, top), before)
    ensures 2 <= |a| && 0 < free <= |a| && 0 < top < free && before < free
    ensures ElemOk(doc, a[top], strict) && a[top].endL <= |doc|
  {
    hide Laid, TopIds, UniqIn;
    SoundFresh(doc, a, free, f, strict);
    SoundAt(doc, a, free, f, top, strict);
    PlaceBelow(f, top, before, free);
    hide TagsOk;
    assert a[top].endL <= |doc|;
  }

  lemma ElemAtLinks(a: seq<ElemPos>, a1: seq<ElemPos>, a2: seq<ElemPos>, top: nat, before: nat, i: nat, q: int,
                    name: string, value: string)
    requires LinkedIn(a, a1, top, before, i) && OffsetsBut(a, a1, i) && a2 == a1[i := ElemAt(q, name, value, a1[i])]
    ensures LinkedIn(a, a2, top, before, i) && OffsetsBut(a, a2, i) && a2[i] == ElemAt(q, name, value, a1[i])
  {
    hide Escape;
  }

  lemma InsertDone(doc: string, doc': string, a: seq<ElemPos>, a2: seq<ElemPos>, b: seq<ElemPos>, free: nat, f: Forest,
                   top: nat, before: nat, k: Forest, r: Forest, p: Path, q: nat, name: string, value: string,
                   e: ElemPos, strict: bool)
    requires Sound(doc, a, free, f, strict) && top in Ids(f) && Find(f, top, Top) == (k, r, p) && IsPlace(k, before)
    requires LinkedIn(a, a2, top, before, free) && OffsetsBut(a, a2, free) && a2[free] == ElemAt(q, name, value, e) &&
             NameOk(name)
    requires top < |a| && !a[top].IsEmptyElement() && a[top].startR < q <= a[top].endL && q <= |doc|
    requires Laid(doc, a, Upto(k, before), a[top].startR + 1, q, strict) &&
             Laid(doc, a, Past(k, before), q, a[top].endL, strict)
    requires doc' == DocChange(doc, q, 0, ElemText(name, value) + "\r\n")
    requires b == Shift(a2, Ahead(Nil, Past(k, before), Inside(top, r, p)), PathAnc(Inside(top, r, p)),
                        |ElemText(name, value)| + 2)
    ensures Sound(doc', b, free + 1, ReplaceKids(f, top, Insert(k, before, free)), strict)
    ensures Added(doc', a, b, f, free, top, name, value, strict) &&
            Ids(ReplaceKids(f, top, Insert(k, before, free))) == Ids(f) + {free}
    ensures AddedText(doc, a, top, doc', b[free].startL, name, value)
  {
    hide Laid, Upto, Past, TopIds, Sound, UniqIn, Find, Ahead, PathAnc, DocChange, ElemOk, Shift, ElemText, NameOk,
         ReplaceKids, Insert;
    var ins := ElemText(name, value) + "\r\n";
    SoundFresh(doc, a, free, f, strict);
    SoundAt(doc, a, free, f, top, strict);
    InsertedIds(f, top, before, free, k, r, p);
    DocChanged(doc, q, 0, ins);
    assert doc'[q..q + |ElemText(name, value)|] == ElemText(name, value) by {
      SubSlice(doc', q, q + |ins|, 0, |ElemText(name, value)|);
      assert ins[0..|ElemText(name, value)|] == ElemText(name, value);
    }
    Written(doc', q, name, value, e, strict);
    SlotZero(doc, a, a2, free, f, strict);
    SoundInsert(doc, doc', a, a2, b, free, f, top, before, free, k, r, p, q, ins, strict);
    ShiftNew(f, top, before, free, k, r, p, a2, |ins|);
    AddedParents(doc, a, a2, f, free, top, before, Ahead(Nil, Past(k, before), Inside(top, r, p)),
                 PathAnc(Inside(top, r, p)), |ins|, strict);
  }

  lemma InsertedIds(f: Forest, top: nat, before: nat, t: nat, k: Forest, r: Forest, p: Path)
    requires UniqIn(f, Top) && top in Ids(f) && Find(f, top, Top) == (k, r, p) && IsPlace(k, before)
    requires t !in Ids(f)
    ensures Ids(ReplaceKids(f, top, Insert(k, before, t))) == Ids(f) + {t}
    ensures k == Nil && before == 0 ==> Insert(k, before, t) == Cons(t, Nil, Nil)
  {
    hide UniqIn;
    FindUniq(f, top, Top);
    InsertIds(k, before, t);
    ReplaceKidsIds(f, top, Insert(k, before, t), Top);
  }

  lemma SlotZero(doc: string, a: seq<ElemPos>, a2: seq<ElemPos>, free: nat, f: Forest, strict: bool)
    requires Sound(doc, a, free, f, strict) && OffsetsBut(a, a2, free)
    ensures a2[0].startL == 0 && a2[0].startR == 0 && SameOffsets(a, a2, Ids(f))
  {
    hide Laid, Linked;
  }

  lemma ShiftNew(f: Forest, top: nat, before: nat, t: nat, k: Forest, r: Forest, p: Path, a: seq<ElemPos>, n: int)
    requires UniqIn(f, Top) && top in Ids(f) && Find(f, top, Top) == (k, r, p) && IsPlace(k, before) && t !in Ids(f) &&
             0 < t < |a|
    ensures Shift(a, Ahead(Nil, Past(k, before), Inside(top, r, p)), PathAnc(Inside(top, r, p)), n)[t] == a[t]
  {
    hide Past, TopIds, UniqIn, Find, Ahead, PathAnc;
    InsertSets(f, top, before, t, k, r, p);
  }

  lemma NameToken(tag: string, strict: bool)
    requires StartTagOk(tag, strict)
    ensures var u := TokenAt(tag, 1); u.found && u.next < |tag| && TagName(tag) == tag[u.l..u.r + 1]
  {
  }

  /** The tag name that x_GetTagName reads in the document is the name of the start tag. */
  lemma TagNameInDoc(doc: string, e: ElemPos, strict: bool)
    requires ElemOk(doc, e, strict)
    ensures 0 <= e.startL < |doc|
    ensures var t := TokenAt(doc, e.startL + 1);
      t.found && t.r < |doc| && TagName(StartTag(doc, e)) == doc[t.l..t.r + 1]
  {
    hide TokenAt, EndTagOk, TagName, StartTagOk;
    var u := TokenAt(StartTag(doc, e), 1);
    NameToken(StartTag(doc, e), strict);
    TokenWindow(doc, e.startL, e.startR + 1, e.startL + 1);
    SubSlice(doc, e.startL, e.startR + 1, u.l, u.r + 1);
  }

  lemma OpenReady(doc: string, a: seq<ElemPos>, free: nat, f: Forest, top: nat, strict: bool)
    requires Sound(doc, a, free, f, strict) && top in Ids(f) && top < |a| && a[top].IsEmptyElement()
    ensures 2 <= |a| && 0 < free <= |a| && 0 < top < free && Find(f, top, Top).0 == Nil && ElemOk(doc, a[top], strict)
    ensures 0 <= a[top].startL && a[top].startL + 3 <= a[top].startR == a[top].endL + 1 == a[top].endR < |doc|
  {
    hide Laid, UniqIn;
    SoundFresh(doc, a, free, f, strict);
    SoundAt(doc, a, free, f, top, strict);
    EmptyElem(doc, a[top], strict);
  }

  lemma PreAdjusted(a: seq<ElemPos>, a2: seq<ElemPos>, a3: seq<ElemPos>, top: nat, i: nat)
    requires LinkedIn(a, a2, top, 0, i) && OffsetsBut(a, a2, i) && top < |a2| && |a3| == |a2|
    requires a3 == a2[top := a3[top]] && a3[top].parent == a2[top].parent && a3[top].child == a2[top].child &&
             a3[top].next == a2[top].next
    ensures LinkedIn(a, a3, top, 0, i) && a3[i] == a2[i] && SameOffsetsBut(a, a3, top, i)
  {
  }

  ghost predicate SameOffsetsBut(a: seq<ElemPos>, b: seq<ElemPos>, top: nat, i: nat) {
    |a| <= |b| && forall j :: 0 <= j < |a| && j != i && j != top ==> MovedBy(a[j], b[j], 0, 0)
  }

  lemma OpenDone(doc: string, doc': string, a: seq<ElemPos>, a2: seq<ElemPos>, b: seq<ElemPos>, free: nat, f: Forest,
                 top: nat, r: Forest, p: Path, parentName: string, name: string, value: string, e: ElemPos,
                 strict: bool)
    requires Sound(doc, a, free, f, strict) && top in Ids(f) && Find(f, top, Top) == (Nil, r, p) && top < |a| &&
             ElemOk(doc, a[top], strict)
    requires LinkedIn(a, a2, top, 0, free) && SameOffsetsBut(a, a2, top, free) &&
             a2[free] == ElemAt(a[top].startR + 2, name, value, e) && NameOk(name)
    requires a[top].IsEmptyElement() && parentName == TagName(StartTag(doc, a[top]))
    requires MovedBy(a[top].(startR := a[top].startR - 1, endL := a[top].endL - (|parentName| + 1)), a2[top], 0, 0)
    requires var text := "\r\n" + ElemText(name, value) + "\r\n";
      doc' == DocChange(doc, a[top].endL, 1, OpenedBy(parentName, text)) &&
      b == Shift(a2, Ahead(Nil, Nil, Inside(top, r, p)), PathAnc(Inside(top, r, p)), |OpenedBy(parentName, text)| - 1)
    ensures Sound(doc', b, free + 1, ReplaceKids(f, top, Cons(free, Nil, Nil)), strict)
    ensures Added(doc', a, b, f, free, top, name, value, strict) &&
            Ids(ReplaceKids(f, top, Cons(free, Nil, Nil))) == Ids(f) + {free}
    ensures AddedText(doc, a, top, doc', b[free].startL, name, value)
  {
    hide Laid, Sound, UniqIn, Find, Ahead, PathAnc, DocChange, TagsOk, Shift, ElemText, NameOk, ReplaceKids, OpenedBy,
         TagName, Ids, StartTag, Linked;
    var text := "\r\n" + ElemText(name, value) + "\r\n";
    var ins, q := OpenedBy(parentName, text), a[top].startR + 2;
    SoundFresh(doc, a, free, f, strict);
    InsertedIds(f, top, 0, free, Nil, r, p);
    DocChanged(doc, a[top].endL, 1, ins);
    OpenedSlice(doc', a[top].endL, parentName, ElemText(name, value));
    Written(doc', q, name, value, e, strict);
    OpenedZero(doc, a, a2, free, f, top, strict);
    SoundInsertOpened(doc, doc', a, a2, b, free, f, top, free, r, p, parentName, text, strict);
    ShiftNew(f, top, 0, free, Nil, r, p, a2, |ins| - 1);
    AddedParents(doc, a, a2, f, free, top, 0, Ahead(Nil, Nil, Inside(top, r, p)), PathAnc(Inside(top, r, p)), |ins| - 1,
                 strict);
  }

  lemma OpenedSlice(doc: string, x: nat, parentName: string, elem: string)
    requires var ins := OpenedBy(parentName, "\r\n" + elem + "\r\n"); x + |ins| <= |doc| && doc[x..x + |ins|] == ins
    ensures |OpenedBy(parentName, "\r\n" + elem + "\r\n")| == |elem| + |parentName| + 7
    ensures doc[x + 3..x + 3 + |elem|] == elem
  {
    var ins := OpenedBy(parentName, "\r\n" + elem + "\r\n");
    SubSlice(doc, x, x + |ins|, 3, 3 + |elem|);
    assert ins[3..3 + |elem|] == elem;
  }

  lemma OpenedZero(doc: string, a: seq<ElemPos>, a2: seq<ElemPos>, free: nat, f: Forest, top: nat, strict: bool)
    requires Sound(doc, a, free, f, strict) && SameOffsetsBut(a, a2, top, free) && top != 0
    ensures a2[0].startL == 0 && a2[0].startR == 0 && SameOffsets(a, a2, Ids(f) - {top})
  {
    hide Laid, Linked;
  }

  lemma RootDone(doc: string, doc': string, a: seq<ElemPos>, a2: seq<ElemPos>, b: seq<ElemPos>, free: nat, q: nat,
                 name: string, value: string, e: ElemPos, strict: bool)
    requires Sound(doc, a, free, Nil, strict) && LinkedIn(a, a2, 0, 0, free) && OffsetsBut(a, a2, free) &&
             NameOk(name) && q <= |doc|
    requires a2[free] == ElemAt(q, name, value, e) && doc' == DocChange(doc, q, 0, ElemText(name, value) + "\r\n")
    requires b == Shift(a2, Ahead(Nil, Nil, Top), PathAnc(Top), |ElemText(name, value)| + 2)
    ensures Sound(doc', b, free + 1, Cons(free, Nil, Nil), strict) &&
            Added(doc', a, b, Nil, free, 0, name, value, strict)
    ensures AddedText(doc, a, 0, doc', b[free].startL, name, value) && b[free].startL == q
  {
    hide DocChange, ElemOk, ElemText, NameOk;
    var ins := ElemText(name, value) + "\r\n";
    DocChanged(doc, q, 0, ins);
    SubSlice(doc', q, q + |ins|, 0, |ElemText(name, value)|);
    assert ins[0..|ElemText(name, value)|] == ElemText(name, value);
    Written(doc', q, name, value, e, strict);
    SlotZero(doc, a, a2, free, Nil, strict);
    assert Ahead(Nil, Nil, Top) == {} && PathAnc(Top) == {0};
    SoundRoot(doc, doc', a, a2, b, free, free, q, ins, strict);
  }

  lemma SoundRootLink(doc: string, a: seq<ElemPos>, free: nat, f: Forest, strict: bool)
    requires Sound(doc, a, free, f, strict)
    ensures 2 <= |a| && (a[0].child == 0 <==> f == Nil)
  {
    hide Laid;
  }

  /** Slot 0 keeps no offset that the document depends on. */
  lemma RootEnd(doc: string, a: seq<ElemPos>, free: nat, strict: bool, x: int)
    requires Sound(doc, a, free, Nil, strict)
    ensures Sound(doc, a[0 := a[0].(endL := x)], free, Nil, strict)
  {
  }

  lemma InKids(doc: string, a: seq<ElemPos>, free: nat, f: Forest, t: nat, strict: bool)
    requires Sound(doc, a, free, f, strict) && t in Ids(f) && t < |a|
    ensures a[t].parent == 0 || a[t].parent in Ids(f)
    ensures t in TopIds(Kids(f, a[t].parent))
  {
    hide Laid;
    InParent(a, f, t, a[0].child, Top);
  }

  lemma ChildlessAt(doc: string, a: seq<ElemPos>, free: nat, f: Forest, t: nat, strict: bool)
    requires Sound(doc, a, free, f, strict) && t in Ids(f) && t < |a| && a[t].child == 0
    ensures var (k, r, p) := Find(f, t, Top);
      k == Nil && Cursor(a, t, true, Nil, r, p) && ElemOk(doc, a[t], strict) && Bounded(doc, a[t])
  {
    hide Laid, TagsOk;
    SoundAt(doc, a, free, f, t, strict);
  }
}
