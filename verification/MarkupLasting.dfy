/** Which parsed documents any sequence of edits leaves in step with their text, exactly, and what breaks the others. */
module MarkupLasting {
  import opened MarkupText
  import opened MarkupArena
  import opened MarkupLayout
  import opened MarkupEdits
  import opened MarkupTags
  import opened MarkupState
  import opened MarkupWrite
  import opened MarkupData
  import opened MarkupParse
  import opened MarkupGrammar
  import opened MarkupTidy
  import opened MarkupReread

  // ---- an empty element whose tag is not firm ----

  lemma {:induction false} SpansExact(doc: string, a: seq<ElemPos>, f: Forest, t: nat, lo: nat, hi: nat)
    requires Tidy(doc, TreesOf(a, f), lo, hi) && t in Ids(f)
    ensures t < |a| && Exact(doc, SpanOf(a[t]))
  {
    hide Gap, Exact;
    var s := SpanOf(if f.elem < |a| then a[f.elem] else CLEARED);
    ExactLong(doc, s);
    if s.IsEmpty() { NoSlots(a, f.kids); }
    if t == f.elem {
    } else if t in Ids(f.kids) {
      SpansExact(doc, a, f.kids, t, s.startR + 1, s.endL);
    } else {
      SpansExact(doc, a, f.rest, t, s.endR + 1, hi);
    }
  }

  lemma ExactLong(doc: string, s: Span)
    requires Exact(doc, s)
    ensures 0 <= s.startL < s.startR <= s.endR < |doc| && (!s.IsEmpty() ==> s.startR < s.endL)
  {
    hide OpensAt, EndFrom, EndTagStarts;
  }

  lemma NoSlots(a: seq<ElemPos>, f: Forest)
    requires TreesOf(a, f) == Leaf
    ensures Ids(f) == {}
  {
  }

  /** What reads back as indexed has each element's tags where the index has them. */
  lemma ReadExact(doc: string, a: seq<ElemPos>, f: Forest, t: nat)
    requires SameElements(doc, a, f) && t in Ids(f)
    ensures t < |a| && Exact(doc, SpanOf(a[t]))
  {
    hide ParseOne, Gap, Exact, Tidy;
    OneTidy(doc, 0);
    var e := a[f.elem];
    ExactLong(doc, SpanOf(e));
    if SpanOf(e).IsEmpty() { NoSlots(a, f.kids); }
    if t != f.elem { SpansExact(doc, a, f.kids, t, e.startR + 1, e.endL); }
  }

  /** Split in two, an empty element that is not firm is not what the parser finds there. */
  lemma OpenedInexact(doc: string, doc': string, e: ElemPos, name: string, text: string)
    requires Exact(doc, SpanOf(e)) && e.IsEmptyElement() && !Firm(doc, SpanOf(e)) && name == NameAt(doc, e.startL)
    requires doc' == DocChange(doc, e.endL, 1, OpenedBy(name, text))
    ensures !Exact(doc', SpanOf(Opened(e, name, text)))
  {
    hide OpensAt, EndFrom, EndTagStarts, DocChange, TokenAt;
    EmptyOpens(doc, e);
    DocChanged(doc, e.endL, 1, OpenedBy(name, text));
    if doc[e.endL - 1] == '/' {
      assert doc'[e.endL - 1] == '/';
    } else {
      GtName(doc, e);
      var z := e.endL + 1 + |text|;
      GtClosed(doc', e.endL, text);
      GtEnd(doc', z, NameAt(doc', e.startL));
    }
  }

  lemma EmptyOpens(doc: string, e: ElemPos)
    requires Exact(doc, SpanOf(e)) && e.IsEmptyElement()
    ensures 0 <= e.startL && e.startL + 3 <= e.startR < |doc| && e.endR == e.startR && e.endL == e.startR - 1
    ensures var t := TokenAt(doc, e.startL + 1); t.found && !t.isString && t.l < |doc| && doc[e.endL] == '/'
    ensures !Firm(doc, SpanOf(e)) ==> doc[e.endL - 1] == '/' || doc[TokenAt(doc, e.startL + 1).l] == '>'
  {
    hide Scan;
    var t := TokenAt(doc, e.startL + 1);
  }

  lemma GtName(doc: string, e: ElemPos)
    requires 0 <= e.startL < |doc|
    requires var t := TokenAt(doc, e.startL + 1); t.found && !t.isString && t.l < |doc| && doc[t.l] == '>'
    ensures NameAt(doc, e.startL) == ">"
  {
    hide Scan;
    GtSingle(doc, e.startL + 1);
  }

  /** The text around the end tag of an element named '>'. */
  lemma GtClosed(doc: string, x: nat, text: string)
    requires x + |OpenedBy(">", text)| <= |doc| && doc[x..x + |OpenedBy(">", text)|] == OpenedBy(">", text)
    ensures var z := x + 1 + |text|; z + 2 < |doc| && doc[z] == '<' && doc[z + 1] == '/' && doc[z + 2] == '>'
  {
    SliceIs(doc, x, OpenedBy(">", text));
  }

  /** The end tag of an element named '>' is read up to its first '>'. */
  lemma GtEnd(doc: string, z: nat, name: string)
    requires z + 2 < |doc| && doc[z] == '<' && doc[z + 1] == '/' && doc[z + 2] == '>'
    ensures EndFrom(doc, z + 1, 0, name) == z + 2 || EndFrom(doc, z + 1, 0, name) == |doc|
  {
    hide Match, TokenAt, In, IsSpace;
    TagEnders();
    TokenOne(doc, z + 1);
    TokenOne(doc, z + 2);
    assert EndFrom(doc, z + 1, 0, name) == EndFrom(doc, z + 2, 1, name);
  }

  // ---- edits of the text and its index ----

  /** The text, the arena with its first free slot, and the elements. */
  datatype Index = Index(doc: string, a: seq<ElemPos>, free: nat, f: Forest)

  ghost predicate Held(x: Index, strict: bool) { Sound(x.doc, x.a, x.free, x.f, strict) }

  /** Parsing the text gives the indexed elements. */
  ghost predicate Reads(x: Index) { SameElements(x.doc, x.a, x.f) }

  ghost predicate AllRead(x: Index) { Whole(x.doc, x.a, x.f) }

  /** x_SetAttrib, x_SetData, x_AddElem below or beside an element, and x_RemoveElem. */
  datatype Edit =
    | Retag(t: nat, attr: string, value: string)
    | Refill(t: nat, data: string, cdata: bool)
    | Adopt(top: nat, rel: nat, insert: bool, name: string, value: string)
    | Drop(t: nat)

  /** `y` is what the edit makes of `x`. */
  ghost predicate Makes(x: Index, ed: Edit, y: Index) {
    match ed
    case Retag(t, attr, value) => Retags(x, t, attr, value, y)
    case Refill(t, data, cdata) => Fills(x, t, data, cdata, y) || Splits(x, t, data, cdata, y)
    case Adopt(top, rel, insert, name, value) =>
      if top == 0 then
        x.f == Nil && rel == 0 && (insert ==> x.doc != "") && Roots(x, RootAt(x.doc, insert), name, value, y)
      else
        AdoptsSplit(x, top, name, value, y) ||
        exists before: nat :: AdoptsAt(x, top, rel, insert, before, name, value, y)
    case Drop(t) => exists prev: nat, a2: seq<ElemPos> :: Cuts(x, t, prev, a2, y)
  }

  ghost predicate Retags(x: Index, t: nat, attr: string, value: string, y: Index) {
    t in Ids(x.f) && t < |x.a| && NameOk(attr) && y.free == x.free && y.f == x.f &&
    var n := |y.doc| - |x.doc|;
    var (k, r, p) := Find(x.f, t, Top);
    Retagging(x.doc, x.a[t], y.doc, attr, value, n) &&
    y.a == Shift(x.a[t := Retagged(x.a[t], n)], Ahead(k, r, p), PathAnc(p), n)
  }

  /** Data between the two tags of an element. */
  ghost predicate Fills(x: Index, t: nat, data: string, cdata: bool, y: Index) {
    t in Ids(x.f) && t < |x.a| && Bounded(x.doc, x.a[t]) && !x.a[t].IsEmptyElement() && y.free == x.free &&
    y.f == x.f &&
    var e := x.a[t];
    var (k, r, p) := Find(x.f, t, Top);
    var n := |Content(data, cdata)| - (e.endL - e.startR - 1);
    var s := Shift(x.a, Ahead(Nil, r, p), PathAnc(p), n);
    k == Nil && y.doc == DocChange(x.doc, e.startR + 1, e.endL - e.startR - 1, Content(data, cdata)) &&
    y.a == s[t := s[t].AdjustEnd(n)]
  }

  /** The record of an empty element before x_Adjust, when its tag is split. */
  function PreSplit(e: ElemPos, name: string): ElemPos {
    e.(startR := e.startR - 1, endL := e.endL - (1 + |name|))
  }

  /** Data in an empty element, which is split. */
  ghost predicate Splits(x: Index, t: nat, data: string, cdata: bool, y: Index) {
    t in Ids(x.f) && t < |x.a| && Bounded(x.doc, x.a[t]) && x.a[t].IsEmptyElement() && y.free == x.free && y.f == x.f &&
    var name := TagName(StartTag(x.doc, x.a[t]));
    var (k, r, p) := Find(x.f, t, Top);
    var ins := OpenedBy(name, Content(data, cdata));
    var s := Shift(x.a[t := PreSplit(x.a[t], name)], Ahead(Nil, r, p), PathAnc(p), |ins| - 1);
    k == Nil && y.doc == DocChange(x.doc, x.a[t].endL, 1, ins) && y.a == s[t := s[t].AdjustEnd(|ins| - 1)]
  }

  function RootAt(doc: string, insert: bool): nat
    requires insert ==> doc != ""
  {
    NextNode(doc, if insert then 1 else |doc|)
  }

  /** A root at `q`. */
  ghost predicate Roots(x: Index, q: nat, name: string, value: string, y: Index) {
    exists a2: seq<ElemPos>, e: ElemPos :: RootsBy(x, q, name, value, a2, e, y)
  }

  ghost predicate RootsBy(x: Index, q: nat, name: string, value: string, a2: seq<ElemPos>, e: ElemPos, y: Index) {
    x.f == Nil && |x.a| > 0 && q <= |x.doc| && NameOk(name) && y.free == x.free + 1 && y.f == Cons(x.free, Nil, Nil) &&
    var a := x.a[0 := x.a[0].(endL := |x.doc|)];
    LinkedIn(a, a2, 0, 0, x.free) && OffsetsBut(a, a2, x.free) && a2[x.free] == ElemAt(q, name, value, e) &&
    y.doc == DocChange(x.doc, q, 0, ElemText(name, value) + "\r\n") &&
    y.a == Shift(a2, Ahead(Nil, Nil, Top), PathAnc(Top), |ElemText(name, value)| + 2)
  }

  /** A child where x_LocateNew puts it, after its sibling `before`. */
  ghost predicate AdoptsAt(x: Index, top: nat, rel: nat, insert: bool, before: nat, name: string, value: string,
                           y: Index) {
    top in Ids(x.f) && top < |x.a| && rel < |x.a| && !x.a[top].IsEmptyElement() &&
    Placed(Kids(x.f, top), rel, insert, before) && 0 <= PlaceAt(x.a, top, rel, insert) <= |x.doc| &&
    Adopts(x, top, before, NextNode(x.doc, PlaceAt(x.a, top, rel, insert)), name, value, y)
  }

  ghost predicate Adopts(x: Index, top: nat, before: nat, q: nat, name: string, value: string, y: Index) {
    exists a2: seq<ElemPos>, e: ElemPos :: AdoptsBy(x, top, before, q, name, value, a2, e, y)
  }

  ghost predicate AdoptsBy(x: Index, top: nat, before: nat, q: nat, name: string, value: string, a2: seq<ElemPos>,
                           e: ElemPos, y: Index) {
    top in Ids(x.f) && top != 0 && q <= |x.doc| && NameOk(name) && y.free == x.free + 1 &&
    y.f == WithChild(x.f, top, before, x.free) &&
    var (k, r, p) := Find(x.f, top, Top);
    LinkedIn(x.a, a2, top, before, x.free) && OffsetsBut(x.a, a2, x.free) && a2[x.free] == ElemAt(q, name, value, e) &&
    y.doc == DocChange(x.doc, q, 0, ElemText(name, value) + "\r\n") &&
    y.a == Shift(a2, Ahead(Nil, Past(k, before), Inside(top, r, p)), PathAnc(Inside(top, r, p)),
                 |ElemText(name, value)| + 2)
  }

  /** A child of an empty element, which is split. */
  ghost predicate AdoptsSplit(x: Index, top: nat, name: string, value: string, y: Index) {
    exists a2: seq<ElemPos>, e: ElemPos :: AdoptsSplitBy(x, top, name, value, a2, e, y)
  }

  ghost predicate AdoptsSplitBy(x: Index, top: nat, name: string, value: string, a2: seq<ElemPos>, e: ElemPos, y: Index)
  {
    top in Ids(x.f) && top != 0 && top < |x.a| && Bounded(x.doc, x.a[top]) && x.a[top].IsEmptyElement() &&
    NameOk(name) &&
    y.free == x.free + 1 && y.f == WithChild(x.f, top, 0, x.free) &&
    var parentName := TagName(StartTag(x.doc, x.a[top]));
    var (k, r, p) := Find(x.f, top, Top);
    var ins := OpenedBy(parentName, "\r\n" + ElemText(name, value) + "\r\n");
    k == Nil && LinkedIn(x.a, a2, top, 0, x.free) && SameOffsetsBut(x.a, a2, top, x.free) &&
    a2[x.free] == ElemAt(x.a[top].startR + 2, name, value, e) &&
    MovedBy(PreSplit(x.a[top], parentName), a2[top], 0, 0) &&
    y.doc == DocChange(x.doc, x.a[top].endL, 1, ins) &&
    y.a == Shift(a2, Ahead(Nil, Nil, Inside(top, r, p)), PathAnc(Inside(top, r, p)), |ins| - 1)
  }

  ghost predicate Cuts(x: Index, t: nat, prev: nat, a2: seq<ElemPos>, y: Index) {
    t in Ids(x.f) && t < |x.a| && Bounded(x.doc, x.a[t]) && y.free == x.free &&
    var top := x.a[t].parent;
    Without(x.f, top, prev, t, y.f) && RemovedAt(x.doc, x.a, t, y.doc) &&
    LinkedOut(x.a, a2, top, prev, t) && OffsetsBut(x.a, a2, |x.a|) &&
    var n := x.a[t].startL - NextNode(x.doc, x.a[t].endR + 1);
    if top == 0 then y.a == Shift(a2, Ahead(Nil, Past(x.f, prev).rest, Top), PathAnc(Top), n)
    else
      var (k, r, p) := Find(x.f, top, Top);
      y.a == Shift(a2, Ahead(Nil, Past(k, prev).rest, Inside(top, r, p)), PathAnc(Inside(top, r, p)), n)
  }

  /** InsertElem at the root of a document without elements that begins with '<'. */
  ghost predicate Misplaces(x: Index, ed: Edit) {
    ed.Adopt? && ed.top == 0 && InsideFirst(x.doc, ed.insert && x.f == Nil)
  }

  lemma RetagSize(doc: string, e: ElemPos, doc': string, attr: string, value: string, n: int, strict: bool)
    requires ElemOk(doc, e, strict) && CleanTag(StartTag(doc, e))
    requires var s := AttribTag(StartTag(doc, e), e.IsEmptyElement(), attr, value);
      doc' == DocChange(doc, e.startL, |StartTag(doc, e)|, s) && n == |s| - |StartTag(doc, e)|
    ensures n == |doc'| - |doc| && Retagging(doc, e, doc', attr, value, n)
  {
    hide TagsOk, AttribTag, CleanTag;
  }

  lemma RetagMade(doc: string, doc': string, a: seq<ElemPos>, b: seq<ElemPos>, free: nat, f: Forest, t: nat,
                  attr: string, value: string, k: Forest, r: Forest, p: Path, n: int)
    requires t in Ids(f) && t < |a| && NameOk(attr) && Retagging(doc, a[t], doc', attr, value, n) && n == |doc'| - |doc|
    requires Find(f, t, Top) == (k, r, p) && b == Shift(a[t := Retagged(a[t], n)], Ahead(k, r, p), PathAnc(p), n)
    ensures Makes(Index(doc, a, free, f), Retag(t, attr, value), Index(doc', b, free, f))
  {
    hide Retagging, Find, Shift, Ahead, PathAnc, NameOk, Ids;
  }

  lemma SplitMade(doc: string, doc': string, a: seq<ElemPos>, b: seq<ElemPos>, free: nat, f: Forest, t: nat,
                  data: string, cdata: bool, name: string, e: ElemPos, r: Forest, p: Path)
    requires t in Ids(f) && t < |a| && Bounded(doc, a[t]) && a[t].IsEmptyElement() && Find(f, t, Top) == (Nil, r, p)
    requires name == TagName(StartTag(doc, a[t])) && e == PreSplit(a[t], name)
    requires doc' == DocChange(doc, a[t].endL, 1, OpenedBy(name, Content(data, cdata)))
    requires var n := |OpenedBy(name, Content(data, cdata))| - 1;
      var s := Shift(a[t := e], Ahead(Nil, r, p), PathAnc(p), n);
      b == s[t := s[t].AdjustEnd(n)]
    ensures Splits(Index(doc, a, free, f), t, data, cdata, Index(doc', b, free, f))
  {
    hide Find, Shift, Ahead, PathAnc, Ids, DocChange, OpenedBy, Content, TagName;
  }

  lemma CutMade(doc: string, doc': string, a: seq<ElemPos>, a2: seq<ElemPos>, b: seq<ElemPos>, free: nat, f: Forest,
                top: nat, prev: nat, t: nat, g: Forest, k: Forest, r: Forest, p: Path)
    requires t in Ids(f) && t < |a| && Bounded(doc, a[t]) && a[t].parent == top && top != 0 && top in Ids(f)
    requires Without(f, top, prev, t, g) && RemovedAt(doc, a, t, doc') && Find(f, top, Top) == (k, r, p)
    requires LinkedOut(a, a2, top, prev, t) && OffsetsBut(a, a2, |a|)
    requires b == Shift(a2, Ahead(Nil, Past(k, prev).rest, Inside(top, r, p)), PathAnc(Inside(top, r, p)),
                        a[t].startL - NextNode(doc, a[t].endR + 1))
    ensures Makes(Index(doc, a, free, f), Drop(t), Index(doc', b, free, g))
  {
    hide Without, RemovedAt, Find, Shift, Ahead, PathAnc, LinkedOut, OffsetsBut, NextNode, Past, Ids;
    assert Cuts(Index(doc, a, free, f), t, prev, a2, Index(doc', b, free, g));
  }

  // ---- what an edit keeps ----

  lemma RetagKeeps(x: Index, t: nat, attr: string, value: string, y: Index, strict: bool)
    requires Held(x, strict) && Retags(x, t, attr, value, y)
    ensures Held(y, strict) && (AllRead(x) ==> AllRead(y))
  {
    hide Sound, Whole, Shift, Ahead, PathAnc, Find, Retagging, NameOk, Ids, Attributed, ElemOk, TagFor, ParentsKept;
    var n := |y.doc| - |x.doc|;
    var (k, r, p) := Find(x.f, t, Top);
    SoundAt(x.doc, x.a, x.free, x.f, t, strict);
    AttribSet(x.doc, y.doc, x.a, y.a, x.free, x.f, t, attr, value, k, r, p, n, strict);
  }

  lemma FillKeeps(x: Index, t: nat, data: string, cdata: bool, y: Index, strict: bool)
    requires Held(x, strict) && Fills(x, t, data, cdata, y)
    ensures Held(y, strict) && (AllRead(x) ==> AllRead(y))
  {
    hide Sound, Whole, Shift, Ahead, PathAnc, Find, Ids, ElemOk, ParentsKept, DataSet, Content, DocChange;
    var e := x.a[t];
    var (k, r, p) := Find(x.f, t, Top);
    SoundAt(x.doc, x.a, x.free, x.f, t, strict);
    ContentSet(x.doc, y.doc, x.a, y.a, x.free, x.f, t, data, cdata, r, p,
               |Content(data, cdata)| - (e.endL - e.startR - 1), strict);
  }

  lemma SplitKeeps(x: Index, t: nat, data: string, cdata: bool, y: Index, strict: bool)
    requires Held(x, strict) && Splits(x, t, data, cdata, y)
    ensures Held(y, strict) && (AllRead(x) ==> AllRead(y))
  {
    hide Sound, Whole, Shift, Ahead, PathAnc, Find, Ids, ElemOk, ParentsKept, DataSet, Content, DocChange, OpenedBy,
         TagName;
    var name := TagName(StartTag(x.doc, x.a[t]));
    var (k, r, p) := Find(x.f, t, Top);
    SoundAt(x.doc, x.a, x.free, x.f, t, strict);
    OpenedSet(x.doc, y.doc, x.a, y.a, x.free, x.f, t, data, cdata, name, PreSplit(x.a[t], name), r, p, strict);
  }

  lemma RootKeeps(x: Index, insert: bool, name: string, value: string, y: Index, strict: bool)
    requires Held(x, strict) && (insert ==> x.doc != "") && Roots(x, RootAt(x.doc, insert), name, value, y)
    ensures Held(y, strict) && (AllRead(x) && !InsideFirst(x.doc, insert) ==> AllRead(y))
  {
    hide Sound, Shift, LinkedIn, OffsetsBut, ElemText, ElemAt, NameOk, DocChange, NextNode, Gap, TidyIn, Added,
         AddedText;
    var q := RootAt(x.doc, insert);
    var a2, e :| RootsBy(x, q, name, value, a2, e, y);
    var a := x.a[0 := x.a[0].(endL := |x.doc|)];
    RootEnd(x.doc, x.a, x.free, strict, |x.doc|);
    RootDone(x.doc, y.doc, a, a2, y.a, x.free, q, name, value, e, strict);
    if AllRead(x) && !InsideFirst(x.doc, insert) {
      WholeGap(x.doc, x.a);
      RootGaps(x.doc, insert);
      TidyRoot(x.doc, y.doc, a, a2, y.a, x.free, q, name, value, e, strict);
    }
  }

  lemma AdoptKeeps(x: Index, top: nat, rel: nat, insert: bool, before: nat, name: string, value: string, y: Index,
                   strict: bool)
    requires Held(x, strict) && AdoptsAt(x, top, rel, insert, before, name, value, y)
    ensures Held(y, strict) && (AllRead(x) ==> AllRead(y))
  {
    hide Sound, Shift, Ahead, PathAnc, Find, Ids, LinkedIn, OffsetsBut, ElemText, ElemAt, NameOk, DocChange, NextNode,
         Past, Upto, Laid, TidyIn, NewChild, PlaceAt;
    var q := NextNode(x.doc, PlaceAt(x.a, top, rel, insert));
    var a2, e :| AdoptsBy(x, top, before, q, name, value, a2, e, y);
    var (k, r, p) := Find(x.f, top, Top);
    LocatedRight(x.doc, x.a, x.free, x.f, top, rel, insert, before, strict);
    var whole := AllRead(x);
    if whole { TidyLocated(x.doc, x.a, x.free, x.f, top, rel, insert, before, strict); }
    InsertedBelow(x.doc, y.doc, x.a, a2, y.a, x.free, x.f, top, before, k, r, p, q, name, value, e, strict, whole);
  }

  lemma AdoptSplitKeeps(x: Index, top: nat, name: string, value: string, y: Index, strict: bool)
    requires Held(x, strict) && AdoptsSplit(x, top, name, value, y)
    ensures Held(y, strict) && (AllRead(x) ==> AllRead(y))
  {
    hide Sound, Whole, Shift, Ahead, PathAnc, Find, Ids, LinkedIn, SameOffsetsBut, ElemText, ElemAt, NameOk, DocChange,
         OpenedBy, TagName, NewChild, ElemOk, WithChild;
    var a2, e :| AdoptsSplitBy(x, top, name, value, a2, e, y);
    var parentName := TagName(StartTag(x.doc, x.a[top]));
    var (k, r, p) := Find(x.f, top, Top);
    SoundAt(x.doc, x.a, x.free, x.f, top, strict);
    InsertedOpened(x.doc, y.doc, x.a, a2, y.a, x.free, x.f, top, r, p, parentName, name, value, e, strict, AllRead(x));
  }

  lemma CutKeeps(x: Index, t: nat, prev: nat, a2: seq<ElemPos>, y: Index, strict: bool)
    requires Held(x, strict) && Cuts(x, t, prev, a2, y)
    ensures Held(y, strict) && (AllRead(x) ==> AllRead(y))
  {
    hide Sound, Whole, Shift, Ahead, PathAnc, Find, Ids, LinkedOut, OffsetsBut, DocChange, NextNode, Past, ElemOk,
         ParentsKept, IsPlace, Remove;
    var top := x.a[t].parent;
    SoundAt(x.doc, x.a, x.free, x.f, t, strict);
    if top == 0 {
      RemovedTop(x.doc, y.doc, x.a, a2, y.a, x.free, x.f, prev, t, strict);
    } else {
      var (k, r, p) := Find(x.f, top, Top);
      SoundAt(x.doc, x.a, x.free, x.f, top, strict);
      RemovedBelow(x.doc, y.doc, x.a, a2, y.a, x.free, x.f, top, prev, t, k, r, p, strict);
    }
  }

  /**
   An edit keeps the invariant, and a whole document whole unless it misplaces a root; then that does not read back.
   */
  lemma EditKeeps(x: Index, ed: Edit, y: Index, strict: bool)
    requires Held(x, strict) && Makes(x, ed, y)
    ensures Held(y, strict) && (AllRead(x) && !Misplaces(x, ed) ==> AllRead(y))
    ensures AllRead(x) && Misplaces(x, ed) ==> !Reads(y)
  {
    hide Held, AllRead, Reads, Retags, Fills, Splits, Roots, AdoptsAt, AdoptsSplit, Cuts, RootAt;
    match ed
    case Retag(t, attr, value) => RetagKeeps(x, t, attr, value, y, strict);
    case Refill(t, data, cdata) =>
      if Fills(x, t, data, cdata, y) { FillKeeps(x, t, data, cdata, y, strict); }
      else { SplitKeeps(x, t, data, cdata, y, strict); }
    case Adopt(top, rel, insert, name, value) =>
      if top == 0 {
        RootKeeps(x, insert, name, value, y, strict);
        if AllRead(x) { MisplacedExactly(x, insert, name, value, y, strict); }
      } else if before: nat :| AdoptsAt(x, top, rel, insert, before, name, value, y) {
        AdoptKeeps(x, top, rel, insert, before, name, value, y, strict);
      } else {
        AdoptSplitKeeps(x, top, name, value, y, strict);
      }
    case Drop(t) =>
      var prev: nat, a2: seq<ElemPos> :| Cuts(x, t, prev, a2, y);
      CutKeeps(x, t, prev, a2, y, strict);
  }

  // ---- what an edit loses ----

  /** Data put into an empty element that is not firm: the parser does not find the element where it is indexed. */
  lemma SplitLoses(x: Index, t: nat, data: string, cdata: bool, y: Index, strict: bool)
    requires Held(x, strict) && Reads(x) && Splits(x, t, data, cdata, y) && !Firm(x.doc, SpanOf(x.a[t]))
    ensures !Reads(y)
  {
    hide Sound, SameElements, Shift, Ahead, PathAnc, Find, Ids, ElemOk, Content, DocChange, OpenedBy, TagName, UniqIn,
         Exact, Firm, Opened;
    var e := x.a[t];
    var name, text := TagName(StartTag(x.doc, e)), Content(data, cdata);
    var (k, r, p) := Find(x.f, t, Top);
    var n := |text| + 2 + |name|;
    OpenedSize(name, text);
    SoundFresh(x.doc, x.a, x.free, x.f, strict);
    ShiftAround(x.f, t, x.a[t := PreSplit(e, name)], PreSplit(e, name).AdjustEnd(n), Nil, r, p, n);
    OpenedRecord(x.a, t, PreSplit(e, name), name, text, n);
    ReadExact(x.doc, x.a, x.f, t);
    ExactName(x.doc, e);
    OpenedInexact(x.doc, y.doc, e, name, text);
    if Reads(y) { ReadExact(y.doc, y.a, y.f, t); }
  }

  lemma ExactName(doc: string, e: ElemPos)
    requires Bounded(doc, e) && Exact(doc, SpanOf(e))
    ensures TagName(StartTag(doc, e)) == NameAt(doc, e.startL)
  {
    hide OpensAt, EndFrom, EndTagStarts, NameAt, TagName, StartTagOk;
    OpenedTagOk(doc, e.startL, e.startR);
  }

  /** The same for a child put into such an element. */
  lemma AdoptSplitLoses(x: Index, top: nat, name: string, value: string, y: Index, strict: bool)
    requires Held(x, strict) && Reads(x) && AdoptsSplit(x, top, name, value, y) && !Firm(x.doc, SpanOf(x.a[top]))
    ensures !Reads(y)
  {
    hide Sound, SameElements, Shift, Ahead, PathAnc, Find, LinkedIn, SameOffsetsBut, ElemText, ElemAt, NameOk,
         DocChange, OpenedBy, TagName, ElemOk, Exact, Firm, Opened;
    var a2, e :| AdoptsSplitBy(x, top, name, value, a2, e, y);
    var parentName := TagName(StartTag(x.doc, x.a[top]));
    var text := "\r\n" + ElemText(name, value) + "\r\n";
    OpenedSize(parentName, text);
    SplitRecord(x, top, name, value, a2, e, y, strict);
    ReadExact(x.doc, x.a, x.f, top);
    ExactName(x.doc, x.a[top]);
    OpenedInexact(x.doc, y.doc, x.a[top], parentName, text);
    if Reads(y) { ReadExact(y.doc, y.a, y.f, top); }
  }

  lemma SplitRecord(x: Index, top: nat, name: string, value: string, a2: seq<ElemPos>, e: ElemPos, y: Index,
                    strict: bool)
    requires Held(x, strict) && AdoptsSplitBy(x, top, name, value, a2, e, y)
    ensures top < |y.a| && top in Ids(y.f)
    ensures var text := "\r\n" + ElemText(name, value) + "\r\n";
      SpanOf(y.a[top]) == SpanOf(Opened(x.a[top], TagName(StartTag(x.doc, x.a[top])), text))
  {
    hide Sound, UniqIn, Find, Shift, Ahead, PathAnc, RepairedBut, Moved, Ids, SameLinks, TopIds, Insert, ElemText,
         ElemAt, NameOk, ReplaceKids, LinkedIn, SameOffsets, SameOffsetsBut, OpenedBy, TagName, Upto, Past, DocChange;
    var parentName := TagName(StartTag(x.doc, x.a[top]));
    var text := "\r\n" + ElemText(name, value) + "\r\n";
    var (k, r, p) := Find(x.f, top, Top);
    OpenedSize(parentName, text);
    SoundFresh(x.doc, x.a, x.free, x.f, strict);
    NewSlot(x.a, a2, top, 0, x.free);
    OpenedZero(x.doc, x.a, a2, x.free, x.f, top, strict);
    PlaceNone();
    InsertShift(x.doc, x.a, a2, y.a, x.free, x.f, top, 0, x.free, Nil, r, p, |text| + 2 + |parentName|, strict);
  }

  /** What slot 0 says about the end of the text does not matter to a new root. */
  lemma RootsBefore(x: Index, x': Index, q: nat, name: string, value: string, y: Index)
    requires Roots(x', q, name, value, y) && |x.a| > 0 && x' == x.(a := x.a[0 := x.a[0].(endL := |x.doc|)])
    ensures Roots(x, q, name, value, y)
  {
    hide Shift, LinkedIn, OffsetsBut, ElemText, ElemAt, NameOk, DocChange;
    var a2, e :| RootsBy(x', q, name, value, a2, e, y);
    assert x'.a[0 := x'.a[0].(endL := |x.doc|)] == x'.a;
    assert RootsBy(x, q, name, value, a2, e, y);
  }

  /** A new root reads back exactly if there is no element in the text before it. */
  lemma RootReads(x: Index, q: nat, name: string, value: string, y: Index, strict: bool)
    requires Held(x, strict) && Roots(x, q, name, value, y)
    ensures q <= |x.doc| && (Reads(y) <==> Gap(x.doc, 0, q))
  {
    hide Sound, Shift, OffsetsBut, ElemText, ElemAt, NameOk, DocChange, Gap, Exact, ParseOne, SameText, TidyLeaf;
    var a2, e :| RootsBy(x, q, name, value, a2, e, y);
    var n := |ElemText(name, value)| + 2;
    SoundFresh(x.doc, x.a, x.free, x.f, strict);
    ShiftOne(a2, {}, {0}, n, x.free);
    DocChanged(x.doc, q, 0, ElemText(name, value) + "\r\n");
    WrittenLine(y.doc, q, name, value, e);
    LeafExact(y.doc, y.a[x.free]);
    if Reads(y) {
      OneTidy(y.doc, 0);
      GapSame(y.doc, x.doc, q);
    } else if Gap(x.doc, 0, q) {
      GapSame(x.doc, y.doc, q);
      TidyOne(y.doc, SpanOf(y.a[x.free]), Leaf, 0);
    }
  }

  /**
   A whole document without elements takes a root that reads back, unless it begins with '<' and the root is inserted.
   */
  lemma MisplacedExactly(x: Index, insert: bool, name: string, value: string, y: Index, strict: bool)
    requires Held(x, strict) && AllRead(x) && (insert ==> x.doc != "")
    requires Roots(x, RootAt(x.doc, insert), name, value, y)
    ensures Reads(y) <==> !InsideFirst(x.doc, insert)
  {
    hide Held, Roots, Gap, NextNode, SameElements, TidyIn;
    NoElements(x, RootAt(x.doc, insert), name, value, y);
    RootReads(x, RootAt(x.doc, insert), name, value, y, strict);
    WholeGap(x.doc, x.a);
    if InsideFirst(x.doc, insert) { InsideFirstAt(x.doc); } else { RootGaps(x.doc, insert); }
  }

  lemma NoElements(x: Index, q: nat, name: string, value: string, y: Index)
    requires Roots(x, q, name, value, y)
    ensures x.f == Nil
  {
    hide Shift, LinkedIn, OffsetsBut, ElemText, ElemAt, NameOk, DocChange;
  }

  lemma GapSame(doc: string, doc': string, q: nat)
    requires q <= |doc| && q <= |doc'| && Gap(doc, 0, q) &&
             (SameText(doc, doc', 0, q, 0) || SameText(doc', doc, 0, q, 0))
    ensures Gap(doc', 0, q)
  {
    hide Gap;
    GapMoved(doc, doc', 0, q, 0, 0, q);
  }

  lemma LeafExact(doc: string, e: ElemPos)
    requires TidyLeaf(doc, e)
    ensures Exact(doc, SpanOf(e)) && 0 <= e.startL <= e.endR < |doc|
    ensures !e.IsEmptyElement() ==> 0 <= e.startR + 1 <= e.endL <= |doc| && Tidy(doc, Leaf, e.startR + 1, e.endL)
  {
    hide WellMade, Gap, Exact;
    WellExact(doc, e);
    WellBounds(doc, e);
  }

  /** The edit splits an empty element that is not firm. */
  ghost predicate SplitsUnfirm(x: Index, ed: Edit) {
    var t := match ed case Refill(t, _, _) => t case Adopt(top, _, _, _, _) => top case _ => 0;
    0 < t < |x.a| && !Firm(x.doc, SpanOf(x.a[t]))
  }

  /** Whether parsing the edited text gives the indexed elements. */
  ghost predicate Rereads(x: Index, ed: Edit, y: Index) {
    (AllRead(x) ==> if Misplaces(x, ed) then !Reads(y) else AllRead(y) && Reads(y)) &&
    (Reads(x) && SplitsUnfirm(x, ed) ==> !Reads(y)) &&
    (ed.Adopt? && x.f == Nil && (ed.insert ==> x.doc != "") ==>
       (Reads(y) <==> Gap(x.doc, 0, RootAt(x.doc, ed.insert))))
  }

  lemma EditRereads(x: Index, ed: Edit, y: Index, strict: bool)
    requires Held(x, strict) && Makes(x, ed, y)
    ensures Rereads(x, ed, y)
  {
    hide Held, AllRead, Reads, Retags, Fills, Splits, Roots, AdoptsAt, AdoptsSplit, Cuts, RootAt, Gap, Misplaces, Firm;
    EditKeeps(x, ed, y, strict);
    if AllRead(y) { ReadsAll(y); }
    if Reads(x) && SplitsUnfirm(x, ed) { UnfirmLoses(x, ed, y, strict); }
    if ed.Adopt? && x.f == Nil && (ed.insert ==> x.doc != "") {
      NoneBelow(x, ed, y);
      RootReads(x, RootAt(x.doc, ed.insert), ed.name, ed.value, y, strict);
    }
  }

  lemma UnfirmLoses(x: Index, ed: Edit, y: Index, strict: bool)
    requires Held(x, strict) && Reads(x) && Makes(x, ed, y) && SplitsUnfirm(x, ed)
    ensures !Reads(y)
  {
    hide Held, Reads, Splits, Roots, Adopts, AdoptsSplit, Cuts, RootAt;
    match ed
    case Refill(t, data, cdata) => SplitLoses(x, t, data, cdata, y, strict);
    case Adopt(top, rel, insert, name, value) =>
      AdoptSplitLoses(x, top, name, value, y, strict);
  }

  lemma NoneBelow(x: Index, ed: Edit, y: Index)
    requires x.f == Nil && ed.Adopt? && Makes(x, ed, y)
    ensures ed.top == 0
  {
    hide Find, Shift;
  }

  // ---- histories of edits ----

  /** Nothing, or an edit that does not misplace a root. */
  ghost predicate Steps(x: Index, y: Index) {
    x == y || exists ed: Edit :: Makes(x, ed, y) && !Misplaces(x, ed)
  }

  lemma NoEdit(x: Index)
    ensures Steps(x, x)
  {
  }

  lemma EditSteps(x: Index, ed: Edit, y: Index, strict: bool)
    requires Held(x, strict) && Makes(x, ed, y)
    ensures !Misplaces(x, ed) ==> Steps(x, y)
    ensures AllRead(x) ==> if Misplaces(x, ed) then !Reads(y) else AllRead(y)
  {
    hide Held, Makes, AllRead, Reads, Misplaces;
    EditKeeps(x, ed, y, strict);
  }

  ghost predicate History(xs: seq<Index>) {
    xs != [] && forall i :: 0 <= i < |xs| - 1 ==> Steps(xs[i], xs[i + 1])
  }

  lemma {:induction false} HistoryKeeps(xs: seq<Index>, strict: bool)
    requires History(xs) && Held(xs[0], strict)
    ensures Held(xs[|xs| - 1], strict) && (AllRead(xs[0]) ==> AllRead(xs[|xs| - 1]))
    decreases |xs|
  {
    hide Held, AllRead, Makes, Misplaces;
    var n := |xs| - 1;
    if n > 0 {
      var before := xs[..n];
      assert forall i :: 0 <= i < n - 1 ==> Steps(before[i], before[i + 1]) by {
        forall i | 0 <= i < n - 1 ensures Steps(before[i], before[i + 1]) { assert Steps(xs[i], xs[i + 1]); }
      }
      HistoryKeeps(before, strict);
      assert Steps(xs[n - 1], xs[n - 1 + 1]);
      if xs[n - 1] != xs[n] {
        var ed :| Makes(xs[n - 1], ed, xs[n]) && !Misplaces(xs[n - 1], ed);
        EditKeeps(xs[n - 1], ed, xs[n], strict);
      }
    }
  }

  /** Whatever is edited, parsing the text gives the indexed elements. */
  ghost predicate Lasting(x: Index) {
    forall xs: seq<Index> :: History(xs) && xs[0] == x ==> Reads(xs[|xs| - 1])
  }

  /** Nothing but text and nodes without elements follows the root, and the tags of empty elements are firm. */
  ghost predicate Steady(x: Index) {
    x.f.Cons? && x.f.elem < |x.a| && 0 <= x.a[x.f.elem].endR < |x.doc| &&
    Gap(x.doc, x.a[x.f.elem].endR + 1, |x.doc|) && FirmTrees(x.doc, TreesOf(x.a, x.f))
  }

  lemma ParsedReads(x: Index)
    requires x.f.Cons? && x.f.rest == Nil && x.f.elem < |x.a| && ParseOne(x.doc, 0).Got?
    requires TreesOf(x.a, x.f) == Tree(ParseOne(x.doc, 0).s, ParseOne(x.doc, 0).kids, Leaf)
    ensures Reads(x)
  {
    hide ParseOne;
  }

  /** Of the documents whose text gives the indexed elements, exactly the steady ones keep that through all edits. */
  lemma LastsExactly(x: Index, strict: bool)
    requires Held(x, strict) && Reads(x) && x.f.Cons?
    ensures Lasting(x) <==> Steady(x)
  {
    hide Held, SameElements, AllRead, Gap, FirmTrees, Steps;
    RootInText(x);
    HeldSlots(x, strict);
    if Steady(x) {
      SteadyReads(x, strict);
      forall xs: seq<Index> | History(xs) && xs[0] == x
        ensures Reads(xs[|xs| - 1])
      {
        HistoryKeeps(xs, strict);
        ReadsAll(xs[|xs| - 1]);
      }
    } else if !FirmTrees(x.doc, TreesOf(x.a, x.f)) {
      var t := UnfirmSlot(x.doc, x.a, x.f);
      var xs := LostBySplit(x, t, strict);
    } else {
      var xs := LostByRemoval(x, strict);
    }
  }

  lemma HeldSlots(x: Index, strict: bool)
    requires Held(x, strict)
    ensures forall j :: j in Ids(x.f) ==> j < |x.a|
  {
    hide Sound;
    SoundFresh(x.doc, x.a, x.free, x.f, strict);
  }

  lemma RootInText(x: Index)
    requires Reads(x) && x.f.Cons?
    ensures x.f.elem < |x.a| && x.f.rest == Nil && 0 <= x.a[x.f.elem].startL <= x.a[x.f.elem].endR < |x.doc|
    ensures Gap(x.doc, 0, x.a[x.f.elem].startL)
  {
    hide ParseOne, Gap;
    OneTidy(x.doc, 0);
  }

  lemma ReadsAll(x: Index)
    requires AllRead(x)
    ensures Reads(x)
  {
    hide Whole, SameElements;
    WholeReparses(x.doc, x.a, x.f);
  }

  lemma SteadyReads(x: Index, strict: bool)
    requires Held(x, strict) && Reads(x) && x.f.Cons?
    ensures AllRead(x) <==> Steady(x)
  {
    hide Sound, Whole, Gap, FirmTrees, ParseOne;
    RootInText(x);
    SoundFresh(x.doc, x.a, x.free, x.f, strict);
    WholeExactly(x.doc, x.a, x.f, SpanOf(x.a[x.f.elem]), TreesOf(x.a, x.f.kids));
  }

  lemma {:induction false} UnfirmSlot(doc: string, a: seq<ElemPos>, f: Forest) returns (t: nat)
    requires !FirmTrees(doc, TreesOf(a, f)) && forall j :: j in Ids(f) ==> j < |a|
    ensures t in Ids(f) && t < |a| && !Firm(doc, SpanOf(a[t]))
  {
    hide Firm;
    assert f.elem in Ids(f);
    if !Firm(doc, SpanOf(a[f.elem])) {
      t := f.elem;
    } else if !FirmTrees(doc, TreesOf(a, f.kids)) {
      t := UnfirmSlot(doc, a, f.kids);
    } else {
      t := UnfirmSlot(doc, a, f.rest);
    }
  }

  /** Data put into an empty element that is not firm. */
  lemma LostBySplit(x: Index, t: nat, strict: bool) returns (xs: seq<Index>)
    requires Held(x, strict) && Reads(x) && t in Ids(x.f) && t < |x.a| && !Firm(x.doc, SpanOf(x.a[t]))
    ensures History(xs) && xs[0] == x && !Reads(xs[|xs| - 1])
  {
    hide Sound, SameElements, Shift, Ahead, PathAnc, Find, TagsOk, Content, DocChange, OpenedBy, TagName;
    SoundAt(x.doc, x.a, x.free, x.f, t, strict);
    var e := x.a[t];
    assert e.IsEmptyElement();
    var (k, r, p) := Find(x.f, t, Top);
    var name := TagName(StartTag(x.doc, e));
    var ins := OpenedBy(name, Content("", false));
    var s := Shift(x.a[t := PreSplit(e, name)], Ahead(Nil, r, p), PathAnc(p), |ins| - 1);
    var y := Index(DocChange(x.doc, e.endL, 1, ins), s[t := s[t].AdjustEnd(|ins| - 1)], x.free, x.f);
    assert Splits(x, t, "", false, y);
    SplitLoses(x, t, "", false, y, strict);
    FirstStep(x, Refill(t, "", false), y);
    xs := [x, y];
  }

  lemma FirstStep(x: Index, ed: Edit, y: Index)
    requires Makes(x, ed, y) && !Misplaces(x, ed)
    ensures Steps(x, y) && History([x, y])
  {
    hide Makes, Misplaces;
    assert [x, y][0] == x && [x, y][1] == y;
  }

  /** The document without its root. */
  ghost function RootGone(x: Index): Index
    requires x.f.Cons? && 0 < |x.a| && x.f.elem < |x.a| && 0 <= x.a[x.f.elem].startL <= x.a[x.f.elem].endR < |x.doc|
  {
    var e := x.a[x.f.elem];
    var q := NextNode(x.doc, e.endR + 1);
    Index(DocChange(x.doc, e.startL, q - e.startL, ""),
          Shift(x.a[0 := x.a[0].(child := e.next)], Ahead(Nil, Nil, Top), PathAnc(Top), e.startL - q), x.free, Nil)
  }

  lemma RootCut(x: Index, strict: bool)
    requires Held(x, strict) && x.f.Cons? && x.f.rest == Nil
    ensures 0 < |x.a| && x.f.elem < |x.a| && 0 <= x.a[x.f.elem].startL <= x.a[x.f.elem].endR < |x.doc|
    ensures Makes(x, Drop(x.f.elem), RootGone(x)) && Held(RootGone(x), strict)
  {
    hide Sound, Shift, TagsOk, DocChange, NextNode, Laid;
    var t := x.f.elem;
    SoundAt(x.doc, x.a, x.free, x.f, t, strict);
    SoundFresh(x.doc, x.a, x.free, x.f, strict);
    RootLinks(x, strict);
    var a2 := x.a[0 := x.a[0].(child := x.a[t].next)];
    assert Cuts(x, t, 0, a2, RootGone(x));
    CutKeeps(x, t, 0, a2, RootGone(x), strict);
  }

  lemma RootLinks(x: Index, strict: bool)
    requires Held(x, strict) && x.f.Cons?
    ensures 2 <= |x.a| && x.f.elem < |x.a| && x.a[x.f.elem].parent == 0
  {
    hide Laid, Uniq;
  }

  /** The document without elements with a root at `q`. */
  ghost function RootAdded(x: Index, q: nat, name: string): Index
    requires 0 < x.free <= |x.a| && q <= |x.doc|
  {
    var a := x.a[0 := x.a[0].(endL := |x.doc|)];
    Index(DocChange(x.doc, q, 0, ElemText(name, "") + "\r\n"),
          Shift(NewRoot(a, x.free, q, name), Ahead(Nil, Nil, Top), PathAnc(Top), |ElemText(name, "")| + 2),
          x.free + 1, Cons(x.free, Nil, Nil))
  }

  ghost function NewRoot(a: seq<ElemPos>, free: nat, q: nat, name: string): (b: seq<ElemPos>)
    requires 0 < free <= |a|
    ensures LinkedIn(a, b, 0, 0, free) && OffsetsBut(a, b, free) &&
            b[free] == ElemAt(q, name, "", CLEARED.(next := a[0].child))
  {
    var b := if free < |a| then a else a + [CLEARED];
    b[0 := b[0].(child := free)][free := ElemAt(q, name, "", CLEARED.(next := a[0].child))]
  }

  lemma RootPut(x: Index, insert: bool, name: string, strict: bool)
    requires Held(x, strict) && x.f == Nil && NameOk(name) && (insert ==> x.doc != "")
    ensures 0 < x.free <= |x.a| && Roots(x, RootAt(x.doc, insert), name, "", RootAdded(x, RootAt(x.doc, insert), name))
    ensures Makes(x, Adopt(0, 0, insert, name, ""), RootAdded(x, RootAt(x.doc, insert), name))
  {
    hide Sound, Shift, ElemText, ElemAt, NameOk, DocChange, NewRoot, LinkedIn, OffsetsBut, NextNode;
    SoundFresh(x.doc, x.a, x.free, x.f, strict);
    var a, q := x.a[0 := x.a[0].(endL := |x.doc|)], RootAt(x.doc, insert);
    assert RootsBy(x, q, name, "", NewRoot(a, x.free, q, name), CLEARED.(next := a[0].child), RootAdded(x, q, name));
  }

  /** If nothing but a gap is left without the root, nothing but a gap followed it. */
  lemma RestGap(x: Index)
    requires Reads(x) && x.f.Cons? && 0 < |x.a| && x.f.elem < |x.a|
    requires 0 <= x.a[x.f.elem].startL <= x.a[x.f.elem].endR < |x.doc| && Gap(RootGone(x).doc, 0, |RootGone(x).doc|)
    ensures Gap(x.doc, x.a[x.f.elem].endR + 1, |x.doc|)
  {
    hide Gap, NextNode, SameElements, Shift, DocChange;
    var e := x.a[x.f.elem];
    var q, doc' := NextNode(x.doc, e.endR + 1), RootGone(x).doc;
    RootInText(x);
    DocChanged(x.doc, e.startL, q - e.startL, "");
    NextNodeClear(x.doc, e.endR + 1, |x.doc|);
    GapSame(x.doc, doc', e.startL);
    GapRest(doc', 0, e.startL, |doc'|);
    BackMoved(x.doc, doc', q, |x.doc|, e.startL - q);
    GapMoved(doc', x.doc, e.startL, |doc'|, q - e.startL, e.startL, |doc'|);
    GapPlain(x.doc, e.endR + 1, q);
    GapJoin(x.doc, e.endR + 1, q, |x.doc|);
  }

  lemma BackMoved(doc: string, doc': string, lo: int, hi: int, d: int)
    requires SameText(doc, doc', lo, hi, d)
    ensures SameText(doc', doc, lo + d, hi + d, 0 - d)
  {
    forall k | lo + d <= k < hi + d
      ensures doc[k + (0 - d)] == doc'[k]
    {
      assert doc'[(k - d) + d] == doc[k - d];
    }
  }

  /** The rest of a gap, from where a part of it ends. */
  lemma {:induction false} GapRest(doc: string, lo: nat, m: nat, hi: nat)
    requires lo <= m <= hi <= |doc| && Gap(doc, lo, m) && Gap(doc, lo, hi)
    ensures Gap(doc, m, hi)
    decreases m - lo
  {
    hide NodeEnd, Scan;
    var z := Scan(doc, lo, Is('<'), true);
    if z >= m { ScanFrom(doc, lo, m, Is('<')); } else { GapRest(doc, NodeEnd(doc, z), m, hi); }
  }

  /** The root removed and another one added behind the rest. */
  lemma LostByRemoval(x: Index, strict: bool) returns (xs: seq<Index>)
    requires Held(x, strict) && Reads(x) && x.f.Cons? && x.f.elem < |x.a| && 0 <= x.a[x.f.elem].endR < |x.doc|
    requires !Gap(x.doc, x.a[x.f.elem].endR + 1, |x.doc|)
    ensures History(xs) && xs[0] == x && !Reads(xs[|xs| - 1])
  {
    hide Held, SameElements, Gap, Makes, RootGone, RootAdded, NameOk, Roots;
    RootInText(x);
    RootCut(x, strict);
    var y := RootGone(x);
    GoneNil(x);
    SomeName();
    RootPut(y, false, "b", strict);
    AtEnd(y.doc);
    var z := RootAdded(y, |y.doc|, "b");
    RootReads(y, |y.doc|, "b", "", z, strict);
    if Gap(y.doc, 0, |y.doc|) { RestGap(x); }
    TwoSteps(x, Drop(x.f.elem), y, Adopt(0, 0, false, "b", ""), z);
    xs := [x, y, z];
  }

  lemma AtEnd(doc: string)
    ensures RootAt(doc, false) == |doc|
  {
  }

  lemma GoneNil(x: Index)
    requires x.f.Cons? && 0 < |x.a| && x.f.elem < |x.a| && 0 <= x.a[x.f.elem].startL <= x.a[x.f.elem].endR < |x.doc|
    ensures RootGone(x).f == Nil
  {
  }

  lemma SomeName()
    ensures NameOk("b")
  {
  }

  lemma TwoSteps(x: Index, ed: Edit, y: Index, ed': Edit, z: Index)
    requires Makes(x, ed, y) && !Misplaces(x, ed) && Makes(y, ed', z) && !Misplaces(y, ed')
    ensures History([x, y, z])
  {
    hide Makes, Misplaces;
    var xs := [x, y, z];
    assert Steps(x, y) && Steps(y, z);
    forall i | 0 <= i < 2
      ensures Steps(xs[i], xs[i + 1])
    {
      if i == 0 { assert xs[0] == x && xs[1] == y; } else { assert xs[1] == y && xs[2] == z; }
    }
  }

  // ---- an instance of each cause ----

  /** The record of an empty element whose tag is all of a text of `n` characters. */
  function WholeTag(n: nat): ElemPos { CLEARED.(startR := n - 1, endL := n - 2, endR := n - 1) }

  /** <a//> is an empty element; split around x it becomes <a/>x</a>, which begins with another one. */
  lemma SlashesMisread()
    ensures ParseOne("<a//>", 0) == Got(SpanOf(WholeTag(5)), Leaf)
    ensures DocChange("<a//>", 3, 1, OpenedBy("a", "x")) == "<a/>x</a>"
    ensures ParseOne("<a/>x</a>", 0) == Got(Span(0, 3, 2, 3), Leaf) &&
            SpanOf(Opened(WholeTag(5), "a", "x")) == Span(0, 3, 5, 8)
  {
    hide ParseOne;
    var doc, doc' := "<a//>", "<a/>x</a>";
    EmptyRead(doc, 4);
    EmptyRead(doc', 3);
    assert doc[..3] == "<a/" && doc[4..] == ">";
    assert OpenedBy("a", "x") == ">x</a";
  }

  lemma EmptyRead(doc: string, y: nat)
    requires 3 <= y < |doc| && doc[0] == '<' && (doc[1] == 'a' || doc[1] == 'b') && doc[2] == '/' && doc[y - 1] == '/'
    requires doc[y] == '>' && forall k :: 2 <= k < y ==> doc[k] != '>'
    ensures ParseOne(doc, 0) == Got(Span(0, y, y - 1, y), Leaf)
  {
    hide ParseOne, StartFrom, ParseFull;
    StartStep(doc, 0);
    OneStep(doc, 0);
    ScanIs(doc, 0, Is('<'), true, 0);
    LetterToken(doc);
    ScanIs(doc, 2, Is('>'), true, y);
  }

  lemma LetterToken(doc: string)
    requires |doc| > 2 && (doc[1] == 'a' || doc[1] == 'b') && doc[2] == '/'
    ensures TokenAt(doc, 1) == Token(true, false, 1, 1, 2)
  {
    ScanIs(doc, 1, Space, false, 1);
    ScanIs(doc, 1, Special, true, 2);
  }

  /** <>/> is an empty element named '>'; split around x it becomes <>>x</>>, whose end tag is read one place short. */
  lemma NameMisread()
    ensures ParseOne("<>/>", 0) == Got(SpanOf(WholeTag(4)), Leaf)
    ensures DocChange("<>/>", 2, 1, OpenedBy(">", "x")) == "<>>x</>>"
    ensures ParseOne("<>>x</>>", 0) == Got(Span(0, 2, 4, 6), Leaf) &&
            SpanOf(Opened(WholeTag(4), ">", "x")) == Span(0, 2, 4, 7)
  {
    hide ParseOne;
    var doc := "<>/>";
    assert doc[..2] == "<>" && doc[3..] == ">";
    assert OpenedBy(">", "x") == ">x</>";
    GtEmpty(doc);
    GtFull("<>>x</>>");
  }

  lemma GtEmpty(doc: string)
    requires doc == "<>/>"
    ensures ParseOne(doc, 0) == Got(Span(0, 3, 2, 3), Leaf)
  {
    hide ParseOne, StartFrom;
    GtOpens(doc, 3);
    OneStep(doc, 0);
  }

  lemma GtFull(doc: string)
    requires doc == "<>>x</>>"
    ensures ParseOne(doc, 0) == Got(Span(0, 2, 4, 6), Leaf)
  {
    hide ParseOne, ParseFull, ParseList, StartFrom, EndFrom, NameAt;
    GtOpens(doc, 2);
    OneStep(doc, 0);
    FullStep(doc, 0, 2);
    GtContent();
  }

  lemma GtOpens(doc: string, y: nat)
    requires 2 <= y < |doc| && doc[0] == '<' && doc[1] == '>' && doc[y] == '>' &&
             forall k :: 2 <= k < y ==> doc[k] != '>'
    ensures StartFrom(doc, 0) == Open(0, y) && NameAt(doc, 0) == ">"
  {
    hide StartFrom;
    StartStep(doc, 0);
    ScanIs(doc, 0, Is('<'), true, 0);
    TagEnders();
    TokenOne(doc, 1);
    ScanIs(doc, 2, Is('>'), true, y);
  }

  lemma GtContent()
    ensures ParseList("<>>x</>>", 3) == (Leaf, EndTag(4)) && EndFrom("<>>x</>>", 5, 0, ">") == 6
  {
    hide StartFrom, TokenAt, In, IsSpace, ParseOne;
    var doc := "<>>x</>>";
    TagEnders();
    TokenOne(doc, 5);
    TokenOne(doc, 6);
    StartStep(doc, 3);
    OneStep(doc, 3);
    LtAt(doc);
    assert doc[6..7] == ">";
    assert EndFrom(doc, 6, 1, ">") == 6;
  }

  lemma LtAt(doc: string)
    requires doc == "<>>x</>>"
    ensures Scan(doc, 3, Is('<'), true) == 4
  {
    ScanIs(doc, 3, Is('<'), true, 4);
  }

  /** Of <a/><b/> the first element is read; without it the second one is. */
  lemma TrailingMisread()
    ensures ParseOne("<a/><b/>", 0) == Got(Span(0, 3, 2, 3), Leaf) && NextNode("<a/><b/>", 4) == 4
    ensures DocChange("<a/><b/>", 0, 4, "") == "<b/>" && ParseOne("<b/>", 0) == Got(Span(0, 3, 2, 3), Leaf)
    ensures forall a :: !SameElements("<b/>", a, Nil)
  {
    hide ParseOne;
    var doc := "<a/><b/>";
    EmptyRead(doc, 3);
    EmptyRead("<b/>", 3);
    assert doc[4..] == "<b/>";
    ScanIs(doc, 4, Space, false, 4);
    NotAString(doc, 4);
  }

  lemma NotAString(doc: string, i: nat)
    requires i < |doc| && doc[i] == '<'
    ensures !TokenFrom(doc, i).isString && TokenFrom(doc, i).l == i
  {
  }
}
