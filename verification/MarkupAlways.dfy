/** All edits, misplaced roots included: exactly which parsed documents they leave in step with their text. */
module MarkupAlways {
  import opened MarkupText
  import opened MarkupArena
  import opened MarkupLayout
  import opened MarkupEdits
  import opened MarkupState
  import opened MarkupWrite
  import opened MarkupData
  import opened MarkupParse
  import opened MarkupGrammar
  import opened MarkupTags
  import opened MarkupTidy
  import opened MarkupReread
  import opened MarkupLasting

  ghost predicate Begins(s: string) { s != "" && s[0] == '<' }

  /** Without its root the text begins with '<'. */
  ghost predicate Fronted(x: Index) {
    if x.f.Nil? then Begins(x.doc) else InText(x) && Begins(RootGone(x).doc)
  }

  ghost predicate InText(x: Index) {
    x.f.Cons? && 0 < |x.a| && x.f.elem < |x.a| && 0 <= x.a[x.f.elem].startL <= x.a[x.f.elem].endR < |x.doc|
  }

  /** What comes before the root if there is any text, else what comes behind it. */
  lemma FrontIs(x: Index)
    requires InText(x)
    ensures var e := x.a[x.f.elem]; var q := NextNode(x.doc, e.endR + 1);
      Fronted(x) <==> if e.startL > 0 then x.doc[0] == '<' else q < |x.doc| && x.doc[q] == '<'
  {
    hide NextNode, Shift;
    var e := x.a[x.f.elem];
    var q := NextNode(x.doc, e.endR + 1);
    assert RootGone(x).doc == x.doc[..e.startL] + x.doc[q..];
  }

  /** White space is passed over alike where the text has moved. */
  lemma NextNodeMoved(doc: string, doc': string, i: nat, n: int)
    requires i <= |doc| && 0 <= i + n <= |doc'| && SameText(doc, doc', i, |doc|, n) && |doc'| == |doc| + n
    ensures NextNode(doc', i + n) == NextNode(doc, i) + n
  {
    hide In, Scan;
    ScanMoved(doc, doc', i, |doc|, n, i, Space, false);
    var b := Scan(doc, i, Space, false);
    if b < |doc| { SameAt(doc, doc', i, |doc|, n, b); }
    if b + 1 < |doc| { SameAt(doc, doc', i, |doc|, n, b + 1); }
  }

  /** The text before the root and behind it is the same, and so are the root's ends. */
  ghost predicate Framed(x: Index, y: Index) {
    InText(x) && InText(y) && y.f.elem == x.f.elem &&
    var e, e', n := x.a[x.f.elem], y.a[x.f.elem], |y.doc| - |x.doc|;
    e'.startL == e.startL && e'.endR == e.endR + n &&
    SameText(x.doc, y.doc, 0, e.startL, 0) && SameText(x.doc, y.doc, e.endR + 1, |x.doc|, n)
  }

  lemma FramedFront(x: Index, y: Index)
    requires Framed(x, y)
    ensures Fronted(y) <==> Fronted(x)
  {
    hide NextNode, Fronted;
    var e, n := x.a[x.f.elem], |y.doc| - |x.doc|;
    FrontIs(x);
    FrontIs(y);
    NextNodeMoved(x.doc, y.doc, e.endR + 1, n);
    if e.startL > 0 { SameAt(x.doc, y.doc, 0, e.startL, 0, 0); }
    var q := NextNode(x.doc, e.endR + 1);
    if q < |x.doc| { SameAt(x.doc, y.doc, e.endR + 1, |x.doc|, n, q); }
  }

  /** The text changes only within element t, whose own ends move as the text behind it does. */
  lemma RootFramed(x: Index, y: Index, t: nat, p: nat, r: nat, ins: string, strict: bool)
    requires Held(x, strict) && x.f.Cons? && x.f.rest == Nil && t in Ids(x.f) && t < |x.a| && t < |y.a|
    requires Held(y, strict) && y.f.Cons? && y.f.elem == x.f.elem && y.f.rest == Nil
    requires p + r <= |x.doc| && y.doc == DocChange(x.doc, p, r, ins) && RepairedBut(x.a, y.a, x.f, t, Top, |ins| - r)
    requires y.a[t].startL == x.a[t].startL && y.a[t].endR == x.a[t].endR + |ins| - r
    requires x.a[t].startL <= p && p + r <= x.a[t].endR + 1
    ensures Framed(x, y)
  {
    hide DocChange, RepairedBut, Sound, SameText, Laid;
    var n, i := |ins| - r, x.f.elem;
    DocChanged(x.doc, p, r, ins);
    InRoot(x, t, strict);
    InRoot(y, i, strict);
    SoundFresh(x.doc, x.a, x.free, x.f, strict);
    if t != i { RepairedWithin(x.a, y.a, x.f, t, Top, n); }
    TextPart(x.doc, y.doc, 0, p, 0, 0, x.a[i].startL);
    TextPart(x.doc, y.doc, p + r, |x.doc|, n, x.a[i].endR + 1, |x.doc|);
  }

  /** Every element lies within the root. */
  lemma InRoot(x: Index, t: nat, strict: bool)
    requires Held(x, strict) && x.f.Cons? && x.f.rest == Nil && t in Ids(x.f)
    ensures InText(x) && t < |x.a| && x.a[x.f.elem].startL <= x.a[t].startL && x.a[t].endR <= x.a[x.f.elem].endR
    ensures t != x.f.elem ==> t in Ids(x.f.kids)
  {
    hide ElemOk, Linked, Uniq;
    var e := x.a[x.f.elem];
    ElemBounds(x.doc, e, strict);
    if t != x.f.elem { LaidAt(x.doc, x.a, x.f.kids, t, Top, e.startR + 1, e.endL, strict); }
  }

  lemma RootStays(f: Forest, t: nat, k: Forest)
    requires t in Ids(f) && f.Cons? && f.rest == Nil
    ensures ReplaceKids(f, t, k).Cons? && ReplaceKids(f, t, k).elem == f.elem && ReplaceKids(f, t, k).rest == Nil
  {
  }

  // ---- edit by edit ----

  lemma RetagFrames(x: Index, t: nat, attr: string, value: string, y: Index, strict: bool)
    requires Held(x, strict) && Held(y, strict) && x.f.Cons? && x.f.rest == Nil
    requires Retags(x, t, attr, value, y)
    ensures Framed(x, y)
  {
    hide Sound, Shift, Ahead, PathAnc, Find, NameOk, Ids, ElemOk, Framed, RepairedBut, CleanTag, AttribTag, DocChange;
    var n := |y.doc| - |x.doc|;
    var (k, r, p) := Find(x.f, t, Top);
    var e := x.a[t];
    SoundAt(x.doc, x.a, x.free, x.f, t, strict);
    RecordShift(x.doc, x.a, y.a, x.free, x.f, t, Retagged(e, n), k, r, p, n, strict);
    var s := AttribTag(StartTag(x.doc, e), e.IsEmptyElement(), attr, value);
    RootFramed(x, y, t, e.startL, e.startR + 1 - e.startL, s, strict);
  }

  lemma FillFrames(x: Index, t: nat, data: string, cdata: bool, y: Index, strict: bool)
    requires Held(x, strict) && Held(y, strict) && x.f.Cons? && x.f.rest == Nil
    requires Fills(x, t, data, cdata, y)
    ensures Framed(x, y)
  {
    hide Sound, Shift, Ahead, PathAnc, Find, Ids, Framed, RepairedBut, Content, DocChange, UniqIn;
    var e := x.a[t];
    var n := |Content(data, cdata)| - (e.endL - e.startR - 1);
    var (k, r, p) := Find(x.f, t, Top);
    SoundFresh(x.doc, x.a, x.free, x.f, strict);
    ShiftAround(x.f, t, x.a, e.AdjustEnd(n), Nil, r, p, n);
    RecordShift(x.doc, x.a, y.a, x.free, x.f, t, e.AdjustEnd(n), Nil, r, p, n, strict);
    RootFramed(x, y, t, e.startR + 1, e.endL - e.startR - 1, Content(data, cdata), strict);
  }

  lemma SplitFrames(x: Index, t: nat, data: string, cdata: bool, y: Index, strict: bool)
    requires Held(x, strict) && Held(y, strict) && x.f.Cons? && x.f.rest == Nil
    requires Splits(x, t, data, cdata, y)
    ensures Framed(x, y)
  {
    hide Sound, Shift, Ahead, PathAnc, Find, Ids, Framed, RepairedBut, Content, DocChange, UniqIn, OpenedBy, TagName;
    var e := x.a[t];
    var name, text := TagName(StartTag(x.doc, e)), Content(data, cdata);
    var n := |text| + 2 + |name|;
    var (k, r, p) := Find(x.f, t, Top);
    OpenedSize(name, text);
    SoundFresh(x.doc, x.a, x.free, x.f, strict);
    ShiftAround(x.f, t, x.a[t := PreSplit(e, name)], PreSplit(e, name).AdjustEnd(n), Nil, r, p, n);
    OpenedRecord(x.a, t, PreSplit(e, name), name, text, n);
    RecordShift(x.doc, x.a, y.a, x.free, x.f, t, Opened(e, name, text), Nil, r, p, n, strict);
    RootFramed(x, y, t, e.endL, 1, OpenedBy(name, text), strict);
  }

  lemma AdoptFrames(x: Index, top: nat, rel: nat, insert: bool, before: nat, name: string, value: string, y: Index,
                    strict: bool)
    requires Held(x, strict) && Held(y, strict) && x.f.Cons? && x.f.rest == Nil
    requires AdoptsAt(x, top, rel, insert, before, name, value, y)
    ensures Framed(x, y)
  {
    hide Sound, Shift, Ahead, PathAnc, Find, Ids, LinkedIn, OffsetsBut, ElemText, ElemAt, NameOk, DocChange, NextNode,
         Past, Upto, Laid, PlaceAt, Framed, RepairedBut, Insert, ReplaceKids, SameOffsets, ElemOk, SameLinks, Moved;
    var q := NextNode(x.doc, PlaceAt(x.a, top, rel, insert));
    var a2, e :| AdoptsBy(x, top, before, q, name, value, a2, e, y);
    var (k, r, p) := Find(x.f, top, Top);
    var ins := ElemText(name, value) + "\r\n";
    LocatedRight(x.doc, x.a, x.free, x.f, top, rel, insert, before, strict);
    SoundAt(x.doc, x.a, x.free, x.f, top, strict);
    ElemBounds(x.doc, x.a[top], strict);
    SlotZero(x.doc, x.a, a2, x.free, x.f, strict);
    OffsetsAt(x.a, a2, Ids(x.f), top);
    SomeOffsets(x.a, a2, Ids(x.f), Ids(x.f) - {top});
    InsertShift(x.doc, x.a, a2, y.a, x.free, x.f, top, before, x.free, k, r, p, |ins|, strict);
    RootStays(x.f, top, Insert(k, before, x.free));
    RootFramed(x, y, top, q, 0, ins, strict);
  }

  lemma AdoptSplitFrames(x: Index, top: nat, name: string, value: string, y: Index, strict: bool)
    requires Held(x, strict) && Held(y, strict) && x.f.Cons? && x.f.rest == Nil
    requires AdoptsSplit(x, top, name, value, y)
    ensures Framed(x, y)
  {
    hide Sound, Shift, Ahead, PathAnc, Find, Ids, LinkedIn, SameOffsetsBut, ElemText, ElemAt, NameOk, DocChange, Past,
         Framed, RepairedBut, Insert, ReplaceKids, SameOffsets, OpenedBy, TagName, SameLinks, Moved, Upto;
    var a2, e :| AdoptsSplitBy(x, top, name, value, a2, e, y);
    var (k, r, p) := Find(x.f, top, Top);
    var parentName := TagName(StartTag(x.doc, x.a[top]));
    var text := "\r\n" + ElemText(name, value) + "\r\n";
    OpenedSize(parentName, text);
    SoundAt(x.doc, x.a, x.free, x.f, top, strict);
    NewSlot(x.a, a2, top, 0, x.free);
    OpenedZero(x.doc, x.a, a2, x.free, x.f, top, strict);
    PlaceNone();
    InsertShift(x.doc, x.a, a2, y.a, x.free, x.f, top, 0, x.free, Nil, r, p, |text| + 2 + |parentName|, strict);
    RootStays(x.f, top, Insert(Nil, 0, x.free));
    RootFramed(x, y, top, x.a[top].endL, 1, OpenedBy(parentName, text), strict);
  }

  lemma CutFrames(x: Index, t: nat, prev: nat, a2: seq<ElemPos>, y: Index, strict: bool)
    requires Held(x, strict) && Held(y, strict) && x.f.Cons? && x.f.rest == Nil
    requires Cuts(x, t, prev, a2, y) && x.a[t].parent != 0
    ensures Framed(x, y)
  {
    hide Sound, Shift, Ahead, PathAnc, Find, Ids, LinkedOut, OffsetsBut, DocChange, NextNode, Past, Upto, Framed,
         RepairedBut, Remove, ReplaceKids, SameOffsets, ElemOk, SameLinks, Moved, IsPlace, Laid, UniqIn;
    var top, e := x.a[t].parent, x.a[t];
    var (k, r, p) := Find(x.f, top, Top);
    var q := NextNode(x.doc, e.endR + 1);
    SoundFresh(x.doc, x.a, x.free, x.f, strict);
    SoundAt(x.doc, x.a, x.free, x.f, top, strict);
    SoundAt(x.doc, x.a, x.free, x.f, t, strict);
    ElemBounds(x.doc, x.a[top], strict);
    RemoveCut(x.doc, x.a, x.free, x.f, top, prev, t, k, r, p, strict);
    OutZero(x.doc, x.a, a2, x.free, x.f, strict);
    OutSize(x.a, a2, top, prev, t);
    RemoveShift(x.a, a2, y.a, x.f, top, prev, k, r, p, e.startL - q);
    OffsetsAt(x.a, a2, Ids(x.f), top);
    RootStays(x.f, top, Remove(k, prev));
    RootFramed(x, y, top, e.startL, q - e.startL, "", strict);
  }

  /** Without elements, or with the root alone to go, the text that is left begins alike. */
  lemma RootFront(x: Index, insert: bool, name: string, value: string, y: Index, strict: bool)
    requires Held(x, strict) && Held(y, strict) && (insert ==> x.doc != "") && !Fronted(x)
    requires Roots(x, RootAt(x.doc, insert), name, value, y)
    ensures !Fronted(y)
  {
    hide Sound, Shift, LinkedIn, OffsetsBut, NameOk, DocChange, NextNode, Fronted, TidyLeaf, ElemText, ElemAt;
    var q := RootAt(x.doc, insert);
    var a2, e :| RootsBy(x, q, name, value, a2, e, y);
    var ins := ElemText(name, value) + "\r\n";
    SoundFresh(x.doc, x.a, x.free, x.f, strict);
    NewSlot(x.a[0 := x.a[0].(endL := |x.doc|)], a2, 0, 0, x.free);
    ShiftOne(a2, {}, {0}, |ins|, x.free);
    DocChanged(x.doc, q, 0, ins);
    WrittenLine(y.doc, q, name, value, e);
    InRoot(y, x.free, strict);
    FrontIs(y);
    NoFront(x);
    if q > 0 {
      SameAt(x.doc, y.doc, 0, q, 0, 0);
    } else {
      AtStart(x.doc, insert);
      SliceIs(y.doc, 0, ins);
      assert forall k :: |ins| - 2 <= k < |ins| ==> ins[k] != '<';
    }
  }

  lemma NoFront(x: Index)
    requires x.f == Nil
    ensures Fronted(x) <==> Begins(x.doc)
  {
  }

  lemma AtStart(doc: string, insert: bool)
    requires (insert ==> doc != "") && RootAt(doc, insert) == 0
    ensures doc == ""
  {
    hide NextNode;
  }

  lemma DropFront(x: Index, t: nat, prev: nat, a2: seq<ElemPos>, y: Index, strict: bool)
    requires Held(x, strict) && x.f.Cons? && x.f.rest == Nil && Cuts(x, t, prev, a2, y) && x.a[t].parent == 0
    ensures Fronted(y) <==> Fronted(x)
  {
    hide Sound, Shift, LinkedOut, OffsetsBut, DocChange, NextNode, Remove, IsPlace;
    InRoot(x, x.f.elem, strict);
    OnlyRoot(x.f, prev, t);
    RemovedOnly(x.f, prev);
  }

  lemma OnlyRoot(f: Forest, prev: nat, t: nat)
    requires f.Cons? && f.rest == Nil && Past(f, prev).Cons? && Past(f, prev).elem == t
    ensures t == f.elem
  {
  }

  /** An edit of a whole document that does not misplace a root does not bring a '<' to the front. */
  lemma FrontKept(x: Index, ed: Edit, y: Index, strict: bool)
    requires Held(x, strict) && Makes(x, ed, y) && (x.f.Cons? ==> x.f.rest == Nil) && !Fronted(x)
    ensures !Fronted(y)
  {
    hide Held, Retags, Fills, Splits, Roots, AdoptsAt, AdoptsSplit, Cuts, RootAt, Fronted, Framed;
    EditKeeps(x, ed, y, strict);
    match ed
    case Retag(t, attr, value) =>
      HasRoot(x, ed, y);
      RetagFrames(x, t, attr, value, y, strict);
      FramedFront(x, y);
    case Refill(t, data, cdata) =>
      HasRoot(x, ed, y);
      if Fills(x, t, data, cdata, y) { FillFrames(x, t, data, cdata, y, strict); }
      else { SplitFrames(x, t, data, cdata, y, strict); }
      FramedFront(x, y);
    case Adopt(top, rel, insert, name, value) =>
      if top == 0 {
        RootFront(x, insert, name, value, y, strict);
      } else {
        HasRoot(x, ed, y);
        if before: nat :| AdoptsAt(x, top, rel, insert, before, name, value, y) {
          AdoptFrames(x, top, rel, insert, before, name, value, y, strict);
        } else {
          AdoptSplitFrames(x, top, name, value, y, strict);
        }
        FramedFront(x, y);
      }
    case Drop(t) =>
      HasRoot(x, ed, y);
      var prev: nat, a2: seq<ElemPos> :| Cuts(x, t, prev, a2, y);
      CutParent(x, t, prev, a2, y);
      if x.a[t].parent == 0 {
        DropFront(x, t, prev, a2, y, strict);
      } else {
        CutFrames(x, t, prev, a2, y, strict);
        FramedFront(x, y);
      }
  }

  lemma CutParent(x: Index, t: nat, prev: nat, a2: seq<ElemPos>, y: Index)
    requires Cuts(x, t, prev, a2, y)
    ensures t < |x.a|
  {
    hide Find, Shift, NextNode;
  }

  lemma HasRoot(x: Index, ed: Edit, y: Index)
    requires Makes(x, ed, y) && (ed.Adopt? ==> ed.top != 0)
    ensures x.f.Cons?
  {
    hide Find, Shift, Retagging, Content, NextNode, RemovedAt, TagName;
  }

  // ---- all edits ----

  ghost predicate Moves(x: Index, y: Index) {
    x == y || exists ed: Edit :: Makes(x, ed, y)
  }

  lemma EditMoves(x: Index, ed: Edit, y: Index)
    requires Makes(x, ed, y)
    ensures Moves(x, y)
  {
    hide Makes;
  }

  lemma NoMove(x: Index)
    ensures Moves(x, x)
  {
  }

  ghost predicate AnyHistory(xs: seq<Index>) {
    xs != [] && forall i :: 0 <= i < |xs| - 1 ==> Moves(xs[i], xs[i + 1])
  }

  /** Whatever is edited, misplaced roots included, parsing the text gives the indexed elements. */
  ghost predicate AlwaysReads(x: Index) {
    forall xs: seq<Index> :: AnyHistory(xs) && xs[0] == x ==> Reads(xs[|xs| - 1])
  }

  lemma MoveKeeps(x: Index, y: Index, strict: bool)
    requires Held(x, strict) && AllRead(x) && !Fronted(x) && Moves(x, y)
    ensures Held(y, strict) && AllRead(y) && !Fronted(y)
  {
    hide Held, Makes, Fronted;
    if x != y {
      var ed :| Makes(x, ed, y);
      FrontKept(x, ed, y, strict);
      NotMisplaced(x, ed);
      EditKeeps(x, ed, y, strict);
    }
  }

  lemma NotMisplaced(x: Index, ed: Edit)
    requires !Fronted(x)
    ensures !Misplaces(x, ed)
  {
  }

  lemma {:induction false} AnyKeeps(xs: seq<Index>, strict: bool)
    requires AnyHistory(xs) && Held(xs[0], strict) && AllRead(xs[0]) && !Fronted(xs[0])
    ensures AllRead(xs[|xs| - 1]) && Held(xs[|xs| - 1], strict) && !Fronted(xs[|xs| - 1])
    decreases |xs|
  {
    hide Held, AllRead, Moves, Fronted;
    var n := |xs| - 1;
    if n > 0 {
      var before := xs[..n];
      forall i | 0 <= i < n - 1
        ensures Moves(before[i], before[i + 1])
      {
        assert Moves(xs[i], xs[i + 1]);
      }
      AnyKeeps(before, strict);
      assert Moves(xs[n - 1], xs[n - 1 + 1]);
      MoveKeeps(xs[n - 1], xs[n], strict);
    }
  }

  /**
   Of the documents whose text gives the indexed elements, exactly the steady ones whose text without the root does not
   begin with '<' keep that through all edits.
   */
  lemma AlwaysExactly(x: Index, strict: bool)
    requires Held(x, strict) && Reads(x) && x.f.Cons?
    ensures AlwaysReads(x) <==> Steady(x) && !Fronted(x)
  {
    hide Held, Reads, AllRead, Steady, Fronted, Moves, Lasting;
    SteadyReads(x, strict);
    if Steady(x) && !Fronted(x) {
      forall xs: seq<Index> | AnyHistory(xs) && xs[0] == x
        ensures Reads(xs[|xs| - 1])
      {
        AnyKeeps(xs, strict);
        ReadsAll(xs[|xs| - 1]);
      }
    } else if Steady(x) {
      var xs := LostByInsertion(x, strict);
    } else {
      LastsExactly(x, strict);
      LostAnyway(x);
    }
  }

  lemma LostAnyway(x: Index)
    requires !Lasting(x)
    ensures !AlwaysReads(x)
  {
    hide Reads, Makes, Misplaces;
    var xs: seq<Index> :| History(xs) && xs[0] == x && !Reads(xs[|xs| - 1]);
    forall i | 0 <= i < |xs| - 1
      ensures Moves(xs[i], xs[i + 1])
    {
      assert Steps(xs[i], xs[i + 1]);
    }
    assert AnyHistory(xs);
  }

  /** The root removed, and another one inserted behind the '<' that is left at the front. */
  lemma LostByInsertion(x: Index, strict: bool) returns (xs: seq<Index>)
    requires Held(x, strict) && Reads(x) && AllRead(x) && x.f.Cons? && Fronted(x)
    ensures AnyHistory(xs) && xs[0] == x && !Reads(xs[|xs| - 1])
  {
    hide Held, Reads, AllRead, Makes, RootGone, RootAdded, NameOk, Roots, Misplaces, NextNode;
    RootInText(x);
    RootCut(x, strict);
    var y := RootGone(x);
    GoneNil(x);
    SomeName();
    RootPut(y, true, "b", strict);
    var z := RootAdded(y, RootAt(y.doc, true), "b");
    NotRoot(x);
    EditKeeps(x, Drop(x.f.elem), y, strict);
    MisplacedExactly(y, true, "b", "", z, strict);
    xs := [x, y, z];
    assert Moves(x, y) && Moves(y, z);
    forall i | 0 <= i < 2
      ensures Moves(xs[i], xs[i + 1])
    {
      if i == 0 { assert xs[0] == x && xs[1] == y; } else { assert xs[1] == y && xs[2] == z; }
    }
  }

  lemma NotRoot(x: Index)
    requires x.f.Cons?
    ensures !Misplaces(x, Drop(x.f.elem))
  {
  }

  /**
   <?p?><a/> is such a text: without its root it is <?p?>, where a root is inserted at 1, which reads back if only a
   gap comes before.
   */
  lemma FrontMisread()
    ensures Gap("<?p?>", 0, 5) && RootAt("<?p?>", true) == 1 && !Gap("<?p?>", 0, 1)
  {
    hide NextNode;
    var doc := "<?p?>";
    ScanIs(doc, 0, Is('<'), true, 0);
    PiEnd(doc);
    EmptyGap(doc, 5);
    InsideFirstAt(doc);
  }

  lemma PiEnd(doc: string)
    requires doc == "<?p?>"
    ensures NodeEnd(doc, 0) == 5
  {
    assert doc[0..2] == "<?" && doc[1..3] == "?p" && doc[2..4] == "p?" && doc[3..5] == "?>";
    assert FindStr(doc, 3, "?>") == 3;
    assert FindStr(doc, 2, "?>") == FindStr(doc, 1, "?>") == FindStr(doc, 0, "?>") == 3;
  }
}
