/**
 CMarkupSTL: a document string with its arena of element positions, the current position and
 the editing operations, each of which splices the text and repairs the arena in place.
 */
module MarkupDocument {
  import opened MarkupText
  import opened MarkupArena
  import opened MarkupLayout
  import opened MarkupEdits
  import opened MarkupTags
  import opened MarkupState
  import opened MarkupWrite
  import opened MarkupData
  import opened MarkupParse
  import opened MarkupGrammar
  import opened MarkupTidy
  import opened MarkupReread
  import opened MarkupLasting
  import opened MarkupAlways
  import opened MarkupMeaning

  class Markup {
    var doc: string
    var aPos: seq<ElemPos>
    var iPosParent: nat
    var iPos: nat
    var iPosChild: nat
    var iPosFree: nat
    ghost var forest: Forest
    ghost var strict: bool

    /** The document as the laws about edits see it. */
    ghost function State(): Index
      reads this
    {
      Index(doc, aPos, iPosFree, forest)
    }

    ghost predicate Valid()
      reads this
    {
      Sound(doc, aPos, iPosFree, forest, strict) && PosOk()
    }

    /** The current positions are elements of the document, each a child of the one above. */
    ghost predicate PosOk()
      reads this
    {
      (iPosParent == 0 || iPosParent in Ids(forest)) &&
      (iPos != 0 ==> IsChild(iPos, iPosParent)) && (iPosChild != 0 ==> IsChild(iPosChild, iPos)) &&
      (iPosChild != 0 && iPos == 0 ==> iPosParent == 0)
    }

    ghost predicate IsChild(t: nat, top: nat)
      reads this
    {
      t in Ids(forest) && t < |aPos| && aPos[t].parent == top
    }

    /** The next slot that x_Adjust shifts. */
    method Traverse(iPos: nat, iPosTop: nat, deep: bool, ghost k: Forest, ghost r: Forest, ghost p: Path)
      returns (i: nat, ghost k': Forest, ghost r': Forest, ghost p': Path)
      requires Cursor(aPos, iPos, deep, k, r, p) && iPosTop in PathAnc(p)
      ensures i != iPosTop ==>
        Cursor(aPos, i, true, k', r', p') && iPosTop in PathAnc(p') && AncFrom(p', iPosTop) == AncFrom(p, iPosTop) &&
        i in Ahead(k, r, p) && Ahead(k', r', p') == Ahead(k, r, p) - {i}
      ensures i == iPosTop != 0 ==>
        Cursor(aPos, i, false, k', r', p') && Ahead(k', r', p') == Ahead(k, r, p) &&
        i in AncFrom(p, iPosTop) && PathAnc(p') == AncFrom(p, iPosTop) - {i}
      ensures i == iPosTop == 0 ==> Ahead(k, r, p) == {} && AncFrom(p, iPosTop) == {0}
      ensures i < |aPos| && (i == 0 ==> iPosTop == 0)
    {
      if deep && aPos[iPos].child != 0 {
        Descend(aPos, iPos, k, r, p, iPosTop);
        i, k', r', p' := aPos[iPos].child, k.kids, k.rest, Inside(iPos, r, p);
      } else if aPos[iPos].next != 0 {
        assert k == Nil;
        Sideways(aPos, iPos, r, p, iPosTop);
        i, k', r', p' := aPos[iPos].next, r.kids, r.rest, p;
      } else {
        assert k == r == Nil;
        i, k', r', p' := aPos[iPos].parent, Nil, Nil, p;
        while i != 0 && i != iPosTop
          invariant i == ParentOf(p') && PathLinked(aPos, p') && UniqPath(p') && iPosTop in PathAnc(p')
          invariant PathAfter(p') == Ahead(k, r, p) && AncFrom(p', iPosTop) == AncFrom(p, iPosTop)
          decreases p'
        {
          if aPos[i].next != 0 {
            Sideways(aPos, i, p'.rest, p'.up, iPosTop);
            i, k', r', p' := aPos[i].next, p'.rest.kids, p'.rest.rest, p'.up;
            return;
          }
          i, p' := aPos[i].parent, p'.up;
        }
        if i != 0 { r', p' := p'.rest, p'.up; }
      }
    }

    /** Shifts the indexes at iPos. */
    method ShiftAt(iPos: nat, iPosTop: nat, n: int, ghost k: Forest, ghost r: Forest, ghost p: Path,
                   ghost a0: seq<ElemPos>, ghost both: set<nat>, ghost ends: set<nat>, ghost pb: set<nat>,
                   ghost pe: set<nat>)
      requires iPos < |aPos| && aPos == Shifting(a0, both, ends, pb, pe, n)
      requires both !! ends && pb <= both && pe <= ends && if iPos == iPosTop then iPos in pe else iPos in pb
      requires iPos != 0 ==> Cursor(aPos, iPos, iPos != iPosTop, k, r, p)
      modifies this`aPos
      ensures aPos == if iPos == iPosTop then Shifting(a0, both, ends, pb, pe - {iPos}, n)
                                         else Shifting(a0, both, ends, pb - {iPos}, pe, n)
      ensures iPos != 0 ==> Cursor(aPos, iPos, iPos != iPosTop, k, r, p)
    {
      ghost var a := aPos;
      if iPos != iPosTop {
        VisitBoth(a0, both, ends, pb, pe, n, iPos);
        aPos := aPos[iPos := aPos[iPos].AdjustStart(n)];
      } else {
        VisitEnd(a0, both, ends, pb, pe, n, iPos);
      }
      aPos := aPos[iPos := aPos[iPos].AdjustEnd(n)];
      if iPos != 0 { CursorKept(a, aPos, iPos, iPos != iPosTop, k, r, p); }
    }

    /** x_Adjust: offsets ahead of `start` move by `n`, and so do the end tags around it; nothing else changes. */
    method Adjust(start: nat, n: int, after: bool, ghost kids: Forest, ghost rest: Forest, ghost path: Path)
      requires Cursor(aPos, start, !after, kids, rest, path)
      modifies this`aPos
      ensures aPos == Shift(old(aPos), Ahead(kids, rest, path), PathAnc(path), n)
    {
      hide *;
      CursorFacts(aPos, start, !after, kids, rest, path);
      var iPos := start;
      var iPosTop := aPos[iPos].parent;
      var posFirst := after;
      ghost var both, ends := Ahead(kids, rest, path), PathAnc(path);
      ghost var k, r, p, pb, pe := kids, rest, path, both, ends;
      ShiftingNone(aPos, both, ends, n);
      while iPos != 0
        invariant pb <= both && pe <= ends && 0 < |aPos|
        invariant aPos == Shifting(old(aPos), both, ends, pb, pe, n)
        invariant iPos == 0 ==> pb == pe == {}
        invariant iPos != 0 ==> Cursor(aPos, iPos, !(posFirst || iPos == iPosTop), k, r, p) && pb == Ahead(k, r, p)
        invariant iPos != 0 ==> if iPos == iPosTop then pe == PathAnc(p)
                                else iPosTop in PathAnc(p) && pe == AncFrom(p, iPosTop)
        decreases pb, pe
      {
        CursorFacts(aPos, iPos, !(posFirst || iPos == iPosTop), k, r, p);
        var posTop := false;
        if iPos == iPosTop {
          iPosTop := aPos[iPos].parent;
          posTop := true;
        }
        iPos, k, r, p := Traverse(iPos, iPosTop, !posTop && !posFirst, k, r, p);
        posFirst := false;
        ShiftAt(iPos, iPosTop, n, k, r, p, old(aPos), both, ends, pb, pe);
        if iPos == iPosTop { pe := pe - {iPos}; } else { pb := pb - {iPos}; }
      }
      ShiftingDone(old(aPos), both, ends, n);
    }

    /** x_GetFreePos */
    method GetFreePos() returns (i: nat)
      requires 2 <= |aPos| && iPosFree <= |aPos|
      modifies this`aPos, this`iPosFree
      ensures i == old(iPosFree) && iPosFree == i + 1 <= |aPos|
      ensures |old(aPos)| <= |aPos| && aPos[..|old(aPos)|] == old(aPos)
    {
      if iPosFree == |aPos| {
        aPos := aPos + seq(iPosFree / 2, _ => CLEARED);
      }
      i := iPosFree;
      iPosFree := iPosFree + 1;
    }

    /** The sibling before `rel`, or 0 (x_LocateNew and x_RemoveElem look for it alike). */
    method PrevSibling(top: nat, rel: nat) returns (prev: nat)
      requires Sound(doc, aPos, iPosFree, forest, strict) && (top == 0 || top in Ids(forest)) &&
               rel in TopIds(Kids(forest, top))
      ensures IsPlace(Kids(forest, top), prev) && Past(Kids(forest, top), prev).Cons? &&
              Past(Kids(forest, top), prev).elem == rel
    {
      ghost var k := Kids(forest, top);
      KidsLinked(doc, aPos, iPosFree, forest, top, strict);
      var look := aPos[top].child;
      prev := 0;
      while look != rel
        invariant IsPlace(k, prev) && Past(k, prev).Cons? && Past(k, prev).elem == look && rel in TopIds(Past(k, prev))
        invariant Linked(aPos, Past(k, prev), look, top)
        decreases Past(k, prev)
      {
        PastNext(k, prev);
        prev := look;
        look := aPos[look].next;
      }
    }

    /** The last child of `top`, or 0. */
    method LastChild(top: nat) returns (last: nat)
      requires Sound(doc, aPos, iPosFree, forest, strict) && (top == 0 || top in Ids(forest))
      ensures IsPlace(Kids(forest, top), last) && Past(Kids(forest, top), last) == Nil
    {
      ghost var k := Kids(forest, top);
      KidsLinked(doc, aPos, iPosFree, forest, top, strict);
      last := 0;
      var next := aPos[top].child;
      while next != 0
        invariant IsPlace(k, last) && Linked(aPos, Past(k, last), next, top)
        decreases Past(k, last)
      {
        PastNext(k, last);
        last := next;
        next := aPos[next].next;
      }
    }

    /** Where x_LocateNew writes a new child of `top`: next to `rel`, or first or last. */
    method NewOffset(top: nat, rel: nat, insert: bool) returns (nOffset: nat)
      requires top < |aPos| && rel < |aPos|
      requires 0 <= PlaceAt(aPos, top, rel, insert) <= |doc|
      ensures nOffset == if aPos[top].IsEmptyElement() then PlaceAt(aPos, top, rel, insert)
                                                       else NextNode(doc, PlaceAt(aPos, top, rel, insert))
    {
      var nStartL: int;
      if rel != 0 {
        if insert { nStartL := aPos[rel].startL; } else { nStartL := aPos[rel].endR + 1; }
      } else if aPos[top].IsEmptyElement() {
        nStartL := aPos[top].startR;
      } else if insert {
        nStartL := aPos[top].startR + 1;
      } else {
        nStartL := aPos[top].endL;
      }
      if !aPos[top].IsEmptyElement() {
        var token := FindToken(doc, nStartL);
        if !token.found || (token.l < |doc| && doc[token.l] == '<') { nStartL := token.l; }
      }
      nOffset := nStartL;
    }

    /** x_LocateNew: where to write a new child of `top`, and after which sibling to link it. */
    method LocateNew(top: nat, rel: nat, insert: bool, ghost whole: bool) returns (before: nat, nOffset: nat)
      requires Sound(doc, aPos, iPosFree, forest, strict) && (top == 0 || top in Ids(forest))
      requires top == 0 ==> forest == Nil && aPos[0].endL == |doc| && (insert ==> |doc| > 0)
      requires rel == 0 || rel in TopIds(Kids(forest, top))
      requires whole ==> Whole(doc, aPos, forest) && (top == 0 && insert ==> doc[0] != '<')
      ensures IsPlace(Kids(forest, top), before) && Placed(Kids(forest, top), rel, insert, before) && top < |aPos|
      ensures top != 0 && aPos[top].IsEmptyElement() ==>
        before == 0 && nOffset == aPos[top].startR && Kids(forest, top) == Nil
      ensures top == 0 ==>
        nOffset <= |doc| && before == 0 && (whole ==> Gap(doc, 0, nOffset) && Gap(doc, nOffset, |doc|))
      ensures top == 0 ==> nOffset == RootAt(doc, insert) && rel == 0
      ensures top != 0 && !aPos[top].IsEmptyElement() ==>
        rel < |aPos| && 0 <= PlaceAt(aPos, top, rel, insert) <= |doc| &&
        nOffset == NextNode(doc, PlaceAt(aPos, top, rel, insert))
      ensures top != 0 && !aPos[top].IsEmptyElement() ==>
        Room(doc, aPos, Kids(forest, top), before, aPos[top], nOffset, strict, whole)
    {
      hide Sound, Laid, Linked, Upto, NextNode, ElemOk, TidyIn, Gap;
      PlaceInDoc(doc, aPos, iPosFree, forest, top, rel, insert, strict);
      nOffset := NewOffset(top, rel, insert);
      before := 0;
      if rel != 0 {
        if insert { before := PrevSibling(top, rel); } else { before := rel; }
      } else if aPos[top].child != 0 {
        if !insert { before := LastChild(top); }
      }
      if top != 0 && !aPos[top].IsEmptyElement() {
        LocatedRight(doc, aPos, iPosFree, forest, top, rel, insert, before, strict);
        if whole { TidyLocated(doc, aPos, iPosFree, forest, top, rel, insert, before, strict); }
      }
      if top == 0 {
        RootPlace(doc, aPos, iPosFree, strict);
        if whole { RootLocated(doc, aPos, iPosFree, insert, strict); }
      }
    }

    /** Takes a free slot and links it in below `top` after `before`. */
    method LinkNew(top: nat, before: nat) returns (i: nat)
      requires 2 <= |aPos| && iPosFree <= |aPos| && top < iPosFree && before < iPosFree
      modifies this`aPos, this`iPosFree
      ensures i == old(iPosFree) && iPosFree == i + 1 <= |aPos|
      ensures LinkedIn(old(aPos), aPos, top, before, i)
      ensures OffsetsBut(old(aPos), aPos, i)
    {
      i := GetFreePos();
      assert forall j :: 0 <= j < |old(aPos)| ==> aPos[j] == aPos[..|old(aPos)|][j] == old(aPos)[j];
      aPos := aPos[i := aPos[i].(parent := top, child := 0, next := 0)];
      if before != 0 {
        aPos := aPos[i := aPos[i].(next := aPos[before].next)];
        aPos := aPos[before := aPos[before].(next := i)];
      } else {
        aPos := aPos[i := aPos[i].(next := aPos[top].child)];
        aPos := aPos[top := aPos[top].(child := i)];
      }
    }

    /** x_AddElem below an element with tags of its own, once located. */
    method AddBelow(top: nat, before: nat, nOffset: nat, name: string, value: string, ghost whole: bool)
      returns (i: nat)
      requires Sound(doc, aPos, iPosFree, forest, strict) && top in Ids(forest) && top < |aPos| && NameOk(name)
      requires IsPlace(Kids(forest, top), before) && !aPos[top].IsEmptyElement()
      requires Room(doc, aPos, Kids(forest, top), before, aPos[top], nOffset, strict, whole) &&
               (whole ==> Whole(doc, aPos, forest))
      modifies this`doc, this`aPos, this`iPosFree, this`forest
      ensures i == old(iPosFree) && iPosFree == i + 1 && Sound(doc, aPos, iPosFree, forest, strict)
      ensures forest == WithChild(old(forest), top, before, i) && (whole ==> Whole(doc, aPos, forest))
      ensures NewChild(old(doc), old(aPos), old(forest), doc, aPos, forest, i, top, name, value, strict)
      ensures Adopts(old(State()), top, before, nOffset, name, value, State())
    {
      hide Sound, Room, Whole, NewChild, Find, Cursor, Linked, Shift, Ahead, PathAnc, DocChange, ElemText, ElemAt,
           NameOk, ReplaceKids, Insert, Past, LinkedIn, OffsetsBut, IsPlace, ElemOk, WithChild, TagName;
      ghost var (k, r, p) := Find(forest, top, Top);
      ghost var a := aPos;
      RoomReady(doc, aPos, iPosFree, forest, top, before, nOffset, strict, whole);
      i := LinkNew(top, before);
      ghost var a1 := aPos;
      aPos := aPos[i := ElemAt(nOffset, name, value, aPos[i])];
      var strInsert := ElemText(name, value) + "\r\n";
      ElemAtLinks(a, a1, aPos, top, before, i, nOffset, name, value);
      InsertCursor(doc, a, aPos, i, forest, top, before, i, k, r, p, strict);
      ghost var a2 := aPos;
      doc := DocChange(doc, nOffset, 0, strInsert);
      Adjust(i, |strInsert|, false, Nil, Past(k, before), Inside(top, r, p));
      InsertedBelow(old(doc), doc, a, a2, aPos, i, forest, top, before, k, r, p, nOffset, name, value, a1[i], strict,
                    whole);
      forest := WithChild(forest, top, before, i);
      assert AdoptsBy(old(State()), top, before, nOffset, name, value, a2, a1[i], State());
    }

    /** x_GetTagName */
    method GetTagName(t: nat) returns (name: string)
      requires Sound(doc, aPos, iPosFree, forest, strict) && t in Ids(forest) && t < |aPos|
      ensures ElemOk(doc, aPos[t], strict) && name == TagName(StartTag(doc, aPos[t]))
    {
      hide Laid, Linked, TagsOk, TokenAt, TagName, Sound, Cursor;
      SoundAt(doc, aPos, iPosFree, forest, t, strict);
      TagNameInDoc(doc, aPos[t], strict);
      var token := FindToken(doc, aPos[t].startL + 1);
      name := doc[token.l..token.r + 1];
    }

    /** x_AddElem below an empty element, which is split into a start tag and an end tag. */
    method AddOpened(top: nat, name: string, value: string, ghost whole: bool) returns (i: nat)
      requires Sound(doc, aPos, iPosFree, forest, strict) && top in Ids(forest) && top < |aPos| && NameOk(name)
      requires aPos[top].IsEmptyElement() && (whole ==> Whole(doc, aPos, forest))
      modifies this`doc, this`aPos, this`iPosFree, this`forest
      ensures i == old(iPosFree) && iPosFree == i + 1 && Sound(doc, aPos, iPosFree, forest, strict)
      ensures forest == WithChild(old(forest), top, 0, i) && (whole ==> Whole(doc, aPos, forest))
      ensures NewChild(old(doc), old(aPos), old(forest), doc, aPos, forest, i, top, name, value, strict)
      ensures AdoptsSplit(old(State()), top, name, value, State())
    {
      hide Sound, Whole, NewChild, Find, Cursor, Linked, Shift, Ahead, PathAnc, DocChange, ElemText, ElemAt, NameOk,
           ReplaceKids, Insert, LinkedIn, ElemOk, WithChild, TagName, StartTag;
      ghost var (k, r, p) := Find(forest, top, Top);
      ghost var a := aPos;
      OpenReady(doc, aPos, iPosFree, forest, top, strict);
      var parentName := GetTagName(top);
      var nOffset := aPos[top].startR + 2;
      i := LinkNew(top, 0);
      ghost var a1 := aPos;
      aPos := aPos[i := ElemAt(nOffset, name, value, aPos[i])];
      ElemAtLinks(a, a1, aPos, top, 0, i, nOffset, name, value);
      var text := "\r\n" + ElemText(name, value) + "\r\n";
      var strInsert := OpenedBy(parentName, text);
      // x_Adjust moves all affected offsets by one amount; the split parent is adjusted beforehand
      ghost var a2 := aPos;
      aPos := aPos[top := aPos[top].(startR := aPos[top].startR - 1, endL := aPos[top].endL - (|parentName| + 1))];
      PreAdjusted(a, a2, aPos, top, i);
      PlaceNone();
      InsertCursor(doc, a, aPos, i, forest, top, 0, i, k, r, p, strict);
      ghost var a3 := aPos;
      doc := DocChange(doc, nOffset - 3, 1, strInsert);
      Adjust(i, |strInsert| - 1, false, Nil, Nil, Inside(top, r, p));
      InsertedOpened(old(doc), doc, a, a3, aPos, i, forest, top, r, p, parentName, name, value, a1[i], strict, whole);
      forest := WithChild(forest, top, 0, i);
      assert AdoptsSplitBy(old(State()), top, name, value, a3, a1[i], State());
    }

    /** x_AddElem at the root of a document without elements. */
    method AddRoot(nOffset: nat, name: string, value: string, ghost whole: bool) returns (i: nat)
      requires Sound(doc, aPos, iPosFree, forest, strict) && forest == Nil && nOffset <= |doc| && NameOk(name)
      requires aPos[0].endL == |doc|
      requires whole ==> Gap(doc, 0, nOffset) && Gap(doc, nOffset, |doc|)
      modifies this`doc, this`aPos, this`iPosFree, this`forest
      ensures i == old(iPosFree) && iPosFree == i + 1 && Sound(doc, aPos, iPosFree, forest, strict)
      ensures forest == Cons(i, Nil, Nil) && (whole ==> Whole(doc, aPos, forest)) && i < |aPos| &&
              aPos[i].startL == nOffset
      ensures NewChild(old(doc), old(aPos), old(forest), doc, aPos, forest, i, 0, name, value, strict)
      ensures Roots(old(State()), nOffset, name, value, State())
    {
      hide ElemOk, Laid, Shift, NameOk, DocChange, ElemText, ElemAt, Gap, TidyIn;
      ghost var a := aPos;
      i := LinkNew(0, 0);
      ghost var a1 := aPos;
      aPos := aPos[i := ElemAt(nOffset, name, value, aPos[i])];
      ElemAtLinks(a, a1, aPos, 0, 0, i, nOffset, name, value);
      var strInsert := ElemText(name, value) + "\r\n";
      ghost var a2 := aPos;
      doc := DocChange(doc, nOffset, 0, strInsert);
      Adjust(i, |strInsert|, false, Nil, Nil, Top);
      RootDone(old(doc), doc, a, a2, aPos, i, nOffset, name, value, a1[i], strict);
      if whole { TidyRoot(old(doc), doc, a, a2, aPos, i, nOffset, name, value, a1[i], strict); }
      forest := Cons(i, Nil, Nil);
      assert RootsBy(old(State()), nOffset, name, value, a2, a1[i], State());
    }

    predicate IsWellFormed()
      reads this
    {
      |aPos| > 0 && aPos[0].child != 0
    }

    method SetPos(parent: nat, pos: nat, child: nat)
      modifies this`iPosParent, this`iPos, this`iPosChild
      ensures iPosParent == parent && iPos == pos && iPosChild == child
    {
      iPosParent, iPos, iPosChild := parent, pos, child;
    }

    /** The part of x_AddElem that locates and writes the new element. */
    method AddIn(top: nat, rel: nat, insert: bool, name: string, value: string) returns (i: nat, before: nat)
      requires Sound(doc, aPos, iPosFree, forest, strict) && (top == 0 || top in Ids(forest)) && NameOk(name)
      requires (top == 0 ==> forest == Nil && (insert ==> doc != "")) && (rel == 0 || rel in TopIds(Kids(forest, top)))
      modifies this`doc, this`aPos, this`iPosFree, this`forest
      ensures i == old(iPosFree) && Sound(doc, aPos, iPosFree, forest, strict)
      ensures Placed(Kids(old(forest), top), rel, insert, before) && forest == WithChild(old(forest), top, before, i)
      ensures NewChild(old(doc), old(aPos), old(forest), doc, aPos, forest, i, top, name, value, strict)
      ensures Makes(old(State()), Adopt(top, rel, insert, name, value), State())
      ensures Rereads(old(State()), Adopt(top, rel, insert, name, value), State())
      ensures old(Whole(doc, aPos, forest)) && !InsideFirst(old(doc), insert && top == 0) ==> Whole(doc, aPos, forest)
    {
      hide Sound, NameOk, Whole, SameElements, NewChild, WithChild, TopIds, Kids, Placed, Gap, Room, IsPlace, NextNode,
           RootAt, Roots, Adopts, AdoptsSplit, PlaceAt, Rereads;
      SoundRootLink(doc, aPos, iPosFree, forest, strict);
      ghost var a, f := aPos, forest;
      ghost var whole := Whole(doc, aPos, forest) && !InsideFirst(doc, insert && top == 0);
      SoundFresh(doc, aPos, iPosFree, forest, strict);
      if top == 0 {
        aPos := aPos[0 := aPos[0].(endL := |doc|)];
        RootEnd(doc, a, iPosFree, strict, |doc|);
        WholeNone(doc, a, aPos);
      }
      ghost var b := aPos;
      var nOffset;
      before, nOffset := LocateNew(top, rel, insert, whole);
      i := AddLocated(top, before, nOffset, name, value, whole);
      NewChildRoot(old(doc), a, b, f, doc, aPos, forest, i, top, name, value, strict);
      if top == 0 {
        RootsBefore(old(State()), Index(old(doc), b, old(iPosFree), f), nOffset, name, value, State());
      } else if !b[top].IsEmptyElement() {
        assert AdoptsAt(old(State()), top, rel, insert, before, name, value, State());
      }
      EditRereads(old(State()), Adopt(top, rel, insert, name, value), State(), strict);
    }

    /** x_AddElem: AddElem, InsertElem, AddChildElem and InsertChildElem. */
    method AddElem(name: string, value: string, insert: bool, addChild: bool) returns (ok: bool, ghost before: nat)
      requires Valid() && NameOk(name)
      // inserting a root before the first character of an empty document is out of range in the source
      requires insert && !addChild && iPosParent == 0 ==> doc != ""
      modifies this
      ensures Valid() && strict == old(strict)
      ensures ok == if addChild then old(iPos) != 0 else old(iPosParent) != 0 || old(forest) == Nil
      ensures !ok ==> State() == old(State())
      ensures ok ==>
        Makes(old(State()), Adopt(if addChild then old(iPos) else old(iPosParent),
                                  if addChild then old(iPosChild) else old(iPos), insert, name, value), State())
      ensures ok ==>
        var top, rel := if addChild then old(iPos) else old(iPosParent), if addChild then old(iPosChild) else old(iPos);
        (top == 0 || top in Ids(old(forest))) && Placed(Kids(old(forest), top), rel, insert, before) &&
        forest == WithChild(old(forest), top, before, old(iPosFree))
      ensures ok ==> NewChild(old(doc), old(aPos), old(forest), doc, aPos, forest, old(iPosFree),
                              if addChild then old(iPos) else old(iPosParent), name, value, strict)
      ensures ok ==>
        Rereads(old(State()), Adopt(if addChild then old(iPos) else old(iPosParent),
                                    if addChild then old(iPosChild) else old(iPos), insert, name, value), State())
      ensures ok && addChild ==> iPosChild == old(iPosFree) && iPos == old(iPos) && iPosParent == old(iPosParent)
      ensures ok && !addChild ==> iPos == old(iPosFree) && iPosChild == 0 && iPosParent == old(iPosParent)
    {
      hide Sound, NameOk, Whole, SameElements, InsideFirst, NewChild, WithChild, Kids, TopIds, Placed, Ids, ParentsKept,
           Makes, Rereads;
      before := 0;
      SoundFresh(doc, aPos, iPosFree, forest, strict);
      SoundRootLink(doc, aPos, iPosFree, forest, strict);
      if addChild {
        if iPos == 0 { return false, 0; }
      } else if iPosParent == 0 {
        if IsWellFormed() { return false, 0; }
      }
      var top, rel := if addChild then iPos else iPosParent, if addChild then iPosChild else iPos;
      if rel != 0 { InKids(doc, aPos, iPosFree, forest, rel, strict); }
      var i;
      i, before := AddIn(top, rel, insert, name, value);
      NewChildParents(old(doc), old(aPos), old(forest), doc, aPos, forest, i, top, name, value, strict);
      ParentsAt(old(aPos), aPos, Ids(old(forest)), iPosParent, iPos);
      if addChild { SetPos(iPosParent, top, i); } else { SetPos(top, i, 0); }
      ok := true;
    }

    /** The rest of x_AddElem, once located. */
    method AddLocated(top: nat, before: nat, nOffset: nat, name: string, value: string, ghost whole: bool)
      returns (i: nat)
      requires Sound(doc, aPos, iPosFree, forest, strict) && (top == 0 || top in Ids(forest)) && top < |aPos| &&
               NameOk(name)
      requires IsPlace(Kids(forest, top), before) && (whole ==> Whole(doc, aPos, forest))
      requires top == 0 ==>
        forest == Nil && nOffset <= |doc| && (whole ==> Gap(doc, 0, nOffset) && Gap(doc, nOffset, |doc|))
      requires top == 0 ==> aPos[0].endL == |doc|
      requires top != 0 && aPos[top].IsEmptyElement() ==> Kids(forest, top) == Nil
      requires top != 0 && !aPos[top].IsEmptyElement() ==>
        Room(doc, aPos, Kids(forest, top), before, aPos[top], nOffset, strict, whole)
      modifies this`doc, this`aPos, this`iPosFree, this`forest
      ensures i == old(iPosFree) && iPosFree == i + 1 && Sound(doc, aPos, iPosFree, forest, strict)
      ensures forest == WithChild(old(forest), top, before, i) && (whole ==> Whole(doc, aPos, forest))
      ensures top == 0 ==> forest == Cons(i, Nil, Nil) && i < |aPos| && aPos[i].startL == nOffset
      ensures NewChild(old(doc), old(aPos), old(forest), doc, aPos, forest, i, top, name, value, strict)
      ensures if top == 0 then Roots(old(State()), nOffset, name, value, State())
              else if old(aPos)[top].IsEmptyElement() then AdoptsSplit(old(State()), top, name, value, State())
              else Adopts(old(State()), top, before, nOffset, name, value, State())
    {
      hide Sound, NewChild, ReplaceKids, Insert, NameOk, Upto, Past, Room, Whole, Gap, Roots, Adopts, AdoptsSplit;
      if Kids(forest, top) == Nil { OnlyChild(forest, top, before, iPosFree); }
      if top == 0 {
        i := AddRoot(nOffset, name, value, whole);
      } else if aPos[top].IsEmptyElement() {
        OnlyChild(forest, top, 0, iPosFree);
        i := AddOpened(top, name, value, whole);
      } else {
        i := AddBelow(top, before, nOffset, name, value, whole);
      }
    }

    /** The splice by which x_SetAttrib turns the start tag of `t` into `AttribTag`. */
    method AttribEdit(t: nat, attr: string, value: string) returns (nInsertAt: nat, nReplace: nat, strInsert: string)
      requires t < |aPos| && ElemOk(doc, aPos[t], strict) && CleanTag(StartTag(doc, aPos[t]))
      ensures nInsertAt + nReplace <= |doc|
      ensures var tag := StartTag(doc, aPos[t]); var s := AttribTag(tag, aPos[t].IsEmptyElement(), attr, value);
        DocChange(doc, nInsertAt, nReplace, strInsert) == DocChange(doc, aPos[t].startL, |tag|, s) &&
        |strInsert| - nReplace == |s| - |tag|
    {
      hide TagsOk, AttribTag, AttribAt, ValueFound, DocChange, CleanTag, Pair, Escape;
      AttribInTag(doc, aPos[t], attr, strict);
      var token := FindAttrib(doc, aPos[t].startL + 1, attr);
      var escaped := TextToDoc(value, true);
      if token.found {
        strInsert, nInsertAt, nReplace := escaped, token.l, token.r - token.l + 1;
        ReplacedSplice(doc, aPos[t], attr, value);
      } else {
        strInsert := Pair(attr, escaped);
        nInsertAt, nReplace := aPos[t].startR - (if aPos[t].IsEmptyElement() then 1 else 0), 0;
        InsertedSplice(doc, aPos[t], attr, value);
      }
    }

    /** x_SetAttrib on the element at `t`, whose start tag has no '>' inside a quoted value. */
    method SetAttrib(t: nat, attr: string, value: string) returns (ok: bool)
      requires Valid() && NameOk(attr) && (t == 0 || t in Ids(forest)) && t < |aPos|
      requires t != 0 ==> ElemOk(doc, aPos[t], strict) && CleanTag(StartTag(doc, aPos[t]))
      modifies this`doc, this`aPos
      ensures Valid() && ok == (t != 0 && iPos != 0) && (!ok ==> doc == old(doc) && aPos == old(aPos))
      ensures ok ==>
        t < |aPos| && ElemOk(doc, aPos[t], strict) &&
        TagFor(StartTag(doc, aPos[t]), old(aPos)[t].IsEmptyElement(), true)
      ensures ok ==> Attributed(old(doc), old(aPos)[t], doc, aPos[t], attr, value)
      ensures ok ==> Makes(old(State()), Retag(t, attr, value), State())
      ensures old(Whole(doc, aPos, forest)) ==> Whole(doc, aPos, forest)
    {
      hide Sound, TagsOk, TagFor, AttribTag, TagName, NameOk, Shift, Ahead, PathAnc, DocChange, CleanTag, UniqIn,
           Cursor, Whole, Find, Retagging, Makes, Attributed;
      if t == 0 || iPos == 0 { return false; }
      ghost var (k, r, p) := Find(forest, t, Top);
      ghost var a, e := aPos, aPos[t];
      SoundAt(doc, aPos, iPosFree, forest, t, strict);
      var nInsertAt, nReplace, strInsert := AttribEdit(t, attr, value);
      doc := DocChange(doc, nInsertAt, nReplace, strInsert);
      var nAdjust := |strInsert| - nReplace;
      aPos := aPos[t := aPos[t].(startR := aPos[t].startR + nAdjust).AdjustEnd(nAdjust)];
      CursorKept(a, aPos, t, true, k, r, p);
      Adjust(t, nAdjust, false, k, r, p);
      RetagSize(old(doc), e, doc, attr, value, nAdjust, strict);
      AttribSet(old(doc), doc, a, aPos, iPosFree, forest, t, attr, value, k, r, p, nAdjust, strict);
      RetagMade(old(doc), doc, a, aPos, iPosFree, forest, t, attr, value, k, r, p, nAdjust);
      ok := true;
    }

    /** x_SetData on an element with a start and an end tag. */
    method SetContent(t: nat, data: string, cdata: bool)
      requires Sound(doc, aPos, iPosFree, forest, strict) && t in Ids(forest) && t < |aPos| && aPos[t].child == 0 &&
               !aPos[t].IsEmptyElement()
      modifies this`doc, this`aPos
      ensures Sound(doc, aPos, iPosFree, forest, strict) && |aPos| == |old(aPos)| &&
              ParentsKept(old(aPos), aPos, Ids(forest))
      ensures DataSet(old(doc), old(aPos)[t], doc, aPos[t], data, cdata)
      ensures old(Whole(doc, aPos, forest)) ==> Whole(doc, aPos, forest)
      ensures Fills(old(State()), t, data, cdata, State())
    {
      hide Sound, TagsOk, Shift, Ahead, PathAnc, DocChange, UniqIn, Cursor, Content, DataOf, Laid, Whole, Find;
      ghost var (k, r, p) := Find(forest, t, Top);
      ChildlessAt(doc, aPos, iPosFree, forest, t, strict);
      var strInsert := Content(data, cdata);
      var nInsertAt, nReplace := aPos[t].startR + 1, aPos[t].endL - aPos[t].startR - 1;
      doc := DocChange(doc, nInsertAt, nReplace, strInsert);
      var nAdjust := |strInsert| - nReplace;
      Adjust(t, nAdjust, false, Nil, r, p);
      aPos := aPos[t := aPos[t].AdjustEnd(nAdjust)];
      ContentSet(old(doc), doc, old(aPos), aPos, iPosFree, forest, t, data, cdata, r, p, nAdjust, strict);
    }

    /** x_SetData on an empty element, which is split into a start tag and an end tag. */
    method OpenContent(t: nat, data: string, cdata: bool)
      requires Sound(doc, aPos, iPosFree, forest, strict) && t in Ids(forest) && t < |aPos| && aPos[t].child == 0 &&
               aPos[t].IsEmptyElement()
      modifies this`doc, this`aPos
      ensures Sound(doc, aPos, iPosFree, forest, strict) && |aPos| == |old(aPos)| &&
              ParentsKept(old(aPos), aPos, Ids(forest))
      ensures DataSet(old(doc), old(aPos)[t], doc, aPos[t], data, cdata)
      ensures old(Whole(doc, aPos, forest)) ==> Whole(doc, aPos, forest)
      ensures Splits(old(State()), t, data, cdata, State())
    {
      hide Sound, TagsOk, Shift, Ahead, PathAnc, DocChange, UniqIn, Cursor, Content, DataOf, TagName, Laid, Whole, Find,
           Splits, DataSet;
      ghost var (k, r, p) := Find(forest, t, Top);
      ghost var a := aPos;
      ChildlessAt(doc, aPos, iPosFree, forest, t, strict);
      var nInsertAt, nReplace := aPos[t].endL, 1;
      var tagName := GetTagName(t);
      aPos := aPos[t := aPos[t].(startR := aPos[t].startR - 1, endL := aPos[t].endL - (1 + |tagName|))];
      ghost var e := aPos[t];
      CursorKept(a, aPos, t, true, Nil, r, p);
      var strInsert := OpenedBy(tagName, Content(data, cdata));
      doc := DocChange(doc, nInsertAt, nReplace, strInsert);
      var nAdjust := |strInsert| - nReplace;
      Adjust(t, nAdjust, false, Nil, r, p);
      aPos := aPos[t := aPos[t].AdjustEnd(nAdjust)];
      OpenedSet(old(doc), doc, a, aPos, iPosFree, forest, t, data, cdata, tagName, e, r, p, strict);
      SplitMade(old(doc), doc, a, aPos, iPosFree, forest, t, data, cdata, tagName, e, r, p);
    }

    /** x_SetData on the element at `t`: what is set reads back, and the text around it is kept. */
    method SetData(t: nat, data: string, cdata: bool) returns (ok: bool)
      requires Valid() && (t == 0 || t in Ids(forest)) && t < |aPos|
      modifies this`doc, this`aPos
      ensures Valid() && ok == (t != 0 && old(aPos)[t].child == 0) && (!ok ==> doc == old(doc) && aPos == old(aPos))
      ensures ok ==> t < |aPos| && DataSet(old(doc), old(aPos)[t], doc, aPos[t], data, cdata)
      ensures ok ==>
        Makes(old(State()), Refill(t, data, cdata), State()) && Rereads(old(State()), Refill(t, data, cdata), State())
      ensures old(Whole(doc, aPos, forest)) ==> Whole(doc, aPos, forest)
    {
      hide Sound, DataSet, Whole, Fills, Splits, Rereads;
      if t == 0 || aPos[t].child != 0 { return false; }
      if aPos[t].IsEmptyElement() { OpenContent(t, data, cdata); } else { SetContent(t, data, cdata); }
      EditRereads(old(State()), Refill(t, data, cdata), State(), strict);
      ok := true;
    }

    /** x_GetAttrib: the attribute's value in the start tag, if that has no '>' inside a quoted value. */
    method GetAttrib(t: nat, attr: string) returns (value: string)
      requires Valid() && (t == 0 || t in Ids(forest)) && t < |aPos|
      requires t != 0 ==> ElemOk(doc, aPos[t], strict) && CleanTag(StartTag(doc, aPos[t]))
      ensures value == if t == 0 || iPos == 0 then "" else ReadAttrib(StartTag(doc, aPos[t]), attr)
      ensures t != 0 && iPos != 0 ==> ValueRead(StartTag(doc, aPos[t]), attr, value)
    {
      hide Sound, ValueRead, ValueFound, AttribAt, TagsOk, CleanTag, Unescape, DocChange;
      if t == 0 || iPos == 0 { return ""; }
      AttribInTag(doc, aPos[t], attr, strict);
      ReadMeans(StartTag(doc, aPos[t]), attr);
      var token := FindAttrib(doc, aPos[t].startL + 1, attr);
      if !token.found { return ""; }
      ghost var u := AttribAt(StartTag(doc, aPos[t]), 1, attr, 0, 0);
      SubSlice(doc, aPos[t].startL, aPos[t].startR + 1, u.l, u.r + 1);
      value := TextFromDoc(doc, token.l, token.r + 1);
    }

    /** x_GetData: the text of an element without children; a CDATA section as it is. */
    method GetData(t: nat) returns (data: string)
      requires Valid() && t in Ids(forest) && t < |aPos| && Bounded(doc, aPos[t])
      ensures data == if aPos[t].child != 0 then "" else DataOf(doc, aPos[t])
    {
      hide Sound, DataOf;
      if aPos[t].child != 0 { return ""; }
      data := ReadData(doc, aPos[t]);
    }

    /** Bypasses `t`, which comes after `prev` below `top`; its own links stay as they are. */
    method Unlink(top: nat, prev: nat, t: nat)
      requires top < |aPos| && prev < |aPos| && t < |aPos|
      modifies this`aPos
      ensures LinkedOut(old(aPos), aPos, top, prev, t) && OffsetsBut(old(aPos), aPos, |aPos|)
    {
      if prev != 0 {
        aPos := aPos[prev := aPos[prev].(next := aPos[t].next)];
      } else {
        aPos := aPos[top := aPos[top].(child := aPos[t].next)];
      }
    }

    /** The end of the white space after element `t`, where the next node starts. */
    method AfterElem(t: nat) returns (nAfterEnd: nat)
      requires t < |aPos| && 0 <= aPos[t].endR < |doc|
      ensures nAfterEnd == NextNode(doc, aPos[t].endR + 1)
    {
      nAfterEnd := aPos[t].endR + 1;
      var token := FindToken(doc, nAfterEnd);
      if !token.found || (token.l < |doc| && doc[token.l] == '<') { nAfterEnd := token.l; }
    }

    /** x_RemoveElem below an element. */
    method RemoveBelow(top: nat, prev: nat, t: nat)
      requires Sound(doc, aPos, iPosFree, forest, strict) && top in Ids(forest) && top < |aPos| &&
               IsPlace(Kids(forest, top), prev)
      requires Past(Kids(forest, top), prev).Cons? && Past(Kids(forest, top), prev).elem == t
      requires t < |aPos| && prev < |aPos| && ElemOk(doc, aPos[t], strict)
      modifies this`doc, this`aPos, this`forest
      ensures Sound(doc, aPos, iPosFree, forest, strict) && |aPos| == |old(aPos)| &&
              ParentsKept(old(aPos), aPos, Ids(old(forest)))
      ensures Ids(forest) == Ids(old(forest)) - Ids(Past(Kids(old(forest), top), prev).kids) - {t}
      ensures forest == WithoutChild(old(forest), top, prev) && RemovedAt(old(doc), old(aPos), t, doc)
      ensures old(Whole(doc, aPos, forest)) ==> Whole(doc, aPos, forest)
      ensures old(aPos)[t].parent == top && t in Ids(old(forest)) ==> Makes(old(State()), Drop(t), State())
    {
      hide Sound, TagsOk, Shift, Ahead, PathAnc, DocChange, UniqIn, Cursor, Upto, Past, TopIds, Remove, NextNode,
           Linked, ReplaceKids, Whole, Find, LinkedOut, OffsetsBut, Makes;
      ghost var (k, r, p) := Find(forest, top, Top);
      ghost var a := aPos;
      SoundFresh(doc, aPos, iPosFree, forest, strict);
      SoundAt(doc, aPos, iPosFree, forest, top, strict);
      Unlink(top, prev, t);
      RemoveCursor(a, aPos, forest, top, prev, k, r, p);
      ghost var a2 := aPos;
      OutSame(a, a2, top, prev, t);
      var nAfterEnd := AfterElem(t);
      var nLen := nAfterEnd - aPos[t].startL;
      doc := DocChange(doc, aPos[t].startL, nLen, "");
      Adjust(t, -nLen, true, Nil, Past(k, prev).rest, Inside(top, r, p));
      RemovedBelow(old(doc), doc, a, a2, aPos, iPosFree, forest, top, prev, t, k, r, p, strict);
      forest := WithoutChild(forest, top, prev);
      if a[t].parent == top && t in Ids(old(forest)) {
        CutMade(old(doc), doc, a, a2, aPos, iPosFree, old(forest), top, prev, t, forest, k, r, p);
      }
    }

    /** x_RemoveElem at the root. */
    method RemoveRoot(prev: nat, t: nat)
      requires Sound(doc, aPos, iPosFree, forest, strict) && IsPlace(forest, prev)
      requires Past(forest, prev).Cons? && Past(forest, prev).elem == t
      requires t < |aPos| && prev < |aPos| && ElemOk(doc, aPos[t], strict)
      modifies this`doc, this`aPos, this`forest
      ensures Sound(doc, aPos, iPosFree, forest, strict) && |aPos| == |old(aPos)| &&
              ParentsKept(old(aPos), aPos, Ids(old(forest)))
      ensures Ids(forest) == Ids(old(forest)) - Ids(Past(old(forest), prev).kids) - {t}
      ensures forest == WithoutChild(old(forest), 0, prev) && RemovedAt(old(doc), old(aPos), t, doc)
      ensures old(Whole(doc, aPos, forest)) ==> Whole(doc, aPos, forest)
      ensures old(aPos)[t].parent == 0 && t in Ids(old(forest)) ==> Makes(old(State()), Drop(t), State())
    {
      hide TagsOk, Shift, DocChange, Laid, Upto, Past, TopIds, Remove, NextNode, Linked, Whole, LinkedOut, OffsetsBut,
           Sound;
      ghost var a := aPos;
      SoundFresh(doc, aPos, iPosFree, forest, strict);
      Unlink(0, prev, t);
      RootCursor(doc, a, aPos, iPosFree, forest, prev, strict);
      ghost var a2 := aPos;
      OutSame(a, a2, 0, prev, t);
      var nAfterEnd := AfterElem(t);
      var nLen := nAfterEnd - aPos[t].startL;
      doc := DocChange(doc, aPos[t].startL, nLen, "");
      Adjust(t, -nLen, true, Nil, Past(forest, prev).rest, Top);
      RemovedTop(old(doc), doc, a, a2, aPos, iPosFree, forest, prev, t, strict);
      forest := Remove(forest, prev);
      if a[t].parent == 0 && t in Ids(old(forest)) { assert Cuts(old(State()), t, prev, a2, State()); }
    }

    /** x_RemoveElem: removes `t` with all below it and the white space after it, and returns the sibling before it. */
    method RemoveAt(t: nat) returns (prev: nat)
      requires Sound(doc, aPos, iPosFree, forest, strict) && t in Ids(forest) && t < |aPos|
      modifies this`doc, this`aPos, this`forest
      ensures Sound(doc, aPos, iPosFree, forest, strict) && |aPos| == |old(aPos)| &&
              ParentsKept(old(aPos), aPos, Ids(old(forest)))
      ensures Ids(forest) == Ids(old(forest)) - Ids(Find(old(forest), t, Top).0) - {t}
      ensures prev != 0 ==> prev in Ids(forest) && prev < |aPos| && aPos[prev].parent == old(aPos)[t].parent
      ensures Without(old(forest), old(aPos)[t].parent, prev, t, forest) && RemovedAt(old(doc), old(aPos), t, doc)
      ensures old(Whole(doc, aPos, forest)) ==> Whole(doc, aPos, forest)
      ensures Makes(old(State()), Drop(t), State())
    {
      hide Sound, TagsOk, DocChange, Past, TopIds, NextNode, Find, Whole, RemovedAt, Remove, ReplaceKids, Makes;
      var top := aPos[t].parent;
      InKids(doc, aPos, iPosFree, forest, t, strict);
      prev := PrevSibling(top, t);
      RemoveReady(doc, aPos, iPosFree, forest, top, prev, t, strict);
      if top == 0 { RemoveRoot(prev, t); } else { RemoveBelow(top, prev, t); }
    }

    /** RemoveElem: removes the element at the main position. */
    method RemoveElem() returns (ok: bool)
      requires Valid()
      modifies this`doc, this`aPos, this`forest, this`iPos, this`iPosChild, this`iPosParent
      ensures Valid() && ok == (old(iPos) != 0) &&
              (if ok then Makes(old(State()), Drop(old(iPos)), State()) else State() == old(State()))
      ensures ok ==> iPosParent == old(iPosParent) && iPosChild == 0
      ensures ok ==>
        Without(old(forest), iPosParent, iPos, old(iPos), forest) && RemovedAt(old(doc), old(aPos), old(iPos), doc)
      ensures old(Whole(doc, aPos, forest)) ==> Whole(doc, aPos, forest)
    {
      hide Sound, Find, RemovedAt, Without, Whole, Makes;
      if iPos == 0 { return false; }
      AboveRemoved(doc, aPos, iPosFree, forest, iPos, strict);
      var prev := RemoveAt(iPos);
      SetPos(iPosParent, prev, 0);
      ok := true;
    }

    /** RemoveChildElem: removes the element at the child position. */
    method RemoveChildElem() returns (ok: bool)
      requires Valid()
      modifies this`doc, this`aPos, this`forest, this`iPos, this`iPosChild, this`iPosParent
      ensures Valid() && ok == (old(iPosChild) != 0) &&
              (if ok then Makes(old(State()), Drop(old(iPosChild)), State()) else State() == old(State()))
      ensures ok ==> iPosParent == old(iPosParent) && iPos == old(iPos)
      ensures ok ==>
        Without(old(forest), iPos, iPosChild, old(iPosChild), forest) &&
        RemovedAt(old(doc), old(aPos), old(iPosChild), doc)
      ensures old(Whole(doc, aPos, forest)) ==> Whole(doc, aPos, forest)
    {
      hide Sound, Find, RemovedAt, Without, Whole, Makes;
      if iPosChild == 0 { return false; }
      AboveRemoved(doc, aPos, iPosFree, forest, iPosChild, strict);
      var prev := RemoveAt(iPosChild);
      SetPos(iPosParent, iPos, prev);
      ok := true;
    }

    /** The loop of x_ParseElem past comments, declarations and instructions to the next start or end tag. */
    method ParseStart(i: nat, parent: nat) returns (r: Parsed, nNext: nat)
      requires i < |aPos| && parent < |aPos| && i != parent && 0 <= aPos[parent].endL <= |doc|
      modifies this`aPos
      ensures StartSet(old(aPos), aPos, i, parent, |doc|)
      ensures match StartFrom(doc, old(aPos)[parent].endL)
              case NoTag => r.Malformed?
              case Loop => r.Stuck?
              case Close(x) => r.Absent? && aPos[parent].endL == x
              case Open(x, y) => r == Elem(i) && aPos[i].startL == x && nNext == y
    {
      hide TokenAt, Scan, NodeEnd, StartFrom, StartSet;
      nNext := 0;
      var next := aPos[parent].endL;
      StartSetNone(aPos, i, parent, |doc|);
      while true
        invariant old(aPos)[parent].endL <= next <= |doc| && |aPos| == |old(aPos)| &&
                  StartSet(old(aPos), aPos, i, parent, |doc|)
        invariant StartFrom(doc, old(aPos)[parent].endL) == StartFrom(doc, next)
        decreases |doc| - next
      {
        StartStep(doc, next);
        var found, nStartL := FindChar(doc, next, '<');
        StartSetAt(old(aPos), aPos, i, parent, |doc|, nStartL);
        aPos := aPos[i := aPos[i].(startL := nStartL)];
        if !found { return Malformed, 0; }
        aPos := aPos[parent := aPos[parent].(endL := nStartL)];
        var token := FindToken(doc, nStartL + 1);
        if !token.found || token.isString { return Malformed, 0; }
        var cFirst := doc[token.l];
        if cFirst == '?' || cFirst == '!' {
          next := ParseNode(doc, nStartL);
          if next > |doc| { return Malformed, 0; }
          if next == nStartL { return Stuck, 0; }
        } else if cFirst != '/' {
          found, nNext := FindChar(doc, token.next, '>');
          if !found { return Malformed, 0; }
          return Elem(i), nNext;
        } else {
          return Absent, 0;
        }
      }
    }

    /** The end tag of element `i`, looked for from its endL on. */
    method ParseEnd(i: nat, name: string) returns (ok: bool)
      requires i < |aPos| && EndTagStarts(doc, aPos[i].endL)
      modifies this`aPos
      ensures |aPos| == |old(aPos)| && forall j :: 0 <= j < |aPos| && j != i ==> aPos[j] == old(aPos)[j]
      ensures aPos[i] == old(aPos)[i].(endR := aPos[i].endR)
      ensures ok <==> EndFrom(doc, aPos[i].endL + 1, 0, name) < |doc|
      ensures ok ==> aPos[i].endR == EndFrom(doc, aPos[i].endL + 1, 0, name)
      ensures EndFound(doc, aPos[i].endL + 1, name, ok, aPos[i].endR)
    {
      hide TokenAt, Match, EndsAt;
      EndMeans(doc, aPos[i].endL + 1, name);
      var found, nEndL := FindChar(doc, aPos[i].endL, '<');
      var next, nTokenCount := nEndL + 1, 0;
      var token;
      while true
        invariant nEndL + 1 <= next <= |doc| && aPos == old(aPos) && nTokenCount >= 0
        invariant EndFrom(doc, nEndL + 1, 0, name) == EndFrom(doc, next, nTokenCount, name)
        decreases |doc| - next
      {
        token := FindToken(doc, next);
        if !token.found { return false; }
        nTokenCount := nTokenCount + 1;
        if !token.isString {
          if nTokenCount == 1 && doc[token.l] != '/' {
            return false;
          } else if nTokenCount == 2 && !Match(doc, token, name) {
            return false;
          } else if doc[token.l] == '>' {
            break;
          }
        }
        next := token.next;
      }
      if nTokenCount < 2 { return false; }
      aPos := aPos[i := aPos[i].(endR := token.l)];
      ok := true;
    }

    /** The slot of an element to be parsed. */
    method NewSlot(parent: nat) returns (i: nat)
      requires 2 <= |aPos| && parent < iPosFree <= |aPos|
      modifies this`aPos, this`iPosFree
      ensures i == old(iPosFree) && iPosFree == i + 1 <= |aPos| && |old(aPos)| <= |aPos|
      ensures forall j :: 0 <= j < i ==> aPos[j] == old(aPos)[j]
      ensures aPos[i].parent == parent && aPos[i].child == 0 && aPos[i].next == 0
    {
      i := GetFreePos();
      assert forall j :: 0 <= j < i ==> aPos[j] == aPos[..|old(aPos)|][j];
      aPos := aPos[i := aPos[i].(startL := aPos[parent].endL, parent := parent, child := 0, next := 0)];
    }

    /** x_ParseElem: the next child of `parent`, from its endL on. */
    method ParseElem(parent: nat) returns (r: Parsed, ghost kids: Forest)
      requires 2 <= |aPos| && parent < iPosFree <= |aPos| && 0 <= aPos[parent].endL <= |doc|
      modifies this`aPos, this`iPosFree
      ensures 2 <= |aPos| && Untouched(old(aPos), aPos, old(iPosFree), parent) &&
              aPos[parent].child == old(aPos)[parent].child
      ensures old(aPos)[parent].endL <= aPos[parent].endL <= |doc| && 1 <= iPosFree <= |aPos|
      ensures r.Elem? ==>
        r.i == old(iPosFree) && NewElem(doc, aPos, r.i, iPosFree, kids, old(aPos)[parent].endL, parent)
      ensures r.Absent? ==> iPosFree == old(iPosFree)
      ensures Answers(aPos, r, kids, parent, ParseOne(doc, old(aPos)[parent].endL))
      decreases |doc| - aPos[parent].endL, 1
    {
      hide OpensAt, EndTagStarts, StartFrom, EndFrom, NewElem, NameAt, Scan, ParseOne, ParseList, ParseFull, TreesOf,
           ElemOk;
      kids := Nil;
      ghost var lo := aPos[parent].endL;
      StartGap(doc, lo);
      OneStep(doc, lo);
      var i := NewSlot(parent);
      var nNext;
      r, nNext := ParseStart(i, parent);
      if !r.Elem? {
        iPosFree := iPosFree - 1;
        return;
      }
      aPos := aPos[i := aPos[i].(startR := nNext)];
      if doc[nNext - 1] == '/' {
        aPos := aPos[i := aPos[i].(endL := nNext - 1, endR := nNext)];
        ParsedEmpty(doc, aPos[i]);
        ParsedLeaf(doc, aPos, i, iPosFree, lo, parent);
        NoTrees(aPos);
        return;
      }
      r, kids := ParseBody(i, lo, parent);
    }

    /** The rest of x_ParseElem for an element with an end tag of its own: its children and that tag. */
    method ParseBody(i: nat, ghost lo: int, ghost parent: nat) returns (r: Parsed, ghost kids: Forest)
      requires 2 <= |aPos| && 0 < i && iPosFree == i + 1 <= |aPos| && aPos[i].child == 0 && aPos[i].next == 0 &&
               aPos[i].parent == parent < i
      requires 0 <= lo <= aPos[i].startL < aPos[i].startR < |doc| && OpensAt(doc, aPos[i].startL, aPos[i].startR)
      modifies this`aPos, this`iPosFree
      ensures 2 <= |aPos| && Untouched(old(aPos), aPos, i, parent) && aPos[parent] == old(aPos)[parent] &&
              1 <= iPosFree <= |aPos|
      ensures r.Elem? ==> r.i == i && NewElem(doc, aPos, i, iPosFree, kids, lo, parent)
      ensures !r.Absent?
      ensures Answers(aPos, r, kids, parent, ParseFull(doc, old(aPos)[i].startL, old(aPos)[i].startR))
      decreases |doc| - aPos[i].startR - 1, 3
    {
      hide OpensAt, EndTagStarts, EndFrom, NewElem, ContentOk, NameAt, Scan, ParseFull, ParseList, ElemOk, TreesOf,
           Tidy, Answers;
      var name := NameAt(doc, aPos[i].startL);
      ParsedTidy(doc, aPos[i].startR + 1);
      FullStep(doc, aPos[i].startL, aPos[i].startR);
      r, kids := ParseContent(i);
      if !r.Absent? {
        AnswersNot(aPos, r, kids, parent, ParseList(doc, old(aPos)[i].startR + 1).1);
        return;
      }
      ContentBound(doc, aPos, i, iPosFree, kids);
      ghost var a := aPos;
      var ok := ParseEnd(i, name);
      if !ok {
        iPosFree := iPosFree - 1;
        AnswersNot(aPos, Malformed, Nil, parent, Broken);
        return Malformed, Nil;
      }
      r := Elem(i);
      EndCloses(doc, aPos[i].endL, name);
      ContentClosed(doc, a, aPos, i, iPosFree, kids);
      ParsedFull(doc, aPos[i]);
      ParsedNode(doc, aPos, i, iPosFree, kids, lo, parent);
      ClosedKeeps(doc, a, aPos, i, iPosFree, kids);
      AnswersGot(aPos, i, kids, parent);
    }

    /** The loop of x_ParseElem over the children of element `i`. */
    method ParseContent(i: nat) returns (r: Parsed, ghost kids: Forest)
      requires 2 <= |aPos| && 0 < i && iPosFree == i + 1 <= |aPos| && 0 <= aPos[i].startR < |doc| && aPos[i].child == 0
      modifies this`aPos, this`iPosFree
      ensures 2 <= |aPos| && Untouched(old(aPos), aPos, i + 1, i) && 1 <= iPosFree <= |aPos| && !r.Elem?
      ensures r.Absent? ==> ContentOk(doc, aPos, i, iPosFree, kids)
      ensures match ParseList(doc, old(aPos)[i].startR + 1)
              case (ts, EndTag(x)) => r.Absent? && aPos[i].endL == x && TreesOf(aPos, kids) == ts
              case (_, Broken) => r.Malformed?
              case (_, Endless) => r.Stuck?
      decreases |doc| - aPos[i].startR - 1, 2
    {
      hide Laid, Linked, Uniq, Ids, TopIds, Past, Append, ContentOk, ParseOne, ParseList, Collected, AppendTrees,
           TreesOf;
      ghost var lo := aPos[i].startR + 1;
      aPos := aPos[i := aPos[i].(endL := aPos[i].startR + 1)];
      kids := Nil;
      var prev := 0;
      NoContent(doc, aPos, i, iPosFree);
      CollectNone(doc, aPos, lo);
      while true
        invariant 2 <= |aPos| && Untouched(old(aPos), aPos, i + 1, i) && 0 <= aPos[i].startR < aPos[i].endL <= |doc|
        invariant i < iPosFree <= |aPos| && ContentOk(doc, aPos, i, iPosFree, kids) && IsLast(aPos, kids, prev) &&
                  (prev != 0 ==> i < prev < iPosFree)
        invariant Collected(doc, aPos, kids, lo, aPos[i].endL)
        decreases |doc| - aPos[i].endL
      {
        ghost var a, free, k' := aPos, iPosFree, Nil;
        r, k' := ParseElem(i);
        ContentKept(doc, a, aPos, i, free, kids, prev);
        ContentSame(doc, a, aPos, i, free, kids);
        if !r.Elem? {
          ContentRaised(doc, aPos, i, free, kids, a[i].endL);
          CollectEnd(doc, a, kids, lo, a[i].endL);
          TreesKept(a, aPos, kids);
          return;
        }
        var inner := r.i;
        ghost var b := aPos;
        if prev != 0 {
          aPos := aPos[prev := aPos[prev].(next := inner)];
        } else {
          aPos := aPos[i := aPos[i].(child := inner)];
        }
        aPos := aPos[i := aPos[i].(endL := aPos[inner].endR + 1)];
        ContentStep(doc, b, aPos, i, free, iPosFree, kids, prev, inner, k', a[i].endL);
        StepCollected(doc, a, b, aPos, i, free, iPosFree, kids, prev, inner, k', lo);
        prev := inner;
        kids := Append(kids, Cons(inner, k', Nil));
      }
    }

    /** An empty document, as after the constructor. */
    constructor ()
      ensures Valid() && doc == "" && forest == Nil && strict
    {
      doc := "";
      aPos := seq(8, _ => CLEARED);
      iPosParent, iPos, iPosChild, iPosFree := 0, 0, 0, 1;
      forest, strict := Nil, true;
    }

    /** SetDoc.  `strict` then says whether every start tag closes its quotes before its '>'. */
    method SetDoc(text: string) returns (r: Parsed)
      requires 2 <= |aPos|
      modifies this
      ensures doc == text && iPosParent == iPos == iPosChild == 0
      ensures r.Elem? ==> Valid() && forest.Cons? && forest.elem == r.i && forest.rest == Nil
      ensures r.Elem? ==> (strict <==> Laid(doc, aPos, forest, 0, |doc|, true))
      ensures r.Elem? ==> Reads(State()) && (Lasting(State()) <==> Steady(State()))
      ensures r.Elem? ==> Ended(State())
      ensures r.Elem? ==> (AlwaysReads(State()) <==> Steady(State()) && !Fronted(State()))
      ensures r.Absent? || r.Malformed? ==> Valid() && forest == Nil && strict
      ensures r.Stuck? <==> exists w: Way :: w.ts == Leaf && StuckBelow(text, w, 0)
      ensures match ParseOne(text, 0)
              case Got(s, k) => r.Elem? && TreesOf(aPos, forest) == Tree(s, k, Leaf) &&
                                (Whole(doc, aPos, forest) <==>
                                 Gap(doc, s.endR + 1, |doc|) && FirmTrees(doc, TreesOf(aPos, forest)))
              case Not(EndTag(_)) => r.Absent?
              case Not(Broken) => r.Malformed?
              case Not(Endless) => r.Stuck?
    {
      hide ParseOne, TreesOf, Sound, Laid, Whole, Gap, FirmTrees, Reads, Lasting, Steady, AlwaysReads, Fronted, Ended,
           StuckBelow;
      NoText();
      EndlessExactly(text, 0);
      SetPos(0, 0, 0);
      doc := text;
      if |aPos| < |doc| / 64 + 8 {
        aPos := aPos + seq(|doc| / 64 + 8 - |aPos|, _ => CLEARED);
      }
      r := Malformed;
      forest, strict, iPosFree := Nil, true, 1;
      if |doc| != 0 {
        r := ParseRoot();
        if r.Elem? { return; }
      }
      aPos := aPos[0 := CLEARED];
      iPosFree := 1;
      SoundEmpty(doc, aPos);
    }

    /** x_ParseElem for the root: the only element of the index, if one is read. */
    method ParseRoot() returns (r: Parsed)
      requires 2 <= |aPos| && iPosFree == 1 && forest == Nil && strict
      modifies this`aPos, this`iPosFree, this`forest, this`strict
      ensures 2 <= |aPos| && (!r.Elem? ==> forest == Nil && strict)
      ensures r.Elem? ==>
        Sound(doc, aPos, iPosFree, forest, strict) && forest.Cons? && forest.elem == r.i && forest.rest == Nil
      ensures r.Elem? ==> (strict <==> Laid(doc, aPos, forest, 0, |doc|, true))
      ensures r.Elem? ==> Reads(State()) && (Lasting(State()) <==> Steady(State()))
      ensures r.Elem? ==> Ended(State())
      ensures r.Elem? ==> (AlwaysReads(State()) <==> Steady(State()) && !Fronted(State()))
      ensures match ParseOne(doc, 0)
              case Got(s, k) => r.Elem? && TreesOf(aPos, forest) == Tree(s, k, Leaf) &&
                                (Whole(doc, aPos, forest) <==>
                                 Gap(doc, s.endR + 1, |doc|) && FirmTrees(doc, TreesOf(aPos, forest)))
              case Not(EndTag(_)) => r.Absent?
              case Not(Broken) => r.Malformed?
              case Not(Endless) => r.Stuck?
    {
      hide NewElem, ParseOne, TreesOf, Sound, Laid, Whole, Gap, FirmTrees, Reads, Lasting, Steady, AlwaysReads, Fronted,
           Ended;
      aPos := aPos[0 := CLEARED];
      ghost var kids;
      r, kids := ParseElem(0);
      if r.Elem? {
        ghost var a := aPos;
        aPos := aPos[0 := aPos[0].(child := r.i)];
        forest := Cons(r.i, kids, Nil);
        strict := Laid(doc, aPos, forest, 0, |doc|, true);
        DocParsed(doc, a, aPos, r.i, iPosFree, kids);
        ParsedReads(State());
        LastsExactly(State(), strict);
        AlwaysExactly(State(), strict);
        OwnEnds(State());
      }
    }

    method ResetPos()
      requires Valid()
      modifies this`iPosParent, this`iPos, this`iPosChild
      ensures Valid() && iPosParent == iPos == iPosChild == 0
    {
      SetPos(0, 0, 0);
    }

    /** FindElem without a path: the next sibling, or the first child of the parent position. */
    method FindElem() returns (ok: bool)
      requires Valid()
      modifies this`iPosParent, this`iPos, this`iPosChild
      ensures Valid() && old(iPos) < |aPos| && old(iPosParent) < |aPos|
      ensures iPos == (if old(iPos) != 0 then aPos[old(iPos)].next else aPos[old(iPosParent)].child) ||
              (!ok && iPos == old(iPos))
      ensures ok == ((if old(iPos) != 0 then aPos[old(iPos)].next else aPos[old(iPosParent)].child) != 0)
      ensures if ok then iPos < |aPos| && iPosParent == aPos[iPos].parent && iPosChild == 0
              else iPosParent == old(iPosParent) && iPosChild == old(iPosChild)
    {
      hide Sound;
      NextIsChild(doc, aPos, iPosFree, forest, iPosParent, iPos, strict);
      var i := if iPos != 0 then aPos[iPos].next else aPos[iPosParent].child;
      if i == 0 { return false; }
      SetPos(aPos[i].parent, i, 0);
      ok := true;
    }

    /** FindChildElem without a path. */
    method FindChildElem() returns (ok: bool)
      requires Valid()
      modifies this`iPosParent, this`iPos, this`iPosChild
      ensures Valid() && (ok ==> iPosChild != 0 && iPosChild < |aPos| && iPos == aPos[iPosChild].parent)
      ensures old(iPos) != 0 && !ok ==>
        iPosParent == old(iPosParent) && iPos == old(iPos) && iPosChild == old(iPosChild)
      ensures old(iPos) != 0 && ok ==> old(iPosChild) < |aPos| && old(iPos) < |aPos| &&
                                       iPosChild == if old(iPosChild) != 0 then aPos[old(iPosChild)].next
                                                    else aPos[old(iPos)].child
    {
      hide Sound;
      if iPos == 0 { var found := FindElem(); }
      NextIsChild(doc, aPos, iPosFree, forest, iPos, iPosChild, strict);
      var i := if iPosChild != 0 then aPos[iPosChild].next else aPos[iPos].child;
      if i == 0 { return false; }
      if aPos[i].parent != 0 { ParentIsChild(doc, aPos, iPosFree, forest, aPos[i].parent, strict); }
      var parent := aPos[i].parent;
      SetPos(if parent == 0 then 0 else aPos[parent].parent, parent, i);
      ok := true;
    }

    method IntoElem() returns (ok: bool)
      requires Valid()
      modifies this`iPosParent, this`iPos, this`iPosChild
      ensures Valid() && ok == (old(iPos) != 0)
      ensures if ok then iPosParent == old(iPos) && iPos == old(iPosChild) && iPosChild == 0
              else iPosParent == old(iPosParent) && iPos == old(iPos) && iPosChild == old(iPosChild)
    {
      ok := iPos != 0;
      if ok { SetPos(iPos, iPosChild, 0); }
    }

    method OutOfElem() returns (ok: bool)
      requires Valid()
      modifies this`iPosParent, this`iPos, this`iPosChild
      ensures Valid() && ok == (old(iPosParent) != 0)
      ensures if ok then iPos == old(iPosParent) && iPosChild == old(iPos) && iPos < |aPos| &&
              iPosParent == aPos[iPos].parent
              else iPosParent == old(iPosParent) && iPos == old(iPos) && iPosChild == old(iPosChild)
    {
      hide Sound;
      ok := iPosParent != 0;
      if ok {
        ParentIsChild(doc, aPos, iPosFree, forest, iPosParent, strict);
        SetPos(aPos[iPosParent].parent, iPosParent, iPos);
      }
    }

    /** The element at the main position, or at the child position. */
    function Target(child: bool): nat
      reads this
    {
      if child then iPosChild else iPos
    }

    /** One public call: it edits the document, or leaves text and index alone. */
    method Apply(op: Op) returns (ok: bool)
      requires Valid() && strict && op.Ok()
      modifies this
      ensures Valid() && strict
      ensures old(Whole(doc, aPos, forest)) && !op.Misplaces(old(State())) ==> Whole(doc, aPos, forest)
      ensures old(Whole(doc, aPos, forest)) && op.Misplaces(old(State())) ==> !SameElements(doc, aPos, forest)
      ensures !op.Misplaces(old(State())) ==> Steps(old(State()), State())
      ensures Moves(old(State()), State())
    {
      hide Sound, Whole, SameElements, Makes, NewChild, Attributed, DataSet, RemovedAt, Without, WithChild, Placed,
           Steps, Moves, Rereads, Bounded, ElemOk, StartTag, Kids;
      ghost var x := State();
      ghost var ed, made := Drop(0), false;
      match op {
        case Reset => ResetPos(); ok := true;
        case ToNext => ok := FindElem();
        case ToChild => ok := FindChildElem();
        case Into => ok := IntoElem();
        case OutOf => ok := OutOfElem();
        case Add(name, value, child) =>
          ed := Adopt(if child then iPos else iPosParent, if child then iPosChild else iPos, false, name, value);
          ghost var before;
          ok, before := AddElem(name, value, false, child);
          made := ok;
        case InsertChild(name, value) =>
          ed := Adopt(iPos, iPosChild, true, name, value);
          ghost var before;
          ok, before := AddElem(name, value, true, true);
          made := ok;
        case InsertMain(name, value) =>
          ed := Adopt(iPosParent, iPos, true, name, value);
          // where the source would write out of range the call is left out
          ok := iPosParent != 0 || doc != "";
          if ok {
            ghost var before;
            ok, before := AddElem(name, value, true, false);
            made := ok;
          }
        case Attrib(child, name, value) =>
          ok := SetTarget(child, name, value);
          ed, made := Retag(old(Target(child)), name, value), State() != x;
        case Data(child, data, cdata) =>
          ok := FillTarget(child, data, cdata);
          ed, made := Refill(old(Target(child)), data, cdata), State() != x;
        case RemoveMain =>
          ed := Drop(iPos);
          ok := RemoveElem();
          made := ok;
        case RemoveChild =>
          ed := Drop(iPosChild);
          ok := RemoveChildElem();
          made := ok;
      }
      if made {
        EditSteps(x, ed, State(), strict);
        EditMoves(x, ed, State());
      } else {
        NoEdit(x);
        NoMove(x);
      }
    }

    /** SetAttrib or SetChildAttrib. */
    method SetTarget(child: bool, name: string, value: string) returns (ok: bool)
      requires Valid() && strict && NameOk(name)
      modifies this`doc, this`aPos
      ensures Valid()
      ensures State() == old(State()) || Makes(old(State()), Retag(Target(child), name, value), State())
    {
      hide Sound, Makes, Attributed, ElemOk, Bounded, Whole, StartTag;
      var t := Target(child);
      TargetClean(doc, aPos, iPosFree, forest, t);
      ok := SetAttrib(t, name, value);
    }

    /** SetData or SetChildData. */
    method FillTarget(child: bool, data: string, cdata: bool) returns (ok: bool)
      requires Valid() && strict
      modifies this`doc, this`aPos
      ensures Valid()
      ensures State() == old(State()) || Makes(old(State()), Refill(Target(child), data, cdata), State())
    {
      hide Sound, Makes, DataSet, Rereads, ElemOk, Bounded, Whole, StartTag;
      var t := Target(child);
      TargetClean(doc, aPos, iPosFree, forest, t);
      ok := SetData(t, data, cdata);
    }

    /**
     Any sequence of calls keeps the index in agreement with the text; reading the text again would give the same
     elements, unless a root is inserted into a document without elements that begins with '<'.  The documents on the
     way are returned.
     */
    method Run(ops: seq<Op>) returns (ghost xs: seq<Index>)
      requires Valid() && strict && forall i :: 0 <= i < |ops| ==> ops[i].Ok()
      modifies this
      ensures Valid() && strict && |xs| == |ops| + 1 && xs[0] == old(State()) && xs[|ops|] == State()
      ensures AnyHistory(xs) && (old(AlwaysReads(State())) ==> SameElements(doc, aPos, forest))
      ensures (forall i :: 0 <= i < |ops| ==> !ops[i].Misplaces(xs[i])) ==>
        History(xs) && (old(Whole(doc, aPos, forest)) ==> Whole(doc, aPos, forest) && SameElements(doc, aPos, forest))
      ensures forall t :: t in Ids(forest) ==> t < |aPos| && ElemOk(doc, aPos[t], true) && Pointing(doc, aPos, t)
    {
      hide Sound, ElemOk, Pointing, Whole, SameElements, Steps, Moves;
      ghost var whole := Whole(doc, aPos, forest);
      ghost var placed := true;
      xs := [State()];
      for i := 0 to |ops|
        invariant Valid() && strict && |xs| == i + 1 && xs[0] == old(State()) && xs[i] == State() && AnyHistory(xs)
        invariant placed <==> forall j :: 0 <= j < i ==> !ops[j].Misplaces(xs[j])
        invariant placed ==> History(xs) && (whole ==> Whole(doc, aPos, forest))
      {
        placed := placed && !ops[i].Misplaces(State());
        var ok := Apply(ops[i]);
        xs := xs + [State()];
      }
      if placed && whole { WholeReparses(doc, aPos, forest); }
      forall t | t in Ids(forest)
        ensures t < |aPos| && ElemOk(doc, aPos[t], true) && Pointing(doc, aPos, t)
      {
        SoundAt(doc, aPos, iPosFree, forest, t, true);
        OffsetsPoint(doc, aPos, iPosFree, forest, t, true);
      }
    }
  }

  datatype Op =
    | Reset | ToNext | ToChild | Into | OutOf
    | Add(name: string, value: string, child: bool)
    | InsertChild(name: string, value: string)
    | InsertMain(name: string, value: string)
    | Attrib(child: bool, name: string, value: string)
    | Data(child: bool, data: string, cdata: bool)
    | RemoveMain | RemoveChild
  {
    predicate Ok() {
      Add? || InsertChild? || InsertMain? || Attrib? ==> NameOk(name)
    }

    /** InsertElem at the root of a document without elements that begins with '<' */
    ghost predicate Misplaces(x: Index) {
      InsertMain? && InsideFirst(x.doc, x.f == Nil)
    }
  }
}
