/** What x_SetAttrib, x_SetData and x_RemoveElem splice, and that the readers find what the writers wrote. */
module MarkupData {
  import opened MarkupText
  import opened MarkupArena
  import opened MarkupLayout
  import opened MarkupEdits
  import opened MarkupTags
  import opened MarkupState
  import opened MarkupWrite

  lemma {:induction false} SplicedWithin(doc: string, x: nat, y: nat, l: nat, c: nat, v: string)
    requires x <= y <= |doc| && l + c <= y - x
    ensures DocChange(doc, x + l, c, v) == DocChange(doc, x, y - x, doc[x..y][..l] + v + doc[x..y][l + c..])
  {
    SubSlice(doc, x, y, 0, l);
    SubSlice(doc, x, y, l + c, y - x);
    var s := doc[x..y];
    assert doc[..x + l] == doc[..x] + s[..l];
    assert doc[x + l + c..] == s[l + c..] + doc[y..];
  }

  /** In a clean tag the attribute search on the document is the search on the tag. */
  lemma AttribInTag(doc: string, e: ElemPos, attr: string, strict: bool)
    requires ElemOk(doc, e, strict) && CleanTag(StartTag(doc, e))
    ensures var u := AttribAt(StartTag(doc, e), 1, attr, 0, 0);
      AttribAt(doc, e.startL + 1, attr, 0, 0) == (if u.found then u.Plus(e.startL) else NO_TOKEN) &&
      (u.found ==> u.next < e.startR + 1 - e.startL)
  {
    hide AttribAt, TokenAt, EndTagOk, TagName, TokensTo;
    var tag := StartTag(doc, e);
    assert doc[e.startR] == tag[|tag| - 1];
    AttribWindow(doc, e.startL, e.startR + 1, e.startL + 1, attr, 0, 0);
  }

  lemma ReplacedSplice(doc: string, e: ElemPos, attr: string, value: string)
    requires Bounded(doc, e) && AttribAt(StartTag(doc, e), 1, attr, 0, 0).found
    ensures var tag := StartTag(doc, e); var u := AttribAt(tag, 1, attr, 0, 0); var v := Escape(value, true);
      var s := AttribTag(tag, e.IsEmptyElement(), attr, value);
      DocChange(doc, e.startL + u.l, u.r + 1 - u.l, v) == DocChange(doc, e.startL, |tag|, s) &&
      |s| - |tag| == |v| - (u.r + 1 - u.l)
  {
    hide AttribAt, DocChange, Escape;
    var u := AttribAt(StartTag(doc, e), 1, attr, 0, 0);
    SplicedWithin(doc, e.startL, e.startR + 1, u.l, u.r + 1 - u.l, Escape(value, true));
  }

  lemma InsertedSplice(doc: string, e: ElemPos, attr: string, value: string)
    requires Bounded(doc, e) && !AttribAt(StartTag(doc, e), 1, attr, 0, 0).found
    ensures var tag := StartTag(doc, e); var v := Pair(attr, Escape(value, true));
      var s := AttribTag(tag, e.IsEmptyElement(), attr, value);
      DocChange(doc, e.startR - (if e.IsEmptyElement() then 1 else 0), 0, v) == DocChange(doc, e.startL, |tag|, s) &&
      |s| - |tag| == |v|
  {
    hide AttribAt, DocChange, Escape, Pair;
    SplicedWithin(doc, e.startL, e.startR + 1, InsertAt(StartTag(doc, e), e.IsEmptyElement()), 0,
                  Pair(attr, Escape(value, true)));
  }

  /** The new start tag is one, whatever the attribute search found in a clean tag. */
  lemma AttribTagClean(doc: string, e: ElemPos, attr: string, value: string, strict: bool)
    requires ElemOk(doc, e, strict) && CleanTag(StartTag(doc, e)) && NameOk(attr)
    ensures var tag, empty := StartTag(doc, e), e.IsEmptyElement(); var s := AttribTag(tag, empty, attr, value);
      TagFor(s, empty, true) && TagFor(s, empty, strict) && TagName(s) == TagName(tag)
  {
    var tag, empty := StartTag(doc, e), e.IsEmptyElement();
    assert StartTagOk(tag, true);
    if empty { EmptyElem(doc, e, strict); }
    hide StartTagOk, AttribTag, TagName, NameOk;
    AttribTagOk(tag, empty, attr, value, true);
    StrictAny(AttribTag(tag, empty, attr, value), strict);
  }

  lemma ParentsShifted(a: seq<ElemPos>, t: nat, e: ElemPos, both: set<nat>, ends: set<nat>, n: int)
    requires t < |a| && e.parent == a[t].parent
    ensures var b := Shift(a[t := e], both, ends, n);
      |b| == |a| && forall j :: 0 <= j < |a| ==> b[j].parent == a[j].parent
  {
  }

  lemma ShiftSkips(a: seq<ElemPos>, t: nat, e: ElemPos, both: set<nat>, ends: set<nat>, n: int)
    requires t < |a| && t !in both && t !in ends
    ensures Shift(a, both, ends, n)[t] == a[t] && Shift(a, both, ends, n)[t := e] == Shift(a[t := e], both, ends, n)
  {
  }

  /** The shift from element `t` leaves `t` alone, so the order of the two updates does not matter. */
  lemma ShiftAround(f: Forest, t: nat, a: seq<ElemPos>, e: ElemPos, k: Forest, r: Forest, p: Path, n: int)
    requires UniqIn(f, Top) && t in Ids(f) && t < |a| && Find(f, t, Top) == (k, r, p)
    ensures Shift(a, Ahead(k, r, p), PathAnc(p), n)[t] == a[t]
    ensures Shift(a, Ahead(k, r, p), PathAnc(p), n)[t := e] == Shift(a[t := e], Ahead(k, r, p), PathAnc(p), n)
  {
    hide Shift, Uniq, Ids;
    FindUniq(f, t, Top);
    ShiftSkips(a, t, e, Ahead(k, r, p), PathAnc(p), n);
  }

  /** All of x_SetAttrib's effect: the start tag is `AttribTag`, and the document stays sound. */
  lemma AttribDone(doc: string, doc': string, a: seq<ElemPos>, b: seq<ElemPos>, free: nat, f: Forest, t: nat,
                   attr: string, value: string, k: Forest, r: Forest, p: Path, n: int, strict: bool)
    requires Sound(doc, a, free, f, strict) && t in Ids(f) && t < |a| && Find(f, t, Top) == (k, r, p) && NameOk(attr)
    requires ElemOk(doc, a[t], strict) && CleanTag(StartTag(doc, a[t]))
    requires var s := AttribTag(StartTag(doc, a[t]), a[t].IsEmptyElement(), attr, value);
      doc' == DocChange(doc, a[t].startL, a[t].startR + 1 - a[t].startL, s) &&
      n == |s| - (a[t].startR + 1 - a[t].startL)
    requires b == Shift(a[t := Retagged(a[t], n)], Ahead(k, r, p), PathAnc(p), n)
    ensures Sound(doc', b, free, f, strict) && |b| == |a| && b[t] == Retagged(a[t], n) && ElemOk(doc', b[t], strict)
    ensures StartTag(doc', b[t]) == AttribTag(StartTag(doc, a[t]), a[t].IsEmptyElement(), attr, value)
    ensures ParentsKept(a, b, Ids(f)) && TagFor(StartTag(doc', b[t]), a[t].IsEmptyElement(), true)
  {
    hide Sound, TagsOk, TagFor, AttribTag, TagName, NameOk, Shift, Ahead, PathAnc, Find, DocChange, CleanTag, UniqIn;
    SoundFresh(doc, a, free, f, strict);
    AttribTagClean(doc, a[t], attr, value, strict);
    var s := AttribTag(StartTag(doc, a[t]), a[t].IsEmptyElement(), attr, value);
    SoundStartTag(doc, doc', a, b, free, f, t, s, k, r, p, n, strict);
    RetaggedOk(doc, doc', a[t], s, n, strict);
    ShiftAround(f, t, a[t := Retagged(a[t], n)], a[t], k, r, p, n);
    ParentsShifted(a, t, Retagged(a[t], n), Ahead(k, r, p), PathAnc(p), n);
  }

  /** "]]>" at position i */
  predicate EndsCData(s: string, i: nat) {
    i + 3 <= |s| && s[i] == ']' && s[i + 1] == ']' && s[i + 2] == '>'
  }

  /** The first "]]>" from `i` on, or the end of `s`: string::find and strstr. */
  function CDataEnd(s: string, i: nat): (r: nat)
    requires i <= |s|
    ensures i <= r <= |s| && (r < |s| ==> EndsCData(s, r)) && forall k :: i <= k < r ==> !EndsCData(s, k)
    decreases |s| - i
  {
    if i == |s| || EndsCData(s, i) then i else CDataEnd(s, i + 1)
  }

  /** The text x_SetData writes: a CDATA section if asked for and possible, escaped text otherwise. */
  function Content(data: string, cdata: bool): string {
    if cdata && CDataEnd(data, 0) == |data| then "<![CDATA[" + data + "]]>" else Escape(data, false)
  }

  predicate OpensCData(doc: string, e: ElemPos)
    requires Bounded(doc, e) && !e.IsEmptyElement()
  {
    var t := TokenAt(doc, e.startR + 1);
    t.found && t.l + 11 < e.endL && doc[t.l] == '<' && doc[t.l + 1..t.l + 9] == "![CDATA["
  }

  /** x_GetData for an element without child elements. */
  function DataOf(doc: string, e: ElemPos): string
    requires Bounded(doc, e)
  {
    if e.IsEmptyElement() then ""
    else if OpensCData(doc, e) && CDataEnd(doc, TokenAt(doc, e.startR + 1).next) < e.endL then
      var t := TokenAt(doc, e.startR + 1);
      var x := CDataEnd(doc, t.next);
      if t.l + 9 <= x then doc[t.l + 9..x] else ""
    else Unescape(doc[e.startR + 1..e.endL])
  }

  method ReadData(doc: string, e: ElemPos) returns (data: string)
    requires Bounded(doc, e)
    ensures data == DataOf(doc, e)
  {
    hide TokenAt, CDataEnd, Unescape;
    if e.IsEmptyElement() { return ""; }
    var nStart, nEnd := e.startR + 1, e.endL;
    var token := FindToken(doc, nStart);
    if token.found && token.l + 11 < nEnd && doc[token.l] == '<' && doc[token.l + 1..token.l + 9] == "![CDATA[" {
      var nEndCData := CDataEnd(doc, token.next);
      if nEndCData < nEnd {
        return if token.l + 9 <= nEndCData then doc[token.l + 9..nEndCData] else "";
      }
    }
    data := TextFromDoc(doc, nStart, nEnd);
  }

  lemma NoCData(doc: string, e: ElemPos)
    requires Bounded(doc, e) && !e.IsEmptyElement() && '<' !in doc[e.startR + 1..e.endL]
    ensures !OpensCData(doc, e)
  {
    hide TokenAt;
    var t := TokenAt(doc, e.startR + 1);
    if t.l < e.endL { assert doc[t.l] == doc[e.startR + 1..e.endL][t.l - e.startR - 1]; }
  }

  lemma PlainData(doc: string, e: ElemPos, data: string)
    requires Bounded(doc, e) && !e.IsEmptyElement() && doc[e.startR + 1..e.endL] == Escape(data, false)
    ensures DataOf(doc, e) == data
  {
    hide OpensCData, Escape, Unescape, CDataEnd;
    EscapeClean(data, false, '<');
    EscapeRoundTrip(data, false);
    NoCData(doc, e);
  }

  lemma CDataText(doc: string, b: nat, data: string)
    requires b + |data| + 12 <= |doc| && doc[b..b + |data| + 12] == "<![CDATA[" + data + "]]>"
    ensures doc[b] == '<' && doc[b + 1..b + 9] == "![CDATA[" && doc[b + 9..b + 9 + |data|] == data
    ensures EndsCData(doc, b + 9 + |data|)
  {
    var w := "<![CDATA[" + data + "]]>";
    var n := |data| + 12;
    SubSlice(doc, b, b + n, 0, 1);
    SubSlice(doc, b, b + n, 1, 9);
    SubSlice(doc, b, b + n, 9, 9 + |data|);
    SubSlice(doc, b, b + n, 9 + |data|, n);
    assert w[0..1] == "<" && w[1..9] == "![CDATA[" && w[9..9 + |data|] == data && w[9 + |data|..n] == "]]>";
    assert doc[b] == doc[b..b + 1][0];
    var u := doc[b + 9 + |data|..b + n];
    assert doc[b + 9 + |data|] == u[0] && doc[b + 10 + |data|] == u[1] && doc[b + 11 + |data|] == u[2];
  }

  /** No "]]>" comes before the one that closes the section. */
  lemma CDataFirst(doc: string, b: nat, data: string)
    requires b + |data| + 12 <= |doc| && doc[b..b + |data| + 12] == "<![CDATA[" + data + "]]>" &&
             CDataEnd(data, 0) == |data|
    ensures CDataEnd(doc, b + 1) == b + 9 + |data|
  {
    CDataText(doc, b, data);
    assert forall k :: b + 1 <= k < b + 9 ==> doc[k] == doc[b + 1..b + 9][k - b - 1];
    assert forall k :: b + 9 <= k < b + 9 + |data| ==> doc[k] == doc[b + 9..b + 9 + |data|][k - b - 9];
    forall k | b + 1 <= k < b + 9 + |data|
      ensures !EndsCData(doc, k)
    {
      if b + 9 <= k && k + 2 < b + 9 + |data| {
        assert doc[k] == data[k - b - 9] && doc[k + 1] == data[k - b - 8] && doc[k + 2] == data[k - b - 7];
        assert !EndsCData(data, k - b - 9);
      }
    }
  }

  lemma CDataOpens(doc: string, e: ElemPos, n: nat)
    requires Bounded(doc, e) && !e.IsEmptyElement() && e.endL == e.startR + n + 13
    requires doc[e.startR + 1] == '<' && doc[e.startR + 2..e.startR + 10] == "![CDATA["
    ensures OpensCData(doc, e) && TokenAt(doc, e.startR + 1).l == e.startR + 1 &&
            TokenAt(doc, e.startR + 1).next == e.startR + 2
  {
    hide TokenAt;
    TokenOne(doc, e.startR + 1);
  }

  lemma CDataRead(doc: string, e: ElemPos, data: string)
    requires Bounded(doc, e) && !e.IsEmptyElement() && CDataEnd(data, 0) == |data|
    requires e.endL == e.startR + |data| + 13 && doc[e.startR + 1..e.endL] == "<![CDATA[" + data + "]]>"
    ensures DataOf(doc, e) == data
  {
    hide CDataEnd, TokenAt, Unescape, OpensCData, EndsCData;
    CDataText(doc, e.startR + 1, data);
    CDataFirst(doc, e.startR + 1, data);
    CDataOpens(doc, e, |data|);
  }

  /** What x_SetData wrote, x_GetData reads back, as text or as a CDATA section. */
  lemma DataRoundTrip(doc: string, e: ElemPos, data: string, cdata: bool)
    requires Bounded(doc, e) && !e.IsEmptyElement() && e.endL == e.startR + 1 + |Content(data, cdata)|
    requires doc[e.startR + 1..e.endL] == Content(data, cdata)
    ensures DataOf(doc, e) == data
  {
    hide DataOf, CDataEnd, Escape;
    if cdata && CDataEnd(data, 0) == |data| { CDataRead(doc, e, data); } else { PlainData(doc, e, data); }
  }

  lemma ContentDone(doc: string, doc': string, a: seq<ElemPos>, b: seq<ElemPos>, free: nat, f: Forest, t: nat,
                    data: string, cdata: bool, r: Forest, p: Path, n: int, strict: bool)
    requires Sound(doc, a, free, f, strict) && t in Ids(f) && t < |a| && Find(f, t, Top) == (Nil, r, p)
    requires ElemOk(doc, a[t], strict) && !a[t].IsEmptyElement() &&
             n == |Content(data, cdata)| - (a[t].endL - a[t].startR - 1)
    requires doc' == DocChange(doc, a[t].startR + 1, a[t].endL - a[t].startR - 1, Content(data, cdata))
    requires var s := Shift(a, Ahead(Nil, r, p), PathAnc(p), n); b == s[t := s[t].AdjustEnd(n)]
    ensures Sound(doc', b, free, f, strict) && |b| == |a| && Bounded(doc', b[t]) && DataOf(doc', b[t]) == data &&
            ParentsKept(a, b, Ids(f))
  {
    hide Sound, TagsOk, Shift, Ahead, PathAnc, Find, DocChange, UniqIn, Content, DataOf;
    SoundFresh(doc, a, free, f, strict);
    ShiftAround(f, t, a, a[t].AdjustEnd(n), Nil, r, p, n);
    SoundContent(doc, doc', a, b, free, f, t, Content(data, cdata), r, p, n, strict);
    ParentsShifted(a, t, a[t].AdjustEnd(n), Ahead(Nil, r, p), PathAnc(p), n);
    DocChanged(doc, a[t].startR + 1, a[t].endL - a[t].startR - 1, Content(data, cdata));
    assert b[t] == a[t].AdjustEnd(n);
    DataRoundTrip(doc', b[t], data, cdata);
  }

  lemma OpenedContent(doc': string, x: nat, name: string, text: string)
    requires var ins := OpenedBy(name, text); x + |ins| <= |doc'| && doc'[x..x + |ins|] == ins
    ensures doc'[x + 1..x + 1 + |text|] == text
  {
    var ins := OpenedBy(name, text);
    SubSlice(doc', x, x + |ins|, 1, 1 + |text|);
    assert ins[1..1 + |text|] == text;
  }

  lemma OpenedDone(doc: string, doc': string, a: seq<ElemPos>, b: seq<ElemPos>, free: nat, f: Forest, t: nat,
                   data: string, cdata: bool, name: string, e: ElemPos, r: Forest, p: Path, strict: bool)
    requires Sound(doc, a, free, f, strict) && t in Ids(f) && t < |a| && Find(f, t, Top) == (Nil, r, p)
    requires ElemOk(doc, a[t], strict) && a[t].IsEmptyElement() && name == TagName(StartTag(doc, a[t]))
    requires e == a[t].(startR := a[t].startR - 1, endL := a[t].endL - (1 + |name|))
    requires doc' == DocChange(doc, a[t].endL, 1, OpenedBy(name, Content(data, cdata)))
    requires var n := |OpenedBy(name, Content(data, cdata))| - 1;
      var s := Shift(a[t := e], Ahead(Nil, r, p), PathAnc(p), n);
      b == s[t := s[t].AdjustEnd(n)]
    ensures Sound(doc', b, free, f, strict) && |b| == |a| && Bounded(doc', b[t]) && DataOf(doc', b[t]) == data &&
            ParentsKept(a, b, Ids(f))
  {
    hide Sound, TagsOk, Shift, Ahead, PathAnc, Find, DocChange, UniqIn, Content, DataOf, TagName;
    var text := Content(data, cdata);
    var n := |text| + 2 + |name|;
    SoundFresh(doc, a, free, f, strict);
    ShiftAround(f, t, a[t := e], e.AdjustEnd(n), Nil, r, p, n);
    assert e.AdjustEnd(n) == Opened(a[t], name, text) && a[t := e][t := e.AdjustEnd(n)] == a[t := e.AdjustEnd(n)];
    SoundOpened(doc, doc', a, b, free, f, t, name, text, r, p, n, strict);
    ParentsShifted(a, t, e.AdjustEnd(n), Ahead(Nil, r, p), PathAnc(p), n);
    DocChanged(doc, a[t].endL, 1, OpenedBy(name, text));
    OpenedContent(doc', a[t].endL, name, text);
    OpenedOk(doc, doc', a[t], name, text, strict);
    DataRoundTrip(doc', b[t], data, cdata);
  }

  /** x_RemoveElem below an element: what it cuts, and what is left. */
  lemma RemoveDone(doc: string, doc': string, a: seq<ElemPos>, a2: seq<ElemPos>, b: seq<ElemPos>, free: nat, f: Forest,
                   top: nat, before: nat, t: nat, k: Forest, r: Forest, p: Path, strict: bool)
    requires Sound(doc, a, free, f, strict) && top in Ids(f) && top < |a| && Find(f, top, Top) == (k, r, p) &&
             IsPlace(k, before)
    requires Past(k, before).Cons? && Past(k, before).elem == t && LinkedOut(a, a2, top, before, t) &&
             OffsetsBut(a, a2, |a|)
    requires t < |a| && ElemOk(doc, a[t], strict)
    requires a[t].startL <= NextNode(doc, a[t].endR + 1)
    requires var q := NextNode(doc, a[t].endR + 1);
      doc' == DocChange(doc, a[t].startL, q - a[t].startL, "") &&
      b == Shift(a2, Ahead(Nil, Past(k, before).rest, Inside(top, r, p)), PathAnc(Inside(top, r, p)), a[t].startL - q)
    ensures Sound(doc', b, free, ReplaceKids(f, top, Remove(k, before)), strict)
    ensures Ids(ReplaceKids(f, top, Remove(k, before))) == Ids(f) - Ids(Past(k, before).kids) - {t} &&
            ParentsKept(a, b, Ids(f))
  {
    hide *;
    ElemBounds(doc, a[t], strict);
    var s, q := a[t].startL, NextNode(doc, a[t].endR + 1);
    SoundFresh(doc, a, free, f, strict);
    RemoveCut(doc, a, free, f, top, before, t, k, r, p, strict);
    OutZero(doc, a, a2, free, f, strict);
    SoundRemove(doc, doc', a, a2, b, free, f, top, before, k, r, p, s, q, strict);
    RemovedIds(f, top, before, k, r, p);
    OutParents(doc, a, a2, free, f, top, before, t, Ahead(Nil, Past(k, before).rest, Inside(top, r, p)),
               PathAnc(Inside(top, r, p)), s - q, strict);
  }

  /** The cut lies between the siblings before and after. */
  lemma RemoveCut(doc: string, a: seq<ElemPos>, free: nat, f: Forest, top: nat, before: nat, t: nat, k: Forest,
                  r: Forest, p: Path, strict: bool)
    requires Sound(doc, a, free, f, strict) && top in Ids(f) && top < |a| && Find(f, top, Top) == (k, r, p) &&
             IsPlace(k, before)
    requires Past(k, before).Cons? && Past(k, before).elem == t && t < |a| && ElemOk(doc, a[t], strict)
    ensures var s, q, e := a[t].startL, NextNode(doc, a[t].endR + 1), a[top];
      ElemOk(doc, e, strict) && !e.IsEmptyElement() && e.startR < s <= q <= e.endL &&
      Laid(doc, a, Upto(k, before), e.startR + 1, s, strict) && Laid(doc, a, Past(k, before).rest, q, e.endL, strict)
  {
    hide Sound, TagsOk, Find, UniqIn, Laid, Upto, Past, TopIds, Cursor, NextNode;
    var q, e := NextNode(doc, a[t].endR + 1), a[top];
    SoundAt(doc, a, free, f, top, strict);
    NotEmptyWith(doc, a, k, before, e, strict);
    EndTagAt(doc, e, strict);
    OpenBefore(doc, a, k, before, e.startR + 1, e.endL, strict);
    NextNodeClear(doc, a[t].endR + 1, e.endL);
    LaidRaise(doc, a, Past(k, before).rest, a[t].endR + 1, q, e.endL, strict);
  }

  lemma NotEmptyWith(doc: string, a: seq<ElemPos>, k: Forest, before: nat, e: ElemPos, strict: bool)
    requires Past(k, before).Cons? &&
             if e.IsEmptyElement() then k == Nil else Laid(doc, a, k, e.startR + 1, e.endL, strict)
    ensures !e.IsEmptyElement() && Laid(doc, a, k, e.startR + 1, e.endL, strict)
  {
  }

  lemma OutZero(doc: string, a: seq<ElemPos>, a2: seq<ElemPos>, free: nat, f: Forest, strict: bool)
    requires Sound(doc, a, free, f, strict) && OffsetsBut(a, a2, |a|)
    ensures a2[0].startL == 0 && a2[0].startR == 0 && SameOffsets(a, a2, Ids(f))
  {
    hide Laid, Linked;
  }

  lemma OutParents(doc: string, a: seq<ElemPos>, a2: seq<ElemPos>, free: nat, f: Forest, top: nat, before: nat, t: nat,
                   both: set<nat>, ends: set<nat>, n: int, strict: bool)
    requires Sound(doc, a, free, f, strict) && LinkedOut(a, a2, top, before, t)
    ensures ParentsKept(a, Shift(a2, both, ends, n), Ids(f))
  {
    hide Laid, Linked;
  }

  lemma RemovedIds(f: Forest, top: nat, before: nat, k: Forest, r: Forest, p: Path)
    requires UniqIn(f, Top) && top in Ids(f) && Find(f, top, Top) == (k, r, p) && IsPlace(k, before) &&
             Past(k, before).Cons?
    ensures Ids(ReplaceKids(f, top, Remove(k, before))) == Ids(f) - Ids(Past(k, before).kids) - {Past(k, before).elem}
  {
    hide UniqIn, Past, Remove, TopIds;
    FindUniq(f, top, Top);
    RemoveIds(k, before);
    PlaceIds(k, before);
    ReplaceKidsIds(f, top, Remove(k, before), Top);
  }

  lemma RemoveRootDone(doc: string, doc': string, a: seq<ElemPos>, a2: seq<ElemPos>, b: seq<ElemPos>, free: nat,
                       f: Forest, before: nat, t: nat, strict: bool)
    requires Sound(doc, a, free, f, strict) && IsPlace(f, before)
    requires Past(f, before).Cons? && Past(f, before).elem == t && LinkedOut(a, a2, 0, before, t) &&
             OffsetsBut(a, a2, |a|)
    requires t < |a| && ElemOk(doc, a[t], strict)
    requires a[t].startL <= NextNode(doc, a[t].endR + 1)
    requires var q := NextNode(doc, a[t].endR + 1);
      doc' == DocChange(doc, a[t].startL, q - a[t].startL, "") &&
      b == Shift(a2, Ahead(Nil, Past(f, before).rest, Top), PathAnc(Top), a[t].startL - q)
    ensures Sound(doc', b, free, Remove(f, before), strict)
    ensures Ids(Remove(f, before)) == Ids(f) - Ids(Past(f, before).kids) - {t} && ParentsKept(a, b, Ids(f))
  {
    hide Sound, TagsOk, Shift, DocChange, UniqIn, Laid, Upto, Past, TopIds, Remove, NextNode, LinkedOut;
    var s, q := a[t].startL, NextNode(doc, a[t].endR + 1);
    SoundFresh(doc, a, free, f, strict);
    SoundLaid(doc, a, free, f, strict);
    OpenBefore(doc, a, f, before, 0, |doc|, strict);
    NextNodeClear(doc, a[t].endR + 1, |doc|);
    LaidRaise(doc, a, Past(f, before).rest, a[t].endR + 1, q, |doc|, strict);
    OutZero(doc, a, a2, free, f, strict);
    assert Ahead(Nil, Past(f, before).rest, Top) == Ids(Past(f, before).rest) && PathAnc(Top) == {0};
    SoundRemoveRoot(doc, doc', a, a2, b, free, f, before, s, q, strict);
    RemoveIds(f, before);
    OutParents(doc, a, a2, free, f, 0, before, t, Ids(Past(f, before).rest), {0}, s - q, strict);
  }

  lemma SoundLaid(doc: string, a: seq<ElemPos>, free: nat, f: Forest, strict: bool)
    requires Sound(doc, a, free, f, strict)
    ensures Laid(doc, a, f, 0, |doc|, strict) && Linked(a, f, a[0].child, 0) && Uniq(f)
  {
    hide Laid, Linked;
  }

  /** Finding an element below `top` is finding it in the list of children of `top`. */
  lemma {:induction false} FindWithin(f: Forest, top: nat, t: nat, up: Path)
    requires UniqIn(f, up) && top in Ids(f) && t in Ids(Find(f, top, up).0)
    ensures t in Ids(f) && var (k, r, p) := Find(f, top, up); Find(f, t, up) == Find(k, t, Inside(top, r, p))
  {
    FindUniq(f, top, up);
    if top == f.elem {
    } else if top in Ids(f.kids) {
      FindUniq(f.kids, top, Inside(f.elem, f.rest, up));
      FindWithin(f.kids, top, t, Inside(f.elem, f.rest, up));
    } else {
      FindUniq(f.rest, top, up);
      FindWithin(f.rest, top, t, up);
    }
  }

  lemma {:induction false} FindTop(k: Forest, prev: nat, up: Path)
    requires Uniq(k) && 0 !in Ids(k) && IsPlace(k, prev) && Past(k, prev).Cons?
    ensures var g := Past(k, prev); g.elem in Ids(k) && Find(k, g.elem, up).0 == g.kids
  {
    if prev != 0 && k.elem != prev {
      FindTop(k.rest, prev, up);
      PlaceIds(k.rest, prev);
    } else if prev == k.elem {
      PlaceIds(k.rest, 0);
    }
  }

  lemma RemoveReady(doc: string, a: seq<ElemPos>, free: nat, f: Forest, top: nat, prev: nat, t: nat, strict: bool)
    requires Sound(doc, a, free, f, strict) && (top == 0 || top in Ids(f)) && IsPlace(Kids(f, top), prev)
    requires Past(Kids(f, top), prev).Cons? && Past(Kids(f, top), prev).elem == t
    ensures 0 < t < |a| && t in Ids(f) && top < |a| && prev < |a| && ElemOk(doc, a[t], strict)
    ensures Find(f, t, Top).0 == Past(Kids(f, top), prev).kids
    ensures prev != 0 ==>
      prev in Ids(f) && prev !in Ids(Past(Kids(f, top), prev).kids) && prev != t && a[prev].parent == top
  {
    hide Sound, UniqIn, Laid, Linked, TopIds, Past, Cursor, ElemOk;
    var k := Kids(f, top);
    SoundFresh(doc, a, free, f, strict);
    KidsLinked(doc, a, free, f, top, strict);
    PlaceIds(k, prev);
    PastLinked(a, k, prev, a[top].child, top);
    if top == 0 {
      FindTop(f, prev, Top);
    } else {
      FindUniq(f, top, Top);
      var (k', r, p) := Find(f, top, Top);
      FindTop(k, prev, Inside(top, r, p));
      FindWithin(f, top, t, Top);
    }
    SoundAt(doc, a, free, f, t, strict);
  }

  lemma RootCursor(doc: string, a: seq<ElemPos>, b: seq<ElemPos>, free: nat, f: Forest, prev: nat, strict: bool)
    requires Sound(doc, a, free, f, strict) && IsPlace(f, prev) && Past(f, prev).Cons? &&
             LinkedOut(a, b, 0, prev, Past(f, prev).elem)
    ensures Cursor(b, Past(f, prev).elem, false, Nil, Past(f, prev).rest, Top)
  {
    hide Laid, Past, TopIds, Upto;
    PlaceIds(f, prev);
    PastLinked(a, f, prev, a[0].child, 0);
    RemovePast(a, b, f, 0, prev);
  }

  /** The elements around `t` are not below it. */
  lemma AboveRemoved(doc: string, a: seq<ElemPos>, free: nat, f: Forest, t: nat, strict: bool)
    requires Sound(doc, a, free, f, strict) && t in Ids(f) && t < |a|
    ensures var gone := Ids(Find(f, t, Top).0) + {t}; var top := a[t].parent;
      top !in gone && top < |a| &&
      (top != 0 ==> top in Ids(f) && a[top].parent !in gone && (a[top].parent == 0 || a[top].parent in Ids(f)))
  {
    hide Laid;
    var (k, r, p) := Find(f, t, Top);
    SoundAt(doc, a, free, f, t, strict);
    FindUniq(f, t, Top);
    PathUp(a, f, p);
  }

  lemma PathUp(a: seq<ElemPos>, f: Forest, p: Path)
    requires PathLinked(a, p) && PathAnc(p) <= Ids(f) + {0} && 0 !in Ids(f) && UniqPath(p)
    ensures ParentOf(p) < |a| && ParentOf(p) in PathAnc(p) && (ParentOf(p) != 0 ==> a[ParentOf(p)].parent in PathAnc(p))
  {
    if p.Inside? { assert ParentOf(p.up) in PathAnc(p.up); }
  }

  lemma TargetClean(doc: string, a: seq<ElemPos>, free: nat, f: Forest, t: nat)
    requires Sound(doc, a, free, f, true) && (t == 0 || t in Ids(f))
    ensures t < |a| && (t != 0 ==> ElemOk(doc, a[t], true) && CleanTag(StartTag(doc, a[t])))
  {
    hide Laid, CleanTag, TokenAt;
    if t != 0 { SoundAt(doc, a, free, f, t, true); }
  }
}
