/** Every edit leaves exactly the elements that the parser would find in the new text. */
module MarkupReread {
  import opened MarkupText
  import opened MarkupArena
  import opened MarkupLayout
  import opened MarkupEdits
  import opened MarkupTags
  import opened MarkupState
  import opened MarkupWrite
  import opened MarkupData
  import opened MarkupParse
  import opened MarkupGrammar
  import opened MarkupTidy

  // ---- tags as strings ----

  /** A start tag on its own. */
  ghost predicate TagMade(tag: string, empty: bool) {
    StartMade(tag, 0, |tag| - 1, empty)
  }

  lemma SliceSame(doc: string, x: nat, y: nat)
    requires x <= y <= |doc|
    ensures SameText(doc, doc[x..y], x, y, 0 - x) && SameText(doc[x..y], doc, 0, y - x, x)
  {
  }

  lemma TagCut(doc: string, x: nat, y: nat, empty: bool)
    requires StartMade(doc, x, y, empty)
    ensures TagMade(doc[x..y + 1], empty) && NameAt(doc[x..y + 1], 0) == NameAt(doc, x)
  {
    hide StartMade, NameAt;
    StartBounds(doc, x, y, empty);
    SliceSame(doc, x, y + 1);
    StartMoved(doc, doc[x..y + 1], x, y + 1, 0 - x, x, y, empty);
  }

  lemma TagPut(doc: string, x: nat, tag: string, empty: bool)
    requires TagMade(tag, empty) && x + |tag| <= |doc| && doc[x..x + |tag|] == tag
    ensures StartMade(doc, x, x + |tag| - 1, empty) && NameAt(doc, x) == NameAt(tag, 0)
  {
    hide StartMade, NameAt;
    StartBounds(tag, 0, |tag| - 1, empty);
    SliceSame(doc, x, x + |tag|);
    StartMoved(tag, doc, 0, |tag|, x, 0, |tag| - 1, empty);
  }

  lemma StartBounds(doc: string, x: int, y: int, empty: bool)
    requires StartMade(doc, x, y, empty)
    ensures 0 <= x && x + 2 <= y < |doc| && doc[x] == '<' && doc[y] == '>'
  {
    hide TokenAt;
  }

  /** The name token is kept when the text after it changes, if what follows it at once still ends it. */
  lemma NameKeptAt(s: string, s': string, m: nat)
    requires SameText(s, s', 0, m, 0) && 1 <= m
    requires var t := TokenAt(s, 1);
      t.found && !t.isString && (t.next < m || (t.next == m < |s'| && In(s'[m], Special)))
    ensures TokenAt(s', 1) == TokenAt(s, 1)
  {
    hide In, Scan, IsQuote, SameText;
    var b := Scan(s, 1, Space, false);
    ScanMoved(s, s', 0, m, 0, 1, Space, false);
    SameAt(s, s', 0, m, 0, b);
    ScanMoved(s, s', 0, m, 0, b, Special, true);
    if m < |s'| { ScanStops(s', b, m); }
  }

  lemma ScanStops(s: string, b: nat, m: nat)
    requires b <= m < |s|
    ensures In(s[m], Special) ==> Scan(s, b, Special, true) <= m
  {
    hide In;
  }

  /** A start tag with no '>' after its name but the last is one that the parser would read. */
  lemma MadeFrom(s: string, t: Token, empty: bool)
    requires |s| >= 3 && s[0] == '<' && s[|s| - 1] == '>' && TokenAt(s, 1) == t && t.found && !t.isString &&
             t.next < |s|
    requires s[t.l] != '/' && s[t.l] != '?' && s[t.l] != '!' && (empty ==> s[t.l] != '>') &&
             forall k :: t.next <= k < |s| - 1 ==> s[k] != '>'
    requires if empty then |s| >= 4 && s[|s| - 2] == '/' && s[|s| - 3] != '/' else s[|s| - 2] != '/'
    ensures TagMade(s, empty)
  {
    hide TokenAt;
    ScanIs(s, t.next, Is('>'), true, |s| - 1);
  }

  /** What a start tag gives back. */
  lemma MadeParts(s: string, empty: bool)
    requires TagMade(s, empty)
    ensures |s| >= 3 && s[0] == '<' && s[|s| - 1] == '>'
    ensures var t := TokenAt(s, 1);
      t.found && !t.isString && t.next < |s| && NameAt(s, 0) == s[t.l..t.r + 1] && s[t.l] != '/' && s[t.l] != '?' &&
      s[t.l] != '!' && (empty ==> s[t.l] != '>') && forall k :: t.next <= k < |s| - 1 ==> s[k] != '>'
    ensures if empty then |s| >= 4 && s[|s| - 2] == '/' && s[|s| - 3] != '/' else s[|s| - 2] != '/'
  {
    hide TokenAt;
  }

  lemma WrittenMade(name: string, close: string)
    requires NameOk(name) && (close == ">" || close == "/>")
    ensures TagMade("<" + name + close, close == "/>") && NameAt("<" + name + close, 0) == name
  {
    hide TokenAt, TagMade, NameOk, IsWord;
    var s := "<" + name + close;
    NameChars(name);
    WrittenChars(s, name, close);
    TokenWord(s, 1, name);
    MadeFrom(s, TokenAt(s, 1), close == "/>");
  }

  lemma NameChars(name: string)
    requires NameOk(name)
    ensures IsWord(name) && name[0] != '/' && name[0] != '?' && name[0] != '!' && name[0] != '>' &&
            name[|name| - 1] != '/'
    ensures |name| > 0 && name != ">"
  {
    assert !In(name[0], Special) && !In(name[|name| - 1], Special);
  }

  lemma WrittenChars(s: string, name: string, close: string)
    requires s == "<" + name + close && |name| > 0 && (close == ">" || close == "/>")
    ensures s[0] == '<' && s[1..1 + |name|] == name && s[1] == name[0] && s[|name|] == name[|name| - 1]
    ensures |s| == 1 + |name| + |close| && s[|name| + 1] == close[0] && In(s[|name| + 1], Special) && s[|s| - 1] == '>'
  {
  }

  /** An end tag on its own. */
  lemma EndWritten(name: string)
    requires IsWord(name) && name != ">"
    ensures EndMade("</" + name + ">", 0, |name| + 2, name)
  {
    hide TokenAt, IsWord;
    var e := "</" + name + ">";
    EndChars(e, name);
    TokenOne(e, 1);
    TokenWord(e, 2, name);
    TokenOne(e, |name| + 2);
    assert EndFrom(e, |name| + 2, 2, name) == |name| + 2;
    assert EndFrom(e, 2, 1, name) == |name| + 2;
  }

  lemma EndChars(e: string, name: string)
    requires e == "</" + name + ">" && IsWord(name) && name != ">"
    ensures |e| == |name| + 3 && e[0] == '<' && e[1] == '/' && e[2..2 + |name|] == name && e[2 + |name|] == '>' &&
            e[2] == name[0] != '>'
    ensures In(e[1], Special) && In(e[2 + |name|], Special) && !IsSpace(e[1]) && !IsSpace(e[2 + |name|])
  {
    assert |name| == 1 || !In(name[0], Special);
    assert |name| == 1 ==> name == [name[0]];
  }

  lemma EndPut(doc: string, z: nat, name: string)
    requires IsWord(name) && name != ">" && z + |name| + 3 <= |doc| && doc[z..z + |name| + 3] == "</" + name + ">"
    ensures EndMade(doc, z, z + |name| + 2, name)
  {
    hide EndMade, IsWord;
    EndWritten(name);
    SliceSame(doc, z, z + |name| + 3);
    EndMoved("</" + name + ">", doc, 0, |name| + 3, z, 0, |name| + 2, name);
  }

  // ---- x_SetAttrib ----

  /** The start tag with a pair inserted at its end. */
  lemma InsertedMade(tag: string, empty: bool, attr: string, v: string)
    requires TagMade(tag, empty) && NameOk(attr) && '>' !in v && 1 <= InsertAt(tag, empty)
    ensures var s := Inserted(tag, InsertAt(tag, empty), attr, v); TagMade(s, empty) && NameAt(s, 0) == NameAt(tag, 0)
  {
    hide TokenAt, TagMade, NameOk, Pair;
    var m := InsertAt(tag, empty);
    var s, t := Inserted(tag, m, attr, v), TokenAt(tag, 1);
    MadeParts(tag, empty);
    NameEnds(tag, empty);
    PairChars(attr, v);
    InsertedChars(tag, m, Pair(attr, v), s, t.next);
    NameKeptAt(tag, s, m);
    MadeFrom(s, t, empty);
    SameName(tag, s, m);
  }

  lemma SameName(tag: string, s: string, m: nat)
    requires SameText(tag, s, 0, m, 0) && |tag| > 0 && |s| > 0 && TokenAt(s, 1) == TokenAt(tag, 1) &&
             TokenAt(tag, 1).found && TokenAt(tag, 1).r + 1 <= m
    ensures NameAt(s, 0) == NameAt(tag, 0)
  {
    hide TokenAt;
    var t := TokenAt(tag, 1);
    Slice(tag, s, 0, m, 0, t.l, t.r + 1);
  }

  /** The name of an empty element ends before the slash. */
  lemma NameEnds(tag: string, empty: bool)
    requires TagMade(tag, empty)
    ensures TokenAt(tag, 1).next <= InsertAt(tag, empty)
  {
    hide Scan;
    var t := TokenAt(tag, 1);
    if empty && t.next == |tag| - 1 {
      assert tag[|tag| - 2] == '/' && In('/', Special);
    }
  }

  lemma PairChars(attr: string, v: string)
    requires NameOk(attr) && '>' !in v
    ensures var p := Pair(attr, v);
      |p| >= 4 && p[0] == ' ' && p[|p| - 1] == '"' && forall k :: 0 <= k < |p| ==> p[k] != '>'
  {
    var p := Pair(attr, v);
    forall k | 0 <= k < |p|
      ensures p[k] != '>'
    {
      if 1 <= k <= |attr| {
        assert p[k] == attr[k - 1] && !In(attr[k - 1], Special);
      } else if |attr| + 3 <= k < |p| - 1 {
        assert p[k] == v[k - |attr| - 3] && v[k - |attr| - 3] in v;
      }
    }
  }

  lemma InsertedChars(tag: string, m: nat, p: string, s: string, i: nat)
    requires m <= |tag| && |p| >= 4 && p[0] == ' ' && p[|p| - 1] == '"' && s == tag[..m] + p + tag[m..] &&
             |tag| - 2 <= m < |tag| && i <= m
    requires forall k :: 0 <= k < |p| ==> p[k] != '>'
    requires forall k :: i <= k < |tag| - 1 ==> tag[k] != '>'
    ensures SameText(tag, s, 0, m, 0) && s[m] == ' ' && |s| == |tag| + |p| && In(' ', Special)
    ensures forall k :: i <= k < |s| - 1 ==> s[k] != '>'
    ensures s[|s| - 1] == tag[|tag| - 1] && s[m + |p| - 1] == '"' && (m == |tag| - 2 ==> s[|s| - 2] == tag[m])
  {
  }

  /** The value that x_FindAttrib finds is a quoted string that closes inside the tag. */
  lemma {:induction false} AttribClosed(s: string, i: nat, attr: string, count: nat, hit: nat)
    requires i <= |s| && AttribAt(s, i, attr, count, hit).found && AttribAt(s, i, attr, count, hit).next < |s|
    ensures var u := AttribAt(s, i, attr, count, hit); u.next == u.r + 2 && IsQuote(s[u.r + 1])
    decreases |s| - i
  {
    hide HitAfter, TokenAt;
    var t := TokenAt(s, i);
    if t.isString { StringClosed(s, i); }
    if !(t.isString && hit != 0 && count == hit + 2) {
      AttribClosed(s, t.next, attr, count + 1, HitAfter(s, t, attr, count, hit));
    }
  }

  lemma ReplacedMade(tag: string, empty: bool, u: Token, v: string)
    requires TagMade(tag, empty) && '>' !in v && TokenAt(tag, 1).next < u.l <= u.r + 1 < |tag| - 1 &&
             IsQuote(tag[u.r + 1])
    ensures var s := tag[..u.l] + v + tag[u.r + 1..]; TagMade(s, empty) && NameAt(s, 0) == NameAt(tag, 0)
  {
    hide TokenAt, TagMade;
    var s, t := tag[..u.l] + v + tag[u.r + 1..], TokenAt(tag, 1);
    MadeParts(tag, empty);
    ReplacedChars(tag, u.l, u.r + 1, v, s, t.next, empty);
    NameKeptAt(tag, s, u.l);
    MadeFrom(s, t, empty);
    SameName(tag, s, u.l);
  }

  lemma ReplacedChars(tag: string, l: nat, r: nat, v: string, s: string, i: nat, empty: bool)
    requires i < l <= r < |tag| - 1 && '>' !in v && s == tag[..l] + v + tag[r..] && IsQuote(tag[r])
    requires forall k :: i <= k < |tag| - 1 ==> tag[k] != '>'
    requires if empty then |tag| >= 4 && tag[|tag| - 2] == '/' && tag[|tag| - 3] != '/' else tag[|tag| - 2] != '/'
    ensures SameText(tag, s, 0, l, 0) && |s| >= 3 && s[0] == tag[0] && s[|s| - 1] == tag[|tag| - 1]
    ensures forall k :: i <= k < |s| - 1 ==> s[k] != '>'
    ensures if empty then |s| >= 4 && s[|s| - 2] == '/' && s[|s| - 3] != '/' else s[|s| - 2] != '/'
  {
    assert s[|s| - 2] == tag[|tag| - 2];
    forall k | i <= k < |s| - 1
      ensures s[k] != '>'
    {
      if l <= k < l + |v| { assert s[k] == v[k - l] && v[k - l] in v; }
      else if k >= l + |v| { assert s[k] == tag[k - l - |v| + r]; }
    }
    if empty { assert r <= |tag| - 3 && s[|s| - 3] == tag[|tag| - 3]; }
  }

  /** The tag that x_SetAttrib leaves is read as it was, with the same name. */
  lemma AttribMade(tag: string, empty: bool, attr: string, value: string)
    requires TagMade(tag, empty) && NameOk(attr) && 1 <= InsertAt(tag, empty)
    requires AttribAt(tag, 1, attr, 0, 0).found ==> AttribAt(tag, 1, attr, 0, 0).next < |tag|
    ensures var s := AttribTag(tag, empty, attr, value); TagMade(s, empty) && NameAt(s, 0) == NameAt(tag, 0)
  {
    hide TokenAt, TagMade, NameOk, Inserted, Escape, NameAt, AttribAt;
    var v, u := Escape(value, true), AttribAt(tag, 1, attr, 0, 0);
    EscapeClean(value, true, '>');
    if u.found {
      AttribClosed(tag, 1, attr, 0, 0);
      AttribPastName(tag, attr);
      ReplacedMade(tag, empty, u, v);
    } else {
      InsertedMade(tag, empty, attr, v);
    }
  }

  lemma AttribPastName(tag: string, attr: string)
    requires |tag| > 0 && AttribAt(tag, 1, attr, 0, 0).found
    ensures TokenAt(tag, 1).next < AttribAt(tag, 1, attr, 0, 0).l
  {
    hide TokenAt;
  }

  /** Element `t` has a new record and text, and the children it had. */
  lemma TidyRecord(doc: string, doc': string, a: seq<ElemPos>, b: seq<ElemPos>, f: Forest, t: nat, k: Forest, n: int)
    requires TidyIn(doc, a, f, 0, |doc|) && t in Ids(f) && UniqIn(f, Top) && k == Find(f, t, Top).0 &&
             |doc'| == |doc| + n
    requires RepairedBut(a, b, f, t, Top, n) && EditedTidy(doc, doc', a, b, t, k, n)
    ensures TidyIn(doc', b, f, 0, |doc'|)
  {
    hide RepairedBut, EditedTidy, TidyIn, UniqIn;
    TidyAround(doc, doc', a, b, f, t, k, Top, 0, |doc|, n);
    ReplaceOwnKids(f, t, Top);
  }

  lemma WellRetagged(doc: string, doc': string, e: ElemPos, s: string, n: int)
    requires WellMade(doc, e) && e.startR < |doc| && 0 <= e.startL <= e.startR && n == |s| - (e.startR + 1 - e.startL)
    requires doc' == DocChange(doc, e.startL, e.startR + 1 - e.startL, s)
    requires TagMade(s, e.IsEmptyElement()) && NameAt(s, 0) == NameAt(doc, e.startL)
    ensures WellMade(doc', Retagged(e, n))
  {
    hide StartMade, EndMade, NameAt, DocChange;
    StartBounds(s, 0, |s| - 1, e.IsEmptyElement());
    DocChanged(doc, e.startL, e.startR + 1 - e.startL, s);
    TagPut(doc', e.startL, s, e.IsEmptyElement());
    if !e.IsEmptyElement() {
      WellBounds(doc, e);
      EndMoved(doc, doc', e.startR + 1, |doc|, n, e.endL, e.endR, NameAt(doc, e.startL));
    }
  }

  lemma WellTag(doc: string, e: ElemPos)
    requires WellMade(doc, e)
    ensures StartMade(doc, e.startL, e.startR, e.IsEmptyElement())
  {
  }

  /** x_SetAttrib */
  lemma TidyAttrib(doc: string, doc': string, a: seq<ElemPos>, b: seq<ElemPos>, free: nat, f: Forest, t: nat,
                   attr: string, value: string, k: Forest, r: Forest, p: Path, n: int, strict: bool)
    requires Sound(doc, a, free, f, strict) && t in Ids(f) && t < |a| && Find(f, t, Top) == (k, r, p) && NameOk(attr)
    requires ElemOk(doc, a[t], strict) && CleanTag(StartTag(doc, a[t])) && TidyIn(doc, a, f, 0, |doc|)
    requires var s := AttribTag(StartTag(doc, a[t]), a[t].IsEmptyElement(), attr, value);
      doc' == DocChange(doc, a[t].startL, a[t].startR + 1 - a[t].startL, s) &&
      n == |s| - (a[t].startR + 1 - a[t].startL)
    requires b == Shift(a[t := Retagged(a[t], n)], Ahead(k, r, p), PathAnc(p), n)
    ensures TidyIn(doc', b, f, 0, |doc'|)
  {
    hide Sound, UniqIn, Find, TidyIn, WellMade, Shift, Ahead, PathAnc, AttribTag, DocChange, CleanTag, TagsOk, NameOk,
         AttribAt, RepairedBut, Moved, EditedTidy, TagMade, NameAt, Ids, SameLinks;
    var e := a[t];
    SoundFresh(doc, a, free, f, strict);
    TidyAt(doc, a, f, t, Top, 0, |doc|);
    WellBounds(doc, e);
    RecordShift(doc, a, b, free, f, t, Retagged(e, n), k, r, p, n, strict);
    AttribInTag(doc, e, attr, strict);
    AttribWell(doc, e, attr, value);
    var s := AttribTag(StartTag(doc, e), e.IsEmptyElement(), attr, value);
    WellRetagged(doc, doc', e, s, n);
    RetaggedTidy(doc, doc', a, b, t, s, k, n);
    TidyRecord(doc, doc', a, b, f, t, k, n);
  }

  lemma AttribWell(doc: string, e: ElemPos, attr: string, value: string)
    requires WellMade(doc, e) && 0 <= e.startL && e.startL + 2 <= e.startR < |doc| && NameOk(attr)
    requires var u := AttribAt(StartTag(doc, e), 1, attr, 0, 0); u.found ==> u.next < e.startR + 1 - e.startL
    ensures 1 <= InsertAt(StartTag(doc, e), e.IsEmptyElement())
    ensures var s := AttribTag(StartTag(doc, e), e.IsEmptyElement(), attr, value);
      TagMade(s, e.IsEmptyElement()) && NameAt(s, 0) == NameAt(doc, e.startL)
  {
    hide StartMade, NameAt, NameOk, AttribAt, EndMade, AttribTag;
    WellTag(doc, e);
    TagCut(doc, e.startL, e.startR, e.IsEmptyElement());
    AttribMade(StartTag(doc, e), e.IsEmptyElement(), attr, value);
  }

  /** The children follow their parent's new start tag. */
  lemma RetaggedTidy(doc: string, doc': string, a: seq<ElemPos>, b: seq<ElemPos>, t: nat, s: string, k: Forest, n: int)
    requires t < |a| && t < |b| && b[t] == Retagged(a[t], n) && WellMade(doc, a[t]) && WellMade(doc', b[t]) &&
             Moved(a, b, Ids(k), n, n)
    requires if a[t].IsEmptyElement() then k == Nil else TidyIn(doc, a, k, a[t].startR + 1, a[t].endL)
    requires 0 <= a[t].startL <= a[t].startR < |doc| && n == |s| - (a[t].startR + 1 - a[t].startL)
    requires doc' == DocChange(doc, a[t].startL, a[t].startR + 1 - a[t].startL, s)
    ensures EditedTidy(doc, doc', a, b, t, k, n) && |doc'| == |doc| + n
  {
    hide WellMade, Moved, TidyIn, DocChange, Gap, SameText, Ids;
    var e := a[t];
    WellBounds(doc, e);
    RetaggedText(doc, doc', e, s, n);
    TextPart(doc, doc', e.startR + 1, |doc|, n, e.endR + 1, |doc|);
    if !e.IsEmptyElement() {
      TextPart(doc, doc', e.startR + 1, |doc|, n, e.startR + 1, e.endL);
      TidyMoved(doc, doc', a, b, k, e.startR + 1, e.endL, n);
    }
  }

  lemma RetaggedText(doc: string, doc': string, e: ElemPos, s: string, n: int)
    requires 0 <= e.startL <= e.startR < |doc| && n == |s| - (e.startR + 1 - e.startL)
    requires doc' == DocChange(doc, e.startL, e.startR + 1 - e.startL, s)
    ensures |doc'| == |doc| + n && SameText(doc, doc', 0, e.startL, 0) && SameText(doc, doc', e.startR + 1, |doc|, n)
  {
    hide DocChange, SameText;
    DocChanged(doc, e.startL, e.startR + 1 - e.startL, s);
  }

  // ---- x_SetData ----

  /** What x_SetData writes holds no element. */
  lemma ContentGap(doc: string, x: nat, y: nat, data: string, cdata: bool)
    requires x <= y <= |doc| && doc[x..y] == Content(data, cdata)
    ensures Gap(doc, x, y)
  {
    hide Escape, CDataEnd, Gap;
    if cdata && CDataEnd(data, 0) == |data| {
      CDataGap(doc, x, data);
    } else {
      EscapeClean(data, false, '<');
      assert forall k :: x <= k < y ==> doc[k] == doc[x..y][k - x];
      GapPlain(doc, x, y);
    }
  }

  lemma CDataGap(doc: string, x: nat, data: string)
    requires x + |data| + 12 <= |doc| && doc[x..x + |data| + 12] == "<![CDATA[" + data + "]]>" &&
             CDataEnd(data, 0) == |data|
    ensures Gap(doc, x, x + |data| + 12)
  {
    hide CDataEnd, NodeEnd;
    CDataText(doc, x, data);
    CDataFirst(doc, x, data);
    CDataNode(doc, x, x + 9 + |data|);
    ScanIs(doc, x, Is('<'), true, x);
    EmptyGap(doc, x + |data| + 12);
  }

  /** The first "]]>" behind the '<' is where the parser's node ends. */
  lemma CDataNode(doc: string, x: nat, z: nat)
    requires x + 9 <= z < |doc| && doc[x] == '<' && doc[x + 1..x + 9] == "![CDATA[" && CDataEnd(doc, x + 1) == z &&
             EndsCData(doc, z)
    ensures NodeEnd(doc, x) == z + 3 && doc[x + 1] == '!'
  {
    hide CDataEnd;
    var w := doc[x + 1..x + 9];
    assert doc[x + 1] == w[0] == '!' && doc[x + 2] == w[1] == '[';
    var r := FindStr(doc, x, "]]>");
    StrEnds(doc, z);
    if r <= |doc| { StrEnds(doc, r); }
  }

  lemma StrEnds(doc: string, k: nat)
    ensures StrAt(doc, k, "]]>") <==> EndsCData(doc, k)
  {
    if k + 3 <= |doc| {
      var v := doc[k..k + 3];
      assert doc[k] == v[0] && doc[k + 1] == v[1] && doc[k + 2] == v[2];
    }
  }

  /** x_SetData on an element with a start and an end tag */
  lemma TidyContent(doc: string, doc': string, a: seq<ElemPos>, b: seq<ElemPos>, free: nat, f: Forest, t: nat,
                    data: string, cdata: bool, r: Forest, p: Path, n: int, strict: bool)
    requires Sound(doc, a, free, f, strict) && t in Ids(f) && t < |a| && Find(f, t, Top) == (Nil, r, p)
    requires ElemOk(doc, a[t], strict) && !a[t].IsEmptyElement() &&
             n == |Content(data, cdata)| - (a[t].endL - a[t].startR - 1)
    requires doc' == DocChange(doc, a[t].startR + 1, a[t].endL - a[t].startR - 1, Content(data, cdata)) &&
             TidyIn(doc, a, f, 0, |doc|)
    requires var s := Shift(a, Ahead(Nil, r, p), PathAnc(p), n); b == s[t := s[t].AdjustEnd(n)]
    ensures TidyIn(doc', b, f, 0, |doc'|)
  {
    hide Sound, UniqIn, Find, TidyIn, WellMade, Shift, Ahead, PathAnc, DocChange, TagsOk, RepairedBut, Moved,
         EditedTidy, Ids, SameLinks, Content;
    var e := a[t];
    SoundFresh(doc, a, free, f, strict);
    TidyAt(doc, a, f, t, Top, 0, |doc|);
    WellBounds(doc, e);
    ShiftAround(f, t, a, e.AdjustEnd(n), Nil, r, p, n);
    RecordShift(doc, a, b, free, f, t, e.AdjustEnd(n), Nil, r, p, n, strict);
    ContentTidy(doc, doc', a, b, t, Content(data, cdata), data, cdata, n);
    TidyRecord(doc, doc', a, b, f, t, Nil, n);
  }

  lemma ContentTidy(doc: string, doc': string, a: seq<ElemPos>, b: seq<ElemPos>, t: nat, ins: string, data: string,
                    cdata: bool, n: int)
    requires t < |a| && t < |b| && b[t] == a[t].AdjustEnd(n) && WellMade(doc, a[t]) && !a[t].IsEmptyElement()
    requires 0 <= a[t].startL <= a[t].startR < a[t].endL < a[t].endR < |doc|
    requires ins == Content(data, cdata) && n == |ins| - (a[t].endL - a[t].startR - 1)
    requires doc' == DocChange(doc, a[t].startR + 1, a[t].endL - a[t].startR - 1, ins)
    ensures EditedTidy(doc, doc', a, b, t, Nil, n) && |doc'| == |doc| + n
  {
    hide WellMade, DocChange, Gap, Content;
    var e := a[t];
    DocChanged(doc, e.startR + 1, e.endL - e.startR - 1, ins);
    WellAround(doc, doc', e, b[t], e.startR + 1, e.endL, n);
    TextPart(doc, doc', 0, e.startR + 1, 0, 0, e.startL);
    TextPart(doc, doc', e.endL, |doc|, n, e.endR + 1, |doc|);
    ContentGap(doc', e.startR + 1, e.endL + n, data, cdata);
  }

  // ---- an empty element is split in two ----

  /** The start tag without its slash. */
  lemma OpenedMade(tag: string)
    requires TagMade(tag, true)
    ensures var s := tag[..|tag| - 2] + ">"; TagMade(s, false) && NameAt(s, 0) == NameAt(tag, 0)
    ensures IsWord(NameAt(tag, 0)) && NameAt(tag, 0) != ">"
  {
    hide TokenAt, TagMade, IsWord;
    MadeParts(tag, true);
    var m := |tag| - 2;
    var s, t := tag[..m] + ">", TokenAt(tag, 1);
    NameEnds(tag, true);
    WordOfToken(tag, 1);
    assert tag[t.l..t.r + 1][0] == tag[t.l];
    OpenedChars(tag, s, m);
    NameKeptAt(tag, s, m);
    MadeFrom(s, t, false);
    SameName(tag, s, m);
  }

  lemma OpenedChars(tag: string, s: string, m: nat)
    requires |tag| >= 4 && m == |tag| - 2 && s == tag[..m] + ">"
    ensures SameText(tag, s, 0, m, 0) && s[m] == '>' && In(s[m], Special) && |s| == m + 1 && s[m - 1] == tag[m - 1]
    ensures forall k :: 0 <= k < m ==> s[k] == tag[k]
  {
  }

  /** `<NAME/>` has become `<NAME>` text `</NAME>`. */
  lemma WellOpened(doc: string, doc': string, e: ElemPos, name: string, text: string)
    requires WellMade(doc, e) && e.IsEmptyElement() && Bounded(doc, e) && doc[e.endR] == '>' && e.startL + 3 <= e.startR
    requires name == NameAt(doc, e.startL) && doc' == DocChange(doc, e.endL, 1, OpenedBy(name, text))
    ensures WellMade(doc', Opened(e, name, text))
  {
    hide StartMade, EndMade, NameAt, DocChange, OpenedBy, IsWord;
    var e' := Opened(e, name, text);
    var tag := StartTag(doc, e);
    WellTag(doc, e);
    TagCut(doc, e.startL, e.startR, true);
    OpenedMade(tag);
    OpenedText(doc, doc', e, name, text);
    var s := tag[..|tag| - 2] + ">";
    TagPut(doc', e.startL, s, false);
    EndPut(doc', e'.endL, name);
  }

  lemma NameIs(doc: string, e: ElemPos)
    requires Bounded(doc, e) && WellMade(doc, e)
    ensures TagName(StartTag(doc, e)) == NameAt(doc, e.startL)
  {
    hide StartMade, EndMade, TokenAt;
    WellTag(doc, e);
    TagCut(doc, e.startL, e.startR, e.IsEmptyElement());
  }

  /** Around the split element nothing changes, and between its new tags is `text`. */
  lemma OpenedTidy(doc: string, doc': string, a: seq<ElemPos>, b: seq<ElemPos>, t: nat, name: string, text: string,
                   k: Forest, n: int, strict: bool)
    requires t < |a| && t < |b| && ElemOk(doc, a[t], strict) && a[t].IsEmptyElement() && WellMade(doc, a[t]) &&
             Bounded(doc, a[t])
    requires name == TagName(StartTag(doc, a[t])) && n == |text| + 2 + |name| &&
             doc' == DocChange(doc, a[t].endL, 1, OpenedBy(name, text))
    requires MovedBy(Opened(a[t], name, text), b[t], 0, 0) && TidyIn(doc', b, k, b[t].startR + 1, b[t].endL)
    ensures EditedTidy(doc, doc', a, b, t, k, n) && |doc'| == |doc| + n
  {
    hide WellMade, DocChange, OpenedBy, TagsOk, TagName, NameAt, TidyIn, SameText;
    var e := a[t];
    EmptyElem(doc, e, strict);
    NameIs(doc, e);
    WellOpened(doc, doc', e, name, text);
    WellSame(doc', Opened(e, name, text), b[t]);
    DocChanged(doc, e.endL, 1, OpenedBy(name, text));
    OpenedSize(name, text);
    TextPart(doc, doc', 0, e.endL, 0, 0, e.startL);
    TextPart(doc, doc', e.endL + 1, |doc|, n, e.endR + 1, |doc|);
  }

  lemma WellSame(doc: string, e: ElemPos, e': ElemPos)
    requires WellMade(doc, e) && MovedBy(e, e', 0, 0)
    ensures WellMade(doc, e')
  {
    hide StartMade, EndMade, NameAt;
  }

  /** x_SetData on an empty element */
  lemma TidyOpened(doc: string, doc': string, a: seq<ElemPos>, b: seq<ElemPos>, free: nat, f: Forest, t: nat,
                   data: string, cdata: bool, name: string, e: ElemPos, r: Forest, p: Path, strict: bool)
    requires Sound(doc, a, free, f, strict) && t in Ids(f) && t < |a| && Find(f, t, Top) == (Nil, r, p)
    requires ElemOk(doc, a[t], strict) && a[t].IsEmptyElement() && name == TagName(StartTag(doc, a[t])) &&
             TidyIn(doc, a, f, 0, |doc|)
    requires e == a[t].(startR := a[t].startR - 1, endL := a[t].endL - (1 + |name|))
    requires doc' == DocChange(doc, a[t].endL, 1, OpenedBy(name, Content(data, cdata)))
    requires var n := |OpenedBy(name, Content(data, cdata))| - 1;
      var s := Shift(a[t := e], Ahead(Nil, r, p), PathAnc(p), n);
      b == s[t := s[t].AdjustEnd(n)]
    ensures TidyIn(doc', b, f, 0, |doc'|)
  {
    hide Sound, UniqIn, Find, TidyIn, WellMade, Shift, Ahead, PathAnc, DocChange, TagsOk, RepairedBut, Moved,
         EditedTidy, Ids, SameLinks, Content, OpenedBy, TagName, Opened, Gap, MovedBy, IsPlace;
    var text := Content(data, cdata);
    var n := |text| + 2 + |name|;
    OpenedSize(name, text);
    OpenedParts(a[t], name, text);
    SoundFresh(doc, a, free, f, strict);
    TidyAt(doc, a, f, t, Top, 0, |doc|);
    ShiftAround(f, t, a[t := e], e.AdjustEnd(n), Nil, r, p, n);
    OpenedRecord(a, t, e, name, text, n);
    RecordShift(doc, a, b, free, f, t, Opened(a[t], name, text), Nil, r, p, n, strict);
    OpenedGap(doc, doc', a[t], b[t], name, text, data, cdata, strict);
    TidyNothing(doc', b, b[t].startR + 1, b[t].endL);
    OpenedTidy(doc, doc', a, b, t, name, text, Nil, n, strict);
    TidyRecord(doc, doc', a, b, f, t, Nil, n);
  }

  lemma OpenedParts(e: ElemPos, name: string, text: string)
    ensures var o := Opened(e, name, text);
      o.parent == e.parent && o.child == e.child && o.next == e.next && MovedBy(o, o, 0, 0)
  {
  }

  lemma OpenedRecord(a: seq<ElemPos>, t: nat, e: ElemPos, name: string, text: string, n: int)
    requires t < |a| && e == a[t].(startR := a[t].startR - 1, endL := a[t].endL - (1 + |name|)) &&
             n == |text| + 2 + |name|
    ensures e.AdjustEnd(n) == Opened(a[t], name, text) && a[t := e][t := e.AdjustEnd(n)] == a[t := e.AdjustEnd(n)]
  {
  }

  lemma TidyNothing(doc: string, a: seq<ElemPos>, lo: int, hi: int)
    requires 0 <= lo <= hi <= |doc| && Gap(doc, lo, hi)
    ensures TidyIn(doc, a, Nil, lo, hi)
  {
  }

  lemma OpenedGap(doc: string, doc': string, e: ElemPos, e': ElemPos, name: string, text: string, data: string,
                  cdata: bool, strict: bool)
    requires ElemOk(doc, e, strict) && e.IsEmptyElement() && text == Content(data, cdata) && e' == Opened(e, name, text)
    requires doc' == DocChange(doc, e.endL, 1, OpenedBy(name, text))
    ensures 0 <= e'.startR + 1 <= e'.endL <= |doc'| && Gap(doc', e'.startR + 1, e'.endL)
  {
    hide DocChange, OpenedBy, Content, TagsOk, Gap, SameText;
    EmptyElem(doc, e, strict);
    DocChanged(doc, e.endL, 1, OpenedBy(name, text));
    OpenedSize(name, text);
    OpenedContent(doc', e.endL, name, text);
    ContentGap(doc', e.endL + 1, e.endL + 1 + |text|, data, cdata);
  }

  // ---- x_AddElem ----

  lemma EmptyWell(doc: string, q: nat, name: string, e: ElemPos)
    requires NameOk(name) && q + |name| + 3 <= |doc| && doc[q..q + |name| + 3] == "<" + name + "/>"
    requires e.startL == q && e.startR == e.endR == q + |name| + 2 && e.endL == q + |name| + 1
    ensures TidyLeaf(doc, e)
  {
    hide StartMade, EndMade, NameAt, NameOk, Gap;
    WrittenMade(name, "/>");
    TagPut(doc, q, "<" + name + "/>", true);
  }

  lemma FullWell(doc: string, q: nat, name: string, v: string, e: ElemPos)
    requires NameOk(name) && q + 2 * |name| + |v| + 5 <= |doc| && '<' !in v
    requires doc[q..q + 2 * |name| + |v| + 5] == "<" + name + ">" + v + "</" + name + ">"
    requires e.startL == q && e.startR == q + |name| + 1 && e.endL == e.startR + |v| + 1 &&
             e.endR == e.endL + |name| + 2
    ensures TidyLeaf(doc, e)
  {
    hide StartMade, EndMade, NameAt, NameOk, Gap, IsWord;
    NameChars(name);
    WrittenParts(doc, q, name, v);
    WrittenMade(name, ">");
    TagPut(doc, q, "<" + name + ">", false);
    EndPut(doc, q + |name| + 2 + |v|, name);
    GapPlain(doc, q + |name| + 2, q + |name| + 2 + |v|);
  }

  /** A written element is one that the parser would read, with no element inside. */
  lemma WrittenWell(doc: string, q: nat, name: string, value: string, e: ElemPos)
    requires NameOk(name) && q + |ElemText(name, value)| <= |doc| &&
             doc[q..q + |ElemText(name, value)|] == ElemText(name, value)
    ensures var e' := ElemAt(q, name, value, e);
      TidyLeaf(doc, e') && e'.startL == q && e'.endR + 1 == q + |ElemText(name, value)|
  {
    hide TidyLeaf, NameOk, Escape;
    var e' := ElemAt(q, name, value, e);
    if value == "" {
      EmptyWell(doc, q, name, e');
    } else {
      EscapeClean(value, false, '<');
      FullWell(doc, q, name, Escape(value, false), e');
    }
  }

  lemma WrittenParts(doc: string, q: nat, name: string, v: string)
    requires q + 2 * |name| + |v| + 5 <= |doc| && '<' !in v
    requires doc[q..q + 2 * |name| + |v| + 5] == "<" + name + ">" + v + "</" + name + ">"
    ensures doc[q..q + |name| + 2] == "<" + name + ">"
    ensures doc[q + |name| + 2 + |v|..q + |name| + 2 + |v| + |name| + 3] == "</" + name + ">"
    ensures forall k :: q + |name| + 2 <= k < q + |name| + 2 + |v| ==> doc[k] != '<'
  {
    var n := 2 * |name| + |v| + 5;
    var start, end := "<" + name + ">", "</" + name + ">";
    var w := start + v + end;
    assert w == "<" + name + ">" + v + "</" + name + ">";
    SubSlice(doc, q, q + n, 0, |name| + 2);
    SubSlice(doc, q, q + n, |name| + |v| + 2, n);
    TwoTags(w, start, v, end);
    forall k | q + |name| + 2 <= k < q + |name| + 2 + |v|
      ensures doc[k] != '<'
    {
      assert doc[k] == doc[q..q + n][k - q] == w[k - q] == v[k - q - |name| - 2];
      assert v[k - q - |name| - 2] in v;
    }
  }

  /** A new element at `q`, with everything from `q` on moved up by `n`. */
  lemma InsertTidy(doc: string, doc': string, a: seq<ElemPos>, b: seq<ElemPos>, f: Forest, before: nat, t: nat, lo: int,
                   q: int, hi: int, n: int)
    requires TidyIn(doc, a, Upto(f, before), lo, q) && TidyIn(doc, a, Past(f, before), q, hi)
    requires SameText(doc, doc', 0, q, 0) && SameText(doc, doc', q, |doc|, n)
    requires Moved(a, b, Ids(Upto(f, before)), 0, 0) && Moved(a, b, Ids(Past(f, before)), n, n)
    requires t < |b| && TidyLeaf(doc', b[t]) && q == b[t].startL && 0 <= b[t].endR + 1 <= q + n <= |doc'| &&
             Gap(doc', b[t].endR + 1, q + n)
    ensures TidyIn(doc', b, Insert(f, before, t), lo, hi + n)
  {
    hide TidyIn, Upto, Past, Moved, Append, Ids, Gap, TidyLeaf;
    TidyBounds(doc, a, Upto(f, before), lo, q);
    TidyBounds(doc, a, Past(f, before), q, hi);
    TextPart(doc, doc', 0, q, 0, lo, q);
    TextPart(doc, doc', q, |doc|, n, q, hi);
    TidyMoved(doc, doc', a, b, Upto(f, before), lo, q, 0);
    TidyMoved(doc, doc', a, b, Past(f, before), q, hi, n);
    TidyLower(doc', b, Past(f, before), b[t].endR + 1, q + n, hi + n);
    EmptyGap(doc', q);
    TidyCons(doc', b, t, Past(f, before), q, hi + n);
    TidyJoin(doc', b, Upto(f, before), Cons(t, Nil, Past(f, before)), lo, q, hi + n);
  }

  /** An element with no element inside. */
  ghost predicate TidyLeaf(doc: string, e: ElemPos) {
    WellMade(doc, e) && (!e.IsEmptyElement() ==> 0 <= e.startR + 1 <= e.endL <= |doc| && Gap(doc, e.startR + 1, e.endL))
  }

  lemma TidyCons(doc: string, a: seq<ElemPos>, t: nat, f: Forest, lo: int, hi: int)
    requires t < |a| && TidyLeaf(doc, a[t]) && TidyIn(doc, a, f, a[t].endR + 1, hi) &&
             0 <= lo <= a[t].startL <= |doc| && Gap(doc, lo, a[t].startL)
    ensures TidyIn(doc, a, Cons(t, Nil, f), lo, hi)
  {
    hide WellMade, Gap;
    WellBounds(doc, a[t]);
    TidyBounds(doc, a, f, a[t].endR + 1, hi);
    if !a[t].IsEmptyElement() { TidyNothing(doc, a, a[t].startR + 1, a[t].endL); }
  }

  /** Two line-break characters hold no element. */
  lemma BreakGap(doc: string, x: nat)
    requires x + 2 <= |doc| && doc[x] == '\r' && doc[x + 1] == '\n'
    ensures Gap(doc, x, x + 2)
  {
    hide Gap;
    GapPlain(doc, x, x + 2);
  }

  /** The written element and the line break behind it. */
  lemma WrittenLine(doc: string, q: nat, name: string, value: string, e: ElemPos)
    requires NameOk(name) && q + |ElemText(name, value)| + 2 <= |doc| &&
             doc[q..q + |ElemText(name, value)| + 2] == ElemText(name, value) + "\r\n"
    ensures var e' := ElemAt(q, name, value, e);
      TidyLeaf(doc, e') && e'.startL == q && e'.endR + 1 == q + |ElemText(name, value)| &&
      0 <= e'.endR + 1 <= e'.endR + 3 <= |doc| &&
      Gap(doc, e'.endR + 1, e'.endR + 3)
  {
    hide TidyLeaf, NameOk, Gap, ElemAt, ElemText;
    var w := ElemText(name, value);
    var line := w + "\r\n";
    SubSlice(doc, q, q + |line|, 0, |w|);
    assert line[0..|w|] == w;
    WrittenWell(doc, q, name, value, e);
    SliceIs(doc, q, line);
    BreakGap(doc, q + |w|);
  }

  /** x_AddElem below an element with tags of its own */
  lemma TidyInsert(doc: string, doc': string, a: seq<ElemPos>, a2: seq<ElemPos>, b: seq<ElemPos>, free: nat, f: Forest,
                   top: nat, before: nat, k: Forest, r: Forest, p: Path, q: nat, name: string, value: string,
                   e: ElemPos, strict: bool)
    requires Sound(doc, a, free, f, strict) && top in Ids(f) && Find(f, top, Top) == (k, r, p) && IsPlace(k, before)
    requires LinkedIn(a, a2, top, before, free) && OffsetsBut(a, a2, free) && a2[free] == ElemAt(q, name, value, e) &&
             NameOk(name)
    requires top < |a| && !a[top].IsEmptyElement() && a[top].startR < q <= a[top].endL && q <= |doc| &&
             TidyIn(doc, a, f, 0, |doc|)
    requires TidyIn(doc, a, Upto(k, before), a[top].startR + 1, q) && TidyIn(doc, a, Past(k, before), q, a[top].endL)
    requires doc' == DocChange(doc, q, 0, ElemText(name, value) + "\r\n")
    requires b == Shift(a2, Ahead(Nil, Past(k, before), Inside(top, r, p)), PathAnc(Inside(top, r, p)),
                        |ElemText(name, value)| + 2)
    ensures TidyIn(doc', b, ReplaceKids(f, top, Insert(k, before, free)), 0, |doc'|)
  {
    hide Sound, UniqIn, Find, TidyIn, WellMade, Shift, Ahead, PathAnc, DocChange, RepairedBut, Moved, EditedTidy, Ids,
         SameLinks, Upto, Past, TopIds, Insert, ElemText, ElemAt, NameOk, ReplaceKids, LinkedIn, SameOffsets, Gap,
         TidyLeaf, SameText, IsPlace, OffsetsBut;
    var n := |ElemText(name, value)| + 2;
    SoundFresh(doc, a, free, f, strict);
    NewSlot(a, a2, top, before, free);
    SlotZero(doc, a, a2, free, f, strict);
    SomeOffsets(a, a2, Ids(f), Ids(f) - {top});
    InsertShift(doc, a, a2, b, free, f, top, before, free, k, r, p, n, strict);
    OffsetsAt(a, a2, Ids(f), top);
    DocChanged(doc, q, 0, ElemText(name, value) + "\r\n");
    WrittenLine(doc', q, name, value, e);
    TidyAt(doc, a, f, top, Top, 0, |doc|);
    WellBounds(doc, a[top]);
    InsertTidy(doc, doc', a, b, k, before, free, a[top].startR + 1, q, a[top].endL, n);
    InsideTidy(doc, doc', a, b, top, Insert(k, before, free), q, q, n);
    TidyAround(doc, doc', a, b, f, top, Insert(k, before, free), Top, 0, |doc|, n);
  }

  /** The text between the tags of `t` has changed from `x` to `y`, and its children are exact. */
  lemma InsideTidy(doc: string, doc': string, a: seq<ElemPos>, b: seq<ElemPos>, t: nat, k: Forest, x: nat, y: nat,
                   n: int)
    requires t < |a| && t < |b| && WellMade(doc, a[t]) && !a[t].IsEmptyElement() && MovedBy(a[t], b[t], 0, n)
    requires a[t].startR < x <= y <= a[t].endL <= a[t].endR < |doc| && x <= y + n && 0 <= a[t].startL <= a[t].startR
    requires SameText(doc, doc', 0, x, 0) && SameText(doc, doc', y, |doc|, n) &&
             TidyIn(doc', b, k, a[t].startR + 1, a[t].endL + n)
    ensures EditedTidy(doc, doc', a, b, t, k, n)
  {
    hide WellMade, TidyIn;
    WellAround(doc, doc', a[t], b[t], x, y, n);
    TextPart(doc, doc', 0, x, 0, 0, a[t].startL);
    TextPart(doc, doc', y, |doc|, n, a[t].endR + 1, |doc|);
  }

  lemma NewSlot(a: seq<ElemPos>, b: seq<ElemPos>, p: nat, before: nat, t: nat)
    requires LinkedIn(a, b, p, before, t)
    ensures t < |b|
  {
  }

  /** x_AddElem below an empty element */
  lemma TidyInsertOpened(doc: string, doc': string, a: seq<ElemPos>, a2: seq<ElemPos>, b: seq<ElemPos>, free: nat,
                         f: Forest, top: nat, r: Forest, p: Path, parentName: string, name: string, value: string,
                         e: ElemPos, strict: bool)
    requires Sound(doc, a, free, f, strict) && top in Ids(f) && Find(f, top, Top) == (Nil, r, p) && top < |a| &&
             ElemOk(doc, a[top], strict)
    requires LinkedIn(a, a2, top, 0, free) && SameOffsetsBut(a, a2, top, free) &&
             a2[free] == ElemAt(a[top].startR + 2, name, value, e) && NameOk(name)
    requires a[top].IsEmptyElement() && parentName == TagName(StartTag(doc, a[top])) && TidyIn(doc, a, f, 0, |doc|)
    requires MovedBy(a[top].(startR := a[top].startR - 1, endL := a[top].endL - (|parentName| + 1)), a2[top], 0, 0)
    requires var text := "\r\n" + ElemText(name, value) + "\r\n";
      doc' == DocChange(doc, a[top].endL, 1, OpenedBy(parentName, text)) &&
      b == Shift(a2, Ahead(Nil, Nil, Inside(top, r, p)), PathAnc(Inside(top, r, p)), |OpenedBy(parentName, text)| - 1)
    ensures TidyIn(doc', b, ReplaceKids(f, top, Cons(free, Nil, Nil)), 0, |doc'|)
  {
    hide Sound, UniqIn, Find, TidyIn, WellMade, Shift, Ahead, PathAnc, DocChange, RepairedBut, Moved, EditedTidy, Ids,
         SameLinks, TagsOk, TopIds, Insert, ElemText, ElemAt, NameOk, ReplaceKids, LinkedIn, SameOffsets, Gap, TidyLeaf,
         OpenedBy, TagName, Upto, Past, StartTag;
    var text := "\r\n" + ElemText(name, value) + "\r\n";
    var n := |text| + 2 + |parentName|;
    OpenedSize(parentName, text);
    SoundFresh(doc, a, free, f, strict);
    NewSlot(a, a2, top, 0, free);
    OpenedZero(doc, a, a2, free, f, top, strict);
    PlaceNone();
    InsertShift(doc, a, a2, b, free, f, top, 0, free, Nil, r, p, n, strict);
    TidyAt(doc, a, f, top, Top, 0, |doc|);
    OpenedLine(doc, doc', a[top], b, free, top, parentName, name, value, e, strict);
    OpenedTidy(doc, doc', a, b, top, parentName, text, Cons(free, Nil, Nil), n, strict);
    TidyAround(doc, doc', a, b, f, top, Cons(free, Nil, Nil), Top, 0, |doc|, n);
  }

  lemma PlaceNone()
    ensures IsPlace(Nil, 0) && Past(Nil, 0) == Nil && Upto(Nil, 0) == Nil
  {
  }

  /** The new child between two line breaks, inside the split element. */
  lemma OpenedLine(doc: string, doc': string, e0: ElemPos, b: seq<ElemPos>, t: nat, top: nat, parentName: string,
                   name: string, value: string, e: ElemPos, strict: bool)
    requires ElemOk(doc, e0, strict) && e0.IsEmptyElement() && NameOk(name) && t < |b| && top < |b|
    requires b[t] == ElemAt(e0.startR + 2, name, value, e)
    requires var text := "\r\n" + ElemText(name, value) + "\r\n";
      doc' == DocChange(doc, e0.endL, 1, OpenedBy(parentName, text)) &&
      MovedBy(Opened(e0, parentName, text), b[top], 0, 0)
    ensures TidyIn(doc', b, Cons(t, Nil, Nil), b[top].startR + 1, b[top].endL)
  {
    hide TidyIn, WellMade, DocChange, TagsOk, ElemText, ElemAt, NameOk, Gap, TidyLeaf, OpenedBy, SameText;
    var w := ElemText(name, value);
    var text := "\r\n" + w + "\r\n";
    EmptyElem(doc, e0, strict);
    DocChanged(doc, e0.endL, 1, OpenedBy(parentName, text));
    OpenedSize(parentName, text);
    OpenedContent(doc', e0.endL, parentName, text);
    LineParts(doc', e0.endL + 1, w);
    WrittenLine(doc', e0.startR + 2, name, value, e);
    BreakGap(doc', e0.endL + 1);
    TidyNothing(doc', b, b[t].endR + 1, b[top].endL);
    TidyCons(doc', b, t, Nil, e0.endL + 1, b[top].endL);
  }

  lemma LineParts(doc: string, x: nat, w: string)
    requires x + |w| + 4 <= |doc| && doc[x..x + |w| + 4] == "\r\n" + w + "\r\n"
    ensures doc[x] == '\r' && doc[x + 1] == '\n' && doc[x + 2..x + 2 + |w| + 2] == w + "\r\n"
  {
    var text := "\r\n" + w + "\r\n";
    SubSlice(doc, x, x + |text|, 2, |text|);
    assert text[2..|text|] == w + "\r\n";
    SliceIs(doc, x, text);
  }

  /** x_AddElem at the root */
  lemma TidyRoot(doc: string, doc': string, a: seq<ElemPos>, a2: seq<ElemPos>, b: seq<ElemPos>, free: nat, q: nat,
                 name: string, value: string, e: ElemPos, strict: bool)
    requires Sound(doc, a, free, Nil, strict) && LinkedIn(a, a2, 0, 0, free) && NameOk(name) && q <= |doc| &&
             Gap(doc, 0, q) && Gap(doc, q, |doc|)
    requires a2[free] == ElemAt(q, name, value, e) && doc' == DocChange(doc, q, 0, ElemText(name, value) + "\r\n")
    requires b == Shift(a2, Ahead(Nil, Nil, Top), PathAnc(Top), |ElemText(name, value)| + 2)
    ensures TidyIn(doc', b, Cons(free, Nil, Nil), 0, |doc'|)
  {
    hide Sound, TidyIn, WellMade, Shift, DocChange, ElemText, ElemAt, NameOk, Gap, TidyLeaf;
    var n := |ElemText(name, value)| + 2;
    SoundFresh(doc, a, free, Nil, strict);
    assert Ahead(Nil, Nil, Top) == {} && PathAnc(Top) == {0};
    ShiftOne(a2, {}, {0}, n, free);
    DocChanged(doc, q, 0, ElemText(name, value) + "\r\n");
    WrittenLine(doc', q, name, value, e);
    GapMoved(doc, doc', 0, q, 0, 0, q);
    GapMoved(doc, doc', q, |doc|, n, q, |doc|);
    GapJoin(doc', b[free].endR + 1, q + n, |doc'|);
    TidyNothing(doc', b, b[free].endR + 1, |doc'|);
    TidyCons(doc', b, free, Nil, 0, |doc'|);
  }

  /** Where x_LocateNew puts a root: behind all there is, or, asked to insert, behind the first character. */
  lemma RootGaps(doc: string, insert: bool)
    requires Gap(doc, 0, |doc|) && (insert ==> |doc| > 0 && doc[0] != '<')
    ensures var q := NextNode(doc, if insert then 1 else |doc|); Gap(doc, 0, q) && Gap(doc, q, |doc|)
  {
    hide Gap, NextNode;
    NextNodeClear(doc, if insert then 1 else |doc|, |doc|);
    var q := NextNode(doc, if insert then 1 else |doc|);
    if insert {
      GapPlain(doc, 0, q);
      GapRaise(doc, 0, q, |doc|);
    } else {
      EmptyGap(doc, |doc|);
    }
  }

  // ---- x_LocateNew and x_RemoveElem ----

  lemma TidyWiden(doc: string, a: seq<ElemPos>, f: Forest, lo: int, m: int, hi: int)
    requires TidyIn(doc, a, f, lo, m) && m <= hi <= |doc| && Gap(doc, m, hi)
    ensures TidyIn(doc, a, f, lo, hi)
  {
    hide Gap, TidyIn;
    TidyBounds(doc, a, f, lo, m);
    TidyNothing(doc, a, m, hi);
    TidyJoin(doc, a, f, Nil, lo, m, hi);
    AppendNone(f);
  }

  lemma {:induction false} AppendNone(f: Forest)
    ensures Append(f, Nil) == f
  {
    if f.Cons? { AppendNone(f.rest); }
  }

  /** The list opens right before the element after `before`, which comes first in the rest. */
  lemma TidyBefore(doc: string, a: seq<ElemPos>, k: Forest, before: nat, lo: int, hi: int)
    requires TidyIn(doc, a, k, lo, hi) && IsPlace(k, before) && Past(k, before).Cons?
    ensures Past(k, before).elem < |a|
    ensures var t := Past(k, before).elem;
      TidyIn(doc, a, Upto(k, before), lo, a[t].startL) && TidyIn(doc, a, Past(k, before), a[t].startL, hi) &&
      TidyIn(doc, a, Past(k, before).rest, a[t].endR + 1, hi) && lo <= a[t].startL
  {
    hide Gap, Upto, Past, TopIds, WellMade;
    TidySplit(doc, a, k, before, lo, hi);
    var t := Past(k, before).elem;
    var m := if before == 0 then lo else a[before].endR + 1;
    WellBounds(doc, a[t]);
    EmptyGap(doc, a[t].startL);
    TidyBounds(doc, a, Past(k, before).rest, a[t].endR + 1, hi);
    TidyWiden(doc, a, Upto(k, before), lo, m, a[t].startL);
  }

  /** Where x_LocateNew points, the list of children opens up. */
  lemma TidyLocated(doc: string, a: seq<ElemPos>, free: nat, f: Forest, top: nat, rel: nat, insert: bool, before: nat,
                    strict: bool)
    requires Sound(doc, a, free, f, strict) && top in Ids(f) && Placed(Kids(f, top), rel, insert, before) &&
             TidyIn(doc, a, f, 0, |doc|)
    requires top < |a| && rel < |a| && !a[top].IsEmptyElement() && 0 <= PlaceAt(a, top, rel, insert) <= |doc|
    ensures var y := NextNode(doc, PlaceAt(a, top, rel, insert));
      TidyIn(doc, a, Upto(Kids(f, top), before), a[top].startR + 1, y) &&
      TidyIn(doc, a, Past(Kids(f, top), before), y, a[top].endL)
  {
    hide Upto, Past, TopIds, TidyIn, NextNode, Sound, Gap, WellMade, Find;
    var k, e := Kids(f, top), a[top];
    SoundFresh(doc, a, free, f, strict);
    TidyAt(doc, a, f, top, Top, 0, |doc|);
    WellBounds(doc, e);
    TidyOpens(doc, a, k, rel, insert, before, e.startR + 1, e.endL, PlaceAt(a, top, rel, insert));
  }

  lemma TidyOpens(doc: string, a: seq<ElemPos>, k: Forest, rel: nat, insert: bool, before: nat, lo: int, hi: int,
                  x: nat)
    requires TidyIn(doc, a, k, lo, hi) && Placed(k, rel, insert, before) && 0 <= hi < |doc| && doc[hi] == '<' &&
             rel < |a|
    requires x == if rel != 0 then (if insert then a[rel].startL else a[rel].endR + 1) else if insert then lo else hi
    ensures x <= |doc|
    ensures var y := NextNode(doc, x); TidyIn(doc, a, Upto(k, before), lo, y) && TidyIn(doc, a, Past(k, before), y, hi)
  {
    hide Upto, Past, TopIds, TidyIn, NextNode, Gap, WellMade;
    TidyBounds(doc, a, k, lo, hi);
    if rel != 0 && insert {
      TidyBefore(doc, a, k, before, lo, hi);
      TidyStarts(doc, a, Past(k, before), x, hi);
      TagIsNext(doc, x);
    } else {
      TidySplit(doc, a, k, before, lo, hi);
      NextNodeClear(doc, x, hi);
      if rel == 0 && !insert {
        TidyAll(doc, a, k, before, lo, hi);
        TagIsNext(doc, x);
      } else {
        var y := NextNode(doc, x);
        GapPlain(doc, x, y);
        TidyWiden(doc, a, Upto(k, before), lo, x, y);
        TidyRaise(doc, a, Past(k, before), x, y, hi);
      }
    }
  }

  lemma TidyStarts(doc: string, a: seq<ElemPos>, f: Forest, lo: int, hi: int)
    requires TidyIn(doc, a, f, lo, hi) && f.Cons?
    ensures f.elem < |a| && 0 <= a[f.elem].startL < |doc| && doc[a[f.elem].startL] == '<'
  {
    hide Gap, WellMade;
    WellBounds(doc, a[f.elem]);
  }

  lemma TagIsNext(doc: string, x: nat)
    requires x < |doc| && doc[x] == '<'
    ensures NextNode(doc, x) == x
  {
    TokenOne(doc, x);
  }

  lemma TidyAll(doc: string, a: seq<ElemPos>, k: Forest, before: nat, lo: int, hi: int)
    requires TidyIn(doc, a, k, lo, hi) && IsPlace(k, before) && Past(k, before) == Nil
    ensures TidyIn(doc, a, Upto(k, before), lo, hi) && TidyIn(doc, a, Past(k, before), hi, hi)
  {
    hide TidyIn, Gap, TopIds;
    TidyBounds(doc, a, k, lo, hi);
    PastEnd(k, before);
    EmptyGap(doc, hi);
    TidyNothing(doc, a, hi, hi);
  }

  /** The text doc[s..q] of the removed element is gone and everything from `q` on has moved down. */
  lemma RemoveTidy(doc: string, doc': string, a: seq<ElemPos>, b: seq<ElemPos>, f: Forest, before: nat, lo: int, s: int,
                   q: int, hi: int)
    requires Past(f, before).Cons? && TidyIn(doc, a, Upto(f, before), lo, s) &&
             TidyIn(doc, a, Past(f, before).rest, q, hi)
    requires SameText(doc, doc', 0, s, 0) && SameText(doc, doc', q, |doc|, s - q)
    requires Moved(a, b, Ids(Upto(f, before)), 0, 0) && Moved(a, b, Ids(Past(f, before).rest), s - q, s - q)
    ensures TidyIn(doc', b, Remove(f, before), lo, hi - (q - s))
  {
    hide TidyIn, Upto, Past, Moved, Append, Ids;
    TidyBounds(doc, a, Upto(f, before), lo, s);
    TidyBounds(doc, a, Past(f, before).rest, q, hi);
    TextPart(doc, doc', 0, s, 0, lo, s);
    TextPart(doc, doc', q, |doc|, s - q, q, hi);
    TidyMoved(doc, doc', a, b, Upto(f, before), lo, s, 0);
    TidyMoved(doc, doc', a, b, Past(f, before).rest, q, hi, s - q);
    TidyJoin(doc', b, Upto(f, before), Past(f, before).rest, lo, s, hi - (q - s));
  }

  /** x_RemoveElem below an element */
  lemma TidyRemove(doc: string, doc': string, a: seq<ElemPos>, a2: seq<ElemPos>, b: seq<ElemPos>, free: nat, f: Forest,
                   top: nat, before: nat, t: nat, k: Forest, r: Forest, p: Path, strict: bool)
    requires Sound(doc, a, free, f, strict) && top in Ids(f) && top < |a| && Find(f, top, Top) == (k, r, p) &&
             IsPlace(k, before)
    requires Past(k, before).Cons? && Past(k, before).elem == t && LinkedOut(a, a2, top, before, t) &&
             OffsetsBut(a, a2, |a|)
    requires t < |a| && ElemOk(doc, a[t], strict) && TidyIn(doc, a, f, 0, |doc|)
    requires a[t].startL <= NextNode(doc, a[t].endR + 1)
    requires var q := NextNode(doc, a[t].endR + 1);
      doc' == DocChange(doc, a[t].startL, q - a[t].startL, "") &&
      b == Shift(a2, Ahead(Nil, Past(k, before).rest, Inside(top, r, p)), PathAnc(Inside(top, r, p)), a[t].startL - q)
    ensures TidyIn(doc', b, ReplaceKids(f, top, Remove(k, before)), 0, |doc'|)
  {
    hide Sound, UniqIn, Find, TidyIn, WellMade, Shift, Ahead, PathAnc, DocChange, RepairedBut, Moved, EditedTidy, Ids,
         SameLinks, Upto, Past, TopIds, Remove, ReplaceKids, LinkedOut, SameOffsets, Gap, TagsOk, NextNode, OffsetsBut,
         Laid;
    var s, q, e := a[t].startL, NextNode(doc, a[t].endR + 1), a[top];
    SoundFresh(doc, a, free, f, strict);
    RemoveCut(doc, a, free, f, top, before, t, k, r, p, strict);
    OutZero(doc, a, a2, free, f, strict);
    OutSize(a, a2, top, before, t);
    RemoveShift(a, a2, b, f, top, before, k, r, p, s - q);
    OffsetsAt(a, a2, Ids(f), top);
    DocChanged(doc, s, q - s, "");
    TidyAt(doc, a, f, top, Top, 0, |doc|);
    WellBounds(doc, e);
    TidyBefore(doc, a, k, before, e.startR + 1, e.endL);
    CutRest(doc, a, k, before, t, q, e.endL);
    RemoveTidy(doc, doc', a, b, k, before, e.startR + 1, s, q, e.endL);
    InsideTidy(doc, doc', a, b, top, Remove(k, before), s, q, s - q);
    TidyAround(doc, doc', a, b, f, top, Remove(k, before), Top, 0, |doc|, s - q);
  }

  lemma AheadOfTop(f: Forest)
    ensures Ahead(Nil, f, Top) == Ids(f) && PathAnc(Top) == {0}
  {
  }

  lemma OutSize(a: seq<ElemPos>, b: seq<ElemPos>, p: nat, before: nat, t: nat)
    requires LinkedOut(a, b, p, before, t)
    ensures |b| == |a|
  {
  }

  lemma CutRest(doc: string, a: seq<ElemPos>, k: Forest, before: nat, t: nat, q: nat, hi: int)
    requires Past(k, before).Cons? && t < |a| && 0 <= a[t].endR + 1 <= |doc| && q == NextNode(doc, a[t].endR + 1)
    requires TidyIn(doc, a, Past(k, before).rest, a[t].endR + 1, hi) && 0 <= hi <= |doc| &&
             (hi == |doc| || doc[hi] == '<')
    ensures TidyIn(doc, a, Past(k, before).rest, q, hi)
  {
    hide TidyIn, Past, NextNode;
    TidyBounds(doc, a, Past(k, before).rest, a[t].endR + 1, hi);
    NextNodeClear(doc, a[t].endR + 1, hi);
    TidyRaise(doc, a, Past(k, before).rest, a[t].endR + 1, q, hi);
  }

  /** x_RemoveElem at the root */
  lemma TidyRemoveRoot(doc: string, doc': string, a: seq<ElemPos>, a2: seq<ElemPos>, b: seq<ElemPos>, free: nat,
                       f: Forest, before: nat, t: nat, strict: bool)
    requires Sound(doc, a, free, f, strict) && IsPlace(f, before) && TidyIn(doc, a, f, 0, |doc|)
    requires Past(f, before).Cons? && Past(f, before).elem == t && LinkedOut(a, a2, 0, before, t) &&
             OffsetsBut(a, a2, |a|)
    requires t < |a| && ElemOk(doc, a[t], strict)
    requires a[t].startL <= NextNode(doc, a[t].endR + 1)
    requires var q := NextNode(doc, a[t].endR + 1);
      doc' == DocChange(doc, a[t].startL, q - a[t].startL, "") &&
      b == Shift(a2, Ahead(Nil, Past(f, before).rest, Top), PathAnc(Top), a[t].startL - q)
    ensures TidyIn(doc', b, Remove(f, before), 0, |doc'|)
  {
    hide Sound, TidyIn, WellMade, Shift, DocChange, Moved, Ids, SameLinks, Upto, Past, TopIds, Remove, LinkedOut,
         SameOffsets, Gap, TagsOk, NextNode, OffsetsBut, UniqIn;
    var s, q, g := a[t].startL, NextNode(doc, a[t].endR + 1), Past(f, before);
    SoundFresh(doc, a, free, f, strict);
    OutZero(doc, a, a2, free, f, strict);
    OutSize(a, a2, 0, before, t);
    AheadOfTop(g.rest);
    RootSets(f, before);
    SomeOffsets(a, a2, Ids(f), Ids(Upto(f, before)));
    SomeOffsets(a, a2, Ids(f), Ids(g.rest));
    ShiftMoved(a, a2, Ids(g.rest), {0}, s - q, Ids(Upto(f, before)), 0);
    ShiftMoved(a, a2, Ids(g.rest), {0}, s - q, Ids(g.rest), s - q);
    DocChanged(doc, s, q - s, "");
    TidyBefore(doc, a, f, before, 0, |doc|);
    CutRest(doc, a, f, before, t, q, |doc|);
    RemoveTidy(doc, doc', a, b, f, before, 0, s, q, |doc|);
  }

  // ---- whole documents ----

  /** The index holds exactly the elements of the text, and no more than one root. */
  ghost predicate Whole(doc: string, a: seq<ElemPos>, f: Forest) {
    TidyIn(doc, a, f, 0, |doc|) && (f.Cons? ==> f.rest == Nil)
  }

  /**
   The parser finds in the text exactly the elements of `f`, with the same offsets: none, or one root with all below
   it.
   */
  ghost predicate SameElements(doc: string, a: seq<ElemPos>, f: Forest) {
    match f
    case Nil => ParseOne(doc, 0) == Not(Broken)
    case Cons(i, k, r) => i < |a| && r == Nil && ParseOne(doc, 0) == Got(SpanOf(a[i]), TreesOf(a, k))
  }

  /** Reading the text of a whole document again gives the same elements, up to slot numbers. */
  lemma WholeReparses(doc: string, a: seq<ElemPos>, f: Forest)
    requires Whole(doc, a, f)
    ensures SameElements(doc, a, f)
  {
    hide Gap, StartFrom, WellMade, ParseOne, TidyIn;
    match f
    case Nil =>
      NothingThere(doc, a);
    case Cons(i, k, r) =>
      TidyFirst(doc, a, f);
      TidyOne(doc, SpanOf(a[i]), TreesOf(a, k), 0);
  }

  lemma NothingThere(doc: string, a: seq<ElemPos>)
    requires TidyIn(doc, a, Nil, 0, |doc|)
    ensures ParseOne(doc, 0) == Not(Broken)
  {
    hide Gap, StartFrom;
    StartAfterGap(doc, 0, |doc|);
    NoMoreTags(doc);
  }

  lemma NoMoreTags(doc: string)
    ensures StartFrom(doc, |doc|) == NoTag
  {
  }

  lemma TidyFirst(doc: string, a: seq<ElemPos>, f: Forest)
    requires TidyIn(doc, a, f, 0, |doc|) && f.Cons?
    ensures f.elem < |a| && var s, k := SpanOf(a[f.elem]), TreesOf(a, f.kids);
      0 <= s.startL <= s.endR < |doc| && Gap(doc, 0, s.startL) && Exact(doc, s) &&
      if s.IsEmpty() then k == Leaf else Tidy(doc, k, s.startR + 1, s.endL)
  {
    hide Gap, WellMade, Exact;
    var e := a[f.elem];
    WellBounds(doc, e);
    WellExact(doc, e);
    if !e.IsEmptyElement() { TidyTrees(doc, a, f.kids, e.startR + 1, e.endL); }
  }

  /**
   A parsed document is whole if nothing but text and nodes without elements follows its root, and its tags are firm.
   */
  lemma WholeParsed(doc: string, a: seq<ElemPos>, f: Forest, s: Span, k: Trees)
    requires ParseOne(doc, 0) == Got(s, k) && TreesOf(a, f) == Tree(s, k, Leaf) && f.Cons? && f.rest == Nil
    requires Gap(doc, s.endR + 1, |doc|) && FirmTrees(doc, TreesOf(a, f)) && forall j :: j in Ids(f) ==> j < |a|
    ensures Whole(doc, a, f)
  {
    hide Gap, ParseOne, FirmTrees, Exact;
    OneTidy(doc, 0);
    TreesTidy(doc, a, f, 0, |doc|);
  }

  /** Where a new child may be written and linked. */
  ghost predicate Room(doc: string, a: seq<ElemPos>, k: Forest, before: nat, e: ElemPos, q: int, strict: bool,
                       whole: bool) {
    e.startR < q <= e.endL && Laid(doc, a, Upto(k, before), e.startR + 1, q, strict) &&
    Laid(doc, a, Past(k, before), q, e.endL, strict) &&
    (whole ==> TidyIn(doc, a, Upto(k, before), e.startR + 1, q) && TidyIn(doc, a, Past(k, before), q, e.endL))
  }

  lemma {:induction false} ReplacedRoot(f: Forest, t: nat, k: Forest)
    requires f.Cons? && f.rest == Nil && t in Ids(f)
    ensures ReplaceKids(f, t, k).Cons? && ReplaceKids(f, t, k).rest == Nil
  {
  }

  // ---- what the operations promise ----

  /** What x_AddElem leaves: one slot more, the element written, and the text around it. */
  ghost predicate NewChild(doc: string, a: seq<ElemPos>, f: Forest, doc': string, b: seq<ElemPos>, g: Forest, i: nat,
                           top: nat, name: string, value: string, strict: bool) {
    Ids(g) == Ids(f) + {i} && Added(doc', a, b, f, i, top, name, value, strict) &&
    AddedText(doc, a, top, doc', b[i].startL, name, value)
  }

  lemma NewChildParents(doc: string, a: seq<ElemPos>, f: Forest, doc': string, b: seq<ElemPos>, g: Forest, i: nat,
                        top: nat, name: string, value: string, strict: bool)
    requires NewChild(doc, a, f, doc', b, g, i, top, name, value, strict)
    ensures Ids(g) == Ids(f) + {i} && i < |b| && b[i].parent == top && ParentsKept(a, b, Ids(f))
  {
    hide ElemOk, AddedText, ElemText, Ids, ParentsKept;
  }

  lemma ParentsAt(a: seq<ElemPos>, b: seq<ElemPos>, ids: set<nat>, i: nat, j: nat)
    requires ParentsKept(a, b, ids)
    ensures i in ids ==> i < |a| && i < |b| && b[i].parent == a[i].parent
    ensures j in ids ==> j < |a| && j < |b| && b[j].parent == a[j].parent
  {
  }

  /** Slot 0, the only one that x_AddElem changes before it locates, does not matter. */
  lemma NewChildRoot(doc: string, a: seq<ElemPos>, a': seq<ElemPos>, f: Forest, doc': string, b: seq<ElemPos>,
                     g: Forest, i: nat, top: nat, name: string, value: string, strict: bool)
    requires NewChild(doc, a', f, doc', b, g, i, top, name, value, strict) && 0 !in Ids(f) && |a| == |a'|
    requires forall j :: 0 < j < |a| ==> a'[j] == a[j]
    ensures NewChild(doc, a, f, doc', b, g, i, top, name, value, strict)
  {
    hide ElemOk, ElemText, DocChange, TagName;
  }

  /** InsertElem at the root writes behind the first character, inside the node that starts there. */
  predicate InsideFirst(doc: string, atRoot: bool) {
    atRoot && doc != "" && doc[0] == '<'
  }

  lemma WholeNone(doc: string, a: seq<ElemPos>, b: seq<ElemPos>)
    ensures Whole(doc, a, Nil) <==> Whole(doc, b, Nil)
  {
  }

  lemma RootLocated(doc: string, a: seq<ElemPos>, free: nat, insert: bool, strict: bool)
    requires Sound(doc, a, free, Nil, strict) && Whole(doc, a, Nil) && a[0].endL == |doc| &&
             (insert ==> |doc| > 0 && doc[0] != '<')
    ensures !a[0].IsEmptyElement() && 0 <= PlaceAt(a, 0, 0, insert) <= |doc|
    ensures var q := NextNode(doc, PlaceAt(a, 0, 0, insert)); Gap(doc, 0, q) && Gap(doc, q, |doc|)
  {
    hide Gap, NextNode;
    RootGaps(doc, insert);
  }

  lemma RootPlace(doc: string, a: seq<ElemPos>, free: nat, strict: bool)
    requires Sound(doc, a, free, Nil, strict) && a[0].endL == |doc|
    ensures !a[0].IsEmptyElement() && a[0].startR == 0
  {
  }

  lemma RoomReady(doc: string, a: seq<ElemPos>, free: nat, f: Forest, top: nat, before: nat, q: int, strict: bool,
                  whole: bool)
    requires Sound(doc, a, free, f, strict) && top in Ids(f) && top < |a| && IsPlace(Kids(f, top), before)
    requires Room(doc, a, Kids(f, top), before, a[top], q, strict, whole)
    ensures 2 <= |a| && 0 < free <= |a| && 0 < top < free && before < free && 0 <= q <= |doc|
    ensures Kids(f, top) == Find(f, top, Top).0
  {
    hide Sound, Laid, TidyIn, Upto, Past, ElemOk, Find;
    InsertReady(doc, a, free, f, top, before, strict);
    ElemBounds(doc, a[top], strict);
  }

  /** All of x_AddElem's effect below an element with tags of its own. */
  lemma InsertedBelow(doc: string, doc': string, a: seq<ElemPos>, a2: seq<ElemPos>, b: seq<ElemPos>, free: nat,
                      f: Forest, top: nat, before: nat, k: Forest, r: Forest, p: Path, q: nat, name: string,
                      value: string, e: ElemPos, strict: bool, whole: bool)
    requires Sound(doc, a, free, f, strict) && top in Ids(f) && Find(f, top, Top) == (k, r, p) && IsPlace(k, before)
    requires LinkedIn(a, a2, top, before, free) && OffsetsBut(a, a2, free) && a2[free] == ElemAt(q, name, value, e) &&
             NameOk(name)
    requires top < |a| && !a[top].IsEmptyElement() && q <= |doc| && Room(doc, a, k, before, a[top], q, strict, whole) &&
             (whole ==> Whole(doc, a, f))
    requires doc' == DocChange(doc, q, 0, ElemText(name, value) + "\r\n") && Kids(f, top) == k && top != 0
    requires b == Shift(a2, Ahead(Nil, Past(k, before), Inside(top, r, p)), PathAnc(Inside(top, r, p)),
                        |ElemText(name, value)| + 2)
    ensures Sound(doc', b, free + 1, WithChild(f, top, before, free), strict)
    ensures NewChild(doc, a, f, doc', b, WithChild(f, top, before, free), free, top, name, value, strict)
    ensures whole ==> Whole(doc', b, WithChild(f, top, before, free))
  {
    hide Sound, Find, Shift, Ahead, PathAnc, DocChange, ElemText, ElemAt, NameOk, ReplaceKids, Insert, Upto, Past,
         TopIds, LinkedIn, OffsetsBut, Laid, TidyIn, Ids, Added, AddedText, ElemOk;
    InsertDone(doc, doc', a, a2, b, free, f, top, before, k, r, p, q, name, value, e, strict);
    if whole {
      TidyInsert(doc, doc', a, a2, b, free, f, top, before, k, r, p, q, name, value, e, strict);
      RootKept(f, top, Insert(k, before, free));
    }
  }

  lemma RootKept(f: Forest, t: nat, k: Forest)
    requires t in Ids(f) && (f.Cons? ==> f.rest == Nil)
    ensures ReplaceKids(f, t, k).Cons? ==> ReplaceKids(f, t, k).rest == Nil
  {
    ReplacedRoot(f, t, k);
  }

  /** ... and below an empty one. */
  lemma InsertedOpened(doc: string, doc': string, a: seq<ElemPos>, a2: seq<ElemPos>, b: seq<ElemPos>, free: nat,
                       f: Forest, top: nat, r: Forest, p: Path, parentName: string, name: string, value: string,
                       e: ElemPos, strict: bool, whole: bool)
    requires Sound(doc, a, free, f, strict) && top in Ids(f) && Find(f, top, Top) == (Nil, r, p) && top < |a| &&
             ElemOk(doc, a[top], strict)
    requires LinkedIn(a, a2, top, 0, free) && SameOffsetsBut(a, a2, top, free) &&
             a2[free] == ElemAt(a[top].startR + 2, name, value, e) && NameOk(name)
    requires a[top].IsEmptyElement() && parentName == TagName(StartTag(doc, a[top])) && (whole ==> Whole(doc, a, f)) &&
             top != 0
    requires MovedBy(a[top].(startR := a[top].startR - 1, endL := a[top].endL - (|parentName| + 1)), a2[top], 0, 0)
    requires var text := "\r\n" + ElemText(name, value) + "\r\n";
      doc' == DocChange(doc, a[top].endL, 1, OpenedBy(parentName, text)) &&
      b == Shift(a2, Ahead(Nil, Nil, Inside(top, r, p)), PathAnc(Inside(top, r, p)), |OpenedBy(parentName, text)| - 1)
    ensures Sound(doc', b, free + 1, WithChild(f, top, 0, free), strict)
    ensures NewChild(doc, a, f, doc', b, WithChild(f, top, 0, free), free, top, name, value, strict)
    ensures whole ==> Whole(doc', b, WithChild(f, top, 0, free))
  {
    hide Sound, Find, Shift, Ahead, PathAnc, DocChange, ElemText, ElemAt, NameOk, ReplaceKids, LinkedIn, SameOffsetsBut,
         TagName, OpenedBy, Laid, TidyIn, Ids, Added, AddedText, ElemOk, StartTag;
    OnlyChildOf(f, top, free);
    OpenDone(doc, doc', a, a2, b, free, f, top, r, p, parentName, name, value, e, strict);
    if whole {
      TidyInsertOpened(doc, doc', a, a2, b, free, f, top, r, p, parentName, name, value, e, strict);
      RootKept(f, top, Cons(free, Nil, Nil));
    }
  }

  lemma OnlyChildOf(f: Forest, top: nat, i: nat)
    requires top in Ids(f) && top != 0 && Find(f, top, Top).0 == Nil
    ensures WithChild(f, top, 0, i) == ReplaceKids(f, top, Cons(i, Nil, Nil))
  {
    hide Find, ReplaceKids;
    OnlyChild(f, top, 0, i);
  }

  /** What x_SetAttrib leaves: a new start tag, and the text around it. */
  ghost predicate Attributed(doc: string, e: ElemPos, doc': string, e': ElemPos, attr: string, value: string) {
    Bounded(doc, e) && 1 <= InsertAt(StartTag(doc, e), e.IsEmptyElement()) && Bounded(doc', e') &&
    StartTag(doc', e') == AttribTag(StartTag(doc, e), e.IsEmptyElement(), attr, value) &&
    doc' == DocChange(doc, e.startL, e.startR + 1 - e.startL, StartTag(doc', e'))
  }

  /** What x_SetData leaves: the data reads back, and the text around it is kept; an empty element is split in two. */
  ghost predicate DataSet(doc: string, e: ElemPos, doc': string, e': ElemPos, data: string, cdata: bool) {
    Bounded(doc, e) && Bounded(doc', e') && DataOf(doc', e') == data &&
    doc' == if e.IsEmptyElement()
            then DocChange(doc, e.endL, 1, OpenedBy(TagName(StartTag(doc, e)), Content(data, cdata)))
            else DocChange(doc, e.startR + 1, e.endL - e.startR - 1, Content(data, cdata))
  }

  /** The text that x_SetAttrib makes of a clean start tag; it is longer by n. */
  ghost predicate Retagging(doc: string, e: ElemPos, doc': string, attr: string, value: string, n: int) {
    Bounded(doc, e) && CleanTag(StartTag(doc, e)) &&
    var s := AttribTag(StartTag(doc, e), e.IsEmptyElement(), attr, value);
    doc' == DocChange(doc, e.startL, e.startR + 1 - e.startL, s) && n == |s| - (e.startR + 1 - e.startL)
  }

  /** All of x_SetAttrib's effect. */
  lemma AttribSet(doc: string, doc': string, a: seq<ElemPos>, b: seq<ElemPos>, free: nat, f: Forest, t: nat,
                  attr: string, value: string, k: Forest, r: Forest, p: Path, n: int, strict: bool)
    requires t < |a| && ElemOk(doc, a[t], strict) && Retagging(doc, a[t], doc', attr, value, n) && NameOk(attr)
    requires b == Shift(a[t := Retagged(a[t], n)], Ahead(k, r, p), PathAnc(p), n)
    requires Sound(doc, a, free, f, strict) && t in Ids(f) && Find(f, t, Top) == (k, r, p)
    ensures |b| == |a| && ElemOk(doc', b[t], strict) && TagFor(StartTag(doc', b[t]), a[t].IsEmptyElement(), true)
    ensures Attributed(doc, a[t], doc', b[t], attr, value) && (Whole(doc, a, f) ==> Whole(doc', b, f))
    ensures Sound(doc', b, free, f, strict) && ParentsKept(a, b, Ids(f))
  {
    hide Sound, TagsOk, TagFor, AttribTag, TagName, NameOk, Shift, Ahead, PathAnc, DocChange, CleanTag, Find, TidyIn,
         Ids;
    AttribDone(doc, doc', a, b, free, f, t, attr, value, k, r, p, n, strict);
    if Whole(doc, a, f) { TidyAttrib(doc, doc', a, b, free, f, t, attr, value, k, r, p, n, strict); }
  }

  lemma ContentSet(doc: string, doc': string, a: seq<ElemPos>, b: seq<ElemPos>, free: nat, f: Forest, t: nat,
                   data: string, cdata: bool, r: Forest, p: Path, n: int, strict: bool)
    requires Sound(doc, a, free, f, strict) && t in Ids(f) && t < |a| && Find(f, t, Top) == (Nil, r, p)
    requires ElemOk(doc, a[t], strict) && !a[t].IsEmptyElement() &&
             n == |Content(data, cdata)| - (a[t].endL - a[t].startR - 1)
    requires doc' == DocChange(doc, a[t].startR + 1, a[t].endL - a[t].startR - 1, Content(data, cdata))
    requires var s := Shift(a, Ahead(Nil, r, p), PathAnc(p), n); b == s[t := s[t].AdjustEnd(n)]
    ensures Sound(doc', b, free, f, strict) && |b| == |a| && ParentsKept(a, b, Ids(f))
    ensures DataSet(doc, a[t], doc', b[t], data, cdata) && (Whole(doc, a, f) ==> Whole(doc', b, f))
  {
    hide Sound, TagsOk, Shift, Ahead, PathAnc, DocChange, Find, TidyIn, Ids, Content, DataOf;
    ContentDone(doc, doc', a, b, free, f, t, data, cdata, r, p, n, strict);
    if Whole(doc, a, f) { TidyContent(doc, doc', a, b, free, f, t, data, cdata, r, p, n, strict); }
  }

  lemma OpenedSet(doc: string, doc': string, a: seq<ElemPos>, b: seq<ElemPos>, free: nat, f: Forest, t: nat,
                  data: string, cdata: bool, name: string, e: ElemPos, r: Forest, p: Path, strict: bool)
    requires Sound(doc, a, free, f, strict) && t in Ids(f) && t < |a| && Find(f, t, Top) == (Nil, r, p)
    requires ElemOk(doc, a[t], strict) && a[t].IsEmptyElement() && name == TagName(StartTag(doc, a[t]))
    requires e == a[t].(startR := a[t].startR - 1, endL := a[t].endL - (1 + |name|))
    requires doc' == DocChange(doc, a[t].endL, 1, OpenedBy(name, Content(data, cdata)))
    requires var n := |OpenedBy(name, Content(data, cdata))| - 1;
      var s := Shift(a[t := e], Ahead(Nil, r, p), PathAnc(p), n);
      b == s[t := s[t].AdjustEnd(n)]
    ensures Sound(doc', b, free, f, strict) && |b| == |a| && ParentsKept(a, b, Ids(f))
    ensures DataSet(doc, a[t], doc', b[t], data, cdata) && (Whole(doc, a, f) ==> Whole(doc', b, f))
  {
    hide Sound, TagsOk, Shift, Ahead, PathAnc, DocChange, Find, TidyIn, Ids, Content, DataOf, TagName, OpenedBy;
    OpenedDone(doc, doc', a, b, free, f, t, data, cdata, name, e, r, p, strict);
    if Whole(doc, a, f) { TidyOpened(doc, doc', a, b, free, f, t, data, cdata, name, e, r, p, strict); }
  }

  /** `after` is the document without element t and the white space behind it. */
  ghost predicate RemovedAt(doc: string, a: seq<ElemPos>, t: nat, after: string) {
    t < |a| && Bounded(doc, a[t]) && var x := NextNode(doc, a[t].endR + 1);
    a[t].startL <= x <= |doc| && after == DocChange(doc, a[t].startL, x - a[t].startL, "")
  }

  /** The elements `g` are those of `f` without `t`, which came after `prev` below `top`, and all below it. */
  ghost predicate Without(f: Forest, top: nat, prev: nat, t: nat, g: Forest) {
    (top == 0 || top in Ids(f)) && IsPlace(Kids(f, top), prev) && Past(Kids(f, top), prev).Cons? &&
    Past(Kids(f, top), prev).elem == t &&
    g == WithoutChild(f, top, prev)
  }

  lemma OutSame(a: seq<ElemPos>, b: seq<ElemPos>, p: nat, before: nat, t: nat)
    requires LinkedOut(a, b, p, before, t) && OffsetsBut(a, b, |a|)
    ensures |b| == |a| && MovedBy(a[t], b[t], 0, 0)
  {
  }

  /** All of x_RemoveElem's effect below an element. */
  lemma RemovedBelow(doc: string, doc': string, a: seq<ElemPos>, a2: seq<ElemPos>, b: seq<ElemPos>, free: nat,
                     f: Forest, top: nat, before: nat, t: nat, k: Forest, r: Forest, p: Path, strict: bool)
    requires Sound(doc, a, free, f, strict) && top in Ids(f) && top < |a| && Find(f, top, Top) == (k, r, p) &&
             IsPlace(k, before) && top != 0
    requires Past(k, before).Cons? && Past(k, before).elem == t && LinkedOut(a, a2, top, before, t) &&
             OffsetsBut(a, a2, |a|)
    requires t < |a| && ElemOk(doc, a[t], strict)
    requires a[t].startL <= NextNode(doc, a[t].endR + 1)
    requires var q := NextNode(doc, a[t].endR + 1);
      doc' == DocChange(doc, a[t].startL, q - a[t].startL, "") &&
      b == Shift(a2, Ahead(Nil, Past(k, before).rest, Inside(top, r, p)), PathAnc(Inside(top, r, p)), a[t].startL - q)
    ensures Sound(doc', b, free, WithoutChild(f, top, before), strict) && ParentsKept(a, b, Ids(f)) && |b| == |a|
    ensures Ids(WithoutChild(f, top, before)) == Ids(f) - Ids(Past(k, before).kids) - {t} && RemovedAt(doc, a, t, doc')
    ensures Whole(doc, a, f) ==> Whole(doc', b, WithoutChild(f, top, before))
  {
    hide Sound, Find, Shift, Ahead, PathAnc, DocChange, ReplaceKids, Past, Remove, TopIds, LinkedOut, OffsetsBut,
         TidyIn, Ids, TagsOk, NextNode;
    OutSize(a, a2, top, before, t);
    RemoveDone(doc, doc', a, a2, b, free, f, top, before, t, k, r, p, strict);
    if Whole(doc, a, f) {
      TidyRemove(doc, doc', a, a2, b, free, f, top, before, t, k, r, p, strict);
      RootKept(f, top, Remove(k, before));
    }
  }

  /** ... and at the root. */
  lemma RemovedTop(doc: string, doc': string, a: seq<ElemPos>, a2: seq<ElemPos>, b: seq<ElemPos>, free: nat, f: Forest,
                   before: nat, t: nat, strict: bool)
    requires Sound(doc, a, free, f, strict) && IsPlace(f, before)
    requires Past(f, before).Cons? && Past(f, before).elem == t && LinkedOut(a, a2, 0, before, t) &&
             OffsetsBut(a, a2, |a|)
    requires t < |a| && ElemOk(doc, a[t], strict)
    requires a[t].startL <= NextNode(doc, a[t].endR + 1)
    requires var q := NextNode(doc, a[t].endR + 1);
      doc' == DocChange(doc, a[t].startL, q - a[t].startL, "") &&
      b == Shift(a2, Ahead(Nil, Past(f, before).rest, Top), PathAnc(Top), a[t].startL - q)
    ensures Sound(doc', b, free, Remove(f, before), strict) && ParentsKept(a, b, Ids(f)) && |b| == |a|
    ensures Ids(Remove(f, before)) == Ids(f) - Ids(Past(f, before).kids) - {t} && RemovedAt(doc, a, t, doc')
    ensures Whole(doc, a, f) ==> Whole(doc', b, Remove(f, before))
  {
    hide Sound, Shift, Ahead, PathAnc, DocChange, Remove, Past, TopIds, LinkedOut, OffsetsBut, TidyIn, Ids, TagsOk,
         NextNode;
    OutSize(a, a2, 0, before, t);
    RemoveRootDone(doc, doc', a, a2, b, free, f, before, t, strict);
    if Whole(doc, a, f) {
      TidyRemoveRoot(doc, doc', a, a2, b, free, f, before, t, strict);
      RemovedOnly(f, before);
    }
  }

  lemma RemovedOnly(f: Forest, before: nat)
    requires f.Cons? ==> f.rest == Nil
    requires IsPlace(f, before) && Past(f, before).Cons?
    ensures Remove(f, before) == Nil
  {
  }

  // ---- where rereading fails ----

  lemma {:induction false} TidyFirm(doc: string, a: seq<ElemPos>, f: Forest, lo: int, hi: int)
    requires TidyIn(doc, a, f, lo, hi)
    ensures FirmTrees(doc, TreesOf(a, f))
  {
    hide Gap, WellMade, Firm;
    match f
    case Nil =>
    case Cons(i, k, r) =>
      WellFirm(doc, a[i]);
      TidyFirm(doc, a, r, a[i].endR + 1, hi);
      if a[i].IsEmptyElement() { assert TreesOf(a, Nil) == Leaf; }
      else { TidyFirm(doc, a, k, a[i].startR + 1, a[i].endL); }
  }

  lemma WellFirm(doc: string, e: ElemPos)
    requires WellMade(doc, e)
    ensures Firm(doc, SpanOf(e))
  {
    hide Scan, EndMade, NameAt;
  }

  /** Exactly when a parsed document is whole. */
  lemma WholeExactly(doc: string, a: seq<ElemPos>, f: Forest, s: Span, k: Trees)
    requires ParseOne(doc, 0) == Got(s, k) && TreesOf(a, f) == Tree(s, k, Leaf) && f.Cons? && f.rest == Nil &&
             forall j :: j in Ids(f) ==> j < |a|
    ensures Whole(doc, a, f) <==> Gap(doc, s.endR + 1, |doc|) && FirmTrees(doc, TreesOf(a, f))
  {
    hide Gap, ParseOne, FirmTrees, WellMade;
    if Whole(doc, a, f) {
      TidyFirm(doc, a, f, 0, |doc|);
    } else if Gap(doc, s.endR + 1, |doc|) && FirmTrees(doc, TreesOf(a, f)) {
      WholeParsed(doc, a, f, s, k);
    }
  }

  /** The parsed root as the document's only element. */
  lemma DocParsed(doc: string, a: seq<ElemPos>, b: seq<ElemPos>, i: nat, free: nat, kids: Forest)
    requires NewElem(doc, a, i, free, kids, 0, 0) && 2 <= |a| && 0 < i < |a| && b == a[0 := a[0].(child := i)] &&
             a[0].startL == a[0].startR == 0
    requires ParseOne(doc, 0) == Got(SpanOf(a[i]), TreesOf(a, kids))
    ensures var f := Cons(i, kids, Nil);
      Sound(doc, b, free, f, Laid(doc, b, f, 0, |doc|, true)) &&
      TreesOf(b, f) == Tree(SpanOf(a[i]), TreesOf(a, kids), Leaf) &&
      (Whole(doc, b, f) <==> Gap(doc, a[i].endR + 1, |doc|) && FirmTrees(doc, TreesOf(b, f)))
  {
    hide NewElem, ParseOne, TreesOf, Sound, Laid, Whole, Gap, FirmTrees, Ids;
    var f := Cons(i, kids, Nil);
    RootParsed(doc, a, b, i, free, kids);
    RootTrees(doc, a, b, i, free, kids);
    StrictChosen(doc, b, free, f);
    SoundFresh(doc, b, free, f, Laid(doc, b, f, 0, |doc|, true));
    WholeExactly(doc, b, f, SpanOf(a[i]), TreesOf(a, kids));
  }

  /** In such a document the next token is the '?' or '!' of its first node, inside which there is no room. */
  lemma InsideFirstAt(doc: string)
    requires doc != "" && doc[0] == '<' && Gap(doc, 0, |doc|)
    ensures NextNode(doc, 1) == 1 && !Gap(doc, 0, 1)
  {
    hide NodeEnd;
    ScanIs(doc, 0, Is('<'), true, 0);
    NodeToken(doc, 0);
    NodeLong(doc, 0);
  }

  lemma WholeGap(doc: string, a: seq<ElemPos>)
    requires Whole(doc, a, Nil)
    ensures Gap(doc, 0, |doc|)
  {
  }
}
