/** The tokens x_ParseElem and x_ParseNode look for, and what a parsed element satisfies. */
module MarkupParse {
  import opened MarkupText
  import opened MarkupArena
  import opened MarkupLayout
  import opened MarkupEdits
  import opened MarkupTags
  import opened MarkupState
  import opened MarkupWrite
  import opened MarkupData

  predicate StrAt(s: string, k: nat, pat: string) { k + |pat| <= |s| && s[k..k + |pat|] == pat }

  /** strstr from `i`: the first occurrence of `pat`, or a position past the end of `s`. */
  function FindStr(s: string, i: nat, pat: string): (r: nat)
    requires i <= |s|
    ensures i <= r && (r <= |s| ==> StrAt(s, r, pat)) && forall k :: i <= k < r ==> !StrAt(s, k, pat)
    decreases |s| - i
  {
    if StrAt(s, i, pat) then i else if i == |s| then |s| + 1 else FindStr(s, i + 1, pat)
  }

  /** The end of a document type declaration: the first '>' token outside brackets, or past the end of `s`. */
  function DoctypeEnd(s: string, i: nat, brackets: int): (r: nat)
    requires i <= |s|
    ensures r <= |s| ==> i < r
    decreases |s| - i
  {
    var t := TokenAt(s, i);
    if !t.found then |s| + 1
    else if t.isString then DoctypeEnd(s, t.next, brackets)
    else if s[t.l] == '[' then DoctypeEnd(s, t.next, brackets + 1)
    else if s[t.l] == ']' then DoctypeEnd(s, t.next, brackets - 1)
    else if brackets == 0 && s[t.l] == '>' then t.next
    else DoctypeEnd(s, t.next, brackets)
  }

  /**
   Where the node that starts with the '<' at `i` ends, for x_ParseNode; an element "ends" at `i`; past the end if not
   well formed.
   */
  function NodeEnd(s: string, i: nat): (r: nat)
    requires i < |s|
    ensures r <= |s| ==> i <= r
  {
    if i + 2 >= |s| then |s| + 1
    else if s[i + 1] == '?' then FindStr(s, i, "?>") + 2
    else if s[i + 1] == '!' then
      if s[i + 2] == '[' then FindStr(s, i, "]]>") + 3
      else if s[i + 2] == '-' then FindStr(s, i, "-->") + 3
      else DoctypeEnd(s, i, 0)
    else if s[i + 1] == '/' then |s| + 1
    else i
  }

  /** The element that starts at `x`: its name token, and the '>' that x_FindChar finds after it. */
  ghost predicate OpensAt(doc: string, x: int, y: int) {
    0 <= x < |doc| && doc[x] == '<' &&
    var t := TokenAt(doc, x + 1);
    t.found && !t.isString && doc[t.l] != '/' && doc[t.l] != '?' && doc[t.l] != '!' &&
    y == Scan(doc, t.next, Is('>'), true) && y < |doc|
  }

  function NameAt(doc: string, x: nat): string
    requires x < |doc|
  {
    var t := TokenAt(doc, x + 1);
    if t.found then doc[t.l..t.r + 1] else ""
  }

  lemma ScanFinds(doc: string, i: nat, c: char)
    requires i <= |doc|
    ensures var y := Scan(doc, i, Is(c), true); i <= y <= |doc| && (y < |doc| ==> doc[y] == c)
  {
  }

  lemma OpenedTagOk(doc: string, x: int, y: int)
    requires OpensAt(doc, x, y)
    ensures 0 <= x && x + 2 <= y < |doc| && doc[y] == '>' && StartTagOk(doc[x..y + 1], false) &&
            TagName(doc[x..y + 1]) == NameAt(doc, x)
  {
    hide TokenAt, Scan;
    var t := TokenAt(doc, x + 1);
    ScanFinds(doc, t.next, '>');
    TagToken(doc, x, y);
    TagChars(doc, x, y, t.l);
  }

  /** The name token, seen in the tag alone. */
  lemma TagToken(doc: string, x: nat, y: nat)
    requires x < y < |doc| && TokenAt(doc, x + 1).found && !TokenAt(doc, x + 1).isString &&
             TokenAt(doc, x + 1).next <= y
    ensures var t, tag := TokenAt(doc, x + 1), doc[x..y + 1];
      TokenAt(tag, 1) == t.Plus(0 - x) && 1 <= t.l - x <= t.r - x < |tag| &&
      tag[t.l - x..t.r + 1 - x] == doc[t.l..t.r + 1]
  {
    hide TokenAt;
    var t := TokenAt(doc, x + 1);
    TokenWindow(doc, x, y + 1, x + 1);
    SubSlice(doc, x, y + 1, t.l - x, t.r + 1 - x);
  }

  lemma TagChars(doc: string, x: nat, y: nat, l: nat)
    requires x <= l <= y < |doc|
    ensures var tag := doc[x..y + 1]; tag[0] == doc[x] && tag[l - x] == doc[l] && tag[y - x] == doc[y]
  {
  }

  /**
   The end tag at `x` up to the '>' at `y`: "/", then a token that matches the name (or a string), then any tokens.
   */
  ghost predicate ClosesAt(doc: string, x: int, y: int, name: string) {
    0 <= x < y < |doc| && doc[x] == '<' && doc[y] == '>' &&
    var t := TokenAt(doc, x + 1);
    t.found && !t.isString && doc[t.l] == '/' && t.next <= y &&
    var u := TokenAt(doc, t.next);
    u.found && u.next <= y + 1 && (u.isString || Match(doc, u, name))
  }

  lemma ClosedTagOk(doc: string, x: int, y: int, name: string)
    requires ClosesAt(doc, x, y, name)
    ensures x + 2 <= y && EndTagOk(doc[x..y + 1], name)
  {
    hide TokenAt;
    var tag := doc[x..y + 1];
    var t := TokenAt(doc, x + 1);
    var u := TokenAt(doc, t.next);
    TokenWindow(doc, x, y + 1, x + 1);
    TokenWindow(doc, x, y + 1, t.next);
    SubSlice(doc, x, y + 1, u.l - x, u.r + 1 - x);
    TagChars(doc, x, y, t.l);
  }

  /** x_ParseNode on the node that starts with the '<' at `start`. */
  method ParseNode(doc: string, start: nat) returns (nNext: nat)
    requires start < |doc|
    ensures nNext == NodeEnd(doc, start)
  {
    if start + 2 >= |doc| { return |doc| + 1; }
    var cFirst := doc[start + 1];
    if cFirst == '?' {
      nNext := FindStr(doc, start, "?>") + 2;
    } else if cFirst == '!' {
      if doc[start + 2] == '[' {
        nNext := FindStr(doc, start, "]]>") + 3;
      } else if doc[start + 2] == '-' {
        nNext := FindStr(doc, start, "-->") + 3;
      } else {
        var nBrackets, next := 0, start;
        while true
          invariant next <= |doc| && DoctypeEnd(doc, start, 0) == DoctypeEnd(doc, next, nBrackets)
          decreases |doc| - next
        {
          var token := FindToken(doc, next);
          if !token.found { return |doc| + 1; }
          if !token.isString {
            var c := doc[token.l];
            if c == '[' {
              nBrackets := nBrackets + 1;
            } else if c == ']' {
              nBrackets := nBrackets - 1;
            } else if nBrackets == 0 && c == '>' {
              return token.next;
            }
          }
          next := token.next;
        }
      }
    } else if cFirst == '/' {
      nNext := |doc| + 1;
    } else {
      nNext := start;
    }
  }

  /** What x_ParseElem returns; `Stuck` stands for its endless loop. */
  datatype Parsed = Elem(i: nat) | Absent | Malformed | Stuck

  /**
   A '<' at `x` followed by white space and then '?' or '!': x_ParseNode takes it for an element and x_ParseElem does
   not advance.
   */
  ghost predicate StuckAt(doc: string, x: nat) {
    x + 1 < |doc| && doc[x] == '<' && IsSpace(doc[x + 1]) &&
    var t := TokenAt(doc, x + 1); t.found && !t.isString && (doc[t.l] == '?' || doc[t.l] == '!')
  }

  /** x_ParseElem's loop makes no progress on a '?' or '!' node exactly when white space separates it from its '<'. */
  lemma StuckOnSpace(doc: string, x: nat)
    requires x < |doc| && doc[x] == '<'
    requires var t := TokenAt(doc, x + 1); t.found && !t.isString && (doc[t.l] == '?' || doc[t.l] == '!')
    ensures NodeEnd(doc, x) == x <==> x + 1 < |doc| && IsSpace(doc[x + 1])
    ensures NodeEnd(doc, x) == x <==> StuckAt(doc, x)
  {
  }

  lemma GtSingle(s: string, i: nat)
    requires i <= |s| && TokenAt(s, i).found && !TokenAt(s, i).isString && s[TokenAt(s, i).l] == '>'
    ensures TokenAt(s, i).next == TokenAt(s, i).l + 1
  {
  }

  ghost predicate EndTagStarts(doc: string, x: int) {
    0 <= x < |doc| && doc[x] == '<' && var t := TokenAt(doc, x + 1); t.found && !t.isString && doc[t.l] == '/'
  }

  lemma ParsedEmpty(doc: string, e: ElemPos)
    requires OpensAt(doc, e.startL, e.startR) && e.startR < |doc| && doc[e.startR - 1] == '/' &&
             e.endL == e.startR - 1 && e.endR == e.startR
    ensures ElemOk(doc, e, false)
  {
    hide StartTagOk, OpensAt, TagName, NameAt;
    OpenedTagOk(doc, e.startL, e.startR);
  }

  lemma ParsedFull(doc: string, e: ElemPos)
    requires OpensAt(doc, e.startL, e.startR) && e.startR < e.endL &&
             ClosesAt(doc, e.endL, e.endR, NameAt(doc, e.startL))
    ensures ElemOk(doc, e, false)
  {
    hide StartTagOk, EndTagOk, TagName, OpensAt, NameAt;
    OpenedTagOk(doc, e.startL, e.startR);
    ClosedTagOk(doc, e.endL, e.endR, NameAt(doc, e.startL));
  }

  /**
   Element `i`, with the children `kids`, has been parsed below `parent`, from `lo` on, in slots from `i` to `free`.
   */
  ghost predicate NewElem(doc: string, a: seq<ElemPos>, i: nat, free: nat, kids: Forest, lo: int, parent: nat) {
    var f := Cons(i, kids, Nil);
    i < free <= |a| && Linked(a, f, i, parent) && Uniq(f) && (forall j :: j in Ids(f) ==> i <= j < free) &&
    Laid(doc, a, f, lo, |doc|, false)
  }

  /** Slots below `limit` are untouched, except that `top` may have another endL and child. */
  ghost predicate Untouched(a: seq<ElemPos>, b: seq<ElemPos>, limit: nat, top: nat) {
    limit <= |a| <= |b| &&
    forall j :: 0 <= j < limit ==> b[j] == if j == top then a[j].(endL := b[j].endL, child := b[j].child) else a[j]
  }

  /** Only startL of slot `i` and endL of slot `parent` differ, and that has not gone back. */
  ghost predicate StartSet(a: seq<ElemPos>, b: seq<ElemPos>, i: nat, parent: nat, size: nat) {
    |b| == |a| && i < |a| && parent < |a| && (forall j :: 0 <= j < |a| && j != i && j != parent ==> b[j] == a[j]) &&
    b[i] == a[i].(startL := b[i].startL) && b[parent] == a[parent].(endL := b[parent].endL) &&
    a[parent].endL <= b[parent].endL <= size
  }

  lemma StartSetNone(a: seq<ElemPos>, i: nat, parent: nat, size: nat)
    requires i < |a| && parent < |a| && a[parent].endL <= size
    ensures StartSet(a, a, i, parent, size)
  {
  }

  lemma StartSetAt(a: seq<ElemPos>, b: seq<ElemPos>, i: nat, parent: nat, size: nat, x: nat)
    requires StartSet(a, b, i, parent, size) && i != parent && a[parent].endL <= x <= size
    ensures var c := b[i := b[i].(startL := x)];
      StartSet(a, c, i, parent, size) && StartSet(a, c[parent := c[parent].(endL := x)], i, parent, size)
  {
  }

  /** The children parsed so far lie between the start tag of `i` and its endL. */
  ghost predicate ContentOk(doc: string, a: seq<ElemPos>, i: nat, free: nat, kids: Forest) {
    i < free <= |a| && Linked(a, kids, a[i].child, i) && Uniq(kids) && (forall j :: j in Ids(kids) ==> i < j < free) &&
    Laid(doc, a, kids, a[i].startR + 1, a[i].endL, false)
  }

  lemma ParsedLeaf(doc: string, a: seq<ElemPos>, i: nat, free: nat, lo: int, parent: nat)
    requires 0 < i < free <= |a| && ElemOk(doc, a[i], false) && a[i].parent == parent && a[i].child == 0 &&
             a[i].next == 0 && 0 <= lo <= a[i].startL
    ensures NewElem(doc, a, i, free, Nil, lo, parent)
  {
    hide ElemOk;
    ElemBounds(doc, a[i], false);
    LaidNothing(doc, a, a[i].endR + 1, |doc|, false);
    LaidOne(doc, a, i, Nil, |doc|, false);
    LaidLower(doc, a, Cons(i, Nil, Nil), lo, a[i].startL, |doc|, false);
    assert Linked(a, Nil, a[i].child, i) && Linked(a, Nil, a[i].next, parent) && Uniq(Nil);
  }

  lemma ParsedNode(doc: string, a: seq<ElemPos>, i: nat, free: nat, kids: Forest, lo: int, parent: nat)
    requires ContentOk(doc, a, i, free, kids)
    requires 0 < i && ElemOk(doc, a[i], false) && !a[i].IsEmptyElement() && a[i].parent == parent && a[i].next == 0 &&
             0 <= lo <= a[i].startL
    ensures NewElem(doc, a, i, free, kids, lo, parent)
  {
    hide ElemOk;
    ElemBounds(doc, a[i], false);
    LaidNothing(doc, a, a[i].endR + 1, |doc|, false);
    var f := Cons(i, kids, Nil);
    assert Linked(a, Nil, a[i].next, parent) && Uniq(Nil) && Ids(Nil) == {};
    assert Linked(a, f, i, parent) && Uniq(f);
    assert Ids(f) == {i} + Ids(kids);
    assert Laid(doc, a, f, lo, |doc|, false);
  }

  ghost predicate IsLast(a: seq<ElemPos>, kids: Forest, prev: nat) {
    if prev == 0 then kids == Nil
    else prev in TopIds(kids) && Past(kids, prev) == Nil && prev < |a| && a[prev].next == 0
  }

  lemma NoContent(doc: string, a: seq<ElemPos>, i: nat, free: nat)
    requires i < free <= |a| && a[i].child == 0 && 0 <= a[i].startR + 1 <= a[i].endL <= |doc|
    ensures ContentOk(doc, a, i, free, Nil)
  {
  }

  /** The children so far, up to `hi`: `ContentOk` with the end given. */
  ghost predicate ContentTo(doc: string, a: seq<ElemPos>, i: nat, free: nat, kids: Forest, hi: int) {
    i < free <= |a| && Linked(a, kids, a[i].child, i) && Uniq(kids) && (forall j :: j in Ids(kids) ==> i < j < free) &&
    Laid(doc, a, kids, a[i].startR + 1, hi, false)
  }

  lemma ContentKept(doc: string, a: seq<ElemPos>, b: seq<ElemPos>, i: nat, free: nat, kids: Forest, prev: nat)
    requires ContentOk(doc, a, i, free, kids) && IsLast(a, kids, prev) && (prev != 0 ==> prev < free && prev != i)
    requires Untouched(a, b, free, i) && b[i].child == a[i].child
    ensures ContentTo(doc, b, i, free, kids, a[i].endL) && IsLast(b, kids, prev)
  {
    hide Laid, Linked, Uniq;
    LinkedKept(a, b, kids, a[i].child, i);
    LaidBounds(doc, a, kids, a[i].startR + 1, a[i].endL, false);
    LaidMoved(doc, doc, a, b, kids, a[i].startR + 1, a[i].endL, 0, false);
  }

  lemma ContentRaised(doc: string, a: seq<ElemPos>, i: nat, free: nat, kids: Forest, hi: int)
    requires ContentTo(doc, a, i, free, kids, hi) && hi <= a[i].endL <= |doc|
    ensures ContentOk(doc, a, i, free, kids)
  {
    hide Laid, Linked, Uniq;
    LaidWiden(doc, a, kids, a[i].startR + 1, hi, a[i].endL, false);
  }

  /** One more child `inner` is linked in at the end. */
  lemma ContentStep(doc: string, a: seq<ElemPos>, b: seq<ElemPos>, i: nat, free: nat, free': nat, kids: Forest,
                    prev: nat, inner: nat, k: Forest, hi: int)
    requires ContentTo(doc, a, i, free, kids, hi) && IsLast(a, kids, prev) && inner == free &&
             NewElem(doc, a, inner, free', k, hi, i)
    requires prev != 0 ==> i < prev < free
    requires b == (if prev != 0 then a[prev := a[prev].(next := inner)] else a)
                  [i := a[i].(child := if prev != 0 then a[i].child else inner, endL := a[inner].endR + 1)]
    ensures ContentOk(doc, b, i, free', Append(kids, Cons(inner, k, Nil))) &&
            IsLast(b, Append(kids, Cons(inner, k, Nil)), inner)
    ensures hi < b[i].endL <= |doc|
  {
    hide *;
    var g := Cons(inner, k, Nil);
    StepLinked(doc, a, b, i, free, free', kids, prev, inner, k, hi);
    StepIds(doc, a, i, free, free', kids, inner, k, hi);
    StepLaid(doc, a, i, free, free', kids, inner, k, hi);
    StepOffsets(a, b, i, prev, inner, Ids(Append(kids, g)));
    LaidMoved(doc, doc, a, b, Append(kids, g), a[i].startR + 1, a[inner].endR + 1, 0, false);
    AppendLast(kids, inner, k);
    StepDone(doc, b, i, free', Append(kids, g), inner);
  }

  lemma StepDone(doc: string, b: seq<ElemPos>, i: nat, free: nat, kids: Forest, inner: nat)
    requires i < free <= |b| && Linked(b, kids, b[i].child, i) && Uniq(kids) &&
             (forall j :: j in Ids(kids) ==> i < j < free)
    requires Laid(doc, b, kids, b[i].startR + 1, b[i].endL, false)
    requires 0 < inner < |b| && inner in TopIds(kids) && Past(kids, inner) == Nil && b[inner].next == 0
    ensures ContentOk(doc, b, i, free, kids) && IsLast(b, kids, inner)
  {
    hide Laid, Linked, Uniq, TopIds, Past;
  }

  lemma StepIds(doc: string, a: seq<ElemPos>, i: nat, free: nat, free': nat, kids: Forest, inner: nat, k: Forest,
                hi: int)
    requires ContentTo(doc, a, i, free, kids, hi) && inner == free && NewElem(doc, a, inner, free', k, hi, i)
    ensures var f := Append(kids, Cons(inner, k, Nil));
      Uniq(f) && (forall j :: j in Ids(f) ==> i < j < free') && free' <= |a|
    ensures inner !in Ids(kids) && i < inner < free'
  {
    hide Laid, Linked, Append, Uniq;
    AppendIds(kids, Cons(inner, k, Nil));
  }

  lemma StepLaid(doc: string, a: seq<ElemPos>, i: nat, free: nat, free': nat, kids: Forest, inner: nat, k: Forest,
                 hi: int)
    requires ContentTo(doc, a, i, free, kids, hi) && inner == free && NewElem(doc, a, inner, free', k, hi, i)
    ensures Laid(doc, a, Append(kids, Cons(inner, k, Nil)), a[i].startR + 1, a[inner].endR + 1, false)
    ensures SameText(doc, doc, a[i].startR + 1, a[inner].endR + 1, 0) && hi <= a[inner].endR < |doc|
  {
    hide ElemOk, Linked, Uniq, Append, Ids;
    LaidBounds(doc, a, kids, a[i].startR + 1, hi, false);
    ElemBounds(doc, a[inner], false);
    assert Laid(doc, a, Nil, a[inner].endR + 1, a[inner].endR + 1, false);
    assert Laid(doc, a, Cons(inner, k, Nil), hi, a[inner].endR + 1, false);
    LaidJoin(doc, a, kids, Cons(inner, k, Nil), a[i].startR + 1, hi, a[inner].endR + 1, false);
  }

  lemma StepOffsets(a: seq<ElemPos>, b: seq<ElemPos>, i: nat, prev: nat, inner: nat, ids: set<nat>)
    requires inner < |a| && prev < |a| && i < |a| && forall j :: j in ids ==> i < j < |a|
    requires b == (if prev != 0 then a[prev := a[prev].(next := inner)] else a)
                  [i := a[i].(child := if prev != 0 then a[i].child else inner, endL := a[inner].endR + 1)]
    ensures Moved(a, b, ids, 0, 0)
  {
  }

  lemma StepLinked(doc: string, a: seq<ElemPos>, b: seq<ElemPos>, i: nat, free: nat, free': nat, kids: Forest,
                   prev: nat, inner: nat, k: Forest, hi: int)
    requires ContentTo(doc, a, i, free, kids, hi) && IsLast(a, kids, prev) && inner == free &&
             NewElem(doc, a, inner, free', k, hi, i)
    requires prev != 0 ==> i < prev < free
    requires b == (if prev != 0 then a[prev := a[prev].(next := inner)] else a)
                  [i := a[i].(child := if prev != 0 then a[i].child else inner, endL := a[inner].endR + 1)]
    ensures Linked(b, Append(kids, Cons(inner, k, Nil)), b[i].child, i) && b[inner].next == 0
  {
    hide Laid, TopIds, Past, Upto;
    var g := Cons(inner, k, Nil);
    LinkedKept(a, b, g, inner, i);
    if prev != 0 {
      PastEnd(kids, prev);
      UptoLinked(a, b, kids, g, prev, a[i].child, i);
    }
  }

  lemma {:induction false} AppendLast(kids: Forest, inner: nat, k: Forest)
    requires inner !in Ids(kids) && inner != 0
    ensures var f := Append(kids, Cons(inner, k, Nil)); inner in TopIds(f) && Past(f, inner) == Nil
  {
    if kids.Cons? { AppendLast(kids.rest, inner, k); }
  }

  lemma ContentClosed(doc: string, a: seq<ElemPos>, b: seq<ElemPos>, i: nat, free: nat, kids: Forest)
    requires ContentOk(doc, a, i, free, kids) && |b| == |a| &&
             forall j :: 0 <= j < |a| ==> b[j] == if j == i then a[j].(endR := b[j].endR) else a[j]
    ensures ContentOk(doc, b, i, free, kids) && b[i].startR < b[i].endL
  {
    hide Laid, Linked, Uniq;
    LinkedKept(a, b, kids, a[i].child, i);
    LaidBounds(doc, a, kids, a[i].startR + 1, a[i].endL, false);
    LaidMoved(doc, doc, a, b, kids, a[i].startR + 1, a[i].endL, 0, false);
  }

  lemma RootParsed(doc: string, a: seq<ElemPos>, b: seq<ElemPos>, i: nat, free: nat, kids: Forest)
    requires NewElem(doc, a, i, free, kids, 0, 0) && 2 <= |a| && 0 < i && b == a[0 := a[0].(child := i)] &&
             a[0].startL == a[0].startR == 0
    ensures Sound(doc, b, free, Cons(i, kids, Nil), false)
  {
    hide Laid, Linked, Uniq;
    var f := Cons(i, kids, Nil);
    LinkedKept(a, b, f, i, 0);
    LaidMoved(doc, doc, a, b, f, 0, |doc|, 0, false);
  }

  lemma StrictChosen(doc: string, a: seq<ElemPos>, free: nat, f: Forest)
    requires Sound(doc, a, free, f, false)
    ensures Sound(doc, a, free, f, Laid(doc, a, f, 0, |doc|, true))
  {
    hide Laid, Linked;
  }

  /** The link that FindElem follows leads to a child of the same parent. */
  lemma NextIsChild(doc: string, a: seq<ElemPos>, free: nat, f: Forest, top: nat, t: nat, strict: bool)
    requires Sound(doc, a, free, f, strict) && (top == 0 || top in Ids(f)) &&
             (t != 0 ==> t in Ids(f) && t < |a| && a[t].parent == top)
    ensures top < |a| && t < |a|
    ensures var i := if t != 0 then a[t].next else a[top].child; i != 0 ==> i in Ids(f) && i < |a| && a[i].parent == top
  {
    hide Laid;
    if t != 0 {
      SoundAt(doc, a, free, f, t, strict);
      FindUniq(f, t, Top);
    } else if top != 0 {
      SoundAt(doc, a, free, f, top, strict);
    }
  }

  lemma ParentIsChild(doc: string, a: seq<ElemPos>, free: nat, f: Forest, t: nat, strict: bool)
    requires Sound(doc, a, free, f, strict) && t in Ids(f)
    ensures t < |a| && (a[t].parent == 0 || a[t].parent in Ids(f))
  {
    hide Laid;
    SoundAt(doc, a, free, f, t, strict);
    FindUniq(f, t, Top);
  }

  /**
   The four offsets of element `t` are at its own '<', '>', '<' (or '/' if it is empty) and '>'; it lies strictly inside
   its parent and before its next sibling.
   */
  ghost predicate Pointing(doc: string, a: seq<ElemPos>, t: nat) {
    0 < t < |a| && 0 <= a[t].startL < a[t].startR <= a[t].endR < |doc| && a[t].startL < a[t].endL < a[t].endR &&
    doc[a[t].startL] == '<' && doc[a[t].startR] == '>' && doc[a[t].endR] == '>' &&
    doc[a[t].endL] == (if a[t].IsEmptyElement() then '/' else '<') &&
    (a[t].parent != 0 ==>
     a[t].parent < |a| && a[a[t].parent].startR < a[t].startL && a[t].endR < a[a[t].parent].endL) &&
    (a[t].next != 0 ==> a[t].next < |a| && a[t].endR < a[a[t].next].startL)
  }

  /** What the invariant says of each element. */
  lemma OffsetsPoint(doc: string, a: seq<ElemPos>, free: nat, f: Forest, t: nat, strict: bool)
    requires Sound(doc, a, free, f, strict) && t in Ids(f)
    ensures Pointing(doc, a, t)
  {
    hide Laid, Sound, ElemOk, UniqIn, TopIds, Cursor;
    SoundAt(doc, a, free, f, t, strict);
    SoundFresh(doc, a, free, f, strict);
    SoundLaid(doc, a, free, f, strict);
    ElemPoints(doc, a[t], strict);
    SiblingAfter(doc, a, f, t, a[0].child, Top, 0, |doc|, strict);
    InKids(doc, a, free, f, t, strict);
    var top := a[t].parent;
    if top != 0 {
      SoundAt(doc, a, free, f, top, strict);
      FindUniq(f, top, Top);
      PlaceIds(Kids(f, top), t);
      InNonEmpty(doc, a, top, Kids(f, top), t, strict);
    }
  }

  lemma InNonEmpty(doc: string, a: seq<ElemPos>, top: nat, k: Forest, t: nat, strict: bool)
    requires top < |a| && t in Ids(k) &&
             if a[top].IsEmptyElement() then k == Nil else Laid(doc, a, k, a[top].startR + 1, a[top].endL, strict)
    ensures t < |a| && a[top].startR < a[t].startL && a[t].endR < a[top].endL
  {
    hide Laid;
    LaidAt(doc, a, k, t, Top, a[top].startR + 1, a[top].endL, strict);
  }

  lemma TagEnds(start: string, end: string, empty: bool, strict: bool)
    requires TagsOk(start, end, empty, strict)
    ensures |start| >= 3 && start[0] == '<' && start[|start| - 1] == '>'
    ensures |end| >= 2 && end[0] == (if empty then '/' else '<') && end[|end| - 1] == '>'
  {
    hide TokenAt, TagName, Match, CleanTag;
  }

  lemma ElemPoints(doc: string, e: ElemPos, strict: bool)
    requires ElemOk(doc, e, strict)
    ensures 0 <= e.startL < e.startR <= e.endR < |doc| && e.startL < e.endL < e.endR
    ensures doc[e.startL] == '<' && doc[e.startR] == '>' && doc[e.endR] == '>' &&
            doc[e.endL] == (if e.IsEmptyElement() then '/' else '<')
  {
    hide TagsOk;
    var s, t := StartTag(doc, e), EndTag(doc, e);
    TagEnds(s, t, e.IsEmptyElement(), strict);
    assert s[0] == doc[e.startL] && s[|s| - 1] == doc[e.startR] && t[0] == doc[e.endL] && t[|t| - 1] == doc[e.endR];
  }

  lemma {:induction false} SiblingAfter(doc: string, a: seq<ElemPos>, f: Forest, t: nat, head: nat, up: Path, lo: int,
                                        hi: int, strict: bool)
    requires Laid(doc, a, f, lo, hi, strict) && Linked(a, f, head, ParentOf(up)) && t in Ids(f) && t < |a|
    ensures a[t].next != 0 ==> a[t].next < |a| && a[t].endR < a[a[t].next].startL
  {
    hide ElemOk;
    if t == f.elem {
    } else if t in Ids(f.kids) {
      SiblingAfter(doc, a, f.kids, t, a[f.elem].child, Inside(f.elem, f.rest, up), a[f.elem].startR + 1, a[f.elem].endL,
                   strict);
    } else {
      SiblingAfter(doc, a, f.rest, t, a[f.elem].next, up, a[f.elem].endR + 1, hi, strict);
    }
  }
}
