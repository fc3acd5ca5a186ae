/** What tokens, names, attributes and end tags mean, told by their characters alone. */
module MarkupMeaning {
  import opened MarkupText
  import opened MarkupArena
  import opened MarkupLayout
  import opened MarkupTags
  import opened MarkupParse
  import opened MarkupGrammar
  import opened MarkupLasting

  // ---- tokens ----

  const BLANKS: set<char> := {' ', '\t', '\n', '\r'}

  /** The characters that end a word, and are tokens on their own. */
  const STOPS: set<char> := {' ', '\t', '\n', '\r', '<', '>', '=', '\\', '/', '?', '!'}

  /**
   White space is passed over; a quote opens a string up to the next one alike, or to the end of the text; any other
   token is a single stop character, or the longest word without one.
   */
  lemma TokenMeans(s: string, i: nat)
    requires i <= |s|
    ensures var t := TokenAt(s, i); var b := if t.isString then t.l - 1 else t.l;
      i <= b <= |s| && (forall k :: i <= k < b ==> s[k] in BLANKS) &&
      (t.found <==> b < |s|) && (b < |s| ==> s[b] !in BLANKS && (t.isString <==> s[b] == '"' || s[b] == '\''))
    ensures var t := TokenAt(s, i);
      t.isString ==>
        (forall k :: t.l <= k <= t.r && k < |s| ==> s[k] != s[t.l - 1]) &&
        if t.next == t.r + 1 then t.next == |s| else t.next == t.r + 2 <= |s| && s[t.r + 1] == s[t.l - 1]
    ensures var t := TokenAt(s, i);
      t.found && !t.isString ==>
        t.next == t.r + 1 <= |s| &&
        if s[t.l] in STOPS then t.r == t.l
        else (forall k :: t.l <= k <= t.r ==> s[k] !in STOPS) && (t.next < |s| ==> s[t.next] in STOPS)
  {
    SpecialMeans();
  }

  lemma SpecialMeans()
    ensures forall c: char :: (In(c, Special) <==> c in STOPS) && (In(c, Space) <==> c in BLANKS)
  {
  }

  /** Where token number n is looked for, and that token. */
  ghost function PosOf(s: string, i: nat, n: nat): (r: nat)
    requires i <= |s|
    ensures i <= r <= |s|
  {
    if n == 0 then i else TokenAt(s, PosOf(s, i, n - 1)).next
  }

  ghost function Nth(s: string, i: nat, n: nat): (t: Token)
    requires i <= |s|
    ensures t.l <= t.next <= |s| && t.l - 1 <= t.r
    ensures t.found ==> t.r < t.next && (!t.isString ==> t.l <= t.r)
  {
    TokenAt(s, PosOf(s, i, n))
  }

  function TextOf(s: string, t: Token): string
    requires t.l <= t.r + 1 <= |s|
  {
    s[t.l..t.r + 1]
  }

  ghost function TextAt(s: string, i: nat, n: nat): string
    requires i <= |s|
  {
    var t := Nth(s, i, n); if t.found && t.r < |s| then TextOf(s, t) else ""
  }

  ghost predicate Word(s: string, i: nat, n: nat)
    requires i <= |s|
  {
    var t := Nth(s, i, n); t.found && !t.isString
  }

  // ---- names ----

  /** A name is also called by its part before a blank, '=', '/' or '['. */
  ghost predicate Called(text: string, name: string) {
    text == name ||
    exists n: nat :: n < |name| && text == name[..n] &&
                     (name[n] == ' ' || name[n] == '=' || name[n] == '/' || name[n] == '[')
  }

  lemma MatchCalled(s: string, t: Token, name: string)
    requires t.l <= t.r + 1 <= |s|
    ensures Match(s, t, name) <==> Called(TextOf(s, t), name)
  {
    var text := TextOf(s, t);
    var n := t.r - t.l + 1;
    assert |text| == n;
    if Match(s, t, name) {
      if n < |name| { assert text == name[..n]; } else { assert name[..n] == name; }
    }
    if text == name { assert name[..n] == name; }
  }

  /** Only itself, if it holds no '[' and none of the others but at its start. */
  lemma CalledItself(text: string, name: string)
    requires text != "" && '[' !in name && forall k :: 1 <= k < |name| ==> name[k] !in {' ', '=', '/'}
    ensures Called(text, name) <==> text == name
  {
  }

  // ---- attributes ----

  ghost predicate NamesAt(s: string, i: nat, j: nat, attr: string)
    requires i <= |s|
  {
    var t := Nth(s, i, j);
    t.found && !t.isString && s[t.l] != '=' && Called(TextOf(s, t), attr)
  }

  /** Token number j is there, and no '>' or '/'. */
  ghost predicate Inner(s: string, i: nat, j: nat)
    requires i <= |s|
  {
    var t := Nth(s, i, j);
    t.found && (t.isString || (s[t.l] != '>' && s[t.l] != '/'))
  }

  /**
   Token number h is the first after the tag's name that names the attribute, the tag has not ended two tokens later,
   and that token is a string.
   */
  ghost predicate ValueBehind(s: string, i: nat, attr: string, h: nat)
    requires i <= |s|
  {
    1 <= h && (forall j :: 0 <= j <= h + 2 ==> Inner(s, i, j)) && NamesAt(s, i, h, attr) &&
    (forall j :: 1 <= j < h ==> !NamesAt(s, i, j, attr)) && Nth(s, i, h + 2).isString
  }

  /** The value behind the first such token, or nothing if there is none. */
  ghost predicate ValueFound(s: string, i: nat, attr: string, r: Token)
    requires i <= |s|
  {
    (r.found ==> exists h: nat :: ValueBehind(s, i, attr, h)) &&
    forall h: nat :: ValueBehind(s, i, attr, h) ==> r == Nth(s, i, h + 2) && r.found
  }

  lemma AttribMeans(s: string, i: nat, attr: string)
    requires i <= |s|
    ensures ValueFound(s, i, attr, AttribAt(s, i, attr, 0, 0))
  {
    hide AttribAt, NamesAt, Inner, ValueBehind, Nth;
    assert Searching(s, i, attr, 0, 0);
    var h := SearchMeans(s, i, attr, 0, 0);
    forall k: nat | ValueBehind(s, i, attr, k)
      ensures AttribAt(s, i, attr, 0, 0) == Nth(s, i, k + 2) && AttribAt(s, i, attr, 0, 0).found
    {
      FirstOnly(s, i, attr, h, k);
    }
  }

  /** x_FindAttrib */
  method FindAttrib(doc: string, start: nat, attr: string) returns (token: Token)
    requires start <= |doc|
    ensures token == AttribAt(doc, start, attr, 0, 0) && ValueFound(doc, start, attr, token)
  {
    hide AttribAt, TokenAt, HitAfter, EndsTag, Match, ValueFound;
    AttribMeans(doc, start, attr);
    var nAttrib, nCount, next := 0, 0, start;
    while true
      invariant next <= |doc| && AttribAt(doc, start, attr, 0, 0) == AttribAt(doc, next, attr, nCount, nAttrib)
      decreases |doc| - next
    {
      token := FindToken(doc, next);
      AttribRound(doc, next, attr, nCount, nAttrib);
      if !token.found { return NO_TOKEN; }
      if !token.isString {
        if doc[token.l] == '>' || doc[token.l] == '/' { return NO_TOKEN; }
        if doc[token.l] != '=' && nAttrib == 0 && nCount != 0 && Match(doc, token, attr) { nAttrib := nCount; }
      } else if nAttrib != 0 && nCount == nAttrib + 2 {
        return;
      }
      next, nCount := token.next, nCount + 1;
    }
  }

  /** The value of an attribute in a start tag. */
  ghost predicate ValueRead(tag: string, attr: string, value: string)
    requires 1 <= |tag|
  {
    if exists h: nat :: ValueBehind(tag, 1, attr, h) then
      forall h: nat :: ValueBehind(tag, 1, attr, h) ==>
        InTag(tag, h) && value == Unescape(TextOf(tag, Nth(tag, 1, h + 2)))
    else value == ""
  }

  ghost predicate InTag(tag: string, h: nat)
    requires 1 <= |tag|
  {
    Nth(tag, 1, h + 2).r < |tag|
  }

  lemma ReadMeans(tag: string, attr: string)
    requires 1 <= |tag|
    ensures ValueRead(tag, attr, ReadAttrib(tag, attr))
  {
    hide AttribAt, ValueBehind, Unescape, Nth;
    AttribMeans(tag, 1, attr);
  }

  lemma FirstOnly(s: string, i: nat, attr: string, h: nat, k: nat)
    requires i <= |s|
    ensures ValueBehind(s, i, attr, h) && ValueBehind(s, i, attr, k) ==> h == k
  {
    hide NamesAt, Inner;
  }

  /** The search has come to token number c, having seen the name at `hit`, or not at all. */
  ghost predicate Searching(s: string, i: nat, attr: string, c: nat, hit: nat)
    requires i <= |s|
  {
    (forall j :: 0 <= j < c ==> Inner(s, i, j)) &&
    if hit == 0 then forall j :: 1 <= j < c ==> !NamesAt(s, i, j, attr)
    else
      hit < c && NamesAt(s, i, hit, attr) && (forall j :: 1 <= j < hit ==> !NamesAt(s, i, j, attr)) &&
      (hit + 2 < c ==> !Nth(s, i, hit + 2).isString)
  }

  lemma {:induction false} SearchMeans(s: string, i: nat, attr: string, c: nat, hit: nat) returns (h: nat)
    requires i <= |s| && Searching(s, i, attr, c, hit)
    ensures var r := AttribAt(s, PosOf(s, i, c), attr, c, hit);
      if r.found then ValueBehind(s, i, attr, h) && r == Nth(s, i, h + 2)
      else forall k: nat :: !ValueBehind(s, i, attr, k)
    decreases |s| - PosOf(s, i, c)
  {
    hide TokenAt, Match, NamesAt, Called, Inner, AttribAt;
    var t := Nth(s, i, c);
    AttribRound(s, PosOf(s, i, c), attr, c, hit);
    InnerIs(s, i, c);
    h := hit;
    if !Inner(s, i, c) {
      NotPast(s, i, attr, c, hit);
    } else if t.isString && hit != 0 && c == hit + 2 {
    } else {
      NameIs(s, i, c, attr);
      var hit' := if hit == 0 && c != 0 && NamesAt(s, i, c, attr) then c else hit;
      h := SearchMeans(s, i, attr, c + 1, hit');
    }
  }

  lemma InnerIs(s: string, i: nat, c: nat)
    requires i <= |s|
    ensures var t := Nth(s, i, c); Inner(s, i, c) <==> t.found && (t.isString || (s[t.l] != '>' && s[t.l] != '/'))
    ensures Nth(s, i, c).found ==> PosOf(s, i, c) < PosOf(s, i, c + 1)
  {
    hide TokenAt;
  }

  lemma NameIs(s: string, i: nat, c: nat, attr: string)
    requires i <= |s|
    ensures var t := Nth(s, i, c);
      NamesAt(s, i, c, attr) <==> t.found && !t.isString && s[t.l] != '=' && Match(s, t, attr)
  {
    hide TokenAt, Match, Called;
    var t := Nth(s, i, c);
    if t.found && !t.isString { MatchCalled(s, t, attr); }
  }

  /** Beyond the end of the tag there is nothing to find. */
  lemma NotPast(s: string, i: nat, attr: string, c: nat, hit: nat)
    requires i <= |s| && Searching(s, i, attr, c, hit) && !Inner(s, i, c)
    ensures forall k: nat :: !ValueBehind(s, i, attr, k)
  {
    hide NamesAt, Inner, Nth;
    forall k: nat | ValueBehind(s, i, attr, k)
      ensures false
    {
    }
  }

  // ---- end tags ----

  /**
   Token number m is the first '>' after the slash, behind a string or a token that calls the element by its name; a
   string may also stand for the slash.
   */
  ghost predicate ClosedBy(s: string, i: nat, name: string, m: nat)
    requires i <= |s|
  {
    1 <= m && (forall j :: 0 <= j <= m ==> Nth(s, i, j).found) && Gt(s, i, m) &&
    (forall j :: 1 <= j < m ==> !Gt(s, i, j)) && Slash(s, i) && NamedBy(s, i, name)
  }

  ghost predicate Gt(s: string, i: nat, j: nat)
    requires i <= |s|
  {
    var t := Nth(s, i, j); t.found && !t.isString && s[t.l] == '>'
  }

  ghost predicate Slash(s: string, i: nat)
    requires i <= |s|
  {
    var t := Nth(s, i, 0); t.found && (t.isString || s[t.l] == '/')
  }

  ghost predicate NamedBy(s: string, i: nat, name: string)
    requires i <= |s|
  {
    var t := Nth(s, i, 1); t.found && (t.isString || Called(TextOf(s, t), name))
  }

  /** The end-tag loop ends at such a '>', and fails if there is none. */
  lemma EndMeans(s: string, i: nat, name: string)
    requires i <= |s|
    ensures forall w: int :: EndsAt(s, i, name, w) <==> w == EndFrom(s, i, 0, name) < |s|
  {
    hide EndFrom, Gt, Slash, NamedBy, Nth, ClosedBy;
    assert Ending(s, i, name, 0);
    var m := EndingMeans(s, i, name, 0);
    forall k: nat | ClosedBy(s, i, name, k)
      ensures Nth(s, i, k).l == EndFrom(s, i, 0, name) < |s|
    {
      ClosedOnce(s, i, name, m, k);
    }
  }

  lemma ClosedOnce(s: string, i: nat, name: string, m: nat, k: nat)
    requires i <= |s|
    ensures ClosedBy(s, i, name, m) && ClosedBy(s, i, name, k) ==> m == k
  {
    hide Gt, Slash, NamedBy, Nth;
  }

  ghost predicate Ending(s: string, i: nat, name: string, c: nat)
    requires i <= |s|
  {
    (forall j :: 0 <= j < c ==> Nth(s, i, j).found) && (forall j :: 1 <= j < c ==> !Gt(s, i, j)) &&
    (c > 0 ==> Slash(s, i)) && (c > 1 ==> NamedBy(s, i, name))
  }

  lemma {:induction false} EndingMeans(s: string, i: nat, name: string, c: nat) returns (m: nat)
    requires i <= |s| && Ending(s, i, name, c)
    ensures var w := EndFrom(s, PosOf(s, i, c), c, name);
      if w < |s| then ClosedBy(s, i, name, m) && w == Nth(s, i, m).l
      else forall k: nat :: !ClosedBy(s, i, name, k)
    decreases |s| - PosOf(s, i, c)
  {
    hide TokenAt, Match, EndFrom, Gt, Slash, NamedBy, ClosedBy, Ending, Called;
    m := c;
    EndRound(s, i, name, c);
    if Goes(s, i, name, c) {
      EndingOn(s, i, name, c);
      m := EndingMeans(s, i, name, c + 1);
    } else {
      EndingStops(s, i, name, c);
    }
  }

  /** The loop goes on past token number c. */
  ghost predicate Goes(s: string, i: nat, name: string, c: nat)
    requires i <= |s|
  {
    Nth(s, i, c).found && (c == 0 ==> Slash(s, i)) && (c == 1 ==> NamedBy(s, i, name)) && !(c >= 1 && Gt(s, i, c))
  }

  lemma EndRound(s: string, i: nat, name: string, c: nat)
    requires i <= |s|
    ensures var w := EndFrom(s, PosOf(s, i, c), c, name);
      if Goes(s, i, name, c)
      then PosOf(s, i, c) < PosOf(s, i, c + 1) && w == EndFrom(s, PosOf(s, i, c + 1), c + 1, name)
      else if Nth(s, i, c).found && (c == 1 ==> NamedBy(s, i, name)) && c >= 1 && Gt(s, i, c) then w == Nth(s, i, c).l
      else w == |s|
    ensures Nth(s, i, c).found ==> Nth(s, i, c).l < |s| || Nth(s, i, c).isString
  {
    hide TokenAt, Match, Called;
    var t := Nth(s, i, c);
    if t.found && !t.isString { MatchCalled(s, t, name); }
  }

  lemma EndingOn(s: string, i: nat, name: string, c: nat)
    requires i <= |s| && Ending(s, i, name, c) && Goes(s, i, name, c)
    ensures Ending(s, i, name, c + 1)
  {
    hide Nth, Gt, Slash, NamedBy;
  }

  lemma EndingStops(s: string, i: nat, name: string, c: nat)
    requires i <= |s| && Ending(s, i, name, c) && !Goes(s, i, name, c)
    ensures if Nth(s, i, c).found && (c == 1 ==> NamedBy(s, i, name)) && c >= 1 && Gt(s, i, c)
            then ClosedBy(s, i, name, c) && Nth(s, i, c).l < |s|
            else forall k: nat :: !ClosedBy(s, i, name, k)
  {
    hide PosOf, TokenAt, Called;
    forall k: nat | ClosedBy(s, i, name, k)
      ensures k == c && Nth(s, i, c).found && (c == 1 ==> NamedBy(s, i, name)) && c >= 1 && Gt(s, i, c)
    {
      LateClose(s, i, name, c, k);
    }
  }

  lemma LateClose(s: string, i: nat, name: string, c: nat, k: nat)
    requires i <= |s| && Ending(s, i, name, c) && !Goes(s, i, name, c) && ClosedBy(s, i, name, k)
    ensures k == c && Nth(s, i, c).found && (c == 1 ==> NamedBy(s, i, name)) && c >= 1 && Gt(s, i, c)
  {
    hide Nth, Gt, Slash, NamedBy;
  }

  /** The name of the element that starts at `x`. */
  ghost function OwnName(doc: string, x: nat): string
    requires x < |doc|
  {
    TextAt(doc, x + 1, 0)
  }

  /** An element with two tags ends at the '>' of an end tag of its own name. */
  ghost predicate OwnEnd(doc: string, e: ElemPos) {
    0 <= e.startL < |doc| && 0 <= e.endL < |doc| && doc[e.endL] == '<' &&
    EndsAt(doc, e.endL + 1, OwnName(doc, e.startL), e.endR)
  }

  /** So ends every element of the index that has two tags. */
  ghost predicate Ended(x: Index) {
    forall t :: t in Ids(x.f) ==> t < |x.a| && (!x.a[t].IsEmptyElement() ==> OwnEnd(x.doc, x.a[t]))
  }

  /** `w` is the place of that '>', if there is one. */
  ghost predicate EndFound(s: string, i: nat, name: string, ok: bool, w: int)
    requires i <= |s|
  {
    forall v: int :: EndsAt(s, i, name, v) <==> ok && v == w
  }

  ghost predicate EndsAt(s: string, i: nat, name: string, w: int)
    requires i <= |s|
  {
    exists m: nat :: ClosedBy(s, i, name, m) && Nth(s, i, m).l == w
  }

  lemma ExactEnds(doc: string, e: ElemPos)
    requires Exact(doc, SpanOf(e)) && !e.IsEmptyElement()
    ensures OwnEnd(doc, e)
  {
    hide EndFrom, EndsAt, OpensAt, NameAt, OwnName;
    ExactLong(doc, SpanOf(e));
    StartsAt(doc, e.endL);
    OwnNameIs(doc, e.startL);
    EndMeans(doc, e.endL + 1, NameAt(doc, e.startL));
  }

  lemma StartsAt(doc: string, x: int)
    requires EndTagStarts(doc, x)
    ensures 0 <= x < |doc| && doc[x] == '<'
  {
  }

  lemma OwnNameIs(doc: string, x: nat)
    requires x < |doc|
    ensures OwnName(doc, x) == NameAt(doc, x)
  {
    hide TokenAt;
    TokenMeans(doc, x + 1);
    assert PosOf(doc, x + 1, 0) == x + 1;
  }

  /** Every element read from a text has an end tag of its own name. */
  lemma OwnEnds(x: Index)
    requires Reads(x)
    ensures Ended(x)
  {
    hide OwnEnd, Exact, Ids;
    forall t | t in Ids(x.f)
      ensures t < |x.a| && (!x.a[t].IsEmptyElement() ==> OwnEnd(x.doc, x.a[t]))
    {
      ReadExact(x.doc, x.a, x.f, t);
      if !x.a[t].IsEmptyElement() { ExactEnds(x.doc, x.a[t]); }
    }
  }

  /** If that name holds no '[' and the tag no string in its place, it is spelled alike. */
  lemma SpelledAlike(doc: string, e: ElemPos)
    requires OwnEnd(doc, e) && Word(doc, e.startL + 1, 0) && !Nth(doc, e.endL + 1, 1).isString
    requires '[' !in OwnName(doc, e.startL)
    ensures TextAt(doc, e.endL + 1, 1) == OwnName(doc, e.startL)
  {
    hide TokenAt, Called, Gt, Slash, Nth;
    WordPlain(doc, e.startL + 1, 0);
    WordPlain(doc, e.endL + 1, 1);
    CalledItself(TextAt(doc, e.endL + 1, 1), OwnName(doc, e.startL));
  }

  /** A plain attribute name is named by exactly that word. */
  lemma NamedAlike(s: string, i: nat, j: nat, attr: string)
    requires i <= |s| && NameOk(attr) && '[' !in attr
    ensures NamesAt(s, i, j, attr) <==> Word(s, i, j) && TextAt(s, i, j) == attr
  {
    hide TokenAt, Called, Nth;
    SpecialMeans();
    if Word(s, i, j) {
      WordPlain(s, i, j);
      CalledItself(TextAt(s, i, j), attr);
    }
  }

  /** A word is not empty, and past its first character it holds no stop character. */
  lemma WordPlain(s: string, i: nat, n: nat)
    requires i <= |s|
    ensures Word(s, i, n) ==>
      Nth(s, i, n).r < |s| && TextAt(s, i, n) != "" && TextAt(s, i, n)[0] == s[Nth(s, i, n).l] &&
      forall k :: 1 <= k < |TextAt(s, i, n)| ==> TextAt(s, i, n)[k] !in STOPS
  {
    hide TokenAt;
    TokenMeans(s, PosOf(s, i, n));
  }

  // ---- instances ----

  /** In <a id="1" idx="2"> the attribute idx is not the one whose name begins its own. */
  lemma NotThePrefix()
    ensures ReadAttrib("<a id=\"1\" idx=\"2\">", "idx") == "2"
  {
    hide Unescape, TokenAt, AttribAt, Match;
    var tag := "<a id=\"1\" idx=\"2\">";
    IdTokens(tag);
    IdxTokens(tag);
    IdMatch(tag);
    AttribRound(tag, 1, "idx", 0, 0);
    AttribRound(tag, 2, "idx", 1, 0);
    AttribRound(tag, 5, "idx", 2, 0);
    AttribRound(tag, 6, "idx", 3, 0);
    AttribRound(tag, 9, "idx", 4, 0);
    AttribRound(tag, 13, "idx", 5, 4);
    AttribRound(tag, 14, "idx", 6, 4);
    assert tag[15..16] == "2";
    Plain("2");
  }

  lemma IdTokens(tag: string)
    requires tag == "<a id=\"1\" idx=\"2\">"
    ensures TokenAt(tag, 1) == Token(true, false, 1, 1, 2) && TokenAt(tag, 2) == Token(true, false, 3, 4, 5)
    ensures TokenAt(tag, 5) == Token(true, false, 5, 5, 6) && TokenAt(tag, 6) == Token(true, true, 7, 7, 9)
  {
    hide TokenAt;
    IdFirst(tag);
    IdNext(tag);
  }

  lemma IdFirst(tag: string)
    requires tag == "<a id=\"1\" idx=\"2\">"
    ensures TokenAt(tag, 1) == Token(true, false, 1, 1, 2) && TokenAt(tag, 2) == Token(true, false, 3, 4, 5)
  {
    ScanIs(tag, 1, Space, false, 1);
    ScanIs(tag, 1, Special, true, 2);
    ScanIs(tag, 2, Space, false, 3);
    ScanIs(tag, 3, Special, true, 5);
  }

  lemma IdNext(tag: string)
    requires tag == "<a id=\"1\" idx=\"2\">"
    ensures TokenAt(tag, 5) == Token(true, false, 5, 5, 6) && TokenAt(tag, 6) == Token(true, true, 7, 7, 9)
  {
    ScanIs(tag, 5, Space, false, 5);
    ScanIs(tag, 5, Special, true, 5);
    ScanIs(tag, 6, Space, false, 6);
    ScanIs(tag, 7, Is('"'), true, 8);
  }

  lemma IdxTokens(tag: string)
    requires tag == "<a id=\"1\" idx=\"2\">"
    ensures TokenAt(tag, 9) == Token(true, false, 10, 12, 13) && TokenAt(tag, 13) == Token(true, false, 13, 13, 14)
    ensures TokenAt(tag, 14) == Token(true, true, 15, 15, 17)
  {
    ScanIs(tag, 9, Space, false, 10);
    ScanIs(tag, 10, Special, true, 13);
    ScanIs(tag, 13, Space, false, 13);
    ScanIs(tag, 13, Special, true, 13);
    ScanIs(tag, 14, Space, false, 14);
    ScanIs(tag, 15, Is('"'), true, 16);
  }

  lemma IdMatch(tag: string)
    requires tag == "<a id=\"1\" idx=\"2\">"
    ensures !Match(tag, Token(true, false, 3, 4, 5), "idx") && Match(tag, Token(true, false, 10, 12, 13), "idx")
  {
    assert tag[10..13] == "idx" && "idx"[..3] == "idx";
  }

  lemma Plain(s: string)
    requires s == "2"
    ensures Unescape(s) == s
  {
    assert s[1..] == "";
  }

  /** An end tag that only begins the element's name does not close it. */
  lemma NotThePart()
    ensures ParseOne("<ab></a>", 0) == Not(Broken)
  {
    hide ParseOne, ParseFull, ParseList, StartFrom, EndFrom, NameAt;
    var doc := "<ab></a>";
    AbOpens(doc);
    OneStep(doc, 0);
    FullStep(doc, 0, 3);
    AbCloses(doc);
  }

  lemma AbOpens(doc: string)
    requires doc == "<ab></a>"
    ensures StartFrom(doc, 0) == Open(0, 3) && NameAt(doc, 0) == "ab"
  {
    hide StartFrom;
    StartStep(doc, 0);
    ScanIs(doc, 0, Is('<'), true, 0);
    ScanIs(doc, 1, Space, false, 1);
    ScanIs(doc, 1, Special, true, 3);
    ScanIs(doc, 3, Is('>'), true, 3);
    assert doc[1..3] == "ab";
  }

  lemma AbCloses(doc: string)
    requires doc == "<ab></a>"
    ensures ParseList(doc, 4) == (Leaf, EndTag(4)) && EndFrom(doc, 5, 0, "ab") == |doc|
  {
    hide StartFrom, TokenAt, ParseOne;
    StartStep(doc, 4);
    OneStep(doc, 4);
    ScanIs(doc, 4, Is('<'), true, 4);
    AbTokens(doc);
    assert doc[6..7] == "a";
    assert EndFrom(doc, 6, 1, "ab") == |doc|;
  }

  lemma AbTokens(doc: string)
    requires doc == "<ab></a>"
    ensures TokenAt(doc, 5) == Token(true, false, 5, 5, 6) && TokenAt(doc, 6) == Token(true, false, 6, 6, 7)
  {
    ScanIs(doc, 5, Space, false, 5);
    ScanIs(doc, 5, Special, true, 5);
    ScanIs(doc, 6, Space, false, 6);
    ScanIs(doc, 6, Special, true, 7);
  }
}
