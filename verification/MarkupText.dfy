/**
 The character-level routines of CMarkupSTL.  A document is a string without NUL, so the
 terminating NUL of the C string is position |doc|.
 */
module MarkupText {

  /** The character classes the scanners stop at. */
  datatype Class = Space | Special | Is(c: char)

  predicate IsSpace(c: char) { c == ' ' || c == '\t' || c == '\n' || c == '\r' }

  predicate In(c: char, cs: Class) {
    match cs
    case Space => IsSpace(c)
    case Special =>
      IsSpace(c) || c == '<' || c == '>' || c == '=' || c == '\\' || c == '/' || c == '?' || c == '!'
    case Is(d) => c == d
  }

  predicate IsQuote(c: char) { c == '"' || c == '\'' }

  /** The first position from `i` on whose membership in `cs` is `want`, or the end of `s`. */
  function Scan(s: string, i: nat, cs: Class, want: bool): (r: nat)
    requires i <= |s|
    ensures i <= r <= |s|
    ensures r < |s| ==> In(s[r], cs) == want
    ensures forall k :: i <= k < r ==> In(s[k], cs) != want
    decreases |s| - i
  {
    if i == |s| || In(s[i], cs) == want then i else Scan(s, i + 1, cs, want)
  }

  /** TokenPos: the token is s[l..r+1] and the next scan starts at `next`. */
  datatype Token = Token(found: bool, isString: bool, l: nat, r: int, next: nat)
  {
    function Plus(d: int): Token
      requires l + d >= 0 && next + d >= 0
    {
      Token(found, isString, l + d, r + d, next + d)
    }
  }

  /** The token that starts at `b`: up to the closing quote, up to a special character, or one special character. */
  function TokenFrom(s: string, b: nat): (t: Token)
    requires b < |s|
    ensures t.found && b <= t.l <= t.next <= |s| && b < t.next && t.l - 1 <= t.r < t.next
    ensures !t.isString ==> t.l == b && t.r == t.next - 1
  {
    if IsQuote(s[b]) then
      var e := Scan(s, b + 1, Is(s[b]), true);
      Token(true, true, b + 1, e - 1, if e < |s| then e + 1 else e)
    else
      var e := Scan(s, b, Special, true);
      if e == b then Token(true, false, b, b, b + 1) else Token(true, false, b, e - 1, e)
  }

  /** The token that x_FindToken finds from `i`. */
  function TokenAt(s: string, i: nat): (t: Token)
    requires i <= |s|
    ensures i <= t.l <= t.next <= |s| && t.l - 1 <= t.r <= t.next
    ensures t.found ==> i < t.next && t.r < t.next && (!t.isString ==> t.l <= t.r == t.next - 1)
  {
    var b := Scan(s, i, Space, false);
    if b == |s| then Token(false, false, b, b, b) else TokenFrom(s, b)
  }

  /** x_FindChar */
  method FindChar(doc: string, start: nat, c: char) returns (found: bool, nChar: nat)
    requires start <= |doc|
    ensures nChar == Scan(doc, start, Is(c), true) && found == (nChar < |doc|)
  {
    nChar := start;
    while nChar < |doc| && doc[nChar] != c
      invariant start <= nChar <= |doc| && Scan(doc, start, Is(c), true) == Scan(doc, nChar, Is(c), true)
    {
      nChar := nChar + 1;
    }
    found := nChar < |doc|;
  }

  /** x_FindToken */
  method FindToken(doc: string, start: nat) returns (token: Token)
    requires start <= |doc|
    ensures token == TokenAt(doc, start)
  {
    var nChar := start;
    while nChar < |doc| && In(doc[nChar], Space)
      invariant start <= nChar <= |doc| && Scan(doc, start, Space, false) == Scan(doc, nChar, Space, false)
    {
      nChar := nChar + 1;
    }
    if nChar == |doc| { return Token(false, false, nChar, nChar, nChar); }
    var first := doc[nChar];
    if IsQuote(first) {
      nChar := nChar + 1;
      var nL := nChar;
      var closed;
      closed, nChar := FindChar(doc, nChar, first);
      token := Token(true, true, nL, nChar - 1, if closed then nChar + 1 else nChar);
    } else {
      var nL := nChar;
      while nChar < |doc| && !In(doc[nChar], Special)
        invariant nL <= nChar <= |doc| && Scan(doc, nL, Special, true) == Scan(doc, nChar, Special, true)
      {
        nChar := nChar + 1;
      }
      if nChar == nL { nChar := nChar + 1; }
      token := Token(true, false, nL, nChar - 1, nChar);
    }
  }

  /** TokenPos::Match: strncmp over the token's length, then the name must end or be cut by " =/[". */
  predicate Match(s: string, t: Token, name: string)
    requires t.l <= t.r + 1 <= |s|
  {
    var n := t.r - t.l + 1;
    n <= |name| && s[t.l..t.r + 1] == name[..n] && (n == |name| || name[n] in {' ', '=', '/', '['})
  }

  /** Scanning a window of `s` is scanning `s`, stopped at the window's end. */
  lemma ScanWindow(s: string, b: nat, m: nat, i: nat, cs: Class, want: bool)
    requires b <= i <= m <= |s|
    ensures var r := Scan(s, i, cs, want);
      Scan(s[b..m], i - b, cs, want) + b == if r <= m then r else m
  {
    var r, w := Scan(s, i, cs, want), Scan(s[b..m], i - b, cs, want) + b;
    assert forall k :: 0 <= k < m - b ==> s[b..m][k] == s[b + k];
  }

  lemma TokenFromWindow(s: string, b: nat, m: nat, x: nat)
    requires b <= x < m <= |s|
    requires TokenFrom(s, x).next <= m || TokenFrom(s[b..m], x - b).next < m - b
    ensures TokenFrom(s, x) == TokenFrom(s[b..m], x - b).Plus(b)
  {
    hide Scan, IsQuote;
    assert s[b..m][x - b] == s[x];
    if IsQuote(s[x]) {
      ScanWindow(s, b, m, x + 1, Is(s[x]), true);
    } else {
      ScanWindow(s, b, m, x, Special, true);
    }
  }

  /** A token that ends inside a window is the same token when only the window is seen, and conversely. */
  lemma TokenWindow(s: string, b: nat, m: nat, i: nat)
    requires b <= i <= m <= |s|
    requires var t, u := TokenAt(s, i), TokenAt(s[b..m], i - b);
      (t.found && t.next <= m) || (u.found && u.next < m - b)
    ensures TokenAt(s, i) == TokenAt(s[b..m], i - b).Plus(b)
  {
    hide Scan, TokenFrom;
    ScanWindow(s, b, m, i, Space, false);
    TokenFromWindow(s, b, m, Scan(s, i, Space, false));
  }

  /** x_TextToDoc for one character. */
  function Escape1(c: char, attrib: bool): string {
    if c == '<' then "&lt;" else if c == '&' then "&amp;" else if c == '>' then "&gt;"
    else if attrib && c == '\'' then "&apos;" else if attrib && c == '"' then "&quot;" else [c]
  }

  function Escape(text: string, attrib: bool): string {
    if text == [] then [] else Escape1(text[0], attrib) + Escape(text[1..], attrib)
  }

  /** The character an escape code at the front of `s` stands for, and the code's length; (s[0], 1) if there is none. */
  function Unescape1At(s: string): (r: (char, nat))
    requires s != []
    ensures 1 <= r.1 <= |s|
  {
    if "&lt;" <= s then ('<', 4) else if "&amp;" <= s then ('&', 5) else if "&gt;" <= s then ('>', 4)
    else if "&apos;" <= s then ('\'', 6) else if "&quot;" <= s then ('"', 6) else (s[0], 1)
  }

  /** The text that escaped text stands for. */
  function Unescape(s: string): string
    decreases |s|
  {
    if s == [] then [] else var (c, n) := Unescape1At(s); [c] + Unescape(s[n..])
  }

  lemma SliceTail(s: string, x: nat, y: nat, n: nat)
    requires x + n <= y <= |s|
    ensures s[x..y][n..] == s[x + n..y]
  {
    var u, w := s[x..y][n..], s[x + n..y];
    forall k | 0 <= k < |u| ensures u[k] == w[k] { assert u[k] == s[x..y][n + k] == s[x + n + k] == w[k]; }
  }

  /** x_TextFromDoc over doc[nLeft..nEnd] */
  method TextFromDoc(doc: string, nLeft: nat, nEnd: nat) returns (r: string)
    requires nLeft <= nEnd <= |doc|
    ensures r == Unescape(doc[nLeft..nEnd])
  {
    hide Unescape1At;
    r := "";
    var nChar := nLeft;
    while nChar < nEnd
      invariant nLeft <= nChar <= nEnd && Unescape(doc[nLeft..nEnd]) == r + Unescape(doc[nChar..nEnd])
    {
      var (c, n) := Unescape1At(doc[nChar..nEnd]);
      SliceTail(doc, nChar, nEnd, n);
      r := r + [c];
      nChar := nChar + n;
    }
  }

  lemma {:induction false} EscapeSnoc(text: string, c: char, attrib: bool)
    ensures Escape(text + [c], attrib) == Escape(text, attrib) + Escape1(c, attrib)
  {
    if text == [] {
      assert text + [c] == [c] && [c][1..] == [];
      assert Escape([c], attrib) == Escape1(c, attrib) + [];
    } else {
      assert (text + [c])[1..] == text[1..] + [c];
      EscapeSnoc(text[1..], c, attrib);
    }
  }

  /** x_TextToDoc */
  method TextToDoc(text: string, attrib: bool) returns (r: string)
    ensures r == Escape(text, attrib)
  {
    r := "";
    for i := 0 to |text|
      invariant r == Escape(text[..i], attrib)
    {
      EscapeSnoc(text[..i], text[i], attrib);
      assert text[..i + 1] == text[..i] + [text[i]];
      r := r + Escape1(text[i], attrib);
    }
    assert text[..|text|] == text;
  }

  lemma Unescape1(c: char, attrib: bool, rest: string)
    ensures var e := Escape1(c, attrib); Unescape1At(e + rest) == (c, |e|)
  {
    var e := Escape1(c, attrib);
    var s := e + rest;
    assert s[0] == e[0];
    if |e| > 1 { assert s[1] == e[1] && s[2] == e[2] && e <= s; }
  }

  lemma {:induction false} EscapeRoundTrip(text: string, attrib: bool)
    ensures Unescape(Escape(text, attrib)) == text
  {
    if text != [] {
      hide Unescape1At, Escape1;
      var e, rest := Escape1(text[0], attrib), Escape(text[1..], attrib);
      Unescape1(text[0], attrib, rest);
      assert (e + rest)[|e|..] == rest;
      EscapeRoundTrip(text[1..], attrib);
    }
  }

  /** Escaped text cannot open or close a tag, nor, as an attribute value, a string. */
  lemma {:induction false} EscapeClean(text: string, attrib: bool, c: char)
    requires c in {'<', '>'} || (attrib && IsQuote(c))
    ensures c !in Escape(text, attrib)
  {
    hide Escape1;
    if text != [] {
      EscapeClean(text[1..], attrib, c);
      CharClean(text[0], attrib, c);
    }
  }

  lemma CharClean(x: char, attrib: bool, c: char)
    requires c in {'<', '>'} || (attrib && IsQuote(c))
    ensures c !in Escape1(x, attrib)
  {
  }

  lemma {:induction false} EscapePlus(a: string, b: string, attrib: bool)
    ensures Escape(a + b, attrib) == Escape(a, attrib) + Escape(b, attrib)
  {
    hide Escape1;
    if a == [] {
      assert a + b == b && Escape(a, attrib) + Escape(b, attrib) == Escape(b, attrib);
    } else {
      assert (a + b)[1..] == a[1..] + b;
      EscapePlus(a[1..], b, attrib);
    }
  }

  /** The five characters have their own codes, the last two in attribute values only; all others stay. */
  lemma EscapeMeans(a: string, c: char, b: string, attrib: bool)
    ensures Escape(a + [c] + b, attrib) ==
            Escape(a, attrib) + (match c
                                 case '<' => "&lt;"
                                 case '&' => "&amp;"
                                 case '>' => "&gt;"
                                 case '\'' => if attrib then "&apos;" else "'"
                                 case '"' => if attrib then "&quot;" else "\""
                                 case _ => [c]) + Escape(b, attrib)
  {
    EscapePlus(a + [c], b, attrib);
    EscapeSnoc(a, c, attrib);
  }

  /** And so are they read: a code as its character, anything else as it is. */
  lemma UnescapeMeans(s: string)
    ensures Unescape("&lt;" + s) == "<" + Unescape(s) && Unescape("&amp;" + s) == "&" + Unescape(s)
    ensures Unescape("&gt;" + s) == ">" + Unescape(s) && Unescape("&apos;" + s) == "'" + Unescape(s)
    ensures Unescape("&quot;" + s) == "\"" + Unescape(s)
  {
    CodeRead("&lt;", '<', s);
    CodeRead("&amp;", '&', s);
    CodeRead("&gt;", '>', s);
    CodeRead("&apos;", '\'', s);
    CodeRead("&quot;", '"', s);
  }

  lemma CodeRead(code: string, c: char, s: string)
    requires code == Escape1(c, true) && |code| > 1
    ensures Unescape(code + s) == [c] + Unescape(s)
  {
    hide Escape1, Unescape1At;
    Unescape1(c, true, s);
    assert (code + s)[|code|..] == s;
  }

  lemma PlainRead(s: string)
    requires s != "" && !("&lt;" <= s || "&amp;" <= s || "&gt;" <= s || "&apos;" <= s || "&quot;" <= s)
    ensures Unescape(s) == [s[0]] + Unescape(s[1..])
  {
  }
}
