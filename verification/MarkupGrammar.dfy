/**
 The text that x_ParseElem accepts: a parser as a function of the text, and what it means for a list of elements to be
 exactly the elements of a stretch of text.
 */
module MarkupGrammar {
  import opened MarkupText
  import opened MarkupArena
  import opened MarkupLayout
  import opened MarkupEdits
  import opened MarkupParse

  /** The four offsets of an element. */
  datatype Span = Span(startL: int, startR: int, endL: int, endR: int) {
    predicate IsEmpty() { startR == endL + 1 }
  }

  /** A list of sibling elements with their children: a forest without slots. */
  datatype Trees = Leaf | Tree(s: Span, kids: Trees, rest: Trees)

  /**
   What follows comments, declarations and instructions: no tag, an end tag, a start tag up to its '>', or the endless
   loop.
   */
  datatype Start = NoTag | Loop | Close(x: nat) | Open(x: nat, y: nat)

  function StartFrom(doc: string, next: nat): (r: Start)
    requires next <= |doc|
    ensures r.Open? ==> next <= r.x && r.x + 2 <= r.y < |doc| && doc[r.x] == '<' && doc[r.y] == '>'
    ensures r.Close? ==> next <= r.x < |doc|
    decreases |doc| - next
  {
    hide TokenAt, NodeEnd;
    var x := Scan(doc, next, Is('<'), true);
    if x == |doc| then NoTag
    else
      var t := TokenAt(doc, x + 1);
      if !t.found || t.isString then NoTag
      else if doc[t.l] == '?' || doc[t.l] == '!' then
        var y := NodeEnd(doc, x);
        if y > |doc| then NoTag else if y == x then Loop else StartFrom(doc, y)
      else if doc[t.l] == '/' then Close(x)
      else
        var y := Scan(doc, t.next, Is('>'), true);
        if y == |doc| then NoTag else Open(x, y)
  }

  /**
   The '>' of the end tag whose tokens start at `i`, `count` of them having been read; the end of the text if it is
   none.
   */
  function EndFrom(doc: string, i: nat, count: nat, name: string): (r: nat)
    requires i <= |doc|
    ensures r <= |doc| && (r < |doc| ==> i <= r && doc[r] == '>')
    decreases |doc| - i
  {
    hide Match;
    var t := TokenAt(doc, i);
    if !t.found then |doc|
    else if t.isString then EndFrom(doc, t.next, count + 1, name)
    else if count == 0 && doc[t.l] != '/' then |doc|
    else if count == 1 && !Match(doc, t, name) then |doc|
    else if doc[t.l] == '>' then (if count == 0 then |doc| else t.l)
    else EndFrom(doc, t.next, count + 1, name)
  }

  /** Why a list of elements ends. */
  datatype Stop = EndTag(x: nat) | Broken | Endless

  datatype One = Got(s: Span, kids: Trees) | Not(stop: Stop)

  /** x_ParseElem as a function: the next element from `lo` on. */
  function ParseOne(doc: string, lo: nat): (r: One)
    requires lo <= |doc|
    ensures r.Got? ==> lo <= r.s.startL < r.s.startR <= r.s.endR < |doc|
    ensures r.Not? && r.stop.EndTag? ==> lo <= r.stop.x < |doc|
    decreases |doc| - lo, 0
  {
    hide StartFrom, EndFrom;
    match StartFrom(doc, lo)
    case NoTag => Not(Broken)
    case Loop => Not(Endless)
    case Close(x) => Not(EndTag(x))
    case Open(x, y) =>
      if doc[y - 1] == '/' then Got(Span(x, y, y - 1, y), Leaf) else ParseFull(doc, x, y)
  }

  /** The element whose start tag has been read, with an end tag of its own. */
  function ParseFull(doc: string, x: nat, y: nat): (r: One)
    requires x < y < |doc|
    ensures r.Got? ==> r.s.startL == x && r.s.startR == y < r.s.endL <= r.s.endR < |doc|
    ensures r.Not? ==> !r.stop.EndTag?
    decreases |doc| - y - 1, 2
  {
    hide EndFrom;
    var (kids, stop) := ParseList(doc, y + 1);
    match stop
    case EndTag(z) =>
      var w := EndFrom(doc, z + 1, 0, NameAt(doc, x));
      if w == |doc| then Not(Broken) else Got(Span(x, y, z, w), kids)
    case _ => Not(stop)
  }

  /** Its loop over the children, and what ends it. */
  function ParseList(doc: string, lo: nat): (r: (Trees, Stop))
    requires lo <= |doc|
    ensures r.1.EndTag? ==> lo <= r.1.x < |doc|
    decreases |doc| - lo, 1
  {
    match ParseOne(doc, lo)
    case Not(stop) => (Leaf, stop)
    case Got(s, kids) =>
      var (rest, stop) := ParseList(doc, s.endR + 1);
      (Tree(s, kids, rest), stop)
  }

  // ---- exactly the elements of a stretch of text ----

  /**
   From `lo` to `hi` there are no elements: text, and whole comments, declarations, instructions and CDATA sections.
   */
  ghost predicate Gap(doc: string, lo: nat, hi: nat)
    requires lo <= hi <= |doc|
    decreases hi - lo
  {
    hide NodeEnd;
    var x := Scan(doc, lo, Is('<'), true);
    x >= hi || (x + 1 < |doc| && (doc[x + 1] == '?' || doc[x + 1] == '!') && x < NodeEnd(doc, x) <= hi &&
                Gap(doc, NodeEnd(doc, x), hi))
  }

  /** The offsets of an element are those that the parser would find from its '<' on. */
  ghost predicate Exact(doc: string, s: Span) {
    0 <= s.startL < s.startR < |doc| && OpensAt(doc, s.startL, s.startR) && s.startL + 2 <= s.startR &&
    if s.IsEmpty() then doc[s.endL] == '/' && s.endR == s.startR
    else doc[s.startR - 1] != '/' && s.startR < s.endL < s.endR < |doc| && EndTagStarts(doc, s.endL) &&
         EndFrom(doc, s.endL + 1, 0, NameAt(doc, s.startL)) == s.endR
  }

  /** The elements between `lo` and `hi` are exactly these. */
  ghost predicate Tidy(doc: string, ts: Trees, lo: nat, hi: nat) {
    lo <= hi <= |doc| &&
    match ts
    case Leaf => Gap(doc, lo, hi)
    case Tree(s, k, r) =>
      lo <= s.startL <= s.endR < |doc| && Gap(doc, lo, s.startL) && Exact(doc, s) &&
      (if s.IsEmpty() then k == Leaf else Tidy(doc, k, s.startR + 1, s.endL)) && Tidy(doc, r, s.endR + 1, hi)
  }

  lemma NodeToken(doc: string, x: nat)
    requires x + 1 < |doc| && (doc[x + 1] == '?' || doc[x + 1] == '!')
    ensures TokenAt(doc, x + 1) == Token(true, false, x + 1, x + 1, x + 2)
  {
  }

  /** The parser passes over a gap that ends at a '<', or at the end of the text. */
  lemma {:induction false} StartAfterGap(doc: string, lo: nat, hi: nat)
    requires lo <= hi <= |doc| && Gap(doc, lo, hi) && (hi < |doc| ==> doc[hi] == '<')
    ensures StartFrom(doc, lo) == StartFrom(doc, hi)
    decreases hi - lo
  {
    hide TokenAt, NodeEnd, Scan;
    var x := Scan(doc, lo, Is('<'), true);
    if x >= hi {
      ScanFrom(doc, lo, hi, Is('<'));
    } else {
      NodeToken(doc, x);
      StartAfterGap(doc, NodeEnd(doc, x), hi);
    }
  }

  lemma {:induction false} ScanFrom(doc: string, lo: nat, hi: nat, cs: Class)
    requires lo <= |doc| && lo <= hi <= Scan(doc, lo, cs, true)
    ensures Scan(doc, hi, cs, true) == Scan(doc, lo, cs, true)
    decreases hi - lo
  {
    if lo < hi { ScanFrom(doc, lo + 1, hi, cs); }
  }

  /** What the parser meets after a gap. */
  lemma StartIs(doc: string, x: nat)
    requires x < |doc| && doc[x] == '<'
    ensures EndTagStarts(doc, x) ==> StartFrom(doc, x) == Close(x)
    ensures forall y: nat :: OpensAt(doc, x, y) ==> StartFrom(doc, x) == Open(x, y)
  {
    hide TokenAt, NodeEnd;
  }

  /** Elements that are exactly those up to an end tag are what the parser returns. */
  lemma {:induction false} TidyParses(doc: string, ts: Trees, lo: nat, hi: nat)
    requires Tidy(doc, ts, lo, hi) && EndTagStarts(doc, hi)
    ensures ParseList(doc, lo) == (ts, EndTag(hi))
    decreases ts, 0
  {
    hide StartFrom, EndFrom, Gap, OpensAt, EndTagStarts, NameAt;
    match ts
    case Leaf =>
      EndTagHere(doc, hi);
      StartAfterGap(doc, lo, hi);
      StartIs(doc, hi);
    case Tree(s, k, r) =>
      TidyOne(doc, s, k, lo);
      TidyParses(doc, r, s.endR + 1, hi);
  }

  lemma OpensHere(doc: string, x: nat, y: nat)
    requires OpensAt(doc, x, y)
    ensures x < |doc| && doc[x] == '<' && x + 2 <= y < |doc|
  {
  }

  lemma EndTagHere(doc: string, x: nat)
    requires EndTagStarts(doc, x)
    ensures x < |doc| && doc[x] == '<'
  {
  }

  /** The first element after a gap is what the parser returns. */
  lemma {:induction false} TidyOne(doc: string, s: Span, k: Trees, lo: nat)
    requires lo <= s.startL <= s.endR < |doc| && Gap(doc, lo, s.startL) && Exact(doc, s)
    requires if s.IsEmpty() then k == Leaf else Tidy(doc, k, s.startR + 1, s.endL)
    ensures ParseOne(doc, lo) == Got(s, k)
    decreases k, 1
  {
    hide StartFrom, EndFrom, Gap, EndTagStarts, NameAt, OpensAt;
    OpensHere(doc, s.startL, s.startR);
    StartAfterGap(doc, lo, s.startL);
    StartIs(doc, s.startL);
    if !s.IsEmpty() { TidyParses(doc, k, s.startR + 1, s.endL); }
  }

  // ---- the other way: what the parser returns is exactly what is there ----

  lemma {:induction false} StartGap(doc: string, lo: nat)
    requires lo <= |doc|
    ensures var st := StartFrom(doc, lo);
      (st.Open? ==> Gap(doc, lo, st.x) && OpensAt(doc, st.x, st.y)) &&
      (st.Close? ==> Gap(doc, lo, st.x) && EndTagStarts(doc, st.x))
    decreases |doc| - lo
  {
    hide TokenAt, NodeEnd;
    var x := Scan(doc, lo, Is('<'), true);
    if x < |doc| {
      var t := TokenAt(doc, x + 1);
      if t.found && !t.isString && (doc[t.l] == '?' || doc[t.l] == '!') && x < NodeEnd(doc, x) <= |doc| {
        NodeStarts(doc, x);
        StartGap(doc, NodeEnd(doc, x));
      }
    }
  }

  lemma NodeStarts(doc: string, x: nat)
    requires x < |doc| && x < NodeEnd(doc, x) <= |doc|
    ensures x + 1 < |doc| && (doc[x + 1] == '?' || doc[x + 1] == '!')
  {
  }

  lemma {:induction false} ParsedTidy(doc: string, lo: nat)
    requires lo <= |doc|
    ensures var (ts, stop) := ParseList(doc, lo);
      stop.EndTag? ==> Tidy(doc, ts, lo, stop.x) && EndTagStarts(doc, stop.x)
    decreases |doc| - lo, 1
  {
    hide StartFrom, EndFrom, Gap, EndTagStarts, OpensAt, NameAt, Exact;
    OneTidy(doc, lo);
    var r := ParseOne(doc, lo);
    if r.Got? { ParsedTidy(doc, r.s.endR + 1); }
  }

  /** The next element, and what lies before it. */
  ghost predicate TidyNext(doc: string, lo: nat, s: Span, k: Trees) {
    lo <= s.startL <= |doc| && Gap(doc, lo, s.startL) && Exact(doc, s) &&
    if s.IsEmpty() then k == Leaf else Tidy(doc, k, s.startR + 1, s.endL)
  }

  lemma {:induction false} OneTidy(doc: string, lo: nat)
    requires lo <= |doc|
    ensures var r := ParseOne(doc, lo);
      match r
      case Got(s, k) => TidyNext(doc, lo, s, k)
      case Not(stop) => stop.EndTag? ==> Gap(doc, lo, stop.x) && EndTagStarts(doc, stop.x)
    decreases |doc| - lo, 0
  {
    hide StartFrom, EndFrom, Gap, NameAt, TidyNext, OpensAt, EndTagStarts, Tidy;
    StartGap(doc, lo);
    var st := StartFrom(doc, lo);
    if st.Open? {
      if doc[st.y - 1] == '/' {
        EmptyIs(doc, lo, st.x, st.y);
      } else {
        ParsedTidy(doc, st.y + 1);
        var (k, stop) := ParseList(doc, st.y + 1);
        if stop.EndTag? { FullIs(doc, lo, st.x, st.y, k, stop.x); }
      }
    }
  }

  lemma EmptyIs(doc: string, lo: nat, x: nat, y: nat)
    requires lo <= x <= |doc| && Gap(doc, lo, x) && OpensAt(doc, x, y) && x + 2 <= y < |doc| && doc[y - 1] == '/'
    ensures TidyNext(doc, lo, Span(x, y, y - 1, y), Leaf)
  {
    hide OpensAt, Gap, Tidy;
  }

  lemma FullIs(doc: string, lo: nat, x: nat, y: nat, k: Trees, z: nat)
    requires lo <= x <= |doc| && Gap(doc, lo, x) && OpensAt(doc, x, y) && x + 2 <= y < |doc| && doc[y - 1] != '/'
    requires y < z && Tidy(doc, k, y + 1, z) && EndTagStarts(doc, z) && z < |doc|
    ensures var w := EndFrom(doc, z + 1, 0, NameAt(doc, x)); w < |doc| ==> TidyNext(doc, lo, Span(x, y, z, w), k)
  {
    hide OpensAt, Gap, Tidy, EndTagStarts, EndFrom, NameAt;
  }

  // ---- the elements that the arena holds ----

  function SpanOf(e: ElemPos): Span {
    Span(e.startL, e.startR, e.endL, e.endR)
  }

  /** The forest without its slot numbers. */
  ghost function TreesOf(a: seq<ElemPos>, f: Forest): Trees {
    match f
    case Nil => Leaf
    case Cons(i, k, r) => Tree(SpanOf(if i < |a| then a[i] else CLEARED), TreesOf(a, k), TreesOf(a, r))
  }

  lemma {:induction false} TreesKept(a: seq<ElemPos>, b: seq<ElemPos>, f: Forest)
    requires Moved(a, b, Ids(f), 0, 0)
    ensures TreesOf(b, f) == TreesOf(a, f)
  {
    match f
    case Nil =>
    case Cons(i, k, r) =>
      TreesKept(a, b, k);
      TreesKept(a, b, r);
  }

  ghost function AppendTrees(ts: Trees, us: Trees): Trees {
    match ts
    case Leaf => us
    case Tree(s, k, r) => Tree(s, k, AppendTrees(r, us))
  }

  lemma {:induction false} TreesOfAppend(a: seq<ElemPos>, f: Forest, g: Forest)
    ensures TreesOf(a, Append(f, g)) == AppendTrees(TreesOf(a, f), TreesOf(a, g))
  {
    match f
    case Nil =>
    case Cons(i, k, r) => TreesOfAppend(a, r, g);
  }

  lemma {:induction false} AppendAssoc(ts: Trees, us: Trees, vs: Trees)
    ensures AppendTrees(AppendTrees(ts, us), vs) == AppendTrees(ts, AppendTrees(us, vs)) && AppendTrees(ts, Leaf) == ts
  {
    match ts
    case Leaf =>
    case Tree(s, k, r) => AppendAssoc(r, us, vs);
  }

  /** What x_ParseElem answers is what the parser function says, and the arena holds the element that it found. */
  ghost predicate Answers(a: seq<ElemPos>, r: Parsed, kids: Forest, parent: nat, one: One)
    requires parent < |a|
  {
    match one
    case Got(s, k) => r.Elem? && r.i < |a| && SpanOf(a[r.i]) == s && TreesOf(a, kids) == k
    case Not(EndTag(x)) => r.Absent? && a[parent].endL == x
    case Not(Broken) => r.Malformed?
    case Not(Endless) => r.Stuck?
  }

  lemma AnswersNot(a: seq<ElemPos>, r: Parsed, kids: Forest, parent: nat, stop: Stop)
    requires parent < |a| && if stop.EndTag? then r.Absent? && a[parent].endL == stop.x
                             else if stop.Broken? then r.Malformed? else r.Stuck?
    ensures Answers(a, r, kids, parent, Not(stop))
  {
  }

  lemma AnswersGot(a: seq<ElemPos>, i: nat, kids: Forest, parent: nat)
    requires parent < |a| && i < |a|
    ensures Answers(a, Elem(i), kids, parent, Got(SpanOf(a[i]), TreesOf(a, kids)))
  {
  }

  /** The children parsed so far are the first ones that the parser function finds. */
  ghost predicate Collected(doc: string, a: seq<ElemPos>, kids: Forest, lo: nat, at: int) {
    lo <= at <= |doc| &&
    ParseList(doc, lo) == (AppendTrees(TreesOf(a, kids), ParseList(doc, at).0), ParseList(doc, at).1)
  }

  lemma CollectNone(doc: string, a: seq<ElemPos>, lo: nat)
    requires lo <= |doc|
    ensures Collected(doc, a, Nil, lo, lo)
  {
    hide ParseList;
  }

  /** One more child. */
  lemma CollectNext(doc: string, a: seq<ElemPos>, b: seq<ElemPos>, kids: Forest, lo: nat, at: int, inner: nat,
                    k: Forest)
    requires Collected(doc, a, kids, lo, at) && Moved(a, b, Ids(kids), 0, 0) && inner < |b|
    requires ParseOne(doc, at) == Got(SpanOf(b[inner]), TreesOf(b, k))
    ensures Collected(doc, b, Append(kids, Cons(inner, k, Nil)), lo, b[inner].endR + 1)
  {
    hide ParseOne;
    TreesKept(a, b, kids);
    var one := Cons(inner, k, Nil);
    TreesOfAppend(b, kids, one);
    AppendAssoc(TreesOf(b, kids), TreesOf(b, one), ParseList(doc, b[inner].endR + 1).0);
  }

  /** No more children. */
  lemma CollectEnd(doc: string, a: seq<ElemPos>, kids: Forest, lo: nat, at: int)
    requires Collected(doc, a, kids, lo, at) && ParseOne(doc, at).Not?
    ensures ParseList(doc, lo) == (TreesOf(a, kids), ParseOne(doc, at).stop)
  {
    hide ParseOne;
    AppendAssoc(TreesOf(a, kids), Leaf, Leaf);
  }

  /**
   The parser's loop is endless exactly if nothing but a gap comes before a '?' or '!' that white space separates from
   its '<'.
   */
  lemma {:induction false} LoopsExactly(doc: string, lo: nat)
    requires lo <= |doc|
    ensures StartFrom(doc, lo).Loop? <==> exists x :: lo <= x < |doc| && Gap(doc, lo, x) && StuckAt(doc, x)
  {
    hide StuckAt, Gap, StartFrom;
    if StartFrom(doc, lo).Loop? {
      var x := LoopStuck(doc, lo);
    } else if x :| lo <= x < |doc| && Gap(doc, lo, x) && StuckAt(doc, x) {
      StuckLoops(doc, lo, x);
    }
  }

  lemma {:induction false} LoopStuck(doc: string, lo: nat) returns (x: nat)
    requires lo <= |doc| && StartFrom(doc, lo).Loop?
    ensures lo <= x < |doc| && Gap(doc, lo, x) && StuckAt(doc, x)
    decreases |doc| - lo
  {
    hide TokenAt, NodeEnd, StuckAt;
    x := Scan(doc, lo, Is('<'), true);
    if NodeEnd(doc, x) == x {
      StuckOnSpace(doc, x);
    } else {
      NodeStarts(doc, x);
      var y := NodeEnd(doc, x);
      x := LoopStuck(doc, y);
    }
  }

  lemma StuckLoops(doc: string, lo: nat, x: nat)
    requires lo <= x < |doc| && Gap(doc, lo, x) && StuckAt(doc, x)
    ensures StartFrom(doc, lo).Loop?
  {
    hide TokenAt, NodeEnd, Gap;
    StartAfterGap(doc, lo, x);
    StuckOnSpace(doc, x);
  }

  /**
   A way into a text: whole elements `ts`, then either the node at `x`, or a start tag from `x` to `y` and a way into
   the content behind it.
   */
  datatype Way = Here(ts: Trees, x: nat) | Within(ts: Trees, x: nat, y: nat, inner: Way) {
    ghost function Depth(): nat { if Here? then 0 else 1 + inner.Depth() }
  }

  /** The way leads from `lo` to a '?' or '!' that white space separates from its '<', through open elements only. */
  ghost predicate StuckBelow(doc: string, w: Way, lo: nat) {
    Tidy(doc, w.ts, lo, w.x) &&
    match w
    case Here(_, x) => StuckAt(doc, x)
    case Within(_, x, y, inner) => OpensAt(doc, x, y) && doc[y - 1] != '/' && StuckBelow(doc, inner, y + 1)
  }

  /** x_ParseElem loops without end exactly if such a way begins with its element, or with the node itself. */
  lemma {:induction false} EndlessExactly(doc: string, lo: nat)
    requires lo <= |doc|
    ensures ParseOne(doc, lo) == Not(Endless) <==> exists w: Way :: w.ts == Leaf && StuckBelow(doc, w, lo)
  {
    hide ParseOne, StuckBelow;
    if ParseOne(doc, lo) == Not(Endless) {
      var w := WayOne(doc, lo);
    } else if w: Way :| w.ts == Leaf && StuckBelow(doc, w, lo) {
      StuckParses(doc, w, lo);
    }
  }

  lemma {:induction false} WayOne(doc: string, lo: nat) returns (w: Way)
    requires lo <= |doc| && ParseOne(doc, lo) == Not(Endless)
    ensures w.ts == Leaf && StuckBelow(doc, w, lo)
    decreases |doc| - lo, 0
  {
    hide StartFrom, EndFrom, Gap, OpensAt, NameAt, StuckAt;
    StartGap(doc, lo);
    match StartFrom(doc, lo)
    case Loop =>
      var x := LoopStuck(doc, lo);
      w := Here(Leaf, x);
    case Open(x, y) =>
      w := WayList(doc, y + 1);
      w := Within(Leaf, x, y, w);
  }

  lemma {:induction false} WayList(doc: string, lo: nat) returns (w: Way)
    requires lo <= |doc| && ParseList(doc, lo).1 == Endless
    ensures StuckBelow(doc, w, lo)
    decreases |doc| - lo, 1
  {
    hide Gap, Exact, ParseOne, StuckAt, OpensAt;
    OneTidy(doc, lo);
    match ParseOne(doc, lo)
    case Not(_) => w := WayOne(doc, lo);
    case Got(s, k) =>
      w := WayList(doc, s.endR + 1);
      w := w.(ts := Tree(s, k, w.ts));
  }

  lemma {:induction false} StuckParses(doc: string, w: Way, lo: nat)
    requires StuckBelow(doc, w, lo)
    ensures lo <= |doc| && ParseList(doc, lo).1 == Endless && (w.ts == Leaf ==> ParseOne(doc, lo) == Not(Endless))
    decreases w.Depth(), w.ts
  {
    hide Gap, Exact, StartFrom, EndFrom, OpensAt, StuckAt, ParseFull, NameAt;
    match w.ts
    case Tree(s, k, r) =>
      TidyOne(doc, s, k, lo);
      StuckParses(doc, w.(ts := r), s.endR + 1);
    case Leaf =>
      match w
      case Here(_, x) =>
        StuckInside(doc, x);
        StuckLoops(doc, lo, x);
      case Within(_, x, y, inner) =>
        StuckParses(doc, inner, y + 1);
        OpensHere(doc, x, y);
        StartAfterGap(doc, lo, x);
        StartIs(doc, x);
        FullStep(doc, x, y);
  }

  lemma StuckInside(doc: string, x: nat)
    requires StuckAt(doc, x)
    ensures x < |doc|
  {
  }

  /** The shortest such text. */
  lemma LoopExample()
    ensures StartFrom("< ?>", 0) == Loop && ParseOne("< ?>", 0) == Not(Endless)
  {
    hide Gap, StartFrom;
    var doc := "< ?>";
    assert Gap(doc, 0, 0) by { EmptyGap(doc, 0); }
    assert StuckAt(doc, 0) by { StuckHere(); }
    StuckLoops(doc, 0, 0);
  }

  lemma EmptyGap(doc: string, lo: nat)
    requires lo <= |doc|
    ensures Gap(doc, lo, lo)
  {
  }

  lemma StuckHere()
    ensures StuckAt("< ?>", 0)
  {
    var doc := "< ?>";
    assert Scan(doc, 1, Space, false) == 2 && doc[2] == '?';
  }

  // ---- the parser's steps ----

  lemma {:induction false} EndAfterName(doc: string, i: nat, count: nat, name: string)
    requires i <= |doc| && count >= 2
    ensures var w := EndFrom(doc, i, count, name); w < |doc| ==> i <= w
  {
  }

  /** A tag that the end-tag loop accepts closes the element. */
  lemma EndCloses(doc: string, x: nat, name: string)
    requires EndTagStarts(doc, x)
    ensures var w := EndFrom(doc, x + 1, 0, name); w < |doc| ==> ClosesAt(doc, x, w, name)
  {
    hide Match;
    var w := EndFrom(doc, x + 1, 0, name);
    var t := TokenAt(doc, x + 1);
    assert w == EndFrom(doc, t.next, 1, name);
    var u := TokenAt(doc, t.next);
    if w < |doc| {
      assert u.found;
      if w != u.l || u.isString { EndAfterName(doc, u.next, 2, name); }
    }
  }

  lemma ClosedKeeps(doc: string, a: seq<ElemPos>, b: seq<ElemPos>, i: nat, free: nat, kids: Forest)
    requires ContentOk(doc, a, i, free, kids) && |b| == |a| &&
             forall j :: 0 <= j < |a| ==> b[j] == if j == i then a[j].(endR := b[j].endR) else a[j]
    ensures TreesOf(b, kids) == TreesOf(a, kids)
  {
    hide Laid, Linked, Uniq;
    TreesKept(a, b, kids);
  }

  lemma ContentSame(doc: string, a: seq<ElemPos>, b: seq<ElemPos>, i: nat, free: nat, kids: Forest)
    requires ContentOk(doc, a, i, free, kids) && Untouched(a, b, free, i)
    ensures Moved(a, b, Ids(kids), 0, 0)
  {
    hide Laid, Linked, Uniq;
  }

  /** The next child is linked in, and the end of the children moves behind it. */
  lemma StepCollected(doc: string, a: seq<ElemPos>, b: seq<ElemPos>, c: seq<ElemPos>, i: nat, free: nat, free': nat,
                      kids: Forest, prev: nat, inner: nat, k: Forest, lo: nat)
    requires i < |a| && Collected(doc, a, kids, lo, a[i].endL) && Moved(a, b, Ids(kids), 0, 0)
    requires ContentTo(doc, b, i, free, kids, a[i].endL) && inner == free &&
             NewElem(doc, b, inner, free', k, a[i].endL, i) && prev < |b|
    requires 0 <= a[i].endL <= |doc| && Answers(b, Elem(inner), k, i, ParseOne(doc, a[i].endL))
    requires c == (if prev != 0 then b[prev := b[prev].(next := inner)] else b)
                  [i := b[i].(child := if prev != 0 then b[i].child else inner, endL := b[inner].endR + 1)]
    ensures Collected(doc, c, Append(kids, Cons(inner, k, Nil)), lo, c[i].endL)
  {
    hide ParseOne, ParseList, Collected, Append, NewElem, ContentTo;
    var g := Append(kids, Cons(inner, k, Nil));
    StepIds(doc, b, i, free, free', kids, inner, k, a[i].endL);
    CollectNext(doc, a, b, kids, lo, a[i].endL, inner, k);
    StepOffsets(b, c, i, prev, inner, Ids(g));
    CollectKept(doc, b, c, g, lo, b[inner].endR + 1);
  }

  lemma CollectKept(doc: string, a: seq<ElemPos>, b: seq<ElemPos>, f: Forest, lo: nat, at: int)
    requires Collected(doc, a, f, lo, at) && Moved(a, b, Ids(f), 0, 0)
    ensures Collected(doc, b, f, lo, at)
  {
    hide ParseList;
    TreesKept(a, b, f);
  }

  lemma NoTrees(a: seq<ElemPos>)
    ensures TreesOf(a, Nil) == Leaf
  {
  }

  lemma NoText()
    ensures ParseOne("", 0) == Not(Broken)
  {
  }

  lemma RootTrees(doc: string, a: seq<ElemPos>, b: seq<ElemPos>, i: nat, free: nat, kids: Forest)
    requires NewElem(doc, a, i, free, kids, 0, 0) && 0 < i && |a| > 0 && b == a[0 := a[0].(child := i)]
    ensures TreesOf(b, Cons(i, kids, Nil)) == Tree(SpanOf(a[i]), TreesOf(a, kids), Leaf)
  {
    hide Laid, Linked, Uniq;
    var f := Cons(i, kids, Nil);
    TreesKept(a, b, f);
    assert TreesOf(a, Nil) == Leaf;
  }

  lemma StartStep(doc: string, next: nat)
    requires next <= |doc|
    ensures var x := Scan(doc, next, Is('<'), true);
      if x == |doc| then StartFrom(doc, next) == NoTag
      else
        var t := TokenAt(doc, x + 1);
        if !t.found || t.isString then StartFrom(doc, next) == NoTag
        else if doc[t.l] == '?' || doc[t.l] == '!' then
          var y := NodeEnd(doc, x);
          StartFrom(doc, next) == if y > |doc| then NoTag else if y == x then Loop else StartFrom(doc, y)
        else if doc[t.l] == '/' then StartFrom(doc, next) == Close(x)
        else
          var y := Scan(doc, t.next, Is('>'), true);
          StartFrom(doc, next) == if y == |doc| then NoTag else Open(x, y)
  {
    hide TokenAt, NodeEnd, Scan;
  }

  lemma OneStep(doc: string, lo: nat)
    requires lo <= |doc|
    ensures match StartFrom(doc, lo)
            case NoTag => ParseOne(doc, lo) == Not(Broken)
            case Loop => ParseOne(doc, lo) == Not(Endless)
            case Close(x) => ParseOne(doc, lo) == Not(EndTag(x))
            case Open(x, y) => ParseOne(doc, lo) == if doc[y - 1] == '/' then Got(Span(x, y, y - 1, y), Leaf)
                                                    else ParseFull(doc, x, y)
  {
    hide StartFrom, ParseFull;
  }

  lemma FullStep(doc: string, x: nat, y: nat)
    requires x < y < |doc|
    ensures match ParseList(doc, y + 1)
            case (kids, EndTag(z)) =>
              var w := EndFrom(doc, z + 1, 0, NameAt(doc, x));
              ParseFull(doc, x, y) == if w == |doc| then Not(Broken) else Got(Span(x, y, z, w), kids)
            case (_, stop) => ParseFull(doc, x, y) == Not(stop)
  {
    hide EndFrom, ParseList, NameAt;
  }

  lemma ContentBound(doc: string, a: seq<ElemPos>, i: nat, free: nat, kids: Forest)
    requires ContentOk(doc, a, i, free, kids)
    ensures i < free <= |a|
  {
    hide Laid, Linked, Uniq;
  }
}
