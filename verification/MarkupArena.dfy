/**
 The element-position arena of CMarkupSTL: an array of records whose parent, child and
 next fields thread a forest.  A `Forest` is the shape those links spell out, a `Path` is
 what lies above and behind a list of siblings, and `Shift` is the offset repair that a
 text edit needs.
 */
module MarkupArena {

  /** One slot of m_aPos: four text offsets and three links (0 is "none"; slot 0 is the document). */
  datatype ElemPos = ElemPos(startL: int, startR: int, endL: int, endR: int, parent: nat, child: nat, next: nat)
  {
    predicate IsEmptyElement() { startR == endL + 1 }
    function AdjustStart(n: int): ElemPos { this.(startL := startL + n, startR := startR + n) }
    function AdjustEnd(n: int): ElemPos { this.(endL := endL + n, endR := endR + n) }
  }

  const CLEARED := ElemPos(0, 0, 0, 0, 0, 0, 0)

  /** A list of sibling elements, each with the list of its children. */
  datatype Forest = Nil | Cons(elem: nat, kids: Forest, rest: Forest)

  /** Where a sibling list sits: at top level, or inside `elem`, whose own following siblings are `rest`. */
  datatype Path = Top | Inside(elem: nat, rest: Forest, up: Path)

  ghost function Ids(f: Forest): set<nat> {
    match f
    case Nil => {}
    case Cons(i, k, r) => {i} + Ids(k) + Ids(r)
  }

  /** No slot occurs twice. */
  ghost predicate Uniq(f: Forest) {
    match f
    case Nil => true
    case Cons(i, k, r) => i !in Ids(k) && i !in Ids(r) && Ids(k) !! Ids(r) && Uniq(k) && Uniq(r)
  }

  /** The links of `a`, followed from `head`, spell out `f` below `parent`. */
  ghost predicate Linked(a: seq<ElemPos>, f: Forest, head: nat, parent: nat) {
    match f
    case Nil => head == 0
    case Cons(i, k, r) =>
      head == i && 0 < i < |a| && a[i].parent == parent &&
      Linked(a, k, a[i].child, i) && Linked(a, r, a[i].next, parent)
  }

  ghost function ParentOf(p: Path): nat {
    if p.Top? then 0 else p.elem
  }

  ghost function PathAfter(p: Path): set<nat> {
    match p
    case Top => {}
    case Inside(_, r, up) => Ids(r) + PathAfter(up)
  }

  /** The enclosing elements, and slot 0. */
  ghost function PathAnc(p: Path): set<nat> {
    match p
    case Top => {0}
    case Inside(i, _, up) => {i} + PathAnc(up)
  }

  /** The enclosing elements from `top` outwards. */
  ghost function AncFrom(p: Path, top: nat): set<nat> {
    if ParentOf(p) == top then PathAnc(p)
    else if p.Top? then {}
    else AncFrom(p.up, top)
  }

  ghost predicate UniqPath(p: Path) {
    match p
    case Top => true
    case Inside(i, r, up) =>
      i != 0 && i !in Ids(r) && i !in PathAfter(up) && i !in PathAnc(up) &&
      0 !in Ids(r) && Ids(r) !! PathAfter(up) && Ids(r) !! PathAnc(up) && Uniq(r) && UniqPath(up)
  }

  ghost predicate PathLinked(a: seq<ElemPos>, p: Path) {
    match p
    case Top => 0 < |a|
    case Inside(i, r, up) =>
      0 < i < |a| && a[i].parent == ParentOf(up) && Linked(a, r, a[i].next, ParentOf(up)) && PathLinked(a, up)
  }

  /** Element `i`, with following siblings `r`, sits at `p`; its children are not looked at. */
  ghost predicate At(a: seq<ElemPos>, i: nat, r: Forest, p: Path) {
    0 < i < |a| && a[i].parent == ParentOf(p) && Linked(a, r, a[i].next, ParentOf(p)) && PathLinked(a, p)
  }

  ghost predicate UniqAt(i: nat, k: Forest, r: Forest, p: Path) {
    UniqPath(Inside(i, r, p)) && Uniq(k) && i !in Ids(k) && 0 !in Ids(k) &&
    Ids(k) !! Ids(r) && Ids(k) !! PathAfter(p) && Ids(k) !! PathAnc(p)
  }

  /** Moves both tags of the slots in `both` and the end tag of those in `ends` by `n`. */
  ghost function Shift(a: seq<ElemPos>, both: set<nat>, ends: set<nat>, n: int): (b: seq<ElemPos>)
    ensures |b| == |a|
  {
    seq(|a|, j requires 0 <= j < |a| =>
      if j in both then a[j].AdjustStart(n).AdjustEnd(n) else if j in ends then a[j].AdjustEnd(n) else a[j])
  }

  ghost predicate SameLinks(a: seq<ElemPos>, b: seq<ElemPos>) {
    |a| == |b| && forall j :: 0 <= j < |a| ==>
      a[j].parent == b[j].parent && a[j].child == b[j].child && a[j].next == b[j].next
  }

  /** The shift is done but for the slots in `pb` (both tags) and `pe` (end tags). */
  ghost function Shifting(a: seq<ElemPos>, both: set<nat>, ends: set<nat>, pb: set<nat>, pe: set<nat>,
                          n: int): (b: seq<ElemPos>)
    ensures |b| == |a|
  {
    Shift(a, both - pb, ends - pe, n)
  }

  lemma VisitBoth(a: seq<ElemPos>, both: set<nat>, ends: set<nat>, pb: set<nat>, pe: set<nat>, n: int, c: nat)
    requires c in pb && pb <= both && both !! ends && c < |a|
    ensures var s := Shifting(a, both, ends, pb, pe, n);
      var t := s[c := s[c].AdjustStart(n).AdjustEnd(n)];
      t == Shifting(a, both, ends, pb - {c}, pe, n) && SameLinks(s, t)
  {
  }

  lemma VisitEnd(a: seq<ElemPos>, both: set<nat>, ends: set<nat>, pb: set<nat>, pe: set<nat>, n: int, c: nat)
    requires c in pe && pe <= ends && both !! ends && c < |a|
    ensures var s := Shifting(a, both, ends, pb, pe, n);
      var t := s[c := s[c].AdjustEnd(n)];
      t == Shifting(a, both, ends, pb, pe - {c}, n) && SameLinks(s, t)
  {
  }

  lemma {:induction false} PathDisjoint(p: Path)
    requires UniqPath(p)
    ensures PathAfter(p) !! PathAnc(p)
  {
    match p
    case Top =>
    case Inside(_, _, up) => PathDisjoint(up);
  }

  /** The traversal stands on `c`; with `deep`, its children `k` are still to be visited. */
  ghost predicate Cursor(a: seq<ElemPos>, c: nat, deep: bool, k: Forest, r: Forest, p: Path) {
    At(a, c, r, p) && UniqAt(c, k, r, p) && if deep then Linked(a, k, a[c].child, c) else k == Nil
  }

  /** The slots a traversal standing there has yet to visit, enclosing elements apart. */
  ghost function Ahead(k: Forest, r: Forest, p: Path): set<nat> {
    Ids(k) + Ids(r) + PathAfter(p)
  }

  /** The links of the slots in `ids` are the same in `b`; those in `ups` keep parent and next. */
  ghost predicate LinksKept(a: seq<ElemPos>, b: seq<ElemPos>, ids: set<nat>, ups: set<nat>) {
    |a| <= |b| && forall j :: 0 <= j < |a| ==>
      (j in ids || j in ups ==> a[j].parent == b[j].parent && a[j].next == b[j].next) &&
      (j in ids ==> a[j].child == b[j].child)
  }

  lemma {:induction false} LinkedKept(a: seq<ElemPos>, b: seq<ElemPos>, f: Forest, head: nat, parent: nat)
    requires Linked(a, f, head, parent) && LinksKept(a, b, Ids(f), {})
    ensures Linked(b, f, head, parent)
  {
    match f
    case Nil =>
    case Cons(i, k, r) => LinkedKept(a, b, k, a[i].child, i); LinkedKept(a, b, r, a[i].next, parent);
  }

  lemma {:induction false} PathLinkedKept(a: seq<ElemPos>, b: seq<ElemPos>, p: Path)
    requires PathLinked(a, p) && LinksKept(a, b, PathAfter(p), PathAnc(p))
    ensures PathLinked(b, p)
  {
    match p
    case Top =>
    case Inside(i, r, up) => LinkedKept(a, b, r, a[i].next, ParentOf(up)); PathLinkedKept(a, b, up);
  }

  lemma CursorKept(a: seq<ElemPos>, b: seq<ElemPos>, c: nat, deep: bool, k: Forest, r: Forest, p: Path)
    requires Cursor(a, c, deep, k, r, p) && LinksKept(a, b, Ahead(k, r, p), {c} + PathAnc(p))
    requires deep ==> a[c].child == b[c].child
    ensures Cursor(b, c, deep, k, r, p)
  {
    if deep { LinkedKept(a, b, k, a[c].child, c); }
    LinkedKept(a, b, r, a[c].next, ParentOf(p));
    PathLinkedKept(a, b, p);
  }

  lemma Descend(a: seq<ElemPos>, c: nat, k: Forest, r: Forest, p: Path, top: nat)
    requires Cursor(a, c, true, k, r, p) && k.Cons? && top in PathAnc(p)
    ensures Cursor(a, k.elem, true, k.kids, k.rest, Inside(c, r, p))
    ensures k.elem in Ahead(k, r, p) && k.elem != top
    ensures Ahead(k.kids, k.rest, Inside(c, r, p)) == Ahead(k, r, p) - {k.elem}
    ensures AncFrom(Inside(c, r, p), top) == AncFrom(p, top)
  {
  }

  lemma Sideways(a: seq<ElemPos>, c: nat, r: Forest, p: Path, top: nat)
    requires At(a, c, r, p) && UniqAt(c, Nil, r, p) && r.Cons? && top in PathAnc(p)
    ensures Cursor(a, r.elem, true, r.kids, r.rest, p)
    ensures r.elem in Ahead(Nil, r, p) && r.elem != top
    ensures Ahead(r.kids, r.rest, p) == Ahead(Nil, r, p) - {r.elem}
  {
  }

  lemma CursorFacts(a: seq<ElemPos>, c: nat, deep: bool, k: Forest, r: Forest, p: Path)
    requires Cursor(a, c, deep, k, r, p)
    ensures 0 < c < |a| && c !in PathAnc(p) && Ahead(k, r, p) !! PathAnc(p)
    ensures a[c].parent == ParentOf(p) && ParentOf(p) in PathAnc(p) && AncFrom(p, ParentOf(p)) == PathAnc(p)
  {
    PathDisjoint(p);
  }

  lemma ShiftingNone(a: seq<ElemPos>, both: set<nat>, ends: set<nat>, n: int)
    ensures a == Shifting(a, both, ends, both, ends, n)
  {
  }

  lemma ShiftingDone(a: seq<ElemPos>, both: set<nat>, ends: set<nat>, n: int)
    ensures Shifting(a, both, ends, {}, {}, n) == Shift(a, both, ends, n)
  {
    assert both - {} == both && ends - {} == ends;
  }

  /** Where element `t` of `f` is: its children, its following siblings, and the path above it. */
  ghost function Find(f: Forest, t: nat, up: Path): (Forest, Forest, Path)
    requires t in Ids(f)
  {
    if t == f.elem then (f.kids, f.rest, up)
    else if t in Ids(f.kids) then Find(f.kids, t, Inside(f.elem, f.rest, up))
    else Find(f.rest, t, up)
  }

  ghost predicate UniqIn(f: Forest, up: Path) {
    Uniq(f) && UniqPath(up) && 0 !in Ids(f) && Ids(f) !! PathAfter(up) && Ids(f) !! PathAnc(up)
  }

  /** Whatever element of a well-linked forest one asks for, the arena's links describe where it is. */
  lemma {:induction false} FindLinked(a: seq<ElemPos>, f: Forest, t: nat, head: nat, up: Path)
    requires t in Ids(f) && Linked(a, f, head, ParentOf(up)) && PathLinked(a, up) && UniqIn(f, up)
    ensures var (k, r, p) := Find(f, t, up); Cursor(a, t, true, k, r, p)
  {
    if t == f.elem {
    } else if t in Ids(f.kids) {
      FindLinked(a, f.kids, t, a[f.elem].child, Inside(f.elem, f.rest, up));
    } else {
      FindLinked(a, f.rest, t, a[f.elem].next, up);
    }
  }

  lemma {:induction false} FindUniq(f: Forest, t: nat, up: Path)
    requires t in Ids(f) && UniqIn(f, up)
    ensures var (k, r, p) := Find(f, t, up);
      UniqAt(t, k, r, p) && Ids(k) <= Ids(f) && PathAfter(up) <= PathAfter(p) && PathAnc(up) <= PathAnc(p) &&
      Ids(r) + PathAfter(p) <= Ids(f) + PathAfter(up) && PathAnc(p) <= Ids(f) + PathAnc(up)
  {
    if t == f.elem {
    } else if t in Ids(f.kids) {
      FindUniq(f.kids, t, Inside(f.elem, f.rest, up));
    } else {
      FindUniq(f.rest, t, up);
    }
  }

  /** `f` with other children below `t`. */
  ghost function ReplaceKids(f: Forest, t: nat, k: Forest): (g: Forest)
    requires t in Ids(f)
    ensures t in Ids(g)
  {
    if t == f.elem then f.(kids := k)
    else if t in Ids(f.kids) then f.(kids := ReplaceKids(f.kids, t, k))
    else f.(rest := ReplaceKids(f.rest, t, k))
  }

  lemma FindStep(f: Forest, t: nat, up: Path)
    requires t in Ids(f) && UniqIn(f, up)
    ensures var k := Find(f, t, up).0;
      if t == f.elem then k == f.kids
      else if t in Ids(f.kids) then
        UniqIn(f.kids, Inside(f.elem, f.rest, up)) && k == Find(f.kids, t, Inside(f.elem, f.rest, up)).0 &&
        Ids(k) <= Ids(f.kids)
      else UniqIn(f.rest, up) && k == Find(f.rest, t, up).0 && Ids(k) <= Ids(f.rest)
  {
    if t == f.elem {
    } else if t in Ids(f.kids) {
      FindUniq(f.kids, t, Inside(f.elem, f.rest, up));
    } else {
      FindUniq(f.rest, t, up);
    }
  }

  lemma UniqParts(f: Forest, up: Path)
    requires f.Cons? && UniqIn(f, up)
    ensures f.elem !in Ids(f.kids) && f.elem !in Ids(f.rest) && Ids(f.kids) !! Ids(f.rest) && Uniq(f.kids) &&
            Uniq(f.rest)
  {
  }

  lemma {:induction false} ReplaceKidsIds(f: Forest, t: nat, k': Forest, up: Path)
    requires t in Ids(f) && UniqIn(f, up)
    ensures Ids(ReplaceKids(f, t, k')) == Ids(f) - Ids(Find(f, t, up).0) + Ids(k')
  {
    hide Find, UniqIn;
    var k := Find(f, t, up).0;
    FindStep(f, t, up);
    UniqParts(f, up);
    if t == f.elem {
      assert Ids(f) - Ids(k) == {f.elem} + Ids(f.rest);
    } else if t in Ids(f.kids) {
      ReplaceKidsIds(f.kids, t, k', Inside(f.elem, f.rest, up));
      assert Ids(f) - Ids(k) == {f.elem} + (Ids(f.kids) - Ids(k)) + Ids(f.rest);
    } else {
      ReplaceKidsIds(f.rest, t, k', up);
      assert Ids(f) - Ids(k) == {f.elem} + Ids(f.kids) + (Ids(f.rest) - Ids(k));
    }
  }

  lemma {:induction false} ReplaceKidsUniq(f: Forest, t: nat, k': Forest, up: Path)
    requires t in Ids(f) && UniqIn(f, up) && Uniq(k') && (Ids(f) - Ids(Find(f, t, up).0)) !! Ids(k')
    ensures Uniq(ReplaceKids(f, t, k'))
  {
    hide Find, UniqIn;
    FindStep(f, t, up);
    UniqParts(f, up);
    if t == f.elem {
    } else if t in Ids(f.kids) {
      var up' := Inside(f.elem, f.rest, up);
      ReplaceKidsUniq(f.kids, t, k', up');
      ReplaceKidsIds(f.kids, t, k', up');
    } else {
      ReplaceKidsUniq(f.rest, t, k', up);
      ReplaceKidsIds(f.rest, t, k', up);
    }
  }

  lemma {:induction false} ReplaceKidsLinked(a: seq<ElemPos>, b: seq<ElemPos>, f: Forest, t: nat, k': Forest, head: nat,
                                             up: Path)
    requires t in Ids(f) && UniqIn(f, up) && Linked(a, f, head, ParentOf(up))
    requires LinksKept(a, b, Ids(f) - Ids(Find(f, t, up).0) - {t}, {t})
    requires t < |b| && Linked(b, k', b[t].child, t)
    ensures Linked(b, ReplaceKids(f, t, k'), head, ParentOf(up))
  {
    hide Find, UniqIn, LinksKept;
    FindStep(f, t, up);
    UniqParts(f, up);
    var kept := Ids(f) - Ids(Find(f, t, up).0) - {t};
    SlotKept(a, b, kept, t, f.elem);
    if t == f.elem {
      FewerKept(a, b, kept, {t}, Ids(f.rest), {});
      LinkedKept(a, b, f.rest, a[t].next, ParentOf(up));
    } else if t in Ids(f.kids) {
      var up' := Inside(f.elem, f.rest, up);
      FewerKept(a, b, kept, {t}, Ids(f.kids) - Ids(Find(f.kids, t, up').0) - {t}, {t});
      ReplaceKidsLinked(a, b, f.kids, t, k', a[f.elem].child, up');
      FewerKept(a, b, kept, {t}, Ids(f.rest), {});
      LinkedKept(a, b, f.rest, a[f.elem].next, ParentOf(up));
    } else {
      FewerKept(a, b, kept, {t}, Ids(f.kids), {});
      LinkedKept(a, b, f.kids, a[f.elem].child, f.elem);
      FewerKept(a, b, kept, {t}, Ids(f.rest) - Ids(Find(f.rest, t, up).0) - {t}, {t});
      ReplaceKidsLinked(a, b, f.rest, t, k', a[f.elem].next, up);
    }
  }

  lemma FewerKept(a: seq<ElemPos>, b: seq<ElemPos>, ids: set<nat>, ups: set<nat>, ids': set<nat>, ups': set<nat>)
    requires LinksKept(a, b, ids, ups) && ids' <= ids && ups' <= ups
    ensures LinksKept(a, b, ids', ups')
  {
  }

  lemma SlotKept(a: seq<ElemPos>, b: seq<ElemPos>, ids: set<nat>, t: nat, j: nat)
    requires LinksKept(a, b, ids, {t}) && j < |a| && (j == t || j in ids)
    ensures j < |b| && b[j].parent == a[j].parent && b[j].next == a[j].next && (j in ids ==> b[j].child == a[j].child)
  {
  }

  /** Document order: an element, then all below it, then its following siblings. */
  ghost function Preorder(f: Forest): seq<nat> {
    if f.Nil? then [] else [f.elem] + Preorder(f.kids) + Preorder(f.rest)
  }

  /** What follows, in document order, all that is below a path. */
  ghost function PathOrder(p: Path): seq<nat> {
    if p.Top? then [] else Preorder(p.rest) + PathOrder(p.up)
  }

  lemma {:induction false} PreorderIds(f: Forest)
    ensures forall j :: j in Preorder(f) <==> j in Ids(f)
  {
    if f.Cons? { PreorderIds(f.kids); PreorderIds(f.rest); }
  }

  lemma {:induction false} PathOrderIds(p: Path)
    ensures forall j :: j in PathOrder(p) <==> j in PathAfter(p)
  {
    if p.Inside? { PreorderIds(p.rest); PathOrderIds(p.up); }
  }

  lemma Assoc4(a: seq<nat>, b: seq<nat>, c: seq<nat>, d: seq<nat>)
    ensures a + b + c + d == a + (b + (c + d)) == a + b + (c + d)
  {
  }

  /** From `t` on in document order: `t`, all below it, its following siblings, and what follows them. */
  ghost function OrderFrom(t: nat, k: Forest, r: Forest, p: Path): seq<nat> {
    [t] + (Preorder(k) + (Preorder(r) + PathOrder(p)))
  }

  /** The elements in document order are those before `t`, and then those from `t` on. */
  lemma {:induction false} PreorderFind(f: Forest, t: nat, up: Path) returns (before: seq<nat>)
    requires t in Ids(f)
    ensures var (k, r, p) := Find(f, t, up); Preorder(f) + PathOrder(up) == before + OrderFrom(t, k, r, p)
  {
    var (k, r, p) := Find(f, t, up);
    Assoc4([f.elem], Preorder(f.kids), Preorder(f.rest), PathOrder(up));
    hide OrderFrom;
    if t == f.elem {
      before := [];
      assert OrderFrom(t, k, r, p) == Preorder(f) + PathOrder(up) by { OrderHere(f, up); }
    } else if t in Ids(f.kids) {
      var b := PreorderFind(f.kids, t, Inside(f.elem, f.rest, up));
      before := [f.elem] + b;
      Assoc4([], [f.elem], b, OrderFrom(t, k, r, p));
    } else {
      var b := PreorderFind(f.rest, t, up);
      before := [f.elem] + Preorder(f.kids) + b;
      Assoc4([f.elem], Preorder(f.kids), b, OrderFrom(t, k, r, p));
    }
  }

  lemma OrderHere(f: Forest, up: Path)
    requires f.Cons?
    ensures OrderFrom(f.elem, f.kids, f.rest, up) == Preorder(f) + PathOrder(up)
  {
    Assoc4([f.elem], Preorder(f.kids), Preorder(f.rest), PathOrder(up));
  }

  lemma {:induction false} PreorderUniq(f: Forest)
    requires Uniq(f)
    ensures forall i, j :: 0 <= i < j < |Preorder(f)| ==> Preorder(f)[i] != Preorder(f)[j]
  {
    if f.Cons? {
      PreorderUniq(f.kids);
      PreorderUniq(f.rest);
      PreorderIds(f.kids);
      PreorderIds(f.rest);
      var x, y := Preorder(f.kids), Preorder(f.rest);
      assert forall i :: 0 <= i < |x| ==> x[i] in x;
      assert forall i :: 0 <= i < |y| ==> y[i] in y;
    }
  }

  /**
   What x_Adjust shifts, in terms of document order: with bAfterPos false the slots after `t`,
   with bAfterPos true those after all that is below `t`.  Every slot occurs once.
   */
  lemma AheadIsAfter(f: Forest, t: nat) returns (before: seq<nat>, below: seq<nat>, after: seq<nat>)
    requires t in Ids(f) && UniqIn(f, Top)
    ensures Preorder(f) == before + [t] + below + after
    ensures forall i, j :: 0 <= i < j < |Preorder(f)| ==> Preorder(f)[i] != Preorder(f)[j]
    ensures var (k, r, p) := Find(f, t, Top);
      (forall j :: j in below + after <==> j in Ahead(k, r, p)) &&
      (forall j :: j in after <==> j in Ahead(Nil, r, p)) &&
      (forall j :: j in below <==> j in Ids(k)) && (forall j :: j in PathAnc(p) && j != 0 ==> j in before)
  {
    var (k, r, p) := Find(f, t, Top);
    before := PreorderFind(f, t, Top);
    below, after := Preorder(k), Preorder(r) + PathOrder(p);
    hide Preorder, PathOrder, Find, Uniq;
    assert Preorder(f) + PathOrder(Top) == Preorder(f) by { TopOrder(); }
    Assoc4(before, [t], below, after);
    PreorderUniq(f);
    PreorderIds(f);
    PreorderIds(k);
    PreorderIds(r);
    PathOrderIds(p);
    FindUniq(f, t, Top);
    PathDisjoint(p);
    forall j | j in PathAnc(p) && j != 0
      ensures j in before
    {
      assert j in Preorder(f);
      assert j in before + [t] + below + after;
    }
  }

  lemma TopOrder()
    ensures PathOrder(Top) == []
  {
  }
}
