/** Edits of one sibling list: a new element after a given sibling, or the removal of one element. */
module MarkupEdits {
  import opened MarkupArena
  import opened MarkupLayout

  ghost function TopIds(f: Forest): set<nat> {
    if f.Nil? then {} else {f.elem} + TopIds(f.rest)
  }

  /** The siblings up to and including `b`; none for b == 0. */
  ghost function Upto(f: Forest, b: nat): Forest {
    if b == 0 || f.Nil? then Nil else if f.elem == b then f.(rest := Nil) else f.(rest := Upto(f.rest, b))
  }

  /** The siblings after `b`; all for b == 0. */
  ghost function Past(f: Forest, b: nat): Forest {
    if b == 0 || f.Nil? then f else if f.elem == b then f.rest else Past(f.rest, b)
  }

  ghost function Append(f: Forest, g: Forest): Forest {
    if f.Nil? then g else f.(rest := Append(f.rest, g))
  }

  ghost predicate IsPlace(f: Forest, b: nat) { b == 0 || b in TopIds(f) }

  lemma {:induction false} AppendIds(f: Forest, g: Forest)
    ensures Ids(Append(f, g)) == Ids(f) + Ids(g)
    ensures Uniq(f) && Uniq(g) && Ids(f) !! Ids(g) ==> Uniq(Append(f, g))
  {
    if f.Cons? { AppendIds(f.rest, g); }
  }

  lemma {:induction false} PlaceIds(f: Forest, b: nat)
    requires Uniq(f) && IsPlace(f, b)
    ensures Ids(f) == Ids(Upto(f, b)) + Ids(Past(f, b)) && Ids(Upto(f, b)) !! Ids(Past(f, b))
    ensures Uniq(Upto(f, b)) && Uniq(Past(f, b)) && TopIds(f) <= Ids(f) && (b != 0 ==> b in Ids(Upto(f, b)))
  {
    if f.Cons? {
      if b != 0 && f.elem != b { PlaceIds(f.rest, b); } else { PlaceIds(f.rest, 0); }
    }
  }

  lemma LaidBounds(doc: string, a: seq<ElemPos>, f: Forest, lo: int, hi: int, strict: bool)
    requires Laid(doc, a, f, lo, hi, strict)
    ensures 0 <= lo <= hi <= |doc|
  {
  }

  /** Splitting a laid-out list after `b`. */
  lemma {:induction false} LaidSplit(doc: string, a: seq<ElemPos>, f: Forest, b: nat, lo: int, hi: int, strict: bool)
    requires Laid(doc, a, f, lo, hi, strict) && IsPlace(f, b)
    ensures b < |a| || b == 0
    ensures var m := if b == 0 then lo else a[b].endR + 1;
      lo <= m <= hi && Laid(doc, a, Upto(f, b), lo, m, strict) && Laid(doc, a, Past(f, b), m, hi, strict)
  {
    hide TagsOk;
    if b != 0 && f.elem != b { LaidSplit(doc, a, f.rest, b, a[f.elem].endR + 1, hi, strict); }
  }

  lemma {:induction false} LaidJoin(doc: string, a: seq<ElemPos>, f: Forest, g: Forest, lo: int, m: int, hi: int,
                                    strict: bool)
    requires Laid(doc, a, f, lo, m, strict) && Laid(doc, a, g, m, hi, strict)
    ensures Laid(doc, a, Append(f, g), lo, hi, strict)
  {
    hide ElemOk;
    if f.Cons? {
      LaidJoin(doc, a, f.rest, g, a[f.elem].endR + 1, m, hi, strict);
    } else {
      LaidLower(doc, a, g, lo, m, hi, strict);
    }
  }

  lemma LaidLower(doc: string, a: seq<ElemPos>, f: Forest, lo: int, lo': int, hi: int, strict: bool)
    requires Laid(doc, a, f, lo', hi, strict) && 0 <= lo <= lo'
    ensures Laid(doc, a, f, lo, hi, strict)
  {
  }

  lemma {:induction false} LaidWiden(doc: string, a: seq<ElemPos>, f: Forest, lo: int, hi: int, hi': int, strict: bool)
    requires Laid(doc, a, f, lo, hi, strict) && hi <= hi' <= |doc|
    ensures Laid(doc, a, f, lo, hi', strict)
  {
    hide ElemOk;
    if f.Cons? { LaidWiden(doc, a, f.rest, a[f.elem].endR + 1, hi, hi', strict); }
  }

  /** Text without '<' can be dropped from the front of a list's window. */
  lemma LaidRaise(doc: string, a: seq<ElemPos>, f: Forest, lo: int, lo': int, hi: int, strict: bool)
    requires Laid(doc, a, f, lo, hi, strict) && lo <= lo' <= hi && forall k :: lo <= k < lo' ==> doc[k] != '<'
    ensures Laid(doc, a, f, lo', hi, strict)
  {
    if f.Cons? { assert StartTag(doc, a[f.elem])[0] == doc[a[f.elem].startL]; }
  }

  /** The list `f` with the new element `t` after `b`. */
  ghost function Insert(f: Forest, b: nat, t: nat): Forest {
    Append(Upto(f, b), Cons(t, Nil, Past(f, b)))
  }

  /** `b` has the links of `a`, but for new slot `t` linked in below `p` after `before`. */
  ghost predicate LinkedIn(a: seq<ElemPos>, b: seq<ElemPos>, p: nat, before: nat, t: nat) {
    |a| <= |b| && p < |a| && before < |a| && t < |b| && t != p && t != before &&
    b[t].parent == p && b[t].child == 0 && b[t].next == (if before == 0 then a[p].child else a[before].next) &&
    forall j :: 0 <= j < |a| && j != t ==>
      b[j].parent == a[j].parent && b[j].child == (if j == p && before == 0 then t else a[j].child) &&
      b[j].next == (if j == before && before != 0 then t else a[j].next)
  }

  /** The links of `f` up to `b` are kept, except that b's next is now the head of another list. */
  lemma {:induction false} UptoLinked(a: seq<ElemPos>, b: seq<ElemPos>, f: Forest, g: Forest, before: nat, head: nat,
                                      p: nat)
    requires Linked(a, f, head, p) && before in TopIds(f) && before != 0 && Uniq(f)
    requires LinksKept(a, b, Ids(Upto(f, before)) - {before}, {}) && before < |a| <= |b|
    requires b[before].parent == a[before].parent && b[before].child == a[before].child &&
             Linked(b, g, b[before].next, p)
    ensures Linked(b, Append(Upto(f, before), g), head, p)
  {
    PlaceIds(f, before);
    if f.elem == before {
      assert Append(f.(rest := Nil), g) == f.(rest := g);
      LinkedKept(a, b, f.kids, a[before].child, before);
    } else {
      PlaceIds(f.rest, before);
      LinkedKept(a, b, f.kids, a[f.elem].child, f.elem);
      UptoLinked(a, b, f.rest, g, before, a[f.elem].next, p);
    }
  }

  lemma {:induction false} PastLinked(a: seq<ElemPos>, f: Forest, before: nat, head: nat, p: nat)
    requires Linked(a, f, head, p) && IsPlace(f, before)
    ensures before == 0 || 0 < before < |a|
    ensures before != 0 ==> a[before].parent == p
    ensures Linked(a, Past(f, before), if before == 0 then head else a[before].next, p)
  {
    if before != 0 && f.elem != before { PastLinked(a, f.rest, before, a[f.elem].next, p); }
  }

  lemma InsertIds(f: Forest, before: nat, t: nat)
    requires IsPlace(f, before) && Uniq(f) && t !in Ids(f)
    ensures Uniq(Insert(f, before, t)) && Ids(Insert(f, before, t)) == Ids(f) + {t}
  {
    hide Past, Upto, TopIds, Append, Ids, Uniq;
    PlaceIds(f, before);
    ConsIds(t, Past(f, before));
    AppendIds(Upto(f, before), Cons(t, Nil, Past(f, before)));
  }

  lemma ConsIds(t: nat, f: Forest)
    requires Uniq(f) && t !in Ids(f)
    ensures Ids(Cons(t, Nil, f)) == {t} + Ids(f) && Uniq(Cons(t, Nil, f))
  {
  }

  lemma InsertPast(a: seq<ElemPos>, b: seq<ElemPos>, f: Forest, p: nat, before: nat, t: nat)
    requires LinkedIn(a, b, p, before, t) && Linked(a, f, a[p].child, p) && IsPlace(f, before)
    requires Uniq(f) && p !in Ids(f) && t !in Ids(f)
    ensures Linked(b, Past(f, before), b[t].next, p)
  {
    PlaceIds(f, before);
    PastLinked(a, f, before, a[p].child, p);
    LinkedKept(a, b, Past(f, before), b[t].next, p);
  }

  lemma InsertLinked(a: seq<ElemPos>, b: seq<ElemPos>, f: Forest, p: nat, before: nat, t: nat)
    requires LinkedIn(a, b, p, before, t) && Linked(a, f, a[p].child, p) && IsPlace(f, before) && 0 < t
    requires Uniq(f) && p !in Ids(f) && t !in Ids(f)
    ensures Linked(b, Insert(f, before, t), b[p].child, p)
  {
    var g := Cons(t, Nil, Past(f, before));
    InsertPast(a, b, f, p, before, t);
    assert Linked(b, g, t, p);
    if before != 0 {
      PlaceIds(f, before);
      UptoLinked(a, b, f, g, before, a[p].child, p);
    }
  }

  lemma LaidOne(doc: string, a: seq<ElemPos>, t: nat, f: Forest, hi: int, strict: bool)
    requires t < |a| && ElemOk(doc, a[t], strict) && Laid(doc, a, f, a[t].endR + 1, hi, strict)
    ensures Laid(doc, a, Cons(t, Nil, f), a[t].startL, hi, strict)
  {
    hide TagsOk;
  }

  /** A new element laid out at `q`, with everything from `q` on moved up by `n`. */
  lemma InsertLaid(doc: string, doc': string, a: seq<ElemPos>, b: seq<ElemPos>, f: Forest, before: nat, t: nat, lo: int,
                   q: int, hi: int, n: int, strict: bool)
    requires Laid(doc, a, Upto(f, before), lo, q, strict) && Laid(doc, a, Past(f, before), q, hi, strict)
    requires SameText(doc, doc', 0, q, 0) && SameText(doc, doc', q, |doc|, n)
    requires Moved(a, b, Ids(Upto(f, before)), 0, 0) && Moved(a, b, Ids(Past(f, before)), n, n)
    requires t < |b| && ElemOk(doc', b[t], strict) && q == b[t].startL && b[t].endR < q + n
    ensures Laid(doc', b, Insert(f, before, t), lo, hi + n, strict)
  {
    hide ElemOk, Laid, Upto, Past, Moved, Append, Ids;
    ElemBounds(doc', b[t], strict);
    LaidBounds(doc, a, Upto(f, before), lo, q, strict);
    LaidBounds(doc, a, Past(f, before), q, hi, strict);
    LaidMoved(doc, doc', a, b, Upto(f, before), lo, q, 0, strict);
    LaidMoved(doc, doc', a, b, Past(f, before), q, hi, n, strict);
    LaidLower(doc', b, Past(f, before), b[t].endR + 1, q + n, hi + n, strict);
    LaidOne(doc', b, t, Past(f, before), hi + n, strict);
    LaidJoin(doc', b, Upto(f, before), Cons(t, Nil, Past(f, before)), lo, q, hi + n, strict);
  }

  /** The list `f` without the element after `b`. */
  ghost function Remove(f: Forest, b: nat): Forest
    requires Past(f, b).Cons?
  {
    Append(Upto(f, b), Past(f, b).rest)
  }

  /** `b` has the links of `a`, but for slot `t`, which came after `before` below `p` and is now bypassed. */
  ghost predicate LinkedOut(a: seq<ElemPos>, b: seq<ElemPos>, p: nat, before: nat, t: nat) {
    |a| == |b| && p < |a| && before < |a| && t < |a| &&
    forall j :: 0 <= j < |a| ==>
      b[j].parent == a[j].parent && b[j].child == (if j == p && before == 0 then a[t].next else a[j].child) &&
      b[j].next == (if j == before && before != 0 then a[t].next else a[j].next)
  }

  lemma RemoveIds(f: Forest, before: nat)
    requires IsPlace(f, before) && Uniq(f) && Past(f, before).Cons?
    ensures var t := Past(f, before);
      Uniq(Remove(f, before)) && Ids(Remove(f, before)) == Ids(f) - Ids(t.kids) - {t.elem}
  {
    PlaceIds(f, before);
    AppendIds(Upto(f, before), Past(f, before).rest);
  }

  lemma RemovePast(a: seq<ElemPos>, b: seq<ElemPos>, f: Forest, p: nat, before: nat)
    requires IsPlace(f, before) && Past(f, before).Cons? && LinkedOut(a, b, p, before, Past(f, before).elem)
    requires Linked(a, f, a[p].child, p) && Uniq(f) && p !in Ids(f)
    ensures var t := Past(f, before).elem; 0 < t && Linked(b, Past(f, before).rest, a[t].next, p)
  {
    PlaceIds(f, before);
    PastLinked(a, f, before, a[p].child, p);
    LinkedKept(a, b, Past(f, before).rest, a[Past(f, before).elem].next, p);
  }

  lemma RemoveLinked(a: seq<ElemPos>, b: seq<ElemPos>, f: Forest, p: nat, before: nat)
    requires IsPlace(f, before) && Past(f, before).Cons? && LinkedOut(a, b, p, before, Past(f, before).elem)
    requires Linked(a, f, a[p].child, p) && Uniq(f) && p !in Ids(f)
    ensures Linked(b, Remove(f, before), b[p].child, p)
  {
    RemovePast(a, b, f, p, before);
    if before != 0 {
      PlaceIds(f, before);
      UptoLinked(a, b, f, Past(f, before).rest, before, a[p].child, p);
    }
  }

  /** The text doc[s..q] of the removed element is gone and everything from `q` on has moved down. */
  lemma RemoveLaid(doc: string, doc': string, a: seq<ElemPos>, b: seq<ElemPos>, f: Forest, before: nat, lo: int, s: int,
                   q: int, hi: int, strict: bool)
    requires Past(f, before).Cons? && Laid(doc, a, Upto(f, before), lo, s, strict)
    requires Laid(doc, a, Past(f, before).rest, q, hi, strict)
    requires SameText(doc, doc', 0, s, 0) && SameText(doc, doc', q, |doc|, s - q)
    requires Moved(a, b, Ids(Upto(f, before)), 0, 0) && Moved(a, b, Ids(Past(f, before).rest), s - q, s - q)
    ensures Laid(doc', b, Remove(f, before), lo, hi - (q - s), strict)
  {
    hide ElemOk, Upto, Past, Moved, Append, Ids;
    LaidMoved(doc, doc', a, b, Upto(f, before), lo, s, 0, strict);
    LaidMoved(doc, doc', a, b, Past(f, before).rest, q, hi, s - q, strict);
    LaidJoin(doc', b, Upto(f, before), Past(f, before).rest, lo, s, hi - (q - s), strict);
  }
}
