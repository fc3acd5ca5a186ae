/**
 CConsistentHashSelector: nodes on a ring of hash values, a hundred points each.
 */
module HashRing {
  import opened ByteText
  import opened KeyBytes
  import KeyFormat

  const VIRTUAL_NODE_COUNT: nat := 100

  /** Hash(name#i); the hash function is a parameter. */
  function Point(hash: Bytes -> u32, name: Bytes, i: nat): (p: u32) {
    hash(name + [35] + KeyFormat.Digits(i))
  }

  ghost predicate IsPoint(hash: Bytes -> u32, name: Bytes, p: u32) {
    exists i: nat :: i < VIRTUAL_NODE_COUNT && Point(hash, name, i) == p
  }

  /** The name at point p: of all names with that point, the smallest. */
  ghost predicate Owns(hash: Bytes -> u32, names: seq<Bytes>, name: Bytes, p: u32) {
    name in names && IsPoint(hash, name, p) && forall n :: n in names && IsPoint(hash, n, p) ==> Cmp(name, n) <= 0
  }

  /** The ring holds exactly the points of all names, each with the name that owns it. */
  ghost predicate RingOk(hash: Bytes -> u32, names: seq<Bytes>, nodes: map<u32, nat>) {
    (forall p :: p in nodes ==> nodes[p] < |names| && Owns(hash, names, names[nodes[p]], p)) &&
    (forall n, p :: n in names && IsPoint(hash, n, p) ==> p in nodes)
  }

  /** upper_bound, or the smallest point of all: the next point clockwise. */
  predicate IsNext(points: set<u32>, h: u32, p: u32) {
    p in points &&
    if p > h then forall q :: q in points ==> q > h ==> p <= q
    else forall q :: q in points ==> q <= h && p <= q
  }

  lemma {:induction false} Smallest(points: set<u32>) returns (p: u32)
    requires points != {}
    ensures p in points && forall q :: q in points ==> p <= q
    decreases |points|
  {
    p :| p in points;
    if points != {p} {
      var q := Smallest(points - {p});
      assert points == (points - {p}) + {p};
      if q < p { p := q; }
    }
  }

  lemma NextExists(points: set<u32>, h: u32)
    requires points != {}
    ensures exists p :: IsNext(points, h, p)
  {
    var after := set p | p in points && p > h;
    var p;
    if after != {} { p := Smallest(after); } else { p := Smallest(points); }
    assert forall q :: q in points ==> (q > h <==> q in after);
    assert IsNext(points, h, p);
  }

  lemma CmpTotal(a: Bytes, b: Bytes)
    requires Cmp(a, b) <= 0 && Cmp(b, a) <= 0
    ensures a == b
  {
    CmpAntisymmetric(a, b);
  }

  lemma {:induction false} CmpTransitive(a: Bytes, b: Bytes, c: Bytes)
    requires Cmp(a, b) <= 0 && Cmp(b, c) <= 0
    ensures Cmp(a, c) <= 0
  {
    if a != [] && b != [] && c != [] && a[0] == b[0] == c[0] { CmpTransitive(a[1..], b[1..], c[1..]); }
  }

  /** One owner at most, so the ring depends on the names alone and not on the order in which they came. */
  lemma OrderIndependent(hash: Bytes -> u32, names: seq<Bytes>, nodes: map<u32, nat>, names': seq<Bytes>,
                         nodes': map<u32, nat>)
    requires RingOk(hash, names, nodes) && RingOk(hash, names', nodes') && forall n :: n in names <==> n in names'
    ensures nodes.Keys == nodes'.Keys && forall p :: p in nodes ==> names[nodes[p]] == names'[nodes'[p]]
  {
    hide IsPoint, Cmp;
    forall p | p in nodes
      ensures p in nodes' && names[nodes[p]] == names'[nodes'[p]]
    {
      assert Owns(hash, names, names[nodes[p]], p) && Owns(hash, names', names'[nodes'[p]], p);
      CmpTotal(names[nodes[p]], names'[nodes'[p]]);
    }
    forall p | p in nodes'
      ensures p in nodes
    {
      assert Owns(hash, names', names'[nodes'[p]], p);
    }
  }

  /** What Select answers. */
  ghost predicate Selects(names: seq<Bytes>, nodes: map<u32, nat>, h: u32, name: Bytes) {
    if nodes == map[] then name == []
    else exists p :: p in nodes && IsNext(nodes.Keys, h, p) && nodes[p] < |names| && name == names[nodes[p]]
  }

  lemma NextUnique(points: set<u32>, h: u32, p: u32, q: u32)
    requires IsNext(points, h, p) && IsNext(points, h, q)
    ensures p == q
  {
  }

  /** Selectors with the same names give the same answers. */
  lemma SameNamesSelectAlike(hash: Bytes -> u32, names: seq<Bytes>, nodes: map<u32, nat>, names': seq<Bytes>,
                             nodes': map<u32, nat>, h: u32, a: Bytes, b: Bytes)
    requires RingOk(hash, names, nodes) && RingOk(hash, names', nodes') && forall n :: n in names <==> n in names'
    requires Selects(names, nodes, h, a) && Selects(names', nodes', h, b)
    ensures a == b
  {
    hide RingOk, IsNext;
    OrderIndependent(hash, names, nodes, names', nodes');
    if nodes != map[] {
      var p :| p in nodes && IsNext(nodes.Keys, h, p) && nodes[p] < |names| && a == names[nodes[p]];
      var q :| q in nodes' && IsNext(nodes'.Keys, h, q) && nodes'[q] < |names'| && b == names'[nodes'[q]];
      NextUnique(nodes.Keys, h, p, q);
    }
  }

  /** A node more attracts some hashes to itself and moves no other. */
  lemma AddMovesOnlyToNew(hash: Bytes -> u32, names: seq<Bytes>, nodes: map<u32, nat>, new_: Bytes,
                          nodes': map<u32, nat>, h: u32, was: Bytes, is_: Bytes)
    requires RingOk(hash, names, nodes) && RingOk(hash, names + [new_], nodes')
    requires Selects(names, nodes, h, was) && Selects(names + [new_], nodes', h, is_)
    ensures is_ == was || is_ == new_
  {
    hide IsPoint, Cmp, IsNext;
    var all := names + [new_];
    PointsGrow(hash, names, nodes, new_, nodes');
    if nodes' != map[] {
      var p' :| p' in nodes' && IsNext(nodes'.Keys, h, p') && nodes'[p'] < |all| && is_ == all[nodes'[p']];
      assert Owns(hash, all, is_, p');
      if is_ != new_ {
        assert is_ in names;
        assert p' in nodes;
        NextInPart(nodes.Keys, nodes'.Keys, h, p');
        var p :| p in nodes && IsNext(nodes.Keys, h, p) && nodes[p] < |names| && was == names[nodes[p]];
        NextUnique(nodes.Keys, h, p, p');
        SameOwner(hash, names, nodes, new_, p, is_);
      }
    }
  }

  lemma NextInPart(part: set<u32>, points: set<u32>, h: u32, p: u32)
    requires part <= points && p in part && IsNext(points, h, p)
    ensures IsNext(part, h, p)
  {
  }

  lemma PointsGrow(hash: Bytes -> u32, names: seq<Bytes>, nodes: map<u32, nat>, new_: Bytes, nodes': map<u32, nat>)
    requires RingOk(hash, names, nodes) && RingOk(hash, names + [new_], nodes')
    ensures nodes.Keys <= nodes'.Keys
  {
    hide IsPoint, Cmp;
    forall p | p in nodes
      ensures p in nodes'
    {
      assert Owns(hash, names, names[nodes[p]], p);
      assert names[nodes[p]] in names + [new_];
    }
  }

  /** An old name that still owns the point owned it before. */
  lemma SameOwner(hash: Bytes -> u32, names: seq<Bytes>, nodes: map<u32, nat>, new_: Bytes, p: u32, is_: Bytes)
    requires RingOk(hash, names, nodes) && p in nodes && is_ in names && Owns(hash, names + [new_], is_, p)
    ensures names[nodes[p]] == is_
  {
    hide IsPoint, Cmp;
    var was := names[nodes[p]];
    assert Owns(hash, names, was, p);
    assert was in names + [new_];
    CmpTotal(was, is_);
  }

  /** The ring while the first n points of the last name are being added. */
  ghost predicate Adding(hash: Bytes -> u32, names: seq<Bytes>, nodes: map<u32, nat>, n: nat)
    requires names != []
  {
    var last := names[|names| - 1];
    (forall p :: p in nodes ==> nodes[p] < |names| && PartOwns(hash, names, names[nodes[p]], p, n)) &&
    (forall m, p :: m in names && PartPoint(hash, names, m, p, n) ==> p in nodes)
  }

  /** All points of the earlier names count, and the first n of the last one. */
  ghost predicate PartPoint(hash: Bytes -> u32, names: seq<Bytes>, name: Bytes, p: u32, n: nat)
    requires names != []
  {
    if name == names[|names| - 1] then exists i: nat :: i < n && Point(hash, name, i) == p else IsPoint(hash, name, p)
  }

  ghost predicate PartOwns(hash: Bytes -> u32, names: seq<Bytes>, name: Bytes, p: u32, n: nat)
    requires names != []
  {
    name in names && PartPoint(hash, names, name, p, n) &&
    forall m :: m in names && PartPoint(hash, names, m, p, n) ==> Cmp(name, m) <= 0
  }

  class Selector {
    const hash: Bytes -> u32
    var nodes: map<u32, nat>
    var nodeNames: seq<Bytes>

    ghost predicate Valid()
      reads this
    {
      RingOk(hash, nodeNames, nodes)
    }

    constructor (hash: Bytes -> u32)
      ensures Valid() && this.hash == hash && nodeNames == [] && nodes == map[]
    {
      this.hash := hash;
      nodes, nodeNames := map[], [];
    }

    /** Select; the empty string when there are no nodes */
    method Select(h: u32) returns (name: Bytes)
      requires Valid()
      ensures Selects(nodeNames, nodes, h, name)
    {
      if nodes == map[] { return []; }
      NextExists(nodes.Keys, h);
      var p: u32 :| p in nodes.Keys && IsNext(nodes.Keys, h, p);
      name := nodeNames[nodes[p]];
    }

    /** AddNode; false where the source aborts because of a duplicate name */
    method AddNode(name: Bytes) returns (ok: bool)
      requires Valid()
      modifies this
      ensures Valid() && ok == (name !in old(nodeNames)) && (!ok ==> nodes == old(nodes) && nodeNames == old(nodeNames))
      ensures ok ==> nodeNames == old(nodeNames) + [name]
    {
      hide Adding, RingOk, Cmp, Point;
      if name in nodeNames { return false; }
      nodeNames := nodeNames + [name];
      var index := |nodeNames| - 1;
      AddingStarts(hash, old(nodeNames), nodes, name);
      for i := 0 to VIRTUAL_NODE_COUNT
        invariant nodeNames == old(nodeNames) + [name] && Adding(hash, nodeNames, nodes, i)
      {
        var value := Point(hash, name, i);
        AddingNext(hash, nodeNames, nodes, i, value);
        if value in nodes && Cmp(nodeNames[nodes[value]], name) < 0 { continue; }
        nodes := nodes[value := index];
      }
      AddingEnds(hash, nodeNames, nodes);
      ok := true;
    }
  }

  lemma AddingStarts(hash: Bytes -> u32, names: seq<Bytes>, nodes: map<u32, nat>, name: Bytes)
    requires RingOk(hash, names, nodes) && name !in names
    ensures Adding(hash, names + [name], nodes, 0)
  {
    hide IsPoint, Cmp;
    var all := names + [name];
    assert forall m, p :: m in all && PartPoint(hash, all, m, p, 0) ==> m in names && IsPoint(hash, m, p);
    forall p | p in nodes
      ensures PartOwns(hash, all, all[nodes[p]], p, 0)
    {
      assert Owns(hash, names, names[nodes[p]], p);
      assert all[nodes[p]] == names[nodes[p]] && names[nodes[p]] in all;
    }
  }

  /** One more point of the last name. */
  lemma PartPointNext(hash: Bytes -> u32, names: seq<Bytes>, n: nat, value: u32, m: Bytes, p: u32)
    requires names != [] && value == Point(hash, names[|names| - 1], n)
    ensures PartPoint(hash, names, m, p, n + 1) <==>
      PartPoint(hash, names, m, p, n) || (m == names[|names| - 1] && p == value)
  {
    hide Point;
    if m == names[|names| - 1] && p == value { assert Point(hash, m, n) == p; }
  }

  /** What it does to the ring: a smaller name keeps the point, a larger one loses it. */
  lemma AddingNext(hash: Bytes -> u32, names: seq<Bytes>, nodes: map<u32, nat>, n: nat, value: u32)
    requires names != [] && Adding(hash, names, nodes, n) && value == Point(hash, names[|names| - 1], n)
    ensures value in nodes ==> nodes[value] < |names|
    ensures value in nodes && Cmp(names[nodes[value]], names[|names| - 1]) < 0 ==> Adding(hash, names, nodes, n + 1)
    ensures !(value in nodes && Cmp(names[nodes[value]], names[|names| - 1]) < 0) ==>
      Adding(hash, names, nodes[value := |names| - 1], n + 1)
  {
    hide Cmp, Point, IsPoint, PartPoint;
    var last := names[|names| - 1];
    forall m, p
      ensures PartPoint(hash, names, m, p, n + 1) <==> PartPoint(hash, names, m, p, n) || (m == last && p == value)
    {
      PartPointNext(hash, names, n, value, m, p);
    }
    if value in nodes && Cmp(names[nodes[value]], last) < 0 {
      forall p | p in nodes
        ensures PartOwns(hash, names, names[nodes[p]], p, n + 1)
      {
        assert PartOwns(hash, names, names[nodes[p]], p, n);
      }
    } else {
      if value in nodes { LastIsSmallest(hash, names, nodes, n, value); }
      var nodes' := nodes[value := |names| - 1];
      forall p | p in nodes'
        ensures PartOwns(hash, names, names[nodes'[p]], p, n + 1)
      {
        if p != value { assert PartOwns(hash, names, names[nodes[p]], p, n); }
        else { NewOwner(hash, names, nodes, n, value); }
      }
    }
  }

  lemma LastIsSmallest(hash: Bytes -> u32, names: seq<Bytes>, nodes: map<u32, nat>, n: nat, value: u32)
    requires names != [] && Adding(hash, names, nodes, n) && value in nodes &&
             Cmp(names[nodes[value]], names[|names| - 1]) >= 0
    ensures forall m :: m in names && PartPoint(hash, names, m, value, n) ==> Cmp(names[|names| - 1], m) <= 0
  {
    hide Cmp, PartPoint;
    var last, owner := names[|names| - 1], names[nodes[value]];
    assert PartOwns(hash, names, owner, value, n);
    CmpAntisymmetric(owner, last);
    forall m | m in names && PartPoint(hash, names, m, value, n)
      ensures Cmp(last, m) <= 0
    {
      CmpTransitive(last, owner, m);
    }
  }

  lemma NewOwner(hash: Bytes -> u32, names: seq<Bytes>, nodes: map<u32, nat>, n: nat, value: u32)
    requires names != [] && Adding(hash, names, nodes, n) && value == Point(hash, names[|names| - 1], n)
    requires value in nodes ==> forall m :: m in names && PartPoint(hash, names, m, value, n) ==>
               Cmp(names[|names| - 1], m) <= 0
    ensures PartOwns(hash, names, names[|names| - 1], value, n + 1)
  {
    hide Cmp, Point, PartPoint;
    var last := names[|names| - 1];
    forall m
      ensures PartPoint(hash, names, m, value, n + 1) <==> PartPoint(hash, names, m, value, n) || m == last
    {
      PartPointNext(hash, names, n, value, m, value);
    }
    assert Cmp(last, last) == 0;
    assert last in names;
    forall m | m in names && PartPoint(hash, names, m, value, n + 1)
      ensures Cmp(last, m) <= 0
    {
      if m != last { assert PartPoint(hash, names, m, value, n); }
    }
  }

  lemma AddingEnds(hash: Bytes -> u32, names: seq<Bytes>, nodes: map<u32, nat>)
    requires names != [] && Adding(hash, names, nodes, VIRTUAL_NODE_COUNT)
    ensures RingOk(hash, names, nodes)
  {
    hide Cmp;
    assert forall m, p :: PartPoint(hash, names, m, p, VIRTUAL_NODE_COUNT) <==> IsPoint(hash, m, p);
    forall p | p in nodes
      ensures Owns(hash, names, names[nodes[p]], p)
    {
      assert PartOwns(hash, names, names[nodes[p]], p, VIRTUAL_NODE_COUNT);
    }
  }

  /** A name's points are the hashes of name#0 to name#99. */
  lemma PointsMean(hash: Bytes -> u32, name: Bytes, p: u32)
    ensures IsPoint(hash, name, p) <==> exists i: nat :: i < 100 && p == hash(name + [35] + TwoDigits(i))
  {
    forall i: nat | i < 100
      ensures KeyFormat.Digits(i) == TwoDigits(i)
    {
    }
    if i: nat :| i < 100 && p == hash(name + [35] + TwoDigits(i)) { assert Point(hash, name, i) == p; }
  }

  function TwoDigits(i: nat): (d: Bytes)
    requires i < 100
  {
    if i < 10 then [48 + i] else [48 + i / 10, 48 + i % 10]
  }

  /** The first point strictly after h, or the very first if there is none after it. */
  lemma NextMeans(points: set<u32>, h: u32, p: u32)
    ensures IsNext(points, h, p) <==>
            p in points &&
            if exists q :: q in points && q > h then p > h && forall q :: q in points && q > h ==> q >= p
            else forall q :: q in points ==> q >= p
  {
  }
}
