/**
 SkipList: nodes in one chain, with a forward pointer for each of their levels.
 */
module SkipList {
  import opened ByteText

  const MAX_LEVEL: nat := 16
  const EPSILON: real := 0.0001

  datatype Item = Item(key: real, value: Bytes)

  class Node {
    var key: real
    var value: Bytes
    var nodeLevel: nat
    var backward: Node?
    var forward: seq<Node?>

    /** CreateNode: the memory is cleared. */
    constructor (level: nat, key: real, value: Bytes)
      ensures this.key == key && this.value == value && nodeLevel == level && backward == null &&
              forward == seq(MAX_LEVEL, _ => null)
    {
      this.key, this.value, nodeLevel, backward := key, value, level, null;
      forward := seq(MAX_LEVEL, _ => null);
    }
  }

  // ---- chains as values: `lv` holds each node's number of levels, the first and the last node are on all levels ----

  predicate OnLevel(lv: seq<nat>, p: nat, i: nat)
    requires p < |lv|
  {
    p == 0 || p == |lv| - 1 || lv[p] > i
  }

  /** The next node on level i. */
  function NextOn(lv: seq<nat>, p: nat, i: nat): (q: nat)
    requires p < |lv| - 1
    ensures p < q < |lv| && OnLevel(lv, q, i) && forall r :: p < r < q ==> !OnLevel(lv, r, i)
    decreases |lv| - p
  {
    if OnLevel(lv, p + 1, i) then p + 1 else NextOn(lv, p + 1, i)
  }

  /** Every forward pointer in use leads to the next node that is on its level. */
  ghost predicate Links(chain: seq<Node>, lv: seq<nat>, fw: seq<seq<Node?>>) {
    |chain| == |lv| == |fw| && (forall p :: 0 <= p < |fw| ==> |fw[p]| == MAX_LEVEL) &&
    forall p, i :: 0 <= p < |chain| - 1 && 0 <= i < MAX_LEVEL && OnLevel(lv, p, i) ==>
      fw[p][i] == chain[NextOn(lv, p, i)]
  }

  /** A new element after index `pos`. */
  function InsertAfter<T>(s: seq<T>, pos: nat, x: T): (r: seq<T>)
    requires pos < |s|
    ensures |r| == |s| + 1 && r[pos + 1] == x && (forall p :: 0 <= p <= pos ==> r[p] == s[p]) &&
            forall p :: pos < p < |s| ==> r[p + 1] == s[p]
  {
    s[..pos + 1] + [x] + s[pos + 1..]
  }

  /** Where index p of the old chain is in the new one. */
  function Up(p: nat, pos: nat): (r: nat) {
    if p <= pos then p else p + 1
  }

  /** Index p is the last one on level i up to `pos`. */
  ghost predicate LastOn(lv: seq<nat>, p: nat, i: nat, pos: nat) {
    p <= pos < |lv| - 1 && OnLevel(lv, p, i) && forall r :: p < r <= pos ==> !OnLevel(lv, r, i)
  }

  lemma NextUnique(lv: seq<nat>, p: nat, i: nat, q: nat)
    requires p < q < |lv| && OnLevel(lv, q, i) && forall r :: p < r < q ==> !OnLevel(lv, r, i)
    ensures NextOn(lv, p, i) == q
  {
    var n := NextOn(lv, p, i);
  }

  lemma OnLevelUp(lv: seq<nat>, pos: nat, nl: nat, i: nat, p: nat)
    requires pos < |lv| - 1 && p < |lv|
    ensures OnLevel(InsertAfter(lv, pos, nl), Up(p, pos), i) <==> OnLevel(lv, p, i)
  {
  }

  /** A node that is not the last one before the new node, or that is below it, keeps its successor. */
  lemma NextUp(lv: seq<nat>, pos: nat, nl: nat, i: nat, p: nat)
    requires pos < |lv| - 1 && p < |lv| - 1 && OnLevel(lv, p, i) && (i < nl ==> !LastOn(lv, p, i, pos))
    ensures Up(p, pos) < |lv| && NextOn(InsertAfter(lv, pos, nl), Up(p, pos), i) == Up(NextOn(lv, p, i), pos)
  {
    hide InsertAfter;
    var lv', q := InsertAfter(lv, pos, nl), NextOn(lv, p, i);
    forall r | Up(p, pos) < r < Up(q, pos)
      ensures !OnLevel(lv', r, i)
    {
      if r != pos + 1 { OnLevelUp(lv, pos, nl, i, if r <= pos then r else r - 1); }
    }
    OnLevelUp(lv, pos, nl, i, q);
    NextUnique(lv', Up(p, pos), i, Up(q, pos));
  }

  /** On its levels, the new node comes between the last node before it and that one's successor. */
  lemma NextNew(lv: seq<nat>, pos: nat, nl: nat, i: nat, p: nat)
    requires i < nl && LastOn(lv, p, i, pos)
    ensures var lv' := InsertAfter(lv, pos, nl);
      NextOn(lv', p, i) == pos + 1 && NextOn(lv', pos + 1, i) == NextOn(lv, p, i) + 1
    ensures NextOn(lv, p, i) > pos
  {
    var lv', q := InsertAfter(lv, pos, nl), NextOn(lv, p, i);
    forall r | p < r < pos + 1
      ensures !OnLevel(lv', r, i)
    {
      OnLevelUp(lv, pos, nl, i, r);
    }
    NextUnique(lv', p, i, pos + 1);
    forall r | pos + 1 < r < q + 1
      ensures !OnLevel(lv', r, i)
    {
      OnLevelUp(lv, pos, nl, i, r - 1);
    }
    OnLevelUp(lv, pos, nl, i, q);
    NextUnique(lv', pos + 1, i, q + 1);
  }

  lemma LastUnique(lv: seq<nat>, p: nat, q: nat, i: nat, pos: nat)
    requires LastOn(lv, p, i, pos) && LastOn(lv, q, i, pos)
    ensures p == q
  {
  }

  /**
   The forward pointers after a node with nl levels has been put after `pos`, where `preds` are the last nodes before
   it.
   */
  ghost predicate Relinked(fw: seq<seq<Node?>>, fw': seq<seq<Node?>>, preds: seq<nat>, pos: nat, nl: nat, n: Node) {
    |fw'| == |fw| + 1 && pos < |fw| && nl <= |preds| && nl <= MAX_LEVEL &&
    (forall p :: 0 <= p < |fw'| ==> |fw'[p]| == MAX_LEVEL) &&
    (forall p :: 0 <= p < |fw| ==> |fw[p]| == MAX_LEVEL) && (forall i :: 0 <= i < nl ==> preds[i] < |fw|) &&
    (forall p, i :: 0 <= p < |fw| && 0 <= i < MAX_LEVEL ==>
     fw'[Up(p, pos)][i] == if i < nl && preds[i] == p then n else fw[p][i]) &&
    forall i :: 0 <= i < nl ==> fw'[pos + 1][i] == fw[preds[i]][i]
  }

  /** Inserting a node keeps every level exactly the nodes that are tall enough. */
  lemma LinksKept(chain: seq<Node>, lv: seq<nat>, fw: seq<seq<Node?>>, fw': seq<seq<Node?>>, preds: seq<nat>, pos: nat,
                  nl: nat, n: Node)
    requires Links(chain, lv, fw) && pos < |chain| - 1 && Relinked(fw, fw', preds, pos, nl, n)
    requires forall i :: 0 <= i < nl ==> LastOn(lv, preds[i], i, pos)
    ensures Links(InsertAfter(chain, pos, n), InsertAfter(lv, pos, nl), fw')
  {
    var chain', lv' := InsertAfter(chain, pos, n), InsertAfter(lv, pos, nl);
    forall p', i | 0 <= p' < |chain'| - 1 && 0 <= i < MAX_LEVEL && OnLevel(lv', p', i)
      ensures fw'[p'][i] == chain'[NextOn(lv', p', i)]
    {
      LinkKept(chain, lv, fw, fw', preds, pos, nl, n, p', i);
    }
  }

  lemma LinkKept(chain: seq<Node>, lv: seq<nat>, fw: seq<seq<Node?>>, fw': seq<seq<Node?>>, preds: seq<nat>, pos: nat,
                 nl: nat, n: Node, p': nat, i: nat)
    requires Links(chain, lv, fw) && pos < |chain| - 1 && Relinked(fw, fw', preds, pos, nl, n)
    requires forall i :: 0 <= i < nl ==> LastOn(lv, preds[i], i, pos)
    requires p' < |chain| && i < MAX_LEVEL && OnLevel(InsertAfter(lv, pos, nl), p', i)
    ensures var lv' := InsertAfter(lv, pos, nl); fw'[p'][i] == InsertAfter(chain, pos, n)[NextOn(lv', p', i)]
  {
    hide InsertAfter, OnLevel, NextOn, LastOn, Links, Relinked;
    if p' == pos + 1 {
      NewLink(chain, lv, fw, fw', preds, pos, nl, n, i);
    } else {
      OldLink(chain, lv, fw, fw', preds, pos, nl, n, if p' <= pos then p' else p' - 1, i);
    }
  }

  /** The new node's own link. */
  lemma NewLink(chain: seq<Node>, lv: seq<nat>, fw: seq<seq<Node?>>, fw': seq<seq<Node?>>, preds: seq<nat>, pos: nat,
                nl: nat, n: Node, i: nat)
    requires Links(chain, lv, fw) && pos < |chain| - 1 && Relinked(fw, fw', preds, pos, nl, n)
    requires forall i :: 0 <= i < nl ==> LastOn(lv, preds[i], i, pos)
    requires i < MAX_LEVEL && OnLevel(InsertAfter(lv, pos, nl), pos + 1, i)
    ensures fw'[pos + 1][i] == InsertAfter(chain, pos, n)[NextOn(InsertAfter(lv, pos, nl), pos + 1, i)]
  {
    hide InsertAfter, OnLevel, NextOn, LastOn;
    NewOnLevel(lv, pos, nl, i);
    LastIsOn(lv, preds[i], i, pos);
    NextNew(lv, pos, nl, i, preds[i]);
  }

  /** The link of a node that was there before. */
  lemma OldLink(chain: seq<Node>, lv: seq<nat>, fw: seq<seq<Node?>>, fw': seq<seq<Node?>>, preds: seq<nat>, pos: nat,
                nl: nat, n: Node, p: nat, i: nat)
    requires Links(chain, lv, fw) && pos < |chain| - 1 && Relinked(fw, fw', preds, pos, nl, n)
    requires forall i :: 0 <= i < nl ==> LastOn(lv, preds[i], i, pos)
    requires p < |chain| - 1 && i < MAX_LEVEL && OnLevel(InsertAfter(lv, pos, nl), Up(p, pos), i)
    ensures fw'[Up(p, pos)][i] == InsertAfter(chain, pos, n)[NextOn(InsertAfter(lv, pos, nl), Up(p, pos), i)]
  {
    hide InsertAfter, OnLevel, NextOn, LastOn;
    OnLevelUp(lv, pos, nl, i, p);
    if i < nl && preds[i] == p {
      NextNew(lv, pos, nl, i, p);
      LastIsOn(lv, p, i, pos);
    } else {
      if i < nl && LastOn(lv, p, i, pos) { LastUnique(lv, p, preds[i], i, pos); }
      NextUp(lv, pos, nl, i, p);
    }
    assert fw'[Up(p, pos)][i] == if i < nl && preds[i] == p then n else fw[p][i];
  }

  lemma LastIsOn(lv: seq<nat>, p: nat, i: nat, pos: nat)
    requires LastOn(lv, p, i, pos)
    ensures p <= pos < |lv| - 1 && OnLevel(lv, p, i)
  {
  }

  lemma NewOnLevel(lv: seq<nat>, pos: nat, nl: nat, i: nat)
    requires pos < |lv| - 1 && OnLevel(InsertAfter(lv, pos, nl), pos + 1, i)
    ensures i < nl
  {
  }

  // ---- the search ----

  /** The condition under which the search passes a node with key k. */
  predicate Passes(k: real, key: real) {
    k < key || (k - key < EPSILON && k - key > -EPSILON)
  }

  /** A key is passed if it is less than 0.0001 above. */
  lemma PassesMeans(k: real, key: real)
    ensures Passes(k, key) <==> k < key + 0.0001
  {
  }

  /** The search on level i stops at p: the next node there is the footer or does not pass. */
  ghost predicate StopsAt(lv: seq<nat>, items: seq<Item>, key: real, p: nat, i: nat) {
    |lv| == |items| + 2 && p < |lv| - 1 && OnLevel(lv, p, i) &&
    var q := NextOn(lv, p, i); q == |lv| - 1 || !Passes(items[q - 1].key, key)
  }

  /** A step on a lower level does not overtake the stop on a higher one. */
  lemma StepStays(lv: seq<nat>, items: seq<Item>, key: real, p: nat, i: nat, above: nat, j: nat)
    requires i < j && StopsAt(lv, items, key, above, j) && above <= p < NextOn(lv, above, j)
    requires p < |lv| - 1 && var q := NextOn(lv, p, i); q < |lv| - 1 && Passes(items[q - 1].key, key)
    ensures NextOn(lv, p, i) < NextOn(lv, above, j)
  {
    var q, qj := NextOn(lv, p, i), NextOn(lv, above, j);
    assert OnLevel(lv, qj, i);
  }

  lemma StopIsLast(lv: seq<nat>, items: seq<Item>, key: real, p: nat, i: nat, pos: nat)
    requires StopsAt(lv, items, key, p, i) && p <= pos < NextOn(lv, p, i)
    ensures LastOn(lv, p, i, pos)
  {
  }

  lemma StopAhead(lv: seq<nat>, items: seq<Item>, key: real, p: nat, i: nat)
    requires StopsAt(lv, items, key, p, i)
    ensures p < |lv| - 1 && p < NextOn(lv, p, i)
  {
  }

  /** Where a new item goes: after one that passes, before one that does not. */
  ghost predicate GoesAt(items: seq<Item>, key: real, pos: nat) {
    pos <= |items| && (pos > 0 ==> Passes(items[pos - 1].key, key)) && (pos < |items| ==> !Passes(items[pos].key, key))
  }

  lemma GoesAfterStop(lv: seq<nat>, items: seq<Item>, key: real, p: nat)
    requires StopsAt(lv, items, key, p, 0) && (forall r :: 0 < r < |lv| - 1 ==> lv[r] >= 1) &&
             (p > 0 ==> Passes(items[p - 1].key, key))
    ensures GoesAt(items, key, p) && NextOn(lv, p, 0) == p + 1
  {
    assert OnLevel(lv, p + 1, 0);
  }

  /** The nodes are different and hold these forward pointers. */
  ghost predicate Holds(chain: seq<Node>, fw: seq<seq<Node?>>)
    reads chain
  {
    |chain| == |fw| && (forall p, q :: 0 <= p < q < |chain| ==> chain[p] != chain[q]) &&
    forall p :: 0 <= p < |chain| ==> chain[p].forward == fw[p]
  }

  /** Backward pointers lead to the node before. */
  ghost predicate Backs(chain: seq<Node>)
    reads chain
  {
    forall p :: 0 < p < |chain| ==> chain[p].backward == chain[p - 1]
  }

  /** The nodes hold these items and numbers of levels. */
  ghost predicate Stores(chain: seq<Node>, lv: seq<nat>, items: seq<Item>)
    reads chain
  {
    |chain| == |lv| == |items| + 2 &&
    forall p :: 0 < p < |chain| - 1 ==>
      chain[p].nodeLevel == lv[p] && chain[p].key == items[p - 1].key && chain[p].value == items[p - 1].value
  }

  ghost predicate LevelsUpTo(lv: seq<nat>, level: nat) {
    forall p :: 0 < p < |lv| - 1 ==> 1 <= lv[p] <= level
  }

  class SkipList {
    var level: nat
    var header: Node
    var footer: Node
    var nodeCount: nat
    ghost var items: seq<Item>
    ghost var chain: seq<Node>
    ghost var lv: seq<nat>
    ghost var fw: seq<seq<Node?>>

    /**
     Header, nodes and footer form one chain; each level links the nodes that are tall enough; backward pointers
     mirror level 0.
     */
    ghost predicate Valid()
      reads this, chain
    {
      |chain| >= 2 && chain[0] == header && chain[|chain| - 1] == footer && Links(chain, lv, fw) && Holds(chain, fw) &&
      Backs(chain) &&
      LevelsUpTo(lv, level) && level <= MAX_LEVEL && nodeCount == |items| == |chain| - 2 && Stores(chain, lv, items)
    }

    lemma Shape()
      requires Valid()
      ensures |chain| == |lv| == |fw| == |items| + 2 && nodeCount == |items|
    {
      hide NextOn, OnLevel, Holds, Backs, Stores;
    }

    /** InitList, when the pool has memory for both nodes */
    constructor ()
      ensures Valid() && items == []
    {
      var f := new Node(1, 0.0, []);
      var h := new Node(MAX_LEVEL, 0.0, []);
      h.forward := seq(MAX_LEVEL, _ => f);
      f.backward := h;
      header, footer, nodeCount, level := h, f, 0, 0;
      items, chain, lv, fw := [], [h, f], [MAX_LEVEL, 1], [h.forward, f.forward];
    }

    /** The stops on the levels above i, which the search has not overtaken. */
    ghost predicate Stopped(key: real, preds: seq<nat>, pos: nat, i: int)
      reads this
    {
      |preds| == MAX_LEVEL && level <= MAX_LEVEL &&
      forall j :: 0 <= j < level && i < j ==>
        StopsAt(lv, items, key, preds[j], j) && preds[j] <= pos < NextOn(lv, preds[j], j)
    }

    /** The search has come to the node at `pos`, on level i or above. */
    ghost predicate Arrived(node: Node, key: real, pos: nat, i: int)
      reads this
    {
      |lv| == |chain| == |items| + 2 && pos < |chain| - 1 && node == chain[pos] &&
      (pos == 0 || (lv[pos] > i && Passes(items[pos - 1].key, key)))
    }

    lemma Ahead(node: Node, key: real, pos: nat, i: nat)
      requires Valid() && Arrived(node, key, pos, i) && i < level
      ensures |node.forward| == MAX_LEVEL && OnLevel(lv, pos, i)
      ensures var q := NextOn(lv, pos, i); node.forward[i] == chain[q] && (chain[q] == footer <==> q == |chain| - 1)
      ensures var q := NextOn(lv, pos, i); q < |chain| - 1 ==> lv[q] > i && chain[q].key == items[q - 1].key
    {
    }

    /** The search along one level. */
    method Advance(start: Node, i: nat, key: real, ghost preds: seq<nat>, ghost from: nat)
      returns (node: Node, ghost pos: nat)
      requires Valid() && i < level && Arrived(start, key, from, i) && Stopped(key, preds, from, i)
      ensures Arrived(node, key, pos, i) && Stopped(key, preds, pos, i) && StopsAt(lv, items, key, pos, i)
    {
      hide NextOn, OnLevel, Valid;
      node, pos := start, from;
      Ahead(node, key, pos, i);
      while node.forward[i] != footer && Passes(node.forward[i].key, key)
        invariant Arrived(node, key, pos, i) && Stopped(key, preds, pos, i)
        invariant |node.forward| == MAX_LEVEL && node.forward[i] != null
        decreases |chain| - pos
      {
        Ahead(node, key, pos, i);
        ghost var q := NextOn(lv, pos, i);
        forall j | i < j < level
          ensures preds[j] <= q < NextOn(lv, preds[j], j)
        {
          StepStays(lv, items, key, pos, i, preds[j], j);
        }
        node := node.forward[i];
        pos := q;
        Ahead(node, key, pos, i);
      }
      Ahead(node, key, pos, i);
    }

    lemma StoppedNext(key: real, preds: seq<nat>, pos: nat, i: nat)
      requires Stopped(key, preds, pos, i) && i < level && StopsAt(lv, items, key, pos, i)
      ensures Stopped(key, preds[i := pos], pos, i - 1)
    {
      hide NextOn, OnLevel, StopsAt;
      StopAhead(lv, items, key, pos, i);
    }

    /** The search in InsertNode: the last node to pass on each level in use. */
    method FindUpdate(key: real) returns (update: seq<Node?>, ghost preds: seq<nat>, ghost pos: nat)
      requires Valid()
      ensures |update| == |preds| == MAX_LEVEL && GoesAt(items, key, pos)
      ensures forall i :: 0 <= i < level ==>
                preds[i] < |chain| && update[i] == chain[preds[i]] && LastOn(lv, preds[i], i, pos)
    {
      hide NextOn, OnLevel, StopsAt, LastOn, Links, Holds, Backs, Stores, Passes;
      Shape();
      update, preds := seq(MAX_LEVEL, _ => null), seq(MAX_LEVEL, _ => 0);
      var node, i := header, level - 1;
      pos := 0;
      while i >= 0
        invariant -1 <= i < level && Arrived(node, key, pos, i) && Stopped(key, preds, pos, i) && |update| == MAX_LEVEL
        invariant forall j :: i < j < level ==> preds[j] < |chain| && update[j] == chain[preds[j]]
        invariant i < 0 < level ==> StopsAt(lv, items, key, pos, 0)
      {
        node, pos := Advance(node, i, key, preds, pos);
        StopAhead(lv, items, key, pos, i);
        StoppedNext(key, preds, pos, i);
        update, preds := update[i := node], preds[i := pos];
        i := i - 1;
      }
      forall j | 0 <= j < level
        ensures LastOn(lv, preds[j], j, pos)
      {
        StopIsLast(lv, items, key, preds[j], j, pos);
      }
      assert |chain| > 2 ==> 1 <= lv[1] <= level;
      if level > 0 { GoesAfterStop(lv, items, key, pos); }
    }

    /** Sets the backward pointers around the new node, which comes after `pred`. */
    method LinkBack(n: Node, pred: Node, ghost p: nat, ghost pos: nat)
      requires Links(chain, lv, fw) && Holds(chain, fw) && Stores(chain, lv, items) && Backs(chain) &&
               LevelsUpTo(lv, MAX_LEVEL) && n !in chain
      requires p < |chain| && pred == chain[p] && LastOn(lv, p, 0, pos)
      modifies chain`backward, n`backward
      ensures NewBacks(chain, pos, n) && Holds(chain, fw) && Stores(chain, lv, items)
    {
      hide NextOn, OnLevel;
      FirstLink(chain, lv, fw, p, pos);
      pred.forward[0].backward := n;
      n.backward := pred;
    }

    /** Links the new node on level i, after the node at index p. */
    method LinkOn(n: Node, node: Node, i: nat, ghost p: nat, ghost pos: nat, ghost fwNow: seq<seq<Node?>>)
      requires Holds(chain, fwNow) && Stores(chain, lv, items) && NewBacks(chain, pos, n) && n !in chain
      requires p < |chain| && node == chain[p] && i < |n.forward| && i < |fwNow[p]|
      modifies node`forward, n`forward
      ensures Holds(chain, fwNow[p := fwNow[p][i := n]]) && Stores(chain, lv, items) && NewBacks(chain, pos, n)
      ensures n.forward == old(n.forward)[i := fwNow[p][i]]
    {
      n.forward := n.forward[i := node.forward[i]];
      node.forward := node.forward[i := n];
    }

    /** Links the new node on its levels. */
    method Relink(n: Node, update: seq<Node?>, nl: nat, ghost preds: seq<nat>, ghost pos: nat)
      returns (ghost fwNow: seq<seq<Node?>>)
      requires Links(chain, lv, fw) && Holds(chain, fw) && Stores(chain, lv, items) && NewBacks(chain, pos, n) &&
               n !in chain && |n.forward| == MAX_LEVEL
      requires nl <= MAX_LEVEL == |update| == |preds| && pos < |chain| - 1
      requires forall i :: 0 <= i < nl ==> preds[i] < |chain| && update[i] == chain[preds[i]]
      modifies chain`forward, n`forward
      ensures |fwNow| == |fw| && Holds(chain, fwNow) && Stores(chain, lv, items) && NewBacks(chain, pos, n)
      ensures Relinked(fw, InsertAfter(fwNow, pos, n.forward), preds, pos, nl, n)
    {
      hide Holds, Stores, NewBacks, Relinked, InsertAfter, NextOn, OnLevel;
      fwNow := fw;
      var i := nl - 1;
      while i >= 0
        invariant -1 <= i < nl && Holds(chain, fwNow) && Stores(chain, lv, items) && NewBacks(chain, pos, n)
        invariant RelinkedFrom(fw, fwNow, n.forward, preds, nl, n, i + 1)
      {
        LinkOn(n, update[i], i, preds[i], pos, fwNow);
        fwNow := fwNow[preds[i] := fwNow[preds[i]][i := n]];
        i := i - 1;
      }
      RelinkedIs(fw, fwNow, n.forward, preds, pos, nl, n);
    }

    /** Sets the pointers around the new node. */
    method Attach(n: Node, update: seq<Node?>, nl: nat, ghost preds: seq<nat>, ghost pos: nat)
      returns (ghost fwNow: seq<seq<Node?>>)
      requires Valid() && 1 <= nl <= level && |update| == |preds| == MAX_LEVEL && pos <= |items| && n !in chain &&
               |n.forward| == MAX_LEVEL
      requires forall i :: 0 <= i < nl ==>
                 preds[i] < |chain| && update[i] == chain[preds[i]] && LastOn(lv, preds[i], i, pos)
      modifies chain`backward, chain`forward, n`backward, n`forward
      ensures |fwNow| == |fw| && Attached(chain, lv, fw, items, fwNow, preds, pos, nl, n, header, footer, level)
    {
      hide NextOn, OnLevel, InsertAfter, Links, LastOn, Relinked, Holds, Backs, Stores, NewBacks;
      Shape();
      LinkBack(n, update[0], preds[0], pos);
      fwNow := Relink(n, update, nl, preds, pos);
    }

    /** The second half of InsertNode: a node with nl levels is created and linked after the nodes found. */
    method AddNode(key: real, value: Bytes, update: seq<Node?>, nl: nat, ghost preds: seq<nat>, ghost pos: nat)
      requires Valid() && 1 <= nl <= level && |update| == |preds| == MAX_LEVEL && pos <= |items|
      requires forall i :: 0 <= i < nl ==>
                 preds[i] < |chain| && update[i] == chain[preds[i]] && LastOn(lv, preds[i], i, pos)
      modifies this`nodeCount, this`items, this`chain, this`lv, this`fw, chain
      ensures Valid() && fresh(set n | n in chain && n !in old(chain)) && lv == InsertAfter(old(lv), pos, nl)
      ensures items == old(items)[..pos] + [Item(key, value)] + old(items)[pos..]
    {
      hide SkipList.Valid, InsertAfter, LastOn, Attached;
      Shape();
      var n := new Node(nl, key, value);
      ghost var fwNow := Attach(n, update, nl, preds, pos);
      ghost var c, l, f, t := chain, lv, fw, items;
      nodeCount := nodeCount + 1;
      items := items[..pos] + [Item(key, value)] + items[pos..];
      chain, lv, fw := InsertAfter(c, pos, n), InsertAfter(l, pos, nl), InsertAfter(fwNow, pos, n.forward);
      Inserted(c, l, f, t, fwNow, preds, pos, nl, n);
    }

    /** The chain with the new node, put together. */
    lemma Inserted(c: seq<Node>, l: seq<nat>, f: seq<seq<Node?>>, t: seq<Item>, fwNow: seq<seq<Node?>>, preds: seq<nat>,
                   pos: nat, nl: nat, n: Node)
      requires Attached(c, l, f, t, fwNow, preds, pos, nl, n, header, footer, level) && n.nodeLevel == nl &&
               nodeCount == |t| + 1
      requires pos < |c| && pos < |l| && pos < |fwNow| && pos <= |t|
      requires chain == InsertAfter(c, pos, n) && lv == InsertAfter(l, pos, nl) &&
               fw == InsertAfter(fwNow, pos, n.forward)
      requires items == t[..pos] + [Item(n.key, n.value)] + t[pos..]
      ensures Valid() && forall x :: x in chain ==> x in c || x == n
    {
      hide NextOn, OnLevel, InsertAfter, Links, LastOn, Relinked, Holds, Backs, Stores, LevelsUpTo, NewBacks;
      NewBacksAt(c, pos, n);
      LinksKept(c, l, f, fw, preds, pos, nl, n);
      HoldsInserted(c, fwNow, pos, n);
      BacksInserted(c, pos, n);
      StoresInserted(c, l, t, pos, n);
      LevelsInserted(l, level, pos, nl);
      ChainInserted(c, pos, n);
    }

    /** InsertNode; `rnd` is the random level and `alloc` whether the pool has memory. */
    method InsertNode(key: real, value: Bytes, rnd: nat, alloc: bool) returns (ok: bool, ghost pos: nat)
      requires Valid() && 1 <= rnd <= 16
      modifies this, chain
      ensures Valid() && ok == alloc && fresh(set n | n in chain && n !in old(chain)) && old(level) <= level
      ensures !ok ==> items == old(items) && lv == old(lv)
      ensures ok ==> GoesAt(old(items), key, pos) && items == old(items)[..pos] + [Item(key, value)] + old(items)[pos..]
      ensures ok ==> var nl: nat := if rnd > old(level) then old(level) + 1 else rnd;
                     pos < |old(lv)| && lv == InsertAfter(old(lv), pos, nl)
    {
      hide NextOn, OnLevel, InsertAfter, Links, LastOn, Relinked, GoesAt, Holds, Backs, Stores;
      Shape();
      var update;
      ghost var preds;
      update, preds, pos := FindUpdate(key);
      GoesInside(items, key, pos);
      var nl := rnd;
      if nl > level {
        HeaderIsLast(lv, level, pos);
        level := level + 1;
        nl := level;
        update := update[nl - 1 := header];
        preds := preds[nl - 1 := 0];
      }
      if !alloc { return false, pos; }
      AddNode(key, value, update, nl, preds, pos);
      ok := true;
    }
  }

  lemma HoldsInserted(chain: seq<Node>, fw: seq<seq<Node?>>, pos: nat, n: Node)
    requires Holds(chain, fw) && n !in chain && pos < |chain|
    ensures Holds(InsertAfter(chain, pos, n), InsertAfter(fw, pos, n.forward))
  {
    var c', fw' := InsertAfter(chain, pos, n), InsertAfter(fw, pos, n.forward);
    forall p | 0 <= p < |c'|
      ensures c'[p].forward == fw'[p]
    {
      if p > pos + 1 { assert c'[(p - 1) + 1] == chain[p - 1] && fw'[(p - 1) + 1] == fw[p - 1]; }
    }
  }

  /** The new node's backward pointers are set, and it is not yet in the chain. */
  ghost predicate NewBacks(chain: seq<Node>, pos: nat, n: Node)
    reads chain, n
  {
    pos < |chain| - 1 && n.backward == chain[pos] && chain[pos + 1].backward == n &&
    forall p :: 0 < p < |chain| && p != pos + 1 ==> chain[p].backward == chain[p - 1]
  }

  lemma NewBacksAt(chain: seq<Node>, pos: nat, n: Node)
    requires NewBacks(chain, pos, n)
    ensures pos < |chain| - 1
  {
  }

  /** The chain `c` with all pointers set for the new node n, which is not yet counted among its nodes. */
  ghost predicate Attached(c: seq<Node>, l: seq<nat>, f: seq<seq<Node?>>, t: seq<Item>, fwNow: seq<seq<Node?>>,
                           preds: seq<nat>, pos: nat, nl: nat, n: Node, header: Node, footer: Node, level: nat)
    reads c, n
  {
    Links(c, l, f) && Holds(c, fwNow) && Stores(c, l, t) && NewBacks(c, pos, n) && LevelsUpTo(l, level) && n !in c &&
    pos <= |t| &&
    1 <= nl <= level <= MAX_LEVEL && |c| >= 2 && c[0] == header && c[|c| - 1] == footer &&
    |c| == |l| == |fwNow| == |f| == |t| + 2 &&
    pos < |fwNow| && nl <= |preds| && Relinked(f, InsertAfter(fwNow, pos, n.forward), preds, pos, nl, n) &&
    forall i :: 0 <= i < nl ==> LastOn(l, preds[i], i, pos)
  }

  lemma ChainInserted(chain: seq<Node>, pos: nat, n: Node)
    requires pos < |chain| - 1
    ensures var c := InsertAfter(chain, pos, n);
      |c| == |chain| + 1 && c[0] == chain[0] && c[|c| - 1] == chain[|chain| - 1] &&
      forall x :: x in c ==> x in chain || x == n
  {
  }

  lemma BacksInserted(chain: seq<Node>, pos: nat, n: Node)
    requires NewBacks(chain, pos, n)
    ensures Backs(InsertAfter(chain, pos, n))
  {
    var c' := InsertAfter(chain, pos, n);
    forall p | 0 < p < |c'|
      ensures c'[p].backward == c'[p - 1]
    {
      if p > pos + 1 { assert c'[(p - 1) + 1] == chain[p - 1]; }
    }
  }

  lemma StoresInserted(chain: seq<Node>, lv: seq<nat>, items: seq<Item>, pos: nat, n: Node)
    requires Stores(chain, lv, items) && pos <= |items|
    ensures Stores(InsertAfter(chain, pos, n), InsertAfter(lv, pos, n.nodeLevel),
                   items[..pos] + [Item(n.key, n.value)] + items[pos..])
  {
    var c', lv', items' := InsertAfter(chain, pos, n), InsertAfter(lv, pos, n.nodeLevel),
      items[..pos] + [Item(n.key, n.value)] + items[pos..];
    forall p | 0 < p < |c'| - 1
      ensures c'[p].nodeLevel == lv'[p] && c'[p].key == items'[p - 1].key && c'[p].value == items'[p - 1].value
    {
      if p > pos + 1 {
        assert c'[(p - 1) + 1] == chain[p - 1] && lv'[(p - 1) + 1] == lv[p - 1] && items'[p - 1] == items[p - 2];
      }
    }
  }

  lemma LevelsInserted(lv: seq<nat>, level: nat, pos: nat, nl: nat)
    requires LevelsUpTo(lv, level) && pos < |lv| - 1 && 1 <= nl <= level
    ensures LevelsUpTo(InsertAfter(lv, pos, nl), level)
  {
    var lv' := InsertAfter(lv, pos, nl);
    forall p | 0 < p < |lv'| - 1
      ensures 1 <= lv'[p] <= level
    {
      if p > pos + 1 { assert lv'[(p - 1) + 1] == lv[p - 1]; }
    }
  }

  lemma GoesInside(items: seq<Item>, key: real, pos: nat)
    requires GoesAt(items, key, pos)
    ensures pos <= |items|
  {
  }

  /** No node is on a level that was not in use. */
  lemma HeaderIsLast(lv: seq<nat>, level: nat, pos: nat)
    requires pos < |lv| - 1 && forall p :: 0 < p < |lv| - 1 ==> lv[p] <= level
    ensures LastOn(lv, 0, level, pos)
  {
  }

  /** Every node is on level 0. */
  lemma FirstLink(chain: seq<Node>, lv: seq<nat>, fw: seq<seq<Node?>>, p: nat, pos: nat)
    requires Links(chain, lv, fw) && LastOn(lv, p, 0, pos) && forall p :: 0 < p < |lv| - 1 ==> lv[p] >= 1
    ensures p == pos && |fw[pos]| == MAX_LEVEL && fw[pos][0] == chain[pos + 1]
  {
    assert OnLevel(lv, pos, 0) && OnLevel(lv, pos + 1, 0);
  }

  /** The forward pointers after levels i and above have been linked. */
  ghost predicate RelinkedFrom(fw: seq<seq<Node?>>, fwNow: seq<seq<Node?>>, forward: seq<Node?>, preds: seq<nat>,
                               nl: nat, n: Node, i: nat) {
    |fwNow| == |fw| && nl <= |preds| && nl <= MAX_LEVEL && |forward| == MAX_LEVEL &&
    (forall k :: 0 <= k < nl ==> preds[k] < |fw|) &&
    (forall p :: 0 <= p < |fw| ==> |fw[p]| == |fwNow[p]| == MAX_LEVEL) &&
    (forall p, k :: 0 <= p < |fw| && 0 <= k < MAX_LEVEL ==>
     fwNow[p][k] == if i <= k < nl && preds[k] == p then n else fw[p][k]) &&
    forall k :: i <= k < nl ==> forward[k] == fw[preds[k]][k]
  }

  lemma RelinkedAt(fw: seq<seq<Node?>>, fwNow: seq<seq<Node?>>, forward: seq<Node?>, preds: seq<nat>, nl: nat, n: Node,
                   p: nat, i: nat)
    requires RelinkedFrom(fw, fwNow, forward, preds, nl, n, 0) && p < |fw| && i < MAX_LEVEL
    ensures fwNow[p][i] == if i < nl && preds[i] == p then n else fw[p][i]
  {
  }

  lemma RelinkedIs(fw: seq<seq<Node?>>, fwNow: seq<seq<Node?>>, forward: seq<Node?>, preds: seq<nat>, pos: nat, nl: nat,
                   n: Node)
    requires pos < |fw| && RelinkedFrom(fw, fwNow, forward, preds, nl, n, 0)
    ensures Relinked(fw, InsertAfter(fwNow, pos, forward), preds, pos, nl, n)
  {
    hide InsertAfter;
    var fw' := InsertAfter(fwNow, pos, forward);
    forall p | 0 <= p < |fw'|
      ensures |fw'[p]| == MAX_LEVEL
    {
      if p > pos + 1 {
        assert fw'[(p - 1) + 1] == fwNow[p - 1];
      } else if p <= pos {
        assert fw'[p] == fwNow[p];
      }
    }
    forall p, i | 0 <= p < |fw| && 0 <= i < MAX_LEVEL
      ensures fw'[Up(p, pos)][i] == if i < nl && preds[i] == p then n else fw[p][i]
    {
      if p > pos { assert fw'[p + 1] == fwNow[p]; }
      assert fw'[Up(p, pos)] == fwNow[p];
      RelinkedAt(fw, fwNow, forward, preds, nl, n, p, i);
    }
    forall i | 0 <= i < nl
      ensures fw'[pos + 1][i] == fw[preds[i]][i]
    {
      assert fw'[pos + 1] == forward;
    }
  }

  // ---- order ----

  ghost predicate Sorted(items: seq<Item>) {
    forall i, j :: 0 <= i < j < |items| ==> items[i].key <= items[j].key
  }

  /** The item goes after all whose keys are not larger. */
  ghost function InsertStable(items: seq<Item>, x: Item): (r: seq<Item>) {
    if items == [] || items[0].key > x.key then [x] + items else [items[0]] + InsertStable(items[1..], x)
  }

  lemma {:induction false} InsertStableAt(items: seq<Item>, x: Item, pos: nat)
    requires pos <= |items| && (forall i :: 0 <= i < pos ==> items[i].key <= x.key) &&
             (pos < |items| ==> items[pos].key > x.key)
    ensures InsertStable(items, x) == items[..pos] + [x] + items[pos..]
  {
    if pos > 0 {
      InsertStableAt(items[1..], x, pos - 1);
      assert items[1..][..pos - 1] == items[1..pos] && items[1..][pos - 1..] == items[pos..] &&
             items[..pos] == [items[0]] + items[1..pos];
    } else {
      assert items[..0] + [x] + items[0..] == [x] + items;
    }
  }

  /** A key just above the new one is passed by mistake: the list stays in order exactly if it holds none. */
  lemma InsertKeepsOrder(items: seq<Item>, x: Item, pos: nat)
    requires Sorted(items) && GoesAt(items, x.key, pos)
    ensures Sorted(items[..pos] + [x] + items[pos..]) <==> forall i :: 0 <= i < |items| ==>
              !(x.key < items[i].key < x.key + EPSILON)
    ensures Sorted(items[..pos] + [x] + items[pos..]) ==> items[..pos] + [x] + items[pos..] == InsertStable(items, x)
  {
    if forall i :: 0 <= i < |items| ==> !(x.key < items[i].key < x.key + EPSILON) {
      assert forall i :: 0 <= i < pos ==> items[i].key <= items[pos - 1].key;
      SortedInsert(items, x, pos);
      InsertStableAt(items, x, pos);
    } else {
      var i :| 0 <= i < |items| && x.key < items[i].key < x.key + EPSILON;
      UnsortedInsert(items, x, pos, i);
    }
  }

  lemma SortedInsert(items: seq<Item>, x: Item, pos: nat)
    requires Sorted(items) && pos <= |items| && (forall i :: 0 <= i < pos ==> items[i].key <= x.key) &&
             (pos < |items| ==> items[pos].key > x.key)
    ensures Sorted(items[..pos] + [x] + items[pos..])
  {
    var r := items[..pos] + [x] + items[pos..];
    forall i, j | 0 <= i < j < |r|
      ensures r[i].key <= r[j].key
    {
      if j > pos { assert r[j] == items[j - 1] && items[pos].key <= items[j - 1].key; }
      if i > pos { assert r[i] == items[i - 1]; }
    }
  }

  lemma UnsortedInsert(items: seq<Item>, x: Item, pos: nat, i: nat)
    requires Sorted(items) && GoesAt(items, x.key, pos) && i < |items| && x.key < items[i].key < x.key + EPSILON
    ensures !Sorted(items[..pos] + [x] + items[pos..])
  {
    var r := items[..pos] + [x] + items[pos..];
    assert forall j :: pos <= j < |items| ==> items[pos].key <= items[j].key;
    assert r[i] == items[i] && r[pos] == x;
  }

  /** A list that holds the key 1.00005 receives the key 1.0, which goes behind it. */
  lemma PassedByMistake(value: Bytes)
    ensures var items, x := [Item(1.00005, value)], Item(1.0, value);
      Sorted(items) && GoesAt(items, x.key, 1) && !Sorted(items[..1] + [x] + items[1..])
  {
    var items, x := [Item(1.00005, value)], Item(1.0, value);
    assert x.key < items[0].key < x.key + EPSILON;
    InsertKeepsOrder(items, x, 1);
  }

  /** All keys are equal or at least EPSILON apart. */
  ghost predicate Spaced(entries: seq<Item>) {
    forall i, j :: 0 <= i < |entries| && 0 <= j < |entries| ==>
      !(entries[i].key < entries[j].key < entries[i].key + EPSILON)
  }

  ghost function StableSort(entries: seq<Item>): (r: seq<Item>) {
    if entries == [] then [] else InsertStable(StableSort(entries[..|entries| - 1]), entries[|entries| - 1])
  }

  /** The items with one key, in order. */
  ghost function WithKey(items: seq<Item>, k: real): (r: seq<Item>) {
    if items == [] then [] else (if items[0].key == k then [items[0]] else []) + WithKey(items[1..], k)
  }

  lemma InsertStableKeeps(items: seq<Item>, x: Item, k: real)
    requires Sorted(items)
    ensures Sorted(InsertStable(items, x)) &&
            WithKey(InsertStable(items, x), k) == WithKey(items, k) + (if x.key == k then [x] else [])
    ensures forall y :: y in InsertStable(items, x) <==> y in items || y == x
  {
    hide *;
    InsertStableMembers(items, x);
    InsertStableSorted(items, x);
    InsertStableWith(items, x, k);
  }

  lemma {:induction false} InsertStableMembers(items: seq<Item>, x: Item)
    ensures forall y :: y in InsertStable(items, x) <==> y in items || y == x
  {
    if items != [] && items[0].key <= x.key {
      InsertStableMembers(items[1..], x);
      assert items == [items[0]] + items[1..];
    }
  }

  lemma {:induction false} InsertStableSorted(items: seq<Item>, x: Item)
    requires Sorted(items)
    ensures Sorted(InsertStable(items, x))
  {
    if items != [] && items[0].key <= x.key {
      InsertStableSorted(items[1..], x);
      InsertStableMembers(items[1..], x);
      SortedCons(items[0], InsertStable(items[1..], x));
    } else {
      SortedCons(x, items);
    }
  }

  lemma SortedCons(x: Item, items: seq<Item>)
    requires Sorted(items) && forall y :: y in items ==> x.key <= y.key
    ensures Sorted([x] + items)
  {
    var r := [x] + items;
    forall i, j | 0 <= i < j < |r|
      ensures r[i].key <= r[j].key
    {
      assert r[j] == items[j - 1];
      if i > 0 { assert r[i] == items[i - 1]; }
    }
  }

  lemma {:induction false} InsertStableWith(items: seq<Item>, x: Item, k: real)
    requires Sorted(items)
    ensures WithKey(InsertStable(items, x), k) == WithKey(items, k) + (if x.key == k then [x] else [])
  {
    if items != [] && items[0].key <= x.key {
      InsertStableWith(items[1..], x, k);
      WithKeyCons(items[0], InsertStable(items[1..], x), k);
    } else {
      WithKeyCons(x, items, k);
      if items != [] && x.key == k { NoneWith(items, k); }
    }
  }

  lemma WithKeyCons(x: Item, items: seq<Item>, k: real)
    ensures WithKey([x] + items, k) == (if x.key == k then [x] else []) + WithKey(items, k)
  {
    assert ([x] + items)[1..] == items;
  }

  lemma {:induction false} NoneWith(items: seq<Item>, k: real)
    requires Sorted(items) && items != [] && items[0].key > k
    ensures WithKey(items, k) == []
  {
    if |items| > 1 { NoneWith(items[1..], k); }
  }

  /** The result is in order, and items with equal keys stay in the order in which they came. */
  lemma {:induction false} StableSortStable(entries: seq<Item>, k: real)
    ensures Sorted(StableSort(entries)) && WithKey(StableSort(entries), k) == WithKey(entries, k)
    ensures forall y :: y in StableSort(entries) <==> y in entries
  {
    if entries != [] {
      var n := |entries| - 1;
      StableSortStable(entries[..n], k);
      InsertStableKeeps(StableSort(entries[..n]), entries[n], k);
      WithKeySnoc(entries[..n], entries[n], k);
      assert entries == entries[..n] + [entries[n]];
    }
  }

  lemma {:induction false} WithKeySnoc(items: seq<Item>, x: Item, k: real)
    ensures WithKey(items + [x], k) == WithKey(items, k) + (if x.key == k then [x] else [])
  {
    if items != [] {
      WithKeySnoc(items[1..], x, k);
      assert (items + [x])[1..] == items[1..] + [x];
    }
  }

  /** One more insertion into a list that holds the entries so far. */
  lemma InsertNext(entries: seq<Item>, n: nat, pos: nat)
    requires Spaced(entries) && n < |entries| && GoesAt(StableSort(entries[..n]), entries[n].key, pos)
    ensures var t := StableSort(entries[..n]); t[..pos] + [entries[n]] + t[pos..] == StableSort(entries[..n + 1])
  {
    var t, x := StableSort(entries[..n]), entries[n];
    StableSortStable(entries[..n], x.key);
    forall i | 0 <= i < |t|
      ensures !(x.key < t[i].key < x.key + EPSILON)
    {
      assert t[i] in entries[..n];
    }
    InsertKeepsOrder(t, x, pos);
    assert entries[..n + 1][..n] == entries[..n];
  }

  /** Whatever the levels, inserting entries with well-spaced keys one by one sorts them stably. */
  method InsertAll(list: SkipList, entries: seq<Item>, levels: seq<nat>)
    requires list.Valid() && list.items == [] && Spaced(entries)
    requires |levels| == |entries| && forall i :: 0 <= i < |levels| ==> 1 <= levels[i] <= 16
    modifies list, list.chain
    ensures list.Valid() && list.items == StableSort(entries)
  {
    hide SkipList.Valid, StableSort, Spaced, GoesAt, InsertAfter;
    StableSortNone();
    assert entries[..0] == [];
    for i := 0 to |entries|
      invariant list.Valid() && list.items == StableSort(entries[..i])
      invariant fresh(set n | n in list.chain && n !in old(list.chain))
    {
      var ok, pos := list.InsertNode(entries[i].key, entries[i].value, levels[i], true);
      InsertNext(entries, i, pos);
    }
    assert entries[..|entries|] == entries;
  }

  lemma StableSortNone()
    ensures StableSort([]) == []
  {
  }
}
