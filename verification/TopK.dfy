/**
 PriorityQueue: a min-heap that keeps the pairs with the largest keys among all that were offered.
 */
module TopK {
  datatype Pair = Pair(key: nat, value: string)

  function Parent(i: nat): (r: nat)
    requires i > 0
    ensures r < i
  {
    (i - 1) / 2
  }

  /** The first n pairs are in heap order, except that pair `up` may be below its parent. */
  ghost predicate HeapUp(s: seq<Pair>, n: nat, up: nat) {
    n <= |s| && (forall i :: 0 < i < n && i != up ==> s[Parent(i)].key <= s[i].key) &&
    forall i :: 0 < i < n && Parent(i) == up && up > 0 ==> s[Parent(up)].key <= s[i].key
  }

  /** The first n pairs are in heap order, except that pair `down` may be above its children. */
  ghost predicate HeapDown(s: seq<Pair>, n: nat, down: nat) {
    n <= |s| && (forall i :: 0 < i < n && Parent(i) != down ==> s[Parent(i)].key <= s[i].key) &&
    forall i :: 0 < i < n && Parent(i) == down && down > 0 ==> s[Parent(down)].key <= s[i].key
  }

  ghost predicate Heap(s: seq<Pair>, n: nat) {
    n <= |s| && forall i :: 0 < i < n ==> s[Parent(i)].key <= s[i].key
  }

  function Swap(s: seq<Pair>, i: nat, j: nat): (r: seq<Pair>)
    requires i < |s| && j < |s|
    ensures |r| == |s| && r[i] == s[j] && r[j] == s[i] && forall k :: 0 <= k < |s| && k != i && k != j ==> r[k] == s[k]
  {
    s[i := s[j]][j := s[i]]
  }

  lemma SwapKeeps(s: seq<Pair>, i: nat, j: nat, n: nat)
    requires i < n <= |s| && j < n
    ensures multiset(Swap(s, i, j)[..n]) == multiset(s[..n])
  {
    var t, r := s[..n], Swap(s, i, j);
    assert r[..n] == t[i := t[j]][j := t[i]];
  }

  lemma SiftUpStep(s: seq<Pair>, n: nat, i: nat)
    requires 0 < i < n && HeapUp(s, n, i) && s[i].key < s[Parent(i)].key
    ensures HeapUp(Swap(s, i, Parent(i)), n, Parent(i))
  {
    var p, t := Parent(i), Swap(s, i, Parent(i));
    forall j | 0 < j < n && j != p
      ensures t[Parent(j)].key <= t[j].key
    {
    }
  }

  /** The child with the smaller key, if it is smaller than the pair itself. */
  function MinChild(s: seq<Pair>, n: nat, pos: nat): (m: nat)
    requires pos < n <= |s|
    ensures pos <= m < n && (m != pos ==> m > 0 && Parent(m) == pos && s[m].key < s[pos].key)
    ensures forall i :: 0 < i < n && Parent(i) == pos ==> s[m].key <= s[i].key
  {
    var l, r := pos * 2 + 1, pos * 2 + 2;
    assert forall i :: 0 < i < n && Parent(i) == pos ==> i == l || i == r;
    var m := if l < n && s[pos].key > s[l].key then l else pos;
    if r < n && s[m].key > s[r].key then r else m
  }

  lemma SiftDownStep(s: seq<Pair>, n: nat, pos: nat)
    requires pos < n <= |s| && HeapDown(s, n, pos) && MinChild(s, n, pos) != pos
    ensures HeapDown(Swap(s, pos, MinChild(s, n, pos)), n, MinChild(s, n, pos))
  {
    hide MinChild;
    var m := MinChild(s, n, pos);
    var t := Swap(s, pos, m);
    forall j | 0 < j < n && Parent(j) != m
      ensures t[Parent(j)].key <= t[j].key
    {
      if Parent(j) == pos { assert s[m].key <= s[j].key; }
    }
  }

  /** The root of a heap has the smallest key. */
  lemma {:induction false} RootIsMin(s: seq<Pair>, n: nat, i: nat)
    requires Heap(s, n) && i < n
    ensures s[0].key <= s[i].key
  {
    if i > 0 { RootIsMin(s, n, Parent(i)); }
  }

  // ---- the largest of all pairs offered ----

  /** `kept` are k of the offered pairs with the largest keys, or all if there are no more than k. */
  ghost predicate Largest(kept: multiset<Pair>, offered: multiset<Pair>, k: nat) {
    kept <= offered && |kept| == (if |offered| < k then |offered| else k) &&
    forall x, y :: x in kept && y in offered - kept ==> x.key >= y.key
  }

  lemma OfferedAll(kept: multiset<Pair>, offered: multiset<Pair>, k: nat, x: Pair)
    requires Largest(kept, offered, k) && |kept| < k
    ensures Largest(kept + multiset{x}, offered + multiset{x}, k)
  {
    assert |offered - kept| == |offered| - |kept|;
    assert (offered + multiset{x}) - (kept + multiset{x}) == offered - kept;
  }

  lemma OfferedSmall(kept: multiset<Pair>, offered: multiset<Pair>, k: nat, x: Pair)
    requires Largest(kept, offered, k) && |kept| == k && forall y :: y in kept ==> y.key >= x.key
    ensures Largest(kept, offered + multiset{x}, k)
  {
    assert (offered + multiset{x}) - kept == (offered - kept) + multiset{x};
    assert |offered - kept| == |offered| - |kept|;
  }

  lemma OfferedLarge(kept: multiset<Pair>, offered: multiset<Pair>, k: nat, x: Pair, m: Pair)
    requires Largest(kept, offered, k) && |kept| == k && m in kept && m.key < x.key &&
             forall y :: y in kept ==> y.key >= m.key
    ensures Largest(kept - multiset{m} + multiset{x}, offered + multiset{x}, k)
  {
    var kept', offered' := kept - multiset{m} + multiset{x}, offered + multiset{x};
    Swapped(kept, offered, x, m);
    forall a, y | a in kept' && y in offered' - kept'
      ensures a.key >= y.key
    {
      assert y.key <= m.key;
    }
  }

  lemma Swapped(kept: multiset<Pair>, offered: multiset<Pair>, x: Pair, m: Pair)
    requires kept <= offered && m in kept
    ensures var kept', offered' := kept - multiset{m} + multiset{x}, offered + multiset{x};
      kept' <= offered' && |kept'| == |kept| && |kept| <= |offered| && |offered'| == |offered| + 1 &&
      offered' - kept' == (offered - kept) + multiset{m}
  {
    assert |offered - kept| == |offered| - |kept|;
  }

  /** How many pairs have a key of at least `key`. */
  ghost function AtLeast(s: multiset<Pair>, key: nat): (n: nat) {
    |Above(s, key)|
  }

  ghost function Above(s: multiset<Pair>, key: nat): (r: multiset<Pair>)
    ensures r <= s && forall x :: r[x] == if x.key >= key then s[x] else 0
    decreases |s|
  {
    if s == multiset{} then multiset{}
    else
      var x :| x in s;
      (if x.key >= key then multiset{x} else multiset{}) + Above(s - multiset{x}, key)
  }

  /**
   Whichever pairs are kept, their keys are the same: for every key, as many as offered, but no more than k, are at
   least as large.
   */
  lemma LargestKeys(kept: multiset<Pair>, offered: multiset<Pair>, k: nat, key: nat)
    requires Largest(kept, offered, k)
    ensures AtLeast(kept, key) == if AtLeast(offered, key) < |kept| then AtLeast(offered, key) else |kept|
  {
    hide Above;
    var a, b := Above(kept, key), Above(offered, key);
    assert a <= b;
    assert |b - a| == |b| - |a| && |kept - a| == |kept| - |a|;
    if b - a == multiset{} {
      assert a == b;
    } else {
      var y :| y in b - a;
      AllAbove(kept, offered, k, key, y);
    }
  }

  lemma AllAbove(kept: multiset<Pair>, offered: multiset<Pair>, k: nat, key: nat, y: Pair)
    requires Largest(kept, offered, k) && y in offered - kept && y.key >= key
    ensures Above(kept, key) == kept
  {
    hide Above;
    assert forall x :: x in kept ==> x.key >= y.key;
  }

  class PriorityQueue {
    var pairs: seq<Pair>
    var size: nat
    var count: nat
    ghost var offered: multiset<Pair>

    ghost predicate Valid()
      reads this
    {
      count >= 1 && |pairs| == count && size <= count && Heap(pairs, size) &&
      Largest(multiset(pairs[..size]), offered, count)
    }

    constructor (len: nat)
      requires len >= 1
      ensures Valid() && offered == multiset{} && size == 0 && count == len
    {
      pairs, size, count := seq(len, _ => Pair(0, "")), 0, len;
      offered := multiset{};
    }

    method EnQueue(val: Pair) returns (ok: bool)
      requires Valid()
      modifies this
      ensures Valid() && ok && offered == old(offered) + multiset{val} && count == old(count)
      ensures var was := multiset(old(pairs)[..old(size)]);
        multiset(pairs[..size]) == if old(size) < count then was + multiset{val}
                                   else if old(pairs)[0].key >= val.key then was
                                   else was - multiset{old(pairs)[0]} + multiset{val}
    {
      hide Largest, Heap, Parent;
      ok := true;
      OfferDecided(pairs, size, offered, count, val);
      offered := offered + multiset{val};
      if size >= count {
        if pairs[0].key >= val.key { return; }
        var done := DeQueue();
      }
      Append(val);
    }

    /** The end of EnQueue: the pair is put last and lifted. */
    method Append(val: Pair)
      requires size < |pairs| && Heap(pairs, size)
      modifies this`pairs, this`size
      ensures |pairs| == |old(pairs)| && size == old(size) + 1 && Heap(pairs, size)
      ensures multiset(pairs[..size]) == multiset(old(pairs)[..old(size)]) + multiset{val}
    {
      var i: nat := size;
      pairs := pairs[size := val];
      size := size + 1;
      assert pairs[..size] == old(pairs)[..old(size)] + [val];
      while i > 0 && pairs[i].key < pairs[Parent(i)].key
        invariant i < size == old(size) + 1 && |pairs| == |old(pairs)| && HeapUp(pairs, size, i)
        invariant multiset(pairs[..size]) == multiset(old(pairs)[..old(size)]) + multiset{val}
      {
        SiftUpStep(pairs, size, i);
        SwapKeeps(pairs, i, Parent(i), size);
        pairs := Swap(pairs, i, Parent(i));
        i := Parent(i);
      }
    }

    method DeQueue() returns (ok: bool)
      requires Heap(pairs, size)
      modifies this`pairs, this`size
      ensures ok == (old(size) >= 1) && (!ok ==> pairs == old(pairs) && size == old(size))
      ensures ok ==> |pairs| == |old(pairs)| && size == old(size) - 1 && Heap(pairs, size)
      ensures ok ==> multiset(pairs[..size]) == multiset(old(pairs)[..old(size)]) - multiset{old(pairs)[0]}
    {
      if size < 1 { return false; }
      ok := true;
      size := size - 1;
      pairs := pairs[0 := pairs[size]];
      RootRemoved(old(pairs), pairs, size);
      if size == 0 { return; }
      MinHeapIfy(0);
    }

    method MinHeapIfy(pos: nat)
      requires pos < size <= |pairs| && HeapDown(pairs, size, pos)
      modifies this`pairs
      ensures |pairs| == |old(pairs)| && Heap(pairs, size) && multiset(pairs[..size]) == multiset(old(pairs)[..size])
      decreases size - pos
    {
      var minPos := MinChild(pairs, size, pos);
      if minPos != pos {
        SiftDownStep(pairs, size, pos);
        SwapKeeps(pairs, pos, minPos, size);
        pairs := Swap(pairs, pos, minPos);
        MinHeapIfy(minPos);
      }
    }

    /** GetElements; `sort` is the library's sort, which may order equal keys as it likes. */
    method GetElements(sort: seq<Pair> -> seq<Pair>) returns (values: seq<string>)
      requires Valid() && forall s :: IsSorting(sort(s), s)
      ensures exists order ::
                ListsValues(order, values) && Descending(order) && Largest(multiset(order), offered, count)
    {
      hide Largest;
      values := [];
      ghost var order := pairs[..size];
      if size == 0 {
        assert ListsValues(order, values) && Descending(order);
        return;
      }
      if size == 1 {
        values := [pairs[0].value];
        assert ListsValues(order, values) && Descending(order);
        return;
      }
      var remains := [];
      for i := 0 to size
        invariant remains == pairs[..i]
      {
        remains := remains + [pairs[i]];
      }
      assert IsSorting(sort(remains), remains);
      remains := sort(remains);
      order := remains;
      assert |multiset(order)| == |multiset(pairs[..size])|;
      for i := 0 to size
        invariant |values| == i && forall j :: 0 <= j < i ==> values[j] == order[j].value
      {
        values := values + [remains[i].value];
      }
      assert ListsValues(order, values) && Descending(order);
    }
  }

  ghost predicate ListsValues(order: seq<Pair>, values: seq<string>) {
    |values| == |order| && forall i :: 0 <= i < |order| ==> values[i] == order[i].value
  }

  ghost predicate Descending(s: seq<Pair>) {
    forall i, j :: 0 <= i < j < |s| ==> s[i].key >= s[j].key
  }

  /** The same pairs with the larger keys first. */
  ghost predicate IsSorting(r: seq<Pair>, s: seq<Pair>) {
    multiset(r) == multiset(s) && Descending(r)
  }

  /** Which pairs are the largest with one more on offer, as the heap's root decides. */
  lemma OfferDecided(s: seq<Pair>, n: nat, offered: multiset<Pair>, k: nat, x: Pair)
    requires 1 <= k == |s| && n <= k && Heap(s, n) && Largest(multiset(s[..n]), offered, k)
    ensures n < k ==> Largest(multiset(s[..n]) + multiset{x}, offered + multiset{x}, k)
    ensures n == k && s[0].key >= x.key ==> Largest(multiset(s[..n]), offered + multiset{x}, k)
    ensures n == k && s[0].key < x.key ==>
      Largest(multiset(s[..n]) - multiset{s[0]} + multiset{x}, offered + multiset{x}, k)
  {
    hide Largest, Heap, Parent;
    var kept := multiset(s[..n]);
    assert |kept| == n;
    if n < k {
      OfferedAll(kept, offered, k, x);
    } else {
      Kept(s, n);
      if s[0].key >= x.key { OfferedSmall(kept, offered, k, x); } else { OfferedLarge(kept, offered, k, x, s[0]); }
    }
  }

  lemma Kept(s: seq<Pair>, n: nat)
    requires Heap(s, n) && n > 0
    ensures s[0] in multiset(s[..n]) && forall y :: y in multiset(s[..n]) ==> y.key >= s[0].key
  {
    assert s[..n][0] == s[0];
    forall y | y in multiset(s[..n])
      ensures y.key >= s[0].key
    {
      var i :| 0 <= i < n && s[..n][i] == y;
      RootIsMin(s, n, i);
    }
  }

  lemma RootRemoved(s: seq<Pair>, t: seq<Pair>, n: nat)
    requires n < |s| && Heap(s, n + 1) && t == s[0 := s[n]]
    ensures HeapDown(t, n, 0) && multiset(t[..n]) == multiset(s[..n + 1]) - multiset{s[0]}
  {
    hide Parent;
    RootDropped(s, t, n);
  }

  lemma RootDropped(s: seq<Pair>, t: seq<Pair>, n: nat)
    requires n < |s| && t == s[0 := s[n]]
    ensures multiset(t[..n]) == multiset(s[..n + 1]) - multiset{s[0]}
  {
    assert s[..n + 1] == s[..n] + [s[n]];
    if n > 0 {
      assert s[..n] == [s[0]] + s[1..n] && t[..n] == [s[n]] + s[1..n];
    }
  }
}
