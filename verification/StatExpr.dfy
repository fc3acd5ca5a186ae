/**
 CStatManager: statistics expressions, initialised in dependency order and evaluated in one pass.
 */
module StatExpr {
  datatype Kind = Value | Count | Sample | Const | Expr

  /**
   A statistics entry: its slot in the data files and, for an expression, its terms; the last cnt1 of them form the
   divisor.
   */
  datatype Info = Info(id: nat, off: nat, kind: Kind, cnt: nat, cnt1: nat, args: seq<int>) {
    /** The number of 64-bit cells in the slot. */
    function Cells(): nat { if kind == Sample then 18 else 1 }
  }

  datatype Ref = Ref(id: nat, sub: nat)

  function RefOf(id: nat): (r: Ref) {
    Ref(id / 20, id % 20)
  }

  /** The upper half of a term, signed. */
  function High(arg: int): (r: int) { arg / 0x1_0000_0000 }

  /** The lower half, unsigned. */
  function Low(arg: int): (r: nat) { arg % 0x1_0000_0000 }

  /** The entries that a term names: none, one, or two to be multiplied. */
  function Refs(arg: int): (r: seq<Ref>)
    ensures |r| <= 2
  {
    if Low(arg) == 0 then []
    else if Low(arg) < 0x8000_0000 then [RefOf(Low(arg))]
    else [RefOf(Low(arg) % 0x8000_0000), RefOf(High(arg) % 0x8000_0000)]
  }

  /** idmap: the last entry with each id. */
  function IdMap(infos: seq<Info>): (m: map<nat, nat>)
    ensures forall id :: id in m ==> m[id] < |infos| && infos[m[id]].id == id
  {
    if infos == [] then map[] else IdMap(infos[..|infos| - 1])[infos[|infos| - 1].id := |infos| - 1]
  }

  predicate RefOk(infos: seq<Info>, done: set<nat>, r: Ref) {
    var m := IdMap(infos);
    r.id in m && (r.sub > 0 ==> infos[m[r.id]].kind == Sample) && (infos[m[r.id]].kind == Expr ==> m[r.id] in done)
  }

  predicate TermOk(infos: seq<Info>, done: set<nat>, arg: int) {
    forall i :: 0 <= i < |Refs(arg)| ==> RefOk(infos, done, Refs(arg)[i])
  }

  predicate TermsOk(infos: seq<Info>, done: set<nat>, args: seq<int>) {
    forall i :: 0 <= i < |args| ==> TermOk(infos, done, args[i])
  }

  /** A non-empty expression. */
  predicate IsExpr(infos: seq<Info>, i: nat) {
    i < |infos| && infos[i].kind == Expr && infos[i].cnt + infos[i].cnt1 > 0
  }

  /** Entry i can be initialised in at most n rounds of its references being so. */
  predicate InitIn(infos: seq<Info>, i: nat, n: nat)
    decreases n, 0
  {
    n > 0 && IsExpr(infos, i) && TermsOk(infos, ReadyIn(infos, n - 1), infos[i].args)
  }

  function ReadyIn(infos: seq<Info>, n: nat): (s: set<nat>)
    decreases n, 1
  {
    set i | 0 <= i < |infos| && InitIn(infos, i, n)
  }

  /** The references of entry i are valid and lead down to entries that are no expressions. */
  ghost predicate Initialisable(infos: seq<Info>, i: nat) {
    exists n :: InitIn(infos, i, n)
  }

  lemma RefGrows(infos: seq<Info>, a: set<nat>, b: set<nat>, args: seq<int>)
    requires a <= b && TermsOk(infos, a, args)
    ensures TermsOk(infos, b, args)
  {
    forall i | 0 <= i < |args|
      ensures TermOk(infos, b, args[i])
    {
      assert TermOk(infos, a, args[i]);
    }
  }

  lemma {:induction false} InitLater(infos: seq<Info>, i: nat, m: nat, n: nat)
    requires InitIn(infos, i, m) && m <= n
    ensures InitIn(infos, i, n)
    decreases m
  {
    hide TermsOk;
    var a, b := ReadyIn(infos, m - 1), ReadyIn(infos, n - 1);
    forall j | j in a
      ensures j in b
    {
      InitLater(infos, j, m - 1, n - 1);
    }
    RefGrows(infos, a, b, infos[i].args);
  }

  // ---- compiled terms ----

  datatype Call = Imm | Id | Negative | Shift(n: nat) | Multi | Multi2

  /** CStatExpr */
  datatype Code = Code(call: Call, off0: nat, off1: nat, val: int)

  function OffOf(infos: seq<Info>, r: Ref): (off: nat)
    requires r.id in IdMap(infos)
  {
    infos[IdMap(infos)[r.id]].off + r.sub * 8
  }

  function CallOf(val: int): (c: Call) {
    if val == -1 then Negative else if val == 0 then Imm else if val == 1 then Id
    else if val == 2 then Shift(1) else if val == 4 then Shift(2) else if val == 8 then Shift(3)
         else if val == 16 then Shift(4)
    else Multi
  }

  function Compile(infos: seq<Info>, arg: int): (c: Code)
    requires forall i :: 0 <= i < |Refs(arg)| ==> Refs(arg)[i].id in IdMap(infos)
  {
    var r := Refs(arg);
    if |r| == 0 then Code(Imm, 0, 0, High(arg))
    else if |r| == 1 then Code(CallOf(High(arg)), OffOf(infos, r[0]), 0, High(arg))
    else Code(Multi2, OffOf(infos, r[0]), OffOf(infos, r[1]), 0)
  }

  type Memory = map<nat, int>

  function At(mem: Memory, off: nat): int {
    if off in mem then mem[off] else 0
  }

  /** Two's complement in 64 bits. */
  function Wrap(x: int): int {
    (x + 0x8000_0000_0000_0000) % 0x1_0000_0000_0000_0000 - 0x8000_0000_0000_0000
  }

  function Pow2(n: nat): nat {
    if n == 0 then 1 else 2 * Pow2(n - 1)
  }

  /** The call_* functions */
  function Eval(mem: Memory, c: Code): (v: int) {
    match c.call
    case Imm => c.val
    case Id => At(mem, c.off0)
    case Negative => Wrap(-At(mem, c.off0))
    case Shift(n) => Wrap(At(mem, c.off0) * Pow2(n))
    case Multi => Wrap(At(mem, c.off0) * c.val)
    case Multi2 => Wrap(At(mem, c.off0) * At(mem, c.off1))
  }

  function Sum(mem: Memory, codes: seq<Code>): (v: int) {
    if codes == [] then 0 else Wrap(Sum(mem, codes[..|codes| - 1]) + Eval(mem, codes[|codes| - 1]))
  }

  /** CalcExpr */
  method CalcExpr(mem: Memory, cnt: nat, codes: seq<Code>) returns (v: int)
    requires cnt <= |codes|
    ensures v == Sum(mem, codes[..cnt])
  {
    v := 0;
    for i := 0 to cnt
      invariant v == Sum(mem, codes[..i])
    {
      assert codes[..i + 1][..i] == codes[..i];
      v := Wrap(v + Eval(mem, codes[i]));
    }
  }

  /** What a term reads is what it means: the constant, the scaled entry, or the product of two entries. */
  lemma EvalMeans(infos: seq<Info>, mem: Memory, arg: int)
    requires forall i :: 0 <= i < |Refs(arg)| ==> Refs(arg)[i].id in IdMap(infos)
    ensures var r, v := Refs(arg), Eval(mem, Compile(infos, arg));
      if |r| == 0 then v == High(arg)
      else if |r| == 1 then Wrap(v) == Wrap(High(arg) * At(mem, OffOf(infos, r[0])))
      else v == Wrap(At(mem, OffOf(infos, r[0])) * At(mem, OffOf(infos, r[1])))
  {
    hide Refs, IdMap, OffOf, Wrap, At, High, CallOf;
    var r := Refs(arg);
    if |r| == 1 { ScaledMeans(mem, OffOf(infos, r[0]), High(arg)); }
  }

  lemma ScaledMeans(mem: Memory, off: nat, val: int)
    ensures Wrap(Eval(mem, Code(CallOf(val), off, 0, val))) == Wrap(val * At(mem, off))
  {
    hide Wrap, At, Pow2;
    var x := At(mem, off);
    PowersOf2();
    WrapTwice(-x);
    WrapTwice(x * val);
  }

  lemma PowersOf2()
    ensures Pow2(1) == 2 && Pow2(2) == 4 && Pow2(3) == 8 && Pow2(4) == 16
  {
  }

  lemma WrapTwice(x: int)
    ensures Wrap(Wrap(x)) == Wrap(x)
  {
  }

  ghost predicate Known(infos: seq<Info>, arg: int) {
    forall i :: 0 <= i < |Refs(arg)| ==> Refs(arg)[i].id in IdMap(infos)
  }

  /** The compiled form of the terms. */
  ghost predicate CompiledTo(infos: seq<Info>, args: seq<int>, codes: seq<Code>) {
    |codes| == |args| && forall i :: 0 <= i < |args| ==> Known(infos, args[i]) && codes[i] == Compile(infos, args[i])
  }

  ghost function Elems(list: seq<nat>): (s: set<nat>) {
    set i | i in list
  }

  lemma ElemsSnoc(list: seq<nat>, i: nat)
    ensures Elems(list + [i]) == Elems(list) + {i}
  {
  }

  /** Each expression of the list refers only to expressions before it. */
  ghost predicate Ordered(infos: seq<Info>, list: seq<nat>) {
    forall k :: 0 <= k < |list| ==> IsExpr(infos, list[k]) && TermsOk(infos, Elems(list[..k]), infos[list[k]].args)
  }

  ghost predicate Distinct(list: seq<nat>) {
    forall i, j :: 0 <= i < j < |list| ==> list[i] != list[j]
  }

  lemma {:induction false} DistinctBound(list: seq<nat>, n: nat)
    requires Distinct(list) && forall i :: 0 <= i < |list| ==> list[i] < n
    ensures |list| <= n
  {
    DistinctSize(list);
    SubsetSize(Elems(list), Upto(n));
  }

  lemma {:induction false} DistinctSize(list: seq<nat>)
    requires Distinct(list)
    ensures |Elems(list)| == |list|
  {
    if list != [] {
      var n := |list| - 1;
      DistinctSize(list[..n]);
      ElemsSnoc(list[..n], list[n]);
      assert list == list[..n] + [list[n]];
    }
  }

  ghost function Upto(n: nat): (s: set<nat>)
    ensures |s| == n && forall i: nat :: i in s <==> i < n
  {
    if n == 0 then {} else Upto(n - 1) + {n - 1}
  }

  lemma SubsetSize(a: set<nat>, b: set<nat>)
    requires a <= b
    ensures |a| <= |b|
  {
    assert b == a + (b - a);
  }

  /** No expression is left whose references are all initialised. */
  ghost predicate Closed(infos: seq<Info>, done: set<nat>) {
    forall i: nat :: IsExpr(infos, i) && i !in done ==> !TermsOk(infos, done, infos[i].args)
  }

  lemma {:induction false} ClosedHasAll(infos: seq<Info>, done: set<nat>, i: nat, n: nat)
    requires Closed(infos, done) && InitIn(infos, i, n)
    ensures i in done
    decreases n
  {
    hide TermsOk;
    var ready := ReadyIn(infos, n - 1);
    forall j | j in ready
      ensures j in done
    {
      ClosedHasAll(infos, done, j, n - 1);
    }
    RefGrows(infos, ready, done, infos[i].args);
  }

  // ---- what terms mean ----

  /** A constant, a scaled cell, or the product of two cells; a cell is the entry's id with a number below 20. */
  datatype Term = Fixed(val: int) | Scaled(val: int, id: nat, sub: nat)
                | Product(id: nat, sub: nat, high: int, id1: nat, sub1: nat)

  ghost predicate Denotes(arg: int, t: Term) {
    match t
    case Fixed(val) => arg == val * 0x1_0000_0000
    case Scaled(val, id, sub) =>
      sub < 20 && 0 < id * 20 + sub < 0x8000_0000 && arg == val * 0x1_0000_0000 + id * 20 + sub
    case Product(id, sub, high, id1, sub1) =>
      sub < 20 && id * 20 + sub < 0x8000_0000 && arg == high * 0x1_0000_0000 + 0x8000_0000 + id * 20 + sub &&
      sub1 < 20 && high % 0x8000_0000 == id1 * 20 + sub1
  }

  lemma DenotesSome(arg: int) returns (t: Term)
    ensures Denotes(arg, t)
  {
    var h, l := arg / 0x1_0000_0000, arg % 0x1_0000_0000;
    if l == 0 {
      t := Fixed(h);
    } else if l < 0x8000_0000 {
      t := Scaled(h, l / 20, l % 20);
    } else {
      var k, k1 := l - 0x8000_0000, h % 0x8000_0000;
      t := Product(k / 20, k % 20, h, k1 / 20, k1 % 20);
    }
  }

  lemma RefIs(id: nat, sub: nat)
    requires sub < 20
    ensures RefOf(id * 20 + sub) == Ref(id, sub)
  {
  }

  lemma HalvesAre(arg: int, high: int, low: nat)
    requires low < 0x1_0000_0000 && arg == high * 0x1_0000_0000 + low
    ensures High(arg) == high
    ensures Refs(arg) == if low == 0 then [] else if low < 0x8000_0000 then [RefOf(low)]
                         else [RefOf(low - 0x8000_0000), RefOf(high % 0x8000_0000)]
  {
    hide RefOf;
    assert Low(arg) == low;
  }

  lemma DenotesRefs(arg: int, t: Term)
    requires Denotes(arg, t)
    ensures match t
            case Fixed(val) => Refs(arg) == [] && High(arg) == val
            case Scaled(val, id, sub) => Refs(arg) == [Ref(id, sub)] && High(arg) == val
            case Product(id, sub, _, id1, sub1) => Refs(arg) == [Ref(id, sub), Ref(id1, sub1)]
  {
    hide High, Refs, RefOf;
    match t
    case Fixed(val) =>
      HalvesAre(arg, val, 0);
    case Scaled(val, id, sub) =>
      HalvesAre(arg, val, id * 20 + sub);
      RefIs(id, sub);
    case Product(id, sub, high, id1, sub1) =>
      HalvesAre(arg, high, 0x8000_0000 + id * 20 + sub);
      RefIs(id, sub);
      RefIs(id1, sub1);
  }

  /** The last entry with this id. */
  ghost predicate Last(infos: seq<Info>, id: nat, m: nat) {
    m < |infos| && infos[m].id == id && forall k :: m < k < |infos| ==> infos[k].id != id
  }

  lemma {:induction false} IdMapLast(infos: seq<Info>, id: nat)
    ensures if id in IdMap(infos) then Last(infos, id, IdMap(infos)[id]) &&
              forall m: nat :: Last(infos, id, m) ==> m == IdMap(infos)[id]
            else forall k :: 0 <= k < |infos| ==> infos[k].id != id
  {
    if infos != [] {
      var n := |infos| - 1;
      IdMapLast(infos[..n], id);
      if infos[n].id != id {
        forall m: nat
          ensures Last(infos, id, m) <==> Last(infos[..n], id, m)
        {
        }
      }
    }
  }

  /** There is such an entry; only a sample has more than one cell, and an expression must be initialised. */
  ghost predicate Usable(infos: seq<Info>, done: set<nat>, id: nat, sub: nat) {
    exists m: nat ::
      Last(infos, id, m) && (sub > 0 ==> infos[m].kind == Sample) && (infos[m].kind == Expr ==> m in done)
  }

  ghost predicate TermUsable(infos: seq<Info>, done: set<nat>, t: Term) {
    match t
    case Fixed(_) => true
    case Scaled(_, id, sub) => Usable(infos, done, id, sub)
    case Product(id, sub, _, id1, sub1) => Usable(infos, done, id, sub) && Usable(infos, done, id1, sub1)
  }

  lemma RefOkMeans(infos: seq<Info>, done: set<nat>, id: nat, sub: nat)
    ensures RefOk(infos, done, Ref(id, sub)) <==> Usable(infos, done, id, sub)
  {
    hide IdMap;
    IdMapLast(infos, id);
  }

  lemma TermOkMeans(infos: seq<Info>, done: set<nat>, arg: int, t: Term)
    requires Denotes(arg, t)
    ensures TermOk(infos, done, arg) <==> TermUsable(infos, done, t)
  {
    hide Refs, RefOk, Usable, Denotes;
    DenotesRefs(arg, t);
    match t
    case Fixed(_) =>
    case Scaled(_, id, sub) =>
      RefOkMeans(infos, done, id, sub);
      assert Refs(arg)[0] == Ref(id, sub);
    case Product(id, sub, _, id1, sub1) =>
      RefOkMeans(infos, done, id, sub);
      RefOkMeans(infos, done, id1, sub1);
      assert Refs(arg)[0] == Ref(id, sub) && Refs(arg)[1] == Ref(id1, sub1);
  }

  /** The cell, eight bytes wide, of the last entry with the id. */
  ghost predicate CellOf(infos: seq<Info>, id: nat, sub: nat, off: nat) {
    exists m: nat :: Last(infos, id, m) && off == infos[m].off + 8 * sub
  }

  ghost predicate ValueOf(infos: seq<Info>, mem: Memory, t: Term, x: int) {
    match t
    case Fixed(val) => x == val
    case Scaled(val, id, sub) => exists off :: CellOf(infos, id, sub, off) && x == val * At(mem, off)
    case Product(id, sub, _, id1, sub1) =>
      exists off, off1 ::
        CellOf(infos, id, sub, off) && CellOf(infos, id1, sub1, off1) && x == At(mem, off) * At(mem, off1)
  }

  /** `v` is x in two's complement of 64 bits. */
  ghost predicate Wraps(v: int, x: int) {
    -0x8000_0000_0000_0000 <= v < 0x8000_0000_0000_0000 && (v - x) % 0x1_0000_0000_0000_0000 == 0
  }

  lemma WrapWraps(x: int)
    ensures Wraps(Wrap(x), x) && forall v :: Wraps(v, x) ==> v == Wrap(x)
  {
  }

  /** A term whose entries are known has one value. */
  lemma ValueIs(infos: seq<Info>, mem: Memory, arg: int, t: Term, x: int)
    requires Known(infos, arg) && Denotes(arg, t)
    ensures var r := Refs(arg);
      ValueOf(infos, mem, t, x) <==>
      x == if |r| == 0 then High(arg) else if |r| == 1 then High(arg) * At(mem, OffOf(infos, r[0]))
           else At(mem, OffOf(infos, r[0])) * At(mem, OffOf(infos, r[1]))
  {
    hide Refs, OffOf, High, Denotes, CellOf, IdMap, At;
    DenotesRefs(arg, t);
    match t
    case Fixed(_) =>
    case Scaled(_, id, sub) =>
      assert Refs(arg)[0] == Ref(id, sub);
      CellIs(infos, id, sub);
    case Product(id, sub, _, id1, sub1) =>
      assert Refs(arg)[0] == Ref(id, sub) && Refs(arg)[1] == Ref(id1, sub1);
      CellIs(infos, id, sub);
      CellIs(infos, id1, sub1);
  }

  lemma CellIs(infos: seq<Info>, id: nat, sub: nat)
    requires id in IdMap(infos)
    ensures forall off: nat :: CellOf(infos, id, sub, off) <==> off == OffOf(infos, Ref(id, sub))
  {
    hide IdMap;
    IdMapLast(infos, id);
  }

  /** A compiled term has the value of what it denotes, up to a multiple of 2^64. */
  lemma TermValue(infos: seq<Info>, mem: Memory, arg: int, t: Term, x: int)
    requires Known(infos, arg) && Denotes(arg, t) && ValueOf(infos, mem, t, x)
    ensures Wrap(Eval(mem, Compile(infos, arg))) == Wrap(x)
  {
    hide Refs, OffOf, High, Denotes, ValueOf, IdMap, At, Eval, Wrap, Compile;
    ValueIs(infos, mem, arg, t, x);
    EvalMeans(infos, mem, arg);
    WrapTwice(x);
  }

  // ---- one pass over the expressions ----

  /** Integer division as in C++: toward zero. */
  function TruncDiv(a: int, b: int): int
    requires b != 0
  {
    if (a >= 0) == (b > 0) then Abs(a) / Abs(b) else -(Abs(a) / Abs(b))
  }

  function Abs(a: int): nat { if a < 0 then -a else a }

  /** What RunJobOnce stores for one expression; a ratio with a zero divisor stays as it was. */
  function Step(mem: Memory, e: Info, codes: seq<Code>): (r: Memory)
    requires |codes| == e.cnt + e.cnt1
  {
    if e.cnt1 == 0 then mem[e.off := Sum(mem, codes[..e.cnt])]
    else
      var div := Sum(mem, codes[e.cnt..]);
      if div != 0 then mem[e.off := TruncDiv(Sum(mem, codes[..e.cnt]), div)] else mem
  }

  ghost predicate Formed(infos: seq<Info>) {
    forall i :: 0 <= i < |infos| && infos[i].kind == Expr ==> |infos[i].args| == infos[i].cnt + infos[i].cnt1
  }

  /** Compiled terms for every listed expression. */
  ghost predicate Coded(infos: seq<Info>, list: seq<nat>, code: map<nat, seq<Code>>) {
    forall k :: 0 <= k < |list| ==>
      list[k] < |infos| && list[k] in code && CompiledTo(infos, infos[list[k]].args, code[list[k]]) &&
                                    |infos[list[k]].args| == infos[list[k]].cnt + infos[list[k]].cnt1
  }

  ghost function Pass(infos: seq<Info>, list: seq<nat>, code: map<nat, seq<Code>>, mem: Memory): (r: Memory)
    requires Coded(infos, list, code)
  {
    if list == [] then mem
    else
      var n := |list| - 1;
      Step(Pass(infos, list[..n], code, mem), infos[list[n]], code[list[n]])
  }

  /** The slots of different entries do not overlap. */
  ghost predicate Disjoint(infos: seq<Info>) {
    forall i, j :: 0 <= i < |infos| && 0 <= j < |infos| && i != j ==>
      infos[i].off + 8 * infos[i].Cells() <= infos[j].off || infos[j].off + 8 * infos[j].Cells() <= infos[i].off
  }

  /** References stay within the 18 cells of a sample. */
  ghost predicate SubsBelow18(infos: seq<Info>) {
    forall i, k, r :: 0 <= i < |infos| && 0 <= k < |infos[i].args| && r in Refs(infos[i].args[k]) ==> r.sub < 18
  }

  /** No reference of these terms reads the cell at `off`. */
  ghost predicate Avoids(infos: seq<Info>, args: seq<int>, off: nat) {
    forall k, r :: 0 <= k < |args| && r in Refs(args[k]) ==> r.id in IdMap(infos) && OffOf(infos, r) != off
  }

  /** The value of an expression agrees with the memory that holds it; `was` is what it held before. */
  ghost predicate Agrees(mem: Memory, e: Info, codes: seq<Code>, was: int)
    requires |codes| == e.cnt + e.cnt1
  {
    if e.cnt1 == 0 then At(mem, e.off) == Sum(mem, codes[..e.cnt])
    else
      var div := Sum(mem, codes[e.cnt..]);
      At(mem, e.off) == if div == 0 then was else TruncDiv(Sum(mem, codes[..e.cnt]), div)
  }

  lemma EvalAvoids(infos: seq<Info>, mem: Memory, arg: int, off: nat, x: int)
    requires Known(infos, arg) && forall r :: r in Refs(arg) ==> OffOf(infos, r) != off
    ensures Eval(mem[off := x], Compile(infos, arg)) == Eval(mem, Compile(infos, arg))
  {
    hide IdMap, OffOf, Wrap, Pow2;
    var r := Refs(arg);
    if |r| >= 1 { assert r[0] in r; }
    if |r| >= 2 { assert r[1] in r; }
  }

  /** Writing a cell that the terms do not read leaves their sum. */
  lemma {:induction false} SumAvoids(infos: seq<Info>, mem: Memory, args: seq<int>, codes: seq<Code>, off: nat, x: int)
    requires CompiledTo(infos, args, codes) && Avoids(infos, args, off)
    ensures Sum(mem[off := x], codes) == Sum(mem, codes)
    decreases |codes|
  {
    hide IdMap, OffOf, Wrap, Compile, Eval, Refs;
    if codes != [] {
      var n := |codes| - 1;
      SumAvoids(infos, mem, args[..n], codes[..n], off, x);
      EvalAvoids(infos, mem, args[n], off, x);
    }
  }

  lemma SumsAvoid(infos: seq<Info>, mem: Memory, e: Info, codes: seq<Code>, off: nat, x: int)
    requires CompiledTo(infos, e.args, codes) && |e.args| == e.cnt + e.cnt1 && Avoids(infos, e.args, off)
    ensures Sum(mem[off := x], codes[..e.cnt]) == Sum(mem, codes[..e.cnt]) &&
            Sum(mem[off := x], codes[e.cnt..]) == Sum(mem, codes[e.cnt..])
  {
    hide IdMap, OffOf, Compile, Refs, Sum;
    SumAvoids(infos, mem, e.args[..e.cnt], codes[..e.cnt], off, x);
    SumAvoids(infos, mem, e.args[e.cnt..], codes[e.cnt..], off, x);
  }

  /** A step makes its own expression agree. */
  lemma StepAgrees(infos: seq<Info>, mem: Memory, e: Info, codes: seq<Code>)
    requires CompiledTo(infos, e.args, codes) && |e.args| == e.cnt + e.cnt1 && Avoids(infos, e.args, e.off)
    ensures Agrees(Step(mem, e, codes), e, codes, At(mem, e.off))
  {
    hide Sum, Avoids, Compile, TruncDiv;
    var div := Sum(mem, codes[e.cnt..]);
    if e.cnt1 == 0 {
      SumsAvoid(infos, mem, e, codes, e.off, Sum(mem, codes[..e.cnt]));
    } else if div != 0 {
      SumsAvoid(infos, mem, e, codes, e.off, TruncDiv(Sum(mem, codes[..e.cnt]), div));
    }
  }

  /** A step for another expression, which this one does not read, leaves it agreeing. */
  lemma StepLeaves(infos: seq<Info>, mem: Memory, e: Info, codes: seq<Code>, was: int, f: Info, fcodes: seq<Code>)
    requires CompiledTo(infos, e.args, codes) && |e.args| == e.cnt + e.cnt1 && Avoids(infos, e.args, f.off) &&
             e.off != f.off
    requires |fcodes| == f.cnt + f.cnt1 && Agrees(mem, e, codes, was)
    ensures Agrees(Step(mem, f, fcodes), e, codes, was) && At(Step(mem, f, fcodes), e.off) == At(mem, e.off)
  {
    hide Sum, Avoids, Compile, TruncDiv;
    var div := Sum(mem, fcodes[f.cnt..]);
    if f.cnt1 == 0 {
      SumsAvoid(infos, mem, e, codes, f.off, Sum(mem, fcodes[..f.cnt]));
    } else if div != 0 {
      SumsAvoid(infos, mem, e, codes, f.off, TruncDiv(Sum(mem, fcodes[..f.cnt]), div));
    }
  }

  /** Expressions read no slot of an expression that does not come before them. */
  lemma ReadsBefore(infos: seq<Info>, done: set<nat>, i: nat, j: nat)
    requires Disjoint(infos) && SubsBelow18(infos) && i < |infos| && j < |infos| && infos[j].kind == Expr && j !in done
    requires TermsOk(infos, done, infos[i].args)
    ensures Avoids(infos, infos[i].args, infos[j].off)
  {
    hide IdMap, Refs;
    forall k, r | 0 <= k < |infos[i].args| && r in Refs(infos[i].args[k])
      ensures r.id in IdMap(infos) && OffOf(infos, r) != infos[j].off
    {
      assert TermOk(infos, done, infos[i].args[k]);
      var a :| 0 <= a < |Refs(infos[i].args[k])| && Refs(infos[i].args[k])[a] == r;
      assert RefOk(infos, done, r);
      var m := IdMap(infos)[r.id];
      assert m != j && r.sub < infos[m].Cells();
    }
  }

  /**
   After one pass every expression agrees with the final memory: the order makes each see the final values of those it
   refers to.
   */
  lemma {:induction false} PassAgrees(infos: seq<Info>, list: seq<nat>, code: map<nat, seq<Code>>, mem: Memory, k: nat)
    requires Disjoint(infos) && SubsBelow18(infos) && Ordered(infos, list) && Distinct(list) &&
             Coded(infos, list, code) && k < |list|
    ensures Agrees(Pass(infos, list, code, mem), infos[list[k]], code[list[k]], At(mem, infos[list[k]].off))
    decreases |list|
  {
    hide Disjoint, SubsBelow18, TermsOk, Compile, Agrees, Step, Avoids, Elems;
    var n := |list| - 1;
    var before := Pass(infos, list[..n], code, mem);
    var e, f := list[k], list[n];
    assert list[..n][..k] == list[..k];
    OrderedPrefix(infos, list, n);
    OffsDiffer(infos, list, k, n);
    if k < n {
      PassAgrees(infos, list[..n], code, mem, k);
      NotBefore(list, k, n);
      ReadsBefore(infos, Elems(list[..k]), e, f);
      StepLeaves(infos, before, infos[e], code[e], At(mem, infos[e].off), infos[f], code[f]);
    } else {
      NotBefore(list, n, n);
      ReadsBefore(infos, Elems(list[..n]), f, f);
      PassKeeps(infos, list[..n], code, mem, infos[f].off);
      StepAgrees(infos, before, infos[f], code[f]);
    }
  }

  lemma OrderedPrefix(infos: seq<Info>, list: seq<nat>, n: nat)
    requires Ordered(infos, list) && n <= |list|
    ensures Ordered(infos, list[..n])
  {
    forall k | 0 <= k < n
      ensures IsExpr(infos, list[..n][k]) && TermsOk(infos, Elems(list[..n][..k]), infos[list[..n][k]].args)
    {
      assert list[..n][..k] == list[..k];
    }
  }

  lemma NotBefore(list: seq<nat>, k: nat, n: nat)
    requires Distinct(list) && k <= n < |list|
    ensures list[n] !in Elems(list[..k])
  {
  }

  lemma OffsDiffer(infos: seq<Info>, list: seq<nat>, k: nat, n: nat)
    requires Disjoint(infos) && Distinct(list) && k <= n < |list| && forall i :: 0 <= i < |list| ==> list[i] < |infos|
    ensures k < n ==> infos[list[k]].off != infos[list[n]].off
    ensures forall i :: 0 <= i < n ==> infos[list[..n][i]].off != infos[list[n]].off
  {
  }

  /** Only the cells it names matter. */
  ghost predicate Names(infos: seq<Info>, t: Term, off: nat) {
    match t
    case Fixed(_) => false
    case Scaled(_, id, sub) => CellOf(infos, id, sub, off)
    case Product(id, sub, _, id1, sub1) => CellOf(infos, id, sub, off) || CellOf(infos, id1, sub1, off)
  }

  lemma TermOther(infos: seq<Info>, mem: Memory, arg: int, t: Term, off: nat, x: int)
    requires Known(infos, arg) && Denotes(arg, t) && !Names(infos, t, off)
    ensures Eval(mem[off := x], Compile(infos, arg)) == Eval(mem, Compile(infos, arg))
  {
    hide Refs, OffOf, Denotes, CellOf, IdMap, At, Eval, Compile;
    DenotesRefs(arg, t);
    match t {
      case Fixed(_) =>
      case Scaled(_, id, sub) =>
        assert Refs(arg)[0] == Ref(id, sub);
        CellIs(infos, id, sub);
      case Product(id, sub, _, id1, sub1) =>
        assert Refs(arg)[0] == Ref(id, sub) && Refs(arg)[1] == Ref(id1, sub1);
        CellIs(infos, id, sub);
        CellIs(infos, id1, sub1);
    }
    EvalAvoids(infos, mem, arg, off, x);
  }

  /** The lower half 25 is cell 5 of entry 1. */
  lemma FifthCell(infos: seq<Info>, mem: Memory)
    requires |infos| == 1 && infos[0].id == 1 && infos[0].off == 8
    requires At(mem, 8) == 7 && At(mem, 48) == 3
    ensures Known(infos, 0x1_0000_0019) && Wrap(Eval(mem, Compile(infos, 0x1_0000_0019))) == 3
  {
    hide At, Wrap, Eval, IdMap, Compile;
    var t := Scaled(1, 1, 5);
    DenotesRefs(0x1_0000_0019, t);
    IdMapLast(infos, 1);
    assert CellOf(infos, 1, 5, 48) by { assert Last(infos, 1, 0); }
    TermValue(infos, mem, 0x1_0000_0019, t, 3);
    WrapSmall();
  }

  lemma WrapSmall()
    ensures Wrap(3) == 3
  {
  }

  // ---- what expressions mean ----

  ghost predicate Valued(infos: seq<Info>, mem: Memory, args: seq<int>, xs: seq<int>) {
    |xs| == |args| && forall i, t :: 0 <= i < |args| && Denotes(args[i], t) ==> ValueOf(infos, mem, t, xs[i])
  }

  function Plus(xs: seq<int>): int {
    if xs == [] then 0 else Plus(xs[..|xs| - 1]) + xs[|xs| - 1]
  }

  lemma WrapPlus(a: int, b: int, c: int)
    requires Wrap(b) == Wrap(c)
    ensures Wrap(Wrap(a) + b) == Wrap(a + c)
  {
  }

  lemma {:induction false} SumMeans(infos: seq<Info>, mem: Memory, args: seq<int>, codes: seq<Code>, xs: seq<int>)
    requires CompiledTo(infos, args, codes) && Valued(infos, mem, args, xs)
    ensures Sum(mem, codes) == Wrap(Plus(xs))
    decreases |args|
  {
    hide Known, Compile, Eval, Denotes, ValueOf, Wrap;
    if args == [] {
      WrapNone();
    } else {
      var n := |args| - 1;
      SumMeans(infos, mem, args[..n], codes[..n], xs[..n]);
      var t := DenotesSome(args[n]);
      TermValue(infos, mem, args[n], t, xs[n]);
      WrapPlus(Plus(xs[..n]), Eval(mem, codes[n]), xs[n]);
    }
  }

  lemma WrapNone()
    ensures Wrap(0) == 0
  {
  }

  lemma {:induction false} ValuedSome(infos: seq<Info>, mem: Memory, args: seq<int>) returns (xs: seq<int>)
    requires forall i :: 0 <= i < |args| ==> Known(infos, args[i])
    ensures Valued(infos, mem, args, xs)
    decreases |args|
  {
    hide Known, Denotes, ValueOf, Refs, OffOf, IdMap, High, At;
    xs := [];
    if args != [] {
      var n := |args| - 1;
      var ys := ValuedSome(infos, mem, args[..n]);
      var x := ValueSome(infos, mem, args[n]);
      xs := ys + [x];
    }
  }

  lemma ValueSome(infos: seq<Info>, mem: Memory, arg: int) returns (x: int)
    requires Known(infos, arg)
    ensures forall t :: Denotes(arg, t) ==> ValueOf(infos, mem, t, x)
  {
    hide Denotes, ValueOf, Refs, OffOf, IdMap, High, At;
    var r := Refs(arg);
    x := if |r| == 0 then High(arg) else if |r| == 1 then High(arg) * At(mem, OffOf(infos, r[0]))
         else At(mem, OffOf(infos, r[0])) * At(mem, OffOf(infos, r[1]));
    forall t | Denotes(arg, t)
      ensures ValueOf(infos, mem, t, x)
    {
      ValueIs(infos, mem, arg, t, x);
    }
  }

  /** The quotient of a and b, rounded toward zero: the remainder has the sign of a. */
  ghost predicate Quotient(q: int, a: int, b: int) {
    var r := a - q * b; (a >= 0 ==> 0 <= r) && (a <= 0 ==> r <= 0) && (-b < r < b || b < r < -b)
  }

  lemma DivMeans(a: int, b: int)
    requires b != 0
    ensures Quotient(TruncDiv(a, b), a, b)
  {
    var q := Abs(a) / Abs(b);
    var p: int := Remains(Abs(a), Abs(b), q);
    Signs(q, b, p);
    QuotientIs(TruncDiv(a, b), a, b, if a >= 0 then p else 0 - p);
  }

  lemma Remains(a: nat, b: nat, q: nat) returns (p: int)
    requires b > 0 && q == a / b
    ensures p == b * q && 0 <= a - p < b
  {
    p := b * q;
  }

  lemma Signs(q: nat, b: int, p: int)
    requires p == Abs(b) * q
    ensures q * b == (if b >= 0 then p else 0 - p) && (0 - q) * b == (if b >= 0 then 0 - p else p)
  {
  }

  lemma QuotientIs(q: int, a: int, b: int, p: int)
    requires q * b == p && b != 0 && if a >= 0 then 0 <= a - p < Abs(b) else 0 <= p - a < Abs(b)
    ensures Quotient(q, a, b)
  {
  }

  /**
   The entry's cell holds the sum of its terms, or the quotient of the sums of its first and last terms; `was`, if that
   divisor is zero.
   */
  ghost predicate Meant(infos: seq<Info>, mem: Memory, e: Info, was: int) {
    exists xs :: |xs| == e.cnt + e.cnt1 && Valued(infos, mem, e.args, xs) &&
                 Stored(At(mem, e.off), Plus(xs[..e.cnt]), Plus(xs[e.cnt..]), e.cnt1 > 0, was)
  }

  ghost predicate Stored(v: int, n: int, d: int, ratio: bool, was: int) {
    if !ratio then Wraps(v, n)
    else exists a, b :: Wraps(a, n) && Wraps(b, d) && if b == 0 then v == was else Quotient(v, a, b)
  }

  lemma AgreesMeans(infos: seq<Info>, mem: Memory, e: Info, codes: seq<Code>, was: int)
    requires |codes| == e.cnt + e.cnt1 && CompiledTo(infos, e.args, codes) && Agrees(mem, e, codes, was)
    ensures Meant(infos, mem, e, was)
  {
    hide Known, Compile, Denotes, ValueOf, Wrap, At, Sum, Plus, TruncDiv, Quotient, Wraps;
    var xs := ValuedSome(infos, mem, e.args);
    var n := e.cnt;
    var a, b := Plus(xs[..n]), Plus(xs[n..]);
    SumMeans(infos, mem, e.args[..n], codes[..n], xs[..n]);
    SumMeans(infos, mem, e.args[n..], codes[n..], xs[n..]);
    WrapWraps(a);
    WrapWraps(b);
    if e.cnt1 > 0 && Wrap(b) != 0 { DivMeans(Wrap(a), Wrap(b)); }
    if e.cnt1 == 0 { assert codes[..n] == codes; }
    assert Stored(At(mem, e.off), a, b, e.cnt1 > 0, was);
  }

  /** The pass changes no cell but those of its expressions. */
  lemma {:induction false} PassKeeps(infos: seq<Info>, list: seq<nat>, code: map<nat, seq<Code>>, mem: Memory, off: nat)
    requires Coded(infos, list, code) && forall i :: 0 <= i < |list| ==> infos[list[i]].off != off
    ensures At(Pass(infos, list, code, mem), off) == At(mem, off)
    decreases |list|
  {
    hide CompiledTo, Sum, TruncDiv;
    if list != [] { PassKeeps(infos, list[..|list| - 1], code, mem, off); }
  }

  /** The ten-minute average */
  function Trend(m: int, s: int): int {
    Wrap(m * 63 + s * 1024) / 64
  }

  /** 63 parts of the old average and 1024 of the new value, by 64, rounded down. */
  lemma TrendMeans(m: int, s: int)
    ensures Sixtyfourth(Trend(m, s), 63 * m + 1024 * s)
  {
    hide Wrap;
    WrapWraps(63 * m + 1024 * s);
  }

  ghost predicate Sixtyfourth(v: int, x: int) {
    exists w :: Wraps(w, x) && 64 * v <= w < 64 * v + 64
  }

  /** The ten-minute averages of the first n expressions follow their new values; the other cells are as they were. */
  ghost predicate Averaged(infos: seq<Info>, list: seq<nat>, n: nat, was: Memory, s10: Memory, m10: Memory)
    requires n <= |list| && forall i :: 0 <= i < |list| ==> list[i] < |infos|
  {
    AveragedAt(OffsOf(infos, list[..n]), was, s10, m10)
  }

  ghost predicate AveragedAt(offs: set<nat>, was: Memory, s10: Memory, m10: Memory) {
    forall off :: At(m10, off) == if off in offs then Trend(At(was, off), At(s10, off)) else At(was, off)
  }

  ghost function OffsOf(infos: seq<Info>, list: seq<nat>): set<nat>
    requires forall i :: 0 <= i < |list| ==> list[i] < |infos|
  {
    set i | 0 <= i < |list| :: infos[list[i]].off
  }

  lemma OffsOfNext(infos: seq<Info>, list: seq<nat>, n: nat)
    requires n < |list| && forall i :: 0 <= i < |list| ==> list[i] < |infos|
    ensures OffsOf(infos, list[..n + 1]) == OffsOf(infos, list[..n]) + {infos[list[n]].off}
  {
    var xs, ys := list[..n], list[..n + 1];
    assert ys == xs + [list[n]];
    forall i | 0 <= i < |ys|
      ensures infos[ys[i]].off in OffsOf(infos, xs) + {infos[list[n]].off}
    {
      if i < n { assert ys[i] == xs[i]; }
    }
    forall i | 0 <= i < |xs|
      ensures infos[xs[i]].off in OffsOf(infos, ys)
    {
      assert ys[i] == xs[i];
    }
    assert infos[ys[n]].off in OffsOf(infos, ys);
  }

  lemma AveragedNext(infos: seq<Info>, list: seq<nat>, n: nat, was: Memory, s10: Memory, m10: Memory, codes: seq<Code>)
    requires n < |list| && Disjoint(infos) && Distinct(list) && forall i :: 0 <= i < |list| ==> list[i] < |infos|
    requires |codes| == infos[list[n]].cnt + infos[list[n]].cnt1 && Averaged(infos, list, n, was, s10, m10)
    ensures var e := infos[list[n]]; var s10' := Step(s10, e, codes);
      Averaged(infos, list, n + 1, was, s10', m10[e.off := Trend(At(m10, e.off), At(s10', e.off))])
  {
    hide Sum, TruncDiv, Trend, Disjoint, Distinct, Step, OffsOf, At, AveragedAt;
    var e := infos[list[n]];
    OffsOfNext(infos, list, n);
    OffsNew(infos, list, n);
    StepKeeps(s10, e, codes);
    AveragedOff(OffsOf(infos, list[..n]), was, s10, Step(s10, e, codes), m10, e.off);
  }

  lemma OffsNew(infos: seq<Info>, list: seq<nat>, n: nat)
    requires n < |list| && Disjoint(infos) && Distinct(list) && forall i :: 0 <= i < |list| ==> list[i] < |infos|
    ensures infos[list[n]].off !in OffsOf(infos, list[..n])
  {
    hide Disjoint, Distinct;
    OffsDiffer(infos, list, n, n);
  }

  lemma AveragedOff(offs: set<nat>, was: Memory, s10: Memory, s10': Memory, m10: Memory, off: nat)
    requires AveragedAt(offs, was, s10, m10) && off !in offs && forall x :: x != off ==> At(s10', x) == At(s10, x)
    ensures AveragedAt(offs + {off}, was, s10', m10[off := Trend(At(m10, off), At(s10', off))])
  {
    hide Trend;
  }

  /** A step changes no cell but its expression's. */
  lemma StepKeeps(mem: Memory, e: Info, codes: seq<Code>)
    requires |codes| == e.cnt + e.cnt1
    ensures forall off :: off != e.off ==> At(Step(mem, e, codes), off) == At(mem, off)
  {
    hide Sum, TruncDiv;
  }

  /**
   The listed expressions are those with code, each once, each after those it refers to, each with its compiled terms.
   */
  ghost predicate InOrder(infos: seq<Info>, list: seq<nat>, code: map<nat, seq<Code>>) {
    code.Keys == Elems(list) && Distinct(list) && Ordered(infos, list) && Coded(infos, list, code)
  }

  lemma AddInOrder(infos: seq<Info>, list: seq<nat>, code: map<nat, seq<Code>>, i: nat, codes: seq<Code>)
    requires Formed(infos) && InOrder(infos, list, code) && IsExpr(infos, i) && i !in code
    requires TermsOk(infos, code.Keys, infos[i].args) && CompiledTo(infos, infos[i].args, codes)
    ensures InOrder(infos, list + [i], code[i := codes])
  {
    hide TermsOk, CompiledTo, Elems, Ordered, Coded, Distinct, Formed;
    ElemsSnoc(list, i);
    AddDistinct(list, i);
    AddOrdered(infos, list, i);
    AddCoded(infos, list, code, i, codes);
  }

  lemma AddDistinct(list: seq<nat>, i: nat)
    requires Distinct(list) && i !in Elems(list)
    ensures Distinct(list + [i])
  {
    forall k | 0 <= k < |list|
      ensures list[k] != i
    {
      assert list[k] in Elems(list);
    }
  }

  lemma AddOrdered(infos: seq<Info>, list: seq<nat>, i: nat)
    requires Ordered(infos, list) && IsExpr(infos, i) && TermsOk(infos, Elems(list), infos[i].args)
    ensures Ordered(infos, list + [i])
  {
    hide TermsOk, Elems;
    var more := list + [i];
    forall k | 0 <= k < |more|
      ensures IsExpr(infos, more[k]) && TermsOk(infos, Elems(more[..k]), infos[more[k]].args)
    {
      assert more[..k] == list[..k];
      if k == |list| { assert list[..k] == list; }
    }
  }

  lemma AddCoded(infos: seq<Info>, list: seq<nat>, code: map<nat, seq<Code>>, i: nat, codes: seq<Code>)
    requires Formed(infos) && Coded(infos, list, code) && code.Keys == Elems(list)
    requires IsExpr(infos, i) && i !in code && CompiledTo(infos, infos[i].args, codes)
    ensures Coded(infos, list + [i], code[i := codes])
  {
    hide CompiledTo, Elems;
  }

  class StatManager {
    const infos: seq<Info>
    var code: map<nat, seq<Code>>
    var expr: seq<nat>
    var s10: Memory
    var m10: Memory
    var all: Memory

    constructor (infos: seq<Info>)
      ensures this.infos == infos && code == map[] && expr == []
    {
      this.infos := infos;
      code, expr, s10, m10, all := map[], [], map[], map[], map[];
    }

    /** The list of expressions as far as it goes. */
    ghost predicate Listed()
      reads this
    {
      InOrder(infos, expr, code)
    }

    /** InitExpr: all terms, or nothing if one of them names an unknown or not yet initialised entry. */
    method InitExpr(cnt: nat, args: seq<int>) returns (ok: bool, codes: seq<Code>)
      requires cnt == |args|
      ensures ok <==> TermsOk(infos, code.Keys, args)
      ensures ok ==> CompiledTo(infos, args, codes)
    {
      hide Refs, RefOk, IdMap, Compile;
      codes := [];
      for i := 0 to cnt
        invariant CompiledTo(infos, args[..i], codes) && TermsOk(infos, code.Keys, args[..i])
      {
        if !TermOk(infos, code.Keys, args[i]) { return false, []; }
        TermKnown(infos, code.Keys, args[i]);
        codes := codes + [Compile(infos, args[i])];
      }
      assert args[..cnt] == args;
      ok := true;
    }

    /** Adds expression i, whose references are initialised. */
    method Add(i: nat, codes: seq<Code>, ghost rounds: nat)
      requires Formed(infos) && Listed() && IsExpr(infos, i) && i !in code &&
               TermsOk(infos, code.Keys, infos[i].args) && CompiledTo(infos, infos[i].args, codes)
      requires forall j :: j in code ==> InitIn(infos, j, rounds)
      modifies this`code, this`expr
      ensures Listed() && expr == old(expr) + [i] && code.Keys == old(code).Keys + {i}
      ensures forall j :: j in code ==> InitIn(infos, j, rounds + 1)
    {
      hide InOrder, Elems, IsExpr, TermsOk, CompiledTo, Formed, InitIn;
      AllReady(infos, code.Keys, i, rounds);
      AddInOrder(infos, expr, code, i, codes);
      code := code[i := codes];
      expr := expr + [i];
    }

    /** The expression loop of InitStatInfo: exactly the initialisable expressions, each after those it refers to. */
    method InitExpressions()
      requires Formed(infos) && code == map[] && expr == []
      modifies this`code, this`expr
      ensures Listed() && forall i :: i in expr <==> Initialisable(infos, i)
    {
      hide TermsOk, Compile, Known, InitIn, Formed;
      var n := 1;
      ghost var rounds := 0;
      while n > 0
        invariant Listed() && |expr| <= |infos| && (forall j :: j in code ==> InitIn(infos, j, rounds))
        invariant n == 0 ==> Closed(infos, code.Keys)
        decreases |infos| - |expr|, n
      {
        n := 0;
        ghost var start := expr;
        for i := 0 to |infos|
          invariant Listed() && |expr| == |start| + n && (forall j :: j in code ==> InitIn(infos, j, rounds))
          invariant n == 0 ==> forall j :: 0 <= j < i && IsExpr(infos, j) && j !in code ==>
                      !TermsOk(infos, code.Keys, infos[j].args)
        {
          if infos[i].kind != Expr || i in code { continue; }
          var cnt := infos[i].cnt + infos[i].cnt1;
          if cnt == 0 { continue; }
          ArgCount(infos, i);
          var ok, codes := InitExpr(cnt, infos[i].args);
          if ok {
            Add(i, codes, rounds);
            rounds := rounds + 1;
            n := n + 1;
          }
        }
        DistinctBound(expr, |infos|);
      }
      forall i: nat
        ensures i in expr <==> Initialisable(infos, i)
      {
        if i in expr {
          assert i in Elems(expr);
        } else if k :| InitIn(infos, i, k) {
          ClosedHasAll(infos, code.Keys, i, k);
        }
      }
    }

    /** The expressions in RunJobOnce. */
    method Evaluate()
      requires Listed() && Disjoint(infos) && SubsBelow18(infos)
      modifies this`s10, this`m10, this`all
      ensures forall k :: 0 <= k < |expr| ==>
        var e, c := infos[expr[k]], code[expr[k]];
        Agrees(s10, e, c, At(old(s10), e.off)) && Agrees(all, e, c, At(old(all), e.off)) &&
        Meant(infos, s10, e, At(old(s10), e.off)) && Meant(infos, all, e, At(old(all), e.off))
      ensures Averaged(infos, expr, |expr|, old(m10), s10, m10)
    {
      hide Disjoint, SubsBelow18, Ordered, Distinct, Elems, Coded, CompiledTo, Pass, Step, Averaged, Agrees, Meant,
           Trend, At;
      CodedPrefix(infos, expr, code, 0, s10);
      CodedPrefix(infos, expr, code, 0, all);
      NothingAveraged(infos, expr, m10, s10);
      for i := 0 to |expr|
        invariant Coded(infos, expr[..i], code)
        invariant s10 == Pass(infos, expr[..i], code, old(s10)) && all == Pass(infos, expr[..i], code, old(all))
        invariant Averaged(infos, expr, i, old(m10), s10, m10)
      {
        var e, c := infos[expr[i]], code[expr[i]];
        CodedPrefix(infos, expr, code, i, old(s10));
        CodedPrefix(infos, expr, code, i, old(all));
        AveragedNext(infos, expr, i, old(m10), s10, m10, c);
        s10 := EvalStep(s10, e, c);
        all := EvalStep(all, e, c);
        m10 := m10[e.off := Trend(At(m10, e.off), At(s10, e.off))];
      }
      assert expr[..|expr|] == expr;
      forall k | 0 <= k < |expr|
        ensures var e, c := infos[expr[k]], code[expr[k]];
                Agrees(s10, e, c, At(old(s10), e.off)) && Agrees(all, e, c, At(old(all), e.off)) &&
                Meant(infos, s10, e, At(old(s10), e.off)) && Meant(infos, all, e, At(old(all), e.off))
      {
        PassAgrees(infos, expr, code, old(s10), k);
        PassAgrees(infos, expr, code, old(all), k);
        CodedAt(infos, expr, code, k);
        AgreesMeans(infos, s10, infos[expr[k]], code[expr[k]], At(old(s10), infos[expr[k]].off));
        AgreesMeans(infos, all, infos[expr[k]], code[expr[k]], At(old(all), infos[expr[k]].off));
      }
    }
  }

  method EvalStep(mem: Memory, e: Info, codes: seq<Code>) returns (r: Memory)
    requires |codes| == e.cnt + e.cnt1
    ensures r == Step(mem, e, codes)
  {
    hide Sum, TruncDiv;
    r := mem;
    if e.cnt1 == 0 {
      var sum := CalcExpr(mem, e.cnt, codes);
      r := mem[e.off := sum];
    } else {
      assert codes[e.cnt..][..e.cnt1] == codes[e.cnt..];
      var div := CalcExpr(mem, e.cnt1, codes[e.cnt..]);
      if div != 0 {
        var sum := CalcExpr(mem, e.cnt, codes);
        r := mem[e.off := TruncDiv(sum, div)];
      }
    }
  }

  lemma CodedPrefix(infos: seq<Info>, list: seq<nat>, code: map<nat, seq<Code>>, i: nat, mem: Memory)
    requires Coded(infos, list, code) && i <= |list|
    ensures Coded(infos, list[..i], code) && (i == 0 ==> Pass(infos, list[..i], code, mem) == mem)
    ensures forall k :: 0 <= k < |list| ==>
      list[k] < |infos| && list[k] in code && |code[list[k]]| == infos[list[k]].cnt + infos[list[k]].cnt1
    ensures i < |list| ==>
      Coded(infos, list[..i + 1], code) &&
      Pass(infos, list[..i + 1], code, mem) == Step(Pass(infos, list[..i], code, mem), infos[list[i]], code[list[i]])
  {
    hide Compile, Known, Step;
    if i < |list| { assert list[..i + 1][..i] == list[..i]; }
  }

  lemma CodedAt(infos: seq<Info>, list: seq<nat>, code: map<nat, seq<Code>>, k: nat)
    requires Coded(infos, list, code) && k < |list|
    ensures CompiledTo(infos, infos[list[k]].args, code[list[k]])
  {
    hide CompiledTo;
  }

  lemma NothingAveraged(infos: seq<Info>, list: seq<nat>, m10: Memory, s10: Memory)
    requires forall i :: 0 <= i < |list| ==> list[i] < |infos|
    ensures Averaged(infos, list, 0, m10, s10, m10)
  {
  }

  lemma TermKnown(infos: seq<Info>, done: set<nat>, arg: int)
    requires TermOk(infos, done, arg)
    ensures Known(infos, arg)
  {
    hide Refs, IdMap;
    forall i | 0 <= i < |Refs(arg)|
      ensures Refs(arg)[i].id in IdMap(infos)
    {
      assert RefOk(infos, done, Refs(arg)[i]);
    }
  }

  lemma ArgCount(infos: seq<Info>, i: nat)
    requires Formed(infos) && i < |infos| && infos[i].kind == Expr
    ensures |infos[i].args| == infos[i].cnt + infos[i].cnt1
  {
  }

  /** An expression is ready one round after all that it refers to. */
  lemma AllReady(infos: seq<Info>, done: set<nat>, i: nat, rounds: nat)
    requires IsExpr(infos, i) && TermsOk(infos, done, infos[i].args) &&
             forall j :: j in done ==> InitIn(infos, j, rounds)
    ensures InitIn(infos, i, rounds + 1) && forall j :: j in done ==> InitIn(infos, j, rounds + 1)
  {
    hide TermsOk;
    var ready := ReadyIn(infos, rounds);
    forall j | j in done
      ensures j in ready && InitIn(infos, j, rounds + 1)
    {
      assert InitIn(infos, j, rounds);
      InitLater(infos, j, rounds, rounds + 1);
    }
    RefGrows(infos, done, ready, infos[i].args);
  }
}
