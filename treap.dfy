/** The container facade (treap.go): a treap owns the root of a node tree
    and a comparator, and every operation is one or two splits followed by
    merges.  Priorities, which Go draws from `randFn`, are parameters. */
module Treaps {
  import opened Nodes
  import opened Orders

  /** The result of an operation that may panic. */
  datatype Outcome<R> = Panic(message: string) | Done(value: R)

  /** A split condition that reads only the value, through `p`. */
  ghost predicate Agrees<T(!new)>(cond: (T, int) -> bool, p: T -> bool)
  {
    forall x, i :: AgreesAt(cond, p, x, i)
  }

  /** `cond` and `p` agree on one value at one position; the quantifier in
      `Agrees` fires only on these terms. */
  ghost predicate AgreesAt<T>(cond: (T, int) -> bool, p: T -> bool, x: T, i: int)
  {
    cond(x, i) == p(x)
  }

  // The three split conditions.  Each ignores one of its two arguments.

  /** condLess: the node's value is below `value`, whatever its index. */
  function CondLess<T(!new)>(less: (T, T) -> bool, value: T): (cond: (T, int) -> bool)
    ensures Agrees(cond, Below(less, value))
  {
    (x: T, i: int) => less(x, value)
  }

  /** condLeq: the node's value is not above `value`, whatever its index. */
  function CondLeq<T(!new)>(less: (T, T) -> bool, value: T): (cond: (T, int) -> bool)
    ensures Agrees(cond, AtMost(less, value))
  {
    (x: T, i: int) => !less(value, x)
  }

  /** condCutN: the node's absolute index is below `n`; on any sequence of
      positions it holds on a prefix. */
  function CondCutN<T(!new)>(n: int): (cond: (T, int) -> bool)
    ensures forall s: seq<T>, offset :: Monotone(s, cond, offset)
  {
    (x: T, i: int) => i < n
  }

  /** The first split of EraseRange and CountRange: condLess on the start
      value when the start is inclusive, condLeq otherwise. */
  function StartCond<T(!new)>(less: (T, T) -> bool, start: T, inclusiveStart: bool): (cond: (T, int) -> bool)
    ensures Agrees(cond, Before(less, start, inclusiveStart))
  {
    if inclusiveStart then CondLess(less, start) else CondLeq(less, start)
  }

  /** The second split of EraseRange and CountRange: condLeq on the end
      value when the end is inclusive, condLess otherwise. */
  function EndCond<T(!new)>(less: (T, T) -> bool, end: T, inclusiveEnd: bool): (cond: (T, int) -> bool)
    ensures Agrees(cond, Through(less, end, inclusiveEnd))
  {
    if inclusiveEnd then CondLeq(less, end) else CondLess(less, end)
  }

  /** Where `condCutN(n)` cuts a sequence: `n` clamped to its length. */
  lemma {:induction false} CutNPoint<T(!new)>(s: seq<T>, n: int, k: int)
    requires SplitAt(s, CondCutN(n), 0, k)
    ensures k == if n < 0 then 0 else if n > |s| then |s| else n
  {
    if 0 <= k < |s| {
      assert !CondCutN(n)(s[k], k);
    }
    if 0 < k {
      assert CondCutN(n)(s[k - 1], k - 1);
    }
  }

  /** Where a split condition that reads only the value cuts a sequence,
      the value predicate `p` holds exactly before the cut, and the cut is
      the number of elements satisfying `p`. */
  lemma {:induction false} CountAtSplit<T(!new)>(s: seq<T>, cond: (T, int) -> bool, p: T -> bool, k: int)
    requires Agrees(cond, p)
    requires SplitAt(s, cond, 0, k)
    ensures forall i :: 0 <= i < |s| ==> (p(s[i]) <==> i < k)
    ensures Count(s, p) == k
  {
    forall i | 0 <= i < |s| ensures p(s[i]) <==> i < k {
      assert AgreesAt(cond, p, s[i], i);
    }
    Block(s, p, 0, k);
  }

  /** A value condition whose predicate holds on a prefix is monotone. */
  lemma {:induction false} PrefixMonotone<T(!new)>(s: seq<T>, cond: (T, int) -> bool, p: T -> bool, offset: int)
    requires Agrees(cond, p) && Prefix(s, p)
    ensures Monotone(s, cond, offset)
  {
    forall i, j | 0 <= i <= j < |s| && cond(s[j], offset + j) ensures cond(s[i], offset + i) {
      assert AgreesAt(cond, p, s[j], offset + j) && AgreesAt(cond, p, s[i], offset + i);
      assert PrefixAt(s, p, i, j);
    }
  }

  /** One split by a value condition whose predicate holds on a prefix: both
      parts are valid, and the left part holds as many values as satisfy the
      predicate. */
  lemma {:induction false} OneCut<T(!new)>(t: Tree<T>, cond: (T, int) -> bool, p: T -> bool, parts: (Tree<T>, Tree<T>))
    requires Nodes.Valid(t) && Agrees(cond, p) && Prefix(Elems(t), p)
    requires parts == Split(t, cond, 0)
    ensures Nodes.Valid(parts.0) && Nodes.Valid(parts.1)
    ensures SafeSize(parts.0) == |Elems(parts.0)| == Count(Elems(t), p)
  {
    var s := Elems(t);
    PrefixMonotone(s, cond, p, 0);
    SplitParts(t, cond, 0);
    CountAtSplit(s, cond, p, SafeSize(parts.0));
  }

  /** Two splits, the second on the right part of the first, by value
      conditions whose predicates hold on nested prefixes: the parts hold
      the values satisfying `p1`, those satisfying `q` (`p2` but not `p1`)
      and the rest. */
  lemma {:induction false} TwoCuts<T(!new)>(t: Tree<T>, c1: (T, int) -> bool, p1: T -> bool, c2: (T, int) -> bool, p2: T -> bool,
                         q: T -> bool, a: (Tree<T>, Tree<T>), b: (Tree<T>, Tree<T>))
    requires Nodes.Valid(t) && Agrees(c1, p1) && Agrees(c2, p2)
    requires Prefix(Elems(t), p1) && Prefix(Elems(t), p2)
    requires forall x :: p1(x) ==> p2(x)
    requires forall x :: q(x) == (!p1(x) && p2(x))
    requires a == Split(t, c1, 0) && b == Split(a.1, c2, 0)
    ensures Nodes.Valid(a.0) && Nodes.Valid(b.0) && Nodes.Valid(b.1)
    ensures Elems(t) == Elems(a.0) + (Elems(b.0) + Elems(b.1))
    ensures SafeSize(a.0) == |Elems(a.0)| == Count(Elems(t), p1)
    ensures SafeSize(b.0) == |Elems(b.0)| == Count(Elems(t), q)
    ensures |Elems(a.0)| + |Elems(b.0)| == Count(Elems(t), p2)
    ensures Remove(Elems(t), q) == Elems(a.0) + Elems(b.1)
  {
    OneCut(t, c1, p1, a);
    PrefixRight(Elems(a.0), Elems(a.1), p2);
    OneCut(a.1, c2, p2, b);
    NestedCuts(Elems(t), Elems(a.0), Elems(b.0), Elems(b.1), p1, p2, q);
  }

  /** One split by condCutN(n): both parts are valid, and the left part
      holds the first `n` values, `n` clamped to the size. */
  lemma {:induction false} CutNParts<T(!new)>(t: Tree<T>, n: int, parts: (Tree<T>, Tree<T>))
    requires Nodes.Valid(t) && parts == Split(t, CondCutN(n), 0)
    ensures Nodes.Valid(parts.0) && Nodes.Valid(parts.1)
    ensures SafeSize(parts.0) == |Elems(parts.0)|
            == (if n < 0 then 0 else if n > |Elems(t)| then |Elems(t)| else n)
  {
    SplitParts(t, CondCutN(n), 0);
    CutNPoint(Elems(t), n, SafeSize(parts.0));
  }

  /** Both lookups by a value condition whose predicate holds on a prefix,
      in terms of the count of values satisfying it. */
  lemma {:induction false} LookupsAtCount<T(!new)>(t: Tree<T>, cond: (T, int) -> bool, p: T -> bool)
    requires Nodes.Valid(t) && Agrees(cond, p) && Prefix(Elems(t), p)
    ensures var k := Count(Elems(t), p);
            && LookupLeftmostUnmatch(t, cond, 0) ==
                 (if k == |Elems(t)| then (None, 0) else (Some(PathAt(t, k)), k))
            && LookupRightmostMatch(t, cond, 0) ==
                 (if k == 0 then (None, 0) else (Some(PathAt(t, k - 1)), k - 1))
  {
    OneCut(t, cond, p, Split(t, cond, 0));
    CutIsSplit(t, cond, 0);
    assert Cut(t, cond, 0) == Count(Elems(t), p);
    LeftmostUnmatchAtCut(t, cond, 0);
    RightmostMatchAtCut(t, cond, 0);
  }

  /** InsertLeft puts `value` just before the first element not below it,
      at the index that counts the smaller values, and keeps a valid sorted
      treap. */
  lemma {:induction false} InsertedLeftSound<T(!new)>(less: (T, T) -> bool, t: Tree<T>, value: T, priority: int, parts: (Tree<T>, Tree<T>))
    requires StrictWeakOrder(less) && Nodes.Valid(t) && Sorted(less, Elems(t))
    requires parts == Split(t, CondLess(less, value), 0)
    ensures var s := Elems(t);
            var k := SafeSize(parts.0);
            var r := Nodes.Merge(parts.0, Nodes.Merge(NewNode(value, priority), parts.1));
            && k == Count(s, Below(less, value))
            && Elems(r) == s[..k] + [value] + s[k..]
            && Nodes.Valid(r) && Sorted(less, Elems(r))
  {
    BelowPrefix(less, Elems(t), value);
    OneCut(t, CondLess(less, value), Below(less, value), parts);
    InsertBefore(less, Elems(t), Elems(parts.0), Elems(parts.1), value);
  }

  /** InsertRight puts `value` just after the last element not above it,
      at the index that counts the values not above it, and keeps a valid
      sorted treap. */
  lemma {:induction false} InsertedRightSound<T(!new)>(less: (T, T) -> bool, t: Tree<T>, value: T, priority: int, parts: (Tree<T>, Tree<T>))
    requires StrictWeakOrder(less) && Nodes.Valid(t) && Sorted(less, Elems(t))
    requires parts == Split(t, CondLeq(less, value), 0)
    ensures var s := Elems(t);
            var k := SafeSize(parts.0);
            var r := Nodes.Merge(Nodes.Merge(parts.0, NewNode(value, priority)), parts.1);
            && k == Count(s, AtMost(less, value))
            && Elems(r) == s[..k] + [value] + s[k..]
            && Nodes.Valid(r) && Sorted(less, Elems(r))
  {
    AtMostPrefix(less, Elems(t), value);
    OneCut(t, CondLeq(less, value), AtMost(less, value), parts);
    InsertAfter(less, Elems(t), Elems(parts.0), Elems(parts.1), value);
  }

  /** The two splits of EraseAll, EraseLeftmost and EraseRightmost: the
      values below `v`, the run of values equivalent to it, and the rest. */
  lemma {:induction false} EqualCuts<T(!new)>(less: (T, T) -> bool, t: Tree<T>, v: T, a: (Tree<T>, Tree<T>), b: (Tree<T>, Tree<T>))
    requires StrictWeakOrder(less) && Nodes.Valid(t) && Sorted(less, Elems(t))
    requires a == Split(t, CondLess(less, v), 0) && b == Split(a.1, CondLeq(less, v), 0)
    ensures Nodes.Valid(a.0) && Nodes.Valid(b.0) && Nodes.Valid(b.1)
    ensures Elems(t) == Elems(a.0) + (Elems(b.0) + Elems(b.1))
    ensures SafeSize(a.0) == |Elems(a.0)| == Count(Elems(t), Below(less, v))
    ensures SafeSize(b.0) == |Elems(b.0)| == Count(Elems(t), Equivalent(less, v))
    ensures |Elems(a.0)| + |Elems(b.0)| == Count(Elems(t), AtMost(less, v))
    ensures Remove(Elems(t), Equivalent(less, v)) == Elems(a.0) + Elems(b.1)
  {
    BelowPrefix(less, Elems(t), v);
    AtMostPrefix(less, Elems(t), v);
    BelowAtMost(less, v);
    TwoCuts(t, CondLess(less, v), Below(less, v), CondLeq(less, v), AtMost(less, v), Equivalent(less, v), a, b);
  }

  /** EraseAll removes exactly the values equivalent to `v`, reports how
      many, and keeps a valid sorted treap. */
  lemma {:induction false} ErasedAllSound<T(!new)>(less: (T, T) -> bool, t: Tree<T>, v: T, a: (Tree<T>, Tree<T>), b: (Tree<T>, Tree<T>))
    requires StrictWeakOrder(less) && Nodes.Valid(t) && Sorted(less, Elems(t))
    requires a == Split(t, CondLess(less, v), 0) && b == Split(a.1, CondLeq(less, v), 0)
    ensures var r := Nodes.Merge(a.0, b.1);
            && SafeSize(b.0) == Count(Elems(t), Equivalent(less, v))
            && Elems(r) == Remove(Elems(t), Equivalent(less, v))
            && Nodes.Valid(r) && Sorted(less, Elems(r))
  {
    EqualCuts(less, t, v, a, b);
    Excise(less, Elems(t), Elems(a.0), Elems(b.0), Elems(b.1));
  }

  /** The equal run of `v`, cut once more after its first `m` values
      (clamped to the run): the four pieces and their sizes. */
  lemma {:induction false} EqualRunCut<T(!new)>(less: (T, T) -> bool, t: Tree<T>, v: T, m: int,
                                                  a: (Tree<T>, Tree<T>), b: (Tree<T>, Tree<T>), c: (Tree<T>, Tree<T>))
    requires StrictWeakOrder(less) && Nodes.Valid(t) && Sorted(less, Elems(t))
    requires a == Split(t, CondLess(less, v), 0) && b == Split(a.1, CondLeq(less, v), 0)
    requires c == Split(b.0, CondCutN(m), 0)
    ensures var s := Elems(t);
            var equal := Count(s, Equivalent(less, v));
            && s == Elems(a.0) + ((Elems(c.0) + Elems(c.1)) + Elems(b.1))
            && |Elems(a.0)| == Count(s, Below(less, v))
            && |Elems(a.0)| + equal == Count(s, AtMost(less, v))
            && SafeSize(b.0) == |Elems(c.0)| + |Elems(c.1)| == equal
            && SafeSize(c.0) == |Elems(c.0)| == (if m < 0 then 0 else if m > equal then equal else m)
            && SafeSize(c.1) == |Elems(c.1)| == (if m < 0 then equal else if m > equal then 0 else equal - m)
            && Nodes.Valid(a.0) && Nodes.Valid(c.0) && Nodes.Valid(c.1) && Nodes.Valid(b.1)
  {
    EqualCuts(less, t, v, a, b);
    CutNParts(b.0, m, c);
  }

  /** EraseLeftmost removes the first `min(n, #equal)` values of the equal
      run (all of it for a negative `n`) and keeps a valid sorted treap. */
  lemma {:induction false} ErasedLeftmostSound<T(!new)>(less: (T, T) -> bool, t: Tree<T>, v: T, n: int,
                                     a: (Tree<T>, Tree<T>), b: (Tree<T>, Tree<T>), c: (Tree<T>, Tree<T>))
    requires StrictWeakOrder(less) && Nodes.Valid(t) && Sorted(less, Elems(t))
    requires a == Split(t, CondLess(less, v), 0) && b == Split(a.1, CondLeq(less, v), 0)
    requires c == Split(b.0, CondCutN(if n < 0 then SafeSize(b.0) else n), 0)
    ensures var s := Elems(t);
            var r := Nodes.Merge(a.0, Nodes.Merge(c.1, b.1));
            var lo := Count(s, Below(less, v));
            var equal := Count(s, Equivalent(less, v));
            var e := SafeSize(c.0);
            && e == (if n < 0 || n > equal then equal else n)
            && CutOut(Elems(r), s, lo, e)
            && Nodes.Valid(r) && Sorted(less, Elems(r))
  {
    EqualRunCut(less, t, v, if n < 0 then SafeSize(b.0) else n, a, b, c);
    ExciseFront(less, Elems(t), Elems(a.0), Elems(c.0), Elems(c.1), Elems(b.1),
                Count(Elems(t), Below(less, v)), SafeSize(c.0));
  }

  /** EraseRightmost removes the last `min(n, #equal)` values of the equal
      run (all of it for a negative `n`) and keeps a valid sorted treap. */
  lemma {:induction false} ErasedRightmostSound<T(!new)>(less: (T, T) -> bool, t: Tree<T>, v: T, n: int,
                                      a: (Tree<T>, Tree<T>), b: (Tree<T>, Tree<T>), c: (Tree<T>, Tree<T>))
    requires StrictWeakOrder(less) && Nodes.Valid(t) && Sorted(less, Elems(t))
    requires a == Split(t, CondLess(less, v), 0) && b == Split(a.1, CondLeq(less, v), 0)
    requires c == Split(b.0, CondCutN(SafeSize(b.0) - (if n < 0 then SafeSize(b.0) else n)), 0)
    ensures var s := Elems(t);
            var r := Nodes.Merge(a.0, Nodes.Merge(c.0, b.1));
            var equal := Count(s, Equivalent(less, v));
            var e := SafeSize(c.1);
            var hi := Count(s, AtMost(less, v));
            && e == (if n < 0 || n > equal then equal else n)
            && CutOutBefore(Elems(r), s, hi, e)
            && Nodes.Valid(r) && Sorted(less, Elems(r))
  {
    EqualRunCut(less, t, v, SafeSize(b.0) - (if n < 0 then SafeSize(b.0) else n), a, b, c);
    ExciseBack(less, Elems(t), Elems(a.0), Elems(c.0), Elems(c.1), Elems(b.1),
               Count(Elems(t), AtMost(less, v)), SafeSize(c.1));
  }

  /** EraseRange on a well-formed range removes exactly the values in it,
      reports how many, and keeps a valid sorted treap. */
  lemma {:induction false} ErasedRangeSound<T(!new)>(less: (T, T) -> bool, t: Tree<T>, start: T, inclusiveStart: bool, end: T, inclusiveEnd: bool,
                                  a: (Tree<T>, Tree<T>), b: (Tree<T>, Tree<T>))
    requires StrictWeakOrder(less) && Nodes.Valid(t) && Sorted(less, Elems(t))
    requires RangeOk(less, start, inclusiveStart, end, inclusiveEnd)
    requires a == Split(t, StartCond(less, start, inclusiveStart), 0)
    requires b == Split(a.1, EndCond(less, end, inclusiveEnd), 0)
    ensures var r := Nodes.Merge(a.0, b.1);
            var inRange := InRange(less, start, inclusiveStart, end, inclusiveEnd);
            && SafeSize(b.0) == Count(Elems(t), inRange)
            && Elems(r) == Remove(Elems(t), inRange)
            && Nodes.Valid(r) && Sorted(less, Elems(r))
  {
    RangePrefixes(less, Elems(t), start, inclusiveStart, end, inclusiveEnd);
    BeforeThrough(less, start, inclusiveStart, end, inclusiveEnd);
    InRangeBetween(less, start, inclusiveStart, end, inclusiveEnd);
    TwoCuts(t, StartCond(less, start, inclusiveStart), Before(less, start, inclusiveStart),
            EndCond(less, end, inclusiveEnd), Through(less, end, inclusiveEnd),
            InRange(less, start, inclusiveStart, end, inclusiveEnd), a, b);
    Excise(less, Elems(t), Elems(a.0), Elems(b.0), Elems(b.1));
  }

  /** EraseAt on an index within range removes `min(count, size - index)`
      consecutive values starting there, and keeps a valid sorted treap. */
  lemma {:induction false} ErasedAtSound<T(!new)>(less: (T, T) -> bool, t: Tree<T>, index: int, count: int,
                         a: (Tree<T>, Tree<T>), b: (Tree<T>, Tree<T>))
    requires Nodes.Valid(t) && Sorted(less, Elems(t))
    requires 0 <= index < |Elems(t)| && 0 <= count
    requires a == Split(t, CondCutN(index), 0) && b == Split(a.1, CondCutN(count), 0)
    ensures var s := Elems(t);
            var r := Nodes.Merge(a.0, b.1);
            var e := SafeSize(b.0);
            && e == (if count < |s| - index then count else |s| - index)
            && CutOut(Elems(r), s, index, e)
            && Nodes.Valid(r) && Sorted(less, Elems(r))
  {
    var s := Elems(t);
    assert s == Elems(a.0) + (Elems(b.0) + Elems(b.1)) && |Elems(a.0)| == index
           && SafeSize(b.0) == |Elems(b.0)| == (if count < |s| - index then count else |s| - index)
           && Nodes.Valid(a.0) && Nodes.Valid(b.1) by {
      CutNParts(t, index, a);
      CutNParts(a.1, count, b);
    }
    Excise(less, s, Elems(a.0), Elems(b.0), Elems(b.1));
  }

  /** At, for an index in range: the lookup by `condCutN(i)` finds the node
      at position `i`. */
  lemma {:induction false} LookupAtIndex<T(!new)>(t: Tree<T>, i: int)
    requires Nodes.Valid(t) && 0 <= i < |Elems(t)|
    ensures LookupLeftmostUnmatch(t, CondCutN(i), 0) == (Some(PathAt(t, i)), i)
  {
    CutIsSplit(t, CondCutN(i), 0);
    CutNParts(t, i, Split(t, CondCutN(i), 0));
    LeftmostUnmatchAtCut(t, CondCutN(i), 0);
  }

  /** FindLowerBound: the lookup by condLess(v) finds the first value not
      below `v`, at the count of the values below it. */
  lemma {:induction false} LowerBoundSound<T(!new)>(less: (T, T) -> bool, t: Tree<T>, v: T)
    requires StrictWeakOrder(less) && Nodes.Valid(t) && Sorted(less, Elems(t))
    ensures var s, k := Elems(t), Count(Elems(t), Below(less, v));
            && LookupLeftmostUnmatch(t, CondLess(less, v), 0)
                 == (if k == |s| then (None, 0) else (Some(PathAt(t, k)), k))
            && forall i :: 0 <= i < |s| ==> (less(s[i], v) <==> i < k)
  {
    BelowPrefix(less, Elems(t), v);
    LookupsAtCount(t, CondLess(less, v), Below(less, v));
    PrefixCount(Elems(t), Below(less, v));
  }

  /** FindUpperBound: the lookup by condLeq(v) finds the last value not
      above `v`, just before the count of the values not above it. */
  lemma {:induction false} UpperBoundSound<T(!new)>(less: (T, T) -> bool, t: Tree<T>, v: T)
    requires StrictWeakOrder(less) && Nodes.Valid(t) && Sorted(less, Elems(t))
    ensures var s, k := Elems(t), Count(Elems(t), AtMost(less, v));
            && LookupRightmostMatch(t, CondLeq(less, v), 0)
                 == (if k == 0 then (None, 0) else (Some(PathAt(t, k - 1)), k - 1))
            && forall i :: 0 <= i < |s| ==> (!less(v, s[i]) <==> i < k)
  {
    AtMostPrefix(less, Elems(t), v);
    LookupsAtCount(t, CondLeq(less, v), AtMost(less, v));
    PrefixCount(Elems(t), AtMost(less, v));
  }

  /** CountRange on a well-formed range: the lookup of the start finds the
      first value not left of the range, the lookup of the end the last
      value that does not pass it, and the values in the range are exactly
      those in between. */
  lemma {:induction false} CountRangeSound<T(!new)>(less: (T, T) -> bool, t: Tree<T>, start: T, inclusiveStart: bool, end: T, inclusiveEnd: bool)
    requires StrictWeakOrder(less) && Nodes.Valid(t) && Sorted(less, Elems(t))
    requires RangeOk(less, start, inclusiveStart, end, inclusiveEnd)
    ensures var s := Elems(t);
            var k1 := Count(s, Before(less, start, inclusiveStart));
            var k2 := Count(s, Through(less, end, inclusiveEnd));
            && LookupLeftmostUnmatch(t, StartCond(less, start, inclusiveStart), 0)
                 == (if k1 == |s| then (None, 0) else (Some(PathAt(t, k1)), k1))
            && LookupRightmostMatch(t, EndCond(less, end, inclusiveEnd), 0)
                 == (if k2 == 0 then (None, 0) else (Some(PathAt(t, k2 - 1)), k2 - 1))
            && k1 <= k2
            && Count(s, InRange(less, start, inclusiveStart, end, inclusiveEnd)) == k2 - k1
  {
    var s := Elems(t);
    var before, through := Before(less, start, inclusiveStart), Through(less, end, inclusiveEnd);
    var startCond, endCond := StartCond(less, start, inclusiveStart), EndCond(less, end, inclusiveEnd);
    RangePrefixes(less, s, start, inclusiveStart, end, inclusiveEnd);
    assert Agrees(startCond, before) && Prefix(s, before);
    LookupsAtCount(t, startCond, before);
    assert Agrees(endCond, through) && Prefix(s, through);
    LookupsAtCount(t, endCond, through);
    BeforeThrough(less, start, inclusiveStart, end, inclusiveEnd);
    InRangeBetween(less, start, inclusiveStart, end, inclusiveEnd);
    CountBetween(s, before, through, InRange(less, start, inclusiveStart, end, inclusiveEnd));
  }

  /** Count(v) asks CountRange for the range from `v` to `v`, both ends
      inclusive: a well-formed range whose values are those equivalent to
      `v`. */
  lemma {:induction false} PointRange<T(!new)>(less: (T, T) -> bool, s: seq<T>, v: T)
    requires StrictWeakOrder(less)
    ensures RangeOk(less, v, true, v, true)
    ensures Count(s, InRange(less, v, true, v, true)) == Count(s, Equivalent(less, v))
  {
    CountSame(s, InRange(less, v, true, v, true), Equivalent(less, v));
  }

  /** A split of a valid sorted tree leaves two valid sorted trees, whatever
      the condition. */
  lemma {:induction false} SplitSound<T(!new)>(less: (T, T) -> bool, t: Tree<T>, cond: (T, int) -> bool, parts: (Tree<T>, Tree<T>))
    requires Nodes.Valid(t) && Sorted(less, Elems(t)) && parts == Split(t, cond, 0)
    ensures Nodes.Valid(parts.0) && Nodes.Valid(parts.1)
    ensures Sorted(less, Elems(parts.0)) && Sorted(less, Elems(parts.1))
  {
    SplitValid(t, cond, 0);
    SortedParts(less, Elems(t), Elems(parts.0), Elems(parts.1));
  }

  /** SplitBefore cuts after the values below `v`; SplitAfter after the
      values not above it. */
  lemma {:induction false} ValueCutSound<T(!new)>(less: (T, T) -> bool, t: Tree<T>, v: T)
    requires StrictWeakOrder(less) && Nodes.Valid(t) && Sorted(less, Elems(t))
    ensures |Elems(Split(t, CondLess(less, v), 0).0)| == Count(Elems(t), Below(less, v))
    ensures |Elems(Split(t, CondLeq(less, v), 0).0)| == Count(Elems(t), AtMost(less, v))
  {
    BelowPrefix(less, Elems(t), v);
    AtMostPrefix(less, Elems(t), v);
    OneCut(t, CondLess(less, v), Below(less, v), Split(t, CondLess(less, v), 0));
    OneCut(t, CondLeq(less, v), AtMost(less, v), Split(t, CondLeq(less, v), 0));
  }

  /** PopLeftmost: cutting one value off a non-empty tree leaves its first
      value in a single node and the rest in a valid sorted tree. */
  lemma {:induction false} PoppedLeftmostSound<T(!new)>(less: (T, T) -> bool, t: Tree<T>, parts: (Tree<T>, Tree<T>))
    requires Nodes.Valid(t) && Sorted(less, Elems(t)) && t.Node?
    requires parts == Split(t, CondCutN(1), 0)
    ensures |Elems(t)| > 0 && parts.0.Node? && parts.0.value == Elems(t)[0]
    ensures Elems(parts.1) == Elems(t)[1..]
    ensures Nodes.Valid(parts.1) && Sorted(less, Elems(parts.1))
  {
    CutNParts(t, 1, parts);
    SingleValue(parts.0);
    SplitSound(less, t, CondCutN(1), parts);
    assert Elems(t) == Elems(parts.0) + Elems(parts.1);
  }

  /** PopRightmost: cutting all but one value off a non-empty tree leaves
      its last value in a single node and the rest in a valid sorted tree. */
  lemma {:induction false} PoppedRightmostSound<T(!new)>(less: (T, T) -> bool, t: Tree<T>, parts: (Tree<T>, Tree<T>))
    requires Nodes.Valid(t) && Sorted(less, Elems(t)) && t.Node?
    requires parts == Split(t, CondCutN(SafeSize(t) - 1), 0)
    ensures |Elems(t)| > 0 && parts.1.Node? && parts.1.value == Elems(t)[|Elems(t)| - 1]
    ensures Elems(parts.0) == Elems(t)[..|Elems(t)| - 1]
    ensures Nodes.Valid(parts.0) && Sorted(less, Elems(parts.0))
  {
    CutNParts(t, SafeSize(t) - 1, parts);
    assert |Elems(parts.1)| == 1;
    SingleValue(parts.1);
    SplitSound(less, t, CondCutN(SafeSize(t) - 1), parts);
    assert Elems(t) == Elems(parts.0) + Elems(parts.1);
  }

  /** The panic messages of EraseRange, CountRange and EraseAt. */
  const EndBelowStart := "provided endValue must not be lower than startValue"
  const OpenPointRange := "when startValue == endValue, both start and end must be inclusive"
  const NegativeCount := "count must not be negative"

  /** A negative index counts from the end, as in EraseAt and At.  At tests
      the raw index against both ends; EraseAt tests the normalised one: the
      two tests agree. */
  function FromEnd(index: int, size: int): (i: int)
    ensures -size <= index < size <==> 0 <= i < size
  {
    if index < 0 then size + index else index
  }

  function Min(a: int, b: int): int
  {
    if a < b then a else b
  }

  class Treap<T(!new)> {
    /** lessFn. */
    const less: (T, T) -> bool
    var root: Tree<T>

    /** The treap invariant: a strict weak order, a valid node tree, and an
        in-order sequence sorted by the comparator. */
    ghost predicate Valid()
      reads this
    {
      StrictWeakOrder(less) && Nodes.Valid(root) && Sorted(less, Elems(root))
    }

    /** The stored values in order. */
    ghost function Contents(): seq<T>
      reads this
    {
      Elems(root)
    }

    /** NewTreapWithRand: `sorted` is what `sort.Slice` makes of `values`,
        and `priorities[i]` is the i-th draw of `randFn`.  The values are
        merged in one at a time on the right. */
    constructor (less: (T, T) -> bool, values: seq<T>, sorted: seq<T>, priorities: seq<int>)
      requires StrictWeakOrder(less)
      requires Sorted(less, sorted) && multiset(sorted) == multiset(values)
      requires |priorities| == |values|
      ensures this.less == less
      ensures Valid() && Contents() == sorted
    {
      assert |sorted| == |multiset(sorted)| == |multiset(values)| == |values|;
      var r: Tree<T> := Nil;
      for i := 0 to |sorted|
        invariant Nodes.Valid(r) && Elems(r) == sorted[..i]
      {
        r := Nodes.Merge(r, NewNode(sorted[i], priorities[i]));
        assert sorted[..i + 1] == sorted[..i] + [sorted[i]];
      }
      assert sorted[..|sorted|] == sorted;
      this.less := less;
      root := r;
    }

    /** The struct literal that `split` and `Merge` build. */
    constructor Of(less: (T, T) -> bool, root: Tree<T>)
      ensures this.less == less && this.root == root
    {
      this.less := less;
      this.root := root;
    }

    /** InsertLeft: the new value goes before every equal one, and its index
        is the number of smaller values. */
    method InsertLeft(value: T, priority: int) returns (index: int)
      requires Valid()
      modifies this
      ensures Valid()
      ensures index == Orders.Count(old(Contents()), Below(less, value))
      ensures Contents() == old(Contents())[..index] + [value] + old(Contents())[index..]
    {
      var (lt, ge) := Split(root, CondLess(less, value), 0);
      InsertedLeftSound(less, root, value, priority, (lt, ge));
      index := SafeSize(lt);
      ge := Nodes.Merge(NewNode(value, priority), ge);
      root := Nodes.Merge(lt, ge);
    }

    /** InsertRight: the new value goes after every equal one, and its index
        is the number of values not above it. */
    method InsertRight(value: T, priority: int) returns (index: int)
      requires Valid()
      modifies this
      ensures Valid()
      ensures index == Orders.Count(old(Contents()), AtMost(less, value))
      ensures Contents() == old(Contents())[..index] + [value] + old(Contents())[index..]
    {
      var (le, gt) := Split(root, CondLeq(less, value), 0);
      InsertedRightSound(less, root, value, priority, (le, gt));
      index := SafeSize(le);
      le := Nodes.Merge(le, NewNode(value, priority));
      root := Nodes.Merge(le, gt);
    }

    /** EraseAll: every value equivalent to `value` goes, and the count of
        them is reported. */
    method EraseAll(value: T) returns (erasedCount: int)
      requires Valid()
      modifies this
      ensures Valid()
      ensures erasedCount == Orders.Count(old(Contents()), Equivalent(less, value))
      ensures Contents() == Remove(old(Contents()), Equivalent(less, value))
    {
      var (lt, ge) := Split(root, CondLess(less, value), 0);
      var (eq, gt) := Split(ge, CondLeq(less, value), 0);
      ErasedAllSound(less, root, value, (lt, ge), (eq, gt));
      root := Nodes.Merge(lt, gt);
      erasedCount := SafeSize(eq);
    }

    /** EraseLeftmost: the first `n` values equivalent to `value` go (all of
        them when `n` is negative or too large). */
    method EraseLeftmost(value: T, n: int) returns (erasedCount: int)
      requires Valid()
      modifies this
      ensures Valid()
      ensures var equal := Orders.Count(old(Contents()), Equivalent(less, value));
              erasedCount == if n < 0 || n > equal then equal else n
      ensures CutOut(Contents(), old(Contents()), Orders.Count(old(Contents()), Below(less, value)), erasedCount)
    {
      var (lt, ge) := Split(root, CondLess(less, value), 0);
      var (eq, gt) := Split(ge, CondLeq(less, value), 0);
      var m := n;
      if m < 0 {
        m := SafeSize(eq);
      }
      var (erased, remainder) := Split(eq, CondCutN(m), 0);
      ErasedLeftmostSound(less, root, value, n, (lt, ge), (eq, gt), (erased, remainder));
      root := Nodes.Merge(lt, Nodes.Merge(remainder, gt));
      erasedCount := SafeSize(erased);
    }

    /** EraseRightmost: the last `n` values equivalent to `value` go (all of
        them when `n` is negative or too large). */
    method EraseRightmost(value: T, n: int) returns (erasedCount: int)
      requires Valid()
      modifies this
      ensures Valid()
      ensures var equal := Orders.Count(old(Contents()), Equivalent(less, value));
              erasedCount == if n < 0 || n > equal then equal else n
      ensures CutOutBefore(Contents(), old(Contents()), Orders.Count(old(Contents()), AtMost(less, value)), erasedCount)
    {
      var (lt, ge) := Split(root, CondLess(less, value), 0);
      var (eq, gt) := Split(ge, CondLeq(less, value), 0);
      var m := n;
      if m < 0 {
        m := SafeSize(eq);
      }
      var remainderN := SafeSize(eq) - m;
      var (remainder, erased) := Split(eq, CondCutN(remainderN), 0);
      ErasedRightmostSound(less, root, value, n, (lt, ge), (eq, gt), (remainder, erased));
      root := Nodes.Merge(lt, Nodes.Merge(remainder, gt));
      erasedCount := SafeSize(erased);
    }

    /** EraseRange: a malformed range panics and changes nothing; otherwise
        the values in the range go and their count is reported. */
    method EraseRange(startValue: T, inclusiveStart: bool, endValue: T, inclusiveEnd: bool) returns (r: Outcome<int>)
      requires Valid()
      modifies this
      ensures Valid()
      ensures less(endValue, startValue) ==>
                r == Panic(EndBelowStart) && Contents() == old(Contents())
      ensures !less(endValue, startValue) && !RangeOk(less, startValue, inclusiveStart, endValue, inclusiveEnd) ==>
                r == Panic(OpenPointRange)
                && Contents() == old(Contents())
      ensures RangeOk(less, startValue, inclusiveStart, endValue, inclusiveEnd) ==>
                var inRange := InRange(less, startValue, inclusiveStart, endValue, inclusiveEnd);
                && r == Done(Orders.Count(old(Contents()), inRange))
                && Contents() == Remove(old(Contents()), inRange)
    {
      if less(endValue, startValue) {
        return Panic(EndBelowStart);
      }
      if !less(startValue, endValue) && (!inclusiveStart || !inclusiveEnd) {
        return Panic(OpenPointRange);
      }
      var a: (Tree<T>, Tree<T>);
      if inclusiveStart {
        a := Split(root, CondLess(less, startValue), 0);
      } else {
        a := Split(root, CondLeq(less, startValue), 0);
      }
      var b: (Tree<T>, Tree<T>);
      if inclusiveEnd {
        b := Split(a.1, CondLeq(less, endValue), 0);
      } else {
        b := Split(a.1, CondLess(less, endValue), 0);
      }
      ErasedRangeSound(less, root, startValue, inclusiveStart, endValue, inclusiveEnd, a, b);
      root := Nodes.Merge(a.0, b.1);
      r := Done(SafeSize(b.0));
    }

    /** EraseAt: a negative count panics; an index out of range (after a
        negative one is counted from the end) erases nothing; otherwise up to
        `count` values from the index on go. */
    method EraseAt(index: int, count: int) returns (r: Outcome<int>)
      requires Valid()
      modifies this
      ensures Valid()
      ensures count < 0 ==> r == Panic(NegativeCount) && Contents() == old(Contents())
      ensures count >= 0 && !(0 <= FromEnd(index, |old(Contents())|) < |old(Contents())|) ==>
                r == Done(0) && Contents() == old(Contents())
      ensures count >= 0 && 0 <= FromEnd(index, |old(Contents())|) < |old(Contents())| ==>
                r.Done? && CutOut(Contents(), old(Contents()), FromEnd(index, |old(Contents())|), r.value)
      ensures count >= 0 && 0 <= FromEnd(index, |old(Contents())|) < |old(Contents())| ==>
                r == Done(Min(count, |old(Contents())| - FromEnd(index, |old(Contents())|)))
    {
      if count < 0 {
        return Panic(NegativeCount);
      }
      var sz := SafeSize(root);
      if sz == 0 {
        return Done(0);
      }
      var i := FromEnd(index, sz);
      if i < 0 || i >= sz {
        return Done(0);
      }
      var erased := EraseSpan(i, count);
      r := Done(erased);
    }

    /** The erasing half of EraseAt: from a valid index, up to `count`
        values go. */
    method EraseSpan(index: int, count: int) returns (erasedCount: int)
      requires Valid() && 0 <= index < |Contents()| && 0 <= count
      modifies this
      ensures Valid()
      ensures erasedCount == Min(count, |old(Contents())| - index)
      ensures CutOut(Contents(), old(Contents()), index, erasedCount)
    {
      var (leftRemainder, rightRemainder) := Split(root, CondCutN(index), 0);
      var (toErase, rest) := Split(rightRemainder, CondCutN(count), 0);
      ErasedAtSound(less, root, index, count, (leftRemainder, rightRemainder), (toErase, rest));
      root := Nodes.Merge(leftRemainder, rest);
      erasedCount := SafeSize(toErase);
    }

    /** FindLowerBound: the first value not below `value` and its index, or
        (nil, 0) when there is none. */
    method FindLowerBound(value: T) returns (node: Option<Path>, index: int)
      requires Valid()
      ensures var s, k := Contents(), Orders.Count(Contents(), Below(less, value));
              (node, index) == if k == |s| then (None, 0) else (Some(PathAt(root, k)), k)
      ensures forall i :: 0 <= i < index ==> less(Contents()[i], value)
      ensures node.Some? ==> !less(Contents()[index], value)
      ensures node.None? ==> forall i :: 0 <= i < |Contents()| ==> less(Contents()[i], value)
    {
      LowerBoundSound(less, root, value);
      var found := LookupLeftmostUnmatch(root, CondLess(less, value), 0);
      node, index := found.0, found.1;
    }

    /** FindUpperBound: the last value not above `value` and its index, or
        (nil, 0) when there is none. */
    method FindUpperBound(value: T) returns (node: Option<Path>, index: int)
      requires Valid()
      ensures var k := Orders.Count(Contents(), AtMost(less, value));
              (node, index) == if k == 0 then (None, 0) else (Some(PathAt(root, k - 1)), k - 1)
      ensures node.Some? ==> !less(value, Contents()[index])
      ensures node.Some? ==> forall i :: index < i < |Contents()| ==> less(value, Contents()[i])
      ensures node.None? ==> forall i :: 0 <= i < |Contents()| ==> less(value, Contents()[i])
    {
      UpperBoundSound(less, root, value);
      var found := LookupRightmostMatch(root, CondLeq(less, value), 0);
      node, index := found.0, found.1;
    }

    /** At: the node at `index` (negative indices count from the end), or
        nil when out of range. */
    method At(index: int) returns (node: Option<Path>)
      requires Valid()
      ensures var i := FromEnd(index, |Contents()|);
              node == if 0 <= i < |Contents()| then Some(PathAt(root, i)) else None
    {
      var sz := SafeSize(root);
      if sz == 0 || index < -sz || index >= sz {
        return None;
      }
      var i := index;
      if i < 0 {
        i := sz + i;
      }
      LookupAtIndex(root, i);
      node := LookupLeftmostUnmatch(root, CondCutN(i), 0).0;
    }

    /** Size: the number of stored values, read from the cached size. */
    function Size(): (n: int)
      reads this
      requires Valid()
      ensures n == |Contents()|
    {
      SafeSize(root)
    }

    /** Empty: whether no value is stored. */
    function Empty(): (b: bool)
      reads this
      requires Valid()
      ensures b <==> Contents() == []
    {
      SafeSize(root) == 0
    }

    /** Clear: drop every value. */
    method Clear()
      requires Valid()
      modifies this
      ensures Valid() && Contents() == []
    {
      root := Nil;
    }

    /** Leftmost: the node of the smallest value, or nil. */
    method Leftmost() returns (node: Option<Path>)
      ensures node == if Contents() == [] then None else Some(PathAt(root, 0))
    {
      node := Nodes.Leftmost(root, if root.Nil? then None else Some([]));
    }

    /** Rightmost: the node of the largest value, or nil. */
    method Rightmost() returns (node: Option<Path>)
      ensures node == if Contents() == [] then None else Some(PathAt(root, |Contents()| - 1))
    {
      node := Nodes.Rightmost(root, if root.Nil? then None else Some([]));
    }

    /** PopLeftmost: remove and return the smallest value; on an empty treap
        report failure with Go's zero value, passed here as `zero`. */
    method PopLeftmost(zero: T) returns (value: T, ok: bool)
      requires Valid()
      modifies this
      ensures Valid()
      ensures old(Contents()) == [] ==> !ok && value == zero && Contents() == []
      ensures old(Contents()) != [] ==>
                ok && value == old(Contents())[0] && Contents() == old(Contents())[1..]
    {
      if root.Nil? {
        return zero, false;
      }
      var (leftmost, rest) := Split(root, CondCutN(1), 0);
      PoppedLeftmostSound(less, root, (leftmost, rest));
      root := rest;
      return leftmost.value, true;
    }

    /** PopRightmost: remove and return the largest value; on an empty
        treap report failure with Go's zero value, passed here as `zero`. */
    method PopRightmost(zero: T) returns (value: T, ok: bool)
      requires Valid()
      modifies this
      ensures Valid()
      ensures old(Contents()) == [] ==> !ok && value == zero && Contents() == []
      ensures old(Contents()) != [] ==>
                var last := |old(Contents())| - 1;
                ok && value == old(Contents())[last] && Contents() == old(Contents())[..last]
    {
      if root.Nil? {
        return zero, false;
      }
      var cutN := SafeSize(root) - 1;
      var (rest, rightmost) := Split(root, CondCutN(cutN), 0);
      PoppedRightmostSound(less, root, (rest, rightmost));
      root := rest;
      return rightmost.value, true;
    }

    /** split: hand the two parts of a split to two new treaps with the same
        comparator, and empty this one. */
    method SplitBy(leftCond: (T, int) -> bool) returns (left: Treap<T>, right: Treap<T>)
      requires Valid()
      modifies this
      ensures fresh(left) && fresh(right)
      ensures left.less == less && right.less == less
      ensures left.root == Split(old(root), leftCond, 0).0 && right.root == Split(old(root), leftCond, 0).1
      ensures left.Valid() && right.Valid()
      ensures left.Contents() + right.Contents() == old(Contents())
      ensures root == Nil && Valid()
    {
      var (lt, ge) := Split(root, leftCond, 0);
      SplitSound(less, root, leftCond, (lt, ge));
      left := new Treap.Of(less, lt);
      right := new Treap.Of(less, ge);
      root := Nil;
    }

    /** SplitBefore: the values below `value` go left, the rest right. */
    method SplitBefore(value: T) returns (left: Treap<T>, right: Treap<T>)
      requires Valid()
      modifies this
      ensures fresh(left) && fresh(right) && left.less == less && right.less == less
      ensures left.Valid() && right.Valid() && Valid() && Contents() == []
      ensures var k := Orders.Count(old(Contents()), Below(less, value));
              left.Contents() == old(Contents())[..k] && right.Contents() == old(Contents())[k..]
    {
      ValueCutSound(less, root, value);
      left, right := SplitBy(CondLess(less, value));
    }

    /** SplitAfter: the values not above `value` go left, the rest right. */
    method SplitAfter(value: T) returns (left: Treap<T>, right: Treap<T>)
      requires Valid()
      modifies this
      ensures fresh(left) && fresh(right) && left.less == less && right.less == less
      ensures left.Valid() && right.Valid() && Valid() && Contents() == []
      ensures var k := Orders.Count(old(Contents()), AtMost(less, value));
              left.Contents() == old(Contents())[..k] && right.Contents() == old(Contents())[k..]
    {
      ValueCutSound(less, root, value);
      left, right := SplitBy(CondLeq(less, value));
    }

    /** Cut: the first `n` values go left (for a negative `n`, all but the
        last `-n`), the rest right. */
    method Cut(n: int) returns (left: Treap<T>, right: Treap<T>)
      requires Valid()
      modifies this
      ensures fresh(left) && fresh(right) && left.less == less && right.less == less
      ensures left.Valid() && right.Valid() && Valid() && Contents() == []
      ensures var s := old(Contents());
              var k := if n < 0 then (if |s| + n < 0 then 0 else |s| + n) else (if n > |s| then |s| else n);
              left.Contents() == s[..k] && right.Contents() == s[k..]
    {
      var m := n;
      if m < 0 {
        var sz := SafeSize(root);
        m := sz + m;
        if m < 0 {
          m := 0;
        }
      }
      CutNParts(root, m, Split(root, CondCutN(m), 0));
      left, right := SplitBy(CondCutN(m));
    }

    /** CountRange: a malformed range panics; otherwise the number of values
        in the range, found from the indices of its first and last values. */
    method CountRange(startValue: T, inclusiveStart: bool, endValue: T, inclusiveEnd: bool) returns (r: Outcome<int>)
      requires Valid()
      ensures less(endValue, startValue) ==> r == Panic(EndBelowStart)
      ensures !less(endValue, startValue) && !RangeOk(less, startValue, inclusiveStart, endValue, inclusiveEnd) ==>
                r == Panic(OpenPointRange)
      ensures RangeOk(less, startValue, inclusiveStart, endValue, inclusiveEnd) ==>
                r == Done(Orders.Count(Contents(), InRange(less, startValue, inclusiveStart, endValue, inclusiveEnd)))
    {
      if less(endValue, startValue) {
        return Panic(EndBelowStart);
      }
      if !less(startValue, endValue) && (!inclusiveStart || !inclusiveEnd) {
        return Panic(OpenPointRange);
      }
      CountRangeSound(less, root, startValue, inclusiveStart, endValue, inclusiveEnd);
      var start := LookupLeftmostUnmatch(root, StartCond(less, startValue, inclusiveStart), 0);
      if start.0.None? {
        return Done(0);
      }
      var end := LookupRightmostMatch(root, EndCond(less, endValue, inclusiveEnd), 0);
      if end.0.None? {
        return Done(0);
      }
      if end.1 < start.1 {
        return Done(0);
      }
      return Done(end.1 - start.1 + 1);
    }

    /** Count: the number of values equivalent to `value`. */
    method Count(value: T) returns (n: int)
      requires Valid()
      ensures n == Orders.Count(Contents(), Equivalent(less, value))
    {
      PointRange(less, Contents(), value);
      var r := CountRange(value, true, value, true);
      n := r.value;
    }
  }

  /** Merge: join two treaps, `left`'s values first, under `left`'s
      comparator; a nil side yields the other.  The result is a valid treap
      when both are, they share the comparator, and no value on the right is
      below one on the left. */
  method Merge<T(!new)>(left: Treap?<T>, right: Treap?<T>) returns (r: Treap?<T>)
    ensures left == null ==> r == right
    ensures left != null && right == null ==> r == left
    ensures left != null && right != null ==>
              && r != null && fresh(r) && r.less == left.less
              && r.Contents() == left.Contents() + right.Contents()
              && (left.Valid() && right.Valid() && right.less == left.less
                  && Ordered(left.less, left.Contents(), right.Contents())
                  ==> r.Valid())
  {
    if left == null {
      return right;
    }
    if right == null {
      return left;
    }
    r := new Treap.Of(left.less, Nodes.Merge(left.root, right.root));
    if left.Valid() && right.Valid() && right.less == left.less && Ordered(left.less, left.Contents(), right.Contents()) {
      SortedConcat(left.less, left.Contents(), right.Contents());
    }
  }

  /** cmp.Less on integers. */
  function IntLess(a: int, b: int): bool
  {
    a < b
  }

  /** NewAutoOrderTreap on integers: the natural order as comparator.
      `sorted` and `priorities` stand for `sort.Slice` and `rand.Int`, as in
      the constructor. */
  method NewAutoOrderTreap(values: seq<int>, sorted: seq<int>, priorities: seq<int>) returns (t: Treap<int>)
    requires Sorted(IntLess, sorted) && multiset(sorted) == multiset(values)
    requires |priorities| == |values|
    ensures fresh(t) && t.less == IntLess
    ensures t.Valid() && t.Contents() == sorted
  {
    assert StrictWeakOrder(IntLess);
    t := new Treap(IntLess, values, sorted, priorities);
  }

  /** EraseAt(-1, 1) on the values 1 and 5 erases the last value, 5, and
      reports one erased value. */
  method EraseLastExample() returns (r: Outcome<int>, t: Treap<int>)
    ensures t.Valid() && t.Contents() == [1]
    ensures r == Done(1)
  {
    t := NewAutoOrderTreap([1, 5], [1, 5], [0, 0]);
    r := t.EraseAt(-1, 1);
  }
}
