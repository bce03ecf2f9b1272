/** The ordering vocabulary of the treap: the comparator `lessFn` as a strict
    weak order, sortedness of the in-order sequence, and counting or removing
    the elements that satisfy a value predicate.

    The two quantified predicates over positions, `Sorted` and `Prefix`,
    fire only on explicit `SortedAt` and `PrefixAt` terms, so that proofs
    about trees, which mention many positions of many sequences, do not
    instantiate them at every pair of positions. */
module Orders {

  /** `less` is a strict weak order: irreflexive, transitive, and its
      incomparability is transitive too.  Go's `sort.Slice` and every search
      of the container rely on `lessFn` having this shape. */
  ghost predicate StrictWeakOrder<T(!new)>(less: (T, T) -> bool)
  {
    && (forall a :: !less(a, a))
    && (forall a, b, c :: less(a, b) && less(b, c) ==> less(a, c))
    && (forall a, b, c :: !less(a, b) && !less(b, c) ==> !less(a, c))
  }

  /** No element is strictly smaller than one before it. */
  ghost predicate Sorted<T>(less: (T, T) -> bool, s: seq<T>)
  {
    forall i, j :: SortedAt(less, s, i, j)
  }

  /** The element at `j` is not smaller than the earlier one at `i`. */
  ghost predicate SortedAt<T>(less: (T, T) -> bool, s: seq<T>, i: int, j: int)
  {
    0 <= i < j < |s| ==> !less(s[j], s[i])
  }

  /** The number of elements of `s` that satisfy `p`. */
  function Count<T>(s: seq<T>, p: T -> bool): (n: nat)
    ensures n <= |s|
  {
    if |s| == 0 then 0 else (if p(s[0]) then 1 else 0) + Count(s[1..], p)
  }

  /** `s` without the elements that satisfy `p`, in their original order. */
  function Remove<T>(s: seq<T>, p: T -> bool): (r: seq<T>)
    ensures |r| == |s| - Count(s, p)
  {
    if |s| == 0 then [] else (if p(s[0]) then [] else [s[0]]) + Remove(s[1..], p)
  }

  /** The values strictly below `v`. */
  function Below<T>(less: (T, T) -> bool, v: T): T -> bool
  {
    x => less(x, v)
  }

  /** The values not above `v`. */
  function AtMost<T>(less: (T, T) -> bool, v: T): T -> bool
  {
    x => !less(v, x)
  }

  /** The values equivalent to `v`: neither below nor above it. */
  function Equivalent<T>(less: (T, T) -> bool, v: T): T -> bool
  {
    x => !less(x, v) && !less(v, x)
  }

  /** The values between `start` and `end`; each bound belongs to the range
      exactly when its flag says it is inclusive. */
  function InRange<T>(less: (T, T) -> bool, start: T, inclusiveStart: bool, end: T, inclusiveEnd: bool): T -> bool
  {
    x => (if inclusiveStart then !less(x, start) else less(start, x))
         && (if inclusiveEnd then !less(end, x) else less(x, end))
  }

  /** The values left of the range: below `start`, or not above it when
      the start is exclusive. */
  function Before<T>(less: (T, T) -> bool, start: T, inclusiveStart: bool): T -> bool
  {
    if inclusiveStart then Below(less, start) else AtMost(less, start)
  }

  /** The values that do not pass the end of the range: not above `end`, or
      below it when the end is exclusive. */
  function Through<T>(less: (T, T) -> bool, end: T, inclusiveEnd: bool): T -> bool
  {
    if inclusiveEnd then AtMost(less, end) else Below(less, end)
  }

  /** The range is well formed: `end` is not below `start`, and equal bounds
      are both inclusive. */
  predicate RangeOk<T>(less: (T, T) -> bool, start: T, inclusiveStart: bool, end: T, inclusiveEnd: bool)
  {
    !less(end, start) && (less(start, end) || (inclusiveStart && inclusiveEnd))
  }

  /** `p` holds on a prefix of `s`. */
  ghost predicate Prefix<T>(s: seq<T>, p: T -> bool)
  {
    forall i, j :: PrefixAt(s, p, i, j)
  }

  /** If `p` holds at position `j`, it holds at the earlier position `i`. */
  ghost predicate PrefixAt<T>(s: seq<T>, p: T -> bool, i: int, j: int)
  {
    0 <= i <= j < |s| && p(s[j]) ==> p(s[i])
  }

  // Counting and removing.

  /** When `p` holds throughout, everything is counted and removed. */
  lemma {:induction false} CountAll<T>(s: seq<T>, p: T -> bool)
    requires forall i :: 0 <= i < |s| ==> p(s[i])
    ensures Count(s, p) == |s| && Remove(s, p) == []
    decreases |s|
  {
    if |s| > 0 {
      assert forall i :: 0 <= i < |s| - 1 ==> s[1..][i] == s[i + 1];
      CountAll(s[1..], p);
    }
  }

  /** When `p` holds nowhere, nothing is counted or removed. */
  lemma {:induction false} CountNone<T>(s: seq<T>, p: T -> bool)
    requires forall i :: 0 <= i < |s| ==> !p(s[i])
    ensures Count(s, p) == 0 && Remove(s, p) == s
    decreases |s|
  {
    if |s| > 0 {
      assert forall i :: 0 <= i < |s| - 1 ==> s[1..][i] == s[i + 1];
      CountNone(s[1..], p);
      assert s == [s[0]] + s[1..];
    }
  }

  /** When `p` holds exactly on the block `[lo, hi)` of `s`, `Count` is the
      length of the block and `Remove` cuts the block out. */
  lemma {:induction false} Block<T>(s: seq<T>, p: T -> bool, lo: int, hi: int)
    requires 0 <= lo <= hi <= |s|
    requires forall i :: 0 <= i < |s| ==> (p(s[i]) <==> lo <= i < hi)
    ensures Count(s, p) == hi - lo
    ensures Remove(s, p) == s[..lo] + s[hi..]
    decreases |s|
  {
    if hi == 0 {
      CountNone(s, p);
    } else {
      var t := s[1..];
      assert forall i :: 0 <= i < |t| ==> t[i] == s[i + 1];
      if lo > 0 {
        assert !p(s[0]);
        Block(t, p, lo - 1, hi - 1);
        assert s[..lo] == [s[0]] + t[..lo - 1];
        assert s[hi..] == t[hi - 1..];
      } else {
        assert p(s[0]);
        Block(t, p, 0, hi - 1);
        assert s[hi..] == t[hi - 1..];
      }
    }
  }

  /** Where `p` holds on a prefix, the prefix is as long as the count. */
  lemma {:induction false} PrefixCount<T>(s: seq<T>, p: T -> bool)
    requires Prefix(s, p)
    ensures forall i :: 0 <= i < |s| ==> (p(s[i]) <==> i < Count(s, p))
    decreases |s|
  {
    if |s| > 0 {
      var t := s[1..];
      assert forall i :: 0 <= i < |t| ==> t[i] == s[i + 1];
      if p(s[0]) {
        assert Prefix(t, p) by {
          forall i, j ensures PrefixAt(t, p, i, j) {
            assert PrefixAt(s, p, i + 1, j + 1);
          }
        }
        PrefixCount(t, p);
      } else {
        forall i | 0 <= i < |s| ensures !p(s[i]) {
          assert PrefixAt(s, p, 0, i);
        }
        CountNone(s, p);
      }
    }
  }

  /** What follows a prefix of positions keeps a prefix predicate a prefix. */
  lemma PrefixRight<T>(a: seq<T>, r: seq<T>, p: T -> bool)
    requires Prefix(a + r, p)
    ensures Prefix(r, p)
  {
    forall i, j ensures PrefixAt(r, p, i, j) {
      if 0 <= i <= j < |r| {
        assert (a + r)[|a| + i] == r[i] && (a + r)[|a| + j] == r[j];
        assert PrefixAt(a + r, p, |a| + i, |a| + j);
      }
    }
  }

  /** Two cuts at nested prefixes.  `s` is `a + (b + c)`, where `a` holds
      the elements satisfying `p1` and `b` those of the rest satisfying `p2`.
      Then `a + b` holds the elements of `s` satisfying `p2`; and `q`, which
      holds where `p1` fails and `p2` holds, holds exactly on `b`, so that
      removing it leaves `a + c`. */
  lemma NestedCuts<T(!new)>(s: seq<T>, a: seq<T>, b: seq<T>, c: seq<T>, p1: T -> bool, p2: T -> bool, q: T -> bool)
    requires s == a + (b + c)
    requires Prefix(s, p1) && Prefix(s, p2) && forall x :: p1(x) ==> p2(x)
    requires |a| == Count(s, p1) && |b| == Count(b + c, p2)
    requires forall x :: q(x) == (!p1(x) && p2(x))
    ensures |a| + |b| == Count(s, p2)
    ensures |b| == Count(s, q)
    ensures Remove(s, q) == a + c
  {
    PrefixCount(s, p1);
    PrefixRight(a, b + c, p2);
    PrefixCount(b + c, p2);
    forall i | 0 <= i < |s|
      ensures (p2(s[i]) <==> i < |a| + |b|) && (q(s[i]) <==> |a| <= i < |a| + |b|)
    {
      if |a| <= i {
        assert s[i] == (b + c)[i - |a|];
      }
    }
    Block(s, p2, 0, |a| + |b|);
    Block(s, q, |a|, |a| + |b|);
    assert s[..|a|] == a;
    assert s[|a| + |b|..] == c;
  }

  /** Predicates that agree on every value count alike. */
  lemma {:induction false} CountSame<T(!new)>(s: seq<T>, p: T -> bool, q: T -> bool)
    requires forall x :: p(x) == q(x)
    ensures Count(s, p) == Count(s, q)
    decreases |s|
  {
    if |s| > 0 {
      CountSame(s[1..], p, q);
    }
  }

  /** Two nested prefix predicates: the elements where the outer one holds
      and the inner one fails are as many as the difference of the counts. */
  lemma {:induction false} CountBetween<T(!new)>(s: seq<T>, p1: T -> bool, p2: T -> bool, q: T -> bool)
    requires Prefix(s, p1) && Prefix(s, p2) && forall x :: p1(x) ==> p2(x)
    requires forall x :: q(x) == (!p1(x) && p2(x))
    ensures Count(s, p1) <= Count(s, p2)
    ensures Count(s, q) == Count(s, p2) - Count(s, p1)
  {
    PrefixCount(s, p1);
    PrefixCount(s, p2);
    var k1, k2 := Count(s, p1), Count(s, p2);
    if k1 > 0 {
      assert p1(s[k1 - 1]);
    }
    forall i | 0 <= i < |s| ensures q(s[i]) <==> k1 <= i < k2 {
    }
    Block(s, q, k1, k2);
  }

  // Sorted sequences.

  /** On a sorted sequence the values below `v` come first. */
  lemma BelowPrefix<T(!new)>(less: (T, T) -> bool, s: seq<T>, v: T)
    requires StrictWeakOrder(less) && Sorted(less, s)
    ensures Prefix(s, Below(less, v))
  {
    forall i, j ensures PrefixAt(s, Below(less, v), i, j) {
      assert SortedAt(less, s, i, j);
    }
  }

  /** On a sorted sequence the values not above `v` come first. */
  lemma AtMostPrefix<T(!new)>(less: (T, T) -> bool, s: seq<T>, v: T)
    requires StrictWeakOrder(less) && Sorted(less, s)
    ensures Prefix(s, AtMost(less, v))
  {
    forall i, j ensures PrefixAt(s, AtMost(less, v), i, j) {
      assert SortedAt(less, s, i, j);
    }
  }

  /** On a sorted sequence the values left of a range come first, and so do
      the values that do not pass its end. */
  lemma RangePrefixes<T(!new)>(less: (T, T) -> bool, s: seq<T>, start: T, inclusiveStart: bool, end: T, inclusiveEnd: bool)
    requires StrictWeakOrder(less) && Sorted(less, s)
    ensures Prefix(s, Before(less, start, inclusiveStart))
    ensures Prefix(s, Through(less, end, inclusiveEnd))
  {
    if inclusiveStart { BelowPrefix(less, s, start); } else { AtMostPrefix(less, s, start); }
    if inclusiveEnd { AtMostPrefix(less, s, end); } else { BelowPrefix(less, s, end); }
  }

  /** A value below `v` is not above it. */
  lemma BelowAtMost<T(!new)>(less: (T, T) -> bool, v: T)
    requires StrictWeakOrder(less)
    ensures forall x :: Below(less, v)(x) ==> AtMost(less, v)(x)
  {
  }

  /** In a well-formed range, a value left of the range does not pass its
      end. */
  lemma RangeNested<T(!new)>(less: (T, T) -> bool, start: T, inclusiveStart: bool, end: T, inclusiveEnd: bool, x: T)
    requires StrictWeakOrder(less) && RangeOk(less, start, inclusiveStart, end, inclusiveEnd)
    requires Before(less, start, inclusiveStart)(x)
    ensures Through(less, end, inclusiveEnd)(x)
  {
  }

  /** In a well-formed range, no value left of the range passes its end. */
  lemma BeforeThrough<T(!new)>(less: (T, T) -> bool, start: T, inclusiveStart: bool, end: T, inclusiveEnd: bool)
    requires StrictWeakOrder(less) && RangeOk(less, start, inclusiveStart, end, inclusiveEnd)
    ensures forall x :: Before(less, start, inclusiveStart)(x) ==> Through(less, end, inclusiveEnd)(x)
  {
    forall x | Before(less, start, inclusiveStart)(x) ensures Through(less, end, inclusiveEnd)(x) {
      RangeNested(less, start, inclusiveStart, end, inclusiveEnd, x);
    }
  }

  /** A value is in the range exactly when it is not left of the range and
      does not pass its end. */
  lemma InRangeBetween<T(!new)>(less: (T, T) -> bool, start: T, inclusiveStart: bool, end: T, inclusiveEnd: bool)
    ensures forall x :: InRange(less, start, inclusiveStart, end, inclusiveEnd)(x)
                        == (!Before(less, start, inclusiveStart)(x) && Through(less, end, inclusiveEnd)(x))
  {
  }

  /** Both pieces of a sorted sequence are sorted. */
  lemma {:induction false} SortedParts<T>(less: (T, T) -> bool, s: seq<T>, a: seq<T>, b: seq<T>)
    requires s == a + b && Sorted(less, s)
    ensures Sorted(less, a) && Sorted(less, b)
  {
    forall i, j ensures SortedAt(less, a, i, j) {
      if 0 <= i < j < |a| {
        assert a[i] == s[i] && a[j] == s[j];
        assert SortedAt(less, s, i, j);
      }
    }
    forall i, j ensures SortedAt(less, b, i, j) {
      if 0 <= i < j < |b| {
        assert b[i] == s[|a| + i] && b[j] == s[|a| + j];
        assert SortedAt(less, s, |a| + i, |a| + j);
      }
    }
  }

  /** No value of `b` is below a value of `a`. */
  ghost predicate Ordered<T>(less: (T, T) -> bool, a: seq<T>, b: seq<T>)
  {
    forall i, j :: 0 <= i < |a| && 0 <= j < |b| ==> !less(b[j], a[i])
  }

  /** Two sorted sequences, the second not below the first, concatenate to a
      sorted sequence. */
  lemma {:induction false} SortedConcat<T>(less: (T, T) -> bool, a: seq<T>, b: seq<T>)
    requires Sorted(less, a) && Sorted(less, b) && Ordered(less, a, b)
    ensures Sorted(less, a + b)
  {
    var r := a + b;
    forall i, j ensures SortedAt(less, r, i, j) {
      if 0 <= i < j < |r| {
        if j < |a| {
          assert r[i] == a[i] && r[j] == a[j];
          assert SortedAt(less, a, i, j);
        } else if i < |a| {
          assert r[i] == a[i] && r[j] == b[j - |a|];
        } else {
          assert r[i] == b[i - |a|] && r[j] == b[j - |a|];
          assert SortedAt(less, b, i - |a|, j - |a|);
        }
      }
    }
  }

  /** Inserting `v` at position `k`, after every element it is not below and
      before every element not below it, keeps a sequence sorted. */
  lemma SortedInsert<T(!new)>(less: (T, T) -> bool, s: seq<T>, k: int, v: T)
    requires Sorted(less, s) && 0 <= k <= |s|
    requires forall i :: 0 <= i < k ==> !less(v, s[i])
    requires forall i :: k <= i < |s| ==> !less(s[i], v)
    ensures Sorted(less, s[..k] + [v] + s[k..])
  {
    var r := s[..k] + [v] + s[k..];
    assert forall i :: 0 <= i < |r| ==> r[i] == if i < k then s[i] else if i == k then v else s[i - 1];
    forall i, j ensures SortedAt(less, r, i, j) {
      if 0 <= i < j < |r| {
        if j < k {
          assert SortedAt(less, s, i, j);
        } else if i < k && k < j {
          assert SortedAt(less, s, i, j - 1);
        } else if k < i {
          assert SortedAt(less, s, i - 1, j - 1);
        }
      }
    }
  }

  /** InsertLeft on sequences: `a` holds the values of `s` below `v` and `r`
      the rest; putting `v` between them inserts it at the count of smaller
      values and keeps `s` sorted. */
  lemma InsertBefore<T(!new)>(less: (T, T) -> bool, s: seq<T>, a: seq<T>, r: seq<T>, v: T)
    requires StrictWeakOrder(less) && Sorted(less, s) && s == a + r
    requires |a| == Count(s, Below(less, v))
    ensures a + ([v] + r) == s[..|a|] + [v] + s[|a|..]
    ensures Sorted(less, a + ([v] + r))
  {
    BelowPrefix(less, s, v);
    PrefixCount(s, Below(less, v));
    assert s[..|a|] == a && s[|a|..] == r;
    SortedInsert(less, s, |a|, v);
  }

  /** InsertRight on sequences: `a` holds the values of `s` not above `v`
      and `r` the rest; putting `v` between them inserts it at the count of
      values not above it and keeps `s` sorted. */
  lemma InsertAfter<T(!new)>(less: (T, T) -> bool, s: seq<T>, a: seq<T>, r: seq<T>, v: T)
    requires StrictWeakOrder(less) && Sorted(less, s) && s == a + r
    requires |a| == Count(s, AtMost(less, v))
    ensures (a + [v]) + r == s[..|a|] + [v] + s[|a|..]
    ensures Sorted(less, (a + [v]) + r)
  {
    AtMostPrefix(less, s, v);
    PrefixCount(s, AtMost(less, v));
    assert s[..|a|] == a && s[|a|..] == r;
    SortedInsert(less, s, |a|, v);
  }

  /** `r` is `s` with the `n` values from position `lo` on cut out. */
  ghost predicate CutOut<T>(r: seq<T>, s: seq<T>, lo: int, n: int)
  {
    0 <= lo && 0 <= n && lo + n <= |s| && r == s[..lo] + s[lo + n..]
  }

  /** `r` is `s` with the `n` values just before position `hi` cut out. */
  ghost predicate CutOutBefore<T>(r: seq<T>, s: seq<T>, hi: int, n: int)
  {
    CutOut(r, s, hi - n, n)
  }

  /** Cutting the middle piece out of `a + (b + c)` leaves the slices of the
      whole before and after it, and keeps a sorted sequence sorted. */
  lemma Excise<T>(less: (T, T) -> bool, s: seq<T>, a: seq<T>, b: seq<T>, c: seq<T>)
    requires s == a + (b + c)
    ensures CutOut(a + c, s, |a|, |b|)
    ensures Sorted(less, s) ==> Sorted(less, a + c)
  {
    assert s[..|a|] == a && s[|a| + |b|..] == c;
    var r := a + c;
    if Sorted(less, s) {
      forall i, j ensures SortedAt(less, r, i, j) {
        if 0 <= i < j < |r| {
          var i' := if i < |a| then i else i + |b|;
          var j' := if j < |a| then j else j + |b|;
          assert r[i] == s[i'] && r[j] == s[j'];
          assert SortedAt(less, s, i', j');
        }
      }
    }
  }

  /** EraseLeftmost on sequences: out of `a + ((d + e) + c)` it keeps
      `a + (e + c)`, cutting out the `n == |d|` values at `lo == |a|`. */
  lemma ExciseFront<T>(less: (T, T) -> bool, s: seq<T>, a: seq<T>, d: seq<T>, e: seq<T>, c: seq<T>, lo: int, n: int)
    requires s == a + ((d + e) + c) && lo == |a| && n == |d|
    ensures CutOut(a + (e + c), s, lo, n)
    ensures Sorted(less, s) ==> Sorted(less, a + (e + c))
  {
    assert s == a + (d + (e + c));
    Excise(less, s, a, d, e + c);
  }

  /** EraseRightmost on sequences: out of `a + ((d + e) + c)` it keeps
      `a + (d + c)`, cutting out the `n == |e|` values before `hi == |a| + |d| + |e|`. */
  lemma ExciseBack<T>(less: (T, T) -> bool, s: seq<T>, a: seq<T>, d: seq<T>, e: seq<T>, c: seq<T>, hi: int, n: int)
    requires s == a + ((d + e) + c) && hi == |a| + |d| + |e| && n == |e|
    ensures CutOutBefore(a + (d + c), s, hi, n)
    ensures Sorted(less, s) ==> Sorted(less, a + (d + c))
  {
    var ad := a + d;
    assert s == ad + (e + c);
    Excise(less, s, ad, e, c);
    assert CutOut(ad + c, s, |ad|, |e|);
    assert ad + c == a + (d + c) && hi - n == |ad|;
  }
}
