/** The node algebra of the treap (node.go): subtrees that cache their size,
    the `merge` and `split` primitives, the threshold lookups and the in-order
    navigation.  Subtrees are modelled as values.  A node handle, which Go
    represents by a `*Node` whose parent links lead back to the root, is here
    the path of left/right steps from the root of the whole tree to the node. */
module Nodes {

  datatype Option<T> = None | Some(value: T)

  /** A subtree.  `Nil` is Go's nil `*Node`; `size` is the cached number of
      nodes of the subtree, kept up to date by `RecalcSize`. */
  datatype Tree<T> = Nil | Node(left: Tree<T>, value: T, priority: int, right: Tree<T>, size: int)

  /** The in-order sequence of values of a subtree. */
  ghost function Elems<T>(t: Tree<T>): seq<T>
  {
    if t.Nil? then [] else Elems(t.left) + [t.value] + Elems(t.right)
  }

  /** The structural invariant of a subtree: priorities form a max-heap and
      every cached size is the number of nodes below it.  The search order is
      a property of `Elems(t)` under the container's comparator and is kept by
      the container. */
  ghost predicate Valid<T>(t: Tree<T>)
  {
    t.Node? ==>
      && Valid(t.left)
      && Valid(t.right)
      && (t.left.Node? ==> t.left.priority <= t.priority)
      && (t.right.Node? ==> t.right.priority <= t.priority)
      && t.size == |Elems(t)|
  }

  /** The priority of the root bounds that of every node of a valid subtree. */
  ghost predicate Dominated<T>(t: Tree<T>, bound: int)
  {
    t.Node? ==> t.priority <= bound
  }

  /** safeSize: the cached size, 0 for nil. */
  function SafeSize<T>(t: Tree<T>): (n: int)
    ensures Valid(t) ==> n == |Elems(t)|
    ensures t.Nil? ==> n == 0
  {
    if t.Nil? then 0 else t.size
  }

  /** newNode, with the priority drawn by the caller. */
  function NewNode<T>(value: T, priority: int): (t: Tree<T>)
    ensures Valid(t) && Elems(t) == [value] && t.priority == priority
  {
    Node(Nil, value, priority, Nil, 1)
  }

  /** recalcSize: recompute the cached size of `t` from its children. */
  function RecalcSize<T>(t: Tree<T>): (u: Tree<T>)
    requires t.Node?
    ensures u.Node? && u.left == t.left && u.right == t.right
    ensures u.value == t.value && u.priority == t.priority
    ensures Elems(u) == Elems(t)
    ensures (Valid(t.left) && Valid(t.right) && Dominated(t.left, t.priority)
              && Dominated(t.right, t.priority)) ==> Valid(u)
  {
    t.(size := SafeSize(t.left) + 1 + SafeSize(t.right))
  }

  /** merge: join two subtrees whose in-order sequences are to be
      concatenated.  An empty side yields the other side itself; otherwise
      the root with the higher priority becomes the root, `left`'s on a tie. */
  function Merge<T>(left: Tree<T>, right: Tree<T>): (r: Tree<T>)
    ensures Elems(r) == Elems(left) + Elems(right)
    ensures left.Nil? ==> r == right
    ensures right.Nil? ==> r == left
    ensures left.Node? && right.Node? ==>
              if left.priority >= right.priority
              then r.Node? && r.value == left.value && r.priority == left.priority && r.left == left.left
              else r.Node? && r.value == right.value && r.priority == right.priority && r.right == right.right
    ensures Valid(left) && Valid(right) ==> Valid(r)
    decreases left, right
  {
    if left.Nil? then right
    else if right.Nil? then left
    else if left.priority >= right.priority then
      RecalcSize(left.(right := Merge(left.right, right)))
    else
      RecalcSize(right.(left := Merge(left, right.left)))
  }

  /** A split condition is monotone on `s` at `offset` when it holds on the
      first positions (counted from `offset`) and fails on all the later ones. */
  ghost predicate Monotone<T>(s: seq<T>, cond: (T, int) -> bool, offset: int)
  {
    forall i, j :: 0 <= i <= j < |s| && cond(s[j], offset + j) ==> cond(s[i], offset + i)
  }

  /** `cond` holds exactly on the first `k` elements of `s`, the element at
      position `i` being evaluated with index `offset + i`. */
  ghost predicate SplitAt<T>(s: seq<T>, cond: (T, int) -> bool, offset: int, k: int)
  {
    && 0 <= k <= |s|
    && (forall i :: 0 <= i < k ==> cond(s[i], offset + i))
    && (forall i :: k <= i < |s| ==> !cond(s[i], offset + i))
  }

  lemma {:induction false} MonotoneParts<T>(s: seq<T>, a: seq<T>, x: T, b: seq<T>, cond: (T, int) -> bool, offset: int, mid: int)
    requires s == a + [x] + b && Monotone(s, cond, offset)
    requires mid == offset + |a|
    ensures Monotone(a, cond, offset)
    ensures Monotone(b, cond, mid + 1)
  {
    forall i, j | 0 <= i <= j < |b| && cond(b[j], offset + |a| + 1 + j)
      ensures cond(b[i], offset + |a| + 1 + i)
    {
      assert s[|a| + 1 + j] == b[j] && s[|a| + 1 + i] == b[i];
    }
    forall i, j | 0 <= i <= j < |a| && cond(a[j], offset + j)
      ensures cond(a[i], offset + i)
    {
      assert s[j] == a[j] && s[i] == a[i];
    }
  }

  /** When the condition holds at `x`, the split point lies in `b`. */
  lemma {:induction false} SplitAtRight<T>(s: seq<T>, a: seq<T>, x: T, b: seq<T>, cond: (T, int) -> bool, offset: int, mid: int, k: int)
    requires s == a + [x] + b && Monotone(s, cond, offset)
    requires mid == offset + |a| && cond(x, mid)
    requires SplitAt(b, cond, mid + 1, k)
    ensures SplitAt(s, cond, offset, |a| + 1 + k)
  {
    forall i | 0 <= i < |a| + 1 + k
      ensures cond(s[i], offset + i)
    {
      if i > |a| {
        assert s[i] == b[i - |a| - 1];
      } else {
        assert s[|a|] == x;
      }
    }
    forall i | |a| + 1 + k <= i < |s|
      ensures !cond(s[i], offset + i)
    {
      assert s[i] == b[i - |a| - 1];
    }
  }

  /** When the condition fails at `x`, the split point lies in `a`. */
  lemma {:induction false} SplitAtLeft<T>(s: seq<T>, a: seq<T>, x: T, b: seq<T>, cond: (T, int) -> bool, offset: int, mid: int, k: int)
    requires s == a + [x] + b && Monotone(s, cond, offset)
    requires mid == offset + |a| && !cond(x, mid)
    requires SplitAt(a, cond, offset, k)
    ensures SplitAt(s, cond, offset, k)
  {
    forall i | 0 <= i < k
      ensures cond(s[i], offset + i)
    {
      assert s[i] == a[i];
    }
    forall i | k <= i < |s|
      ensures !cond(s[i], offset + i)
    {
      if i < |a| {
        assert s[i] == a[i];
      } else {
        assert s[|a|] == x;
      }
    }
  }

  /** split: cut a subtree into the nodes on which `cond` holds and the rest,
      the node at in-order position `i` being evaluated with index
      `offset + i`.  The two parts concatenate to the input whatever `cond`
      is; `SplitValid` and `SplitPrefix` state the rest. */
  function Split<T>(t: Tree<T>, cond: (T, int) -> bool, offset: int): (parts: (Tree<T>, Tree<T>))
    ensures Elems(parts.0) + Elems(parts.1) == Elems(t)
    ensures t.Nil? ==> parts.0.Nil? && parts.1.Nil?
    decreases t
  {
    if t.Nil? then (Nil, Nil)
    else
      var central := offset + SafeSize(t.left);
      if cond(t.value, central) then
        var (l, r) := Split(t.right, cond, central + 1);
        (RecalcSize(t.(right := l)), r)
      else
        var (l, r) := Split(t.left, cond, offset);
        (l, RecalcSize(t.(left := r)))
  }

  /** Both parts of the split of `t` are valid, and no node in them outranks
      the root of `t`. */
  ghost predicate SplitValidAt<T>(t: Tree<T>, cond: (T, int) -> bool, offset: int)
  {
    var parts := Split(t, cond, offset);
    && Valid(parts.0) && Valid(parts.1)
    && (t.Node? ==> Dominated(parts.0, t.priority) && Dominated(parts.1, t.priority))
  }

  /** Both parts of a split of a valid subtree are valid, and no node in them
      outranks the root of the input. */
  lemma {:induction false} SplitValid<T>(t: Tree<T>, cond: (T, int) -> bool, offset: int)
    requires Valid(t)
    ensures SplitValidAt(t, cond, offset)
    decreases t
  {
    if t.Node? {
      var central := offset + SafeSize(t.left);
      if cond(t.value, central) {
        SplitValid(t.right, cond, central + 1);
        SplitValidRight(t, cond, offset, central);
      } else {
        SplitValid(t.left, cond, offset);
        SplitValidLeft(t, cond, offset, central);
      }
    }
  }

  /** The step of `SplitValid` when the root goes to the left part: the
      root, with the right child replaced by the left part of the right
      subtree's split, gets its size recomputed and stays valid. */
  lemma {:induction false} SplitValidRight<T>(t: Tree<T>, cond: (T, int) -> bool, offset: int, central: int)
    requires t.Node? && Valid(t)
    requires central == offset + SafeSize(t.left) && cond(t.value, central)
    requires SplitValidAt(t.right, cond, central + 1)
    ensures SplitValidAt(t, cond, offset)
  {
    var (l, r) := Split(t.right, cond, central + 1);
    assert Split(t, cond, offset) == (RecalcSize(t.(right := l)), r);
    assert Dominated(l, t.priority) && Dominated(r, t.priority);
  }

  /** The step of `SplitValid` when the root goes to the right part. */
  lemma {:induction false} SplitValidLeft<T>(t: Tree<T>, cond: (T, int) -> bool, offset: int, central: int)
    requires t.Node? && Valid(t)
    requires central == offset + SafeSize(t.left) && !cond(t.value, central)
    requires SplitValidAt(t.left, cond, offset)
    ensures SplitValidAt(t, cond, offset)
  {
    var (l, r) := Split(t.left, cond, offset);
    assert Split(t, cond, offset) == (l, RecalcSize(t.(left := r)));
    assert Dominated(l, t.priority) && Dominated(r, t.priority);
  }

  /** With a monotone condition, the left part of a split is exactly the
      prefix on which the condition holds. */
  lemma {:induction false} SplitPrefix<T>(t: Tree<T>, cond: (T, int) -> bool, offset: int)
    requires Valid(t) && Monotone(Elems(t), cond, offset)
    ensures SplitAt(Elems(t), cond, offset, |Elems(Split(t, cond, offset).0)|)
    decreases t
  {
    if t.Node? {
      var central := offset + SafeSize(t.left);
      MonotoneParts(Elems(t), Elems(t.left), t.value, Elems(t.right), cond, offset, central);
      if cond(t.value, central) {
        SplitPrefix(t.right, cond, central + 1);
        SplitPrefixRight(t, cond, offset, central);
      } else {
        SplitPrefix(t.left, cond, offset);
        SplitPrefixLeft(t, cond, offset, central);
      }
    }
  }

  /** The step of `SplitPrefix` when the condition holds at the root. */
  lemma {:induction false} SplitPrefixRight<T>(t: Tree<T>, cond: (T, int) -> bool, offset: int, central: int)
    requires t.Node? && Valid(t) && Monotone(Elems(t), cond, offset)
    requires central == offset + SafeSize(t.left) && cond(t.value, central)
    requires SplitAt(Elems(t.right), cond, central + 1, |Elems(Split(t.right, cond, central + 1).0)|)
    ensures SplitAt(Elems(t), cond, offset, |Elems(Split(t, cond, offset).0)|)
  {
    var l := Split(t.right, cond, central + 1).0;
    assert Elems(Split(t, cond, offset).0) == Elems(t.left) + [t.value] + Elems(l);
    SplitAtRight(Elems(t), Elems(t.left), t.value, Elems(t.right), cond, offset, central, |Elems(l)|);
  }

  /** The step of `SplitPrefix` when the condition fails at the root. */
  lemma {:induction false} SplitPrefixLeft<T>(t: Tree<T>, cond: (T, int) -> bool, offset: int, central: int)
    requires t.Node? && Valid(t) && Monotone(Elems(t), cond, offset)
    requires central == offset + SafeSize(t.left) && !cond(t.value, central)
    requires SplitAt(Elems(t.left), cond, offset, |Elems(Split(t.left, cond, offset).0)|)
    ensures SplitAt(Elems(t), cond, offset, |Elems(Split(t, cond, offset).0)|)
  {
    var l := Split(t.left, cond, offset).0;
    assert Split(t, cond, offset).0 == l;
    SplitAtLeft(Elems(t), Elems(t.left), t.value, Elems(t.right), cond, offset, central, |Elems(l)|);
  }

  /** The whole contract of `split` on a valid subtree: both parts are
      valid, the left part is a prefix of the in-order sequence and the right
      part the rest, and for a monotone predicate the prefix is exactly where
      the predicate holds. */
  lemma SplitParts<T>(t: Tree<T>, cond: (T, int) -> bool, offset: int)
    requires Valid(t)
    ensures var parts := Split(t, cond, offset);
            var k := |Elems(parts.0)|;
            && Valid(parts.0) && Valid(parts.1)
            && k <= |Elems(t)|
            && Elems(parts.0) == Elems(t)[..k]
            && Elems(parts.1) == Elems(t)[k..]
            && (Monotone(Elems(t), cond, offset) ==> SplitAt(Elems(t), cond, offset, k))
  {
    SplitValid(t, cond, offset);
    var parts := Split(t, cond, offset);
    assert Elems(parts.0) + Elems(parts.1) == Elems(t);
    if Monotone(Elems(t), cond, offset) {
      SplitPrefix(t, cond, offset);
    }
  }

  /** A valid subtree with one value is a single node holding it. */
  lemma SingleValue<T>(t: Tree<T>)
    requires |Elems(t)| == 1
    ensures t.Node? && t.value == Elems(t)[0]
  {
    if t.Node? {
      assert |Elems(t.left)| == 0;
    }
  }

  // Node handles.  Go reaches a node through a `*Node` reference and climbs with
  // `parent`; here a handle is the path from the root of the whole tree, and
  // climbing drops the last step of the path.

  datatype Dir = Left | Right

  type Path = seq<Dir>

  function Child<T>(t: Tree<T>, d: Dir): Tree<T>
    requires t.Node?
  {
    if d == Left then t.left else t.right
  }

  /** `p` leads from `t` to a node (not to a nil child). */
  ghost predicate IsPath<T>(t: Tree<T>, p: Path)
    decreases |p|
  {
    t.Node? && (|p| > 0 ==> IsPath(Child(t, p[0]), p[1..]))
  }

  /** The subtree rooted at the node reached by `p`. */
  function Sub<T>(t: Tree<T>, p: Path): (s: Tree<T>)
    requires IsPath(t, p)
    ensures s.Node?
    decreases |p|
  {
    if |p| == 0 then t else Sub(Child(t, p[0]), p[1..])
  }

  /** The in-order position, within `t`, of the first node of the subtree
      reached by `p`. */
  ghost function Start<T>(t: Tree<T>, p: Path): int
    requires IsPath(t, p)
    decreases |p|
  {
    if |p| == 0 then 0
    else if p[0] == Left then Start(t.left, p[1..])
    else |Elems(t.left)| + 1 + Start(t.right, p[1..])
  }

  /** The in-order position, within `t`, of the node reached by `p`. */
  ghost function Pos<T>(t: Tree<T>, p: Path): (i: int)
    requires IsPath(t, p)
    ensures 0 <= i < |Elems(t)|
  {
    SubBounds(t, p);
    Start(t, p) + |Elems(Sub(t, p).left)|
  }

  /** The path to the node at in-order position `i`. */
  ghost function PathAt<T>(t: Tree<T>, i: int): Path
    requires 0 <= i < |Elems(t)|
    decreases t
  {
    var k := |Elems(t.left)|;
    if i < k then [Left] + PathAt(t.left, i)
    else if i == k then []
    else [Right] + PathAt(t.right, i - k - 1)
  }

  /** `PathAt` leads to the node at position `i`. */
  lemma {:induction false} PathAtSpec<T>(t: Tree<T>, i: int)
    requires 0 <= i < |Elems(t)|
    ensures IsPath(t, PathAt(t, i)) && Pos(t, PathAt(t, i)) == i
    decreases t
  {
    var k := |Elems(t.left)|;
    if i < k {
      PathAtSpec(t.left, i);
      assert ([Left] + PathAt(t.left, i))[1..] == PathAt(t.left, i);
    } else if i > k {
      PathAtSpec(t.right, i - k - 1);
      assert ([Right] + PathAt(t.right, i - k - 1))[1..] == PathAt(t.right, i - k - 1);
    }
  }

  /** The subtree reached by a path occupies a block of positions of `t`. */
  lemma {:induction false} SubBounds<T>(t: Tree<T>, p: Path)
    requires IsPath(t, p)
    ensures 0 <= Start(t, p)
    ensures Start(t, p) + |Elems(Sub(t, p))| <= |Elems(t)|
    decreases |p|
  {
    if |p| > 0 {
      SubBounds(Child(t, p[0]), p[1..]);
    }
  }

  /** Every subtree of a valid tree is valid. */
  lemma {:induction false} ValidSub<T>(t: Tree<T>, p: Path)
    requires IsPath(t, p) && Valid(t)
    ensures Valid(Sub(t, p))
    decreases |p|
  {
    if |p| > 0 {
      ValidSub(Child(t, p[0]), p[1..]);
    }
  }

  /** A path determines a position, and the position gives back the path
      and the node's value. */
  lemma {:induction false} PathAtPos<T>(t: Tree<T>, p: Path)
    requires IsPath(t, p)
    ensures PathAt(t, Pos(t, p)) == p
    ensures Elems(t)[Pos(t, p)] == Sub(t, p).value
    decreases |p|
  {
    if |p| > 0 {
      var c := Child(t, p[0]);
      PathAtPos(c, p[1..]);
      assert p == [p[0]] + p[1..];
      var i := Pos(c, p[1..]);
      if p[0] == Right {
        assert Elems(t)[|Elems(t.left)| + 1 + i] == Elems(t.right)[i];
      } else {
        assert Elems(t)[i] == Elems(t.left)[i];
      }
    }
  }

  /** Extending a path by one step. */
  lemma {:induction false} SubSnoc<T>(t: Tree<T>, q: Path, d: Dir)
    requires IsPath(t, q)
    ensures IsPath(t, q + [d]) <==> Child(Sub(t, q), d).Node?
    ensures IsPath(t, q + [d]) ==>
              && Sub(t, q + [d]) == Child(Sub(t, q), d)
              && Start(t, q + [d]) == Start(t, q) + (if d == Left then 0 else |Elems(Sub(t, q).left)| + 1)
    decreases |q|
  {
    if |q| > 0 {
      assert (q + [d])[1..] == q[1..] + [d];
      SubSnoc(Child(t, q[0]), q[1..], d);
    }
  }

  /** Dropping the last step of a path. */
  lemma {:induction false} PrefixIsPath<T>(t: Tree<T>, q: Path, d: Dir)
    requires IsPath(t, q + [d])
    ensures IsPath(t, q)
    decreases |q|
  {
    if |q| > 0 {
      assert (q + [d])[1..] == q[1..] + [d];
      PrefixIsPath(Child(t, q[0]), q[1..], d);
    }
  }

  /** One step of `Split` when the root goes to the left part. */
  lemma {:induction false} SplitCutRight<T>(t: Tree<T>, cond: (T, int) -> bool, offset: int)
    requires t.Node? && cond(t.value, offset + SafeSize(t.left))
    ensures |Elems(Split(t, cond, offset).0)|
            == |Elems(t.left)| + 1 + |Elems(Split(t.right, cond, offset + SafeSize(t.left) + 1).0)|
  {
  }

  /** One step of `Split` when the root goes to the right part. */
  lemma {:induction false} SplitCutLeft<T>(t: Tree<T>, cond: (T, int) -> bool, offset: int)
    requires t.Node? && !cond(t.value, offset + SafeSize(t.left))
    ensures Split(t, cond, offset).0 == Split(t.left, cond, offset).0
  {
  }

  lemma {:induction false} PathAtRight<T>(t: Tree<T>, j: int)
    requires t.Node? && 0 <= j < |Elems(t.right)|
    ensures PathAt(t, |Elems(t.left)| + 1 + j) == [Right] + PathAt(t.right, j)
  {
  }

  lemma {:induction false} PathAtLeft<T>(t: Tree<T>, j: int)
    requires t.Node? && 0 <= j < |Elems(t.left)|
    ensures PathAt(t, j) == [Left] + PathAt(t.left, j)
  {
  }

  // Threshold lookups.  They walk the same branches as `Split` and find the
  // node next to the cut without rebuilding anything.

  /** lookupRightmostMatch: the last node on which `cond` holds, with its
      index, or (nil, 0). */
  function LookupRightmostMatch<T>(t: Tree<T>, cond: (T, int) -> bool, offset: int): (r: (Option<Path>, int))
    ensures r.0.Some? ==> IsPath(t, r.0.value)
    ensures r.0.None? ==> r.1 == 0
    decreases t
  {
    if t.Nil? then (None, 0)
    else
      var central := offset + SafeSize(t.left);
      if cond(t.value, central) then
        var (res, idx) := LookupRightmostMatch(t.right, cond, central + 1);
        if res.Some? then (Some([Right] + res.value), idx) else (Some([]), central)
      else
        var (res, idx) := LookupRightmostMatch(t.left, cond, offset);
        (if res.Some? then Some([Left] + res.value) else None, idx)
  }

  /** lookupLeftmostUnmatch: the first node on which `cond` fails, with its
      index, or (nil, 0). */
  function LookupLeftmostUnmatch<T>(t: Tree<T>, cond: (T, int) -> bool, offset: int): (r: (Option<Path>, int))
    ensures r.0.Some? ==> IsPath(t, r.0.value)
    ensures r.0.None? ==> r.1 == 0
    decreases t
  {
    if t.Nil? then (None, 0)
    else
      var central := offset + SafeSize(t.left);
      if cond(t.value, central) then
        var (res, idx) := LookupLeftmostUnmatch(t.right, cond, central + 1);
        (if res.Some? then Some([Right] + res.value) else None, idx)
      else
        var (res, idx) := LookupLeftmostUnmatch(t.left, cond, offset);
        if res.Some? then (Some([Left] + res.value), idx) else (Some([]), central)
  }

  /** The number of leading nodes on which `split` says "go left", computed
      along the same branches as `Split` and the lookups. */
  ghost function Cut<T>(t: Tree<T>, cond: (T, int) -> bool, offset: int): (k: int)
    ensures 0 <= k <= |Elems(t)|
    decreases t
  {
    if t.Nil? then 0
    else
      var central := offset + SafeSize(t.left);
      if cond(t.value, central) then |Elems(t.left)| + 1 + Cut(t.right, cond, central + 1)
      else Cut(t.left, cond, offset)
  }

  /** `Cut` is the size of the left part of the split. */
  lemma {:induction false} CutIsSplit<T>(t: Tree<T>, cond: (T, int) -> bool, offset: int)
    ensures Cut(t, cond, offset) == |Elems(Split(t, cond, offset).0)|
    decreases t
  {
    if t.Node? {
      var central := offset + SafeSize(t.left);
      if cond(t.value, central) {
        CutIsSplit(t.right, cond, central + 1);
        SplitCutRight(t, cond, offset);
      } else {
        CutIsSplit(t.left, cond, offset);
        SplitCutLeft(t, cond, offset);
      }
    }
  }

  /** `lookupRightmostMatch` on `t` returns the last node of the left part
      of the split by the same condition, with its absolute index, or
      (nil, 0) when that part is empty. */
  ghost predicate RightmostMatchAt<T>(t: Tree<T>, cond: (T, int) -> bool, offset: int)
  {
    var k := Cut(t, cond, offset);
    LookupRightmostMatch(t, cond, offset) ==
      if k == 0 then (None, 0) else (Some(PathAt(t, k - 1)), offset + k - 1)
  }

  /** `lookupLeftmostUnmatch` on `t` returns the first node of the right
      part of the split by the same condition, with its absolute index, or
      (nil, 0) when that part is empty. */
  ghost predicate LeftmostUnmatchAt<T>(t: Tree<T>, cond: (T, int) -> bool, offset: int)
  {
    var k := Cut(t, cond, offset);
    LookupLeftmostUnmatch(t, cond, offset) ==
      if k == |Elems(t)| then (None, 0) else (Some(PathAt(t, k)), offset + k)
  }

  /** `lookupRightmostMatch` finds the last node of the left part of the
      corresponding split, and reports its absolute index. */
  lemma {:induction false} RightmostMatchAtCut<T>(t: Tree<T>, cond: (T, int) -> bool, offset: int)
    requires Valid(t)
    ensures RightmostMatchAt(t, cond, offset)
    decreases t
  {
    if t.Node? {
      var central := offset + SafeSize(t.left);
      if cond(t.value, central) {
        RightmostMatchAtCut(t.right, cond, central + 1);
        RightmostMatchRight(t, cond, offset, central);
      } else {
        RightmostMatchAtCut(t.left, cond, offset);
        RightmostMatchLeft(t, cond, offset, central);
      }
    }
  }

  lemma {:induction false} RightmostMatchRight<T>(t: Tree<T>, cond: (T, int) -> bool, offset: int, central: int)
    requires Valid(t) && t.Node?
    requires central == offset + SafeSize(t.left) && cond(t.value, central)
    requires RightmostMatchAt(t.right, cond, central + 1)
    ensures RightmostMatchAt(t, cond, offset)
  {
    var k' := Cut(t.right, cond, central + 1);
    assert Cut(t, cond, offset) == |Elems(t.left)| + 1 + k';
    var (res, idx) := LookupRightmostMatch(t.right, cond, central + 1);
    assert LookupRightmostMatch(t, cond, offset) ==
      if res.Some? then (Some([Right] + res.value), idx) else (Some([]), central);
    if k' > 0 {
      PathAtRight(t, k' - 1);
    } else {
      assert res.None? && central == offset + |Elems(t.left)|;
      assert PathAt(t, |Elems(t.left)|) == [];
    }
  }

  lemma {:induction false} RightmostMatchLeft<T>(t: Tree<T>, cond: (T, int) -> bool, offset: int, central: int)
    requires Valid(t) && t.Node?
    requires central == offset + SafeSize(t.left) && !cond(t.value, central)
    requires RightmostMatchAt(t.left, cond, offset)
    ensures RightmostMatchAt(t, cond, offset)
  {
    var k := Cut(t.left, cond, offset);
    if k > 0 {
      PathAtLeft(t, k - 1);
    }
  }

  /** `lookupLeftmostUnmatch` finds the first node of the right part of the
      corresponding split, and reports its absolute index. */
  lemma {:induction false} LeftmostUnmatchAtCut<T>(t: Tree<T>, cond: (T, int) -> bool, offset: int)
    requires Valid(t)
    ensures LeftmostUnmatchAt(t, cond, offset)
    decreases t
  {
    if t.Node? {
      var central := offset + SafeSize(t.left);
      if cond(t.value, central) {
        LeftmostUnmatchAtCut(t.right, cond, central + 1);
        LeftmostUnmatchRight(t, cond, offset, central);
      } else {
        LeftmostUnmatchAtCut(t.left, cond, offset);
        LeftmostUnmatchLeft(t, cond, offset, central);
      }
    }
  }

  lemma {:induction false} LeftmostUnmatchRight<T>(t: Tree<T>, cond: (T, int) -> bool, offset: int, central: int)
    requires Valid(t) && t.Node?
    requires central == offset + SafeSize(t.left) && cond(t.value, central)
    requires LeftmostUnmatchAt(t.right, cond, central + 1)
    ensures LeftmostUnmatchAt(t, cond, offset)
  {
    var k' := Cut(t.right, cond, central + 1);
    if k' < |Elems(t.right)| {
      PathAtRight(t, k');
    }
  }

  lemma {:induction false} LeftmostUnmatchLeft<T>(t: Tree<T>, cond: (T, int) -> bool, offset: int, central: int)
    requires Valid(t) && t.Node?
    requires central == offset + SafeSize(t.left) && !cond(t.value, central)
    requires LeftmostUnmatchAt(t.left, cond, offset)
    ensures LeftmostUnmatchAt(t, cond, offset)
  {
    var k := Cut(t.left, cond, offset);
    assert Cut(t, cond, offset) == k;
    var (res, idx) := LookupLeftmostUnmatch(t.left, cond, offset);
    assert LookupLeftmostUnmatch(t, cond, offset) ==
      if res.Some? then (Some([Left] + res.value), idx) else (Some([]), central);
    if k < |Elems(t.left)| {
      PathAtLeft(t, k);
    } else {
      assert res.None? && central == offset + k;
      assert PathAt(t, k) == [];
    }
  }

  // Navigation.  Go climbs through parent links; here the parent of the node
  // at `cur` is the node at `cur` without its last step, and "cur is the
  // right child of its parent" means that last step is `Right`.

  /** Next: the in-order successor of the node `h`, or nil after the last. */
  method Next<T>(root: Tree<T>, h: Option<Path>) returns (n: Option<Path>)
    requires h.Some? ==> IsPath(root, h.value)
    ensures h.None? ==> n.None?
    ensures h.Some? ==>
              var i := Pos(root, h.value) + 1;
              n == if i < |Elems(root)| then Some(PathAt(root, i)) else None
  {
    if h.None? {
      return None;
    }
    var t := h.value;
    if Sub(root, t).right.Node? {
      SubSnoc(root, t, Right);
      var cur := t + [Right];
      while Sub(root, cur).left.Node?
        invariant IsPath(root, cur)
        invariant Start(root, cur) == Pos(root, t) + 1
        decreases Sub(root, cur)
      {
        SubSnoc(root, cur, Left);
        cur := cur + [Left];
      }
      PathAtPos(root, cur);
      return Some(cur);
    }
    var cur := t;
    while |cur| > 0
      invariant IsPath(root, cur)
      invariant Start(root, cur) + |Elems(Sub(root, cur))| == Pos(root, t) + 1
    {
      var parent, d := cur[..|cur| - 1], cur[|cur| - 1];
      assert cur == parent + [d];
      PrefixIsPath(root, parent, d);
      SubSnoc(root, parent, d);
      if d == Left {
        PathAtPos(root, parent);
        return Some(parent);
      }
      cur := parent;
    }
    PathAtPos(root, t);
    return None;
  }

  /** Prev: the in-order predecessor of the node `h`, or nil before the
      first. */
  method Prev<T>(root: Tree<T>, h: Option<Path>) returns (n: Option<Path>)
    requires h.Some? ==> IsPath(root, h.value)
    ensures h.None? ==> n.None?
    ensures h.Some? ==>
              var i := Pos(root, h.value) - 1;
              n == if 0 <= i then Some(PathAt(root, i)) else None
  {
    if h.None? {
      return None;
    }
    var t := h.value;
    if Sub(root, t).left.Node? {
      SubSnoc(root, t, Left);
      var cur := t + [Left];
      while Sub(root, cur).right.Node?
        invariant IsPath(root, cur)
        invariant Start(root, cur) + |Elems(Sub(root, cur))| == Pos(root, t)
        decreases Sub(root, cur)
      {
        SubSnoc(root, cur, Right);
        cur := cur + [Right];
      }
      PathAtPos(root, cur);
      return Some(cur);
    }
    var cur := t;
    while |cur| > 0
      invariant IsPath(root, cur)
      invariant Start(root, cur) == Pos(root, t)
    {
      var parent, d := cur[..|cur| - 1], cur[|cur| - 1];
      assert cur == parent + [d];
      PrefixIsPath(root, parent, d);
      SubSnoc(root, parent, d);
      if d == Right {
        PathAtPos(root, parent);
        return Some(parent);
      }
      cur := parent;
    }
    return None;
  }

  /** Leftmost: the first node of the whole tree that `h` belongs to. */
  method Leftmost<T>(root: Tree<T>, h: Option<Path>) returns (n: Option<Path>)
    requires h.Some? ==> IsPath(root, h.value)
    ensures h.None? ==> n.None?
    ensures h.Some? ==> |Elems(root)| > 0 && n == Some(PathAt(root, 0))
  {
    if h.None? {
      return None;
    }
    var cur := h.value;
    while |cur| > 0
      invariant IsPath(root, cur)
    {
      var parent, d := cur[..|cur| - 1], cur[|cur| - 1];
      assert cur == parent + [d];
      PrefixIsPath(root, parent, d);
      cur := parent;
    }
    while Sub(root, cur).left.Node?
      invariant IsPath(root, cur)
      invariant Start(root, cur) == 0
      decreases Sub(root, cur)
    {
      SubSnoc(root, cur, Left);
      cur := cur + [Left];
    }
    PathAtPos(root, cur);
    return Some(cur);
  }

  /** Rightmost: the last node of the whole tree that `h` belongs to. */
  method Rightmost<T>(root: Tree<T>, h: Option<Path>) returns (n: Option<Path>)
    requires h.Some? ==> IsPath(root, h.value)
    ensures h.None? ==> n.None?
    ensures h.Some? ==> |Elems(root)| > 0 && n == Some(PathAt(root, |Elems(root)| - 1))
  {
    if h.None? {
      return None;
    }
    var cur := h.value;
    while |cur| > 0
      invariant IsPath(root, cur)
    {
      var parent, d := cur[..|cur| - 1], cur[|cur| - 1];
      assert cur == parent + [d];
      PrefixIsPath(root, parent, d);
      cur := parent;
    }
    while Sub(root, cur).right.Node?
      invariant IsPath(root, cur)
      invariant Start(root, cur) + |Elems(Sub(root, cur))| == |Elems(root)|
      decreases Sub(root, cur)
    {
      SubSnoc(root, cur, Right);
      cur := cur + [Right];
    }
    PathAtPos(root, cur);
    return Some(cur);
  }

  /** Index: the in-order position of the node `h` in its whole tree, summed
      from the cached sizes of the left subtrees passed on the way up; 0 for
      nil. */
  method Index<T>(root: Tree<T>, h: Option<Path>) returns (i: int)
    requires Valid(root)
    requires h.Some? ==> IsPath(root, h.value)
    ensures h.None? ==> i == 0
    ensures h.Some? ==> i == Pos(root, h.value)
  {
    if h.None? {
      return 0;
    }
    var t := h.value;
    ValidSub(root, t);
    i := SafeSize(Sub(root, t).left);
    var cur := t;
    while |cur| > 0
      invariant IsPath(root, cur)
      invariant i + Start(root, cur) == Pos(root, t)
    {
      var parent, d := cur[..|cur| - 1], cur[|cur| - 1];
      assert cur == parent + [d];
      PrefixIsPath(root, parent, d);
      SubSnoc(root, parent, d);
      if d == Right {
        ValidSub(root, parent);
        i := i + SafeSize(Sub(root, parent).left) + 1;
      }
      cur := parent;
    }
  }

  /** As written, Index gives a nil node the index 0, which is also the
      index of the first node of any non-empty tree. */
  method IndexOfNilIsFirst<T>(root: Tree<T>) returns (nilIndex: int, firstIndex: int)
    requires Valid(root) && root.Node?
    ensures nilIndex == 0 && firstIndex == 0
  {
    nilIndex := Index(root, None);
    var first := Leftmost(root, Some([]));
    PathAtSpec(root, 0);
    firstIndex := Index(root, first);
  }

  /** Index with the sentinel -1 for a nil node, which no node's index
      equals. */
  method IndexOrSentinel<T>(root: Tree<T>, h: Option<Path>) returns (i: int)
    requires Valid(root)
    requires h.Some? ==> IsPath(root, h.value)
    ensures i == -1 <==> h.None?
    ensures h.Some? ==> i == Pos(root, h.value)
  {
    if h.None? {
      return -1;
    }
    i := Index(root, h);
  }

  /** Value: the value stored at the node `h`; for nil, Go's zero value of
      the element type, passed here as `zero`. */
  function Value<T>(root: Tree<T>, h: Option<Path>, zero: T): (result: T)
    requires h.Some? ==> IsPath(root, h.value)
    ensures h.None? ==> result == zero
    ensures h.Some? ==> result == Elems(root)[Pos(root, h.value)]
  {
    if h.None? then zero
    else
      PathAtPos(root, h.value);
      Sub(root, h.value).value
  }
}
