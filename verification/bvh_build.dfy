/**
 * Construction of the BVH: the recursive median split and the accelerator
 * constructor. Objects are abstract; the builder sees them only through
 * their bounds and their area.
 */
module BvhBuild {
  import opened Wrappers
  import opened Floats
  import opened Vectors
  import opened Bounds
  import opened BvhNodes
  import opened Sorting

  /** A leaf holding one object, its box and its area. */
  function Leaf<T>(bounds: Bounds3, o: T, area: real): (n: BuildNode<T>)
    ensures Shaped(n) && CountersUnset(n)
  {
    NewNode().(bounds := bounds, obj := Some(o), area := area)
  }

  /** An interior node over two subtrees: the union of their boxes and the sum of their areas. */
  function Interior<T>(l: BuildNode<T>, r: BuildNode<T>): (n: BuildNode<T>)
    ensures n.obj.None? && n.left == Some(l) && n.right == Some(r)
  {
    NewNode().(left := Some(l), right := Some(r), bounds := Union(l.bounds, r.bounds), area := l.area + r.area)
  }

  /** The sort key on one axis: that coordinate of the centroid of the object's box. */
  function CentroidKey<T>(boundsOf: T -> Bounds3, axis: int): T -> Ext
    requires 0 <= axis <= 2
  {
    (o: T) => Centroid(boundsOf(o)).Get(axis)
  }

  /** Folds the centroids of `s` into `b` with the point `Union`, left to right. */
  function CentroidBoxFrom<T>(boundsOf: T -> Bounds3, b: Bounds3, s: seq<T>): Bounds3
    decreases |s|
  {
    if |s| == 0 then b else CentroidBoxFrom(boundsOf, UnionPoint(b, Centroid(boundsOf(s[0]))), s[1..])
  }

  /** The box of the centroids, accumulated from the default box. */
  function CentroidBox<T>(boundsOf: T -> Bounds3, s: seq<T>): Bounds3
  {
    CentroidBoxFrom(boundsOf, Default(), s)
  }

  /** The axis the builder sorts on: the largest extent of the centroid box. */
  function SplitAxis<T>(boundsOf: T -> Bounds3, s: seq<T>): (axis: int)
    ensures 0 <= axis <= 2
  {
    MaxExtent(CentroidBox(boundsOf, s))
  }

  /**
   * `recursiveBuild`: one object becomes a leaf; two objects become two
   * leaves in input order; otherwise the objects are sorted by centroid on
   * the split axis and the two halves, split at `n / 2`, are built
   * recursively. The tree's leaves are a permutation of the input.
   */
  function Build<T>(boundsOf: T -> Bounds3, areaOf: T -> real, s: seq<T>): (n: BuildNode<T>)
    requires |s| >= 1
    ensures Shaped(n) && AreasAdd(n) && CountersUnset(n)
    ensures multiset(Leaves(n)) == multiset(s)
    ensures |Leaves(n)| == |s|
    ensures n.obj.None? <==> |s| >= 2
    decreases |s|
  {
    if |s| == 1 then
      Leaf(boundsOf(s[0]), s[0], areaOf(s[0]))
    else if |s| == 2 then
      var l, r := Build(boundsOf, areaOf, [s[0]]), Build(boundsOf, areaOf, [s[1]]);
      assert s == [s[0]] + [s[1]];
      Interior(l, r)
    else
      var sorted := Sort(CentroidKey(boundsOf, SplitAxis(boundsOf, s)), s);
      var mid := |s| / 2;
      assert sorted == sorted[..mid] + sorted[mid..];
      var l, r := Build(boundsOf, areaOf, sorted[..mid]), Build(boundsOf, areaOf, sorted[mid..]);
      Interior(l, r)
  }

  /** The sorted order the builder splits when it has three or more objects. */
  function SortedForSplit<T>(boundsOf: T -> Bounds3, s: seq<T>): (r: seq<T>)
    ensures multiset(r) == multiset(s) && |r| == |s|
  {
    Sort(CentroidKey(boundsOf, SplitAxis(boundsOf, s)), s)
  }

  /** One object: a leaf with that object's box and area and no children. */
  lemma BuildOne<T>(boundsOf: T -> Bounds3, areaOf: T -> real, o: T)
    ensures var n := Build(boundsOf, areaOf, [o]);
      n.obj == Some(o) && n.left.None? && n.right.None?
      && n.bounds == boundsOf(o) && n.area == areaOf(o)
  {
  }

  /** Two objects: the left leaf holds the first and the right leaf the second. */
  lemma BuildTwo<T>(boundsOf: T -> Bounds3, areaOf: T -> real, s: seq<T>)
    requires |s| == 2
    ensures var n := Build(boundsOf, areaOf, s);
      n.obj.None? && n.left.Some? && n.right.Some?
      && n.left.value.obj == Some(s[0]) && n.right.value.obj == Some(s[1])
      && Leaves(n) == s
      && n.bounds == Union(n.left.value.bounds, n.right.value.bounds)
      && n.area == areaOf(s[0]) + areaOf(s[1])
  {
    assert s == [s[0], s[1]];
  }

  /**
   * Three or more objects: the halves hold `n / 2` and `n - n / 2` objects,
   * both non-empty, and the subtrees are built from the two halves of the
   * sorted order.
   */
  lemma BuildSplit<T>(boundsOf: T -> Bounds3, areaOf: T -> real, s: seq<T>)
    requires |s| >= 3
    ensures var n := Build(boundsOf, areaOf, s);
      var sorted := SortedForSplit(boundsOf, s);
      n.obj.None? && n.left.Some? && n.right.Some?
      && n.left.value == Build(boundsOf, areaOf, sorted[..|s| / 2])
      && n.right.value == Build(boundsOf, areaOf, sorted[|s| / 2..])
      && |Leaves(n.left.value)| == |s| / 2 >= 1
      && |Leaves(n.right.value)| == |s| - |s| / 2 >= 1
      && |Leaves(n.left.value)| + |Leaves(n.right.value)| == |s|
  {
  }

  /** Every element of `ls` has a key at most that of every element of `rs`. */
  ghost predicate KeysOrdered<T>(key: T -> Ext, ls: seq<T>, rs: seq<T>)
  {
    forall a, b | a in ls && b in rs :: key(a).Le(key(b))
  }

  /**
   * With numeric keys, every object of the left subtree has a centroid
   * coordinate on the split axis at most that of every object of the right
   * subtree.
   */
  lemma BuildSplitOrdered<T>(boundsOf: T -> Bounds3, areaOf: T -> real, s: seq<T>)
    requires |s| >= 3
    requires NumericKeys(CentroidKey(boundsOf, SplitAxis(boundsOf, s)), s)
    ensures var n := Build(boundsOf, areaOf, s);
      KeysOrdered(CentroidKey(boundsOf, SplitAxis(boundsOf, s)), Leaves(n.left.value), Leaves(n.right.value))
  {
    var key := CentroidKey(boundsOf, SplitAxis(boundsOf, s));
    var sorted := SortedForSplit(boundsOf, s);
    var mid := |s| / 2;
    var l, r := Build(boundsOf, areaOf, sorted[..mid]), Build(boundsOf, areaOf, sorted[mid..]);
    SortedHalvesOrdered(key, s, mid, Leaves(l), Leaves(r));
    BuildSplit(boundsOf, areaOf, s);
  }

  /**
   * After the sort, any permutation of the first `mid` objects is ordered
   * before any permutation of the rest.
   */
  lemma SortedHalvesOrdered<T>(key: T -> Ext, s: seq<T>, mid: int, ls: seq<T>, rs: seq<T>)
    requires NumericKeys(key, s) && 0 <= mid <= |s|
    requires multiset(ls) == multiset(Sort(key, s)[..mid])
    requires multiset(rs) == multiset(Sort(key, s)[mid..])
    ensures KeysOrdered(key, ls, rs)
  {
    var sorted := Sort(key, s);
    var lo, hi := sorted[..mid], sorted[mid..];
    SortSplits(key, s, mid);
    forall a, b | a in ls && b in rs
      ensures key(a).Le(key(b))
    {
      assert a in multiset(ls) && b in multiset(rs);
      InMultisetHasIndex(a, lo);
      InMultisetHasIndex(b, hi);
    }
  }

  /** The leaves of a built tree carry their object's box and area. */
  predicate LeavesCarry<T>(boundsOf: T -> Bounds3, areaOf: T -> real, n: BuildNode<T>)
    requires Shaped(n)
    decreases n
  {
    if n.obj.Some? then n.bounds == boundsOf(n.obj.value) && n.area == areaOf(n.obj.value)
    else LeavesCarry(boundsOf, areaOf, n.left.value) && LeavesCarry(boundsOf, areaOf, n.right.value)
  }

  /** Every interior node's box is the `Union` of its children's boxes. */
  predicate BoundsUnite<T>(n: BuildNode<T>)
    requires Shaped(n)
    decreases n
  {
    n.obj.Some? ||
    (n.bounds == Union(n.left.value.bounds, n.right.value.bounds)
     && BoundsUnite(n.left.value) && BoundsUnite(n.right.value))
  }

  lemma {:induction false} BuildCarries<T>(boundsOf: T -> Bounds3, areaOf: T -> real, s: seq<T>)
    requires |s| >= 1
    ensures LeavesCarry(boundsOf, areaOf, Build(boundsOf, areaOf, s))
    ensures BoundsUnite(Build(boundsOf, areaOf, s))
    decreases |s|
  {
    if |s| == 2 {
      BuildCarries(boundsOf, areaOf, [s[0]]);
      BuildCarries(boundsOf, areaOf, [s[1]]);
    } else if |s| >= 3 {
      var sorted := SortedForSplit(boundsOf, s);
      BuildCarries(boundsOf, areaOf, sorted[..|s| / 2]);
      BuildCarries(boundsOf, areaOf, sorted[|s| / 2..]);
    }
  }

  /** The areas of a sequence of objects. */
  function AreasOf<T>(areaOf: T -> real, s: seq<T>): (r: seq<real>)
    ensures |r| == |s|
    ensures forall i | 0 <= i < |s| :: r[i] == areaOf(s[i])
  {
    if |s| == 0 then [] else [areaOf(s[0])] + AreasOf(areaOf, s[1..])
  }

  lemma AreasOfAppend<T>(areaOf: T -> real, a: seq<T>, b: seq<T>)
    ensures AreasOf(areaOf, a + b) == AreasOf(areaOf, a) + AreasOf(areaOf, b)
  {
  }

  /** The area sum over two concatenated lists is the sum of their area sums. */
  lemma SumAreasAppend<T>(areaOf: T -> real, a: seq<T>, b: seq<T>)
    ensures SumReals(AreasOf(areaOf, a + b)) == SumReals(AreasOf(areaOf, a)) + SumReals(AreasOf(areaOf, b))
  {
    AreasOfAppend(areaOf, a, b);
    SumRealsAppend(AreasOf(areaOf, a), AreasOf(areaOf, b));
  }

  /** A list headed by `x` sums to `x`'s area plus the rest. */
  lemma SumAreasCons<T>(areaOf: T -> real, x: T, s: seq<T>)
    ensures SumReals(AreasOf(areaOf, [x] + s)) == areaOf(x) + SumReals(AreasOf(areaOf, s))
  {
    assert ([x] + s)[1..] == s;
  }

  /** An object between two lists adds exactly its area to their sum. */
  lemma SumAreasAround<T>(areaOf: T -> real, front: seq<T>, x: T, back: seq<T>)
    ensures SumReals(AreasOf(areaOf, front + ([x] + back))) == areaOf(x) + SumReals(AreasOf(areaOf, front + back))
  {
    SumAreasAppend(areaOf, front, [x] + back);
    SumAreasCons(areaOf, x, back);
    SumAreasAppend(areaOf, front, back);
  }

  /** A list is the part before position `k`, the element there, and the part after. */
  lemma SplitAround<T>(b: seq<T>, k: int)
    requires 0 <= k < |b|
    ensures b == b[..k] + ([b[k]] + b[k + 1..])
  {
    assert b[..k] + ([b[k]] + b[k + 1..]) == b[..k + 1] + b[k + 1..];
  }

  /** Taking one object out of the sum takes out exactly its area. */
  lemma SumAreasRemove<T>(areaOf: T -> real, b: seq<T>, k: int)
    requires 0 <= k < |b|
    ensures SumReals(AreasOf(areaOf, b)) == areaOf(b[k]) + SumReals(AreasOf(areaOf, b[..k] + b[k + 1..]))
  {
    SplitAround(b, k);
    SumAreasAround(areaOf, b[..k], b[k], b[k + 1..]);
  }

  /** Removing one occurrence of an element from both sides keeps two permutations equal. */
  lemma RemovePreservesPermutation<T>(a: seq<T>, b: seq<T>, k: int)
    requires |a| >= 1 && 0 <= k < |b| && b[k] == a[0]
    requires multiset(a) == multiset(b)
    ensures multiset(a[1..]) == multiset(b[..k] + b[k + 1..])
  {
    assert a == [a[0]] + a[1..];
    assert b == b[..k] + [b[k]] + b[k + 1..];
    assert multiset(a[1..]) == multiset(a) - multiset{a[0]};
    assert multiset(b[..k] + b[k + 1..]) == multiset(b) - multiset{a[0]};
  }

  /** Summing the areas does not depend on the order of the objects. */
  lemma {:induction false} SumAreasPermutation<T>(areaOf: T -> real, a: seq<T>, b: seq<T>)
    requires multiset(a) == multiset(b)
    ensures SumReals(AreasOf(areaOf, a)) == SumReals(AreasOf(areaOf, b))
    decreases |a|
  {
    if |a| == 0 {
      assert |b| == |multiset(b)| == 0;
    } else {
      assert a[0] in multiset(b);
      InMultisetHasIndex(a[0], b);
      var k :| 0 <= k < |b| && b[k] == a[0];
      RemovePreservesPermutation(a, b, k);
      SumAreasPermutation(areaOf, a[1..], b[..k] + b[k + 1..]);
      SumAreasRemove(areaOf, b, k);
      SumAreasRemove(areaOf, a, 0);
      assert a[..0] + a[1..] == a[1..];
    }
  }

  /** The leaf areas of a built tree are the objects' areas, leaf by leaf. */
  lemma {:induction false} LeafAreasAreObjectAreas<T>(boundsOf: T -> Bounds3, areaOf: T -> real, n: BuildNode<T>)
    requires Shaped(n) && LeavesCarry(boundsOf, areaOf, n)
    ensures LeafAreas(n) == AreasOf(areaOf, Leaves(n))
    decreases n
  {
    if n.obj.None? {
      LeafAreasAreObjectAreas(boundsOf, areaOf, n.left.value);
      LeafAreasAreObjectAreas(boundsOf, areaOf, n.right.value);
      AreasOfAppend(areaOf, Leaves(n.left.value), Leaves(n.right.value));
    }
  }

  /** The root's area is the sum of the areas of all input objects. */
  lemma BuildAreaIsSum<T>(boundsOf: T -> Bounds3, areaOf: T -> real, s: seq<T>)
    requires |s| >= 1
    ensures Build(boundsOf, areaOf, s).area == SumReals(AreasOf(areaOf, s))
  {
    var n := Build(boundsOf, areaOf, s);
    AreaIsLeafSum(n);
    BuildCarries(boundsOf, areaOf, s);
    LeafAreasAreObjectAreas(boundsOf, areaOf, n);
    SumAreasPermutation(areaOf, Leaves(n), s);
  }

  /** The built tree has one leaf per object and one fewer interior node. */
  lemma BuildCounts<T>(boundsOf: T -> Bounds3, areaOf: T -> real, s: seq<T>)
    requires |s| >= 1
    ensures |Leaves(Build(boundsOf, areaOf, s))| == |s|
    ensures InteriorCount(Build(boundsOf, areaOf, s)) == |s| - 1
  {
    InteriorCountIsLeavesMinusOne(Build(boundsOf, areaOf, s));
  }

  /**
   * The centroid fold keeps the -infinity pMax of the default box, and its
   * pMin is finite once a finite centroid has been added.
   */
  lemma {:induction false} CentroidBoxFromKeepsMax<T>(boundsOf: T -> Bounds3, b: Bounds3, s: seq<T>)
    requires b.pMax == Splat(NegInf)
    requires b.pMin.IsFinite() || b.pMin == Splat(PosInf)
    requires forall i | 0 <= i < |s| :: IsFinite(boundsOf(s[i]))
    ensures CentroidBoxFrom(boundsOf, b, s).pMax == Splat(NegInf)
    ensures b.pMin.IsFinite() || |s| >= 1 ==> CentroidBoxFrom(boundsOf, b, s).pMin.IsFinite()
    ensures |s| == 0 ==> CentroidBoxFrom(boundsOf, b, s) == b
    decreases |s|
  {
    if |s| > 0 {
      CentroidIsMidpoint(boundsOf(s[0]));
      var c := Centroid(boundsOf(s[0]));
      var b' := UnionPoint(b, c);
      assert b'.pMax == Splat(NegInf);
      assert b'.pMin.IsFinite();
      CentroidBoxFromKeepsMax(boundsOf, b', s[1..]);
    }
  }

  /**
   * Because the point `Union` keeps the smaller pMax, the centroid box of
   * finite objects never leaves the default -infinity pMax, its diagonal is
   * -infinity on every axis, and the builder always sorts on axis 2.
   */
  lemma SplitAxisIsAlwaysZ<T>(boundsOf: T -> Bounds3, s: seq<T>)
    requires |s| >= 1
    requires forall i | 0 <= i < |s| :: IsFinite(boundsOf(s[i]))
    ensures CentroidBox(boundsOf, s).pMax == Splat(NegInf)
    ensures SplitAxis(boundsOf, s) == 2
  {
    CentroidBoxFromKeepsMax(boundsOf, Default(), s);
    MaxExtentOfNegativeInfiniteMax(CentroidBox(boundsOf, s));
  }

  /**
   * The accelerator constructor: the leaf capacity is clamped to 255, the
   * objects are kept, and the tree is built only from a non-empty list.
   */
  function NewAccel<T>(boundsOf: T -> Bounds3, areaOf: T -> real, p: seq<T>,
                       maxPrimsInNode: int := 1, splitMethod: SplitMethod := Naive): (a: Accel<T>)
    ensures a.maxPrimsInNode == ClampPrims(maxPrimsInNode) && a.maxPrimsInNode <= 255
    ensures a.splitMethod == splitMethod && a.primitives == p
    ensures a.root.None? <==> |p| == 0
    ensures a.root.Some? ==> Shaped(a.root.value) && multiset(Leaves(a.root.value)) == multiset(p)
  {
    Accel(if |p| == 0 then None else Some(Build(boundsOf, areaOf, p)), ClampPrims(maxPrimsInNode), splitMethod, p)
  }

  /** With the defaults the capacity is 1 and the split method is the naive one. */
  lemma NewAccelDefaults<T>(boundsOf: T -> Bounds3, areaOf: T -> real, p: seq<T>)
    ensures NewAccel(boundsOf, areaOf, p).maxPrimsInNode == 1
    ensures NewAccel(boundsOf, areaOf, p).splitMethod == Naive
    ensures NewAccel(boundsOf, areaOf, p).root.Some? ==>
      NewAccel(boundsOf, areaOf, p).root.value == Build(boundsOf, areaOf, p)
  {
  }
}
