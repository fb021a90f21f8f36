/**
 * The BVH node record and the accelerator record, with the structural
 * predicates and measures the build and query proofs are stated in.
 */
module BvhNodes {
  import opened Wrappers
  import opened Floats
  import opened Bounds

  /** How the accelerator splits a node; only the naive median split is implemented. */
  datatype SplitMethod = Naive | Sah

  /**
   * A BVH node: its box, optional children, optional object, summed area,
   * and three counters the builder never changes from their defaults.
   */
  datatype BuildNode<T> = BuildNode(
    bounds: Bounds3,
    left: Option<BuildNode<T>>,
    right: Option<BuildNode<T>>,
    obj: Option<T>,
    area: real,
    splitAxis: int,
    firstPrimOffset: int,
    nPrimitives: int)

  /**
   * A fresh node: default box, no children, no object, counters at 0. The
   * area is not initialised by the constructor; it is 0 here.
   */
  function NewNode<T>(): (n: BuildNode<T>)
    ensures n.bounds == Default()
    ensures n.left.None? && n.right.None? && n.obj.None?
    ensures n.splitAxis == 0 && n.firstPrimOffset == 0 && n.nPrimitives == 0
  {
    BuildNode(Default(), None, None, None, 0.0, 0, 0, 0)
  }

  /**
   * The shape every built node has: a leaf holds an object and no children,
   * an interior node holds two children and no object. On such a tree the
   * leaf test of intersection (object present) and the leaf test of
   * sampling (a child missing) agree.
   */
  predicate Shaped<T>(n: BuildNode<T>)
    decreases n
  {
    if n.obj.Some? then n.left.None? && n.right.None?
    else n.left.Some? && n.right.Some? && Shaped(n.left.value) && Shaped(n.right.value)
  }

  /** Every interior node's area is the sum of its children's areas. */
  predicate AreasAdd<T>(n: BuildNode<T>)
    requires Shaped(n)
    decreases n
  {
    n.obj.Some? ||
    (n.area == n.left.value.area + n.right.value.area
     && AreasAdd(n.left.value) && AreasAdd(n.right.value))
  }

  /** The three counters keep their default 0 throughout the tree. */
  predicate CountersUnset<T>(n: BuildNode<T>)
    requires Shaped(n)
    decreases n
  {
    n.splitAxis == 0 && n.firstPrimOffset == 0 && n.nPrimitives == 0
    && (n.obj.None? ==> CountersUnset(n.left.value) && CountersUnset(n.right.value))
  }

  /** The objects of the leaves, left to right. */
  function Leaves<T>(n: BuildNode<T>): (s: seq<T>)
    requires Shaped(n)
    ensures |s| >= 1
    decreases n
  {
    if n.obj.Some? then [n.obj.value] else Leaves(n.left.value) + Leaves(n.right.value)
  }

  /** The number of interior nodes. */
  function InteriorCount<T>(n: BuildNode<T>): nat
    requires Shaped(n)
    decreases n
  {
    if n.obj.Some? then 0 else 1 + InteriorCount(n.left.value) + InteriorCount(n.right.value)
  }

  /** A binary tree with k leaves has k - 1 interior nodes. */
  lemma {:induction false} InteriorCountIsLeavesMinusOne<T>(n: BuildNode<T>)
    requires Shaped(n)
    ensures InteriorCount(n) == |Leaves(n)| - 1
    decreases n
  {
    if n.obj.None? {
      InteriorCountIsLeavesMinusOne(n.left.value);
      InteriorCountIsLeavesMinusOne(n.right.value);
    }
  }

  /** Sum of a sequence of reals. */
  function SumReals(s: seq<real>): real
  {
    if |s| == 0 then 0.0 else s[0] + SumReals(s[1..])
  }

  lemma {:induction false} SumRealsAppend(a: seq<real>, b: seq<real>)
    ensures SumReals(a + b) == SumReals(a) + SumReals(b)
  {
    if |a| == 0 {
      assert a + b == b;
    } else {
      assert (a + b)[1..] == a[1..] + b;
      SumRealsAppend(a[1..], b);
    }
  }

  /** The areas stored in the leaves, left to right. */
  function LeafAreas<T>(n: BuildNode<T>): (s: seq<real>)
    requires Shaped(n)
    ensures |s| == |Leaves(n)|
    decreases n
  {
    if n.obj.Some? then [n.area] else LeafAreas(n.left.value) + LeafAreas(n.right.value)
  }

  /** When areas add up, the root's area is the sum of the leaves' areas. */
  lemma {:induction false} AreaIsLeafSum<T>(n: BuildNode<T>)
    requires Shaped(n) && AreasAdd(n)
    ensures n.area == SumReals(LeafAreas(n))
    decreases n
  {
    if n.obj.Some? {
      assert LeafAreas(n) == [n.area];
      assert LeafAreas(n)[1..] == [];
    } else {
      AreaIsLeafSum(n.left.value);
      AreaIsLeafSum(n.right.value);
      SumRealsAppend(LeafAreas(n.left.value), LeafAreas(n.right.value));
    }
  }

  /**
   * The accelerator: its root (absent when it was given no objects), the
   * clamped leaf capacity, the split method and the object list it owns.
   */
  datatype Accel<T> = Accel(root: Option<BuildNode<T>>, maxPrimsInNode: int, splitMethod: SplitMethod, primitives: seq<T>)

  /** `std::min(255, maxPrimsInNode)`. */
  function ClampPrims(requested: int): (r: int)
    ensures r <= 255
    ensures r == requested || r == 255
    ensures requested <= 255 ==> r == requested
  {
    if requested < 255 then requested else 255
  }
}
