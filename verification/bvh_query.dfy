/**
 * Queries on a built BVH: the nearest-hit traversal and the area-weighted
 * descent that picks a leaf to sample. Objects are abstract; a query sees
 * them only through the intersection and sampling routines it is given.
 */
module BvhQuery {
  import opened Wrappers
  import opened Floats
  import opened Vectors
  import opened Rays
  import opened Bounds
  import opened BvhNodes
  import opened Intersections

  /** The box test a node runs: the slab test with the ray's inverse direction and its positive-direction flags. */
  predicate HitsBox(b: Bounds3, ray: Ray)
  {
    IntersectP(b, ray, ray.directionInv, PositiveFlags(ray.direction))
  }

  /**
   * `getIntersection`: a missed box yields the default record, a leaf asks
   * its object, and an interior node keeps the left result unless the right
   * one is strictly nearer.
   */
  function GetIntersection<T, O>(n: BuildNode<T>, ray: Ray, isect: (T, Ray) -> Intersection<O>): (r: Intersection<O>)
    requires Shaped(n)
    ensures !HitsBox(n.bounds, ray) ==> r == Empty()
    ensures HitsBox(n.bounds, ray) && n.obj.Some? ==> r == isect(n.obj.value, ray)
    decreases n
  {
    if !HitsBox(n.bounds, ray) then Empty()
    else if n.obj.Some? then isect(n.obj.value, ray)
    else
      var l := GetIntersection(n.left.value, ray, isect);
      var r := GetIntersection(n.right.value, ray, isect);
      if l.distance <= r.distance then l else r
  }

  /**
   * The records the traversal compares, left to right: the default record
   * for each pruned subtree and the object's record for each reached leaf.
   */
  function Candidates<T, O>(n: BuildNode<T>, ray: Ray, isect: (T, Ray) -> Intersection<O>): (c: seq<Intersection<O>>)
    requires Shaped(n)
    ensures 1 <= |c| <= |Leaves(n)|
    decreases n
  {
    if !HitsBox(n.bounds, ray) then [Empty()]
    else if n.obj.Some? then [isect(n.obj.value, ray)]
    else Candidates(n.left.value, ray, isect) + Candidates(n.right.value, ray, isect)
  }

  /** The first record of least distance: the reference the traversal is measured against. */
  function Nearest<O>(s: seq<Intersection<O>>): (r: Intersection<O>)
    requires |s| >= 1
    ensures r in s
    ensures forall i | 0 <= i < |s| :: r.distance <= s[i].distance
    decreases |s|
  {
    if |s| == 1 then s[0]
    else
      var rest := Nearest(s[1..]);
      if s[0].distance <= rest.distance then s[0] else rest
  }

  /** `k` is the first position holding the least distance of `s`. */
  predicate IsFirstNearest<O>(s: seq<Intersection<O>>, k: int)
  {
    0 <= k < |s|
    && (forall j | 0 <= j < |s| :: s[k].distance <= s[j].distance)
    && (forall j | 0 <= j < k :: s[j].distance > s[k].distance)
  }

  /** `Nearest` returns the record at the first position of least distance. */
  lemma {:induction false} NearestIsFirst<O>(s: seq<Intersection<O>>)
    requires |s| >= 1
    ensures exists k :: IsFirstNearest(s, k) && s[k] == Nearest(s)
    decreases |s|
  {
    if |s| == 1 {
      assert IsFirstNearest(s, 0);
    } else {
      var t := s[1..];
      NearestIsFirst(t);
      var k :| IsFirstNearest(t, k) && t[k] == Nearest(t);
      if s[0].distance <= Nearest(t).distance {
        assert Nearest(s) == s[0];
        assert IsFirstNearest(s, 0);
      } else {
        assert Nearest(s) == t[k] == s[k + 1];
        assert IsFirstNearest(s, k + 1) by {
          forall j | 0 <= j < k + 1
            ensures s[j].distance > s[k + 1].distance
          {
            if j > 0 {
              assert s[j] == t[j - 1];
            }
          }
        }
      }
    }
  }

  /** The nearest record of a concatenation, preferring the left part on a tie. */
  lemma {:induction false} NearestAppend<O>(a: seq<Intersection<O>>, b: seq<Intersection<O>>)
    requires |a| >= 1 && |b| >= 1
    ensures var na, nb := Nearest(a), Nearest(b);
      Nearest(a + b) == if na.distance <= nb.distance then na else nb
    decreases |a|
  {
    assert (a + b)[0] == a[0];
    if |a| == 1 {
      assert (a + b)[1..] == b;
    } else {
      assert (a + b)[1..] == a[1..] + b;
      NearestAppend(a[1..], b);
    }
  }

  /** The traversal returns the first nearest of the records it compares. */
  lemma {:induction false} GetIntersectionIsNearest<T, O>(n: BuildNode<T>, ray: Ray, isect: (T, Ray) -> Intersection<O>)
    requires Shaped(n)
    ensures GetIntersection(n, ray, isect) == Nearest(Candidates(n, ray, isect))
    decreases n
  {
    if HitsBox(n.bounds, ray) && n.obj.None? {
      GetIntersectionIsNearest(n.left.value, ray, isect);
      GetIntersectionIsNearest(n.right.value, ray, isect);
      NearestAppend(Candidates(n.left.value, ray, isect), Candidates(n.right.value, ray, isect));
    }
  }

  /** Every box of the tree passes the slab test. */
  predicate AllBoxesHit<T>(n: BuildNode<T>, ray: Ray)
    requires Shaped(n)
    decreases n
  {
    HitsBox(n.bounds, ray)
    && (n.obj.None? ==> AllBoxesHit(n.left.value, ray) && AllBoxesHit(n.right.value, ray))
  }

  /** Each object's own record, in the given order. */
  function HitsOf<T, O>(s: seq<T>, ray: Ray, isect: (T, Ray) -> Intersection<O>): (r: seq<Intersection<O>>)
    ensures |r| == |s|
    ensures forall i | 0 <= i < |s| :: r[i] == isect(s[i], ray)
  {
    if |s| == 0 then [] else [isect(s[0], ray)] + HitsOf(s[1..], ray, isect)
  }

  lemma HitsOfAppend<T, O>(a: seq<T>, b: seq<T>, ray: Ray, isect: (T, Ray) -> Intersection<O>)
    ensures HitsOf(a + b, ray, isect) == HitsOf(a, ray, isect) + HitsOf(b, ray, isect)
  {
  }

  /** When no box prunes the ray, the records compared are exactly the leaves' records. */
  lemma {:induction false} UnprunedCandidates<T, O>(n: BuildNode<T>, ray: Ray, isect: (T, Ray) -> Intersection<O>)
    requires Shaped(n) && AllBoxesHit(n, ray)
    ensures Candidates(n, ray, isect) == HitsOf(Leaves(n), ray, isect)
    decreases n
  {
    if n.obj.None? {
      UnprunedCandidates(n.left.value, ray, isect);
      UnprunedCandidates(n.right.value, ray, isect);
      HitsOfAppend(Leaves(n.left.value), Leaves(n.right.value), ray, isect);
    }
  }

  /**
   * When no box prunes the ray, the traversal agrees with a brute-force scan:
   * the record of the first leaf whose distance is least.
   */
  lemma TraversalMatchesScan<T, O>(n: BuildNode<T>, ray: Ray, isect: (T, Ray) -> Intersection<O>)
    requires Shaped(n) && AllBoxesHit(n, ray)
    ensures GetIntersection(n, ray, isect) == Nearest(HitsOf(Leaves(n), ray, isect))
    ensures exists k :: 0 <= k < |Leaves(n)| && GetIntersection(n, ray, isect) == isect(Leaves(n)[k], ray)
  {
    GetIntersectionIsNearest(n, ray, isect);
    UnprunedCandidates(n, ray, isect);
  }

  /** Each candidate is the default record or some leaf object's record. */
  lemma {:induction false} CandidatesFromLeaves<T, O>(n: BuildNode<T>, ray: Ray, isect: (T, Ray) -> Intersection<O>, i: int)
    requires Shaped(n) && 0 <= i < |Candidates(n, ray, isect)|
    ensures var c := Candidates(n, ray, isect)[i];
      c == Empty() || exists o :: o in Leaves(n) && c == isect(o, ray)
    decreases n
  {
    if HitsBox(n.bounds, ray) && n.obj.None? {
      var cl := Candidates(n.left.value, ray, isect);
      if i < |cl| {
        CandidatesFromLeaves(n.left.value, ray, isect, i);
      } else {
        CandidatesFromLeaves(n.right.value, ray, isect, i - |cl|);
      }
    }
  }

  /** The traversal's answer is the default record or some leaf object's own record. */
  lemma GetIntersectionFromLeaf<T, O>(n: BuildNode<T>, ray: Ray, isect: (T, Ray) -> Intersection<O>)
    requires Shaped(n)
    ensures var r := GetIntersection(n, ray, isect);
      r == Empty() || exists o :: o in Leaves(n) && r == isect(o, ray)
  {
    GetIntersectionIsNearest(n, ray, isect);
    var c := Candidates(n, ray, isect);
    var k :| 0 <= k < |c| && c[k] == Nearest(c);
    CandidatesFromLeaves(n, ray, isect, k);
  }

  /** `BVHAccel::Intersect`: the default record without a root, otherwise the traversal from the root. */
  function Intersect<T, O>(a: Accel<T>, ray: Ray, isect: (T, Ray) -> Intersection<O>): (r: Intersection<O>)
    requires a.root.Some? ==> Shaped(a.root.value)
    ensures a.root.None? ==> r == Empty()
    ensures a.root.Some? ==> r == Nearest(Candidates(a.root.value, ray, isect))
  {
    if a.root.None? then Empty()
    else
      GetIntersectionIsNearest(a.root.value, ray, isect);
      GetIntersection(a.root.value, ray, isect)
  }

  /**
   * `getSample`: at a node missing a child the object samples itself and
   * the pdf is scaled by the node's area; otherwise the descent goes left
   * when `p` is below the left area and right with the left area taken off.
   */
  function GetSample<T, O>(n: BuildNode<T>, p: real, sampleOf: T -> Sampled<O>): (s: Sampled<O>)
    requires Shaped(n)
    ensures n.obj.Some? ==> s.pos == sampleOf(n.obj.value).pos && s.pdf == sampleOf(n.obj.value).pdf * n.area
    decreases n
  {
    if n.left.None? || n.right.None? then
      var o := sampleOf(n.obj.value);
      Sampled(o.pos, Product(o.pdf, n.area))
    else if p < n.left.value.area then GetSample(n.left.value, p, sampleOf)
    else GetSample(n.right.value, p - n.left.value.area, sampleOf)
  }

  /**
   * The reference choice over a list of areas: the first position where the
   * running total exceeds `p`, or the last position when none does.
   */
  function PickLeaf(areas: seq<real>, p: real): (k: nat)
    requires |areas| >= 1
    ensures k < |areas|
    decreases |areas|
  {
    if |areas| == 1 || p < areas[0] then 0 else 1 + PickLeaf(areas[1..], p - areas[0])
  }

  predicate NonNegative(areas: seq<real>)
  {
    forall i | 0 <= i < |areas| :: areas[i] >= 0.0
  }

  /**
   * The chosen position brackets `p`: the areas before it sum to at most
   * `p`, and, unless it is the last, the areas through it sum to more.
   */
  lemma {:induction false} PickLeafBrackets(areas: seq<real>, p: real)
    requires |areas| >= 1
    ensures var k := PickLeaf(areas, p);
      (k > 0 ==> SumReals(areas[..k]) <= p)
      && (k < |areas| - 1 ==> p < SumReals(areas[..k + 1]))
    decreases |areas|
  {
    var k := PickLeaf(areas, p);
    if k > 0 {
      var t := areas[1..];
      PickLeafBrackets(t, p - areas[0]);
      assert areas[..k] == [areas[0]] + t[..k - 1];
      assert areas[..k + 1] == [areas[0]] + t[..k] by {
        if k < |areas| - 1 {
          assert |t| >= k;
        }
      }
    } else if |areas| > 1 {
      assert areas[..1] == [areas[0]];
      assert areas[..1][1..] == [];
    }
  }

  /** Choosing over two concatenated lists chooses in the first when `p` is below its total. */
  lemma {:induction false} PickLeafAppend(a: seq<real>, b: seq<real>, p: real)
    requires |a| >= 1 && |b| >= 1 && NonNegative(a)
    ensures p < SumReals(a) ==> PickLeaf(a + b, p) == PickLeaf(a, p)
    ensures p >= SumReals(a) ==> PickLeaf(a + b, p) == |a| + PickLeaf(b, p - SumReals(a))
    decreases |a|
  {
    assert (a + b)[0] == a[0];
    assert (a + b)[1..] == a[1..] + b;
    if |a| == 1 {
      assert a[1..] == [];
      assert SumReals(a) == a[0];
    } else {
      SumRealsNonNegative(a[1..]);
      assert NonNegative(a[1..]);
      PickLeafAppend(a[1..], b, p - a[0]);
    }
  }

  lemma {:induction false} SumRealsNonNegative(s: seq<real>)
    requires NonNegative(s)
    ensures SumReals(s) >= 0.0
    decreases |s|
  {
    if |s| > 0 {
      assert NonNegative(s[1..]);
      SumRealsNonNegative(s[1..]);
    }
  }

  /** The sample a tree yields at leaf position `k`: that object's sample with its pdf scaled by the leaf's area. */
  function LeafSample<T, O>(n: BuildNode<T>, k: int, sampleOf: T -> Sampled<O>): Sampled<O>
    requires Shaped(n) && 0 <= k < |Leaves(n)|
  {
    var o := sampleOf(Leaves(n)[k]);
    Sampled(o.pos, Product(o.pdf, LeafAreas(n)[k]))
  }

  /** A leaf position of an interior node is a leaf position of one of its children. */
  lemma LeafPositionSplit<T>(n: BuildNode<T>, k: int)
    requires Shaped(n) && n.obj.None? && 0 <= k < |Leaves(n)|
    ensures var l, r, nl := n.left.value, n.right.value, |Leaves(n.left.value)|;
      (k < nl ==> Leaves(n)[k] == Leaves(l)[k] && LeafAreas(n)[k] == LeafAreas(l)[k])
      && (k >= nl ==> Leaves(n)[k] == Leaves(r)[k - nl] && LeafAreas(n)[k] == LeafAreas(r)[k - nl])
  {
    var l, r := n.left.value, n.right.value;
    assert Leaves(n) == Leaves(l) + Leaves(r);
    assert LeafAreas(n) == LeafAreas(l) + LeafAreas(r);
  }

  /** The children of a node with non-negative leaf areas have non-negative leaf areas. */
  lemma NonNegativeChildren<T>(n: BuildNode<T>)
    requires Shaped(n) && n.obj.None? && NonNegative(LeafAreas(n))
    ensures NonNegative(LeafAreas(n.left.value)) && NonNegative(LeafAreas(n.right.value))
  {
    var al, ar := LeafAreas(n.left.value), LeafAreas(n.right.value);
    assert LeafAreas(n) == al + ar;
    forall i | 0 <= i < |al| ensures al[i] >= 0.0 {
      assert al[i] == LeafAreas(n)[i];
    }
    forall i | 0 <= i < |ar| ensures ar[i] >= 0.0 {
      assert ar[i] == LeafAreas(n)[|al| + i];
    }
  }

  /**
   * On a tree whose areas add up and are non-negative, the descent samples
   * the leaf the reference choice picks over the leaves' areas.
   */
  lemma {:induction false} GetSampleIsPick<T, O>(n: BuildNode<T>, p: real, sampleOf: T -> Sampled<O>)
    requires Shaped(n) && AreasAdd(n) && NonNegative(LeafAreas(n))
    ensures GetSample(n, p, sampleOf) == LeafSample(n, PickLeaf(LeafAreas(n), p), sampleOf)
    decreases n
  {
    if n.obj.Some? {
      assert PickLeaf(LeafAreas(n), p) == 0;
    } else {
      var l, r := n.left.value, n.right.value;
      var al, ar := LeafAreas(l), LeafAreas(r);
      assert LeafAreas(n) == al + ar;
      NonNegativeChildren(n);
      AreaIsLeafSum(l);
      PickLeafAppend(al, ar, p);
      var k := PickLeaf(LeafAreas(n), p);
      LeafPositionSplit(n, k);
      if p < l.area {
        GetSampleIsPick(l, p, sampleOf);
        assert GetSample(n, p, sampleOf) == GetSample(l, p, sampleOf);
        assert k == PickLeaf(al, p);
      } else {
        GetSampleIsPick(r, p - l.area, sampleOf);
        assert GetSample(n, p, sampleOf) == GetSample(r, p - l.area, sampleOf);
        assert k == |al| + PickLeaf(ar, p - l.area);
      }
    }
  }

  /** What `Sample` hands back: the sampled record and its pdf after the division by the total area. */
  datatype Drawn<O> = Drawn(pos: Intersection<O>, pdf: Ext)

  /**
   * `BVHAccel::Sample`. The random draw `sqrt(get_random_float())` is the
   * parameter `u`; the descent starts at `u` times the root's area, and the
   * pdf is divided by the root's area with float semantics. The source
   * dereferences the root unconditionally, so a root is required.
   */
  function Sample<T, O>(a: Accel<T>, u: real, sampleOf: T -> Sampled<O>): (d: Drawn<O>)
    requires a.root.Some? && Shaped(a.root.value)
    ensures d.pos == GetSample(a.root.value, Product(u, a.root.value.area), sampleOf).pos
    ensures a.root.value.area != 0.0 ==>
      d.pdf == Fin(GetSample(a.root.value, Product(u, a.root.value.area), sampleOf).pdf / a.root.value.area)
    ensures a.root.value.area == 0.0 && GetSample(a.root.value, Product(u, a.root.value.area), sampleOf).pdf > 0.0 ==>
      d.pdf == PosInf
  {
    var s := GetSample(a.root.value, Product(u, a.root.value.area), sampleOf);
    Drawn(s.pos, Fin(s.pdf).Div(Fin(a.root.value.area)))
  }

  /** Each leaf object reports a pdf of one over its leaf's area. */
  predicate InverseAreaLeaves<T, O>(n: BuildNode<T>, sampleOf: T -> Sampled<O>)
    requires Shaped(n)
  {
    forall i | 0 <= i < |Leaves(n)| :: Product(sampleOf(Leaves(n)[i]).pdf, LeafAreas(n)[i]) == 1.0
  }

  /**
   * When every leaf object reports one over its leaf's area, the pdf value the
   * descent hands back is one wherever it lands.
   */
  lemma GetSamplePdfIsOne<T, O>(n: BuildNode<T>, p: real, sampleOf: T -> Sampled<O>)
    requires Shaped(n) && AreasAdd(n) && NonNegative(LeafAreas(n)) && InverseAreaLeaves(n, sampleOf)
    ensures GetSample(n, p, sampleOf).pdf == 1.0
  {
    GetSampleIsPick(n, p, sampleOf);
    var k := PickLeaf(LeafAreas(n), p);
    assert Product(sampleOf(Leaves(n)[k]).pdf, LeafAreas(n)[k]) == 1.0;
  }

  /**
   * When every object reports a pdf of one over its area, the pdf value the
   * accelerator reports is one over the total area, whichever leaf was chosen.
   * This is a statement about the reported value only: the square-rooted
   * draw does not choose leaves in proportion to their areas (see
   * `SqrtDrawSkewsChoice`), so the value is not the density of the draw.
   */
  lemma SamplePdfIsInverseArea<T, O>(a: Accel<T>, u: real, sampleOf: T -> Sampled<O>)
    requires a.root.Some? && Shaped(a.root.value) && AreasAdd(a.root.value)
    requires NonNegative(LeafAreas(a.root.value)) && InverseAreaLeaves(a.root.value, sampleOf)
    requires a.root.value.area != 0.0
    ensures Sample(a, u, sampleOf).pdf == Fin(1.0 / a.root.value.area)
  {
    var s := GetSample(a.root.value, Product(u, a.root.value.area), sampleOf);
    GetSamplePdfIsOne(a.root.value, Product(u, a.root.value.area), sampleOf);
    assert Sample(a, u, sampleOf).pdf == Fin(s.pdf / a.root.value.area);
  }

  // ----- Leaf choice of the draw -----

  /** The areas before position `i` sum to no more than those before a later position `j`. */
  lemma PrefixSumMonotone(areas: seq<real>, i: int, j: int)
    requires NonNegative(areas) && 0 <= i <= j <= |areas|
    ensures SumReals(areas[..i]) <= SumReals(areas[..j])
  {
    assert areas[..j] == areas[..i] + areas[i..j];
    SumRealsAppend(areas[..i], areas[i..j]);
    assert NonNegative(areas[i..j]) by {
      forall t | 0 <= t < j - i ensures areas[i..j][t] >= 0.0 {
        assert areas[i..j][t] == areas[i + t];
      }
    }
    SumRealsNonNegative(areas[i..j]);
  }

  /** One more position adds exactly that position's area. */
  lemma PrefixSumStep(areas: seq<real>, k: int)
    requires 0 <= k < |areas|
    ensures SumReals(areas[..k + 1]) == SumReals(areas[..k]) + areas[k]
  {
    assert areas[..k + 1] == areas[..k] + [areas[k]];
    SumRealsAppend(areas[..k], [areas[k]]);
    assert [areas[k]][1..] == [];
  }

  /**
   * Over non-negative areas and a point inside the total, the choice is `k`
   * exactly when the point lies in `k`'s bracket, an interval whose length
   * is `k`'s area. A draw spread evenly over the total therefore picks each
   * position in proportion to its area.
   */
  lemma PickLeafExactly(areas: seq<real>, p: real, k: int)
    requires |areas| >= 1 && NonNegative(areas) && 0.0 <= p < SumReals(areas) && 0 <= k < |areas|
    ensures PickLeaf(areas, p) == k <==> SumReals(areas[..k]) <= p < SumReals(areas[..k + 1])
    ensures SumReals(areas[..k + 1]) - SumReals(areas[..k]) == areas[k]
  {
    PrefixSumStep(areas, k);
    var j := PickLeaf(areas, p);
    PickLeafBrackets(areas, p);
    assert areas[..0] == [];
    assert areas[..|areas|] == areas;
    assert SumReals(areas[..j]) <= p < SumReals(areas[..j + 1]);
    if j < k {
      PrefixSumMonotone(areas, j + 1, k);
    } else if j > k {
      PrefixSumMonotone(areas, k + 1, j);
    }
  }

  /** With a non-negative draw `u` below one half, the product with 3 stays below 1.5, and not otherwise. */
  lemma HalfOfSquare(u: real)
    requires 0.0 <= u
    ensures u < 0.5 <==> u * u < 0.25
  {
    if u < 0.5 {
      assert u * u <= u * 0.5;
    } else {
      assert u * u >= u * 0.5;
    }
  }

  /**
   * `BVHAccel::Sample` descends at `sqrt(r)` times the total area for a raw
   * draw `r`, so a leaf is not chosen in proportion to its area. Over two
   * leaves of equal area, the first is chosen exactly for the raw draws
   * below one quarter, not for those below one half.
   */
  lemma SqrtDrawSkewsChoice(r: real, u: real)
    requires 0.0 <= r <= 1.0 && 0.0 <= u && u * u == r
    ensures PickLeaf([1.5, 1.5], Product(u, 3.0)) == 0 <==> r < 0.25
  {
    HalfOfSquare(u);
    assert PickLeaf([1.5, 1.5], Product(u, 3.0)) == 0 <==> u * 3.0 < 1.5;
  }

  /**
   * Scaling by a positive total: a choice made on `[below, through)` of the
   * scaled draw is made on that interval divided by the total, whose length
   * is the interval's over the total.
   */
  lemma ScaledBracket(chosen: bool, r: real, total: real, below: real, through: real)
    requires total > 0.0
    requires chosen <==> below <= Product(r, total) < through
    ensures chosen <==> below / total <= r < through / total
    ensures through / total - below / total == (through - below) / total
  {
    assert Product(r, total) == r * total;
    assert r * total - below == (r - below / total) * total;
    assert through - r * total == (through / total - r) * total;
  }

  /** A draw in `[0, 1)` times a positive total lies in `[0, total)`. */
  lemma DrawInsideTotal(r: real, total: real)
    requires 0.0 <= r < 1.0 && total > 0.0
    ensures 0.0 <= Product(r, total) < total
  {
    var gap := 1.0 - r;
    assert total - r * total == gap * total;
    assert gap * total > 0.0;
  }

  /**
   * A raw draw `r` in `[0, 1)` times the total of non-negative areas picks
   * position `k` exactly when `r` lies in an interval whose length is `k`'s
   * share of the total.
   */
  lemma DrawPicksByShare(areas: seq<real>, r: real, k: int)
    requires |areas| >= 1 && NonNegative(areas) && SumReals(areas) > 0.0
    requires 0.0 <= r < 1.0 && 0 <= k < |areas|
    ensures var total := SumReals(areas);
      var lo, hi := SumReals(areas[..k]) / total, SumReals(areas[..k + 1]) / total;
      && (PickLeaf(areas, Product(r, total)) == k <==> lo <= r < hi)
      && hi - lo == areas[k] / total
  {
    var total := SumReals(areas);
    var p := Product(r, total);
    DrawInsideTotal(r, total);
    PickLeafExactly(areas, p, k);
    ScaledBracket(PickLeaf(areas, p) == k, r, total, SumReals(areas[..k]), SumReals(areas[..k + 1]));
  }

  /**
   * The descent with the draw unrooted: a raw draw `r` in `[0, 1)` times the
   * total area lands on leaf `k` exactly when `r` lies in an interval of
   * length `k`'s area over the total, so each leaf is chosen in proportion
   * to its area, and the sample handed back is that leaf's.
   */
  lemma UnrootedDrawPicksByArea<T, O>(a: Accel<T>, r: real, k: int, sampleOf: T -> Sampled<O>)
    requires a.root.Some? && Shaped(a.root.value) && AreasAdd(a.root.value)
    requires NonNegative(LeafAreas(a.root.value)) && a.root.value.area > 0.0
    requires 0.0 <= r < 1.0 && 0 <= k < |Leaves(a.root.value)|
    ensures var n, areas := a.root.value, LeafAreas(a.root.value);
      var lo, hi := SumReals(areas[..k]) / n.area, SumReals(areas[..k + 1]) / n.area;
      && (PickLeaf(areas, Product(r, n.area)) == k <==> lo <= r < hi)
      && hi - lo == areas[k] / n.area
      && (lo <= r < hi ==> GetSample(n, Product(r, n.area), sampleOf) == LeafSample(n, k, sampleOf))
  {
    var n := a.root.value;
    AreaIsLeafSum(n);
    DrawPicksByShare(LeafAreas(n), r, k);
    GetSampleIsPick(n, Product(r, n.area), sampleOf);
  }
}
