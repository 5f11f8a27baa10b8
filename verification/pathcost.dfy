/** The path-cost (connectivity) functions of the three delineation routines.

    Path costs live in the int path-value image, so they are integers with
    INFINITY_INT (the largest 32-bit int) standing for "not reached".  The
    float arc weights of the source are modelled by their value truncated to
    an int; TruncatedComparison shows that comparing the truncated value with
    an integer cost accepts exactly the candidates the float comparison does.
 */
module PathCost {

  /** IFT_INFINITY_INT. */
  const INFINITY_INT: int := 0x7fff_ffff

  /** IFT_NIL. */
  const NIL: int := -1

  /** The scaling constant K of iftDelineateObjectRegion. */
  const K: real := 1.2

  type NonNegReal = r: real | r >= 0.0

  datatype Rule =
      /** iftConnectInternalSeeds: f(path . <p,q>) = Omax - O(q). */
    | ObjectPath(obj: seq<int>, omax: int)
      /** iftDelineateObjectByWatershed: max(sqrt(W(p)^2 - W(q)^2), f(path)). */
    | GradientMax(w: seq<int>)
      /** iftDelineateObjectRegion: max(K * (alpha * |O(p) - O(q)| + (1 - alpha) * D(p, q)), f(path)),
          where D is the feature distance between the voxels. */
    | BlendedMax(obj: seq<int>, featDist: (nat, nat) -> NonNegReal, alpha: real)
  {
    /** The data the rule reads covers all n voxels, Omax bounds the object map and alpha is a blend weight. */
    predicate WellFormed(n: nat)
    {
      match this
      case ObjectPath(obj, omax) => |obj| == n && forall k :: 0 <= k < n ==> obj[k] <= omax
      case GradientMax(w) => |w| == n
      case BlendedMax(obj, _, alpha) => |obj| == n && 0.0 <= alpha <= 1.0
    }

    /** Max-path (bottleneck) rules: the candidate never undercuts the cost at p. */
    predicate MaxPath()
    {
      !ObjectPath?
    }
  }

  /** The largest r with r * r <= n: the truncation of sqrtf(n). */
  function FloorSqrt(n: nat): (r: nat)
    ensures r * r <= n < (r + 1) * (r + 1)
  {
    SqrtFrom(n, 0)
  }

  function SqrtFrom(n: nat, r: nat): (s: nat)
    requires r * r <= n
    ensures s * s <= n < (s + 1) * (s + 1)
    decreases n - r * r
  {
    assert (r + 1) * (r + 1) == r * r + 2 * r + 1;
    if (r + 1) * (r + 1) > n then r else SqrtFrom(n, r + 1)
  }

  /** Truncating a real square root before comparing with an integer c changes nothing:
      FloorSqrt(n) < c exactly when n < c * c, that is when sqrt(n) < c. */
  lemma FloorSqrtCompare(n: nat, c: nat)
    ensures FloorSqrt(n) < c <==> n < c * c
  {
    var r := FloorSqrt(n);
    if r < c {
      MulMono(r + 1, c);
    } else {
      MulMono(c, r);
    }
  }

  lemma MulMono(a: nat, b: nat)
    requires a <= b
    ensures a * a <= b * b
  {
    assert b * b - a * a == (b - a) * (b + a);
  }

  /** A real candidate x is below an integer cost c exactly when its truncation is. */
  lemma TruncatedComparison(x: real, c: int)
    ensures x < c as real <==> x.Floor < c
  {
  }

  /** iftDelineateObjectRegion's blended arc weight dpq (lines 477-484). */
  function BlendedArc(obj: seq<int>, featDist: (nat, nat) -> NonNegReal, alpha: real, p: nat, q: nat): (d: real)
    requires p < |obj| && q < |obj| && 0.0 <= alpha <= 1.0
    ensures d >= 0.0
  {
    var dobj := if obj[p] - obj[q] < 0 then obj[q] - obj[p] else obj[p] - obj[q];
    var a := alpha * dobj as real;
    var b := (1.0 - alpha) * featDist(p, q);
    assert a >= 0.0 && b >= 0.0;
    K * (a + b)
  }

  /** The integer arc weight of a max-path rule: the truncated Di or dpq.  In the watershed,
      W(p)^2 < W(q)^2 makes sqrtf return NaN, and `NaN > cost` is false, so that arc
      contributes nothing and weighs 0. */
  function ArcWeight(rule: Rule, n: nat, p: nat, q: nat): (a: int)
    requires rule.MaxPath() && rule.WellFormed(n) && p < n && q < n
    ensures a >= 0
    ensures rule.GradientMax? ==>
              var d := rule.w[p] * rule.w[p] - rule.w[q] * rule.w[q];
              if d >= 0 then a * a <= d < (a + 1) * (a + 1) else a == 0
    ensures rule.BlendedMax? ==>
              var dpq := BlendedArc(rule.obj, rule.featDist, rule.alpha, p, q);
              a as real <= dpq < a as real + 1.0
  {
    match rule
    case GradientMax(w) =>
      var d := w[p] * w[p] - w[q] * w[q];
      if d >= 0 then FloorSqrt(d) else 0
    case BlendedMax(obj, featDist, alpha) =>
      BlendedArc(obj, featDist, alpha, p, q).Floor
  }

  /** The candidate cost `tmp` for reaching q from p when the path to p costs costP
      (lines 219, 309-311 and 477-487), truncated to the int cost image. */
  function Extend(rule: Rule, n: nat, p: nat, q: nat, costP: int): (c: int)
    requires rule.WellFormed(n) && p < n && q < n
    ensures costP >= 0 ==> c >= 0
    ensures rule.MaxPath() ==> c >= costP
  {
    match rule
    case ObjectPath(obj, omax) =>
      omax - obj[q]
    case GradientMax(w) =>
      var d := w[p] * w[p] - w[q] * w[q];
      if d >= 0 then
        var di := FloorSqrt(d);
        if di > costP then di else costP
      else
        costP
    case BlendedMax(obj, featDist, alpha) =>
      var dpq := BlendedArc(obj, featDist, alpha, p, q);
      var tmp := if dpq > costP as real then dpq else costP as real;
      tmp.Floor
  }

  /** A max-path candidate is the bottleneck max(w(p,q), cost(p)) of the arc weight
      and the cost at p. */
  lemma BottleneckForm(rule: Rule, n: nat, p: nat, q: nat, costP: int)
    requires rule.MaxPath() && rule.WellFormed(n) && p < n && q < n && costP >= 0
    ensures var a := ArcWeight(rule, n, p, q);
            Extend(rule, n, p, q, costP) == if a > costP then a else costP
  {
    match rule
    case GradientMax(w) =>
    case BlendedMax(obj, featDist, alpha) =>
      var dpq := BlendedArc(obj, featDist, alpha, p, q);
      assert dpq > costP as real ==> dpq.Floor >= costP;
      assert dpq <= costP as real ==> dpq.Floor <= costP;
  }

  /** The seed-connection candidate depends on q alone and, for an object map with values
      in [0, Omax], lies in [0, Omax]: it fits the Omax+1 buckets of the queue. */
  lemma ObjectPathBounds(rule: Rule, n: nat, p: nat, p': nat, q: nat, c: int, c': int)
    requires rule.ObjectPath? && rule.WellFormed(n) && p < n && p' < n && q < n
    requires 0 <= rule.obj[q]
    ensures 0 <= Extend(rule, n, p, q, c) <= rule.omax
    ensures Extend(rule, n, p, q, c) == Extend(rule, n, p', q, c')
  {
  }
}
