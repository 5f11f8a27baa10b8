/** The three delineation routines of tarefa2/iftSegmentObject.c, each one run of the
    IFT loop of module Forest with its own adjacency relation, path-cost rule, queue key
    and seeds.  A labelled seed set (iftLabeledSet) is a sequence of Seed entries in list
    order; images are sequences indexed by voxel.
 */
module Segment {
  import opened Wrappers
  import opened Lattice
  import opened PathCost
  import opened Forest

  // ---------------------------------------------------------------------
  // Seed sets and images

  /** The distinct labels of a seed set. */
  function LabelSet(seeds: seq<Seed>): (ls: set<int>)
    ensures forall k :: 0 <= k < |seeds| ==> seeds[k].lbl in ls
    ensures forall l :: l in ls ==> exists k :: 0 <= k < |seeds| && seeds[k].lbl == l
  {
    set k | 0 <= k < |seeds| :: seeds[k].lbl
  }

  /** iftNumberOfLabels: how many different labels the seeds carry. */
  function NumberOfLabels(seeds: seq<Seed>): (n: nat)
    ensures n <= |seeds|
    ensures n == 0 <==> seeds == []
  {
    LabelSetSize(seeds);
    |LabelSet(seeds)|
  }

  /** A seed set carries no more labels than it has entries. */
  lemma {:induction false} LabelSetSize(seeds: seq<Seed>)
    ensures |LabelSet(seeds)| <= |seeds|
    ensures seeds != [] ==> seeds[0].lbl in LabelSet(seeds)
  {
    if seeds != [] {
      var front := seeds[..|seeds| - 1];
      LabelSetSize(front);
      var last := seeds[|seeds| - 1].lbl;
      assert LabelSet(seeds) == LabelSet(front) + {last} by {
        forall l | l in LabelSet(seeds)
          ensures l in LabelSet(front) + {last}
        {
          var k :| 0 <= k < |seeds| && seeds[k].lbl == l;
          if k < |seeds| - 1 {
            assert front[k] == seeds[k];
          }
        }
        forall l | l in LabelSet(front)
          ensures l in LabelSet(seeds)
        {
          var k :| 0 <= k < |front| && front[k].lbl == l;
          assert seeds[k] == front[k];
        }
      }
      if last in LabelSet(front) {
        assert LabelSet(front) + {last} == LabelSet(front);
      } else {
        assert |LabelSet(front) + {last}| == |LabelSet(front)| + 1;
      }
    }
  }

  /** Lines 190-201: the position of the first seed with a positive label, if any. */
  function FirstForeground(seeds: seq<Seed>): (r: Option<nat>)
    ensures r.Some? ==> r.value < |seeds| && seeds[r.value].lbl > 0
    ensures r.Some? ==> forall k :: 0 <= k < r.value ==> seeds[k].lbl <= 0
    ensures r.None? ==> forall k :: 0 <= k < |seeds| ==> seeds[k].lbl <= 0
  {
    if seeds == [] then None
    else if seeds[0].lbl > 0 then Some(0)
    else
      match FirstForeground(seeds[1..])
      case None => None
      case Some(k) => Some(k + 1)
  }

  /** iftMaximumValue. */
  function MaxValue(img: seq<int>): (m: int)
    requires |img| > 0
    ensures forall k :: 0 <= k < |img| ==> img[k] <= m
    ensures exists k :: 0 <= k < |img| && img[k] == m
  {
    if |img| == 1 then img[0]
    else
      var rest := MaxValue(img[1..]);
      assert forall k :: 1 <= k < |img| ==> img[k] == img[1..][k - 1];
      if img[0] >= rest then img[0] else rest
  }

  /** Lines 182-188: each iftInsertLabeledSet puts its entry at the head of the list, so
      copying the seeds one by one leaves them in reverse order. */
  function Reverse(seeds: seq<Seed>): (r: seq<Seed>)
    ensures |r| == |seeds|
    ensures forall k :: 0 <= k < |seeds| ==> r[k] == seeds[|seeds| - 1 - k]
  {
    if seeds == [] then [] else Reverse(seeds[1..]) + [seeds[0]]
  }

  /** iftLabeledSetHasElement: some entry holds voxel n. */
  predicate HasNode(ls: seq<Seed>, n: nat): (b: bool)
    ensures b <==> n in Nodes(ls)
  {
    exists k :: 0 <= k < |ls| && ls[k].node == n
  }

  // ---------------------------------------------------------------------
  // iftConnectInternalSeeds

  /** Lines 167-170: 6-neighbourhood on a 3-D image, 4-neighbourhood otherwise. */
  function ConnectionAdjacency(g: Lattice): (adj: AdjRel)
    ensures |adj| >= 1
    ensures g.zsize != 0 ==> Connecting(g, adj)
  {
    if g.zsize > 1 then Spheric1 else Circular1
  }

  /** The run of the loop inside iftConnectInternalSeeds: the cost of reaching q is
      Omax - O(q), the queue is keyed by the path values, and only the first seed with a
      positive label is inserted. */
  function ConnectionInstance(g: Lattice, obj: seq<int>, seeds: seq<Seed>): (I: Instance)
    requires |obj| == g.Size() && |obj| > 0
    requires forall k :: 0 <= k < |seeds| ==> seeds[k].node < g.Size()
    ensures I.Valid() && I.g == g && I.key.ByCost? && I.rule.ObjectPath?
    ensures I.rule.omax == MaxValue(obj) && I.rule.obj == obj
    ensures FirstForeground(seeds).None? ==> I.roots == []
    ensures FirstForeground(seeds).Some? ==> I.roots == [seeds[FirstForeground(seeds).value]]
  {
    var roots := match FirstForeground(seeds)
      case None => []
      case Some(k) => [seeds[k]];
    Instance(g, ConnectionAdjacency(g), ObjectPath(obj, MaxValue(obj)), ByCost, roots)
  }

  /** n lies on the path from a foreground seed back to the root, the root excluded. */
  ghost predicate OnTrace(I: Instance, s: State, order: seq<int>, seeds: seq<Seed>, n: nat)
    requires Rooted(I, s, order)
  {
    exists k, t ::
      && 0 <= k < |seeds| && seeds[k].lbl > 0 && seeds[k].node < I.N() && s.color[seeds[k].node] == Black
      && 0 <= t < |Chain(I, s, order, seeds[k].node)| - 1
      && Chain(I, s, order, seeds[k].node)[t] == n
  }

  /** Every node on the path from p back to the root, the root excluded, is in ls. */
  ghost predicate CoversChain(I: Instance, s: State, order: seq<int>, p: nat, ls: seq<Seed>)
    requires Rooted(I, s, order) && p < I.N() && s.color[p] == Black
  {
    var c := Chain(I, s, order, p);
    forall t :: 0 <= t < |c| - 1 ==> HasNode(ls, c[t])
  }

  /** iftConnectInternalSeeds: refuses a seed set without exactly two labels; otherwise
      returns the input pairs, in reverse order, preceded by each node of the optimum paths
      that join the foreground seeds to the root, with label 1.  The IFT run is returned as
      ghost outputs. */
  method ConnectInternalSeeds(g: Lattice, obj: seq<int>, seeds: seq<Seed>)
      returns (r: Result<seq<Seed>>, ghost I: Instance, ghost s: State, ghost order: seq<int>)
    requires |obj| == g.Size()
    requires forall k :: 0 <= k < |obj| ==> 0 <= obj[k] < INFINITY_INT
    requires forall k :: 0 <= k < |seeds| ==> seeds[k].node < g.Size()
    ensures r.Failure? <==> NumberOfLabels(seeds) != 2
    ensures r.Success? ==> |obj| > 0 && I == ConnectionInstance(g, obj, seeds) && Settled(I, s, order)
    ensures r.Success? && FirstForeground(seeds).Some? ==> forall m :: 0 <= m < g.Size() ==> s.color[m] == Black
    ensures r.Success? ==> TraceOutput(I, s, order, seeds, r.value)
  {
    if NumberOfLabels(seeds) != 2 {
      I := Instance(g, Circular1, ObjectPath(obj, 0), ByCost, []);
      s, order := Initial(g.Size()), [];
      return Failure("It is only implemented for binary segmentation"), I, s, order;
    }
    assert seeds[0].lbl in LabelSet(seeds);
    var inst := ConnectionInstance(g, obj, seeds);
    var st, ord := Ift(inst);
    I, s, order := inst, st, ord;
    if FirstForeground(seeds).Some? {
      AllReached(g, obj, seeds, I, s, order);
    }
    var out := TraceSeeds(I, st, order, seeds);
    r := Success(out);
  }

  /** With a connecting adjacency relation and an object map in [0, IFT_INFINITY_INT), the
      root reaches every voxel: the BLACK set is closed under neighbours and holds the root. */
  lemma {:induction false} AllReached(g: Lattice, obj: seq<int>, seeds: seq<Seed>, I: Instance, s: State, order: seq<int>)
    requires |obj| == g.Size() && |obj| > 0
    requires forall k :: 0 <= k < |obj| ==> 0 <= obj[k] < INFINITY_INT
    requires forall k :: 0 <= k < |seeds| ==> seeds[k].node < g.Size()
    requires I == ConnectionInstance(g, obj, seeds)
    requires Sized(s, I.N()) && Closed(I, s) && SeedsFixed(I, s)
    requires forall m :: 0 <= m < I.N() ==> s.color[m] != Gray
    requires FirstForeground(seeds).Some?
    ensures forall m :: 0 <= m < g.Size() ==> s.color[m] == Black
  {
    var S := set m | 0 <= m < g.Size() && s.color[m] == Black;
    var omax := MaxValue(obj);
    forall p, i | p in S && p < g.Size() && 1 <= i < |I.adj| && Neighbour(g, I.adj, p, i).Some?
      ensures Neighbour(g, I.adj, p, i).value in S
    {
      var q := Neighbour(g, I.adj, p, i).value;
      assert Extend(I.rule, I.N(), p, q, s.cost[p]) == omax - obj[q];
      var w :| 0 <= w < |obj| && obj[w] == omax;
    }
    assert ClosedUnder(g, I.adj, S);
    var root := I.roots[0].node;
    assert s.color[root] != White;
    CoordBound(g, root);
    ClosedSetCoversLattice(g, I.adj, S, root);
    forall m | 0 <= m < g.Size()
      ensures s.color[m] == Black
    {
      assert m in S;
    }
  }

  /** The list iftConnectInternalSeeds returns: the input pairs, reversed, at the back;
      before them, each node of the traced paths with label 1, once; and every node on the
      path from a foreground seed back to the root, the root excluded, somewhere in it. */
  ghost predicate TraceOutput(I: Instance, s: State, order: seq<int>, seeds: seq<Seed>, out: seq<Seed>)
    requires Rooted(I, s, order)
  {
    && |out| >= |seeds|
    && out[|out| - |seeds|..] == Reverse(seeds)
    && Added(I, s, order, seeds, out[..|out| - |seeds|])
    && (forall k :: 0 <= k < |seeds| && seeds[k].lbl > 0 ==>
          && seeds[k].node < I.N() && s.color[seeds[k].node] == Black
          && CoversChain(I, s, order, seeds[k].node, out))
  }

  /** The entries the trace added: label 1, not a seed, on a traced path, no node twice. */
  ghost predicate Added(I: Instance, s: State, order: seq<int>, seeds: seq<Seed>, added: seq<Seed>)
    requires Rooted(I, s, order)
  {
    && (forall a :: 0 <= a < |added| ==>
          added[a].lbl == 1 && !HasNode(seeds, added[a].node) && OnTrace(I, s, order, seeds, added[a].node))
    && DistinctNodes(added)
  }

  /** Lines 236-249: walk from every foreground seed back to the root, prepending each node
      not yet in the list with label 1. */
  method TraceSeeds(ghost I: Instance, s: State, ghost order: seq<int>, seeds: seq<Seed>) returns (out: seq<Seed>)
    requires Rooted(I, s, order)
    requires forall k :: 0 <= k < |seeds| ==> seeds[k].node < I.N()
    requires forall k :: 0 <= k < |seeds| && seeds[k].lbl > 0 ==> s.color[seeds[k].node] == Black
    ensures TraceOutput(I, s, order, seeds, out)
  {
    var base := Reverse(seeds);
    out := base;
    ghost var added: seq<Seed> := [];
    var k := 0;
    while k < |seeds|
      invariant 0 <= k <= |seeds|
      invariant out == added + base
      invariant Added(I, s, order, seeds, added)
      invariant forall j :: 0 <= j < k && seeds[j].lbl > 0 ==> CoversChain(I, s, order, seeds[j].node, out)
    {
      var out' := out;
      if seeds[k].lbl > 0 {
        out', added := TraceOne(I, s, order, seeds, k, out, added);
      }
      CoverageGrows(I, s, order, seeds, k, out, out');
      out := out';
      k := k + 1;
    }
    assert out[..|out| - |seeds|] == added;
    assert out[|out| - |seeds|..] == base;
  }

  /** The inner trace loop for the foreground seed at position k: afterwards every node on
      its path to the root, the root excluded, is in the list, and nothing was dropped. */
  method TraceOne(ghost I: Instance, s: State, ghost order: seq<int>, seeds: seq<Seed>, k: nat,
                  out0: seq<Seed>, ghost added0: seq<Seed>)
      returns (out: seq<Seed>, ghost added: seq<Seed>)
    requires Rooted(I, s, order)
    requires forall j :: 0 <= j < |seeds| ==> seeds[j].node < I.N()
    requires k < |seeds| && seeds[k].lbl > 0 && s.color[seeds[k].node] == Black
    requires out0 == added0 + Reverse(seeds) && Added(I, s, order, seeds, added0)
    ensures out == added + Reverse(seeds) && Added(I, s, order, seeds, added)
    ensures CoversChain(I, s, order, seeds[k].node, out)
    ensures forall n :: HasNode(out0, n) ==> HasNode(out, n)
  {
    var base := Reverse(seeds);
    out, added := out0, added0;
    var p := seeds[k].node;
    ghost var c := Chain(I, s, order, p);
    var q := p;
    ghost var t := 0;
    while s.pred[q] != NIL
      invariant 0 <= t < |c| && q == c[t]
      invariant forall u :: 0 <= u < t ==> HasNode(out, c[u])
      invariant out == added + base && Added(I, s, order, seeds, added)
      invariant forall n :: HasNode(out0, n) ==> HasNode(out, n)
      decreases |c| - t
    {
      if !HasNode(out, q) {
        TraceStep(I, s, order, seeds, k, t, added, base);
        PrependHasNode(out, Seed(q, 1));
        out := [Seed(q, 1)] + out;
        added := [Seed(q, 1)] + added;
      }
      assert HasNode(out, c[t]);
      q := s.pred[q];
      t := t + 1;
    }
    ChainLink(I, s, order, p, t);
    assert t == |c| - 1;
  }

  /** Before the end of a path, pred is not NIL: it names the next node. */
  lemma ChainLink(I: Instance, s: State, order: seq<int>, m: nat, t: nat)
    requires Rooted(I, s, order) && m < I.N() && s.color[m] == Black
    requires t < |Chain(I, s, order, m)|
    ensures var c := Chain(I, s, order, m);
            t < |c| - 1 ==> s.pred[c[t]] == c[t + 1] && s.pred[c[t]] != NIL
  {
  }

  /** A node of a foreground seed's path, the root excluded, that the list lacks may be
      prepended with label 1 without breaking the bookkeeping of added entries. */
  lemma TraceStep(I: Instance, s: State, order: seq<int>, seeds: seq<Seed>, k: nat, t: nat,
                  added: seq<Seed>, base: seq<Seed>)
    requires Rooted(I, s, order)
    requires forall j :: 0 <= j < |seeds| ==> seeds[j].node < I.N()
    requires k < |seeds| && seeds[k].lbl > 0 && s.color[seeds[k].node] == Black
    requires t < |Chain(I, s, order, seeds[k].node)| - 1
    requires base == Reverse(seeds) && Added(I, s, order, seeds, added)
    requires !HasNode(added + base, Chain(I, s, order, seeds[k].node)[t])
    ensures Added(I, s, order, seeds, [Seed(Chain(I, s, order, seeds[k].node)[t], 1)] + added)
  {
    var q := Chain(I, s, order, seeds[k].node)[t];
    assert OnTrace(I, s, order, seeds, q);
    ReversedHasNode(seeds, added, q);
    assert !HasNode(added, q) by {
      forall a | 0 <= a < |added|
        ensures added[a].node != q
      {
        assert (added + base)[a] == added[a];
      }
    }
    PrependDistinct(added, Seed(q, 1));
    var added' := [Seed(q, 1)] + added;
    forall a | 0 <= a < |added'|
      ensures added'[a].lbl == 1 && !HasNode(seeds, added'[a].node) && OnTrace(I, s, order, seeds, added'[a].node)
    {
      if a > 0 {
        assert added'[a] == added[a - 1];
      }
    }
  }

  /** Prepending a node the list lacks keeps its nodes distinct. */
  lemma PrependDistinct(ls: seq<Seed>, e: Seed)
    requires DistinctNodes(ls) && !HasNode(ls, e.node)
    ensures DistinctNodes([e] + ls)
  {
    var r := [e] + ls;
    forall a, b | 0 <= a < b < |r|
      ensures r[a].node != r[b].node
    {
      assert r[b] == ls[b - 1];
      if a > 0 {
        assert r[a] == ls[a - 1];
      }
    }
  }

  /** A node of a seed also occurs in any list that ends with the reversed seeds. */
  lemma ReversedHasNode(seeds: seq<Seed>, front: seq<Seed>, n: nat)
    ensures HasNode(seeds, n) ==> HasNode(front + Reverse(seeds), n)
  {
    if HasNode(seeds, n) {
      var j :| 0 <= j < |seeds| && seeds[j].node == n;
      var ls := front + Reverse(seeds);
      assert ls[|front| + |seeds| - 1 - j] == seeds[j];
    }
  }

  /** Prepending an entry keeps every node already present and adds its own. */
  lemma PrependHasNode(ls: seq<Seed>, e: Seed)
    ensures HasNode([e] + ls, e.node)
    ensures forall n :: HasNode(ls, n) ==> HasNode([e] + ls, n)
  {
    assert ([e] + ls)[0] == e;
    forall n | HasNode(ls, n)
      ensures HasNode([e] + ls, n)
    {
      var j :| 0 <= j < |ls| && ls[j].node == n;
      assert ([e] + ls)[j + 1] == ls[j];
    }
  }

  /** The seeds before k stay covered as the list grows; with seed k covered too, the
      seeds up to k are. */
  lemma CoverageGrows(I: Instance, s: State, order: seq<int>, seeds: seq<Seed>, k: nat,
                      out: seq<Seed>, out': seq<Seed>)
    requires Rooted(I, s, order) && k < |seeds|
    requires forall j :: 0 <= j < |seeds| ==> seeds[j].node < I.N()
    requires forall j :: 0 <= j < |seeds| && seeds[j].lbl > 0 ==> s.color[seeds[j].node] == Black
    requires forall j :: 0 <= j < k && seeds[j].lbl > 0 ==> CoversChain(I, s, order, seeds[j].node, out)
    requires forall n :: HasNode(out, n) ==> HasNode(out', n)
    requires seeds[k].lbl > 0 ==> CoversChain(I, s, order, seeds[k].node, out')
    ensures forall j :: 0 <= j < k + 1 && seeds[j].lbl > 0 ==> CoversChain(I, s, order, seeds[j].node, out')
  {
    forall j | 0 <= j < k && seeds[j].lbl > 0
      ensures CoversChain(I, s, order, seeds[j].node, out')
    {
      CoversMonotone(I, s, order, seeds[j].node, out, out');
    }
  }

  /** Coverage survives growing the list. */
  lemma CoversMonotone(I: Instance, s: State, order: seq<int>, p: nat, ls: seq<Seed>, ls': seq<Seed>)
    requires Rooted(I, s, order) && p < I.N() && s.color[p] == Black
    requires CoversChain(I, s, order, p, ls)
    requires forall n :: HasNode(ls, n) ==> HasNode(ls', n)
    ensures CoversChain(I, s, order, p, ls')
  {
  }

  // ---------------------------------------------------------------------
  // iftDelineateObjectByWatershed and iftDelineateObjectRegion

  /** The run inside iftDelineateObjectByWatershed: 4-neighbourhood, bottleneck of the
      gradient arc sqrt(W(p)^2 - W(q)^2), queue keyed by the weight image W, every seed
      inserted. */
  function WatershedInstance(g: Lattice, w: seq<int>, seeds: seq<Seed>): (I: Instance)
    requires |w| == g.Size()
    requires forall k :: 0 <= k < |seeds| ==> seeds[k].node < g.Size()
    requires DistinctNodes(seeds)
    ensures I.Valid() && I.g == g && I.roots == seeds && I.rule.MaxPath() && I.key == ByValue(w)
  {
    Instance(g, Circular1, GradientMax(w), ByValue(w), seeds)
  }

  /** The run inside iftDelineateObjectRegion: 4-neighbourhood, bottleneck of the blended
      arc weight, queue keyed by the path values, every seed inserted. */
  function RegionInstance(g: Lattice, obj: seq<int>, featDist: (nat, nat) -> NonNegReal, alpha: real,
                          seeds: seq<Seed>): (I: Instance)
    requires |obj| == g.Size() && 0.0 <= alpha <= 1.0
    requires forall k :: 0 <= k < |seeds| ==> seeds[k].node < g.Size()
    requires DistinctNodes(seeds)
    ensures I.Valid() && I.g == g && I.roots == seeds && I.rule.MaxPath() && I.key.ByCost?
  {
    Instance(g, Circular1, BlendedMax(obj, featDist, alpha), ByCost, seeds)
  }

  /** What both label-returning routines promise about the label image: every seed keeps
      its label, and every voxel holds either the label of a seed it was reached from or,
      unreached, 0. */
  ghost predicate LabelsOfSeeds(I: Instance, s: State, order: seq<int>, lbl: seq<int>)
    requires Settled(I, s, order)
  {
    && |lbl| == I.N() && lbl == s.lbl
    && (forall k :: 0 <= k < |I.roots| ==> lbl[I.roots[k].node] == I.roots[k].lbl)
    && (forall m :: 0 <= m < I.N() ==>
          || (s.color[m] == White && s.cost[m] == INFINITY_INT && lbl[m] == 0)
          || (s.color[m] == Black && exists k :: 0 <= k < |I.roots| && lbl[m] == I.roots[k].lbl))
  }

  /** The label image gives every seed its own label, and every voxel 0 or the label of
      some seed. */
  predicate SeedLabelled(n: nat, seeds: seq<Seed>, lbl: seq<int>)
  {
    && |lbl| == n
    && (forall k :: 0 <= k < |seeds| ==> seeds[k].node < n && lbl[seeds[k].node] == seeds[k].lbl)
    && (forall m :: 0 <= m < n ==> lbl[m] == 0 || exists k :: 0 <= k < |seeds| && lbl[m] == seeds[k].lbl)
  }

  /** iftDelineateObjectByWatershed: the label image of the watershed from the seeds. */
  method DelineateObjectByWatershed(g: Lattice, w: seq<int>, seeds: seq<Seed>)
      returns (lbl: seq<int>, ghost s: State, ghost order: seq<int>)
    requires |w| == g.Size()
    requires forall k :: 0 <= k < |seeds| ==> seeds[k].node < g.Size()
    requires DistinctNodes(seeds)
    ensures Settled(WatershedInstance(g, w, seeds), s, order)
    ensures LabelsOfSeeds(WatershedInstance(g, w, seeds), s, order, lbl)
    ensures SeedLabelled(g.Size(), seeds, lbl)
  {
    var I := WatershedInstance(g, w, seeds);
    var st, ord := Ift(I);
    s, order := st, ord;
    LabelsFromSeeds(I, s, order);
    lbl := st.lbl;
  }

  /** The queue of iftDelineateObjectRegion has Omax + 1 buckets (line 440): its keys stay in
      range when no blended weight of an arc of the 4-neighbourhood exceeds Omax. */
  predicate RegionKeysFit(g: Lattice, obj: seq<int>, featDist: (nat, nat) -> NonNegReal, alpha: real)
    requires |obj| == g.Size() && 0.0 <= alpha <= 1.0
  {
    && |obj| > 0 && MaxValue(obj) >= 0
    && ArcsBounded(g, Circular1, BlendedMax(obj, featDist, alpha), MaxValue(obj))
  }

  /** iftDelineateObjectRegion: the label image of the max-path IFT with the blended arc
      weight.  Nodes leave the queue in cost order; this is the program's order only while
      every key fits its Omax + 1 buckets, which holds when no arc's blended weight exceeds
      Omax. */
  method DelineateObjectRegion(g: Lattice, obj: seq<int>, featDist: (nat, nat) -> NonNegReal, alpha: real,
                               seeds: seq<Seed>)
      returns (lbl: seq<int>, ghost s: State, ghost order: seq<int>)
    requires |obj| == g.Size() && 0.0 <= alpha <= 1.0
    requires forall k :: 0 <= k < |seeds| ==> seeds[k].node < g.Size()
    requires DistinctNodes(seeds)
    ensures Settled(RegionInstance(g, obj, featDist, alpha, seeds), s, order)
    ensures LabelsOfSeeds(RegionInstance(g, obj, featDist, alpha, seeds), s, order, lbl)
    ensures SeedLabelled(g.Size(), seeds, lbl)
    ensures MonotoneExtraction(RegionInstance(g, obj, featDist, alpha, seeds), s, order)
    ensures RegionKeysFit(g, obj, featDist, alpha) ==>
              forall p, j :: 0 <= p < g.Size() && 1 <= j < |Circular1| && Neighbour(g, Circular1, p, j).Some? &&
                             s.color[p] == Black ==>
                0 <= Extend(BlendedMax(obj, featDist, alpha), g.Size(), p, Neighbour(g, Circular1, p, j).value,
                            s.cost[p]) <= MaxValue(obj)
  {
    var I := RegionInstance(g, obj, featDist, alpha, seeds);
    var st, ord := Ift(I);
    s, order := st, ord;
    LabelsFromSeeds(I, s, order);
    if RegionKeysFit(g, obj, featDist, alpha) {
      CandidatesBounded(I, s, order, MaxValue(obj));
    }
    lbl := st.lbl;
  }
}
