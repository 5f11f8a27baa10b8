/** The Image Foresting Transform loop shared by the delineation routines of
    tarefa2/iftSegmentObject.c.

    The working images (path value, predecessor, label) and the colour each
    node has in the queue are parallel sequences; the loop pops a node of
    least key, makes it BLACK, and offers every in-domain neighbour that is not
    BLACK the candidate cost of the active rule, accepting it only when it is
    strictly lower.  What differs between the routines is the rule, the image
    the queue is keyed by, the adjacency relation and the seeds inserted.
 */
module Forest {
  import opened Wrappers
  import opened Lattice
  import opened GQueue
  import opened PathCost

  /** IFT_WHITE (never queued), IFT_GRAY (queued), IFT_BLACK (extracted, final). */
  datatype Color = White | Gray | Black

  /** One (elem, label) entry of an iftLabeledSet. */
  datatype Seed = Seed(node: nat, lbl: int)

  /** The image the queue reads keys from: the path-value image itself, or a fixed image. */
  datatype QueueKey = ByCost | ByValue(val: seq<int>)

  /** One run of the loop: domain, adjacency relation, path-cost rule, queue key and the
      seeds inserted with cost 0. */
  datatype Instance = Instance(g: Lattice, adj: AdjRel, rule: Rule, key: QueueKey, roots: seq<Seed>)
  {
    function N(): nat
    {
      g.Size()
    }

    predicate Valid()
    {
      && |adj| >= 1
      && rule.WellFormed(N())
      && (key.ByValue? ==> |key.val| == N())
      && (forall k :: 0 <= k < |roots| ==> roots[k].node < N())
      && DistinctNodes(roots)
    }
  }

  /** The working images and the queue. */
  datatype State = State(cost: seq<int>, pred: seq<int>, lbl: seq<int>, color: seq<Color>, queue: Queue)

  predicate Sized(s: State, n: nat)
  {
    |s.cost| == n && |s.pred| == n && |s.lbl| == n && |s.color| == n
  }

  function Nodes(seeds: seq<Seed>): (ns: seq<nat>)
    ensures |ns| == |seeds|
    ensures forall k :: 0 <= k < |seeds| ==> ns[k] == seeds[k].node
  {
    seq(|seeds|, k requires 0 <= k < |seeds| => seeds[k].node)
  }

  /** No node is seeded twice. */
  predicate DistinctNodes(seeds: seq<Seed>)
  {
    forall a, b :: 0 <= a < b < |seeds| ==> seeds[a].node != seeds[b].node
  }

  function Keys(key: QueueKey, s: State): seq<int>
  {
    match key
    case ByCost => s.cost
    case ByValue(v) => v
  }

  /** The images as created: path value IFT_INFINITY_INT, predecessor and label zero
      (iftCreateImage clears them), every node WHITE and the queue empty. */
  function Initial(n: nat): (s: State)
    ensures Sized(s, n) && s.queue == []
    ensures forall m :: 0 <= m < n ==>
              s.cost[m] == INFINITY_INT && s.pred[m] == 0 && s.lbl[m] == 0 && s.color[m] == White
  {
    State(seq(n, _ => INFINITY_INT), seq(n, _ => 0), seq(n, _ => 0), seq(n, _ => White), [])
  }

  /** Lines 284-288: a seed gets cost 0, no predecessor, its label, and is queued. */
  function InsertSeed(s: State, seed: Seed): State
    requires seed.node < |s.cost| && Sized(s, |s.cost|)
  {
    var p := seed.node;
    State(s.cost[p := 0], s.pred[p := NIL], s.lbl[p := seed.lbl], s.color[p := Gray],
          Insert(s.queue, p))
  }

  /** The seed loop (lines 281-291): every seed in list order. */
  function InsertSeeds(s: State, roots: seq<Seed>): (t: State)
    requires Sized(s, |s.cost|)
    requires forall k :: 0 <= k < |roots| ==> roots[k].node < |s.cost|
    requires DistinctNodes(roots)
    ensures Sized(t, |s.cost|)
    ensures t.queue == s.queue + Nodes(roots)
    ensures forall k :: 0 <= k < |roots| ==>
              var p := roots[k].node;
              t.cost[p] == 0 && t.pred[p] == NIL && t.lbl[p] == roots[k].lbl && t.color[p] == Gray
    ensures forall m :: 0 <= m < |s.cost| && m !in Nodes(roots) ==>
              t.cost[m] == s.cost[m] && t.pred[m] == s.pred[m] &&
              t.lbl[m] == s.lbl[m] && t.color[m] == s.color[m]
  {
    if roots == [] then s
    else
      var front := roots[..|roots| - 1];
      assert Nodes(roots) == Nodes(front) + [roots[|roots| - 1].node];
      InsertSeed(InsertSeeds(s, front), roots[|roots| - 1])
  }

  // ---------------------------------------------------------------------
  // One step of the loop

  /** iftRemoveGQueue (lines 207, 297, 465): pop the node of least key and make it BLACK. */
  function ExtractMin(I: Instance, s: State): (r: (nat, State))
    requires I.Valid() && Sized(s, I.N()) && s.queue != []
    requires forall k :: 0 <= k < |s.queue| ==> s.queue[k] < I.N()
    ensures r.0 in s.queue && r.0 < I.N()
    ensures forall m :: m in s.queue ==> Keys(I.key, s)[r.0] <= Keys(I.key, s)[m]
    ensures r.1 == s.(color := s.color[r.0 := Black], queue := r.1.queue)
    ensures multiset(r.1.queue) + multiset{r.0} == multiset(s.queue)
    ensures forall n :: n in r.1.queue ==> n in s.queue
    ensures exists i :: 0 <= i < |s.queue| && s.queue[i] == r.0 && r.1.queue == s.queue[..i] + s.queue[i+1..] &&
                        forall k :: 0 <= k < i ==> Keys(I.key, s)[s.queue[k]] > Keys(I.key, s)[r.0]
  {
    var (p, rest) := RemoveMin(s.queue, Keys(I.key, s));
    (p, s.(color := s.color[p := Black], queue := rest))
  }

  /** Lines 217-226, 307-319 and 475-495: offer q the candidate through p; accept it only if
      strictly below q's cost, taking q out of the queue first when it is GRAY. */
  function Relax(I: Instance, s: State, p: nat, q: nat): (t: State)
    requires I.Valid() && Sized(s, I.N()) && p < I.N() && q < I.N()
    ensures Sized(t, I.N())
    ensures var c := Extend(I.rule, I.N(), p, q, s.cost[p]);
            if c < s.cost[q] then
              && t.cost == s.cost[q := c] && t.pred == s.pred[q := p]
              && t.lbl == s.lbl[q := s.lbl[p]] && t.color == s.color[q := Gray]
              && (forall m :: m in t.queue <==> m in s.queue || m == q)
              && |t.queue| > 0 && t.queue[|t.queue| - 1] == q
              && (s.color[q] == Gray ==> t.queue == RemoveElem(s.queue, q) + [q])
              && (s.color[q] != Gray ==> t.queue == s.queue + [q])
            else t == s
  {
    var c := Extend(I.rule, I.N(), p, q, s.cost[p]);
    if c < s.cost[q] then
      var queue := if s.color[q] == Gray then RemoveElem(s.queue, q) else s.queue;
      State(s.cost[q := c], s.pred[q := p], s.lbl[q := s.lbl[p]], s.color[q := Gray],
            Insert(queue, q))
    else s
  }

  /** The body of the neighbour loop at adjacency index i (lines 210-229, 300-322, 468-498):
      skip out-of-domain and BLACK neighbours, relax the others. */
  function VisitNeighbour(I: Instance, s: State, p: nat, i: nat): (t: State)
    requires I.Valid() && Sized(s, I.N()) && p < I.N() && i < |I.adj|
    ensures Sized(t, I.N())
    ensures forall m :: 0 <= m < I.N() && s.color[m] == Black ==>
              t.cost[m] == s.cost[m] && t.pred[m] == s.pred[m] &&
              t.lbl[m] == s.lbl[m] && t.color[m] == Black
  {
    match Neighbour(I.g, I.adj, p, i)
    case None => s
    case Some(q) => if s.color[q] != Black then Relax(I, s, p, q) else s
  }

  // ---------------------------------------------------------------------
  // Invariants of the loop

  /** The number of BLACK nodes. */
  function CountBlack(c: seq<Color>): (k: nat)
    ensures k <= |c|
  {
    if c == [] then 0 else CountBlack(c[..|c| - 1]) + (if c[|c| - 1] == Black then 1 else 0)
  }

  /** The queue holds exactly the GRAY nodes, each once. */
  ghost predicate QueueShape(I: Instance, s: State)
  {
    && Sized(s, I.N())
    && (forall k :: 0 <= k < |s.queue| ==> s.queue[k] < I.N())
    && NoDuplicates(s.queue)
    && (forall m :: 0 <= m < I.N() ==> (s.color[m] == Gray <==> m in s.queue))
  }

  /** order[m] is the step at which m was extracted: each BLACK node has its own step
      below the number of extractions so far, which is the number of BLACK nodes. */
  ghost predicate Stamps(I: Instance, s: State, order: seq<int>, step: nat)
  {
    && |order| == I.N() && |s.color| == I.N()
    && (forall m :: 0 <= m < I.N() && s.color[m] == Black ==> 0 <= order[m] < step)
    && (forall m :: 0 <= m < I.N() && s.color[m] != Black ==> order[m] == -1)
    && (forall a, b :: 0 <= a < I.N() && 0 <= b < I.N() && a != b && s.color[a] == Black && s.color[b] == Black ==>
          order[a] != order[b])
    && CountBlack(s.color) == step
  }

  /** A WHITE node still holds its initial values; every other node has a finite cost. */
  ghost predicate Untouched(I: Instance, s: State)
  {
    && Sized(s, I.N())
    && (forall m :: 0 <= m < I.N() && s.color[m] == White ==>
          s.cost[m] == INFINITY_INT && s.pred[m] == 0 && s.lbl[m] == 0)
    && (forall m :: 0 <= m < I.N() && s.color[m] != White ==> 0 <= s.cost[m] < INFINITY_INT)
  }

  /** Seed fidelity: every seed has been reached and keeps cost 0, no predecessor and its label. */
  ghost predicate SeedsFixed(I: Instance, s: State)
  {
    && Sized(s, I.N())
    && forall k :: 0 <= k < |I.roots| ==>
         var r := I.roots[k].node;
         r < I.N() && s.color[r] != White && s.cost[r] == 0 && s.pred[r] == NIL && s.lbl[r] == I.roots[k].lbl
  }

  /** q is the in-domain neighbour of p at some adjacency index >= 1. */
  ghost predicate Arc(I: Instance, p: nat, q: nat)
    requires p < I.N()
  {
    exists j :: 1 <= j < |I.adj| && Neighbour(I.g, I.adj, p, j) == Some(q)
  }

  /** The predecessor map of reached nodes is a forest rooted at the seeds: a node without
      predecessor is a seed; otherwise its predecessor is an extracted neighbour, extracted
      earlier, whose label it carries and through which its cost is the rule's candidate. */
  ghost predicate ForestLinks(I: Instance, s: State, order: seq<int>)
  {
    && I.Valid() && Sized(s, I.N()) && |order| == I.N()
    && forall m :: 0 <= m < I.N() && s.color[m] != White ==>
         && (s.pred[m] == NIL ==> m in Nodes(I.roots))
         && (s.pred[m] != NIL ==>
               var p := s.pred[m];
               && 0 <= p < I.N()
               && s.color[p] == Black
               && (s.color[m] == Black ==> order[p] < order[m])
               && s.lbl[m] == s.lbl[p]
               && s.cost[m] == Extend(I.rule, I.N(), p, m, s.cost[p])
               && Arc(I, p, m))
  }

  /** No arc out of an extracted node p offers a strictly better candidate to a neighbour
      extracted after p or not extracted yet.  While p = cur is being expanded, only its
      indices below i are covered. */
  ghost predicate OptimalArcs(I: Instance, s: State, order: seq<int>, cur: nat, i: nat)
  {
    && I.Valid() && Sized(s, I.N()) && |order| == I.N()
    && forall p, j :: 0 <= p < I.N() && 1 <= j < |I.adj| && s.color[p] == Black && (p != cur || j < i) &&
                      Neighbour(I.g, I.adj, p, j).Some? ==>
         var q := Neighbour(I.g, I.adj, p, j).value;
         (s.color[q] != Black || order[p] < order[q]) ==> s.cost[q] <= Extend(I.rule, I.N(), p, q, s.cost[p])
  }

  /** Every in-domain neighbour of an extracted node that its candidate can reach has
      been extracted too. */
  ghost predicate Closed(I: Instance, s: State)
  {
    && I.Valid() && Sized(s, I.N())
    && forall p, j :: 0 <= p < I.N() && 1 <= j < |I.adj| && s.color[p] == Black &&
                      Neighbour(I.g, I.adj, p, j).Some? ==>
         var q := Neighbour(I.g, I.adj, p, j).value;
         Extend(I.rule, I.N(), p, q, s.cost[p]) < INFINITY_INT ==> s.color[q] == Black
  }

  /** With a max-path rule and the queue keyed by the path values, nodes leave the queue in
      non-decreasing cost: last is the cost of the latest extraction. */
  ghost predicate Monotone(I: Instance, s: State, order: seq<int>, last: int)
  {
    I.key.ByCost? && I.rule.MaxPath() ==>
      && Sized(s, I.N()) && |order| == I.N()
      && (forall k :: 0 <= k < |s.queue| && s.queue[k] < I.N() ==> s.cost[s.queue[k]] >= last)
      && (forall m :: 0 <= m < I.N() && s.color[m] == Black ==> s.cost[m] <= last)
      && MonotoneExtraction(I, s, order)
  }

  /** Extraction order is cost order among the BLACK nodes. */
  ghost predicate MonotoneExtraction(I: Instance, s: State, order: seq<int>)
    requires Sized(s, I.N()) && |order| == I.N()
  {
    forall a, b ::
      0 <= a < I.N() && 0 <= b < I.N() && s.color[a] == Black && s.color[b] == Black && order[a] < order[b] ==>
        s.cost[a] <= s.cost[b]
  }

  ghost predicate Inv(I: Instance, s: State, order: seq<int>, step: nat, last: int, cur: nat, i: nat)
  {
    && I.Valid()
    && QueueShape(I, s)
    && Stamps(I, s, order, step)
    && Untouched(I, s)
    && SeedsFixed(I, s)
    && ForestLinks(I, s, order)
    && OptimalArcs(I, s, order, cur, i)
    && Monotone(I, s, order, last)
    && last >= 0
  }

  /** What the loop leaves behind: the queue is empty and no node is GRAY; each extracted
      node has its own step below N, so there were at most N extractions; unreached nodes
      keep their initial values; seeds keep theirs; the predecessor map is a forest rooted
      at the seeds; extraction is closed under finite candidates; no arc offers a strictly
      better candidate to a node extracted later; and with a max-path rule keyed by the
      path values, extraction order is cost order. */
  ghost predicate Settled(I: Instance, s: State, order: seq<int>)
  {
    && I.Valid() && Sized(s, I.N()) && |order| == I.N() && s.queue == []
    && (forall m :: 0 <= m < I.N() ==> s.color[m] != Gray)
    && (forall a, b :: 0 <= a < I.N() && 0 <= b < I.N() && a != b && s.color[a] == Black && s.color[b] == Black ==>
          order[a] != order[b])
    && Untouched(I, s)
    && SeedsFixed(I, s)
    && Rooted(I, s, order)
    && Closed(I, s)
    && OptimalArcs(I, s, order, 0, |I.adj|)
    && (I.key.ByCost? && I.rule.MaxPath() ==> MonotoneExtraction(I, s, order))
  }

  /** The predecessor links form a forest whose every extracted node has a step in [0, N). */
  ghost predicate Rooted(I: Instance, s: State, order: seq<int>)
  {
    && ForestLinks(I, s, order)
    && (forall m :: 0 <= m < I.N() && s.color[m] == Black ==> 0 <= order[m] < I.N())
  }

  // ---------------------------------------------------------------------
  // The loop

  /** The IFT: seed, then pop and relax until the queue is empty.  The working images are
      returned with the (ghost) step at which each node was extracted. */
  method Ift(I: Instance) returns (s: State, ghost order: seq<int>)
    requires I.Valid()
    ensures Settled(I, s, order)
    ensures Sized(s, I.N()) && s.queue == [] && forall m :: 0 <= m < I.N() ==> s.color[m] != Gray
    ensures SeedsFixed(I, s) && Untouched(I, s) && Closed(I, s)
  {
    s, order := Initialise(I);
    ghost var step: nat := 0;
    ghost var last: int := 0;
    while s.queue != []
      invariant Inv(I, s, order, step, last, 0, |I.adj|)
      decreases I.N() - step
    {
      s, order, step, last := Step(I, s, order, step, last);
      StepBound(I, s, order, step);
    }
    SettledFacts(I, s, order, step, last);
  }

  /** The initialisation and the seed loop: nothing extracted yet, and the invariant holds. */
  method Initialise(I: Instance) returns (s: State, ghost order: seq<int>)
    requires I.Valid()
    ensures Inv(I, s, order, 0, 0, 0, |I.adj|)
  {
    s := InsertSeeds(Initial(I.N()), I.roots);
    order := seq(I.N(), _ => -1);
    InitialInv(I, s, order);
  }

  lemma InitialInv(I: Instance, s: State, order: seq<int>)
    requires I.Valid() && s == InsertSeeds(Initial(I.N()), I.roots)
    requires |order| == I.N() && forall m :: 0 <= m < I.N() ==> order[m] == -1
    ensures Inv(I, s, order, 0, 0, 0, |I.adj|)
  {
    assert SeedLoopDone(I, s) by {
      SeedLoop(I);
    }
    assert Seeded(I, s) && SeedsFixed(I, s) by {
      SeededNodes(I, s);
    }
    SeededInv(I, s, order);
  }

  /** One round of the main loop (lines 205-230, 295-323, 463-499): extract the node of
      least key, colour it BLACK and offer every arc out of it. */
  method Step(I: Instance, s0: State, ghost order0: seq<int>, ghost step0: nat, ghost last0: int)
      returns (s: State, ghost order: seq<int>, ghost step: nat, ghost last: int)
    requires Inv(I, s0, order0, step0, last0, 0, |I.adj|) && s0.queue != []
    ensures Inv(I, s, order, step, last, 0, |I.adj|)
    ensures step == step0 + 1
  {
    var popped := ExtractMin(I, s0);
    var p := popped.0;
    s := popped.1;
    order := order0[p := step0];
    last := if I.key.ByCost? && I.rule.MaxPath() then s.cost[p] else last0;
    step := step0 + 1;
    ExtractKeepsInv(I, s0, order0, step0, last0, p, s, order, last);
    s := Expand(I, s, order, step, last, p);
  }

  /** The neighbour loop of the node p just extracted (lines 209-229, 299-322, 467-498):
      afterwards every arc out of p has been offered. */
  method Expand(I: Instance, s0: State, ghost order: seq<int>, ghost step: nat, ghost last: int, p: nat)
      returns (s: State)
    requires Inv(I, s0, order, step, last, p, 1)
    requires p < I.N() && s0.color[p] == Black && order[p] == step - 1
    requires (I.key.ByCost? && I.rule.MaxPath()) ==> last == s0.cost[p]
    ensures Inv(I, s, order, step, last, 0, |I.adj|)
  {
    s := s0;
    var i := 1;
    while i < |I.adj|
      invariant Inv(I, s, order, step, last, p, i)
      invariant 1 <= i <= |I.adj|
      invariant s.color[p] == Black
      invariant (I.key.ByCost? && I.rule.MaxPath()) ==> last == s.cost[p]
    {
      ghost var s1 := s;
      s := VisitNeighbour(I, s, p, i);
      VisitKeepsInv(I, s1, order, step, last, p, i, s);
      i := i + 1;
    }
    OptimalArcsDone(I, s, order, p);
  }

  // ---------------------------------------------------------------------
  // Proofs of the invariants

  lemma StepBound(I: Instance, s: State, order: seq<int>, step: nat)
    requires Stamps(I, s, order, step)
    ensures step <= I.N()
  {
  }

  lemma {:induction false} CountBlackSame(c: seq<Color>, d: seq<Color>)
    requires |c| == |d|
    requires forall m :: 0 <= m < |c| ==> (c[m] == Black <==> d[m] == Black)
    ensures CountBlack(c) == CountBlack(d)
  {
    if c != [] {
      CountBlackSame(c[..|c| - 1], d[..|d| - 1]);
    }
  }

  lemma {:induction false} CountBlackAdd(c: seq<Color>, p: nat)
    requires p < |c| && c[p] != Black
    ensures CountBlack(c[p := Black]) == CountBlack(c) + 1
  {
    var d := c[p := Black];
    if p == |c| - 1 {
      assert d[..|d| - 1] == c[..|c| - 1];
    } else {
      assert d[..|d| - 1] == c[..|c| - 1][p := Black];
      CountBlackAdd(c[..|c| - 1], p);
    }
  }

  /** After the seed loop the invariant holds with nothing extracted. */
  lemma SeededInv(I: Instance, s: State, order: seq<int>)
    requires I.Valid() && Seeded(I, s) && SeedsFixed(I, s)
    requires |order| == I.N() && forall m :: 0 <= m < I.N() ==> order[m] == -1
    ensures Inv(I, s, order, 0, 0, 0, |I.adj|)
  {
    SeededValues(I, s);
    SeededLinks(I, s, order);
  }

  /** The state after the seed loop: the queue holds the seeds in list order; a queued
      node is a seed with cost 0 and no predecessor; every other node is untouched. */
  ghost predicate Seeded(I: Instance, s: State)
  {
    && Sized(s, I.N()) && s.queue == Nodes(I.roots)
    && forall m :: 0 <= m < I.N() ==>
         && s.color[m] != Black
         && (s.color[m] == Gray <==> m in s.queue)
         && (s.color[m] != White ==> m in Nodes(I.roots) && s.cost[m] == 0 && s.pred[m] == NIL)
         && (s.color[m] == White ==> s.cost[m] == INFINITY_INT && s.pred[m] == 0 && s.lbl[m] == 0)
  }

  /** The seeds are queued with their values; every other node is untouched. */
  lemma SeededValues(I: Instance, s: State)
    requires I.Valid() && Seeded(I, s)
    ensures QueueShape(I, s) && Untouched(I, s)
  {
    NodesDistinct(I.roots);
  }

  /** Nothing is extracted yet: the stamps, the forest and the ordering facts hold trivially. */
  lemma SeededLinks(I: Instance, s: State, order: seq<int>)
    requires I.Valid() && Seeded(I, s)
    requires |order| == I.N() && forall m :: 0 <= m < I.N() ==> order[m] == -1
    ensures Stamps(I, s, order, 0) && ForestLinks(I, s, order)
    ensures OptimalArcs(I, s, order, 0, |I.adj|) && Monotone(I, s, order, 0)
  {
    assert Stamps(I, s, order, 0) by {
      ZeroBlack(s.color);
    }
  }

  /** Seeds on distinct voxels enter the queue without duplicates. */
  lemma NodesDistinct(roots: seq<Seed>)
    requires DistinctNodes(roots)
    ensures NoDuplicates(Nodes(roots))
  {
    var ns := Nodes(roots);
    forall a, b | 0 <= a < b < |ns|
      ensures ns[a] != ns[b]
    {
      assert ns[a] == roots[a].node && ns[b] == roots[b].node;
    }
  }

  /** What the seed loop leaves in freshly created images: each seed with cost 0, no
      predecessor, its label and queued; every other voxel as created. */
  ghost predicate SeedLoopDone(I: Instance, s: State)
  {
    && Sized(s, I.N()) && s.queue == Nodes(I.roots)
    && (forall k :: 0 <= k < |I.roots| ==>
          var r := I.roots[k].node;
          r < I.N() && s.cost[r] == 0 && s.pred[r] == NIL && s.lbl[r] == I.roots[k].lbl && s.color[r] == Gray)
    && (forall m :: 0 <= m < I.N() && m !in Nodes(I.roots) ==>
          s.cost[m] == INFINITY_INT && s.pred[m] == 0 && s.lbl[m] == 0 && s.color[m] == White)
  }

  lemma SeedLoop(I: Instance)
    requires I.Valid()
    ensures SeedLoopDone(I, InsertSeeds(Initial(I.N()), I.roots))
  {
    var s0 := Initial(I.N());
    var s := InsertSeeds(s0, I.roots);
    assert s.queue == Nodes(I.roots);
    forall m | 0 <= m < I.N() && m !in Nodes(I.roots)
      ensures s.cost[m] == INFINITY_INT && s.pred[m] == 0 && s.lbl[m] == 0 && s.color[m] == White
    {
      assert s.cost[m] == s0.cost[m] && s.pred[m] == s0.pred[m] && s.lbl[m] == s0.lbl[m] && s.color[m] == s0.color[m];
    }
  }

  /** Each node is either a queued seed with cost 0 and no predecessor, or untouched. */
  lemma SeededNodes(I: Instance, s: State)
    requires I.Valid() && SeedLoopDone(I, s)
    ensures Seeded(I, s) && SeedsFixed(I, s)
  {
    forall m | 0 <= m < I.N()
      ensures && s.color[m] != Black
              && (s.color[m] == Gray <==> m in s.queue)
              && (s.color[m] != White ==> m in Nodes(I.roots) && s.cost[m] == 0 && s.pred[m] == NIL)
              && (s.color[m] == White ==> s.cost[m] == INFINITY_INT && s.pred[m] == 0 && s.lbl[m] == 0)
    {
      if m in Nodes(I.roots) {
        var k := SeedIndex(I.roots, m);
        assert s.color[m] == Gray && s.cost[m] == 0 && s.pred[m] == NIL;
      }
    }
  }

  lemma {:induction false} ZeroBlack(c: seq<Color>)
    requires forall m :: 0 <= m < |c| ==> c[m] != Black
    ensures CountBlack(c) == 0
  {
    if c != [] {
      ZeroBlack(c[..|c| - 1]);
    }
  }

  /** Popping the minimum keeps the invariant, with the new BLACK node's arcs still to do. */
  lemma ExtractKeepsInv(I: Instance, s0: State, order0: seq<int>, step0: nat, last0: int,
                        p: nat, s: State, order: seq<int>, last: int)
    requires Inv(I, s0, order0, step0, last0, 0, |I.adj|) && s0.queue != []
    requires (p, s) == ExtractMin(I, s0)
    requires order == order0[p := step0]
    requires last == if I.key.ByCost? && I.rule.MaxPath() then s.cost[p] else last0
    ensures Inv(I, s, order, step0 + 1, last, p, 1)
    ensures p < I.N() && s.color[p] == Black && order[p] == step0
  {
    var i :| 0 <= i < |s0.queue| && s0.queue[i] == p && s.queue == s0.queue[..i] + s0.queue[i+1..];
    assert s0.color[p] == Gray;
    ExtractKeepsShape(I, s0, order0, step0, p, i, s, order);
    ExtractKeepsForest(I, s0, order0, step0, last0, p, s, order, last);
  }

  /** Popping p keeps the queue shape, the stamps and every node's values. */
  lemma ExtractKeepsShape(I: Instance, s0: State, order0: seq<int>, step0: nat, p: nat, i: nat,
                          s: State, order: seq<int>)
    requires QueueShape(I, s0) && Stamps(I, s0, order0, step0) && Untouched(I, s0) && SeedsFixed(I, s0)
    requires i < |s0.queue| && s0.queue[i] == p && p < I.N() && s0.color[p] == Gray
    requires s == s0.(color := s0.color[p := Black], queue := s0.queue[..i] + s0.queue[i+1..])
    requires order == order0[p := step0]
    ensures QueueShape(I, s) && Stamps(I, s, order, step0 + 1) && Untouched(I, s) && SeedsFixed(I, s)
  {
    ExtractQueueShape(I, s0, p, i, s);
    ExtractStamps(I, s0, order0, step0, p, s, order);
    ExtractKeepsValues(I, s0, p, s);
  }

  /** Popping p keeps the forest links, the optimal arcs (p's own still to do) and the
      monotone extraction order. */
  lemma ExtractKeepsForest(I: Instance, s0: State, order0: seq<int>, step0: nat, last0: int,
                           p: nat, s: State, order: seq<int>, last: int)
    requires Inv(I, s0, order0, step0, last0, 0, |I.adj|)
    requires p in s0.queue && forall m :: m in s0.queue ==> Keys(I.key, s0)[p] <= Keys(I.key, s0)[m]
    requires p < I.N() && s0.color[p] == Gray
    requires s == s0.(color := s0.color[p := Black], queue := s.queue) && order == order0[p := step0]
    requires forall m :: m in s.queue ==> m in s0.queue
    requires last == if I.key.ByCost? && I.rule.MaxPath() then s.cost[p] else last0
    ensures ForestLinks(I, s, order) && OptimalArcs(I, s, order, p, 1) && Monotone(I, s, order, last)
  {
    ExtractLinks(I, s0, order0, step0, p, s, order);
    ExtractOptimal(I, s0, order0, step0, p, s, order);
    if I.key.ByCost? && I.rule.MaxPath() {
      assert Keys(I.key, s0) == s0.cost;
      ExtractMonotone(I, s0, order0, step0, last0, p, s, order);
    }
  }

  lemma ExtractKeepsValues(I: Instance, s0: State, p: nat, s: State)
    requires Untouched(I, s0) && SeedsFixed(I, s0)
    requires p < I.N() && s0.color[p] == Gray
    requires s == s0.(color := s0.color[p := Black], queue := s.queue)
    ensures Untouched(I, s) && SeedsFixed(I, s)
  {
  }

  lemma ExtractQueueShape(I: Instance, s0: State, p: nat, i: nat, s: State)
    requires QueueShape(I, s0)
    requires i < |s0.queue| && s0.queue[i] == p
    requires s == s0.(color := s0.color[p := Black], queue := s0.queue[..i] + s0.queue[i+1..])
    ensures QueueShape(I, s)
  {
    RemoveAtDistinct(s0.queue, i);
    assert forall k :: 0 <= k < |s.queue| ==> s.queue[k] == (if k < i then s0.queue[k] else s0.queue[k + 1]);
  }

  lemma ExtractStamps(I: Instance, s0: State, order0: seq<int>, step0: nat, p: nat, s: State, order: seq<int>)
    requires Stamps(I, s0, order0, step0)
    requires p < I.N() && s0.color[p] != Black
    requires s.color == s0.color[p := Black] && order == order0[p := step0]
    ensures Stamps(I, s, order, step0 + 1)
  {
    CountBlackAdd(s0.color, p);
  }

  lemma ExtractLinks(I: Instance, s0: State, order0: seq<int>, step0: nat, p: nat, s: State, order: seq<int>)
    requires ForestLinks(I, s0, order0) && Stamps(I, s0, order0, step0)
    requires p < I.N() && s0.color[p] == Gray
    requires s == s0.(color := s0.color[p := Black], queue := s.queue) && order == order0[p := step0]
    ensures ForestLinks(I, s, order)
  {
    forall m | 0 <= m < I.N() && s.color[m] != White && s.pred[m] != NIL
      ensures s.pred[m] != p && s0.color[m] != White
      ensures s.color[m] == Black ==> order[s.pred[m]] < order[m]
    {
      var r := s.pred[m];
      assert s0.color[m] != White && s0.color[r] == Black;
      if m == p {
        assert order0[r] < step0;
      }
    }
  }

  lemma ExtractOptimal(I: Instance, s0: State, order0: seq<int>, step0: nat, p: nat, s: State, order: seq<int>)
    requires OptimalArcs(I, s0, order0, 0, |I.adj|) && Stamps(I, s0, order0, step0)
    requires p < I.N() && s0.color[p] == Gray
    requires s == s0.(color := s0.color[p := Black], queue := s.queue) && order == order0[p := step0]
    ensures OptimalArcs(I, s, order, p, 1)
  {
  }

  lemma ExtractMonotone(I: Instance, s0: State, order0: seq<int>, step0: nat, last0: int,
                        p: nat, s: State, order: seq<int>)
    requires I.key.ByCost? && I.rule.MaxPath()
    requires QueueShape(I, s0) && Stamps(I, s0, order0, step0) && Monotone(I, s0, order0, last0)
    requires p in s0.queue && forall m :: m in s0.queue ==> s0.cost[p] <= s0.cost[m]
    requires s == s0.(color := s0.color[p := Black], queue := s.queue) && order == order0[p := step0]
    requires forall m :: m in s.queue ==> m in s0.queue
    ensures Monotone(I, s, order, s.cost[p])
  {
    var k :| 0 <= k < |s0.queue| && s0.queue[k] == p;
    assert s0.cost[p] >= last0;
    forall k | 0 <= k < |s.queue| && s.queue[k] < I.N()
      ensures s.cost[s.queue[k]] >= s.cost[p]
    {
      assert s.queue[k] in s0.queue;
    }
  }

  /** One iteration of the neighbour loop keeps the invariant and covers index i. */
  lemma VisitKeepsInv(I: Instance, s0: State, order: seq<int>, step: nat, last: int, p: nat, i: nat, s: State)
    requires Inv(I, s0, order, step, last, p, i)
    requires 1 <= i < |I.adj| && p < I.N() && s0.color[p] == Black && order[p] == step - 1
    requires (I.key.ByCost? && I.rule.MaxPath()) ==> last == s0.cost[p]
    requires s == VisitNeighbour(I, s0, p, i)
    ensures Inv(I, s, order, step, last, p, i + 1)
    ensures s.color[p] == Black && s.cost[p] == s0.cost[p]
  {
    match Neighbour(I.g, I.adj, p, i)
    case None =>
      SkipOptimal(I, s0, order, step, p, i);
    case Some(q) =>
      if s0.color[q] != Black {
        RelaxKeepsInv(I, s0, order, step, last, p, i, q);
      } else {
        SkipOptimal(I, s0, order, step, p, i);
      }
  }

  /** Index i of p needs no relaxation when it leaves the domain or reaches a BLACK node. */
  lemma SkipOptimal(I: Instance, s: State, order: seq<int>, step: nat, p: nat, i: nat)
    requires OptimalArcs(I, s, order, p, i) && Stamps(I, s, order, step)
    requires 1 <= i < |I.adj| && p < I.N() && s.color[p] == Black && order[p] == step - 1
    requires Neighbour(I.g, I.adj, p, i).Some? ==> s.color[Neighbour(I.g, I.adj, p, i).value] == Black
    ensures OptimalArcs(I, s, order, p, i + 1)
  {
  }

  lemma RelaxKeepsInv(I: Instance, s0: State, order: seq<int>, step: nat, last: int, p: nat, i: nat, q: nat)
    requires Inv(I, s0, order, step, last, p, i)
    requires 1 <= i < |I.adj| && p < I.N() && s0.color[p] == Black && order[p] == step - 1
    requires (I.key.ByCost? && I.rule.MaxPath()) ==> last == s0.cost[p]
    requires Neighbour(I.g, I.adj, p, i) == Some(q) && s0.color[q] != Black
    ensures Inv(I, Relax(I, s0, p, q), order, step, last, p, i + 1)
  {
    var s := Relax(I, s0, p, q);
    var c := Extend(I.rule, I.N(), p, q, s0.cost[p]);
    if c < s0.cost[q] {
      AcceptKeepsShape(I, s0, order, step, p, q);
      AcceptKeepsForest(I, s0, order, step, last, p, i, q);
    } else {
      assert s == s0;
      assert OptimalArcs(I, s, order, p, i + 1) by {
        RejectOptimal(I, s0, order, p, i, q);
      }
    }
  }

  /** An accepted candidate keeps the queue, the stamps and the values of seeds and
      unreached nodes in shape. */
  lemma AcceptKeepsShape(I: Instance, s0: State, order: seq<int>, step: nat, p: nat, q: nat)
    requires I.Valid() && QueueShape(I, s0) && Stamps(I, s0, order, step) && Untouched(I, s0) && SeedsFixed(I, s0)
    requires p < I.N() && q < I.N() && s0.color[p] == Black && s0.color[q] != Black
    requires Extend(I.rule, I.N(), p, q, s0.cost[p]) < s0.cost[q]
    ensures var s := Relax(I, s0, p, q);
            QueueShape(I, s) && Stamps(I, s, order, step) && Untouched(I, s) && SeedsFixed(I, s)
  {
    var s := Relax(I, s0, p, q);
    assert QueueShape(I, s) by {
      RelaxQueueShape(I, s0, p, q);
    }
    assert Stamps(I, s, order, step) by {
      RelaxStamps(I, s0, order, step, p, q);
    }
    assert Untouched(I, s) by {
      RelaxUntouched(I, s0, p, q);
    }
    assert SeedsFixed(I, s) by {
      RelaxSeeds(I, s0, p, q);
    }
  }

  /** An accepted candidate keeps the forest, the covered arcs and the extraction order. */
  lemma AcceptKeepsForest(I: Instance, s0: State, order: seq<int>, step: nat, last: int, p: nat, i: nat, q: nat)
    requires Inv(I, s0, order, step, last, p, i)
    requires 1 <= i < |I.adj| && p < I.N() && s0.color[p] == Black && order[p] == step - 1
    requires (I.key.ByCost? && I.rule.MaxPath()) ==> last == s0.cost[p]
    requires Neighbour(I.g, I.adj, p, i) == Some(q) && s0.color[q] != Black
    requires Extend(I.rule, I.N(), p, q, s0.cost[p]) < s0.cost[q]
    ensures var s := Relax(I, s0, p, q);
            ForestLinks(I, s, order) && OptimalArcs(I, s, order, p, i + 1) && Monotone(I, s, order, last)
  {
    var s := Relax(I, s0, p, q);
    assert ForestLinks(I, s, order) by {
      RelaxLinks(I, s0, order, p, i, q);
    }
    assert OptimalArcs(I, s, order, p, i + 1) by {
      RelaxOptimal(I, s0, order, p, i, q);
    }
    if I.key.ByCost? && I.rule.MaxPath() {
      RelaxMonotone(I, s0, order, last, p, q);
    }
  }

  /** A rejected candidate is no better than what q already holds, so index i is covered. */
  lemma RejectOptimal(I: Instance, s: State, order: seq<int>, p: nat, i: nat, q: nat)
    requires OptimalArcs(I, s, order, p, i)
    requires 1 <= i < |I.adj| && p < I.N() && Neighbour(I.g, I.adj, p, i) == Some(q)
    requires s.cost[q] <= Extend(I.rule, I.N(), p, q, s.cost[p])
    ensures OptimalArcs(I, s, order, p, i + 1)
  {
  }

  lemma RelaxQueueShape(I: Instance, s0: State, p: nat, q: nat)
    requires I.Valid() && QueueShape(I, s0) && p < I.N() && q < I.N() && s0.color[q] != Black
    requires Extend(I.rule, I.N(), p, q, s0.cost[p]) < s0.cost[q]
    ensures QueueShape(I, Relax(I, s0, p, q))
  {
    var s := Relax(I, s0, p, q);
    var queue0 := if s0.color[q] == Gray then RemoveElem(s0.queue, q) else s0.queue;
    assert s.queue == queue0 + [q];
    assert q !in queue0;
    assert NoDuplicates(s.queue) by {
      RemoveElemKeepsDistinct(s0.queue, q);
      AppendDistinct(queue0, q);
    }
    forall k | 0 <= k < |s.queue|
      ensures s.queue[k] < I.N()
    {
      if k < |queue0| {
        assert queue0[k] in queue0;
        var j :| 0 <= j < |s0.queue| && s0.queue[j] == queue0[k];
      }
    }
    forall m | 0 <= m < I.N()
      ensures s.color[m] == Gray <==> m in s.queue
    {
      assert m in s.queue <==> m in queue0 || m == q;
    }
  }

  lemma RelaxStamps(I: Instance, s0: State, order: seq<int>, step: nat, p: nat, q: nat)
    requires I.Valid() && Stamps(I, s0, order, step) && Sized(s0, I.N())
    requires p < I.N() && q < I.N() && s0.color[q] != Black
    requires Extend(I.rule, I.N(), p, q, s0.cost[p]) < s0.cost[q]
    ensures Stamps(I, Relax(I, s0, p, q), order, step)
  {
    var s := Relax(I, s0, p, q);
    assert s.color == s0.color[q := Gray];
    CountBlackSame(s0.color, s.color);
  }

  lemma RelaxUntouched(I: Instance, s0: State, p: nat, q: nat)
    requires I.Valid() && Untouched(I, s0) && p < I.N() && q < I.N() && s0.color[p] == Black
    requires Extend(I.rule, I.N(), p, q, s0.cost[p]) < s0.cost[q]
    ensures Untouched(I, Relax(I, s0, p, q))
  {
  }

  lemma RelaxSeeds(I: Instance, s0: State, p: nat, q: nat)
    requires I.Valid() && SeedsFixed(I, s0) && Untouched(I, s0) && p < I.N() && q < I.N() && s0.color[p] == Black
    requires Extend(I.rule, I.N(), p, q, s0.cost[p]) < s0.cost[q]
    ensures SeedsFixed(I, Relax(I, s0, p, q))
  {
    forall k | 0 <= k < |I.roots|
      ensures I.roots[k].node != q
    {
    }
  }

  lemma RelaxLinks(I: Instance, s0: State, order: seq<int>, p: nat, i: nat, q: nat)
    requires ForestLinks(I, s0, order) && Untouched(I, s0)
    requires 1 <= i < |I.adj| && p < I.N() && s0.color[p] == Black
    requires Neighbour(I.g, I.adj, p, i) == Some(q) && s0.color[q] != Black
    requires Extend(I.rule, I.N(), p, q, s0.cost[p]) < s0.cost[q]
    ensures ForestLinks(I, Relax(I, s0, p, q), order)
  {
    var s := Relax(I, s0, p, q);
    var c := Extend(I.rule, I.N(), p, q, s0.cost[p]);
    assert Arc(I, p, q);
    RelaxRoots(I, s0, p, q, s);
    RelaxPreds(I, s0, order, p, q, c, s);
  }

  /** A node the relaxation leaves without predecessor already had none. */
  lemma RelaxRoots(I: Instance, s0: State, p: nat, q: nat, s: State)
    requires I.Valid() && Sized(s0, I.N()) && Sized(s, I.N()) && p < I.N() && q < I.N()
    requires forall m :: 0 <= m < I.N() && s0.color[m] != White && s0.pred[m] == NIL ==> m in Nodes(I.roots)
    requires s.pred == s0.pred[q := p] && s.color == s0.color[q := Gray]
    ensures forall m :: 0 <= m < I.N() && s.color[m] != White && s.pred[m] == NIL ==> m in Nodes(I.roots)
  {
  }

  /** The relaxed node q now hangs from p; every other link is untouched, and no link
      starts at q because q was not BLACK. */
  lemma RelaxPreds(I: Instance, s0: State, order: seq<int>, p: nat, q: nat, c: int, s: State)
    requires ForestLinks(I, s0, order)
    requires p < I.N() && q < I.N() && p != q && s0.color[p] == Black && s0.color[q] != Black
    requires c == Extend(I.rule, I.N(), p, q, s0.cost[p]) && Arc(I, p, q)
    requires s == State(s0.cost[q := c], s0.pred[q := p], s0.lbl[q := s0.lbl[p]], s0.color[q := Gray], s.queue)
    ensures forall m :: 0 <= m < I.N() && s.color[m] != White && s.pred[m] != NIL ==>
              var r := s.pred[m];
              && 0 <= r < I.N()
              && s.color[r] == Black
              && (s.color[m] == Black ==> order[r] < order[m])
              && s.lbl[m] == s.lbl[r]
              && s.cost[m] == Extend(I.rule, I.N(), r, m, s.cost[r])
              && Arc(I, r, m)
  {
    forall m | 0 <= m < I.N() && s.color[m] != White && s.pred[m] != NIL && m != q
      ensures s.pred[m] == s0.pred[m] && s.pred[m] != q
    {
    }
  }

  lemma RelaxOptimal(I: Instance, s0: State, order: seq<int>, p: nat, i: nat, q: nat)
    requires OptimalArcs(I, s0, order, p, i)
    requires 1 <= i < |I.adj| && p < I.N() && s0.color[p] == Black
    requires Neighbour(I.g, I.adj, p, i) == Some(q) && s0.color[q] != Black
    requires Extend(I.rule, I.N(), p, q, s0.cost[p]) < s0.cost[q]
    ensures OptimalArcs(I, Relax(I, s0, p, q), order, p, i + 1)
  {
    var s := Relax(I, s0, p, q);
    forall p', j | 0 <= p' < I.N() && 1 <= j < |I.adj| && s.color[p'] == Black && (p' != p || j < i + 1) &&
                   Neighbour(I.g, I.adj, p', j).Some?
      ensures var q' := Neighbour(I.g, I.adj, p', j).value;
              (s.color[q'] != Black || order[p'] < order[q']) ==> s.cost[q'] <= Extend(I.rule, I.N(), p', q', s.cost[p'])
    {
      assert s.cost[p'] == s0.cost[p'];
    }
  }

  lemma RelaxMonotone(I: Instance, s0: State, order: seq<int>, last: int, p: nat, q: nat)
    requires I.Valid() && I.key.ByCost? && I.rule.MaxPath()
    requires Monotone(I, s0, order, last) && QueueShape(I, s0)
    requires p < I.N() && q < I.N() && s0.color[p] == Black && s0.color[q] != Black && last == s0.cost[p]
    requires Extend(I.rule, I.N(), p, q, s0.cost[p]) < s0.cost[q]
    ensures Monotone(I, Relax(I, s0, p, q), order, last)
  {
    var s := Relax(I, s0, p, q);
    var queue0 := if s0.color[q] == Gray then RemoveElem(s0.queue, q) else s0.queue;
    assert s.queue == queue0 + [q];
    forall k | 0 <= k < |s.queue| && s.queue[k] < I.N()
      ensures s.cost[s.queue[k]] >= last
    {
      if s.queue[k] != q {
        assert s.queue[k] in queue0;
        assert s.queue[k] in s0.queue;
      }
    }
  }

  /** Once the neighbour loop has covered every index of p, p is no longer an exception. */
  lemma OptimalArcsDone(I: Instance, s: State, order: seq<int>, p: nat)
    requires OptimalArcs(I, s, order, p, |I.adj|)
    ensures OptimalArcs(I, s, order, 0, |I.adj|)
  {
  }

  /** With the queue empty, the loop invariant gives the postcondition of Ift. */
  lemma SettledFacts(I: Instance, s: State, order: seq<int>, step: nat, last: int)
    requires Inv(I, s, order, step, last, 0, |I.adj|) && s.queue == []
    ensures Settled(I, s, order)
  {
    StepBound(I, s, order, step);
    assert forall m :: 0 <= m < I.N() ==> s.color[m] != Gray by {
      SettledNoGray(I, s);
    }
    assert Rooted(I, s, order) by {
      SettledRooted(I, s, order, step);
    }
    assert Closed(I, s) by {
      SettledClosed(I, s, order);
    }
  }

  /** With the queue empty, no node is GRAY. */
  lemma SettledNoGray(I: Instance, s: State)
    requires QueueShape(I, s) && s.queue == []
    ensures forall m :: 0 <= m < I.N() ==> s.color[m] != Gray
  {
  }

  /** Every extracted node was extracted at a step below N. */
  lemma SettledRooted(I: Instance, s: State, order: seq<int>, step: nat)
    requires ForestLinks(I, s, order) && Stamps(I, s, order, step) && step <= I.N()
    ensures Rooted(I, s, order)
  {
  }

  /** Without GRAY nodes, an arc whose candidate is finite leads to an extracted node:
      an unreached neighbour would still hold INFINITY_INT, above the candidate. */
  lemma SettledClosed(I: Instance, s: State, order: seq<int>)
    requires Untouched(I, s) && OptimalArcs(I, s, order, 0, |I.adj|)
    requires forall m :: 0 <= m < I.N() ==> s.color[m] != Gray
    ensures Closed(I, s)
  {
    forall p, j | 0 <= p < I.N() && 1 <= j < |I.adj| && s.color[p] == Black && Neighbour(I.g, I.adj, p, j).Some?
      ensures var q := Neighbour(I.g, I.adj, p, j).value;
              Extend(I.rule, I.N(), p, q, s.cost[p]) < INFINITY_INT ==> s.color[q] == Black
    {
      var q := Neighbour(I.g, I.adj, p, j).value;
      if s.color[q] == White {
        assert s.cost[q] == INFINITY_INT;
      }
    }
  }


  // ---------------------------------------------------------------------
  // The forest the loop leaves behind

  /** The path m, pred[m], pred[pred[m]], ... from an extracted node back to the seed that
      roots it.  Extraction steps strictly decrease along it, so it has no repeated node. */
  ghost function Chain(I: Instance, s: State, order: seq<int>, m: nat): (c: seq<nat>)
    requires Rooted(I, s, order) && m < I.N() && s.color[m] == Black
    ensures |c| >= 1 && c[0] == m
    ensures forall k :: 0 <= k < |c| ==> c[k] < I.N() && s.color[c[k]] == Black
    ensures forall k :: 0 <= k < |c| - 1 ==> s.pred[c[k]] == c[k + 1]
    ensures s.pred[c[|c| - 1]] == NIL && c[|c| - 1] in Nodes(I.roots)
    decreases order[m]
  {
    if s.pred[m] == NIL then [m]
    else [m] + Chain(I, s, order, s.pred[m])
  }

  /** Along the path, extraction steps strictly decrease: the path visits no node twice. */
  lemma ChainOrdered(I: Instance, s: State, order: seq<int>, m: nat)
    requires Rooted(I, s, order) && m < I.N() && s.color[m] == Black
    ensures var c := Chain(I, s, order, m);
            forall a, b :: 0 <= a < b < |c| ==> order[c[b]] < order[c[a]]
  {
    var c := Chain(I, s, order, m);
    forall k | 0 <= k < |c| - 1
      ensures order[c[k + 1]] < order[c[k]]
    {
      assert s.pred[c[k]] == c[k + 1];
    }
    Decreasing(c, order);
  }

  /** Along the path the label stays that of m. */
  lemma ChainLabel(I: Instance, s: State, order: seq<int>, m: nat)
    requires Rooted(I, s, order) && m < I.N() && s.color[m] == Black
    ensures var c := Chain(I, s, order, m);
            forall k :: 0 <= k < |c| ==> s.lbl[c[k]] == s.lbl[m]
  {
    var c := Chain(I, s, order, m);
    forall k | 0 <= k < |c| - 1
      ensures s.lbl[c[k + 1]] == s.lbl[c[k]]
    {
      assert s.pred[c[k]] == c[k + 1];
    }
    SameLabel(c, s.lbl);
  }

  /** Keys that drop from each entry to the next drop along the whole sequence. */
  lemma {:induction false} Decreasing(c: seq<nat>, key: seq<int>)
    requires forall k :: 0 <= k < |c| ==> c[k] < |key|
    requires forall k :: 0 <= k < |c| - 1 ==> key[c[k + 1]] < key[c[k]]
    ensures forall a, b :: 0 <= a < b < |c| ==> key[c[b]] < key[c[a]]
  {
    if |c| > 1 {
      var d := c[1..];
      assert forall k :: 0 <= k < |d| - 1 ==> key[d[k + 1]] < key[d[k]] by {
        forall k | 0 <= k < |d| - 1
          ensures key[d[k + 1]] < key[d[k]]
        {
          assert d[k] == c[k + 1] && d[k + 1] == c[k + 2];
        }
      }
      Decreasing(d, key);
      forall a, b | 0 <= a < b < |c|
        ensures key[c[b]] < key[c[a]]
      {
        assert c[b] == d[b - 1];
        if a == 0 {
          if b > 1 {
            assert key[d[b - 1]] < key[d[0]];
          }
        } else {
          assert c[a] == d[a - 1];
        }
      }
    }
  }

  /** Labels equal from each entry to the next are all the first entry's label. */
  lemma {:induction false} SameLabel(c: seq<nat>, lbl: seq<int>)
    requires |c| >= 1 && forall k :: 0 <= k < |c| ==> c[k] < |lbl|
    requires forall k :: 0 <= k < |c| - 1 ==> lbl[c[k + 1]] == lbl[c[k]]
    ensures forall k :: 0 <= k < |c| ==> lbl[c[k]] == lbl[c[0]]
  {
    if |c| > 1 {
      var d := c[1..];
      assert forall k :: 0 <= k < |d| - 1 ==> lbl[d[k + 1]] == lbl[d[k]] by {
        forall k | 0 <= k < |d| - 1
          ensures lbl[d[k + 1]] == lbl[d[k]]
        {
          assert d[k] == c[k + 1] && d[k + 1] == c[k + 2];
        }
      }
      SameLabel(d, lbl);
      forall k | 1 <= k < |c|
        ensures lbl[c[k]] == lbl[c[0]]
      {
        assert c[k] == d[k - 1];
      }
    }
  }

  /** Label propagation: an extracted node carries the label of the seed at the end of
      its path. */
  lemma RootLabel(I: Instance, s: State, order: seq<int>, m: nat)
    requires Rooted(I, s, order) && SeedsFixed(I, s) && m < I.N() && s.color[m] == Black
    ensures var c := Chain(I, s, order, m);
            exists k :: 0 <= k < |I.roots| && I.roots[k].node == c[|c| - 1] && s.lbl[m] == I.roots[k].lbl
  {
    var c := Chain(I, s, order, m);
    var r := c[|c| - 1];
    ChainLabel(I, s, order, m);
    var k := SeedIndex(I.roots, r);
    assert s.lbl[r] == I.roots[k].lbl;
  }

  /** The position of a seed voxel in the seed list. */
  lemma SeedIndex(roots: seq<Seed>, r: nat) returns (k: nat)
    requires r in Nodes(roots)
    ensures k < |roots| && roots[k].node == r
  {
    var ns := Nodes(roots);
    k :| 0 <= k < |ns| && ns[k] == r;
  }

  /** Every node's label is either a seed's label (it was reached) or 0 with an infinite
      cost (it was not). */
  lemma LabelsFromSeeds(I: Instance, s: State, order: seq<int>)
    requires Settled(I, s, order)
    ensures forall m :: 0 <= m < I.N() ==>
              || (s.color[m] == White && s.cost[m] == INFINITY_INT && s.lbl[m] == 0)
              || (s.color[m] == Black && exists k :: 0 <= k < |I.roots| && s.lbl[m] == I.roots[k].lbl)
  {
    forall m | 0 <= m < I.N() && s.color[m] == Black
      ensures exists k :: 0 <= k < |I.roots| && s.lbl[m] == I.roots[k].lbl
    {
      RootLabel(I, s, order, m);
    }
  }

  /** Bottleneck monotonicity: with a max-path rule, costs never decrease from the root
      out along a path of the forest. */
  lemma ChainCostsMonotone(I: Instance, s: State, order: seq<int>, m: nat)
    requires Rooted(I, s, order) && I.rule.MaxPath() && m < I.N() && s.color[m] == Black
    ensures var c := Chain(I, s, order, m);
            forall a, b :: 0 <= a < b < |c| ==> s.cost[c[b]] <= s.cost[c[a]]
  {
    var c := Chain(I, s, order, m);
    forall k | 0 <= k < |c| - 1
      ensures s.cost[c[k + 1]] <= s.cost[c[k]]
    {
      var p := s.pred[c[k]];
      assert s.cost[c[k]] == Extend(I.rule, I.N(), p, c[k], s.cost[p]);
    }
    NonIncreasing(c, s.cost);
  }

  /** Costs that never increase from one entry to the next never increase along the whole path. */
  lemma {:induction false} NonIncreasing(c: seq<nat>, cost: seq<int>)
    requires forall k :: 0 <= k < |c| ==> c[k] < |cost|
    requires forall k :: 0 <= k < |c| - 1 ==> cost[c[k + 1]] <= cost[c[k]]
    ensures forall a, b :: 0 <= a < b < |c| ==> cost[c[b]] <= cost[c[a]]
  {
    if |c| > 1 {
      var d := c[1..];
      assert forall k :: 0 <= k < |d| - 1 ==> cost[d[k + 1]] <= cost[d[k]] by {
        forall k | 0 <= k < |d| - 1
          ensures cost[d[k + 1]] <= cost[d[k]]
        {
          assert d[k] == c[k + 1] && d[k + 1] == c[k + 2];
        }
      }
      NonIncreasing(d, cost);
      forall a, b | 0 <= a < b < |c|
        ensures cost[c[b]] <= cost[c[a]]
      {
        assert c[b] == d[b - 1];
        if a == 0 {
          if b > 1 {
            assert cost[d[b - 1]] <= cost[d[0]];
          }
        } else {
          assert c[a] == d[a - 1];
        }
      }
    }
  }

  /** No arc of the adjacency relation (index >= 1, both ends on the lattice) weighs more
      than B under the max-path rule. */
  predicate ArcsBounded(g: Lattice, adj: AdjRel, rule: Rule, B: int)
    requires rule.MaxPath() && rule.WellFormed(g.Size())
  {
    forall p, j :: 0 <= p < g.Size() && 1 <= j < |adj| && Neighbour(g, adj, p, j).Some? ==>
      ArcWeight(rule, g.Size(), p, Neighbour(g, adj, p, j).value) <= B
  }

  /** With a max-path rule whose arcs never weigh more than B, no reached node costs more
      than B: the path values fit a queue with B + 1 buckets. */
  lemma {:induction false} CostBound(I: Instance, s: State, order: seq<int>, m: nat, B: int)
    requires Rooted(I, s, order) && SeedsFixed(I, s) && I.rule.MaxPath() && B >= 0
    requires ArcsBounded(I.g, I.adj, I.rule, B)
    requires m < I.N() && s.color[m] == Black
    ensures 0 <= s.cost[m] <= B
    decreases order[m]
  {
    if s.pred[m] == NIL {
      var k := SeedIndex(I.roots, m);
      assert s.cost[I.roots[k].node] == 0;
    } else {
      var p := s.pred[m];
      CostBound(I, s, order, p, B);
      assert Arc(I, p, m);
      var j :| 1 <= j < |I.adj| && Neighbour(I.g, I.adj, p, j) == Some(m);
      assert ArcWeight(I.rule, I.N(), p, Neighbour(I.g, I.adj, p, j).value) <= B;
      BottleneckForm(I.rule, I.N(), p, m, s.cost[p]);
    }
  }

  /** With a max-path rule whose arcs never weigh more than B, every candidate offered along
      an arc out of an extracted node lies in [0, B]: every key the queue ever holds fits
      B + 1 buckets. */
  lemma CandidatesBounded(I: Instance, s: State, order: seq<int>, B: int)
    requires Rooted(I, s, order) && SeedsFixed(I, s) && I.rule.MaxPath() && B >= 0
    requires ArcsBounded(I.g, I.adj, I.rule, B)
    ensures forall p, j :: 0 <= p < I.N() && 1 <= j < |I.adj| && Neighbour(I.g, I.adj, p, j).Some? &&
                           s.color[p] == Black ==>
              0 <= Extend(I.rule, I.N(), p, Neighbour(I.g, I.adj, p, j).value, s.cost[p]) <= B
  {
    forall p, j | 0 <= p < I.N() && 1 <= j < |I.adj| && Neighbour(I.g, I.adj, p, j).Some? && s.color[p] == Black
      ensures 0 <= Extend(I.rule, I.N(), p, Neighbour(I.g, I.adj, p, j).value, s.cost[p]) <= B
    {
      CostBound(I, s, order, p, B);
      BottleneckForm(I.rule, I.N(), p, Neighbour(I.g, I.adj, p, j).value, s.cost[p]);
    }
  }

  /** In seed connection the candidate for q does not depend on p and never undercuts what
      q already holds, so once q has been reached no relaxation changes anything: each
      node's cost is set at most once. */
  lemma ObjectPathReachedOnce(I: Instance, s: State, order: seq<int>, p: nat, q: nat)
    requires I.rule.ObjectPath? && ForestLinks(I, s, order) && SeedsFixed(I, s)
    requires p < I.N() && q < I.N() && s.color[q] != White
    ensures Relax(I, s, p, q) == s
  {
    var c := Extend(I.rule, I.N(), p, q, s.cost[p]);
    assert c == I.rule.omax - I.rule.obj[q];
    if s.pred[q] == NIL {
      var k := SeedIndex(I.roots, q);
      assert s.cost[I.roots[k].node] == 0;
      assert s.cost[q] <= c;
    } else {
      var r := s.pred[q];
      assert 0 <= r < I.N() && s.cost[q] == Extend(I.rule, I.N(), r, q, s.cost[r]);
      assert s.cost[q] == c;
    }
  }
}
