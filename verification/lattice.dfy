/** The voxel lattice of an ift image and its adjacency relations.

    A node is the index p of a voxel in raster order; a voxel is a triple of
    coordinates.  An adjacency relation is a list of displacements whose
    entry 0 is the zero displacement (the node itself); callers enumerate
    neighbours from entry 1 on.
 */
module Lattice {
  import opened Wrappers

  /** Image domain: xsize * ysize * zsize voxels (zsize == 1 for a 2-D image). */
  datatype Lattice = Lattice(xsize: nat, ysize: nat, zsize: nat)
  {
    function Size(): nat
    {
      xsize * ysize * zsize
    }

    /** Voxels in one z-slice. */
    function SliceSize(): nat
    {
      xsize * ysize
    }
  }

  datatype Voxel = Voxel(x: int, y: int, z: int)

  type AdjRel = seq<Voxel>

  /** iftCircular(1.0): the zero displacement, then the 4-neighbourhood.  iftAdjacency is
      not part of this model: the raster order of the neighbours is an assumption. */
  const Circular1: AdjRel :=
    [Voxel(0, 0, 0), Voxel(0, -1, 0), Voxel(-1, 0, 0), Voxel(1, 0, 0), Voxel(0, 1, 0)]

  /** iftSpheric(1.0): the zero displacement, then the 6-neighbourhood.  The raster order of
      the neighbours is an assumption, as for Circular1. */
  const Spheric1: AdjRel :=
    [Voxel(0, 0, 0), Voxel(0, 0, -1), Voxel(0, -1, 0), Voxel(-1, 0, 0),
     Voxel(1, 0, 0), Voxel(0, 1, 0), Voxel(0, 0, 1)]

  /** iftValidVoxel: v lies inside the image domain. */
  predicate ValidVoxel(g: Lattice, v: Voxel)
  {
    && 0 <= v.x < g.xsize
    && 0 <= v.y < g.ysize
    && 0 <= v.z < g.zsize
  }

  /** iftGetAdjacentVoxel: the voxel at displacement adj[i] from v. */
  function AdjacentVoxel(adj: AdjRel, v: Voxel, i: nat): Voxel
    requires i < |adj|
  {
    Voxel(v.x + adj[i].x, v.y + adj[i].y, v.z + adj[i].z)
  }

  /** iftGetVoxelIndex: raster index of a voxel inside the domain. */
  function VoxelIndex(g: Lattice, v: Voxel): (p: nat)
    requires ValidVoxel(g, v)
    ensures p < g.Size()
  {
    IndexBound(g, v);
    v.x + v.y * g.xsize + v.z * g.SliceSize()
  }

  /** iftGetVoxelCoord: the voxel of a raster index; the inverse of VoxelIndex. */
  function VoxelCoord(g: Lattice, p: nat): (v: Voxel)
    requires p < g.Size()
    ensures ValidVoxel(g, v)
    ensures VoxelIndex(g, v) == p
  {
    CoordBound(g, p);
    var r := p % g.SliceSize();
    Voxel(r % g.xsize, r / g.xsize, p / g.SliceSize())
  }

  /** VoxelCoord undoes VoxelIndex: distinct voxels have distinct indices. */
  lemma CoordOfIndex(g: Lattice, v: Voxel)
    requires ValidVoxel(g, v)
    ensures VoxelCoord(g, VoxelIndex(g, v)) == v
  {
    var xy := g.SliceSize();
    var r := v.x + v.y * g.xsize;
    RowBound(g.xsize, g.ysize, v.x, v.y);
    DivModUnique(VoxelIndex(g, v), xy, v.z, r);
    DivModUnique(r, g.xsize, v.y, v.x);
  }

  /** The in-domain neighbour of node p at adjacency index i, if any. */
  function Neighbour(g: Lattice, adj: AdjRel, p: nat, i: nat): (r: Option<nat>)
    requires p < g.Size() && i < |adj|
    ensures r.Some? <==> ValidVoxel(g, AdjacentVoxel(adj, VoxelCoord(g, p), i))
    ensures r.Some? ==> r.value < g.Size()
  {
    var v := AdjacentVoxel(adj, VoxelCoord(g, p), i);
    if ValidVoxel(g, v) then Some(VoxelIndex(g, v)) else None
  }

  /** The neighbour of the node of voxel u at index i is the node of u + adj[i]. */
  lemma NeighbourOfVoxel(g: Lattice, adj: AdjRel, u: Voxel, i: nat)
    requires ValidVoxel(g, u) && i < |adj|
    ensures var w := AdjacentVoxel(adj, u, i);
            Neighbour(g, adj, VoxelIndex(g, u), i) ==
              if ValidVoxel(g, w) then Some(VoxelIndex(g, w)) else None
  {
    CoordOfIndex(g, u);
  }

  // ---------------------------------------------------------------------
  // Connectivity of the lattice

  /** S is closed under the neighbourhood: every in-domain neighbour of a member is a member. */
  ghost predicate ClosedUnder(g: Lattice, adj: AdjRel, S: set<nat>)
  {
    forall p, i :: p in S && p < g.Size() && 1 <= i < |adj| && Neighbour(g, adj, p, i).Some? ==>
      Neighbour(g, adj, p, i).value in S
  }

  /** The adjacency relations the delineation routines use on a lattice they connect. */
  predicate Connecting(g: Lattice, adj: AdjRel)
  {
    adj == Spheric1 || (adj == Circular1 && g.zsize == 1)
  }

  /** The displacement indices of -x, +x, -y, +y, -z, +z in a connecting relation. */
  function AxisIndex(adj: AdjRel, axis: nat, up: bool): (i: nat)
    requires adj == Spheric1 || adj == Circular1
    requires axis < 3 && (adj == Circular1 ==> axis < 2)
    ensures 1 <= i < |adj|
    ensures adj[i] == Voxel(if axis == 0 then (if up then 1 else -1) else 0,
                            if axis == 1 then (if up then 1 else -1) else 0,
                            if axis == 2 then (if up then 1 else -1) else 0)
  {
    if adj == Spheric1 then
      (if axis == 0 then (if up then 4 else 3)
       else if axis == 1 then (if up then 5 else 2)
       else (if up then 6 else 1))
    else
      (if axis == 0 then (if up then 3 else 2) else (if up then 4 else 1))
  }

  /** One step along an axis stays inside a closed set. */
  lemma StepInClosed(g: Lattice, adj: AdjRel, S: set<nat>, u: Voxel, axis: nat, up: bool)
    requires Connecting(g, adj) && ClosedUnder(g, adj, S)
    requires ValidVoxel(g, u) && VoxelIndex(g, u) in S
    requires axis < 3 && (adj == Circular1 ==> axis < 2)
    ensures var i := AxisIndex(adj, axis, up);
            ValidVoxel(g, AdjacentVoxel(adj, u, i)) ==> VoxelIndex(g, AdjacentVoxel(adj, u, i)) in S
  {
    var i := AxisIndex(adj, axis, up);
    NeighbourOfVoxel(g, adj, u, i);
  }

  /** From any member of a closed set, the origin voxel is reached by walking down the axes. */
  lemma {:induction false} OriginInClosed(g: Lattice, adj: AdjRel, S: set<nat>, u: Voxel)
    requires Connecting(g, adj) && ClosedUnder(g, adj, S)
    requires ValidVoxel(g, u) && VoxelIndex(g, u) in S
    ensures 0 in S
    decreases u.x + u.y + u.z
  {
    if u.x > 0 {
      StepInClosed(g, adj, S, u, 0, false);
      OriginInClosed(g, adj, S, Voxel(u.x - 1, u.y, u.z));
    } else if u.y > 0 {
      StepInClosed(g, adj, S, u, 1, false);
      OriginInClosed(g, adj, S, Voxel(u.x, u.y - 1, u.z));
    } else if u.z > 0 {
      StepInClosed(g, adj, S, u, 2, false);
      OriginInClosed(g, adj, S, Voxel(u.x, u.y, u.z - 1));
    } else {
      assert u == Voxel(0, 0, 0);
    }
  }

  /** A closed set holding the origin holds every voxel: walk up the axes from the origin. */
  lemma {:induction false} ClosedFromOrigin(g: Lattice, adj: AdjRel, S: set<nat>, v: Voxel)
    requires Connecting(g, adj) && ClosedUnder(g, adj, S)
    requires 0 in S && ValidVoxel(g, v)
    ensures VoxelIndex(g, v) in S
    decreases v.x + v.y + v.z
  {
    if v.x > 0 {
      var u := Voxel(v.x - 1, v.y, v.z);
      ClosedFromOrigin(g, adj, S, u);
      StepInClosed(g, adj, S, u, 0, true);
    } else if v.y > 0 {
      var u := Voxel(v.x, v.y - 1, v.z);
      ClosedFromOrigin(g, adj, S, u);
      StepInClosed(g, adj, S, u, 1, true);
    } else if v.z > 0 {
      var u := Voxel(v.x, v.y, v.z - 1);
      ClosedFromOrigin(g, adj, S, u);
      StepInClosed(g, adj, S, u, 2, true);
    } else {
      assert v == Voxel(0, 0, 0);
    }
  }

  /** The lattice is connected under Spheric1, and a 2-D lattice under Circular1:
      a closed set with one member is the whole domain. */
  lemma ClosedSetCoversLattice(g: Lattice, adj: AdjRel, S: set<nat>, p0: nat)
    requires Connecting(g, adj) && ClosedUnder(g, adj, S)
    requires p0 in S && p0 < g.Size()
    ensures forall p :: 0 <= p < g.Size() ==> p in S
  {
    OriginInClosed(g, adj, S, VoxelCoord(g, p0));
    forall p | 0 <= p < g.Size()
      ensures p in S
    {
      ClosedFromOrigin(g, adj, S, VoxelCoord(g, p));
    }
  }

  // ---------------------------------------------------------------------
  // Arithmetic helpers

  lemma DivModUnique(a: int, b: int, q: int, r: int)
    requires b > 0 && 0 <= r < b && a == q * b + r
    ensures a / b == q && a % b == r
  {
    var q0, r0 := a / b, a % b;
    assert a == q0 * b + r0;
    assert (q - q0) * b == r0 - r;
    MulAwayFromZero(q - q0, b);
  }

  /** A non-zero multiple of a positive b is at least b away from zero. */
  lemma MulAwayFromZero(d: int, b: int)
    requires b > 0
    ensures d >= 1 ==> d * b >= b
    ensures d <= -1 ==> d * b <= -b
  {
    if d >= 1 {
      MulLe(1, d, b);
    } else if d <= -1 {
      MulLe(d, -1, b);
    }
  }

  /** Multiplying by a positive b reflects strict order back. */
  lemma LessFromMul(x: int, c: int, b: int)
    requires b > 0
    ensures x * b < c * b ==> x < c
  {
    if x >= c {
      MulLe(c, x, b);
    }
  }

  lemma MulLe(a: int, b: int, c: int)
    requires a <= b && c >= 0
    ensures a * c <= b * c
  {
    assert b * c - a * c == (b - a) * c;
  }

  /** x + y * xs lies inside the slice xs * ys. */
  lemma RowBound(xs: nat, ys: nat, x: int, y: int)
    requires 0 <= x < xs && 0 <= y < ys
    ensures 0 <= x + y * xs < xs * ys
  {
    MulLe(y + 1, ys, xs);
    assert (y + 1) * xs == y * xs + xs;
    assert ys * xs == xs * ys;
  }

  lemma IndexBound(g: Lattice, v: Voxel)
    requires ValidVoxel(g, v)
    ensures 0 <= v.x + v.y * g.xsize + v.z * g.SliceSize() < g.Size()
  {
    var xy := g.SliceSize();
    RowBound(g.xsize, g.ysize, v.x, v.y);
    MulLe(v.z + 1, g.zsize, xy);
    assert (v.z + 1) * xy == v.z * xy + xy;
    assert g.Size() == xy * g.zsize;
  }

  lemma CoordBound(g: Lattice, p: nat)
    requires p < g.Size()
    ensures g.xsize > 0 && g.SliceSize() > 0
    ensures var r := p % g.SliceSize();
            && 0 <= r / g.xsize < g.ysize
            && 0 <= p / g.SliceSize() < g.zsize
            && (r % g.xsize) + (r / g.xsize) * g.xsize + (p / g.SliceSize()) * g.SliceSize() == p
  {
    var xs, xy := g.xsize, g.SliceSize();
    assert g.Size() == xy * g.zsize;
    assert xs > 0 && xy > 0;
    var r := p % xy;
    DivBound(p, xy, g.zsize);
    DivBound(r, xs, g.ysize);
    assert r == (r / xs) * xs + r % xs;
    assert p == (p / xy) * xy + r;
  }

  /** a < b * c with b > 0 bounds the quotient a / b below c. */
  lemma DivBound(a: nat, b: nat, c: nat)
    requires b > 0 && a < b * c
    ensures 0 <= a / b < c
  {
    assert a == (a / b) * b + a % b;
    assert b * c == c * b;
    LessFromMul(a / b, c, b);
  }
}
