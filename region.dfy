/**
 * The region the flood fill selects, stated independently of the
 * breadth-first search: the pixels joined to the seed by a 4-connected
 * path of pixels whose Lab colour is within tolerance of the seed's.
 */
module Region {

  import opened Color

  /** A pixel coordinate as the editor passes it around: (x, y), column first. */
  type Coord = (int, int)

  /** The Lab image, row by row: grid[y][x]. */
  type LabGrid = seq<seq<Lab>>

  /** Every row has the same width. */
  predicate Rectangular(grid: LabGrid, h: nat, w: nat)
  {
    |grid| == h && forall y :: 0 <= y < h ==> |grid[y]| == w
  }

  predicate InBounds(grid: LabGrid, p: Coord)
  {
    0 <= p.1 < |grid| && 0 <= p.0 < |grid[p.1]|
  }

  function At(grid: LabGrid, p: Coord): Lab
    requires InBounds(grid, p)
  {
    grid[p.1][p.0]
  }

  function Abs(n: int): nat
  {
    if n < 0 then -n else n
  }

  /** 4-adjacency: the two pixels differ by one step along exactly one axis. */
  predicate Adjacent(p: Coord, q: Coord)
  {
    Abs(p.0 - q.0) + Abs(p.1 - q.1) == 1
  }

  /**
   * The four pixels the fill enqueues after accepting p, in the order it
   * enqueues them: right, left, down, up. They are exactly the pixels
   * 4-adjacent to p, so no diagonal neighbour is ever enqueued.
   */
  function Neighbors(p: Coord): (ns: seq<Coord>)
    ensures |ns| == 4
    ensures forall q :: q in ns <==> Adjacent(p, q)
  {
    [(p.0 + 1, p.1), (p.0 - 1, p.1), (p.0, p.1 + 1), (p.0, p.1 - 1)]
  }

  /** A pixel the fill marks: inside the image and within tolerance of the seed colour. */
  predicate Accepted(grid: LabGrid, seedColor: Lab, p: Coord)
  {
    InBounds(grid, p) && Similar(At(grid, p), seedColor)
  }

  /** A 4-connected walk: each step moves to an adjacent pixel. */
  ghost predicate Connected4(path: seq<Coord>)
  {
    forall i :: 0 < i < |path| ==> Adjacent(path[i - 1], path[i])
  }

  /** A walk from the seed through accepted pixels only. */
  ghost predicate FillPath(grid: LabGrid, seed: Coord, path: seq<Coord>)
  {
    InBounds(grid, seed) && |path| > 0 && path[0] == seed && Connected4(path) &&
    forall i :: 0 <= i < |path| ==> Accepted(grid, At(grid, seed), path[i])
  }

  /** The region grown from seed: every pixel some fill path ends at. */
  ghost predicate InRegion(grid: LabGrid, seed: Coord, p: Coord)
  {
    exists path :: FillPath(grid, seed, path) && path[|path| - 1] == p
  }

  /** Seed inclusion: an in-bounds seed is always in its own region (its distance to itself is 0). */
  lemma SeedInRegion(grid: LabGrid, seed: Coord)
    requires InBounds(grid, seed)
    ensures InRegion(grid, seed, seed)
  {
    SimilarToItself(At(grid, seed));
    assert FillPath(grid, seed, [seed]);
  }

  /** Soundness: a region pixel is inside the image and within tolerance of the seed colour. */
  lemma RegionSimilar(grid: LabGrid, seed: Coord, p: Coord)
    requires InRegion(grid, seed, p)
    ensures InBounds(grid, seed) && InBounds(grid, p)
    ensures Similar(At(grid, p), At(grid, seed))
  {
    var path :| FillPath(grid, seed, path) && path[|path| - 1] == p;
    assert Accepted(grid, At(grid, seed), path[|path| - 1]);
  }

  /** The region is closed under accepted 4-neighbours: one more step of the fill stays inside it. */
  lemma RegionStep(grid: LabGrid, seed: Coord, p: Coord, q: Coord)
    requires InRegion(grid, seed, p)
    requires Adjacent(p, q)
    requires InBounds(grid, seed) && Accepted(grid, At(grid, seed), q)
    ensures InRegion(grid, seed, q)
  {
    var path :| FillPath(grid, seed, path) && path[|path| - 1] == p;
    var longer := path + [q];
    assert longer[|longer| - 1] == q;
    assert FillPath(grid, seed, longer);
  }

  /**
   * Connectivity: every region pixel is joined to the seed by a 4-connected
   * walk all of whose pixels are themselves in the region.
   */
  lemma {:induction false} RegionConnected(grid: LabGrid, seed: Coord, p: Coord)
    requires InRegion(grid, seed, p)
    ensures exists path ::
      |path| > 0 && path[0] == seed && path[|path| - 1] == p && Connected4(path) &&
      forall i :: 0 <= i < |path| ==> InRegion(grid, seed, path[i])
  {
    var path :| FillPath(grid, seed, path) && path[|path| - 1] == p;
    forall i | 0 <= i < |path|
      ensures InRegion(grid, seed, path[i])
    {
      var prefix := path[..i + 1];
      assert prefix[|prefix| - 1] == path[i];
      assert FillPath(grid, seed, prefix);
    }
  }

  /**
   * Minimality: the region lies inside every set that holds the seed and is
   * closed under stepping to an accepted 4-neighbour. Together with
   * SeedInRegion and RegionStep this makes the region the least such set,
   * which is what the breadth-first fill computes; it also means a region of
   * identical colour that no accepted path reaches is never selected.
   */
  lemma {:induction false} RegionLeastClosed(grid: LabGrid, seed: Coord, s: set<Coord>)
    requires InBounds(grid, seed) && seed in s
    requires forall p, q :: p in s && q in Neighbors(p) && Accepted(grid, At(grid, seed), q) ==> q in s
    ensures forall p :: InRegion(grid, seed, p) ==> p in s
  {
    forall p | InRegion(grid, seed, p)
      ensures p in s
    {
      var path :| FillPath(grid, seed, path) && path[|path| - 1] == p;
      PathInside(grid, seed, s, path, |path| - 1);
    }
  }

  lemma {:induction false} PathInside(grid: LabGrid, seed: Coord, s: set<Coord>, path: seq<Coord>, i: nat)
    requires InBounds(grid, seed) && seed in s
    requires forall p, q :: p in s && q in Neighbors(p) && Accepted(grid, At(grid, seed), q) ==> q in s
    requires FillPath(grid, seed, path) && i < |path|
    ensures path[i] in s
  {
    if i > 0 {
      PathInside(grid, seed, s, path, i - 1);
      assert Adjacent(path[i - 1], path[i]);
      assert Accepted(grid, At(grid, seed), path[i]);
    }
  }

  /** Walking along row p.1 from p to column tx through accepted pixels stays in the region. */
  lemma {:induction false} ReachAlongRow(grid: LabGrid, seed: Coord, p: Coord, tx: int)
    requires InBounds(grid, seed) && InRegion(grid, seed, p)
    requires forall x :: (p.0 <= x <= tx || tx <= x <= p.0) ==> Accepted(grid, At(grid, seed), (x, p.1))
    ensures InRegion(grid, seed, (tx, p.1))
    decreases Abs(tx - p.0)
  {
    if tx != p.0 {
      var q := if tx > p.0 then (p.0 + 1, p.1) else (p.0 - 1, p.1);
      assert Accepted(grid, At(grid, seed), (q.0, p.1));
      RegionStep(grid, seed, p, q);
      ReachAlongRow(grid, seed, q, tx);
    }
  }

  /** Walking along column p.0 from p to row ty through accepted pixels stays in the region. */
  lemma {:induction false} ReachAlongColumn(grid: LabGrid, seed: Coord, p: Coord, ty: int)
    requires InBounds(grid, seed) && InRegion(grid, seed, p)
    requires forall y :: (p.1 <= y <= ty || ty <= y <= p.1) ==> Accepted(grid, At(grid, seed), (p.0, y))
    ensures InRegion(grid, seed, (p.0, ty))
    decreases Abs(ty - p.1)
  {
    if ty != p.1 {
      var q := if ty > p.1 then (p.0, p.1 + 1) else (p.0, p.1 - 1);
      assert Accepted(grid, At(grid, seed), (p.0, q.1));
      RegionStep(grid, seed, p, q);
      ReachAlongColumn(grid, seed, q, ty);
    }
  }

  /**
   * When every pixel of a rectangular image is within tolerance of the
   * seed colour (a uniformly coloured image, for one), the region is the
   * whole image: one click selects every pixel.
   */
  lemma UniformImageFullySelected(grid: LabGrid, h: nat, w: nat, seed: Coord)
    requires Rectangular(grid, h, w) && InBounds(grid, seed)
    requires forall p :: InBounds(grid, p) ==> Similar(At(grid, p), At(grid, seed))
    ensures forall p :: InRegion(grid, seed, p) <==> InBounds(grid, p)
  {
    forall p | InBounds(grid, p)
      ensures InRegion(grid, seed, p)
    {
      SeedInRegion(grid, seed);
      ReachAlongRow(grid, seed, seed, p.0);
      ReachAlongColumn(grid, seed, (p.0, seed.1), p.1);
    }
    forall p | InRegion(grid, seed, p)
      ensures InBounds(grid, p)
    {
      RegionSimilar(grid, seed, p);
    }
  }

}
