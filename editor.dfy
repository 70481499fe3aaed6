/**
 * The click-to-erase editor: one loaded image, its Lab copy, and at most
 * one active selection mask. A click selects the colour-similar region
 * under the pointer, Delete whitens it in place, Escape drops it.
 */
module Editor {

  import opened Wrappers
  import opened Color
  import opened Region
  import opened Click

  /** The two keys the editor reacts to; every other key is ignored. */
  datatype Key = Delete | Escape | OtherKey

  /** Mask value of a selected pixel; unselected pixels hold 0. */
  const Selected := 255

  class ImageEditor {
    /** The edited image, h rows by w columns, whitened in place by Delete. */
    const image: array2<Bgr>
    /** The Lab copy of the image, computed once when the image is loaded and only read afterwards. */
    const lab: LabGrid
    /** The active selection (255 = selected, 0 = not), or null when nothing is selected. */
    var selectedMask: array2?<int>

    function Height(): nat { image.Length0 }
    function Width(): nat { image.Length1 }

    /** The Lab copy and any active mask have the image's dimensions. */
    ghost predicate Valid()
      reads this
    {
      Rectangular(lab, Height(), Width()) &&
      (selectedMask != null ==>
        selectedMask.Length0 == Height() && selectedMask.Length1 == Width())
    }

    /**
     * m holds the region grown from seed: 255 at every pixel of the region
     * and 0 at every other pixel of an h-by-w grid.
     */
    ghost predicate IsRegionMask(m: array2<int>, seed: Coord)
      reads this, m
    {
      m.Length0 == Height() && m.Length1 == Width() &&
      forall y, x :: 0 <= y < Height() && 0 <= x < Width() ==>
        m[y, x] == if InRegion(lab, seed, (x, y)) then Selected else 0
    }

    /** The editor starts on a loaded image and its Lab copy, with nothing selected. */
    constructor (image: array2<Bgr>, lab: LabGrid)
      requires Rectangular(lab, image.Length0, image.Length1)
      ensures Valid()
      ensures this.image == image && this.lab == lab && selectedMask == null
    {
      this.image := image;
      this.lab := lab;
      selectedMask := null;
    }

    /**
     * Breadth-first region growth from the seed (x, y): a FIFO queue of
     * coordinates and a visited set; a popped coordinate already visited or
     * outside the image is skipped, otherwise it is marked when its Lab colour
     * is within tolerance of the seed's, and then its four neighbours are
     * enqueued. The result is exactly the region of the seed.
     */
    method FloodFillLab(x: int, y: int) returns (mask: array2<int>)
      requires Valid()
      requires 0 <= x < Width() && 0 <= y < Height()
      ensures IsRegionMask(mask, (x, y))
      ensures mask[y, x] == Selected
      ensures forall r, c :: 0 <= r < Height() && 0 <= c < Width() && mask[r, c] == Selected ==>
        Similar(lab[r][c], lab[y][x])
    {
      var h, w := Height(), Width();
      mask := new int[h, w]((_, _) => 0);
      var seed := (x, y);
      var seedColor := lab[y][x];
      var queue := [seed];
      var visited: set<Coord> := {};
      ghost var sel: set<Coord> := {};
      SearchStart(lab, h, w, seed);

      while queue != []
        invariant mask.Length0 == h && mask.Length1 == w
        invariant forall r, c :: 0 <= r < h && 0 <= c < w ==>
          mask[r, c] == if (c, r) in sel then Selected else 0
        invariant SearchInv(lab, h, w, seed, sel, visited, queue)
        decreases Padded(h, w) - visited, |queue|
      {
        var c := queue[0];
        ghost var before := queue;
        queue := queue[1..];
        if c in visited {
          SkipVisited(lab, h, w, seed, sel, visited, before);
          continue;
        }
        ghost var visitedBefore := visited;
        visited := visited + {c};
        assert c in Padded(h, w) - visitedBefore;
        if c.0 < 0 || c.1 < 0 || c.0 >= w || c.1 >= h {
          SkipRejected(lab, h, w, seed, sel, visitedBefore, before);
          continue;
        }
        var color := lab[c.1][c.0];
        if DistSq(color, seedColor) < Tolerance * Tolerance {
          mask[c.1, c.0] := Selected;
          AcceptNext(lab, h, w, seed, sel, visitedBefore, before);
          sel := sel + {c};
          queue := queue + Neighbors(c);
        } else {
          SkipRejected(lab, h, w, seed, sel, visitedBefore, before);
        }
      }

      SearchDone(lab, h, w, seed, sel, visited);
      SimilarToItself(seedColor);
      SeedInRegion(lab, seed);
    }

    /**
     * The preview of a selection: a fresh copy of the image with every
     * selected pixel painted red. The image itself is only read.
     */
    method OverlayMask(mask: array2<int>) returns (overlay: array2<Bgr>)
      requires mask.Length0 == Height() && mask.Length1 == Width()
      ensures fresh(overlay)
      ensures IsOverlay(overlay, mask)
    {
      overlay := new Bgr[Height(), Width()];
      forall r, c | 0 <= r < Height() && 0 <= c < Width() {
        overlay[r, c] := if mask[r, c] == Selected then Red else image[r, c];
      }
    }

    /** o shows the image with the pixels selected by m in red and every other pixel as it is. */
    ghost predicate IsOverlay(o: array2<Bgr>, m: array2<int>)
      reads this, o, m, image
      requires m.Length0 == Height() && m.Length1 == Width()
    {
      o.Length0 == Height() && o.Length1 == Width() &&
      forall r, c :: 0 <= r < Height() && 0 <= c < Width() ==>
        o[r, c] == if m[r, c] == Selected then Red else image[r, c]
    }

    /**
     * A press at label position (x, y): a click that maps to no pixel
     * leaves the selection as it was; otherwise the region under the click
     * replaces the previous selection (it is not merged with it) and the
     * red preview of the new selection is returned for display.
     */
    method MousePress(x: int, y: int, lbl: Label) returns (preview: array2?<Bgr>)
      requires Valid()
      requires lbl.hasPixmap ==> lbl.width > 0 && lbl.height > 0
      modifies this`selectedMask
      ensures Valid()
      ensures MapClick(x, y, lbl, Width(), Height()).None? ==>
        selectedMask == old(selectedMask) && preview == null
      ensures MapClick(x, y, lbl, Width(), Height()).Some? ==>
        selectedMask != null && IsRegionMask(selectedMask, MapClick(x, y, lbl, Width(), Height()).value) &&
        preview != null && fresh(preview) && IsOverlay(preview, selectedMask)
    {
      var pixel := MapClick(x, y, lbl, Width(), Height());
      if pixel.None? {
        return null;
      }
      var mask := FloodFillLab(pixel.value.0, pixel.value.1);
      selectedMask := mask;
      preview := OverlayMask(mask);
    }

    /**
     * A key press. Delete with a selection whitens every selected pixel of
     * the image in place, leaves every other pixel as it was and drops the
     * selection; Delete without a selection does nothing. Escape drops the
     * selection without touching the image. Any other key does nothing.
     */
    method KeyPress(key: Key)
      requires Valid()
      modifies this`selectedMask, image
      ensures Valid()
      ensures key == OtherKey || (key == Delete && old(selectedMask) == null) ==>
        selectedMask == old(selectedMask)
      ensures key != OtherKey ==> selectedMask == null
      ensures key == Delete && old(selectedMask) != null ==>
        forall r, c :: 0 <= r < Height() && 0 <= c < Width() ==>
          image[r, c] == if old(selectedMask[r, c]) == Selected then White else old(image[r, c])
      ensures key != Delete || old(selectedMask) == null ==>
        forall r, c :: 0 <= r < Height() && 0 <= c < Width() ==> image[r, c] == old(image[r, c])
    {
      match key {
        case Delete =>
          if selectedMask == null {
            return;
          }
          var m := selectedMask;
          forall r, c | 0 <= r < Height() && 0 <= c < Width() && m[r, c] == Selected {
            image[r, c] := White;
          }
          selectedMask := null;
        case Escape =>
          if selectedMask != null {
            selectedMask := null;
          }
        case OtherKey =>
      }
    }
  }

  /** Every pixel of the image and the one-pixel border around it: where the fill's queue can reach. */
  function Padded(h: nat, w: nat): set<Coord>
  {
    set px, py | -1 <= px <= w && -1 <= py <= h :: (px, py)
  }

  /**
   * The state of the fill between two pops: sel (the marked pixels) is
   * what has been visited and accepted; everything marked or accepted in
   * the queue is in the region; the neighbours of every marked pixel and the
   * seed itself have been visited or are queued; and nothing outside the
   * padded image is ever visited or queued.
   */
  ghost predicate SearchInv(grid: LabGrid, h: nat, w: nat, seed: Coord,
                            sel: set<Coord>, visited: set<Coord>, queue: seq<Coord>)
  {
    Rectangular(grid, h, w) && InBounds(grid, seed) &&
    (forall p :: p in sel <==> p in visited && Accepted(grid, At(grid, seed), p)) &&
    (forall p :: p in sel ==> InRegion(grid, seed, p)) &&
    (forall i :: 0 <= i < |queue| && Accepted(grid, At(grid, seed), queue[i]) ==>
       InRegion(grid, seed, queue[i])) &&
    (forall p :: p in sel ==> Covered(Neighbors(p), visited, queue)) &&
    (seed in visited || seed in queue) &&
    visited <= Padded(h, w) &&
    (forall i :: 0 <= i < |queue| ==> queue[i] in Padded(h, w))
  }

  lemma SearchStart(grid: LabGrid, h: nat, w: nat, seed: Coord)
    requires Rectangular(grid, h, w) && InBounds(grid, seed)
    ensures SearchInv(grid, h, w, seed, {}, {}, [seed])
  {
    SimilarToItself(At(grid, seed));
    SeedInRegion(grid, seed);
  }

  /** Popping a coordinate that was already visited changes nothing but the queue. */
  lemma SkipVisited(grid: LabGrid, h: nat, w: nat, seed: Coord,
                    sel: set<Coord>, visited: set<Coord>, queue: seq<Coord>)
    requires SearchInv(grid, h, w, seed, sel, visited, queue)
    requires queue != [] && queue[0] in visited
    ensures SearchInv(grid, h, w, seed, sel, visited, queue[1..])
  {
    PopKeepsMembers(queue, queue[1..]);
  }

  /** Popping an unvisited coordinate that is outside the image or too far in colour only visits it. */
  lemma SkipRejected(grid: LabGrid, h: nat, w: nat, seed: Coord,
                     sel: set<Coord>, visited: set<Coord>, queue: seq<Coord>)
    requires SearchInv(grid, h, w, seed, sel, visited, queue)
    requires queue != [] && queue[0] !in visited && !Accepted(grid, At(grid, seed), queue[0])
    ensures SearchInv(grid, h, w, seed, sel, visited + {queue[0]}, queue[1..])
  {
    PopKeepsMembers(queue, queue[1..]);
  }

  /** Popping an unvisited accepted pixel marks it and enqueues its four neighbours. */
  lemma AcceptNext(grid: LabGrid, h: nat, w: nat, seed: Coord,
                   sel: set<Coord>, visited: set<Coord>, queue: seq<Coord>)
    requires SearchInv(grid, h, w, seed, sel, visited, queue)
    requires queue != [] && queue[0] !in visited && Accepted(grid, At(grid, seed), queue[0])
    ensures SearchInv(grid, h, w, seed, sel + {queue[0]}, visited + {queue[0]},
                      queue[1..] + Neighbors(queue[0]))
  {
    var c := queue[0];
    var next := queue[1..] + Neighbors(c);
    PopKeepsMembers(queue, queue[1..]);
    forall n | n in Neighbors(c) && Accepted(grid, At(grid, seed), n)
      ensures InRegion(grid, seed, n)
    {
      RegionStep(grid, seed, c, n);
    }
    forall i | 0 <= i < |next|
      ensures next[i] in Padded(h, w)
      ensures Accepted(grid, At(grid, seed), next[i]) ==> InRegion(grid, seed, next[i])
    {
      if i >= |queue| - 1 {
        assert next[i] in Neighbors(c);
      }
    }
  }

  /** With the queue empty, the marked pixels are exactly the region of the seed. */
  lemma SearchDone(grid: LabGrid, h: nat, w: nat, seed: Coord, sel: set<Coord>, visited: set<Coord>)
    requires SearchInv(grid, h, w, seed, sel, visited, [])
    ensures forall p :: p in sel <==> InRegion(grid, seed, p)
  {
    SimilarToItself(At(grid, seed));
    RegionLeastClosed(grid, seed, sel);
  }

  /** Every coordinate of ns has been visited or is still waiting in the queue. */
  ghost predicate Covered(ns: seq<Coord>, visited: set<Coord>, queue: seq<Coord>)
  {
    forall n :: n in ns ==> n in visited || n in queue
  }

  lemma PopKeepsMembers(before: seq<Coord>, after: seq<Coord>)
    requires before != [] && after == before[1..]
    ensures forall n :: n in before ==> n == before[0] || n in after
  {
  }

}
