/**
 * Whole-session consequences of the editor's contracts: what a click
 * followed by Escape or Delete does to the image, repeated fills, and two
 * small concrete images (a uniform one, and one with two same-coloured
 * blocks kept apart by a differently coloured column).
 */
module Scenarios {

  import opened Wrappers
  import opened Color
  import opened Region
  import opened Click
  import opened Editor

  /** Filling twice from the same pixel, with no edit in between, gives the same mask. */
  method FillTwiceSameMask(ed: ImageEditor, x: int, y: int) returns (m1: array2<int>, m2: array2<int>)
    requires ed.Valid()
    requires 0 <= x < ed.Width() && 0 <= y < ed.Height()
    ensures m1.Length0 == m2.Length0 == ed.Height() && m1.Length1 == m2.Length1 == ed.Width()
    ensures forall r, c :: 0 <= r < ed.Height() && 0 <= c < ed.Width() ==> m1[r, c] == m2[r, c]
  {
    m1 := ed.FloodFillLab(x, y);
    m2 := ed.FloodFillLab(x, y);
  }

  /**
   * A click followed by Escape is neutral: whatever the click selected,
   * the image afterwards is pixel for pixel what it was before the click,
   * and nothing is selected.
   */
  method SelectThenEscape(ed: ImageEditor, x: int, y: int, lbl: Label)
    requires ed.Valid()
    requires lbl.hasPixmap ==> lbl.width > 0 && lbl.height > 0
    modifies ed`selectedMask, ed.image
    ensures ed.Valid() && ed.selectedMask == null
    ensures forall r, c :: 0 <= r < ed.Height() && 0 <= c < ed.Width() ==>
      ed.image[r, c] == old(ed.image[r, c])
  {
    var _ := ed.MousePress(x, y, lbl);
    ed.KeyPress(Escape);
  }

  /**
   * A click on a pixel followed by Delete whitens exactly the region grown
   * from that pixel: every region pixel becomes white, every other pixel
   * keeps its colour, and the selection is cleared.
   */
  method SelectThenDelete(ed: ImageEditor, x: int, y: int, lbl: Label) returns (pixel: Option<Coord>)
    requires ed.Valid()
    requires lbl.hasPixmap ==> lbl.width > 0 && lbl.height > 0
    modifies ed`selectedMask, ed.image
    ensures ed.Valid()
    ensures pixel == MapClick(x, y, lbl, ed.Width(), ed.Height())
    ensures pixel.Some? ==> ed.selectedMask == null
    ensures pixel.Some? ==>
      forall r, c :: 0 <= r < ed.Height() && 0 <= c < ed.Width() ==>
        ed.image[r, c] == if InRegion(ed.lab, pixel.value, (c, r)) then White else old(ed.image[r, c])
  {
    pixel := MapClick(x, y, lbl, ed.Width(), ed.Height());
    var _ := ed.MousePress(x, y, lbl);
    ed.KeyPress(Delete);
  }

  /**
   * A 4-by-4 image of one colour: a click on pixel (1, 1) of a label the
   * size of the image selects all sixteen pixels, and Delete turns the
   * whole image white.
   */
  method UniformImageErased() returns (img: array2<Bgr>)
    ensures img.Length0 == 4 && img.Length1 == 4
    ensures forall r, c :: 0 <= r < 4 && 0 <= c < 4 ==> img[r, c] == White
  {
    img := new Bgr[4, 4]((_, _) => Bgr(40, 90, 160));
    var lab := seq(4, _ => seq(4, _ => Lab(120, 140, 150)));
    var ed := new ImageEditor(img, lab);
    var lbl := Label(4, 4, true);
    assert MapClick(1, 1, lbl, 4, 4) == Some((1, 1));
    UniformImageFullySelected(lab, 4, 4, (1, 1));
    var _ := ed.MousePress(1, 1, lbl);
    ed.KeyPress(Delete);
  }

  const RedLab := Lab(136, 208, 195)
  const BlueLab := Lab(82, 207, 20)

  /**
   * Two rows of five pixels: a red 2-by-2 block on the left, a blue
   * column, and an identical red block on the right.
   */
  const TwinBlocks: LabGrid := [
    [RedLab, RedLab, BlueLab, RedLab, RedLab],
    [RedLab, RedLab, BlueLab, RedLab, RedLab]
  ]

  const LeftBlock: set<Coord> := {(0, 0), (1, 0), (0, 1), (1, 1)}

  /**
   * Seeding at (0, 0) selects exactly the left red block: the blue column
   * stops the fill, so the identical right block is never selected.
   */
  lemma TwinBlocksSeparate()
    ensures forall p :: InRegion(TwinBlocks, (0, 0), p) <==> p in LeftBlock
  {
    var g, seed := TwinBlocks, (0, 0);
    assert !Similar(BlueLab, RedLab);
    SeedInRegion(g, seed);
    RegionStep(g, seed, (0, 0), (1, 0));
    RegionStep(g, seed, (0, 0), (0, 1));
    RegionStep(g, seed, (1, 0), (1, 1));
    forall p, q | p in LeftBlock && q in Neighbors(p) && Accepted(g, At(g, seed), q)
      ensures q in LeftBlock
    {
      assert q.0 != 2;
    }
    RegionLeastClosed(g, seed, LeftBlock);
  }

}
