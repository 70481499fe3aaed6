/**
 * Mapping a click on the editor's label to a pixel of the image. The label
 * shows the image stretched to its own size, so a label coordinate is
 * scaled by image size / label size and truncated to an integer, as
 * Python's int() does.
 */
module Click {

  import opened Wrappers

  /** What the mapping reads from the label: its size and whether it shows an image yet. */
  datatype Label = Label(width: int, height: int, hasPixmap: bool)

  /** Integer division that truncates toward zero, as int() does on a quotient. */
  function TruncDiv(n: int, d: int): int
    requires d > 0
  {
    if n >= 0 then n / d else -((-n) / d)
  }

  /** One coordinate scaled from label units to image units: int(v * (img / lbl)). */
  function Scale(v: int, img: int, lbl: int): int
    requires lbl > 0
  {
    TruncDiv(v * img, lbl)
  }

  /**
   * The mapping as the source writes it: it rejects a scaled coordinate at
   * or beyond the image width or height, but not a negative one.
   */
  function MapClickAsWritten(x: int, y: int, lbl: Label, imgW: nat, imgH: nat): (r: Option<(int, int)>)
    requires lbl.hasPixmap ==> lbl.width > 0 && lbl.height > 0
    ensures r.Some? ==> r.value.0 < imgW && r.value.1 < imgH
  {
    if !lbl.hasPixmap then None
    else
      var mx := Scale(x, imgW, lbl.width);
      var my := Scale(y, imgH, lbl.height);
      if mx >= imgW || my >= imgH then None else Some((mx, my))
  }


  lemma MulLeq(a: int, b: int, c: nat)
    requires a <= b
    ensures a * c <= b * c
  {
  }

  lemma DivBounds(n: nat, d: int)
    requires d > 0
    ensures 0 <= n / d
    ensures (n / d) * d <= n < (n / d + 1) * d
  {
  }

  lemma {:induction false} ScaledBelowImage(v: int, img: nat, lbl: int)
    requires 0 <= v && lbl > 0
    ensures 0 <= Scale(v, img, lbl)
    ensures Scale(v, img, lbl) < img <==> v < lbl && img > 0
    ensures Scale(v, img, lbl) * lbl <= v * img < (Scale(v, img, lbl) + 1) * lbl
  {
    var n: nat := v * img;
    var q := n / lbl;
    DivBounds(n, lbl);
    if v < lbl && img > 0 {
      MulLeq(v, lbl - 1, img);
      if q >= img {
        MulLeq(img, q, lbl);
        assert false;
      }
    }
    if v >= lbl {
      MulLeq(lbl, v, img);
      if q < img {
        MulLeq(q + 1, img, lbl);
        assert false;
      }
    }
  }

  /**
   * The mapping with the lower bound it evidently intends: a click is
   * accepted exactly when it lies inside the label (and the label shows an
   * image that has pixels), and then it lands on the image pixel whose
   * scaled cell contains it: mx = floor(x * imgW / lbl.width), likewise y.
   */
  function MapClick(x: int, y: int, lbl: Label, imgW: nat, imgH: nat): (r: Option<(int, int)>)
    requires lbl.hasPixmap ==> lbl.width > 0 && lbl.height > 0
    ensures r.Some? <==>
      lbl.hasPixmap && imgW > 0 && imgH > 0 && 0 <= x < lbl.width && 0 <= y < lbl.height
    ensures r.Some? ==>
      0 <= r.value.0 < imgW && 0 <= r.value.1 < imgH &&
      r.value.0 * lbl.width <= x * imgW < (r.value.0 + 1) * lbl.width &&
      r.value.1 * lbl.height <= y * imgH < (r.value.1 + 1) * lbl.height
    ensures r.Some? ==> r == MapClickAsWritten(x, y, lbl, imgW, imgH)
  {
    if !lbl.hasPixmap || x < 0 || y < 0 then None
    else
      ScaledBelowImage(x, imgW, lbl.width);
      ScaledBelowImage(y, imgH, lbl.height);
      MapClickAsWritten(x, y, lbl, imgW, imgH)
  }

  /**
   * A click one pixel left of a label as wide as the image maps to column
   * -1: the as-written mapping lets it through as a pixel coordinate,
   * the corrected one rejects it.
   */
  lemma NegativeClickAccepted()
    ensures MapClickAsWritten(-1, 0, Label(10, 10, true), 10, 10) == Some((-1, 0))
    ensures MapClick(-1, 0, Label(10, 10, true), 10, 10) == None
  {
  }

}
