/**
 * Pixel colours of the editor: the BGR pixels of the loaded image and the
 * 8-bit Lab triples of its perceptual copy, with the squared Euclidean
 * distance that the flood fill compares against its fixed tolerance.
 */
module Color {

  /** One 8-bit channel. */
  type Byte = x: int | 0 <= x < 256

  /** A pixel as the image stores it: blue, green, red. */
  datatype Bgr = Bgr(b: Byte, g: Byte, r: Byte)

  /** A pixel of the 8-bit Lab image: lightness and the two chroma axes, each scaled to 0..255. */
  datatype Lab = Lab(l: Byte, a: Byte, b: Byte)

  /** What Delete writes into every selected pixel. */
  const White := Bgr(255, 255, 255)

  /** What the preview paints over every selected pixel (pure red in BGR order). */
  const Red := Bgr(0, 0, 255)

  /** The fill accepts a pixel whose Lab distance to the seed colour is below this. */
  const Tolerance: nat := 20

  function Sq(n: int): nat
  {
    if n < 0 then (-n) * (-n) else n * n
  }

  lemma {:induction false} SqZero(n: int)
    ensures Sq(n) == 0 <==> n == 0
    ensures n != 0 ==> Sq(n) >= 1
  {
    if n > 0 {
      assert n * n >= n;
    } else if n < 0 {
      assert (-n) * (-n) >= -n;
    }
  }

  /**
   * Squared Euclidean distance of two Lab colours, computed on exact
   * integers (the channels are widened before subtracting, so there is
   * no wrap-around).
   */
  function DistSq(p: Lab, q: Lab): (d: nat)
    ensures d == 0 <==> p == q
  {
    SqZero(p.l - q.l);
    SqZero(p.a - q.a);
    SqZero(p.b - q.b);
    Sq(p.l - q.l) + Sq(p.a - q.a) + Sq(p.b - q.b)
  }

  /**
   * The fill's acceptance test: the Euclidean norm of the difference is
   * below Tolerance. For an integer square s, sqrt(s) < 20 exactly when
   * s < 400, so the comparison is made on the square.
   */
  predicate Similar(p: Lab, seed: Lab)
  {
    DistSq(p, seed) < Tolerance * Tolerance
  }

  /** Every colour is within tolerance of itself, so a seed always accepts its own pixel. */
  lemma SimilarToItself(c: Lab)
    ensures Similar(c, c)
  {
  }

}
