/**
 * The rasterizer itself: `line(x0, y0, x1, y1, image, color)`, written step
 * by step as the source does it, with the image standing in as a 2-D array
 * of colours indexed [x, y]. It is proved to write exactly the pixels of
 * LineSpec.Pixels, in that order, in the given colour, and nothing else.
 */
module Raster {
  import opened Rounding
  import opened LineSpec

  type Byte = b: int | 0 <= b < 256

  /** An RGBA colour with 8-bit channels. */
  datatype Color = Color(r: Byte, g: Byte, b: Byte, a: Byte)

  predicate InImage(image: array2<Color>, p: Point) {
    0 <= p.x < image.Length0 && 0 <= p.y < image.Length1
  }

  /**
   * The loop's secondary offset n and doubled error after k iterations,
   * as the decision rule computes them one step at a time.
   */
  datatype Accum = Accum(n: nat, error2: int)

  ghost function Run(f: Frame, k: nat): (r: Accum)
    requires f.Valid()
    ensures r.n <= k
  {
    if k == 0 then Accum(0, 0)
    else
      var prev := Run(f, k - 1);
      var e := prev.error2 + 2 * f.Rise();
      if e > f.Extent() then Accum(prev.n + 1, e - 2 * f.Extent()) else Accum(prev.n, e)
  }

  /** The pixels of the first k iterations, in the order they are written. */
  ghost function Written(f: Frame, k: nat): (w: seq<Point>)
    requires f.Valid()
    ensures |w| == k
  {
    if k == 0 then [] else Written(f, k - 1) + [f.ToImage(f.u0 + k - 1, f.Toward(Run(f, k - 1).n))]
  }

  /** The decision rule reproduces the closed-form rounding at every step. */
  lemma {:induction false} RunIsRound(f: Frame, k: nat)
    requires f.Valid()
    ensures var n := Round(k, f.Rise(), f.Extent());
            Run(f, k) == Accum(n, Error2(k, f.Rise(), f.Extent(), n))
  {
    if k == 0 {
      RoundAtStart(f.Rise(), f.Extent());
    } else {
      var a, d := f.Rise(), f.Extent();
      var prev := Run(f, k - 1);
      RunIsRound(f, k - 1);
      RoundStep(k - 1, a, d);
      assert prev.error2 + 2 * a == Error2(k - 1, a, d, prev.n) + 2 * a;
    }
  }

  /**
   * After every iteration the doubled error lies in (-dx, dx]; on a
   * zero-length segment, where dx is 0, it stays 0.
   */
  lemma ErrorRange(f: Frame, k: nat)
    requires f.Valid()
    ensures f.Extent() > 0 ==> -(f.Extent() as int) < Run(f, k).error2 <= f.Extent()
    ensures f.Extent() == 0 ==> Run(f, k).error2 == 0
  {
    RunIsRound(f, k);
    if f.Extent() == 0 {
      MulIsProduct(0, k);
    }
  }

  /** Up to the far end the loop's secondary offset stays within the rise. */
  lemma RunBounded(f: Frame, k: nat)
    requires f.Valid() && k <= f.Extent()
    ensures Run(f, k).n <= f.Rise()
  {
    RunIsRound(f, k);
    RoundBounded(k, f.Rise(), f.Extent());
  }

  /** A pixel inside the normalised segment's box is in the image when both endpoints are. */
  lemma StepInImage(f: Frame, image: array2<Color>, k: nat, n: nat)
    requires f.Valid() && k <= f.Extent() && n <= f.Rise()
    requires InImage(image, f.ToImage(f.u0, f.v0)) && InImage(image, f.ToImage(f.u1, f.v1))
    ensures InImage(image, f.ToImage(f.u0 + k, f.Toward(n)))
  {
  }

  /** All the writes of the loop are the reference sequence, in order. */
  lemma WrittenIsAlong(f: Frame)
    requires f.Valid()
    ensures Written(f, f.Extent() + 1) == Along(f)
  {
    WrittenIsPrefix(f, f.Extent() + 1);
    assert Along(f)[..f.Extent() + 1] == Along(f);
  }

  /** The first k writes are the first k pixels of the reference sequence. */
  lemma {:induction false} WrittenIsPrefix(f: Frame, k: nat)
    requires f.Valid() && k <= f.Extent() + 1
    ensures Written(f, k) == Along(f)[..k]
  {
    if k > 0 {
      WrittenIsPrefix(f, k - 1);
      RunIsRound(f, k - 1);
      assert Along(f)[..k] == Along(f)[..k - 1] + [Along(f)[k - 1]];
    }
  }

  /** A value the source's 32-bit int holds. */
  predicate Int32(v: int) {
    -0x8000_0000 <= v < 0x8000_0000
  }

  /** A coordinate no larger in magnitude than 2^28. */
  predicate Small(c: int) {
    -0x1000_0000 <= c <= 0x1000_0000
  }

  /**
   * With every coordinate of line within 2^28 of the origin, each value it
   * computes fits in a 32-bit int: the differences tested for steepness,
   * and at every step k of the loop, up to and including the exit test,
   * x, y, dx * 2, derror2, error2 and error2 + derror2. So the unbounded
   * arithmetic of the model is the source's.
   */
  lemma NoOverflow(x0: int, y0: int, x1: int, y1: int, k: nat)
    requires Small(x0) && Small(y0) && Small(x1) && Small(y1)
    requires k <= Normalize(x0, y0, x1, y1).Extent() + 1
    ensures Int32(Abs(x0 - x1)) && Int32(Abs(y0 - y1))
    ensures var f := Normalize(x0, y0, x1, y1);
            Int32(2 * f.Extent()) && Int32(2 * f.Rise()) && Int32(f.u0 + k) &&
            Int32(Run(f, k).error2) && Int32(Run(f, k).error2 + 2 * f.Rise()) &&
            Int32(f.Toward(Run(f, k).n))
  {
    var f := Normalize(x0, y0, x1, y1);
    assert Small(f.u0) && Small(f.v0) && Small(f.u1) && Small(f.v1);
    LoopNoOverflow(f, k);
  }

  /** The loop half of NoOverflow, over the normalised segment. */
  lemma {:induction false} LoopNoOverflow(f: Frame, k: nat)
    requires f.Valid() && Small(f.u0) && Small(f.v0) && Small(f.u1) && Small(f.v1)
    requires k <= f.Extent() + 1
    ensures Int32(2 * f.Extent()) && Int32(2 * f.Rise())
    ensures Int32(f.u0 + k)
    ensures Int32(Run(f, k).error2) && Int32(Run(f, k).error2 + 2 * f.Rise())
    ensures Int32(f.Toward(Run(f, k).n))
  {
    var a, d := f.Rise(), f.Extent();
    RunIsRound(f, k);
    if d == 0 {
      MulIsProduct(0, k);
      assert Run(f, k).error2 == 0;
    }
    if k <= d {
      RunBounded(f, k);
    } else {
      RoundIncrement(k - 1, a, d);
      RoundBounded(k - 1, a, d);
    }
  }

  /**
   * Draws segment (x0, y0)-(x1, y1). The ghost result is the sequence of
   * positions passed to the image's set operation, in call order.
   */
  method Line(x0: int, y0: int, x1: int, y1: int, image: array2<Color>, color: Color)
    returns (ghost written: seq<Point>)
    requires InImage(image, Point(x0, y0)) && InImage(image, Point(x1, y1))
    modifies image
    ensures written == Pixels(x0, y0, x1, y1)
    ensures forall i, j :: 0 <= i < image.Length0 && 0 <= j < image.Length1 ==>
              image[i, j] == if Point(i, j) in written then color else old(image[i, j])
  {
    var steep := false;
    // The by-value copies of the arguments, which the swaps below change.
    var x0, y0, x1, y1 := x0, y0, x1, y1;
    if Abs(x0 - x1) < Abs(y0 - y1) {
      x0, y0 := y0, x0;
      x1, y1 := y1, x1;
      steep := true;
    }
    if x0 > x1 {
      x0, x1 := x1, x0;
      y0, y1 := y1, y0;
    }
    written := Walk(steep, x0, y0, x1, y1, image, color);
    WrittenIsAlong(Frame(steep, x0, y0, x1, y1));
  }

  /**
   * The loop of line over a normalised segment: x steps from x0 to x1,
   * (x, y) is written, or (y, x) when steep, and the doubled error decides
   * when y moves one step toward y1.
   */
  method Walk(steep: bool, x0: int, y0: int, x1: int, y1: int, image: array2<Color>, color: Color)
    returns (ghost written: seq<Point>)
    requires Frame(steep, x0, y0, x1, y1).Valid()
    requires InImage(image, Frame(steep, x0, y0, x1, y1).ToImage(x0, y0))
    requires InImage(image, Frame(steep, x0, y0, x1, y1).ToImage(x1, y1))
    modifies image
    ensures written == Written(Frame(steep, x0, y0, x1, y1), x1 - x0 + 1)
    ensures forall i, j :: 0 <= i < image.Length0 && 0 <= j < image.Length1 ==>
              image[i, j] == if Point(i, j) in written then color else old(image[i, j])
  {
    ghost var f := Frame(steep, x0, y0, x1, y1);
    var dx := x1 - x0;
    var dy := y1 - y0;
    var derror2 := Abs(dy) * 2;
    var error2 := 0;
    var y := y0;
    assert dx == f.Extent() && derror2 == 2 * f.Rise();
    written := [];
    ghost var n := 0;
    var x := x0;
    while x <= x1
      invariant x0 <= x <= x1 + 1
      invariant Run(f, x - x0) == Accum(n, error2)
      invariant y == f.Toward(n)
      invariant written == Written(f, x - x0)
      invariant forall i, j {:trigger image[i, j]} :: 0 <= i < image.Length0 && 0 <= j < image.Length1 ==>
                  image[i, j] == if Point(i, j) in written then color else old(image[i, j])
    {
      RunBounded(f, x - x0);
      StepInImage(f, image, x - x0, n);
      if steep {
        image[y, x] := color;
      } else {
        image[x, y] := color;
      }
      written := written + [f.ToImage(x, y)];
      error2 := error2 + derror2;
      if error2 > dx {
        y := y + (if y1 > y0 then 1 else -1);
        error2 := error2 - dx * 2;
        n := n + 1;
      }
      x := x + 1;
    }
  }
}
