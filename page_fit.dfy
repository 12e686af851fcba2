/**
 * The size arithmetic of `resize_to_a4`: an image of w x h pixels is scaled by
 * s = min(595 / w, 842 / h) and each side is truncated, int(w * s) x int(h * s).
 * The model computes the same size exactly in integers; `FlooredScaleAgrees`
 * connects it to the rational formula.
 */
module PageFit {

  /** The page geometry: ISO 216 A4 in points at 72 points per inch, rounded. */
  const PageWidth: nat := 595
  const PageHeight: nat := 842

  datatype Size = Size(width: nat, height: nat)

  /** True when the width is the binding edge, i.e. 595 / w <= 842 / h. */
  predicate WidthBound(w: nat, h: nat)
  {
    PageWidth * h <= PageHeight * w
  }

  /** For naturals, a <= c * b with b > 0 gives a / b <= c. */
  lemma DivAtMost(a: nat, b: nat, c: nat)
    requires b > 0 && a <= c * b
    ensures a / b <= c
  {
  }

  /** A product inequality with a common positive factor cancels. */
  lemma CancelFactor(x: int, y: int, b: int)
    requires b > 0 && x * b < y * b
    ensures x < y
  {
  }

  /** For naturals, c * b <= a with b > 0 gives c <= a / b. */
  lemma DivAtLeast(a: nat, b: nat, c: nat)
    requires b > 0 && c * b <= a
    ensures c <= a / b
  {
    assert a == (a / b) * b + a % b;
    CancelFactor(c, a / b + 1, b);
  }

  /**
   * The fitted size of a w x h image. The binding edge becomes exactly the
   * page edge and the other side is rounded down.
   */
  function FitToPage(w: nat, h: nat): (r: Size)
    requires w > 0 && h > 0
    ensures r.width <= PageWidth && r.height <= PageHeight
    ensures r.width == PageWidth || r.height == PageHeight
  {
    if WidthBound(w, h) then
      DivAtMost(PageWidth * h, w, PageHeight);
      Size(PageWidth, PageWidth * h / w)
    else
      DivAtMost(PageHeight * w, h, PageWidth);
      Size(PageHeight * w / h, PageHeight)
  }

  /** The scale factor min(595 / w, 842 / h) of line 22, in exact rational arithmetic. */
  function Scale(w: nat, h: nat): (s: real)
    requires w > 0 && h > 0
  {
    var sw := PageWidth as real / w as real;
    var sh := PageHeight as real / h as real;
    if sw <= sh then sw else sh
  }

  /** Truncating a / b as a real agrees with integer division, for naturals. */
  lemma FloorOfQuotient(a: nat, b: nat)
    requires b > 0
    ensures (a as real / b as real).Floor == a / b
  {
    var q, m := a / b, a % b;
    assert a == q * b + m;
    var x := a as real / b as real;
    assert a as real == q as real * b as real + m as real;
    assert x == q as real + m as real / b as real;
    assert 0.0 <= m as real / b as real < 1.0;
  }

  /** Multiplying both sides by a positive real keeps the order, in both directions. */
  lemma ScaleOrder(x: real, y: real, p: real)
    requires p > 0.0
    ensures x <= y <==> x * p <= y * p
  {
    assert y * p - x * p == (y - x) * p;
  }

  /** 595 / w <= 842 / h as reals exactly when the width is the binding edge. */
  lemma ScaleChoice(w: nat, h: nat)
    requires w > 0 && h > 0
    ensures (PageWidth as real / w as real <= PageHeight as real / h as real) <==> WidthBound(w, h)
  {
    var sw := PageWidth as real / w as real;
    var sh := PageHeight as real / h as real;
    var p := w as real * h as real;
    assert p > 0.0;
    assert sw * p == (PageWidth * h) as real;
    assert sh * p == (PageHeight * w) as real;
    ScaleOrder(sw, sh, p);
  }

  /**
   * The integer computation equals the formula of lines 22-23 under exact
   * arithmetic: both sides are the image's sides times one common factor,
   * rounded down.
   */
  lemma FlooredScaleAgrees(w: nat, h: nat)
    requires w > 0 && h > 0
    ensures FitToPage(w, h).width as int == (w as real * Scale(w, h)).Floor
    ensures FitToPage(w, h).height as int == (h as real * Scale(w, h)).Floor
  {
    ScaleChoice(w, h);
    if WidthBound(w, h) {
      WidthScaled(w, h);
    } else {
      HeightScaled(w, h);
    }
  }

  /** Scaling by 595 / w makes the width 595 and the height 595 h / w rounded down. */
  lemma WidthScaled(w: nat, h: nat)
    requires w > 0 && h > 0
    ensures (w as real * (PageWidth as real / w as real)).Floor == PageWidth
    ensures (h as real * (PageWidth as real / w as real)).Floor == PageWidth * h / w
  {
    var s := PageWidth as real / w as real;
    assert w as real * s == PageWidth as real;
    assert h as real * s == (PageWidth * h) as real / w as real;
    FloorOfQuotient(PageWidth * h, w);
  }

  /** Scaling by 842 / h makes the height 842 and the width 842 w / h rounded down. */
  lemma HeightScaled(w: nat, h: nat)
    requires w > 0 && h > 0
    ensures (h as real * (PageHeight as real / h as real)).Floor == PageHeight
    ensures (w as real * (PageHeight as real / h as real)).Floor == PageHeight * w / h
  {
    var s := PageHeight as real / h as real;
    assert h as real * s == PageHeight as real;
    assert w as real * s == (PageHeight * w) as real / h as real;
    FloorOfQuotient(PageHeight * w, h);
  }

  /**
   * The aspect ratio is kept up to the rounding of one side: the cross
   * products of the fitted and the original size differ by less than one
   * original side.
   */
  lemma AspectWithinRounding(w: nat, h: nat)
    requires w > 0 && h > 0
    ensures var r := FitToPage(w, h);
      -(h as int) < r.width * h - r.height * w < w
  {
    var r := FitToPage(w, h);
    if WidthBound(w, h) {
      var a := PageWidth * h;
      assert a == (a / w) * w + a % w;
      assert r.width * h - r.height * w == a % w;
    } else {
      var a := PageHeight * w;
      assert a == (a / h) * h + a % h;
      assert r.width * h - r.height * w == -(a % h);
    }
  }

  /** Fitting an already fitted size changes nothing, as long as neither side was rounded to zero. */
  lemma FitIdempotent(w: nat, h: nat)
    requires w > 0 && h > 0
    requires FitToPage(w, h).width > 0 && FitToPage(w, h).height > 0
    ensures FitToPage(FitToPage(w, h).width, FitToPage(w, h).height) == FitToPage(w, h)
  {
    var r := FitToPage(w, h);
    if WidthBound(w, h) {
      assert r.width == PageWidth;
      assert WidthBound(r.width, r.height);
      assert PageWidth * r.height / PageWidth == r.height;
    } else {
      var a := PageHeight * w;
      assert a < PageWidth * h;
      assert r.width < PageWidth by {
        assert a == (a / h) * h + a % h;
        CancelFactor(a / h, PageWidth, h);
      }
      assert !WidthBound(r.width, r.height);
      assert PageHeight * r.width / PageHeight == r.width;
    }
  }

  /**
   * The scale is not capped at 1: an image that already fits the page is
   * not shrunk on either side.
   */
  lemma SmallImagesEnlarged(w: nat, h: nat)
    requires 0 < w <= PageWidth && 0 < h <= PageHeight
    ensures FitToPage(w, h).width >= w && FitToPage(w, h).height >= h
  {
    if WidthBound(w, h) {
      DivAtLeast(PageWidth * h, w, h);
    } else {
      DivAtLeast(PageHeight * w, h, w);
    }
  }

  /** A very narrow image is truncated to width 0, so positivity is not preserved. */
  lemma NarrowImageLosesWidth(w: nat, h: nat)
    requires w > 0 && PageHeight * w < h
    ensures FitToPage(w, h).width == 0 && FitToPage(w, h).height == PageHeight
  {
    assert !WidthBound(w, h);
  }

  /** A very wide image is truncated to height 0. */
  lemma WideImageLosesHeight(w: nat, h: nat)
    requires h > 0 && PageWidth * h < w
    ensures FitToPage(w, h).width == PageWidth && FitToPage(w, h).height == 0
  {
    assert WidthBound(w, h);
  }

  /**
   * True when the fitted size has a side of 0: the image is more than 842
   * times as tall as it is wide, or more than 595 times as wide as it is tall.
   */
  predicate Truncated(w: nat, h: nat)
  {
    PageHeight * w < h || PageWidth * h < w
  }

  /** For naturals, a / b is 0 exactly when a < b. */
  lemma QuotientZeroIff(a: nat, b: nat)
    requires b > 0
    ensures a / b == 0 <==> a < b
  {
    if a >= b {
      DivAtLeast(a, b, 1);
    }
  }

  /** A fitted side is 0 exactly when the image is `Truncated`. */
  lemma TruncatedIff(w: nat, h: nat)
    requires w > 0 && h > 0
    ensures Truncated(w, h) <==> FitToPage(w, h).width == 0 || FitToPage(w, h).height == 0
  {
    if WidthBound(w, h) {
      QuotientZeroIff(PageWidth * h, w);
    } else {
      QuotientZeroIff(PageHeight * w, h);
    }
  }

  /** The worked examples: a 300 x 900 image is enlarged to 280 x 842, a 4000 x 3000 one reduced to 595 x 446. */
  lemma FitExamples()
    ensures FitToPage(300, 900) == Size(280, 842)
    ensures FitToPage(4000, 3000) == Size(595, 446)
  {
  }
}
