/** Page geometry of a merged page: the paper sizes, the fixed 2/3/4-up layout with
    a 15-unit margin and a 10-unit gap (`calculateLayout`, App.tsx:195-229 and
    index.js:354-382), and the centred aspect-preserving fit of a source page into
    its layout cell, in the ratio form of the previews (App.tsx:258-275,
    index.js:404-410) and the `Math.min` form of the vector export
    (App.tsx:443-455). All coordinates are reals in the canvas convention: x grows
    to the right and y grows downwards, so rectangle 0 is the top one. */
module Layout {
  import opened Pages

  datatype Rect = Rect(x: real, y: real, width: real, height: real)

  datatype Size = Size(width: real, height: real)

  const Margin: real := 15.0
  const Gap: real := 10.0

  /** The four paper sizes come from the PDF library's `PageSizes.A4` and
      `PageSizes.Letter` (width, height in portrait). */
  datatype Paper = Paper(a4Width: real, a4Height: real, letterWidth: real, letterHeight: real)

  /** The library's sizes are well above the 50 units the layout needs on each side. */
  predicate PaperOk(paper: Paper) {
    paper.a4Width > 50.0 && paper.a4Height > 50.0 && paper.letterWidth > 50.0 && paper.letterHeight > 50.0
  }

  /** `getPageSize` (App.tsx:184-193, index.js:343-351). */
  function PageDimensions(paper: Paper, size: PageSize): Size {
    match size
    case A4Portrait => Size(paper.a4Width, paper.a4Height)
    case A4Landscape => Size(paper.a4Height, paper.a4Width)
    case LetterPortrait => Size(paper.letterWidth, paper.letterHeight)
    case LetterLandscape => Size(paper.letterHeight, paper.letterWidth)
  }

  /** Landscape is the portrait size turned by a quarter: width and height swap; and
      every page is large enough for the layout. */
  lemma PageDimensionsSwap(paper: Paper)
    ensures PageDimensions(paper, A4Landscape).width == PageDimensions(paper, A4Portrait).height
    ensures PageDimensions(paper, A4Landscape).height == PageDimensions(paper, A4Portrait).width
    ensures PageDimensions(paper, LetterLandscape).width == PageDimensions(paper, LetterPortrait).height
    ensures PageDimensions(paper, LetterLandscape).height == PageDimensions(paper, LetterPortrait).width
    ensures PaperOk(paper) ==> forall s: PageSize :: PageDimensions(paper, s).width > 50.0 && PageDimensions(paper, s).height > 50.0
  {
  }

  /** The layout cells for `count` source pages on a `w` by `h` page. */
  function CalculateLayout(count: int, w: real, h: real): (rects: seq<Rect>)
    ensures |rects| == if 2 <= count <= 4 then count else 1
  {
    if count == 2 then
      // 1x2 vertical stack
      var ch := (h - 2.0 * Margin - Gap) / 2.0;
      var cw := w - 2.0 * Margin;
      [Rect(Margin, Margin, cw, ch), Rect(Margin, Margin + ch + Gap, cw, ch)]
    else if count == 3 then
      // 1x3 vertical stack
      var ch := (h - 2.0 * Margin - 2.0 * Gap) / 3.0;
      var cw := w - 2.0 * Margin;
      [Rect(Margin, Margin, cw, ch), Rect(Margin, Margin + ch + Gap, cw, ch),
       Rect(Margin, Margin + 2.0 * (ch + Gap), cw, ch)]
    else if count == 4 then
      // 2x2 grid
      var ch := (h - 2.0 * Margin - Gap) / 2.0;
      var cw := (w - 2.0 * Margin - Gap) / 2.0;
      [Rect(Margin, Margin, cw, ch), Rect(Margin + cw + Gap, Margin, cw, ch),
       Rect(Margin, Margin + ch + Gap, cw, ch), Rect(Margin + cw + Gap, Margin + ch + Gap, cw, ch)]
    else
      [Rect(Margin, Margin, w - 2.0 * Margin, h - 2.0 * Margin)]
  }

  /** `r` lies inside the page area left free by the margins. */
  predicate InContentArea(r: Rect, w: real, h: real) {
    && Margin <= r.x && r.x + r.width <= w - Margin
    && Margin <= r.y && r.y + r.height <= h - Margin
  }

  /** `b` comes after `a` in reading order with at least the gap between them:
      either wholly below it, or on the same row and wholly to its right. */
  predicate Follows(a: Rect, b: Rect) {
    || a.y + a.height + Gap <= b.y
    || (a.y == b.y && a.x + a.width + Gap <= b.x)
  }

  /** Every cell has positive size and lies inside the margins, as long as the page is
      large enough for 3 rows and 2 columns of cells (more than 50 by 40). */
  lemma LayoutInside(count: int, w: real, h: real)
    requires w > 40.0 && h > 50.0
    ensures var rects := CalculateLayout(count, w, h);
            forall i | 0 <= i < |rects| ::
              rects[i].width > 0.0 && rects[i].height > 0.0 && InContentArea(rects[i], w, h)
  {
  }

  /** Cells are listed top to bottom, left to right, pairwise separated by at least
      the gap, so no two overlap. */
  lemma LayoutSeparated(count: int, w: real, h: real)
    requires w > 40.0 && h > 50.0
    ensures var rects := CalculateLayout(count, w, h);
            forall i, j | 0 <= i < j < |rects| :: Follows(rects[i], rects[j])
  {
  }

  /** For 2 to 4 pages all cells have the same size, the gaps are exactly `Gap`, and
      the cells reach the margins on all four sides. */
  lemma LayoutTight(count: int, w: real, h: real)
    requires 2 <= count <= 4
    ensures Tight(CalculateLayout(count, w, h), w, h)
  {
    if count == 2 {
      TightTwo(w, h);
    } else if count == 3 {
      TightThree(w, h);
    } else {
      TightFour(w, h);
    }
  }

  /** Equal cells, the first at the top-left margin corner, the last at the
      bottom-right one, each next cell either a row below or `Gap` to the right. */
  predicate Tight(rects: seq<Rect>, w: real, h: real) {
    && |rects| > 0
    && (forall i | 0 <= i < |rects| :: rects[i].width == rects[0].width && rects[i].height == rects[0].height)
    && rects[0].x == Margin && rects[0].y == Margin
    && rects[|rects| - 1].x + rects[|rects| - 1].width == w - Margin
    && rects[|rects| - 1].y + rects[|rects| - 1].height == h - Margin
    && (forall i | 0 < i < |rects| ::
          rects[i].y == rects[i - 1].y + rects[i - 1].height + Gap
          || (rects[i].y == rects[i - 1].y && rects[i].x == rects[i - 1].x + rects[i - 1].width + Gap))
  }

  lemma TightTwo(w: real, h: real)
    ensures Tight(CalculateLayout(2, w, h), w, h)
  {
  }

  lemma TightThree(w: real, h: real)
    ensures Tight(CalculateLayout(3, w, h), w, h)
  {
  }

  lemma TightFour(w: real, h: real)
    ensures Tight(CalculateLayout(4, w, h), w, h)
  {
  }

  /** Any other count gets one cell covering the whole area inside the margins. */
  lemma LayoutFallback(count: int, w: real, h: real)
    requires !(2 <= count <= 4)
    ensures CalculateLayout(count, w, h) == [Rect(Margin, Margin, w - 2.0 * Margin, h - 2.0 * Margin)]
  {
  }

  /** The ratio form of the fit (App.tsx:258-275, index.js:404-410): compare the
      image's and the cell's width-to-height ratios; the wider one decides which
      side is matched; then centre. */
  function AspectFit(cell: Rect, image: Size): (box: Rect)
    requires cell.width > 0.0 && cell.height > 0.0
    requires image.width > 0.0 && image.height > 0.0
  {
    var imageRatio := image.width / image.height;
    var cellRatio := cell.width / cell.height;
    var drawWidth := if imageRatio > cellRatio then cell.width else cell.height * imageRatio;
    var drawHeight := if imageRatio > cellRatio then cell.width / imageRatio else cell.height;
    Rect(cell.x + (cell.width - drawWidth) / 2.0, cell.y + (cell.height - drawHeight) / 2.0, drawWidth, drawHeight)
  }

  /** The `Math.min` form of the fit (App.tsx:443-455): scale by the smaller of the two
      side ratios, then centre. */
  function MinScaleFit(cell: Rect, image: Size): (box: Rect)
    requires image.width > 0.0 && image.height > 0.0
  {
    var sx := cell.width / image.width;
    var sy := cell.height / image.height;
    var scale := if sx <= sy then sx else sy;
    var drawWidth := image.width * scale;
    var drawHeight := image.height * scale;
    Rect(cell.x + (cell.width - drawWidth) / 2.0, cell.y + (cell.height - drawHeight) / 2.0, drawWidth, drawHeight)
  }

  /** `box` is the centred, aspect-preserving, largest fit of `image` in `cell`. */
  predicate Fits(box: Rect, cell: Rect, image: Size) {
    // inside the cell
    && cell.x <= box.x && box.x + box.width <= cell.x + cell.width
    && cell.y <= box.y && box.y + box.height <= cell.y + cell.height
    // positive and with the image's proportions
    && box.width > 0.0 && box.height > 0.0
    && box.width * image.height == box.height * image.width
    // as large as possible: one side matches the cell
    && (box.width == cell.width || box.height == cell.height)
    // centred: equal leftover space on both sides of each axis
    && box.x - cell.x == (cell.x + cell.width) - (box.x + box.width)
    && box.y - cell.y == (cell.y + cell.height) - (box.y + box.height)
  }

  /** The ratio form fits the image into the cell. */
  lemma AspectFitFits(cell: Rect, image: Size)
    requires cell.width > 0.0 && cell.height > 0.0
    requires image.width > 0.0 && image.height > 0.0
    ensures Fits(AspectFit(cell, image), cell, image)
  {
    var a := image.width / image.height;
    var c := cell.width / cell.height;
    assert a * image.height == image.width;
    assert c * cell.height == cell.width;
    if a > c {
      var dh := cell.width / a;
      assert dh * a == cell.width;
      assert dh < cell.height by {
        assert cell.width < cell.height * a by {
          assert c < a;
          MultiplyLess(c, a, cell.height);
        }
        DivideLess(cell.width, cell.height, a);
      }
      assert cell.width * image.height == dh * image.width by {
        calc {
          dh * image.width;
          dh * (a * image.height);
          (dh * a) * image.height;
          cell.width * image.height;
        }
      }
    } else {
      var dw := cell.height * a;
      assert dw <= cell.width by {
        MultiplyAtMost(a, c, cell.height);
      }
      assert dw * image.height == cell.height * image.width by {
        calc {
          dw * image.height;
          cell.height * a * image.height;
          cell.height * (a * image.height);
          cell.height * image.width;
        }
      }
    }
  }

  lemma MultiplyLess(p: real, q: real, k: real)
    requires p < q && k > 0.0
    ensures p * k < q * k
  {
  }

  lemma MultiplyAtMost(p: real, q: real, k: real)
    requires p <= q && k > 0.0
    ensures p * k <= q * k
  {
  }

  lemma DivideLess(p: real, q: real, d: real)
    requires d > 0.0 && p < q * d
    ensures p / d < q
  {
  }

  /** The two forms of the fit compute the same box. */
  lemma FitFormsAgree(cell: Rect, image: Size)
    requires cell.width > 0.0 && cell.height > 0.0
    requires image.width > 0.0 && image.height > 0.0
    ensures AspectFit(cell, image) == MinScaleFit(cell, image)
  {
    var a := image.width / image.height;
    var c := cell.width / cell.height;
    var sx := cell.width / image.width;
    var sy := cell.height / image.height;
    // a > c  <==>  sx < sy
    assert a > c <==> sx < sy by {
      RatioOrder(image, cell);
    }
    if a > c {
      assert image.width * sx == cell.width;
      assert image.height * sx == cell.width / a by {
        calc {
          image.height * sx;
          image.height * (cell.width / image.width);
          cell.width / (image.width / image.height);
        }
      }
    } else {
      assert image.height * sy == cell.height;
      assert image.width * sy == cell.height * a by {
        calc {
          image.width * sy;
          image.width * (cell.height / image.height);
          cell.height * (image.width / image.height);
        }
      }
    }
  }

  /** Comparing width-to-height ratios is comparing the two side scales, reversed. */
  lemma RatioOrder(image: Size, cell: Rect)
    requires cell.width > 0.0 && cell.height > 0.0
    requires image.width > 0.0 && image.height > 0.0
    ensures image.width / image.height > cell.width / cell.height
            <==> cell.width / image.width < cell.height / image.height
  {
    var a := image.width / image.height;
    var c := cell.width / cell.height;
    var sx := cell.width / image.width;
    var sy := cell.height / image.height;
    // both sides are equivalent to  cell.width * image.height < image.width * cell.height
    assert a > c <==> cell.width * image.height < image.width * cell.height by {
      CrossMultiply(cell.width, cell.height, image.width, image.height);
    }
    assert sx < sy <==> cell.width * image.height < cell.height * image.width by {
      CrossMultiply(cell.width, image.width, cell.height, image.height);
    }
  }

  /** `p/q < r/s` iff `p*s < r*q`, for positive denominators. */
  lemma CrossMultiply(p: real, q: real, r: real, s: real)
    requires q > 0.0 && s > 0.0
    ensures p / q < r / s <==> p * s < r * q
  {
    var x := p / q;
    var y := r / s;
    assert x * q == p;
    assert y * s == r;
    assert p * s == x * (q * s);
    assert r * q == y * (q * s);
    if x < y {
      MultiplyLess(x, y, q * s);
    }
    if p * s < r * q {
      if y <= x {
        MultiplyAtMost(y, x, q * s);
      }
    }
  }

  /** A box's vertical mirror image in a page of height `h`: the same box measured
      from the other edge. Turns a y-down canvas box into the y-up coordinates of
      PDF user space (section 8.3.2.3 of ISO 32000-1), and back. */
  function Mirror(h: real, box: Rect): (m: Rect)
    ensures m.x == box.x && m.width == box.width && m.height == box.height
    ensures m.y + m.height == h - box.y
  {
    Rect(box.x, h - box.y - box.height, box.width, box.height)
  }

  lemma MirrorTwice(h: real, box: Rect)
    ensures Mirror(h, Mirror(h, box)) == box
  {
  }
}
