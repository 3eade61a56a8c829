/**
 * The page compositor of PdfGenerator: grouping images into pages, sizing
 * each page, scaling and centring each image in its region, the page border
 * and the border colour. Coordinates are exact reals standing for the PDF
 * `float` user-space units; an image is only its pixel size, and drawing is
 * replaced by the list of rectangles that would be drawn.
 */
module PdfGenerator {
  import opened Wrappers
  import opened JavaString

  /** PDFBox's A4 page, in points. */
  const A4Width: real := 595.27563
  const A4Height: real := 841.8898

  /** A decoded raster image always has at least one pixel in each direction. */
  type Pixels = x: int | x > 0 witness 1

  datatype Image = Image(width: Pixels, height: Pixels)

  datatype Rect = Rect(x: real, y: real, width: real, height: real)

  /** The image at position `imageIndex` of the input list, drawn into `rect`. */
  datatype Placement = Placement(imageIndex: nat, rect: Rect)

  /** An RGB colour as java.awt.Color holds it. */
  datatype Color = Color(red: int, green: int, blue: int)

  const Black := Color(0, 0, 0)
  const Red := Color(255, 0, 0)
  const Blue := Color(0, 0, 255)
  const Green := Color(0, 255, 0)
  const Gray := Color(128, 128, 128)

  /** A stroked rectangle: the path `rect`, stroked with `lineWidth` in `color`. */
  datatype Frame = Frame(rect: Rect, lineWidth: int, color: Color)

  datatype Page = Page(width: real, height: real, placements: seq<Placement>, border: Option<Frame>)

  // ---------------------------------------------------------------------------
  // Layout and colour options

  /** Double-page spreads are chosen by the layout string "double", in any case. */
  predicate IsDouble(layout: string) {
    EqualsIgnoreCase("double", layout)
  }

  lemma IsDoubleExactly(layout: string)
    ensures IsDouble(layout) <==> Lower(layout) == "double"
  {
    assert Lower("double") == "double";
    EqualsIgnoreCaseLower(layout, "double");
  }

  /** getColorFromString: the lower-cased name looked up in a fixed table, black otherwise. */
  function ColorFromString(name: string): Color {
    var key := Lower(name);
    if key == "red" then Red
    else if key == "blue" then Blue
    else if key == "green" then Green
    else if key == "gray" then Gray
    else Black
  }

  /** The names the colour table recognises. */
  function ColorName(c: Color): Option<string> {
    if c == Red then Some("red")
    else if c == Blue then Some("blue")
    else if c == Green then Some("green")
    else if c == Gray then Some("gray")
    else None
  }

  /** Every table colour is found from its name, and every other name gives black. */
  lemma ColorTable(name: string)
    ensures ColorFromString(name) != Black ==> ColorName(ColorFromString(name)) == Some(Lower(name))
    ensures ColorName(ColorFromString(name)).None? <==> ColorFromString(name) == Black
    ensures forall c :: ColorName(c).Some? ==> ColorFromString(ColorName(c).value) == c
  {
    forall c | ColorName(c).Some?
      ensures ColorFromString(ColorName(c).value) == c
    {
      var n := ColorName(c).value;
      assert Lower(n) == n;
    }
  }

  /** The colour depends on the name only up to case. */
  lemma ColorIgnoresCase(a: string, b: string)
    requires EqualsIgnoreCase(a, b)
    ensures ColorFromString(a) == ColorFromString(b)
  {
    EqualsIgnoreCaseSameLower(a, b);
  }

  // ---------------------------------------------------------------------------
  // Placement of one image

  /** Math.min on two floats, without NaN or signed zero. */
  function Min(a: real, b: real): (r: real)
    ensures r <= a && r <= b && (r == a || r == b)
  {
    if a <= b then a else b
  }

  /** `2 * borderSize`, an `int` product that wraps around like Java's. As `b` is
      itself an `int`, the exact product is off by at most one multiple of 2^32. */
  function Inset(b: Int32): (r: Int32)
    ensures -0x4000_0000 <= b < 0x4000_0000 ==> r == 2 * b
    ensures r == 2 * b || r == 2 * b - 0x1_0000_0000 || r == 2 * b + 0x1_0000_0000
  {
    if 2 * b > IntMax then 2 * b - 0x1_0000_0000
    else if 2 * b < IntMin then 2 * b + 0x1_0000_0000
    else 2 * b
  }

  /** addImageToPage: scale the image by the largest ratio that keeps it `b` away
      from every side of `region`, then centre it in the whole region. */
  function Place(image: Image, region: Rect, b: Int32): Rect {
    var iw := image.width as real;
    var ih := image.height as real;
    var inset := Inset(b) as real;
    var ratio := Min((region.width - inset) / iw, (region.height - inset) / ih);
    var scaledWidth := iw * ratio;
    var scaledHeight := ih * ratio;
    Rect(region.x + (region.width - scaledWidth) / 2.0,
         region.y + (region.height - scaledHeight) / 2.0,
         scaledWidth, scaledHeight)
  }

  /** What a fitted image is: same aspect ratio as the image, inside `region` inset
      by `b` on every side, touching the inset on at least one axis, and with
      equal gaps on both sides of the whole region along each axis. */
  ghost predicate FitsRegion(r: Rect, region: Rect, image: Image, b: real) {
    && r.width * image.height as real == r.height * image.width as real
    && region.x + b <= r.x && r.x + r.width <= region.x + region.width - b
    && region.y + b <= r.y && r.y + r.height <= region.y + region.height - b
    && (r.width == region.width - 2.0 * b || r.height == region.height - 2.0 * b)
    && r.x - region.x == (region.x + region.width) - (r.x + r.width)
    && r.y - region.y == (region.y + region.height) - (r.y + r.height)
  }

  /** A ratio no larger than `bound / k` scales `k` to no more than `bound`. */
  lemma ScaleAtMost(k: real, ratio: real, bound: real)
    requires k > 0.0 && ratio <= bound / k
    ensures k * ratio <= bound
  {
    assert k * ratio <= k * (bound / k);
  }

  /** Aspect ratio is kept whatever the border, even where the ratio is negative. */
  lemma PlaceKeepsAspect(image: Image, region: Rect, b: Int32)
    ensures var r := Place(image, region, b);
      r.width * image.height as real == r.height * image.width as real
  {
  }

  /** The image is centred in the whole region, whatever the border. */
  lemma PlaceCentred(image: Image, region: Rect, b: Int32)
    ensures var r := Place(image, region, b);
      && r.x - region.x == (region.x + region.width) - (r.x + r.width)
      && r.y - region.y == (region.y + region.height) - (r.y + r.height)
  {
  }

  /** When the region has room for the border, the placed image fits it. A
      negative border is an outward inset: the image then fits the region grown
      by |b| on every side. */
  lemma PlaceFits(image: Image, region: Rect, b: Int32)
    requires -0x4000_0000 <= b
    requires 2.0 * b as real <= region.width && 2.0 * b as real <= region.height
    requires b < 0x4000_0000
    ensures FitsRegion(Place(image, region, b), region, image, b as real)
  {
    var iw := image.width as real;
    var ih := image.height as real;
    var a := region.width - 2.0 * b as real;
    var c := region.height - 2.0 * b as real;
    var ratio := Min(a / iw, c / ih);
    var r := Place(image, region, b);
    assert r.width == iw * ratio && r.height == ih * ratio;
    ScaleAtMost(iw, ratio, a);
    ScaleAtMost(ih, ratio, c);
    if ratio == a / iw {
      assert r.width == a;
    } else {
      assert r.height == c;
    }
  }

  /** As written, nothing stops a negative border (parseInt accepts "-10"): the
      image then spills |b| past both sides of its region on the axis where it
      touches the inset, over the neighbouring image or off the page. */
  lemma NegativeBorderOverflows(image: Image, region: Rect, b: Int32)
    requires -0x4000_0000 <= b < 0
    requires 0.0 <= region.width && 0.0 <= region.height
    ensures var r := Place(image, region, b);
      || (r.x == region.x + b as real && r.x + r.width == region.x + region.width - b as real)
      || (r.y == region.y + b as real && r.y + r.height == region.y + region.height - b as real)
  {
    PlaceFits(image, region, b);
  }

  /** For instance, a border of -10 puts a square image 10 units outside each side
      of an A4 column. */
  lemma NegativeBorderExample()
    ensures var r := Place(Image(1, 1), Column(0), -10);
      r.x == -10.0 && r.x + r.width == A4Width + 10.0
  {
  }

  /** A rectangle with the image's aspect ratio is the image scaled by width / iw. */
  lemma ShapeOfWidth(iw: real, ih: real, w: real, h: real)
    requires iw > 0.0 && ih > 0.0 && w * ih == h * iw
    ensures w == iw * (w / iw) && h == ih * (w / iw)
  {
    assert h == (w * ih) / iw;
  }

  /** Dividing both sides of `k * x <= c` by a positive `x`. */
  lemma DivideBound(x: real, k: real, c: real)
    requires x > 0.0 && x * k <= c
    ensures k <= c / x
  {
    assert k == (x * k) / x;
  }

  /** Conversely, only the placed rectangle fits: the fit is unique. */
  lemma FitIsUnique(image: Image, region: Rect, b: Int32, r: Rect)
    requires -0x4000_0000 <= b
    requires 2.0 * b as real <= region.width && 2.0 * b as real <= region.height
    requires b < 0x4000_0000
    requires FitsRegion(r, region, image, b as real)
    ensures r == Place(image, region, b)
  {
    var iw := image.width as real;
    var ih := image.height as real;
    var a := region.width - 2.0 * b as real;
    var c := region.height - 2.0 * b as real;
    var p := Place(image, region, b);
    assert Inset(b) as real == 2.0 * b as real;
    var ratio := Min(a / iw, c / ih);
    assert p.width == iw * ratio && p.height == ih * ratio;
    if r.width == a {
      var k := a / iw;
      ShapeOfWidth(iw, ih, r.width, r.height);
      DivideBound(ih, k, c);
      assert ratio == k;
    } else {
      assert r.height == c;
      var k := c / ih;
      ShapeOfWidth(ih, iw, r.height, r.width);
      DivideBound(iw, k, a);
      assert ratio == k;
    }
    assert r.width == p.width && r.height == p.height;
  }

  // ---------------------------------------------------------------------------
  // Pages

  /** drawBorder: a rectangle at margin b/2 from every page edge, stroked b wide. */
  function BorderFrame(width: real, height: real, b: Int32, color: Color): Frame {
    var margin := b as real / 2.0;
    Frame(Rect(margin, margin, width - 2.0 * margin, height - 2.0 * margin), b, color)
  }

  /** createPageForImages and the body of the page loop: the page starting at image
      `i`, holding images `i` and `i + 1` when `paired`. */
  function MakePage(images: seq<Image>, i: nat, paired: bool, b: Int32, color: Color): Page
    requires i < |images| && (paired ==> i + 1 < |images|)
  {
    var width := if paired then A4Width * 2.0 else A4Width;
    var height := A4Height;
    var border := if b > 0 then Some(BorderFrame(width, height, b, color)) else None;
    var placements :=
      if paired then
        [Placement(i, Place(images[i], Rect(0.0, 0.0, width / 2.0, height), b)),
         Placement(i + 1, Place(images[i + 1], Rect(width / 2.0, 0.0, width / 2.0, height), b))]
      else
        [Placement(i, Place(images[i], Rect(0.0, 0.0, width, height), b))];
    Page(width, height, placements, border)
  }

  /** Images advanced per page. */
  function Step(double: bool): nat {
    if double then 2 else 1
  }

  /** The index of the first image on page `k`: k times the step. */
  function FirstImage(k: nat, double: bool): nat {
    if double then 2 * k else k
  }

  /** The page loop of generatePdf from image `i` onwards. */
  function PagesFrom(images: seq<Image>, i: nat, double: bool, b: Int32, color: Color): seq<Page>
    decreases |images| - i
  {
    if i >= |images| then []
    else [MakePage(images, i, double && i + 1 < |images|, b, color)]
         + PagesFrom(images, i + Step(double), double, b, color)
  }

  /** generatePdf without the PDF file: the pages of the document, in order. */
  function Compose(images: seq<Image>, layout: string, b: Int32, color: Color): seq<Page> {
    PagesFrom(images, 0, IsDouble(layout), b, color)
  }

  /** The image indices of one page, in placement order. */
  function PageImages(p: Page): seq<nat> {
    seq(|p.placements|, j requires 0 <= j < |p.placements| => p.placements[j].imageIndex)
  }

  /** The image indices of a document, page after page. */
  function ImageOrder(pages: seq<Page>): seq<nat> {
    if |pages| == 0 then [] else PageImages(pages[0]) + ImageOrder(pages[1..])
  }

  /** The indices `lo`, `lo + 1`, ..., `hi - 1`. */
  function Range(lo: nat, hi: nat): seq<nat> {
    seq(if lo <= hi then hi - lo else 0, k requires 0 <= k => lo + k)
  }

  lemma RangeSplit(lo: nat, mid: nat, hi: nat)
    requires lo <= mid <= hi
    ensures Range(lo, hi) == Range(lo, mid) + Range(mid, hi)
  {
  }

  lemma MakePageImages(images: seq<Image>, i: nat, paired: bool, b: Int32, color: Color)
    requires i < |images| && (paired ==> i + 1 < |images|)
    ensures PageImages(MakePage(images, i, paired, b, color)) == Range(i, i + if paired then 2 else 1)
  {
  }

  lemma {:induction false} PagesFromCount(images: seq<Image>, i: nat, double: bool, b: Int32, color: Color)
    requires i <= |images|
    ensures |PagesFrom(images, i, double, b, color)| == if double then (|images| - i + 1) / 2 else |images| - i
    decreases |images| - i
  {
    if i < |images| {
      if i + Step(double) <= |images| {
        PagesFromCount(images, i + Step(double), double, b, color);
      }
    }
  }

  /** One page per image in single mode, ceil(n / 2) pages in double mode. */
  lemma ComposePageCount(images: seq<Image>, layout: string, b: Int32, color: Color)
    ensures |Compose(images, layout, b, color)| == if IsDouble(layout) then (|images| + 1) / 2 else |images|
  {
    PagesFromCount(images, 0, IsDouble(layout), b, color);
  }

  lemma {:induction false} PagesFromOrder(images: seq<Image>, i: nat, double: bool, b: Int32, color: Color)
    requires i <= |images|
    ensures ImageOrder(PagesFrom(images, i, double, b, color)) == Range(i, |images|)
    decreases |images| - i
  {
    var pages := PagesFrom(images, i, double, b, color);
    if i < |images| {
      var paired := double && i + 1 < |images|;
      var next := i + Step(double);
      var rest := PagesFrom(images, next, double, b, color);
      assert pages == [MakePage(images, i, paired, b, color)] + rest;
      assert pages[1..] == rest;
      MakePageImages(images, i, paired, b, color);
      if next <= |images| {
        PagesFromOrder(images, next, double, b, color);
        RangeSplit(i, next, |images|);
      } else {
        assert i + 1 == |images|;
      }
    }
  }

  /** Reading the pages in order gives back every image once, in input order. */
  lemma ComposeKeepsOrder(images: seq<Image>, layout: string, b: Int32, color: Color)
    ensures ImageOrder(Compose(images, layout, b, color)) == Range(0, |images|)
  {
    PagesFromOrder(images, 0, IsDouble(layout), b, color);
  }

  lemma {:induction false} PagesFromAt(images: seq<Image>, i: nat, double: bool, b: Int32, color: Color, k: nat)
    requires i + FirstImage(k, double) < |images|
    ensures var start := i + FirstImage(k, double);
      && k < |PagesFrom(images, i, double, b, color)|
      && PagesFrom(images, i, double, b, color)[k] == MakePage(images, start, double && start + 1 < |images|, b, color)
    decreases k
  {
    if k > 0 {
      PagesFromAt(images, i + Step(double), double, b, color, k - 1);
    }
  }

  /** Page `k` exists exactly when its first image does. */
  lemma PageExists(images: seq<Image>, layout: string, b: Int32, color: Color, k: nat)
    ensures k < |Compose(images, layout, b, color)| <==> FirstImage(k, IsDouble(layout)) < |images|
  {
    ComposePageCount(images, layout, b, color);
  }

  /** The region of a page given to its `j`-th image: one A4-wide column. */
  function Column(j: nat): Rect {
    Rect(j as real * A4Width, 0.0, A4Width, A4Height)
  }

  /** Size and occupancy of one page built by MakePage. */
  lemma MakePageShape(images: seq<Image>, i: nat, paired: bool, b: Int32, color: Color)
    requires i < |images| && (paired ==> i + 1 < |images|)
    ensures var p := MakePage(images, i, paired, b, color);
      && |p.placements| == (if paired then 2 else 1)
      && p.width == (if paired then 2.0 * A4Width else A4Width) && p.height == A4Height
  {
  }

  /** Shape, border and fitting facts of one page built by MakePage. */
  lemma MakePageFacts(images: seq<Image>, i: nat, paired: bool, b: Int32, color: Color)
    requires i < |images| && (paired ==> i + 1 < |images|)
    requires -0x4000_0000 <= b && 2.0 * b as real <= A4Width
    ensures var p := MakePage(images, i, paired, b, color);
      && |p.placements| == (if paired then 2 else 1)
      && p.width == |p.placements| as real * A4Width && p.height == A4Height
      && (forall j :: 0 <= j < |p.placements| ==>
            p.placements[j].imageIndex == i + j &&
            FitsRegion(p.placements[j].rect, Column(j), images[i + j], b as real))
  {
    var p := MakePage(images, i, paired, b, color);
    if paired {
      PlaceFits(images[i], Column(0), b);
      PlaceFits(images[i + 1], Column(1), b);
      assert p.placements[1].rect == Place(images[i + 1], Column(1), b);
    } else {
      PlaceFits(images[i], Column(0), b);
    }
  }

  /** Page sizes: a pair gets a double-width page, a lone image (also the trailing
      odd one of double mode) gets A4; pages hold two images exactly when the
      layout is double and a partner image is left. */
  lemma ComposePageShape(images: seq<Image>, layout: string, b: Int32, color: Color, k: nat)
    requires FirstImage(k, IsDouble(layout)) < |images|
    ensures k < |Compose(images, layout, b, color)|
    ensures var p := Compose(images, layout, b, color)[k];
      var double := IsDouble(layout);
      && (|p.placements| == 2 <==> double && 2 * k + 1 < |images|)
      && (|p.placements| == 1 <==> !(double && 2 * k + 1 < |images|))
      && p.width == (if |p.placements| == 2 then 2.0 * A4Width else A4Width)
      && p.height == A4Height
  {
    var double := IsDouble(layout);
    PagesFromAt(images, 0, double, b, color, k);
    var start := FirstImage(k, double);
    MakePageShape(images, start, double && start + 1 < |images|, b, color);
  }

  /** Which image each placement shows and which region it is placed in do not
      depend on the border: placement j of page k is image k·step + j, placed in
      column j. */
  lemma ComposeAllocation(images: seq<Image>, layout: string, b: Int32, color: Color, k: nat)
    requires FirstImage(k, IsDouble(layout)) < |images|
    ensures k < |Compose(images, layout, b, color)|
    ensures var p := Compose(images, layout, b, color)[k];
      var start := FirstImage(k, IsDouble(layout));
      && |p.placements| == (if IsDouble(layout) && start + 1 < |images| then 2 else 1)
      && forall j :: 0 <= j < |p.placements| ==>
           start + j < |images| &&
           p.placements[j] == Placement(start + j, Place(images[start + j], Column(j), b))
  {
    var double := IsDouble(layout);
    PagesFromAt(images, 0, double, b, color, k);
    var start := FirstImage(k, double);
    var p := Compose(images, layout, b, color)[k];
    if double && start + 1 < |images| {
      assert p.placements[1] == Placement(start + 1, Place(images[start + 1], Column(1), b));
    }
  }

  /** Every placement of the document is the right image, fitted to its column. */
  lemma ComposeFitsColumns(images: seq<Image>, layout: string, b: Int32, color: Color, k: nat)
    requires -0x4000_0000 <= b && 2.0 * b as real <= A4Width
    requires FirstImage(k, IsDouble(layout)) < |images|
    ensures k < |Compose(images, layout, b, color)|
    ensures var p := Compose(images, layout, b, color)[k];
      forall j :: 0 <= j < |p.placements| ==>
        && p.placements[j].imageIndex == FirstImage(k, IsDouble(layout)) + j < |images|
        && FitsRegion(p.placements[j].rect, Column(j), images[p.placements[j].imageIndex], b as real)
  {
    var double := IsDouble(layout);
    PagesFromAt(images, 0, double, b, color, k);
    var start := FirstImage(k, double);
    MakePageFacts(images, start, double && start + 1 < |images|, b, color);
  }

  /** Every page has its border exactly when b > 0, whatever b parseInt gave. It
      is stroked b wide around the path at b/2 from the edges, so its outer edge
      is the page edge. */
  lemma ComposeBorder(images: seq<Image>, layout: string, b: Int32, color: Color, k: nat)
    requires FirstImage(k, IsDouble(layout)) < |images|
    ensures k < |Compose(images, layout, b, color)|
    ensures var p := Compose(images, layout, b, color)[k];
      && (p.border.Some? <==> b > 0)
      && (p.border.Some? ==>
            var f := p.border.value;
            var half := f.lineWidth as real / 2.0;
            && f.lineWidth == b && f.color == color
            && f.rect.x - half == 0.0 && f.rect.y - half == 0.0
            && f.rect.x + f.rect.width + half == p.width
            && f.rect.y + f.rect.height + half == p.height)
  {
    PagesFromAt(images, 0, IsDouble(layout), b, color, k);
  }

  /** When 2b fits in an A4 width, the border's inner edge is the inset every image
      keeps, so no image overlaps it. */
  lemma BorderClearsImages(images: seq<Image>, layout: string, b: Int32, color: Color, k: nat)
    requires 2.0 * b as real <= A4Width
    requires FirstImage(k, IsDouble(layout)) < |images|
    ensures k < |Compose(images, layout, b, color)|
    ensures var p := Compose(images, layout, b, color)[k];
      p.border.Some? ==>
        var f := p.border.value;
        var half := f.lineWidth as real / 2.0;
        forall j :: 0 <= j < |p.placements| ==>
          var r := p.placements[j].rect;
          && f.rect.x + half <= r.x && r.x + r.width <= f.rect.x + f.rect.width - half
          && f.rect.y + half <= r.y && r.y + r.height <= f.rect.y + f.rect.height - half
  {
    var double := IsDouble(layout);
    PagesFromAt(images, 0, double, b, color, k);
    if b > 0 {
      var start := FirstImage(k, double);
      MakePageFacts(images, start, double && start + 1 < |images|, b, color);
    }
  }
}
