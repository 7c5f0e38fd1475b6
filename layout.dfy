/**
  The layout rule of `generatePDF` (script.js): every image is scaled to the
  full content width of the page, stacked top to bottom with a fixed gap,
  and a new page is started when the next image does not fit below the
  cursor. Instead of calling the PDF library (`addPage`, `addImage`), the
  model emits one `Placement` per image, carrying the number of the page it
  lands on. Arithmetic is exact (`real`).
 */
module PdfLayout {

  /** The page margin, fixed in the source. */
  const Margin: real := 10.0
  /** The vertical gap left below every image. */
  const Gap: real := 10.0

  /** The page size the PDF library reports (`getWidth`, `getHeight`). */
  datatype PageSize = PageSize(width: real, height: real)

  /** A decoded image: its pixel width and height. */
  datatype Picture = Picture(pixelWidth: nat, pixelHeight: nat)

  /** Where one image is drawn: page number (0 is the first page), position and size. */
  datatype Placement = Placement(page: nat, x: real, y: real, width: real, height: real)

  /** The running state of the loop: the current page and `currentY`. */
  datatype Cursor = Cursor(page: nat, y: real)

  /** The placements emitted so far and the cursor after them. */
  datatype Progress = Progress(placements: seq<Placement>, cursor: Cursor)

  /** A page on which the margins leave room in both directions (A4 is one). */
  predicate ValidPage(s: PageSize) {
    s.width > 2.0 * Margin && s.height > 2.0 * Margin
  }

  /** An image with a positive pixel size (an assumption of the model). */
  predicate Decoded(img: Picture) {
    img.pixelWidth > 0 && img.pixelHeight > 0
  }

  predicate AllDecoded(imgs: seq<Picture>) {
    forall i :: 0 <= i < |imgs| ==> Decoded(imgs[i])
  }

  function ContentWidth(s: PageSize): real {
    s.width - Margin * 2.0
  }

  /** The height of one page inside the margins. */
  function UsableHeight(s: PageSize): real {
    s.height - Margin * 2.0
  }

  /** `imgRatio`: width over height. */
  function Ratio(img: Picture): (r: real)
    requires Decoded(img)
    ensures r > 0.0 && r * img.pixelHeight as real == img.pixelWidth as real
  {
    img.pixelWidth as real / img.pixelHeight as real
  }

  /** The height of the image once scaled to the full content width. */
  function FullWidthHeight(s: PageSize, img: Picture): real
    requires Decoded(img)
  {
    ContentWidth(s) / Ratio(img)
  }

  /** The cursor at the start of the layout: first page, top margin. */
  const Start: Cursor := Cursor(0, Margin)

  /** The body of the loop: where one image goes, given the cursor before it. */
  function Place(s: PageSize, c: Cursor, img: Picture): Placement
    requires Decoded(img)
  {
    var h := FullWidthHeight(s, img);
    if c.y + h > s.height - Margin then
      // a new page only when the current one already holds something
      var page := if c.y > Margin then c.page + 1 else c.page;
      var y := if c.y > Margin then Margin else c.y;
      if h > UsableHeight(s) then
        Placement(page, Margin, y, UsableHeight(s) * Ratio(img), UsableHeight(s))
      else
        Placement(page, Margin, y, ContentWidth(s), h)
    else
      Placement(c.page, Margin, c.y, ContentWidth(s), h)
  }

  /** The cursor after drawing `p`: same page, below the image and the gap. */
  function Next(p: Placement): Cursor {
    Cursor(p.page, p.y + p.height + Gap)
  }

  /** The loop run over `imgs`, one image at a time in input order. */
  function Run(s: PageSize, imgs: seq<Picture>): (r: Progress)
    requires AllDecoded(imgs)
    ensures |r.placements| == |imgs|
    decreases |imgs|
  {
    if |imgs| == 0 then Progress([], Start)
    else
      var before := Run(s, imgs[..|imgs| - 1]);
      var p := Place(s, before.cursor, imgs[|imgs| - 1]);
      Progress(before.placements + [p], Next(p))
  }

  /** The placement plan for a list of images. */
  function Layout(s: PageSize, imgs: seq<Picture>): seq<Placement>
    requires AllDecoded(imgs)
  {
    Run(s, imgs).placements
  }

  /** The loop of `generatePDF`, with `currentY` and the page counter as locals. */
  method GeneratePlan(s: PageSize, imgs: seq<Picture>) returns (placements: seq<Placement>)
    requires AllDecoded(imgs)
    ensures placements == Layout(s, imgs)
    ensures |placements| == |imgs|
    ensures ValidPage(s) ==> forall k :: 0 <= k < |placements| ==> Fits(s, placements[k])
  {
    var currentY := Margin;
    var page: nat := 0;
    placements := [];
    for i := 0 to |imgs|
      invariant Progress(placements, Cursor(page, currentY)) == Run(s, imgs[..i])
    {
      RunStep(s, imgs, i);
      var drawn;
      drawn, page, currentY := OnLoad(s, page, currentY, imgs[i]);
      placements := placements + [drawn];
    }
    assert imgs[..|imgs|] == imgs;
    if ValidPage(s) {
      LayoutFits(s, imgs);
    }
  }

  /**
    The `img.onload` callback for one image: it scales the image, starts a
    new page or shrinks the image when needed, draws it and moves the cursor
    down. It does what `Place` and `Next` describe.
   */
  method OnLoad(s: PageSize, page: nat, currentY: real, img: Picture)
    returns (drawn: Placement, newPage: nat, newY: real)
    requires Decoded(img)
    ensures drawn == Place(s, Cursor(page, currentY), img)
    ensures Cursor(newPage, newY) == Next(drawn)
  {
    var ratio := img.pixelWidth as real / img.pixelHeight as real;
    var displayWidth := ContentWidth(s);
    var displayHeight := ContentWidth(s) / ratio;
    newPage, newY := page, currentY;
    if newY + displayHeight > s.height - Margin {
      if newY > Margin {
        newPage := newPage + 1;
        newY := Margin;
      }
      if displayHeight > s.height - Margin * 2.0 {
        displayHeight := s.height - Margin * 2.0;
        displayWidth := displayHeight * ratio;
      }
    }
    drawn := Placement(newPage, Margin, newY, displayWidth, displayHeight);
    newY := newY + displayHeight + Gap;
  }

  /** One more image extends the run by one `Place` step from the cursor the earlier images left. */
  lemma RunStep(s: PageSize, imgs: seq<Picture>, i: nat)
    requires AllDecoded(imgs) && i < |imgs|
    ensures AllDecoded(imgs[..i]) && AllDecoded(imgs[..i + 1])
    ensures var before := Run(s, imgs[..i]);
      var p := Place(s, before.cursor, imgs[i]);
      Run(s, imgs[..i + 1]) == Progress(before.placements + [p], Next(p))
  {
    assert imgs[..i + 1][..i] == imgs[..i];
  }

  /** A placement lies inside the top and bottom margins of its page. */
  predicate Fits(s: PageSize, p: Placement) {
    Margin <= p.y && p.y + p.height <= s.height - Margin
  }

  // ---------------------------------------------------------------------
  // One step
  // ---------------------------------------------------------------------

  /** One image, placed below a cursor that is not above the top margin, fits its page. */
  lemma PlaceFits(s: PageSize, c: Cursor, img: Picture)
    requires ValidPage(s) && Decoded(img) && c.y >= Margin
    ensures Fits(s, Place(s, c, img))
    ensures Place(s, c, img).height > 0.0
  {
    var r := Ratio(img);
    var h := FullWidthHeight(s, img);
    assert h * r == ContentWidth(s);
    assert h > 0.0;
  }

  /** `p` is drawn at the left margin and keeps the aspect ratio of `img`. */
  predicate KeepsAspect(img: Picture, p: Placement) {
    && p.x == Margin
    && p.width * img.pixelHeight as real == p.height * img.pixelWidth as real
  }

  /**
    The size of `p`: its height is the full-width height of `img`, cut down to
    the usable page height when it exceeds it. On a valid page it is never
    wider than the content width, and is exactly that wide when it was not
    cut down.
   */
  predicate Shaped(s: PageSize, img: Picture, p: Placement)
    requires Decoded(img)
  {
    && p.height == (if FullWidthHeight(s, img) > UsableHeight(s) then UsableHeight(s) else FullWidthHeight(s, img))
    && (ValidPage(s) ==> p.width <= ContentWidth(s))
    && (ValidPage(s) ==> (p.width == ContentWidth(s) <==> FullWidthHeight(s, img) <= UsableHeight(s)))
  }

  /** Whatever the page and the cursor, one placement is at the left margin and keeps the aspect ratio. */
  lemma PlaceAspect(s: PageSize, c: Cursor, img: Picture)
    requires Decoded(img)
    ensures KeepsAspect(img, Place(s, c, img))
  {
    var p := Place(s, c, img);
    var r := Ratio(img);
    var h := FullWidthHeight(s, img);
    var pw, ph := img.pixelWidth as real, img.pixelHeight as real;
    assert h * r == ContentWidth(s);
    if p.width == UsableHeight(s) * r && p.height == UsableHeight(s) {
      assert p.width * ph == UsableHeight(s) * (r * ph);
    } else {
      assert p.width == ContentWidth(s) && p.height == h;
      assert p.width * ph == h * r * ph == h * pw;
    }
  }

  /**
    The size of one placement: it is full width unless the full-width image
    is taller than the usable page height, in which case it is exactly that
    height.
   */
  lemma PlaceShape(s: PageSize, c: Cursor, img: Picture)
    requires Decoded(img) && c.y >= Margin
    ensures Shaped(s, img, Place(s, c, img))
  {
    var p := Place(s, c, img);
    var r := Ratio(img);
    var h := FullWidthHeight(s, img);
    var u := UsableHeight(s);
    assert h * r == ContentWidth(s);
    if h > u {
      assert c.y + h > s.height - Margin;
      assert p.width == u * r && p.height == u;
      if ValidPage(s) {
        assert (h - u) * r > 0.0;
        assert h * r - u * r == (h - u) * r;
        assert p.width < ContentWidth(s);
      }
    } else {
      assert p.width == ContentWidth(s) && p.height == h;
    }
  }

  /** How one step moves the page counter and where it puts the image vertically. */
  lemma PlacePage(s: PageSize, c: Cursor, img: Picture)
    requires Decoded(img)
    ensures var p := Place(s, c, img);
      && (p.page == c.page || p.page == c.page + 1)
      && (p.page == c.page + 1 <==> c.y + FullWidthHeight(s, img) > s.height - Margin && c.y > Margin)
      && (p.page == c.page + 1 ==> p.y == Margin)
      && (p.page == c.page ==> p.y == c.y)
  {
  }

  // ---------------------------------------------------------------------
  // The whole run
  // ---------------------------------------------------------------------

  /** Laying out a prefix of the images gives the matching prefix of the plan. */
  lemma {:induction false} RunPrefix(s: PageSize, imgs: seq<Picture>, j: nat)
    requires AllDecoded(imgs) && j <= |imgs|
    ensures AllDecoded(imgs[..j])
    ensures Run(s, imgs[..j]).placements == Run(s, imgs).placements[..j]
    decreases |imgs|
  {
    if j == |imgs| {
      assert imgs[..j] == imgs;
    } else {
      var n := |imgs|;
      var front := imgs[..n - 1];
      assert front[..j] == imgs[..j];
      RunPrefix(s, front, j);
      assert Run(s, imgs).placements[..n - 1] == Run(s, front).placements;
    }
  }

  /** Placement `k` is the step function applied to the cursor left by the first `k` images. */
  lemma PlacementAt(s: PageSize, imgs: seq<Picture>, k: nat)
    requires AllDecoded(imgs) && k < |imgs|
    ensures AllDecoded(imgs[..k])
    ensures Layout(s, imgs)[k] == Place(s, Run(s, imgs[..k]).cursor, imgs[k])
    ensures Run(s, imgs[..k + 1]).cursor == Next(Layout(s, imgs)[k])
  {
    var pre := imgs[..k + 1];
    assert pre[..k] == imgs[..k];
    RunPrefix(s, imgs, k + 1);
  }

  /** On a valid page the cursor never rises above the top margin, and lies below it once an image is drawn. */
  lemma {:induction false} CursorBelowMargin(s: PageSize, imgs: seq<Picture>)
    requires ValidPage(s) && AllDecoded(imgs)
    ensures Run(s, imgs).cursor.y >= Margin
    ensures |imgs| > 0 ==> Run(s, imgs).cursor.y > Margin
    decreases |imgs|
  {
    if |imgs| > 0 {
      var front := imgs[..|imgs| - 1];
      CursorBelowMargin(s, front);
      PlaceFits(s, Run(s, front).cursor, imgs[|imgs| - 1]);
    }
  }

  /** Every placement lies inside the margins of its page. */
  lemma LayoutFits(s: PageSize, imgs: seq<Picture>)
    requires ValidPage(s) && AllDecoded(imgs)
    ensures forall k :: 0 <= k < |imgs| ==> Fits(s, Layout(s, imgs)[k])
  {
    forall k | 0 <= k < |imgs|
      ensures Fits(s, Layout(s, imgs)[k])
    {
      PlacementAt(s, imgs, k);
      CursorBelowMargin(s, imgs[..k]);
      PlaceFits(s, Run(s, imgs[..k]).cursor, imgs[k]);
    }
  }

  /** Every placement is at the left margin and keeps its image's aspect ratio, on any page. */
  lemma LayoutAspect(s: PageSize, imgs: seq<Picture>)
    requires AllDecoded(imgs)
    ensures forall k :: 0 <= k < |imgs| ==> KeepsAspect(imgs[k], Layout(s, imgs)[k])
  {
    forall k | 0 <= k < |imgs|
      ensures KeepsAspect(imgs[k], Layout(s, imgs)[k])
    {
      PlacementAt(s, imgs, k);
      PlaceAspect(s, Run(s, imgs[..k]).cursor, imgs[k]);
    }
  }

  /**
    On a valid page every placement is the content width exactly when the
    full-width image fits the usable height, and otherwise is exactly the
    usable height tall.
   */
  lemma LayoutShape(s: PageSize, imgs: seq<Picture>)
    requires ValidPage(s) && AllDecoded(imgs)
    ensures forall k :: 0 <= k < |imgs| ==> Shaped(s, imgs[k], Layout(s, imgs)[k])
  {
    forall k | 0 <= k < |imgs|
      ensures Shaped(s, imgs[k], Layout(s, imgs)[k])
    {
      PlacementAt(s, imgs, k);
      var c := Run(s, imgs[..k]).cursor;
      CursorBelowMargin(s, imgs[..k]);
      PlaceShape(s, c, imgs[k]);
    }
  }

  /** The first image goes at the top of the first page. */
  lemma LayoutFirst(s: PageSize, imgs: seq<Picture>)
    requires AllDecoded(imgs) && |imgs| > 0
    ensures Layout(s, imgs)[0].page == 0 && Layout(s, imgs)[0].y == Margin
  {
    PlacementAt(s, imgs, 0);
    assert imgs[..0] == [];
    PlacePage(s, Start, imgs[0]);
  }

  /**
    Between consecutive images the page grows by at most one. On the same
    page the next image starts exactly one gap below the previous one; on a
    new page it starts at the top margin. On a valid page a new page is
    started exactly when the next full-width image does not fit below the
    cursor.
   */
  lemma LayoutStep(s: PageSize, imgs: seq<Picture>, k: nat)
    requires AllDecoded(imgs) && k + 1 < |imgs|
    ensures var p, q := Layout(s, imgs)[k], Layout(s, imgs)[k + 1];
      && (q.page == p.page || q.page == p.page + 1)
      && (q.page == p.page ==> q.y == p.y + p.height + Gap)
      && (q.page == p.page + 1 ==> q.y == Margin)
      && (ValidPage(s) ==>
            (q.page == p.page + 1 <==> p.y + p.height + Gap + FullWidthHeight(s, imgs[k + 1]) > s.height - Margin))
  {
    var p := Layout(s, imgs)[k];
    PlacementAt(s, imgs, k);
    PlacementAt(s, imgs, k + 1);
    PlacePage(s, Next(p), imgs[k + 1]);
    if ValidPage(s) {
      CursorBelowMargin(s, imgs[..k + 1]);
    }
  }

  /** Page numbers of a plan start at zero and grow by at most one per placement. */
  predicate PagesContiguous(ps: seq<Placement>) {
    && (|ps| > 0 ==> ps[0].page == 0)
    && forall k :: 0 <= k < |ps| - 1 ==> ps[k].page <= ps[k + 1].page <= ps[k].page + 1
  }

  lemma LayoutPagesContiguous(s: PageSize, imgs: seq<Picture>)
    requires AllDecoded(imgs)
    ensures PagesContiguous(Layout(s, imgs))
  {
    if |imgs| > 0 {
      LayoutFirst(s, imgs);
    }
    forall k | 0 <= k < |imgs| - 1
      ensures Layout(s, imgs)[k].page <= Layout(s, imgs)[k + 1].page <= Layout(s, imgs)[k].page + 1
    {
      LayoutStep(s, imgs, k);
    }
  }

  /** In a contiguous plan page numbers never decrease. */
  lemma {:induction false} PagesMonotone(ps: seq<Placement>, i: nat, j: nat)
    requires PagesContiguous(ps) && i <= j < |ps|
    ensures ps[i].page <= ps[j].page
    decreases j - i
  {
    if i < j {
      PagesMonotone(ps, i + 1, j);
    }
  }

  /** In a contiguous plan every page up to the last one holds at least one image. */
  lemma {:induction false} NoEmptyPage(ps: seq<Placement>, page: nat)
    requires PagesContiguous(ps) && |ps| > 0 && page <= ps[|ps| - 1].page
    ensures HasPage(ps, page)
    decreases |ps|
  {
    var n := |ps|;
    if ps[n - 1].page != page {
      var front := ps[..n - 1];
      assert front[n - 2] == ps[n - 2];
      NoEmptyPage(front, page);
      var k :| 0 <= k < |front| && front[k].page == page;
      assert ps[k].page == page;
    }
  }

  /** Some placement of `ps` is on page `page`. */
  ghost predicate HasPage(ps: seq<Placement>, page: nat) {
    exists k :: 0 <= k < |ps| && ps[k].page == page
  }

  /** The laid-out document has no empty page and its page numbers never decrease. */
  lemma LayoutPages(s: PageSize, imgs: seq<Picture>)
    requires AllDecoded(imgs)
    ensures var ps := Layout(s, imgs);
      && (forall i, j :: 0 <= i <= j < |ps| ==> ps[i].page <= ps[j].page)
      && (|ps| > 0 ==> forall page: nat :: page <= ps[|ps| - 1].page ==> HasPage(ps, page))
  {
    var ps := Layout(s, imgs);
    LayoutPagesContiguous(s, imgs);
    forall i, j | 0 <= i <= j < |ps|
      ensures ps[i].page <= ps[j].page
    {
      PagesMonotone(ps, i, j);
    }
    if |ps| > 0 {
      forall page: nat | page <= ps[|ps| - 1].page
        ensures HasPage(ps, page)
      {
        NoEmptyPage(ps, page);
      }
    }
  }

  /** After the last image the cursor is one gap below it, on its page. */
  lemma FinalCursor(s: PageSize, imgs: seq<Picture>)
    requires AllDecoded(imgs) && |imgs| > 0
    ensures var last := Layout(s, imgs)[|imgs| - 1];
      Run(s, imgs).cursor == Cursor(last.page, last.y + last.height + Gap)
  {
    PlacementAt(s, imgs, |imgs| - 1);
    assert imgs[..|imgs|] == imgs;
  }

  // ---------------------------------------------------------------------
  // Worked examples on a 210 x 297 page
  // ---------------------------------------------------------------------

  /** Nothing to lay out, nothing placed. */
  lemma EmptyLayout(s: PageSize)
    ensures Layout(s, []) == []
  {
  }

  /** Two square images do not share a page: the second one starts page 1. */
  lemma TwoSquares()
    ensures Layout(PageSize(210.0, 297.0), [Picture(100, 100), Picture(100, 100)])
         == [Placement(0, 10.0, 10.0, 190.0, 190.0), Placement(1, 10.0, 10.0, 190.0, 190.0)]
  {
    var s := PageSize(210.0, 297.0);
    var imgs := [Picture(100, 100), Picture(100, 100)];
    assert imgs[..1] == [Picture(100, 100)];
    assert imgs[..1][..0] == [];
    assert Ratio(Picture(100, 100)) == 1.0;
    assert Run(s, imgs[..1]).placements == [Placement(0, 10.0, 10.0, 190.0, 190.0)];
  }

  /** An image ten times taller than wide is shrunk to the usable height. */
  lemma OneTallImage()
    ensures Layout(PageSize(210.0, 297.0), [Picture(10, 100)])
         == [Placement(0, 10.0, 10.0, 27.7, 277.0)]
  {
    var imgs := [Picture(10, 100)];
    assert imgs[..0] == [];
    assert Ratio(Picture(10, 100)) == 0.1;
  }
}
