/** Geometry of the multi-window preview surface (lib/preview.js): the strip
    of thumbnails, where it is placed above the dock item, and which
    thumbnail a horizontal pointer position falls on. View coordinates are
    relative to the surface's top-left corner. */
module Layout {
  import opened Common
  import opened Dock

  const MarginFromDock := 50
  const WindowMargin := 5
  const PreviewGap := 20
  const PreviewWidth := 200
  const ContentHeight := 200

  /** Horizontal space one thumbnail occupies: the thumbnail plus a gap on
      each side (240). */
  const CellWidth := PreviewWidth + PreviewGap * 2

  /** `parseInt(x / (PREVIEW_WIDTH + PREVIEW_GAP * 2))` for a position inside
      the view, which is never negative: truncation is the floor here. */
  function MouseToPreviewIndex(x: nat): (i: nat)
    ensures i * CellWidth <= x < (i + 1) * CellWidth
  {
    x / CellWidth
  }

  /** A position names one of the `n` thumbnails exactly when it lies left
      of the strip's content width. */
  lemma IndexInRange(x: nat, n: nat)
    ensures MouseToPreviewIndex(x) < n <==> x < n * CellWidth
  {
    var i := MouseToPreviewIndex(x);
    if i < n {
      assert (i + 1) * CellWidth <= n * CellWidth;
    } else {
      assert n * CellWidth <= i * CellWidth;
    }
  }

  /** Cells do not overlap: a position lies in exactly one of them. */
  lemma SameCell(x: nat, i: nat)
    requires i * CellWidth <= x < (i + 1) * CellWidth
    ensures MouseToPreviewIndex(x) == i
  {
    var k := MouseToPreviewIndex(x);
    assert (k - i) * CellWidth == k * CellWidth - i * CellWidth;
  }

  /** The hit test ignores the 5-pixel left margin, so every position from
      `240·n` to the surface's right edge — the strip's last 5 pixels and
      the 5-pixel right margin — names the thumbnail one past the last. */
  lemma RightMarginIsOnePastTheEnd(x: nat, n: nat)
    requires n * CellWidth <= x < n * CellWidth + 2 * WindowMargin
    ensures MouseToPreviewIndex(x) == n
  {
    SameCell(x, n);
  }

  /** The highlight is drawn 5 pixels right of the cell a position selects
      (the hit test ignores the margin, the painter does not), so across the
      strip's height it covers the pointer exactly when the pointer is at
      least 5 pixels into its cell. */
  lemma HighlightUnderPointer(x: nat, y: int)
    requires WindowMargin <= y < WindowMargin + ContentHeight
    ensures Holds(HoverRect(MouseToPreviewIndex(x)), x, y) <==> x % CellWidth >= WindowMargin
  {
  }

  /** Width of the strip of `n` thumbnails (`content_width`). */
  function ContentWidth(n: nat): nat
  {
    n * CellWidth
  }

  /** `win_x`, `win_y`, `win_width`, `win_height` of `showPreview`. */
  function SurfaceBounds(n: nat, dock: DockItem): (b: Bounds)
    ensures b.width == ContentWidth(n) + 2 * WindowMargin
    ensures b.height == ContentHeight + 2 * WindowMargin
    ensures b.twiceX + b.width == 2 * dock.x + dock.width
    ensures b.y + b.height + MarginFromDock == dock.y
  {
    var contentWidth := ContentWidth(n);
    var twiceX := 2 * dock.x - (contentWidth + WindowMargin * 2) + dock.width;
    var y := dock.y - MarginFromDock - ContentHeight - WindowMargin * 2;
    Bounds(twiceX, y, contentWidth + WindowMargin * 2, ContentHeight + WindowMargin * 2)
  }

  /** The surface, in its own view coordinates. */
  function SurfaceView(n: nat): Rect
  {
    Rect(0, 0, ContentWidth(n) + 2 * WindowMargin, ContentHeight + 2 * WindowMargin)
  }

  /** The strip's background (`content_width` by `CONTENT_HEIGHT`). */
  function ContentRect(n: nat): Rect
  {
    Rect(WindowMargin, WindowMargin, ContentWidth(n), ContentHeight)
  }

  /** The highlighted cell behind thumbnail `i`. */
  function HoverRect(i: nat): Rect
  {
    Rect(WindowMargin + CellWidth * i, WindowMargin, CellWidth, ContentHeight)
  }

  /** The stroked border, pulled in by its 2-pixel line width. */
  function BorderRect(n: nat): Rect
  {
    Rect(WindowMargin, WindowMargin, ContentWidth(n) - 2, ContentHeight - 2)
  }

  /** Where thumbnail `i` is drawn: 200 by 160, gapped by 20 on every side. */
  function ThumbRect(i: nat): Rect
  {
    Rect(WindowMargin + PreviewGap + i * PreviewWidth + i * PreviewGap * 2, WindowMargin + PreviewGap,
         PreviewWidth, ContentHeight - PreviewGap * 2)
  }

  /** The highlighted cell, the thumbnails and the border all lie on the
      strip's background, which lies on the surface. */
  lemma ContentOnSurface(n: nat)
    requires n > 0
    ensures Within(ContentRect(n), SurfaceView(n))
    ensures Within(BorderRect(n), ContentRect(n))
  {
  }

  /** Thumbnail `i` of `n` lies on the strip's background, inside its own
      highlight cell. */
  lemma ThumbInCell(i: nat, n: nat)
    requires i < n
    ensures Within(ThumbRect(i), HoverRect(i))
    ensures Within(HoverRect(i), ContentRect(n))
    ensures Within(ThumbRect(i), ContentRect(n))
  {
    assert CellWidth * i + CellWidth <= CellWidth * n;
  }

  /** Thumbnails run left to right, with two gaps between neighbours, and
      never overlap. */
  lemma ThumbsLeftToRight(i: nat, j: nat)
    requires i < j
    ensures ThumbRect(i).Right() + 2 * PreviewGap <= ThumbRect(j).x
    ensures Disjoint(ThumbRect(i), ThumbRect(j))
  {
    assert ThumbRect(j).x - ThumbRect(i).x == (j - i) * CellWidth;
  }

  /** A pointer over thumbnail `i` selects thumbnail `i`, so a click raises
      the window drawn under it. */
  lemma ThumbSelectsItsIndex(i: nat, x: nat, y: int)
    requires Holds(ThumbRect(i), x, y)
    ensures MouseToPreviewIndex(x) == i
  {
    SameCell(x, i);
  }
}
