/**
 * Pixel grids and the two trimming scans of the font packer, `y_cut` and
 * `x_cut` (fontAtlasMoko.py).  A pygame surface is a rectangular grid of
 * RGBA pixels; copying pixels from one surface into another (`blit`,
 * `subsurface().copy()`) is modelled as a plain pixel copy.
 */
module Surfaces {
  import opened Results

  type Channel = x: int | 0 <= x < 256

  datatype Pixel = Pixel(r: Channel, g: Channel, b: Channel, a: Channel)

  /** The colour part of a `background_color`; only its first three channels are compared. */
  datatype Rgb = Rgb(r: Channel, g: Channel, b: Channel)

  /** The fill of a fresh `SRCALPHA` surface. */
  const Transparent := Pixel(0, 0, 0, 0)

  datatype Grid = Grid(width: nat, height: nat, rows: seq<seq<Pixel>>)

  predicate Rectangular(g: Grid) {
    |g.rows| == g.height && forall y | 0 <= y < |g.rows| :: |g.rows[y]| == g.width
  }

  /** A surface: `height` rows of `width` pixels each (`get_size()` is `(width, height)`). */
  type Surface = g: Grid | Rectangular(g) witness Grid(0, 0, [])

  function Min(a: int, b: int): int { if a <= b then a else b }
  function Max(a: int, b: int): int { if a <= b then b else a }

  /** `pg.Surface((w, h), pg.SRCALPHA)`: a fully transparent surface. */
  function Blank(w: nat, h: nat): (r: Surface)
    ensures r.width == w && r.height == h
    ensures forall y, x :: 0 <= y < h && 0 <= x < w ==> r.rows[y][x] == Transparent
  {
    Grid(w, h, seq(h, _ => seq(w, _ => Transparent)))
  }

  /** pygame's `subsurface(rect)` raises unless the rectangle has a non-negative size and lies inside the surface. */
  predicate SubsurfaceFits(s: Surface, x: int, y: int, w: int, h: int) {
    0 <= x && 0 <= y && 0 <= w && 0 <= h && x + w <= s.width && y + h <= s.height
  }

  /** `s.subsurface((x, y, w, h)).copy()`: the pixels of that rectangle. */
  function Subsurface(s: Surface, x: int, y: int, w: int, h: int): (r: Surface)
    requires SubsurfaceFits(s, x, y, w, h)
    ensures r.width == w && r.height == h
    ensures forall i, j :: 0 <= i < h && 0 <= j < w ==> r.rows[i][j] == s.rows[y + i][x + j]
  {
    Grid(w, h, seq(h, i requires 0 <= i < h => s.rows[y + i][x .. x + w]))
  }

  /**
   * A fresh transparent w-by-h surface onto which the area (x, y, w, h) of `s`
   * is blitted; the part of the area that lies outside `s` stays transparent.
   */
  function CopyArea(s: Surface, x: int, y: int, w: nat, h: nat): (r: Surface)
    ensures r.width == w && r.height == h
  {
    Grid(w, h, seq(h, i => seq(w, j =>
      if 0 <= y + i < s.height && 0 <= x + j < s.width then s.rows[y + i][x + j] else Transparent)))
  }

  /** `dst.blit(src, (x0, 0))`: the pixels of `src` overwrite `dst` from column `x0` on, clipped to `dst`. */
  function Blit(dst: Surface, src: Surface, x0: nat): (r: Surface)
    ensures r.width == dst.width && r.height == dst.height
  {
    Grid(dst.width, dst.height, seq(dst.height, y requires 0 <= y < dst.height =>
      seq(dst.width, x requires 0 <= x < dst.width =>
        if x0 <= x < x0 + src.width && y < src.height then src.rows[y][x - x0] else dst.rows[y][x])))
  }

  lemma CopyAreaInside(s: Surface, x: int, y: int, w: nat, h: nat)
    requires SubsurfaceFits(s, x, y, w, h)
    ensures CopyArea(s, x, y, w, h) == Subsurface(s, x, y, w, h)
  {
    var a, b := CopyArea(s, x, y, w, h), Subsurface(s, x, y, w, h);
    forall i | 0 <= i < h ensures a.rows[i] == b.rows[i] {
      assert forall j | 0 <= j < w :: a.rows[i][j] == b.rows[i][j];
    }
  }

  lemma CopyAreaOutside(s: Surface, x: int, y: int, w: nat, h: nat)
    requires s.width == 0 || s.height == 0
    ensures CopyArea(s, x, y, w, h) == Blank(w, h)
  {
    var a, b := CopyArea(s, x, y, w, h), Blank(w, h);
    forall i | 0 <= i < h ensures a.rows[i] == b.rows[i] {
      assert forall j | 0 <= j < w :: a.rows[i][j] == b.rows[i][j];
    }
  }

  // ---------------------------------------------------------------------------
  // Content ("ink")

  /**
   * A content pixel: with a background colour, one whose RGB differs from it;
   * without one, one that is not fully transparent.
   */
  predicate IsContent(p: Pixel, background: Option<Rgb>): (r: bool)
    ensures background.None? ==> (r <==> p.a != 0)
    ensures background.Some? ==>
      (r <==> p.r != background.value.r || p.g != background.value.g || p.b != background.value.b)
  {
    match background
    case None => p.a > 0
    case Some(bg) => Rgb(p.r, p.g, p.b) != bg
  }

  ghost predicate Ink(s: Surface, bg: Option<Rgb>, y: int, x: int) {
    0 <= y < s.height && 0 <= x < s.width && IsContent(s.rows[y][x], bg)
  }

  /** Some content pixel lies in rows [ylo, yhi) and columns [xlo, xhi). */
  ghost predicate InkIn(s: Surface, bg: Option<Rgb>, ylo: int, yhi: int, xlo: int, xhi: int) {
    exists y, x :: ylo <= y < yhi && xlo <= x < xhi && Ink(s, bg, y, x)
  }

  ghost predicate HasInk(s: Surface, bg: Option<Rgb>) {
    InkIn(s, bg, 0, s.height, 0, s.width)
  }

  ghost predicate RowHasInk(s: Surface, bg: Option<Rgb>, y: int) {
    InkIn(s, bg, y, y + 1, 0, s.width)
  }

  /** Column x holds content in rows [lo, hi). */
  ghost predicate ColInk(s: Surface, bg: Option<Rgb>, x: int, lo: int, hi: int) {
    InkIn(s, bg, lo, hi, x, x + 1)
  }

  ghost predicate ColHasInk(s: Surface, bg: Option<Rgb>, x: int) {
    ColInk(s, bg, x, 0, s.height)
  }

  /** The least row at or after `from` holding content, or `s.height` if there is none (see FirstInkRowIsLeast). */
  ghost function FirstInkRow(s: Surface, bg: Option<Rgb>, from: nat): (r: nat)
    requires from <= s.height
    ensures from <= r <= s.height
    decreases s.height - from
  {
    if from == s.height then from
    else if RowHasInk(s, bg, from) then from
    else FirstInkRow(s, bg, from + 1)
  }

  /** The greatest row below `n` holding content, or -1 if there is none (see LastInkRowIsGreatest). */
  ghost function LastInkRow(s: Surface, bg: Option<Rgb>, n: nat): (r: int)
    requires n <= s.height
    ensures -1 <= r < n
    decreases n
  {
    if n == 0 then -1
    else if RowHasInk(s, bg, n - 1) then n - 1
    else LastInkRow(s, bg, n - 1)
  }

  /** The least column at or after `from` holding content in rows [lo, hi), or `s.width` if there is none. */
  ghost function FirstInkCol(s: Surface, bg: Option<Rgb>, lo: int, hi: int, from: nat): (r: nat)
    requires from <= s.width
    ensures from <= r <= s.width
    decreases s.width - from
  {
    if from == s.width then from
    else if ColInk(s, bg, from, lo, hi) then from
    else FirstInkCol(s, bg, lo, hi, from + 1)
  }

  /** The greatest column below `n` holding content in rows [lo, hi), or -1 if there is none. */
  ghost function LastInkCol(s: Surface, bg: Option<Rgb>, lo: int, hi: int, n: nat): (r: int)
    requires n <= s.width
    ensures -1 <= r < n
    decreases n
  {
    if n == 0 then -1
    else if ColInk(s, bg, n - 1, lo, hi) then n - 1
    else LastInkCol(s, bg, lo, hi, n - 1)
  }

  lemma {:induction false} FirstInkRowIsLeast(s: Surface, bg: Option<Rgb>, from: nat)
    requires from <= s.height
    ensures var r := FirstInkRow(s, bg, from);
      && (r < s.height ==> RowHasInk(s, bg, r))
      && forall y :: from <= y < r ==> !RowHasInk(s, bg, y)
    decreases s.height - from
  {
    if from < s.height && !RowHasInk(s, bg, from) {
      FirstInkRowIsLeast(s, bg, from + 1);
    }
  }

  lemma {:induction false} LastInkRowIsGreatest(s: Surface, bg: Option<Rgb>, n: nat)
    requires n <= s.height
    ensures var r := LastInkRow(s, bg, n);
      && (0 <= r ==> RowHasInk(s, bg, r))
      && forall y :: r < y < n ==> !RowHasInk(s, bg, y)
  {
    if 0 < n && !RowHasInk(s, bg, n - 1) {
      LastInkRowIsGreatest(s, bg, n - 1);
    }
  }

  lemma {:induction false} FirstInkColIsLeast(s: Surface, bg: Option<Rgb>, lo: int, hi: int, from: nat)
    requires from <= s.width
    ensures var r := FirstInkCol(s, bg, lo, hi, from);
      && (r < s.width ==> ColInk(s, bg, r, lo, hi))
      && forall x :: from <= x < r ==> !ColInk(s, bg, x, lo, hi)
    decreases s.width - from
  {
    if from < s.width && !ColInk(s, bg, from, lo, hi) {
      FirstInkColIsLeast(s, bg, lo, hi, from + 1);
    }
  }

  lemma {:induction false} LastInkColIsGreatest(s: Surface, bg: Option<Rgb>, lo: int, hi: int, n: nat)
    requires n <= s.width
    ensures var r := LastInkCol(s, bg, lo, hi, n);
      && (0 <= r ==> ColInk(s, bg, r, lo, hi))
      && forall x :: r < x < n ==> !ColInk(s, bg, x, lo, hi)
  {
    if 0 < n && !ColInk(s, bg, n - 1, lo, hi) {
      LastInkColIsGreatest(s, bg, lo, hi, n - 1);
    }
  }

  lemma ColInkSplit(s: Surface, bg: Option<Rgb>, lo: int, mid: int, hi: int)
    requires lo <= mid <= hi
    ensures forall x :: ColInk(s, bg, x, lo, hi) <==> ColInk(s, bg, x, lo, mid) || ColInk(s, bg, x, mid, hi)
  {
  }

  /** Splitting the rows of the band: the first content column of the whole band is the smaller of the two. */
  lemma FirstInkColSplit(s: Surface, bg: Option<Rgb>, lo: int, mid: int, hi: int)
    requires lo <= mid <= hi
    ensures FirstInkCol(s, bg, lo, hi, 0) == Min(FirstInkCol(s, bg, lo, mid, 0), FirstInkCol(s, bg, mid, hi, 0))
  {
    ColInkSplit(s, bg, lo, mid, hi);
    FirstInkColIsLeast(s, bg, lo, mid, 0);
    FirstInkColIsLeast(s, bg, mid, hi, 0);
    FirstInkColIsLeast(s, bg, lo, hi, 0);
    var a, b, c := FirstInkCol(s, bg, lo, mid, 0), FirstInkCol(s, bg, mid, hi, 0), FirstInkCol(s, bg, lo, hi, 0);
    if Min(a, b) < s.width {
      assert ColInk(s, bg, Min(a, b), lo, hi);
    }
    if c < s.width {
      assert ColInk(s, bg, c, lo, mid) || ColInk(s, bg, c, mid, hi);
    }
  }

  /** Splitting the rows of the band: the last content column of the whole band is the larger of the two. */
  lemma LastInkColSplit(s: Surface, bg: Option<Rgb>, lo: int, mid: int, hi: int)
    requires lo <= mid <= hi
    ensures LastInkCol(s, bg, lo, hi, s.width) == Max(LastInkCol(s, bg, lo, mid, s.width), LastInkCol(s, bg, mid, hi, s.width))
  {
    ColInkSplit(s, bg, lo, mid, hi);
    LastInkColIsGreatest(s, bg, lo, mid, s.width);
    LastInkColIsGreatest(s, bg, mid, hi, s.width);
    LastInkColIsGreatest(s, bg, lo, hi, s.width);
    var a, b, c := LastInkCol(s, bg, lo, mid, s.width), LastInkCol(s, bg, mid, hi, s.width), LastInkCol(s, bg, lo, hi, s.width);
    if 0 <= Max(a, b) {
      assert ColInk(s, bg, Max(a, b), lo, hi);
    }
    if 0 <= c {
      assert ColInk(s, bg, c, lo, mid) || ColInk(s, bg, c, mid, hi);
    }
  }

  lemma HasInkByRows(s: Surface, bg: Option<Rgb>)
    ensures HasInk(s, bg) <==> FirstInkRow(s, bg, 0) < s.height
  {
    FirstInkRowIsLeast(s, bg, 0);
    if HasInk(s, bg) {
      var y, x :| 0 <= y < s.height && 0 <= x < s.width && Ink(s, bg, y, x);
      assert RowHasInk(s, bg, y);
    }
  }

  lemma HasInkByCols(s: Surface, bg: Option<Rgb>)
    ensures HasInk(s, bg) <==> FirstInkCol(s, bg, 0, s.height, 0) < s.width
  {
    FirstInkColIsLeast(s, bg, 0, s.height, 0);
    if HasInk(s, bg) {
      var y, x :| 0 <= y < s.height && 0 <= x < s.width && Ink(s, bg, y, x);
      assert ColInk(s, bg, x, 0, s.height);
    }
  }

  /** Scanning one more pixel of row y. */
  lemma RowPrefixStep(s: Surface, bg: Option<Rgb>, y: int, x: int)
    requires 0 <= y < s.height && 0 <= x < s.width
    ensures InkIn(s, bg, y, y + 1, 0, x + 1) <==> InkIn(s, bg, y, y + 1, 0, x) || IsContent(s.rows[y][x], bg)
  {
    if IsContent(s.rows[y][x], bg) {
      assert Ink(s, bg, y, x);
    }
  }

  /** Scanning one more row: the running top and bottom of `y_cut`. */
  lemma RowScanStep(s: Surface, bg: Option<Rgb>, y: nat)
    requires y < s.height
    ensures var f := FirstInkRow(s, bg, 0);
      (if f < y + 1 then f else s.height)
        == if RowHasInk(s, bg, y) then Min(if f < y then f else s.height, y) else if f < y then f else s.height
    ensures Max(LastInkRow(s, bg, y + 1), 0)
        == if RowHasInk(s, bg, y) then Max(Max(LastInkRow(s, bg, y), 0), y) else Max(LastInkRow(s, bg, y), 0)
  {
    FirstInkRowIsLeast(s, bg, 0);
  }

  /** Scanning pixel (y, x) inside the band made of row y alone. */
  lemma ColScanStep(s: Surface, bg: Option<Rgb>, y: int, x: nat)
    requires 0 <= y < s.height && x < s.width
    ensures ColInk(s, bg, x, y, y + 1) <==> IsContent(s.rows[y][x], bg)
    ensures LastInkCol(s, bg, y, y + 1, x + 1)
        == if IsContent(s.rows[y][x], bg) then x else LastInkCol(s, bg, y, y + 1, x)
  {
    if IsContent(s.rows[y][x], bg) {
      assert Ink(s, bg, y, x);
    }
  }

  // ---------------------------------------------------------------------------
  // y_cut

  datatype YCropped = YCropped(surface: Surface, top: nat, bottom: nat)

  /**
   * What `y_cut` returns: the rows from the first to the last content row
   * with their `top` and `bottom` indices; a 0x0 surface with top = bottom = 0
   * when nothing is content.  A surface of height 0 is the exception: the scan
   * leaves top = bottom = 0, which passes the emptiness test, so a transparent
   * width-by-1 surface comes back.
   */
  ghost function YCrop(s: Surface, bg: Option<Rgb>): YCropped {
    HasInkByRows(s, bg);
    FirstInkRowIsLeast(s, bg, 0);
    LastInkRowIsGreatest(s, bg, s.height);
    var t := FirstInkRow(s, bg, 0);
    if t == s.height then
      YCropped(if s.height == 0 then Blank(s.width, 1) else Blank(0, 0), 0, 0)
    else
      var b := LastInkRow(s, bg, s.height);
      YCropped(Subsurface(s, 0, t, s.width, b - t + 1), t, b)
  }

  /** The rows `y_cut` keeps: from the first to the last content row, no more and no fewer. */
  lemma YCropSpec(s: Surface, bg: Option<Rgb>)
    ensures var r := YCrop(s, bg);
      HasInk(s, bg) ==>
        && r.top <= r.bottom < s.height
        && RowHasInk(s, bg, r.top) && RowHasInk(s, bg, r.bottom)
        && (forall y :: RowHasInk(s, bg, y) ==> r.top <= y <= r.bottom)
        && r.surface.height == r.bottom - r.top + 1
        && r.surface == Subsurface(s, 0, r.top, s.width, r.bottom - r.top + 1)
    ensures var r := YCrop(s, bg);
      !HasInk(s, bg) ==>
        r.top == 0 && r.bottom == 0 && r.surface == if s.height == 0 then Blank(s.width, 1) else Blank(0, 0)
  {
    HasInkByRows(s, bg);
    FirstInkRowIsLeast(s, bg, 0);
    LastInkRowIsGreatest(s, bg, s.height);
  }

  /** `y_cut(surface, background_color)` (fontAtlasMoko.py:15-34), the nested scan as written. */
  method YCut(s: Surface, background: Option<Rgb>) returns (cropped: Surface, top: nat, bottom: nat)
    ensures YCropped(cropped, top, bottom) == YCrop(s, background)
  {
    var t: int := s.height;
    var b: int := 0;
    var y := 0;
    while y < s.height
      invariant y <= s.height
      invariant t == if FirstInkRow(s, background, 0) < y then FirstInkRow(s, background, 0) else s.height
      invariant b == Max(LastInkRow(s, background, y), 0)
    {
      ghost var t0, b0 := t, b;
      var x := 0;
      while x < s.width
        invariant x <= s.width
        invariant t == if InkIn(s, background, y, y + 1, 0, x) then Min(t0, y) else t0
        invariant b == if InkIn(s, background, y, y + 1, 0, x) then Max(b0, y) else b0
      {
        RowPrefixStep(s, background, y, x);
        if IsContent(s.rows[y][x], background) {
          t := Min(t, y);
          b := Max(b, y);
        }
        x := x + 1;
      }
      RowScanStep(s, background, y);
      y := y + 1;
    }
    YScanResult(s, background, t, b);
    if b < t {
      return Blank(0, 0), 0, 0;
    }
    cropped := CopyArea(s, 0, t, s.width, b - t + 1);
    top, bottom := t, b;
  }

  /** The result that the final test and blit of `y_cut` make from the scanned extremes. */
  lemma YScanResult(s: Surface, bg: Option<Rgb>, top: int, bottom: int)
    requires top == FirstInkRow(s, bg, 0)
    requires bottom == Max(LastInkRow(s, bg, s.height), 0)
    ensures bottom < top ==> YCrop(s, bg) == YCropped(Blank(0, 0), 0, 0)
    ensures top <= bottom ==> YCrop(s, bg) == YCropped(CopyArea(s, 0, top, s.width, bottom - top + 1), top, bottom)
  {
    if s.height == 0 {
      assert top == 0 && bottom == 0;
      CopyAreaOutside(s, 0, 0, s.width, 1);
    } else {
      FirstInkRowIsLeast(s, bg, 0);
      LastInkRowIsGreatest(s, bg, s.height);
      if top < s.height {
        assert top <= bottom;
        CopyAreaInside(s, 0, top, s.width, bottom - top + 1);
      } else {
        assert bottom < top;
      }
    }
  }

  // ---------------------------------------------------------------------------
  // x_cut

  /**
   * What `x_cut` returns: the columns from the first to the last content
   * column, at full height; a 0x0 surface when nothing is content.  A surface
   * of width 0 is the exception: the scan leaves left = right = 0 and a
   * transparent 1-by-height surface comes back.
   */
  ghost function XCrop(s: Surface, bg: Option<Rgb>): Surface {
    HasInkByCols(s, bg);
    FirstInkColIsLeast(s, bg, 0, s.height, 0);
    LastInkColIsGreatest(s, bg, 0, s.height, s.width);
    var left := FirstInkCol(s, bg, 0, s.height, 0);
    if left == s.width then
      if s.width == 0 then Blank(1, s.height) else Blank(0, 0)
    else
      var right := LastInkCol(s, bg, 0, s.height, s.width);
      Subsurface(s, left, 0, right - left + 1, s.height)
  }

  /** The columns `x_cut` keeps: from the first to the last content column, no more and no fewer, at full height. */
  lemma XCropSpec(s: Surface, bg: Option<Rgb>)
    ensures var r := XCrop(s, bg);
      var left := FirstInkCol(s, bg, 0, s.height, 0);
      HasInk(s, bg) ==>
        && r.height == s.height && 1 <= r.width && left + r.width <= s.width
        && ColHasInk(s, bg, left) && ColHasInk(s, bg, left + r.width - 1)
        && (forall x :: ColHasInk(s, bg, x) ==> left <= x < left + r.width)
        && r == Subsurface(s, left, 0, r.width, s.height)
    ensures !HasInk(s, bg) ==> XCrop(s, bg) == if s.width == 0 then Blank(1, s.height) else Blank(0, 0)
  {
    HasInkByCols(s, bg);
    FirstInkColIsLeast(s, bg, 0, s.height, 0);
    LastInkColIsGreatest(s, bg, 0, s.height, s.width);
  }

  /** Trimming columns keeps every row's content: a row with content still has some after `x_cut`. */
  lemma XCropKeepsRows(s: Surface, bg: Option<Rgb>, y: int)
    requires RowHasInk(s, bg, y)
    ensures RowHasInk(XCrop(s, bg), bg, y)
  {
    var x :| 0 <= x < s.width && Ink(s, bg, y, x);
    assert HasInk(s, bg);
    XCropSpec(s, bg);
    assert ColHasInk(s, bg, x);
    var left := FirstInkCol(s, bg, 0, s.height, 0);
    var xc := XCrop(s, bg);
    assert xc.rows[y][x - left] == s.rows[y][x];
    assert Ink(xc, bg, y, x - left);
  }

  /** `x_cut(surface, background_color)` (fontAtlasMoko.py:36-55), the nested scan as written. */
  method XCut(s: Surface, background: Option<Rgb>) returns (cropped: Surface)
    ensures cropped == XCrop(s, background)
  {
    var left: int := s.width;
    var right: int := 0;
    var y := 0;
    XScanStart(s, background);
    while y < s.height
      invariant y <= s.height
      invariant left == FirstInkCol(s, background, 0, y, 0)
      invariant right == Max(LastInkCol(s, background, 0, y, s.width), 0)
    {
      ghost var l0, r0 := left, right;
      ghost var first := FirstInkCol(s, background, y, y + 1, 0);
      var x := 0;
      while x < s.width
        invariant x <= s.width
        invariant left == if first < x then Min(l0, first) else l0
        invariant right == Max(r0, LastInkCol(s, background, y, y + 1, x))
      {
        XScanPixel(s, background, y, x, l0, r0, left, right);
        if IsContent(s.rows[y][x], background) {
          left := Min(left, x);
          right := Max(right, x);
        }
        x := x + 1;
      }
      XScanRow(s, background, y, left, right);
      y := y + 1;
    }
    XScanResult(s, background, left, right);
    if right < left {
      return Blank(0, 0);
    }
    cropped := CopyArea(s, left, 0, right - left + 1, s.height);
  }

  /** Before the scan of `x_cut` no row has been seen: left = width and right = 0. */
  lemma XScanStart(s: Surface, bg: Option<Rgb>)
    ensures FirstInkCol(s, bg, 0, 0, 0) == s.width
    ensures Max(LastInkCol(s, bg, 0, 0, s.width), 0) == 0
  {
    FirstInkColIsLeast(s, bg, 0, 0, 0);
    LastInkColIsGreatest(s, bg, 0, 0, s.width);
  }

  /** One pixel of the inner scan of `x_cut` keeps the running left/right of row y in step. */
  lemma XScanPixel(s: Surface, bg: Option<Rgb>, y: int, x: nat, l0: int, r0: int, left: int, right: int)
    requires 0 <= y < s.height && x < s.width
    requires var first := FirstInkCol(s, bg, y, y + 1, 0);
      left == if first < x then Min(l0, first) else l0
    requires right == Max(r0, LastInkCol(s, bg, y, y + 1, x))
    ensures var first := FirstInkCol(s, bg, y, y + 1, 0);
      (if IsContent(s.rows[y][x], bg) then Min(left, x) else left) == if first < x + 1 then Min(l0, first) else l0
    ensures (if IsContent(s.rows[y][x], bg) then Max(right, x) else right)
      == Max(r0, LastInkCol(s, bg, y, y + 1, x + 1))
  {
    ColScanStep(s, bg, y, x);
    FirstInkColIsLeast(s, bg, y, y + 1, 0);
  }

  /** A finished row of `x_cut`: the running left/right now cover rows [0, y + 1). */
  lemma XScanRow(s: Surface, bg: Option<Rgb>, y: nat, left: int, right: int)
    requires y < s.height
    requires var l0 := FirstInkCol(s, bg, 0, y, 0);
      var first := FirstInkCol(s, bg, y, y + 1, 0);
      left == if first < s.width then Min(l0, first) else l0
    requires right == Max(Max(LastInkCol(s, bg, 0, y, s.width), 0), LastInkCol(s, bg, y, y + 1, s.width))
    ensures left == FirstInkCol(s, bg, 0, y + 1, 0)
    ensures right == Max(LastInkCol(s, bg, 0, y + 1, s.width), 0)
  {
    FirstInkColSplit(s, bg, 0, y, y + 1);
    LastInkColSplit(s, bg, 0, y, y + 1);
  }

  /** The crop that the final test and blit of `x_cut` make from the scanned extremes. */
  lemma XScanResult(s: Surface, bg: Option<Rgb>, left: int, right: int)
    requires left == FirstInkCol(s, bg, 0, s.height, 0)
    requires right == Max(LastInkCol(s, bg, 0, s.height, s.width), 0)
    ensures right < left ==> XCrop(s, bg) == Blank(0, 0)
    ensures left <= right ==> XCrop(s, bg) == CopyArea(s, left, 0, right - left + 1, s.height)
  {
    if s.width == 0 {
      assert left == 0 && right == 0;
      CopyAreaOutside(s, left, 0, 1, s.height);
    } else {
      FirstInkColIsLeast(s, bg, 0, s.height, 0);
      LastInkColIsGreatest(s, bg, 0, s.height, s.width);
      if left < s.width {
        assert left <= right;
        CopyAreaInside(s, left, 0, right - left + 1, s.height);
      } else {
        assert right < left;
      }
    }
  }
}
