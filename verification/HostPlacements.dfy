/** Image placements as panes request them, and how they are cropped to the pane. */
module HostPlacements {
  import opened Options
  import opened Bytes
  import opened Screen

  type u16 = x: int | 0 <= x < 0x1_0000
  type u32 = x: int | 0 <= x < 0x1_0000_0000
  type i32 = x: int | -0x8000_0000 <= x < 0x8000_0000

  const U32_MAX: u32 := 0xFFFF_FFFF
  const I32_MIN: i32 := -0x8000_0000
  const I32_MAX: i32 := 0x7FFF_FFFF

  /** A pane's cells, each number a u16. */
  type PaneArea = r: Rect | r.x <= U16_MAX && r.y <= U16_MAX && r.width <= U16_MAX && r.height <= U16_MAX
    witness Rect(0, 0, 0, 0)

  datatype CellSize = CellSize(widthPx: u32, heightPx: u32)
  datatype ImageFormat = Rgb | Rgba | Png

  datatype RenderInfo = RenderInfo(
    pixelWidth: u32, pixelHeight: u32,
    gridCols: u32, gridRows: u32,
    viewportCol: i32, viewportRow: i32,
    sourceX: u32, sourceY: u32,
    sourceWidth: u32, sourceHeight: u32)

  datatype ImagePlacement = ImagePlacement(
    imageId: u32, placementId: u32, z: i32,
    xOffset: u32, yOffset: u32,
    imageWidth: u32, imageHeight: u32,
    format: ImageFormat, dataLen: nat, dataFingerprint: nat,
    data: bytes, render: RenderInfo)

  datatype HostSourceKey = Terminal(paneId: PaneId, imageId: u32) | PaneLayer(paneId: PaneId)

  datatype HostPlacement = HostPlacement(
    paneId: PaneId, area: PaneArea, cellSize: CellSize,
    sourceKey: HostSourceKey, placement: ImagePlacement, scrollbackOffset: u32)

  datatype ClippedPlacement = ClippedPlacement(
    x: u16, y: u16, cols: u32, rows: u32,
    sourceX: u32, sourceY: u32, sourceWidth: u32, sourceHeight: u32,
    xOffset: u32, yOffset: u32)

  // ----- u32 arithmetic as the code does it -----

  function SaturatingMul(a: u32, b: u32): u32 {
    MulNonNegative(a, b);
    if a * b > U32_MAX then U32_MAX else a * b
  }

  function SaturatingSub(a: u32, b: u32): u32 {
    if a < b then 0 else a - b
  }

  /** How many cells lie before the pane's own edge. */
  function ClippedCells(viewport: i32): u32 {
    if viewport == I32_MIN then I32_MAX else if viewport < 0 then -viewport else 0
  }

  function WrappingAdd(a: u32, b: u32): u32 {
    (a + b) % 0x1_0000_0000
  }

  /** value * source / dest, rounded down and capped. */
  function ScalePixels(value: u32, source: u32, dest: u32): u32 {
    MulNonNegative(value, source);
    Min(value * source / Max(dest, 1), U32_MAX)
  }

  lemma MulNonNegative(a: int, b: int)
    requires 0 <= a && 0 <= b
    ensures 0 <= a * b
  {}

  // ----- One axis of the crop -----

  /** The visible part of one axis: where it starts in the pane, how many cells it has,
      and the slice of the image behind it. */
  datatype AxisClip = AxisClip(start: u16, cells: u32, source: u32, sourceLen: u32)

  datatype Axis = Axis(areaLen: u16, gridCells: u32, viewport: i32, cellPx: u32,
                       pixelLen: u32, source: u32, sourceLen: u32, imageLen: u32)

  function VisibleCells(a: Axis): u32
    requires a.viewport < a.areaLen
  {
    Min(SaturatingSub(a.gridCells, ClippedCells(a.viewport)), a.areaLen - Max(a.viewport, 0))
  }

  function RequestedLen(a: Axis): u32 {
    if a.sourceLen == 0 then a.imageLen else a.sourceLen
  }

  function PixelLen(a: Axis): u32 {
    Max(Max(a.pixelLen, SaturatingMul(a.gridCells, a.cellPx)), 1)
  }

  function SourceStart(a: Axis): u32 {
    WrappingAdd(a.source, ScalePixels(SaturatingMul(ClippedCells(a.viewport), a.cellPx), RequestedLen(a), PixelLen(a)))
  }

  function SourceLen(a: Axis): u32
    requires a.viewport < a.areaLen
  {
    Min(Max(ScalePixels(SaturatingMul(VisibleCells(a), a.cellPx), RequestedLen(a), PixelLen(a)), 1),
        SaturatingSub(a.imageLen, SourceStart(a)))
  }

  predicate IsVisible(a: Axis) {
    && a.areaLen != 0 && a.gridCells != 0
    && a.viewport < a.areaLen
    && VisibleCells(a) != 0
  }

  function ClipAxis(a: Axis): AxisClip
    requires IsVisible(a)
  {
    AxisClip(Max(a.viewport, 0), VisibleCells(a), SourceStart(a), SourceLen(a))
  }

  // ----- The crop -----

  function Columns(p: HostPlacement): Axis {
    var r := p.placement.render;
    Axis(p.area.width, r.gridCols, r.viewportCol, p.cellSize.widthPx, r.pixelWidth,
         r.sourceX, r.sourceWidth, p.placement.imageWidth)
  }

  function Rows(p: HostPlacement): Axis {
    var r := p.placement.render;
    Axis(p.area.height, r.gridRows, r.viewportRow, p.cellSize.heightPx, r.pixelHeight,
         r.sourceY, r.sourceHeight, p.placement.imageHeight)
  }

  function ClipPlacement(p: HostPlacement): Option<ClippedPlacement> {
    if !IsVisible(Columns(p)) || !IsVisible(Rows(p)) then None
    else
      var c, r := ClipAxis(Columns(p)), ClipAxis(Rows(p));
      if c.sourceLen == 0 || r.sourceLen == 0 then None
      else
        var render := p.placement.render;
        Some(ClippedPlacement(
          (p.area.x + c.start) % 0x1_0000, (p.area.y + r.start) % 0x1_0000, c.cells, r.cells,
          c.source, r.source, c.sourceLen, r.sourceLen,
          if ClippedCells(render.viewportCol) == 0 then p.placement.xOffset else 0,
          if ClippedCells(render.viewportRow) == 0 then p.placement.yOffset else 0))
  }

  // ----- Properties of one axis -----

  /** The grid reaches this cell, counted from the edge of the pane. */
  predicate InGrid(a: Axis, cell: int) {
    a.viewport <= cell < a.viewport + a.gridCells
  }

  predicate IsCellToShow(a: Axis, cell: int) {
    0 <= cell < a.areaLen && InGrid(a, cell)
  }

  predicate IsCovered(a: Axis, cell: int)
    requires IsVisible(a)
  {
    Max(a.viewport, 0) <= cell < Max(a.viewport, 0) + VisibleCells(a)
  }

  /** The one viewport whose negation saturates, with a grid that ends inside the pane. */
  predicate IsOneTooLong(a: Axis) {
    a.viewport == I32_MIN && a.gridCells < 0x8000_0000 + a.areaLen
  }

  /** Outside that case the visible cells are exactly those of the grid that fall inside the pane. */
  lemma VisibleCellsExact(a: Axis, cell: int)
    requires IsVisible(a) && !IsOneTooLong(a)
    ensures IsCovered(a, cell) <==> IsCellToShow(a, cell)
  {}

  /** In that case the last covered cell is one the grid does not reach. */
  lemma LastCellTooFar(a: Axis)
    requires IsVisible(a) && IsOneTooLong(a)
    ensures IsCovered(a, VisibleCells(a) - 1) && !IsCellToShow(a, VisibleCells(a) - 1)
  {}

  /** An axis counted as visible although its grid ends right at the pane's edge. */
  predicate IsPhantom(a: Axis) {
    a.viewport == I32_MIN && a.gridCells == 0x8000_0000 && a.areaLen != 0
  }

  ghost predicate HasCellToShow(a: Axis) {
    exists cell :: IsCellToShow(a, cell)
  }

  lemma VisibleIffCell(a: Axis)
    ensures IsVisible(a) <==> HasCellToShow(a) || IsPhantom(a)
  {
    if IsVisible(a) && !IsPhantom(a) {
      assert IsCellToShow(a, Max(a.viewport, 0));
    }
  }

  /** Whatever saturates or wraps, a non-empty slice lies inside the image. */
  lemma SliceInsideImage(a: Axis)
    requires IsVisible(a) && ClipAxis(a).sourceLen != 0
    ensures var c := ClipAxis(a); c.source + c.sourceLen <= a.imageLen
  {}

  lemma DivBounds(n: int, d: int)
    requires 0 < d
    ensures d * (n / d) <= n < d * (n / d) + d
  {}

  lemma MulLe(a: int, b: int, m: int)
    requires a <= b && 0 <= m
    ensures a * m <= b * m
  {}

  lemma MulLt(a: int, b: int, m: int)
    requires a < b && 0 <= m
    ensures a * m + m <= b * m
  {
    MulLe(a + 1, b, m);
    assert (a + 1) * m == a * m + m;
  }

  lemma DivIsGreatest(n: int, d: int, k: int)
    requires 0 < d && k * d <= n
    ensures k <= n / d
  {
    DivBounds(n, d);
    if n / d < k {
      MulLt(n / d, k, d);
    }
  }

  lemma DivBelow(n: int, d: int, k: int)
    requires 0 < d && n < k * d
    ensures n / d < k
  {
    DivBounds(n, d);
    if k <= n / d {
      MulLe(k, n / d, d);
    }
  }

  /** Two slices that together fit the drawn length scale to slices that fit the source,
      even when the second one is stretched to at least one pixel. */
  lemma ScaledSlicesFit(crop: nat, visible: nat, len: nat, dest: nat)
    requires 0 < dest && 0 < len && 0 < visible && crop + visible <= dest
    ensures 0 <= crop * len / dest && 0 <= visible * len / dest
    ensures crop * len / dest + Max(visible * len / dest, 1) <= len
  {
    var n, m := crop * len, visible * len;
    MulNonNegative(crop, len);
    MulNonNegative(visible, len);
    var x, y := n / dest, m / dest;
    DivBounds(n, dest);
    DivBounds(m, dest);
    DivIsGreatest(n, dest, 0);
    DivIsGreatest(m, dest, 0);
    MulLe(crop + visible, dest, len);
    assert n + m == (crop + visible) * len;
    assert dest * (x + y) == dest * x + dest * y;
    assert (x + y) * dest <= len * dest;
    if x + y > len {
      MulLt(len, x + y, dest);
    }
    MulLe(crop, dest - 1, len);
    assert (dest - 1) * len == len * dest - len;
    DivBelow(n, dest, len);
  }

  function CropPx(a: Axis): u32 {
    SaturatingMul(ClippedCells(a.viewport), a.cellPx)
  }

  function VisiblePx(a: Axis): u32
    requires a.viewport < a.areaLen
  {
    SaturatingMul(VisibleCells(a), a.cellPx)
  }

  /** The slice starts within u32, and either the image ends no later than the request or the two
      products, saturated or not, fit the drawn length. */
  predicate FitsRequest(a: Axis)
    requires a.viewport < a.areaLen
  {
    && a.source + ScalePixels(CropPx(a), RequestedLen(a), PixelLen(a)) <= U32_MAX
    && (a.imageLen <= a.source + RequestedLen(a) || CropPx(a) + VisiblePx(a) <= PixelLen(a))
  }

  /** Nothing saturates or overflows on this axis, in u32 arithmetic. */
  predicate IsTame(a: Axis) {
    && a.gridCells * a.cellPx <= U32_MAX
    && a.source + RequestedLen(a) <= U32_MAX
  }

  lemma CellProducts(a: Axis)
    requires IsVisible(a)
    ensures ClippedCells(a.viewport) + VisibleCells(a) <= a.gridCells
    ensures 0 <= ClippedCells(a.viewport) * a.cellPx <= a.gridCells * a.cellPx
    ensures 0 <= VisibleCells(a) * a.cellPx <= a.gridCells * a.cellPx
    ensures ClippedCells(a.viewport) * a.cellPx + VisibleCells(a) * a.cellPx <= a.gridCells * a.cellPx
  {
    var l, v := ClippedCells(a.viewport), VisibleCells(a);
    MulLe(l + v, a.gridCells, a.cellPx);
    assert (l + v) * a.cellPx == l * a.cellPx + v * a.cellPx;
    MulNonNegative(l, a.cellPx);
    MulNonNegative(v, a.cellPx);
  }

  lemma TameFits(a: Axis)
    requires IsTame(a) && IsVisible(a)
    ensures CropPx(a) == ClippedCells(a.viewport) * a.cellPx && VisiblePx(a) == VisibleCells(a) * a.cellPx
    ensures FitsRequest(a)
  {
    CellProducts(a);
    CropScalesIntoRequest(a);
  }

  /** Saturated or not, the cropped part is no longer than the drawn length, so it scales to no more
      than the request. */
  lemma CropScalesIntoRequest(a: Axis)
    requires IsVisible(a)
    ensures CropPx(a) <= PixelLen(a)
    ensures ScalePixels(CropPx(a), RequestedLen(a), PixelLen(a)) <= RequestedLen(a)
  {
    CellProducts(a);
    var crop: int, len: int, dest: int := CropPx(a), RequestedLen(a), PixelLen(a);
    assert crop <= SaturatingMul(a.gridCells, a.cellPx) <= dest;
    MulLe(crop, dest, len);
    MulNonNegative(crop, len);
    MulLt(len, len + 1, dest);
    DivBelow(crop * len, dest, len + 1);
  }

  /** The slice stays inside the request if and only if its start does not wrap, and the image ends no
      later or the two scaled lengths, the second stretched to a pixel, fit the request. */
  lemma SliceInsideRequestExactly(a: Axis)
    requires IsVisible(a) && ClipAxis(a).sourceLen != 0
    ensures var c, len, dest := ClipAxis(a), RequestedLen(a), PixelLen(a);
            a.source <= c.source && c.source + c.sourceLen <= a.source + len
            <==> && a.source + ScalePixels(CropPx(a), len, dest) <= U32_MAX
                 && (|| a.imageLen <= a.source + len
                     || ScalePixels(CropPx(a), len, dest) + Max(ScalePixels(VisiblePx(a), len, dest), 1) <= len)
  {
    CropScalesIntoRequest(a);
    hide ScalePixels;
    hide SaturatingMul;
    hide PixelLen;
  }

  /** The slice stays inside the rectangle the program asked for. */
  lemma SliceInsideRequest(a: Axis)
    requires IsVisible(a) && ClipAxis(a).sourceLen != 0 && FitsRequest(a)
    ensures var c := ClipAxis(a);
            a.source <= c.source && c.source + c.sourceLen <= a.source + RequestedLen(a)
  {
    hide ScalePixels;
    hide SaturatingMul;
    hide PixelLen;
    hide CropPx;
    hide VisiblePx;
    SliceInsideRequestExactly(a);
    hide ClipAxis;
    if a.imageLen > a.source + RequestedLen(a) {
      ScaledPartsFit(a);
    }
  }

  lemma ScaledPartsFit(a: Axis)
    requires IsVisible(a) && CropPx(a) + VisiblePx(a) <= PixelLen(a) && 0 < RequestedLen(a)
    ensures var len, dest := RequestedLen(a), PixelLen(a);
            ScalePixels(CropPx(a), len, dest) + Max(ScalePixels(VisiblePx(a), len, dest), 1) <= len
  {
    var crop: int, visible: int := CropPx(a), VisiblePx(a);
    var len: int, dest: int := RequestedLen(a), PixelLen(a);
    if visible == 0 {
      NothingVisibleNothingCropped(a);
      assert 0 * len == 0;
    } else {
      hide CropPx;
      hide VisiblePx;
      ScaledSlicesFit(crop, visible, len, dest);
      ScaledAre(crop, visible, len, dest);
    }
    hide ScalePixels;
    hide SaturatingMul;
  }

  lemma ScaledAre(crop: u32, visible: u32, len: u32, dest: u32)
    requires 0 < dest && 0 <= crop * len / dest <= len && 0 <= visible * len / dest <= len
    ensures ScalePixels(crop, len, dest) == crop * len / dest && ScalePixels(visible, len, dest) == visible * len / dest
  {}

  /** Cells of no height or width cut nothing off either. */
  lemma NothingVisibleNothingCropped(a: Axis)
    requires IsVisible(a) && VisiblePx(a) == 0
    ensures CropPx(a) == 0
  {
    if a.cellPx > 0 {
      MulLe(1, VisibleCells(a), a.cellPx);
      assert false;
    }
  }

  /** An axis that is not cut, drawn at its natural size, keeps the whole request. */
  lemma UncutAxisKeepsRequest(a: Axis)
    requires IsTame(a) && IsVisible(a) && RequestedLen(a) != 0 && 0 < a.cellPx
    requires a.source + RequestedLen(a) <= a.imageLen
    requires 0 <= a.viewport && VisibleCells(a) == a.gridCells && a.pixelLen <= a.gridCells * a.cellPx
    ensures ClipAxis(a) == AxisClip(a.viewport, a.gridCells, a.source, RequestedLen(a))
  {
    TameFits(a);
    MulLe(1, a.gridCells, a.cellPx);
    var len: int, dest: int := RequestedLen(a), PixelLen(a);
    assert dest == a.gridCells * a.cellPx;
    assert ClippedCells(a.viewport) * a.cellPx == 0;
    DivIsGreatest(0 * len, dest, 0);
    DivBelow(0 * len, dest, 1);
    DivIsGreatest(dest * len, dest, len);
    MulLt(len, len + 1, dest);
    DivBelow(dest * len, dest, len + 1);
  }

  /** A slice of the request, `x` pixels behind its start and `y` long: the cut and the visible part of the
      drawn length, floored to pixels of the request. Its start wraps at u32, and it has at least a pixel
      and ends within the image. */
  predicate IsSlice(viewport: int, gridCells: nat, cellPx: nat, pixelLen: nat, source: nat, sourceLen: nat,
                    imageLen: nat, cells: nat, start: nat, length: nat, x: nat, y: nat) {
    var len := if sourceLen == 0 then imageLen else sourceLen;
    var cut := if viewport == -0x8000_0000 then 0x7FFF_FFFF else if viewport < 0 then -viewport else 0;
    var drawn := Max(Max(pixelLen, Min(gridCells * cellPx, 0xFFFF_FFFF)), 1);
    && x * drawn <= Min(cut * cellPx, 0xFFFF_FFFF) * len < x * drawn + drawn
    && start == (source + x) % 0x1_0000_0000
    && y * drawn <= Min(cells * cellPx, 0xFFFF_FFFF) * len < y * drawn + drawn
    && length == Min(Max(y, 1), Max(imageLen - start, 0))
  }

  lemma SliceIsProportional(a: Axis) returns (x: nat, y: nat)
    requires IsVisible(a)
    ensures var c := ClipAxis(a);
            IsSlice(a.viewport, a.gridCells, a.cellPx, a.pixelLen, a.source, a.sourceLen, a.imageLen,
                    c.cells, c.source, c.sourceLen, x, y)
  {
    var len, drawn := RequestedLen(a), PixelLen(a);
    CropScalesIntoRequest(a);
    VisibleIsShort(a);
    x := ScaledPart(CropPx(a), len, drawn);
    y := ScaledPart(VisiblePx(a), len, drawn);
    CellProducts(a);
    hide ScalePixels;
  }

  lemma VisibleIsShort(a: Axis)
    requires IsVisible(a)
    ensures VisiblePx(a) <= PixelLen(a)
  {
    CellProducts(a);
  }

  lemma ScaledPart(part: u32, len: u32, drawn: u32) returns (x: nat)
    requires 0 < drawn && part <= drawn
    ensures x == ScalePixels(part, len, drawn) && x * drawn <= part * len < x * drawn + drawn
  {
    MulNonNegative(part, len);
    x := part * len / drawn;
    DivBounds(part * len, drawn);
    MulLe(part, drawn, len);
    MulLt(len, len + 1, drawn);
    DivBelow(part * len, drawn, len + 1);
  }

  // ----- Properties of the crop -----

  predicate IsInCrop(c: ClippedPlacement, col: int, row: int) {
    c.x <= col < c.x + c.cols && c.y <= row < c.y + c.rows
  }

  /** The cell lies in the pane and in the requested grid. */
  predicate IsRequested(p: HostPlacement, col: int, row: int) {
    IsCellToShow(Columns(p), col - p.area.x) && IsCellToShow(Rows(p), row - p.area.y)
  }

  lemma CropCovers(p: HostPlacement, col: int, row: int)
    requires ClipPlacement(p).Some? && EdgesFit(p.area)
    ensures IsInCrop(ClipPlacement(p).value, col, row)
            <==> IsCovered(Columns(p), col - p.area.x) && IsCovered(Rows(p), row - p.area.y)
  {}

  /** A crop covers exactly the cells of the image's grid that fall inside the pane, if and only if
      neither axis is the one too long. */
  lemma CropCoversVisibleCells(p: HostPlacement)
    requires ClipPlacement(p).Some? && EdgesFit(p.area)
    ensures (forall col, row :: IsInCrop(ClipPlacement(p).value, col, row) <==> IsRequested(p, col, row))
            <==> !IsOneTooLong(Columns(p)) && !IsOneTooLong(Rows(p))
  {
    hide ClipPlacement;
    assert IsVisible(Columns(p)) && IsVisible(Rows(p)) by {
      DrawnIsVisible(p);
    }
    var cols, rows := Columns(p), Rows(p);
    hide Columns;
    hide Rows;
    if !IsOneTooLong(cols) && !IsOneTooLong(rows) {
      forall col, row
        ensures IsInCrop(ClipPlacement(p).value, col, row) <==> IsRequested(p, col, row)
      {
        CropCovers(p, col, row);
        VisibleCellsExact(cols, col - p.area.x);
        VisibleCellsExact(rows, row - p.area.y);
      }
    } else {
      var col := p.area.x + Max(cols.viewport, 0) + VisibleCells(cols) - 1;
      var row := p.area.y + Max(rows.viewport, 0) + VisibleCells(rows) - 1;
      CropCovers(p, col, row);
      if IsOneTooLong(cols) {
        LastCellTooFar(cols);
      } else {
        LastCellTooFar(rows);
      }
      assert IsInCrop(ClipPlacement(p).value, col, row) && !IsRequested(p, col, row);
    }
  }

  lemma DrawnIsVisible(p: HostPlacement)
    requires ClipPlacement(p).Some?
    ensures IsVisible(Columns(p)) && IsVisible(Rows(p))
  {}

  /** Something is drawn if and only if on both axes a cell of the grid is inside the pane, or the
      axis is the phantom one, and the image has pixels left behind it. */
  lemma CropExistsExactly(p: HostPlacement)
    ensures ClipPlacement(p).Some? <==>
              && (HasCellToShow(Columns(p)) || IsPhantom(Columns(p)))
              && (HasCellToShow(Rows(p)) || IsPhantom(Rows(p)))
              && SourceStart(Columns(p)) < p.placement.imageWidth
              && SourceStart(Rows(p)) < p.placement.imageHeight
  {
    VisibleIffCell(Columns(p));
    VisibleIffCell(Rows(p));
    hide HasCellToShow;
    hide IsPhantom;
    hide SourceStart;
  }

  /** The crop stays inside the pane and its source rectangle inside the image. */
  lemma CropInsidePaneAndImage(p: HostPlacement)
    requires ClipPlacement(p).Some? && EdgesFit(p.area)
    ensures var c := ClipPlacement(p).value;
            && p.area.x <= c.x && 0 < c.cols && c.x + c.cols <= p.area.x + p.area.width
            && p.area.y <= c.y && 0 < c.rows && c.y + c.rows <= p.area.y + p.area.height
            && 0 < c.sourceWidth && c.sourceX + c.sourceWidth <= p.placement.imageWidth
            && 0 < c.sourceHeight && c.sourceY + c.sourceHeight <= p.placement.imageHeight
  {
    SliceInsideImage(Columns(p));
    SliceInsideImage(Rows(p));
  }

  /** Each axis of the crop is the slice its own numbers make: columns and widths across, rows and heights
      down. */
  lemma CropIsProportional(p: HostPlacement) returns (x: nat, y: nat, v: nat, w: nat)
    requires ClipPlacement(p).Some?
    ensures var c, r := ClipPlacement(p).value, p.placement.render;
            && IsSlice(r.viewportCol, r.gridCols, p.cellSize.widthPx, r.pixelWidth, r.sourceX, r.sourceWidth,
                       p.placement.imageWidth, c.cols, c.sourceX, c.sourceWidth, x, y)
            && IsSlice(r.viewportRow, r.gridRows, p.cellSize.heightPx, r.pixelHeight, r.sourceY, r.sourceHeight,
                       p.placement.imageHeight, c.rows, c.sourceY, c.sourceHeight, v, w)
  {
    hide IsSlice;
    hide ClipAxis;
    hide IsVisible;
    x, y := SliceIsProportional(Columns(p));
    v, w := SliceIsProportional(Rows(p));
  }

  /** Each pixel offset stays on its own axis when nothing is cut off in front there, and is dropped
      when something is. */
  lemma CropKeepsOffsets(p: HostPlacement)
    requires ClipPlacement(p).Some?
    ensures var c := ClipPlacement(p).value;
            && c.xOffset == (if p.placement.render.viewportCol < 0 then 0 else p.placement.xOffset)
            && c.yOffset == (if p.placement.render.viewportRow < 0 then 0 else p.placement.yOffset)
  {
    hide ClipAxis;
    hide IsVisible;
  }

  /** Where both axes fit their requests, the source rectangle also stays inside the requested one. */
  lemma CropInsideRequest(p: HostPlacement)
    requires ClipPlacement(p).Some?
    requires FitsRequest(Columns(p)) && FitsRequest(Rows(p))
    ensures var c := ClipPlacement(p).value;
            var r := p.placement.render;
            && r.sourceX <= c.sourceX && c.sourceX + c.sourceWidth <= r.sourceX + RequestedLen(Columns(p))
            && r.sourceY <= c.sourceY && c.sourceY + c.sourceHeight <= r.sourceY + RequestedLen(Rows(p))
  {
    SliceInsideRequest(Columns(p));
    SliceInsideRequest(Rows(p));
  }

  // ----- Inputs at the edge of the arithmetic -----

  /** A one-cell pane showing the first row of an image of 100 by 100 pixels, 10 of them asked for. */
  function WidePlacement(gridCols: u32, viewportCol: i32): HostPlacement {
    HostPlacement(1, Rect(0, 0, 1, 1), CellSize(4, 4), Terminal(1, 1),
                  ImagePlacement(1, 1, 0, 0, 0, 100, 100, Rgb, 0, 0, [],
                                 RenderInfo(0, 0, gridCols, 1, viewportCol, 0, 0, 0, 10, 10)),
                  0)
  }

  lemma WideRows(gridCols: u32, viewportCol: i32)
    ensures var r := Rows(WidePlacement(gridCols, viewportCol));
            IsVisible(r) && ClipAxis(r) == AxisClip(0, 1, 0, 10)
  {
    var r := Rows(WidePlacement(gridCols, viewportCol));
    assert r == Axis(1, 1, 0, 4, 0, 0, 10, 100);
    assert VisibleCells(r) == 1 && PixelLen(r) == 4;
  }

  /** Once grid times cell saturates, the crop can start where the request ends. */
  lemma SaturationLeavesRequest()
    ensures var p := WidePlacement(0x8000_0000, -0x4000_0000);
            && ClipPlacement(p).Some? && !FitsRequest(Columns(p))
            && ClipPlacement(p).value.sourceX == p.placement.render.sourceX + RequestedLen(Columns(p))
            && ClipPlacement(p).value.sourceWidth == 1
  {
    var p := WidePlacement(0x8000_0000, -0x4000_0000);
    WideRows(0x8000_0000, -0x4000_0000);
    var a := Columns(p);
    assert a == Axis(1, 0x8000_0000, -0x4000_0000, 4, 0, 0, 10, 100);
    assert SaturatingMul(a.gridCells, a.cellPx) == U32_MAX == PixelLen(a);
    assert CropPx(a) == U32_MAX;
    assert VisibleCells(a) == 1;
    hide Rows;
  }

  /** At the smallest viewport a grid that ends at the pane's edge still gets a cell. */
  lemma SmallestViewportShowsTooMuch()
    ensures var p := WidePlacement(0x8000_0000, I32_MIN);
            && ClipPlacement(p).Some? && ClipPlacement(p).value.cols == 1
            && !HasCellToShow(Columns(p))
  {
    var p := WidePlacement(0x8000_0000, I32_MIN);
    WideRows(0x8000_0000, I32_MIN);
    var a := Columns(p);
    assert a == Axis(1, 0x8000_0000, I32_MIN, 4, 0, 0, 10, 100);
    assert SaturatingMul(a.gridCells, a.cellPx) == U32_MAX == PixelLen(a);
    assert CropPx(a) == U32_MAX;
    assert VisibleCells(a) == 1;
    hide Rows;
  }
}
