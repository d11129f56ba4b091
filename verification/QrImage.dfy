/** The RGB renderer of src/qr_code.cpp. */
module QrImage {
  import opened Prelude

  /** What the qrencode library returns: `width` rows of `width` bytes, bit 0 of a byte set for a dark module. */
  datatype Matrix = Matrix(width: nat, data: seq<byte>) {

    ghost predicate Valid() {
      width >= 1 && |data| == width * width
    }

    predicate Dark(y: int, x: int)
      requires Valid()
    {
      && 0 <= y < width
      && 0 <= x < width
      && (IndexInGrid(y, x, width, width);
          data[y * width + x] % 2 == 1)
    }
  }

  // --- geometry ---

  /** Width and height of the image. */
  function Side(w: nat, margin: int, zoom: int): int {
    w * zoom + 2 * (margin * zoom)
  }

  /** What an image pixel shows: white border, or dot (i, j) of the module in row y and column x. */
  datatype Place = Border | Dot(y: nat, x: nat, i: nat, j: nat)

  ghost predicate IsDot(w: nat, zoom: int, d: Place) {
    d.Dot? && d.y < w && d.x < w && d.i < zoom && d.j < zoom
  }

  /** The pixel that `set_xy(rgb, x * zoom + i, y * zoom + j)` addresses. */
  function Column(w: nat, margin: int, zoom: int, d: Place): int
    requires d.Dot?
  {
    d.x * zoom + d.i + margin * zoom
  }

  function Row(w: nat, margin: int, zoom: int, d: Place): int
    requires d.Dot?
  {
    d.y * zoom + d.j + margin * zoom
  }

  function Offset(w: nat, margin: int, zoom: int, d: Place): int
    requires d.Dot?
  {
    Row(w, margin, zoom, d) * Side(w, margin, zoom) + Column(w, margin, zoom, d)
  }

  // --- margins that are not negative ---

  function PlaceOf(w: nat, margin: nat, zoom: nat, px: nat, py: nat): Place {
    var m := margin * zoom;
    if zoom > 0 && m <= px < m + w * zoom && m <= py < m + w * zoom then
      MulNonNegative(w, zoom);
      Dot((py - m) / zoom, (px - m) / zoom, (px - m) % zoom, (py - m) % zoom)
    else Border
  }

  function PlaceAt(w: nat, margin: nat, zoom: nat, o: nat): Place {
    SideNonNegative(w, margin, zoom);
    var side := Side(w, margin, zoom);
    if side == 0 then Border else PlaceOf(w, margin, zoom, o % side, o / side)
  }

  lemma SideNonNegative(w: nat, margin: nat, zoom: nat)
    ensures 0 <= Side(w, margin, zoom)
  {
    MulNonNegative(w, zoom);
    MulNonNegative(margin, zoom);
  }

  /** Dots and the pixels inside the border correspond one to one: every dot has its pixel, inside the image, so
      the bounds test of `set_xy` never skips one ... */
  lemma DotHasPixel(w: nat, margin: nat, zoom: nat, d: Place)
    requires IsDot(w, zoom, d)
    ensures 0 <= Column(w, margin, zoom, d) < Side(w, margin, zoom)
    ensures 0 <= Row(w, margin, zoom, d) < Side(w, margin, zoom)
    ensures 0 <= Offset(w, margin, zoom, d) < Side(w, margin, zoom) * Side(w, margin, zoom)
    ensures PlaceAt(w, margin, zoom, Offset(w, margin, zoom, d)) == d
  {
    var m, side := margin * zoom, Side(w, margin, zoom);
    MulNonNegative(margin, zoom);
    IndexInGrid(d.x, d.i, w, zoom);
    IndexInGrid(d.y, d.j, w, zoom);
    var px, py := Column(w, margin, zoom, d), Row(w, margin, zoom, d);
    IndexInGrid(py, px, side, side);
    DivModUnique(Offset(w, margin, zoom, d), side, py, px);
    DivModUnique(px - m, zoom, d.x, d.i);
    DivModUnique(py - m, zoom, d.y, d.j);
  }

  /** ... and no two dots share a pixel. */
  lemma PixelHasOneDot(w: nat, margin: nat, zoom: nat, o: nat)
    requires PlaceAt(w, margin, zoom, o).Dot?
    ensures var d := PlaceAt(w, margin, zoom, o); IsDot(w, zoom, d) && Offset(w, margin, zoom, d) == o
  {
    SideNonNegative(w, margin, zoom);
    var m, side := margin * zoom, Side(w, margin, zoom);
    var px, py := o % side, o / side;
    QuotientBelow(px - m, w, zoom);
    QuotientBelow(py - m, w, zoom);
    assert o == py * side + px;
  }

  lemma QuotientBelow(n: nat, w: nat, zoom: nat)
    requires 0 < zoom && n < w * zoom
    ensures n / zoom < w
    ensures n / zoom * zoom + n % zoom == n
  {
    MulMonotone(n / zoom, w, zoom);
  }

  // --- negative margins ---

  /** No loop runs, or the margin is not negative, or it is so far negative that its sign cancels out. */
  predicate KeepsInside(w: nat, margin: int, zoom: int) {
    zoom <= 0 || margin >= 0 || margin + w <= 0
  }

  /** A margin of -w or less turns the side negative and addresses the picture with margin -margin - w upside down. */
  lemma MirroredOffset(w: nat, margin: int, zoom: int, d: Place)
    requires d.Dot?
    ensures var other := -margin - w;
            var side := Side(w, other, zoom);
            && Side(w, margin, zoom) == -side
            && Offset(w, margin, zoom, d) == (side - 1 - Row(w, other, zoom, d)) * side + Column(w, other, zoom, d)
  {
    var other := -margin - w;
    assert other * zoom == -(margin * zoom) - w * zoom;
    var side := Side(w, other, zoom);
    var y := Row(w, margin, zoom, d);
    assert side - 1 - Row(w, other, zoom, d) == -y - 1;
    assert (-y - 1) * side == y * -side - side;
  }

  /** Every pixel that is addressed lies inside the image, so that the bounds test of `set_xy` never skips one. */
  lemma OffsetInside(w: nat, margin: int, zoom: int, d: Place)
    requires IsDot(w, zoom, d) && KeepsInside(w, margin, zoom)
    ensures 0 <= Offset(w, margin, zoom, d) < Side(w, margin, zoom) * Side(w, margin, zoom)
  {
    hide Side, Offset, Row, Column;
    if margin >= 0 {
      DotHasPixel(w, margin, zoom, d);
    } else {
      var other := -margin - w;
      var side := Side(w, other, zoom);
      DotHasPixel(w, other, zoom, d);
      MirroredOffset(w, margin, zoom, d);
      IndexInGrid(side - 1 - Row(w, other, zoom, d), Column(w, other, zoom, d), side, side);
      SquareOfNegative(side);
    }
  }

  lemma SquareOfNegative(a: int)
    ensures -a * -a == a * a
  {
  }

  /** And no pixel is addressed twice. */
  lemma OffsetsDiffer(w: nat, margin: int, zoom: int, d: Place, e: Place)
    requires IsDot(w, zoom, d) && IsDot(w, zoom, e) && KeepsInside(w, margin, zoom)
    requires Offset(w, margin, zoom, d) == Offset(w, margin, zoom, e)
    ensures d == e
  {
    hide Side, Offset, Row, Column;
    if margin >= 0 {
      DotHasPixel(w, margin, zoom, d);
      DotHasPixel(w, margin, zoom, e);
    } else {
      var other := -margin - w;
      var side := Side(w, other, zoom);
      MirroredOffset(w, margin, zoom, d);
      MirroredOffset(w, margin, zoom, e);
      DotHasPixel(w, other, zoom, d);
      DotHasPixel(w, other, zoom, e);
      SamePixel(side, Row(w, other, zoom, d), Column(w, other, zoom, d), Row(w, other, zoom, e),
                Column(w, other, zoom, e));
      RowOfOffset(w, other, zoom, d);
      RowOfOffset(w, other, zoom, e);
    }
  }

  lemma SamePixel(side: nat, row: nat, column: nat, row': nat, column': nat)
    requires row < side && column < side && row' < side && column' < side
    requires (side - 1 - row) * side + column == (side - 1 - row') * side + column'
    ensures row == row' && column == column'
  {
    var o := (side - 1 - row) * side + column;
    DivModUnique(o, side, side - 1 - row, column);
    DivModUnique(o, side, side - 1 - row', column');
  }

  // --- painting ---

  /** The order in which the four loops of `qr_code_to_rbg` reach the dots. */
  predicate Before(d: Place, y: nat, x: nat, i: nat, j: nat) {
    d.Dot? && (d.y < y || (d.y == y && (d.x < x || (d.x == x && (d.i < i || (d.i == i && d.j < j))))))
  }

  /** Dot `d` is one of a dark module, and `set_xy` addresses pixel `o` for it. */
  ghost predicate Paints(m: Matrix, margin: int, zoom: int, d: Place, o: int)
    requires m.Valid()
  {
    IsDot(m.width, zoom, d) && m.Dark(d.y, d.x) && Offset(m.width, margin, zoom, d) == o
  }

  ghost predicate PaintedBefore(m: Matrix, margin: int, zoom: int, o: int, y: nat, x: nat, i: nat, j: nat)
    requires m.Valid()
  {
    exists d :: Before(d, y, x, i, j) && Paints(m, margin, zoom, d, o)
  }

  /** Every byte of the buffer when the loops stand at (y, x, i, j): black where a dot was painted, else white. */
  ghost function Stage(m: Matrix, margin: int, zoom: int, y: nat, x: nat, i: nat, j: nat): (s: seq<byte>)
    requires m.Valid()
    ensures |s| == Side(m.width, margin, zoom) * Side(m.width, margin, zoom) * 3
  {
    var side := Side(m.width, margin, zoom);
    SquareNonNegative(side);
    seq(side * side * 3, k => if PaintedBefore(m, margin, zoom, k / 3, y, x, i, j) then 0 else 255)
  }

  lemma SquareNonNegative(side: int)
    ensures 0 <= side * side
  {
  }

  /** The finished image. */
  ghost function Image(m: Matrix, margin: int, zoom: int): (s: seq<byte>)
    requires m.Valid()
    ensures |s| == Side(m.width, margin, zoom) * Side(m.width, margin, zoom) * 3
  {
    Stage(m, margin, zoom, m.width, 0, 0, 0)
  }

  /** Three zero bytes at one pixel, as `set_xy` writes them; nothing when the offset is past the last pixel. */
  function Painted(s: seq<byte>, o: int): seq<byte> {
    if 0 <= o && o * 3 + 2 < |s| then s[o * 3 := 0][o * 3 + 1 := 0][o * 3 + 2 := 0] else s
  }

  lemma StageStart(m: Matrix, margin: int, zoom: int)
    requires m.Valid()
    ensures forall k | 0 <= k < |Stage(m, margin, zoom, 0, 0, 0, 0)| :: Stage(m, margin, zoom, 0, 0, 0, 0)[k] == 255
  {
  }

  lemma PaintedNext(m: Matrix, margin: int, zoom: int, o: int, y: nat, x: nat, i: nat, j: nat)
    requires m.Valid() && m.Dark(y, x)
    requires i < zoom && j < zoom
    ensures PaintedBefore(m, margin, zoom, o, y, x, i, j + 1) <==>
            PaintedBefore(m, margin, zoom, o, y, x, i, j) || o == Offset(m.width, margin, zoom, Dot(y, x, i, j))
  {
    hide Offset;
    var next := Dot(y, x, i, j);
    if PaintedBefore(m, margin, zoom, o, y, x, i, j + 1) {
      var d :| Before(d, y, x, i, j + 1) && Paints(m, margin, zoom, d, o);
      assert d == next || Before(d, y, x, i, j);
    }
    if o == Offset(m.width, margin, zoom, next) {
      assert Before(next, y, x, i, j + 1) && Paints(m, margin, zoom, next, o);
    }
    if PaintedBefore(m, margin, zoom, o, y, x, i, j) {
      var d :| Before(d, y, x, i, j) && Paints(m, margin, zoom, d, o);
      assert Before(d, y, x, i, j + 1);
    }
  }

  /** One call of `set_xy` in the inner loop. */
  lemma StageDot(m: Matrix, margin: int, zoom: int, y: nat, x: nat, i: nat, j: nat)
    requires m.Valid() && m.Dark(y, x)
    requires i < zoom && j < zoom
    ensures Stage(m, margin, zoom, y, x, i, j + 1) ==
            Painted(Stage(m, margin, zoom, y, x, i, j), Offset(m.width, margin, zoom, Dot(y, x, i, j)))
  {
    hide Side, Offset, PaintedBefore;
    var o := Offset(m.width, margin, zoom, Dot(y, x, i, j));
    var before, after := Stage(m, margin, zoom, y, x, i, j), Stage(m, margin, zoom, y, x, i, j + 1);
    forall k | 0 <= k < |after|
      ensures after[k] == Painted(before, o)[k]
    {
      PaintedNext(m, margin, zoom, k / 3, y, x, i, j);
    }
  }

  /** The pixel is still white when its dot is reached. */
  lemma DotIsFresh(m: Matrix, margin: int, zoom: int, y: nat, x: nat, i: nat, j: nat)
    requires m.Valid() && m.Dark(y, x) && KeepsInside(m.width, margin, zoom)
    requires i < zoom && j < zoom
    ensures var o, s := Offset(m.width, margin, zoom, Dot(y, x, i, j)), Stage(m, margin, zoom, y, x, i, j);
            0 <= o && o * 3 + 2 < |s| && forall k | o * 3 <= k < o * 3 + 3 :: s[k] == 255
  {
    hide Side, Offset;
    var next := Dot(y, x, i, j);
    var o := Offset(m.width, margin, zoom, next);
    OffsetInside(m.width, margin, zoom, next);
    if PaintedBefore(m, margin, zoom, o, y, x, i, j) {
      var d :| Before(d, y, x, i, j) && Paints(m, margin, zoom, d, o);
      OffsetsDiffer(m.width, margin, zoom, d, next);
    }
  }

  /** Stages that have the same dots behind them are equal. */
  lemma SameStage(m: Matrix, margin: int, zoom: int,
                  y: nat, x: nat, i: nat, j: nat, y': nat, x': nat, i': nat, j': nat)
    requires m.Valid()
    requires forall d | IsDot(m.width, zoom, d) && m.Dark(d.y, d.x) ::
               Before(d, y, x, i, j) <==> Before(d, y', x', i', j')
    ensures Stage(m, margin, zoom, y, x, i, j) == Stage(m, margin, zoom, y', x', i', j')
  {
    hide Side, Offset, Before;
    var s, t := Stage(m, margin, zoom, y, x, i, j), Stage(m, margin, zoom, y', x', i', j');
    forall k | 0 <= k < |s| ensures s[k] == t[k] {
      if PaintedBefore(m, margin, zoom, k / 3, y, x, i, j) {
        var d :| Before(d, y, x, i, j) && Paints(m, margin, zoom, d, k / 3);
        assert Before(d, y', x', i', j');
      }
      if PaintedBefore(m, margin, zoom, k / 3, y', x', i', j') {
        var d :| Before(d, y', x', i', j') && Paints(m, margin, zoom, d, k / 3);
        assert Before(d, y, x, i, j);
      }
    }
  }

  // --- the program ---

  predicate Fits(v: int) {
    -INT32_MAX - 1 <= v <= INT32_MAX
  }

  /** The results of every int32 operation of `qr_code_to_rbg`: the scaled margin, the sides, the size of the buffer,
      which also bounds the offsets and the byte positions, and the index into the module matrix. */
  predicate NoOverflow(w: nat, margin: int, zoom: int) {
    var side := Side(w, margin, zoom);
    && Fits(margin * zoom)
    && Fits(w * zoom)
    && Fits(2 * (margin * zoom))
    && Fits(side)
    && Fits(side * side)
    && Fits(side * side * 3)
    && Fits(w * w)
  }

  /** The results of the int32 operations of one call of `set_xy`. */
  lemma DotFits(w: nat, margin: int, zoom: int, d: Place)
    requires IsDot(w, zoom, d) && KeepsInside(w, margin, zoom) && NoOverflow(w, margin, zoom)
    ensures 0 <= d.x * zoom <= d.x * zoom + d.i < w * zoom
    ensures 0 <= d.y * zoom <= d.y * zoom + d.j < w * zoom
    ensures Fits(Column(w, margin, zoom, d)) && Fits(Row(w, margin, zoom, d))
    ensures Fits(Row(w, margin, zoom, d) * Side(w, margin, zoom))
  {
    hide Offset, KeepsInside, Side, Row, Column;
    DotInModule(w, zoom, d);
    OffsetInside(w, margin, zoom, d);
    RowOfOffset(w, margin, zoom, d);
    RowAndColumnBounds(w, margin, zoom, d);
    SquareAtLeast(Side(w, margin, zoom));
  }

  lemma DotInModule(w: nat, zoom: int, d: Place)
    requires IsDot(w, zoom, d)
    ensures 0 <= d.x * zoom <= d.x * zoom + d.i < w * zoom
    ensures 0 <= d.y * zoom <= d.y * zoom + d.j < w * zoom
  {
    IndexInGrid(d.x, d.i, w, zoom);
    IndexInGrid(d.y, d.j, w, zoom);
  }

  lemma RowOfOffset(w: nat, margin: int, zoom: int, d: Place)
    requires d.Dot?
    ensures Row(w, margin, zoom, d) * Side(w, margin, zoom) == Offset(w, margin, zoom, d) - Column(w, margin, zoom, d)
  {
  }

  lemma RowAndColumnBounds(w: nat, margin: int, zoom: int, d: Place)
    requires IsDot(w, zoom, d) && KeepsInside(w, margin, zoom)
    ensures var row, column, side := Row(w, margin, zoom, d), Column(w, margin, zoom, d), Side(w, margin, zoom);
            if margin >= 0 then 0 <= row < side && 0 <= column < side else side <= row < 0 && side <= column < 0
  {
    DotInModule(w, zoom, d);
    if margin >= 0 {
      MulNonNegative(margin, zoom);
    } else {
      FarNegative(w, margin, zoom);
    }
  }

  lemma FarNegative(w: nat, margin: int, zoom: int)
    requires margin + w <= 0 && 0 <= zoom
    ensures margin * zoom <= -(w * zoom)
  {
    MulNonNegative(-margin - w, zoom);
    assert (-margin - w) * zoom == -(margin * zoom) - w * zoom;
  }

  lemma SquareAtLeast(a: int)
    ensures a <= a * a && -a <= a * a
  {
    if a >= 1 {
      MulMonotone(a, 1, a);
    } else if a <= -1 {
      MulMonotone(-a, 1, -a);
      SquareOfNegative(a);
    }
  }

  /** The `klib::RGB` object. */
  datatype Rgb = Rgb(rgb: array<byte>, width: int32, height: int32)

  /** The lambda `set_xy`. Its bounds test skips what lies behind the buffer; that nothing lies in front of it is up to
      the caller. */
  method SetXY(rgb: array<byte>, margin: int32, width: int32, height: int32, x: int32, y: int32)
    requires width as int * height as int * 3 == rgb.Length <= INT32_MAX
    requires Fits(x as int + margin as int) && Fits(y as int + margin as int)
    requires Fits((y as int + margin as int) * width as int)
    requires 0 <= (y as int + margin as int) * width as int + (x as int + margin as int) <= INT32_MAX
    modifies rgb
    ensures rgb[..] == Painted(old(rgb[..]), (y as int + margin as int) * width as int + (x as int + margin as int))
  {
    var offset := (y + margin) * width + (x + margin);
    if offset >= width * height {
      return;
    }
    var ptr := offset * 3;
    rgb[ptr] := 0;
    rgb[ptr + 1] := 0;
    rgb[ptr + 2] := 0;
  }

  /** `qr_code_to_rbg`, given what the qrencode library returned, where `None` stands for its null pointer. */
  method QrCodeToRgb(qr: Option<Matrix>, margin: int32, zoom: int32) returns (r: Result<Rgb>)
    requires qr.Some? ==>
               && qr.value.Valid()
               && KeepsInside(qr.value.width, margin as int, zoom as int)
               && NoOverflow(qr.value.width, margin as int, zoom as int)
    ensures qr.None? ==> r == RuntimeError
    ensures qr.Some? ==>
              && r.Ok?
              && fresh(r.value.rgb)
              && r.value.width as int == r.value.height as int
              && r.value.width as int == qr.value.width * zoom as int + 2 * (margin as int * zoom as int)
              && r.value.rgb[..] == Image(qr.value, margin as int, zoom as int)
  {
    if qr.None? {
      return RuntimeError;
    }
    hide Stage, Before, Painted;
    var m := qr.value;
    ghost var mg, z := margin as int, zoom as int;
    MulMonotone(m.width, 1, m.width);
    var scaled := margin * zoom;
    var qrSize := m.width as int32;
    var width := qrSize * zoom + 2 * scaled;
    var height := qrSize * zoom + 2 * scaled;
    SquareNonNegative(width as int);
    var size := width * height * 3;
    var rgb := new byte[size as int](_ => 255);
    StageStart(m, mg, z);
    var y: int32 := 0;
    while y < qrSize
      invariant 0 <= y <= qrSize
      invariant rgb[..] == Stage(m, mg, z, y as int, 0, 0, 0)
    {
      var x: int32 := 0;
      while x < qrSize
        invariant 0 <= x <= qrSize
        invariant rgb[..] == Stage(m, mg, z, y as int, x as int, 0, 0)
      {
        IndexInGrid(y as int, x as int, m.width, m.width);
        if m.data[y * qrSize + x] % 2 == 1 {
          PaintModule(rgb, m, margin, zoom, scaled, width, height, x, y);
        } else {
          LightModule(m, mg, z, y as int, x as int);
        }
        x := x + 1;
      }
      RowDone(m, mg, z, y as int);
      y := y + 1;
    }
    return Ok(Rgb(rgb, width, height));
  }

  lemma LightModule(m: Matrix, margin: int, zoom: int, y: nat, x: nat)
    requires m.Valid() && !m.Dark(y, x)
    ensures Stage(m, margin, zoom, y, x, 0, 0) == Stage(m, margin, zoom, y, x + 1, 0, 0)
  {
    SameStage(m, margin, zoom, y, x, 0, 0, y, x + 1, 0, 0);
  }

  lemma ModuleDone(m: Matrix, margin: int, zoom: int, y: nat, x: nat, i: nat)
    requires m.Valid() && i >= zoom
    ensures Stage(m, margin, zoom, y, x, i, 0) == Stage(m, margin, zoom, y, x + 1, 0, 0)
  {
    SameStage(m, margin, zoom, y, x, i, 0, y, x + 1, 0, 0);
  }

  lemma DotsDone(m: Matrix, margin: int, zoom: nat, y: nat, x: nat, i: nat)
    requires m.Valid()
    ensures Stage(m, margin, zoom, y, x, i, zoom) == Stage(m, margin, zoom, y, x, i + 1, 0)
  {
    SameStage(m, margin, zoom, y, x, i, zoom, y, x, i + 1, 0);
  }

  lemma RowDone(m: Matrix, margin: int, zoom: int, y: nat)
    requires m.Valid()
    ensures Stage(m, margin, zoom, y, m.width, 0, 0) == Stage(m, margin, zoom, y + 1, 0, 0, 0)
  {
    SameStage(m, margin, zoom, y, m.width, 0, 0, y + 1, 0, 0, 0);
  }

  /** The two inner loops of `qr_code_to_rbg`: the zoomed square of one dark module. */
  method PaintModule(rgb: array<byte>, ghost m: Matrix, ghost margin: int32, zoom: int32,
                     scaled: int32, width: int32, height: int32, x: int32, y: int32)
    requires m.Valid() && 0 <= x && 0 <= y && m.Dark(y as int, x as int)
    requires KeepsInside(m.width, margin as int, zoom as int) && NoOverflow(m.width, margin as int, zoom as int)
    requires scaled as int == margin as int * zoom as int
    requires width as int == height as int == Side(m.width, margin as int, zoom as int)
    requires rgb[..] == Stage(m, margin as int, zoom as int, y as int, x as int, 0, 0)
    modifies rgb
    ensures rgb[..] == Stage(m, margin as int, zoom as int, y as int, x as int + 1, 0, 0)
  {
    hide Stage, Painted, KeepsInside;
    ghost var mg, z, yy: nat, xx: nat := margin as int, zoom as int, y as int, x as int;
    var i: int32 := 0;
    while i < zoom
      invariant 0 <= i && (i <= zoom || i == 0)
      invariant rgb[..] == Stage(m, mg, z, yy, xx, i as int, 0)
    {
      var j: int32 := 0;
      while j < zoom
        invariant 0 <= j <= zoom
        invariant rgb[..] == Stage(m, mg, z, yy, xx, i as int, j as int)
      {
        ghost var d := Dot(yy, xx, i as int, j as int);
        StageDot(m, mg, z, yy, xx, i as int, j as int);
        DotFits(m.width, mg, z, d);
        OffsetInside(m.width, mg, z, d);
        SetXY(rgb, scaled, width, height, x * zoom + i, y * zoom + j);
        j := j + 1;
      }
      DotsDone(m, mg, z, yy, xx, i as int);
      i := i + 1;
    }
    ModuleDone(m, mg, z, yy, xx, i as int);
  }

  // --- exactly when the writes stay inside the buffer ---

  /** `set_xy` writes at every offset below the number of pixels; a negative one lies in front of the buffer. */
  ghost predicate WritesInside(m: Matrix, margin: int, zoom: int)
    requires m.Valid()
  {
    var side := Side(m.width, margin, zoom);
    forall d, o | Paints(m, margin, zoom, d, o) && o < side * side :: 0 <= o
  }

  /** A QR code with a margin of -1: the upper left corner of its first finder pattern is written `width - 1` pixels in
      front of the buffer. */
  lemma WriteInFrontOfTheBuffer(m: Matrix)
    requires m.Valid() && m.width >= 2 && m.Dark(0, 0)
    ensures Paints(m, -1, 1, Dot(0, 0, 0, 0), 1 - m.width)
    ensures !WritesInside(m, -1, 1)
  {
    hide Matrix.Valid, Matrix.Dark, WritesInside, Paints;
    CornerOfMinusOne(m.width, -1, 1);
    PaintsInFront(m, -1, 1, Dot(0, 0, 0, 0));
  }

  lemma CornerOfMinusOne(w: nat, margin: int, zoom: int)
    requires margin == -1 && zoom == 1
    ensures Offset(w, margin, zoom, Dot(0, 0, 0, 0)) == 1 - w
  {
    assert Side(w, margin, zoom) == w - 2;
  }

  lemma PaintsInFront(m: Matrix, margin: int, zoom: int, d: Place)
    requires m.Valid() && IsDot(m.width, zoom, d) && m.Dark(d.y, d.x)
    requires Offset(m.width, margin, zoom, d) < 0
    ensures Paints(m, margin, zoom, d, Offset(m.width, margin, zoom, d))
    ensures !WritesInside(m, margin, zoom)
  {
    hide Offset, Side, Matrix.Dark, Matrix.Valid;
    SquareNonNegative(Side(m.width, margin, zoom));
    assert Paints(m, margin, zoom, d, Offset(m.width, margin, zoom, d));
  }

  /** A QR code has dark corners at the upper and the lower left. On such a matrix every write of the four loops is
      inside the buffer exactly when no loop runs, or the margin is not negative, or it is at most -width. */
  lemma WritesInsideExactly(m: Matrix, margin: int, zoom: int)
    requires m.Valid() && m.Dark(0, 0) && m.Dark(m.width - 1, 0)
    ensures WritesInside(m, margin, zoom) <==> KeepsInside(m.width, margin, zoom)
  {
    var w := m.width;
    if KeepsInside(w, margin, zoom) {
      forall d, o | Paints(m, margin, zoom, d, o) ensures 0 <= o {
        OffsetInside(w, margin, zoom, d);
      }
    } else {
      var up, low := Dot(0, 0, 0, 0), Dot(w - 1, 0, 0, 0);
      CornerOffsets(w, margin, zoom);
      PaintsInFront(m, margin, zoom, if Offset(w, margin, zoom, up) < 0 then up else low);
    }
  }

  lemma CornerOffsets(w: nat, margin: int, zoom: int)
    requires w >= 1 && !KeepsInside(w, margin, zoom)
    ensures Offset(w, margin, zoom, Dot(0, 0, 0, 0)) < 0 || Offset(w, margin, zoom, Dot(w - 1, 0, 0, 0)) < 0
  {
    var a, side := -margin * zoom, Side(w, margin, zoom);
    assert margin * zoom == -a;
    MultipleAtLeast(-margin, zoom);
    if side >= 0 {
      MulNonNegative(a, side);
      assert Offset(w, margin, zoom, Dot(0, 0, 0, 0)) == -(a * side) - a;
    } else {
      var r := (w - 1) * zoom - a;
      assert r == (w - 1 + margin) * zoom;
      MulNonNegative(w - 1 + margin, zoom);
      MulNonNegative(r, -side);
      assert Offset(w, margin, zoom, Dot(w - 1, 0, 0, 0)) == -(r * -side) - a;
    }
  }

  // --- what the image is ---

  lemma ImageAt(m: Matrix, margin: nat, zoom: nat, o: nat)
    requires m.Valid()
    ensures PaintedBefore(m, margin, zoom, o, m.width, 0, 0, 0) <==>
            var d := PlaceAt(m.width, margin, zoom, o); d.Dot? && m.Dark(d.y, d.x)
  {
    hide Offset, PlaceAt;
    var place := PlaceAt(m.width, margin, zoom, o);
    if PaintedBefore(m, margin, zoom, o, m.width, 0, 0, 0) {
      var d :| Before(d, m.width, 0, 0, 0) && Paints(m, margin, zoom, d, o);
      DotHasPixel(m.width, margin, zoom, d);
    }
    if place.Dot? && m.Dark(place.y, place.x) {
      PixelHasOneDot(m.width, margin, zoom, o);
      assert Before(place, m.width, 0, 0, 0) && Paints(m, margin, zoom, place, o);
    }
  }

  /** The module that shows at (u, v) inside the border is one of the matrix. */
  lemma ModuleIndex(m: Matrix, zoom: nat, u: int, v: int)
    requires m.Valid() && 0 <= u < m.width * zoom && 0 <= v < m.width * zoom
    ensures zoom > 0
    ensures 0 <= v / zoom * m.width + u / zoom < |m.data|
  {
    QuotientInside(u, m.width, zoom);
    QuotientInside(v, m.width, zoom);
    IndexInGrid(v / zoom, u / zoom, m.width, m.width);
  }

  /** Pixel-exact: all three bytes of pixel (px, py) are 0 when it lies inside the border on a module whose byte is odd,
      and 255 otherwise. */
  lemma ImagePixel(m: Matrix, margin: nat, zoom: nat, px: nat, py: nat, c: nat)
    requires m.Valid() && c < 3
    requires px < m.width * zoom + 2 * (margin * zoom) && py < m.width * zoom + 2 * (margin * zoom)
    ensures var b := margin * zoom;
            b <= px < b + m.width * zoom && b <= py < b + m.width * zoom ==>
              zoom > 0 && 0 <= (py - b) / zoom * m.width + (px - b) / zoom < |m.data|
    ensures var side, b := m.width * zoom + 2 * (margin * zoom), margin * zoom;
            var k := (py * side + px) * 3 + c;
            && |Image(m, margin, zoom)| == side * side * 3
            && 0 <= k < |Image(m, margin, zoom)|
            && Image(m, margin, zoom)[k] ==
               if b <= px < b + m.width * zoom && b <= py < b + m.width * zoom
                  && m.data[(py - b) / zoom * m.width + (px - b) / zoom] % 2 == 1
               then 0 else 255
  {
    hide PaintedBefore;
    var side, b := Side(m.width, margin, zoom), margin * zoom;
    if b <= px < b + m.width * zoom && b <= py < b + m.width * zoom {
      ModuleIndex(m, zoom, px - b, py - b);
    }
    IndexInGrid(py, px, side, side);
    DivModUnique(py * side + px, side, py, px);
    ImageAt(m, margin, zoom, py * side + px);
    if zoom > 0 && px >= b && py >= b {
      QuotientInside(px - b, m.width, zoom);
      QuotientInside(py - b, m.width, zoom);
    }
  }

  /** With a margin of -w or less the buffer holds the picture that the margin -margin - w gives, rows upside down
      (and the object says that its width and height are negative). */
  lemma FarNegativeMarginMirrors(m: Matrix, margin: int, zoom: nat, px: nat, py: nat, c: nat)
    requires m.Valid() && c < 3 && margin + m.width <= 0
    requires px < Side(m.width, -margin - m.width, zoom) && py < Side(m.width, -margin - m.width, zoom)
    ensures var other := -margin - m.width;
            var side := Side(m.width, other, zoom);
            var k, mirrored := (py * side + px) * 3 + c, ((side - 1 - py) * side + px) * 3 + c;
            && Side(m.width, margin, zoom) == -side
            && 0 <= k < |Image(m, other, zoom)| && 0 <= mirrored < |Image(m, margin, zoom)|
            && Image(m, margin, zoom)[mirrored] == Image(m, other, zoom)[k]
  {
    hide PaintedBefore;
    var other := -margin - m.width;
    var side := Side(m.width, other, zoom);
    MirroredOffset(m.width, margin, zoom, Dot(0, 0, 0, 0));
    IndexInGrid(py, px, side, side);
    IndexInGrid(side - 1 - py, px, side, side);
    SquareOfNegative(side);
    MirroredPixel(m, margin, zoom, px, py);
  }

  lemma MirroredPixel(m: Matrix, margin: int, zoom: nat, px: nat, py: nat)
    requires m.Valid() && margin + m.width <= 0
    requires px < Side(m.width, -margin - m.width, zoom) && py < Side(m.width, -margin - m.width, zoom)
    ensures var side := Side(m.width, -margin - m.width, zoom);
            PaintedBefore(m, margin, zoom, (side - 1 - py) * side + px, m.width, 0, 0, 0) <==>
            PaintedBefore(m, -margin - m.width, zoom, py * side + px, m.width, 0, 0, 0)
  {
    hide Side, Row, Column, Before;
    var w, other := m.width, -margin - m.width;
    var side := Side(w, other, zoom);
    var o, o' := py * side + px, (side - 1 - py) * side + px;
    if PaintedBefore(m, margin, zoom, o', w, 0, 0, 0) {
      var d :| Before(d, w, 0, 0, 0) && Paints(m, margin, zoom, d, o');
      MirroredOffset(w, margin, zoom, d);
      DotHasPixel(w, other, zoom, d);
      DivModUnique(o', side, side - 1 - Row(w, other, zoom, d), Column(w, other, zoom, d));
      DivModUnique(o', side, side - 1 - py, px);
      assert Before(d, w, 0, 0, 0) && Paints(m, other, zoom, d, o);
    }
    if PaintedBefore(m, other, zoom, o, w, 0, 0, 0) {
      var d :| Before(d, w, 0, 0, 0) && Paints(m, other, zoom, d, o);
      MirroredOffset(w, margin, zoom, d);
      DotHasPixel(w, other, zoom, d);
      DivModUnique(o, side, Row(w, other, zoom, d), Column(w, other, zoom, d));
      DivModUnique(o, side, py, px);
      assert Before(d, w, 0, 0, 0) && Paints(m, margin, zoom, d, o');
    }
  }

  lemma QuotientInside(n: nat, w: nat, zoom: nat)
    requires 0 < zoom
    ensures n / zoom < w <==> n < w * zoom
  {
    MulMonotone(n / zoom, w, zoom);
    MulMonotone(w, n / zoom + 1, zoom);
    assert n == n / zoom * zoom + n % zoom;
  }

  function CountZeros(s: seq<byte>): nat {
    if s == [] then 0 else (if s[0] == 0 then 1 else 0) + CountZeros(s[1..])
  }

  /** How many dark modules there are before column x of row y, row by row. */
  ghost function DarkBefore(m: Matrix, y: nat, x: nat): nat
    requires m.Valid()
    decreases y, x
  {
    if x > 0 then DarkBefore(m, y, x - 1) + (if m.Dark(y, x - 1) then 1 else 0)
    else if y > 0 then DarkBefore(m, y - 1, m.width)
    else 0
  }

  lemma {:induction false} CountZerosOfNone(s: seq<byte>)
    requires forall k | 0 <= k < |s| :: s[k] == 255
    ensures CountZeros(s) == 0
  {
    if s != [] {
      CountZerosOfNone(s[1..]);
    }
  }

  lemma {:induction false} CountZerosUpdate(s: seq<byte>, k: nat)
    requires k < |s| && s[k] != 0
    ensures CountZeros(s[k := 0]) == CountZeros(s) + 1
  {
    if k > 0 {
      CountZerosUpdate(s[1..], k - 1);
      assert s[k := 0][1..] == s[1..][k - 1 := 0];
    } else {
      assert s[k := 0][1..] == s[1..];
    }
  }

  lemma CountZerosPainted(s: seq<byte>, o: nat)
    requires o * 3 + 2 < |s|
    requires forall k | o * 3 <= k < o * 3 + 3 :: s[k] == 255
    ensures CountZeros(Painted(s, o)) == CountZeros(s) + 3
  {
    hide CountZeros;
    var k := o * 3;
    var s1 := s[k := 0];
    var s2 := s1[k + 1 := 0];
    CountZerosUpdate(s, k);
    CountZerosUpdate(s1, k + 1);
    CountZerosUpdate(s2, k + 2);
  }

  lemma OneMore(a: int, n: int)
    ensures a * n + a == a * (n + 1)
  {
  }

  /** No pixel is painted twice, so the zero bytes grow by three with every dot. */
  lemma {:induction false} ZerosOfStage(m: Matrix, margin: int, zoom: nat, y: nat, x: nat, i: nat, j: nat)
    requires m.Valid() && KeepsInside(m.width, margin, zoom)
    requires x <= m.width && i <= zoom && j <= zoom
    requires (i > 0 || j > 0) ==> m.Dark(y, x)
    requires j > 0 ==> i < zoom
    ensures CountZeros(Stage(m, margin, zoom, y, x, i, j)) == 3 * (zoom * zoom * DarkBefore(m, y, x) + zoom * i + j)
    decreases y, x, i, j
  {
    hide Stage, Offset, Side, CountZeros, Painted;
    if j > 0 {
      ZerosOfStage(m, margin, zoom, y, x, i, j - 1);
      StageDot(m, margin, zoom, y, x, i, j - 1);
      DotIsFresh(m, margin, zoom, y, x, i, j - 1);
      CountZerosPainted(Stage(m, margin, zoom, y, x, i, j - 1), Offset(m.width, margin, zoom, Dot(y, x, i, j - 1)));
    } else if i > 0 {
      ZerosOfStage(m, margin, zoom, y, x, i - 1, zoom);
      DotsDone(m, margin, zoom, y, x, i - 1);
      OneMore(zoom, i - 1);
    } else if x > 0 {
      var n := DarkBefore(m, y, x - 1);
      if m.Dark(y, x - 1) {
        ZerosOfStage(m, margin, zoom, y, x - 1, zoom, 0);
        ModuleDone(m, margin, zoom, y, x - 1, zoom);
        OneMore(zoom * zoom, n);
      } else {
        ZerosOfStage(m, margin, zoom, y, x - 1, 0, 0);
        LightModule(m, margin, zoom, y, x - 1);
      }
    } else if y > 0 {
      ZerosOfStage(m, margin, zoom, y - 1, m.width, 0, 0);
      RowDone(m, margin, zoom, y - 1);
    } else {
      StageStart(m, margin, zoom);
      CountZerosOfNone(Stage(m, margin, zoom, 0, 0, 0, 0));
    }
  }

  /** Conservation: the image holds three zero bytes for every pixel of every dark module, and no others; with a
      negative zoom it holds none. */
  lemma PixelConservation(m: Matrix, margin: int, zoom: int)
    requires m.Valid() && KeepsInside(m.width, margin, zoom)
    ensures CountZeros(Image(m, margin, zoom)) ==
            if zoom < 0 then 0 else 3 * (zoom * zoom * DarkBefore(m, m.width, 0))
  {
    if zoom < 0 {
      SameStage(m, margin, zoom, m.width, 0, 0, 0, 0, 0, 0, 0);
      StageStart(m, margin, zoom);
      CountZerosOfNone(Image(m, margin, zoom));
    } else {
      ZerosOfStage(m, margin, zoom, m.width, 0, 0, 0);
    }
  }

  /** The exact limit of the int32 arithmetic: a side of 26754 still works, one of 26755 does not. */
  lemma OverflowLimit(w: nat, margin: int, zoom: int)
    requires zoom >= 1 && KeepsInside(w, margin, zoom)
    ensures NoOverflow(w, margin, zoom) <==> -26754 <= Side(w, margin, zoom) <= 26754
  {
    var side := Side(w, margin, zoom);
    MulNonNegative(w, zoom);
    MulMonotone(zoom, 1, w);
    if margin >= 0 {
      MulNonNegative(margin, zoom);
      SquareLimit(side, w);
    } else {
      FarNegative(w, margin, zoom);
      SquareOfNegative(side);
      SquareLimit(-side, w);
    }
  }

  lemma SquareLimit(size: int, w: nat)
    requires 0 <= w <= size
    ensures if size <= 26754 then size * size * 3 <= INT32_MAX && w * w <= INT32_MAX && 0 <= size * size
            else size * size * 3 > INT32_MAX
  {
    if size <= 26754 {
      SquareMonotone(size, 26754);
      SquareMonotone(w, 26754);
    } else {
      SquareMonotone(26755, size);
    }
  }

  lemma SquareMonotone(a: nat, b: nat)
    requires a <= b
    ensures a * a <= b * b
  {
  }
}
