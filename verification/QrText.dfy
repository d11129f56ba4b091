/** The text renderer of src/qr_code.cpp, and why it shows the same picture as the RGB renderer. */
module QrText {
  import opened Prelude
  import Utf8
  import opened QrImage

  type CodePoint = Utf8.CodePoint

  const NEW_LINE: CodePoint := 0x0A
  const EMPTY: CodePoint := 0x20
  const UP_HALF: CodePoint := 0x2580
  const LOW_HALF: CodePoint := 0x2584
  const FULL: CodePoint := 0x2588

  // --- the text, character by character ---

  /** The glyph that paints its upper half when `upper` and its lower half when `lower`. */
  function Glyph(upper: bool, lower: bool): CodePoint {
    if upper then (if lower then FULL else UP_HALF)
    else if lower then LOW_HALF else EMPTY
  }

  predicate PaintsUpper(c: CodePoint) {
    c == FULL || c == UP_HALF
  }

  predicate PaintsLower(c: CodePoint) {
    c == FULL || c == LOW_HALF
  }

  function Columns(m: Matrix, margin: nat): nat {
    m.width + 2 * margin
  }

  function Lines(m: Matrix, margin: nat): nat {
    (m.width + 1) / 2 + 2 * (margin / 2)
  }

  /** The character in a column of a line; the column past the last glyph holds the line end. A line shows the
      matrix rows 2 * (line - margin / 2) and the one below, and what is no dark module is painted. */
  function CharAt(m: Matrix, margin: nat, line: int, column: int): (c: CodePoint)
    requires m.Valid()
    ensures Utf8.IsScalar(c)
  {
    if column == Columns(m, margin) then NEW_LINE
    else
      var y, x := 2 * (line - margin / 2), column - margin;
      Glyph(!m.Dark(y, x), !m.Dark(y + 1, x))
  }

  ghost function TextChars(m: Matrix, margin: nat): (cs: seq<CodePoint>)
    requires m.Valid()
    ensures |cs| == Lines(m, margin) * (Columns(m, margin) + 1)
  {
    var stride := Columns(m, margin) + 1;
    MulNonNegative(Lines(m, margin), stride);
    seq(Lines(m, margin) * stride, k requires 0 <= k => CharAt(m, margin, k / stride, k % stride))
  }

  lemma TextCharsAreScalar(m: Matrix, margin: nat)
    requires m.Valid()
    ensures Utf8.AllScalar(TextChars(m, margin))
  {
  }

  lemma CharInText(m: Matrix, margin: nat, line: nat, column: nat)
    requires m.Valid()
    requires line < Lines(m, margin) && column <= Columns(m, margin)
    ensures var k := line * (Columns(m, margin) + 1) + column;
            && 0 <= k < |TextChars(m, margin)|
            && TextChars(m, margin)[k] == CharAt(m, margin, line, column)
  {
    var stride := Columns(m, margin) + 1;
    IndexInGrid(line, column, Lines(m, margin), stride);
    DivModUnique(line * stride + column, stride, line, column);
  }

  /** The bytes written when the loops stand at a column of a line. */
  ghost function Written(m: Matrix, margin: nat, line: nat, column: nat): Bytes
    requires m.Valid()
    decreases line, column
  {
    if column > 0 then Written(m, margin, line, column - 1) + Utf8.EncodeOne(CharAt(m, margin, line, column - 1))
    else if line > 0 then Written(m, margin, line - 1, Columns(m, margin) + 1)
    else []
  }

  lemma {:induction false} WrittenIsEncoded(m: Matrix, margin: nat, line: nat, column: nat, k: nat)
    requires m.Valid()
    requires line <= Lines(m, margin) && column <= Columns(m, margin) + 1
    requires line == Lines(m, margin) ==> column == 0
    requires k == line * (Columns(m, margin) + 1) + column
    ensures k <= |TextChars(m, margin)| && Utf8.AllScalar(TextChars(m, margin)[..k])
    ensures Written(m, margin, line, column) == Utf8.Encode(TextChars(m, margin)[..k])
    decreases line, column
  {
    hide CharAt, Utf8.Encode, Utf8.EncodeOne, TextChars, Lines, Columns;
    var stride, cs := Columns(m, margin) + 1, TextChars(m, margin);
    TextCharsAreScalar(m, margin);
    if column > 0 {
      CharInText(m, margin, line, column - 1);
      WrittenIsEncoded(m, margin, line, column - 1, k - 1);
      EncodeNext(cs, k - 1);
    } else if line > 0 {
      assert (line - 1) * stride + stride == line * stride;
      WrittenIsEncoded(m, margin, line - 1, stride, k);
    } else {
      EncodeNothing();
    }
  }

  lemma EncodeNothing()
    ensures Utf8.Encode([]) == []
  {
  }

  lemma AllWritten(m: Matrix, margin: nat)
    requires m.Valid()
    ensures Written(m, margin, Lines(m, margin), 0) == TextOf(m, margin)
  {
    hide Lines, Columns, Utf8.Encode, Written;
    var lines, stride := Lines(m, margin), Columns(m, margin) + 1;
    MulNonNegative(lines, stride);
    WrittenIsEncoded(m, margin, lines, 0, lines * stride);
    assert TextChars(m, margin)[..lines * stride] == TextChars(m, margin);
  }

  /** Around the matrix everything is painted. */
  lemma MarginChars(m: Matrix, margin: nat, line: nat, column: nat)
    requires m.Valid()
    requires column < Columns(m, margin)
    requires || line < margin / 2 || line >= margin / 2 + (m.width + 1) / 2
             || column < margin || column >= margin + m.width
    ensures CharAt(m, margin, line, column) == FULL
  {
  }

  lemma MatrixChars(m: Matrix, margin: nat, y: nat, x: nat)
    requires m.Valid()
    requires y % 2 == 0 && y < m.width && x < m.width
    ensures CharAt(m, margin, margin / 2 + y / 2, margin + x) == Glyph(!m.Dark(y, x), !m.Dark(y + 1, x))
  {
  }

  lemma LineEnd(m: Matrix, margin: nat, line: nat)
    requires m.Valid()
    ensures CharAt(m, margin, line, Columns(m, margin)) == NEW_LINE
  {
  }

  lemma EncodeNext(cs: seq<CodePoint>, k: nat)
    requires Utf8.AllScalar(cs) && k < |cs|
    ensures Utf8.AllScalar(cs[..k]) && Utf8.AllScalar(cs[..k + 1])
    ensures Utf8.Encode(cs[..k + 1]) == Utf8.Encode(cs[..k]) + Utf8.EncodeOne(cs[k])
  {
    assert cs[..k + 1] == cs[..k] + [cs[k]];
    Utf8.EncodeAppend(cs[..k], [cs[k]]);
    Utf8.EncodeSingle(cs[k]);
  }

  /** The finished text. */
  ghost function TextOf(m: Matrix, margin: nat): Bytes
    requires m.Valid()
  {
    TextCharsAreScalar(m, margin);
    Utf8.Encode(TextChars(m, margin))
  }

  // --- the program ---

  const EMPTY_BYTES: Bytes := [0x20]
  const UP_HALF_BYTES: Bytes := [0xE2, 0x96, 0x80]
  const LOW_HALF_BYTES: Bytes := [0xE2, 0x96, 0x84]
  const FULL_BYTES: Bytes := [0xE2, 0x96, 0x88]
  const NEW_LINE_BYTES: Bytes := [0x0A]

  lemma GlyphBytes()
    ensures Utf8.EncodeOne(EMPTY) == EMPTY_BYTES
    ensures Utf8.EncodeOne(UP_HALF) == UP_HALF_BYTES
    ensures Utf8.EncodeOne(LOW_HALF) == LOW_HALF_BYTES
    ensures Utf8.EncodeOne(FULL) == FULL_BYTES
    ensures Utf8.EncodeOne(NEW_LINE) == NEW_LINE_BYTES
  {
  }

  /** A negative margin prints like none. */
  function Effective(margin: int): nat {
    if margin < 0 then 0 else margin
  }

  /** `print_margin`, called when the text stands at the start of `line`, above or below the matrix. */
  method PrintMargin(text: Bytes, realWidth: int32, margin: int32, ghost m: Matrix, ghost line: nat)
      returns (result: Bytes)
    requires m.Valid() && realWidth as int == m.width + 2 * margin as int
    requires line == 0 || line == Effective(margin as int) / 2 + (m.width + 1) / 2
    requires text == Written(m, Effective(margin as int), line, 0)
    ensures result == Written(m, Effective(margin as int), line + Effective(margin as int) / 2, 0)
  {
    hide CharAt, Utf8.EncodeOne;
    ghost var mg := Effective(margin as int);
    GlyphBytes();
    result := text;
    var y: int32 := 0;
    while y < margin / 2
      invariant 0 <= y && y as int <= mg / 2
      invariant result == Written(m, mg, line + y as int, 0)
    {
      var x: int32 := 0;
      while x < realWidth
        invariant 0 <= x <= realWidth
        invariant result == Written(m, mg, line + y as int, x as int)
      {
        MarginChars(m, mg, line + y as int, x as int);
        result := result + FULL_BYTES;
        x := x + 1;
      }
      LineEnd(m, mg, line + y as int);
      result := result + NEW_LINE_BYTES;
      y := y + 1;
    }
  }

  /** The int32 arithmetic of `qr_code_to_utf8` stays in range. */
  predicate NoTextOverflow(w: nat, margin: int) {
    && w * w <= INT32_MAX
    && -INT32_MAX - 1 <= margin * 2
    && w + margin * 2 <= INT32_MAX
    && margin * 2 <= INT32_MAX
  }

  lemma TextWidths(w: nat, margin: int)
    requires NoTextOverflow(w, margin)
    ensures w < INT32_MAX
    ensures -INT32_MAX - 1 <= margin * 2 <= INT32_MAX
    ensures w + margin * 2 <= INT32_MAX
  {
  }

  /** `qr_code_to_utf8`, given what the qrencode library returned. */
  method QrCodeToUtf8(qr: Option<Matrix>, margin: int32) returns (r: Result<Bytes>)
    requires qr.Some? ==> qr.value.Valid() && NoTextOverflow(qr.value.width, margin as int)
    ensures qr.None? ==> r == RuntimeError
    ensures qr.Some? ==> r == Ok(TextOf(qr.value, Effective(margin as int)))
  {
    if qr.None? {
      return RuntimeError;
    }
    hide CharAt, Written, TextChars, TextOf, NoTextOverflow, Matrix.Valid;
    var m := qr.value;
    ghost var mg := Effective(margin as int);
    TextWidths(m.width, margin as int);
    var w := m.width as int32;
    var realWidth := w + margin * 2;
    var result := PrintMargin([], realWidth, margin, m, 0);
    result := PrintRows(result, m, w, margin);
    result := PrintMargin(result, realWidth, margin, m, mg / 2 + (m.width + 1) / 2);
    AllWritten(m, mg);
    return Ok(result);
  }

  /** The loop over `y` in `qr_code_to_utf8`, two matrix rows at a time. */
  method PrintRows(text: Bytes, m: Matrix, w: int32, margin: int32) returns (result: Bytes)
    requires m.Valid() && w as int == m.width && NoTextOverflow(m.width, margin as int)
    requires text == Written(m, Effective(margin as int), Effective(margin as int) / 2, 0)
    ensures result == Written(m, Effective(margin as int), Effective(margin as int) / 2 + (m.width + 1) / 2, 0)
  {
    hide CharAt, Written, NoTextOverflow, Matrix.Valid;
    TextWidths(m.width, margin as int);
    ghost var mg := Effective(margin as int);
    result := text;
    var y: int32 := 0;
    while y < w
      invariant 0 <= y <= w + 1 && y % 2 == 0
      invariant result == Written(m, mg, mg / 2 + y as int / 2, 0)
    {
      result := PrintLine(result, m, w, margin, y);
      y := y + 2;
    }
  }

  /** The body of the loop over `y` in `qr_code_to_utf8`: rows y and y + 1 of the matrix, where the last one may
      be missing. */
  method PrintLine(text: Bytes, m: Matrix, w: int32, margin: int32, y: int32) returns (result: Bytes)
    requires m.Valid() && w as int == m.width && NoTextOverflow(m.width, margin as int)
    requires 0 <= y < w && y % 2 == 0
    requires text == Written(m, Effective(margin as int), Effective(margin as int) / 2 + y as int / 2, 0)
    ensures result == Written(m, Effective(margin as int), Effective(margin as int) / 2 + y as int / 2 + 1, 0)
  {
    hide CharAt, Utf8.EncodeOne;
    ghost var mg := Effective(margin as int);
    ghost var line := mg / 2 + y as int / 2;
    GlyphBytes();
    result := text;
    IndexInGrid(y as int, 0, m.width, m.width);
    var row1 := y * w;
    var row2 := row1 as int + m.width;
    var x: int32 := 0;
    while x < margin
      invariant 0 <= x && x as int <= mg
      invariant result == Written(m, mg, line, x as int)
    {
      MarginChars(m, mg, line, x as int);
      result := result + FULL_BYTES;
      x := x + 1;
    }
    x := 0;
    while x < w
      invariant 0 <= x <= w
      invariant result == Written(m, mg, line, mg + x as int)
    {
      var glyph := PrintGlyph(m, w, row1, row2, x, y);
      MatrixChars(m, mg, y as int, x as int);
      result := result + glyph;
      x := x + 1;
    }
    x := 0;
    while x < margin
      invariant 0 <= x && x as int <= mg
      invariant result == Written(m, mg, line, mg + m.width + x as int)
    {
      MarginChars(m, mg, line, mg + m.width + x as int);
      result := result + FULL_BYTES;
      x := x + 1;
    }
    LineEnd(m, mg, line);
    result := result + NEW_LINE_BYTES;
  }

  /** The choice of the glyph for column x of rows y and y + 1. */
  method PrintGlyph(m: Matrix, w: int32, row1: int32, row2: int, x: int32, y: int32) returns (glyph: Bytes)
    requires m.Valid() && w as int == m.width && m.width * m.width <= INT32_MAX
    requires 0 <= x < w && 0 <= y < w
    requires row1 as int == y as int * m.width && row2 == row1 as int + m.width
    ensures glyph == Utf8.EncodeOne(Glyph(!m.Dark(y as int, x as int), !m.Dark(y as int + 1, x as int)))
  {
    GlyphBytes();
    IndexInGrid(y as int, x as int, m.width, m.width);
    if m.data[row1 + x] % 2 == 1 {
      if y < w - 1 && LowerDark(m, w, row2, x, y) {
        glyph := EMPTY_BYTES;
      } else {
        glyph := LOW_HALF_BYTES;
      }
    } else if y < w - 1 && LowerDark(m, w, row2, x, y) {
      glyph := UP_HALF_BYTES;
    } else {
      glyph := FULL_BYTES;
    }
  }

  /** `row2[x] & 1`, read only below a row that is not the last. */
  predicate LowerDark(m: Matrix, w: int32, row2: int, x: int32, y: int32)
    requires m.Valid() && w as int == m.width
    requires 0 <= x < w && 0 <= y < w - 1
    requires row2 == y as int * m.width + m.width
    ensures LowerDark(m, w, row2, x, y) == m.Dark(y as int + 1, x as int)
  {
    assert row2 == (y as int + 1) * m.width;
    IndexInGrid(y as int + 1, x as int, m.width, m.width);
    m.data[row2 + x as int] % 2 == 1
  }

  // --- what the text is ---

  /** The text is a rectangle: line ends stand after every `Columns` glyphs and nowhere else. */
  lemma LinesAreEquallyLong(m: Matrix, margin: nat, k: nat)
    requires m.Valid() && k < |TextChars(m, margin)|
    ensures TextChars(m, margin)[k] == NEW_LINE <==> k % (Columns(m, margin) + 1) == Columns(m, margin)
  {
  }

  lemma SideWithoutZoom(m: Matrix, margin: nat)
    ensures Side(m.width, margin, 1) == Columns(m, margin)
  {
  }

  lemma ImagePixelWithoutZoom(m: Matrix, margin: nat, px: nat, py: nat, c: nat)
    requires m.Valid() && c < 3
    requires px < Columns(m, margin) && py < Columns(m, margin)
    ensures var side := Side(m.width, margin, 1);
            var k := (py * side + px) * 3 + c;
            && 0 <= k < |Image(m, margin, 1)|
            && Image(m, margin, 1)[k] == if m.Dark(py - margin, px - margin) then 0 else 255
  {
    hide Image;
    ImagePixel(m, margin, 1, px, py, c);
  }

  /** The two renderers agree, half glyph by half glyph. Row `row` of half glyphs shows row `row + margin % 2` of
      the RGB image with zoom 1: a half is painted exactly where the image is white, and where the image has ended
      (the extra bottom row of a matrix with an odd number of rows). */
  lemma RenderersAgree(m: Matrix, margin: nat, row: nat, column: nat, c: nat)
    requires m.Valid() && c < 3
    requires row < 2 * Lines(m, margin) && column < Columns(m, margin)
    ensures var side := Side(m.width, margin, 1);
            var k := row / 2 * (Columns(m, margin) + 1) + column;
            var p := ((row + margin % 2) * side + column) * 3 + c;
            && side == Columns(m, margin)
            && 0 <= k < |TextChars(m, margin)|
            && (row + margin % 2 < side ==> 0 <= p < |Image(m, margin, 1)|)
            && ((if row % 2 == 0 then PaintsUpper(TextChars(m, margin)[k])
                 else PaintsLower(TextChars(m, margin)[k])) <==>
                row + margin % 2 >= side || Image(m, margin, 1)[p] == 255)
  {
    hide Image, TextChars, PlaceAt, Side;
    var y := row + margin % 2;
    CharInText(m, margin, row / 2, column);
    assert 2 * (row / 2 - margin / 2) + row % 2 == y - margin;
    SideWithoutZoom(m, margin);
    if y < Side(m.width, margin, 1) {
      ImagePixelWithoutZoom(m, margin, column, y, c);
    }
  }

  /** The half glyphs show all the rows of the image but the two that the next lemma is about, and one more row when the
      matrix has an odd number of them. */
  lemma RowsOfText(m: Matrix, margin: nat)
    ensures 2 * Lines(m, margin) == Side(m.width, margin, 1) - 2 * (margin % 2) + m.width % 2
  {
  }

  /** With an odd margin the half glyphs leave out the first and the last row of the image, which are white. */
  lemma OddMarginRowsAreWhite(m: Matrix, margin: nat, column: nat, c: nat)
    requires m.Valid() && c < 3
    requires margin % 2 == 1 && column < Columns(m, margin)
    ensures var side := Side(m.width, margin, 1);
            var last := ((side - 1) * side + column) * 3 + c;
            && column * 3 + c < |Image(m, margin, 1)| && Image(m, margin, 1)[column * 3 + c] == 255
            && 0 <= last < |Image(m, margin, 1)| && Image(m, margin, 1)[last] == 255
  {
    SideWithoutZoom(m, margin);
    ImagePixelWithoutZoom(m, margin, column, 0, c);
    ImagePixelWithoutZoom(m, margin, column, Side(m.width, margin, 1) - 1, c);
  }

  lemma MatrixIndices(m: Matrix, y: nat, x: nat)
    requires m.Valid() && y < m.width && x < m.width
    ensures 0 <= y * m.width + x < |m.data|
    ensures y + 1 < m.width ==> 0 <= (y + 1) * m.width + x < |m.data|
  {
    IndexInGrid(y, x, m.width, m.width);
    if y + 1 < m.width {
      IndexInGrid(y + 1, x, m.width, m.width);
    }
  }

  /** The text character by character, for the modules in column x of rows y and y + 1: dark is left empty, light is
      painted, and so is what lies below the last row. */
  lemma TextOfModules(m: Matrix, margin: nat, y: nat, x: nat)
    requires m.Valid() && y % 2 == 0 && y < m.width && x < m.width
    ensures 0 <= y * m.width + x < |m.data|
    ensures y + 1 < m.width ==> 0 <= (y + 1) * m.width + x < |m.data|
    ensures Utf8.Decode(TextOf(m, margin)).Some?
    ensures var cs := Utf8.Decode(TextOf(m, margin)).value;
            var k := (margin / 2 + y / 2) * (m.width + 2 * margin + 1) + (margin + x);
            var dark := m.data[y * m.width + x] % 2 == 1;
            var darkBelow := y + 1 < m.width && m.data[(y + 1) * m.width + x] % 2 == 1;
            && 0 <= k < |cs|
            && cs[k] == if dark then (if darkBelow then 0x20 else 0x2584) else if darkBelow then 0x2580 else 0x2588
  {
    hide TextChars, Utf8.Encode, Utf8.Decode;
    MatrixIndices(m, y, x);
    TextCharsAreScalar(m, margin);
    Utf8.DecodeOfEncode(TextChars(m, margin));
    CharInText(m, margin, margin / 2 + y / 2, margin + x);
    MatrixChars(m, margin, y, x);
  }

  /** The rest of it: as many lines and columns as the margins ask for, full blocks around the matrix, line ends. */
  lemma TextOfMargins(m: Matrix, margin: nat, line: nat, column: nat)
    requires m.Valid()
    requires line < (m.width + 1) / 2 + 2 * (margin / 2) && column <= m.width + 2 * margin
    requires || line < margin / 2 || line >= margin / 2 + (m.width + 1) / 2
             || column < margin || column >= margin + m.width
    ensures Utf8.Decode(TextOf(m, margin)).Some?
    ensures var cs := Utf8.Decode(TextOf(m, margin)).value;
            var stride := m.width + 2 * margin + 1;
            && |cs| == ((m.width + 1) / 2 + 2 * (margin / 2)) * stride
            && 0 <= line * stride + column < |cs|
            && cs[line * stride + column] == if column == m.width + 2 * margin then 0x0A else 0x2588
  {
    hide TextChars, Utf8.Encode, Utf8.Decode;
    TextCharsAreScalar(m, margin);
    Utf8.DecodeOfEncode(TextChars(m, margin));
    CharInText(m, margin, line, column);
    if column < m.width + 2 * margin {
      MarginChars(m, margin, line, column);
    }
  }

  /** Reading a module back from the bytes of the text. */
  function ReadModule(text: Bytes, w: nat, margin: nat, y: nat, x: nat): Option<bool> {
    var line, stride := margin / 2 + y / 2, w + 2 * margin + 1;
    match Utf8.Decode(text)
    case None => None
    case Some(cs) =>
      var k := line * stride + margin + x;
      if k < 0 || k >= |cs| then None
      else Some(if y % 2 == 0 then !PaintsUpper(cs[k]) else !PaintsLower(cs[k]))
  }

  /** The text loses nothing: its bytes are well-formed UTF-8 from which every module can be read back, dark where its
      byte is odd. */
  lemma TextKeepsEveryModule(m: Matrix, margin: nat, y: nat, x: nat)
    requires m.Valid() && y < m.width && x < m.width
    ensures 0 <= y * m.width + x < |m.data|
    ensures ReadModule(TextOf(m, margin), m.width, margin, y, x) == Some(m.data[y * m.width + x] % 2 == 1)
  {
    hide TextChars, Utf8.Encode, Utf8.Decode;
    MatrixIndices(m, y, x);
    TextCharsAreScalar(m, margin);
    Utf8.DecodeOfEncode(TextChars(m, margin));
    CharInText(m, margin, margin / 2 + y / 2, margin + x);
  }
}
