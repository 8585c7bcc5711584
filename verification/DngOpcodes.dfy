/** The opcode lists of DNG files: built against a crop that is tracked, then run on the image.

    Construction keeps a rectangle up to date that says what the crop of the image will be when an
    opcode is run. The bounds that an opcode was checked against are therefore the right ones.
 */
module DngOpcodes {
  import opened Bits
  import opened ColorFilterArrays
  import opened Difference
  import opened Points
  import opened RawImages
  import opened Results

  // ----- which pixels an opcode touches

  datatype PixelParams = PixelParams(roi: Rect, firstPlane: nat, planes: nat, rowPitch: nat, colPitch: nat) {
    /** What the constructors establish, for a crop of size `dim`. */
    ghost predicate Fit(dim: Point, cpp: nat) {
      && roi.IsProper() && roi.BottomRight().AtMost(dim)
      && 0 < planes && firstPlane + planes <= cpp
      && 1 <= rowPitch <= roi.dim.y && 1 <= colPitch <= roi.dim.x
    }

    /** The two halves of `numAffected`. */
    function AffectedColumns(): int
      requires 0 < colPitch
    {
      RoundUpDivisionSafe(roi.dim.x, colPitch)
    }

    function AffectedRows(): int
      requires 0 < rowPitch
    {
      RoundUpDivisionSafe(roi.dim.y, rowPitch)
    }

    /** Row `row` of the crop is one of those that the opcode touches. */
    predicate HitsRow(row: int)
      requires 0 < rowPitch
    {
      var y := row - roi.pos.y;
      0 <= y < roi.dim.y && y % rowPitch == 0
    }

    /** So is buffer column `col`: its pixel is in the region and its plane is selected. */
    predicate HitsColumn(cpp: nat, col: int)
      requires 0 < cpp && 0 < colPitch
    {
      var x := col / cpp - roi.pos.x;
      0 <= x < roi.dim.x && x % colPitch == 0 && firstPlane <= col % cpp < firstPlane + planes
    }

    /** The coordinates that the operation gets to see. */
    function YOf(row: int): (y: nat)
      requires 0 < rowPitch && HitsRow(row)
      ensures y < AffectedRows()
    {
      MultipleCounts(row - roi.pos.y, roi.dim.y, rowPitch);
      (row - roi.pos.y) / rowPitch
    }

    function XOf(cpp: nat, col: int): (x: nat)
      requires 0 < cpp && 0 < colPitch && HitsColumn(cpp, col)
      ensures x < AffectedColumns()
    {
      MultipleCounts(col / cpp - roi.pos.x, roi.dim.x, colPitch);
      (col / cpp - roi.pos.x) / colPitch
    }

    /** The row, and the first buffer column, that the loops compute. */
    function RowAt(y: nat): int {
      roi.pos.y + rowPitch * y
    }

    function ColumnAt(cpp: nat, x: nat): int {
      firstPlane + (roi.pos.x + colPitch * x) * cpp
    }
  }

  function RoundUpDivisionSafe(value: int, div: nat): int
    requires 0 < div
  {
    if value == 0 then 0 else 1 + (value - 1) / div
  }

  /** Counting the multiples of the pitch. */
  lemma RoundUpCounts(size: nat, pitch: nat, k: nat)
    requires 0 < pitch
    ensures k < RoundUpDivisionSafe(size, pitch) <==> pitch * k < size
  {
    if size > 0 {
      var q, r := (size - 1) / pitch, (size - 1) % pitch;
      assert size - 1 == pitch * q + r;
      ProductOrder(pitch, k, q);
      ProductOrder(pitch, q + 1, k);
    } else {
      ProductOrder(pitch, 0, k);
    }
  }

  lemma ProductOrder(b: nat, m: int, n: int)
    ensures m <= n ==> b * m <= b * n
  {
    assert m <= n ==> b * (n - m) >= 0;
  }

  lemma MultipleCounts(offset: int, size: int, pitch: nat)
    requires 0 < pitch && 0 <= offset < size && offset % pitch == 0
    ensures 0 <= offset / pitch < RoundUpDivisionSafe(size, pitch)
    ensures pitch * (offset / pitch) == offset
  {
    RoundUpCounts(size, pitch, offset / pitch);
  }

  // ----- applying an operation to the pixels

  /** The buffer column of plane `plane` of pixel `x` belongs to that pixel and plane only. */
  lemma ColumnOfPixel(x: int, plane: nat, cpp: nat, col: int)
    requires plane < cpp
    ensures col == plane + x * cpp <==> col / cpp == x && col % cpp == plane
  {
    var q, m := col / cpp, col % cpp;
    assert col == cpp * q + m && cpp * x == x * cpp;
    if col == plane + x * cpp {
      DivisionIsUnique(col, cpp, x, plane);
    }
  }

  /** All selected planes of one pixel. */
  method ApplyToPixel<T(!new)>(img: array2<T>, row: nat, col: nat, planes: nat, op: T --> T)
    requires row < img.Length0 && col + planes <= img.Length1
    requires forall v :: op.requires(v)
    modifies img
    ensures forall r, c :: 0 <= r < img.Length0 && 0 <= c < img.Length1 ==>
                             img[r, c] == if r == row && col <= c < col + planes then op(old(img[r, c])) else old(img[r, c])
  {
    for p := 0 to planes
      invariant forall r, c :: 0 <= r < img.Length0 && 0 <= c < img.Length1 ==>
                                 img[r, c] == if r == row && col <= c < col + p then op(old(img[r, c])) else old(img[r, c])
    {
      img[row, col + p] := op(img[row, col + p]);
    }
  }

  /** The columns of pixel number `x` are those that are hit with that number. */
  lemma ColumnsOfPixel(params: PixelParams, cpp: nat, dim: Point, x: nat, col: int)
    requires 0 < cpp && params.Fit(dim, cpp) && x < params.AffectedColumns()
    ensures params.HitsColumn(cpp, col) && params.XOf(cpp, col) == x
            <==> params.ColumnAt(cpp, x) <= col < params.ColumnAt(cpp, x) + params.planes
  {
    var px := params.roi.pos.x + params.colPitch * x;
    var plane := col - px * cpp;
    RoundUpCounts(params.roi.dim.x, params.colPitch, x);
    if params.ColumnAt(cpp, x) <= col < params.ColumnAt(cpp, x) + params.planes {
      ColumnOfPixel(px, plane, cpp, col);
      DivisionIsUnique(params.colPitch * x, params.colPitch, x, 0);
    }
    if params.HitsColumn(cpp, col) && params.XOf(cpp, col) == x {
      MultipleCounts(col / cpp - params.roi.pos.x, params.roi.dim.x, params.colPitch);
      ColumnOfPixel(px, col % cpp, cpp, col);
    }
  }

  lemma RowOfPixel(params: PixelParams, cpp: nat, dim: Point, y: nat, row: int)
    requires params.Fit(dim, cpp) && y < params.AffectedRows()
    ensures params.HitsRow(row) && params.YOf(row) == y <==> row == params.RowAt(y)
  {
    RoundUpCounts(params.roi.dim.y, params.rowPitch, y);
    if row == params.RowAt(y) {
      DivisionIsUnique(params.rowPitch * y, params.rowPitch, y, 0);
    }
    if params.HitsRow(row) && params.YOf(row) == y {
      MultipleCounts(row - params.roi.pos.y, params.roi.dim.y, params.rowPitch);
    }
  }

  /** The rows and columns that are computed never leave the crop. */
  lemma PixelInCrop(params: PixelParams, cpp: nat, dim: Point, x: nat)
    requires 0 < cpp && params.Fit(dim, cpp) && x < params.AffectedColumns()
    ensures 0 <= params.ColumnAt(cpp, x) && params.ColumnAt(cpp, x) + params.planes <= cpp * dim.x
  {
    RoundUpCounts(params.roi.dim.x, params.colPitch, x);
    var px := params.roi.pos.x + params.colPitch * x;
    ProductOrder(cpp, px + 1, dim.x);
    ProductOrder(cpp, 0, px);
    assert cpp * (px + 1) == px * cpp + cpp;
  }

  lemma RowInCrop(params: PixelParams, cpp: nat, dim: Point, y: nat)
    requires params.Fit(dim, cpp) && y < params.AffectedRows()
    ensures 0 <= params.RowAt(y) < dim.y
  {
    RoundUpCounts(params.roi.dim.y, params.rowPitch, y);
    ProductOrder(params.rowPitch, 0, y);
  }

  /** Column `col` belongs to one of the first `n` pixels that are hit. */
  ghost predicate Passed(params: PixelParams, cpp: nat, col: int, n: nat)
    requires 0 < cpp && 0 < params.colPitch
  {
    params.HitsColumn(cpp, col) && params.XOf(cpp, col) < n
  }

  /** One row: every `colPitch`-th pixel of the region. */
  method ApplyToRow<T(!new)>(img: array2<T>, params: PixelParams, cpp: nat, crop: Rect, y: nat, row: nat,
                       op: (nat, nat, T) --> T)
    requires 0 < cpp && crop.IsProper() && params.Fit(crop.dim, cpp)
    requires row < img.Length0 && cpp * crop.pos.x + cpp * crop.dim.x <= img.Length1
    requires forall x: nat, v :: x < params.AffectedColumns() ==> op.requires(x, y, v)
    modifies img
    ensures forall r, c :: 0 <= r < img.Length0 && 0 <= c < img.Length1 ==>
                             img[r, c] == if r == row && params.HitsColumn(cpp, c - cpp * crop.pos.x)
                                          then op(params.XOf(cpp, c - cpp * crop.pos.x), y, old(img[r, c]))
                                          else old(img[r, c])
  {
    hide PixelParams.HitsColumn, PixelParams.XOf, PixelParams.AffectedColumns, PixelParams.ColumnAt, RoundUpDivisionSafe;
    var offsetCols := cpp * crop.pos.x;
    var x := 0;
    while x < params.AffectedColumns()
      invariant 0 <= x && (x <= params.AffectedColumns() || x == 0)
      invariant forall i: nat, v :: i < params.AffectedColumns() ==> op.requires(i, y, v)
      invariant forall r, c :: 0 <= r < img.Length0 && 0 <= c < img.Length1 ==>
                                 img[r, c] == if r == row && Passed(params, cpp, c - offsetCols, x)
                                              then op(params.XOf(cpp, c - offsetCols), y, old(img[r, c]))
                                              else old(img[r, c])
    {
      PixelInCrop(params, cpp, crop.dim, x);
      forall col: int
        ensures Passed(params, cpp, col, x + 1) <==>
                Passed(params, cpp, col, x)
                || params.ColumnAt(cpp, x) <= col < params.ColumnAt(cpp, x) + params.planes
        ensures params.ColumnAt(cpp, x) <= col < params.ColumnAt(cpp, x) + params.planes ==>
                  params.HitsColumn(cpp, col) && params.XOf(cpp, col) == x && !Passed(params, cpp, col, x)
      {
        ColumnsOfPixel(params, cpp, crop.dim, x, col);
      }
      assert forall v: T :: op.requires(x, y, v);
      var pixelOp := v requires op.requires(x, y, v) => op(x, y, v);
      ApplyToPixel(img, row, offsetCols + params.ColumnAt(cpp, x), params.planes, pixelOp);
      x := x + 1;
    }
  }

  /** Row `row` belongs to one of the first `n` that are hit. */
  ghost predicate PassedRow(params: PixelParams, row: int, n: nat)
    requires 0 < params.rowPitch
  {
    params.HitsRow(row) && params.YOf(row) < n
  }

  /** `applyOP`: exactly the pixels of the region that the pitches and planes select are replaced,
      each once, by what the operation makes of its coordinates and its value. */
  method ApplyOP<T(!new)>(img: array2<T>, params: PixelParams, cpp: nat, crop: Rect, op: (nat, nat, T) --> T)
    requires 0 < cpp && crop.IsProper() && params.Fit(crop.dim, cpp)
    requires crop.BottomRight().y <= img.Length0 && cpp * crop.pos.x + cpp * crop.dim.x <= img.Length1
    requires forall x: nat, y: nat, v :: x < params.AffectedColumns() && y < params.AffectedRows() ==> op.requires(x, y, v)
    modifies img
    ensures forall r, c :: 0 <= r < img.Length0 && 0 <= c < img.Length1 ==>
                             img[r, c] == if params.HitsRow(r - crop.pos.y) && params.HitsColumn(cpp, c - cpp * crop.pos.x)
                                          then op(params.XOf(cpp, c - cpp * crop.pos.x), params.YOf(r - crop.pos.y),
                                                  old(img[r, c]))
                                          else old(img[r, c])
  {
    hide PixelParams.HitsColumn, PixelParams.XOf, PixelParams.AffectedColumns, RoundUpDivisionSafe;
    hide PixelParams.HitsRow, PixelParams.YOf, PixelParams.AffectedRows, PixelParams.RowAt;
    var y := 0;
    while y < params.AffectedRows()
      invariant 0 <= y && (y <= params.AffectedRows() || y == 0)
      invariant forall i: nat, j: nat, v :: i < params.AffectedColumns() && j < params.AffectedRows() ==> op.requires(i, j, v)
      invariant forall r, c :: 0 <= r < img.Length0 && 0 <= c < img.Length1 ==>
                                 img[r, c] == if PassedRow(params, r - crop.pos.y, y) && params.HitsColumn(cpp, c - cpp * crop.pos.x)
                                              then op(params.XOf(cpp, c - cpp * crop.pos.x), params.YOf(r - crop.pos.y),
                                                      old(img[r, c]))
                                              else old(img[r, c])
    {
      RowInCrop(params, cpp, crop.dim, y);
      forall row: int
        ensures PassedRow(params, row, y + 1) <==> PassedRow(params, row, y) || row == params.RowAt(y)
        ensures row == params.RowAt(y) ==>
                  params.HitsRow(row) && params.YOf(row) == y && !PassedRow(params, row, y)
      {
        RowOfPixel(params, cpp, crop.dim, y, row);
      }
      ApplyToRow(img, params, cpp, crop, y, crop.pos.y + params.RowAt(y), op);
      y := y + 1;
    }
  }

  // ----- opcodes

  /** Whether a list of deltas goes with the columns or with the rows. */
  datatype Select = SelectX | SelectY {
    function Of(x: int, y: int): int {
      if SelectX? then x else y
    }
  }

  datatype DeltaKind = Offset | Scale {
    function F2iScale(): real {
      if Offset? then 65535.0 else 1024.0
    }

    /** `valueIsOk`, for integer images. */
    predicate ValueIsOk(f: real) {
      match this
      case Offset => -(65535.0 / F2iScale()) <= f <= 65535.0 / F2iScale()
      case Scale => 0.0 <= f <= (TWO_31 - 1 - 512) as real / 65535.0 / F2iScale()
    }

    /** The same in numbers: an offset is within the range of a pixel, and a scaled pixel fits an `int`. */
    ghost predicate IsUsable(f: real) {
      if Offset? then -65535.0 <= 65535.0 * f <= 65535.0
      else f >= 0.0 && 65535.0 * (1024.0 * f) + 512.0 <= 2147483647.0
    }

    /** What that leaves of a delta once it is an integer. */
    predicate DeltaIsSmall(delta: int) {
      match this
      case Offset => -0xFFFF <= delta <= 0xFFFF
      case Scale => 0 <= delta <= 0x8000
    }
  }

  /** What the opcodes hold once they are constructed. `integrated` is the crop that they were
      checked against. */
  datatype Opcode =
    | FixBadPixelsConstant(integrated: Rect, value: nat)
    | TrimBounds(integrated: Rect, roi: Rect)
    | LookupOpcode(integrated: Rect, params: PixelParams, lookup: seq<u16>)
    | DeltaRowOrCol(integrated: Rect, kind: DeltaKind, select: Select, params: PixelParams, deltaF: seq<real>)
  {
    /** What the constructors establish. */
    ghost predicate Fits(cpp: nat) {
      match this
      case FixBadPixelsConstant(_, _) => true
      case TrimBounds(rect, r) => r.IsProper() && r.BottomRight().AtMost(rect.dim)
      case LookupOpcode(rect, p, l) => p.Fit(rect.dim, cpp) && |l| == 0x1_0000
      case DeltaRowOrCol(rect, _, s, p, d) =>
        && p.Fit(rect.dim, cpp)
        && |d| == s.Of(p.AffectedColumns(), p.AffectedRows())
    }

    /** Every delta may be used on an integer image. */
    ghost predicate DeltasAreOk() {
      DeltaRowOrCol? ==> forall f :: f in deltaF ==> kind.IsUsable(f)
    }

    /** Whether `setup` and `apply` succeed on an image of this type. A crop needs the encoding of the
        colour filter. */
    ghost predicate Runs(dataType: PixelType, cpp: nat, filterIsKnown: bool) {
      match this
      case FixBadPixelsConstant(_, _) => dataType.UINT16? && cpp <= 1
      case TrimBounds(_, r) => r.dim.x > 0 && r.dim.y > 0 && filterIsKnown
      case LookupOpcode(_, _, _) => dataType.UINT16?
      case DeltaRowOrCol(_, _, _, _, _) => dataType.UINT16? ==> DeltasAreOk()
    }
  }

  /** The crop after an opcode. */
  function Moved(rect: Rect, op: Opcode): Rect {
    if op.TrimBounds? then Rect(Point(rect.pos.x + op.roi.pos.x, rect.pos.y + op.roi.pos.y), op.roi.dim) else rect
  }

  function CropAfter(start: Rect, ops: seq<Opcode>): Rect {
    if ops == [] then start else Moved(CropAfter(start, ops[..|ops| - 1]), ops[|ops| - 1])
  }

  /** Every opcode was checked against the crop that the ones before it leave behind. */
  ghost predicate Chain(start: Rect, ops: seq<Opcode>, cpp: nat) {
    forall k :: 0 <= k < |ops| ==> ops[k].integrated == CropAfter(start, ops[..k]) && ops[k].Fits(cpp)
  }

  lemma ChainSnoc(start: Rect, ops: seq<Opcode>, cpp: nat, op: Opcode)
    requires Chain(start, ops, cpp) && op.integrated == CropAfter(start, ops) && op.Fits(cpp)
    ensures Chain(start, ops + [op], cpp)
    ensures CropAfter(start, ops + [op]) == Moved(op.integrated, op)
  {
    var more := ops + [op];
    assert more[..|ops|] == ops;
    forall k | 0 <= k < |more|
      ensures more[k].integrated == CropAfter(start, more[..k]) && more[k].Fits(cpp)
    {
      if k < |ops| {
        assert more[..k] == ops[..k];
      }
    }
  }

  // ----- construction

  datatype OpcodeError =
    | Truncated | RoiNotInside | BadPlanes | InvalidPitch | InvalidTable | WrongDeltaCount | BadFloat
    | UnknownOpcode | UnsupportedOpcode | NotModelled | InconsistentLength

  /** How much of an entry there is, or has been read. */
  datatype Size = Size(words: nat, table: nat, floats: nat)

  /** One entry of the list: 32-bit words first, then whatever the opcode brings along: table
      entries, or floats (`None` for one that is not finite). For a polynomial the table is the
      evaluated one. */
  datatype RawOpcode = RawOpcode(code: nat, optional: bool, words: seq<nat>, table: seq<u16>, floats: seq<Option<real>>) {
    function Present(): Size {
      Size(|words|, |table|, |floats|)
    }

    predicate Valid() {
      forall w :: w in words ==> w < TWO_32
    }
  }

  /** The region that the first four words describe: top, left, bottom, right. */
  function RoiOf(words: seq<nat>): Rect
    requires |words| >= 4
  {
    Rect(Point(words[1], words[0]), Point(words[3] as int - words[1], words[2] as int - words[0]))
  }

  /** An opcode holds what its entry says, and nothing else. */
  ghost predicate IsMadeFrom(op: Opcode, raw: RawOpcode) {
    var words := raw.words;
    match op
    case FixBadPixelsConstant(_, value) => raw.code == 4 && |words| == 2 && value == words[0]
    case TrimBounds(_, roi) => raw.code == 6 && |words| == 4 && roi == RoiOf(words)
    case LookupOpcode(_, params, lookup) =>
      && 7 <= raw.code <= 8 && |words| == 9 && params == ParamsOf(words)
      && var count := if raw.code == 7 then words[8] else 0x1_0000;
      0 < count == |raw.table| && |lookup| == 0x1_0000
      && forall v :: 0 <= v < 0x1_0000 ==> lookup[v] == raw.table[if v < count then v else count - 1]
    case DeltaRowOrCol(_, kind, select, params, deltaF) =>
      && |words| == 9 && params == ParamsOf(words)
      && raw.code == (if kind.Offset? then 10 else 12) + (if select.SelectY? then 0 else 1)
      && words[8] == |raw.floats| == |deltaF|
      && forall i :: 0 <= i < |deltaF| ==> raw.floats[i] == Some(deltaF[i])
  }

  function ParamsOf(words: seq<nat>): PixelParams
    requires |words| >= 8
  {
    PixelParams(RoiOf(words), words[4], words[5], words[6], words[7])
  }

  /** The region lies within a crop of this size. */
  predicate RoiIsOk(words: seq<nat>, dim: Point) {
    |words| >= 4 && words[1] <= words[3] <= dim.x && words[0] <= words[2] <= dim.y
  }

  /** So do the planes and the pitches. */
  predicate ParamsAreOk(words: seq<nat>, dim: Point, cpp: nat) {
    && |words| >= 8 && RoiIsOk(words, dim)
    && 0 < words[5] && words[4] + words[5] <= cpp
    && 1 <= words[6] <= words[2] - words[0] && 1 <= words[7] <= words[3] - words[1]
  }

  /** There is one delta for each row or column that is touched, and all of them are finite. */
  predicate DeltasArePresent(count: nat, floats: seq<Option<real>>, params: PixelParams, select: Select)
    requires 0 < params.rowPitch && 0 < params.colPitch
  {
    && count <= |floats| && count == select.Of(params.AffectedColumns(), params.AffectedRows())
    && forall i :: 0 <= i < count ==> floats[i].Some?
  }

  predicate TableIsPresent(count: nat, table: seq<u16>) {
    0 < count <= 0x1_0000 && count <= |table|
  }

  /** Columns for the odd codes, rows for the even ones. */
  function SelectOf(code: nat): Select {
    if code % 2 == 0 then SelectY else SelectX
  }

  /** The entries that can be constructed for a crop of size `dim`. */
  predicate IsAccepted(raw: RawOpcode, cpp: nat, dim: Point) {
    var words := raw.words;
    match raw.code
    case 1 | 2 | 3 | 9 => raw.optional
    case 4 => |words| >= 2
    case 6 => RoiIsOk(words, dim)
    case 7 => ParamsAreOk(words, dim, cpp) && |words| >= 9 && TableIsPresent(words[8], raw.table)
    case 8 => ParamsAreOk(words, dim, cpp) && |words| >= 9 && words[8] <= 8 && TableIsPresent(0x1_0000, raw.table)
    case 10 | 11 | 12 | 13 =>
      && ParamsAreOk(words, dim, cpp) && |words| >= 9
      && DeltasArePresent(words[8], raw.floats, ParamsOf(words), SelectOf(raw.code))
    case _ => false
  }

  /** The region: four unsigned numbers that become signed coordinates. */
  method ReadRoi(words: seq<nat>, integrated: Rect) returns (r: Result<Rect, OpcodeError>)
    requires forall w :: w in words ==> w < TWO_32
    requires 0 <= integrated.dim.x < TWO_31 && 0 <= integrated.dim.y < TWO_31
    ensures r.Ok? <==> RoiIsOk(words, integrated.dim)
    ensures r.Ok? ==>
              && r.value == RoiOf(words)
              && r.value.IsProper() && r.value.BottomRight().AtMost(integrated.dim)
  {
    if |words| < 4 {
      return Err(Truncated);
    }
    assert words[0] in words && words[1] in words && words[2] in words && words[3] in words;
    var subImage := Rect(Point(0, 0), integrated.dim);
    var topLeft := Point(ToSigned(words[1]), ToSigned(words[0]));
    var bottomRight := Point(ToSigned(words[3]), ToSigned(words[2]));
    if !(subImage.IsPointInsideInclusive(topLeft) && subImage.IsPointInsideInclusive(bottomRight)
         && topLeft.AtMost(bottomRight)) {
      return Err(RoiNotInside);
    }
    var roi := Rect(topLeft, bottomRight.Minus(topLeft));
    assert roi.IsThisInside(subImage);
    return Ok(roi);
  }

  /** The parameters of an opcode that changes pixels. */
  method ReadPixelParams(words: seq<nat>, integrated: Rect, cpp: nat) returns (r: Result<PixelParams, OpcodeError>)
    requires forall w :: w in words ==> w < TWO_32
    requires 0 <= integrated.dim.x < TWO_31 && 0 <= integrated.dim.y < TWO_31
    ensures r.Ok? ==> r.value.Fit(integrated.dim, cpp) && |words| >= 8 && r.value == ParamsOf(words)
    ensures r.Ok? <==> ParamsAreOk(words, integrated.dim, cpp)
  {
    var roi := ReadRoi(words, integrated);
    if roi.Err? {
      return Err(roi.error);
    }
    if |words| < 8 {
      return Err(Truncated);
    }
    var firstPlane, planes := words[4], words[5];
    if planes == 0 || firstPlane > cpp || planes > cpp || firstPlane + planes > cpp {
      return Err(BadPlanes);
    }
    var rowPitch, colPitch := words[6], words[7];
    if rowPitch < 1 || rowPitch > roi.value.dim.y || colPitch < 1 || colPitch > roi.value.dim.x {
      return Err(InvalidPitch);
    }
    return Ok(PixelParams(roi.value, firstPlane, planes, rowPitch, colPitch));
  }

  /** A table that is too short repeats its last entry. */
  method ReadTable(count: nat, table: seq<u16>) returns (r: Result<seq<u16>, OpcodeError>)
    ensures r.Ok? <==> TableIsPresent(count, table)
    ensures r.Ok? ==> |r.value| == 0x1_0000
    ensures r.Ok? ==> forall v :: 0 <= v < 0x1_0000 ==> r.value[v] == table[if v < count then v else count - 1]
  {
    if count == 0 || count > 0x1_0000 {
      return Err(InvalidTable);
    }
    if count > |table| {
      return Err(Truncated);
    }
    return Ok(seq<u16>(0x1_0000, v requires 0 <= v => if v < count then table[v] else table[count - 1]));
  }

  /** The deltas: one for each row or column that is touched, all of them finite. */
  method ReadDeltas(count: nat, floats: seq<Option<real>>, params: PixelParams, select: Select)
    returns (r: Result<seq<real>, OpcodeError>)
    requires 0 < params.rowPitch && 0 < params.colPitch
    ensures r.Ok? <==> DeltasArePresent(count, floats, params, select)
    ensures r.Ok? ==> |r.value| == count && forall i :: 0 <= i < count ==> floats[i] == Some(r.value[i])
  {
    if count > |floats| {
      return Err(Truncated);
    }
    var expectedSize := RoundUpDivisionSafe(select.Of(params.roi.dim.x, params.roi.dim.y),
                                            select.Of(params.colPitch, params.rowPitch));
    if expectedSize != count {
      return Err(WrongDeltaCount);
    }
    var deltaF := [];
    for i := 0 to count
      invariant |deltaF| == i
      invariant forall k :: 0 <= k < i ==> floats[k] == Some(deltaF[k])
    {
      if floats[i].None? {
        return Err(BadFloat);
      }
      deltaF := deltaF + [floats[i].value];
    }
    return Ok(deltaF);
  }

  /** One opcode: what the table of constructors leads to, and how much of the entry it reads. `None` is
      an optional opcode that is not supported. */
  method Construct(raw: RawOpcode, cpp: nat, integrated: Rect)
    returns (r: Result<Option<Opcode>, OpcodeError>, used: Size)
    requires raw.Valid()
    requires 0 <= integrated.dim.x < TWO_31 && 0 <= integrated.dim.y < TWO_31
    ensures r.Ok? <==> IsAccepted(raw, cpp, integrated.dim)
    ensures r.Ok? && r.value.Some? ==> r.value.value.integrated == integrated && r.value.value.Fits(cpp)
    ensures r.Ok? && r.value.Some? && used == raw.Present() ==> IsMadeFrom(r.value.value, raw)
    ensures r.Ok? ==> used == if r.value.Some? then SizeHeld(r.value.value, raw) else Size(0, 0, 0)
    ensures r.Ok? ==> (used == raw.Present() <==> IsUsedUp(raw))
    ensures r.Ok? && r.value.None? <==> IsUnsupported(raw) && raw.optional
    ensures IsUnsupported(raw) && !raw.optional ==> r == Err(UnsupportedOpcode)
    ensures raw.code == 0 || raw.code > 13 ==> r == Err(UnknownOpcode)
  {
    var words := raw.words;
    used := Size(0, 0, 0);
    if raw.code == 4 {
      if |words| < 2 {
        return Err(Truncated), used;
      }
      r, used := Ok(Some(FixBadPixelsConstant(integrated, words[0]))), Size(2, 0, 0);
    } else if raw.code == 6 {
      var roi := ReadRoi(words, integrated);
      if roi.Err? {
        return Err(roi.error), used;
      }
      r, used := Ok(Some(TrimBounds(integrated, roi.value))), Size(4, 0, 0);
    } else if 7 <= raw.code <= 8 {
      var params := ReadPixelParams(words, integrated, cpp);
      if params.Err? {
        return Err(params.error), used;
      }
      if |words| < 9 {
        return Err(Truncated), used;
      }
      if raw.code == 8 && words[8] + 1 > 9 {
        return Err(InvalidTable), used;
      }
      var count := if raw.code == 7 then words[8] else 0x1_0000;
      var table := ReadTable(count, raw.table);
      if table.Err? {
        return Err(table.error), used;
      }
      r, used := Ok(Some(LookupOpcode(integrated, params.value, table.value))), Size(9, count, 0);
    } else if 10 <= raw.code <= 13 {
      var params := ReadPixelParams(words, integrated, cpp);
      if params.Err? {
        return Err(params.error), used;
      }
      if |words| < 9 {
        return Err(Truncated), used;
      }
      var kind := if raw.code < 12 then Offset else Scale;
      var select := SelectOf(raw.code);
      var deltas := ReadDeltas(words[8], raw.floats, params.value, select);
      if deltas.Err? {
        return Err(deltas.error), used;
      }
      r, used := Ok(Some(DeltaRowOrCol(integrated, kind, select, params.value, deltas.value))), Size(9, 0, words[8]);
    } else if raw.code == 5 {
      r := Err(NotModelled);
    } else if IsUnsupported(raw) {
      r := if raw.optional then Ok(None) else Err(UnsupportedOpcode);
    } else {
      r := Err(UnknownOpcode);
    }
  }

  /** The opcodes of the specification that the library knows, but cannot run. */
  predicate IsUnsupported(raw: RawOpcode) {
    raw.code in {1, 2, 3, 9}
  }

  /** The entries that become opcodes. */
  function Supported(list: seq<RawOpcode>): seq<RawOpcode> {
    if list == [] then []
    else
      var init, last := Supported(list[..|list| - 1]), list[|list| - 1];
      if IsUnsupported(last) then init else init + [last]
  }

  /** What an opcode has been read from: its numbers, and the table or the deltas that it holds. */
  function SizeHeld(op: Opcode, raw: RawOpcode): Size {
    match op
    case FixBadPixelsConstant(_, _) => Size(2, 0, 0)
    case TrimBounds(_, _) => Size(4, 0, 0)
    case LookupOpcode(_, _, lookup) =>
      Size(9, if raw.code == 7 && |raw.words| >= 9 then raw.words[8] else |lookup|, 0)
    case DeltaRowOrCol(_, _, _, _, deltaF) => Size(9, 0, |deltaF|)
  }

  /** An entry holds what its opcode reads, and no more. */
  predicate IsUsedUp(raw: RawOpcode) {
    var words, table, floats := |raw.words|, |raw.table|, |raw.floats|;
    match raw.code
    case 4 => words == 2 && table == floats == 0
    case 6 => words == 4 && table == floats == 0
    case 7 => words == 9 && table == raw.words[8] && floats == 0
    case 8 => words == 9 && table == 0x1_0000 && floats == 0
    case 10 | 11 | 12 | 13 => words == 9 && table == 0 && floats == raw.words[8]
    case _ => words == table == floats == 0
  }

  /** The crop after an entry. */
  function MovedBy(rect: Rect, raw: RawOpcode): Rect {
    if raw.code == 6 && |raw.words| >= 4
    then Rect(Point(rect.pos.x + raw.words[1], rect.pos.y + raw.words[0]), RoiOf(raw.words).dim)
    else rect
  }

  /** The crop that a list of entries leads to, before anything is constructed. */
  function CropOfList(start: Rect, list: seq<RawOpcode>): Rect {
    if list == [] then start else MovedBy(CropOfList(start, list[..|list| - 1]), list[|list| - 1])
  }

  /** An entry can be constructed for the crop that those before it lead to, and is used up. */
  predicate EntryIsAccepted(start: Rect, list: seq<RawOpcode>, cpp: nat, i: nat)
    requires i < |list|
  {
    IsAccepted(list[i], cpp, CropOfList(start, list[..i]).dim) && IsUsedUp(list[i])
  }

  predicate ListIsAccepted(start: Rect, list: seq<RawOpcode>, cpp: nat) {
    forall i :: 0 <= i < |list| ==> EntryIsAccepted(start, list, cpp, i)
  }

  /** An opcode moves the crop as its entry does. */
  lemma MovesAlike(rect: Rect, op: Opcode, raw: RawOpcode)
    requires IsMadeFrom(op, raw)
    ensures Moved(rect, op) == MovedBy(rect, raw)
  {
  }

  /** The crop never grows. */
  lemma MovedStaysProper(op: Opcode, cpp: nat)
    requires op.Fits(cpp)
    ensures Moved(op.integrated, op).dim.AtMost(op.integrated.dim)
    ensures op.TrimBounds? ==> Point(0, 0).AtMost(Moved(op.integrated, op).dim)
  {
  }

  lemma NoEntries(start: Rect, list: seq<RawOpcode>, cpp: nat)
    ensures Chain(start, [], cpp) && CropAfter(start, []) == start
    ensures ListIsAccepted(start, list[..0], cpp) && CropOfList(start, list[..0]) == start && Supported(list[..0]) == []
  {
  }

  lemma EntryOfPrefix(start: Rect, list: seq<RawOpcode>, cpp: nat, n: nat, i: nat)
    requires i < n <= |list|
    ensures EntryIsAccepted(start, list[..n], cpp, i) <==> EntryIsAccepted(start, list, cpp, i)
  {
    hide IsAccepted, IsUsedUp, CropOfList;
    assert list[..n][..i] == list[..i];
  }

  /** One more entry. */
  lemma NextEntry(start: Rect, list: seq<RawOpcode>, cpp: nat, i: nat)
    requires i < |list|
    ensures ListIsAccepted(start, list[..i + 1], cpp)
            <==> ListIsAccepted(start, list[..i], cpp) && EntryIsAccepted(start, list, cpp, i)
  {
    hide EntryIsAccepted;
    var init, more := list[..i], list[..i + 1];
    EntryOfPrefix(start, list, cpp, i + 1, i);
    forall k: nat | k < i
      ensures EntryIsAccepted(start, more, cpp, k) <==> EntryIsAccepted(start, init, cpp, k)
    {
      EntryOfPrefix(start, list, cpp, i + 1, k);
      EntryOfPrefix(start, list, cpp, i, k);
    }
    if ListIsAccepted(start, more, cpp) {
      assert forall k: nat | k < i :: EntryIsAccepted(start, more, cpp, k) ==> EntryIsAccepted(start, init, cpp, k);
      assert EntryIsAccepted(start, more, cpp, i);
    }
  }

  lemma AfterNextEntry(start: Rect, list: seq<RawOpcode>, i: nat)
    requires i < |list|
    ensures CropOfList(start, list[..i + 1]) == MovedBy(CropOfList(start, list[..i]), list[i])
    ensures Supported(list[..i + 1]) == Supported(list[..i]) + if IsUnsupported(list[i]) then [] else [list[i]]
  {
    hide MovedBy, IsUnsupported;
    var more := list[..i + 1];
    assert more[..i] == list[..i] && more[i] == list[i];
  }

  /** `DngOpcodes::DngOpcodes`. What it builds is a chain, and it builds it whenever that can be done. */
  method BuildOpcodes(ri: RawImage, list: seq<RawOpcode>) returns (r: Result<seq<Opcode>, OpcodeError>)
    requires ri.Valid() && forall raw :: raw in list ==> raw.Valid()
    ensures r.Ok? <==> ListIsAccepted(ri.Crop(), list, ri.cpp)
    ensures r.Ok? ==> Chain(ri.Crop(), r.value, ri.cpp) && CropAfter(ri.Crop(), r.value) == CropOfList(ri.Crop(), list)
    ensures r.Ok? ==> |r.value| == |Supported(list)|
    ensures r.Ok? ==> forall k :: 0 <= k < |r.value| ==> IsMadeFrom(r.value[k], Supported(list)[k])
  {
    hide IsMadeFrom, IsUsedUp, IsAccepted, CropOfList, CropAfter, Chain, Supported, Opcode.Fits;
    var integratedSubimg := ri.GetImageCropAsRectangle();
    var opcodes := [];
    NoEntries(ri.Crop(), list, ri.cpp);
    for i := 0 to |list|
      invariant Chain(ri.Crop(), opcodes, ri.cpp) && integratedSubimg == CropAfter(ri.Crop(), opcodes)
      invariant 0 <= integratedSubimg.dim.x < TWO_31 && 0 <= integratedSubimg.dim.y < TWO_31
      invariant ListIsAccepted(ri.Crop(), list[..i], ri.cpp) && integratedSubimg == CropOfList(ri.Crop(), list[..i])
      invariant |opcodes| == |Supported(list[..i])|
      invariant forall k :: 0 <= k < |opcodes| ==> IsMadeFrom(opcodes[k], Supported(list[..i])[k])
    {
      NextEntry(ri.Crop(), list, ri.cpp, i);
      AfterNextEntry(ri.Crop(), list, i);
      var built, used := Construct(list[i], ri.cpp, integratedSubimg);
      if built.Err? {
        return Err(built.error);
      }
      ghost var before := integratedSubimg;
      if built.value.Some? {
        ChainSnoc(ri.Crop(), opcodes, ri.cpp, built.value.value);
        MovedStaysProper(built.value.value, ri.cpp);
        opcodes := opcodes + [built.value.value];
        integratedSubimg := Moved(integratedSubimg, built.value.value);
      }
      if used != list[i].Present() {
        return Err(InconsistentLength);
      }
      if built.value.Some? {
        MovesAlike(before, built.value.value, list[i]);
      }
    }
    assert list[..|list|] == list;
    return Ok(opcodes);
  }

  // ----- what the deltas do to a 16-bit pixel

  /** Conversion of a floating point number to an integer: towards zero. */
  function TowardsZero(r: real): int {
    if r >= 0.0 then r.Floor else -(-r).Floor
  }

  function ClampBits16(v: int): u16 {
    if v < 0 then 0 else if v > 0xFFFF then 0xFFFF else v
  }

  /** A result of 32-bit signed arithmetic, which must not overflow. */
  function Int32(x: int): int
    requires IsInt32(x)
  {
    x
  }

  function DeltaOp(kind: DeltaKind, delta: int, v: u16): u16
    requires kind.DeltaIsSmall(delta)
  {
    match kind
    case Offset => ClampBits16(Int32(delta + v))
    case Scale =>
      ScaleFits(delta, v);
      ClampBits16(Int32(Int32(delta * v) + 512) / 1024)
  }

  lemma ScaleFits(delta: int, v: u16)
    requires 0 <= delta <= 0x8000
    ensures 0 <= delta * v <= 0x8000 * 0xFFFF
  {
    ProductOrder(v, 0, delta);
    ProductOrder(v, delta, 0x8000);
  }

  /** `valueIsOk` lets through what is usable, and nothing else. */
  lemma ValueIsOkIff(kind: DeltaKind, f: real)
    ensures kind.ValueIsOk(f) <==> kind.IsUsable(f)
  {
    if kind.Scale? {
      UpTo(f, (TWO_31 - 1 - 512) as real / 65535.0, 1024.0);
      UpTo(1024.0 * f, (TWO_31 - 1 - 512) as real, 65535.0);
    }
  }

  lemma UpTo(f: real, limit: real, scale: real)
    requires scale > 0.0
    ensures f <= limit / scale <==> scale * f <= limit
  {
    assert limit == scale * (limit / scale);
  }

  /** A delta that was let through converts to a small one. Its arithmetic therefore never overflows. */
  lemma DeltaArithmeticFits(kind: DeltaKind, f: real, v: u16)
    requires kind.ValueIsOk(f)
    ensures
      var delta := TowardsZero(kind.F2iScale() * f);
      && kind.DeltaIsSmall(delta)
      && match kind
         case Offset => -TWO_31 <= delta + v < TWO_31
         case Scale => 0 <= delta * v + 512 < TWO_31
  {
    match kind {
      case Offset =>
      case Scale =>
        var delta := (kind.F2iScale() * f).Floor;
        assert delta as real <= (TWO_31 - 1 - 512) as real / 65535.0;
        ScaleFits(delta, v);
    }
  }

  // ----- execution

  /** `deltaI` holds the deltas as integers, all of them usable. */
  ghost predicate AreDeltas(op: Opcode, deltaI: seq<int>)
    requires op.DeltaRowOrCol?
  {
    && op.DeltasAreOk() && |deltaI| == |op.deltaF|
    && forall i :: 0 <= i < |deltaI| ==> deltaI[i] == TowardsZero(op.kind.F2iScale() * op.deltaF[i])
  }

  /** `setup`: refuses images that the opcode does not support, and converts the deltas. */
  method Setup(op: Opcode, ri: RawImage) returns (ok: bool, deltaI: seq<int>)
    requires ri.Valid() && op.integrated == ri.Crop()
    ensures op.TrimBounds? || (ok <==> op.Runs(ri.dataType, ri.cpp, ri.FilterIsKnown()))
    ensures op.TrimBounds? ==> ok
    ensures ok && op.DeltaRowOrCol? && ri.dataType.UINT16? ==> AreDeltas(op, deltaI)
  {
    ok, deltaI := true, [];
    match op {
      case FixBadPixelsConstant(_, _) =>
        ok := ri.dataType.UINT16? && ri.cpp <= 1;
      case TrimBounds(_, _) =>
      case LookupOpcode(_, _, _) =>
        ok := ri.dataType.UINT16?;
      case DeltaRowOrCol(_, kind, _, _, deltaF) =>
        if !ri.dataType.UINT16? {
          return;
        }
        for i := 0 to |deltaF|
          invariant |deltaI| == i
          invariant forall k :: 0 <= k < i ==> kind.IsUsable(deltaF[k])
          invariant forall k :: 0 <= k < i ==> deltaI[k] == TowardsZero(kind.F2iScale() * deltaF[k])
        {
          ValueIsOkIff(kind, deltaF[i]);
          if !kind.ValueIsOk(deltaF[i]) {
            assert deltaF[i] in deltaF;
            return false, deltaI;
          }
          deltaI := deltaI + [TowardsZero(kind.F2iScale() * deltaF[i])];
        }
    }
  }

  /** What an opcode makes of one entry of the integer buffer. */
  function NewU16(op: Opcode, cpp: nat, row: int, col: int, v: u16): u16
    requires 0 < cpp && op.Fits(cpp) && op.DeltasAreOk()
  {
    if op.FixBadPixelsConstant? || op.TrimBounds? then v
    else
      var p, y, x := op.params, row - op.integrated.pos.y, col - cpp * op.integrated.pos.x;
      if !(p.HitsRow(y) && p.HitsColumn(cpp, x)) then v
      else if op.LookupOpcode? then op.lookup[v]
      else
        var f := op.deltaF[op.select.Of(p.XOf(cpp, x), p.YOf(y))];
        ValueIsOkIff(op.kind, f);
        DeltaArithmeticFits(op.kind, f, v);
        DeltaOp(op.kind, TowardsZero(op.kind.F2iScale() * f), v)
  }

  /** And of one entry of the floating point buffer. */
  function NewF32(op: Opcode, cpp: nat, row: int, col: int, v: real): real
    requires 0 < cpp && op.Fits(cpp)
  {
    if !op.DeltaRowOrCol? then v
    else
      var p, y, x := op.params, row - op.integrated.pos.y, col - cpp * op.integrated.pos.x;
      if !(p.HitsRow(y) && p.HitsColumn(cpp, x)) then v
      else
        var f := op.deltaF[op.select.Of(p.XOf(cpp, x), p.YOf(y))];
        if op.kind.Offset? then f + v else f * v
  }

  // ----- the same in numbers

  /** The entry belongs to a selected pixel and plane. */
  ghost predicate IsTouched(op: Opcode, cpp: nat, row: int, col: int)
    requires 0 < cpp && op.Fits(cpp) && (op.LookupOpcode? || op.DeltaRowOrCol?)
  {
    var p := op.params;
    var y, x := row - op.integrated.pos.y - p.roi.pos.y, col / cpp - op.integrated.pos.x - p.roi.pos.x;
    && 0 <= y < p.roi.dim.y && y % p.rowPitch == 0
    && 0 <= x < p.roi.dim.x && x % p.colPitch == 0
    && p.firstPlane <= col % cpp < p.firstPlane + p.planes
  }

  /** The delta for an entry: one for each touched row, or one for each touched column. */
  ghost function DeltaAt(op: Opcode, cpp: nat, row: int, col: int): real
    requires 0 < cpp && op.Fits(cpp) && op.DeltaRowOrCol? && IsTouched(op, cpp, row, col)
  {
    var p := op.params;
    var y, x := row - op.integrated.pos.y - p.roi.pos.y, col / cpp - op.integrated.pos.x - p.roi.pos.x;
    MultipleCounts(y, p.roi.dim.y, p.rowPitch);
    MultipleCounts(x, p.roi.dim.x, p.colPitch);
    if op.select.SelectY? then op.deltaF[y / p.rowPitch] else op.deltaF[x / p.colPitch]
  }

  /** `d` is `x` without its fraction. */
  ghost predicate IsCutOff(d: int, x: real) {
    if x >= 0.0 then d >= 0 && x - 1.0 < d as real <= x else d <= 0 && x <= d as real < x + 1.0
  }

  /** `n` is the pixel value that is nearest to `sum`. */
  ghost predicate IsNearestPixel(n: int, sum: int) {
    && 0 <= n <= 65535
    && (0 <= sum <= 65535 ==> n == sum) && (sum < 0 ==> n == 0) && (sum > 65535 ==> n == 65535)
  }

  /** `n` is `product` in units of 1024, rounded, as long as that is a pixel value. */
  ghost predicate IsRoundedPixel(n: int, product: int) {
    && 0 <= n <= 65535
    && if product < 1024 * 65535 + 512 then 1024 * n - 512 <= product < 1024 * n + 512 else n == 65535
  }

  ghost predicate IsNewU16(op: Opcode, cpp: nat, row: int, col: int, v: u16, n: u16)
    requires 0 < cpp && op.Fits(cpp)
  {
    if op.FixBadPixelsConstant? || op.TrimBounds? || !IsTouched(op, cpp, row, col) then n == v
    else if op.LookupOpcode? then n == op.lookup[v]
    else if op.kind.Offset? then IsOffsetPixel(n, v, 65535.0 * DeltaAt(op, cpp, row, col))
    else IsScaledPixel(n, v, 1024.0 * DeltaAt(op, cpp, row, col))
  }

  ghost predicate IsOffsetPixel(n: int, v: int, x: real) {
    exists d: int :: IsCutOff(d, x) && IsNearestPixel(n, v + d)
  }

  ghost predicate IsScaledPixel(n: int, v: int, x: real) {
    exists d: int :: IsCutOff(d, x) && IsRoundedPixel(n, d * v)
  }

  ghost predicate IsNewF32(op: Opcode, cpp: nat, row: int, col: int, v: real, n: real)
    requires 0 < cpp && op.Fits(cpp)
  {
    if !op.DeltaRowOrCol? || !IsTouched(op, cpp, row, col) then n == v
    else n == if op.kind.Offset? then v + DeltaAt(op, cpp, row, col) else v * DeltaAt(op, cpp, row, col)
  }

  lemma ColumnInCrop(col: int, left: nat, cpp: nat)
    requires cpp > 0
    ensures (col - cpp * left) / cpp == col / cpp - left && (col - cpp * left) % cpp == col % cpp
  {
    assert cpp * (col / cpp - left) == cpp * (col / cpp) - cpp * left;
    DivisionIsUnique(col - cpp * left, cpp, col / cpp - left, col % cpp);
  }

  /** The entries that are hit are the touched ones, and get the delta of their row or column. */
  lemma HitIsTouched(op: Opcode, cpp: nat, row: int, col: int)
    requires 0 < cpp && op.Fits(cpp) && (op.LookupOpcode? || op.DeltaRowOrCol?) && op.integrated.IsProper()
    ensures
      var y, x := row - op.integrated.pos.y, col - cpp * op.integrated.pos.x;
      && (IsTouched(op, cpp, row, col) <==> op.params.HitsRow(y) && op.params.HitsColumn(cpp, x))
      && (IsTouched(op, cpp, row, col) && op.DeltaRowOrCol? ==>
            DeltaAt(op, cpp, row, col) == op.deltaF[op.select.Of(op.params.XOf(cpp, x), op.params.YOf(y))])
  {
    ColumnInCrop(col, op.integrated.pos.x, cpp);
  }

  lemma CutOffIsTowardsZero(x: real)
    ensures IsCutOff(TowardsZero(x), x)
  {
  }

  /** What a delta does to a pixel. */
  lemma DeltaOpMeans(kind: DeltaKind, delta: int, v: u16)
    requires kind.DeltaIsSmall(delta)
    ensures kind.Offset? ==> IsNearestPixel(DeltaOp(kind, delta, v), v + delta)
    ensures kind.Scale? ==> IsRoundedPixel(DeltaOp(kind, delta, v), delta * v)
  {
    if kind.Scale? {
      ScaleFits(delta, v);
      RoundedDivision(delta * v);
    }
  }

  lemma RoundedDivision(product: nat)
    ensures IsRoundedPixel(ClampBits16((product + 512) / 1024), product)
  {
    var q := (product + 512) / 1024;
    assert 1024 * q <= product + 512 < 1024 * q + 1024;
  }

  lemma NewU16Means(op: Opcode, cpp: nat, row: int, col: int, v: u16)
    requires 0 < cpp && op.Fits(cpp) && op.DeltasAreOk() && op.integrated.IsProper()
    ensures IsNewU16(op, cpp, row, col, v, NewU16(op, cpp, row, col, v))
  {
    hide PixelParams.HitsColumn, PixelParams.HitsRow, PixelParams.XOf, PixelParams.YOf, IsCutOff, TowardsZero;
    hide IsOffsetPixel, IsScaledPixel, DeltaOp, DeltaAt, IsTouched, DeltaKind.IsUsable, RoundUpDivisionSafe;
    if op.LookupOpcode? || op.DeltaRowOrCol? {
      HitIsTouched(op, cpp, row, col);
      if op.DeltaRowOrCol? && IsTouched(op, cpp, row, col) {
        ConvertedDelta(op.kind, DeltaAt(op, cpp, row, col), v);
      }
    }
  }

  lemma ConvertedDelta(kind: DeltaKind, f: real, v: u16)
    requires kind.IsUsable(f)
    ensures
      var d := TowardsZero(kind.F2iScale() * f);
      && kind.DeltaIsSmall(d)
      && (kind.Offset? ==> IsOffsetPixel(DeltaOp(kind, d, v), v, 65535.0 * f))
      && (kind.Scale? ==> IsScaledPixel(DeltaOp(kind, d, v), v, 1024.0 * f))
  {
    var d := TowardsZero(kind.F2iScale() * f);
    ValueIsOkIff(kind, f);
    DeltaArithmeticFits(kind, f, v);
    DeltaOpMeans(kind, d, v);
    CutOffIsTowardsZero(kind.F2iScale() * f);
    hide IsCutOff, TowardsZero, DeltaOp, IsNearestPixel, IsRoundedPixel;
  }

  lemma U16Means(op: Opcode, cpp: nat)
    requires 0 < cpp && op.Fits(cpp) && op.DeltasAreOk() && op.integrated.IsProper()
    ensures forall r: int, c: int, v: u16 :: IsNewU16(op, cpp, r, c, v, NewU16(op, cpp, r, c, v))
  {
    hide NewU16, IsNewU16;
    forall r: int, c: int, v: u16
      ensures IsNewU16(op, cpp, r, c, v, NewU16(op, cpp, r, c, v))
    {
      NewU16Means(op, cpp, r, c, v);
    }
  }

  lemma F32Means(op: Opcode, cpp: nat)
    requires 0 < cpp && op.Fits(cpp) && op.integrated.IsProper()
    ensures forall r: int, c: int, v: real :: IsNewF32(op, cpp, r, c, v, NewF32(op, cpp, r, c, v))
  {
    hide NewF32, IsNewF32;
    forall r: int, c: int, v: real
      ensures IsNewF32(op, cpp, r, c, v, NewF32(op, cpp, r, c, v))
    {
      NewF32Means(op, cpp, r, c, v);
    }
  }

  lemma NewF32Means(op: Opcode, cpp: nat, row: int, col: int, v: real)
    requires 0 < cpp && op.Fits(cpp) && op.integrated.IsProper()
    ensures IsNewF32(op, cpp, row, col, v, NewF32(op, cpp, row, col, v))
  {
    if op.DeltaRowOrCol? {
      HitIsTouched(op, cpp, row, col);
      hide PixelParams.HitsColumn, PixelParams.HitsRow, PixelParams.XOf, PixelParams.YOf;
    }
  }

  lemma SmallDeltas(op: Opcode, deltaI: seq<int>)
    requires op.DeltaRowOrCol? && AreDeltas(op, deltaI)
    ensures forall i :: 0 <= i < |deltaI| ==> op.kind.DeltaIsSmall(deltaI[i])
  {
    forall i | 0 <= i < |deltaI|
      ensures op.kind.DeltaIsSmall(deltaI[i])
    {
      ValueIsOkIff(op.kind, op.deltaF[i]);
      DeltaArithmeticFits(op.kind, op.deltaF[i], 0);
    }
  }

  /** What a run of `applyOP` on the integer buffer comes to. */
  method ApplyToU16(op: Opcode, deltaI: seq<int>, ri: RawImage)
    requires ri.Valid() && ri.dataType.UINT16? && op.integrated == ri.Crop() && op.Fits(ri.cpp)
    requires op.LookupOpcode? || op.DeltaRowOrCol?
    requires op.DeltaRowOrCol? ==> AreDeltas(op, deltaI)
    modifies ri.u16Data
    ensures forall r, c :: 0 <= r < ri.u16Data.Length0 && 0 <= c < ri.u16Data.Length1 ==>
                             ri.u16Data[r, c] == NewU16(op, ri.cpp, r, c, old(ri.u16Data[r, c]))
    ensures forall r, c :: 0 <= r < ri.u16Data.Length0 && 0 <= c < ri.u16Data.Length1 ==>
                             IsNewU16(op, ri.cpp, r, c, old(ri.u16Data[r, c]), ri.u16Data[r, c])
  {
    U16Means(op, ri.cpp);
    hide NewU16, IsNewU16;
    FillU16(op, deltaI, ri);
  }

  /** The loops of that. */
  method FillU16(op: Opcode, deltaI: seq<int>, ri: RawImage)
    requires ri.Valid() && ri.dataType.UINT16? && op.integrated == ri.Crop() && op.Fits(ri.cpp)
    requires op.LookupOpcode? || op.DeltaRowOrCol?
    requires op.DeltaRowOrCol? ==> AreDeltas(op, deltaI)
    modifies ri.u16Data
    ensures forall r, c :: 0 <= r < ri.u16Data.Length0 && 0 <= c < ri.u16Data.Length1 ==>
                             ri.u16Data[r, c] == NewU16(op, ri.cpp, r, c, old(ri.u16Data[r, c]))
  {
    hide PixelParams.HitsColumn, PixelParams.HitsRow, PixelParams.XOf, PixelParams.YOf, DeltaOp, TowardsZero;
    CropColumns(ri.mOffset.x, ri.dim.x, ri.uncroppedDim.x, ri.cpp);
    if op.LookupOpcode? {
      var lookup := op.lookup;
      ApplyOP(ri.u16Data, op.params, ri.cpp, ri.Crop(), (x: nat, y: nat, v: u16) => lookup[v]);
    } else {
      var kind, select := op.kind, op.select;
      SmallDeltas(op, deltaI);
      ApplyOP(ri.u16Data, op.params, ri.cpp, ri.Crop(),
              (x: nat, y: nat, v: u16)
                requires select.Of(x, y) < |deltaI| && kind.DeltaIsSmall(deltaI[select.Of(x, y)])
                => DeltaOp(kind, deltaI[select.Of(x, y)], v));
    }
  }

  /** And on the floating point buffer. */
  method ApplyToF32(op: Opcode, ri: RawImage)
    requires ri.Valid() && ri.dataType.F32? && op.integrated == ri.Crop() && op.Fits(ri.cpp) && op.DeltaRowOrCol?
    modifies ri.f32Data
    ensures forall r, c :: 0 <= r < ri.f32Data.Length0 && 0 <= c < ri.f32Data.Length1 ==>
                             ri.f32Data[r, c] == NewF32(op, ri.cpp, r, c, old(ri.f32Data[r, c]))
  {
    hide PixelParams.HitsColumn, PixelParams.HitsRow, PixelParams.XOf, PixelParams.YOf;
    CropColumns(ri.mOffset.x, ri.dim.x, ri.uncroppedDim.x, ri.cpp);
    var kind, select, deltaF := op.kind, op.select, op.deltaF;
    ApplyOP(ri.f32Data, op.params, ri.cpp, ri.Crop(),
            (x: nat, y: nat, v: real) requires select.Of(x, y) < |deltaF| =>
              if kind.Offset? then deltaF[select.Of(x, y)] + v else deltaF[select.Of(x, y)] * v);
  }

  /** `apply`, after `setup`. The crop must be the one that was tracked. */
  method Apply(op: Opcode, deltaI: seq<int>, ri: RawImage) returns (ok: bool, ghost bad: seq<nat>)
    requires ri.Valid() && op.integrated == ri.Crop() && op.Fits(ri.cpp)
    requires op.TrimBounds? || op.Runs(ri.dataType, ri.cpp, ri.FilterIsKnown())
    requires op.DeltaRowOrCol? && ri.dataType.UINT16? ==> AreDeltas(op, deltaI)
    modifies ri`mOffset, ri`dim, ri`mBadPixelPositions, ri.cfa`cfa, ri.u16Data, ri.f32Data
    ensures ri.Valid()
    ensures ok <==> op.Runs(ri.dataType, ri.cpp, old(ri.FilterIsKnown()))
    ensures ri.Crop() == if ok then Moved(op.integrated, op) else op.integrated
    ensures if ok && op.TrimBounds? then ColorsMove(ri.isCFA, old(ri.cfa.cfa), ri.cfa.cfa, ri.cfa.size, op.roi.pos)
            else ri.cfa.cfa == old(ri.cfa.cfa)
    ensures ri.mBadPixelPositions == old(ri.mBadPixelPositions) + bad
    ensures if op.FixBadPixelsConstant? then
              LiesIn(ri.Crop(), ri.u16Data) && AreBadPixels(ri.u16Data, ri.Crop(), op.value, bad, ri.dim.y, 0)
            else bad == []
    ensures ri.dataType.UINT16? ==>
              forall r, c :: 0 <= r < ri.u16Data.Length0 && 0 <= c < ri.u16Data.Length1 ==>
                               ri.u16Data[r, c] == NewU16(op, ri.cpp, r, c, old(ri.u16Data[r, c]))
    ensures ri.dataType.UINT16? ==>
              forall r, c :: 0 <= r < ri.u16Data.Length0 && 0 <= c < ri.u16Data.Length1 ==>
                               IsNewU16(op, ri.cpp, r, c, old(ri.u16Data[r, c]), ri.u16Data[r, c])
    ensures ri.dataType.F32? ==>
              forall r, c :: 0 <= r < ri.f32Data.Length0 && 0 <= c < ri.f32Data.Length1 ==>
                               ri.f32Data[r, c] == NewF32(op, ri.cpp, r, c, old(ri.f32Data[r, c]))
    ensures ri.dataType.F32? ==>
              forall r, c :: 0 <= r < ri.f32Data.Length0 && 0 <= c < ri.f32Data.Length1 ==>
                               IsNewF32(op, ri.cpp, r, c, old(ri.f32Data[r, c]), ri.f32Data[r, c])
  {
    if ri.dataType.UINT16? {
      U16Means(op, ri.cpp);
    } else {
      F32Means(op, ri.cpp);
    }
    hide IsNewU16, IsNewF32;
    hide PixelParams.Fit, PixelParams.HitsColumn, PixelParams.HitsRow, PixelParams.XOf, PixelParams.YOf;
    hide ColorsMove, IsKnown, AreBadPixels, ColorFilterArray.Valid;
    ok, bad := true, [];
    match op {
      case FixBadPixelsConstant(_, value) =>
        bad := ri.FixBadPixelsConstant(value);
      case TrimBounds(_, roi) =>
        ok := ri.SubFrame(roi);
      case LookupOpcode(_, _, _) =>
        ApplyToU16(op, deltaI, ri);
      case DeltaRowOrCol(_, _, _, _, _) =>
        if ri.dataType.UINT16? {
          ApplyToU16(op, deltaI, ri);
        } else {
          ApplyToF32(op, ri);
        }
    }
  }

  lemma CropColumns(offset: nat, width: nat, uncropped: nat, cpp: nat)
    requires offset + width <= uncropped
    ensures cpp * offset + cpp * width <= cpp * uncropped
  {
    ProductOrder(cpp, offset + width, uncropped);
    assert cpp * (offset + width) == cpp * offset + cpp * width;
  }

  // ----- whole runs

  /** An entry of the integer buffer after a list of opcodes. */
  function AfterU16(ops: seq<Opcode>, cpp: nat, row: int, col: int, v: u16): u16
    requires 0 < cpp && forall op :: op in ops ==> op.Fits(cpp) && op.DeltasAreOk()
  {
    if ops == [] then v
    else NewU16(ops[|ops| - 1], cpp, row, col, AfterU16(ops[..|ops| - 1], cpp, row, col, v))
  }

  function AfterF32(ops: seq<Opcode>, cpp: nat, row: int, col: int, v: real): real
    requires 0 < cpp && forall op :: op in ops ==> op.Fits(cpp)
  {
    if ops == [] then v
    else NewF32(ops[|ops| - 1], cpp, row, col, AfterF32(ops[..|ops| - 1], cpp, row, col, v))
  }

  lemma NextOpcode(start: Rect, ops: seq<Opcode>, cpp: nat, i: nat)
    requires 0 < cpp && Chain(start, ops, cpp) && i < |ops|
    ensures ops[i].Fits(cpp) && ops[i].integrated == CropAfter(start, ops[..i])
    ensures CropAfter(start, ops[..i + 1]) == Moved(CropAfter(start, ops[..i]), ops[i])
    ensures forall op :: op in ops[..i + 1] ==> op.Fits(cpp)
    ensures (forall op :: op in ops[..i + 1] ==> op.DeltasAreOk()) ==>
              forall r: int, c: int, v: u16 ::
                AfterU16(ops[..i + 1], cpp, r, c, v) == NewU16(ops[i], cpp, r, c, AfterU16(ops[..i], cpp, r, c, v))
    ensures forall r: int, c: int, v: real ::
              AfterF32(ops[..i + 1], cpp, r, c, v) == NewF32(ops[i], cpp, r, c, AfterF32(ops[..i], cpp, r, c, v))
  {
    hide Opcode.Fits, NewU16, NewF32;
    var head := ops[..i + 1];
    assert head[..i] == ops[..i] && head[i] == ops[i];
    AllFit(start, ops, cpp, i + 1);
    AllFit(start, ops, cpp, i);
  }

  lemma AllFit(start: Rect, ops: seq<Opcode>, cpp: nat, i: nat)
    requires Chain(start, ops, cpp) && i <= |ops|
    ensures forall op :: op in ops[..i] ==> op.Fits(cpp)
  {
    hide Opcode.Fits;
    forall op | op in ops[..i]
      ensures op.Fits(cpp)
    {
      var k :| 0 <= k < i && ops[k] == op;
    }
  }

  lemma NothingRun(start: Rect, ops: seq<Opcode>, cpp: nat)
    requires 0 < cpp
    ensures ops[..0] == [] && CropAfter(start, ops[..0]) == start
    ensures forall r: int, c: int, v: u16 :: AfterU16(ops[..0], cpp, r, c, v) == v
    ensures forall r: int, c: int, v: real :: AfterF32(ops[..0], cpp, r, c, v) == v
  {
  }

  /** The contents of a buffer. */
  ghost function Rows<T>(a: array2<T>): (s: seq<seq<T>>)
    reads a
    ensures |s| == a.Length0 && forall r :: 0 <= r < |s| ==> |s[r]| == a.Length1
    ensures forall r, c :: 0 <= r < |s| && 0 <= c < a.Length1 ==> s[r][c] == a[r, c]
  {
    seq(a.Length0, r requires 0 <= r < a.Length0 reads a =>
      seq(a.Length1, c requires 0 <= c < a.Length1 reads a => a[r, c]))
  }

  /** The corners of the crops among the opcodes. */
  function MovesOf(ops: seq<Opcode>): seq<Point> {
    if ops == [] then []
    else
      var init, last := MovesOf(ops[..|ops| - 1]), ops[|ops| - 1];
      if last.TrimBounds? then init + [last.roi.pos] else init
  }

  /** They are proper crops, and add up to how far the corner has moved. */
  lemma {:induction false} MovesAddUp(start: Rect, ops: seq<Opcode>, cpp: nat)
    requires forall op :: op in ops ==> op.Fits(cpp)
    ensures AreCrops(MovesOf(ops)) && CropAfter(start, ops).pos == start.pos.Plus(SumOf(MovesOf(ops)))
  {
    if ops != [] {
      var init, last := ops[..|ops| - 1], ops[|ops| - 1];
      MovesAddUp(start, init, cpp);
      assert last in ops;
      if last.TrimBounds? {
        assert MovesOf(ops)[..|MovesOf(init)|] == MovesOf(init);
      }
    }
  }

  /** What an image looks like before a run. */
  datatype Start = Start(crop: Rect, pattern: seq<CFAColor>, filterIsKnown: bool,
                         u16Rows: seq<seq<u16>>, f32Rows: seq<seq<real>>)

  ghost function StartOf(ri: RawImage): Start
    reads ri, ri.cfa, ri.u16Data, ri.f32Data
  {
    Start(ri.Crop(), ri.cfa.cfa, ri.FilterIsKnown(), Rows(ri.u16Data), Rows(ri.f32Data))
  }

  /** `ri` is what the opcodes `ops` make of an image that started like this. */
  ghost predicate IsAfter(ri: RawImage, start: Start, ops: seq<Opcode>)
    requires forall op :: op in ops ==> op.Fits(ri.cpp)
    reads ri, ri.cfa, ri.u16Data, ri.f32Data
  {
    && ri.Valid() && ri.Crop() == CropAfter(start.crop, ops)
    && ri.FilterIsKnown() == start.filterIsKnown
    && ri.cfa.cfa == AfterCrops(ri.isCFA, start.pattern, ri.cfa.size, MovesOf(ops))
    && (ri.dataType.UINT16? ==>
          && (forall op :: op in ops ==> op.DeltasAreOk())
          && |start.u16Rows| == ri.u16Data.Length0
          && (forall r :: 0 <= r < |start.u16Rows| ==> |start.u16Rows[r]| == ri.u16Data.Length1)
          && forall r, c :: 0 <= r < |start.u16Rows| && 0 <= c < ri.u16Data.Length1 ==>
                              ri.u16Data[r, c] == AfterU16(ops, ri.cpp, r, c, start.u16Rows[r][c]))
    && (ri.dataType.F32? ==>
          && |start.f32Rows| == ri.f32Data.Length0
          && (forall r :: 0 <= r < |start.f32Rows| ==> |start.f32Rows[r]| == ri.f32Data.Length1)
          && forall r, c :: 0 <= r < |start.f32Rows| && 0 <= c < ri.f32Data.Length1 ==>
                              ri.f32Data[r, c] == AfterF32(ops, ri.cpp, r, c, start.f32Rows[r][c]))
  }

  /** The colour filter keeps up with one more opcode. */
  lemma FilterAfter(ops: seq<Opcode>, i: nat, isCFA: bool, pattern: seq<CFAColor>,
                    before: seq<CFAColor>, after: seq<CFAColor>, size: Point)
    requires i < |ops| && before == AfterCrops(isCFA, pattern, size, MovesOf(ops[..i]))
    requires if ops[i].TrimBounds? then ColorsMove(isCFA, before, after, size, ops[i].roi.pos) else after == before
    ensures after == AfterCrops(isCFA, pattern, size, MovesOf(ops[..i + 1]))
    ensures IsKnown(isCFA, after, size) <==> IsKnown(isCFA, before, size)
  {
    hide ColorsMove, IsKnown, AfterCrop;
    var more := ops[..i + 1];
    assert more[..i] == ops[..i] && more[i] == ops[i];
    if ops[i].TrimBounds? {
      MoveIsAfterCrop(isCFA, before, after, size, ops[i].roi.pos);
      MovedIsKnown(isCFA, before, after, size, ops[i].roi.pos);
      var moves := MovesOf(more);
      assert moves[..|moves| - 1] == MovesOf(ops[..i]);
    }
  }

  /** One step of the run. */
  method RunOpcode(opcodes: seq<Opcode>, i: nat, ri: RawImage, ghost start: Start) returns (ok: bool)
    requires i < |opcodes| && 0 < ri.cpp && Chain(start.crop, opcodes, ri.cpp)
    requires forall op :: op in opcodes ==> op.Fits(ri.cpp)
    requires IsAfter(ri, start, opcodes[..i])
    modifies ri`mOffset, ri`dim, ri`mBadPixelPositions, ri.cfa`cfa, ri.u16Data, ri.f32Data
    ensures ok <==> opcodes[i].Runs(ri.dataType, ri.cpp, start.filterIsKnown)
    ensures ok ==> IsAfter(ri, start, opcodes[..i + 1])
    ensures !ok ==> ri.Valid() && ri.Crop() == CropAfter(start.crop, opcodes[..i])
    ensures old(ri.mBadPixelPositions) <= ri.mBadPixelPositions
  {
    hide Opcode.Fits, Opcode.Runs, NewU16, NewF32, Moved, AfterU16, AfterF32, CropAfter, Chain;
    hide AfterCrops, ColorsMove, IsKnown, AreBadPixels, ColorFilterArray.Valid, MovesOf;
    NextOpcode(start.crop, opcodes, ri.cpp, i);
    var deltaI;
    ok, deltaI := Setup(opcodes[i], ri);
    if ok {
      ghost var before, bad := ri.cfa.cfa, [];
      ok, bad := Apply(opcodes[i], deltaI, ri);
      if ok {
        FilterAfter(opcodes, i, ri.isCFA, start.pattern, before, ri.cfa.cfa, ri.cfa.size);
      }
    }
  }

  /** `applyOpCodes`: before each step the crop of the image is the one that was tracked (`Setup` and
      `Apply` ask for nothing less), until an opcode throws. If none does, every pixel is what the
      opcodes make of it one after the other, and the colour filter has moved with the crop. */
  method ApplyOpCodes(opcodes: seq<Opcode>, ri: RawImage) returns (ok: bool, done: nat)
    requires ri.Valid() && Chain(ri.Crop(), opcodes, ri.cpp)
    modifies ri`mOffset, ri`dim, ri`mBadPixelPositions, ri.cfa`cfa, ri.u16Data, ri.f32Data
    ensures ri.Valid() && done <= |opcodes|
    ensures ok <==> done == |opcodes|
    ensures ok <==> forall i :: 0 <= i < |opcodes| ==> opcodes[i].Runs(ri.dataType, ri.cpp, old(ri.FilterIsKnown()))
    ensures !ok ==> !opcodes[done].Runs(ri.dataType, ri.cpp, old(ri.FilterIsKnown()))
    ensures ri.Crop() == CropAfter(old(ri.Crop()), opcodes[..done])
    ensures forall op :: op in opcodes ==> op.Fits(ri.cpp)
    ensures ok ==> IsAfter(ri, old(StartOf(ri)), opcodes)
    ensures ok ==> ColorsFollow(ri.isCFA, old(ri.cfa.cfa), ri.cfa.cfa, ri.cfa.size, ri.mOffset.Minus(old(ri.mOffset)))
    ensures old(ri.mBadPixelPositions) <= ri.mBadPixelPositions
  {
    ghost var start := StartOf(ri);
    hide Opcode.Fits, Opcode.Runs, IsAfter, CropAfter, Chain, IsKnown, ColorFilterArray.Valid;
    AllFit(ri.Crop(), opcodes, ri.cpp, |opcodes|);
    assert opcodes[..|opcodes|] == opcodes;
    NothingRunYet(ri, opcodes);
    ok, done := true, 0;
    while done < |opcodes|
      invariant 0 <= done <= |opcodes| && ok
      invariant IsAfter(ri, start, opcodes[..done])
      invariant forall i :: 0 <= i < done ==> opcodes[i].Runs(ri.dataType, ri.cpp, start.filterIsKnown)
      invariant old(ri.mBadPixelPositions) <= ri.mBadPixelPositions
    {
      ok := RunOpcode(opcodes, done, ri, start);
      if !ok {
        return;
      }
      done := done + 1;
    }
    AfterFacts(ri, start, opcodes);
    ColorsAfter(ri, start, opcodes);
  }

  lemma NothingRunYet(ri: RawImage, opcodes: seq<Opcode>)
    requires ri.Valid() && forall op :: op in opcodes ==> op.Fits(ri.cpp)
    ensures IsAfter(ri, StartOf(ri), opcodes[..0])
  {
    NothingRun(ri.Crop(), opcodes, ri.cpp);
    hide AfterU16, AfterF32, CropAfter, Opcode.Fits, IsKnown, ColorFilterArray.Valid;
    assert MovesOf(opcodes[..0]) == [];
  }

  /** The colours at the end of a run. */
  lemma ColorsAfter(ri: RawImage, start: Start, ops: seq<Opcode>)
    requires forall op :: op in ops ==> op.Fits(ri.cpp)
    requires IsAfter(ri, start, ops)
    ensures ColorsFollow(ri.isCFA, start.pattern, ri.cfa.cfa, ri.cfa.size, ri.mOffset.Minus(start.crop.pos))
  {
    hide AfterU16, AfterF32, Opcode.Fits, IsKnown, ColorFilterArray.Valid, AfterCrops, ColorsFollow, CropAfter;
    MovesAddUp(start.crop, ops, ri.cpp);
    AfterCropsFollow(ri.isCFA, start.pattern, ri.cfa.size, MovesOf(ops));
    assert ri.mOffset == ri.Crop().pos;
    assert ri.mOffset.Minus(start.crop.pos) == SumOf(MovesOf(ops));
  }

  lemma AfterFacts(ri: RawImage, start: Start, ops: seq<Opcode>)
    requires forall op :: op in ops ==> op.Fits(ri.cpp)
    requires IsAfter(ri, start, ops)
    ensures ri.Valid() && ri.Crop() == CropAfter(start.crop, ops)
  {
  }
}
