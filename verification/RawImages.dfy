/** An image that is cropped without being copied: the crop is a window into the pixel buffer.

    The colour filter is told from the corner of the crop, so that it moves with it.
 */
module RawImages {
  import opened Bits
  import opened ColorFilterArrays
  import opened Points

  type u16 = v: nat | v < 0x1_0000

  datatype PixelType = UINT16 | F32

  // ----- colour filters

  /** What a crop whose corner is `move` makes of the colour filter. */
  ghost predicate ColorsMove(isCFA: bool, before: seq<CFAColor>, after: seq<CFAColor>, size: Point, move: Point) {
    if isCFA && IsAdjusted(before, size) then IsPattern(after, size) && IsShifted(before, after, size, move.x, move.y)
    else after == before
  }

  /** What crops whose corners add up to `move` have made of it: the colours have stayed where they
      are on the sensor, unless the pattern is mistaken from somewhere. */
  ghost predicate ColorsFollow(isCFA: bool, start: seq<CFAColor>, now: seq<CFAColor>, size: Point, move: Point) {
    if isCFA && IsPattern(start, size) && IsSmall(size) then
      IsPattern(now, size) && (NeverMistaken(start, size) ==> IsShifted(start, now, size, move.x, move.y))
    else now == start
  }

  /** What one crop makes of the colour filter, and what a list of crops does. */
  ghost function AfterCrop(isCFA: bool, cfa: seq<CFAColor>, size: Point, move: Point): seq<CFAColor> {
    if isCFA && IsAdjusted(cfa, size) then ShiftedPattern(cfa, size, move.x, move.y) else cfa
  }

  ghost function AfterCrops(isCFA: bool, cfa: seq<CFAColor>, size: Point, moves: seq<Point>): seq<CFAColor> {
    if moves == [] then cfa
    else AfterCrop(isCFA, AfterCrops(isCFA, cfa, size, moves[..|moves| - 1]), size, moves[|moves| - 1])
  }

  function SumOf(moves: seq<Point>): Point {
    if moves == [] then Point(0, 0) else SumOf(moves[..|moves| - 1]).Plus(moves[|moves| - 1])
  }

  /** A crop leaves nothing open. */
  lemma MoveIsAfterCrop(isCFA: bool, before: seq<CFAColor>, after: seq<CFAColor>, size: Point, move: Point)
    ensures ColorsMove(isCFA, before, after, size, move) <==> after == AfterCrop(isCFA, before, size, move)
  {
    hide IsPattern, IsShifted, IsSmall, IsFilterOf, ShiftedPattern;
    if isCFA && IsAdjusted(before, size) && ColorsMove(isCFA, before, after, size, move) {
      ShiftIsUnique(before, after, ShiftedPattern(before, size, move.x, move.y), size, move.x, move.y);
    }
  }

  /** The colours follow a list of crops. */
  lemma {:induction false} AfterCropsFollow(isCFA: bool, cfa: seq<CFAColor>, size: Point, moves: seq<Point>)
    ensures ColorsFollow(isCFA, cfa, AfterCrops(isCFA, cfa, size, moves), size, SumOf(moves))
  {
    if moves == [] {
      StandingStill(isCFA, cfa, size);
    } else {
      hide ColorsFollow, ColorsMove, AfterCrop;
      var init, last := moves[..|moves| - 1], moves[|moves| - 1];
      var before := AfterCrops(isCFA, cfa, size, init);
      AfterCropsFollow(isCFA, cfa, size, init);
      MoveIsAfterCrop(isCFA, before, AfterCrop(isCFA, before, size, last), size, last);
      ColorsFollowOn(isCFA, cfa, before, AfterCrop(isCFA, before, size, last), size, SumOf(init), last);
    }
  }

  // ----- when all lists of crops are right

  /** Every list of crops moves all colours of the pattern with it. */
  ghost predicate EveryRunIsRight(cfa: seq<CFAColor>, size: Point)
    requires IsPattern(cfa, size)
  {
    forall moves: seq<Point> :: AreCrops(moves) ==> RunIsRight(cfa, size, moves)
  }

  /** The corners lie inside. */
  predicate AreCrops(moves: seq<Point>) {
    forall move :: move in moves ==> Point(0, 0).AtMost(move)
  }

  ghost predicate RunIsRight(cfa: seq<CFAColor>, size: Point, moves: seq<Point>)
    requires IsPattern(cfa, size)
  {
    var after := AfterCrops(true, cfa, size, moves);
    IsPattern(after, size) && IsShifted(cfa, after, size, SumOf(moves).x, SumOf(moves).y)
  }

  /** That is so exactly for the patterns that are mistaken from nowhere, and trivially for uniform
      ones. A pattern that is mistaken from somewhere goes wrong with at most two crops: one to get
      there, and one that is not followed. */
  lemma EveryRunIsRightIff(cfa: seq<CFAColor>, size: Point)
    requires IsPattern(cfa, size)
    ensures EveryRunIsRight(cfa, size) <==> NeverMistaken(cfa, size) || IsUniform(cfa)
    ensures IsSmall(size) ==> (EveryRunIsRight(cfa, size) <==> NeverMistaken(cfa, size))
  {
    hide IsPattern, NeverMistaken, IsUniform, RunIsRight, IsSmall;
    if NeverMistaken(cfa, size) || IsUniform(cfa) {
      forall moves: seq<Point> | AreCrops(moves)
        ensures RunIsRight(cfa, size, moves)
      {
        if NeverMistaken(cfa, size) {
          NeverMistakenRun(cfa, size, moves);
        } else {
          UniformRun(cfa, size, moves);
        }
      }
    } else {
      var moves := WrongRun(cfa, size);
    }
    if IsSmall(size) && IsUniform(cfa) {
      UniformIsNeverMistaken(cfa, size);
    }
  }

  lemma NeverMistakenRun(cfa: seq<CFAColor>, size: Point, moves: seq<Point>)
    requires IsPattern(cfa, size) && NeverMistaken(cfa, size)
    ensures RunIsRight(cfa, size, moves)
  {
    hide IsPattern, IsShifted, AfterCrops, SumOf;
    NeverMistakenIsSmall(cfa, size);
    hide NeverMistaken, IsSmall;
    AfterCropsFollow(true, cfa, size, moves);
  }

  lemma NeverMistakenIsSmall(cfa: seq<CFAColor>, size: Point)
    requires IsPattern(cfa, size) && NeverMistaken(cfa, size)
    ensures IsSmall(size) && IsAdjusted(cfa, size)
  {
    hide IsPattern, IsShifted, ShiftedPattern, IsFilterOf, IsSmall;
    ShiftByNothing(cfa, size);
    ShiftedIsAdjusted(cfa, cfa, size, 0, 0);
  }

  /** Every translate of a uniform pattern is the pattern itself. */
  lemma UniformIsSame(cfa: seq<CFAColor>, size: Point, dx: int, dy: int)
    requires IsPattern(cfa, size) && IsUniform(cfa)
    ensures IsShifted(cfa, cfa, size, dx, dy) && ShiftedPattern(cfa, size, dx, dy) == cfa
  {
    hide Color, IsPattern, ShiftedPattern;
    forall x, y
      ensures Color(cfa, size, x, y) == Color(cfa, size, x + dx, y + dy)
    {
      ColorIsEntry(cfa, size, x, y);
      ColorIsEntry(cfa, size, x + dx, y + dy);
    }
    ShiftIsUnique(cfa, cfa, ShiftedPattern(cfa, size, dx, dy), size, dx, dy);
  }

  lemma {:induction false} UniformRun(cfa: seq<CFAColor>, size: Point, moves: seq<Point>)
    requires IsPattern(cfa, size) && IsUniform(cfa)
    ensures AfterCrops(true, cfa, size, moves) == cfa && RunIsRight(cfa, size, moves)
  {
    hide IsPattern, IsShifted, ShiftedPattern, IsAdjusted, IsUniform;
    UniformIsSame(cfa, size, SumOf(moves).x, SumOf(moves).y);
    if moves != [] {
      UniformRun(cfa, size, moves[..|moves| - 1]);
      UniformIsSame(cfa, size, moves[|moves| - 1].x, moves[|moves| - 1].y);
    }
  }

  lemma UniformIsNeverMistaken(cfa: seq<CFAColor>, size: Point)
    requires IsPattern(cfa, size) && IsSmall(size) && IsUniform(cfa)
    ensures NeverMistaken(cfa, size)
  {
    hide IsPattern, IsShifted, ShiftedPattern, IsAdjusted, IsUniform, IsSmall;
    forall dx, dy
      ensures IsAdjusted(ShiftedPattern(cfa, size, dx, dy), size)
    {
      UniformIsSame(cfa, size, dx, dy);
      if !IsAdjusted(cfa, size) {
        MistakenIsNotUniform(cfa, size);
      }
    }
  }

  /** A list of crops that goes wrong. */
  lemma WrongRun(cfa: seq<CFAColor>, size: Point) returns (moves: seq<Point>)
    requires IsPattern(cfa, size) && !NeverMistaken(cfa, size) && !IsUniform(cfa)
    ensures AreCrops(moves) && !RunIsRight(cfa, size, moves)
  {
    hide IsPattern, IsShifted, ShiftedPattern, IsUniform, IsFilterOf, IsSmall;
    if IsAdjusted(cfa, size) {
      var dx, dy :| !IsAdjusted(ShiftedPattern(cfa, size, dx, dy), size);
      hide IsAdjusted, NeverMistaken;
      moves := CropTwice(cfa, size, dx, dy);
    } else {
      SameFromEverywhereIff(cfa, size);
      var dx: nat, dy: nat :| !IsShifted(cfa, cfa, size, dx, dy);
      hide IsAdjusted, NeverMistaken;
      moves := [Point(dx, dy)];
      OneCrop(cfa, size, Point(dx, dy));
    }
  }

  lemma OneCrop(cfa: seq<CFAColor>, size: Point, move: Point)
    ensures AfterCrops(true, cfa, size, [move]) == AfterCrop(true, cfa, size, move) && SumOf([move]) == move
  {
    var moves := [move];
    assert moves[..0] == [];
    hide AfterCrop;
  }

  lemma TwoCrops(cfa: seq<CFAColor>, size: Point, move: Point, next: Point)
    ensures AfterCrops(true, cfa, size, [move, next]) == AfterCrop(true, AfterCrop(true, cfa, size, move), size, next)
    ensures SumOf([move, next]) == move.Plus(next)
  {
    var moves := [move, next];
    assert moves[..1] == [move];
    OneCrop(cfa, size, move);
    hide AfterCrop;
  }

  /** First to where the pattern is mistaken, then one column further. */
  lemma CropTwice(cfa: seq<CFAColor>, size: Point, dx: int, dy: int) returns (moves: seq<Point>)
    requires IsPattern(cfa, size) && IsAdjusted(cfa, size) && !IsAdjusted(ShiftedPattern(cfa, size, dx, dy), size)
    ensures AreCrops(moves) && !RunIsRight(cfa, size, moves)
  {
    hide IsPattern, IsShifted, ShiftedPattern, IsFilterOf, IsSmall;
    var mx, my := MoveInside(cfa, size, dx, dy);
    moves := [Point(mx, my), Point(1, 0)];
    TwoCrops(cfa, size, Point(mx, my), Point(1, 0));
    NotFollowed(cfa, ShiftedPattern(cfa, size, dx, dy), size, mx, my);
  }

  /** What a mistaken pattern looks like one column further, it does not look like now. */
  lemma NotFollowed(cfa: seq<CFAColor>, b: seq<CFAColor>, size: Point, dx: int, dy: int)
    requires IsPattern(cfa, size) && IsPattern(b, size) && IsShifted(cfa, b, size, dx, dy)
    requires IsSmall(size) && !IsAdjusted(b, size)
    ensures !IsShifted(cfa, b, size, dx + 1, dy + 0)
  {
    MistakenIsNotUniform(b, size);
    hide Color, IsPattern, IsAdjusted, IsSmall;
    assert Color(b, size, 1, 0) == Color(cfa, size, 1 + dx, 0 + dy);
    assert Color(b, size, 0, 0) != Color(cfa, size, 0 + (dx + 1), 0 + (dy + 0));
  }

  /** Every crop of the pattern moves its colours with it. */
  ghost predicate EveryCropIsRight(cfa: seq<CFAColor>, size: Point)
    requires IsPattern(cfa, size)
  {
    forall x: nat, y: nat, after: seq<CFAColor> :: ColorsMove(true, cfa, after, size, Point(x, y)) ==>
                                                     IsPattern(after, size) && IsShifted(cfa, after, size, x, y)
  }

  /** That is so exactly for the patterns that are shifted, and trivially for uniform ones, which
      among the small patterns are shifted as well. */
  lemma EveryCropIsRightIff(cfa: seq<CFAColor>, size: Point)
    requires IsPattern(cfa, size)
    ensures EveryCropIsRight(cfa, size) <==> IsAdjusted(cfa, size) || IsUniform(cfa)
    ensures IsSmall(size) ==> (EveryCropIsRight(cfa, size) <==> IsAdjusted(cfa, size))
  {
    hide IsPattern, IsShifted, IsAdjusted, IsUniform;
    SameFromEverywhereIff(cfa, size);
    if IsSmall(size) && !IsAdjusted(cfa, size) {
      MistakenIsNotUniform(cfa, size);
    }
    if EveryCropIsRight(cfa, size) && !IsAdjusted(cfa, size) {
      forall x: nat, y: nat
        ensures IsShifted(cfa, cfa, size, x, y)
      {
        assert ColorsMove(true, cfa, cfa, size, Point(x, y));
      }
    }
  }

  lemma StandingStill(isCFA: bool, cfa: seq<CFAColor>, size: Point)
    ensures ColorsFollow(isCFA, cfa, cfa, size, Point(0, 0))
  {
    hide IsPattern, IsShifted;
    if IsPattern(cfa, size) {
      ShiftByNothing(cfa, size);
    }
  }

  lemma ColorsFollowOn(isCFA: bool, start: seq<CFAColor>, before: seq<CFAColor>, after: seq<CFAColor>, size: Point,
                       move: Point, step: Point)
    requires ColorsFollow(isCFA, start, before, size, move) && ColorsMove(isCFA, before, after, size, step)
    ensures ColorsFollow(isCFA, start, after, size, move.Plus(step))
  {
    hide IsPattern, IsShifted, IsFilterOf, NeverMistaken;
    if isCFA && IsPattern(start, size) && IsSmall(size) && NeverMistaken(start, size) {
      ShiftedIsAdjusted(start, before, size, move.x, move.y);
      ShiftTwice(start, before, after, size, move.x, move.y, step.x, step.y);
    }
  }

  /** The encoding of the filter can be asked for. */
  ghost predicate IsKnown(isCFA: bool, cfa: seq<CFAColor>, size: Point) {
    isCFA && cfa != [] && IsSmall(size) ==> IsEncodable(cfa)
  }

  lemma MovedIsKnown(isCFA: bool, before: seq<CFAColor>, after: seq<CFAColor>, size: Point, move: Point)
    requires ColorsMove(isCFA, before, after, size, move)
    ensures IsKnown(isCFA, after, size) <==> IsKnown(isCFA, before, size)
  {
    hide IsPattern, IsShifted, IsFilterOf;
    if isCFA && IsAdjusted(before, size) {
      ShiftKeepsColors(before, after, size, move.x, move.y);
      PatternIsNotEmpty(before, size);
      PatternIsNotEmpty(after, size);
    }
  }

  lemma PatternIsNotEmpty(cfa: seq<CFAColor>, size: Point)
    requires IsPattern(cfa, size)
    ensures cfa != []
  {
    IndexInPattern(size, 0, 0);
  }

  // ----- bad pixels

  /** A position is stored as `x | (y << 16)`. */
  function PositionOf(x: nat, y: nat): nat {
    x + 0x1_0000 * y
  }

  lemma PositionByShift(x: nat, y: nat)
    requires x < 0x1_0000
    ensures Or(Shl(y, 16), x) == PositionOf(x, y)
  {
    ShlIsProduct(y, 16);
    SixteenBits();
    OrIsSum(y, 16, x);
  }

  lemma SixteenBits()
    ensures Pow2(16) == 0x1_0000
  {
    Pow2Sum(8, 8);
  }

  /** The two halves are found again. */
  lemma PositionIsDecoded(x: nat, y: nat)
    requires x < 0x1_0000
    ensures PositionOf(x, y) % 0x1_0000 == x && PositionOf(x, y) / 0x1_0000 == y
  {
    DivisionIsUnique(PositionOf(x, y), 0x1_0000, y, x);
  }

  lemma PositionOrder(x: nat, y: nat, p: nat)
    requires x < 0x1_0000
    ensures p < PositionOf(x, y) <==> p / 0x1_0000 < y || (p / 0x1_0000 == y && p % 0x1_0000 < x)
    ensures p == PositionOf(x, y) <==> p / 0x1_0000 == y && p % 0x1_0000 == x
  {
    PositionIsDecoded(x, y);
    assert p == 0x1_0000 * (p / 0x1_0000) + p % 0x1_0000;
  }

  /** The scan of a crop has passed this pixel when row `row` is done up to column `col`. */
  predicate IsScanned(crop: Rect, x: int, y: int, row: int, col: int) {
    && crop.pos.x <= x < crop.pos.x + crop.dim.x && crop.pos.y <= y
    && (y < crop.pos.y + row || (y == crop.pos.y + row && x < crop.pos.x + col))
  }

  /** The crop lies within the buffer. */
  ghost predicate LiesIn(crop: Rect, img: array2<u16>) {
    && crop.IsProper() && crop.BottomRight().AtMost(Point(img.Length1, img.Length0))
    && img.Length1 < 0x1_0000
  }

  /** The positions of the scanned pixels with this value, in ascending order. */
  ghost predicate AreBadPixels(img: array2<u16>, crop: Rect, value: nat, positions: seq<nat>, row: nat, col: nat)
    requires LiesIn(crop, img) && row <= crop.dim.y && (row == crop.dim.y ==> col == 0)
    reads img
  {
    && (forall i, j :: 0 <= i < j < |positions| ==> positions[i] < positions[j])
    && (forall p :: p in positions ==> IsBadPixel(img, crop, value, p, row, col))
    && (forall p: nat :: IsBadPixel(img, crop, value, p, row, col) ==> p in positions)
  }

  ghost predicate IsBadPixel(img: array2<u16>, crop: Rect, value: nat, p: nat, row: nat, col: nat)
    requires LiesIn(crop, img) && row <= crop.dim.y && (row == crop.dim.y ==> col == 0)
    reads img
  {
    var x, y := p % 0x1_0000, p / 0x1_0000;
    IsScanned(crop, x, y, row, col) && img[y, x] == value
  }

  lemma ScanOneMore(crop: Rect, row: nat, col: nat, p: nat)
    requires crop.IsProper() && crop.pos.x + crop.dim.x <= 0x1_0000 && col < crop.dim.x
    ensures
      var q := PositionOf(crop.pos.x + col, crop.pos.y + row);
      && (IsScanned(crop, p % 0x1_0000, p / 0x1_0000, row, col + 1)
          <==> IsScanned(crop, p % 0x1_0000, p / 0x1_0000, row, col) || p == q)
      && (IsScanned(crop, p % 0x1_0000, p / 0x1_0000, row, col) ==> p < q)
  {
    hide PositionOf;
    PositionOrder(crop.pos.x + col, crop.pos.y + row, p);
  }

  lemma OneMorePixel(img: array2<u16>, crop: Rect, value: nat, positions: seq<nat>, row: nat, col: nat)
    requires LiesIn(crop, img) && row < crop.dim.y && col < crop.dim.x
    requires AreBadPixels(img, crop, value, positions, row, col)
    ensures
      var x, y := crop.pos.x + col, crop.pos.y + row;
      AreBadPixels(img, crop, value, if img[y, x] == value then positions + [PositionOf(x, y)] else positions, row, col + 1)
  {
    var x: nat, y: nat := crop.pos.x + col, crop.pos.y + row;
    var more := if img[y, x] == value then positions + [PositionOf(x, y)] else positions;
    hide PositionOf;
    forall p: nat
      ensures IsScanned(crop, p % 0x1_0000, p / 0x1_0000, row, col + 1)
              <==> IsScanned(crop, p % 0x1_0000, p / 0x1_0000, row, col) || p == PositionOf(x, y)
      ensures IsScanned(crop, p % 0x1_0000, p / 0x1_0000, row, col) ==> p < PositionOf(x, y)
    {
      ScanOneMore(crop, row, col, p);
    }
    PositionOrder(x, y, PositionOf(x, y));
    hide IsScanned;
    forall i, j | 0 <= i < j < |more|
      ensures more[i] < more[j]
    {
      assert positions[i] in positions;
    }
  }

  lemma EndOfRow(img: array2<u16>, crop: Rect, value: nat, positions: seq<nat>, row: nat)
    requires LiesIn(crop, img) && row < crop.dim.y
    requires AreBadPixels(img, crop, value, positions, row, crop.dim.x)
    ensures AreBadPixels(img, crop, value, positions, row + 1, 0)
  {
    forall p: nat
      ensures IsScanned(crop, p % 0x1_0000, p / 0x1_0000, row + 1, 0)
              <==> IsScanned(crop, p % 0x1_0000, p / 0x1_0000, row, crop.dim.x)
    {
    }
    hide IsScanned;
  }

  /** The arithmetic of the source: two numbers or-ed together, then added. */
  lemma PositionOfPixel(offset: Point, row: nat, col: nat)
    requires 0 <= offset.x && 0 <= offset.y && offset.x + col < 0x1_0000 && offset.y + row < 0x1_0000
    ensures (Or(offset.x, Shl(offset.y, 16)) + Or(Shl(row, 16), col)) % 0x1_0000_0000
            == PositionOf(offset.x + col, offset.y + row)
  {
    hide Or, Shl;
    OrCommutes(offset.x, Shl(offset.y, 16));
    PositionByShift(offset.x, offset.y);
    PositionByShift(col, row);
    var p := PositionOf(offset.x + col, offset.y + row);
    DivisionIsUnique(p, 0x1_0000_0000, 0, p);
  }

  // ----- the image

  class RawImage {
    const dataType: PixelType
    const cpp: nat
    const uncroppedDim: Point

    /** The pixel buffer, seen as integers or as floating point numbers. */
    const u16Data: array2<u16>
    const f32Data: array2<real>

    const isCFA: bool
    const cfa: ColorFilterArray

    var mOffset: Point
    var dim: Point
    var mBadPixelPositions: seq<nat>

    ghost predicate Valid()
      reads this, cfa
    {
      && cpp > 0
      && Crop().IsProper() && Crop().HasPositiveArea() && Crop().BottomRight().AtMost(uncroppedDim)
      && uncroppedDim.AtMost(Point(0xFFFF, 0xFFFF))
      && (dataType.UINT16? ==> u16Data.Length0 == uncroppedDim.y && u16Data.Length1 == cpp * uncroppedDim.x)
      && (dataType.F32? ==> f32Data.Length0 == uncroppedDim.y && f32Data.Length1 == cpp * uncroppedDim.x)
      && cfa.Valid()
    }

    /** An image with a buffer for all its pixels, and nothing cropped yet. */
    constructor (dataType: PixelType, dim: Point, cpp: nat, isCFA: bool, cfa: ColorFilterArray)
      requires 0 < dim.x <= 0xFFFF && 0 < dim.y <= 0xFFFF && cpp > 0 && cfa.Valid()
      ensures Valid() && Crop() == Rect(Point(0, 0), dim) && mBadPixelPositions == []
      ensures this.dataType == dataType && this.cpp == cpp && this.uncroppedDim == dim
      ensures this.isCFA == isCFA && this.cfa == cfa
    {
      this.dataType, this.cpp, this.uncroppedDim, this.isCFA, this.cfa := dataType, cpp, dim, isCFA, cfa;
      var width := cpp * dim.x;
      u16Data := new u16[if dataType.UINT16? then dim.y else 0, if dataType.UINT16? then width else 0]((r, c) => 0);
      f32Data := new real[if dataType.F32? then dim.y else 0, if dataType.F32? then width else 0]((r, c) => 0.0);
      mOffset, this.dim, mBadPixelPositions := Point(0, 0), dim, [];
    }

    /** The current crop, in pixels. */
    function Crop(): Rect
      reads this
    {
      Rect(mOffset, dim)
    }

    ghost predicate FilterIsKnown()
      reads cfa
    {
      IsKnown(isCFA, cfa.cfa, cfa.size)
    }

    /** `getImageCropAsRectangle`: computed in buffer columns, then converted back. */
    method GetImageCropAsRectangle() returns (rect: Rect)
      requires Valid()
      ensures rect == Crop()
    {
      ColumnsToPixels(mOffset.x, cpp);
      ColumnsToPixels(dim.x, cpp);
      rect := Rect(Point(cpp * mOffset.x / cpp, mOffset.y), Point(cpp * dim.x / cpp, dim.y));
    }

    /** The rectangle can be cut out of the current crop. */
    predicate CanCrop(crop: Rect)
      reads this
    {
      && 0 <= crop.pos.x && crop.pos.x + crop.dim.x <= dim.x
      && 0 <= crop.pos.y && crop.pos.y + crop.dim.y <= dim.y
    }

    /** Throws for an empty rectangle, and for a colour filter that cannot be asked for its encoding.
        A rectangle that does not fit is skipped. */
    method SubFrame(crop: Rect) returns (ok: bool)
      requires Valid()
      modifies this`mOffset, this`dim, cfa`cfa
      ensures Valid()
      ensures ok <==>
              && crop.dim.x > 0 && crop.dim.y > 0
              && (old(CanCrop(crop)) && isCFA && old(cfa.cfa) != [] && IsSmall(cfa.size) ==>
                    UNKNOWN !in old(cfa.cfa) && END !in old(cfa.cfa))
      ensures if ok && old(CanCrop(crop)) then
                && mOffset.x == old(mOffset.x) + crop.pos.x && mOffset.y == old(mOffset.y) + crop.pos.y
                && dim == crop.dim
                && ColorsMove(isCFA, old(cfa.cfa), cfa.cfa, cfa.size, crop.pos)
              else
                mOffset == old(mOffset) && dim == old(dim) && cfa.cfa == old(cfa.cfa)
    {
      if !crop.HasPositiveArea() {
        return false;
      }
      if !crop.dim.AtMost(dim.Minus(crop.pos)) {
        return true;
      }
      if crop.pos.x < 0 || crop.pos.y < 0 || crop.dim.x < 0 || crop.dim.y < 0 {
        return true;
      }
      ok := AdjustFilter(crop.pos);
      if !ok {
        return;
      }
      mOffset := mOffset.Plus(crop.pos);
      dim := crop.dim;
    }

    /** Shifts the colour filter, unless its encoding says that it is no Bayer pattern. */
    method AdjustFilter(move: Point) returns (ok: bool)
      requires cfa.Valid()
      modifies cfa`cfa
      ensures cfa.Valid() && (ok <==> old(FilterIsKnown()))
      ensures if ok then ColorsMove(isCFA, old(cfa.cfa), cfa.cfa, cfa.size, move) else cfa.cfa == old(cfa.cfa)
    {
      if !isCFA {
        return true;
      }
      var filter := cfa.GetDcrawFilter();
      if filter.None? {
        return false;
      }
      AdjustedByFilter(cfa.cfa, cfa.size, filter.value);
      if filter.value != 1 && filter.value != 9 {
        hide IsPattern, IsShifted, IsAdjusted;
        ghost var before := cfa.cfa;
        var right := cfa.ShiftRight(move.x);
        ghost var middle := cfa.cfa;
        var down := cfa.ShiftDown(move.y);
        ShiftTwice(before, middle, cfa.cfa, cfa.size, move.x, 0, 0, move.y);
        assert move.x + 0 == move.x && 0 + move.y == move.y;
      }
      return true;
    }

    /** Records the pixels of the crop that have a given value. */
    method FixBadPixelsConstant(value: nat) returns (ghost added: seq<nat>)
      requires Valid() && dataType.UINT16? && cpp == 1
      modifies this`mBadPixelPositions
      ensures mBadPixelPositions == old(mBadPixelPositions) + added
      ensures LiesIn(Crop(), u16Data) && AreBadPixels(u16Data, Crop(), value, added, dim.y, 0)
    {
      hide PositionOf, AreBadPixels, Or, Shl;
      assert LiesIn(Crop(), u16Data);
      added := [];
      NoPixels(u16Data, Crop(), value);
      for row := 0 to dim.y
        invariant mBadPixelPositions == old(mBadPixelPositions) + added
        invariant AreBadPixels(u16Data, Crop(), value, added, row, 0)
      {
        for col := 0 to dim.x
          invariant mBadPixelPositions == old(mBadPixelPositions) + added
          invariant AreBadPixels(u16Data, Crop(), value, added, row, col)
        {
          PositionOfPixel(mOffset, row, col);
          OneMorePixel(u16Data, Crop(), value, added, row, col);
          if u16Data[mOffset.y + row, mOffset.x + col] == value {
            var offset := Or(mOffset.x, Shl(mOffset.y, 16));
            var position := (offset + Or(Shl(row, 16), col)) % 0x1_0000_0000;
            mBadPixelPositions := mBadPixelPositions + [position];
            added := added + [position];
          }
        }
        EndOfRow(u16Data, Crop(), value, added, row);
      }
    }
  }

  /** Two crops by one column, of an image whose filter is mistaken after the first one: the crop has
      moved by two columns, and the filter by one. */
  method CropPastMistake(ri: RawImage)
    requires ri.Valid() && ri.isCFA && ri.dim.x >= 3 && ri.cfa.cfa != [] && IsEncodable(ri.cfa.cfa)
    requires IsAdjusted(ri.cfa.cfa, ri.cfa.size) && !IsAdjusted(ShiftedPattern(ri.cfa.cfa, ri.cfa.size, 1, 0), ri.cfa.size)
    modifies ri`mOffset, ri`dim, ri.cfa`cfa
    ensures ri.Valid() && ri.cfa.cfa != [] && ri.mOffset == old(ri.mOffset).Plus(Point(2, 0))
    ensures IsShifted(old(ri.cfa.cfa), ri.cfa.cfa, ri.cfa.size, 1, 0)
    ensures !IsShifted(old(ri.cfa.cfa), ri.cfa.cfa, ri.cfa.size, 2, 0)
  {
    ghost var start, size := ri.cfa.cfa, ri.cfa.size;
    assert IsSmall(size) && IsPattern(start, size);
    hide IsPattern, IsShifted, IsAdjusted, IsSmall, ShiftedPattern, IsFilterOf, IsEncodable;
    var first := ri.SubFrame(Rect(Point(1, 0), Point(ri.dim.x - 1, ri.dim.y)));
    ShiftIsUnique(start, ri.cfa.cfa, ShiftedPattern(start, size, 1, 0), size, 1, 0);
    MovedIsKnown(true, start, ri.cfa.cfa, size, Point(1, 0));
    var second := ri.SubFrame(Rect(Point(1, 0), Point(ri.dim.x - 1, ri.dim.y)));
    NotFollowed(start, ri.cfa.cfa, size, 1, 0);
  }

  lemma NoPixels(img: array2<u16>, crop: Rect, value: nat)
    requires LiesIn(crop, img) && crop.HasPositiveArea()
    ensures AreBadPixels(img, crop, value, [], 0, 0)
  {
  }

  /** What the encoding of a filter says about shifting it. */
  lemma AdjustedByFilter(cfa: seq<CFAColor>, size: Point, filter: nat)
    requires if cfa == [] then size == Point(0, 0) else IsPattern(cfa, size)
    requires cfa == [] || !IsSmall(size) ==> filter == if size == Point(6, 6) then 9 else 1
    requires cfa != [] && IsSmall(size) ==> IsFilterOf(filter, cfa, size)
    ensures IsAdjusted(cfa, size) <==> filter != 1 && filter != 9
  {
    hide IsFilterOf;
    if cfa != [] && IsSmall(size) {
      if IsFilterOf(1, cfa, size) {
        FilterIsUnique(1, filter, cfa, size);
      }
      if IsFilterOf(9, cfa, size) {
        FilterIsUnique(9, filter, cfa, size);
      }
    }
  }

  lemma ColumnsToPixels(x: int, cpp: nat)
    requires cpp > 0
    ensures cpp * x / cpp == x
  {
    DivisionIsUnique(cpp * x, cpp, x, 0);
  }
}
