/** The colour filter of a sensor: a pattern that repeats in both directions.

    Moving the point of origin shifts the pattern. The same pattern in the encoding of dcraw, one
    number of 32 bits, can be shifted without decoding it; both ways agree wherever the second one
    is defined.
 */
module ColorFilterArrays {
  import opened Bits
  import opened Difference
  import opened Points
  import opened Results

  datatype CFAColor = RED | GREEN | BLUE | CYAN | MAGENTA | YELLOW | WHITE | FUJI_GREEN | END | UNKNOWN

  const FILTER_BITS: nat := 32

  // ----- patterns

  /** The entries of a pattern, row by row. */
  ghost predicate IsPattern(cfa: seq<CFAColor>, size: Point) {
    size.x > 0 && size.y > 0 && |cfa| == size.x * size.y
  }

  lemma IndexInPattern(size: Point, x: int, y: int)
    requires 0 <= x < size.x && 0 <= y < size.y
    ensures 0 <= x + y * size.x < size.x * size.y
    ensures (x + y * size.x) % size.x == x && (x + y * size.x) / size.x == y
  {
    RowFits(size.x, size.y, y);
    RowByRow(size.x, y);
    DivisionIsUnique(x + y * size.x, size.x, y, x);
  }

  /** Row `y` starts inside, and so does the rest of it. */
  lemma RowFits(width: nat, height: nat, y: nat)
    requires y < height
    ensures 0 <= y * width && y * width + width <= width * height
  {
    NotNegative(height - 1 - y, width);
    NotNegative(y, width);
    LastRows(width, height, y);
  }

  lemma NotNegative(a: nat, b: nat)
    ensures 0 <= a * b
  {
  }

  lemma LastRows(width: nat, height: nat, y: nat)
    ensures (height - 1 - y) * width == width * height - width - y * width
  {
  }

  lemma RowByRow(width: nat, y: nat)
    ensures y * width == width * y
  {
  }

  lemma IndexIsCell(size: Point, k: nat)
    requires size.x > 0 && size.y > 0 && k < size.x * size.y
    ensures 0 <= k / size.x < size.y && k == k % size.x + k / size.x * size.x
  {
    assert size.x * (k / size.x - size.y) + k % size.x < 0;
    AtLeastOnce(size.x, k / size.x - size.y + 1);
  }

  /** The colour at a coordinate, which may well be negative: the pattern repeats. */
  ghost function Color(cfa: seq<CFAColor>, size: Point, x: int, y: int): CFAColor
    requires IsPattern(cfa, size)
  {
    IndexInPattern(size, x % size.x, y % size.y);
    cfa[x % size.x + y % size.y * size.x]
  }

  /** `b` is `a` seen from a point of origin that has moved by `dx` and `dy`. */
  ghost predicate IsShifted(a: seq<CFAColor>, b: seq<CFAColor>, size: Point, dx: int, dy: int)
    requires IsPattern(a, size) && IsPattern(b, size)
  {
    forall x, y :: Color(b, size, x, y) == Color(a, size, x + dx, y + dy)
  }

  /** Numbers that differ by a multiple of the size have the same remainder. */
  lemma SameRemainder(a: int, b: int, k: int, m: nat)
    requires m > 0 && a == b + m * k
    ensures a % m == b % m
  {
    assert m * (b / m + k) == m * (b / m) + m * k;
    DivisionIsUnique(a, m, b / m + k, b % m);
  }

  lemma RemainderOfSum(a: int, d: int, m: nat)
    requires m > 0
    ensures (a % m + d % m) % m == (a + d) % m == (a % m + d) % m
  {
    assert m * (-(a / m) - d / m) == -(m * (a / m)) - m * (d / m);
    SameRemainder(a % m + d % m, a + d, -(a / m) - d / m, m);
    assert m * -(a / m) == -(m * (a / m));
    SameRemainder(a % m + d, a + d, -(a / m), m);
  }

  /** Shifting entry by entry shifts every coordinate. */
  lemma ShiftedEverywhere(a: seq<CFAColor>, b: seq<CFAColor>, size: Point, dx: int, dy: int)
    requires IsPattern(a, size) && IsPattern(b, size)
    requires forall k :: 0 <= k < |b| ==> b[k] == Color(a, size, k % size.x + dx, k / size.x + dy)
    ensures IsShifted(a, b, size, dx, dy)
  {
    forall x, y
      ensures Color(b, size, x, y) == Color(a, size, x + dx, y + dy)
    {
      IndexInPattern(size, x % size.x, y % size.y);
      RemainderOfSum(x, dx, size.x);
      RemainderOfSum(y, dy, size.y);
    }
  }

  /** Only the remainders of a shift matter. */
  lemma ShiftByRemainder(a: seq<CFAColor>, b: seq<CFAColor>, size: Point, mx: int, my: int, dx: int, dy: int,
                         kx: int, ky: int)
    requires IsPattern(a, size) && IsPattern(b, size) && IsShifted(a, b, size, mx, my)
    requires dx == mx + size.x * kx && dy == my + size.y * ky
    ensures IsShifted(a, b, size, dx, dy)
  {
    forall x, y
      ensures Color(b, size, x, y) == Color(a, size, x + dx, y + dy)
    {
      SameRemainder(x + dx, x + mx, kx, size.x);
      SameRemainder(y + dy, y + my, ky, size.y);
    }
  }

  /** One shift after the other is a shift by the sum. */
  lemma ShiftTwice(a: seq<CFAColor>, b: seq<CFAColor>, c: seq<CFAColor>, size: Point,
                   dx: int, dy: int, ex: int, ey: int)
    requires IsPattern(a, size) && IsPattern(b, size) && IsPattern(c, size)
    requires IsShifted(a, b, size, dx, dy) && IsShifted(b, c, size, ex, ey)
    ensures IsShifted(a, c, size, dx + ex, dy + ey)
  {
    forall x, y
      ensures Color(c, size, x, y) == Color(a, size, x + (dx + ex), y + (dy + ey))
    {
      assert Color(c, size, x, y) == Color(b, size, x + ex, y + ey);
      assert x + (dx + ex) == x + ex + dx && y + (dy + ey) == y + ey + dy;
    }
  }

  /** A shift is known by what it does to the colours: there is only one result. */
  lemma ShiftIsUnique(a: seq<CFAColor>, b: seq<CFAColor>, c: seq<CFAColor>, size: Point, dx: int, dy: int)
    requires IsPattern(a, size) && IsPattern(b, size) && IsPattern(c, size)
    requires IsShifted(a, b, size, dx, dy) && IsShifted(a, c, size, dx, dy)
    ensures b == c
  {
    forall k | 0 <= k < |b|
      ensures b[k] == c[k]
    {
      ColorOfEntry(b, size, k);
      ColorOfEntry(c, size, k);
      assert Color(b, size, k % size.x, k / size.x) == Color(c, size, k % size.x, k / size.x);
    }
  }

  lemma ColorOfEntry(a: seq<CFAColor>, size: Point, k: nat)
    requires IsPattern(a, size) && k < |a|
    ensures Color(a, size, k % size.x, k / size.x) == a[k]
  {
    IndexIsCell(size, k);
    SmallRemainder(k % size.x, size.x);
    SmallRemainder(k / size.x, size.y);
  }

  lemma ColorIsEntry(cfa: seq<CFAColor>, size: Point, x: int, y: int)
    requires IsPattern(cfa, size)
    ensures Color(cfa, size, x, y) in cfa
  {
    IndexInPattern(size, x % size.x, y % size.y);
  }

  lemma SmallRemainder(a: nat, m: nat)
    requires a < m
    ensures a % m == a
  {
    DivisionIsUnique(a, m, 0, a);
  }

  /** Shifting back restores the pattern. */
  lemma ShiftBack(a: seq<CFAColor>, b: seq<CFAColor>, c: seq<CFAColor>, size: Point, dx: int, dy: int)
    requires IsPattern(a, size) && IsPattern(b, size) && IsPattern(c, size)
    requires IsShifted(a, b, size, dx, dy) && IsShifted(b, c, size, -dx, -dy)
    ensures a == c
  {
    ShiftTwice(a, b, c, size, dx, dy, -dx, -dy);
    assert IsShifted(a, a, size, 0, 0);
    ShiftIsUnique(a, a, c, size, 0, 0);
  }

  // ----- the encoding of dcraw

  /** `toDcrawColor`; `None` where it throws. */
  function ToDcrawColor(c: CFAColor): Option<nat> {
    match c
    case FUJI_GREEN | RED => Some(0)
    case MAGENTA | GREEN => Some(1)
    case CYAN | BLUE => Some(2)
    case YELLOW | WHITE => Some(3)
    case UNKNOWN | END => None
  }

  /** The patterns that the encoding has room for: two columns, eight rows. */
  predicate IsSmall(size: Point) {
    size.x in {1, 2} && size.y in {1, 2, 4, 8}
  }

  /** All its colours are known. */
  ghost predicate IsEncodable(cfa: seq<CFAColor>) {
    UNKNOWN !in cfa && END !in cfa
  }

  /** The two bits that stand for a colour. */
  ghost predicate IsNumberOf(n: nat, c: CFAColor) {
    || (n == 0 && c in {RED, FUJI_GREEN}) || (n == 1 && c in {GREEN, MAGENTA})
    || (n == 2 && c in {BLUE, CYAN}) || (n == 3 && c in {YELLOW, WHITE})
  }

  lemma NumberOfColor(c: CFAColor)
    ensures ToDcrawColor(c).None? <==> c == UNKNOWN || c == END
    ensures forall n: nat :: ToDcrawColor(c) == Some(n) <==> IsNumberOf(n, c)
  {
  }

  lemma EncodableIff(cfa: seq<CFAColor>)
    ensures IsEncodable(cfa) <==> forall c :: c in cfa ==> ToDcrawColor(c).Some?
  {
    assert ToDcrawColor(UNKNOWN).None? && ToDcrawColor(END).None?;
  }

  /** Two bits of the filter: `(filter >> 2 * k) & 3`. */
  function Digit(filter: nat, k: nat): nat {
    Trunc(Shr(filter, 2 * k), 2)
  }

  /** The macro `FC` of dcraw: the colour that a filter says is in this row and column. */
  function FC(filter: nat, row: int, col: int): nat {
    Digit(filter, 2 * (row % 8) + col % 2)
  }

  /** The filter tells the colour of every pixel. */
  ghost predicate IsFilterOf(filter: nat, cfa: seq<CFAColor>, size: Point)
    requires IsPattern(cfa, size)
  {
    && filter < Pow2(FILTER_BITS)
    && forall row, col :: ToDcrawColor(Color(cfa, size, col, row)) == Some(FC(filter, row, col))
  }

  lemma DigitBound(filter: nat, k: nat)
    ensures Digit(filter, k) < 4
  {
    var v := Shr(filter, 2 * k);
    assert Trunc(v, 2) == 2 * Trunc(v / 2, 1) + v % 2;
    assert Trunc(v / 2, 1) == v / 2 % 2;
  }

  lemma BitsOfDigit(filter: nat, k: nat)
    ensures Bit(Digit(filter, k), 0) == Bit(filter, 2 * k) && Bit(Digit(filter, k), 1) == Bit(filter, 2 * k + 1)
  {
    hide Bit, Trunc, Shr;
    BitTrunc(Shr(filter, 2 * k), 2, 0);
    BitTrunc(Shr(filter, 2 * k), 2, 1);
    BitShr(filter, 2 * k, 0);
    BitShr(filter, 2 * k, 1);
  }

  /** A number below four is known by its two bits. */
  lemma SameDigit(a: nat, b: nat)
    requires a < 4 && b < 4 && Bit(a, 0) == Bit(b, 0) && Bit(a, 1) == Bit(b, 1)
    ensures a == b
  {
  }

  lemma DigitFromBits(f: nat, k: nat, g: nat, l: nat)
    requires Bit(f, 2 * k) == Bit(g, 2 * l) && Bit(f, 2 * k + 1) == Bit(g, 2 * l + 1)
    ensures Digit(f, k) == Digit(g, l)
  {
    hide Bit, Digit;
    BitsOfDigit(f, k);
    BitsOfDigit(g, l);
    DigitBound(f, k);
    DigitBound(g, l);
    SameDigit(Digit(f, k), Digit(g, l));
  }

  /** A filter is known by its sixteen digits. */
  lemma DigitsDecide(f: nat, g: nat)
    requires f < Pow2(FILTER_BITS) && g < Pow2(FILTER_BITS)
    requires forall k: nat :: k < 16 ==> Digit(f, k) == Digit(g, k)
    ensures f == g
  {
    hide Bit, Digit, Pow2;
    forall i: nat | i < FILTER_BITS
      ensures Bit(f, i) == Bit(g, i)
    {
      BitsOfDigit(f, i / 2);
      BitsOfDigit(g, i / 2);
      assert i == 2 * (i / 2) || i == 2 * (i / 2) + 1;
    }
    EqualByBits(f, g, FILTER_BITS);
  }

  // ----- what the encoding says

  /** Cell `k` of the encoding is pixel `k % 2`, `k / 2`. */
  ghost predicate HoldsCells(filter: nat, cfa: seq<CFAColor>, size: Point)
    requires IsPattern(cfa, size)
  {
    && filter < Pow2(FILTER_BITS)
    && forall k: nat :: k < 16 ==> ToDcrawColor(Color(cfa, size, k % 2, k / 2)) == Some(Digit(filter, k))
  }

  lemma RemainderTwice(a: int, m: nat, big: nat, k: nat)
    requires m > 0 && big == m * k && big > 0
    ensures a % big % m == a % m
  {
    assert m * (k * -(a / big)) == -(m * k * (a / big)) == -(big * (a / big));
    SameRemainder(a % big, a, k * -(a / big), m);
  }

  /** A small pattern repeats within the encoding. */
  lemma SmallRepeats(cfa: seq<CFAColor>, size: Point, x: int, y: int)
    requires IsPattern(cfa, size) && IsSmall(size)
    ensures Color(cfa, size, x, y) == Color(cfa, size, x % 2, y % 8)
  {
    RemainderTwice(x, size.x, 2, if size.x == 1 then 2 else 1);
    RemainderTwice(y, size.y, 8, if size.y == 1 then 8 else if size.y == 2 then 4 else if size.y == 4 then 2 else 1);
  }

  lemma CellOf(x: int, y: int)
    ensures var k := 2 * (y % 8) + x % 2; 0 <= k < 16 && k % 2 == x % 2 && k / 2 == y % 8
  {
    DivisionIsUnique(2 * (y % 8) + x % 2, 2, y % 8, x % 2);
  }

  lemma CellsAreFilter(filter: nat, cfa: seq<CFAColor>, size: Point)
    requires IsPattern(cfa, size) && IsSmall(size) && HoldsCells(filter, cfa, size)
    ensures IsFilterOf(filter, cfa, size)
  {
    hide Color, ToDcrawColor, Digit, Pow2, IsPattern, IsSmall;
    forall row, col
      ensures ToDcrawColor(Color(cfa, size, col, row)) == Some(FC(filter, row, col))
    {
      SmallRepeats(cfa, size, col, row);
      CellOf(col, row);
      var k: nat := 2 * (row % 8) + col % 2;
      assert ToDcrawColor(Color(cfa, size, k % 2, k / 2)) == Some(Digit(filter, k));
    }
  }

  lemma FilterHoldsCells(filter: nat, cfa: seq<CFAColor>, size: Point)
    requires IsPattern(cfa, size) && IsFilterOf(filter, cfa, size)
    ensures HoldsCells(filter, cfa, size)
  {
    hide Color, ToDcrawColor, Digit, Pow2, IsPattern, FC;
    forall k: nat | k < 16
      ensures ToDcrawColor(Color(cfa, size, k % 2, k / 2)) == Some(Digit(filter, k))
    {
      assert ToDcrawColor(Color(cfa, size, k % 2, k / 2)) == Some(FC(filter, k / 2, k % 2));
      DigitOfCell(filter, k);
    }
  }

  lemma DigitOfCell(filter: nat, k: nat)
    requires k < 16
    ensures FC(filter, k / 2, k % 2) == Digit(filter, k)
  {
    hide Digit;
    SmallRemainder(k / 2, 8);
    SmallRemainder(k % 2, 2);
  }

  /** There is one filter for a pattern. */
  lemma FilterIsUnique(f: nat, g: nat, cfa: seq<CFAColor>, size: Point)
    requires IsPattern(cfa, size) && IsFilterOf(f, cfa, size) && IsFilterOf(g, cfa, size)
    ensures f == g
  {
    FilterHoldsCells(f, cfa, size);
    FilterHoldsCells(g, cfa, size);
    hide Color, ToDcrawColor, Digit, Pow2, IsPattern, IsFilterOf;
    forall k: nat | k < 16
      ensures Digit(f, k) == Digit(g, k)
    {
      assert ToDcrawColor(Color(cfa, size, k % 2, k / 2)) == Some(Digit(f, k)) == Some(Digit(g, k));
    }
    DigitsDecide(f, g);
  }

  // ----- operations on digits

  /** A digit is put where there was a zero. */
  lemma PutDigit(filter: nat, c: nat, j: nat)
    requires filter < Pow2(FILTER_BITS) && c < 4 && j < 16 && Digit(filter, j) == 0
    ensures
      var r := Or(filter, Shl(c, 2 * j));
      && r < Pow2(FILTER_BITS)
      && forall k: nat :: k < 16 ==> Digit(r, k) == if k == j then c else Digit(filter, k)
  {
    var r := Or(filter, Shl(c, 2 * j));
    hide Bit, Or, Shl, Digit, Pow2;
    BitOfSmall(c);
    forall i: nat
      ensures Bit(r, i) == (Bit(filter, i) || (i >= 2 * j && Bit(c, i - 2 * j)))
      ensures i >= FILTER_BITS ==> !Bit(r, i)
    {
      BitOr(filter, Shl(c, 2 * j), i);
      BitShl(c, 2 * j, i);
      if i >= FILTER_BITS {
        HighBitsZero(filter, FILTER_BITS, i);
      }
    }
    BoundFromBits(r, FILTER_BITS);
    forall k: nat | k < 16
      ensures Digit(r, k) == if k == j then c else Digit(filter, k)
    {
      if k == j {
        BitsOfDigit(filter, j);
        BitZero(0);
        BitZero(1);
        BitsOfDigit(r, j);
        DigitBound(r, j);
        SameDigit(Digit(r, j), c);
      } else {
        DigitFromBits(r, k, filter, k);
      }
    }
  }

  lemma BitOfSmall(c: nat)
    requires c < 4
    ensures forall i: nat :: i >= 2 ==> !Bit(c, i)
  {
    hide Bit;
    assert Pow2(2) == 4;
    forall i: nat | i >= 2
      ensures !Bit(c, i)
    {
      HighBitsZero(c, 2, i);
    }
  }

  /** The other half of a nibble. */
  function Other(k: nat): nat {
    if k % 2 == 0 then k + 1 else k - 1
  }

  /** What one round of the swapping loop makes of the filter. */
  function SwapNibble(filter: nat, i: nat): nat {
    var t := Trunc(Xor(Shr(filter, i), Shr(filter, i + 2)), 2);
    Xor(filter, Or(Shl(t, i), Shl(t, i + 2)))
  }

  lemma BitOfSwap(filter: nat, i: nat, b: nat)
    ensures Bit(SwapNibble(filter, i), b)
            == Bit(filter, if i <= b < i + 2 then b + 2 else if i + 2 <= b < i + 4 then b - 2 else b)
  {
    hide Bit, Xor, Or, Shl, Shr, Trunc;
    var x := Xor(Shr(filter, i), Shr(filter, i + 2));
    var t := Trunc(x, 2);
    BitXor(filter, Or(Shl(t, i), Shl(t, i + 2)), b);
    BitOr(Shl(t, i), Shl(t, i + 2), b);
    BitShl(t, i, b);
    BitShl(t, i + 2, b);
    if i <= b {
      BitOfDifference(filter, i, b - i);
    }
    if i + 2 <= b {
      BitOfDifference(filter, i, b - i - 2);
    }
  }

  lemma BitOfDifference(filter: nat, i: nat, b: nat)
    ensures Bit(Trunc(Xor(Shr(filter, i), Shr(filter, i + 2)), 2), b)
            == (b < 2 && Bit(filter, b + i) != Bit(filter, b + i + 2))
  {
    hide Bit, Xor, Shr, Trunc;
    BitTrunc(Xor(Shr(filter, i), Shr(filter, i + 2)), 2, b);
    BitXor(Shr(filter, i), Shr(filter, i + 2), b);
    BitShr(filter, i, b);
    BitShr(filter, i + 2, b);
  }

  /** One round swaps the two digits of a nibble. */
  lemma SwapDigits(filter: nat, n: nat)
    requires filter < Pow2(FILTER_BITS) && n < 8
    ensures SwapNibble(filter, 4 * n) < Pow2(FILTER_BITS)
    ensures forall k: nat :: k < 16 ==>
                               Digit(SwapNibble(filter, 4 * n), k) == Digit(filter, if k / 2 == n then Other(k) else k)
  {
    var r := SwapNibble(filter, 4 * n);
    hide Bit, Digit, Pow2, SwapNibble;
    forall i: nat | i >= FILTER_BITS
      ensures !Bit(r, i)
    {
      BitOfSwap(filter, 4 * n, i);
      HighBitsZero(filter, FILTER_BITS, i);
    }
    BoundFromBits(r, FILTER_BITS);
    forall k: nat | k < 16
      ensures Digit(r, k) == Digit(filter, if k / 2 == n then Other(k) else k)
    {
      SwapDigit(filter, n, k);
    }
  }

  lemma SwapDigit(filter: nat, n: nat, k: nat)
    ensures Digit(SwapNibble(filter, 4 * n), k) == Digit(filter, if k / 2 == n then Other(k) else k)
  {
    hide Bit, Digit, SwapNibble;
    BitOfSwap(filter, 4 * n, 2 * k);
    BitOfSwap(filter, 4 * n, 2 * k + 1);
    DigitFromBits(SwapNibble(filter, 4 * n), k, filter, if k / 2 == n then Other(k) else k);
  }

  /** The rotation to the right by `s` bits, on 32 bits. */
  function Rotate(filter: nat, s: nat): nat
    requires 0 < s < FILTER_BITS
  {
    Or(Shr(filter, s), Trunc(Shl(filter, FILTER_BITS - s), FILTER_BITS))
  }

  lemma BitOfRotate(filter: nat, s: nat, i: nat)
    requires filter < Pow2(FILTER_BITS) && 0 < s < FILTER_BITS
    ensures Bit(Rotate(filter, s), i)
            == (i < FILTER_BITS && Bit(filter, if i + s < FILTER_BITS then i + s else i + s - FILTER_BITS))
  {
    hide Bit, Or, Shl, Shr, Trunc, Pow2;
    BitOr(Shr(filter, s), Trunc(Shl(filter, FILTER_BITS - s), FILTER_BITS), i);
    BitShr(filter, s, i);
    BitTrunc(Shl(filter, FILTER_BITS - s), FILTER_BITS, i);
    BitShl(filter, FILTER_BITS - s, i);
    if i + s >= FILTER_BITS {
      HighBitsZero(filter, FILTER_BITS, i + s);
    }
  }

  /** The digit that comes to be digit `k` when `m` rows are rotated out. */
  function DigitAfter(k: nat, m: nat): nat
    requires k < 16 && m < 8
  {
    if k + 2 * m < 16 then k + 2 * m else k + 2 * m - 16
  }

  /** Rotating by whole nibbles moves the digits. */
  lemma RotateDigits(filter: nat, m: nat)
    requires filter < Pow2(FILTER_BITS) && 0 < m < 8
    ensures Rotate(filter, 4 * m) < Pow2(FILTER_BITS)
    ensures forall k: nat :: k < 16 ==> Digit(Rotate(filter, 4 * m), k) == Digit(filter, DigitAfter(k, m))
  {
    var r := Rotate(filter, 4 * m);
    hide Bit, Digit, Pow2, Rotate;
    forall i: nat | i >= FILTER_BITS
      ensures !Bit(r, i)
    {
      BitOfRotate(filter, 4 * m, i);
    }
    BoundFromBits(r, FILTER_BITS);
    forall k: nat | k < 16
      ensures Digit(r, k) == Digit(filter, DigitAfter(k, m))
    {
      RotateDigit(filter, m, k);
    }
  }

  lemma RotateDigit(filter: nat, m: nat, k: nat)
    requires filter < Pow2(FILTER_BITS) && 0 < m < 8 && k < 16
    ensures Digit(Rotate(filter, 4 * m), k) == Digit(filter, DigitAfter(k, m))
  {
    hide Bit, Digit, Pow2, Rotate;
    BitOfRotate(filter, 4 * m, 2 * k);
    BitOfRotate(filter, 4 * m, 2 * k + 1);
    DigitFromBits(Rotate(filter, 4 * m), k, filter, DigitAfter(k, m));
  }

  // ----- shifting the encoding

  /** Whether the arithmetic of `shiftDcrawFilter` is defined: nothing overflows, and no shift is by
      the full width. A move by a negative multiple of eight rows is such a shift. */
  predicate ShiftIsDefined(x: int, y: int) {
    x != -TWO_31 && -TWO_31 <= 4 * y < TWO_31 && !(y < 0 && y % 8 == 0)
  }

  /** `shiftDcrawFilter`; `None` where the source computes something undefined. */
  method ShiftDcrawFilter(filter: nat, x: int, y: int) returns (r: Option<nat>)
    requires filter < Pow2(FILTER_BITS)
    requires -TWO_31 <= x < TWO_31 && -TWO_31 <= y < TWO_31
    ensures r.Some? <==> ShiftIsDefined(x, y)
    ensures r.Some? ==> r.value < Pow2(FILTER_BITS)
    ensures r.Some? ==> forall row, col :: FC(r.value, row, col) == FC(filter, row + y, col + x)
  {
    hide Pow2, Digit, SwapNibble, Rotate, FC, SwappedBelow;
    if x == -TWO_31 {
      return None;
    }
    var f := filter;
    OddEitherWay(x);
    NothingSwapped(filter);
    if (if x >= 0 then x else -x) % 2 == 1 {
      f := SwapColumns(filter);
    }
    ghost var swapped, m := f, y % 8;
    if y == 0 {
      FilterMoved(filter, swapped, f, x, y, 0);
      return Some(f);
    }
    if !(-TWO_31 <= y * 4 < TWO_31) {
      return None;
    }
    RowsOfShift(y);
    var s := if y * 4 >= 0 then y * 4 % 32 else 32 - (-(y * 4)) % 32;
    if s == 32 {
      return None;
    }
    assert s == 4 * m;
    if s != 0 {
      RotateDigits(f, m);
      f := Rotate(f, s);
    }
    FilterMoved(filter, swapped, f, x, y, m);
    return Some(f);
  }

  lemma OddEitherWay(x: int)
    ensures -x % 2 == x % 2
  {
    DivisionIsUnique(-x, 2, -(x / 2) - x % 2, x % 2);
  }

  /** The digits of the first `n` nibbles have been swapped. */
  ghost predicate SwappedBelow(filter: nat, f: nat, n: nat) {
    forall k: nat :: k < 16 ==> Digit(f, k) == Digit(filter, if k / 2 < n then Other(k) else k)
  }

  lemma NothingSwapped(filter: nat)
    ensures SwappedBelow(filter, filter, 0)
  {
  }

  /** The loop that swaps the columns. */
  method SwapColumns(filter: nat) returns (f: nat)
    requires filter < Pow2(FILTER_BITS)
    ensures f < Pow2(FILTER_BITS) && SwappedBelow(filter, f, 8)
  {
    hide Pow2, Digit, SwapNibble, SwappedBelow;
    NothingSwapped(filter);
    f := filter;
    var n := 0;
    while n < 8
      invariant 0 <= n <= 8 && f < Pow2(FILTER_BITS) && SwappedBelow(filter, f, n)
    {
      SwapDigits(f, n);
      SwappedSoFar(filter, f, SwapNibble(f, 4 * n), n);
      f := SwapNibble(f, 4 * n);
      n := n + 1;
    }
  }

  lemma SwappedSoFar(filter: nat, f: nat, g: nat, n: nat)
    requires n < 8 && SwappedBelow(filter, f, n)
    requires forall k: nat :: k < 16 ==> Digit(g, k) == Digit(f, if k / 2 == n then Other(k) else k)
    ensures SwappedBelow(filter, g, n + 1)
  {
    hide Digit;
    forall k: nat | k < 16
      ensures Digit(g, k) == Digit(filter, if k / 2 < n + 1 then Other(k) else k)
    {
      assert Digit(g, k) == Digit(f, if k / 2 == n then Other(k) else k);
    }
  }

  /** The number of bits to rotate by. */
  lemma RowsOfShift(y: int)
    ensures y >= 0 ==> 4 * y % 32 == 4 * (y % 8)
    ensures y < 0 ==> 32 - (-(4 * y)) % 32 == if y % 8 == 0 then 32 else 4 * (y % 8)
  {
    var q, m := y / 8, y % 8;
    if y >= 0 {
      DivisionIsUnique(4 * y, 32, q, 4 * m);
    } else if m == 0 {
      DivisionIsUnique(-(4 * y), 32, -q, 0);
    } else {
      DivisionIsUnique(-(4 * y), 32, -q - 1, 32 - 4 * m);
    }
  }

  /** Swapping for an odd number of columns and rotating by the rows is a move of the origin. */
  lemma FilterMoved(filter: nat, swapped: nat, moved: nat, x: int, y: int, m: nat)
    requires m == y % 8
    requires SwappedBelow(filter, swapped, if x % 2 == 1 then 8 else 0)
    requires forall k: nat :: k < 16 ==> Digit(moved, k) == Digit(swapped, DigitAfter(k, m))
    ensures forall row, col :: FC(moved, row, col) == FC(filter, row + y, col + x)
  {
    hide Digit;
    forall row, col
      ensures FC(moved, row, col) == FC(filter, row + y, col + x)
    {
      CellOf(col, row);
      CellMoved(col, row, x, y);
      var k: nat := 2 * (row % 8) + col % 2;
      assert Digit(moved, k) == Digit(swapped, DigitAfter(k, m));
    }
  }

  lemma CellMoved(col: int, row: int, x: int, y: int)
    ensures
      var l := DigitAfter(2 * (row % 8) + col % 2, y % 8);
      l < 16 && 2 * ((row + y) % 8) + (col + x) % 2 == if x % 2 == 1 then Other(l) else l
  {
    RowMoved(row, y);
    ColumnMoved(col, x);
    CellOf(col, row + y);
  }

  lemma RowMoved(row: int, y: int)
    ensures (row + y) % 8 == if row % 8 + y % 8 < 8 then row % 8 + y % 8 else row % 8 + y % 8 - 8
  {
    var r := row % 8 + y % 8;
    if r < 8 {
      DivisionIsUnique(row + y, 8, row / 8 + y / 8, r);
    } else {
      DivisionIsUnique(row + y, 8, row / 8 + y / 8 + 1, r - 8);
    }
  }

  lemma ColumnMoved(col: int, x: int)
    ensures (col + x) % 2 == if x % 2 == 1 then 1 - col % 2 else col % 2
  {
    var r := col % 2 + x % 2;
    if r < 2 {
      DivisionIsUnique(col + x, 2, col / 2 + x / 2, r);
    } else {
      DivisionIsUnique(col + x, 2, col / 2 + x / 2 + 1, r - 2);
    }
  }

  /** Shifting the pattern and shifting its encoding come to the same. */
  lemma FilterOfShifted(cfa: seq<CFAColor>, shifted: seq<CFAColor>, size: Point, x: int, y: int, filter: nat, moved: nat)
    requires IsPattern(cfa, size) && IsPattern(shifted, size) && IsShifted(cfa, shifted, size, x, y)
    requires IsFilterOf(filter, cfa, size) && moved < Pow2(FILTER_BITS)
    requires forall row, col :: FC(moved, row, col) == FC(filter, row + y, col + x)
    ensures IsFilterOf(moved, shifted, size)
  {
    hide Color, ToDcrawColor, FC, Pow2, IsPattern;
    forall row, col
      ensures ToDcrawColor(Color(shifted, size, col, row)) == Some(FC(moved, row, col))
    {
      assert ToDcrawColor(Color(cfa, size, col + x, row + y)) == Some(FC(filter, row + y, col + x));
    }
  }

  // ----- filters that are taken for something else

  /** The patterns that `subFrame` shifts. The filters 1 and 9 stand for patterns that have no
      encoding, so a pattern that happens to be encoded like that is left alone, too. */
  ghost predicate IsAdjusted(cfa: seq<CFAColor>, size: Point) {
    && IsPattern(cfa, size) && IsSmall(size)
    && !IsFilterOf(1, cfa, size) && !IsFilterOf(9, cfa, size)
  }

  lemma DigitsOfNibble(filter: nat, k: nat)
    requires filter < 16
    ensures Digit(filter, k) == if k == 0 then filter % 4 else if k == 1 then filter / 4 else 0
  {
    if k >= 2 {
      assert Pow2(4) == 16;
      hide Bit, Pow2, Digit;
      BitsOfDigit(filter, k);
      HighBitsZero(filter, 4, 2 * k);
      HighBitsZero(filter, 4, 2 * k + 1);
      BitZero(0);
      BitZero(1);
      DigitBound(filter, k);
      SameDigit(Digit(filter, k), 0);
    } else {
      var v := Shr(filter, 2 * k);
      assert k == 1 ==> v == Shr(filter / 2, 1) == Shr(filter / 2 / 2, 0);
      assert Trunc(v, 2) == 2 * Trunc(v / 2, 1) + v % 2;
      assert Trunc(v / 2, 1) == v / 2 % 2;
    }
  }

  /** Which patterns are encoded as a number below 16: all pixels but the first two of the first row
      have the colour number 0. */
  lemma SmallFilterIff(filter: nat, cfa: seq<CFAColor>, size: Point)
    requires filter < 16 && IsPattern(cfa, size) && IsSmall(size)
    ensures IsFilterOf(filter, cfa, size) <==>
            forall x: nat, y: nat :: x < 2 && y < 8 ==>
              ToDcrawColor(Color(cfa, size, x, y)) == Some(if y > 0 then 0 else if x == 0 then filter % 4 else filter / 4)
  {
    hide Color, ToDcrawColor, Digit, FC, IsPattern, IsSmall;
    Pow2Monotone(4, FILTER_BITS);
    assert Pow2(4) == 16;
    hide Pow2;
    if IsFilterOf(filter, cfa, size) {
      forall x: nat, y: nat | x < 2 && y < 8
        ensures ToDcrawColor(Color(cfa, size, x, y))
                == Some(if y > 0 then 0 else if x == 0 then filter % 4 else filter / 4)
      {
        assert ToDcrawColor(Color(cfa, size, x, y)) == Some(FC(filter, y, x));
        CellDigit(filter, x, y);
      }
    }
    if forall x: nat, y: nat :: x < 2 && y < 8 ==>
         ToDcrawColor(Color(cfa, size, x, y)) == Some(if y > 0 then 0 else if x == 0 then filter % 4 else filter / 4) {
      forall k: nat | k < 16
        ensures ToDcrawColor(Color(cfa, size, k % 2, k / 2)) == Some(Digit(filter, k))
      {
        DigitsOfNibble(filter, k);
        var x: nat, y: nat := k % 2, k / 2;
        assert x < 2 && y < 8;
      }
      CellsAreFilter(filter, cfa, size);
    }
  }

  lemma CellDigit(filter: nat, x: nat, y: nat)
    requires filter < 16 && x < 2 && y < 8
    ensures FC(filter, y, x) == if y > 0 then 0 else if x == 0 then filter % 4 else filter / 4
  {
    hide Digit;
    SmallRemainder(x, 2);
    SmallRemainder(y, 8);
    DigitsOfNibble(filter, 2 * y + x);
  }

  /** Patterns of less than two columns or eight rows are never mistaken. */
  lemma SmallerIsAdjusted(cfa: seq<CFAColor>, size: Point)
    requires IsPattern(cfa, size) && IsSmall(size) && size != Point(2, 8)
    ensures IsAdjusted(cfa, size)
  {
    NotANibble(1, cfa, size);
    NotANibble(9, cfa, size);
  }

  lemma NotANibble(filter: nat, cfa: seq<CFAColor>, size: Point)
    requires IsPattern(cfa, size) && IsSmall(size) && size != Point(2, 8)
    requires filter < 16 && filter % 4 != 0 && filter % 4 != filter / 4
    ensures !IsFilterOf(filter, cfa, size)
  {
    hide ToDcrawColor, IsPattern, IsFilterOf;
    SmallFilterIff(filter, cfa, size);
    var x: nat, y: nat := if size.x == 1 then 1 else 0, if size.x == 1 then 0 else 4;
    RepeatsEarly(cfa, size);
    hide Color;
    var zero: nat := 0;
    assert ToDcrawColor(Color(cfa, size, x, y)) == ToDcrawColor(Color(cfa, size, zero, zero));
  }

  lemma RepeatsEarly(cfa: seq<CFAColor>, size: Point)
    requires IsPattern(cfa, size) && IsSmall(size) && size != Point(2, 8)
    ensures size.x == 1 ==> Color(cfa, size, 1, 0) == Color(cfa, size, 0, 0)
    ensures size.x != 1 ==> Color(cfa, size, 0, 4) == Color(cfa, size, 0, 0)
  {
  }

  // ----- filters that may be taken for something else later on

  /** The pattern seen from another point of origin. */
  ghost function ShiftedPattern(cfa: seq<CFAColor>, size: Point, dx: int, dy: int): (b: seq<CFAColor>)
    requires IsPattern(cfa, size)
    ensures IsPattern(b, size) && IsShifted(cfa, b, size, dx, dy)
  {
    var b := seq(|cfa|, k requires 0 <= k < |cfa| => Color(cfa, size, k % size.x + dx, k / size.x + dy));
    ShiftedEverywhere(cfa, b, size, dx, dy);
    b
  }

  /** Every translate can be reached by moving right and down. */
  lemma MoveInside(cfa: seq<CFAColor>, size: Point, dx: int, dy: int) returns (mx: nat, my: nat)
    requires IsPattern(cfa, size)
    ensures ShiftedPattern(cfa, size, mx, my) == ShiftedPattern(cfa, size, dx, dy)
  {
    mx, my := dx % size.x, dy % size.y;
    var kx, ky := dx / size.x, dy / size.y;
    assert dx == mx + size.x * kx && dy == my + size.y * ky;
    hide IsPattern, IsShifted, ShiftedPattern;
    ShiftByRemainder(cfa, ShiftedPattern(cfa, size, mx, my), size, mx, my, dx, dy, kx, ky);
    ShiftIsUnique(cfa, ShiftedPattern(cfa, size, mx, my), ShiftedPattern(cfa, size, dx, dy), size, dx, dy);
  }

  /** From no point of origin the pattern looks like one that is mistaken. */
  ghost predicate NeverMistaken(cfa: seq<CFAColor>, size: Point)
    requires IsPattern(cfa, size)
  {
    forall dx, dy :: IsAdjusted(ShiftedPattern(cfa, size, dx, dy), size)
  }

  lemma ShiftedIsAdjusted(cfa: seq<CFAColor>, b: seq<CFAColor>, size: Point, dx: int, dy: int)
    requires IsPattern(cfa, size) && IsPattern(b, size) && IsShifted(cfa, b, size, dx, dy)
    requires NeverMistaken(cfa, size)
    ensures IsAdjusted(b, size)
  {
    hide Color, IsPattern, IsAdjusted, ShiftedPattern;
    ShiftIsUnique(cfa, b, ShiftedPattern(cfa, size, dx, dy), size, dx, dy);
  }

  lemma SmallerIsNeverMistaken(cfa: seq<CFAColor>, size: Point)
    requires IsPattern(cfa, size) && IsSmall(size) && size != Point(2, 8)
    ensures NeverMistaken(cfa, size)
  {
    hide IsPattern, IsAdjusted, ShiftedPattern;
    forall dx, dy
      ensures IsAdjusted(ShiftedPattern(cfa, size, dx, dy), size)
    {
      SmallerIsAdjusted(ShiftedPattern(cfa, size, dx, dy), size);
    }
  }

  /** The filters 1 and 9 with their columns swapped or not, moved to row `r`. */
  predicate IsMistakenAt(filter: nat, r: nat) {
    filter in {Shl(1, 4 * r), Shl(4, 4 * r), Shl(6, 4 * r), Shl(9, 4 * r)}
  }

  predicate BecomesMistaken(filter: nat) {
    exists r: nat :: r < 8 && IsMistakenAt(filter, r)
  }

  /** A nibble in row `r`. */
  lemma DigitsOfRow(n: nat, r: nat)
    requires n < 16 && r < 8
    ensures Shl(n, 4 * r) < Pow2(FILTER_BITS)
    ensures forall k: nat :: k < 16 ==>
                               Digit(Shl(n, 4 * r), k) == if k / 2 == r then Digit(n, k % 2) else 0
  {
    assert Pow2(4) == 16;
    hide Bit, Digit, Pow2, Shl;
    forall i: nat | i >= FILTER_BITS
      ensures !Bit(Shl(n, 4 * r), i)
    {
      BitShl(n, 4 * r, i);
      HighBitsZero(n, 4, i - 4 * r);
    }
    BoundFromBits(Shl(n, 4 * r), FILTER_BITS);
    forall k: nat | k < 16
      ensures Digit(Shl(n, 4 * r), k) == if k / 2 == r then Digit(n, k % 2) else 0
    {
      DigitOfRow(n, r, k);
    }
  }

  lemma DigitOfRow(n: nat, r: nat, k: nat)
    requires n < 16
    ensures Digit(Shl(n, 4 * r), k) == if k / 2 == r then Digit(n, k % 2) else 0
  {
    hide Bit, Digit, Shl;
    BitShl(n, 4 * r, 2 * k);
    BitShl(n, 4 * r, 2 * k + 1);
    if k < 2 * r {
      DigitsOfNibble(0, 0);
      BitZero(0);
      BitZero(1);
      DigitFromBits(Shl(n, 4 * r), k, 0, 0);
    } else {
      DigitFromBits(Shl(n, 4 * r), k, n, k - 2 * r);
      DigitsOfNibble(n, k - 2 * r);
    }
  }

  lemma FCOfRow(n: nat, r: nat, row: int, col: int)
    requires n < 16
    ensures FC(Shl(n, 4 * r), row, col) == if row % 8 == r then (if col % 2 == 0 then n % 4 else n / 4) else 0
  {
    hide Digit, Shl;
    CellOf(col, row);
    DigitsOfNibble(n, col % 2);
    DigitOfRow(n, r, 2 * (row % 8) + col % 2);
  }

  /** The two digits of a nibble the other way round. */
  function SwapPair(n: nat): (m: nat)
    requires n < 16
    ensures m < 16 && m % 4 == n / 4 && m / 4 == n % 4
  {
    DivisionIsUnique(4 * (n % 4) + n / 4, 4, n % 4, n / 4);
    4 * (n % 4) + n / 4
  }

  lemma SameRemainderIff(a: int, b: int, m: nat)
    requires m > 0
    ensures (a - b) % m == 0 <==> a % m == b % m
  {
    if (a - b) % m == 0 {
      SameRemainder(a, b, (a - b) / m, m);
    }
    if a % m == b % m {
      assert m * (a / m - b / m) == m * (a / m) - m * (b / m);
      DivisionIsUnique(a - b, m, a / m - b / m, 0);
    }
  }

  lemma EvenDifference(a: int, b: int)
    ensures (a - b) % 2 == 0 <==> (a % 2 == 0 <==> b % 2 == 0)
  {
    SameRemainderIff(a, b, 2);
  }

  /** A nibble in row 0, seen from another point of origin. */
  lemma FCOfMovedNibble(n: nat, dx: int, dy: int, row: int, col: int)
    requires n < 16
    ensures FC(Shl(if dx % 2 == 0 then n else SwapPair(n), 4 * (dy % 8)), row, col) == FC(n, row - dy, col - dx)
  {
    hide Shl, FC, SwapPair;
    var m := if dx % 2 == 0 then n else SwapPair(n);
    FCOfRow(m, dy % 8, row, col);
    FCOfRow(n, 0, row - dy, col - dx);
    ShlZero(n);
    SameRemainderIff(row, dy, 8);
    EvenDifference(col, dx);
  }

  lemma ShlZero(n: nat)
    ensures Shl(n, 4 * 0) == n
  {
  }

  /** If the pattern looks like one with a small filter from somewhere, its own filter is that one,
      moved. */
  lemma FilterFromShifted(cfa: seq<CFAColor>, b: seq<CFAColor>, size: Point, filter: nat, n: nat, dx: int, dy: int)
    requires IsPattern(cfa, size) && IsPattern(b, size) && IsShifted(cfa, b, size, dx, dy)
    requires IsFilterOf(filter, cfa, size) && IsFilterOf(n, b, size)
    ensures forall row, col :: FC(filter, row, col) == FC(n, row - dy, col - dx)
  {
    hide Color, ToDcrawColor, FC, Pow2, IsPattern;
    forall row, col
      ensures FC(filter, row, col) == FC(n, row - dy, col - dx)
    {
      assert Color(b, size, col - dx, row - dy) == Color(cfa, size, col - dx + dx, row - dy + dy);
      assert ToDcrawColor(Color(cfa, size, col, row)) == Some(FC(filter, row, col));
      assert ToDcrawColor(Color(b, size, col - dx, row - dy)) == Some(FC(n, row - dy, col - dx));
    }
  }

  lemma FilterOfMistaken(cfa: seq<CFAColor>, size: Point, filter: nat, n: nat, dx: int, dy: int)
    requires IsPattern(cfa, size) && IsFilterOf(filter, cfa, size) && n < 16
    requires IsFilterOf(n, ShiftedPattern(cfa, size, dx, dy), size)
    ensures filter == Shl(if dx % 2 == 0 then n else SwapPair(n), 4 * (dy % 8))
  {
    var moved := Shl(if dx % 2 == 0 then n else SwapPair(n), 4 * (dy % 8));
    DigitsOfRow(if dx % 2 == 0 then n else SwapPair(n), dy % 8);
    FilterBound(filter, cfa, size);
    hide Digit, FC, Shl, Pow2, IsPattern, ShiftedPattern, IsFilterOf, IsShifted, SwapPair;
    FilterFromShifted(cfa, ShiftedPattern(cfa, size, dx, dy), size, filter, n, dx, dy);
    forall k: nat | k < 16
      ensures Digit(filter, k) == Digit(moved, k)
    {
      DigitOfCell(filter, k);
      DigitOfCell(moved, k);
      FCOfMovedNibble(n, dx, dy, k / 2, k % 2);
    }
    DigitsDecide(filter, moved);
  }

  lemma NibbleFits(n: nat)
    requires n < 16
    ensures n < Pow2(FILTER_BITS)
  {
    Pow2Monotone(4, FILTER_BITS);
    assert Pow2(4) == 16;
  }

  /** Conversely, such a filter shows where the pattern looks like that. */
  lemma MistakenFromRow(cfa: seq<CFAColor>, size: Point, n: nat, r: nat, dx: nat)
    requires IsPattern(cfa, size) && n < 16 && r < 8 && dx < 2
    requires IsFilterOf(Shl(if dx == 0 then n else SwapPair(n), 4 * r), cfa, size)
    ensures IsFilterOf(n, ShiftedPattern(cfa, size, dx, r), size)
  {
    hide *;
    NibbleFits(n);
    NibbleMoved(n, r, dx);
    FilterOfShifted(cfa, ShiftedPattern(cfa, size, dx, r), size, dx, r,
                    Shl(if dx == 0 then n else SwapPair(n), 4 * r), n);
  }

  lemma NibbleMoved(n: nat, r: nat, dx: nat)
    requires n < 16 && r < 8 && dx < 2
    ensures forall row, col ::
              FC(n, row, col) == FC(Shl(if dx == 0 then n else SwapPair(n), 4 * r), row + r, col + dx)
  {
    hide FC, Shl, SwapPair;
    SmallRemainder(r, 8);
    SmallRemainder(dx, 2);
    forall row, col
      ensures FC(n, row, col) == FC(Shl(if dx == 0 then n else SwapPair(n), 4 * r), row + r, col + dx)
    {
      FCOfMovedNibble(n, dx, r, row + r, col + dx);
    }
  }

  /** The filter of a small pattern tells whether it is ever mistaken. */
  lemma NeverMistakenIff(cfa: seq<CFAColor>, size: Point, filter: nat)
    requires IsPattern(cfa, size) && IsSmall(size) && IsFilterOf(filter, cfa, size)
    ensures NeverMistaken(cfa, size) <==> !BecomesMistaken(filter)
  {
    hide IsPattern, IsFilterOf, ShiftedPattern, IsSmall, Shl, IsShifted;
    if BecomesMistaken(filter) {
      var r: nat :| r < 8 && IsMistakenAt(filter, r);
      var n: nat, dx: nat :=
        if filter == Shl(1, 4 * r) || filter == Shl(4, 4 * r) then 1 else 9,
        if filter == Shl(1, 4 * r) || (filter != Shl(4, 4 * r) && filter == Shl(9, 4 * r)) then 0 else 1;
      assert SwapPair(1) == 4 && SwapPair(9) == 6;
      MistakenFromRow(cfa, size, n, r, dx);
      assert !IsAdjusted(ShiftedPattern(cfa, size, dx, r), size);
    }
    if !NeverMistaken(cfa, size) {
      var dx, dy :| !IsAdjusted(ShiftedPattern(cfa, size, dx, dy), size);
      var n := if IsFilterOf(1, ShiftedPattern(cfa, size, dx, dy), size) then 1 else 9;
      FilterOfMistaken(cfa, size, filter, n, dx, dy);
      var r: nat := dy % 8;
      assert SwapPair(1) == 4 && SwapPair(9) == 6;
      assert IsMistakenAt(filter, r);
    }
  }

  /** All pixels have the same colour. */
  ghost predicate IsUniform(cfa: seq<CFAColor>) {
    forall c, d :: c in cfa && d in cfa ==> c == d
  }

  /** The mistaken patterns are not uniform: a move by one column changes them. */
  lemma MistakenIsNotUniform(cfa: seq<CFAColor>, size: Point)
    requires IsPattern(cfa, size) && IsSmall(size) && !IsAdjusted(cfa, size)
    ensures Color(cfa, size, 0, 0) != Color(cfa, size, 1, 0) && !IsUniform(cfa)
  {
    hide ToDcrawColor, IsPattern, IsFilterOf, IsSmall, Color;
    var filter := if IsFilterOf(1, cfa, size) then 1 else 9;
    SmallFilterIff(filter, cfa, size);
    var zero: nat, one: nat := 0, 1;
    assert ToDcrawColor(Color(cfa, size, zero, zero)) != ToDcrawColor(Color(cfa, size, one, zero));
    ColorIsEntry(cfa, size, 0, 0);
    ColorIsEntry(cfa, size, 1, 0);
  }

  /** A pattern looks the same from everywhere only if it is uniform. */
  lemma SameFromEverywhereIff(cfa: seq<CFAColor>, size: Point)
    requires IsPattern(cfa, size)
    ensures (forall dx: nat, dy: nat :: IsShifted(cfa, cfa, size, dx, dy)) <==> IsUniform(cfa)
  {
    hide Color, IsPattern;
    if IsUniform(cfa) {
      forall dx: nat, dy: nat
        ensures IsShifted(cfa, cfa, size, dx, dy)
      {
        forall x, y
          ensures Color(cfa, size, x, y) == Color(cfa, size, x + dx, y + dy)
        {
          ColorIsEntry(cfa, size, x, y);
          ColorIsEntry(cfa, size, x + dx, y + dy);
        }
      }
    }
    if forall dx: nat, dy: nat :: IsShifted(cfa, cfa, size, dx, dy) {
      forall c, d | c in cfa && d in cfa
        ensures c == d
      {
        var k: nat :| k < |cfa| && cfa[k] == c;
        var l: nat :| l < |cfa| && cfa[l] == d;
        SameFromMove(cfa, size, k, l);
      }
    }
  }

  lemma SameFromMove(cfa: seq<CFAColor>, size: Point, k: nat, l: nat)
    requires IsPattern(cfa, size) && k < |cfa| && l < |cfa|
    requires forall dx: nat, dy: nat :: IsShifted(cfa, cfa, size, dx, dy)
    ensures cfa[k] == cfa[l]
  {
    hide Color;
    ColorOfEntry(cfa, size, k);
    ColorOfEntry(cfa, size, l);
    MoveToEntry(cfa, size, k % size.x, k / size.x, l % size.x, l / size.x);
  }

  lemma MoveToEntry(cfa: seq<CFAColor>, size: Point, x: int, y: int, tx: int, ty: int)
    requires IsPattern(cfa, size)
    requires forall dx: nat, dy: nat :: IsShifted(cfa, cfa, size, dx, dy)
    ensures Color(cfa, size, x, y) == Color(cfa, size, tx, ty)
  {
    hide Color;
    var dx := MoveBetween(size.x, x, tx);
    var dy := MoveBetween(size.y, y, ty);
    assert IsShifted(cfa, cfa, size, dx, dy);
    SameColor(cfa, size, tx, ty, x + dx, y + dy);
    assert Color(cfa, size, x, y) == Color(cfa, size, x + dx, y + dy);
  }

  lemma MoveBetween(m: nat, x: int, t: int) returns (d: nat)
    requires m > 0
    ensures t % m == (x + d) % m
  {
    d := (t - x) % m;
    SameRemainder(t, x + d, (t - x) / m, m);
  }

  lemma SameColor(cfa: seq<CFAColor>, size: Point, x: int, y: int, u: int, v: int)
    requires IsPattern(cfa, size) && x % size.x == u % size.x && y % size.y == v % size.y
    ensures Color(cfa, size, x, y) == Color(cfa, size, u, v)
  {
  }

  // ----- the class

  /** The remainder as C++ computes it: it has the sign of the dividend. */
  function TruncatedRemainder(a: int, m: int): int
    requires m > 0
  {
    if a >= 0 then a % m else -(-a % m)
  }

  /** It differs from the dividend by a multiple all the same. */
  lemma TruncatedIsMultiple(a: int, m: nat) returns (k: int)
    requires m > 0
    ensures a == TruncatedRemainder(a, m) + m * k && 0 - m < TruncatedRemainder(a, m) < m
  {
    if a >= 0 {
      k := a / m;
    } else {
      k := -(-a / m);
      assert m * k == -(m * (-a / m));
    }
  }

  /** Adding the modulus makes it the positive remainder. */
  lemma PositiveModulo(a: int, m: nat)
    requires m > 0
    ensures TruncatedRemainder(TruncatedRemainder(a, m) + m, m) == a % m
  {
    var k := TruncatedIsMultiple(a, m);
    assert m * (k - 1) == m * k - m;
    SameRemainder(a, TruncatedRemainder(a, m) + m, k - 1, m);
  }

  /** The entries that a shift has stored. */
  ghost predicate FetchedSoFar(a: seq<CFAColor>, tmp: seq<CFAColor>, size: Point, dx: int, dy: int)
    requires IsPattern(a, size)
  {
    forall k :: 0 <= k < |tmp| ==> tmp[k] == Color(a, size, k % size.x + dx, k / size.x + dy)
  }

  lemma NothingFetched(a: seq<CFAColor>, size: Point, dx: int, dy: int)
    requires IsPattern(a, size)
    ensures FetchedSoFar(a, [], size, dx, dy)
  {
  }

  lemma OneMoreFetched(a: seq<CFAColor>, tmp: seq<CFAColor>, size: Point, dx: int, dy: int, x: int, y: int)
    requires IsPattern(a, size) && FetchedSoFar(a, tmp, size, dx, dy)
    requires 0 <= x < size.x && 0 <= y < size.y && |tmp| == x + y * size.x
    ensures FetchedSoFar(a, tmp + [Color(a, size, x + dx, y + dy)], size, dx, dy)
  {
    hide Color, IsPattern;
    IndexInPattern(size, x, y);
  }

  lemma AllFetched(a: seq<CFAColor>, tmp: seq<CFAColor>, size: Point, dx: int, dy: int)
    requires IsPattern(a, size) && FetchedSoFar(a, tmp, size, dx, dy) && |tmp| == size.y * size.x
    ensures IsPattern(tmp, size) && IsShifted(a, tmp, size, dx, dy)
  {
    hide Color;
    ShiftedEverywhere(a, tmp, size, dx, dy);
  }

  lemma ShiftByNothing(a: seq<CFAColor>, size: Point)
    requires IsPattern(a, size)
    ensures IsShifted(a, a, size, 0, 0)
  {
    hide Color;
  }

  class ColorFilterArray {
    var cfa: seq<CFAColor>
    var size: Point

    ghost predicate Valid()
      reads this
    {
      if cfa == [] then size == Point(0, 0) else IsPattern(cfa, size)
    }

    constructor (size: Point)
      requires size == Point(0, 0) || (size.x > 0 && size.y > 0 && size.x * size.y <= 36)
      ensures Valid() && this.size == size
      ensures cfa == if size == Point(0, 0) then [] else seq(size.x * size.y, _ => UNKNOWN)
    {
      this.size := size;
      cfa := if size == Point(0, 0) then [] else seq(size.x * size.y, _ => UNKNOWN);
    }

    /** Fails outside the pattern. */
    method SetColorAt(pos: Point, c: CFAColor) returns (ok: bool)
      requires Valid()
      modifies this`cfa
      ensures Valid() && (ok <==> 0 <= pos.x < size.x && 0 <= pos.y < size.y)
      ensures !ok ==> cfa == old(cfa)
      ensures ok ==> forall x, y :: Color(cfa, size, x, y) == if x % size.x == pos.x && y % size.y == pos.y then c
                                                              else Color(old(cfa), size, x, y)
    {
      if pos.x >= size.x || pos.x < 0 {
        return false;
      }
      if pos.y >= size.y || pos.y < 0 {
        return false;
      }
      IndexInPattern(size, pos.x, pos.y);
      cfa := cfa[pos.x + pos.y * size.x := c];
      forall x, y
        ensures Color(cfa, size, x, y) == if x % size.x == pos.x && y % size.y == pos.y then c
                                          else Color(old(cfa), size, x, y)
      {
        IndexInPattern(size, x % size.x, y % size.y);
      }
      return true;
    }

    /** `None` where the source throws: there is no pattern. */
    method GetColorAt(x: int, y: int) returns (c: Option<CFAColor>)
      requires Valid()
      ensures c == if cfa == [] then None else Some(Color(cfa, size, x, y))
    {
      if cfa == [] {
        return None;
      }
      var px := TruncatedRemainder(TruncatedRemainder(x, size.x) + size.x, size.x);
      var py := TruncatedRemainder(TruncatedRemainder(y, size.y) + size.y, size.y);
      PositiveModulo(x, size.x);
      PositiveModulo(y, size.y);
      IndexInPattern(size, px, py);
      return Some(cfa[px + py * size.x]);
    }

    /** Every entry is fetched from where it is before the shift. */
    method Shifted(dx: int, dy: int) returns (tmp: seq<CFAColor>)
      requires Valid() && cfa != []
      ensures IsPattern(tmp, size) && IsShifted(cfa, tmp, size, dx, dy)
    {
      hide Color, FetchedSoFar;
      tmp := [];
      NothingFetched(cfa, size, dx, dy);
      var y := 0;
      while y < size.y
        invariant 0 <= y <= size.y && |tmp| == y * size.x
        invariant FetchedSoFar(cfa, tmp, size, dx, dy)
      {
        ghost var start := |tmp|;
        var x := 0;
        while x < size.x
          invariant 0 <= x <= size.x && |tmp| == x + start
          invariant FetchedSoFar(cfa, tmp, size, dx, dy)
        {
          var c := GetColorAt(x + dx, y + dy);
          OneMoreFetched(cfa, tmp, size, dx, dy, x, y);
          tmp := tmp + [c.value];
          x := x + 1;
        }
        assert (y + 1) * size.x == start + size.x;
        y := y + 1;
      }
      AllFetched(cfa, tmp, size, dx, dy);
    }

    /** Moves the point of origin to the right. */
    method ShiftRight(n: int) returns (ok: bool)
      requires Valid()
      modifies this`cfa
      ensures Valid() && (ok <==> old(cfa) != []) && (cfa == [] <==> old(cfa) == [])
      ensures ok ==> IsShifted(old(cfa), cfa, size, n, 0)
    {
      if cfa == [] {
        return false;
      }
      var m := TruncatedRemainder(n, size.x);
      ghost var k := TruncatedIsMultiple(n, size.x);
      hide Color, IsShifted, IsPattern, TruncatedRemainder;
      ShiftByNothing(cfa, size);
      var tmp := cfa;
      if m != 0 {
        tmp := Shifted(m, 0);
      }
      ShiftByRemainder(cfa, tmp, size, m, 0, n, 0, k, 0);
      cfa := tmp;
      return true;
    }

    /** Moves the point of origin down. */
    method ShiftDown(n: int) returns (ok: bool)
      requires Valid()
      modifies this`cfa
      ensures Valid() && (ok <==> old(cfa) != []) && (cfa == [] <==> old(cfa) == [])
      ensures ok ==> IsShifted(old(cfa), cfa, size, 0, n)
    {
      if cfa == [] {
        return false;
      }
      var m := TruncatedRemainder(n, size.y);
      ghost var k := TruncatedIsMultiple(n, size.y);
      hide Color, IsShifted, IsPattern, TruncatedRemainder;
      ShiftByNothing(cfa, size);
      var tmp := cfa;
      if m != 0 {
        tmp := Shifted(0, m);
      }
      ShiftByRemainder(cfa, tmp, size, 0, m, 0, n, 0, k);
      cfa := tmp;
      return true;
    }

    /** The encoding of the pattern. The results 9 and 1 also stand for X-Trans patterns, and for
        patterns that have no encoding. `None` where a colour has no number. */
    method GetDcrawFilter() returns (r: Option<nat>)
      requires Valid()
      ensures cfa == [] || !IsSmall(size) ==> r == Some(if size == Point(6, 6) then 9 else 1)
      ensures cfa != [] && IsSmall(size) ==> (r.Some? <==> IsEncodable(cfa))
      ensures cfa != [] && IsSmall(size) ==> (r.Some? <==> UNKNOWN !in cfa && END !in cfa)
      ensures cfa != [] && IsSmall(size) && r.Some? ==> IsFilterOf(r.value, cfa, size)
      ensures cfa != [] && IsSmall(size) && r.Some? ==>
                forall x, y :: IsNumberOf(r.value / Pow2(4 * (y % 8) + 2 * (x % 2)) % 4, Color(cfa, size, x, y))
    {
      if size.x == 6 && size.y == 6 {
        return Some(9);
      }
      if cfa == [] || size.x > 2 || size.y > 8 || size.y !in {1, 2, 4, 8} {
        return Some(1);
      }
      hide Color, EncodedSoFar, ToDcrawColor, Pow2;
      NothingEncoded(cfa, size);
      var ret: nat := 0;
      for x := 0 to 2
        invariant EncodedSoFar(cfa, size, ret, x, 0)
      {
        for y := 0 to 8
          invariant EncodedSoFar(cfa, size, ret, x, y)
        {
          var color := GetColorAt(x, y);
          var c := ToDcrawColor(color.value);
          if c.None? {
            NumberOfColor(color.value);
            ColorIsEntry(cfa, size, x, y);
            return None;
          }
          OneMoreEncoded(cfa, size, ret, x, y);
          ret := Or(ret, Shl(c.value, x % 2 * 2 + y * 4 + x / 2 * 8));
        }
        ColumnEncoded(cfa, size, ret, x);
      }
      AllEncoded(cfa, size, ret);
      NumbersOfFilter(ret, cfa, size);
      return Some(ret);
    }
  }

  /** A filter in plain numbers. */
  lemma NumbersOfFilter(filter: nat, cfa: seq<CFAColor>, size: Point)
    requires IsPattern(cfa, size) && IsFilterOf(filter, cfa, size)
    ensures forall x, y :: IsNumberOf(filter / Pow2(4 * (y % 8) + 2 * (x % 2)) % 4, Color(cfa, size, x, y))
  {
    hide Color, Pow2, IsPattern, FC, ToDcrawColor, IsNumberOf;
    forall x, y
      ensures IsNumberOf(filter / Pow2(4 * (y % 8) + 2 * (x % 2)) % 4, Color(cfa, size, x, y))
    {
      assert ToDcrawColor(Color(cfa, size, x, y)) == Some(FC(filter, y, x));
      NumberOfColor(Color(cfa, size, x, y));
      FCByDivision(filter, y, x);
    }
  }

  lemma FCByDivision(filter: nat, row: int, col: int)
    ensures FC(filter, row, col) == filter / Pow2(4 * (row % 8) + 2 * (col % 2)) % 4
  {
    var k: nat := 2 * (row % 8) + col % 2;
    assert Pow2(2) == 4;
    hide Trunc, Shr, Pow2;
    ShrIsDivision(filter, 2 * k);
    TruncIsRemainder(Shr(filter, 2 * k), 2);
    assert 2 * k == 4 * (row % 8) + 2 * (col % 2);
  }

  /** Cell `k` comes before pixel `x`, `y`, column by column. */
  predicate IsBefore(k: nat, x: nat, y: nat) {
    k % 2 < x || (k % 2 == x && k / 2 < y)
  }

  ghost predicate EncodedSoFar(cfa: seq<CFAColor>, size: Point, filter: nat, x: nat, y: nat)
    requires IsPattern(cfa, size)
  {
    && filter < Pow2(FILTER_BITS)
    && (forall k: nat :: k < 16 && IsBefore(k, x, y) ==>
                           ToDcrawColor(Color(cfa, size, k % 2, k / 2)) == Some(Digit(filter, k)))
    && (forall k: nat :: k < 16 && !IsBefore(k, x, y) ==> Digit(filter, k) == 0)
  }

  lemma NothingEncoded(cfa: seq<CFAColor>, size: Point)
    requires IsPattern(cfa, size)
    ensures EncodedSoFar(cfa, size, 0, 0, 0)
  {
    hide Color, IsPattern;
    forall k: nat | k < 16
      ensures Digit(0, k) == 0
    {
      DigitsOfNibble(0, k);
    }
  }

  lemma OneMoreEncoded(cfa: seq<CFAColor>, size: Point, filter: nat, x: nat, y: nat)
    requires IsPattern(cfa, size) && EncodedSoFar(cfa, size, filter, x, y) && x < 2 && y < 8
    requires ToDcrawColor(Color(cfa, size, x, y)).Some?
    ensures
      var c := ToDcrawColor(Color(cfa, size, x, y)).value;
      EncodedSoFar(cfa, size, Or(filter, Shl(c, x % 2 * 2 + y * 4 + x / 2 * 8)), x, y + 1)
  {
    hide Color, IsPattern, Digit, Pow2, Or, Shl;
    var c := ToDcrawColor(Color(cfa, size, x, y)).value;
    PutDigit(filter, c, 2 * y + x);
    assert x % 2 * 2 + y * 4 + x / 2 * 8 == 2 * (2 * y + x);
  }

  lemma ColumnEncoded(cfa: seq<CFAColor>, size: Point, filter: nat, x: nat)
    requires IsPattern(cfa, size) && EncodedSoFar(cfa, size, filter, x, 8)
    ensures EncodedSoFar(cfa, size, filter, x + 1, 0)
  {
    hide Color, IsPattern, Digit, Pow2, ToDcrawColor;
    assert forall k: nat :: k < 16 ==> (IsBefore(k, x, 8) <==> IsBefore(k, x + 1, 0));
  }

  lemma AllEncoded(cfa: seq<CFAColor>, size: Point, filter: nat)
    requires IsPattern(cfa, size) && IsSmall(size) && EncodedSoFar(cfa, size, filter, 2, 0)
    ensures IsFilterOf(filter, cfa, size) && IsEncodable(cfa)
  {
    hide IsEncodable;
    hide Color, IsPattern, Digit, Pow2, ToDcrawColor;
    assert forall k: nat :: k < 16 ==> IsBefore(k, 2, 0);
    CellsAreFilter(filter, cfa, size);
    FilterNeedsColors(filter, cfa, size);
  }

  lemma FilterNeedsColors(filter: nat, cfa: seq<CFAColor>, size: Point)
    requires IsPattern(cfa, size) && IsFilterOf(filter, cfa, size)
    ensures IsEncodable(cfa)
  {
    hide Color, Digit, Pow2, ToDcrawColor, IsEncodable;
    EncodableIff(cfa);
    forall c | c in cfa
      ensures ToDcrawColor(c).Some?
    {
      var k :| 0 <= k < |cfa| && cfa[k] == c;
      ColorOfEntry(cfa, size, k);
      assert ToDcrawColor(Color(cfa, size, k % size.x, k / size.x)) == Some(FC(filter, k / size.x, k % size.x));
    }
  }

  /** A shift keeps the set of colours. */
  lemma ShiftKeepsColors(a: seq<CFAColor>, b: seq<CFAColor>, size: Point, dx: int, dy: int)
    requires IsPattern(a, size) && IsPattern(b, size) && IsShifted(a, b, size, dx, dy)
    ensures forall c :: c in a <==> c in b
  {
    hide Color;
    ColorsOfShifted(a, b, size, dx, dy);
    ShiftedBackwards(a, b, size, dx, dy);
    ColorsOfShifted(b, a, size, -dx, -dy);
  }

  lemma ColorsOfShifted(a: seq<CFAColor>, b: seq<CFAColor>, size: Point, dx: int, dy: int)
    requires IsPattern(a, size) && IsPattern(b, size) && IsShifted(a, b, size, dx, dy)
    ensures forall c :: c in b ==> c in a
  {
    hide Color;
    forall c | c in b
      ensures c in a
    {
      var k :| 0 <= k < |b| && b[k] == c;
      ColorOfEntry(b, size, k);
      assert Color(b, size, k % size.x, k / size.x) == Color(a, size, k % size.x + dx, k / size.x + dy);
      ColorIsEntry(a, size, k % size.x + dx, k / size.x + dy);
    }
  }

  /** Shifting the pattern and shifting its encoding come to the same, wherever the latter is
      defined. */
  method ShiftBothWays(c: ColorFilterArray, x: int, y: int) returns (before: nat, after: nat, shifted: Option<nat>)
    requires c.Valid() && c.cfa != [] && IsSmall(c.size) && IsEncodable(c.cfa)
    requires -TWO_31 <= x < TWO_31 && -TWO_31 <= y < TWO_31
    modifies c`cfa
    ensures c.Valid() && c.cfa != [] && IsShifted(old(c.cfa), c.cfa, c.size, x, y)
    ensures IsFilterOf(before, old(c.cfa), c.size) && IsFilterOf(after, c.cfa, c.size)
    ensures shifted == if ShiftIsDefined(x, y) then Some(after) else None
  {
    hide IsShifted, IsFilterOf, IsPattern, IsSmall;
    ghost var original := c.cfa;
    var r := c.GetDcrawFilter();
    before := r.value;
    FilterBound(before, c.cfa, c.size);
    shifted := ShiftDcrawFilter(before, x, y);
    var right := c.ShiftRight(x);
    ghost var middle := c.cfa;
    var down := c.ShiftDown(y);
    ShiftTwice(original, middle, c.cfa, c.size, x, 0, 0, y);
    assert x + 0 == x && 0 + y == y;
    ShiftKeepsColors(original, c.cfa, c.size, x, y);
    r := c.GetDcrawFilter();
    after := r.value;
    if shifted.Some? {
      FilterOfShifted(original, c.cfa, c.size, x, y, before, shifted.value);
      FilterIsUnique(shifted.value, after, c.cfa, c.size);
    }
  }

  lemma FilterBound(filter: nat, cfa: seq<CFAColor>, size: Point)
    requires IsPattern(cfa, size) && IsFilterOf(filter, cfa, size)
    ensures filter < Pow2(FILTER_BITS)
  {
  }

  /** A green pixel among red ones: with eight rows that is the filter 1, which is not told from
      "no encoding". Such a pattern is not adjusted, although a move by one column changes it. */
  method MistakenExample() returns (c: ColorFilterArray)
    ensures fresh(c) && c.Valid() && c.cfa != [] && c.size == Point(2, 8)
    ensures IsFilterOf(1, c.cfa, c.size) && !IsAdjusted(c.cfa, c.size)
    ensures Color(c.cfa, c.size, 0, 0) == GREEN && Color(c.cfa, c.size, 1, 0) == RED
    ensures !IsShifted(c.cfa, c.cfa, c.size, 1, 0)
  {
    c := GreenAmongRed();
    hide Color, IsShifted, IsFilterOf;
    FilterOfGreenAmongRed(c.cfa, c.size);
    ColumnsDiffer(c.cfa, c.size);
  }

  method GreenAmongRed() returns (c: ColorFilterArray)
    ensures fresh(c) && c.Valid() && c.cfa != [] && c.size == Point(2, 8)
    ensures forall x, y :: 0 <= x < 2 && 0 <= y < 8 ==>
                             Color(c.cfa, c.size, x, y) == if x == 0 && y == 0 then GREEN else RED
  {
    c := new ColorFilterArray(Point(2, 8));
    hide Color;
    for y := 0 to 8
      invariant c.Valid() && c.cfa != [] && c.size == Point(2, 8)
      invariant forall i, j :: 0 <= i < 2 && 0 <= j < y ==> Color(c.cfa, c.size, i, j) == RED
    {
      var left := c.SetColorAt(Point(0, y), RED);
      var right := c.SetColorAt(Point(1, y), RED);
    }
    var first := c.SetColorAt(Point(0, 0), GREEN);
  }

  lemma FilterOfGreenAmongRed(cfa: seq<CFAColor>, size: Point)
    requires IsPattern(cfa, size) && size == Point(2, 8)
    requires forall x, y :: 0 <= x < 2 && 0 <= y < 8 ==>
                              Color(cfa, size, x, y) == if x == 0 && y == 0 then GREEN else RED
    ensures IsFilterOf(1, cfa, size)
  {
    hide Color, IsPattern, IsFilterOf;
    SmallFilterIff(1, cfa, size);
  }

  lemma ColumnsDiffer(cfa: seq<CFAColor>, size: Point)
    requires IsPattern(cfa, size) && Color(cfa, size, 0, 0) != Color(cfa, size, 1, 0)
    ensures !IsShifted(cfa, cfa, size, 1, 0)
  {
    hide Color;
    assert Color(cfa, size, 0, 0) != Color(cfa, size, 0 + 1, 0 + 0);
  }

  /** A pattern that is adjusted, and mistaken after that. */
  method MistakenLaterExample() returns (c: ColorFilterArray)
    ensures fresh(c) && c.Valid() && c.cfa != [] && c.size == Point(2, 8)
    ensures IsAdjusted(c.cfa, c.size) && !NeverMistaken(c.cfa, c.size)
    ensures IsFilterOf(1, ShiftedPattern(c.cfa, c.size, 1, 0), c.size)
  {
    c := MistakenExample();
    hide *;
    LookLeft(c);
  }

  /** From its left neighbour a mistaken pattern is not mistaken yet. */
  method LookLeft(c: ColorFilterArray)
    requires c.Valid() && c.cfa != [] && c.size == Point(2, 8) && IsFilterOf(1, c.cfa, c.size)
    modifies c`cfa
    ensures c.Valid() && c.cfa != []
    ensures IsAdjusted(c.cfa, c.size) && !NeverMistaken(c.cfa, c.size)
    ensures IsFilterOf(1, ShiftedPattern(c.cfa, c.size, 1, 0), c.size)
  {
    ghost var mistaken := c.cfa;
    hide Color, ShiftedPattern, IsShifted, IsPattern, IsAdjusted, IsFilterOf, NeverMistaken;
    var left := c.ShiftRight(-1);
    LooksMistaken(mistaken, c.cfa, c.size);
  }

  lemma LooksMistaken(mistaken: seq<CFAColor>, cfa: seq<CFAColor>, size: Point)
    requires IsPattern(mistaken, size) && IsPattern(cfa, size) && size == Point(2, 8)
    requires IsFilterOf(1, mistaken, size) && IsShifted(mistaken, cfa, size, -1, 0)
    ensures IsAdjusted(cfa, size) && !NeverMistaken(cfa, size)
    ensures IsFilterOf(1, ShiftedPattern(cfa, size, 1, 0), size)
  {
    SecondIsGreen(mistaken, cfa, size);
    hide Color, ShiftedPattern, IsPattern, IsShifted, IsFilterOf, NeverMistaken;
    ShiftedBackwards(mistaken, cfa, size, -1, 0);
    ShiftIsUnique(cfa, mistaken, ShiftedPattern(cfa, size, 1, 0), size, 1, 0);
    MistakenFromThere(cfa, size, 1, 0);
  }

  lemma MistakenFromThere(cfa: seq<CFAColor>, size: Point, dx: int, dy: int)
    requires IsPattern(cfa, size) && !IsAdjusted(ShiftedPattern(cfa, size, dx, dy), size)
    ensures !NeverMistaken(cfa, size)
  {
    hide IsPattern, ShiftedPattern, IsAdjusted;
  }

  /** Seen from the new origin, the old one lies the other way. */
  lemma ShiftedBackwards(a: seq<CFAColor>, b: seq<CFAColor>, size: Point, dx: int, dy: int)
    requires IsPattern(a, size) && IsPattern(b, size) && IsShifted(a, b, size, dx, dy)
    ensures IsShifted(b, a, size, -dx, -dy)
  {
    hide Color;
    forall x, y
      ensures Color(a, size, x, y) == Color(b, size, x + -dx, y + -dy)
    {
      assert Color(b, size, x + -dx, y + -dy) == Color(a, size, x + -dx + dx, y + -dy + dy);
    }
  }

  lemma SecondIsGreen(mistaken: seq<CFAColor>, cfa: seq<CFAColor>, size: Point)
    requires IsPattern(mistaken, size) && IsPattern(cfa, size) && size == Point(2, 8)
    requires IsFilterOf(1, mistaken, size) && IsShifted(mistaken, cfa, size, -1, 0)
    ensures !IsFilterOf(1, cfa, size) && !IsFilterOf(9, cfa, size)
  {
    SameColor(mistaken, size, -1, 0, 1, 0);
    hide Color, IsPattern, ToDcrawColor;
    assert Color(cfa, size, 0, 0) == Color(mistaken, size, 0 + -1, 0 + 0);
    hide IsFilterOf, IsShifted;
    FirstColors(1, mistaken, size);
    if IsFilterOf(1, cfa, size) {
      FirstColors(1, cfa, size);
    }
    if IsFilterOf(9, cfa, size) {
      FirstColors(9, cfa, size);
    }
  }

  lemma FirstColors(filter: nat, cfa: seq<CFAColor>, size: Point)
    requires filter < 16 && IsPattern(cfa, size) && IsSmall(size) && IsFilterOf(filter, cfa, size)
    ensures ToDcrawColor(Color(cfa, size, 0, 0)) == Some(filter % 4)
    ensures ToDcrawColor(Color(cfa, size, 1, 0)) == Some(filter / 4)
  {
    hide Color, IsPattern, ToDcrawColor, IsSmall, FC, Digit, Pow2;
    CellDigit(filter, 0, 0);
    CellDigit(filter, 1, 0);
    assert ToDcrawColor(Color(cfa, size, 0, 0)) == Some(FC(filter, 0, 0));
    assert ToDcrawColor(Color(cfa, size, 1, 0)) == Some(FC(filter, 0, 1));
  }
}
