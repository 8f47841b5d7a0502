/**
 * Combining the pixel data of two bitmaps of the same size, as a rows x columns grid of
 * bytes (three bytes per pixel): `blend` averages them cell by cell; `check` lays tiles
 * of one image and the other in a checkerboard, tiles being rows/8 high and columns/8 wide.
 */
module ImageCombine {

  /** An unsigned char. */
  type byte = x: int | 0 <= x < 256

  /** The blended byte: the sum of the two, halved with the remainder dropped. */
  function Average(a: byte, b: byte): (m: byte)
    ensures (a <= m <= b) || (b <= m <= a)
    ensures 2 * m == a + b || 2 * m == a + b - 1
  {
    (a + b) / 2
  }

  /** The three grids are rows x columns. */
  predicate SameShape(rows: int, columns: int, buffer: array2<byte>, one: array2<byte>, two: array2<byte>)
  {
    buffer.Length0 == one.Length0 == two.Length0 == rows
    && buffer.Length1 == one.Length1 == two.Length1 == columns
  }

  /** blend: every cell of `buffer` becomes the average of the two images' cells. */
  method Blend(rows: int, columns: int, buffer: array2<byte>, one: array2<byte>, two: array2<byte>)
    requires SameShape(rows, columns, buffer, one, two) && buffer != one && buffer != two
    modifies buffer
    ensures forall r, c :: 0 <= r < rows && 0 <= c < columns ==> buffer[r, c] == Average(one[r, c], two[r, c])
  {
    var r := 0;
    while r < rows
      invariant 0 <= r <= rows
      invariant forall i, c :: 0 <= i < r && 0 <= c < columns ==> buffer[i, c] == Average(one[i, c], two[i, c])
    {
      var c := 0;
      while c < columns
        invariant 0 <= c <= columns
        invariant forall i, k :: 0 <= i < r && 0 <= k < columns ==> buffer[i, k] == Average(one[i, k], two[i, k])
        invariant forall k :: 0 <= k < c ==> buffer[r, k] == Average(one[r, k], two[r, k])
      {
        buffer[r, c] := Average(one[r, c], two[r, c]);
        c := c + 1;
      }
      r := r + 1;
    }
  }

  /**
   * check's `turn` for the first tile of row r, with tiles `checkrow` rows high and `tiles`
   * tiles to a row: it starts true, flips once per tile, and flips again at each row r with
   * r % checkrow == 0.
   */
  function StartTurn(r: nat, checkrow: int, tiles: int): (t: bool)
    requires checkrow > 0
    ensures r == 0 ==> !t
  {
    var before := if r == 0 then true else StartTurn(r - 1, checkrow, tiles) != (tiles % 2 == 1);
    before != (r % checkrow == 0)
  }

  /** Whether check copies tile k of row r from the first image. */
  function FromOne(r: nat, k: nat, checkrow: int, tiles: int): (t: bool)
    requires checkrow > 0
    ensures r == 0 ==> (t <==> k % 2 == 1)
  {
    StartTurn(r, checkrow, tiles) != (k % 2 == 1)
  }

  /** What check leaves in cell (r, c), with tiles checkrow x checkcol. */
  function Checked(one: array2<byte>, two: array2<byte>, r: nat, c: nat, checkrow: int, checkcol: int, tiles: int): (v: byte)
    requires checkrow > 0 && checkcol > 0 && r < one.Length0 && c < one.Length1 && r < two.Length0 && c < two.Length1
    reads one, two
    ensures v == one[r, c] || v == two[r, c]
  {
    if FromOne(r, c / checkcol, checkrow, tiles) then one[r, c] else two[r, c]
  }

  /**
   * check needs at least 8 rows (else the modulo by rows/8 divides by zero) and at least 8
   * columns (else the column step columns/8 is 0), and columns a multiple of columns/8, else
   * the last tile of a row runs past it.
   */
  predicate CheckShape(rows: int, columns: int)
  {
    rows >= 8 && columns >= 8 && columns % (columns / 8) == 0
  }

  /** Copying one tile, cells c to c + checkcol - 1 of row r, from `src`. */
  method CopyTile(buffer: array2<byte>, src: array2<byte>, r: int, c: int, checkcol: int)
    requires buffer != src && buffer.Length0 == src.Length0 && buffer.Length1 == src.Length1
    requires 0 <= r < buffer.Length0 && 0 <= c && checkcol > 0 && c + checkcol <= buffer.Length1
    modifies buffer
    ensures forall i, k :: 0 <= i < buffer.Length0 && 0 <= k < buffer.Length1 ==>
      buffer[i, k] == (if i == r && c <= k < c + checkcol then src[i, k] else old(buffer[i, k]))
  {
    var count := c;
    while count < c + checkcol
      invariant c <= count <= c + checkcol
      invariant forall i, k :: 0 <= i < buffer.Length0 && 0 <= k < buffer.Length1 ==>
        buffer[i, k] == (if i == r && c <= k < count then src[i, k] else old(buffer[i, k]))
    {
      buffer[r, count] := src[r, count];
      count := count + 1;
    }
  }

  /**
   * One row of check: the tiles of row r, the first copied from the first image when `turn`
   * is true and then alternating; the flag comes back flipped once per tile.
   */
  method CheckRow(buffer: array2<byte>, one: array2<byte>, two: array2<byte>, r: int, checkcol: int,
                  ghost tiles: int, turn: bool) returns (next: bool)
    requires buffer != one && buffer != two && checkcol > 0 && tiles >= 0
    requires buffer.Length0 == one.Length0 == two.Length0 && buffer.Length1 == one.Length1 == two.Length1
    requires 0 <= r < buffer.Length0 && buffer.Length1 == tiles * checkcol
    modifies buffer
    ensures next == (turn != (tiles % 2 == 1))
    ensures forall i, j :: 0 <= i < buffer.Length0 && 0 <= j < buffer.Length1 ==>
      buffer[i, j] == (if i != r then old(buffer[i, j])
                       else if turn != ((j / checkcol) % 2 == 1) then one[i, j] else two[i, j])
  {
    var columns := buffer.Length1;
    next := turn;
    var c := 0;
    ghost var k := 0;
    while c < columns
      invariant 0 <= k <= tiles && c == k * checkcol
      invariant next == (turn != (k % 2 == 1))
      invariant forall i, j :: 0 <= i < buffer.Length0 && 0 <= j < columns ==>
        buffer[i, j] == (if i != r || j >= c then old(buffer[i, j])
                         else if turn != ((j / checkcol) % 2 == 1) then one[i, j] else two[i, j])
    {
      TileOf(k, checkcol, tiles);
      if next {
        CopyTile(buffer, one, r, c, checkcol);
        next := false;
      } else {
        CopyTile(buffer, two, r, c, checkcol);
        next := true;
      }
      c := c + checkcol;
      k := k + 1;
    }
  }

  /**
   * check: every cell of `buffer` is the same cell of one image or the other, the image
   * chosen per tile by the `turn` flag as StartTurn and FromOne describe.
   */
  method Check(rows: int, columns: int, buffer: array2<byte>, one: array2<byte>, two: array2<byte>)
    requires SameShape(rows, columns, buffer, one, two) && buffer != one && buffer != two
    requires CheckShape(rows, columns)
    modifies buffer
    ensures forall r, c :: 0 <= r < rows && 0 <= c < columns ==>
      buffer[r, c] == Checked(one, two, r, c, rows / 8, columns / 8, columns / (columns / 8))
  {
    var turn := true;
    var checkrow := rows / 8;
    var checkcol := columns / 8;
    ghost var tiles := columns / checkcol;
    assert columns == tiles * checkcol;
    var r := 0;
    while r < rows
      invariant 0 <= r <= rows
      invariant turn == (if r == 0 then true else StartTurn(r - 1, checkrow, tiles) != (tiles % 2 == 1))
      invariant forall i, c :: 0 <= i < r && 0 <= c < columns ==>
        buffer[i, c] == Checked(one, two, i, c, checkrow, checkcol, tiles)
    {
      if r % checkrow == 0 {
        if turn == true {
          turn := false;
        } else {
          turn := true;
        }
      }
      turn := CheckRow(buffer, one, two, r, checkcol, tiles, turn);
      r := r + 1;
    }
  }

  /** Quotient and remainder are unique. */
  lemma {:induction false} DivUnique(x: int, d: int, q: int, m: int)
    requires d > 0 && x == q * d + m && 0 <= m < d
    ensures x / d == q && x % d == m
  {
    var q0, m0 := x / d, x % d;
    assert x == q0 * d + m0 && 0 <= m0 < d;
    assert (q - q0) * d == m0 - m;
    if q > q0 {
      MulAtLeast(q - q0, d);
    } else if q < q0 {
      MulAtLeast(q0 - q, d);
    }
  }

  /** A positive multiple of d is at least d. */
  lemma {:induction false} MulAtLeast(a: int, d: int)
    requires a >= 1 && d > 0
    ensures a * d >= d
  {
    assert a * d == (a - 1) * d + d;
  }

  /** The cells of tile k are those whose column divided by the tile width is k. */
  lemma {:induction false} TileOf(k: int, checkcol: int, tiles: int)
    requires 0 <= k < tiles && checkcol > 0
    ensures forall j :: k * checkcol <= j < (k + 1) * checkcol ==> j / checkcol == k
    ensures (k + 1) * checkcol <= tiles * checkcol
  {
    forall j | k * checkcol <= j < (k + 1) * checkcol ensures j / checkcol == k {
      assert (k + 1) * checkcol == k * checkcol + checkcol;
      DivUnique(j, checkcol, k, j - k * checkcol);
    }
    MulAtLeast(tiles - k, checkcol);
    assert tiles * checkcol == (k + 1) * checkcol + (tiles - k - 1) * checkcol;
    if tiles - k - 1 > 0 {
      MulAtLeast(tiles - k - 1, checkcol);
    }
  }

  /** Next to each other in a row, tiles come from different images. */
  lemma {:induction false} TilesAlternate(r: nat, k: nat, checkrow: int, tiles: int)
    requires checkrow > 0
    ensures FromOne(r, k + 1, checkrow, tiles) != FromOne(r, k, checkrow, tiles)
  {
    assert (k + 1) % 2 == 1 <==> k % 2 == 0;
  }

  /**
   * With an even number of tiles to a row, the first tile of row r comes from the first
   * image exactly in the odd bands of rows: check draws a checkerboard.
   */
  lemma {:induction false} EvenTilesBands(r: nat, checkrow: int, tiles: int)
    requires checkrow > 0 && tiles % 2 == 0
    ensures StartTurn(r, checkrow, tiles) == ((r / checkrow) % 2 == 1)
    decreases r
  {
    if r > 0 {
      EvenTilesBands(r - 1, checkrow, tiles);
      var q, m := (r - 1) / checkrow, (r - 1) % checkrow;
      assert r - 1 == q * checkrow + m;
      if m + 1 == checkrow {
        assert r == (q + 1) * checkrow + 0;
        DivUnique(r, checkrow, q + 1, 0);
      } else {
        DivUnique(r, checkrow, q, m + 1);
      }
    }
  }

  /** The intended checkerboard: tile k of row r is from the first image when its band and k differ in parity. */
  function IntendedFromOne(r: nat, k: nat, checkrow: int): (t: bool)
    requires checkrow > 0
    ensures r < checkrow ==> (t <==> k % 2 == 1)
  {
    (r / checkrow + k) % 2 == 1
  }

  /** With an even number of tiles, check lays exactly the intended checkerboard. */
  lemma {:induction false} EvenTilesCheckerboard(r: nat, k: nat, checkrow: int, tiles: int)
    requires checkrow > 0 && tiles % 2 == 0
    ensures FromOne(r, k, checkrow, tiles) == IntendedFromOne(r, k, checkrow)
  {
    EvenTilesBands(r, checkrow, tiles);
  }

  /** In the intended board, tiles next to each other in a row or in adjacent bands differ. */
  lemma {:induction false} IntendedAlternates(r: nat, k: nat, checkrow: int)
    requires checkrow > 0
    ensures IntendedFromOne(r, k + 1, checkrow) != IntendedFromOne(r, k, checkrow)
    ensures IntendedFromOne(r + checkrow, k, checkrow) != IntendedFromOne(r, k, checkrow)
  {
    var q, m := r / checkrow, r % checkrow;
    assert r + checkrow == (q + 1) * checkrow + m;
    DivUnique(r + checkrow, checkrow, q + 1, m);
  }

  /**
   * With 8 rows and 27 columns check has tiles one row high and nine tiles to a row; the
   * turn flipped by the odd tile count and again by the new band cancels, so every row
   * starts like the first one and the board degenerates into vertical stripes.
   */
  lemma {:induction false} OddTilesStripes(r: nat)
    ensures CheckShape(8, 27) && 8 / 8 == 1 && 27 / (27 / 8) == 9
    ensures StartTurn(r, 1, 9) == StartTurn(0, 1, 9)
    ensures StartTurn(r, 1, 9) == StartTurn(r + 1, 1, 9) && IntendedFromOne(r + 1, 0, 1) != IntendedFromOne(r, 0, 1)
    decreases r
  {
    if r > 0 {
      OddTilesStripes(r - 1);
    }
    IntendedAlternates(r, 0, 1);
  }

  /**
   * Below 8 rows or 8 columns check's tiles vanish: with n / 8 == 0 rows, `r % checkrow`
   * divides by zero, and with n / 8 == 0 columns the step `c += checkcol` leaves c where it
   * was, so the column loop never ends. No such shape passes CheckShape.
   */
  lemma {:induction false} SmallImageTilesVanish(n: int, c: int)
    requires 1 <= n <= 7
    ensures n / 8 == 0 && c + n / 8 == c
    ensures !CheckShape(n, 8) && !CheckShape(8, n)
  {
  }

  /**
   * The tile side as evidently intended: an eighth of the image side, but never less than
   * one pixel, so the column loop always advances and the band test never divides by zero.
   */
  function TileSize(n: int): (s: int)
    requires n >= 1
    ensures 1 <= s <= n
    ensures n >= 8 ==> s == n / 8
  {
    if n < 8 then 1 else n / 8
  }
}
