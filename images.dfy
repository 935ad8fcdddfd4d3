/** Pixel grids as the image library hands them to the tools: a width, a height and
    `height` rows of `width` pixels, read as `rows[y][x]` for the pixel at (x, y). */
module Images {

  /** One 8-bit colour channel. */
  type Byte = x: int | 0 <= x < 256

  /** A pixel of an "RGB" image, and the colour part of any pixel. */
  datatype Rgb = Rgb(r: Byte, g: Byte, b: Byte)

  /** A pixel as the image library returns it: a 3-tuple for "RGB" images,
      a 4-tuple for "RGBA" images. */
  datatype Pixel =
    | RGB(r: Byte, g: Byte, b: Byte)
    | RGBA(r: Byte, g: Byte, b: Byte, a: Byte)
  {
    /** The first three channels (`rgb[:3]`). */
    function Channels(): Rgb {
      Rgb(r, g, b)
    }

    /** A 4-tuple whose alpha channel is 0. */
    predicate Transparent() {
      RGBA? && a == 0
    }
  }

  datatype Grid<T> = Grid(width: nat, height: nat, rows: seq<seq<T>>) {
    predicate Valid() {
      |rows| == height && forall y :: 0 <= y < height ==> |rows[y]| == width
    }
  }

  type Image = Grid<Pixel>

  /** Dividing a row-major position by the row length gives back its row and column. */
  lemma RowMajor(row: nat, col: nat, n: nat)
    requires col < n
    ensures (row * n + col) / n == row && (row * n + col) % n == col
  {
    var k := row * n + col;
    var q, r := k / n, k % n;
    assert k == q * n + r && 0 <= r < n;
    if q > row {
      MulAtLeast(q - row, n);
    } else if q < row {
      MulAtLeast(row - q, n);
    }
  }

  lemma MulAtLeast(a: int, n: nat)
    requires a >= 1
    ensures a * n >= n
  {
  }

  /** A whole tile of `size` pixels starting at column `k * size` lies inside a
      row of `w` pixels when `k < w / size`. */
  lemma TileInside(k: nat, size: nat, w: nat)
    requires 0 < size && k < w / size
    ensures k * size + size <= w
  {
    MulMono(k + 1, w / size, size);
    assert (k + 1) * size == k * size + size;
    assert (w / size) * size <= w;
  }

  /** A position below `rows * n` lies in one of the first `rows` rows. */
  lemma DivBelow(k: nat, rows: nat, n: nat)
    requires k < rows * n
    ensures n > 0 && k / n < rows
  {
    assert n != 0;
    MulMono(rows, k / n, n);
  }

  /** Tile `k` of a row-major grid of `size` x `size` tiles over a `w` x `h` image is
      tile `k % (w / size)` of tile row `k / (w / size)`, and it lies wholly inside. */
  lemma TilePlace(k: nat, w: nat, h: nat, size: nat)
    requires 0 < size && k < (h / size) * (w / size)
    ensures var across := w / size;
      && across > 0 && k % across < across && k / across < h / size
      && (k / across) * across + k % across == k
      && (k % across) * size + size <= w && (k / across) * size + size <= h
  {
    var across := w / size;
    DivBelow(k, h / size, across);
    var x: nat, y: nat := k % across, k / across;
    DivMod(k, across);
    TileInside(x, size, w);
    TileInside(y, size, h);
  }

  /** Euclidean division: quotient times divisor plus remainder. */
  lemma DivMod(k: nat, n: nat)
    requires n > 0
    ensures (k / n) * n + k % n == k
  {
  }

  lemma MulMono(a: int, b: int, n: nat)
    ensures a <= b ==> a * n <= b * n
  {
    if a <= b {
      assert b * n - a * n == (b - a) * n;
    }
  }
}
