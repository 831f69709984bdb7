/** The `image<F>` class of otb/image.hpp: a heap buffer of
    `width * height` pixels of the format's pixel type, fixed dimensions and
    a bounds-asserted `operator[]`. The format is a constructor argument
    (the template parameter) and `T` the pixel type it selects: `uint8_t`
    for U8, `float` (an exact real here) for F32. */
module Images {
  import opened Scalar

  /** `image_format`: the only two formats this header defines. */
  datatype ImageFormat = U8 | F32

  /** `format_to_pixel_info<F>::channels` */
  function Channels(f: ImageFormat): nat
  {
    1
  }

  /** `sizeof(format_to_pixel_info<F>::type)` */
  function PixelTypeBytes(f: ImageFormat): nat
  {
    match f
    case U8 => 1
    case F32 => 4
  }

  /** `format_to_pixel_info<F>::size`: bytes per pixel. */
  function PixelBytes(f: ImageFormat): (bytes: nat)
    ensures f == U8 ==> bytes == 1
    ensures f == F32 ==> bytes == 4
  {
    Channels(f) * PixelTypeBytes(f)
  }

  /** `i * w + j`: the element index of row i, column j in a row-major
      buffer of width w. It is defined by counting whole rows so that proofs
      about the loops stay linear; `IdxIsProduct` states the product form. */
  function Idx(i: nat, j: nat, w: nat): nat
  {
    if i == 0 then j else Idx(i - 1, j, w) + w
  }

  /** The row of element index k: `k / w`. */
  function RowOf(k: nat, w: nat): nat
    requires 0 < w
  {
    if k < w then 0 else RowOf(k - w, w) + 1
  }

  /** The column of element index k: `k % w`. */
  function ColOf(k: nat, w: nat): nat
    requires 0 < w
  {
    if k < w then k else ColOf(k - w, w)
  }

  class Image<T(0)> {
    const format: ImageFormat
    const width: nat
    const height: nat
    /** `_data`: the pointer is set once; the pixels it points to change. */
    const data: array<T>

    ghost predicate Valid()
    {
      0 < width < U32 && 0 < height < U32 && width * height < U32 &&
      data.Length == width * height
    }

    /** `image(width, height)`: allocates `width * height` pixels (whose
        initial values the source leaves indeterminate) and asserts both
        dimensions are positive. */
    constructor (format: ImageFormat, width: U32Value, height: U32Value)
      requires 0 < width && 0 < height && width * height < U32
      ensures Valid() && fresh(data)
      ensures this.format == format && this.width == width && this.height == height
    {
      this.format := format;
      this.width := width;
      this.height := height;
      data := new T[width * height];
    }

    /** `size()`: the buffer's size in bytes. */
    function Size(): (bytes: nat)
      requires Valid()
      ensures format == U8 ==> bytes == width * height
      ensures format == F32 ==> bytes == 4 * (width * height)
      ensures bytes >= width * height
    {
      PixelBytes(format) * width * height
    }

    /** Reading through `operator[](index)`. */
    method Get(index: nat) returns (v: T)
      requires Valid() && index < width * height
      ensures v == data[index]
    {
      v := data[index];
    }

    /** Writing through the reference `operator[](index)` returns: only
        pixel `index` changes. */
    method Set(index: nat, v: T)
      requires Valid() && index < width * height
      modifies data
      ensures data[index] == v
      ensures forall k :: 0 <= k < data.Length && k != index ==> data[k] == old(data[k])
    {
      data[index] := v;
    }
  }

  lemma {:induction false} IdxIsProduct(i: nat, j: nat, w: nat)
    ensures Idx(i, j, w) == i * w + j
  {
    if i > 0 {
      IdxIsProduct(i - 1, j, w);
    }
  }

  /** The address of a cell of a width x height image is an element index. */
  lemma IdxBound(i: nat, j: nat, w: nat, h: nat)
    requires i < h && j < w
    ensures Idx(i, j, w) < w * h
  {
    IdxIsProduct(i, j, w);
    assert i * w + j < (i + 1) * w;
    MulMonotone(i + 1, h, w);
  }

  /** `IdxBound` for every cell at once. */
  lemma AllCellsInBounds(w: nat, h: nat)
    ensures forall r, c :: 0 <= r < h && 0 <= c < w ==> Idx(r, c, w) < w * h
  {
    forall r, c | 0 <= r < h && 0 <= c < w
      ensures Idx(r, c, w) < w * h
    {
      IdxBound(r, c, w, h);
    }
  }

  lemma MulMonotone(a: nat, b: nat, w: nat)
    requires a <= b
    ensures a * w <= b * w
  {
  }

  /** Row and column are recovered from a cell's address. */
  lemma {:induction false} RowColOfIdx(i: nat, j: nat, w: nat)
    requires j < w
    ensures RowOf(Idx(i, j, w), w) == i && ColOf(Idx(i, j, w), w) == j
  {
    if i > 0 {
      RowColOfIdx(i - 1, j, w);
    }
  }

  /** Distinct cells have distinct addresses. */
  lemma IdxInjective(i: nat, j: nat, i': nat, j': nat, w: nat)
    requires j < w && j' < w && (i != i' || j != j')
    ensures Idx(i, j, w) != Idx(i', j', w)
  {
    RowColOfIdx(i, j, w);
    RowColOfIdx(i', j', w);
  }

  /** Every element index is the address of the cell (RowOf, ColOf). */
  lemma {:induction false} IdxOfRowCol(k: nat, w: nat)
    requires 0 < w
    ensures ColOf(k, w) < w && Idx(RowOf(k, w), ColOf(k, w), w) == k
  {
    if k >= w {
      IdxOfRowCol(k - w, w);
    }
  }

  /** Every element index of a width x height image lies in one of its
      cells: row-major addressing is a bijection between the cells and
      [0, width * height). */
  lemma CellOfIndex(k: nat, w: nat, h: nat)
    requires 0 < w && k < w * h
    ensures RowOf(k, w) < h && ColOf(k, w) < w
    ensures Idx(RowOf(k, w), ColOf(k, w), w) == k
  {
    IdxOfRowCol(k, w);
    if RowOf(k, w) >= h {
      IdxIsProduct(RowOf(k, w), ColOf(k, w), w);
      MulMonotone(h, RowOf(k, w), w);
    }
  }

  /** `RowOf` and `ColOf` are the quotient and remainder of `k / w` and
      `k % w`. */
  lemma RowColAreDivMod(k: nat, w: nat)
    requires 0 < w
    ensures RowOf(k, w) == k / w && ColOf(k, w) == k % w
  {
    IdxOfRowCol(k, w);
    IdxIsProduct(RowOf(k, w), ColOf(k, w), w);
    DivModUnique(k, w, RowOf(k, w), ColOf(k, w));
  }

  lemma DivModUnique(x: int, w: nat, q: int, r: int)
    requires 0 < w && 0 <= r < w && x == q * w + r
    ensures x / w == q && x % w == r
  {
    var q', r' := x / w, x % w;
    assert x == q' * w + r';
    var d := q - q';
    assert d * w == q * w - q' * w;
    assert d * w == r' - r;
    MulSign(d, w);
  }

  lemma MulSign(d: int, w: nat)
    requires 0 < w
    ensures d >= 1 ==> d * w >= w
    ensures d <= -1 ==> d * w <= 0 - (w as int)
  {
    if d >= 1 {
      MulMonotone(1, d, w);
    } else if d <= -1 {
      MulMonotone(1, -d, w);
      assert (-d) * w == -(d * w);
    }
  }
}
