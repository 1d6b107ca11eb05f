/** `create_collage`: which image paths are loaded, the grid they are laid out
    on and the cell each one is copied into. Pixels are not modelled: a canvas
    cell holds the path of the image copied there, or None for a black cell. */
module Collage {
  import opened Wrappers

  /** `floor(sqrt(n))` as an integer square root. */
  function Isqrt(n: nat): (r: nat)
    ensures r * r <= n < (r + 1) * (r + 1)
    ensures n >= 1 ==> r >= 1
  {
    if n == 0 then 0
    else
      var s := Isqrt(n - 1);
      if (s + 1) * (s + 1) <= n then s + 1 else s
  }

  /** `ceil(n / d)` for a positive divisor. */
  function CeilDiv(n: nat, d: nat): (q: nat)
    requires d >= 1
    ensures q * d >= n && q * d < n + d
  {
    var q := (n + d - 1) / d;
    assert q * d + (n + d - 1) % d == n + d - 1;
    q
  }

  datatype Grid = Grid(rows: nat, cols: nat)

  /** The grid for n images: `num_cols = floor(sqrt(n))`, `num_rows = ceil(n / num_cols)`.
      It has at least one column, room for every image, no empty row, and at
      least as many rows as columns. */
  function GridFor(n: nat): (g: Grid)
    requires n >= 1
    ensures g.cols >= 1 && g.rows * g.cols >= n && (g.rows - 1) * g.cols < n && g.cols <= g.rows
  {
    var cols := Isqrt(n);
    var rows := CeilDiv(n, cols);
    assert (rows - 1) * cols == rows * cols - cols;
    assert cols * cols <= rows * cols;
    MulCancel(cols, rows, cols);
    Grid(rows, cols)
  }

  lemma MulCancel(a: nat, b: nat, c: nat)
    requires c >= 1 && a * c <= b * c
    ensures a <= b
  {
  }

  lemma LessMulCancel(a: nat, b: nat, c: nat)
    requires a * c < b * c
    ensures a < b
  {
  }

  /** Image i goes to row `i // num_cols` and column `i % num_cols`: an
      in-range column whose row-major index gives back i. */
  function CellOf(i: nat, cols: nat): (cell: (nat, nat))
    requires cols >= 1
    ensures cell.0 * cols + cell.1 == i && cell.1 < cols
  {
    (i / cols, i % cols)
  }

  /** Row-major indices of in-bounds cells go back to the same cell. */
  lemma IndexCell(r: nat, c: nat, cols: nat)
    requires c < cols
    ensures CellOf(r * cols + c, cols) == (r, c)
  {
    var i := r * cols + c;
    var q, m := i / cols, i % cols;
    assert q * cols + m == i;
    assert (r + 1) * cols == r * cols + cols;
    assert (q + 1) * cols == q * cols + cols;
    LessMulCancel(q, r + 1, cols);
    LessMulCancel(r, q + 1, cols);
  }

  /** Every image of n lands in an in-bounds cell, and no two share one. */
  lemma PlacementInjective(n: nat, i: nat, j: nat)
    requires n >= 1 && i < n && j < n
    ensures var g := GridFor(n);
      CellOf(i, g.cols).0 < g.rows && CellOf(i, g.cols).1 < g.cols &&
      (i != j ==> CellOf(i, g.cols) != CellOf(j, g.cols))
  {
    var g := GridFor(n);
    var (r, c) := CellOf(i, g.cols);
    assert r * g.cols <= i < g.rows * g.cols;
    LessMulCancel(r, g.rows, g.cols);
  }

  /** The paths for which `os.path.exists` holds, in order: the images loaded. */
  function Existing(paths: seq<string>, present: set<string>): (r: seq<string>)
    ensures |r| <= |paths|
    ensures forall p :: p in r <==> p in paths && p in present
  {
    if paths == [] then []
    else
      var front := paths[..|paths| - 1];
      var last := paths[|paths| - 1];
      assert paths == front + [last];
      Existing(front, present) + (if last in present then [last] else [])
  }

  /** The loading loop of `create_collage`. */
  method LoadImages(paths: seq<string>, present: set<string>) returns (images: seq<string>)
    ensures images == Existing(paths, present)
  {
    images := [];
    for k := 0 to |paths|
      invariant images == Existing(paths[..k], present)
    {
      assert paths[..k + 1][..k] == paths[..k];
      if paths[k] in present {
        images := images + [paths[k]];
      }
    }
    assert paths[..|paths|] == paths;
  }

  /** The canvas has the grid's shape, cell (r, c) holds image r * cols + c,
      and the cells after the last image stay black. */
  ghost predicate Shows(canvas: array2<Option<string>>, images: seq<string>)
    reads canvas
  {
    |images| >= 1 &&
    canvas.Length0 == GridFor(|images|).rows && canvas.Length1 == GridFor(|images|).cols &&
    forall r, c :: 0 <= r < canvas.Length0 && 0 <= c < canvas.Length1 ==>
      canvas[r, c] == Painted(images, canvas.Length1, |images|, r, c)
  }

  /** What cell (r, c) holds once the first k images are copied. */
  ghost function Painted(images: seq<string>, cols: nat, k: nat, r: nat, c: nat): Option<string>
    requires k <= |images|
  {
    if r * cols + c < k then Some(images[r * cols + c]) else None
  }

  /** Copying image k changes cell `CellOf(k, cols)` only. */
  lemma PaintStep(images: seq<string>, cols: nat, k: nat, r: nat, c: nat)
    requires k < |images| && c < cols
    ensures Painted(images, cols, k + 1, r, c) ==
      if (r, c) == CellOf(k, cols) then Some(images[k]) else Painted(images, cols, k, r, c)
  {
    IndexCell(r, c, cols);
  }

  /** `create_collage`: None for an empty path list or when no path exists;
      otherwise a fresh canvas on which every loaded image sits in its cell. */
  method CreateCollage(paths: seq<string>, present: set<string>)
    returns (canvas: Option<array2<Option<string>>>)
    ensures canvas.None? <==> Existing(paths, present) == []
    ensures canvas.Some? ==> fresh(canvas.value) && Shows(canvas.value, Existing(paths, present))
  {
    if paths == [] {
      return None;
    }
    var images := LoadImages(paths, present);
    if images == [] {
      return None;
    }
    var n := |images|;
    var g := GridFor(n);
    var cells := new Option<string>[g.rows, g.cols]((r, c) => None);
    var i := 0;
    while i < n
      invariant 0 <= i <= n
      invariant forall r, c :: 0 <= r < g.rows && 0 <= c < g.cols ==>
        cells[r, c] == Painted(images, g.cols, i, r, c)
    {
      var (row, col) := CellOf(i, g.cols);
      PlacementInjective(n, i, i);
      forall r, c | 0 <= r < g.rows && 0 <= c < g.cols
        ensures Painted(images, g.cols, i + 1, r, c) ==
          if (r, c) == (row, col) then Some(images[i]) else Painted(images, g.cols, i, r, c)
      {
        PaintStep(images, g.cols, i, r, c);
      }
      cells[row, col] := Some(images[i]);
      i := i + 1;
    }
    return Some(cells);
  }
}
