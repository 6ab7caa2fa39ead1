/**
 Tile geometry of the slider captcha (pkg/proxy/captcha_slider.go): the grid of tile rectangles, the
 rearrangement a list of swaps makes of the tiles, and where a rearranged image is sampled.
 */
module SliderTiles {
  import opened Basics
  import opened Arithmetic

  /** A half-open rectangle, as image.Rectangle. */
  datatype Rect = Rect(x0: int, y0: int, x1: int, y1: int) {
    function Dx(): int { x1 - x0 }
    function Dy(): int { y1 - y0 }
    predicate Has(x: int, y: int) { x0 <= x < x1 && y0 <= y < y1 }
    predicate Canonical() { x0 <= x1 && y0 <= y1 }
  }

  // ---------- cutting an axis ----------

  /** Where column c of g starts, on an axis of length w. */
  function Cut(w: nat, g: nat, c: nat): nat
    requires g >= 1
  {
    c * w / g
  }

  lemma CutMonotone(w: nat, g: nat, c: nat, d: nat)
    requires g >= 1 && c <= d
    ensures Cut(w, g, c) <= Cut(w, g, d)
  {
    MulMonotone(c, d, w);
    DivMonotone(c * w, d * w, g);
  }

  lemma CutEnds(w: nat, g: nat)
    requires g >= 1
    ensures Cut(w, g, 0) == 0 && Cut(w, g, g) == w
  {
    DivUnique(0 * w, g, 0, 0);
    DivUnique(g * w, g, w, 0);
  }

  lemma CutWide(w: nat, g: nat, c: nat)
    requires 1 <= g <= w
    ensures Cut(w, g, c) < Cut(w, g, c + 1)
  {
  }

  /** The cut positions of an axis of length w: they rise from 0 to w. */
  predicate IsCuts(xs: seq<nat>, w: nat, g: nat) {
    |xs| == g + 1 && xs[0] == 0 && xs[g] == w && forall i, j :: 0 <= i <= j <= g ==> xs[i] <= xs[j]
  }

  lemma CutsOfAxis(w: nat, g: nat) returns (xs: seq<nat>)
    requires g >= 1
    ensures IsCuts(xs, w, g)
    ensures forall c :: 0 <= c <= g ==> xs[c] == Cut(w, g, c)
  {
    xs := seq(g + 1, c requires 0 <= c => Cut(w, g, c));
    CutEnds(w, g);
    forall i, j | 0 <= i <= j <= g ensures xs[i] <= xs[j] { CutMonotone(w, g, i, j); }
  }

  /** The gap that covers x, searched from cut c leftwards. */
  lemma {:induction false} GapBelow(xs: seq<nat>, x: nat, c: nat) returns (k: nat)
    requires c < |xs| && xs[0] == 0 && x < xs[c]
    ensures k < c && xs[k] <= x < xs[k + 1]
  {
    if xs[c - 1] <= x {
      k := c - 1;
    } else {
      k := GapBelow(xs, x, c - 1);
    }
  }

  lemma GapUnique(xs: seq<nat>, w: nat, g: nat, x: int, k: nat, k': nat)
    requires IsCuts(xs, w, g) && k < g && k' < g
    requires xs[k] <= x < xs[k + 1] && xs[k'] <= x < xs[k' + 1]
    ensures k == k'
  {
  }

  // ---------- tiles ----------

  /** image.Rect puts the corners in order. */
  function ImageRect(x0: int, y0: int, x1: int, y1: int): (r: Rect)
    ensures r.Canonical()
  {
    Rect(if x0 > x1 then x1 else x0, if y0 > y1 then y1 else y0, if x0 > x1 then x0 else x1, if y0 > y1 then y0 else y1)
  }

  /** `sliderTileRect` */
  function TileRect(bounds: Rect, g: nat, index: nat): (r: Rect)
    requires bounds.Canonical() && g >= 1
    ensures r.Canonical()
  {
    var row, col := index / g, index % g;
    ImageRect(bounds.x0 + Cut(bounds.Dx(), g, col), bounds.y0 + Cut(bounds.Dy(), g, row),
              bounds.x0 + Cut(bounds.Dx(), g, col + 1), bounds.y0 + Cut(bounds.Dy(), g, row + 1))
  }

  /** The cell between two neighbouring cuts on each axis. */
  function Cell(bounds: Rect, xs: seq<nat>, ys: seq<nat>, row: nat, col: nat): Rect
    requires row + 1 < |ys| && col + 1 < |xs|
  {
    Rect(bounds.x0 + xs[col], bounds.y0 + ys[row], bounds.x0 + xs[col + 1], bounds.y0 + ys[row + 1])
  }

  /** The tiles are the cells of two families of cuts, in row-major order. */
  ghost predicate IsGrid(bounds: Rect, g: nat, xs: seq<nat>, ys: seq<nat>)
    requires bounds.Canonical() && g >= 1
  {
    && IsCuts(xs, bounds.Dx(), g)
    && IsCuts(ys, bounds.Dy(), g)
    && forall index: nat :: index < g * g ==> TileIsCell(bounds, g, xs, ys, index)
  }

  ghost predicate TileIsCell(bounds: Rect, g: nat, xs: seq<nat>, ys: seq<nat>, index: nat)
    requires bounds.Canonical() && g >= 1 && |xs| == |ys| == g + 1
  {
    && index / g < g
    && index % g < g
    && TileRect(bounds, g, index) == Cell(bounds, xs, ys, index / g, index % g)
  }

  lemma RowBelow(g: nat, index: nat)
    requires g >= 1 && index < g * g
    ensures index / g < g && 0 <= index % g < g
  {
  }

  lemma TileCorners(bounds: Rect, g: nat, index: nat, x0: nat, x1: nat, y0: nat, y1: nat)
    requires bounds.Canonical() && g >= 1 && x0 <= x1 && y0 <= y1
    requires x0 == Cut(bounds.Dx(), g, index % g) && x1 == Cut(bounds.Dx(), g, index % g + 1)
    requires y0 == Cut(bounds.Dy(), g, index / g) && y1 == Cut(bounds.Dy(), g, index / g + 1)
    ensures TileRect(bounds, g, index) == Rect(bounds.x0 + x0, bounds.y0 + y0, bounds.x0 + x1, bounds.y0 + y1)
  {
  }

  lemma TilesFormGrid(bounds: Rect, g: nat) returns (xs: seq<nat>, ys: seq<nat>)
    requires bounds.Canonical() && g >= 1
    ensures IsGrid(bounds, g, xs, ys)
  {
    xs := CutsOfAxis(bounds.Dx(), g);
    ys := CutsOfAxis(bounds.Dy(), g);
    forall index: nat | index < g * g ensures TileIsCell(bounds, g, xs, ys, index) {
      RowBelow(g, index);
      OneTile(bounds, g, xs, ys, index, index / g, index % g);
    }
  }

  lemma OneTile(bounds: Rect, g: nat, xs: seq<nat>, ys: seq<nat>, index: nat, row: nat, col: nat)
    requires bounds.Canonical() && g >= 1 && row == index / g < g && col == index % g < g
    requires IsCuts(xs, bounds.Dx(), g) && IsCuts(ys, bounds.Dy(), g)
    requires xs[col] == Cut(bounds.Dx(), g, col) && xs[col + 1] == Cut(bounds.Dx(), g, col + 1)
    requires ys[row] == Cut(bounds.Dy(), g, row) && ys[row + 1] == Cut(bounds.Dy(), g, row + 1)
    ensures TileIsCell(bounds, g, xs, ys, index)
  {
  }

  lemma RowMajor(g: nat, row: nat, col: nat)
    requires row < g && col < g
    ensures row * g + col < g * g
    ensures (row * g + col) / g == row && (row * g + col) % g == col
  {
    DivUnique(row * g + col, g, row, col);
    ModUnique(row * g + col, g, row, col);
    MulMonotone(row + 1, g, g);
  }

  /** Every pixel of the image lies in a tile. */
  lemma TilesCover(bounds: Rect, g: nat, x: int, y: int) returns (index: nat)
    requires g >= 1 && bounds.Has(x, y)
    ensures index < g * g && TileRect(bounds, g, index).Has(x, y)
  {
    var xs, ys := TilesFormGrid(bounds, g);
    var col := GapBelow(xs, x - bounds.x0, g);
    var row := GapBelow(ys, y - bounds.y0, g);
    RowMajor(g, row, col);
    index := row * g + col;
    assert TileIsCell(bounds, g, xs, ys, index);
  }

  /** No pixel lies in two tiles. */
  lemma TilesDisjoint(bounds: Rect, g: nat, x: int, y: int, i: nat, j: nat)
    requires bounds.Canonical() && g >= 1 && i < g * g && j < g * g
    requires TileRect(bounds, g, i).Has(x, y) && TileRect(bounds, g, j).Has(x, y)
    ensures i == j
  {
    var xs, ys := TilesFormGrid(bounds, g);
    var row, col := PixelCell(bounds, g, xs, ys, i, x, y);
    var row', col' := PixelCell(bounds, g, xs, ys, j, x, y);
    GapUnique(xs, bounds.Dx(), g, x - bounds.x0, col, col');
    GapUnique(ys, bounds.Dy(), g, y - bounds.y0, row, row');
    SamePlace(g, i, j);
  }

  lemma PixelCell(bounds: Rect, g: nat, xs: seq<nat>, ys: seq<nat>, index: nat, x: int, y: int)
    returns (row: nat, col: nat)
    requires bounds.Canonical() && g >= 1 && IsGrid(bounds, g, xs, ys)
    requires index < g * g && TileRect(bounds, g, index).Has(x, y)
    ensures row == index / g < g && col == index % g < g
    ensures Cell(bounds, xs, ys, row, col).Has(x, y)
  {
    assert TileIsCell(bounds, g, xs, ys, index);
    row, col := index / g, index % g;
  }

  lemma SamePlace(g: nat, i: nat, j: nat)
    requires g >= 1 && i / g == j / g && i % g == j % g
    ensures i == j
  {
  }

  /** Tiles do not reach outside the image. */
  lemma TilesInside(bounds: Rect, g: nat, index: nat, x: int, y: int)
    requires bounds.Canonical() && g >= 1 && index < g * g && TileRect(bounds, g, index).Has(x, y)
    ensures bounds.Has(x, y)
  {
    var xs, ys := TilesFormGrid(bounds, g);
    var row, col := PixelCell(bounds, g, xs, ys, index, x, y);
    CellInside(bounds, g, xs, ys, row, col, x, y);
  }

  lemma CellInside(bounds: Rect, g: nat, xs: seq<nat>, ys: seq<nat>, row: nat, col: nat, x: int, y: int)
    requires bounds.Canonical() && row < g && col < g
    requires IsCuts(xs, bounds.Dx(), g) && IsCuts(ys, bounds.Dy(), g)
    requires Cell(bounds, xs, ys, row, col).Has(x, y)
    ensures bounds.Has(x, y)
  {
  }

  ghost predicate NonEmptyTile(bounds: Rect, g: nat, index: nat)
    requires bounds.Canonical() && g >= 1
  {
    TileRect(bounds, g, index).Dx() > 0 && TileRect(bounds, g, index).Dy() > 0
  }

  lemma FirstTile(bounds: Rect, g: nat)
    requires bounds.Canonical() && g >= 1
    ensures bounds.Dx() < g ==> TileRect(bounds, g, 0).Dx() == 0
    ensures bounds.Dy() < g ==> TileRect(bounds, g, 0).Dy() == 0
  {
  }

  lemma WideTilesNonEmpty(bounds: Rect, g: nat, i: nat)
    requires bounds.Canonical() && g >= 1 && bounds.Dx() >= g && bounds.Dy() >= g && i < g * g
    ensures NonEmptyTile(bounds, g, i)
  {
    RowBelow(g, i);
    var row, col := i / g, i % g;
    CutWide(bounds.Dx(), g, col);
    CutWide(bounds.Dy(), g, row);
    TileCorners(bounds, g, i, Cut(bounds.Dx(), g, col), Cut(bounds.Dx(), g, col + 1),
                Cut(bounds.Dy(), g, row), Cut(bounds.Dy(), g, row + 1));
  }

  /** No tile is empty exactly when the image is at least as many pixels wide and high as the grid. */
  lemma NonEmptyTilesIff(bounds: Rect, g: nat)
    requires bounds.Canonical() && g >= 1
    ensures (forall i: nat :: i < g * g ==> NonEmptyTile(bounds, g, i)) <==> bounds.Dx() >= g && bounds.Dy() >= g
  {
    if bounds.Dx() >= g && bounds.Dy() >= g {
      forall i: nat | i < g * g ensures NonEmptyTile(bounds, g, i) { WideTilesNonEmpty(bounds, g, i); }
    } else {
      FirstTile(bounds, g);
      MulMonotone(1, g, g);
      assert !NonEmptyTile(bounds, g, 0);
    }
  }

  /** The tiles share the image out evenly: none is a whole pixel away from its exact part. */
  lemma CutEven(w: nat, g: nat, c: nat)
    requires g >= 1
    ensures w - g < g * (Cut(w, g, c + 1) - Cut(w, g, c)) < w + g
  {
    var a, b := c * w, (c + 1) * w;
    assert b == a + w;
    assert a == g * (a / g) + a % g && b == g * (b / g) + b % g;
    assert g * (b / g - a / g) == g * (b / g) - g * (a / g);
  }

  lemma TileSizes(bounds: Rect, g: nat, index: nat)
    requires bounds.Canonical() && g >= 1 && index < g * g
    ensures var t := TileRect(bounds, g, index);
            && bounds.Dx() - g < g * t.Dx() < bounds.Dx() + g
            && bounds.Dy() - g < g * t.Dy() < bounds.Dy() + g
  {
    var row, col := index / g, index % g;
    CutEven(bounds.Dx(), g, col);
    CutEven(bounds.Dy(), g, row);
    CutMonotone(bounds.Dx(), g, col, col + 1);
    CutMonotone(bounds.Dy(), g, row, row + 1);
    TileCorners(bounds, g, index, Cut(bounds.Dx(), g, col), Cut(bounds.Dx(), g, col + 1),
                Cut(bounds.Dy(), g, row), Cut(bounds.Dy(), g, row + 1));
  }

  // ---------- sampling ----------

  function AtLeastOne(n: int): (r: int)
    ensures r >= 1
  {
    if n < 1 then 1 else n
  }

  /** Coordinates `sampleColorMappedV2` reads for destination pixel (x, y). */
  function SampleAt(dst: Rect, src: Rect, x: int, y: int): (int, int)
    requires dst.Has(x, y) && src.Canonical()
  {
    (src.x0 + (x - dst.x0) * src.Dx() / AtLeastOne(dst.Dx()), src.y0 + (y - dst.y0) * src.Dy() / AtLeastOne(dst.Dy()))
  }

  lemma ScaledOffset(off: nat, n: nat, m: nat)
    requires off < m
    ensures 0 <= off * n / m <= n
    ensures n > 0 ==> off * n / m < n
    ensures n == 0 ==> off * n / m == 0
  {
  }

  lemma ScaledExactly(off: nat, n: nat, m: nat)
    requires off < m
    ensures m * (off * n / m) <= off * n < m * (off * n / m) + m
    ensures n == m ==> off * n / m == off
  {
    var q := off * n / m;
    assert off * n == m * q + (off * n) % m;
    if n == m { DivUnique(off * n, m, off, 0); }
  }

  /** The sample is the pixel at the same part of the source tile, rounded down; between tiles of one size it
      is the pixel at the same place. */
  lemma SampleScales(dst: Rect, src: Rect, x: int, y: int)
    requires dst.Has(x, y) && src.Canonical()
    ensures var (sx, sy) := SampleAt(dst, src, x, y); var u, v := sx - src.x0, sy - src.y0;
            && dst.Dx() * u <= (x - dst.x0) * src.Dx() < dst.Dx() * u + dst.Dx()
            && dst.Dy() * v <= (y - dst.y0) * src.Dy() < dst.Dy() * v + dst.Dy()
            && (src.Dx() == dst.Dx() ==> u == x - dst.x0) && (src.Dy() == dst.Dy() ==> v == y - dst.y0)
  {
    ScaledExactly(x - dst.x0, src.Dx(), dst.Dx());
    ScaledExactly(y - dst.y0, src.Dy(), dst.Dy());
  }

  /** A sampled pixel lies in the source tile exactly when that tile is not empty. */
  lemma SampleInSource(dst: Rect, src: Rect, x: int, y: int)
    requires dst.Has(x, y) && src.Canonical()
    ensures var (sx, sy) := SampleAt(dst, src, x, y);
            src.Has(sx, sy) <==> src.Dx() > 0 && src.Dy() > 0
  {
    ScaledOffset(x - dst.x0, src.Dx(), dst.Dx());
    ScaledOffset(y - dst.y0, src.Dy(), dst.Dy());
  }

  // ---------- the rearrangement ----------

  datatype SliderError = NoCandidates | BadTileCount | OddSteps(n: nat) | StepOutOfRange(l: int, r: int)

  function Swap(m: seq<int>, l: nat, r: nat): (s: seq<int>)
    requires l < |m| && r < |m|
    ensures |s| == |m|
  {
    m[l := m[r]][r := m[l]]
  }

  function Identity(n: nat): (s: seq<int>)
    ensures |s| == n
  {
    seq(n, i => i)
  }

  predicate StepsInRange(n: nat, steps: seq<int>) {
    forall i :: 0 <= i < |steps| ==> 0 <= steps[i] < n
  }

  /** The mapping after the swaps, the last swap outermost. */
  function Swapped(m: seq<int>, steps: seq<int>): (s: seq<int>)
    requires |steps| % 2 == 0 && StepsInRange(|m|, steps)
    ensures |s| == |m|
  {
    if steps == [] then m else
      var k := |steps| - 2;
      Swap(Swapped(m, steps[..k]), steps[k], steps[k + 1])
  }

  /** `buildSliderTileMapping` succeeds on these arguments. */
  predicate GoodSteps(grid: int, steps: seq<int>) {
    grid != 0 && |steps| % 2 == 0 && StepsInRange(Tiles(grid), steps)
  }

  function Tiles(grid: int): (n: nat)
    ensures grid != 0 <==> n > 0
  {
    assert grid < 0 ==> grid * grid == (-grid) * (-grid);
    grid * grid
  }

  /** `buildSliderTileMapping` */
  method TileMapping(grid: int, steps: seq<int>) returns (r: Result<seq<int>, SliderError>)
    ensures r.Ok? <==> GoodSteps(grid, steps)
    ensures r.Ok? ==> r.value == Swapped(Identity(Tiles(grid)), steps)
    ensures r == Err(BadTileCount) <==> grid == 0
    ensures grid != 0 && |steps| % 2 != 0 ==> r == Err(OddSteps(|steps|))
    ensures grid != 0 && |steps| % 2 == 0 && r.Err? ==> r.error.StepOutOfRange?
  {
    var tileCount := Tiles(grid);
    if tileCount <= 0 {
      return Err(BadTileCount);
    }
    if |steps| % 2 != 0 {
      return Err(OddSteps(|steps|));
    }
    var mapping := new int[tileCount](i => i);
    assert mapping[..] == Identity(tileCount);
    var idx := 0;
    while idx < |steps|
      invariant 0 <= idx <= |steps| && idx % 2 == 0
      invariant StepsInRange(tileCount, steps[..idx])
      invariant mapping[..] == Swapped(Identity(tileCount), steps[..idx])
    {
      var l, r' := steps[idx], steps[idx + 1];
      if l < 0 || r' < 0 || l >= tileCount || r' >= tileCount {
        return Err(StepOutOfRange(l, r'));
      }
      SwappedStep(Identity(tileCount), steps, idx);
      mapping[l], mapping[r'] := mapping[r'], mapping[l];
      idx := idx + 2;
    }
    assert steps[..idx] == steps;
    return Ok(mapping[..]);
  }

  lemma SwappedStep(m: seq<int>, steps: seq<int>, idx: nat)
    requires idx + 1 < |steps| && idx % 2 == 0 && StepsInRange(|m|, steps[..idx])
    requires 0 <= steps[idx] < |m| && 0 <= steps[idx + 1] < |m|
    ensures StepsInRange(|m|, steps[..idx + 2])
    ensures Swapped(m, steps[..idx + 2]) == Swap(Swapped(m, steps[..idx]), steps[idx], steps[idx + 1])
  {
    var next := steps[..idx + 2];
    assert next[..idx] == steps[..idx];
    forall i | 0 <= i < |next| ensures 0 <= next[i] < |m| {
      assert i < idx ==> next[i] == steps[..idx][i];
    }
  }

  lemma SwapKeepsContents(m: seq<int>, l: nat, r: nat)
    requires l < |m| && r < |m|
    ensures multiset(Swap(m, l, r)) == multiset(m)
  {
  }

  /** Another swap exchanges two places and leaves the others. */
  lemma SwapExchanges(m: seq<int>, steps: seq<int>, l: nat, r: nat, x: nat)
    requires |steps| % 2 == 0 && StepsInRange(|m|, steps) && l < |m| && r < |m| && x < |m|
    ensures StepsInRange(|m|, steps + [l, r])
    ensures Swapped(m, steps + [l, r])[x] == Swapped(m, steps)[if x == l then r else if x == r then l else x]
  {
    var more := steps + [l, r];
    assert more[..|more| - 2] == steps;
    SwappedStep(m, more, |steps|);
    assert more[..|steps| + 2] == more;
  }

  /** Whatever the swaps, every tile is placed exactly once. */
  lemma {:induction false} SwapsPermute(m: seq<int>, steps: seq<int>)
    requires |steps| % 2 == 0 && StepsInRange(|m|, steps)
    ensures multiset(Swapped(m, steps)) == multiset(m)
  {
    if steps != [] {
      var k := |steps| - 2;
      SwapsPermute(m, steps[..k]);
      SwapKeepsContents(Swapped(m, steps[..k]), steps[k], steps[k + 1]);
    }
  }

  /** The same steps from the last to the first. */
  function Reversed(steps: seq<int>): (r: seq<int>)
    requires |steps| % 2 == 0
    ensures |r| == |steps|
  {
    if steps == [] then [] else
      var k := |steps| - 2;
      [steps[k], steps[k + 1]] + Reversed(steps[..k])
  }

  lemma {:induction false} ReversedInRange(n: nat, steps: seq<int>)
    requires |steps| % 2 == 0 && StepsInRange(n, steps)
    ensures StepsInRange(n, Reversed(steps))
  {
    if steps != [] { ReversedInRange(n, steps[..|steps| - 2]); }
  }

  lemma ConcatInRange(n: nat, a: seq<int>, b: seq<int>)
    requires StepsInRange(n, a) && StepsInRange(n, b)
    ensures StepsInRange(n, a + b)
  {
  }

  lemma {:induction false} SwappedConcat(m: seq<int>, a: seq<int>, b: seq<int>)
    requires |a| % 2 == 0 && |b| % 2 == 0 && StepsInRange(|m|, a) && StepsInRange(|m|, b)
    ensures StepsInRange(|m|, a + b)
    ensures Swapped(m, a + b) == Swapped(Swapped(m, a), b)
  {
    ConcatInRange(|m|, a, b);
    if b == [] {
      assert a + b == a;
    } else {
      var k := |b| - 2;
      SwappedConcat(m, a, b[..k]);
      var ab := a + b;
      assert ab[..|ab| - 2] == a + b[..k];
      assert ab[|ab| - 2] == b[k] && ab[|ab| - 1] == b[k + 1];
    }
  }

  /** Undoing the swaps in reverse order restores the image. */
  lemma {:induction false} SwapsUndone(m: seq<int>, steps: seq<int>)
    requires |steps| % 2 == 0 && StepsInRange(|m|, steps)
    ensures StepsInRange(|m|, Reversed(steps))
    ensures Swapped(Swapped(m, steps), Reversed(steps)) == m
  {
    ReversedInRange(|m|, steps);
    if steps != [] {
      var k := |steps| - 2;
      var last, before := [steps[k], steps[k + 1]], Swapped(m, steps[..k]);
      SwapsUndone(m, steps[..k]);
      SwappedConcat(Swapped(m, steps), last, Reversed(steps[..k]));
      assert Swapped(Swapped(m, steps), last) == before by {
        assert last[..0] == [];
        assert Swap(Swap(before, steps[k], steps[k + 1]), steps[k], steps[k + 1]) == before;
      }
    }
  }

  lemma SourceTile(n: nat, steps: seq<int>, tile: nat)
    requires |steps| % 2 == 0 && StepsInRange(n, steps) && tile < n
    ensures 0 <= Swapped(Identity(n), steps)[tile] < n
  {
    var id := Identity(n);
    var m := Swapped(id, steps);
    SwapsPermute(id, steps);
    assert m[tile] in multiset(m);
    assert m[tile] in multiset(id);
  }

  lemma SampleInTile(bounds: Rect, g: nat, tile: nat, source: nat, x: int, y: int)
    requires bounds.Canonical() && 1 <= g <= bounds.Dx() && g <= bounds.Dy()
    requires source < g * g && TileRect(bounds, g, tile).Has(x, y)
    ensures var (sx, sy) := SampleAt(TileRect(bounds, g, tile), TileRect(bounds, g, source), x, y);
            TileRect(bounds, g, source).Has(sx, sy)
  {
    NonEmptyTilesIff(bounds, g);
    assert NonEmptyTile(bounds, g, source);
    SampleInSource(TileRect(bounds, g, tile), TileRect(bounds, g, source), x, y);
  }

  /** In an image with a pixel for every tile, a candidate is only ever sampled inside the tile its mapping
      names, and so inside the image. */
  lemma SamplesStayInImage(bounds: Rect, g: nat, steps: seq<int>, tile: nat, x: int, y: int)
    requires bounds.Canonical() && 1 <= g <= bounds.Dx() && g <= bounds.Dy()
    requires |steps| % 2 == 0 && StepsInRange(Tiles(g), steps) && tile < Tiles(g)
    requires TileRect(bounds, g, tile).Has(x, y)
    ensures var source := Swapped(Identity(Tiles(g)), steps)[tile];
            && 0 <= source < Tiles(g)
            && var (sx, sy) := SampleAt(TileRect(bounds, g, tile), TileRect(bounds, g, source), x, y);
            && TileRect(bounds, g, source).Has(sx, sy) && bounds.Has(sx, sy)
  {
    SourceTile(Tiles(g), steps, tile);
    var source := Swapped(Identity(Tiles(g)), steps)[tile];
    SampleInTile(bounds, g, tile, source, x, y);
    var (sx, sy) := SampleAt(TileRect(bounds, g, tile), TileRect(bounds, g, source), x, y);
    TilesInside(bounds, g, source, sx, sy);
  }
}
