/**
 Packing icons: square tiles are copied row by row into one picture whose sides are powers of two, and
 written with a table of names and rectangles that the client's loader reads back.
 */
module IconAtlas {
  import opened Machine

  /** A name and the rectangle its picture takes. */
  datatype Icon = Icon(id: seq<byte>, x: nat, y: nat, w: nat, h: nat)

  datatype Raster = Raster(id: seq<byte>, rgba: seq<byte>)

  // ----- arithmetic of rows and columns

  lemma MulLe(a: nat, b: nat, c: nat)
    requires a <= b
    ensures a * c <= b * c
  {
  }

  lemma RowOfPixel(y: nat, h: nat, w: nat, x: nat, n: nat)
    requires y < h && x + n <= w
    ensures y * w + x + n <= h * w
  {
    MulLe(y + 1, h, w);
    assert (y + 1) * w == y * w + w;
  }

  /** Runs of pixels in different rows, or side by side in one row, do not meet. */
  lemma RunsApart(w: nat, x: nat, y: nat, n: nat, x': nat, y': nat, n': nat)
    requires x + n <= w && x' + n' <= w
    requires y != y' || x + n <= x' || x' + n' <= x
    ensures y * w + x + n <= y' * w + x' || y' * w + x' + n' <= y * w + x
  {
    if y < y' { RowOfPixel(y, y', w, x, n); }
    if y' < y { RowOfPixel(y', y, w, x', n'); }
  }

  function Pow2(k: nat): nat { if k == 0 then 1 else 2 * Pow2(k - 1) }

  method NextPow2(v: nat) returns (x: nat, ghost k: nat)
    ensures x == Pow2(k) && x >= v && (x == 1 || x < 2 * v)
  {
    x, k := 1, 0;
    while x < v
      invariant x == Pow2(k) && x >= 1 && (x == 1 || x < 2 * v)
      decreases v - x
    {
      x, k := 2 * x, k + 1;
    }
  }

  /** The least number of columns that makes the grid at least as wide as it is high. */
  method Columns(count: nat) returns (cols: nat)
    ensures cols >= 1 && count <= cols * cols && (cols > 1 ==> (cols - 1) * (cols - 1) < count)
  {
    cols := 1;
    while cols * cols < count
      invariant cols >= 1 && (cols > 1 ==> (cols - 1) * (cols - 1) < count)
      decreases count - cols * cols
    {
      cols := cols + 1;
    }
  }

  // ----- where the tiles lie

  type Positive = x: int | x > 0 witness 1

  datatype Sheet = Sheet(cols: Positive, tile: Positive, w: nat, h: nat)

  ghost predicate Proper(s: Sheet, count: nat) {
    && s.cols * s.tile <= s.w
    && forall i :: 0 <= i < count ==> (i / s.cols + 1) * s.tile <= s.h
  }

  function X(s: Sheet, i: nat): nat
  {
    (i % s.cols) * s.tile
  }

  function Y(s: Sheet, i: nat): nat
  {
    (i / s.cols) * s.tile
  }

  /** The grid is no wider than it must be, nor the picture larger than twice the grid. */
  ghost predicate Tight(s: Sheet, count: nat) {
    && (s.cols > 1 ==> (s.cols - 1) * (s.cols - 1) < count)
    && (s.w == 1 || s.w < 2 * (s.cols * s.tile))
    && (s.h == 1 || s.h < 2 * ((count + s.cols - 1) / s.cols * s.tile))
  }

  lemma DivMod(i: nat, c: nat)
    requires c > 0
    ensures i == (i / c) * c + i % c && 0 <= i % c < c
  {
  }

  lemma TileInside(s: Sheet, count: nat, i: nat)
    requires Proper(s, count) && i < count
    ensures X(s, i) + s.tile <= s.w && Y(s, i) + s.tile <= s.h
  {
    MulLe(i % s.cols + 1, s.cols, s.tile);
    assert (i % s.cols + 1) * s.tile == X(s, i) + s.tile;
    assert (i / s.cols + 1) * s.tile == Y(s, i) + s.tile;
  }

  /** Different icons get tiles that do not overlap. */
  lemma TilesApart(s: Sheet, i: nat, j: nat)
    requires i != j
    ensures X(s, i) + s.tile <= X(s, j) || X(s, j) + s.tile <= X(s, i)
         || Y(s, i) + s.tile <= Y(s, j) || Y(s, j) + s.tile <= Y(s, i)
  {
    DivMod(i, s.cols);
    DivMod(j, s.cols);
    StepsApart(i / s.cols, j / s.cols, s.tile);
    StepsApart(i % s.cols, j % s.cols, s.tile);
  }

  lemma StepsApart(a: nat, b: nat, n: nat)
    ensures a == b || a * n + n <= b * n || b * n + n <= a * n
  {
    if a < b {
      MulLe(a + 1, b, n);
      assert (a + 1) * n == a * n + n;
    }
    if b < a {
      MulLe(b + 1, a, n);
      assert (b + 1) * n == b * n + n;
    }
  }

  /** Tiles follow each other from left to right, and the next row begins below. */
  lemma TilesFollow(s: Sheet, i: nat)
    ensures X(s, 0) == 0 && Y(s, 0) == 0
    ensures X(s, i) + s.tile < s.cols * s.tile ==> X(s, i + 1) == X(s, i) + s.tile && Y(s, i + 1) == Y(s, i)
    ensures X(s, i) + s.tile == s.cols * s.tile ==> X(s, i + 1) == 0 && Y(s, i + 1) == Y(s, i) + s.tile
    ensures X(s, i) + s.tile <= s.cols * s.tile
  {
    var q, r := i / s.cols, i % s.cols;
    DivMod(i, s.cols);
    RemainderIs(0, s.cols, 0, 0);
    NextColumn(r, s.cols, s.tile);
    if r + 1 < s.cols {
      RemainderIs(i + 1, s.cols, q, r + 1);
    } else {
      assert (q + 1) * s.cols == q * s.cols + s.cols;
      RemainderIs(i + 1, s.cols, q + 1, 0);
      assert (q + 1) * s.tile == q * s.tile + s.tile;
    }
  }

  lemma NextColumn(r: nat, cols: nat, tile: Positive)
    requires r < cols
    ensures (r + 1) * tile == r * tile + tile <= cols * tile
    ensures r * tile + tile < cols * tile <==> r + 1 < cols
  {
    MulLe(r + 1, cols, tile);
    if r + 1 < cols {
      MulLe(r + 2, cols, tile);
      assert (r + 2) * tile == r * tile + tile + tile;
    }
  }

  // ----- drawing

  /** Where row `row` of tile `i` starts in the picture, in bytes. */
  function RowAt(s: Sheet, i: nat, row: nat): nat
  {
    ((Y(s, i) + row) * s.w + X(s, i)) * 4
  }

  lemma RowFits(s: Sheet, count: nat, i: nat, row: nat)
    requires Proper(s, count) && i < count && row < s.tile
    ensures RowAt(s, i, row) + s.tile * 4 <= s.w * s.h * 4
  {
    TileInside(s, count, i);
    RowOfPixel(Y(s, i) + row, s.h, s.w, X(s, i), s.tile);
    assert s.h * s.w == s.w * s.h;
  }

  /** Two different tile rows take different bytes. */
  lemma RowsApart(s: Sheet, count: nat, i: nat, row: nat, j: nat, other: nat)
    requires Proper(s, count) && i < count && j < count && row < s.tile && other < s.tile
    requires i != j || row != other
    ensures RowAt(s, i, row) + s.tile * 4 <= RowAt(s, j, other) || RowAt(s, j, other) + s.tile * 4 <= RowAt(s, i, row)
  {
    TileInside(s, count, i);
    TileInside(s, count, j);
    if i != j { TilesApart(s, i, j); }
    RunsApart(s.w, X(s, i), Y(s, i) + row, s.tile, X(s, j), Y(s, j) + other, s.tile);
  }

  /** The rows before (i, row) are drawn. */
  predicate Before(i: nat, row: nat, j: nat, other: nat) { j < i || (j == i && other < row) }

  ghost predicate RowDrawn(s: Sheet, atlas: seq<byte>, icons: seq<Raster>, j: nat, row: nat)
    requires j < |icons|
  {
    var at, from, n := RowAt(s, j, row), row * (s.tile * 4), s.tile * 4;
    at + n <= |atlas| && from + n <= |icons[j].rgba| && atlas[at..at + n] == icons[j].rgba[from..from + n]
  }

  /** Row `row` of tile `j` holds byte `p`. */
  predicate InRow(s: Sheet, j: nat, row: nat, p: nat)
  {
    RowAt(s, j, row) <= p < RowAt(s, j, row) + s.tile * 4
  }

  ghost predicate Drawn(s: Sheet, atlas: seq<byte>, icons: seq<Raster>, i: nat, row: nat)
  {
    && (forall j, r :: 0 <= j < |icons| && 0 <= r < s.tile && Before(i, row, j, r) ==> RowDrawn(s, atlas, icons, j, r))
    && (forall p :: 0 <= p < |atlas| && atlas[p] != 0 ==>
         exists j, r :: 0 <= j < |icons| && 0 <= r < s.tile && InRow(s, j, r, p))
  }

  ghost predicate Rasters(s: Sheet, icons: seq<Raster>) {
    forall i :: 0 <= i < |icons| ==> |icons[i].rgba| == s.tile * (s.tile * 4)
  }

  lemma RowOfRaster(tile: nat, row: nat)
    requires row < tile
    ensures row * (tile * 4) + tile * 4 <= tile * (tile * 4)
  {
    MulLe(row + 1, tile, tile * 4);
    assert (row + 1) * (tile * 4) == row * (tile * 4) + tile * 4;
  }

  /** Drawing one more row leaves the rows drawn before as they are. */
  lemma DrawStep(s: Sheet, was: seq<byte>, now: seq<byte>, icons: seq<Raster>, i: nat, row: nat)
    requires Proper(s, |icons|) && Rasters(s, icons) && i < |icons| && row < s.tile
    requires |was| == |now| == s.w * s.h * 4 && Drawn(s, was, icons, i, row)
    requires RowDrawn(s, now, icons, i, row)
    requires forall p :: 0 <= p < |was| && !InRow(s, i, row, p) ==> now[p] == was[p]
    ensures Drawn(s, now, icons, i, row + 1)
  {
    hide RowAt, Proper, Rasters;
    forall j, r | 0 <= j < |icons| && 0 <= r < s.tile && Before(i, row + 1, j, r)
      ensures RowDrawn(s, now, icons, j, r)
    {
      if !(j == i && r == row) {
        assert Before(i, row, j, r) && RowDrawn(s, was, icons, j, r);
        RowsApart(s, |icons|, i, row, j, r);
        var at, n := RowAt(s, j, r), s.tile * 4;
        assert now[at..at + n] == was[at..at + n];
      }
    }
    forall p | 0 <= p < |now| && now[p] != 0
      ensures exists j, r :: 0 <= j < |icons| && 0 <= r < s.tile && InRow(s, j, r, p)
    {
      if !InRow(s, i, row, p) { assert was[p] != 0; }
    }
  }

  method DrawRow(s: Sheet, atlas: array<byte>, icons: seq<Raster>, i: nat, row: nat)
    requires Proper(s, |icons|) && Rasters(s, icons) && i < |icons| && row < s.tile
    requires atlas.Length == s.w * s.h * 4 && Drawn(s, atlas[..], icons, i, row)
    modifies atlas
    ensures Drawn(s, atlas[..], icons, i, row + 1)
  {
    hide Drawn, Proper, RowAt;
    ghost var was := atlas[..];
    RowFits(s, |icons|, i, row);
    RowOfRaster(s.tile, row);
    var source, at, n := row * (s.tile * 4), RowAt(s, i, row), s.tile * 4;
    for k := 0 to n
      invariant forall p :: 0 <= p < atlas.Length ==>
        atlas[p] == if at <= p < at + k then icons[i].rgba[source + (p - at)] else was[p]
    {
      atlas[at + k] := icons[i].rgba[source + k];
    }
    assert atlas[..][at..at + n] == icons[i].rgba[source..source + n];
    DrawStep(s, was, atlas[..], icons, i, row);
  }

  lemma NextTile(s: Sheet, atlas: seq<byte>, icons: seq<Raster>, i: nat)
    requires Drawn(s, atlas, icons, i, s.tile)
    ensures Drawn(s, atlas, icons, i + 1, 0)
  {
    forall j, r | 0 <= j < |icons| && 0 <= r < s.tile && Before(i + 1, 0, j, r)
      ensures RowDrawn(s, atlas, icons, j, r)
    {
      assert Before(i, s.tile, j, r);
    }
  }

  lemma LastRow(i: nat, cols: nat, rows: nat, tile: nat)
    requires cols > 0 && i < rows * cols
    ensures (i / cols + 1) * tile <= rows * tile
  {
    DivMod(i, cols);
    if i / cols >= rows { MulLe(rows, i / cols, cols); }
    MulLe(i / cols + 1, rows, tile);
  }

  lemma RowsSuffice(count: nat, cols: nat)
    requires cols > 0
    ensures count <= (count + cols - 1) / cols * cols
  {
    DivMod(count + cols - 1, cols);
  }

  /** The grid is as square as can be, the picture as small as a power of two allows. */
  method Layout(count: nat, tile: Positive) returns (s: Sheet)
    ensures s.tile == tile && Proper(s, count) && Tight(s, count) && s.w > 0 && s.h > 0
    ensures exists a, b :: s.w == Pow2(a) && s.h == Pow2(b)
  {
    hide Pow2, Proper, Tight;
    var cols := Columns(count);
    var rows := (count + cols - 1) / cols;
    var width, height := cols * tile, rows * tile;
    var w, a := NextPow2(width);
    var h, b := NextPow2(height);
    s := Sheet(cols, tile, w, h);
    RowsAreIn(s, count, rows);
    IsTight(s, count, rows);
    Pow2Positive(a);
    Pow2Positive(b);
    assert s.w == Pow2(a) && s.h == Pow2(b);
  }

  lemma IsTight(s: Sheet, count: nat, rows: nat)
    requires s.cols > 1 ==> (s.cols - 1) * (s.cols - 1) < count
    requires rows == (count + s.cols - 1) / s.cols
    requires s.w == 1 || s.w < 2 * (s.cols * s.tile)
    requires s.h == 1 || s.h < 2 * (rows * s.tile)
    ensures Tight(s, count)
  {
  }

  lemma RowsAreIn(s: Sheet, count: nat, rows: nat)
    requires s.cols * s.tile <= s.w && rows * s.tile <= s.h && rows == (count + s.cols - 1) / s.cols
    ensures Proper(s, count)
  {
    RowsSuffice(count, s.cols);
    forall i | 0 <= i < count ensures (i / s.cols + 1) * s.tile <= s.h { LastRow(i, s.cols, rows, s.tile); }
  }

  lemma Pow2Positive(k: nat)
    ensures Pow2(k) > 0
  {
  }

  /** Where colour `channel` of pixel (x, y) lies in a picture of width `w`. */
  function PixelAt(w: nat, x: nat, y: nat, channel: nat): nat { (y * w + x) * 4 + channel }

  /** Pixel by pixel: an icon's pixel (u, v) is u to the right of and v below its tile's corner. */
  lemma PixelIs(s: Sheet, atlas: seq<byte>, icons: seq<Raster>, i: nat, u: nat, v: nat, channel: nat)
    requires Drawn(s, atlas, icons, |icons|, 0) && i < |icons| && u < s.tile && v < s.tile && channel < 4
    ensures var at, from := PixelAt(s.w, X(s, i) + u, Y(s, i) + v, channel), PixelAt(s.tile, u, v, channel);
      at < |atlas| && from < |icons[i].rgba| && atlas[at] == icons[i].rgba[from]
  {
    hide X, Y, PixelAt, Drawn, RowAt;
    DrawnRow(s, atlas, icons, i, v);
    var at, from, n, k := RowAt(s, i, v), v * (s.tile * 4), s.tile * 4, u * 4 + channel;
    PixelInRow(s, i, u, v, channel);
    assert k < n;
    assert atlas[at..at + n][k] == icons[i].rgba[from..from + n][k];
  }

  lemma DrawnRow(s: Sheet, atlas: seq<byte>, icons: seq<Raster>, i: nat, v: nat)
    requires Drawn(s, atlas, icons, |icons|, 0) && i < |icons| && v < s.tile
    ensures RowDrawn(s, atlas, icons, i, v)
  {
    assert Before(|icons|, 0, i, v);
  }

  lemma PixelInRow(s: Sheet, i: nat, u: nat, v: nat, channel: nat)
    ensures PixelAt(s.w, X(s, i) + u, Y(s, i) + v, channel) == RowAt(s, i, v) + (u * 4 + channel)
    ensures PixelAt(s.tile, u, v, channel) == v * (s.tile * 4) + (u * 4 + channel)
  {
    hide X, Y;
    FourTimes(v, s.tile);
  }

  lemma FourTimes(a: nat, b: nat)
    ensures a * (b * 4) == a * b * 4
  {
  }

  /** The table: every icon's name with its tile. */
  function Entries(s: Sheet, icons: seq<Raster>): (r: seq<Icon>)
    ensures |r| == |icons|
    ensures forall i :: 0 <= i < |icons| ==> r[i] == Icon(icons[i].id, X(s, i), Y(s, i), s.tile, s.tile)
  {
    seq(|icons|, i requires 0 <= i < |icons| => Icon(icons[i].id, X(s, i), Y(s, i), s.tile, s.tile))
  }

  /** Every tile of the picture is its icon's raster, and all other bytes are zero. */
  method BuildAtlas(icons: seq<Raster>, tile: Positive) returns (s: Sheet, entries: seq<Icon>, atlas: array<byte>)
    requires forall i :: 0 <= i < |icons| ==> |icons[i].rgba| == tile * (tile * 4)
    ensures s.tile == tile && Proper(s, |icons|) && Tight(s, |icons|)
    ensures atlas.Length == s.w * s.h * 4 && s.w > 0 && s.h > 0
    ensures entries == Entries(s, icons)
    ensures Drawn(s, atlas[..], icons, |icons|, 0)
    ensures fresh(atlas)
  {
    hide Drawn, X, Y, Proper, Pow2, Tight;
    s := Layout(|icons|, tile);
    atlas := Blank(s.w * s.h * 4);
    entries := [];
    NothingDrawn(s, atlas[..], icons);
    for i := 0 to |icons|
      invariant |entries| == i
      invariant forall j :: 0 <= j < i ==> entries[j] == Icon(icons[j].id, X(s, j), Y(s, j), tile, tile)
      invariant Drawn(s, atlas[..], icons, i, 0)
    {
      entries := entries + [Icon(icons[i].id, X(s, i), Y(s, i), tile, tile)];
      for row := 0 to tile
        invariant Drawn(s, atlas[..], icons, i, row)
      {
        DrawRow(s, atlas, icons, i, row);
      }
      NextTile(s, atlas[..], icons, i);
    }
  }

  method Blank(n: nat) returns (a: array<byte>)
    ensures fresh(a) && a.Length == n && forall p :: 0 <= p < n ==> a[p] == 0
  {
    a := new byte[n](_ => 0);
  }

  lemma NothingDrawn(s: Sheet, atlas: seq<byte>, icons: seq<Raster>)
    requires forall p :: 0 <= p < |atlas| ==> atlas[p] == 0
    ensures Drawn(s, atlas, icons, 0, 0)
  {
  }

  // ----- the file

  const U16_LIMIT := 0x1_0000
  const MAGIC: seq<byte> := [82, 51, 73, 65]
  const HEADER := 24

  /** What the table's 16-bit fields can hold. */
  predicate Fits(e: Icon) {
    |e.id| < U16_LIMIT && e.x < U16_LIMIT && e.y < U16_LIMIT && e.w < U16_LIMIT && e.h < U16_LIMIT
  }

  function Head(e: Icon): (b: seq<byte>)
    ensures |b| == 12
  {
    StoreLE(|e.id|, 2) + StoreLE(0, 2) + StoreLE(e.x, 2) + StoreLE(e.y, 2) + StoreLE(e.w, 2) + StoreLE(e.h, 2)
  }

  function Table(icons: seq<Icon>): seq<byte> {
    if icons == [] then [] else Head(icons[0]) + icons[0].id + Table(icons[1..])
  }

  function Header(w: nat, h: nat, count: nat, table: nat): (b: seq<byte>)
    ensures |b| == HEADER
  {
    MAGIC + StoreLE(1, 4) + StoreLE(w, 4) + StoreLE(h, 4) + StoreLE(count, 4) + StoreLE(table, 4)
  }

  function File(w: nat, h: nat, icons: seq<Icon>, rgba: seq<byte>): seq<byte> {
    Header(w, h, |icons|, |Table(icons)|) + Table(icons) + rgba
  }

  /** Writes the file; a field that does not fit is an error. */
  method WriteBin(w: nat, h: nat, icons: seq<Icon>, rgba: seq<byte>) returns (data: Option<seq<byte>>)
    ensures data.Some? <==> (forall i :: 0 <= i < |icons| ==> Fits(icons[i])) && HeaderFits(w, h, icons)
    ensures data.Some? ==> data.value == File(w, h, icons, rgba)
  {
    hide Head;
    var table: seq<byte> := [];
    assert icons[..0] == [];
    for i := 0 to |icons|
      invariant table == Table(icons[..i])
      invariant forall j :: 0 <= j < i ==> Fits(icons[j])
    {
      if !Fits(icons[i]) {
        return None;
      }
      TableAppend(icons[..i], icons[i]);
      assert icons[..i + 1] == icons[..i] + [icons[i]];
      table := table + (Head(icons[i]) + icons[i].id);
    }
    assert icons[..|icons|] == icons;
    if w >= U32_LIMIT || h >= U32_LIMIT || |icons| >= U32_LIMIT || |table| >= U32_LIMIT {
      return None;
    }
    data := Some(Header(w, h, |icons|, |table|) + table + rgba);
  }

  predicate HeaderFits(w: nat, h: nat, icons: seq<Icon>) {
    w < U32_LIMIT && h < U32_LIMIT && |icons| < U32_LIMIT && |Table(icons)| < U32_LIMIT
  }

  lemma {:induction false} TableAppend(icons: seq<Icon>, e: Icon)
    ensures Table(icons + [e]) == Table(icons) + (Head(e) + e.id)
  {
    hide Head;
    if icons == [] {
      assert (icons + [e])[1..] == [];
    } else {
      assert (icons + [e])[1..] == icons[1..] + [e];
      TableAppend(icons[1..], e);
    }
  }

  // ----- the loader

  function Field(data: seq<byte>, at: nat, n: nat): nat
    requires at + n <= |data|
  {
    LoadLE(data[at..at + n])
  }

  /** The row of the table at the front of `t`. */
  function ReadIcon(t: seq<byte>, w: nat, h: nat): (r: Option<Icon>)
    ensures r.Some? ==> |t| >= 12 + |r.value.id|
  {
    if |t| < 12 || 12 + Field(t, 0, 2) > |t| then None
    else
      var n := Field(t, 0, 2);
      var e := Icon(t[12..12 + n], Field(t, 4, 2), Field(t, 6, 2), Field(t, 8, 2), Field(t, 10, 2));
      if e.w == 0 || e.h == 0 || e.x + e.w > w || e.y + e.h > h then None else Some(e)
  }

  function ReadTable(t: seq<byte>, count: nat, w: nat, h: nat): Option<seq<Icon>> {
    if count == 0 then (if t == [] then Some([]) else None)
    else match ReadIcon(t, w, h)
      case None => None
      case Some(e) =>
        match ReadTable(t[12 + |e.id|..], count - 1, w, h)
        case None => None
        case Some(more) => Some([e] + more)
  }

  /** A picture's sides, its table, and the rest of the file, where its pixels are looked for. */
  datatype Atlas = Atlas(w: nat, h: nat, icons: seq<Icon>, pixels: seq<byte>)

  /** What the loader makes of a file. Product and sum of the sizes are computed in 64 bits. */
  function Load(data: seq<byte>): Option<Atlas> {
    if |data| < HEADER || data[..4] != MAGIC || Field(data, 4, 4) != 1 || Field(data, 8, 4) == 0
      || Field(data, 12, 4) == 0
    then None
    else
      var w, h, count, end := Field(data, 8, 4), Field(data, 12, 4), Field(data, 16, 4), HEADER + Field(data, 20, 4);
      if end > |data| then None
      else match ReadTable(data[HEADER..end], count, w, h)
        case None => None
        case Some(icons) =>
          var pixels := (w * h * 4) % U64_LIMIT;
          if (end + pixels) % U64_LIMIT > |data| then None else Some(Atlas(w, h, icons, data[end..]))
  }

  /** One row of the table, with the checks in the loader's order. */
  method ReadIconAt(data: seq<byte>, at: nat, end: nat, w: nat, h: nat) returns (r: Option<Icon>)
    requires at <= end <= |data|
    ensures r == ReadIcon(data[at..end], w, h)
    ensures r.Some? ==> at + 12 + |r.value.id| <= end && Inside(r.value, w, h)
  {
    hide Field;
    var cursor := at;
    if cursor + 12 > end {
      return None;
    }
    FieldShift(data, at, end, 0, 2);
    FieldShift(data, at, end, 4, 2);
    FieldShift(data, at, end, 6, 2);
    FieldShift(data, at, end, 8, 2);
    FieldShift(data, at, end, 10, 2);
    var length := Field(data, cursor, 2);
    var x, y := Field(data, cursor + 4, 2), Field(data, cursor + 6, 2);
    var width, height := Field(data, cursor + 8, 2), Field(data, cursor + 10, 2);
    cursor := cursor + 12;
    if cursor + length > end {
      return None;
    }
    var id := data[cursor..cursor + length];
    FieldShift(data, at, end, 12, length);
    if width == 0 || height == 0 || x + width > w || y + height > h {
      return None;
    }
    r := Some(Icon(id, x, y, width, height));
  }

  /** The loader's cursor over the table. No read of the table leaves it, whatever is in the file. */
  method LoadSvgIconAtlas(data: seq<byte>) returns (r: Option<Atlas>)
    ensures r == Load(data)
    ensures r.Some? ==> forall i :: 0 <= i < |r.value.icons| ==> Inside(r.value.icons[i], r.value.w, r.value.h)
  {
    hide Field, ReadIcon;
    if |data| < HEADER || data[..4] != MAGIC || Field(data, 4, 4) != 1 || Field(data, 8, 4) == 0
      || Field(data, 12, 4) == 0
    {
      return None;
    }
    var w, h, count, tableEnd := Field(data, 8, 4), Field(data, 12, 4), Field(data, 16, 4), HEADER + Field(data, 20, 4);
    if tableEnd > |data| {
      return None;
    }
    var cursor := HEADER;
    var icons: seq<Icon> := [];
    ghost var whole := ReadTable(data[HEADER..tableEnd], count, w, h);
    assert whole.Some? ==> [] + whole.value == whole.value;
    for i := 0 to count
      invariant HEADER <= cursor <= tableEnd
      invariant |icons| == i && forall j :: 0 <= j < i ==> Inside(icons[j], w, h)
      invariant match ReadTable(data[cursor..tableEnd], count - i, w, h)
        case None => whole == None
        case Some(more) => whole == Some(icons + more)
    {
      var e := ReadIconAt(data, cursor, tableEnd, w, h);
      if e.None? {
        return None;
      }
      ghost var table := data[cursor..tableEnd];
      cursor := cursor + 12 + |e.value.id|;
      assert table[12 + |e.value.id|..] == data[cursor..tableEnd];
      assert forall more: seq<Icon> :: icons + ([e.value] + more) == (icons + [e.value]) + more;
      icons := icons + [e.value];
    }
    if cursor != tableEnd {
      return None;
    }
    assert icons + [] == icons;
    var pixels := (w * h * 4) % U64_LIMIT;
    if (tableEnd + pixels) % U64_LIMIT > |data| {
      return None;
    }
    r := Some(Atlas(w, h, icons, data[tableEnd..]));
  }

  /** An accepted file has all its pixels exactly if their number of bytes does not run over 64 bits. */
  lemma PixelsAreThereIff(data: seq<byte>)
    requires |data| < U64_LIMIT && Load(data).Some?
    ensures var a := Load(data).value;
      |a.pixels| >= a.w * a.h * 4 <==> |data| - |a.pixels| + a.w * a.h * 4 < U64_LIMIT
  {
    hide ReadTable, Field, LoadLE;
    var w, h, end := Field(data, 8, 4), Field(data, 12, 4), HEADER + Field(data, 20, 4);
    assert |Load(data).value.pixels| == |data| - end;
    WrappedSum(end, w * h * 4, |data|);
  }

  /** The test in 64 bits is the true one as long as nothing wraps. */
  lemma WrappedSum(end: nat, pixels: nat, size: nat)
    requires end <= size < U64_LIMIT && (end + pixels % U64_LIMIT) % U64_LIMIT <= size
    ensures end + pixels <= size <==> end + pixels < U64_LIMIT
  {
    if end + pixels < U64_LIMIT {
      assert (end + pixels) % U64_LIMIT == end + pixels && pixels % U64_LIMIT == pixels;
    }
  }

  /** Two empty tables whose file is accepted without a pixel: once the product wraps, once the sum does. */
  lemma AcceptedWithoutPixels()
    ensures Load(File(0x8000_0000, 0x8000_0000, [], [])) == Some(Atlas(0x8000_0000, 0x8000_0000, [], []))
    ensures Load(File(0x7FFF_FFFF, 0x8000_0001, [], [])) == Some(Atlas(0x7FFF_FFFF, 0x8000_0001, [], []))
  {
    hide Field, Header;
    EmptyFile(0x8000_0000, 0x8000_0000);
    EmptyFile(0x7FFF_FFFF, 0x8000_0001);
    assert 0x8000_0000 * 0x8000_0000 * 4 == U64_LIMIT;
    assert 0x7FFF_FFFF * 0x8000_0001 * 4 == U64_LIMIT - 4;
  }

  lemma EmptyFile(w: nat, h: nat)
    requires 0 < w < U32_LIMIT && 0 < h < U32_LIMIT && (HEADER + (w * h * 4) % U64_LIMIT) % U64_LIMIT <= HEADER
    ensures Load(File(w, h, [], [])) == Some(Atlas(w, h, [], []))
  {
    hide Field, Header;
    var data := File(w, h, [], []);
    assert data == Header(w, h, 0, 0) + [];
    HeaderRoundTrip(w, h, 0, 0, []);
    assert data[HEADER..HEADER] == [] && data[HEADER..] == [];
  }

  predicate Inside(e: Icon, w: nat, h: nat) { 0 < e.w && 0 < e.h && e.x + e.w <= w && e.y + e.h <= h }

  lemma FieldShift(data: seq<byte>, cursor: nat, end: nat, at: nat, n: nat)
    requires cursor + at + n <= end <= |data|
    ensures data[cursor..end][at..at + n] == data[cursor + at..cursor + at + n]
    ensures Field(data[cursor..end], at, n) == Field(data, cursor + at, n)
  {
    var part, whole := data[cursor..end][at..at + n], data[cursor + at..cursor + at + n];
    assert |part| == |whole| == n;
    forall i | 0 <= i < n ensures part[i] == whole[i] {
      assert part[i] == data[cursor..end][at + i] == data[cursor + at + i];
    }
    assert part == whole;
  }

  lemma FieldOf(t: seq<byte>, rest: seq<byte>, at: nat, v: nat, n: nat)
    requires v < Pow256(n) && at + n <= |t| && t[at..at + n] == StoreLE(v, n)
    ensures Field(t + rest, at, n) == v
  {
    LoadStore(v, n);
    assert (t + rest)[at..at + n] == t[at..at + n];
  }

  /** A written row is read back, whatever follows it. */
  lemma IconRoundTrip(e: Icon, w: nat, h: nat, rest: seq<byte>)
    requires Fits(e) && Inside(e, w, h)
    ensures ReadIcon(Head(e) + e.id + rest, w, h) == Some(e)
  {
    hide LoadLE, StoreLE, Field, Head;
    Pow256Values();
    var t := Head(e) + e.id + rest;
    HeadSlices(e);
    assert t == Head(e) + (e.id + rest);
    FieldOf(Head(e), e.id + rest, 0, |e.id|, 2);
    FieldOf(Head(e), e.id + rest, 4, e.x, 2);
    FieldOf(Head(e), e.id + rest, 6, e.y, 2);
    FieldOf(Head(e), e.id + rest, 8, e.w, 2);
    FieldOf(Head(e), e.id + rest, 10, e.h, 2);
    assert t[12..12 + |e.id|] == e.id;
  }

  lemma HeadSlices(e: Icon)
    ensures Head(e)[0..2] == StoreLE(|e.id|, 2) && Head(e)[4..6] == StoreLE(e.x, 2) && Head(e)[6..8] == StoreLE(e.y, 2)
    ensures Head(e)[8..10] == StoreLE(e.w, 2) && Head(e)[10..12] == StoreLE(e.h, 2)
  {
    hide StoreLE;
  }

  lemma {:induction false} TableRoundTrip(icons: seq<Icon>, w: nat, h: nat)
    requires forall i :: 0 <= i < |icons| ==> Fits(icons[i]) && Inside(icons[i], w, h)
    ensures ReadTable(Table(icons), |icons|, w, h) == Some(icons)
  {
    hide Head, ReadIcon;
    if icons != [] {
      var e, rest := icons[0], Table(icons[1..]);
      IconRoundTrip(e, w, h, rest);
      TableRoundTrip(icons[1..], w, h);
      assert (Head(e) + e.id + rest)[12 + |e.id|..] == rest;
      assert icons == [e] + icons[1..];
    }
  }

  lemma HeaderRoundTrip(w: nat, h: nat, count: nat, table: nat, rest: seq<byte>)
    requires w < U32_LIMIT && h < U32_LIMIT && count < U32_LIMIT && table < U32_LIMIT
    ensures var data := Header(w, h, count, table) + rest;
      && data[..4] == MAGIC && Field(data, 4, 4) == 1 && Field(data, 8, 4) == w && Field(data, 12, 4) == h
      && Field(data, 16, 4) == count && Field(data, 20, 4) == table
  {
    hide LoadLE, StoreLE, Field, Header;
    Pow256Values();
    var data := Header(w, h, count, table) + rest;
    HeaderSlices(w, h, count, table);
    var header := Header(w, h, count, table);
    assert data[..4] == header[0..4];
    FieldOf(header, rest, 4, 1, 4);
    FieldOf(header, rest, 8, w, 4);
    FieldOf(header, rest, 12, h, 4);
    FieldOf(header, rest, 16, count, 4);
    FieldOf(header, rest, 20, table, 4);
  }

  lemma HeaderSlices(w: nat, h: nat, count: nat, table: nat)
    ensures var b := Header(w, h, count, table);
      && b[0..4] == MAGIC && b[4..8] == StoreLE(1, 4) && b[8..12] == StoreLE(w, 4) && b[12..16] == StoreLE(h, 4)
      && b[16..20] == StoreLE(count, 4) && b[20..24] == StoreLE(table, 4)
  {
    hide StoreLE;
  }

  /** A file begins with its mark, its version, the picture's sides, the number of icons and the size of the table. */
  lemma FileBegins(w: nat, h: nat, icons: seq<Icon>, rgba: seq<byte>)
    requires HeaderFits(w, h, icons)
    ensures var data := File(w, h, icons, rgba);
      && |data| >= 24 && data[..4] == ['R' as int, '3' as int, 'I' as int, 'A' as int]
      && LoadLE(data[4..8]) == 1 && LoadLE(data[8..12]) == w && LoadLE(data[12..16]) == h
      && LoadLE(data[16..20]) == |icons| && LoadLE(data[20..24]) == |Table(icons)|
  {
    hide LoadLE, Header, Table;
    HeaderRoundTrip(w, h, |icons|, |Table(icons)|, Table(icons) + rgba);
    assert File(w, h, icons, rgba) == Header(w, h, |icons|, |Table(icons)|) + (Table(icons) + rgba);
  }

  /** The loader accepts every written file and recovers the picture, the names and the rectangles in order. */
  lemma FileRoundTrip(w: nat, h: nat, icons: seq<Icon>, rgba: seq<byte>)
    requires w > 0 && h > 0 && HeaderFits(w, h, icons)
    requires |rgba| == w * h * 4 && |File(w, h, icons, rgba)| < U64_LIMIT
    requires forall i :: 0 <= i < |icons| ==> Fits(icons[i]) && Inside(icons[i], w, h)
    ensures Load(File(w, h, icons, rgba)) == Some(Atlas(w, h, icons, rgba))
  {
    hide Field, Header, Table, ReadTable;
    var table := Table(icons);
    var data := File(w, h, icons, rgba);
    HeaderRoundTrip(w, h, |icons|, |table|, table + rgba);
    assert data == Header(w, h, |icons|, |table|) + (table + rgba);
    TableRoundTrip(icons, w, h);
    assert data[HEADER..HEADER + |table|] == table;
    assert data[HEADER + |table|..] == rgba;
  }

  /** When every tile's corner fits 16 bits, the sides of the picture need no more than 18. */
  lemma SidesAreSmall(s: Sheet, icons: seq<Raster>)
    requires Proper(s, |icons|) && Tight(s, |icons|) && icons != []
    requires forall i :: 0 <= i < |icons| ==> Fits(Entries(s, icons)[i])
    ensures s.w < 4 * U16_LIMIT && s.h < 4 * U16_LIMIT
  {
    hide Proper;
    assert Fits(Entries(s, icons)[0]);
    LastColumn(s, icons);
    LastTileRow(s, icons);
  }

  lemma LastColumn(s: Sheet, icons: seq<Raster>)
    requires Tight(s, |icons|) && icons != [] && s.tile < U16_LIMIT
    requires forall i :: 0 <= i < |icons| ==> Fits(Entries(s, icons)[i])
    ensures s.w < 4 * U16_LIMIT
  {
    var last: nat := s.cols - 1;
    if last > 0 { MulLe(1, last, last); }
    SmallRemainder(last, s.cols);
    assert Fits(Entries(s, icons)[last]);
    OneMore(last, s.tile);
  }

  lemma LastTileRow(s: Sheet, icons: seq<Raster>)
    requires Tight(s, |icons|) && icons != [] && s.tile < U16_LIMIT
    requires forall i :: 0 <= i < |icons| ==> Fits(Entries(s, icons)[i])
    ensures s.h < 4 * U16_LIMIT
  {
    var last: nat := |icons| - 1;
    OneMoreRow(|icons|, s.cols);
    assert Fits(Entries(s, icons)[last]);
    OneMore(last / s.cols, s.tile);
  }

  lemma OneMore(a: nat, n: nat)
    ensures (a + 1) * n == a * n + n
  {
  }

  lemma SmallRemainder(a: nat, n: nat)
    requires a < n
    ensures a % n == a
  {
    RemainderIs(a, n, 0, a);
  }

  lemma OneMoreRow(n: nat, cols: nat)
    requires n > 0 && cols > 0
    ensures (n + cols - 1) / cols == (n - 1) / cols + 1
  {
    DivMod(n - 1, cols);
    var q, r := (n - 1) / cols, (n - 1) % cols;
    assert n + cols - 1 == (q + 1) * cols + r;
    RemainderIs(n + cols - 1, cols, q + 1, r);
  }

  /** What is written never comes near the largest file. */
  lemma WrittenIsSmall(s: Sheet, icons: seq<Raster>, rgba: seq<byte>)
    requires Proper(s, |icons|) && Tight(s, |icons|) && |rgba| == s.w * s.h * 4
    requires HeaderFits(s.w, s.h, Entries(s, icons)) && forall i :: 0 <= i < |icons| ==> Fits(Entries(s, icons)[i])
    ensures |File(s.w, s.h, Entries(s, icons), rgba)| < U64_LIMIT
  {
    hide Proper, Fits, Header;
    if icons == [] {
      NoRows(s.cols);
      assert s.h == 1;
    } else {
      SidesAreSmall(s, icons);
      MulLe(s.w, 4 * U16_LIMIT, s.h);
      MulLe(s.h, 4 * U16_LIMIT, 4 * U16_LIMIT);
    }
  }

  lemma NoRows(cols: nat)
    requires cols > 0
    ensures (0 + cols - 1) / cols == 0
  {
    RemainderIs(cols - 1, cols, 0, cols - 1);
  }

  /**
   Packing, writing and loading. The file is written exactly if every tile, every name and the header's sizes fit their
   fields; the loader then accepts it, and finds each icon's raster in the rectangle under its name.
   */
  method PackAndLoad(icons: seq<Raster>, tile: Positive)
    returns (s: Sheet, written: Option<seq<byte>>, loaded: Option<Atlas>)
    requires forall i :: 0 <= i < |icons| ==> |icons[i].rgba| == tile * (tile * 4)
    ensures s.tile == tile && Proper(s, |icons|) && Tight(s, |icons|)
    ensures written.Some? <==>
      (forall i :: 0 <= i < |icons| ==> |icons[i].id| < U16_LIMIT && X(s, i) < U16_LIMIT && Y(s, i) < U16_LIMIT)
      && (icons != [] ==> tile < U16_LIMIT) && HeaderFits(s.w, s.h, Entries(s, icons))
    ensures written.Some? <==> loaded.Some?
    ensures loaded.Some? ==> loaded.value.w == s.w && loaded.value.h == s.h && loaded.value.icons == Entries(s, icons)
    ensures loaded.Some? ==> Drawn(s, loaded.value.pixels, icons, |icons|, 0)
  {
    hide Drawn, X, Y, Proper, Tight, Load, Table, Entries, HeaderFits;
    var entries, atlas;
    s, entries, atlas := BuildAtlas(icons, tile);
    written := WriteBin(s.w, s.h, entries, atlas[..]);
    loaded := None;
    AllFitIff(s, icons);
    if written.Some? {
      forall i | 0 <= i < |entries| ensures Inside(entries[i], s.w, s.h) { EntryInside(s, icons, i); }
      WrittenIsSmall(s, icons, atlas[..]);
      FileRoundTrip(s.w, s.h, entries, atlas[..]);
      loaded := LoadSvgIconAtlas(written.value);
    }
  }

  lemma AllFitIff(s: Sheet, icons: seq<Raster>)
    ensures (forall i :: 0 <= i < |icons| ==> Fits(Entries(s, icons)[i])) <==>
      (forall i :: 0 <= i < |icons| ==> |icons[i].id| < U16_LIMIT && X(s, i) < U16_LIMIT && Y(s, i) < U16_LIMIT)
      && (icons != [] ==> s.tile < U16_LIMIT)
  {
    hide X, Y;
    if forall i :: 0 <= i < |icons| ==> Fits(Entries(s, icons)[i]) {
      if icons != [] { assert Fits(Entries(s, icons)[0]); }
      forall i | 0 <= i < |icons| ensures |icons[i].id| < U16_LIMIT && X(s, i) < U16_LIMIT && Y(s, i) < U16_LIMIT {
        assert Fits(Entries(s, icons)[i]);
      }
    }
  }

  lemma EntryInside(s: Sheet, icons: seq<Raster>, i: nat)
    requires Proper(s, |icons|) && i < |icons|
    ensures Inside(Entries(s, icons)[i], s.w, s.h)
  {
    TileInside(s, |icons|, i);
  }
}
