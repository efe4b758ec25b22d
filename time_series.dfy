/**
  `create_filtered_time_series.py`: choose the grid points of the region from
  a sample snapshot, list the daily snapshot files of the extraction window in
  date order, and for every chosen point whose nearest sample cell is defined
  collect its sea-level-anomaly series across the days (falling back on the
  ring search of `find_nearest_non_nan`), fill its gaps, band-pass filter it
  and keep it as one per-point file.

  Snapshot files are read through a map from file path to `Snapshot`; days are
  day ordinals; the band-pass filter is a parameter of type `Filter`.
 */
module FilteredTimeSeries {
  import opened Common
  import opened Text
  import opened Decimal
  import opened Dates
  import opened CtwFunctions

  // ---------------------------------------------------------------------
  // The region and the grid points inside it
  // ---------------------------------------------------------------------

  /** `parallelogram_vertices` (EAST_AUSTRALIA), as (longitude, latitude) pairs. */
  const EastAustralia: seq<Vertex> :=
    [Vertex(149.0, -38.0), Vertex(158.0, -38.0), Vertex(158.0, -25.0), Vertex(149.0, -25.0)]

  /** The closed longitude and latitude ranges of a region. */
  datatype Box = Box(minLon: real, maxLon: real, minLat: real, maxLat: real)
  {
    predicate Contains(lat: real, lon: real) {
      (lon >= minLon && lon <= maxLon) && (lat >= minLat && lat <= maxLat)
    }
  }

  /** `vertices[:, 0].min()`, `vertices[:, 0].max()`, `vertices[:, 1].min()`, `vertices[:, 1].max()`. */
  function BoundingBox(vs: seq<Vertex>): (b: Box)
    requires |vs| > 0
    ensures forall k :: 0 <= k < |vs| ==> b.minLon <= vs[k].lon <= b.maxLon && b.minLat <= vs[k].lat <= b.maxLat
    ensures exists k :: 0 <= k < |vs| && vs[k].lon == b.minLon
    ensures exists k :: 0 <= k < |vs| && vs[k].lon == b.maxLon
    ensures exists k :: 0 <= k < |vs| && vs[k].lat == b.minLat
    ensures exists k :: 0 <= k < |vs| && vs[k].lat == b.maxLat
  {
    var los, las := LonColumn(vs), LatColumn(vs);
    var b := Box(SeqMin(los), SeqMax(los), SeqMin(las), SeqMax(las));
    assert exists k :: 0 <= k < |vs| && los[k] == b.minLon;
    assert exists k :: 0 <= k < |vs| && los[k] == b.maxLon;
    assert exists k :: 0 <= k < |vs| && las[k] == b.minLat;
    assert exists k :: 0 <= k < |vs| && las[k] == b.maxLat;
    b
  }

  /**
    One element of the vectorised test of `is_inside_parallelogram`: the point
    lies in the closed bounding box of the vertices.
   */
  predicate InBox(lat: real, lon: real, vs: seq<Vertex>)
    requires |vs| > 0
  {
    BoundingBox(vs).Contains(lat, lon)
  }

  /** The extremes of a sequence made only of a and b, holding both. */
  lemma TwoValueExtremes(xs: seq<real>, a: real, b: real)
    requires a <= b && a in xs && b in xs
    requires forall k :: 0 <= k < |xs| ==> xs[k] == a || xs[k] == b
    ensures SeqMin(xs) == a && SeqMax(xs) == b
  {
    var lo, hi := SeqMin(xs), SeqMax(xs);
    var ka :| 0 <= ka < |xs| && xs[ka] == a;
    var kb :| 0 <= kb < |xs| && xs[kb] == b;
    assert lo <= xs[ka] && xs[kb] <= hi;
  }

  /** The bounding box of the configured vertices. */
  lemma EastAustraliaBounds()
    ensures BoundingBox(EastAustralia) == Box(149.0, 158.0, -38.0, -25.0)
  {
    var los, las := LonColumn(EastAustralia), LatColumn(EastAustralia);
    assert los == [149.0, 158.0, 158.0, 149.0];
    assert las == [-38.0, -38.0, -25.0, -25.0];
    assert los[0] == 149.0 && los[1] == 158.0 && las[0] == -38.0 && las[2] == -25.0;
    TwoValueExtremes(los, 149.0, 158.0);
    TwoValueExtremes(las, -38.0, -25.0);
  }

  /** The configured region is the box 149..158 east, 38..25 south, edges included. */
  lemma EastAustraliaBox(lat: real, lon: real)
    ensures InBox(lat, lon, EastAustralia) <==> -38.0 <= lat <= -25.0 && 149.0 <= lon <= 158.0
  {
    EastAustraliaBounds();
  }

  /**
    `np.meshgrid(latitudes, longitudes)`: two grids of shape (|lons|, |lats|),
    the first repeating the latitudes along each row, the second holding one
    longitude per row.
   */
  function MeshGrid(lats: seq<real>, lons: seq<real>): (grids: (seq<seq<real>>, seq<seq<real>>))
    ensures |grids.0| == |lons| && |grids.1| == |lons|
    ensures forall j :: 0 <= j < |lons| ==> |grids.0[j]| == |lats| && |grids.1[j]| == |lats|
    ensures forall j, i :: 0 <= j < |lons| && 0 <= i < |lats| ==> grids.0[j][i] == lats[i] && grids.1[j][i] == lons[j]
  {
    (seq(|lons|, j => lats), seq(|lons|, j requires 0 <= j < |lons| => seq(|lats|, i => lons[j])))
  }

  predicate SameShape<T, U>(a: seq<seq<T>>, b: seq<seq<U>>) {
    |a| == |b| && forall j :: 0 <= j < |a| ==> |a[j]| == |b[j]|
  }

  /** `is_inside_parallelogram(lat_grid, lon_grid, vertices)`: the box test applied elementwise. */
  function InsideMask(latGrid: seq<seq<real>>, lonGrid: seq<seq<real>>, vs: seq<Vertex>): (mask: seq<seq<bool>>)
    requires |vs| > 0 && SameShape(latGrid, lonGrid)
    ensures SameShape(mask, latGrid)
    ensures forall j, i :: 0 <= j < |latGrid| && 0 <= i < |latGrid[j]| ==>
      (mask[j][i] <==> InBox(latGrid[j][i], lonGrid[j][i], vs))
  {
    seq(|latGrid|, j requires 0 <= j < |latGrid| =>
      seq(|latGrid[j]|, i requires 0 <= i < |latGrid[j]| => InBox(latGrid[j][i], lonGrid[j][i], vs)))
  }

  /** The elements of the first n entries of a row that the mask row keeps, in order. */
  function RowSelect(row: seq<real>, keep: seq<bool>, n: nat): seq<real>
    requires n <= |row| == |keep|
  {
    if n == 0 then [] else RowSelect(row, keep, n - 1) + (if keep[n - 1] then [row[n - 1]] else [])
  }

  /** The elements of the first m rows that the mask keeps, row after row. */
  function MaskSelectRows(grid: seq<seq<real>>, mask: seq<seq<bool>>, m: nat): seq<real>
    requires SameShape(grid, mask) && m <= |grid|
  {
    if m == 0 then [] else MaskSelectRows(grid, mask, m - 1) + RowSelect(grid[m - 1], mask[m - 1], |grid[m - 1]|)
  }

  /** `grid[mask]`: boolean indexing, which reads the grid in row-major order. */
  function MaskSelect(grid: seq<seq<real>>, mask: seq<seq<bool>>): seq<real>
    requires SameShape(grid, mask)
  {
    MaskSelectRows(grid, mask, |grid|)
  }

  /** A grid point by its indices: i along the latitude axis, j along the longitude axis. */
  datatype Cell = Cell(i: nat, j: nat)

  /** Cell (i1, j1) comes before cell (i2, j2) longitude-major: by j, then by i. */
  predicate LonMajorBefore(c: Cell, d: Cell) {
    c.j < d.j || (c.j == d.j && c.i < d.i)
  }

  /** The cells (i, j) with i < n on longitude row j whose coordinates the box contains, by increasing i. */
  function RowCells(lats: seq<real>, lons: seq<real>, box: Box, j: nat, n: nat): seq<Cell>
    requires j < |lons| && n <= |lats|
  {
    if n == 0 then []
    else RowCells(lats, lons, box, j, n - 1) + (if box.Contains(lats[n - 1], lons[j]) then [Cell(n - 1, j)] else [])
  }

  /** The cells of a row, read up to n, are in the box, are all of them, and come by increasing latitude index. */
  lemma {:induction false} RowCellsSpec(lats: seq<real>, lons: seq<real>, box: Box, j: nat, n: nat)
    requires j < |lons| && n <= |lats|
    ensures var cs := RowCells(lats, lons, box, j, n);
      && (forall p :: 0 <= p < |cs| ==> cs[p].j == j && cs[p].i < n && box.Contains(lats[cs[p].i], lons[j]))
      && (forall i :: 0 <= i < n && box.Contains(lats[i], lons[j]) ==> Cell(i, j) in cs)
      && (forall p, q :: 0 <= p < q < |cs| ==> cs[p].i < cs[q].i)
  {
    if n > 0 {
      RowCellsSpec(lats, lons, box, j, n - 1);
      var prev := RowCells(lats, lons, box, j, n - 1);
      if box.Contains(lats[n - 1], lons[j]) {
        var cs := prev + [Cell(n - 1, j)];
        assert RowCells(lats, lons, box, j, n) == cs;
        assert forall p :: 0 <= p < |prev| ==> cs[p] == prev[p];
      } else {
        assert RowCells(lats, lons, box, j, n) == prev;
      }
    }
  }

  /** What the cells of the first m longitude rows satisfy: in the box, all of them, longitude-major. */
  predicate CellsOf(lats: seq<real>, lons: seq<real>, box: Box, m: nat, cs: seq<Cell>)
    requires m <= |lons|
  {
    && (forall p :: 0 <= p < |cs| ==> cs[p].j < m && cs[p].i < |lats| && box.Contains(lats[cs[p].i], lons[cs[p].j]))
    && (forall i, j :: 0 <= i < |lats| && 0 <= j < m && box.Contains(lats[i], lons[j]) ==> Cell(i, j) in cs)
    && (forall p, q :: 0 <= p < q < |cs| ==> LonMajorBefore(cs[p], cs[q]))
  }

  /** Appending the cells of row m - 1 to those of the first m - 1 rows gives those of the first m. */
  lemma CellsAppendRow(lats: seq<real>, lons: seq<real>, box: Box, m: nat, prev: seq<Cell>)
    requires 0 < m <= |lons| && CellsOf(lats, lons, box, m - 1, prev)
    ensures CellsOf(lats, lons, box, m, prev + RowCells(lats, lons, box, m - 1, |lats|))
  {
    var row := RowCells(lats, lons, box, m - 1, |lats|);
    RowCellsSpec(lats, lons, box, m - 1, |lats|);
    var cs := prev + row;
    forall p | 0 <= p < |cs|
      ensures cs[p].j < m && cs[p].i < |lats| && box.Contains(lats[cs[p].i], lons[cs[p].j])
    {
      if p >= |prev| { assert cs[p] == row[p - |prev|]; }
    }
    forall i, j | 0 <= i < |lats| && 0 <= j < m && box.Contains(lats[i], lons[j])
      ensures Cell(i, j) in cs
    {
      if j < m - 1 { assert Cell(i, j) in prev; } else { assert Cell(i, j) in row; }
    }
    forall p, q | 0 <= p < q < |cs|
      ensures LonMajorBefore(cs[p], cs[q])
    {
      if q < |prev| {
        assert cs[p] == prev[p] && cs[q] == prev[q];
      } else if p >= |prev| {
        assert cs[p] == row[p - |prev|] && cs[q] == row[q - |prev|];
      } else {
        assert cs[p] == prev[p] && cs[q] == row[q - |prev|];
      }
    }
  }

  /** The cells of the first m longitude rows whose coordinates the box contains, row after row. */
  function CellsUpTo(lats: seq<real>, lons: seq<real>, box: Box, m: nat): seq<Cell>
    requires m <= |lons|
  {
    if m == 0 then [] else CellsUpTo(lats, lons, box, m - 1) + RowCells(lats, lons, box, m - 1, |lats|)
  }

  /** The cells of the first m rows are in the box, are all of them, and come longitude-major. */
  lemma {:induction false} CellsUpToSpec(lats: seq<real>, lons: seq<real>, box: Box, m: nat)
    requires m <= |lons|
    ensures CellsOf(lats, lons, box, m, CellsUpTo(lats, lons, box, m))
  {
    if m > 0 {
      CellsUpToSpec(lats, lons, box, m - 1);
      CellsAppendRow(lats, lons, box, m, CellsUpTo(lats, lons, box, m - 1));
    }
  }

  /**
    The cells `main` visits: every cell of the latitude-by-longitude product
    whose coordinates lie in the region's box, each once, longitude-major.
   */
  function SelectedCells(lats: seq<real>, lons: seq<real>, vs: seq<Vertex>): (cs: seq<Cell>)
    requires |vs| > 0
    ensures forall p :: 0 <= p < |cs| ==> cs[p].i < |lats| && cs[p].j < |lons| && InBox(lats[cs[p].i], lons[cs[p].j], vs)
    ensures forall i, j :: 0 <= i < |lats| && 0 <= j < |lons| ==> (Cell(i, j) in cs <==> InBox(lats[i], lons[j], vs))
    ensures forall p, q :: 0 <= p < q < |cs| ==> LonMajorBefore(cs[p], cs[q])
  {
    CellsUpToSpec(lats, lons, BoundingBox(vs), |lons|);
    CellsUpTo(lats, lons, BoundingBox(vs), |lons|)
  }

  /** A grid of shape (|lons|, |lats|) masked by the box test of each product cell. */
  predicate MaskedProduct(lats: seq<real>, lons: seq<real>, box: Box, grid: seq<seq<real>>, mask: seq<seq<bool>>) {
    && SameShape(grid, mask) && |grid| == |lons|
    && (forall j :: 0 <= j < |lons| ==> |grid[j]| == |lats|)
    && (forall j, i :: 0 <= j < |lons| && 0 <= i < |lats| ==> (mask[j][i] <==> box.Contains(lats[i], lons[j])))
  }

  /** `sel` lists the grid's entries at the cells `cs`, one for one. */
  predicate Reads(grid: seq<seq<real>>, sel: seq<real>, cs: seq<Cell>) {
    |sel| == |cs|
    && forall p :: 0 <= p < |cs| ==> cs[p].j < |grid| && cs[p].i < |grid[cs[p].j]| && sel[p] == grid[cs[p].j][cs[p].i]
  }

  lemma ReadsAppend(grid: seq<seq<real>>, sel0: seq<real>, cs0: seq<Cell>, sel1: seq<real>, cs1: seq<Cell>)
    requires Reads(grid, sel0, cs0) && Reads(grid, sel1, cs1)
    ensures Reads(grid, sel0 + sel1, cs0 + cs1)
  {
    var sel, cs := sel0 + sel1, cs0 + cs1;
    forall p | 0 <= p < |cs|
      ensures cs[p].j < |grid| && cs[p].i < |grid[cs[p].j]| && sel[p] == grid[cs[p].j][cs[p].i]
    {
      if p < |cs0| {
        assert sel[p] == sel0[p] && cs[p] == cs0[p];
      } else {
        assert sel[p] == sel1[p - |cs0|] && cs[p] == cs1[p - |cs0|];
      }
    }
  }

  /** A masked row, read up to n, holds the row's entries at the selected cells of the row. */
  lemma {:induction false} RowSelectCells(lats: seq<real>, lons: seq<real>, box: Box, grid: seq<seq<real>>, mask: seq<seq<bool>>, j: nat, n: nat)
    requires MaskedProduct(lats, lons, box, grid, mask) && j < |lons| && n <= |lats|
    ensures Reads(grid, RowSelect(grid[j], mask[j], n), RowCells(lats, lons, box, j, n))
  {
    if n > 0 {
      RowSelectCells(lats, lons, box, grid, mask, j, n - 1);
      var sel0, cs0 := RowSelect(grid[j], mask[j], n - 1), RowCells(lats, lons, box, j, n - 1);
      assert mask[j][n - 1] <==> box.Contains(lats[n - 1], lons[j]);
      if mask[j][n - 1] {
        assert Reads(grid, [grid[j][n - 1]], [Cell(n - 1, j)]);
        ReadsAppend(grid, sel0, cs0, [grid[j][n - 1]], [Cell(n - 1, j)]);
        assert RowSelect(grid[j], mask[j], n) == sel0 + [grid[j][n - 1]];
        assert RowCells(lats, lons, box, j, n) == cs0 + [Cell(n - 1, j)];
      } else {
        assert RowSelect(grid[j], mask[j], n) == sel0;
        assert RowCells(lats, lons, box, j, n) == cs0;
      }
    }
  }

  /** The masked rows, read up to m, hold the grid's entries at the selected cells, in order. */
  lemma {:induction false} MaskSelectCells(lats: seq<real>, lons: seq<real>, box: Box, grid: seq<seq<real>>, mask: seq<seq<bool>>, m: nat)
    requires MaskedProduct(lats, lons, box, grid, mask) && m <= |lons|
    ensures Reads(grid, MaskSelectRows(grid, mask, m), CellsUpTo(lats, lons, box, m))
  {
    if m > 0 {
      MaskSelectCells(lats, lons, box, grid, mask, m - 1);
      RowSelectCells(lats, lons, box, grid, mask, m - 1, |lats|);
      var sel0, cs0 := MaskSelectRows(grid, mask, m - 1), CellsUpTo(lats, lons, box, m - 1);
      var sel1, cs1 := RowSelect(grid[m - 1], mask[m - 1], |lats|), RowCells(lats, lons, box, m - 1, |lats|);
      ReadsAppend(grid, sel0, cs0, sel1, cs1);
      var sel, cs := MaskSelectRows(grid, mask, m), CellsUpTo(lats, lons, box, m);
      assert |grid[m - 1]| == |lats| && sel == sel0 + sel1 && cs == cs0 + cs1;
    }
  }

  /** `zip(valid_lats, valid_lons)` of `main`: the meshgrids masked by the region test, paired. */
  function RegionPoints(lats: seq<real>, lons: seq<real>, vs: seq<Vertex>): seq<(real, real)>
    requires |vs| > 0
  {
    var g := MeshGrid(lats, lons);
    var mask := InsideMask(g.0, g.1, vs);
    var la, lo := MaskSelect(g.0, mask), MaskSelect(g.1, mask);
    seq(if |la| <= |lo| then |la| else |lo|, k requires 0 <= k < |la| && k < |lo| => (la[k], lo[k]))
  }

  /** Both meshgrids, with the region mask, are masked products over the region's box. */
  lemma MeshMasked(lats: seq<real>, lons: seq<real>, vs: seq<Vertex>)
    requires |vs| > 0
    ensures var g := MeshGrid(lats, lons);
      var mask := InsideMask(g.0, g.1, vs);
      MaskedProduct(lats, lons, BoundingBox(vs), g.0, mask) && MaskedProduct(lats, lons, BoundingBox(vs), g.1, mask)
  {
    var g := MeshGrid(lats, lons);
    var mask := InsideMask(g.0, g.1, vs);
    forall j, i | 0 <= j < |lons| && 0 <= i < |lats|
      ensures mask[j][i] <==> BoundingBox(vs).Contains(lats[i], lons[j])
    {
      assert g.0[j][i] == lats[i] && g.1[j][i] == lons[j];
    }
  }

  /** The masked meshgrids, paired, are the coordinates of the box's cells, row after row. */
  lemma RegionPointsAreCells(lats: seq<real>, lons: seq<real>, vs: seq<Vertex>)
    requires |vs| > 0
    ensures var pts, cs := RegionPoints(lats, lons, vs), CellsUpTo(lats, lons, BoundingBox(vs), |lons|);
      |pts| == |cs| && forall p :: 0 <= p < |cs| ==> cs[p].i < |lats| && cs[p].j < |lons| && pts[p] == (lats[cs[p].i], lons[cs[p].j])
  {
    var g := MeshGrid(lats, lons);
    var mask := InsideMask(g.0, g.1, vs);
    var box := BoundingBox(vs);
    MeshMasked(lats, lons, vs);
    MaskSelectCells(lats, lons, box, g.0, mask, |lons|);
    MaskSelectCells(lats, lons, box, g.1, mask, |lons|);
    var la, lo := MaskSelect(g.0, mask), MaskSelect(g.1, mask);
    var cs := CellsUpTo(lats, lons, box, |lons|);
    assert Reads(g.0, la, cs) && Reads(g.1, lo, cs);
    var pts := RegionPoints(lats, lons, vs);
    assert |pts| == |cs|;
    forall p | 0 <= p < |cs| ensures cs[p].i < |lats| && cs[p].j < |lons| && pts[p] == (lats[cs[p].i], lons[cs[p].j]) {
      assert pts[p] == (la[p], lo[p]);
      assert la[p] == g.0[cs[p].j][cs[p].i] && lo[p] == g.1[cs[p].j][cs[p].i];
    }
  }

  /**
    The points `main` iterates over are exactly the coordinates of the cells of
    the latitude-by-longitude product that lie in the region, longitude-major.
   */
  lemma RegionPointsAreSelectedCells(lats: seq<real>, lons: seq<real>, vs: seq<Vertex>)
    requires |vs| > 0
    ensures var pts, cs := RegionPoints(lats, lons, vs), SelectedCells(lats, lons, vs);
      |pts| == |cs| && forall p :: 0 <= p < |cs| ==> pts[p] == (lats[cs[p].i], lons[cs[p].j])
  {
    RegionPointsAreCells(lats, lons, vs);
  }

  // ---------------------------------------------------------------------
  // One grid point across the days: process_grid_point
  // ---------------------------------------------------------------------

  /** `abs(axis - x).argmin()` over the first n entries: the first index of least distance. */
  function NearestIndexUpTo(axis: seq<real>, x: real, n: nat): (k: nat)
    requires 0 < n <= |axis|
    ensures k < n
    ensures forall m :: 0 <= m < n ==> Abs(axis[k] - x) <= Abs(axis[m] - x)
    ensures forall m :: 0 <= m < k ==> Abs(axis[m] - x) > Abs(axis[k] - x)
  {
    if n == 1 then 0
    else
      var p := NearestIndexUpTo(axis, x, n - 1);
      if Abs(axis[n - 1] - x) < Abs(axis[p] - x) then n - 1 else p
  }

  /** `abs(axis - x).argmin()`: the first index at which the axis is closest to x. */
  function NearestIndex(axis: seq<real>, x: real): (k: nat)
    requires |axis| > 0
    ensures k < |axis|
    ensures forall m :: 0 <= m < |axis| ==> Abs(axis[k] - x) <= Abs(axis[m] - x)
    ensures forall m :: 0 <= m < k ==> Abs(axis[m] - x) > Abs(axis[k] - x)
  {
    NearestIndexUpTo(axis, x, |axis|)
  }

  /** Looking up a value of the axis itself finds its first occurrence: its own index when the axis has no repeats. */
  lemma NearestIndexOfAxisValue(axis: seq<real>, i: nat)
    requires i < |axis|
    ensures axis[NearestIndex(axis, axis[i])] == axis[i]
    ensures forall m :: 0 <= m < NearestIndex(axis, axis[i]) ==> axis[m] != axis[i]
    ensures (forall m :: 0 <= m < |axis| && m != i ==> axis[m] != axis[i]) ==> NearestIndex(axis, axis[i]) == i
  {
    var k := NearestIndex(axis, axis[i]);
    assert Abs(axis[k] - axis[i]) <= Abs(axis[i] - axis[i]);
  }

  /** The cell of a usable snapshot nearest to (lat, lon), as the two argmins pick it. */
  function NearestCell(snap: Snapshot, lat: real, lon: real): (c: Cell)
    requires snap.Usable()
    ensures snap.InBounds(c.i, c.j)
  {
    Cell(NearestIndex(snap.lats, lat), NearestIndex(snap.lons, lon))
  }

  /**
    The value one day contributes to the series of (lat, lon): the nearest
    cell when it is defined, otherwise whatever the ring search finds.
   */
  function SampleAt(snap: Snapshot, lat: real, lon: real): Option<real>
    requires snap.Usable()
  {
    var c := NearestCell(snap, lat, lon);
    if snap.sla[c.i][c.j].Some? then snap.sla[c.i][c.j] else NearestNonNan(snap, c.i, c.j)
  }

  /**
    A day gives no value exactly when the nearest cell and every in-bounds
    cell within five rings of it are undefined.
   */
  lemma SampleAtNone(snap: Snapshot, lat: real, lon: real)
    requires snap.Usable()
    ensures var c := NearestCell(snap, lat, lon);
      SampleAt(snap, lat, lon).None? <==>
        snap.sla[c.i][c.j].None?
        && forall a, b :: snap.InBounds(a, b) && Candidate(c.i, c.j, a, b) ==> snap.sla[a][b].None?
  {
    var c := NearestCell(snap, lat, lon);
    NearestNonNanNone(snap, c.i, c.j);
  }

  /** One entry of `date_file_list`: the file's date and its path. */
  datatype DateFile = DateFile(date: int, path: string)

  /** Every listed file is available and holds a usable snapshot. */
  predicate StoreHas(files: seq<DateFile>, store: map<string, Snapshot>) {
    forall k :: 0 <= k < |files| ==> files[k].path in store && store[files[k].path].Usable()
  }

  /** `date_list` and `sla_data` after the loop of `process_grid_point`. */
  datatype Samples = Samples(dates: seq<int>, values: seq<real>)

  /** The dates and values collected for (lat, lon) over the files, in file order. */
  function Collect(lat: real, lon: real, files: seq<DateFile>, store: map<string, Snapshot>): (r: Samples)
    requires StoreHas(files, store)
    ensures |r.dates| == |r.values| <= |files|
  {
    if |files| == 0 then Samples([], [])
    else
      var prev := Collect(lat, lon, files[..|files| - 1], store);
      var f := files[|files| - 1];
      match SampleAt(store[f.path], lat, lon)
      case Some(v) => Samples(prev.dates + [f.date], prev.values + [v])
      case None => prev
  }

  /** Day `k` of the listing gives a value at (lat, lon). */
  predicate Gives(lat: real, lon: real, files: seq<DateFile>, store: map<string, Snapshot>, k: nat)
    requires StoreHas(files, store) && k < |files|
  {
    SampleAt(store[files[k].path], lat, lon).Some?
  }

  /** The positions in `files` of the days that contribute to the series, in order. */
  function KeptDays(lat: real, lon: real, files: seq<DateFile>, store: map<string, Snapshot>): (ks: seq<nat>)
    requires StoreHas(files, store)
    ensures forall p :: 0 <= p < |ks| ==> ks[p] < |files| && Gives(lat, lon, files, store, ks[p])
    ensures forall p, q :: 0 <= p < q < |ks| ==> ks[p] < ks[q]
  {
    if |files| == 0 then []
    else
      var n := |files| - 1;
      var pre := files[..n];
      var prev := KeptDays(lat, lon, pre, store);
      assert forall p :: 0 <= p < |prev| ==> Gives(lat, lon, files, store, prev[p]) by {
        forall p | 0 <= p < |prev| ensures Gives(lat, lon, files, store, prev[p]) {
          assert Gives(lat, lon, pre, store, prev[p]);
          assert pre[prev[p]] == files[prev[p]];
        }
      }
      if Gives(lat, lon, files, store, n) then prev + [n] else prev
  }

  /** Every day that gives a value is kept. */
  lemma {:induction false} KeptDaysComplete(lat: real, lon: real, files: seq<DateFile>, store: map<string, Snapshot>, k: nat)
    requires StoreHas(files, store) && k < |files| && Gives(lat, lon, files, store, k)
    ensures k in KeptDays(lat, lon, files, store)
  {
    var n := |files| - 1;
    if k < n {
      var pre := files[..n];
      assert pre[k] == files[k];
      assert Gives(lat, lon, pre, store, k);
      KeptDaysComplete(lat, lon, pre, store, k);
    }
  }

  /**
    The collected series is the sequence of the kept days: the p-th date and
    value come from the p-th day (in file order) that gives a value.
   */
  lemma {:induction false} CollectIsKeptDays(lat: real, lon: real, files: seq<DateFile>, store: map<string, Snapshot>)
    requires StoreHas(files, store)
    ensures var r, ks := Collect(lat, lon, files, store), KeptDays(lat, lon, files, store);
      |r.dates| == |ks|
      && forall p :: 0 <= p < |ks| ==>
        r.dates[p] == files[ks[p]].date && Some(r.values[p]) == SampleAt(store[files[ks[p]].path], lat, lon)
  {
    if |files| > 0 {
      var n := |files| - 1;
      var pre := files[..n];
      assert StoreHas(pre, store);
      CollectIsKeptDays(lat, lon, pre, store);
      var r0, ks0 := Collect(lat, lon, pre, store), KeptDays(lat, lon, pre, store);
      var r, ks := Collect(lat, lon, files, store), KeptDays(lat, lon, files, store);
      var v := SampleAt(store[files[n].path], lat, lon);
      if v.Some? {
        assert Gives(lat, lon, files, store, n);
        assert r == Samples(r0.dates + [files[n].date], r0.values + [v.value]);
        assert ks == ks0 + [n];
      } else {
        assert r == r0 && ks == ks0;
      }
      forall p | 0 <= p < |ks0|
        ensures r.dates[p] == files[ks[p]].date && Some(r.values[p]) == SampleAt(store[files[ks[p]].path], lat, lon)
      {
        assert ks[p] == ks0[p] && ks0[p] < n && pre[ks0[p]] == files[ks0[p]];
        assert r.dates[p] == r0.dates[p] && r.values[p] == r0.values[p];
      }
    }
  }

  /** The number of undefined entries: `np.isnan(series).sum()`. */
  function NanCount(s: seq<Option<real>>): (n: nat)
    ensures n <= |s|
    ensures n == 0 <==> forall k :: 0 <= k < |s| ==> s[k].Some?
    ensures n < |s| <==> HasDefined(s)
  {
    if |s| == 0 then 0
    else
      var rest := NanCount(s[..|s| - 1]);
      assert forall k :: 0 <= k < |s| - 1 ==> s[..|s| - 1][k] == s[k];
      rest + (if s[|s| - 1].None? then 1 else 0)
  }

  /** A series of plain values, every entry defined. */
  function Lift(xs: seq<real>): (r: seq<Option<real>>)
    ensures |r| == |xs| && forall k :: 0 <= k < |xs| ==> r[k] == Some(xs[k])
  {
    seq(|xs|, k requires 0 <= k < |xs| => Some(xs[k]))
  }

  /** The values of a series with no undefined entry. */
  function Values(s: seq<Option<real>>): (xs: seq<real>)
    requires forall k :: 0 <= k < |s| ==> s[k].Some?
    ensures Lift(xs) == s
  {
    seq(|s|, k requires 0 <= k < |s| => s[k].value)
  }

  /** `np.full_like(series, np.nan)`. */
  function AllNan(n: nat): (r: seq<Option<real>>)
    ensures |r| == n && NanCount(r) == n
  {
    if n == 0 then [] else
      var r := AllNan(n - 1) + [None];
      assert r[..n - 1] == AllNan(n - 1);
      r
  }

  /**
    The series after the NaN policy (`series`) and the filtered series, or
    `None` in the second place when the filter raises.
   */
  datatype Policy = Policy(filled: seq<Option<real>>, filtered: Option<seq<Option<real>>>)

  /**
    At most 90% undefined: fill the gaps (only when there are some), then
    filter; otherwise the filtered series is all NaN. The comparison
    `nan_count <= 0.9 * len` is taken in exact arithmetic.
   */
  function NanPolicy(s: seq<Option<real>>, filter: Filter): Policy
  {
    var n := NanCount(s);
    if 10 * n <= 9 * |s| then
      var filled := if n > 0 then Interpolated(s) else s;
      match filter(Values(filled))
      case None => Policy(filled, None)
      case Some(f) => Policy(filled, Some(Lift(f)))
    else Policy(s, Some(AllNan(|s|)))
  }

  /**
    The policy keeps defined entries and fills every gap when it filters; it
    leaves the series alone and blanks the filtered series exactly when more
    than 90% of it is undefined.
   */
  lemma NanPolicyCases(s: seq<Option<real>>, filter: Filter)
    ensures var p := NanPolicy(s, filter);
      |p.filled| == |s| && (forall k :: 0 <= k < |s| && s[k].Some? ==> p.filled[k] == s[k])
    ensures var p := NanPolicy(s, filter);
      10 * NanCount(s) <= 9 * |s| ==>
        (forall k :: 0 <= k < |s| ==> p.filled[k].Some?)
        && p.filtered == (match filter(Values(p.filled)) case None => None case Some(f) => Some(Lift(f)))
    ensures var p := NanPolicy(s, filter);
      10 * NanCount(s) > 9 * |s| ==> p.filled == s && p.filtered == Some(AllNan(|s|))
  {
  }

  /** A fully defined series goes to the filter unchanged. */
  lemma NanPolicyDefined(xs: seq<real>, filter: Filter)
    ensures NanPolicy(Lift(xs), filter).filled == Lift(xs)
    ensures NanPolicy(Lift(xs), filter).filtered ==
      (match filter(xs) case None => None case Some(f) => Some(Lift(f)))
  {
    assert NanCount(Lift(xs)) == 0;
    assert Values(Lift(xs)) == xs;
  }

  /**
    `process_grid_point(latitude, longitude, ...)` once it returns: no day
    gave a value (its NaN return), or the collected dates, the series after
    the NaN policy and the filtered series.
   */
  datatype PointResult =
    | NoData(lat: real, lon: real)
    | Extracted(lat: real, lon: real, dates: seq<int>, series: seq<Option<real>>, filtered: seq<Option<real>>)

  /**
    The outcome of `process_grid_point`, with its file written for an
    `Extracted` result. It fails when the filter raises, and when the filtered
    series does not have one entry per date (building the dataset to save
    then raises on the conflicting `time` sizes).
   */
  function ExtractPoint(lat: real, lon: real, files: seq<DateFile>, store: map<string, Snapshot>, filter: Filter): Result<PointResult>
    requires StoreHas(files, store)
  {
    var c := Collect(lat, lon, files, store);
    if |c.values| == 0 then Ok(NoData(lat, lon))
    else
      var p := NanPolicy(Lift(c.values), filter);
      match p.filtered
      case None => Failure("the band-pass filter raised")
      case Some(f) =>
        if |f| != |c.dates| then Failure("conflicting sizes for dimension 'time'")
        else Ok(Extracted(lat, lon, c.dates, p.filled, f))
  }

  /**
    What `process_grid_point` promises: no data exactly when no day gives a
    value; otherwise the dates are those of the kept days, the series is
    their values (never a NaN, so the filter always runs, on exactly those
    values), and a success has one filtered value per date.
   */
  lemma ExtractPointSpec(lat: real, lon: real, files: seq<DateFile>, store: map<string, Snapshot>, filter: Filter)
    requires StoreHas(files, store)
    ensures ExtractPoint(lat, lon, files, store, filter) == Ok(NoData(lat, lon)) <==>
      forall k :: 0 <= k < |files| ==> SampleAt(store[files[k].path], lat, lon).None?
    ensures var c := Collect(lat, lon, files, store);
      |c.values| > 0 ==>
        match ExtractPoint(lat, lon, files, store, filter)
        case Failure(_) => filter(c.values).None? || |filter(c.values).value| != |c.dates|
        case Ok(r) =>
          r.Extracted? && filter(c.values).Some? && r.dates == c.dates && r.series == Lift(c.values)
          && r.filtered == Lift(filter(c.values).value) && |r.filtered| == |r.dates| == |r.series|
  {
    var c := Collect(lat, lon, files, store);
    var ks := KeptDays(lat, lon, files, store);
    CollectIsKeptDays(lat, lon, files, store);
    if |c.values| > 0 {
      NanPolicyDefined(c.values, filter);
      assert Gives(lat, lon, files, store, ks[0]);
    } else {
      assert |ks| == 0;
    }
    if !forall k :: 0 <= k < |files| ==> SampleAt(store[files[k].path], lat, lon).None? {
      var k :| 0 <= k < |files| && SampleAt(store[files[k].path], lat, lon).Some?;
      KeptDaysComplete(lat, lon, files, store, k);
    }
  }

  /**
    The NaN policy on the series in place: count, fill the gaps when there are
    some and at most 90% of the series is undefined, then filter; otherwise
    the filtered series is all NaN.
   */
  method ApplyNanPolicy(series: array<Option<real>>, filter: Filter) returns (filtered: Option<seq<Option<real>>>)
    modifies series
    ensures Policy(series[..], filtered) == NanPolicy(old(series[..]), filter)
  {
    var nanCount := NanCount(series[..]);
    if 10 * nanCount <= 9 * series.Length {
      if nanCount > 0 {
        InterpolateNan(series);
      }
      match filter(Values(series[..]))
      case None => filtered := None;
      case Some(f) => filtered := Some(Lift(f));
    } else {
      filtered := Some(AllNan(series.Length));
    }
  }

  /** `process_grid_point`: the loop over the dated files, then the NaN policy, the filter and the save. */
  method ProcessGridPoint(lat: real, lon: real, files: seq<DateFile>, store: map<string, Snapshot>, filter: Filter)
    returns (r: Result<PointResult>)
    requires StoreHas(files, store)
    ensures r == ExtractPoint(lat, lon, files, store, filter)
  {
    var slaData: seq<real> := [];
    var dateList: seq<int> := [];
    for k := 0 to |files|
      invariant Samples(dateList, slaData) == Collect(lat, lon, files[..k], store)
    {
      assert files[..k + 1][..k] == files[..k];
      var snap := store[files[k].path];
      var latIdx := NearestIndex(snap.lats, lat);
      var lonIdx := NearestIndex(snap.lons, lon);
      var point := snap.sla[latIdx][lonIdx];
      if point.Some? {
        slaData := slaData + [point.value];
        dateList := dateList + [files[k].date];
      } else {
        point := FindNearestNonNan(snap, latIdx, lonIdx);
        if point.Some? {
          slaData := slaData + [point.value];
          dateList := dateList + [files[k].date];
        }
      }
    }
    assert files[..|files|] == files;
    if |slaData| == 0 {
      return Ok(NoData(lat, lon));
    }
    var series := new Option<real>[|slaData|](k requires 0 <= k < |slaData| => Some(slaData[k]));
    assert series[..] == Lift(slaData);
    var filtered := ApplyNanPolicy(series, filter);
    match filtered
    case None =>
      r := Failure("the band-pass filter raised");
    case Some(f) =>
      if |f| != |dateList| {
        r := Failure("conflicting sizes for dimension 'time'");
      } else {
        r := Ok(Extracted(lat, lon, dateList, series[..], f));
      }
  }

  /** `f"filtered_sla_lat_{lat:.2f}_lon_{lon:.2f}.nc"`: the name of a point's file. */
  function SaveFileName(lat: real, lon: real): (name: string)
    ensures StartsWith(name, "filtered_sla_lat_") && EndsWith(name, ".nc")
  {
    var name := "filtered_sla_lat_" + FormatFixed2(Round2(lat)) + "_lon_" + FormatFixed2(Round2(lon)) + ".nc";
    assert name[..17] == "filtered_sla_lat_";
    assert name[|name| - 3..] == ".nc";
    name
  }

  /** The contents of one point's file: its coordinates, time axis and both series. */
  datatype SavedSeries = SavedSeries(lat: real, lon: real, time: seq<int>, unfiltered: seq<Option<real>>, filtered: seq<Option<real>>)

  /** The file `save_to_netcdf` writes for a point, if it writes one. */
  function SavedFile(r: PointResult): (file: Option<(string, SavedSeries)>)
    ensures file.Some? <==> r.Extracted?
    ensures file.Some? ==>
      file.value.0 == SaveFileName(r.lat, r.lon) && file.value.1 == SavedSeries(r.lat, r.lon, r.dates, r.series, r.filtered)
  {
    match r
    case NoData(_, _) => None
    case Extracted(lat, lon, dates, series, filtered) =>
      Some((SaveFileName(lat, lon), SavedSeries(lat, lon, dates, series, filtered)))
  }

  // ---------------------------------------------------------------------
  // The dated file list of main
  // ---------------------------------------------------------------------

  /** `datetime(2023, 8, 29)` and `datetime(2023, 11, 30)`, the extraction window. */
  const WindowStart: int := ToOrdinal(2023, 8, 29)
  const WindowEnd: int := ToOrdinal(2023, 11, 30)

  /** `file_name.split('_')[-2]`; `None` where the index is out of range. */
  function DateField(name: string): (r: Option<string>)
    ensures r.Some? ==> |Split(name, "_")| >= 2 && r.value == Split(name, "_")[|Split(name, "_")| - 2]
    ensures r.None? ==> |Split(name, "_")| < 2
  {
    var parts := Split(name, "_");
    if |parts| < 2 then None else Some(parts[|parts| - 2])
  }

  /** The date of a snapshot file name; a failure where `split` or `strptime` raises. */
  function FileDate(name: string): Result<int>
  {
    match DateField(name)
    case None => Failure("list index out of range")
    case Some(field) =>
      match ParseYmd(field)
      case None => Failure("time data does not match format '%Y%m%d'")
      case Some(d) => Ok(d)
  }

  /** `name.split('_')[-2]` raises exactly when the name holds no '_'. */
  lemma DateFieldNone(name: string)
    ensures DateField(name).None? <==> Avoids(name, '_')
  {
    if Avoids(name, '_') {
      SplitWhole(name, "_");
    } else {
      var i :| 0 <= i < |name| && name[i] == '_';
      assert name == name[..i] + "_" + name[i + 1..];
      SplitAppend(name[..i], name[i + 1..], "_");
    }
  }

  /** In a name with one '_', the date field is the part before it. */
  lemma DateFieldOne(field: string, suffix: string)
    requires Avoids(field, '_') && Avoids(suffix, '_')
    ensures DateField(field + "_" + suffix) == Some(field)
  {
    SplitAppend(field, suffix, "_");
    SplitWhole(field, "_");
    SplitWhole(suffix, "_");
  }

  /** In `prefix_field_suffix`, with no '_' in field or suffix, the date field is field, whatever the prefix holds. */
  lemma DateFieldOf(prefix: string, field: string, suffix: string)
    requires Avoids(field, '_') && Avoids(suffix, '_')
    ensures DateField(prefix + "_" + field + "_" + suffix) == Some(field)
  {
    assert prefix + "_" + field + "_" + suffix == prefix + "_" + (field + "_" + suffix);
    SplitAppend(prefix, field + "_" + suffix, "_");
    SplitAppend(field, suffix, "_");
    SplitWhole(field, "_");
    SplitWhole(suffix, "_");
  }

  /** A snapshot named `prefix_YYYYMMDD_suffix` is dated by its YYYYMMDD field. */
  lemma FileDateOfName(prefix: string, y: nat, m: nat, d: nat, suffix: string)
    requires ValidDate(y, m, d) && y <= 9999 && Avoids(suffix, '_')
    ensures FileDate(prefix + "_" + YmdString(y, m, d) + "_" + suffix) == Ok(ToOrdinal(y, m, d))
  {
    var field := YmdString(y, m, d);
    assert Avoids(field, '_') by {
      forall i | 0 <= i < |field| ensures field[i] != '_' {
        assert IsDigit(field[i]);
      }
    }
    DateFieldOf(prefix, field, suffix);
    ParseYmdRoundTrip(y, m, d);
  }

  /** A name whose date field is not the YYYYMMDD spelling of a date makes `strptime` raise. */
  lemma FileDateRefuses(prefix: string, field: string, suffix: string)
    requires Avoids(field, '_') && Avoids(suffix, '_')
    requires forall y: nat, m: nat, d: nat :: ValidDate(y, m, d) && y <= 9999 ==> field != YmdString(y, m, d)
    ensures FileDate(prefix + "_" + field + "_" + suffix) == Failure("time data does not match format '%Y%m%d'")
  {
    DateFieldOf(prefix, field, suffix);
    if ParseYmd(field).Some? {
      ParseYmdOnlyDates(field);
    }
  }

  /** A listed name is a snapshot file of the window. */
  predicate Selected(name: string, start: int, end: int) {
    EndsWith(name, ".nc") && FileDate(name).Ok? && start <= FileDate(name).value <= end
  }

  /**
    The loop of `main` that builds `date_file_list`, before the sort: the
    `.nc` names of the listing whose date lies in the window, in listing
    order; it fails at the first `.nc` name whose date cannot be read.
   */
  function SelectDateFiles(listing: seq<string>, start: int, end: int): (r: Result<seq<DateFile>>)
    ensures r.Failure? <==> exists k :: 0 <= k < |listing| && EndsWith(listing[k], ".nc") && FileDate(listing[k]).Failure?
    ensures r.Ok? ==> forall f :: f in r.value <==> f.path in listing && Selected(f.path, start, end) && f.date == FileDate(f.path).value
  {
    if |listing| == 0 then Ok([])
    else
      var n := |listing| - 1;
      var name := listing[n];
      assert listing == listing[..n] + [name];
      match SelectDateFiles(listing[..n], start, end)
      case Failure(e) => Failure(e)
      case Ok(prev) =>
        if !EndsWith(name, ".nc") then Ok(prev)
        else
          match FileDate(name)
          case Failure(e) => Failure(e)
          case Ok(d) => if start <= d <= end then Ok(prev + [DateFile(d, name)]) else Ok(prev)
  }

  /** Once a prefix of the listing fails, so does the whole listing, with the same error. */
  lemma {:induction false} SelectFailureSticks(listing: seq<string>, k: nat, start: int, end: int)
    requires k <= |listing| && SelectDateFiles(listing[..k], start, end).Failure?
    ensures SelectDateFiles(listing, start, end) == SelectDateFiles(listing[..k], start, end)
    decreases |listing| - k
  {
    if k < |listing| {
      assert listing[..k + 1][..k] == listing[..k];
      SelectFailureSticks(listing, k + 1, start, end);
    } else {
      assert listing[..k] == listing;
    }
  }

  /** Python's order on `(file_date, file_path)` tuples. */
  predicate FileLeq(a: DateFile, b: DateFile) {
    a.date < b.date || (a.date == b.date && StrLeq(a.path, b.path))
  }

  lemma FileLeqTotal(a: DateFile, b: DateFile)
    ensures FileLeq(a, b) || FileLeq(b, a)
  {
    StrLeqTotal(a.path, b.path);
  }

  lemma FileLeqTrans(a: DateFile, b: DateFile, c: DateFile)
    requires FileLeq(a, b) && FileLeq(b, c)
    ensures FileLeq(a, c)
  {
    if a.date == b.date == c.date {
      StrLeqTrans(a.path, b.path, c.path);
    }
  }

  lemma FileLeqAntisym(a: DateFile, b: DateFile)
    requires FileLeq(a, b) && FileLeq(b, a)
    ensures a == b
  {
    StrLeqAntisym(a.path, b.path);
  }

  predicate SortedFiles(s: seq<DateFile>) {
    forall p, q :: 0 <= p < q < |s| ==> FileLeq(s[p], s[q])
  }

  /** The tail of a sorted list is sorted and holds the other entries. */
  lemma SortedTail(a: seq<DateFile>)
    requires SortedFiles(a) && |a| > 0
    ensures SortedFiles(a[1..]) && multiset(a[1..]) == multiset(a) - multiset{a[0]}
  {
    assert a == [a[0]] + a[1..];
    forall p, q | 0 <= p < q < |a| - 1 ensures FileLeq(a[1..][p], a[1..][q]) {
      assert a[1..][p] == a[p + 1] && a[1..][q] == a[q + 1];
    }
  }

  /** Two sorted lists of the same entries start with the same entry. */
  lemma SortedSameHead(a: seq<DateFile>, b: seq<DateFile>)
    requires SortedFiles(a) && SortedFiles(b) && multiset(a) == multiset(b) && |a| > 0 && |b| > 0
    ensures a[0] == b[0]
  {
    assert a[0] in multiset(b) && b[0] in multiset(a);
    var ka :| 0 <= ka < |b| && b[ka] == a[0];
    var kb :| 0 <= kb < |a| && a[kb] == b[0];
    if ka != 0 && kb != 0 {
      FileLeqAntisym(a[0], b[0]);
    }
  }

  /** Two sorted arrangements of the same entries are the same list: the order `sort()` produces is determined. */
  lemma {:induction false} SortedUnique(a: seq<DateFile>, b: seq<DateFile>)
    requires SortedFiles(a) && SortedFiles(b) && multiset(a) == multiset(b)
    ensures a == b
    decreases |a|
  {
    assert |a| == |multiset(a)| == |multiset(b)| == |b|;
    if |a| > 0 {
      SortedSameHead(a, b);
      SortedTail(a);
      SortedTail(b);
      SortedUnique(a[1..], b[1..]);
      assert a == [a[0]] + a[1..] && b == [b[0]] + b[1..];
    }
  }

  /** `date_file_list.sort()`: an insertion sort on the list. */
  method SortDateFiles(s: seq<DateFile>) returns (t: seq<DateFile>)
    ensures SortedFiles(t) && multiset(t) == multiset(s)
  {
    t := s;
    var i := 0;
    while i < |t|
      invariant 0 <= i <= |t| == |s|
      invariant multiset(t) == multiset(s)
      invariant forall p, q :: 0 <= p < q < i ==> FileLeq(t[p], t[q])
    {
      var j := i;
      while j > 0 && !FileLeq(t[j - 1], t[j])
        invariant 0 <= j <= i && |t| == |s|
        invariant multiset(t) == multiset(s)
        invariant forall p, q :: 0 <= p < q <= i && q != j ==> FileLeq(t[p], t[q])
      {
        FileLeqTotal(t[j - 1], t[j]);
        t := t[j - 1 := t[j]][j := t[j - 1]];
        j := j - 1;
      }
      forall p | 0 <= p < j ensures FileLeq(t[p], t[j]) {
        if p < j - 1 {
          FileLeqTrans(t[p], t[j - 1], t[j]);
        }
      }
      i := i + 1;
    }
  }

  /** The loop of `main` over `os.listdir(base_dir)`, then `date_file_list.sort()`. */
  method ListDateFiles(listing: seq<string>, start: int, end: int) returns (r: Result<seq<DateFile>>)
    ensures r.Failure? ==> r == SelectDateFiles(listing, start, end)
    ensures r.Ok? ==>
      && SelectDateFiles(listing, start, end).Ok?
      && SortedFiles(r.value)
      && multiset(r.value) == multiset(SelectDateFiles(listing, start, end).value)
  {
    var list: seq<DateFile> := [];
    for k := 0 to |listing|
      invariant SelectDateFiles(listing[..k], start, end) == Ok(list)
    {
      assert listing[..k + 1][..k] == listing[..k];
      var name := listing[k];
      if EndsWith(name, ".nc") {
        match FileDate(name)
        case Failure(e) =>
          SelectFailureSticks(listing, k + 1, start, end);
          return Failure(e);
        case Ok(d) =>
          if start <= d <= end {
            list := list + [DateFile(d, name)];
          }
      }
    }
    assert listing[..|listing|] == listing;
    var sorted := SortDateFiles(list);
    return Ok(sorted);
  }

  // ---------------------------------------------------------------------
  // main: the points submitted and the results gathered
  // ---------------------------------------------------------------------

  /** The test of `main` before submitting a point: the sample's cell nearest to it is defined. */
  predicate ReferenceDefined(sample: Snapshot, pt: (real, real))
    requires sample.Usable()
  {
    var c := NearestCell(sample, pt.0, pt.1);
    sample.sla[c.i][c.j].Some?
  }

  /** The points submitted to the pool, in submission order. */
  function Submitted(sample: Snapshot, pts: seq<(real, real)>): (sub: seq<(real, real)>)
    requires sample.Usable()
    ensures |sub| <= |pts|
    ensures forall x :: x in sub <==> x in pts && ReferenceDefined(sample, x)
  {
    if |pts| == 0 then []
    else
      var n := |pts| - 1;
      assert pts == pts[..n] + [pts[n]];
      Submitted(sample, pts[..n]) + (if ReferenceDefined(sample, pts[n]) then [pts[n]] else [])
  }

  /**
    `idx` lists, in increasing order, the positions of `pts` that `sub` takes
    its points from, and those are exactly the positions whose reference
    cell is defined.
   */
  predicate SubmittedFrom(sample: Snapshot, pts: seq<(real, real)>, sub: seq<(real, real)>, idx: seq<nat>)
    requires sample.Usable()
  {
    && |idx| == |sub|
    && (forall q :: 0 <= q < |idx| ==> idx[q] < |pts| && sub[q] == pts[idx[q]])
    && (forall q, q' :: 0 <= q < q' < |idx| ==> idx[q] < idx[q'])
    && (forall k :: 0 <= k < |pts| ==> (k in idx <==> ReferenceDefined(sample, pts[k])))
  }

  /** One more region point: the positions of the prefix, plus the last position when it is submitted. */
  lemma SubmittedFromStep(sample: Snapshot, pts: seq<(real, real)>, prev: seq<(real, real)>, idx0: seq<nat>)
    requires sample.Usable() && |pts| > 0
    requires SubmittedFrom(sample, pts[..|pts| - 1], prev, idx0)
    ensures var n := |pts| - 1;
      var add := ReferenceDefined(sample, pts[n]);
      SubmittedFrom(sample, pts, prev + (if add then [pts[n]] else []), idx0 + (if add then [n] else []))
  {
    var n := |pts| - 1;
    var add := ReferenceDefined(sample, pts[n]);
    var sub := prev + (if add then [pts[n]] else []);
    var idx := idx0 + (if add then [n] else []);
    forall q | 0 <= q < |idx| ensures idx[q] < |pts| && sub[q] == pts[idx[q]] {
      if q < |idx0| {
        assert idx[q] == idx0[q] && sub[q] == prev[q];
        assert pts[..n][idx0[q]] == pts[idx0[q]];
      }
    }
    forall q, q' | 0 <= q < q' < |idx| ensures idx[q] < idx[q'] {
      if q' < |idx0| {
        assert idx[q] == idx0[q] && idx[q'] == idx0[q'];
      } else {
        assert idx[q] == idx0[q] < n;
      }
    }
    forall k | 0 <= k < |pts| ensures k in idx <==> ReferenceDefined(sample, pts[k]) {
      if k < n {
        assert pts[..n][k] == pts[k];
        assert k in idx <==> k in idx0;
      } else {
        assert n !in idx0;
      }
    }
  }

  /**
    The submitted points are the region points whose reference cell is
    defined, in the order of the region points, each as often as it occurs
    there: the order in which `main` later waits on their results.
   */
  lemma {:induction false} SubmittedOrder(sample: Snapshot, pts: seq<(real, real)>)
    requires sample.Usable()
    ensures exists idx :: SubmittedFrom(sample, pts, Submitted(sample, pts), idx)
  {
    if |pts| == 0 {
      assert Submitted(sample, pts) == [];
      assert SubmittedFrom(sample, pts, Submitted(sample, pts), []);
    } else {
      var n := |pts| - 1;
      SubmittedOrder(sample, pts[..n]);
      var idx0 :| SubmittedFrom(sample, pts[..n], Submitted(sample, pts[..n]), idx0);
      SubmittedFromStep(sample, pts, Submitted(sample, pts[..n]), idx0);
      var add := ReferenceDefined(sample, pts[n]);
      assert Submitted(sample, pts) == Submitted(sample, pts[..n]) + (if add then [pts[n]] else []);
      assert SubmittedFrom(sample, pts, Submitted(sample, pts), idx0 + (if add then [n] else []));
    }
  }

  /** No value occurs twice on the axis. */
  predicate Distinct(axis: seq<real>) {
    forall m, n :: 0 <= m < n < |axis| ==> axis[m] != axis[n]
  }

  /**
    On a sample whose axes have no repeated value, a region point is submitted
    exactly when the sample's own cell at that point is defined.
   */
  lemma ReferenceDefinedAtCell(sample: Snapshot, vs: seq<Vertex>, p: nat)
    requires sample.Usable() && |vs| > 0 && Distinct(sample.lats) && Distinct(sample.lons)
    requires p < |SelectedCells(sample.lats, sample.lons, vs)|
    ensures var c, pts := SelectedCells(sample.lats, sample.lons, vs)[p], RegionPoints(sample.lats, sample.lons, vs);
      p < |pts| && (ReferenceDefined(sample, pts[p]) <==> sample.sla[c.i][c.j].Some?)
  {
    var c := SelectedCells(sample.lats, sample.lons, vs)[p];
    RegionPointsAreSelectedCells(sample.lats, sample.lons, vs);
    NearestIndexOfAxisValue(sample.lats, c.i);
    NearestIndexOfAxisValue(sample.lons, c.j);
  }

  /** The submission loop of `main`: the points whose nearest sample cell is defined, in order. */
  method SubmitPoints(sample: Snapshot, pts: seq<(real, real)>) returns (futures: seq<(real, real)>)
    requires sample.Usable()
    ensures futures == Submitted(sample, pts)
  {
    futures := [];
    for k := 0 to |pts|
      invariant futures == Submitted(sample, pts[..k])
    {
      assert pts[..k + 1][..k] == pts[..k];
      var latIdx := NearestIndex(sample.lats, pts[k].0);
      var lonIdx := NearestIndex(sample.lons, pts[k].1);
      if sample.sla[latIdx][lonIdx].Some? {
        futures := futures + [pts[k]];
      }
    }
    assert pts[..|pts|] == pts;
  }

  /** The loop over the futures: one `process_grid_point` outcome per submitted point, in submission order. */
  method GatherResults(futures: seq<(real, real)>, files: seq<DateFile>, store: map<string, Snapshot>, filter: Filter)
    returns (results: seq<Result<PointResult>>)
    requires StoreHas(files, store)
    ensures |results| == |futures|
    ensures forall k :: 0 <= k < |futures| ==> results[k] == ExtractPoint(futures[k].0, futures[k].1, files, store, filter)
  {
    results := [];
    for k := 0 to |futures|
      invariant |results| == k
      invariant forall m :: 0 <= m < k ==> results[m] == ExtractPoint(futures[m].0, futures[m].1, files, store, filter)
    {
      var r := ProcessGridPoint(futures[k].0, futures[k].1, files, store, filter);
      results := results + [r];
    }
  }

  /**
    `future.result()` taken in submission order: `main` raises the error of
    the first task that failed, if any.
   */
  function FirstFailure(results: seq<Result<PointResult>>): (e: Option<string>)
    ensures e.None? <==> forall k :: 0 <= k < |results| ==> results[k].Ok?
    ensures e.Some? ==>
      exists k :: 0 <= k < |results| && results[k] == Failure(e.value) && forall m :: 0 <= m < k ==> results[m].Ok?
  {
    if |results| == 0 then None
    else if results[0].Failure? then Some(results[0].error)
    else
      var rest := FirstFailure(results[1..]);
      assert forall k :: 1 <= k < |results| ==> results[k] == results[1..][k - 1];
      if rest.Some? then
        var k :| 0 <= k < |results[1..]| && results[1..][k] == Failure(rest.value)
          && forall m :: 0 <= m < k ==> results[1..][m].Ok?;
        assert results[k + 1] == Failure(rest.value);
        rest
      else rest
  }

  /** The first listed entry (the sample) and every listed `.nc` file open to a usable snapshot. */
  predicate ListingReadable(listing: seq<string>, store: map<string, Snapshot>) {
    forall k :: 0 <= k < |listing| && (k == 0 || EndsWith(listing[k], ".nc")) ==>
      listing[k] in store && store[listing[k]].Usable()
  }

  /** The sorted dated file list and the outcome of every submitted task. */
  datatype Run = Run(files: seq<DateFile>, results: seq<Result<PointResult>>)

  /**
    `main`: the region points of the sample's grid, the dated file list of
    the window, one task per submitted point. It fails when the directory is
    empty (there is no first entry to take as the sample) and when building
    the file list raises; the tasks' own failures are in `results`
    (`FirstFailure` says which one `main` re-raises).
   */
  method ExtractTimeSeries(listing: seq<string>, store: map<string, Snapshot>, vs: seq<Vertex>, filter: Filter)
    returns (r: Result<Run>)
    requires |vs| > 0 && ListingReadable(listing, store)
    ensures r.Failure? <==> |listing| == 0 || SelectDateFiles(listing, WindowStart, WindowEnd).Failure?
    ensures r.Ok? ==>
      |listing| > 0 &&
      var sample := store[listing[0]];
      var sub := Submitted(sample, RegionPoints(sample.lats, sample.lons, vs));
      && SortedFiles(r.value.files)
      && multiset(r.value.files) == multiset(SelectDateFiles(listing, WindowStart, WindowEnd).value)
      && StoreHas(r.value.files, store)
      && |r.value.results| == |sub|
      && forall k :: 0 <= k < |sub| ==>
        r.value.results[k] == ExtractPoint(sub[k].0, sub[k].1, r.value.files, store, filter)
  {
    if |listing| == 0 {
      return Failure("list index out of range");
    }
    var sample := store[listing[0]];
    var pts := RegionPoints(sample.lats, sample.lons, vs);
    var dated := ListDateFiles(listing, WindowStart, WindowEnd);
    match dated
    case Failure(e) =>
      r := Failure(e);
    case Ok(files) =>
      var all := SelectDateFiles(listing, WindowStart, WindowEnd).value;
      forall k | 0 <= k < |files| ensures files[k].path in store && store[files[k].path].Usable() {
        assert files[k] in multiset(all);
        assert files[k] in all;
      }
      var futures := SubmitPoints(sample, pts);
      var results := GatherResults(futures, files, store, filter);
      r := Ok(Run(files, results));
  }
}
