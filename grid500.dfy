/** The 500 m upscaling of the 100 m grid: each 100 m cell centroid is
    floor-divided into a 500 m cell, the distinct 500 m cells are given their
    +250 centre and their 500 × 500 box, and the weather-API grid points
    falling inside the area's bounds are picked out. Centroids and the
    reprojection to longitude/latitude are geometry and are taken as input
    (coordinates and a `project` function). */
module Grid500 {
  import opened Tables

  const CellSize: real := 500.0
  const HalfCell: real := 250.0

  /** `centroid // 500` (floor division of a float) as an integer index: the
      500 m band that holds c. */
  function GridIndex(c: real): (k: int)
    ensures k as real * CellSize <= c < (k + 1) as real * CellSize
  {
    var k := (c / CellSize).Floor;
    ScaleBand(c, k);
    k
  }

  /** k <= c / 500 < k + 1 is the same as 500k <= c < 500(k + 1). */
  lemma ScaleBand(c: real, k: int)
    ensures k as real <= c / CellSize < (k + 1) as real
            <==> k as real * CellSize <= c < (k + 1) as real * CellSize
  {
    var q := c / CellSize;
    assert c == q * CellSize;
  }

  /** The band is determined by the interval: any k with
      500k <= c < 500(k + 1) is the index. */
  lemma IndexUnique(c: real, k: int)
    requires k as real * CellSize <= c < (k + 1) as real * CellSize
    ensures GridIndex(c) == k
  {
    var g := GridIndex(c);
    assert g as real * CellSize <= c < (g + 1) as real * CellSize;
  }

  /** `(centroid // 500) * 500`: the lower-left corner coordinate of the
      500 m cell, a multiple of 500 at or below c and less than 500 below it,
      and the same as the index times 500 that the comparison script uses. */
  function Snap(c: real): (g: real)
    ensures g <= c < g + CellSize
    ensures g == GridIndex(c) as real * CellSize
  {
    (c / CellSize).Floor as real * CellSize
  }

  /** Snapping a corner again leaves it where it is. */
  lemma SnapIdempotent(c: real)
    ensures Snap(Snap(c)) == Snap(c)
  {
    var k := GridIndex(c);
    IndexUnique(Snap(c), k);
  }

  /** Two coordinates fall into the same 500 m band exactly when the second
      lies in the first one's [corner, corner + 500). */
  lemma SameBandIff(a: real, b: real)
    ensures GridIndex(a) == GridIndex(b) <==> Snap(a) <= b < Snap(a) + CellSize
  {
    if Snap(a) <= b < Snap(a) + CellSize {
      IndexUnique(b, GridIndex(a));
    }
  }

  /** Snapping never reverses the order of two coordinates. */
  lemma IndexMonotone(a: real, b: real)
    requires a <= b
    ensures GridIndex(a) <= GridIndex(b)
  {
    var ka, kb := GridIndex(a), GridIndex(b);
    assert ka as real * CellSize <= a && b < (kb + 1) as real * CellSize;
  }

  /** A 100 m cell, reduced to its centroid. */
  datatype Centroid = Centroid(x: real, y: real)

  /** The 500 m corner pair (grid_x, grid_y) of a 100 m cell. */
  function Corner(c: Centroid): (r: (real, real))
    ensures r.0 <= c.x < r.0 + CellSize && r.1 <= c.y < r.1 + CellSize
  {
    (Snap(c.x), Snap(c.y))
  }

  /** The (grid_x, grid_y) index pair of the comparison script, by which the
      cells are dissolved. */
  function IndexKey(c: Centroid): (int, int) {
    (GridIndex(c.x), GridIndex(c.y))
  }

  /** Two 100 m cells are dissolved into one 500 m cell exactly when they
      have the same corner, i.e. both lie in the same 500 × 500 square. */
  lemma SameCellIff(a: Centroid, b: Centroid)
    ensures IndexKey(a) == IndexKey(b) <==> Corner(a) == Corner(b)
    ensures IndexKey(a) == IndexKey(b) <==>
      (Corner(a).0 <= b.x < Corner(a).0 + CellSize && Corner(a).1 <= b.y < Corner(a).1 + CellSize)
  {
    SameBandIff(a.x, b.x);
    SameBandIff(a.y, b.y);
  }

  function Corners(cells: seq<Centroid>): (r: seq<(real, real)>)
    ensures |r| == |cells| && forall i :: 0 <= i < |r| ==> r[i] == Corner(cells[i])
  {
    seq(|cells|, i requires 0 <= i < |cells| => Corner(cells[i]))
  }

  /** `grid_df = gdf_100m[['grid_x', 'grid_y']].drop_duplicates()`: each corner
      pair once, in first-appearance order; a pair is listed exactly when some
      100 m cell has it. */
  function GridCorners(cells: seq<Centroid>): (r: seq<(real, real)>)
    ensures NoDups(r)
    ensures forall p :: p in r <==> exists i :: 0 <= i < |cells| && Corner(cells[i]) == p
    ensures forall p :: p in r ==> p in Corners(cells)
    ensures forall i, j :: 0 <= i < j < |r| ==> IndexOf(Corners(cells), r[i]) < IndexOf(Corners(cells), r[j])
  {
    var cs := Corners(cells);
    var r := Distinct(cs);
    forall p | p in r ensures exists i :: 0 <= i < |cells| && Corner(cells[i]) == p {
      var i :| 0 <= i < |cs| && cs[i] == p;
    }
    forall i | 0 <= i < |cells| ensures Corner(cells[i]) in r {
      assert cs[i] in cs;
    }
    r
  }

  /** A box [minX, maxX] × [minY, maxY]. */
  datatype Box = Box(minX: real, minY: real, maxX: real, maxY: real)

  /** A row of the 500 m frame: corner, centre and polygon. */
  datatype Cell500 = Cell500(gridX: real, gridY: real, centroidX: real, centroidY: real, geometry: Box)

  /** The centre (corner + 250) and box (corner to corner + 500) of a 500 m
      cell. */
  function MakeCell(corner: (real, real)): (r: Cell500)
    ensures r.gridX == corner.0 && r.gridY == corner.1
    ensures r.geometry.minX < r.centroidX < r.geometry.maxX && r.geometry.minY < r.centroidY < r.geometry.maxY
    ensures r.geometry.maxX - r.geometry.minX == CellSize && r.geometry.maxY - r.geometry.minY == CellSize
    ensures r.centroidX == (r.geometry.minX + r.geometry.maxX) / 2.0 && r.centroidY == (r.geometry.minY + r.geometry.maxY) / 2.0
  {
    var (gx, gy) := corner;
    Cell500(gx, gy, gx + HalfCell, gy + HalfCell, Box(gx, gy, gx + CellSize, gy + CellSize))
  }

  /** The centre of a cell snaps back to its own corner, so each centre lies
      in the cell it names. */
  lemma CentreSnapsToCorner(c: real)
    ensures Snap(Snap(c) + HalfCell) == Snap(c)
  {
    IndexUnique(Snap(c) + HalfCell, GridIndex(c));
  }

  /** The 500 m frame: one cell per distinct corner, in order. */
  function Grid(cells: seq<Centroid>): (r: seq<Cell500>)
    ensures |r| == |GridCorners(cells)|
    ensures forall k :: 0 <= k < |r| ==> r[k] == MakeCell(GridCorners(cells)[k])
  {
    var corners := GridCorners(cells);
    seq(|corners|, k requires 0 <= k < |corners| => MakeCell(corners[k]))
  }

  /** Every 100 m cell lies in exactly one 500 m cell of the frame. */
  lemma EveryCellCovered(cells: seq<Centroid>, i: int)
    requires 0 <= i < |cells|
    ensures exists k :: 0 <= k < |Grid(cells)| && Grid(cells)[k].gridX <= cells[i].x < Grid(cells)[k].gridX + CellSize
                                              && Grid(cells)[k].gridY <= cells[i].y < Grid(cells)[k].gridY + CellSize
    ensures forall k, l :: 0 <= k < l < |Grid(cells)| ==>
              (Grid(cells)[k].gridX, Grid(cells)[k].gridY) != (Grid(cells)[l].gridX, Grid(cells)[l].gridY)
  {
    var corners := GridCorners(cells);
    assert Corner(cells[i]) in corners;
    var k :| 0 <= k < |corners| && corners[k] == Corner(cells[i]);
    assert Grid(cells)[k].gridX == corners[k].0;
  }

  /** A row of `500m_grid_centroids.csv`: the corner in projected units, the
      centre in longitude/latitude. */
  datatype CentroidRow = CentroidRow(gridX: real, gridY: real, lon: real, lat: real)

  /** The export: grid_x/grid_y are written as computed (projected metres);
      only lon/lat come from the reprojected centre. */
  function Export(grid: seq<Cell500>, project: (real, real) -> (real, real)): (r: seq<CentroidRow>)
    ensures |r| == |grid|
    ensures forall k :: 0 <= k < |r| ==>
      r[k].gridX == grid[k].gridX && r[k].gridY == grid[k].gridY
      && (r[k].lon, r[k].lat) == project(grid[k].centroidX, grid[k].centroidY)
  {
    seq(|grid|, k requires 0 <= k < |grid| =>
      var ll := project(grid[k].centroidX, grid[k].centroidY);
      CentroidRow(grid[k].gridX, grid[k].gridY, ll.0, ll.1))
  }

  // The API grid of the comparison script: two 2-D arrays of equal shape.

  predicate SameShape(lon: seq<seq<real>>, lat: seq<seq<real>>) {
    |lon| == |lat| && forall i :: 0 <= i < |lon| ==> |lon[i]| == |lat[i]|
  }

  /** The mask: all four bounds inclusive. */
  predicate InBounds(b: Box, lon: real, lat: real) {
    b.minX <= lon <= b.maxX && b.minY <= lat <= b.maxY
  }

  predicate Before(p: (int, int), q: (int, int)) {
    p.0 < q.0 || (p.0 == q.0 && p.1 < q.1)
  }

  /** The masked positions of row i among its first j columns, in column
      order. */
  function RowMask(lonRow: seq<real>, latRow: seq<real>, b: Box, i: int, j: int): (r: seq<(int, int)>)
    requires 0 <= j <= |lonRow| && |lonRow| == |latRow|
    ensures forall p :: p in r <==> p.0 == i && 0 <= p.1 < j && InBounds(b, lonRow[p.1], latRow[p.1])
    ensures forall a, c :: 0 <= a < c < |r| ==> Before(r[a], r[c])
  {
    if j == 0 then []
    else
      var init := RowMask(lonRow, latRow, b, i, j - 1);
      if InBounds(b, lonRow[j - 1], latRow[j - 1]) then init + [(i, j - 1)] else init
  }

  /** `np.where(mask)` over the first n rows: the masked (i, j) positions in
      row-major order, each once. */
  function MaskIndices(lon: seq<seq<real>>, lat: seq<seq<real>>, b: Box, n: int): (r: seq<(int, int)>)
    requires SameShape(lon, lat) && 0 <= n <= |lon|
    ensures forall p :: p in r <==> 0 <= p.0 < n && 0 <= p.1 < |lon[p.0]| && InBounds(b, lon[p.0][p.1], lat[p.0][p.1])
    ensures forall a, c :: 0 <= a < c < |r| ==> Before(r[a], r[c])
  {
    if n == 0 then []
    else
      var init := MaskIndices(lon, lat, b, n - 1);
      var row := RowMask(lon[n - 1], lat[n - 1], b, n - 1, |lon[n - 1]|);
      var r := init + row;
      forall a, c | 0 <= a < c < |r| ensures Before(r[a], r[c]) {
        if a < |init| && c >= |init| {
          assert r[a] in init && r[c] in row;
        }
      }
      r
  }

  /** An API grid point. */
  datatype ApiPoint = ApiPoint(lon: real, lat: real)

  /** `np.where(mask)` and the loop appending one point per masked (i, j): a
      point per masked position, in row-major order, each inside the bounds,
      and every grid point inside the bounds among them. */
  method ApiPointsInRegion(lon: seq<seq<real>>, lat: seq<seq<real>>, b: Box) returns (points: seq<ApiPoint>)
    requires SameShape(lon, lat)
    ensures |points| == |MaskIndices(lon, lat, b, |lon|)|
    ensures forall k :: 0 <= k < |points| ==>
      var (i, j) := MaskIndices(lon, lat, b, |lon|)[k];
      0 <= i < |lon| && 0 <= j < |lon[i]| && points[k] == ApiPoint(lon[i][j], lat[i][j])
    ensures forall k :: 0 <= k < |points| ==> InBounds(b, points[k].lon, points[k].lat)
    ensures forall i, j :: 0 <= i < |lon| && 0 <= j < |lon[i]| && InBounds(b, lon[i][j], lat[i][j]) ==>
      ApiPoint(lon[i][j], lat[i][j]) in points
  {
    var indices := MaskIndices(lon, lat, b, |lon|);
    points := [];
    var k := 0;
    while k < |indices|
      invariant 0 <= k <= |indices| && |points| == k
      invariant forall m :: 0 <= m < k ==>
        var (i, j) := indices[m];
        0 <= i < |lon| && 0 <= j < |lon[i]| && points[m] == ApiPoint(lon[i][j], lat[i][j])
    {
      assert indices[k] in indices;
      var (i, j) := indices[k];
      points := points + [ApiPoint(lon[i][j], lat[i][j])];
      k := k + 1;
    }
    forall m | 0 <= m < |points| ensures InBounds(b, points[m].lon, points[m].lat) {
      assert indices[m] in indices;
    }
    forall i, j | 0 <= i < |lon| && 0 <= j < |lon[i]| && InBounds(b, lon[i][j], lat[i][j])
      ensures ApiPoint(lon[i][j], lat[i][j]) in points
    {
      assert (i, j) in indices;
      var m :| 0 <= m < |indices| && indices[m] == (i, j);
      assert points[m] == ApiPoint(lon[i][j], lat[i][j]);
    }
  }
}
