/**
 * What `get_map_patch` of rpi/nav.c puts in the frame buffer: the viewport
 * of `lcdWidth()` by `lcdHeight()` pixels, filled row by row from the map
 * raster rotated by the heading around the current position.
 *
 * The floating-point part is taken as given: `Geometry.rotate` is the
 * truncated rotation of a viewport offset through the sine and cosine
 * tables, and `Geometry.centre` is the raster pixel the position falls on
 * (the map resolution division). What is modelled is the buffer and bounds
 * structure around them.
 */
module NavPatch {
  import opened Wrappers
  import opened Arith
  import opened NmeaPosition

  const Black: bv16 := 0x0000

  /** Entries in each of the sine and cosine tables, indexed by the whole degrees of the heading. */
  const TableSize := 360

  /** `struct map_t` without the list link: one catalogued map and the corners it covers. */
  datatype MapRecord = MapRecord(
    fileName: string,
    height: int,
    width: int,
    tlLat: real,
    tlLong: real,
    brLat: real,
    brLong: real)

  /**
   * The viewport size and the two floating-point computations of
   * `get_map_patch`: `rotate(theta, xt, yt)` is the (u, v) offset of
   * viewport offset (xt, yt) at heading theta, and `centre(pos, map)` is
   * (roi_center_x, roi_center_y).
   */
  datatype Geometry = Geometry(
    width: nat,
    height: nat,
    rotate: (int, int, int) -> (int, int),
    centre: (Position, MapRecord) -> (int, int))

  /** The raster coordinates viewport cell (x, y) is taken from, for heading theta and centre c. */
  function Source(g: Geometry, theta: int, c: (int, int), x: int, y: int): (int, int)
  {
    var d := g.rotate(theta, x - g.width / 2, y - g.height / 2);
    (d.0 + c.0, d.1 + c.1)
  }

  /**
   * The index into the raster of map `m` that viewport cell (x, y) shows,
   * or None when its source lies outside the map (rpi/nav.c:1524-1527).
   */
  function Sample(g: Geometry, m: MapRecord, theta: int, c: (int, int), x: int, y: int): (r: Option<nat>)
    ensures r.Some? <==> 0 <= Source(g, theta, c, x, y).0 < m.width && 0 <= Source(g, theta, c, x, y).1 < m.height
    ensures r.Some? ==> r.value < Cells(m.width, m.height)
  {
    var (u, v) := Source(g, theta, c, x, y);
    if 0 <= u < m.width && 0 <= v < m.height then
      CellsBelow(u, v, m.width, m.height);
      Some(Cells(m.width, v) + u)
    else None
  }

  /** The sampled index is the row-major `v * width + u` of the source. */
  lemma {:induction false} SampleIndex(g: Geometry, m: MapRecord, theta: int, c: (int, int), x: int, y: int)
    requires Sample(g, m, theta, c, x, y).Some?
    ensures Sample(g, m, theta, c, x, y).value
      == Source(g, theta, c, x, y).1 * m.width + Source(g, theta, c, x, y).0
  {
    CellsProduct(m.width, Source(g, theta, c, x, y).1);
  }

  /** A raster that holds every pixel of map `m`, when there is one. */
  predicate Holds(image: Option<seq<bv16>>, m: MapRecord)
  {
    image.Some? ==> |image.value| >= Cells(m.width, m.height)
  }

  /** The colour viewport cell (x, y) gets: the sampled raster pixel, or black outside the map (or with no raster). */
  function Pixel(image: Option<seq<bv16>>, g: Geometry, m: MapRecord, theta: int, c: (int, int), x: int, y: int): bv16
    requires Holds(image, m)
  {
    match Sample(g, m, theta, c, x, y)
    case Some(k) => if image.Some? then image.value[k] else Black
    case None => Black
  }

  /** Row `y` of the viewport. */
  function PatchRow(image: Option<seq<bv16>>, g: Geometry, m: MapRecord, theta: int, c: (int, int), y: int): (row: seq<bv16>)
    requires Holds(image, m)
    ensures |row| == g.width
  {
    seq(g.width, x requires 0 <= x < g.width => Pixel(image, g, m, theta, c, x, y))
  }

  /** The first `rows` rows of the viewport, row after row. */
  function Patch(image: Option<seq<bv16>>, g: Geometry, m: MapRecord, theta: int, c: (int, int), rows: nat): (p: seq<bv16>)
    requires Holds(image, m)
    ensures |p| == Cells(g.width, rows)
  {
    if rows == 0 then []
    else Patch(image, g, m, theta, c, rows - 1) + PatchRow(image, g, m, theta, c, rows - 1)
  }

  /** Cell (x, y) of the viewport sits at index y * width + x of the patch (rpi/nav.c:1522). */
  lemma {:induction false} PatchAt(image: Option<seq<bv16>>, g: Geometry, m: MapRecord, theta: int, c: (int, int), rows: nat, x: nat, y: nat)
    requires Holds(image, m) && x < g.width && y < rows
    ensures y * g.width + x < |Patch(image, g, m, theta, c, rows)|
    ensures Patch(image, g, m, theta, c, rows)[y * g.width + x] == Pixel(image, g, m, theta, c, x, y)
    decreases rows
  {
    CellsProduct(g.width, y);
    CellsBelow(x, y, g.width, rows);
    if y < rows - 1 {
      PatchAt(image, g, m, theta, c, rows - 1, x, y);
      CellsBelow(x, y, g.width, rows - 1);
    }
  }

  /** Some viewport cell's source lies inside map `m`, so the raster is read. */
  predicate Reaches(g: Geometry, m: MapRecord, theta: int, c: (int, int))
  {
    exists x, y :: 0 <= x < g.width && 0 <= y < g.height && Sample(g, m, theta, c, x, y).Some?
  }

  /** With no raster every viewport cell is black: what the frame holds after a rasterless call that does not fault. */
  lemma {:induction false} RasterlessPatchIsBlack(g: Geometry, m: MapRecord, theta: int, c: (int, int), rows: nat, k: nat)
    requires k < |Patch(None, g, m, theta, c, rows)|
    ensures Patch(None, g, m, theta, c, rows)[k] == Black
    decreases rows
  {
    if rows > 0 && k < |Patch(None, g, m, theta, c, rows - 1)| {
      RasterlessPatchIsBlack(g, m, theta, c, rows - 1, k);
    }
  }

  /** No viewport cell before cell (x, y), counting row by row, has its source inside the map. */
  ghost predicate MissesBefore(g: Geometry, m: MapRecord, theta: int, c: (int, int), x: int, y: int)
  {
    forall i, j :: 0 <= j <= y && 0 <= i < g.width && (j < y || i < x) ==> Sample(g, m, theta, c, i, j).None?
  }

  /** A viewport none of whose rows reaches the map does not reach it. */
  lemma {:induction false} MissesAll(g: Geometry, m: MapRecord, theta: int, c: (int, int))
    requires MissesBefore(g, m, theta, c, 0, g.height)
    ensures !Reaches(g, m, theta, c)
  {
  }

  /** A whole row that misses the map moves the count on to the next row. */
  lemma {:induction false} MissesRow(g: Geometry, m: MapRecord, theta: int, c: (int, int), y: int)
    requires MissesBefore(g, m, theta, c, 0, y)
    requires forall x :: 0 <= x < g.width ==> Sample(g, m, theta, c, x, y).None?
    ensures MissesBefore(g, m, theta, c, 0, y + 1)
  {
  }
}
