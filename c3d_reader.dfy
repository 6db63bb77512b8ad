/**
 * What the foreign `c3d` package hands to `read_c3d`, as plain data.
 *
 * The C3D container itself is parsed by that package; the decoder only sees
 * parameter groups, the point labels, the header's frame bounds and rates,
 * and the stream of frame records.  Each of those is an input value here.
 */
module C3dReader {
  import opened Wrappers

  newtype byte = x: int | 0 <= x < 256

  /** The first three columns (x, y, z) of one row of a frame's points array. */
  datatype Point = Point(x: real, y: real, z: real)

  /** Coordinate `axis` (0 = x, 1 = y, 2 = z) of a point. */
  function Coord(p: Point, axis: int): real
  {
    if axis == 0 then p.x else if axis == 1 then p.y else p.z
  }

  /**
   * One item of `read_frames()`: the frame number, one point per marker, and
   * the frame's analog samples flattened in the array's row-major order.
   */
  datatype Record = Record(frame: int, points: seq<Point>, analog: seq<real>)

  /**
   * One parameter of a group, seen through the views the decoder uses:
   * `dimensions`, `string_array` (None when decoding it raises
   * UnicodeDecodeError), the first element of `bytes_array`, and
   * `float_value` (None when the package cannot produce one).
   */
  datatype Param = Param(
    dimensions: seq<int>,
    text: Option<seq<string>>,
    firstBytes: seq<byte>,
    number: Option<real>)

  /** A parameter group: its parameters by name. */
  type Group = map<string, Param>

  /**
   * An opened reader.  `plateMidX` is the per-plate mean corner X that the
   * numpy reshape of FORCE_PLATFORM.CORNERS yields (None when that array does
   * not have three dimensions); the mean itself is floating-point work the
   * model does not redo.
   */
  datatype Reader = Reader(
    groups: map<string, Group>,
    pointLabels: seq<string>,
    firstFrame: int,
    lastFrame: int,
    pointRate: real,
    analogRate: real,
    plateMidX: Option<seq<real>>,
    records: seq<Record>)

  /** The file system's answer for a path: whether it exists, and the reader if it opens. */
  datatype Input = Input(fileExists: bool, reader: Option<Reader>)

  /** `reader.get(name)`: the group, or None when it is absent. */
  function GetGroup(r: Reader, name: string): Option<Group>
  {
    if name in r.groups then Some(r.groups[name]) else None
  }
}
