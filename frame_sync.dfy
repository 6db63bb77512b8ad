/**
 * The frame synchroniser of read_c3d (lines 101-115): the frequency ratio,
 * the boundary table that splits analog rows among mocap frames, and the
 * single forward pass that fills the two preallocated buffers.
 */
module FrameSync {
  import opened Wrappers
  import opened C3dReader
  import opened Outputs

  /** Python's `int()` of a float: truncation toward zero. */
  function Trunc(q: real): (n: int)
    ensures q >= 0.0 ==> 0 <= n && n as real <= q < n as real + 1.0
    ensures q < 0.0 ==> n <= 0 && n as real - 1.0 < q <= n as real
  {
    if q >= 0.0 then q.Floor else -((-q).Floor)
  }

  /** Line 101: `int(FP_RATE / CAMERA_RATE)`. */
  function FrequencyRatio(fpRate: real, cameraRate: real): int
    requires cameraRate != 0.0
  {
    Trunc(fpRate / cameraRate)
  }

  /** Line 105: `int(frames * (FP_RATE / CAMERA_RATE))`, the analog buffer's row count. */
  function ForceFrameCount(frames: int, fpRate: real, cameraRate: real): int
    requires cameraRate != 0.0
  {
    Trunc(frames as real * (fpRate / cameraRate))
  }

  /** When the analog rate is an exact multiple of the camera rate, both counts are exact. */
  lemma ExactRatio(frames: nat, fpRate: real, cameraRate: real, ratio: nat)
    requires cameraRate != 0.0 && fpRate == cameraRate * ratio as real
    ensures FrequencyRatio(fpRate, cameraRate) == ratio
    ensures ForceFrameCount(frames, fpRate, cameraRate) == frames * ratio
  {
    assert fpRate / cameraRate == ratio as real;
    assert frames as real * (fpRate / cameraRate) == (frames * ratio) as real;
  }

  /**
   * Line 107: `[int(x) for x in np.linspace(0, forceFrames, num=frames + 1)]`,
   * point i being i * forceFrames / frames truncated (the points are never
   * negative, so truncation is the floor); a single point 0 when frames is 0.
   */
  function Boundaries(frames: nat, forceFrames: nat): (b: seq<int>)
    ensures |b| == frames + 1
  {
    seq(frames + 1, i requires 0 <= i <= frames => Quotient(i * forceFrames, frames))
  }

  /** The floor of a / d for naturals, by repeated subtraction; 0 when d is 0. */
  function Quotient(a: nat, d: nat): nat
    decreases a
  {
    if d == 0 || a < d then 0 else 1 + Quotient(a - d, d)
  }

  lemma {:induction false} QuotientIsDiv(a: nat, d: nat)
    requires d > 0
    ensures Quotient(a, d) == a / d
    decreases a
  {
    if a >= d {
      QuotientIsDiv(a - d, d);
      var q, r := (a - d) / d, (a - d) % d;
      assert a == (q + 1) * d + r;
      DivUnique(a, d, q + 1, r);
    } else {
      DivUnique(a, d, 0, a);
    }
  }

  /** Boundary i as a quotient. */
  lemma BoundaryValue(frames: nat, forceFrames: nat, i: int)
    requires 0 <= i <= frames
    ensures Boundaries(frames, forceFrames)[i] == if frames == 0 then 0 else i * forceFrames / frames
  {
    MulNonneg(i, forceFrames);
    if frames > 0 {
      QuotientIsDiv(i * forceFrames, frames);
    }
  }

  /**
   * A table of frames + 1 row boundaries: frame k owns the analog rows
   * [b[k], b[k + 1]).
   */
  predicate IsBoundaryTable(b: seq<int>, frames: nat, forceFrames: int)
  {
    && |b| == frames + 1
    && b[0] == 0
    && b[frames] == forceFrames
    && forall i, j :: 0 <= i <= j <= frames ==> b[i] <= b[j]
  }

  lemma {:induction false} MulNonneg(e: int, d: int)
    ensures e >= 0 && d >= 0 ==> e * d >= 0
    decreases if e > 0 then e else 0
  {
    if e > 0 && d >= 0 {
      MulNonneg(e - 1, d);
      assert e * d == (e - 1) * d + d;
    }
  }

  lemma MulGap(p: int, q: int, d: int)
    ensures p >= q + 1 && d > 0 ==> p * d >= q * d + d
  {
    MulNonneg(p - q - 1, d);
    assert p * d == q * d + (p - q - 1) * d + d;
  }

  /** Euclidean division is determined by a quotient and a remainder in [0, d). */
  lemma DivUnique(x: int, d: int, q: int, r: int)
    requires d > 0 && 0 <= r < d && x == q * d + r
    ensures x / d == q && x % d == r
  {
    var q0, r0 := x / d, x % d;
    assert x == q0 * d + r0;
    MulGap(q, q0, d);
    MulGap(q0, q, d);
    assert q == q0;
  }

  lemma DivMonotone(a: int, c: int, d: int)
    requires a <= c && d > 0
    ensures a / d <= c / d
  {
    var qa, ra := a / d, a % d;
    var qc, rc := c / d, c % d;
    assert a == qa * d + ra && c == qc * d + rc;
    MulGap(qa, qc, d);
  }

  /**
   * The boundary table starts at 0, ends at forceFrames and never decreases
   * (with no frames, linspace gives the single entry 0, and the code then
   * always has forceFrames = 0).
   */
  lemma BoundariesValid(frames: nat, forceFrames: nat)
    requires frames == 0 ==> forceFrames == 0
    ensures IsBoundaryTable(Boundaries(frames, forceFrames), frames, forceFrames)
  {
    var b := Boundaries(frames, forceFrames);
    BoundaryValue(frames, forceFrames, 0);
    BoundaryValue(frames, forceFrames, frames);
    if frames > 0 {
      DivUnique(frames * forceFrames, frames, forceFrames, 0);
      forall i, j | 0 <= i <= j <= frames ensures b[i] <= b[j] {
        BoundaryValue(frames, forceFrames, i);
        BoundaryValue(frames, forceFrames, j);
        MulOrder(i, j, forceFrames);
        DivMonotone(i * forceFrames, j * forceFrames, frames);
      }
    }
  }

  /** When forceFrames = frames × ratio, boundary i is i × ratio. */
  lemma BoundariesEven(frames: nat, ratio: nat)
    ensures forall i :: 0 <= i <= frames ==> Boundaries(frames, frames * ratio)[i] == i * ratio
  {
    var b := Boundaries(frames, frames * ratio);
    forall i | 0 <= i <= frames ensures b[i] == i * ratio {
      BoundaryValue(frames, frames * ratio, i);
      if frames > 0 {
        assert i * (frames * ratio) == (i * ratio) * frames;
        DivUnique(i * (frames * ratio), frames, i * ratio, 0);
      }
    }
  }

  /**
   * Frames never own more than one row above or below the even share:
   * every gap is forceFrames / frames or one more.
   */
  lemma BoundariesSpread(frames: nat, forceFrames: nat)
    requires frames > 0
    ensures forall i :: 0 <= i < frames ==>
              Boundaries(frames, forceFrames)[i + 1] - Boundaries(frames, forceFrames)[i] in
                {forceFrames / frames, forceFrames / frames + 1}
  {
    var b := Boundaries(frames, forceFrames);
    forall i | 0 <= i < frames
      ensures b[i + 1] - b[i] in {forceFrames / frames, forceFrames / frames + 1}
    {
      BoundaryValue(frames, forceFrames, i);
      BoundaryValue(frames, forceFrames, i + 1);
      assert (i + 1) * forceFrames == i * forceFrames + forceFrames;
      DivStep(i * forceFrames, forceFrames, frames);
    }
  }

  /** Adding f to a raises a / d by f / d or by one more. */
  lemma DivStep(a: int, f: int, d: int)
    requires d > 0
    ensures (a + f) / d - a / d == f / d || (a + f) / d - a / d == f / d + 1
  {
    var qa, ra := a / d, a % d;
    var qf, rf := f / d, f % d;
    assert a + f == (qa + qf) * d + (ra + rf);
    if ra + rf < d {
      DivUnique(a + f, d, qa + qf, ra + rf);
    } else {
      assert a + f == (qa + qf + 1) * d + (ra + rf - d);
      DivUnique(a + f, d, qa + qf + 1, ra + rf - d);
    }
  }

  /** Line 110: a record is decoded only when first_frame <= frame <= last_frame. */
  predicate InBounds(rec: Record, first: int, last: int)
  {
    first <= rec.frame <= last
  }

  /** The stream positions of the in-bounds records, increasing: every in-bounds position and no other. */
  function KeptPositions(records: seq<Record>, first: int, last: int): (p: seq<nat>)
    ensures forall k :: 0 <= k < |p| ==> p[k] < |records| && InBounds(records[p[k]], first, last)
    ensures forall k, k' :: 0 <= k < k' < |p| ==> p[k] < p[k']
    ensures forall i :: 0 <= i < |records| && InBounds(records[i], first, last) ==> i in p
    decreases |records|
  {
    if records == [] then []
    else
      var n := |records| - 1;
      KeptPositions(records[..n], first, last) + (if InBounds(records[n], first, last) then [n] else [])
  }

  /**
   * The records the loop decodes, in stream order (KeptInOrder); the others
   * are skipped by `continue`.
   */
  function Kept(records: seq<Record>, first: int, last: int): (kept: seq<Record>)
    ensures |kept| <= |records|
    decreases |records|
  {
    if records == [] then []
    else
      var n := |records| - 1;
      var rec := records[n];
      Kept(records[..n], first, last) + (if InBounds(rec, first, last) then [rec] else [])
  }

  /** Decoded record k is the record at the k-th in-bounds position of the stream. */
  lemma {:induction false} KeptInOrder(records: seq<Record>, first: int, last: int)
    ensures |Kept(records, first, last)| == |KeptPositions(records, first, last)|
    ensures forall k :: 0 <= k < |Kept(records, first, last)| ==>
              Kept(records, first, last)[k] == records[KeptPositions(records, first, last)[k]]
    decreases |records|
  {
    if records != [] {
      var n := |records| - 1;
      KeptInOrder(records[..n], first, last);
    }
  }

  /** Filtering distributes over concatenation of record streams. */
  lemma {:induction false} KeptAppend(a: seq<Record>, b: seq<Record>, first: int, last: int)
    ensures Kept(a + b, first, last) == Kept(a, first, last) + Kept(b, first, last)
    decreases |b|
  {
    if b != [] {
      var init := b[..|b| - 1];
      assert (a + b)[..|a + b| - 1] == a + init;
      var rec := b[|b| - 1];
      assert (a + b)[|a + b| - 1] == rec;
      var tail := if InBounds(rec, first, last) then [rec] else [];
      assert Kept(a + b, first, last) == Kept(a + init, first, last) + tail;
      assert Kept(b, first, last) == Kept(init, first, last) + tail;
      KeptAppend(a, init, first, last);
    } else {
      assert a + b == a;
    }
  }

  /** Every decoded record is in bounds, and every in-bounds record is decoded. */
  lemma {:induction false} KeptMembers(records: seq<Record>, first: int, last: int)
    ensures forall rec :: rec in Kept(records, first, last) <==> rec in records && InBounds(rec, first, last)
    decreases |records|
  {
    if records != [] {
      KeptMembers(records[..|records| - 1], first, last);
      assert records == records[..|records| - 1] + [records[|records| - 1]];
    }
  }

  /** Line 112: column c of mocap row k holds coordinate c % 3 of marker c / 3. */
  function MocapCell(rec: Record, c: int): real
  {
    if 0 <= c && c / 3 < |rec.points| then Coord(rec.points[c / 3], c % 3) else 0.0
  }

  /**
   * Lines 113-114: row r, column c of `np.array(analog).reshape(ratio, n)`;
   * a single row (ratio 1) is broadcast to every row of the slice.
   */
  function AnalogCell(rec: Record, ratio: int, n: int, r: int, c: int): real
  {
    var idx := (if ratio == 1 then 0 else r) * n + c;
    if 0 <= idx < |rec.analog| then rec.analog[idx] else 0.0
  }

  function OwnerFrom(b: seq<int>, j: int, k: nat): (o: nat)
    requires k < |b|
    ensures o <= k
    decreases k
  {
    if k == 0 || b[k] <= j then k else OwnerFrom(b, j, k - 1)
  }

  /** The frame whose slice holds analog row j: the last k < frames with b[k] <= j. */
  function Owner(b: seq<int>, j: int): nat
  {
    if |b| < 2 then 0 else OwnerFrom(b, j, |b| - 2)
  }

  /** OwnerFrom(b, j, k) is the last position at most k whose boundary is at most j, or 0. */
  lemma {:induction false} OwnerFromIsLast(b: seq<int>, j: int, k: nat)
    requires k < |b|
    ensures OwnerFrom(b, j, k) == 0 || b[OwnerFrom(b, j, k)] <= j
    ensures forall i :: OwnerFrom(b, j, k) < i <= k ==> j < b[i]
    decreases k
  {
    if k > 0 && b[k] > j {
      OwnerFromIsLast(b, j, k - 1);
    }
  }

  /** Owner(b, j) is the last frame k < |b| - 1 with b[k] <= j, or frame 0 when there is none. */
  lemma OwnerIsLast(b: seq<int>, j: int)
    requires |b| >= 2
    ensures Owner(b, j) < |b| - 1
    ensures Owner(b, j) == 0 || b[Owner(b, j)] <= j
    ensures forall i :: Owner(b, j) < i < |b| - 1 ==> j < b[i]
  {
    OwnerFromIsLast(b, j, |b| - 2);
  }

  lemma {:induction false} OwnerFromBounds(b: seq<int>, frames: nat, forceFrames: int, j: int, k: nat)
    requires IsBoundaryTable(b, frames, forceFrames) && 0 <= j
    requires k < frames && j < b[k + 1]
    ensures OwnerFrom(b, j, k) < frames
    ensures b[OwnerFrom(b, j, k)] <= j < b[OwnerFrom(b, j, k) + 1]
    decreases k
  {
    if k > 0 && b[k] > j {
      OwnerFromBounds(b, frames, forceFrames, j, k - 1);
    }
  }

  /** Every analog row below forceFrames belongs to exactly one frame's slice. */
  lemma OwnerBounds(b: seq<int>, frames: nat, forceFrames: int, j: int)
    requires IsBoundaryTable(b, frames, forceFrames) && 0 <= j < forceFrames
    ensures Owner(b, j) < frames && b[Owner(b, j)] <= j < b[Owner(b, j) + 1]
  {
    OwnerFromBounds(b, frames, forceFrames, j, frames - 1);
  }

  /** The frame whose slice contains row j is the owner of row j. */
  lemma OwnerUnique(b: seq<int>, frames: nat, forceFrames: int, j: int, k: nat)
    requires IsBoundaryTable(b, frames, forceFrames)
    requires k < frames && b[k] <= j < b[k + 1]
    ensures Owner(b, j) == k
  {
    OwnerBounds(b, frames, forceFrames, j);
  }

  /** Column c of analog row j once the loop has passed its owner. */
  function ForceCell(kept: seq<Record>, b: seq<int>, ratio: int, n: int, j: int, c: int): real
  {
    var k := Owner(b, j);
    if k < |kept| && k < |b| then AnalogCell(kept[k], ratio, n, j - b[k], c) else 0.0
  }

  /**
   * What decoding the k-th in-bounds record raises, if anything: the points
   * reshape (ValueError), the row index past the buffer (IndexError), the
   * analog reshape (ValueError), the slice assignment that cannot broadcast
   * (ValueError).
   */
  function RecordFailure(k: nat, rec: Record, frames: nat, width: nat, n: nat, ratio: int, b: seq<int>): (e: Option<DecodeError>)
    ensures e.Some? ==> e.value == ShapeError || e.value == Undiscovered
  {
    if |rec.points| * 3 != width then Some(ShapeError)
    else if k >= frames then Some(Undiscovered)
    else if ratio < 0 || |rec.analog| != ratio * n then Some(ShapeError)
    else if !(k + 1 < |b| && (b[k + 1] - b[k] == ratio || ratio == 1)) then Some(ShapeError)
    else None
  }

  /** The first failure among the in-bounds records, in stream order. */
  function FillFailure(kept: seq<Record>, frames: nat, width: nat, n: nat, ratio: int, b: seq<int>): (e: Option<DecodeError>)
    ensures e.Some? ==> e.value == ShapeError || e.value == Undiscovered
    decreases |kept|
  {
    if kept == [] then None
    else
      match FillFailure(kept[..|kept| - 1], frames, width, n, ratio, b)
      case Some(e) => Some(e)
      case None => RecordFailure(|kept| - 1, kept[|kept| - 1], frames, width, n, ratio, b)
  }

  /** A failure in a prefix of the stream is the failure of the whole stream. */
  lemma {:induction false} FillFailureAppend(p: seq<Record>, q: seq<Record>, frames: nat, width: nat, n: nat, ratio: int, b: seq<int>)
    requires FillFailure(p, frames, width, n, ratio, b).Some?
    ensures FillFailure(p + q, frames, width, n, ratio, b) == FillFailure(p, frames, width, n, ratio, b)
    decreases |q|
  {
    if q != [] {
      var init := q[..|q| - 1];
      assert (p + q)[..|p + q| - 1] == p + init;
      FillFailureAppend(p, init, frames, width, n, ratio, b);
      assert FillFailure(p + q, frames, width, n, ratio, b) == FillFailure(p + init, frames, width, n, ratio, b);
    } else {
      assert p + q == p;
    }
  }

  /** Without a failure, no record is decoded past the last buffer row, and each fits its slice. */
  lemma {:induction false} FillSucceeds(kept: seq<Record>, frames: nat, width: nat, n: nat, ratio: int, b: seq<int>)
    requires FillFailure(kept, frames, width, n, ratio, b).None?
    ensures |kept| <= frames
    ensures forall k :: 0 <= k < |kept| ==> RecordFailure(k, kept[k], frames, width, n, ratio, b).None?
    decreases |kept|
  {
    if kept != [] {
      var init := kept[..|kept| - 1];
      FillSucceeds(init, frames, width, n, ratio, b);
      assert forall k :: 0 <= k < |init| ==> init[k] == kept[k];
    }
  }

  /** mocap_data after the pass: rows of decoded frames, then never-written rows. */
  function MocapRows(kept: seq<Record>, frames: nat, width: nat, blank: real): seq<seq<real>>
  {
    seq(frames, i => seq(width, c => if 0 <= i < |kept| then MocapCell(kept[i], c) else blank))
  }

  /** force_data after the pass: the slices of decoded frames, then never-written rows. */
  function ForceRows(kept: seq<Record>, b: seq<int>, ratio: int, forceFrames: nat, n: nat, blank: real): seq<seq<real>>
  {
    seq(forceFrames, j => seq(n, c => if |kept| < |b| && j < b[|kept|] then ForceCell(kept, b, ratio, n, j, c) else blank))
  }

  /** Marker m's x, y and z land in columns 3m, 3m + 1 and 3m + 2 of its row. */
  lemma MocapCellMarker(rec: Record, m: nat, axis: nat)
    requires m < |rec.points| && axis < 3
    ensures MocapCell(rec, 3 * m + axis) == Coord(rec.points[m], axis)
  {
    DivUnique(3 * m + axis, 3, m, axis);
  }

  /**
   * Lines 109-115 as a whole: the k-th decoded record owns mocap row k and
   * analog rows [b[k], b[k + 1]); the rows past the decoded records keep
   * whatever np.empty left there.
   */
  lemma FilledRows(kept: seq<Record>, b: seq<int>, frames: nat, forceFrames: nat, width: nat, n: nat,
                   ratio: int, blank: real)
    requires IsBoundaryTable(b, frames, forceFrames) && |kept| <= frames
    ensures forall k, c :: 0 <= k < |kept| && 0 <= c < width ==>
              MocapRows(kept, frames, width, blank)[k][c] == MocapCell(kept[k], c)
    ensures forall i, c :: |kept| <= i < frames && 0 <= c < width ==> MocapRows(kept, frames, width, blank)[i][c] == blank
    ensures forall j :: 0 <= j < b[|kept|] ==> Owner(b, j) < |kept| && b[Owner(b, j)] <= j < b[Owner(b, j) + 1]
    ensures forall j, c :: 0 <= j < b[|kept|] && 0 <= c < n ==>
              ForceRows(kept, b, ratio, forceFrames, n, blank)[j][c] == AnalogCell(kept[Owner(b, j)], ratio, n, j - b[Owner(b, j)], c)
    ensures forall j, c :: b[|kept|] <= j < forceFrames && 0 <= c < n ==> ForceRows(kept, b, ratio, forceFrames, n, blank)[j][c] == blank
  {
    assert b[|kept|] <= b[frames];
    forall j | 0 <= j < b[|kept|]
      ensures Owner(b, j) < |kept| && b[Owner(b, j)] <= j < b[Owner(b, j) + 1]
    {
      OwnerBounds(b, frames, forceFrames, j);
    }
  }

  /** With an exact ratio, analog row j belongs to frame j / ratio, as its (j % ratio)-th row. */
  lemma EvenOwner(frames: nat, ratio: nat, count: nat, j: int)
    requires count <= frames && ratio >= 1
    requires 0 <= j < count * ratio
    ensures j / ratio < count
    ensures Owner(Boundaries(frames, frames * ratio), j) == j / ratio
    ensures j - Boundaries(frames, frames * ratio)[j / ratio] == j % ratio
  {
    var b := Boundaries(frames, frames * ratio);
    BoundariesValid(frames, frames * ratio);
    BoundariesEven(frames, ratio);
    RowSplit(j, ratio, count);
    EvenOwnerOf(b, frames, ratio, j, j / ratio, j % ratio);
  }

  /** Row j of an even table lies in the slice of frame k when j == k * ratio + r, r < ratio. */
  lemma EvenOwnerOf(b: seq<int>, frames: nat, ratio: nat, j: int, k: nat, r: int)
    requires IsBoundaryTable(b, frames, frames * ratio)
    requires forall i :: 0 <= i <= frames ==> b[i] == i * ratio
    requires k < frames && 0 <= r < ratio && j == k * ratio + r
    ensures Owner(b, j) == k && j - b[k] == r
  {
    assert b[k + 1] == k * ratio + ratio;
    OwnerUnique(b, frames, frames * ratio, j, k);
  }

  /** Division of a row index below count * ratio by ratio. */
  lemma RowSplit(j: int, ratio: nat, count: nat)
    requires ratio >= 1 && 0 <= j < count * ratio
    ensures 0 <= j / ratio < count && 0 <= j % ratio < ratio
    ensures j == (j / ratio) * ratio + j % ratio
  {
    var k := j / ratio;
    if k >= count {
      MulOrder(count, k, ratio);
    }
  }

  lemma MulOrder(i: int, j: int, f: int)
    ensures i <= j && f >= 0 ==> i * f <= j * f
  {
    MulNonneg(j - i, f);
    assert j * f - i * f == (j - i) * f;
  }

  /** Decoding one more record leaves the rows of the earlier records as they were. */
  lemma ForceCellExtend(kept: seq<Record>, rec: Record, b: seq<int>, frames: nat, forceFrames: int,
                        ratio: int, n: int, j: int, c: int)
    requires IsBoundaryTable(b, frames, forceFrames) && |kept| < frames && 0 <= j
    ensures j < b[|kept|] ==> ForceCell(kept + [rec], b, ratio, n, j, c) == ForceCell(kept, b, ratio, n, j, c)
    ensures b[|kept|] <= j < b[|kept| + 1] ==>
              ForceCell(kept + [rec], b, ratio, n, j, c) == AnalogCell(rec, ratio, n, j - b[|kept|], c)
  {
    var k := |kept|;
    if j < b[k] {
      OwnerBounds(b, frames, forceFrames, j);
      assert Owner(b, j) < k;
    } else if j < b[k + 1] {
      OwnerUnique(b, frames, forceFrames, j, k);
    }
  }

  /** The cells of a two-dimensional array, row by row (the rows a DataFrame is built from). */
  function Cells(a: array2<real>): seq<seq<real>>
    reads a
  {
    seq(a.Length0, i requires 0 <= i < a.Length0 reads a => CellRow(a, i))
  }

  function CellRow(a: array2<real>, i: nat): seq<real>
    requires i < a.Length0
    reads a
  {
    seq(a.Length1, c requires 0 <= c < a.Length1 reads a => a[i, c])
  }

  /** A filled mocap buffer, read row by row, is MocapRows. */
  lemma MocapSnapshot(mocap: array2<real>, kept: seq<Record>, blank: real)
    requires forall i, c :: 0 <= i < mocap.Length0 && 0 <= c < mocap.Length1 ==>
               mocap[i, c] == if i < |kept| then MocapCell(kept[i], c) else blank
    ensures Cells(mocap) == MocapRows(kept, mocap.Length0, mocap.Length1, blank)
  {
    forall i | 0 <= i < mocap.Length0
      ensures Cells(mocap)[i] == MocapRows(kept, mocap.Length0, mocap.Length1, blank)[i]
    {
    }
  }

  /** A filled force buffer, read row by row, is ForceRows. */
  lemma ForceSnapshot(force: array2<real>, kept: seq<Record>, b: seq<int>, ratio: int, blank: real)
    requires |kept| < |b|
    requires forall j, c :: 0 <= j < force.Length0 && 0 <= c < force.Length1 ==>
               force[j, c] == if j < b[|kept|] then ForceCell(kept, b, ratio, force.Length1, j, c) else blank
    ensures Cells(force) == ForceRows(kept, b, ratio, force.Length0, force.Length1, blank)
  {
    forall j | 0 <= j < force.Length0
      ensures Cells(force)[j] == ForceRows(kept, b, ratio, force.Length0, force.Length1, blank)[j]
    {
    }
  }

  /** mocap_data holds the rows of the decoded records, and its initial cells below them. */
  ghost predicate MocapHolds(mocap: array2<real>, kept: seq<Record>, initial: seq<seq<real>>)
    reads mocap
  {
    && |kept| <= mocap.Length0
    && |initial| == mocap.Length0
    && (forall i :: 0 <= i < |initial| ==> |initial[i]| == mocap.Length1)
    && forall i, c :: 0 <= i < mocap.Length0 && 0 <= c < mocap.Length1 ==>
         mocap[i, c] == if i < |kept| then MocapCell(kept[i], c) else initial[i][c]
  }

  /** force_data holds the slices of the decoded records, and its initial cells below them. */
  ghost predicate ForceHolds(force: array2<real>, kept: seq<Record>, b: seq<int>, ratio: int, initial: seq<seq<real>>)
    reads force
  {
    && |kept| < |b|
    && |initial| == force.Length0
    && (forall j :: 0 <= j < |initial| ==> |initial[j]| == force.Length1)
    && forall j, c :: 0 <= j < force.Length0 && 0 <= c < force.Length1 ==>
         force[j, c] == if j < b[|kept|] then ForceCell(kept, b, ratio, force.Length1, j, c) else initial[j][c]
  }

  /**
   * Lines 112-114 for the k-th in-bounds record: mocap row k and analog rows
   * [b[k], b[k + 1]) are written, nothing else.
   */
  method WriteRecord(rec: Record, k: nat, ghost kept: seq<Record>, ratio: int, b: seq<int>,
                     mocap: array2<real>, force: array2<real>,
                     ghost mocap0: seq<seq<real>>, ghost force0: seq<seq<real>>)
    requires k == |kept| < mocap.Length0 && IsBoundaryTable(b, mocap.Length0, force.Length0)
    requires mocap != force
    requires MocapHolds(mocap, kept, mocap0) && ForceHolds(force, kept, b, ratio, force0)
    modifies mocap, force
    ensures MocapHolds(mocap, kept + [rec], mocap0) && ForceHolds(force, kept + [rec], b, ratio, force0)
  {
    var n := force.Length1;
    forall c | 0 <= c < mocap.Length1 {
      mocap[k, c] := MocapCell(rec, c);
    }
    assert 0 <= b[k] && b[k + 1] <= force.Length0;
    forall j, c | b[k] <= j < b[k + 1] && 0 <= c < n {
      force[j, c] := AnalogCell(rec, ratio, n, j - b[k], c);
    }
    forall j, c | 0 <= j < force.Length0 && 0 <= c < n
      ensures force[j, c] == if j < b[k + 1] then ForceCell(kept + [rec], b, ratio, n, j, c) else force0[j][c]
    {
      ForceCellExtend(kept, rec, b, mocap.Length0, force.Length0, ratio, n, j, c);
    }
    assert forall i :: 0 <= i < k ==> (kept + [rec])[i] == kept[i];
  }

  /** A record that raises decides the outcome of the whole stream. */
  lemma FailureDecides(records: seq<Record>, idx: nat, first: int, last: int,
                       frames: nat, width: nat, n: nat, ratio: int, b: seq<int>)
    requires idx < |records| && InBounds(records[idx], first, last)
    requires FillFailure(Kept(records[..idx], first, last), frames, width, n, ratio, b).None?
    requires RecordFailure(|Kept(records[..idx], first, last)|, records[idx], frames, width, n, ratio, b).Some?
    ensures FillFailure(Kept(records, first, last), frames, width, n, ratio, b) ==
            RecordFailure(|Kept(records[..idx], first, last)|, records[idx], frames, width, n, ratio, b)
  {
    var kept := Kept(records[..idx], first, last);
    var rec := records[idx];
    assert records[..idx + 1] == records[..idx] + [rec];
    KeptAppend(records[..idx], [rec], first, last);
    assert Kept([rec], first, last) == [rec];
    assert (kept + [rec])[..|kept|] == kept;
    assert records == records[..idx + 1] + records[idx + 1..];
    KeptAppend(records[..idx + 1], records[idx + 1..], first, last);
    FillFailureAppend(kept + [rec], Kept(records[idx + 1..], first, last), frames, width, n, ratio, b);
  }

  /** A skipped record leaves the decoded prefix as it was. */
  lemma KeptSkip(records: seq<Record>, idx: nat, first: int, last: int)
    requires idx < |records| && !InBounds(records[idx], first, last)
    ensures Kept(records[..idx + 1], first, last) == Kept(records[..idx], first, last)
  {
    assert records[..idx + 1] == records[..idx] + [records[idx]];
    KeptAppend(records[..idx], [records[idx]], first, last);
    assert Kept([records[idx]], first, last) == [];
  }

  /** A decoded record that does not raise extends the decoded prefix by itself. */
  lemma KeptStep(records: seq<Record>, idx: nat, first: int, last: int,
                 frames: nat, width: nat, n: nat, ratio: int, b: seq<int>)
    requires idx < |records| && InBounds(records[idx], first, last)
    requires FillFailure(Kept(records[..idx], first, last), frames, width, n, ratio, b).None?
    requires RecordFailure(|Kept(records[..idx], first, last)|, records[idx], frames, width, n, ratio, b).None?
    ensures Kept(records[..idx + 1], first, last) == Kept(records[..idx], first, last) + [records[idx]]
    ensures FillFailure(Kept(records[..idx + 1], first, last), frames, width, n, ratio, b).None?
    ensures |Kept(records[..idx], first, last)| < frames
  {
    assert records[..idx + 1] == records[..idx] + [records[idx]];
    KeptAppend(records[..idx], [records[idx]], first, last);
    assert Kept([records[idx]], first, last) == [records[idx]];
    FillFailureStep(Kept(records[..idx], first, last), records[idx], frames, width, n, ratio, b);
  }

  /** The pass goes on past a record that does not raise. */
  lemma FillFailureStep(kept: seq<Record>, rec: Record, frames: nat, width: nat, n: nat, ratio: int, b: seq<int>)
    requires FillFailure(kept, frames, width, n, ratio, b).None?
    requires RecordFailure(|kept|, rec, frames, width, n, ratio, b).None?
    ensures FillFailure(kept + [rec], frames, width, n, ratio, b).None?
  {
    assert (kept + [rec])[..|kept|] == kept;
  }

  /**
   * The loop of lines 109-115 over the preallocated buffers.  It stops at the
   * first record that raises; otherwise the k-th in-bounds record has written
   * mocap row k and analog rows [b[k], b[k + 1]), and no other row has changed.
   */
  method FillFrames(records: seq<Record>, first: int, last: int, ratio: int, b: seq<int>,
                    mocap: array2<real>, force: array2<real>)
    returns (failure: Option<DecodeError>)
    requires mocap.Length0 == last - first + 1
    requires IsBoundaryTable(b, mocap.Length0, force.Length0)
    requires mocap != force
    modifies mocap, force
    ensures failure == FillFailure(Kept(records, first, last), mocap.Length0, mocap.Length1, force.Length1, ratio, b)
    ensures failure.None? ==> forall i, c :: 0 <= i < mocap.Length0 && 0 <= c < mocap.Length1 ==>
              mocap[i, c] == if i < |Kept(records, first, last)| then MocapCell(Kept(records, first, last)[i], c) else old(mocap[i, c])
    ensures failure.None? ==> forall j, c :: 0 <= j < force.Length0 && 0 <= c < force.Length1 ==>
              force[j, c] == if j < b[|Kept(records, first, last)|]
                             then ForceCell(Kept(records, first, last), b, ratio, force.Length1, j, c)
                             else old(force[j, c])
  {
    var frames, width, n := mocap.Length0, mocap.Length1, force.Length1;
    ghost var mocap0, force0 := Cells(mocap), Cells(force);
    ghost var kept: seq<Record> := [];
    var current := 0;
    var idx := 0;
    while idx < |records|
      invariant 0 <= idx <= |records|
      invariant kept == Kept(records[..idx], first, last)
      invariant current == |kept| <= frames
      invariant FillFailure(kept, frames, width, n, ratio, b).None?
      invariant MocapHolds(mocap, kept, mocap0) && ForceHolds(force, kept, b, ratio, force0)
    {
      var rec := records[idx];
      if rec.frame < first || rec.frame > last {
        KeptSkip(records, idx, first, last);
      } else {
        var broken := RecordFailure(current, rec, frames, width, n, ratio, b);
        if broken.Some? {
          FailureDecides(records, idx, first, last, frames, width, n, ratio, b);
          return broken;
        }
        KeptStep(records, idx, first, last, frames, width, n, ratio, b);
        WriteRecord(rec, current, kept, ratio, b, mocap, force, mocap0, force0);
        kept := kept + [rec];
        current := current + 1;
      }
      idx := idx + 1;
    }
    assert records[..|records|] == records;
    failure := None;
  }
}
