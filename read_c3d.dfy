/**
 * `read_c3d(file, read_mocap)` as a whole: the existence and reader checks,
 * the Info dictionary, the labels, the plate mid-points, the fill pass and
 * the two tables, and the error dictionary each `except` clause returns.
 */
module ReadC3d {
  import opened Wrappers
  import opened C3dReader
  import opened Outputs
  import opened Labels
  import opened Metadata
  import opened FrameSync
  import opened SignCorrection

  /** Decimal digit d. */
  function Digit(d: nat): char
    requires d < 10
  {
    "0123456789"[d]
  }

  /** Python's `str()` of a non-negative int. */
  function NatToString(n: nat): (s: string)
    ensures |s| >= 1 && (n < 10 <==> |s| == 1)
    decreases n
  {
    if n < 10 then [Digit(n)] else NatToString(n / 10) + [Digit(n % 10)]
  }

  lemma DigitInjective(d: nat, e: nat)
    requires d < 10 && e < 10 && Digit(d) == Digit(e)
    ensures d == e
  {
  }

  /** Different numbers print differently. */
  lemma {:induction false} NatToStringInjective(a: nat, b: nat)
    requires NatToString(a) == NatToString(b)
    ensures a == b
    decreases a
  {
    var s := NatToString(a);
    if a < 10 {
      DigitInjective(a, b);
    } else {
      assert s[..|s| - 1] == NatToString(a / 10) == NatToString(b / 10);
      NatToStringInjective(a / 10, b / 10);
      DigitInjective(a % 10, b % 10);
    }
  }

  /** Line 100: the Info key of plate k (counted from 0). */
  function PlateKey(k: nat): (key: string)
    ensures |key| > 0 && key[0] == 'x'
  {
    "xmidposFP" + NatToString(k + 1)
  }

  /** No two plates share a key. */
  lemma PlateKeysDistinct(j: nat, k: nat)
    requires PlateKey(j) == PlateKey(k)
    ensures j == k
  {
    assert PlateKey(j)[9..] == NatToString(j + 1);
    assert PlateKey(k)[9..] == NatToString(k + 1);
    NatToStringInjective(j + 1, k + 1);
  }

  /** Lines 99-100 over the first plates: one mean corner X per plate. */
  function AddPlates(info: Info, mids: seq<real>): Info
    decreases |mids|
  {
    if mids == [] then info
    else AddPlates(info, mids[..|mids| - 1])[PlateKey(|mids| - 1) := Number(mids[|mids| - 1])]
  }

  /** Every plate gets its own key and value; keys not starting with 'x' keep their values. */
  lemma {:induction false} PlatesRecorded(info: Info, mids: seq<real>)
    ensures forall k :: 0 <= k < |mids| ==> PlateKey(k) in AddPlates(info, mids) && AddPlates(info, mids)[PlateKey(k)] == Number(mids[k])
    ensures forall key :: key in info && (|key| == 0 || key[0] != 'x') ==>
              key in AddPlates(info, mids) && AddPlates(info, mids)[key] == info[key]
    decreases |mids|
  {
    if mids != [] {
      var init := mids[..|mids| - 1];
      PlatesRecorded(info, init);
      forall k | 0 <= k < |mids|
        ensures PlateKey(k) in AddPlates(info, mids) && AddPlates(info, mids)[PlateKey(k)] == Number(mids[k])
      {
        if k < |init| && PlateKey(k) == PlateKey(|mids| - 1) {
          PlateKeysDistinct(k, |mids| - 1);
        }
      }
    }
  }

  /** Lines 85-87: ANALOG.LABELS as strings; absence raises AttributeError, a bad byte UnicodeDecodeError. */
  function AnalogLabelText(r: Reader): Result<seq<string>, DecodeError>
  {
    if "ANALOG" !in r.groups || "LABELS" !in r.groups["ANALOG"] then Err(Undiscovered)
    else
      match r.groups["ANALOG"]["LABELS"].text
      case Some(t) => Ok(t)
      case None => Err(TextDecodeError)
  }

  /** Lines 94-98: FORCE_PLATFORM.CORNERS must exist and be three-dimensional. */
  function PlateMids(r: Reader): Result<seq<real>, DecodeError>
  {
    if "FORCE_PLATFORM" !in r.groups || "CORNERS" !in r.groups["FORCE_PLATFORM"] then Err(Undiscovered)
    else
      match r.plateMidX
      case Some(m) => Ok(m)
      case None => Err(ShapeError)
  }

  /** Line 101: FP_RATE / CAMERA_RATE needs two numbers (TypeError) and a non-zero divisor (ZeroDivisionError). */
  function Rates(info: Info): (res: Result<(real, real), DecodeError>)
    ensures res.Ok? ==> res.value.1 != 0.0
    ensures res.Err? ==> res.error == Undiscovered
  {
    if "FP_RATE" in info && "CAMERA_RATE" in info && info["FP_RATE"].Number? && info["CAMERA_RATE"].Number?
       && info["CAMERA_RATE"].number != 0.0
    then Ok((info["FP_RATE"].number, info["CAMERA_RATE"].number))
    else Err(Undiscovered)
  }

  /** What lines 18-101 leave for the sample pass. */
  datatype Prepared = Prepared(
    info: Info,
    mocapLabels: seq<string>,
    forceLabels: seq<string>,
    fpRate: real,
    cameraRate: real)

  /** Lines 18-101, run whether or not sample data is read. */
  function Prelude(r: Reader): (res: Result<Prepared, DecodeError>)
    ensures res.Ok? ==> res.value.cameraRate != 0.0 && |res.value.forceLabels| > 0
  {
    var info0 :- InfoOf(r);
    var mocapLabels := MocapLabels(r.pointLabels);
    var raw :- AnalogLabelText(r);
    var forceLabels := ForceLabels(raw);
    if |forceLabels| == 0 then Err(NoForcePlateData)
    else
      var mids :- PlateMids(r);
      var info := AddPlates(info0, mids);
      var rates :- Rates(info);
      Ok(Prepared(info, mocapLabels, forceLabels, rates.0, rates.1))
  }

  /** Line 103: the number of frames between the header bounds. */
  function FrameCount(r: Reader): int
  {
    r.lastFrame - r.firstFrame + 1
  }

  /**
   * Lines 117-128: what building the two time indices raises.  Line 123
   * divides by point_rate and line 124 by the resulting ratio
   * (ZeroDivisionError); linspace refuses a negative sample count and the
   * GRF DataFrame an index whose length is not its row count (ValueError).
   */
  function TimeIndexFailure(r: Reader, frames: nat, forceFrames: nat): (e: Option<DecodeError>)
    ensures e.Some? ==> e.value == ShapeError || e.value == Undiscovered
    ensures e.None? ==> r.pointRate != 0.0 && frames * Trunc(r.analogRate / r.pointRate) == forceFrames
  {
    if r.pointRate == 0.0 then Some(Undiscovered)
    else
      var ratio := Trunc(r.analogRate / r.pointRate);
      if ratio == 0 then Some(Undiscovered)
      else if frames * ratio < 0 then Some(ShapeError)
      else if frames * ratio != forceFrames then Some(ShapeError)
      else None
  }

  /** Lines 103-135: the MoCap and GRF tables, or what the sample pass raises. */
  function Tables(r: Reader, prep: Prepared, junk: real): (res: Result<(Table, Table), DecodeError>)
    requires prep.cameraRate != 0.0
    ensures res.Err? ==> res.error == ShapeError || res.error == Undiscovered
  {
    var frames := FrameCount(r);
    if frames < 0 then Err(ShapeError)
    else
      var forceFrames := ForceFrameCount(frames, prep.fpRate, prep.cameraRate);
      if forceFrames < 0 then Err(ShapeError)
      else
        var ratio := FrequencyRatio(prep.fpRate, prep.cameraRate);
        var b := Boundaries(frames, forceFrames);
        var kept := Kept(r.records, r.firstFrame, r.lastFrame);
        var width, n := |prep.mocapLabels|, |prep.forceLabels|;
        match FillFailure(kept, frames, width, n, ratio, b)
        case Some(e) => Err(e)
        case None =>
          match TimeIndexFailure(r, frames, forceFrames)
          case Some(e) => Err(e)
          case None =>
            var mocap := Table(prep.mocapLabels, MocapRows(kept, frames, width, junk));
            var raw := Table(prep.forceLabels, ForceRows(kept, b, ratio, forceFrames, n, junk));
            var sel := Selected(prep.forceLabels);
            var grf :- ApplySigns(raw, sel.0, sel.1);
            Ok((mocap, grf))
  }

  /**
   * The whole function: the existence check of line 8, the reader of lines
   * 12-16, then the Info dictionary and, when sample data is read, the two
   * tables; any exception becomes an error dictionary.  `junk` is what
   * np.empty leaves in rows the pass never writes.
   */
  function Decode(input: Input, readMocap: bool, junk: real): Output
  {
    if !input.fileExists then Failure(FileDoesNotExist)
    else if input.reader.None? then Failure(ReadingError)
    else
      var r := input.reader.value;
      match Prelude(r)
      case Err(e) => Failure(e)
      case Ok(prep) =>
        if !readMocap then Success(prep.info, NotRead, NotRead)
        else
          match Tables(r, prep, junk)
          case Err(e) => Failure(e)
          case Ok(t) => Success(prep.info, Frame(t.0), Frame(t.1))
  }

  /** Lines 18-101 as the code runs them, the plate keys written in a loop. */
  method Prepare(r: Reader) returns (res: Result<Prepared, DecodeError>)
    ensures res == Prelude(r)
  {
    var info0 :- ExtractInfo(r);
    var mocapLabels := MocapLabels(r.pointLabels);
    var raw :- AnalogLabelText(r);
    var forceLabels := ForceLabels(raw);
    if |forceLabels| == 0 {
      return Err(NoForcePlateData);
    }
    var mids :- PlateMids(r);
    var info := info0;
    for count := 0 to |mids|
      invariant info == AddPlates(info0, mids[..count])
    {
      assert mids[..count + 1][..count] == mids[..count];
      info := info[PlateKey(count) := Number(mids[count])];
    }
    assert mids[..|mids|] == mids;
    var rates :- Rates(info);
    return Ok(Prepared(info, mocapLabels, forceLabels, rates.0, rates.1));
  }

  /** Lines 103-135: allocate the two buffers, fill them in one pass, build the tables. */
  method BuildTables(r: Reader, prep: Prepared, junk: real) returns (res: Result<(Table, Table), DecodeError>)
    requires prep.cameraRate != 0.0
    ensures res == Tables(r, prep, junk)
  {
    var frames := FrameCount(r);
    if frames < 0 {
      return Err(ShapeError);
    }
    var forceFrames := ForceFrameCount(frames, prep.fpRate, prep.cameraRate);
    if forceFrames < 0 {
      return Err(ShapeError);
    }
    var ratio := FrequencyRatio(prep.fpRate, prep.cameraRate);
    var width, n := |prep.mocapLabels|, |prep.forceLabels|;
    var mocap := new real[frames, width]((i, c) => junk);
    var force := new real[forceFrames, n]((j, c) => junk);
    var b := Boundaries(frames, forceFrames);
    BoundariesValid(frames, forceFrames);
    var failure := FillFrames(r.records, r.firstFrame, r.lastFrame, ratio, b, mocap, force);
    if failure.Some? {
      return Err(failure.value);
    }
    var late := TimeIndexFailure(r, frames, forceFrames);
    if late.Some? {
      return Err(late.value);
    }
    ghost var kept := Kept(r.records, r.firstFrame, r.lastFrame);
    FillSucceeds(kept, frames, width, n, ratio, b);
    MocapSnapshot(mocap, kept, junk);
    ForceSnapshot(force, kept, b, ratio, junk);
    var labels, weights := SelectSigned(prep.forceLabels);
    var grf := ApplySigns(Table(prep.forceLabels, Cells(force)), labels, weights);
    if grf.Err? {
      return Err(grf.error);
    }
    return Ok((Table(prep.mocapLabels, Cells(mocap)), grf.value));
  }

  /** read_c3d itself. */
  method ReadC3dFile(input: Input, readMocap: bool, junk: real) returns (out: Output)
    ensures out == Decode(input, readMocap, junk)
  {
    if !input.fileExists {
      return Failure(FileDoesNotExist);
    }
    if input.reader.None? {
      return Failure(ReadingError);
    }
    var r := input.reader.value;
    var prep := Prepare(r);
    if prep.Err? {
      return Failure(prep.error);
    }
    if !readMocap {
      return Success(prep.value.info, NotRead, NotRead);
    }
    var tables := BuildTables(r, prep.value, junk);
    if tables.Err? {
      return Failure(tables.error);
    }
    return Success(prep.value.info, Frame(tables.value.0), Frame(tables.value.1));
  }

  /** Lines 8-9 and 15-16: a missing file, then a reader that cannot be opened. */
  lemma OpenFailures(input: Input, readMocap: bool, junk: real)
    ensures !input.fileExists ==>
              Decode(input, readMocap, junk) == Failure(FileDoesNotExist) && ErrorMessage(FileDoesNotExist) == Some("File does not exist")
    ensures input.fileExists && input.reader.None? ==>
              Decode(input, readMocap, junk) == Failure(ReadingError) && ErrorMessage(ReadingError) == Some("Reading Error of file")
  {
  }

  /**
   * Lines 91-93: the decode ends with the no-force-plate message exactly when
   * Info and ANALOG.LABELS are readable and the label list is empty; no other
   * step produces that error.
   */
  lemma NoForcePlateResult(r: Reader, readMocap: bool, junk: real)
    ensures Decode(Input(true, Some(r)), readMocap, junk) == Failure(NoForcePlateData) <==>
              InfoOf(r).Ok? && AnalogLabelText(r) == Ok([])
    ensures ErrorMessage(NoForcePlateData) == Some("No ForcePlate Data in C3D please check file")
  {
    if AnalogLabelText(r).Ok? {
      assert |ForceLabels(AnalogLabelText(r).value)| == |AnalogLabelText(r).value|;
    }
  }

  /**
   * Lines 136-140: without sample data the result still carries Info, with
   * two empty tables; the Info and every earlier error are the same as when
   * sample data is read.
   */
  lemma MetadataOnly(input: Input, junk: real)
    ensures Decode(input, false, junk).Success? ==>
              Decode(input, false, junk).mocap == NotRead && Decode(input, false, junk).grf == NotRead
    ensures Decode(input, true, junk).Success? ==>
              Decode(input, false, junk) == Success(Decode(input, true, junk).info, NotRead, NotRead)
    ensures Decode(input, false, junk).Failure? ==> Decode(input, true, junk) == Decode(input, false, junk)
    ensures Decode(input, true, junk).Success? ==> Decode(input, true, junk).mocap.Frame? && Decode(input, true, junk).grf.Frame?
  {
  }

  /**
   * The layout of MoCap after the fill (lines 103-115 and 129): the resolved
   * POINT labels as columns and one row per frame between the header bounds;
   * row k holds the k-th in-bounds record, marker m's x, y and z in columns
   * 3m, 3m + 1 and 3m + 2; the rows past the decoded records were never
   * written.
   */
  predicate MocapLayout(mocap: Table, kept: seq<Record>, frames: int, labels: seq<string>, junk: real)
  {
    && mocap.columns == labels
    && |mocap.rows| == frames
    && (forall i :: 0 <= i < |mocap.rows| ==> |mocap.rows[i]| == |labels|)
    && |kept| <= frames
    && (forall k :: 0 <= k < |kept| ==> 3 * |kept[k].points| == |labels|)
    && (forall k, m, a :: 0 <= k < |kept| && 0 <= m < |kept[k].points| && 0 <= a < 3 ==>
          MarkerCellHolds(mocap, kept, k, m, a))
    && (forall i, c :: |kept| <= i < frames && 0 <= c < |labels| ==> CellIs(mocap, junk, i, c))
  }

  /** MoCap cell (k, 3m + a) is coordinate a of marker m in the k-th decoded record. */
  predicate MarkerCellHolds(mocap: Table, kept: seq<Record>, k: int, m: int, a: int)
  {
    && 0 <= k < |kept| && 0 <= m < |kept[k].points| && 0 <= a < 3
    && k < |mocap.rows| && 3 * m + a < |mocap.rows[k]|
    && mocap.rows[k][3 * m + a] == Coord(kept[k].points[m], a)
  }

  /** A fill without failure leaves the MoCap layout. */
  lemma FilledMocapLayout(kept: seq<Record>, frames: nat, n: nat, ratio: int, b: seq<int>,
                          labels: seq<string>, junk: real)
    requires FillFailure(kept, frames, |labels|, n, ratio, b).None?
    ensures MocapLayout(Table(labels, MocapRows(kept, frames, |labels|, junk)), kept, frames, labels, junk)
  {
    var width := |labels|;
    var mocap := Table(labels, MocapRows(kept, frames, width, junk));
    FillSucceeds(kept, frames, width, n, ratio, b);
    forall k | 0 <= k < |kept| ensures 3 * |kept[k].points| == width {
      assert RecordFailure(k, kept[k], frames, width, n, ratio, b).None?;
    }
    forall i | 0 <= i < frames ensures |mocap.rows[i]| == width {
    }
    forall k, m, a | 0 <= k < |kept| && 0 <= m < |kept[k].points| && 0 <= a < 3
      ensures MarkerCellHolds(mocap, kept, k, m, a)
    {
      assert 3 * m + a < 3 * |kept[k].points| == width;
      assert mocap.rows[k][3 * m + a] == MocapCell(kept[k], 3 * m + a);
      MocapCellMarker(kept[k], m, a);
    }
    forall i, c | |kept| <= i < frames && 0 <= c < width ensures CellIs(mocap, junk, i, c) {
      assert mocap.rows[i][c] == junk;
    }
  }

  /** Lines 103-115 and 129: a successful pass has the MoCap layout. */
  lemma TablesMocap(r: Reader, prep: Prepared, junk: real)
    requires prep.cameraRate != 0.0 && Tables(r, prep, junk).Ok?
    ensures FrameCount(r) >= 0
    ensures MocapLayout(Tables(r, prep, junk).value.0, Kept(r.records, r.firstFrame, r.lastFrame), FrameCount(r),
                        prep.mocapLabels, junk)
  {
    var frames := FrameCount(r);
    var forceFrames := ForceFrameCount(frames, prep.fpRate, prep.cameraRate);
    var ratio := FrequencyRatio(prep.fpRate, prep.cameraRate);
    var b := Boundaries(frames, forceFrames);
    var kept := Kept(r.records, r.firstFrame, r.lastFrame);
    TablesSteps(r, prep, junk);
    FilledMocapLayout(kept, frames, |prep.forceLabels|, ratio, b, prep.mocapLabels, junk);
  }

  /** What a successful Tables has gone through. */
  lemma TablesSteps(r: Reader, prep: Prepared, junk: real)
    requires prep.cameraRate != 0.0 && Tables(r, prep, junk).Ok?
    ensures FrameCount(r) >= 0 && ForceFrameCount(FrameCount(r), prep.fpRate, prep.cameraRate) >= 0
    ensures var frames := FrameCount(r);
            var forceFrames := ForceFrameCount(frames, prep.fpRate, prep.cameraRate);
            var ratio := FrequencyRatio(prep.fpRate, prep.cameraRate);
            var b := Boundaries(frames, forceFrames);
            var kept := Kept(r.records, r.firstFrame, r.lastFrame);
            var raw := Table(prep.forceLabels, ForceRows(kept, b, ratio, forceFrames, |prep.forceLabels|, junk));
            && FillFailure(kept, frames, |prep.mocapLabels|, |prep.forceLabels|, ratio, b).None?
            && TimeIndexFailure(r, frames, forceFrames).None?
            && Tables(r, prep, junk).value.0 == Table(prep.mocapLabels, MocapRows(kept, frames, |prep.mocapLabels|, junk))
            && ApplySigns(raw, Selected(prep.forceLabels).0, Selected(prep.forceLabels).1).Ok?
            && Tables(r, prep, junk).value.1 == ApplySigns(raw, Selected(prep.forceLabels).0, Selected(prep.forceLabels).1).value
  {
  }

  lemma SignedForceCell(kept: seq<Record>, b: seq<int>, frames: nat, forceFrames: nat, ratio: int,
                        columns: seq<string>, junk: real, j: nat, k: nat)
    requires IsBoundaryTable(b, frames, forceFrames) && |kept| <= frames
    requires ApplySigns(Table(columns, ForceRows(kept, b, ratio, forceFrames, |columns|, junk)),
                        Selected(columns).0, Selected(columns).1).Ok?
    requires j < forceFrames && k < |Selected(columns).0|
    ensures var grf := ApplySigns(Table(columns, ForceRows(kept, b, ratio, forceFrames, |columns|, junk)),
                                  Selected(columns).0, Selected(columns).1).value;
            && Selected(columns).0[k] in columns
            && |grf.rows| == forceFrames
            && |grf.rows[j]| == |Selected(columns).0|
            && (j < b[|kept|] ==>
                  && Owner(b, j) < |kept|
                  && grf.rows[j][k] ==
                       -AnalogCell(kept[Owner(b, j)], ratio, |columns|, j - b[Owner(b, j)], FirstColumn(columns, Selected(columns).0[k])))
            && (b[|kept|] <= j ==> grf.rows[j][k] == -junk)
  {
    var n := |columns|;
    var raw := Table(columns, ForceRows(kept, b, ratio, forceFrames, n, junk));
    var sel := Selected(columns);
    SignedColumns(raw);
    var grf := ApplySigns(raw, sel.0, sel.1).value;
    var c := FirstColumn(columns, sel.0[k]);
    assert grf.rows[j][k] == -CellAt(raw.rows[j], c);
    assert CellAt(raw.rows[j], c) == raw.rows[j][c];
    FilledRows(kept, b, frames, forceFrames, 0, n, ratio, junk);
  }

  /**
   * The layout of GRF after the fill and the sign step (lines 105-135): the
   * present sign-table labels as columns, each naming one analog column;
   * one row per analog sample; analog row j belongs to the frame that owns it
   * in the boundary table b, and GRF row j holds that frame's analog value
   * for the label's column, negated; rows past the decoded records hold the
   * negated never-written value.
   */
  predicate GrfLayout(grf: Table, kept: seq<Record>, b: seq<int>, forceFrames: int, ratio: int,
                      columns: seq<string>, junk: real)
  {
    && grf.columns == Selected(columns).0
    && |grf.rows| == forceFrames
    && (forall j :: 0 <= j < |grf.rows| ==> |grf.rows[j]| == |grf.columns|)
    && (forall k :: 0 <= k < |grf.columns| ==>
          grf.columns[k] in columns && |Occurrences(columns, grf.columns[k])| == 1)
    && |kept| < |b| && 0 <= b[|kept|] <= forceFrames
    && (forall j, k :: 0 <= j < b[|kept|] && 0 <= k < |grf.columns| ==>
          GrfCellHolds(grf, kept, b, ratio, columns, j, k))
    && (forall j, k :: b[|kept|] <= j < forceFrames && 0 <= k < |grf.columns| ==>
          NegatedBlank(grf, junk, j, k))
  }

  /** GRF cell (j, k) is the negated analog value of the frame owning row j. */
  predicate GrfCellHolds(grf: Table, kept: seq<Record>, b: seq<int>, ratio: int, columns: seq<string>, j: int, k: int)
  {
    && 0 <= j < |grf.rows| && 0 <= k < |grf.rows[j]| && k < |grf.columns|
    && grf.columns[k] in columns
    && Owner(b, j) < |kept| && Owner(b, j) + 1 < |b|
    && b[Owner(b, j)] <= j < b[Owner(b, j) + 1]
    && grf.rows[j][k] ==
         -AnalogCell(kept[Owner(b, j)], ratio, |columns|, j - b[Owner(b, j)], FirstColumn(columns, grf.columns[k]))
  }

  /** The sign step over the filled analog rows has the GRF layout. */
  lemma SignedLayout(kept: seq<Record>, b: seq<int>, frames: nat, forceFrames: nat, ratio: int,
                     columns: seq<string>, junk: real)
    requires IsBoundaryTable(b, frames, forceFrames) && |kept| <= frames
    requires ApplySigns(Table(columns, ForceRows(kept, b, ratio, forceFrames, |columns|, junk)),
                        Selected(columns).0, Selected(columns).1).Ok?
    ensures GrfLayout(ApplySigns(Table(columns, ForceRows(kept, b, ratio, forceFrames, |columns|, junk)),
                                 Selected(columns).0, Selected(columns).1).value,
                      kept, b, forceFrames, ratio, columns, junk)
  {
    var grf := ApplySigns(Table(columns, ForceRows(kept, b, ratio, forceFrames, |columns|, junk)),
                          Selected(columns).0, Selected(columns).1).value;
    SignedColumns(Table(columns, ForceRows(kept, b, ratio, forceFrames, |columns|, junk)));
    assert b[0] <= b[|kept|] <= b[frames];
    forall j, k | 0 <= j < b[|kept|] && 0 <= k < |grf.columns|
      ensures GrfCellHolds(grf, kept, b, ratio, columns, j, k)
    {
      OwnerBounds(b, frames, forceFrames, j);
      SignedForceCell(kept, b, frames, forceFrames, ratio, columns, junk, j, k);
    }
    forall j, k | b[|kept|] <= j < forceFrames && 0 <= k < |grf.columns|
      ensures NegatedBlank(grf, junk, j, k)
    {
      SignedForceCell(kept, b, frames, forceFrames, ratio, columns, junk, j, k);
    }
  }

  /**
   * Lines 101-135: a successful pass has the GRF layout over the boundary
   * table of the frame count and the analog row count, the latter being the
   * frame count times the truncated ratio of the analog and point rates.
   */
  lemma TablesGrf(r: Reader, prep: Prepared, junk: real)
    requires prep.cameraRate != 0.0 && Tables(r, prep, junk).Ok?
    ensures FrameCount(r) >= 0 && ForceFrameCount(FrameCount(r), prep.fpRate, prep.cameraRate) >= 0
    ensures r.pointRate != 0.0 &&
            FrameCount(r) * Trunc(r.analogRate / r.pointRate) == ForceFrameCount(FrameCount(r), prep.fpRate, prep.cameraRate)
    ensures |Kept(r.records, r.firstFrame, r.lastFrame)| <= FrameCount(r)
    ensures var frames := FrameCount(r);
            var forceFrames := ForceFrameCount(frames, prep.fpRate, prep.cameraRate);
            GrfLayout(Tables(r, prep, junk).value.1, Kept(r.records, r.firstFrame, r.lastFrame),
                      Boundaries(frames, forceFrames), forceFrames, FrequencyRatio(prep.fpRate, prep.cameraRate),
                      prep.forceLabels, junk)
  {
    var frames := FrameCount(r);
    var forceFrames := ForceFrameCount(frames, prep.fpRate, prep.cameraRate);
    var ratio := FrequencyRatio(prep.fpRate, prep.cameraRate);
    var b := Boundaries(frames, forceFrames);
    var kept := Kept(r.records, r.firstFrame, r.lastFrame);
    TablesSteps(r, prep, junk);
    FillSucceeds(kept, frames, |prep.mocapLabels|, |prep.forceLabels|, ratio, b);
    BoundariesValid(frames, forceFrames);
    SignedLayout(kept, b, frames, forceFrames, ratio, prep.forceLabels, junk);
  }

  /**
   * Lines 101-115 when the analog row count is exactly R per frame (ExactRatio:
   * whenever the analog rate is R times the camera rate): GRF has R rows per
   * frame, and row j holds the negated analog sample j % R of the (j / R)-th
   * decoded record.
   */
  lemma TablesEven(r: Reader, prep: Prepared, junk: real, ratio: nat)
    requires prep.cameraRate != 0.0 && Tables(r, prep, junk).Ok?
    requires ratio >= 1 && FrequencyRatio(prep.fpRate, prep.cameraRate) == ratio
    requires ForceFrameCount(FrameCount(r), prep.fpRate, prep.cameraRate) == FrameCount(r) * ratio
    ensures FrameCount(r) >= 0
    ensures |Tables(r, prep, junk).value.1.rows| == FrameCount(r) * ratio
    ensures var kept := Kept(r.records, r.firstFrame, r.lastFrame);
            var labels := Selected(prep.forceLabels).0;
            forall j, k :: 0 <= j < |kept| * ratio && 0 <= k < |labels| ==>
              EvenCellHolds(Tables(r, prep, junk).value.1, kept, ratio, prep.forceLabels, j, k)
    ensures var kept := Kept(r.records, r.firstFrame, r.lastFrame);
            forall j, k :: |kept| * ratio <= j < FrameCount(r) * ratio && 0 <= k < |Selected(prep.forceLabels).0| ==>
              NegatedBlank(Tables(r, prep, junk).value.1, junk, j, k)
  {
    TablesGrf(r, prep, junk);
    EvenSignedRows(Tables(r, prep, junk).value.1, Kept(r.records, r.firstFrame, r.lastFrame), FrameCount(r),
                   ForceFrameCount(FrameCount(r), prep.fpRate, prep.cameraRate), ratio, prep.forceLabels, junk);
  }

  /** The GRF layout, read with an exact ratio. */
  lemma EvenSignedRows(grf: Table, kept: seq<Record>, frames: nat, forceFrames: nat, ratio: nat,
                       columns: seq<string>, junk: real)
    requires ratio >= 1 && |kept| <= frames && forceFrames == frames * ratio
    requires GrfLayout(grf, kept, Boundaries(frames, forceFrames), forceFrames, ratio, columns, junk)
    ensures forall j, k :: 0 <= j < |kept| * ratio && 0 <= k < |grf.columns| ==>
              EvenCellHolds(grf, kept, ratio, columns, j, k)
    ensures forall j, k :: |kept| * ratio <= j < forceFrames && 0 <= k < |grf.columns| ==>
              NegatedBlank(grf, junk, j, k)
  {
    var b := Boundaries(frames, forceFrames);
    MulOrder(|kept|, frames, ratio);
    BoundariesEven(frames, ratio);
    assert b[|kept|] == |kept| * ratio;
    forall j, k | 0 <= j < |kept| * ratio && 0 <= k < |grf.columns|
      ensures EvenCellHolds(grf, kept, ratio, columns, j, k)
    {
      EvenOwner(frames, ratio, |kept|, j);
      assert GrfCellHolds(grf, kept, b, ratio, columns, j, k);
    }
  }

  /**
   * GRF cell (j, k) is the negated value of analog sample j % ratio of
   * record j / ratio, in the column of the k-th GRF label.
   */
  predicate EvenCellHolds(grf: Table, kept: seq<Record>, ratio: nat, columns: seq<string>, j: int, k: int)
  {
    && ratio >= 1 && 0 <= j && 0 <= k
    && j / ratio < |kept|
    && j < |grf.rows| && k < |grf.rows[j]| && k < |grf.columns|
    && grf.columns[k] in columns
    && grf.rows[j][k] == -AnalogCell(kept[j / ratio], ratio, |columns|, j % ratio, FirstColumn(columns, grf.columns[k]))
  }

  /** GRF cell (j, k) exists and holds the negated never-written value. */
  predicate NegatedBlank(grf: Table, junk: real, j: int, k: int)
  {
    CellIs(grf, -junk, j, k)
  }

  /** Cell (j, k) of the table exists and holds v. */
  predicate CellIs(t: Table, v: real, j: int, k: int)
  {
    0 <= j < |t.rows| && 0 <= k < |t.rows[j]| && t.rows[j][k] == v
  }

  /**
   * The MoCap table of a successful decode: the resolved POINT labels as
   * columns, one row per frame between the header bounds, row k holding
   * every marker of the k-th in-bounds record.
   */
  lemma DecodedMocap(r: Reader, junk: real)
    requires Decode(Input(true, Some(r)), true, junk).Success?
    ensures Decode(Input(true, Some(r)), true, junk).mocap.Frame?
    ensures MocapLayout(Decode(Input(true, Some(r)), true, junk).mocap.table, Kept(r.records, r.firstFrame, r.lastFrame),
                        FrameCount(r), MocapLabels(r.pointLabels), junk)
    ensures forall k :: 0 <= k < |Kept(r.records, r.firstFrame, r.lastFrame)| ==>
              |Kept(r.records, r.firstFrame, r.lastFrame)[k].points| == |r.pointLabels|
  {
    var prep := Prelude(r).value;
    TablesMocap(r, prep, junk);
  }

  /**
   * The GRF table of a successful decode: the present sign-table labels among
   * the resolved ANALOG labels, in sign-table order, and as many rows as the
   * time index built from the header rates (line 128).
   */
  lemma DecodedGrf(r: Reader, junk: real)
    requires Decode(Input(true, Some(r)), true, junk).Success?
    ensures AnalogLabelText(r).Ok?
    ensures Decode(Input(true, Some(r)), true, junk).grf.Frame?
    ensures Decode(Input(true, Some(r)), true, junk).grf.table.columns == Selected(ForceLabels(AnalogLabelText(r).value)).0
    ensures r.pointRate != 0.0 &&
            |Decode(Input(true, Some(r)), true, junk).grf.table.rows| == FrameCount(r) * Trunc(r.analogRate / r.pointRate)
  {
    var prep := Prelude(r).value;
    TablesGrf(r, prep, junk);
  }

  /** Lines 19-101 without the optional groups: the same labels, plates and rates. */
  lemma PreludeWithoutOptionalGroups(r: Reader)
    requires Prelude(r).Ok?
    ensures Prelude(WithoutOptionalGroups(r)).Ok?
    ensures Prelude(WithoutOptionalGroups(r)).value == Prelude(r).value.(info := Prelude(WithoutOptionalGroups(r)).value.info)
    ensures "CAMERA_RATE" in Prelude(r).value.info && "CAMERA_RATE" in Prelude(WithoutOptionalGroups(r)).value.info
    ensures Prelude(WithoutOptionalGroups(r)).value.info["CAMERA_RATE"] == Prelude(r).value.info["CAMERA_RATE"]
    ensures "FP_RATE" in Prelude(r).value.info && "FP_RATE" in Prelude(WithoutOptionalGroups(r)).value.info
    ensures Prelude(WithoutOptionalGroups(r)).value.info["FP_RATE"] == Prelude(r).value.info["FP_RATE"]
    ensures var info := Prelude(WithoutOptionalGroups(r)).value.info;
            && (forall f :: f in ProvenanceFields ==> f in info && info[f] == NoneList)
            && (forall f :: f in MeasureFields ==> f in info && info[f] == NoneValue)
            && "Names" in info && info["Names"] == NoneValue
  {
    var bare := WithoutOptionalGroups(r);
    PreludeParts(r);
    InfoWithoutOptionalGroups(r);
    AbsentGroupsGiveSentinels(bare);
    assert AnalogLabelText(bare) == AnalogLabelText(r);
    assert PlateMids(bare) == PlateMids(r);
    var mids := PlateMids(r).value;
    PlatesKeepMetadata(InfoOf(r).value, InfoOf(bare).value, mids);
    FieldNamesAreNotPlateKeys();
    PreludeParts(bare);
  }

  /** Prelude as its steps: Info, the labels, the plate mid-points and the rates. */
  lemma PreludeParts(r: Reader)
    ensures Prelude(r).Ok? <==>
              && InfoOf(r).Ok? && AnalogLabelText(r).Ok? && |ForceLabels(AnalogLabelText(r).value)| > 0
              && PlateMids(r).Ok? && Rates(AddPlates(InfoOf(r).value, PlateMids(r).value)).Ok?
    ensures Prelude(r).Ok? ==>
              var info := AddPlates(InfoOf(r).value, PlateMids(r).value);
              Prelude(r).value ==
                Prepared(info, MocapLabels(r.pointLabels), ForceLabels(AnalogLabelText(r).value),
                         Rates(info).value.0, Rates(info).value.1)
  {
  }

  /**
   * Lines 99-100 write only plate keys, so over two Info dictionaries that
   * agree on the rates they leave the rates, and every other field, alone.
   */
  lemma PlatesKeepMetadata(i0: Info, i1: Info, mids: seq<real>)
    requires "CAMERA_RATE" in i0 && "CAMERA_RATE" in i1 && i1["CAMERA_RATE"] == i0["CAMERA_RATE"]
    requires "FP_RATE" in i0 && "FP_RATE" in i1 && i1["FP_RATE"] == i0["FP_RATE"]
    ensures Rates(AddPlates(i1, mids)) == Rates(AddPlates(i0, mids))
    ensures "CAMERA_RATE" in AddPlates(i1, mids) && AddPlates(i1, mids)["CAMERA_RATE"] == i1["CAMERA_RATE"]
    ensures "FP_RATE" in AddPlates(i1, mids) && AddPlates(i1, mids)["FP_RATE"] == i1["FP_RATE"]
    ensures "CAMERA_RATE" in AddPlates(i0, mids) && AddPlates(i0, mids)["CAMERA_RATE"] == i0["CAMERA_RATE"]
    ensures "FP_RATE" in AddPlates(i0, mids) && AddPlates(i0, mids)["FP_RATE"] == i0["FP_RATE"]
    ensures forall f :: f in i1 && (|f| == 0 || f[0] != 'x') ==>
              f in AddPlates(i1, mids) && AddPlates(i1, mids)[f] == i1[f]
  {
    PlatesRecorded(i0, mids);
    PlatesRecorded(i1, mids);
    assert "CAMERA_RATE"[0] != 'x' && "FP_RATE"[0] != 'x';
  }

  /** No Info field name looks like a plate key. */
  lemma FieldNamesAreNotPlateKeys()
    ensures forall f :: f in ProvenanceFields ==> |f| > 0 && f[0] != 'x'
    ensures forall f :: f in MeasureFields ==> |f| > 0 && f[0] != 'x'
    ensures "Names"[0] != 'x'
  {
  }

  /**
   * The sample pass depends on neither the parameter groups of the model's
   * Reader nor Info.  POINT labels and the rates are Reader fields of their
   * own, so in particular it does not depend on the three optional groups.
   */
  lemma TablesIgnoreGroups(r: Reader, r': Reader, prep: Prepared, prep': Prepared, junk: real)
    requires prep.cameraRate != 0.0
    requires r' == r.(groups := r'.groups) && prep' == prep.(info := prep'.info)
    ensures Tables(r', prep', junk) == Tables(r, prep, junk)
  {
  }

  /**
   * Lines 19-67: the optional metadata never decides the outcome.  Dropping
   * SSCDATAANDPROCESSING, PROCESSING and SUBJECTS from a file that decodes
   * leaves a file that decodes to the same tables and rates, with the
   * sentinels in place of the dropped fields.
   */
  lemma OptionalMetadataIrrelevant(r: Reader, readMocap: bool, junk: real)
    requires Decode(Input(true, Some(r)), readMocap, junk).Success?
    ensures var d := Decode(Input(true, Some(r)), readMocap, junk);
            var e := Decode(Input(true, Some(WithoutOptionalGroups(r))), readMocap, junk);
            && e.Success?
            && e.mocap == d.mocap && e.grf == d.grf
            && "CAMERA_RATE" in e.info && "CAMERA_RATE" in d.info && e.info["CAMERA_RATE"] == d.info["CAMERA_RATE"]
            && "FP_RATE" in e.info && "FP_RATE" in d.info && e.info["FP_RATE"] == d.info["FP_RATE"]
    ensures var e := Decode(Input(true, Some(WithoutOptionalGroups(r))), readMocap, junk);
            && (forall f :: f in ProvenanceFields ==> f in e.info && e.info[f] == NoneList)
            && (forall f :: f in MeasureFields ==> f in e.info && e.info[f] == NoneValue)
            && "Names" in e.info && e.info["Names"] == NoneValue
  {
    var bare := WithoutOptionalGroups(r);
    PreludeWithoutOptionalGroups(r);
    var prep, prep' := Prelude(r).value, Prelude(bare).value;
    TablesIgnoreGroups(r, bare, prep, prep', junk);
  }
}
