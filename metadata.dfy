/**
 * Metadata extraction (read_c3d.py lines 18-77): the Info dictionary is
 * filled field by field from four parameter groups, with None or [None]
 * standing in for whatever is absent, and FP_RATE is read from ANALOG.
 */
module Metadata {
  import opened Wrappers
  import opened C3dReader
  import opened Outputs

  const ProvenanceGroup := "SSCDATAANDPROCESSING"
  const MeasureGroup := "PROCESSING"
  const SubjectGroup := "SUBJECTS"
  const TrialGroup := "TRIAL"

  const ProvenanceFields: seq<string> := ["DATEOFCAPTURE", "USER", "VERSION", "DESCRIPTION", "NOTE"]
  const MeasureFields: seq<string> := ["BODYMASS", "HEIGHT"]
  const SubjectFields: seq<string> := ["Names"]
  const RateFields: seq<string> := ["CAMERA_RATE"]

  /** The raw bytes b'Zhan\xe9' of the one known mis-encoded name. */
  const ZhaneBytes: seq<byte> := [0x5A, 0x68, 0x61, 0x6E, 0xE9]

  /** Which of the four field loops a field belongs to; each treats absence its own way. */
  datatype FieldKind = Provenance | Measure | Subject | Rate

  /** `val.string_array`, with the fallback for the known mis-encoded name (lines 33-39). */
  function TextValue(p: Param): Result<InfoValue, DecodeError>
  {
    match p.text
    case Some(strings) => Ok(Strings(strings))
    case None =>
      // the second string_array raises UnicodeDecodeError again, a ValueError
      if p.firstBytes == ZhaneBytes then Ok(Text("Zhane")) else Err(TextDecodeError)
  }

  /** `val.float_value`. */
  function NumberValue(p: Param): Result<InfoValue, DecodeError>
  {
    match p.number
    case Some(x) => Ok(Number(x))
    case None => Err(Undiscovered)
  }

  /**
   * The value one iteration of a field loop stores for field `f` of group `g`
   * (None when the group is absent).  `dimensions[0]` of a parameter without
   * dimensions raises IndexError, and `.get` on an absent TRIAL group raises
   * AttributeError; both end in the bare except.
   */
  function FieldValue(kind: FieldKind, g: Option<Group>, f: string): (v: Result<InfoValue, DecodeError>)
    ensures v.Err? ==> v.error == Undiscovered || (kind == Provenance && v.error == TextDecodeError)
  {
    match g
    case None =>
      (match kind
       case Provenance => Ok(NoneList)
       case Measure => Ok(NoneValue)
       case Subject => Ok(NoneValue)
       case Rate => Err(Undiscovered))
    case Some(params) =>
      if f !in params then
        (match kind
         case Provenance => Ok(NoneList)
         case Subject => Ok(NoneList)
         case _ => Ok(NoneValue))
      else
        var p := params[f];
        match kind
        case Provenance =>
          if |p.dimensions| == 0 then Err(Undiscovered)
          else if p.dimensions[0] == 0 then Ok(NoneList)
          else TextValue(p)
        case Measure =>
          if |p.dimensions| == 0 then Err(Undiscovered)
          else if p.dimensions[0] == 0 then Ok(NoneValue)
          else NumberValue(p)
        case _ => NumberValue(p)
  }

  /** `for field in fields: info[field] = ...`, stopping at the first field that raises. */
  function AddFields(info: Info, kind: FieldKind, g: Option<Group>, fields: seq<string>): (res: Result<Info, DecodeError>)
    ensures res.Err? ==> res.error == Undiscovered || (kind == Provenance && res.error == TextDecodeError)
    decreases |fields|
  {
    if fields == [] then Ok(info)
    else
      var before :- AddFields(info, kind, g, fields[..|fields| - 1]);
      var f := fields[|fields| - 1];
      var v :- FieldValue(kind, g, f);
      Ok(before[f := v])
  }

  /** Every field of one field loop can be read without raising. */
  predicate FieldsOk(kind: FieldKind, g: Option<Group>, fields: seq<string>)
  {
    forall k :: 0 <= k < |fields| ==> FieldValue(kind, g, fields[k]).Ok?
  }

  /** When no field raises, every field gets its value and every other key keeps its own. */
  lemma {:induction false} AddFieldsOk(info: Info, kind: FieldKind, g: Option<Group>, fields: seq<string>)
    requires FieldsOk(kind, g, fields)
    ensures AddFields(info, kind, g, fields).Ok?
    ensures forall k :: 0 <= k < |fields| ==>
              fields[k] in AddFields(info, kind, g, fields).value &&
              FieldValue(kind, g, fields[k]) == Ok(AddFields(info, kind, g, fields).value[fields[k]])
    ensures forall key :: key in info ==> key in AddFields(info, kind, g, fields).value
    ensures forall key :: key in info && key !in fields ==> AddFields(info, kind, g, fields).value[key] == info[key]
    decreases |fields|
  {
    if fields != [] {
      var init := fields[..|fields| - 1];
      assert forall k :: 0 <= k < |init| ==> init[k] == fields[k];
      AddFieldsOk(info, kind, g, init);
    }
  }

  /** `val.dimensions[0] == 0`, for a parameter that has a first dimension. */
  predicate EmptyFirstDimension(p: Param)
  {
    |p.dimensions| > 0 && p.dimensions[0] == 0
  }

  /** A field loop raises exactly when some field raises, and then with the error of the first one. */
  lemma {:induction false} AddFieldsErr(info: Info, kind: FieldKind, g: Option<Group>, fields: seq<string>)
    ensures AddFields(info, kind, g, fields).Err? <==>
      exists k :: 0 <= k < |fields| && FieldValue(kind, g, fields[k]).Err?
    ensures AddFields(info, kind, g, fields).Err? ==>
      exists k :: 0 <= k < |fields| && FieldValue(kind, g, fields[k]) == Err(AddFields(info, kind, g, fields).error) &&
        forall m :: 0 <= m < k ==> FieldValue(kind, g, fields[m]).Ok?
    decreases |fields|
  {
    if fields != [] {
      var init := fields[..|fields| - 1];
      AddFieldsErr(info, kind, g, init);
      assert forall k :: 0 <= k < |init| ==> init[k] == fields[k];
    }
  }

  /** The four field loops run in the method below, as one field list. */
  method ReadFields(info: Info, kind: FieldKind, g: Option<Group>, fields: seq<string>)
    returns (res: Result<Info, DecodeError>)
    ensures res == AddFields(info, kind, g, fields)
  {
    var acc := info;
    for i := 0 to |fields|
      invariant AddFields(info, kind, g, fields[..i]) == Ok(acc)
    {
      assert fields[..i + 1][..i] == fields[..i];
      var v := FieldValue(kind, g, fields[i]);
      if v.Err? {
        AddFieldsPrefixErr(info, kind, g, fields, i + 1);
        return Err(v.error);
      }
      acc := acc[fields[i] := v.value];
    }
    assert fields[..|fields|] == fields;
    return Ok(acc);
  }

  /** Once a prefix of the fields raises, the whole loop raises the same error. */
  lemma {:induction false} AddFieldsPrefixErr(info: Info, kind: FieldKind, g: Option<Group>, fields: seq<string>, n: nat)
    requires n <= |fields|
    requires AddFields(info, kind, g, fields[..n]).Err?
    ensures AddFields(info, kind, g, fields) == AddFields(info, kind, g, fields[..n])
    decreases |fields| - n
  {
    if n < |fields| {
      assert fields[..|fields| - 1][..n] == fields[..n];
      AddFieldsPrefixErr(info, kind, g, fields[..|fields| - 1], n);
    } else {
      assert fields[..n] == fields;
    }
  }

  /** `reader.get('ANALOG').get('RATE').float_value` (line 77): any absence raises AttributeError. */
  function AnalogRate(r: Reader): Result<real, DecodeError>
  {
    if "ANALOG" !in r.groups || "RATE" !in r.groups["ANALOG"] then Err(Undiscovered)
    else
      match r.groups["ANALOG"]["RATE"].number
      case Some(x) => Ok(x)
      case None => Err(Undiscovered)
  }

  /** Lines 18-77: the Info dictionary as far as FP_RATE, or the error that stops it. */
  function InfoOf(r: Reader): (res: Result<Info, DecodeError>)
    ensures res.Err? ==> res.error == Undiscovered || res.error == TextDecodeError
  {
    var i1 :- AddFields(map[], Provenance, GetGroup(r, ProvenanceGroup), ProvenanceFields);
    var i2 :- AddFields(i1, Measure, GetGroup(r, MeasureGroup), MeasureFields);
    var i3 :- AddFields(i2, Subject, GetGroup(r, SubjectGroup), SubjectFields);
    var i4 :- AddFields(i3, Rate, GetGroup(r, TrialGroup), RateFields);
    var fpRate :- AnalogRate(r);
    Ok(i4["FP_RATE" := Number(fpRate)])
  }

  /** Lines 18-77 as the code runs them: four field loops writing into one dictionary. */
  method ExtractInfo(r: Reader) returns (res: Result<Info, DecodeError>)
    ensures res == InfoOf(r)
  {
    var info: Info := map[];
    info :- ReadFields(info, Provenance, GetGroup(r, ProvenanceGroup), ProvenanceFields);
    info :- ReadFields(info, Measure, GetGroup(r, MeasureGroup), MeasureFields);
    info :- ReadFields(info, Subject, GetGroup(r, SubjectGroup), SubjectFields);
    info :- ReadFields(info, Rate, GetGroup(r, TrialGroup), RateFields);
    var fpRate :- AnalogRate(r);
    return Ok(info["FP_RATE" := Number(fpRate)]);
  }


  /** InfoOf succeeds exactly when no field raises and ANALOG.RATE is readable. */
  lemma InfoOfSucceeds(r: Reader)
    ensures InfoOf(r).Ok? <==>
      FieldsOk(Provenance, GetGroup(r, ProvenanceGroup), ProvenanceFields) &&
      FieldsOk(Measure, GetGroup(r, MeasureGroup), MeasureFields) &&
      FieldsOk(Subject, GetGroup(r, SubjectGroup), SubjectFields) &&
      FieldsOk(Rate, GetGroup(r, TrialGroup), RateFields) &&
      AnalogRate(r).Ok?
  {
    var g1, g2, g3, g4 := GetGroup(r, ProvenanceGroup), GetGroup(r, MeasureGroup), GetGroup(r, SubjectGroup), GetGroup(r, TrialGroup);
    AddFieldsErr(map[], Provenance, g1, ProvenanceFields);
    var s1 := AddFields(map[], Provenance, g1, ProvenanceFields);
    if s1.Ok? {
      AddFieldsErr(s1.value, Measure, g2, MeasureFields);
      var s2 := AddFields(s1.value, Measure, g2, MeasureFields);
      if s2.Ok? {
        AddFieldsErr(s2.value, Subject, g3, SubjectFields);
        var s3 := AddFields(s2.value, Subject, g3, SubjectFields);
        if s3.Ok? {
          AddFieldsErr(s3.value, Rate, g4, RateFields);
        }
      }
    }
  }

  /** Each key of a successful Info holds the value its own field loop gives it. */
  lemma InfoOfValue(r: Reader, f: string)
    requires InfoOf(r).Ok?
    ensures f in ProvenanceFields ==>
              f in InfoOf(r).value && FieldValue(Provenance, GetGroup(r, ProvenanceGroup), f) == Ok(InfoOf(r).value[f])
    ensures f in MeasureFields ==>
              f in InfoOf(r).value && FieldValue(Measure, GetGroup(r, MeasureGroup), f) == Ok(InfoOf(r).value[f])
    ensures f in SubjectFields ==>
              f in InfoOf(r).value && FieldValue(Subject, GetGroup(r, SubjectGroup), f) == Ok(InfoOf(r).value[f])
    ensures f in RateFields ==>
              f in InfoOf(r).value && FieldValue(Rate, GetGroup(r, TrialGroup), f) == Ok(InfoOf(r).value[f])
    ensures "FP_RATE" in InfoOf(r).value && InfoOf(r).value["FP_RATE"] == Number(AnalogRate(r).value)
  {
    InfoOfSucceeds(r);
    var g1, g2, g3, g4 := GetGroup(r, ProvenanceGroup), GetGroup(r, MeasureGroup), GetGroup(r, SubjectGroup), GetGroup(r, TrialGroup);
    AddFieldsOk(map[], Provenance, g1, ProvenanceFields);
    var i1 := AddFields(map[], Provenance, g1, ProvenanceFields).value;
    AddFieldsOk(i1, Measure, g2, MeasureFields);
    var i2 := AddFields(i1, Measure, g2, MeasureFields).value;
    AddFieldsOk(i2, Subject, g3, SubjectFields);
    var i3 := AddFields(i2, Subject, g3, SubjectFields).value;
    AddFieldsOk(i3, Rate, g4, RateFields);
    var i4 := AddFields(i3, Rate, g4, RateFields).value;
    assert InfoOf(r).value == i4["FP_RATE" := Number(AnalogRate(r).value)];
    FieldListsDisjoint();
    if f in ProvenanceFields {
      assert i4[f] == i3[f] == i2[f] == i1[f];
    } else if f in MeasureFields {
      assert i4[f] == i3[f] == i2[f];
    } else if f in SubjectFields {
      assert i4[f] == i3[f];
    }
  }

  /** No key is written by two of the field loops, nor by the FP_RATE line. */
  lemma FieldListsDisjoint()
    ensures forall f :: f in ProvenanceFields ==> f !in MeasureFields && f !in SubjectFields && f !in RateFields
    ensures forall f :: f in MeasureFields ==> f !in SubjectFields && f !in RateFields
    ensures forall f :: f in SubjectFields ==> f !in RateFields
    ensures forall f :: f in ProvenanceFields + MeasureFields + SubjectFields + RateFields ==> f != "FP_RATE"
  {
  }

  /** With none of the three optional groups present, Info is still built, from sentinels. */
  lemma AbsentGroupsGiveSentinels(r: Reader)
    requires ProvenanceGroup !in r.groups && MeasureGroup !in r.groups && SubjectGroup !in r.groups
    requires FieldValue(Rate, GetGroup(r, TrialGroup), "CAMERA_RATE").Ok? && AnalogRate(r).Ok?
    ensures InfoOf(r).Ok?
    ensures forall f :: f in ProvenanceFields ==> f in InfoOf(r).value && InfoOf(r).value[f] == NoneList
    ensures forall f :: f in MeasureFields ==> f in InfoOf(r).value && InfoOf(r).value[f] == NoneValue
    ensures "Names" in InfoOf(r).value && InfoOf(r).value["Names"] == NoneValue
  {
    InfoOfSucceeds(r);
    forall f | f in ProvenanceFields + MeasureFields + SubjectFields
      ensures f in InfoOf(r).value
      ensures f in ProvenanceFields ==> InfoOf(r).value[f] == NoneList
      ensures f in MeasureFields ==> InfoOf(r).value[f] == NoneValue
      ensures f in SubjectFields ==> InfoOf(r).value[f] == NoneValue
    {
      InfoOfValue(r, f);
    }
  }

  /** A reader without the three optional groups. */
  function WithoutOptionalGroups(r: Reader): (bare: Reader)
    ensures ProvenanceGroup !in bare.groups && MeasureGroup !in bare.groups && SubjectGroup !in bare.groups
    ensures forall name :: name in r.groups && name !in {ProvenanceGroup, MeasureGroup, SubjectGroup} ==>
              name in bare.groups && bare.groups[name] == r.groups[name]
  {
    r.(groups := r.groups - {ProvenanceGroup, MeasureGroup, SubjectGroup})
  }

  /**
   * Lines 19-67: whatever the optional groups hold, a reader whose Info can
   * be built still has one without them, with the same rates.
   */
  lemma InfoWithoutOptionalGroups(r: Reader)
    requires InfoOf(r).Ok?
    ensures InfoOf(WithoutOptionalGroups(r)).Ok?
    ensures "CAMERA_RATE" in InfoOf(r).value && "CAMERA_RATE" in InfoOf(WithoutOptionalGroups(r)).value
    ensures InfoOf(WithoutOptionalGroups(r)).value["CAMERA_RATE"] == InfoOf(r).value["CAMERA_RATE"]
    ensures "FP_RATE" in InfoOf(r).value && "FP_RATE" in InfoOf(WithoutOptionalGroups(r)).value
    ensures InfoOf(WithoutOptionalGroups(r)).value["FP_RATE"] == InfoOf(r).value["FP_RATE"]
  {
    var bare := WithoutOptionalGroups(r);
    InfoOfSucceeds(r);
    assert GetGroup(bare, TrialGroup) == GetGroup(r, TrialGroup);
    assert AnalogRate(bare) == AnalogRate(r);
    assert FieldValue(Rate, GetGroup(bare, TrialGroup), RateFields[0]).Ok?;
    AbsentGroupsGiveSentinels(bare);
    InfoOfValue(r, "CAMERA_RATE");
    InfoOfValue(bare, "CAMERA_RATE");
  }

  /**
   * Inside a present group, a missing field (or, for the provenance and
   * measure fields, one whose first dimension is 0) gets its loop's sentinel;
   * a missing Names gets [None], unlike a missing SUBJECTS group.
   */
  lemma AbsentFieldsGiveSentinels(r: Reader, f: string)
    requires InfoOf(r).Ok?
    ensures (f in ProvenanceFields && ProvenanceGroup in r.groups &&
             (f !in r.groups[ProvenanceGroup] || EmptyFirstDimension(r.groups[ProvenanceGroup][f]))) ==>
      f in InfoOf(r).value && InfoOf(r).value[f] == NoneList
    ensures (f in MeasureFields && MeasureGroup in r.groups &&
             (f !in r.groups[MeasureGroup] || EmptyFirstDimension(r.groups[MeasureGroup][f]))) ==>
      f in InfoOf(r).value && InfoOf(r).value[f] == NoneValue
    ensures (f in SubjectFields && SubjectGroup in r.groups && f !in r.groups[SubjectGroup]) ==>
      f in InfoOf(r).value && InfoOf(r).value[f] == NoneList
  {
    InfoOfValue(r, f);
  }

  /**
   * A provenance field whose strings cannot be decoded survives only when its
   * raw first element is b'Zhan\xe9', and then holds the plain string "Zhane".
   */
  lemma ZhaneFallback(r: Reader, f: string)
    requires f in ProvenanceFields && ProvenanceGroup in r.groups && f in r.groups[ProvenanceGroup]
    requires |r.groups[ProvenanceGroup][f].dimensions| > 0 && r.groups[ProvenanceGroup][f].dimensions[0] != 0
    requires r.groups[ProvenanceGroup][f].text.None?
    ensures InfoOf(r).Ok? ==> r.groups[ProvenanceGroup][f].firstBytes == ZhaneBytes
    ensures InfoOf(r).Ok? ==> f in InfoOf(r).value && InfoOf(r).value[f] == Text("Zhane")
    ensures r.groups[ProvenanceGroup][f].firstBytes != ZhaneBytes ==> InfoOf(r).Err?
  {
    InfoOfSucceeds(r);
    if InfoOf(r).Ok? {
      InfoOfValue(r, f);
    }
    var k :| 0 <= k < |ProvenanceFields| && ProvenanceFields[k] == f;
    if r.groups[ProvenanceGroup][f].firstBytes != ZhaneBytes {
      assert FieldValue(Provenance, GetGroup(r, ProvenanceGroup), ProvenanceFields[k]).Err?;
    }
  }
}
