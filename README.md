# read_c3d, modelled in Dafny

This project models `read_c3d(file, read_mocap)` from `read_c3d.py`. That
function decodes one C3D motion-capture file into a dictionary. On failure
the dictionary has only an `'Error'` key. On success it has `Info` (capture
metadata, the two sample rates and each force plate's mean corner X), `MoCap`
(one row per frame, three columns per marker) and `GRF` (one row per analog
sample, holding the plate-force channels Fx1 … Fz2 that are present, negated
the way Vicon displays them). Which physical channel's samples land in a GRF
column depends on the layout of the `analog` array the `c3d` package yields
for each frame, which line 114 reshapes to (ratio, channels) row by row; the
model takes that array's row-major order as given.

The C3D container is parsed by the foreign `c3d` package, so the model takes
that package's answers as plain data, in `C3dReader.Reader`:

- the parameter groups;
- the POINT labels;
- the header frame bounds and rates;
- the per-plate mean corner X;
- the stream of `(frame, points, analog)` records.

Everything `read_c3d` does on top of that is modelled, except what "## Left out" lists.

| module | models |
|---|---|
| `Outputs` | the result dictionary, the Info values (`None`, `[None]`, strings, `'Zhane'`, floats), the error kinds of the three `except` clauses |
| `C3dReader` | the reader as abstract input data |
| `Metadata` | the four field loops that fill Info with sentinels, the `'Zhane'` fallback, `FP_RATE` |
| `Labels` | marker names expanded to `_x/_y/_z` channels; analog labels with spaces, `Force.` and `Moment.` removed |
| `FrameSync` | the truncated frequency ratio, the linspace boundary table, the single pass that fills the two preallocated `array2` buffers |
| `SignCorrection` | the loop that picks Fx1 … Fz2, `df[labels]` and `df * label_weights` |
| `ReadC3d` | the whole function: the hard failures, the plate keys, the time-index shape checks, both tables, and layout theorems relating the tables to the record stream |

Each imperative part of the source is a method proved equal to a
specification function:

- `Metadata.ExtractInfo` and `Metadata.ReadFields` are the field loops;
- `ReadC3d.Prepare` is the plate-key loop;
- `FrameSync.FillFrames` and `FrameSync.WriteRecord` are the fill pass over the arrays;
- `SignCorrection.SelectSigned` is the sign loop;
- `ReadC3d.BuildTables` is the buffer allocation and fill of lines 103-135;
- `ReadC3d.ReadC3dFile` is the method form of `ReadC3d.Decode`, the entry point (it has no loop of its own).

The lemmas state what the source promises about those functions.

Where the code and its documentation differ, the model follows the code:

- The frequency ratio is `int()` of the rate quotient, which truncates. A non-integral ratio is not rejected.
- The GRF step returns only the present Fx1 … Fz2 columns, negated. Every other analog column is dropped; the columns are not negated in place.
- `Names` is read with `float_value`, not as a string list.
- Numpy and pandas shape mismatches are `ValueError`s. They therefore report their own message (`ShapeError`), not "Previously undiscovered error".
- The file handle is closed before the no-force-plate error (line 92) and on success (line 139), but not on the other exception paths, so no exit-path guarantee is stated.

The analog buffer has `int(frames * FP_RATE / CAMERA_RATE)` rows. These are
the rows the boundary table spreads over the frames. The GRF time index has
`frames * int(analog_rate / point_rate)` entries, taken from the header rates.
The model keeps the two counts apart: the decode fails with `ShapeError`
when they differ (`ReadC3d.TimeIndexFailure`).

## Model

| member | source | states |
|---|---|---|
| Labels.RemoveAll | read_c3d.py:88-90 | `str.replace(pat, '')` never lengthens a string and introduces no new character |
| Labels.RemoveAllIdentity | read_c3d.py:88-90 | removing a pattern leaves a string unchanged if and only if the pattern does not occur in it |
| Labels.RemoveAllShrinks | read_c3d.py:88-90 | removing a pattern that occurs strictly shortens the string |
| Labels.RemoveCharGone | read_c3d.py:83-88 | after removing a one-character pattern that character is absent |
| Labels.StripSpaces | read_c3d.py:83 | definition: `x.replace(' ', '')` for one marker name; MocapLabels places it in every channel name and MocapLabelsHaveNoSpaces shows no space is left |
| Labels.ExpandAxes | read_c3d.py:84 | 3 × n channel names; entry j is name j / 3 followed by `_x`, `_y` or `_z` for j % 3 |
| Labels.MocapLabels | read_c3d.py:82-84 | length is 3 × marker count; entry 3i+k is marker i without spaces plus the k-th axis suffix, so marker order is kept |
| Labels.MocapLabelsHaveNoSpaces | read_c3d.py:83-84 | no mocap channel name contains a space |
| Labels.RemoveEach | read_c3d.py:88-90 | definition: one comprehension `[x.replace(pat, '') for x in labels]`; ForceLabels states the count, order and entries of the three in turn |
| Labels.NormalizeForceLabel | read_c3d.py:88-90 | definition: one analog label after the space, `Force.` and `Moment.` removals in that order; ForceLabels, NormalizeUnchanged and NormalizedHasNoSpaces specify it |
| Labels.ForceLabels | read_c3d.py:85-90 | same count and order as the raw labels; entry i is raw label i with all spaces, then all `Force.`, then all `Moment.` removed |
| Labels.NormalizeUnchanged | read_c3d.py:88-90 | a label containing no space, `Force.` or `Moment.` comes out unchanged |
| Labels.NormalizedHasNoSpaces | read_c3d.py:88-90 | a normalised analog label contains no space |
| C3dReader.GetGroup | read_c3d.py:20-70 | definition: `reader.get(name)` for the four groups Info reads, None when absent; AbsentGroupsGiveSentinels, InfoOfValue and WithoutOptionalGroups state what a present or absent group gives |
| Metadata.TextValue | read_c3d.py:33-39 | `string_array`, or on UnicodeDecodeError `'Zhane'` for the bytes `Zhan\xe9` and otherwise the decode error; specified by ZhaneFallback and InfoOfValue |
| Metadata.NumberValue | read_c3d.py:54 | `float_value` (also lines 67 and 76), or the generic error; specified through FieldValue and InfoOfValue |
| Metadata.FieldValue | read_c3d.py:19-76 | one field's value or error; the only errors are the generic one and, for the provenance strings, the decode error |
| Metadata.AddFields | read_c3d.py:19-76 | a field loop fails only with the generic error or, for provenance, the decode error |
| Metadata.AddFieldsOk | read_c3d.py:19-76 | when no field raises, each field holds its own value and every other key keeps its old value |
| Metadata.AddFieldsErr | read_c3d.py:19-76 | a field loop raises if and only if some field raises, and then with the error of the first such field |
| Metadata.ReadFields | read_c3d.py:19-76 | the imperative field loop yields exactly the dictionary, or the error, of the field-loop specification |
| Metadata.AnalogRate | read_c3d.py:77 | ANALOG.RATE's float value, or the generic error when the group, the parameter or the value is missing; InfoOfSucceeds and InfoOfValue tie it to FP_RATE |
| Metadata.InfoOf | read_c3d.py:18-77 | Info, or a generic or decode error |
| Metadata.ExtractInfo | read_c3d.py:18-77 | the four imperative loops and the FP_RATE line compute exactly `InfoOf` |
| Metadata.InfoOfSucceeds | read_c3d.py:18-77 | Info is built if and only if every field of the four loops is readable and ANALOG.RATE has a float value |
| Metadata.InfoOfValue | read_c3d.py:18-77 | in a built Info every field holds the value its own loop gives it, and FP_RATE holds ANALOG.RATE |
| Metadata.FieldListsDisjoint | read_c3d.py:19-77 | no key is written by two loops, and none by both a loop and the FP_RATE line |
| Metadata.AbsentGroupsGiveSentinels | read_c3d.py:19-60 | without SSCDATAANDPROCESSING, PROCESSING and SUBJECTS, Info is still built: `[None]` for the five provenance fields, `None` for BODYMASS/HEIGHT and for Names |
| Metadata.WithoutOptionalGroups | read_c3d.py:20-56 | drops exactly the three optional groups and keeps every other group |
| Metadata.InfoWithoutOptionalGroups | read_c3d.py:19-77 | dropping the optional groups from a readable file keeps Info buildable with the same CAMERA_RATE and FP_RATE |
| Metadata.AbsentFieldsGiveSentinels | read_c3d.py:26-65 | inside a present group: a missing or zero-dimension provenance field gives `[None]`; a missing or zero-dimension BODYMASS/HEIGHT gives `None`; a missing Names gives `[None]` |
| Metadata.ZhaneFallback | read_c3d.py:33-39 | an undecodable provenance field survives only with the raw bytes `Zhan\xe9`, and then holds `'Zhane'`; any other bytes make the decode fail |
| FrameSync.Trunc | read_c3d.py:101 | Python `int()` of a float: the integer between zero and the value, less than one away from it |
| FrameSync.FrequencyRatio | read_c3d.py:101 | `int(FP_RATE / CAMERA_RATE)`; ExactRatio gives its value for an exact multiple |
| FrameSync.ForceFrameCount | read_c3d.py:105 | `int(frames * (FP_RATE / CAMERA_RATE))`, the analog buffer's row count; ExactRatio gives frames × R for an exact multiple |
| FrameSync.ExactRatio | read_c3d.py:101-105 | when FP_RATE is R × CAMERA_RATE, the ratio is R and the analog row count is frames × R |
| FrameSync.Boundaries | read_c3d.py:107 | the boundary table has frames + 1 entries |
| FrameSync.QuotientIsDiv | read_c3d.py:107 | the boundary quotient is floor division |
| FrameSync.BoundaryValue | read_c3d.py:107 | boundary i is i × force_frames / frames, rounded down (0 when there are no frames) |
| FrameSync.BoundariesValid | read_c3d.py:107 | the table starts at 0, ends at force_frames and never decreases |
| FrameSync.BoundariesEven | read_c3d.py:107 | when force_frames = frames × ratio, boundary i is i × ratio |
| FrameSync.BoundariesSpread | read_c3d.py:107 | every frame owns force_frames / frames analog rows, or one more |
| FrameSync.InBounds | read_c3d.py:110 | definition: the frame-number test of line 110; KeptMembers and KeptPositions state which records pass it |
| FrameSync.Kept | read_c3d.py:109-111 | the decoded records are no longer than the stream, and only that; their order is stated by KeptInOrder and their membership by KeptMembers |
| FrameSync.KeptPositions | read_c3d.py:109-111 | every in-bounds stream position and no other, in increasing order |
| FrameSync.KeptInOrder | read_c3d.py:109-115 | decoded record k is the record at the k-th in-bounds position, so the decoded records are the in-bounds records in stream order |
| FrameSync.KeptAppend | read_c3d.py:109-111 | skipping and keeping records distributes over a split of the stream |
| FrameSync.KeptMembers | read_c3d.py:110-111 | a record is decoded if and only if its frame number is within [first_frame, last_frame] |
| FrameSync.Owner | read_c3d.py:113-114 | definition: which frame's slice `force_data[force_frame[k]:force_frame[k+1], :]` covers analog row j; OwnerIsLast, OwnerBounds, OwnerUnique and EvenOwner specify it |
| FrameSync.OwnerIsLast | read_c3d.py:113-114 | the owner of row j is the last frame whose boundary is at most j (frame 0 when none is); every later frame starts above j |
| FrameSync.OwnerBounds | read_c3d.py:113-114 | every analog row below force_frames lies in the slice [b[k], b[k+1]) of one frame k |
| FrameSync.OwnerUnique | read_c3d.py:113-114 | the frame whose slice contains a row is that row's owner |
| FrameSync.ForceCell | read_c3d.py:113-114 | definition: analog row j, column c once its owner has been written, the owner's reshaped sample; FilledRows, ForceCellExtend and FillFrames state where it lands |
| FrameSync.RecordFailure | read_c3d.py:112-114 | decoding one record fails only with a shape error or the generic index error |
| FrameSync.FillFailure | read_c3d.py:109-115 | the pass fails only with a shape error or the generic index error |
| FrameSync.FillFailureAppend | read_c3d.py:109-115 | once a prefix of the stream fails, the whole pass fails with the same error |
| FrameSync.FillSucceeds | read_c3d.py:109-115 | a pass without failure decodes at most `frames` records, and every one of them fits its row and slice |
| FrameSync.MocapCell | read_c3d.py:112 | one cell of the reshaped points row; MocapCellMarker places marker m's axes |
| FrameSync.AnalogCell | read_c3d.py:113-114 | one cell of `np.array(analog).reshape(ratio, n)`, a single row broadcast when ratio is 1; FilledRows, EvenOwner and TablesEven place it |
| FrameSync.MocapRows | read_c3d.py:104-115 | the mocap buffer after the pass; FilledRows, MocapSnapshot and FillFrames state its rows |
| FrameSync.ForceRows | read_c3d.py:104-115 | the analog buffer after the pass; FilledRows, ForceSnapshot and FillFrames state its rows |
| FrameSync.MocapCellMarker | read_c3d.py:112 | marker m's x, y and z land in mocap columns 3m, 3m+1 and 3m+2 |
| FrameSync.FilledRows | read_c3d.py:109-115 | the k-th decoded record owns mocap row k and analog rows [b[k], b[k+1]); every later row keeps the np.empty value |
| FrameSync.EvenOwner | read_c3d.py:113-114 | with force_frames = frames × ratio, analog row j is row j % ratio of frame j / ratio |
| FrameSync.ForceCellExtend | read_c3d.py:113-114 | decoding one more record leaves the analog rows of earlier records untouched and fills exactly its own slice |
| FrameSync.Cells | read_c3d.py:121-128 | definition: a two-dimensional buffer read as rows (the data a DataFrame is built from); MocapSnapshot and ForceSnapshot state what the filled buffers read as |
| FrameSync.MocapSnapshot | read_c3d.py:121 | a filled mocap buffer, read as rows, is the mocap row specification |
| FrameSync.ForceSnapshot | read_c3d.py:128 | a filled analog buffer, read as rows, is the analog row specification |
| FrameSync.WriteRecord | read_c3d.py:112-114 | one record writes mocap row k and analog rows [b[k], b[k+1]), and no other cell |
| FrameSync.FailureDecides | read_c3d.py:109-115 | the first record that raises decides the outcome of the whole pass |
| FrameSync.KeptSkip | read_c3d.py:110-111 | an out-of-bounds record does not advance `current_frame` |
| FrameSync.KeptStep | read_c3d.py:109-115 | a decoded record that does not raise advances `current_frame` by one, and was below the buffer's row count |
| FrameSync.FillFailureStep | read_c3d.py:109-115 | the pass continues past a record that does not raise |
| FrameSync.FillFrames | read_c3d.py:109-115 | the in-place loop fails exactly as the specification says; otherwise the k-th in-bounds record has written mocap row k and analog rows [b[k], b[k+1]), and every other cell is unchanged |
| SignCorrection.Selected | read_c3d.py:130-134 | definition: the `(labels, label_weights)` pair built from the sign table; SignSelection and SelectSigned specify it |
| SignCorrection.SelectFrom | read_c3d.py:130-134 | as many weights as labels, at most one per table entry |
| SignCorrection.SelectSigned | read_c3d.py:130-134 | the accumulating loop yields exactly the selection specification |
| SignCorrection.SelectFromMembers | read_c3d.py:132-134 | a label is selected if and only if it is both a table key and a column |
| SignCorrection.SelectFromWeights | read_c3d.py:131-134 | each selected label carries its own weight from the table |
| SignCorrection.SelectFromOrder | read_c3d.py:131-134 | with distinct keys, the selected labels follow the table's order |
| SignCorrection.SignSelection | read_c3d.py:130-134 | exactly the present channels among Fx1 … Fz2, in that fixed order, each once, each with weight −1 |
| SignCorrection.Occurrences | read_c3d.py:135 | only positions of columns with the given name; non-empty if and only if the name is a column (completeness and order are in OccurrencesAll) |
| SignCorrection.OccurrencesAll | read_c3d.py:135 | every column with the name is listed, in increasing column order, as pandas `df[labels]` selects them |
| SignCorrection.OnlyColumn | read_c3d.py:135 | a name with one occurrence names no column other than its first one |
| SignCorrection.Selection | read_c3d.py:135 | the column positions `df[labels]` picks, every occurrence of each label in label order, all within the table; SelectionCount and SelectionSingle state its length and entries |
| SignCorrection.SelectColumns | read_c3d.py:135 | `df[labels]` raises KeyError if and only if some label is missing; otherwise it keeps every row and yields one column per matching position |
| SignCorrection.PickRow | read_c3d.py:135 | definition: one row of `df[labels]`; SelectCell and ApplySignsColumns state its cells |
| SignCorrection.Scale | read_c3d.py:135 | `df * weights` raises ValueError if and only if the column and weight counts differ; otherwise it keeps the columns and rows |
| SignCorrection.WeighRow | read_c3d.py:135 | definition: one row of `df * label_weights`; ScaleCell and SignedColumns state its cells |
| SignCorrection.SelectionCount | read_c3d.py:135 | every present label selects at least one column, and exactly one when the counts agree |
| SignCorrection.SelectionSingle | read_c3d.py:135 | with one column per label, the selection is each label's own position |
| SignCorrection.FirstColumnIsFirst | read_c3d.py:135 | the column used for a label is its first occurrence |
| SignCorrection.ApplySigns | read_c3d.py:135 | `force_data[labels] * label_weights`, selection then scaling; specified by ApplySignsColumns, SignedColumns and SignTwice |
| SignCorrection.ApplySignsColumns | read_c3d.py:135 | with a weight per label, the step succeeds if and only if every label names exactly one column; cell (i, k) is then weight k times the raw column named `labels[k]` |
| SignCorrection.SignedCells | read_c3d.py:135 | with one column per label, every cell is weight k times its label's raw column |
| SignCorrection.SignedLabels | read_c3d.py:135 | with one column per label, the result's columns are the labels and it keeps every row |
| SignCorrection.ScaledCell | read_c3d.py:135 | one cell of the selected, scaled table |
| SignCorrection.SignedColumns | read_c3d.py:130-135 | a successful GRF step has exactly the selected labels as columns, each naming one raw column; every row is kept and each cell is the raw value negated |
| SignCorrection.SignedCell | read_c3d.py:130-135 | GRF cell (i, k) is the negated raw value of label k's column |
| SignCorrection.SignTwice | read_c3d.py:135 | applying the ±1 weights again restores the raw selected columns |
| SignCorrection.SignInvolution | read_c3d.py:135 | multiplying twice by ±1 is the identity |
| ReadC3d.NatToString | read_c3d.py:100 | `str()` of a number has at least one digit, and exactly one below 10 |
| ReadC3d.NatToStringInjective | read_c3d.py:100 | different numbers print differently |
| ReadC3d.PlateKey | read_c3d.py:100 | a plate key is non-empty and starts with `x` |
| ReadC3d.PlateKeysDistinct | read_c3d.py:100 | no two plates share an Info key |
| ReadC3d.AddPlates | read_c3d.py:99-100 | one Info key per plate; specified by PlatesRecorded and PlatesKeepMetadata, and computed in a loop by Prepare |
| ReadC3d.PlatesRecorded | read_c3d.py:99-100 | every plate gets its own key holding its mean corner X; keys not starting with `x` keep their values |
| ReadC3d.AnalogLabelText | read_c3d.py:85-87 | ANALOG.LABELS as strings, the generic error when absent, the decode error on bad bytes; NoForcePlateResult and DecodedGrf use it |
| ReadC3d.PlateMids | read_c3d.py:94-98 | each plate's mean corner X, the generic error when CORNERS is absent, a shape error when it is not three-dimensional; PreludeParts uses it |
| ReadC3d.FrameCount | read_c3d.py:103 | the frame count between the header bounds; TablesMocap and TablesGrf give the table sizes in terms of it |
| ReadC3d.Rates | read_c3d.py:101 | the rates are only returned with a non-zero camera rate; otherwise the error is the generic one |
| ReadC3d.Prelude | read_c3d.py:18-101 | lines 18-101 succeed only with a non-zero camera rate and a non-empty force-label list |
| ReadC3d.Prepare | read_c3d.py:18-101 | the imperative metadata, label and plate-key steps compute exactly the prelude specification |
| ReadC3d.TimeIndexFailure | read_c3d.py:117-128 | the time indices fail only with a shape or generic error; otherwise the point rate is non-zero and frames × `int(analog_rate / point_rate)` equals the analog row count |
| ReadC3d.Tables | read_c3d.py:103-135 | the sample pass fails only with a shape error or the generic error |
| ReadC3d.BuildTables | read_c3d.py:103-135 | allocating, filling and sign-correcting the buffers yields exactly the tables of the specification |
| ReadC3d.Decode | read_c3d.py:2-148 | the top-level specification of the result dictionary; ReadC3dFile computes it, and OpenFailures, NoForcePlateResult, MetadataOnly, DecodedMocap, DecodedGrf and OptionalMetadataIrrelevant state its properties |
| ReadC3d.ReadC3dFile | read_c3d.py:2-148 | the method form of `Decode`: the entry point returns exactly the result dictionary `Decode` specifies |
| Outputs.ErrorMessage | read_c3d.py:9-148 | definition: the fixed 'Error' strings of lines 9, 16, 93 and 148, none for library-raised ValueErrors; OpenFailures and NoForcePlateResult state which outcome carries which |
| ReadC3d.OpenFailures | read_c3d.py:8-16 | a missing file gives only 'File does not exist'; an unreadable one gives only 'Reading Error of file' |
| ReadC3d.NoForcePlateResult | read_c3d.py:85-93 | the result is the no-force-plate error if and only if Info is built and ANALOG.LABELS is an empty list |
| ReadC3d.MetadataOnly | read_c3d.py:136-140 | with `read_mocap` false, a success has empty MoCap and GRF, the same Info as a full decode and the same earlier errors; a full success has both tables |
| ReadC3d.FilledMocapLayout | read_c3d.py:103-115 | a pass without failure leaves the MoCap layout |
| ReadC3d.TablesMocap | read_c3d.py:103-121 | MoCap has the resolved labels as columns and one row per frame; row k holds marker m of the k-th in-bounds record in columns 3m..3m+2; later rows are never written |
| ReadC3d.TablesSteps | read_c3d.py:103-135 | a successful pass has no fill failure and no time-index failure, and its tables are the filled buffers |
| ReadC3d.SignedForceCell | read_c3d.py:113-135 | GRF cell (j, k) is the negated analog value of row j's owner, or the negated blank past the decoded records |
| ReadC3d.SignedLayout | read_c3d.py:105-135 | the sign step over the filled analog rows has the GRF layout |
| ReadC3d.TablesGrf | read_c3d.py:101-135 | GRF has force_frames rows = frames × `int(analog_rate / point_rate)`; a decoded record's analog row j is in the slice of the frame owning j, negated, in the column of its label; later rows hold the negated blank |
| ReadC3d.TablesEven | read_c3d.py:101-135 | with an exact ratio R, GRF has frames × R rows, and row j holds the negated analog row j % R of the (j / R)-th in-bounds record |
| ReadC3d.EvenSignedRows | read_c3d.py:107-135 | the GRF layout read with an exact ratio: row j belongs to record j / R at sub-row j % R |
| ReadC3d.DecodedMocap | read_c3d.py:2-121 | a successful full decode has the MoCap layout over the resolved POINT labels, and every decoded record has one point per marker |
| ReadC3d.DecodedGrf | read_c3d.py:2-135 | a successful full decode's GRF columns are the present sign-table labels among the resolved analog labels, with frames × `int(analog_rate / point_rate)` rows |
| ReadC3d.PreludeWithoutOptionalGroups | read_c3d.py:19-101 | without the optional groups, lines 18-101 still succeed with the same labels and rates and with sentinels for the dropped fields |
| ReadC3d.PreludeParts | read_c3d.py:18-101 | lines 18-101 succeed if and only if each of their steps does, and then compose them |
| ReadC3d.PlatesKeepMetadata | read_c3d.py:99-100 | writing the plate keys leaves the rates and every field name not starting with `x` alone |
| ReadC3d.FieldNamesAreNotPlateKeys | read_c3d.py:19-100 | no Info field name starts like a plate key |
| ReadC3d.TablesIgnoreGroups | read_c3d.py:103-135 | the sample pass does not depend on the three optional groups or on Info |
| ReadC3d.OptionalMetadataIrrelevant | read_c3d.py:19-140 | dropping the three optional groups from a file that decodes gives a file that decodes to the same tables and rates, with sentinels for the dropped fields |

## Left out

- The `c3d` package (`Reader`, `get`, `string_array`, `bytes_array`, `float_value`, `read_frames`, `point_labels`, the header) is foreign code. Its answers are fields of `C3dReader.Reader`, and a failure to construct the reader is `reader == None`.
- The foreign calls `read_frames()` (line 109), `reader.point_labels` (line 82) and `float_array` (line 96) are assumed never to raise. So the model cannot express a stream that breaks off partway (a truncated or corrupt block), which the source would turn into an error dictionary through lines 141-148.
- Group and parameter lookup is exact key lookup. The package's own name matching (case, prefixes) is not modelled.
- `reader.first_frame()`/`last_frame()` (lines 118-124) are taken to be the header bounds used on line 103.
- `reader.point_rate`, `reader.analog_rate`, `first_frame()` and `last_frame()` (lines 118-124) are assumed never to raise.
- `Reader.analogRate` (the package's `analog_rate`, line 123) is a field of its own. The model does not tie it to the `float_value` of ANALOG.RATE that becomes FP_RATE (line 77).
- The existence check of line 8 and opening the file are a boolean and an optional reader in `C3dReader.Input`. Closing the handle (lines 92 and 139) is I/O and is not modelled.
- The `OSError` clause (lines 141-143) is not modelled: once the file exists and the reader is built, nothing the model covers raises `OSError`.
- Float rounding is not modelled. The rate divisions of lines 101, 105 and 123 are exact real division followed by truncation. linspace entries are exact quotients rounded down.
- The time-index values and their `round()`/10 smoothing (lines 117-128) are floating-point work, left out. Only their failure conditions (a zero point rate, a zero ratio, a negative or mismatched length) are modelled.
- The FORCE_PLATFORM.CORNERS reshape and mean (lines 94-100) are floating-point work. The per-plate mean X is an input, and `None` stands for a corner array without three dimensions.
- The messages of `ValueError`s raised by Python's codec, numpy or pandas are library text. They are the `TextDecodeError` and `ShapeError` kinds, without a message.
- np.empty leaves unspecified values in rows the pass never writes. The model uses one arbitrary value, `junk`, for all of them. So it does not capture that different unwritten cells may differ.
- The analog block of a record is its samples in the row-major order of the package's analog array. Points are their first three columns.
- main.py (file traversal, plotting, phase detection, impulses and asymmetry indices) and norm2frame.py (cubic interpolation) are outside this model.
- ReadC3d.TimeIndexFailure: the DataFrame constructors of lines 121 and 128 also check the mocap index length. That length is always the frame count, so only the GRF length check is stated.
