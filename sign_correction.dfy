/**
 * The last step of the GRF table (read_c3d.py lines 130-135): pick the
 * plate force channels Fx1 … Fz2 that are present, in that fixed order, and
 * invert them the way Vicon does.
 */
module SignCorrection {
  import opened Wrappers
  import opened Outputs

  /** Line 131: the channels to keep, each with its weight. */
  const SignTable: seq<(string, int)> :=
    [("Fx1", -1), ("Fy1", -1), ("Fz1", -1), ("Fx2", -1), ("Fy2", -1), ("Fz2", -1)]

  function Keys(pairs: seq<(string, int)>): seq<string>
  {
    seq(|pairs|, i requires 0 <= i < |pairs| => pairs[i].0)
  }

  /** Position of the first occurrence of l among the keys; |keys| when it is absent. */
  function Pos(keys: seq<string>, l: string): (p: nat)
    ensures p <= |keys|
    ensures l in keys ==> p < |keys| && keys[p] == l && l !in keys[..p]
    ensures l !in keys ==> p == |keys|
    decreases |keys|
  {
    if keys == [] then 0
    else
      var init := keys[..|keys| - 1];
      assert keys == init + [keys[|keys| - 1]];
      if l in init then
        var p := Pos(init, l);
        assert keys[..p] == init[..p];
        p
      else
        |keys| - 1 + (if keys[|keys| - 1] == l then 0 else 1)
  }

  /** Lines 130-134 over a prefix of the table: the labels and weights accumulated so far. */
  function SelectFrom(columns: seq<string>, pairs: seq<(string, int)>): (sel: (seq<string>, seq<int>))
    ensures |sel.0| == |sel.1| <= |pairs|
    decreases |pairs|
  {
    if pairs == [] then ([], [])
    else
      var prev := SelectFrom(columns, pairs[..|pairs| - 1]);
      var col := pairs[|pairs| - 1].0;
      var w := pairs[|pairs| - 1].1;
      if col in columns then (prev.0 + [col], prev.1 + [w]) else prev
  }

  /** The (labels, label_weights) pair of lines 130-134 for the analog columns. */
  function Selected(columns: seq<string>): (seq<string>, seq<int>)
  {
    SelectFrom(columns, SignTable)
  }

  /** The loop of lines 130-134. */
  method SelectSigned(columns: seq<string>) returns (labels: seq<string>, weights: seq<int>)
    ensures (labels, weights) == Selected(columns)
  {
    labels, weights := [], [];
    for i := 0 to |SignTable|
      invariant (labels, weights) == SelectFrom(columns, SignTable[..i])
    {
      assert SignTable[..i + 1][..i] == SignTable[..i];
      var col, w := SignTable[i].0, SignTable[i].1;
      if col in columns {
        labels := labels + [col];
        weights := weights + [w];
      }
    }
    assert SignTable[..|SignTable|] == SignTable;
  }

  /** A label is selected exactly when it is a key of the table and a column. */
  lemma {:induction false} SelectFromMembers(columns: seq<string>, pairs: seq<(string, int)>)
    ensures forall l :: l in SelectFrom(columns, pairs).0 <==> l in columns && l in Keys(pairs)
    decreases |pairs|
  {
    if pairs != [] {
      var init := pairs[..|pairs| - 1];
      SelectFromMembers(columns, init);
      assert Keys(pairs) == Keys(init) + [pairs[|pairs| - 1].0];
    }
  }

  /** Each selected label carries its own weight from the table. */
  lemma {:induction false} SelectFromWeights(columns: seq<string>, pairs: seq<(string, int)>)
    ensures forall i :: 0 <= i < |SelectFrom(columns, pairs).0| ==>
              (SelectFrom(columns, pairs).0[i], SelectFrom(columns, pairs).1[i]) in pairs
    decreases |pairs|
  {
    if pairs != [] {
      var init := pairs[..|pairs| - 1];
      SelectFromWeights(columns, init);
      var prev := SelectFrom(columns, init);
      var sel := SelectFrom(columns, pairs);
      forall i | 0 <= i < |sel.0| ensures (sel.0[i], sel.1[i]) in pairs {
        if i < |prev.0| {
          assert (prev.0[i], prev.1[i]) in init;
        } else {
          assert (sel.0[i], sel.1[i]) == pairs[|pairs| - 1];
        }
      }
    }
  }

  /** With distinct keys, the selected labels follow the order of the table. */
  lemma {:induction false} SelectFromOrder(columns: seq<string>, pairs: seq<(string, int)>)
    requires forall i, j :: 0 <= i < j < |pairs| ==> pairs[i].0 != pairs[j].0
    ensures forall i, j :: 0 <= i < j < |SelectFrom(columns, pairs).0| ==>
              Pos(Keys(pairs), SelectFrom(columns, pairs).0[i]) < Pos(Keys(pairs), SelectFrom(columns, pairs).0[j])
    decreases |pairs|
  {
    if pairs != [] {
      var init := pairs[..|pairs| - 1];
      var last := pairs[|pairs| - 1].0;
      SelectFromOrder(columns, init);
      SelectFromMembers(columns, init);
      var prev := SelectFrom(columns, init);
      var sel := SelectFrom(columns, pairs);
      var keys := Keys(pairs);
      assert keys[..|pairs| - 1] == Keys(init);
      assert last !in Keys(init);
      PosOfLast(keys);
      forall i, j | 0 <= i < j < |sel.0|
        ensures Pos(keys, sel.0[i]) < Pos(keys, sel.0[j])
      {
        assert sel.0[i] == prev.0[i] && sel.0[i] in prev.0;
        assert Pos(keys, sel.0[i]) == Pos(Keys(init), sel.0[i]);
        if j < |prev.0| {
          assert sel.0[j] == prev.0[j] && sel.0[j] in prev.0;
          assert Pos(keys, sel.0[j]) == Pos(Keys(init), sel.0[j]);
        } else {
          assert sel.0[j] == last;
        }
      }
    }
  }

  /** The position of the last key, and of every earlier one, is its position in the prefix. */
  lemma PosOfLast(keys: seq<string>)
    requires |keys| > 0 && keys[|keys| - 1] !in keys[..|keys| - 1]
    ensures Pos(keys, keys[|keys| - 1]) == |keys| - 1
    ensures forall l :: l in keys[..|keys| - 1] ==> Pos(keys, l) == Pos(keys[..|keys| - 1], l) < |keys| - 1
  {
  }

  /**
   * Lines 130-135 promise: exactly the present channels among Fx1 … Fz2,
   * in that fixed order, each once and each with weight -1.
   */
  lemma SignSelection(columns: seq<string>)
    ensures |Selected(columns).0| == |Selected(columns).1|
    ensures forall l :: l in Selected(columns).0 <==> l in columns && l in Keys(SignTable)
    ensures forall i, j :: 0 <= i < j < |Selected(columns).0| ==>
              Pos(Keys(SignTable), Selected(columns).0[i]) < Pos(Keys(SignTable), Selected(columns).0[j])
    ensures forall i, j :: 0 <= i < j < |Selected(columns).0| ==> Selected(columns).0[i] != Selected(columns).0[j]
    ensures forall i :: 0 <= i < |Selected(columns).1| ==> Selected(columns).1[i] == -1
  {
    SelectFromMembers(columns, SignTable);
    SelectFromWeights(columns, SignTable);
    SelectFromOrder(columns, SignTable);
    var sel := Selected(columns);
    forall i | 0 <= i < |sel.1| ensures sel.1[i] == -1 {
      assert (sel.0[i], sel.1[i]) in SignTable;
    }
  }

  /** The positions of the columns named l, in column order (OccurrencesAll: every such position). */
  function Occurrences(columns: seq<string>, l: string): (occ: seq<nat>)
    ensures forall m :: 0 <= m < |occ| ==> occ[m] < |columns| && columns[occ[m]] == l
    ensures l in columns <==> |occ| > 0
    decreases |columns|
  {
    if columns == [] then []
    else
      var init := columns[..|columns| - 1];
      assert columns == init + [columns[|columns| - 1]];
      Occurrences(init, l) + (if columns[|columns| - 1] == l then [|columns| - 1] else [])
  }

  /**
   * What pandas selects for one label: every position of a column named l,
   * and no other, in increasing column order.
   */
  lemma {:induction false} OccurrencesAll(columns: seq<string>, l: string)
    ensures forall p :: 0 <= p < |columns| && columns[p] == l ==> p in Occurrences(columns, l)
    ensures forall m, m' :: 0 <= m < m' < |Occurrences(columns, l)| ==>
              Occurrences(columns, l)[m] < Occurrences(columns, l)[m']
    decreases |columns|
  {
    if columns != [] {
      var init := columns[..|columns| - 1];
      OccurrencesAll(init, l);
      assert forall p :: 0 <= p < |init| ==> init[p] == columns[p];
    }
  }

  /** A label with a single occurrence names no column but its first one. */
  lemma OnlyColumn(columns: seq<string>, l: string)
    requires |Occurrences(columns, l)| == 1
    ensures l in columns
    ensures forall p :: 0 <= p < |columns| && columns[p] == l ==> p == FirstColumn(columns, l)
  {
    OccurrencesAll(columns, l);
  }

  /** `df[labels]`: for each label in turn, every column of that name. */
  function Selection(columns: seq<string>, labels: seq<string>): (sel: seq<nat>)
    ensures forall m :: 0 <= m < |sel| ==> sel[m] < |columns|
    decreases |labels|
  {
    if labels == [] then []
    else Selection(columns, labels[..|labels| - 1]) + Occurrences(columns, labels[|labels| - 1])
  }

  /** Every label names a column of the table. */
  predicate AllPresent(columns: seq<string>, labels: seq<string>)
  {
    forall l :: l in labels ==> l in columns
  }

  function CellAt(row: seq<real>, c: nat): real
  {
    if c < |row| then row[c] else 0.0
  }

  /**
   * `df[labels]` of line 135: a missing label raises KeyError; otherwise the
   * selected columns, each label contributing every column of that name.
   */
  function SelectColumns(t: Table, labels: seq<string>): (r: Result<Table, DecodeError>)
    ensures r.Err? <==> !AllPresent(t.columns, labels)
    ensures r.Err? ==> r.error == Undiscovered
    ensures r.Ok? ==> |r.value.columns| == |Selection(t.columns, labels)| && |r.value.rows| == |t.rows|
  {
    if !AllPresent(t.columns, labels) then Err(Undiscovered)
    else
      var sel := Selection(t.columns, labels);
      Ok(Table(seq(|sel|, m requires 0 <= m < |sel| => t.columns[sel[m]]),
               seq(|t.rows|, i requires 0 <= i < |t.rows| => PickRow(t.rows[i], sel))))
  }

  /** One row of `df[labels]`: the cells at the selected positions. */
  function PickRow(row: seq<real>, sel: seq<nat>): seq<real>
  {
    seq(|sel|, m requires 0 <= m < |sel| => CellAt(row, sel[m]))
  }

  /**
   * `df * label_weights`: a weight list whose length is not the column count
   * raises ValueError; otherwise column m is scaled by weight m.
   */
  function Scale(t: Table, weights: seq<int>): (r: Result<Table, DecodeError>)
    ensures r.Err? <==> |t.columns| != |weights|
    ensures r.Err? ==> r.error == ShapeError
    ensures r.Ok? ==> r.value.columns == t.columns && |r.value.rows| == |t.rows|
    ensures r.Ok? ==> forall i :: 0 <= i < |t.rows| ==> |r.value.rows[i]| == |weights|
  {
    if |t.columns| != |weights| then Err(ShapeError)
    else
      Ok(Table(t.columns, seq(|t.rows|, i requires 0 <= i < |t.rows| => WeighRow(t.rows[i], weights))))
  }

  /** One row of `df * label_weights`: cell m scaled by weight m. */
  function WeighRow(row: seq<real>, weights: seq<int>): seq<real>
  {
    seq(|weights|, m requires 0 <= m < |weights| => Weigh(weights[m], CellAt(row, m)))
  }

  /** One cell of `df * label_weights`. */
  function Weigh(w: int, v: real): real
  {
    w as real * v
  }

  /** Line 135, `force_data[labels] * label_weights`. */
  function ApplySigns(t: Table, labels: seq<string>, weights: seq<int>): Result<Table, DecodeError>
  {
    var selected :- SelectColumns(t, labels);
    Scale(selected, weights)
  }

  /** Every present label contributes at least one column, and exactly one when the counts agree. */
  lemma {:induction false} SelectionCount(columns: seq<string>, labels: seq<string>)
    requires AllPresent(columns, labels)
    ensures |Selection(columns, labels)| >= |labels|
    ensures |Selection(columns, labels)| == |labels| ==>
              forall k :: 0 <= k < |labels| ==> |Occurrences(columns, labels[k])| == 1
    decreases |labels|
  {
    if labels != [] {
      var init := labels[..|labels| - 1];
      assert forall l :: l in init ==> l in labels;
      SelectionCount(columns, init);
      assert labels[|labels| - 1] in labels;
      assert forall k :: 0 <= k < |init| ==> labels[k] == init[k];
    }
  }

  /** With one column per label, the selection is the labels' own positions. */
  lemma {:induction false} SelectionSingle(columns: seq<string>, labels: seq<string>)
    requires forall k :: 0 <= k < |labels| ==> |Occurrences(columns, labels[k])| == 1
    ensures |Selection(columns, labels)| == |labels|
    ensures forall k :: 0 <= k < |labels| ==> Selection(columns, labels)[k] == Occurrences(columns, labels[k])[0]
    decreases |labels|
  {
    if labels != [] {
      var init := labels[..|labels| - 1];
      assert forall k :: 0 <= k < |init| ==> labels[k] == init[k];
      SelectionSingle(columns, init);
    }
  }

  /** The position of the first column named l. */
  function FirstColumn(columns: seq<string>, l: string): (c: nat)
    requires l in columns
    ensures c < |columns| && columns[c] == l
  {
    Occurrences(columns, l)[0]
  }

  /** No column before FirstColumn carries the name. */
  lemma {:induction false} FirstColumnIsFirst(columns: seq<string>, l: string)
    requires l in columns
    ensures FirstColumn(columns, l) == Pos(columns, l)
    ensures l !in columns[..FirstColumn(columns, l)]
    decreases |columns|
  {
    var init := columns[..|columns| - 1];
    assert columns == init + [columns[|columns| - 1]];
    if l in init {
      FirstColumnIsFirst(init, l);
    }
  }

  /**
   * With one weight per label, the step succeeds exactly when every label
   * names one column, and then yields the labels as columns, column k
   * holding weight k times the raw column named labels[k].
   */
  lemma ApplySignsColumns(t: Table, labels: seq<string>, weights: seq<int>)
    requires AllPresent(t.columns, labels)
    requires |weights| == |labels|
    ensures ApplySigns(t, labels, weights).Ok? <==>
              forall k :: 0 <= k < |labels| ==> |Occurrences(t.columns, labels[k])| == 1
    ensures ApplySigns(t, labels, weights).Ok? ==>
              && ApplySigns(t, labels, weights).value.columns == labels
              && |ApplySigns(t, labels, weights).value.rows| == |t.rows|
              && forall i, k :: 0 <= i < |t.rows| && 0 <= k < |labels| ==>
                   ApplySigns(t, labels, weights).value.rows[i][k] ==
                     Weigh(weights[k], CellAt(t.rows[i], FirstColumn(t.columns, labels[k])))
  {
    SelectionCount(t.columns, labels);
    if forall k :: 0 <= k < |labels| ==> |Occurrences(t.columns, labels[k])| == 1 {
      SelectionSingle(t.columns, labels);
      SignedLabels(t, labels, weights);
      SignedCells(t, labels, weights);
    } else {
      assert |Selection(t.columns, labels)| != |weights|;
      ApplySignsIsScale(t, labels, weights);
    }
  }

  /** With one column per label, cell (i, k) is weight k times the raw column named labels[k]. */
  lemma SignedCells(t: Table, labels: seq<string>, weights: seq<int>)
    requires AllPresent(t.columns, labels)
    requires |weights| == |labels| == |Selection(t.columns, labels)|
    requires forall k :: 0 <= k < |labels| ==> Selection(t.columns, labels)[k] == Occurrences(t.columns, labels[k])[0]
    ensures ApplySigns(t, labels, weights).Ok? && |ApplySigns(t, labels, weights).value.rows| == |t.rows|
    ensures forall i, k :: 0 <= i < |t.rows| && 0 <= k < |labels| ==>
              && labels[k] in t.columns
              && |ApplySigns(t, labels, weights).value.rows[i]| == |labels|
              && ApplySigns(t, labels, weights).value.rows[i][k] ==
                   Weigh(weights[k], CellAt(t.rows[i], FirstColumn(t.columns, labels[k])))
  {
    SignedLabels(t, labels, weights);
    forall i, k | 0 <= i < |t.rows| && 0 <= k < |labels|
      ensures labels[k] in t.columns
      ensures |ApplySigns(t, labels, weights).value.rows[i]| == |labels|
      ensures ApplySigns(t, labels, weights).value.rows[i][k] ==
                Weigh(weights[k], CellAt(t.rows[i], FirstColumn(t.columns, labels[k])))
    {
      assert labels[k] in labels;
      ScaledCell(t, labels, weights, i, k, FirstColumn(t.columns, labels[k]));
    }
  }

  /** With one column per label, the step keeps the labels as its column names. */
  lemma SignedLabels(t: Table, labels: seq<string>, weights: seq<int>)
    requires AllPresent(t.columns, labels)
    requires |weights| == |labels| == |Selection(t.columns, labels)|
    requires forall k :: 0 <= k < |labels| ==> Selection(t.columns, labels)[k] == Occurrences(t.columns, labels[k])[0]
    ensures ApplySigns(t, labels, weights).Ok?
    ensures ApplySigns(t, labels, weights).value.columns == labels
    ensures |ApplySigns(t, labels, weights).value.rows| == |t.rows|
  {
    ApplySignsIsScale(t, labels, weights);
    var selected := SelectColumns(t, labels).value;
    forall m | 0 <= m < |labels| ensures selected.columns[m] == labels[m] {
      assert labels[m] in labels;
    }
  }

  /** Cell (i, k) of the sign step, when label k selects column c alone. */
  lemma ScaledCell(t: Table, labels: seq<string>, weights: seq<int>, i: nat, k: nat, c: nat)
    requires AllPresent(t.columns, labels)
    requires |weights| == |labels| == |Selection(t.columns, labels)|
    requires i < |t.rows| && k < |labels| && Selection(t.columns, labels)[k] == c
    ensures ApplySigns(t, labels, weights).Ok?
    ensures |ApplySigns(t, labels, weights).value.rows| == |t.rows|
    ensures |ApplySigns(t, labels, weights).value.rows[i]| == |labels|
    ensures ApplySigns(t, labels, weights).value.rows[i][k] == Weigh(weights[k], CellAt(t.rows[i], c))
  {
    SelectCell(t, labels, i, k);
    ApplySignsIsScale(t, labels, weights);
    ScaleCell(SelectColumns(t, labels).value, weights, i, k);
  }

  lemma ApplySignsIsScale(t: Table, labels: seq<string>, weights: seq<int>)
    requires SelectColumns(t, labels).Ok?
    ensures ApplySigns(t, labels, weights) == Scale(SelectColumns(t, labels).value, weights)
  {
  }

  lemma SelectCell(t: Table, labels: seq<string>, i: nat, m: nat)
    requires AllPresent(t.columns, labels)
    requires i < |t.rows| && m < |Selection(t.columns, labels)|
    ensures SelectColumns(t, labels).Ok?
    ensures |SelectColumns(t, labels).value.columns| == |Selection(t.columns, labels)|
    ensures |SelectColumns(t, labels).value.rows[i]| == |Selection(t.columns, labels)|
    ensures SelectColumns(t, labels).value.rows[i][m] == CellAt(t.rows[i], Selection(t.columns, labels)[m])
  {
  }

  lemma ScaleCell(t: Table, weights: seq<int>, i: nat, k: nat)
    requires |t.columns| == |weights| && i < |t.rows| && k < |weights| && |t.rows[i]| == |weights|
    ensures Scale(t, weights).Ok? && Scale(t, weights).value.rows[i][k] == Weigh(weights[k], t.rows[i][k])
  {
  }

  /**
   * Lines 130-135 as a whole: a successful sign step yields exactly the
   * selected labels as columns, each naming one raw column, every row
   * kept, and each cell the negated raw value of its label's column.
   */
  lemma SignedColumns(t: Table)
    requires ApplySigns(t, Selected(t.columns).0, Selected(t.columns).1).Ok?
    ensures var grf := ApplySigns(t, Selected(t.columns).0, Selected(t.columns).1).value;
            && grf.columns == Selected(t.columns).0
            && |grf.rows| == |t.rows|
            && (forall i :: 0 <= i < |grf.rows| ==> |grf.rows[i]| == |grf.columns|)
            && forall k :: 0 <= k < |grf.columns| ==>
                 grf.columns[k] in t.columns && |Occurrences(t.columns, grf.columns[k])| == 1
    ensures var grf := ApplySigns(t, Selected(t.columns).0, Selected(t.columns).1).value;
            forall i, k :: 0 <= i < |t.rows| && 0 <= k < |Selected(t.columns).0| ==>
              && Selected(t.columns).0[k] in t.columns
              && grf.rows[i][k] == -CellAt(t.rows[i], FirstColumn(t.columns, Selected(t.columns).0[k]))
  {
    var sel := Selected(t.columns);
    SignSelection(t.columns);
    ApplySignsColumns(t, sel.0, sel.1);
    forall i, k | 0 <= i < |t.rows| && 0 <= k < |sel.0|
      ensures sel.0[k] in t.columns
      ensures ApplySigns(t, sel.0, sel.1).value.rows[i][k] == -CellAt(t.rows[i], FirstColumn(t.columns, sel.0[k]))
    {
      SignedCell(t, i, k);
    }
  }

  lemma SignedCell(t: Table, i: nat, k: nat)
    requires ApplySigns(t, Selected(t.columns).0, Selected(t.columns).1).Ok?
    requires i < |t.rows| && k < |Selected(t.columns).0|
    ensures Selected(t.columns).0[k] in t.columns
    ensures |ApplySigns(t, Selected(t.columns).0, Selected(t.columns).1).value.rows| == |t.rows|
    ensures |ApplySigns(t, Selected(t.columns).0, Selected(t.columns).1).value.rows[i]| == |Selected(t.columns).0|
    ensures ApplySigns(t, Selected(t.columns).0, Selected(t.columns).1).value.rows[i][k] ==
              -CellAt(t.rows[i], FirstColumn(t.columns, Selected(t.columns).0[k]))
  {
    var sel := Selected(t.columns);
    SignSelection(t.columns);
    ApplySignsColumns(t, sel.0, sel.1);
    assert sel.0[k] in sel.0;
    assert sel.1[k] == -1;
  }

  /** Multiplying by the same ±1 weights once more gives back the raw selected columns. */
  lemma SignTwice(t: Table, labels: seq<string>, weights: seq<int>)
    requires ApplySigns(t, labels, weights).Ok?
    requires forall k :: 0 <= k < |weights| ==> weights[k] == 1 || weights[k] == -1
    ensures Scale(ApplySigns(t, labels, weights).value, weights) == SelectColumns(t, labels)
  {
    var raw := SelectColumns(t, labels).value;
    var once := Scale(raw, weights).value;
    var twice := Scale(once, weights).value;
    forall i | 0 <= i < |raw.rows| ensures twice.rows[i] == raw.rows[i] {
      assert |raw.rows[i]| == |weights|;
      forall m | 0 <= m < |weights| ensures twice.rows[i][m] == raw.rows[i][m] {
        SignInvolution(weights[m], raw.rows[i][m], once.rows[i][m], twice.rows[i][m]);
      }
    }
    assert twice.rows == raw.rows;
  }

  lemma SignInvolution(w: int, x: real, y: real, z: real)
    requires w == 1 || w == -1
    requires y == Weigh(w, x) && z == Weigh(w, y)
    ensures z == x
  {
  }
}
