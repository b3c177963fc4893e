/**
 * The catalog layer of w_sections/processing.py: a table of steel profiles,
 * the unit scaling applied after the profiles are read, the threshold
 * filters, the sort by weight, the construction of a steel column from a
 * profile, and the batch calculation that writes loads, resistances and
 * demand/capacity ratios back into the table.
 *
 * A table is a set of numeric column names and a sequence of rows; a row
 * carries its 'Section name' and a map from column name to value. Row
 * order is the table's index order.
 */
module Processing {
  import opened Results
  import opened Columns

  // ---------------------------------------------------------------------------
  // Tables
  // ---------------------------------------------------------------------------

  /** One profile: its 'Section name' and its numeric cells. */
  datatype Row = Row(name: string, cells: map<string, real>)

  /** A table: the names of its numeric columns and its rows, in index order. */
  datatype Table = Table(columns: set<string>, rows: seq<Row>) {
    /** Every row has a cell in every column. */
    predicate WellFormed() {
      forall i :: 0 <= i < |rows| ==> columns <= rows[i].cells.Keys
    }
  }

  /** The 'Section name' column. */
  function Names(rows: seq<Row>): (r: seq<string>)
    ensures |r| == |rows|
    ensures forall i :: 0 <= i < |rows| ==> r[i] == rows[i].name
  {
    seq(|rows|, i requires 0 <= i < |rows| => rows[i].name)
  }

  // ---------------------------------------------------------------------------
  // Threshold filters
  // ---------------------------------------------------------------------------

  /** `>=` for sections_greater_than, `<=` for sections_less_than. */
  datatype Bound = AtLeast | AtMost

  /** A value compared with its threshold. */
  predicate Meets(bound: Bound, value: real, threshold: real) {
    match bound
    case AtLeast => value >= threshold
    case AtMost => value <= threshold
  }

  /** The row has a cell for every condition and meets them all. */
  predicate MeetsAll(row: Row, conds: seq<(string, real)>, bound: Bound) {
    forall j :: 0 <= j < |conds| ==> conds[j].0 in row.cells && Meets(bound, row.cells[conds[j].0], conds[j].1)
  }

  /** The rows that meet every condition, in their original order. */
  function Select(rows: seq<Row>, conds: seq<(string, real)>, bound: Bound): (r: seq<Row>)
    ensures |r| <= |rows|
    ensures forall row :: row in r <==> row in rows && MeetsAll(row, conds, bound)
    ensures multiset(r) <= multiset(rows)
  {
    if |rows| == 0 then []
    else
      assert rows == [rows[0]] + rows[1..];
      var rest := Select(rows[1..], conds, bound);
      if MeetsAll(rows[0], conds, bound) then [rows[0]] + rest else rest
  }

  /** Selection distributes over concatenation: the relative order of the kept rows is the original one. */
  lemma {:induction false} SelectAppend(a: seq<Row>, b: seq<Row>, conds: seq<(string, real)>, bound: Bound)
    ensures Select(a + b, conds, bound) == Select(a, conds, bound) + Select(b, conds, bound)
  {
    if |a| == 0 {
      assert a + b == b;
    } else {
      assert (a + b)[0] == a[0];
      assert (a + b)[1..] == a[1..] + b;
      SelectAppend(a[1..], b, conds, bound);
    }
  }

  /** Meeting one more condition is meeting the old ones and the new one. */
  lemma MeetsAllSnoc(row: Row, conds: seq<(string, real)>, extra: (string, real), bound: Bound)
    ensures MeetsAll(row, conds + [extra], bound) <==> MeetsAll(row, conds, bound) && MeetsAll(row, [extra], bound)
  {
    if MeetsAll(row, conds, bound) && MeetsAll(row, [extra], bound) {
      forall j | 0 <= j < |conds + [extra]|
        ensures (conds + [extra])[j].0 in row.cells
             && Meets(bound, row.cells[(conds + [extra])[j].0], (conds + [extra])[j].1)
      {
        if j == |conds| {
          assert (conds + [extra])[j] == [extra][0];
        } else {
          assert (conds + [extra])[j] == conds[j];
        }
      }
    }
    if MeetsAll(row, conds + [extra], bound) {
      assert forall j :: 0 <= j < |conds| ==> (conds + [extra])[j] == conds[j];
      assert (conds + [extra])[|conds|] == extra;
    }
  }

  /**
   * Adding a keyword condition filters the previous result once more: the
   * rows kept are those of the shorter call that also meet the new condition.
   */
  lemma {:induction false} SelectNarrowing(rows: seq<Row>, conds: seq<(string, real)>, extra: (string, real),
                                           bound: Bound)
    ensures Select(rows, conds + [extra], bound) == Select(Select(rows, conds, bound), [extra], bound)
  {
    if |rows| > 0 {
      MeetsAllSnoc(rows[0], conds, extra, bound);
      SelectNarrowing(rows[1..], conds, extra, bound);
      if MeetsAll(rows[0], conds, bound) {
        var rest := Select(rows[1..], conds, bound);
        assert ([rows[0]] + rest)[0] == rows[0];
        assert ([rows[0]] + rest)[1..] == rest;
      }
    }
  }

  /**
   * The filter shared by sections_greater_than and sections_less_than. Every
   * keyword names a column (else a KeyError, whatever the rows), and without
   * any keyword the reduced mask is a bare boolean, which `.loc` rejects as a
   * label of the integer index (a KeyError too). The rows kept are those
   * meeting all the conditions, in their order; a row with a missing (NaN)
   * cell fails its comparison and is dropped.
   */
  function Filter(t: Table, conds: seq<(string, real)>, bound: Bound): (r: Result<Table>)
    ensures r.Err? <==> |conds| == 0 || exists j :: 0 <= j < |conds| && conds[j].0 !in t.columns
    ensures r.Err? ==> r.error == MissingColumn
    ensures r.Ok? ==> r.value.columns == t.columns && r.value.rows == Select(t.rows, conds, bound)
    ensures r.Ok? && t.WellFormed() ==> r.value.WellFormed()
    ensures r.Ok? ==> forall row :: row in r.value.rows <==>
                        row in t.rows && forall j :: 0 <= j < |conds| ==>
                          conds[j].0 in row.cells && Meets(bound, row.cells[conds[j].0], conds[j].1)
  {
    if |conds| == 0 || exists j :: 0 <= j < |conds| && conds[j].0 !in t.columns then Err(MissingColumn)
    else
      var kept := Select(t.rows, conds, bound);
      assert forall i :: 0 <= i < |kept| ==> kept[i] in t.rows;
      Ok(Table(t.columns, kept))
  }

  /** When every condition names a column of a well-formed table, a row meets them all iff each cell does. */
  lemma CellsPresent(t: Table, conds: seq<(string, real)>, bound: Bound)
    requires t.WellFormed()
    requires forall j :: 0 <= j < |conds| ==> conds[j].0 in t.columns
    ensures forall row :: row in t.rows ==> forall j :: 0 <= j < |conds| ==> conds[j].0 in row.cells
    ensures forall row :: row in t.rows ==>
              (MeetsAll(row, conds, bound) <==>
               forall j :: 0 <= j < |conds| ==> Meets(bound, row.cells[conds[j].0], conds[j].1))
  {
    forall row | row in t.rows
      ensures forall j :: 0 <= j < |conds| ==> conds[j].0 in row.cells
    {
      var i :| 0 <= i < |t.rows| && t.rows[i] == row;
      assert t.columns <= row.cells.Keys;
    }
  }

  /** The profiles whose every named column is at least its threshold. */
  function SectionsGreaterThan(t: Table, conds: seq<(string, real)>): (r: Result<Table>)
    ensures r.Err? <==> |conds| == 0 || exists j :: 0 <= j < |conds| && conds[j].0 !in t.columns
    ensures r.Err? ==> r.error == MissingColumn
    ensures r.Ok? ==> r.value.columns == t.columns && r.value.rows == Select(t.rows, conds, AtLeast)
    ensures r.Ok? ==> forall row :: row in r.value.rows <==>
                        row in t.rows && forall j :: 0 <= j < |conds| ==>
                          conds[j].0 in row.cells && row.cells[conds[j].0] >= conds[j].1
  {
    Filter(t, conds, AtLeast)
  }

  /** The profiles whose every named column is at most its threshold. */
  function SectionsLessThan(t: Table, conds: seq<(string, real)>): (r: Result<Table>)
    ensures r.Err? <==> |conds| == 0 || exists j :: 0 <= j < |conds| && conds[j].0 !in t.columns
    ensures r.Err? ==> r.error == MissingColumn
    ensures r.Ok? ==> r.value.columns == t.columns && r.value.rows == Select(t.rows, conds, AtMost)
    ensures r.Ok? ==> forall row :: row in r.value.rows <==>
                        row in t.rows && forall j :: 0 <= j < |conds| ==>
                          conds[j].0 in row.cells && row.cells[conds[j].0] <= conds[j].1
  {
    Filter(t, conds, AtMost)
  }

  /** With one more keyword a filter keeps exactly the earlier result's rows that meet the new condition. */
  lemma FilterNarrowing(t: Table, conds: seq<(string, real)>, extra: (string, real), bound: Bound)
    requires |conds| > 0
    requires Filter(t, conds + [extra], bound).Ok?
    ensures Filter(t, conds, bound).Ok?
    ensures t.WellFormed() ==> Filter(t, conds, bound).value.WellFormed()
    ensures Filter(t, conds + [extra], bound) == Filter(Filter(t, conds, bound).value, [extra], bound)
  {
    var longer := conds + [extra];
    assert forall j :: 0 <= j < |conds| ==> longer[j] == conds[j];
    assert longer[|conds|] == extra;
    assert Filter(t, conds, bound) == Ok(Table(t.columns, Select(t.rows, conds, bound)));
    var narrowed := Table(t.columns, Select(t.rows, conds, bound));
    assert Filter(narrowed, [extra], bound) == Ok(Table(t.columns, Select(narrowed.rows, [extra], bound)));
    SelectNarrowing(t.rows, conds, extra, bound);
  }

  // ---------------------------------------------------------------------------
  // Sort by weight
  // ---------------------------------------------------------------------------

  /** The 'kg/m' column. */
  const WeightColumn: string := "kg/m"

  /** Every row has a weight. */
  predicate HasWeights(rows: seq<Row>) {
    forall i :: 0 <= i < |rows| ==> WeightColumn in rows[i].cells
  }

  /** `a` may come before `b`: lighter first when ascending, heavier first otherwise. */
  predicate InOrder(a: Row, b: Row, ascending: bool)
    requires WeightColumn in a.cells && WeightColumn in b.cells
  {
    if ascending then a.cells[WeightColumn] <= b.cells[WeightColumn]
    else a.cells[WeightColumn] >= b.cells[WeightColumn]
  }

  /** The rows are ordered by weight in the requested direction. */
  predicate SortedByWeight(rows: seq<Row>, ascending: bool)
    requires HasWeights(rows)
  {
    forall i, j :: 0 <= i < j < |rows| ==> InOrder(rows[i], rows[j], ascending)
  }

  /** Places `row` into rows already sorted by weight. */
  function InsertByWeight(row: Row, sorted: seq<Row>, ascending: bool): (r: seq<Row>)
    requires WeightColumn in row.cells && HasWeights(sorted) && SortedByWeight(sorted, ascending)
    ensures multiset(r) == multiset(sorted) + multiset{row}
    ensures HasWeights(r) && SortedByWeight(r, ascending)
  {
    if |sorted| == 0 then [row]
    else if InOrder(row, sorted[0], ascending) then
      PrependSorted(row, sorted, ascending);
      [row] + sorted
    else
      assert sorted == [sorted[0]] + sorted[1..];
      var rest := InsertByWeight(row, sorted[1..], ascending);
      HeadBeforeInsertion(row, sorted, rest, ascending);
      PrependSorted(sorted[0], rest, ascending);
      [sorted[0]] + rest
  }

  /** A row that may come before every row of a sorted list may head it. */
  lemma PrependSorted(head: Row, rest: seq<Row>, ascending: bool)
    requires WeightColumn in head.cells && HasWeights(rest) && SortedByWeight(rest, ascending)
    requires forall i :: 0 <= i < |rest| ==> InOrder(head, rest[i], ascending)
    ensures HasWeights([head] + rest) && SortedByWeight([head] + rest, ascending)
  {
    var r := [head] + rest;
    forall i, j | 0 <= i < j < |r| ensures InOrder(r[i], r[j], ascending) {
      if i == 0 {
        assert r[j] == rest[j - 1];
      } else {
        assert r[i] == rest[i - 1] && r[j] == rest[j - 1];
      }
    }
  }

  /**
   * When `row` may not come before the head of a sorted list, the head may
   * come before `row` inserted into the tail.
   */
  lemma HeadBeforeInsertion(row: Row, sorted: seq<Row>, rest: seq<Row>, ascending: bool)
    requires WeightColumn in row.cells && HasWeights(sorted) && SortedByWeight(sorted, ascending)
    requires |sorted| > 0 && !InOrder(row, sorted[0], ascending)
    requires HasWeights(rest) && multiset(rest) == multiset(sorted[1..]) + multiset{row}
    ensures forall i :: 0 <= i < |rest| ==> InOrder(sorted[0], rest[i], ascending)
  {
    forall i | 0 <= i < |rest| ensures InOrder(sorted[0], rest[i], ascending) {
      assert rest[i] in multiset(rest);
      if rest[i] != row {
        assert rest[i] in sorted[1..];
        var k :| 0 <= k < |sorted| - 1 && sorted[1..][k] == rest[i];
        assert sorted[k + 1] == rest[i];
      }
    }
  }

  /** Insertion sort by weight. */
  function SortRows(rows: seq<Row>, ascending: bool): (r: seq<Row>)
    requires HasWeights(rows)
    ensures multiset(r) == multiset(rows)
    ensures HasWeights(r) && SortedByWeight(r, ascending)
  {
    if |rows| == 0 then []
    else
      assert rows == [rows[0]] + rows[1..];
      InsertByWeight(rows[0], SortRows(rows[1..], ascending), ascending)
  }

  /** The rows that have a weight, in their order. */
  function Weighed(rows: seq<Row>): (r: seq<Row>)
    ensures HasWeights(r)
  {
    if |rows| == 0 then []
    else if WeightColumn in rows[0].cells then [rows[0]] + Weighed(rows[1..])
    else Weighed(rows[1..])
  }

  /** The rows whose weight is missing (NaN), in their order. */
  function Unweighed(rows: seq<Row>): (r: seq<Row>)
    ensures forall i :: 0 <= i < |r| ==> WeightColumn !in r[i].cells
  {
    if |rows| == 0 then []
    else if WeightColumn in rows[0].cells then Unweighed(rows[1..])
    else [rows[0]] + Unweighed(rows[1..])
  }

  /** Every row is either weighed or not: the two parts together are the rows. */
  lemma {:induction false} WeightPartition(rows: seq<Row>)
    ensures multiset(Weighed(rows)) + multiset(Unweighed(rows)) == multiset(rows)
  {
    if |rows| > 0 {
      assert rows == [rows[0]] + rows[1..];
      WeightPartition(rows[1..]);
    }
  }

  /** When every row has a weight, no row is set aside. */
  lemma {:induction false} AllWeighed(rows: seq<Row>)
    requires HasWeights(rows)
    ensures Weighed(rows) == rows && Unweighed(rows) == []
  {
    if |rows| > 0 {
      assert rows == [rows[0]] + rows[1..];
      AllWeighed(rows[1..]);
    }
  }

  /**
   * `sort_values("kg/m", ascending=ascending)`: a KeyError without that
   * column, otherwise a reordering of the same rows in which the rows with a
   * weight come first, ordered by weight, and the rows whose weight is
   * missing (NaN) come last. Ties may come out in any order.
   */
  function SortByWeight(t: Table, ascending: bool := true): (r: Result<Table>)
    ensures r.Err? <==> WeightColumn !in t.columns
    ensures r.Err? ==> r.error == MissingColumn
    ensures r.Ok? ==> r.value.columns == t.columns && multiset(r.value.rows) == multiset(t.rows)
    ensures r.Ok? ==> var k := |Weighed(t.rows)|;
              && k <= |r.value.rows|
              && HasWeights(r.value.rows[..k]) && SortedByWeight(r.value.rows[..k], ascending)
              && forall i :: k <= i < |r.value.rows| ==> WeightColumn !in r.value.rows[i].cells
  {
    if WeightColumn !in t.columns then Err(MissingColumn)
    else
      var sorted := SortRows(Weighed(t.rows), ascending);
      var rows := sorted + Unweighed(t.rows);
      WeightPartition(t.rows);
      assert rows[..|sorted|] == sorted;
      Ok(Table(t.columns, rows))
  }

  /**
   * On a table with every cell present, sorting keeps the table well formed
   * and orders every row by weight.
   */
  lemma SortByWeightWellFormed(t: Table, ascending: bool)
    requires t.WellFormed() && SortByWeight(t, ascending).Ok?
    ensures SortByWeight(t, ascending).value.WellFormed()
    ensures HasWeights(SortByWeight(t, ascending).value.rows)
    ensures SortedByWeight(SortByWeight(t, ascending).value.rows, ascending)
  {
    var s := SortByWeight(t, ascending).value;
    forall i | 0 <= i < |s.rows| ensures t.columns <= s.rows[i].cells.Keys {
      assert s.rows[i] in multiset(t.rows);
    }
    AllWeighed(t.rows);
    assert s.rows[..|t.rows|] == s.rows;
  }

  // ---------------------------------------------------------------------------
  // Unit scaling
  // ---------------------------------------------------------------------------

  /**
   * The column groups rescaled after reading, in the order the source
   * rescales them, each with its scalar.
   */
  const UnitGroups: seq<(seq<string>, real)> := [
    (["iy", "iz", "Ss"], 10.0),
    (["A", "Avz"], 100.0),
    (["Wel.y", "Wpl.y", "Wel.z", "Wpl.z"], 1000.0),
    (["Iy"], 10000.0),
    (["Iz"], 10000.0),
    (["It"], 10000.0),
    (["Iw"], 1000000000.0)
  ]

  /** The scalar each column ends up multiplied by: radii by 10, areas by 100, and so on. */
  function UnitScalar(column: string): real {
    if column in ["iy", "iz", "Ss"] then 10.0
    else if column in ["A", "Avz"] then 100.0
    else if column in ["Wel.y", "Wpl.y", "Wel.z", "Wpl.z"] then 1000.0
    else if column in ["Iy", "Iz", "It"] then 10000.0
    else if column == "Iw" then 1000000000.0
    else 1.0
  }

  /**
   * A cell value of `column` after each of `groups` in turn has multiplied
   * it by its scalar if it names the column.
   */
  function ScaledValue(x: real, groups: seq<(seq<string>, real)>, column: string): real
    decreases |groups|
  {
    if |groups| == 0 then x
    else
      var before := ScaledValue(x, groups[..|groups| - 1], column);
      var last := groups[|groups| - 1];
      if column in last.0 then before * last.1 else before
  }

  /** A column in no group keeps its value. */
  lemma {:induction false} ScaledValueNone(x: real, groups: seq<(seq<string>, real)>, column: string)
    requires forall j :: 0 <= j < |groups| ==> column !in groups[j].0
    ensures ScaledValue(x, groups, column) == x
    decreases |groups|
  {
    if |groups| > 0 {
      var front := groups[..|groups| - 1];
      assert forall j :: 0 <= j < |front| ==> front[j] == groups[j];
      ScaledValueNone(x, front, column);
    }
  }

  /** A column in exactly one group is multiplied by that group's scalar only. */
  lemma {:induction false} ScaledValueSingle(x: real, groups: seq<(seq<string>, real)>, column: string, k: int)
    requires 0 <= k < |groups| && column in groups[k].0
    requires forall j :: 0 <= j < |groups| && j != k ==> column !in groups[j].0
    ensures ScaledValue(x, groups, column) == x * groups[k].1
    decreases |groups|
  {
    var front := groups[..|groups| - 1];
    assert forall j :: 0 <= j < |front| ==> front[j] == groups[j];
    if k == |groups| - 1 {
      ScaledValueNone(x, front, column);
    } else {
      ScaledValueSingle(x, front, column, k);
    }
  }

  /** Every column belongs to at most one group, so applying all groups scales it by its unit scalar. */
  lemma UnitGroupsScaleOnce(x: real, column: string)
    ensures ScaledValue(x, UnitGroups, column) == x * UnitScalar(column)
  {
    if column in ["iy", "iz", "Ss", "A", "Avz", "Wel.y", "Wpl.y", "Wel.z", "Wpl.z"] {
      SectionPropertiesScaleOnce(x, column);
    } else {
      InertiaScaleOnce(x, column);
    }
  }

  /** The radii, areas and section moduli: one of the first three groups each. */
  lemma SectionPropertiesScaleOnce(x: real, column: string)
    requires column in ["iy", "iz", "Ss", "A", "Avz", "Wel.y", "Wpl.y", "Wel.z", "Wpl.z"]
    ensures ScaledValue(x, UnitGroups, column) == x * UnitScalar(column)
  {
    if column in ["iy", "iz", "Ss"] {
      ScaledValueSingle(x, UnitGroups, column, 0);
    } else if column in ["A", "Avz"] {
      ScaledValueSingle(x, UnitGroups, column, 1);
    } else {
      ScaledValueSingle(x, UnitGroups, column, 2);
    }
  }

  /** The second moments, the torsion constant, the warping constant and every other column. */
  lemma InertiaScaleOnce(x: real, column: string)
    requires column !in ["iy", "iz", "Ss", "A", "Avz", "Wel.y", "Wpl.y", "Wel.z", "Wpl.z"]
    ensures ScaledValue(x, UnitGroups, column) == x * UnitScalar(column)
  {
    if column == "Iy" {
      ScaledValueSingle(x, UnitGroups, column, 3);
    } else if column == "Iz" {
      ScaledValueSingle(x, UnitGroups, column, 4);
    } else if column == "It" {
      ScaledValueSingle(x, UnitGroups, column, 5);
    } else if column == "Iw" {
      ScaledValueSingle(x, UnitGroups, column, 6);
    } else {
      ScaledValueNone(x, UnitGroups, column);
    }
  }

  /** Every column of `group` is a column of the table. */
  predicate GroupPresent(columns: set<string>, group: seq<string>) {
    forall c :: c in group ==> c in columns
  }

  /** The index of the first of `groups` with a missing column, or the number of groups. */
  function FirstMissingGroup(columns: set<string>, groups: seq<(seq<string>, real)>, from: nat): (r: nat)
    requires from <= |groups|
    ensures from <= r <= |groups|
    ensures forall k :: from <= k < r ==> GroupPresent(columns, groups[k].0)
    ensures r < |groups| ==> !GroupPresent(columns, groups[r].0)
    decreases |groups| - from
  {
    if from == |groups| || !GroupPresent(columns, groups[from].0) then from
    else FirstMissingGroup(columns, groups, from + 1)
  }

  /** A prefix one element longer is the shorter prefix followed by that element. */
  lemma PrefixSnoc<T>(s: seq<T>, k: nat)
    requires k < |s|
    ensures s[..k + 1] == s[..k] + [s[k]]
  {
  }

  /** Cutting a prefix one element longer back by one gives the shorter prefix. */
  lemma PrefixOfPrefix<T>(s: seq<T>, k: nat)
    requires k < |s|
    ensures s[..k + 1][..k] == s[..k]
  {
  }

  /** The prefix of `s + [x]` as long as `s` is `s`. */
  lemma SnocPrefix<T>(s: seq<T>, x: T)
    ensures (s + [x])[..|s|] == s
  {
  }

  /** One row with the cells of `group` multiplied by `scalar` and the others kept. */
  function ScaleRow(row: Row, group: seq<string>, scalar: real): (r: Row)
    ensures r.name == row.name && r.cells.Keys == row.cells.Keys
  {
    Row(row.name, map c | c in row.cells :: if c in group then row.cells[c] * scalar else row.cells[c])
  }

  /** `profiles[group] = profiles[group] * scalar`: every row scaled on the columns of `group`. */
  function ScaleColumns(rows: seq<Row>, group: seq<string>, scalar: real): (r: seq<Row>)
    ensures |r| == |rows|
    ensures forall i :: 0 <= i < |rows| ==> r[i].name == rows[i].name && r[i].cells.Keys == rows[i].cells.Keys
  {
    seq(|rows|, i requires 0 <= i < |rows| => ScaleRow(rows[i], group, scalar))
  }

  /** One row with every cell scaled in turn by each of `groups` that names its column. */
  function ScaledRow(row: Row, groups: seq<(seq<string>, real)>): (r: Row)
    ensures r.name == row.name && r.cells.Keys == row.cells.Keys
  {
    Row(row.name, map c | c in row.cells :: ScaledValue(row.cells[c], groups, c))
  }

  /** Every row scaled by `groups`. */
  function ScaledRows(rows: seq<Row>, groups: seq<(seq<string>, real)>): (r: seq<Row>)
    ensures |r| == |rows|
    ensures forall i :: 0 <= i < |rows| ==> r[i].name == rows[i].name && r[i].cells.Keys == rows[i].cells.Keys
  {
    seq(|rows|, i requires 0 <= i < |rows| => ScaledRow(rows[i], groups))
  }

  /** Scaling one row by one more group on top of earlier ones is scaling it by the longer list. */
  lemma ScaleRowExtends(row: Row, groups: seq<(seq<string>, real)>, group: seq<string>, scalar: real)
    ensures ScaleRow(ScaledRow(row, groups), group, scalar) == ScaledRow(row, groups + [(group, scalar)])
  {
    var longer := groups + [(group, scalar)];
    assert longer[..|longer| - 1] == groups;
    var lhs := ScaleRow(ScaledRow(row, groups), group, scalar);
    var rhs := ScaledRow(row, longer);
    forall c | c in row.cells ensures lhs.cells[c] == rhs.cells[c] {
      assert ScaledRow(row, groups).cells[c] == ScaledValue(row.cells[c], groups, c);
    }
    assert lhs.cells == rhs.cells;
  }

  /** Scaling one more group on top of earlier ones is scaling by the longer list of groups. */
  lemma ScaleColumnsExtends(rows: seq<Row>, groups: seq<(seq<string>, real)>, group: seq<string>, scalar: real)
    ensures ScaleColumns(ScaledRows(rows, groups), group, scalar) == ScaledRows(rows, groups + [(group, scalar)])
  {
    var lhs := ScaleColumns(ScaledRows(rows, groups), group, scalar);
    var rhs := ScaledRows(rows, groups + [(group, scalar)]);
    forall i | 0 <= i < |rows| ensures lhs[i] == rhs[i] {
      ScaleRowExtends(rows[i], groups, group, scalar);
    }
  }

  /** Scaling by no group changes nothing. */
  lemma ScaledRowsByNoGroup(rows: seq<Row>)
    ensures ScaledRows(rows, []) == rows
  {
    var scaled := ScaledRows(rows, []);
    forall i | 0 <= i < |rows| ensures scaled[i] == rows[i] {
      assert scaled[i].cells == rows[i].cells;
    }
  }

  /** Scaling by every group multiplies each cell by its column's unit scalar and touches nothing else. */
  lemma ScaledRowsByUnitGroups(rows: seq<Row>, i: int, column: string)
    requires 0 <= i < |rows| && column in rows[i].cells
    ensures ScaledRows(rows, UnitGroups)[i].cells[column] == rows[i].cells[column] * UnitScalar(column)
    ensures UnitScalar(column) == 1.0 ==> ScaledRows(rows, UnitGroups)[i].cells[column] == rows[i].cells[column]
  {
    UnitGroupsScaleOnce(rows[i].cells[column], column);
    assert ScaledRows(rows, UnitGroups)[i] == ScaledRow(rows[i], UnitGroups);
  }

  // ---------------------------------------------------------------------------
  // Steel columns from profiles
  // ---------------------------------------------------------------------------

  /** The columns create_steelcolumn reads: the area and the two second moments of area. */
  predicate HasSectionProperties(columns: set<string>) {
    "A" in columns && "Iy" in columns && "Iz" in columns
  }

  /**
   * Where the section-property columns exist, the first row of the selection
   * has a value in each: create_steelcolumn reads no missing (NaN) cell.
   */
  predicate FirstRowHasProperties(profile: Table) {
    HasSectionProperties(profile.columns) && |profile.rows| > 0 ==> HasSectionProperties(profile.rows[0].cells.Keys)
  }

  /**
   * Where the section-property columns exist, the first row of every section
   * name has a value in each: the loop of calculate_steelcolumns reads no
   * missing (NaN) cell.
   */
  predicate SectionsHaveProperties(t: Table) {
    HasSectionProperties(t.columns) ==>
      forall i :: 0 <= i < |t.rows| && FirstIndexOf(Names(t.rows), t.rows[i].name) == i ==>
        HasSectionProperties(t.rows[i].cells.Keys)
  }

  /** A well-formed table has every cell, so every section's properties. */
  lemma WellFormedHasProperties(t: Table)
    requires t.WellFormed()
    ensures SectionsHaveProperties(t)
  {
  }

  /**
   * The column of `height` on the profile `row`: the strong axis from 'Iy',
   * the weak axis from 'Iz', both effective-length factors 1.0, E = 210000.
   */
  function SectionGeometry(row: Row, height: real): ColumnDoublySymmetric
    requires HasSectionProperties(row.cells.Keys)
  {
    ColumnDoublySymmetric(height, row.cells["A"], row.cells["Iy"], row.cells["Iz"], 1.0, 1.0, 210000.0)
  }

  /**
   * A steel column from a selection of profile rows, from the first row's
   * values. 'A' is read first: a KeyError without that column, then an
   * IndexError when the selection is empty; then 'Iy' and 'Iz'.
   */
  method CreateSteelColumn(profile: Table, height: real, fy: real := 235.0) returns (r: Result<SteelColumn>)
    requires FirstRowHasProperties(profile)
    ensures r.Ok? <==> HasSectionProperties(profile.columns) && |profile.rows| > 0
    ensures r == Err(IndexOutOfRange) <==> "A" in profile.columns && |profile.rows| == 0
    ensures r.Err? && r != Err(IndexOutOfRange) ==> r == Err(MissingColumn)
    ensures r.Ok? ==> fresh(r.value)
    ensures r.Ok? ==> r.value.geometry == SectionGeometry(profile.rows[0], height)
    ensures r.Ok? ==> r.value.columnTag == profile.rows[0].name && r.value.yieldStress == fy
                      && r.value.gammaM == 1.0 && r.value.axialLoad == None
  {
    if "A" !in profile.columns {
      return Err(MissingColumn);
    }
    if |profile.rows| == 0 {
      return Err(IndexOutOfRange);
    }
    if "Iy" !in profile.columns || "Iz" !in profile.columns {
      return Err(MissingColumn);
    }
    var first := profile.rows[0];
    var area := first.cells["A"];
    var moIx := first.cells["Iy"];
    var moIy := first.cells["Iz"];
    var column := new SteelColumn(ColumnDoublySymmetric(height, area, moIx, moIy, 1.0, 1.0, 210000.0),
                                  first.name, None, fy);
    return Ok(column);
  }

  /** The factored load, the x-axis axial resistance and the x-axis demand/capacity ratio. */
  datatype ColumnOutputs = ColumnOutputs(factoredLoad: real, axialResistance: real, dcr: real)

  /**
   * What calculate_column_load yields once the load is `load`, given the
   * outcome of the capacity about x: the capacity's error, a
   * ZeroDivisionError for a zero capacity, or outputs whose ratio times the
   * resistance gives back the factored load.
   */
  function ColumnLoadOutcome(capacity: Result<real>, load: Load): (r: Result<ColumnOutputs>)
    ensures r.Ok? <==> capacity.Ok? && capacity.value != 0.0
    ensures capacity.Err? ==> r == Err(capacity.error)
    ensures capacity == Ok(0.0) ==> r == Err(ZeroDivision)
    ensures r.Ok? ==> r.value.factoredLoad == MaxFactoredLoad(load) && r.value.axialResistance == capacity.value
  {
    var demand := MaxFactoredLoad(load);
    var resistance :- capacity;
    var dcr :- Ratio(demand, resistance);
    Ok(ColumnOutputs(demand, resistance, dcr))
  }

  /** The ratio of the outputs times the resistance gives back the factored load. */
  lemma ColumnLoadRatio(capacity: Result<real>, load: Load)
    requires ColumnLoadOutcome(capacity, load).Ok?
    ensures var o := ColumnLoadOutcome(capacity, load).value;
            o.dcr * o.axialResistance == o.factoredLoad
  {
  }

  /** With a positive resistance the ratio is at most 1 exactly when the factored load fits. */
  lemma ColumnLoadDcrAtMostOne(capacity: Result<real>, load: Load)
    requires ColumnLoadOutcome(capacity, load).Ok? && ColumnLoadOutcome(capacity, load).value.axialResistance > 0.0
    ensures var o := ColumnLoadOutcome(capacity, load).value;
            o.dcr <= 1.0 <==> o.factoredLoad <= o.axialResistance
  {
    var o := ColumnLoadOutcome(capacity, load).value;
    ColumnLoadRatio(capacity, load);
    RatioAtMostOne(o.factoredLoad, o.axialResistance);
  }

  /**
   * calculate_column_load: the column's axial load is replaced by
   * Load(dead, live), then its factored load, its capacity about x and its
   * ratio about x are returned.
   */
  method CalculateColumnLoad(column: SteelColumn, dead: real, live: real, m: Numerics)
    returns (r: Result<ColumnOutputs>)
    modifies column
    ensures column.axialLoad == Some(DeadLive(dead, live))
    ensures r == ColumnLoadOutcome(column.FactoredAxialCapacity("x", m), DeadLive(dead, live))
  {
    column.axialLoad := Some(DeadLive(dead, live));
    var factoredLoad := column.FactoredAxialLoad().value;
    var axialResistance :- column.FactoredAxialCapacity("x", m);
    var dcr :- column.FactoredDcr("x", m);
    return Ok(ColumnOutputs(factoredLoad, axialResistance, dcr));
  }

  /** The capacities about x of a list of columns, in order. */
  function Capacities(columns: seq<SteelColumn>, m: Numerics): (r: seq<Result<real>>)
    ensures |r| == |columns|
  {
    seq(|columns|, i requires 0 <= i < |columns| => columns[i].FactoredAxialCapacity("x", m))
  }

  /**
   * calculate_columns, given the capacities of the columns: the outputs of
   * the columns in order, or the error of the first column that fails.
   */
  function BatchOutcome(capacities: seq<Result<real>>, load: Load): (r: Result<seq<ColumnOutputs>>)
    ensures r.Ok? ==> |r.value| == |capacities|
    decreases |capacities|
  {
    if |capacities| == 0 then Ok([])
    else
      var previous :- BatchOutcome(capacities[..|capacities| - 1], load);
      var last :- ColumnLoadOutcome(capacities[|capacities| - 1], load);
      Ok(previous + [last])
  }

  /**
   * calculate_columns returns one result per column, in the same order, when
   * every column succeeds, and otherwise the error of the first column that fails.
   */
  lemma {:induction false} BatchOutcomeInOrder(capacities: seq<Result<real>>, load: Load)
    ensures BatchOutcome(capacities, load).Ok? <==>
              forall i :: 0 <= i < |capacities| ==> ColumnLoadOutcome(capacities[i], load).Ok?
    ensures BatchOutcome(capacities, load).Ok? ==>
              |BatchOutcome(capacities, load).value| == |capacities|
              && forall i :: 0 <= i < |capacities| ==>
                   Ok(BatchOutcome(capacities, load).value[i]) == ColumnLoadOutcome(capacities[i], load)
    ensures BatchOutcome(capacities, load).Err? ==>
              exists k :: 0 <= k < |capacities|
                          && ColumnLoadOutcome(capacities[k], load) == Err(BatchOutcome(capacities, load).error)
                          && forall i :: 0 <= i < k ==> ColumnLoadOutcome(capacities[i], load).Ok?
    decreases |capacities|
  {
    if |capacities| > 0 {
      var front := capacities[..|capacities| - 1];
      assert forall i :: 0 <= i < |front| ==> front[i] == capacities[i];
      BatchOutcomeInOrder(front, load);
      if BatchOutcome(front, load).Err? {
        var k :| 0 <= k < |front| && ColumnLoadOutcome(front[k], load) == Err(BatchOutcome(front, load).error)
                 && forall i :: 0 <= i < k ==> ColumnLoadOutcome(front[i], load).Ok?;
        assert ColumnLoadOutcome(capacities[k], load) == Err(BatchOutcome(capacities, load).error);
      }
    }
  }

  /** A failure right after a successful prefix is the failure of the whole batch. */
  lemma {:induction false} PrefixFailure(capacities: seq<Result<real>>, load: Load, k: int)
    requires 0 <= k < |capacities|
    requires BatchOutcome(capacities[..k], load).Ok? && ColumnLoadOutcome(capacities[k], load).Err?
    ensures BatchOutcome(capacities, load) == Err(ColumnLoadOutcome(capacities[k], load).error)
    decreases |capacities|
  {
    var n := |capacities| - 1;
    var front := capacities[..n];
    if k < n {
      assert front[..k] == capacities[..k] && front[k] == capacities[k];
      PrefixFailure(front, load, k);
    } else {
      assert front == capacities[..k];
    }
  }

  /**
   * A batch whose first `k` columns succeed and whose next column, if any,
   * fails succeeds exactly when `k` covers every column.
   */
  lemma BatchStopsAt(capacities: seq<Result<real>>, load: Load, k: nat)
    requires k <= |capacities| && BatchOutcome(capacities[..k], load).Ok?
    requires k < |capacities| ==> ColumnLoadOutcome(capacities[k], load).Err?
    ensures BatchOutcome(capacities, load).Ok? <==> k == |capacities|
  {
    if k < |capacities| {
      PrefixFailure(capacities, load, k);
    } else {
      assert capacities[..k] == capacities;
    }
  }

  /**
   * The loop of calculate_columns. Every column up to the first failing one
   * gets the new load; a column after it that is not also an earlier one
   * keeps its load.
   */
  method CalculateColumns(columns: seq<SteelColumn>, dead: real, live: real, m: Numerics)
    returns (r: Result<seq<ColumnOutputs>>, ghost reached: nat)
    modifies columns
    ensures r == BatchOutcome(Capacities(columns, m), DeadLive(dead, live))
    ensures reached <= |columns| && (r.Ok? ==> reached == |columns|)
    ensures r.Err? ==> 0 < reached && BatchOutcome(Capacities(columns, m)[..reached - 1], DeadLive(dead, live)).Ok?
                       && ColumnLoadOutcome(Capacities(columns, m)[reached - 1], DeadLive(dead, live)) == Err(r.error)
    ensures forall i :: 0 <= i < reached ==> columns[i].axialLoad == Some(DeadLive(dead, live))
    ensures forall i :: reached <= i < |columns| && (forall k :: 0 <= k < reached ==> columns[k] != columns[i])
              ==> columns[i].axialLoad == old(columns[i].axialLoad)
  {
    ghost var load := DeadLive(dead, live);
    ghost var capacities := Capacities(columns, m);
    var results: seq<ColumnOutputs> := [];
    var i := 0;
    assert capacities[..0] == [];
    while i < |columns|
      invariant 0 <= i <= |columns|
      invariant BatchOutcome(capacities[..i], load) == Ok(results)
      invariant forall j :: 0 <= j < i ==> columns[j].axialLoad == Some(load)
      invariant forall j :: i <= j < |columns| && (forall k :: 0 <= k < i ==> columns[k] != columns[j])
                  ==> columns[j].axialLoad == old(columns[j].axialLoad)
    {
      label before:
      var result := CalculateColumnLoad(columns[i], dead, live, m);
      forall j | 0 <= j <= i
        ensures columns[j].axialLoad == Some(load)
      {
        if columns[j] != columns[i] {
          assert columns[j].axialLoad == old@before(columns[j].axialLoad);
        }
      }
      forall j | i < j < |columns| && (forall k :: 0 <= k <= i ==> columns[k] != columns[j])
        ensures columns[j].axialLoad == old(columns[j].axialLoad)
      {
        assert columns[j].axialLoad == old@before(columns[j].axialLoad);
      }
      assert result == ColumnLoadOutcome(capacities[i], load);
      assert capacities[..i + 1][..i] == capacities[..i];
      if result.Err? {
        PrefixFailure(capacities, load, i);
        return Err(result.error), i + 1;
      }
      results := results + [result.value];
      i := i + 1;
    }
    assert capacities[..i] == capacities;
    return Ok(results), i;
  }

  // ---------------------------------------------------------------------------
  // calculate_steelcolumns
  // ---------------------------------------------------------------------------

  /** The columns calculate_steelcolumns sets in every row before its loop. */
  const InputColumns: set<string> := {"Height", "Dead", "Live"}

  /** The columns it writes into the rows of each section name. */
  const OutputColumns: set<string> := {"Factored load", "Axial Resistance", "DCR"}

  /** The row with its 'Height', 'Dead' and 'Live' cells set. */
  function WithInputs(row: Row, height: real, dead: real, live: real): Row
  {
    Row(row.name, row.cells["Height" := height]["Dead" := dead]["Live" := live])
  }

  /** The input cells are added, and the name and every other cell are kept. */
  lemma WithInputsCells(row: Row, height: real, dead: real, live: real)
    ensures var r := WithInputs(row, height, dead, live);
            && r.name == row.name && r.cells.Keys == row.cells.Keys + InputColumns
            && r.cells["Height"] == height && r.cells["Dead"] == dead && r.cells["Live"] == live
            && forall c :: c in row.cells && c !in InputColumns ==> r.cells[c] == row.cells[c]
  {
  }

  /** `profiles['Height'] = height` and likewise for 'Dead' and 'Live': every row gets the three cells. */
  function AddInputs(rows: seq<Row>, height: real, dead: real, live: real): (r: seq<Row>)
    ensures |r| == |rows|
    ensures forall i :: 0 <= i < |rows| ==> r[i] == WithInputs(rows[i], height, dead, live)
  {
    seq(|rows|, i requires 0 <= i < |rows| => WithInputs(rows[i], height, dead, live))
  }

  /** The row with its 'Factored load', 'Axial Resistance' and 'DCR' cells set to `o`. */
  function WithOutputs(row: Row, o: ColumnOutputs): Row
  {
    Row(row.name, row.cells["Factored load" := o.factoredLoad]["Axial Resistance" := o.axialResistance]["DCR" := o.dcr])
  }

  /** The output cells are set, and the name and every other cell are kept. */
  lemma WithOutputsCells(row: Row, o: ColumnOutputs)
    ensures var r := WithOutputs(row, o);
            && r.name == row.name && r.cells.Keys == row.cells.Keys + OutputColumns
            && r.cells["Factored load"] == o.factoredLoad && r.cells["Axial Resistance"] == o.axialResistance
            && r.cells["DCR"] == o.dcr
            && forall c :: c in row.cells && c !in OutputColumns ==> r.cells[c] == row.cells[c]
  {
  }

  /** Writing the same outputs twice is writing them once. */
  lemma WithOutputsIdempotent(row: Row, o: ColumnOutputs)
    ensures WithOutputs(WithOutputs(row, o), o) == WithOutputs(row, o)
  {
    var once := WithOutputs(row, o);
    var twice := WithOutputs(once, o);
    assert twice.cells.Keys == once.cells.Keys;
    assert forall c :: c in once.cells ==> twice.cells[c] == once.cells[c];
  }

  /**
   * `profiles.loc[profiles['Section name'] == name, column] = value` for the
   * three output columns: the rows of that name get the outputs, the other
   * rows are unchanged.
   */
  function WriteOutputs(rows: seq<Row>, name: string, o: ColumnOutputs): (r: seq<Row>)
    ensures |r| == |rows|
    ensures forall i :: 0 <= i < |rows| ==> r[i] == if rows[i].name == name then WithOutputs(rows[i], o) else rows[i]
  {
    seq(|rows|, i requires 0 <= i < |rows| => if rows[i].name == name then WithOutputs(rows[i], o) else rows[i])
  }

  /** The rows after the outputs of each of `names` in turn have been written. */
  function WriteAllOutputs(rows: seq<Row>, names: seq<string>, outputs: seq<ColumnOutputs>): (r: seq<Row>)
    requires |names| == |outputs|
    ensures |r| == |rows|
    decreases |names|
  {
    if |names| == 0 then rows
    else
      var n := |names| - 1;
      WriteOutputs(WriteAllOutputs(rows, names[..n], outputs[..n]), names[n], outputs[n])
  }

  /** Writing outputs keeps every row's name, and every cell outside the output columns. */
  lemma {:induction false} WriteAllOutputsKeeps(rows: seq<Row>, names: seq<string>, outputs: seq<ColumnOutputs>)
    requires |names| == |outputs|
    ensures var r := WriteAllOutputs(rows, names, outputs);
            forall i :: 0 <= i < |rows| ==>
              && r[i].name == rows[i].name
              && rows[i].cells.Keys <= r[i].cells.Keys
              && forall c :: c in rows[i].cells && c !in OutputColumns ==> r[i].cells[c] == rows[i].cells[c]
    decreases |names|
  {
    if |names| > 0 {
      var n := |names| - 1;
      WriteAllOutputsKeeps(rows, names[..n], outputs[..n]);
    }
  }

  /**
   * When every occurrence of row i's name carries the same outputs, row i
   * ends with those outputs if its name occurs and is untouched otherwise:
   * writing a section's outputs again changes nothing.
   */
  lemma {:induction false} WriteAllOutputsRow(rows: seq<Row>, names: seq<string>, outputs: seq<ColumnOutputs>,
                                              i: int, o: ColumnOutputs)
    requires |names| == |outputs| && 0 <= i < |rows|
    requires forall j :: 0 <= j < |names| && names[j] == rows[i].name ==> outputs[j] == o
    ensures WriteAllOutputs(rows, names, outputs)[i] == if rows[i].name in names then WithOutputs(rows[i], o) else rows[i]
    decreases |names|
  {
    if |names| > 0 {
      var n := |names| - 1;
      assert forall j :: 0 <= j < n ==> names[..n][j] == names[j] && outputs[..n][j] == outputs[j];
      WriteAllOutputsRow(rows, names[..n], outputs[..n], i, o);
      WriteAllOutputsKeeps(rows, names[..n], outputs[..n]);
      assert names == names[..n] + [names[n]];
      assert rows[i].name in names <==> rows[i].name in names[..n] || names[n] == rows[i].name;
      if names[n] == rows[i].name {
        WithOutputsIdempotent(rows[i], o);
      }
    }
  }

  /** A row whose name is among `names` ends with a cell in every output column. */
  lemma {:induction false} WriteAllOutputsCovers(rows: seq<Row>, names: seq<string>, outputs: seq<ColumnOutputs>)
    requires |names| == |outputs|
    ensures var r := WriteAllOutputs(rows, names, outputs);
            forall i :: 0 <= i < |rows| && rows[i].name in names ==> OutputColumns <= r[i].cells.Keys
    decreases |names|
  {
    if |names| > 0 {
      var n := |names| - 1;
      var before := WriteAllOutputs(rows, names[..n], outputs[..n]);
      WriteAllOutputsCovers(rows, names[..n], outputs[..n]);
      WriteAllOutputsKeeps(rows, names[..n], outputs[..n]);
      assert names == names[..n] + [names[n]];
      forall i | 0 <= i < |rows| && rows[i].name in names
        ensures OutputColumns <= WriteAllOutputs(rows, names, outputs)[i].cells.Keys
      {
        WithOutputsCells(before[i], outputs[n]);
        if rows[i].name != names[n] {
          assert rows[i].name in names[..n];
        }
      }
    }
  }

  /** The index of the first occurrence of `name`, or |names| when it does not occur. */
  function FirstIndexOf(names: seq<string>, name: string): (r: nat)
    ensures r <= |names|
    ensures forall j :: 0 <= j < r ==> names[j] != name
    ensures r < |names| ==> names[r] == name
  {
    if |names| == 0 || names[0] == name then 0 else 1 + FirstIndexOf(names[1..], name)
  }

  /** The names of all rows but the first are the names after the first. */
  lemma NamesTail(rows: seq<Row>)
    requires |rows| > 0
    ensures rows == [rows[0]] + rows[1..]
    ensures Names(rows)[0] == rows[0].name && Names(rows)[1..] == Names(rows[1..])
  {
    assert rows == [rows[0]] + rows[1..];
  }

  /** `profiles.loc[profiles['Section name'] == name]`: the rows of that name, in order. */
  function RowsNamed(rows: seq<Row>, name: string): (r: seq<Row>)
    ensures |r| <= |rows|
  {
    if |rows| == 0 then []
    else
      var rest := RowsNamed(rows[1..], name);
      if rows[0].name == name then [rows[0]] + rest else rest
  }

  /** The selection of `name` holds exactly the rows of that name. */
  lemma {:induction false} RowsNamedMembers(rows: seq<Row>, name: string)
    ensures forall row :: row in RowsNamed(rows, name) <==> row in rows && row.name == name
    decreases |rows|
  {
    if |rows| > 0 {
      assert rows == [rows[0]] + rows[1..];
      RowsNamedMembers(rows[1..], name);
    }
  }

  /**
   * The selection of `name` is non-empty exactly when some row has that
   * name, and then it starts with the first such row.
   */
  lemma {:induction false} RowsNamedFirst(rows: seq<Row>, name: string)
    ensures |RowsNamed(rows, name)| > 0 <==> FirstIndexOf(Names(rows), name) < |rows|
    ensures |RowsNamed(rows, name)| > 0 ==> RowsNamed(rows, name)[0] == rows[FirstIndexOf(Names(rows), name)]
    decreases |rows|
  {
    if |rows| > 0 {
      var rest := rows[1..];
      NamesTail(rows);
      RowsNamedFirst(rest, name);
      var first := FirstIndexOf(Names(rows), name);
      if rows[0].name == name {
        assert first == 0;
        assert RowsNamed(rows, name) == [rows[0]] + RowsNamed(rest, name);
      } else {
        assert first == 1 + FirstIndexOf(Names(rest), name);
        assert RowsNamed(rows, name) == RowsNamed(rest, name);
        assert first < |rows| ==> rows[first] == rest[first - 1];
      }
    }
  }

  /**
   * The geometry of the column create_steelcolumn builds from a non-empty
   * selection of profile rows: its first row's section properties, or none
   * when a section property column is missing.
   */
  function ProfileGeometry(profile: Table, height: real): Option<ColumnDoublySymmetric>
    requires FirstRowHasProperties(profile) && |profile.rows| > 0
  {
    if !HasSectionProperties(profile.columns) then None
    else Some(SectionGeometry(profile.rows[0], height))
  }

  /** The capacity about x of such a column with gamma_m = 1; a KeyError when it could not be built. */
  function SectionColumnCapacity(geometry: Option<ColumnDoublySymmetric>, fy: real, m: Numerics): Result<real> {
    match geometry
    case None => Err(MissingColumn)
    case Some(g) => AxialCapacity(g, fy, 1.0, "x", m)
  }

  /** The geometry of the column for the section `name`: the first row of that name decides. */
  function SectionGeometryOf(t: Table, name: string, height: real): Option<ColumnDoublySymmetric>
    requires SectionsHaveProperties(t) && FirstIndexOf(Names(t.rows), name) < |t.rows|
  {
    if !HasSectionProperties(t.columns) then None
    else
      var first := FirstIndexOf(Names(t.rows), name);
      assert t.rows[first].name == Names(t.rows)[first] == name;
      Some(SectionGeometry(t.rows[first], height))
  }

  /**
   * The x-axis capacity of the column create_steelcolumn builds for the
   * section `name`: a KeyError without the section properties, otherwise
   * the capacity of the first row of that name, with gamma_m = 1.
   */
  function SectionCapacity(t: Table, name: string, height: real, fy: real, m: Numerics): Result<real>
    requires SectionsHaveProperties(t) && FirstIndexOf(Names(t.rows), name) < |t.rows|
  {
    SectionColumnCapacity(SectionGeometryOf(t, name, height), fy, m)
  }

  /** The capacity for each row's section name, in row order. */
  function SectionCapacities(t: Table, height: real, fy: real, m: Numerics): (r: seq<Result<real>>)
    requires SectionsHaveProperties(t)
    ensures |r| == |t.rows|
    ensures forall i :: 0 <= i < |t.rows| ==> r[i] == SectionCapacity(t, t.rows[i].name, height, fy, m)
  {
    seq(|t.rows|, j requires 0 <= j < |t.rows| => SectionCapacity(t, Names(t.rows)[j], height, fy, m))
  }

  /**
   * When every section succeeds, row i ends with the outputs computed for
   * its own capacity; rows sharing a name share a capacity, so the later
   * writes for the same name agree with the earlier ones.
   */
  lemma SteelColumnsRow(rows: seq<Row>, capacities: seq<Result<real>>, load: Load, i: int)
    requires |capacities| == |rows| && 0 <= i < |rows|
    requires BatchOutcome(capacities, load).Ok?
    requires forall j :: 0 <= j < |rows| && rows[j].name == rows[i].name ==> capacities[j] == capacities[i]
    ensures ColumnLoadOutcome(capacities[i], load).Ok?
    ensures WriteAllOutputs(rows, Names(rows), BatchOutcome(capacities, load).value)[i]
              == WithOutputs(rows[i], ColumnLoadOutcome(capacities[i], load).value)
  {
    BatchOutcomeInOrder(capacities, load);
    var outputs := BatchOutcome(capacities, load).value;
    var o := ColumnLoadOutcome(capacities[i], load).value;
    forall j | 0 <= j < |rows| && Names(rows)[j] == rows[i].name
      ensures outputs[j] == o
    {
      assert Ok(outputs[j]) == ColumnLoadOutcome(capacities[j], load);
    }
    assert Names(rows)[i] == rows[i].name;
    WriteAllOutputsRow(rows, Names(rows), outputs, i, o);
  }

  /**
   * After a successful calculate_steelcolumns, given the capacity for each
   * row's section name, row i is the original row with the inputs set and
   * then the outputs of its own section: the factored load of the load, the
   * section's resistance, and the ratio that times the resistance gives the
   * factored load.
   */
  lemma SteelColumnsSuccess(rows: seq<Row>, capacities: seq<Result<real>>, height: real, dead: real, live: real,
                            i: int)
    requires |capacities| == |rows| && 0 <= i < |rows|
    requires BatchOutcome(capacities, DeadLive(dead, live)).Ok?
    requires forall j :: 0 <= j < |rows| && rows[j].name == rows[i].name ==> capacities[j] == capacities[i]
    ensures ColumnLoadOutcome(capacities[i], DeadLive(dead, live)).Ok?
    ensures WriteAllOutputs(AddInputs(rows, height, dead, live), Names(rows),
                            BatchOutcome(capacities, DeadLive(dead, live)).value)[i]
              == WithOutputs(WithInputs(rows[i], height, dead, live), ColumnLoadOutcome(capacities[i], DeadLive(dead, live)).value)
  {
    var inputs := AddInputs(rows, height, dead, live);
    assert Names(inputs) == Names(rows);
    forall j | 0 <= j < |inputs| && inputs[j].name == inputs[i].name
      ensures capacities[j] == capacities[i]
    {
      assert rows[j].name == inputs[j].name;
    }
    SteelColumnsRow(inputs, capacities, DeadLive(dead, live), i);
  }

  /**
   * After a successful calculate_steelcolumns on the table `t`, row i is
   * the original row with the inputs and then the outputs of the section it
   * is named after, whichever row of that name was processed last.
   */
  lemma SteelColumnsTable(t: Table, height: real, fy: real, dead: real, live: real, m: Numerics, i: int)
    requires SectionsHaveProperties(t) && 0 <= i < |t.rows|
    requires BatchOutcome(SectionCapacities(t, height, fy, m), DeadLive(dead, live)).Ok?
    ensures ColumnLoadOutcome(SectionCapacity(t, t.rows[i].name, height, fy, m), DeadLive(dead, live)).Ok?
    ensures WriteAllOutputs(AddInputs(t.rows, height, dead, live), Names(t.rows),
                            BatchOutcome(SectionCapacities(t, height, fy, m), DeadLive(dead, live)).value)[i]
              == WithOutputs(WithInputs(t.rows[i], height, dead, live),
                             ColumnLoadOutcome(SectionCapacity(t, t.rows[i].name, height, fy, m), DeadLive(dead, live)).value)
  {
    var capacities := SectionCapacities(t, height, fy, m);
    forall j | 0 <= j < |t.rows| && t.rows[j].name == t.rows[i].name
      ensures capacities[j] == capacities[i]
    {
    }
    SteelColumnsSuccess(t.rows, capacities, height, dead, live, i);
  }

  /**
   * After a successful calculate_steelcolumns on a table with every cell
   * present, every row has a cell in every column, the three input and
   * three output columns included: the filters and the sort apply to the
   * result as they do to the profiles.
   */
  lemma SteelColumnsWellFormed(t: Table, height: real, dead: real, live: real, outputs: seq<ColumnOutputs>,
                                columns: set<string>)
    requires t.WellFormed() && |outputs| == |t.rows|
    requires columns == if |t.rows| > 0 then t.columns + InputColumns + OutputColumns else t.columns + InputColumns
    ensures Table(columns, WriteAllOutputs(AddInputs(t.rows, height, dead, live), Names(t.rows), outputs)).WellFormed()
  {
    var inputs := AddInputs(t.rows, height, dead, live);
    var rows := WriteAllOutputs(inputs, Names(t.rows), outputs);
    WriteAllOutputsCovers(inputs, Names(t.rows), outputs);
    WriteAllOutputsKeeps(inputs, Names(t.rows), outputs);
    forall i | 0 <= i < |rows|
      ensures columns <= rows[i].cells.Keys
    {
      WithInputsCells(t.rows[i], height, dead, live);
      assert t.columns <= t.rows[i].cells.Keys;
      assert inputs[i].name == Names(t.rows)[i];
    }
  }

  /**
   * A row with the inputs and then the outputs written keeps its name and
   * its other cells and has exactly the six new cells added.
   */
  lemma InputsAndOutputsCells(row: Row, height: real, dead: real, live: real, o: ColumnOutputs)
    ensures var r := WithOutputs(WithInputs(row, height, dead, live), o);
            && r.name == row.name
            && r.cells.Keys == row.cells.Keys + InputColumns + OutputColumns
            && r.cells["Height"] == height && r.cells["Dead"] == dead && r.cells["Live"] == live
            && r.cells["Factored load"] == o.factoredLoad && r.cells["Axial Resistance"] == o.axialResistance
            && r.cells["DCR"] == o.dcr
            && forall c :: c in row.cells && c !in InputColumns + OutputColumns ==> r.cells[c] == row.cells[c]
  {
    var inputs := WithInputs(row, height, dead, live);
    assert "Height" !in OutputColumns && "Dead" !in OutputColumns && "Live" !in OutputColumns;
    assert inputs.cells["Height"] == height;
  }

  /** calculate_steelcolumns writes none of the columns create_steelcolumn reads. */
  lemma SectionPropertiesNotWritten()
    ensures "A" !in InputColumns && "Iy" !in InputColumns && "Iz" !in InputColumns
    ensures "A" !in OutputColumns && "Iy" !in OutputColumns && "Iz" !in OutputColumns
  {
    assert forall c :: c in InputColumns + OutputColumns ==> |c| > 2;
  }

  /**
   * During the loop of calculate_steelcolumns the selection of the rows of
   * `name` is not empty, and its first row carries the original section
   * properties of the first row of that name.
   */
  lemma SectionRowsPresent(t: Table, inputs: seq<Row>, rows: seq<Row>, names: seq<string>,
                           outputs: seq<ColumnOutputs>, height: real, dead: real, live: real, name: string)
    requires SectionsHaveProperties(t) && inputs == AddInputs(t.rows, height, dead, live)
    requires |names| == |outputs| && rows == WriteAllOutputs(inputs, names, outputs)
    requires FirstIndexOf(Names(t.rows), name) < |t.rows|
    ensures Names(rows) == Names(t.rows)
    ensures RowsNamed(rows, name) != []
    ensures FirstRowHasProperties(Table(t.columns + InputColumns, RowsNamed(rows, name)))
    ensures ProfileGeometry(Table(t.columns + InputColumns, RowsNamed(rows, name)), height)
              == SectionGeometryOf(t, name, height)
  {
    WriteAllOutputsKeeps(inputs, names, outputs);
    assert forall i :: 0 <= i < |rows| ==> rows[i].name == t.rows[i].name;
    assert Names(rows) == Names(t.rows);
    var selection := RowsNamed(rows, name);
    RowsNamedFirst(rows, name);
    SectionPropertiesNotWritten();
    var first := FirstIndexOf(Names(t.rows), name);
    assert selection[0] == rows[first];
    if HasSectionProperties(t.columns) {
      assert t.rows[first].name == Names(t.rows)[first] == name;
      assert HasSectionProperties(t.rows[first].cells.Keys);
      assert inputs[first] == WithInputs(t.rows[first], height, dead, live);
      assert rows[first].cells["A"] == inputs[first].cells["A"] == t.rows[first].cells["A"];
      assert rows[first].cells["Iy"] == inputs[first].cells["Iy"] == t.rows[first].cells["Iy"];
      assert rows[first].cells["Iz"] == inputs[first].cells["Iz"] == t.rows[first].cells["Iz"];
    }
  }

  /**
   * One pass of the loop of calculate_steelcolumns for a selection of rows:
   * create_steelcolumn on it, the load set to Load(dead, live), and
   * calculate_column_load on the column.
   */
  method LoadSection(profile: Table, height: real, fy: real, dead: real, live: real, m: Numerics)
    returns (r: Result<ColumnOutputs>)
    requires FirstRowHasProperties(profile) && |profile.rows| > 0
    ensures r == ColumnLoadOutcome(SectionColumnCapacity(ProfileGeometry(profile, height), fy, m), DeadLive(dead, live))
  {
    var created := CreateSteelColumn(profile, height, fy);
    if created.Err? {
      return Err(created.error);
    }
    var column := created.value;
    column.axialLoad := Some(DeadLive(dead, live));
    r := CalculateColumnLoad(column, dead, live, m);
  }

  /**
   * The pass of the loop of calculate_steelcolumns for `name`, on the rows
   * as they stand after the sections before it: the outcome depends only on
   * the original first row of that name.
   */
  method LoadNamedSection(ghost t: Table, rows: seq<Row>, base: set<string>, ghost names: seq<string>,
                          ghost outputs: seq<ColumnOutputs>, name: string,
                          height: real, fy: real, dead: real, live: real, m: Numerics)
    returns (r: Result<ColumnOutputs>)
    requires SectionsHaveProperties(t) && base == t.columns + InputColumns
    requires |names| == |outputs| && rows == WriteAllOutputs(AddInputs(t.rows, height, dead, live), names, outputs)
    requires FirstIndexOf(Names(t.rows), name) < |t.rows|
    ensures r == ColumnLoadOutcome(SectionCapacity(t, name, height, fy, m), DeadLive(dead, live))
  {
    SectionRowsPresent(t, AddInputs(t.rows, height, dead, live), rows, names, outputs, height, dead, live, name);
    r := LoadSection(Table(base, RowsNamed(rows, name)), height, fy, dead, live, m);
  }

  /**
   * One more section processed: its outputs extend the batch outcome, and
   * writing them extends the rows written so far.
   */
  lemma SectionStep(capacities: seq<Result<real>>, load: Load, inputs: seq<Row>, names: seq<string>,
                    outputs: seq<ColumnOutputs>, k: nat, o: ColumnOutputs)
    requires k < |capacities| && k < |names| && |outputs| == k
    requires BatchOutcome(capacities[..k], load) == Ok(outputs)
    requires ColumnLoadOutcome(capacities[k], load) == Ok(o)
    ensures BatchOutcome(capacities[..k + 1], load) == Ok(outputs + [o])
    ensures WriteOutputs(WriteAllOutputs(inputs, names[..k], outputs), names[k], o)
            == WriteAllOutputs(inputs, names[..k + 1], outputs + [o])
  {
    PrefixOfPrefix(capacities, k);
    PrefixOfPrefix(names, k);
    SnocPrefix(outputs, o);
  }

  // ---------------------------------------------------------------------------
  // The profile table as a mutable frame
  // ---------------------------------------------------------------------------

  /** A DataFrame of profiles, updated in place. */
  class DataFrame {
    var columns: set<string>
    var rows: seq<Row>

    constructor (columns: set<string>, rows: seq<Row>)
      ensures this.columns == columns && this.rows == rows
    {
      this.columns := columns;
      this.rows := rows;
    }

    /** The frame's current contents as a value. */
    function Contents(): Table
      reads this
    {
      Table(columns, rows)
    }

    /**
     * The unit scaling done right after reading: each of the unit groups in
     * turn is multiplied by its scalar. A group naming a missing column
     * raises a KeyError, leaving the groups before it applied.
     */
    method ApplyUnitScalars() returns (r: Result<()>)
      modifies this
      ensures columns == old(columns)
      ensures r.Ok? <==> FirstMissingGroup(old(columns), UnitGroups, 0) == |UnitGroups|
      ensures r.Err? ==> r.error == MissingColumn
      ensures rows == ScaledRows(old(rows), UnitGroups[..FirstMissingGroup(old(columns), UnitGroups, 0)])
    {
      r := ApplyScalars(UnitGroups);
    }

    /**
     * `profiles[group] = profiles[group] * scalar` for each of `groups` in
     * turn, stopping at the first group that names a missing column.
     */
    method ApplyScalars(groups: seq<(seq<string>, real)>) returns (r: Result<()>)
      modifies this
      ensures columns == old(columns)
      ensures r.Ok? <==> FirstMissingGroup(old(columns), groups, 0) == |groups|
      ensures r.Err? ==> r.error == MissingColumn
      ensures rows == ScaledRows(old(rows), groups[..FirstMissingGroup(old(columns), groups, 0)])
    {
      ghost var original := rows;
      var k := 0;
      ScaledRowsByNoGroup(original);
      assert groups[..0] == [];
      while k < |groups|
        invariant 0 <= k <= FirstMissingGroup(columns, groups, 0)
        invariant columns == old(columns)
        invariant rows == ScaledRows(original, groups[..k])
      {
        var group := groups[k].0;
        var scalar := groups[k].1;
        if !(forall c <- group :: c in columns) {
          return Err(MissingColumn);
        }
        ScaleColumnsExtends(original, groups[..k], group, scalar);
        PrefixSnoc(groups, k);
        rows := ScaleColumns(rows, group, scalar);
        k := k + 1;
      }
      return Ok(());
    }

    /**
     * calculate_steelcolumns: 'Height', 'Dead' and 'Live' are set in every
     * row; then for each row's section name in turn a column is built from
     * the first row of that name, loaded with Load(dead, live), and its
     * factored load, x-axis resistance and ratio are written into every row
     * of that name. The first section that fails ends the call with its
     * error; the frame keeps the writes made before it. `written` is the
     * number of section names processed.
     */
    method CalculateSteelColumns(height: real, fy: real, dead: real, live: real, m: Numerics)
      returns (r: Result<()>, ghost written: nat)
      requires SectionsHaveProperties(Contents())
      modifies this
      ensures var capacities := SectionCapacities(old(Contents()), height, fy, m);
              && written <= |capacities|
              && (r.Ok? <==> written == |capacities|)
              && (r.Err? ==> ColumnLoadOutcome(capacities[written], DeadLive(dead, live)) == Err(r.error))
              && BatchOutcome(capacities[..written], DeadLive(dead, live)).Ok?
              && rows == WriteAllOutputs(AddInputs(old(rows), height, dead, live), Names(old(rows))[..written],
                                         BatchOutcome(capacities[..written], DeadLive(dead, live)).value)
      ensures r.Ok? <==> BatchOutcome(SectionCapacities(old(Contents()), height, fy, m), DeadLive(dead, live)).Ok?
      ensures columns == if written > 0 then old(columns) + InputColumns + OutputColumns else old(columns) + InputColumns
      ensures r.Ok? && old(Contents()).WellFormed() ==> Contents().WellFormed()
    {
      ghost var t := Contents();
      AddInputColumns(height, dead, live);
      var names := Names(rows);
      assert names == Names(t.rows);
      var processed;
      r, processed := LoadSections(t, names, height, fy, dead, live, m);
      if processed > 0 {
        AddOutputColumns();
      }
      written := processed;
      ghost var capacities := SectionCapacities(t, height, fy, m);
      BatchStopsAt(capacities, DeadLive(dead, live), written);
      if r.Ok? && t.WellFormed() {
        assert names[..written] == names;
        SteelColumnsWellFormed(t, height, dead, live, BatchOutcome(capacities[..written], DeadLive(dead, live)).value,
                               columns);
      }
    }

    /**
     * `profiles['Height'] = height`, `profiles['Dead'] = dead` and
     * `profiles['Live'] = live`.
     */
    method AddInputColumns(height: real, dead: real, live: real)
      modifies this
      ensures rows == AddInputs(old(rows), height, dead, live)
      ensures columns == old(columns) + InputColumns
    {
      rows := AddInputs(rows, height, dead, live);
      columns := columns + InputColumns;
    }

    /** The output columns, created by the first write into them (NaN in rows not yet written). */
    method AddOutputColumns()
      modifies this
      ensures rows == old(rows)
      ensures columns == old(columns) + OutputColumns
    {
      columns := columns + OutputColumns;
    }

    /**
     * The loop of calculate_steelcolumns over the section names of the rows
     * of `t`, once the inputs have been set.
     */
    method LoadSections(ghost t: Table, names: seq<string>, height: real, fy: real, dead: real, live: real,
                        m: Numerics)
      returns (r: Result<()>, written: nat)
      requires SectionsHaveProperties(t) && names == Names(t.rows)
      requires rows == AddInputs(t.rows, height, dead, live) && columns == t.columns + InputColumns
      modifies this
      ensures var capacities := SectionCapacities(t, height, fy, m);
              && written <= |capacities|
              && (r.Ok? <==> written == |capacities|)
              && (r.Err? ==> ColumnLoadOutcome(capacities[written], DeadLive(dead, live)) == Err(r.error))
              && BatchOutcome(capacities[..written], DeadLive(dead, live)).Ok?
              && rows == WriteAllOutputs(old(rows), names[..written],
                                         BatchOutcome(capacities[..written], DeadLive(dead, live)).value)
      ensures columns == old(columns)
    {
      ghost var load := DeadLive(dead, live);
      ghost var capacities := SectionCapacities(t, height, fy, m);
      ghost var inputs := rows;
      var base := columns;
      ghost var outputs: seq<ColumnOutputs> := [];
      var k := 0;
      assert capacities[..0] == [] && names[..0] == [];
      while k < |names|
        invariant 0 <= k <= |names| == |t.rows| == |inputs|
        invariant |outputs| == k
        invariant BatchOutcome(capacities[..k], load) == Ok(outputs)
        invariant rows == WriteAllOutputs(inputs, names[..k], outputs)
        invariant columns == base
      {
        var name := names[k];
        assert capacities[k] == SectionCapacity(t, name, height, fy, m);
        var result := LoadNamedSection(t, rows, base, names[..k], outputs, name, height, fy, dead, live, m);
        if result.Err? {
          return Err(result.error), k;
        }
        SectionStep(capacities, load, inputs, names, outputs, k, result.value);
        rows := WriteOutputs(rows, name, result.value);
        outputs := outputs + [result.value];
        k := k + 1;
      }
      return Ok(()), k;
    }

  }
}
