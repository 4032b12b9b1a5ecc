/**
 * The feature-vector builder (`prepare_input`): a one-row frame over the
 * model's feature names, zero-filled, then written column by column with the
 * sidebar values, three derived 0/1 flags and, when the schema has it, the
 * one-hot column of the selected district.
 */
module FeatureBuilder {
  import opened Wrappers
  import opened Frames
  import opened Districts

  /** The sidebar widget values a prediction is built from. */
  datatype Sidebar = Sidebar(
    district: string,
    capacity: int,
    hour: int,
    flow3h: int,
    temp: int,
    precip: real,
    windSpd: int)

  const RushHours: seq<int> := [7, 8, 9, 16, 17, 18]
  const RainThreshold: real := 0.2
  const WindThreshold: int := 25

  /** A condition stored as a 0/1 column value. */
  function Flag(b: bool): real {
    if b then 1.0 else 0.0
  }

  /** The column names the builder assigns unconditionally, in program order. */
  const DirectNames: seq<string> :=
    ["hour", "cap_feature", "flow_3h_rolling", "temp", "precip", "wind_spd",
     "is_rush_hour", "is_raining", "is_windy"]

  /** The unconditional column assignments of the builder, in program order. */
  function DirectAssignments(sb: Sidebar): (d: seq<Column>)
    ensures Names(d) == DirectNames
  {
    [Column("hour", sb.hour as real),
     Column("cap_feature", sb.capacity as real),
     Column("flow_3h_rolling", sb.flow3h as real),
     Column("temp", sb.temp as real),
     Column("precip", sb.precip),
     Column("wind_spd", sb.windSpd as real),
     Column("is_rush_hour", Flag(sb.hour in RushHours)),
     Column("is_raining", Flag(sb.precip > RainThreshold)),
     Column("is_windy", Flag(sb.windSpd > WindThreshold))]
  }

  /**
   * The value a column named `name` holds in the finished row: the value
   * assigned to it directly, else 1 for the selected district's one-hot
   * column, else the initial 0.
   */
  function FeatureValue(sb: Sidebar, name: string): real {
    if name == "hour" then sb.hour as real
    else if name == "cap_feature" then sb.capacity as real
    else if name == "flow_3h_rolling" then sb.flow3h as real
    else if name == "temp" then sb.temp as real
    else if name == "precip" then sb.precip
    else if name == "wind_spd" then sb.windSpd as real
    else if name == "is_rush_hour" then Flag(7 <= sb.hour <= 9 || 16 <= sb.hour <= 18)
    else if name == "is_raining" then Flag(sb.precip > 0.2)
    else if name == "is_windy" then Flag(sb.windSpd > 25)
    else if name == DistColumn(sb.district) then 1.0
    else 0.0
  }

  /** The names among `names` that are not in `features`, in order: the columns an assignment appends. */
  function Missing(features: seq<string>, names: seq<string>): (m: seq<string>)
    ensures forall n :: n in m <==> n in names && n !in features
  {
    if names == [] then []
    else (if names[0] in features then [] else [names[0]]) + Missing(features, names[1..])
  }

  /**
   * What the builder produces: the schema's names in their order, followed
   * by the directly assigned names the schema lacks, in assignment order;
   * every column holds the FeatureValue of its name.
   */
  ghost predicate IsFeatureRow(features: seq<string>, sb: Sidebar, row: seq<Column>) {
    Names(row) == features + Missing(features, DirectNames)
    && forall i :: 0 <= i < |row| ==> row[i].value == FeatureValue(sb, row[i].name)
  }

  /** `prepare_input`, with the sidebar globals as parameters. */
  method PrepareInput(features: seq<string>, sb: Sidebar) returns (row: seq<Column>)
    ensures IsFeatureRow(features, sb, row)
  {
    ghost var direct := DirectAssignments(sb);
    row := ZeroFrame(features);
    row := Assigned(row, "hour", sb.hour as real);
    assert row == Replayed(features, direct, 1);
    row := Assigned(row, "cap_feature", sb.capacity as real);
    assert row == Replayed(features, direct, 2);
    row := Assigned(row, "flow_3h_rolling", sb.flow3h as real);
    assert row == Replayed(features, direct, 3);
    row := Assigned(row, "temp", sb.temp as real);
    assert row == Replayed(features, direct, 4);
    row := Assigned(row, "precip", sb.precip);
    assert row == Replayed(features, direct, 5);
    row := Assigned(row, "wind_spd", sb.windSpd as real);
    assert row == Replayed(features, direct, 6);
    row := Assigned(row, "is_rush_hour", if sb.hour in RushHours then 1.0 else 0.0);
    assert row == Replayed(features, direct, 7);
    row := Assigned(row, "is_raining", if sb.precip > RainThreshold then 1.0 else 0.0);
    assert row == Replayed(features, direct, 8);
    row := Assigned(row, "is_windy", if sb.windSpd > WindThreshold then 1.0 else 0.0);
    assert row == Replayed(features, direct, 9);
    DirectRowApplied(features, sb);

    var distCol := DistColumn(sb.district);
    ghost var beforeDistrict := row;
    if distCol in Names(row) {
      row := Assigned(row, distCol, 1.0);
    }
    DistrictStep(features, sb, beforeDistrict);
  }

  /** The row is a function of the schema and the sidebar: two rows built from the same inputs are equal. */
  lemma FeatureRowUnique(features: seq<string>, sb: Sidebar, r1: seq<Column>, r2: seq<Column>)
    requires IsFeatureRow(features, sb, r1) && IsFeatureRow(features, sb, r2)
    ensures r1 == r2
  {
    assert |r1| == |Names(r1)| == |Names(r2)| == |r2|;
    forall i | 0 <= i < |r1| ensures r1[i] == r2[i] {
      assert r1[i].name == Names(r1)[i] == Names(r2)[i] == r2[i].name;
    }
  }

  /**
   * Every schema name keeps its position, and a schema column that is
   * neither assigned directly nor the selected district's column stays 0.
   */
  lemma SchemaColumnsKept(features: seq<string>, sb: Sidebar, row: seq<Column>)
    requires IsFeatureRow(features, sb, row)
    ensures |row| >= |features|
    ensures forall i :: 0 <= i < |features| ==> row[i].name == features[i]
    ensures forall i :: (0 <= i < |features| && features[i] !in DirectNames
                         && features[i] != DistColumn(sb.district)) ==> row[i].value == 0.0
  {
    assert |row| == |Names(row)|;
    forall i | 0 <= i < |features|
      ensures row[i].name == features[i]
    {
      assert Names(row)[i] == features[i];
    }
  }

  /**
   * Columns are appended only for directly assigned names the schema lacks,
   * so every directly assigned name is present and no one-hot district
   * column is ever appended.
   */
  lemma AppendedColumns(features: seq<string>, sb: Sidebar, row: seq<Column>)
    requires IsFeatureRow(features, sb, row)
    ensures forall i :: |features| <= i < |row| ==>
              row[i].name in DirectNames && row[i].name !in features && !IsDistColumn(row[i].name)
    ensures forall n :: n in DirectNames ==> n in Names(row)
  {
    var m := Missing(features, DirectNames);
    forall i | |features| <= i < |row|
      ensures row[i].name in DirectNames && row[i].name !in features && !IsDistColumn(row[i].name)
    {
      assert row[i].name == Names(row)[i] == m[i - |features|];
      DirectNamesUntagged(row[i].name);
    }
    forall n | n in DirectNames ensures n in Names(row) {
      assert n in features || n in m;
    }
  }

  /**
   * The one-hot district columns: a `dist_` column holds 1 exactly when it
   * is the selected district's column, so all of them are 0 when the schema
   * has no column for the selected district.
   */
  lemma DistrictOneHot(features: seq<string>, sb: Sidebar, row: seq<Column>)
    requires IsFeatureRow(features, sb, row)
    ensures forall i :: 0 <= i < |row| && IsDistColumn(row[i].name) ==>
              row[i].value == if row[i].name == DistColumn(sb.district) then 1.0 else 0.0
    ensures DistColumn(sb.district) in features ==>
              exists i :: 0 <= i < |features| && row[i].name == DistColumn(sb.district) && row[i].value == 1.0
    ensures DistColumn(sb.district) !in features ==>
              forall i :: 0 <= i < |row| && IsDistColumn(row[i].name) ==> row[i].value == 0.0
  {
    forall i | 0 <= i < |row| && IsDistColumn(row[i].name)
      ensures row[i].value == if row[i].name == DistColumn(sb.district) then 1.0 else 0.0
    {
      if row[i].name in DirectNames {
        DirectNamesUntagged(row[i].name);
      }
    }
    SchemaColumnsKept(features, sb, row);
    AppendedColumns(features, sb, row);
    if DistColumn(sb.district) in features {
      var i :| 0 <= i < |features| && features[i] == DistColumn(sb.district);
      assert row[i].name == DistColumn(sb.district);
    }
  }

  /** With a schema of distinct names, at most one `dist_` column holds 1. */
  lemma AtMostOneDistrict(features: seq<string>, sb: Sidebar, row: seq<Column>)
    requires IsFeatureRow(features, sb, row)
    requires forall i, j :: 0 <= i < j < |features| ==> features[i] != features[j]
    ensures forall i, j :: (0 <= i < |row| && 0 <= j < |row|
                            && IsDistColumn(row[i].name) && IsDistColumn(row[j].name)
                            && row[i].value == 1.0 && row[j].value == 1.0) ==> i == j
  {
    DistrictOneHot(features, sb, row);
    SchemaColumnsKept(features, sb, row);
    AppendedColumns(features, sb, row);
  }

  /** The raw sidebar values read back from their columns. */
  lemma InputsReadBack(features: seq<string>, sb: Sidebar, row: seq<Column>)
    requires IsFeatureRow(features, sb, row)
    ensures Lookup(row, "hour") == Some(sb.hour as real)
    ensures Lookup(row, "cap_feature") == Some(sb.capacity as real)
    ensures Lookup(row, "flow_3h_rolling") == Some(sb.flow3h as real)
    ensures Lookup(row, "temp") == Some(sb.temp as real)
    ensures Lookup(row, "precip") == Some(sb.precip)
    ensures Lookup(row, "wind_spd") == Some(sb.windSpd as real)
  {
    ReadBack(features, sb, row, "hour");
    ReadBack(features, sb, row, "cap_feature");
    ReadBack(features, sb, row, "flow_3h_rolling");
    ReadBack(features, sb, row, "temp");
    ReadBack(features, sb, row, "precip");
    ReadBack(features, sb, row, "wind_spd");
  }

  /**
   * The derived flags: `is_rush_hour` is 1 in the hours 7-9 and 16-18 and 0
   * otherwise, `is_raining` is 1 when precipitation exceeds 0.2 and
   * `is_windy` when wind speed exceeds 25, each strictly, and 0 otherwise.
   */
  lemma DerivedFlags(features: seq<string>, sb: Sidebar, row: seq<Column>)
    requires IsFeatureRow(features, sb, row)
    ensures Lookup(row, "is_rush_hour") == Some(if 7 <= sb.hour <= 9 || 16 <= sb.hour <= 18 then 1.0 else 0.0)
    ensures Lookup(row, "is_raining") == Some(if sb.precip > 0.2 then 1.0 else 0.0)
    ensures Lookup(row, "is_windy") == Some(if sb.windSpd > 25 then 1.0 else 0.0)
  {
    ReadBack(features, sb, row, "is_rush_hour");
    ReadBack(features, sb, row, "is_raining");
    ReadBack(features, sb, row, "is_windy");
  }

  /** A directly assigned column reads back the FeatureValue of its name. */
  lemma ReadBack(features: seq<string>, sb: Sidebar, row: seq<Column>, n: string)
    requires IsFeatureRow(features, sb, row)
    requires n in DirectNames
    ensures Lookup(row, n) == Some(FeatureValue(sb, n))
  {
    AppendedColumns(features, sb, row);
  }

  /**
   * Choosing a district offered from a schema column `dist_<d>` (with no
   * further `dist_` inside `d`) sets exactly that column to 1 and leaves
   * every other `dist_` column at 0.
   */
  lemma ChosenDistrictOneHot(features: seq<string>, sb: Sidebar, row: seq<Column>, i: nat)
    requires IsFeatureRow(features, sb, row)
    requires forall j, k :: 0 <= j < k < |features| ==> features[j] != features[k]
    requires i < |features| && features[i] == DistColumn(sb.district) && !ContainsDist(sb.district)
    ensures sb.district in DistrictChoices(features)
    ensures row[i].value == 1.0
    ensures forall j :: 0 <= j < |row| && j != i && IsDistColumn(row[j].name) ==> row[j].value == 0.0
  {
    DistrictOfColumnOffered(features, i, sb.district);
    DistrictOneHot(features, sb, row);
    SchemaColumnsKept(features, sb, row);
    AppendedColumns(features, sb, row);
  }

  // ---- proof of PrepareInput ----

  /** A zero frame over `features` after the first `k` assignments of `d`. */
  ghost function Replayed(features: seq<string>, d: seq<Column>, k: nat): seq<Column>
    requires k <= |d|
  {
    if k == 0 then ZeroFrame(features)
    else Assigned(Replayed(features, d, k - 1), d[k - 1].name, d[k - 1].value)
  }

  /** The value a column holds once the assignments `d` are applied to a zero frame. */
  ghost function AssignedValue(d: seq<Column>, name: string): real {
    match Lookup(d, name)
    case Some(v) => v
    case None => 0.0
  }

  /**
   * `row` looks like a zero frame over `features` after the assignments `d`:
   * the names `d` adds are appended in order and each column holds the value
   * `d` assigns to its name, or 0.
   */
  ghost predicate Applied(features: seq<string>, d: seq<Column>, row: seq<Column>) {
    Names(row) == features + Missing(features, Names(d))
    && forall i :: 0 <= i < |row| ==> row[i].value == AssignedValue(d, row[i].name)
  }

  lemma {:induction false} MissingSnoc(features: seq<string>, names: seq<string>, n: string)
    ensures Missing(features, names + [n]) == Missing(features, names) + (if n in features then [] else [n])
  {
    if names != [] {
      assert (names + [n])[1..] == names[1..] + [n];
      MissingSnoc(features, names[1..], n);
    }
  }

  /** One more assignment, to a column not assigned before, keeps Applied. */
  lemma ApplyOne(features: seq<string>, d: seq<Column>, row: seq<Column>, c: Column)
    requires Applied(features, d, row)
    requires c.name !in Names(d)
    ensures Applied(features, d + [c], Assigned(row, c.name, c.value))
  {
    ApplyOneNames(features, d, row, c);
    ApplyOneValues(d, row, c);
  }

  lemma ApplyOneNames(features: seq<string>, d: seq<Column>, row: seq<Column>, c: Column)
    requires Names(row) == features + Missing(features, Names(d))
    requires c.name !in Names(d)
    ensures Names(Assigned(row, c.name, c.value)) == features + Missing(features, Names(d + [c]))
  {
    AssignedEffect(row, c.name, c.value);
    assert Names(d + [c]) == Names(d) + [c.name];
    MissingSnoc(features, Names(d), c.name);
  }

  lemma ApplyOneValues(d: seq<Column>, row: seq<Column>, c: Column)
    requires forall i :: 0 <= i < |row| ==> row[i].value == AssignedValue(d, row[i].name)
    requires c.name !in Names(d)
    ensures var r := Assigned(row, c.name, c.value);
      forall i :: 0 <= i < |r| ==> r[i].value == AssignedValue(d + [c], r[i].name)
  {
    var r := Assigned(row, c.name, c.value);
    AssignedEffect(row, c.name, c.value);
    forall i | 0 <= i < |r|
      ensures r[i].value == AssignedValue(d + [c], r[i].name)
    {
      LookupSnoc(d, c, r[i].name);
    }
  }

  /** After all nine direct assignments, the row is the zero frame with DirectAssignments applied. */
  lemma DirectRowApplied(features: seq<string>, sb: Sidebar)
    ensures Applied(features, DirectAssignments(sb), Replayed(features, DirectAssignments(sb), |DirectNames|))
  {
    var d := DirectAssignments(sb);
    DirectAssignmentsDistinct(sb);
    ReplayedApplied(features, d, |d|);
    assert d[..|d|] == d;
  }

  lemma {:induction false} ReplayedApplied(features: seq<string>, d: seq<Column>, k: nat)
    requires k <= |d|
    requires forall i, j :: 0 <= i < j < |d| ==> d[i].name != d[j].name
    ensures Applied(features, d[..k], Replayed(features, d, k))
  {
    if k == 0 {
      assert d[..0] == [];
    } else {
      ReplayedApplied(features, d, k - 1);
      assert d[..k] == d[..k - 1] + [d[k - 1]];
      NamesPrefix(d, k - 1);
      ApplyOne(features, d[..k - 1], Replayed(features, d, k - 1), d[k - 1]);
    }
  }

  /** The direct assignments write nine distinct columns. */
  lemma DirectAssignmentsDistinct(sb: Sidebar)
    ensures var d := DirectAssignments(sb);
      forall j, k :: 0 <= j < k < |d| ==> d[j].name != d[k].name
  {
    var d := DirectAssignments(sb);
    forall j, k | 0 <= j < k < |d| ensures d[j].name != d[k].name {
      assert d[j].name == DirectNames[j];
    }
  }

  lemma NamesPrefix(row: seq<Column>, k: nat)
    requires k <= |row|
    ensures Names(row[..k]) == Names(row)[..k]
  {
  }

  /** No directly assigned name is a one-hot district column. */
  lemma DirectNamesUntagged(n: string)
    requires n in DirectNames
    ensures !IsDistColumn(n)
  {
    assert n[0] != DistPrefix[0];
  }

  /** The direct assignments agree with FeatureValue on every name they assign. */
  lemma DirectLookup(sb: Sidebar, n: string)
    ensures Lookup(DirectAssignments(sb), n) == if n in DirectNames then Some(FeatureValue(sb, n)) else None
  {
    var d := DirectAssignments(sb);
    if n in DirectNames {
      assert Names(d) == DirectNames;
      var i :| 0 <= i < |d| && d[i].name == n;
      DirectLookupAt(sb, i);
    }
  }

  lemma DirectLookupAt(sb: Sidebar, i: nat)
    requires i < |DirectNames|
    ensures var c := DirectAssignments(sb)[i];
      Lookup(DirectAssignments(sb), c.name) == Some(FeatureValue(sb, c.name))
  {
    DirectAssignmentsDistinct(sb);
    LookupAt(DirectAssignments(sb), i);
    DirectValueAt(sb, i);
  }

  lemma DirectValueAt(sb: Sidebar, i: nat)
    requires i < |DirectNames|
    ensures var c := DirectAssignments(sb)[i]; c.value == FeatureValue(sb, c.name)
  {
    if i == 6 {
      assert sb.hour in RushHours <==> 7 <= sb.hour <= 9 || 16 <= sb.hour <= 18;
    }
  }

  lemma FeatureValueUnassigned(sb: Sidebar, n: string)
    requires n !in DirectNames
    ensures FeatureValue(sb, n) == if n == DistColumn(sb.district) then 1.0 else 0.0
  {
  }

  /** The guarded one-hot assignment turns a row with the direct assignments applied into the finished row. */
  lemma DistrictStep(features: seq<string>, sb: Sidebar, row: seq<Column>)
    requires Applied(features, DirectAssignments(sb), row)
    ensures IsFeatureRow(features, sb,
      if DistColumn(sb.district) in Names(row) then Assigned(row, DistColumn(sb.district), 1.0) else row)
  {
    var distCol := DistColumn(sb.district);
    var r := if distCol in Names(row) then Assigned(row, distCol, 1.0) else row;
    AssignedEffect(row, distCol, 1.0);
    assert Names(r) == Names(row);
    assert Names(DirectAssignments(sb)) == DirectNames;
    forall i | 0 <= i < |r|
      ensures r[i].value == FeatureValue(sb, r[i].name)
    {
      var n := r[i].name;
      DirectLookup(sb, n);
      if n in DirectNames {
        DirectNamesUntagged(n);
      } else {
        FeatureValueUnassigned(sb, n);
      }
    }
  }
}
