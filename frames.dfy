/**
 * A one-row pandas data frame seen as an ordered sequence of named columns,
 * and the two operations the feature builder applies to it: creating a
 * zero-filled frame over a list of column names, and assigning a scalar to a
 * column by name (`df[name] = v`).
 */
module Frames {
  import opened Wrappers

  datatype Column = Column(name: string, value: real)

  /** The column labels of a frame, in order (`df.columns`). */
  function Names(row: seq<Column>): (ns: seq<string>)
    ensures |ns| == |row|
    ensures forall i :: 0 <= i < |row| ==> ns[i] == row[i].name
  {
    if row == [] then [] else [row[0].name] + Names(row[1..])
  }

  /** `pd.DataFrame(0, index=[0], columns=names)`: one column per name, all 0. */
  function ZeroFrame(names: seq<string>): (row: seq<Column>)
    ensures Names(row) == names
    ensures forall i :: 0 <= i < |row| ==> row[i].value == 0.0
  {
    seq(|names|, i requires 0 <= i < |names| => Column(names[i], 0.0))
  }

  /**
   * `df[name] = v` on a frame: every column already labelled `name` is
   * overwritten where it stands; when there is none, a new column is
   * appended at the end.
   */
  function Assigned(row: seq<Column>, name: string, v: real): (r: seq<Column>)
    ensures |r| == if name in Names(row) then |row| else |row| + 1
    ensures forall i :: 0 <= i < |row| ==> r[i].name == row[i].name
    ensures name !in Names(row) ==> r[|row|] == Column(name, v)
  {
    if name in Names(row) then
      seq(|row|, i requires 0 <= i < |row| => if row[i].name == name then Column(name, v) else row[i])
    else
      row + [Column(name, v)]
  }

  /**
   * The effect of `df[name] = v`: the labels stay as they were, plus `name`
   * at the end when it was missing; the columns labelled `name` hold `v` and
   * every other column is untouched.
   */
  lemma AssignedEffect(row: seq<Column>, name: string, v: real)
    ensures var r := Assigned(row, name, v);
      && (name in Names(row) ==> Names(r) == Names(row))
      && (name !in Names(row) ==> Names(r) == Names(row) + [name])
      && (forall i :: 0 <= i < |r| && r[i].name == name ==> r[i].value == v)
      && (forall i :: 0 <= i < |r| && r[i].name != name ==> i < |row| && r[i] == row[i])
  {
  }

  /** The value of the first column labelled `name`, if there is one. */
  function Lookup(row: seq<Column>, name: string): (r: Option<real>)
    ensures r.Some? <==> name in Names(row)
    ensures r.Some? ==> exists i :: 0 <= i < |row| && row[i].name == name && row[i].value == r.value
  {
    if row == [] then None
    else if row[0].name == name then Some(row[0].value)
    else Lookup(row[1..], name)
  }

  /** When the labels are distinct, the column labelled `name` is the one Lookup reads. */
  lemma {:induction false} LookupAt(row: seq<Column>, i: nat)
    requires i < |row|
    requires forall j, k :: 0 <= j < k < |row| ==> row[j].name != row[k].name
    ensures Lookup(row, row[i].name) == Some(row[i].value)
  {
    if i > 0 {
      assert row[0].name != row[i].name;
      LookupAt(row[1..], i - 1);
    }
  }

  /** Lookup after appending one column: earlier columns win. */
  lemma {:induction false} LookupSnoc(row: seq<Column>, c: Column, name: string)
    ensures Lookup(row + [c], name) ==
      if name in Names(row) then Lookup(row, name)
      else if name == c.name then Some(c.value)
      else None
  {
    if row != [] {
      assert (row + [c])[1..] == row[1..] + [c];
      if row[0].name != name {
        LookupSnoc(row[1..], c, name);
        assert name in Names(row) <==> name in Names(row[1..]);
      }
    }
  }
}
