/**
  The candidate table the constraints are evaluated on: named columns and
  records, each record a row label (the table's index) and a row mapping
  column names to cell values.
 */
module Tables {
  import opened Wrappers

  /** A cell of the candidate table: a number (integer, float or boolean
      column) or a label (categorical column). */
  datatype Value = Num(x: real) | Label(s: string)

  type Row = map<string, Value>

  datatype Record = Record(id: int, row: Row)

  datatype Table = Table(columns: seq<string>, records: seq<Record>)

  predicate DistinctNames(names: seq<string>) {
    forall i, j | 0 <= i < j < |names| :: names[i] != names[j]
  }

  predicate DistinctIds(records: seq<Record>) {
    forall i, j | 0 <= i < j < |records| :: records[i].id != records[j].id
  }

  /** Row labels are unique (the search space carries a range index), column
      names are unique, and every row has a cell for exactly the columns. */
  predicate WellFormed(t: Table) {
    && DistinctNames(t.columns)
    && DistinctIds(t.records)
    && forall i | 0 <= i < |t.records| :: t.records[i].row.Keys == (set c | c in t.columns)
  }

  function Ids(t: Table): set<int> {
    set i | 0 <= i < |t.records| :: t.records[i].id
  }

  predicate HasColumns(t: Table, names: seq<string>) {
    forall p | p in names :: p in t.columns
  }

  /** The `KeyError` of `data[names]`: fails on the first name that is not a column. */
  function CheckColumns(t: Table, names: seq<string>): (r: Check<Error>)
    ensures r.Pass? <==> HasColumns(t, names)
    ensures r.Fail? ==> r.error.MissingColumn? && r.error.name in names && r.error.name !in t.columns
  {
    if |names| == 0 then Pass
    else if names[0] !in t.columns then Fail(MissingColumn(names[0]))
    else CheckColumns(t, names[1..])
  }

  /** `data[columns].apply(f, axis=1)` with a per-row `frozenset` or `tuple`:
      pandas needs a column to apply to, unless the table has no rows. */
  function CheckRowApply(t: Table, columns: seq<string>): (r: Check<Error>)
    ensures r.Pass? <==> |columns| > 0 || |t.records| == 0
    ensures r.Fail? ==> r.error == EmptyRowApply
  {
    if |columns| == 0 && |t.records| > 0 then Fail(EmptyRowApply) else Pass
  }

  /** `columns.drop(affected).drop(parameters)`: the remaining columns, in column order. */
  function OtherColumns(columns: seq<string>, affected: seq<string>, parameters: seq<string>): (r: seq<string>)
    ensures forall c :: c in r <==> c in columns && c !in affected && c !in parameters
  {
    if |columns| == 0 then []
    else
      var rest := OtherColumns(columns[1..], affected, parameters);
      assert forall c :: c in columns <==> c == columns[0] || c in columns[1..] by {
        assert columns == [columns[0]] + columns[1..];
      }
      if columns[0] in affected || columns[0] in parameters then rest else [columns[0]] + rest
  }

  /** `data[name]`: the column as a sequence aligned with the records. */
  function Column(t: Table, name: string): (r: seq<Value>)
    requires WellFormed(t) && name in t.columns
    ensures |r| == |t.records|
    ensures forall i | 0 <= i < |r| :: r[i] == t.records[i].row[name]
  {
    seq(|t.records|, i requires 0 <= i < |t.records| => t.records[i].row[name])
  }

  /** The values of one row over the named columns, in the order of `names`. */
  function RowValues(row: Row, names: seq<string>): (r: seq<Value>)
    requires forall p | p in names :: p in row
    ensures |r| == |names|
    ensures forall k | 0 <= k < |r| :: r[k] == row[names[k]]
  {
    seq(|names|, k requires 0 <= k < |names| => row[names[k]])
  }

  /** `data.index[mask]`: the labels of the rows the mask selects. */
  function Select(t: Table, mask: seq<bool>): (r: set<int>)
    requires WellFormed(t) && |mask| == |t.records|
    ensures r <= Ids(t)
    ensures forall i | 0 <= i < |t.records| :: t.records[i].id in r <==> mask[i]
  {
    var r := set i | 0 <= i < |t.records| && mask[i] :: t.records[i].id;
    assert forall i | 0 <= i < |t.records| && t.records[i].id in r :: mask[i] by {
      forall i | 0 <= i < |t.records| && t.records[i].id in r
        ensures mask[i]
      {
        var j :| 0 <= j < |t.records| && mask[j] && t.records[j].id == t.records[i].id;
        assert i == j;
      }
    }
    r
  }

  /** The records whose label is not in `s`, in their original order. */
  function DropIds(records: seq<Record>, s: set<int>): seq<Record> {
    if |records| == 0 then []
    else if records[0].id in s then DropIds(records[1..], s)
    else [records[0]] + DropIds(records[1..], s)
  }

  /** A record survives exactly when it is one of the records and its label
      is not dropped; labels stay distinct. */
  lemma {:induction false} DropIdsContents(records: seq<Record>, s: set<int>)
    ensures |DropIds(records, s)| <= |records|
    ensures forall x :: x in DropIds(records, s) <==> x in records && x.id !in s
    ensures DistinctIds(records) ==> DistinctIds(DropIds(records, s))
  {
    if |records| > 0 {
      DropIdsContents(records[1..], s);
      var rest := DropIds(records[1..], s);
      assert forall x :: x in records <==> x == records[0] || x in records[1..] by {
        assert records == [records[0]] + records[1..];
      }
      if records[0].id !in s {
        var r := [records[0]] + rest;
        assert DistinctIds(records) ==> DistinctIds(r) by {
          if DistinctIds(records) {
            forall i, j | 0 <= i < j < |r|
              ensures r[i].id != r[j].id
            {
              if i == 0 {
                assert r[j] in rest;
                var m :| 0 <= m < |records[1..]| && records[1..][m] == r[j];
                assert records[m + 1] == r[j];
              }
            }
          }
        }
      }
    }
  }

  /** `data.drop(index=s)`: the table without the rows labelled by `s`; the
      records that stay keep their order (`DropKeepsOrder`). */
  function Drop(t: Table, s: set<int>): (r: Table)
    requires WellFormed(t)
    ensures WellFormed(r)
    ensures r.columns == t.columns
    ensures |r.records| <= |t.records|
    ensures forall x :: x in r.records <==> x in t.records && x.id !in s
    ensures Ids(r) == Ids(t) - s
  {
    var records := DropIds(t.records, s);
    DropIdsContents(t.records, s);
    var r := Table(t.columns, records);
    assert forall i | 0 <= i < |records| :: records[i].row.Keys == (set c | c in t.columns) by {
      forall i | 0 <= i < |records|
        ensures records[i].row.Keys == (set c | c in t.columns)
      {
        assert records[i] in t.records;
      }
    }
    assert Ids(r) == Ids(t) - s by {
      forall id | id in Ids(r) ensures id in Ids(t) - s {
        var i :| 0 <= i < |records| && records[i].id == id;
        assert records[i] in t.records;
      }
      forall id | id in Ids(t) - s ensures id in Ids(r) {
        var i :| 0 <= i < |t.records| && t.records[i].id == id;
        assert t.records[i] in records;
      }
    }
    r
  }

  /** A set of row labels that holds none of the table's rows is empty. */
  lemma NoneSelected(t: Table, r: set<int>)
    requires r <= Ids(t)
    requires forall i | 0 <= i < |t.records| :: t.records[i].id !in r
    ensures r == {}
  {
  }

  /** Keys that depend on the row alone: equal records carry equal keys. */
  predicate RowLocalKeys<K(==)>(t: Table, keys: seq<K>, t': Table, keys': seq<K>)
    requires |keys| == |t.records| && |keys'| == |t'.records|
  {
    forall a, i | 0 <= a < |t'.records| && 0 <= i < |t.records| && t'.records[a] == t.records[i] :: keys'[a] == keys[i]
  }

  /** Every record left by a drop sits at some position of the original table. */
  lemma SurvivorOrigin(t: Table, s: set<int>, a: int) returns (i: int)
    requires WellFormed(t) && 0 <= a < |Drop(t, s).records|
    ensures 0 <= i < |t.records| && t.records[i] == Drop(t, s).records[a]
    ensures t.records[i].id !in s
  {
    var x := Drop(t, s).records[a];
    assert x in Drop(t, s).records;
    i :| 0 <= i < |t.records| && t.records[i] == x;
  }

  /** If every later twin of a key is dropped, the rows that remain carry
      pairwise different keys. */
  lemma DropLeavesDistinctKeys<K>(t: Table, keys: seq<K>, flagged: set<int>, t': Table, keys': seq<K>)
    requires WellFormed(t) && t' == Drop(t, flagged)
    requires |keys| == |t.records| && |keys'| == |t'.records|
    requires forall i, j | 0 <= i < j < |t.records| && keys[i] == keys[j] :: t.records[j].id in flagged
    requires RowLocalKeys(t, keys, t', keys')
    ensures forall a, b | 0 <= a < b < |t'.records| :: keys'[a] != keys'[b]
  {
    forall a, b | 0 <= a < b < |t'.records| ensures keys'[a] != keys'[b] {
      var i := SurvivorOrigin(t, flagged, a);
      var j := SurvivorOrigin(t, flagged, b);
      assert t'.records[a].id != t'.records[b].id;
      assert keys'[a] == keys[i] && keys'[b] == keys[j];
      if keys[i] == keys[j] {
        if i < j {
          assert false;
        } else {
          assert false;
        }
      }
    }
  }

  /** A verdict that depends on the row alone flags nothing once the rows it
      flagged are dropped. */
  lemma RowVerdictCleared(t: Table, flagged: set<int>, r: set<int>, verdict: Row -> bool)
    requires WellFormed(t)
    requires forall i | 0 <= i < |t.records| :: verdict(t.records[i].row) ==> t.records[i].id in flagged
    requires r <= Ids(Drop(t, flagged))
    requires forall a | 0 <= a < |Drop(t, flagged).records| ::
      Drop(t, flagged).records[a].id in r <==> verdict(Drop(t, flagged).records[a].row)
    ensures r == {}
  {
    var t' := Drop(t, flagged);
    forall a | 0 <= a < |t'.records| ensures t'.records[a].id !in r {
      var i := SurvivorOrigin(t, flagged, a);
    }
    NoneSelected(t', r);
  }

  lemma {:induction false} DropIdsNothing(records: seq<Record>)
    ensures DropIds(records, {}) == records
  {
    if |records| > 0 {
      DropIdsNothing(records[1..]);
    }
  }

  lemma {:induction false} DropIdsTwice(records: seq<Record>, s1: set<int>, s2: set<int>)
    ensures DropIds(DropIds(records, s1), s2) == DropIds(records, s1 + s2)
  {
    if |records| > 0 {
      DropIdsTwice(records[1..], s1, s2);
      if records[0].id !in s1 {
        var r := [records[0]] + DropIds(records[1..], s1);
        assert r[1..] == DropIds(records[1..], s1);
      }
    }
  }

  /** Dropping keeps the surviving records in their order: dropping from a
      concatenation drops from each part, and a single record survives
      exactly when its label is not dropped. */
  lemma {:induction false} DropKeepsOrder(a: seq<Record>, b: seq<Record>, s: set<int>)
    ensures DropIds(a + b, s) == DropIds(a, s) + DropIds(b, s)
    ensures |a| == 1 ==> DropIds(a, s) == (if a[0].id in s then [] else a)
  {
    if |a| == 0 {
      assert a + b == b;
    } else {
      var x, a' := a[0], a[1..];
      assert (a + b)[0] == x;
      assert (a + b)[1..] == a' + b;
      DropKeepsOrder(a', b, s);
      if x.id !in s {
        calc {
          DropIds(a + b, s);
          [x] + DropIds(a' + b, s);
          [x] + (DropIds(a', s) + DropIds(b, s));
          ([x] + DropIds(a', s)) + DropIds(b, s);
        }
      }
      if |a| == 1 {
        assert a' == [];
      }
    }
  }

  /** Dropping no row leaves the table as it is. */
  lemma DropNothing(t: Table)
    requires WellFormed(t)
    ensures Drop(t, {}) == t
  {
    DropIdsNothing(t.records);
  }

  /** Dropping two sets of rows one after the other drops their union. */
  lemma DropTwice(t: Table, s1: set<int>, s2: set<int>)
    requires WellFormed(t)
    ensures Drop(Drop(t, s1), s2) == Drop(t, s1 + s2)
  {
    DropIdsTwice(t.records, s1, s2);
  }
}
