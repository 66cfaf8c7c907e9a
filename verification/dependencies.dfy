/**
  The dependencies constraint. Some parameters (the affected ones) only
  matter when a governing parameter satisfies its condition. Rows where the
  condition fails have their affected cells replaced by a sentinel, each
  affected cell is then paired with its governing cell, and a row is invalid
  when its signature repeats the signature of an earlier row.
 */
module Dependencies {
  import opened Wrappers
  import opened Tables
  import opened Duplicates
  import opened Conditions

  datatype DependenciesConstraint = DependenciesConstraint(
    parameters: seq<string>,
    conditions: seq<Condition>,
    affectedParameters: seq<seq<string>>)

  /** What the field validators admit: unique governing parameters and one
      condition per affected group. */
  predicate ValidDependencies(d: DependenciesConstraint) {
    && DistinctNames(d.parameters)
    && |d.conditions| == |d.affectedParameters|
    && forall k | 0 <= k < |d.conditions| :: ValidCondition(d.conditions[k])
  }

  /** A cell of the censored table: an original value, the sentinel of the
      `k`-th governing parameter, or an affected cell paired with the cell of
      its governing parameter. */
  datatype Cell = Raw(v: Value) | Irrelevant(k: nat) | Paired(affected: Cell, governing: Cell)

  type CellRow = map<string, Cell>

  /** `[col for cols in affected_parameters for col in cols]`. */
  function Flatten(groups: seq<seq<string>>): (r: seq<string>)
    ensures forall c :: c in r <==> exists k | 0 <= k < |groups| :: c in groups[k]
  {
    if |groups| == 0 then []
    else
      var front := Flatten(groups[..|groups| - 1]);
      assert forall k | 0 <= k < |groups| - 1 :: groups[..|groups| - 1][k] == groups[k];
      front + groups[|groups| - 1]
  }

  predicate Shaped(d: DependenciesConstraint) {
    |d.parameters| <= |d.conditions| == |d.affectedParameters|
  }

  /** The censoring loop from governing index `k` on, followed for one cell
      `c` that currently holds `v`: where condition `k` fails on the ORIGINAL
      governing value and `c` belongs to group `k`, the cell becomes the
      sentinel of `k`. An assignment of the loop writes only the cells of its
      own group, so the loop acts on every cell separately. */
  function CensorCell(d: DependenciesConstraint, row: Row, c: string, k: nat, v: Cell): Cell
    requires Shaped(d) && k <= |d.parameters|
    requires forall p | p in d.parameters :: p in row
    decreases |d.parameters| - k
  {
    if k == |d.parameters| then v
    else
      var relevant := Holds(d.conditions[k], row[d.parameters[k]]);
      CensorCell(d, row, c, k + 1, if !relevant && c in d.affectedParameters[k] then Irrelevant(k) else v)
  }

  /** `censored_data` for one row after the censoring loop. */
  function Censor(d: DependenciesConstraint, row: Row): (r: CellRow)
    requires Shaped(d) && forall p | p in d.parameters :: p in row
    ensures r.Keys == row.Keys
  {
    map c | c in row :: CensorCell(d, row, c, 0, Raw(row[c]))
  }

  /** The cell `v` paired `n` times over with the governing cell `g`. */
  function Nest(v: Cell, g: Cell, n: nat): Cell {
    if n == 0 then v else Paired(Nest(v, g, n - 1), g)
  }

  lemma {:induction false} NestShift(v: Cell, g: Cell, n: nat)
    ensures Nest(Paired(v, g), g, n) == Nest(v, g, n + 1)
  {
    if n > 0 {
      NestShift(v, g, n - 1);
    }
  }

  /** Pairing loses nothing: equal nests hold equal cells, and equal
      governing cells once they were paired at all. */
  lemma {:induction false} NestInjective(v: Cell, g: Cell, w: Cell, h: Cell, n: nat)
    requires Nest(v, g, n) == Nest(w, h, n)
    ensures v == w
    ensures n > 0 ==> g == h
  {
    if n > 0 {
      NestInjective(v, g, w, h, n - 1);
    }
  }

  /** Pairing of one group, one affected column after the other:
      `censored[a] = zip(censored[a], censored[governing])`. When the
      governing column is not in its own group, every column ends up paired
      with the governing cell once for each time the group lists it. */
  function PairGroup(cells: CellRow, group: seq<string>, governing: string): (r: CellRow)
    requires governing in cells && forall a | a in group :: a in cells
    ensures r.Keys == cells.Keys
    ensures governing !in group ==>
      forall c | c in cells :: r[c] == Nest(cells[c], cells[governing], multiset(group)[c])
  {
    if |group| == 0 then cells
    else
      var next := cells[group[0] := Paired(cells[group[0]], cells[governing])];
      var r := PairGroup(next, group[1..], governing);
      assert governing !in group ==>
        forall c | c in cells :: r[c] == Nest(cells[c], cells[governing], multiset(group)[c]) by {
        if governing !in group {
          assert group == [group[0]] + group[1..];
          forall c | c in cells ensures r[c] == Nest(cells[c], cells[governing], multiset(group)[c]) {
            if c == group[0] {
              NestShift(cells[c], cells[governing], multiset(group[1..])[c]);
            }
          }
        }
      }
      r
  }

  /** The pairing loop from governing index `k` on. */
  function PairFrom(d: DependenciesConstraint, k: nat, cells: CellRow): (r: CellRow)
    requires Shaped(d) && k <= |d.parameters|
    requires forall p | p in d.parameters :: p in cells
    requires forall a | a in Flatten(d.affectedParameters) :: a in cells
    ensures r.Keys == cells.Keys
    decreases |d.parameters| - k
  {
    if k == |d.parameters| then cells
    else
      var group := d.affectedParameters[k];
      assert forall a | a in group :: a in Flatten(d.affectedParameters);
      PairFrom(d, k + 1, PairGroup(cells, group, d.parameters[k]))
  }

  /** The affected part of a signature: an ordered tuple, or a frozenset when
      the constraint is evaluated as permutation invariant. */
  datatype AffectedKey = Ordered(cells: seq<Cell>) | Unordered(members: set<Cell>)

  datatype Signature = Signature(others: seq<Cell>, affected: AffectedKey)

  /** The row of `df_eval` built from the paired cells: the other columns,
      then the affected cells as a tuple or a frozenset. */
  function SignatureOf(cells: CellRow, others: seq<string>, all: seq<string>, permutationInvariant: bool): Signature
    requires forall c | c in others || c in all :: c in cells
  {
    var affected := seq(|all|, j requires 0 <= j < |all| => cells[all[j]]);
    Signature(
      seq(|others|, j requires 0 <= j < |others| => cells[others[j]]),
      if permutationInvariant then Unordered(Elements(affected)) else Ordered(affected))
  }

  /** The row of `df_eval`: the other columns, then the paired affected cells. */
  function RowSignature(d: DependenciesConstraint, columns: seq<string>, row: Row, permutationInvariant: bool): Signature
    requires Shaped(d)
    requires forall c | c in columns :: c in row
    requires forall p | p in d.parameters :: p in row
    requires forall a | a in Flatten(d.affectedParameters) :: a in row
  {
    var all := Flatten(d.affectedParameters);
    SignatureOf(PairFrom(d, 0, Censor(d, row)), OtherColumns(columns, all, d.parameters), all, permutationInvariant)
  }

  /** The governing column `k` can be read and its condition evaluated. */
  predicate GoverningEvaluable(d: DependenciesConstraint, t: Table, k: nat)
    requires WellFormed(t)
  {
    && k < |d.conditions|
    && k < |d.parameters|
    && d.parameters[k] in t.columns
    && EvaluableOn(d.conditions[k], Column(t, d.parameters[k]))
  }

  /** The errors of the censoring loop from index `k` on, in loop order. */
  function CheckGoverning(d: DependenciesConstraint, t: Table, k: nat): (r: Check<Error>)
    requires WellFormed(t) && k <= |d.parameters|
    ensures r.Pass? <==> forall m | k <= m < |d.parameters| :: GoverningEvaluable(d, t, m)
    decreases |d.parameters| - k
  {
    if k == |d.parameters| then Pass
    else if k >= |d.conditions| then assert !GoverningEvaluable(d, t, k); Fail(IndexOutOfRange)
    else if d.parameters[k] !in t.columns then
      assert !GoverningEvaluable(d, t, k);
      Fail(MissingColumn(d.parameters[k]))
    else match Evaluate(d.conditions[k], Column(t, d.parameters[k]))
      case Failure(e) => assert !GoverningEvaluable(d, t, k); Fail(e)
      case Success(_) => CheckGoverning(d, t, k + 1)
  }

  /** The `KeyError` of `.drop(parameters)` after the affected columns are
      gone: a governing parameter must be a column and not an affected one. */
  function CheckGoverningKept(t: Table, affected: seq<string>, parameters: seq<string>): (r: Check<Error>)
    ensures r.Pass? <==> forall p | p in parameters :: p in t.columns && p !in affected
  {
    if |parameters| == 0 then Pass
    else if parameters[0] !in t.columns || parameters[0] in affected then Fail(MissingColumn(parameters[0]))
    else CheckGoverningKept(t, affected, parameters[1..])
  }

  /** Everything `get_invalid` needs of the table to run to the end. */
  predicate Applicable(d: DependenciesConstraint, t: Table)
    requires WellFormed(t)
  {
    && |d.parameters| <= |d.conditions|
    && (forall m | 0 <= m < |d.parameters| :: GoverningEvaluable(d, t, m))
    && HasColumns(t, Flatten(d.affectedParameters))
    && (forall p | p in d.parameters :: p in t.columns && p !in Flatten(d.affectedParameters))
    && (|Flatten(d.affectedParameters)| > 0 || |t.records| == 0)
  }

  function Signatures(d: DependenciesConstraint, t: Table, permutationInvariant: bool): (r: seq<Signature>)
    requires WellFormed(t) && Shaped(d) && Applicable(d, t)
    ensures |r| == |t.records|
    ensures forall i | 0 <= i < |t.records| :: r[i] == RowSignature(d, t.columns, t.records[i].row, permutationInvariant)
  {
    seq(|t.records|, i requires 0 <= i < |t.records| =>
      RowSignature(d, t.columns, t.records[i].row, permutationInvariant))
  }

  /** `get_invalid`, with `permutation_invariant` as an explicit argument. */
  function GetInvalid(d: DependenciesConstraint, t: Table, permutationInvariant: bool): (r: Result<set<int>, Error>)
    requires WellFormed(t) && ValidDependencies(d)
    ensures r.Success? <==> Applicable(d, t)
    ensures r.Success? ==> r.value <= Ids(t)
    ensures r.Success? ==> forall i | 0 <= i < |t.records| ::
      t.records[i].id in r.value <==>
        exists j | 0 <= j < i :: Signatures(d, t, permutationInvariant)[j] == Signatures(d, t, permutationInvariant)[i]
    ensures r.Failure? && (forall m | 0 <= m < |d.parameters| :: GoverningEvaluable(d, t, m))
      && HasColumns(t, Flatten(d.affectedParameters))
      && (forall p | p in d.parameters :: p in t.columns && p !in Flatten(d.affectedParameters))
      ==> r.error == EmptyRowApply
  {
    var all := Flatten(d.affectedParameters);
    :- CheckGoverning(d, t, 0);
    :- CheckColumns(t, all);
    :- CheckGoverningKept(t, all, d.parameters);
    :- CheckRowApply(t, all);
    assert |d.parameters| > 0 ==> GoverningEvaluable(d, t, |d.parameters| - 1);
    Success(Select(t, Duplicated(Signatures(d, t, permutationInvariant))))
  }

  /** Every signature of the table survives at an unflagged row at or before
      its first occurrence: the first row of each group is kept. */
  lemma FirstOccurrenceKept(d: DependenciesConstraint, t: Table, permutationInvariant: bool, i: int)
    requires WellFormed(t) && ValidDependencies(d) && Applicable(d, t)
    requires 0 <= i < |t.records|
    ensures exists j | 0 <= j <= i ::
      && Signatures(d, t, permutationInvariant)[j] == Signatures(d, t, permutationInvariant)[i]
      && t.records[j].id !in GetInvalid(d, t, permutationInvariant).value
  {
    var keys := Signatures(d, t, permutationInvariant);
    var mask := AllTrue(|keys|);
    KeptRepresentative(keys, mask, i);
    var j :| 0 <= j <= i && mask[j] && keys[j] == keys[i] && !DuplicatedAmong(keys, mask)[j];
    forall m | 0 <= m < j ensures keys[m] != keys[j] {
      assert mask[m];
    }
    var flagged := GetInvalid(d, t, permutationInvariant).value;
    assert t.records[j].id in flagged <==> exists m | 0 <= m < j :: keys[m] == keys[j];
    assert t.records[j].id !in flagged;
  }

  /** Equal ordered tuples are equal frozensets: every row flagged when the
      affected cells are compared as tuples is also flagged when they are
      compared as sets. */
  lemma OrderedFlagsImplyUnorderedFlags(d: DependenciesConstraint, t: Table)
    requires WellFormed(t) && ValidDependencies(d) && Applicable(d, t)
    ensures GetInvalid(d, t, false).value <= GetInvalid(d, t, true).value
  {
    var ordered, unordered := Signatures(d, t, false), Signatures(d, t, true);
    forall i | 0 <= i < |t.records| && t.records[i].id in GetInvalid(d, t, false).value
      ensures t.records[i].id in GetInvalid(d, t, true).value
    {
      var j :| 0 <= j < i && ordered[j] == ordered[i];
      assert unordered[j] == unordered[i];
    }
  }

  /** Cell `c` belongs to a group from index `k` on whose condition fails on
      this row: the source overwrites it with a sentinel. */
  predicate IrrelevantFrom(d: DependenciesConstraint, row: Row, c: string, k: nat)
    requires Shaped(d) && forall p | p in d.parameters :: p in row
  {
    exists m | k <= m < |d.parameters| ::
      c in d.affectedParameters[m] && !Holds(d.conditions[m], row[d.parameters[m]])
  }

  /** No governing parameter is itself affected by another one. */
  predicate NoChaining(d: DependenciesConstraint) {
    forall k, a | 0 <= k < |d.affectedParameters| && a in d.affectedParameters[k] :: a !in d.parameters
  }

  /** What the censoring loop leaves in a cell: the original value when no
      failing condition governs the cell, otherwise the sentinel of the last
      failing condition that governs it. */
  lemma {:induction false} CensorCellResult(d: DependenciesConstraint, row: Row, c: string, k: nat, v: Cell)
    requires Shaped(d) && k <= |d.parameters|
    requires forall p | p in d.parameters :: p in row
    ensures !IrrelevantFrom(d, row, c, k) ==> CensorCell(d, row, c, k, v) == v
    ensures IrrelevantFrom(d, row, c, k) ==>
      exists m | k <= m < |d.parameters| ::
        && CensorCell(d, row, c, k, v) == Irrelevant(m)
        && c in d.affectedParameters[m] && !Holds(d.conditions[m], row[d.parameters[m]])
        && forall n | m < n < |d.parameters| :: !(c in d.affectedParameters[n] && !Holds(d.conditions[n], row[d.parameters[n]]))
    decreases |d.parameters| - k
  {
    if k < |d.parameters| {
      var censored := !Holds(d.conditions[k], row[d.parameters[k]]) && c in d.affectedParameters[k];
      var v' := if censored then Irrelevant(k) else v;
      CensorCellResult(d, row, c, k + 1, v');
      if !IrrelevantFrom(d, row, c, k + 1) && censored {
        assert CensorCell(d, row, c, k, v) == Irrelevant(k);
        assert forall n | k < n < |d.parameters| :: !(c in d.affectedParameters[n] && !Holds(d.conditions[n], row[d.parameters[n]]));
      }
    }
  }

  /** A cell keeps its value unless a failing condition governs it, in which
      case it holds the sentinel of the last such condition. */
  lemma CensorMeaning(d: DependenciesConstraint, row: Row, c: string)
    requires Shaped(d) && forall p | p in d.parameters :: p in row
    requires c in row
    ensures !IrrelevantFrom(d, row, c, 0) <==> Censor(d, row)[c] == Raw(row[c])
    ensures IrrelevantFrom(d, row, c, 0) ==>
      exists m | 0 <= m < |d.parameters| ::
        && Censor(d, row)[c] == Irrelevant(m)
        && c in d.affectedParameters[m] && !Holds(d.conditions[m], row[d.parameters[m]])
        && forall n | m < n < |d.parameters| :: !(c in d.affectedParameters[n] && !Holds(d.conditions[n], row[d.parameters[n]]))
  {
    CensorCellResult(d, row, c, 0, Raw(row[c]));
  }

  /** The censoring of a cell reads the row only at the governing parameters
      of the groups that list the cell. */
  lemma {:induction false} CensorCellGoverning(d: DependenciesConstraint, ri: Row, rj: Row, c: string, k: nat, v: Cell)
    requires Shaped(d) && k <= |d.parameters|
    requires forall p | p in d.parameters :: p in ri && p in rj
    requires forall m | 0 <= m < |d.parameters| && c in d.affectedParameters[m] :: ri[d.parameters[m]] == rj[d.parameters[m]]
    ensures CensorCell(d, ri, c, k, v) == CensorCell(d, rj, c, k, v)
    decreases |d.parameters| - k
  {
    if k < |d.parameters| {
      var relevant := Holds(d.conditions[k], ri[d.parameters[k]]);
      if c in d.affectedParameters[k] {
        assert ri[d.parameters[k]] == rj[d.parameters[k]];
      }
      CensorCellGoverning(d, ri, rj, c, k + 1, if !relevant && c in d.affectedParameters[k] then Irrelevant(k) else v);
    }
  }

  /** Two values of a cell end up equal after censoring if they are equal
      already or a later group censors the cell. */
  lemma {:induction false} CensorCellAgree(d: DependenciesConstraint, row: Row, c: string, k: nat, v: Cell, w: Cell)
    requires Shaped(d) && k <= |d.parameters|
    requires forall p | p in d.parameters :: p in row
    requires v == w || IrrelevantFrom(d, row, c, k)
    ensures CensorCell(d, row, c, k, v) == CensorCell(d, row, c, k, w)
    decreases |d.parameters| - k
  {
    if k == |d.parameters| {
      assert !IrrelevantFrom(d, row, c, k);
    } else {
      var censored := !Holds(d.conditions[k], row[d.parameters[k]]) && c in d.affectedParameters[k];
      var v' := if censored then Irrelevant(k) else v;
      var w' := if censored then Irrelevant(k) else w;
      if v' != w' {
        var m :| k <= m < |d.parameters| && c in d.affectedParameters[m] && !Holds(d.conditions[m], row[d.parameters[m]]);
        assert m != k;
        assert IrrelevantFrom(d, row, c, k + 1);
      }
      CensorCellAgree(d, row, c, k + 1, v', w');
    }
  }

  /** The checks of `get_invalid` rule out chaining: a governing parameter
      that is also affected is gone when `.drop(parameters)` runs. */
  lemma ApplicableNoChaining(d: DependenciesConstraint, t: Table)
    requires WellFormed(t) && Applicable(d, t)
    ensures NoChaining(d)
  {
    forall k, a | 0 <= k < |d.affectedParameters| && a in d.affectedParameters[k] ensures a !in d.parameters {
      assert a in Flatten(d.affectedParameters);
    }
  }

  /** No group lists a governing parameter. */
  lemma GroupAvoidsGoverning(d: DependenciesConstraint, k: nat)
    requires Shaped(d) && NoChaining(d) && k < |d.parameters|
    ensures forall a | a in d.affectedParameters[k] :: a !in d.parameters
  {
  }

  /** Reference for the pairing loop, followed for one column `c` that
      currently holds `v`: each group from index `k` on pairs `c`, once for
      each time it lists `c`, with the cell of its governing parameter. */
  function PairedCell(d: DependenciesConstraint, cells: CellRow, c: string, k: nat, v: Cell): Cell
    requires Shaped(d) && k <= |d.parameters|
    requires forall p | p in d.parameters :: p in cells
    decreases |d.parameters| - k
  {
    if k == |d.parameters| then v
    else PairedCell(d, cells, c, k + 1, Nest(v, cells[d.parameters[k]], multiset(d.affectedParameters[k])[c]))
  }

  /** A column that no group from index `k` on lists is left as it is. */
  lemma {:induction false} PairedCellUntouched(d: DependenciesConstraint, cells: CellRow, c: string, k: nat, v: Cell)
    requires Shaped(d) && k <= |d.parameters|
    requires forall p | p in d.parameters :: p in cells
    requires forall m | k <= m < |d.parameters| :: c !in d.affectedParameters[m]
    ensures PairedCell(d, cells, c, k, v) == v
    decreases |d.parameters| - k
  {
    if k < |d.parameters| {
      assert c !in d.affectedParameters[k];
      PairedCellUntouched(d, cells, c, k + 1, v);
    }
  }

  /** The pairing of a column reads only the governing cells of the groups
      that list it. */
  lemma {:induction false} PairedCellGoverning(d: DependenciesConstraint, ci: CellRow, cj: CellRow, c: string, k: nat, v: Cell)
    requires Shaped(d) && k <= |d.parameters|
    requires forall p | p in d.parameters :: p in ci && p in cj
    requires forall m | k <= m < |d.parameters| && c in d.affectedParameters[m] ::
      ci[d.parameters[m]] == cj[d.parameters[m]]
    ensures PairedCell(d, ci, c, k, v) == PairedCell(d, cj, c, k, v)
    decreases |d.parameters| - k
  {
    if k < |d.parameters| {
      var n := multiset(d.affectedParameters[k])[c];
      if c in d.affectedParameters[k] {
        assert ci[d.parameters[k]] == cj[d.parameters[k]];
      } else {
        assert n == 0;
      }
      PairedCellGoverning(d, ci, cj, c, k + 1, Nest(v, ci[d.parameters[k]], n));
    }
  }

  /** Pairing can be undone: equal paired cells come from equal cells, paired
      with equal governing cells in every group that lists the column. */
  lemma {:induction false} PairedCellInjective(d: DependenciesConstraint, ci: CellRow, cj: CellRow, c: string, k: nat, v: Cell, w: Cell)
    requires Shaped(d) && k <= |d.parameters|
    requires forall p | p in d.parameters :: p in ci && p in cj
    requires PairedCell(d, ci, c, k, v) == PairedCell(d, cj, c, k, w)
    ensures v == w
    ensures forall m | k <= m < |d.parameters| && c in d.affectedParameters[m] ::
      ci[d.parameters[m]] == cj[d.parameters[m]]
    decreases |d.parameters| - k
  {
    if k < |d.parameters| {
      var n := multiset(d.affectedParameters[k])[c];
      var gi, gj := ci[d.parameters[k]], cj[d.parameters[k]];
      PairedCellInjective(d, ci, cj, c, k + 1, Nest(v, gi, n), Nest(w, gj, n));
      NestInjective(v, gi, w, gj, n);
      assert c in d.affectedParameters[k] ==> n > 0;
    }
  }

  /** The pairing loop agrees with the reference, column by column, as long
      as no governing column is itself paired. */
  lemma {:induction false} PairFromCell(d: DependenciesConstraint, k: nat, cells: CellRow, c: string)
    requires Shaped(d) && NoChaining(d) && k <= |d.parameters|
    requires forall p | p in d.parameters :: p in cells
    requires forall a | a in Flatten(d.affectedParameters) :: a in cells
    requires c in cells
    ensures PairFrom(d, k, cells)[c] == PairedCell(d, cells, c, k, cells[c])
    decreases |d.parameters| - k
  {
    if k < |d.parameters| {
      var group, governing := d.affectedParameters[k], d.parameters[k];
      assert forall a | a in group :: a in Flatten(d.affectedParameters);
      var next := PairGroup(cells, group, governing);
      assert PairFrom(d, k, cells) == PairFrom(d, k + 1, next);
      PairFromCell(d, k + 1, next, c);
      PairGroupStep(d, k, cells, c);
      PairedCellGoverning(d, next, cells, c, k + 1, next[c]);
    }
  }

  /** One step of the pairing loop pairs `c` as the reference does and leaves
      every governing cell alone. */
  lemma PairGroupStep(d: DependenciesConstraint, k: nat, cells: CellRow, c: string)
    requires Shaped(d) && NoChaining(d) && k < |d.parameters|
    requires forall p | p in d.parameters :: p in cells
    requires forall a | a in d.affectedParameters[k] :: a in cells
    requires c in cells
    ensures var next := PairGroup(cells, d.affectedParameters[k], d.parameters[k]);
      && next[c] == Nest(cells[c], cells[d.parameters[k]], multiset(d.affectedParameters[k])[c])
      && forall m | 0 <= m < |d.parameters| :: next[d.parameters[m]] == cells[d.parameters[m]]
  {
    var group := d.affectedParameters[k];
    GroupAvoidsGoverning(d, k);
    forall m | 0 <= m < |d.parameters| ensures multiset(group)[d.parameters[m]] == 0 {
      assert d.parameters[m] in d.parameters;
    }
  }

  /** The pairing of the source, read off for one column: a column that no
      group lists is left as it is, and an affected column that exactly one
      group lists, once, becomes the pair of its own cell and the cell of
      that group's governing parameter. */
  lemma PairingMeaning(d: DependenciesConstraint, cells: CellRow, a: string, k: nat)
    requires Shaped(d) && NoChaining(d)
    requires forall p | p in d.parameters :: p in cells
    requires forall c | c in Flatten(d.affectedParameters) :: c in cells
    requires a in cells
    ensures (forall m | 0 <= m < |d.parameters| :: a !in d.affectedParameters[m]) ==>
      PairFrom(d, 0, cells)[a] == cells[a]
    ensures (&& k < |d.parameters| && multiset(d.affectedParameters[k])[a] == 1
             && forall m | 0 <= m < |d.parameters| && m != k :: a !in d.affectedParameters[m]) ==>
      PairFrom(d, 0, cells)[a] == Paired(cells[a], cells[d.parameters[k]])
  {
    PairFromCell(d, 0, cells, a);
    if forall m | 0 <= m < |d.parameters| :: a !in d.affectedParameters[m] {
      PairedCellUntouched(d, cells, a, 0, cells[a]);
    }
    if k < |d.parameters| && multiset(d.affectedParameters[k])[a] == 1
       && forall m | 0 <= m < |d.parameters| && m != k :: a !in d.affectedParameters[m] {
      PairedOnceFrom(d, cells, a, k, 0, cells[a]);
    }
  }

  /** Helper for `PairingMeaning`: from index `j` up to `k` nothing happens,
      at `k` the cell is paired once, and after `k` nothing happens. */
  lemma {:induction false} PairedOnceFrom(d: DependenciesConstraint, cells: CellRow, a: string, k: nat, j: nat, v: Cell)
    requires Shaped(d) && j <= k < |d.parameters|
    requires forall p | p in d.parameters :: p in cells
    requires multiset(d.affectedParameters[k])[a] == 1
    requires forall m | 0 <= m < |d.parameters| && m != k :: a !in d.affectedParameters[m]
    ensures PairedCell(d, cells, a, j, v) == Paired(v, cells[d.parameters[k]])
    decreases k - j
  {
    if j < k {
      assert a !in d.affectedParameters[j];
      PairedOnceFrom(d, cells, a, k, j + 1, v);
    } else {
      assert Nest(v, cells[d.parameters[k]], 1) == Paired(v, cells[d.parameters[k]]);
      PairedCellUntouched(d, cells, a, k + 1, Paired(v, cells[d.parameters[k]]));
    }
  }

  /** A governing parameter whose group lists no column: the signature leaves
      it out, and nothing is paired with it. */
  predicate Unpaired(d: DependenciesConstraint, c: string)
    ensures Unpaired(d, c) ==> c in d.parameters
  {
    exists k | 0 <= k < |d.parameters| && k < |d.affectedParameters| ::
      d.parameters[k] == c && |d.affectedParameters[k]| == 0
  }

  /** The row has a cell for every column, and the constraint names only
      columns. */
  predicate Covers(d: DependenciesConstraint, columns: seq<string>, row: Row) {
    && (forall c | c in columns :: c in row)
    && (forall p | p in d.parameters :: p in columns)
    && (forall a | a in Flatten(d.affectedParameters) :: a in columns)
  }

  /** Row `ri` has the setting of row `rj`: they agree on every column except
      the cells that a failing condition of `rj` makes irrelevant and the
      unpaired governing parameters. */
  predicate SameSetting(d: DependenciesConstraint, columns: seq<string>, ri: Row, rj: Row)
    requires Shaped(d) && forall p | p in d.parameters :: p in rj
  {
    forall c | c in columns && c in ri && c in rj && !IrrelevantFrom(d, rj, c, 0) && !Unpaired(d, c) ::
      ri[c] == rj[c]
  }

  /** A governing parameter is never censored. */
  lemma GoverningKept(d: DependenciesConstraint, row: Row, m: nat)
    requires Shaped(d) && NoChaining(d) && m < |d.parameters|
    requires forall p | p in d.parameters :: p in row
    ensures Censor(d, row)[d.parameters[m]] == Raw(row[d.parameters[m]])
  {
    var p := d.parameters[m];
    assert p in d.parameters;
    assert !IrrelevantFrom(d, row, p, 0) by {
      forall k | 0 <= k < |d.parameters| ensures p !in d.affectedParameters[k] {
        if p in d.affectedParameters[k] {
          assert false;
        }
      }
    }
    CensorMeaning(d, row, p);
  }

  /** Rows with the same setting agree on every governing parameter whose
      group lists a column. */
  lemma SameSettingGoverning(d: DependenciesConstraint, columns: seq<string>, ri: Row, rj: Row, m: nat)
    requires Shaped(d) && NoChaining(d) && DistinctNames(d.parameters)
    requires Covers(d, columns, ri) && Covers(d, columns, rj)
    requires SameSetting(d, columns, ri, rj)
    requires m < |d.parameters| && |d.affectedParameters[m]| > 0
    ensures ri[d.parameters[m]] == rj[d.parameters[m]]
    ensures Censor(d, ri)[d.parameters[m]] == Censor(d, rj)[d.parameters[m]]
  {
    var p := d.parameters[m];
    assert p in d.parameters;
    GoverningKept(d, ri, m);
    GoverningKept(d, rj, m);
    CensorMeaning(d, rj, p);
    assert !Unpaired(d, p);
  }

  /** Rows with the same setting are censored alike on every column that is
      not an unpaired governing parameter. */
  lemma SameSettingCensored(d: DependenciesConstraint, columns: seq<string>, ri: Row, rj: Row, c: string)
    requires Shaped(d) && NoChaining(d) && DistinctNames(d.parameters)
    requires Covers(d, columns, ri) && Covers(d, columns, rj)
    requires SameSetting(d, columns, ri, rj)
    requires c in columns && !Unpaired(d, c)
    ensures Censor(d, ri)[c] == Censor(d, rj)[c]
  {
    forall m | 0 <= m < |d.parameters| && c in d.affectedParameters[m]
      ensures ri[d.parameters[m]] == rj[d.parameters[m]]
    {
      SameSettingGoverning(d, columns, ri, rj, m);
    }
    CensorCellGoverning(d, ri, rj, c, 0, Raw(ri[c]));
    CensorCellAgree(d, rj, c, 0, Raw(ri[c]), Raw(rj[c]));
  }

  /** Settings that a failing governing condition makes irrelevant are
      equivalent: rows with the same setting have the same signature, whether
      the affected cells are compared as tuples or as sets. */
  lemma SameSettingSameSignature(d: DependenciesConstraint, columns: seq<string>, ri: Row, rj: Row, permutationInvariant: bool)
    requires Shaped(d) && NoChaining(d) && DistinctNames(d.parameters)
    requires Covers(d, columns, ri) && Covers(d, columns, rj)
    requires SameSetting(d, columns, ri, rj)
    ensures RowSignature(d, columns, ri, permutationInvariant) == RowSignature(d, columns, rj, permutationInvariant)
  {
    var ci, cj := Censor(d, ri), Censor(d, rj);
    var all := Flatten(d.affectedParameters);
    forall c | c in OtherColumns(columns, all, d.parameters) || c in all
      ensures PairFrom(d, 0, ci)[c] == PairFrom(d, 0, cj)[c]
    {
      if c in all {
        var k :| 0 <= k < |d.affectedParameters| && c in d.affectedParameters[k];
      }
      SameSettingPaired(d, columns, ri, rj, c);
    }
    CellsSignature(d, columns, ri, rj, permutationInvariant);
  }

  /** Rows with the same setting agree, after pairing, on every column that
      is not an unpaired governing parameter. */
  lemma SameSettingPaired(d: DependenciesConstraint, columns: seq<string>, ri: Row, rj: Row, c: string)
    requires Shaped(d) && NoChaining(d) && DistinctNames(d.parameters)
    requires Covers(d, columns, ri) && Covers(d, columns, rj)
    requires SameSetting(d, columns, ri, rj)
    requires c in columns && !Unpaired(d, c)
    ensures PairFrom(d, 0, Censor(d, ri))[c] == PairFrom(d, 0, Censor(d, rj))[c]
  {
    var ci, cj := Censor(d, ri), Censor(d, rj);
    SameSettingCensored(d, columns, ri, rj, c);
    PairFromCell(d, 0, ci, c);
    PairFromCell(d, 0, cj, c);
    forall m | 0 <= m < |d.parameters| && c in d.affectedParameters[m]
      ensures ci[d.parameters[m]] == cj[d.parameters[m]]
    {
      SameSettingGoverning(d, columns, ri, rj, m);
    }
    PairedCellGoverning(d, ci, cj, c, 0, ci[c]);
  }

  /** Rows whose paired cells agree on the columns the signature reads have
      the same signature. */
  lemma CellsSignature(d: DependenciesConstraint, columns: seq<string>, ri: Row, rj: Row, permutationInvariant: bool)
    requires Shaped(d) && Covers(d, columns, ri) && Covers(d, columns, rj)
    requires forall c | c in OtherColumns(columns, Flatten(d.affectedParameters), d.parameters) || c in Flatten(d.affectedParameters) ::
      PairFrom(d, 0, Censor(d, ri))[c] == PairFrom(d, 0, Censor(d, rj))[c]
    ensures RowSignature(d, columns, ri, permutationInvariant) == RowSignature(d, columns, rj, permutationInvariant)
  {
    var all := Flatten(d.affectedParameters);
    SignatureOfAgree(PairFrom(d, 0, Censor(d, ri)), PairFrom(d, 0, Censor(d, rj)),
      OtherColumns(columns, all, d.parameters), all, permutationInvariant);
  }

  lemma SignatureOfAgree(ci: CellRow, cj: CellRow, others: seq<string>, all: seq<string>, permutationInvariant: bool)
    requires forall c | c in others || c in all :: c in ci && c in cj && ci[c] == cj[c]
    ensures SignatureOf(ci, others, all, permutationInvariant) == SignatureOf(cj, others, all, permutationInvariant)
  {
    var ai := seq(|all|, x requires 0 <= x < |all| => ci[all[x]]);
    var aj := seq(|all|, x requires 0 <= x < |all| => cj[all[x]]);
    assert ai == aj by {
      forall x | 0 <= x < |all| ensures ai[x] == aj[x] {
        assert all[x] in all;
      }
    }
    var oi := seq(|others|, x requires 0 <= x < |others| => ci[others[x]]);
    var oj := seq(|others|, x requires 0 <= x < |others| => cj[others[x]]);
    assert oi == oj by {
      forall x | 0 <= x < |others| ensures oi[x] == oj[x] {
        assert others[x] in others;
      }
    }
  }

  /** Equal tuple signatures mean equal paired cells on every column the
      signature reads. */
  lemma SignatureCells(d: DependenciesConstraint, columns: seq<string>, ri: Row, rj: Row)
    requires Shaped(d) && Covers(d, columns, ri) && Covers(d, columns, rj)
    requires RowSignature(d, columns, ri, false) == RowSignature(d, columns, rj, false)
    ensures forall c | c in OtherColumns(columns, Flatten(d.affectedParameters), d.parameters) || c in Flatten(d.affectedParameters) ::
      PairFrom(d, 0, Censor(d, ri))[c] == PairFrom(d, 0, Censor(d, rj))[c]
  {
    var all := Flatten(d.affectedParameters);
    SignatureOfCells(PairFrom(d, 0, Censor(d, ri)), PairFrom(d, 0, Censor(d, rj)),
      OtherColumns(columns, all, d.parameters), all);
  }

  lemma SignatureOfCells(ci: CellRow, cj: CellRow, others: seq<string>, all: seq<string>)
    requires forall c | c in others || c in all :: c in ci && c in cj
    requires SignatureOf(ci, others, all, false) == SignatureOf(cj, others, all, false)
    ensures forall c | c in others || c in all :: ci[c] == cj[c]
  {
    var si, sj := SignatureOf(ci, others, all, false), SignatureOf(cj, others, all, false);
    forall c | c in others || c in all ensures ci[c] == cj[c] {
      if c in all {
        var x :| 0 <= x < |all| && all[x] == c;
        assert si.affected.cells[x] == sj.affected.cells[x];
      } else {
        var x :| 0 <= x < |others| && others[x] == c;
        assert si.others[x] == sj.others[x];
      }
    }
  }

  /** The converse, for tuples: rows with the same signature have the same
      setting. */
  lemma SameSignatureSameSetting(d: DependenciesConstraint, columns: seq<string>, ri: Row, rj: Row)
    requires Shaped(d) && NoChaining(d) && DistinctNames(d.parameters)
    requires Covers(d, columns, ri) && Covers(d, columns, rj)
    requires RowSignature(d, columns, ri, false) == RowSignature(d, columns, rj, false)
    ensures SameSetting(d, columns, ri, rj)
  {
    var ci, cj := Censor(d, ri), Censor(d, rj);
    var all := Flatten(d.affectedParameters);
    var others := OtherColumns(columns, all, d.parameters);
    forall c | c in columns && c in ri && c in rj && !IrrelevantFrom(d, rj, c, 0) && !Unpaired(d, c)
      ensures ri[c] == rj[c]
    {
      SignatureCensored(d, columns, ri, rj, c);
      CensorMeaning(d, ri, c);
      CensorMeaning(d, rj, c);
    }
  }

  /** Helper for `SameSignatureSameSetting`: equal tuple signatures mean
      equal censored cells on every column but the unpaired governing ones. */
  lemma SignatureCensored(d: DependenciesConstraint, columns: seq<string>, ri: Row, rj: Row, c: string)
    requires Shaped(d) && NoChaining(d) && DistinctNames(d.parameters)
    requires Covers(d, columns, ri) && Covers(d, columns, rj)
    requires RowSignature(d, columns, ri, false) == RowSignature(d, columns, rj, false)
    requires c in columns && !Unpaired(d, c)
    ensures Censor(d, ri)[c] == Censor(d, rj)[c]
  {
    var ci, cj := Censor(d, ri), Censor(d, rj);
    var all := Flatten(d.affectedParameters);
    SignatureCells(d, columns, ri, rj);
    if c in all {
      PairFromCell(d, 0, ci, c);
      PairFromCell(d, 0, cj, c);
      PairedCellInjective(d, ci, cj, c, 0, ci[c], cj[c]);
    } else if c in d.parameters {
      var m :| 0 <= m < |d.parameters| && d.parameters[m] == c;
      assert |d.affectedParameters[m]| > 0;
      var a := d.affectedParameters[m][0];
      assert a in all;
      PairFromCell(d, 0, ci, a);
      PairFromCell(d, 0, cj, a);
      PairedCellInjective(d, ci, cj, a, 0, ci[a], cj[a]);
    } else {
      assert c in OtherColumns(columns, all, d.parameters);
      forall m | 0 <= m < |d.parameters| ensures c !in d.affectedParameters[m] {
      }
      PairFromCell(d, 0, ci, c);
      PairFromCell(d, 0, cj, c);
      PairedCellUntouched(d, ci, c, 0, ci[c]);
      PairedCellUntouched(d, cj, c, 0, cj[c]);
    }
  }

  /** A later row that has the setting of an earlier one is flagged, whether
      tuples or sets are compared. */
  lemma IrrelevantSettingsCollide(d: DependenciesConstraint, t: Table, permutationInvariant: bool, i: int, j: int)
    requires WellFormed(t) && ValidDependencies(d) && Applicable(d, t)
    requires 0 <= i < j < |t.records|
    requires SameSetting(d, t.columns, t.records[i].row, t.records[j].row)
    ensures t.records[j].id in GetInvalid(d, t, permutationInvariant).value
  {
    ApplicableNoChaining(d, t);
    var ri, rj := t.records[i].row, t.records[j].row;
    SameSettingSameSignature(d, t.columns, ri, rj, permutationInvariant);
    var keys := Signatures(d, t, permutationInvariant);
    assert keys[i] == keys[j];
  }

  /** With tuples compared, a row is flagged exactly when an earlier row has
      its setting. */
  lemma GetInvalidMeaning(d: DependenciesConstraint, t: Table, j: int)
    requires WellFormed(t) && ValidDependencies(d) && Applicable(d, t)
    requires 0 <= j < |t.records|
    ensures t.records[j].id in GetInvalid(d, t, false).value <==>
      exists i | 0 <= i < j :: SameSetting(d, t.columns, t.records[i].row, t.records[j].row)
  {
    ApplicableNoChaining(d, t);
    var keys := Signatures(d, t, false);
    if t.records[j].id in GetInvalid(d, t, false).value {
      var i :| 0 <= i < j && keys[i] == keys[j];
      SameSignatureSameSetting(d, t.columns, t.records[i].row, t.records[j].row);
    }
    if exists i | 0 <= i < j :: SameSetting(d, t.columns, t.records[i].row, t.records[j].row) {
      var i :| 0 <= i < j && SameSetting(d, t.columns, t.records[i].row, t.records[j].row);
      IrrelevantSettingsCollide(d, t, false, i, j);
    }
  }

  lemma EvaluableOnSubtable(c: Condition, t: Table, s: set<int>, name: string)
    requires WellFormed(t) && name in t.columns
    requires EvaluableOn(c, Column(t, name))
    ensures EvaluableOn(c, Column(Drop(t, s), name))
  {
    var t' := Drop(t, s);
    forall i | 0 <= i < |t'.records| ensures t'.records[i].row[name].Num? || !c.Threshold? {
      assert t'.records[i] in t.records;
    }
    if |t'.records| > 0 {
      assert t'.records[0] in t.records;
    }
  }

  /** A table that passes the checks still passes them after rows are dropped. */
  lemma ApplicableOnSubtable(d: DependenciesConstraint, t: Table, s: set<int>)
    requires WellFormed(t) && Applicable(d, t)
    ensures Applicable(d, Drop(t, s))
  {
    forall m | 0 <= m < |d.parameters| ensures GoverningEvaluable(d, Drop(t, s), m) {
      assert GoverningEvaluable(d, t, m);
      EvaluableOnSubtable(d.conditions[m], t, s, d.parameters[m]);
    }
  }

  /** The rows that survive the removal of the flagged rows carry pairwise
      different signatures. */
  lemma SurvivorsDistinct(d: DependenciesConstraint, t: Table, permutationInvariant: bool, flagged: set<int>, t': Table)
    requires WellFormed(t) && ValidDependencies(d) && Applicable(d, t)
    requires GetInvalid(d, t, permutationInvariant) == Success(flagged)
    requires t' == Drop(t, flagged) && Applicable(d, t')
    ensures forall a, b | 0 <= a < b < |t'.records| ::
      Signatures(d, t', permutationInvariant)[a] != Signatures(d, t', permutationInvariant)[b]
  {
    var keys, keys' := Signatures(d, t, permutationInvariant), Signatures(d, t', permutationInvariant);
    forall i, j | 0 <= i < j < |t.records| && keys[i] == keys[j] ensures t.records[j].id in flagged {
    }
    DropLeavesDistinctKeys(t, keys, flagged, t', keys');
  }

  /** Removing the flagged rows leaves a table on which nothing is flagged. */
  lemma GetInvalidIdempotent(d: DependenciesConstraint, t: Table, permutationInvariant: bool)
    requires WellFormed(t) && ValidDependencies(d)
    requires GetInvalid(d, t, permutationInvariant).Success?
    ensures GetInvalid(d, Drop(t, GetInvalid(d, t, permutationInvariant).value), permutationInvariant) == Success({})
  {
    var flagged := GetInvalid(d, t, permutationInvariant).value;
    var t' := Drop(t, flagged);
    ApplicableOnSubtable(d, t, flagged);
    var r' := GetInvalid(d, t', permutationInvariant).value;
    SurvivorsDistinct(d, t, permutationInvariant, flagged, t');
    NoneSelected(t', r');
  }
}
