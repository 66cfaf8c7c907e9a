/**
  Constraints over the candidate table. Each variant names the parameters
  (columns) it looks at; `GetInvalid` returns the labels of the rows that
  violate it, or the error the source raises.
 */
module Constraints {
  import opened Wrappers
  import opened Tables
  import opened Duplicates
  import opened Conditions
  import opened Combiners
  import opened Dependencies

  datatype Constraint =
    | Exclude(parameters: seq<string>, conditions: seq<Condition>, combiner: Combiner)
    | Sum(parameters: seq<string>, condition: ThresholdCondition)
    | Product(parameters: seq<string>, condition: ThresholdCondition)
    | NoLabelDuplicates(parameters: seq<string>)
    | LinkedParameters(parameters: seq<string>)
    | Dependent(dependencies: DependenciesConstraint)
    | PermutationInvariance(parameters: seq<string>, nested: Option<DependenciesConstraint>)
    | Custom(parameters: seq<string>, validator: Row -> bool)

  function Parameters(c: Constraint): seq<string> {
    if c.Dependent? then c.dependencies.parameters else c.parameters
  }

  /** What the field validators admit. */
  predicate Valid(c: Constraint) {
    && DistinctNames(Parameters(c))
    && match c
       case Exclude(_, conditions, _) =>
         |conditions| >= 1 && forall k | 0 <= k < |conditions| :: ValidCondition(conditions[k])
       case Sum(_, condition) => ValidThreshold(condition)
       case Product(_, condition) => ValidThreshold(condition)
       case Dependent(d) => ValidDependencies(d)
       case PermutationInvariance(_, nested) => nested.Some? ==> ValidDependencies(nested.value)
       case _ => true
  }

  // ---------------------------------------------------------------------
  // Construction

  /** The parameter validator: the list must be as long as its set of names. */
  function ValidateParameters(parameters: seq<string>): (r: Check<Error>)
    ensures r.Pass? <==> DistinctNames(parameters)
    ensures r.Fail? ==> r.error == DuplicateParameters(parameters)
  {
    DistinctCountFull(parameters);
    Require(DistinctCount(parameters) == |parameters|, DuplicateParameters(parameters))
  }

  function MakeExclude(parameters: seq<string>, conditions: seq<Condition>, combiner: string): (r: Result<Constraint, Error>)
    requires forall k | 0 <= k < |conditions| :: ValidCondition(conditions[k])
    ensures r.Success? <==> DistinctNames(parameters) && |conditions| >= 1 && ParseCombiner(combiner).Success?
    ensures r.Success? ==> Valid(r.value) && r.value == Exclude(parameters, conditions, ParseCombiner(combiner).value)
    ensures DistinctNames(parameters) && |conditions| == 0 ==> r == Failure(TooFewConditions)
  {
    match ValidateParameters(parameters)
    case Fail(e) => Failure(e)
    case Pass =>
      :- Require(|conditions| >= 1, TooFewConditions);
      var c :- ParseCombiner(combiner);
      Success(Exclude(parameters, conditions, c))
  }

  function MakeSum(parameters: seq<string>, condition: ThresholdCondition): (r: Result<Constraint, Error>)
    requires ValidThreshold(condition)
    ensures r.Success? <==> DistinctNames(parameters)
    ensures r.Success? ==> Valid(r.value) && r.value == Sum(parameters, condition)
  {
    match ValidateParameters(parameters)
    case Fail(e) => Failure(e)
    case Pass =>
      Success(Sum(parameters, condition))
  }

  function MakeProduct(parameters: seq<string>, condition: ThresholdCondition): (r: Result<Constraint, Error>)
    requires ValidThreshold(condition)
    ensures r.Success? <==> DistinctNames(parameters)
    ensures r.Success? ==> Valid(r.value) && r.value == Product(parameters, condition)
  {
    match ValidateParameters(parameters)
    case Fail(e) => Failure(e)
    case Pass =>
      Success(Product(parameters, condition))
  }

  function MakeNoLabelDuplicates(parameters: seq<string>): (r: Result<Constraint, Error>)
    ensures r.Success? <==> DistinctNames(parameters)
    ensures r.Success? ==> Valid(r.value) && r.value == NoLabelDuplicates(parameters)
  {
    match ValidateParameters(parameters)
    case Fail(e) => Failure(e)
    case Pass =>
      Success(NoLabelDuplicates(parameters))
  }

  function MakeLinkedParameters(parameters: seq<string>): (r: Result<Constraint, Error>)
    ensures r.Success? <==> DistinctNames(parameters)
    ensures r.Success? ==> Valid(r.value) && r.value == LinkedParameters(parameters)
  {
    match ValidateParameters(parameters)
    case Fail(e) => Failure(e)
    case Pass =>
      Success(LinkedParameters(parameters))
  }

  /** The dependencies constructor: the parameter validator, then the check
      that every affected group has exactly one condition. */
  function MakeDependencies(parameters: seq<string>, conditions: seq<Condition>, affected: seq<seq<string>>): (r: Result<DependenciesConstraint, Error>)
    requires forall k | 0 <= k < |conditions| :: ValidCondition(conditions[k])
    ensures r.Success? <==> DistinctNames(parameters) && |conditions| == |affected|
    ensures r.Success? ==> ValidDependencies(r.value) && r.value == DependenciesConstraint(parameters, conditions, affected)
    ensures DistinctNames(parameters) && |conditions| != |affected| ==> r == Failure(ConditionCountMismatch)
  {
    match ValidateParameters(parameters)
    case Fail(e) => Failure(e)
    case Pass =>
      :- Require(|conditions| == |affected|, ConditionCountMismatch);
      Success(DependenciesConstraint(parameters, conditions, affected))
  }

  function MakePermutationInvariance(parameters: seq<string>, nested: Option<DependenciesConstraint>): (r: Result<Constraint, Error>)
    requires nested.Some? ==> ValidDependencies(nested.value)
    ensures r.Success? <==> DistinctNames(parameters)
    ensures r.Success? ==> Valid(r.value) && r.value == PermutationInvariance(parameters, nested)
  {
    match ValidateParameters(parameters)
    case Fail(e) => Failure(e)
    case Pass =>
      Success(PermutationInvariance(parameters, nested))
  }

  function MakeCustom(parameters: seq<string>, validator: Row -> bool): (r: Result<Constraint, Error>)
    ensures r.Success? <==> DistinctNames(parameters)
    ensures r.Success? ==> Valid(r.value) && r.value == Custom(parameters, validator)
  {
    match ValidateParameters(parameters)
    case Fail(e) => Failure(e)
    case Pass =>
      Success(Custom(parameters, validator))
  }

  // ---------------------------------------------------------------------
  // Exclude

  /** Every condition from `k` on can be evaluated on its parameter's column. */
  predicate EvaluableFrom(t: Table, parameters: seq<string>, conditions: seq<Condition>, k: nat)
    requires WellFormed(t)
  {
    forall m | k <= m < |conditions| ::
      m < |parameters| && parameters[m] in t.columns && EvaluableOn(conditions[m], Column(t, parameters[m]))
  }

  /** Every condition has a parameter, and can be evaluated on its column. */
  predicate ExcludeEvaluable(t: Table, parameters: seq<string>, conditions: seq<Condition>)
    requires WellFormed(t)
  {
    |conditions| <= |parameters| && EvaluableFrom(t, parameters, conditions, 0)
  }

  /** Once condition `k` can be evaluated, the remaining conditions decide. */
  lemma EvaluableFromStep(t: Table, parameters: seq<string>, conditions: seq<Condition>, k: nat)
    requires WellFormed(t) && k < |conditions| && k < |parameters| && parameters[k] in t.columns
    requires EvaluableOn(conditions[k], Column(t, parameters[k]))
    ensures EvaluableFrom(t, parameters, conditions, k) <==> EvaluableFrom(t, parameters, conditions, k + 1)
  {
    if EvaluableFrom(t, parameters, conditions, k + 1) {
      forall m | k <= m < |conditions|
        ensures m < |parameters| && parameters[m] in t.columns && EvaluableOn(conditions[m], Column(t, parameters[m]))
      {
        if m > k {
          assert conditions[m] in conditions;
        }
      }
      assert EvaluableFrom(t, parameters, conditions, k);
    }
    if EvaluableFrom(t, parameters, conditions, k) {
      forall m | k + 1 <= m < |conditions|
        ensures m < |parameters| && parameters[m] in t.columns && EvaluableOn(conditions[m], Column(t, parameters[m]))
      {
        assert conditions[m] in conditions;
      }
      assert EvaluableFrom(t, parameters, conditions, k + 1);
    }
  }

  /** `[cond.evaluate(data[parameters[k]]) for k, cond in enumerate(conditions)]`
      from condition `k` on, failing at the first condition that fails. */
  function ConditionMasks(t: Table, parameters: seq<string>, conditions: seq<Condition>, k: nat): (r: Result<seq<seq<bool>>, Error>)
    requires WellFormed(t) && k <= |conditions|
    ensures r.Success? <==> EvaluableFrom(t, parameters, conditions, k)
    ensures r.Success? ==> |r.value| == |conditions| - k && SameLength(r.value, |t.records|)
    ensures r.Success? ==> forall j, i | 0 <= j < |r.value| && 0 <= i < |t.records| ::
      && k + j < |parameters|
      && parameters[k + j] in t.columns
      && r.value[j][i] == Holds(conditions[k + j], t.records[i].row[parameters[k + j]])
    decreases |conditions| - k
  {
    if k == |conditions| then Success([])
    else if k >= |parameters| then
      assert !EvaluableFrom(t, parameters, conditions, k) by {
        assert conditions[k] in conditions;
      }
      Failure(IndexOutOfRange)
    else if parameters[k] !in t.columns then
      Failure(MissingColumn(parameters[k]))
    else if !EvaluableOn(conditions[k], Column(t, parameters[k])) then
      Evaluate(conditions[k], Column(t, parameters[k])).PropagateFailure()
    else
      var mask := Evaluate(conditions[k], Column(t, parameters[k])).value;
      EvaluableFromStep(t, parameters, conditions, k);
      var rest :- ConditionMasks(t, parameters, conditions, k + 1);
      Success([mask] + rest)
  }

  /** The condition results of one row, condition `k` read on parameter `k`. */
  function ConditionResults(parameters: seq<string>, conditions: seq<Condition>, row: Row): (r: seq<bool>)
    requires |conditions| <= |parameters| && forall k | 0 <= k < |conditions| :: parameters[k] in row
    ensures |r| == |conditions|
    ensures forall k | 0 <= k < |conditions| :: r[k] == Holds(conditions[k], row[parameters[k]])
  {
    seq(|conditions|, k requires 0 <= k < |conditions| => Holds(conditions[k], row[parameters[k]]))
  }

  /** `ExcludeConstraint.get_invalid`: a row is invalid when the condition
      results, folded with the combiner, are true. */
  function ExcludeGetInvalid(parameters: seq<string>, conditions: seq<Condition>, combiner: Combiner, t: Table): (r: Result<set<int>, Error>)
    requires WellFormed(t) && |conditions| >= 1
    ensures r.Success? <==> ExcludeEvaluable(t, parameters, conditions)
    ensures r.Success? ==> r.value <= Ids(t)
    ensures r.Success? ==> forall i | 0 <= i < |t.records| ::
      t.records[i].id in r.value <==> FoldRow(combiner, ConditionResults(parameters, conditions, t.records[i].row))
  {
    var masks :- ConditionMasks(t, parameters, conditions, 0);
    var last := |conditions| - 1;
    assert last < |parameters| by {
      assert conditions[last] in conditions;
    }
    var reduced := ReduceMasks(combiner, masks, |t.records|);
    assert forall i | 0 <= i < |t.records| :: RowOf(masks, i) == ConditionResults(parameters, conditions, t.records[i].row);
    Success(Select(t, reduced))
  }

  /** With AND a row is excluded when every condition holds on it. */
  lemma ExcludeAnd(parameters: seq<string>, conditions: seq<Condition>, t: Table, i: int)
    requires WellFormed(t) && |conditions| >= 1
    requires ExcludeGetInvalid(parameters, conditions, And, t).Success?
    requires 0 <= i < |t.records|
    ensures t.records[i].id in ExcludeGetInvalid(parameters, conditions, And, t).value <==>
      forall k | 0 <= k < |conditions| :: Holds(conditions[k], t.records[i].row[parameters[k]])
  {
    FoldAnd(ConditionResults(parameters, conditions, t.records[i].row));
  }

  /** With OR a row is excluded when some condition holds on it. */
  lemma ExcludeOr(parameters: seq<string>, conditions: seq<Condition>, t: Table, i: int)
    requires WellFormed(t) && |conditions| >= 1
    requires ExcludeGetInvalid(parameters, conditions, Or, t).Success?
    requires 0 <= i < |t.records|
    ensures t.records[i].id in ExcludeGetInvalid(parameters, conditions, Or, t).value <==>
      exists k | 0 <= k < |conditions| :: Holds(conditions[k], t.records[i].row[parameters[k]])
  {
    var results := ConditionResults(parameters, conditions, t.records[i].row);
    FoldOr(results);
    assert (exists k | 0 <= k < |conditions| :: results[k]) <==>
      exists k | 0 <= k < |conditions| :: Holds(conditions[k], t.records[i].row[parameters[k]]);
  }

  /** With XOR a row is excluded when an odd number of conditions hold on it. */
  lemma ExcludeXor(parameters: seq<string>, conditions: seq<Condition>, t: Table, i: int)
    requires WellFormed(t) && |conditions| >= 1
    requires ExcludeGetInvalid(parameters, conditions, Xor, t).Success?
    requires 0 <= i < |t.records|
    ensures t.records[i].id in ExcludeGetInvalid(parameters, conditions, Xor, t).value <==>
      CountTrue(ConditionResults(parameters, conditions, t.records[i].row)) % 2 == 1
  {
    FoldXor(ConditionResults(parameters, conditions, t.records[i].row));
  }

  /** With one condition the combiner makes no difference. */
  lemma ExcludeSingleCondition(parameters: seq<string>, condition: Condition, c1: Combiner, c2: Combiner, t: Table)
    requires WellFormed(t)
    ensures ExcludeGetInvalid(parameters, [condition], c1, t) == ExcludeGetInvalid(parameters, [condition], c2, t)
  {
    var r1, r2 := ExcludeGetInvalid(parameters, [condition], c1, t), ExcludeGetInvalid(parameters, [condition], c2, t);
    if r1.Success? {
      assert r1.value == r2.value by {
        forall id | id in r1.value ensures id in r2.value {
          var i :| 0 <= i < |t.records| && t.records[i].id == id;
        }
        forall id | id in r2.value ensures id in r1.value {
          var i :| 0 <= i < |t.records| && t.records[i].id == id;
        }
      }
    }
  }

  // ---------------------------------------------------------------------
  // Sum and Product

  predicate NumericCells(t: Table, parameters: seq<string>)
    requires WellFormed(t) && HasColumns(t, parameters)
  {
    forall i, k | 0 <= i < |t.records| && 0 <= k < |parameters| :: t.records[i].row[parameters[k]].Num?
  }

  predicate NumericRow(row: Row, parameters: seq<string>) {
    forall k | 0 <= k < |parameters| :: parameters[k] in row && row[parameters[k]].Num?
  }

  /** `data[parameters].sum(axis=1)` for one row. */
  function RowSum(row: Row, parameters: seq<string>): real
    requires NumericRow(row, parameters)
  {
    if |parameters| == 0 then 0.0
    else RowSum(row, parameters[..|parameters| - 1]) + row[parameters[|parameters| - 1]].x
  }

  /** `data[parameters].prod(axis=1)` for one row. */
  function RowProduct(row: Row, parameters: seq<string>): real
    requires NumericRow(row, parameters)
  {
    if |parameters| == 0 then 1.0
    else RowProduct(row, parameters[..|parameters| - 1]) * row[parameters[|parameters| - 1]].x
  }

  lemma NumericRowParts(row: Row, p: seq<string>, q: seq<string>)
    requires NumericRow(row, p + q)
    ensures NumericRow(row, p) && NumericRow(row, q) && NumericRow(row, q + p)
  {
    assert forall k | 0 <= k < |p| :: (p + q)[k] == p[k];
    assert forall k | 0 <= k < |q| :: (p + q)[|p| + k] == q[k];
  }

  /** The row sum splits over any division of the parameter list, so the
      order of the parameters does not matter. */
  lemma {:induction false} RowSumSplit(row: Row, p: seq<string>, q: seq<string>)
    requires NumericRow(row, p + q)
    ensures NumericRow(row, p) && NumericRow(row, q) && NumericRow(row, q + p)
    ensures RowSum(row, p + q) == RowSum(row, p) + RowSum(row, q)
    ensures RowSum(row, p + q) == RowSum(row, q + p)
  {
    RowSumAppend(row, p, q);
    RowSumAppend(row, q, p);
  }

  lemma {:induction false} RowSumAppend(row: Row, p: seq<string>, q: seq<string>)
    requires NumericRow(row, p + q)
    ensures NumericRow(row, p) && NumericRow(row, q)
    ensures RowSum(row, p + q) == RowSum(row, p) + RowSum(row, q)
    decreases |q|
  {
    NumericRowParts(row, p, q);
    if |q| > 0 {
      var q' := q[..|q| - 1];
      assert (p + q)[..|p + q| - 1] == p + q';
      RowSumAppend(row, p, q');
    } else {
      assert p + q == p;
    }
  }

  /** The row product splits over any division of the parameter list, so the
      order of the parameters does not matter. */
  lemma {:induction false} RowProductSplit(row: Row, p: seq<string>, q: seq<string>)
    requires NumericRow(row, p + q)
    ensures NumericRow(row, p) && NumericRow(row, q) && NumericRow(row, q + p)
    ensures RowProduct(row, p + q) == RowProduct(row, p) * RowProduct(row, q)
    ensures RowProduct(row, p + q) == RowProduct(row, q + p)
  {
    RowProductAppend(row, p, q);
    RowProductAppend(row, q, p);
  }

  lemma {:induction false} RowProductAppend(row: Row, p: seq<string>, q: seq<string>)
    requires NumericRow(row, p + q)
    ensures NumericRow(row, p) && NumericRow(row, q)
    ensures RowProduct(row, p + q) == RowProduct(row, p) * RowProduct(row, q)
    decreases |q|
  {
    NumericRowParts(row, p, q);
    if |q| > 0 {
      var q' := q[..|q| - 1];
      assert (p + q)[..|p + q| - 1] == p + q';
      RowProductAppend(row, p, q');
    } else {
      assert p + q == p;
    }
  }

  /** Flags the rows on whose reduced value the threshold condition fails:
      `~condition.evaluate(reduced)`. */
  function FlagFailing(t: Table, condition: ThresholdCondition, reduced: seq<Value>): (r: Result<set<int>, Error>)
    requires WellFormed(t) && |reduced| == |t.records|
    requires forall i | 0 <= i < |reduced| :: reduced[i].Num?
    ensures r.Success? <==> |t.records| == 0 || !LacksTolerance(condition)
    ensures r.Success? ==> r.value <= Ids(t)
    ensures r.Success? ==> forall i | 0 <= i < |t.records| ::
      t.records[i].id in r.value <==> !Compare(condition, reduced[i].x)
  {
    var holds :- Evaluate(Threshold(condition), reduced);
    Success(Select(t, seq(|t.records|, i requires 0 <= i < |t.records| => !holds[i])))
  }

  /** The threshold condition is applicable to the reduced column: the
      summed cells are numbers and, on a non-empty table, the tolerance is
      present when the operator takes one. */
  predicate ReducibleWith(t: Table, parameters: seq<string>, condition: ThresholdCondition)
    requires WellFormed(t)
  {
    && HasColumns(t, parameters)
    && NumericCells(t, parameters)
    && (|t.records| == 0 || !LacksTolerance(condition))
  }

  /** `SumConstraint.get_invalid`: a row is invalid when the threshold
      condition fails on the sum of its parameter values. */
  function SumGetInvalid(parameters: seq<string>, condition: ThresholdCondition, t: Table): (r: Result<set<int>, Error>)
    requires WellFormed(t)
    ensures r.Success? <==> ReducibleWith(t, parameters, condition)
    ensures r.Success? ==> r.value <= Ids(t)
    ensures r.Success? ==> forall i | 0 <= i < |t.records| ::
      NumericRow(t.records[i].row, parameters) &&
      (t.records[i].id in r.value <==> !Compare(condition, RowSum(t.records[i].row, parameters)))
  {
    match CheckColumns(t, parameters)
    case Fail(e) => Failure(e)
    case Pass =>
      :- Require(NumericCells(t, parameters), NonNumeric);
      var sums := seq(|t.records|, i requires 0 <= i < |t.records| => Num(RowSum(t.records[i].row, parameters)));
      FlagFailing(t, condition, sums)
  }

  /** `ProductConstraint.get_invalid`: a row is invalid when the threshold
      condition fails on the product of its parameter values. */
  function ProductGetInvalid(parameters: seq<string>, condition: ThresholdCondition, t: Table): (r: Result<set<int>, Error>)
    requires WellFormed(t)
    ensures r.Success? <==> ReducibleWith(t, parameters, condition)
    ensures r.Success? ==> r.value <= Ids(t)
    ensures r.Success? ==> forall i | 0 <= i < |t.records| ::
      NumericRow(t.records[i].row, parameters) &&
      (t.records[i].id in r.value <==> !Compare(condition, RowProduct(t.records[i].row, parameters)))
  {
    match CheckColumns(t, parameters)
    case Fail(e) => Failure(e)
    case Pass =>
      :- Require(NumericCells(t, parameters), NonNumeric);
      var products := seq(|t.records|, i requires 0 <= i < |t.records| => Num(RowProduct(t.records[i].row, parameters)));
      FlagFailing(t, condition, products)
  }

  /** Under `>=` a row whose sum reaches the threshold exactly is kept and a
      row one unit short of it is removed. */
  lemma SumThresholdBoundary(parameters: seq<string>, threshold: real, t: Table, i: int)
    requires WellFormed(t) && 0 <= i < |t.records|
    requires SumGetInvalid(parameters, ThresholdCondition(threshold, Ge, None), t).Success?
    ensures RowSum(t.records[i].row, parameters) == threshold ==>
      t.records[i].id !in SumGetInvalid(parameters, ThresholdCondition(threshold, Ge, None), t).value
    ensures RowSum(t.records[i].row, parameters) == threshold - 1.0 ==>
      t.records[i].id in SumGetInvalid(parameters, ThresholdCondition(threshold, Ge, None), t).value
  {
  }

  /** A candidate with label `id` and the numbers `x` and `y` in columns `x` and `y`. */
  function PointRecord(id: int, x: real, y: real): Record {
    Record(id, map["x" := Num(x), "y" := Num(y)])
  }

  /** The candidates (x, y) of `points`, labelled by their position. */
  function PointTable(points: seq<(real, real)>): Table {
    Table(["x", "y"], seq(|points|, i requires 0 <= i < |points| => PointRecord(i, points[i].0, points[i].1)))
  }

  lemma PointRowSum(id: int, x: real, y: real)
    ensures NumericRow(PointRecord(id, x, y).row, ["x", "y"])
    ensures RowSum(PointRecord(id, x, y).row, ["x", "y"]) == x + y
  {
    var row := PointRecord(id, x, y).row;
    assert ["x", "y"][..1] == ["x"];
    assert ["x"][..0] == [];
    assert RowSum(row, ["x"]) == x;
  }

  lemma PointTableWellFormed(points: seq<(real, real)>)
    ensures WellFormed(PointTable(points))
    ensures forall i | 0 <= i < |points| ::
      NumericRow(PointTable(points).records[i].row, ["x", "y"]) &&
      RowSum(PointTable(points).records[i].row, ["x", "y"]) == points[i].0 + points[i].1
  {
    var t := PointTable(points);
    forall i | 0 <= i < |points|
      ensures t.records[i].row.Keys == (set c | c in t.columns)
      ensures NumericRow(t.records[i].row, ["x", "y"])
      ensures RowSum(t.records[i].row, ["x", "y"]) == points[i].0 + points[i].1
    {
      PointRowSum(i, points[i].0, points[i].1);
    }
  }

  /** The positions of the points whose coordinates sum to less than `threshold`. */
  function ShortOf(points: seq<(real, real)>, threshold: real): set<int> {
    set i | 0 <= i < |points| && points[i].0 + points[i].1 < threshold
  }

  /** A set of labels of a point table that holds exactly the rows falling
      short of the threshold is the set of their positions. */
  lemma PointsFlagged(points: seq<(real, real)>, threshold: real, r: set<int>)
    requires r <= Ids(PointTable(points))
    requires forall i | 0 <= i < |points| :: PointTable(points).records[i].id in r <==> points[i].0 + points[i].1 < threshold
    ensures r == ShortOf(points, threshold)
  {
    var t := PointTable(points);
    forall i | i in r ensures i in ShortOf(points, threshold) {
      var j :| 0 <= j < |t.records| && t.records[j].id == i;
    }
  }

  /** Under `x + y >= threshold` the candidates removed are exactly those
      whose sum falls short of the threshold. */
  lemma PointSumVerdict(points: seq<(real, real)>, threshold: real)
    ensures SumGetInvalid(["x", "y"], ThresholdCondition(threshold, Ge, None), PointTable(points))
         == Success(ShortOf(points, threshold))
  {
    var t := PointTable(points);
    PointTableWellFormed(points);
    var condition := ThresholdCondition(threshold, Ge, None);
    assert ReducibleWith(t, ["x", "y"], condition);
    var r := SumGetInvalid(["x", "y"], condition, t).value;
    forall i | 0 <= i < |points| ensures t.records[i].id in r <==> points[i].0 + points[i].1 < threshold {
    }
    PointsFlagged(points, threshold, r);
  }

  /** Three candidates (x, y) = (0, 1), (2, 1), (1, 2) under `x + y >= 2`:
      only the first is removed. */
  lemma SumExample()
    ensures SumGetInvalid(["x", "y"], ThresholdCondition(2.0, Ge, None), PointTable([(0.0, 1.0), (2.0, 1.0), (1.0, 2.0)]))
         == Success({0})
  {
    var points := [(0.0, 1.0), (2.0, 1.0), (1.0, 2.0)];
    PointSumVerdict(points, 2.0);
    assert 0 in ShortOf(points, 2.0);
    assert ShortOf(points, 2.0) == {0};
  }

  /** A zero among the factors makes the whole product zero. */
  lemma {:induction false} ZeroFactor(row: Row, parameters: seq<string>, k: int)
    requires NumericRow(row, parameters) && 0 <= k < |parameters| && row[parameters[k]] == Num(0.0)
    ensures RowProduct(row, parameters) == 0.0
  {
    var front := parameters[..|parameters| - 1];
    assert NumericRow(row, front) by {
      forall m | 0 <= m < |front| ensures front[m] in row && row[front[m]].Num? {
        assert front[m] == parameters[m];
      }
    }
    if k < |parameters| - 1 {
      assert front[k] == parameters[k];
      ZeroFactor(row, front, k);
    }
  }

  /** Under `product > 0` every row with a zero among its parameter values
      is removed. */
  lemma ZeroFactorRemoved(parameters: seq<string>, t: Table, i: int, k: int)
    requires WellFormed(t) && 0 <= i < |t.records| && 0 <= k < |parameters|
    requires ProductGetInvalid(parameters, ThresholdCondition(0.0, Gt, None), t).Success?
    requires t.records[i].row[parameters[k]] == Num(0.0)
    ensures t.records[i].id in ProductGetInvalid(parameters, ThresholdCondition(0.0, Gt, None), t).value
  {
    ZeroFactor(t.records[i].row, parameters, k);
  }

  // ---------------------------------------------------------------------
  // Label duplicates and linked parameters

  /** `NoLabelDuplicatesConstraint.get_invalid`: a row is invalid when its
      number of distinct values differs from the number of parameters, that
      is, when some value repeats. */
  function NoLabelDuplicatesGetInvalid(parameters: seq<string>, t: Table): (r: Result<set<int>, Error>)
    requires WellFormed(t)
    ensures r.Success? <==> HasColumns(t, parameters)
    ensures r.Failure? ==> r.error.MissingColumn?
    ensures r.Success? ==> r.value <= Ids(t)
    ensures r.Success? ==> forall i | 0 <= i < |t.records| ::
      t.records[i].id in r.value <==> !NoDup(RowValues(t.records[i].row, parameters))
  {
    match CheckColumns(t, parameters)
    case Fail(e) => Failure(e)
    case Pass =>
      var mask := seq(|t.records|, i requires 0 <= i < |t.records| =>
        DistinctCount(RowValues(t.records[i].row, parameters)) != |parameters|);
      assert forall i | 0 <= i < |t.records| :: mask[i] <==> !NoDup(RowValues(t.records[i].row, parameters)) by {
        forall i | 0 <= i < |t.records| ensures mask[i] <==> !NoDup(RowValues(t.records[i].row, parameters)) {
          DistinctCountFull(RowValues(t.records[i].row, parameters));
        }
      }
      Success(Select(t, mask))
  }

  const LabelParameters: seq<string> := ["p1", "p2", "p3", "p4"]

  /** A one-row table over four label parameters `p1` to `p4`. */
  function LabelTable(a: string, b: string, c: string, d: string): Table {
    Table(LabelParameters, [Record(0, map["p1" := Label(a), "p2" := Label(b), "p3" := Label(c), "p4" := Label(d)])])
  }

  /** On a one-row table the row is removed exactly when it repeats a label. */
  lemma OneRowLabelVerdict(parameters: seq<string>, t: Table)
    requires WellFormed(t) && HasColumns(t, parameters) && |t.records| == 1
    ensures NoLabelDuplicatesGetInvalid(parameters, t)
         == Success(if NoDup(RowValues(t.records[0].row, parameters)) then {} else {t.records[0].id})
  {
    var r := NoLabelDuplicatesGetInvalid(parameters, t).value;
    assert Ids(t) == {t.records[0].id};
    if NoDup(RowValues(t.records[0].row, parameters)) {
      NoneSelected(t, r);
    } else {
      assert t.records[0].id in r;
      assert r <= {t.records[0].id};
      assert r == {t.records[0].id};
    }
  }

  lemma LabelTableWellFormed(a: string, b: string, c: string, d: string)
    ensures WellFormed(LabelTable(a, b, c, d)) && HasColumns(LabelTable(a, b, c, d), LabelParameters)
  {
    var t := LabelTable(a, b, c, d);
    assert t.records[0].row.Keys == {"p1", "p2", "p3", "p4"};
    assert (set c | c in t.columns) == {"p1", "p2", "p3", "p4"};
  }

  /** The one labelled row is removed exactly when its four labels repeat one. */
  lemma LabelVerdict(a: string, b: string, c: string, d: string)
    ensures NoLabelDuplicatesGetInvalid(LabelParameters, LabelTable(a, b, c, d))
         == Success(if NoDup([Label(a), Label(b), Label(c), Label(d)]) then {} else {0})
  {
    var t := LabelTable(a, b, c, d);
    LabelTableWellFormed(a, b, c, d);
    LabelRowValues(a, b, c, d);
    OneRowLabelVerdict(LabelParameters, t);
  }

  lemma LabelRowValues(a: string, b: string, c: string, d: string)
    ensures RowValues(LabelTable(a, b, c, d).records[0].row, LabelParameters) == [Label(a), Label(b), Label(c), Label(d)]
  {
  }

  /** A,B,C,D remains. */
  lemma DistinctLabelsKept()
    ensures NoLabelDuplicatesGetInvalid(LabelParameters, LabelTable("A", "B", "C", "D")) == Success({})
  {
    LabelVerdict("A", "B", "C", "D");
    assert NoDup([Label("A"), Label("B"), Label("C"), Label("D")]);
  }

  /** A labelled row with two equal labels is removed, whatever their
      positions: A,A,B,C, A,A,B,B, A,A,B,A, A,C,A,C and A,C,B,C all are. */
  lemma RepeatedLabelRemoved(a: string, b: string, c: string, d: string, m: int, n: int)
    requires 0 <= m < n < 4 && [a, b, c, d][m] == [a, b, c, d][n]
    ensures NoLabelDuplicatesGetInvalid(LabelParameters, LabelTable(a, b, c, d)) == Success({0})
  {
    LabelVerdict(a, b, c, d);
    var values := [Label(a), Label(b), Label(c), Label(d)];
    assert values[m] == values[n];
  }

  /** `LinkedParametersConstraint.get_invalid`: a row is invalid unless it
      has exactly one distinct value, that is, unless there are parameters
      and they all carry the same value. */
  function LinkedParametersGetInvalid(parameters: seq<string>, t: Table): (r: Result<set<int>, Error>)
    requires WellFormed(t)
    ensures r.Success? <==> HasColumns(t, parameters)
    ensures r.Success? ==> r.value <= Ids(t)
    ensures r.Success? ==> forall i | 0 <= i < |t.records| ::
      t.records[i].id in r.value <==>
        !(|parameters| > 0 && forall k | 0 <= k < |parameters| :: t.records[i].row[parameters[k]] == t.records[i].row[parameters[0]])
  {
    match CheckColumns(t, parameters)
    case Fail(e) => Failure(e)
    case Pass =>
      var mask := seq(|t.records|, i requires 0 <= i < |t.records| =>
        DistinctCount(RowValues(t.records[i].row, parameters)) != 1);
      assert forall i | 0 <= i < |t.records| :: mask[i] <==>
        !(|parameters| > 0 && forall k | 0 <= k < |parameters| :: t.records[i].row[parameters[k]] == t.records[i].row[parameters[0]]) by {
        forall i | 0 <= i < |t.records| ensures mask[i] <==>
          !(|parameters| > 0 && forall k | 0 <= k < |parameters| :: t.records[i].row[parameters[k]] == t.records[i].row[parameters[0]])
        {
          DistinctCountOne(RowValues(t.records[i].row, parameters));
        }
      }
      Success(Select(t, mask))
  }

  // ---------------------------------------------------------------------
  // Permutation invariance

  /** The row of `df_eval`: the other columns unchanged, the parameters as a frozenset. */
  datatype PermutationKey = PermutationKey(others: seq<Value>, members: set<Value>)

  function KeyOf(columns: seq<string>, parameters: seq<string>, row: Row): (r: PermutationKey)
    requires forall c | c in columns :: c in row
    requires forall p | p in parameters :: p in row
    ensures forall v :: v in r.members <==> exists p | p in parameters :: row[p] == v
  {
    var others := OtherColumns(columns, [], parameters);
    PermutationKey(RowValues(row, others), Elements(RowValues(row, parameters)))
  }

  predicate LabelDuplicated(row: Row, parameters: seq<string>)
    requires forall p | p in parameters :: p in row
  {
    !NoDup(RowValues(row, parameters))
  }

  function PermutationKeys(t: Table, parameters: seq<string>): (r: seq<PermutationKey>)
    requires WellFormed(t) && HasColumns(t, parameters)
    ensures |r| == |t.records|
    ensures forall i | 0 <= i < |t.records| :: r[i] == KeyOf(t.columns, parameters, t.records[i].row)
  {
    seq(|t.records|, i requires 0 <= i < |t.records| => KeyOf(t.columns, parameters, t.records[i].row))
  }

  /** The first two stages: rows with label duplicates, and among the other
      rows those whose key repeats an earlier such row's key. */
  function InvalidPermutations(parameters: seq<string>, t: Table): (r: set<int>)
    requires WellFormed(t) && HasColumns(t, parameters)
    ensures r <= Ids(t)
    ensures forall i | 0 <= i < |t.records| ::
      t.records[i].id in r <==>
        || LabelDuplicated(t.records[i].row, parameters)
        || exists j | 0 <= j < i ::
             && !LabelDuplicated(t.records[j].row, parameters)
             && PermutationKeys(t, parameters)[j] == PermutationKeys(t, parameters)[i]
  {
    var labelMask := LabelDuplicateMask(parameters, t);
    var keys := PermutationKeys(t, parameters);
    var free := seq(|t.records|, i requires 0 <= i < |t.records| => !labelMask[i]);
    var permutationMask := DuplicatedAmong(keys, free);
    var r := Select(t, labelMask) + Select(t, permutationMask);
    InvalidPermutationsMasks(parameters, t, labelMask, free, permutationMask, r);
    r
  }

  /** The flags of the two stages, read row by row. */
  lemma InvalidPermutationsMasks(parameters: seq<string>, t: Table, labelMask: seq<bool>, free: seq<bool>, permutationMask: seq<bool>, r: set<int>)
    requires WellFormed(t) && HasColumns(t, parameters)
    requires |labelMask| == |free| == |permutationMask| == |t.records|
    requires forall i | 0 <= i < |t.records| :: labelMask[i] == LabelDuplicated(t.records[i].row, parameters)
    requires forall i | 0 <= i < |t.records| :: free[i] == !labelMask[i]
    requires permutationMask == DuplicatedAmong(PermutationKeys(t, parameters), free)
    requires forall i | 0 <= i < |t.records| :: t.records[i].id in r <==> labelMask[i] || permutationMask[i]
    ensures forall i | 0 <= i < |t.records| ::
      t.records[i].id in r <==>
        || LabelDuplicated(t.records[i].row, parameters)
        || exists j | 0 <= j < i ::
             && !LabelDuplicated(t.records[j].row, parameters)
             && PermutationKeys(t, parameters)[j] == PermutationKeys(t, parameters)[i]
  {
    var keys := PermutationKeys(t, parameters);
    forall i | 0 <= i < |t.records|
      ensures permutationMask[i] <==>
        && !LabelDuplicated(t.records[i].row, parameters)
        && exists j | 0 <= j < i :: !LabelDuplicated(t.records[j].row, parameters) && keys[j] == keys[i]
    {
      if permutationMask[i] {
        var j :| 0 <= j < i && free[j] && keys[j] == keys[i];
        assert !LabelDuplicated(t.records[j].row, parameters);
      }
      if !LabelDuplicated(t.records[i].row, parameters) && exists j | 0 <= j < i :: !LabelDuplicated(t.records[j].row, parameters) && keys[j] == keys[i] {
        var j :| 0 <= j < i && !LabelDuplicated(t.records[j].row, parameters) && keys[j] == keys[i];
        assert free[j];
      }
    }
  }

  /** The rows the label-duplicate stage flags, as a mask over the records. */
  function LabelDuplicateMask(parameters: seq<string>, t: Table): (r: seq<bool>)
    requires WellFormed(t) && HasColumns(t, parameters)
    ensures |r| == |t.records|
    ensures forall i | 0 <= i < |t.records| :: r[i] == LabelDuplicated(t.records[i].row, parameters)
  {
    var labels := NoLabelDuplicatesGetInvalid(parameters, t).value;
    seq(|t.records|, i requires 0 <= i < |t.records| => t.records[i].id in labels)
  }

  /** `PermutationInvarianceConstraint.get_invalid`: the first two stages,
      then the attached dependencies, evaluated permutation invariantly on
      the rows not yet flagged. */
  function PermutationInvarianceGetInvalid(parameters: seq<string>, nested: Option<DependenciesConstraint>, t: Table): (r: Result<set<int>, Error>)
    requires WellFormed(t)
    requires nested.Some? ==> ValidDependencies(nested.value)
    ensures r.Success? <==>
      && HasColumns(t, parameters)
      && (|parameters| > 0 || |t.records| == 0)
      && (nested.Some? ==> Applicable(nested.value, Drop(t, InvalidPermutations(parameters, t))))
    ensures r.Success? ==> InvalidPermutations(parameters, t) <= r.value <= Ids(t)
    ensures r.Success? && nested.None? ==> r.value == InvalidPermutations(parameters, t)
    ensures r.Success? && nested.Some? ==>
      r.value == InvalidPermutations(parameters, t) + GetInvalid(nested.value, Drop(t, InvalidPermutations(parameters, t)), true).value
    ensures HasColumns(t, parameters) && |parameters| == 0 && |t.records| > 0 ==> r == Failure(EmptyRowApply)
  {
    match CheckColumns(t, parameters)
    case Fail(e) => Failure(e)
    case Pass =>
      :- CheckRowApply(t, parameters);
      var invalid := InvalidPermutations(parameters, t);
      match nested
      case None => Success(invalid)
      case Some(d) =>
        var extra :- GetInvalid(d, Drop(t, invalid), true);
        Success(invalid + extra)
  }

  /** Rows whose parameter values form the same set either both have label
      duplicates or both have none. */
  lemma KeysOfEqualElementsAgreeOnDuplicates(parameters: seq<string>, ri: Row, rj: Row)
    requires forall p | p in parameters :: p in ri && p in rj
    requires Elements(RowValues(ri, parameters)) == Elements(RowValues(rj, parameters))
    ensures LabelDuplicated(ri, parameters) <==> LabelDuplicated(rj, parameters)
  {
    DistinctCountFull(RowValues(ri, parameters));
    DistinctCountFull(RowValues(rj, parameters));
  }

  /** Two rows free of label duplicates that agree on every other column and
      whose parameter values are permutations of each other collide: the
      later one is flagged. Conversely, a flagged row free of label
      duplicates has such an earlier partner. */
  lemma PermutedRowsCollide(parameters: seq<string>, t: Table, j: int)
    requires WellFormed(t) && HasColumns(t, parameters)
    requires 0 <= j < |t.records| && !LabelDuplicated(t.records[j].row, parameters)
    ensures t.records[j].id in InvalidPermutations(parameters, t) <==>
      exists i | 0 <= i < j ::
        && !LabelDuplicated(t.records[i].row, parameters)
        && multiset(RowValues(t.records[i].row, parameters)) == multiset(RowValues(t.records[j].row, parameters))
        && forall c | c in t.columns && c !in parameters :: t.records[i].row[c] == t.records[j].row[c]
  {
    var keys := PermutationKeys(t, parameters);
    var others := OtherColumns(t.columns, [], parameters);
    var rj := t.records[j].row;
    forall i | 0 <= i < j && !LabelDuplicated(t.records[i].row, parameters)
      ensures keys[i] == keys[j] <==>
        && multiset(RowValues(t.records[i].row, parameters)) == multiset(RowValues(rj, parameters))
        && forall c | c in t.columns && c !in parameters :: t.records[i].row[c] == rj[c]
    {
      var ri := t.records[i].row;
      SetsMatchIffMultisetsMatch(RowValues(ri, parameters), RowValues(rj, parameters));
      if forall c | c in t.columns && c !in parameters :: ri[c] == rj[c] {
        assert RowValues(ri, others) == RowValues(rj, others);
      }
      if RowValues(ri, others) == RowValues(rj, others) {
        forall c | c in t.columns && c !in parameters ensures ri[c] == rj[c] {
          var m :| 0 <= m < |others| && others[m] == c;
          assert RowValues(ri, others)[m] == RowValues(rj, others)[m];
        }
      }
    }
  }

  /** Of every group of rows free of label duplicates that share a key, the
      first one is kept. */
  lemma PermutationRepresentativeKept(parameters: seq<string>, t: Table, i: int)
    requires WellFormed(t) && HasColumns(t, parameters)
    requires 0 <= i < |t.records| && !LabelDuplicated(t.records[i].row, parameters)
    ensures exists j | 0 <= j <= i ::
      && PermutationKeys(t, parameters)[j] == PermutationKeys(t, parameters)[i]
      && t.records[j].id !in InvalidPermutations(parameters, t)
  {
    var keys := PermutationKeys(t, parameters);
    var mask := seq(|t.records|, m requires 0 <= m < |t.records| => !LabelDuplicated(t.records[m].row, parameters));
    KeptRepresentative(keys, mask, i);
    var j :| 0 <= j <= i && mask[j] && keys[j] == keys[i] && !DuplicatedAmong(keys, mask)[j];
    forall m | 0 <= m < j && !LabelDuplicated(t.records[m].row, parameters) ensures keys[m] != keys[j] {
      assert mask[m];
    }
    assert !LabelDuplicated(t.records[j].row, parameters);
  }

  /** Once a superset of the first two stages' rows is removed, those stages
      flag nothing. */
  lemma InvalidPermutationsCleared(parameters: seq<string>, t: Table, s: set<int>)
    requires WellFormed(t) && HasColumns(t, parameters)
    requires InvalidPermutations(parameters, t) <= s
    ensures InvalidPermutations(parameters, Drop(t, s)) == {}
  {
    var invalid := InvalidPermutations(parameters, t);
    var t' := Drop(t, s);
    var keys, keys' := PermutationKeys(t, parameters), PermutationKeys(t', parameters);
    forall i, j | 0 <= i < j < |t.records| && keys[i] == keys[j] ensures t.records[j].id in s {
      KeysOfEqualElementsAgreeOnDuplicates(parameters, t.records[i].row, t.records[j].row);
    }
    DropLeavesDistinctKeys(t, keys, s, t', keys');
    forall a | 0 <= a < |t'.records| ensures t'.records[a].id !in InvalidPermutations(parameters, t') {
      var x := t'.records[a];
      assert x in t.records;
      var i :| 0 <= i < |t.records| && t.records[i] == x;
      assert t.records[i].id !in invalid;
    }
    NoneSelected(t', InvalidPermutations(parameters, t'));
  }

  /** Removing the rows the constraint flags leaves a table on which it flags
      nothing. */
  lemma PermutationInvarianceIdempotent(parameters: seq<string>, nested: Option<DependenciesConstraint>, t: Table)
    requires WellFormed(t) && (nested.Some? ==> ValidDependencies(nested.value))
    requires PermutationInvarianceGetInvalid(parameters, nested, t).Success?
    ensures PermutationInvarianceGetInvalid(parameters, nested, Drop(t, PermutationInvarianceGetInvalid(parameters, nested, t).value)) == Success({})
  {
    var invalid := InvalidPermutations(parameters, t);
    var r := PermutationInvarianceGetInvalid(parameters, nested, t).value;
    var t2 := Drop(t, r);
    assert |parameters| > 0 || |t2.records| == 0;
    InvalidPermutationsCleared(parameters, t, r);
    DropNothing(t2);
    if nested.Some? {
      var d := nested.value;
      var t1 := Drop(t, invalid);
      var extra := GetInvalid(d, t1, true).value;
      DropTwice(t, invalid, extra);
      ApplicableOnSubtable(d, t1, extra);
      GetInvalidIdempotent(d, t1, true);
    }
  }

  // ---------------------------------------------------------------------
  // Custom

  /** The row restricted to the parameters: what the validator is applied to. */
  function Restrict(row: Row, parameters: seq<string>): (r: Row)
    ensures r.Keys == row.Keys * (set p | p in parameters)
    ensures forall p | p in r :: r[p] == row[p]
  {
    map p | p in parameters && p in row :: row[p]
  }

  /** `CustomConstraint.get_invalid`: a row is invalid when the validator
      rejects its parameter values. */
  function CustomGetInvalid(parameters: seq<string>, validator: Row -> bool, t: Table): (r: Result<set<int>, Error>)
    requires WellFormed(t)
    ensures r.Success? <==> HasColumns(t, parameters)
    ensures r.Success? ==> r.value <= Ids(t)
    ensures r.Success? ==> forall i | 0 <= i < |t.records| ::
      t.records[i].id in r.value <==> !validator(Restrict(t.records[i].row, parameters))
  {
    match CheckColumns(t, parameters)
    case Fail(e) => Failure(e)
    case Pass =>
      Success(Select(t, seq(|t.records|, i requires 0 <= i < |t.records| => !validator(Restrict(t.records[i].row, parameters)))))
  }

  // ---------------------------------------------------------------------
  // Filtering is idempotent

  /** Removing the rows an exclusion constraint flags leaves a table on
      which it flags nothing. */
  lemma ExcludeIdempotent(parameters: seq<string>, conditions: seq<Condition>, combiner: Combiner, t: Table)
    requires WellFormed(t) && |conditions| >= 1
    requires ExcludeGetInvalid(parameters, conditions, combiner, t).Success?
    ensures ExcludeGetInvalid(parameters, conditions, combiner, Drop(t, ExcludeGetInvalid(parameters, conditions, combiner, t).value)) == Success({})
  {
    var flagged := ExcludeGetInvalid(parameters, conditions, combiner, t).value;
    var t' := Drop(t, flagged);
    forall m | 0 <= m < |conditions|
      ensures m < |parameters| && parameters[m] in t'.columns && EvaluableOn(conditions[m], Column(t', parameters[m]))
    {
      assert conditions[m] in conditions;
      EvaluableOnSubtable(conditions[m], t, flagged, parameters[m]);
    }
    var r := ExcludeGetInvalid(parameters, conditions, combiner, t').value;
    RowVerdictCleared(t, flagged, r, row =>
      && (forall k | 0 <= k < |conditions| :: parameters[k] in row)
      && FoldRow(combiner, ConditionResults(parameters, conditions, row)));
  }

  /** A table whose rows all come from a table with numeric parameter cells
      has numeric parameter cells too. */
  lemma NumericCellsOnSubtable(t: Table, parameters: seq<string>, s: set<int>)
    requires WellFormed(t) && HasColumns(t, parameters) && NumericCells(t, parameters)
    ensures NumericCells(Drop(t, s), parameters)
  {
    forall a, k | 0 <= a < |Drop(t, s).records| && 0 <= k < |parameters|
      ensures Drop(t, s).records[a].row[parameters[k]].Num?
    {
      var i := SurvivorOrigin(t, s, a);
    }
  }

  lemma SumIdempotent(parameters: seq<string>, condition: ThresholdCondition, t: Table)
    requires WellFormed(t)
    requires SumGetInvalid(parameters, condition, t).Success?
    ensures SumGetInvalid(parameters, condition, Drop(t, SumGetInvalid(parameters, condition, t).value)) == Success({})
  {
    var flagged := SumGetInvalid(parameters, condition, t).value;
    var t' := Drop(t, flagged);
    NumericCellsOnSubtable(t, parameters, flagged);
    if |t'.records| > 0 {
      var i := SurvivorOrigin(t, flagged, 0);
    }
    var r := SumGetInvalid(parameters, condition, t').value;
    RowVerdictCleared(t, flagged, r, row =>
      NumericRow(row, parameters) && !LacksTolerance(condition) && !Compare(condition, RowSum(row, parameters)));
  }

  lemma ProductIdempotent(parameters: seq<string>, condition: ThresholdCondition, t: Table)
    requires WellFormed(t)
    requires ProductGetInvalid(parameters, condition, t).Success?
    ensures ProductGetInvalid(parameters, condition, Drop(t, ProductGetInvalid(parameters, condition, t).value)) == Success({})
  {
    var flagged := ProductGetInvalid(parameters, condition, t).value;
    var t' := Drop(t, flagged);
    NumericCellsOnSubtable(t, parameters, flagged);
    if |t'.records| > 0 {
      var i := SurvivorOrigin(t, flagged, 0);
    }
    var r := ProductGetInvalid(parameters, condition, t').value;
    RowVerdictCleared(t, flagged, r, row =>
      NumericRow(row, parameters) && !LacksTolerance(condition) && !Compare(condition, RowProduct(row, parameters)));
  }

  lemma NoLabelDuplicatesIdempotent(parameters: seq<string>, t: Table)
    requires WellFormed(t)
    requires NoLabelDuplicatesGetInvalid(parameters, t).Success?
    ensures NoLabelDuplicatesGetInvalid(parameters, Drop(t, NoLabelDuplicatesGetInvalid(parameters, t).value)) == Success({})
  {
    var flagged := NoLabelDuplicatesGetInvalid(parameters, t).value;
    var r := NoLabelDuplicatesGetInvalid(parameters, Drop(t, flagged)).value;
    RowVerdictCleared(t, flagged, r, row =>
      (forall p | p in parameters :: p in row) && !NoDup(RowValues(row, parameters)));
  }

  lemma LinkedParametersIdempotent(parameters: seq<string>, t: Table)
    requires WellFormed(t)
    requires LinkedParametersGetInvalid(parameters, t).Success?
    ensures LinkedParametersGetInvalid(parameters, Drop(t, LinkedParametersGetInvalid(parameters, t).value)) == Success({})
  {
    var flagged := LinkedParametersGetInvalid(parameters, t).value;
    var r := LinkedParametersGetInvalid(parameters, Drop(t, flagged)).value;
    RowVerdictCleared(t, flagged, r, row =>
      && (forall k | 0 <= k < |parameters| :: parameters[k] in row)
      && !(|parameters| > 0 && forall k | 0 <= k < |parameters| :: row[parameters[k]] == row[parameters[0]]));
  }

  lemma CustomIdempotent(parameters: seq<string>, validator: Row -> bool, t: Table)
    requires WellFormed(t)
    requires CustomGetInvalid(parameters, validator, t).Success?
    ensures CustomGetInvalid(parameters, validator, Drop(t, CustomGetInvalid(parameters, validator, t).value)) == Success({})
  {
    var flagged := CustomGetInvalid(parameters, validator, t).value;
    var r := CustomGetInvalid(parameters, validator, Drop(t, flagged)).value;
    RowVerdictCleared(t, flagged, r, row => !validator(Restrict(row, parameters)));
  }

  // ---------------------------------------------------------------------
  // Dispatch

  /** `get_invalid` of any constraint: the labels it returns are labels of
      the table's own rows. The stand-alone dependencies constraint compares
      affected cells as ordered tuples. */
  function ConstraintGetInvalid(c: Constraint, t: Table): (r: Result<set<int>, Error>)
    requires WellFormed(t) && Valid(c)
    ensures r.Success? ==> r.value <= Ids(t)
  {
    match c
    case Exclude(parameters, conditions, combiner) => ExcludeGetInvalid(parameters, conditions, combiner, t)
    case Sum(parameters, condition) => SumGetInvalid(parameters, condition, t)
    case Product(parameters, condition) => ProductGetInvalid(parameters, condition, t)
    case NoLabelDuplicates(parameters) => NoLabelDuplicatesGetInvalid(parameters, t)
    case LinkedParameters(parameters) => LinkedParametersGetInvalid(parameters, t)
    case Dependent(d) => GetInvalid(d, t, false)
    case PermutationInvariance(parameters, nested) => PermutationInvarianceGetInvalid(parameters, nested, t)
    case Custom(parameters, validator) => CustomGetInvalid(parameters, validator, t)
  }

  /** Every constraint is a filter that is finished after one pass: once the
      rows it flags are dropped, it flags nothing more. */
  lemma ConstraintIdempotent(c: Constraint, t: Table)
    requires WellFormed(t) && Valid(c)
    requires ConstraintGetInvalid(c, t).Success?
    ensures ConstraintGetInvalid(c, Drop(t, ConstraintGetInvalid(c, t).value)) == Success({})
  {
    match c
    case Exclude(parameters, conditions, combiner) => ExcludeIdempotent(parameters, conditions, combiner, t);
    case Sum(parameters, condition) => SumIdempotent(parameters, condition, t);
    case Product(parameters, condition) => ProductIdempotent(parameters, condition, t);
    case NoLabelDuplicates(parameters) => NoLabelDuplicatesIdempotent(parameters, t);
    case LinkedParameters(parameters) => LinkedParametersIdempotent(parameters, t);
    case Dependent(d) => GetInvalidIdempotent(d, t, false);
    case PermutationInvariance(parameters, nested) => PermutationInvarianceIdempotent(parameters, nested, t);
    case Custom(parameters, validator) => CustomIdempotent(parameters, validator, t);
  }
}
