/**
  Conditions: single-column predicates. A threshold condition compares each
  numeric cell with a threshold (approximately, with an absolute tolerance,
  for the equality operators); a sub-selection condition tests membership
  in a list of allowed values.
 */
module Conditions {
  import opened Wrappers
  import opened Tables
  import opened Duplicates

  datatype Operator = Lt | Le | Eq | EqEq | Ne | Gt | Ge

  /** The operator's symbol: the keys of the threshold-operator table. */
  function Symbol(op: Operator): string {
    match op
    case Lt => "<"
    case Le => "<="
    case Eq => "="
    case EqEq => "=="
    case Ne => "!="
    case Gt => ">"
    case Ge => ">="
  }

  /** The `in_` validator on `operator`: only the seven symbols are accepted. */
  function ParseOperator(s: string): (r: Result<Operator, Error>)
    ensures r.Success? ==> Symbol(r.value) == s
    ensures r.Failure? ==> r.error == InvalidOperator(s) && forall op: Operator :: Symbol(op) != s
  {
    if s == "<" then Success(Lt)
    else if s == "<=" then Success(Le)
    else if s == "=" then Success(Eq)
    else if s == "==" then Success(EqEq)
    else if s == "!=" then Success(Ne)
    else if s == ">" then Success(Gt)
    else if s == ">=" then Success(Ge)
    else Failure(InvalidOperator(s))
  }

  /** Every operator is recognised from its own symbol. */
  lemma ParseSymbol(op: Operator)
    ensures ParseOperator(Symbol(op)) == Success(op)
  {
  }

  /** The operators for which a tolerance may be set. */
  predicate TakesTolerance(op: Operator) {
    op == Eq || op == EqEq || op == Ne
  }

  /** The tolerance used for the equality operators when none is given. */
  const DefaultTolerance: real := 0.00000001

  /** How the `tolerance` keyword was supplied to the constructor. */
  datatype ToleranceArg = Unspecified | Given(tolerance: Option<real>)

  datatype ThresholdCondition = ThresholdCondition(threshold: real, op: Operator, tolerance: Option<real>)

  datatype Condition = Threshold(tc: ThresholdCondition) | SubSelection(selection: seq<Value>)

  /** What the tolerance validator admits: no tolerance for `<`, `<=`, `>`, `>=`. */
  predicate ValidThreshold(c: ThresholdCondition) {
    !TakesTolerance(c.op) ==> c.tolerance.None?
  }

  predicate ValidCondition(c: Condition) {
    c.Threshold? ==> ValidThreshold(c.tc)
  }

  /** The tolerance attribute's default: a positive tolerance exactly for the
      operators that take one, so the default always passes the validator. */
  function ToleranceDefault(op: Operator): (r: Option<real>)
    ensures r.Some? <==> TakesTolerance(op)
    ensures r.Some? ==> r.value > 0.0
  {
    if TakesTolerance(op) then Some(DefaultTolerance) else None
  }

  /** Construction of a threshold condition: operator validation, tolerance
      default, tolerance validation. */
  function MakeThreshold(threshold: real, operator: string, tolerance: ToleranceArg): (r: Result<ThresholdCondition, Error>)
    ensures r.Success? <==>
      && ParseOperator(operator).Success?
      && (TakesTolerance(ParseOperator(operator).value) || tolerance == Unspecified || tolerance == Given(None))
    ensures ParseOperator(operator).Failure? ==> r == Failure(InvalidOperator(operator))
    ensures r.Failure? && ParseOperator(operator).Success? ==> r.error == ToleranceNotAllowed
    ensures r.Success? ==>
      && ValidThreshold(r.value)
      && r.value.threshold == threshold
      && Symbol(r.value.op) == operator
    ensures r.Success? && tolerance.Unspecified? ==>
      r.value.tolerance == (if TakesTolerance(r.value.op) then Some(DefaultTolerance) else None)
    ensures r.Success? && tolerance.Given? ==> r.value.tolerance == tolerance.tolerance
  {
    var op :- ParseOperator(operator);
    var tol := match tolerance
      case Unspecified => ToleranceDefault(op)
      case Given(t) => t;
    if !TakesTolerance(op) && tol.Some? then Failure(ToleranceNotAllowed)
    else Success(ThresholdCondition(threshold, op, tol))
  }

  /** Every valid threshold condition is what the constructor builds from its
      own fields. */
  lemma MakeThresholdComplete(c: ThresholdCondition)
    requires ValidThreshold(c)
    ensures MakeThreshold(c.threshold, Symbol(c.op), Given(c.tolerance)) == Success(c)
  {
    ParseSymbol(c.op);
  }

  function Abs(x: real): real {
    if x < 0.0 then -x else x
  }

  /** `numpy.isclose` on exact reals: |x - y| <= atol + rtol * |y|. */
  function IsClose(x: real, y: real, rtol: real, atol: real): bool {
    Abs(x - y) <= atol + rtol * Abs(y)
  }

  /** `_is_not_close`, the counterpart of `numpy.isclose`. */
  function IsNotClose(x: real, y: real, rtol: real, atol: real): (r: bool)
    ensures rtol == 0.0 ==> (r <==> atol < Abs(y - x))
    ensures x == y && 0.0 <= atol && 0.0 <= rtol ==> !r
  {
    !IsClose(x, y, rtol, atol)
  }

  /** The comparison of one number with the threshold, as the operator table
      builds it: relative tolerance 0 and the condition's absolute tolerance
      for the equality operators, exact comparison otherwise. */
  function Compare(c: ThresholdCondition, x: real): (r: bool)
    requires TakesTolerance(c.op) ==> c.tolerance.Some?
    ensures (c.op == Eq || c.op == EqEq) ==> (r <==> Abs(x - c.threshold) <= c.tolerance.value)
    ensures c.op == Ne ==> (r <==> Abs(x - c.threshold) > c.tolerance.value)
    ensures c.op == Lt ==> (r <==> x < c.threshold)
    ensures c.op == Le ==> (r <==> x <= c.threshold)
    ensures c.op == Gt ==> (r <==> x > c.threshold)
    ensures c.op == Ge ==> (r <==> x >= c.threshold)
  {
    match c.op
    case Lt => x < c.threshold
    case Le => x <= c.threshold
    case Eq => IsClose(x, c.threshold, 0.0, c.tolerance.value)
    case EqEq => IsClose(x, c.threshold, 0.0, c.tolerance.value)
    case Ne => IsNotClose(x, c.threshold, 0.0, c.tolerance.value)
    case Gt => x > c.threshold
    case Ge => x >= c.threshold
  }

  /** A tolerance operator whose tolerance was explicitly set to none cannot
      be applied to any number. */
  predicate LacksTolerance(c: ThresholdCondition) {
    TakesTolerance(c.op) && c.tolerance.None?
  }

  /** The truth of a condition on one cell, as `evaluate` computes it
      element-wise once the column passed its checks. */
  function Holds(c: Condition, v: Value): bool {
    match c
    case Threshold(tc) => v.Num? && !LacksTolerance(tc) && Compare(tc, v.x)
    case SubSelection(selection) => v in selection
  }

  predicate Numeric(column: seq<Value>) {
    forall i | 0 <= i < |column| :: column[i].Num?
  }

  /** The column passes the checks `evaluate` makes: threshold conditions need
      a numeric column and, on a non-empty column, a tolerance when their
      operator takes one. */
  predicate EvaluableOn(c: Condition, column: seq<Value>) {
    c.Threshold? ==> Numeric(column) && (|column| > 0 ==> !LacksTolerance(c.tc))
  }

  /** `evaluate`: the condition applied to every cell of a column. */
  function Evaluate(c: Condition, column: seq<Value>): (r: Result<seq<bool>, Error>)
    ensures r.Success? <==> EvaluableOn(c, column)
    ensures r.Failure? ==> c.Threshold? && (r.error == NonNumeric || r.error == MissingTolerance)
    ensures r.Failure? && !Numeric(column) ==> r.error == NonNumeric
    ensures r.Failure? && Numeric(column) ==> r.error == MissingTolerance
    ensures r.Success? ==> |r.value| == |column|
    ensures r.Success? ==> forall i | 0 <= i < |column| :: r.value[i] == Holds(c, column[i])
  {
    match c
    case Threshold(tc) =>
      if !Numeric(column) then Failure(NonNumeric)
      else if |column| > 0 && LacksTolerance(tc) then Failure(MissingTolerance)
      else Success(seq(|column|, i requires 0 <= i < |column| => Compare(tc, column[i].x)))
    case SubSelection(selection) =>
      Success(seq(|column|, i requires 0 <= i < |column| => column[i] in selection))
  }

  /** `=` and `==` are the same operator, and `!=` is the exact negation of
      both for every number and tolerance. */
  lemma NotEqualIsNegation(threshold: real, tolerance: real, x: real)
    ensures Compare(ThresholdCondition(threshold, Eq, Some(tolerance)), x)
         == Compare(ThresholdCondition(threshold, EqEq, Some(tolerance)), x)
    ensures Compare(ThresholdCondition(threshold, Ne, Some(tolerance)), x)
         == !Compare(ThresholdCondition(threshold, EqEq, Some(tolerance)), x)
  {
  }

  /** A default-tolerance `==` condition holds on a one-cell column exactly
      when the cell is within 1e-8 of the threshold. */
  lemma DefaultEqualityWithinTolerance(threshold: real, x: real)
    ensures MakeThreshold(threshold, "==", Unspecified).Success?
    ensures Evaluate(Threshold(MakeThreshold(threshold, "==", Unspecified).value), [Num(x)])
         == Success([Abs(x - threshold) <= 0.00000001])
  {
    var c := MakeThreshold(threshold, "==", Unspecified).value;
    var r := Evaluate(Threshold(c), [Num(x)]).value;
    assert r == [Abs(x - threshold) <= 0.00000001] by {
      assert |r| == 1 && r[0] == Holds(Threshold(c), Num(x));
    }
  }

  /** Only the set of selected values matters: order and repeats in the
      selection list do not change a sub-selection condition. */
  lemma SelectionOrderIrrelevant(s1: seq<Value>, s2: seq<Value>, column: seq<Value>)
    requires Elements(s1) == Elements(s2)
    ensures Evaluate(SubSelection(s1), column) == Evaluate(SubSelection(s2), column)
  {
    var r1, r2 := Evaluate(SubSelection(s1), column).value, Evaluate(SubSelection(s2), column).value;
    forall i | 0 <= i < |column| ensures r1[i] == r2[i] {
      assert column[i] in s1 <==> column[i] in Elements(s1);
      assert column[i] in s2 <==> column[i] in Elements(s2);
    }
    assert r1 == r2;
  }
}
