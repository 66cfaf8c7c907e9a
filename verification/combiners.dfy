/**
  The logical combiners AND, OR and XOR, and the left fold (`reduce`) that
  merges the boolean masks of several conditions into one.
 */
module Combiners {
  import opened Wrappers

  datatype Combiner = And | Or | Xor

  function CombinerName(c: Combiner): string {
    match c
    case And => "AND"
    case Or => "OR"
    case Xor => "XOR"
  }

  /** The `in_` validator on `combiner`. */
  function ParseCombiner(s: string): (r: Result<Combiner, Error>)
    ensures r.Success? ==> CombinerName(r.value) == s
    ensures r.Failure? ==> r.error == InvalidCombiner(s) && forall c: Combiner :: CombinerName(c) != s
  {
    if s == "AND" then Success(And)
    else if s == "OR" then Success(Or)
    else if s == "XOR" then Success(Xor)
    else Failure(InvalidCombiner(s))
  }

  lemma ParseCombinerName(c: Combiner)
    ensures ParseCombiner(CombinerName(c)) == Success(c)
  {
  }

  /** `operator.and_`, `operator.or_` and `operator.xor` on booleans. */
  function Combine(c: Combiner, a: bool, b: bool): bool {
    match c
    case And => a && b
    case Or => a || b
    case Xor => a != b
  }

  /** Each combiner is commutative and associative and has an identity
      (true for AND, false for OR and XOR), so a fold does not depend on how
      the results are grouped. */
  lemma CombineLaws(c: Combiner, a: bool, b: bool, x: bool)
    ensures Combine(c, a, b) == Combine(c, b, a)
    ensures Combine(c, Combine(c, a, b), x) == Combine(c, a, Combine(c, b, x))
    ensures Combine(c, c == And, a) == a
  {
  }

  /** `reduce(combine, bs)` on the results of one row: a left fold. */
  function FoldRow(c: Combiner, bs: seq<bool>): bool
    requires |bs| >= 1
  {
    if |bs| == 1 then bs[0]
    else Combine(c, FoldRow(c, bs[..|bs| - 1]), bs[|bs| - 1])
  }

  /** The `k`-th entry of every mask: the condition results of one row. */
  function RowOf(masks: seq<seq<bool>>, i: nat): (r: seq<bool>)
    requires forall k | 0 <= k < |masks| :: i < |masks[k]|
    ensures |r| == |masks| && forall k | 0 <= k < |masks| :: r[k] == masks[k][i]
  {
    seq(|masks|, k requires 0 <= k < |masks| => masks[k][i])
  }

  predicate SameLength(masks: seq<seq<bool>>, n: nat) {
    forall k | 0 <= k < |masks| :: |masks[k]| == n
  }

  /** `reduce(combine, masks)` over whole columns: pandas combines the masks
      element-wise, so every row is folded on its own. */
  function ReduceMasks(c: Combiner, masks: seq<seq<bool>>, n: nat): (r: seq<bool>)
    requires |masks| >= 1 && SameLength(masks, n)
    ensures |r| == n
    ensures forall i | 0 <= i < n :: r[i] == FoldRow(c, RowOf(masks, i))
  {
    if |masks| == 1 then
      masks[0]
    else
      var front := ReduceMasks(c, masks[..|masks| - 1], n);
      var last := masks[|masks| - 1];
      var r := seq(n, i requires 0 <= i < n => Combine(c, front[i], last[i]));
      assert forall i | 0 <= i < n :: RowOf(masks, i)[..|masks| - 1] == RowOf(masks[..|masks| - 1], i);
      r
  }

  function CountTrue(bs: seq<bool>): nat {
    if |bs| == 0 then 0
    else CountTrue(bs[..|bs| - 1]) + (if bs[|bs| - 1] then 1 else 0)
  }

  /** AND flags a row only if every condition holds on it. */
  lemma {:induction false} FoldAnd(bs: seq<bool>)
    requires |bs| >= 1
    ensures FoldRow(And, bs) <==> forall k | 0 <= k < |bs| :: bs[k]
  {
    if |bs| > 1 {
      FoldAnd(bs[..|bs| - 1]);
      assert forall k | 0 <= k < |bs| - 1 :: bs[..|bs| - 1][k] == bs[k];
    }
  }

  /** OR flags a row if any condition holds on it. */
  lemma {:induction false} FoldOr(bs: seq<bool>)
    requires |bs| >= 1
    ensures FoldRow(Or, bs) <==> exists k | 0 <= k < |bs| :: bs[k]
  {
    if |bs| > 1 {
      FoldOr(bs[..|bs| - 1]);
      assert forall k | 0 <= k < |bs| - 1 :: bs[..|bs| - 1][k] == bs[k];
    }
  }

  /** XOR flags a row exactly when an odd number of conditions hold on it. */
  lemma {:induction false} FoldXor(bs: seq<bool>)
    requires |bs| >= 1
    ensures FoldRow(Xor, bs) <==> CountTrue(bs) % 2 == 1
  {
    if |bs| > 1 {
      FoldXor(bs[..|bs| - 1]);
      assert bs[..|bs| - 1][..|bs| - 2] == bs[..|bs| - 2];
    }
  }

  /** With a single mask the combiner is never applied. */
  lemma SingleMaskAnyCombiner(c: Combiner, m: seq<bool>)
    ensures ReduceMasks(c, [m], |m|) == m
  {
  }
}
