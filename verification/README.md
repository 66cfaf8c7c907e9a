# Constraints on a candidate table

A model of the constraint layer of BayBE (`baybe/constraints.py`). A search
space is a table of candidate experiments. Each constraint looks at some of
its columns (the constraint's `parameters`) and answers `get_invalid`: the
labels of the rows that violate it, or the error the source raises.

The model covers:

- the two condition kinds, which are single-column predicates:
  - threshold conditions, with their seven operators and the tolerance
    default and validator;
  - sub-selection conditions;
- the logical combiners AND, OR and XOR, and the row-wise fold over condition
  masks;
- the eight constraint kinds, with their field validators and `get_invalid`:
  - exclusion;
  - sum and product;
  - no label duplicates;
  - linked parameters;
  - dependencies;
  - permutation invariance;
  - custom;
- creation from a configuration dictionary, where the `type` entry selects
  the variant;
- the fixed order in which constraint kinds are applied.

Files and modules:

| file | module | contents |
|---|---|---|
| `wrappers.dfy` | `Wrappers` | `Option`, `Result`, `Check`, and the error kinds the source raises |
| `tables.dfy` | `Tables` | the candidate table (a pandas frame with a unique row index), and `data[cols]`, `index[mask]` and `drop(index=…)` |
| `duplicates.dfy` | `Duplicates` | `duplicated(keep="first")`, `nunique`, and facts about distinct values |
| `conditions.dfy` | `Conditions` | operators, `_is_not_close`, threshold and sub-selection conditions |
| `combiners.dfy` | `Combiners` | combiners and `reduce` over masks |
| `dependencies.dfy` | `Dependencies` | the dependencies constraint: censoring, pairing, signatures |
| `constraints.dfy` | `Constraints` | the constraint variants, their constructors and `get_invalid` |
| `registry.dfy` | `Registry` | `Condition.create`, `Constraint.create`, `_constraints_order` |

Modelling choices:

- **Tables and numbers.** Cells are exact reals or labels. Row labels are
  unique integers, and a result is the set of labels flagged.
- **Validation at construction.** A constraint exists only after its
  validators accepted it, so every `get_invalid` takes a valid constraint.
  The constructors (`MakeExclude`, …) model the validators, which run in
  field order.
- **Dependency sentinels.** The censoring loop of the dependencies constraint
  creates one fresh sentinel object per governing index `k`. The model
  writes that sentinel as `Irrelevant(k)`: it equals the sentinel of the
  same iteration and nothing else.
- **Permutation invariance of dependencies.** The source mutates the nested
  dependencies object's `permutation_invariant` flag. The model makes the
  flag an explicit argument of `Dependencies.GetInvalid`: `true` when the
  permutation invariance constraint calls it, `false` for a stand-alone
  dependencies constraint.
- **Dependencies validator.** The validator of `affected_parameters`
  (baybe/constraints.py:376-386) compares the number of conditions with the
  number of affected groups. The censoring loop (lines 393-397) reads
  `conditions[k]` once for every governing parameter. The model follows the
  validator (`MakeDependencies`). With fewer conditions than governing
  parameters, the loop reads past the conditions, and the model reports
  that as `IndexOutOfRange`.
- **Dependencies signature.** A governing parameter enters the duplicate
  check only through the affected cells it is paired with (lines 402-413).
  A governing parameter whose group is empty is paired with nothing and is
  dropped from the compared columns. Rows that differ only in such a
  parameter therefore collide. `Dependencies.SameSetting` leaves these
  parameters out for this reason.
- **Tolerance explicitly set to none.** An equality operator (`=`, `==`,
  `!=`) whose tolerance is explicitly none passes the tolerance validator.
  Evaluating it on a non-empty column then fails, because the comparison
  gets no tolerance. The model keeps this as the `MissingTolerance` error.

## Model

| member | source | states |
|---|---|---|
| `Conditions.ParseOperator` | baybe/constraints.py:94-102 | exactly the seven operator symbols are accepted, each read back to its own symbol; any other string fails with `InvalidOperator` naming it |
| `Conditions.ParseSymbol` | baybe/constraints.py:94-102 | every operator is recognised from its own symbol |
| `Conditions.MakeThreshold` | baybe/constraints.py:124-143 | construction succeeds iff the operator is known and, when it is not an equality operator, no tolerance is given. An unknown operator fails with `InvalidOperator`, a tolerance on a non-equality operator with `ToleranceNotAllowed`. The result keeps the threshold and operator and takes the given tolerance or the operator's default |
| `Conditions.MakeThresholdComplete` | baybe/constraints.py:124-143 | every valid threshold condition is rebuilt from its own fields |
| `Conditions.Compare` | baybe/constraints.py:94-105 | `=` and `==` hold iff the value is within the tolerance of the threshold, `!=` iff it is farther; the order operators compare exactly |
| `Conditions.IsNotClose` | baybe/constraints.py:45-47 | with no relative tolerance, two numbers are not close iff they are farther apart than the absolute tolerance, in either order; a number is always close to itself under non-negative tolerances |
| `Conditions.NotEqualIsNegation` | baybe/constraints.py:45-47 | `=` and `==` agree, and `!=` is their exact negation for every value and tolerance |
| `Conditions.Evaluate` | baybe/constraints.py:145-174 | a threshold condition fails with `NonNumeric` on a non-numeric column and with `MissingTolerance` on a non-empty column when the equality operator has no tolerance; otherwise both kinds give one result per cell, the condition on that cell |
| `Conditions.DefaultEqualityWithinTolerance` | baybe/constraints.py:128-157 | a `==` condition with the default tolerance holds on a value iff the value is within 1e-8 of the threshold |
| `Conditions.SelectionOrderIrrelevant` | baybe/constraints.py:172-174 | a sub-selection depends only on the set of selected values, not on their order or repeats |
| `Combiners.ParseCombiner` | baybe/constraints.py:107-111 | exactly `AND`, `OR` and `XOR` are accepted; any other name fails with `InvalidCombiner` |
| `Combiners.ParseCombinerName` | baybe/constraints.py:107-111 | every combiner is recognised from its own name |
| `Combiners.CombineLaws` | baybe/constraints.py:107-111 | each of `and_`, `or_` and `xor` is commutative and associative, with identity true for AND and false for OR and XOR |
| `Combiners.ReduceMasks` | baybe/constraints.py:252-256 | reducing whole masks equals folding each row's condition results on its own |
| `Combiners.FoldAnd` | baybe/constraints.py:107-111 | AND over a row is true iff every condition holds |
| `Combiners.FoldOr` | baybe/constraints.py:107-111 | OR over a row is true iff some condition holds |
| `Combiners.FoldXor` | baybe/constraints.py:107-111 | XOR over a row is true iff an odd number of conditions hold |
| `Combiners.SingleMaskAnyCombiner` | baybe/constraints.py:256 | a single mask is returned unchanged whatever the combiner |
| `Tables.Select` | baybe/constraints.py:257 | `index[mask]` holds exactly the labels of the rows the mask selects |
| `Tables.CheckRowApply` | baybe/constraints.py:415-417 | a row-wise `apply` of `tuple` or `frozenset` passes iff there is a column to apply to or no row; otherwise it fails with `EmptyRowApply`, because pandas cannot turn the empty result into one value per row |
| `Tables.CheckColumns` | baybe/constraints.py:278 | `data[parameters]` succeeds iff every parameter is a column; otherwise it fails with a missing-column error naming a parameter that is not a column |
| `Tables.OtherColumns` | baybe/constraints.py:411-413 | a column is kept iff it is neither an affected nor a governing parameter |
| `Tables.Drop` | baybe/constraints.py:486-488 | dropping labels keeps the columns and exactly the records with other labels, and the labels left are the old ones minus the dropped ones |
| `Tables.DropKeepsOrder` | baybe/constraints.py:486-488 | the records that stay keep their order: dropping from a concatenation drops from each part, and one record stays iff its label is not dropped |
| `Tables.DropTwice` | baybe/constraints.py:483-489 | dropping two label sets in turn equals dropping their union |
| `Duplicates.Duplicated` | baybe/constraints.py:423 | `duplicated(keep="first")` flags a position iff an earlier position has an equal key |
| `Duplicates.DuplicatedAmong` | baybe/constraints.py:463-473 | duplicates among the selected rows only: a selected position is flagged iff an earlier selected position has an equal key |
| `Duplicates.KeptRepresentative` | baybe/constraints.py:473 | every key of a selected row survives at an unflagged selected row at or before it |
| `Duplicates.DistinctCountFull` | baybe/constraints.py:328 | the number of distinct values equals the length iff no value repeats |
| `Duplicates.DistinctCountOne` | baybe/constraints.py:349 | the number of distinct values is one iff the sequence is non-empty and all its values equal the first |
| `Duplicates.SetsMatchIffMultisetsMatch` | baybe/constraints.py:467 | for rows without repeated values, equal frozensets means the values are permutations of each other |
| `Constraints.ValidateParameters` | baybe/constraints.py:194-201 | the parameter list passes iff its names are pairwise distinct; otherwise it fails with `DuplicateParameters` naming the list |
| `Constraints.MakeExclude` | baybe/constraints.py:246-248 | an exclusion constraint is built iff the parameters are distinct, there is at least one condition and the combiner is known; with distinct parameters and no condition it fails with `TooFewConditions` |
| `Constraints.MakeSum` | baybe/constraints.py:192-201 | a sum constraint is built iff the parameters are distinct, and keeps its fields |
| `Constraints.MakeProduct` | baybe/constraints.py:192-201 | a product constraint is built iff the parameters are distinct, and keeps its fields |
| `Constraints.MakeNoLabelDuplicates` | baybe/constraints.py:192-201 | built iff the parameters are distinct |
| `Constraints.MakeLinkedParameters` | baybe/constraints.py:192-201 | built iff the parameters are distinct |
| `Constraints.MakeDependencies` | baybe/constraints.py:369-386 | built iff the parameters are distinct and there are as many conditions as affected groups; fails with `ConditionCountMismatch` otherwise |
| `Constraints.MakePermutationInvariance` | baybe/constraints.py:192-201 | built iff the parameters are distinct; the nested dependencies constraint is kept as given |
| `Constraints.MakeCustom` | baybe/constraints.py:192-201 | built iff the parameters are distinct |
| `Constraints.ConditionMasks` | baybe/constraints.py:252-255 | condition `k` is read on parameter `k`. The masks exist iff every condition has a parameter, that parameter is a column, and the condition can be evaluated on it. Each mask entry is the condition on that row's cell |
| `Constraints.ExcludeGetInvalid` | baybe/constraints.py:250-257 | succeeds iff every condition can be evaluated on its column; a row is flagged iff the fold of its condition results with the combiner is true |
| `Constraints.ExcludeAnd` | baybe/constraints.py:250-257 | with AND a row is excluded iff every condition holds on it |
| `Constraints.ExcludeOr` | baybe/constraints.py:250-257 | with OR a row is excluded iff some condition holds on it |
| `Constraints.ExcludeXor` | baybe/constraints.py:250-257 | with XOR a row is excluded iff an odd number of conditions hold on it |
| `Constraints.ExcludeSingleCondition` | baybe/constraints.py:252-256 | with one condition the choice of combiner makes no difference |
| `Constraints.FlagFailing` | baybe/constraints.py:278-281 | `~condition.evaluate(reduced)`: a row is flagged iff the threshold comparison fails on its reduced value |
| `Constraints.SumGetInvalid` | baybe/constraints.py:276-281 | succeeds iff the parameters are numeric columns and the condition can be evaluated; a row is flagged iff the condition fails on the sum of its parameter values |
| `Constraints.ProductGetInvalid` | baybe/constraints.py:300-305 | the same with the product of the parameter values |
| `Constraints.RowSumSplit` | baybe/constraints.py:278 | the row sum over a concatenation of parameter lists is the sum of the parts, so swapping the parts does not change it |
| `Constraints.RowProductSplit` | baybe/constraints.py:302 | the row product over a concatenation of parameter lists is the product of the parts, so swapping the parts does not change it |
| `Constraints.ZeroFactor` | baybe/constraints.py:302 | a zero among the parameter values makes the row's product zero |
| `Constraints.ZeroFactorRemoved` | baybe/constraints.py:300-305 | under `product > 0` every row with a zero among its parameter values is removed |
| `Constraints.SumThresholdBoundary` | baybe/constraints.py:276-281 | under `>=` a row whose sum equals the threshold is kept and one whose sum is one short is removed |
| `Constraints.PointSumVerdict` | baybe/constraints.py:276-281 | on a table of points (x, y) under `x + y >= t`, exactly the points whose sum falls short of `t` are removed |
| `Constraints.SumExample` | baybe/constraints.py:276-281 | of (0, 1), (2, 1) and (1, 2) under `x + y >= 2` only the first is removed |
| `Constraints.NoLabelDuplicatesGetInvalid` | baybe/constraints.py:326-330 | succeeds iff the parameters are columns (otherwise a missing-column error); a row is flagged iff some value repeats among its parameter values |
| `Constraints.OneRowLabelVerdict` | baybe/constraints.py:326-330 | on a one-row table the row is removed iff its parameter values repeat one |
| `Constraints.LabelVerdict` | baybe/constraints.py:326-330 | a row of four labels is removed iff two of them are equal |
| `Constraints.DistinctLabelsKept` | baybe/constraints.py:312-313 | A,B,C,D remains |
| `Constraints.RepeatedLabelRemoved` | baybe/constraints.py:312-318 | any row with two equal labels in any two positions is removed (A,A,B,C; A,A,B,B; A,A,B,A; A,C,A,C; A,C,B,C) |
| `Constraints.LinkedParametersGetInvalid` | baybe/constraints.py:347-351 | succeeds iff the parameters are columns; a row is flagged unless there are parameters and all their values equal the first |
| `Constraints.LabelDuplicateMask` | baybe/constraints.py:455-458 | the label-duplicate stage marks exactly the rows with a repeated parameter value |
| `Constraints.InvalidPermutations` | baybe/constraints.py:451-483 | a row is flagged iff it repeats a label, or an earlier row without repeated labels has the same other-column values and the same set of parameter values |
| `Constraints.PermutationInvarianceGetInvalid` | baybe/constraints.py:451-491 | succeeds iff the parameters are columns, the parameter list is non-empty or the table has no rows (otherwise the row-wise `frozenset` over no columns fails with `EmptyRowApply`), and any nested dependencies apply to the table without the first two stages' rows. The result holds those rows, plus the nested constraint's own flags (evaluated as permutation invariant on the remaining rows) when there is a nested constraint |
| `Constraints.KeyOf` | baybe/constraints.py:462-467 | the frozenset part of a row's key holds exactly the values the row has at its parameters |
| `Constraints.KeysOfEqualElementsAgreeOnDuplicates` | baybe/constraints.py:455-472 | rows with the same set of parameter values either both repeat a label or neither does |
| `Constraints.PermutedRowsCollide` | baybe/constraints.py:463-479 | a row without repeated labels is flagged iff an earlier such row agrees on every other column and its parameter values are a permutation of the row's |
| `Constraints.PermutationRepresentativeKept` | baybe/constraints.py:473-479 | of every group of permuted rows without repeated labels, a first representative is kept |
| `Constraints.InvalidPermutationsCleared` | baybe/constraints.py:451-483 | once a superset of the first two stages' rows is dropped, those stages flag nothing |
| `Constraints.PermutationInvarianceIdempotent` | baybe/constraints.py:451-491 | dropping the flagged rows leaves a table on which the constraint flags nothing |
| `Constraints.ExcludeIdempotent` | baybe/constraints.py:250-257 | once the rows an exclusion constraint flags are dropped, it flags nothing on the rest |
| `Constraints.SumIdempotent` | baybe/constraints.py:276-281 | once the rows a sum constraint flags are dropped, it flags nothing on the rest |
| `Constraints.ProductIdempotent` | baybe/constraints.py:300-305 | once the rows a product constraint flags are dropped, it flags nothing on the rest |
| `Constraints.NoLabelDuplicatesIdempotent` | baybe/constraints.py:326-330 | once the rows with repeated labels are dropped, none is flagged |
| `Constraints.LinkedParametersIdempotent` | baybe/constraints.py:347-351 | once the rows with differing linked values are dropped, none is flagged |
| `Constraints.CustomIdempotent` | baybe/constraints.py:508-512 | once the rows the validator rejects are dropped, none is flagged |
| `Constraints.Restrict` | baybe/constraints.py:510 | the row seen by a custom validator has exactly the parameter columns, with the row's values |
| `Constraints.CustomGetInvalid` | baybe/constraints.py:508-512 | succeeds iff the parameters are columns; a row is flagged iff the validator rejects its parameter values |
| `Constraints.ConstraintGetInvalid` | baybe/constraints.py:219-233 | every constraint kind returns only labels of the table's own rows |
| `Constraints.ConstraintIdempotent` | baybe/constraints.py:219-233 | for every constraint kind, dropping the rows `get_invalid` returns leaves a table on which it returns nothing |
| `Dependencies.Flatten` | baybe/constraints.py:410 | a name is among the flattened affected parameters iff some group holds it |
| `Dependencies.CheckGoverning` | baybe/constraints.py:393-397 | the censoring loop runs through iff every governing parameter has a condition and a column on which that condition can be evaluated |
| `Dependencies.CheckGoverningKept` | baybe/constraints.py:411-413 | the drop of the governing parameters succeeds iff each is a column that is not also an affected parameter |
| `Dependencies.CensorMeaning` | baybe/constraints.py:392-397 | a cell keeps its value iff no failing condition governs it; otherwise it holds the sentinel of the last failing condition whose group holds it |
| `Dependencies.CensorCellResult` | baybe/constraints.py:393-397 | the censoring loop from any index on leaves a cell as it is iff no failing condition from that index on governs it; otherwise the cell holds the sentinel of the last such condition |
| `Dependencies.CensorCellGoverning` | baybe/constraints.py:393-397 | the censoring of a cell reads the row only at the governing parameters of the groups that list the cell |
| `Dependencies.CensorCellAgree` | baybe/constraints.py:393-397 | two values a cell may hold end up equal after the loop if they were equal already or a failing condition from this index on governs the cell |
| `Dependencies.PairGroup` | baybe/constraints.py:402-406 | when the governing column is not in its own group, each column ends up paired with the governing cell once for each time the group lists it |
| `Dependencies.PairFromCell` | baybe/constraints.py:399-406 | when no governing column is affected, the pairing loop leaves each column paired, group by group, with the governing cell of every group that lists it |
| `Dependencies.PairedCellInjective` | baybe/constraints.py:399-406 | pairing loses nothing: equal paired cells come from equal cells, with equal governing cells in every group that lists the column |
| `Dependencies.PairingMeaning` | baybe/constraints.py:399-406 | a column that no group lists is left as it is; an affected column that exactly one group lists, once, becomes the pair of its own cell and that group's governing cell |
| `Dependencies.SameSettingSameSignature` | baybe/constraints.py:388-421 | two rows that agree on every column except the cells a failing condition makes irrelevant and the governing parameters with empty groups get the same signature, as tuples and as sets |
| `Dependencies.SameSignatureSameSetting` | baybe/constraints.py:388-421 | the converse for tuples: rows with the same signature agree on every such column |
| `Dependencies.GetInvalid` | baybe/constraints.py:388-425 | succeeds iff the governing columns can be evaluated, the affected and governing columns exist and are apart, and some column is affected or the table has no rows; when only that last condition fails, the error is `EmptyRowApply` (the row-wise `tuple` or `frozenset` over no columns). A row is flagged iff an earlier row has the same signature |
| `Dependencies.FirstOccurrenceKept` | baybe/constraints.py:423 | every signature survives at an unflagged row at or before its first occurrence |
| `Dependencies.OrderedFlagsImplyUnorderedFlags` | baybe/constraints.py:417-419 | every row flagged when affected cells are compared as tuples is also flagged when they are compared as sets |
| `Dependencies.IrrelevantSettingsCollide` | baybe/constraints.py:388-425 | a later row that differs from an earlier one only in cells whose governing condition fails on it, or in governing parameters with empty groups, is flagged, whether tuples or sets are compared |
| `Dependencies.GetInvalidMeaning` | baybe/constraints.py:388-425 | with tuples compared, a row is flagged iff an earlier row differs from it only in cells whose governing condition fails on it, or in governing parameters with empty groups |
| `Dependencies.SurvivorsDistinct` | baybe/constraints.py:423-425 | the rows that remain after the flagged rows are dropped have pairwise different signatures |
| `Dependencies.ApplicableOnSubtable` | baybe/constraints.py:486-488 | a table on which the constraint can be evaluated still can after rows are dropped |
| `Dependencies.GetInvalidIdempotent` | baybe/constraints.py:388-425 | dropping the flagged rows leaves a table on which nothing is flagged |
| `Registry.ConditionKindOf` | baybe/constraints.py:61-67 | a condition tag is accepted iff it names a condition kind; otherwise it fails with `UnknownType` naming the tag |
| `Registry.CreateCondition` | baybe/constraints.py:61-67 | a missing tag fails with `MissingType` and an unknown tag with `UnknownType`. A created condition is valid, of the kind its tag names, and its configuration holds every configured entry unchanged; the only entry it may add is the tolerance, which then is the operator's default |
| `Registry.ConditionRoundTrip` | baybe/constraints.py:61-67 | creating a condition from its own configuration gives it back |
| `Registry.ConstraintKindOf` | baybe/constraints.py:203-209 | a constraint tag is accepted iff it names a constraint kind; otherwise it fails with `UnknownType` naming the tag |
| `Registry.ConstraintTagParses` | baybe/constraints.py:203-209 | every kind is recognised from its own tag |
| `Registry.ConstructExclude` | baybe/constraints.py:242-248 | arguments that miss a required field or name an unknown one fail with `BadArguments`. What it builds is valid, an exclusion constraint, and its fields are exactly the arguments; without a combiner the result combines with AND |
| `Registry.ConstructReduction` | baybe/constraints.py:269-274 | arguments that miss a required field or name an unknown one fail with `BadArguments`. What it builds is valid, a sum or product constraint, and its fields are exactly the arguments |
| `Registry.ConstructPlain` | baybe/constraints.py:192-201 | arguments that miss a required field or name an unknown one fail with `BadArguments`. What it builds is valid, a label-duplicate or linked-parameters constraint, and its fields are exactly the arguments |
| `Registry.ConstructDependencies` | baybe/constraints.py:369-386 | arguments that miss a required field or name an unknown one fail with `BadArguments`. What it builds is valid, a dependencies constraint, and its fields are exactly the arguments |
| `Registry.ConstructPermutationInvariance` | baybe/constraints.py:442-449 | arguments that miss a required field or name an unknown one fail with `BadArguments`. What it builds is valid, a permutation-invariance constraint, and its fields are exactly the arguments |
| `Registry.ConstructCustom` | baybe/constraints.py:501-506 | arguments that miss a required field or name an unknown one fail with `BadArguments`. What it builds is valid, a custom constraint, and its fields are exactly the arguments |
| `Registry.Construct` | baybe/constraints.py:209 | the constructor of the selected kind builds a valid constraint of that kind whose fields are exactly the arguments, except for a defaulted AND combiner |
| `Registry.CreateConstraint` | baybe/constraints.py:203-209 | a missing tag fails with `MissingType` and an unknown tag with `UnknownType`. A created constraint is valid, of the kind its tag names, and its configuration holds every configured entry unchanged; the only entry it may add is an AND combiner |
| `Registry.ConstructFromFields` | baybe/constraints.py:203-209 | every valid constraint is what its kind's constructor builds from its own fields |
| `Registry.ConstraintRoundTrip` | baybe/constraints.py:203-209 | creating a constraint from its own configuration gives it back |
| `Registry.ExcludeCombinerDefault` | baybe/constraints.py:248 | an exclusion constraint configured without a combiner combines with AND |
| `Registry.OrderIndex` | baybe/constraints.py:33-42 | every kind has exactly one position in the application order |
| `Registry.ConstraintsOrderIsPermutation` | baybe/constraints.py:33-42 | the order lists every constraint kind exactly once, each by a tag that reads back to it, custom first and dependencies last |

## Left out

- The `cattrs` structure and unstructure hooks (baybe/constraints.py:515-519) and the serialization layer behind them. Creation from a configuration is modelled directly by `Registry.CreateConstraint` and `Registry.CreateCondition`.
- The subclass self-registration (`__init_subclass__`, lines 70-75 and 211-216) is replaced by the closed variant types and the tag lookups `ConditionKindOf` and `ConstraintKindOf`.
- Logging and the `eval_during_creation` and `eval_during_modeling` flags: they do not affect `get_invalid`.
- Floating point: cells are exact reals, so there is no NaN, no infinity and no rounding. `numpy.isclose` is modelled as `|x - y| <= atol + rtol * |y|`. Boolean columns are numeric cells.
- Column types are read off the cells: a column is numeric when all its cells are numbers, so an empty column counts as numeric whatever its declared type.
- Duplicate row labels are not modelled: the table's index is unique. The sorting that `Index.union` applies to its result is not modelled: results are sets of labels.
- Sum over an empty parameter list is 0 and product is 1. Summing label columns (pandas concatenates strings) is not modelled: a non-numeric cell makes the sum or product fail with `NonNumeric`.
- Dependencies.GetInvalid: when an affected column is missing, the source may fail during the censoring assignment or afterwards. The model reports it after the governing checks, as a missing column.
- Dependencies.GetInvalidMeaning: the "only if" direction is stated for tuples only. With frozensets, which the permutation-invariance constraint uses, rows whose affected pairs are permuted also collide, so having the same setting is not necessary. `IrrelevantSettingsCollide` states the "if" direction for both.
- The mutation of the nested dependencies object by the permutation-invariance constraint is not modelled as state. The flag it sets is the argument of `Dependencies.GetInvalid`.
- Registry.ConstructReduction: a sum or product configured with a sub-selection condition is rejected with `BadArguments`. The source accepts it, because the field's type annotation is not enforced, and fails only when it is evaluated.
- Registry.CreateCondition: a type tag that is not a string, a threshold that is not a number, an operator that is not a string, a tolerance that is neither a number nor none, or a selection that is not a list all fail with `BadArguments`. The source checks none of these types at construction: a non-string operator fails the operator validator (`InvalidOperator` here), and a non-numeric threshold is accepted and fails only when the condition is evaluated.
- Registry.CreateConstraint: keyword arguments of the wrong type, or a type tag that is not a string, fail with `BadArguments`. The source does not check argument types at construction.
- Constraints.ConstraintGetInvalid: the dispatcher's own contract states only that every kind returns labels of the table. Each kind's own member states what it flags, and `ConstraintIdempotent` states the property shared by all kinds.
- CustomConstraint's validator is a total function from the restricted row to a boolean. An exception raised inside a user validator is not modelled.
- baybe/acquisition/acqfs.py (which uses the search space, not this module) and the example scripts are context files and are not part of this model. Neither is `baybe/utils.py`, which defines the sentinel class and the `check_if_in` helper.
