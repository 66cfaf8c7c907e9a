/**
  Creation from a configuration: the `type` entry selects the variant, the
  other entries are its keyword arguments. Also the fixed order in which
  the constraint types are applied to a search space.
 */
module Registry {
  import opened Wrappers
  import opened Tables
  import opened Conditions
  import opened Combiners
  import opened Dependencies
  import opened Constraints

  /** A keyword argument value of a configuration. */
  datatype Arg =
    | Text(s: string)
    | Number(x: real)
    | Nothing
    | Names(names: seq<string>)
    | Values(values: seq<Value>)
    | NameGroups(groups: seq<seq<string>>)
    | OneCondition(condition: Condition)
    | ConditionList(conditions: seq<Condition>)
    | Nested(dependencies: DependenciesConstraint)
    | Predicate(f: Row -> bool)

  type Config = map<string, Arg>

  /** Condition and constraint objects found in a configuration exist only
      after their own validators accepted them. */
  predicate ArgValid(a: Arg) {
    match a
    case OneCondition(c) => ValidCondition(c)
    case ConditionList(cs) => forall k | 0 <= k < |cs| :: ValidCondition(cs[k])
    case Nested(d) => ValidDependencies(d)
    case _ => true
  }

  predicate ConfigValid(config: Config) {
    forall key | key in config :: ArgValid(config[key])
  }

  /** The keyword arguments name every required field and no unknown one. */
  predicate Fits(args: Config, required: set<string>, optional: set<string>) {
    required <= args.Keys <= required + optional
  }

  // ---------------------------------------------------------------------
  // Conditions

  datatype ConditionKind = ThresholdKind | SubSelectionKind

  function ConditionTag(k: ConditionKind): string {
    match k
    case ThresholdKind => "THRESHOLD"
    case SubSelectionKind => "SUBSELECTION"
  }

  /** The subclass registry lookup behind `check_if_in`. */
  function ConditionKindOf(tag: string): (r: Result<ConditionKind, Error>)
    ensures r.Success? ==> ConditionTag(r.value) == tag
    ensures r.Failure? ==> r.error == UnknownType(tag) && forall k: ConditionKind :: ConditionTag(k) != tag
  {
    if tag == "THRESHOLD" then Success(ThresholdKind)
    else if tag == "SUBSELECTION" then Success(SubSelectionKind)
    else Failure(UnknownType(tag))
  }

  function ConditionKindOfCondition(c: Condition): ConditionKind {
    if c.Threshold? then ThresholdKind else SubSelectionKind
  }

  function ToleranceOf(args: Config): (r: Result<ToleranceArg, Error>)
    ensures "tolerance" !in args ==> r == Success(Unspecified)
    ensures "tolerance" in args && args["tolerance"].Nothing? ==> r == Success(Given(None))
    ensures "tolerance" in args && args["tolerance"].Number? ==> r == Success(Given(Some(args["tolerance"].x)))
    ensures "tolerance" in args && !args["tolerance"].Nothing? && !args["tolerance"].Number? ==> r == Failure(BadArguments)
  {
    if "tolerance" !in args then Success(Unspecified)
    else match args["tolerance"]
      case Nothing => Success(Given(None))
      case Number(x) => Success(Given(Some(x)))
      case _ => Failure(BadArguments)
  }

  /** `Condition.create`: pop the tag, look up the variant, build it from
      the remaining entries. */
  function CreateCondition(config: Config): (r: Result<Condition, Error>)
    ensures "type" !in config ==> r == Failure(MissingType)
    ensures r.Success? ==> ValidCondition(r.value)
    ensures r.Success? ==> config["type"] == Text(ConditionTag(ConditionKindOfCondition(r.value)))
    ensures r.Success? ==> forall key | key in config ::
      key in ConditionConfig(r.value) && ConditionConfig(r.value)[key] == config[key]
    ensures r.Success? ==> forall key | key in ConditionConfig(r.value) && key !in config ::
      && key == "tolerance" && r.value.Threshold?
      && r.value.tc.tolerance == (if TakesTolerance(r.value.tc.op) then Some(DefaultTolerance) else None)
    ensures "type" in config && config["type"].Text? && ConditionKindOf(config["type"].s).Failure? ==>
      r == Failure(UnknownType(config["type"].s))
  {
    if "type" !in config then Failure(MissingType)
    else if !config["type"].Text? then Failure(BadArguments)
    else
      var kind :- ConditionKindOf(config["type"].s);
      var args := config - {"type"};
      match kind
      case ThresholdKind =>
        :- Require(Fits(args, {"threshold", "operator"}, {"tolerance"}), BadArguments);
        :- Require(args["threshold"].Number? && args["operator"].Text?, BadArguments);
        var tolerance :- ToleranceOf(args);
        var c :- MakeThreshold(args["threshold"].x, args["operator"].s, tolerance);
        assert forall key | key in config :: key in ConditionConfig(Threshold(c)) && ConditionConfig(Threshold(c))[key] == config[key] by {
          forall key | key in config
            ensures key in ConditionConfig(Threshold(c)) && ConditionConfig(Threshold(c))[key] == config[key]
          {
            if key != "type" {
              assert key in args;
            }
          }
        }
        Success(Threshold(c))
      case SubSelectionKind =>
        :- Require(Fits(args, {"selection"}, {}), BadArguments);
        :- Require(args["selection"].Values?, BadArguments);
        var c := SubSelection(args["selection"].values);
        assert forall key | key in config :: key in ConditionConfig(c) && ConditionConfig(c)[key] == config[key] by {
          forall key | key in config ensures key in ConditionConfig(c) && ConditionConfig(c)[key] == config[key] {
            if key != "type" {
              assert key in args;
            }
          }
        }
        Success(c)
  }

  /** The configuration a condition unstructures to: its tag and its fields. */
  function ConditionConfig(c: Condition): Config {
    match c
    case Threshold(tc) =>
      map["type" := Text("THRESHOLD"), "threshold" := Number(tc.threshold), "operator" := Text(Symbol(tc.op)),
          "tolerance" := if tc.tolerance.Some? then Number(tc.tolerance.value) else Nothing]
    case SubSelection(selection) =>
      map["type" := Text("SUBSELECTION"), "selection" := Values(selection)]
  }

  /** Creating a condition from its own configuration gives it back. */
  lemma ConditionRoundTrip(c: Condition)
    requires ValidCondition(c)
    ensures CreateCondition(ConditionConfig(c)) == Success(c)
  {
    var config := ConditionConfig(c);
    var args := config - {"type"};
    match c
    case Threshold(tc) =>
      assert args.Keys == {"threshold", "operator", "tolerance"};
      MakeThresholdComplete(tc);
    case SubSelection(_) =>
      assert args.Keys == {"selection"};
  }

  // ---------------------------------------------------------------------
  // Constraints

  datatype ConstraintKind =
    | ExcludeKind | SumKind | ProductKind | NoLabelDuplicatesKind
    | LinkedParametersKind | DependenciesKind | PermutationInvarianceKind | CustomKind

  function ConstraintTag(k: ConstraintKind): string {
    match k
    case ExcludeKind => "EXCLUDE"
    case SumKind => "SUM"
    case ProductKind => "PRODUCT"
    case NoLabelDuplicatesKind => "NO_LABEL_DUPLICATES"
    case LinkedParametersKind => "LINKED_PARAMETERS"
    case DependenciesKind => "DEPENDENCIES"
    case PermutationInvarianceKind => "PERMUTATION_INVARIANCE"
    case CustomKind => "CUSTOM"
  }

  function ConstraintKindOf(tag: string): (r: Result<ConstraintKind, Error>)
    ensures r.Success? ==> ConstraintTag(r.value) == tag
    ensures r.Failure? ==> r.error == UnknownType(tag) && forall k: ConstraintKind :: ConstraintTag(k) != tag
  {
    if tag == "EXCLUDE" then Success(ExcludeKind)
    else if tag == "SUM" then Success(SumKind)
    else if tag == "PRODUCT" then Success(ProductKind)
    else if tag == "NO_LABEL_DUPLICATES" then Success(NoLabelDuplicatesKind)
    else if tag == "LINKED_PARAMETERS" then Success(LinkedParametersKind)
    else if tag == "DEPENDENCIES" then Success(DependenciesKind)
    else if tag == "PERMUTATION_INVARIANCE" then Success(PermutationInvarianceKind)
    else if tag == "CUSTOM" then Success(CustomKind)
    else Failure(UnknownType(tag))
  }

  function KindOf(c: Constraint): ConstraintKind {
    match c
    case Exclude(_, _, _) => ExcludeKind
    case Sum(_, _) => SumKind
    case Product(_, _) => ProductKind
    case NoLabelDuplicates(_) => NoLabelDuplicatesKind
    case LinkedParameters(_) => LinkedParametersKind
    case Dependent(_) => DependenciesKind
    case PermutationInvariance(_, _) => PermutationInvarianceKind
    case Custom(_, _) => CustomKind
  }

  /** What the constructor of a variant guarantees: a valid constraint of
      that variant whose fields are exactly the keyword arguments, except
      that an exclusion constraint configured without a combiner combines
      with AND. */
  ghost predicate Builds(args: Config, kind: ConstraintKind, r: Result<Constraint, Error>) {
    r.Success? ==>
      && Valid(r.value)
      && KindOf(r.value) == kind
      && "parameters" in args
      && (forall key | key in args :: key in Fields(r.value) && Fields(r.value)[key] == args[key])
      && (forall key | key in Fields(r.value) && key !in args ::
            key == "combiner" && r.value.Exclude? && r.value.combiner == And)
  }

  function ConstructExclude(args: Config): (r: Result<Constraint, Error>)
    requires ConfigValid(args)
    ensures Builds(args, ExcludeKind, r)
    ensures !Fits(args, {"parameters", "conditions"}, {"combiner"}) ==> r == Failure(BadArguments)
  {
    if !Fits(args, {"parameters", "conditions"}, {"combiner"}) then Failure(BadArguments)
    else
      :- Require(args["parameters"].Names? && args["conditions"].ConditionList?, BadArguments);
      :- Require("combiner" in args ==> args["combiner"].Text?, BadArguments);
      assert ArgValid(args["conditions"]);
      var combiner := if "combiner" in args then args["combiner"].s else "AND";
      MakeExclude(args["parameters"].names, args["conditions"].conditions, combiner)
  }

  /** The constructor shared by the sum and the product constraint. */
  function ConstructReduction(args: Config, kind: ConstraintKind): (r: Result<Constraint, Error>)
    requires kind == SumKind || kind == ProductKind
    requires ConfigValid(args)
    ensures Builds(args, kind, r)
    ensures !Fits(args, {"parameters", "condition"}, {}) ==> r == Failure(BadArguments)
  {
    if !Fits(args, {"parameters", "condition"}, {}) then Failure(BadArguments)
    else
      :- Require(args["parameters"].Names? && args["condition"].OneCondition?, BadArguments);
      :- Require(args["condition"].condition.Threshold?, BadArguments);
      assert ArgValid(args["condition"]);
      if kind == SumKind then MakeSum(args["parameters"].names, args["condition"].condition.tc)
      else MakeProduct(args["parameters"].names, args["condition"].condition.tc)
  }

  /** The constructor of the constraints that take only `parameters`. */
  function ConstructPlain(args: Config, kind: ConstraintKind): (r: Result<Constraint, Error>)
    requires kind == NoLabelDuplicatesKind || kind == LinkedParametersKind
    ensures Builds(args, kind, r)
    ensures !Fits(args, {"parameters"}, {}) ==> r == Failure(BadArguments)
  {
    if !Fits(args, {"parameters"}, {}) || !args["parameters"].Names? then Failure(BadArguments)
    else if kind == NoLabelDuplicatesKind then MakeNoLabelDuplicates(args["parameters"].names)
    else MakeLinkedParameters(args["parameters"].names)
  }

  function ConstructDependencies(args: Config): (r: Result<Constraint, Error>)
    requires ConfigValid(args)
    ensures Builds(args, DependenciesKind, r)
    ensures !Fits(args, {"parameters", "conditions", "affected_parameters"}, {}) ==> r == Failure(BadArguments)
  {
    if !Fits(args, {"parameters", "conditions", "affected_parameters"}, {}) then Failure(BadArguments)
    else
      :- Require(args["parameters"].Names? && args["conditions"].ConditionList?, BadArguments);
      :- Require(args["affected_parameters"].NameGroups?, BadArguments);
      assert ArgValid(args["conditions"]);
      var d :- MakeDependencies(args["parameters"].names, args["conditions"].conditions, args["affected_parameters"].groups);
      Success(Dependent(d))
  }

  /** The `dependencies` field has no default: it must be given, possibly as none. */
  function ConstructPermutationInvariance(args: Config): (r: Result<Constraint, Error>)
    requires ConfigValid(args)
    ensures Builds(args, PermutationInvarianceKind, r)
    ensures !Fits(args, {"parameters", "dependencies"}, {}) ==> r == Failure(BadArguments)
  {
    if !Fits(args, {"parameters", "dependencies"}, {}) then Failure(BadArguments)
    else
      :- Require(args["parameters"].Names?, BadArguments);
      :- Require(args["dependencies"].Nested? || args["dependencies"].Nothing?, BadArguments);
      assert ArgValid(args["dependencies"]);
      var nested := if args["dependencies"].Nested? then Some(args["dependencies"].dependencies) else None;
      MakePermutationInvariance(args["parameters"].names, nested)
  }

  function ConstructCustom(args: Config): (r: Result<Constraint, Error>)
    ensures Builds(args, CustomKind, r)
    ensures !Fits(args, {"parameters", "validator"}, {}) ==> r == Failure(BadArguments)
  {
    if !Fits(args, {"parameters", "validator"}, {}) then Failure(BadArguments)
    else
      :- Require(args["parameters"].Names? && args["validator"].Predicate?, BadArguments);
      MakeCustom(args["parameters"].names, args["validator"].f)
  }

  /** The constructor of the variant `kind` applied to keyword arguments. */
  function Construct(kind: ConstraintKind, args: Config): (r: Result<Constraint, Error>)
    requires ConfigValid(args)
    ensures Builds(args, kind, r)
  {
    match kind
    case ExcludeKind => ConstructExclude(args)
    case SumKind => ConstructReduction(args, kind)
    case ProductKind => ConstructReduction(args, kind)
    case NoLabelDuplicatesKind => ConstructPlain(args, kind)
    case LinkedParametersKind => ConstructPlain(args, kind)
    case DependenciesKind => ConstructDependencies(args)
    case PermutationInvarianceKind => ConstructPermutationInvariance(args)
    case CustomKind => ConstructCustom(args)
  }

  /** `Constraint.create`: pop the tag, look up the variant, build it from
      the remaining entries; the variant's validators then run in field
      order, the parameter validator first. */
  function CreateConstraint(config: Config): (r: Result<Constraint, Error>)
    requires ConfigValid(config)
    ensures "type" !in config ==> r == Failure(MissingType)
    ensures r.Success? ==> Valid(r.value)
    ensures r.Success? ==> config["type"] == Text(ConstraintTag(KindOf(r.value)))
    ensures r.Success? ==> "parameters" in config && config["parameters"] == Names(Parameters(r.value))
    ensures r.Success? ==> forall key | key in config ::
      key in ConstraintConfig(r.value) && ConstraintConfig(r.value)[key] == config[key]
    ensures r.Success? ==> forall key | key in ConstraintConfig(r.value) && key !in config ::
      key == "combiner" && r.value.Exclude? && r.value.combiner == And
    ensures "type" in config && config["type"].Text? && ConstraintKindOf(config["type"].s).Failure? ==>
      r == Failure(UnknownType(config["type"].s))
  {
    if "type" !in config then Failure(MissingType)
    else if !config["type"].Text? then Failure(BadArguments)
    else
      var kind :- ConstraintKindOf(config["type"].s);
      Construct(kind, config - {"type"})
  }

  /** The configuration a constraint unstructures to: its tag and its fields. */
  function ConstraintConfig(c: Constraint): Config {
    map["type" := Text(ConstraintTag(KindOf(c)))] + Fields(c)
  }

  /** The keyword arguments of a constraint: its fields by name. */
  function Fields(c: Constraint): Config {
    match c
    case Exclude(parameters, conditions, combiner) =>
      map["parameters" := Names(parameters), "conditions" := ConditionList(conditions),
          "combiner" := Text(CombinerName(combiner))]
    case Sum(parameters, condition) =>
      map["parameters" := Names(parameters), "condition" := OneCondition(Threshold(condition))]
    case Product(parameters, condition) =>
      map["parameters" := Names(parameters), "condition" := OneCondition(Threshold(condition))]
    case NoLabelDuplicates(parameters) =>
      map["parameters" := Names(parameters)]
    case LinkedParameters(parameters) =>
      map["parameters" := Names(parameters)]
    case Dependent(d) =>
      map["parameters" := Names(d.parameters), "conditions" := ConditionList(d.conditions),
          "affected_parameters" := NameGroups(d.affectedParameters)]
    case PermutationInvariance(parameters, nested) =>
      map["parameters" := Names(parameters),
          "dependencies" := if nested.Some? then Nested(nested.value) else Nothing]
    case Custom(parameters, validator) =>
      map["parameters" := Names(parameters), "validator" := Predicate(validator)]
  }

  /** Every tag reads back as the variant it names. */
  lemma ConstraintTagParses(k: ConstraintKind)
    ensures ConstraintKindOf(ConstraintTag(k)) == Success(k)
  {
    match k
    case ExcludeKind =>
    case SumKind =>
    case ProductKind =>
    case NoLabelDuplicatesKind =>
    case LinkedParametersKind =>
    case DependenciesKind =>
    case PermutationInvarianceKind =>
    case CustomKind =>
  }

  lemma ExcludeFromFields(c: Constraint)
    requires c.Exclude? && Valid(c)
    ensures ConfigValid(Fields(c)) && ConstructExclude(Fields(c)) == Success(c)
  {
    assert Fields(c).Keys == {"parameters", "conditions", "combiner"};
    ParseCombinerName(c.combiner);
  }

  lemma ReductionFromFields(c: Constraint)
    requires (c.Sum? || c.Product?) && Valid(c)
    ensures ConfigValid(Fields(c)) && ConstructReduction(Fields(c), KindOf(c)) == Success(c)
  {
    assert Fields(c).Keys == {"parameters", "condition"};
  }

  lemma PlainFromFields(c: Constraint)
    requires (c.NoLabelDuplicates? || c.LinkedParameters?) && Valid(c)
    ensures ConfigValid(Fields(c)) && ConstructPlain(Fields(c), KindOf(c)) == Success(c)
  {
    assert Fields(c).Keys == {"parameters"};
  }

  lemma DependenciesFromFields(c: Constraint)
    requires c.Dependent? && Valid(c)
    ensures ConfigValid(Fields(c)) && ConstructDependencies(Fields(c)) == Success(c)
  {
    assert Fields(c).Keys == {"parameters", "conditions", "affected_parameters"};
  }

  lemma PermutationInvarianceFromFields(c: Constraint)
    requires c.PermutationInvariance? && Valid(c)
    ensures ConfigValid(Fields(c)) && ConstructPermutationInvariance(Fields(c)) == Success(c)
  {
    assert Fields(c).Keys == {"parameters", "dependencies"};
  }

  lemma CustomFromFields(c: Constraint)
    requires c.Custom? && Valid(c)
    ensures ConfigValid(Fields(c)) && ConstructCustom(Fields(c)) == Success(c)
  {
    assert Fields(c).Keys == {"parameters", "validator"};
  }

  /** Every valid constraint is what its variant's constructor builds from
      its own fields. */
  lemma ConstructFromFields(c: Constraint)
    requires Valid(c)
    ensures ConfigValid(Fields(c))
    ensures Construct(KindOf(c), Fields(c)) == Success(c)
  {
    match c
    case Exclude(_, _, _) => ExcludeFromFields(c);
    case Sum(_, _) => ReductionFromFields(c);
    case Product(_, _) => ReductionFromFields(c);
    case NoLabelDuplicates(_) => PlainFromFields(c);
    case LinkedParameters(_) => PlainFromFields(c);
    case Dependent(_) => DependenciesFromFields(c);
    case PermutationInvariance(_, _) => PermutationInvarianceFromFields(c);
    case Custom(_, _) => CustomFromFields(c);
  }

  /** Creating a constraint from its own configuration gives it back. */
  lemma ConstraintRoundTrip(c: Constraint)
    requires Valid(c)
    ensures ConfigValid(ConstraintConfig(c))
    ensures CreateConstraint(ConstraintConfig(c)) == Success(c)
  {
    ConstructFromFields(c);
    ConstraintTagParses(KindOf(c));
    ConfigSplits(c);
  }

  /** The tag entry and the fields of a configuration are apart. */
  lemma ConfigSplits(c: Constraint)
    ensures "type" in ConstraintConfig(c) && ConstraintConfig(c)["type"] == Text(ConstraintTag(KindOf(c)))
    ensures ConstraintConfig(c) - {"type"} == Fields(c)
  {
    assert "type" !in Fields(c);
  }

  /** An exclusion constraint configured without a combiner combines with AND. */
  lemma ExcludeCombinerDefault(parameters: seq<string>, conditions: seq<Condition>)
    requires DistinctNames(parameters) && |conditions| >= 1
    requires forall k | 0 <= k < |conditions| :: ValidCondition(conditions[k])
    ensures CreateConstraint(map["type" := Text("EXCLUDE"), "parameters" := Names(parameters),
      "conditions" := ConditionList(conditions)]) == Success(Exclude(parameters, conditions, And))
  {
    var config := map["type" := Text("EXCLUDE"), "parameters" := Names(parameters), "conditions" := ConditionList(conditions)];
    assert (config - {"type"}).Keys == {"parameters", "conditions"};
  }

  // ---------------------------------------------------------------------
  // Order of application

  /** The order in which constraint types are applied to a search space. */
  const ConstraintsOrder: seq<ConstraintKind> := [
    CustomKind, ExcludeKind, NoLabelDuplicatesKind, LinkedParametersKind,
    SumKind, ProductKind, PermutationInvarianceKind, DependenciesKind
  ]

  /** The position of a constraint type in the order, the sort key applied
      to a list of constraints. */
  function OrderIndex(k: ConstraintKind): (r: nat)
    ensures r < |ConstraintsOrder| && ConstraintsOrder[r] == k
    ensures forall m | 0 <= m < |ConstraintsOrder| && ConstraintsOrder[m] == k :: m == r
  {
    match k
    case CustomKind => 0
    case ExcludeKind => 1
    case NoLabelDuplicatesKind => 2
    case LinkedParametersKind => 3
    case SumKind => 4
    case ProductKind => 5
    case PermutationInvarianceKind => 6
    case DependenciesKind => 7
  }

  /** The order lists every registered constraint type exactly once, by its
      tag; custom constraints come first and dependencies last. */
  lemma ConstraintsOrderIsPermutation()
    ensures forall k: ConstraintKind :: k in ConstraintsOrder
    ensures forall i, j | 0 <= i < j < |ConstraintsOrder| :: ConstraintsOrder[i] != ConstraintsOrder[j]
    ensures forall i | 0 <= i < |ConstraintsOrder| :: ConstraintKindOf(ConstraintTag(ConstraintsOrder[i])) == Success(ConstraintsOrder[i])
    ensures ConstraintsOrder[0] == CustomKind && ConstraintsOrder[|ConstraintsOrder| - 1] == DependenciesKind
  {
    forall k: ConstraintKind ensures k in ConstraintsOrder {
      assert ConstraintsOrder[OrderIndex(k)] == k;
    }
    forall i, j | 0 <= i < j < |ConstraintsOrder| ensures ConstraintsOrder[i] != ConstraintsOrder[j] {
      var r := OrderIndex(ConstraintsOrder[i]);
    }
    forall i | 0 <= i < |ConstraintsOrder| ensures ConstraintKindOf(ConstraintTag(ConstraintsOrder[i])) == Success(ConstraintsOrder[i]) {
      ConstraintTagParses(ConstraintsOrder[i]);
    }
  }
}
