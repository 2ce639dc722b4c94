/** The policy records the validator reads. Their Go declarations live in a
    types file that is not part of this model; the records keep the fields
    the validator reads plus the sibling fields that decide whether a record
    equals its zero value. Go's `interface{}` fields are `Value`s with
    `Null` for `nil`; Go's slices are `Slice`s, which keep a nil slice apart
    from an empty one; Go's zero-value comparisons (`reflect.DeepEqual` with
    `T{}`) become the explicit emptiness predicates below.
 */
module PolicyTypes {
  import opened Diagnostics
  import opened Values

  /** A Go slice. `reflect.DeepEqual` tells the nil slice (`Nil`) from a
      non-nil empty one (`Slice([])`, what `kinds: []` decodes to); `len`
      and `range` do not. */
  datatype Slice<T> = Nil | Slice(elems: seq<T>) {
    /** What `len` counts and `range` visits. */
    function Elements(): (xs: seq<T>)
      ensures Nil? ==> xs == []
      ensures Slice? ==> xs == elems
    {
      if Nil? then [] else elems
    }
  }

  /** A Kubernetes label selector, kept as data: the validator only hands it
      to the selector compiler. */
  datatype SelectorExpression = SelectorExpression(key: string, operator: string, values: seq<string>)
  datatype LabelSelector = LabelSelector(
    matchLabels: seq<(string, string)>,
    matchExpressions: seq<SelectorExpression>)

  /** What compiling a selector gives: the number of requirements of the
      compiled selector, or the compiler's error. */
  datatype SelectorCompilation = Requirements(count: nat) | SelectorRejected(reason: string)

  /** Kubernetes' `LabelSelectorAsSelector` followed by `Requirements()`; the
      library code is outside the model, so it is a parameter. */
  type SelectorCompiler = LabelSelector -> SelectorCompilation

  /** `selector` is `None` for a nil `*LabelSelector`. */
  datatype ResourceDescription = ResourceDescription(
    kinds: Slice<string>,
    name: string,
    namespaces: Slice<string>,
    selector: Option<LabelSelector>)

  /** A JSON Patch operation. */
  datatype Patch = Patch(path: string, operation: string, value: Value)

  datatype Mutation = Mutation(overlay: Value, patches: Slice<Patch>)

  datatype Validation = Validation(message: string, pattern: Value, anyPattern: Slice<Value>)

  datatype CloneFrom = CloneFrom(namespace: string, name: string)

  datatype Generation = Generation(kind: string, name: string, data: Value, clone: CloneFrom)

  /** `matchResources`/`excludeResources` stand for the `ResourceDescription` inside Go's
      `MatchResources`/`ExcludeResources` wrappers. */
  datatype Rule = Rule(
    name: string,
    matchResources: ResourceDescription,
    excludeResources: ResourceDescription,
    mutation: Mutation,
    validation: Validation,
    generation: Generation)

  /** `ClusterPolicy.Spec.Rules`. */
  datatype ClusterPolicy = ClusterPolicy(rules: seq<Rule>)

  // Go's zero-value tests (`reflect.DeepEqual(x, T{})`, `x == T{}`): every
  // field holds its zero value; for a slice that is nil, not merely empty.

  predicate IsEmptyDescription(rd: ResourceDescription) {
    rd.kinds.Nil? && |rd.name| == 0 && rd.namespaces.Nil? && rd.selector.None?
  }

  predicate IsEmptyMutation(m: Mutation) {
    m.overlay.Null? && m.patches.Nil?
  }

  predicate IsEmptyValidation(v: Validation) {
    |v.message| == 0 && v.pattern.Null? && v.anyPattern.Nil?
  }

  predicate IsEmptyClone(c: CloneFrom) {
    |c.namespace| == 0 && |c.name| == 0
  }

  predicate IsEmptyGeneration(g: Generation) {
    |g.kind| == 0 && |g.name| == 0 && g.data.Null? && IsEmptyClone(g.clone)
  }

  /** `HasMutate`, `HasValidate`, `HasGenerate`: the block differs from its zero value. */
  predicate HasMutate(r: Rule) {
    !IsEmptyMutation(r.mutation)
  }

  predicate HasValidate(r: Rule) {
    !IsEmptyValidation(r.validation)
  }

  predicate HasGenerate(r: Rule) {
    !IsEmptyGeneration(r.generation)
  }

  /** The zero-value tests are equality with the zero value, as
      `reflect.DeepEqual(x, T{})` and `x == CloneFrom{}` test it. */
  lemma ZeroValueTests(rd: ResourceDescription, m: Mutation, v: Validation, g: Generation, r: Rule)
    ensures IsEmptyDescription(rd) <==> rd == ResourceDescription(Nil, "", Nil, None)
    ensures IsEmptyMutation(m) <==> m == Mutation(Null, Nil)
    ensures IsEmptyValidation(v) <==> v == Validation("", Null, Nil)
    ensures IsEmptyClone(g.clone) <==> g.clone == CloneFrom("", "")
    ensures IsEmptyGeneration(g) <==> g == Generation("", "", Null, CloneFrom("", ""))
    ensures HasMutate(r) <==> r.mutation != Mutation(Null, Nil)
    ensures HasValidate(r) <==> r.validation != Validation("", Null, Nil)
    ensures HasGenerate(r) <==> r.generation != Generation("", "", Null, CloneFrom("", ""))
  {
  }

  /** How many of the three rule types a rule sets. */
  function TypeCount(r: Rule): (n: nat)
    ensures n <= 3
    ensures n == 0 <==> !HasMutate(r) && !HasValidate(r) && !HasGenerate(r)
  {
    (if HasMutate(r) then 1 else 0) +
    (if HasValidate(r) then 1 else 0) +
    (if HasGenerate(r) then 1 else 0)
  }

  /** The rule names in order. */
  function Names(rules: seq<Rule>): (names: seq<string>)
    ensures |names| == |rules|
    ensures forall i :: 0 <= i < |rules| ==> names[i] == rules[i].name
  {
    seq(|rules|, i requires 0 <= i < |rules| => rules[i].name)
  }

  /** No two rules share a name. */
  predicate DistinctNames(rules: seq<Rule>) {
    forall j, k :: 0 <= j < k < |rules| ==> rules[j].name != rules[k].name
  }
}
