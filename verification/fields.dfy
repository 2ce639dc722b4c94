/** The single-purpose validators, one per field group. Each returns at most
    one error; `None` is Go's `nil`.
 */
module FieldValidators {
  import opened Diagnostics
  import opened Values
  import opened PolicyTypes

  // ---------------------------------------------------------------------
  // Reference conditions, stated without the validators' branch order.
  // ---------------------------------------------------------------------

  /** A present selector compiles to at least one requirement. */
  predicate SelectorOk(selector: Option<LabelSelector>, compile: SelectorCompiler) {
    selector.Some? ==>
      var c := compile(selector.value);
      c.Requirements? && c.count > 0
  }

  /** A resource description is either entirely unset, or names at least one
      kind and carries no unusable selector. */
  predicate DescriptionOk(rd: ResourceDescription, compile: SelectorCompiler) {
    IsEmptyDescription(rd) || (|rd.kinds.Elements()| > 0 && SelectorOk(rd.selector, compile))
  }

  /** A set validation block gives exactly one of pattern and anyPattern. */
  predicate PatternChoiceOk(v: Validation) {
    IsEmptyValidation(v) || ((!v.pattern.Null?) != (|v.anyPattern.Elements()| > 0))
  }

  const SupportedPatchOperations: set<string> := {"add", "replace", "remove"}

  /** A patch names a path and a supported operation, and add and replace
      carry a value. */
  predicate PatchOk(p: Patch) {
    && p.path != ""
    && p.operation in SupportedPatchOperations
    && (p.operation != "remove" ==> !p.value.Null?)
  }

  /** A generation block takes its content from exactly one source. */
  predicate OneGenerationSource(g: Generation) {
    (!g.data.Null?) != (!IsEmptyClone(g.clone))
  }

  // ---------------------------------------------------------------------
  // The validators.
  // ---------------------------------------------------------------------

  /** `Rule.ValidateRuleType`: exactly one of mutate, validate, generate. */
  function ValidateRuleType(r: Rule): (e: Option<PolicyError>)
    ensures e.None? <==> TypeCount(r) == 1
    ensures e == Some(NoRuleTypeDefined(r.name)) <==> TypeCount(r) == 0
    ensures e == Some(MultipleRuleTypes(r.name)) <==> TypeCount(r) >= 2
    ensures e.Some? ==> e.value.NoRuleTypeDefined? || e.value.MultipleRuleTypes?
  {
    var mutate, validate, generate := HasMutate(r), HasValidate(r), HasGenerate(r);
    if !mutate && !validate && !generate then
      Some(NoRuleTypeDefined(r.name))
    else if (mutate && !validate && !generate)
         || (!mutate && validate && !generate)
         || (!mutate && !validate && generate) then
      None
    else
      Some(MultipleRuleTypes(r.name))
  }

  /** `Rule.ValidateOverlayPattern`: an unset validation block passes; a set
      one needs exactly one of pattern and anyPattern. */
  function ValidateOverlayPattern(r: Rule): (e: Option<PolicyError>)
    ensures IsEmptyValidation(r.validation) ==> e.None?
    ensures e.None? <==> PatternChoiceOk(r.validation)
    ensures e == Some(MissingPattern(r.name)) <==>
            !IsEmptyValidation(r.validation) && r.validation.pattern.Null? && |r.validation.anyPattern.Elements()| == 0
    ensures e == Some(ConflictingPatternFields(r.name)) <==>
            !r.validation.pattern.Null? && |r.validation.anyPattern.Elements()| > 0
    ensures e.Some? ==> e.value.MissingPattern? || e.value.ConflictingPatternFields?
  {
    var v := r.validation;
    if IsEmptyValidation(v) then None
    else if v.pattern.Null? && |v.anyPattern.Elements()| == 0 then Some(MissingPattern(r.name))
    else if !v.pattern.Null? && |v.anyPattern.Elements()| != 0 then Some(ConflictingPatternFields(r.name))
    else None
  }

  /** `ResourceDescription.Validate`: the unset description passes; otherwise
      the kinds must be non-empty, and a present selector must compile to at
      least one requirement. */
  function ValidateResourceDescription(rd: ResourceDescription, compile: SelectorCompiler): (e: Option<PolicyError>)
    ensures IsEmptyDescription(rd) ==> e.None?
    ensures !IsEmptyDescription(rd) && |rd.kinds.Elements()| == 0 ==> e == Some(MissingResourceKind)
    ensures e.None? <==> DescriptionOk(rd, compile)
    ensures |rd.kinds.Elements()| > 0 && rd.selector.Some? && compile(rd.selector.value) == Requirements(0)
            ==> e == Some(EmptySelectorRequirements)
    ensures |rd.kinds.Elements()| > 0 && rd.selector.Some? && compile(rd.selector.value).SelectorRejected?
            ==> e == Some(InvalidSelector(compile(rd.selector.value).reason))
    ensures e.Some? ==> e.value.MissingResourceKind? || e.value.InvalidSelector? || e.value.EmptySelectorRequirements?
  {
    if IsEmptyDescription(rd) then None
    else if |rd.kinds.Elements()| == 0 then Some(MissingResourceKind)
    else match rd.selector
      case None => None
      case Some(sel) =>
        match compile(sel)
        case SelectorRejected(reason) => Some(InvalidSelector(reason))
        case Requirements(n) => if n == 0 then Some(EmptySelectorRequirements) else None
  }

  /** `Patch.Validate`: the path is mandatory; add and replace need a value;
      remove needs nothing more; every other operation is refused. */
  function ValidatePatch(p: Patch): (e: Option<PolicyError>)
    ensures p.path == "" ==> e == Some(MissingPatchPath)
    ensures e.None? <==> PatchOk(p)
    ensures e == Some(MissingPatchValue(p.operation)) <==>
            p.path != "" && p.operation in {"add", "replace"} && p.value.Null?
    ensures e == Some(UnsupportedPatchOperation(p.operation)) <==>
            p.path != "" && p.operation !in SupportedPatchOperations
  {
    if p.path == "" then Some(MissingPatchPath)
    else if p.operation == "add" || p.operation == "replace" then
      if p.value.Null? then Some(MissingPatchValue(p.operation)) else None
    else if p.operation == "remove" then None
    else Some(UnsupportedPatchOperation(p.operation))
  }

  /** `Generation.Validate`: exactly one of data and clone. */
  function ValidateGeneration(g: Generation): (e: Option<PolicyError>)
    ensures e.None? <==> OneGenerationSource(g)
    ensures e == Some(MissingGenerationSource(g.kind)) <==> g.data.Null? && IsEmptyClone(g.clone)
    ensures e == Some(ConflictingGenerationSource(g.kind)) <==> !g.data.Null? && !IsEmptyClone(g.clone)
  {
    if g.data.Null? && IsEmptyClone(g.clone) then Some(MissingGenerationSource(g.kind))
    else if !g.data.Null? && !IsEmptyClone(g.clone) then Some(ConflictingGenerationSource(g.kind))
    else None
  }
}
