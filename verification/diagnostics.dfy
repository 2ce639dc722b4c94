/** Diagnostics produced by the policy validator.

    Every Go function in the validator returns either `nil` or an `error`; the
    model returns `Option<PolicyError>` for the single-error validators and
    `seq<PolicyError>` for the accumulating ones. Message text is not modelled:
    each error carries a tag and the part of the message that identifies the
    offending rule, path, operation or kind.
 */
module Diagnostics {

  /** `None` stands for Go's `nil` error, `Some(e)` for a returned error. */
  datatype Option<+T> = None | Some(value: T)

  datatype PolicyError =
    | DuplicateRuleName(name: string)
    | NoRuleTypeDefined(rule: string)
    | MultipleRuleTypes(rule: string)
    | MissingResourceKind
    | InvalidSelector(reason: string)
    | EmptySelectorRequirements
    | MissingPattern(rule: string)
    | ConflictingPatternFields(rule: string)
    | AnchorNotOnArray(at: string)
    | EmptyPatternArray(at: string)
    | MissingPatchPath
    | MissingPatchValue(operation: string)
    | UnsupportedPatchOperation(operation: string)
    | MissingGenerationSource(kind: string)
    | ConflictingGenerationSource(kind: string)

  /** The errors the existing-anchor walk can report; both carry a path. */
  predicate IsWalkError(e: PolicyError) {
    e.AnchorNotOnArray? || e.EmptyPatternArray?
  }

  /** Go's `if err != nil { errs = append(errs, err) }`: the error, if any, as a list. */
  function ErrorList(o: Option<PolicyError>): (errs: seq<PolicyError>)
    ensures |errs| <= 1
    ensures errs == [] <==> o.None?
    ensures o.Some? ==> errs == [o.value]
  {
    match o
    case None => []
    case Some(e) => [e]
  }
}
