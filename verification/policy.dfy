/** Rule- and policy-level validation: each rule's sub-checks are all run and
    their errors concatenated in a fixed order; the policy concatenates every
    rule's errors and then the (fail-fast) rule-name uniqueness error.
 */
module PolicyValidation {
  import opened Diagnostics
  import opened Values
  import opened Paths
  import opened PolicyTypes
  import opened AnchorWalk
  import opened FieldValidators

  // ---------------------------------------------------------------------
  // Existing anchors of one rule.
  // ---------------------------------------------------------------------

  /** The indices, from `from` on, of the trees whose walk from the root
      fails, in visiting order (`FailingFromIndices` states what it holds). */
  function FailingFrom(trees: seq<Value>, from: nat): (idx: seq<nat>)
    requires from <= |trees|
    ensures |idx| <= |trees| - from
    ensures forall k :: 0 <= k < |idx| ==> from <= idx[k] < |trees|
    decreases |trees| - from
  {
    if from == |trees| then []
    else if CheckPattern(trees[from], Root).Some? then [from] + FailingFrom(trees, from + 1)
    else FailingFrom(trees, from + 1)
  }

  /** Exactly the failing indices from `from` on, each once, increasing. */
  lemma {:induction false} FailingFromIndices(trees: seq<Value>, from: nat)
    requires from <= |trees|
    ensures forall k :: 0 <= k < |FailingFrom(trees, from)| ==>
              CheckPattern(trees[FailingFrom(trees, from)[k]], Root).Some?
    ensures forall k, l :: 0 <= k < l < |FailingFrom(trees, from)| ==>
              FailingFrom(trees, from)[k] < FailingFrom(trees, from)[l]
    ensures forall i :: from <= i < |trees| ==>
              (i in FailingFrom(trees, from) <==> CheckPattern(trees[i], Root).Some?)
    decreases |trees| - from
  {
    if from < |trees| {
      FailingFromIndices(trees, from + 1);
    }
  }

  /** `errs` is, in order, the walk error of each tree `idx` lists. */
  predicate ReportsAt(errs: seq<PolicyError>, trees: seq<Value>, idx: seq<nat>) {
    && |errs| == |idx|
    && forall k :: 0 <= k < |idx| ==> idx[k] < |trees| && CheckPattern(trees[idx[k]], Root) == Some(errs[k])
  }

  /** `errs` is, in order, the walk error of every tree `FailingFrom` lists,
      one error per such tree. */
  predicate ReportsFailingTrees(errs: seq<PolicyError>, trees: seq<Value>) {
    ReportsAt(errs, trees, FailingFrom(trees, 0))
  }

  /** The loop over anyPattern: one walk per entry, each from the root path,
      keeping the error of every entry that fails. */
  function AnyPatternErrors(patterns: seq<Value>): (errs: seq<PolicyError>)
    ensures ReportsFailingTrees(errs, patterns)
    ensures forall k :: 0 <= k < |errs| ==> IsWalkError(errs[k])
    ensures errs == [] <==> forall i :: 0 <= i < |patterns| ==> CheckPattern(patterns[i], Root).None?
  {
    var errs := AnyPatternErrorsFrom(patterns, 0);
    var idx := FailingFrom(patterns, 0);
    FailingFromIndices(patterns, 0);
    assert idx != [] ==> CheckPattern(patterns[idx[0]], Root).Some?;
    errs
  }

  /** The anyPattern loop from entry `i` on. */
  function AnyPatternErrorsFrom(patterns: seq<Value>, i: nat): (errs: seq<PolicyError>)
    requires i <= |patterns|
    ensures |errs| == |FailingFrom(patterns, i)|
    ensures forall k :: 0 <= k < |errs| ==>
              CheckPattern(patterns[FailingFrom(patterns, i)[k]], Root) == Some(errs[k])
    decreases |patterns| - i
  {
    if i == |patterns| then []
    else ErrorList(CheckPattern(patterns[i], Root)) + AnyPatternErrorsFrom(patterns, i + 1)
  }

  /** The trees a validation block walks, in the order it walks them: the
      pattern when present, then every anyPattern entry. */
  function PatternTrees(v: Validation): (trees: seq<Value>)
    ensures |trees| == (if v.pattern.Null? then 0 else 1) + |v.anyPattern.Elements()|
    ensures !v.pattern.Null? ==> trees[0] == v.pattern
    ensures trees[|trees| - |v.anyPattern.Elements()|..] == v.anyPattern.Elements()
  {
    (if v.pattern.Null? then [] else [v.pattern]) + v.anyPattern.Elements()
  }

  /** Every index shifted by one. */
  function Shifted(idx: seq<nat>): (r: seq<nat>)
    ensures |r| == |idx|
    ensures forall k :: 0 <= k < |idx| ==> r[k] == idx[k] + 1
  {
    if |idx| == 0 then [] else [idx[0] + 1] + Shifted(idx[1..])
  }

  /** Putting a tree in front shifts every later failing index by one. */
  lemma {:induction false} FailingFromShift(t: Value, trees: seq<Value>, i: nat)
    requires i <= |trees|
    ensures FailingFrom([t] + trees, i + 1) == Shifted(FailingFrom(trees, i))
    decreases |trees| - i
  {
    if i < |trees| {
      assert ([t] + trees)[i + 1] == trees[i];
      FailingFromShift(t, trees, i + 1);
      var rest := FailingFrom(trees, i + 1);
      assert Shifted([i] + rest) == [i + 1] + Shifted(rest);
    }
  }

  /** Walking one more tree first puts its error, if any, in front. */
  lemma PrependReports(t: Value, trees: seq<Value>, errs: seq<PolicyError>)
    requires ReportsFailingTrees(errs, trees)
    ensures ReportsFailingTrees(ErrorList(CheckPattern(t, Root)) + errs, [t] + trees)
  {
    match CheckPattern(t, Root)
    case Some(e) =>
      PrependFailing(t, trees, e, errs);
      assert ErrorList(CheckPattern(t, Root)) + errs == [e] + errs;
    case None =>
      PrependPassing(t, trees, errs);
      assert ErrorList(CheckPattern(t, Root)) + errs == errs;
  }

  /** A failing tree in front contributes its error first. */
  lemma PrependFailing(t: Value, trees: seq<Value>, e: PolicyError, errs: seq<PolicyError>)
    requires CheckPattern(t, Root) == Some(e)
    requires ReportsFailingTrees(errs, trees)
    ensures ReportsFailingTrees([e] + errs, [t] + trees)
  {
    var all := [t] + trees;
    var rest := FailingFrom(all, 1);
    FailingFromShift(t, trees, 0);
    ShiftReports(t, trees, errs, FailingFrom(trees, 0));
    assert ReportsAt(errs, all, rest);
    assert all[0] == t;
    assert FailingFrom(all, 0) == [0] + rest;
    ConsReports(all, 0, e, errs, rest);
  }

  /** A passing tree in front contributes nothing. */
  lemma PrependPassing(t: Value, trees: seq<Value>, errs: seq<PolicyError>)
    requires CheckPattern(t, Root).None?
    requires ReportsFailingTrees(errs, trees)
    ensures ReportsFailingTrees(errs, [t] + trees)
  {
    var all := [t] + trees;
    var rest := FailingFrom(all, 1);
    FailingFromShift(t, trees, 0);
    ShiftReports(t, trees, errs, FailingFrom(trees, 0));
    assert ReportsAt(errs, all, rest);
    assert all[0] == t;
    assert FailingFrom(all, 0) == rest;
  }

  /** Reports about `trees` are reports about `[t] + trees` at shifted indices. */
  lemma ShiftReports(t: Value, trees: seq<Value>, errs: seq<PolicyError>, idx: seq<nat>)
    requires ReportsAt(errs, trees, idx)
    ensures ReportsAt(errs, [t] + trees, Shifted(idx))
  {
    forall k | 0 <= k < |idx|
      ensures Shifted(idx)[k] < |[t] + trees| && CheckPattern(([t] + trees)[Shifted(idx)[k]], Root) == Some(errs[k])
    {
      assert ([t] + trees)[idx[k] + 1] == trees[idx[k]];
    }
  }

  /** One more report in front. */
  lemma ConsReports(trees: seq<Value>, i: nat, e: PolicyError, errs: seq<PolicyError>, idx: seq<nat>)
    requires i < |trees| && CheckPattern(trees[i], Root) == Some(e)
    requires ReportsAt(errs, trees, idx)
    ensures ReportsAt([e] + errs, trees, [i] + idx)
  {
    forall k | 0 <= k < |[i] + idx|
      ensures ([i] + idx)[k] < |trees| && CheckPattern(trees[([i] + idx)[k]], Root) == Some(([e] + errs)[k])
    {
      if k > 0 {
        assert ([i] + idx)[k] == idx[k - 1] && ([e] + errs)[k] == errs[k - 1];
      }
    }
  }

  /** `Rule.ValidateExistingAnchor`: walk the pattern when present, then every
      anyPattern entry; at most one error per walked tree, all from the walk
      (`ExistingAnchorErrorsPerTree` lines them up with the trees). */
  function ValidateExistingAnchor(r: Rule): (errs: seq<PolicyError>)
    ensures |errs| <= (if !r.validation.pattern.Null? then 1 else 0) + |r.validation.anyPattern.Elements()|
    ensures forall e :: e in errs ==> IsWalkError(e)
  {
    var v := r.validation;
    var tail := AnyPatternErrors(v.anyPattern.Elements());
    if v.pattern.Null? then tail
    else ErrorList(CheckPattern(v.pattern, Root)) + tail
  }

  /** The anchor errors of a rule are, in walk order, the error of each tree
      (the pattern, then the anyPattern entries) whose walk fails: one per
      failing tree, none for a tree that passes. */
  lemma ExistingAnchorErrorsPerTree(r: Rule)
    ensures ReportsFailingTrees(ValidateExistingAnchor(r), PatternTrees(r.validation))
  {
    var v := r.validation;
    var any := v.anyPattern.Elements();
    var tail := AnyPatternErrors(any);
    if v.pattern.Null? {
      assert PatternTrees(v) == any;
    } else {
      assert PatternTrees(v) == [v.pattern] + any;
      PrependReports(v.pattern, any, tail);
    }
  }

  /** Every tree the rule validates with is well-formed. */
  predicate AnchorsOk(v: Validation) {
    && (!v.pattern.Null? ==> WellFormedPattern(v.pattern))
    && forall i :: 0 <= i < |v.anyPattern.Elements()| ==> WellFormedPattern(v.anyPattern.Elements()[i])
  }

  lemma ExistingAnchorPassesIff(r: Rule)
    ensures ValidateExistingAnchor(r) == [] <==> AnchorsOk(r.validation)
  {
    var v := r.validation;
    var any := v.anyPattern.Elements();
    CheckPatternPassesIff(v.pattern, Root);
    forall i | 0 <= i < |any| {
      CheckPatternPassesIff(any[i], Root);
    }
  }

  // ---------------------------------------------------------------------
  // One rule.
  // ---------------------------------------------------------------------

  /** The four field-group checks of `Rule.Validate`, in order: rule type,
      match description, exclude description, overlay pattern. */
  function FieldCheckErrors(r: Rule, compile: SelectorCompiler): (errs: seq<PolicyError>)
    ensures |errs| <= 4
  {
    ErrorList(ValidateRuleType(r))
    + ErrorList(ValidateResourceDescription(r.matchResources, compile))
    + ErrorList(ValidateResourceDescription(r.excludeResources, compile))
    + ErrorList(ValidateOverlayPattern(r))
  }

  /** `Rule.Validate`: every check runs; the field-group errors come first,
      then one error per pattern tree the anchor walk rejects. */
  function ValidateRule(r: Rule, compile: SelectorCompiler): (errs: seq<PolicyError>)
    ensures |errs| <= 4 + (if !r.validation.pattern.Null? then 1 else 0) + |r.validation.anyPattern.Elements()|
    ensures forall e :: e in errs ==> !e.DuplicateRuleName?
  {
    FieldCheckErrorKinds(r, compile);
    FieldCheckErrors(r, compile) + ValidateExistingAnchor(r)
  }

  /** The field-group checks never report anchor-walk or duplicate-name errors. */
  lemma FieldCheckErrorKinds(r: Rule, compile: SelectorCompiler)
    ensures forall e :: e in FieldCheckErrors(r, compile) ==> !IsWalkError(e) && !e.DuplicateRuleName?
  {
    forall e | e in FieldCheckErrors(r, compile)
      ensures !IsWalkError(e) && !e.DuplicateRuleName?
    {
      FieldCheckErrorsMembership(r, compile, e);
    }
  }

  /** Everything a rule must satisfy, as one condition. */
  predicate RuleOk(r: Rule, compile: SelectorCompiler) {
    && TypeCount(r) == 1
    && DescriptionOk(r.matchResources, compile)
    && DescriptionOk(r.excludeResources, compile)
    && PatternChoiceOk(r.validation)
    && AnchorsOk(r.validation)
  }

  /** A rule produces no error exactly when it satisfies every condition. */
  lemma RulePassesIff(r: Rule, compile: SelectorCompiler)
    ensures ValidateRule(r, compile) == [] <==> RuleOk(r, compile)
  {
    ExistingAnchorPassesIff(r);
  }

  /** An error is among the field-group errors exactly when one of the four
      checks returned it. */
  lemma FieldCheckErrorsMembership(r: Rule, compile: SelectorCompiler, x: PolicyError)
    ensures x in FieldCheckErrors(r, compile) <==>
            || ValidateRuleType(r) == Some(x)
            || ValidateResourceDescription(r.matchResources, compile) == Some(x)
            || ValidateResourceDescription(r.excludeResources, compile) == Some(x)
            || ValidateOverlayPattern(r) == Some(x)
  {
    var a := ErrorList(ValidateRuleType(r));
    var b := ErrorList(ValidateResourceDescription(r.matchResources, compile));
    var c := ErrorList(ValidateResourceDescription(r.excludeResources, compile));
    var d := ErrorList(ValidateOverlayPattern(r));
    assert FieldCheckErrors(r, compile) == a + b + c + d;
    assert x in a + b + c + d <==> x in a || x in b || x in c || x in d;
  }

  /** The no-type and several-types errors are reported exactly when the rule
      sets none, or more than one, of mutate, validate and generate. */
  lemma RuleTypeErrorsIff(r: Rule, compile: SelectorCompiler)
    ensures NoRuleTypeDefined(r.name) in ValidateRule(r, compile) <==> TypeCount(r) == 0
    ensures MultipleRuleTypes(r.name) in ValidateRule(r, compile) <==> TypeCount(r) >= 2
  {
    FieldCheckErrorsMembership(r, compile, NoRuleTypeDefined(r.name));
    FieldCheckErrorsMembership(r, compile, MultipleRuleTypes(r.name));
  }

  /** The missing- and conflicting-pattern errors are reported exactly when a
      set validation block has neither, or both, of pattern and anyPattern. */
  lemma PatternChoiceErrorsIff(r: Rule, compile: SelectorCompiler)
    ensures MissingPattern(r.name) in ValidateRule(r, compile) <==>
            !IsEmptyValidation(r.validation) && r.validation.pattern.Null? && |r.validation.anyPattern.Elements()| == 0
    ensures ConflictingPatternFields(r.name) in ValidateRule(r, compile) <==>
            !r.validation.pattern.Null? && |r.validation.anyPattern.Elements()| > 0
  {
    FieldCheckErrorsMembership(r, compile, MissingPattern(r.name));
    FieldCheckErrorsMembership(r, compile, ConflictingPatternFields(r.name));
  }

  /** The missing-kind error is reported exactly when the match or the exclude
      description is set but lists no kind, whatever its selector. */
  lemma MissingKindIff(r: Rule, compile: SelectorCompiler)
    ensures MissingResourceKind in ValidateRule(r, compile) <==>
            || (!IsEmptyDescription(r.matchResources) && |r.matchResources.kinds.Elements()| == 0)
            || (!IsEmptyDescription(r.excludeResources) && |r.excludeResources.kinds.Elements()| == 0)
  {
    FieldCheckErrorsMembership(r, compile, MissingResourceKind);
  }

  /** A rule reports an anchor-walk error exactly when one of its pattern
      trees is not well-formed. */
  lemma WalkErrorsIff(r: Rule, compile: SelectorCompiler)
    ensures (exists e :: e in ValidateRule(r, compile) && IsWalkError(e)) <==> !AnchorsOk(r.validation)
  {
    var anchors := ValidateExistingAnchor(r);
    assert ValidateRule(r, compile) == FieldCheckErrors(r, compile) + anchors;
    FieldCheckErrorKinds(r, compile);
    ExistingAnchorPassesIff(r);
    if !AnchorsOk(r.validation) {
      assert anchors[0] in ValidateRule(r, compile);
    }
  }

  /** The position of an error's sub-check in `Rule.Validate`. */
  function Stage(e: PolicyError): (s: nat)
    ensures IsWalkError(e) ==> s == 3
  {
    match e
    case NoRuleTypeDefined(_) => 0
    case MultipleRuleTypes(_) => 0
    case MissingResourceKind => 1
    case InvalidSelector(_) => 1
    case EmptySelectorRequirements => 1
    case MissingPattern(_) => 2
    case ConflictingPatternFields(_) => 2
    case AnchorNotOnArray(_) => 3
    case EmptyPatternArray(_) => 3
    case _ => 4
  }

  predicate InStageOrder(errs: seq<PolicyError>) {
    forall j, k :: 0 <= j < k < |errs| ==> Stage(errs[j]) <= Stage(errs[k])
  }

  /** The results of `Rule.Validate`'s five sub-checks, in the order it
      runs them: rule type, match description, exclude description,
      overlay pattern, existing anchors. */
  function RuleCheckLists(r: Rule, compile: SelectorCompiler): seq<seq<PolicyError>> {
    [ ErrorList(ValidateRuleType(r)),
      ErrorList(ValidateResourceDescription(r.matchResources, compile)),
      ErrorList(ValidateResourceDescription(r.excludeResources, compile)),
      ErrorList(ValidateOverlayPattern(r)),
      ValidateExistingAnchor(r) ]
  }

  /** A rule's errors are its five sub-checks' results laid end to end:
      each sits intact at its offset, in check order, and nothing else is
      there. */
  lemma RuleErrorsLayout(r: Rule, compile: SelectorCompiler)
    ensures LaidOut(ValidateRule(r, compile), RuleCheckLists(r, compile))
  {
    var l := RuleCheckLists(r, compile);
    FiveLaidOut(l[0], l[1], l[2], l[3], l[4]);
    assert l == [l[0], l[1], l[2], l[3], l[4]];
    RuleErrorsAppended(r, compile);
  }

  /** `Rule.Validate` appends its sub-checks' results one after another. */
  lemma RuleErrorsAppended(r: Rule, compile: SelectorCompiler)
    ensures ValidateRule(r, compile) ==
            ErrorList(ValidateRuleType(r))
            + ErrorList(ValidateResourceDescription(r.matchResources, compile))
            + ErrorList(ValidateResourceDescription(r.excludeResources, compile))
            + ErrorList(ValidateOverlayPattern(r))
            + ValidateExistingAnchor(r)
  {
  }

  /** Five lists appended in order are laid out in that order. */
  lemma FiveLaidOut(a: seq<PolicyError>, b: seq<PolicyError>, c: seq<PolicyError>,
                    d: seq<PolicyError>, e: seq<PolicyError>)
    ensures LaidOut(a + b + c + d + e, [a, b, c, d, e])
  {
    FlattenFive(a, b, c, d, e);
    FlattenLayout([a, b, c, d, e]);
  }

  /** Flattening five lists appends them in order. */
  lemma FlattenFive(a: seq<PolicyError>, b: seq<PolicyError>, c: seq<PolicyError>,
                    d: seq<PolicyError>, e: seq<PolicyError>)
    ensures Flatten([a, b, c, d, e]) == a + b + c + d + e
  {
    var l := [a, b, c, d, e];
    assert l[4..][1..] == [];
    assert Flatten(l[4..]) == e;
    assert l[3..][1..] == l[4..];
    assert Flatten(l[3..]) == d + e;
    assert l[2..][1..] == l[3..];
    assert Flatten(l[2..]) == c + (d + e);
    assert l[1..][1..] == l[2..];
    assert Flatten(l[1..]) == b + (c + (d + e));
    assert Flatten(l) == a + (b + (c + (d + e)));
  }

  /** Errors of a rule come grouped by sub-check, in the order the checks run. */
  lemma RuleErrorsInStageOrder(r: Rule, compile: SelectorCompiler)
    ensures InStageOrder(ValidateRule(r, compile))
  {
    var a := ErrorList(ValidateRuleType(r));
    var b := ErrorList(ValidateResourceDescription(r.matchResources, compile));
    var c := ErrorList(ValidateResourceDescription(r.excludeResources, compile));
    var d := ErrorList(ValidateOverlayPattern(r));
    var e := ValidateExistingAnchor(r);
    ErrorListAtStage(ValidateRuleType(r), 0);
    ErrorListAtStage(ValidateResourceDescription(r.matchResources, compile), 1);
    ErrorListAtStage(ValidateResourceDescription(r.excludeResources, compile), 1);
    ErrorListAtStage(ValidateOverlayPattern(r), 2);
    StagedParts(a, b, c, d, e);
    RuleErrorsAppended(r, compile);
  }

  lemma ErrorListAtStage(o: Option<PolicyError>, s: nat)
    requires o.Some? ==> Stage(o.value) == s
    ensures AllAtStage(ErrorList(o), s)
  {
  }

  /** The stage of every error in a list. */
  predicate AllAtStage(xs: seq<PolicyError>, s: nat) {
    forall k :: 0 <= k < |xs| ==> Stage(xs[k]) == s
  }

  /** Five lists whose errors belong to non-decreasing stages concatenate to
      a list in stage order. */
  lemma StagedParts(a: seq<PolicyError>, b: seq<PolicyError>, c: seq<PolicyError>,
                    d: seq<PolicyError>, e: seq<PolicyError>)
    requires AllAtStage(a, 0) && AllAtStage(b, 1) && AllAtStage(c, 1)
    requires AllAtStage(d, 2) && AllAtStage(e, 3)
    ensures InStageOrder(a + b + c + d + e)
  {
    StagedConcat(a, b, 0, 1);
    StagedConcat(a + b, c, 1, 1);
    StagedConcat(a + b + c, d, 1, 2);
    StagedConcat(a + b + c + d, e, 2, 3);
  }

  /** Appending errors of a later stage keeps a list in stage order. */
  lemma StagedConcat(xs: seq<PolicyError>, ys: seq<PolicyError>, s: nat, t: nat)
    requires InStageOrder(xs) && s <= t
    requires forall k :: 0 <= k < |xs| ==> Stage(xs[k]) <= s
    requires AllAtStage(ys, t)
    ensures InStageOrder(xs + ys)
    ensures forall k :: 0 <= k < |xs + ys| ==> Stage((xs + ys)[k]) <= t
  {
  }

  // ---------------------------------------------------------------------
  // Rule-name uniqueness.
  // ---------------------------------------------------------------------

  /** The rule at `k` is the first whose name repeats an earlier one. */
  predicate IsFirstRepeat(rules: seq<Rule>, k: int) {
    && 0 <= k < |rules|
    && (exists j :: 0 <= j < k && rules[j].name == rules[k].name)
    && DistinctNames(rules[..k])
  }

  /** The loop of `ValidateUniqueRuleName` from rule `i` on; `seen` holds the
      names of the rules before `i`, none of which repeats. */
  function UniqueNamesFrom(rules: seq<Rule>, i: nat, seen: seq<string>): (e: Option<PolicyError>)
    requires i <= |rules|
    requires seen == Names(rules[..i])
    requires DistinctNames(rules[..i])
    ensures e.None? <==> DistinctNames(rules)
    ensures e.Some? ==> exists k :: i <= k < |rules| && IsFirstRepeat(rules, k) && e.value == DuplicateRuleName(rules[k].name)
    decreases |rules| - i
  {
    if i == |rules| then
      assert rules[..i] == rules;
      None
    else if rules[i].name in seen then
      assert IsFirstRepeat(rules, i);
      Some(DuplicateRuleName(rules[i].name))
    else
      assert rules[..i + 1] == rules[..i] + [rules[i]];
      UniqueNamesFrom(rules, i + 1, seen + [rules[i].name])
  }

  /** `ClusterPolicy.ValidateUniqueRuleName`: the first repeated name, if any. */
  function ValidateUniqueRuleName(p: ClusterPolicy): (e: Option<PolicyError>)
    ensures e.None? <==> DistinctNames(p.rules)
    ensures e.Some? ==> exists k :: IsFirstRepeat(p.rules, k) && e.value == DuplicateRuleName(p.rules[k].name)
  {
    UniqueNamesFrom(p.rules, 0, [])
  }

  // ---------------------------------------------------------------------
  // The whole policy.
  // ---------------------------------------------------------------------

  /** The total length of the lists. */
  function Total(lists: seq<seq<PolicyError>>): nat {
    if |lists| == 0 then 0 else |lists[0]| + Total(lists[1..])
  }

  /** Where list `i` starts once the lists are laid end to end: the total
      length of the lists before it. */
  function Offset(lists: seq<seq<PolicyError>>, i: nat): (n: nat)
    requires i <= |lists|
    ensures n <= Total(lists)
    ensures i < |lists| ==> n + |lists[i]| <= Total(lists)
  {
    if i == 0 then 0 else |lists[0]| + Offset(lists[1..], i - 1)
  }

  /** `errs` is the lists laid end to end: list `i` sits intact at
      `Offset(lists, i)`, and nothing else is there. */
  predicate LaidOut(errs: seq<PolicyError>, lists: seq<seq<PolicyError>>) {
    && |errs| == Total(lists)
    && forall i :: 0 <= i < |lists| ==> errs[Offset(lists, i)..Offset(lists, i) + |lists[i]|] == lists[i]
  }

  /** Laying out a list in front of laid-out lists. */
  lemma ConsLaidOut(first: seq<PolicyError>, rest: seq<PolicyError>, lists: seq<seq<PolicyError>>)
    requires |lists| > 0 && first == lists[0]
    requires LaidOut(rest, lists[1..])
    ensures LaidOut(first + rest, lists)
  {
    var errs := first + rest;
    forall i | 0 <= i < |lists|
      ensures errs[Offset(lists, i)..Offset(lists, i) + |lists[i]|] == lists[i]
    {
      if i > 0 {
        var o := Offset(lists[1..], i - 1);
        assert lists[1..][i - 1] == lists[i];
        assert Offset(lists, i) == |first| + o;
        assert errs[|first| + o..|first| + o + |lists[i]|] == rest[o..o + |lists[i]|];
      }
    }
  }

  /** The loop of `ClusterPolicy.Validate`: the error lists appended one
      after another (`FlattenLayout` states where each one lands). */
  function Flatten(lists: seq<seq<PolicyError>>): (errs: seq<PolicyError>)
    ensures |errs| == Total(lists)
  {
    if |lists| == 0 then [] else lists[0] + Flatten(lists[1..])
  }

  /** Each list sits intact, in list order, in the flattened errors. */
  lemma {:induction false} FlattenLayout(lists: seq<seq<PolicyError>>)
    ensures LaidOut(Flatten(lists), lists)
  {
    if |lists| > 0 {
      FlattenLayout(lists[1..]);
      ConsLaidOut(lists[0], Flatten(lists[1..]), lists);
    }
  }

  /** Laid-out lists are empty exactly when every list is, and hold exactly
      the errors of the lists. */
  lemma {:induction false} FlattenContents(lists: seq<seq<PolicyError>>)
    ensures Flatten(lists) == [] <==> forall i :: 0 <= i < |lists| ==> lists[i] == []
    ensures forall e :: e in Flatten(lists) <==> exists i :: 0 <= i < |lists| && e in lists[i]
  {
    if |lists| > 0 {
      FlattenContents(lists[1..]);
      assert Flatten(lists) == lists[0] + Flatten(lists[1..]);
      assert forall i :: 0 < i < |lists| ==> lists[i] == lists[1..][i - 1];
      forall e | e in Flatten(lists)
        ensures exists i :: 0 <= i < |lists| && e in lists[i]
      {
        if e !in lists[0] {
          var j :| 0 <= j < |lists[1..]| && e in lists[1..][j];
          assert e in lists[j + 1];
        }
      }
    }
  }

  /** Every rule's errors, rule by rule: `RuleErrorLists` laid end to end
      (`RulesErrorsLayout`); none of them is a duplicate-name error, which
      only the uniqueness check reports. */
  function RulesErrors(rules: seq<Rule>, compile: SelectorCompiler): (errs: seq<PolicyError>)
    ensures forall e :: e in errs ==> !e.DuplicateRuleName?
  {
    var lists := RuleErrorLists(rules, compile);
    FlattenContents(lists);
    Flatten(lists)
  }

  /** Rule `i`'s errors sit intact at `Offset(lists, i)`, in rule order. */
  lemma RulesErrorsLayout(rules: seq<Rule>, compile: SelectorCompiler)
    ensures LaidOut(RulesErrors(rules, compile), RuleErrorLists(rules, compile))
  {
    FlattenLayout(RuleErrorLists(rules, compile));
  }

  /** The rules' errors are empty exactly when every rule passes, and hold
      exactly the errors some rule reports. */
  lemma RulesErrorsContents(rules: seq<Rule>, compile: SelectorCompiler)
    ensures RulesErrors(rules, compile) == [] <==> forall i :: 0 <= i < |rules| ==> ValidateRule(rules[i], compile) == []
    ensures forall i, e :: 0 <= i < |rules| && e in ValidateRule(rules[i], compile) ==> e in RulesErrors(rules, compile)
    ensures forall e :: e in RulesErrors(rules, compile) ==>
              exists i :: 0 <= i < |rules| && e in ValidateRule(rules[i], compile)
  {
    var lists := RuleErrorLists(rules, compile);
    FlattenContents(lists);
    forall i, e | 0 <= i < |rules| && e in ValidateRule(rules[i], compile)
      ensures e in RulesErrors(rules, compile)
    {
      assert e in lists[i];
    }
    forall e | e in RulesErrors(rules, compile)
      ensures exists i :: 0 <= i < |rules| && e in ValidateRule(rules[i], compile)
    {
      var i :| 0 <= i < |lists| && e in lists[i];
      assert e in ValidateRule(rules[i], compile);
    }
  }

  function RuleErrorLists(rules: seq<Rule>, compile: SelectorCompiler): (lists: seq<seq<PolicyError>>)
    ensures |lists| == |rules|
    ensures forall i :: 0 <= i < |rules| ==> lists[i] == ValidateRule(rules[i], compile)
  {
    if |rules| == 0 then []
    else [ValidateRule(rules[0], compile)] + RuleErrorLists(rules[1..], compile)
  }

  /** Appending to laid-out lists leaves the layout intact in front. */
  lemma AppendKeepsLayout(front: seq<PolicyError>, back: seq<PolicyError>, lists: seq<seq<PolicyError>>)
    requires LaidOut(front, lists)
    ensures |front + back| == Total(lists) + |back|
    ensures LaidOut((front + back)[..Total(lists)], lists)
  {
    assert (front + back)[..Total(lists)] == front;
  }

  /** Appending the uniqueness check's result adds nothing when the names
      are distinct, and otherwise ends the list with the duplicate error of
      the first repeat. */
  lemma UniquenessTail(p: ClusterPolicy, front: seq<PolicyError>)
    ensures var errs := front + ErrorList(ValidateUniqueRuleName(p));
            && |errs| == |front| + (if DistinctNames(p.rules) then 0 else 1)
            && (!DistinctNames(p.rules) ==>
                  exists k :: IsFirstRepeat(p.rules, k) && errs[|errs| - 1] == DuplicateRuleName(p.rules[k].name))
  {
    var u := ValidateUniqueRuleName(p);
    if u.Some? {
      var errs := front + [u.value];
      assert errs[|errs| - 1] == u.value;
    }
  }

  /** `ClusterPolicy.Validate`: every rule's errors laid out intact and in
      rule order, then, exactly when two rules share a name, one more error:
      the duplicate-name error of the first repeat. */
  function ValidatePolicy(p: ClusterPolicy, compile: SelectorCompiler): (errs: seq<PolicyError>)
    ensures var lists := RuleErrorLists(p.rules, compile);
            && |errs| == Total(lists) + (if DistinctNames(p.rules) then 0 else 1)
            && LaidOut(errs[..Total(lists)], lists)
    ensures !DistinctNames(p.rules) ==>
            exists k :: IsFirstRepeat(p.rules, k) && errs[|errs| - 1] == DuplicateRuleName(p.rules[k].name)
  {
    var lists := RuleErrorLists(p.rules, compile);
    var rulePart := RulesErrors(p.rules, compile);
    var dup := ErrorList(ValidateUniqueRuleName(p));
    RulesErrorsLayout(p.rules, compile);
    AppendKeepsLayout(rulePart, dup, lists);
    UniquenessTail(p, rulePart);
    rulePart + dup
  }

  /** A policy produces no error exactly when its rule names are distinct and
      every rule satisfies every condition. */
  lemma PolicyPassesIff(p: ClusterPolicy, compile: SelectorCompiler)
    ensures ValidatePolicy(p, compile) == [] <==>
            DistinctNames(p.rules) && forall i :: 0 <= i < |p.rules| ==> RuleOk(p.rules[i], compile)
  {
    RulesErrorsContents(p.rules, compile);
    assert ValidatePolicy(p, compile) == RulesErrors(p.rules, compile) + ErrorList(ValidateUniqueRuleName(p));
    forall i | 0 <= i < |p.rules| {
      RulePassesIff(p.rules[i], compile);
    }
  }

  /** A policy's errors are exactly its rules' errors plus, when names repeat,
      the duplicate-name error of the first repeat. */
  lemma PolicyErrorContents(p: ClusterPolicy, compile: SelectorCompiler, e: PolicyError)
    ensures e in ValidatePolicy(p, compile) <==>
            || (exists i :: 0 <= i < |p.rules| && e in ValidateRule(p.rules[i], compile))
            || (e.DuplicateRuleName? && exists k :: IsFirstRepeat(p.rules, k) && e.name == p.rules[k].name)
  {
    var rulePart := RulesErrors(p.rules, compile);
    var tail := ErrorList(ValidateUniqueRuleName(p));
    assert ValidatePolicy(p, compile) == rulePart + tail;
    assert e in rulePart + tail <==> e in rulePart || e in tail;
    assert e in tail <==> ValidateUniqueRuleName(p) == Some(e);
    UniqueNameErrorIff(p, e);
    RulesErrorsContents(p.rules, compile);
  }

  /** When every rule passes, the policy reports the uniqueness check's
      result and nothing else. */
  lemma RulesPassOnlyUniqueness(p: ClusterPolicy, compile: SelectorCompiler)
    requires forall i :: 0 <= i < |p.rules| ==> ValidateRule(p.rules[i], compile) == []
    ensures ValidatePolicy(p, compile) == ErrorList(ValidateUniqueRuleName(p))
  {
    var rulePart := RulesErrors(p.rules, compile);
    RulesErrorsContents(p.rules, compile);
    assert rulePart == [];
    assert ValidatePolicy(p, compile) == rulePart + ErrorList(ValidateUniqueRuleName(p));
  }

  /** The uniqueness check reports `e` exactly when `e` names the first repeat. */
  lemma UniqueNameErrorIff(p: ClusterPolicy, e: PolicyError)
    ensures ValidateUniqueRuleName(p) == Some(e) <==>
            e.DuplicateRuleName? && exists k :: IsFirstRepeat(p.rules, k) && e.name == p.rules[k].name
  {
    if e.DuplicateRuleName? && exists k :: IsFirstRepeat(p.rules, k) && e.name == p.rules[k].name {
      var k :| IsFirstRepeat(p.rules, k) && e.name == p.rules[k].name;
      var u := ValidateUniqueRuleName(p);
      var k' :| IsFirstRepeat(p.rules, k') && u.value == DuplicateRuleName(p.rules[k'].name);
      FirstRepeatUnique(p.rules, k, k');
    }
  }

  lemma FirstRepeatUnique(rules: seq<Rule>, k: int, k': int)
    requires IsFirstRepeat(rules, k) && IsFirstRepeat(rules, k')
    ensures k == k'
  {
  }

  /** A duplicate-name error is reported exactly when two rules share a name. */
  lemma DuplicateReportedIff(p: ClusterPolicy, compile: SelectorCompiler)
    ensures (exists e :: e in ValidatePolicy(p, compile) && e.DuplicateRuleName?) <==> !DistinctNames(p.rules)
  {
    var u := ValidateUniqueRuleName(p);
    assert ValidatePolicy(p, compile) == RulesErrors(p.rules, compile) + ErrorList(u);
    if u.Some? {
      assert u.value in ValidatePolicy(p, compile);
    }
  }
}
