# Structural validation of Kyverno policies (v1alpha1), in Dafny

This project models the structural validator of Kyverno `ClusterPolicy`
documents (`pkg/api/kyverno/v1alpha1/validate.go`) and proves what it
accepts and rejects.

The validator has two parts:

- **Field-group checks.** Each returns at most one error:
  - every rule sets exactly one of mutate, validate and generate;
  - a set match or exclude description lists at least one kind, and a present selector compiles to at least one requirement;
  - a set validation block gives exactly one of `pattern` and `anyPattern`;
  - a JSON Patch has a path and a supported operation, and `add`/`replace` carry a value;
  - a generation block has exactly one of `data` and `clone`.
- **The existing-anchor walk.** It is a fail-fast, depth-first descent over a pattern tree. It rejects:
  - a key written `^(name)` bound to anything but an array;
  - an empty array at any depth;
  - a string leaf that is itself an anchor.

`Rule.Validate` runs every check of a rule and concatenates their errors in a
fixed order. `ClusterPolicy.Validate` concatenates every rule's errors and then
adds the rule-name uniqueness error. The uniqueness check stops at the first
repeated name.

Files and modules:

| file | module | contents |
|---|---|---|
| `diagnostics.dfy` | `Diagnostics` | error tags; `Option` for Go's nil-or-error |
| `values.dfy` | `Values`, `Anchors`, `Paths` | the pattern tree; the `^(…)` classifier; path building |
| `walk.dfy` | `AnchorWalk` | the walk, a path-free reference definition of a well-formed tree, and the proofs that they agree |
| `types.dfy` | `PolicyTypes` | Go slices (nil or not), policy, rule and field-group records; zero-value tests; `HasMutate`/`HasValidate`/`HasGenerate` |
| `fields.dfy` | `FieldValidators` | the five field-group validators with reference conditions |
| `policy.dfy` | `PolicyValidation` | `Rule.Validate`, `ValidateExistingAnchor`, uniqueness, `ClusterPolicy.Validate` and their lemmas |
| `examples.dfy` | `Scenarios` | concrete documents and the verdicts the validator gives them |

Modelling conventions:

- **Nil values.** Go's `interface{}` fields (`Pattern`, `AnyPattern` entries, `Data`, `Value`, `Overlay`) are `Values.Value`. Go's `nil`, which is also what JSON `null` decodes to, is `Null`.
- **Slices.** A Go slice field (`Kinds`, `Namespaces`, `Patches`, `AnyPattern`) is a `PolicyTypes.Slice`: either `Nil` or `Slice(elems)`. `len` is the length of `Elements()`, which is empty for both `Nil` and `Slice([])`.
- **Zero values.** Go's zero-value tests are the `IsEmpty…` predicates. Each one says that every field holds its zero value, and a slice's zero value is `Nil`. The predicates stand for `reflect.DeepEqual(x, T{})` and `x == CloneFrom{}`. Like `reflect.DeepEqual`, they tell a nil slice from an empty one, so `kinds: []` on its own makes a description set, and it then fails for lacking a kind (`Scenarios.EmptyKindsRejected`).
- **Map order.** A pattern map is a sequence of entries. The walk visits them in sequence order, which stands for one of Go's iteration orders. `EntryOrderIrrelevant` proves that the pass/fail verdict does not depend on the order of one map's entries. `NestedOrderIrrelevant` proves the same for any reordering of the entries of every map at every depth, each map by its own permutation.
- **Selectors.** `metav1.LabelSelectorAsSelector` followed by `Requirements()` is Kubernetes library code. It is a function parameter of type `SelectorCompiler`, which returns either a requirement count or a rejection.
- **Anchor classifier.** `hasExistingAnchor` is defined in a file that is not part of this model. It is modelled as the `^(`…`)` recogniser `Anchors.IsExistingAnchor`. A key is an anchor when it is at least three characters long, starts with `^(` and ends with `)`. `Anchors.AnchorName` is the text in between.
- **Shared helpers.** `containString` is modelled as sequence membership. `joinErrs` returns the list of errors, so an empty list means success.
- **Record shapes.** The records' Go declarations live in a types file that is not part of this model. The records keep the fields the validator reads, plus the sibling fields that decide zero-value equality: `ResourceDescription{Kinds, Name, Namespaces, Selector}`, `Validation{Message, Pattern, AnyPattern}`, `Mutation{Overlay, Patches}`, `Generation{Kind, Name, Data, Clone}` and `CloneFrom{Namespace, Name}`.

Two behaviours of the code worth knowing:

- **Duplicate names.** The uniqueness check stops at the first repeated name, but `ClusterPolicy.Validate` does not stop there. It still reports every rule's errors first, then appends the duplicate-name error (validate.go:16-24). See `ValidatePolicy`, `PolicyErrorContents` and `DuplicateNameScenario`.
- **Anchor error paths.** An anchor misuse is reported at the enclosing path plus the anchor's name, for example `/spec/containers/name`. This is because the code formats `path+str` with the stripped name (validate.go:211, 227). An empty array is reported at its own path (validate.go:241).

## Model

| member | source | states |
|---|---|---|
| Anchors.DecorateThenClassify | pkg/api/kyverno/v1alpha1/validate.go:225 | decorating any name as `^(name)` gives a key the classifier accepts, and stripping it gives the name back |
| Anchors.AnchorName | pkg/api/kyverno/v1alpha1/validate.go:210-211 | the stripped name is exactly what lies between `^(` and `)` |
| Paths.Decimal | pkg/api/kyverno/v1alpha1/validate.go:245 | an array index becomes a non-empty string of decimal digits without a leading zero |
| Paths.DecimalRoundTrip | pkg/api/kyverno/v1alpha1/validate.go:245 | reading the rendered digits back as a decimal number gives the index again |
| Paths.DecimalInjective | pkg/api/kyverno/v1alpha1/validate.go:244-246 | distinct indices render as distinct strings, so sibling elements get distinct paths |
| Paths.Child | pkg/api/kyverno/v1alpha1/validate.go:231 | a child path extends its parent's path by the segment and one `/` |
| Paths.ChildSegment | pkg/api/kyverno/v1alpha1/validate.go:231 | the segment sits intact right after the parent's path |
| AnchorWalk.CheckPattern | pkg/api/kyverno/v1alpha1/validate.go:201-221 | any error the walk reports is an anchor or empty-array error, located at or below the starting path |
| AnchorWalk.CheckMap | pkg/api/kyverno/v1alpha1/validate.go:223-237 | any error found inside a map is an anchor or empty-array error, located at or below the map's path |
| AnchorWalk.CheckEntriesFrom | pkg/api/kyverno/v1alpha1/validate.go:224-234 | the entry loop reports only walk errors, each located at or below the map's path |
| AnchorWalk.CheckArray | pkg/api/kyverno/v1alpha1/validate.go:239-252 | an empty array is reported at its own path; any other error is located at or below it |
| AnchorWalk.CheckItemsFrom | pkg/api/kyverno/v1alpha1/validate.go:244-249 | the element loop reports only walk errors, each located at or below the array's path |
| AnchorWalk.CheckPatternPassesIff | pkg/api/kyverno/v1alpha1/validate.go:201-252 | the walk succeeds from any path exactly when the tree is well-formed by the path-free, order-free reference definition |
| AnchorWalk.CheckEntriesFromPassesIff | pkg/api/kyverno/v1alpha1/validate.go:223-237 | the entry loop from entry i succeeds exactly when every later entry puts anchors on arrays and holds a well-formed value |
| AnchorWalk.CheckItemsFromPassesIff | pkg/api/kyverno/v1alpha1/validate.go:239-252 | the element loop from element i succeeds exactly when every later element is well-formed |
| AnchorWalk.WellFormedIffNoViolation | pkg/api/kyverno/v1alpha1/validate.go:201-252 | a tree is well-formed exactly when no node at any depth is an empty array, an anchor string or a map with an anchor on a non-array |
| AnchorWalk.NoViolationBelowWellFormed | pkg/api/kyverno/v1alpha1/validate.go:201-252 | no node of a well-formed tree is a violation |
| AnchorWalk.SomeViolation | pkg/api/kyverno/v1alpha1/validate.go:201-252 | a tree that is not well-formed contains a violating node |
| AnchorWalk.CheckPatternFailsIff | pkg/api/kyverno/v1alpha1/validate.go:201-252 | the walk fails exactly when the tree contains, at any depth, one of the three violations |
| AnchorWalk.EntryOrderIrrelevant | pkg/api/kyverno/v1alpha1/validate.go:224 | rearranging a map's entries, as Go's unspecified iteration order may, does not change whether the walk fails |
| AnchorWalk.SameEntriesSameVerdict | pkg/api/kyverno/v1alpha1/validate.go:224-234 | a map whose entries are a rearrangement of a well-formed map's entries is well-formed |
| AnchorWalk.NestedOrderIrrelevant | pkg/api/kyverno/v1alpha1/validate.go:201-252 | reordering the entries of every map at every depth does not change whether the walk fails, from any starting paths |
| AnchorWalk.ReorderedWellFormed | pkg/api/kyverno/v1alpha1/validate.go:201-252 | a tree and any nested reordering of it are well-formed together |
| AnchorWalk.ReorderedKeepsShape | pkg/api/kyverno/v1alpha1/validate.go:226 | a reordered value is an array exactly when the original is, so an anchor's value passes the array test in both or in neither |
| PolicyTypes.TypeCount | pkg/api/kyverno/v1alpha1/validate.go:91-93 | a rule sets at most three types, and none exactly when no block differs from its zero value |
| PolicyTypes.ZeroValueTests | pkg/api/kyverno/v1alpha1/validate.go:108-118 | each zero-value test holds exactly when the record equals its zero value (nil slices, empty strings, nil values, no selector), and `HasMutate`/`HasValidate`/`HasGenerate` hold exactly when the block differs from it |
| FieldValidators.ValidateRuleType | pkg/api/kyverno/v1alpha1/validate.go:90-106 | passes iff exactly one type is set; "no rule defined" iff none; "multiple types" iff two or more |
| FieldValidators.ValidateOverlayPattern | pkg/api/kyverno/v1alpha1/validate.go:73-87 | an unset validation passes; otherwise passes iff exactly one of pattern/anyPattern; "neither" and "either" errors each iff their case |
| FieldValidators.ValidateResourceDescription | pkg/api/kyverno/v1alpha1/validate.go:125-146 | the zero description (nil slices, no selector) passes; a set one without kinds fails with the missing-kind error whatever its selector; with kinds, a selector the compiler rejects fails with the compiler's reason and one compiling to no requirement fails with the empty-requirements error; passes iff unset or (kinds present and selector absent or compiling to at least one requirement) |
| FieldValidators.ValidatePatch | pkg/api/kyverno/v1alpha1/validate.go:149-165 | an empty path fails for every operation; passes iff path set, operation supported, and a value for add/replace; missing-value and unsupported-operation errors each iff their case |
| FieldValidators.ValidateGeneration | pkg/api/kyverno/v1alpha1/validate.go:168-176 | passes iff exactly one of data and clone is present; neither and both give distinct errors, each iff its case |
| Diagnostics.ErrorList | pkg/api/kyverno/v1alpha1/validate.go:47-49 | appending a single check's result adds nothing on success and exactly that error on failure |
| PolicyValidation.AnyPatternErrors | pkg/api/kyverno/v1alpha1/validate.go:189-195 | error k is the walk error of the k-th failing anyPattern entry, with one error per failing entry and none for passing ones, all of them walk errors; no error iff every entry's walk succeeds |
| PolicyValidation.AnyPatternErrorsFrom | pkg/api/kyverno/v1alpha1/validate.go:190-194 | the loop from entry i gives one error per failing later entry, error k being the walk error of the k-th of them |
| PolicyValidation.FailingFromIndices | pkg/api/kyverno/v1alpha1/validate.go:190-194 | the failing-entry indices are increasing, and an index from the start on is listed iff its tree's walk fails |
| PolicyValidation.FailingFromShift | pkg/api/kyverno/v1alpha1/validate.go:183-194 | walking one more tree first shifts every later failing index by one |
| PolicyValidation.PrependReports | pkg/api/kyverno/v1alpha1/validate.go:183-194 | walking the pattern before the anyPattern entries puts its error, if any, in front and keeps the line-up |
| PolicyValidation.PrependFailing | pkg/api/kyverno/v1alpha1/validate.go:183-186 | a failing tree walked first contributes its own walk error first |
| PolicyValidation.PrependPassing | pkg/api/kyverno/v1alpha1/validate.go:183-186 | a passing tree walked first contributes nothing |
| PolicyValidation.ShiftReports | pkg/api/kyverno/v1alpha1/validate.go:183-194 | reports about the later trees stay correct at shifted indices |
| PolicyValidation.ConsReports | pkg/api/kyverno/v1alpha1/validate.go:183-194 | one more correct report in front keeps every report correct |
| PolicyValidation.ValidateExistingAnchor | pkg/api/kyverno/v1alpha1/validate.go:180-198 | at most one error for the pattern and one per anyPattern entry, all of them walk errors |
| PolicyValidation.PatternTrees | pkg/api/kyverno/v1alpha1/validate.go:183-195 | the trees walked are the pattern first when present, then exactly the anyPattern entries in order |
| PolicyValidation.ExistingAnchorErrorsPerTree | pkg/api/kyverno/v1alpha1/validate.go:180-198 | error k is the walk error of the k-th failing tree among the pattern and then the anyPattern entries, one per failing tree and none for a passing one |
| PolicyValidation.ExistingAnchorPassesIff | pkg/api/kyverno/v1alpha1/validate.go:180-198 | no anchor error iff the present pattern and every anyPattern entry are well-formed |
| PolicyValidation.FieldCheckErrors | pkg/api/kyverno/v1alpha1/validate.go:46-63 | the four field-group checks contribute at most four errors (where each one sits: `RuleErrorsLayout`) |
| PolicyValidation.FieldCheckErrorKinds | pkg/api/kyverno/v1alpha1/validate.go:46-63 | the field-group checks never report walk or duplicate-name errors |
| PolicyValidation.FieldCheckErrorsMembership | pkg/api/kyverno/v1alpha1/validate.go:46-63 | an error is among the field-group errors iff one of the four checks returned it |
| PolicyValidation.ValidateRule | pkg/api/kyverno/v1alpha1/validate.go:43-70 | at most four errors plus one for the pattern and one per anyPattern entry, none of them a duplicate-name error (exact contents: `RuleErrorsLayout`) |
| PolicyValidation.RulePassesIff | pkg/api/kyverno/v1alpha1/validate.go:43-70 | a rule has no error iff one type is set, both descriptions are sound, the pattern choice is sound and every pattern tree is well-formed |
| PolicyValidation.RuleTypeErrorsIff | pkg/api/kyverno/v1alpha1/validate.go:90-106 | a rule reports "no rule defined" iff it sets no type, and "multiple types" iff it sets two or more |
| PolicyValidation.PatternChoiceErrorsIff | pkg/api/kyverno/v1alpha1/validate.go:73-87 | a rule reports "neither" iff a set validation has no pattern and no anyPattern, and "either" iff it has both |
| PolicyValidation.MissingKindIff | pkg/api/kyverno/v1alpha1/validate.go:51-58 | a rule reports the missing-kind error iff its match or exclude description is set with no kinds |
| PolicyValidation.WalkErrorsIff | pkg/api/kyverno/v1alpha1/validate.go:65-67 | a rule reports some walk error iff one of its pattern trees is not well-formed |
| PolicyValidation.RuleErrorsInStageOrder | pkg/api/kyverno/v1alpha1/validate.go:43-70 | a rule's errors come in check order: rule type, descriptions, overlay pattern, anchors (match before exclude: `RuleErrorsLayout`) |
| PolicyValidation.RuleErrorsLayout | pkg/api/kyverno/v1alpha1/validate.go:43-70 | a rule's errors are, intact and in this order, the rule-type result, the match description's, the exclude description's, the overlay check's and every anchor error, and nothing else |
| PolicyValidation.FiveLaidOut | pkg/api/kyverno/v1alpha1/validate.go:47-67 | five lists appended in order each sit intact at their offset |
| PolicyValidation.FlattenFive | pkg/api/kyverno/v1alpha1/validate.go:47-67 | flattening five lists appends them in order |
| PolicyValidation.ErrorListAtStage | pkg/api/kyverno/v1alpha1/validate.go:47-49 | a single check's error keeps that check's position in the order |
| PolicyValidation.StagedParts | pkg/api/kyverno/v1alpha1/validate.go:43-70 | five error lists from successive checks concatenate in check order |
| PolicyValidation.StagedConcat | pkg/api/kyverno/v1alpha1/validate.go:43-70 | appending a later check's errors keeps the list in check order |
| PolicyValidation.UniqueNamesFrom | pkg/api/kyverno/v1alpha1/validate.go:33-38 | given distinct names so far, the loop fails iff some name repeats, and then names the first repeated rule |
| PolicyValidation.ValidateUniqueRuleName | pkg/api/kyverno/v1alpha1/validate.go:30-40 | nil iff all rule names are distinct; otherwise the duplicate error names the first rule that repeats an earlier name |
| PolicyValidation.UniqueNameErrorIff | pkg/api/kyverno/v1alpha1/validate.go:30-40 | the uniqueness check returns e iff e is the duplicate error for the first repeated name |
| PolicyValidation.FirstRepeatUnique | pkg/api/kyverno/v1alpha1/validate.go:33-35 | at most one rule is the first to repeat an earlier name |
| PolicyValidation.Flatten | pkg/api/kyverno/v1alpha1/validate.go:16-20 | the concatenated errors are as long as all the lists together |
| PolicyValidation.Offset | pkg/api/kyverno/v1alpha1/validate.go:16-20 | list i starts within the flattened errors and fits before their end |
| PolicyValidation.ConsLaidOut | pkg/api/kyverno/v1alpha1/validate.go:16-20 | a list in front of laid-out lists keeps every list intact at its offset |
| PolicyValidation.FlattenLayout | pkg/api/kyverno/v1alpha1/validate.go:16-20 | each list sits intact, in list order, at its offset in the concatenation, and nothing else is there |
| PolicyValidation.FlattenContents | pkg/api/kyverno/v1alpha1/validate.go:16-20 | concatenated error lists are empty iff each list is, and contain exactly the errors of the lists |
| PolicyValidation.RuleErrorLists | pkg/api/kyverno/v1alpha1/validate.go:16-17 | one error list per rule, in rule order |
| PolicyValidation.RulesErrors | pkg/api/kyverno/v1alpha1/validate.go:16-20 | the rules' errors never include a duplicate-name error |
| PolicyValidation.RulesErrorsLayout | pkg/api/kyverno/v1alpha1/validate.go:16-20 | rule i's errors sit intact at their offset, in rule order, and nothing else is there |
| PolicyValidation.RulesErrorsContents | pkg/api/kyverno/v1alpha1/validate.go:16-20 | the rules' errors are empty iff every rule passes, and contain exactly the errors some rule reports |
| PolicyValidation.AppendKeepsLayout | pkg/api/kyverno/v1alpha1/validate.go:22-24 | appending the uniqueness error leaves the rules' errors intact in front |
| PolicyValidation.UniquenessTail | pkg/api/kyverno/v1alpha1/validate.go:22-24 | appending the uniqueness result adds nothing for distinct names, and otherwise exactly one last error naming the first repeat |
| PolicyValidation.ValidatePolicy | pkg/api/kyverno/v1alpha1/validate.go:13-27 | the errors are every rule's errors laid out intact in rule order, followed, exactly when two rules share a name, by one duplicate-name error naming the first repeat |
| PolicyValidation.RulesPassOnlyUniqueness | pkg/api/kyverno/v1alpha1/validate.go:13-27 | when every rule passes, the policy reports the uniqueness check's result and nothing else |
| PolicyValidation.PolicyPassesIff | pkg/api/kyverno/v1alpha1/validate.go:13-27 | a policy has no error iff its rule names are distinct and every rule satisfies every condition |
| PolicyValidation.PolicyErrorContents | pkg/api/kyverno/v1alpha1/validate.go:13-27 | a policy's errors are exactly its rules' errors plus the duplicate error for the first repeated name |
| PolicyValidation.DuplicateReportedIff | pkg/api/kyverno/v1alpha1/validate.go:22-24 | some duplicate-name error is reported iff two rules share a name |
| Scenarios.AnchorOnScalarRejected | pkg/api/kyverno/v1alpha1/validate.go:225-228 | `{"spec": {"containers": {"^(name)": "nginx"}}}` fails with the anchor error at `/spec/containers/name` |
| Scenarios.EmptyArrayRejected | pkg/api/kyverno/v1alpha1/validate.go:240-241 | `{"spec": {"containers": []}}` fails with the empty-array error at `/spec/containers/` |
| Scenarios.WellFormedPatternAccepted | pkg/api/kyverno/v1alpha1/validate.go:201-252 | a non-empty containers array with `securityContext.privileged: false` and an anchor on an array passes from any path |
| Scenarios.AnchorAsValueRejected | pkg/api/kyverno/v1alpha1/validate.go:209-212 | an anchor string as the second array element fails at `/1/image` |
| Scenarios.RawKeyInChildPath | pkg/api/kyverno/v1alpha1/validate.go:231-246 | below a correctly placed anchor the walk continues under the raw key and the index: `{"^(ports)": [[]]}` fails at `/^(ports)/0/` |
| Scenarios.PatchValueScenarios | pkg/api/kyverno/v1alpha1/validate.go:154-164 | `add` without value fails, `remove` without value passes, `move` is unsupported |
| Scenarios.GenerationSourceScenarios | pkg/api/kyverno/v1alpha1/validate.go:169-174 | both data and clone, and neither, give the two distinct errors |
| Scenarios.ValidatingRulePasses | pkg/api/kyverno/v1alpha1/validate.go:43-70 | a rule that only validates, matching Pods with a well-formed pattern, has no error |
| Scenarios.DuplicateNameScenario | pkg/api/kyverno/v1alpha1/validate.go:13-40 | two otherwise sound rules named `r1` give exactly the one duplicate-name error |
| Scenarios.SoundTwinRules | pkg/api/kyverno/v1alpha1/validate.go:13-40 | two copies of any sound rule give exactly one duplicate-name error |
| Scenarios.TwinRulesPass | pkg/api/kyverno/v1alpha1/validate.go:16-20 | with two sound rules, only the uniqueness result is reported |
| Scenarios.TwinNamesRepeat | pkg/api/kyverno/v1alpha1/validate.go:33-35 | the second of two same-named rules is the repeat the uniqueness check reports |
| Scenarios.NoRuleTypeScenario | pkg/api/kyverno/v1alpha1/validate.go:95-96 | a rule with no block set gives exactly the no-rule-type error |
| Scenarios.EmptyKindsRejected | pkg/api/kyverno/v1alpha1/validate.go:126-131 | `kinds: []` alone is not the zero description and fails with the missing-kind error, while the zero description passes |
| Scenarios.EmptyAnyPatternIsValidateRule | pkg/api/kyverno/v1alpha1/validate.go:73-87 | `validate: {anyPattern: []}` sets the validation block but gives neither pattern, so the rule fails with the missing-pattern error |
| Scenarios.NestedSwapReordered | pkg/api/kyverno/v1alpha1/validate.go:224 | swapping two entries of a nested map is a reordering in the sense of `NestedOrderIrrelevant` |

## Left out

- Selector compilation (validate.go:134-143): Kubernetes' `LabelSelectorAsSelector` and `Requirements()` are a function parameter. The model fixes only what the validator does with their result.
- `hasExistingAnchor`, `containString` and `joinErrs` are defined in files that are not part of this model. They are modelled as the `^(`…`)` recogniser, sequence membership and the plain error list.
- Message text, including `%T` renderings and `fmt.Errorf` formatting, is not modelled. Errors are tags with the identifying rule name, kind, operation or path.
- The path string the walk functions return alongside the error (the shadowed `path` at validate.go:231 and 246) is not modelled. Only the error is.
- The walk's "unknown type" branch (validate.go:217-219) and its `glog` line cannot occur. The tree datatype has no other shape.
- Numbers are opaque leaves, because the walk never inspects them. `float64`, `int` and `int64` are one `Num` constructor.
- Duplicate keys: Go maps have unique keys, but the model allows repeated keys in a map. The proved properties hold either way.
- A recursion-depth bound is not modelled. The source has none, and Dafny's values are finite trees.
- `Patch.Validate` and `Generation.Validate` are modelled on their own. Nothing in validate.go calls them from `Rule.Validate`, and the model keeps it that way.
- Idempotence of validation is not stated as a lemma. Every operation is a pure function, so two calls on the same policy give the same result by construction.
