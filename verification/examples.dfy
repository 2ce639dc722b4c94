/** Concrete documents and the verdicts the validator gives them, stated
    as lemmas about the model. */
module Scenarios {
  import opened Diagnostics
  import opened Values
  import opened Paths
  import opened PolicyTypes
  import opened AnchorWalk
  import opened FieldValidators
  import opened PolicyValidation

  /** `{"spec": {"containers": {"^(name)": "nginx"}}}`: the anchor holds a string. */
  lemma AnchorOnScalarRejected()
    ensures CheckPattern(Map([("spec", Map([("containers", Map([("^(name)", Str("nginx"))]))]))]), Root)
            == Some(AnchorNotOnArray("/spec/containers/name"))
  {
    var containers := Map([("^(name)", Str("nginx"))]);
    var spec := Map([("containers", containers)]);
    var root := Map([("spec", spec)]);
    assert Anchors.IsExistingAnchor("^(name)") && Anchors.AnchorName("^(name)") == "name" by {
      Anchors.DecorateThenClassify("name");
      assert Anchors.Open + "name" + Anchors.Close == "^(name)";
    }
    assert !Anchors.IsExistingAnchor("spec") && !Anchors.IsExistingAnchor("containers");
    assert Child(Root, "spec") == "/spec/";
    assert Child("/spec/", "containers") == "/spec/containers/";
    assert "/spec/containers/" + "name" == "/spec/containers/name";
    assert CheckEntriesFrom(containers, "/spec/containers/", 0) == Some(AnchorNotOnArray("/spec/containers/name"));
    assert CheckPattern(containers, "/spec/containers/") == Some(AnchorNotOnArray("/spec/containers/name"));
    assert CheckEntriesFrom(spec, "/spec/", 0) == Some(AnchorNotOnArray("/spec/containers/name"));
    assert CheckPattern(spec, "/spec/") == Some(AnchorNotOnArray("/spec/containers/name"));
    assert CheckEntriesFrom(root, Root, 0) == Some(AnchorNotOnArray("/spec/containers/name"));
  }

  /** `{"spec": {"containers": []}}`: an empty array is rejected at its own path. */
  lemma EmptyArrayRejected()
    ensures CheckPattern(Map([("spec", Map([("containers", Arr([]))]))]), Root)
            == Some(EmptyPatternArray("/spec/containers/"))
  {
    var spec := Map([("containers", Arr([]))]);
    var root := Map([("spec", spec)]);
    assert !Anchors.IsExistingAnchor("spec") && !Anchors.IsExistingAnchor("containers");
    assert Child(Root, "spec") == "/spec/";
    assert Child("/spec/", "containers") == "/spec/containers/";
    assert CheckEntriesFrom(spec, "/spec/", 0) == Some(EmptyPatternArray("/spec/containers/"));
    assert CheckEntriesFrom(root, Root, 0) == Some(EmptyPatternArray("/spec/containers/"));
  }

  /** A non-empty array of containers, one of which sets
      `securityContext.privileged: false`, and an anchored key that holds an
      array: nothing to report. */
  lemma WellFormedPatternAccepted(path: string)
    ensures CheckPattern(
              Map([("spec", Map([("containers", Arr([
                Map([("securityContext", Map([("privileged", Bool(false))]))]),
                Map([("^(ports)", Arr([Num]))])]))]))]),
              path).None?
  {
    var first := Map([("securityContext", Map([("privileged", Bool(false))]))]);
    var second := Map([("^(ports)", Arr([Num]))]);
    var root := Map([("spec", Map([("containers", Arr([first, second]))]))]);
    assert !Anchors.IsExistingAnchor("securityContext") && !Anchors.IsExistingAnchor("privileged");
    assert !Anchors.IsExistingAnchor("spec") && !Anchors.IsExistingAnchor("containers");
    assert WellFormedPattern(first);
    assert WellFormedPattern(second);
    assert WellFormedPattern(root);
    CheckPatternPassesIff(root, path);
  }

  /** A string leaf written as an anchor is reported under its index path. */
  lemma AnchorAsValueRejected()
    ensures CheckPattern(Arr([Str("x"), Str("^(image)")]), Root) == Some(AnchorNotOnArray("/1/image"))
  {
    var v := Arr([Str("x"), Str("^(image)")]);
    assert !Anchors.IsExistingAnchor("x");
    assert Anchors.IsExistingAnchor("^(image)") && Anchors.AnchorName("^(image)") == "image" by {
      Anchors.DecorateThenClassify("image");
      assert Anchors.Open + "image" + Anchors.Close == "^(image)";
    }
    assert Decimal(1) == "1";
    assert Child(Root, "1") == "/1/";
    assert "/1/" + "image" == "/1/image";
    assert CheckItemsFrom(v, Root, 1) == Some(AnchorNotOnArray("/1/image"));
    assert CheckItemsFrom(v, Root, 0) == Some(AnchorNotOnArray("/1/image"));
  }

  /** `{"^(ports)": [[]]}`: the anchor is placed correctly, so the walk goes
      on below it, under the raw key (decoration included) and then the index. */
  lemma RawKeyInChildPath()
    ensures CheckPattern(Map([("^(ports)", Arr([Arr([])]))]), Root)
            == Some(EmptyPatternArray("/^(ports)/0/"))
  {
    var ports := Arr([Arr([])]);
    var root := Map([("^(ports)", ports)]);
    assert Child(Root, "^(ports)") == "/^(ports)/";
    assert Decimal(0) == "0";
    assert Child("/^(ports)/", "0") == "/^(ports)/0/";
    assert CheckItemsFrom(ports, "/^(ports)/", 0) == Some(EmptyPatternArray("/^(ports)/0/"));
    assert CheckPattern(ports, "/^(ports)/") == Some(EmptyPatternArray("/^(ports)/0/"));
    assert CheckEntriesFrom(root, Root, 0) == Some(EmptyPatternArray("/^(ports)/0/"));
  }

  /** `add` without a value fails; `remove` without a value passes. */
  lemma PatchValueScenarios()
    ensures ValidatePatch(Patch("/metadata/labels", "add", Null)) == Some(MissingPatchValue("add"))
    ensures ValidatePatch(Patch("/metadata/labels", "remove", Null)).None?
    ensures ValidatePatch(Patch("/metadata/labels", "move", Str("v"))) == Some(UnsupportedPatchOperation("move"))
  {
  }

  /** Both sources, or neither, are refused with distinct errors. */
  lemma GenerationSourceScenarios()
    ensures ValidateGeneration(Generation("ConfigMap", "cm", Map([]), CloneFrom("default", "cm")))
            == Some(ConflictingGenerationSource("ConfigMap"))
    ensures ValidateGeneration(Generation("ConfigMap", "cm", Null, CloneFrom("", "")))
            == Some(MissingGenerationSource("ConfigMap"))
  {
  }

  /** The zero values of a rule's blocks: every slice nil, every value null. */
  const EmptyDescription := ResourceDescription(Nil, "", Nil, None)
  const EmptyMutation := Mutation(Null, Nil)
  const EmptyValidation := Validation("", Null, Nil)
  const EmptyGeneration := Generation("", "", Null, CloneFrom("", ""))

  /** A rule that only validates, with one well-formed pattern. */
  function ValidatingRule(name: string): Rule {
    Rule(
      name,
      ResourceDescription(Slice(["Pod"]), "", Nil, None),
      EmptyDescription,
      EmptyMutation,
      Validation("", Map([("spec", Map([("containers", Arr([Map([])]))]))]), Nil),
      EmptyGeneration)
  }

  /** The validating rule above passes every rule-level check. */
  lemma ValidatingRulePasses(name: string, compile: SelectorCompiler)
    ensures ValidateRule(ValidatingRule(name), compile) == []
  {
    var r := ValidatingRule(name);
    var tree := r.validation.pattern;
    assert !Anchors.IsExistingAnchor("spec") && !Anchors.IsExistingAnchor("containers");
    assert WellFormedPattern(tree.entries[0].1.entries[0].1);
    assert WellFormedPattern(tree);
    assert RuleOk(r, compile);
    RulePassesIff(r, compile);
  }

  /** Two copies of a rule that passes every rule-level check: the policy
      reports the duplicate name and nothing else. */
  lemma SoundTwinRules(r: Rule, compile: SelectorCompiler)
    requires ValidateRule(r, compile) == []
    ensures ValidatePolicy(ClusterPolicy([r, r]), compile) == [DuplicateRuleName(r.name)]
  {
    TwinRulesPass(r, compile);
    TwinNamesRepeat(r);
  }

  lemma TwinRulesPass(r: Rule, compile: SelectorCompiler)
    requires ValidateRule(r, compile) == []
    ensures ValidatePolicy(ClusterPolicy([r, r]), compile) == ErrorList(ValidateUniqueRuleName(ClusterPolicy([r, r])))
  {
    var rules := [r, r];
    forall i | 0 <= i < |rules|
      ensures ValidateRule(rules[i], compile) == []
    {
      assert rules[i] == r;
    }
    RulesPassOnlyUniqueness(ClusterPolicy(rules), compile);
  }

  lemma TwinNamesRepeat(r: Rule)
    ensures ValidateUniqueRuleName(ClusterPolicy([r, r])) == Some(DuplicateRuleName(r.name))
  {
    var rules := [r, r];
    assert rules[..1] == [r] && rules[0].name == rules[1].name;
    assert IsFirstRepeat(rules, 1);
    UniqueNameErrorIff(ClusterPolicy(rules), DuplicateRuleName(r.name));
  }

  /** Two rules named `r1`: the policy reports the duplicate, and nothing else
      since both rules are otherwise sound. */
  lemma DuplicateNameScenario(compile: SelectorCompiler)
    ensures ValidatePolicy(ClusterPolicy([ValidatingRule("r1"), ValidatingRule("r1")]), compile)
            == [DuplicateRuleName("r1")]
  {
    ValidatingRulePasses("r1", compile);
    SoundTwinRules(ValidatingRule("r1"), compile);
  }

  /** A rule that sets no block at all reports the missing rule type. */
  lemma NoRuleTypeScenario(compile: SelectorCompiler)
    ensures ValidateRule(
              Rule("empty", EmptyDescription, EmptyDescription, EmptyMutation, EmptyValidation, EmptyGeneration),
              compile)
            == [NoRuleTypeDefined("empty")]
  {
  }

  /** `kinds: []` is a non-nil empty slice, so the description is set and
      lists no kind; a nil `kinds` alone leaves it unset. */
  lemma EmptyKindsRejected(compile: SelectorCompiler)
    ensures ValidateResourceDescription(ResourceDescription(Slice([]), "", Nil, None), compile)
            == Some(MissingResourceKind)
    ensures ValidateResourceDescription(EmptyDescription, compile).None?
  {
  }

  /** `validate: {anyPattern: []}`: the validation block differs from its
      zero value, so the rule is a validate rule that gives neither a pattern
      nor a non-empty anyPattern. */
  lemma EmptyAnyPatternIsValidateRule(compile: SelectorCompiler)
    ensures ValidateRule(
              Rule("r", EmptyDescription, EmptyDescription, EmptyMutation,
                   Validation("", Null, Slice([])), EmptyGeneration),
              compile)
            == [MissingPattern("r")]
  {
  }

  /** Swapping the entries of a nested map is a rearrangement the walk's
      verdict ignores. */
  lemma NestedSwapReordered()
    ensures Reordered(Map([("spec", Map([("a", Num), ("b", Arr([Null]))]))]),
                      Map([("spec", Map([("b", Arr([Null])), ("a", Num)]))]))
  {
    var inner := Map([("a", Num), ("b", Arr([Null]))]);
    var inner' := Map([("b", Arr([Null])), ("a", Num)]);
    assert Reordered(Arr([Null]), Arr([Null]));
    assert [1, 0][1] == 0 && [1, 0][0] == 1;
    assert Hits([1, 0], 0) && Hits([1, 0], 1);
    assert IsPermutation([1, 0], 2);
    assert Reordered(inner, inner');
    assert [0][0] == 0 && Hits([0], 0);
    assert IsPermutation([0], 1);
  }
}
