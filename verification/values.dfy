/** The pattern tree: the parsed, schema-free document a pattern or anyPattern
    entry holds. Go represents it as `interface{}` holding
    `map[string]interface{}`, `[]interface{}` or a scalar; the model gives each
    shape its own constructor, so the validator's "unknown type" branch has no
    counterpart.
 */
module Values {

  /** `Null` is Go's `nil` (what a JSON `null` decodes to). Numbers are opaque
      leaves: the validator never looks at their value. A map is an
      association list; its order stands for one of Go's iteration orders. */
  datatype Value =
    | Map(entries: seq<(string, Value)>)
    | Arr(items: seq<Value>)
    | Str(str: string)
    | Num
    | Bool(b: bool)
    | Null

  /** `w` is `v` itself or sits somewhere below it, at any depth. */
  ghost predicate Occurs(w: Value, v: Value)
    decreases v
  {
    || w == v
    || (v.Map? && exists i :: 0 <= i < |v.entries| && Occurs(w, v.entries[i].1))
    || (v.Arr? && exists i :: 0 <= i < |v.items| && Occurs(w, v.items[i]))
  }
}

/** The existing-anchor classifier. Its Go definition (`hasExistingAnchor`)
    lives in a file that is not part of this model; the model takes the
    convention the anchor syntax documents: a key written `^(name)`. */
module Anchors {

  const Open: string := "^("
  const Close: string := ")"

  /** The key is wrapped in `^(` and `)`; the wrapped name may be empty. */
  predicate IsExistingAnchor(key: string) {
    && |key| >= |Open| + |Close|
    && key[..|Open|] == Open
    && key[|key| - |Close|..] == Close
  }

  /** The plain key an existing anchor decorates. */
  function AnchorName(key: string): (name: string)
    requires IsExistingAnchor(key)
    ensures key == Open + name + Close
  {
    key[|Open|..|key| - |Close|]
  }

  /** Decorating any name gives an existing anchor that strips back to that name. */
  lemma DecorateThenClassify(name: string)
    ensures IsExistingAnchor(Open + name + Close)
    ensures AnchorName(Open + name + Close) == name
  {
    var key := Open + name + Close;
    assert key[..|Open|] == Open;
    assert key[|key| - |Close|..] == Close;
    assert key[|Open|..|key| - |Close|] == name;
  }
}

/** Slash-delimited locations inside a pattern tree, as the walk reports them:
    the root is `/`, and each step appends a map key or an array index
    followed by `/`. */
module Paths {

  const Root: string := "/"

  function Digit(d: nat): (c: char)
    requires d < 10
    ensures '0' <= c <= '9'
    ensures DigitValue(c) == d
  {
    "0123456789"[d]
  }

  /** The number a decimal digit stands for. */
  function DigitValue(c: char): (d: nat)
    requires '0' <= c <= '9'
    ensures d < 10
  {
    (c as int) - ('0' as int)
  }

  /** Reading a string of decimal digits back as a number, most significant
      digit first (`strconv.Atoi` on digits only). */
  function DecimalValue(s: string): (n: nat)
    requires forall i :: 0 <= i < |s| ==> '0' <= s[i] <= '9'
    decreases |s|
  {
    if |s| == 0 then 0
    else 10 * DecimalValue(s[..|s| - 1]) + DigitValue(s[|s| - 1])
  }

  /** Decimal rendering of an index (Go's `strconv.Itoa` on a non-negative
      int): digits without a leading zero. */
  function Decimal(n: nat): (s: string)
    ensures |s| >= 1
    ensures forall i :: 0 <= i < |s| ==> '0' <= s[i] <= '9'
    ensures n > 0 ==> s[0] != '0'
    decreases n
  {
    if n < 10 then [Digit(n)] else Decimal(n / 10) + [Digit(n % 10)]
  }

  /** The rendering reads back as the index it renders. */
  lemma {:induction false} DecimalRoundTrip(n: nat)
    ensures DecimalValue(Decimal(n)) == n
    decreases n
  {
    if n >= 10 {
      var s := Decimal(n);
      DecimalRoundTrip(n / 10);
      assert s[..|s| - 1] == Decimal(n / 10);
    }
  }

  /** Distinct indices render as distinct strings, so sibling array
      elements get distinct paths. */
  lemma DecimalInjective(m: nat, n: nat)
    requires m != n
    ensures Decimal(m) != Decimal(n)
  {
    DecimalRoundTrip(m);
    DecimalRoundTrip(n);
  }

  /** The path of a child reached through `segment`. */
  function Child(path: string, segment: string): (child: string)
    ensures path <= child
    ensures |child| == |path| + |segment| + 1
    ensures child[|child| - 1] == '/'
  {
    path + segment + "/"
  }

  /** Between the parent's path and the closing `/`, a child path holds the
      segment verbatim, so the segment can be read back from it. */
  lemma ChildSegment(path: string, segment: string)
    ensures Child(path, segment)[|path|..|path| + |segment|] == segment
  {
    assert (path + segment + "/")[|path|..|path| + |segment|] == segment;
  }
}
