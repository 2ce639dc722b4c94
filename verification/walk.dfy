/** The existing-anchor walk (`validateExistingAnchorOnPattern`, `validateMap`,
    `validateArray`): a fail-fast, depth-first, left-to-right descent over a
    pattern tree that reports the first of three violations it meets:
    an existing anchor bound to something other than an array, an empty array
    anywhere, or a string leaf that is itself an existing anchor.
 */
module AnchorWalk {
  import opened Diagnostics
  import opened Values
  import opened Anchors
  import opened Paths

  /** `validateExistingAnchorOnPattern`: dispatch on the shape of the node. */
  function CheckPattern(v: Value, path: string): (r: Option<PolicyError>)
    ensures r.Some? ==> IsWalkError(r.value) && path <= r.value.at
    decreases v, 2
  {
    match v
    case Map(_) => CheckMap(v, path)
    case Arr(_) => CheckArray(v, path)
    case Str(s) =>
      if IsExistingAnchor(s) then Some(AnchorNotOnArray(path + AnchorName(s))) else None
    case Num => None
    case Bool(_) => None
    case Null => None
  }

  /** `validateMap`: visit the entries in order, stopping at the first error. */
  function CheckMap(v: Value, path: string): (r: Option<PolicyError>)
    requires v.Map?
    ensures r.Some? ==> IsWalkError(r.value) && path <= r.value.at
    decreases v, 1
  {
    CheckEntriesFrom(v, path, 0)
  }

  /** The loop of `validateMap` from entry `i` on. An anchored key whose value
      is not an array is reported at the map's path plus the anchor's name;
      otherwise the value is walked under the map's path plus the raw key. */
  function CheckEntriesFrom(v: Value, path: string, i: nat): (r: Option<PolicyError>)
    requires v.Map? && i <= |v.entries|
    ensures r.Some? ==> IsWalkError(r.value) && path <= r.value.at
    decreases v, 0, |v.entries| - i
  {
    if i == |v.entries| then None
    else
      var (key, child) := v.entries[i];
      if IsExistingAnchor(key) && !child.Arr? then
        Some(AnchorNotOnArray(path + AnchorName(key)))
      else
        match CheckPattern(child, Child(path, key))
        case Some(e) => Some(e)
        case None => CheckEntriesFrom(v, path, i + 1)
  }

  /** `validateArray`: an empty array is an error at its own path; otherwise
      the elements are walked in order under their indices. */
  function CheckArray(v: Value, path: string): (r: Option<PolicyError>)
    requires v.Arr?
    ensures |v.items| == 0 ==> r == Some(EmptyPatternArray(path))
    ensures r.Some? ==> IsWalkError(r.value) && path <= r.value.at
    decreases v, 1
  {
    if |v.items| == 0 then Some(EmptyPatternArray(path))
    else CheckItemsFrom(v, path, 0)
  }

  /** The loop of `validateArray` from element `i` on. */
  function CheckItemsFrom(v: Value, path: string, i: nat): (r: Option<PolicyError>)
    requires v.Arr? && i <= |v.items|
    ensures r.Some? ==> IsWalkError(r.value) && path <= r.value.at
    decreases v, 0, |v.items| - i
  {
    if i == |v.items| then None
    else
      match CheckPattern(v.items[i], Child(path, Decimal(i)))
      case Some(e) => Some(e)
      case None => CheckItemsFrom(v, path, i + 1)
  }

  // ---------------------------------------------------------------------
  // Reference definitions: what a pattern tree must look like, stated
  // without paths, without an order of visit and without early exit.
  // ---------------------------------------------------------------------

  /** An entry is acceptable in a map when an anchored key holds an array. */
  predicate AnchorPlacedOnArray(entry: (string, Value)) {
    IsExistingAnchor(entry.0) ==> entry.1.Arr?
  }

  /** Structural well-formedness, node by node. */
  predicate WellFormedPattern(v: Value)
    decreases v
  {
    match v
    case Map(es) =>
      forall i :: 0 <= i < |es| ==> AnchorPlacedOnArray(es[i]) && WellFormedPattern(es[i].1)
    case Arr(xs) =>
      |xs| > 0 && forall i :: 0 <= i < |xs| ==> WellFormedPattern(xs[i])
    case Str(s) => !IsExistingAnchor(s)
    case Num => true
    case Bool(_) => true
    case Null => true
  }

  /** The three violations, each judged at one node. */
  predicate Violation(w: Value) {
    || (w.Arr? && |w.items| == 0)
    || (w.Str? && IsExistingAnchor(w.str))
    || (w.Map? && exists i :: 0 <= i < |w.entries| && !AnchorPlacedOnArray(w.entries[i]))
  }

  /** Some node of the tree, at any depth, is a violation. */
  ghost predicate ContainsViolation(v: Value) {
    exists w :: Occurs(w, v) && Violation(w)
  }

  // ---------------------------------------------------------------------
  // The walk against the reference definitions.
  // ---------------------------------------------------------------------

  /** The walk succeeds exactly on well-formed trees, whatever the start path. */
  lemma {:induction false} CheckPatternPassesIff(v: Value, path: string)
    ensures CheckPattern(v, path).None? <==> WellFormedPattern(v)
    decreases v, 2
  {
    match v
    case Map(es) => CheckEntriesFromPassesIff(v, path, 0);
    case Arr(xs) =>
      if |xs| > 0 {
        CheckItemsFromPassesIff(v, path, 0);
      }
    case Str(_) =>
    case Num =>
    case Bool(_) =>
    case Null =>
  }

  lemma {:induction false} CheckEntriesFromPassesIff(v: Value, path: string, i: nat)
    requires v.Map? && i <= |v.entries|
    ensures CheckEntriesFrom(v, path, i).None? <==>
            forall j :: i <= j < |v.entries| ==>
              AnchorPlacedOnArray(v.entries[j]) && WellFormedPattern(v.entries[j].1)
    decreases v, 0, |v.entries| - i
  {
    if i < |v.entries| {
      var (key, child) := v.entries[i];
      if !(IsExistingAnchor(key) && !child.Arr?) {
        CheckPatternPassesIff(child, Child(path, key));
        CheckEntriesFromPassesIff(v, path, i + 1);
      }
    }
  }

  lemma {:induction false} CheckItemsFromPassesIff(v: Value, path: string, i: nat)
    requires v.Arr? && i <= |v.items|
    ensures CheckItemsFrom(v, path, i).None? <==>
            forall j :: i <= j < |v.items| ==> WellFormedPattern(v.items[j])
    decreases v, 0, |v.items| - i
  {
    if i < |v.items| {
      CheckPatternPassesIff(v.items[i], Child(path, Decimal(i)));
      CheckItemsFromPassesIff(v, path, i + 1);
    }
  }

  /** Well-formedness is the absence of any violating node at any depth. */
  lemma {:induction false} WellFormedIffNoViolation(v: Value)
    ensures WellFormedPattern(v) <==> !ContainsViolation(v)
    decreases v
  {
    if WellFormedPattern(v) {
      forall w | Occurs(w, v)
        ensures !Violation(w)
      {
        NoViolationBelowWellFormed(w, v);
      }
    } else {
      var w := SomeViolation(v);
    }
  }

  lemma {:induction false} NoViolationBelowWellFormed(w: Value, v: Value)
    requires WellFormedPattern(v) && Occurs(w, v)
    ensures !Violation(w)
    decreases v
  {
    if w != v {
      match v
      case Map(es) =>
        var i :| 0 <= i < |es| && Occurs(w, es[i].1);
        NoViolationBelowWellFormed(w, es[i].1);
      case Arr(xs) =>
        var i :| 0 <= i < |xs| && Occurs(w, xs[i]);
        NoViolationBelowWellFormed(w, xs[i]);
    }
  }

  /** A tree that is not well-formed has a violating node somewhere in it. */
  lemma {:induction false} SomeViolation(v: Value) returns (w: Value)
    requires !WellFormedPattern(v)
    ensures Occurs(w, v) && Violation(w)
    decreases v
  {
    if Violation(v) {
      w := v;
    } else {
      match v
      case Map(es) =>
        var i :| 0 <= i < |es| && !WellFormedPattern(es[i].1);
        w := SomeViolation(es[i].1);
      case Arr(xs) =>
        var i :| 0 <= i < |xs| && !WellFormedPattern(xs[i]);
        w := SomeViolation(xs[i]);
    }
  }

  /** The walk fails exactly when some node of the tree, at any depth, is an
      empty array, a map whose anchored key holds a non-array, or a string
      that is itself an existing anchor. */
  lemma CheckPatternFailsIff(v: Value, path: string)
    ensures CheckPattern(v, path).Some? <==> ContainsViolation(v)
  {
    CheckPatternPassesIff(v, path);
    WellFormedIffNoViolation(v);
  }

  /** Go visits map entries in an unspecified order. Whether the walk fails
      does not depend on that order: any rearrangement of the entries gives
      the same verdict. */
  lemma EntryOrderIrrelevant(es: seq<(string, Value)>, es': seq<(string, Value)>, path: string)
    requires multiset(es) == multiset(es')
    ensures CheckPattern(Map(es), path).None? == CheckPattern(Map(es'), path).None?
  {
    CheckPatternPassesIff(Map(es), path);
    CheckPatternPassesIff(Map(es'), path);
    if WellFormedPattern(Map(es)) {
      SameEntriesSameVerdict(es, es');
    }
    if WellFormedPattern(Map(es')) {
      SameEntriesSameVerdict(es', es);
    }
  }

  lemma SameEntriesSameVerdict(es: seq<(string, Value)>, es': seq<(string, Value)>)
    requires multiset(es) == multiset(es')
    requires WellFormedPattern(Map(es))
    ensures WellFormedPattern(Map(es'))
  {
    forall j | 0 <= j < |es'|
      ensures AnchorPlacedOnArray(es'[j]) && WellFormedPattern(es'[j].1)
    {
      assert es'[j] in multiset(es');
      var i :| 0 <= i < |es| && es[i] == es'[j];
    }
  }

  /** `perm` is a bijection of the indices `0 .. n-1` onto themselves. */
  predicate IsPermutation(perm: seq<nat>, n: nat) {
    && |perm| == n
    && (forall i :: 0 <= i < n ==> perm[i] < n)
    && (forall i, j :: 0 <= i < j < n ==> perm[i] != perm[j])
    && (forall j :: 0 <= j < n ==> Hits(perm, j))
  }

  /** Some position of `perm` holds `j`. */
  predicate Hits(perm: seq<nat>, j: nat) {
    exists i :: 0 <= i < |perm| && perm[i] == j
  }

  /** `w` is `v` with the entries of any of its maps, at any depth,
      rearranged: the same keys bound to trees that are themselves
      rearrangements. Arrays keep their order; leaves are unchanged. */
  ghost predicate Reordered(v: Value, w: Value)
    decreases v
  {
    match v
    case Map(es) =>
      && w.Map? && |w.entries| == |es|
      && exists perm :: IsPermutation(perm, |es|) &&
           forall i :: 0 <= i < |es| ==>
             es[i].0 == w.entries[perm[i]].0 && Reordered(es[i].1, w.entries[perm[i]].1)
    case Arr(xs) =>
      && w.Arr? && |w.items| == |xs|
      && forall i :: 0 <= i < |xs| ==> Reordered(xs[i], w.items[i])
    case Str(_) => w == v
    case Num => w == v
    case Bool(_) => w == v
    case Null => w == v
  }

  /** Rearranging map entries at any depth keeps every node's shape. */
  lemma ReorderedKeepsShape(v: Value, w: Value)
    requires Reordered(v, w)
    ensures v.Arr? <==> w.Arr?
  {
  }

  /** Go visits the entries of every map, at every depth, in an unspecified
      order. Whether the walk fails does not depend on any of those orders,
      nor on the path it starts from. */
  lemma {:induction false} NestedOrderIrrelevant(v: Value, w: Value, path: string, path': string)
    requires Reordered(v, w)
    ensures CheckPattern(v, path).None? <==> CheckPattern(w, path').None?
  {
    ReorderedWellFormed(v, w);
    CheckPatternPassesIff(v, path);
    CheckPatternPassesIff(w, path');
  }

  lemma {:induction false} ReorderedWellFormed(v: Value, w: Value)
    requires Reordered(v, w)
    ensures WellFormedPattern(v) <==> WellFormedPattern(w)
    decreases v
  {
    match v
    case Map(es) =>
      var fs := w.entries;
      var perm :| IsPermutation(perm, |es|) &&
        forall i :: 0 <= i < |es| ==> es[i].0 == fs[perm[i]].0 && Reordered(es[i].1, fs[perm[i]].1);
      forall i | 0 <= i < |es|
        ensures (AnchorPlacedOnArray(es[i]) && WellFormedPattern(es[i].1)) <==>
                (AnchorPlacedOnArray(fs[perm[i]]) && WellFormedPattern(fs[perm[i]].1))
      {
        ReorderedKeepsShape(es[i].1, fs[perm[i]].1);
        ReorderedWellFormed(es[i].1, fs[perm[i]].1);
      }
      if WellFormedPattern(v) {
        forall j | 0 <= j < |fs|
          ensures AnchorPlacedOnArray(fs[j]) && WellFormedPattern(fs[j].1)
        {
          assert Hits(perm, j);
          var i :| 0 <= i < |perm| && perm[i] == j;
        }
      }
    case Arr(xs) =>
      forall i | 0 <= i < |xs|
        ensures WellFormedPattern(xs[i]) <==> WellFormedPattern(w.items[i])
      {
        ReorderedWellFormed(xs[i], w.items[i]);
      }
    case Str(_) =>
    case Num =>
    case Bool(_) =>
    case Null =>
  }
}
