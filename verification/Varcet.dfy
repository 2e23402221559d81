/** Whether an action is allowed by the facets and variants of an image
    (src/modules/_varcet.c). */
module Varcets {
  import opened Common

  /** The value of an attribute: a text, or a list of texts. */
  datatype Value = Text(text: string) | Texts(texts: seq<string>)

  /** The attributes of an action in the order in which its dictionary is visited. */
  type Attributes = seq<(string, Value)>

  // --------------------------------------------------------------------- facets

  /** The facets set in an image: exact names and wildcard patterns with their
      values, the patterns in their order, and which names they match. */
  datatype Facets = Facets(values: map<string, bool>, keylist: seq<string>, matching: set<(string, string)>)

  /** The first pattern that matches a name. */
  function FirstPattern(f: Facets, name: string, keys: seq<string>): Option<string> {
    if keys == [] then None
    else if (keys[0], name) in f.matching then Some(keys[0])
    else FirstPattern(f, name, keys[1..])
  }

  /** The pattern at `i` matches the name, and none before it does. */
  ghost predicate MatchesFirst(f: Facets, name: string, keys: seq<string>, i: int) {
    0 <= i < |keys| && (keys[i], name) in f.matching && forall j :: 0 <= j < i ==> (keys[j], name) !in f.matching
  }

  lemma {:induction false} FirstPatternIs(f: Facets, name: string, keys: seq<string>)
    ensures forall i :: MatchesFirst(f, name, keys, i) ==> FirstPattern(f, name, keys) == Some(keys[i])
    ensures (forall i :: 0 <= i < |keys| ==> (keys[i], name) !in f.matching) ==> FirstPattern(f, name, keys).None?
  {
    if keys != [] && (keys[0], name) !in f.matching {
      FirstPatternIs(f, name, keys[1..]);
      forall i | MatchesFirst(f, name, keys, i) ensures FirstPattern(f, name, keys) == Some(keys[i]) {
        assert MatchesFirst(f, name, keys[1..], i - 1);
      }
    }
  }

  /** The value of a facet: its own entry, or that of the first pattern that matches,
      or else true unless it is a debug or optional facet.  None when the matching
      pattern has no entry. */
  function FacetValue(f: Facets, name: string): Option<bool> {
    if name in f.values then Some(f.values[name])
    else
      match FirstPattern(f, name, f.keylist)
      case Some(key) => if key in f.values then Some(f.values[key]) else None
      case None => Some(!StartsWith(name, "facet.debug.") && !StartsWith(name, "facet.optional."))
  }

  predicate IsFacet(name: string) {
    StartsWith(name, "facet.")
  }

  predicate IsAll(v: Value) {
    v == Text("all")
  }

  /** Every "all" facet is true; and if there are others, at least one of them is true. */
  ghost predicate FacetsAllow(f: Facets, attrs: Attributes) {
    && (forall a :: a in attrs && IsFacet(a.0) && IsAll(a.1) ==> FacetValue(f, a.0) == Some(true))
    && ((exists a :: a in attrs && IsFacet(a.0) && !IsAll(a.1)) ==>
          exists a :: a in attrs && IsFacet(a.0) && !IsAll(a.1) && FacetValue(f, a.0) == Some(true))
  }

  /** The rule by the texts of the attributes: those named "facet." and something. */
  lemma FacetsMean(f: Facets, attrs: Attributes)
    ensures FacetsAllow(f, attrs) <==>
            && (forall x: string :: ("facet." + x, Text("all")) in attrs ==> FacetValue(f, "facet." + x) == Some(true))
            && ((exists x: string, v :: ("facet." + x, v) in attrs && v != Text("all")) ==>
                  exists x: string, v :: ("facet." + x, v) in attrs && v != Text("all")
                    && FacetValue(f, "facet." + x) == Some(true))
  {
    hide FacetValue;
    forall a | a in attrs && IsFacet(a.0) ensures exists x: string :: a == ("facet." + x, a.1) {
      PrefixIs(a.0, "facet.");
    }
    forall x: string ensures IsFacet("facet." + x) {}
  }

  /** Where the value of a facet comes from: its own entry, else the entry of the first
      pattern that matches, else it is true unless the name begins with "facet.debug."
      or "facet.optional.". */
  lemma FacetValueMeans(f: Facets, name: string)
    ensures name in f.values ==> FacetValue(f, name) == Some(f.values[name])
    ensures forall i :: name !in f.values && MatchesFirst(f, name, f.keylist, i) ==>
              FacetValue(f, name) == if f.keylist[i] in f.values then Some(f.values[f.keylist[i]]) else None
    ensures name !in f.values && (forall i :: 0 <= i < |f.keylist| ==> (f.keylist[i], name) !in f.matching) ==>
              FacetValue(f, name) ==
              Some(!(exists x :: name == "facet.debug." + x) && !(exists x :: name == "facet.optional." + x))
  {
    FirstPatternIs(f, name, f.keylist);
    PrefixIs(name, "facet.debug.");
    PrefixIs(name, "facet.optional.");
    hide FirstPattern, StartsWith;
  }

  ghost predicate Defined(f: Facets, attrs: Attributes) {
    forall a :: a in attrs && IsFacet(a.0) ==> FacetValue(f, a.0).Some?
  }

  /** The order in which the attributes are visited makes no difference. */
  lemma FacetOrder(f: Facets, a: Attributes, b: Attributes)
    requires multiset(a) == multiset(b)
    ensures FacetsAllow(f, a) <==> FacetsAllow(f, b)
  {
    forall x ensures x in a <==> x in b {
      assert x in multiset(a) <==> x in a;
      assert x in multiset(b) <==> x in b;
    }
  }

  lemma FacetsByIndex(f: Facets, attrs: Attributes)
    ensures FacetsAllow(f, attrs) <==>
            && (forall k :: 0 <= k < |attrs| && IsFacet(attrs[k].0) && IsAll(attrs[k].1) ==>
               FacetValue(f, attrs[k].0) == Some(true))
            && ((exists k :: 0 <= k < |attrs| && IsFacet(attrs[k].0) && !IsAll(attrs[k].1)) ==>
                  exists k :: 0 <= k < |attrs| && IsFacet(attrs[k].0) && !IsAll(attrs[k].1)
                    && FacetValue(f, attrs[k].0) == Some(true))
  {
    hide FacetValue, IsFacet, IsAll;
    forall k | 0 <= k < |attrs| ensures attrs[k] in attrs {}
  }

  datatype FacetError = NoPatternValue

  method LookUp(f: Facets, name: string) returns (r: Option<bool>)
    ensures r == FacetValue(f, name)
  {
    if name in f.values { return Some(f.values[name]); }
    var idx := 0;
    while idx < |f.keylist|
      invariant 0 <= idx <= |f.keylist| && FirstPattern(f, name, f.keylist) == FirstPattern(f, name, f.keylist[idx..])
    {
      var key := f.keylist[idx];
      if (key, name) in f.matching {
        return if key in f.values then Some(f.values[key]) else None;
      }
      idx := idx + 1;
    }
    r := Some(!(StartsWith(name, "facet.debug.") || StartsWith(name, "facet.optional.")));
  }

  /** One pass over the attributes, left early when an "all" facet is false. */
  method AllowFacet(f: Facets, attrs: Attributes) returns (r: Result<bool, FacetError>)
    ensures Defined(f, attrs) ==> r == Ok(FacetsAllow(f, attrs))
    ensures r.Err? ==> !Defined(f, attrs)
    ensures r.Ok? && !Defined(f, attrs) ==> r == Ok(false)
  {
    hide FacetValue, IsFacet, IsAll;
    var allRet, anyRet: Option<bool> := true, None;
    var fpos := 0;
    while fpos < |attrs|
      invariant 0 <= fpos <= |attrs| && allRet
      invariant forall k :: 0 <= k < fpos && IsFacet(attrs[k].0) ==> FacetValue(f, attrs[k].0).Some?
      invariant forall k :: 0 <= k < fpos && IsFacet(attrs[k].0) && IsAll(attrs[k].1) ==>
                FacetValue(f, attrs[k].0) == Some(true)
      invariant anyRet.None? <==> forall k :: 0 <= k < fpos && IsFacet(attrs[k].0) ==> IsAll(attrs[k].1)
      invariant anyRet.Some? && anyRet.value <==>
                exists k :: 0 <= k < fpos && IsFacet(attrs[k].0) && !IsAll(attrs[k].1)
                  && FacetValue(f, attrs[k].0) == Some(true)
    {
      var (name, value) := attrs[fpos];
      assert attrs[fpos] in attrs;
      fpos := fpos + 1;
      if !IsFacet(name) { continue; }
      var facetRet := LookUp(f, name);
      if facetRet.None? { return Err(NoPatternValue); }
      if IsAll(value) {
        if !facetRet.value {
          FacetsByIndex(f, attrs);
          assert !FacetsAllow(f, attrs);
          allRet := false;
          break;
        }
      } else if facetRet.value {
        anyRet := Some(true);
      } else if anyRet.None? {
        anyRet := Some(false);
      }
    }
    if allRet {
      FacetsByIndex(f, attrs);
      assert FacetsAllow(f, attrs) <==> anyRet.None? || anyRet.value;
    }
    r := Ok(allRet && (anyRet.None? || anyRet.value));
  }

  // -------------------------------------------------------------------- variants

  /** A variant of the action agrees with the image; one that the image does not have
      has to begin with "false". */
  predicate VariantAgrees(vars: map<string, string>, name: string, v: Value) {
    && v.Text?
    && if name in vars then v.text == vars[name] else StartsWith(v.text, "false")
  }

  predicate IsVariant(name: string) {
    StartsWith(name, "variant.")
  }

  ghost predicate VariantsAllow(vars: map<string, string>, attrs: Attributes) {
    forall a :: a in attrs && IsVariant(a.0) ==> VariantAgrees(vars, a.0, a.1)
  }

  /** The rule by the texts of the attributes: those named "variant." and something. */
  lemma VariantsMean(vars: map<string, string>, attrs: Attributes)
    ensures VariantsAllow(vars, attrs) <==>
            forall x: string, v :: ("variant." + x, v) in attrs ==>
              && v.Text?
              && if "variant." + x in vars then v.text == vars["variant." + x] else exists y :: v.text == "false" + y
  {
    forall a | a in attrs && IsVariant(a.0) ensures exists x: string :: a == ("variant." + x, a.1) {
      PrefixIs(a.0, "variant.");
    }
    forall x: string ensures IsVariant("variant." + x) {}
    forall a | a in attrs && a.1.Text? ensures StartsWith(a.1.text, "false") <==> exists y :: a.1.text == "false" + y {
      PrefixIs(a.1.text, "false");
    }
  }

  method AllowVariant(vars: map<string, string>, attrs: Attributes) returns (r: bool)
    ensures r <==> VariantsAllow(vars, attrs)
  {
    var pos := 0;
    while pos < |attrs|
      invariant 0 <= pos <= |attrs|
      invariant forall k :: 0 <= k < pos && IsVariant(attrs[k].0) ==> VariantAgrees(vars, attrs[k].0, attrs[k].1)
    {
      var (name, value) := attrs[pos];
      assert attrs[pos] in attrs;
      pos := pos + 1;
      if !IsVariant(name) { continue; }
      if !value.Text? { return false; }
      if name !in vars {
        if !StartsWith(value.text, "false") { return false; }
        continue;
      }
      if value.text != vars[name] { return false; }
    }
    r := true;
  }

  lemma VariantOrder(vars: map<string, string>, a: Attributes, b: Attributes)
    requires multiset(a) == multiset(b)
    ensures VariantsAllow(vars, a) <==> VariantsAllow(vars, b)
  {
    forall x ensures x in a <==> x in b {
      assert x in multiset(a) <==> x in a;
      assert x in multiset(b) <==> x in b;
    }
  }
}
