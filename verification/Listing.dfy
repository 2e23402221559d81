/** Listing the packages that some patterns select
    (src/modules/catalog.py, Catalog.gen_packages). */
module Listings {
  import opened Common
  import opened Versions
  import opened CatalogParts

  /** How the name in a pattern is compared. */
  datatype Matcher = Exact | Suffix | Glob

  /** A pattern; without a publisher or a version any will do.  A latest pattern
      wants the newest version of a package only. */
  datatype Pattern = Pattern(pub: Option<string>, matcher: Matcher, stem: string, ver: Option<string>, latest: bool)

  /** Which names the wildcard texts match, and which versions the version texts accept. */
  datatype Rules = Rules(globs: set<(string, string)>, versions: set<(Version, string)>)

  predicate EndsWith(s: string, suffix: string) {
    |suffix| <= |s| && s[|s| - |suffix|..] == suffix
  }

  predicate StemMatches(r: Rules, p: Pattern, stem: string) {
    match p.matcher
    case Exact => p.stem == stem
    case Suffix => EndsWith("/" + stem, "/" + p.stem)
    case Glob => (stem, p.stem) in r.globs
  }

  /** What is matched by name: the name itself; for a pattern that is compared from the
      end, also any name that has a slash and then the pattern at its end. */
  lemma StemMeans(r: Rules, p: Pattern, stem: string)
    ensures p.matcher.Exact? ==> (StemMatches(r, p, stem) <==> stem == p.stem)
    ensures p.matcher.Suffix? ==>
              (StemMatches(r, p, stem) <==> stem == p.stem || exists pre :: stem == pre + "/" + p.stem)
    ensures p.matcher.Glob? ==> (StemMatches(r, p, stem) <==> (stem, p.stem) in r.globs)
  {
    var whole, end := "/" + stem, "/" + p.stem;
    if p.matcher.Suffix? {
      if EndsWith(whole, end) {
        var n := |whole| - |end|;
        assert whole == whole[..n] + end;
        if n == 0 {
          assert stem == whole[1..] == end[1..] == p.stem;
        } else {
          assert stem == whole[1..] == whole[1..n] + "/" + p.stem;
        }
      }
      if exists pre :: stem == pre + "/" + p.stem {
        var pre :| stem == pre + "/" + p.stem;
        assert whole == ("/" + pre) + end;
      }
    }
  }

  /** Whether a pattern selects a package version that is, or is not, the first listed of its package. */
  ghost predicate Selects(r: Rules, p: Pattern, f: Fmri, first: bool) {
    && (p.pub.Some? ==> f.pub == p.pub.value) && StemMatches(r, p, f.stem)
    && (p.ver.Some? ==> (f.ver, p.ver.value) in r.versions)
    && (p.latest ==> first)
  }

  /** No earlier entry is of the same package. */
  predicate FirstOf(entries: seq<Fmri>, i: nat)
    requires i < |entries|
  {
    forall k :: 0 <= k < i ==> entries[k].pub != entries[i].pub || entries[k].stem != entries[i].stem
  }

  ghost predicate Listed(r: Rules, patterns: set<Pattern>, entries: seq<Fmri>, i: nat)
    requires i < |entries|
  {
    patterns == {} || exists p :: p in patterns && Selects(r, p, entries[i], FirstOf(entries, i))
  }

  /** The entries that are listed, in their order. */
  ghost function Listing(r: Rules, patterns: set<Pattern>, entries: seq<Fmri>, n: nat): seq<Fmri>
    requires n <= |entries|
  {
    if n == 0 then []
    else Listing(r, patterns, entries, n - 1) + if Listed(r, patterns, entries, n - 1) then [entries[n - 1]] else []
  }

  /** The patterns that select some entry. */
  ghost function Used(r: Rules, patterns: set<Pattern>, entries: seq<Fmri>, n: nat): set<Pattern>
    requires n <= |entries|
  {
    set p | p in patterns && exists i :: 0 <= i < n && Selects(r, p, entries[i], FirstOf(entries, i))
  }

  lemma UsedMore(r: Rules, patterns: set<Pattern>, entries: seq<Fmri>, n: nat)
    requires n < |entries|
    ensures Used(r, patterns, entries, n + 1) ==
            Used(r, patterns, entries, n) + set p | p in patterns && Selects(r, p, entries[n], FirstOf(entries, n))
  {
    hide Selects, FirstOf;
    forall p | p in patterns && Selects(r, p, entries[n], FirstOf(entries, n))
      ensures p in Used(r, patterns, entries, n + 1)
    {}
  }

  /** The inner loop: patterns are tried in any order; when the caller has not asked
      which of them matched, the first match ends it. */
  method Try(r: Rules, patterns: set<Pattern>, f: Fmri, count: nat, collecting: bool)
      returns (omit: bool, matching: set<Pattern>)
    ensures omit <==>
            patterns != {} && forall p :: p in patterns ==>
              || (p.pub.Some? && p.pub.value != f.pub) || !StemMatches(r, p, f.stem)
              || (p.ver.Some? && (f.ver, p.ver.value) !in r.versions) || (p.latest && count > 1)
    ensures collecting ==>
              forall p :: p in matching <==>
                && p in patterns && (p.pub.None? || p.pub.value == f.pub) && StemMatches(r, p, f.stem)
                && (p.ver.None? || (f.ver, p.ver.value) in r.versions) && (p.latest ==> count <= 1)
  {
    hide StemMatches;
    var omitPackage: Option<bool> := None;
    matching := {};
    var left := patterns;
    while left != {}
      invariant left <= patterns
      invariant omitPackage.None? <==> left == patterns
      invariant omitPackage.Some? ==>
                (omitPackage.value <==> forall q :: q in patterns && q !in left ==> !Selects(r, q, f, count <= 1))
      invariant collecting ==> forall q :: q in matching <==>
                q in patterns && q !in left && Selects(r, q, f, count <= 1)
    {
      var p :| p in left;
      left := left - {p};
      assert Selects(r, p, f, count <= 1) <==>
             && (p.pub.Some? ==> f.pub == p.pub.value) && StemMatches(r, p, f.stem)
             && (p.ver.Some? ==> (f.ver, p.ver.value) in r.versions) && (p.latest ==> count <= 1);
      if p.pub.Some? && f.pub != p.pub.value {
        if omitPackage.None? { omitPackage := Some(true); }
        continue;
      }
      if !StemMatches(r, p, f.stem) {
        if omitPackage.None? { omitPackage := Some(true); }
        continue;
      }
      if p.ver.Some? && (f.ver, p.ver.value) !in r.versions {
        if omitPackage.None? { omitPackage := Some(true); }
        continue;
      }
      if p.latest && count > 1 {
        if omitPackage.None? { omitPackage := Some(true); }
        continue;
      }
      omitPackage := Some(false);
      if !collecting { return false, {}; }
      matching := matching + {p};
    }
    omit := omitPackage.Some? && omitPackage.value;
  }

  /** What was tried in these terms. */
  lemma TriedAre(r: Rules, patterns: set<Pattern>, f: Fmri, count: nat, collecting: bool, omit: bool,
      matching: set<Pattern>)
    requires omit <==>
             patterns != {} && forall p :: p in patterns ==>
               || (p.pub.Some? && p.pub.value != f.pub) || !StemMatches(r, p, f.stem)
               || (p.ver.Some? && (f.ver, p.ver.value) !in r.versions) || (p.latest && count > 1)
    requires collecting ==>
               forall p :: p in matching <==>
                 && p in patterns && (p.pub.None? || p.pub.value == f.pub) && StemMatches(r, p, f.stem)
                 && (p.ver.None? || (f.ver, p.ver.value) in r.versions) && (p.latest ==> count <= 1)
    ensures omit <==> patterns != {} && forall p :: p in patterns ==> !Selects(r, p, f, count <= 1)
    ensures collecting ==> matching == set p | p in patterns && Selects(r, p, f, count <= 1)
  {
    hide StemMatches;
  }

  /** The packages listed do not depend on whether the caller asked for the patterns
      that matched, which are those that select one of the packages. */
  method GenPackages(r: Rules, patterns: set<Pattern>, entries: seq<Fmri>, collecting: bool)
      returns (list: seq<Fmri>, matched: set<Pattern>, unmatched: set<Pattern>)
    ensures list == Listing(r, patterns, entries, |entries|)
    ensures collecting ==> matched == Used(r, patterns, entries, |entries|) && unmatched == patterns - matched
  {
    hide Selects, StemMatches;
    var nlist: map<(string, string), nat> := map[];
    list, matched := [], {};
    for i := 0 to |entries|
      invariant list == Listing(r, patterns, entries, i)
      invariant collecting ==> matched == Used(r, patterns, entries, i)
      invariant forall k :: 0 <= k < i ==> (entries[k].pub, entries[k].stem) in nlist
      invariant forall k :: k in nlist ==>
                nlist[k] >= 1 && exists j :: 0 <= j < i && (entries[j].pub, entries[j].stem) == k
    {
      var f := entries[i];
      var key := (f.pub, f.stem);
      var count := if key in nlist then nlist[key] + 1 else 1;
      nlist := nlist[key := count];
      assert count <= 1 <==> FirstOf(entries, i);
      var omit, matching := Try(r, patterns, f, count, collecting);
      TriedAre(r, patterns, f, count, collecting, omit, matching);
      UsedMore(r, patterns, entries, i);
      if omit {
        assert collecting ==> matching == {};
        continue;
      }
      matched := matched + matching;
      list := list + [f];
    }
    unmatched := patterns - matched;
  }

  // --------------------------------------------------------------- newest versions

  /** The versions listed of one package, in their order. */
  function ListedVersions(entries: seq<Fmri>, pub: string, stem: string): seq<Version> {
    if entries == [] then []
    else ListedVersions(Front(entries), pub, stem) + if Last(entries).pub == pub && Last(entries).stem == stem
      then [Last(entries).ver] else []
  }

  /** The part listed package by package, each package from the end of its version
      list to the start; reserved publishers are left out. */
  ghost predicate ListsPart(entries: seq<Fmri>, d: PartData) {
    forall p, s :: var list, vs := if Reserved(p) then [] else At(d, p, s), ListedVersions(entries, p, s);
                   |vs| == |list| && forall i :: 0 <= i < |vs| ==> vs[i] == list[|list| - 1 - i].version
  }

  lemma {:induction false} VersionListed(entries: seq<Fmri>, i: nat) returns (x: nat)
    requires i < |entries|
    ensures var vs := ListedVersions(entries, entries[i].pub, entries[i].stem);
            x == |ListedVersions(entries[..i], entries[i].pub, entries[i].stem)| < |vs| && vs[x] == entries[i].ver
  {
    if i == |entries| - 1 {
      assert entries[..i] == Front(entries);
      x := |ListedVersions(Front(entries), entries[i].pub, entries[i].stem)|;
    } else {
      assert Front(entries)[..i] == entries[..i];
      x := VersionListed(Front(entries), i);
    }
  }

  /** Of two entries of a package in a part that is in order, the earlier is not older. */
  lemma EarlierIsNewer(entries: seq<Fmri>, d: PartData, i: nat, j: nat)
    requires ListsPart(entries, d) && Sorted(d) && i < j < |entries|
    requires entries[i].pub == entries[j].pub && entries[i].stem == entries[j].stem
    ensures Le(entries[j].ver, entries[i].ver)
  {
    var p, s := entries[i].pub, entries[i].stem;
    hide Less;
    var x := VersionListed(entries, i);
    var y := VersionListed(entries, j);
    var z := VersionListed(entries[..j], i);
    assert entries[..j][..i] == entries[..i];
    var list := if Reserved(p) then [] else At(d, p, s);
    assert |list| - 1 - y < |list| - 1 - x;
  }

  lemma {:induction false} ListedAt(entries: seq<Fmri>, f: Fmri, x: nat) returns (j: nat)
    requires x < |ListedVersions(entries, f.pub, f.stem)| && ListedVersions(entries, f.pub, f.stem)[x] == f.ver
    ensures j < |entries| && entries[j] == f
  {
    if x < |ListedVersions(Front(entries), f.pub, f.stem)| {
      j := ListedAt(Front(entries), f, x);
    } else {
      j := |entries| - 1;
    }
  }

  /** Every package version of the part is listed. */
  lemma HolderListed(entries: seq<Fmri>, d: PartData, f: Fmri) returns (j: nat)
    requires ListsPart(entries, d) && Holds(d, f) && !Reserved(f.pub)
    ensures j < |entries| && entries[j] == f
  {
    var list := At(d, f.pub, f.stem);
    var k :| 0 <= k < |list| && list[k].version == f.ver;
    assert ListedVersions(entries, f.pub, f.stem)[|list| - 1 - k] == f.ver;
    j := ListedAt(entries, f, |list| - 1 - k);
  }

  /** A package that only latest patterns select is listed in its newest version. */
  lemma LatestIsNewest(r: Rules, patterns: set<Pattern>, entries: seq<Fmri>, d: PartData, i: nat, f: Fmri)
    requires ListsPart(entries, d) && Sorted(d) && i < |entries|
    requires Holds(d, f) && f.pub == entries[i].pub && f.stem == entries[i].stem
    requires patterns != {} && Listed(r, patterns, entries, i)
    requires forall p :: p in patterns && Selects(r, p, entries[i], FirstOf(entries, i)) ==> p.latest
    ensures Le(f.ver, entries[i].ver)
  {
    hide StemMatches;
    var p :| p in patterns && Selects(r, p, entries[i], FirstOf(entries, i));
    assert FirstOf(entries, i);
    hide Selects, Listed;
    var x := VersionListed(entries, i);
    var j := HolderListed(entries, d, f);
    LessIrreflexive(entries[i].ver);
    if j != i { EarlierIsNewer(entries, d, i, j); }
  }
}
