/** Packages to be pulled along with others: the closure of the dependencies
    (src/pull.py; src/modules/version.py, is_successor; src/modules/catalog.py, fmris_by_version). */
module Pulls {
  import opened Common
  import opened Versions
  import opened CatalogParts

  // ------------------------------------------------------------------- matching

  /** `DotSequence.is_subsequence`: the other sequence begins with this one. */
  predicate IsSubsequence(a: seq<nat>, b: seq<nat>) {
    a <= b
  }

  /** `Version.is_successor` under CONSTRAINT_AUTO: what `other` leaves out does not matter. */
  predicate IsSuccessor(v: Version, other: Version) {
    && (other.release != [] ==> v.release != [] && IsSubsequence(other.release, v.release))
    && (other.branch.Some? && other.branch.value != [] ==>
          v.branch.Some? && v.branch.value != [] && IsSubsequence(other.branch.value, v.branch.value))
    && (other.timestr.Some? && other.timestr.value != "" ==> v.timestr == other.timestr)
  }

  /** The FMRI of a dependency, with or without a version. */
  datatype Pattern = Pattern(stem: string, ver: Option<Version>)

  predicate Matches(f: Fmri, p: Pattern) {
    p.ver.None? || IsSuccessor(f.ver, p.ver.value)
  }

  /** A text or a list of components that a constraint gives; the empty one counts as left out. */
  ghost predicate Given<T>(c: Option<seq<T>>) {
    c.Some? && c.value != []
  }

  /** What a constraint means: the release and, when one is given, the branch are
      those of the constraint followed by any further components, the timestamp is
      the one given, and what is left out does not matter. */
  ghost predicate Meets(f: Fmri, p: Pattern) {
    p.ver.Some? ==>
      var c := p.ver.value;
      && (exists more :: f.ver.release == c.release + more)
      && (Given(c.branch) ==> exists more :: f.ver.branch == Some(c.branch.value + more))
      && (Given(c.timestr) ==> f.ver.timestr == c.timestr)
  }

  lemma PrefixMore<T>(a: seq<T>, b: seq<T>)
    ensures a <= b <==> exists more :: b == a + more
  {
    if a <= b { assert b == a + b[|a|..]; }
  }

  lemma MatchesMeans(f: Fmri, p: Pattern)
    ensures Matches(f, p) <==> Meets(f, p)
  {
    if p.ver.Some? {
      var c := p.ver.value;
      PrefixMore(c.release, f.ver.release);
      if Given(c.branch) && f.ver.branch.Some? { PrefixMore(c.branch.value, f.ver.branch.value); }
    }
  }

  /** The FMRIs of one version, of all publishers. */
  datatype Group = Group(ver: Version, fmris: seq<Fmri>)

  ghost predicate Offers(d: PartData, stem: string, f: Fmri) {
    Holds(d, f) && f.stem == stem && !Reserved(f.pub)
  }

  ghost predicate VersionsAscend(groups: seq<Group>) {
    forall i, j :: 0 <= i < j < |groups| ==> Le(groups[i].ver, groups[j].ver)
  }

  /** The groups list exactly the FMRIs of a package, by version and in ascending order. */
  ghost predicate IsListing(groups: seq<Group>, d: PartData, stem: string) {
    && VersionsAscend(groups)
    && (forall i, f :: 0 <= i < |groups| && f in groups[i].fmris ==> Offers(d, stem, f) && f.ver == groups[i].ver)
    && (forall f :: Offers(d, stem, f) ==> exists i :: 0 <= i < |groups| && f in groups[i].fmris)
  }

  function FirstMatch(fs: seq<Fmri>, p: Pattern): Option<Fmri> {
    if fs == [] then None
    else if Matches(fs[0], p) then Some(fs[0])
    else FirstMatch(fs[1..], p)
  }

  /** What `expand_fmri` finds: the first match, newest versions first. */
  function Expand(groups: seq<Group>, p: Pattern): Option<Fmri> {
    if groups == [] then None
    else
      var r := FirstMatch(Last(groups).fmris, p);
      if r.Some? then r else Expand(Front(groups), p)
  }

  lemma {:induction false} FirstMatchFinds(fs: seq<Fmri>, p: Pattern)
    ensures FirstMatch(fs, p).None? <==> forall f :: f in fs ==> !Matches(f, p)
    ensures FirstMatch(fs, p).Some? ==> FirstMatch(fs, p).value in fs && Matches(FirstMatch(fs, p).value, p)
  {
    hide Matches;
    if fs != [] {
      FirstMatchFinds(fs[1..], p);
      assert fs == [fs[0]] + fs[1..];
    }
  }

  lemma {:induction false} ExpandFinds(groups: seq<Group>, p: Pattern)
    ensures Expand(groups, p).None? <==> forall i, f :: 0 <= i < |groups| && f in groups[i].fmris ==> !Matches(f, p)
    ensures Expand(groups, p).Some? ==>
              exists i :: 0 <= i < |groups| && Expand(groups, p).value in groups[i].fmris
                && Matches(Expand(groups, p).value, p)
                          && forall j, f :: i < j < |groups| && f in groups[j].fmris ==> !Matches(f, p)
  {
    hide Matches, FirstMatch;
    if groups != [] {
      var n := |groups| - 1;
      FirstMatchFinds(Last(groups).fmris, p);
      if FirstMatch(Last(groups).fmris, p).None? {
        ExpandFinds(Front(groups), p);
      } else {
        assert Expand(groups, p).value in groups[n].fmris;
      }
    }
  }

  /** A dependency expands to a newest match in the catalog, if it has one. */
  lemma ExpandNewest(groups: seq<Group>, d: PartData, p: Pattern)
    requires IsListing(groups, d, p.stem)
    ensures Expand(groups, p).None? <==> forall f :: Offers(d, p.stem, f) ==> !Meets(f, p)
    ensures Expand(groups, p).Some? ==>
              var r := Expand(groups, p).value;
              Offers(d, p.stem, r) && Meets(r, p) && forall f :: Offers(d, p.stem, f) && Meets(f, p) ==>
                Le(f.ver, r.ver)
  {
    ExpandFinds(groups, p);
    hide Matches, Meets, Expand, Offers, Less;
    forall f: Fmri ensures Matches(f, p) <==> Meets(f, p) { MatchesMeans(f, p); }
    if Expand(groups, p).Some? {
      var r := Expand(groups, p).value;
      LessIrreflexive(r.ver);
      var i :| 0 <= i < |groups| && r in groups[i].fmris && forall j, f :: i < j < |groups| && f in groups[j].fmris ==>
        !Matches(f, p);
      forall f | Offers(d, p.stem, f) && Matches(f, p) ensures Le(f.ver, r.ver) {
        var j :| 0 <= j < |groups| && f in groups[j].fmris;
        assert j <= i;
      }
    }
  }

  /** A constraint of nothing but a release never comes to nothing while the catalog
      offers that release, alone or with further components: what is found has such a
      release too and is not older. */
  lemma ReleaseExpands(groups: seq<Group>, d: PartData, p: Pattern, f: Fmri, more: seq<nat>)
    requires IsListing(groups, d, p.stem) && Offers(d, p.stem, f)
    requires p.ver.Some? && p.ver.value.branch == None && p.ver.value.timestr == None
    requires f.ver.release == p.ver.value.release + more
    ensures Expand(groups, p).Some?
    ensures var r := Expand(groups, p).value;
            Offers(d, p.stem, r) && p.ver.value.release <= r.ver.release && Le(f.ver, r.ver)
  {
    ExpandNewest(groups, d, p);
    hide IsListing, Expand, Offers, Less;
    assert Meets(f, p);
  }

  method ExpandFmri(groups: seq<Group>, p: Pattern) returns (r: Option<Fmri>)
    ensures r == Expand(groups, p)
  {
    hide Matches;
    var i := |groups|;
    assert groups[..i] == groups;
    while i > 0
      invariant 0 <= i <= |groups| && Expand(groups, p) == Expand(groups[..i], p)
    {
      assert Front(groups[..i]) == groups[..i - 1] && Last(groups[..i]) == groups[i - 1];
      i := i - 1;
      var fmris := groups[i].fmris;
      var j := 0;
      while j < |fmris|
        invariant 0 <= j <= |fmris| && FirstMatch(fmris, p) == FirstMatch(fmris[j..], p)
      {
        if Matches(fmris[j], p) { return Some(fmris[j]); }
        j := j + 1;
      }
    }
    r := None;
  }

  // -------------------------------------------------------------------- closure

  /** The catalog by package name, and what each manifest depends on. */
  datatype Depot = Depot(listing: map<string, seq<Group>>, manifests: map<Fmri, seq<Pattern>>)

  function GroupsOf(c: Depot, stem: string): seq<Group> {
    if stem in c.listing then c.listing[stem] else []
  }

  function DependsOf(c: Depot, f: Fmri): seq<Pattern> {
    if f in c.manifests then c.manifests[f] else []
  }

  /** `g` is what some dependency of `f` expands to. */
  ghost predicate Needs(c: Depot, f: Fmri, g: Fmri) {
    exists p :: p in DependsOf(c, f) && Expand(GroupsOf(c, p.stem), p) == Some(g)
  }

  ghost predicate ClosedUnder(c: Depot, t: set<Fmri>) {
    forall f, g :: f in t && Needs(c, f, g) ==> g in t
  }

  /** All the FMRIs a catalog lists. */
  ghost function Universe(c: Depot): set<Fmri> {
    set stem, i, f | stem in c.listing && 0 <= i < |c.listing[stem]| && f in c.listing[stem][i].fmris :: f
  }

  lemma ExpandInUniverse(c: Depot, p: Pattern)
    ensures var r := Expand(GroupsOf(c, p.stem), p); r.Some? ==> r.value in Universe(c)
  {
    ExpandFinds(GroupsOf(c, p.stem), p);
    hide Matches, Expand;
  }

  class Puller {
    const depot: Depot
    var s: set<Fmri>

    constructor (depot: Depot)
      ensures this.depot == depot && s == {}
    {
      this.depot := depot;
      s := {};
    }

    /** Depth first: all that `f` and whatever was not reached before need is
        reached afterwards, and nothing but that.  `f` may have been reached already. */
    method Visit(f: Fmri)
      modifies this
      ensures old(s) + {f} <= s
      ensures forall g, h :: (g in s - old(s) || g == f) && Needs(depot, g, h) ==> h in s
      ensures forall t :: f in t && ClosedUnder(depot, t) ==> s <= old(s) + t
      decreases Universe(depot) - (s + {f})
    {
      hide Expand, Universe, Matches;
      s := s + {f};
      var patterns := DependsOf(depot, f);
      for i := 0 to |patterns|
        invariant old(s) + {f} <= s
        invariant forall k, g :: 0 <= k < i && Expand(GroupsOf(depot, patterns[k].stem), patterns[k]) == Some(g) ==>
                  g in s
        invariant forall g, h :: g in s - old(s) && g != f && Needs(depot, g, h) ==> h in s
        invariant forall t :: f in t && ClosedUnder(depot, t) ==> s <= old(s) + t
      {
        var p := patterns[i];
        var r := ExpandFmri(GroupsOf(depot, p.stem), p);
        ExpandInUniverse(depot, p);
        if r.Some? && r.value !in s {
          assert Needs(depot, f, r.value);
          assert r.value in Universe(depot) - (old(s) + {f});
          Visit(r.value);
        }
      }
      forall h | Needs(depot, f, h) ensures h in s {
        var p :| p in patterns && Expand(GroupsOf(depot, p.stem), p) == Some(h);
        var k :| 0 <= k < |patterns| && patterns[k] == p;
      }
    }
  }

  /** The least set that has all of `fs` and whatever its members need. */
  ghost predicate IsClosure(c: Depot, fs: seq<Fmri>, r: set<Fmri>) {
    && (forall f :: f in fs ==> f in r) && ClosedUnder(c, r)
    && forall t :: (forall f :: f in fs ==> f in t) && ClosedUnder(c, t) ==> r <= t
  }

  lemma WithoutOne(c: Depot, r: set<Fmri>, g: Fmri)
    requires ClosedUnder(c, r) && forall f :: f in r ==> !Needs(c, f, g)
    ensures ClosedUnder(c, r - {g})
  {
    hide Needs;
  }

  lemma NeededOrGiven(c: Depot, fs: seq<Fmri>, r: set<Fmri>, g: Fmri)
    requires IsClosure(c, fs, r) && g in r && g !in fs
    ensures exists f :: f in r && Needs(c, f, g)
  {
    hide Needs, ClosedUnder;
    if forall f :: f in r ==> !Needs(c, f, g) {
      WithoutOne(c, r, g);
      assert false;
    }
  }

  /** The catalog part `d` is what expansions search. */
  ghost predicate ListsCatalog(c: Depot, d: PartData) {
    forall stem :: IsListing(GroupsOf(c, stem), d, stem)
  }

  /** `g` is a match in the catalog, and none is newer. */
  ghost predicate IsNewestMatch(d: PartData, p: Pattern, g: Fmri) {
    Offers(d, p.stem, g) && Meets(g, p) && forall f :: Offers(d, p.stem, f) && Meets(f, p) ==> Le(f.ver, g.ver)
  }

  /** The closure in the catalog's terms: the dependencies of its members have a
      newest match in it wherever the catalog has any match, and there is nothing in
      it but what was given and such matches. */
  lemma NewestClosure(c: Depot, d: PartData, fs: seq<Fmri>, r: set<Fmri>)
    requires ListsCatalog(c, d) && IsClosure(c, fs, r)
    ensures forall f, p, m :: f in r && p in DependsOf(c, f) && Offers(d, p.stem, m) && Meets(m, p) ==>
              exists g :: g in r && IsNewestMatch(d, p, g)
    ensures forall g :: g in r && g !in fs ==> exists f, p :: f in r && p in DependsOf(c, f) && IsNewestMatch(d, p, g)
  {
    hide Meets, Offers, Expand, IsListing, Less;
    forall f, p, m | f in r && p in DependsOf(c, f) && Offers(d, p.stem, m) && Meets(m, p)
      ensures exists g :: g in r && IsNewestMatch(d, p, g)
    {
      ExpandNewest(GroupsOf(c, p.stem), d, p);
      var g := Expand(GroupsOf(c, p.stem), p).value;
      assert Needs(c, f, g);
      assert IsNewestMatch(d, p, g);
    }
    forall g | g in r && g !in fs ensures exists f, p :: f in r && p in DependsOf(c, f) && IsNewestMatch(d, p, g) {
      NeededOrGiven(c, fs, r, g);
      var f :| f in r && Needs(c, f, g);
      var p :| p in DependsOf(c, f) && Expand(GroupsOf(c, p.stem), p) == Some(g);
      ExpandNewest(GroupsOf(c, p.stem), d, p);
      assert IsNewestMatch(d, p, g);
    }
  }

  lemma ClosureUnique(c: Depot, fs: seq<Fmri>, a: set<Fmri>, b: set<Fmri>)
    requires IsClosure(c, fs, a) && IsClosure(c, fs, b)
    ensures a == b
  {
  }

  /** `get_dependencies`: from any starting points, some of which may need others. */
  method GetDependencies(depot: Depot, fs: seq<Fmri>) returns (r: set<Fmri>)
    ensures IsClosure(depot, fs, r)
  {
    hide Needs, Universe;
    var puller := new Puller(depot);
    for i := 0 to |fs|
      invariant puller.depot == depot && ClosedUnder(depot, puller.s)
      invariant forall k :: 0 <= k < i ==> fs[k] in puller.s
      invariant forall t :: (forall f :: f in fs ==> f in t) && ClosedUnder(depot, t) ==> puller.s <= t
    {
      assert fs[i] in fs;
      puller.Visit(fs[i]);
    }
    r := puller.s;
  }

  // ---------------------------------------------------------------------- by version

  ghost predicate Listed(groups: seq<Group>, f: Fmri) {
    exists i :: 0 <= i < |groups| && f in groups[i].fmris
  }

  ghost predicate ListedByVersion(groups: seq<Group>) {
    forall i, f :: 0 <= i < |groups| && f in groups[i].fmris ==> f.ver == groups[i].ver
  }

  lemma GroupGrows(groups: seq<Group>, i: nat, f: Fmri)
    requires i < |groups| && groups[i].ver == f.ver && VersionsAscend(groups) && ListedByVersion(groups)
    ensures var r := groups[i := Group(f.ver, groups[i].fmris + [f])];
            VersionsAscend(r) && ListedByVersion(r) && forall g: Fmri :: Listed(r, g) <==> Listed(groups, g) || g == f
  {
    hide Less;
    var r := groups[i := Group(f.ver, groups[i].fmris + [f])];
    forall k | 0 <= k < |r| ensures r[k].ver == groups[k].ver {}
    forall g: Fmri | Listed(groups, g) ensures Listed(r, g) {
      var k :| 0 <= k < |groups| && g in groups[k].fmris;
      assert g in r[k].fmris;
    }
    forall g: Fmri | Listed(r, g) && g != f ensures Listed(groups, g) {
      var k :| 0 <= k < |r| && g in r[k].fmris;
      assert g in groups[k].fmris;
    }
    assert f in r[i].fmris;
  }

  lemma InsertAscends(groups: seq<Group>, i: nat, n: Group)
    requires i <= |groups| && VersionsAscend(groups)
    requires forall k :: 0 <= k < |groups| ==> if k < i then Le(groups[k].ver, n.ver) else Le(n.ver, groups[k].ver)
    ensures VersionsAscend(groups[..i] + [n] + groups[i..])
  {
    hide Le;
    var r := groups[..i] + [n] + groups[i..];
    forall x, y | 0 <= x < y < |r| ensures Le(r[x].ver, r[y].ver) {
      assert x != i ==> r[x] == groups[if x < i then x else x - 1];
      assert y != i ==> r[y] == groups[if y < i then y else y - 1];
    }
  }

  lemma GroupInserted(groups: seq<Group>, i: nat, f: Fmri)
    requires i <= |groups| && VersionsAscend(groups) && ListedByVersion(groups)
    requires i > 0 ==> Le(groups[i - 1].ver, f.ver)
    requires forall k :: i <= k < |groups| ==> Less(f.ver, groups[k].ver)
    ensures var r := groups[..i] + [Group(f.ver, [f])] + groups[i..];
            VersionsAscend(r) && ListedByVersion(r) && forall g: Fmri :: Listed(r, g) <==> Listed(groups, g) || g == f
  {
    hide Less;
    var n := Group(f.ver, [f]);
    forall k | 0 <= k < |groups| ensures if k < i then Le(groups[k].ver, f.ver) else Le(f.ver, groups[k].ver) {
      if k < i - 1 { LeTransitive(groups[k].ver, groups[i - 1].ver, f.ver); }
      if k >= i { LessTrichotomy(f.ver, groups[k].ver); }
    }
    InsertAscends(groups, i, n);
    var r := groups[..i] + [n] + groups[i..];
    forall k | 0 <= k < |r| && k != i ensures r[k] == groups[if k < i then k else k - 1] {}
    assert f in r[i].fmris;
    forall g: Fmri | Listed(groups, g) ensures Listed(r, g) {
      var k :| 0 <= k < |groups| && g in groups[k].fmris;
      assert g in r[if k < i then k else k + 1].fmris;
    }
    forall g: Fmri | Listed(r, g) && g != f ensures Listed(groups, g) {
      var k :| 0 <= k < |r| && g in r[k].fmris;
      assert g in groups[if k < i then k else k - 1].fmris;
    }
  }

  /** The groups so far: one for each version seen. */
  method AddToGroups(groups: seq<Group>, f: Fmri) returns (r: seq<Group>)
    requires VersionsAscend(groups) && ListedByVersion(groups)
    ensures VersionsAscend(r) && ListedByVersion(r)
    ensures forall g: Fmri :: Listed(r, g) <==> Listed(groups, g) || g == f
  {
    hide Less;
    for i := 0 to |groups|
      invariant forall k :: 0 <= k < i ==> groups[k].ver != f.ver
    {
      if groups[i].ver == f.ver {
        r := groups[i := Group(f.ver, groups[i].fmris + [f])];
        GroupGrows(groups, i, f);
        return;
      }
    }
    var i := |groups|;
    while i > 0 && Less(f.ver, groups[i - 1].ver)
      invariant 0 <= i <= |groups|
      invariant forall k :: i <= k < |groups| ==> Less(f.ver, groups[k].ver)
    {
      i := i - 1;
    }
    r := groups[..i] + [Group(f.ver, [f])] + groups[i..];
    GroupInserted(groups, i, f);
  }

  lemma HoldersListed(d: PartData)
    ensures forall f :: Holds(d, f) ==> f.pub in d.pubs
  {
  }

  method AddPublisher(groups: seq<Group>, d: PartData, stem: string, pub: string) returns (r: seq<Group>)
    requires VersionsAscend(groups) && ListedByVersion(groups)
    ensures VersionsAscend(r) && ListedByVersion(r)
    ensures forall f: Fmri :: Listed(r, f) <==> Listed(groups, f) || (Holds(d, f) && f.pub == pub && f.stem == stem)
  {
    hide Less, VersionsAscend, ListedByVersion;
    var list := At(d, pub, stem);
    r := groups;
    for i := 0 to |list|
      invariant VersionsAscend(r) && ListedByVersion(r)
      invariant forall f: Fmri :: Listed(r, f) <==>
                Listed(groups, f) || (f.pub == pub && f.stem == stem && exists k ::
                0 <= k < i && list[k].version == f.ver)
    {
      r := AddToGroups(r, Fmri(pub, stem, list[i].version));
    }
  }

  /** The versions of a package in ascending order, each with its FMRIs. */
  method FmrisByVersion(d: PartData, stem: string) returns (groups: seq<Group>)
    ensures IsListing(groups, d, stem)
  {
    hide Less;
    groups := [];
    HoldersListed(d);
    var pubs := d.pubs.Keys;
    while pubs != {}
      invariant pubs <= d.pubs.Keys && VersionsAscend(groups) && ListedByVersion(groups)
      invariant forall f: Fmri :: Listed(groups, f) <==> Offers(d, stem, f) && f.pub !in pubs
    {
      var pub :| pub in pubs;
      pubs := pubs - {pub};
      if !Reserved(pub) {
        groups := AddPublisher(groups, d, stem, pub);
      }
    }
  }

  // ---------------------------------------------------------------------- pruning

  /** `PkgFmri.__lt__`: by publisher, then by name, then by version. */
  predicate FmriLess(a: Fmri, b: Fmri) {
    if a.pub != b.pub then LexLess(Codes(a.pub), Codes(b.pub))
    else if a.stem != b.stem then LexLess(Codes(a.stem), Codes(b.stem))
    else Less(a.ver, b.ver)
  }

  lemma TextOrder(a: string, b: string, c: string)
    ensures a == b || LexLess(Codes(a), Codes(b)) || LexLess(Codes(b), Codes(a))
    ensures !(LexLess(Codes(a), Codes(b)) && LexLess(Codes(b), Codes(a)))
    ensures !LexLess(Codes(a), Codes(a))
    ensures LexLess(Codes(a), Codes(b)) && LexLess(Codes(b), Codes(c)) ==> LexLess(Codes(a), Codes(c))
  {
    LexTotal(Codes(a), Codes(b));
    LexIrreflexive(Codes(a));
    if Codes(a) == Codes(b) { CodesInjective(a, b); }
    if LexLess(Codes(a), Codes(b)) && LexLess(Codes(b), Codes(a)) { LexTransitive(Codes(a), Codes(b), Codes(a)); }
    if LexLess(Codes(a), Codes(b)) && LexLess(Codes(b), Codes(c)) { LexTransitive(Codes(a), Codes(b), Codes(c)); }
  }

  /** What is not less than something greater is not less than the rest either. */
  lemma FmriBeats(a: Fmri, b: Fmri, c: Fmri)
    requires FmriLess(b, c) && !FmriLess(b, a)
    ensures !FmriLess(c, a)
  {
    TextOrder(b.pub, c.pub, a.pub);
    TextOrder(c.pub, a.pub, b.pub);
    TextOrder(a.pub, b.pub, c.pub);
    TextOrder(b.stem, c.stem, a.stem);
    TextOrder(c.stem, a.stem, b.stem);
    TextOrder(a.stem, b.stem, c.stem);
    hide LexLess, Less;
    if a.pub == b.pub == c.pub && a.stem == b.stem == c.stem {
      LessTrichotomy(b.ver, c.ver);
      LeTransitive(a.ver, b.ver, c.ver);
    }
  }

  /** What is kept apart: versions without their timestamps, or only names. */
  datatype PruneKey =
    | ShortFmri(pub: string, stem: string, release: seq<nat>, branch: Option<seq<nat>>)
    | Name(stem: string)

  function PruneKeyOf(f: Fmri, allVersions: bool): PruneKey {
    if allVersions then ShortFmri(f.pub, f.stem, f.ver.release, f.ver.branch) else Name(f.stem)
  }

  /** FMRIs of which one is kept: those of one package name, or, with all versions,
      those that differ in nothing but the timestamp (and the build release). */
  ghost predicate Alike(f: Fmri, g: Fmri, allVersions: bool) {
    && f.stem == g.stem
    && (allVersions ==> f.pub == g.pub && f.ver.release == g.ver.release && f.ver.branch == g.ver.branch)
  }

  /** `g` is from a publisher whose name sorts later, or is a version of the same publisher that is not older. */
  ghost predicate Preferred(g: Fmri, f: Fmri) {
    if g.pub == f.pub then Le(f.ver, g.ver) else ComesFirst(Codes(f.pub), Codes(g.pub))
  }

  lemma KeyMeans(f: Fmri, g: Fmri, allVersions: bool)
    ensures PruneKeyOf(f, allVersions) == PruneKeyOf(g, allVersions) <==> Alike(f, g, allVersions)
  {
  }

  lemma NotLessMeans(g: Fmri, f: Fmri, allVersions: bool)
    requires !FmriLess(g, f) && Alike(g, f, allVersions)
    ensures Preferred(g, f)
  {
    TextOrder(f.pub, g.pub, f.pub);
    LexFirst(Codes(f.pub), Codes(g.pub));
  }

  /** `r` has one FMRI for each kind in the list, and one that is preferred to all others of its kind. */
  ghost predicate Pruned(list: seq<Fmri>, allVersions: bool, r: seq<Fmri>) {
    && (forall g :: g in r ==> g in list)
    && (forall i, j :: 0 <= i < j < |r| ==> !Alike(r[i], r[j], allVersions))
    && (forall f :: f in list ==> exists g :: g in r && Alike(g, f, allVersions) && Preferred(g, f))
  }

  /** The FMRIs of a list by key; the keys in the order they came up. */
  ghost predicate Deduped(list: seq<Fmri>, allVersions: bool, keys: seq<PruneKey>, dedup: map<PruneKey, seq<Fmri>>) {
    && (forall k :: k in keys <==> k in dedup) && (forall a, b :: 0 <= a < b < |keys| ==> keys[a] != keys[b])
    && (forall k :: k in dedup ==> dedup[k] != [])
    && (forall k, f :: k in dedup && f in dedup[k] ==> f in list && PruneKeyOf(f, allVersions) == k)
    && (forall f :: f in list ==> PruneKeyOf(f, allVersions) in dedup && f in dedup[PruneKeyOf(f, allVersions)])
  }

  lemma DedupNone(allVersions: bool)
    ensures Deduped([], allVersions, [], map[])
  {
  }

  lemma DedupStep(list: seq<Fmri>, allVersions: bool, keys: seq<PruneKey>, dedup: map<PruneKey, seq<Fmri>>, f: Fmri)
    requires Deduped(list, allVersions, keys, dedup)
    ensures var k := PruneKeyOf(f, allVersions);
            Deduped(list + [f], allVersions, if k in dedup then keys else keys + [k],
                    dedup[k := (if k in dedup then dedup[k] else []) + [f]])
  {
    hide PruneKeyOf;
  }

  /** The newest FMRI of every key. */
  ghost predicate NewestOf(keys: seq<PruneKey>, dedup: map<PruneKey, seq<Fmri>>, r: seq<Fmri>) {
    |r| <= |keys| && forall i :: 0 <= i < |r| ==>
      keys[i] in dedup && r[i] in dedup[keys[i]] && forall f :: f in dedup[keys[i]] ==> !FmriLess(r[i], f)
  }

  lemma NewestPruned(list: seq<Fmri>, allVersions: bool, keys: seq<PruneKey>, dedup: map<PruneKey, seq<Fmri>>,
      r: seq<Fmri>)
    requires Deduped(list, allVersions, keys, dedup) && NewestOf(keys, dedup, r) && |r| == |keys|
    ensures Pruned(list, allVersions, r)
  {
    hide FmriLess, PruneKeyOf, Alike, Preferred;
    forall i, j | 0 <= i < j < |r| ensures !Alike(r[i], r[j], allVersions) { KeyMeans(r[i], r[j], allVersions); }
    forall f | f in list ensures exists g :: g in r && Alike(g, f, allVersions) && Preferred(g, f) {
      var k := PruneKeyOf(f, allVersions);
      assert k in keys;
      var i :| 0 <= i < |keys| && keys[i] == k;
      KeyMeans(r[i], f, allVersions);
      NotLessMeans(r[i], f, allVersions);
      assert r[i] in r;
    }
  }

  method Dedup(list: seq<Fmri>, allVersions: bool) returns (keys: seq<PruneKey>, dedup: map<PruneKey, seq<Fmri>>)
    ensures Deduped(list, allVersions, keys, dedup)
  {
    hide *;
    keys, dedup := [], map[];
    DedupNone(allVersions);
    ghost var seen: seq<Fmri> := [];
    for i := 0 to |list|
      invariant seen == list[..i] && Deduped(seen, allVersions, keys, dedup)
    {
      var k := PruneKeyOf(list[i], allVersions);
      DedupStep(seen, allVersions, keys, dedup, list[i]);
      keys, dedup :=
        if k in dedup then keys else keys + [k],
        dedup[k := (if k in dedup then dedup[k] else []) + [list[i]]];
      seen := seen + [list[i]];
    }
    assert seen == list;
  }

  lemma FmriIrreflexive(f: Fmri)
    ensures !FmriLess(f, f)
  {
    LessIrreflexive(f.ver);
  }

  /** `sorted(fs, reverse=True)[0]` */
  method Newest(fs: seq<Fmri>) returns (best: Fmri)
    requires fs != []
    ensures best in fs && forall f :: f in fs ==> !FmriLess(best, f)
  {
    hide FmriLess;
    best := fs[0];
    FmriIrreflexive(best);
    for i := 1 to |fs|
      invariant best in fs && forall k :: 0 <= k < i ==> !FmriLess(best, fs[k])
    {
      FmriIrreflexive(fs[i]);
      if FmriLess(best, fs[i]) {
        forall k | 0 <= k < i ensures !FmriLess(fs[i], fs[k]) { FmriBeats(fs[k], best, fs[i]); }
        best := fs[i];
      }
    }
  }

  method NewestOfAll(ghost list: seq<Fmri>, ghost allVersions: bool, keys: seq<PruneKey>,
      dedup: map<PruneKey, seq<Fmri>>) returns (r: seq<Fmri>)
    requires Deduped(list, allVersions, keys, dedup)
    ensures NewestOf(keys, dedup, r) && |r| == |keys|
  {
    hide FmriLess, PruneKeyOf;
    r := [];
    for i := 0 to |keys|
      invariant |r| == i && NewestOf(keys, dedup, r)
    {
      assert keys[i] in keys;
      var newest := Newest(dedup[keys[i]]);
      r := r + [newest];
    }
  }

  method Prune(list: seq<Fmri>, allVersions: bool, allTimestamps: bool) returns (r: seq<Fmri>)
    ensures if allTimestamps then r == list else Pruned(list, allVersions, r)
  {
    hide Deduped, NewestOf, Pruned;
    if allTimestamps { return list; }
    var keys, dedup := Dedup(list, allVersions);
    r := NewestOfAll(list, allVersions, keys, dedup);
    NewestPruned(list, allVersions, keys, dedup, r);
  }
}
