/** How a manifest's actions are spread over the parts of a catalog
    (src/modules/catalog.py, Catalog.add_package). */
module ManifestActions {
  import opened Common
  import opened Versions
  import opened VersionLists
  import opened CatalogParts
  import opened CfgTexts

  datatype Kind = Depend | Set | OtherKind

  /** A manifest action: its type, its "name" attribute and its text. */
  datatype Action = Action(kind: Kind, name: string, text: string)

  predicate DependencyName(name: string) {
    || StartsWith(name, "variant") || StartsWith(name, "facet") || StartsWith(name, "pkg.depend.")
    || name == "pkg.obsolete" || name == "pkg.renamed" || name == "pkg.legacy"
  }

  /** The text before the first ':' of `s`. */
  function BeforeColon(s: string): string {
    if s == "" || s[0] == ':' then "" else [s[0]] + BeforeColon(s[1..])
  }

  function AfterColon(s: string): Option<string> {
    if s == "" then None else if s[0] == ':' then Some(s[1..]) else AfterColon(s[1..])
  }

  /** The locale named by a set action: the second ':'-separated component, else "C". */
  function SetLocale(name: string): string {
    match AfterColon(name)
    case Some(rest) => BeforeColon(rest)
    case None => "C"
  }

  /** The part that keeps an action; the FMRI itself is kept nowhere. */
  function Target(kind: Kind, name: string): (r: Option<PartName>)
    ensures r.None? <==> kind == OtherKind || (kind == Set && name in {"fmri", "pkg.fmri"})
    ensures r.Some? ==> r.value == Dependency || r.value.Summary?
  {
    match kind
    case Depend => Some(Dependency)
    case OtherKind => None
    case Set =>
      if DependencyName(name) then
        assert name != "fmri" by { assert name[0] == 'v' || name[1] == 'a' || name[0] == 'p'; }
        assert name != "pkg.fmri" by { assert name[0] == 'v' || name[0] == 'f' || name[4] == 'd' || |name| != 8; }
        Some(Dependency)
      else if name == "fmri" || name == "pkg.fmri" then None
      else Some(Summary(SetLocale(name)))
  }

  /** An action's type and text, with the part that keeps it. */
  datatype Placed = Placed(kind: Kind, target: Option<PartName>, text: string)

  function Place(actions: seq<Action>): (r: seq<Placed>)
    ensures |r| == |actions|
    ensures forall i :: 0 <= i < |r| ==>
            r[i] == Placed(actions[i].kind, Target(actions[i].kind, actions[i].name), actions[i].text)
  {
    seq(|actions|, i requires 0 <= i < |actions| =>
      Placed(actions[i].kind, Target(actions[i].kind, actions[i].name), actions[i].text))
  }

  /** The actions of one type, as `gen_actions_by_type` yields them. */
  function OfKind(ps: seq<Placed>, kind: Kind): seq<Placed> {
    if ps == [] then []
    else OfKind(Front(ps), kind) + if Last(ps).kind == kind then [Last(ps)] else []
  }

  function ActionsOfKind(actions: seq<Action>, kind: Kind): (r: seq<Action>)
    ensures forall a :: a in r ==> a.kind == kind
  {
    if actions == [] then []
    else ActionsOfKind(Front(actions), kind) + if Last(actions).kind == kind then [Last(actions)] else []
  }

  lemma {:induction false} PlaceOfKind(actions: seq<Action>, kind: Kind)
    ensures Place(ActionsOfKind(actions, kind)) == OfKind(Place(actions), kind)
  {
    if actions != [] {
      PlaceOfKind(Front(actions), kind);
      assert Front(Place(actions)) == Place(Front(actions));
    }
  }

  /** The order in which a catalog takes a manifest's actions: by type. */
  function ByKind(ps: seq<Placed>): seq<Placed> {
    OfKind(ps, Depend) + OfKind(ps, Set)
  }

  /** The texts of the actions kept by part `n`, in order. */
  function Texts(ps: seq<Placed>, n: PartName): seq<string> {
    if ps == [] then []
    else Texts(Front(ps), n) + if Last(ps).target == Some(n) then [Last(ps).text] else []
  }

  /** The texts of all the actions a catalog keeps. */
  ghost function Kept(ps: seq<Placed>): multiset<string> {
    if ps == [] then multiset{}
    else Kept(Front(ps)) + if Last(ps).target.Some? then multiset{Last(ps).text} else multiset{}
  }

  function Targets(ps: seq<Placed>): set<PartName> {
    set p | p in ps && p.target.Some? :: p.target.value
  }

  /** The catalog entries made for a package: one per part that keeps some action, next to its base entry. */
  function EntriesFor(v: Version, base: Entry, ps: seq<Placed>): map<PartName, Entry> {
    (map n | n in Targets(ps) :: Entry(v, Texts(ps, n), map[]))[Base := base.(version := v)]
  }

  lemma {:induction false} TargetsNonEmpty(ps: seq<Placed>, n: PartName)
    ensures n in Targets(ps) <==> Texts(ps, n) != []
  {
    if ps != [] {
      TargetsNonEmpty(Front(ps), n);
      assert ps == Front(ps) + [Last(ps)];
    }
  }

  /** The actions of a package as its catalog takes them; a package may come without a manifest. */
  function Taken(manifest: Option<seq<Action>>): seq<Placed> {
    if manifest.None? then [] else ByKind(Place(manifest.value))
  }

  lemma TakenIsPlaced(manifest: seq<Action>)
    ensures Place(ActionsOfKind(manifest, Depend) + ActionsOfKind(manifest, Set)) == Taken(Some(manifest))
  {
    hide OfKind, ActionsOfKind, Target;
    PlaceOfKind(manifest, Depend);
    PlaceOfKind(manifest, Set);
    assert Place(ActionsOfKind(manifest, Depend) + ActionsOfKind(manifest, Set)) ==
           Place(ActionsOfKind(manifest, Depend)) + Place(ActionsOfKind(manifest, Set));
  }

  lemma {:induction false} OfKindMembers(ps: seq<Placed>, kind: Kind)
    ensures forall p :: p in OfKind(ps, kind) ==> p in ps
  {
    if ps != [] {
      OfKindMembers(Front(ps), kind);
      assert ps == Front(ps) + [Last(ps)];
    }
  }

  lemma {:induction false} OfKindKind(ps: seq<Placed>, kind: Kind)
    ensures forall p :: p in OfKind(ps, kind) ==> p.kind == kind
  {
    if ps != [] { OfKindKind(Front(ps), kind); }
  }

  lemma TakenTargets(manifest: Option<seq<Action>>)
    ensures forall n :: n in Targets(Taken(manifest)) ==> n == Dependency || n.Summary?
    ensures forall p :: p in Taken(manifest) ==> p.kind != OtherKind
  {
    if manifest.Some? {
      hide OfKind;
      var ps := Place(manifest.value);
      OfKindMembers(ps, Depend);
      OfKindMembers(ps, Set);
      forall p | p in ps && p.target.Some? ensures p.target.value == Dependency || p.target.value.Summary? {
        var i :| 0 <= i < |ps| && ps[i] == p;
      }
      forall p | p in Taken(manifest) ensures p.kind != OtherKind {
        OfKindKind(ps, Depend);
        OfKindKind(ps, Set);
      }
    }
  }

  /** Which parts get an entry for a package, and which actions it lists. */
  lemma EntriesAre(v: Version, base: Entry, manifest: Option<seq<Action>>, n: PartName)
    ensures n in EntriesFor(v, base, Taken(manifest)) <==> n == Base || Texts(Taken(manifest), n) != []
    ensures n != Base && n in EntriesFor(v, base, Taken(manifest)) ==>
              EntriesFor(v, base, Taken(manifest))[n] == Entry(v, Texts(Taken(manifest), n), map[]) &&
              (n == Dependency || n.Summary?)
    ensures EntriesFor(v, base, Taken(manifest))[Base] == base.(version := v)
  {
    hide Texts, Target, ByKind;
    TargetsNonEmpty(Taken(manifest), n);
    TakenTargets(manifest);
  }

  // --------------------------------------------------- which part, by the name's text

  /** What the dependency part lists: the depend actions, and the set actions that are
      about variants, facets, dependencies or the state of the package. */
  ghost predicate ForDependency(a: Action) {
    || a.kind == Depend
    || (a.kind == Set &&
        (|| (exists x :: a.name == "variant" + x)
         || (exists x :: a.name == "facet" + x)
         || (exists x :: a.name == "pkg.depend." + x)
         || a.name in {"pkg.obsolete", "pkg.renamed", "pkg.legacy"}))
  }

  /** What the summary part of a locale lists: the other set actions but for the FMRI,
      by the second ':'-separated piece of their names, or else under "C". */
  ghost predicate ForSummary(a: Action, locale: string) {
    && a.kind == Set && !ForDependency(a) && a.name !in {"fmri", "pkg.fmri"}
    && var pieces := Split(a.name, ':');
       locale == if |pieces| > 1 then pieces[1] else "C"
  }

  ghost predicate BelongsTo(a: Action, n: PartName) {
    match n
    case Dependency => ForDependency(a)
    case Summary(l) => ForSummary(a, l)
    case _ => false
  }

  lemma {:induction false} ColonCut(s: string)
    ensures ':' !in BeforeColon(s)
    ensures AfterColon(s).None? ==> BeforeColon(s) == s
    ensures AfterColon(s).Some? ==> s == BeforeColon(s) + [':'] + AfterColon(s).value
  {
    if s != "" {
      ColonCut(s[1..]);
      assert s == [s[0]] + s[1..];
    }
  }

  lemma FirstOfSplit(s: string)
    ensures Split(s, ':')[0] == BeforeColon(s)
    ensures AfterColon(s).None? ==> Split(s, ':') == [s]
    ensures AfterColon(s).Some? ==> Split(s, ':') == [BeforeColon(s)] + Split(AfterColon(s).value, ':')
  {
    ColonCut(s);
    hide Split, BeforeColon, AfterColon;
    if AfterColon(s).None? { SplitWhole(s, ':'); } else { SplitBefore(BeforeColon(s), ':', AfterColon(s).value); }
  }

  lemma SetLocaleMeans(name: string)
    ensures SetLocale(name) == if |Split(name, ':')| > 1 then Split(name, ':')[1] else "C"
  {
    FirstOfSplit(name);
    if AfterColon(name).Some? { FirstOfSplit(AfterColon(name).value); }
    hide Split, BeforeColon, AfterColon;
  }

  /** The part that keeps an action is the one that its name's text says. */
  lemma TargetMeans(a: Action, n: PartName)
    ensures Target(a.kind, a.name) == Some(n) <==> BelongsTo(a, n)
  {
    PrefixIs(a.name, "variant");
    PrefixIs(a.name, "facet");
    PrefixIs(a.name, "pkg.depend.");
    SetLocaleMeans(a.name);
    hide StartsWith, SetLocale, Split;
  }

  /** The texts of the actions that belong to a part, in their order. */
  ghost function Belonging(actions: seq<Action>, n: PartName): seq<string> {
    if actions == [] then []
    else Belonging(Front(actions), n) + if BelongsTo(Last(actions), n) then [Last(actions).text] else []
  }

  lemma {:induction false} TextsMean(actions: seq<Action>, n: PartName)
    ensures Texts(Place(actions), n) == Belonging(actions, n)
  {
    hide Target, BelongsTo;
    if actions != [] {
      TextsMean(Front(actions), n);
      TargetMeans(Last(actions), n);
      assert Front(Place(actions)) == Place(Front(actions));
    }
  }

  /** The texts of the actions of one type that belong to a part. */
  ghost function Those(actions: seq<Action>, kind: Kind, n: PartName): seq<string> {
    if actions == [] then []
    else
      var a := Last(actions);
      Those(Front(actions), kind, n) + if a.kind == kind && BelongsTo(a, n) then [a.text] else []
  }

  lemma {:induction false} TextsOfKind(actions: seq<Action>, kind: Kind, n: PartName)
    ensures Texts(OfKind(Place(actions), kind), n) == Those(actions, kind, n)
  {
    hide Target, BelongsTo;
    if actions != [] {
      TextsOfKind(Front(actions), kind, n);
      TargetMeans(Last(actions), n);
      var ps, p := OfKind(Place(Front(actions)), kind), Last(Place(actions));
      assert Front(Place(actions)) == Place(Front(actions));
      if p.kind == kind {
        assert OfKind(Place(actions), kind) == ps + [p];
        assert Front(ps + [p]) == ps && Last(ps + [p]) == p;
        assert Texts(ps + [p], n) == Texts(ps, n) + if p.target == Some(n) then [p.text] else [];
      } else {
        assert OfKind(Place(actions), kind) == ps;
      }
    }
  }

  lemma {:induction false} TextsConcat(a: seq<Placed>, b: seq<Placed>, n: PartName)
    ensures Texts(a + b, n) == Texts(a, n) + Texts(b, n)
  {
    if b == [] {
      assert a + b == a;
    } else {
      assert Front(a + b) == a + Front(b) && Last(a + b) == Last(b);
      TextsConcat(a, Front(b), n);
    }
  }

  /** What is listed for a package: the depend actions that belong to the part, and then the set actions. */
  lemma TakenMeans(manifest: seq<Action>, n: PartName)
    ensures Texts(Taken(Some(manifest)), n) == Those(manifest, Depend, n) + Those(manifest, Set, n)
  {
    hide Texts, Target, BelongsTo, OfKind, Those;
    var ps := Place(manifest);
    TextsConcat(OfKind(ps, Depend), OfKind(ps, Set), n);
    TextsOfKind(manifest, Depend, n);
    TextsOfKind(manifest, Set, n);
  }

  // ------------------------------------------------------------ conservation

  /** The actions found when the parts `order` are read one after the other. */
  function Gather(order: seq<PartName>, ps: seq<Placed>): seq<string> {
    if order == [] then [] else Gather(Front(order), ps) + Texts(ps, Last(order))
  }

  ghost predicate NoRepeats(order: seq<PartName>) {
    forall i, j :: 0 <= i < j < |order| ==> order[i] != order[j]
  }

  lemma {:induction false} GatherNone(order: seq<PartName>)
    ensures Gather(order, []) == []
  {
    if order != [] { GatherNone(Front(order)); }
  }

  ghost function Share(p: Placed, order: seq<PartName>): multiset<string> {
    if p.target.Some? && p.target.value in order then multiset{p.text} else multiset{}
  }

  lemma TextsStep(ps: seq<Placed>, n: PartName)
    requires ps != []
    ensures multiset(Texts(ps, n)) == multiset(Texts(Front(ps), n)) + Share(Last(ps), [n])
  {
    var own := if Last(ps).target == Some(n) then [Last(ps).text] else [];
    assert Texts(ps, n) == Texts(Front(ps), n) + own;
  }

  lemma GatherSnoc(order: seq<PartName>, ps: seq<Placed>)
    requires order != []
    ensures multiset(Gather(order, ps)) == multiset(Gather(Front(order), ps)) + multiset(Texts(ps, Last(order)))
  {
  }

  lemma ShareSnoc(p: Placed, order: seq<PartName>)
    requires order != [] && NoRepeats(order)
    ensures Share(p, order) == Share(p, Front(order)) + Share(p, [Last(order)])
  {
    assert order == Front(order) + [Last(order)] && Last(order) !in Front(order);
  }

  lemma {:induction false} GatherStep(order: seq<PartName>, ps: seq<Placed>)
    requires ps != [] && NoRepeats(order)
    ensures multiset(Gather(order, ps)) == multiset(Gather(order, Front(ps))) + Share(Last(ps), order)
  {
    if order != [] {
      GatherStep(Front(order), ps);
      GatherSnoc(order, ps);
      GatherSnoc(order, Front(ps));
      TextsStep(ps, Last(order));
      ShareSnoc(Last(ps), order);
    }
  }

  /** No action is lost and none is stored twice: read in any order, the parts
      together give back exactly the actions a catalog keeps. */
  lemma {:induction false} ActionsConserved(order: seq<PartName>, ps: seq<Placed>)
    requires NoRepeats(order) && forall n :: n in Targets(ps) ==> n in order
    ensures multiset(Gather(order, ps)) == Kept(ps)
  {
    if ps == [] {
      GatherNone(order);
    } else {
      var p := Last(ps);
      assert ps == Front(ps) + [p];
      assert Targets(Front(ps)) <= Targets(ps);
      ActionsConserved(order, Front(ps));
      GatherStep(order, ps);
      if p.target.Some? { assert p.target.value in Targets(ps); }
    }
  }

  lemma {:induction false} KeptConcat(a: seq<Placed>, b: seq<Placed>)
    ensures Kept(a + b) == Kept(a) + Kept(b)
  {
    if b == [] {
      assert a + b == a;
    } else {
      assert Front(a + b) == a + Front(b) && Last(a + b) == Last(b);
      KeptConcat(a, Front(b));
    }
  }

  lemma KeptOfKind(ps: seq<Placed>, kind: Kind)
    requires ps != []
    ensures Kept(OfKind(ps, kind)) == Kept(OfKind(Front(ps), kind)) + if Last(ps).kind == kind then Kept([Last(ps)])
            else multiset{}
  {
    var f := OfKind(Front(ps), kind);
    KeptConcat(f, [Last(ps)]);
    assert OfKind(ps, kind) == if Last(ps).kind == kind then f + [Last(ps)] else f;
  }

  /** Taking the actions by type loses none of those that are kept. */
  lemma {:induction false} KeptByKind(ps: seq<Placed>)
    requires forall p :: p in ps && p.kind == OtherKind ==> p.target.None?
    ensures Kept(ByKind(ps)) == Kept(ps)
  {
    if ps != [] {
      var p, f := Last(ps), Front(ps);
      assert ps == f + [p];
      KeptByKind(f);
      KeptConcat(f, [p]);
      KeptConcat(OfKind(f, Depend), OfKind(f, Set));
      KeptConcat(OfKind(ps, Depend), OfKind(ps, Set));
      KeptOfKind(ps, Depend);
      KeptOfKind(ps, Set);
    }
  }
}
