/** The publishing catalog, whose operations update it in place
    (src/modules/catalog.py, Catalog). */
module Catalogs {
  import opened Common
  import opened Versions
  import opened VersionLists
  import opened CatalogParts
  import opened UpdateLogs
  import opened ManifestActions
  import opened Servers

  /** The parts `seen` have been visited: those that held `f` have lost it, and its
      entries were collected if they are to be logged. */
  ghost predicate Visited(parts: map<PartName, PartState>, entries: map<PartName, Entry>, s: Server, f: Fmri,
      opTime: nat, seen: set<PartName>)
  {
    && parts == s.parts + States(RemoveResults(s, f, seen), opTime) && parts.Keys == s.parts.Keys
    && (forall n :: n in s.parts && n !in seen ==> parts[n] == s.parts[n])
    && entries == if s.logging then EntriesOf(s, f, seen) else map[]
  }

  lemma VisitedParts(parts: map<PartName, PartState>, entries: map<PartName, Entry>, s: Server, f: Fmri, opTime: nat,
      seen: set<PartName>)
    requires Visited(parts, entries, s, f, opTime, seen)
    ensures parts == s.parts + States(RemoveResults(s, f, seen), opTime) && parts.Keys == s.parts.Keys
    ensures entries == if s.logging then EntriesOf(s, f, seen) else map[]
  {
  }

  lemma AlreadySorted(s: Server, n: PartName)
    requires ValidServer(s) && n in s.parts
    ensures SortAll(s.parts[n].data) == s.parts[n].data
  {
    hide ValidData, Sorted;
    SortAllOfSorted(s.parts[n].data);
  }

  lemma CountedAlready(s: Server)
    requires ValidServer(s)
    ensures Recounted(s) == s
  {
  }

  lemma BaseOf(s: Server)
    ensures Base in s.parts ==> DataOf(s, Base) == s.parts[Base].data
  {
  }

  lemma NoneVisited(s: Server, f: Fmri, opTime: nat)
    requires ValidServer(s)
    ensures Visited(s.parts, map[], s, f, opTime, {})
  {
    RefusesNone(s, f, opTime);
    NoEntriesOf(s, f);
    hide ValidServer, RemoveResults, States, EntriesOf;
  }

  /** The parts to be read are those asked for that exist, the dependency part first;
      without any locale, the summary is that of the C locale. */
  ghost predicate Wanted(order: seq<PartName>, present: set<PartName>, dependency: bool, summary: bool,
      locales: set<string>)
  {
    && NoRepeats(order)
    && (forall n :: n in order <==>
          && n in present
          && match n
             case Dependency => dependency
             case Summary(l) => summary && (if locales == {} then l == "C" else l in locales)
             case _ => false)
    && (Dependency in order ==> order[0] == Dependency)
  }

  lemma WantedPresent(order: seq<PartName>, present: set<PartName>, dependency: bool, summary: bool,
      locales: set<string>)
    requires Wanted(order, present, dependency, summary, locales)
    ensures forall n :: n in order ==> n in present
    ensures NoRepeats(order)
  {
  }

  /** The entry `e` with those of the parts `order` merged into it. */
  function Merged(s: Server, e: Entry, order: seq<PartName>, f: Fmri): Entry {
    if order == [] then e
    else
      var m := Merged(s, e, Front(order), f);
      match Lookup(DataOf(s, Last(order)), f)
      case None => m
      case Some(x) => m.(actions := m.actions + x.actions, info := m.info + x.info)
  }

  /** What a part has about a package under a key, besides its actions. */
  ghost function InfoIn(s: Server, n: PartName, f: Fmri, k: string): Option<string> {
    match Lookup(DataOf(s, n), f)
    case Some(x) => if k in x.info then Some(x.info[k]) else None
    case None => None
  }

  ghost function ActionsIn(s: Server, n: PartName, f: Fmri): seq<string> {
    match Lookup(DataOf(s, n), f)
    case Some(x) => x.actions
    case None => []
  }

  /** The last of the parts to say something under a key. */
  ghost predicate SaysLast(s: Server, order: seq<PartName>, f: Fmri, k: string, i: int) {
    && 0 <= i < |order| && InfoIn(s, order[i], f, k).Some?
    && forall j :: i < j < |order| ==> !InfoIn(s, order[j], f, k).Some?
  }

  ghost function AllActions(s: Server, order: seq<PartName>, f: Fmri): (r: seq<seq<string>>)
    ensures |r| == |order| && forall i :: 0 <= i < |r| ==> r[i] == ActionsIn(s, order[i], f)
  {
    seq(|order|, i requires 0 <= i < |order| => ActionsIn(s, order[i], f))
  }

  lemma MergedStep(s: Server, e: Entry, order: seq<PartName>, f: Fmri, k: string)
    requires order != []
    ensures var m, r, n := Merged(s, e, Front(order), f), Merged(s, e, order, f), Last(order);
            && r.version == m.version && r.actions == m.actions + ActionsIn(s, n, f)
            && (if InfoIn(s, n, f, k).Some? then k in r.info && r.info[k] == InfoIn(s, n, f, k).value
                else if k in m.info then k in r.info && r.info[k] == m.info[k]
                else k !in r.info)
  {
    hide Lookup, DataOf;
  }

  /** All the actions are merged, part by part behind those of the entry. */
  lemma {:induction false} MergedActions(s: Server, e: Entry, order: seq<PartName>, f: Fmri)
    ensures var m := Merged(s, e, order, f);
            m.version == e.version && m.actions == e.actions + Flatten(AllActions(s, order, f))
  {
    if order != [] {
      MergedActions(s, e, Front(order), f);
      MergedStep(s, e, order, f, "");
      hide Merged, ActionsIn;
      assert Front(AllActions(s, order, f)) == AllActions(s, Front(order), f);
    }
  }

  lemma LastSays(s: Server, order: seq<PartName>, f: Fmri, k: string)
    requires order != [] && InfoIn(s, Last(order), f, k).Some?
    ensures forall i :: SaysLast(s, order, f, k, i) ==> i == |order| - 1
  {
    hide InfoIn;
  }

  lemma FrontSays(s: Server, order: seq<PartName>, f: Fmri, k: string)
    requires order != [] && !InfoIn(s, Last(order), f, k).Some?
    ensures forall i :: SaysLast(s, order, f, k, i) ==>
              SaysLast(s, Front(order), f, k, i) && order[i] == Front(order)[i]
    ensures (forall i :: 0 <= i < |order| ==> !InfoIn(s, order[i], f, k).Some?) ==>
              forall i :: 0 <= i < |Front(order)| ==> !InfoIn(s, Front(order)[i], f, k).Some?
  {
    hide InfoIn;
    var front := Front(order);
    assert forall i :: 0 <= i < |front| ==> front[i] == order[i];
    forall i | SaysLast(s, order, f, k, i) ensures SaysLast(s, front, f, k, i) && order[i] == front[i] {
      assert i != |order| - 1;
    }
  }

  /** For every key, the last of the parts to have it decides. */
  lemma {:induction false} MergedInfo(s: Server, e: Entry, order: seq<PartName>, f: Fmri, k: string)
    ensures var info := Merged(s, e, order, f).info;
            && (forall i :: SaysLast(s, order, f, k, i) ==> k in info && info[k] == InfoIn(s, order[i], f, k).value)
            && ((forall i :: 0 <= i < |order| ==> !InfoIn(s, order[i], f, k).Some?) ==>
                  if k in e.info then k in info && info[k] == e.info[k] else k !in info)
  {
    if order != [] {
      hide InfoIn, Merged;
      var front, n := order[..|order| - 1], order[|order| - 1];
      MergedInfo(s, e, front, f, k);
      MergedStep(s, e, order, f, k);
      if InfoIn(s, n, f, k).Some? {
        LastSays(s, order, f, k);
      } else {
        FrontSays(s, order, f, k);
      }
    }
  }

  /** What is listed of one package, in its order. */
  function OfPackage(list: seq<(Fmri, Entry)>, pub: string, stem: string): seq<(Fmri, Entry)> {
    if list == [] then []
    else OfPackage(Front(list), pub, stem) + if Last(list).0.pub == pub && Last(list).0.stem == stem then [Last(list)]
      else []
  }

  /** The entries of a version list that are asked for. */
  function Picked(list: seq<Entry>, last: bool, descending: bool): seq<Entry> {
    if last then if list == [] then [] else [Last(list)]
    else if descending then seq(|list|, i requires 0 <= i < |list| => list[|list| - 1 - i])
    else list
  }

  /** Each version with its merged entry. */
  ghost function WithEntries(s: Server, order: seq<PartName>, pub: string, stem: string,
      list: seq<Entry>): seq<(Fmri, Entry)>
  {
    seq(|list|, i requires 0 <= i < |list| =>
      (Fmri(pub, stem, list[i].version), Merged(s, list[i], order, Fmri(pub, stem, list[i].version))))
  }

  /** What `entries` is to list of a package. */
  ghost function PackageEntries(s: Server, order: seq<PartName>, pub: string, stem: string, last: bool,
      descending: bool): seq<(Fmri, Entry)>
  {
    if Base !in s.parts || Reserved(pub) then []
    else WithEntries(s, order, pub, stem, Picked(At(s.parts[Base].data, pub, stem), last, descending))
  }

  lemma PackageEntriesAre(s: Server, order: seq<PartName>, pub: string, stem: string, last: bool, descending: bool)
    requires Base in s.parts && !Reserved(pub)
    ensures PackageEntries(s, order, pub, stem, last, descending) ==
            WithEntries(s, order, pub, stem, Picked(At(s.parts[Base].data, pub, stem), last, descending))
  {
    hide WithEntries, Picked, At, Reserved;
  }

  lemma NothingOfPackage()
    ensures forall p, q :: OfPackage([], p, q) == []
  {
  }

  lemma OneMore(list: seq<(Fmri, Entry)>, x: (Fmri, Entry), pub: string, stem: string)
    ensures OfPackage(list + [x], pub, stem) == OfPackage(list, pub, stem) + if x.0.pub == pub && x.0.stem == stem
            then [x] else []
  {
    assert Front(list + [x]) == list && Last(list + [x]) == x;
  }

  lemma NoEntries(s: Server, order: seq<PartName>, pub: string, stem: string, last: bool, descending: bool)
    requires Base !in s.parts || Reserved(pub) || pub !in s.parts[Base].data.pubs
             || stem !in s.parts[Base].data.pubs[pub]
    ensures PackageEntries(s, order, pub, stem, last, descending) == []
  {
    if Base in s.parts && !Reserved(pub) { assert At(s.parts[Base].data, pub, stem) == []; }
  }

  lemma NoneListed(s: Server, order: seq<PartName>, last: bool, descending: bool)
    ensures forall p, q :: Base !in s.parts || Reserved(p) || p !in s.parts[Base].data.pubs ==>
              PackageEntries(s, order, p, q, last, descending) == []
  {
    hide PackageEntries;
    forall p, q | Base !in s.parts || Reserved(p) || p !in s.parts[Base].data.pubs
      ensures PackageEntries(s, order, p, q, last, descending) == []
    {
      NoEntries(s, order, p, q, last, descending);
    }
  }

  lemma NoneWithEntries(s: Server, order: seq<PartName>, pub: string, stem: string)
    ensures WithEntries(s, order, pub, stem, []) == []
  {
  }

  lemma FirstEntries(s: Server, order: seq<PartName>, pub: string, stem: string, list: seq<Entry>, i: nat)
    requires i < |list|
    ensures var f := Fmri(pub, stem, list[i].version);
            WithEntries(s, order, pub, stem, list[..i + 1]) ==
              WithEntries(s, order, pub, stem, list[..i]) + [(f, Merged(s, list[i], order, f))]
  {
    hide Merged;
  }

  /** The actions a locale's dictionary entry lists; a missing one lists none. */
  function SumOf(sums: map<string, seq<string>>, l: string): seq<string> {
    if l in sums then sums[l] else []
  }

  lemma EntriesGathered(entries: map<PartName, Entry>, v: Version, base: Entry, manifest: seq<Action>, dep: seq<string>,
      sums: map<string, seq<string>>)
    requires base.version == v && dep == Texts(Taken(Some(manifest)), Dependency)
    requires forall l :: SumOf(sums, l) == Texts(Taken(Some(manifest)), Summary(l))
    requires forall n :: n in entries <==>
               n == Base || (n == Dependency && dep != []) || (n.Summary? && n.loc in sums && sums[n.loc] != [])
    requires entries[Base] == base && (dep != [] ==> entries[Dependency] == Entry(v, dep, map[]))
    requires forall l :: l in sums && sums[l] != [] ==> entries[Summary(l)] == Entry(v, sums[l], map[])
    ensures entries == EntriesFor(v, base, Taken(Some(manifest)))
  {
    hide EntriesFor, Taken, Texts;
    var es := EntriesFor(v, base, Taken(Some(manifest)));
    forall n ensures n in entries <==> n in es
             ensures n in entries ==> entries[n] == es[n] {
      EntriesAre(v, base, Some(manifest), n);
      if n.Summary? { assert SumOf(sums, n.loc) == Texts(Taken(Some(manifest)), Summary(n.loc)); }
    }
  }

  lemma NoManifest(v: Version, base: Entry)
    ensures EntriesFor(v, base, Taken(None)) == map[Base := base.(version := v)]
  {
    assert Targets([]) == {};
  }

  lemma NoTexts()
    ensures forall n :: Texts(Place([]), n) == []
  {
  }

  lemma PlaceSnoc(actions: seq<Action>, a: Action)
    ensures forall n :: Texts(Place(actions + [a]), n) ==
                        Texts(Place(actions), n) + if Target(a.kind, a.name) == Some(n) then [a.text] else []
  {
    var p := Place(actions + [a]);
    assert Front(p) == Place(actions) && Last(p) == Placed(a.kind, Target(a.kind, a.name), a.text);
  }

  class Catalog {
    var parts: map<PartName, PartState>
    var cached: set<PartName>
    var logs: map<LogName, LogState>
    var attrs: Attrs
    const logUpdates: bool

    /** The whole state of this object as a value. */
    function Model(): Server
      reads this
    {
      Server(parts, cached, logs, attrs, logUpdates)
    }

    ghost predicate Valid()
      reads this
    {
      ValidServer(Model())
    }

    constructor (created: nat, logUpdates: bool)
      ensures Valid() && Model() == NewServer(created, logUpdates)
    {
      parts, cached, logs := map[], {}, map[];
      attrs := Attrs(created, created, 0, 0, map[], map[]);
      this.logUpdates := logUpdates;
      new;
      NewServerValid(created, logUpdates);
    }

    /** `get_part`: the part is opened, and made first when there is none. */
    method GetPart(n: PartName, now: nat) returns (p: PartState)
      modifies this`parts, this`cached, this`attrs
      ensures Model() == GotPart(old(Model()), n, now) && n in parts && p == parts[n]
    {
      if n !in parts {
        parts := parts[n := PartState(Empty, now)];
        attrs := attrs.(parts := attrs.parts[n := now]);
      }
      cached := cached + {n};
      p := parts[n];
    }

    /** `get_part` with `must_exist`: the part is opened only when it is listed already. */
    method FindPart(n: PartName) returns (p: Option<PartState>)
      requires Valid()
      modifies this`cached
      ensures Valid() && p == (if n in parts then Some(parts[n]) else None)
      ensures cached == old(cached) + if n in parts then {n} else {}
    {
      ValidKeys(Model());
      hide ValidServer;
      OpenedValid(Model(), if n in parts then {n} else {});
      if n in cached {
        p := Some(parts[n]);
        return;
      }
      if n !in attrs.parts { return None; }
      cached := cached + {n};
      p := Some(parts[n]);
    }

    /** `group_actions`: the texts kept by the dependency part, and by each locale's summary part. */
    static method GroupActions(actions: seq<Action>) returns (dep: seq<string>, sums: map<string, seq<string>>)
      requires forall a :: a in actions ==> a.kind == Depend || a.kind == Set
      ensures dep == Belonging(actions, Dependency)
      ensures forall l :: SumOf(sums, l) == Belonging(actions, Summary(l))
      ensures dep == Texts(Place(actions), Dependency)
      ensures forall l :: SumOf(sums, l) == Texts(Place(actions), Summary(l))
    {
      hide DependencyName, SetLocale, Texts, Place, Belonging;
      forall n ensures Texts(Place(actions), n) == Belonging(actions, n) { TextsMean(actions, n); }
      dep, sums := [], map["C" := []];
      NoTexts();
      for i := 0 to |actions|
        invariant dep == Texts(Place(actions[..i]), Dependency)
        invariant forall l :: SumOf(sums, l) == Texts(Place(actions[..i]), Summary(l))
      {
        var act := actions[i];
        assert act in actions;
        PlaceSnoc(actions[..i], act);
        assert actions[..i + 1] == actions[..i] + [act];
        if act.kind == Depend {
          dep := dep + [act.text];
        } else if DependencyName(act.name) {
          dep := dep + [act.text];
        } else if act.name == "fmri" || act.name == "pkg.fmri" {
        } else {
          var locale := SetLocale(act.name);
          if locale !in sums { sums := sums[locale := []]; }
          sums := sums[locale := sums[locale] + [act.text]];
        }
      }
      assert actions[..|actions|] == actions;
    }

    /** `__finalize(sort=False)`. */
    method Finalize()
      requires ValidData(DataOf(Model(), Base))
      modifies this`attrs
      ensures Model() == Recounted(old(Model()))
    {
      var packages, versions := CountPackages(if Base in parts then parts[Base].data else Empty);
      attrs := attrs.(packages := packages, versions := versions);
    }

    /** `finalize`: the opened parts are sorted as well, which outside batch mode, where
        they are always in order, changes nothing. */
    method FinalizeSorted()
      requires Valid()
      modifies this`parts, this`attrs
      ensures Model() == old(Model())
    {
      ghost var s := Model();
      ValidKeys(s);
      hide ValidServer, SortAll;
      var names := cached;
      while names != {}
        invariant names <= cached && Model() == s
      {
        var n :| n in names;
        names := names - {n};
        AlreadySorted(s, n);
        parts := parts[n := PartState(SortAll(parts[n].data), parts[n].lm)];
        assert parts == s.parts;
      }
      CountedAlready(s);
      DataValid(s, Base);
      Finalize();
    }

    /** Splits the entries by the locale of their parts. */
    static method ByLocale(entries: map<PartName, Entry>) returns (updates: map<string, map<PartName, Entry>>)
      ensures updates.Keys == Locales(entries)
      ensures forall l :: l in updates ==> updates[l] == OfLocale(entries, l)
    {
      updates := map[];
      var names := entries.Keys;
      while names != {}
        invariant names <= entries.Keys
        invariant updates.Keys == set n | n in entries && n !in names :: Locale(n)
        invariant forall l :: l in updates ==>
                  updates[l] == map n | n in entries && n !in names && Locale(n) == l :: entries[n]
      {
        var n :| n in names;
        names := names - {n};
        var l := Locale(n);
        if l !in updates { updates := updates[l := map[]]; }
        updates := updates[l := updates[l][n := entries[n]]];
      }
    }

    /** Appends the operation to one log for each locale of the entries. */
    method LogEntries(f: Fmri, kind: OpType, opTime: nat, entries: map<PartName, Entry>)
      modifies this`logs, this`attrs
      ensures logs == LogsWith(old(logs), f, kind, opTime, entries, Locales(entries))
      ensures attrs == old(attrs).(updates := UpdatesWith(old(attrs).updates, opTime, Locales(entries)))
    {
      hide LogsWith, UpdatesWith, HourLogs;
      ghost var logs0, attrs0 := logs, attrs;
      var updates := ByLocale(entries);
      var locales := updates.Keys;
      LogsWithNone(logs, f, kind, opTime, entries, attrs.updates);
      assert updates.Keys - locales == {};
      while locales != {}
        invariant locales <= updates.Keys
        invariant logs == LogsWith(logs0, f, kind, opTime, entries, updates.Keys - locales)
        invariant attrs == attrs0.(updates := UpdatesWith(attrs0.updates, opTime, updates.Keys - locales))
      {
        var l :| l in locales;
        var name := LogName(HourOf(opTime), l);
        var log := if name in logs then logs[name].data else EmptyLog;
        LogsWithStep(logs0, f, kind, opTime, entries, updates.Keys - locales, l);
        UpdatesWithStep(attrs0.updates, opTime, updates.Keys - locales, l);
        assert updates.Keys - (locales - {l}) == (updates.Keys - locales) + {l};
        logs := logs[name := LogState(LogAppend(log, f, LogEntry(kind, opTime, f.ver, updates[l])), opTime)];
        attrs := attrs.(updates := attrs.updates[name := opTime]);
        locales := locales - {l};
      }
      assert updates.Keys - locales == Locales(entries);
    }

    /** Records the time of every part this process has opened. */
    method StampParts()
      requires cached <= parts.Keys == attrs.parts.Keys
      modifies this`attrs
      ensures attrs == old(attrs).(parts := Stamped(old(attrs).parts, parts, cached))
    {
      ghost var times := attrs.parts;
      var names := cached;
      assert Stamped(times, parts, cached - names) == times;
      while names != {}
        invariant names <= cached
        invariant attrs == old(attrs).(parts := Stamped(times, parts, cached - names))
      {
        var n :| n in names;
        assert Stamped(times, parts, cached - (names - {n})) == Stamped(times, parts, cached - names)[n := parts[n].lm];
        names := names - {n};
        attrs := attrs.(parts := attrs.parts[n := parts[n].lm]);
      }
      assert cached - names == cached;
    }

    /** `__save`, as far as the times of the parts go. */
    method Save()
      requires Valid()
      modifies this`attrs
      ensures Valid() && Model() == Saved(old(Model()))
    {
      hide WellFormedParts, BaseCovers, Stems, Fmris;
      StampParts();
    }

    /** `__log_update`. */
    method LogUpdate(f: Fmri, kind: OpType, opTime: nat, entries: map<PartName, Entry>)
      requires ValidData(DataOf(Model(), Base)) && cached <= parts.Keys == attrs.parts.Keys
      modifies this`attrs, this`logs
      ensures Model() == Logged(old(Model()), f, kind, opTime, entries)
    {
      hide LogsWith, UpdatesWith, Stamped, Stems, Fmris;
      Finalize();
      attrs := attrs.(lm := opTime);
      if !logUpdates { return; }
      LogEntries(f, kind, opTime, entries);
      StampParts();
    }

    /** One step of `add_package`: the entry `e` goes to part `n`. */
    method AddEntry(n: PartName, f: Fmri, e: Entry, opTime: nat, now: nat, ghost s: Server,
        ghost done: map<PartName, Entry>)
        returns (r: Result<Entry, CatalogError>)
      requires s.attrs.parts.Keys == s.parts.Keys && n !in AddResults(s, f, done)
      requires n !in done && Model() == WithResults(s, AddResults(s, f, done), opTime, now)
      modifies this`parts, this`cached, this`attrs
      ensures match AddTo(DataOf(s, n), f, e, true)
              case Ok(_) => r == Ok(e.(version := f.ver))
                && Model() == WithResults(s, AddResults(s, f, done[n := e]), opTime, now)
              case Err(x) => r == Err(x) && Model() == GotPart(old(Model()), n, now)
    {
      hide AddTo, AddResults, WithResults;
      WithResultsKeys(s, AddResults(s, f, done), opTime, now, n);
      var p := GetPart(n, now);
      assert p.data == DataOf(s, n);
      match AddTo(p.data, f, e, true) {
        case Err(x) => r := Err(x);
        case Ok(d) =>
          parts := parts[n := PartState(d, opTime)];
          r := Ok(e.(version := f.ver));
          WithResultsStep(s, AddResults(s, f, done), n, d, opTime, now);
          AddResultsStep(s, f, done, n, e);
      }
    }

    /** The actions `texts` go to part `n`; without actions there is no entry. */
    method AddTexts(n: PartName, f: Fmri, texts: seq<string>, opTime: nat, now: nat, ghost s: Server,
        entries: map<PartName, Entry>)
        returns (entries': map<PartName, Entry>)
      requires ValidServer(s) && f.pub != "" && !Holds(DataOf(s, Base), f) && n !in entries
      requires Model() == WithResults(s, AddResults(s, f, entries), opTime, now)
      modifies this`parts, this`cached, this`attrs
      ensures entries' == if texts == [] then entries else entries[n := Entry(f.ver, texts, map[])]
      ensures Model() == WithResults(s, AddResults(s, f, entries'), opTime, now)
    {
      entries' := entries;
      if texts == [] { return; }
      var e := Entry(f.ver, texts, map[]);
      hide ValidServer, WithResults, AddResults, AddTo, Holds, DataOf;
      AddAllowed(s, f, entries[n := e]);
      AddAllowed(s, f, entries);
      ValidKeys(s);
      assert n in entries[n := e];
      var r := AddEntry(n, f, e, opTime, now, s, entries);
      entries' := entries[n := r.value];
    }

    /** Puts the entries of a manifest's actions into their parts. */
    method AddActions(f: Fmri, manifest: seq<Action>, base: Entry, opTime: nat, now: nat, ghost s: Server)
        returns (entries: map<PartName, Entry>)
      requires ValidServer(s) && f.pub != "" && !Holds(DataOf(s, Base), f) && base.version == f.ver
      requires Model() == WithResults(s, AddResults(s, f, map[Base := base]), opTime, now)
      modifies this`parts, this`cached, this`attrs
      ensures entries == EntriesFor(f.ver, base, Taken(Some(manifest)))
      ensures Model() == WithResults(s, AddResults(s, f, entries), opTime, now)
    {
      hide *;
      var dep, sums := GroupActions(ActionsOfKind(manifest, Depend) + ActionsOfKind(manifest, Set));
      TakenIsPlaced(manifest);
      entries := map[Base := base];
      entries := AddTexts(Dependency, f, dep, opTime, now, s, entries);
      var locales := sums.Keys;
      while locales != {}
        invariant locales <= sums.Keys
        invariant forall n :: n in entries <==>
                    n == Base || (n == Dependency && dep != [])
                      || (n.Summary? && n.loc in sums.Keys - locales && sums[n.loc] != [])
        invariant entries[Base] == base && (dep != [] ==> entries[Dependency] == Entry(f.ver, dep, map[]))
        invariant forall l :: l in sums.Keys - locales && sums[l] != [] ==>
                  entries[Summary(l)] == Entry(f.ver, sums[l], map[])
        invariant Model() == WithResults(s, AddResults(s, f, entries), opTime, now)
      {
        var l :| l in locales;
        locales := locales - {l};
        entries := AddTexts(Summary(l), f, sums[l], opTime, now, s, entries);
      }
      EntriesGathered(entries, f.ver, base, manifest, dep, sums);
    }

    /** A package that is already there, or has no publisher, is refused; the
        parts then keep their contents. */
    method AddPackage(f: Fmri, manifest: Option<seq<Action>>, base: Entry, opTime: nat, now: nat)
        returns (r: Result<(), CatalogError>)
      requires Valid()
      modifies this
      ensures Valid()
      ensures r.Ok? <==> f.pub != "" && !Holds(DataOf(old(Model()), Base), f)
      ensures r.Ok? ==> Model() == Added(old(Model()), f, EntriesFor(f.ver, base, Taken(manifest)), opTime, now)
      ensures r.Err? ==>
              r.error == (if f.pub == "" then Anarchical else Duplicate)
              && Model() == GotPart(old(Model()), Base, now)
    {
      ghost var s := Model();
      GotPartValid(s, now);
      hide Stems, Fmris, ValidData, Sorted, Logged, AddResults, WithResults;
      WithNoEntries(s, f, opTime, now);
      var e := base.(version := f.ver);
      assert AddResults(s, f, map[]) == map[] by { NoAddResults(s, f); }
      var x := AddEntry(Base, f, e, opTime, now, s, map[]);
      if x.Err? { return Err(x.error); }
      var entries := map[Base := x.value];
      if manifest.Some? {
        entries := AddActions(f, manifest.value, e, opTime, now, s);
      } else {
        assert entries == EntriesFor(f.ver, base, Taken(manifest)) by { NoManifest(f.ver, base); }
      }
      AddedValid(s, f, entries, opTime, now);
      AddedReady(s, f, entries, opTime, now);
      LogUpdate(f, ADD, opTime, entries);
      r := Ok(());
    }

    /** Removes `f` from part `n`, if it is there, and returns its entry. */
    method RemoveEntry(n: PartName, f: Fmri, opTime: nat, ghost entries: map<PartName, Entry>, ghost s: Server,
        ghost seen: set<PartName>)
        returns (entry: Option<Entry>)
      requires ValidServer(s) && n in s.parts && n !in seen && f.pub != "" && s.logging == logUpdates
      requires Visited(parts, entries, s, f, opTime, seen) && n in parts
      modifies this`parts
      ensures entry.Some? <==> Holds(s.parts[n].data, f)
      ensures Visited(parts, if entry.Some? && logUpdates then entries[n := entry.value]
              else entries, s, f, opTime, seen + {n})
    {
      hide ValidServer, RemoveFrom, Lookup, RemoveResults, EntriesOf, States, Holds;
      LookupHolds(s, f, n);
      entry := Lookup(parts[n].data, f);
      if entry.None? {
        SkipStep(s, f, seen, n);
      } else {
        RemoveStep(s, f, seen, n, opTime);
        parts := parts[n := PartState(RemoveFrom(parts[n].data, f).value, opTime)];
      }
    }

    /** The loop of `remove_package`: the parts are visited in any order.  A
        package that is not there is refused before any part has changed. */
    method RemoveEntries(f: Fmri, opTime: nat) returns (r: Result<map<PartName, Entry>, CatalogError>)
      requires Valid()
      modifies this`parts, this`cached, this`attrs
      ensures r.Ok? <==> old(parts) == map[] || (f.pub != "" && Holds(DataOf(old(Model()), Base), f))
      ensures r.Err? ==> r.error == (if f.pub == "" then Anarchical else Unknown) && parts == old(parts)
      ensures r.Ok? ==> parts == old(parts) + States(RemoveResults(old(Model()), f, old(parts).Keys), opTime)
      ensures r.Ok? ==>
              r.value == (if logUpdates then EntriesOf(old(Model()), f, old(parts).Keys) else map[])
              && cached == old(parts).Keys
      ensures attrs == old(attrs) && old(cached) <= cached <= old(parts).Keys
    {
      ghost var s := Model();
      hide ValidServer, Lookup, RemoveResults, EntriesOf, States, Holds, RemoveFrom, Visited;
      ValidKeys(s);
      NoneVisited(s, f, opTime);
      BaseOf(s);
      var entries: map<PartName, Entry> := map[];
      var names := attrs.parts.Keys;
      ghost var seen: set<PartName> := {};
      while names != {}
        invariant seen !! names && seen + names == s.parts.Keys && (seen != {} ==> f.pub != "")
        invariant Visited(parts, entries, s, f, opTime, seen)
        invariant attrs == s.attrs && cached == s.cached + seen
        invariant Base in seen ==> Holds(s.parts[Base].data, f)
      {
        var n :| n in names;
        names := names - {n};
        var x := VisitPart(n, f, opTime, entries, s, seen);
        if x.Err? { return x; }
        entries := x.value;
        seen := seen + {n};
      }
      assert seen == s.parts.Keys && s.cached + seen == s.parts.Keys;
      VisitedParts(parts, entries, s, f, opTime, seen);
      r := Ok(entries);
    }

    /** One part is opened and, if it has `f`, loses it; the entries are collected. */
    method VisitPart(n: PartName, f: Fmri, opTime: nat, entries: map<PartName, Entry>, ghost s: Server,
        ghost seen: set<PartName>)
        returns (r: Result<map<PartName, Entry>, CatalogError>)
      requires ValidServer(s) && s.logging == logUpdates && n in s.parts && n !in seen && (seen != {} ==> f.pub != "")
      requires Visited(parts, entries, s, f, opTime, seen) && attrs == s.attrs && cached == s.cached + seen
      modifies this`parts, this`cached, this`attrs
      ensures attrs == s.attrs && cached == s.cached + (seen + {n})
      ensures r.Ok? <==> f.pub != "" && (n == Base ==> Holds(s.parts[Base].data, f))
      ensures r.Err? ==> r.error == (if f.pub == "" then Anarchical else Unknown) && parts == s.parts
      ensures r.Ok? ==> Visited(parts, r.value, s, f, opTime, seen + {n})
    {
      hide ValidServer, Lookup, RemoveResults, EntriesOf, States, Holds, RemoveFrom, Visited;
      RefusesNone(s, f, opTime);
      VisitedParts(parts, entries, s, f, opTime, seen);
      var part := GetPart(n, opTime);
      if f.pub == "" { return Err(Anarchical); }
      var entry := RemoveEntry(n, f, opTime, entries, s, seen);
      if entry.None? && n == Base {
        VisitedParts(parts, entries, s, f, opTime, seen + {n});
        return Err(Unknown);
      }
      r := Ok(if entry.Some? && logUpdates then entries[n := entry.value] else entries);
    }

    method RemovePackage(f: Fmri, opTime: nat) returns (r: Result<(), CatalogError>)
      requires Valid()
      modifies this
      ensures Valid()
      ensures r.Ok? <==> old(parts) == map[] || (f.pub != "" && Holds(DataOf(old(Model()), Base), f))
      ensures r.Ok? ==> Model() == Removed(old(Model()), f, opTime)
      ensures r.Err? ==> r.error == if f.pub == "" then Anarchical else Unknown
      ensures r.Err? ==> Model() == old(Model()).(cached := cached) && old(cached) <= cached
    {
      ghost var s := Model();
      hide ValidServer, RemoveResults, EntriesOf, States, Holds, Logged, ValidData;
      var x := RemoveEntries(f, opTime);
      if x.Err? {
        ValidKeys(s);
        OpenedValid(s, cached);
        assert s.cached + cached == cached;
        return Err(x.error);
      }
      RemovedValid(s, f, opTime);
      RemovedReady(s, f, opTime);
      LogUpdate(f, REMOVE, opTime, x.value);
      r := Ok(());
    }

    /** The dependency part and the summary parts of some locales, those that exist. */
    method WantedParts(dependency: bool, summary: bool, wanted: set<string>) returns (names: seq<PartName>)
      ensures Wanted(names, attrs.parts.Keys, dependency, summary, wanted)
    {
      names := [];
      if dependency && Dependency in attrs.parts { names := [Dependency]; }
      if !summary { return; }
      var asked := if wanted == {} then {"C"} else wanted;
      var locales := asked;
      while locales != {}
        invariant locales <= asked && NoRepeats(names)
        invariant forall n :: n in names <==>
                    n in attrs.parts && ((dependency && n == Dependency)
                      || (n.Summary? && n.loc in asked - locales))
        invariant Dependency in names ==> names[0] == Dependency
      {
        var l :| l in locales;
        locales := locales - {l};
        if Summary(l) in attrs.parts { names := names + [Summary(l)]; }
      }
    }

    /** The entry `base` with those of the parts `names` merged into it. */
    method MergeEntries(base: Entry, f: Fmri, names: seq<PartName>) returns (mdata: Entry)
      requires forall n :: n in names ==> n in parts
      ensures mdata == Merged(Model(), base, names, f)
    {
      hide Lookup;
      mdata := base;
      for i := 0 to |names|
        invariant mdata == Merged(Model(), base, names[..i], f)
      {
        assert Front(names[..i + 1]) == names[..i] && Last(names[..i + 1]) == names[i];
        assert names[i] in names;
        var entry := Lookup(parts[names[i]].data, f);
        if entry.Some? {
          mdata := mdata.(actions := mdata.actions + entry.value.actions, info := mdata.info + entry.value.info);
        }
      }
      assert names[..|names|] == names;
    }

    /** `get_entry`: the base entry of `f` merged with those of the wanted parts,
        which are read in the order `order`. */
    method GetEntry(f: Fmri, dependency: bool, summary: bool, wanted: set<string>)
        returns (r: Result<Option<Entry>, CatalogError>, ghost order: seq<PartName>)
      requires Valid()
      modifies this`cached
      ensures Wanted(order, parts.Keys, dependency, summary, wanted)
      ensures Base !in parts ==> r == Ok(None)
      ensures Base in parts && f.pub == "" ==> r == Err(Anarchical)
      ensures Base in parts && f.pub != "" ==>
                r == match Lookup(parts[Base].data, f)
                     case None => Ok(None)
                     case Some(e) => Ok(Some(Merged(Model(), e, order, f)))
      ensures old(cached) <= cached <= parts.Keys
    {
      ValidKeys(Model());
      hide ValidServer, Lookup, Merged, NoRepeats, Wanted;
      var names := WantedParts(dependency, summary, wanted);
      WantedPresent(names, attrs.parts.Keys, dependency, summary, wanted);
      order := names;
      if Base !in attrs.parts { return Ok(None), order; }
      cached := cached + {Base} + (set n | n in names);
      if f.pub == "" { return Err(Anarchical), order; }
      var base := Lookup(parts[Base].data, f);
      if base.None? { return Ok(None), order; }
      var mdata := MergeEntries(base.value, f, names);
      r := Ok(Some(mdata));
    }

    method StemEntries(list: seq<(Fmri, Entry)>, pub: string, stem: string, names: seq<PartName>, last: bool,
        descending: bool)
        returns (r: seq<(Fmri, Entry)>)
      requires Base in parts && !Reserved(pub) && forall n :: n in names ==> n in parts
      requires OfPackage(list, pub, stem) == []
      ensures forall p, q :: OfPackage(r, p, q) ==
                if p == pub && q == stem then PackageEntries(Model(), names, p, q, last, descending)
                  else OfPackage(list, p, q)
    {
      hide OfPackage, Merged, At, WithEntries, PackageEntries, Picked, Reserved;
      var picked := Picked(At(parts[Base].data, pub, stem), last, descending);
      ghost var s := Model();
      PackageEntriesAre(s, names, pub, stem, last, descending);
      r := list;
      NoneWithEntries(s, names, pub, stem);
      assert picked[..0] == [];
      for i := 0 to |picked|
        invariant forall p, q :: OfPackage(r, p, q) ==
                    if p == pub && q == stem then WithEntries(s, names, pub, stem, picked[..i])
                      else OfPackage(list, p, q)
      {
        var f := Fmri(pub, stem, picked[i].version);
        var mdata := MergeEntries(picked[i], f, names);
        forall p, q { OneMore(r, (f, mdata), p, q); }
        FirstEntries(s, names, pub, stem, picked, i);
        r := r + [(f, mdata)];
      }
      assert picked[..|picked|] == picked;
    }

    method PublisherEntries(list: seq<(Fmri, Entry)>, pub: string, names: seq<PartName>, last: bool, descending: bool)
        returns (r: seq<(Fmri, Entry)>)
      requires Base in parts && pub in parts[Base].data.pubs && !Reserved(pub) && forall n :: n in names ==> n in parts
      requires forall q :: OfPackage(list, pub, q) == []
      ensures forall p, q :: OfPackage(r, p, q) ==
                if p == pub then PackageEntries(Model(), names, p, q, last, descending) else OfPackage(list, p, q)
    {
      hide OfPackage, PackageEntries;
      r := list;
      var stems := parts[Base].data.pubs[pub].Keys;
      while stems != {}
        invariant stems <= parts[Base].data.pubs[pub].Keys
        invariant forall p, q :: OfPackage(r, p, q) ==
                    if p == pub && q in parts[Base].data.pubs[pub] && q !in stems
                      then PackageEntries(Model(), names, p, q, last, descending)
                    else OfPackage(list, p, q)
      {
        var stem :| stem in stems;
        stems := stems - {stem};
        r := StemEntries(r, pub, stem, names, last, descending);
      }
      forall q | q !in parts[Base].data.pubs[pub]
        ensures PackageEntries(Model(), names, pub, q, last, descending) == []
      {
        NoEntries(Model(), names, pub, q, last, descending);
      }
    }

    /** What is to be listed of all the packages of the base part. */
    method AllEntries(names: seq<PartName>, last: bool, descending: bool) returns (list: seq<(Fmri, Entry)>)
      requires Base in parts && forall n :: n in names ==> n in parts
      ensures forall p, q :: OfPackage(list, p, q) == PackageEntries(Model(), names, p, q, last, descending)
    {
      hide OfPackage, PackageEntries;
      list := [];
      NothingOfPackage();
      NoneListed(Model(), names, last, descending);
      var base := parts[Base].data;
      var pubs := base.pubs.Keys;
      while pubs != {}
        invariant pubs <= base.pubs.Keys
        invariant forall p, q :: OfPackage(list, p, q) == if p in base.pubs && p !in pubs
                  then PackageEntries(Model(), names, p, q, last, descending) else []
      {
        var pub :| pub in pubs;
        pubs := pubs - {pub};
        if !Reserved(pub) {
          list := PublisherEntries(list, pub, names, last, descending);
        }
      }
    }

    /** `entries`: every package version of the base part, or only the last of every
        package, with its entry merged as `get_entry` merges it.  A package's versions
        come in the order of the part, or in the opposite one; packages in any order. */
    method Entries(dependency: bool, summary: bool, wanted: set<string>, last: bool, descending: bool)
        returns (list: seq<(Fmri, Entry)>, ghost order: seq<PartName>)
      requires Valid()
      modifies this`cached
      ensures Wanted(order, parts.Keys, dependency, summary, wanted)
      ensures forall p, q :: OfPackage(list, p, q) == PackageEntries(Model(), order, p, q, last, descending)
      ensures old(cached) <= cached <= parts.Keys
    {
      ValidKeys(Model());
      hide ValidServer, NoRepeats, OfPackage, PackageEntries, Wanted;
      var names := WantedParts(dependency, summary, wanted);
      WantedPresent(names, attrs.parts.Keys, dependency, summary, wanted);
      order := names;
      list := [];
      if Base !in attrs.parts {
        NoneListed(Model(), order, last, descending);
        NothingOfPackage();
        return;
      }
      cached := cached + {Base} + (set n | n in names);
      list := AllEntries(names, last, descending);
    }
  }

  /** What `get_entry` gives for a package, when the parts `order` are read. */
  ghost predicate IsEntryOf(s: Server, order: seq<PartName>, f: Fmri, e: Entry) {
    Base in s.parts && Lookup(s.parts[Base].data, f).Some?
      && e == Merged(s, Lookup(s.parts[Base].data, f).value, order, f)
  }

  /** The entries of one version list are found under their own versions. */
  lemma VersionEntries(s: Server, order: seq<PartName>, pub: string, stem: string, f: Fmri, e: Entry)
    requires ValidServer(s) && Base in s.parts && !Reserved(pub)
    ensures (f, e) in PackageEntries(s, order, pub, stem, false, false) <==>
            f.pub == pub && f.stem == stem && IsEntryOf(s, order, f, e)
  {
    DataValid(s, Base);
    var list := At(s.parts[Base].data, pub, stem);
    hide ValidServer, Merged, Less;
    forall k | 0 <= k < |list| ensures Find(list, list[k].version) == Some(list[k]) {
      assert list[k] in list;
      FindUnique(list, list[k]);
    }
    var es := PackageEntries(s, order, pub, stem, false, false);
    if f.pub == pub && f.stem == stem && IsEntryOf(s, order, f, e) {
      FindHas(list, f.ver);
      var k :| 0 <= k < |list| && list[k] == Find(list, f.ver).value;
      assert es[k] == (f, e);
    }
  }

  lemma {:induction false} ListedOfPackage(list: seq<(Fmri, Entry)>, x: (Fmri, Entry))
    ensures x in list <==> x in OfPackage(list, x.0.pub, x.0.stem)
    ensures forall p, q :: x in OfPackage(list, p, q) ==> x.0.pub == p && x.0.stem == q
  {
    if list != [] {
      ListedOfPackage(Front(list), x);
      assert list == Front(list) + [Last(list)];
    }
  }

  /** Unless only last versions are asked for, the listing has every unreserved
      package with exactly what `get_entry` gives for it. */
  lemma EntriesAgree(s: Server, list: seq<(Fmri, Entry)>, order: seq<PartName>, f: Fmri, e: Entry)
    requires ValidServer(s) && forall p, q :: OfPackage(list, p, q) == PackageEntries(s, order, p, q, false, false)
    ensures (f, e) in list <==> !Reserved(f.pub) && IsEntryOf(s, order, f, e)
  {
    ListedOfPackage(list, (f, e));
    hide ValidServer, OfPackage, Merged, WithEntries, Picked;
    if Base in s.parts && !Reserved(f.pub) { VersionEntries(s, order, f.pub, f.stem, f, e); }
  }

  // ------------------------------------------------------ what a listing consists of

  /** Where an entry of the listing is among those of its package. */
  lemma {:induction false} PlaceOf(list: seq<(Fmri, Entry)>, i: nat) returns (x: nat)
    requires i < |list|
    ensures var own := OfPackage(list, list[i].0.pub, list[i].0.stem);
            x == |OfPackage(list[..i], list[i].0.pub, list[i].0.stem)| < |own| && own[x] == list[i]
  {
    if i == |list| - 1 {
      assert list[..i] == Front(list);
      x := |OfPackage(Front(list), list[i].0.pub, list[i].0.stem)|;
    } else {
      assert Front(list)[..i] == list[..i];
      x := PlaceOf(Front(list), i);
    }
  }

  lemma {:induction false} EntryAt(list: seq<(Fmri, Entry)>, pub: string, stem: string, x: nat) returns (i: nat)
    requires x < |OfPackage(list, pub, stem)|
    ensures i < |list| && list[i] == OfPackage(list, pub, stem)[x]
  {
    if x < |OfPackage(Front(list), pub, stem)| {
      i := EntryAt(Front(list), pub, stem, x);
    } else {
      i := |list| - 1;
    }
  }

  /** Two entries of one package are listed in the order of `OfPackage`. */
  lemma PlacesOf(list: seq<(Fmri, Entry)>, i: nat, j: nat) returns (x: nat, y: nat)
    requires i < j < |list| && list[i].0.pub == list[j].0.pub && list[i].0.stem == list[j].0.stem
    ensures var own := OfPackage(list, list[i].0.pub, list[i].0.stem);
            x < y < |own| && own[x] == list[i] && own[y] == list[j]
  {
    x := PlaceOf(list, i);
    y := PlaceOf(list, j);
    var z := PlaceOf(list[..j], i);
    assert list[..j][..i] == list[..i];
  }

  /** An entry of the base part is found again, merged with the other parts. */
  lemma HeldEntry(s: Server, order: seq<PartName>, pub: string, stem: string, k: nat)
    requires ValidServer(s) && Base in s.parts && k < |At(s.parts[Base].data, pub, stem)|
    ensures var e := At(s.parts[Base].data, pub, stem)[k];
            var f := Fmri(pub, stem, e.version);
            Holds(s.parts[Base].data, f) && IsEntryOf(s, order, f, Merged(s, e, order, f))
  {
    DataValid(s, Base);
    var list := At(s.parts[Base].data, pub, stem);
    assert list[k] in list;
    hide ValidServer, Merged, Less;
    FindUnique(list, list[k]);
  }

  /** Of one package, the last version is listed, which no other exceeds. */
  lemma LastOfPackage(s: Server, order: seq<PartName>, p: string, q: string, descending: bool)
    requires ValidServer(s)
    ensures var own, base := PackageEntries(s, order, p, q, true, descending), DataOf(s, Base);
            && |own| <= 1 && (own != [] ==> !Reserved(p) && own[0].0.pub == p && own[0].0.stem == q)
            && (own != [] ==> IsEntryOf(s, order, own[0].0, own[0].1))
            && forall v :: Holds(base, Fmri(p, q, v)) && !Reserved(p) ==> own != [] && Le(v, own[0].0.ver)
  {
    if Base in s.parts && !Reserved(p) {
      DataValid(s, Base);
      var held := At(s.parts[Base].data, p, q);
      if held != [] { HeldEntry(s, order, p, q, |held| - 1); }
      hide ValidServer, Merged, Less, IsEntryOf, ValidData;
      forall v | Holds(DataOf(s, Base), Fmri(p, q, v)) ensures held != [] && Le(v, Last(held).version) {
        LessIrreflexive(v);
      }
    }
  }

  /** Of one package, every version is listed once, in order. */
  lemma AllOfPackage(s: Server, order: seq<PartName>, p: string, q: string, descending: bool)
    requires ValidServer(s)
    ensures var own, base := PackageEntries(s, order, p, q, false, descending), DataOf(s, Base);
            && (own != [] ==> !Reserved(p))
            && (forall x :: 0 <= x < |own| ==>
                  own[x].0.pub == p && own[x].0.stem == q && IsEntryOf(s, order, own[x].0, own[x].1))
            && (forall x, y :: 0 <= x < y < |own| ==>
                  && own[x].0.ver != own[y].0.ver
                  && if descending then Le(own[y].0.ver, own[x].0.ver) else Le(own[x].0.ver, own[y].0.ver))
            && forall v :: Holds(base, Fmri(p, q, v)) && !Reserved(p) ==>
               exists x :: 0 <= x < |own| && own[x].0.ver == v
  {
    hide ValidServer, Merged, Less, IsEntryOf;
    if Base in s.parts && !Reserved(p) {
      DataValid(s, Base);
      var held, own := At(s.parts[Base].data, p, q), PackageEntries(s, order, p, q, false, descending);
      assert Distinct(held) && Ascending(held);
      hide ValidData;
      forall k | 0 <= k < |held| { HeldEntry(s, order, p, q, k); }
      forall v | Holds(DataOf(s, Base), Fmri(p, q, v)) ensures exists x :: 0 <= x < |own| && own[x].0.ver == v {
        var k :| 0 <= k < |held| && held[k].version == v;
        assert own[if descending then |held| - 1 - k else k].0.ver == v;
      }
    }
  }

  /** Only last versions: the listing has every unreserved package of the base part
      once, in a version that no other exceeds, with what `get_entry` gives for it. */
  lemma LastVersions(s: Server, list: seq<(Fmri, Entry)>, order: seq<PartName>, descending: bool)
    requires ValidServer(s) && forall p, q :: OfPackage(list, p, q) == PackageEntries(s, order, p, q, true, descending)
    ensures forall i :: 0 <= i < |list| ==>
              && !Reserved(list[i].0.pub) && IsEntryOf(s, order, list[i].0, list[i].1)
              && forall v :: Holds(DataOf(s, Base), list[i].0.(ver := v)) ==> Le(v, list[i].0.ver)
    ensures forall i, j :: 0 <= i < j < |list| ==>
              list[i].0.pub != list[j].0.pub || list[i].0.stem != list[j].0.stem
    ensures forall g :: Holds(DataOf(s, Base), g) && !Reserved(g.pub) ==>
              exists i :: 0 <= i < |list| && list[i].0.pub == g.pub && list[i].0.stem == g.stem
  {
    hide *;
    forall i | 0 <= i < |list|
      ensures !Reserved(list[i].0.pub) && IsEntryOf(s, order, list[i].0, list[i].1)
      ensures forall v :: Holds(DataOf(s, Base), list[i].0.(ver := v)) ==> Le(v, list[i].0.ver)
    {
      var x := PlaceOf(list, i);
      LastOfPackage(s, order, list[i].0.pub, list[i].0.stem, descending);
      assert forall v :: list[i].0.(ver := v) == Fmri(list[i].0.pub, list[i].0.stem, v);
    }
    forall i, j | 0 <= i < j < |list| ensures list[i].0.pub != list[j].0.pub || list[i].0.stem != list[j].0.stem {
      LastOfPackage(s, order, list[i].0.pub, list[i].0.stem, descending);
      if list[i].0.pub == list[j].0.pub && list[i].0.stem == list[j].0.stem {
        var x, y := PlacesOf(list, i, j);
        assert false;
      }
    }
    forall g | Holds(DataOf(s, Base), g) && !Reserved(g.pub)
      ensures exists i :: 0 <= i < |list| && list[i].0.pub == g.pub && list[i].0.stem == g.stem
    {
      LastOfPackage(s, order, g.pub, g.stem, descending);
      assert g == Fmri(g.pub, g.stem, g.ver);
      var i := EntryAt(list, g.pub, g.stem, 0);
    }
  }

  /** All versions: the listing has every unreserved package version of the base part
      once, a package's versions in ascending or in descending order. */
  lemma AllVersions(s: Server, list: seq<(Fmri, Entry)>, order: seq<PartName>, descending: bool)
    requires ValidServer(s) && forall p, q :: OfPackage(list, p, q) == PackageEntries(s, order, p, q, false, descending)
    ensures forall i :: 0 <= i < |list| ==> !Reserved(list[i].0.pub) && IsEntryOf(s, order, list[i].0, list[i].1)
    ensures forall i, j :: 0 <= i < j < |list| && list[i].0.pub == list[j].0.pub && list[i].0.stem == list[j].0.stem ==>
              && list[i].0.ver != list[j].0.ver
              && if descending then Le(list[j].0.ver, list[i].0.ver) else Le(list[i].0.ver, list[j].0.ver)
    ensures forall g :: Holds(DataOf(s, Base), g) && !Reserved(g.pub) ==> exists i :: 0 <= i < |list| && list[i].0 == g
  {
    hide *;
    forall i | 0 <= i < |list| ensures !Reserved(list[i].0.pub) && IsEntryOf(s, order, list[i].0, list[i].1) {
      var x := PlaceOf(list, i);
      AllOfPackage(s, order, list[i].0.pub, list[i].0.stem, descending);
    }
    forall i, j | 0 <= i < j < |list| && list[i].0.pub == list[j].0.pub && list[i].0.stem == list[j].0.stem
      ensures list[i].0.ver != list[j].0.ver
      ensures if descending then Le(list[j].0.ver, list[i].0.ver) else Le(list[i].0.ver, list[j].0.ver)
    {
      var x, y := PlacesOf(list, i, j);
      AllOfPackage(s, order, list[i].0.pub, list[i].0.stem, descending);
    }
    forall g | Holds(DataOf(s, Base), g) && !Reserved(g.pub) ensures exists i :: 0 <= i < |list| && list[i].0 == g {
      var own := PackageEntries(s, order, g.pub, g.stem, false, descending);
      AllOfPackage(s, order, g.pub, g.stem, descending);
      assert g == Fmri(g.pub, g.stem, g.ver);
      var x :| 0 <= x < |own| && own[x].0.ver == g.ver;
      var i := EntryAt(list, g.pub, g.stem, x);
      assert list[i].0 == g;
    }
  }

  /** What a catalog has for a package it was just given. */
  lemma LookupAdded(s: Server, f: Fmri, base: Entry, manifest: Option<seq<Action>>, time: nat, now: nat, n: PartName)
    requires ValidServer(s) && f.pub != "" && !Holds(DataOf(s, Base), f)
    ensures var es := EntriesFor(f.ver, base, Taken(manifest));
            Lookup(DataOf(Added(s, f, es, time, now), n), f) == if n in es then Some(es[n]) else None
  {
    hide AddTo, Lookup, Holds, Taken, EntriesFor, Added, ValidServer, ValidData, Sorted;
    var es := EntriesFor(f.ver, base, Taken(manifest));
    AddAllowed(s, f, es);
    AddedData(s, f, es, time, now, n);
    EntriesAre(f.ver, base, manifest, n);
    DataValid(s, n);
    if n in es {
      LookupAfterAdd(DataOf(s, n), f, es[n], true);
    } else {
      LookupNone(s, f, n);
    }
  }

  /** The actions that a part lists for a package. */
  ghost function ListedActions(s: Server, n: PartName, f: Fmri): seq<string> {
    match Lookup(DataOf(s, n), f)
    case None => []
    case Some(e) => e.actions
  }

  /** After a package was added, its dependency entry lists exactly the depend actions
      of the manifest and the set actions named like variants, facets and so on, and a
      locale's summary entry exactly the other set actions of that locale. */
  lemma AddedByText(s: Server, f: Fmri, base: Entry, manifest: seq<Action>, time: nat, now: nat)
    requires ValidServer(s) && f.pub != "" && !Holds(DataOf(s, Base), f)
    ensures var s' := Added(s, f, EntriesFor(f.ver, base, Taken(Some(manifest))), time, now);
            forall n :: n != Base ==> ListedActions(s', n, f) == Those(manifest, Depend, n) + Those(manifest, Set, n)
  {
    hide Added, Lookup, EntriesFor, Taken, Texts, ValidServer, Holds, AddTo, DataOf, Those, BelongsTo;
    var s' := Added(s, f, EntriesFor(f.ver, base, Taken(Some(manifest))), time, now);
    forall n | n != Base
      ensures ListedActions(s', n, f) == Those(manifest, Depend, n) + Those(manifest, Set, n)
    {
      LookupAdded(s, f, base, Some(manifest), time, now, n);
      EntriesAre(f.ver, base, Some(manifest), n);
      TakenMeans(manifest, n);
    }
  }

  lemma {:induction false} MergedGathers(s: Server, e: Entry, order: seq<PartName>, f: Fmri, ps: seq<Placed>)
    requires forall n :: n in order ==>
               match Lookup(DataOf(s, n), f)
               case None => Texts(ps, n) == []
               case Some(x) => x.actions == Texts(ps, n)
    ensures Merged(s, e, order, f).actions == e.actions + Gather(order, ps)
  {
    hide Lookup, Texts;
    if order != [] {
      assert order == Front(order) + [Last(order)];
      MergedGathers(s, e, Front(order), f, ps);
    }
  }

  lemma TakenKept(manifest: seq<Action>)
    ensures Kept(Taken(Some(manifest))) == Kept(Place(manifest))
  {
    hide Kept, ByKind;
    KeptByKind(Place(manifest));
  }

  /** After a package was added, reading all its parts gives back exactly the
      actions of its manifest that a catalog keeps, whatever the order of reading. */
  lemma AddedActionsConserved(s: Server, f: Fmri, base: Entry, manifest: seq<Action>, time: nat, now: nat,
      order: seq<PartName>)
    requires ValidServer(s) && f.pub != "" && !Holds(DataOf(s, Base), f) && base.actions == []
    requires var s' := Added(s, f, EntriesFor(f.ver, base, Taken(Some(manifest))), time, now);
             NoRepeats(order) && Base !in order && forall n :: n in s'.parts && n != Base ==> n in order
    ensures var s' := Added(s, f, EntriesFor(f.ver, base, Taken(Some(manifest))), time, now);
            && Lookup(DataOf(s', Base), f) == Some(base.(version := f.ver))
            && multiset(Merged(s', base.(version := f.ver), order, f).actions) == Kept(Place(manifest))
  {
    var ps := Taken(Some(manifest));
    var es := EntriesFor(f.ver, base, ps);
    var s' := Added(s, f, es, time, now);
    hide Added, Lookup, EntriesFor, Taken, Texts, Place, ValidServer, Holds, AddResults, AddTo, DataOf, Kept, Merged,
      Targets;
    AddAllowed(s, f, es);
    AddedKeys(s, f, es, time, now);
    EntriesAre(f.ver, base, Some(manifest), Base);
    LookupAdded(s, f, base, Some(manifest), time, now, Base);
    forall n | n in order
      ensures match Lookup(DataOf(s', n), f)
              case None => Texts(ps, n) == []
              case Some(x) => x.actions == Texts(ps, n)
    {
      LookupAdded(s, f, base, Some(manifest), time, now, n);
      EntriesAre(f.ver, base, Some(manifest), n);
    }
    MergedGathers(s', base.(version := f.ver), order, f, ps);
    forall n | n in Targets(ps) ensures n in order {
      TargetsNonEmpty(ps, n);
      EntriesAre(f.ver, base, Some(manifest), n);
      TakenTargets(Some(manifest));
    }
    ActionsConserved(order, ps);
    TakenKept(manifest);
  }
}
