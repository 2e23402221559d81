/** One part of a package catalog: publisher -> stem -> version list
    (src/modules/catalog.py, CatalogPart). */
module CatalogParts {
  import opened Common
  import opened Versions
  import opened VersionLists

  /** A package FMRI.  The publisher is empty when it was left out. */
  datatype Fmri = Fmri(pub: string, stem: string, ver: Version)

  /** "catalog.<type>.<locale>". */
  datatype PartName = Base | Dependency | Summary(loc: string) | Other(ctype: string, loc: string)

  /** The last component of a part's name. */
  function Locale(n: PartName): string {
    match n
    case Summary(l) => l
    case Other(_, l) => l
    case _ => "C"
  }

  datatype CatalogError =
    | Anarchical          // AnarchicalCatalogFMRI
    | Duplicate           // DuplicateCatalogEntry
    | Unknown             // UnknownCatalogEntry

  /** The contents of a part, by publisher and stem. */
  datatype PartData = PartData(pubs: map<string, map<string, seq<Entry>>>)

  const Empty: PartData := PartData(map[])

  /** Publishers starting with "_" belong to the reserved catalog namespace. */
  predicate Reserved(pub: string) {
    pub != "" && pub[0] == '_'
  }

  lemma ReservedIs(pub: string)
    ensures Reserved(pub) <==> exists x :: pub == "_" + x
  {
    if Reserved(pub) { assert pub == "_" + pub[1..]; }
  }

  function At(d: PartData, pub: string, stem: string): seq<Entry> {
    if pub in d.pubs && stem in d.pubs[pub] then d.pubs[pub][stem] else []
  }

  /** `d` with `list` as its entries for a package; emptied stems and publishers disappear. */
  function SetAt(d: PartData, pub: string, stem: string, list: seq<Entry>): PartData {
    var stems := if pub in d.pubs then d.pubs[pub] else map[];
    var stems' := if list == [] then stems - {stem} else stems[stem := list];
    PartData(if stems' == map[] then d.pubs - {pub} else d.pubs[pub := stems'])
  }

  ghost predicate NoEmpties(d: PartData) {
    forall p :: p in d.pubs ==> d.pubs[p] != map[] && forall s :: s in d.pubs[p] ==> d.pubs[p][s] != []
  }

  /** What holds of the contents of a part between calls. */
  ghost predicate ValidData(d: PartData) {
    NoEmpties(d) && forall p, s :: Distinct(At(d, p, s))
  }

  ghost predicate Sorted(d: PartData) {
    forall p, s :: Ascending(At(d, p, s))
  }

  lemma AtSetAt(d: PartData, pub: string, stem: string, list: seq<Entry>)
    ensures At(SetAt(d, pub, stem, list), pub, stem) == list
    ensures forall p, s :: p != pub || s != stem ==> At(SetAt(d, pub, stem, list), p, s) == At(d, p, s)
  {
    var stems := if pub in d.pubs then d.pubs[pub] else map[];
    if list != [] { assert stem in stems[stem := list]; }
    var stems' := if list == [] then stems - {stem} else stems[stem := list];
    forall p, s | p != pub || s != stem ensures At(SetAt(d, pub, stem, list), p, s) == At(d, p, s) {
      if p == pub && s in stems { assert s in stems'; }
    }
  }

  lemma SetAtNoEmpties(d: PartData, pub: string, stem: string, list: seq<Entry>)
    requires NoEmpties(d)
    ensures NoEmpties(SetAt(d, pub, stem, list))
  {
  }

  lemma KeysIncluded(d: PartData, d': PartData)
    requires NoEmpties(d)
    requires forall p, s :: At(d, p, s) == At(d', p, s)
    ensures forall p :: p in d.pubs ==> p in d'.pubs && forall s :: s in d.pubs[p] ==> s in d'.pubs[p]
  {
    forall p | p in d.pubs ensures p in d'.pubs && forall s :: s in d.pubs[p] ==> s in d'.pubs[p] {
      var s0 :| s0 in d.pubs[p];
      assert At(d, p, s0) == At(d', p, s0);
      forall s | s in d.pubs[p] ensures s in d'.pubs[p] {
        assert At(d, p, s) == At(d', p, s);
      }
    }
  }

  /** Two parts without empty stems or publishers are equal when every package has the same entries in both. */
  lemma Extensional(d: PartData, d': PartData)
    requires NoEmpties(d) && NoEmpties(d')
    requires forall p, s :: At(d, p, s) == At(d', p, s)
    ensures d == d'
  {
    KeysIncluded(d, d');
    KeysIncluded(d', d);
    forall p | p in d.pubs ensures d.pubs[p] == d'.pubs[p] {
      forall s | s in d.pubs[p] ensures d.pubs[p][s] == d'.pubs[p][s] {
        assert At(d, p, s) == At(d', p, s);
      }
      assert d.pubs[p].Keys == d'.pubs[p].Keys;
    }
    assert d.pubs == d'.pubs;
  }

  // --------------------------------------------------------------- operations

  /** The contents after `CatalogPart.add`, or the error it raises. */
  function AddTo(d: PartData, f: Fmri, e: Entry, ordered: bool): Result<PartData, CatalogError> {
    var list := At(d, f.pub, f.stem);
    if f.pub == "" then Err(Anarchical)
    else if Has(list, f.ver) then Err(Duplicate)
    else
      var list' := list + [e.(version := f.ver)];
      Ok(SetAt(d, f.pub, f.stem, if ordered then StableSort(list') else list'))
  }

  /** The contents after `CatalogPart.remove`, or the error it raises. */
  function RemoveFrom(d: PartData, f: Fmri): Result<PartData, CatalogError> {
    var list := At(d, f.pub, f.stem);
    if f.pub == "" then Err(Anarchical)
    else if !Has(list, f.ver) then Err(Unknown)
    else Ok(SetAt(d, f.pub, f.stem, Without(list, f.ver)))
  }

  function Find(list: seq<Entry>, v: Version): Option<Entry> {
    if list == [] then None
    else if list[0].version == v then Some(list[0])
    else Find(list[1..], v)
  }

  lemma {:induction false} FindHas(list: seq<Entry>, v: Version)
    ensures Find(list, v).Some? <==> Has(list, v)
    ensures Find(list, v).Some? ==> Find(list, v).value in list && Find(list, v).value.version == v
  {
    if list != [] {
      FindHas(list[1..], v);
      if Has(list, v) && list[0].version != v {
        var i :| 0 <= i < |list| && list[i].version == v;
        assert list[1..][i - 1].version == v;
      }
      if Has(list[1..], v) {
        var i :| 0 <= i < |list[1..]| && list[1..][i].version == v;
        assert list[i + 1].version == v;
      }
    }
  }

  /** Versions being distinct, a lookup finds the one entry that has the version. */
  lemma FindUnique(list: seq<Entry>, e: Entry)
    requires Distinct(list) && e in list
    ensures Find(list, e.version) == Some(e)
  {
    hide Less;
    var i :| 0 <= i < |list| && list[i] == e;
    assert Has(list, e.version);
    FindHas(list, e.version);
    var x := Find(list, e.version).value;
    var j :| 0 <= j < |list| && list[j] == x;
  }

  /** The entry a part holds for a package version. */
  function Lookup(d: PartData, f: Fmri): Option<Entry> {
    Find(At(d, f.pub, f.stem), f.ver)
  }

  function SortStems(stems: map<string, seq<Entry>>): map<string, seq<Entry>> {
    map s | s in stems :: StableSort(stems[s])
  }

  /** `CatalogPart.sort` without a restriction: reserved publishers are not visited. */
  function SortAll(d: PartData): PartData {
    PartData(map p | p in d.pubs :: if Reserved(p) then d.pubs[p] else SortStems(d.pubs[p]))
  }

  lemma EmptyValid()
    ensures ValidData(Empty) && Sorted(Empty)
  {
  }

  /** Whether a part has an entry for a package version. */
  predicate Holds(d: PartData, f: Fmri) {
    Has(At(d, f.pub, f.stem), f.ver)
  }

  lemma EmptyHoldsNone(f: Fmri)
    ensures !Holds(Empty, f)
  {
  }

  lemma AddKeeps(d: PartData, f: Fmri, e: Entry, ordered: bool)
    requires ValidData(d) && AddTo(d, f, e, ordered).Ok?
    ensures ValidData(AddTo(d, f, e, ordered).value)
    ensures ordered && Sorted(d) ==> Sorted(AddTo(d, f, e, ordered).value)
  {
    hide StableSort, SetAt, NoEmpties, Less;
    var list := At(d, f.pub, f.stem);
    var list' := list + [e.(version := f.ver)];
    var r := if ordered then StableSort(list') else list';
    assert Distinct(list');
    SortDistinct(list');
    SortAscending(list');
    SetAtNoEmpties(d, f.pub, f.stem, r);
    AtSetAt(d, f.pub, f.stem, r);
  }

  lemma RemoveKeeps(d: PartData, f: Fmri)
    requires ValidData(d) && RemoveFrom(d, f).Ok?
    ensures ValidData(RemoveFrom(d, f).value)
    ensures Sorted(d) ==> Sorted(RemoveFrom(d, f).value)
  {
    var list := At(d, f.pub, f.stem);
    WithoutDistinct(list, f.ver);
    if Sorted(d) { WithoutAscending(list, f.ver); }
    SetAtNoEmpties(d, f.pub, f.stem, Without(list, f.ver));
    AtSetAt(d, f.pub, f.stem, Without(list, f.ver));
  }

  lemma HasSortedAppend(list: seq<Entry>, e: Entry, ordered: bool, v: Version)
    ensures Has(if ordered then StableSort(list + [e]) else list + [e], v) <==> Has(list, v) || v == e.version
  {
    SortHas(list + [e], v);
    assert (list + [e])[|list|] == e;
    assert forall i :: 0 <= i < |list| ==> (list + [e])[i] == list[i];
  }

  /** Adding a package makes a part hold that package and no other new one. */
  lemma HoldsAfterAdd(d: PartData, f: Fmri, e: Entry, ordered: bool, g: Fmri)
    requires AddTo(d, f, e, ordered).Ok?
    ensures Holds(AddTo(d, f, e, ordered).value, g) <==> Holds(d, g) || g == f
  {
    var list := At(d, f.pub, f.stem);
    var e' := e.(version := f.ver);
    HasSortedAppend(list, e', ordered, g.ver);
    AtSetAt(d, f.pub, f.stem, if ordered then StableSort(list + [e']) else list + [e']);
  }

  /** What was added is what a lookup then finds. */
  lemma LookupAfterAdd(d: PartData, f: Fmri, e: Entry, ordered: bool)
    requires ValidData(d) && AddTo(d, f, e, ordered).Ok?
    ensures Lookup(AddTo(d, f, e, ordered).value, f) == Some(e.(version := f.ver))
  {
    AddKeeps(d, f, e, ordered);
    var e' := e.(version := f.ver);
    var list' := At(d, f.pub, f.stem) + [e'];
    assert e' == list'[|list'| - 1];
    SortMembers(list');
    AtSetAt(d, f.pub, f.stem, if ordered then StableSort(list') else list');
    hide AddTo;
    FindUnique(if ordered then StableSort(list') else list', e');
  }

  /** Removing a package makes a part lose that package and no other. */
  lemma HoldsAfterRemove(d: PartData, f: Fmri, g: Fmri)
    requires ValidData(d) && RemoveFrom(d, f).Ok?
    ensures Holds(RemoveFrom(d, f).value, g) <==> Holds(d, g) && g != f
  {
    var list := At(d, f.pub, f.stem);
    AtSetAt(d, f.pub, f.stem, Without(list, f.ver));
    WithoutMembers(list, f.ver);
    if g.pub == f.pub && g.stem == f.stem {
      if Has(list, g.ver) && g != f {
        var i :| 0 <= i < |list| && list[i].version == g.ver;
        assert list[i] in Without(list, f.ver);
      }
      if Has(Without(list, f.ver), g.ver) {
        var i :| 0 <= i < |Without(list, f.ver)| && Without(list, f.ver)[i].version == g.ver;
        assert Without(list, f.ver)[i] in list;
      }
    }
  }

  /** In a sorted part the entry at index -1 is the newest version of its package. */
  lemma LastIsNewest(d: PartData, pub: string, stem: string)
    requires ValidData(d) && Sorted(d) && pub in d.pubs && stem in d.pubs[pub]
    ensures d.pubs[pub][stem] != []
    ensures forall e :: e in d.pubs[pub][stem] ==> Le(e.version, Last(d.pubs[pub][stem]).version)
  {
    var list := At(d, pub, stem);
    forall e | e in list ensures Le(e.version, Last(list).version) {
      var i :| 0 <= i < |list| && list[i] == e;
      if i == |list| - 1 { LessIrreflexive(e.version); }
    }
  }

  lemma SortKeeps(d: PartData)
    requires ValidData(d)
    ensures ValidData(SortAll(d))
    ensures forall p, s :: At(SortAll(d), p, s) == if Reserved(p) then At(d, p, s) else StableSort(At(d, p, s))
    ensures (forall p :: p in d.pubs ==> !Reserved(p)) ==> Sorted(SortAll(d))
  {
    var d' := SortAll(d);
    forall p, s
      ensures At(d', p, s) == if Reserved(p) then At(d, p, s) else StableSort(At(d, p, s))
      ensures Distinct(At(d', p, s))
      ensures (forall q :: q in d.pubs ==> !Reserved(q)) ==> Ascending(At(d', p, s))
    {
      SortDistinct(At(d, p, s));
      SortAscending(At(d, p, s));
    }
    forall p | p in d'.pubs ensures d'.pubs[p] != map[] && forall s :: s in d'.pubs[p] ==> d'.pubs[p][s] != [] {
      var s0 :| s0 in d.pubs[p];
      assert s0 in d'.pubs[p];
      forall s | s in d'.pubs[p] ensures d'.pubs[p][s] != [] { SortMembers(d.pubs[p][s]); }
    }
  }

  lemma SortAllOfSorted(d: PartData)
    requires ValidData(d) && Sorted(d)
    ensures SortAll(d) == d
  {
    hide StableSort;
    SortKeeps(d);
    forall p, s ensures StableSort(At(d, p, s)) == At(d, p, s) { SortOfAscending(At(d, p, s)); }
    Extensional(SortAll(d), d);
  }

  // ------------------------------------------------------------------- counts

  ghost function Stems(d: PartData): set<(string, string)> {
    set p, s | p in d.pubs && !Reserved(p) && s in d.pubs[p] :: (p, s)
  }

  ghost function VersionsOf(pub: string, stem: string, list: seq<Entry>): set<Fmri> {
    set e | e in list :: Fmri(pub, stem, e.version)
  }

  /** The FMRIs of a part, reserved publishers aside. */
  ghost function Fmris(d: PartData): set<Fmri> {
    set p, s, e | p in d.pubs && !Reserved(p) && s in d.pubs[p] && e in d.pubs[p][s] :: Fmri(p, s, e.version)
  }

  lemma {:induction false} VersionsCount(pub: string, stem: string, list: seq<Entry>)
    requires Distinct(list)
    ensures |VersionsOf(pub, stem, list)| == |list|
  {
    if list != [] {
      var f, l := Front(list), Last(list);
      VersionsCount(pub, stem, f);
      assert list == f + [l];
      var x := Fmri(pub, stem, l.version);
      assert VersionsOf(pub, stem, list) == VersionsOf(pub, stem, f) + {x};
      assert x !in VersionsOf(pub, stem, f) by {
        assert forall i :: 0 <= i < |f| ==> f[i].version != l.version;
      }
    }
  }

  ghost function StemsOf(d: PartData, pubs: set<string>): set<(string, string)> {
    set p, s | p in pubs && p in d.pubs && !Reserved(p) && s in d.pubs[p] :: (p, s)
  }

  ghost function FmrisOf(d: PartData, pubs: set<string>): set<Fmri> {
    set p, s, e | p in pubs && p in d.pubs && !Reserved(p) && s in d.pubs[p] && e in d.pubs[p][s] ::
      Fmri(p, s, e.version)
  }

  ghost function PubFmris(pub: string, stems: map<string, seq<Entry>>, done: set<string>): set<Fmri> {
    set s, e | s in done && s in stems && e in stems[s] :: Fmri(pub, s, e.version)
  }

  lemma CountStem(pub: string, stems: map<string, seq<Entry>>, done: set<string>, s: string)
    requires s in stems && s !in done && Distinct(stems[s])
    ensures |PubFmris(pub, stems, done + {s})| == |PubFmris(pub, stems, done)| + |stems[s]|
  {
    VersionsCount(pub, s, stems[s]);
    var a, b := PubFmris(pub, stems, done), VersionsOf(pub, s, stems[s]);
    assert a !! b;
    assert PubFmris(pub, stems, done + {s}) == a + b;
  }

  lemma ReservedUncounted(d: PartData, done: set<string>, p: string)
    requires Reserved(p)
    ensures StemsOf(d, done + {p}) == StemsOf(d, done)
    ensures FmrisOf(d, done + {p}) == FmrisOf(d, done)
  {
  }

  lemma {:induction false} PairsCount(p: string, stems: set<string>)
    ensures |set s | s in stems :: (p, s)| == |stems|
  {
    var y := set s | s in stems :: (p, s);
    if stems != {} {
      var t :| t in stems;
      PairsCount(p, stems - {t});
      assert y == (set s | s in stems - {t} :: (p, s)) + {(p, t)};
    } else {
      assert y == {};
    }
  }

  lemma CountPubStems(d: PartData, done: set<string>, p: string)
    requires p in d.pubs && p !in done && !Reserved(p)
    ensures |StemsOf(d, done + {p})| == |StemsOf(d, done)| + |d.pubs[p].Keys|
  {
    var x, y := StemsOf(d, done), set s | s in d.pubs[p].Keys :: (p, s);
    assert x !! y;
    assert StemsOf(d, done + {p}) == x + y;
    PairsCount(p, d.pubs[p].Keys);
  }

  lemma CountPubFmris(d: PartData, done: set<string>, p: string)
    requires p in d.pubs && p !in done && !Reserved(p)
    ensures |FmrisOf(d, done + {p})| == |FmrisOf(d, done)| + |PubFmris(p, d.pubs[p], d.pubs[p].Keys)|
  {
    var a, b := FmrisOf(d, done), PubFmris(p, d.pubs[p], d.pubs[p].Keys);
    assert a !! b;
    assert FmrisOf(d, done + {p}) == a + b;
  }

  /** Storing a list that is not empty. */
  lemma PutList(d: PartData, pub: string, stem: string, list: seq<Entry>)
    requires list != []
    ensures PartData(d.pubs[pub := (if pub in d.pubs then d.pubs[pub] else map[])[stem := list]]) ==
            SetAt(d, pub, stem, list)
  {
    var stems := if pub in d.pubs then d.pubs[pub] else map[];
    assert stem in stems[stem := list];
  }

  /** Which packages a sort is to put in order. */
  ghost predicate ToSort(pfmris: Option<set<Fmri>>, pubs: set<string>, pub: string, stem: string) {
    if pfmris.Some? then exists f :: f in pfmris.value && f.pub == pub && f.stem == stem
    else !Reserved(pub) && (pubs == {} || pub in pubs)
  }

  /** One version list sorted in place. */
  lemma SortedAt(d: PartData, pub: string, stem: string)
    requires ValidData(d)
    ensures pub !in d.pubs || stem !in d.pubs[pub] ==> At(d, pub, stem) == StableSort(At(d, pub, stem))
    ensures pub in d.pubs && stem in d.pubs[pub] ==>
              var d' := PartData(d.pubs[pub := d.pubs[pub][stem := StableSort(d.pubs[pub][stem])]]);
              && ValidData(d') && At(d', pub, stem) == StableSort(At(d, pub, stem))
              && forall p, s :: p != pub || s != stem ==> At(d', p, s) == At(d, p, s)
  {
    var list := StableSort(At(d, pub, stem));
    SortDistinct(At(d, pub, stem));
    SortMembers(At(d, pub, stem));
    if pub in d.pubs && stem in d.pubs[pub] {
      PutList(d, pub, stem, list);
      hide SetAt, StableSort, Less;
      AtSetAt(d, pub, stem, list);
      SetAtNoEmpties(d, pub, stem, list);
      forall p, s ensures Distinct(At(SetAt(d, pub, stem, list), p, s)) { assert Distinct(At(d, p, s)); }
    } else {
      assert At(d, pub, stem) == [];
    }
  }

  lemma PublishersSorted(d: PartData, d': PartData, pubs: set<string>)
    requires ValidData(d) && d'.pubs.Keys == d.pubs.Keys
    requires forall p :: p in d.pubs ==>
             d'.pubs[p] == if ToSort(None, pubs, p, "") then SortStems(d.pubs[p]) else d.pubs[p]
    ensures ValidData(d')
    ensures forall p, s :: At(d', p, s) == if ToSort(None, pubs, p, s) then StableSort(At(d, p, s)) else At(d, p, s)
  {
    hide StableSort;
    forall p, s
      ensures At(d', p, s) == if ToSort(None, pubs, p, s) then StableSort(At(d, p, s)) else At(d, p, s)
      ensures Distinct(At(d', p, s))
    {
      SortDistinct(At(d, p, s));
      SortMembers([]);
    }
    forall p | p in d'.pubs ensures d'.pubs[p] != map[] && forall s :: s in d'.pubs[p] ==> d'.pubs[p][s] != [] {
      var s0 :| s0 in d.pubs[p];
      assert s0 in d'.pubs[p];
      forall s | s in d'.pubs[p] ensures d'.pubs[p][s] != [] { SortMembers(d.pubs[p][s]); }
    }
  }

  lemma SortedParts(d: PartData, d': PartData)
    requires ValidData(d) && ValidData(d')
    requires forall p, s :: At(d', p, s) == if ToSort(None, {}, p, s) then StableSort(At(d, p, s)) else At(d, p, s)
    ensures NoEmpties(d') && NoEmpties(SortAll(d)) && forall p, s :: At(d', p, s) == At(SortAll(d), p, s)
  {
    SortKeeps(d);
    hide StableSort;
  }

  method CountVersions(d: PartData, p: string) returns (n: nat)
    requires ValidData(d) && p in d.pubs
    ensures n == |PubFmris(p, d.pubs[p], d.pubs[p].Keys)|
  {
    n := 0;
    var stems := d.pubs[p].Keys;
    while stems != {}
      invariant stems <= d.pubs[p].Keys
      invariant n == |PubFmris(p, d.pubs[p], d.pubs[p].Keys - stems)|
    {
      var s :| s in stems;
      assert Distinct(At(d, p, s));
      CountStem(p, d.pubs[p], d.pubs[p].Keys - stems, s);
      assert d.pubs[p].Keys - (stems - {s}) == (d.pubs[p].Keys - stems) + {s};
      stems := stems - {s};
      n := n + |d.pubs[p][s]|;
    }
    assert d.pubs[p].Keys - stems == d.pubs[p].Keys;
  }

  /** The counts are the numbers of distinct packages and of distinct FMRIs. */
  method CountPackages(d: PartData) returns (packages: nat, versions: nat)
    requires ValidData(d)
    ensures packages == |Stems(d)| && versions == |Fmris(d)|
  {
    packages, versions := 0, 0;
    var pubs := d.pubs.Keys;
    while pubs != {}
      invariant pubs <= d.pubs.Keys
      invariant packages == |StemsOf(d, d.pubs.Keys - pubs)| && versions == |FmrisOf(d, d.pubs.Keys - pubs)|
    {
      var p :| p in pubs;
      assert d.pubs.Keys - (pubs - {p}) == (d.pubs.Keys - pubs) + {p};
      if Reserved(p) {
        ReservedUncounted(d, d.pubs.Keys - pubs, p);
      } else {
        CountPubStems(d, d.pubs.Keys - pubs, p);
        CountPubFmris(d, d.pubs.Keys - pubs, p);
        var n := CountVersions(d, p);
        packages := packages + |d.pubs[p].Keys|;
        versions := versions + n;
      }
      pubs := pubs - {p};
    }
    assert d.pubs.Keys - pubs == d.pubs.Keys;
    assert StemsOf(d, d.pubs.Keys) == Stems(d) && FmrisOf(d, d.pubs.Keys) == Fmris(d);
  }

  class CatalogPart {
    const name: PartName
    var data: PartData
    var ordered: bool
    var lastModified: nat

    ghost predicate Valid()
      reads this
    {
      ValidData(data)
    }

    constructor (name: PartName, now: nat, ordered: bool)
      ensures Valid() && this.name == name && data == Empty && this.ordered == ordered && lastModified == now
    {
      this.name := name;
      data := Empty;
      this.ordered := ordered;
      lastModified := now;
    }

    method Add(f: Fmri, metadata: Entry, opTime: nat) returns (r: Result<Entry, CatalogError>)
      requires Valid()
      modifies this
      ensures Valid() && ordered == old(ordered)
      ensures match AddTo(old(data), f, metadata, ordered)
              case Ok(d) => data == d && lastModified == opTime && r == Ok(metadata.(version := f.ver))
              case Err(e) => data == old(data) && lastModified == old(lastModified) && r == Err(e)
    {
      if f.pub == "" { return Err(Anarchical); }
      var pkgList := if f.pub in data.pubs then data.pubs[f.pub] else map[];
      var verList := if f.stem in pkgList then pkgList[f.stem] else [];
      hide Less, StableSort, ValidData;
      for i := 0 to |verList|
        invariant forall j :: 0 <= j < i ==> verList[j].version != f.ver
      {
        if verList[i].version == f.ver { return Err(Duplicate); }
      }
      var entry := metadata.(version := f.ver);
      AddKeeps(data, f, metadata, ordered);
      SortMembers(verList + [entry]);
      verList := verList + [entry];
      if ordered { verList := StableSort(verList); }
      hide *;
      PutList(data, f.pub, f.stem, verList);
      data := PartData(data.pubs[f.pub := pkgList[f.stem := verList]]);
      lastModified := opTime;
      r := Ok(entry);
    }

    method Remove(f: Fmri, opTime: nat) returns (r: Result<(), CatalogError>)
      requires Valid()
      modifies this
      ensures Valid() && ordered == old(ordered)
      ensures match RemoveFrom(old(data), f)
              case Ok(d) => data == d && lastModified == opTime && r == Ok(())
              case Err(e) => data == old(data) && lastModified == old(lastModified) && r == Err(e)
    {
      if f.pub == "" { return Err(Anarchical); }
      if f.pub !in data.pubs || data.pubs[f.pub] == map[] { return Err(Unknown); }
      var pkgList := data.pubs[f.pub];
      var verList := if f.stem in pkgList then pkgList[f.stem] else [];
      for i := 0 to |verList|
        invariant forall j :: 0 <= j < i ==> verList[j].version != f.ver
      {
        if verList[i].version == f.ver {
          assert Distinct(At(data, f.pub, f.stem));
          WithoutIsDeletion(verList, i);
          RemoveKeeps(data, f);
          verList := verList[..i] + verList[i + 1..];
          pkgList := if verList == [] then pkgList - {f.stem} else pkgList[f.stem := verList];
          data := PartData(if pkgList == map[] then data.pubs - {f.pub} else data.pubs[f.pub := pkgList]);
          lastModified := opTime;
          return Ok(());
        }
      }
      r := Err(Unknown);
    }

    method GetEntry(f: Fmri) returns (r: Result<Option<Entry>, CatalogError>)
      ensures r == if f.pub == "" then Err(Anarchical) else Ok(Lookup(data, f))
    {
      if f.pub == "" { return Err(Anarchical); }
      if f.pub !in data.pubs { return Ok(None); }
      var verList := if f.stem in data.pubs[f.pub] then data.pubs[f.pub][f.stem] else [];
      for i := 0 to |verList|
        invariant Find(verList, f.ver) == Find(verList[i..], f.ver)
      {
        if verList[i].version == f.ver { return Ok(Some(verList[i])); }
        assert verList[i..][1..] == verList[i + 1..];
      }
      r := Ok(None);
    }

    /** `sort`: the packages of the FMRIs given, or else those of the publishers
        given, where none stands for all that are not reserved. */
    method Sort(pfmris: Option<set<Fmri>>, pubs: set<string>)
      requires Valid()
      modifies this`data
      ensures Valid()
      ensures pfmris.Some? ==>
                forall p, s :: At(data, p, s) == if exists f :: f in pfmris.value && f.pub == p && f.stem == s
                  then StableSort(At(old(data), p, s)) else At(old(data), p, s)
      ensures pfmris.None? ==>
                forall p, s :: At(data, p, s) == if (p == "" || p[0] != '_') && (pubs == {} || p in pubs)
                  then StableSort(At(old(data), p, s)) else At(old(data), p, s)
      ensures pfmris.None? && pubs == {} ==> data == SortAll(old(data))
    {
      hide ValidData, StableSort, Less;
      ghost var before := data;
      SortKeeps(before);
      if pfmris.Some? {
        SortPackages(pfmris.value);
        return;
      }
      SortPublishers(pubs);
      if pubs == {} {
        SortedParts(before, data);
        Extensional(data, SortAll(before));
      }
    }

    method SortPackages(pfmris: set<Fmri>)
      requires Valid()
      modifies this`data
      ensures Valid()
      ensures forall p, s :: At(data, p, s) ==
                if ToSort(Some(pfmris), {}, p, s) then StableSort(At(old(data), p, s)) else At(old(data), p, s)
    {
      hide StableSort, SetAt, ValidData, At;
      ghost var before := data;
      var left := pfmris;
      var processed: set<(string, string)> := {};
      while left != {}
        invariant Valid() && left <= pfmris
        invariant forall p, s :: At(data, p, s) == if (p, s) in processed then StableSort(At(before, p, s))
                  else At(before, p, s)
        invariant processed == set f | f in pfmris && f !in left :: (f.pub, f.stem)
      {
        var f :| f in left;
        left := left - {f};
        if (f.pub, f.stem) !in processed {
          ghost var now := data;
          SortedAt(data, f.pub, f.stem);
          if f.pub in data.pubs && f.stem in data.pubs[f.pub] {
            data := PartData(data.pubs[f.pub := data.pubs[f.pub][f.stem := StableSort(data.pubs[f.pub][f.stem])]]);
          }
          processed := processed + {(f.pub, f.stem)};
        }
      }
    }

    method SortPublishers(pubs: set<string>)
      requires Valid()
      modifies this`data
      ensures Valid()
      ensures forall p, s :: At(data, p, s) ==
                if ToSort(None, pubs, p, s) then StableSort(At(old(data), p, s)) else At(old(data), p, s)
    {
      hide ValidData, SortStems;
      var left := data.pubs.Keys;
      ghost var before := data;
      while left != {}
        invariant left <= before.pubs.Keys && data.pubs.Keys == before.pubs.Keys
        invariant forall p :: p in before.pubs ==>
                    data.pubs[p] == if p in left || !ToSort(None, pubs, p, "") then before.pubs[p]
                      else SortStems(before.pubs[p])
      {
        var p :| p in left;
        left := left - {p};
        if !Reserved(p) && (pubs == {} || p in pubs) { SortPublisher(p); }
      }
      PublishersSorted(before, data, pubs);
    }

    method SortPublisher(p: string)
      requires p in data.pubs
      modifies this`data
      ensures data.pubs == old(data.pubs)[p := SortStems(old(data.pubs[p]))]
    {
      hide StableSort;
      var stems := data.pubs[p].Keys;
      ghost var before := data;
      ghost var now := data.pubs[p];
      while stems != {}
        invariant p in data.pubs && now == data.pubs[p] && data.pubs == before.pubs[p := now]
        invariant stems <= now.Keys == before.pubs[p].Keys
        invariant forall s :: s in now ==>
                  now[s] == if s in stems then before.pubs[p][s] else StableSort(before.pubs[p][s])
      {
        var s :| s in stems;
        stems := stems - {s};
        data := PartData(data.pubs[p := data.pubs[p][s := StableSort(data.pubs[p][s])]]);
        now := data.pubs[p];
      }
      assert now == SortStems(before.pubs[p]);
    }

    method GetPackageCounts() returns (packages: nat, versions: nat)
      requires Valid()
      ensures packages == |Stems(data)| && versions == |Fmris(data)|
    {
      packages, versions := CountPackages(data);
    }
  }
}
