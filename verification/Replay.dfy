/** Replaying update logs on a copy of a part: what order the operations may be
    taken in (src/modules/catalog.py, Catalog.apply_updates). */
module Replays {
  import opened Common
  import opened Versions
  import opened VersionLists
  import opened CatalogParts
  import opened UpdateLogs

  // ------------------------------------------------------------ one version list

  /** What an operation does to the version list of its package. */
  datatype Effect = Put(e: Entry) | Drop(v: Version)

  /** One effect on a list; `sorted` lists are sorted again after an addition. */
  function Apply(list: seq<Entry>, x: Effect, sorted: bool): Option<seq<Entry>> {
    match x
    case Put(e) =>
      if Has(list, e.version) then None
      else Some(if sorted then StableSort(list + [e]) else list + [e])
    case Drop(v) =>
      if Has(list, v) then Some(Without(list, v)) else None
  }

  function Run(list: seq<Entry>, xs: seq<Effect>, sorted: bool): Option<seq<Entry>> {
    if xs == [] then Some(list)
    else match Run(list, Front(xs), sorted)
         case None => None
         case Some(l) => Apply(l, Last(xs), sorted)
  }

  lemma ApplySorted(l: seq<Entry>, x: Effect)
    ensures Apply(l, x, false).Some? <==> Apply(StableSort(l), x, true).Some?
    ensures Apply(l, x, false).Some? ==> StableSort(Apply(l, x, false).value) == Apply(StableSort(l), x, true).value
  {
    hide StableSort, Less;
    match x {
      case Put(e) =>
        SortHas(l, e.version);
        SortAppend(l, e);
      case Drop(v) =>
        SortHas(l, v);
        SortWithout(l, v);
    }
  }

  /** Sorting once after all the operations gives what sorting after each of them
      gives, entries of equal-comparing versions included; and both fail together. */
  lemma {:induction false} SortOnceAtEnd(l: seq<Entry>, xs: seq<Effect>)
    ensures Run(l, xs, false).Some? <==> Run(StableSort(l), xs, true).Some?
    ensures Run(l, xs, false).Some? ==> StableSort(Run(l, xs, false).value) == Run(StableSort(l), xs, true).value
  {
    hide StableSort, Apply;
    if xs != [] {
      SortOnceAtEnd(l, Front(xs));
      if Run(l, Front(xs), false).Some? { ApplySorted(Run(l, Front(xs), false).value, Last(xs)); }
    }
  }

  // ------------------------------------------------------------------- one part

  /** One operation replayed on a part last modified at `lm`: operations that the
      part already has, and those that do not concern it, are passed over. */
  function ReplayStep(d: PartData, n: PartName, lm: int, u: Update, sorted: bool): Result<PartData, CatalogError> {
    if n !in u.parts || u.time <= lm then Ok(d)
    else match u.kind
         case ADD => AddTo(d, u.f, u.parts[n], sorted)
         case REMOVE => RemoveFrom(d, u.f)
  }

  function Replay(d: PartData, n: PartName, lm: int, ups: seq<Update>, sorted: bool): Result<PartData, CatalogError> {
    if ups == [] then Ok(d)
    else match Replay(d, n, lm, Front(ups), sorted)
         case Err(x) => Err(x)
         case Ok(d') => ReplayStep(d', n, lm, Last(ups), sorted)
  }

  function EffectOf(u: Update, n: PartName): Effect
    requires n in u.parts
  {
    match u.kind
    case ADD => Put(u.parts[n].(version := u.f.ver))
    case REMOVE => Drop(u.f.ver)
  }

  predicate Concerns(u: Update, n: PartName, lm: int, pub: string, stem: string) {
    n in u.parts && u.time > lm && u.f.pub == pub && u.f.stem == stem
  }

  /** The effects, on one package of part `n`, of the operations after `lm`. */
  ghost function Effects(ups: seq<Update>, n: PartName, lm: int, pub: string, stem: string): seq<Effect> {
    if ups == [] then []
    else Effects(Front(ups), n, lm, pub, stem) +
         if Concerns(Last(ups), n, lm, pub, stem) then [EffectOf(Last(ups), n)] else []
  }

  lemma {:induction false} EffectsConcat(a: seq<Update>, b: seq<Update>, n: PartName, lm: int, pub: string,
      stem: string)
    ensures Effects(a + b, n, lm, pub, stem) == Effects(a, n, lm, pub, stem) + Effects(b, n, lm, pub, stem)
  {
    hide Concerns, EffectOf;
    if b == [] {
      assert a + b == a;
    } else {
      assert Front(a + b) == a + Front(b) && Last(a + b) == Last(b);
      EffectsConcat(a, Front(b), n, lm, pub, stem);
    }
  }

  /** The effects on a package depend only on the operations of that package. */
  lemma {:induction false} EffectsProject(ups: seq<Update>, n: PartName, lm: int, pub: string, stem: string)
    ensures Effects(ups, n, lm, pub, stem) == Effects(Project(ups, pub, stem), n, lm, pub, stem)
  {
    hide EffectOf;
    if ups != [] {
      var u := Last(ups);
      EffectsProject(Front(ups), n, lm, pub, stem);
      var q := Project(Front(ups), pub, stem);
      if u.f.pub == pub && u.f.stem == stem {
        assert Front(q + [u]) == q && Last(q + [u]) == u && Project(ups, pub, stem) == q + [u];
      } else {
        assert q + [] == q && Project(ups, pub, stem) == q;
        assert Effects(Front(ups), n, lm, pub, stem) + [] == Effects(Front(ups), n, lm, pub, stem);
      }
    }
  }

  /** A step changes the list of its own package only. */
  lemma StepLocal(d: PartData, n: PartName, lm: int, u: Update, sorted: bool)
    requires u.f.pub != ""
    ensures !Concerns(u, n, lm, u.f.pub, u.f.stem) ==> ReplayStep(d, n, lm, u, sorted) == Ok(d)
    ensures Concerns(u, n, lm, u.f.pub, u.f.stem) ==>
              (ReplayStep(d, n, lm, u, sorted).Ok? <==> Apply(At(d, u.f.pub, u.f.stem), EffectOf(u, n), sorted).Some?)
    ensures Concerns(u, n, lm, u.f.pub, u.f.stem) && ReplayStep(d, n, lm, u, sorted).Ok? ==>
              var d' := ReplayStep(d, n, lm, u, sorted).value;
              && At(d', u.f.pub, u.f.stem) == Apply(At(d, u.f.pub, u.f.stem), EffectOf(u, n), sorted).value
              && (forall p, s :: p != u.f.pub || s != u.f.stem ==> At(d', p, s) == At(d, p, s))
              && (NoEmpties(d) ==> NoEmpties(d'))
  {
    hide SetAt, NoEmpties, Has, StableSort, Without, At;
    var list := At(d, u.f.pub, u.f.stem);
    if Concerns(u, n, lm, u.f.pub, u.f.stem) && Apply(list, EffectOf(u, n), sorted).Some? {
      var list' := Apply(list, EffectOf(u, n), sorted).value;
      AtSetAt(d, u.f.pub, u.f.stem, list');
      if NoEmpties(d) { SetAtNoEmpties(d, u.f.pub, u.f.stem, list'); }
    }
  }

  /** What became of one package of a part after a replay. */
  ghost predicate Follows(d: PartData, r: Result<PartData, CatalogError>, n: PartName, lm: int, ups: seq<Update>,
      sorted: bool)
  {
    && (r.Ok? <==> forall p, s :: Run(At(d, p, s), Effects(ups, n, lm, p, s), sorted).Some?)
    && (r.Ok? ==> forall p, s :: Run(At(d, p, s), Effects(ups, n, lm, p, s), sorted) == Some(At(r.value, p, s)))
    && (r.Ok? && NoEmpties(d) ==> NoEmpties(r.value))
  }

  /** One more operation of the sequence, seen from one package. */
  lemma RunMore(d: PartData, n: PartName, lm: int, ups: seq<Update>, sorted: bool, p: string, s: string)
    requires ups != []
    ensures var before := Run(At(d, p, s), Effects(Front(ups), n, lm, p, s), sorted);
            Run(At(d, p, s), Effects(ups, n, lm, p, s), sorted) ==
              if before.None? || !Concerns(Last(ups), n, lm, p, s) then before
              else Apply(before.value, EffectOf(Last(ups), n), sorted)
  {
    hide Apply, At, EffectOf;
    var xs := Effects(Front(ups), n, lm, p, s);
    if Concerns(Last(ups), n, lm, p, s) {
      var x := EffectOf(Last(ups), n);
      assert Front(xs + [x]) == xs && Last(xs + [x]) == x;
    } else {
      assert xs + [] == xs;
    }
  }

  lemma FollowsStep(d: PartData, r: Result<PartData, CatalogError>, n: PartName, lm: int, ups: seq<Update>,
      sorted: bool)
    requires ups != [] && Last(ups).f.pub != "" && Follows(d, r, n, lm, Front(ups), sorted)
    ensures Follows(d, if r.Err? then r else ReplayStep(r.value, n, lm, Last(ups), sorted), n, lm, ups, sorted)
  {
    hide Apply, ReplayStep, EffectOf, At, NoEmpties, Run, Effects;
    var u := Last(ups);
    if r.Err? {
      var p, s :| Run(At(d, p, s), Effects(Front(ups), n, lm, p, s), sorted).None?;
      RunMore(d, n, lm, ups, sorted, p, s);
    } else {
      StepLocal(r.value, n, lm, u, sorted);
      forall p, s { RunMore(d, n, lm, ups, sorted, p, s); }
    }
  }

  /** A replay works package by package: it succeeds exactly when the operations of
      every package succeed on its own version list, and leaves their results. */
  lemma {:induction false} ReplayByPackage(d: PartData, n: PartName, lm: int, ups: seq<Update>, sorted: bool)
    requires forall u :: u in ups ==> u.f.pub != ""
    ensures Follows(d, Replay(d, n, lm, ups, sorted), n, lm, ups, sorted)
  {
    if ups != [] {
      assert ups == Front(ups) + [Last(ups)];
      ReplayByPackage(d, n, lm, Front(ups), sorted);
      FollowsStep(d, Replay(d, n, lm, Front(ups), sorted), n, lm, ups, sorted);
    }
  }

  /** The order of operations matters only within a package: sequences with the
      same operations for every package give the same part, or both fail. */
  lemma OrderAcrossPackages(d: PartData, n: PartName, lm: int, a: seq<Update>, b: seq<Update>, sorted: bool)
    requires NoEmpties(d) && (forall u :: u in a || u in b ==> u.f.pub != "")
    requires forall p, s :: Project(a, p, s) == Project(b, p, s)
    ensures Replay(d, n, lm, a, sorted).Ok? <==> Replay(d, n, lm, b, sorted).Ok?
    ensures Replay(d, n, lm, a, sorted).Ok? ==> Replay(d, n, lm, a, sorted) == Replay(d, n, lm, b, sorted)
  {
    hide At, NoEmpties, Effects, Project, Run, Replay;
    ReplayByPackage(d, n, lm, a, sorted);
    ReplayByPackage(d, n, lm, b, sorted);
    forall p, s ensures Effects(a, n, lm, p, s) == Effects(b, n, lm, p, s) {
      EffectsProject(a, n, lm, p, s);
      EffectsProject(b, n, lm, p, s);
    }
    if Replay(d, n, lm, a, sorted).Ok? {
      var x, y := Replay(d, n, lm, a, sorted).value, Replay(d, n, lm, b, sorted).value;
      forall p, s ensures At(x, p, s) == At(y, p, s) {
        assert Run(At(d, p, s), Effects(a, n, lm, p, s), sorted) == Some(At(x, p, s));
      }
      Extensional(x, y);
    }
  }

  lemma {:induction false} ReplayConcat(d: PartData, n: PartName, lm: int, a: seq<Update>, b: seq<Update>, sorted: bool)
    ensures Replay(d, n, lm, a + b, sorted) ==
            match Replay(d, n, lm, a, sorted)
            case Err(x) => Err(x)
            case Ok(d') => Replay(d', n, lm, b, sorted)
  {
    hide ReplayStep;
    if b == [] {
      assert a + b == a;
    } else {
      assert Front(a + b) == a + Front(b) && Last(a + b) == Last(b);
      ReplayConcat(d, n, lm, a, Front(b), sorted);
    }
  }

  lemma {:induction false} ReplayValid(d: PartData, n: PartName, lm: int, ups: seq<Update>, sorted: bool)
    requires ValidData(d) && Replay(d, n, lm, ups, sorted).Ok?
    ensures ValidData(Replay(d, n, lm, ups, sorted).value)
    ensures sorted && Sorted(d) ==> Sorted(Replay(d, n, lm, ups, sorted).value)
  {
    hide ValidData, Sorted, AddTo, RemoveFrom;
    if ups != [] {
      ReplayValid(d, n, lm, Front(ups), sorted);
      var d', u := Replay(d, n, lm, Front(ups), sorted).value, Last(ups);
      if n in u.parts && u.time > lm {
        match u.kind {
          case ADD => AddKeeps(d', u.f, u.parts[n], sorted);
          case REMOVE => RemoveKeeps(d', u.f);
        }
      }
    }
  }

  /** Operations on named publishers' packages leave the lists of other publishers empty. */
  lemma {:induction false} NoEffectsOn(ups: seq<Update>, n: PartName, lm: int, pub: string, stem: string)
    requires forall u :: u in ups ==> u.f.pub != pub
    ensures Effects(ups, n, lm, pub, stem) == []
  {
    if ups != [] {
      assert ups == Front(ups) + [Last(ups)];
      NoEffectsOn(Front(ups), n, lm, pub, stem);
    }
  }
}
