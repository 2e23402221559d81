/** What becomes of a copy that replays operations it already has, because the
    time recorded for one of its parts lost its fraction of a second
    (src/modules/catalog.py, Catalog.apply_updates). */
module Repetitions {
  import opened Common
  import opened Versions
  import opened VersionLists
  import opened CatalogParts
  import opened UpdateLogs
  import opened Servers
  import opened Replays
  import opened Histories
  import opened Syncs

  // ------------------------------------------------------------- one version

  function VersionOf(x: Effect): Version {
    match x
    case Put(e) => e.version
    case Drop(v) => v
  }

  /** Whether the version is there after the effects, if it was before; None when one fails. */
  function RunHas(there: bool, xs: seq<Effect>, v: Version): Option<bool> {
    if xs == [] then Some(there)
    else
      var r := RunHas(there, Front(xs), v);
      if r.None? || VersionOf(Last(xs)) != v then r
      else if r.value == Last(xs).Put? then None
      else Some(!r.value)
  }

  /** How many of the effects are on the version. */
  function Count(xs: seq<Effect>, v: Version): nat {
    if xs == [] then 0 else Count(Front(xs), v) + if VersionOf(Last(xs)) == v then 1 else 0
  }

  ghost predicate AllEven(xs: seq<Effect>) {
    forall v :: Count(xs, v) % 2 == 0
  }

  lemma ApplyHas(l: seq<Entry>, x: Effect, sorted: bool, v: Version)
    ensures Apply(l, x, sorted).Some? <==> Has(l, VersionOf(x)) != x.Put?
    ensures Apply(l, x, sorted).Some? ==>
              (Has(Apply(l, x, sorted).value, v) <==> if v == VersionOf(x) then x.Put? else Has(l, v))
  {
    if x.Put? {
      SortHas(l + [x.e], v);
      assert (l + [x.e])[|l|] == x.e;
      forall i | 0 <= i < |l| ensures (l + [x.e])[i] == l[i] {}
    } else {
      WithoutMembers(l, x.v);
    }
  }

  /** Effects succeed exactly when they do for every version. */
  lemma {:induction false} RunByVersion(l: seq<Entry>, xs: seq<Effect>, sorted: bool)
    ensures Run(l, xs, sorted).Some? <==> forall v :: RunHas(Has(l, v), xs, v).Some?
    ensures Run(l, xs, sorted).Some? ==> forall v :: RunHas(Has(l, v), xs, v) == Some(Has(Run(l, xs, sorted).value, v))
  {
    if xs == [] {
    } else {
      var f, x := Front(xs), Last(xs);
      RunByVersion(l, f, sorted);
      hide Apply, Has, VersionOf;
      if Run(l, f, sorted).Some? {
        var l' := Run(l, f, sorted).value;
        forall v { ApplyHas(l', x, sorted, v); }
        assert RunHas(Has(l, VersionOf(x)), f, VersionOf(x)) == Some(Has(l', VersionOf(x)));
      } else {
        var v :| RunHas(Has(l, v), f, v).None?;
        assert RunHas(Has(l, v), xs, v).None?;
      }
    }
  }

  lemma {:induction false} RunHasConcat(there: bool, xs: seq<Effect>, ys: seq<Effect>, v: Version)
    ensures RunHas(there, xs + ys, v) ==
            match RunHas(there, xs, v)
            case None => None
            case Some(b) => RunHas(b, ys, v)
  {
    hide VersionOf;
    if ys == [] {
      assert xs + ys == xs;
    } else {
      assert Front(xs + ys) == xs + Front(ys) && Last(xs + ys) == Last(ys);
      RunHasConcat(there, xs, Front(ys), v);
    }
  }

  /** Effects on a version alternate: an even number of them cancel out, and from
      the first one it can be told whether the version was there before. */
  lemma {:induction false} Alternating(b: bool, b': bool, xs: seq<Effect>, v: Version)
    requires RunHas(b, xs, v).Some?
    ensures RunHas(b, xs, v).value == if Count(xs, v) % 2 == 0 then b else !b
    ensures RunHas(b', xs, v).Some? && Count(xs, v) > 0 ==> b == b'
    decreases xs
  {
    hide VersionOf;
    if xs != [] {
      Alternating(b, b', Front(xs), v);
      if RunHas(b', Front(xs), v).Some? { Alternating(b', b, Front(xs), v); }
    }
  }

  lemma TwiceByVersion(b: bool, c: bool, xs: seq<Effect>, ys: seq<Effect>, v: Version)
    requires RunHas(b, xs, v) == Some(c) && RunHas(c, ys, v).Some?
    ensures RunHas(c, xs + ys, v).Some? <==> Count(xs, v) % 2 == 0
  {
    hide RunHas, Count;
    RunHasConcat(c, xs, ys, v);
    Alternating(b, c, xs, v);
    assert RunHas(b, xs, v).value == c;
    if RunHas(c, xs, v).Some? { Alternating(c, b, xs, v); }
  }

  /** After the effects `xs` and then `ys` have succeeded, `xs` and `ys` once more
      on what `xs` left succeed exactly when `xs` has an even number of effects on every version. */
  lemma RunTwice(before: seq<Entry>, l: seq<Entry>, xs: seq<Effect>, ys: seq<Effect>)
    requires Run(before, xs, true) == Some(l) && Run(l, ys, true).Some?
    ensures Run(l, xs + ys, false).Some? <==> AllEven(xs)
  {
    RunByVersion(before, xs, true);
    RunByVersion(l, ys, true);
    RunByVersion(l, xs + ys, false);
    hide Run, Has;
    forall v ensures RunHas(Has(l, v), xs + ys, v).Some? <==> Count(xs, v) % 2 == 0 {
      TwiceByVersion(Has(before, v), Has(l, v), xs, ys, v);
    }
    if !AllEven(xs) {
      var v :| Count(xs, v) % 2 != 0;
      assert !RunHas(Has(l, v), xs + ys, v).Some?;
    }
  }

  // ---------------------------------------------------------------- one part

  /** How many of the operations are on this version of the part `n`. */
  function Operations(us: seq<Update>, n: PartName, f: Fmri): nat {
    if us == [] then 0 else Operations(Front(us), n, f) + if n in Last(us).parts && Last(us).f == f then 1 else 0
  }

  /** The operations on the part cancel out: every version has as many additions as removals. */
  ghost predicate Cancelling(us: seq<Update>, n: PartName) {
    forall f :: Operations(us, n, f) % 2 == 0
  }

  lemma {:induction false} EffectCount(us: seq<Update>, n: PartName, f: Fmri)
    ensures Count(Effects(us, n, -1, f.pub, f.stem), f.ver) == Operations(us, n, f)
  {
    if us != [] {
      EffectCount(Front(us), n, f);
      var xs, u := Effects(Front(us), n, -1, f.pub, f.stem), Last(us);
      if Concerns(u, n, -1, f.pub, f.stem) {
        assert Front(xs + [EffectOf(u, n)]) == xs && Last(xs + [EffectOf(u, n)]) == EffectOf(u, n);
        assert VersionOf(EffectOf(u, n)) == u.f.ver;
      } else {
        assert xs + [] == xs;
      }
    }
  }

  ghost predicate CancellingFor(us: seq<Update>, n: PartName, pub: string, stem: string) {
    forall v :: Operations(us, n, Fmri(pub, stem, v)) % 2 == 0
  }

  lemma CancellingIs(us: seq<Update>, n: PartName, pub: string, stem: string)
    ensures CancellingFor(us, n, pub, stem) <==> AllEven(Effects(us, n, -1, pub, stem))
  {
    hide Operations, Count, Effects;
    forall v ensures Count(Effects(us, n, -1, pub, stem), v) == Operations(us, n, Fmri(pub, stem, v)) {
      EffectCount(us, n, Fmri(pub, stem, v));
    }
    if !CancellingFor(us, n, pub, stem) {
      var v :| Operations(us, n, Fmri(pub, stem, v)) % 2 != 0;
      assert Count(Effects(us, n, -1, pub, stem), v) % 2 != 0;
    }
  }

  /** What the chosen logs hold for a package of a copy that replays from the operation `j` on. */
  lemma ReadFrom(readings: seq<seq<Update>>, logs: seq<LogName>, files: map<LogName, LogState>,
                 h: seq<Update>, j: nat, k: nat, n: PartName, lm: int, pub: string, stem: string)
    requires AreReadings(readings, logs, files) && LogsTrack(files, h) && InOrder(h) && InNameOrder(logs)
    requires Lacks(h, j, n, lm, Hours(logs, Locale(n))) && j <= k <= |h|
    ensures Effects(Flatten(readings), n, lm, pub, stem) ==
            Effects(h[j..k], n, -1, pub, stem) + Effects(h[k..], n, -1, pub, stem)
  {
    hide Effects, IsReading, UpdatesTrack, Hours, InNameOrder, LogsTrack, AreReadings;
    assert h[j..] == h[j..k] + h[k..];
    EffectsConcat(h[j..k], h[k..], n, -1, pub, stem);
    if Reserved(pub) {
      Publishers(h, j);
      NoEffectsOn(h[j..], n, -1, pub, stem);
      ReservedUnread(readings, logs, files, n, lm, pub, stem);
    } else {
      ReadingsEffects(readings, logs, files, h, n, lm, pub, stem);
      Selected(h, j, n, lm, pub, stem, Hours(logs, Locale(n)));
    }
  }

  lemma NamedPublishers(h: seq<Update>, j: nat, k: nat)
    requires InOrder(h) && j <= k <= |h|
    ensures forall u :: u in h[j..k] || u in h[k..] ==> u.f.pub != ""
  {
  }

  /** The operations from `j` to `k`, and those from `k` on, succeeded on the part. */
  lemma ReplayFrom(h: seq<Update>, j: nat, k: nat, n: PartName, held: PartData) returns (before: PartData)
    requires InOrder(h) && j <= k <= |h| && PartAt(h[..k], n) == Ok(held) && PartAt(h, n).Ok?
    ensures forall p, q :: Run(At(before, p, q), Effects(h[j..k], n, -1, p, q), true) == Some(At(held, p, q))
    ensures forall p, q :: Run(At(held, p, q), Effects(h[k..], n, -1, p, q), true).Some?
  {
    NamedPublishers(h, j, k);
    hide Effects, Run, At, InOrder;
    assert h[..k] == h[..j] + h[j..k] && h == h[..k] + h[k..];
    ReplayConcat(Empty, n, -1, h[..j], h[j..k], true);
    ReplayConcat(Empty, n, -1, h[..k], h[k..], true);
    before := PartAt(h[..j], n).value;
    ReplayByPackage(before, n, -1, h[j..k], true);
    ReplayByPackage(held, n, -1, h[k..], true);
  }

  /** A copy has the operations before `k`, but by the time recorded for its part it
      lacks those from `j` on.  Its replay succeeds exactly when the operations
      repeated cancel out. */
  lemma RepeatedReplay(readings: seq<seq<Update>>, logs: seq<LogName>, files: map<LogName, LogState>,
                       h: seq<Update>, j: nat, k: nat, n: PartName, lm: int, held: PartData)
    requires AreReadings(readings, logs, files) && LogsTrack(files, h) && InOrder(h) && InNameOrder(logs)
    requires Lacks(h, j, n, lm, Hours(logs, Locale(n))) && j <= k <= |h|
    requires PartAt(h[..k], n) == Ok(held) && PartAt(h, n).Ok?
    ensures Replay(held, n, lm, Flatten(readings), false).Ok? <==> Cancelling(h[j..k], n)
  {
    hide Effects, Run, At, Hours, InNameOrder, Lacks, Operations, AreReadings, LogsTrack, InOrder;
    var before := ReplayFrom(h, j, k, n, held);
    ReadingsNamed(readings, logs, files, h);
    ReplayByPackage(held, n, lm, Flatten(readings), false);
    hide PartAt;
    forall p, q
      ensures Run(At(held, p, q), Effects(Flatten(readings), n, lm, p, q), false).Some? <==>
              CancellingFor(h[j..k], n, p, q)
    {
      var xs, ys := Effects(h[j..k], n, -1, p, q), Effects(h[k..], n, -1, p, q);
      ReadFrom(readings, logs, files, h, j, k, n, lm, p, q);
      RunTwice(At(before, p, q), At(held, p, q), xs, ys);
      CancellingIs(h[j..k], n, p, q);
    }
    if !Cancelling(h[j..k], n) {
      var f :| Operations(h[j..k], n, f) % 2 != 0;
      assert f == Fmri(f.pub, f.stem, f.ver);
      assert !CancellingFor(h[j..k], n, f.pub, f.stem);
    }
  }
}
