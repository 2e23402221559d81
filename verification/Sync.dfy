/** Keeping a copy of a catalog up to date (src/modules/catalog.py,
    Catalog.get_updates_needed and Catalog.apply_updates). */
module Syncs {
  import opened Common
  import opened Versions
  import opened VersionLists
  import opened CatalogParts
  import opened UpdateLogs
  import opened Servers
  import opened Replays
  import opened Histories

  // --------------------------------------------------------- what is needed

  datatype SyncError = BadIdentity | Obsolete

  /** The answer of `get_updates_needed`. */
  datatype Needs =
    | NoChange                          // None: the catalog has not been modified
    | Refused(error: SyncError)         // an exception
    | Nothing                           // an empty list: no part has to be updated
    | Full(names: set<PartName>)        // parts to be copied
    | Incremental(logs: seq<LogName>)   // update logs to be replayed, in order

  /** The parts of the copy whose times differ from those of the catalog. */
  function Changed(own: Attrs, now: Attrs): set<PartName> {
    set n | n in own.parts && n in now.parts && now.parts[n] != own.parts[n]
  }

  predicate KnownType(n: PartName) {
    match n
    case Other(ctype, _) => "summary" <= ctype
    case _ => true
  }

  /** The parts the copy has never seen and should have: those of the C locale and of the changed locales. */
  function NewParts(own: Attrs, now: Attrs): set<PartName> {
    set n | n in now.parts && n !in own.parts && KnownType(n) &&
            (Locale(n) == "C" || exists m :: m in Changed(own, now) && Locale(m) == Locale(n))
  }

  /** The log that covers the time a part of the copy was last modified. */
  function LogFor(own: Attrs, n: PartName): LogName
    requires n in own.parts
  {
    LogName(HourOf(own.parts[n]), Locale(n))
  }

  predicate CanReplay(own: Attrs, now: Attrs) {
    NewParts(own, now) == {} && forall n :: n in Changed(own, now) ==> LogFor(own, n) in now.updates
  }

  /** The logs of a changed locale that are newer than every changed part of it. */
  function LogsNeeded(own: Attrs, now: Attrs): set<LogName> {
    set l | l in now.updates && (exists n :: n in Changed(own, now) && Locale(n) == l.locale)
            && forall n :: n in Changed(own, now) && Locale(n) == l.locale ==> own.parts[n] < now.updates[l]
  }

  /** The order of the logs' names: by hour, then by locale. */
  predicate Before(a: LogName, b: LogName) {
    a.hour < b.hour || (a.hour == b.hour && LexLess(Codes(a.locale), Codes(b.locale)))
  }

  ghost predicate InNameOrder(logs: seq<LogName>) {
    forall i, j :: 0 <= i < j < |logs| ==> Before(logs[i], logs[j])
  }

  /** `r` is the answer for a copy with the attributes `own` of a catalog with the attributes `now`. */
  ghost predicate Answers(r: Needs, own: Attrs, now: Attrs) {
    if own.created != now.created then r == Refused(BadIdentity)
    else if own.lm == now.lm then r == NoChange
    else if (exists n :: n in own.parts && n !in now.parts)
      || (exists n :: n in own.parts && n in now.parts && now.parts[n] < own.parts[n]) then
      || (r == Refused(BadIdentity) && exists n :: n in own.parts && n !in now.parts)
      || (r == Refused(Obsolete) && exists n :: n in own.parts && n in now.parts && now.parts[n] < own.parts[n])
    else if Changed(own, now) + NewParts(own, now) == {} then r == Nothing
    else if !CanReplay(own, now) then r == Full(Changed(own, now) + NewParts(own, now))
    else r.Incremental? && InNameOrder(r.logs) && (forall l :: l in r.logs <==> l in LogsNeeded(own, now))
  }

  /** Which of the parts that a copy has never seen it is told to fetch: unless their
      type is unknown, those of the C locale and of the locales of changed parts. */
  lemma AskedFor(r: Needs, own: Attrs, now: Attrs, n: PartName)
    requires Answers(r, own, now) && !r.NoChange? && !r.Refused?
    requires n in now.parts && n !in own.parts
    ensures r.Full? && n in r.names <==>
            && (n.Other? ==> exists x :: n.ctype == "summary" + x)
            && (Locale(n) == "C" ||
                exists m :: m in own.parts && m in now.parts && now.parts[m] != own.parts[m] && Locale(m) == Locale(n))
  {
    if n.Other? { PrefixIs(n.ctype, "summary"); }
    assert (exists m :: m in own.parts && m in now.parts && now.parts[m] != own.parts[m] && Locale(m) == Locale(n)) <==>
           exists m :: m in Changed(own, now) && Locale(m) == Locale(n);
    assert n !in Changed(own, now);
    assert n in NewParts(own, now) <==>
           KnownType(n) && (Locale(n) == "C" || exists m :: m in Changed(own, now) && Locale(m) == Locale(n));
    hide Changed, NewParts, LogsNeeded, InNameOrder, Locale;
  }

  /** When a copy is told to replay logs: some part has changed and none has vanished or
      gone back in time, no part is to be fetched, and there is a log of the hour in
      which each changed part was last modified. */
  lemma IncrementalWhen(r: Needs, own: Attrs, now: Attrs)
    requires Answers(r, own, now)
    ensures r.Incremental? <==>
            && own.created == now.created && own.lm != now.lm
            && (forall n :: n in own.parts ==> n in now.parts && own.parts[n] <= now.parts[n])
            && (exists n :: n in own.parts && n in now.parts && own.parts[n] < now.parts[n])
            && (forall n :: n in now.parts && n !in own.parts ==>
                  || (n.Other? && !exists x :: n.ctype == "summary" + x)
                  || (Locale(n) != "C" &&
                      forall m :: m in own.parts && m in now.parts && own.parts[m] < now.parts[m] ==>
                        Locale(m) != Locale(n)))
            && (forall n :: n in own.parts && n in now.parts && own.parts[n] < now.parts[n] ==>
                  LogName(own.parts[n] / 3_600_000_000, Locale(n)) in now.updates)
  {
    if own.created == now.created && own.lm != now.lm
      && forall n :: n in own.parts ==> n in now.parts && own.parts[n] <= now.parts[n]
    {
      forall n ensures n in Changed(own, now) <==> n in own.parts && n in now.parts && own.parts[n] < now.parts[n] {}
      forall n | n in now.parts && n !in own.parts
        ensures n in NewParts(own, now) <==>
                && (n.Other? ==> exists x :: n.ctype == "summary" + x)
                && (Locale(n) == "C" || exists m :: m in Changed(own, now) && Locale(m) == Locale(n))
      {
        if n.Other? { PrefixIs(n.ctype, "summary"); }
      }
      forall n | n in NewParts(own, now) ensures n in now.parts && n !in own.parts {}
      hide Changed, NewParts, Locale, InNameOrder, LogsNeeded;
    }
  }

  /** Which logs a copy is told to replay: of a locale with a changed part, those whose
      last operation is later than any changed part of the locale was modified. */
  lemma LogsAskedFor(r: Needs, own: Attrs, now: Attrs, l: LogName)
    requires Answers(r, own, now) && r.Incremental?
    ensures l in r.logs <==>
            && l in now.updates
            && (exists n :: n in own.parts && n in now.parts && now.parts[n] != own.parts[n] && Locale(n) == l.locale)
            && forall n :: n in own.parts && n in now.parts && now.parts[n] != own.parts[n] && Locale(n) == l.locale ==>
               own.parts[n] < now.updates[l]
  {
    assert forall n :: n in Changed(own, now) <==> n in own.parts && n in now.parts && now.parts[n] != own.parts[n];
    hide Changed, NewParts, CanReplay, InNameOrder, Locale;
  }

  // ------------------------------------------------- what the chosen logs contain

  /** The effects, on one package of part `n`, of the operations after `lm` in some hours. */
  ghost function EffectsIn(h: seq<Update>, n: PartName, lm: int, pub: string, stem: string,
      hours: set<nat>): seq<Effect>
  {
    if h == [] then []
    else EffectsIn(Front(h), n, lm, pub, stem, hours) +
         if Concerns(Last(h), n, lm, pub, stem) && HourOf(Last(h).time) in hours then [EffectOf(Last(h), n)] else []
  }

  lemma {:induction false} NoEffects(h: seq<Update>, n: PartName, lm: int, pub: string, stem: string, hours: set<nat>)
    requires forall u :: u in h && Concerns(u, n, lm, pub, stem) ==> HourOf(u.time) !in hours
    ensures EffectsIn(h, n, lm, pub, stem, hours) == []
  {
    hide Concerns, HourOf;
    if h != [] {
      assert h == Front(h) + [Last(h)];
      NoEffects(Front(h), n, lm, pub, stem, hours);
    }
  }

  lemma EffectsInSnoc(h: seq<Update>, u: Update, n: PartName, lm: int, pub: string, stem: string, hours: set<nat>)
    ensures EffectsIn(h + [u], n, lm, pub, stem, hours) ==
            EffectsIn(h, n, lm, pub, stem, hours) +
            if Concerns(u, n, lm, pub, stem) && HourOf(u.time) in hours then [EffectOf(u, n)] else []
  {
    hide Concerns, EffectOf, HourOf;
    assert Front(h + [u]) == h && Last(h + [u]) == u;
  }

  /** No operation before one of an earlier hour is of a later hour. */
  lemma NoneLater(h: seq<Update>, n: PartName, lm: int, pub: string, stem: string, hour: nat)
    requires h != [] && InOrder(h) && HourOf(Last(h).time) < hour
    ensures EffectsIn(h, n, lm, pub, stem, {hour}) == EffectsIn(Front(h), n, lm, pub, stem, {hour}) == []
  {
    forall v | v in h ensures HourOf(v.time) != hour {
      var i :| 0 <= i < |h| && h[i] == v;
      HourMonotone(v.time, Last(h).time);
    }
    hide Concerns, EffectOf, InOrder, HourOf;
    NoEffects(h, n, lm, pub, stem, {hour});
    NoEffects(Front(h), n, lm, pub, stem, {hour});
  }

  lemma Rearranged<T>(a: seq<T>, b: seq<T>)
    ensures (a + b) + [] == (a + []) + (b + [])
  {
  }

  lemma Rearrange<T>(a: seq<T>, b: seq<T>, e: seq<T>)
    ensures (a + b) + e == (a + []) + (b + e)
    ensures b == [] ==> (a + b) + e == (a + e) + b
  {
  }

  /** A later hour's operations come after those of earlier hours. */
  lemma {:induction false} LaterHour(h: seq<Update>, n: PartName, lm: int, pub: string, stem: string, hours: set<nat>,
      hour: nat)
    requires InOrder(h) && forall x :: x in hours ==> x < hour
    ensures EffectsIn(h, n, lm, pub, stem, hours + {hour}) ==
            EffectsIn(h, n, lm, pub, stem, hours) + EffectsIn(h, n, lm, pub, stem, {hour})
  {
    if h != [] {
      var f, u := Front(h), Last(h);
      LaterHour(f, n, lm, pub, stem, hours, hour);
      if HourOf(u.time) in hours { NoneLater(h, n, lm, pub, stem, hour); }
      assert h == f + [u];
      hide *;
      EffectsInSnoc(f, u, n, lm, pub, stem, hours + {hour});
      EffectsInSnoc(f, u, n, lm, pub, stem, hours);
      EffectsInSnoc(f, u, n, lm, pub, stem, {hour});
      Rearranged(EffectsIn(f, n, lm, pub, stem, hours), EffectsIn(f, n, lm, pub, stem, {hour}));
      if Concerns(u, n, lm, pub, stem) {
        Rearrange(EffectsIn(f, n, lm, pub, stem, hours), EffectsIn(f, n, lm, pub, stem, {hour}), [EffectOf(u, n)]);
      }
    }
  }

  lemma NothingAdded<T>(s: seq<T>)
    ensures s + [] == s
  {
  }

  lemma ToUpdatesSnoc(pub: string, stem: string, list: seq<LogEntry>, e: LogEntry)
    ensures ToUpdates(pub, stem, list + [e]) == ToUpdates(pub, stem, list) + [ToUpdate(pub, stem, e)]
  {
    hide ToUpdate;
  }

  lemma NotLogged(u: Update, l: LogName, n: PartName, lm: int, pub: string, stem: string)
    requires !(LoggedIn(u, l) && u.f.pub == pub && u.f.stem == stem)
    ensures Locale(n) == l.locale && Concerns(u, n, lm, pub, stem) ==> HourOf(u.time) !in {l.hour}
  {
  }

  /** One logged operation, read back. */
  lemma LogEffectsMore(ups: seq<Update>, u: Update, l: LogName, n: PartName, lm: int, pub: string, stem: string)
    requires u.f.pub == pub && u.f.stem == stem
    ensures var v := ToUpdate(pub, stem, LogEntry(u.kind, u.time, u.f.ver, OfLocale(u.parts, l.locale)));
            Effects(ups + [v], n, lm, pub, stem) ==
            Effects(ups, n, lm, pub, stem) +
            if Locale(n) == l.locale && Concerns(u, n, lm, pub, stem) then [EffectOf(u, n)] else []
  {
    var v := ToUpdate(pub, stem, LogEntry(u.kind, u.time, u.f.ver, OfLocale(u.parts, l.locale)));
    assert Front(ups + [v]) == ups && Last(ups + [v]) == v;
    assert u.f == Fmri(pub, stem, u.f.ver);
  }

  /** One operation more in the history, and what it adds to a log. */
  lemma LogEffectsStep(f: seq<Update>, u: Update, l: LogName, n: PartName, lm: int, pub: string, stem: string)
    ensures Effects(ToUpdates(pub, stem, LogList(f + [u], l, pub, stem)), n, lm, pub, stem) ==
            Effects(ToUpdates(pub, stem, LogList(f, l, pub, stem)), n, lm, pub, stem) +
            if Locale(n) == l.locale && Concerns(u, n, lm, pub, stem) && HourOf(u.time) in {l.hour}
            then [EffectOf(u, n)] else []
  {
    hide *;
    var list := LogList(f, l, pub, stem);
    LogListSnoc(f, u, l, pub, stem);
    if LoggedIn(u, l) && u.f.pub == pub && u.f.stem == stem {
      LoggedHour(u, l);
      ToUpdatesSnoc(pub, stem, list, LogEntry(u.kind, u.time, u.f.ver, OfLocale(u.parts, l.locale)));
      LogEffectsMore(ToUpdates(pub, stem, list), u, l, n, lm, pub, stem);
    } else {
      NotLogged(u, l, n, lm, pub, stem);
      NothingAdded(list);
      NothingAdded(Effects(ToUpdates(pub, stem, list), n, lm, pub, stem));
    }
  }

  lemma NothingLogged(l: LogName, n: PartName, lm: int, pub: string, stem: string)
    ensures Effects(ToUpdates(pub, stem, LogList([], l, pub, stem)), n, lm, pub, stem) == []
    ensures EffectsIn([], n, lm, pub, stem, {l.hour}) == []
  {
    hide Concerns, EffectOf, HourOf, LoggedIn, Locale;
  }

  /** The effects logged for a package in one log are those of its hour. */
  lemma {:induction false} LogEffects(h: seq<Update>, l: LogName, n: PartName, lm: int, pub: string, stem: string)
    ensures Effects(ToUpdates(pub, stem, LogList(h, l, pub, stem)), n, lm, pub, stem) ==
            if Locale(n) == l.locale then EffectsIn(h, n, lm, pub, stem, {l.hour}) else []
  {
    hide *;
    if h == [] {
      NothingLogged(l, n, lm, pub, stem);
    } else {
      var f, u := h[..|h| - 1], h[|h| - 1];
      LogEffects(f, l, n, lm, pub, stem);
      assert h == f + [u];
      LogEffectsStep(f, u, l, n, lm, pub, stem);
      EffectsInSnoc(f, u, n, lm, pub, stem, {l.hour});
    }
  }

  ghost function Hours(logs: seq<LogName>, locale: string): set<nat> {
    set l | l in logs && l.locale == locale :: l.hour
  }

  /** `readings` are the contents of the logs `logs`, each read in some order of its packages. */
  ghost predicate AreReadings(readings: seq<seq<Update>>, logs: seq<LogName>, files: map<LogName, LogState>) {
    |readings| == |logs| && forall i :: 0 <= i < |logs| ==>
      logs[i] in files && IsReading(readings[i], files[logs[i]].data)
  }

  /** The effects in a reading of one log are those of its hour, on the parts of its locale. */
  lemma ReadingEffects(r: seq<Update>, l: LogName, d: LogData, h: seq<Update>, n: PartName, lm: int, pub: string,
      stem: string)
    requires IsReading(r, d) && !Reserved(pub) && LogAt(d, pub, stem) == LogList(h, l, pub, stem)
    ensures Effects(r, n, lm, pub, stem) == if Locale(n) == l.locale then EffectsIn(h, n, lm, pub, stem, {l.hour})
            else []
  {
    hide Concerns, EffectOf, LogAt;
    EffectsProject(r, n, lm, pub, stem);
    LogEffects(h, l, n, lm, pub, stem);
  }

  lemma HoursSnoc(logs: seq<LogName>, locale: string)
    requires logs != []
    ensures Hours(logs, locale) == Hours(Front(logs), locale) + if Last(logs).locale == locale then {Last(logs).hour}
            else {}
  {
    assert logs == Front(logs) + [Last(logs)];
  }

  lemma EarlierHours(logs: seq<LogName>)
    requires logs != [] && InNameOrder(logs)
    ensures InNameOrder(Front(logs))
    ensures forall x :: x in Hours(Front(logs), Last(logs).locale) ==> x < Last(logs).hour
  {
    LexIrreflexive(Codes(Last(logs).locale));
    forall x | x in Hours(Front(logs), Last(logs).locale) ensures x < Last(logs).hour {
      var l :| l in Front(logs) && l.locale == Last(logs).locale && l.hour == x;
      var i :| 0 <= i < |Front(logs)| && Front(logs)[i] == l;
      assert Before(logs[i], logs[|logs| - 1]);
    }
  }

  /** The effects in a reading of the chosen logs are those of the chosen hours. */
  lemma {:induction false} ReadingsEffects(readings: seq<seq<Update>>, logs: seq<LogName>,
      files: map<LogName, LogState>,
                                           h: seq<Update>, n: PartName, lm: int, pub: string, stem: string)
    requires AreReadings(readings, logs, files) && LogsTrack(files, h) && InOrder(h) && InNameOrder(logs)
             && !Reserved(pub)
    ensures Effects(Flatten(readings), n, lm, pub, stem) == EffectsIn(h, n, lm, pub, stem, Hours(logs, Locale(n)))
  {
    hide IsReading, InOrder, EffectsIn, Effects, LogList, LogAt;
    if logs == [] {
      assert Hours(logs, Locale(n)) == {};
      NoEffects(h, n, lm, pub, stem, {});
      NoEffectsOn([], n, lm, pub, stem);
    } else {
      var l, r := Last(logs), Last(readings);
      EarlierHours(logs);
      HoursSnoc(logs, Locale(n));
      ReadingsEffects(Front(readings), Front(logs), files, h, n, lm, pub, stem);
      hide Hours, InNameOrder;
      EffectsConcat(Flatten(Front(readings)), r, n, lm, pub, stem);
      ReadingEffects(r, l, files[l].data, h, n, lm, pub, stem);
      if l.locale == Locale(n) {
        LaterHour(h, n, lm, pub, stem, Hours(Front(logs), Locale(n)), l.hour);
      } else {
        assert Hours(logs, Locale(n)) == Hours(Front(logs), Locale(n));
        var es := Effects(Flatten(Front(readings)), n, lm, pub, stem);
        assert es + [] == es;
      }
    }
  }

  /** Of the chosen hours' operations, those after a part's time are the operations it lacks. */
  lemma {:induction false} Selected(h: seq<Update>, k: nat, n: PartName, lm: int, pub: string, stem: string,
      hours: set<nat>)
    requires k <= |h| && lm >= -1
    requires forall i :: 0 <= i < k && n in h[i].parts ==> h[i].time <= lm
    requires forall i :: k <= i < |h| && n in h[i].parts ==> h[i].time > lm && HourOf(h[i].time) in hours
    ensures EffectsIn(h, n, lm, pub, stem, hours) == Effects(h[k..], n, -1, pub, stem)
  {
    hide HourOf;
    if k == |h| {
      forall u | u in h ensures !Concerns(u, n, lm, pub, stem) { var i :| 0 <= i < |h| && h[i] == u; }
      NoEffects(h, n, lm, pub, stem, hours);
    } else {
      Selected(Front(h), k, n, lm, pub, stem, hours);
      assert Front(h[k..]) == Front(h)[k..] && Last(h[k..]) == Last(h) == h[|h| - 1];
    }
  }

  // ------------------------------------------------------------- convergence

  /** A part of the copy at time `lm`, after `k` operations: later operations on it
      are later than `lm`, and their hours are among `hours`. */
  ghost predicate Lacks(h: seq<Update>, k: nat, n: PartName, lm: int, hours: set<nat>) {
    && k <= |h| && lm >= -1
    && (forall i :: 0 <= i < k && n in h[i].parts ==> h[i].time <= lm)
    && (forall i :: k <= i < |h| && n in h[i].parts ==> h[i].time > lm && HourOf(h[i].time) in hours)
  }

  lemma Publishers(h: seq<Update>, k: nat)
    requires InOrder(h) && k <= |h|
    ensures forall u :: u in h ==> Publishable(u.f)
    ensures forall u :: u in h[k..] ==> Publishable(u.f)
  {
  }

  lemma {:induction false} ReadingPublishers(ups: seq<Update>)
    ensures forall u :: u in ups ==> u in Project(ups, u.f.pub, u.f.stem)
  {
    if ups != [] {
      assert ups == Front(ups) + [Last(ups)];
      ReadingPublishers(Front(ups));
    }
  }

  lemma {:induction false} NoLogList(h: seq<Update>, l: LogName, pub: string, stem: string)
    requires forall u :: u in h ==> u.f.pub != pub
    ensures LogList(h, l, pub, stem) == []
  {
    hide LoggedIn;
    if h != [] {
      assert h == Front(h) + [Last(h)];
      NoLogList(Front(h), l, pub, stem);
    }
  }

  /** Logs of a tracked history name a publisher in every operation. */
  lemma {:induction false} ReadingsNamed(readings: seq<seq<Update>>, logs: seq<LogName>, files: map<LogName, LogState>,
      h: seq<Update>)
    requires AreReadings(readings, logs, files) && LogsTrack(files, h) && InOrder(h)
    ensures forall u :: u in Flatten(readings) ==> u.f.pub != ""
  {
    if logs != [] {
      assert AreReadings(Front(readings), Front(logs), files);
      ReadingsNamed(Front(readings), Front(logs), files, h);
      var l, r := Last(logs), Last(readings);
      forall u | u in r ensures u.f.pub != "" {
        ReadingPublishers(r);
        Publishers(h, 0);
        NoLogList(h, l, "", u.f.stem);
      }
    }
  }

  lemma {:induction false} ReservedUnread(readings: seq<seq<Update>>, logs: seq<LogName>, files: map<LogName, LogState>,
                                          n: PartName, lm: int, pub: string, stem: string)
    requires AreReadings(readings, logs, files) && Reserved(pub)
    ensures Effects(Flatten(readings), n, lm, pub, stem) == []
  {
    hide Reserved, Concerns, EffectOf;
    if logs != [] {
      assert AreReadings(Front(readings), Front(logs), files);
      ReservedUnread(Front(readings), Front(logs), files, n, lm, pub, stem);
      EffectsConcat(Flatten(Front(readings)), Last(readings), n, lm, pub, stem);
      EffectsProject(Last(readings), n, lm, pub, stem);
    }
  }

  /** One package of one part: replaying the chosen logs and then sorting gives the catalog's version list. */
  lemma PackageConverges(readings: seq<seq<Update>>, logs: seq<LogName>, files: map<LogName, LogState>,
                         h: seq<Update>, k: nat, n: PartName, lm: int, d: PartData, pub: string, stem: string)
    requires AreReadings(readings, logs, files) && LogsTrack(files, h) && InOrder(h) && InNameOrder(logs)
    requires Lacks(h, k, n, lm, Hours(logs, Locale(n))) && Sorted(d) && (Reserved(pub) ==> At(d, pub, stem) == [])
    ensures var raw := Run(At(d, pub, stem), Effects(Flatten(readings), n, lm, pub, stem), false);
            var full := Run(At(d, pub, stem), Effects(h[k..], n, -1, pub, stem), true);
            && (raw.Some? <==> full.Some?)
            && (raw.Some? ==> full.value == if Reserved(pub) then raw.value else StableSort(raw.value))
  {
    Publishers(h, k);
    SortOfAscending(At(d, pub, stem));
    if Reserved(pub) {
      NoEffectsOn(h[k..], n, -1, pub, stem);
      ReservedUnread(readings, logs, files, n, lm, pub, stem);
    } else {
      ReadingsEffects(readings, logs, files, h, n, lm, pub, stem);
      Selected(h, k, n, lm, pub, stem, Hours(logs, Locale(n)));
      SortOnceAtEnd(At(d, pub, stem), Effects(h[k..], n, -1, pub, stem));
    }
  }

  lemma {:induction false} UnpublishedEmpty(h: seq<Update>, n: PartName, pub: string, stem: string)
    requires PartAt(h, n).Ok? && forall u :: u in h ==> u.f.pub != pub && u.f.pub != ""
    ensures At(PartAt(h, n).value, pub, stem) == []
  {
    ReplayByPackage(Empty, n, -1, h, true);
    NoEffectsOn(h, n, -1, pub, stem);
  }

  lemma SortedAgain(held: PartData, x: PartData, target: PartData)
    requires ValidData(x) && NoEmpties(target)
    requires forall p, q :: At(target, p, q) == if Reserved(p) then At(x, p, q) else StableSort(At(x, p, q))
    ensures SortAll(x) == target
  {
    hide At, StableSort, SortAll, NoEmpties;
    SortKeeps(x);
    Extensional(SortAll(x), target);
  }

  /** One part: replaying the chosen logs raises no error and, sorted afterwards,
      makes the copy's part equal to the catalog's. */
  lemma PartConverges(readings: seq<seq<Update>>, logs: seq<LogName>, s: Server,
                      h: seq<Update>, clock: nat, k: nat, n: PartName, lm: int, held: PartData)
    requires Tracks(s, h, clock) && n in s.parts
    requires AreReadings(readings, logs, s.logs) && InNameOrder(logs)
    requires Lacks(h, k, n, lm, Hours(logs, Locale(n))) && PartAt(h[..k], n) == Ok(held)
    ensures Replay(held, n, lm, Flatten(readings), false).Ok?
    ensures SortAll(Replay(held, n, lm, Flatten(readings), false).value) == s.parts[n].data
  {
    hide Effects, Run, At, StableSort, SortAll, IsReading, UpdatesTrack, Hours, InNameOrder;
    var ups, target := Flatten(readings), s.parts[n].data;
    assert h == h[..k] + h[k..];
    ReplayConcat(Empty, n, -1, h[..k], h[k..], true);
    Publishers(h, k);
    ReadingsNamed(readings, logs, s.logs, h);
    EmptyValid();
    ReplayValid(Empty, n, -1, h[..k], true);
    ReplayValid(Empty, n, -1, h, true);
    ReplayByPackage(held, n, lm, ups, false);
    ReplayByPackage(held, n, -1, h[k..], true);
    hide Replay, AreReadings, Lacks, TimesTrack;
    forall p, q
      ensures Run(At(held, p, q), Effects(ups, n, lm, p, q), false).Some?
      ensures At(target, p, q) == var raw := Run(At(held, p, q), Effects(ups, n, lm, p, q), false).value;
                                  if Reserved(p) then raw else StableSort(raw)
    {
      if Reserved(p) { UnpublishedEmpty(h[..k], n, p, q); }
      PackageConverges(readings, logs, s.logs, h, k, n, lm, held, p, q);
      assert Run(At(held, p, q), Effects(h[k..], n, -1, p, q), true) == Some(At(target, p, q));
    }
    ReplayValid(held, n, lm, ups, false);
    SortedAgain(held, Replay(held, n, lm, ups, false).value, target);
  }
}
