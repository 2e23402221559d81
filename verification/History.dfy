/** A publishing catalog as the outcome of the operations performed on it: what
    its parts, logs and times say about its past (src/modules/catalog.py). */
module Histories {
  import opened Common
  import opened VersionLists
  import opened CatalogParts
  import opened UpdateLogs
  import opened Servers
  import opened Replays

  /** The contents of part `n` after the operations `h`. */
  function PartAt(h: seq<Update>, n: PartName): Result<PartData, CatalogError> {
    Replay(Empty, n, -1, h, true)
  }

  /** A publisher that a package may be published for. */
  predicate Publishable(f: Fmri) {
    f.pub != "" && !Reserved(f.pub)
  }

  /** Operations in the order of their times, each on a named publisher's package
      and with entries for that version. */
  ghost predicate InOrder(h: seq<Update>) {
    && (forall i :: 0 <= i < |h| ==> Publishable(h[i].f) && forall n :: n in h[i].parts ==>
       h[i].parts[n].version == h[i].f.ver)
    && (forall i, j :: 0 <= i < j < |h| ==> h[i].time < h[j].time)
  }

  predicate LoggedIn(u: Update, l: LogName) {
    HourOf(u.time) == l.hour && l.locale in Locales(u.parts)
  }

  /** What a log lists for a package. */
  function LogList(h: seq<Update>, l: LogName, pub: string, stem: string): seq<LogEntry> {
    if h == [] then []
    else
      var u := Last(h);
      LogList(Front(h), l, pub, stem) +
      if LoggedIn(u, l) && u.f.pub == pub && u.f.stem == stem
      then [LogEntry(u.kind, u.time, u.f.ver, OfLocale(u.parts, l.locale))] else []
  }

  /** The time of the last operation, or of the creation. */
  function LastTime(h: seq<Update>, created: nat): nat {
    if h == [] then created else Last(h).time
  }

  // ------------------------------------------------ what the catalog remembers

  ghost predicate PartsTrack(s: Server, h: seq<Update>) {
    && (forall n :: n in s.parts ==> PartAt(h, n) == Ok(s.parts[n].data))
    && (forall i, n :: 0 <= i < |h| && n in h[i].parts ==> n in s.parts)
  }

  ghost predicate LogsTrack(logs: map<LogName, LogState>, h: seq<Update>) {
    forall l, p, s :: l in logs ==> LogAt(logs[l].data, p, s) == LogList(h, l, p, s)
  }

  /** A log is as new as the operations in it; no log is missing between an
      existing one and a later operation of its locale, for logs are dropped oldest
      first; and the log of the current hour has not been dropped. */
  ghost predicate UpdatesTrack(updates: map<LogName, nat>, h: seq<Update>, clock: nat) {
    && (forall i, l :: 0 <= i < |h| && l in updates && LoggedIn(h[i], l) ==> h[i].time <= updates[l])
    && (forall i, l ::
          0 <= i < |h| && l in updates && l.locale in Locales(h[i].parts) && HourOf(h[i].time) >= l.hour ==>
          LogName(HourOf(h[i].time), l.locale) in updates)
    && (forall i, l :: 0 <= i < |h| && l !in updates && LoggedIn(h[i], l) ==> l.hour < HourOf(clock))
  }

  const SECOND: nat := 1_000_000

  /** File times are kept in whole seconds. */
  function WholeSecond(time: nat): nat {
    time - time % SECOND
  }

  /** The time of the part, as its file has it, is not the one recorded for it. */
  predicate Stale(s: Server, n: PartName) {
    n in s.parts && n in s.attrs.parts && s.parts[n].lm != s.attrs.parts[n]
  }

  /** The time recorded for a part covers the operations on it; the part's own may
      have lost its fraction of a second. */
  ghost predicate TimesTrack(s: Server, h: seq<Update>, clock: nat) {
    && s.attrs.parts.Keys == s.parts.Keys
    && (forall n :: n in s.parts ==>
       s.attrs.parts[n] <= clock && (Stale(s, n) ==> s.parts[n].lm == WholeSecond(s.attrs.parts[n])))
    && (forall i, n :: 0 <= i < |h| && n in h[i].parts && n in s.parts ==> h[i].time <= s.attrs.parts[n])
    && s.attrs.lm == LastTime(h, s.attrs.created)
    && s.attrs.created <= clock && (forall i :: 0 <= i < |h| ==> s.attrs.created < h[i].time <= clock)
  }

  ghost predicate Tracks(s: Server, h: seq<Update>, clock: nat) {
    && InOrder(h) && PartsTrack(s, h) && LogsTrack(s.logs, h)
    && s.logs.Keys == s.attrs.updates.Keys && UpdatesTrack(s.attrs.updates, h, clock) && TimesTrack(s, h, clock)
  }

  // ---------------------------------------------------------------- one operation

  /** `s'` has the contents of `s` after the operation `u`. */
  ghost predicate Changes(s: Server, s': Server, u: Update) {
    && s'.parts.Keys == s.parts.Keys + u.parts.Keys
    && (forall n :: n in u.parts ==>
       ReplayStep(DataOf(s, n), n, -1, u, true) == Ok(s'.parts[n].data) && s'.parts[n].lm == u.time)
    && (forall n :: n in s.parts && n !in u.parts ==> s'.parts[n] == s.parts[n])
    && s'.logs == LogsWith(s.logs, u.f, u.kind, u.time, u.parts, Locales(u.parts))
    && s'.attrs.updates == UpdatesWith(s.attrs.updates, u.time, Locales(u.parts))
    && s'.attrs.parts.Keys == s'.parts.Keys
    && (forall n :: n in u.parts ==> s'.attrs.parts[n] == u.time)
    && s'.attrs.lm == u.time && s'.attrs.created == s.attrs.created
  }

  /** `s'` is `s` after the operation `u`, no other part's recorded time renewed. */
  ghost predicate Advances(s: Server, s': Server, u: Update) {
    Changes(s, s', u) && forall n :: n in s.parts && n !in u.parts ==>
      n in s.attrs.parts && s'.attrs.parts[n] == s.attrs.parts[n]
  }

  lemma NotConcerned(d: PartData, n: PartName, u: Update)
    requires n !in u.parts
    ensures ReplayStep(d, n, -1, u, true) == Ok(d)
  {
  }

  lemma {:induction false} Untouched(h: seq<Update>, n: PartName)
    requires forall i :: 0 <= i < |h| ==> n !in h[i].parts
    ensures PartAt(h, n) == Ok(Empty)
  {
    if h != [] {
      Untouched(Front(h), n);
      NotConcerned(Empty, n, Last(h));
    }
  }

  lemma PartsAdvance(s: Server, s': Server, h: seq<Update>, u: Update)
    requires PartsTrack(s, h) && Changes(s, s', u)
    ensures PartsTrack(s', h + [u])
  {
    hide ReplayStep, LogsWith, UpdatesWith;
    assert Front(h + [u]) == h && Last(h + [u]) == u;
    forall n | n in s'.parts ensures PartAt(h + [u], n) == Ok(s'.parts[n].data) {
      if n !in s.parts { Untouched(h, n); }
      if n !in u.parts { NotConcerned(DataOf(s, n), n, u); }
    }
  }

  lemma {:induction false} LogListNone(h: seq<Update>, l: LogName, pub: string, stem: string)
    requires forall i :: 0 <= i < |h| ==> !LoggedIn(h[i], l)
    ensures LogList(h, l, pub, stem) == []
  {
    hide LoggedIn;
    if h != [] { LogListNone(Front(h), l, pub, stem); }
  }

  lemma NothingLogged(p: string, q: string)
    ensures LogAt(EmptyLog, p, q) == []
  {
  }

  lemma HourLogsAre(u: Update, l: LogName)
    ensures l in HourLogs(u.time, Locales(u.parts)) <==> LoggedIn(u, l)
  {
  }

  lemma LogListSnoc(h: seq<Update>, u: Update, l: LogName, p: string, q: string)
    ensures LogList(h + [u], l, p, q) ==
            LogList(h, l, p, q) +
            if LoggedIn(u, l) && u.f.pub == p && u.f.stem == q
            then [LogEntry(u.kind, u.time, u.f.ver, OfLocale(u.parts, l.locale))] else []
  {
    hide LoggedIn, OfLocale;
    assert Front(h + [u]) == h && Last(h + [u]) == u;
  }

  /** One log, which gains the operation if it belongs there. */
  lemma LogAdvances(logs: map<LogName, LogState>, h: seq<Update>, u: Update, l: LogName, p: string, q: string)
    requires l in logs ==> LogAt(logs[l].data, p, q) == LogList(h, l, p, q)
    requires l !in logs ==> LoggedIn(u, l) && forall i :: 0 <= i < |h| ==> !LoggedIn(h[i], l)
    ensures var logs' := LogsWith(logs, u.f, u.kind, u.time, u.parts, Locales(u.parts));
            l in logs' && LogAt(logs'[l].data, p, q) == LogList(h + [u], l, p, q)
  {
    LogListSnoc(h, u, l, p, q);
    HourLogsAre(u, l);
    hide LogList, LoggedIn, LogAt, LogAppend, OfLocale, HourLogs, Locales;
    if LoggedIn(u, l) {
      var before := if l in logs then logs[l].data else EmptyLog;
      LogAtAppend(before, u.f, LogEntry(u.kind, u.time, u.f.ver, OfLocale(u.parts, l.locale)));
      if l !in logs {
        LogListNone(h, l, p, q);
        NothingLogged(p, q);
      }
    }
  }

  lemma LoggedHour(u: Update, l: LogName)
    ensures LoggedIn(u, l) ==> l.hour == HourOf(u.time)
  {
  }

  lemma HourMonotone(a: nat, b: nat)
    requires a <= b
    ensures HourOf(a) <= HourOf(b)
  {
  }

  lemma LogsAdvance(s: Server, s': Server, h: seq<Update>, u: Update, clock: nat)
    requires LogsTrack(s.logs, h) && UpdatesTrack(s.attrs.updates, h, clock) && s.logs.Keys == s.attrs.updates.Keys
    requires clock < u.time && Changes(s, s', u)
    ensures LogsTrack(s'.logs, h + [u])
  {
    hide ReplayStep, OfLocale, LogList, LogAt, LogAppend, LoggedIn;
    forall l, p, q | l in s'.logs ensures LogAt(s'.logs[l].data, p, q) == LogList(h + [u], l, p, q) {
      HourLogsAre(u, l);
      if l !in s.logs {
        HourMonotone(clock, u.time);
        assert LoggedIn(u, l);
        LoggedHour(u, l);
      }
      LogAdvances(s.logs, h, u, l, p, q);
    }
  }

  /** A log that was offered, or would be next, goes with the logs of later operations. */
  lemma StillOffered(updates: map<LogName, nat>, h: seq<Update>, u: Update, clock: nat, i: nat, l: LogName)
    requires UpdatesTrack(updates, h, clock) && clock < u.time && i < |h| && h[i].time <= clock
    requires l.locale in Locales(h[i].parts) && HourOf(h[i].time) >= l.hour
             && (l in updates || HourOf(u.time) == l.hour)
    ensures LogName(HourOf(h[i].time), l.locale) in updates
  {
    HourMonotone(h[i].time, clock);
    HourMonotone(clock, u.time);
    hide HourOf, Locales;
  }

  lemma UpdatesAdvance(s: Server, s': Server, h: seq<Update>, u: Update, clock: nat, clock': nat)
    requires UpdatesTrack(s.attrs.updates, h, clock) && Changes(s, s', u)
    requires clock < u.time <= clock' && forall i :: 0 <= i < |h| ==> h[i].time <= clock
    ensures UpdatesTrack(s'.attrs.updates, h + [u], clock')
  {
    hide ReplayStep, LogsWith, Locales;
    var h', updates' := h + [u], s'.attrs.updates;
    forall l { HourLogsAre(u, l); }
    HourMonotone(clock, clock');
    forall i, l | 0 <= i < |h'| && l in updates' && l.locale in Locales(h'[i].parts) && HourOf(h'[i].time) >= l.hour
      ensures LogName(HourOf(h'[i].time), l.locale) in updates'
    {
      if i < |h| {
        StillOffered(s.attrs.updates, h, u, clock, i, l);
      } else {
        assert LoggedIn(u, LogName(HourOf(u.time), l.locale));
      }
    }
  }

  lemma TimesAdvance(s: Server, s': Server, h: seq<Update>, u: Update, clock: nat, clock': nat)
    requires PartsTrack(s, h) && TimesTrack(s, h, clock) && Advances(s, s', u) && clock < u.time <= clock'
    ensures TimesTrack(s', h + [u], clock')
  {
    hide ReplayStep, LogsWith, UpdatesWith;
  }

  lemma LogNamesAdvance(s: Server, s': Server, u: Update)
    requires Changes(s, s', u) && s.logs.Keys == s.attrs.updates.Keys
    ensures s'.logs.Keys == s'.attrs.updates.Keys
  {
    hide LogStep, ReplayStep;
  }

  lemma OrderAdvances(h: seq<Update>, u: Update, clock: nat)
    requires InOrder(h) && (forall i :: 0 <= i < |h| ==> h[i].time <= clock) && clock < u.time
    requires Publishable(u.f) && forall n :: n in u.parts ==> u.parts[n].version == u.f.ver
    ensures InOrder(h + [u])
  {
    hide Publishable;
  }

  /** An operation carried out at a new time is remembered with the earlier ones. */
  lemma Advance(s: Server, s': Server, h: seq<Update>, u: Update, clock: nat, clock': nat)
    requires Tracks(s, h, clock) && Advances(s, s', u) && clock < u.time <= clock'
    requires Publishable(u.f) && forall n :: n in u.parts ==> u.parts[n].version == u.f.ver
    ensures Tracks(s', h + [u], clock')
  {
    hide PartsTrack, LogsTrack, UpdatesTrack, ReplayStep, LogsWith, UpdatesWith, InOrder;
    PartsAdvance(s, s', h, u);
    LogsAdvance(s, s', h, u, clock);
    UpdatesAdvance(s, s', h, u, clock, clock');
    TimesAdvance(s, s', h, u, clock, clock');
    OrderAdvances(h, u, clock);
    LogNamesAdvance(s, s', u);
  }

  // ------------------------------------------------------------ the operations

  /** Logging an operation that gave `w` its parts. */
  lemma LoggedChanges(s: Server, w: Server, u: Update)
    requires s.logging && w.logging && w.logs == s.logs && w.attrs.updates == s.attrs.updates
             && w.attrs.created == s.attrs.created
    requires w.parts.Keys == s.parts.Keys + u.parts.Keys == w.attrs.parts.Keys && u.parts.Keys <= w.cached
    requires forall n :: n in u.parts ==>
             ReplayStep(DataOf(s, n), n, -1, u, true) == Ok(w.parts[n].data) && w.parts[n].lm == u.time
    requires forall n :: n in s.parts && n !in u.parts ==> w.parts[n] == s.parts[n]
    ensures var s' := Logged(w, u.f, u.kind, u.time, u.parts);
            && Changes(s, s', u)
            && forall n :: n in s.parts && n !in u.parts ==>
                 s'.attrs.parts[n] == if n in w.cached then s.parts[n].lm else w.attrs.parts[n]
  {
    hide ReplayStep, LogsWith, UpdatesWith, Stems, Fmris;
  }

  lemma AddedPart(s: Server, f: Fmri, entries: map<PartName, Entry>, time: nat, now: nat, n: PartName)
    ensures var w, u := WithResults(s, AddResults(s, f, entries), time, now), Update(f, ADD, time, entries);
            && (n in AddResults(s, f, entries) ==> n in w.parts && n in entries && w.parts[n].lm == time)
            && (n in AddResults(s, f, entries) ==> ReplayStep(DataOf(s, n), n, -1, u, true) == Ok(w.parts[n].data))
            && (n in s.parts && n !in AddResults(s, f, entries) ==> n in w.parts && w.parts[n] == s.parts[n])
            && (n in s.attrs.parts ==> n in w.attrs.parts && w.attrs.parts[n] == s.attrs.parts[n])
  {
    hide AddTo;
  }

  lemma AddedRest(s: Server, f: Fmri, entries: map<PartName, Entry>, time: nat, now: nat)
    ensures var w := WithResults(s, AddResults(s, f, entries), time, now);
            && w.logging == s.logging && w.logs == s.logs && w.attrs.updates == s.attrs.updates
               && w.attrs.created == s.attrs.created
            && w.parts.Keys == s.parts.Keys + AddResults(s, f, entries).Keys
            && w.attrs.parts.Keys == s.attrs.parts.Keys + AddResults(s, f, entries).Keys
            && w.cached == s.cached + AddResults(s, f, entries).Keys
  {
    hide AddResults;
  }

  /** What an addition does to the catalog is its logged operation.  The times of
      the other parts stay as recorded exactly when none that is open is stale. */
  lemma AddedAdvances(s: Server, f: Fmri, entries: map<PartName, Entry>, time: nat, now: nat)
    requires ValidServer(s) && s.logging && f.pub != "" && !Holds(DataOf(s, Base), f)
    ensures var s', u := Added(s, f, entries, time, now), Update(f, ADD, time, entries);
            && Changes(s, s', u)
            && (forall n :: n in s.parts && n !in entries ==>
                  s'.attrs.parts[n] == if n in s.cached then s.parts[n].lm else s.attrs.parts[n])
            && (Advances(s, s', u) <==> forall n :: n in s.cached && n !in entries ==> !Stale(s, n))
  {
    hide ValidServer, AddTo, Logged, Holds, WithResults, AddResults, Changes;
    AddAllowed(s, f, entries);
    ValidKeys(s);
    var w, u := WithResults(s, AddResults(s, f, entries), time, now), Update(f, ADD, time, entries);
    forall n { AddedPart(s, f, entries, time, now, n); }
    AddedRest(s, f, entries, time, now);
    LoggedChanges(s, w, u);
    assert forall n :: n in s.parts ==> n in s.attrs.parts;
  }

  lemma EntriesOfHolders(s: Server, f: Fmri, n: PartName)
    requires ValidServer(s)
    ensures n in EntriesOf(s, f, s.parts.Keys) <==> n in s.parts && Holds(s.parts[n].data, f)
    ensures f.pub != "" ==> (n in EntriesOf(s, f, s.parts.Keys) <==> n in RemoveResults(s, f, s.parts.Keys))
    ensures n in EntriesOf(s, f, s.parts.Keys) ==> EntriesOf(s, f, s.parts.Keys)[n].version == f.ver
  {
    hide ValidServer, RemoveFrom, Holds;
    if n in s.parts {
      LookupHolds(s, f, n);
      FindHas(At(s.parts[n].data, f.pub, f.stem), f.ver);
    }
  }

  lemma RemovedPart(s: Server, f: Fmri, time: nat, n: PartName)
    requires ValidServer(s) && f.pub != ""
    ensures var parts', u := s.parts + States(RemoveResults(s, f, s.parts.Keys), time),
            Update(f, REMOVE, time, EntriesOf(s, f, s.parts.Keys));
            if n in u.parts then
              n in parts' && n in s.parts && ReplayStep(DataOf(s, n), n, -1, u, true) == Ok(parts'[n].data)
                && parts'[n].lm == time
            else n in s.parts ==> n in parts' && parts'[n] == s.parts[n]
  {
    hide RemoveFrom, EntriesOf, ValidServer;
    EntriesOfHolders(s, f, n);
  }

  /** What a removal does is its logged operation.  As it opens every part, the other
      times stay as recorded exactly when no part without the package is stale. */
  lemma RemovedAdvances(s: Server, f: Fmri, time: nat)
    requires ValidServer(s) && s.logging && f.pub != ""
    ensures var s', u := Removed(s, f, time), Update(f, REMOVE, time, EntriesOf(s, f, s.parts.Keys));
            && Changes(s, s', u)
            && (forall n :: n in s.parts && !Holds(s.parts[n].data, f) ==> s'.attrs.parts[n] == s.parts[n].lm)
            && (Advances(s, s', u) <==> forall n :: n in s.parts && !Holds(s.parts[n].data, f) ==> !Stale(s, n))
  {
    hide ValidServer, RemoveFrom, Logged, Holds, EntriesOf, RemoveResults, Changes;
    ValidKeys(s);
    RemovedKeys(s, f, time);
    var w := s.(parts := s.parts + States(RemoveResults(s, f, s.parts.Keys), time), cached := s.parts.Keys);
    var u := Update(f, REMOVE, time, EntriesOf(s, f, s.parts.Keys));
    forall n { RemovedPart(s, f, time, n); }
    forall n | n in s.parts ensures n in u.parts <==> Holds(s.parts[n].data, f) { EntriesOfHolders(s, f, n); }
    LoggedChanges(s, w, u);
    assert forall n :: n in s.parts ==> n in s.attrs.parts;
  }

  /** The logs of a locale from before some hour are dropped. */
  ghost function Dropped(s: Server, locale: string, hour: nat): Server {
    s.(logs := map l | l in s.logs && !(l.locale == locale && l.hour < hour) :: s.logs[l],
       attrs := s.attrs.(updates := map l | l in s.attrs.updates && !(l.locale == locale && l.hour < hour) ::
         s.attrs.updates[l]))
  }

  lemma DroppedTracks(s: Server, h: seq<Update>, clock: nat, locale: string, hour: nat)
    requires Tracks(s, h, clock) && hour <= HourOf(clock)
    ensures Tracks(Dropped(s, locale, hour), h, clock)
  {
    hide InOrder, LogList, LogAt, LoggedIn, PartAt, Locales;
  }

  /** The catalog opened again by another process: parts take their time from their files. */
  ghost function Reopened(s: Server): Server {
    s.(parts := map n | n in s.parts :: PartState(s.parts[n].data, WholeSecond(s.parts[n].lm)), cached := {},
       logs := map l | l in s.logs :: LogState(s.logs[l].data, WholeSecond(s.logs[l].lm)))
  }

  /** Opening the catalog again does no harm of itself.  It makes stale every part
      that was last modified between two whole seconds. */
  lemma ReopenedTracks(s: Server, h: seq<Update>, clock: nat)
    requires Tracks(s, h, clock)
    ensures Tracks(Reopened(s), h, clock)
    ensures forall n :: Stale(Reopened(s), n) <==> n in s.parts && s.attrs.parts[n] % SECOND != 0
  {
    hide InOrder, LogList, LogAt, LoggedIn, PartAt, UpdatesTrack;
    var s' := Reopened(s);
    assert PartsTrack(s', h);
    assert LogsTrack(s'.logs, h);
    forall n | n in s.parts ensures s'.parts[n].lm == WholeSecond(s.attrs.parts[n]) {}
  }

  /** Saving records nothing new unless a stale part is open. */
  lemma SavedSame(s: Server)
    requires s.attrs.parts.Keys == s.parts.Keys
    ensures Saved(s) == s <==> forall n :: n in s.cached ==> !Stale(s, n)
  {
    if Saved(s) == s {
      forall n | n in s.cached ensures !Stale(s, n) {
        if n in s.parts { assert Saved(s).attrs.parts[n] == s.parts[n].lm; }
      }
    } else {
      assert Saved(s).attrs.parts != s.attrs.parts;
      assert exists n :: n in s.attrs.parts && Saved(s).attrs.parts[n] != s.attrs.parts[n];
    }
  }

  lemma UpdatesLater(updates: map<LogName, nat>, h: seq<Update>, clock: nat, now: nat)
    requires UpdatesTrack(updates, h, clock) && clock <= now
    ensures UpdatesTrack(updates, h, now)
  {
    HourMonotone(clock, now);
    hide HourOf, LoggedIn, Locales;
  }

  /** A refused addition may leave behind an empty base part. */
  lemma GotPartTracks(s: Server, h: seq<Update>, clock: nat, now: nat)
    requires Tracks(s, h, clock) && clock <= now
    ensures Tracks(GotPart(s, Base, now), h, now)
  {
    hide InOrder, LogsTrack, UpdatesTrack, PartAt;
    if Base !in s.parts { Untouched(h, Base); }
    UpdatesLater(s.attrs.updates, h, clock, now);
  }

  lemma OpenedTracks(s: Server, h: seq<Update>, clock: nat, names: set<PartName>)
    requires Tracks(s, h, clock)
    ensures Tracks(s.(cached := s.cached + names), h, clock)
  {
    hide InOrder, LogsTrack, PartAt, UpdatesTrack;
  }
}
