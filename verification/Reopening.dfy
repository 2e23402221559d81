/** What becomes of replication when the time of a stale part is recorded: a
    catalog whose parts were last modified between two whole seconds was opened
    again (src/modules/catalog.py, CatalogPartBase.__last_modified and
    Catalog.__log_update). */
module Reopenings {
  import opened Common
  import opened VersionLists
  import opened CatalogParts
  import opened UpdateLogs
  import opened Servers
  import opened Replays
  import opened Histories
  import opened Syncs
  import opened Copies
  import opened Protocol
  import opened Repetitions

  // -------------------------------------------------- copies that were up to date

  /** What is recorded after an operation: some times are renewed, and those of the parts `read` are read again. */
  ghost predicate Records(s: Server, s': Server, u: Update, read: set<PartName>) {
    && Changes(s, s', u)
    && forall n :: n in s.parts && n !in u.parts ==>
         n in s.attrs.parts && s'.attrs.parts[n] == if n in read then s.parts[n].lm else s.attrs.parts[n]
  }

  /** A copy that was up to date is refused exactly when the time of a stale part was recorded. */
  lemma StaleRefused(s: Server, s': Server, h: seq<Update>, clock: nat, u: Update, read: set<PartName>, r: Needs)
    requires Tracks(s, h, clock) && Records(s, s', u, read) && clock < u.time
    requires Answers(r, s.attrs, s'.attrs)
    ensures r.Refused? <==> exists n :: n in read && n !in u.parts && Stale(s, n)
  {
    hide PartsTrack, LogsTrack, UpdatesTrack, InOrder, ReplayStep, LogsWith, UpdatesWith, Changed, NewParts, CanReplay,
      LogsNeeded, InNameOrder;
    assert s.attrs.lm <= clock;
    forall n | n in s.parts
      ensures n in s'.attrs.parts && (s'.attrs.parts[n] < s.attrs.parts[n] <==>
              n in read && n !in u.parts && Stale(s, n))
    {}
  }

  lemma HoldersLogged(s: Server, f: Fmri)
    requires ValidServer(s)
    ensures var entries := EntriesOf(s, f, s.parts.Keys);
            && entries.Keys <= s.parts.Keys
            && (forall n :: n in s.parts ==> (n in entries <==> Holds(s.parts[n].data, f)))
            && (forall n :: n in entries ==> entries[n].version == f.ver)
  {
    hide ValidServer, Holds, EntriesOf;
    var entries := EntriesOf(s, f, s.parts.Keys);
    forall n | n in entries || n in s.parts
      ensures (n in entries <==> n in s.parts && Holds(s.parts[n].data, f))
              && (n in entries ==> entries[n].version == f.ver)
    {
      EntriesOfHolders(s, f, n);
    }
  }

  /** After a removal, exactly when some part that did not hold the package is stale. */
  lemma RemovalRefused(s: Server, h: seq<Update>, clock: nat, f: Fmri, time: nat, r: Needs)
    requires Tracks(s, h, clock) && ValidServer(s) && s.logging && f.pub != "" && clock < time
    requires Answers(r, s.attrs, Removed(s, f, time).attrs)
    ensures r.Refused? <==> exists n :: n in s.parts && !Holds(s.parts[n].data, f) && Stale(s, n)
  {
    hide Tracks, ValidServer, Changes, Advances, Removed, Holds, Answers, EntriesOf, Stale;
    RemovedAdvances(s, f, time);
    ValidKeys(s);
    HoldersLogged(s, f);
    var s', u := Removed(s, f, time), Update(f, REMOVE, time, EntriesOf(s, f, s.parts.Keys));
    assert Records(s, s', u, s.parts.Keys);
    hide Records;
    StaleRefused(s, s', h, clock, u, s.parts.Keys, r);
  }

  /** After an addition, exactly when some open part that the package was not added to is stale. */
  lemma AdditionRefused(s: Server, h: seq<Update>, clock: nat, f: Fmri, entries: map<PartName, Entry>, time: nat,
      now: nat, r: Needs)
    requires Tracks(s, h, clock) && ValidServer(s) && s.logging && f.pub != "" && !Holds(DataOf(s, Base), f)
             && clock < time
    requires Answers(r, s.attrs, Added(s, f, entries, time, now).attrs)
    ensures r.Refused? <==> exists n :: n in s.cached && n !in entries && Stale(s, n)
  {
    hide Tracks, ValidServer, Changes, Advances, Added, Holds, Answers, Stale, DataOf;
    AddedAdvances(s, f, entries, time, now);
    ValidKeys(s);
    var s', u := Added(s, f, entries, time, now), Update(f, ADD, time, entries);
    StaleRefused(s, s', h, clock, u, s.cached, r);
  }

  // ------------------------------------------------------- copies made afterwards

  /** How many operations are not later than `time`. */
  function Until(h: seq<Update>, time: nat): (j: nat)
    ensures j <= |h|
  {
    if h == [] || Last(h).time <= time then |h| else Until(Front(h), time)
  }

  lemma {:induction false} UntilSplits(h: seq<Update>, time: nat)
    requires InOrder(h)
    ensures forall i :: 0 <= i < |h| ==> (h[i].time <= time <==> i < Until(h, time))
  {
    if h != [] && Last(h).time > time { UntilSplits(Front(h), time); }
  }

  lemma HourOfSeconds(x: nat)
    ensures HourOf(x) == x / SECOND / 3600
  {
  }

  lemma SameSecond(x: nat, t: nat)
    requires WholeSecond(t) <= x <= t
    ensures x / SECOND == t / SECOND
  {
  }

  lemma SameHour(x: nat, t: nat)
    requires WholeSecond(t) <= x <= t
    ensures HourOf(x) == HourOf(t)
  {
    HourOfSeconds(x);
    HourOfSeconds(t);
    SameSecond(x, t);
    hide *;
  }

  lemma TimesBefore(s: Server, h: seq<Update>, clock: nat)
    requires TimesTrack(s, h, clock)
    ensures forall i :: 0 <= i < |h| ==> h[i].time <= clock
    ensures forall i, n :: 0 <= i < |h| && n in h[i].parts && n in s.parts ==> h[i].time <= s.attrs.parts[n]
  {
  }

  /** Two operations after another, whatever times are recorded. */
  lemma TwoChanges(s: Server, s1: Server, s2: Server, h: seq<Update>, clock: nat, u1: Update, u2: Update)
    requires Tracks(s, h, clock) && Changes(s, s1, u1) && Changes(s1, s2, u2) && clock < u1.time < u2.time
    requires Publishable(u1.f) && forall n :: n in u1.parts ==> u1.parts[n].version == u1.f.ver
    requires Publishable(u2.f) && forall n :: n in u2.parts ==> u2.parts[n].version == u2.f.ver
    ensures var h2 := h + [u1] + [u2];
            InOrder(h2) && PartsTrack(s1, h + [u1]) && PartsTrack(s2, h2) && LogsTrack(s2.logs, h2)
  {
    hide PartsTrack, LogsTrack, UpdatesTrack, Changes, InOrder, Publishable, TimesTrack;
    assert forall i :: 0 <= i < |h| ==> h[i].time <= clock by { TimesBefore(s, h, clock); }
    PartsAdvance(s, s1, h, u1);
    PartsAdvance(s1, s2, h + [u1], u2);
    LogsAdvance(s, s1, h, u1, clock);
    UpdatesAdvance(s, s1, h, u1, clock, u1.time);
    LogNamesAdvance(s, s1, u1);
    LogsAdvance(s1, s2, h + [u1], u2, u1.time);
    OrderAdvances(h, u1, clock);
    OrderAdvances(h + [u1], u2, u1.time);
  }

  /** The log of an operation is as new as the operation. */
  lemma LoggedNow(s1: Server, s2: Server, u: Update, n: PartName)
    requires Changes(s1, s2, u) && n in u.parts
    ensures var l := LogName(HourOf(u.time), Locale(n));
            l in s2.attrs.updates && s2.attrs.updates[l] == u.time && n in s2.attrs.parts && s2.attrs.parts[n] == u.time
  {
    var l := LogName(HourOf(u.time), Locale(n));
    assert Locale(n) in Locales(u.parts);
    HourLogsAre(u, l);
    assert LoggedIn(u, l);
    hide ReplayStep, LogsWith, HourLogs, LoggedIn, HourOf;
  }

  /** An operation on part `n`, in the hour in which it was last modified before,
      makes a copy that has the part at too early a time read that hour's log once more. */
  lemma HourReadAgain(s1: Server, s2: Server, c: Copy, u2: Update, n: PartName, r: Needs)
    requires Changes(s1, s2, u2) && c.attrs == s1.attrs && n in u2.parts && n in s1.attrs.parts
    requires forall m :: m in s1.attrs.parts ==> s1.attrs.parts[m] < u2.time
    requires Answers(r, c.attrs, s2.attrs) && r.Incremental?
    ensures LogName(HourOf(u2.time), Locale(n)) in r.logs
  {
    hide Changes, InNameOrder, HourOf, NewParts, CanReplay, Locale;
    LoggedNow(s1, s2, u2, n);
    var l := LogName(HourOf(u2.time), Locale(n));
    assert n in Changed(c.attrs, s2.attrs);
    assert l in LogsNeeded(c.attrs, s2.attrs);
  }

  lemma TrackedTimes(s: Server, h: seq<Update>, clock: nat)
    requires Tracks(s, h, clock)
    ensures InOrder(h) && s.parts.Keys == s.attrs.parts.Keys
    ensures forall i, n :: 0 <= i < |h| && n in h[i].parts && n in s.parts ==> h[i].time <= s.attrs.parts[n]
  {
    hide InOrder, PartsTrack, LogsTrack, UpdatesTrack;
  }

  lemma TrackedPart(s: Server, h: seq<Update>, n: PartName)
    requires PartsTrack(s, h) && n in s.parts
    ensures PartAt(h, n) == Ok(s.parts[n].data)
  {
    hide PartAt;
  }

  lemma ChangedHas(s: Server, s': Server, u: Update)
    requires Changes(s, s', u)
    ensures u.parts.Keys <= s'.parts.Keys
  {
    hide ReplayStep, LogsWith, UpdatesWith;
  }

  lemma ReplayedIs(c: Copy, n: PartName, ups: seq<Update>)
    requires n in c.held && n in c.attrs.parts
    ensures Replayed(c, n, ups) == Replay(c.held[n], n, c.attrs.parts[n], ups, false)
  {
  }

  lemma LogsInOrder(r: Needs, own: Attrs, now: Attrs)
    requires Answers(r, own, now)
    ensures r.Incremental? ==> InNameOrder(r.logs)
  {
    hide Changed, NewParts, CanReplay, LogsNeeded, InNameOrder;
  }

  lemma CancellingBefore(us: seq<Update>, u: Update, n: PartName)
    requires n !in u.parts
    ensures Cancelling(us + [u], n) <==> Cancelling(us, n)
  {
    assert Front(us + [u]) == us && Last(us + [u]) == u;
    forall f ensures Operations(us + [u], n, f) == Operations(us, n, f) {}
    if Cancelling(us + [u], n) {
      forall f ensures Operations(us, n, f) % 2 == 0 { assert Operations(us + [u], n, f) % 2 == 0; }
    }
  }

  lemma RepeatedHour(h: seq<Update>, u1: Update, u2: Update, n: PartName, t: nat, j: nat, logs: seq<LogName>)
    requires n !in u1.parts && n in u2.parts && HourOf(u2.time) == HourOf(t) && WholeSecond(t) < u2.time
    requires forall i :: 0 <= i < |h| ==> (h[i].time <= WholeSecond(t) <==> i < j)
    requires j <= |h| && forall i :: 0 <= i < |h| && n in h[i].parts ==> h[i].time <= t
    requires LogName(HourOf(u2.time), Locale(n)) in logs
    ensures Lacks(h + [u1] + [u2], j, n, WholeSecond(t), Hours(logs, Locale(n)))
  {
    var h2 := h + [u1] + [u2];
    hide HourOf, WholeSecond;
    assert HourOf(t) in Hours(logs, Locale(n));
    forall i | j <= i < |h2| && n in h2[i].parts
      ensures h2[i].time > WholeSecond(t) && HourOf(h2[i].time) in Hours(logs, Locale(n))
    {
      if i < |h| { SameHour(h[i].time, t); }
    }
  }

  /** A copy is made after the time of the stale part `n` was recorded with the
      operation `u1`, and the next operation `u2` is on that part and in the hour of
      its last one.  An incremental update then replays what happened on `n` in that
      second once more, and fails exactly when this does not cancel out. */
  lemma FetchedThenFails(s: Server, s1: Server, s2: Server, h: seq<Update>, clock: nat, u1: Update, u2: Update,
                         c: Copy, n: PartName, r: Needs, readings: seq<seq<Update>>)
    requires Tracks(s, h, clock) && Changes(s, s1, u1) && Changes(s1, s2, u2) && clock < u1.time < u2.time
    requires Publishable(u1.f) && forall m :: m in u1.parts ==> u1.parts[m].version == u1.f.ver
    requires Publishable(u2.f) && forall m :: m in u2.parts ==> u2.parts[m].version == u2.f.ver
    requires n in s.parts && n !in u1.parts && n in u2.parts && HourOf(u2.time) == HourOf(s.attrs.parts[n])
    requires n in s1.attrs.parts && s1.attrs.parts[n] == WholeSecond(s.attrs.parts[n])
    requires forall m :: m in s1.attrs.parts ==> s1.attrs.parts[m] < u2.time
    requires c.attrs == s1.attrs && n in c.held && n in s1.parts && c.held[n] == s1.parts[n].data
    requires Answers(r, c.attrs, s2.attrs) && r.Incremental? && AreReadings(readings, r.logs, s2.logs)
    ensures Replayed(c, n, Flatten(readings)).Ok? <==> Cancelling(h[Until(h, WholeSecond(s.attrs.parts[n]))..], n)
  {
    hide *;
    TwoChanges(s, s1, s2, h, clock, u1, u2);
    HourReadAgain(s1, s2, c, u2, n, r);
    TrackedTimes(s, h, clock);
    LogsInOrder(r, c.attrs, s2.attrs);
    var t, h2 := s.attrs.parts[n], h + [u1] + [u2];
    var lm, k := WholeSecond(t), |h| + 1;
    var j := Until(h, lm);
    UntilSplits(h, lm);
    RepeatedHour(h, u1, u2, n, t, j, r.logs);
    ChangedHas(s1, s2, u2);
    TrackedPart(s1, h + [u1], n);
    TrackedPart(s2, h2, n);
    assert h2[..k] == h + [u1] && h2[j..k] == h[j..] + [u1];
    RepeatedReplay(readings, r.logs, s2.logs, h2, j, k, n, lm, c.held[n]);
    CancellingBefore(h[j..], u1, n);
    ReplayedIs(c, n, Flatten(readings));
  }

  // ------------------------------------------------------------ such runs exist

  /** The state after one more package was added. */
  ghost function Adding(a: System, f: Fmri, entries: map<PartName, Entry>, time: nat): System {
    a.(server := Added(a.server, f, entries, time, time), history := a.history + [Update(f, ADD, time, entries)],
      clock := time)
  }

  ghost predicate NoneStale(s: Server) {
    forall n :: !Stale(s, n)
  }

  /** `s'` has the entries added for `f` besides what `s` has. */
  ghost predicate Grew(s: Server, s': Server, f: Fmri, entries: map<PartName, Entry>, time: nat) {
    && s'.parts.Keys == s'.attrs.parts.Keys == s.parts.Keys + entries.Keys
    && (forall n :: n in entries ==> s'.parts[n].lm == s'.attrs.parts[n] == time)
    && (forall n :: n in s.parts && n !in entries ==>
          s'.parts[n] == s.parts[n] && n in s.attrs.parts && s'.attrs.parts[n] == s.attrs.parts[n])
    && (forall n, g :: n in s'.parts ==>
       (Holds(s'.parts[n].data, g) <==> Holds(DataOf(s, n), g) || (g == f && n in entries)))
  }

  lemma AdditionGrows(s: Server, s': Server, f: Fmri, entries: map<PartName, Entry>, time: nat)
    requires time > 0 && Advances(s, s', Update(f, ADD, time, entries))
    ensures Grew(s, s', f, entries, time)
    ensures NoneStale(s) ==> NoneStale(s')
  {
    hide Holds, AddTo, LogsWith, UpdatesWith;
    forall n, g | n in s'.parts
      ensures Holds(s'.parts[n].data, g) <==> Holds(DataOf(s, n), g) || (g == f && n in entries)
    {
      if n in entries { HoldsAfterAdd(DataOf(s, n), f, entries[n], true, g); }
    }
    if NoneStale(s) {
      forall n ensures !Stale(s', n) { assert !Stale(s, n); }
    }
  }

  /** The entries of a package that may be added, for every part that gets one. */
  ghost predicate Entered(f: Fmri, entries: map<PartName, Entry>) {
    Publishable(f) && Base in entries && forall n :: n in entries ==> entries[n].version == f.ver
  }

  lemma AddingStep(a: System, f: Fmri, entries: map<PartName, Entry>, time: nat)
    requires Invariant(a, 0, 0) && Entered(f, entries) && !Holds(DataOf(a.server, Base), f)
    requires NoneStale(a.server) && a.clock < time
    ensures Step(a, AddPackage(f, entries, time, time), Adding(a, f, entries, time))
    ensures Invariant(Adding(a, f, entries, time), 0, 0) && NoneStale(Adding(a, f, entries, time).server)
    ensures Grew(a.server, Adding(a, f, entries, time).server, f, entries, time)
  {
    hide Tracks, ValidServer, CopyTracks, Holds, Added, Changes, Advances, Grew, Stale;
    AddKeepsInvariant(a, Adding(a, f, entries, time), f, entries, time, time, 0, 0);
    AddedAdvances(a.server, f, entries, time, time);
    AdditionGrows(a.server, Adding(a, f, entries, time).server, f, entries, time);
  }

  /** A catalog with two packages, of which the second is not in part `n`. */
  ghost predicate Populated(s: Server, f: Fmri, e1: map<PartName, Entry>, t1: nat, g: Fmri, e2: map<PartName, Entry>,
      t2: nat)
  {
    && s.parts.Keys == s.attrs.parts.Keys == e1.Keys + e2.Keys
    && (forall n :: n in s.parts ==> s.attrs.parts[n] == s.parts[n].lm == if n in e2 then t2 else t1)
    && (forall n, x :: n in s.parts ==> (Holds(s.parts[n].data, x) <==> (x == f && n in e1) || (x == g && n in e2)))
  }

  lemma TwoAdded(s0: Server, s1: Server, s2: Server, f: Fmri, g: Fmri, e1: map<PartName, Entry>,
      e2: map<PartName, Entry>, t1: nat, t2: nat)
    requires Grew(s0, s1, f, e1, t1) && Grew(s1, s2, g, e2, t2) && s0.parts == map[]
    ensures Populated(s2, f, e1, t1, g, e2, t2)
  {
    hide Holds;
    forall x { EmptyHoldsNone(x); }
  }

  lemma FirstStep(a0: System, f: Fmri, e1: map<PartName, Entry>, t1: nat, g: Fmri)
    requires Initial(a0) && a0.clock == 0 && Entered(f, e1) && f != g && 0 < t1
    ensures var a1 := Adding(a0, f, e1, t1);
            && Step(a0, AddPackage(f, e1, t1, t1), a1) && Invariant(a1, 0, 0)
            && NoneStale(a1.server) && !Holds(DataOf(a1.server, Base), g)
            && Grew(a0.server, a1.server, f, e1, t1) && a0.server.parts == map[]
  {
    InitialKeeps(a0);
    EmptyHoldsNone(f);
    EmptyHoldsNone(g);
    assert NoneStale(a0.server);
    hide Invariant, Step, Holds, Added, Publishable, Entered, NoneStale, Stale;
    AddingStep(a0, f, e1, t1);
  }

  lemma SecondStep(a0: System, f: Fmri, e1: map<PartName, Entry>, t1: nat, g: Fmri, e2: map<PartName, Entry>, t2: nat)
    requires Initial(a0) && a0.clock == 0 && Entered(f, e1) && Entered(g, e2) && f != g && 0 < t1 < t2
    ensures var a1 := Adding(a0, f, e1, t1);
            Step(a1, AddPackage(g, e2, t2, t2), Adding(a1, g, e2, t2)) && Invariant(Adding(a1, g, e2, t2), 0, 0)
    ensures Populated(Adding(Adding(a0, f, e1, t1), g, e2, t2).server, f, e1, t1, g, e2, t2)
  {
    FirstStep(a0, f, e1, t1, g);
    var a1 := Adding(a0, f, e1, t1);
    assert a1.clock == t1;
    hide Initial, Invariant, Step, Holds, Added, Publishable, Grew, Entered, NoneStale, Populated;
    AddingStep(a1, g, e2, t2);
    TwoAdded(a0.server, a1.server, Adding(a1, g, e2, t2).server, f, g, e1, e2, t1, t2);
  }

  /** Two packages were added, a copy was made, and the catalog was opened again. */
  ghost predicate OpenedAgain(a: System, f: Fmri, e1: map<PartName, Entry>, t1: nat, g: Fmri, e2: map<PartName, Entry>,
      t2: nat)
  {
    && Tracks(a.server, a.history, t2) && ValidServer(a.server) && a.server.logging && a.copy.attrs == a.server.attrs
    && a.history == [Update(f, ADD, t1, e1), Update(g, ADD, t2, e2)]
    && a.server.parts.Keys == a.server.attrs.parts.Keys == e1.Keys + e2.Keys
    && (forall n :: n in a.server.parts ==>
          && a.server.attrs.parts[n] == (if n in e2 then t2 else t1)
          && a.server.parts[n].lm == WholeSecond(if n in e2 then t2 else t1))
    && (forall n, x :: n in a.server.parts ==>
       (Holds(a.server.parts[n].data, x) <==> (x == f && n in e1) || (x == g && n in e2)))
  }

  lemma AddingIs(a: System, f: Fmri, entries: map<PartName, Entry>, time: nat)
    ensures Adding(a, f, entries, time).clock == time
    ensures Adding(a, f, entries, time).history == a.history + [Update(f, ADD, time, entries)]
    ensures Initial(a) ==> a.history == []
  {
    hide Added;
  }

  lemma ReopenedParts(s: Server, h: seq<Update>, clock: nat, f: Fmri, e1: map<PartName, Entry>, t1: nat, g: Fmri,
      e2: map<PartName, Entry>, t2: nat)
    requires Tracks(s, h, clock) && ValidServer(s) && Populated(s, f, e1, t1, g, e2, t2)
    ensures var w := Reopened(s);
            && Tracks(w, h, clock) && ValidServer(w) && w.attrs == s.attrs && w.logging == s.logging
               && w.parts.Keys == s.parts.Keys
            && (forall n :: n in s.parts ==> w.parts[n] == PartState(s.parts[n].data, WholeSecond(s.parts[n].lm)))
            && (forall n :: Stale(w, n) <==> n in s.parts && (if n in e2 then t2 else t1) % SECOND != 0)
  {
    ReopenedTracks(s, h, clock);
    ReopenedValid(s);
    ReopenedSame(s);
    hide Tracks, ValidServer, Reopened, Stale;
  }

  lemma FetchedAndOpened(a: System, f: Fmri, e1: map<PartName, Entry>, t1: nat, g: Fmri, e2: map<PartName, Entry>,
      t2: nat)
    requires Tracks(a.server, a.history, t2) && ValidServer(a.server) && a.server.logging
    requires a.history == [Update(f, ADD, t1, e1), Update(g, ADD, t2, e2)] && Populated(a.server, f, e1, t1, g, e2, t2)
    ensures OpenedAgain(a.(copy := FirstCopy(a.server), server := Reopened(a.server)), f, e1, t1, g, e2, t2)
  {
    hide Tracks, ValidServer, Reopened, Stale, Holds;
    ReopenedParts(a.server, a.history, t2, f, e1, t1, g, e2, t2);
  }

  lemma FetchStep(a: System)
    ensures Step(a, Fetch, a.(copy := FirstCopy(a.server)))
  {
  }

  lemma ReopenStep(a: System)
    ensures Step(a, Reopen, a.(server := Reopened(a.server)))
  {
  }

  lemma InvariantSays(a: System, k: nat, asof: nat)
    requires Invariant(a, k, asof)
    ensures Tracks(a.server, a.history, a.clock) && ValidServer(a.server) && a.server.logging
  {
  }

  /** Such a run. */
  lemma RunTo(a0: System, f: Fmri, e1: map<PartName, Entry>, t1: nat, g: Fmri, e2: map<PartName, Entry>, t2: nat)
      returns (a1: System, a2: System, a3: System, a4: System)
    requires Initial(a0) && a0.clock == 0 && Entered(f, e1) && Entered(g, e2) && f != g && 0 < t1 < t2
    ensures Step(a0, AddPackage(f, e1, t1, t1), a1) && Step(a1, AddPackage(g, e2, t2, t2), a2)
    ensures Step(a2, Fetch, a3) && Step(a3, Reopen, a4) && OpenedAgain(a4, f, e1, t1, g, e2, t2)
  {
    hide *;
    FirstStep(a0, f, e1, t1, g);
    SecondStep(a0, f, e1, t1, g, e2, t2);
    a1 := Adding(a0, f, e1, t1);
    a2 := Adding(a1, g, e2, t2);
    AddingIs(a0, f, e1, t1);
    AddingIs(a1, g, e2, t2);
    FetchStep(a2);
    a3 := a2.(copy := FirstCopy(a2.server));
    ReopenStep(a3);
    a4 := a3.(server := Reopened(a3.server));
    InvariantSays(a2, 0, 0);
    FetchedAndOpened(a2, f, e1, t1, g, e2, t2);
  }

  /** Of the two packages, the first is in a part that the second is not in.  When the
      second is removed now, the copy is refused exactly when there is such a part and
      the first was added between two whole seconds. */
  lemma RefusedRun(a0: System, f: Fmri, e1: map<PartName, Entry>, t1: nat, g: Fmri, e2: map<PartName, Entry>, t2: nat,
                   time: nat, r: Needs) returns (a1: System, a2: System, a3: System, a4: System)
    requires Initial(a0) && a0.clock == 0 && Entered(f, e1) && Entered(g, e2) && f != g && 0 < t1 < t2 < time
    ensures Step(a0, AddPackage(f, e1, t1, t1), a1) && Step(a1, AddPackage(g, e2, t2, t2), a2)
    ensures Step(a2, Fetch, a3) && Step(a3, Reopen, a4)
    ensures Answers(r, a4.copy.attrs, Removed(a4.server, g, time).attrs) ==>
              (r.Refused? <==> t1 % SECOND != 0 && exists n :: n in e1 && n !in e2)
  {
    a1, a2, a3, a4 := RunTo(a0, f, e1, t1, g, e2, t2);
    var s := a4.server;
    assert Holds(s.parts[Base].data, g);
    hide Initial, Step, Holds, Tracks, ValidServer, Removed, Answers;
    if Answers(r, a4.copy.attrs, Removed(s, g, time).attrs) {
      RemovalRefused(s, a4.history, t2, g, time, r);
      assert forall n :: n in s.parts ==> (n in e1 && n !in e2 <==> !Holds(s.parts[n].data, g));
    }
  }

  /** An update in the hour in which all of the changed parts were last modified is incremental. */
  lemma SameHourReplays(s1: Server, s2: Server, u2: Update, r: Needs)
    requires Advances(s1, s2, u2) && s1.attrs.parts.Keys == s1.parts.Keys && s1.attrs.lm < u2.time
    requires u2.parts != map[] && u2.parts.Keys <= s1.parts.Keys
    requires forall m :: m in u2.parts ==> s1.attrs.parts[m] < u2.time && HourOf(s1.attrs.parts[m]) == HourOf(u2.time)
    requires Answers(r, s1.attrs, s2.attrs)
    ensures r.Incremental?
  {
    hide ReplayStep, LogsWith, HourOf, InNameOrder, LogsNeeded;
    var own, now := s1.attrs, s2.attrs;
    assert now.parts.Keys == own.parts.Keys;
    assert NewParts(own, now) == {};
    forall m | m in Changed(own, now) ensures LogFor(own, m) in now.updates {
      assert m in u2.parts && Locale(m) in Locales(u2.parts);
      HourLogsAre(u2, LogFor(own, m));
    }
    var m :| m in u2.parts;
    assert m in Changed(own, now);
  }

  lemma AllRead(s: Server, s1: Server, u: Update)
    requires Changes(s, s1, u) && u.parts.Keys <= s.parts.Keys
    requires forall n :: n in s.parts && n !in u.parts && n in s1.attrs.parts ==> s1.attrs.parts[n] == s.parts[n].lm
    ensures s1.parts.Keys == s1.attrs.parts.Keys == s.parts.Keys && s1.attrs.lm == u.time && NoneStale(s1)
    ensures forall n :: n in u.parts ==> s1.attrs.parts[n] == u.time
  {
    hide ReplayStep, LogsWith, UpdatesWith;
    assert s1.parts.Keys == s.parts.Keys;
    forall n ensures !Stale(s1, n) {}
  }

  /** After a removal nothing is stale any more, for better or worse. */
  lemma RemovedTimes(s: Server, f: Fmri, time: nat)
    requires ValidServer(s) && s.logging && f.pub != ""
    ensures var s1, u := Removed(s, f, time), Update(f, REMOVE, time, EntriesOf(s, f, s.parts.Keys));
            && ValidServer(s1) && s1.logging && Changes(s, s1, u)
               && s1.parts.Keys == s1.attrs.parts.Keys == s.parts.Keys
            && s1.attrs.lm == time && NoneStale(s1) && (forall n :: n in u.parts ==> u.parts[n].version == f.ver)
            && (forall n :: n in s.parts ==>
                  && (n in u.parts <==> Holds(s.parts[n].data, f))
                  && s1.attrs.parts[n] == if Holds(s.parts[n].data, f) then time else s.parts[n].lm)
  {
    hide ValidServer, Removed, Holds, EntriesOf, Changes, Advances, NoneStale, Stale;
    RemovedAdvances(s, f, time);
    RemovedValid(s, f, time);
    AddedLogging(s, f, map[], time, time);
    HoldersLogged(s, f);
    ValidKeys(s);
    AllRead(s, Removed(s, f, time), Update(f, REMOVE, time, EntriesOf(s, f, s.parts.Keys)));
  }

  lemma RemovedParts(s: Server, f: Fmri, time: nat)
    ensures Removed(s, f, time).parts == s.parts + States(RemoveResults(s, f, s.parts.Keys), time)
  {
    hide RemoveResults, States, LogsWith, UpdatesWith, Stems, Fmris, EntriesOf;
  }

  lemma RemovedBase(s: Server, f: Fmri, time: nat, x: Fmri)
    requires ValidServer(s) && f.pub != "" && Base in s.parts
    ensures Holds(DataOf(Removed(s, f, time), Base), x) <==> Holds(s.parts[Base].data, x) && x != f
  {
    RemovedHolds(s, f, time, Base, x);
    RemovedParts(s, f, time);
    hide ValidServer, Removed, Holds;
  }

  /** The state after the removal and after the third addition. */
  lemma ThirdAdded(a: System, f: Fmri, e1: map<PartName, Entry>, t1: nat, g: Fmri, e2: map<PartName, Entry>, t2: nat,
                   time: nat, x: Fmri, e3: map<PartName, Entry>, t3: nat)
    requires OpenedAgain(a, f, e1, t1, g, e2, t2) && Entered(g, e2) && Entered(x, e3) && x != f && f != g
    ensures var s := a.server;
            var s1, u1, u2 := Removed(s, g, time), Update(g, REMOVE, time, EntriesOf(s, g, s.parts.Keys)),
              Update(x, ADD, t3, e3);
            && Tracks(s, a.history, t2) && Publishable(g) && Publishable(x)
            && Changes(s, s1, u1) && (forall m :: m in u1.parts ==> u1.parts[m].version == g.ver)
            && a.history == [Update(f, ADD, t1, e1), Update(g, ADD, t2, e2)]
            && Changes(s1, Added(s1, x, e3, t3, t3), u2) && Advances(s1, Added(s1, x, e3, t3, t3), u2)
               && (forall m :: m in e3 ==> e3[m].version == x.ver)
            && s1.parts.Keys == s1.attrs.parts.Keys == s.parts.Keys == s.attrs.parts.Keys == e1.Keys + e2.Keys
               && s1.attrs.lm == time
            && (forall m :: m in s.parts ==>
                  && s.attrs.parts[m] == (if m in e2 then t2 else t1) && (m in u1.parts <==> m in e2)
                  && s1.attrs.parts[m] == if m in e2 then time else WholeSecond(t1))
  {
    var s, s1 := a.server, Removed(a.server, g, time);
    assert Base in s.parts;
    RemovedTimes(s, g, time);
    RemovedBase(s, g, time, x);
    forall m | m in s.parts ensures Holds(s.parts[m].data, g) <==> m in e2 {}
    hide Tracks, ValidServer, Removed, Holds, Changes, Advances, EntriesOf, WholeSecond, Publishable;
    AddedAdvances(s1, x, e3, t3, t3);
  }

  lemma WithinHour(t1: nat, time: nat, t3: nat)
    requires t1 < time < t3 && HourOf(t1) == HourOf(t3)
    ensures HourOf(time) == HourOf(t3) && HourOf(WholeSecond(t1)) == HourOf(t3) && WholeSecond(t1) <= t1
  {
    HourMonotone(t1, time);
    HourMonotone(time, t3);
    SameHour(WholeSecond(t1), t1);
  }

  /** The first addition is the only operation on its package since its second began. */
  lemma OddlyAdded(f: Fmri, e1: map<PartName, Entry>, t1: nat, g: Fmri, e2: map<PartName, Entry>, t2: nat, n: PartName)
    requires t1 < t2 && t1 % SECOND != 0 && f != g && n in e1
    ensures var h := [Update(f, ADD, t1, e1), Update(g, ADD, t2, e2)];
            !Cancelling(h[Until(h, WholeSecond(t1))..], n)
  {
    var u1, u2 := Update(f, ADD, t1, e1), Update(g, ADD, t2, e2);
    var h := [u1, u2];
    assert Front(h) == [u1] && Front([u1]) == [] && Last(h) == u2 && Last([u1]) == u1;
    assert Until([], WholeSecond(t1)) == 0;
    assert Until([u1], WholeSecond(t1)) == 0;
    assert h[0..] == h;
    assert Operations([], n, f) == 0;
    assert Operations([u1], n, f) == 1;
    assert Operations(h, n, f) == 1;
  }

  lemma NotReplayed(c: Copy, s: Server, r: Needs, readings: seq<seq<Update>>, n: PartName)
    requires r.Incremental? && n in c.held && n in c.attrs.parts && Replayed(c, n, Flatten(readings)).Err?
    ensures Outcome(c, s, r, readings).None?
  {
    hide Replayed, Finish, Flatten;
  }

  lemma FirstHas(s: Server, n: PartName)
    requires n in s.parts && Locale(n) == "C"
    ensures var c := FirstCopy(s); c.attrs == s.attrs && n in c.held && c.held[n] == s.parts[n].data
  {
  }

  lemma FailsAfter(a: System, f: Fmri, e1: map<PartName, Entry>, t1: nat, g: Fmri, e2: map<PartName, Entry>, t2: nat,
                   time: nat, x: Fmri, e3: map<PartName, Entry>, t3: nat, n: PartName, r: Needs,
                     readings: seq<seq<Update>>)
    requires OpenedAgain(a, f, e1, t1, g, e2, t2) && Entered(f, e1) && Entered(g, e2) && Entered(x, e3) && f != g
             && x != f
    requires 0 < t1 < t2 < time < t3 && HourOf(t1) == HourOf(t3) && t1 % SECOND != 0
    requires n in e1 && n !in e2 && n in e3 && Locale(n) == "C" && e3.Keys <= e1.Keys
    ensures var s1 := Removed(a.server, g, time);
            var c, s2 := FirstCopy(s1), Added(s1, x, e3, t3, t3);
            Answers(r, c.attrs, s2.attrs) ==>
              r.Incremental? && (AreReadings(readings, r.logs, s2.logs) ==> Outcome(c, s2, r, readings).None?)
  {
    hide *;
    var s, s1 := a.server, Removed(a.server, g, time);
    var c, s2 := FirstCopy(s1), Added(s1, x, e3, t3, t3);
    var u1, u2 := Update(g, REMOVE, time, EntriesOf(s, g, s.parts.Keys)), Update(x, ADD, t3, e3);
    if Answers(r, c.attrs, s2.attrs) {
      ThirdAdded(a, f, e1, t1, g, e2, t2, time, x, e3, t3);
      WithinHour(t1, time, t3);
      FirstHas(s1, n);
      SameHourReplays(s1, s2, u2, r);
      if AreReadings(readings, r.logs, s2.logs) {
        FetchedThenFails(s, s1, s2, a.history, t2, u1, u2, c, n, r, readings);
        OddlyAdded(f, e1, t1, g, e2, t2, n);
        NotReplayed(c, s2, r, readings, n);
      }
    }
  }

  /** When it is added between two whole seconds, and a copy is made only after the
      removal, the next update of this copy fails in the hour of that addition: a third
      package that goes to such a part makes it add the first a second time. */
  lemma FailingRun(a0: System, f: Fmri, e1: map<PartName, Entry>, t1: nat, g: Fmri, e2: map<PartName, Entry>, t2: nat,
                   time: nat, x: Fmri, e3: map<PartName, Entry>, t3: nat, n: PartName, r: Needs,
                     readings: seq<seq<Update>>)
      returns (a1: System, a2: System, a3: System, a4: System)
    requires Initial(a0) && a0.clock == 0 && Entered(f, e1) && Entered(g, e2) && Entered(x, e3) && f != g && x != f
    requires 0 < t1 < t2 < time < t3 && HourOf(t1) == HourOf(t3) && t1 % SECOND != 0
    requires n in e1 && n !in e2 && n in e3 && Locale(n) == "C" && e3.Keys <= e1.Keys
    ensures Step(a0, AddPackage(f, e1, t1, t1), a1) && Step(a1, AddPackage(g, e2, t2, t2), a2)
    ensures Step(a2, Fetch, a3) && Step(a3, Reopen, a4)
    ensures var s1 := Removed(a4.server, g, time);
            var c, s2 := FirstCopy(s1), Added(s1, x, e3, t3, t3);
            Answers(r, c.attrs, s2.attrs) ==>
              r.Incremental? && (AreReadings(readings, r.logs, s2.logs) ==> Outcome(c, s2, r, readings).None?)
  {
    a1, a2, a3, a4 := RunTo(a0, f, e1, t1, g, e2, t2);
    hide *;
    FailsAfter(a4, f, e1, t1, g, e2, t2, time, x, e3, t3, n, r, readings);
  }
}
