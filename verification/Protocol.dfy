/** The replication protocol between a publishing catalog and a copy of it, over
    whole runs (src/modules/catalog.py; src/modules/client/publisher.py). */
module Protocol {
  import opened Common
  import opened VersionLists
  import opened CatalogParts
  import opened UpdateLogs
  import opened Servers
  import opened Replays
  import opened Histories
  import opened Syncs
  import opened Copies

  /** `c` was last brought up to date at the time `asof`, after `k` operations. */
  ghost predicate CopyTracks(c: Copy, s: Server, h: seq<Update>, k: nat, asof: nat) {
    && k <= |h| && c.attrs.created == s.attrs.created && c.attrs.lm == LastTime(h[..k], c.attrs.created)
    && (forall i :: k <= i < |h| ==> h[i].time > asof)
    && (forall n :: n in c.attrs.parts ==> n in s.parts && n in s.attrs.parts && c.attrs.parts[n] <= asof)
    && (forall i, n :: 0 <= i < k && n in h[i].parts ==> n in c.attrs.parts && h[i].time <= c.attrs.parts[n])
    && (forall n :: n in c.attrs.parts && (forall i :: k <= i < |h| ==> n !in h[i].parts) ==>
       s.attrs.parts[n] == c.attrs.parts[n])
    && (forall n :: n in c.held ==> n in c.attrs.parts && PartAt(h[..k], n) == Ok(c.held[n]))
  }

  // ------------------------------------------------------------------ one sync

  /** Parts without later operations have not changed. */
  lemma {:induction false} NoLaterOperations(h: seq<Update>, k: nat, n: PartName)
    requires k <= |h| && forall i :: k <= i < |h| ==> n !in h[i].parts
    ensures PartAt(h, n) == PartAt(h[..k], n)
  {
    if k < |h| {
      NoLaterOperations(Front(h), k, n);
      assert Front(h)[..k] == h[..k];
    } else {
      assert h[..k] == h;
    }
  }

  /** Which parts the times single out: exactly those with later operations. */
  lemma ChangedParts(c: Copy, s: Server, h: seq<Update>, clock: nat, k: nat, asof: nat, n: PartName)
    requires Tracks(s, h, clock) && CopyTracks(c, s, h, k, asof) && n in c.attrs.parts
    ensures n in Changed(c.attrs, s.attrs) <==> exists i :: k <= i < |h| && n in h[i].parts
    ensures s.attrs.parts[n] >= c.attrs.parts[n]
  {
    hide InOrder, PartsTrack, LogsTrack, UpdatesTrack, PartAt, LastTime;
    if i :| k <= i < |h| && n in h[i].parts {
      assert h[i].time <= s.attrs.parts[n] && asof < h[i].time;
    }
  }

  /** The log of an operation is offered, and as new as the operation, when an earlier one of its locale is. */
  lemma LogOffered(updates: map<LogName, nat>, h: seq<Update>, clock: nat, i: nat, n: PartName, earlier: LogName)
    requires UpdatesTrack(updates, h, clock) && i < |h| && n in h[i].parts
    requires earlier in updates && earlier.locale == Locale(n) && HourOf(h[i].time) >= earlier.hour
    ensures var l := LogName(HourOf(h[i].time), Locale(n)); l in updates && h[i].time <= updates[l]
  {
    hide HourOf;
    assert Locale(n) in Locales(h[i].parts);
    assert LoggedIn(h[i], LogName(HourOf(h[i].time), Locale(n)));
  }

  lemma ChangedIsHeld(own: Attrs, now: Attrs, m: PartName)
    ensures m in Changed(own, now) ==> m in own.parts
  {
  }

  /** When logs are offered at all, the log of a later operation on a changed part is among them. */
  lemma LaterOperationOffered(c: Copy, s: Server, h: seq<Update>, clock: nat, k: nat, asof: nat, n: PartName, i: nat)
    requires Tracks(s, h, clock) && CopyTracks(c, s, h, k, asof) && n in c.attrs.parts
    requires CanReplay(c.attrs, s.attrs) && k <= i < |h| && n in h[i].parts
    ensures LogName(HourOf(h[i].time), Locale(n)) in LogsNeeded(c.attrs, s.attrs)
  {
    hide InOrder, PartsTrack, LogsTrack, TimesTrack, UpdatesTrack, PartAt, LastTime, NewParts, Changed, HourOf;
    ChangedParts(c, s, h, clock, k, asof, n);
    var l := LogName(HourOf(h[i].time), Locale(n));
    assert LogFor(c.attrs, n) in s.attrs.updates;
    HourMonotone(c.attrs.parts[n], h[i].time);
    LogOffered(s.attrs.updates, h, clock, i, n, LogFor(c.attrs, n));
    forall m | m in Changed(c.attrs, s.attrs)
      ensures m in c.attrs.parts && c.attrs.parts[m] <= asof
    { ChangedIsHeld(c.attrs, s.attrs, m); }
  }

  /** The logs offered hold every operation that a part of the copy lacks. */
  lemma ChosenLogsSuffice(c: Copy, s: Server, h: seq<Update>, clock: nat, k: nat, asof: nat, n: PartName,
      logs: seq<LogName>)
    requires Tracks(s, h, clock) && CopyTracks(c, s, h, k, asof) && n in c.attrs.parts
    requires CanReplay(c.attrs, s.attrs) && forall l :: l in logs <==> l in LogsNeeded(c.attrs, s.attrs)
    ensures Lacks(h, k, n, c.attrs.parts[n], Hours(logs, Locale(n)))
  {
    hide Tracks, PartAt, LastTime, CanReplay, LogsNeeded, HourOf;
    forall i | k <= i < |h| && n in h[i].parts ensures HourOf(h[i].time) in Hours(logs, Locale(n)) {
      LaterOperationOffered(c, s, h, clock, k, asof, n, i);
      assert LogName(HourOf(h[i].time), Locale(n)) in logs;
    }
  }

  lemma Times(s: Server, h: seq<Update>, clock: nat, k: nat)
    requires Tracks(s, h, clock) && k <= |h|
    ensures s.attrs.lm == LastTime(h[..k], s.attrs.created) <==> k == |h|
    ensures s.attrs.parts.Keys == s.parts.Keys && InOrder(h)
    ensures forall n :: n in s.parts ==> PartAt(h, n) == Ok(s.parts[n].data)
  {
    hide PartAt, LogsTrack, UpdatesTrack;
    if k == |h| { assert h[..k] == h; }
    else if k > 0 { assert h[..k][k - 1] == h[k - 1]; }
  }

  /** A part of the copy that the times do not single out is still the catalog's. */
  lemma UnchangedPart(c: Copy, s: Server, h: seq<Update>, clock: nat, k: nat, asof: nat, n: PartName)
    requires Tracks(s, h, clock) && CopyTracks(c, s, h, k, asof)
    requires n in c.held && n !in Changed(c.attrs, s.attrs)
    ensures n in s.parts && c.held[n] == s.parts[n].data
  {
    ChangedParts(c, s, h, clock, k, asof, n);
    Times(s, h, clock, k);
    hide Tracks, PartAt;
    NoLaterOperations(h, k, n);
  }

  /** Attributes just fetched, with parts that are the catalog's, make an up-to-date copy. */
  lemma UpToDate(s: Server, h: seq<Update>, clock: nat, held: map<PartName, PartData>)
    requires Tracks(s, h, clock) && forall n :: n in held ==> n in s.parts && held[n] == s.parts[n].data
    ensures CopyTracks(Copy(s.attrs, held), s, h, |h|, clock)
  {
    hide LogsTrack, UpdatesTrack, InOrder, PartAt;
    assert h[..|h|] == h;
  }

  /** The catalog never refuses to update a copy of its own past. */
  lemma NeverRefused(c: Copy, s: Server, h: seq<Update>, clock: nat, k: nat, asof: nat, r: Needs)
    requires Tracks(s, h, clock) && CopyTracks(c, s, h, k, asof) && Answers(r, c.attrs, s.attrs)
    ensures !r.Refused?
    ensures r.NoChange? <==> k == |h|
    ensures r.Nothing? ==> Changed(c.attrs, s.attrs) == {}
    ensures r.Full? ==> r.names == Changed(c.attrs, s.attrs) + NewParts(c.attrs, s.attrs)
    ensures r.Incremental? ==> CanReplay(c.attrs, s.attrs) && InNameOrder(r.logs) && forall l :: l in r.logs <==>
            l in LogsNeeded(c.attrs, s.attrs)
  {
    hide Tracks, PartAt, Changed, NewParts, CanReplay, LogsNeeded, InNameOrder;
    Times(s, h, clock, k);
    forall n | n in c.attrs.parts ensures n in s.attrs.parts && s.attrs.parts[n] >= c.attrs.parts[n] {
      ChangedParts(c, s, h, clock, k, asof, n);
    }
  }

  /** `c'` has the parts of `s`. */
  ghost predicate Matches(c': Copy, s: Server) {
    c'.attrs.lm == s.attrs.lm && forall n :: n in c'.held ==> n in s.parts && c'.held[n] == s.parts[n].data
  }

  lemma Replaced(s: Server, h: seq<Update>, clock: nat, names: set<PartName>)
    requires Tracks(s, h, clock) && names <= s.parts.Keys
    ensures var c' := Copy(s.attrs, map n | n in names :: s.parts[n].data);
            Matches(c', s) && CopyTracks(c', s, h, |h|, clock)
  {
    hide Tracks;
    UpToDate(s, h, clock, map n | n in names :: s.parts[n].data);
  }

  /** The parts of a tracked catalog are sorted already. */
  lemma PartsSorted(s: Server, h: seq<Update>, clock: nat)
    requires Tracks(s, h, clock)
    ensures forall n :: n in s.parts ==>
            ValidData(s.parts[n].data) && Sorted(s.parts[n].data) && SortAll(s.parts[n].data) == s.parts[n].data
  {
    Times(s, h, clock, 0);
    hide ValidData, Sorted, Tracks, SortAll;
    EmptyValid();
    forall n | n in s.parts
      ensures ValidData(s.parts[n].data) && Sorted(s.parts[n].data) && SortAll(s.parts[n].data) == s.parts[n].data
    {
      ReplayValid(Empty, n, -1, h, true);
      SortAllOfSorted(s.parts[n].data);
    }
  }

  /** A copy with the catalog's own parts passes the end of `apply_updates` unharmed. */
  lemma OwnPartsFit(s: Server, h: seq<Update>, clock: nat, held: map<PartName, PartData>)
    requires Tracks(s, h, clock) && forall n :: n in held ==> n in s.parts && held[n] == s.parts[n].data
    ensures Finish(s, held, []).Some?
    ensures var c' := Finish(s, held, []).value;
            c'.held == held && Matches(c', s) && CopyTracks(c', s, h, |h|, clock)
  {
    PartsSorted(s, h, clock);
    hide Tracks, CopyTracks, Matches, SortAll, ValidData, Sorted, Finish;
    FinishFits(s, held, []);
    assert held == map n | n in held :: s.parts[n].data;
    Replaced(s, h, clock, held.Keys);
  }

  lemma FullConverges(c: Copy, s: Server, h: seq<Update>, clock: nat, k: nat, asof: nat, names: set<PartName>)
    requires Tracks(s, h, clock) && CopyTracks(c, s, h, k, asof) && Changed(c.attrs, s.attrs) <= names <= s.parts.Keys
    ensures var x := Finish(s, c.held + map n | n in names :: s.parts[n].data, []);
            && x.Some? && c.held.Keys <= x.value.held.Keys
            && Matches(x.value, s) && CopyTracks(x.value, s, h, |h|, clock)
  {
    forall n | n in c.held && n !in Changed(c.attrs, s.attrs) ensures n in s.parts && c.held[n] == s.parts[n].data {
      UnchangedPart(c, s, h, clock, k, asof, n);
    }
    hide Tracks, CopyTracks, Changed, Matches, Finish;
    OwnPartsFit(s, h, clock, c.held + map n | n in names :: s.parts[n].data);
  }

  lemma NothingConverges(c: Copy, s: Server, h: seq<Update>, clock: nat, k: nat, asof: nat)
    requires Tracks(s, h, clock) && CopyTracks(c, s, h, k, asof) && Changed(c.attrs, s.attrs) == {}
    ensures var x := Finish(s, c.held, []);
            && x.Some? && c.held.Keys <= x.value.held.Keys
            && Matches(x.value, s) && CopyTracks(x.value, s, h, |h|, clock)
  {
    forall n | n in c.held
      ensures n in s.parts && c.held[n] == s.parts[n].data
    { UnchangedPart(c, s, h, clock, k, asof, n); }
    hide Tracks, CopyTracks, Changed, Matches, Finish;
    OwnPartsFit(s, h, clock, c.held);
  }

  lemma UnopenedKept(c: Copy, n: PartName, ups: seq<Update>)
    requires n in c.held && n in c.attrs.parts && !Opened(n, ups)
    ensures Replayed(c, n, ups) == Ok(c.held[n])
  {
    NotOpened(c.held[n], n, c.attrs.parts[n], ups, false);
  }

  lemma HeldSorted(c: Copy, s: Server, h: seq<Update>, k: nat, asof: nat, n: PartName)
    requires CopyTracks(c, s, h, k, asof) && n in c.held
    ensures ValidData(c.held[n]) && Sorted(c.held[n])
  {
    hide ValidData, Sorted;
    EmptyValid();
    ReplayValid(Empty, n, -1, h[..k], true);
  }

  lemma ReplayedPart(c: Copy, s: Server, h: seq<Update>, clock: nat, k: nat, asof: nat, logs: seq<LogName>,
      readings: seq<seq<Update>>, n: PartName)
    requires Tracks(s, h, clock) && CopyTracks(c, s, h, k, asof) && n in c.held
    requires CanReplay(c.attrs, s.attrs) && InNameOrder(logs) && forall l :: l in logs <==>
             l in LogsNeeded(c.attrs, s.attrs)
    requires AreReadings(readings, logs, s.logs)
    ensures n in c.attrs.parts && n in s.parts && Replayed(c, n, Flatten(readings)).Ok?
    ensures SortAll(Replayed(c, n, Flatten(readings)).value) == s.parts[n].data
  {
    hide Tracks, PartAt, CanReplay, InNameOrder, LogsNeeded, AreReadings, SortAll, Replay;
    assert n in c.attrs.parts && n in s.parts;
    ChosenLogsSuffice(c, s, h, clock, k, asof, n, logs);
    PartConverges(readings, logs, s, h, clock, k, n, c.attrs.parts[n], c.held[n]);
  }

  lemma IncrementalConverges(c: Copy, s: Server, h: seq<Update>, clock: nat, k: nat, asof: nat, logs: seq<LogName>,
      readings: seq<seq<Update>>)
    requires Tracks(s, h, clock) && CopyTracks(c, s, h, k, asof)
    requires CanReplay(c.attrs, s.attrs) && InNameOrder(logs) && forall l :: l in logs <==>
             l in LogsNeeded(c.attrs, s.attrs)
    requires AreReadings(readings, logs, s.logs)
    ensures var x := Outcome(c, s, Incremental(logs), readings);
            && x.Some? && c.held.Keys <= x.value.held.Keys
            && Matches(x.value, s) && CopyTracks(x.value, s, h, |h|, clock)
  {
    hide Tracks, CopyTracks, Matches, Replay, SortAll, CanReplay, LogsNeeded, InNameOrder, AreReadings, Flatten, Opened,
      ValidData, Sorted, Finish;
    var ups := Flatten(readings);
    forall n | n in c.held
      ensures n in c.attrs.parts && n in s.parts && Replayed(c, n, ups).Ok?
              && SortAll(Replayed(c, n, ups).value) == s.parts[n].data
      ensures !Opened(n, ups) ==> ValidData(Replayed(c, n, ups).value) && Sorted(Replayed(c, n, ups).value)
    {
      ReplayedPart(c, s, h, clock, k, asof, logs, readings, n);
      HeldSorted(c, s, h, k, asof, n);
      if !Opened(n, ups) { UnopenedKept(c, n, ups); }
    }
    var held := map n | n in c.held :: Replayed(c, n, ups).value;
    FinishFits(s, held, ups);
    assert (map n | n in held :: s.parts[n].data) == map n | n in c.held.Keys :: s.parts[n].data;
    Replaced(s, h, clock, c.held.Keys);
  }

  lemma AsOfNow(c: Copy, s: Server, h: seq<Update>, clock: nat, asof: nat, n: PartName)
    requires Tracks(s, h, clock) && CopyTracks(c, s, h, |h|, asof) && n in c.held
    ensures n in s.parts && c.held[n] == s.parts[n].data
  {
    Times(s, h, clock, |h|);
    hide Tracks, PartAt;
    assert h[..|h|] == h;
  }

  lemma NamesExist(own: Attrs, now: Attrs)
    ensures Changed(own, now) + NewParts(own, now) <= now.parts.Keys
  {
  }

  /** An update, incremental or full, always succeeds: no operation of the logs
      fails to apply and every signature fits, whatever the order in which the
      packages of the logs are read.  Every part of the copy is then the catalog's. */
  lemma SyncConverges(c: Copy, s: Server, h: seq<Update>, clock: nat, k: nat, asof: nat, r: Needs,
      readings: seq<seq<Update>>)
    requires Tracks(s, h, clock) && CopyTracks(c, s, h, k, asof) && Answers(r, c.attrs, s.attrs)
    requires r.Incremental? ==> AreReadings(readings, r.logs, s.logs)
    ensures Outcome(c, s, r, readings).Some?
    ensures var c' := Outcome(c, s, r, readings).value;
            c.held.Keys <= c'.held.Keys && Matches(c', s) && (r.NoChange? || CopyTracks(c', s, h, |h|, clock))
  {
    NeverRefused(c, s, h, clock, k, asof, r);
    NamesExist(c.attrs, s.attrs);
    Times(s, h, clock, k);
    if r.Incremental? {
      IncrementalConverges(c, s, h, clock, k, asof, r.logs, readings);
    } else {
      hide Tracks, Answers, Changed, NewParts, PartAt;
      if r.NoChange? {
        assert c.attrs.lm == s.attrs.lm;
        forall n | n in c.held
          ensures n in s.parts && c.held[n] == s.parts[n].data
        { AsOfNow(c, s, h, clock, asof, n); }
      } else if r.Nothing? {
        NothingConverges(c, s, h, clock, k, asof);
      } else {
        FullConverges(c, s, h, clock, k, asof, r.names);
      }
    }
  }

  /** A second update against the same catalog finds nothing to do. */
  lemma SecondSyncFindsNothing(c: Copy, s: Server, h: seq<Update>, clock: nat, k: nat, asof: nat, r: Needs,
      readings: seq<seq<Update>>, r': Needs)
    requires Tracks(s, h, clock) && CopyTracks(c, s, h, k, asof) && Answers(r, c.attrs, s.attrs)
    requires r.Incremental? ==> AreReadings(readings, r.logs, s.logs)
    requires Outcome(c, s, r, readings).Some? ==> Answers(r', Outcome(c, s, r, readings).value.attrs, s.attrs)
    ensures r' == NoChange
  {
    SyncConverges(c, s, h, clock, k, asof, r, readings);
    NeverRefused(c, s, h, clock, k, asof, r);
    var c' := Outcome(c, s, r, readings).value;
    if r.NoChange? {
      assert c' == c;
      NeverRefused(c, s, h, clock, k, asof, r');
    } else {
      NeverRefused(c', s, h, clock, |h|, clock, r');
    }
  }

  // ---------------------------------------------------------------- whole runs

  /** A catalog, the operations performed on it, the time, and a copy of it. */
  datatype System = System(server: Server, history: seq<Update>, clock: nat, copy: Copy)

  datatype Event =
    | AddPackage(f: Fmri, entries: map<PartName, Entry>, time: nat, now: nat)
    | RefusedAdd(now: nat)
    | RemovePackage(f: Fmri, time: nat)
    | Open(names: set<PartName>)                             // by a refused removal, or for reading
    | DropLogs(locale: string, hour: nat)
    | Save
    | Reopen
    | Fetch                                                  // the copy is made, or made anew
    | Sync(answer: Needs, readings: seq<seq<Update>>)        // the copy is updated

  /** The parts a first copy consists of: those of the C locale. */
  ghost function FirstCopy(s: Server): Copy {
    Copy(s.attrs, map n | n in s.parts && Locale(n) == "C" :: s.parts[n].data)
  }

  /** The system does `e`.  Times move forward; logs are dropped oldest first, and
      not within the current hour; and no time is recorded of a stale part. */
  ghost predicate Step(a: System, e: Event, b: System) {
    match e
    case AddPackage(f, entries, time, now) =>
      && Publishable(f) && !Holds(DataOf(a.server, Base), f) && Base in entries
      && (forall n :: n in entries ==> entries[n].version == f.ver) && a.clock < time <= now
      && (forall n :: n in a.server.cached && n !in entries ==> !Stale(a.server, n))
      && b == a.(server := Added(a.server, f, entries, time, now),
                 history := a.history + [Update(f, ADD, time, entries)], clock := now)
    case RefusedAdd(now) =>
      a.clock <= now && b == a.(server := GotPart(a.server, Base, now), clock := now)
    case RemovePackage(f, time) =>
      && Publishable(f) && (a.server.parts == map[] || Holds(DataOf(a.server, Base), f)) && a.clock < time
      && (forall n :: n in a.server.parts && !Holds(a.server.parts[n].data, f) ==> !Stale(a.server, n))
      && b == a.(server := Removed(a.server, f, time),
                 history := a.history + [Update(f, REMOVE, time, EntriesOf(a.server, f, a.server.parts.Keys))],
                   clock := time)
    case Open(names) =>
      names <= a.server.parts.Keys && b == a.(server := a.server.(cached := a.server.cached + names))
    case DropLogs(locale, hour) =>
      hour <= HourOf(a.clock) && b == a.(server := Dropped(a.server, locale, hour))
    case Save =>
      (forall n :: n in a.server.cached ==> !Stale(a.server, n)) && b == a.(server := Saved(a.server))
    case Reopen =>
      b == a.(server := Reopened(a.server))
    case Fetch =>
      b == a.(copy := FirstCopy(a.server))
    case Sync(r, readings) =>
      && Answers(r, a.copy.attrs, a.server.attrs) && (r.Incremental? ==> AreReadings(readings, r.logs, a.server.logs))
      && Outcome(a.copy, a.server, r, readings).Some?
      && b == a.(copy := Outcome(a.copy, a.server, r, readings).value)
  }

  /** The parts that a copy is to have: "catalog.base.C", "catalog.dependency.C", and
      those whose names begin with "catalog.summary" and end in ".C". */
  ghost predicate Needed(n: PartName) {
    n in {Base, Dependency, Summary("C")} || (n.Other? && n.loc == "C" && exists x :: n.ctype == "summary" + x)
  }

  lemma NeededKnown(n: PartName)
    ensures Needed(n) <==> KnownType(n) && Locale(n) == "C"
  {
    if n.Other? { PrefixIs(n.ctype, "summary"); }
  }

  /** The copy lacks none of these parts that it knows of. */
  ghost predicate Whole(c: Copy) {
    forall n :: n in c.attrs.parts && Needed(n) ==> n in c.held
  }

  /** `k` operations had been performed when the copy was last brought up to date, at the time `asof`. */
  ghost predicate Invariant(a: System, k: nat, asof: nat) {
    && Tracks(a.server, a.history, a.clock) && ValidServer(a.server) && a.server.logging
    && CopyTracks(a.copy, a.server, a.history, k, asof) && asof <= a.clock && Whole(a.copy)
  }

  /** The copy has every one of these parts in which the catalog has anything. */
  ghost predicate Complete(c: Copy, s: Server) {
    forall n :: n in s.parts && Needed(n) && s.parts[n].data != Empty ==> n in c.held
  }

  /** An update leaves out no part of the C locale. */
  lemma OutcomeWhole(c: Copy, s: Server, r: Needs, readings: seq<seq<Update>>)
    requires Whole(c) && Answers(r, c.attrs, s.attrs) && Outcome(c, s, r, readings).Some?
    ensures Whole(Outcome(c, s, r, readings).value)
  {
    hide Opened, SortAll, Replayed, InNameOrder, LogsNeeded, Locale, Needed;
    var own, now := c.attrs, s.attrs;
    forall n | n in now.parts && n !in own.parts && Needed(n)
      ensures n in NewParts(own, now)
    {
      NeededKnown(n);
    }
    hide NewParts, Changed;
  }

  lemma UpToDateComplete(c: Copy, s: Server, h: seq<Update>, clock: nat, asof: nat)
    requires Tracks(s, h, clock) && CopyTracks(c, s, h, |h|, asof) && Whole(c)
    ensures Complete(c, s)
  {
    Times(s, h, clock, |h|);
    hide Tracks, Needed;
    forall n | n in s.parts && Needed(n) && s.parts[n].data != Empty ensures n in c.held {
      if forall i :: 0 <= i < |h| ==> n !in h[i].parts { Untouched(h, n); }
    }
  }

  /** A copy is unaffected by what happens to the catalog. */
  lemma CopyKept(c: Copy, s: Server, s': Server, h: seq<Update>, k: nat, asof: nat)
    requires CopyTracks(c, s, h, k, asof) && s'.attrs.created == s.attrs.created
    requires forall n :: n in s.parts && n in s.attrs.parts ==>
             n in s'.parts && n in s'.attrs.parts && s'.attrs.parts[n] == s.attrs.parts[n]
    ensures CopyTracks(c, s', h, k, asof)
  {
    hide PartAt, LastTime;
  }

  lemma CopyBehind(c: Copy, s: Server, s': Server, h: seq<Update>, u: Update, clock: nat, k: nat, asof: nat)
    requires CopyTracks(c, s, h, k, asof) && TimesTrack(s, h, clock) && Advances(s, s', u) && asof <= clock < u.time
    ensures CopyTracks(c, s', h + [u], k, asof)
  {
    hide PartAt, LastTime, ReplayStep, LogsWith, UpdatesWith;
    assert (h + [u])[..k] == h[..k];
    forall n | n in c.attrs.parts && forall i :: k <= i < |h + [u]| ==> n !in (h + [u])[i].parts
      ensures s'.attrs.parts[n] == c.attrs.parts[n]
    {
      assert (h + [u])[|h|] == u;
      assert forall i :: k <= i < |h| ==> (h + [u])[i] == h[i];
    }
  }

  lemma OperationKeeps(a: System, b: System, u: Update, k: nat, asof: nat)
    requires Invariant(a, k, asof) && Advances(a.server, b.server, u) && a.clock < u.time <= b.clock
    requires Publishable(u.f) && forall n :: n in u.parts ==> u.parts[n].version == u.f.ver
    requires ValidServer(b.server) && b.server.logging && b.history == a.history + [u] && b.copy == a.copy
    ensures Invariant(b, k, asof)
  {
    hide ValidServer, Advances, CopyTracks;
    Advance(a.server, b.server, a.history, u, a.clock, b.clock);
    CopyBehind(a.copy, a.server, b.server, a.history, u, a.clock, k, asof);
  }

  lemma AddedLogging(s: Server, f: Fmri, entries: map<PartName, Entry>, time: nat, now: nat)
    ensures Added(s, f, entries, time, now).logging == s.logging
    ensures Removed(s, f, time).logging == s.logging
  {
    hide LogsWith, UpdatesWith, Stamped, Stems, Fmris, States, AddResults, RemoveResults, EntriesOf;
  }

  lemma AddKeepsInvariant(a: System, b: System, f: Fmri, entries: map<PartName, Entry>, time: nat, now: nat, k: nat,
      asof: nat)
    requires Invariant(a, k, asof) && Step(a, AddPackage(f, entries, time, now), b)
    ensures Invariant(b, k, asof)
  {
    AddedLogging(a.server, f, entries, time, now);
    AddedAdvances(a.server, f, entries, time, now);
    AddedValid(a.server, f, entries, time, now);
    hide Tracks, CopyTracks, ValidServer, Added, Changes, Stale, Advances;
    OperationKeeps(a, b, Update(f, ADD, time, entries), k, asof);
  }

  lemma RemoveKeepsInvariant(a: System, b: System, f: Fmri, time: nat, k: nat, asof: nat)
    requires Invariant(a, k, asof) && Step(a, RemovePackage(f, time), b)
    ensures Invariant(b, k, asof)
  {
    hide Tracks, CopyTracks, ValidServer, Removed, Advances, Changes, EntriesOf, Holds, HourOf;
    AddedLogging(a.server, f, map[], time, time);
    RemovedAdvances(a.server, f, time);
    RemovedValid(a.server, f, time);
    var u := Update(f, REMOVE, time, EntriesOf(a.server, f, a.server.parts.Keys));
    forall n | n in u.parts ensures u.parts[n].version == f.ver { EntriesOfHolders(a.server, f, n); }
    OperationKeeps(a, b, u, k, asof);
  }

  lemma DroppedValid(s: Server, locale: string, hour: nat)
    requires ValidServer(s)
    ensures ValidServer(Dropped(s, locale, hour))
  {
    hide WellFormedParts, BaseCovers, Stems, Fmris;
  }

  lemma ReopenedValid(s: Server)
    requires ValidServer(s)
    ensures ValidServer(Reopened(s))
  {
    hide Holds, ValidData, Sorted, Stems, Fmris;
    assert DataOf(Reopened(s), Base) == DataOf(s, Base);
  }

  lemma FetchKeeps(a: System, b: System, k: nat, asof: nat)
    requires Invariant(a, k, asof) && Step(a, Fetch, b)
    ensures Invariant(b, |a.history|, a.clock) && Matches(b.copy, b.server) && Complete(b.copy, b.server)
            && b.server == a.server
  {
    hide Tracks, ValidServer, Locale, CopyTracks, PartAt, Needed;
    forall n | Needed(n) ensures Locale(n) == "C" { NeededKnown(n); }
    Times(a.server, a.history, a.clock, 0);
    Replaced(a.server, a.history, a.clock, FirstCopy(a.server).held.Keys);
    assert FirstCopy(a.server).held == map n | n in FirstCopy(a.server).held.Keys :: a.server.parts[n].data;
    UpToDateComplete(b.copy, b.server, a.history, a.clock, a.clock);
  }

  /** After an update the copy has all of the catalog that it should have. */
  lemma SyncComplete(c: Copy, s: Server, h: seq<Update>, clock: nat, k: nat, asof: nat, r: Needs,
      readings: seq<seq<Update>>)
    requires Tracks(s, h, clock) && CopyTracks(c, s, h, k, asof) && Whole(c) && Answers(r, c.attrs, s.attrs)
    requires r.Incremental? ==> AreReadings(readings, r.logs, s.logs)
    ensures Outcome(c, s, r, readings).Some? ==>
              Whole(Outcome(c, s, r, readings).value) && Complete(Outcome(c, s, r, readings).value, s)
  {
    NeverRefused(c, s, h, clock, k, asof, r);
    SyncConverges(c, s, h, clock, k, asof, r, readings);
    var c' := Outcome(c, s, r, readings).value;
    OutcomeWhole(c, s, r, readings);
    if r.NoChange? { assert c' == c; }
    hide Tracks, CopyTracks, Answers, AreReadings, Outcome, Matches, Whole, Complete;
    UpToDateComplete(c', s, h, clock, if r.NoChange? then asof else clock);
  }

  lemma SyncNoChange(a: System, r: Needs, readings: seq<seq<Update>>)
    requires r.NoChange?
    ensures Outcome(a.copy, a.server, r, readings) == Some(a.copy)
  {
  }

  lemma SyncKeeps(a: System, b: System, r: Needs, readings: seq<seq<Update>>, k: nat, asof: nat)
    requires Invariant(a, k, asof) && Step(a, Sync(r, readings), b)
    ensures if r.NoChange? then Invariant(b, k, asof) else Invariant(b, |a.history|, a.clock)
    ensures Matches(b.copy, b.server) && Complete(b.copy, b.server) && b.server == a.server
  {
    hide Tracks, ValidServer, CopyTracks, Answers, AreReadings, Outcome, Matches, Whole, Complete;
    SyncConverges(a.copy, a.server, a.history, a.clock, k, asof, r, readings);
    SyncComplete(a.copy, a.server, a.history, a.clock, k, asof, r, readings);
    if r.NoChange? { SyncNoChange(a, r, readings); }
  }

  /** Only a fetch and a sync touch the copy. */
  lemma StepCopy(a: System, e: Event, b: System)
    requires Step(a, e, b) && !e.Fetch? && !e.Sync?
    ensures b.copy == a.copy
  {
    hide Added, Removed, GotPart, Dropped, Reopened, Holds, EntriesOf;
  }

  lemma RefusedAddKeeps(a: System, b: System, now: nat, k: nat, asof: nat)
    requires Invariant(a, k, asof) && Step(a, RefusedAdd(now), b)
    ensures Invariant(b, k, asof)
  {
    GotPartTracks(a.server, a.history, a.clock, now);
    GotPartValid(a.server, now);
    Times(a.server, a.history, a.clock, 0);
    hide Tracks, ValidServer, CopyTracks;
    CopyKept(a.copy, a.server, b.server, a.history, k, asof);
  }

  lemma OpenKeeps(a: System, b: System, names: set<PartName>, k: nat, asof: nat)
    requires Invariant(a, k, asof) && Step(a, Open(names), b)
    ensures Invariant(b, k, asof)
  {
    OpenedTracks(a.server, a.history, a.clock, names);
    OpenedValid(a.server, names);
    hide Tracks, ValidServer, CopyTracks;
    CopyKept(a.copy, a.server, b.server, a.history, k, asof);
  }

  lemma SaveKeeps(a: System, b: System, k: nat, asof: nat)
    requires Invariant(a, k, asof) && Step(a, Save, b)
    ensures Invariant(b, k, asof)
  {
    hide Tracks, ValidServer, CopyTracks, Stale, Saved;
    Times(a.server, a.history, a.clock, 0);
    SavedSame(a.server);
    assert b == a;
  }

  lemma DropKeeps(a: System, b: System, locale: string, hour: nat, k: nat, asof: nat)
    requires Invariant(a, k, asof) && Step(a, DropLogs(locale, hour), b)
    ensures Invariant(b, k, asof)
  {
    DroppedTracks(a.server, a.history, a.clock, locale, hour);
    DroppedValid(a.server, locale, hour);
    hide Tracks, ValidServer, CopyTracks;
    CopyKept(a.copy, a.server, b.server, a.history, k, asof);
  }

  lemma ReopenedSame(s: Server)
    ensures var w := Reopened(s);
            && w.attrs == s.attrs && w.logging == s.logging && w.parts.Keys == s.parts.Keys
            && forall n :: n in s.parts ==> w.parts[n] == PartState(s.parts[n].data, WholeSecond(s.parts[n].lm))
  {
  }

  lemma ReopenKeeps(a: System, b: System, k: nat, asof: nat)
    requires Invariant(a, k, asof) && Step(a, Reopen, b)
    ensures Invariant(b, k, asof)
  {
    hide Tracks, ValidServer, CopyTracks, Reopened, Stale, Whole;
    ReopenedTracks(a.server, a.history, a.clock);
    ReopenedValid(a.server);
    ReopenedSame(a.server);
    CopyKept(a.copy, a.server, b.server, a.history, k, asof);
  }

  /** Every event keeps the invariant; after a fetch or a sync the copy has the
      parts of the catalog, and no other event touches the copy. */
  lemma StepKeeps(a: System, e: Event, b: System, k: nat, asof: nat) returns (k': nat, asof': nat)
    requires Invariant(a, k, asof) && Step(a, e, b)
    ensures Invariant(b, k', asof')
    ensures e.Fetch? || e.Sync? ==> Matches(b.copy, b.server) && Complete(b.copy, b.server) && b.server == a.server
    ensures !e.Fetch? && !e.Sync? ==> b.copy == a.copy
  {
    hide Invariant, Step, Matches, Complete;
    k', asof' := k, asof;
    if !e.Fetch? && !e.Sync? { StepCopy(a, e, b); }
    match e {
      case AddPackage(f, entries, time, now) => AddKeepsInvariant(a, b, f, entries, time, now, k, asof);
      case RemovePackage(f, time) => RemoveKeepsInvariant(a, b, f, time, k, asof);
      case RefusedAdd(now) => RefusedAddKeeps(a, b, now, k, asof);
      case Open(names) => OpenKeeps(a, b, names, k, asof);
      case DropLogs(locale, hour) => DropKeeps(a, b, locale, hour, k, asof);
      case Save => SaveKeeps(a, b, k, asof);
      case Reopen => ReopenKeeps(a, b, k, asof);
      case Fetch =>
        FetchKeeps(a, b, k, asof);
        k', asof' := |a.history|, a.clock;
      case Sync(r, readings) =>
        SyncKeeps(a, b, r, readings, k, asof);
        if !r.NoChange? { k', asof' := |a.history|, a.clock; }
    }
  }

  ghost predicate IsRun(states: seq<System>, events: seq<Event>) {
    |states| == |events| + 1 && forall i :: 0 <= i < |events| ==> Step(states[i], events[i], states[i + 1])
  }

  /** A catalog just created, and a copy of it. */
  ghost predicate Initial(a: System) {
    && a.server == NewServer(a.clock, true) && a.history == []
    && a.copy == Copy(a.server.attrs, map[])
  }

  lemma InitialKeeps(a: System)
    requires Initial(a)
    ensures Invariant(a, 0, a.clock)
  {
    NewServerValid(a.clock, true);
  }

  /** All that ever happens keeps the invariant. */
  lemma {:induction false} RunKeeps(states: seq<System>, events: seq<Event>) returns (k: nat, asof: nat)
    requires IsRun(states, events) && Initial(states[0])
    ensures Invariant(Last(states), k, asof)
  {
    hide Step, Invariant, Initial;
    if events == [] {
      InitialKeeps(states[0]);
      k, asof := 0, states[0].clock;
    } else {
      assert IsRun(Front(states), Front(events));
      k, asof := RunKeeps(Front(states), Front(events));
      k, asof := StepKeeps(Last(Front(states)), Last(events), Last(states), k, asof);
    }
  }

  /** In every run, an update of the copy cannot fail, leaves it with exactly the
      catalog's parts, none of the C locale missing, and leaves nothing for a second one. */
  lemma RunsConverge(states: seq<System>, events: seq<Event>, r: Needs, readings: seq<seq<Update>>)
    requires IsRun(states, events) && Initial(states[0])
    requires var a := Last(states);
             Answers(r, a.copy.attrs, a.server.attrs)
               && (r.Incremental? ==> AreReadings(readings, r.logs, a.server.logs))
    ensures var a := Last(states);
            && !r.Refused? && Outcome(a.copy, a.server, r, readings).Some?
            && var c' := Outcome(a.copy, a.server, r, readings).value;
               && Matches(c', a.server) && Complete(c', a.server) && a.copy.held.Keys <= c'.held.Keys
               && (forall n ::
                     n in {Base, Dependency, Summary("C")} && n in a.server.parts && a.server.parts[n].data != Empty ==>
                     n in c'.held)
               && forall r' :: Answers(r', c'.attrs, a.server.attrs) ==> r' == NoChange
  {
    var a := Last(states);
    var k, asof := RunKeeps(states, events);
    hide IsRun, Initial, Tracks, CopyTracks, ValidServer, Answers, AreReadings, Outcome, Matches, Whole;
    SyncConverges(a.copy, a.server, a.history, a.clock, k, asof, r, readings);
    SyncComplete(a.copy, a.server, a.history, a.clock, k, asof, r, readings);
    NeverRefused(a.copy, a.server, a.history, a.clock, k, asof, r);
    var c' := Outcome(a.copy, a.server, r, readings).value;
    forall r' | Answers(r', c'.attrs, a.server.attrs) ensures r' == NoChange {
      SecondSyncFindsNothing(a.copy, a.server, a.history, a.clock, k, asof, r, readings, r');
    }
  }
}
