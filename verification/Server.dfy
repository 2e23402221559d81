/** The states of a publishing catalog and the effect of each operation on them
    (src/modules/catalog.py, Catalog). */
module Servers {
  import opened Common
  import opened VersionLists
  import opened CatalogParts
  import opened UpdateLogs

  datatype PartState = PartState(data: PartData, lm: nat)

  datatype LogState = LogState(data: LogData, lm: nat)

  /** The contents of "catalog.attrs". */
  datatype Attrs = Attrs(created: nat, lm: nat, packages: nat, versions: nat,
                         parts: map<PartName, nat>, updates: map<LogName, nat>)

  /** A catalog: its parts and update logs, which of the parts this process has
      opened, and the attributes. */
  datatype Server = Server(parts: map<PartName, PartState>, cached: set<PartName>,
                           logs: map<LogName, LogState>, attrs: Attrs, logging: bool)

  function NewServer(created: nat, logging: bool): Server {
    Server(map[], {}, map[], Attrs(created, created, 0, 0, map[], map[]), logging)
  }

  function DataOf(s: Server, n: PartName): PartData {
    if n in s.parts then s.parts[n].data else Empty
  }

  /** `Catalog.get_part`: the part is opened, and created when it is new. */
  function GotPart(s: Server, n: PartName, now: nat): Server {
    if n in s.parts then s.(cached := s.cached + {n})
    else s.(parts := s.parts[n := PartState(Empty, now)], cached := s.cached + {n},
            attrs := s.attrs.(parts := s.attrs.parts[n := now]))
  }

  /** The contents of the parts once `entries` were added for `f`. */
  ghost function AddResults(s: Server, f: Fmri, entries: map<PartName, Entry>): map<PartName, PartData> {
    if entries == map[] then map[]
    else
      map n | n in entries && AddTo(DataOf(s, n), f, entries[n], true).Ok? ::
        AddTo(DataOf(s, n), f, entries[n], true).value
  }

  ghost function States(results: map<PartName, PartData>, time: nat): map<PartName, PartState> {
    if results == map[] then map[] else map n | n in results :: PartState(results[n], time)
  }

  /** `times` with `now` for the names in `names` that have no time yet. */
  ghost function Listed(times: map<PartName, nat>, names: set<PartName>, now: nat): map<PartName, nat> {
    if names == {} then times else (map n | n in names :: now) + times
  }

  /** `s` with the contents of several parts, opened or made for it, replaced. */
  ghost function WithResults(s: Server, results: map<PartName, PartData>, time: nat, now: nat): Server {
    s.(parts := s.parts + States(results, time), cached := s.cached + results.Keys,
       attrs := s.attrs.(parts := Listed(s.attrs.parts, results.Keys, now)))
  }

  lemma ListedStep(times: map<PartName, nat>, names: set<PartName>, now: nat, n: PartName)
    ensures Listed(times, names + {n}, now) ==
            if n in Listed(times, names, now) then Listed(times, names, now) else Listed(times, names, now)[n := now]
  {
  }

  lemma StatesStep(parts: map<PartName, PartState>, results: map<PartName, PartData>, time: nat, n: PartName,
      d: PartData)
    ensures parts + States(results[n := d], time) == (parts + States(results, time))[n := PartState(d, time)]
  {
  }

  lemma WithNoEntries(s: Server, f: Fmri, time: nat, now: nat)
    ensures WithResults(s, AddResults(s, f, map[]), time, now) == s
  {
    assert AddResults(s, f, map[]) == map[];
    assert s.parts + States(map[], time) == s.parts;
    assert Listed(s.attrs.parts, {}, now) == s.attrs.parts;
    assert s.cached + {} == s.cached;
  }

  lemma AddResultsStep(s: Server, f: Fmri, done: map<PartName, Entry>, n: PartName, e: Entry)
    requires n !in done && AddTo(DataOf(s, n), f, e, true).Ok?
    ensures AddResults(s, f, done[n := e]) == AddResults(s, f, done)[n := AddTo(DataOf(s, n), f, e, true).value]
  {
    hide AddTo;
  }

  lemma WithResultsKeys(s: Server, results: map<PartName, PartData>, time: nat, now: nat, n: PartName)
    ensures WithResults(s, results, time, now).parts.Keys == s.parts.Keys + results.Keys
    ensures WithResults(s, results, time, now).attrs.parts.Keys == s.attrs.parts.Keys + results.Keys
    ensures n !in results ==> DataOf(WithResults(s, results, time, now), n) == DataOf(s, n)
  {
  }

  /** Adding one more entry to the part `n`, opened or made for it. */
  lemma WithResultsStep(s: Server, results: map<PartName, PartData>, n: PartName, d: PartData, time: nat, now: nat)
    requires s.attrs.parts.Keys == s.parts.Keys && n !in results
    ensures var g := GotPart(WithResults(s, results, time, now), n, now);
            g.(parts := g.parts[n := PartState(d, time)]) == WithResults(s, results[n := d], time, now)
  {
    hide States, Listed;
    WithResultsKeys(s, results, time, now, n);
    StatesStep(s.parts, results, time, n, d);
    ListedStep(s.attrs.parts, results.Keys, now, n);
    assert results[n := d].Keys == results.Keys + {n};
    assert s.cached + (results.Keys + {n}) == (s.cached + results.Keys) + {n};
    var w := WithResults(s, results, time, now);
    if n !in w.parts {
      assert w.parts[n := PartState(Empty, now)][n := PartState(d, time)] == w.parts[n := PartState(d, time)];
    }
  }

  /** The entries of `f` in the parts, among `names`, that hold it. */
  ghost function EntriesOf(s: Server, f: Fmri, names: set<PartName>): map<PartName, Entry> {
    if names == {} then map[]
    else map n | n in names && n in s.parts && Lookup(s.parts[n].data, f).Some? :: Lookup(s.parts[n].data, f).value
  }

  /** The contents, once `f` was removed, of the parts among `names` that held it. */
  ghost function RemoveResults(s: Server, f: Fmri, names: set<PartName>): map<PartName, PartData> {
    if names == {} then map[]
    else
      map n | n in names && n in s.parts && RemoveFrom(s.parts[n].data, f).Ok? :: RemoveFrom(s.parts[n].data, f).value
  }

  lemma RemovableFound(d: PartData, f: Fmri)
    requires RemoveFrom(d, f).Ok?
    ensures Lookup(d, f).Some?
  {
    FindHas(At(d, f.pub, f.stem), f.ver);
  }

  lemma EntriesStep(s: Server, f: Fmri, names: set<PartName>, n: PartName)
    requires n in s.parts && Lookup(s.parts[n].data, f).Some?
    ensures EntriesOf(s, f, names + {n}) == EntriesOf(s, f, names)[n := Lookup(s.parts[n].data, f).value]
  {
    hide Lookup;
  }

  /** Visiting one more part that holds `f`. */
  lemma RemoveStep(s: Server, f: Fmri, names: set<PartName>, n: PartName, time: nat)
    requires n in s.parts && n !in names && RemoveFrom(s.parts[n].data, f).Ok?
    ensures s.parts + States(RemoveResults(s, f, names + {n}), time) ==
            (s.parts + States(RemoveResults(s, f, names), time))[n := PartState(RemoveFrom(s.parts[n].data, f).value,
              time)]
    ensures Lookup(s.parts[n].data, f).Some?
    ensures EntriesOf(s, f, names + {n}) == EntriesOf(s, f, names)[n := Lookup(s.parts[n].data, f).value]
  {
    hide RemoveFrom, Lookup, States;
    RemovableFound(s.parts[n].data, f);
    EntriesStep(s, f, names, n);
    var r := RemoveFrom(s.parts[n].data, f).value;
    assert RemoveResults(s, f, names + {n}) == RemoveResults(s, f, names)[n := r];
    hide RemoveResults, EntriesOf;
    StatesStep(s.parts, RemoveResults(s, f, names), time, n, r);
  }

  /** Visiting one more part that does not hold `f`. */
  lemma SkipStep(s: Server, f: Fmri, names: set<PartName>, n: PartName)
    requires n in s.parts && Lookup(s.parts[n].data, f).None?
    ensures RemoveResults(s, f, names + {n}) == RemoveResults(s, f, names)
    ensures EntriesOf(s, f, names + {n}) == EntriesOf(s, f, names)
  {
    FindHas(At(s.parts[n].data, f.pub, f.stem), f.ver);
    assert RemoveFrom(s.parts[n].data, f).Err?;
    hide RemoveFrom, Lookup;
  }

  lemma NothingRemoved(s: Server, f: Fmri, names: set<PartName>, time: nat)
    requires forall n :: n in names && n in s.parts ==> RemoveFrom(s.parts[n].data, f).Err?
    ensures s.parts + States(RemoveResults(s, f, names), time) == s.parts
  {
    hide RemoveFrom;
    assert RemoveResults(s, f, names) == map[];
  }

  function Locales(entries: map<PartName, Entry>): set<string> {
    set n | n in entries :: Locale(n)
  }

  function OfLocale(entries: map<PartName, Entry>, locale: string): map<PartName, Entry> {
    map n | n in entries && Locale(n) == locale :: entries[n]
  }

  /** `__finalize(sort=False)`: the stored counts are those of the base part. */
  ghost function Recounted(s: Server): Server {
    s.(attrs := s.attrs.(packages := |Stems(DataOf(s, Base))|, versions := |Fmris(DataOf(s, Base))|))
  }

  /** The logs of one hour for some locales. */
  ghost function HourLogs(time: nat, locales: set<string>): set<LogName> {
    set l | l in locales :: LogName(HourOf(time), l)
  }

  /** Log `k` with the entries of its locale appended. */
  function LogStep(logs: map<LogName, LogState>, k: LogName, f: Fmri, kind: OpType, time: nat,
      entries: map<PartName, Entry>): LogState
  {
    LogState(LogAppend(if k in logs then logs[k].data else EmptyLog, f,
                       LogEntry(kind, time, f.ver, OfLocale(entries, k.locale))), time)
  }

  /** The logs after `entries` were logged for `f` in some locales: one log each, of the hour of `time`. */
  ghost function LogsWith(logs: map<LogName, LogState>, f: Fmri, kind: OpType, time: nat, entries: map<PartName, Entry>,
      locales: set<string>)
      : map<LogName, LogState>
  {
    map k | k in logs.Keys + HourLogs(time, locales) ::
      if k in HourLogs(time, locales) then LogStep(logs, k, f, kind, time, entries) else logs[k]
  }

  ghost function UpdatesWith(updates: map<LogName, nat>, time: nat, locales: set<string>): map<LogName, nat> {
    map k | k in updates.Keys + HourLogs(time, locales) :: if k in HourLogs(time, locales) then time else updates[k]
  }

  lemma LogsWithStep(logs: map<LogName, LogState>, f: Fmri, kind: OpType, time: nat, entries: map<PartName, Entry>,
      locales: set<string>, l: string)
    requires l !in locales
    ensures var k := LogName(HourOf(time), l);
            LogsWith(logs, f, kind, time, entries, locales + {l}) ==
            LogsWith(logs, f, kind, time, entries,
              locales)[k := LogStep(LogsWith(logs, f, kind, time, entries, locales), k, f, kind, time, entries)]
  {
    var k := LogName(HourOf(time), l);
    assert HourLogs(time, locales + {l}) == HourLogs(time, locales) + {k};
    assert LogStep(LogsWith(logs, f, kind, time, entries, locales), k, f, kind, time, entries) ==
      LogStep(logs, k, f, kind, time, entries);
    hide LogStep;
  }

  lemma UpdatesWithStep(updates: map<LogName, nat>, time: nat, locales: set<string>, l: string)
    ensures UpdatesWith(updates, time, locales + {l}) ==
            UpdatesWith(updates, time, locales)[LogName(HourOf(time), l) := time]
  {
    assert HourLogs(time, locales + {l}) == HourLogs(time, locales) + {LogName(HourOf(time), l)};
  }

  lemma LogsWithNone(logs: map<LogName, LogState>, f: Fmri, kind: OpType, time: nat, entries: map<PartName, Entry>,
      updates: map<LogName, nat>)
    ensures LogsWith(logs, f, kind, time, entries, {}) == logs && UpdatesWith(updates, time, {}) == updates
  {
    assert HourLogs(time, {}) == {};
  }

  /** The times recorded for the parts, with those of the parts in `names` renewed. */
  ghost function Stamped(times: map<PartName, nat>, parts: map<PartName, PartState>,
      names: set<PartName>): map<PartName, nat>
  {
    if times == map[] then map[] else map n | n in times :: if n in names && n in parts then parts[n].lm else times[n]
  }

  /** `__log_update`. */
  ghost function Logged(s: Server, f: Fmri, kind: OpType, time: nat, entries: map<PartName, Entry>): Server {
    var r := Recounted(s);
    var r' := r.(attrs := r.attrs.(lm := time));
    if !s.logging then r'
    else
      r'.(logs := LogsWith(s.logs, f, kind, time, entries, Locales(entries)),
          attrs := r'.attrs.(updates := UpdatesWith(s.attrs.updates, time, Locales(entries)),
                             parts := Stamped(s.attrs.parts, s.parts, s.cached)))
  }

  /** `__save`: the times of the parts that are open are recorded. */
  ghost function Saved(s: Server): Server {
    s.(attrs := s.attrs.(parts := Stamped(s.attrs.parts, s.parts, s.cached)))
  }

  /** The effect of a successful `add_package`. */
  ghost function Added(s: Server, f: Fmri, entries: map<PartName, Entry>, time: nat, now: nat): Server {
    Logged(WithResults(s, AddResults(s, f, entries), time, now), f, ADD, time, entries)
  }

  /** The effect of a successful `remove_package`: every part is opened on the way. */
  ghost function Removed(s: Server, f: Fmri, time: nat): Server {
    Logged(s.(parts := s.parts + States(RemoveResults(s, f, s.parts.Keys), time), cached := s.parts.Keys), f, REMOVE,
      time,
           if s.logging then EntriesOf(s, f, s.parts.Keys) else map[])
  }

  // -------------------------------------------------------------- invariants

  /** Every FMRI of any part is in the base part, which exists once there is any part. */
  ghost predicate BaseCovers(parts: map<PartName, PartState>) {
    && (parts != map[] ==> Base in parts)
    && forall n, f: Fmri :: n in parts && Holds(parts[n].data, f) ==> Holds(parts[Base].data, f)
  }

  ghost predicate WellFormedParts(parts: map<PartName, PartState>) {
    forall n :: n in parts ==> ValidData(parts[n].data) && Sorted(parts[n].data)
  }

  ghost predicate Counted(s: Server) {
    s.attrs.packages == |Stems(DataOf(s, Base))| && s.attrs.versions == |Fmris(DataOf(s, Base))|
  }

  ghost predicate ValidServer(s: Server) {
    && WellFormedParts(s.parts) && BaseCovers(s.parts) && Counted(s)
    && s.attrs.parts.Keys == s.parts.Keys && s.cached <= s.parts.Keys
    && s.attrs.updates.Keys == s.logs.Keys
  }

  lemma NewServerValid(created: nat, logging: bool)
    ensures ValidServer(NewServer(created, logging))
  {
    assert Stems(Empty) == {} && Fmris(Empty) == {};
  }

  lemma GotPartValid(s: Server, now: nat)
    requires ValidServer(s)
    ensures ValidServer(GotPart(s, Base, now))
  {
    var s' := GotPart(s, Base, now);
    assert DataOf(s', Base) == DataOf(s, Base);
  }

  /** A package that the base part accepts is accepted by every part. */
  lemma AddAllowed(s: Server, f: Fmri, entries: map<PartName, Entry>)
    requires ValidServer(s) && f.pub != "" && !Holds(DataOf(s, Base), f)
    ensures forall n :: n in entries ==> AddTo(DataOf(s, n), f, entries[n], true).Ok?
    ensures AddResults(s, f, entries).Keys == entries.Keys
  {
    forall n | n in entries ensures AddTo(DataOf(s, n), f, entries[n], true).Ok? {
      if n in s.parts { assert !Holds(s.parts[n].data, f); }
    }
  }

  /** Logging an operation changes no part. */
  lemma LoggedValid(s: Server, f: Fmri, kind: OpType, time: nat, entries: map<PartName, Entry>)
    requires WellFormedParts(s.parts) && BaseCovers(s.parts) && s.attrs.parts.Keys == s.parts.Keys
    requires s.cached <= s.parts.Keys && s.attrs.updates.Keys == s.logs.Keys
    ensures ValidServer(Logged(s, f, kind, time, entries))
    ensures Logged(s, f, kind, time, entries).parts == s.parts
  {
  }

  lemma WellFormedStates(parts: map<PartName, PartState>, results: map<PartName, PartData>, time: nat)
    requires WellFormedParts(parts) && forall n :: n in results ==> ValidData(results[n]) && Sorted(results[n])
    ensures WellFormedParts(parts + States(results, time))
  {
    hide ValidData, Sorted;
  }

  lemma DataValid(s: Server, n: PartName)
    requires ValidServer(s)
    ensures ValidData(DataOf(s, n)) && Sorted(DataOf(s, n))
  {
    EmptyValid();
  }

  lemma AddedWellFormed(s: Server, f: Fmri, entries: map<PartName, Entry>, time: nat, now: nat)
    requires ValidServer(s)
    ensures WellFormedParts(WithResults(s, AddResults(s, f, entries), time, now).parts)
  {
    hide AddTo, ValidData, Sorted, DataOf;
    var results := AddResults(s, f, entries);
    forall n | n in results ensures ValidData(results[n]) && Sorted(results[n]) {
      DataValid(s, n);
      AddKeeps(DataOf(s, n), f, entries[n], true);
    }
    hide AddResults;
    WellFormedStates(s.parts, results, time);
  }

  lemma AddedHolds(s: Server, f: Fmri, entries: map<PartName, Entry>, time: nat, now: nat, n: PartName, g: Fmri)
    requires n in AddResults(s, f, entries) || n in s.parts
    ensures n in WithResults(s, AddResults(s, f, entries), time, now).parts
    ensures Holds(WithResults(s, AddResults(s, f, entries), time, now).parts[n].data, g) <==>
            Holds(DataOf(s, n), g) || (g == f && n in AddResults(s, f, entries))
  {
    if n in AddResults(s, f, entries) { HoldsAfterAdd(DataOf(s, n), f, entries[n], true, g); }
  }

  lemma AddedValid(s: Server, f: Fmri, entries: map<PartName, Entry>, time: nat, now: nat)
    requires ValidServer(s) && f.pub != "" && !Holds(DataOf(s, Base), f) && Base in entries
    ensures ValidServer(Added(s, f, entries, time, now))
  {
    hide AddTo, ValidData, Sorted, Holds, Logged;
    AddAllowed(s, f, entries);
    AddedWellFormed(s, f, entries, time, now);
    var w := WithResults(s, AddResults(s, f, entries), time, now);
    forall n, g: Fmri | n in w.parts && Holds(w.parts[n].data, g) ensures Holds(w.parts[Base].data, g) {
      EmptyHoldsNone(g);
      AddedHolds(s, f, entries, time, now, n, g);
      AddedHolds(s, f, entries, time, now, Base, g);
      if n in s.parts && Holds(DataOf(s, n), g) { assert Holds(s.parts[Base].data, g); }
    }
    LoggedValid(w, f, ADD, time, entries);
  }

  lemma NoAddResults(s: Server, f: Fmri)
    ensures AddResults(s, f, map[]) == map[]
  {
  }

  /** The parts are in order when a successful `add_package` comes to its logging. */
  lemma AddedReady(s: Server, f: Fmri, entries: map<PartName, Entry>, time: nat, now: nat)
    requires ValidServer(s) && f.pub != "" && !Holds(DataOf(s, Base), f)
    ensures var w := WithResults(s, AddResults(s, f, entries), time, now);
            ValidData(DataOf(w, Base)) && w.cached <= w.parts.Keys == w.attrs.parts.Keys
  {
    hide AddTo, ValidData, Sorted, AddResults;
    EmptyValid();
    AddedWellFormed(s, f, entries, time, now);
    WithResultsKeys(s, AddResults(s, f, entries), time, now, Base);
    hide WithResults;
  }

  lemma RemovedWellFormed(s: Server, f: Fmri, time: nat)
    requires ValidServer(s)
    ensures WellFormedParts(s.parts + States(RemoveResults(s, f, s.parts.Keys), time))
  {
    hide RemoveFrom, ValidData, Sorted;
    var results := RemoveResults(s, f, s.parts.Keys);
    forall n | n in results ensures ValidData(results[n]) && Sorted(results[n]) {
      RemoveKeeps(s.parts[n].data, f);
    }
  }

  lemma RemovedHolds(s: Server, f: Fmri, time: nat, n: PartName, g: Fmri)
    requires ValidServer(s) && n in s.parts && f.pub != ""
    ensures n in s.parts + States(RemoveResults(s, f, s.parts.Keys), time)
    ensures Holds((s.parts + States(RemoveResults(s, f, s.parts.Keys), time))[n].data, g) <==>
            Holds(s.parts[n].data, g) && g != f
  {
    if RemoveFrom(s.parts[n].data, f).Ok? { HoldsAfterRemove(s.parts[n].data, f, g); }
  }

  lemma RemovedKeys(s: Server, f: Fmri, time: nat)
    ensures (s.parts + States(RemoveResults(s, f, s.parts.Keys), time)).Keys == s.parts.Keys
  {
    hide RemoveFrom;
  }

  lemma RemovedValid(s: Server, f: Fmri, time: nat)
    requires ValidServer(s) && (f.pub != "" || s.parts == map[])
    ensures ValidServer(Removed(s, f, time))
  {
    RemovedWellFormed(s, f, time);
    hide RemoveResults, Holds, States, ValidData, Sorted, Stems, Fmris, Logged, Lookup;
    RemovedKeys(s, f, time);
    var w := s.(parts := s.parts + States(RemoveResults(s, f, s.parts.Keys), time), cached := s.parts.Keys);
    forall n, g: Fmri | n in w.parts && Holds(w.parts[n].data, g) ensures Holds(w.parts[Base].data, g) {
      RemovedHolds(s, f, time, n, g);
      RemovedHolds(s, f, time, Base, g);
    }
    LoggedValid(w, f, REMOVE, time, if s.logging then EntriesOf(s, f, s.parts.Keys) else map[]);
  }

  lemma ValidKeys(s: Server)
    requires ValidServer(s)
    ensures s.attrs.parts.Keys == s.parts.Keys && s.cached <= s.parts.Keys && (s.parts != map[] ==> Base in s.parts)
  {
  }

  lemma OpenedValid(s: Server, names: set<PartName>)
    requires ValidServer(s) && names <= s.parts.Keys
    ensures ValidServer(s.(cached := s.cached + names))
  {
  }

  /** A part that holds `f` can remove it; if the base part does not hold it, no part does. */
  lemma LookupHolds(s: Server, f: Fmri, n: PartName)
    requires ValidServer(s) && n in s.parts
    ensures Lookup(s.parts[n].data, f).Some? <==> Holds(s.parts[n].data, f)
    ensures RemoveFrom(s.parts[n].data, f).Ok? <==> f.pub != "" && Holds(s.parts[n].data, f)
    ensures Holds(s.parts[n].data, f) ==> Holds(DataOf(s, Base), f)
  {
    hide ValidData, Sorted;
    FindHas(At(s.parts[n].data, f.pub, f.stem), f.ver);
  }

  /** As long as no visited part holds `f`, nothing has changed. */
  lemma RefusesNone(s: Server, f: Fmri, time: nat)
    requires ValidServer(s)
    ensures s.parts + States(RemoveResults(s, f, {}), time) == s.parts
    ensures !Holds(DataOf(s, Base), f) ==> forall names :: s.parts + States(RemoveResults(s, f, names), time) == s.parts
  {
    hide ValidServer, RemoveFrom, RemoveResults, States, Holds;
    NothingRemoved(s, f, {}, time);
    if !Holds(DataOf(s, Base), f) {
      forall n | n in s.parts ensures RemoveFrom(s.parts[n].data, f).Err? { LookupHolds(s, f, n); }
      forall names
        ensures s.parts + States(RemoveResults(s, f, names), time) == s.parts
      { NothingRemoved(s, f, names, time); }
    }
  }

  lemma NoEntriesOf(s: Server, f: Fmri)
    ensures EntriesOf(s, f, {}) == map[]
  {
  }

  lemma RemovedReady(s: Server, f: Fmri, time: nat)
    requires ValidServer(s)
    ensures var w := s.(parts := s.parts + States(RemoveResults(s, f, s.parts.Keys), time), cached := s.parts.Keys);
            ValidData(DataOf(w, Base)) && w.cached <= w.parts.Keys == w.attrs.parts.Keys
  {
    hide RemoveFrom, ValidData, Sorted, States;
    EmptyValid();
    RemovedWellFormed(s, f, time);
    RemovedKeys(s, f, time);
  }

  lemma AddedKeys(s: Server, f: Fmri, entries: map<PartName, Entry>, time: nat, now: nat)
    ensures Added(s, f, entries, time, now).parts.Keys == s.parts.Keys + AddResults(s, f, entries).Keys
  {
    hide AddTo;
  }

  lemma AddedData(s: Server, f: Fmri, entries: map<PartName, Entry>, time: nat, now: nat, n: PartName)
    ensures DataOf(Added(s, f, entries, time, now), n) ==
            if n in AddResults(s, f, entries) then AddResults(s, f, entries)[n] else DataOf(s, n)
    ensures n in AddResults(s, f, entries) ==>
            n in entries && AddTo(DataOf(s, n), f, entries[n], true) == Ok(AddResults(s, f, entries)[n])
  {
    hide AddTo;
  }

  lemma LookupNone(s: Server, f: Fmri, n: PartName)
    requires ValidServer(s) && !Holds(DataOf(s, Base), f)
    ensures Lookup(DataOf(s, n), f) == None
  {
    hide ValidServer;
    FindHas(At(DataOf(s, n), f.pub, f.stem), f.ver);
    EmptyHoldsNone(f);
    if n in s.parts { LookupHolds(s, f, n); }
  }
}
