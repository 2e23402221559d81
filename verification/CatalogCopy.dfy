/** A copy of a catalog, brought up to date in place (src/modules/catalog.py,
    Catalog.get_updates_needed and Catalog.apply_updates). */
module CatalogCopies {
  import opened Common
  import opened Versions
  import opened CatalogParts
  import opened UpdateLogs
  import opened Servers
  import opened Replays
  import opened Syncs
  import opened Copies

  datatype UpdateError =
    | NotUpdatable(why: SyncError)
    | ReplayFailed(cause: CatalogError)
    | BadSignatures

  /** `byLocale` groups `names` by locale. */
  ghost predicate Groups(byLocale: map<string, set<PartName>>, names: set<PartName>) {
    && byLocale.Keys == (set n | n in names :: Locale(n))
    && forall l :: l in byLocale ==> byLocale[l] == set n | n in names && Locale(n) == l
  }

  method AddToGroup(byLocale: map<string, set<PartName>>, n: PartName, ghost names: set<PartName>)
      returns (r: map<string, set<PartName>>)
    requires Groups(byLocale, names)
    ensures Groups(r, names + {n})
  {
    var l := Locale(n);
    r := byLocale[l := (if l in byLocale then byLocale[l] else {}) + {n}];
  }

  lemma NoGroups(groups: map<string, set<PartName>>, names: set<PartName>)
    requires Groups(groups, names) && groups == map[]
    ensures names == {}
  {
    assert groups.Keys == {};
    assert forall n :: n in names ==> Locale(n) in groups.Keys;
  }

  lemma GroupHas(groups: map<string, set<PartName>>, names: set<PartName>, l: string)
    requires Groups(groups, names) && l in groups
    ensures groups[l] != {} && groups[l] <= names
  {
    var n :| n in names && Locale(n) == l;
    assert n in groups[l];
  }

  ghost function AllOf(groups: map<string, set<PartName>>): set<PartName> {
    set l, n | l in groups && n in groups[l] :: n
  }

  lemma GroupsUnion(groups: map<string, set<PartName>>, names: set<PartName>)
    requires Groups(groups, names)
    ensures AllOf(groups) == names
    ensures groups != map[] ==> names != {}
  {
    forall n | n in names ensures n in AllOf(groups) { assert n in groups[Locale(n)]; }
    if groups != map[] {
      var l :| l in groups;
      var n :| n in names && Locale(n) == l;
    }
  }

  method Union(groups: map<string, set<PartName>>) returns (all: set<PartName>)
    ensures all == AllOf(groups)
  {
    all := {};
    var locales := groups.Keys;
    while locales != {}
      invariant locales <= groups.Keys
      invariant all == set l, n | l in groups.Keys - locales && n in groups[l] :: n
    {
      var l :| l in locales;
      locales := locales - {l};
      all := all + groups[l];
    }
  }

  lemma BeforeTotal(a: LogName, b: LogName)
    ensures a == b || Before(a, b) || Before(b, a)
  {
    LexTotal(Codes(a.locale), Codes(b.locale));
    if Codes(a.locale) == Codes(b.locale) { CodesInjective(a.locale, b.locale); }
  }

  lemma BeforeTransitive(a: LogName, b: LogName, c: LogName)
    requires Before(a, b) && Before(b, c)
    ensures Before(a, c)
  {
    if a.hour == b.hour == c.hour { LexTransitive(Codes(a.locale), Codes(b.locale), Codes(c.locale)); }
  }

  method InsertName(names: seq<LogName>, l: LogName) returns (r: seq<LogName>)
    requires InNameOrder(names) && l !in names
    ensures InNameOrder(r) && forall m :: m in r <==> m in names || m == l
  {
    var i := |names|;
    while i > 0 && Before(l, names[i - 1])
      invariant 0 <= i <= |names|
      invariant forall j :: i <= j < |names| ==> Before(l, names[j])
    {
      i := i - 1;
    }
    forall j | 0 <= j < i ensures Before(names[j], l) {
      BeforeTotal(names[i - 1], l);
      if j < i - 1 { BeforeTransitive(names[j], names[i - 1], l); }
    }
    hide Before;
    r := names[..i] + [l] + names[i..];
    assert names == names[..i] + names[i..];
  }

  /** `sorted()` of a set of log names. */
  method SortNames(names: set<LogName>) returns (sorted: seq<LogName>)
    ensures InNameOrder(sorted) && forall l :: l in sorted <==> l in names
  {
    sorted := [];
    var left := names;
    while left != {}
      invariant left <= names
      invariant InNameOrder(sorted) && forall l :: l in sorted <==> l in names - left
    {
      var l :| l in left;
      left := left - {l};
      sorted := InsertName(sorted, l);
    }
  }

  /** What an answer names is among what the catalog offers. */
  lemma NamesOffered(r: Needs, own: Attrs, files: Server)
    requires Answers(r, own, files.attrs) && files.parts.Keys == files.attrs.parts.Keys
    requires files.attrs.updates.Keys <= files.logs.Keys
    ensures r.Full? ==> r.names <= files.parts.Keys
    ensures r.Incremental? ==> forall l :: l in r.logs ==> l in files.logs
  {
  }

  lemma UsedOpened(held: set<PartName>, used: set<PartName>, ups: seq<Update>)
    requires used == set n | n in held && exists u :: u in ups && n in u.parts
    ensures forall n :: n in held ==> (n in used + {Base} <==> Opened(n, ups))
  {
  }

  /** An operation that fails on a part fails the whole replay. */
  lemma FailureStays(c: Copy, ups: seq<Update>, i: nat)
    requires i <= |ups| && c.held.Keys <= c.attrs.parts.Keys
    requires exists n :: n in c.held && Replayed(c, n, ups[..i]).Err?
    ensures exists n :: n in c.held && Replayed(c, n, ups).Err?
  {
    var n :| n in c.held && Replayed(c, n, ups[..i]).Err?;
    assert ups == ups[..i] + ups[i..];
    ReplayConcat(c.held[n], n, c.attrs.parts[n], ups[..i], ups[i..], false);
    assert Replayed(c, n, ups).Err?;
  }

  /** The operations of the logs named, in the order of the names. */
  method ReadLogs(logs: seq<LogName>, files: map<LogName, LogState>) returns (readings: seq<seq<Update>>)
    requires forall l :: l in logs ==> l in files
    ensures AreReadings(readings, logs, files)
  {
    hide IsReading;
    readings := [];
    for i := 0 to |logs|
      invariant AreReadings(readings, logs[..i], files)
    {
      var ups := ReadLog(files[logs[i]].data);
      readings := readings + [ups];
    }
    assert logs[..|logs|] == logs;
  }

  class CatalogCopy {
    var attrs: Attrs
    var parts: map<PartName, PartData>

    function Model(): Copy
      reads this
    {
      Copy(attrs, parts)
    }

    constructor (attrs: Attrs, parts: map<PartName, PartData>)
      ensures Model() == Copy(attrs, parts)
    {
      this.attrs, this.parts := attrs, parts;
    }

    // ------------------------------------------------------ get_updates_needed

    /** The parts whose times changed, by locale, and whether the logs offered reach back to them. */
    method CompareParts(now: Attrs)
        returns (error: Option<SyncError>, changed: map<string, set<PartName>>, incremental: bool)
      ensures error.Some? && error.value.BadIdentity? ==> exists n :: n in attrs.parts && n !in now.parts
      ensures error.Some? && error.value.Obsolete? ==>
              exists n :: n in attrs.parts && n in now.parts && now.parts[n] < attrs.parts[n]
      ensures error.None? ==> forall n :: n in attrs.parts ==> n in now.parts && now.parts[n] >= attrs.parts[n]
      ensures error.None? ==> Groups(changed, Changed(attrs, now))
      ensures error.None? ==>
              (incremental <==> forall n :: n in Changed(attrs, now) ==> LogFor(attrs, n) in now.updates)
    {
      error, changed, incremental := None, map[], true;
      var names := attrs.parts.Keys;
      ghost var seen: set<PartName> := {};
      while names != {}
        invariant names !! seen && names + seen == attrs.parts.Keys
        invariant forall n :: n in seen ==> n in now.parts && now.parts[n] >= attrs.parts[n]
        invariant Groups(changed, Changed(attrs, now) * seen)
        invariant incremental <==> forall n :: n in Changed(attrs, now) * seen ==> LogFor(attrs, n) in now.updates
      {
        var n :| n in names;
        names := names - {n};
        if n !in now.parts { return Some(BadIdentity), changed, false; }
        if now.parts[n] < attrs.parts[n] { return Some(Obsolete), changed, false; }
        if now.parts[n] != attrs.parts[n] {
          if LogName(HourOf(attrs.parts[n]), Locale(n)) !in now.updates { incremental := false; }
          changed := AddToGroup(changed, n, Changed(attrs, now) * seen);
          assert Changed(attrs, now) * (seen + {n}) == Changed(attrs, now) * seen + {n};
        } else {
          assert Changed(attrs, now) * (seen + {n}) == Changed(attrs, now) * seen;
        }
        seen := seen + {n};
      }
      assert Changed(attrs, now) * seen == Changed(attrs, now);
    }

    /** The groups with the parts that are new to the copy added. */
    method AddNewParts(now: Attrs, changed: map<string, set<PartName>>)
        returns (all: map<string, set<PartName>>, incremental: bool)
      requires Groups(changed, Changed(attrs, now))
      ensures Groups(all, Changed(attrs, now) + NewParts(attrs, now))
      ensures incremental <==> NewParts(attrs, now) == {}
    {
      all, incremental := changed, true;
      var locales := {"C"} + changed.Keys;
      var names := now.parts.Keys;
      ghost var seen: set<PartName> := {};
      ghost var added := NewParts(attrs, now);
      while names != {}
        invariant names !! seen && names + seen == now.parts.Keys
        invariant Groups(all, Changed(attrs, now) + added * seen)
        invariant incremental <==> added * seen == {}
      {
        var n :| n in names;
        names := names - {n};
        if n !in attrs.parts && Locale(n) in locales && KnownType(n) {
          incremental := false;
          all := AddToGroup(all, n, Changed(attrs, now) + added * seen);
          assert n in added;
          assert Changed(attrs, now) + added * (seen + {n}) == Changed(attrs, now) + added * seen + {n};
        } else {
          assert n !in added;
          assert added * (seen + {n}) == added * seen;
        }
        seen := seen + {n};
      }
      assert added * seen == added;
    }

    /** The logs of locale `l` that are newer than the newest of the parts `names`. */
    method LogsFor(now: Attrs, l: string, names: set<PartName>) returns (logs: set<LogName>)
      requires names != {} && names <= attrs.parts.Keys
      ensures logs == set u | u in now.updates && u.locale == l && forall n :: n in names ==>
              attrs.parts[n] < now.updates[u]
    {
      var lastLm: Option<nat> := None;
      var left := names;
      while left != {}
        invariant left <= names
        invariant lastLm.None? <==> left == names
        invariant forall n :: n in names - left ==> attrs.parts[n] <= lastLm.value
        invariant lastLm.Some? ==> exists n :: n in names && attrs.parts[n] == lastLm.value
      {
        var n :| n in left;
        left := left - {n};
        var lm := attrs.parts[n];
        if lastLm.None? || lm > lastLm.value { lastLm := Some(lm); }
      }
      logs := {};
      var updates := now.updates.Keys;
      while updates != {}
        invariant updates <= now.updates.Keys
        invariant logs == set u | u in now.updates.Keys - updates && u.locale == l && lastLm.value < now.updates[u]
      {
        var u :| u in updates;
        updates := updates - {u};
        if u.locale == l && !(now.updates[u] <= lastLm.value) { logs := logs + {u}; }
      }
    }

    /** The answer to what is needed to bring this copy up to date with the catalog offered. */
    method GetUpdatesNeeded(offered: Option<Attrs>) returns (r: Needs)
      ensures offered.None? ==> r == NoChange
      ensures offered.Some? ==> Answers(r, attrs, offered.value)
    {
      if offered.None? { return NoChange; }
      var now := offered.value;
      if attrs.created != now.created { return Refused(BadIdentity); }
      if now.lm == attrs.lm { return NoChange; }
      hide Changed, NewParts, CanReplay, InNameOrder, LogsNeeded, Groups;
      var error, changed, reachable := CompareParts(now);
      if error.Some? { return Refused(error.value); }
      r := ChooseFiles(now, changed, reachable);
    }

    method ChooseFiles(now: Attrs, changed: map<string, set<PartName>>, reachable: bool) returns (r: Needs)
      requires Groups(changed, Changed(attrs, now))
      requires reachable <==> forall n :: n in Changed(attrs, now) ==> LogFor(attrs, n) in now.updates
      ensures var names := Changed(attrs, now) + NewParts(attrs, now);
              if names == {} then r == Nothing
              else if !CanReplay(attrs, now) then r == Full(names)
              else r.Incremental? && InNameOrder(r.logs) && forall l :: l in r.logs <==> l in LogsNeeded(attrs, now)
    {
      hide Changed, NewParts, InNameOrder, LogsNeeded, Groups, LogFor;
      ghost var names := Changed(attrs, now) + NewParts(attrs, now);
      var all, nothingNew := AddNewParts(now, changed);
      if all == map[] {
        NoGroups(all, names);
        return Nothing;
      }
      GroupsUnion(all, names);
      if !(reachable && nothingNew) {
        var files := Union(all);
        return Full(files);
      }
      assert names == Changed(attrs, now);
      var logs := SelectLogs(now, all);
      var sorted := SortNames(logs);
      r := Incremental(sorted);
    }

    method SelectLogs(now: Attrs, groups: map<string, set<PartName>>) returns (logs: set<LogName>)
      requires Groups(groups, Changed(attrs, now))
      ensures logs == LogsNeeded(attrs, now)
    {
      logs := {};
      var locales := groups.Keys;
      while locales != {}
        invariant locales <= groups.Keys
        invariant logs == set u | u in LogsNeeded(attrs, now) && u.locale !in locales
      {
        var l :| l in locales;
        locales := locales - {l};
        GroupHas(groups, Changed(attrs, now), l);
        var more := LogsFor(now, l, groups[l]);
        assert more == set u | u in LogsNeeded(attrs, now) && u.locale == l;
        logs := logs + more;
      }
      assert forall u :: u in LogsNeeded(attrs, now) ==> u.locale in groups.Keys;
    }

    // ----------------------------------------------------------- apply_updates

    /** One logged operation, applied to the parts of this copy that it names and that are older. */
    method ApplyUpdate(u: Update, oldParts: map<PartName, nat>) returns (error: Option<CatalogError>)
      requires parts.Keys <= oldParts.Keys
      modifies this`parts
      ensures error.None? ==> parts.Keys == old(parts.Keys)
      ensures error.None? ==> forall n :: n in parts ==>
              ReplayStep(old(parts)[n], n, oldParts[n], u, false) == Ok(parts[n])
      ensures error.Some? ==> exists n :: n in old(parts) && ReplayStep(old(parts)[n], n, oldParts[n], u, false).Err?
    {
      hide AddTo, RemoveFrom;
      error := None;
      var names := u.parts.Keys;
      ghost var before := parts;
      while names != {}
        invariant names <= u.parts.Keys && parts.Keys == before.Keys
        invariant forall n :: n in names && n in parts ==> parts[n] == before[n]
        invariant forall n :: n in parts && n !in names ==>
                  ReplayStep(before[n], n, oldParts[n], u, false) == Ok(parts[n])
      {
        var n :| n in names;
        names := names - {n};
        if n in parts && u.time > oldParts[n] {
          var r := match u.kind
            case ADD => AddTo(parts[n], u.f, u.parts[n], false)
            case REMOVE => RemoveFrom(parts[n], u.f);
          if r.Err? { return Some(r.error); }
          parts := parts[n := r.value];
        }
      }
    }

    /** The operations of the logs, one after the other; `used` are the parts they were looked up in. */
    method ApplyIncremental(ups: seq<Update>) returns (error: Option<CatalogError>, used: set<PartName>)
      requires parts.Keys <= attrs.parts.Keys
      modifies this`parts
      ensures error.None? ==> parts.Keys == old(parts.Keys)
      ensures error.None? ==> forall n :: n in parts ==> Replayed(old(Model()), n, ups) == Ok(parts[n])
      ensures error.Some? ==> exists n :: n in old(parts) && Replayed(old(Model()), n, ups).Err?
      ensures error.None? ==> used == set n | n in parts && exists u :: u in ups && n in u.parts
    {
      hide ReplayStep;
      error, used := None, {};
      ghost var c := Model();
      var i := 0;
      assert ups[..0] == [];
      while i < |ups|
        invariant 0 <= i <= |ups| && error.None? && parts.Keys == c.held.Keys
        invariant forall n :: n in parts ==> Replayed(c, n, ups[..i]) == Ok(parts[n])
        invariant used == set n | n in parts && exists u :: u in ups[..i] && n in u.parts
      {
        assert ups[..i + 1] == ups[..i] + [ups[i]];
        assert Front(ups[..i + 1]) == ups[..i] && Last(ups[..i + 1]) == ups[i];
        error := ApplyUpdate(ups[i], attrs.parts);
        if error.Some? {
          FailureStays(c, ups, i + 1);
          return;
        }
        used := used + set n | n in ups[i].parts && n in parts;
        i := i + 1;
      }
      assert ups[..i] == ups;
    }

    /** The used parts are sorted and compared with the catalog's, whose attributes are then taken over. */
    method Finalize(files: Server, used: set<PartName>, ghost ups: seq<Update>) returns (ok: bool)
      requires forall n :: n in parts ==> (n in used <==> Opened(n, ups))
      modifies this
      ensures ok <==> Finish(files, old(parts), ups).Some?
      ensures ok ==> Finish(files, old(parts), ups) == Some(Model())
      ensures !ok ==> attrs == old(attrs)
    {
      hide Opened, SortAll;
      ghost var before := parts;
      ok := true;
      var names := used;
      while names != {}
        invariant names <= used && attrs == old(attrs)
        invariant parts == map n | n in before :: if n in used - names then SortAll(before[n]) else before[n]
        invariant ok <==> forall n :: n in before && n in used - names ==>
                  n in files.parts && SortAll(before[n]) == files.parts[n].data
      {
        var n :| n in names;
        names := names - {n};
        if n in parts {
          parts := parts[n := SortAll(parts[n])];
          if n !in files.parts || parts[n] != files.parts[n].data { ok := false; }
        }
      }
      assert parts == map n | n in before :: if Opened(n, ups) then SortAll(before[n]) else before[n];
      if ok { attrs := files.attrs; }
    }

    /** This copy is brought up to date with the catalog whose files were retrieved:
        its attributes, and the parts and logs that these list. */
    method ApplyUpdates(files: Server)
        returns (r: Result<(), UpdateError>, ghost answer: Needs, ghost readings: seq<seq<Update>>)
      requires parts.Keys <= attrs.parts.Keys
      requires files.parts.Keys == files.attrs.parts.Keys && files.attrs.updates.Keys <= files.logs.Keys
      modifies this
      ensures Answers(answer, old(attrs), files.attrs)
      ensures answer.Incremental? ==> AreReadings(readings, answer.logs, files.logs)
      ensures r.Ok? <==> Outcome(old(Model()), files, answer, readings).Some?
      ensures r.Ok? ==> Outcome(old(Model()), files, answer, readings) == Some(Model())
      ensures r.Err? ==> attrs == old(attrs)
    {
      hide Answers, Finish, Replayed, IsReading, Opened;
      ghost var c := Model();
      var needs := GetUpdatesNeeded(Some(files.attrs));
      answer, readings := needs, [];
      answer := needs;
      var used: set<PartName>, ups: seq<Update> := {}, [];
      match needs {
        case NoChange => r := Ok(()); return;
        case Refused(e) => r := Err(NotUpdatable(e)); return;
        case Nothing =>
        case Full(names) =>
          NamesOffered(needs, attrs, files);
          parts := parts + map n | n in names :: files.parts[n].data;
        case Incremental(logs) =>
          NamesOffered(needs, attrs, files);
          var contents := ReadLogs(logs, files.logs);
          readings, ups := contents, Flatten(contents);
          var error;
          error, used := ApplyIncremental(ups);
          if error.Some? { r := Err(ReplayFailed(error.value)); return; }
          assert parts == map n | n in c.held :: Replayed(c, n, ups).value;
      }
      UsedOpened(parts.Keys, used, ups);
      assert Outcome(c, files, needs, readings) == Finish(files, parts, ups);
      var ok := Finalize(files, used + {Base}, ups);
      r := if ok then Ok(()) else Err(BadSignatures);
    }
  }
}
