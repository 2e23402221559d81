/** Update logs: the catalog operations of one hour and one locale, grouped by
    package (src/modules/catalog.py, CatalogUpdate). */
module UpdateLogs {
  import opened Common
  import opened Versions
  import opened VersionLists
  import opened CatalogParts

  /** "update.<date and hour>.<locale>". */
  datatype LogName = LogName(hour: nat, locale: string)

  /** Times are counted in microseconds. */
  const HOUR: nat := 3_600_000_000

  function HourOf(time: nat): nat {
    time / HOUR
  }

  datatype OpType = ADD | REMOVE

  /** A logged operation, with the entry added to or removed from each part. */
  datatype LogEntry = LogEntry(kind: OpType, time: nat, version: Version, parts: map<PartName, Entry>)

  /** The contents of a log, by publisher and stem. */
  datatype LogData = LogData(pubs: map<string, map<string, seq<LogEntry>>>)

  const EmptyLog: LogData := LogData(map[])

  /** What `CatalogUpdate.updates` yields for a logged operation. */
  datatype Update = Update(f: Fmri, kind: OpType, time: nat, parts: map<PartName, Entry>)

  function LogAt(d: LogData, pub: string, stem: string): seq<LogEntry> {
    if pub in d.pubs && stem in d.pubs[pub] then d.pubs[pub][stem] else []
  }

  function LogAppend(d: LogData, f: Fmri, e: LogEntry): LogData {
    var stems := if f.pub in d.pubs then d.pubs[f.pub] else map[];
    LogData(d.pubs[f.pub := stems[f.stem := LogAt(d, f.pub, f.stem) + [e]]])
  }

  lemma LogAtAppend(d: LogData, f: Fmri, e: LogEntry)
    ensures forall p, s :: LogAt(LogAppend(d, f, e), p, s) ==
                           LogAt(d, p, s) + if p == f.pub && s == f.stem then [e] else []
  {
  }

  function ToUpdate(pub: string, stem: string, e: LogEntry): Update {
    Update(Fmri(pub, stem, e.version), e.kind, e.time, e.parts)
  }

  function ToUpdates(pub: string, stem: string, list: seq<LogEntry>): (r: seq<Update>)
    ensures |r| == |list| && forall i :: 0 <= i < |r| ==> r[i] == ToUpdate(pub, stem, list[i])
  {
    seq(|list|, i requires 0 <= i < |list| => ToUpdate(pub, stem, list[i]))
  }

  /** The updates of one package, in the order of the whole sequence. */
  ghost function Project(ups: seq<Update>, pub: string, stem: string): seq<Update> {
    if ups == [] then []
    else Project(Front(ups), pub, stem) +
         if Last(ups).f.pub == pub && Last(ups).f.stem == stem then [Last(ups)] else []
  }

  lemma {:induction false} ProjectConcat(a: seq<Update>, b: seq<Update>, pub: string, stem: string)
    ensures Project(a + b, pub, stem) == Project(a, pub, stem) + Project(b, pub, stem)
  {
    if b == [] {
      assert a + b == a;
    } else {
      assert Front(a + b) == a + Front(b) && Last(a + b) == Last(b);
      ProjectConcat(a, Front(b), pub, stem);
    }
  }

  lemma {:induction false} ProjectSame(ups: seq<Update>, pub: string, stem: string)
    requires forall u :: u in ups ==> u.f.pub == pub && u.f.stem == stem
    ensures Project(ups, pub, stem) == ups
    ensures forall p, s :: p != pub || s != stem ==> Project(ups, p, s) == []
  {
    if ups != [] {
      assert ups == Front(ups) + [Last(ups)];
      ProjectSame(Front(ups), pub, stem);
      assert Last(ups) in ups;
    }
  }

  /** `ups` lists the operations of a log package by package: each package's in
      the order of the log, and nothing else.  Reserved publishers are passed over. */
  ghost predicate IsReading(ups: seq<Update>, d: LogData) {
    forall p, s :: Project(ups, p, s) == if Reserved(p) then [] else ToUpdates(p, s, LogAt(d, p, s))
  }

  method PublisherUpdates(d: LogData, p: string) returns (ups: seq<Update>)
    requires p in d.pubs
    ensures forall q, s :: Project(ups, q, s) == if q == p then ToUpdates(p, s, LogAt(d, p, s)) else []
  {
    ups := [];
    var stems := d.pubs[p].Keys;
    while stems != {}
      invariant stems <= d.pubs[p].Keys
      invariant forall q, s :: Project(ups, q, s) ==
                  if q == p && s !in stems then ToUpdates(p, s, LogAt(d, p, s)) else []
    {
      var s :| s in stems;
      stems := stems - {s};
      var more := ToUpdates(p, s, d.pubs[p][s]);
      forall u | u in more ensures u.f.pub == p && u.f.stem == s {
        var i :| 0 <= i < |more| && more[i] == u;
      }
      ProjectSame(more, p, s);
      forall q, z { ProjectConcat(ups, more, q, z); }
      ups := ups + more;
    }
  }

  /** The operations of a log; publishers and stems come in any order. */
  method ReadLog(d: LogData) returns (ups: seq<Update>)
    ensures IsReading(ups, d)
  {
    ups := [];
    var pubs := d.pubs.Keys;
    while pubs != {}
      invariant pubs <= d.pubs.Keys
      invariant forall p, s :: Project(ups, p, s) ==
                  if p in pubs || Reserved(p) then [] else ToUpdates(p, s, LogAt(d, p, s))
    {
      var p :| p in pubs;
      pubs := pubs - {p};
      if !Reserved(p) {
        var more := PublisherUpdates(d, p);
        forall q, s { ProjectConcat(ups, more, q, s); }
        ups := ups + more;
      }
    }
  }

  class CatalogUpdate {
    const name: LogName
    var data: LogData
    var lastModified: nat

    constructor (name: LogName, now: nat)
      ensures this.name == name && data == EmptyLog && lastModified == now
    {
      this.name := name;
      data := EmptyLog;
      lastModified := now;
    }

    method Add(f: Fmri, kind: OpType, opTime: nat, metadata: map<PartName, Entry>) returns (r: Result<(), CatalogError>)
      modifies this
      ensures r == if f.pub == "" then Err(Anarchical) else Ok(())
      ensures r.Err? ==> data == old(data) && lastModified == old(lastModified)
      ensures r.Ok? ==>
              data == LogAppend(old(data), f, LogEntry(kind, opTime, f.ver, metadata))
              && lastModified == opTime
    {
      if f.pub == "" { return Err(Anarchical); }
      var pubs := if f.pub in data.pubs then data.pubs else data.pubs[f.pub := map[]];
      var pkgList := pubs[f.pub];
      if f.stem !in pkgList { pkgList := pkgList[f.stem := []]; }
      var verList := pkgList[f.stem];
      verList := verList + [LogEntry(kind, opTime, f.ver, metadata)];
      data := LogData(pubs[f.pub := pkgList[f.stem := verList]]);
      assert data.pubs[f.pub] == LogAppend(old(data), f, LogEntry(kind, opTime, f.ver, metadata)).pubs[f.pub];
      assert data.pubs == LogAppend(old(data), f, LogEntry(kind, opTime, f.ver, metadata)).pubs;
      lastModified := opTime;
      r := Ok(());
    }

    method Updates() returns (ups: seq<Update>)
      ensures IsReading(ups, data)
    {
      ups := ReadLog(data);
    }
  }
}
