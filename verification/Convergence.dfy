/** A copy updated in place at any point of any run of the protocol
    (src/modules/catalog.py, Catalog.apply_updates). */
module Convergence {
  import opened Common
  import opened VersionLists
  import opened CatalogParts
  import opened UpdateLogs
  import opened ManifestActions
  import opened Servers
  import opened Histories
  import opened Syncs
  import opened Copies
  import opened CatalogCopies
  import opened Protocol

  lemma InvariantFits(a: System, k: nat, asof: nat)
    requires Invariant(a, k, asof)
    ensures a.copy.held.Keys <= a.copy.attrs.parts.Keys
    ensures a.server.parts.Keys == a.server.attrs.parts.Keys && a.server.attrs.updates.Keys <= a.server.logs.Keys
  {
    hide InOrder, PartsTrack, LogsTrack, UpdatesTrack, PartAt, WellFormedParts, BaseCovers, Counted, LastTime;
  }

  /** What a run leaves is fit to be updated from. */
  lemma RunFits(states: seq<System>, events: seq<Event>)
    requires IsRun(states, events) && Initial(states[0])
    ensures var a := Last(states);
            && a.copy.held.Keys <= a.copy.attrs.parts.Keys
            && a.server.parts.Keys == a.server.attrs.parts.Keys && a.server.attrs.updates.Keys <= a.server.logs.Keys
  {
    var k, asof := RunKeeps(states, events);
    var a := Last(states);
    InvariantFits(a, k, asof);
  }

  /** Whatever happened before, the update succeeds: no exception is raised and no
      signature is wrong.  The parts of the copy then are the catalog's, with none of
      the C locale missing, and a second update finds nothing to do. */
  method UpdateInRun(copy: CatalogCopy, files: Server, ghost states: seq<System>, ghost events: seq<Event>)
      returns (r: Result<(), UpdateError>)
    requires IsRun(states, events) && Initial(states[0])
    requires copy.Model() == Last(states).copy && files == Last(states).server
    modifies copy
    ensures r.Ok? && Matches(copy.Model(), files) && Complete(copy.Model(), files)
    ensures forall n :: n in {Base, Dependency, Summary("C")} && n in files.parts && files.parts[n].data != Empty ==>
              n in copy.parts
    ensures old(copy.parts).Keys <= copy.parts.Keys
    ensures forall again :: Answers(again, copy.attrs, files.attrs) ==> again == NoChange
  {
    ghost var a := Last(states);
    hide IsRun, Initial, Answers, Outcome, Matches, Complete, AreReadings;
    RunFits(states, events);
    ghost var answer, readings;
    r, answer, readings := copy.ApplyUpdates(files);
    RunsConverge(states, events, answer, readings);
  }

  /** What `add_package` does to a catalog, its manifest's entries included, is a step of a run. */
  lemma AddIsStep(a: System, f: Fmri, manifest: Option<seq<Action>>, base: Entry, time: nat, now: nat)
    requires Publishable(f) && !Holds(DataOf(a.server, Base), f) && a.clock < time <= now
    requires forall n :: n in a.server.cached && n !in EntriesFor(f.ver, base, Taken(manifest)) ==> !Stale(a.server, n)
    ensures var entries := EntriesFor(f.ver, base, Taken(manifest));
            Step(a, AddPackage(f, entries, time, now),
                 a.(server := Added(a.server, f, entries, time, now), history := a.history +
                   [Update(f, ADD, time, entries)], clock := now))
  {
    hide EntriesFor, Taken, Texts, Added, Holds, Stale;
    var entries := EntriesFor(f.ver, base, Taken(manifest));
    EntriesAre(f.ver, base, manifest, Base);
    forall n | n in entries ensures entries[n].version == f.ver { EntriesAre(f.ver, base, manifest, n); }
  }
}
