/** What an update does to a copy of a catalog (src/modules/catalog.py, Catalog.apply_updates). */
module Copies {
  import opened Common
  import opened CatalogParts
  import opened UpdateLogs
  import opened Servers
  import opened Replays
  import opened Syncs

  /** A copy: the attributes fetched last, and the parts kept on disk. */
  datatype Copy = Copy(attrs: Attrs, held: map<PartName, PartData>)

  function Replayed(c: Copy, n: PartName, ups: seq<Update>): Result<PartData, CatalogError>
    requires n in c.held && n in c.attrs.parts
  {
    Replay(c.held[n], n, c.attrs.parts[n], ups, false)
  }

  /** The parts that a replay opens: the base part, and those some operation has an entry for. */
  ghost predicate Opened(n: PartName, ups: seq<Update>) {
    n == Base || exists u :: u in ups && n in u.parts
  }

  /** The end of `apply_updates`: the opened parts are sorted; None when one of
      them does not have the signature (here: the contents) of the catalog's part. */
  ghost function Finish(s: Server, held: map<PartName, PartData>, ups: seq<Update>): Option<Copy> {
    if forall n :: n in held && Opened(n, ups) ==> n in s.parts && SortAll(held[n]) == s.parts[n].data
    then Some(Copy(s.attrs, map n | n in held :: if Opened(n, ups) then SortAll(held[n]) else held[n]))
    else None
  }

  /** The copy after `apply_updates` was answered `r`; None when it raises. */
  ghost function Outcome(c: Copy, s: Server, r: Needs, readings: seq<seq<Update>>): Option<Copy> {
    match r
    case Refused(_) => None
    case NoChange => Some(c)
    case Nothing => Finish(s, c.held, [])
    case Full(names) =>
      if names <= s.parts.Keys then Finish(s, c.held + map n | n in names :: s.parts[n].data, []) else None
    case Incremental(_) =>
      var ups := Flatten(readings);
      if forall n :: n in c.held ==> n in c.attrs.parts && Replayed(c, n, ups).Ok?
      then Finish(s, map n | n in c.held :: Replayed(c, n, ups).value, ups) else None
  }

  lemma {:induction false} NotOpened(d: PartData, n: PartName, lm: int, ups: seq<Update>, sorted: bool)
    requires forall u :: u in ups ==> n !in u.parts
    ensures Replay(d, n, lm, ups, sorted) == Ok(d)
  {
    if ups != [] {
      assert ups == Front(ups) + [Last(ups)];
      NotOpened(d, n, lm, Front(ups), sorted);
      assert Last(ups) in ups;
    }
  }

  /** When the sorted parts are the catalog's, and the parts that were not opened
      were sorted before, the update ends with the catalog's parts. */
  lemma FinishFits(s: Server, held: map<PartName, PartData>, ups: seq<Update>)
    requires forall n :: n in held ==> n in s.parts && SortAll(held[n]) == s.parts[n].data
    requires forall n :: n in held && !Opened(n, ups) ==> ValidData(held[n]) && Sorted(held[n])
    ensures Finish(s, held, ups) == Some(Copy(s.attrs, map n | n in held :: s.parts[n].data))
  {
    hide SortAll, ValidData, Sorted, Opened;
    forall n | n in held && !Opened(n, ups) ensures SortAll(held[n]) == held[n] { SortAllOfSorted(held[n]); }
    assert (map n | n in held :: if Opened(n, ups) then SortAll(held[n]) else held[n]) == map n | n in held ::
      s.parts[n].data;
  }
}
