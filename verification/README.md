# pkg5 in Dafny

This project models the parts of the Image Packaging System in which state, order
and encoding interact, and proves what they are relied upon for.

* **The catalog and its replication** (`src/modules/catalog.py`). A publishing
  catalog is a set of parts (base, dependency, one summary part per locale), each
  publisher -> stem -> ordered version list, with hourly update logs per locale.
  A copy compares recorded times, picks logs or whole parts, replays the logs with
  a time filter per part and sorts at the end. `CatalogPart`, `UpdateLog`,
  `Catalog` and `CatalogCopy` are classes whose methods loop and assign as those in
  Python do; each is proved against functions of its state. `Server`,
  `History`, `Replay`, `Sync`, `Copies` and `Protocol` hold those functions and
  the proof of the protocol: in every run of additions, removals, refusals, log
  drops, reopenings, fetches and updates, an update succeeds and makes the copy equal
  to the catalog (`Protocol.RunsConverge`, and for the in-place update
  `Convergence.UpdateInRun`). `Reopening` and `Repetition` are about the one thing that
  such runs must not do. `Timestamps` connects the hours used there with the
  texts in file names; `Listing` is the selection of packages by patterns.
* **Reading cpio archives forward** (`src/modules/cpiofile.py`): `Stream`,
  `ExFile`, `CpioHeader`, `CpioFile`, and, for archives as they are written,
  `CpioArchive`.
* **Editing line-oriented files** (`src/modules/cfgfiles.py`): `CfgText`,
  `CfgFile`, `GroupFile`, `UserAttr`.
* **The closure of dependencies** (`src/pull.py`): `Pull`.
* **Two C loops** (`src/modules/_misc.c`, `src/modules/_varcet.c`): `FastQuote`
  and `Varcet`.

Times are counted in microseconds. Version order is that of `version.py`, in which
versions that differ in their build release compare as equal; nothing assumes that
versions are otherwise distinguishable.

## Where the code does not do what is expected of it

* The file times of catalog parts are whole seconds (`catalog.py:381-385`), and a
  part that is opened again takes its time from its file (`catalog.py:247-261`): it
  is stale when its recorded time is not a whole second. A modification gives it its
  proper time again, so that opening again and adding packages is harmless. But the
  time of every open part goes into the attributes with the next logged operation
  (`catalog.py:1788-1793`) or the next `save`, and the time of a stale part is too
  early. Copies made before are then refused (`Reopenings.StaleRefused`; after a
  removal and an addition, `RemovalRefused` and `AdditionRefused` say exactly when).
  Copies made afterwards may replay what they already have, and fail
  (`Reopenings.FetchedThenFails`, `Repetitions.RepeatedReplay`). `RefusedRun` and
  `FailingRun` give such runs. `Protocol` allows a catalog to be opened again at any
  time, and no event that records the time of a stale part.
* `remove_package` on a catalog without any part succeeds and counts as a
  modification (`catalog.py:3605-3644`); the model does the same.
* A refused `add_package` on an empty catalog leaves an empty base part behind.
* `adduser` and `subuser` read a list as cut at commas and spaces, `getgroups` at
  commas alone (`cfgfiles.py:355-378`): rewriting a list with spaces in it can make
  members of users who were none (`GroupFiles.OthersUnchanged`,
  `GroupFiles.SpaceMakesMember`).
* A user_attr column without an equals sign raises an IndexError, and text behind
  a second equals sign is dropped (`cfgfiles.py:463-465`); `UserAttrs.RoundTrip`
  says exactly which records survive.
* A comment in `_varcet.c` says that list values disallow an action
  (`_varcet.c:162-171`); the conversion to text it relies on does not fail for
  lists, so they count as values other than "all". The code is followed.

## Model

| member | source | states |
|---|---|---|
| Versions.LessTrichotomy | src/modules/version.py:419-460 | Of two versions exactly one of `<`, `>` and `==` holds; `==` ignores the build release, so versions that differ can compare as equal |
| Versions.LessTransitive | src/modules/version.py:429-460 | The comparison of versions (release, then branch, then timestamp, an absent component first) is transitive |
| Versions.LeTransitive | src/modules/version.py:429-460 | "Not after" is transitive too, equal-comparing versions included, which is what sorting relies on |
| Versions.LessMeans | src/modules/version.py:429-460 | What decides between two versions: the number where their releases begin to differ, or which is a beginning of the other; then the branches likewise; then the timestamps as text; an absent component comes first |
| VersionLists.SortAscending | src/modules/catalog.py:833-875 | Sorting a version list leaves it in ascending order |
| VersionLists.SortMultiset | src/modules/catalog.py:833-875 | Sorting keeps exactly the entries of the list, as a multiset |
| VersionLists.SortStable | src/modules/catalog.py:833-875 | Entries whose versions compare as equal keep their order |
| VersionLists.SortUnique | src/modules/catalog.py:833-875 | Any ascending list with the same entries, and the same order among equal-comparing ones, is the sorted list: the sort is determined |
| VersionLists.SortAppend | src/modules/catalog.py:833-875 | Sorting after one more entry was appended to the sorted list is sorting after it was appended to the unsorted one |
| VersionLists.SortWithout | src/modules/catalog.py:777-812 | Removing a version and sorting commute |
| VersionLists.WithoutMembers | src/modules/catalog.py:777-812 | Removing a version removes its entries and no other |
| CatalogParts.AddKeeps | src/modules/catalog.py:455-504 | After an addition no stem or publisher is empty and versions are distinct; a part kept in order is still in order |
| CatalogParts.RemoveKeeps | src/modules/catalog.py:777-812 | The same after a removal |
| CatalogParts.HoldsAfterAdd | src/modules/catalog.py:455-504 | A part holds, after an addition, what it held before and the package added, and nothing else |
| CatalogParts.LookupAfterAdd | src/modules/catalog.py:455-504 | The entry that was added is the one that a lookup finds |
| CatalogParts.HoldsAfterRemove | src/modules/catalog.py:777-812 | A part holds, after a removal, what it held before but for the package removed |
| CatalogParts.LastIsNewest | src/modules/catalog.py:436-440 | In an ordered part the entry at index -1 exists and is a newest version of its package |
| CatalogParts.ReservedIs | src/modules/catalog.py:771-775 | Publishers are passed over exactly when their names begin with an underscore |
| CatalogParts.Extensional | src/modules/catalog.py:455-504 | Two parts without empty stems or publishers that list the same entries for every package are equal |
| CatalogParts.SortAllOfSorted | src/modules/catalog.py:833-875 | Sorting an ordered part changes nothing |
| CatalogParts.CatalogPart.Add | src/modules/catalog.py:455-504 | The loop that looks for the version, the append and the sort leave exactly the part that the addition specifies; an FMRI without publisher and a version already there are refused and change nothing |
| CatalogParts.CatalogPart.Remove | src/modules/catalog.py:777-812 | The removal leaves exactly the part specified, emptied stems and publishers gone; an unknown package is refused and nothing changes |
| CatalogParts.CatalogPart.GetEntry | src/modules/catalog.py:645-669 | The entry of a package version, or None; an error without a publisher |
| CatalogParts.CatalogPart.Sort | src/modules/catalog.py:833-875 | The packages of the FMRIs given, or else those of the publishers given, or else those of all publishers but the reserved ones, get their version lists sorted; no other list changes |
| CatalogParts.CatalogPart.GetPackageCounts | src/modules/catalog.py:671-686 | The counts that the loops return are the number of distinct stems and of distinct FMRIs of unreserved publishers |
| UpdateLogs.CatalogUpdate.Add | src/modules/catalog.py:982-1025 | The operation is appended to its package's list; every other list is untouched; an FMRI without publisher is refused |
| UpdateLogs.CatalogUpdate.Updates | src/modules/catalog.py:1060-1095 | Each package's operations are yielded in their order; packages come in any order; reserved publishers are passed over |
| UpdateLogs.ProjectConcat | src/modules/catalog.py:1060-1095 | The operations of one package in a concatenation are those in its two halves |
| ManifestActions.ActionsConserved | src/modules/catalog.py:2087-2128 | Reading all the parts that got entries gives back every action that is kept, each once, whatever the order of the parts |
| ManifestActions.KeptByKind | src/modules/catalog.py:2156-2161 | Taking the depend actions first and the set actions then loses and duplicates none |
| ManifestActions.EntriesAre | src/modules/catalog.py:2163-2178 | A part gets an entry exactly when some action belongs to it, and the entry lists those actions |
| ManifestActions.TargetMeans | src/modules/catalog.py:2092-2127 | An action belongs to the dependency part exactly when it is a depend action or a set action named "variant", "facet" or "pkg.depend." and something, or by one of three names; of the others all but `fmri` and `pkg.fmri` belong to the summary part of the second colon-separated piece of the name, or of "C" |
| Catalogs.AddedByText | src/modules/catalog.py:2087-2178 | After an addition each part lists for the package exactly the depend actions and then the set actions of the manifest that belong to it by the texts of their names |
| Catalogs.AddedActionsConserved | src/modules/catalog.py:2075-2183 | After an addition the package's entry over all its parts has exactly the depend and set actions of the manifest that a catalog keeps, as a multiset |
| Servers.AddedValid | src/modules/catalog.py:2130-2183 | A successful addition keeps the catalog valid: every FMRI of any part is in the base part, versions are distinct and ascending, nothing is empty, and the stored counts are the recounted ones |
| Servers.RemovedValid | src/modules/catalog.py:3605-3644 | So does a successful removal |
| Servers.AddAllowed | src/modules/catalog.py:2130-2183 | What the base part accepts no other part refuses, so that an addition cannot fail half-way |
| Servers.RefusesNone | src/modules/catalog.py:3605-3644 | While no visited part holds the package, the visited parts are unchanged, in whatever order they are visited |
| Catalogs.Catalog.AddPackage | src/modules/catalog.py:2075-2183 | The parts, logs, counts and times after an addition are those specified; a package that is there already, or has no publisher, is refused with all contents unchanged (an empty base part may appear) |
| Catalogs.Catalog.RemovePackage | src/modules/catalog.py:3605-3644 | The same for a removal; in a catalog without parts it succeeds although there is nothing to remove, as the code does |
| Catalogs.Catalog.RemoveEntries | src/modules/catalog.py:3621-3639 | The loop over the parts removes the package from every part that has it and collects its entries, in any order; a package that the base part lacks changes no part |
| Catalogs.Catalog.LogUpdate | src/modules/catalog.py:1750-1793 | The operation is logged once per locale in the log of its hour, and the times of the opened parts are taken over |
| Catalogs.Catalog.Save | src/modules/catalog.py:1863-1904 | The times of the opened parts are recorded, whether or not they were modified |
| Catalogs.Catalog.GroupActions | src/modules/catalog.py:2087-2128 | The single pass over the actions puts each where its kind and its name's text say, in their order; the others are dropped |
| Catalogs.Catalog.Finalize | src/modules/catalog.py:1622-1646 | Without the sorting, the stored counts become those of the base part |
| Catalogs.Catalog.FinalizeSorted | src/modules/catalog.py:1622-1646 | With the sorting of the opened parts: outside batch mode nothing changes, for parts are in order and counts are right |
| Catalogs.Catalog.GetPart | src/modules/catalog.py:3360-3401 | A part that is there is opened, one that is not is made empty and listed (`must_exist` not given) |
| Catalogs.Catalog.FindPart | src/modules/catalog.py:3360-3401 | With `must_exist`, a part that is not listed is not made, and None is the answer |
| Catalogs.Catalog.GetEntry | src/modules/catalog.py:2682-2766 | The base entry merged with those of the dependency part, if asked for, and of the summary parts of the locales asked for ("C" when none is), or None |
| Catalogs.Catalog.Entries | src/modules/catalog.py:1544-1620 | Of every package, what is listed is its version list, or only the last of it, in ascending or descending order, each version once and with its merged entry; nothing of reserved publishers |
| Catalogs.EntriesAgree | src/modules/catalog.py:1544-1620 | So the listing has every unreserved package version of the base part, and each with exactly what `get_entry` gives for it |
| Catalogs.LastVersions | src/modules/catalog.py:436-453 | With only last versions, every unreserved package of the base part is listed once, in a version that no version held exceeds, with what `get_entry` gives for it |
| Catalogs.AllVersions | src/modules/catalog.py:443-453 | Otherwise every unreserved package version is listed once, and of two of a package the earlier is not older when the order is descending, and not newer when it is ascending |
| Catalogs.MergedActions | src/modules/catalog.py:1571-1577 | Merging appends the actions of part after part to those of the base entry |
| Catalogs.MergedInfo | src/modules/catalog.py:1571-1577 | For every other key, the last part to have it decides, and the base entry when none has it |
| Replays.SortOnceAtEnd | src/modules/catalog.py:2242-2321 | Additions and removals applied unsorted and then sorted once give what sorting after each of them gives, ties included; and both fail together |
| Replays.ReplayByPackage | src/modules/catalog.py:2242-2270 | A replay succeeds exactly when every package's own operations succeed on its version list, and leaves their results |
| Replays.OrderAcrossPackages | src/modules/catalog.py:1091-1095 | Two sequences with the same operations for every package give the same part, or both fail: grouping by package instead of by time changes nothing, removal and re-addition of a version included |
| Replays.ReplayConcat | src/modules/catalog.py:2252-2266 | Replaying in two stages is replaying at once |
| Replays.ReplayValid | src/modules/catalog.py:2252-2266 | A replay keeps versions distinct and leaves nothing empty |
| Histories.Advance | src/modules/catalog.py:1750-1793 | An operation at a new time keeps parts, logs, recorded times and the operation history in agreement |
| Histories.AddedAdvances | src/modules/catalog.py:2130-2183 | What an addition does to the catalog is its logged operation; the recorded times of the other parts stay exactly when no part that is open and gets no entry is stale, that is, has another time than is recorded |
| Histories.RemovedAdvances | src/modules/catalog.py:3605-3644 | What a removal does to the catalog is its logged operation; the recorded times of the other parts stay exactly when no part without the package is stale |
| Histories.UpdatesAdvance | src/modules/catalog.py:1763-1786 | No log is missing between one that is offered and a later operation of its locale, and none of the current hour |
| Histories.DroppedTracks | src/modules/catalog.py:3449-3457 | Dropping the oldest logs of a locale keeps that agreement |
| Histories.ReopenedTracks | src/modules/catalog.py:247-261 | Opening the catalog again does no harm of itself; it makes stale exactly the parts last modified between two whole seconds |
| Histories.SavedSame | src/modules/catalog.py:1863-1904 | Saving records no other time than before exactly when no open part is stale |
| Syncs.ReadingsEffects | src/modules/catalog.py:3506-3546 | What the chosen logs contain for a package of a part is what happened to it in the chosen hours, in order |
| Syncs.PackageConverges | src/modules/catalog.py:2242-2270 | For one package, replaying the chosen logs on the copy's list and sorting gives the catalog's list; neither fails |
| Syncs.PartConverges | src/modules/catalog.py:2242-2270 | For one part, the replay with its time filter raises no error and, sorted afterwards, gives the catalog's part |
| Syncs.AskedFor | src/modules/catalog.py:3462-3492 | Of the parts that a copy has never seen, exactly these are to be fetched: of the C locale or of a locale with a changed part, unless the type is unknown, that is neither base nor dependency nor begins with "summary" |
| Syncs.LogsAskedFor | src/modules/catalog.py:3506-3543 | The logs to replay are exactly those of a locale with a changed part whose last operation is later than every changed part of the locale |
| Syncs.IncrementalWhen | src/modules/catalog.py:3418-3507 | The answer is to replay logs exactly when some part has changed, none has vanished or gone back in time, no part is to be fetched, and there is a log of the hour in which each changed part was last modified |
| Copies.FinishFits | src/modules/catalog.py:2307-2321 | Opened parts are sorted and fit their signatures; the others were in order already |
| CatalogCopies.CatalogCopy.CompareParts | src/modules/catalog.py:3428-3460 | The loop finds the changed parts by locale, whether a log reaches back to each of them, and parts that vanished or went back in time |
| CatalogCopies.CatalogCopy.AddNewParts | src/modules/catalog.py:3462-3492 | Parts that are new and wanted are added, and rule out an incremental update |
| CatalogCopies.CatalogCopy.LogsFor | src/modules/catalog.py:3509-3543 | The logs of a locale that are newer than the newest of its changed parts |
| CatalogCopies.CatalogCopy.GetUpdatesNeeded | src/modules/catalog.py:3403-3546 | The answer: nothing changed, an error, no part to update, parts to copy, or exactly the logs needed in the order of their names |
| CatalogCopies.SortNames | src/modules/catalog.py:3545-3546 | The chosen names, each once, in order |
| CatalogCopies.CatalogCopy.ApplyIncremental | src/modules/catalog.py:2242-2270 | Applying the operations update by update and part by part does to every part what a replay of it alone does |
| CatalogCopies.CatalogCopy.Finalize | src/modules/catalog.py:2295-2321 | Opened parts are sorted and compared with the catalog's; the attributes are taken over only when all of them fit |
| CatalogCopies.CatalogCopy.ApplyUpdates | src/modules/catalog.py:2228-2324 | Succeeds exactly when the replay and the comparison do, with the copy specified; on an error the attributes stay |
| Protocol.ChangedParts | src/modules/catalog.py:3433-3447 | The recorded times single out exactly the parts with later operations |
| Protocol.LaterOperationOffered | src/modules/catalog.py:3449-3457 | When an incremental update is offered, the log of every later operation on a held part is offered, and chosen |
| Protocol.ChosenLogsSuffice | src/modules/catalog.py:3506-3546 | The chosen logs hold every operation that a part of the copy lacks, and the time filter keeps out the others |
| Protocol.NeverRefused | src/modules/catalog.py:3418-3447 | A copy that was once up to date is never answered with an error |
| Protocol.SyncConverges | src/modules/catalog.py:2228-2324 | An update, incremental or full, succeeds and makes every part of the copy the catalog's |
| Protocol.SyncComplete | src/modules/catalog.py:3468-3492 | After an update the copy lacks none of `catalog.base.C`, `catalog.dependency.C`, `catalog.summary.C` and the parts named `catalog.summary...C` in which the catalog has anything |
| Protocol.NeededKnown | src/modules/catalog.py:3468-3478 | Those are exactly the parts of a known type and the C locale |
| Protocol.SecondSyncFindsNothing | src/modules/catalog.py:3424-3426 | A second update against the same catalog has nothing to do |
| Protocol.StepKeeps | src/modules/catalog.py:2228-2324 | Every event of a run (additions, removals, refusals, opening for reading, saving, dropped logs, opening again, fetches, updates) keeps the invariant; an event records no time of a stale part |
| Protocol.RunKeeps | src/modules/catalog.py:2228-2324 | So it holds after every run |
| Protocol.RunsConverge | src/modules/client/publisher.py:1908-1990 | In every run an update cannot fail, makes every part of the copy equal to the catalog's, leaves out none of the base, dependency and C summary parts that has contents, and leaves nothing for a second update |
| Convergence.UpdateInRun | src/modules/catalog.py:2228-2324 | The in-place update of a copy, called at any point of any run, returns without error; every part held is then the catalog's, and none of the base, dependency and C summary parts that has contents is missing |
| Convergence.AddIsStep | src/modules/catalog.py:2075-2183 | What an addition does, the entries of its manifest included, is such an event, unless it records the time of a stale part |
| Reopenings.StaleRefused | src/modules/catalog.py:3433-3444 | A copy that was up to date is refused after an operation exactly when this recorded the time of a stale part |
| Reopenings.RemovalRefused | src/modules/catalog.py:3605-3644 | After a removal, exactly when some part that did not hold the package is stale |
| Reopenings.AdditionRefused | src/modules/catalog.py:2130-2183 | After an addition, exactly when some open part that got no entry is stale: additions after the catalog was opened again do no harm |
| Repetitions.RunTwice | src/modules/catalog.py:2252-2266 | Operations that succeeded, and some of them once more on what they left, succeed exactly when those repeated are an even number for every version |
| Repetitions.RepeatedReplay | src/modules/catalog.py:2252-2266 | A copy whose part has too early a time replays operations that it already has; this raises no error exactly when, for every version, those repeated are an even number |
| Reopenings.FetchedThenFails | src/modules/catalog.py:1788-1793 | A copy made after the time of a stale part was recorded: if the next operation is on that part and in the hour of its last one, an incremental update raises an error exactly when the operations on the part in its last second do not cancel out |
| Reopenings.RefusedRun | src/modules/catalog.py:247-261 | Runs in which that happens: two additions, a fetch, the catalog opened again; after the removal of the second package the copy is refused exactly when there is a part with only the first and this was added between two whole seconds |
| Reopenings.FailingRun | src/modules/catalog.py:2242-2270 | Runs in which that happens: the copy is made only after the removal, and a third package goes to the part within the hour; the update is incremental, and it fails |
| Timestamps.BasicRoundTrip | src/modules/catalog.py:3900-3975 | Reading a basic timestamp back gives the datetime it was made of, with or without microseconds |
| Timestamps.ExtendedRoundTrip | src/modules/catalog.py:3893-3957 | The same for extended timestamps |
| Timestamps.DatesAre | src/modules/catalog.py:3943-3957 | The datetimes that can be made: the days of each month, and a 29th of February in every fourth year but for three in four centuries |
| Timestamps.UpdateTsOrder | src/modules/catalog.py:3914-3927 | Update timestamps are equal exactly within one hour of one day, and sort as text in the order of time |
| Timestamps.HourOrder | src/modules/catalog.py:3914-3927 | The order of the calendar, leap years included, is that of the hours counted |
| Timestamps.HourIndexIs | src/modules/catalog.py:3914-3927 | The hours counted are those of the calendar: the days before a date by the leap-year rule, without a sum over the years |
| Timestamps.NamesSortByHour | src/modules/catalog.py:3545-3546 | The names of update logs sort as text by hour and then by locale, the order in which logs are applied |
| Timestamps.LocaleOfName | src/modules/catalog.py:3525-3527 | The last component of a log's name is its locale, dots in it included |
| Timestamps.LocaleOfPart | src/modules/catalog.py:3446-3447 | The third component of a part's name, as text, is its locale; that of the base and dependency parts is C |
| Listings.Try | src/modules/catalog.py:2967-3048 | The loop over the patterns omits a package exactly when there are patterns and none selects it, whether or not it stops at the first match |
| Listings.GenPackages | src/modules/catalog.py:2951-3159 | The same packages in the same order whether or not matched patterns are asked for; matched are the patterns that select some package, unmatched the others |
| Listings.StemMeans | src/modules/catalog.py:2982-2997 | A pattern compared from the end matches its own name and the names that end in a slash and the pattern, and no other; a literal one only its own name |
| Listings.EarlierIsNewer | src/modules/catalog.py:443-448 | An ordered part listed from the end of every version list has each package in descending order of versions |
| Listings.LatestIsNewest | src/modules/catalog.py:3021-3029 | A package that only latest patterns select is listed in the newest version that the part has of it |
| Streams.InStream.Read | src/modules/cpiofile.py:261-278 | The next bytes, short only at the end, whatever the sizes of the chunks that the file yields |
| Streams.InStream.Fill | src/modules/cpiofile.py:299-313 | Chunks are collected until there are enough; what is left over stays in the buffer |
| Streams.InStream.ReadAll | src/modules/cpiofile.py:261-278 | Without a size, everything that is left |
| Streams.InStream.Seek | src/modules/cpiofile.py:248-259 | Forward to the position asked for, or to the end; backward is refused and changes nothing |
| Streams.OutStream.Write | src/modules/cpiofile.py:172-189 | Blocks are exactly of the buffer's size; blocks and buffer together are everything written |
| Streams.OutStream.Close | src/modules/cpiofile.py:191-210 | The rest is the last block, and the blocks are everything written; closing twice does nothing more |
| Streams.BlocksUnique | src/modules/cpiofile.py:182-189 | The blocks are determined by what was written, not by how it was divided into writes |
| ExFiles.ExFileObject.Read | src/modules/cpiofile.py:335-345 | Bytes of the member only, from its position on; an error when closed or when the stream is already further |
| ExFiles.ExFileObject.FillLine | src/modules/cpiofile.py:358-366 | Reading in pieces of a hundred bytes until there is a newline or the member ends |
| ExFiles.ExFileObject.ReadLine | src/modules/cpiofile.py:347-375 | The next line of what is buffered and unread: a complete one without the carriage returns just before its newline and otherwise unchanged, an incomplete one unchanged; an error only when something has to be read and cannot be |
| ExFiles.ExFileObject.ReadLines | src/modules/cpiofile.py:377-386 | One line for every piece of the text split at its newlines: complete ones without the carriage returns before the newline and otherwise unchanged; and it ends |
| ExFiles.ExFileObject.Seek | src/modules/cpiofile.py:393-405 | The position moves as asked and stays inside the member; the line buffer is dropped |
| ExFiles.PiecesDivide | src/modules/cpiofile.py:347-386 | Splitting at newlines loses nothing, and only the last piece may lack its newline |
| ExFiles.PiecesUnique | src/modules/cpiofile.py:347-386 | It is the only such division |
| CpioHeaders.ParseHexOf | src/modules/cpiofile.py:494-503 | A number written in hexadecimal digits is read back |
| CpioHeaders.ParseHexDigits | src/modules/cpiofile.py:494-503 | A field is a number exactly when it has digits 0-9, a-f or A-F and nothing else |
| CpioHeaders.ParseHexCapitals | src/modules/cpiofile.py:494-503 | Capital digits mean the same as small ones |
| CpioHeaders.AcceptedMagic | src/modules/cpiofile.py:462-493 | A header is accepted only behind "070701" or, in two bytes, the octal number 070707 |
| CpioHeaders.WhenTruncated | src/modules/cpiofile.py:470-486 | There is no header exactly at the end of the archive; a header is cut off exactly when one byte is left, or fewer than 26 that begin as a binary header does |
| CpioHeaders.ParsedSane | src/modules/cpiofile.py:454-514 | A header that is accepted is padded to its unit, its size fits 32 bits, and the next header lies behind its data |
| CpioFiles.ReadHeader | src/modules/cpiofile.py:454-514 | The header read piecemeal from the stream is the one at its position, or the same error |
| CpioFiles.CpioFile.ReadNext | src/modules/cpiofile.py:824-856 | The member at the offset is appended and the offset moves past its padded header and data; a trailer moves the offset too, so that reading may go on behind it; the end or an invalid header does not |
| CpioFiles.CpioFile.Next | src/modules/cpiofile.py:817-856 | The pending members, each once and in order, the one read on opening first, and None where the archive ends; an error exactly for a broken header, or when the stream is already further; called again, it finds what is behind the trailer |
| CpioFiles.CpioFile.GetMembers | src/modules/cpiofile.py:807-815 | The members found so far and all that are still pending, read to the end once; of an archive whose end was not met before, exactly its members; fails only on a broken header or when the stream is already further |
| CpioFiles.CpioIter.Next | src/modules/cpiofile.py:943-955 | The pending members one after the other, or those of a loaded archive by index; an iterator that alone took members gives the archive's members in order, also when the archive gets loaded between two calls |
| CpioFiles.WalkInOrder | src/modules/cpiofile.py:843-850 | Members begin at increasing offsets and none reaches into the next |
| CpioFiles.ReadInOrder | src/modules/cpiofile.py:817-872 | Taking the pending members in order and reading each before the next never seeks backwards and reads exactly each member's bytes; it fails exactly when the walk does |
| CpioArchives.ParseEncoded | src/modules/cpiofile.py:482-510 | A member written in the hexadecimal or in the binary format is found where it was written, with its name, mode, time, size and data |
| CpioArchives.WalkEncoded | src/modules/cpiofile.py:817-856 | The walk through an archive of either format finds the members it was made of, in order, and stops at the trailer |
| CpioArchives.ExtractWritten | src/modules/cpiofile.py:817-872 | From chunks of any size to contents: reading an archive of either format forward gives back what was written into every regular member; of an archive that has only its trailer, what follows the trailer is read |
| CfgTexts.SplitJoin | src/modules/cfgfiles.py:102-103 | Joined fields split into themselves exactly when none contains the separator |
| CfgTexts.LookSplitJoin | src/modules/cfgfiles.py:452-467 | Joined fields split at unescaped separators into themselves exactly when the first is not empty, none but the last ends in a backslash, and none has a bare separator |
| CfgTexts.JoinLookSplit | src/modules/cfgfiles.py:452-467 | Splitting at unescaped separators loses nothing |
| UserAttrs.SplitLine | src/modules/cfgfiles.py:452-467 | The loop over the attributes builds the dictionary specified, or raises an IndexError |
| UserAttrs.RoundTrip | src/modules/cfgfiles.py:452-481 | Printing a user_attr record and splitting the line gives the record back exactly when it is printable |
| CfgFiles.CfgFile.constructor | src/modules/cfgfiles.py:112-138 | Reading the lines one by one gives the index specified |
| CfgFiles.ReadingLast | src/modules/cfgfiles.py:125-136 | A key is in the index exactly when some line has it, and then with the last such line |
| CfgFiles.CfgFile.SetValue | src/modules/cfgfiles.py:163-189 | The completed record takes the line of the one with its key, or the next line number; no other slot changes; a missing attribute changes nothing |
| CfgFiles.CfgFile.RemoveValue | src/modules/cfgfiles.py:191-193 | The record with the key is removed, and nothing else; an error when there is none |
| CfgFiles.CfgFile.GetFileLines | src/modules/cfgfiles.py:105-110 | The lines of all the slots, and only those, by line number |
| CfgFiles.FilledAt | src/modules/cfgfiles.py:167-175 | A column takes its value from the template or else from the defaults; it fails exactly when one has neither |
| CfgFiles.EditInPlace | src/modules/cfgfiles.py:177-189 | An edited record keeps its place among the lines, and all the other lines stay |
| CfgFiles.AddLast | src/modules/cfgfiles.py:182-189 | A new record goes behind all the lines |
| CfgFiles.RemoveOne | src/modules/cfgfiles.py:191-193 | Removing a record removes its line and leaves the others in order |
| CfgFiles.RewriteRoundTrip | src/modules/cfgfiles.py:105-138 | Writing the lines and reading them again gives the same records and comments in the same order exactly when every line reads as what it is indexed as |
| CfgFiles.RecordReads | src/modules/cfgfiles.py:195-200 | A record that was set reads as itself exactly when no column contains the separator and its line is no comment |
| CfgFiles.TextRoundTrip | src/modules/cfgfiles.py:202-222 | Lines are read back from the file exactly when none contains a newline |
| GroupFiles.GroupFile.AddUser | src/modules/cfgfiles.py:343-358 | The group's list becomes its users and the new one, joined in any order, on the same line, and its other columns stay; every other group is untouched; a new group has no password and gets its number from the image |
| GroupFiles.GroupLine | src/modules/cfgfiles.py:326-337 | A line is the record of a group exactly when it has four columns divided by colons, the first of them its name, and begins with neither plus nor minus |
| GroupFiles.WordsAre | src/modules/cfgfiles.py:355 | The users of a list are its words: whatever stands between commas and white space |
| GroupFiles.GroupFile.SubUser | src/modules/cfgfiles.py:360-371 | The same for a removal, other columns included; an unknown group and a user who is not in it are refused |
| GroupFiles.GroupFile.GetGroups | src/modules/cfgfiles.py:373-379 | The groups whose comma-separated list has the user, sorted |
| GroupFiles.GroupFile.SetGroups | src/modules/cfgfiles.py:381-389 | Exactly the lists of the groups left and joined are rewritten, and no other column; for a valid name nothing is raised, in any order of visits |
| GroupFiles.GroupFile.RemoveUser | src/modules/cfgfiles.py:391-393 | The user leaves all groups; no other column changes |
| GroupFiles.SetGroupsExact | src/modules/cfgfiles.py:373-389 | Afterwards the user is in exactly the groups asked for |
| GroupFiles.OthersUnchanged | src/modules/cfgfiles.py:343-389 | Another user's membership stays the same exactly when the list is not rewritten or names everyone between commas |
| GroupFiles.SpaceMakesMember | src/modules/cfgfiles.py:343-379 | Adding a user to a group whose list has a space in it makes a member of someone who was none |
| Pulls.ExpandFmri | src/pull.py:280-293 | The first match, searching the versions backwards |
| Pulls.ExpandNewest | src/pull.py:280-293 | It meets the constraint and none that meets it is newer; it is None exactly when no version offered meets it |
| Pulls.MatchesMeans | src/modules/version.py:563-584 | What meeting a constraint is: the release is the constraint's followed by any further components, and so is the branch when one is given; a timestamp given is equal; what is left out does not matter |
| Pulls.ReleaseExpands | src/pull.py:280-293 | A constraint of only a release comes to a version whenever one is offered that has this release, alone or with more components; the one found has it too and is not older |
| Pulls.FmrisByVersion | src/modules/catalog.py:616-643 | The unreserved FMRIs of a package, all of them, grouped by version in ascending order |
| Pulls.Puller.Visit | src/pull.py:312-324 | Depth-first search over the shared set terminates, also when its start was reached before; what it newly reaches has all its needs reached, and nothing else is reached |
| Pulls.GetDependencies | src/pull.py:296-324 | The result is the least set with the given FMRIs and whatever its members need |
| Pulls.NewestClosure | src/pull.py:280-324 | In the catalog's terms: what a member depends on has a newest match in the result wherever the catalog has a match, and all in the result was given or is such a match |
| Pulls.ClosureUnique | src/pull.py:296-324 | There is only one such set |
| Pulls.Prune | src/pull.py:361-377 | Of the FMRIs of one name (with all versions: of those that differ in no more than the timestamp) one is kept, of the publisher that sorts last and in its newest version |
| FastQuotes.FastQuote | src/modules/_misc.c:38-146 | Both paths give the percent-encoding, for every text whose buffer size stays an `int` |
| FastQuotes.QuoteOnHeap | src/modules/_misc.c:113-145 | Every write is inside the buffer, through all its enlargements, as long as its size stays an `int` |
| FastQuotes.SizeIs | src/modules/_misc.c:117-133 | The buffer is enlarged twice at most, and always has room for one more byte and the final zero |
| FastQuotes.MaxSizeExact | src/modules/_misc.c:117-133 | Its size stays an `int` for every text of up to 636291451 bytes, and for no longer one without a safe byte |
| FastQuotes.QuoteOnStack | src/modules/_misc.c:94-111 | The buffer on the stack has room for the worst case |
| FastQuotes.UnquoteQuote | src/modules/_misc.c:40-72 | Decoding by section 2.1 of RFC 3986 gives the text back |
| FastQuotes.EncodedMeans | src/modules/_misc.c:40-72 | Letters, digits and the marks / - . _ ~ stay; any other byte becomes a percent sign and two digits, capitals among them |
| FastQuotes.QuoteSafe | src/modules/_misc.c:40-72 | Only unreserved characters, slashes and percent signs come out, never a zero byte |
| Varcets.AllowFacet | src/modules/_varcet.c:78-218 | The loop with its early exit: every "all" facet is true, and if there are others at least one is |
| Varcets.FacetsMean | src/modules/_varcet.c:78-218 | That rule is about the attributes named "facet." and something, and the value "all" |
| Varcets.FacetValueMeans | src/modules/_varcet.c:87-153 | A facet's value is its own entry, or else that of the first pattern that matches, or else true unless its name begins with "facet.debug." or "facet.optional." |
| Varcets.LookUp | src/modules/_varcet.c:87-153 | A facet's value is its own entry, or the first matching pattern's, or the default |
| Varcets.FacetOrder | src/modules/_varcet.c:78-218 | The order in which attributes are visited makes no difference |
| Varcets.AllowVariant | src/modules/_varcet.c:221-302 | Every variant agrees with the image, or the image lacks it and it begins with "false" |
| Varcets.VariantsMean | src/modules/_varcet.c:243-288 | That rule is about the attributes named "variant." and something; one that the image lacks has to be "false" and something |
| Varcets.VariantOrder | src/modules/_varcet.c:221-302 | The order in which attributes are visited makes no difference |

## Left out

- Aliasing: `Catalog` holds the states of its parts and logs as values in maps. The objects `CatalogPart` and `CatalogUpdate` are verified on their own against the same functions (`AddTo`, `RemoveFrom`, `LogAppend`), so that what two references to one part object would see is not modelled.
- Files, locks, permissions, JSON and SHA-1: a signature is taken to be the contents of its part, so that signatures agree exactly when contents do; each public operation is one atomic step.
- Batch mode of the publishing catalog, `append`, `update_entry`, callbacks, publisher filters and the order of packages of the listings, and the `states` and attributes that `gen_packages` collects.
- Operation times strictly increase, and logs are dropped oldest first and not within the current hour: `Protocol` has no events that do otherwise.
- Packages of publishers whose names begin with an underscore: they belong to the reserved namespace, are skipped by `updates`, `sort` and the counts, and are not published in a run.
- The text of versions and FMRIs: they are given by their components.
- The copy's parts are taken to be opened anew for each update, as a refresh of a publisher does (`src/modules/client/publisher.py:1960-1970`); parts that were open and unsorted before are not modelled.
- What is saved: every operation of the catalog is taken to be saved before the catalog is opened again.
- All the update logs of an answer are read before the first is applied; the code reads each when its turn comes, which makes no difference to what is read.
- `pkg.fmri`'s matching of names by wildcards and of versions by patterns: in `Listing` they are arbitrary relations.
- `int()` accepts signs, spaces and underscores between digits; the model reads digits only. Datetimes have no time zone, as all callers have it.
- Streams: compression, writing archives, the append mode, and `readline` with a limit.
- CpioFiles.ReadHeader: negative sizes in a binary header are an error of its own, because what a read of negative length takes from the buffer is not modelled.
- Continuation lines, `updatevalue`, the password and shadow files, universal newlines, and white space outside ASCII in lists of users.
- `callable` defaults of columns; a default is a text or absent.
- Manifests are given by the FMRIs their depend actions name; fetching them cannot fail, and Python's limit on recursion is not modelled.
- Pulls.GetDependencies: FMRIs that differ only in the build release are different here, while Python's sets take them for the same.
- FastQuotes.FastQuote: does not model a failing allocation, nor the encoding of text into bytes that comes before.
- Facet and variant attributes that are not valid text, and values of facets that are neither true nor false.
