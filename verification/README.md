# nheko: search, timeline cache, keys and row models

A Dafny model of the parts of the nheko Matrix client where several tables, loops or recursions have to
agree, with proofs that they do. `dafny verify dfyconfig.toml` checks all of it.

Four areas are covered.

* **Fuzzy search.** The trie behind the completers and the emoji grid. `EditDistance` says what it means
  that a query matches a key with d edits, once as an edit script and once as a recursion; `TrieModel` says
  what a trie stores and proves that one round of the search looks exactly where a match can be, although
  it never inserts or substitutes the query's own next character; `TrieSearchSpec` carries the limits and
  the order of results through the recursion; `SearchResults` is the
  search as a function, `ExactSearch` says what it returns without edits, `FuzzyTrie` holds the loops, and
  the class `FuzzyIndex` states the outcome in terms of the insertions alone.
* **The cached timeline of a room.** Four tables and an event store. `PairedTables` and `TimelineTables`
  relate the tables to one sequence of entries, `TimelineSpec` says what each operation does to that
  sequence, `TimelineMeaning` what is listed and stored afterwards, event by event, and the class `RoomTimeline` changes the tables step by step and is proved against it.
* **Keys and other indexes of the cache.** Device lists with reuse checks (`DeviceKeys`), the memoised
  verification status (`VerificationSpec`, `KeyStores`), Olm sessions in one ordered table (`OlmSessions`),
  the merge of Megolm sessions (`MegolmSessions`), the two space tables (`Spaces`), and the walk over
  canonical parents (`ImagePacks`).
* **Two row models.** The emoji and sticker grid (`GridLayout`, `GridModels`) and the sorted list behind
  the power level editor (`PowerLevels`).

What the program updates in place is a class here (`FuzzyIndex`, `RoomTimeline`, `KeyStore`, `SpaceTables`,
`OlmSessionTable`, `InboundMegolmSessions`, `GridImagePackModel`, `PowerlevelsTypeListModel`); tables are
maps, ordered ones read through `OrderedKeys`. Each method is one committed transaction.

## What the proofs found

* `limit()` in the search doubles a `size_t`, which wraps from 2^63 on. Below that, twice the number of
  entries is enough to lose nothing. From there on a limit is safe if what it lacks to 2^64 plus twice the
  entries, doubled once per character and edit, is at most 2^63 (`TrieSearchSpec.Room`); one that lacks a power of two runs down to zero
  on a long query and returns nothing, whatever is stored (`TrieSearchSpec.RunsOut`): 2^63 for every
  non-empty query (`TrieSearchSpec.HalfRunsOut`), 2^64 - 1 for queries of 64 characters and one more per
  edit (`TrieSearchSpec.MaxRunsOut`).
* Values stored twice use up a search limit: what is listed is cut before repeats are dropped
  (`ExactSearch.RepeatsUseRoom`). Without repeats among the first values, or with room for every entry, the
  limit alone decides (`ExactSearch.ExactIsCut`, `ExactSearch.ExactIsOnce`).
* `saveOldMessages` writes the last non-redaction id of a chunk over the entry at the lowest index. If that
  entry belongs to another event, one id is left at two indexes; and a kept redaction that was already in
  the timeline orphans its old index. `TimelineSpec.Backfillable` is the exact condition, told from the
  timeline and the chunk before the call: the last event that is no redaction is also the last new one, or
  nothing is new and it is the oldest entry, or all are redactions and the last is not in the timeline.
  Without it the tables are proved inconsistent afterwards, while the pagination token is right either way.
  A chunk that repeats only the newer of two entries is refused (`TimelineSpec.RepeatedNewestIsRefused`).
* An echo whose event id is already in the timeline breaks the tables, and nothing else about an echo does
  (`TimelineTables.EchoIsSafeExactly`).
* Devices stored for a user seen for the first time are not recorded as seen, so their ids can come back
  with other keys. For such a user reuse is ruled out exactly if the first update lists no device
  (`DeviceKeys.FirstSeenIsSafeExactly`, for signatures that let an account sign a device with new keys, as
  always accepted ones do, `DeviceKeys.AcceptingCanRekey`); from an entry without devices it always is.
* A curve key with a NUL in it does not survive the combined session key, and only such a key does not
  (`OlmSessions.SplitCombine`).
* Event types without a dot are lost by the power level editor, and only those
  (`PowerLevels.UneditedRebuilds`); one that has the name of a built-in entry is listed twice
  (`PowerLevels.InitialNoRepeats`).
* Adding an event type to a role does nothing when the type already stands directly below the role's row
  with another level (`PowerLevels.AddTakesLevel`, `PowerLevels.AddCanBeIgnored`).

## Model

| member | source | states |
|---|---|---|
| EditDistance.MatchesIsWithinEdits | src/CompletionProxyModel.h:76-160 | the recursion the search follows and the declarative meaning agree: a query matches a key with d edits iff some script of keeps and at most d inserts, deletes, substitutions and adjacent swaps turns the query into a prefix of the key |
| EditDistance.EachEditCostsOne | src/CompletionProxyModel.h:76-160 | a swap of neighbours, an insertion, a deletion and a substitution cost one edit each, a kept character none |
| EditDistance.NoEditsIsPrefix | src/CompletionProxyModel.h:154-156 | without edits a query matches exactly the keys that begin with it |
| EditDistance.DropFirst | src/CompletionProxyModel.h:128-135 | if a query matches with d edits, the query without its first character matches with d + 1 |
| EditDistance.PruningIsComplete | src/CompletionProxyModel.h:126-149 | leaving out inserts and substitutions of the query's own first character loses no match, for any query, key and d |
| TrieModel.InsertAllStores | src/CompletionProxyModel.h:27-41 | after any insertions a key holds all its first-rank values in order of insertion, then all its second-rank values |
| TrieModel.StoredIsInserted | src/CompletionProxyModel.h:27-41 | a value is stored under a key iff it was inserted under it |
| TrieModel.RoundIsComplete | src/CompletionProxyModel.h:102-157 | the swap, insert, delete, substitute and exact cases of one round together find exactly the values within d edits |
| TrieSearchSpec.RoomBelow | src/CompletionProxyModel.h:98-100 | a limit with room for every entry, whatever was found before, leaves room to find one more and hands down a limit with room for every entry, also where the doubling wraps |
| TrieSearchSpec.RunsOutBelow | src/CompletionProxyModel.h:98-100 | a limit that lacks a power of two to 2^64 hands down one that lacks twice as much, and 2^63 hands down 0 |
| TrieSearchSpec.MaxRunsOut | src/CompletionProxyModel.h:98-100 | the largest limit, 2^64 - 1, is used up by every query of at least 64 characters and one more per edit |
| TrieSearchSpec.RoutesFindAll | src/CompletionProxyModel.h:106-156 | the nested searches of a round, taken together, reach every value within d edits |
| TrieSearchSpec.SearchedMeansInserted | src/CompletionProxyModel.h:76-160 | for any insertions, query, limit and d: only values inserted within d edits, none twice for a non-empty query; all of them, fewest edits first, if the limit has room, which below 2^63 means twice the insertions and from 2^63 on that what it lacks to 2^64 plus twice the insertions, doubled once per character and edit, is at most 2^63; below 2^63 with less room the first result is still a best one, and if no value was inserted more than m times, m at least 2, all are there or the results fill the m-th part of the limit; nothing for a limit that runs out |
| SearchResults.FewerEditsFirst | src/CompletionProxyModel.h:102-157 | the results for fewer edits stand at the front of those for more, for every limit |
| ExactSearch.ExactIsListing | src/CompletionProxyModel.h:87-96 | a search without edits drops the repeats from the listing of the query's node |
| ExactSearch.ExactIsCut | src/CompletionProxyModel.h:45-96 | without repeats among the first values at and below the node, as many as the limit allows, a search without edits returns exactly these, in this order |
| ExactSearch.ExactIsOnce | src/CompletionProxyModel.h:45-96 | with room for every entry at and below the node it returns all values, each where it comes first |
| ExactSearch.RepeatsUseRoom | src/CompletionProxyModel.h:50-55 | repeats under one key use up the limit: two results asked of the values v, v, w give v alone |
| ExactSearch.EnumInKeyOrder | src/CompletionProxyModel.h:57-72 | the values at and below a node come in the order of their keys |
| ExactSearch.EnumFiles | src/CompletionProxyModel.h:50-55 | and those under one key in the order in which they are stored there |
| ExactSearch.EnumeratedIsInserted | src/CompletionProxyModel.h:27-74 | they are the values inserted under keys that begin with the query, each as often |
| ExactSearch.ExactOverInserts | src/CompletionProxyModel.h:76-160 | if no value was inserted twice under keys that begin with the query, a search without edits returns as many of them as the limit allows and nothing else |
| FuzzyTrie.ValuesAndSubvalues | src/CompletionProxyModel.h:45-74 | the listing under a limit: the node's own values, then those of the children by key without repeats; nothing that is not stored, and everything unless entries have used the limit up |
| FuzzyTrie.SearchTrie | src/CompletionProxyModel.h:76-160 | the search terminates for every limit below 2^64 with the measure keys plus edits, returns the results of its rounds one by one, and meets the specification |
| FuzzyTrie.FuzzyIndex.Insert | src/CompletionProxyModel.h:27-41 | the walk down and the write at the end store exactly one more insertion |
| FuzzyTrie.FuzzyIndex.Search | src/CompletionProxyModel.h:76-160 | at most `limit` results, each inserted under a key with a prefix within the allowed edits; first, if no value was inserted twice under keys that begin with the query, as many of those as the limit allows; with room for every entry exactly what is within the edits, fewest first; with less, nothing is missing unless the results fill the m-th part of the limit, m at least 2 and the most often a value was inserted; none for a limit that runs out |
| TimelineTables.RepIsConsistent | src/Cache.cpp:4112-4303 | tables that hold a timeline are pairwise inverse and gap-free, list only ordered events as messages and agree on the order of any two of them |
| TimelineTables.EchoIsSafeExactly | src/Cache.cpp:4171-4184 | the four tables stay consistent under an echo iff the event id it gets is not in the timeline |
| TimelineSpec.LimitedSyncKeepsToken | src/Cache.cpp:4128-4134 | after a limited sync that stores any entry the token for pagination is the one the sync came with, whatever echoes, redactions and duplicates it holds, if its transaction ids are none of its event ids |
| TimelineMeaning.SyncedEntries | src/Cache.cpp:4112-4303 | entry by entry: old ones stay, with the new id and token where an echo was answered; each event that is new, no echo and no redaction, or the redaction a limited sync begins with, gets one entry in order, with the token until one was added, visible iff it is no redaction and not hidden |
| TimelineMeaning.SyncedMessages | src/Cache.cpp:4282-4287 | an id is listed as a message after a sync iff a visible entry had it, under the new id if it was an echo, or the event that added it is no redaction and not hidden |
| TimelineMeaning.EventIsStored | src/Cache.cpp:4171-4173 | an event that is no redaction, or answers an echo, is stored as it came, the echo's own event goes, and nothing else changes |
| TimelineMeaning.RedactionTakesContent | src/Cache.cpp:4202-4265 | a redaction takes the content from the stored event it names and nothing else of it, and is stored |
| TimelineSpec.BackfillKeepsToken | src/Cache.cpp:4334-4406 | after backfill of a non-empty chunk or timeline the token is the chunk's end |
| TimelineMeaning.BackFoldEntries | src/Cache.cpp:4345-4384 | after a chunk the new events stand before the old entries, the last new one first, without a token and visible unless hidden |
| TimelineMeaning.BackfilledMessages | src/Cache.cpp:4367-4372 | an id is listed as a message after a backfill iff it was or a new event that is not hidden has it; a kept redaction is not |
| TimelineSpec.BackfillableExactly | src/Cache.cpp:4344-4390 | the condition on chunks, told from the timeline and the chunk alone, holds iff the last id of the chunk is the one at the lowest index when the loop ends |
| TimelineSpec.NewLastIsBackfillable | src/Cache.cpp:4344-4390 | a chunk whose last event is no redaction and was not seen before, in the timeline or in the chunk, meets the condition |
| TimelineSpec.KnownLastIsRefused | src/Cache.cpp:4344-4390 | a chunk whose last id is in the timeline already meets it iff that is the oldest entry and the chunk brings nothing new |
| TimelineSpec.RepeatedNewestIsRefused | src/Cache.cpp:4344-4390 | with two entries in the timeline, a chunk that repeats the newer one does not meet the condition |
| TimelineSpec.TrimmedIsNewest | src/Cache.cpp:4567-4604 | trimming leaves the newest min(n, max + 1) entries |
| TimelineMeaning.ClearedExactly | src/Cache.cpp:4430-4464 | clearing keeps the entries from the newest with a token on and deletes exactly the events of the others |
| TimelineMeaning.TrimmedExactly | src/Cache.cpp:4567-4604 | trimming keeps the newest max + 1 entries and deletes exactly the events of the others |
| TimelineSpec.SameLastVisible | src/Cache.cpp:3235-3328 | the last visible event is the same before and after moving to the last hidden event that follows |
| RoomTimelines.RoomTimeline.SaveTimelineMessages | src/Cache.cpp:4112-4303 | a whole sync, limited or not, is the fold of its steps, and afterwards the message table lists exactly the ids it should |
| RoomTimelines.RoomTimeline.SavePendingMessage | src/Cache.cpp:4019-4057 | a local echo enters as a sync of one event |
| RoomTimelines.RoomTimeline.SaveOldMessages | src/Cache.cpp:4306-4411 | nothing changes iff an id that serves as a key is empty; otherwise the tables hold the backfilled timeline if the chunk meets the condition and are inconsistent if it does not, and in both cases the pagination token is the chunk's end unless chunk and timeline are empty and the returned index is the first one of the message table |
| RoomTimelines.RoomTimeline.ClearTimeline | src/Cache.cpp:4414-4464 | the first loop keeps exactly the entries from the newest one with a token on, and the events of those |
| RoomTimelines.RoomTimeline.DeleteOldMessages | src/Cache.cpp:4551-4608 | trims to the newest max + 1 entries and removes the others from all tables and the event store |
| RoomTimelines.RoomTimeline.PreviousBatchToken | src/Cache.cpp:2948-2966 | returns the token of the oldest entry, nothing if it has none |
| RoomTimelines.RoomTimeline.LastVisibleEvent | src/Cache.cpp:3287-3328 | the newest visible event not after the given one, or the oldest event, with its index; nothing iff the event is not in the timeline |
| RoomTimelines.RoomTimeline.LastInvisibleEventAfter | src/Cache.cpp:3235-3285 | the last of the hidden events that directly follow the given one, with its index |
| RoomTimelines.RoomTimeline.Run | src/Cache.cpp:4112-4608 | over every run of syncs, echoes, backfills, clears and trims that meet their assumptions: inverse gap-free tables, agreeing orders, every ordered event stored, every index below 2^64, no more entries added than the run brings, and the timeline the sequence-level run gives |
| DeviceKeys.NoReuse | src/Cache.cpp:5205-5311 | over any run of key queries on an entry without devices, at any two times, a device id has one set of keys and a key value belongs to one device id, even after devices vanish and come back |
| DeviceKeys.StoredExactly | src/Cache.cpp:5241-5307 | after an update that is not skipped exactly these listed devices are stored: known ids with unchanged keys, and new ids that are signed by themselves with no key or id seen before |
| DeviceKeys.StoredFromEntry | src/Cache.cpp:5241-5307 | the same from the entry alone, for updates in which no two devices share a key |
| DeviceKeys.NewDevicesAreSigned | src/Cache.cpp:5264-5298 | a device under a new id names that id, has an identity key, and its own signing key verifies its signature |
| DeviceKeys.SeenAfter | src/Cache.cpp:5302-5306 | what is recorded as seen: all that was, and the id and keys of every listed device that is known, seen or signed |
| DeviceKeys.IdentityAfter | src/Cache.cpp:5213-5236 | the identity keys are the update's, a master key that replaces another leaves a mark that stays, and a skipped update changes nothing |
| DeviceKeys.FirstSeenStores | src/Cache.cpp:5206-5211 | the first update of a user stores every listed device and records none as seen |
| DeviceKeys.FirstSeenIsSafeExactly | src/Cache.cpp:5205-5311 | if whoever has the account can sign a device with new keys, then for a user without an entry no run reuses an id or key iff the first update lists no device |
| DeviceKeys.FirstSeenIsReused | src/Cache.cpp:5205-5311 | for every first update with a device, an update without devices and then one with the last device under other keys store that device id with other keys |
| VerificationSpec.CountIsRight | src/Cache.cpp:5679-5763 | when both users' keys are known the unverified count is the number of listed devices outside the verified set, in every branch |
| VerificationSpec.TrustIsExactly | src/Cache.cpp:5711-5744 | another user is verified iff our device vouches for our keys and those for theirs, trusted on first use iff they do not and the master key has not changed, and otherwise not trusted |
| VerificationSpec.OwnTrustIsExactly | src/Cache.cpp:5711-5744 | the local user is verified iff the device in use signed the master key |
| VerificationSpec.DevicesAreExactly | src/Cache.cpp:5750-5760 | a device is verified iff it was marked, is the one in use, or is listed with an identity key and signed by a self-signing key that the master key of a trusted user signed |
| VerificationSpec.IdentitiesAreExactly | src/Cache.cpp:5750-5760 | an identity key is trusted, as far as the user, iff it is that of a device signed in this way |
| VerificationSpec.SignedByExactly | src/Cache.cpp:5662-5677 | signed means that a signature of the owner verifies under the key of the same id |
| VerificationSpec.TrustIsEarned | src/Cache.cpp:5708-5744 | another user counts as verified iff our keys vouch for theirs, and is trusted on first use only while their master key has not changed; nobody is trusted unless our device vouches for our master key |
| VerificationSpec.ComputeDependsOn | src/Cache.cpp:5637-5769 | a status depends on two users' keys and one user's marks only, which is why clearing those two memo entries is enough |
| KeyStores.KeyStore.VerificationStatusOf | src/Cache.cpp:5637-5769 | returns, and memoises, what the status computed from the current tables is; the memo stays right for all users |
| KeyStores.KeyStore.UpdateUserKeys | src/Cache.cpp:5187-5341 | merges every listed user's entry or makes one, leaves the others alone, and forgets every status that may have changed |
| KeyStores.KeyStore.MarkDeviceVerified | src/Cache.cpp:5541-5587 | adds one mark and keeps the memo right |
| KeyStores.KeyStore.MarkDeviceUnverified | src/Cache.cpp:5589-5625 | removes one mark and keeps the memo right |
| OlmSessions.SplitCombine | src/Cache.cpp:133-145 | splitting undoes combining iff the curve key has no NUL |
| OlmSessions.NoGap | src/Cache.cpp:1386-1413 | in byte order the records of one curve key lie side by side from the first key not below it |
| OlmSessions.IdsAreSaved | src/Cache.cpp:1386-1413 | with NUL-free curve keys, filtering the table by the split key finds exactly what was saved for a curve key |
| OlmSessions.OlmSessionTable.SaveOlmSession | src/Cache.cpp:1306-1326 | stores or replaces the session under its combined key in the ordered table and touches no other record; as long as no curve key has a NUL the table holds the last save of every pair of keys and nothing else |
| OlmSessions.OlmSessionTable.GetOlmSessions | src/Cache.cpp:1386-1413 | the scan returns the session ids a filter over the whole table gives; if no saved curve key has a NUL these are the ids saved for the key, each once and in byte order |
| OlmSessions.OlmSessionTable.GetLatestOlmSession | src/Cache.cpp:1351-1384 | a session with the largest timestamp of the curve key, the first in key order on ties, nothing iff there is none; if no saved curve key has a NUL it is the latest one saved for the key |
| MegolmSessions.OrderDoesNotMatter | src/Cache.cpp:1067-1110 | the stored first known index and trust of a session depend on the offers only, not on their order |
| MegolmSessions.InboundMegolmSessions.SaveInboundMegolmSession | src/Cache.cpp:1067-1110 | after any calls each session is the first of those offered with the lowest index, trusted iff one was |
| Spaces.RebuiltChildren | src/Cache.cpp:4621-4692 | a rebuilt space's joined children are exactly those named by a valid child event or by a valid parent event whose sender may add children, whatever was stored before |
| Spaces.RebuiltChildrenByEvents | src/Cache.cpp:4645-4692 | the same event by event: a child event with a server and a room id, or a parent event with a server whose sender has the level for child events |
| Spaces.OtherChildren | src/Cache.cpp:4663-4692 | a space that is not rebuilt loses no child and gains exactly the rooms gone through that claim it with the power to do so |
| Spaces.SpaceTables.UpdateSpaces | src/Cache.cpp:4621-4692 | the children and parents tables stay inverse, and each link is there iff the rules above or an untouched space put it there |
| ImagePacks.WalkIsReachability | src/Cache.cpp:4836-4869 | a walk visits exactly the rooms reachable over canonical parents |
| ImagePacks.OfferedOne | src/Cache.cpp:4782-4801 | an image is offered iff nothing in particular is wanted or its own usage, else that of its pack, else any, includes it |
| ImagePacks.RoomInfosOnce | src/Cache.cpp:4846-4852 | each pack of a room with an image to offer is listed once |
| ImagePacks.AddRoomAndCanonicalParents | src/Cache.cpp:4836-4869 | the recursion terminates on every graph, cyclic or not, visits no room twice and adds each visited room's packs once |
| ImagePacks.GetImagePacks | src/Cache.cpp:4773-4872 | the account's pack, the globally enabled packs of other rooms, then those of every reachable room, each room once and after one that names it; listed is exactly what one of these packs offers, marked as coming from a space if it is another room's |
| GridLayout.GroupedIsPermutation | src/GridImagePackModel.cpp:353-360 | grouping neither loses nor invents nor repeats a result |
| GridLayout.GroupedKeepsOrder | src/GridImagePackModel.cpp:353-360 | the results of each pack keep their order |
| GridLayout.GroupedFollowsFirstHits | src/GridImagePackModel.cpp:353-360 | packs come in the order of their first result |
| GridLayout.GroupedIsContiguous | src/GridImagePackModel.cpp:353-360 | results of one pack stand together |
| GridLayout.RowsConcatenate | src/GridImagePackModel.cpp:362-372 | the rows put together are exactly the results, in order |
| GridLayout.PackRowsConcatenate | src/GridImagePackModel.cpp:188-212 | the rows of a pack put together are exactly its entries |
| GridModels.PackIsServed | src/GridImagePackModel.cpp:182-216 | a row shows a pack iff it lies in that pack's stretch; the stretch shows each entry once, in full rows but for the last |
| GridModels.IndexFindsNames | src/GridImagePackModel.cpp:105-159 | searching the index is searching the names |
| GridModels.CutIntoRows | src/GridImagePackModel.cpp:362-372 | cuts grouped results into consecutive rows of one pack, non-empty, at most `columns` long and never shorter than they could be |
| GridModels.GridImagePackModel.constructor | src/GridImagePackModel.cpp:40-160 | the packs in order, with three or seven columns, every pack's rows following those of the pack before, and each entry indexed under exactly its names and their words |
| GridModels.GridImagePackModel.SetSearchString | src/GridImagePackModel.cpp:341-373 | the results of the search for at most 36 or 196 entries with a name within two edits, none twice, sorted into the grouping by pack and cut into rows; all of them and best first when the index is small enough |
| GridModels.GridImagePackModel.RowCount | src/GridImagePackModel.cpp:162-167 | the rows run to the end of the last pack, with a search to the last result |
| GridModels.GridImagePackModel.Data | src/GridImagePackModel.cpp:179-267 | nothing iff the row does not exist, otherwise the entries of that row of the pack or of the search |
| GridModels.GridImagePackModel.Sections | src/GridImagePackModel.cpp:303-338 | each pack that has rows gets one section, at its first row, with and without a search |
| PowerLevels.MakeTypes | src/PowerlevelsEditModels.cpp:20-84 | the first list is sorted and has each event type, one header per level and the six built-in entries once each |
| PowerLevels.InitialOrder | src/PowerlevelsEditModels.cpp:68-83 | by level from high to low; in a level the header, names with a dot, the others, each in byte order |
| PowerLevels.InitialHeaders | src/PowerlevelsEditModels.cpp:30-59 | a level has one header iff an event type or user has it or a default has it that is not the creators' |
| PowerLevels.SortedIsUnique | src/PowerlevelsEditModels.cpp:68-83 | the comparison leaves a sort no choice |
| PowerLevels.InitialNoRepeats | src/PowerlevelsEditModels.cpp:30-66 | at first no name is listed twice iff no event type has a built-in name |
| PowerLevels.UneditedRebuilds | src/PowerlevelsEditModels.cpp:88-95 | without edits the list gives back the events map, and all six other levels, iff every event type has a dot |
| PowerLevels.EditsKeepOrder | src/PowerlevelsEditModels.cpp:257-361 | whatever is moved, added or removed, levels never rise along the list, and no event type is listed twice unless the room had one with a built-in name |
| PowerLevels.RemoveTakesOut | src/PowerlevelsEditModels.cpp:257-268 | a removal takes the named row out, those below move up, unless there is none or it is a header |
| PowerLevels.AddRolePutsHeader | src/PowerlevelsEditModels.cpp:292-307 | a new role is a header behind everything of at least its level and before the rest |
| PowerLevels.MoveRefused | src/PowerlevelsEditModels.cpp:309-345 | a move of no row, of a header or to its own place changes nothing |
| PowerLevels.MoveRowsIsMove | src/PowerlevelsEditModels.cpp:323-361 | moving rows before another moves one row to that place, or to the one before if it comes from above |
| PowerLevels.MoveChangesOne | src/PowerlevelsEditModels.cpp:309-361 | a move leaves all other entries and their order alone, and the moved one takes the level of the row it comes to stand below, or of the first row |
| PowerLevels.AddTakesLevel | src/PowerlevelsEditModels.cpp:270-290 | an added type ends at or directly below the row and has the row's level unless it stood directly below the row with another one; the others stay as they were |
| PowerLevels.AddCanBeIgnored | src/PowerlevelsEditModels.cpp:270-307 | from any list with an event type in its second row, a move and a new role lead to an add that does nothing |
| PowerLevels.MoveChangesEvents | src/PowerlevelsEditModels.cpp:88-95 | a move changes the events map at the moved type only |
| PowerLevels.AddChangesEvents | src/PowerlevelsEditModels.cpp:88-95 | an add sets the added type to the row's level in the events map and changes nothing else |
| PowerLevels.RemoveChangesEvents | src/PowerlevelsEditModels.cpp:88-95 | a removal takes the removed type alone out of the events map |
| PowerLevels.AddRoleKeepsEvents | src/PowerlevelsEditModels.cpp:292-307 | a new role leaves the events map alone |
| PowerLevels.PowerlevelsTypeListModel.Add | src/PowerlevelsEditModels.cpp:270-290 | the scan, moves and insertion of `add` do what the edit means |
| PowerLevels.PowerlevelsTypeListModel.AddRole | src/PowerlevelsEditModels.cpp:292-307 | a header is put before the first lower level |
| PowerLevels.PowerlevelsTypeListModel.MoveRows | src/PowerlevelsEditModels.cpp:323-361 | takes the entry out and puts it in front of the destination with the level above it, and refuses headers and rows outside the list |
| PowerLevels.PowerlevelsTypeListModel.Remove | src/PowerlevelsEditModels.cpp:257-268 | removes a named row, refuses headers |
| PowerLevels.PowerlevelsTypeListModel.ToEvents | src/PowerlevelsEditModels.cpp:88-95 | collects the dotted entries into the events map |
| PowerLevels.PowerlevelsTypeListModel.LevelOf | src/PowerlevelsEditModels.cpp:97-144 | each of the six other levels is that of the first entry with its name, or the default for users |
| PowerLevels.PowerlevelsTypeListModel.Perform | src/PowerlevelsEditModels.cpp:257-361 | a sequence of edits on the list in place is the fold the theorems are about |

## Left out

- FuzzyTrie.FuzzyIndex.Insert: walks and rebuilds the trie as a value, because each node holds its children by value; the write in place through a reference to a node, and aliasing, are not captured.
- FuzzyTrie.FuzzyIndex.Search: as for `SearchTrie`, the maximal edit distance 2^64 - 1 is excluded.
- FuzzyTrie.SearchTrie: a maximal edit distance of 2^64 - 1, for which the loop counter of the program wraps and its loop need not end, is excluded.
- TrieModel.InsertAllStores: splitting of names into words, case folding and normalisation happen before the trie and are inputs here.
- RoomTimelines.RoomTimeline.SaveTimelineMessages: the relations table, state effects of redactions (`states`, `states_key`), failures to parse a stored event, and what makes an event hidden are left out; hidden is a field of the event.
- RoomTimelines.RoomTimeline.SaveOldMessages: the relations table is left out, and an id too long for a key, which raises the same error as an empty one.
- RoomTimelines.RoomTimeline.SavePendingMessage: the pending table, whose millisecond keys can overwrite each other, is left out.
- RoomTimelines.RoomTimeline.ClearTimeline: the sweep after the first loop (src/Cache.cpp:4466-4498) is left out, because it depends on where a cursor rests after a failed step backwards.
- RoomTimelines.RoomTimeline.DeleteOldMessages: is the loop body for one room; the limit of 30000 or 5000 messages is the parameter, and the relations table is left out.
- RoomTimelines.RoomTimeline.Run: transactions are atomic; the assumption that fewer than 2^63 entries are added on either side is a precondition.
- DeviceKeys.NoReuse: starts from an entry without devices; the path that first stores an unknown user's devices is outside it, where `DeviceKeys.FirstSeenIsSafeExactly` says what holds. Signature checks are an uninterpreted function, and the fallbacks for users with more than 255 characters are left out.
- KeyStores.KeyStore.UpdateUserKeys: marking a user's keys as out of date, which can create an empty entry without touching the memo, is not part of the memo claim.
- OlmSessions.OlmSessionTable.GetLatestOlmSession: unpickling is left out, and so is the abort the storage library raises for an empty curve key, which finds nothing here.
- MegolmSessions.InboundMegolmSessions.SaveInboundMegolmSession: importing session keys and outbound sessions overwrite the data and are left out, as are the fields of the data that a merge copies from the first offer.
- Spaces.SpaceTables.UpdateSpaces: a user's power level is a function of the power level event, which includes creators with unlimited power.
- ImagePacks.GetImagePacks: names, avatars and member counts of packs are left out; a parent whose state is not stored raises an error that skips it, which adds nothing here.
- GridModels.GridImagePackModel.Data: rows and pack indexes are numbers below the sentinels -1 of their 64 and 32 bit types; names, avatars and descriptors are left out, and text emoji and images are one kind of entry.
- GridModels.GroupByPack: the library's stable sort is modelled by insertion, `GridLayout.InsertGroups` being what makes the choice irrelevant.
- GridModels.SectionsOf: one method for the two loops of `sections`, which differ only in where a row's pack is read.
- PowerLevels.MakeTypes: the library's sort is modelled by insertion; the creators' level is a parameter, present if the room version gives creators unlimited power.
- PowerLevels.PowerlevelsTypeListModel.Add: a new name behind the last row is excluded, because the program then reads the level of a row that does not exist.
- `PowerlevelsUserListModel`: its `moveRows` reads one row past the end when moving to the last position; the rest would repeat the type list.
- `AliasEditingModel`: its flags follow no invariant worth stating.
- Networking, Qt signals and roles, settings, login, image providers, D-Bus, logging, encryption and the LMDB layer itself.
