# A verified model of the UDS index

UDS finds duplicate data: it maps the hash names of chunks to the places where the
chunks were last seen. Its index is built on *delta lists*: sorted key/value lists kept
as Huffman-coded bit streams, packed side by side in one byte array, searched and edited
in place. This project models that core and what sits on it, in layers, and proves what
each layer promises the next.

| layer | modules | what is proved |
|---|---|---|
| bits | `Bits` | fields, byte strings and overlapping moves of bits are exact and stay inside the guard bytes |
| delta memory | `DeltaLayout`, `DeltaEdit`, `DeltaSave`, `DeltaMemory` | rebalancing, growing and shrinking lists keeps every other list; an incremental save is a snapshot |
| delta code | `Numbers`, `DeltaCode`, `DeltaEntries`, `DeltaEntryIO`, `DeltaSearch` | the code is prefix-free and round-trips; the word-at-a-time decoder; what a list means as records |
| delta index | `DeltaIndexSpec`, `DeltaIndex` | get, put, remove and set of records, the remembered search position, counts, all under a save in progress |
| pages | `PageLayout`, `DeltaPage`, `ChapterAnswers`, `ChapterIndex`, `IndexPageMap` | packing, opening and searching pages; a name put in a chapter is found through the page map |
| zones | `ZoneDivision`, `SaveHeaders`, `SaveFiles`, `DeltaRestore`, `DeltaTransfer` | an index saved with one number of zones is restored with another, entry for entry, from files in any order |
| master index | `ChapterNumbers`, `LazyFlush`, `MasterAnswers`, `MasterIndex`, `MasterIndexRuns` | true chapter numbers from their low bits, lazy expiry, moving the open chapter, and what every name is answered throughout |
| chapters | `ChapterProtocol` | the zones and the chapter writer as interleaved steps: safety over all runs, and progress |
| saves | `SaveSlots`, `IndexLayout`, `Checkpoint` | crash safety of the save slots, region tables, completion of checkpoints |

Conventions. A byte is a sequence of eight bits, low bit first, and `Stream` is a memory
as one flat bit sequence, so that every write is a `Splice`. A delta list is a sequence of
`Entry` values (delta, value, name); `View` gives its records (key, value, name). State
that the C code updates in place is a class with fields, `modifies` clauses and an
invariant; ghost fields hold what the bits mean (`entries`), what a save has to contain
(`image`), the true chapters behind stored low bits (`chapters`) and what was put
(`records`). The counts of a zone may differ from what its lists hold by a fixed amount,
its skew, because a restore gives the counts of the whole index to the first zone. An
index is balanced if the skews add up to nothing. The zone and chapter writer threads are
a state machine over atomic steps. Statements over "every run" are either invariants that
every method keeps or, for the state machine, theorems about every reachable state.

## What was found

Some promises hold only under a condition. The code is modelled as it is; each of these
has the exact condition and, where it can fail, a concrete input.

- `DeltaCode.SetDeltaIsExact`, `DeltaCode.SetDeltaWraps`: the size that setDelta predicts
  is the size of the code if and only if minKeys <= incrKeys + delta. With mean delta 10
  the unsigned subtraction wraps for deltas 0 and 1. `DeltaCode.SetDeltaExactForAll` says
  for which codings this can happen.
- `DeltaMemory.Zone.StartRestoring`, `DeltaMemory.StartTooLarge`: startRestoringDeltaMemory
  reports success even when the lists do not fit. The zone then waits for nothing, and its
  lists lie across the guard bytes. A save of a whole index does not get through with that:
  `DeltaTransfer.Restore` succeeds if and only if every zone has room.
- `DeltaMemory.Zone.Clear`, `DeltaMemory.ClearWhileSaving`: lists are emptied without being
  written first. A save in progress stays good if and only if it has written all of them.
- `DeltaPage.ReadableExactly`, `DeltaPage.ChecksBehindPage`, `DeltaPage.OpensBehindPage`: the
  size check of a page admits more lists than have readable offsets. For every header that
  passes it and claims such a list there is a page that is read behind its end; one of 4096
  bytes with 1716 lists is opened. `DeltaPage.OpenPage` says exactly which pages do this;
  packed pages never do (`DeltaPage.PackedOpens`).
- `MasterIndex.MasterIndexZone.SetOpenChapter`, `MasterIndexRuns.GoBack`: two backward moves
  do not lower the flush chapters. The invariant survives them if and only if no flush
  chapter is above the new open chapter. In the run from chapter 5 back to 2 it is, and
  a record of chapter 2 is later reported in chapter 6. `MasterIndex.StaleIsMisdated` says
  in general what happens. From such a state the slow path of a backward move removes what
  would be reported in a later chapter, right or wrong (`MasterIndex.NewestIsReported`).
- `MasterIndex.MasterIndexZone.PutRecord`, `MasterIndex.MasterIndexZone.SetRecordChapter`:
  any indexed chapter is accepted, but a list can expire only chapters from its flush
  chapter on. The invariant is kept if and only if the chapter is in that window. The open
  chapter always is (`MasterIndex.MasterIndexZone.OpenInWindow`). `MasterIndexRuns.PutLate`
  and `MasterIndexRuns.MoveLate` are runs in which it is not.
- `ChapterProtocol.StoppedInStep`, `ChapterProtocol.StoppedTooEarly`: a comment in the
  chapter writer says that all zones are in the same open chapter when it exits. The zone
  threads have been joined by then, so that is so, unless a zone has failed in
  checkpointing, which comes between opening a chapter and submitting the one before. Then
  that chapter is never written (`ChapterProtocol.StuckForGood`).
- `ZoneDivision.EnoughListsExactly`, `ZoneDivision.OneZoneTooMany`: a comment in
  initializeDeltaIndex states a condition under which every zone has a list. It is off by
  one: 4 zones for 6 lists meet it, and are refused. The sufficient condition in the same
  comment is right (`ZoneDivision.SquareIsEnough`).
- `IndexLayout.OverfullIsTable`, `IndexLayout.TableTiles`: a region table without free
  space is accepted although its regions exceed the save slot, because the size of the
  free space wraps around. For every table that is accepted, what is read back tiles the
  slot if and only if the other regions fit.
- `SaveSlots.IndexSlots.Commit`, `SaveSlots.SameMillisecond`: a new save is the one loaded if
  and only if its time is later than that of the last save, or the same in a lower slot. Of
  two saves in the same millisecond the older one may be loaded.
- `SaveSlots.IndexSlots.Invalidate`, `SaveSlots.TiedSaves`: the next save does not touch the
  last one, if memory agrees with the disk, unless all slots have the same time. In a run of
  saves at 7, 8 and 8 the fourth save first invalidates the third, and a crash then loads
  the second.
- `SaveSlots.IndexSlots.Invalidate`, `SaveSlots.AbandonedSave`: a save that fails to
  commit is not cancelled. Memory then takes it for the latest, and the next save reuses
  the slot of the last good one. In general the last save is safe if and only if memory
  does not have it as the oldest.
- Comments in deltaIndex.c say that a collision holds a 256-bit name. A chunk name has 16
  bytes in this version, so the model uses 128 bits, as the code does.

## Model

| member | source | states |
|---|---|---|
| `Bits.GetField` | uds/bits.h:72-77 | reading through a 32-bit word gives exactly the bits of the field, padded with zeros |
| `Bits.GetBigField` | uds/bits.c:42-48 | the same through a 64-bit word, for fields of up to 57 bits |
| `Bits.MergeIsSplice` | uds/bits.h:89-98 | masking a value into a word replaces exactly the bits of the field |
| `Bits.WriteField` | uds/bits.c:60-69 | read-modify-write of a word changes exactly the bits of the field in memory |
| `Bits.FillBits` | uds/bits.h:109-148 | setOne and setZero: exactly the given range becomes ones or zeros, at any alignment |
| `Bits.GetBytes` | uds/bits.c:72-79 | the bytes read have the bits of the range, at any alignment |
| `Bits.SetBytes` | uds/bits.c:82-91 | the range gets the bits of the bytes and nothing else changes |
| `Bits.SameBits` | uds/bits.c:154-171 | the result is true if and only if the two ranges have equal bits |
| `Bits.MoveBits` | uds/bits.c:94-151 | the destination gets the original source bits and no other bit changes, for all offsets and sizes, also when the ranges overlap in one buffer in either direction, within the guard bytes |
| `Bits.MoveLowBitsFirst` | uds/bits.c:99-124 | moving down word by word: what is still to be moved is intact at every step |
| `Bits.MoveHighBitsFirst` | uds/bits.c:125-146 | moving up word by word: the same from the other end |
| `DeltaLayout.UpperHalfFirst` | uds/deltaMemory.c:217-251 | if the middle list moves up, doing the upper half first destroys no byte the lower half needs, even one shared by two lists |
| `DeltaLayout.LowerHalfFirst` | uds/deltaMemory.c:217-251 | otherwise, doing the lower half first destroys nothing the upper half needs |
| `DeltaLayout.RebalancedContents` | uds/deltaMemory.c:217-251 | after a rebalance all lists are disjoint, in order, and have their bits |
| `DeltaLayout.ExtendPlanIsPlanned` | uds/deltaMemory.c:568-626 | when the space suffices, the offsets computed keep lists apart by whole bytes, leave the tail guard in place and leave the requested gap |
| `DeltaMemory.Zone.Rebalance` | uds/deltaMemory.c:217-251 | the recursive rebalance brings every list to its planned offset with its bytes, and touches no other byte |
| `DeltaMemory.Zone.MakePlan` | uds/deltaMemory.c:592-611 | the loop computes the planned offset of every list |
| `DeltaMemory.Zone.Extend` | uds/deltaMemory.c:568-626 | it fails exactly when the bytes in use and requested exceed the memory; otherwise the gap before the growing list is as large as requested and no list changes |
| `DeltaMemory.Zone.FindRoom` | uds/deltaIndex.c:401-454 | overflow exactly when the list would be too long for its 16-bit size, or neither neighbouring gap nor a rebalance has the room; otherwise there is room on the side reported |
| `DeltaMemory.Zone.InsertBits` | uds/deltaIndex.c:401-472 | success under the same exact condition: a gap of the given size opens at the offset, the rest of the list and all other lists keep their bits; on overflow nothing changes |
| `DeltaMemory.Zone.DeleteBits` | uds/deltaIndex.c:298-337 | exactly the given bits are gone and all other lists keep theirs |
| `DeltaEdit.OpenBefore` | uds/deltaIndex.c:456-470 | moving the bits before the gap down opens it |
| `DeltaEdit.OpenAfter` | uds/deltaIndex.c:456-470 | moving the bits after the gap up opens it |
| `DeltaEdit.CloseBefore` | uds/deltaIndex.c:323-336 | moving the bits before the gap up closes it |
| `DeltaEdit.CloseAfter` | uds/deltaIndex.c:323-336 | moving the bits after the gap down closes it |
| `DeltaMemory.Zone.constructor` | uds/deltaMemory.c:254-315 | a new zone has empty lists between guards and no transfers |
| `DeltaMemory.Zone.Clear` | uds/deltaMemory.c:144-186 | all lists become empty and lie evenly between the guards; a save in progress stays good if and only if no list is left to write |
| `DeltaMemory.ClearWhileSaving` | uds/deltaMemory.c:144-186 | a save that has not written its list is spoilt by emptying it |
| `DeltaMemory.Zone.BitsUsed` | uds/deltaIndex.c:1619-1629 | the sum of the sizes of the real lists |
| `DeltaMemory.Zone.FlagNonEmptyLists` | uds/deltaMemory.c:131-141 | a flag is set exactly for the lists that are not empty, and the count is the number of flags |
| `DeltaMemory.Zone.StartSaving` | uds/deltaMemory.c:471-476 | the image of the save is the lists as they are now, and nothing has been written; the header is in `DeltaTransfer.ZonedDeltaIndex.StartSavingZone` |
| `DeltaMemory.Zone.LazyFlush` | uds/deltaMemory.h:363-369 | a list is written before its first change, and then its flag is clear; the snapshot invariant holds |
| `DeltaMemory.Zone.FinishSaving` | uds/deltaMemory.c:479-495 | whatever happened since the start, the stream holds every list that was not empty then exactly once, with its bits of then |
| `DeltaMemory.Zone.AbortSaving` | uds/deltaMemory.c:498-502 | the save is dropped and the lists are untouched |
| `DeltaSave.SnapshotKept` | uds/deltaMemory.c:518-549 | any change to lists whose flags are clear keeps the snapshot invariant |
| `DeltaSave.SnapshotFlush` | uds/deltaMemory.c:518-549 | writing a flagged list and clearing its flag keeps it |
| `DeltaMemory.Zone.StartRestoring` | uds/deltaMemory.c:365-380 | if the lists fit, every list has its size and place and is flagged if not empty; if they do not, the result is success, nothing is flagged, and the zone is well formed only if the lists lie between the guards all the same |
| `DeltaMemory.StartTooLarge` | uds/deltaMemory.c:365-371 | a zone and a list that does not fit: success, nothing to wait for, and a zone that is not well formed |
| `DeltaMemory.Zone.AbortRestoring` | uds/deltaMemory.c:464-468 | all lists are empty and none is awaited |
| `DeltaMemory.Zone.RestoreList` | uds/deltaMemory.c:427-461 | a record is accepted exactly if its list is flagged and its size is right; then the list has its bits, the count drops by one and no other list changes |
| `Numbers.ComputeBits` | uds/hashUtils.c:78-90 | the least number of bits that can hold the value |
| `DeltaCode.ComputeCodingConstants` | uds/deltaMemory.c:197-207 | the constants form a coding: minBits fits incrKeys and minKeys fills the short codes |
| `DeltaCode.DecodeEncode` | uds/deltaIndex.c:356-371 | decoding what was encoded, followed by anything, gives the delta and the size of its code |
| `DeltaCode.EncodeDecode` | uds/deltaIndex.c:252-289 | whatever decodes is the code of what it decodes to, so the code is prefix-free |
| `DeltaCode.DecodeDelta` | uds/deltaIndex.c:252-289 | the decoder that loads words and counts trailing zeros computes the decoding of the bit stream, reading only the guard bytes beyond it |
| `DeltaCode.SetDeltaIsExact` | uds/deltaIndex.c:533-541 | the predicted size is the size of the code if and only if the unsigned subtraction does not wrap |
| `DeltaCode.SetDeltaExactForAll` | uds/deltaMemory.c:204-206 | it never wraps unless incrKeys + 1 is a power of two |
| `DeltaCode.SetDeltaWraps` | uds/deltaMemory.c:197-207 | mean delta 10 gives a coding for which it wraps |
| `DeltaCode.SplitNeverShrinks` | uds/deltaIndex.c:1520-1530 | two deltas need more bits than their sum, so sizes to insert and delete are not negative |
| `DeltaEntryIO.EncodeDelta` | uds/deltaIndex.c:356-371 | the code of the delta is written at the offset, and nothing else |
| `DeltaEntryIO.EncodeEntry` | uds/deltaIndex.c:380-390 | the value, the delta and the name of an entry are written at the offset, and nothing else |
| `DeltaEntries.ViewInOrder` | uds/deltaIndex.c:36-133 | records are in key order; a record has a name exactly if it has the key of the record before |
| `DeltaEntries.ViewIsInjective` | uds/deltaIndex.c:36-133 | lists with the same records are the same |
| `DeltaEntries.InsertPlainView` | uds/deltaIndex.c:1496-1538 | splitting a delta adds exactly one record and the list stays well formed |
| `DeltaEntries.InsertCollisionView` | uds/deltaIndex.c:1480-1495 | a collision adds exactly one record after the plain one |
| `DeltaEntries.RemoveEntryView` | uds/deltaIndex.c:1561-1591 | removing an entry removes exactly its record; a collision after a removed plain record becomes the plain one |
| `DeltaEntries.SetDeltaEntryBitsExact` | uds/deltaIndex.c:533-541 | for every key of the index the 16-bit entry size is exact |
| `DeltaEntries.LocateMeaning` | uds/deltaIndex.c:1353-1396 | a search ends at the record of the name if it has one, else at the plain record of the key, else where a record with the key belongs |
| `DeltaEntries.SeekFrom` | uds/deltaIndex.c:1281-1292 | starting behind entries below the key changes nothing |
| `DeltaSearch.Next` | uds/deltaIndex.c:1307-1336 | on a list that decodes, the cursor moves to the next entry, or past the end |
| `DeltaSearch.SeekKey` | uds/deltaIndex.c:1362-1367 | from any position before the key the walk stops at the first entry not below it |
| `DeltaSearch.SeekCollision` | uds/deltaIndex.c:1374-1394 | the collision with the name is found if its group has one |
| `DeltaIndex.DeltaIndexZone.StartSearch` | uds/deltaIndex.c:1237-1303 | a search starts at an entry boundary before the key, and a search for a change has the list written first |
| `DeltaIndex.DeltaIndexZone.Remember` | uds/deltaIndex.c:1339-1350 | the remembered position is an entry boundary with the key before it, never a collision |
| `DeltaIndex.DeltaIndexZone.Get` | uds/deltaIndex.c:1353-1396 | the entry found does not depend on the remembered position |
| `DeltaIndex.DeltaIndexZone.GetValue` | uds/deltaIndex.h:447-451 | the value of the entry at the cursor |
| `DeltaIndex.DeltaIndexZone.GetCollision` | uds/deltaIndex.c:1399-1415 | the name of the collision at the cursor, or an error |
| `DeltaIndex.DeltaIndexZone.SetValue` | uds/deltaIndex.c:1427-1450 | only the value of that entry changes; a value that does not fit is refused |
| `DeltaIndex.DeltaIndexZone.Put` | uds/deltaIndex.c:1453-1545 | every error case, with overflow exactly if the bits that the new entry adds do not fit; on success exactly one entry is added at its place, otherwise no list changes, and the counts, the remembered positions and a save in progress stay right |
| `DeltaIndex.DeltaIndexZone.Remove` | uds/deltaIndex.c:1548-1602 | exactly one entry goes, the cursor is at the next, and the counts, positions and save stay right |
| `DeltaIndex.DeltaIndexZone.constructor` | uds/deltaIndex.c:547-599 | an index zone of empty lists |
| `DeltaIndex.DeltaIndexZone.Clear` | uds/deltaIndex.c:725-728 | all lists are empty and nothing is counted; a save in progress stays good if and only if it has written all lists |
| `DeltaPage.CountLists` | uds/deltaIndex.c:757-787 | as many lists as fit with their table and the guard bytes: one more would not |
| `DeltaPage.Pack` | uds/deltaIndex.c:731-826 | the page holds header, table, the bits of the lists and guard bytes, and is unchanged elsewhere; the error cases |
| `DeltaPage.VerifyPage` | uds/deltaIndex.c:602-651 | good if and only if the lists lie in order between table and guard bytes, which are ones, and the nonce matches; and exactly which pages make it read behind the memory |
| `DeltaPage.OpenPage` | uds/deltaIndex.c:654-700 | in either byte order of the header: success exactly for valid parameters and a page that verifies, with the header that was read; and exactly which pages make it read behind the memory |
| `DeltaPage.ReadableExactly` | uds/deltaIndex.c:614-632 | the offset table is readable within the page if and only if its last entry begins before the last three bytes |
| `DeltaPage.TableBehindPage` | uds/deltaIndex.c:614-622 | 1716 lists pass the size check of a page of 4096 bytes, and the last offset is read three bytes behind it |
| `DeltaPage.ChecksBehindPage` | uds/deltaIndex.c:624-632 | for every header that passes the size check and claims a list without a readable offset, a page with that header whose check reads behind it |
| `DeltaPage.OpensBehindPage` | uds/deltaIndex.c:654-683 | a page of 4096 bytes whose header claims 1716 lists, with any nonce: opening it reads behind it |
| `DeltaPage.PackedOpens` | uds/deltaIndex.c:654-700 | every packed page verifies, in a buffer of exactly its size as well, has the header it was given, and all its offsets are readable |
| `DeltaPage.PackedStored` | uds/deltaIndex.c:1269-1279 | the temporary header of a packed list finds it as it was in the open index |
| `DeltaPage.SearchPage` | uds/deltaIndex.c:1353-1396 | a search on a page ends where a search of the open list does |
| `DeltaPage.FindRecordPage` | uds/chapterIndex.c:282-305 | the value of the entry of the name, or -1 |
| `DeltaPage.PackedFromIndex` | uds/deltaIndex.c:731-826 | every list packed from an index is stored on the page with its entries |
| `DeltaPage.SearchesAgree` | uds/deltaIndex.c:1353-1396 | for every key and name a search of the index and one of the page it was packed to end at the same entry |
| `ChapterAnswers.PutAnswers` | uds/chapterIndex.c:100-134 | a put after a search gives the name its value and changes what is found for no other name that has an answer |
| `ChapterIndex.OpenChapterIndex.constructor` | uds/chapterIndex.c:34-62 | an empty chapter index |
| `ChapterIndex.OpenChapterIndex.Clear` | uds/chapterIndex.c:77-82 | no name is indexed |
| `ChapterIndex.OpenChapterIndex.Put` | uds/chapterIndex.c:100-134 | the name is found with its page from now on, as are all names put before; every error case, overflow exactly if the entry does not fit, and none changes anything |
| `ChapterIndex.OpenChapterIndex.FindNonEmpty` | uds/chapterIndex.c:181-196 | the last list with entries among those considered, or overflow if there is none |
| `ChapterIndex.OpenChapterIndex.RemoveAll` | uds/chapterIndex.c:197-203 | the list is empty and no other list changes |
| `ChapterIndex.OpenChapterIndex.PackPage` | uds/chapterIndex.c:137-211 | it terminates; overflow exactly if not even empty lists fit; the last page holds all lists left; only emptied lists lose names, and before the last page only one that does not fit on a page |
| `IndexPageMap.PageMap.constructor` | uds/indexPageMap.c:66-97 | a map for the chapters and pages of a volume |
| `IndexPageMap.PageMap.Update` | uds/indexPageMap.c:115-162 | one entry changes, except for the last page, and the error cases |
| `IndexPageMap.PageMap.Find` | uds/indexPageMap.c:165-197 | the page found has the list, if the map describes the chapter |
| `IndexPageMap.PageMap.Bounds` | uds/indexPageMap.c:200-227 | the first and last list of the page |
| `IndexPageMap.WriteIndexPages` | uds/volume.c:787-858 | the pages hold all lists, the map describes the chapter, other chapters keep their entries, and names are lost only with emptied lists |
| `IndexPageMap.LookUp` | uds/volume.c:695-737 | every name is answered through the map and the page as its list answers it; every name left in the index is found with its record page |
| `IndexPageMap.Rebuild` | uds/index.c:577-613 | success if and only if every page follows the one before; the map then describes the chapter if and only if the last page ends with the last list |
| `IndexPageMap.RebuildsWritten` | uds/index.c:577-613 | the headers of a chapter that was written rebuild the map it was written with |
| `ZoneDivision.RoutedToItsZone` | uds/deltaIndex.h:503-507 | every list is routed to a zone that has it |
| `ZoneDivision.OnlyItsZone` | uds/deltaIndex.h:503-507 | no other zone has it |
| `ZoneDivision.ZonesFollow` | uds/deltaIndex.c:569-597 | the zones follow one another, end with the last list, and none is empty |
| `ZoneDivision.EnoughListsExactly` | uds/deltaIndex.c:573-588 | exactly when the check in the code passes |
| `ZoneDivision.SquareIsEnough` | uds/deltaIndex.c:573-588 | as many lists as the square of the zones always pass |
| `ZoneDivision.OneZoneTooMany` | uds/deltaIndex.c:573-588 | the condition in the comment is off by one |
| `SaveHeaders.ReadSizes` | uds/deltaIndex.c:907-1019 | success if and only if the headers, in any order, are those of all zones of one index with all its lists; the sizes come out in list order, and the counts are the sums, as 64-bit words |
| `DeltaRestore.RestoreInZone` | uds/deltaMemory.c:427-461 | a wanted record is accepted and one that is not is refused without effect; a zone that is too small accepts none |
| `DeltaRestore.AllArrived` | uds/deltaMemory.c:359-362 | no transfer is left if and only if all lists of the zone that are not empty have arrived; the zone then holds its part of the image |
| `DeltaRestore.ZonedIndex.StartRestoring` | uds/deltaIndex.c:907-1029 | success exactly for matching headers, and otherwise nothing changes; every zone then waits for its part of the image, exactly if it has room for it; the counts |
| `DeltaRestore.ZonedIndex.RestoreRecord` | uds/deltaIndex.c:1044-1062 | a record is accepted exactly if it has the tag, its list exists, and the zone of that list waits for it |
| `DeltaRestore.ZonedIndex.RestoreLists` | uds/masterIndexOps.c:174-200 | for any stream whose records hold bits of the image: success exactly if every record is for a list still awaited and all lists arrive; then every waiting zone has its part of the image bit for bit; otherwise all lists are empty |
| `DeltaRestore.ZonedIndex.TransfersDone` | uds/deltaIndex.c:1032-1041 | done exactly if no zone waits for a list |
| `DeltaRestore.ZonedIndex.AbortRestoring` | uds/deltaIndex.c:1065-1071 | all lists of all zones are empty and none is awaited |
| `SaveFiles.ZonesComplete` | uds/deltaIndex.c:1113-1173 | the records of the zones are together a complete save of all lists |
| `SaveFiles.SavedMatch` | uds/deltaIndex.c:907-1019 | the files of a save, in any order, are accepted as one index, with the sizes of its lists |
| `SaveFiles.SavedComplete` | uds/masterIndexOps.c:174-195 | read one after the other in any order, they hold every list that is not empty exactly once |
| `SaveFiles.Permuted` | uds/deltaIndex.c:966-972 | neither the sums of the counts nor the records depend on the order of the files |
| `SaveFiles.AnyOrderComplete` | uds/deltaIndex.c:1044-1062 | any order of the records is as complete |
| `DeltaTransfer.MakeIndex` | uds/deltaIndex.c:547-599 | an index of empty lists, refused exactly if some zone would have none |
| `DeltaTransfer.ZonedDeltaIndex.StartSavingZone` | uds/deltaIndex.c:1113-1159 | the header says which lists of which zone these are, how many records they hold, and how long each is |
| `DeltaTransfer.ZonedDeltaIndex.FinishSavingZone` | uds/deltaIndex.c:1169-1173 | the stream holds every list that was not empty when the save began exactly once, with its bits of then |
| `DeltaTransfer.Save` | uds/deltaIndex.c:1113-1173 | the files of all zones are a save of all entries of the index |
| `DeltaTransfer.SaveOfIsSave` | uds/deltaIndex.c:907-1029 | files written by an index have what a restore asks of them: a matching set whose sizes and records are those of the lists |
| `DeltaTransfer.CountsOfSave` | uds/deltaIndex.c:970-998 | the counts in the files add up, as 64-bit words, to those of the whole index |
| `DeltaTransfer.AcceptedExactly` | uds/masterIndexOps.c:174-200 | a complete save is accepted if and only if every zone waits for its lists |
| `DeltaTransfer.SomeEntries` | uds/deltaIndex.c:569-597 | the lists of the zones of any index make up one sequence of lists |
| `DeltaTransfer.RestoreBits` | uds/masterIndexOps.c:165-201 | success exactly if every zone has room; then every zone has its part bit for bit, otherwise all lists are empty |
| `DeltaTransfer.Adopt` | uds/deltaIndex.c:996-1029 | zones that hold the bits of well formed lists are an index with their entries again, with the counts in the first zone |
| `DeltaTransfer.Restore` | uds/masterIndexOps.c:165-201 | from the files of any save, in any order and of any number of zones: success if and only if every zone has room, and then every list has its entries |
| `DeltaTransfer.SaveAndRestore` | uds/masterIndexOps.c:165-201 | saving any index and restoring another with another number of zones moves every entry of every list, exactly if the other one has room, and leaves the first as it was |
| `ChapterNumbers.WordMod32` | uds/masterIndex005.c:225-228 | 32-bit wrap-around does not matter under the chapter mask |
| `ChapterNumbers.WordMod64` | uds/masterIndex005.c:161-170 | nor does 64-bit wrap-around |
| `ChapterNumbers.LowBits` | uds/masterIndex005.c:161-170 | the low bits of two chapters give their distance, if it fits |
| `LazyFlush.ExpiredIsFlushed` | uds/masterIndex005.c:1023-1034 | for a chapter in the window of its list, being in the flush range is being expired |
| `LazyFlush.FlushRows` | uds/masterIndex005.c:214-240 | a flush removes exactly the records in the range; the others keep key, value and chapter |
| `LazyFlush.KeptIsLive` | uds/masterIndex005.c:1021-1034 | what a flush of the expired range keeps is what is live |
| `MasterAnswers.PickIs` | uds/masterIndex005.c:253-316 | only one record answers for a name: its own or, if it has none, the first with its key |
| `MasterAnswers.FoundIsPick` | uds/masterIndex005.c:288-312 | if all records count, that is the one a search ends at |
| `MasterAnswers.DropPick` | uds/deltaIndex.c:1548-1602 | removing a record changes no answer that it did not give, also when the next collision becomes the plain record |
| `MasterAnswers.FlushPick` | uds/masterIndex005.c:214-240 | a flush of any range changes no answer among chapters that it keeps |
| `MasterAnswers.OtherPick` | uds/deltaIndex.c:1453-1545 | adding a record changes no other answer |
| `MasterIndex.TrueChapter` | uds/masterIndex005.c:161-170 | converting the stored bits gives the true chapter of a live entry |
| `MasterIndex.TrueChapterExactly` | uds/masterIndex005.c:161-170 | for no other chapter does it |
| `MasterIndex.NewWindow` | uds/masterIndex005.c:1030-1037 | the new flush chapter starts a window that holds all chapters left in the list |
| `MasterIndex.MasterIndexZone.constructor` | uds/masterIndex005.c:1394-1470 | an empty zone that meets the invariant |
| `MasterIndex.MasterIndexZone.FlushInvalid` | uds/masterIndex005.c:214-240 | entries in the range are removed up to the next one kept, and the least chapter kept is tracked |
| `MasterIndex.MasterIndexZone.GetEntry` | uds/masterIndex005.c:253-316 | the whole list is flushed, the entry of the name is found in what is left, and the oldest chapter left is returned |
| `MasterIndex.MasterIndexZone.FindEntry` | uds/masterIndex005.c:1018-1046 | the list keeps exactly what a flush of the expired range keeps; under the invariant that is its live records, all windows stay right, and every name has the answer it had |
| `MasterIndex.CleanedAnswers` | uds/masterIndex005.c:1021-1035 | removing the expired entries of a list changes no answer among the chapters being indexed |
| `MasterIndex.MasterIndexZone.AnswerIsFound` | uds/masterIndex005.c:1036-1048 | after a lookup the answer for a name is the chapter of the entry that a search finds |
| `MasterIndex.MasterIndexZone.GetRecord` | uds/masterIndex005.c:1006-1050 | a record found is reported in its true chapter if and only if the stored bits can tell it; under the invariant the chapter reported is the answer for the name among the chapters being indexed, none is reported if there is none, and the answers for all names stay |
| `MasterIndex.MasterIndexZone.PutRecord` | uds/masterIndex005.c:1061-1104 | every error case; one record is added with its chapter, errors change nothing, and the invariant is kept if and only if the chapter is in the window of the list; after a lookup the name has its answer and no other answer changes |
| `MasterIndex.PutKeepsAnswers` | uds/masterIndex005.c:1061-1104 | a put after a search keeps names distinct, gives the name its chapter and changes no other answer |
| `MasterIndex.MasterIndexZone.SetRecordChapter` | uds/masterIndex005.c:1155-1187 | every error case; only the chapter of that record changes, and the invariant is kept if and only if the new one is in the window of the list; after a lookup exactly the answers given by that record change |
| `MasterIndex.SetKeepsAnswers` | uds/masterIndex005.c:1155-1187 | setting a chapter changes exactly the answers given by that record |
| `MasterIndex.MasterIndexZone.OpenInWindow` | uds/masterIndex005.c:1021-1035 | after any lookup the open chapter is in the window of the list |
| `MasterIndex.MasterIndexZone.RemoveRecord` | uds/masterIndex005.c:1128-1144 | only that record goes, and only the answers that it gave change |
| `MasterIndex.RenumberedLive` | uds/masterIndex005.c:728-750 | giving newer chapters numbers that are older by the modulus hides exactly them, without touching an entry |
| `MasterIndex.MasterIndexZone.RenumberNewest` | uds/masterIndex005.c:741-750 | the fast path, in any state: no entry changes, newer chapters become older by the modulus, and flush chapters are lowered to that |
| `MasterIndex.MasterIndexZone.FlushNewest` | uds/masterIndex005.c:751-771 | the slow path, in any state: every list is flushed of the range of newer chapters |
| `MasterIndex.NewestIsReported` | uds/masterIndex005.c:754-757 | that range is what would be reported in the new open chapter or a later one |
| `MasterIndex.BackMoves` | uds/masterIndex005.c:728-772 | on either path, under the invariant, what is live afterwards is what was live and older, and every name has its answer among that |
| `MasterIndex.MovedLowMeaning` | uds/masterIndex005.c:789-823 | of the chapters before the new open one, exactly the newest numChapters stay indexed |
| `MasterIndex.MasterIndexZone.SetOpenChapter` | uds/masterIndex005.c:784-858 | in any state, what becomes of every list, flush chapter and bound; under the invariant what is live is what was, without the new open chapter, later ones and those no longer indexed, and every name has its answer among that; early expiry; exactly when the invariant is kept, and exactly when a save in progress stays good |
| `MasterIndex.StaleIsMisdated` | uds/masterIndex005.c:1021-1048 | without the invariant an expired entry is not flushed and is reported too new by the modulus |
| `MasterIndexRuns.GoBack` | uds/masterIndex005.c:797-805 | a run of moves, lookups and a put after which a record of chapter 2 is reported in chapter 6 |
| `MasterIndexRuns.PutLate` | uds/masterIndex005.c:1061-1104 | a run that puts a record in an indexed chapter before the window of its list |
| `MasterIndexRuns.MoveLate` | uds/masterIndex005.c:1155-1187 | a run that moves a record to one |
| `ChapterProtocol.StepKeeps` | uds/indexZone.c:243-306 | every step of every thread keeps the invariant of the protocol |
| `ChapterProtocol.RunKeeps` | uds/chapterWriter.c:63-122 | so does every run |
| `ChapterProtocol.ZonesInStep` | uds/indexZone.c:102-116 | in every reachable state a zone is at the newest chapter or one ahead and has submitted each earlier chapter once, in order; the writer's count is the number of submitters |
| `ChapterProtocol.HandedBufferKept` | uds/chapterWriter.c:203-231 | a buffer given to the writer is not the open one, and no step changes it until the write is over |
| `ChapterProtocol.ChaptersOnVolume` | uds/chapterWriter.c:63-122 | the volume holds every chapter of the index with exactly the records put in it by every zone |
| `ChapterProtocol.ForgottenInOrder` | uds/indexZone.c:284-305 | chapters are dropped from the cache in order, each once, and before another is written over them |
| `ChapterProtocol.ReapNeverFails` | uds/indexZone.c:126-144 | the range assertion holds in every reachable state |
| `ChapterProtocol.FailureStops` | uds/chapterWriter.c:217-231 | after a failed write no chapter is closed or written |
| `ChapterProtocol.FinishingLowersRank` | uds/indexZone.c:206-306 | every step that finishes something begun lowers a rank |
| `ChapterProtocol.FinishingRunIsShort` | uds/indexZone.c:206-306 | so under any scheduling there are only so many of them |
| `ChapterProtocol.SomeStepEnabled` | uds/indexZone.c:168-176 | while anything is unfinished and nothing has failed, some step is enabled: no deadlock, and no zone is left behind |
| `ChapterProtocol.CanFinish` | uds/chapterWriter.c:63-122 | unless something has failed, all zones come to be in one chapter with all earlier ones written |
| `ChapterProtocol.DrainKept` | uds/requestQueueKernel.c:356-389 | a zone thread that has been joined is idle and stays so, in every run that stops the index |
| `ChapterProtocol.StoppedInStep` | uds/chapterWriter.c:70-76 | when the writer may exit, all zones are in one chapter if and only if none has failed to submit; then everything has been written |
| `ChapterProtocol.StoppedTooEarly` | uds/indexZone.c:262-272 | a run with a failure in checkpointing after which the writer may exit, a zone is ahead, and the record it was given is not on the volume |
| `ChapterProtocol.StuckForGood` | uds/chapterWriter.c:63-79 | after such a failure no step of any run writes a chapter, and the writer never exits once another zone has submitted |
| `SaveSlots.SelectOldest` | uds/indexLayout.c:1803-1830 | the first slot that is not valid, or else the oldest |
| `SaveSlots.SelectLatest` | uds/indexLayout.c:1834-1860 | the latest valid slot, the lowest of equals, or none if no slot is valid |
| `SaveSlots.IndexSlots.constructor` | uds/indexLayout.c:1115-1146 | slots that hold no save |
| `SaveSlots.IndexSlots.FindLatest` | uds/indexLayout.c:1966-1985 | the latest valid slot in memory; in a valid state that is the slot of the last save committed, with what was saved |
| `SaveSlots.IndexSlots.Invalidate` | uds/indexLayout.c:1921-1963 | the slot invalidated is the oldest in memory; the last save survives if and only if it is not that one; if memory agrees with the disk, that is if and only if not all slots have its time |
| `SaveSlots.IndexSlots.Instantiate` | uds/indexLayout.c:1872-1917 | the new save exists in memory only, and what could be loaded still can |
| `SaveSlots.IndexSlots.WriteData` | uds/indexLayout.c:2337-2349 | only the regions of the save in progress change, and what could be loaded still can |
| `SaveSlots.IndexSlots.Commit` | uds/indexLayout.c:2165-2181 | with one header block the new save becomes the last; it is the one found if and only if no other slot has a later time, or the same in a lower slot; compared with the last save, the same; without state data nothing changes on disk |
| `SaveSlots.IndexSlots.Cancel` | uds/indexLayout.c:2195-2206 | memory agrees with the disk again |
| `SaveSlots.IndexSlots.Crash` | uds/indexLayout.c:1029-1062 | the layout is read from disk again, at any point; the last save is found if what is on disk was enough to find it |
| `SaveSlots.CommittedIsLatest` | uds/indexLayout.c:1834-1860 | exactly when a committed save is the one loaded |
| `SaveSlots.OldestIsUnique` | uds/indexLayout.c:1803-1830 | there is only one slot to choose |
| `SaveSlots.LatestIsOldest` | uds/indexLayout.c:1803-1860 | the latest save is the oldest as well if and only if all slots have its time |
| `SaveSlots.SaveOnce` | uds/indexLayout.c:1921-2181 | a whole save: where it goes, what is on disk, and that it is found if and only if its time is later than that of the last save, or the same in a slot that is not higher |
| `SaveSlots.SameMillisecond` | uds/indexLayout.c:1863-1868 | a run of two saves with equal times: the older one is loaded |
| `SaveSlots.TiedSaves` | uds/indexLayout.c:1803-1830 | a run of saves with times 7, 8 and 8: the third is found, and the next save destroys it first |
| `SaveSlots.AbandonedSave` | uds/indexState.c:206-215 | a run in which a save is neither committed nor cancelled: the next one takes the slot of the last good one, and after a crash there is nothing to load |
| `IndexLayout.SaveLayout.Populate` | uds/indexLayout.c:832-863 | the regions tile the slot without gap or overlap for every zone count and save type that fits |
| `IndexLayout.MakeTable` | uds/indexLayout.c:1989-2033 | the table lists the parts in order, without empty free space |
| `IndexLayout.PopulatedIsTable` | uds/indexLayout.c:1989-2033 | the table of a populated slot is one that is read back as its parts |
| `IndexLayout.RegionIterator.Expect` | uds/indexLayout.c:765-812 | when a region is taken, when that is an error, and when it is just not there |
| `IndexLayout.SaveLayout.Reconstruct` | uds/indexLayout.c:867-967 | success exactly for the tables of some parts, and it gives those parts: building a table and reading it back returns the layout |
| `IndexLayout.OverfullIsTable` | uds/indexLayout.c:936-966 | a table that is accepted and does not tile its slot |
| `IndexLayout.TableTiles` | uds/indexLayout.c:936-966 | what is read back from any accepted table tiles the slot if and only if the regions fit |
| `Checkpoint.PerformComponent` | uds/indexComponent.c:487-528 | a component completes once, and one left to the chapter writer only notices it |
| `Checkpoint.IndexCheckpoint.constructor` | uds/indexState.c:274-297 | every zone is busy |
| `Checkpoint.IndexCheckpoint.Perform` | uds/indexState.c:333-373 | a zone is told that it has just completed exactly once, in the call in which its last component becomes idle |
| `Checkpoint.IndexCheckpoint.ChapterWriterSave` | uds/indexComponent.c:531-562 | the chapter writer brings its component to done and no zone is told before it asks |
| `Checkpoint.IndexCheckpoint.CountOut` | uds/indexCheckpoint.c:299-325 | the checkpoint is finished exactly once, when every component of every zone is idle |

## Left out

- Block devices, buffered readers and writers, the page cache and the sparse cache: streams are sequences of records, the volume is a map from physical chapters to their contents.
- Memory allocation, logging, statistics, prefetching and timing: they do not change what the index means.
- Mutexes and condition variables: the steps of the chapter protocol are atomic and have guards. Steps of checkpointing inside openNextChapter are modelled in `Checkpoint`, not interleaved with the chapter protocol, which knows only whether they fail.
- Hash functions and nonces: the list and address of a name, and the nonce of a save, are arbitrary functions given as parameters.
- masterIndex006, the dispatch tables of the master index, and the read-only sampled lookup: routing over what is modelled.
- The saving and restoring of the flush chapters and chapter range with the master index: only the delta lists are saved and restored in the model.
- Sessions, routers, configuration and the superblock layout: no part of the core.
- What a checkpoint does when a component reports an error, its abort, and the finish of a checkpoint at the last chapter of its period.
- The completion of an incremental master index save by its continue command, which writes no guard list: saves end through `DeltaMemory.Zone.FinishSaving`.
- Records in the chapter protocol are appended to the open chapter. Overwriting and removing records in an open chapter is not modelled.
- The flags of delta memory are a sequence of booleans instead of a bit field, which `Bits` covers.
- DeltaIndex.DeltaIndexZone.Put: it requires that key and value fit the format, and that a plain entry does not have the key of the entry before it. putDeltaIndexEntry checks neither; the second holds wherever a search for the key has ended.
- DeltaCode.DecodeDelta: the delta is a natural number. A bit stream of more than 2^32 zeros, for which the C code would wrap around, is not a list of the index.
- DeltaPage.Pack: it requires pages of at most 64 kilobytes, because list offsets have 19 bits, and list numbers of 16 bits.
- DeltaPage.VerifyPage: it requires a page that can hold its header and guard bytes, which every configured page size does.
- DeltaPage.OpenPage: it requires the same.
- DeltaSearch.Next: it requires a list that decodes within its bounds. The error for corrupt lists is not modelled, because the invariant of the index rules them out.
- DeltaMemory.Zone.FinishSaving: writing always succeeds. The error that a failed write leaves to be reported here is not modelled.
- DeltaTransfer.Restore: it is stated for the files of a save. `SaveHeaders.ReadSizes` covers arbitrary headers and `DeltaRestore.ZonedIndex.RestoreLists` arbitrary streams of records whose bits are those of the image.
- IndexPageMap.WriteIndexPages: success is promised when a page could hold the table of all lists. The exact condition is stated page by page in `ChapterIndex.OpenChapterIndex.PackPage`.
- IndexPageMap.LookUp: it is stated for the pages of a chapter as they were written, and not for pages that were damaged.
- IndexLayout.SaveLayout.Populate: region instances are 16-bit numbers, so there are at most 65535 zones.
