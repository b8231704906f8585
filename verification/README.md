# Verification of the EDB server core

A Dafny 4.11 model of five parts of the server, with proofs. `dafny verify dfyconfig.toml` checks all of it.

**The heap file** (`Bytes`, `DmsPage`, `FreeMap`, `DmsFile`, `FreeOrder`, `HeapHistory`, `HeapSessions`). Pages are
bytes in 128 MB segment arrays, changed in place: slots grow up behind a 28-byte header, records grow down from the
page end.
`HeapFile` is the class `dmsFile` with its `_body` and `_freeSpaceMap`; a ghost layout says what each page's
slots mean, and `Valid` ties bytes, layout and index together. `HeapHistory` gives each operation the answer the
file must give, and shows that the answers of any sequence of inserts, removes and finds are those of a map from
record id to document whose ids are never used twice. `FreeOrder` says which of several equally free pages an insert
takes; with that `HeapSessions` shows that what is asked determines every answer.

**The thread-pool manager** (`EduManager`, `EduSystem`, `EduDelivery`, `EduStarts`). `EduManager` has the manager as a class:
each method says when it returns which code, where the EDU is afterwards, and that all others stay. `EduSystem`
interleaves all threads and all `startEDU` calls, one step per latch section or unlatched read or write of a shared
flag, so that a decision and the action it leads to are separate steps: so are the end of a timed wait and the test of
the force flag behind it, the test of `isDestroyed` and that of the size, `waitEDU` and the call of the entry function.
A wait may time out with an event in the queue, since the source does not look at the queue again. Two groups are
merged: a move to the run queue (or a creation and its thread start) with the post of the RESUME, and the pop of an
event with the status `waitEvent` sets. What holds is proved of every reachable state. `EduDelivery` follows the
argument of every `startEDU` call to the thread that runs it, and says from which states it can still be run.
`EduStarts` says which tests a call passes, what a quiesced manager still starts, and that the methods of the class
are the steps of the system taken without interference.

**BSON** (`BsonTypes`, `BsonEncoding`, `BsonGrammar`, `BsonValid`, `BsonSound`, `BsonBuilder`, `BsonIterator`,
`BsonOrder`, `BsonCompare`, `BsonClasses`, `Bits`, `BsonOrdering`, `LexNum`, `DottedNames`, `DottedNested`,
`DottedPrefixes`, `DottedLeaves`, `DottedBytes`, `DottedSize`, `DottedSubs`). A document is a value; its bytes follow
the BSON specification 1.0, whose grammar `BsonGrammar` has as a relation of its own. The builders write into one
growable array and patch lengths in place; the iterator and the readers work on the bytes. The comparison is proved
equal to an independent definition, the lexicographic order of a token sequence, and `BsonClasses` says what it means
class by class. `DottedNested` says what the conversion between dotted and nested names gives, through the stack of
open builders; `DottedLeaves` and `DottedSubs` cover all documents, with object values or not; `DottedBytes` has that
stack as the source has it, as builders writing into one buffer, and proves the bytes it leaves; `DottedSize` computes
their number from the flat document.

**MD5** (`Md5`). Buffering, bit count and padding of RFC 1321; `md5_process` is a parameter.

**Base64** (`Base64`). RFC 4648, section 4, both directions.

## Where the code differs from its intent

The model follows the code in each of these.

- `_recoverSpace` does not store the boundary it computes, so an insert succeeds exactly when the contiguous
  gap is large enough and every insert that compacts returns `EDB_SYS`. `DmsPage.CompletedSpaceTest` proves that
  with the boundary stored the space test would succeed exactly when the accounted free space covers the record, and
  `HeapHistory.CompletedInsert` that the insert then is a put. `HeapHistory.InsertRemoveInsert` gives, of all the sizes
  a page can hold, exactly those for which insert, remove, insert fails.
- `_findPage` is asked for four bytes less than the later check wants (dms/dms.cpp:63, dms/dms.cpp:114).
- `DMS_MAX_RECORD` subtracts the 16-byte file header instead of the 28-byte page header. Documents of 4194268 to
  4194276 bytes pass the size check and fit no page, so the retry loop never ends while the file can grow
  (`DmsFile.OversizeNeverFits`); `Insert` asks that this is not the case, nothing else.
- `_searchSlot` accepts the slot behind the last one. `Find` and `Remove` are specified there too;
  `HeapHistory.RemoveBesideInsert` shows that on a new file, after one insert, a remove there succeeds and
  corrupts a page that holds no record.
- `_loadData` numbers the pages of every segment from zero: the loaded file is good exactly when it has one
  segment at most (`DmsFile.HeapFile.LoadData`).
- The published status table of include/pmdEDUMgr.hpp:180-185 lacks CREATING to WAITING and IDLE to WAITING.
  `EduDelivery.StatusEdges` states the edges that occur.
- Work handed to an agent can be lost, in three ways: the agent is forced and its timed wait ends with the RESUME in
  the queue; the force comes between such an end of the wait and the test of the flag; or the start takes an agent that
  is forced and whose wait has ended before. The thread then destroys the EDU with the work undone
  (`EduDelivery.WorkCanBeLost` has a run of each). `LostExactly` says that in these cases no continuation runs the work,
  and in all others one does; `UnforcedIsServed` that work is not lost at an EDU which is not forced while it owes it.
- `woCompare` compares a `long long` with a `long long` exactly and with any other number as doubles, so it is
  not transitive for values above 2^53 (`BsonCompare.LongsCanCycle`, `BsonCompare.BoundIsSharp`).
- Infinities are compared like NaNs: all are alike and come before every number (`BsonClasses.NumbersCompared`). Scopes
  of code are compared as C strings over their bytes, so mostly by their length alone
  (`BsonClasses.ScopedCodesCompared`).
- `valid` accepts a binary value with a negative length, whose bytes are then no document
  (`BsonSound.ValidButUnreadable`).
- `dotted2nested` drops an empty object under the empty name, since it opens no builder for it
  (`DottedLeaves.EmptyNameDropped`); `DottedLeaves.Undotted` says that among names without dots nothing else is dropped.
- The branch of `prepareContext` for a name that is exactly an open path would throw `out_of_range`; it is never
  taken (`DottedNested.NestedNeverThrows`).
- `dotted2nested` throws exactly when the nested form is above the maximum object size
  (`DottedBytes.Dotted2Nested`). An admissible document can have such a form, since a level takes eight bytes and a
  dot only one (`DottedBytes.NestingCanBeRefused`); for a document that can be inverted `DottedSize.NestedSize` gives
  the size from its names and values.

## Model

| member | source | states |
|---|---|---|
| DmsPage.MovedShows | dms/dms.cpp:463-473 | Moving one live record to the packed end, even over its own old bytes, leaves header and body of every record readable through its slot. |
| DmsPage.TargetClear | dms/dms.cpp:452-480 | The place a record is moved to overlaps no record that is still to be moved, because offsets decrease with the slot index. |
| DmsPage.CompactedPlaced | dms/dms.cpp:452-480 | Compaction keeps all layout rules: records disjoint, in range, in descending order and packed up to the first empty slot. |
| DmsPage.RecoverSpace | dms/dms.cpp:452-480 | In-place compaction keeps the document of every live slot and packs the records against the page end; the stored free offset and every byte outside the page stay. |
| DmsPage.StoredBoundaryClosesGap | dms/dms.cpp:452-480 | Were the final boundary stored, the page would be a good page whose contiguous gap is all of its accounted free space. |
| DmsPage.CompletedSpaceTest | dms/dms.cpp:103-119 | The space test of insert behind a compaction that stores its boundary succeeds exactly when the page's accounted free space covers the need, and keeps every document. |
| DmsPage.WrittenShows | dms/dms.cpp:120-134 | The writes of an insert show the old records and the new one through their slots. |
| DmsPage.AppendPlaced | dms/dms.cpp:120-136 | A record put right below the free offset keeps the layout rules and lowers the accounted free space by its size and one slot. |
| DmsPage.DropPlaced | dms/dms.cpp:178-183 | Emptying a slot keeps the layout rules for the records that stay. |
| DmsPage.UsedFits | dms/dms.cpp:103-138 | Page accounting: slots and live records never overlap, so the accounted free space is at least the contiguous gap. |
| DmsPage.StoreRecord | dms/dms.cpp:120-136 | The writes of an insert leave a page that holds the old layout with the record appended, its free-space field not yet updated, and touch nothing else. |
| FreeMap.IndexUpdate | dms/dms.cpp:231-246 | Erasing a page's old entry and inserting its new one turns the index of the old page states into the index of the new ones. |
| FreeMap.InsertedBehind | dms/dms.cpp:231-246 | A new entry of the multimap stands behind every key up to its own and before every greater one. |
| FreeMap.IndexOnce | dms/dms.cpp:231-246 | The index holds exactly one entry per page, with that page's free space. |
| FreeMap.FindAgrees | dms/dms.cpp:343-350 | The index knows of a page with more than the wanted bytes exactly when the file has one. |
| DmsFile.HeapFile.UpdateFreeSpace | dms/dms.cpp:231-246 | Replaces the page's entry in the index and its stored free space, modulo 2^32, and writes nothing else. |
| DmsFile.HeapFile.ExtendSegment | dms/dms.cpp:281-324 | Adds a fresh zeroed segment of 32 empty pages, each with its header, with new page ids to file and index, or fails and changes nothing. |
| DmsFile.HeapFile.FindPage | dms/dms.cpp:343-350 | Returns the page of the first entry above the wanted size, which has the least sufficient free space, and fails exactly when no page has enough. |
| FreeOrder.ChosenFirst | dms/dms.cpp:343-350 | The page found is the fullest with room, and of several as full the one whose entry is oldest. |
| FreeOrder.AgedReentered | dms/dms.cpp:231-246 | Renewing a page's entry makes it the youngest of its key and leaves the order of all others. |
| FreeOrder.AgedSegment | dms/dms.cpp:309-318 | The pages of a new segment are younger than all others, the first of them the oldest. |
| DmsFile.HeapFile.CompactPage | dms/dms.cpp:452-480 | Compacting one page of the file keeps every document of the file, all other pages, the index and the page's free offset. |
| DmsFile.HeapFile.PutIfRoom | dms/dms.cpp:111-138 | Behind the compaction the record is stored exactly when the contiguous gap covers it and 12 bytes, and otherwise nothing changes. |
| DmsFile.HeapFile.InsertInto | dms/dms.cpp:88-138 | An insert into a chosen page succeeds exactly when the contiguous gap before it covers the record and 12 bytes, compaction or not; a failed one loses no document. |
| DmsFile.HeapFile.CompletedInsertInto | dms/dms.cpp:88-138 | The same insert with the boundary stored: it succeeds exactly when the accounted free space covers record and 12 bytes, keeps every document, and leaves page bytes, layout and index in agreement either way. |
| DmsFile.HeapFile.Insert | dms/dms.cpp:33-147 | The whole of insert: when each error is returned, which page is chosen, the first new one where none had room, when a segment is added, and the file and its index after success and after every failure. |
| DmsFile.OversizeNeverFits | dms/dms.cpp:60-84 | A document of at least a page less 36 bytes finds no page in any good file, so extending never helps it. |
| DmsFile.HeapFile.SearchSlot | dms/dms.cpp:373-398 | Refuses slots beyond the one behind the last, and returns the slot word otherwise. |
| DmsFile.HeapFile.Find | dms/dms.cpp:190-229 | Returns the stored document of a live id and refuses every other; at the slot behind the last the answer is that of the word and the record bytes there. |
| DmsFile.CellAnswer | dms/dms.cpp:203-223 | In a good file a record's slot word leads to its document and an emptied slot to nothing. |
| DmsFile.HeapFile.Remove | dms/dms.cpp:149-189 | Removes exactly a live record and keeps the file good; refuses dead ids without any change; at the slot behind the last the stray word decides the result, the page's bytes and the index entry, and no other page changes. |
| DmsFile.ErasedGood | dms/dms.cpp:174-183 | On a live slot the writes of remove lead from a good file to the good file without that record. |
| DmsFile.PutGood | dms/dms.cpp:120-138 | The counted record makes a good file again: page bytes, layout and index agree. |
| DmsFile.HeapFile.LoadData | dms/dms.cpp:400-450 | Reloading maps the same pages, and the file is good exactly when it has at most 32 pages; otherwise the page ids in the index are wrong. |
| DmsFile.AppendStore | dms/dms.cpp:120-136 | An appended record adds exactly one id, never issued before, with the document's bytes to the map the file stands for. |
| DmsFile.DropStore | dms/dms.cpp:178-183 | Emptying a live slot takes exactly that id out of the map, and the id stays issued. |
| HeapHistory.Execute | dms/dms.cpp:33-230 | Every operation gets the answer the file's pages decide, a put by the gap of the page that comes first by free space and age, a drop or get by the record being live, leaves behind the pages and ages it must, and is a step of the abstract map, unless it names the slot behind the last or would retry forever. |
| HeapHistory.ExecuteAll | dms/dms.cpp:33-230 | Every sequence of operations on a file is a session: each operation answered by what the file holds at that point and leaving behind what it must, and the answers a run of the abstract map. |
| HeapHistory.FindAnswers | dms/dms.cpp:190-229 | Asked for an id an insert returned, find gives exactly the inserted bytes as long as no caller has asked to remove it, and nothing ever after. |
| HeapHistory.RemoveAnswers | dms/dms.cpp:149-189 | The first remove asked of an inserted id succeeds and every later one is refused. |
| HeapHistory.DroppedStaysGone | dms/dms.cpp:149-229 | Once a remove of an id has succeeded, every later find of it gives nothing and every later remove is refused, also for ids from before the session. |
| HeapHistory.InsertsAreFresh | dms/dms.cpp:126-130 | No two inserts of a session return the same record id, whatever is removed in between. |
| HeapHistory.OnlyInserted | dms/dms.cpp:149-229 | In a session from an empty file nothing is found or removed but what one earlier insert returned, with its bytes, and no remove has been asked for since. |
| HeapSessions.SessionsAgree | dms/dms.cpp:33-230 | Two sessions that start alike and ask the same get the same answers throughout: record ids, failures and documents. |
| HeapSessions.OneAnswer | dms/dms.cpp:33-230 | What the file holds leaves one answer for each operation; where records lie in a page makes no difference but for the free offset. |
| HeapSessions.FirstPut | dms/dms.cpp:309-350 | The first document stored in a new file is record 0 of page 0. |
| HeapHistory.InsertRemoveInsert | dms/dms.cpp:103-119 | On an empty file, inserting after a remove of the same document succeeds exactly when two such records fit a page without compaction, or one fills a page so that another page is chosen; for every size a page can hold. |
| HeapHistory.CompletedInsert | dms/dms.cpp:88-138 | An insert whose compaction stores its boundary puts the record exactly when the page's accounted free space covers it and 12 bytes, and changes the map in no other way. |
| HeapHistory.StrayOnFreshPage | dms/dms.cpp:388-396 | On a page `_extendSegment` has made, find at the slot behind the last throws and a remove there succeeds and leaves a page no layout describes. |
| HeapHistory.RemoveBesideInsert | dms/dms.cpp:149-189 | On a new file, after its first insert, a remove of the first slot of an unused page succeeds and the file is not good any more. |
| EduManager.PmdEduMgr.ReturnEdu | pmd/pmdEDUMgr.cpp:227-295 | Pools a returned agent that is not forced while the manager is up and the pool has room, and destroys any other; reports destruction exactly when the EDU was there and is gone; the pool stays within its size. |
| EduManager.PmdEduMgr.StartEdu | pmd/pmdEDUMgr.cpp:297-448 | The exact return code; on success the first idle agent is reused, or an EDU with the next id created when there is none, with the ticket as its event and every other EDU kept; a failure changes no queue, and uses up an id exactly when the thread did not start. |
| EduManager.PmdEduMgr.CreateNewEdu | pmd/pmdEDUMgr.cpp:365-448 | The exact return code; on success the EDU with the next id is on the run queue, CREATING, with the ticket as its event; otherwise no queue changes, and the id is used up exactly when the thread did not start. |
| EduManager.PmdEduMgr.DestroyEdu | pmd/pmdEDUMgr.cpp:454-522 | Succeeds exactly for WAITING or CREATING EDUs on the run queue and IDLE ones in the pool; the EDU is then in neither queue and every other EDU is kept. |
| EduManager.PmdEduMgr.DeactivateEdu | pmd/pmdEDUMgr.cpp:568-616 | Refuses exactly unknown and running EDUs, without change; otherwise the EDU is pooled as IDLE, unless it was IDLE on the run queue, and every other EDU is kept. |
| EduManager.PmdEduMgr.ActivateEdu | pmd/pmdEDUMgr.cpp:618-671 | Each code exactly; on success the EDU is RUNNING and otherwise as it was, a pooled one back on the run queue, and every other EDU is kept. |
| EduManager.PmdEduMgr.WaitEdu | pmd/pmdEDUMgr.cpp:524-566 | Succeeds exactly for a WAITING or RUNNING EDU of the run queue, which is then WAITING there; nothing else changes. |
| EduManager.PmdEduMgr.ForceEdus | pmd/pmdEDUMgr.cpp:102-129 | Behind the two loops every EDU is forced, and no queue, status or event has changed. |
| EduSystem.StepKeepsInv | pmd/pmdEDUMgr.cpp:227-671 | Every step of every thread keeps the queue invariant and the pool bound. |
| EduSystem.ReachableInv | pmd/pmdEDUMgr.cpp:227-671 | In every reachable state the queues are disjoint with ids below the next one, idle EDUs are IDLE agents with nothing pending, run EDUs are CREATING, RUNNING or WAITING as their thread's place demands, and idle EDUs never exceed the pool size. |
| EduSystem.DeactivateKeepsInv | pmd/pmdEDUMgr.cpp:568-616 | Pooling after a size test under another latch section keeps the bound, since the threads that passed the test are counted with the idle ones. |
| EduSystem.DestroyKeepsInv | pmd/pmdEDUMgr.cpp:454-522 | A thread that goes to destroy its EDU finds it, WAITING or IDLE, and the destruction succeeds and keeps the invariant. |
| EduSystem.CreateKeepsInv | pmd/pmdEDUMgr.cpp:365-448 | A created EDU gets an id no queue or thread has, so the duplicate-id exit is never taken. |
| EduSystem.TakeKeepsInv | pmd/pmdEDUMgr.cpp:320-356 | Taking an idle EDU and posting its RESUME keeps the invariant, also when its thread has already timed out. |
| EduStarts.CallEdges | pmd/pmdEDUMgr.cpp:297-448 | In one step of a run a call moves on only past a test that lets it through, to a named first idle or newly created EDU, and is refused only for the cause of its code. |
| EduStarts.QuiescedRefuses | pmd/pmdEDUMgr.cpp:304-308 | What is asked of a manager that stays quiesced is never admitted, started or run: it is pending or refused as quiesced. |
| EduStarts.QuiescedStarts | pmd/pmdEDUMgr.cpp:371-375 | While the manager is quiesced only calls get an EDU that had passed their first test, or their second one, before. |
| EduStarts.QuiescedCreates | pmd/pmdEDUMgr.cpp:371-424 | An EDU that is new while the manager is quiesced was created by a call already past its second test. |
| EduStarts.StartAlone | pmd/pmdEDUMgr.cpp:297-448 | The class's startEDU leaves the queues and the answer that the interleaved call leaves when it runs alone. |
| EduStarts.ReturnAlone | pmd/pmdEDUMgr.cpp:227-295 | The class's returnEDU leaves the queues that the thread's steps leave when they run alone, and ends the thread exactly when they do. |
| EduDelivery.ReachableTickets | pmd/pmdEDU.cpp:140-204 | In every reachable state each started argument is owed by exactly its EDU, has been run there or is recorded as lost; none is both run and lost, and an owed one is lost exactly when its EDU is forced and its thread past a timed-out wait. |
| EduDelivery.DeliveredUnlessLost | pmd/pmdEDUMgr.cpp:297-362 | Some continuation runs a started argument exactly when it is not lost, and that is when it has been run at its EDU or is owed by it with a thread that is not bound to end, never both; no continuation runs it at another EDU. |
| EduDelivery.OwedCanRun | pmd/pmdEDU.cpp:149-178 | A thread that is not bound to end, left alone, gets by its own steps to the entry function with what its EDU owes. |
| EduDelivery.RunsOnce | pmd/pmdEDU.cpp:156-166 | No argument reaches its entry function twice in a run. |
| EduDelivery.LostExactly | pmd/pmdEDU.cpp:149-204 | No continuation runs a started argument exactly when an earlier step lost it: a wait of its forced EDU timed out with it in the queue, a force came between such a timeout and the test of the flag, or its start took an EDU that was past that point. |
| EduDelivery.UnforcedIsServed | pmd/pmdEDU.cpp:149-204 | An argument at an EDU that is not forced in any state in which it owes it has been run or is still owed by a thread not bound to end, and a continuation runs it. |
| EduDelivery.NothingPendingIsDropped | pmd/pmdEDUMgr.cpp:454-616 | No EDU is pooled with an event pending, and none destroyed but with the event of one lost ticket. |
| EduDelivery.WorkCanBeLost | include/ossQueue.hpp:65-77 | All three ways to lose work are reachable: three concrete runs end with a successful start whose argument has not been run, is run by no continuation, and whose EDU is gone. |
| EduDelivery.StatusEdges | include/pmdEDUMgr.hpp:180-185 | Over every run the status of an EDU changes only along five edges and ends only from WAITING or IDLE. |
| BsonEncoding.ElementSizeRight | bson/src/bson-inl.h:506-570 | The size computed from an element's bytes is the number of bytes its append wrote, whatever follows. |
| BsonEncoding.ReadValueRight | bson/src/bsonelement.h:155-290 | The value accessors give back the value that was encoded, for every element type. |
| BsonEncoding.ReadDocRight | bson/src/bsonobjiterator.h:36-71 | The round trip: iterating recursively over a document's bytes gives the document, for every document tree. |
| BsonGrammar.DocumentBytes | bson/src/bsonobjbuilder.h:97-540 | The bytes of a document are those, and the only ones, that the grammar of the BSON specification allows: type bytes, names, lengths, numbers low byte first, at every depth. |
| BsonGrammar.Unambiguous | bson/src/bsontypes.h:44-92 | By the grammar bytes belong to one document, and a document has one form. |
| BsonGrammar.FirstBytes | bson/src/bsonobjbuilder.h:136-210 | Bytes 0 to 3 are the length, low byte first; the first field's type byte, name and NUL follow, and a NUL ends the document. |
| BsonValid.CheckedSizeRight | bson/src/bson-inl.h:416-504 | The bounds-checked size agrees with the bytes appended. |
| BsonValid.ValidDocRight | bson/src/bsonobj.cpp:669-695 | `valid` accepts the bytes of a document exactly when the whole is within the maximum object size. |
| BsonSound.ValidIsTiled | bson/src/bsonobj.cpp:669-695 | Whatever `valid` accepts is its length, elements with nothing between, and a NUL; each element has a name, a value of the size its type demands, strings with a NUL where their length says, and valid subobjects. |
| BsonSound.ValidButUnreadable | bson/src/bson-inl.h:465-470 | Twelve bytes that are valid and are no document, for the negative length of a binary value. |
| BsonBuilder.BufBuilder.Grow | bson/src/util/builder.h:187-209 | Growing keeps everything written, across reallocation, to the capacity the growth policy asks for; it throws exactly when that exceeds 64 MB, which takes more than 32 MB of content. |
| BsonBuilder.BufBuilder.AppendBuf | bson/src/util/builder.h:166-181 | Appending adds exactly the given bytes behind the old ones. |
| BsonBuilder.ObjBuilder.Done | bson/src/bsonobjbuilder.h:685-698 | The final NUL is appended and the length of the bytes spanned is stored in the room left for it, once; everything before and between is kept. |
| BsonBuilder.AppendNested | bson/src/bsonobjbuilder.h:97-204 | A builder nested in another's buffer appends exactly the encoding of its document. |
| BsonBuilder.AppendField | bson/src/bsonobjbuilder.h:136-540 | Every append writes exactly the encoding of its field, at any nesting depth. |
| BsonBuilder.Built | bson/src/bsonobjbuilder.h:575-600 | A whole build yields the bytes the grammar has for the document, and fails exactly when that is larger than the maximum object size. |
| BsonIterator.ObjIterator.Next | bson/src/bsonobjiterator.h:50-63 | Hands out the bytes of the element at the cursor and moves the cursor behind it. |
| BsonIterator.Iterate | bson/src/bsonobjiterator.h:36-71 | The loop over an iterator reads what the recursive definition of reading gives, for arbitrary bytes. |
| BsonIterator.IsValid | bson/src/bsonobj.cpp:669-695 | The validation loop decides the predicate of `ValidDocRight`, for arbitrary bytes. |
| BsonIterator.BuildAndRead | bson/src/bsonobjiterator.h:36-71 | Building a document and iterating over the bytes gives the same document back, and `valid` holds of them, whenever the build succeeds. |
| BsonOrder.LexConcat | bson/src/bsonobj.cpp:465-564 | What follows two encodings counts only when they are equal, provided neither is a prefix of the other. |
| BsonCompare.ValuesByTokens | bson/src/bsonobj.cpp:465-564 | Comparing two values of one class is comparing their tokens, of which neither is a prefix of the other. |
| BsonCompare.ElementsByTokens | bson/src/bson-inl.h:39-53 | Comparing elements by class, name and value is comparing their tokens. |
| BsonCompare.DocsByTokens | bson/src/bsonobj.cpp:731-772 | Comparing arbitrarily nested documents is lexicographic comparison of one flat token sequence. |
| BsonCompare.EqualByTokens | bson/src/bsonobj.cpp:731-772 | Documents compare equal exactly when their tokens are the same. |
| BsonCompare.CompareReflexive | bson/src/bsonobj.cpp:731-772 | The comparison is reflexive, for every choice of descending positions. |
| BsonCompare.CompareAntisymmetric | bson/src/bsonobj.cpp:731-772 | Swapping the documents flips the sign, for every choice of descending positions. |
| BsonCompare.CompareTransitive | bson/src/bsonobj.cpp:731-772 | The comparison is transitive, strictly so where a part is strict, for every choice of descending positions. |
| BsonCompare.LongsCanCycle | bson/src/bsonobj.cpp:486-521 | Three one-field documents with longs above 2^53 between which the comparison is not transitive. |
| BsonCompare.BoundIsSharp | bson/src/bsonobj.cpp:486-521 | The comparison is transitive on all documents with longs up to a bound exactly when the bound is at most 2^53. |
| BsonClasses.ClassesInOrder | bson/src/bsonelement.h:464-507 | Values of different classes are ordered as MinKey, undefined, null, numbers, strings and symbols, objects, arrays, binary, ids, bools, dates and timestamps, regular expressions, references, code, code with scope, MaxKey, whatever the names. |
| BsonClasses.NumbersCompared | bson/src/bsonobj.cpp:485-516 | Numbers of all types by value, two longs exactly; infinities and NaNs before them and alike. |
| BsonClasses.TextsCompared | bson/src/bsonobj.cpp:519-523 | Strings and symbols, one with the other too, and code by their bytes up to the first NUL. |
| BsonClasses.BoolsCompared | bson/src/bsonobj.cpp:478-479 | False before true. |
| BsonClasses.DatesCompared | bson/src/bsonobj.cpp:480-484 | Dates and timestamps, one with the other too, as unsigned numbers. |
| BsonClasses.IdsCompared | bson/src/bsonobj.cpp:517-518 | Object ids by their bytes. |
| BsonClasses.BinariesCompared | bson/src/bsonobj.cpp:533-538 | Binary values by length, then subtype, then bytes. |
| BsonClasses.RefsCompared | bson/src/bsonobj.cpp:527-532 | References by the length of the namespace, then by namespace and id. |
| BsonClasses.RegExesCompared | bson/src/bsonobj.cpp:539-544 | Regular expressions by pattern, then options. |
| BsonClasses.ScopedCodesCompared | bson/src/bsonobj.cpp:545-556 | Code with scope by the code, then by the scope's bytes up to their first NUL. |
| BsonClasses.NestedCompared | bson/src/bsonobj.cpp:524-526 | Objects and arrays as documents, without descending positions. |
| BsonClasses.ConstantsCompared | bson/src/bsonobj.cpp:469-477 | Values of MinKey, undefined, null and MaxKey are equal to others of their class. |
| BsonClasses.NamesBeforeValues | bson/src/bson-inl.h:39-53 | Fields of one class under different names are ordered by the names' bytes. |
| BsonClasses.RestAfterFirst | bson/src/bsonobj.cpp:731-772 | What follows counts only behind equal fields, and a document that ends comes first. |
| BsonOrdering.Make | bson/src/ordering.h:50-64 | Refuses exactly the keys of more than 32 fields, and otherwise sets a bit exactly for each descending position. |
| BsonOrdering.WoCompare | bson/src/bsonobj.cpp:731-772 | The loop with three cursors computes the comparison under the key pattern's descending positions. |
| BsonOrdering.WoCompareOrdered | bson/src/bsonobj.cpp:697-728 | The loop with the shifting mask computes the comparison under the ordering's bits, also when the mask has been shifted out. |
| BsonOrdering.OrderingAgrees | bson/src/bsonobj.cpp:697-772 | Comparing under the ordering made from a key is comparing under the key, for all documents. |
| BsonOrdering.DescendingBelowZero | bson/src/ordering.h:50-64 | A key value makes its position descending exactly when it is a number below zero; minus zero and NaN are not, minus infinity is. |
| BsonOrdering.KeyOfOneField | bson/src/bsonobj.cpp:731-772 | A key of 1 leaves the comparison of a field as it is, and -1 negates it. |
| BsonOrdering.KeyByKey | bson/src/bsonobj.cpp:731-772 | Each position goes by its own key value, and the rest by the rest of the key. |
| Bits.MaskZero | bson/src/bsonobj.cpp:705-726 | The mask is zero exactly when its bit has been shifted out of 32 bits. |
| LexNum.LexNumCmp | bson/src/bsonobj.cpp:80-150 | The cursor loop ends and returns the sign of lexicographic token comparison, digit runs counting by value above characters and byte 255 above both. |
| LexNum.RunsByValue | bson/src/bsonobj.cpp:100-131 | Comparing stripped digit strings by length, then bytes, is comparing their numeric values. |
| LexNum.LexNumPreorder | bson/src/bsonobj.cpp:80-150 | The name order is a total preorder in which names are equal exactly when their tokens are. |
| LexNum.HeadsInOrder | bson/src/bsonobj.cpp:80-150 | At the first difference the end of a name comes first, then bytes 128 to 254, ASCII without digits, digits, byte 255, the first two by their codes. |
| LexNum.CharsTotal | bson/src/bsonobj.cpp:80-150 | Of two different characters that are not both digits exactly one comes first. |
| LexNum.HeadsShared | bson/src/bsonobj.cpp:80-150 | A character both names start with leaves the comparison to what follows. |
| LexNum.RunsInOrder | bson/src/bsonobj.cpp:100-131 | Digit runs are compared by value, leading zeros or not, and leave equal values to what follows. |
| DottedNames.CompareDottedFieldNames | bson/src/bsonobj.cpp:594-634 | The loop compares the component lists, and gives up exactly when the first 2^20 components of both agree. |
| DottedNames.MirrorSymmetric | bson/src/bsonobj.cpp:594-634 | Swapping the names negates the result. |
| DottedNames.SubfieldIsExtension | bson/src/bsonobj.cpp:594-634 | A subfield is reported exactly when one component list properly extends the other up to `lexNumCmp` equality, and SAME exactly when they agree throughout. |
| DottedNames.BeforeAtFirstDifference | bson/src/bsonobj.cpp:594-634 | Otherwise the first differing component decides. |
| DottedNested.ItemsSorted | bson/src/bson-inl.h:309-317 | The map's items are ascending by name, and for unique names a permutation of the fields. |
| DottedNested.PopToKeeps | bson/src/util/embedded_builder.h:45-47 | Closing builders keeps every leaf appended so far under its full dotted name and in order. |
| DottedNested.NeverOutOfRange | bson/src/util/embedded_builder.h:38-44 | With names in ascending order no name is exactly an open path. |
| DottedNested.NestedNeverThrows | bson/src/util/embedded_builder.h:38-44 | For no document is `substr` asked for a position past the end. |
| DottedNested.RoundTrip | bson/src/bsonobj.cpp:1142-1166 | Flattening the nested form gives the document in name order exactly when it has no object values and no name with an empty component before the last; on document values, the bytes are in `DottedBytes.BothWays`. |
| DottedNested.RoundTripUnique | bson/src/bsonobj.cpp:1142-1166 | For unique names the same condition on the document itself decides, and the result is the document sorted; again on document values. |
| DottedLeaves.LeavesKept | bson/src/bsonobj.cpp:1142-1166 | For every document, object values or not, flattening the nested form gives the leaves of the document's own flat form in order, exactly when each field with leaves has a name without an empty component before the last. |
| DottedLeaves.Undotted | bson/src/util/embedded_builder.h:51-59 | A document without dots in its names comes out in name order and else unchanged, empty objects included, but for an empty object under the empty name. |
| DottedLeaves.KeptAll | bson/src/util/embedded_builder.h:51-59 | Nothing is dropped exactly when there is no such field. |
| DottedLeaves.EmptyNameDropped | bson/src/util/embedded_builder.h:68-75 | An empty object under the empty name becomes the empty document. |
| DottedBytes.OpenClosed | bson/src/util/embedded_builder.h:81-85 | Finishing the innermost open builder in the shared buffer leaves its whole field in its parent. |
| DottedBytes.EmbeddedBuilder.PopBuilder | bson/src/util/embedded_builder.h:81-85 | The buffer holds the open builders again, one fewer, unless they are above the maximum object size. |
| DottedBytes.EmbeddedBuilder.PrepareContext | bson/src/util/embedded_builder.h:32-50 | The loops close and open builders as the matching of the name against the open path says. |
| DottedBytes.EmbeddedBuilder.AppendAs | bson/src/util/embedded_builder.h:51-59 | Appends under the prepared builder; an empty object only opens its builder. |
| DottedBytes.Dotted2Nested | bson/src/bsonobj.cpp:1157-1166 | The bytes of the nested form, exactly when they are within the maximum object size, and an exception otherwise. |
| DottedBytes.Nested2Dotted | bson/src/bsonobj.cpp:1142-1155 | The bytes of the leaves under their dotted names and in order, exactly when they are within the maximum object size. |
| DottedBytes.BothWays | bson/src/bson-inl.h:275-287 | On bytes: there and back gives the bytes of the document in name order exactly when it is invertible, whenever the nested form is admissible; with object values it gives the bytes of the document's leaves; without dots the nested bytes are those of the document in name order. |
| DottedBytes.ChainSizes | bson/src/util/embedded_builder.h:76-80 | A name of n one-letter components takes 2n + 6 bytes as a flat document and 8n as a nested one. |
| DottedBytes.NestingCanBeRefused | bson/src/bsonobj.cpp:1157-1166 | An admissible document of 4,200,006 bytes whose nested form is above the maximum object size. |
| DottedSize.NestedSize | bson/src/util/embedded_builder.h:32-84 | The nested form of an invertible document takes five bytes, the value, last component and two bytes of each item, and the last component and seven bytes of each distinct dotted prefix. |
| DottedPrefixes.EachPrefixOnce | bson/src/util/embedded_builder.h:32-50 | For an invertible document every dotted prefix of a name leads to a subobject of the nested form, and no level of it has two subobjects of one name. |
| DottedSubs.PrefixesAreSubs | bson/src/util/embedded_builder.h:32-59 | For every document each dotted prefix without empty components leads to a subobject, and so does the whole name of an empty object. |
| Md5.BlocksOfTail | bson/lib/md5.cpp:322-358 | Further bytes act on registers and pending bytes alone: the state after two parts is that of the whole. |
| Md5.CountRight | bson/lib/md5.cpp:333-337 | The two count words with their carry hold eight times the bytes appended, modulo 2^64. |
| Md5.State.Append | bson/lib/md5.cpp:322-358 | After any append registers, count and pending bytes are those the whole message so far determines. |
| Md5.ChunksIndependent | bson/lib/md5.cpp:322-358 | Appending a message in any chunks leaves the registers, count words and pending bytes that one append of the whole leaves. |
| Md5.State.Finish | bson/lib/md5.cpp:360-381 | The digest is that of exactly the padded message of RFC 1321, sections 3.1 and 3.2. |
| Md5.PaddedWhole | bson/lib/md5.cpp:375-378 | The padded message is a whole number of blocks, with nine to 72 bytes added. |
| Md5.PaddedBytes | bson/lib/md5.cpp:360-381 | The padded message is the message, 0x80, zeros, and in the last eight bytes the bit count modulo 2^64, low byte first. |
| Md5.InitialRegisters | bson/lib/md5.cpp:312-320 | The registers start as the byte lists of RFC 1321, section 3.3. |
| Md5.DigestLowFirst | bson/lib/md5.cpp:378-381 | The digest is the four registers in order, each low byte first. |
| Md5.DigestOf | bson/lib/md5.cpp:311-381 | The digest of a chunked message is that of its concatenation, padded. |
| Base64.RoundTrip | bson/lib/base64.cpp:28-103 | Decoding an encoding gives the bytes back, for every byte string. |
| Base64.ReverseRoundTrip | bson/lib/base64.cpp:28-103 | Encoding a decoding gives the text back exactly when the text is canonical: letters, padding only at the end, unused bits zero. |
| Base64.EncodedLength | bson/lib/base64.cpp:28-67 | The text has four characters for each begun group of three bytes. |
| Base64.LetterInTable | bson/lib/base64.h:30-43 | The 64 letters are A to Z, a to z, 0 to 9, + and /, in this order. |
| Base64.EncodedChars | bson/lib/base64.cpp:28-67 | Each character is the letter of its six bits, the most significant first, and the last group has one = for each byte it lacks. |
| Base64.Alphabet.constructor | bson/lib/base64.h:30-43 | The table maps every letter to its digit and every other character to zero. |
| Base64.Encode | bson/lib/base64.cpp:28-67 | The loop with its shifts writes the RFC 4648 encoding. |
| Base64.Decode | bson/lib/base64.cpp:79-103 | The loop with its shifts and masks writes the bytes of the 24-bit groups. |

## Left out

- Files, memory mapping, latches inside one section, sockets, signals, logging: mapping a segment is a fresh zeroed array; a failed file extension is a parameter.
- The `_id` lookup of `insert` is a parameter, and a document handed to `insert` is any byte string with its length in front.
- DmsFile.HeapFile.Insert: the wait for another thread's extension is not modelled, and page ids do not wrap at 2^32.
- DmsFile.HeapFile.ExtendSegment: every failure is one code, and the extension by another thread that insert waits for is not modelled.
- DmsFile.HeapFile.Find: at the slot behind the last, a word or record that leads outside the page is answered `Stray`, without what the source reads there.
- DmsFile.HeapFile.Remove: at the slot behind the last, a word that leads outside the page is answered `Wild`, without the writes there; the file is not claimed to be good afterwards, because it need not be.
- DmsFile.HeapFile.LoadData: the pages on disk are taken to be good, which the source does not check, and mapping a segment succeeds.
- HeapHistory.ExecuteAll: starts from a view, which `ViewOf` gives for every good file.
- HeapHistory.Execute: an insert that would retry forever and an operation on the slot behind the last are not run.
- The header page's page count and the file format above the page level.
- EDU control blocks are values in the queues, so the pointer a thread keeps to its block and the block's lifetime are not captured; threads find their block by id.
- EduManager.PmdEduMgr.StartEdu: the latch sections are one method there; their interleaving is in `EduSystem`.
- EduManager.PmdEduMgr.ReturnEdu: likewise.
- EduDelivery.DeliveredUnlessLost: that an argument which can still be run is run at last is not claimed, as that needs a fair scheduler and a wait that does not time out for ever.
- DottedSize.NestedSize: stated for documents that can be inverted; for all others the size is that of `NestedDoc`.
- `_destroyAll` and its wait for the queues to drain, system EDUs (none is registered), thread ids, events other than RESUME, and liveness.
- The comparison works on decoded documents; reading them from bytes is `BsonEncoding.ReadDocRight`.
- BsonOrdering.WoCompare: asks that one of the documents has no more fields than the key, since the source reads past the key otherwise.
- BsonSound.ValidIsTiled: the other direction is not claimed, since a regular expression without a NUL is accepted for its odd size; in `IsValid` a read outside the object, or an element size that does not move the cursor forward, counts as invalid.
- BsonBuilder.Built: a buffer's first allocation is taken to succeed, and asTempObj, the value stream and the tracker are not modelled.
- Md5.State.Append: asks that the pending bytes and the length together stay an `int`, as the source's own sum does.
- Base64.Decode: asks for a length that is a multiple of four, which the source asserts.
- `md5_process`, its 64 steps and constants.
- JSON, messages, the client, options, object ids, clocks and nonces: text formats, straight-line code, randomness and time.
