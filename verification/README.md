# Models and proofs for the Zephyr server libraries

This project models the parts of the code base where a mistake would be hardest to see, and
proves what callers rely on:

* **`CEasyStringT<char>`** (`EasyString.dfy`, `EasyStringLaws.dfy`, `Replacement.dfy`, `Splitting.dfy`,
  `CStrings.dfy`, `Memory.dfy`). A class over a `char` array with a NUL behind the text. `Replace` collects the match
  positions and rewrites the same buffer, from the right when the text grows and from the left when it shrinks; it is
  proved to leave exactly the recursive "replace every non-overlapping match, from the left", for any text, NULs
  inside it included. The plain definition in turn is splitting at the old string and joining with the new one.
* **`CThreadSafeList`** (`ThreadSafeList.dfy`, `Chains.dfy`, `BoundedDeque.dfy`, `KeptPositions.dfy`). A fixed pool of
  nodes in two doubly linked chains. Every state has the two chains disjoint, acyclic, linked both ways and covering
  the pool, and any sequence of calls answers as a bounded deque does; for the deque, conservation and queue order
  hold over every run. A position that a caller keeps goes on naming its object until the object is taken out.
* **The record-set format** (`RecordCodec.dfy`, `EasyBuffer.dfy`, `DBValue.dfy`, `BlobReading.dfy`, `CutShort.dfy`,
  `WireFormat.dfy`, `StaticRecordSet.dfy`, `Decoding.dfy`, `Paging.dfy`, `FakeRecordSet.dfy`, `PagedTransfer.dfy`,
  `PageReadability.dfy`, `Reception.dfy`). `CDBStaticRecordSet::Init` is proved to compute a function of any bytes it
  can decode without reading outside them; an encoder states the byte format, that function undoes it, and what the
  bytes mean is also said by their numbers, without either; `CDBFakeRecordSet::GetRecordSetDataEx` cuts it in greedy
  pages, each an encoding itself, which lose, duplicate, reorder and split nothing, so that decoding page after page
  is decoding the whole.
* **The task scheduler** (`SchedulerModel.dfy`, `SchedulerInvariant.dfy`, `SchedulerRuns.dfy`, `SchedulerPasses.dfy`,
  `SchedulerCalls.dfy`, `SchedulerProgress.dfy`, `TaskRegistry.dfy`, `RunningTwice.dfy`). A transition system: any
  number of workers in `Loop`, any number of threads in `AddTask` and `ReleaseTask`, and one in `StopWorking`,
  interleaved at every read and write of shared memory and every lock operation. One inductive invariant carries
  mutual exclusion, the life of a running task, the sleeper count, the absence of lock cycles, and the atomicity of
  `AddTask` and `ReleaseTask`. Over whole runs: a worker begins every task left to it and sleeps exactly when none
  returned anything but 0, each task sees Begin, Run and End in that order, and every pass, every call and
  `StopWorking` end within a bound on the thread's own steps.
* **Smaller pieces**: integer ranges and optional values (`Basics.dfy`), the in-place string splitter
  (`StringSplitter.dfy`), the IDL generator's word gluing (`WordLists.dfy`), and run-time class information
  (`ClassInfo.dfy`).

Code that changes memory step by step is a class or a method over an array, proved against a function of the old
contents; the laws are lemmas about those functions. Ghost parameters of a method (`cs`, `rs`, `k`, `words`, ...) name
what the memory already holds; no executable statement depends on them. The paths in the table are relative to the
repository.

## Where the code does not do what its callers may expect

* `Replace(old, new)` cannot always be undone: replacing `old` by one character and back gives the text back if and
  only if what is left after deleting every `old` does not contain that character (`Replacement.ReplaceUndo`); for any
  `old` that is not that character itself, the text of that one character is not given back
  (`Replacement.UndoCanFail`).
* `GetRecordSetDataEx` takes its answer from a read position that has already passed a record that did not fit. It
  answers "no more data" with a record unsent if and only if the room behind the header holds all the remaining
  records but the last, and not the last (`PagedTransfer.AnswerComesEarly`), so a caller has to go by `Pos`;
  `PagedTransfer.NoMoreDataCanComeEarly` is the case of two records. A caller who goes by the answer gets all the
  pages if and only if there is one page or the last one holds several records, and otherwise all but the last
  (`PagedTransfer.FetchUntilTold`).
* `CDBValue::SetValue` with a type of fixed size reads that many bytes whatever the field's length says, and leaves a
  value of an unknown type NULL. A decoded field is the encoded one if and only if its length suits its column's type
  (`Decoding.FieldRebuilt`). An encoding can be decoded without leaving it if and only if its table is readable
  (`Decoding.SafeExactlyWhenReadable`).
* A field shorter than its type reads into what follows, so a page can be unreadable where the whole record set is
  not: an INTEGER field without bytes in front of a whole one, each on a page of its own
  (`PageReadability.PageMayBeUnreadable`). All pages are readable, from any record on and for any buffer, if and only
  if every record is readable with nothing behind it (`PageReadability.PagesReadableExactly`); a field is, if and only
  if it is no shorter than its type or its type has no fixed size (`PageReadability.FieldAlone`).
* Init does not notice a header that is cut short. A column info that does not fit is left zero and not stepped over,
  so its bytes are taken for the record count. Init succeeds on such data if and only if a column info is cut and its
  first four bytes are there and make a positive int (`CutShort.SucceedsOnCutHeader`); eight bytes are enough
  (`CutShort.EightBytesAreATable`).
* `CThreadSafeList::Create` accepts a size of 0 and then keeps a free list that is not NULL over an empty pool. The
  list can be used if and only if the size is positive (`ThreadSafeLists.ThreadSafeList.Create`).
* `IsKindOf` and `IsKindOfFast` agree on all classes if and only if no two classes share a name
  (`ClassInfo.AgreeExactlyWhenDistinct`).
* Nothing stops a task from being added twice, and then two workers can run it at once. For any calls, in any number
  and order, they can if and only if the task is added while it is in the table and a slot is empty
  (`RunningTwice.RunTwiceExactlyWhenAddedAgain`); the shortest such calls are `AddTask` twice
  (`RunningTwice.AddedTwiceRunsTwice`).

## Model

| member | source | states |
|---|---|---|
| EasyStrings.EasyString.Replace | System/DBLib/EasyString.h:537-602 | the buffer holds exactly the left-to-right replacement of every non-overlapping match, whichever pass is taken, with its NUL, inside a buffer that is the old one or a new one |
| EasyStrings.EasyString.CollectMatches | System/DBLib/EasyString.h:546-553 | the positions are all leftmost non-overlapping matches, in order, and a sentinel still fits the array |
| EasyStrings.EasyString.AllocatePositions | System/DBLib/EasyString.h:545-545 | length / strlen(old) + 2 entries hold any list of non-overlapping matches and a sentinel |
| EasyStrings.EasyString.RewriteMatches | System/DBLib/EasyString.h:556-599 | from the complete match list either pass rebuilds the replaced text, and the new length is the one computed |
| EasyStrings.EasyString.GrowPass | System/DBLib/EasyString.h:560-578 | right to left, the writer stays (matches left) * (growth) >= 0 ahead of the reader, so no unread character is overwritten |
| EasyStrings.EasyString.ShrinkPass | System/DBLib/EasyString.h:579-597 | left to right, with the sentinel position, the writer never passes the reader |
| EasyStrings.EasyString.ReplaceChar | System/DBLib/EasyString.h:526-536 | exactly the characters equal to the old one change |
| Replacement.ReplaceIsSplitAndJoin | System/DBLib/EasyString.h:537-602 | replacing is splitting at the old string and joining with the new one |
| Replacement.ReplaceBySame | System/DBLib/EasyString.h:539-539 | skipping the work when old and new are equal changes nothing in the result |
| Replacement.ReplaceUndo | System/DBLib/EasyString.h:537-602 | replacing by one character can be undone if and only if that character is not in what remains without the matches |
| Replacement.UndoCanFail | System/DBLib/EasyString.h:537-602 | a text of one character, and any old string but that character: replacing by it and back does not give the text back |
| Replacement.Placed | System/DBLib/EasyString.h:560-597 | where match k and the piece behind it end up in the replaced text |
| Replacement.PlacedEnds | System/DBLib/EasyString.h:556-556 | the text before the first match stays, and the new length is the old one plus the change per match |
| Replacement.MatchesAreFew | System/DBLib/EasyString.h:545-553 | non-overlapping matches take no more characters than the text has |
| Replacement.OffsetSign | System/DBLib/EasyString.h:560-597 | the distance between writer and reader has the same sign in every round |
| EasyStrings.EasyString.Find | System/DBLib/EasyString.h:470-479 | the start is clamped to the end of the text and the answer is that of strstr from there, although the buffer goes on behind the text |
| EasyStrings.FindIsFirst | System/DBLib/EasyString.h:470-479 | the answer is the first match at or after the start, and -1 only if there is none |
| EasyStrings.FindFromAnywhere | System/DBLib/EasyString.h:470-479 | the same from any start, also behind a NUL inside the text: the first match in what C sees from there |
| CStrings.StrStr | System/DBLib/EasyString.h:470-479 | strstr: the first occurrence before the first NUL |
| CStrings.StrStrStopsAtNul | System/DBLib/EasyString.h:470-479 | what lies behind the NUL of the text has no influence on the search |
| EasyStrings.EasyString.FindChar | System/DBLib/EasyString.h:490-499 | the first occurrence of a character; asked for NUL, the end of the text that C sees |
| EasyStrings.EasyString.Delete | System/DBLib/EasyString.h:603-613 | the characters from the start on, as many as asked for or there are, are gone, in place; the rest stays as it was |
| EasyStrings.EasyString.Insert | System/DBLib/EasyString.h:638-653 | the characters are in front of the given position, and a position past the end is ignored |
| EasyStrings.EasyString.RemoveChar | System/DBLib/EasyString.h:614-621 | terminates, with the first occurrence deleted until there is none |
| EasyStrings.EasyString.Remove | System/DBLib/EasyString.h:622-633 | terminates for every string, with the first occurrence deleted until there is none |
| EasyStringLaws.RemoveLeavesNone | System/DBLib/EasyString.h:622-633 | there is a chain of texts from the old one to the new one in which every round takes out just the first match, and the last text has no match; what lies behind the first NUL stays |
| EasyStringLaws.RoundsAgree | System/DBLib/EasyString.h:622-633 | every such chain ends in the text that Remove leaves |
| EasyStringLaws.RemoveCharFilters | System/DBLib/EasyString.h:614-621 | Remove(ch) filters the text |
| EasyStringLaws.InsertThenDelete | System/DBLib/EasyString.h:603-653 | Delete undoes Insert |
| EasyStringLaws.DeleteThenInsert | System/DBLib/EasyString.h:603-653 | Insert of the deleted characters undoes Delete |
| EasyStrings.EasyString.constructor | System/DBLib/EasyString.h:132-138 | the empty text |
| EasyStrings.EasyString.FromChars | System/DBLib/EasyString.h:153-159 | the given characters in a buffer of its own; from NULL, only the length is set |
| EasyStrings.EasyString.Clear | System/DBLib/EasyString.h:199-202 | the empty text |
| EasyStrings.EasyString.Resize | System/DBLib/EasyString.h:203-221 | a new buffer with as much of the text as fits, or none |
| EasyStrings.EasyString.SetString | System/DBLib/EasyString.h:671-687 | the text is the given one; from NULL, only the length is set and the text is what the buffer held, if it was large enough |
| EasyStrings.EasyString.AppendString | System/DBLib/EasyString.h:746-758 | the text is the old one and the given one behind it; from NULL, only the length grows, over what the buffer held, if it was large enough |
| EasyStrings.EasyString.SubStr | System/DBLib/EasyString.h:442-453 | the slice, both ends clamped to the text |
| EasyStrings.EasyString.Left | System/DBLib/EasyString.h:454-459 | the first characters, at most all |
| EasyStrings.EasyString.Right | System/DBLib/EasyString.h:460-465 | the last characters, at most all |
| ThreadSafeLists.ThreadSafeList.ApplyAll | System/DBLib/ThreadSafeList.h:79-279 | any sequence of pushes and pops, deletions by place, Clear, GetHead, GetTail and the count answers, and leaves the contents, as a bounded deque of the pool's size does |
| KeptPositions.CallAll | System/DBLib/ThreadSafeList.h:79-303 | the same for any sequence of calls that also has the pushes returning a place, positions kept from GetFirstObjectPos, GetLastObjectPos, GetNext and GetPrev, and GetNext, GetPrev and DeleteObject at a position kept earlier: it goes on naming the object it was kept for, as long as that has not been taken out |
| KeptPositions.DoDelete | System/DBLib/ThreadSafeList.h:235-244 | DeleteObject at a kept position takes out the object it was kept for, and no other |
| KeptPositions.DoKeepNext | System/DBLib/ThreadSafeList.h:281-291 | GetNext at a kept position gives the object it was kept for, and the position of the one that is next now |
| KeptPositions.DoKeepPrev | System/DBLib/ThreadSafeList.h:293-303 | GetPrev, likewise |
| KeptPositions.DoKeepEnd | System/DBLib/ThreadSafeList.h:251-259 | GetFirstObjectPos and GetLastObjectPos give the positions of the first and last object |
| KeptPositions.StepKeepsPlaces | System/DBLib/ThreadSafeList.h:109-244 | under any call an object that stays keeps its position |
| ThreadSafeLists.ThreadSafeList.PushAndFill | System/DBLib/ThreadSafeList.h:109-183 | a push that returns the place, filled by the caller, does what the push of the object does |
| ThreadSafeLists.ThreadSafeList.Create | System/DBLib/ThreadSafeList.h:51-59 | a pool of that size, all of it free; the list is well linked exactly when the size is positive, since for 0 the free list is not NULL |
| ThreadSafeLists.ThreadSafeList.Clear | System/DBLib/ThreadSafeList.h:79-107 | all nodes in the free chain, in order, none in use; the free list is NULL exactly when there is no pool |
| ThreadSafeLists.ThreadSafeList.PushFrontNode | System/DBLib/ThreadSafeList.h:109-132 | the first free node comes to the front of the chain in use; refused exactly when all nodes are in use; no object changes |
| ThreadSafeLists.ThreadSafeList.PushBackNode | System/DBLib/ThreadSafeList.h:160-183 | the same at the back |
| ThreadSafeLists.ThreadSafeList.PushFront | System/DBLib/ThreadSafeList.h:134-158 | the object is first; refused exactly when the list is full |
| ThreadSafeLists.ThreadSafeList.PushBack | System/DBLib/ThreadSafeList.h:185-209 | the object is last; refused exactly when the list is full |
| ThreadSafeLists.ThreadSafeList.PopFront | System/DBLib/ThreadSafeList.h:211-221 | the first object is taken out; refused exactly when the list is empty |
| ThreadSafeLists.ThreadSafeList.PopBack | System/DBLib/ThreadSafeList.h:223-233 | the last object is taken out; refused exactly when the list is empty |
| ThreadSafeLists.ThreadSafeList.DeleteObject | System/DBLib/ThreadSafeList.h:235-244 | just that object goes, the others keep their order, its node is free; NULL is refused |
| ThreadSafeLists.ThreadSafeList.DeleteNode | System/DBLib/ThreadSafeList.h:306-332 | the node leaves the chain in use wherever it is and becomes the first free one; both chains stay well linked |
| ThreadSafeLists.ThreadSafeList.GetHead | System/DBLib/ThreadSafeList.h:260-269 | the first object, if any |
| ThreadSafeLists.ThreadSafeList.GetTail | System/DBLib/ThreadSafeList.h:270-279 | the last object, if any |
| ThreadSafeLists.ThreadSafeList.GetNext | System/DBLib/ThreadSafeList.h:281-291 | the object at a position, and the position of the next one |
| ThreadSafeLists.ThreadSafeList.GetPrev | System/DBLib/ThreadSafeList.h:293-303 | the object at a position, and the position of the one before |
| ThreadSafeLists.ThreadSafeList.WalkForward | System/DBLib/ThreadSafeList.h:281-291 | GetNext from the head shows every object once, in order |
| ThreadSafeLists.ThreadSafeList.WalkBackward | System/DBLib/ThreadSafeList.h:293-303 | GetPrev from the tail shows them in the opposite order |
| Chains.PartitionIsDisjoint | System/DBLib/ThreadSafeList.h:79-107 | when the two chains make up the pool, each node is in one of them, once |
| Chains.TakeUsed | System/DBLib/ThreadSafeList.h:306-332 | joining a node's neighbours keeps the rest of both chains linked and flagged |
| Chains.TakeFree | System/DBLib/ThreadSafeList.h:109-132 | taking the first free node out keeps the rest of both chains linked and flagged |
| Chains.PutFront | System/DBLib/ThreadSafeList.h:109-132 | a node in no chain becomes the first one in use |
| Chains.PutBack | System/DBLib/ThreadSafeList.h:160-183 | a node in no chain becomes the last one in use |
| Chains.PutFree | System/DBLib/ThreadSafeList.h:306-332 | a node in no chain becomes the first free one |
| BoundedDeque.Conservation | System/DBLib/ThreadSafeList.h:79-244 | over any run, what was there and what was taken in is what is there and what was given up, object by object, and the size never exceeds the pool |
| BoundedDeque.QueueOrder | System/DBLib/ThreadSafeList.h:185-221 | used with PushBack and PopFront, objects come out in the order they went in |
| BoundedDeque.PopUndoesPush | System/DBLib/ThreadSafeList.h:134-233 | a push and a pop at the same end undo each other |
| EasyBuffers.EasyBuffer.constructor | System/DBLib/EasyBuffer.cpp:6-12 | an empty buffer without storage |
| EasyBuffers.EasyBuffer.Sized | System/DBLib/EasyBuffer.cpp:14-21 | empty, with storage of its own of that size |
| EasyBuffers.EasyBuffer.Over | System/DBLib/EasyBuffer.cpp:23-30 | empty, over the caller's storage |
| EasyBuffers.EasyBuffer.Create | System/DBLib/EasyBuffer.cpp:47-55 | empty, with storage of its own |
| EasyBuffers.EasyBuffer.CreateOver | System/DBLib/EasyBuffer.cpp:57-65 | empty, over the caller's storage |
| EasyBuffers.EasyBuffer.Destory | System/DBLib/EasyBuffer.cpp:67-71 | only storage of its own is given up |
| EasyBuffers.EasyBuffer.SetUsedSize | System/DBLib/EasyBuffer.h:57-65 | accepted exactly when it fits the storage |
| EasyBuffers.EasyBuffer.PushFront | System/DBLib/EasyBuffer.h:80-91 | the bytes are in front of the contents, or nothing changes when they do not fit; from NULL, the contents move and the bytes in front stay as they were |
| EasyBuffers.EasyBuffer.PushBack | System/DBLib/EasyBuffer.h:96-106 | the bytes are behind the contents, or nothing changes when they do not fit; from NULL, the bytes that are there become contents; the storage behind them is untouched |
| EasyBuffers.EasyBuffer.PopFront | System/DBLib/EasyBuffer.h:112-123 | the first bytes are taken out, or nothing changes when there are fewer |
| EasyBuffers.EasyBuffer.Peek | System/DBLib/EasyBuffer.h:137-147 | the bytes at a position and the position behind them; at the end nothing moves |
| EasyBuffers.EasyBuffer.PickData | System/DBLib/EasyBuffer.h:149-165 | storage, sizes and ownership pass over and the other buffer is left empty |
| RecordCodec.IntRoundTrip | System/DBLib/DBStaticRecordSet.cpp:26-60 | a stored int is loaded as the same int |
| RecordCodec.IntBytes | System/DBLib/DBStaticRecordSet.cpp:26-60 | a loaded int is stored as the same bytes |
| WireFormat.NumberOfInt | System/DBLib/DBFakeRecordSet.cpp:66-96 | an int is stored as four bytes whose number, the least significant byte first, is the int, or the int and 2^32 |
| WireFormat.IntIsNumber | System/DBLib/DBStaticRecordSet.cpp:28-49 | four bytes are read as their number in two's complement |
| WireFormat.TypeIsNumber | System/DBLib/DBStaticRecordSet.cpp:34-63 | the type of a column is the number of the two bytes behind the name |
| WireFormat.CountsAreNumbers | System/DBLib/DBStaticRecordSet.cpp:28-41 | for any data: the column count is the number of the first four bytes, and the record count that of the four bytes behind the column infos |
| WireFormat.FewColumns | System/DBLib/DBStaticRecordSet.cpp:28-33 | data that start with n, 0, 0, 0 have n columns |
| WireFormat.FieldOfEachType | System/DBLib/DBValue.cpp:169-246 | for every type by its number, a field of the length that suits it is read as just its bytes, with two zero bytes behind those of a string, and the reader ends behind it |
| WireFormat.NullOfEachType | System/DBLib/DBStaticRecordSet.cpp:45-63 | a field with a negative length is NULL, of its column's type, and has no bytes |
| WireFormat.TwoByTwo | System/DBLib/DBStaticRecordSet.cpp:20-68 | a table of two columns and two rows, given byte by byte, is read row by row |
| WireFormat.CodeOfEncoding | System/DBLib/DBStaticRecordSet.cpp:31-41 | for every encoded table: success if and only if it has columns and records, and otherwise the columns and no rows |
| RecordCodec.RecordsConcat | System/DBLib/DBStaticRecordSet.cpp:42-64 | the bytes of two lists of records, one behind the other, are those of the joined list |
| DBValues.SetValueHolds | System/DBLib/DBValue.cpp:169-246 | the value holds exactly the given bytes if and only if its type takes that many, and stays NULL if and only if the type is unknown |
| StaticRecordSets.StaticRecordSet.Init | System/DBLib/DBStaticRecordSet.cpp:20-68 | for any bytes that can be decoded without reading outside them, headers cut short and bytes behind the records included: the columns, the rows, the return code and where the reader ends are functions of the bytes |
| CutShort.PastColumnsIs | System/DBLib/DBStaticRecordSet.cpp:34-37 | the reader steps over as many column infos as are announced and whole, and no further |
| CutShort.SucceedsOnCutHeader | System/DBLib/DBStaticRecordSet.cpp:20-43 | when the data end before the record count, Init succeeds if and only if a column info is cut and its first four bytes make a positive int |
| CutShort.ReportsOnCutHeader | System/DBLib/DBStaticRecordSet.cpp:20-68 | it then reports columns that are zero from the cut one on, and as many rows as that int says |
| CutShort.EightBytesAreATable | System/DBLib/DBStaticRecordSet.cpp:20-68 | two ints 1 are read as one zero column and one row with an empty value, and success |
| StaticRecordSets.StaticRecordSet.ReadField | System/DBLib/DBStaticRecordSet.cpp:48-62 | a negative length gives NULL and takes no bytes, any other length takes as many; a length that is cut short counts as 0 |
| StaticRecordSets.StaticRecordSet.ReadColumns | System/DBLib/DBStaticRecordSet.cpp:33-37 | as many columns as announced, zero where the bytes are cut short |
| StaticRecordSets.StaticRecordSet.ReadRecords | System/DBLib/DBStaticRecordSet.cpp:42-64 | as many rows as announced, each decoded where the one before ended, and where the reader ends |
| Decoding.EncodingDecodes | System/DBLib/DBStaticRecordSet.cpp:20-68 | round trip: decoding an encoding gives its columns and the values of its records and consumes every byte of it, whatever follows |
| Decoding.SafeExactlyWhenReadable | System/DBLib/DBStaticRecordSet.cpp:20-68 | an encoding is decoded without reading outside it if and only if its table is readable |
| Decoding.HeaderOfEncoding | System/DBLib/DBStaticRecordSet.cpp:28-39 | the header of an encoding is decoded to its counts and columns |
| Decoding.RowsOfEncoding | System/DBLib/DBStaticRecordSet.cpp:42-64 | the records of an encoding are decoded to their values, and the reader ends behind the last |
| Decoding.FieldsOfEncoding | System/DBLib/DBStaticRecordSet.cpp:45-63 | one record, likewise; it is read safely exactly when it is readable |
| Decoding.RecordValuesStay | System/DBLib/DBStaticRecordSet.cpp:45-63 | more bytes behind a record that can be read do not change its values |
| Decoding.FieldRebuilt | System/DBLib/DBValue.cpp:169-246 | a decoded field is the encoded one if and only if its length suits its column's type |
| Decoding.TableRebuilt | System/DBLib/DBStaticRecordSet.cpp:20-68 | the same for every field of a table |
| Decoding.NaturalIsReadable | System/DBLib/DBStaticRecordSet.cpp:20-68 | decoding a table of fitting lengths never reads outside the data |
| StaticRecordSets.StaticRecordSet.GetField | System/DBLib/DBStaticRecordSet.cpp:118-129 | the field of the current row, or the empty value outside rows or columns |
| StaticRecordSets.StaticRecordSet.Destory | System/DBLib/DBStaticRecordSet.cpp:71-76 | no columns, no rows, the cursor at 0 |
| Paging.FitIsGreedy | System/DBLib/DBFakeRecordSet.cpp:80-101 | the records of a page fit the room behind the header, and the next one, if any, would not |
| Paging.GreedyIsFit | System/DBLib/DBFakeRecordSet.cpp:80-101 | no other number of records is greedy |
| Paging.PagesPartition | System/DBLib/DBFakeRecordSet.cpp:41-107 | the pages together are all the records in order, none is empty, and there are at most as many as records |
| FakeRecordSets.FakeRecordSet.constructor | System/DBLib/DBFakeRecordSet.cpp:8-10 | a record set without data |
| FakeRecordSets.FakeRecordSet.Init | System/DBLib/DBFakeRecordSet.cpp:17-23 | success, and the record set holds a copy of the data, whatever it held before |
| FakeRecordSets.FakeRecordSet.GetRecordSetDataEx | System/DBLib/DBFakeRecordSet.cpp:41-107 | without columns, without records or with a header cut short: "no more data" and nothing written; from a record on, the output is the header with the new count and exactly the records that fit, the position is behind them on a record boundary, and the answer is "no more data" exactly when at most one record is left |
| FakeRecordSets.FakeRecordSet.CountRecords | System/DBLib/DBFakeRecordSet.cpp:79-98 | the count in the output is the number of records that fit, the rest of the output is untouched, and the reader is past a record that did not fit |
| PagedTransfer.FetchAll | System/DBLib/DBFakeRecordSet.cpp:41-107 | calling until the position reaches the end of the data ends after at most as many calls as records, each page being the encoding of its records |
| PagedTransfer.PageIsDecodable | System/DBLib/DBStaticRecordSet.cpp:20-68 | every page that is not empty is decoded safely if and only if its records are readable in it, and then to the same columns and their values, every byte consumed |
| PagedTransfer.SliceDecodesToSlice | System/DBLib/DBStaticRecordSet.cpp:20-68 | wherever a slice of the records can be read by itself, it decodes to exactly the slice of the values of the whole |
| PagedTransfer.PartsDecodeToWhole | System/DBLib/DBStaticRecordSet.cpp:20-68 | if two parts can be read, so can the whole, and it has their values |
| PagedTransfer.PagesDecodeToWhole | System/DBLib/DBFakeRecordSet.cpp:41-107 | if every page can be read, so can the whole record set, and decoding page after page gives its values |
| PageReadability.SlicesReadableExactly | System/DBLib/DBStaticRecordSet.cpp:45-63 | every slice of the records can be read by itself if and only if every record can be read with nothing behind it |
| PageReadability.PagesReadableExactly | System/DBLib/DBFakeRecordSet.cpp:41-107 | so can every page a call may give, from any record on and into a buffer of any size |
| PageReadability.AloneMakesPagesReadable | System/DBLib/DBFakeRecordSet.cpp:41-107 | then all the pages of a transfer can be read |
| PageReadability.FieldAlone | System/DBLib/DBValue.cpp:169-246 | a field can be read with nothing behind it if and only if it is NULL, no shorter than its type, or of a type without a fixed size |
| PageReadability.NaturalPagesAreReadable | System/DBLib/DBFakeRecordSet.cpp:41-107 | values of fitting lengths can be read in every page, whatever the size of the buffer |
| PageReadability.PageMayBeUnreadable | System/DBLib/DBFakeRecordSet.cpp:41-107 | a record set of two records that can be read, and a page of it that cannot |
| Reception.FetchRows | System/DBLib/DBFakeRecordSet.cpp:41-107 | GetRecordSetDataEx at one end and Init on its output at the other: if the page can be read, the same columns, and exactly the rows of the records between the old position and the new |
| Reception.DecodePage | System/DBLib/DBStaticRecordSet.cpp:20-68 | Init on a page that can be read gives exactly its slice of the rows of the whole record set |
| Reception.ReceiveAll | System/DBLib/DBFakeRecordSet.cpp:41-107 | if every page can be read, a receiver that decodes page after page until the position reaches the end of the data has the rows of the whole record set |
| PagedTransfer.OneIsLeft | System/DBLib/DBFakeRecordSet.cpp:80-101 | in sizes: a page leaves exactly one record if and only if all the records but the last fit and all of them do not |
| PagedTransfer.AnswerComesEarly | System/DBLib/DBFakeRecordSet.cpp:80-106 | the call answers "no more data" and leaves the position before the end of the data if and only if the room holds all the remaining records but the last |
| PagedTransfer.NoMoreDataCanComeEarly | System/DBLib/DBFakeRecordSet.cpp:80-106 | for any two records of which only the first fits, the call answers "no more data" and leaves the position before the end of the data |
| PagedTransfer.FetchUntilTold | System/DBLib/DBFakeRecordSet.cpp:41-107 | a caller who stops at "no more data" gets all the pages but the last if there are several and the last holds one record, and otherwise all |
| SchedulerInvariant.RunKeepsInv | System/TaskMgr/source/TaskMgr.cpp:7-115 | the invariant holds in every state of every run |
| SchedulerInvariant.WorkerKeepsInv | System/TaskMgr/source/TaskMgr.cpp:78-115 | every step of a worker keeps the invariant |
| SchedulerInvariant.ClientKeepsInv | System/TaskMgr/source/TaskMgr.cpp:206-235 | every step of AddTask and ReleaseTask keeps the invariant |
| SchedulerInvariant.StopperKeepsInv | System/TaskMgr/source/TaskMgr.cpp:187-203 | every step of StopWorking keeps the invariant |
| SchedulerRuns.OneWorkerPerSlot | System/TaskMgr/source/TaskMgr.cpp:7-46 | two workers between ApplyTask and the end of QuitTask are in different slots, worker 0 included |
| SchedulerRuns.NoClientInSlot | System/TaskMgr/source/TaskMgr.cpp:7-46 | nor does a thread load or unload the task of a slot that a worker is in |
| SchedulerRuns.SecondLookFindsNobody | System/TaskMgr/source/TaskMgr.cpp:13-21 | the branch marked as impossible is not taken: under the lock the slot is always free |
| SchedulerRuns.TaskStaysWhileHeld | System/TaskMgr/source/TaskMgr.cpp:26-46 | as long as a worker is in a slot, the slot's task does not change |
| SchedulerRuns.RunningTaskIsRegistered | System/TaskMgr/source/TaskMgr.cpp:26-38 | Run and End are called on the task Begin was called on, which is still in its slot; a released task is not running; a task that two workers run is in two slots |
| RunningTwice.RunTwiceExactlyWhenAddedAgain | System/TaskMgr/source/TaskMgr.cpp:84-104 | for any calls of AddTask and ReleaseTask, in any number and order: two workers can run a task at once, under some interleaving, if and only if the task is added while it is in the table and a slot is empty |
| RunningTwice.RunTwiceExactlyWhenHeldTwice | System/TaskMgr/source/TaskMgr.cpp:84-104 | after any calls: two workers can run a task at once if and only if the calls leave it in two slots |
| RunningTwice.AddedTwiceRunsTwice | System/TaskMgr/source/TaskMgr.cpp:206-220 | any task added twice can be run by two workers at once |
| RunningTwice.NeverRunTwice | System/TaskMgr/source/TaskMgr.cpp:84-104 | in every run, a task that is never added while it is in the table is never run by two workers at once |
| RunningTwice.HeldTwiceRunsTwice | System/TaskMgr/source/TaskMgr.cpp:84-104 | a run that shows it: the calls are made, worker 1 goes to the later slot with the task, worker 0 to the earlier |
| SchedulerRuns.SleepersAreCounted | System/TaskMgr/source/TaskMgr.cpp:49-58 | m_nSleepingNr is the number of workers between its increment and its decrement and below the number of workers |
| SchedulerRuns.EverySlotHasItsTurn | System/TaskMgr/source/TaskMgr.cpp:89-92 | (i + threadIdx) % 32 takes every slot once in a pass |
| SchedulerPasses.EverySlotIsLookedAtOnce | System/TaskMgr/source/TaskMgr.cpp:89-92 | in every pass of every run the worker looks at every slot, at each exactly once |
| SchedulerPasses.SleeperSawEverySlot | System/TaskMgr/source/TaskMgr.cpp:84-112 | a worker that goes to sleep is not worker 0, looked at every slot exactly once in the pass before, and every Run it called since that pass began returned 0 |
| SchedulerPasses.SleepsExactlyWhenNothingDone | System/TaskMgr/source/TaskMgr.cpp:84-112 | at the end of a pass a worker goes to sleep if and only if it is not worker 0 and every Run it called in the pass returned 0; otherwise the next pass follows |
| SchedulerPasses.TaskLeftToWorkerIsBegun | System/TaskMgr/source/TaskMgr.cpp:84-104 | if a slot holds a task and nobody else has its lock while a worker has its turn there, the worker calls Begin on that task in that pass, whatever all other threads do |
| SchedulerCalls.CallsAreInOrder | System/TaskMgr/source/TaskMgr.cpp:26-100 | in every run the calls of every worker are Begin, and after a successful Begin Run and End of the same task, and WakeUp if and only if Run returned anything but 0; its place in the program tells how far it is |
| SchedulerCalls.NothingLeftBegun | System/TaskMgr/source/TaskMgr.cpp:26-100 | a worker that is not in a slot has ended every task it began |
| SchedulerProgress.PassEnds | System/TaskMgr/source/TaskMgr.cpp:86-105 | a pass takes at most 416 steps of the worker, whatever the other threads do |
| SchedulerProgress.CallReturns | System/TaskMgr/source/TaskMgr.cpp:206-235 | AddTask and ReleaseTask take at most 39 steps of the caller once called |
| SchedulerRuns.StoppedMeansGone | System/TaskMgr/source/TaskMgr.cpp:136-203 | when StopWorking returns, every worker has left Loop, no slot is operated on or locked by one, and none counts as sleeping |
| SchedulerProgress.StopWorkingReturns | System/TaskMgr/source/TaskMgr.cpp:187-203 | in every run StopWorking has returned if and only if it has taken 3 steps and 3 more for every worker, and it never takes more |
| SchedulerProgress.StopperWaitsForWorker | System/TaskMgr/source/TaskMgr.cpp:136-144 | when StopWorking cannot go on, it waits for a worker that has been told to stop and has not left Loop |
| SchedulerProgress.NobodyLeavesUnasked | System/TaskMgr/source/TaskMgr.cpp:84-112 | until StopWorking tells the first worker, no worker leaves Loop |
| SchedulerRuns.ToldWorkerLeaves | System/TaskMgr/source/TaskMgr.cpp:84-144 | a worker whose handle is 0 leaves Loop within 428 of its own steps |
| SchedulerRuns.WaitingWorkerIsServed | System/TaskMgr/source/TaskMgr.cpp:49-58 | a worker that cannot go on waits for a lock whose holder can |
| SchedulerRuns.WaitingClientIsServed | System/TaskMgr/source/TaskMgr.cpp:206-235 | a call that cannot go on waits for the list lock, whose holder d is named, or for its own slot's lock (d is the call itself); d can go on, or waits for its slot's lock, held by a worker that can: no cycle of locks |
| TaskRegistry.CallsTakeEffectInOrder | System/TaskMgr/source/TaskMgr.cpp:206-235 | in every run the slots hold what AddTask and ReleaseTask leave there when made one after the other, and every call answers accordingly |
| TaskRegistry.CallTakesEffectOnce | System/TaskMgr/source/TaskMgr.cpp:206-235 | a call takes effect exactly once between its start and its return and returns the answer it had then; TASK_ALREADY_INITED is never returned |
| TaskRegistry.ClientEffect | System/TaskMgr/source/TaskMgr.cpp:206-235 | loading takes the first empty slot, unloading clears the first slot with that task, and no other step changes a slot |
| StringSplitters.StringSplitter.Splitter | System/DBLib/StringSplitter.h:30-61 | the strings are the pieces between the separators, one more than there are separators, none with a separator in it, and joined again they are the text |
| StringSplitters.StringSplitter.GetAt | System/DBLib/StringSplitter.h:98-104 | the piece, or NULL past the last one |
| StringSplitters.StrChr | System/DBLib/StringSplitter.h:46-46 | strchr: the first occurrence before the first NUL |
| Splitting.JoinOfPieces | System/DBLib/StringSplitter.h:30-61 | joining the pieces gives the text back |
| Splitting.PiecesOfJoin | System/DBLib/StringSplitter.h:30-61 | splitting joined pieces gives the pieces back, when none contains the separator |
| Splitting.PiecesCount | System/DBLib/StringSplitter.h:30-61 | one piece more than there are separators |
| Splitting.PiecesWithout | System/DBLib/StringSplitter.h:30-61 | no piece contains the separator |
| WordLists.MakeOneWords | IdlGenerator/source/baseElement.cpp:114-127 | where the first word was there is one string, all words glued together, and no memory before or behind the words changes |
| WordLists.MoveWord | IdlGenerator/source/baseElement.cpp:119-125 | moving a word up does not touch the words that have not been moved |
| WordLists.GluedIsOneString | IdlGenerator/source/baseElement.cpp:114-127 | read as a C string, the result is the concatenation of all words |
| WordLists.GluedIsJoined | IdlGenerator/source/baseElement.cpp:114-127 | the glued string is the words joined with nothing in between |
| WordLists.IgnorType | IdlGenerator/source/baseElement.cpp:88-102 | how many words in a row are of the type, exactly |
| WordLists.IgnorTypes | IdlGenerator/source/baseElement.cpp:130-153 | how many words in a row are of one of the types, exactly |
| ClassInfo.FastIsInheritance | System/DBLib/NameObject.h:64-71 | IsKindOfFast holds exactly when the class itself is on the parent chain |
| ClassInfo.KindIsNamedAbove | System/DBLib/NameObject.h:48-63 | IsKindOf holds exactly when a class of that name is on the parent chain, by class as by name |
| ClassInfo.FastImpliesKind | System/DBLib/NameObject.h:48-71 | IsKindOfFast implies IsKindOf |
| ClassInfo.AgreeExactlyWhenDistinct | System/DBLib/NameObject.h:48-71 | on acyclic chains the two agree on all classes if and only if all names are different |

## Left out

- Strings: the wide-character and code-page forms, `Format`, case mapping, trimming, reverse search, and a string passed to its own methods.
- NULL for the strings of `Find`, `Replace`, `Insert` and `Remove`, which the source hands to strlen and strstr without a test.
- EasyStrings.EasyString.Replace: an empty old string with a non-empty new one is excluded, because the source divides by its length; texts stay below 2^31 characters, because the source keeps positions in an int.
- EasyStrings.EasyString.RemoveChar: NUL is excluded, because the source would find the terminator for ever.
- Size sums that wrap: `Delete`, `SubStr` and the buffer operations require sums below the range of their unsigned type.
- The lock of `CThreadSafeList`: each operation is one atomic step. Its re-entry, where Create calls Destory and Clear and where the pops and DeleteObject call DeleteNode, is not modelled; the pthread mutex of other systems than Windows does not allow it.
- ThreadSafeLists.ThreadSafeList.Create: a negative size, for which the allocation fails, is excluded.
- ThreadSafeLists.ThreadSafeList.DeleteObject: the position is NULL or that of a node in use, as the source assumes without a test.
- `CEasyBuffer::PopBack`: it copies bytes from behind the contents, so what it returns has no meaning to state.
- EasyBuffers.EasyBuffer.Create: allocation always succeeds.
- DBValues.SetValueHolds: values are datatype values; the in-place update of the vector elements that hold them, the conversion operators and `SetEmptyValue` are not modelled.
- StaticRecordSets.StaticRecordSet.Init: bytes from which a value is read beyond their end are excluded, because what is there is not known; the data stays below 2^31 bytes, and a position behind the end stays in the range of UINT.
- FakeRecordSets.FakeRecordSet.GetRecordSetDataEx: data with records and a whole header must be records to the end, because the source takes whatever follows for records; an output too small for the header is excluded, because the source then writes the count outside what it has filled; the size of the column infos must not wrap.
- PagedTransfer.FetchAll: the loop is the caller's, and so is that of ReceiveAll; a buffer too small for some record makes no progress and is excluded.
- Record-set cursor moves, the counts and the look-up of a field by name: single-branch reads.
- The scheduler's reads and writes are atomic and in order; weak memory is not modelled. `CProduerAndConsumer` may return at any time, so whether a wake-up is ever lost is not stated, and `WakeUp` changes nothing.
- Task priorities and the run count passed to `Run`.
- Tasks that call AddTask or ReleaseTask themselves. A worker holds its slot's lock while it runs a task; on Windows the lock is re-entrant, so a task that releases itself in `Run` clears the slot and `End` is then called through NULL, elsewhere the thread waits for a lock it holds.
- `CTaskWorkers::Start` and `StartWorking`: the model begins with all workers started and their numbers set, so the start-up race is not modelled; `StopWorking` is called once.
- SchedulerRuns.ToldWorkerLeaves: counts a worker's own steps, as the other bounds do; that the operating system lets a thread take them is not modelled.
- StringSplitters.StringSplitter.Splitter: a fresh splitter and a separator other than NUL; repeated calls keep pointers into freed memory, and the destructor frees what was not allocated.
- The IDL grammar, generated stubs and marshalling, sockets, the MySQL client calls, timers, logging and configuration.
