# SKYSDK: list, map, base 64, regex search and timed locks

A Dafny model of five C components of SKYSDK, with proofs of what they keep over whole runs.

| module | what it models |
|---|---|
| `Prelude` | an optional value, an allocator's answers to one call, minimum and maximum |
| `ListModel` | the list as a bounded sequence plus a number of spare nodes: every call as one step, and theorems about all runs |
| `SkyList` | the doubly linked list of `sky/src/sky_list.c` on the heap, with its sentinels and its chain of recycled nodes, proved to be `ListModel` |
| `MapModel` | the string map as an ordered association list with an optional filter, every call with its allocation failures, and theorems about all runs |
| `SkyMap` | the map of `sky/src/sky_map.c` on the heap: parallel arrays, owned strings, grow, shrink, undo, clone, proved to be `MapModel`, with the allocator's books kept block by block |
| `Base64Model` | the encoding of section 4 of RFC 4648, the decoding the library performs, and their round trips |
| `SkyBase64` | the tables, loops and buffers of `sky/src/sky_base64.c`, proved to be `Base64Model` |
| `RegexModel` | finding all matches with an arbitrary matcher: results, termination, position of the matches |
| `SkyRegex` | the loops and the list of `sky/src/sky_regex.c` on the heap, proved to be `RegexModel` |
| `SkyTick` | wrapping millisecond ticks of `sky/src/sky_sys.c` |
| `SkyRwlock` | taking a file lock, blocking, at once, or polled until a time-out (`sky/src/sky_rwlock.c`) |

`dafny verify dfyconfig.toml` checks the project.

## How to read it

The mutable structures are classes whose fields the methods rewrite in place. Each has a ghost
predicate `Valid` and a ghost function `View`, and each method says that the new `View` is the
step of the pure model on the old one, and that the answer is the model's answer. `Replay` puts
calls together: any sequence of calls on the heap is the run of the model on the same sequence,
so the theorems about runs hold of the heap. The methods named `Replay`, `Call`, `Lifetime`,
`CreateAndReplay`, `ReplayBeside`, `LookUpTwice`, `CallBeside`, `CallEither`, `ReplayBoth`,
`DestroyBoth`, `CloneLifetime`, `RoundTrip` and `MatchThenParse` are clients of the library, not part of it.

What comes from outside is a parameter. Whether the allocator has memory is a boolean per call
in the list, and in the map and the search a function `luck` that answers the i-th request, so
that each statement holds for every schedule of failures. The regular-expression matcher, the
clock and the lock are functions about which only what their documentation promises is required.
The list's comparison function and the map's filter are pure functions.

Statements that several C functions repeat are written once: `TakeNode` and `LinkBetween` for
the three ways to add a list node, `Recycle` for the three ways to remove one, `ResizeKeys` and
`ResizeValues` for each `realloc` of the map's arrays. `pop_front` writes through the head
sentinel and `pop_back` through the tail where `Recycle` writes through the node's own
neighbours; these are the same objects there. Shifts and masks are multiplications, divisions
and remainders by powers of two on numbers below 2^24.

## What does not hold, and exactly when it does

- A map created with a filter does not keep it for ever: deleting the last entry drops it, and so
  does an insertion into the empty map that finds room for the arrays but not for a string, even
  though that insertion reports an error. `FilterCanBeLost` shows a rejected pair being stored;
  `FilterInForceExactlyWhen` says for every run whether the filter is still in force. Whatever
  filter is in force, every stored pair passes it (`RunSafety`).
- Searching does not end for every matcher. The repository's own description says that all
  matches are found as Python's `findall` finds them; the loops, however, do not move on after a
  match that ends where its search started (`EmptyMatchNeverHalts`). `HaltsExactlyWhen` gives the
  condition for a matcher and a string, and the methods require no more than it;
  `HaltsEverywhereExactlyWhen` gives the condition for a matcher alone.
- Groups after a group that took no part are not reported (`GroupAfterGapIsLost`,
  `AllGroupsReportedExactlyWhen`).
- Encoding a decoded text gives the text back only for canonical texts (`NonCanonicalChanges`,
  `EncodeDecodeExactlyWhen`); the decoder accepts all others too.
- The timed poll does not end for every clock. A lock that is never free is given up some time on
  every clock of a pace if and only if the slowest round is shorter than 2^32 ms, for a time-out of
  at most 100 ms; the time-out does not exceed 2^32 - 4, for rounds of exactly 100 ms; and time-out
  plus slowest round do not exceed 2^32, for all others (`EndsExactlyWhen`, `SurelyEndsByCases`).
  `NeverEnds` gives a clock for each failing pair; with the longest finite time-out, every steady
  clock of 100 ms rounds whose start tick is no multiple of 4 is one
  (`LongestTimeoutNeverExpires`).
- Nor does it always end in time. It is sure to stop at the first attempt past the time-out if and
  only if the round begun at the latest moment before the time-out ends within 32 bits of
  milliseconds (`ExpiresInTimeExactlyWhen`, `LongRoundsOvershoot`); this differs from the condition
  for ending only for rounds of exactly 100 ms (`InTimeByCases`). The clocks of both failures are
  never read as tick 0, which `sky_systick_get` does not return.
- `remove` and `remove_if` answer NULL both when nothing matched and when the removed payload was
  NULL (`RemovedNullIsAmbiguous`). NULL tells that nothing was removed, and only that, exactly when
  the first element accepted is not NULL (`NullAnswerTellsExactlyWhen`); for `remove`, exactly when
  the target is not NULL or the list holds no NULL (`NullRemovalTellsExactlyWhen`).
- A refused text during `sky_regex_parse` leaves a list node that nothing frees any more, and the
  list ends up short (`RefusedTextLosesNode`). The list is complete if and only if the first two
  requests for each text of the string are granted (`AllKeptExactlyWhen`), and one node is lost for
  each request for a text that is refused (`LostExactlyRefused`).

## Model

| member | source | states |
|---|---|---|
| `ListModel.AllocatedIsPeak` | sky/src/sky_list.c:167-335 | over any run from creation, with any allocation outcomes, the nodes ever allocated number exactly the largest size reached, so at most `max_size` |
| `ListModel.AllocationFollowsPeak` | sky/src/sky_list.c:175-183 | from any state, a node is requested only when the list outgrows every earlier size |
| `ListModel.PeakIsLargest` | sky/src/sky_list.c:167-426 | the peak of a run is the size of the list at some moment of it, and no moment has a larger one |
| `ListModel.RunStaysBounded` | sky/src/sky_list.c:173-173 | no run exceeds `max_size` at any moment |
| `ListModel.RunConserves` | sky/src/sky_list.c:167-426 | as multisets, what was there plus what was answered as accepted is what is left plus what was answered or cleared, over any run |
| `ListModel.StepConserves` | sky/src/sky_list.c:167-426 | the same for one call of any kind |
| `ListModel.QueueOrder` | sky/src/sky_list.c:197-248 | any interleaving of `push_back` and `pop_front`, rejected ones included, is first in, first out, in terms of what the calls answer |
| `ListModel.QueueOrderFromBack` | sky/src/sky_list.c:167-271 | so is any interleaving of `push_front` and `pop_back` |
| `ListModel.StackOrder` | sky/src/sky_list.c:220-271 | `push_back` and `pop_back` are last in, first out: after any pushes and pops in between that come back to the same size, the pop answers the pointer pushed before and restores the list |
| `ListModel.StackOrderAtFront` | sky/src/sky_list.c:167-218 | so are `push_front` and `pop_front` |
| `ListModel.RunMirrored` | sky/src/sky_list.c:160-271 | any run of calls at the two ends, made at the other end on the reversed list, gives the same answers and the reversed list |
| `ListModel.PushFrontShows` | sky/src/sky_list.c:160-218 | after `push_front` the new pointer is answered by `front`, by `get_at` of 0 and by `pop_front`, every other index is one further, and the back answers as before |
| `ListModel.PushBackShows` | sky/src/sky_list.c:220-289 | after `push_back` the new pointer is answered by `back`, by `get_at` of the old count and by `pop_back`, and all else answers as before |
| `ListModel.FilledListShows` | sky/src/sky_list.c:273-289 | a list filled by `push_back` from creation shows exactly what was pushed: by index, at both ends, and by `contain` |
| `ListModel.ClearHidesAll` | sky/src/sky_list.c:409-426 | after `clear` every query answers NULL or false |
| `ListModel.SpareNodesServePushes` | sky/src/sky_list.c:175-183 | while recycled nodes last, every push or insert is accepted without any memory and the node count stays |
| `ListModel.ClearThenPush` | sky/src/sky_list.c:409-426 | after `clear`, as many pushes as there were nodes succeed without allocating |
| `ListModel.RejectedPushChangesNothing` | sky/src/sky_list.c:173-185 | a push or insert is refused exactly when the list is full or a needed node cannot be had, and exactly then nothing changes |
| `ListModel.RemoveIfDeletesWhatFindIfFinds` | sky/src/sky_list.c:350-407 | `remove_if` answers what `find_if` would and deletes exactly the first accepted element, keeping order and node count; NULL answers are ambiguous |
| `ListModel.RemoveDeletesFirstOccurrence` | sky/src/sky_list.c:345-377 | `remove` deletes the first occurrence of its target, keeps the order of all others and the nodes, and answers the target; without one it changes nothing and answers NULL |
| `ListModel.RemovedNullIsAmbiguous` | sky/src/sky_list.c:345-377 | `remove` of NULL answers NULL on a list holding NULL, which it empties, and on an empty list, which it leaves alone |
| `ListModel.NullAnswerTellsExactlyWhen` | sky/src/sky_list.c:350-377 | "the answer is NULL if and only if nothing changed" holds exactly when the first element accepted, if any, is not NULL |
| `ListModel.NullRemovalTellsExactlyWhen` | sky/src/sky_list.c:345-348 | for `remove` it holds exactly when the target is not NULL or the list holds no NULL |
| `ListModel.InsertIsUndoneByUnlink` | sky/src/sky_list.c:291-335 | an insert puts the pointer at min(index, count), moves the rest up by one, and unlinking it restores the sequence with the node kept |
| `ListModel.FirstMatch` | sky/src/sky_list.c:398-404 | the first accepted index: nothing accepted before it, accepted if inside |
| `ListModel.RunAppend` | sky/src/sky_list.c:38-426 | runs compose: contents and answers of a run in two parts |
| `SkyList.Create` | sky/src/sky_list.c:38-82 | refuses 0 and a failed allocation; otherwise a valid empty list of fresh sentinels owning no node |
| `SkyList.List.constructor` | sky/src/sky_list.c:49-79 | the two sentinels linked to each other form a valid empty list |
| `SkyList.List.TakeNode` | sky/src/sky_list.c:175-185 | takes the top recycled node, else a new one, else NULL with nothing changed; the node is then on neither chain |
| `SkyList.List.LinkBetween` | sky/src/sky_list.c:187-192 | linking the node between two neighbours restores the whole invariant and inserts the datum at that place |
| `SkyList.List.Recycle` | sky/src/sky_list.c:208-215 | bypassing a node restores both chains, removes its datum and puts it on top of the recycled nodes |
| `SkyList.List.PushFront` | sky/src/sky_list.c:167-195 | keeps both chains mirrored and disjoint; contents and answer are those of the model, whether accepted or refused |
| `SkyList.List.PopFront` | sky/src/sky_list.c:197-218 | keeps the invariant and every owned node; contents and answer are those of the model |
| `SkyList.List.PushBack` | sky/src/sky_list.c:220-248 | as `PushFront`, at the other end |
| `SkyList.List.PopBack` | sky/src/sky_list.c:250-271 | as `PopFront`, at the other end |
| `SkyList.List.GetAt` | sky/src/sky_list.c:273-289 | the datum at the index, NULL beyond the count |
| `SkyList.List.Insert` | sky/src/sky_list.c:291-335 | for any 32-bit index, the walk past the tail included, inserts at min(index, count) |
| `SkyList.List.Remove` | sky/src/sky_list.c:345-348 | deletes the first occurrence of the pointer, if any |
| `SkyList.List.RemoveIf` | sky/src/sky_list.c:350-377 | deletes and answers the first accepted element |
| `SkyList.List.Contain` | sky/src/sky_list.c:379-384 | true exactly when the pointer is not NULL and occurs in the list |
| `SkyList.List.FindIf` | sky/src/sky_list.c:386-407 | the first accepted datum, or NULL |
| `SkyList.List.Front` | sky/src/sky_list.c:145-154 | the first datum, or NULL |
| `SkyList.List.Back` | sky/src/sky_list.c:156-165 | the last datum, or NULL |
| `SkyList.List.DrainFirst` | sky/src/sky_list.c:416-423 | one turn of the loop of `clear` keeps forward chain, recycled chain and their separation, the backward chain being out of order |
| `SkyList.List.Clear` | sky/src/sky_list.c:409-426 | ends, with a valid empty list whose recycled nodes are the reversed old contents on top of the old recycled nodes |
| `SkyList.List.Destroy` | sky/src/sky_list.c:84-115 | gives back every node exactly once and then the handle, and reads no node after giving it back |
| `SkyList.Replay` | sky/src/sky_list.c:38-426 | any sequence of calls on the heap gives the answers and the contents of the model's run and keeps the invariant |
| `SkyList.CreateAndReplay` | sky/src/sky_list.c:38-426 | after any run from creation the heap nodes number the peak size of the run |
| `SkyList.ChainsMirror` | sky/src/sky_list.c:7-24 | in a valid list the forward walk meets exactly `count` nodes carrying the contents, and the backward walk meets them in reverse |
| `SkyList.NodesArePartitioned` | sky/src/sky_list.c:213-215 | every owned node is in use or recycled, never both, and they number contents plus spares |
| `SkyList.DrainedIsReversed` | sky/src/sky_list.c:416-423 | the recycled chain built by the loop of `clear` is the reversed contents on top of what was there |
| `MapModel.RunSafety` | sky/src/sky_map.c:366-497 | over any run and any failures, keys stay distinct, every stored pair passes the filter in force, and that filter is the original one or none |
| `MapModel.FilterInForceExactlyWhen` | sky/src/sky_map.c:248-258 | a filter is still in force after a run exactly when no call of the run met the condition for dropping it |
| `MapModel.FilterDroppedExactlyWhen` | sky/src/sky_map.c:250-258 | the calls that drop the filter, each leaving the map empty |
| `MapModel.AddRejectsExactlyWhen` | sky/src/sky_map.c:380-392 | `add` rejects exactly when no entry has the key, there is a callback, and it answers other than 0; then nothing changes |
| `MapModel.AddOrUpdateRejectsExactlyWhen` | sky/src/sky_map.c:420-430 | `addorupdate` rejects exactly when there is a callback and it answers other than 0, whether or not the key is there |
| `MapModel.StoredPairsPass` | sky/src/sky_map.c:366-497 | after any run from creation, while a filter is in force it is the one given, and the callback answers 0 for every stored pair |
| `MapModel.FilterCanBeLost` | sky/src/sky_map.c:342-346 | a run in which a failed insertion loses the filter and a pair is then stored that was rejected before |
| `MapModel.CloneKeepsSafety` | sky/src/sky_map.c:161-171 | a clone has the entries and the safety of the original, and its filter except when the original is empty |
| `MapModel.AddOnDictionary` | sky/src/sky_map.c:366-405 | says for each code of `add` exactly when it is answered: the key bound, else the pair rejected, else one of four requests refused; success binds a new key, anything else leaves the bindings alone |
| `MapModel.AddOrUpdateOnDictionary` | sky/src/sky_map.c:407-463 | says for each code of `addorupdate` exactly when it is answered: the pair rejected, else one request refused of one for a bound key and four for a new one; success binds the key, anything else leaves the bindings alone |
| `MapModel.DeleteOnDictionary` | sky/src/sky_map.c:465-497 | `delete` unbinds the key, whatever the allocator refuses, and tells whether it was bound |
| `MapModel.QueriesOnDictionary` | sky/src/sky_map.c:499-567 | the three queries answer membership, membership among the values, and the binding |
| `MapModel.StepKeepsOrder` | sky/src/sky_map.c:407-497 | two keys present before and after any call keep their order |
| `MapModel.NewKeyComesLast` | sky/src/sky_map.c:333-364 | a new key goes behind all others, which stay in their slots |
| `MapModel.FindKey` | sky/src/sky_map.c:287-308 | the first index with the key |
| `MapModel.RunSnoc` | sky/src/sky_map.c:366-567 | one more call extends a run and its answers by one step |
| `SkyMap.MallocAndStrcpy` | sky/src/sky_map.c:27-62 | a fresh block with the text, or nothing allocated |
| `SkyMap.Create` | sky/src/sky_map.c:75-86 | a fresh handle owning only itself, or nothing allocated |
| `SkyMap.Map.Destroy` | sky/src/sky_map.c:88-104 | gives back every block of the map exactly once and no other |
| `SkyMap.CloneVector` | sky/src/sky_map.c:106-141 | succeeds exactly when every request is granted, with fresh copies in order; otherwise gives back all it took |
| `SkyMap.CloneVectors` | sky/src/sky_map.c:172-189 | both vectors or neither, with nothing left allocated on failure |
| `SkyMap.Clone` | sky/src/sky_map.c:143-198 | exactly when every request is granted, a valid copy with the same entries that shares no block; otherwise no change to the allocator |
| `SkyMap.Map.IncreaseStorage` | sky/src/sky_map.c:200-246 | both arrays one slot longer, or the map valid and unchanged after undoing, for every failure |
| `SkyMap.Map.DecreaseStorage` | sky/src/sky_map.c:248-285 | a valid map for every failure of the shrinking, arrays freed and filter dropped exactly at zero entries |
| `SkyMap.Map.FindKeySlot` | sky/src/sky_map.c:287-308 | the slot of the key exactly when it is stored |
| `SkyMap.Map.FindValueSlot` | sky/src/sky_map.c:310-331 | a slot with the value exactly when it is stored |
| `SkyMap.Map.StoreCopies` | sky/src/sky_map.c:342-361 | the new entry, or the previous entries with every string taken given back |
| `SkyMap.Map.InsertNewKeyValue` | sky/src/sky_map.c:333-364 | the model's insertion, failing exactly when one of its four requests is refused, touching nobody else's block |
| `SkyMap.Map.AddEntry` | sky/src/sky_map.c:366-405 | entries, filter and answer of the model; nobody else's block touched |
| `SkyMap.Map.Overwrite` | sky/src/sky_map.c:444-458 | the value replaced in place and the old block given back, or nothing changed |
| `SkyMap.Map.AddOrUpdateEntry` | sky/src/sky_map.c:407-463 | entries, filter and answer of the model; nobody else's block touched |
| `SkyMap.Map.Evict` | sky/src/sky_map.c:486-490 | the entry's two strings given back and the later ones moved down in order |
| `SkyMap.Map.DeleteEntry` | sky/src/sky_map.c:465-497 | entries, filter and answer of the model; nobody else's block touched |
| `SkyMap.Map.ContainsKey` | sky/src/sky_map.c:499-518 | the model's answer |
| `SkyMap.Map.ContainsValue` | sky/src/sky_map.c:520-539 | the model's answer |
| `SkyMap.Map.GetValueFromKey` | sky/src/sky_map.c:541-567 | the stored string block itself, with the bound text, or NULL |
| `SkyMap.Replay` | sky/src/sky_map.c:333-567 | any sequence of calls under any failures is the run of the model, nobody else's block is touched, and every key not deleted or updated in the run keeps its value block |
| `SkyMap.LookUpTwice` | sky/src/sky_map.c:541-567 | the block answered for a key stays allocated, owned by the map, and is answered again after any run without a successful delete or update of that key |
| `SkyMap.HolderStays` | sky/src/sky_map.c:407-497 | across one call, a key that it does not rebind keeps its value string, whatever slot it moves to |
| `MapModel.FindKeptKey` | sky/src/sky_map.c:407-497 | the slot of such a key after the call: one lower if an earlier entry was deleted, else the same |
| `MapModel.RunRebindsSnoc` | sky/src/sky_map.c:407-497 | a key is rebound in a run exactly when it is by its last call or before |
| `SkyMap.ReplayBeside` | sky/src/sky_map.c:106-198 | any run on a map leaves a map that shares no block with it, such as its clone, valid and unchanged, and nobody else's block touched |
| `SkyMap.Lifetime` | sky/src/sky_map.c:75-104 | create, any run, destroy: the allocator ends where it started |
| `SkyMap.ReplayBoth` | sky/src/sky_map.c:143-198 | calls on a map and its clone in any interleaving: each gives the answers and entries of the run of its own calls, and nobody else's block is touched |
| `SkyMap.CloneLifetime` | sky/src/sky_map.c:88-198 | clone a map, use both in any interleaving, destroy both, under any refusals: the allocator keeps the blocks of others and nothing else |
| `SkyMap.BlocksCounted` | sky/src/sky_map.c:88-104 | a map owns its handle, two arrays if it has entries, and two distinct strings an entry |
| `Base64Model.DecodeEncode` | sky/src/sky_base64.c:41-132 | decoding the code of any non-empty octets gives them back with the right length |
| `Base64Model.EncodeDecodeExactlyWhen` | sky/src/sky_base64.c:41-132 | encoding a decoded text gives the text back if and only if it is canonical (sections 3.5 and 4 of RFC 4648) |
| `Base64Model.NonCanonicalChanges` | sky/src/sky_base64.c:106-129 | "QR==" is decoded to "A", whose code is "QQ==" |
| `Base64Model.EncodeIsCanonical` | sky/src/sky_base64.c:71-74 | every code is canonical and its padding tells the encoded length |
| `Base64Model.EncodeIsInjective` | sky/src/sky_base64.c:41-77 | different octets have different codes |
| `Base64Model.EncodeAppend` | sky/src/sky_base64.c:57-69 | encoding can be cut at any multiple of three octets |
| `Base64Model.EncodeLength` | sky/src/sky_base64.c:52-52 | four characters for every three octets begun |
| `Base64Model.EncodeSpelled` | sky/src/sky_base64.c:106-129 | before truncation the decoder spells the octets followed by zeros for the padding |
| `Base64Model.SpellAppend` | sky/src/sky_base64.c:106-129 | decoding can be cut at any multiple of four characters |
| `Base64Model.SymbolsAsPrinted` | sky/src/sky_base64.c:4-14 | each value has the character printed for it in table 1 of RFC 4648, and padding is '=' |
| `Base64Model.Rfc4648Vectors` | sky/src/sky_base64.c:41-77 | test vectors of section 10 of RFC 4648 |
| `Base64Model.QuadCarriesOctets` | sky/src/sky_base64.c:63-68 | the four symbols of a group read back as the 24-bit number of its three octets |
| `Base64Model.OctetsCarrySextets` | sky/src/sky_base64.c:113-127 | the three octets of a group are the 24-bit number of its four sextets |
| `Base64Model.DecodedLengthByCases` | sky/src/sky_base64.c:91-101 | the decoded length for each of the four ways in which '=' may stand in the last two places |
| `Base64Model.ForeignReadAsA` | sky/src/sky_base64.c:21-34 | characters outside the alphabet, '=' anywhere among them, are decoded as 'A' |
| `SkyBase64.TableIsAlphabet` | sky/src/sky_base64.c:4-14 | the encoding table is the alphabet of RFC 4648 |
| `SkyBase64.TableAsPrinted` | sky/src/sky_base64.c:4-14 | the encoding table, position by position, is table 1 of RFC 4648 as printed |
| `SkyBase64.InitTable` | sky/src/sky_base64.c:21-34 | the decoding table inverts the encoding table on all 64 values and is 0 elsewhere |
| `SkyBase64.MasksAreSextets` | sky/src/sky_base64.c:63-68 | the four shift-and-mask expressions are the sextets of RFC 4648 |
| `SkyBase64.PaddingCompletesEncode` | sky/src/sky_base64.c:71-74 | overwriting the tail of what the loop wrote gives exactly the code RFC 4648 prescribes |
| `SkyBase64.EncodeGroups` | sky/src/sky_base64.c:57-69 | the loop fills the whole buffer with the unpadded groups |
| `SkyBase64.PadTail` | sky/src/sky_base64.c:71-74 | the last characters, as many as counted, become '=' and no other |
| `SkyBase64.EncodeBuffer` | sky/src/sky_base64.c:41-77 | the buffer holds the code of RFC 4648 in full; NULL exactly for want of memory |
| `SkyBase64.BytesAreOctets` | sky/src/sky_base64.c:113-127 | the three shift-and-mask expressions are the octets of four sextets |
| `SkyBase64.NextSextet` | sky/src/sky_base64.c:108-111 | one character consumed, '=' included, and its value |
| `SkyBase64.WriteOctets` | sky/src/sky_base64.c:115-128 | writes in order up to the end of the buffer and not past it |
| `SkyBase64.DecodeGroups` | sky/src/sky_base64.c:106-129 | for any characters the loop reads the whole input and fills the whole output |
| `SkyBase64.DecodeBuffer` | sky/src/sky_base64.c:79-132 | NULL exactly for a length that is no multiple of 4 or for want of memory; otherwise the decoding, whatever the characters |
| `SkyBase64.RoundTrip` | sky/src/sky_base64.c:21-132 | init, encode, decode through the buffers gives the buffer back |
| `RegexModel.HaltsExactlyWhen` | sky/src/sky_regex.c:102-114 | the outer loops end if and only if no match on the way ends where its search started, and then within one turn more than the string is long |
| `RegexModel.EmptyMatchNeverHalts` | sky/src/sky_regex.c:185-185 | the matcher that finds the empty match everywhere is sound, and the loops never end on any string |
| `RegexModel.HaltsEverywhereExactlyWhen` | sky/src/sky_regex.c:134-186 | the loops end on every string if and only if the matcher never answers a match that ends at offset 0 |
| `RegexModel.WholesInOrder` | sky/src/sky_regex.c:185-185 | the whole matches lie in order in the searched string without overlap |
| `RegexModel.WholesAreFound` | sky/src/sky_regex.c:142-184 | each whole match is among the texts found, as it stands in the searched string |
| `RegexModel.WholesAreMatches` | sky/src/sky_regex.c:134-186 | each whole match is the matcher's answer for the rest of the string from the end of the one before, and the last has no match behind it or ends where its search started |
| `RegexModel.FoundInOrder` | sky/src/sky_regex.c:134-186 | what is found is the texts of the first match, then those of the next, and so on, in this order and with nothing besides |
| `RegexModel.TextsAreGroups` | sky/src/sky_regex.c:142-166 | the k-th text reported of a match is the k-th group's, as its span says, and that group took part |
| `RegexModel.TextsEndAtFirstUnset` | sky/src/sky_regex.c:146-149 | the texts of a match end at the first group that took no part |
| `RegexModel.AllGroupsReportedExactlyWhen` | sky/src/sky_regex.c:142-149 | all groups that took part are reported if and only if none follows one that did not |
| `RegexModel.HundredTexts` | sky/src/sky_regex.c:104-111 | a match of which all groups took part reports 100 texts, as many as the loops have room for |
| `RegexModel.GroupAfterGapIsLost` | sky/src/sky_regex.c:146-149 | spans in which the second group took part and the first did not: only the whole match is reported |
| `RegexModel.MatchKeptExactlyWhen` | sky/src/sky_regex.c:142-166 | a match keeps a prefix of its texts, and all of them if and only if two requests for each are granted |
| `RegexModel.AllKeptExactlyWhen` | sky/src/sky_regex.c:134-186 | the list is complete if and only if the first two requests for each text found in the string are granted |
| `RegexModel.LostExactlyRefused` | sky/src/sky_regex.c:151-162 | a whole search loses as many nodes as its requests for a text were refused |
| `RegexModel.RefusalCostsItsMatchOnly` | sky/src/sky_regex.c:142-186 | a refusal costs texts of its own match only: with all later requests granted, a prefix of that match and all that is found after it are kept |
| `RegexModel.RefusedTextsAre` | sky/src/sky_regex.c:134-186 | over a whole search the requests counted as lost nodes are exactly the requests for a text that are refused, each once |
| `RegexModel.RefusedOddAre` | sky/src/sky_regex.c:151-162 | the same for the requests of one match |
| `RegexModel.OddAre` | sky/src/sky_regex.c:151-162 | the requests of one match alternate: the k-th for a text follows the k-th for a node |
| `RegexModel.RefusedTextLosesNode` | sky/src/sky_regex.c:157-162 | a search that finds one text and is refused the block for it: nothing listed, one node lost |
| `SkyRegex.Regex.Match` | sky/src/sky_regex.c:92-117 | ends, with the number of texts found, modulo 2^32 |
| `SkyRegex.CountGroups` | sky/src/sky_regex.c:104-112 | adds the texts of one match to a 32-bit count |
| `SkyRegex.Regex.FreeList` | sky/src/sky_regex.c:16-27 | gives back every listed node and every text block once and no other node, and reads no node after giving it back |
| `SkyRegex.Regex.Append` | sky/src/sky_regex.c:168-183 | the walk ends at the last node; the list is longer by one text at its end, without cycle |
| `SkyRegex.Regex.KeepText` | sky/src/sky_regex.c:151-166 | one text appended in a block of its own exactly when both requests are granted; a node lost exactly when only its text was refused |
| `SkyRegex.Regex.KeepGroups` | sky/src/sky_regex.c:142-184 | what one match adds under any refusals |
| `SkyRegex.Regex.Parse` | sky/src/sky_regex.c:119-189 | ends, with the old list given back, no old node left allocated but those lost earlier, and a list of fresh nodes carrying what this search kept: everything found if and only if two requests for each text are granted, and one node lost for each text refused |
| `SkyRegex.Regex.Destroy` | sky/src/sky_regex.c:76-90 | gives back the listed nodes, all texts and the handle; only nodes lost in earlier searches stay allocated |
| `SkyRegex.MatchThenParse` | sky/src/sky_regex.c:92-189 | whenever the loops end at all, the count of `sky_regex_match` is the length of the list of `sky_regex_parse`, modulo 2^32, if there is memory for two requests a text |
| `SkyTick.SystickDiff` | sky/src/sky_sys.c:44-67 | subtraction modulo 2^32 in every case |
| `SkyTick.DiffOfTicks` | sky/src/sky_sys.c:69-72 | the difference of two ticks is the true time between them modulo 2^32 |
| `SkyTick.SystickGet` | sky/src/sky_sys.c:30-42 | ends on any running clock, with the first non-zero tick, which below 2^32 ms is the reading itself |
| `SkyTick.TickIsReading` | sky/src/sky_sys.c:38-38 | below 2^32 ms the tick is the reading, and it starts again every 2^32 ms |
| `SkyTick.MillisRoundDown` | sky/src/sky_sys.c:38-38 | seconds and nanoseconds make the whole time rounded down to milliseconds |
| `SkyRwlock.Poll` | sky/src/sky_rwlock.c:182-192 | whenever the loop is sure to end at all, ends after a bounded number of attempts, succeeds exactly when its last attempt does and gives up exactly when the wrapped ticks say so; with rounds in time, within one attempt per 100 ms of time-out, and neither before the time-out nor a full round after it, across wraps |
| `SkyRwlock.TicksTellTime` | sky/src/sky_rwlock.c:192-192 | with rounds in time the wrapped difference of ticks is the true time up to the first attempt past the time-out |
| `SkyRwlock.LockFile` | sky/src/sky_rwlock.c:170-194 | the three ways to wait for a file lock, by time-out |
| `SkyRwlock.EndsExactlyWhen` | sky/src/sky_rwlock.c:184-192 | for every positive time-out and every slowest round: on every clock of that pace that is never read as tick 0 the loop gives up some time if and only if rounds are in time, or all take exactly 100 ms and the time-out does not exceed 2^32 - 4 |
| `SkyRwlock.SurelyEndsByCases` | sky/src/sky_rwlock.c:184-192 | that condition as inequalities between time-out, slowest round and 2^32 |
| `SkyRwlock.NeverEnds` | sky/src/sky_rwlock.c:184-192 | for each failing pair, a clock never read as 0 on which the loop goes on for ever |
| `SkyRwlock.SteadyNeverEnds` | sky/src/sky_rwlock.c:184-192 | with rounds of exactly 100 ms, from every start whose tick is no multiple of 4, the loop never gives up on a time-out above 2^32 - 4 |
| `SkyRwlock.ExpiresInTimeExactlyWhen` | sky/src/sky_rwlock.c:192-192 | for every positive time-out and every slowest round: the loop stops at the first attempt past the time-out on every clock of that pace that is never read as tick 0 if and only if the round begun at the latest moment before the time-out ends within 32 bits |
| `SkyRwlock.InTimeByCases` | sky/src/sky_rwlock.c:182-192 | that condition as inequalities between time-out, slowest round and 2^32 |
| `SkyRwlock.LongRoundsOvershoot` | sky/src/sky_rwlock.c:237-247 | for each failing pair, a clock that starts at tick 1, never reads 0, and on which the loop goes on past the time-out |
| `SkyRwlock.DecidesRightExactlyWhen` | sky/src/sky_sys.c:69-72 | when the wrapped comparison agrees with the true one |
| `SkyRwlock.LongestTimeoutNeverExpires` | sky/src/sky_rwlock.c:192-192 | an instance: the longest finite time-out with rounds of exactly 100 ms, from every start whose tick is no multiple of 4 |

## Left out

- The number of preallocated nodes (`SKY_LIST_PREALLOC_NUM`) is its default 0, so the allocation loop of `sky_list_create` and its failure path do not occur.
- `SKY_ASSERT`, which does nothing in a release build; in a debug build `sky_list_insert` stops when it must allocate.
- `sky_list_size`, `sky_list_max_size`, `sky_list_full`, `sky_list_empty`: plain reads of `count` and `max_size`.
- Handle type tags, NULL arguments, logging and `perror`.
- SkyMap.MallocAndStrcpy: the error path of `strcpy_s` is left out, since the destination is always long enough.
- Byte counts of allocations and their overflow; an array block is known by its number of slots.
- A block that `realloc` leaves in place: the model always moves it, which forgets that the address may stay the same.
- Passing `sky_map_addorupdate` a value that points into the map itself.
- SkyBase64.EncodeBuffer: inputs longer than 1610612733 bytes, whose code an `int` cannot index, are excluded.
- SkyBase64.DecodeBuffer: an empty input, for which the C code reads in front of the buffer, is excluded, and so are inputs of 2^31 characters or more, a multiple of 4, which an `int` cannot index.
- `regcomp`, `regexec`, `regfree`: the matcher is an arbitrary function from the rest of the string to at most 100 spans.
- `regexec` reporting an error other than no match is taken as no match, as the code takes it.
- SkyRwlock.Poll: the 100 ms sleep is taken not to be cut short by a signal.
- Locks that are not file locks, which call `pthread_rwlock` directly, and what the locks exclude.
- `sky_systick_sleep`, absolute time-outs and calendar conversion: simple arithmetic or the C library's.
- Hash table, memory, dynamic library, critical section, process, debug, shared memory and socket modules: wrappers around the C library and the kernel.
- The DES wrappers in `sky/src/sky_base64.c` and the hexadecimal conversion in `sky/src/sky_str.c`.
- Library start-up and shutdown in `sky/src/sky.c`.
