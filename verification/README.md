# Verified models of the cache's data structures

The C cache in this repository keeps its data in an incrementally rehashed hash table, in
byte-packed lists, in sorted integer sets and in length-prefixed strings; the Python operator
beside it merges nested objects. This project models those five parts in Dafny and proves what
they are for.

Check it with `dafny verify dfyconfig.toml`.

## How the project is laid out

| files | part |
|---|---|
| `Words`, `Cursor` | 64-bit words as numbers with bits, `rev`, and the arithmetic of scan cursors |
| `DictState`, `DictOps`, `DictRuns`, `DictShrink`, `DictGrowth`, `DictRehashExtent` | the hash table as a value: its operations, whole runs, rehash bounds, the shrink policy, exactly when it grows, and exactly how far a rehash gets |
| `DictScan`, `DictScanExact`, `DictScanLimit`, `DictIter`, `DictRehashIter`, `DictSafeIter` | scanning and safe iteration, and exactly where their guarantees end |
| `DictHeap`, `DictTraversal`, `DictCron` | the hash table in memory: classes whose methods relink entries in place, each proved to do what the function of the same name does |
| `Bytes`, `Sequences`, `Memory` | little-endian integers, decimal numerals, regrouping of concatenations, `memcpy`, `memmove`, `realloc` |
| `ZipEntry`, `ZipNodes` | the entry codec of the ziplist, and its operations on a sequence of entries |
| `ZipBuffer`, `ZipData`, `ZipList`, `ZipCorner` | the ziplist in one byte buffer, and the corner in which insertion as written moves wrong bytes |
| `IntSet` | the integer set, as a finite set and as a buffer widened in place |
| `SdsBuffer`, `SdsNumber`, `SdsQuote`, `SdsGrammar`, `SdsWords`, `SdsSplit` | string buffers, integer printing, quoting and parsing, the grammar of argument lines, splitting and joining |
| `Merge`, `MergeExact` | the recursive merge, and exactly when it is idempotent |

Where the source changes something in place, the model is a class or a method with a loop; its
contract ties the new state to a function of the old one, and the theorems are about that
function. For the dictionary a ghost field `s` holds the value and a ghost field `cells` pictures
the linked objects; for the ziplist a ghost field `entries` holds the sequence of entries whose
bytes are in the buffer.

## Readings of the source

Some lines of the C code cannot be meant as they stand. The model follows what they are for:

- `src/dict.c:37`: assignment instead of comparison (the clearing loop itself is left out).
- `src/ziplist.c:95`: a one-byte back-length is stored in the length, not in the size.
- `src/ziplist.c:309`: the buffer is reallocated, keeping its bytes.
- `src/ziplist.c:338` and `341`: `p` and `zl` instead of `r` and `ZL`.
- `src/ziplist.c:475`: the length of a pushed string is not cut to one byte.
- `src/ziplist.c:487`: a negative index becomes `(-index) - 1`.
- `src/ziplist.c:535-545`: the payload goes to the output parameter it is meant for.
- `src/ziplist.c:578`: the missing test is that the lengths agree.
- `src/intset.c:164` and `166`: the value is passed on, not its encoding.
- `src/sds.c:232`: the test is for a missing vector.
- `src/sds.c:306` and `316`: the loop starts at 0 and compares bytes.
- `src/sds.c:651-654`: the new free length is stored.

Two limits are no slips, and are proved as limits:

- The scan loop (`src/dict.c:154`) counts the bits between the two table sizes upward from the
  cursor's own value. A call made during a rehash emits everything it passes, in every dictionary
  with those sizes, if and only if those bits are `0..01..1` (`DictScanLimit.CoverIsExact`); all
  zeros, which is what the loop's own guard tests, is one case of that. It always holds while
  tables only grow. `DictScanLimit.ShrinkLosesKey` gives a scan over a shrink that misses a key
  present at every call.
- Insertion (`src/ziplist.c:438-443`) resizes the buffer before it moves the bytes. In front of a
  five-byte back-length that becomes a one-byte one, an entry of two or three bytes shrinks the
  buffer. What is moved then differs from what was there, except after a three-byte entry when the
  list's last byte is 255 and the new end marker overwrites it with itself
  (`ZipCorner.MoveIntactUnlessCorner`, an if-and-only-if on the bytes). Such a list is reached by
  three appends and a deletion, and there the move runs past the block (`ZipCorner.CornerReached`).
  Insertion is proved everywhere else; a push at either end never meets the corner.

Six more properties hold only with a restriction, and the restriction is exact:

- During a safe iteration a key that has been returned and deleted may be added again. It is
  returned a second time if and only if its new entry stands ahead of the iterator, which a caller
  can tell from the table sizes and the iterator's place (`DictSafeIter.ReaddExactly`, with a
  concrete session in `DictSafeIter.ReaddedKeyReturnsTwice`). That calling `dictNext` often enough
  ends every iteration is `DictSafeIter.IterationEnds`.
- A safe iterator stops the rehash steps inside other operations, but an explicit `dictRehash`
  (`src/dict.c:471`) does not look at `iterators`. With no rehash running it does nothing. Otherwise,
  as long as it leaves the iterator where it stands, each key at the start is returned exactly once
  and no key twice if and only if no returned key is moved ahead of the iterator and, when the
  rehash ends, none that is still due comes to lie behind it (`DictSafeIter.RehashExactly`, with a
  concrete session in `DictSafeIter.RehashedKeyReturnsTwice`). Moving the bucket of the saved next
  entry makes that entry come again (`DictSafeIter.MovedNextComesAgain`), and ending the rehash under
  an iterator of the second table ends the iteration early (`DictSafeIter.RehashEndsIteration`).
- Merging a patch a second time changes nothing, on every base on which the first merge succeeds, if
  and only if merging the patch into a copy of itself succeeds and changes nothing
  (`MergeExact.IdempotentExactly`). Patches whose lists name each object once are of that kind
  (`Merge.MergeIdempotent`), and so are some that do not (`MergeExact.SameObjectTwice`);
  `Merge.RepeatedNameChangesAgain` is a patch that is not.
- What a patch does not mention keeps its value (`Merge.MergeFrame`). In a list element that the patch
  does name, this needs a name that stays itself when it is merged into itself, as every string and
  number does. A list or dictionary may be a name too, and any that does not stay itself breaks the
  property (`Merge.RenamedItemIsReached`; `Merge.NameThatChanges` is one).
- Words joined by white space split to just those words if and only if each run of white space
  behind a word starts with a space, tab, newline or return (`SdsWords.WordsSplit`). The parser skips
  vertical tabs and form feeds between arguments (`src/sds.c:139`), but does not end a word at them
  (`src/sds.c:206-212`).
- A text between apostrophes, with a backslash in front of each apostrophe in it, is read back if and
  only if it does not end in a backslash (`SdsWords.SingleQuotedRead`).

## Model

| member | source | states |
|---|---|---|
| Words.Rev | src/dict.c:164-172 | The six rounds of block swaps give the word with all 64 bits in reverse order |
| Words.ReversedTwice | src/dict.c:164-172 | Reversing the bits twice gives the word back |
| Words.ReversedBit | src/dict.c:164-172 | Bit `i` of the reversed word is bit `n - 1 - i` of the word |
| Cursor.LoopGuard | src/dict.c:155 | The loop guard holds exactly the bits of `v` between the two table sizes |
| Cursor.StepHighMid | src/dict.c:154 | The loop step keeps the low bits and counts the bits between the sizes up by one, wrapping to zero |
| Cursor.NextCursorPasses | src/dict.c:157-160 | One call moves the cursor's reversed value strictly up unless the scan ends, and everything passed over shares the bucket of `v` |
| Cursor.LoopCoversExactly | src/dict.c:148-155 | The loop over the larger table reaches every bucket still due if and only if the bits between the sizes are `0..01..1` |
| DictState.MoveBucketOk | src/dict.c:485-497 | Moving a bucket to the new table keeps every entry once, in its bucket, and the invariant of the rehash loop |
| DictState.RehashKeeps | src/dict.c:471-508 | Any number of rehash rounds from any valid state keeps the invariant and the bag of entries |
| DictOps.NextPowerOk | src/dict.c:79-86 | The size found is a power of two of at least 4, holds the request and is 4 or less than twice the request |
| DictOps.ExpandOk | src/dict.c:510-526 | Expanding keeps all entries; a refused expansion changes nothing |
| DictOps.ExpandIfNeededOk | src/dict.c:52-60 | Growing on demand never fails, keeps all entries and leaves a table to index |
| DictGrowth.GrowsExactly | src/dict.c:52-60 | A table at rest with as many entries as buckets, or six times as many without permission to resize, starts a rehash into the least power-of-two table for twice its entries; a dictionary without a table gets one of four buckets; in any other case nothing changes |
| DictOps.AddOk | src/dict.c:433-453 | In every state of a rehash, adding succeeds just when the key is absent and then adds just this pair to the map |
| DictOps.FindOk | src/dict.c:343-359 | Finding answers as the map does and leaves the map as it is |
| DictOps.DeleteOk | src/dict.c:385-416 | Deleting succeeds just when the key is present and removes just that key from the map |
| DictOps.ReplaceOk | src/dict.c:423-431 | Replacing sets the key's value in the map and reports whether the key is new |
| DictRuns.FreshDictIsEmpty | src/dict.c:95-103 | A new dictionary stands for the empty map |
| DictRuns.RunRefines | src/dict.c:343-453 | Every run of adds, finds, deletes, replaces, resizes and rehashes answers as the same run on a plain map, whatever the rehash is doing |
| DictRuns.TotalIsEntries | src/dict.c:471-508 | The two `used` counts together are the number of entries |
| DictRuns.StepAdvances | src/dict.c:105-107 | Without iterators one rehash step ends the rehash or moves the index on, inside the old table, and keeps the total |
| DictRuns.RehashEnds | src/dict.c:471-508 | A rehash with `left` buckets to go, whose new table has room for one new entry per further operation, ends within `left` operations and the entries then fit |
| DictRuns.GrowthEnds | src/dict.c:52-60 | A growth started by an add at least doubles the table, ends within as many further operations as the old table has buckets, and the entries then fit |
| DictGrowth.AddKeepsRoom | src/dict.c:433-446 | After an add a table at rest has no more entries than buckets, or than six times its buckets without permission to resize |
| DictGrowth.AddStartsRehash | src/dict.c:433-446 | An add starts a rehash just when the table is full after the add's own rehash step, and into the least table for twice the entries |
| DictGrowth.ResizesExactly | src/dict.c:528-534 | `dictResize` succeeds just when it is permitted, no rehash runs and the table has not the least size for its entries, and then makes a table of that size |
| DictRuns.RoundsMade | src/dict.c:343-453 | While a rehash goes on, a replacement of a present key makes two rounds of it and every other keyed operation one |
| DictRehashExtent.RehashExtent | src/dict.c:471-508 | A call of `dictRehash` stops when it has moved `n` buckets or stepped over `10 n` empty ones, and ends the rehash when all buckets in use come before that |
| DictRehashExtent.MoveChainOrder | src/dict.c:485-495 | Relinking a chain puts its entries, the last one first, in front of the chains they belong to |
| DictScan.EmitsOnlyEntries | src/dict.c:120-162 | A scan call emits only entries of the dictionary |
| DictScanExact.EmitsExactly | src/dict.c:120-162 | A call emits each entry of the cursor's bucket of the guiding table once, except those of the larger table whose bits between the sizes are below the cursor's, and nothing else |
| DictScanExact.EmitsOnce | src/dict.c:120-162 | No entry is emitted twice in a call, and every emitted one agrees with the cursor in the low bits |
| DictScanExact.EmitsInOrder | src/dict.c:135-156 | During a rehash the entries of the smaller table come first and those of the larger one in the order of their bits between the sizes |
| DictScanExact.EmptyEnds | src/dict.c:125 | A call on an empty dictionary emits nothing and ends the scan; on any other it ends the scan just behind the last bucket |
| DictScanExact.NotInTwoCalls | src/dict.c:120-162 | While the smaller table keeps its size, whatever else is done between the calls, no key is emitted in two calls of a scan |
| DictScan.CallEmitsPassed | src/dict.c:120-162 | Under the condition on the cursor, a call emits every entry whose reversed hash it passes over |
| DictScan.ScanAdvances | src/dict.c:120-162 | The cursor's reversed value goes up with every call until the scan ends |
| DictScan.ScanIsShort | src/dict.c:120-162 | While the smaller table never has more than 2^k buckets, a scan is over within 2^k calls, whatever is done between them |
| DictScan.ScanComplete | src/dict.c:120-162 | A scan from 0 back to 0 emits every key present throughout, whatever is added, deleted, rehashed or resized between the calls, under the condition on each call made while rehashing |
| DictScan.GrowingScanComplete | src/dict.c:120-162 | While tables only grow, the scan is complete with no condition on the cursor |
| DictScanLimit.CoverIsExact | src/dict.c:148-155 | The condition on a call is exact: it holds if and only if every valid rehashing dictionary with these sizes has everything passed emitted |
| DictScanLimit.ShrinkLosesKey | src/dict.c:120-162 | A concrete full scan over a shrink in which a key present at every call is never emitted |
| DictIter.NextOk | src/dict.c:266-295 | A call of `dictNext` returns a key that is due and leaves exactly the others due, or returns nothing only when nothing is due |
| DictIter.EndStays | src/dict.c:266-295 | After `dictNext` has returned nothing it keeps returning nothing |
| DictSafeIter.AddUndisturbed | src/dict.c:433-446 | An add during safe iteration, even one that starts a resize, changes what is due for no other key |
| DictSafeIter.DeleteUndisturbed | src/dict.c:385-416 | Deleting the entry just returned changes what is due for no other key |
| DictSafeIter.AddDueExactly | src/dict.c:433-446 | A key added during a safe iteration becomes due just when its entry is put ahead of the iterator |
| DictSafeIter.SafeIteration | src/dict.c:256-301 | In every session of a safe iteration, whatever is done in between, no key is returned twice; more calls than there are keys end it, and by then each key present at the start has been returned exactly once. Not allowed in between are the deletion of another entry than the one just returned, the add of a deleted key ahead of the iterator, and an explicit rehash that does harm or does not leave the iterator in its place |
| DictSafeIter.IterationEnds | src/dict.c:266-295 | More calls of `dictNext` than keys still due end an iteration, in any state of a rehash |
| DictSafeIter.ReaddExactly | src/dict.c:256-301 | Of adds of a deleted key: the promises are kept if and only if the key is not put ahead, and otherwise the calls that end the iteration return it a second time |
| DictSafeIter.ReaddedKeyReturnsTwice | src/dict.c:256-301 | A concrete session in which a key deleted and added again during a rehash is returned twice |
| DictRehashIter.StillRehashingDue | src/dict.c:471-508 | An explicit rehash that is not finished makes just those keys due that it moves ahead of the iterator, and leaves every due key due |
| DictRehashIter.FinishedDue | src/dict.c:498-505 | After one that is finished, just the keys in later buckets of the new table are due |
| DictSafeIter.RehashExactly | src/dict.c:471-508 | When an explicit rehash leaves the iterator in its place, no key is returned twice and each key at the start exactly once if and only if no returned key is moved ahead and, at its end, none still due comes to lie behind |
| DictSafeIter.MovedNextComesAgain | src/dict.c:471-508 | When it moves the bucket of the saved next entry, the next call returns that entry and it then stands ahead in the second table |
| DictSafeIter.RehashEndsIteration | src/dict.c:471-508 | When it drops the table under an iterator between buckets, or leaves one too short for it, the next call ends the iteration |
| DictSafeIter.RehashedKeyReturnsTwice | src/dict.c:471-508 | A concrete session in which the first key is returned, one bucket is rehashed, and the key is returned again |
| DictShrink.ShrinkStarts | src/cache.c:432-444 | When the policy asks for it, resizing is enabled and no rehash runs, `dictResize` succeeds and starts a rehash into the least power-of-two table that holds the entries |
| DictShrink.ShrinkSettles | src/cache.c:432-444 | When that rehash is over, the table is the least one that fits, the contents are the same and the policy does not ask again |
| DictShrink.RoundsEnd | src/dict.c:471-508 | One round per bucket of the old table always ends a rehash, whether or not an iterator is open |
| DictGrowth.PolicyExactly | src/cache.c:432-438 | The policy asks for a resize just when the tables have more than four buckets, hold something, and hold less than a tenth of their buckets |
| DictCron.HtNeedsResize | src/cache.c:432-438 | Computes the policy from the table sizes and counts in memory |
| DictCron.TriedOk | src/cache.c:440-444 | The policy loses no entry, leaves a running rehash alone, and otherwise starts one just when it asks for it |
| DictCron.TryResizeHashTables | src/cache.c:440-444 | Both dictionaries of a database are resized as the policy says, each without touching the other |
| DictHeap.Dict.constructor | src/dict.c:95-103 | A new dictionary is valid and empty |
| DictHeap.Dict.MoveEntry | src/dict.c:486-495 | Relinking one entry puts it at the front of its chain in the new table, leaves every other chain linked, and moves one unit of `used` |
| DictHeap.Dict.RelinkChain | src/dict.c:485-495 | The inner loop relinks the whole chain: the new table becomes that of `MoveChain` |
| DictHeap.Dict.MoveBucket | src/dict.c:485-497 | One round in memory does what `DictState.MoveBucket` does |
| DictHeap.Dict.Rehash | src/dict.c:471-508 | Rehashing the linked tables in place gives the value that `DictState.Rehash` gives, and keeps validity |
| DictHeap.Dict.RehashStep | src/dict.c:105-107 | One step in memory, skipped while a safe iterator is open |
| DictHeap.NextPowerLoop | src/dict.c:79-86 | The doubling loop computes `DictOps.NextPower` |
| DictHeap.Dict.Expand | src/dict.c:510-526 | Allocates the first or the second table as `DictOps.Expand` says, or fails and changes nothing |
| DictHeap.Dict.ExpandIfNeeded | src/dict.c:52-60 | Grows in memory as `DictOps.ExpandIfNeeded` says |
| DictHeap.Dict.Resize | src/dict.c:528-534 | Resizes in memory as `DictOps.Resize` says |
| DictHeap.Dict.Walk | src/dict.c:396-412 | Following the `next` pointers of a chain finds the entry with the key and the one before it |
| DictHeap.Dict.KeyIndex | src/dict.c:62-77 | Finds the bucket for a new key in the table new entries go to, or -1 when the key is in either table |
| DictHeap.Dict.Add | src/dict.c:433-453 | Adds in memory as `DictOps.Add` says; entries of other keys stay the same objects |
| DictHeap.Dict.Find | src/dict.c:343-359 | Returns the object holding the key just when the map has it |
| DictHeap.Dict.Replace | src/dict.c:423-431 | Replaces in memory as `DictOps.Replace` says |
| DictHeap.Dict.Unlink | src/dict.c:396-408 | Taking an entry out of its chain leaves the other entries linked in order |
| DictHeap.Dict.Delete | src/dict.c:385-416 | Deletes in memory as `DictOps.Delete` says; entries of other keys stay the same objects |
| DictTraversal.EmitChain | src/dict.c:129-133 | Following a chain passes its entries to the callback in order |
| DictTraversal.Scan | src/dict.c:120-162 | The scan over the linked tables emits and returns what `DictScan.Emits` and `DictScan.Next` say |
| DictTraversal.SafeIterator.SkipToEntry | src/dict.c:268-288 | Loads buckets until one has an entry: stops where `DictIter.Seek` says, or past the last bucket when there is none |
| DictTraversal.SafeIterator.Next | src/dict.c:266-295 | The iterator over the linked tables returns what `DictIter.Next` says and ends up at the same place, on a returned entry and at the end |
| DictTraversal.SafeIterator.Release | src/dict.c:256-264 | Releasing gives back the lock on rehashing if one was taken, whether or not the iterator has reached the end |
| DictTraversal.AllKeys | src/dict.c:256-301 | Iterating until nothing is returned and releasing gives each key exactly once, in any state of a rehash, and leaves the dictionary's value and objects as they were |
| DictTraversal.SafeIterator.AddDuring | src/dict.c:433-453 | Adding through the dictionary keeps an open iterator valid and every other key due or not as before |
| DictTraversal.SafeIterator.DeleteDuring | src/dict.c:385-416 | So does deleting the entry just returned |
| Bytes.LoadStored | src/intset.c:23-60 | A signed value that fits in `n` bytes is read back from them |
| Bytes.String2llExact | src/util.h:14 | `string2ll` accepts exactly the canonical decimal numerals of 64-bit integers |
| Bytes.DigitsRead | src/sds.c:16-19 | A numeral spells its number, with digits only and no leading zero |
| Bytes.DecimalUnique | src/sds.c:16-19 | A numeral is canonical for at most one number |
| Bytes.DecimalLength | src/sds.c:10 | The numeral of a 64-bit integer has at most 20 characters |
| Memory.MemMove | src/ziplist.c:345-347 | Moving in place, in either direction, is as if through a copy |
| Memory.Realloc | src/ziplist.c:308-313 | A reallocated block keeps the bytes that fit |
| ZipEntry.StrHeaderRead | src/ziplist.c:60-81 | Every string length is read back from its 1, 2 or 5-byte header |
| ZipEntry.Save24 | src/ziplist.c:239-242 | The upper three bytes of the shifted value are its 24-bit two's complement |
| ZipEntry.IntegerRead | src/ziplist.c:227-287 | Every 64-bit integer is read back from the encoding picked for it, immediates and 24-bit ones included |
| ZipEntry.BodyRoundTrip | src/ziplist.c:140-287 | Whatever string is inserted, what is written for it decodes to the 64-bit integer of which it is the canonical numeral, if there is one, and otherwise to the string |
| ZipEntry.BodyIsShort | src/ziplist.c:60-164 | The integer's payload has the least of 0, 1, 2, 3, 4 and 8 bytes that holds it, and the string's header the least of 1, 2 and 5 that holds its length |
| ZipEntry.PrevRead | src/ziplist.c:82-125 | A back-length is read back from one or from five bytes, and never starts with the end marker |
| ZipEntry.EntryRead | src/ziplist.c:133-138 | The fields and the raw size of an entry are read back from its bytes, whatever follows |
| ZipEntry.SameBytesSameNode | src/ziplist.c:289-296 | The bytes of an entry determine the entry and what follows it |
| ZipNodes.ParseUnique | src/ziplist.c:289-296 | A buffer parses one way only: two entry lists with the same bytes are the same |
| ZipNodes.CascadeOk | src/ziplist.c:315-362 | From a list valid except for one back-length, the cascade makes every back-length the size of the entry before, with the same payloads and the entries before it untouched |
| ZipNodes.CascadeWidths | src/ziplist.c:333-359 | The cascade never narrows a back-length and widens one only for a value that needs five bytes |
| ZipNodes.InsertOk | src/ziplist.c:410-471 | Insertion at any place gives a valid list that decodes to the old strings with the new one at that place |
| ZipNodes.DeleteOk | src/ziplist.c:364-408 | Deletion of `num` entries at any place, or of as many as there are, gives a valid list that decodes to the old strings without that range |
| ZipNodes.InsertValues | src/ziplist.c:410-471 | The same with integers and strings told apart: insertion puts just one value in |
| ZipNodes.DeleteValues | src/ziplist.c:364-408 | Deletion takes out just the values of the range |
| ZipNodes.InsertWidths | src/ziplist.c:410-471 | The back-lengths of the new entry and of the one behind it take their least sizes; every other one keeps its size unless it has to grow |
| ZipNodes.DeleteWidths | src/ziplist.c:364-408 | The same for the entry behind the deleted ones and those after it |
| ZipNodes.StepBackStaysInside | src/ziplist.c:378-381 | Stepping back to write a wider back-length never runs before the first deleted entry |
| ZipCorner.MoveIntactUnlessCorner | src/ziplist.c:438-443 | After the resize, the bytes to be moved are inside the block and have their old values if and only if the insertion is outside the corner, whatever the block holds beyond the old bytes |
| ZipCorner.StaleWideField | src/ziplist.c:351-358 | How a five-byte back-length holding a small value comes about |
| ZipCorner.CornerReached | src/ziplist.c:410-443 | Three appends and a deletion lead to a list in the corner, where the bytes to be moved are not intact and reach past the block |
| ZipBuffer.Resize | src/ziplist.c:308-313 | The resized buffer keeps its bytes and gets its new total and its end marker |
| ZipBuffer.Widened | src/ziplist.c:333-348 | Resizing, moving and writing five bytes over one leaves everything around the field in place |
| ZipBuffer.Opened | src/ziplist.c:438-444 | Resizing, moving and rewriting the next back-length opens just the room asked for |
| ZipData.PrevStep | src/ziplist.c:516-528 | Stepping back by a back-length reaches the entry before, and it is zero only at the first entry |
| ZipData.NoCornerAtEnds | src/ziplist.c:473-481 | A push at either end of a valid list is never in the corner |
| ZipList.ZipList.constructor | src/ziplist.c:298-306 | A new list is valid and empty |
| ZipList.ZipList.EntryAt | src/ziplist.c:289-296 | Reading at an entry's pointer gives its fields, and its size leads to the next entry or the end marker |
| ZipList.ZipList.Widen | src/ziplist.c:333-348 | The buffer holds the list with the back-length widened, and the tail offset is right |
| ZipList.ZipList.CascadeUpdate | src/ziplist.c:315-362 | The cascade ends, and the buffer holds the entries that `ZipNodes.Cascade` gives, with the right total and tail offset |
| ZipList.ZipList.OpenGap | src/ziplist.c:438-444 | Outside the corner, the bytes after the insertion point are moved along and the next back-length is rewritten |
| ZipList.ZipList.Insert | src/ziplist.c:410-471 | Outside the corner, the buffer is valid again, its strings are the old ones with the new one at its place, kept as an integer just when it is a numeral, and the length in the header goes up by one until it is 65535 |
| ZipList.ZipList.PullBack | src/ziplist.c:378-381 | The back-length written in front of the remaining entries leaves those before the deleted ones untouched |
| ZipList.ZipList.CloseGap | src/ziplist.c:391-400 | Moving the remaining entries down and cutting the buffer leaves just the entries before and after |
| ZipList.ZipList.Delete | src/ziplist.c:364-408 | The buffer is valid again, its values are the old ones without the range of `num` entries or as many as there are, and the length in the header goes down with them unless it is 65535 |
| ZipList.ZipList.DeleteRange | src/ziplist.c:563-567 | Removes the range at an index, which counts from the back when it is 2^31 or more and so negative as an `int`, or nothing when there is no entry there |
| ZipList.ZipList.Push | src/ziplist.c:473-481 | A push at the head or the tail puts the string there, with no corner to exclude |
| ZipList.ZipList.Index | src/ziplist.c:483-503 | An index from the front and the same place counted from the back find the same entry; others find none |
| ZipList.ZipList.Next | src/ziplist.c:505-514 | Leads from each entry to the next one |
| ZipList.ZipList.Prev | src/ziplist.c:516-528 | Undoes `Next`, and leads from the end marker to the last entry |
| ZipList.ZipList.Length | src/ziplist.c:632-647 | The true number of entries, because the header's is exact or 65535; a recount that fits is stored |
| ZipList.ZipList.Get | src/ziplist.c:530-549 | The value of the entry: the integer a numeral was inserted as, or the string |
| ZipList.ZipList.Compare | src/ziplist.c:569-590 | True just when the entry holds the string, however it is encoded |
| ZipList.ZipList.Find | src/ziplist.c:592-630 | The first entry holding the string among every `skip + 1`-th, or none of these holds it |
| IntSet.ValueEncoding | src/intset.c:14-21 | The value fits the encoding, and no narrower one holds it |
| IntSet.AddedOk | src/intset.c:158-178 | Adding keeps the elements strictly sorted and fitting, widens the encoding only to the least one that holds the new value, and changes something just when the value is new |
| IntSet.RemovedOk | src/intset.c:180-195 | Removing keeps all that and changes something just when the value is there |
| IntSet.RunRefinesSet | src/intset.c:158-200 | From any valid set every list of operations answers as the same list on a finite set, flag by flag; contents stay sorted and fitting, and the encoding never narrows |
| IntSet.WidenNext | src/intset.c:126-128 | The next element to rewrite is intact, and writing it wide leaves every element not yet read intact |
| IntSet.OutsideAll | src/intset.c:118-135 | A value that needs a wider encoding goes first if negative and last otherwise |
| IntSet.IntSet.constructor | src/intset.c:62-67 | A new set is valid, empty and of the narrowest encoding |
| IntSet.IntSet.GetEncoded | src/intset.c:23-42 | Reads the element stored at a place in the given encoding |
| IntSet.IntSet.Search | src/intset.c:75-116 | Finds the value, or the place where it belongs |
| IntSet.IntSet.WidenAll | src/intset.c:126-128 | The back-to-front loop leaves every old element wide at its new place |
| IntSet.IntSet.UpgradeAndAdd | src/intset.c:118-135 | The set in memory becomes that of `Added`, in the wider encoding |
| IntSet.IntSet.MoveTail | src/intset.c:137-156 | Moves the elements from one place on, each of them arriving whole, and keeps those before the new place |
| IntSet.IntSet.Add | src/intset.c:158-178 | State and success flag are those of the abstract step |
| IntSet.IntSet.Remove | src/intset.c:180-195 | State and success flag are those of the abstract step |
| IntSet.IntSet.Find | src/intset.c:197-200 | Membership |
| IntSet.IntSet.Get | src/intset.c:206-212 | The element at a place, if there is one |
| SdsNumber.ReverseText | src/sds.c:22-29 | The in-place loop reverses the text and leaves the rest of the buffer |
| SdsNumber.WriteDigits | src/sds.c:16-19 | The digit loop writes the digits from the last to the first, at most 20 of them |
| SdsNumber.PrintUnsigned | src/sds.c:12-31 | For every 64-bit unsigned value the buffer holds its canonical numeral and a NUL, in 21 bytes |
| SdsNumber.PrintSigned | src/sds.c:33-56 | The same for every signed value above the least |
| SdsBuffer.Sds.constructor | src/sds.c:664-680 | A new string holds what it is given |
| SdsBuffer.Sds.MakeRoomFor | src/sds.c:638-655 | Keeps the contents, gives the room asked for, does nothing when there is room, and otherwise grows by the stated rule |
| SdsBuffer.Sds.CatLen | src/sds.c:586-597 | Appends any bytes and keeps the string terminated |
| SdsQuote.EscapeRead | src/sds.c:148-189 | The parser reads each printed byte back, whatever byte it is |
| SdsQuote.QuotingRoundTrip | src/sds.c:133-283 | Parsing the printed forms of any byte strings, separated by spaces, gives exactly those strings |
| SdsWords.EscapeForm | src/sds.c:255-279 | Each of the seven special bytes is printed as its two-byte escape, any other printable byte as itself, and just the rest with two lower-case hexadecimal digits |
| SdsWords.PlainPrinted | src/sds.c:250-283 | A text of printable bytes without special ones is printed as it is, between quotes |
| SdsWords.PrintedIsPrintable | src/sds.c:250-283 | Every byte of a printed form is printable, when those of ASCII from 32 to 126 are |
| SdsGrammar.ItemsRead | src/sds.c:148-222 | The parts of an argument, outside quotes or inside either kind, are read one after the other as the bytes they mean, in their order |
| SdsGrammar.SplitExactly | src/sds.c:133-248 | A text splits to what the arguments of a line mean if and only if it is such a line, and fails if and only if it has quotes left open or closed before a byte that is neither white space nor the end |
| SdsWords.WordsSplit | src/sds.c:204-222 | Words without quotes, joined by white space, split to just those words if and only if none has a vertical tab or form feed right behind it |
| SdsWords.SingleQuotedRead | src/sds.c:188-203 | A single-quoted text is read back if and only if it does not end in a backslash |
| SdsQuote.CatRepr | src/sds.c:250-283 | Appends the printed form to the buffer |
| SdsQuote.ReadRound | src/sds.c:148-225 | One round of the inner loop does what `NextRound` says and reads nothing beyond the terminating NUL |
| SdsQuote.SplitArgs | src/sds.c:133-248 | The two loops compute the arguments that `Split` gives, or fail just when it does |
| SdsSplit.SplitFromOk | src/sds.c:306-327 | The tokens rebuild the string and are its leftmost non-overlapping split |
| SdsSplit.LeftmostUnique | src/sds.c:293-331 | A string has only one leftmost split |
| SdsSplit.SplitJoin | src/sds.c:58-68 | Joining the tokens of a NUL-free string with the separator rebuilds it, and no token contains the separator |
| SdsSplit.JoinCBetween | src/sds.c:58-68 | Joining two lists in one is joining each and putting the separator between; a single string is taken up to its first NUL |
| SdsSplit.SplitLen | src/sds.c:293-331 | The scanning loop computes that split |
| SdsSplit.JoinAll | src/sds.c:58-68 | The joining loop builds the C strings with the separator in between |
| Merge.FieldSettles | utils/base_utils.py:76-116 | What a successful merge leaves at a key absorbs the same patch value |
| Merge.ItemsIdempotent | utils/base_utils.py:96-109 | Merging a list of distinctly named objects again changes nothing |
| Merge.MergeIdempotent | utils/base_utils.py:57-116 | After a successful merge of a well-named patch, merging it again succeeds and changes nothing |
| Merge.RepeatedNameChangesAgain | utils/base_utils.py:96-109 | A patch with a repeated name whose second merge changes the result of the first |
| MergeExact.IdempotentExactly | utils/base_utils.py:57-116 | A patch merges idempotently into every base on which it succeeds if and only if merging it into itself succeeds and changes nothing |
| MergeExact.SameObjectTwice | utils/base_utils.py:96-109 | A patch with a repeated name that merges idempotently into every base all the same |
| MergeExact.FieldsApart | utils/base_utils.py:76-116 | A successful merge of a list of fields does at each key what merging the values of that key alone, in their order, does there |
| MergeExact.ItemsApart | utils/base_utils.py:96-109 | A successful merge of a list of objects does at each name what merging the objects of that name alone, in their order, does there |
| MergeExact.SuffixKept | utils/base_utils.py:57-116 | A value that a run of merges leaves unchanged, and that starts the run, is left unchanged by every tail of the run |
| MergeExact.RunTwice | utils/base_utils.py:57-116 | When the first value of a run of merges is left unchanged by the run, so is the result of that run on any start on which it works |
| Merge.MergeFrame | utils/base_utils.py:57-116 | Whatever the patch does not mention keeps its value at every depth, even when the merge fails halfway: through dictionaries, and through list elements that are unnamed, not named by the patch, or named by it any number of times |
| Merge.FindNamedExactly | utils/base_utils.py:69-74 | The search stops at the first element that is no object of another name, and finds it or fails by what is wrong with it |
| Merge.FieldFailure | utils/base_utils.py:77-116 | Which failure the merge of one key is, and what it leaves behind |
| Merge.ItemFailure | utils/base_utils.py:96-109 | Which failure the merge of one list element is, and what it leaves behind |
| Merge.RenamedItemIsReached | utils/base_utils.py:69-74 | For every name that merging into itself changes, a list and a patch in which a value changes that no object of the element's name mentions |
| Merge.NameThatChanges | utils/base_utils.py:69-74 | There is such a name: a dictionary with a list that names an object twice |
| Merge.GetNamedObject | utils/base_utils.py:69-74 | The first object of that name, or the failure met before it |
| Merge.MergePatchObject | utils/base_utils.py:57-116 | The outer loop computes the merged dictionary and the error |
| Merge.MergeOneField | utils/base_utils.py:77-116 | The branches for one key of the patch |
| Merge.MergeList | utils/base_utils.py:96-109 | The loop over a list of named objects |

## Left out

- Keys are compared with `==`: a key comparison of a dictionary type is taken to be equality on an abstract type of keys, and the hash function is any function of the key.
- `dictFingerPrint` and unsafe iterators: the fingerprint only detects misuse, and the unsafe iterator otherwise moves as the safe one does.
- DictSafeIter.SafeIteration: does not allow an explicit `dictRehash` that moves the bucket of the saved next entry or drops the table under the iterator; how the iterator goes on along the chain of a saved next entry that has moved is not part of this model.
- `dictGetRandomKey`, `dictGetSomeKeys` and `insertRandom`: they rest on `random()`.
- `dictRehashMilliseconds` and `incrmentallyRehash`: clock-driven repetitions of `dictRehash`.
- `_dictClear`, `dictEmpty`, `dictRelease`, the key and value destructors and duplicators: allocation and freeing are not modelled, and allocation always succeeds.
- Table sizes and counts of a dictionary are unbounded numbers, except where a scan needs a table to fit a word: the cut-off of `_dictNextPower` at `LONG_MAX`, the `int` index of `dictAddRaw`, the 32-bit product `n * 10` in `dictRehash` and the `int` variable in which `dictResize` keeps the number of entries (`src/dict.c:529-532`) are not modelled.
- The words of a cursor are numbers below 2^64 with bits defined by division; the machine's operators are modelled by functions on them.
- ZipList.ZipList.Insert: excludes exactly the corner in which the source moves wrong bytes, and requires that the resulting buffer's size fits its 32-bit field, as the source does not check it.
- ZipList.ZipList.Delete: requires that the resulting buffer's size fits its 32-bit field; a cascade after a deletion can make the buffer larger.
- ZipList.ZipList.Index: the pointer arithmetic is on offsets into the buffer; the negation of the least `int` is not modelled.
- `zipListRepr` and `zipListBlobLen`: printing, and a field that is part of every contract.
- IntSet.IntSet.Add: requires that the resulting buffer's size fits 32 bits, as the source does not check it; so does `IntSet.IntSet.UpgradeAndAdd`.
- The byte order is little-endian, so the `intrev` and `memrev` conversions do nothing; `src/endianconv.c` is not part of this model.
- `string2ll` is declared in `src/util.h` and not defined in the repository; it is modelled as accepting exactly canonical numerals.
- SdsBuffer.Sds.MakeRoomFor: requires that the capacity to grow to, when there is too little room, fits the 32-bit header fields, as the source does not check it; `SdsBuffer.Sds.CatLen`, `SdsQuote.CatRepr` and `SdsSplit.JoinAll` require just that of each of their appends, and the constructor of its one string.
- SdsNumber.PrintSigned: the least 64-bit value is excluded, because its negation is undefined in C.
- SdsQuote.SplitArgs: the arguments are byte sequences rather than string buffers, and growing the vector is not modelled; `isspace` is that of the C locale, and `isprint` is any predicate that is false at NUL.
- SdsSplit.SplitLen: the tokens are byte sequences, and the doubling of the token array is not modelled.
- `sdsRange`, `sdsTrim`, `sdsMapChars`, `sdsCmp`, `sdsCatFmt`, `sdsCatPrintf`: further string helpers and formatting; the two formats that quoting uses are modelled directly.
- MergeExact.IdempotentExactly: the patch is a dictionary in which dictionaries have distinct keys, as every Python dictionary has, and no list or dictionary serves as a name unless merging it into itself fails or leaves it as it is.
- Merge.MergePatchObject: dictionaries are values, so sharing between base and patch is not modelled; numbers are integers and equality of names is structural, so Python's `True == 1` is not modelled. Messages and the `prefix` argument, which only serves them, are left out.
- The operator's handlers and resource builders, `EphemeralState`, the HTTP upload, and the rest of `src/cache.c`: calls into Kubernetes, sockets, signals and commands.
- `src/adlist.c` and `src/zmalloc.c`: list splices and accounting around the allocator.
