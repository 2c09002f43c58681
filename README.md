# Cyclic buffer in Dafny

This project models `Ring_buffer<T>`, the generic circular buffer in
`Cyclic_buffer/Cyclic_buffer/Program.cs`. The buffer stores up to *capacity*
elements in one backing array. `m_head` is the slot of the oldest element and
`m_size` is the element count. `m_tail` is one-based: it is the slot after the
newest element, and both `m_capacity` and 0 stand for slot 0. A new buffer
starts at 0, and some shrinking loops leave the tail there. The flag
`AllowOverWrite` decides what a full buffer does on insertion: it either
refuses with an overflow error or overwrites its oldest element.

The project has three modules:

- `RingModel` (`ring_model.dfy`) is the value-level vocabulary. It has the
  buffer's error messages as a datatype, and `Phys`, which maps a logical
  position to a slot. `View` gives the sequence that a block, a head and a size
  denote. It also has the sequence edits the operations perform (`Push`,
  `PushAll`, `Latest`, `Reversed`, `Rotated`, `RemoveAt`, `Fill`) and the
  lemmas that relate them.
- `RingBuffers` (`ring_buffer.dfy`) is the buffer itself: the class
  `RingBuffer` over an `array<T>`, with the source's fields and one method or
  function per public member. Each one is specified against the ghost
  `Contents()`, the logical sequence oldest first. Its object invariant
  `Valid()` says that size is within capacity, head is a slot, and the
  one-based tail agrees with head + size modulo capacity. Every method keeps
  that invariant. Thrown exceptions become `Err`/`Fail` results that carry
  the `MyExceptions` constant the throw site passes.
- `AsWritten` (`as_written.dfy`) models, on integer sequences, the members
  whose code does not do what their comments and names promise (see
  "## Findings"). Its functions follow the source's index arithmetic step by
  step, including indices that leave the array. Each finding has a lemma that
  evaluates one concrete input. `RingBuffers` holds the corrected behaviour.

## Model

| member | source | states |
|---|---|---|
| RingModel.RangeInput | Cyclic_buffer/Cyclic_buffer/Program.cs:586-596 | the elements a bulk insertion offers are `xs[startIndex..]`, at most `count` of them, as far as the input reaches, and none for a negative count |
| RingModel.Phys | Cyclic_buffer/Cyclic_buffer/Program.cs:673-678 | logical position i of a buffer with head h is slot h+i, or h+i-capacity once the walk has wrapped past the end, and it is always a valid slot |
| RingModel.Next | Cyclic_buffer/Cyclic_buffer/Program.cs:761-766 | advancing the head (with wrap to 0 at capacity) stays a valid slot |
| RingModel.Prev | Cyclic_buffer/Cyclic_buffer/Program.cs:373-378 | stepping the head back (with wrap to capacity-1 at -1) stays a valid slot and is undone by advancing |
| RingModel.TailAgrees | Cyclic_buffer/Cyclic_buffer/Program.cs:540-578 | the one-based tail convention: for a well-formed buffer, a tail agrees with head and size exactly when it names (with capacity and 0 both meaning slot 0) the next free slot, or the head when the buffer is full |
| RingModel.CopyCount | Cyclic_buffer/Cyclic_buffer/Program.cs:714 | TrueCount of CopyTo and Get(array, ...) with the clamp at 0 added: the largest count that is within count, size and the room in the array, and 0 only when one of them is 0 or less |
| RingModel.LastSlot | Cyclic_buffer/Cyclic_buffer/Program.cs:457 | the slot that `m_tail - 1` reads, with a tail of 0 wrapped to slot capacity-1: it is a slot, and the slot after it is the one the tail names |
| RingModel.FirstIndex | Cyclic_buffer/Cyclic_buffer/Program.cs:838-846 | the position of the first occurrence: it holds x and no earlier position does |
| RingModel.FirstIndexUnique | Cyclic_buffer/Cyclic_buffer/Program.cs:838-846 | a position that holds x, with no earlier occurrence, is exactly the first occurrence |
| RingModel.RemoveFirstOccurrence | Cyclic_buffer/Cyclic_buffer/Program.cs:831-879 | removing the first occurrence of x shortens the sequence by one and keeps everything before it and the order of everything after it |
| RingModel.Latest | Cyclic_buffer/Cyclic_buffer/Program.cs:530-581 | keeping the latest n elements yields min(length, n) of them |
| RingModel.Push | Cyclic_buffer/Cyclic_buffer/Program.cs:540-578 | one insertion grows a non-full buffer by one and keeps a full one at capacity |
| RingModel.PushAll | Cyclic_buffer/Cyclic_buffer/Program.cs:596-638 | a run of insertions never exceeds the capacity |
| RingModel.PushIsLatest | Cyclic_buffer/Cyclic_buffer/Program.cs:540-578 | one insertion under the overwrite policy leaves the latest capacity elements of old contents + [x] |
| RingModel.PushAllIsLatest | Cyclic_buffer/Cyclic_buffer/Program.cs:596-638 | any run of insertions leaves the latest capacity elements of old contents + inserted elements |
| RingModel.PushAllAppends | Cyclic_buffer/Cyclic_buffer/Program.cs:594-611 | insertions that fit append in order and overwrite nothing |
| RingModel.PushAllFullWindow | Cyclic_buffer/Cyclic_buffer/Program.cs:594-638 | inserting exactly capacity elements leaves precisely those elements |
| RingModel.ReversedInvolution | Cyclic_buffer/Cyclic_buffer/Program.cs:389-412 | reversing twice restores the contents |
| RingModel.RotatedBack | Cyclic_buffer/Cyclic_buffer/Program.cs:923-953 | rotating by k and then by length-k restores the contents |
| RingModel.FillGrows | Cyclic_buffer/Cyclic_buffer/Program.cs:316-326 | n+1 copies of item are one more copy at either end of n copies |
| RingModel.TailForward | Cyclic_buffer/Cyclic_buffer/Program.cs:540-552 | advancing the one-based tail (capacity wraps to 1) after a non-full insertion keeps tail and head + size in agreement |
| RingModel.TailBack | Cyclic_buffer/Cyclic_buffer/Program.cs:912-918 | moving the tail back one slot after dropping the newest element keeps tail and head + size in agreement |
| RingModel.HeadBack | Cyclic_buffer/Cyclic_buffer/Program.cs:371-382 | moving the head back one slot to add an element at the front keeps the buffer well formed, with the tail unchanged |
| RingModel.PhysInjective | Cyclic_buffer/Cyclic_buffer/Program.cs:673-678 | distinct logical positions occupy distinct slots |
| RingModel.LastSlotHoldsLast | Cyclic_buffer/Cyclic_buffer/Program.cs:450-458 | the slot before the one-based tail (slot capacity-1 when tail is 0) holds the newest element |
| RingModel.ViewAppend | Cyclic_buffer/Cyclic_buffer/Program.cs:540-578 | writing x into the slot after the newest element of a non-full buffer appends x to the contents |
| RingModel.ViewPrepend | Cyclic_buffer/Cyclic_buffer/Program.cs:373-380 | writing x into the slot before the head of a non-full buffer and moving the head there prepends x |
| RingModel.ViewOverwrite | Cyclic_buffer/Cyclic_buffer/Program.cs:553-578 | on a full buffer, writing x into the head slot and advancing the head drops the oldest element and appends x |
| RingModel.ViewDropFirst | Cyclic_buffer/Cyclic_buffer/Program.cs:884-900 | advancing the head and shrinking the size drops precisely the oldest element |
| RingModel.ViewDropLast | Cyclic_buffer/Cyclic_buffer/Program.cs:301-311 | shrinking the size keeps the oldest elements and drops the newest |
| RingModel.ViewDropPrefix | Cyclic_buffer/Cyclic_buffer/Program.cs:356-366 | moving the head n slots forward and shrinking the size by n drops the n oldest elements |
| RingModel.ViewShift | Cyclic_buffer/Cyclic_buffer/Program.cs:417-432 | on a full buffer, moving the head k slots forward rotates the contents by k |
| RingModel.ViewRotated | Cyclic_buffer/Cyclic_buffer/Program.cs:927-953 | rotating the slot range that holds the unwrapped contents rotates the contents the same way |
| RingModel.ViewFrame | Cyclic_buffer/Cyclic_buffer/Program.cs:123-141 | two blocks that agree on the occupied slots denote the same contents |
| RingModel.ViewUnwrapped | Cyclic_buffer/Cyclic_buffer/Program.cs:250-253 | contents that do not cross the end of the array are one slice of it |
| RingModel.ViewWrapped | Cyclic_buffer/Cyclic_buffer/Program.cs:463-506 | contents that cross the end of the array are the slice from head to the end followed by the slice from 0 |
| RingModel.ShiftDone | Cyclic_buffer/Cyclic_buffer/Program.cs:859-869 | once every element after position j has moved one position forward, the contents minus their last position are the old contents without position j |
| RingModel.ReversalDone | Cyclic_buffer/Cyclic_buffer/Program.cs:394-409 | once the outer pairs up to the middle are swapped, the contents are reversed |
| RingModel.RotationDone | Cyclic_buffer/Cyclic_buffer/Program.cs:929-950 | when the swap loop's two cursors meet, the range [first, last) holds its rotation and the rest of the array is unchanged |
| RingBuffers.RingBuffer.Empty | Cyclic_buffer/Cyclic_buffer/Program.cs:43-61 | a new buffer of the given capacity is empty, with head and tail 0 and the given overwrite flag |
| RingBuffers.RingBuffer.Filled | Cyclic_buffer/Cyclic_buffer/Program.cs:63-85 | a new buffer of capacity n holds n copies of item |
| RingBuffers.RingBuffer.FilledTo | Cyclic_buffer/Cyclic_buffer/Program.cs:87-119 | a new buffer of the given capacity holds n copies of item, with the tail after them |
| RingBuffers.RingBuffer.Copy | Cyclic_buffer/Cyclic_buffer/Program.cs:123-146 | the copy has its own array of the same capacity, the same head, size and tail, the same contents, and the given overwrite flag |
| RingBuffers.RingBuffer.Make | Cyclic_buffer/Cyclic_buffer/Program.cs:43-61 | a negative capacity is refused with CapacityLessThanZero; otherwise the result is a fresh empty buffer |
| RingBuffers.RingBuffer.MakeFilled | Cyclic_buffer/Cyclic_buffer/Program.cs:63-85 | a negative size is refused with CapacityLessThanZero; otherwise the result holds n copies of item |
| RingBuffers.RingBuffer.MakeFilledTo | Cyclic_buffer/Cyclic_buffer/Program.cs:87-119 | refuses a negative capacity, a negative size and a size over capacity, in that order and with those messages; otherwise the result holds n copies of item |
| RingBuffers.RingBuffer.Capacity | Cyclic_buffer/Cyclic_buffer/Program.cs:158-163 | the capacity bounds the number of elements |
| RingBuffers.RingBuffer.Size | Cyclic_buffer/Cyclic_buffer/Program.cs:184-190 | the size is the number of elements held |
| RingBuffers.RingBuffer.Reserve | Cyclic_buffer/Cyclic_buffer/Program.cs:192-198 | reserve plus the number of elements is the capacity |
| RingBuffers.RingBuffer.Head | Cyclic_buffer/Cyclic_buffer/Program.cs:200-206 | the head is a slot of a non-empty array |
| RingBuffers.RingBuffer.Tail | Cyclic_buffer/Cyclic_buffer/Program.cs:208-214 | returns the one-based tail field, which is at most the capacity, and the slot before it holds the newest element |
| RingBuffers.RingBuffer.SetAllowOverWrite | Cyclic_buffer/Cyclic_buffer/Program.cs:216-227 | sets the overwrite flag and changes nothing else |
| RingBuffers.RingBuffer.IsEmpty | Cyclic_buffer/Cyclic_buffer/Program.cs:234-237 | true exactly when the contents are empty |
| RingBuffers.RingBuffer.IsFull | Cyclic_buffer/Cyclic_buffer/Program.cs:242-245 | true exactly when the number of elements equals the capacity |
| RingBuffers.RingBuffer.IsLinearized | Cyclic_buffer/Cyclic_buffer/Program.cs:250-253 | when true, the contents are the one slice from head to tail; when false, they are the slice from head to the end followed by the slice up to tail |
| RingBuffers.RingBuffer.ElementAt | Cyclic_buffer/Cyclic_buffer/Program.cs:258-276 | succeeds exactly for 0 <= index < size and then returns the index-th oldest element; otherwise it fails with SizeIsNull, ElementAtIndexIsLessThanNull or ElementAtIndexIsMoreThanSize, checked in the source's order |
| RingBuffers.RingBuffer.First | Cyclic_buffer/Cyclic_buffer/Program.cs:437-445 | the oldest element; SizeIsNull exactly when empty |
| RingBuffers.RingBuffer.Last | Cyclic_buffer/Cyclic_buffer/Program.cs:450-458 | the newest element; SizeIsNull exactly when empty |
| RingBuffers.RingBuffer.SegmentOneLength | Cyclic_buffer/Cyclic_buffer/Program.cs:463-481 | the length of the first contiguous piece is at most the size |
| RingBuffers.RingBuffer.Insert | Cyclic_buffer/Cyclic_buffer/Program.cs:530-581 | fails exactly on a full buffer: with SizeEqualCapacity when overwriting is off, and with an index error when the capacity is 0; a failure changes nothing. Otherwise it appends x, and when the buffer was full it drops the oldest element: the contents become Push(old contents, x) |
| RingBuffers.RingBuffer.Append | Cyclic_buffer/Cyclic_buffer/Program.cs:540-552 | on a non-full buffer, appends x and keeps the head |
| RingBuffers.RingBuffer.Prepend | Cyclic_buffer/Cyclic_buffer/Program.cs:371-380 | on a non-full buffer, puts x in front and keeps the tail |
| RingBuffers.RingBuffer.Get | Cyclic_buffer/Cyclic_buffer/Program.cs:752-769 | returns and removes the oldest element; SizeIsNull, changing nothing, exactly when empty |
| RingBuffers.RingBuffer.PopFront | Cyclic_buffer/Cyclic_buffer/Program.cs:884-900 | removes the oldest element; SizeIsNull, changing nothing, exactly when empty |
| RingBuffers.RingBuffer.PopBack | Cyclic_buffer/Cyclic_buffer/Program.cs:905-921 | removes the newest element and keeps the head; SizeIsNull, changing nothing, exactly when empty. A tail of 0 is first wrapped to capacity, where the source's `--m_tail` takes it to -1 |
| RingBuffers.RingBuffer.Clear | Cyclic_buffer/Cyclic_buffer/Program.cs:654-661 | the buffer becomes empty with head and tail 0; capacity and array are kept |
| RingBuffers.RingBuffer.Contains | Cyclic_buffer/Cyclic_buffer/Program.cs:666-692 | true exactly when x is among the contents |
| RingBuffers.RingBuffer.CopyTo | Cyclic_buffer/Cyclic_buffer/Program.cs:697-747 | fails exactly for a null array, a negative index or an index at or past its end, with the source's messages, and then leaves the array alone. Otherwise it writes the n oldest elements from arrayIndex on, where n is the count capped by size and room and never negative, and leaves the rest of the array unchanged |
| RingBuffers.RingBuffer.Linearize | Cyclic_buffer/Cyclic_buffer/Program.cs:511-517 | the contents oldest first; an empty buffer fails with CopyToArrayIndexIsMoreThanLength, which its CopyTo call throws |
| RingBuffers.RingBuffer.Enumerate | Cyclic_buffer/Cyclic_buffer/Program.cs:955-967 | yields the contents oldest first |
| RingBuffers.RingBuffer.ArrayOne | Cyclic_buffer/Cyclic_buffer/Program.cs:463-482 | the first contiguous piece of the contents; SizeIsNull exactly when empty |
| RingBuffers.RingBuffer.ArrayTwo | Cyclic_buffer/Cyclic_buffer/Program.cs:487-506 | no second piece exactly when linearized; otherwise the rest of the contents after the first piece; SizeIsNull exactly when empty |
| RingBuffers.RingBuffer.SetCapacity | Cyclic_buffer/Cyclic_buffer/Program.cs:165-181 | refuses a smaller capacity with ValueLessThanCapacity and ignores an equal one; a larger one moves the contents, unchanged, into a fresh array of that length starting at slot 0 |
| RingBuffers.RingBuffer.InsertRange | Cyclic_buffer/Cyclic_buffer/Program.cs:586-641 | fails on a negative start index, and on a capacity-0 buffer with overwriting on and something to insert. Otherwise it inserts, in order, the count elements from startIndex on (all of them when overwriting, as many as fit otherwise) and returns how many, 0 for a negative count where the source returns that count; the contents are the latest capacity elements of old contents + those elements |
| RingBuffers.RingBuffer.InsertEach | Cyclic_buffer/Cyclic_buffer/Program.cs:596-638 | the insertion loop: after inserting ys one by one, the contents are the latest capacity elements of old contents + ys |
| RingBuffers.RingBuffer.InsertAll | Cyclic_buffer/Cyclic_buffer/Program.cs:646-649 | inserting a whole input: overwriting leaves the latest capacity elements and reports all of them; otherwise as many as fit are appended and counted |
| RingBuffers.RingBuffer.GetRange | Cyclic_buffer/Cyclic_buffer/Program.cs:775-826 | fails with the CopyTo messages on the same bad arguments, changing nothing. Otherwise it moves the n oldest elements (n capped as in CopyTo) into the array from arrayIndex on, removes them from the buffer and returns n |
| RingBuffers.RingBuffer.MoveOut | Cyclic_buffer/Cyclic_buffer/Program.cs:794-805 | the moving loop: the n oldest elements land in dest from arrayIndex on, the rest of dest is unchanged, and the buffer then holds the remaining elements |
| RingBuffers.RingBuffer.Remove | Cyclic_buffer/Cyclic_buffer/Program.cs:831-879 | true exactly when x was present; the contents are then the old ones without their first occurrence of x; false changes nothing |
| RingBuffers.RingBuffer.Find | Cyclic_buffer/Cyclic_buffer/Program.cs:838-846 | the search loop: the logical position of x's first occurrence and the slot holding it |
| RingBuffers.RingBuffer.CloseUp | Cyclic_buffer/Cyclic_buffer/Program.cs:859-869 | the shift loop: after it, the first size-1 positions hold the old contents without position j |
| RingBuffers.RingBuffer.ReSize | Cyclic_buffer/Cyclic_buffer/Program.cs:284-331 | refuses a size over capacity (CapacityLessThanSize) or below zero (SizeLessThanZero), changing nothing. Shrinking keeps the oldest newSize elements; growing appends copies of item; the head stays. Shrinking may leave the tail at 0, as the source's loop does; 0 names the same slot as capacity |
| RingBuffers.RingBuffer.DropNewest | Cyclic_buffer/Cyclic_buffer/Program.cs:301-311 | the shrinking loop: drops the k newest elements, head unchanged |
| RingBuffers.RingBuffer.AppendCopies | Cyclic_buffer/Cyclic_buffer/Program.cs:316-328 | the growing loop: appends k copies of item, head unchanged |
| RingBuffers.RingBuffer.RReSize | Cyclic_buffer/Cyclic_buffer/Program.cs:339-387 | refuses the same sizes as ReSize, changing nothing. Shrinking keeps the newest newSize elements; growing puts copies of item in front; the tail stays |
| RingBuffers.RingBuffer.DropOldest | Cyclic_buffer/Cyclic_buffer/Program.cs:356-366 | the shrinking loop: drops the k oldest elements, tail unchanged |
| RingBuffers.RingBuffer.PrependCopies | Cyclic_buffer/Cyclic_buffer/Program.cs:371-384 | the growing loop: puts k copies of item in front, tail unchanged |
| RingBuffers.RingBuffer.Swap | Cyclic_buffer/Cyclic_buffer/Program.cs:406-408 | exchanges two slots and changes nothing else |
| RingBuffers.RingBuffer.Reverse | Cyclic_buffer/Cyclic_buffer/Program.cs:392-412 | the contents become their reverse |
| RingBuffers.RingBuffer.Rotate | Cyclic_buffer/Cyclic_buffer/Program.cs:927-953 | with first == middle (any three indices) nothing changes, as the swap loop never runs; otherwise the array range [first, last) is rotated so that slot middle comes first and the rest of the array is unchanged; when the range is exactly the unwrapped contents, the contents are rotated likewise |
| RingBuffers.RotateSlots | Cyclic_buffer/Cyclic_buffer/Program.cs:929-950 | the swap loop on an in-range slot range: afterwards [first, last) holds its rotation by middle - first and every other slot is unchanged |
| RingBuffers.RotateSwap | Cyclic_buffer/Cyclic_buffer/Program.cs:931-949 | one pass of the loop body (swap, advance both cursors, wrap next back to middle at last, else let middle follow next once first meets it) keeps the rotation-in-progress state |
| RingBuffers.RingBuffer.Skip | Cyclic_buffer/Cyclic_buffer/Program.cs:417-432 | on a full buffer, rotates the contents by count modulo capacity, so that the element count places on becomes the oldest; otherwise changes nothing |
| AsWritten.Write | Cyclic_buffer/Cyclic_buffer/Program.cs:578 | an array store succeeds exactly for an index inside the array, sets that slot and keeps the others |
| AsWritten.EmptyRaw | Cyclic_buffer/Cyclic_buffer/Program.cs:43-56 | the capacity constructor's state is a proper, empty buffer |
| AsWritten.FilledToRaw | Cyclic_buffer/Cyclic_buffer/Program.cs:87-114 | as written, the (capacity, size, item) constructor accepts exactly 0 <= size <= capacity, and for size > 0 its state never holds size copies of item |
| AsWritten.ElementAtRaw | Cyclic_buffer/Cyclic_buffer/Program.cs:258-276 | as written, ElementAt returns the index-th element only when the head is at slot 0 |
| AsWritten.FirstRaw | Cyclic_buffer/Cyclic_buffer/Program.cs:437-445 | as written, First returns the oldest element of a proper buffer and fails on an empty one |
| AsWritten.LastRaw | Cyclic_buffer/Cyclic_buffer/Program.cs:450-458 | as written, Last returns the newest element of a proper buffer whose tail is above 0, and reads out of range when the tail is 0 |
| AsWritten.PopBackRaw | Cyclic_buffer/Cyclic_buffer/Program.cs:905-921 | as written, Pop_Back fails exactly when empty, leaves the tail at -1 when it was 0, keeps the head and shrinks the size by one |
| AsWritten.Advance | Cyclic_buffer/Cyclic_buffer/Program.cs:540-578 | the index updates and store shared by Insert and the bulk Insert loop body (599-637): they always fail at capacity 0, store x in the slot before the new tail, keep the array length, and grow the size only when there was room |
| AsWritten.InsertRaw | Cyclic_buffer/Cyclic_buffer/Program.cs:530-581 | as written, Insert into a full one-slot buffer leaves an improper state (head at the capacity) |
| AsWritten.InsertRawAgrees | Cyclic_buffer/Cyclic_buffer/Program.cs:530-581 | apart from that one-slot case, the source's Insert index arithmetic keeps the buffer proper and performs Push on the contents |
| AsWritten.InsertGrowAgrees | Cyclic_buffer/Cyclic_buffer/Program.cs:540-552 | the non-full insertion branch keeps the buffer proper and appends |
| AsWritten.InsertOverwriteAgrees | Cyclic_buffer/Cyclic_buffer/Program.cs:553-578 | the overwriting branch, away from the one-slot case, keeps the buffer proper and drops the oldest element |
| AsWritten.TrueInsertCount | Cyclic_buffer/Cyclic_buffer/Program.cs:593-594 | the bulk Insert's TrueCount: within count, the input length and (without overwriting) the room; negative for a negative count; and for start index 0 and a count of 0 or more it is the number the corrected InsertRange returns |
| AsWritten.InsertLoop | Cyclic_buffer/Cyclic_buffer/Program.cs:596-638 | as written, the bulk insertion loop does nothing when its bound is at or below its start |
| AsWritten.InsertRangeRaw | Cyclic_buffer/Cyclic_buffer/Program.cs:586-641 | as written, bulk Insert returns the computed count even when its loop, which runs from startIndex up to that count, inserts fewer or nothing |
| AsWritten.TrueCopyCount | Cyclic_buffer/Cyclic_buffer/Program.cs:714 | TrueCount of CopyTo and Get(array, ...) as written: the least of count, size and room; negative for a negative count; and equal to the corrected CopyCount whenever it is not negative |
| AsWritten.CopyLoop | Cyclic_buffer/Cyclic_buffer/Program.cs:716-724 | as written, the CopyTo loop writes only positions from j up to the bound |
| AsWritten.CopyToRaw | Cyclic_buffer/Cyclic_buffer/Program.cs:697-727 | as written, CopyTo rejects a bad index and never writes at or past position TrueCount, whatever arrayIndex is |
| AsWritten.GetLoop | Cyclic_buffer/Cyclic_buffer/Program.cs:794-803 | as written, the Get loop writes only positions from j up to the bound |
| AsWritten.GetRangeRaw | Cyclic_buffer/Cyclic_buffer/Program.cs:775-808 | as written, Get(array, index, count) always shrinks the size by TrueCount, keeps the tail, grows the buffer for a negative count, and never writes at or past position TrueCount |
| AsWritten.SetCapacityRaw | Cyclic_buffer/Cyclic_buffer/Program.cs:165-181 | as written, the capacity setter refuses a smaller value and keeps head, tail and size after copying the contents to slot 0 |
| AsWritten.FindLoop | Cyclic_buffer/Cyclic_buffer/Program.cs:838-846 | as written, the search in Remove stops at a slot that holds x |
| AsWritten.ShiftLoop | Cyclic_buffer/Cyclic_buffer/Program.cs:859-869 | as written, the shift loop keeps the array length when it ends |
| AsWritten.RemoveRaw | Cyclic_buffer/Cyclic_buffer/Program.cs:831-879 | as written, Remove never moves the tail; when it reports true it shrinks the size, and when it reports false it changes nothing |
| AsWritten.TailBackLoop | Cyclic_buffer/Cyclic_buffer/Program.cs:303-309 | as written, ReSize's shrinking loop leaves the tail between 0 and capacity |
| AsWritten.TailForwardLoop | Cyclic_buffer/Cyclic_buffer/Program.cs:316-326 | as written, ReSize's growing loop keeps the tail between 0 and capacity and does nothing for k <= 0 |
| AsWritten.ReSizeRaw | Cyclic_buffer/Cyclic_buffer/Program.cs:284-331 | as written, ReSize refuses exactly the sizes outside 0..capacity, keeps the head, and shrinks without touching the array |
| AsWritten.HeadForwardLoop | Cyclic_buffer/Cyclic_buffer/Program.cs:358-364 | as written, RReSize's shrinking loop leaves the head between 1 and capacity, so at capacity possibly |
| AsWritten.HeadBackLoop | Cyclic_buffer/Cyclic_buffer/Program.cs:371-382 | as written, RReSize's growing loop keeps the head a valid slot |
| AsWritten.RReSizeRaw | Cyclic_buffer/Cyclic_buffer/Program.cs:339-387 | as written, RReSize refuses the sizes outside 0..capacity, keeps the tail, and a shrink never leaves the head at 0 |
| AsWritten.SkipRaw | Cyclic_buffer/Cyclic_buffer/Program.cs:417-432 | as written, Skip keeps tail, size and array; it divides by zero on a capacity-0 buffer and leaves a negative head for a negative count |
| AsWritten.ElementAtIgnoresHead | Cyclic_buffer/Cyclic_buffer/Program.cs:275 | after inserting 1..5 into a capacity-3 overwriting buffer the contents are [3,4,5], yet ElementAt(0) returns 4 |
| AsWritten.FilledToLeavesEmpty | Cyclic_buffer/Cyclic_buffer/Program.cs:106-113 | the (3, 2, 7) constructor yields size 0 with tail 2 and no item written; First then fails |
| AsWritten.CopyToSkipsOffset | Cyclic_buffer/Cyclic_buffer/Program.cs:714-724 | copying a two-element buffer to index 2 of a four-slot array writes nothing |
| AsWritten.GetRangeLosesElements | Cyclic_buffer/Cyclic_buffer/Program.cs:792-805 | getting two elements at index 2 of a four-slot array writes nothing yet removes both |
| AsWritten.GetRangeLeavesHeadAtCapacity | Cyclic_buffer/Cyclic_buffer/Program.cs:794-803 | getting all of a full two-slot buffer leaves the head at 2; after one insertion First fails |
| AsWritten.GetRangeNegativeCountGrows | Cyclic_buffer/Cyclic_buffer/Program.cs:792-805 | a get with count -1 raises the size from 1 to 2 and returns -1 |
| AsWritten.InsertRangeSkipsOffset | Cyclic_buffer/Cyclic_buffer/Program.cs:594-640 | inserting 2 elements from index 2 of [1,2,3,4] inserts nothing and returns 2 |
| AsWritten.RemoveAtHeadShiftsTwice | Cyclic_buffer/Cyclic_buffer/Program.cs:847-869 | removing the oldest of [1,2,3] both advances the head and shifts, leaving [3,3] |
| AsWritten.RemoveKeepsTail | Cyclic_buffer/Cyclic_buffer/Program.cs:859-876 | removing the newest of [1,2,3] keeps the tail, so the state is improper and Last still returns 3 |
| AsWritten.RemoveWrapSkipsSlotZero | Cyclic_buffer/Cyclic_buffer/Program.cs:859-869 | removing 2 from the wrapped [1,2,3,4] copies slot 0 but never shifts slot 1 into it, leaving [1,3,3] |
| AsWritten.ShiftCycles | Cyclic_buffer/Cyclic_buffer/Program.cs:859-869 | with the shift cursor after the wrap and the tail at 1, the shift loop never reaches its exit, whatever the fuel |
| AsWritten.RemoveWrapHangs | Cyclic_buffer/Cyclic_buffer/Program.cs:831-879 | removing 2 from the wrapped full buffer [1,2,3] never terminates |
| AsWritten.SetCapacityKeepsHead | Cyclic_buffer/Cyclic_buffer/Program.cs:177-180 | growing the wrapped buffer [3,4,5] to capacity 4 keeps head 2, so the buffer then denotes [5,0,3] |
| AsWritten.InsertOneSlotLeavesHead | Cyclic_buffer/Cyclic_buffer/Program.cs:555-562 | overwriting a one-slot buffer moves the head to 1, the capacity, and First then fails |
| AsWritten.RReSizeLeavesHeadAtCapacity | Cyclic_buffer/Cyclic_buffer/Program.cs:358-364 | shrinking a two-slot buffer with head 1 to one element leaves the head at 2, and First then fails |
| AsWritten.SkipKeepsTail | Cyclic_buffer/Cyclic_buffer/Program.cs:424-429 | skipping one element of the full [1,2,3] moves the head but not the tail, so the state is improper and Last still returns 3 |
| AsWritten.SkipNegativeHead | Cyclic_buffer/Cyclic_buffer/Program.cs:424-429 | skipping -1 on a full buffer leaves head -1, and First then fails |
| AsWritten.SkipEmptyDividesByZero | Cyclic_buffer/Cyclic_buffer/Program.cs:419-428 | on a capacity-0 buffer, which counts as full, Skip(0) takes a remainder by zero |
| AsWritten.ReSizeLeavesTailAtZero | Cyclic_buffer/Cyclic_buffer/Program.cs:303-309 | shrinking the wrapped [1,2] to one element leaves tail 0, so Last fails while the buffer holds [1], and Pop_Back then sets tail -1 |
| AsWritten.RReSizeLeavesTailAtZero | Cyclic_buffer/Cyclic_buffer/Program.cs:371-384 | growing an empty capacity-3 buffer to one element keeps tail 0, so Last fails while the buffer holds [7] |

## Left out

- The `ICollection`/`IEnumerable` adapters (`Count`, `IsReadOnly`, `IsSynchronized`, `SyncRoot`, `Add`, the non-generic `CopyTo` and `GetEnumerator`): they forward to members modelled here, or they concern thread-safety objects.
- The finaliser, `GetBuffer` and `Main`: memory management, exposing the raw array (an alias the model does not hand out), and a console driver.
- Null elements and `Equals` dispatch in `Contains` and `Remove`: elements are compared with Dafny's `==`.
- A null input array for bulk `Insert` is not modelled. Inputs are sequences: `RingBuffers.RingBuffer.InsertRange` takes `seq<T>`.
- Destination arrays of `CopyTo` and `Get(array, ...)` are `array?<T>`, and they must be a different array from the buffer's own: the source does not guard against a caller passing the array that `GetBuffer` returned.
- Exceptions are results: each throwing member returns `Err`/`Fail` with the `MyExceptions` constant the throw site passes, whether the exception takes it as its message or, as in the one-argument `ArgumentOutOfRangeException(MyExceptions.SizeIsNull)` calls, as its parameter name. The exception type is not modelled. The runtime's own index errors are `IndexOutOfRange`.
- The forwarding overloads `CopyTo(array)`, `CopyTo(array, arrayIndex)`, `Get(array)` and `Get(array, arrayIndex)` are not separate members: they call `RingBuffers.RingBuffer.CopyTo` and `RingBuffers.RingBuffer.GetRange` with the size, the array length and index 0 filled in. Likewise the constructors without an overwrite flag are the flagged ones called with `true`.
- Integer overflow: the source's fields and arguments are 32-bit `int`s, and the model's are unbounded. Wrap-around such as `m_head += count` in `Skip` for a count near `int.MaxValue` is not modelled, in `RingBuffers` or in `AsWritten`.
- RingBuffers.RingBuffer.InsertRange: for a negative count it returns `Ok(0)` and inserts nothing; the source's loop also inserts nothing but returns the negative count.
- RingBuffers.RingBuffer.Insert: on a capacity-0 buffer with overwriting on, the source writes to slot 0 of an empty array and throws. The model returns `Fail(IndexOutOfRange)` and leaves the state as it was; the source has already moved head and tail when it throws.
- RingBuffers.RingBuffer.InsertRange: the same capacity-0 case fails before inserting anything.
- RingBuffers.RingBuffer.FilledTo: requires size <= capacity; `MakeFilledTo` performs the source's argument checks and reports them as errors.
- RingBuffers.RingBuffer.Rotate: requires `first == middle` (a call that does nothing, whatever the indices) or `0 <= first <= middle < last <= capacity`. For other calls the source's loop swaps slots outside [first, last) and ends in an index error, because `first` grows by one on every step and indexes the array each time.
- RingBuffers.RingBuffer.Rotate: states the effect on the contents only when [first, last) is exactly the unwrapped contents. `Rotate` works on slot indices, not on logical positions.
- RingBuffers.RingBuffer.SegmentOneLength: states only the bound; `ArrayOne` and `ArrayTwo` state what the two pieces are.
- RingBuffers.RingBuffer.Capacity and RingBuffers.RingBuffer.Head state bounds, not equalities: they return fields.
- The as-written loops of `AsWritten` are recursive functions over integer sequences, used to evaluate the concrete inputs of "## Findings". The class in `RingBuffers` carries the imperative loops.
- AsWritten.RemoveRaw and AsWritten.ShiftLoop: take a fuel bound, because the as-written shift loop need not terminate; running out of fuel is `Hangs`.
- AsWritten.FindLoop, AsWritten.ShiftLoop, AsWritten.TailBackLoop, AsWritten.HeadBackLoop and the other AsWritten members state bounds and frame facts, not the full result: their purpose is concrete evaluation.

## Findings

The corrected members below follow the doc comments of the members, their
argument checks and the behaviour of the buffer's other members. Where a
test file says otherwise, the row says so. Each finding's as-written lemma
evaluates the input it names; nothing was executed.

| source | as written | input that shows it | evidently intended | confidence | as-written member | corrected member |
|---|---|---|---|---|---|---|
| Cyclic_buffer/Cyclic_buffer/Program.cs:275 | `ElementAt` reads slot `index`, ignoring the head | capacity 3, overwriting, insert 1..5: contents [3,4,5], ElementAt(0) is 4 | the index-th oldest element: the checks at Program.cs:265-273 bound the index by the size, not the capacity, and Cyclic_buffer/Cyclic_bufferUnitTest/UnitTest1.cs:294-297 asserts First() == ElementAt(0). This goes against the comments at UnitTest1.cs:285-287, which record the raw slot values 4, 5, 3 | not executed | AsWritten.ElementAtIgnoresHead | RingBuffers.RingBuffer.ElementAt |
| Cyclic_buffer/Cyclic_buffer/Program.cs:106-113 | the (capacity, size, item) constructor never sets the size, and its fill loop is bounded by that size, which is 0 | (3, 2, 7): size 0, tail 2, nothing written | a buffer holding size copies of item | not executed | AsWritten.FilledToLeavesEmpty | RingBuffers.RingBuffer.FilledTo |
| Cyclic_buffer/Cyclic_buffer/Program.cs:716 | the CopyTo loop runs its destination cursor from arrayIndex up to TrueCount, so it copies TrueCount - arrayIndex elements | buffer [1,2], four-slot array, index 2, count 2: nothing copied | copy TrueCount elements starting at arrayIndex | not executed | AsWritten.CopyToSkipsOffset | RingBuffers.RingBuffer.CopyTo |
| Cyclic_buffer/Cyclic_buffer/Program.cs:794-805 | Get(array, index, count) has the same loop bound, but still removes TrueCount elements | buffer [1,2], four-slot array, index 2, count 2: nothing written, buffer emptied | move TrueCount elements out | not executed | AsWritten.GetRangeLosesElements | RingBuffers.RingBuffer.GetRange |
| Cyclic_buffer/Cyclic_buffer/Program.cs:796-802 | Get(array, ...) wraps the head before a read, not after it, so the head can end at the capacity | full buffer [1,2], get both, insert 7: head 2, First fails | the head stays a valid slot | not executed | AsWritten.GetRangeLeavesHeadAtCapacity | RingBuffers.RingBuffer.GetRange |
| Cyclic_buffer/Cyclic_buffer/Program.cs:792-805 | a negative count gives a negative TrueCount, which `m_size -= TrueCount` adds to the size | buffer [1] of capacity 2, count -1: size 2, returns -1 | copy and remove nothing | not executed | AsWritten.GetRangeNegativeCountGrows | RingBuffers.RingBuffer.GetRange |
| Cyclic_buffer/Cyclic_buffer/Program.cs:596 | bulk Insert loops from startIndex up to TrueCount, not TrueCount elements from startIndex, and returns TrueCount regardless | empty capacity-4 buffer, [1,2,3,4], start 2, count 2: nothing inserted, returns 2 | insert count elements beginning at startIndex | not executed | AsWritten.InsertRangeSkipsOffset | RingBuffers.RingBuffer.InsertRange |
| Cyclic_buffer/Cyclic_buffer/Program.cs:847-869 | removing the element at the head both advances the head and shifts the later elements down | [1,2,3], remove 1: contents [3,3] | [2,3] | not executed | AsWritten.RemoveAtHeadShiftsTwice | RingBuffers.RingBuffer.Remove |
| Cyclic_buffer/Cyclic_buffer/Program.cs:859-876 | Remove shrinks the size but never moves the tail | [1,2,3], remove 3: Last still returns 3 | the tail follows the newest element | not executed | AsWritten.RemoveKeepsTail | RingBuffers.RingBuffer.Remove |
| Cyclic_buffer/Cyclic_buffer/Program.cs:861-864 | at the wrap the shift sets k to 0 and the loop then increments it, so slot 1 is never shifted into slot 0 | wrapped [1,2,3,4] (head 2), remove 2: contents [1,3,3] | [1,3,4] | not executed | AsWritten.RemoveWrapSkipsSlotZero | RingBuffers.RingBuffer.Remove |
| Cyclic_buffer/Cyclic_buffer/Program.cs:859 | the shift loop's exit test `k + 1 != m_tail` is never met when the tail is 1 and the cursor wraps | full [1,2,3] with head 1, remove 2: the loop never ends | [1,3] | not executed | AsWritten.RemoveWrapHangs | RingBuffers.RingBuffer.Remove |
| Cyclic_buffer/Cyclic_buffer/Program.cs:177-180 | the capacity setter copies the contents to slot 0 of the new array but keeps the old head and tail | wrapped [3,4,5] (head 2) grown to 4: the buffer denotes [5,0,3] | head 0, tail at size | not executed | AsWritten.SetCapacityKeepsHead | RingBuffers.RingBuffer.SetCapacity |
| Cyclic_buffer/Cyclic_buffer/Program.cs:555-562 | overwriting a full buffer with tail at capacity and head 0 increments the head, which at capacity 1 is the capacity itself | capacity 1, overwriting, insert 1 then 2: head 1, First fails | head 0, contents [2] | not executed | AsWritten.InsertOneSlotLeavesHead | RingBuffers.RingBuffer.Insert |
| Cyclic_buffer/Cyclic_buffer/Program.cs:358-364 | RReSize's shrinking loop wraps the head before it increments it, so the head can end at the capacity | [6,5] in two slots (head 1), RReSize(1): head 2, First fails | head 0, contents [5] | not executed | AsWritten.RReSizeLeavesHeadAtCapacity | RingBuffers.RingBuffer.RReSize |
| Cyclic_buffer/Cyclic_buffer/Program.cs:303-309 | ReSize's shrinking loop wraps the tail before it decrements it, so the tail can end at 0 while elements remain; Last then reads slot -1 | wrapped [1,2] (head 1), ReSize(1): tail 0, Last fails; Pop_Back then sets tail -1 | a tail of 0, like a tail of capacity, names slot 0 as the next free slot: Last returns 1, reading slot capacity-1, and Pop_Back wraps the tail to capacity before stepping back. The corrected ReSize still leaves tail 0, as the source does | not executed | AsWritten.ReSizeLeavesTailAtZero | RingBuffers.RingBuffer.Last, RingBuffers.RingBuffer.PopBack |
| Cyclic_buffer/Cyclic_buffer/Program.cs:457 | Last reads slot `m_tail - 1`, with no wrap for a tail of 0 | empty capacity-3 buffer, RReSize(1, 7): tail 0, Last fails | Last returns 7 | not executed | AsWritten.RReSizeLeavesTailAtZero | RingBuffers.RingBuffer.Last |
| Cyclic_buffer/Cyclic_buffer/Program.cs:424-429 | Skip moves the head of a full buffer but not the tail | full [1,2,3], Skip(1): contents [2,3,1], Last still returns 3 | Last returns 1 | not executed | AsWritten.SkipKeepsTail | RingBuffers.RingBuffer.Skip |
| Cyclic_buffer/Cyclic_buffer/Program.cs:424-429 | Skip takes the remainder only when the head passes the capacity, so a negative count leaves a negative head | full [1,2,3], Skip(-1): head -1, First fails | contents [3,1,2] | not executed | AsWritten.SkipNegativeHead | RingBuffers.RingBuffer.Skip |
| Cyclic_buffer/Cyclic_buffer/Program.cs:419-428 | a capacity-0 buffer counts as full, and Skip then takes a remainder by zero | capacity 0, Skip(0): division by zero | nothing happens | not executed | AsWritten.SkipEmptyDividesByZero | RingBuffers.RingBuffer.Skip |
