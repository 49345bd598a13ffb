# A model of the aesd character driver and of Unity's allocator, printers and matchers

This project models three stateful parts of the repository and proves what they keep.

* **Unity's bump allocator** (`unity_memory.c`, the build without the standard `malloc`). A byte
  array holds blocks one after the other: a guard of two machine words (recorded size, zero), the
  payload, the trailer `"END\0"`, all rounded up to the alignment. `HeapSpec` gives every operation
  as a function on values, byte for byte, for any word width, alignment and capacity; `UnityHeap` is
  the array updated in place and tied to those functions; `HeapRuns`, `HeapWorld` and `HeapTheorems`
  prove the tiling of the heap and its consequences over whole runs from the heap that the program
  starts with; `HeapRefinement` proves that a client sees separate objects; `HeapCorruption` proves
  what becomes of bytes written outside a payload; `HeapLaws` gives each call in numbers, and fault
  injection over runs.
* **The aesd character driver** (`aesd-circular-buffer.c`, `main.c`). `CommandWindow` relates flat
  positions to (command, offset) pairs, `CircularBuffer` is the ring of the last N commands,
  `DeviceSpec` says what runs of writes and reads add up to, `AesdDevice` is the device with write,
  read and the seek ioctl as atomic steps, their error returns included.
* **Unity's hand-written text routines** (`unity.c`, `unity_fixture.c`). `Decimal` is the integer
  printer and the `-r` number loop; `FloatScaling`, `FloatLayout` and `FloatPrinter` are
  `UnityPrintFloat` in exact arithmetic; `FilterSpec` and `FilterMatcher` are the test filter,
  and `FilterLaws` gives its language in characters;
  `ArrayAsserts` holds the memory and number-array comparisons; `PointerStore` is the store that
  undoes pointer assignments.

Each routine that changes state or loops is a method, and its contract equates its result with a
function on values. What the source promises is proved about those functions, and what each of them
computes is stated a second time in plain numbers, bytes or characters (the members named `...Law`).

Strings are NUL-free sequences whose terminating NUL is the position after the last character.
Widths that matter are explicit: unsigned types have a modulus, `int32` is a bounded type, and words
in the heap have a byte width and are little-endian (the proofs use only that writing and reading a
word are inverse and that a word is zero when its bytes are). A test failure inside the allocator,
which leaves the test by a long jump, is the outcome `Overrun`.

## Where the code does not do what it says

Each of these is a proved exact condition together with a concrete input.

* `unity_realloc` is meant not to release the old block when it fails
  (`unity_memory.c:198`). Growing in place it releases first, so with the fault countdown at zero the
  block is lost: `FailedReallocKeepsBlockIff`, and `FailedReallocCanLoseBlock` after two operations on
  a fresh heap.
* `aesd_write` reports that it took every byte. With bytes pending it drops what follows the last
  newline: `WriteConservesIff`, `RunConservesIff`, `WriteCanLoseBytes`.
* `aesd_write` returns an error when memory runs out. When bytes are pending and their buffer cannot be
  enlarged, the buffer is lost while its length stays; every other failure leaves the device as it
  was: the clause on `Valid()` of `AesdDevice.Write`, and `PendingCanBeLost`.
* `UnityPrintFloat` says that it rounds to even on a tie (`unity.c:421`). Where the integer part is
  kept as it is and is odd, the tie goes down to the odd neighbour, so that half-way numbers of that
  range always go down: the last two clauses of `ScaleAndRound`; `TieCanGoToOdd` returns 123456789 for
  123456789.5.
* The unsigned styles of `UnityAssertNumbersArrayWithin` load elements through signed types, so that
  127 and 128 are not within 1 of each other: `UnsignedTestIsExactIff`, `UnsignedTestCanBeWrong`.
* `UnityStringArgumentMatches` mistakes the test part of an item that ends in a colon, which by itself
  is empty and matches nothing. It reads the test part from the comma or quote behind the item, which
  can occur in the name of a test with arguments; at the very end of the filter it overlooks the colon,
  and an earlier one counts. `MatcherDiffersIff` says for which filters this shows in any answer,
  `PlaceMattersIff` for which items it matters what stands behind them. The inputs are `a:t:` alone and
  followed by `,zz` (`TrailingColonDependsOnPlace`), and `a:` alone and followed by a comma, for the test
  `t(1, 2)` (`CommaBecomesTestPart`).
* `UnityStringArgumentMatches` reads past the terminating NUL exactly when the filter is an opening
  quote with the NUL right behind it: the first clause of the method, and `LoneQuotes`.

## Model

| member | source | states |
|---|---|---|
| HeapSpec.RoundUpIsLeast | assignment-autotest/Unity/extras/memory/src/unity_memory.c:58-65 | no multiple of the alignment between a size and its rounded size |
| HeapSpec.RoundUpFormula | assignment-autotest/Unity/extras/memory/src/unity_memory.c:62 | the code's quotient-times-alignment expression is that least multiple |
| UnityHeap.UnityHeap.SizeRoundUp | assignment-autotest/Unity/extras/memory/src/unity_memory.c:58-65 | the rounding helper returns the least multiple |
| UnityHeap.UnityHeap.StartTest | assignment-autotest/Unity/extras/memory/src/unity_memory.c:15-19 | leak counter and fault countdown are reset, the heap is untouched |
| UnityHeap.UnityHeap.EndTest | assignment-autotest/Unity/extras/memory/src/unity_memory.c:21-28 | fails the test exactly when the leak counter is not zero, switches the countdown off |
| UnityHeap.UnityHeap.MakeMallocFailAfterCount | assignment-autotest/Unity/extras/memory/src/unity_memory.c:30-33 | sets the countdown and nothing else |
| UnityHeap.UnityHeap.Malloc | assignment-autotest/Unity/extras/memory/src/unity_memory.c:67-105 | the array, the top and both counters change as the allocation function says, for every size and state |
| UnityHeap.UnityHeap.IsOverrun | assignment-autotest/Unity/extras/memory/src/unity_memory.c:107-114 | the byte loop of the string comparison decides whether guard word and trailer are intact |
| UnityHeap.UnityHeap.ReleaseMemory | assignment-autotest/Unity/extras/memory/src/unity_memory.c:116-136 | one release on the array state |
| UnityHeap.UnityHeap.Free | assignment-autotest/Unity/extras/memory/src/unity_memory.c:138-153 | release and overrun report on the array state, null included |
| UnityHeap.UnityHeap.Calloc | assignment-autotest/Unity/extras/memory/src/unity_memory.c:155-161 | allocation followed by zeroing on the array state |
| UnityHeap.UnityHeap.Realloc | assignment-autotest/Unity/extras/memory/src/unity_memory.c:163-202 | all paths of realloc on the array state, null and size zero included |
| UnityHeap.UnityHeap.Move | assignment-autotest/Unity/extras/memory/src/unity_memory.c:197-201 | the moving path: allocate, copy, release |
| HeapRuns.HeapIsTiled | assignment-autotest/Unity/extras/memory/src/unity_memory.c:67-136 | in a well-formed heap the blocks cover exactly the bytes below the top, are pairwise disjoint and aligned, and the top is within the capacity |
| HeapRuns.MallocStep | assignment-autotest/Unity/extras/memory/src/unity_memory.c:67-105 | allocation succeeds exactly when the countdown, the size and the room allow it, counts the countdown down either way, keeps the heap well formed and every byte below the old top |
| HeapRuns.ReleaseStep | assignment-autotest/Unity/extras/memory/src/unity_memory.c:116-136 | the top test of release recognises exactly the highest block, and release keeps the heap well formed |
| HeapWorld.CallocStep | assignment-autotest/Unity/extras/memory/src/unity_memory.c:155-161 | calloc succeeds exactly when malloc would, and its payload is all zero |
| HeapWorld.ReallocInPlace | assignment-autotest/Unity/extras/memory/src/unity_memory.c:185-196 | growing in place keeps address and payload, or loses the block when the countdown is at zero |
| HeapWorld.ReallocMoves | assignment-autotest/Unity/extras/memory/src/unity_memory.c:197-201 | moving copies the whole old payload and keeps every byte below the old top; failing changes only the countdown |
| HeapWorld.StepKeeps | assignment-autotest/Unity/extras/memory/src/unity_memory.c:67-202 | every operation of a well-behaved client keeps the heap well formed and every block that it does not target, payload included |
| HeapTheorems.RunKeepsHeap | assignment-autotest/Unity/extras/memory/src/unity_memory.c:67-202 | any run of a well-behaved client from a well-formed heap ends in one, and no live block looks overrun |
| HeapWorld.FreshWorldIsWellFormed | assignment-autotest/Unity/extras/memory/src/unity_memory.c:35-56 | the zeroed heap that the program starts with is well formed when its size fits a word |
| HeapTheorems.ReachableHeapIsTiled | assignment-autotest/Unity/extras/memory/src/unity_memory.c:35-202 | after any run from the program's start the blocks tile the bytes below the top, disjoint, aligned and within the capacity, no live block looks overrun, and the counter counts the live ones |
| HeapTheorems.RunKeepsUntouchedBlock | assignment-autotest/Unity/extras/memory/src/unity_memory.c:67-202 | a block that no operation of a run targets holds the same bytes at the same address at its end |
| HeapTheorems.OverrunReportedIffCorrupted | assignment-autotest/Unity/extras/memory/src/unity_memory.c:107-175 | whatever was written, recorded size apart, free and realloc report an overrun exactly when a guard or trailer byte of the block changed |
| HeapCorruption.RunCommutes | assignment-autotest/Unity/extras/memory/src/unity_memory.c:67-202 | overwriting a block changes nothing that any run on other blocks does or returns, and the run leaves the damage as it is |
| HeapCorruption.DamageIsReportedLater | assignment-autotest/Unity/extras/memory/src/unity_memory.c:107-175 | after damage to a block and any legal run on other blocks, free and realloc of it report an overrun exactly when the damage changed its guard or trailer |
| HeapTheorems.ReallocKeepsContents | assignment-autotest/Unity/extras/memory/src/unity_memory.c:163-202 | when realloc returns null, that it never aborts on a live block, that it keeps the first min(old, new) bytes, and that with the countdown off a failure changes nothing |
| HeapTheorems.ReallocResultIsLive | assignment-autotest/Unity/extras/memory/src/unity_memory.c:163-202 | a non-null result is live and large enough, and all other live blocks keep place and payload |
| HeapTheorems.FailedReallocKeepsBlockIff | assignment-autotest/Unity/extras/memory/src/unity_memory.c:185-202 | a failing realloc leaves the old block live exactly unless it grows in place with the countdown at zero |
| HeapTheorems.FailedReallocCanLoseBlock | assignment-autotest/Unity/extras/memory/src/unity_memory.c:189-194 | a run of two operations from a fresh 256-byte heap to a state in which a failing realloc loses the block |
| HeapTheorems.FreeMovesTopIffLast | assignment-autotest/Unity/extras/memory/src/unity_memory.c:116-136 | freeing a live block moves the top to its start exactly when it is the highest, and reports no overrun |
| HeapTheorems.LifoRestores | assignment-autotest/Unity/extras/memory/src/unity_memory.c:67-136 | allocating any sizes, writing into the blocks and freeing in reverse order restores blocks, top and leak counter |
| HeapTheorems.EndTestFailsIffLeak | assignment-autotest/Unity/extras/memory/src/unity_memory.c:15-28 | a test that starts with no live block is failed at its end exactly when some block is live then |
| HeapLaws.MallocLaw | assignment-autotest/Unity/extras/memory/src/unity_memory.c:67-105 | malloc in numbers: address, new top, both counters and every byte of the heap, granted or refused |
| HeapLaws.CallocLaw | assignment-autotest/Unity/extras/memory/src/unity_memory.c:155-161 | calloc in numbers, with the zeroed payload |
| HeapLaws.FreeLaw | assignment-autotest/Unity/extras/memory/src/unity_memory.c:107-153 | free in numbers: when the top moves, and the overrun report by the guard bytes and the four trailer bytes |
| HeapLaws.ReallocLaw | assignment-autotest/Unity/extras/memory/src/unity_memory.c:163-202 | realloc in numbers: which of its six cases applies, and address, top, counters and every byte in each |
| HeapLaws.FaultInjection | assignment-autotest/Unity/extras/memory/src/unity_memory.c:67-79 | with the countdown at c, over any legal run: before the c-th request malloc and calloc are refused only for size zero or want of room, from then on every request is |
| HeapLaws.TestStartsClean | assignment-autotest/Unity/extras/memory/src/unity_memory.c:15-28 | leaks and countdowns of an earlier test have no effect after the start of the next |
| HeapRefinement.StepRefines | assignment-autotest/Unity/extras/memory/src/unity_memory.c:67-202 | each operation acts on separate objects: adds one (zeroed for calloc), removes one, changes one byte of one, or replaces one by a larger one with the same beginning |
| HeapRefinement.RunRefines | assignment-autotest/Unity/extras/memory/src/unity_memory.c:67-202 | every run of a well-behaved client is a run of separate objects with the same results |
| CircularBuffer.AddSlidesWindow | aesd-char-driver/aesd-circular-buffer.c:112-131 | adding appends to the walk from the output index and drops the oldest of N + 1 |
| CircularBuffer.RingIsSlidingWindow | aesd-char-driver/aesd-circular-buffer.c:112-140 | after any sequence of adds the walk gives the last min(n, N) commands in order, and the full flag is set exactly when n >= N |
| CircularBuffer.IndicesAfterRun | aesd-char-driver/aesd-circular-buffer.c:112-140 | after n adds the input index is n mod N, the output index 0 or n mod N |
| CircularBuffer.SlotsAfterRun | aesd-char-driver/aesd-circular-buffer.c:112-140 | command i stands in slot i mod N until N more have been added |
| CircularBuffer.CircularBuffer.constructor | aesd-char-driver/aesd-circular-buffer.c:137-140 | initialisation gives the empty ring |
| CircularBuffer.CircularBuffer.AddEntry | aesd-char-driver/aesd-circular-buffer.c:112-131 | the slots, indices and flag change as one add, and the history grows by the entry |
| CircularBuffer.CircularBuffer.FindEntryOffset | aesd-char-driver/aesd-circular-buffer.c:28-57 | the walk finds the slot and offset that the lookup names, or nothing |
| CircularBuffer.CircularBuffer.FindPosition | aesd-char-driver/aesd-circular-buffer.c:59-102 | the walk computes the position of a command and offset, with its treatment of missing ones |
| CommandWindow.LookupIsRight | aesd-char-driver/aesd-circular-buffer.c:28-57 | the lookup finds nothing exactly from the total size on, and otherwise the one (command, offset) that names the byte, empty commands included |
| CommandWindow.SeekAndLookupAreInverse | aesd-char-driver/aesd-circular-buffer.c:28-102 | lookup and position are mutual inverses, and a seek lands on the byte that it names exactly when that byte exists |
| CommandWindow.SeekWithoutByte | aesd-char-driver/aesd-circular-buffer.c:59-102 | where every seek that names no byte lands: on the first byte in or behind the command, or behind it at its end, empty commands passed over, or at the end |
| CommandWindow.PositionLaw | aesd-char-driver/aesd-circular-buffer.c:59-102 | the bytes before the computed position are the earlier commands and the first j bytes of command k, or none of these past its end; past the last command it is the total size |
| DeviceSpec.WriteAppends | aesd-char-driver/main.c:145-184 | a write appends exactly the stored part of its data to history and pending bytes (WriteWithNewline says which part) |
| DeviceSpec.WriteWithNewline | aesd-char-driver/main.c:136-184 | a write whose last newline is at i completes one command: pending bytes and data up to i, or all of the data when nothing was pending; earlier commands stay |
| DeviceSpec.WriteWithoutNewline | aesd-char-driver/main.c:136-184 | a write without a newline only adds to the pending bytes |
| DeviceSpec.WriteConservesIff | aesd-char-driver/main.c:136-186 | a write keeps all its bytes exactly when it does not cut a tail off behind a newline |
| DeviceSpec.CompletedEndsInNewlineIff | aesd-char-driver/main.c:145-184 | a write with a newline completes one command, which ends in a newline exactly when bytes were pending or the data ends in one |
| DeviceSpec.WriteCanLoseBytes | aesd-char-driver/main.c:136-186 | two writes after which a byte is missing |
| DeviceSpec.RunConservesIff | aesd-char-driver/main.c:136-186 | over any run of writes all bytes are kept in order exactly when no write dropped a tail |
| DeviceSpec.RunOfWholeLines | aesd-char-driver/main.c:136-186 | pending bytes never hold a newline; whole-line writes drop nothing and complete commands that end in a newline |
| DeviceSpec.RunConserves | aesd-char-driver/main.c:136-186 | evicted commands, retained commands and pending bytes together are all bytes written, in order |
| DeviceSpec.ReadIsSlice | aesd-char-driver/main.c:57-102 | a read returns the bytes at its position, and none exactly when it asks for none or stands at or past the end |
| DeviceSpec.ReadLaw | aesd-char-driver/main.c:76-99 | a read at byte j of command k returns as much as it asks for, or everything up to the end of that command |
| DeviceSpec.ReadsAreConsecutive | aesd-char-driver/main.c:57-102 | reads with positive counts return consecutive bytes, and total minus position many reach the end |
| DeviceSpec.ReadsReturnSuffix | aesd-char-driver/main.c:57-102 | enough reads return exactly the suffix from their start |
| DeviceSpec.SeekThenRead | aesd-char-driver/main.c:248-262 | after seeking to byte j of command k the first byte read is that byte |
| DeviceSpec.ReadersSeeTheRest | aesd-char-driver/main.c:57-186 | reading from start to end gives all that was written except evicted commands and pending bytes |
| AesdDevice.AesdDevice.ScanForNewline | aesd-char-driver/main.c:136-143 | the scan gives one past the last newline |
| AesdDevice.AesdDevice.Write | aesd-char-driver/main.c:104-194 | history and pending bytes change as one write, the window is the last N commands; what each failure returns, and that only a failed enlargement of pending bytes damages the device |
| AesdDevice.PendingCanBeLost | aesd-char-driver/main.c:163-168 | after one byte is pending, a write without memory reports an error and leaves a length without a buffer |
| AesdDevice.AesdDevice.Read | aesd-char-driver/main.c:57-102 | one read: its bytes and the advanced position, or -EFAULT and the old position; the ring is unchanged |
| AesdDevice.AesdDevice.SeekTo | aesd-char-driver/main.c:248-262 | the position becomes that of the command and offset, or stays with -EFAULT; the device is unchanged |
| Decimal.DigitsReadBack | assignment-autotest/Unity/src/unity.c:255-271 | the printed text reads back as the number |
| Decimal.ValueLaw | assignment-autotest/Unity/src/unity.c:255-271 | the value that texts are read by, a decimal digit at a time |
| Decimal.CanonicalText | assignment-autotest/Unity/src/unity.c:255-271 | it is the only text of the number without a superfluous leading zero |
| Decimal.DigitsAreFewest | assignment-autotest/Unity/src/unity.c:255-271 | no text of the number is shorter |
| Decimal.SignedReadBack | assignment-autotest/Unity/src/unity.c:240-251 | the signed text reads back as the number, the least one included |
| Decimal.Output.PrintNumberUnsigned | assignment-autotest/Unity/src/unity.c:255-271 | the divisor loop prints that text for every value of the unsigned type, with wrapping multiplication |
| Decimal.Output.PrintNumber | assignment-autotest/Unity/src/unity.c:240-251 | the same for every value of the signed type, magnitude by complement plus one |
| Decimal.ParseRepeatCount | assignment-autotest/Unity/extras/fixture/src/unity_fixture.c:256-273 | the digit loop computes the leading digits modulo 2^32, or 2 when there are none |
| Decimal.RepeatCountLaw | assignment-autotest/Unity/extras/fixture/src/unity_fixture.c:256-273 | 2 when no digit stands first, else the leading digits modulo 4294967296 |
| Decimal.RepeatCountRoundTrip | assignment-autotest/Unity/extras/fixture/src/unity_fixture.c:262-271 | on the printed text of k the loop yields k exactly for k below 2^32 |
| FloatScaling.ScaledIsProduct | assignment-autotest/Unity/src/unity.c:376-382 | moving the decimal point by e places is multiplication by 10^e |
| FloatScaling.ScaleUp | assignment-autotest/Unity/src/unity.c:383-391 | numbers below 1 end with the full digits before the point and the same value; both loops terminate |
| FloatScaling.ScaleDown | assignment-autotest/Unity/src/unity.c:392-400 | the same for numbers above the largest scaled one |
| FloatScaling.SplitUnits | assignment-autotest/Unity/src/unity.c:401-415 | the same for the middle range, with integer part and fraction apart and no int32 overflow |
| FloatScaling.Scale | assignment-autotest/Unity/src/unity.c:383-415 | the three branches together |
| FloatScaling.RoundHalfIsNearest | assignment-autotest/Unity/src/unity.c:417-424 | the doubling, halving and parity test give a nearest integer, the even one on a tie |
| FloatScaling.RoundingIsCorrect | assignment-autotest/Unity/src/unity.c:417-432 | rounding with carry to the next power gives a correctly rounded result |
| FloatScaling.ScaleAndRound | assignment-autotest/Unity/src/unity.c:383-432 | every positive number gets its correctly rounded digits and exponent; which neighbour a tie takes; a number half way between two integers whose integer part is kept goes down |
| FloatScaling.RoundingIsUnique | assignment-autotest/Unity/src/unity.c:383-432 | correctly rounded digits and exponent are unique unless there is a tie |
| FloatScaling.HalfWayIsTie | assignment-autotest/Unity/src/unity.c:401-432 | the correct roundings of every number half way between two integers whose integer part is kept: its two neighbours, which are ties, and at the upper end the next power of ten, which is none |
| FloatScaling.RelativeError | assignment-autotest/Unity/src/unity.c:383-432 | they differ from the number by at most one part in twice the smallest scaled number |
| FloatScaling.ExponentIsBounded | assignment-autotest/Unity/src/unity.c:383-432 | the exponent stays within ten of that of the number, so it fits an int for every double |
| FloatScaling.TieCanGoToOdd | assignment-autotest/Unity/src/unity.c:417-424 | 123456789.5 is rounded to the odd 123456789, although 123456790 is as near |
| FloatLayout.TrimmedKeepsValue | assignment-autotest/Unity/src/unity.c:438-443 | dropping trailing zeros keeps the value and leaves none behind the point |
| FloatLayout.FloatTextReadsBack | assignment-autotest/Unity/src/unity.c:434-483 | for every n and exponent the text is well formed, has no trailing zero behind a point, and reads back as n * 10^exponent exactly |
| FloatLayout.FormOfText | assignment-autotest/Unity/src/unity.c:434-483 | for digits that fill a precision: which exponents give plain notation, and that scientific notation has one nonzero digit before the point |
| FloatLayout.SignificantDigits | assignment-autotest/Unity/src/unity.c:335-349 | a correctly rounded number has nine digits in double and seven in single precision |
| FloatLayout.HalfUnitLaw | assignment-autotest/Unity/src/unity.c:383-432 | in powers of ten, it is within half a unit of its last digit |
| FloatLayout.PrintedForm | assignment-autotest/Unity/src/unity.c:434-483 | the text of a rounded number: an exponent exactly when e > 0 or e < -12 (-10), then one nonzero digit before the point, sign and value of the exponent in two or more digits; no superfluous leading zero in either form |
| FloatLayout.PrintedIsClose | assignment-autotest/Unity/src/unity.c:383-483 | the text printed for a number reads back within the relative error |
| FloatPrinter.TrimZeros | assignment-autotest/Unity/src/unity.c:438-443 | the truncation loop |
| FloatPrinter.CollectDigits | assignment-autotest/Unity/src/unity.c:445-451 | the digits land reversed in the 16-byte buffer and fit |
| FloatPrinter.EmitReversed | assignment-autotest/Unity/src/unity.c:452-456 | they come out in order with the point before the decimals |
| FloatPrinter.PrintExponent | assignment-autotest/Unity/src/unity.c:458-483 | sign and at least two digits of a nonzero exponent |
| FloatPrinter.PrintScaled | assignment-autotest/Unity/src/unity.c:434-483 | the layout stage appends exactly the text |
| FloatPrinter.PrintFloat | assignment-autotest/Unity/src/unity.c:335-485 | "0", "nan", "inf", "-inf", or the sign and the text of the magnitude correctly rounded |
| FilterSpec.InBiggerMeaning | assignment-autotest/Unity/src/unity.c:1975-2017 | for any item the answer is nonzero exactly when the name matches its pattern, and 2 exactly when a colon follows |
| FilterSpec.ItemSelects | assignment-autotest/Unity/src/unity.c:2053-2073 | the three checks of one item come to what the item selects, whatever stands behind it and whatever the names are |
| FilterSpec.FilterMeansItems | assignment-autotest/Unity/src/unity.c:2020-2080 | for every well-formed filter and all names, its items bare or quoted together or one by one, the answer is yes exactly when some item selects the file or test |
| FilterSpec.FiltersAreStrings | assignment-autotest/Unity/src/unity.c:2020-2080 | the well-formed filters are exactly the strings that start with an item behind an opening quote or none |
| FilterLaws.ContainsLaw | assignment-autotest/Unity/src/unity.c:1975-2017 | occurrence of a text in a name |
| FilterLaws.WordLaw | assignment-autotest/Unity/src/unity.c:1975-2017 | a word in a pattern ends at a star, comma, quote, colon or the end, and at nothing else |
| FilterLaws.TwoWords | assignment-autotest/Unity/src/unity.c:2020-2080 | two words, however separated by commas, quotes and colons, select by either one |
| FilterLaws.QuotedWord | assignment-autotest/Unity/src/unity.c:2020-2080 | a word between either kind of quotes selects as it does bare |
| FilterLaws.WordAndStar | assignment-autotest/Unity/src/unity.c:1975-2017 | a star ends the word whatever follows it in the item, and in front it selects everything |
| FilterLaws.FileAndTest | assignment-autotest/Unity/src/unity.c:2020-2080 | word, colons, word: the file by the first and the test by the last |
| FilterSpec.SelectsSplits | assignment-autotest/Unity/src/unity.c:2036-2066 | an item selects what it selects by itself and, exactly when it has a test part, ends in a colon and has an earlier colon or something behind it, what the matcher takes for its test part |
| FilterSpec.MatcherDiffersIff | assignment-autotest/Unity/src/unity.c:2020-2080 | the matcher answers for some names what no item selects by itself exactly when the shortest names that some misread item matches are selected by no item itself |
| FilterSpec.PlaceMattersIff | assignment-autotest/Unity/src/unity.c:2036-2046 | what an item selects depends on the text behind it exactly when it has a test part and ends in a colon |
| FilterSpec.TrailingColonDependsOnPlace | assignment-autotest/Unity/src/unity.c:2036-2073 | a:t: selects test t of file a as the whole filter, and not when an item that matches neither follows |
| FilterSpec.CommaBecomesTestPart | assignment-autotest/Unity/src/unity.c:2036-2066 | a: does not select the test t(1, 2) of file a, and does with a comma behind it |
| FilterMatcher.IsStringInBiggerString | assignment-autotest/Unity/src/unity.c:1975-2017 | for any strings: 1, 2 or 0 by whether the pattern up to its stop occurs and how it stops; no read past a NUL |
| FilterMatcher.FindPartial | assignment-autotest/Unity/src/unity.c:2036-2046 | the end of the item and the place behind its last colon |
| FilterMatcher.SkipSeparators | assignment-autotest/Unity/src/unity.c:2048-2051 | the first character that is no separator |
| FilterMatcher.UnityStringArgumentMatches | assignment-autotest/Unity/src/unity.c:2020-2080 | for every string: terminates, reads past the NUL exactly behind a quote that the NUL follows, and otherwise answers as specified |
| FilterMatcher.LoneQuotes | assignment-autotest/Unity/src/unity.c:2027-2036 | the two filters on which it reads past the NUL |
| ArrayAsserts.AssertEqualMemory | assignment-autotest/Unity/src/unity.c:1502-1563 | passes exactly when no byte differs, reports the lexicographically first (element, byte), in both modes |
| ArrayAsserts.DiffersLaw | assignment-autotest/Unity/src/unity.c:1532-1562 | the byte that each byte is compared with, in both modes |
| ArrayAsserts.AssertNumbersArrayWithin | assignment-autotest/Unity/src/unity.c:1224-1341 | passes exactly when no elements are further apart than delta over the unbounded integers (in the unsigned styles with the gap of sign extension added), reports the first that are, in both modes |
| ArrayAsserts.FailsLaw | assignment-autotest/Unity/src/unity.c:1254-1340 | the element that each element is compared with, in both modes, and the comparison as a difference of integers |
| ArrayAsserts.LoadLaw | assignment-autotest/Unity/src/unity.c:1259-1287 | the value loaded for every raw element of every width, two's complement |
| ArrayAsserts.TestIsTooFar | assignment-autotest/Unity/src/unity.c:1254-1311 | the modular test of a pair of elements, for both styles, as a statement about their distance |
| ArrayAsserts.SignedTestIsExact | assignment-autotest/Unity/src/unity.c:1290-1300 | the modular test of the signed styles is the test on the unbounded distance |
| ArrayAsserts.UnsignedTestIsExactIff | assignment-autotest/Unity/src/unity.c:1259-1311 | exactly when the test of the unsigned styles is right about the unsigned elements |
| ArrayAsserts.UnsignedTestCanBeWrong | assignment-autotest/Unity/src/unity.c:1259-1311 | 127 and 128 as bytes fail with a tolerance of 1 |
| PointerStore.UndoAfterRun | assignment-autotest/Unity/extras/fixture/src/unity_fixture.c:142-179 | after any run of sets and other writes, undo gives every set location its value before its first set and changes no other cell |
| PointerStore.StepLaw | assignment-autotest/Unity/extras/fixture/src/unity_fixture.c:156-169 | one set or write: the new value, the untouched cells, the recorded pair |
| PointerStore.CellAfterRun | assignment-autotest/Unity/extras/fixture/src/unity_fixture.c:156-169 | after any run a cell holds the value of the last operation on it, or its first value |
| PointerStore.PointerStore.Init | assignment-autotest/Unity/extras/fixture/src/unity_fixture.c:151-154 | the store is emptied, memory is untouched |
| PointerStore.PointerStore.Set | assignment-autotest/Unity/extras/fixture/src/unity_fixture.c:156-169 | writes the new value and records location and old value, or changes nothing when the store is full |
| PointerStore.PointerStore.UndoAllSets | assignment-autotest/Unity/extras/fixture/src/unity_fixture.c:171-179 | the unwinding loop restores as the undo function says |

## Left out

- FloatPrinter.PrintFloat: takes the floating-point operations exactly, on reals, and covers zero and magnitudes from 10^-400 to 10^400, which hold every finite double; rounding of intermediate results and negative zero are not modelled.
- FloatScaling.ScaleAndRound: models the default build, which rounds ties to even, and not the one that rounds them away from zero.
- FloatPrinter.PrintScaled: excludes exponents within eight (six in single precision) of the largest int, where the code's own sum overflows, which C leaves undefined; no number reaches them.
- HeapTheorems.OverrunReportedIffCorrupted: says nothing about a client that overwrites the recorded size, since the code then looks for the trailer elsewhere.
- HeapRuns.HeapIsTiled: alignment is that of offsets into the array; the array's own start, which the code does not align, is taken as aligned.
- HeapWorld.StepKeeps: speaks of clients that free and reallocate only live blocks and write only inside payloads; a double free is undefined.
- FilterSpec.FilterMeansItems: gives no meaning to strings that start, behind an opening quote or none, with a separator (FiltersAreStrings); the matcher method covers them.
- size_t wrap-around for requests or totals near the size of the address space, and the build of the allocator on the standard malloc.
- What the driver does after it has lost its pending bytes: the model ends there, since the next write would read memory that nobody wrote; a failed copy to the user is taken to return no bytes.
- Freeing of evicted driver buffers: add_entry always returns null, so entries are values.
- llseek, ioctl command decoding, locking and module set-up of the driver.
- The assertions' messages, the ignore and already-failed checks at their start, and the floating-point assertions.
- The hexadecimal and mask printers, option parsing other than the -r number, and the include/exclude combination of two filters: single expressions over what is modelled.
- The socket server, the finder application, the system-call and threading examples, and all scripts.
