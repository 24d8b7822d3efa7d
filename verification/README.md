# Verified model of the mode changer's libraries

The resolution changer of this repository sits on a small C library, `ext/libcmini`, and a build tool,
`ext/stripx`. This project models the parts of them that carry the weight, and the two places where the
application edits data of its own, and proves what they promise.

- **The heap** (`Memory`, `Tiles`, `Moves`, `HeapRuns`, `HeapImage`, `HeapSurgery`, `FreeSurgery`,
  `RegionSurgery`, `Heap`). Memory is a map of 32-bit longs at aligned addresses, in which headers, links and
  payloads lie side by side. The methods of class `Heap` make the stores of malloc, free and realloc one by one.
  A ghost sequence of tiles (region headers, free chunks, live chunks) says what the memory stands for: `Image`
  ties the two, `Tiled` says that every region is covered exactly, `AtRest` that no two free chunks touch and
  every region is in use. `HeapRuns` is the same allocator as a state machine, with what holds over every run.
- **Sorting** (`Elements`, `SortOrder`, `Qsort`, `ResTable`). qsort on a byte array with elements of any width,
  and the list of resolutions that is sorted with a comparison that never says "equal".
- **stripx** (`Executable`, `Stripx`). A loader for GEMDOS executables, the transformation, and the program over
  files with a position. The relocation stream cannot say "first fixup at 0", so a program whose first fixup is
  the first long of the new text loses all fixups; `MeaningKeptIff` gives the exact condition.
- **The calendar** (`Calendar`). gmtime and mktime as inverses, for negative times too, under the rule that every
  fourth year is a leap year. tm_yday is wrong on each 1 January after 1970, and tm_wday is wrong for negative
  times except for every seventh day; `Gmtime` states both exactly.
- **Strings and numbers** (`Strchrnul`, `Digits`, `Strtoul`, `Printers`, `MemStream`, `Conversions`, `Doprnt`).
  The search a long at a time, the parsers with exact saturation, the printers as their inverses, and vsnprintf's
  truncation. These are the departures of strtoul, strtol and itoa from ISO C11 that are stated, exactly: a number
  that is too large and has a minus gives 1 in strtoul; "0b" and "0x" are taken as prefixes, or refused, in every
  base, and "0x" also when no digit follows; a plus, and white space other than blank and tab, end the number before
  it begins; without a digit the end reported is not always the start of the string; and itoa of INT_MIN. Besides,
  errno is not set to ERANGE.
- **printf and ISO C11** (`IsoText`, `IsoFormat`, `TextWeight`, `TextValue`, `Conformance`, `Departures`). `IsoFormat`
  reads a format of integer conversions by section 7.21.6.1 of ISO C11, with all its length modifiers, on its own,
  and says what it prints, takes and stores. doprnt departs from that: a plus or space flag together with zero padding loses
  the sign; a space after a plus wins; the precision is ignored; the # flag has some wrong cases; h, hh, j, z and t
  are not known, and ll takes one long; %n does nothing. `ConversionPrintsRight` and `ConversionDoesRight` are the exact
  conditions for one conversion, `PiecesAreRight` for all of a format, `FormatPrintsRight` for its output as a whole
  when no precision and no length modifier is missed; when one is, two errors can make up for each other
  (`ErrorsCancel`, `ModifiersCancel`).
- **The environment** (`Environ`). The table as a map in which the first match wins. One way out of a valid state
  is left: setenv moves its own table and then finds no room for the string; environ then points to a table
  that was given back; `DanglingTable` goes there.
- **Configuration files** (`ConfigLines`, `SaveConfig`). Looking for a line, and replacing it. A match on the last
  line counts as none, and an empty file grows with each save; both are stated.

`Machine` has the word sizes.

`dafny verify dfyconfig.toml` checks everything.

## Model

| member | source | states |
|---|---|---|
| `Heap.Heap.Malloc` | ext/libcmini/sources/malloc.c:20-109 | It fails exactly when no free chunk has n bytes, rounded up to longs, and a header, and the system refuses, and then changes nothing and sets ENOMEM; otherwise the block is carved out of the first free chunk that suffices, after a region of the stated size was linked in if there was none: it is 4-aligned, has at least n bytes and is the only change to the set of live blocks; the heap is at rest as before; no byte of any live payload changes; MINHUNK doubles exactly when a hunk was asked for and it is below MAXHUNK |
| `Heap.Heap.Free` | ext/libcmini/sources/free.c:16-71 | A null pointer, or one whose header has no live mark, changes nothing; otherwise exactly that block leaves the set of live blocks, the heap is at rest again, and no byte of another payload changes |
| `Heap.Heap.Realloc` | ext/libcmini/sources/realloc.c:8-95 | realloc(NULL, n) is malloc, realloc(p, 0) is free, an unmarked pointer gives EINVAL; otherwise the result is a block of n bytes or more holding the first min(old payload, n) bytes of the old one, which it replaces among the live blocks, or, on failure, nothing has changed and the old block is still there; it stays, takes over the chunk behind it, or moves exactly as its size, that chunk and the request decide; other payloads keep every byte |
| `Heap.Heap.Resize` | ext/libcmini/sources/realloc.c:35-94 | The same for a live block in full: it stays if it is large enough by no more than two headers; takes over the free chunk behind if it is too small and that makes up for it; and otherwise moves to the block malloc gives, from a new region if nothing fits; if malloc gives none, a shrinking block stays and a growing one fails |
| `Heap.Heap.GrowInPlace` | ext/libcmini/sources/realloc.c:65-79 | Taking over the free chunk behind keeps the heap at rest, the payload and all other payloads |
| `Heap.Heap.RoomBehind` | ext/libcmini/sources/realloc.c:58-67 | The three tests on the node found by address say exactly that the next chunk is free and that both together suffice |
| `Heap.Heap.MoveBlock` | ext/libcmini/sources/realloc.c:37-52 | A new block, a copy and a free together: old contents up to the smaller size, the old block gone, nothing else touched |
| `Heap.Heap.FindFirstFit` | ext/libcmini/sources/malloc.c:31-35 | The walk along the links stops at the lowest free chunk of that size, or at the list head if there is none |
| `Heap.Heap.FindAfter` | ext/libcmini/sources/free.c:36-40 | The walk stops at the place where the address belongs in ascending order |
| `Heap.Heap.AddToList` | ext/libcmini/sources/malloc.c:65-85 | Linking in a region, wherever it lies among the others, gives the image of the list with its header and one free chunk, whatever the region holds |
| `Heap.Heap.TakeTail` | ext/libcmini/sources/malloc.c:87-93 | Splitting leaves the lower part free and hands out the upper part; no payload changes |
| `Heap.Heap.TakeWhole` | ext/libcmini/sources/malloc.c:94-100 | Unlinking the whole chunk keeps the ring of links around the rest |
| `Heap.Heap.NextRegionSize` | ext/libcmini/sources/malloc.c:40-52 | The size asked for: room for the request and its headers, at least MINHUNK, less than a page more than the larger of the two, in whole pages; and MINHUNK doubles exactly when the request with its headers is not greater and MAXHUNK is not reached |
| `Heap.Heap.ChunkSize` | ext/libcmini/sources/malloc.c:17 | Both hunk sizes become the given one |
| `Heap.Heap.constructor` | ext/libcmini/sources/free.c:13 | The program starts with an empty ring, nothing held, and hunk sizes of 8192 and 32768 |
| `Heap.Heap.LinkFreed` | ext/libcmini/sources/free.c:34-45 | The freed chunk is in the ring, in address order, and no longer live |
| `Heap.Heap.MergeAfter` | ext/libcmini/sources/free.c:46-52 | The tests on the next node say exactly whether the next tile is a free chunk of the same region, and then the two become one |
| `Heap.Heap.MergeBefore` | ext/libcmini/sources/free.c:54-62 | The same on the other side |
| `Heap.Heap.DropIfIdle` | ext/libcmini/sources/free.c:64-70 | A region leaves the list exactly when the chunk is all there is behind its header |
| `Heap.Heap.StoreByte` | ext/libcmini/sources/mallint.h:8-19 | A byte stored into a block of the program's own leaves the heap valid and every other payload as it was |
| `Memory.Memcpy` | ext/libcmini/sources/generic/memcpy.c:15-29 | The destination ends up with the old bytes of the source, in either direction of copying, and nothing else changes |
| `HeapRuns.StepKeeps` | ext/libcmini/sources/free.c:36-71 | Every move keeps tiling, order, coalescing and use of every region, and changes the set of live chunks by the one chunk it should |
| `HeapRuns.RunSafety` | ext/libcmini/sources/malloc.c:38-100 | After any sequence of moves from the empty heap these invariants hold |
| `HeapRuns.BlockStays` | ext/libcmini/sources/malloc.c:87-108 | A live chunk keeps its address and size through any run that does not free or extend it |
| `HeapRuns.LiveCount` | ext/libcmini/sources/free.c:16-71 | The number of live chunks is the number of allocations less the number of frees, over any run |
| `HeapRuns.EmptyExactlyWhenBalanced` | ext/libcmini/sources/free.c:64-70 | The heap holds nothing if and only if every block has been freed: all regions have then been given back |
| `HeapRuns.RegionGoesWithLastBlock` | ext/libcmini/sources/free.c:64-70 | free gives back the region of a block if and only if no other live block is in it |
| `Tiles.RegionIsCovered` | ext/libcmini/sources/malloc.c:70-82 | The sizes of the chunks of a region add up to the size its header records |
| `Tiles.RegionIsInUse` | ext/libcmini/sources/free.c:64-70 | At rest every region that is held has a live chunk in it |
| `Tiles.LiveChunksAreDisjoint` | ext/libcmini/sources/malloc.c:87-103 | No byte belongs to two chunks |
| `Moves.Cut` | ext/libcmini/sources/malloc.c:87-103 | A chunk that is larger than the request by more than a header is split and its upper part goes out, in exactly the size of the request; any other goes out whole |
| `Moves.CarveKeeps` | ext/libcmini/sources/malloc.c:87-100 | Splitting or taking a chunk whole keeps the heap tiled and at rest |
| `Moves.CarveAddsOne` | ext/libcmini/sources/malloc.c:87-100 | It adds one live chunk, large enough, and takes none away |
| `Moves.NewRegionIsFirstFit` | ext/libcmini/sources/malloc.c:65-84 | When nothing fitted before, the chunk of the new region is the first that fits |
| `Moves.ReleaseKeeps` | ext/libcmini/sources/free.c:34-71 | The closed form of free keeps the heap tiled and at rest |
| `Moves.ReleaseRemovesOne` | ext/libcmini/sources/free.c:34-71 | It takes away one live chunk, and a header only if the region is idle |
| `Moves.AbsorbKeeps` | ext/libcmini/sources/realloc.c:71-79 | Growing in place keeps the heap tiled and at rest |
| `FreeSurgery.MergedThenDropped` | ext/libcmini/sources/free.c:46-70 | Merging behind, merging in front and dropping the region, as free does it step by step, come to the closed form |
| `FreeSurgery.LinkFreeImage` | ext/libcmini/sources/free.c:42-45 | The four link stores put the chunk into the doubly linked ring and disturb nothing |
| `FreeSurgery.MergeImage` | ext/libcmini/sources/free.c:49-51 | The three stores of a merge leave the ring without the swallowed chunk |
| `FreeSurgery.DropImage` | ext/libcmini/sources/free.c:67-68 | The two stores of a release leave the ring without header and chunk |
| `FreeSurgery.AbsorbImage` | ext/libcmini/sources/realloc.c:71-79 | The stores of in-place growth leave the ring without the swallowed chunk |
| `RegionSurgery.AddRegionImage` | ext/libcmini/sources/malloc.c:70-82 | The stores that fill in a region link header and chunk into the ring at their place |
| `HeapSurgery.SplitImage` | ext/libcmini/sources/malloc.c:90-93 | The three stores of a split give the image of the split tiles |
| `HeapSurgery.WholeImage` | ext/libcmini/sources/malloc.c:97-99 | The three stores of an unlink give the image without the chunk on the list |
| `HeapImage.NodesAscend` | ext/libcmini/sources/free.c:36-40 | The nodes of the list are in strictly ascending address order |
| `Qsort.QSort` | ext/libcmini/sources/qsort.c:78-240 | For every strict weak order, every element width and every length below 2^32, the array ends up a permutation of what it was in which no element compares less than one in front of it |
| `Qsort.QuickPhase` | ext/libcmini/sources/qsort.c:94-184 | The stack phase permutes and leaves ordered segments of at most 5 elements; it ends, and never holds more than STACK_SIZE entries |
| `Qsort.QuickStep` | ext/libcmini/sources/qsort.c:103-183 | One turn makes progress: fewer elements pending, all finished cuts kept, the bound on the stack kept |
| `Qsort.Partition` | ext/libcmini/sources/qsort.c:108-154 | Rearranges only the segment; nothing left of the new bounds is greater than anything right of them; the bounds stay in the segment and meet |
| `Qsort.MedianOfThree` | ext/libcmini/sources/qsort.c:110-124 | Afterwards the three elements are in order, and all that happened is a rearrangement between the outer two |
| `Qsort.ScanUp` | ext/libcmini/sources/qsort.c:137-138 | The unguarded scan stops within the segment |
| `Qsort.ScanDown` | ext/libcmini/sources/qsort.c:140-141 | The unguarded scan stops within the segment |
| `Qsort.NextSegment` | ext/libcmini/sources/qsort.c:156-182 | What is pushed and what is continued are the parts above the threshold, the larger one pushed |
| `Qsort.StackSuffices` | ext/libcmini/sources/qsort.c:48-52 | Segments that halve from entry to entry are fewer than STACK_SIZE for any 32-bit length |
| `Qsort.PlaceSentinel` | ext/libcmini/sources/qsort.c:194-209 | Element 0 is then a least element of the whole array |
| `Qsort.InsertionPoint` | ext/libcmini/sources/qsort.c:216-220 | The scan without a lower bounds check never passes element 0, and finds where the element belongs |
| `Qsort.InsertionPhase` | ext/libcmini/sources/qsort.c:211-237 | Sorts what the first phase left |
| `SortOrder.MinimumInFront` | ext/libcmini/sources/qsort.c:200-206 | With ordered segments of at most 5, a least element is among the first 5 |
| `SortOrder.CutSurvives` | ext/libcmini/sources/qsort.c:156-182 | A finished cut stays one when a segment beside it is rearranged |
| `SortOrder.InsertionSorts` | ext/libcmini/sources/qsort.c:213-236 | Rotating the next element to its place keeps the sorted front sorted |
| `Elements.ViewInFull` | ext/libcmini/sources/qsort.c:23-35 | Element k of the array is its bytes from k times the width on |
| `Elements.SwapElements` | ext/libcmini/sources/qsort.c:23-35 | Swapping byte by byte swaps two elements and nothing else |
| `Elements.RotateElements` | ext/libcmini/sources/qsort.c:223-234 | The byte columns rotated one by one rotate the elements |
| `ResTable.CmpResIsKeyOrder` | chgres.c:294-310 | A negative result means exactly that the key (virtual size, real size, info before none, frequency) comes first in descending order |
| `ResTable.CmpResInFull` | chgres.c:294-310 | -1 exactly when, of the virtual width and height and the real width and height, the first that differs is larger, or none differs and there is information, and the other has none or a lower frequency; and 1 otherwise |
| `ResTable.ComparatorIsOrder` | chgres.c:294-310 | Although 0 is never returned, "negative" is a strict weak order, which is all that qsort looks at |
| `ResTable.ChainIsDistinct` | chgres.c:313-344 | A NULL-terminated list visits no node twice |
| `ResTable.ResList.CountRes` | chgres.c:280-291 | The length of the list |
| `ResTable.ResList.FillTable` | chgres.c:325-330 | The table holds the nodes in list order |
| `ResTable.ResList.Relink` | chgres.c:332-340 | The links follow the table, the last one is NULL, nothing but links changes |
| `ResTable.ResList.SortResTab` | chgres.c:313-344 | A NULL-terminated list of exactly the same nodes in descending order of the keys, only links changed; without the table, also for an empty list, the list as it was |
| `Executable.HeadRoundTrip` | ext/stripx/stripx.c:133-175 | Writing a header and reading it gives it back |
| `Executable.HeadLayout` | ext/stripx/stripx.c:133-149 | Which bytes of the file each field of the header is, high byte first |
| `Executable.StepsAreDistances` | ext/stripx/stripx.c:283-292 | A distance of 254 k + b is k bytes 1 and the byte b |
| `Executable.StepsShift` | ext/stripx/stripx.c:259-293 | The steps of a relocation table mean the same fixups, moved along, when the first one is moved |
| `Executable.FixShift` | ext/stripx/stripx.c:189-214 | Fixing up and cutting off the front can change places |
| `Executable.FixTwice` | ext/stripx/stripx.c:205-213 | Fixing up by a and then by b is fixing up by a + b modulo 2^32, if no two fixups overlap |
| `Stripx.File.Read` | ext/stripx/stripx.c:137-138 | The next bytes, fewer only at the end |
| `Stripx.File.Write` | ext/stripx/stripx.c:170-171 | Overwrites or appends at the position |
| `Stripx.Copy` | ext/stripx/stripx.c:155-186 | Appends exactly the next bytes, as many as asked for or as there are |
| `Stripx.Relocate` | ext/stripx/stripx.c:189-214 | Fixes up one long; refused exactly when it is not in the file |
| `Stripx.CopySteps` | ext/stripx/stripx.c:264-295 | Copies the steps up to the terminating 0 or the end, and makes exactly the fixups they stand for |
| `Stripx.CopyRelocs` | ext/stripx/stripx.c:220-296 | For a valid table: the shifted first long, the same steps, the image fixed up at the shifted offsets, and the length written; -1 for a table of 1 to 3 bytes |
| `Stripx.ReadHead` | ext/stripx/stripx.c:133-149 | The fields, or -1 for a short file |
| `Stripx.Strip` | ext/stripx/stripx.c:299-438 | Status 1 and nothing written without the binutils header; status 1 if text and data are cut off, or the first long of the relocation table; for a valid executable status 0 and exactly the stripped file |
| `Stripx.StrippedHead` | ext/stripx/stripx.c:381-386 | Its header field by field: magic, data, bss, program flags and relocation flag unchanged, text 228 less, no symbols, and the MiNT mark removed |
| `Stripx.StrippedTable` | ext/stripx/stripx.c:243-295 | Its relocation table: the first long 228 less, and behind it the same bytes up to the first 0 |
| `Stripx.OutTableFixups` | ext/stripx/stripx.c:243-261 | The new table decodes to the fixups carried over, each 228 lower |
| `Stripx.FixupsAreShifted` | ext/stripx/stripx.c:243-261 | When the first fixup is not at 228, the fixups of the stripped file are all those of the original, each 228 lower |
| `Stripx.StrippedIsLoadable` | ext/stripx/stripx.c:375-438 | The stripped file is a valid executable: magic number, segments, and fixups within them that do not overlap |
| `Stripx.StripPreservesMeaning` | ext/stripx/stripx.c:375-438 | For every load address t, the stripped file at t + 228 loads to what the original at t has behind its first 228 bytes, first fixup above 228 |
| `Stripx.MeaningKeptIff` | ext/stripx/stripx.c:243-261 | The exact condition: the meaning is kept at all load addresses if and only if the first fixup is not at offset 228 |
| `Stripx.SampleIsStrippable` | ext/stripx/stripx.c:375-438 | There are executables that can be stripped, with one fixup at any place |
| `Stripx.SampleLoses` | ext/stripx/stripx.c:243-261 | One of them, with its fixup at 228, loses it, and loads to something else |
| `Stripx.SampleKeeps` | ext/stripx/stripx.c:243-261 | With its fixup at 232, it has it at 4 afterwards |
| `Stripx.LostFixups` | ext/stripx/stripx.c:243-261 | When it is, load address 1 already shows the difference: all fixups are lost |
| `Calendar.YearStartIsSum` | ext/libcmini/sources/gmtime.c:50-67 | The closed form of the year start adds the days of each year, from 0 for 1970, both ways in time |
| `Calendar.LeapDays` | ext/libcmini/sources/mktime.c:31-56 | The truncating leap formula with its two corrections counts the leap days between 1970 and the first of the month, for every year |
| `Calendar.MonthsBegin` | ext/libcmini/sources/mktime.c:11-25 | The day of the year on which each month begins, in leap years and others |
| `Calendar.RangeInFull` | ext/libcmini/sources/gmtime.c:12-12 | The dates there are: the length of each month written out |
| `Calendar.SecondsInFull` | ext/libcmini/sources/mktime.c:31-57 | The seconds of a date written out: 365 days a year, the leap days, the days before the month, and the time of day |
| `Calendar.SecondsAreOrdered` | ext/libcmini/sources/gmtime.c:94-99 | Of two dates in range, the earlier one in lexicographic order is the one with fewer seconds, and the other way round |
| `Calendar.SecondsIdentify` | ext/libcmini/sources/gmtime.c:94-99 | No two dates in range are the same second |
| `Calendar.Tm.Gmtime` | ext/libcmini/sources/gmtime.c:18-102 | For every integer: all calendar fields in range, and they denote the time; tm_yday is wrong exactly on the first day of a year after 1970, where it is the length of the year before; tm_wday is right exactly for times from 1970 on and on every seventh day before; and both in full; tm_isdst is -1 |
| `Calendar.EndOfAugust` | ext/libcmini/sources/gmtime.c:12-12 | The second before 1 September 1970 is in 31 August |
| `Calendar.LeapDay` | ext/libcmini/sources/gmtime.c:73-76 | The second before 1 March 1972 is in 29 February |
| `Calendar.Tm.FindDate` | ext/libcmini/sources/gmtime.c:50-95 | Year, month and day in range are those of the day number; the day of the year is right except on a first day of a year after 1970 |
| `Calendar.NewYearDate` | ext/libcmini/sources/gmtime.c:50-67 | A day after 1970-01-01 is the first of a year, by the number of days alone, exactly when its date is a 1 January |
| `Calendar.WrongYearDay` | ext/libcmini/sources/gmtime.c:50-67 | For 1 January 1971 tm_yday is not 0 |
| `Calendar.WrongWeekday` | ext/libcmini/sources/gmtime.c:41-43 | For 30 December 1969, a Tuesday, tm_wday says another day |
| `Calendar.Tm.FindYear` | ext/libcmini/sources/gmtime.c:50-67 | The year found, downwards or upwards, and what is left of it; going up it may be the year before, with all its days left |
| `Calendar.Tm.FindMonth` | ext/libcmini/sources/gmtime.c:69-95 | The month and day of the day number, including the step over the end of the year |
| `Calendar.Tm.Mktime` | ext/libcmini/sources/mktime.c:9-58 | The seconds of the fields plus the time zone, for any year and any day, hour, minute and second |
| `Calendar.GmtimeThenMktime` | ext/libcmini/sources/mktime.c:9-58 | mktime(gmtime(t)) = t + timezone for every integer t |
| `Calendar.MktimeThenGmtime` | ext/libcmini/sources/gmtime.c:18-102 | The other way round a date in range comes back as it was |
| `Calendar.GmtimeIsMonotone` | ext/libcmini/sources/gmtime.c:18-102 | Later times give lexicographically later dates |
| `Strchrnul.FiresExactly` | ext/libcmini/sources/strchrnul.c:81-115 | The magic-bits test fires on exactly the longs with a zero byte or with a top byte of 128 |
| `Strchrnul.MaskedBytes` | ext/libcmini/sources/strchrnul.c:69-71 | Exclusive-or with the mask turns exactly the bytes that are c into zeros |
| `Strchrnul.NoFalseNegative` | ext/libcmini/sources/strchrnul.c:119-132 | Every long with c or NUL in it is stopped at |
| `Strchrnul.ScanLongs` | ext/libcmini/sources/strchrnul.c:78-159 | The word loop finds the first stop, misfires or not, reading only longs in which the string is |
| `Strchrnul.Strchrnul` | ext/libcmini/sources/strchrnul.c:29-163 | For every string, alignment and c: the first byte that is c (modulo 256) or NUL, not behind the end |
| `Strchrnul.FirstStopIsUnique` | ext/libcmini/sources/strchrnul.c:41-45 | So it is what a byte-by-byte search finds |
| `Strtoul.Mul32` | ext/libcmini/sources/strtoul_int.c:8-31 | Overflow is reported if and only if the product is 2^32 or more; otherwise the product is returned |
| `Strtoul.Add32` | ext/libcmini/sources/strtoul_int.c:33-45 | The sum modulo 2^32, and a carry if and only if that is not the sum |
| `Strtoul.MulAdd` | ext/libcmini/sources/strtoul_int.c:95-99 | One digit more: exact, or overflow exactly when 32 bits are too few |
| `Strtoul.ReadDigits` | ext/libcmini/sources/strtoul_int.c:86-104 | The exact number of all the digits, however many, or ULONG_MAX, and where they end |
| `Strtoul.StrtoulInternal` | ext/libcmini/sources/strtoul_int.c:47-109 | Sign, end and saturated value of what the string says, for every string and base |
| `Strtoul.Strtol` | ext/libcmini/sources/strtol.c:5-9 | The signed number, clamped to exactly LONG_MIN and LONG_MAX |
| `Strtoul.Strtoul` | ext/libcmini/sources/strtoul.c:4-8 | The signed number modulo 2^32; ULONG_MAX if it is too large, but 1 if it is too large with a minus, where ISO C11 says ULONG_MAX |
| `Strtoul.CodeValueIsDigitValue` | ext/libcmini/sources/strtoul_int.c:87-94 | In bases up to 36 the digit arithmetic on character codes accepts exactly the digits and letters, with their values |
| `Strtoul.NumberIsRead` | ext/libcmini/sources/strtoul_int.c:57-104 | Blanks, an optional minus and digits of a base from 2 to 36, or for base 0 octal digits from a zero on and decimal ones otherwise, are read as the number they denote if and only if they do not look like a 0b or 0x prefix |
| `Strtoul.PrefixedIsRead` | ext/libcmini/sources/strtoul_int.c:65-82 | Behind 0b or 0B in base 2 or 0, and behind 0x or 0X in base 16 or 0, the digits are read in base 2 and 16 |
| `Strtoul.PrefixRefused` | ext/libcmini/sources/strtoul_int.c:65-77 | In any other base such a prefix is refused, and nothing is read |
| `Strtoul.PrefixedIsRight` | ext/libcmini/sources/strtoul_int.c:65-82 | That is what ISO C11 says if and only if the prefix is 0x and a digit follows; otherwise the number should be 0 and end behind the zero |
| `Strtoul.NoDigitRead` | ext/libcmini/sources/strtoul_int.c:57-108 | Without a digit the value is 0; the end reported is the start of the string, as ISO C11 wants it, if and only if no blank and no minus is in front, or nothing is behind them |
| `Strtoul.NotSkipped` | ext/libcmini/sources/strtoul_int.c:57-63 | A number behind a plus, or behind white space other than blank and tab, is read as 0 |
| `Digits.NumeralsAre` | ext/libcmini/sources/ultoa.c:4-14 | The digits that are written, in small letters and in capitals |
| `Digits.DigitValuesAre` | ext/libcmini/sources/strtoul_int.c:87-94 | The digits that are read, with their values |
| `Digits.DigitsDenote` | ext/libcmini/sources/ultoa.c:12-14 | The digits made by repeated division denote the number and are digits of the radix |
| `Digits.NoLeadingZero` | ext/libcmini/sources/ultoa.c:12-14 | Only 0 is written with a zero in front |
| `Digits.AtMost32Digits` | ext/libcmini/sources/ultoa.c:10 | A 32-bit number has at most 32 digits, so the local buffer suffices |
| `Printers.DigitsBackwards` | ext/libcmini/sources/ultoa.c:12-14 | The digits of the value, the last one first, within the buffer |
| `Printers.ReverseInto` | ext/libcmini/sources/ultoa.c:16-19 | The text the other way round, with its NUL, and nothing behind it touched |
| `Printers.Ultoa` | ext/libcmini/sources/ultoa.c:6-22 | The buffer holds the digits of the value, for radix 2 to 16 |
| `Printers.Itoa` | ext/libcmini/sources/itoa.c:9-33 | The buffer holds the sign and the digits, for every int; for INT_MIN the digits are taken from in front of the digit table, whose contents are a parameter |
| `Printers.ItoaIsRight` | ext/libcmini/sources/itoa.c:15-22 | That is the text of the number if and only if it is not INT_MIN, or the memory in front of the table happens to hold the numeral of every digit of 2^31 in that radix, other than 0, in reverse order |
| `Printers.StrtoulOfInt` | ext/libcmini/sources/strtoul.c:4-8 | strtoul on the text of any integer: exact modulo 2^32 below 2^32 in magnitude, ULONG_MAX above, but 1 from -2^32 down |
| `Printers.Atoi` | ext/libcmini/sources/atoi.c:14-44 | The decimal number of any string, modulo 2^32 |
| `Printers.WrapIs` | ext/libcmini/sources/atoi.c:32-42 | That is, the number between -2^31 and 2^31 - 1 that differs from it by a multiple of 2^32 |
| `Printers.DecimalIs` | ext/libcmini/sources/atoi.c:16-44 | The decimal number of a string: blanks, tabs, newlines, carriage returns and vertical tabs, a plus, a minus or neither, and the digits up to anything else |
| `Printers.UltoaIsRead` | ext/libcmini/sources/ultoa.c:6-22 | strtoul reads what ultoa writes: the same value, to the end, in each radix from 2 to 16 |
| `Printers.IntIsRead` | ext/libcmini/sources/itoa.c:9-33 | strtol reads what itoa writes, with its sign |
| `Printers.ItoaIsRead` | ext/libcmini/sources/atoi.c:14-44 | atoi reads what itoa writes in decimal |
| `MemStream.Stream.AddChar` | ext/libcmini/sources/vsnprint.c:13-23 | Counts every character, and stores it exactly if it is among the first size - 1 |
| `MemStream.Stream.Finish` | ext/libcmini/sources/vsnprint.c:31-39 | The NUL goes behind what was stored |
| `MemStream.Vsnprintf` | ext/libcmini/sources/vsnprint.c:25-40 | For every text of length L and every size: the first min(L, size - 1) characters, then NUL; nothing for size 0; nothing outside; L is returned |
| `Conversions.PaddedLayout` | ext/libcmini/sources/doprnt.c:258-279 | What padding to a width is, character by character |
| `Conversions.SignedOutputIs` | ext/libcmini/sources/doprnt.c:249-279 | What %d and %i print for every flags, width and number, with the sign left out where zeros take its place |
| `Conversions.UnsignedOutputIs` | ext/libcmini/sources/doprnt.c:588-645 | What %u, %o, %x and %X print for every flags, width and number, with the prefix counted among the digits |
| `Conversions.EmitSigned` | ext/libcmini/sources/doprnt.c:228-281 | What %d and %i send to the sink, and how many characters |
| `Conversions.SignedIsRight` | ext/libcmini/sources/doprnt.c:249-269 | This is the padded, signed text of ISO C11 if and only if a plus or space flag does not meet zero padding on a number that is not negative |
| `Conversions.EmitUnsigned` | ext/libcmini/sources/doprnt.c:568-630 | What %u, %o, %x and %X send to the sink, and how many characters |
| `Conversions.UnsignedIsRight` | ext/libcmini/sources/doprnt.c:596-630 | This is the text of ISO C11 if and only if there is no # flag or its prefix comes out right: the exact cases |
| `Conversions.OutputLengths` | ext/libcmini/sources/doprnt.c:249-279 | What %d, %i, %u, %o, %x and %X print is exactly as long as sign, prefix and digits, or as the width if that is greater |
| `Conversions.PrintedIsRead` | ext/libcmini/sources/doprnt.c:228-281 | Without plus and space, strtol reads back the number that %d printed, LONG_MIN included, whatever width and padding |
| `Conversions.UnsignedIsRead` | ext/libcmini/sources/doprnt.c:568-645 | Without #, strtoul in the same base reads back the number that %u, %o, %x or %X printed, if and only if it is not a hexadecimal one that starts with b and is padded with exactly one zero |
| `IsoText.SignedExactly` | ext/libcmini/sources/doprnt.c:228-281 | For every flags, width, precision and number: %d and %i print the text of ISO C11 if and only if a sign is not lost to zeros and, with a precision, as many digits come out as it asks for |
| `IsoText.UnsignedExactly` | ext/libcmini/sources/doprnt.c:568-645 | The same for %u, %o, %x and %X: if and only if the prefix comes out right and, with a precision, as many digits come out as it asks for |
| `TextWeight.SignedNotLighter` | ext/libcmini/sources/doprnt.c:249-279 | Without a precision, whatever is wrong about a signed number makes its text heavier, or as heavy and of the same length: a sign lost or a space for a plus |
| `TextWeight.UnsignedNotLighter` | ext/libcmini/sources/doprnt.c:616-645 | The same for unsigned numbers: a prefix that is too much, misplaced or in the wrong case |
| `Doprnt.ReadItem` | ext/libcmini/sources/doprnt.c:88-181 | Flags, width, precision, length and letter of a conversion, and the arguments they take |
| `Doprnt.Doprnt` | ext/libcmini/sources/doprnt.c:44-713 | A format of text and integer conversions sends its text, and each conversion its own, as if no conversion had been before it; the count is the length |
| `Conformance.FlagsAreRight` | ext/libcmini/sources/doprnt.c:90-145 | Flags and width are read as ISO C11 wants them: the - flag or a negative width argument, 0, # and the number, always; plus and space exactly unless there is a plus and the last of the two is a space |
| `Conformance.PartsAreFound` | ext/libcmini/sources/doprnt.c:90-162 | Flags, width and precision end where they should |
| `Conformance.ConversionRendered` | ext/libcmini/sources/doprnt.c:88-697 | What doprnt prints for a conversion of ISO C11, and with which arguments it goes on: with h, hh, j, z or t, the rest of the modifier and the letter, as text, and no argument |
| `TextValue.SameSigned` | ext/libcmini/sources/doprnt.c:244-279 | If %d or %i prints the right text of some number, whatever flags, width and precision, it prints that number |
| `TextValue.SameUnsigned` | ext/libcmini/sources/doprnt.c:588-645 | The same for %u, %o, %x and %X |
| `Conformance.ConversionPrintsRight` | ext/libcmini/sources/doprnt.c:88-697 | The text of a conversion, read by ISO C11 on its own with flags, width, precision, length modifier and letter, is what ISO C11 says if and only if it is none of the bad cases: h, hh, j, z or t; ll with a number that is not its high long; a plus overruled by a space on a number that is not negative; and those of SignedExactly and UnsignedExactly |
| `Conformance.ConversionDoesRight` | ext/libcmini/sources/doprnt.c:88-697 | Text, arguments taken and number stored are all right if and only if there is no length modifier other than l, the letter is not n, and it is none of those cases |
| `Conformance.RenderedInPieces` | ext/libcmini/sources/doprnt.c:66-713 | What doprnt prints for a format that ISO C11 defines is the texts of its conversions and characters one after the other, and it stores nothing |
| `Conformance.PiecesAreRight` | ext/libcmini/sources/doprnt.c:44-713 | For every format of integer conversions that ISO C11 defines: each piece prints, takes and stores what ISO C11 says if and only if every conversion is right |
| `Conformance.FormatPrintsRight` | ext/libcmini/sources/doprnt.c:44-713 | Every format in which each conversion is right prints what ISO C11 says; and for every format in which no conversion with a precision, or a length modifier other than l, is wrong, the whole output is right if and only if each conversion is: no two errors make up for each other |
| `Departures.LetterIgnored` | ext/libcmini/sources/doprnt.c:176-181 | h, j, z, t, L, n, a and A print nothing and take no argument, and what is behind them is text |
| `Departures.ShortIsNotPrinted` | ext/libcmini/sources/doprnt.c:164-181 | "%hd" prints d and not the number |
| `Departures.CapitalLetter` | ext/libcmini/sources/doprnt.c:178-181 | D, I, U, O and P, which ISO C11 does not know, are the small letters |
| `Departures.PrecisionIsIgnored` | ext/libcmini/sources/doprnt.c:228-281 | "%.3d" of 5 prints 5 and not 005 |
| `Departures.ErrorsCancel` | ext/libcmini/sources/doprnt.c:147-162 | With precisions two errors can make up for each other: "%#o%.2d" of 0 and 0 prints the right text, with each of its parts wrong |
| `Departures.ModifiersCancel` | ext/libcmini/sources/doprnt.c:164-181 | So can they with length modifiers: "%#o%hd%x" of 0, 0 and 0xd0 |
| `Doprnt.Vsnprintf` | ext/libcmini/sources/vsnprint.c:25-40 | The buffer holds as much of what the format prints as fits, and its NUL; the length of all of it is returned |
| `Environ.FirstEntryCounts` | ext/libcmini/sources/getenv.c:20-24 | The value of a name is what stands behind the equals sign of the first string that begins with the name and one |
| `Environ.NoEntryNoValue` | ext/libcmini/sources/getenv.c:20-26 | Without such a string it has none |
| `Environ.PutIsUpdate` | ext/libcmini/sources/setenv.c:58-134 | After setenv the name has the new value if it may be replaced or had none; every other name keeps its value |
| `Environ.DropIsRemoval` | ext/libcmini/sources/setenv.c:163-178 | After unsetenv the name has no value, however many entries it had; every other name keeps its value |
| `Environ.RunIsMap` | ext/libcmini/sources/setenv.c:137-181 | Over any run of calls each name has the value that the calls about it alone give it: first match wins, like a map |
| `Environ.Environment.Getenv` | ext/libcmini/sources/getenv.c:10-27 | The value of the first entry for the name, or none |
| `Environ.Environment.Setenv` | ext/libcmini/sources/setenv.c:137-146 | Exactly when it succeeds, and then it makes exactly that update, with a value or, for a NULL value, with what the block happens to hold; a bad name gives EINVAL, a refusal of memory ENOMEM, success leaves errno alone; a failure leaves the variables as they were; the state stays valid except exactly when the string of a new variable finds no room after setenv's own table was moved |
| `Environ.Environment.AddToEnviron` | ext/libcmini/sources/setenv.c:58-134 | With a value, without one, or with the whole entry given: exactly when it succeeds, the entry then in the table, errno, and the exact condition under which a failure leaves a pointer to a table given back |
| `Environ.DanglingTable` | ext/libcmini/sources/setenv.c:77-97 | A run of two calls that ends with environ pointing to a table given back |
| `Environ.Environment.Extend` | ext/libcmini/sources/setenv.c:77-111 | The new table has the old entries and the new one, in place or moved, from the startup table or from setenv's own |
| `Environ.Environment.Unsetenv` | ext/libcmini/sources/setenv.c:149-181 | Every entry for the name is removed and no other; a bad name gives EINVAL, and otherwise errno is left alone |
| `Environ.Table.RemoveAll` | ext/libcmini/sources/setenv.c:163-178 | Shifting the entries down in place removes every entry for the name and keeps the order of the rest |
| `ConfigLines.JoinLines` | utils.c:99-125 | The lines of a file put together are the file |
| `ConfigLines.LineLenInFull` | utils.c:99-125 | A line ends with a newline, a carriage return, or both |
| `ConfigLines.MatchesInFull` | utils.c:127-149 | A line matches exactly if the text stands behind its blanks and tabs, in front of its end, a semicolon or an asterisk, and within its first 511 characters |
| `ConfigLines.NextLine` | utils.c:99-125 | The length of the line with its end, and how much of it is in front of a comment |
| `ConfigLines.FindStr` | utils.c:89-97 | Found exactly when the line starts with the text behind its white space |
| `ConfigLines.FindLine` | utils.c:127-149 | Position and length of the first line that matches; nothing remains exactly when there is none or it is the last |
| `SaveConfig.RemoveLine` | utils.c:151-163 | The buffer without that line, all other characters in order; untouched when it is not found |
| `SaveConfig.SaveMagxInf` | save.c:49-89 | The lines written are the lines read, with "#_DEV rez vmode" in place of the first line with #_DEV if that is not the last, or else behind the first with #[aes] if that is not the last, or else in front |
| `SaveConfig.LastEditCounts` | save.c:61-87 | Editing a file that is not empty twice is making the second edit alone |
| `SaveConfig.SavingTwice` | save.c:61-87 | Saving the same mode twice is saving it once if and only if the file is not empty |
| `SaveConfig.DeviceLineIsFound` | save.c:80 | The line that is written is one line, and is found again |
| `SaveConfig.FindDriver` | save.c:288-302 | The driver named on the tagged line, with its length limits |
| `SaveConfig.DriverInFull` | save.c:287-301 | The driver is the word behind #[driverN] and white space on the first such line, if that is not the last line and less than 31 characters are behind the white space |
| `SaveConfig.NoDriver` | save.c:287-301 | Otherwise there is none |
| `SaveConfig.SaveFvdiInf` | save.c:270-330 | Success exactly when the driver does not begin with #, there is one mode line inside and the file can be written; then that line is "01r driver mode WxHxP@F" and no other is changed |
| `SaveConfig.LastFvdiSaveCounts` | save.c:304-326 | A save does not change what the file says about drivers, so the second of two saves counts alone |

## Left out

- GEMDOS, AES, VDI and XBIOS calls, dialogs, list boxes, popups, cookies, reboot and shell code. `Malloc` of the system is an answer given as a parameter: nothing, or a region of the size asked for, 4-aligned, overlapping nothing of the program's and not ending at the list head.
- Heap.Heap.Malloc: requests close to 2^32, whose sum with headers and rounding would wrap around, are not covered; the bound is `MAX_REQUEST`.
- Heap.Heap.Free: pointers into blocks given back before, beyond what the mark in the header shows, are not covered.
- calloc and bcopy.
- Qsort.QSort: elements are numbered instead of addressed, and the pivot buffer is a value; the source does not check whether it got one.
- ResTable.ResList.SortResTab: an empty list is covered only when no table is granted, because otherwise the source reads entry 0 of a table without entries; the table comes from `Malloc` and goes back with `free` in the source, which is not modelled.
- Stripx.Strip: the flags -f and -s, messages, the temporary file and its renaming. Header sizes have to fit signed longs. What becomes of a relocation table that is not valid is not stated; the program's own header comment disclaims it.
- Calendar.Tm.Gmtime: time is an integer without a width; the caller's pointer to the static structure is an object.
- Strtoul.StrtoulInternal: bases are below 2^31. The test of the base at strtoul_int.c:54 is never true, so no base is refused, and none is here. errno is never set, to ERANGE or anything else, and is not modelled.
- Printers.Itoa: the 15 characters in front of the digit table, which INT_MIN is printed with, are a parameter.
- Printers.Atoi: an overflow wraps around modulo 2^32, as the processor does it.
- Doprnt.Doprnt: characters, strings and floating point; and long long as the build option STDIO_WITH_LONG_LONG has it, which the Makefile turns off: here, as in that build, ll takes one long. A missing argument reads as 0, and a format does not end in the middle of a conversion; the source relies on its caller for both. Field widths and precisions are integers without a width, and an int has 32 bits, not 16 as in the build with -mshort.
- Conformance.PiecesAreRight: formats that ISO C11 leaves undefined, and its conversions of characters, strings and floating point (c, s, a, e, f, g), are not compared. What %p prints is up to the implementation and counts as right. Of %n, where it stores is compared, and not what.
- Conformance.FormatPrintsRight: formats with a conversion whose precision or length modifier is not met are left to `PiecesAreRight`, because for the output as a whole the equivalence is false there, as `ErrorsCancel` and `ModifiersCancel` show.
- MemStream.Vsnprintf: the text that a format comes to is a parameter; `Doprnt.Vsnprintf` has the format itself.
- Environ.Environment.Setenv: strings are values, so sharing one with the caller, as putenv does, is not modelled. For a NULL value, what the block of the new string holds is a parameter.
- SaveConfig.SaveFvdiInf: whether another mode line stands in the way is decided on the text without the first one, as the code does it.
- ConfigLines.NextLine: a CR that is the last character of the file is not looked behind; the source reads one byte there.
- save_xaaes_inf, save_myaes_inf, the desktop files, remove_mode, show_info, read_assign_sys and the resolution tables.
- setjmp, strftime, doscan, strtod, startup code, directory and stdio wrappers.
