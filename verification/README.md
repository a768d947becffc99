# JARJARVIS: verified core

A Dafny model of the algorithms at the core of the JARJARVIS kernel and its libc, with
machine-checked proofs of what they promise. `dafny verify dfyconfig.toml` checks it all.

| file | models |
|---|---|
| `FreePages.dfy`, `Pmm.dfy`, `PmmInit.dfy` | the physical page allocator: a set of free pages, the bitmap that refines it, and start-up from the boot memory map |
| `PageTables.dfy`, `AddressSpaces.dfy`, `MapOutcomes.dfy`, `PageFlags.dfy`, `MemoryRuns.dfy`, `Vmm.dfy` | 4-level page tables: the processor's page walk, the ownership invariant, the effect of one map on every translation, its result for any flags, whole runs, and the manager that writes entries in place |
| `Startup.dfy` | both memory managers set up from the boot memory map |
| `Calendar.dfy` | `mktime` and `gmtime` against "Seconds Since the Epoch" (section 4.16 of IEEE Std 1003.1-2017) |
| `Line.dfy` | the line rasterizer against the rounded ideal line, on a framebuffer with or without a back buffer |
| `Console.dfy`, `PaperLaws.dfy` | the scrolling text console as a window on an endless paper roll, and what each character does to the paper |
| `Sorting.dfy` | `qsort` and `bsearch` on raw bytes with a comparator |
| `Numerals.dfy`, `ParsingLaws.dfy` | number to text and back; digits of either case, prefixes, white space and signs |
| `Tokens.dfy` | `strtok_r` and the shell's line parser, quotes included, against the maximal runs of the text |
| `Format.dfy`, `ConsoleFormat.dfy`, `FormatLaws.dfy` | `vsnprintf` and `console_vprintf` against one unbounded expansion, and what each directive means |
| `Jarfs.dfy`, `JarfsBytes.dfy` | the on-disk layout, checksum, and a format, mount, read, sync session; the bytes on disk written out |
| `Bits.dfy`, `Arith.dfy`, `Options.dfy` | shared helpers |

## How the pieces fit

**Memory.** A `World` holds physical memory (frame number to 512 entries), the free set, the
kernel's top table and the level of each table frame. `Forest` says that table frames are never
free, that a table entry leads exactly one level down, and that no table has two parents except
through one higher-half slot of several spaces. Every operation keeps it, so it holds over every
run, and from it follow the effect of a map on all translations of all spaces, isolation and
sharing. `Vmm.Manager` is the imperative code; each method equals a function on `World`.

**Where the code is narrower than it looks.** "Exactly" marks an if-and-only-if:

- `pmm_init` protects its own bitmap exactly when the bitmap is a whole number of pages;
  otherwise its last page is released as free memory. It covers every page number exactly when
  the page count is a multiple of 8; otherwise the bits of the last pages are whatever memory
  held before.
- "0 means out of memory" is right exactly when page 0 is not free. After start-up page 0 is free
  exactly when a usable entry holds it and the bitmap does not fill it, or when there are fewer
  than 8 pages and memory held its bit clear.
- `vmm_map` reads through a null pointer exactly when two or more tables are missing beyond the
  free pages; it reports no memory exactly when one is.
- Masking an entry with `PAGE_MASK` recovers the address of every possible table exactly when
  the flags fit in 12 bits, which `PAGE_NX` does not; a leaf names the requested frame exactly when
  the flags lie outside the address bits, as `PAGE_NX` does. With `PAGE_HUGE` a successful map installs
  the requested translation exactly when no table had to be created.
- A right is effective on a mapped page exactly when it was requested and the upper entries
  already there grant it: a map never widens them.
- Whether the kernel had a higher-half slot when a space was created decides for good whether
  the space follows the kernel under that slot or, until it maps there itself, sees nothing.
- `mktime` is the standard's formula exactly from 1970 on; `mktime(gmtime(t)) == t` exactly for
  `t >= -1`; `gmtime(mktime(tm))` restores a valid date exactly from 1970 on without a leap
  second. Two valid dates share a time exactly when one is a leap second and the other the
  second after it.
- `strtol` of `ltoa` is undefined exactly for `LONG_MIN` in base 10. Where it is defined it gives
  the value back exactly for non-negative values, in base 10, and for `LONG_MIN`: other bases
  drop the sign.
- What a command sees of an argument is the word up to its first quote, so nothing at all of an
  argument that starts with one.
- `vsnprintf` writes one character past its limit exactly when an unsupported directive starts
  on the last free character, as in size 2 with `%q`.
- A change of one byte changes the JARFS checksum exactly when a differing bit survives the
  shifts that follow: every change in the last 57 bytes is seen, none before the last 64. So the
  superblock's checksum does not cover its first 48 bytes, the magic number among them.
- A JARFS root block can be read back exactly when its block number fits 32 bits. A read is
  undefined exactly when its copy would leave the one-block buffer, and bytes always come out of
  the first block.

## Model

| member | source | states |
|---|---|---|
| FreePages.ZeroMeansExhausted | kernel/src/pmm.c:69-77 | The result 0 means "nothing free" for a free set if and only if page 0 is not in it |
| FreePages.AllocPage | kernel/src/pmm.c:69-77 | The address granted is that of the lowest free page, which is no longer free; with none free it is 0 |
| FreePages.ServeConserves | kernel/src/pmm.c:69-84 | One request of a client that frees only what it holds keeps free and held pages disjoint with the same union, and grants a page that nobody holds |
| FreePages.RunConserves | kernel/src/pmm.c:69-84 | Over every such run no page is lost, gained, or both held and free; the two counts always add up to the same number |
| FreePages.PutUndoesGet | kernel/src/pmm.c:69-84 | Freeing the page just granted restores the free set |
| Bitmap.WithBit | kernel/src/pmm.c:72 | Setting a bit of a byte sets that bit and no other |
| Bitmap.WithoutBit | kernel/src/pmm.c:82 | Clearing a bit of a byte clears that bit and no other |
| Bitmap.Mark | kernel/src/pmm.c:72 | In the whole bitmap exactly one page becomes used |
| Bitmap.Clear | kernel/src/pmm.c:82 | In the whole bitmap exactly one page becomes free |
| Pmm.Allocator.AllocPage | kernel/src/pmm.c:69-77 | First fit over the bitmap grants the lowest page of the free set and removes exactly that page, or returns 0 with the set empty and unchanged |
| Pmm.Allocator.FreePage | kernel/src/pmm.c:79-84 | The page joins the free set; an address past the end changes nothing |
| PmmInit.HighestTop | kernel/src/pmm.c:24-35 | The result is the largest end of a usable entry, 0 if there is none |
| PmmInit.PlaceBitmap | kernel/src/pmm.c:38-48 | The first usable entry that can hold the bitmap loses its first `size` bytes, all other entries stay; none is reported exactly when none can hold it |
| PmmInit.FillOnes | kernel/src/pmm.c:50-51 | All bits of the first `size` bytes are set, no others change |
| PmmInit.ReleaseRegion | kernel/src/pmm.c:57-62 | Exactly the bits of the region's pages below the page count are cleared |
| PmmInit.Init | kernel/src/pmm.c:18-67 | Page count, choice and carving of the bitmap's region, and for every page whether its bit is set, including bits the fill does not reach |
| PmmInit.ReleasedIsInside | kernel/src/pmm.c:56-62 | For an aligned entry the pages released are exactly those that lie inside it |
| PmmInit.CarvedPages | kernel/src/pmm.c:38-64 | For any bitmap size, the pages released are those of usable entries but for the ones the bitmap fills to the end |
| PmmInit.CarvedExactly | kernel/src/pmm.c:38-64 | With a bitmap of whole pages, the pages released are those of usable entries that hold no byte of the bitmap |
| PmmInit.BitmapIsSafeExactlyWhenWholePages | kernel/src/pmm.c:41-47 | No page with bitmap bytes is released if and only if the bitmap size is a multiple of 4096 |
| PmmInit.BitmapCoversExactlyWhenMultipleOf8 | kernel/src/pmm.c:35-36 | Every page has a bit in the reserved bytes if and only if the page count is a multiple of 8 |
| PmmInit.FreeAfterInit | kernel/src/pmm.c:18-67 | For every page count, the free pages are those of usable entries that the bitmap does not fill, and the pages of a last partial byte whose bit memory held clear |
| PmmInit.FreeWhenWholePages | kernel/src/pmm.c:18-67 | With a bitmap of whole pages these are exactly the usable pages outside the bitmap's storage |
| PmmInit.Boot | kernel/src/pmm.c:18-67 | End to end, for every aligned map without overlaps: the allocator that start-up leaves has exactly those free pages, and there is none exactly when no entry can hold the bitmap |
| PageTables.SlotsNamePage | kernel/src/vmm.c:11-15 | Two addresses have the same four indices if and only if they lie in the same page of the 48-bit space |
| PageTables.SlotsOfPage | kernel/src/vmm.c:11-15 | The indices of levels 1 to 4 are the four 9-bit digits of the 48-bit page number, lowest first |
| PageTables.FlagBits | kernel/include/kernel/memory.h:17-28 | Present is the flag of value 1 and huge that of value 128 |
| PageTables.EntryBits | kernel/src/vmm.c:64 | A bit of an entry is set exactly when it is set in the address or the flags, or is the present bit |
| PageTables.TableEntry | kernel/src/vmm.c:56-69 | An entry made for a table is present, not huge, and leads kernel and processor to that same table |
| PageTables.MaskRecoversAddressExactly | kernel/include/kernel/memory.h:12-28 | Masking recovers the address of every frame that can be a table if and only if the flags fit in the low 12 bits |
| PageTables.DescentUnique | kernel/src/vmm.c:71-84 | Two ways down that end in one level-1 table took the same turns, from the same space or through a higher-half slot |
| PageTables.LeafWriteWalk | kernel/src/vmm.c:80 | A leaf write changes no walk from any table unless that walk ends in the written slot of the written table |
| PageTables.InstallKeepsForest | kernel/src/vmm.c:61-66 | Linking a fresh zeroed page keeps the ownership invariant and all present upper entries |
| PageTables.InstallKeepsWalk | kernel/src/vmm.c:61-66 | A new empty table changes no walk from any table |
| PageTables.EnsureStep | kernel/src/vmm.c:56-69 | One call either follows an existing link, links a fresh page, or fails with no page free and nothing changed |
| PageTables.EnsurePathCorrect | kernel/src/vmm.c:74-78 | The calls down to level 1 keep the invariant and every translation, succeed exactly when enough pages are free, and leave the old upper entries followed by fresh ones |
| PageTables.OtherSlotsKept | kernel/src/vmm.c:74-76 | In the table where the calls start, only the slot of the address can change |
| MapOutcomes.FollowStep | kernel/src/vmm.c:56-69 | With any flags and past huge pages, one call follows the masked entry, links a fresh page, or fails with none free, and the missing tables less the free pages stay the same number |
| MapOutcomes.MapOutcome | kernel/src/vmm.c:71-84 | With any flags and past huge pages, success, no memory or null dereference is decided by the number of missing tables against the number of free pages, each in both directions |
| MapOutcomes.ForestIsFollowable | kernel/src/vmm.c:56-69 | Under the ownership invariant every path without huge pages can be followed, and code and processor miss the same tables |
| AddressSpaces.MapKeepsForest | kernel/src/vmm.c:71-84 | Every map keeps the ownership invariant, all tables and all present upper entries, and only takes pages from the free set |
| AddressSpaces.FailedMapChangesNothing | kernel/src/vmm.c:56-84 | A map that does not succeed leaves every walk of every space as it was |
| AddressSpaces.MapTranslates | kernel/src/vmm.c:71-84 | After success the walk of the address reads the old upper entries, then fresh ones, then the requested leaf |
| AddressSpaces.LeafFrameExactly | kernel/src/vmm.c:80 | The leaf names the requested frame to the processor for every frame if and only if the flags lie outside bits 12 to 51, as `PAGE_NX` does |
| AddressSpaces.LeafIsAsRequested | kernel/src/vmm.c:80 | The leaf is present, names the requested frame to the processor, and carries exactly the requested flags, the high ones included |
| AddressSpaces.EffectiveRights | kernel/src/vmm.c:56-84 | A right is effective on the mapped page if and only if it was requested and every upper table already there grants it |
| AddressSpaces.MapChangesOnePage | kernel/src/vmm.c:56-84 | The walk of every other page of the space, and of every page of every space that does not share the slot, is unchanged, mapped or not |
| PageFlags.HugeFlagExactly | kernel/src/vmm.c:56-84 | A successful map gives the requested 4-level translation if and only if the flags lack `PAGE_HUGE` or no table had to be created |
| PageFlags.HugeStopsWalk | kernel/src/vmm.c:64 | With `PAGE_HUGE`, the first table entry created cuts the walk short of its leaf |
| MemoryRuns.CreateKeepsForest | kernel/src/vmm.c:37-54 | Creating a space keeps the invariant, uses a page that was free and no table, and fails exactly when nothing is free |
| MemoryRuns.CreatedSpace | kernel/src/vmm.c:37-54 | A new space maps nothing in its lower half and what the kernel maps in the higher half; no other space changes |
| MemoryRuns.StepKeepsForest | kernel/src/vmm.c:37-84 | Each create, map, allocation and free of a page that is no table keeps the invariant |
| MemoryRuns.RunKeepsForest | kernel/src/vmm.c:37-84 | Over every run the tables of all spaces stay a forest of used frames, and upper entries once present never change |
| MemoryRuns.GrantIsNeverATable | kernel/src/pmm.c:69-77 | After every run the next page granted is not a table of any space |
| MemoryRuns.StepKeepsTranslation | kernel/src/vmm.c:37-84 | A step keeps every translation but that of the very page it maps, in its own space or in the higher half |
| MemoryRuns.RunKeepsTranslation | kernel/src/vmm.c:37-84 | Over every run a translation changes only if the run maps that very page, in that space or in the higher half |
| MemoryRuns.RunIsolates | kernel/src/vmm.c:37-84 | No run of maps elsewhere, creations, allocations and frees changes a lower-half translation of a space |
| MemoryRuns.LowerMapsKeepHigherHalf | kernel/src/vmm.c:37-84 | No run of lower-half maps in any spaces changes a higher-half translation of any space |
| MemoryRuns.SharedSlotStaysShared | kernel/src/vmm.c:49-50 | Two spaces with the same present top entry agree on every address under it after every run, including what either maps there later |
| MemoryRuns.CreatedSpaceOverRuns | kernel/src/vmm.c:37-54 | Presence at creation decides: over every run a created space follows the kernel under the higher-half slots the kernel had then, and sees nothing under any other slot until it maps there itself |
| MemoryRuns.LateSlotIsNotShared | kernel/src/vmm.c:49-51 | Over every run, a top slot absent in a space stays absent and everything under it unmapped, unless the space itself maps there, whatever others map under their copies |
| Vmm.Manager.constructor | kernel/src/vmm.c:28-35 | The manager starts in the state the boot loader left, with its top table |
| Vmm.Manager.GetOrCreateTable | kernel/src/vmm.c:56-69 | In place, with the zeroing loop: the new memory, free set and result are those of the functional step |
| Vmm.Manager.LeafTable | kernel/src/vmm.c:74-76 | The three chained calls equal the functional descent and say at which level a page was lacking |
| Vmm.Manager.Map | kernel/src/vmm.c:71-84 | For any flags and past huge pages, state and result equal the functional map about which the theorems speak; a null space is rejected with nothing changed |
| Vmm.Manager.MapInForest | kernel/src/vmm.c:71-84 | Under the ownership invariant, with a clear path and flags fit for tables, the call keeps the invariant |
| Vmm.Manager.Create | kernel/src/vmm.c:37-54 | State and result equal the functional creation; a failed descriptor allocation changes nothing |
| Vmm.Manager.FillTopTable | kernel/src/vmm.c:49-51 | The two loops leave the kernel's upper 256 entries and 256 zeros, and touch no other frame |
| Startup.ZeroIsFreeExactly | kernel/src/pmm.c:18-67 | Page 0 is free after start-up if and only if a usable entry holds it and the bitmap does not fill it, or there are fewer than 8 pages and memory held its bit clear |
| Startup.FreePagesReserved | kernel/src/vmm.c:28-35 | Free pages drawn from usable memory, without page 0 and within the address width, complete the ownership invariant of boot tables that lie outside usable memory |
| Startup.Start | kernel/src/vmm.c:28-35 | After both initializations the ownership invariant holds, with the boot loader's top table as the kernel's |
| Calendar.Mktime | libc/src/time.c:64-101 | The loops compute the closed form of leap-year counts; every invalid field and the null pointer give -1 |
| Calendar.MkAcceptsExactly | libc/src/time.c:71-76 | With the ranges and month lengths written out: mktime answers a date, second 60 included, if and only if every field is in its range |
| Calendar.MonthsWrittenOut | libc/src/time.c:39-45 | April, June, September and November have 30 days, February 28 or 29, all others 31 |
| Calendar.MkIsPosixExactly | libc/src/time.c:64-101 | On valid dates the result is the standard's formula if and only if the year is 1970 or later |
| Calendar.YearStep | libc/src/time.c:35-37 | The closed form grows by exactly the length of each year under the Gregorian rule |
| Calendar.MonthStep | libc/src/time.c:40-45 | The cumulative month table grows by each month's length and ends at the year's length |
| Calendar.PosixMonotone | libc/src/time.c:64-101 | A date that is earlier field by field never has the larger time, and has the same time if and only if it is a leap second and the other date the second after it |
| Calendar.PosixStrictlyMonotone | libc/src/time.c:64-101 | Without the leap second it has the smaller time |
| Calendar.RepresentationUnique | libc/src/time.c:104-145 | A time has at most one broken-down form |
| Calendar.Time.Gmtime | libc/src/time.c:104-145 | For every t >= 0 all nine fields are the unique valid broken-down form of t, so the month loop ends by December; for t < 0 the fields truncation leaves; null leaves the static buffer alone |
| Calendar.FindYear | libc/src/time.c:117-125 | The year loop splits the days into whole years since 1970 and a day within the year |
| Calendar.FindMonth | libc/src/time.c:128-134 | The month loop splits the day of the year into whole months and a day within the month, never past December |
| Calendar.Weekdays | libc/src/time.c:138-139 | The epoch is a Thursday and weekdays follow one another |
| Calendar.NegativeSplits | libc/src/time.c:104-145 | Before the epoch the fields are the one split of the time into days, hours, minutes and seconds none of which is positive |
| Calendar.MktimeAfterGmtime | libc/src/time.c:64-145 | The round trip returns t for t >= 0 and -1 for every earlier time, so it is exact if and only if t >= -1 |
| Calendar.GmtimeAfterMktimeExactly | libc/src/time.c:64-145 | A valid date comes back field by field if and only if it is from 1970 on with seconds at most 59 |
| Calendar.GmtimeAfterMktime | libc/src/time.c:64-145 | The same for the two procedures run one after the other, with the day of the year filled in |
| Calendar.FourHundredYears | libc/src/time.c:104-145 | Adding 146097 days shifts the year by 400 and leaves month, day, time, weekday and day of year |
| Calendar.YearFitsInt | libc/src/time.c:121 | The year stays within a 32-bit int if and only if t is before the end of year 2147483647 |
| Line.RoundedUnique | gui/src/jarvis_gui.c:129-141 | The rounded minor offset is the only integer within the half-open half-pixel band |
| Line.WithinHalfPixel | gui/src/jarvis_gui.c:129-141 | Every visited point is within half a pixel of the segment along the minor axis, as a bound on the cross product |
| Line.LineEnds | gui/src/jarvis_gui.c:129-141 | The line starts at the first endpoint and lands exactly on the second |
| Line.LineIsConnected | gui/src/jarvis_gui.c:138-139 | Consecutive points are distinct neighbours |
| Line.NextPoint | gui/src/jarvis_gui.c:137-139 | The two tests on the doubled error move to the next point of the rounded line and keep the error's closed form |
| Line.ErrorFits | gui/src/jarvis_gui.c:132-139 | For at most 715827882 steps the doubled error fits a signed 32-bit integer |
| Line.PixelCell | gui/src/jarvis_gui.c:113-116 | The index of a point is in range exactly for points inside, and no other cell shows that point |
| Line.PackedBytes | gui/src/jarvis_gui.c:115 | The 32-bit pixel holds each colour component in a byte of its own |
| Line.Framebuffer.constructor | gui/src/jarvis_gui.c:75-104 | A screen of zeros and, with double buffering only, a back buffer of zeros of the same size |
| Line.Framebuffer.DrawPixel | gui/src/jarvis_gui.c:112-117 | The cell of the point gets the colour as a 32-bit word, every other cell stays, in the back buffer with double buffering and else on the screen; the screen stays in the first case, and a point outside changes nothing |
| Line.Framebuffer.DrawLine | gui/src/jarvis_gui.c:129-141 | The loop ends after exactly max(abs dx, abs dy) steps, and the cells changed are exactly those of visited points inside the rectangle, in the back buffer with double buffering, when the screen stays, and else on the screen |
| Line.Framebuffer.Present | gui/src/jarvis_gui.c:106-110 | The screen shows the back buffer; without double buffering nothing changes |
| Line.Framebuffer.DrawAndPresent | gui/src/jarvis_gui.c:106-141 | With double buffering a line is not on the screen before the buffer is presented, and is there afterwards with all that had been drawn |
| PaperRoll.PosInRange | kernel/src/console.c:73-78 | The cursor's cell is always on the paper and within its last lines |
| PaperRoll.Entry | kernel/src/console.c:27-29 | A cell holds the character in its low byte and the colour in its high byte |
| PaperLaws.Newline | kernel/src/console.c:63-65 | The cursor goes to the start of the next line, and no cell changes but those of a new blank line |
| PaperLaws.CarriageReturn | kernel/src/console.c:66-67 | The cursor goes to the start of its line |
| PaperLaws.Tab | kernel/src/console.c:68-69 | The cursor goes to the least multiple of 8 above its column, or to the start of the next line when that is past the edge |
| PaperLaws.Backspace | kernel/src/console.c:70-75 | The cursor goes one column back and that cell becomes blank; at the start of a line nothing happens |
| PaperLaws.PrintableChar | kernel/src/console.c:76-86 | The cursor's cell shows the character in the current colour, and the cursor goes one column on or to the next line |
| PaperLaws.OtherChar | kernel/src/console.c:60-102 | Every other character changes nothing |
| PaperLaws.ClearAndTint | kernel/src/console.c:45-58 | Clearing shows a blank screen with the cursor in its first cell; a colour change changes no cell |
| PaperRoll.ApplyKeepsHistory | kernel/src/console.c:45-108 | One event never changes a cell that has left the screen, and never shortens the paper |
| PaperRoll.RunKeepsHistory | kernel/src/console.c:45-108 | Neither does any run of characters, colour changes and clears |
| PaperRoll.PlainText | kernel/src/console.c:76-96 | Printable text is laid down cell after cell across wrapping and scrolling, with no gap and nothing lost |
| Console.Terminal.constructor | kernel/src/console.c:31-43 | A blank light-grey screen with the cursor at the top left |
| Console.Terminal.ScrollUp | kernel/src/console.c:272-289 | The screen without its first line, followed by a blank line in the current colour |
| Console.Terminal.Clear | kernel/src/console.c:45-58 | The screen becomes a fresh window of blanks on the paper, cursor at the top left |
| Console.Terminal.SetCursorPos | kernel/src/console.c:251-256 | The cursor lands on the screen whatever is asked for; a column or line on the screen is kept, any other becomes the last |
| Console.Terminal.Strike | kernel/src/console.c:63-80 | The character's own effect on screen and column, every write in range |
| Console.Terminal.Settle | kernel/src/console.c:82-101 | Wrapping and scrolling bring screen and cursor back to the bottom window of the paper |
| Console.Terminal.PutChar | kernel/src/console.c:60-102 | For every character, scrolling or not, the screen stays the bottom window of the paper and the cursor stays inside it |
| Console.Terminal.SetColor | kernel/src/console.c:216-218 | The colour byte of later cells has the foreground in its low half and the background in its high half; no cell changes |
| Console.Terminal.SetForeground | kernel/src/console.c:220-222 | Only the low half of the colour byte changes |
| Console.Terminal.SetBackground | kernel/src/console.c:224-226 | Only the high half of the colour byte changes |
| Console.Terminal.Play | kernel/src/console.c:104-108 | Any run of characters, colour changes and clears on the screen is that run on the paper, seen through the bottom window |
| Sorting.SwapElements | libc/src/stdlib.c:147-151 | The byte loop exchanges two elements that are equal or do not overlap, and touches no other byte |
| Sorting.SwapIsSwap | libc/src/stdlib.c:146-160 | Exchanging the bytes of two elements exchanges these elements and no others, for any element size |
| Sorting.Partition | libc/src/stdlib.c:140-160 | A permutation with everything before the pivot below it and nothing after it below it; bytes outside stay |
| Sorting.Qsort | libc/src/stdlib.c:137-165 | Terminates with a permutation of the elements for any comparator, sorted for a total preorder on elements of that size, and no byte outside changed |
| Sorting.JoinSorted | libc/src/stdlib.c:162-164 | Sorted parts around a pivot that separates them are sorted together |
| Sorting.Sort | libc/src/stdlib.c:137-165 | The same on a whole array, with the elements read back from the bytes |
| Sorting.Bsearch | libc/src/stdlib.c:167-182 | On elements partitioned by the key the index found matches it, and NULL means that no element does |
| Sorting.SortedIsPartitioned | libc/src/stdlib.c:167-182 | Sorted elements are partitioned by every key that the comparator ranks among them |
| Sorting.PreorderRanks | libc/src/stdlib.c:167-182 | A total preorder ranks every key of the elements' size |
| Sorting.SortAndSearch | libc/src/stdlib.c:137-182 | Searching after sorting succeeds if and only if a matching element was in the original array |
| Numerals.NumeralDenotes | libc/src/stdlib.c:239-251 | The digits written are digits of the base and denote the value |
| Numerals.NoLeadingZero | libc/src/stdlib.c:239-251 | The text starts with 0 only for the value 0 |
| Numerals.NumeralLength | libc/src/stdlib.c:239-251 | Values below the k-th power of the base take at most k digits |
| Numerals.Truncation | libc/src/stdlib.c:213-217 | C's truncating division and remainder take the digits of the magnitude off one by one, whatever the sign |
| Numerals.EmitDigits | libc/src/stdlib.c:213-217 | The do-while loop writes the magnitude's digits, lowest first, also for negative values |
| Numerals.ReverseRange | libc/src/stdlib.c:219-221 | The two-pointer loop reverses exactly the given range |
| Numerals.Ltoa | libc/src/stdlib.c:208-223 | The buffer holds the minus sign in base 10, the digits highest first and the terminator; a bad base gives the empty string |
| Numerals.SkipPrefix | libc/src/string.c:250-259 | White space, one sign and the base prefix are passed over, and base 0 is resolved |
| Numerals.ParseRun | libc/src/string.c:261-269 | The value of the longest run of digits modulo 2^64, and where the run ends |
| Numerals.Strtoul | libc/src/string.c:248-270 | Result and end pointer are the value modulo 2^64 and the end of the digit run |
| Numerals.Strtol | libc/src/string.c:272-279 | The sign applies to the converted result, undefined when that is LONG_MIN with a minus sign; the end pointer is that of strtoul |
| Numerals.StrtoulOfUltoa | libc/src/stdlib.c:239-251 | For every 64-bit value and every base from 2 to 36, strtoul reads back what ultoa wrote and stops at the terminator |
| Numerals.StrtolOfLtoa | libc/src/string.c:272-279 | strtol of what ltoa wrote is undefined exactly for LONG_MIN in base 10, gives the value back exactly under the stated condition elsewhere, and always stops at the terminator |
| ParsingLaws.DigitTables | libc/src/string.c:262-263 | The 36 digits written out, in lower and upper case, with the values they are read as and written for |
| ParsingLaws.DigitIsInTables | libc/src/string.c:262-264 | Nothing else is read as a digit |
| ParsingLaws.RaisedParses | libc/src/string.c:248-270 | Numerals of every base are read in upper case too, up to the terminator |
| ParsingLaws.HexParses | libc/src/string.c:254-259 | 0x or 0X before a hexadecimal numeral is passed over in bases 16 and 0 |
| ParsingLaws.OctalParses | libc/src/string.c:254-257 | A 0 before an octal numeral selects base 8 in base 0 |
| ParsingLaws.DecimalParses | libc/src/string.c:258 | Other numerals are decimal in base 0 |
| ParsingLaws.SpacesAndSign | libc/src/string.c:251-252 | Leading white space and one sign of either kind do not change what strtoul reads |
| ParsingLaws.SpacesAndSignLong | libc/src/string.c:272-279 | strtol passes over them too and negates for a minus sign |
| ParsingLaws.ToLongWraps | libc/src/string.c:278 | Conversion to long keeps the value modulo 2^64 |
| Tokens.SplitStep | libc/src/string.c:200-220 | One more run found extends the list of maximal runs so far, in order |
| Tokens.SplitUnique | libc/src/string.c:200-220 | The text has only one split into maximal runs |
| Tokens.SplitIsPrefix | libc/src/string.c:200-220 | What has been split off up to some point is the beginning of the whole split |
| Tokens.WordIsCString | libc/src/string.c:213-215 | Each word then stands in the buffer as a terminated string of its own |
| Tokens.Tokenizer.Scan | libc/src/string.c:186-196 | The scan stops at the first character of the other kind or at the terminator |
| Tokens.Tokenizer.StrtokR | libc/src/string.c:200-220 | One call returns the next maximal run, overwrites only the delimiter after it and saves the place after that; NULL means only delimiters were left |
| Tokens.Tokenizer.TokenizeAll | libc/src/string.c:200-220 | Calls until NULL yield exactly the maximal delimiter-free runs of the original text, in order, changing only the delimiter after each |
| Tokens.WhitespaceIsIsspace | libc/src/ctype.c:77-79 | The delimiter set of the shell is the set of white-space characters |
| Tokens.MaskWithoutQuotes | tools/src/shell.c:143-153 | A line without quotes is split as it stands |
| Tokens.QuotedIsOdd | tools/src/shell.c:144-145 | A place is inside quotes if and only if an odd number of them comes before it |
| Tokens.Masked | tools/src/shell.c:143-153 | Every line has a mask, whose white space is the line's white space outside quotes |
| Tokens.ArgumentText | tools/src/shell.c:140-150 | The string a command sees is its word up to the first quote, the whole word when there is none |
| Tokens.Shell.EndArgument | tools/src/shell.c:142-153 | The scan ends at the first white space outside quotes, overwrites it and every quote before it, and tracks whether it is inside quotes |
| Tokens.Shell.ParseLine | tools/src/shell.c:128-158 | The arguments are the first 64 words of the whole split at white space outside quotes, in order; only the ends of these words and the quotes in them are overwritten |
| Format.SameOutput | libc/src/stdio.c:69-158 | On %d, %i, %u, %x, %s, %c and %% the two expansions are the same |
| Format.TextsAreShort | libc/src/stdio.c:81-82 | Every number of the type a directive takes fits the 32-byte local buffer |
| Format.RenderArg | libc/src/stdio.c:78-135 | The text of each directive, read back from the local buffer |
| Format.Vsnprintf | libc/src/stdio.c:69-158 | The buffer holds the first characters of the unbounded expansion and a terminator, as many as fit, one more if and only if an unsupported directive overruns; the result is their number |
| Format.SupportedFits | libc/src/stdio.c:74-151 | Formats with supported directives never overrun |
| Format.OverrunExample | libc/src/stdio.c:140-144 | Size 2 with `%q` overruns |
| FormatLaws.UnsignedPiece | libc/src/stdio.c:89-109 | On both printers %u is the decimal and %x and %X the hexadecimal numeral of the value, which strtoul reads back whole; only the console's %X is in upper case |
| FormatLaws.SignedPiece | libc/src/stdio.c:78-88 | On both printers %d and %i are a minus sign for negative values and the decimal numeral of the magnitude, which strtol reads back whole |
| FormatLaws.PointerPiece | libc/src/stdio.c:110-120 | %p is 0x and the hexadecimal numeral of the address, on the console of its low 32 bits |
| FormatLaws.TextPieces | libc/src/stdio.c:121-135 | %s is the string, or (null) for NULL, and %c the character |
| FormatLaws.LongUnsignedPiece | kernel/src/console.c:172-189 | %lu and %lx are the decimal and the hexadecimal numeral of the value, which strtoul reads back whole |
| FormatLaws.LongSignedPiece | kernel/src/console.c:176-183 | %ld is a minus sign for negative values and the decimal numeral of the magnitude |
| FormatLaws.SupportedDirectives | libc/src/stdio.c:77-139 | The supported directives are d, i, u, x, X, p, s, c and the percent sign |
| FormatLaws.ExpandLiteral | libc/src/stdio.c:146-149 | A character that is no percent sign stands for itself |
| FormatLaws.ExpandPercent | libc/src/stdio.c:136-139 | Two percent signs are one, and one at the very end stands for itself |
| FormatLaws.ExpandDirective | libc/src/stdio.c:75-135 | A directive takes one argument and is replaced by its text |
| FormatLaws.ExpandLong | kernel/src/console.c:170-190 | So do the console's directives after %l |
| FormatLaws.ExpandUnknown | libc/src/stdio.c:140-144 | Any other directive stands for itself and takes no argument |
| FormatLaws.PrintAndParse | libc/src/stdio.c:69-158 | With room enough strtoul reads back what vsnprintf left for %u, and in base 16 for %x |
| FormatLaws.PrintAndParseSigned | libc/src/stdio.c:69-158 | With room enough strtol reads back what vsnprintf left for %d |
| ConsoleFormat.ApplyAppend | kernel/src/console.c:104-108 | Typing one text after another is typing them joined |
| ConsoleFormat.Uitoa | kernel/src/console.c:349-389 | The console's own conversion, with its 16-entry table and subtraction, leaves the numeral of the value and a terminator for every value and every base from 2 to 16 |
| ConsoleFormat.RaiseLetters | kernel/src/console.c:154-159 | The loop of %X raises the letters of the buffer in place and nothing else |
| ConsoleFormat.KernelPiece | kernel/src/console.c:117-169 | The text of each directive, through the console's own conversion |
| ConsoleFormat.KernelLong | kernel/src/console.c:170-190 | The same for %lu, %ld and %lx |
| ConsoleFormat.Vprintf | kernel/src/console.c:111-206 | Printing a format lays exactly its expansion on the paper behind the screen |
| ConsoleFormat.PrintBoth | kernel/src/console.c:111-206 | On the common directives and with room enough, what console_vprintf lays on the paper is what vsnprintf left in its buffer |
| JarfsLayout.LayoutIsSound | filesystem/src/jarfs.c:133-144 | For every accepted size the regions are ordered, disjoint, large enough for their bits and inodes and inside the device, and no subtraction underflows |
| JarfsLayout.CalculateChecksum | filesystem/src/jarfs.c:116-123 | The loop computes the shift-and-xor fold of the bytes |
| JarfsLayout.BitSeen | filesystem/src/jarfs.c:116-123 | A bit of a byte with d bytes after it shows in the checksum d places higher and nowhere else |
| JarfsLayout.ChangeSeenExactly | filesystem/src/jarfs.c:116-123 | Changing one byte changes the checksum if and only if a differing bit stays within 64 bits after the shifts that follow |
| JarfsLayout.CoverageOfOneByte | filesystem/src/jarfs.c:116-123 | Every change of one of the last 57 bytes is seen, none of a byte before the last 64 |
| JarfsLayout.ChecksumSeesLast64 | filesystem/src/jarfs.c:116-123 | However many bytes before the last 64 change, the checksum stays the same |
| JarfsBytes.ChecksumOfZeros | filesystem/src/jarfs.c:116-123 | The checksum of zero bytes is zero, which with the effect of each byte fixes every checksum |
| JarfsBytes.StoredChecksum | filesystem/src/jarfs.c:157 | The last eight bytes of the superblock are, bit by bit, the checksum of the rest |
| JarfsBytes.StoredCoverage | filesystem/src/jarfs.c:157 | A change of one of the last 57 summed bytes changes the stored checksum, a change before the last 64 does not |
| JarfsBytes.MagicBytes | filesystem/src/jarfs.c:147 | The device starts with the bytes 56 52 41 4A |
| JarfsBytes.SuperblockBytes | filesystem/src/jarfs.c:146-157 | At their offsets: magic number, version 1.0, the eight counts and starts, and zeros up to the checksum |
| JarfsBytes.InodeBytes | filesystem/src/jarfs.c:162-167 | At their offsets: mode 0755 of a directory, size 4096, one block and its number, and zeros elsewhere |
| JarfsBytes.LayoutIsTight | filesystem/src/jarfs.c:136-144 | The device has all its whole blocks and one inode for every four of them, and no region has a block to spare |
| JarfsLayout.SuperblockReadsBack | filesystem/src/jarfs.c:146-160 | The magic number and each of the eight 64-bit fields read back as stored |
| JarfsLayout.SuperblockDescribes | filesystem/src/jarfs.c:146-160 | A fresh superblock carries its own checksum and the whole layout, with data_start + 1 + free_blocks = block_count |
| JarfsLayout.InodeReadsBack | filesystem/src/jarfs.c:162-167 | The root inode reads back as one block at data_start modulo 2^32 |
| Jarfs.Format | filesystem/src/jarfs.c:133-171 | Succeeds exactly for a device and a size of at least 16 MiB, and then changes the device by the superblock and the root inode only |
| Jarfs.MountDevice | filesystem/src/jarfs.c:173-198 | Succeeds exactly when memory, device size and magic number are right, with the superblock on the device and the root inode opened |
| Jarfs.Mount.Open | filesystem/src/jarfs.c:216-229 | The file holds the inode at the start of the inode table, or what memory held if that is past the device, and the position kmalloc left |
| Jarfs.Mount.Sync | filesystem/src/jarfs.c:208-214 | The superblock is resealed and written at byte 0, nothing else changes |
| Jarfs.File.Read | filesystem/src/jarfs.c:238-251 | In 64-bit arithmetic for every position and count: returns the bytes wanted, always out of the first block, and advances by their number; undefined if and only if the copy would leave the one-block buffer |
| Jarfs.WantedIsLeft | filesystem/src/jarfs.c:240-241 | Inside the file the bytes wanted are those asked for or left, and in a file of one block the copy stays in the buffer |
| Jarfs.File.ReadAll | filesystem/src/jarfs.c:238-251 | Any sequence of reads from any position in a file, where defined, returns as many bytes as asked for or left, each from its place in the first block; in a file of one block it is always defined |
| Jarfs.Session | filesystem/src/jarfs.c:173-251 | Mount, any reads and sync return the bytes of the root block from the initial position on, nothing without memory, and leave the device bytes as they were |
| Jarfs.FormattedHolds | filesystem/src/jarfs.c:133-171 | A formatted device can serve such a session if and only if data_start fits 32 bits, and the root block's bytes are untouched |
| Jarfs.FormatAndUse | filesystem/src/jarfs.c:133-251 | Format, mount, any reads and sync, for every accepted size, allocation result and initial position: what is read lies at data_start modulo 2^32, which is the root block's earlier content where that fits, and the device is as format left it |

## Left out

- PageTables.EnsurePathCorrect: that all translations are kept is stated for paths without a huge page and, when tables must be created, flags below 4096 without `PAGE_HUGE`; the lemmas on flags and on outcomes say what holds otherwise.
- Vmm.Manager.Map: a null dereference is reported as an outcome after which nothing is claimed to run.
- Vmm.Manager.constructor: the tables that the boot loader left are assumed to satisfy the ownership invariant among themselves.
- Pmm.Allocator.AllocPage: the unused counters of free and used pages are not modelled.
- PmmInit.Init: bitmap storage is an array of its own; that it is memory inside the chosen entry is covered by the lemmas on carving.
- Calendar.Mktime: `time_t` and `int` are unbounded; the bound on the year says how far 32 bits reach.
- Line.Framebuffer.DrawLine: coordinates are unbounded; the bound on the error term says how far 32 bits reach, and a null framebuffer is not modelled.
- Line.Framebuffer.constructor: failed allocations are not modelled.
- Console.Terminal.SetCursorPos: the port writes to the VGA controller are not modelled.
- Sorting.Qsort: an element size of 0 is excluded, because the source then divides by zero.
- Format.Vsnprintf: arguments must have the types their directives take, as `va_arg` demands.
- ConsoleFormat.Vprintf: the least int and the least long, whose negation C leaves undefined, and a format that ends in `%l`, where the source reads past the terminator, are excluded.
- Jarfs.File.ReadAll: starts inside the file, with counts whose sum with the file size fits 64 bits.
- Jarfs.Session: an initial position past the block is excluded; the source then reads outside its memory.
- Jarfs.MountDevice: writes of the device succeed in full; the list of mounts and the operation counters are not modelled.
- kmalloc and kfree appear only as a flag that says whether an allocation succeeds.
- Port I/O, model-specific registers, CR3 switching and invlpg: hardware interfaces.
- strlcpy, strlcat, strncpy, strncat and the other string routines: bounded copies and comparisons, on which nothing above depends.
- libc/src/math.c: floating-point series, where real arithmetic would describe different code.
- strftime, asctime and ctime: rely on `%02d`, which the formatter does not support.
- console_scroll_down, console_get_cursor_pos and console input: no part in the output path.
- jarfs_write and jarfs_unmount: a stub, and list handling.
- Shell command handlers, the AI core, the window manager, themes and virtual file system stubs: printing, allocation or empty bodies.
