# c-kernel: a verified model of the allocator, formatter, log and waiting protocols

The project models the parts of the kernel that carry state or arithmetic worth proving, and proves what they promise over all inputs and all runs.

- **Heap** (`HeapState`, `HeapRuns`, `Words`, `Memory`, `Carving`, `HeapCopy`, `Heap`, `HeapTest`, `HeapClient`). `HeapState` gives the heap as a value: the free list as a sequence of segments and the set of live blocks, with what `malloc` and `free` do to them. `HeapRuns` proves facts over whole runs. `Memory` lays the list out in bytes, and the class `Heap.Allocator` is the allocator itself over one byte array in which headers and payloads live side by side; each of its methods is proved equal to the function on values. `Words` says where the 32-bit arithmetic agrees with the integers. `Carving` says which node serves which of many one-cell requests, and `HeapCopy` what copying the free list leaves behind. `HeapTest` is the repository's own allocator test for arbitrary requests, contents and heaps. `HeapClient` runs whole sequences of calls in memory.
- **Formatter** (`CString`, `Numerals`, `Conversions`, `Format`, `Directives`, `Printf`). `Format.Expand` says what a format and its arguments stand for, with no buffer in sight; `Printf.Vsnprintf` is the loop over a buffer, proved to store and return exactly that; `Directives` reads back what each directive put out, at any place of any format. `Numerals` defines decimal and hexadecimal text and reads it back.
- **Log** (`LogBuffer`, `RawLog`, `Logger`, `LogClient`, `DateTimeLog`). `LogBuffer` is the log one expects: lines printed and lines pending. `RawLog` is what lies in the rows, character by character, and proves when that is the log one expects. The class in `Logger` has the two writers and the dump over a two-dimensional row array, proved against `RawLog`, and `LogClient` runs whole sequences of calls.
- **Waiting** (`Clock`, `Await`, `Contexts`, `Session`, `Sleep`). `await` and `sleep` as step systems in which timer and serial interrupts land between any two steps of the main thread; a handler runs as a whole, because end-of-interrupt is sent only after it returns. `Session` is a whole program of awaits from power-on on the heap of `HeapState`: contexts come from `malloc` and go back by `free`, and `Contexts` shows where they can lie.
- **Spinlock** (`Spinlock`). Any number of threads, one access to the lock word per step.

`HeapState.Inv`, `HeapCopy.Copied`, `HeapCopy.CopyOutcome`, `HeapTest.Leads` and `Format.Yields` keep their parts behind a trigger (`Opened`, `Looked`, `Made`, `Spelled`), so that a proof sees the parts only where it asks for them.

## Where the code does not do what one would expect

Each comes with the exact condition under which the code does what one would expect, for all inputs of the members named; inputs outside their contracts are listed under "Left out".

- A request so large that the header address wraps below zero is placed outside the segment (`Words.RequestBound`, `Words.MallocSoundIff`).
- The copy made by `deep_copy` does not always equal the live list, because its own mallocs shrink nodes it has already recorded. With `Cap(j)` the number of one-cell requests that the first `j` nodes can serve, the copy finishes exactly when `Cap` of the whole list reaches its length, and then equals the live list exactly when `Cap(j) <= j` for every node `j` (`HeapTest.CopyThenDelete`, `HeapTest.AllocatorTest`); both outcomes are reached from initialization (`HeapTest.UnfaithfulCopyReachable`, `HeapTest.FaithfulCopyReachable`).
- `strncmp` returns 0 where one string ends, so a format ending in `%`, `%l` or `%ll` is taken for `%llx` (`CString.StrncmpDeviates`, `Printf.CutOffReadsAsLongHex`).
- `%u`, `%lu` and `%llu` print their value only below 2^31 (`Numerals.UnsignedExact`).
- A message or prefix of exactly 100 characters comes back with a NUL in its last place, so the line it is part of is shown cut off, and what lies behind the NUL survives the dump and shows up behind a later line (`Logger.KeptWhole`, `RawLog.WriteWholeIff`, `RawLog.ContentShows`, `RawLog.StaleShows`, `RawLog.RunsRefineIff`). The line that prints a date has that length exactly when all seven fields have two digits (`DateTimeLog.DateTimeLine`).
- A deadline that wraps 32 bits lets `await` and `sleep` return early (`Await.AwaitWaitsIff`, `Sleep.SleepWaitsIff`).
- The timer handler looks only at the first future ever registered, and can put main back to sleep after its deadline. In one await that happens exactly when the first future is due more than one tick later than the awaited one (`Await.PromptIff`). In a program of awaits it takes a wrap of the counter, or a future made later in the place of the freed first one while a different one is awaited; without either it never happens (`Session.ProgramsPromptIff`). The second case needs no more than this: await a future to its end, make a two-second one, which `malloc` puts in the same place, make a one-second one and await that.
- A thread that loses the exchange on the spinlock can fail its assertion (`Spinlock.PanicIff`, `Spinlock.PanicReachableIff`).

## Model

| member | source | states |
|---|---|---|
| HeapState.InitInv | kernel/kernel/allocator.c:50-55 | the single initial segment covers the heap and satisfies the invariant: list sorted, no two neighbours touching, head at the base, later nodes 8-aligned, free segments and live blocks tiling the heap without overlap or gap |
| HeapState.FitsIffPlaceable | kernel/kernel/allocator.c:65-74 | malloc accepts a segment exactly when some 8-aligned header with room for the request exists in it, which is exactly when its size is at least the request plus 8 plus the padding of a misaligned start; the header taken is the highest such place |
| HeapState.MallocBlock | kernel/kernel/allocator.c:61-93 | the payload is 8-aligned, its recorded size is between n and n+7, it ends where the first segment that can host it ends, no earlier segment has any room for it, and no byte of it was live |
| HeapState.MallocFails | kernel/kernel/allocator.c:64-93 | malloc gives up exactly when no placement exists in any segment |
| HeapState.MallocInv | kernel/kernel/allocator.c:77-88 | malloc keeps the invariant and hands out a block that was not live |
| HeapState.MallocShape | kernel/kernel/allocator.c:85-87 | malloc never adds, drops or moves a node; the first node that fits shrinks by between n + 8 and n + 15 bytes and all others stay as they are |
| HeapState.SlotNeighbours | kernel/kernel/allocator.c:118-134 | the insertion walk ends between the unique free neighbours of a live block, and the head lies below it |
| HeapState.FreeInv | kernel/kernel/allocator.c:103-144 | inserting and merging on both sides keeps the invariant |
| HeapRuns.FreeListCanonical | kernel/kernel/allocator.c:61-144 | in every valid state the free list is exactly the list of maximal runs found by scanning the addresses not covered by live blocks |
| HeapRuns.RunKeeps | kernel/kernel/allocator.c:61-144 | every run of malloc and free on live pointers keeps the invariant, the bounds and the total of free bytes, live bytes and headers |
| HeapRuns.ExecConcat | kernel/kernel/allocator.c:61-144 | a run of one call is that call, and a run of two parts is the second part from where the first ended |
| HeapRuns.RunCanonical | kernel/kernel/allocator.c:50-144 | after any run from initialization the list is canonical, free and live bytes add up to the whole heap, and a run that frees everything restores the initial segment |
| HeapRuns.RunsAgree | kernel/kernel/allocator.c:61-144 | two histories that leave the same blocks live leave the same list node for node |
| HeapRuns.FreeOrderIrrelevant | kernel/kernel/allocator.c:118-144 | freeing the same blocks in any two orders gives the same heap |
| HeapRuns.FreeUndoesMalloc | kernel/kernel/allocator.c:61-144 | free after malloc restores the exact heap, so the same request gets the same address again |
| HeapRuns.FreeKeepsCapacity | kernel/kernel/allocator.c:118-144 | freeing never makes a servable request fail, and makes every request that fits in the freed block servable |
| HeapRuns.MallocConserves | kernel/kernel/allocator.c:77-88 | free sizes plus live sizes plus 8 per header are unchanged by malloc |
| HeapRuns.FreeConserves | kernel/kernel/allocator.c:103-144 | the same total is unchanged by free and its merges |
| Words.RequestBound | kernel/kernel/allocator.c:65-74 | the 32-bit header address and test agree with the integers exactly when the request is not in the range that wraps below zero; in that range the segment is accepted and the block misplaced |
| Words.MallocSoundIff | kernel/kernel/allocator.c:61-93 | over the whole list, malloc in 32 bits stays inside the segment it picks exactly when no segment misplaces the request, and then picks what the integers pick; n + 8 <= end of the head segment suffices, and with a head of at least 14 bytes is also necessary |
| Memory.KeptInBlock | kernel/kernel/allocator.c:61-144 | an operation that writes only free bytes changes no byte of a live block, header or payload |
| Memory.EqualsIff | kernel/kernel/allocator.c:146-151 | the recursive comparison of two lists in memory is true exactly when they have the same length and the same sizes node by node |
| Heap.Allocator.constructor | kernel/kernel/allocator.c:50-55 | initialization writes one segment from the end of the kernel to the end of the memory region |
| Heap.Allocator.Malloc | kernel/kernel/allocator.c:61-94 | the loop over memory returns and leaves exactly what malloc on values does, fails exactly when that fails, and writes only bytes that were free |
| Heap.Allocator.Free | kernel/kernel/allocator.c:103-116 | free in memory leaves exactly what free on values does, never reaches its panic, and writes only bytes that are free afterwards |
| Heap.Allocator.InsertSegment | kernel/kernel/allocator.c:118-137 | the walk and the two merges leave the merged list in memory, keep every live header and write only the two headers |
| Heap.Allocator.MergeSegments | kernel/kernel/allocator.c:139-144 | touching neighbours become one node in memory, others stay, and only the first header is written; a NULL successor is never taken for a touching one |
| Heap.Allocator.Poke | kernel/kernel/allocator.c:185-193 | a client writing its own payload disturbs neither the list nor any header |
| Carving.CellsAre | kernel/kernel/allocator.c:61-93 | a segment serves (size - padding) / 16 requests of one cell, with padding what misaligns its start; so the conditions on copies are arithmetic on sizes |
| Carving.AfterSeg | kernel/kernel/allocator.c:61-93 | how c requests of one cell spread over the list: node j gives what exceeds the capacity of the nodes before it, up to its own |
| Carving.NoneStaleIff | kernel/kernel/allocator.c:163-172 | the sizes that c + 1 requests show for node c are those that all requests leave exactly when, for every j, the nodes before j can serve at most j cells |
| Heap.Allocator.DeepCopy | kernel/kernel/allocator.c:163-172 | copying from node i on finishes exactly when the list has capacity for one cell per node left; the list is then that after so many one-cell requests, and cell c records the size node i + c had after c + 1 of them |
| Heap.Allocator.FreeSegmentDelete | kernel/kernel/allocator.c:174-179 | all cells of a copy, and nothing else, are freed |
| HeapTest.CopyThenDelete | kernel/kernel/allocator.c:163-199 | copy then delete restores the heap node for node and finishes exactly when the capacity covers one cell per node; the comparison in between is true exactly when no node's predecessors can serve more cells than were asked for before its own |
| HeapTest.AllocatorTest | kernel/kernel/allocator.c:182-200 | the repository's test with arbitrary request sizes and payload contents on any heap: it completes exactly when copy and both requests find room, restores the heap, and its comparison is true under the same condition as for the copy alone |
| HeapTest.UnfaithfulCopyReachable | kernel/kernel/allocator.c:163-172 | on every heap of at least 160 bytes, two mallocs and a free from initialization lead to a list whose copy finishes and differs |
| HeapTest.FaithfulCopyReachable | kernel/kernel/allocator.c:163-172 | likewise to a two-segment list whose copy finishes and equals it |
| HeapClient.RunCalls | kernel/kernel/allocator.c:61-144 | any run of malloc and free in memory ends in the state of the run on values, or in its panic, and a block live throughout keeps every byte of header and payload |
| CString.Memmove | libc/string/memmove.c:3-12 | with any overlap the destination ends up with the old source and every other character is unchanged |
| CString.Strlen | libc/string/strlen.c:3-7 | the position of the first NUL |
| CString.Memset | libc/string/memset.c:3-7 | the first n characters are set and the rest unchanged |
| CString.Strncmp | libc/string/strncmp.c:3-16 | 0 exactly when the strings agree up to the end of the shorter or num, otherwise the sign of the first difference of signed characters |
| CString.StrncmpDeviates | libc/string/strncmp.c:5-6 | it calls different strings equal exactly when one ends inside the compared range as a proper prefix of the other |
| Conversions.Reverse | kernel/kernel/utils.c:9-19 | the first len characters are reversed in place and the rest unchanged |
| Conversions.ToStr | kernel/kernel/utils.c:21-45 | for every int above the least one the buffer holds its decimal text of at most 11 characters and a NUL; the rest is unchanged or cleared |
| Conversions.IntToHex | libc/stdio/printf.c:17-24 | the buffer holds the low digits of the value and a NUL, the rest unchanged |
| Numerals.DecReads | kernel/kernel/utils.c:21-45 | the decimal text reads back to the value and has no leading zero |
| Numerals.DecUnique | kernel/kernel/utils.c:21-45 | no other text without leading zeros reads back to the value |
| Numerals.UnsignedExact | libc/stdio/printf.c:36-38 | printing an unsigned value through an int gives its own numeral exactly when it is below 2^31 |
| Numerals.HexRoundTrip | libc/stdio/printf.c:17-24 | k digits are lowercase hexadecimal and read back to the value modulo 16^k |
| Numerals.HexExact | libc/stdio/printf.c:103-114 | the 8 digits of %x and the 16 of %llx read back to the argument itself |
| Format.ExpandPlain | libc/stdio/printf.c:44-52 | a format without directives expands to itself |
| Format.ExpandConcat | libc/stdio/printf.c:44-149 | concatenated formats with concatenated arguments expand to the concatenated texts |
| Directives.Inside | libc/stdio/printf.c:44-149 | what a piece of a format puts out, it puts out at any place of any format |
| Directives.HexDirective | libc/stdio/printf.c:103-107 | %x of any 32-bit value puts out eight lowercase hexadecimal digits that read back to it |
| Directives.LongHexDirective | libc/stdio/printf.c:109-114 | %llx of any 64-bit value puts out sixteen such digits |
| Directives.IntDirective | libc/stdio/printf.c:91-95 | %d of any int above the least one puts out a numeral without leading zeros that reads back to it |
| Directives.UnsignedDirectives | libc/stdio/printf.c:97-127 | %u, %lu and %llu put out a numeral that reads back to the value below 2^31 and otherwise to the int with the same low 32 bits |
| Directives.CharDirective | libc/stdio/printf.c:71-78 | %c puts out one character, of code i modulo 256 |
| Directives.StringDirective | libc/stdio/printf.c:80-89 | %s puts out the string |
| Directives.PercentDirective | libc/stdio/printf.c:56-63 | %% puts out one percent sign |
| Directives.UnknownDirective | libc/stdio/printf.c:131-139 | what starts no directive comes out as it stands |
| Printf.Recognise | libc/stdio/printf.c:56-129 | the chain of tests, three of them by strncmp, recognises exactly the directive the format starts with |
| Printf.CutOffReadsAsLongHex | libc/stdio/printf.c:109-114 | the first strncmp accepts exactly the long hex directive and the formats that end inside a directive |
| Printf.Scratch | libc/stdio/printf.c:91-127 | the text built in the 32-character scratch buffer is the text of the directive and never overruns it |
| Printf.Echo | libc/stdio/printf.c:131-139 | an unknown directive is put out as '%' and the next character |
| Printf.Vsnprintf | libc/stdio/printf.c:40-160 | returns the full length of the expansion, stores the prefix of length min(length, bufsz-1) and a NUL, and changes no other character, for any bufsz including 0 |
| LogBuffer.LogConserved | kernel/kernel/circular_buffer.c:20-93 | over every run of writers, refused writers and dumps, lines printed followed by lines pending are exactly the lines written in order, and at most 49 are pending |
| LogBuffer.PrintedAndPending | kernel/kernel/circular_buffer.c:22-27 | of m lines written after any calls and a dump, the first (m - 1) / 49 * 49 are printed and the others pending |
| LogBuffer.PrintedFromStart | kernel/kernel/circular_buffer.c:22-27 | the same from start-up, without the dump |
| LogBuffer.PrefixExpands | kernel/kernel/circular_buffer.c:71 | the prefix format of the plain writer expands to "[level] file:line " |
| LogBuffer.ColoredPrefixExpands | kernel/kernel/circular_buffer.c:35 | the prefix format of the colored writer expands to the color and the same prefix |
| Logger.KeptWhole | libc/stdio/printf.c:151-157 | for any buffer size, reading back as many characters as vsnprintf reported gives the text exactly when it is shorter than the buffer, and at just that size the text with NUL for its last character |
| Logger.BuildMessage | kernel/kernel/circular_buffer.c:65-68 | the reported size lies within the 100-character buffer exactly for texts of up to 100 characters, and those come back as `Logger.KeptWhole` says |
| RawLog.WriteIs | kernel/kernel/circular_buffer.c:44-46 | on clean rows a write adds to the log what the copied characters show before the first NUL, and keeps the rows clean exactly when nothing but NUL follows it |
| RawLog.DumpIs | kernel/kernel/circular_buffer.c:87-93 | a dump prints what the rows show, and leaves every row zero exactly when the rows were clean before |
| RawLog.ContentShows | kernel/kernel/circular_buffer.c:44-46 | a prefix of 100 characters is shown without its last one and hides the rest of the line; a message of 100 is shown without its last one; what is hidden, the reset sequence included, stays behind the NUL |
| RawLog.WriteWholeIff | kernel/kernel/circular_buffer.c:44-46 | the log gains exactly the line that prefix, message and reset spell if and only if the first two are shorter than 100 characters and none holds a NUL |
| RawLog.StaleShows | kernel/kernel/circular_buffer.c:87-93 | after a prefix of 100 characters and a dump, a later line of 100 characters is shown with the old message and reset behind it |
| RawLog.RunsRefineIff | kernel/kernel/circular_buffer.c:20-93 | every run of writers, refusals and dumps from start-up with texts up to a bound leaves the log it means if and only if the bound is below 100; the failing run is one message of 100 characters behind an ordinary prefix |
| RawLog.RunConserves | kernel/kernel/circular_buffer.c:20-93 | over every such run with texts below 100 characters, the lines printed and then the lines that the rows in use show are the lines written, in order, and the other rows are zero |
| LogClient.ServeAll | kernel/kernel/circular_buffer.c:20-93 | any sequence of writer and dump calls in memory, up to the first refused line, leaves the rows and the console of the run on values |
| LogClient.ServedPrints | kernel/kernel/circular_buffer.c:20-93 | in such a run from start-up with any calls, a dump and m lines of short texts, printed are the lines written before the dump and the first (m - 1) / 49 * 49 after it, and the rows show the others |
| LogClient.ServedStops | kernel/kernel/circular_buffer.c:39-42 | a line of more than 900 characters ends the run: nothing after it is served |
| DateTimeLog.DateTimeLine | kernel/kernel/io/rtc.c:97-101 | for any 8-bit fields the date line expands to its labels and numbers, 86 characters and the digits; with fields of at most two digits it has at most 100 characters, and exactly 100 if and only if all seven have two |
| DateTimeLog.DateFormat | kernel/kernel/io/rtc.c:98-99 | the format of that line, written out |
| Logger.LogRows.PrintF | libc/stdio/printf.c:26-34 | the expansion is appended to the console and its length returned; one of exactly 1024 characters has NUL for its last |
| Logger.LogRows.WriteToBuffer | kernel/kernel/circular_buffer.c:56-85 | the prefix and message, as their buffers give them back, cover the front of the next row; nothing is printed and one more row is used, unless 49 rows were in use: then these are printed first and one is used; a line of more than 900 characters is refused after at most that dump; all other characters of all rows are unchanged |
| Logger.LogRows.WriteToBufferColored | kernel/kernel/circular_buffer.c:20-50 | the same with color and reset sequence |
| Logger.LogRows.DumpBuffer | kernel/kernel/circular_buffer.c:87-93 | what the rows in use show is put on the console in order, one row per line, exactly these characters are zeroed, and no row is in use after it |
| Clock.HonestIff | kernel/kernel/future.c:18-25 | an expired deadline means the full time has passed exactly when computing it did not wrap |
| Await.AwaitWaitsIff | kernel/kernel/future.c:18-53 | await on a created future waits its full time in every interleaving exactly when the deadline did not wrap; otherwise some interleaving returns early |
| Await.PromptIff | kernel/kernel/future.c:36-81 | without a wrap of the counter, main executes hlt at most once after the deadline in every interleaving, lost wake-ups included, exactly when the first registered future is due at most one tick after the awaited one or the awaited one is due already |
| Contexts.ContextKept | kernel/kernel/allocator.c:61-144 | when all requests are for contexts, a context is either a given live block or apart from it, and no header of the list lies on its word |
| Session.ContextsWhole | kernel/kernel/future.c:13-16 | over any program from power-on, nothing handed out later overlaps a context in part, and no header ever lies on it: a freed context keeps its deadline until another takes its very place |
| Session.ProgramsPromptIff | kernel/kernel/future.c:13-81 | over all programs that make and await futures from power-on on a heap of any size and all interleavings, with at most k counter wraps and at most j awaits begun while another future occupies the first one's freed context: at most one hlt after each deadline if and only if k = 0 and j = 0, where a heap with room for one context allows any j and one with room for none any k |
| Session.RoomIn64Bytes | kernel/kernel/future.c:13-16 | a heap of 64 bytes has room for two contexts, so both failing runs exist there |
| Session.MadeWaitsIff | kernel/kernel/future.c:18-53 | a future made at moment t for n seconds, on any heap, with anything in between that does not await it: in every such program and interleaving its await is over no earlier than t + 256 n, exactly when t (modulo 2^32) + 256 n does not wrap |
| Session.MadeFinishes | kernel/kernel/future.c:18-53 | in a program from power-on with no counter wrap and no await begun while another future occupied the first one's place, the await of such a future is over, or has seen fewer effective steps than the ticks left to t + 256 n and six |
| Session.OutOfMemoryStops | kernel/kernel/allocator.c:90-94 | without room for its context, making a future is the last thing a program does |
| Session.AwaitsFinish | kernel/kernel/future.c:36-53 | in programs with k = 0 and j = 0 every await under way is over, or has seen fewer effective steps than there are ticks to its deadline and six |
| Await.AwaitFinishes | kernel/kernel/future.c:44-50 | as many effective steps as there are ticks up to the deadline, and at most six more, finish await whatever else interleaves |
| Await.HaltsIff | kernel/kernel/future.c:44-48 | having seen its future pending, main executes hlt exactly when no interrupt came since it cleared SHOULD_POLL, or the last one was the timer's and found the first future not due (so that a serial wake-up before it is lost); otherwise it polls again |
| Await.HaltsAgainIff | kernel/kernel/future.c:47-49 | asleep, it is woken by any interrupt and halts again exactly when the last one was such a timer interrupt |
| Await.SleepsOrFinishes | kernel/kernel/future.c:44-50 | left alone, main is asleep or done after five steps |
| Await.FinishedExpired | kernel/kernel/future.c:31-50 | a finished await saw the deadline expired at some moment of the run |
| Sleep.SleepWaitsIff | libc/stdlib/unistd.c:5-10 | sleep, called at any time and taking its first step at moment b, returns no earlier than b + 256 s in every interleaving, exactly when b (modulo 2^32) + 256 s does not wrap |
| Sleep.SleepReturns | libc/stdlib/unistd.c:5-10 | a call of sleep has returned, or has seen fewer than 256 s + 4 effective steps, and executes at most one hlt past its deadline, in every interleaving |
| Sleep.TimeCounts | libc/stdlib/unistd.c:5-10 | the time of a run is the number of its timer interrupts |
| Sleep.SleepsOrReturns | libc/stdlib/unistd.c:9 | left alone, main is asleep or has returned after three steps |
| Spinlock.InvStep | kernel/kernel/spinlock.c:9-43 | every step of every thread keeps: the word is 1 exactly when one thread owns the lock |
| Spinlock.MutualExclusion | kernel/kernel/spinlock.c:16-43 | in every interleaving of any number of threads at most one thread holds the lock |
| Spinlock.LockReturnsHolding | kernel/kernel/spinlock.c:16-24 | in any run, a thread found in spin_lock and idle later held the lock in between |
| Spinlock.CallOutcome | kernel/kernel/spinlock.c:9-43 | a call by an idle thread, with any steps of others between its own: if no thread owned the lock at its exchange it wins; otherwise spin_trylock comes back without the lock and spin_lock exchanges again, save that both panic when the lock is released before their assertion |
| Spinlock.WinnerHolds | kernel/kernel/spinlock.c:19-23 | the winner of spin_lock's exchange comes out of it with the lock |
| Spinlock.UnlockReleases | kernel/kernel/spinlock.c:26-34 | the holder's spin_unlock keeps the word 1 until its third step, which makes it 0 and leaves the thread idle |
| Spinlock.UnlockByAnyone | kernel/kernel/spinlock.c:26-34 | in any state, whoever calls it, spin_unlock panics exactly when it finds the word 0 and otherwise makes it 0 |
| Spinlock.PanicIff | kernel/kernel/spinlock.c:12-31 | a step panics exactly when a thread that lost its exchange finds the lock released before its assertion; the asserts of winners and the panic of unlock are unreachable |
| Spinlock.PanicReachableIff | kernel/kernel/spinlock.c:9-43 | n threads that unlock only what they hold can reach a panic if and only if n is at least 2 |

## Left out

- Heap.Allocator.Malloc: the panic is a failed result, and requests that some segment misplaces are excluded by the exact condition of `Words.MallocSoundIff`.
- Heap.Allocator.constructor: the search for the memory map entry is not modelled; start, end and length are parameters, and the region ends below 2^32.
- Heap.Allocator.DeepCopy: a heap that begins below address 8, where an 8-byte request could wrap, is excluded.
- Heap.Allocator.Free: freeing anything but a live payload pointer, and client writes to headers, are outside the contract.
- Printf.Vsnprintf: formats cut off inside a directive, arguments that do not match, the least int, and expansions longer than the largest int are excluded; characters are bytes, and the argument list is a sequence of values.
- Logger.LogRows.WriteToBuffer: a message or prefix of more than 100 characters that still fits a row together with the other makes memcpy read past its buffer (`Logger.BuildMessage` says when), which is excluded; for a longer line the model stops where panic is called, which then dumps the rows, prints its message and never returns (kernel/kernel/panic.c:7-15).
- Logger.LogRows.WriteToBufferColored: the same exclusion and the same end of a refused line as for the plain writer.
- LogBuffer.LogConserved: runs go on after a refused line, which covers more than the code does, since its panic never returns; `LogClient.ServeAll` stops there.
- Logger.LogRows.PrintF: expansions of more than 1024 characters, which print reads past its buffer, are excluded.
- Await.PromptIff: runs in which the 32-bit tick counter wraps are excluded; `Session.ProgramsPromptIff` has them.
- Await.AwaitFinishes: runs in which the 32-bit tick counter wraps are excluded, and the handler is assumed to wake main in time (`Await.Watched`); `Session.AwaitsFinish` says for which programs it does.
- Session.ProgramsPromptIff: futures are the only users of the heap, as they are outside the allocator's own test.
- Sleep.SleepReturns: runs in which the 32-bit tick counter wraps are excluded.
- Session.MadeWaitsIff: a second await of a future that is finished, whose context is freed, is not an action of the model.
- Directives.UnsignedDirectives: values whose low 32 bits are those of the least int, which the conversion is not defined for.
- The capacity check of the future list lets an eleventh entry in beyond the array; the list is unbounded in the model (the failing runs of `Session.ProgramsPromptIff` register two futures).
- IO futures: their readiness is decided by the device.
- Nesting of interrupt handlers: each handler runs as a whole.
- Memory ordering of the processor: steps of threads interleave on one shared word.
- The loop that moves the start of an unknown directive to the next '%': the start is at one, so it stops at once.
- Port I/O, descriptor tables, PCI, RTC and UART registers, the terminal: hardware effects.
- memcmp, memcpy outside the log rows, puts: none of the properties above needs them.
