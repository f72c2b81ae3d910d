# Verified models of the memory pool, log4cpp and the epoll framework

This project models the parts of the repository that carry invariants, arithmetic
or parsing, and proves what they promise: for every input, every run of calls and
every answer of malloc, the kernel or a handler. `dafny verify dfyconfig.toml`
checks all of it. Code that changes things in place is a class or a method with
its loops, proved against a function of the old state; the promises are lemmas
about those functions and invariants over runs.

- **Memory pool** (`demo/memory_pool`). `RawMemory` is the 64-bit memory with the
  regions malloc has handed out; which address malloc returns, if any, is a
  parameter. `PoolModel` is the pool as a value and the effect of each call on it,
  `PoolProofs` and `PoolRuns` are what every call and every run keep. `PoolLayout`
  and `PoolSteps` say how that value lies in memory (struct sizes 56, 32 and 16,
  fields at their offsets), and `MemoryPool` has the calls themselves, word by
  word. Every load and store falls into allocated memory, every free is the first
  of its region. Good pools have a size of at least 96 that is a multiple of 8, as
  `NGX_MIN_POOL_SIZE` and the alignment ask; what happens otherwise is
  `PoolRuns.RoomTestExactlyWhenAligned`.
- **Bounded formatter** (`snprintf.c`). `FormatSpec` reads a format and its
  arguments as chunks to write, with every subtraction of the source in `size_t`;
  `FormatProofs` says what comes of that. `IsoFormat` is a second reading of formats
  that owes nothing to the source: the text that section 7.19.6.1 of ISO/IEC
  9899:1999 asks for. `IsoProofs` says exactly when the two agree, `WidthFormats`
  works out formats of one width and one conversion. `BoundedFormat`
  has the loops and the `as*printf` wrappers, `GrowAndRetry` the retry loop of
  `StringUtil::vform`, stopped after any number of turns.
- **Properties** (`Properties.cpp`, `StringUtil`): `Strings`, `InputStream`,
  `Substitution`, `Properties`.
- **Configuration scan** (`PropertyConfiguratorImpl.cpp`): `ConfiguratorScan`.
- **Pattern layout** (`PatternLayout.cpp`): `PatternLayout` parses and prints,
  `PatternPrinting` has a printer of patterns and the proof that parsing undoes it,
  `PatternMeaning` what single specifiers print and which patterns are refused.
- **Rolling files** (`RollingFileAppender.cpp`): `RollingFile`, over a directory
  that maps names to contents.
- **Categories** (`Category.cpp`, `HierarchyMaintainer.cpp`): `AppenderOwnership` for
  one category, `CategoryHierarchy` for the tree of them, `CategoryRuns` for whole
  runs of calls, with what they delete and where they send events.
- **epoll framework** (`comm.c`, `comm_epoll.c`): `EventLoop` is the framework and
  the kernel's interest set as one value, with handlers that may do anything;
  `EventRuns` takes whole runs apart into elementary moves; `EpollFramework` has the
  calls over their arrays.
- **Syslog packets** (`RemoteSyslogAppender.cpp`): `SyslogPackets`.

Strings are sequences of bytes without an encoding. Locks are left out: each
locked body is one step.

## Where the code does not do what it is for

Each of these is a lemma or a contract with the exact condition, and inputs that show it.

- The formatter subtracts the length of the contents from the field width in
  `size_t` (lines 917, 945 and 994 of `snprintf.c`). For every format made of the
  conversions it supports (`% c s d i u o x X p`, the modifiers h, l and ll on
  integers, nothing ISO C leaves undefined), it returns the length ISO C asks for,
  and leaves the ISO text in a buffer with room for it, exactly when every field is
  at least as wide as its contents (`IsoProofs.ReturnExactlyWhenWide`,
  `BufferExactlyWhenWide`). `"%s"` alone returns 0 (`PlainStringReturnsZero`). What a
  narrow field does to the buffer is `FormatProofs.NarrowField`.
  Other modifiers are taken for conversions, and every later argument goes to the
  wrong one (`UnknownModifierShifts`).
- With that formatter `vform` never ends exactly when the widths and the literal
  text add up, modulo 2 to the 32, to 2 to the 31 or more; when they add up to one
  less, `n + 1` is past the largest int, as it is for any length that is reported as
  2 to the 31 less 1. So a width serves in `"%<w>s"` exactly when it is below that
  (`GrowAndRetry.Vform`, `EndlessExactly`, `WideStringIsEndless`).
- The room test of the pool wraps for some fill exactly when the block size is no
  multiple of 8 (`PoolRuns.RoomTestExactlyWhenAligned`); a pool of any such size, up
  to a page, gets there with two calls (`PoolRuns.UnalignedPoolOverruns`). The search for a free
  large node looks at five nodes, where its comment says four (`PoolModel.Slot`).
- `%c{k}` prints the last k segments except for names that start with a dot and
  have fewer than k dots (`PatternLayout.PrecisionIsLastSegments`).
- A width in front of `%%` or `%n` waits for the next conversion: a pattern is read
  as it was meant exactly when no such width meets a conversion that leaves that
  width out (`PatternPrinting.CarriedExactly`, and `WidthIsCarried` for `"%5%%m"`).
- The configuration scan rejects an appender that is defined when the name of
  another one continues its name with a character below '.', such as `A` and `A-B`
  (`ConfiguratorScan.ScanCompletesExactly`, `DashCutsIn`).
- Adding a descriptor to epoll that is not open or that the kernel refuses leaves a
  shadow entry behind (`EventLoop.FailedAddIsLost`), and nothing but closing the
  descriptor gets it registered again (`EventLoop.RefusedAddSticks`); asking for
  reads drops the interest in writes (`EventLoop.LastUpdateWins`); a descriptor that
  expires without a handler is closed exactly when it is not 0
  (`EventLoop.ExpiredIsClosed`). Shadow and kernel agree throughout a run exactly
  when handlers are set for open descriptors only and no epoll_ctl for it is refused
  (`EventRuns.RunAgreesExactly`).
- An appender handed over to a category is deleted, at the latest with the category,
  exactly when it was not attached at the time of some hand-over; so one that was
  lent first is not (`AppenderOwnership.HandedOverIsDeleted`, `LentStaysLent`). Over
  the whole hierarchy it is deleted as often as categories took it, so twice when two
  own it (`CategoryRuns.DeletedAsTaken`, `TwoOwnersDeleteTwice`).
- An event can go to a deleted appender exactly from when an owner deletes one that
  another category has attached, or a deleted one is attached again
  (`CategoryRuns.MisdeliversExactly`, `LentOutlivesItsOwner`).

## Model

| member | source | states |
|---|---|---|
| RawMemory.AlignPtrRoundsUp | demo/memory_pool/mem_core.h:41-43 | masked rounding in 64 bits is the next multiple of 8 and never passes an end that is one |
| PoolProofs.AgeEffect | demo/memory_pool/mem_pool_palloc.c:210-214 | the walk adds one to each failed count from its start to the last block but one, and moves current past exactly the blocks that had failed more than 4 times |
| PoolProofs.AddBlockKeepsAges | demo/memory_pool/mem_pool_palloc.c:200-216 | failed never grows along the chain, is 6 before current and at most 5 from it on, also after a block is added |
| PoolProofs.AddBlockKeepsFreshAges | demo/memory_pool/mem_pool_palloc.c:200-216 | in a chain never reset, block i of n has failed n-2-i times, clamped to 0..6, and current is block n-7 or 0 |
| PoolProofs.FirstFit | demo/memory_pool/mem_pool_palloc.c:159-181 | the block used is the first from current on with room; a block is added just when none has room and malloc grants one; it fails just when malloc does not |
| PoolProofs.CarveKeeps | demo/memory_pool/mem_pool_palloc.c:154-219 | what is carved lies in one block past its header and below last, has the length and alignment asked for, and meets nothing carved before |
| PoolProofs.CarveConserves | demo/memory_pool/mem_pool_palloc.c:154-219 | carving keeps the live regions exactly those from before, the blocks and the large allocations |
| PoolProofs.AttachKeeps | demo/memory_pool/mem_pool_palloc.c:248-261 | a large region that gets a node, or is freed again because none could be had, keeps both invariants |
| PoolProofs.LargeKeeps | demo/memory_pool/mem_pool_palloc.c:224-262 | so does a large allocation, whether it takes an empty slot, a new node, or fails |
| PoolProofs.PfreeConserves | demo/memory_pool/mem_pool_palloc.c:291-307 | freeing what a node holds takes just that region off the live ones |
| PoolProofs.ResetConserves | demo/memory_pool/mem_pool_palloc.c:102-123 | a reset frees exactly what the large list held and keeps all blocks |
| PoolRuns.CreatedIsGood | demo/memory_pool/mem_pool_palloc.c:19-43 | a new pool satisfies the invariants and the exact ages |
| PoolRuns.MaxOfNew | demo/memory_pool/mem_pool_palloc.c:35-36 | the largest small request is what is left behind the header, or a page less one where that is less |
| PoolRuns.MaxStays | demo/memory_pool/mem_pool_palloc.c:102-307 | it stays so over every run |
| PoolRuns.SmallRequest | demo/memory_pool/mem_pool_palloc.c:127-182 | a request up to it that succeeds is one more client region of that length, aligned for ngx_palloc only |
| PoolRuns.LargeRequest | demo/memory_pool/mem_pool_palloc.c:127-262 | a larger one is a new live region of exactly its size, held by an empty slot of the first five nodes or else by a new one |
| PoolRuns.MemalignMakesNode | demo/memory_pool/mem_pool_palloc.c:266-287 | ngx_pmemalign always makes a new node, also when a slot is empty |
| PoolRuns.PagesGoToMalloc | demo/memory_pool/mem_pool_palloc.c:35-36 | on a new pool a request of a page or more takes nothing of the block but a node |
| PoolRuns.PfreeSays | demo/memory_pool/mem_pool_palloc.c:291-307 | ngx_pfree returns 0 if and only if some node held the address, else -5, and then nothing changed |
| PoolRuns.ApplyKeeps | demo/memory_pool/mem_pool_palloc.c:102-307 | every call, with any answers of malloc, keeps them |
| PoolRuns.RunKeeps | demo/memory_pool/mem_pool_palloc.c:102-307 | so does every run of calls |
| PoolRuns.RunIsSafe | demo/memory_pool/mem_pool_palloc.c:102-307 | over every run no two client regions or list nodes meet, all lie inside their blocks, and the live regions are those from before, the blocks and the held large ones |
| PoolRuns.ApplyKeepsFresh | demo/memory_pool/mem_pool_palloc.c:128-307 | between resets every call keeps the exact ages and drops or moves no client region |
| PoolRuns.SearchIsBounded | demo/memory_pool/mem_pool_palloc.c:159-178 | until a reset the search visits at most seven blocks, however many there are |
| PoolRuns.ResetMakesRoom | demo/memory_pool/mem_pool_palloc.c:115-122 | after a reset every block has room for exactly the requests up to its size less 56, so for any up to max and for a large node |
| PoolRuns.RoomTestIsRoom | demo/memory_pool/mem_pool_palloc.c:162-170 | in a pool that keeps its invariant the unsigned room test is the plain comparison |
| PoolRuns.RoomTestExactlyWhenAligned | demo/memory_pool/mem_pool_palloc.c:164-170 | for every fill and size the room test is right if and only if the block size is a multiple of 8 |
| PoolRuns.UnalignedPoolOverruns | demo/memory_pool/mem_pool_palloc.c:154-182 | in a pool of any size that is no multiple of 8, up to a page and a header, after ngx_pnalloc of all its room, the test of ngx_palloc(1) passes for a block without room, at an address past its end |
| MemoryPool.Process.CreatePool | demo/memory_pool/mem_pool_palloc.c:19-43 | for every size with room for the header, the words written are the header of the new pool and no other word is; for sizes from 96 on that are a multiple of 8 it is a good pool; nothing changes when malloc fails |
| MemoryPool.Process.FindRoom | demo/memory_pool/mem_pool_palloc.c:159-178 | the loop over the linked blocks in memory finds the first block with room and where the allocation starts |
| MemoryPool.Process.PallocSmall | demo/memory_pool/mem_pool_palloc.c:154-182 | memory afterwards represents the carved pool, and only the pool's own headers and nodes were written |
| MemoryPool.Process.PallocBlock | demo/memory_pool/mem_pool_palloc.c:186-219 | the new block's header, the aged counters and the link represent the longer chain |
| MemoryPool.Process.Allocate | demo/memory_pool/mem_pool_palloc.c:127-150 | palloc and pnalloc as a whole: result and new pool, nothing outside headers and nodes written |
| MemoryPool.Process.PallocLarge | demo/memory_pool/mem_pool_palloc.c:224-262 | the same for large allocations, with slot reuse and the free on failure |
| MemoryPool.Process.Memalign | demo/memory_pool/mem_pool_palloc.c:266-287 | the same for pmemalign, which never reuses a slot |
| MemoryPool.Process.Pfree | demo/memory_pool/mem_pool_palloc.c:291-307 | frees the region and empties its slot, or declines and changes nothing |
| MemoryPool.Process.ResetPool | demo/memory_pool/mem_pool_palloc.c:102-123 | memory represents the rewound pool, though nodes are read after the regions they hold are freed |
| MemoryPool.Process.DestroyPool | demo/memory_pool/mem_pool_palloc.c:83-96 | exactly what was live before the pool is live again; every region is freed once and no freed block is read |
| MemoryPool.Process.ClientWrite | demo/memory_pool/mem_pool_palloc.c:128-150 | a store to client memory never disturbs the pool |
| FormatProofs.ReturnIndependent | git/log4cpp/src/snprintf.c:1013-1023 | the value returned is the same for every buffer and size |
| FormatProofs.FieldAdvance | git/log4cpp/src/snprintf.c:944-1002 | modulo 2 to the 64, every converted field advances the length by its width, whatever its contents |
| FormatProofs.WritesInside | git/log4cpp/src/snprintf.c:555-1012 | no byte at or past str_m is written, for any format and arguments |
| FormatProofs.EndsInside | git/log4cpp/src/snprintf.c:1008-1012 | the NUL stands at the length, or in the last byte when the text is too long |
| FormatProofs.ShorterIsPrefix | git/log4cpp/src/snprintf.c:555-1012 | on buffers that start alike, two sizes leave the same bytes below the last byte of the smaller |
| FormatProofs.FieldIsPadded | git/log4cpp/src/snprintf.c:915-1002 | in a field as wide as its contents or wider, no subtraction wraps: it is written as its contents padded to the width on the right side |
| FormatProofs.NarrowField | git/log4cpp/src/snprintf.c:915-1002 | a text longer than its field ends where the width says: so many bytes before it are overwritten, or all of it is lost where there are too few, and blanks flood the rest of the buffer; on the left the text is written whole and the length falls short |
| IsoProofs.SpecRead | git/log4cpp/src/snprintf.c:597-676 | for every supported specification the reader of the source and the ISO reading agree on flags, width, precision, modifier, conversion and the arguments used |
| IsoProofs.FieldIsIso | git/log4cpp/src/snprintf.c:677-1002 | the field made of a supported conversion has, but for wrapping, the mark, zeros, digits or text and the padding that ISO C asks for |
| IsoProofs.ItemsAreIso | git/log4cpp/src/snprintf.c:555-1002 | so has every format of supported conversions as a whole, and its fields are wide enough just when the ISO ones are |
| IsoProofs.ReturnExactlyWhenWide | git/log4cpp/src/snprintf.c:915-1023 | for those formats the value returned is the length of the ISO text if and only if every field is at least as wide as its contents |
| IsoProofs.BufferIsIso | git/log4cpp/src/snprintf.c:555-1023 | and then the buffer holds the ISO text, cut to its size, and a NUL |
| IsoProofs.BufferExactlyWhenWide | git/log4cpp/src/snprintf.c:555-1023 | a buffer with room for it begins with the ISO text, if that has no NUL, if and only if every field is at least as wide as its contents |
| FormatProofs.NumberParts | git/log4cpp/src/snprintf.c:815-914 | a converted number is sign or base mark, zeros up to the precision, digits; the octal alternate form adds a zero only when none leads |
| IsoProofs.PlainStringReturnsZero | git/log4cpp/src/snprintf.c:944-953 | "%s" alone returns 0 for every string, of which the ISO text is the whole |
| WidthFormats.NumberUnderWidth | git/log4cpp/src/snprintf.c:815-1002 | for every width w the ISO text of "%<w>d" is blanks and what the system writes for the number; it is a supported format |
| WidthFormats.NullUnderWidth | git/log4cpp/src/snprintf.c:699-701 | a NULL string under a width of w is w blanks |
| IsoProofs.TextIgnores | git/log4cpp/src/snprintf.c:678-712 | for %s, %c and %% no flag but '-' and no modifier makes a difference |
| IsoProofs.LongForms | git/log4cpp/src/snprintf.c:669-675 | %D, %U and %O are %ld, %lu and %lo |
| IsoProofs.UnknownIsCopied | git/log4cpp/src/snprintf.c:922-941 | a character that is no conversion comes out itself under width 0 and takes no argument, wherever it stands; a format that ends first ends there |
| IsoProofs.UnknownModifierShifts | git/log4cpp/src/snprintf.c:664-676 | wherever hh, j, z, t or L stands behind flags, width and precision, its last character is a field of width 0 that takes no argument, and reading goes on at the conversion character with the argument that conversion should have had |
| IsoProofs.SizeModifierIsUnknown | git/log4cpp/src/snprintf.c:664-676 | "%zu" gives one character for every number; it is none of the supported formats |
| BoundedFormat.ParseSpec | git/log4cpp/src/snprintf.c:597-676 | flags, width, precision and modifier are read as the grammar says, with the arguments a star takes |
| BoundedFormat.EmitField | git/log4cpp/src/snprintf.c:915-1002 | the clipped writes of one field leave what writing its chunks one after the other leaves |
| BoundedFormat.Vsnprintf | git/log4cpp/src/snprintf.c:555-1023 | the whole loop in place leaves the buffer and the value the specification gives |
| BoundedFormat.Asprintf | git/log4cpp/src/snprintf.c:418-456 | the second length always equals the first; the buffer is as large as it says and holds what the formatter leaves in one of that size; for supported formats with wide enough fields that is the ISO text and a NUL |
| BoundedFormat.Asnprintf | git/log4cpp/src/snprintf.c:464-514 | likewise for the limited wrappers, whose buffer is never larger than str_m and always terminated; it holds as much of the ISO text as has room where the format is supported and its fields are wide enough |
| GrowAndRetry.Vform | git/log4cpp/src/StringUtil.cpp:37-69 | stopped after any number of turns, the loop is done if and only if the length is not negative, is below the largest int where it is reported, and the turns were enough: two where it is reported, doubling otherwise; n + 1 overflows exactly for a reported length of the largest int; with a negative length the buffer doubles every turn; when done, the text is whole |
| GrowAndRetry.EndlessExactly | git/log4cpp/src/StringUtil.cpp:51-64 | the portable length is negative, or the largest int, if and only if widths and literal text add up, modulo 2 to the 32, to 2 to the 31 or more, or to one less |
| GrowAndRetry.EnoughIsReached | git/log4cpp/src/StringUtil.cpp:37-69 | some number of turns is enough if and only if the length is not negative and, where it is reported, below the largest int |
| GrowAndRetry.WidthIsTheLength | git/log4cpp/src/StringUtil.cpp:51-64 | for every width w the portable length of "%<w>s" is w, as an int, whatever the string |
| GrowAndRetry.WideStringIsEndless | git/log4cpp/src/StringUtil.cpp:51-64 | so the loop ends for it if and only if w is below the largest int |
| Strings.SegmentsJoin | git/log4cpp/src/StringUtil.hh:63-79 | splitting what was joined gives the segments back |
| Strings.Split | git/log4cpp/src/StringUtil.hh:63-79 | the loop emits the segments of the recursive definition and returns their number |
| Strings.SplitParts | git/log4cpp/src/StringUtil.hh:63-79 | joining the segments gives the string for every limit; the limit is kept unless it is 0; below it no segment has a delimiter |
| Substitution.SubstituteVariables | git/log4cpp/src/Properties.cpp:111-157 | the loop terminates with the text the recursive definition gives, for every text, environment and map |
| Substitution.NoOpeningIsUnchanged | git/log4cpp/src/Properties.cpp:114-119 | a text without an opening is unchanged |
| Substitution.InsertedIsNotRescanned | git/log4cpp/src/Properties.cpp:134-153 | what is inserted is not looked at again, even if it opens another variable |
| Substitution.EnvironmentFirst | git/log4cpp/src/Properties.cpp:138-141 | a name the environment has stands for that, whatever the properties say |
| Substitution.PropertiesNext | git/log4cpp/src/Properties.cpp:141-147 | one that only the properties have stands for their value |
| Substitution.UndefinedIsEmpty | git/log4cpp/src/Properties.cpp:138-148 | one that neither has stands for nothing |
| Substitution.UnclosedIsKept | git/log4cpp/src/Properties.cpp:127-132 | an opening that is never closed stays, with all behind it |
| Substitution.EscapeUndoes | git/log4cpp/src/Properties.cpp:135-136 | a text whose openings are escaped comes out as it was, whatever is defined |
| Properties.TrimIsTheCore | git/log4cpp/src/StringUtil.cpp:71-88 | trimming takes white space away and nothing else, all of it at both ends |
| Properties.AroundIsCut | git/log4cpp/src/StringUtil.cpp:71-88 | blanks, tabs, carriage returns and newlines around a core are cut |
| Properties.Load | git/log4cpp/src/Properties.cpp:21-87 | reading in chunks of 255 gives the map that splitting the text at newlines and taking line by line gives, for lines of every length |
| Properties.HandleLine | git/log4cpp/src/Properties.cpp:51-85 | one full line has the effect of its definition on the map |
| Properties.CommentsAreCut | git/log4cpp/src/Properties.cpp:51-58 | what follows the first '#' has no effect |
| Properties.NothingDefined | git/log4cpp/src/Properties.cpp:51-66 | a line without '=' in front of any '#', such as a blank one or a comment, changes nothing |
| Properties.SpaceIsCut | git/log4cpp/src/Properties.cpp:61-82 | white space around key and value makes no difference |
| Properties.PrefixIsDropped | git/log4cpp/src/Properties.cpp:78-82 | a key with "log4j." or "log4cpp." in front is the key without |
| Properties.FirstDefinitionWins | git/log4cpp/src/Properties.cpp:85 | a key once defined keeps its value over all later lines |
| Properties.Save | git/log4cpp/src/Properties.cpp:89-93 | each entry is written on a line of its own, in the map's order |
| Properties.SaveLoad | git/log4cpp/src/Properties.cpp:21-93 | loading what was saved gives the same map, for all maps that can be stored |
| ConfiguratorScan.RangeIsPrefix | git/log4cpp/src/PropertyConfiguratorImpl.cpp:99-101 | the keys from "x." up to "x/" are those that start with "x." |
| ConfiguratorScan.SplitKey | git/log4cpp/src/PropertyConfiguratorImpl.cpp:105-114 | every key of the range has a name, so the missing-name error cannot occur |
| ConfiguratorScan.Configurator.InstantiateAllAppenders | git/log4cpp/src/PropertyConfiguratorImpl.cpp:96-133 | the loop ends as the scan does, and the map holds what was made |
| ConfiguratorScan.FollowedExactly | git/log4cpp/src/PropertyConfiguratorImpl.cpp:120-131 | every key stands behind the definition of its own name if and only if each name is defined and no other definition cuts in |
| ConfiguratorScan.ScanCompletesExactly | git/log4cpp/src/PropertyConfiguratorImpl.cpp:96-133 | the scan succeeds if and only if, besides, every appender can be made |
| ConfiguratorScan.PlainNamesAreNotInterrupted | git/log4cpp/src/PropertyConfiguratorImpl.cpp:96-133 | names without a character below '.' are never cut in on |
| ConfiguratorScan.DashCutsIn | git/log4cpp/src/PropertyConfiguratorImpl.cpp:120-131 | with A, A-B and a property of A the scan fails though both are defined |
| ConfiguratorScan.ScanMakes | git/log4cpp/src/PropertyConfiguratorImpl.cpp:120-131 | wherever the scan stops, it has made the appenders defined before that key, in order |
| ConfiguratorScan.EachAppenderOnce | git/log4cpp/src/PropertyConfiguratorImpl.cpp:120-131 | when it completes, each name that is defined was made exactly once |
| ConfiguratorScan.RunsAreContiguous | git/log4cpp/src/PropertyConfiguratorImpl.cpp:102-132 | the keys of one appender then stand together |
| ConfiguratorScan.Configurator.GetCategories | git/log4cpp/src/PropertyConfiguratorImpl.cpp:356-369 | the loop lists the root and the names behind "category." |
| ConfiguratorScan.CategoriesAreListed | git/log4cpp/src/PropertyConfiguratorImpl.cpp:356-369 | the list names each configured category once; the root comes twice if and only if a key names it as a category |
| PatternLayout.ReadPrefix | git/log4cpp/src/PatternLayout.cpp:294-308 | the stream operations read the widths of the grammar and stop at the conversion character, or leave a stream nothing can be read from |
| PatternLayout.ReadPostfix | git/log4cpp/src/PatternLayout.cpp:314-326 | the braces are read to the first closing one or the end |
| PatternLayout.PatternLayout.SetConversionPattern | git/log4cpp/src/PatternLayout.cpp:279-391 | the loop builds the components of the grammar or fails as it does, and sets the pattern only on success |
| PatternLayout.PatternLayout.Format | git/log4cpp/src/PatternLayout.cpp:397-406 | the output is the texts of the components one after the other |
| PatternLayout.ModifierAppend | git/log4cpp/src/PatternLayout.cpp:228-245 | the unsigned fill count never goes wrong |
| PatternLayout.FieldWidth | git/log4cpp/src/PatternLayout.cpp:228-245 | a field is the start of the text, no longer than maxWidth, with blanks on one side up to minWidth |
| PatternLayout.CategoryAppend | git/log4cpp/src/PatternLayout.cpp:78-96 | the loop with its unsigned wrap prints the text the closed form gives, for every name and precision |
| PatternLayout.PrecisionIsLastSegments | git/log4cpp/src/PatternLayout.cpp:78-96 | it is the last k segments if and only if the name does not start with a dot or has at least k dots |
| PatternMeaning.PrecisionIs | git/log4cpp/src/PatternLayout.cpp:61-76 | the precision is the number at the start of the braces, after blanks and a minus sign, for every int |
| PatternMeaning.CategoryPrinted | git/log4cpp/src/PatternLayout.cpp:61-96 | from the pattern to the text: "%c{k}" prints the last k segments of the category's name, if and only if that does not start with a dot or has k dots |
| PatternMeaning.LastSegmentsAre | git/log4cpp/src/PatternLayout.cpp:81-95 | the last k segments are the end of the name behind the k-th dot from its end, or all of it |
| PatternMeaning.CategoryWhole | git/log4cpp/src/PatternLayout.cpp:63-80 | "%c" prints the whole name |
| PatternMeaning.OneSays | git/log4cpp/src/PatternLayout.cpp:327-380 | every letter prints the part of the event it promises |
| PatternPrinting.SpecifierRead | git/log4cpp/src/PatternLayout.cpp:293-326 | a printed specifier is read with its widths, letter and braces |
| PatternPrinting.ParsePrinted | git/log4cpp/src/PatternLayout.cpp:279-391 | parsing a printed list gives its components, adjacent literals merged and each width with the specifier it reaches, for widths in front of every letter |
| PatternMeaning.UnknownIsRefused | git/log4cpp/src/PatternLayout.cpp:309-384 | behind any printed pieces a letter that is not known, with or without widths, fails with that letter |
| PatternMeaning.UnterminatedIsRefused | git/log4cpp/src/PatternLayout.cpp:309-313 | a pattern that ends behind a '%' or its widths fails as unterminated |
| PatternMeaning.NoNumberIsRefused | git/log4cpp/src/PatternLayout.cpp:294-313 | so does one with a minus sign or a dot that no number follows |
| PatternMeaning.TooWideIsRefused | git/log4cpp/src/PatternLayout.cpp:294-313 | so does one with a width that is no int |
| PatternPrinting.PrintedSays | git/log4cpp/src/PatternLayout.cpp:279-406 | where no width waits for a field, what such a pattern formats is the text of its pieces in order, with the part of the event each letter promises |
| PatternPrinting.DoublingIsExact | git/log4cpp/src/PatternLayout.cpp:314-330 | doubling percent signs gives a pattern for exactly that text if and only if no "%{" stands in it |
| PatternPrinting.EveryPatternReprints | git/log4cpp/src/PatternLayout.cpp:279-391 | the components of every accepted pattern can be printed, and parse to themselves |
| PatternPrinting.CarriedExactly | git/log4cpp/src/PatternLayout.cpp:293-380 | parsing gives every specifier its own widths if and only if no width in front of %% or %n meets a field that leaves that width out |
| PatternPrinting.WidthIsCarried | git/log4cpp/src/PatternLayout.cpp:327-380 | an instance: the width in "%5%%m" applies to the message |
| RollingFile.BackupsDiffer | git/log4cpp/src/RollingFileAppender.cpp:64-76 | the zero-padded names differ for different indices, and from the file name, for every width |
| RollingFile.NamesInOrder | git/log4cpp/src/RollingFileAppender.cpp:44-76 | with as many digits as the last backup has, each name is the file name, a dot and that many digits of its number, and names sort as numbers do |
| RollingFile.RollingFileAppender.RollOver | git/log4cpp/src/RollingFileAppender.cpp:61-82 | in any directory every backup moves up by one, the last is dropped, the file becomes the first, and no other file changes |
| RollingFile.RollingFileAppender.Append | git/log4cpp/src/RollingFileAppender.cpp:84-94 | after every append the directory holds the log cut greedily into files |
| RollingFile.CutIsTheLog | git/log4cpp/src/RollingFileAppender.cpp:84-94 | cutting loses nothing; closed files have at least the maximum and less than one message more, the open one has less |
| RollingFile.DirectoryIsTheEndOfTheLog | git/log4cpp/src/RollingFileAppender.cpp:61-94 | backups from the oldest and then the file read as a suffix of all bytes ever appended; only whole files are missing, and only when all backups are used |
| AppenderOwnership.ApplyConserves | git/log4cpp/src/Category.cpp:99-187 | each operation keeps owned within attached within the map's keys, and balances what is handed over, owned and deleted |
| AppenderOwnership.RunConserves | git/log4cpp/src/Category.cpp:99-187 | over every run, what was handed over is what is owned and what was deleted |
| AppenderOwnership.DeletedOnce | git/log4cpp/src/Category.cpp:155-187 | an appender handed over once is deleted once, when it is owned no more; a borrowed one never |
| AppenderOwnership.AttachedExactly | git/log4cpp/src/Category.cpp:99-187 | over every run, an appender is attached if and only if some operation added it, owned or borrowed, and none has removed it since |
| AppenderOwnership.OwnedExactly | git/log4cpp/src/Category.cpp:99-187 | and owned if and only if a hand-over was taken and it was not removed since |
| AppenderOwnership.DestructorDeletesTheRest | git/log4cpp/src/Category.cpp:65-67 | with the destructor, what was deleted is exactly what the category took: the hand-overs it did not ignore |
| AppenderOwnership.HandedOverIsDeleted | git/log4cpp/src/Category.cpp:99-187 | over every run, an appender is deleted in the end if and only if it was handed over at a time when it was not attached, and as often as handed over if and only if that was so every time |
| AppenderOwnership.LentStaysLent | git/log4cpp/src/Category.cpp:99-124 | an instance: an appender lent first and then handed over is never deleted |
| CategoryHierarchy.ParentIsPrefix | git/log4cpp/src/HierarchyMaintainer.cpp:69-75 | a name is its parent's, a dot and a last part without dots; a name without dots is below the root |
| CategoryHierarchy.OneIsInherited | git/log4cpp/src/Category.cpp:88-97 | under a root with a priority, every category inherits exactly one |
| CategoryHierarchy.ReachedIsThePath | git/log4cpp/src/Category.cpp:224-237 | those an event reaches are the appenders on the path up to and including the first non-additive category, as often as they are attached |
| CategoryHierarchy.NewcomersDoNotMatter | git/log4cpp/src/HierarchyMaintainer.cpp:61-82 | categories made later change no inherited priority and no one's audience |
| CategoryHierarchy.NewcomerIsLikeItsParent | git/log4cpp/src/HierarchyMaintainer.cpp:77 | a new category inherits its parent's priority and reaches the same appenders |
| CategoryHierarchy.Category.SetPriority | git/log4cpp/src/Category.cpp:77-86 | only the root refuses, only a priority of NOTSET or above, and then nothing changes |
| CategoryHierarchy.Category.GetChainedPriority | git/log4cpp/src/Category.cpp:88-97 | the loop ends at the nearest category on the path that has a priority |
| CategoryHierarchy.Category.AddAppender | git/log4cpp/src/Category.cpp:99-113 | NULL is refused, an appender already attached stays as it was, any other becomes owned |
| CategoryHierarchy.Category.AddAppenderReference | git/log4cpp/src/Category.cpp:115-124 | the same for a borrowed one |
| CategoryHierarchy.Category.RemoveAppender | git/log4cpp/src/Category.cpp:172-187 | new sets and deletions are those of the operation |
| CategoryHierarchy.Category.RemoveAllAppenders | git/log4cpp/src/Category.cpp:155-170 | each owned appender is deleted once, borrowed ones are not, and nothing stays attached |
| CategoryHierarchy.Category.CallAppenders | git/log4cpp/src/Category.cpp:224-237 | each appender receives the event as often as the path reaches it |
| CategoryHierarchy.Category.Log | git/log4cpp/src/Category.cpp:267-285 | an event is delivered when the inherited priority allows it, and to nobody otherwise |
| CategoryHierarchy.HierarchyMaintainer.GetInstance | git/log4cpp/src/HierarchyMaintainer.cpp:61-82 | the same object for the same name; just the missing names on the path are made, with parents at the prefix before the last dot; no existing category is touched |
| CategoryHierarchy.HierarchyMaintainer.StaysValid | git/log4cpp/src/Category.cpp:77-86 | a change of one category that leaves the root a priority keeps the hierarchy |
| CategoryHierarchy.HierarchyMaintainer.Shutdown | git/log4cpp/src/HierarchyMaintainer.cpp:97-103 | every appender is deleted as many times as categories owned it, and nothing stays attached |
| CategoryRuns.PerformAll | git/log4cpp/src/Category.cpp:77-285 | over every run of calls on any categories, parents stay where names say, the root keeps a priority below NOTSET, no name changes its category, and categories, deletions and events are those of the run on values |
| CategoryRuns.NewcomersAre | git/log4cpp/src/HierarchyMaintainer.cpp:61-82 | a new root starts with priority 600, any other new category with 800, that is none; both pass events on and have no appender |
| CategoryRuns.RunConservesAll | git/log4cpp/src/Category.cpp:99-187 | over every such run, hand-overs that were taken are deletions and ownerships, each as often as it happened |
| CategoryRuns.DeletedAsTaken | git/log4cpp/src/HierarchyMaintainer.cpp:97-103 | after a shutdown an appender was deleted exactly as often as a category took it |
| CategoryRuns.TwoOwnersDeleteTwice | git/log4cpp/src/HierarchyMaintainer.cpp:97-103 | an appender handed over under any two names is deleted twice |
| CategoryRuns.DanglingIsHeard | git/log4cpp/src/Category.cpp:224-237 | some event would go to a deleted appender if and only if one is still attached somewhere |
| CategoryRuns.MisdeliversExactly | git/log4cpp/src/Category.cpp:99-237 | over a run that starts without such an appender, an event could go to it at some moment if and only if an owner deleted it while another category had it attached, or it was attached again after it was deleted |
| CategoryRuns.LentOutlivesItsOwner | git/log4cpp/src/Category.cpp:155-170 | an instance: owned by one category, lent to another, and dropped by the owner |
| EventLoop.SetEventsKeeps | demo/epoll/epoll_framework/comm_epoll.c:55-105 | the counter is the number of non-zero entries, and the shadow is right for every descriptor whose last epoll_ctl did not fail |
| EventLoop.SetEventsExactly | demo/epoll/epoll_framework/comm_epoll.c:77-104 | ADD is asked just for unregistered descriptors, and afterwards shadow and kernel agree if and only if the call could succeed |
| EventLoop.MaskExactly | demo/epoll/epoll_framework/comm_epoll.c:65-75 | interest is in what is needed, and with either in errors and hang-ups |
| EventRuns.Moves | demo/epoll/epoll_framework/comm_epoll.c:55-140 | every run is a sequence of elementary moves: calls into the framework, handlers being called, time-outs being disarmed, time passing |
| EventRuns.RunKeeps | demo/epoll/epoll_framework/comm_epoll.c:55-140 | over every run of events, time-outs and calls, with handlers that do anything, the invariant holds |
| EventRuns.RunAgrees | demo/epoll/epoll_framework/comm.c:31-152 | from comm_init on, over every such run, the counter and the shadow are right wherever the last epoll_ctl did not fail |
| EventRuns.RunAgreesExactly | demo/epoll/epoll_framework/comm_epoll.c:55-105 | from comm_init on, shadow and kernel agree for all descriptors at every moment if and only if handlers are set for open descriptors only and no epoll_ctl for it is refused |
| EventRuns.NeverBoth | demo/epoll/epoll_framework/comm.c:103-119 | over every run no descriptor is ever registered for reading and writing at once, whatever is asked for and whatever fails |
| EventLoop.FailedAddIsLost | demo/epoll/epoll_framework/comm_epoll.c:78-104 | adding an unregistered descriptor leaves a shadow entry without a registration if and only if it is not open or epoll_ctl is refused |
| EventLoop.RefusedAddSticks | demo/epoll/epoll_framework/comm_epoll.c:78-93 | from then on no calls other than closing that descriptor register it |
| EventLoop.CloseHeals | demo/epoll/epoll_framework/comm.c:21-29 | closing makes shadow and kernel agree whatever failed before, and a descriptor used anew is registered anew |
| EventLoop.LastUpdateWins | demo/epoll/epoll_framework/comm.c:103-119 | asking for reads after writes leaves interest in reads only, and the other way round, with both handlers in the table |
| EventLoop.WhatEventsMean | demo/epoll/epoll_framework/comm_epoll.c:134-137 | a pure read event is no write event and the other way round; error and hang-up are both |
| EventLoop.WriterAfter | demo/epoll/epoll_framework/comm.c:103-119 | after any calls the write handler of a descriptor is the last one set since it was last closed |
| EventLoop.ReaderAfter | demo/epoll/epoll_framework/comm.c:103-110 | likewise the read handler and its data |
| EventLoop.TimerAfter | demo/epoll/epoll_framework/comm.c:80-101 | after any calls at one time, handler, data and deadline of the time-out are those of the last call; NULL for both keeps handler and data |
| EventLoop.TimeoutAsserts | demo/epoll/epoll_framework/comm.c:80-101 | commSetTimeout asserts exactly when no handler is given and none is there |
| EventLoop.DispatchCalls | demo/epoll/epoll_framework/comm.c:52-77 | at most one call each, reading first; the write handler called is the one the read handler's calls leave, and none if they close the descriptor and set no new one |
| EventLoop.DispatchInOrder | demo/epoll/epoll_framework/comm_epoll.c:134-137 | the ready descriptors are dispatched one by one from the front |
| EventLoop.ExpiredTwiceIsClosed | demo/epoll/epoll_framework/comm.c:136-150 | a time-out calls its handler once; unless that handler or a later call sets the time-out anew or closes the descriptor, the next look closes it |
| EventLoop.ExpiredIsClosed | demo/epoll/epoll_framework/comm.c:21-29 | of the descriptors that expire without a handler exactly descriptor 0 aborts, and every other is closed and its entry cleared |
| EventLoop.OnlyDueIsTouched | demo/epoll/epoll_framework/comm.c:136-140 | a look at a descriptor changes something if and only if its deadline is set and has come |
| EventLoop.FirstDue | demo/epoll/epoll_framework/comm.c:123-152 | checkTimeouts deals with the first descriptor that is due and goes on behind it |
| EventLoop.NothingDue | demo/epoll/epoll_framework/comm.c:123-152 | when none is due it changes nothing |
| EventRuns.RunIsTimely | demo/epoll/epoll_framework/comm.c:123-152 | over every run no time-out handler is called and no descriptor closed for its time-out without a deadline or before it |
| EpollFramework.Comm.EpollSetEvents | demo/epoll/epoll_framework/comm_epoll.c:55-105 | the array, the counter and the kernel change as the step says |
| EpollFramework.Comm.CommClose | demo/epoll/epoll_framework/comm.c:21-29 | likewise for closing |
| EpollFramework.Comm.CommSetTimeout | demo/epoll/epoll_framework/comm.c:80-101 | likewise for time-outs, with the assertion on missing handlers; the deadline is returned, 0 for none |
| EpollFramework.Comm.CommUpdateReadHandler | demo/epoll/epoll_framework/comm.c:103-110 | likewise for read handlers |
| EpollFramework.Comm.CommUpdateWriteHandler | demo/epoll/epoll_framework/comm.c:112-119 | likewise for write handlers |
| EpollFramework.Comm.CommCallHandlers | demo/epoll/epoll_framework/comm.c:52-77 | the write handler is looked up after the read handler, whatever that did to the table |
| EpollFramework.Comm.DoEpollSelect | demo/epoll/epoll_framework/comm_epoll.c:134-137 | the loop dispatches the events in order over the table as it then is |
| EpollFramework.Comm.CheckTimeouts | demo/epoll/epoll_framework/comm.c:123-152 | the loop looks once at every descriptor of the table, in order |
| SyslogPackets.PriorityLevels | git/log4cpp/src/RemoteSyslogAppender.cpp:36-55 | the level is 0 to 7, that of the priority's own hundred, and the nearest for what is outside |
| SyslogPackets.PreambleReads | git/log4cpp/src/RemoteSyslogAppender.cpp:144-146 | the preamble is '<', the priority in decimal without leading zeros, '>' |
| SyslogPackets.PreambleFits | git/log4cpp/src/RemoteSyslogAppender.cpp:144-146 | for every int the preamble has at most 13 characters |
| SyslogPackets.Append | git/log4cpp/src/RemoteSyslogAppender.cpp:141-170 | every move stays in the buffer, the loop ends, all packets start with the preamble, all but the last have 900 bytes, and together they carry the message |
| SyslogPackets.PacketCount | git/log4cpp/src/RemoteSyslogAppender.cpp:155-167 | there are as few packets as the room in them allows, none for an empty message |

## Left out

- Sockets, threads, pipes, signals and the other demos: foreign calls only.
- `ngx_pcalloc` and the debug printing of the pool: they add nothing to the bookkeeping.
- MemoryPool.Process.CreatePool: asks for a size of at least 56, where the header fits; the source writes past a smaller block. `ngx_memalign` is plain malloc there. The later calls are proved for good pools; for sizes that are no multiple of 8 see `PoolRuns.RoomTestExactlyWhenAligned`.
- MemoryPool.Process.ClientWrite: memory is kept in eight-byte words, so a byte store changes the word around it.
- FormatSpec: the digits the system's sprintf writes for a plain conversion are a parameter; the compatibility variants, the long-long option, strings of 2 to the 31 bytes or more under a huge precision, and a star width of INT_MIN are not modelled.
- IsoFormat: says nothing of floating point, %n, wide characters and strings (%lc, %ls), the modifiers hh, j, z, t and L, and of combinations that ISO C leaves undefined, such as the flag 0 with %s or # with %d; nor of numbers outside the type their conversion names, or of counts above INT_MAX. The integers are passed as int or long, so ll is read as l, as in the source.
- GrowAndRetry.Vform: stopped after a given number of turns, since the loop need not end; running out of memory and a doubled size that wraps in size_t are not modelled, and `n + 1` past the largest int, which C++ leaves undefined, ends the model.
- BoundedFormat.Asprintf: where the source asserts that the measured length is not negative, the model stops with that length.
- Properties.Load: the text has no NUL and reading never fails half way (badbit).
- Properties.SaveLoad: asks that keys and values can be written at all: trimmed, without newline, '#' or an opening, keys without '=' and without the prefixes that are stripped.
- `configureCategory`, `instantiateAppender` and `setLayout`: look-ups and constructors; whether an appender can be made is a parameter of the scan.
- PatternLayout.Event: strftime, clocks and time zones are strings of the event; the documentation has %r count from the creation of the layout, the code from the start of the process. A %c specifier of blanks leaves the precision uninitialised in the source; the model takes 0.
- PatternLayout.CategoryAppend: names are shorter than 2 to the 64 less 3 bytes, as every string is.
- RollingFile.RollingFileAppender.constructor: starts in a directory without earlier logs, and neither the limits nor the directory are changed from outside; system calls succeed. The width of the padding is a parameter: the source computes the number of digits with log10 of a float, which can round up to one digit more just below a power of ten.
- Thresholds and filters of appenders, NDC, the factories and the other appenders: only easy members, or operating-system calls.
- CategoryRuns.State: a pointer that was deleted counts as deleted for good, also if another appender is made at the same address.
- CategoryHierarchy.HierarchyMaintainer.Shutdown: the registered shutdown handlers are not called.
- EpollFramework.Comm.CheckTimeouts: the source also looks at the entry behind the table; the model stops at its end.
- EventLoop.Apply: a descriptor outside the table, where the source reads or writes past it, stops the model like a failed assertion.
- SyslogPackets.Append: facility plus level is an int, and the priority is not INT_MAX; the pause between packets and errors of sendto are not modelled.
- Locks, concurrency and the size of time_t.
