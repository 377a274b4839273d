# NeurOS in Dafny

A model of the algorithmic parts of the NeurOS kernel, with proofs of what they do on every
input and over every run. `dafny verify dfyconfig.toml` checks the whole project.

| files | part of the kernel |
|---|---|
| `Rust.dfy`, `Sequences.dfy`, `Arithmetic.dfy`, `Utf8.dfy`, `Numerals.dfy` | the execution model (panics, fixed-width integers), sequences, division, text and numerals |
| `Calendar.dfy` | `File::parse_timestamp` |
| `Initrd.dfy`, `Ustar.dfy`, `Archives.dfy`, `Listings.dfy` | the initial ramdisk, a writer for its format, any archive at all, and a reader for its listing |
| `Scheduler.dfy`, `SchedulerRuns.dfy` | the scheduler, the timer and the timer interrupt, and their runs |
| `Framebuffer.dfy`, `Console.dfy`, `ConsoleTokens.dfy`, `ConsoleLayout.dfy`, `ConsoleText.dfy`, `ConsoleStyles.dfy`, `ConsoleCalls.dfy` | drawing, `write_str`, the tokens and the layout of a text, what it shows, its colours and fonts, and how calls combine |
| `Image.dfy`, `ImageHeaders.dfy`, `Netpbm.dfy` | pictures, any picture file at all, a writer for the formats, drawing |
| `Memory.dfy`, `MemoryTheorems.dfy` | frame allocation and heap mapping |
| `Elf.dfy`, `ElfImages.dfy` | the ELF64 reader and a writer for its images |

A computation ends in one of three ways (`Rust.Outcome`). It *returns*; it *panics* (a failed
check of the dev profile, which `Makefile:20` selects, or an `unwrap`, `assert_eq!` or `panic!`);
or it *strays*, that is, uses a raw pointer outside the memory it was given for, after which the
model says nothing. Objects that the kernel changes in place are classes whose methods are tied
to functions on values; the theorems are about those functions.

## What the proofs found

- `File::parse_timestamp` never returns a wrong date, but it panics on valid ones: on all of 1970
  but its first second, on the last day of every leap year once its first second is past, and at
  the start of most years (`Calendar.Datable` is the exact set of the others; `Calendar.UndatableFirstYear`,
  `Calendar.UndatableLeapDay` and `Calendar.UndatableNewYear` show the three kinds). Its year loop
  compares what is left with the length of the year before (`initrd.rs:93`).
- `Initrd::new` formats a listing line for every file, so a file with such a time, or with a mode
  below octal 100, panics the boot. `Ustar.RoundTrip` says which well-formed archives are read
  whole, `Archives.WalkIff` what it means for any bytes to be read, and `Archives.WalkDecided` which
  place decides that they are not, and how the walk ends there.
- A listing line tells owner and group apart exactly if the owner's name has no slash and the
  group's no blank (`Listings.ListingRead`).
- An escape sequence that asks for a palette colour by its numbers gets that colour, except for
  orange: `ansi.rs:22` asks for blue 52 where `vga.rs` shows 22 (`ConsoleStyles.ColorAsked`).
- Bitmaps (`pbm`) are decoded right, for every picture of a size, exactly when the width is a
  multiple of 8 or there is at most one row (`Netpbm.BitmapsIff`).
- `write_str` returns on exactly the texts whose every character and font can be handled where
  counting newlines, tabs and characters puts it (`ConsoleLayout.WrittenIff`); on others, the
  first one that cannot decides between a panic and a stray write.
- Two calls of `write_str` do the work of one, for every second text, exactly when the first text
  is divisible (`ConsoleCalls.Divisible`, `ConsoleCalls.ComposesIff`). For a text that is written
  without fault this means that it does not end inside an escape sequence, that nothing has been
  printed since its last newline or carriage return, and that no colour sequence follows the last
  character that moved the cursor, unless it changes nothing. Whole lines are divisible; a single
  letter is not, and a second call overprints it (`ConsoleCalls.LettersOverprint`).
- Frame allocation panics exactly when its search meets an address beyond 52 bits or a region that
  ends beyond 64 (`MemoryTheorems.NthFrameIff`).
- The ELF reader accepts a file exactly when both tables fit their 16-bit, 64-bit and file-size
  limits (`ElfImages.ParseIff`).

The references the results are measured against are the formula of section 4.16 (Seconds Since
the Epoch) of IEEE Std 1003.1-2017, the "ustar Interchange Format" of the `pax` utility in IEEE
Std 1003.1, the Netpbm formats P4, P5 and P6, and chapters 4 and 5 of the System V gABI. The
Memory Map and Framebuffer features of the Limine Boot Protocol are where the conditions
`Memory.Physical`, `MemoryTheorems.Aligned`, `MemoryTheorems.Disjoint` and `Framebuffer.Sound`
come from.

## Model

| member | source | states |
|---|---|---|
| `Calendar.ParseTimestamp` | kernel/src/initrd.rs:71-127 | both loops, with their underflow and index checks: the result is the one true date of the timestamp on the datable moments, and a panic on all others |
| `Calendar.DateOf` | kernel/src/initrd.rs:71-127 | every moment has a valid Gregorian date whose distance from 1970-01-01 00:00:00, by the POSIX formula, is that moment |
| `Calendar.DateUnique` | kernel/src/initrd.rs:71-127 | two valid dates at the same distance from the Epoch are the same date |
| `Calendar.TableLengths` | kernel/src/initrd.rs:74-75 | both tables hold the lengths of the Gregorian months |
| `Calendar.MonthStaircase` | kernel/src/initrd.rs:74-75 | the days before each month are (367 m - 362) / 12, less what February lacks |
| `Calendar.YearLoopStep` | kernel/src/initrd.rs:93-102 | one turn of the year loop keeps "years so far plus seconds left make the timestamp", or underflows, and then the moment is not datable |
| `Calendar.YearLoopExit` | kernel/src/initrd.rs:93-114 | the year loop stops with less than a year in hand exactly on the datable moments, and then in the true year |
| `Calendar.UndatableFirstYear` | kernel/src/initrd.rs:93 | every moment of 1970 after the first second panics |
| `Calendar.UndatableLeapDay` | kernel/src/initrd.rs:93-102 | of the last day of a leap year, midnight is dated and every later second panics |
| `Calendar.UndatableNewYear` | kernel/src/initrd.rs:93-114 | from 1972 on, the first day of a year that does not follow a leap year panics at midnight, and all day and at the next midnight if the year before the last was leap; otherwise it is dated |
| `Utf8.DecodeEncode` | kernel/src/initrd.rs:191-194 | decoding the UTF-8 encoding of any text gives the text back |
| `Utf8.EncodeDecode` | kernel/src/initrd.rs:191-194 | whatever bytes are accepted as UTF-8 are the encoding of the text they are read as |
| `Numerals.OctalRoundTrip` | kernel/src/initrd.rs:206-209 | an octal numeral with leading zeros reads as its number |
| `Numerals.DecimalRoundTrip` | kernel/src/image.rs:73-74 | `parse` undoes `to_string` below the limit of the type |
| `Numerals.ReadIff` | kernel/src/initrd.rs:201-209 | for every text: it is read as n if and only if it is an optional plus sign and a numeral of n with any leading zeros, and n is below the limit of the type |
| `Numerals.MisreadOctal` | kernel/src/initrd.rs:201-204 | octal text read in decimal: what the mode and device fields are kept as |
| `Initrd.Display` | kernel/src/initrd.rs:131-161 | the listing line of a file, and the panics on short modes and undatable times |
| `Listings.DateRead` | kernel/src/initrd.rs:127 | a valid date can be read back, field by field, from its text |
| `Listings.ListingRead` | kernel/src/initrd.rs:131-161 | mode, owner, group, size, date and name are all recovered from a listing line if and only if the owner has no slash and the group no blank in its name |
| `Initrd.NewInitrd` | kernel/src/initrd.rs:168-189 | the block walk is the recursive walk over the archive, faults included |
| `Ustar.OctalField` | kernel/src/initrd.rs:206-209 | a header field with any text in it reads as the number whose octal numeral it is, and panics if it is none |
| `Ustar.DecimalField` | kernel/src/initrd.rs:201-204 | the fields read in decimal count as 0 if they hold no numeral |
| `Ustar.HeaderRoundTrip` | kernel/src/initrd.rs:216-235 | all sixteen fields of a written header block are read back |
| `Ustar.RoundTrip` | kernel/src/initrd.rs:168-189 | for all lists of well-formed entries and any bytes after the zero block, the walk returns exactly those entries in order with all their data if all can be listed, and panics otherwise |
| `Archives.WalkIff` | kernel/src/initrd.rs:172-188 | on any bytes, the walk returns a list of files if and only if the k-th lies at 512 times the blocks before it and a zero block lies where the next header would |
| `Archives.WalkOn` | kernel/src/initrd.rs:172-188 | files that lie at their positions are read whatever comes behind them: the walk's outcome is theirs followed by the outcome of the walk from the first place behind |
| `Archives.WalkDecided` | kernel/src/initrd.rs:172-188 | on any bytes, the walk returns the files in front of a zero block, or ends in the fault of the first place with neither a file nor a zero block: a stray read where the archive stops short of a header or its data, a panic where the header cannot be parsed or the file not listed |
| `Archives.GetDataFirst` | kernel/src/initrd.rs:246-253 | `get_data` returns the data of the first file of the name, and panics when there is none |
| `Archives.ReadBack` | kernel/src/initrd.rs:168-253 | end to end: a name looked up in a read archive gives the bytes archived under it |
| `Archives.ListedMode` | kernel/src/initrd.rs:64-69 | the listing shows the nine permission bits of the mode's first three octal digits, which for modes of three digits are the mode's own |
| `Scheduler.Scheduler.Tick` | kernel/src/scheduler.rs:50-61 | the new state is the tick of the old one; the countdown never underflows |
| `Scheduler.Scheduler.Switch` | kernel/src/scheduler.rs:63-78 | the front goes to the back and stops, the next one runs |
| `Scheduler.Scheduler.Fork` | kernel/src/scheduler.rs:80-87 | a copy of the front joins with the next number; an empty queue panics |
| `Scheduler.Initialize` | kernel/src/scheduler.rs:90-94 | the boot state: one running kernel process and a quantum of 100 |
| `Scheduler.TimerHandler` | kernel/src/interrupts.rs:181-183 | one interrupt advances clock and scheduler by one tick each |
| `SchedulerRuns.Clock` | kernel/src/scheduler.rs:50-61 | over any run with any forks, the countdown and the number of expired quanta are remainder and quotient of the ticks by quantum + 1 |
| `SchedulerRuns.LockStep` | kernel/src/interrupts.rs:181-183 | until the 32-bit clock wraps, its reading alone gives the countdown and the expired quanta, with any forks interleaved |
| `SchedulerRuns.ProcessIds` | kernel/src/scheduler.rs:80-94 | in every reachable state the ids are a permutation of 1..len without repetition, and the k-th fork returns k + 1 |
| `SchedulerRuns.AllCopies` | kernel/src/scheduler.rs:80-87 | every process keeps the name "kernel" and the 18 zero registers of the first |
| `SchedulerRuns.RunStates` | kernel/src/scheduler.rs:63-94 | in every reachable state the Running processes are exactly the front and those that have never been at the front |
| `SchedulerRuns.Convergence` | kernel/src/scheduler.rs:63-78 | from any state whatever, after as many fork-free expiries as there are other processes, exactly the front is Running |
| `SchedulerRuns.Rotation` | kernel/src/scheduler.rs:50-78 | over fork-free stretches the queue is the earlier one rotated by the number of expiries |
| `SchedulerRuns.BoundedWaiting` | kernel/src/scheduler.rs:46-88 | in every reachable state and for every interleaving of forks and ticks, the process at place i reaches the front exactly at tick remaining + 1 + (i - 1)(quantum + 1) |
| `SchedulerRuns.FairShare` | kernel/src/scheduler.rs:50-78 | over len * (quantum + 1) fork-free ticks each process is at the front for exactly quantum + 1 of them, and order and countdown return |
| `SchedulerRuns.FairShareFromBoot` | kernel/src/scheduler.rs:50-94 | fair share from every reachable state, for every process number in use |
| `Framebuffer.PixelsApart` | kernel/src/vga.rs:201-207 | different pixels of a screen share no byte |
| `Framebuffer.DrawAllShows` | kernel/src/vga.rs:148-153 | drawing bitmaps that fit never leaves the buffer; each pixel ends with the colour of the last bitmap covering it, and the bytes between rows keep theirs |
| `Console.Vga.DrawPixel` | kernel/src/vga.rs:201-207 | writes the four bytes of a pixel and no other, or strays without writing |
| `Console.Vga.Clear` | kernel/src/vga.rs:188-199 | the nested loops draw the blank bitmap and reset the cursor |
| `Console.Vga.WriteChar` | kernel/src/vga.rs:138-156 | the nested loops draw the glyph's bitmap; codes above 256 and rows above 12 panic, code 256 draws nothing |
| `Console.Vga.WriteStr` | kernel/src/vga.rs:67-136 | the loop leaves the terminal that the automaton on values leaves, faults included |
| `ConsoleTokens.TokensText` | kernel/src/vga.rs:73-133 | whatever newlines, tabs, escape sequences and characters are written one after another are read back as such: a sequence ends with its first `m`, which is not printed |
| `ConsoleTokens.TextTokens` | kernel/src/vga.rs:73-133 | every text is what its tokens spell, but for the `m` of a sequence it ends in |
| `ConsoleLayout.WrittenIff` | kernel/src/vga.rs:67-156 | `write_str` returns if and only if every token of the text can be handled where the layout puts it (fonts load, codes up to 256, rows from 12 on, cells ending inside the buffer), and then leaves the cursor and font the layout says |
| `ConsoleLayout.WrittenFaults` | kernel/src/vga.rs:67-156 | on every other text the first token that cannot be handled decides between a panic and a stray write |
| `ConsoleText.TextShown` | kernel/src/vga.rs:67-156 | any text with glyphs and cells on the screen is written without fault; it leaves the cursor, colours and font of the layout, which counts newlines, tabs and characters, and the screen shows its cells, later ones on top |
| `ConsoleText.TextRendered` | kernel/src/vga.rs:67-156 | without carriage returns, every pixel of every printed cell holds its glyph in the font and colours in force when it was printed |
| `ConsoleStyles.LoadFontIff` | kernel/src/font.rs:31-43 | a font loads if and only if its file is the four header bytes, the font's 4096 bytes and anything else; every other file panics |
| `ConsoleStyles.StylesIff` | kernel/src/vga.rs:93-125 | which sequences select colours and fonts, and which ones, for every sequence |
| `ConsoleStyles.ColorAsked` | kernel/src/vga.rs:93-125 | a sequence with the numbers of a colour is recognized exactly for the palette, and gives the colour of its numbers exactly if that is not orange |
| `ConsoleStyles.StyledText` | kernel/src/vga.rs:67-156 | end to end: a character behind a colour and a font sequence shows the bits of its glyph in the font's file, in the numbers of the colour |
| `ConsoleText.RestUntouched` | kernel/src/vga.rs:67-156 | pixels outside the printed cells, and the bytes between rows, are unchanged |
| `ConsoleText.Cleared` | kernel/src/vga.rs:188-199 | clearing makes every pixel of the screen black |
| `ConsoleCalls.FinishConcat` | kernel/src/vga.rs:73-133 | a text followed by another is handled as one after the other, unless it ends inside an escape sequence |
| `ConsoleCalls.ComposesIff` | kernel/src/vga.rs:67-136 | on every terminal, the texts after which one call can be split into two, whatever follows, are exactly the divisible ones: a condition on the tokens of the text, faults included |
| `ConsoleCalls.ComposesOnScreen` | kernel/src/vga.rs:67-136 | for a text with glyphs and cells on the screen: exactly when it is outside an escape sequence, nothing is pending on its line and its last colour has been shown |
| `ConsoleCalls.LinesCompose` | kernel/src/vga.rs:78-83 | a text that ends in a newline outside an escape sequence can be written by its own call |
| `ConsoleCalls.LettersDoNotCompose` | kernel/src/vga.rs:127-131 | a single printed character can have its own call, whatever follows, exactly when that call faults |
| `ConsoleCalls.LettersOverprint` | kernel/src/vga.rs:127-131 | one call puts the second of two letters 8 columns further on, a second call draws it over the first |
| `Image.Image.Open` | kernel/src/image.rs:58-122 | header and nested decoding loops give the declarative decoding of the file, faults included |
| `Image.Image.DrawOn` | kernel/src/image.rs:124-140 | the nested loops draw the picture's bitmap at its position |
| `ImageHeaders.WordsOf` | kernel/src/image.rs:71 | words are found whatever blanks, tabs and newlines keep them apart |
| `ImageHeaders.WordsFound` | kernel/src/image.rs:71 | every text is the words found in it, kept apart by whitespace |
| `ImageHeaders.LayoutIff` | kernel/src/image.rs:60-77 | for every file: size and raster are read if and only if it is a text with one newline (two for P5 and P6) and numerals of the size for its second and third words, a newline, and the raster; every other file panics |
| `ImageHeaders.ExtensionIs` | kernel/src/image.rs:65 | the extension is what follows the last dot, a final dot aside; a name without dots is all extension |
| `Netpbm.LayoutRoundTrip` | kernel/src/image.rs:60-77 | whatever bytes the raster holds, newlines included, the reader finds the written size and exactly the raster |
| `Netpbm.RoundTrip` | kernel/src/image.rs:58-122 | decoding the canonical encoding gives back every pixel: P5 and P6 of all sizes, P4 when the width is a multiple of 8 or there is at most one row |
| `Netpbm.BitmapsIff` | kernel/src/image.rs:94-96 | for P4 that condition is necessary as well |
| `Netpbm.LoadRoundTrip` | kernel/src/image.rs:58-122 | a picture stored under a name with its format's suffix is loaded whole by that name |
| `Netpbm.BlitExact` | kernel/src/image.rs:124-140 | drawing sets each pixel of the rectangle to its blue, green, red and zero bytes and changes no other byte of the framebuffer |
| `Memory.PhysicalManager.AllocateFrame` | kernel/src/memory.rs:64-78 | the frame of that number or none, and the counter moves on; or a panic on the way, which leaves it |
| `MemoryTheorems.NthFrameIff` | kernel/src/memory.rs:64-78 | on any memory map, allocation returns if and only if no address passed lies beyond 52 bits and no region reached ends beyond 64 |
| `MemoryTheorems.StepsIff` | kernel/src/memory.rs:64-70 | a region yields a frame for exactly the multiples of 4096 below its length, aligned or not |
| `MemoryTheorems.FramePlace` | kernel/src/memory.rs:64-70 | page k of a usable region is frame number k plus the pages of all usable regions before it |
| `MemoryTheorems.UsableFramesIff` | kernel/src/memory.rs:64-70 | the frames are exactly the whole pages of the usable regions |
| `MemoryTheorems.UsableFramesDistinct` | kernel/src/memory.rs:64-70 | no frame occurs twice |
| `MemoryTheorems.AllocationsInOrder` | kernel/src/memory.rs:74-78 | over any number of calls from boot, the call numbered by the pages of the earlier usable regions plus k yields page k of a region |
| `MemoryTheorems.CallOfPage` | kernel/src/memory.rs:74-78 | every call before the total number of pages is such a call |
| `MemoryTheorems.AllocationsEnd` | kernel/src/memory.rs:74-78 | every call after it yields none, for ever |
| `MemoryTheorems.AllocationsFresh` | kernel/src/memory.rs:74-78 | no two calls yield memory that overlaps |
| `Memory.VirtualManager.AllocatePages` | kernel/src/memory.rs:97-108 | if it completes, every page of the range is newly mapped to the frame taken for it, other mappings are kept, and a ledger accounts for every frame taken |
| `Memory.InitializeHeap` | kernel/src/memory.rs:114-131 | the heap's range is 1024 pages: on success all are newly mapped, served by at most 4096 frames, and other mappings are kept; the only failure is a panic |
| `MemoryTheorems.MappedToMemory` | kernel/src/memory.rs:97-108 | every mapped page has a whole page of usable memory |
| `MemoryTheorems.MappedApart` | kernel/src/memory.rs:97-108 | different pages have memory that does not overlap |
| `MemoryTheorems.MappedNotTable` | kernel/src/memory.rs:97-108 | no page shares memory with a page table |
| `MemoryTheorems.FramesTaken` | kernel/src/memory.rs:97-108 | frames taken are pages plus tables, at most three tables a page |
| `Elf.NewElf` | kernel/src/elf.rs:255-278 | the two table loops give the records the recursive reader gives, faults included |
| `ElfImages.LeRoundTrip` | kernel/src/elf.rs:46 | `from_le_bytes` reads back a number written in little-endian bytes |
| `ElfImages.LeUnique` | kernel/src/elf.rs:46 | and no other bytes of that length read as that number |
| `ElfImages.HeaderRoundTrip` | kernel/src/elf.rs:43-73 | all nineteen header fields are read back from their gABI offsets |
| `ElfImages.ProgramRoundTrip` | kernel/src/elf.rs:86-111 | all eight program header fields are read back |
| `ElfImages.SectionRoundTrip` | kernel/src/elf.rs:126-153 | all ten section header fields are read back |
| `ElfImages.ParseIff` | kernel/src/elf.rs:255-278 | the reader returns if and only if the header and both tables can be read within the 16-bit product, the 64-bit sum and the file, and panics otherwise |
| `ElfImages.ImageRoundTrip` | kernel/src/elf.rs:255-278 | for every image with a well-formed header and non-overlapping tables written into it, every field of every record is recovered in order |

## Left out

- Port I/O, the interrupt controller, GDT, IDT, serial port, keyboard, multiprocessing and ACPI: hardware access and library wrappers.
- The shell, the logger and the introduction screen: a line buffer, command names, labels and fixed messages.
- Boot loader requests: the ramdisk is a byte sequence, the memory map a sequence of regions, the framebuffer a byte array.
- `Display` for ELF files: a list of labels.
- Memory.VirtualManager.MapTo: the page-table library is not in the repository; it takes zero to three frames, adds one mapping or fails, and how many and whether is left open.
- Memory.PhysicalManager.AllocateFrame: the counter does not wrap at 2^64.
- Initrd.NewInitrd: copies of file data come from the 4 MiB heap, and running out of it is not modelled, here or for pictures.
- Console.Vga.WriteStr: what the pixels hold after a panic or a stray write is not stated; cursor coordinates and pixel addresses are unbounded, so an address beyond 64 bits counts as stray, where the dev profile would panic first.
- Image.Image.Open: the row arithmetic is unbounded, which changes nothing because an index beyond 64 bits is out of bounds anyway.
- Scheduler.Scheduler.Fork: process ids and queue lengths do not wrap at 2^64. Removal of processes does not exist in the kernel.
- SchedulerRuns.LockStep: every expired quantum logs a line or two, and the logger keeps all lines for ever in the 4 MiB heap. Running out of heap by logging is not modelled, for this or any other result about scheduler runs: with the kernel's quantum the heap is full long before the 2^32 ticks that the statement reaches.
- Scheduler.TimerHandler: ticks and forks are atomic steps; lock contention and real interrupt timing are not modelled.
- Contents of allocated memory and the heap allocator itself, which is a library.
