# A small operating system's boot loader and console, modelled and proved in Dafny

The system boots from a FAT12, FAT16 or FAT32 volume: a BIOS disk driver, a FAT read driver with ten
file slots and one shared window over the file allocation table, and a loader for 32-bit ELF files. Its
kernel has an 80x25 text console with `printf`, a keyboard ring buffer filled by an interrupt handler,
and a line reader. This project models these parts and proves what they do: which bytes a read returns,
where a path leads, what memory holds after loading, what the screen shows, what a line contains. Where
the code does less than it is meant to do, the model keeps what the code does and says exactly when that
is right; the section "Findings" lists those places.

`dafny verify dfyconfig.toml` checks the whole project.

## Layout

| file | modules | content |
|---|---|---|
| `arith.dfy`, `bytes.dfy`, `characters.dfy`, `options.dfy` | `Arith`, `Bytes`, `Characters`, `Options` | non-linear arithmetic, byte strings and the two memory primitives, shared constants and types |
| `disk.dfy` | `Disks` | LBA and CHS addresses, BIOS registers, the retry loop, partitions |
| `volume.dfy`, `layout.dfy` | `Volumes`, `Layouts` | what a FAT volume contains: boot sector, table, window, chains, contents |
| `ondisk.dfy`, `fat12.dfy` | `OnDisk`, `Fat12Tables` | the same as a formatter writes it, byte by byte: slots, boot sectors, tables, stored files |
| `names.dfy` | `ShortNames` | 8.3 names |
| `fat.dfy` | `FatDriver` | the driver: classes over the slots, the root and the window |
| `path.dfy`, `fileaccess.dfy` | `PathLookup`, `FileAccess` | directory search and opening by path |
| `streams.dfy` | `Streams` | many handles at once against an abstract machine |
| `elf.dfy`, `elfimage.dfy` | `ElfLoader`, `ElfImages` | the loader, executables byte by byte, and the image that loading one leaves |
| `readfile.dfy` | `FilePrinting` | a file shown on the screen |
| `quicksort.dfy` | `Quicksort` | the generic sort over a byte array |
| `keyboard.dfy`, `lines.dfy` | `Keyboard`, `KeyboardSteps`, `KeyboardQueue`, `KeyboardSchedules`, `Lines` | the ring buffer step by step and as two routines, and the line reader |
| `console.dfy`, `printf.dfy` | `Terminals`, `Console`, `Numerals`, `Formats`, `Printing` | an unbounded terminal, the screen that shows its end, and formatted output |

A volume is a sequence of sectors; a drive fails or not as an oracle says, so that every read result is
stated for failing drives too. A contract that mentions `Reliable` assumes that no BIOS call fails.
Ghost fields of the driver say which volume it has mounted and which bytes each slot stands for.

## Model

| member | source | states |
|---|---|---|
| Disks.LbaRoundTrip | src/libs/boot/disk.c:21-25 | every LBA of a drive has a cylinder, head and sector inside the geometry, from which it is recovered |
| Disks.ChsRoundTrip | src/libs/boot/disk.c:21-25 | every triple of the geometry comes from exactly one LBA of the drive: with the previous row, a bijection |
| Disks.RegistersRoundTrip | src/libs/boot/x86.asm:183-191 | the registers of the BIOS call stand for the triple that was meant |
| Disks.StagesAgree | src/bootloader/stage1/boot.asm:212-233 | for 16-bit addresses the first boot stage loads the same registers as the second |
| Disks.Disk.ReadSectors | src/libs/boot/disk.c:27-39 | a read inside the drive fails exactly when three BIOS calls in a row fail, and otherwise returns the sectors asked for |
| Disks.Partition.ReadSectors | src/libs/boot/mbr.c:17-19 | reads are relative to the partition, and a failed read inside it is counted |
| Bytes.MemCpy | src/libs/boot/memory.c:5-14 | the destination gets the source bytes, as many as the low 16 bits of the count say |
| Bytes.MemSet | src/libs/boot/memory.c:16-24 | the same for filling |
| Layouts.Regions | src/libs/boot/fat.c:55-67 | reserved sectors, tables, root directory and data follow each other without gaps or overlap, and no 32-bit sum wraps |
| Layouts.TypeByClusterCount | src/libs/boot/fat.c:22-31 | the type found is the one the cluster count calls for, if and only if the volume is small enough for FAT12 or the 16-bit FAT size is zero exactly from 65525 clusters on |
| Layouts.LargeFat16 | src/libs/boot/fat.c:22-31 | a failing input: a boot sector with a 16-bit table and more than 65525 clusters |
| Layouts.ValidMounts | src/libs/boot/fat.c:55-76 | a well-formed boot sector gives a volume in which every cluster, every window and the root directory are inside the partition |
| Layouts.ClustersApart | src/libs/boot/fat.c:93-95 | different sectors of different clusters lie at different places between the start of the data region and the end of the volume |
| Volumes.Volume.DataClusterLba | src/libs/boot/fat.c:93-95 | for data clusters the 32-bit computation does not wrap |
| Volumes.Volume.EndMarkExact | src/libs/boot/fat.c:158-168 | the end marks of FAT12 and FAT16 are all recognised, those of FAT32 only with all four reserved bits set |
| Volumes.Volume.ClearReservedBits | src/libs/boot/fat.c:203 | a failing input: the FAT32 end mark 0x0FFFFFFF |
| Volumes.Volume.CanOverrunExact | src/libs/boot/fat.c:148-155 | the entries that can begin on the last byte of some window are those 12-bit ones at offset 2559 or later whose first byte is the last of its sector |
| Volumes.Volume.CacheInvisible | src/libs/boot/fat.c:142-168 | a lookup through the window equals the entry on the disk, if and only if the entry does not begin on the last byte of the window or the stray bits agree |
| Volumes.Volume.HistoryInvisible | src/libs/boot/fat.c:132-171 | the same equivalence for every lookup of every run of lookups, with the window wherever the run has left it |
| Volumes.Volume.AlwaysRightExact | src/libs/boot/fat.c:142-168 | an entry is looked up correctly with every window that covers it, if and only if it cannot overrun one or its second byte agrees, in the bits that are used, with the number of the one window it can overrun |
| Volumes.Volume.HistoryRight | src/libs/boot/fat.c:132-171 | such an entry is looked up correctly after any history |
| Volumes.Volume.MissIsRight | src/libs/boot/fat.c:143-146 | a lookup that moves the window is always right |
| Volumes.Volume.Cluster1706 | src/libs/boot/fat.c:148-155 | a failing input: with the window at the start of the table, cluster 1706 is looked up correctly only if four bits are clear |
| Volumes.Volume.LinkedExact | src/libs/boot/fat.c:198-201 | the chain of an entry is linked, which is what reads rely on, if and only if every lookup on the way, with whatever window, gives the next cluster of the chain |
| Volumes.Volume.EndsExact | src/libs/boot/fat.c:198-206 | the end of a chain is one that reads rely on, if and only if the lookup of its last entry, with whatever window, gives an end mark |
| Volumes.Volume.ContentIsConcatenation | src/libs/boot/fat.c:173-217 | the contents of an entry are as many bytes of its clusters, one after the other, as the recorded size says; a directory of size 0, and whatever claims more than its clusters hold, has all of them |
| OnDisk.SlotRoundTrip | src/libs/boot/fat.h:12-25 | parsing a directory slot written byte by byte gives back name, attributes, first cluster and size |
| OnDisk.DirectoryBit | src/libs/boot/fat.c:112 | an entry is a directory if and only if bit 4 of its attributes is set |
| OnDisk.RootSlot | src/libs/boot/fat.c:55-76 | slot number k of the root directory is where it is on the disk, 16 to a sector |
| OnDisk.BootRoundTrip | src/libs/boot/fat.h:57-99 | parsing a boot sector written byte by byte gives back every field that the driver uses |
| OnDisk.Places | src/libs/boot/fat.c:22-76 | on a well-formed volume tables, root directory, data, cluster count and FAT type are where plain arithmetic on the fields puts them |
| OnDisk.Table16Decodes | src/libs/boot/fat.c:138-165 | on a FAT16 volume with a table of two little-endian bytes an entry, the successor of a cluster is its entry, with end marks widened |
| OnDisk.Table32Decodes | src/libs/boot/fat.c:138-168 | on a FAT32 volume with a table of four little-endian bytes an entry, the successor of a cluster is its entry |
| OnDisk.ChainFits | src/libs/boot/fat.c:132-171 | a chain of clusters that ends visits no cluster twice and is no longer than there are clusters |
| OnDisk.StoredFile | src/libs/boot/fat.c:173-217 | a file that is stored in the clusters of a chain, sector by sector, is what its directory entry stands for |
| Fat12Tables.PackRoundTrip | src/libs/boot/fat.c:134-156 | packing any row of 12-bit values and decoding by the even/odd rule gives back every value |
| Fat12Tables.TableDecodes | src/libs/boot/fat.c:134-160 | on a volume with a packed table the driver's lookup gives every value, including those split over two sectors, with end marks widened |
| FatDriver.Driver.NextCluster | src/libs/boot/fat.c:132-171 | the loaded window agrees with the disk and the result is the decoded entry, unless a window read failed |
| FatDriver.Driver.Advance | src/libs/boot/fat.c:190-213 | at a sector boundary the cursor follows the chain or the root's sectors, an end mark cuts the file off, and otherwise the buffer holds the next sector |
| FatDriver.Driver.Read | src/libs/boot/fat.c:173-217 | a read delivers the next bytes of the contents at the caller's address and nothing else changes there; without drive failures it delivers as many as were asked for or are left; the driver stays valid |
| FatDriver.Driver.OpenEntry | src/libs/boot/fat.c:97-130 | the lowest free slot, and only it, becomes open at the start of the entry's contents; it fails only when no slot is free or the drive fails |
| PathLookup.TenSlots | src/libs/boot/fat.c:97-109 | a slot is free unless all ten are open |
| FatDriver.Driver.Close | src/libs/boot/fat.c:223-230 | closing a slot frees it; closing the root leaves it ready to be read again if and only if the sector the scan had come to looks like the first one |
| FatDriver.Driver.Initialize | src/libs/boot/fat.c:33-91 | on a well-formed volume mounting fails only if the drive does, and leaves a valid driver with no open slot and the root at its start |
| PathLookup.FirstMatchExact | src/libs/boot/fat.c:260-296 | the specified match is the first slot with the name, and there is none exactly when no slot has it |
| PathLookup.ReadEntry | src/libs/boot/fat.c:219-221 | the next 32 bytes of a directory, or the end of it |
| PathLookup.FindFile | src/libs/boot/fat.c:252-296 | the search ends, finds the first match or none exactly as specified, and leaves the cursor behind the match or at the end |
| PathLookup.SearchAndClose | src/libs/boot/fat.c:322-334 | after a search that started at the root the root is fresh if and only if the sector that the search stopped in looks like the first one, whether or not the name was found |
| PathLookup.EarlyStop | src/libs/boot/fat.c:223-226 | a search of the root that stops before byte 512, by a match or at the end, leaves the root fresh |
| PathLookup.LateMatch | src/libs/boot/fat.c:223-226 | a failing input: a match in the last slot of the first sector, if the second sector differs |
| PathLookup.SplitPath | src/libs/boot/fat.c:305-320 | a component is split off; the last one may be followed by one stray character |
| PathLookup.ResolveIgnoresTail | src/libs/boot/fat.c:314-317 | the stray character does not change where a path leads if the last component is of a harmless shape |
| PathLookup.ListedIsFirst | src/libs/boot/fat.c:260-296 | the first written slot with a name is the one the search finds, with the fields that were written |
| PathLookup.DirectoryListed | src/libs/boot/fat.c:298-339 | a component with a slash behind it leads into all the clusters of the directory in whose slot bit 4 is set and the size is 0 |
| PathLookup.FileInDirectory | src/libs/boot/fat.c:298-339 | a path of two components leads to the first slot with the second name in the clusters of the directory with the first |
| PathLookup.LeadingSlash | src/libs/boot/fat.c:301-303 | one slash at the start is skipped and nothing else is |
| PathLookup.FilesAsDirectories | src/libs/boot/fat.c:325-328 | a path leads where it should unless one of its components is used as a directory without being one; then it is refused if and only if something is left of the path and is not found in the bytes of that file |
| PathLookup.FileSearched | src/libs/boot/fat.c:325-328 | a failing input: the path A/B, and a file A of the root that begins with a directory entry for B |
| PathLookup.Step | src/libs/boot/fat.c:322-334 | one component: its directory is searched and closed, the test for directories, as it is written, refuses nothing, and what was found is opened |
| PathLookup.FullSlotsFollowNull | src/libs/boot/fat.c:328-332 | a failing input: ten open slots, a path of two components and a root that has the first one |
| PathLookup.Open | src/libs/boot/fat.c:298-339 | a path leads where its components lead one after the other by first match; on success exactly the lowest free slot is added, otherwise nothing; a null pointer is followed if and only if all slots are taken, the first component exists and more follow; the root is fresh afterwards if and only if its search left it so |
| FileAccess.HarmlessLeads | src/libs/boot/fat.c:298-339 | a path whose last component is of a harmless shape leads to its entry whatever is on the stack |
| Streams.Isolation | src/libs/boot/fat.c:173-217 | in the abstract machine the reads of one handle deliver its contents without a gap, however they are cut and whatever happens to other handles in between |
| Streams.StreamMoved | src/libs/boot/fat.c:173-217 | in the end that handle has moved by exactly what was read from it |
| Streams.RunJoin | src/libs/boot/fat.c:97-230 | running two programs one after the other is running the joined program |
| Streams.OpenThenRead | src/libs/boot/fat.c:97-217 | opening a file and reading with a count that covers it gives the handle and exactly the recorded number of bytes of its clusters |
| Streams.OpenAndRead | src/libs/boot/fat.c:97-217 | the same on the driver |
| Streams.MountedShows | src/libs/boot/fat.c:85-90 | a freshly mounted driver stands for the abstract machine with nothing open |
| Streams.Execute | src/libs/boot/fat.c:97-230 | any program of opens by entry, opens by path, reads and closes gets the same handles and bytes from the driver as from the abstract machine, and leaves the driver standing for the machine's final state |
| ShortNames.GetShortName | src/libs/boot/fat.c:232-250 | the method computes the specified 11 characters for every NUL-terminated name |
| ShortNames.Alphabet | src/libs/boot/fat.c:232-250 | the letters a to z become A to Z and nothing else changes |
| ShortNames.KernelName | src/bootloader/stage2/main.c:46 | the stored name of kernel.elf |
| ShortNames.LegalForm | src/libs/boot/fat.c:232-250 | a legal name becomes its two upper-cased parts, each padded with spaces |
| ShortNames.Collision | src/libs/boot/fat.c:232-250 | two legal names have the same stored form if and only if they are equal ignoring case |
| ShortNames.RenderRoundTrip | src/libs/boot/fat.c:232-250 | showing a stored name and encoding it again gives the stored name |
| ShortNames.ThirdLetter | src/libs/boot/fat.c:246-249 | nothing after the third letter of the extension matters |
| ShortNames.TailExact | src/libs/boot/fat.c:316-317 | one more character at the end never matters if and only if the component has one of the listed shapes |
| ShortNames.TailMatters | src/libs/boot/fat.c:316-317 | a failing input for every other component: the letter A left behind it on the stack |
| ElfLoader.ExactlySmall | src/libs/boot/elf.c:54-79 | for a given segment the loader does what the header asks, for all memories and files, if and only if both sizes are below 64 KiB |
| ElfLoader.LargeGoesWrong | src/libs/boot/elf.c:54-79 | a failing input for every larger segment |
| ElfLoader.NotValidated | src/libs/boot/elf.c:23-31 | files that agree from byte 24 on are loaded or refused alike, with the same entry point and program headers |
| ElfLoader.RefusedExactly | src/libs/boot/elf.c:23-31 | in front of given contents from byte 24 on, all invalid headers are refused if and only if all headers are |
| ElfLoader.ZeroHeaderLoads | src/libs/boot/elf.c:23-31 | a failing input: a header of zeros with an empty program header table is loaded |
| ElfLoader.LoadAllIsIntended | src/libs/boot/elf.c:50-83 | if all LOAD segments are small, what the loader does is the fold of zeroing and copying in table order |
| ElfLoader.Seek | src/libs/boot/elf.c:57-66 | the seeking loop reaches any offset inside the file and fails for the others |
| ElfLoader.CopyIn | src/libs/boot/elf.c:68-79 | the copying loop stores what its 16-bit counts allow, and fails exactly when the file is too short |
| ElfImages.HeaderRoundTrip | src/libs/boot/elf.h:8-29 | a header written byte by byte is valid and gives back entry point, table offset, entry size and entry count |
| ElfImages.TableRoundTrip | src/libs/boot/elf.h:57-67 | program headers written byte by byte give back type, offset, virtual address and both sizes |
| ElfImages.LoadedImage | src/libs/boot/elf.c:50-83 | if all segments are small, the last one that covers an address decides what is there: its byte of the file, or zero behind them; addresses that none covers are as before, but for the buffers |
| ElfLoader.Read | src/libs/boot/elf.c:8-86 | loading succeeds if and only if headers, table and segments are inside the file; then memory outside the loader's buffers is the fold over the table, everything else is unchanged, the entry point is the header's and the open set is as before; otherwise one handle stays open |
| ElfImages.LoadExecutable | src/libs/boot/elf.c:8-86 | an executable as written is loaded if and only if its segments are inside the file; then memory is its image and its entry point is returned |
| Quicksort.Swap | src/libs/util/stdlib.c:18-23 | the byte loop exchanges two elements and nothing else |
| Quicksort.Partition | src/libs/util/stdlib.c:9-26 | both sides are bounded by what the pivot's slot holds in the end, the elements are rearranged, no scan leaves the range, and the left side is empty exactly when the first element is strictly the least |
| Quicksort.SortRange | src/libs/util/stdlib.c:4-30 | a range is sorted and rearranged within itself, unless the recursion leaves the array, and exactly when that happens |
| Quicksort.TripsExactly | src/libs/util/stdlib.c:28-33 | what sends the recursion outside the array, for a whole array |
| Quicksort.PairInOrderTrips | src/libs/util/stdlib.c:28-33 | a failing input: two elements in increasing order |
| Quicksort.Sort | src/libs/util/stdlib.c:32-34 | the array ends up sorted and a permutation, if and only if it has one element or some later element is at most the first |
| KeyboardSteps.StoreIsSafe | src/kernel/arch/i686/irq.c:117-121 | in every reachable state the slot about to be written holds no unread character |
| KeyboardSteps.DropsOnlyWhenFull | src/kernel/arch/i686/irq.c:117-118 | a character is dropped if and only if 1023 characters are waiting at the check |
| KeyboardSteps.StepKeeps | src/kernel/arch/i686/irq.c:110-135 | every step of the handler and of the reader keeps the invariant of the buffer |
| KeyboardSteps.EveryRun | src/kernel/arch/i686/irq.c:110-135 | under every interleaving the characters delivered are a prefix of those accepted, and the unread ones, at most 1023, are intact in the buffer |
| KeyboardSteps.NothingLost | src/kernel/arch/i686/irq.c:113-122 | under every interleaving the key presses taken up are, in order, the accepted ones, the dropped ones taken out, and the one in hand |
| KeyboardSteps.HandlerCompletes | src/kernel/arch/i686/irq.c:110-125 | left alone the handler accepts its character exactly when there is room |
| Keyboard.KeyRows | src/kernel/arch/i686/irq.c:13-56 | the rows of the keyboard by their characters |
| KeyboardQueue.KeyBuffer.KeyboardHandler | src/kernel/arch/i686/irq.c:110-125 | the method form of the handler adds the admitted character to the history |
| KeyboardQueue.KeyBuffer.ReadChar | src/kernel/arch/i686/irq.c:127-135 | the method form of the reader delivers the next character of the queue, waiting through bursts of key presses |
| KeyboardSchedules.ReadCharIsSchedule | src/kernel/arch/i686/irq.c:110-135 | every outcome of the method form is reached by some interleaving, after any interleaving |
| Lines.Fgets | src/libs/core/stdio.c:302-327 | the buffer holds the edited line with its terminator, the keys taken are the next ones accepted and no more than the line needs, and null is returned exactly for an empty line or a useless buffer |
| Lines.PieceUnique | src/libs/core/stdio.c:310-322 | a stream with a line end starts with exactly one piece that makes up a line |
| Lines.TypedLine | src/libs/core/stdio.c:310-325 | a text that fits and the newline behind it are one line, newline included |
| Lines.EnterEnds | src/libs/core/stdio.c:312-314 | Enter, scan code 28, is the only key that ends a line |
| Lines.BackspaceErases | src/libs/core/stdio.c:315-318 | the key with scan code 14 is the only one that erases |
| Lines.LineOfRun | src/libs/core/stdio.c:310-322 | whatever the interleaving, the line made of the characters delivered is the one made of those accepted |
| Lines.EditCancels | src/libs/core/stdio.c:315-320 | a character and the backspace after it leave no trace |
| Lines.EditIgnoresLeading | src/libs/core/stdio.c:315-318 | a backspace on an empty line is ignored |
| Lines.EditPlain | src/libs/core/stdio.c:319-321 | without backspaces the line is what was typed |
| Terminals.TextInPlace | src/libs/core/stdio.c:85-94 | text that fits in the row goes where the cursor is and nowhere else |
| Terminals.RowFilled | src/libs/core/stdio.c:85-94 | a character in the last column completes the row and the cursor goes on at the start of the next |
| Terminals.Overwritten | src/libs/core/stdio.c:82-84 | after a carriage return text overwrites the row from its start |
| Terminals.RowLeft | src/libs/core/stdio.c:73-76 | a newline leaves the row as it is and starts an empty one |
| Terminals.TabIsBlanks | src/libs/core/stdio.c:77-81 | a tab is one to three blanks |
| Terminals.HistoryKept | src/libs/core/stdio.c:71-101 | a row that has been left is never changed again |
| Terminals.TabNeverAligns | src/libs/core/stdio.c:77-81 | the column after a tab, which is never a multiple of four |
| Console.Screen.Clrscr | src/libs/core/stdio.c:40-51 | the screen shows the empty terminal in the default colour |
| Console.Screen.Scrollback | src/libs/core/stdio.c:53-69 | all cells move up by exactly the rows asked for, and the rows at the bottom are blank |
| Console.CellsShown | src/libs/core/stdio.c:15-30 | the screen holds the last 25 rows written, characters at the even bytes and the default colour at the odd ones |
| Console.Screen.Putc | src/libs/core/stdio.c:71-101 | after every character the screen is the bottom window of the unbounded terminal, all colours are the default and both cursors are on the next cell |
| Console.Screen.Puts | src/libs/core/stdio.c:103-108 | the same for strings |
| Numerals.ReadBack | src/libs/core/stdio.c:112-127 | the printed digits, read in their radix, are the number, and there is no leading zero |
| Numerals.UsualDigits | src/libs/core/stdio.c:110 | the digits are 0 to 9 and a to f, the sign is a minus |
| Numerals.NothingForZero | src/libs/core/stdio.c:117-121 | nothing is printed for 0, and only for 0 |
| Numerals.Canonical | src/libs/core/stdio.c:112-127 | every numeral without a leading zero is what is printed for its value |
| Numerals.FitsBuffer | src/libs/core/stdio.c:113-121 | a 64-bit number has at most 32 digits in any radix from 4 to 16 |
| Numerals.SignedReadBack | src/libs/core/stdio.c:129-136 | signed output reads back as the number and has a minus sign exactly for negative ones |
| Printing.PrintfUnsigned | src/libs/core/stdio.c:112-127 | the loops over the digit buffer print the digits in order |
| Printing.PrintfSigned | src/libs/core/stdio.c:129-136 | the same with the sign |
| Formats.FormatsJoin | src/libs/core/stdio.c:276-282 | printing a complete format and then another is printing the joined format: nothing is carried over |
| Formats.PlainText | src/libs/core/stdio.c:162-171 | text without a percent sign stands for itself |
| Formats.CutOff | src/libs/core/stdio.c:160-286 | a directive that the end of the format cuts off prints nothing and takes no argument |
| Formats.PrintsUnsigned | src/libs/core/stdio.c:220-238 | x, X and p print their argument in radix 16, o in radix 8 and u in radix 10, without a leading zero, at 32 or with ll at 64 bits |
| Formats.PrintsSigned | src/libs/core/stdio.c:214-219 | d and i print in decimal the number whose two's complement their argument is, at 32 or with ll at 64 bits |
| Formats.PrintsCharacter | src/libs/core/stdio.c:205-207 | c prints the low byte of its argument |
| Formats.PrintsString | src/libs/core/stdio.c:208-210 | s prints its argument up to the terminator |
| Formats.PrintsFixed | src/libs/core/stdio.c:211-243 | a second percent sign prints one, any other letter prints nothing, and neither takes an argument |
| Printing.Printf | src/libs/core/stdio.c:150-289 | for every format and fitting arguments the state machine prints what the grammar says the format stands for |
| FilePrinting.CrLfHarmless | src/libs/boot/fat.c:361-366 | the carriage returns that are added change nothing on the screen |
| FilePrinting.ReadFile | src/libs/boot/fat.c:356-370 | a file found by its path is shown completely, whatever the chunks and clusters are, and its handle is closed again |

## Findings

What the proofs show the code not to do, each with its exact condition:

- Window overrun (src/libs/boot/fat.c:152-155): a 12-bit entry that begins on the last byte of the window
  is completed with the low byte of the window position. `Volumes.Volume.HistoryInvisible` gives the
  exact condition for any run, `Volumes.Volume.AlwaysRightExact` the entries that are right with every
  window, `Volumes.Volume.LinkedExact` and `Volumes.Volume.EndsExact` the chains that are;
  `Volumes.Volume.Cluster1706` is the first cluster that can go wrong.
- FAT32 end marks (src/libs/boot/fat.c:203): recognised only with all reserved bits set,
  `Volumes.Volume.EndMarkExact`; `Volumes.Volume.ClearReservedBits` is a failing input.
- FAT type (src/libs/boot/fat.c:24-30): found by a field instead of the cluster count,
  `Layouts.TypeByClusterCount`; `Layouts.LargeFat16` is a failing input.
- Stale root buffer (src/libs/boot/fat.c:223-226): closing the root does not reload its first sector.
  `FatDriver.Driver.Close` and `PathLookup.Open` say exactly when that shows; `PathLookup.LateMatch` is a
  failing input.
- Stray name byte (src/libs/boot/fat.c:316): the last component is terminated one place too far.
  `ShortNames.TailExact` lists the names for which it is harmless; `ShortNames.TailMatters` is a failing
  input.
- Followed null pointer (src/libs/boot/fat.c:330): `PathLookup.Open` says exactly when, and
  `PathLookup.FullSlotsFollowNull` is a failing input.
- Not-a-directory test (src/libs/boot/fat.c:325): never true because of operator precedence
  (`PathLookup.Refuses`, `PathLookup.Step`), so that files are searched like directories.
  `PathLookup.FilesAsDirectories` says exactly when that shows; `PathLookup.FileSearched` is a failing
  input.
- 16-bit counts (src/libs/boot/memory.c:5-24): `ElfLoader.ExactlySmall`, with
  `ElfLoader.LargeGoesWrong` as the failing inputs.
- Header validation (src/libs/boot/elf.c:23-31): its result is not used, and its test of the magic number
  is the wrong way round. `ElfLoader.NotValidated` says what the loader does not look at,
  `ElfLoader.RefusedExactly` when invalid headers are refused all the same, `ElfLoader.FlagExact` when the
  unused result is right; `ElfLoader.ZeroHeaderLoads` is a failing input.
- Handle leak (src/libs/boot/elf.c:16-18, 42-44, 61-63, 72-74): every error exit leaves one handle open,
  `ElfLoader.Read`.
- Quicksort bounds (src/libs/util/stdlib.c:28-33): an empty array, or a first element strictly less than
  all others, sends the recursion outside the array; `Quicksort.Sort` has the exact condition,
  `Quicksort.PairInOrderTrips` is a failing input.
- Tabs (src/libs/core/stdio.c:78): the loop bound moves with the cursor, `Terminals.TabNeverAligns`.
- Printing of 0 (src/libs/core/stdio.c:117): prints nothing, `Numerals.NothingForZero`.

## Left out

- FatDriver.Driver.Read: entries whose lookups go wrong with some window (see "Findings") cannot be opened in the model, whether or not the history of lookups would lead to that window. The root of a FAT32 volume, which the driver reads as consecutive sectors of size 0, cannot be read through the model; regular files and subdirectories of FAT32 can, the latter if their chain ends in a recognised mark or is cut by a recorded size.
- FatDriver.Driver.NextCluster: a failed read of the window is ignored by the code; from then on the contract promises nothing about the cursor, only that a failure was counted.
- FatDriver.Driver.Advance: the same for the cursor.
- PathLookup.FindFile: assumes a drive that does not fail, because the ignored window failure can send the search round a loop of stale entries.
- PathLookup.ReadEntry: the same, because a read that fails looks like the end of the directory.
- PathLookup.SearchAndClose: the same as for the search.
- PathLookup.Step: the same as for the search.
- PathLookup.Open: after a null pointer was followed nothing is promised; the address space at 0 is not part of this model. A path component of 255 characters or more, which overruns the name buffer, is excluded, and so are entries on the way that the driver cannot read.
- Streams.Execute: assumes a drive that does not fail, and entries and paths on which the single operations do what they are for (`Streams.Sensible`).
- Streams.OpenAndRead: the same, and a free slot.
- ElfLoader.Seek: assumes a drive that does not fail.
- ElfLoader.CopyIn: the same.
- ElfLoader.Read: a missing file is excluded, because the code then reads through a null pointer. The program header table has to lie behind the header and fit its buffer, and segments have to lie above the buffers, because the code does not check either. Memory after an error exit is not specified.
- ElfImages.LoadExecutable: the same, and segments below 64 KiB; `ElfLoader.Read` covers larger ones.
- FilePrinting.ReadFile: a missing file is excluded for the same reason.
- Quicksort.Sort: what happens outside the array is not modelled; fewer than 2^31 elements, because the scans use signed indices.
- Printing.PrintfSigned: the smallest 64-bit number is excluded, because its negation is undefined in C; `Printing.Printf` inherits this, and it requires as many arguments as the format takes.
- Formats.PrintsSigned: excludes that number too.
- Console.Screen.Putc: a single caller; the echo of the interrupt handler shares the cursor without protection and is not part of this model.
- KeyboardQueue.KeyBuffer.ReadChar: on one processor, interrupts arrive between polls in bursts; finer interleavings are covered by `KeyboardSteps`. A keyboard that is never pressed again is a result of its own instead of an endless loop.
- Lines.Fgets: the same result for a reader that would wait for ever.
- Slots, driver, screen, ring buffer and arrays are modelled in place, but the driver's data and the loader's memory are separate objects; that they lie in one address space appears only as the requirement on segments.
- The directory listing (src/libs/boot/fat.c:341-354), long file names, UTF-16, the kernel's copy of the driver (src/libs/core/fat.c) and the boot copy of the console: near copies, unused, or only easy members.
- MBR entries, drive parameters and the reset between retries: the geometry and the partition are given.
- Graphics, descriptor tables, interrupt controllers, port input and output and the command line: foreign calls or tables.
