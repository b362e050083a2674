# AlmaOS: a verified model of the boot loader, the FAT12 readers and the kernel

This project models the parts of AlmaOS that carry state from one step to the
next, and proves what each of them is for. `dafny verify dfyconfig.toml` checks
all of it.

**The FAT12 readers.** The stage 2 driver (`FatDriver`, `FatFiles`, `FatOpen`,
`FatMount`) is a table of eleven handle objects, each with a sector buffer,
updated in place over a disk of sectors (`Disk`); `FatSearch` looks a name up in
a directory, and `FatLoad` goes the whole way from a disk to the bytes of a file,
as the second stage does with the kernel. The reference is `FatVolume`: a file
is the concatenation of the clusters of its chain, and a path is looked up
recursively in the directory tree. Two other programs read the same format: the host tool (`HostTool`) and
the boot sector (`BootLoader`). The three decoders of the packed table are
compared in `FatTable`; `FatChains` shows that a chain is determined by its
first cluster, never repeats one, and hence that every walk ends. `FatNames` is
the conversion to 8.3 names.

What a disk holds is written down a second time, byte by byte and in numbers,
without any of the functions that decode it: `FatLayout` has the boot sector,
directory entries, linked table entries and clusters in the order of their
fields, `NameCase` the eleven characters of an entry for a name in whatever
case, and `FatRoutes` the entries along a path. There it is proved that what was
written is read back, that both programs mount such a disk, that the header in
boot.asm is the floppy the boot sector takes for granted, and that every reader
delivers the clusters that were laid out.

**The real-mode trampoline.** `RealMode` is a machine with visible selectors,
hidden base and limit of every segment register, CR0.PE, GDTR, IDTR, EFLAGS,
the PIC masks, stack memory and the shared state block. What an instruction
relies on is the precondition of the method that stands for it (small limits
before PE is cleared, no stack access between a load of SS and of SP, far jumps
that land on their label through the bases of `Descriptors`), so that the
trampoline verifies because every condition holds at every step. A BIOS handler
is a value of `BiosEffect`; everything is proved for all of them, and for all
values of the arithmetic flags that a write of CR0 leaves undefined ("MOV—Move
to/from Control Registers" in volume 2 of the Intel SDM).

**Kernel state machines.** `Vga` (80x25 cells against a terminal whose lines are
never lost), `Keyboard` (scancode automaton and ring, with the reader split into
the steps an interrupt can come between), `Kalloc` (page allocator over E820),
`Shell` (line editor and in-place tokenizer), `GfxBridge`, `Pixels`, `BitFields`
and `FramebufferReport` (presenting a backbuffer, reading it back, summing it
up).

**Parsers and printers.** `Getopt` (getopt and getopt_long with their hidden
cursor), `CommandLines` (what a loop over them recovers), `Utf8` (the decoder
of section 3 of RFC 3629), `PrintNumber` (64/32 division and printf's digits) and
`NumberReading` (what was pushed and printed, read back).

`Words` and `Arithmetic` hold the machine words and a few facts about products
and quotients.

## Where the code does not do what it says

Each of these is proved, with the exact condition under which the code does
meet its promise where there is one.

- `min` takes 16-bit ints. FAT_Read delivers the smaller of the count and what
  is left exactly when the smaller fits an int and the larger, cut to one, is
  not below it (`PromiseKept`); with bit 15 set in either the copy overruns the
  buffer. Reading a whole file in one call, as stage 2 reads the kernel, works
  exactly below 32 KiB (`WholeFileInOneRead`, `LoadKernel`). Nor does reading
  piece by piece help: from 32 KiB on, no run of reads of any counts reaches the
  last 32 KiB (`LastPartOutOfReach`, `ReadPieces`).
- FAT_FindFile never returns false: on any directory, in any state, the search
  goes on until something matches (`NeverNotFound`). Short of read 2^27 it has
  found a name exactly when the root directory holds it (`SearchRoot`); there
  the position wraps and the cursor leaves the root directory for the sectors
  behind it (`RootWraps`).
- FAT_FindFile, for a name without a dot, looks at offset 11 of its array for
  one. The name is encoded as documented exactly when the bytes behind it do
  not pass for an extension (`EncodesNameOnly`).
- FAT_Close rewinds the root directory without reloading its buffer. After
  FAT_Open it can be searched again exactly when the sector left there, the one
  of the entry behind the first component's, is like the first (`FatOpen.Open`):
  always for the first fifteen entries (`EarlySlotStays`), not for the sixteenth of
  a disk that is accepted (`SixteenthEntryGoesStale`).
- FAT_Open with a full handle table follows a null pointer when the path goes
  on (`Open`, by its `Outcome`).
- The data area of stage 2 is the host tool's exactly when the reserved and
  table sectors fit 16 bits (`DataAreasCoincide`).
- FAT_Initialize checks the size of the table in 16 bits and reads it with a
  count of 8: what it reads fits exactly when bit 7 of the count is clear
  (`TableFits`). The volume is the one the host tool sees exactly when nothing
  is cut off (`SameVolume`).
- The host tool's copy stays inside the buffer it allocates exactly when the
  chain is at most one sector longer than the size (`ReadersAgree`). A chain of
  one-sector clusters no longer than needed is (`OneSectorClustersFit`); a file of
  one cluster is when its size comes within a sector of the cluster's
  (`OneClusterFits`), which one byte in a cluster of four sectors does not
  (`FourSectorClusterOverruns`).
- The host tool computes the offset of a seek in 32 bits: a root directory at
  sector 2^23 or behind is sought at the start of the image (`SeekWraps`).
- The boot sector's loader starts over at the segment's first byte after 128
  sectors. The segment starts with the file exactly when its chain is no longer
  (`WholeFileLoaded`); of a longer one the first blocks are lost
  (`FirstBlocksOverwritten`).
- The boot sector keeps the number of heads in a byte. With 256, which the BIOS
  reports as 255, it is 0, and the first conversion of a sector number divides by
  it (`BootHeadsWrap`).
- `vga_entry` keeps the colour exactly for characters below 0x80, or for the
  colour 0xFF (`CellKeepsColour`).
- `kalloc_init` with an entry that runs past 2^64 by a page or more claims
  memory beyond 4 GiB (`RegionBelow4GiB`).
- A cluster of short options at the very end of argv loses everything after its
  first letter (`RoundTripAtEnd`).
- `narrow_channel` is documented to give 0 for a channel the mode lacks; it
  gives the value (`MissingChannel`).
- The backbuffer's size is computed in 32 bits (`BackbufferSize`).
- The second stage's decoder prints the low 16 bits of a character
  (`Utf8.RoundTrip`).
- `printf` prints the smallest 16-bit or 32-bit number as a 64-bit one
  (`PrintsWhatIsMeant`).

## Model

| member | source | states |
|---|---|---|
| `Disk.ChsRoundTrip` | src/bootloader/stage2/disk.c:20-31 | dividing a sector number, packing it into CX and DX and letting the BIOS put it together again is the identity below 1024 cylinders |
| `Disk.BootSectorAgrees` | src/bootloader/stage1/boot.asm:295-317 | for at most 255 heads the boot sector's register arithmetic reaches the same CH, CL and DH |
| `Disk.BootHeadsWrap` | src/bootloader/stage1/boot.asm:93-95 | the number of heads the boot sector keeps is the disk's up to 255, and 0 for 256 |
| `Disk.Unpacked` | src/bootloader/stage2/x86.asm:208-216 | the packed registers hold ten bits of cylinder, six of sector, eight of head |
| `Disk.Drive.BiosRead` | src/bootloader/stage2/x86.asm:218-231 | one transfer delivers consecutive sectors from the addressed one, exactly when they exist and the drive works |
| `Disk.Drive.Attempt` | src/bootloader/stage2/disk.c:38-45 | of three attempts one that works is enough, and without one there is a failure |
| `Disk.Drive.ReadSectors` | src/bootloader/stage2/disk.c:33-46 | the run of sectors asked for, in one transfer, or a reported failure |
| `Disk.Drive.BootRead` | src/bootloader/stage1/boot.asm:331-369 | the boot sector's own read delivers the sector asked for, or fails |
| `FatTable.DecodePacked` | src/bootloader/stage2/fat.c:181-193 | the decoder inverts the FAT12 packing at every entry |
| `FatTable.DecodersAgree` | tools/fat/fat.c:134-141 | stage 2, host tool and boot sector all return entry c of a packed table |
| `FatTable.TriplingKeepsParity` | src/bootloader/stage1/boot.asm:177-189 | the remainder of the tripled number tells odd from even clusters |
| `FatVolume.Volume.StepFollowsChain` | src/bootloader/stage2/fat.c:237-257 | the cluster and sector cursors walk the chain's sectors in order and meet an end mark exactly behind the last |
| `FatVolume.Volume.TrackedSector` | src/bootloader/stage2/fat.c:141-145 | a tracked position is the sector FAT_ClusterToLba addresses |
| `FatChains.NoRepeat` | tools/fat/fat.c:125-143 | a chain that reaches an end mark never repeats a cluster |
| `FatChains.Unique` | tools/fat/fat.c:125-143 | a chain is determined by its first cluster |
| `FatChains.LengthBound` | tools/fat/fat.c:125-143 | a chain has no more clusters than can be numbered, so every walk ends |
| `FatChains.BytesConcatenate` | src/bootloader/stage2/fat.c:141-145 | the bytes of a chain's sectors are its clusters, concatenated |
| `FatDriver.Min16Meaning` | src/bootloader/stage2/utility.c:3-5 | the 16-bit minimum of two 32-bit counts: exact or negative |
| `FatDriver.FatSystem.StepRoot` | src/bootloader/stage2/fat.c:223-236 | the step behind a root sector, in any state: the next sector is loaded, or nothing moves |
| `FatDriver.FatSystem.StepChain` | src/bootloader/stage2/fat.c:237-257 | the step behind a chain's sector, in any state, inside the table and outside |
| `FatDriver.FatSystem.NextRootSector` | src/bootloader/stage2/fat.c:223-236 | within the root directory the cursor follows its sectors; at the end the buffer is kept |
| `FatDriver.FatSystem.NextChainSector` | src/bootloader/stage2/fat.c:237-257 | stepping in a chain loads its next sector, or cuts the size to the position at its end |
| `FatDriver.FatSystem.CopyChunk` | src/bootloader/stage2/fat.c:213-217 | copying from the buffer extends the output by the bytes that follow in the stream |
| `FatDriver.FatSystem.ReadChunk` | src/bootloader/stage2/fat.c:209-259 | one pass of the loop keeps the cursor invariant and delivers the next bytes |
| `FatDriver.FatSystem.Clip` | src/bootloader/stage2/fat.c:205-211 | the clipped count, and exactly when the first copy would leave the buffer |
| `FatDriver.FatSystem.DirectoryReadStalls` | src/bootloader/stage2/fat.c:209-211 | a directory read whose count is a multiple of 64 KiB takes nothing and stands still |
| `FatDriver.FatSystem.Read` | src/bootloader/stage2/fat.c:195-262 | a read delivers the bytes that follow the position, as many as wanted or left; a failed sector leaves a correct prefix; the cursor invariant is kept |
| `FatFiles.OpenEntry` | src/bootloader/stage2/fat.c:147-179 | the first free slot is set up from the entry and holds its first sector; a full table yields NULL |
| `FatFiles.Close` | src/bootloader/stage2/fat.c:276-284 | closing frees the slot; the root is rewound instead |
| `FatFiles.OpenedIsReading` | src/bootloader/stage2/fat.c:162-178 | a handle just opened on a chain satisfies the cursor invariant |
| `FatFiles.PromiseKept` | src/bootloader/stage2/fat.c:207-211 | the exact condition under which 16-bit minima give the promised count |
| `FatFiles.WholeFileInOneRead` | src/bootloader/stage2/main.c:71 | one read delivers a whole file exactly when it is shorter than 32 KiB |
| `FatFiles.FortyThousandBytes` | src/bootloader/stage2/main.c:71 | a file of 40000 bytes overruns |
| `FatFiles.LastPartOutOfReach` | src/bootloader/stage2/fat.c:207-211 | with 32 KiB or more left, a count that does not overrun leaves 32 KiB or more |
| `FatFiles.ReadPiece` | src/bootloader/stage2/fat.c:264-270 | one call delivers a correct piece, min(count, remaining) long for counts and sizes below 32 KiB, and none of the last 32 KiB from further away |
| `FatFiles.ReadPieces` | src/bootloader/stage2/fat.c:264-270 | any sequence of calls delivers, concatenated, a prefix of the chain's clusters cut to min(Size, chain bytes), all that was asked for below 32 KiB; from 32 KiB on it never reaches the last 32 KiB |
| `FatNames.EncodeName` | src/bootloader/stage2/fat.c:290-304 | the two loops compute the encoding of the name and of the bytes behind it |
| `FatNames.EncodesNameOnly` | src/bootloader/stage2/fat.c:294-304 | the 11 bytes depend on the name alone exactly when what stands behind it does not pass for an extension |
| `FatNames.StaleDotFound` | src/bootloader/stage2/fat.c:294-304 | a dot left at offset 11 turns BOOT into BOOT.BIN |
| `FatNames.FoundSpelled` | src/bootloader/stage2/fat.c:301-304 | the extension found is what follows the dot's place up to a NUL, inside the array |
| `FatNames.EncodedSpells` | src/bootloader/stage2/fat.c:290-304 | the encoding of an 8.3 name spells that name in upper case |
| `FatNames.EncodedInjective` | src/bootloader/stage2/fat.c:290-311 | two 8.3 names reach the same entries exactly when they are equal up to case |
| `NameCase.CaseDoesNotMatter` | src/bootloader/stage2/fat.c:296-304 | names that differ only in the case of letters are looked for under the same eleven bytes |
| `NameCase.NeverLowerCase` | src/bootloader/stage2/fat.c:296-304 | none of those bytes is a letter in lower case |
| `NameCase.EncodedInUpperCase` | src/bootloader/stage2/fat.c:290-304 | they are the name with its letters in upper case and all else as it is, cut or filled with spaces around the first dot |
| `NameCase.EncodedPart` | src/bootloader/stage2/fat.c:290-304 | a component of eight and three characters is looked for under the name its entry has |
| `NameCase.KernelName` | src/bootloader/stage2/main.c:9 | kernel.bin is looked for as KERNEL, two spaces, BIN |
| `FatSearch.ReadEntry` | src/bootloader/stage2/fat.c:272-274 | the i-th read of a directory is its i-th entry, even if the sector behind cannot be read |
| `FatSearch.FindFile` | src/bootloader/stage2/fat.c:286-314 | for a name the directory holds: the first entry whose 11 raw bytes match, and the position behind it; only a sector in front of it that cannot be read keeps it from being found |
| `FatSearch.ReadDirectory` | src/bootloader/stage2/fat.c:195-274 | a read of one entry, on any directory in any state: it delivers what the buffer holds and never returns false |
| `FatSearch.NeverNotFound` | src/bootloader/stage2/fat.c:306-313 | after any number of reads, on any disk, a search has not returned false |
| `FatSearch.ReadRootEntry` | src/bootloader/stage2/fat.c:221-236 | behind its last sector the root directory repeats that sector's entries |
| `FatSearch.RootWraps` | src/bootloader/stage2/fat.c:216-235 | at read 2^27 the position is 0 again, and the cursor loads the sector behind the root directory, if there is one that can be read |
| `FatSearch.SearchRoot` | src/bootloader/stage2/fat.c:306-313 | short of that read, a search of the root has found a name exactly when an entry read matches, and once all are read exactly when the directory holds it (which bytes those are: NameCase.EncodedInUpperCase) |
| `FatOpen.ShortPathsAreTidy` | src/bootloader/stage2/fat.c:316-340 | for paths without a dot in twelfth place it all depends on what the stack held at offset 11 |
| `FatOpen.FindComponent` | src/bootloader/stage2/fat.c:343-345 | the component's entry is found and its directory closed, also when the sector behind the entry cannot be read; unless that is so, the root's buffer is left with the sector of the entry behind |
| `FatOpen.OpenComponent` | src/bootloader/stage2/fat.c:342-361 | one round: the entry found is opened in the slot its directory held, or no slot is held |
| `FatOpen.RoundKeepsGoal` | src/bootloader/stage2/fat.c:325-362 | a round of the loop keeps the goal of the tree lookup |
| `FatOpen.Open` | src/bootloader/stage2/fat.c:316-365 | the entry the recursive lookup selects, in one slot more; none held when a component is no directory; a null pointer followed with a full table; afterwards, unless a sector behind an entry could not be read, the root can be searched again exactly when the sector in its buffer is like the first |
| `FatOpen.EarlySlotStays` | src/bootloader/stage2/fat.c:276-280 | it is after a match among the first fifteen entries, or in a root of one sector |
| `FatOpen.OpenTwice` | src/bootloader/stage2/fat.c:316-365 | under that condition a second path is opened as if alone, and the first handle stays what it was |
| `FatMount.DataAreasCoincide` | tools/fat/fat.c:91-106 | the two derivations of the data area coincide exactly when reserved and table sectors fit 16 bits |
| `FatMount.ReadRun` | src/bootloader/stage2/fat.c:82-84 | the table's sectors in one transfer, with the count cut to a byte |
| `FatMount.TableFits` | src/bootloader/stage2/fat.c:100-105 | the table that is read fits its memory exactly when bit 7 of its sector count is clear |
| `FatMount.MountedIsValid` | src/bootloader/stage2/fat.c:95-97 | what is accepted, on a disk that holds it, is a volume the cursor invariants speak of |
| `FatMount.Initialize` | src/bootloader/stage2/fat.c:86-139 | what a boot sector must say to be accepted, and, on a disk that holds what it says, the volume, the root handle and the empty table it leaves |
| `FatLoad.MountAndOpen` | src/bootloader/stage2/main.c:28-69 | mounting an acceptable disk and opening a path that leads to a file yields a handle at its first byte |
| `FatLoad.DeliverFile` | src/bootloader/stage2/main.c:28-72 | from the disk to the bytes: whatever the counts, reading delivers the clusters of the file at that path from the first byte on, cut to its size |
| `FatLoad.LoadKernel` | src/bootloader/stage2/main.c:67-72 | the one call that asks for the whole file, and the comparison behind it: all of the file, and success, exactly below 32 KiB |
| `FatLoad.SixteenthEntryGoesStale` | src/bootloader/stage2/fat.c:276-280 | a disk FAT_Initialize accepts, with a file in the sixteenth entry, finding which leaves the root directory stale |
| `FatLayout.EntryReadsBack` | src/bootloader/stage2/fat.h:15-28 | every field of a directory entry is read from where it was written, and an entry is a directory exactly when that attribute was set, whatever the others |
| `FatLayout.BootReadsBack` | src/bootloader/stage2/fat.c:18-46 | so are the fields of the boot sector, whatever stands around them |
| `FatLayout.FormattedIsMounted` | src/bootloader/stage2/fat.c:86-139 | a disk as large as its boot sector says is accepted, and table, root directory and data are seen where they are, by the host tool too |
| `FatLayout.FloppyIsBootFloppy` | src/bootloader/stage1/boot.asm:14-34 | the header declared there is mounted as the floppy its own loader assumes: table at 1, root directory at 19, data at 33 |
| `FatLayout.ChainsAreLinked` | src/bootloader/stage2/fat.c:181-251 | the chains followed are exactly those whose entries the table links, with 0xFF8 to 0xFFF at the last |
| `FatLayout.ChainEnds` | tools/fat/fat.c:136-143 | on any table a chain goes from cluster to cluster below 0xFF8, and ends at a mark from there on |
| `FatLayout.LinkedIsChainOf` | src/bootloader/stage2/fat.c:141-193 | a linked file is the chain of its first cluster, and its bytes are the sectors where cluster 2 is the first of the data area |
| `FatRoutes.StreamIsDirectory` | src/bootloader/stage2/fat.c:195-262 | what a directory is read as is what lies in its sectors |
| `FatRoutes.SearchRootFor` | src/bootloader/stage2/fat.c:286-314 | a component, in whatever case, is found in the root directory exactly when its name stands there in upper case |
| `FatRoutes.PathParts` | src/bootloader/stage2/fat.c:316-340 | a path put together with slashes is taken apart into the same components |
| `FatRoutes.RouteIsLookup` | src/bootloader/stage2/fat.c:316-365 | a path along entries that stand in one another leads to the last of them, and nowhere if a file comes before the end |
| `FatRoutes.OpenRoute` | src/bootloader/stage2/fat.c:316-365 | opening such a path yields a handle with that entry's size, kind and first sector, NULL behind a file, and with ten handles held NULL or a null pointer followed |
| `FatRoutes.DeliverRoute` | src/bootloader/stage2/main.c:28-72 | stage 2 delivers, from such a disk, the clusters laid out for the file at the end of a path, cut to its size |
| `FatRoutes.LoadRoute` | src/bootloader/stage2/main.c:67-72 | and in one call all of them, exactly below 32 KiB |
| `FatRoutes.CopyLaidOut` | tools/fat/fat.c:149-208 | the host tool mounts the disk and writes the same clusters, or leaves its buffer exactly when they do not fit |
| `FatRoutes.LoadLaidOut` | src/bootloader/stage1/boot.asm:161-205 | the boot sector, on its own floppy, fills the segment with the same clusters exactly up to 128 |
| `HostTool.ReadSectors` | tools/fat/fat.c:73-80 | sectors of the image from where the 32-bit offset leads, at an offset of the output, exactly when the image has them or none are wanted |
| `HostTool.SeekWraps` | tools/fat/fat.c:76 | from sector 2^23 on, below 2^24, the seek leads 2^23 sectors too low |
| `HostTool.Mount` | tools/fat/fat.c:67-106 | the tool's own table and data area, exactly when the image holds the table, and a root directory where the seek leads |
| `HostTool.SameVolume` | tools/fat/fat.c:82-106 | both programs see one volume exactly when table, root start and root size are not cut off in stage 2 |
| `HostTool.SameFiles` | tools/fat/fat.c:121-146 | when the data areas coincide, a chain of stage 2 is one of the host tool, with the same bytes |
| `HostTool.ReadFile` | tools/fat/fat.c:121-146 | the output is the concatenation of the chain's clusters, and is not left exactly when they fit |
| `HostTool.OneSectorClustersFit` | tools/fat/fat.c:194 | a chain of one-sector clusters no longer than the entry's size needs fits what is allocated for it |
| `HostTool.OneClusterFits` | tools/fat/fat.c:194 | a chain of one cluster fits exactly when the size comes within a sector of filling it |
| `HostTool.FourSectorClusterOverruns` | tools/fat/fat.c:194 | an entry of one byte in one cluster of four sectors overruns it |
| `HostTool.CopyOut` | tools/fat/fat.c:149-208 | for an entry: when the image is mounted, when the copy stays inside what is allocated, and that the output starts with the bytes stage 2 sees in the chain |
| `HostTool.ReadersAgree` | tools/fat/fat.c:149-208 | on one image whose data areas coincide, any run of stage 2 reads delivers a prefix of what the host tool writes, all min(Size, chain bytes) of it when read on that far |
| `BootLoader.LoadSector` | src/bootloader/stage1/boot.asm:161-169 | a sector is loaded at the offset, or the load fails; the rest of the segment is kept |
| `BootLoader.BootStep` | src/bootloader/stage1/boot.asm:161-201 | the boot sector's hard-coded sector arithmetic addresses the cluster and follows its link |
| `BootLoader.LoadStage2` | src/bootloader/stage1/boot.asm:161-205 | every block of the segment holds the last sector that landed in it, unless a sector cannot be read; the segment starts with the file exactly when its chain has at most 128 clusters |
| `BootLoader.WholeFileLoaded` | src/bootloader/stage1/boot.asm:171-172 | with the last sector of each block in place, the segment starts with the concatenated clusters exactly when there are at most 128 |
| `BootLoader.FirstBlocksOverwritten` | src/bootloader/stage1/boot.asm:171-172 | of a longer file, the first blocks hold clusters from the 129th on |
| `Descriptors.WithBaseMeaning` | src/kernel/realmode.c:79-84 | the scattered bytes give back the base, and limit and size are kept |
| `Descriptors.DescriptorReadsBack` | src/kernel/boot.asm:71-107 | limit, base and size of a descriptor are read from where the processor has them, whatever the other flags |
| `Descriptors.SetBase` | src/kernel/realmode.c:79-84 | one descriptor of the table changes, in its base only |
| `Descriptors.PatchGdt` | src/kernel/realmode.c:96-110 | the table of boot.asm becomes one the trampoline can use; a short table is left alone |
| `Descriptors.PatchedBootTable` | src/kernel/boot.asm:67-108 | flat and 16-bit descriptors decode to the segments the trampoline needs |
| `RealMode.Machine.SaveAndEnter16` | src/kernel/realmode.asm:90-107 | the kernel's state is saved, and the first far jump lands on its label |
| `RealMode.Machine.LeaveProtectedMode` | src/kernel/realmode.asm:123-125 | PE is cleared only with 64 KB limits in every segment; the arithmetic flags come out as anything |
| `RealMode.Machine.LoadDataSegmentsReal` | src/kernel/realmode.asm:135-140 | the data segments are reloaded, and the stack is unusable until SP follows |
| `RealMode.Machine.EnterReal` | src/kernel/realmode.asm:110-130 | protection is off and the second far jump lands on its label, with no stack access on the way; interrupts and the other system flags are kept |
| `RealMode.Machine.CallHandler` | src/kernel/realmode.asm:132-163 | the handler sees exactly the registers in the block |
| `RealMode.Machine.CallBios` | src/kernel/realmode.asm:162-163 | any handler may change everything but the stack above, CS and the return address |
| `RealMode.Machine.CollectAndReturn` | src/kernel/realmode.asm:168-202 | the handler's registers and EFLAGS reach the block, and the third far jump lands on its label |
| `RealMode.Machine.RestoreKernel` | src/kernel/realmode.asm:205-218 | flat segments, the kernel's stack, interrupt table and registers |
| `RealMode.Machine.Trampoline` | src/kernel/realmode.asm:90-218 | for every handler: it is entered with the block's registers and interrupts off, the block holds its registers afterwards, the machine and the stack are as before |
| `RealMode.StackKept` | src/kernel/realmode.asm:91-98 | what a handler writes below the saved stack pointer leaves the saved image alone |
| `RealMode.Machine.Init` | src/kernel/realmode.c:112-137 | when initialisation succeeds, and that calls may follow |
| `RealMode.Machine.Int` | src/kernel/realmode.c:143-197 | the handler is entered with the requested registers, its own come back; ESP, the stack above it, GDTR, IDTR, PE, flat selectors, EFLAGS and both PIC masks are kept |
| `Vga.CellKeepsColour` | src/kernel/vga.c:14-16 | a cell keeps its character always, its colour exactly below 0x80 or for 0xFF |
| `Vga.CellBytes` | src/kernel/vga.c:14-16 | a cell is its character and its colour, which from 0x80 on is all ones |
| `Vga.ColourHalves` | src/kernel/vga.c:53-55 | the foreground is the low half of the colour, the background the high one |
| `Vga.Console.ClearScreen` | src/kernel/vga.c:44-51 | the screen of an empty terminal |
| `Vga.Console.Scroll` | src/kernel/vga.c:26-35 | the overlapping move loses no surviving row |
| `Vga.NewLineScrolls` | src/kernel/vga.c:26-35 | a new line at the bottom shows every line one row higher |
| `Vga.Console.Putchar` | src/kernel/vga.c:57-90 | the cells stay the last 25 lines of the reference terminal, the cursor with it |
| `Vga.Console.Feed` | src/kernel/vga.c:53-95 | so they do after any run of characters, colour changes and clears |
| `Vga.EarlierLinesStay` | src/kernel/vga.c:57-90 | no character touches a line above the cursor |
| `Vga.TextAppears` | src/kernel/vga.c:92-95 | plain text appears in reading order from the cursor on, across line ends |
| `Vga.ScreenCells` | src/kernel/vga.c:26-51 | cell 80 * r + c is column c of the r-th of the last 25 lines |
| `Vga.PutMeans` | src/kernel/vga.c:57-90 | what each character does to the line and the cursor: the next multiple of eight, one back, a new line behind column 79 |
| `Keyboard.OneMore` | src/kernel/keyboard.c:259-311 | one scancode more extends the reference translation by what it types |
| `Keyboard.ShiftStep` | src/kernel/keyboard.c:268-284 | shift is the last shift event |
| `Keyboard.AltGrStep` | src/kernel/keyboard.c:262-294 | AltGr is the last prefixed Alt event |
| `Keyboard.KeyTypes` | src/kernel/keyboard.c:296-310 | a key types what its table says; after an odd number of caps lock presses a letter in the other case, all else as it is; a zero types nothing |
| `Keyboard.OthersAreSilent` | src/kernel/keyboard.c:262-294 | releases, modifiers and a prefixed Alt type nothing |
| `Keyboard.CapsTwice` | src/kernel/keyboard.c:285-289 | whatever is typed between, a second press of caps lock takes back the first |
| `Keyboard.Driver.Push` | src/kernel/keyboard.c:241-247 | a push appends, unless the ring holds 127 |
| `Keyboard.Driver.Classify` | src/kernel/keyboard.c:259-303 | the flags follow the history, and the table chosen types what the history says |
| `Keyboard.Driver.Handler` | src/kernel/keyboard.c:259-311 | a whole interrupt keeps the invariant and is one tick of the reference: the character typed is queued, unless the ring is full |
| `Keyboard.Driver.Advance` | src/kernel/keyboard.c:313-326 | the reader gets the oldest character, which leaves the ring |
| `Keyboard.Driver.Run` | src/kernel/keyboard.c:241-326 | in every interleaving, scancodes, ring, characters delivered and reader are what the reference makes of the schedule |
| `Keyboard.AcceptedExactly` | src/kernel/keyboard.c:241-326 | after any schedule, delivered and waiting characters are the translation of its scancodes minus exactly those that found the ring full |
| `Keyboard.NothingLost` | src/kernel/keyboard.c:241-326 | when no interrupt finds the ring full, they are the whole translation |
| `Kalloc.AlignUp` | src/kernel/kalloc.c:20-24 | the next page boundary, or 0 when it leaves 32 bits |
| `Kalloc.BestTailIsMaximum` | src/kernel/kalloc.c:37-71 | the reference capacity is the largest page-floored tail of an eligible entry |
| `Kalloc.TailPages` | src/kernel/kalloc.c:37-71 | what an entry offers is the number of whole pages in it from 1 MiB to 4 GiB, if it is of type 1 |
| `Kalloc.NoPages` | src/kernel/kalloc.c:64-67 | and nothing if it ends before its first page boundary |
| `Kalloc.CountedIs` | src/kernel/kalloc.c:54-59 | the mixed 32-bit and 64-bit arithmetic counts the usable bytes, and what a wrapped sum leaves below a page |
| `Kalloc.CountsTail` | src/kernel/kalloc.c:54-69 | floored, that is exactly the tail |
| `Kalloc.Allocator.Init` | src/kernel/kalloc.c:26-74 | the capacity is that maximum, although floored and unfloored sizes are compared |
| `Kalloc.Allocator.Pages` | src/kernel/kalloc.c:76-93 | when an allocation succeeds, and the block it hands out |
| `Kalloc.BlocksAreApart` | src/kernel/kalloc.c:76-97 | blocks are whole pages, disjoint, inside the region, and add up to what is used |
| `Kalloc.RegionInside` | src/kernel/kalloc.c:54-69 | unless the entry passes 2^64 by a page or more, the region lies in it and below 4 GiB |
| `Kalloc.RegionBelow4GiB` | src/kernel/kalloc.c:54-69 | the region stays below 4 GiB exactly when the entry does not pass 2^64 by a page or more |
| `Kalloc.WrappingEntry` | src/kernel/kalloc.c:54-56 | an entry for which it does not |
| `Shell.FieldsOfWritten` | src/kernel/shell.c:129-135 | whatever the spacing, the fields of a line are those written |
| `Shell.EnteredFields` | src/kernel/shell.c:114-147 | entering a written line gives that builtin, or that name as not found |
| `Shell.BackspacesUndo` | src/kernel/shell.c:197-205 | as many backspaces undo as many characters that fitted |
| `Shell.LongLinesAreCut` | src/kernel/shell.c:202-204 | of a line longer than 63 characters the rest is lost |
| `Shell.LaterTerminators` | src/kernel/shell.c:134 | a terminator written behind a string leaves it alone |
| `Shell.WordCut` | src/kernel/shell.c:132-134 | cutting behind a word keeps every earlier argument and adds this one |
| `Shell.Console.Type` | src/kernel/shell.c:197-205 | one key does to the buffer what the reference editor does to the line |
| `Shell.Console.Tokenize` | src/kernel/shell.c:114-135 | each argv, read as a C string in the buffer left behind, is one of the first sixteen fields, in order |
| `Shell.Console.Execute` | src/kernel/shell.c:114-147 | the first builtin of that name with those arguments, or nothing for a blank line |
| `Shell.SessionOfLine` | src/kernel/shell.c:189-192 | a newline runs exactly the line it follows |
| `Shell.SessionOfFields` | src/kernel/shell.c:186-207 | a line of fields typed and ended runs the first builtin named by the first of them, with the first sixteen, or reports it unknown |
| `Shell.Console.Run` | src/kernel/shell.c:186-207 | any run of keys dispatches the commands of the reference session |
| `BitFields.FieldsReadBack` | src/kernel/gfx_bridge.c:54-56 | three fields that do not overlap are read back unchanged |
| `BitFields.BytesAssemble` | src/kernel/cmd_video.c:291-302 | the bytes of a value, lowest first, assemble to its low bytes |
| `Pixels.ReadsBack` | src/kernel/cmd_video.c:291-302 | a pixel whose bytes were stored is read back as the value stored |
| `Pixels.ChannelsReadBack` | src/kernel/gfx_bridge.c:49-57 | with disjoint channels of 1 to 8 bits each field is the top bits of the colour's channel |
| `Pixels.PaletteReadsBack` | src/kernel/gfx_bridge.c:65-71 | a 3-3-2 index keeps the top three, three and two bits |
| `Pixels.ColourReadsBack` | src/kernel/gfx_bridge.c:30-57 | the red, green and blue bytes of 0xRRGGBBAA come back from their own fields |
| `Pixels.PaletteOfColour` | src/kernel/gfx_bridge.c:65-71 | and from the index, by their top three, three and two bits |
| `Pixels.WholeBytes` | src/kernel/gfx_bridge.c:157-185 | each known depth takes its whole number of bytes |
| `Pixels.MissingChannel` | src/kernel/gfx_bridge.c:32-41 | a narrowed channel fits its size exactly when the size is not zero or the value is |
| `GfxBridge.BackbufferSize` | src/kernel/gfx_bridge.c:90-94 | the 32-bit size is enough exactly below 2^30 pixels |
| `GfxBridge.Bridge.constructor` | src/kernel/gfx_bridge.c:73-118 | when the bridge becomes ready, and for which mode |
| `GfxBridge.CellsInOrder` | src/kernel/gfx_bridge.c:153-155 | pixels of a row and rows of a pitch do not overlap |
| `GfxBridge.ShowNext` | src/kernel/gfx_bridge.c:157-185 | storing one pixel shows it, keeps the others and the padding |
| `GfxBridge.Bridge.Put` | src/kernel/gfx_bridge.c:157-185 | a store of one to four bytes is one pixel more |
| `GfxBridge.Bridge.PresentRow` | src/kernel/gfx_bridge.c:157-189 | a row in each of the known depths |
| `GfxBridge.Bridge.Present` | src/kernel/gfx_bridge.c:143-190 | every pixel read back is the converted colour, bytes outside pixels are unchanged, unknown depths do nothing |
| `GfxBridge.PresentedChannels` | src/kernel/gfx_bridge.c:143-190 | every presented pixel gives back the top bits of the channels drawn there |
| `FramebufferReport.SeenMeans` | src/kernel/cmd_video.c:343-348 | the table of sixteen counts distinct colours exactly until it is full |
| `FramebufferReport.ReportFramebuffer` | src/kernel/cmd_video.c:315-354 | covered is the number of pixels unlike the first, distinct the smaller of 16 and the number of their values |
| `FramebufferReport.PresentedRows` | src/kernel/cmd_video.c:315-354 | after presenting, what is reported on is the converted backbuffer |
| `Getopt.CallsMakeProgress` | src/kernel/getopt.c:92-184 | a call that does not return -1 moves optind on or shortens the cluster, and optind stays within argc |
| `Getopt.ShortCallsMakeProgress` | src/kernel/getopt.c:35-86 | the same for getopt |
| `Getopt.LoopsAgree` | src/kernel/getopt.c:92-184 | without long options a loop over getopt sees what a loop over getopt_long sees |
| `Getopt.FindLong` | src/kernel/getopt.c:133-141 | the first table entry named exactly by the text before the equals sign |
| `Getopt.FindShort` | src/kernel/getopt.c:21-29 | the option's first place in the option string, behind a leading colon |
| `Getopt.Strncmp` | src/kernel/string.c:14-18 | equal exactly when the texts cut to n are, without passing a terminator |
| `Getopt.LookUp` | src/kernel/getopt.c:133-141 | the scan of the table finds that entry, never indexing past a shorter name |
| `Getopt.MeasureName` | src/kernel/getopt.c:118-131 | the equals sign, and the length of the text before it |
| `Getopt.Parser.Getopt` | src/kernel/getopt.c:35-86 | the new globals and the return value of one call |
| `Getopt.Parser.GetoptLong` | src/kernel/getopt.c:92-184 | the same for getopt_long |
| `Getopt.Parser.Parse` | src/kernel/getopt.c:92-184 | a loop over it ends, with the events and the state of the specification |
| `Getopt.Parser.ParseShortOptions` | src/kernel/getopt.c:35-86 | the same for a loop over getopt |
| `CommandLines.ParseLetters` | src/kernel/getopt.c:61-85 | the flags of a cluster come one by one |
| `CommandLines.TakesLong` | src/kernel/getopt.c:117-179 | a long option is one call on its own entry |
| `CommandLines.ParseItem` | src/kernel/getopt.c:92-184 | every way of writing an option is parsed to that option |
| `CommandLines.RoundTrip` | src/kernel/getopt.c:92-184 | looping over a rendered command line recovers options and values, stops at the operands with the cursor empty |
| `CommandLines.TailLost` | src/kernel/getopt.c:38-39 | a cluster at the very end gives its first letter only and leaves the cursor in it |
| `CommandLines.RoundTripAtEnd` | src/kernel/getopt.c:38-39 | without operands the round trip holds exactly when the last option is no such cluster |
| `CommandLines.Declared` | src/kernel/getopt.c:21-29 | an option string declares a letter where it stands, with an argument if a colon follows |
| `CommandLines.FaultsReported` | src/kernel/getopt.c:61-85 | an unknown letter is reported as a question mark, a missing argument as a colon if the option string begins with one |
| `CommandLines.EndReported` | src/kernel/getopt.c:35-57 | operands, two dashes and the end are reported as -1 |
| `Utf8.StaysBounded` | src/bootloader/stage2/stdio.c:41-42 | whatever is fed in, the character under construction keeps to 21 bits |
| `Utf8.DecodesOne` | src/bootloader/stage2/stdio.c:23-47 | one encoded code point prints once, its low 16 bits |
| `Utf8.RoundTrip` | src/bootloader/stage2/stdio.c:23-47 | encoded text is printed as itself exactly when it stays on the basic multilingual plane, and the decoder ends in state 0 |
| `Utf8.Resynchronises` | src/bootloader/stage2/stdio.c:26-28 | after any garbage, one ASCII byte brings the decoder back into step |
| `Utf8.Decoder.Putc` | src/bootloader/stage2/stdio.c:23-47 | one byte's new state and output |
| `Utf8.Decoder.Puts` | src/bootloader/stage2/stdio.c:49-53 | a string is fed byte by byte |
| `PrintNumber.QuotientFits` | src/bootloader/stage2/x86.asm:80-93 | the processor's division does not fault exactly when the high half is below the divisor |
| `PrintNumber.Div64By32` | src/bootloader/stage2/x86.asm:73-105 | two divisions yield the exact quotient and remainder, and neither faults |
| `PrintNumber.NumeralUnique` | src/bootloader/stage2/stdio.c:312-317 | there is one numeral without leading zeros for each value |
| `PrintNumber.AtMost22` | src/bootloader/stage2/stdio.c:257 | 64 bits take at most 22 octal digits |
| `PrintNumber.WriteDigits` | src/bootloader/stage2/stdio.c:312-317 | the buffer holds the numeral backwards, within 22 places |
| `PrintNumber.PrintArgument` | src/bootloader/stage2/stdio.c:255-328 | the text printed for an argument, and the argument after it |
| `PrintNumber.PrintsWhatIsMeant` | src/bootloader/stage2/stdio.c:263-309 | the text is the number's exactly unless it is the smallest of a 16-bit or 32-bit type |
| `PrintNumber.TextInjective` | src/bootloader/stage2/stdio.c:319-325 | different numbers have different texts |
| `NumberReading.TextReadsBack` | src/bootloader/stage2/stdio.c:253-325 | the text of a number is a number, and reads back as that number |
| `NumberReading.ArgumentReadsBack` | src/bootloader/stage2/stdio.c:263-309 | a number pushed as one, two or four words is the argument found there |
| `NumberReading.PrintedReadsBack` | src/bootloader/stage2/stdio.c:255-328 | pushed and printed, every number reads back, but for the smallest of a 16-bit or 32-bit type |

## Left out

- BIOS internals: INT 13h is a read of a sector array that may fail (a drive that is `reliable` always succeeds), other handlers are arbitrary effects; they are assumed to come back in 16-bit real mode and to write memory only below the kernel's stack.
- FatDriver.FatSystem.Read: the copy past the sector buffer and what follows it are not modelled, only when it happens; a directory is read below 64 KiB at a time, beyond which the loop can stand still, and not at its end, where FatSearch.ReadDirectory says what one entry comes to.
- FatOpen.Open: states lookups of names that are present, since the search for others does not end, from a root directory that can be searched, and up to a directory sector in front of the entry sought that cannot be read; the stack bytes behind the components are a parameter and must be tidy in the stated sense.
- FatSearch.FindFile: after a directory sector that cannot be read, in front of the entry, the loop goes on over whatever the buffer holds; only FatSearch.NeverNotFound speaks of that.
- FatSearch.SearchRoot: stops short of read 2^27; what the search makes of the sectors behind the root directory is not modelled.
- FatMount.Initialize: the size of the driver's own data is a parameter, and error messages are not printed; a transfer of several sectors succeeds on a drive that does not fail wherever the tracks end.
- FatLoad.LoadKernel: drives that do not fail, and a file whose chain holds its size; the copy to the kernel's far address and the memory map between mounting and opening are not modelled.
- FatRoutes.DeliverRoute: disks whose sectors are numbered in 16 bits, with one root directory entry and one table at least, a table that fits its memory, and components of 8.3 characters; FatLoad.DeliverFile speaks of all that are accepted.
- FatRoutes.CopyLaidOut: the same disks.
- Disk.BootSectorAgrees: not for 256 heads, where the boot sector divides by zero; so BootLoader.LoadStage2.
- HostTool.ReadFile: images below 4 GiB, so that no cluster is sought past a wrap.
- HostTool.ReadersAgree: images of 512-byte sectors, the only ones stage 2 accepts; the tool's search of its root directory and its output are not modelled.
- BootLoader.LoadStage2: the table is a parameter; the search for stage 2 in the root directory, and the jump to it, are not modelled.
- RealMode.Machine.Trampoline: instructions between the labels are grouped; interrupts do not occur, all of them being masked.
- Vga.Console.Feed: the serial mirror, the hardware cursor, vga_set_cursor and vga_printf are not modelled.
- Keyboard.Driver.Run: a fixed layout of three arbitrary tables of 128 entries; the contents of the real tables are data.
- Shell.Console.Run: the echo on the screen and the prompt are not modelled, and builtins are assumed not to write the command buffer.
- GfxBridge.Bridge.constructor: the memory the page allocator returns is a parameter; clearing the colour and depth buffers is not modelled.
- Pixels.ChannelsReadBack: channel positions of 32 and more have no meaning in C and are excluded.
- Getopt.Parser.GetoptLong: strings are values without their terminator, so that pointers into argv are not compared.
- PrintNumber.PrintArgument: printf's format parser is not modelled; the radix is 8, 10 or 16, as it passes.
- Utf8.Decoder.Putc: the table that maps characters to code page 437 is data.
- Video modes, the cube rasterizer, the stage 2 memory allocator, PIC, PIT, serial, IDT and FPU set-up, and the string helpers other than strncmp: straight-line device code, floating point or easier versions of what is here.
