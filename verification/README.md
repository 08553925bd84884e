# SageOS kernel and linker model

A Dafny model of the parts of SageOS where a mistake would be hardest to see, with proofs of what they keep:
the FAT32 driver, the SGVM bytecode linker, the Btrfs tree search, the scheduler and process table, IPC
endpoints, capabilities and names, VFS paths and mounts, program loading and the initial process stack, and the physical
frame allocator. `dafny verify dfyconfig.toml` checks the whole project.

Code that changes state is modelled by classes and array methods with the loops of the source. Each is proved
equal to a step of a small specification on values, and the laws are proved about that specification, over
every input, run or reachable state.

| files | subject |
|---|---|
| `Bytes.dfy` | bytes, little-endian words, stretches of memory |
| `FatTable.dfy`, `FatDisk.dfy`, `FatChain.dfy`, `FatVolume.dfy`, `FatRun.dfy`, `FatSize.dfy` | FAT chains, their sectors, reading and writing, whole runs of writes, the recorded size |
| `LongNames.dfy`, `FatDir.dfy`, `DirFormat.dfy` | directories with long names: scan, lookup, listing, and directories as they are written |
| `LinkCode.dfy`, `Linker.dfy`, `Compiled.dfy`, `Sgvm.dfy`, `Machine.dfy`, `PropertyKeys.dfy` | instruction format, relocation and linking, the instructions of the compiler, the SGVM file, how the virtual machine reads the linked code and which properties it shares |
| `Text.dfy`, `SageBc.dfy` | the SAGEBC1 text format |
| `Btrfs.dfy` | tree search |
| `Process.dfy`, `Effects.dfy`, `PidWrap.dfy`, `Blocking.dfy`, `Scheduler.dfy` | process table as a state machine, what each operation does to every slot, its identifiers past the wrap, how long tasks stay blocked, and the scheduler that refines it |
| `Ring.dfy`, `Caps.dfy`, `CapEffects.dfy`, `Endpoints.dfy`, `Sharing.dfy` | message ring, capability tables, what each call does to every slot, endpoints and calls together, tasks that share a table |
| `Namespace.dfy`, `Aliases.dfy`, `Registry.dfy`, `Directory.dfy` | name tree, names of one entry, the tree in place, names and capabilities together |
| `Paths.dfy`, `Mounts.dfy`, `VfsCaps.dfy`, `Confinement.dfy` | path normalisation, mount resolution, capability paths, how confined tasks come to the root |
| `Argv.dfy`, `ElfStack.dfy`, `ElfLoad.dfy` | layout of the initial stack and its construction, program segments and heap |
| `Frames.dfy` | physical frames |

Where the code does not do what its documentation or its purpose suggests, the model follows the code, shows the
failure and says exactly when there is none:

- fat32_write records the file size in 32 bits. A write that ends at 2^32 or beyond succeeds and does not read back
  (`FatSize.WriteThenRead`, `FatSize.LostByte`); over whole runs everything written is within the recorded size
  exactly when every write ended below (`FatSize.SizeCoversExactly`).
- The linker does not move jump operands, though jumps are absolute. `Linker.JumpsLandExactly` says exactly
  when all jumps still land; `Linker.JumpsCanGoAstray` gives a program whose jump does not.
- The linker and the virtual machine disagree about eight opcodes (`Machine.ReadAlikeExactly`). On chunks without
  them every operand names for the virtual machine the constant it names for the linker
  (`Machine.MachineReadsLinked`, `Machine.MachineJumpsLandExactly`); `Machine.ImportIsMangled` shows an IMPORT that
  does not survive.
- GET_PROPERTY and SET_PROPERTY take the index of a name for the key and do not look at the name. Linking moves
  the indices of chunks and leaves those of functions, which have pools of their own. Two chunks never share a
  property, even by one name (`PropertyKeys.SameKeyExactly`, `PropertyKeys.PropertyLost`), and a function can share
  one with a chunk that has another name for it (`PropertyKeys.PropertiesClash`).
  `PropertyKeys.FilePropertiesByNameExactly` says exactly when properties go by name.
- The linker takes any last byte 43 of a chunk for a RETURN and drops it, an operand too
  (`Linker.OperandTakenForReturn`). `Linker.ChunkOkExactly` says which chunks it leaves whole.
- A vfork runs the child at once in a slot of its own, so a ready task can wait longer than its distance from
  the current one. `Process.BoundedWaiting` gives the bound with the places that vforks took,
  `Process.VforkDelays` a run from boot that needs it.
- docs/specs/syscall_abi.md says that a vfork parent blocks until its child exits or execs. The exit of any task
  releases it (`Blocking.ParentHeldExactly`, `Blocking.ReleasedByAnother`).
- Task identifiers come from a 32-bit counter that does not look at the live ones. `PidWrap.RunSoundExactly` says
  when they stay different, `PidWrap.IdentifiersRunOut` gives a run in which they do not.
- Capability tables are found by task identifier modulo 64, and there are 128 tasks: a thread start or end clears
  the table of a live task with the same remainder (`Caps.TableKeptExactly`, `Sharing.LiveTasksShareTable`).
- sys_ipc_endpoint_create looks for two free slots before it fills either, so its two handles are one slot and
  the sending half is lost (`Caps.HandlesCoincide`); it also allocates the same endpoint twice
  (`Endpoints.AllocatesTwice`). No task can ever send on an endpoint, pause or drain it (`Caps.AlwaysRefused`),
  and endpoints stay empty for good (`Endpoints.EndpointsStayIdle`). docs/architecture/ipc.md has a draining
  endpoint reject new messages; enqueue would accept them, but no endpoint ever reaches that state.
- The first name registered takes the pool entry of the namespace root. What was registered under the empty name
  is lost then (`Namespace.RootRegistrationLost`), and no other name ever loses what it holds to a registration
  elsewhere (`Namespace.InsertHolds`, `Namespace.OthersKeepTheirs`). The entry is then its own child, so that its
  name means nothing at the front of a path: "a.b", "b" and "a.a.b" are one name if a came first
  (`Aliases.SameEntryExactly`).
- A name that exists only as part of others, or the empty name, holds handle 0 of task 0, and a lookup of it copies
  that slot, the root directory (`Directory.LookupGives`, `Directory.UnregisteredNameGivesRoot`).
  `Confinement.StaysWithoutExactly` says exactly when a task without rights to the root stays without.
- The system calls test a path against the capabilities of a confined task as the user passed it
  (sageos_build/kernel/core/syscall.c:304, 406, 461, 482), and the VFS normalises it only afterwards. In every
  reachable table the test is right but for the leading slash: it refuses what a task may use under another
  spelling (`VfsCaps.RelativePathRefused`) and never grants too much (`VfsCaps.ReachableGrant`).
- docs/architecture/security.md promises that the root capability is delegated as capabilities for sub-trees. No
  call makes one: over every run the only directory is the root and there are no files (`VfsCaps.OnlyTheRoot`), so a
  confined task may use all of the tree or none of it (`VfsCaps.AllOrNothing`).
- For capabilities below the root, which the kernel never gives out, the test would mean coverage exactly on paths
  that are already normal (`VfsCaps.TestMeansCoverageExactly`, `VfsCaps.NoClimbIsSafe`);
  `VfsCaps.ClimbingPathGranted` and `VfsCaps.DoubledSlashRefused` are the paths on which it would go wrong.
- The program loader bounds the memory size of a segment and copies the file size
  (`ElfLoad.StaysInsideExactly`, `ElfLoad.CheckIsNotEnough`), and the heap is placed by ends that may have wrapped
  and by memory sizes alone (`ElfLoad.HeapBehindExactly`, `ElfLoad.WrappedHeap`, `ElfLoad.FileBytesInHeap`).
- The listing cuts long names to 63 characters, and a name leads back to its entry exactly when it was not cut
  (`LongNames.ListedNameLeadsBackExactly`); a cut one leads to nothing (`LongNames.CutNameLost`) or to an entry of
  another name (`LongNames.CutNameFound`).
- The boot loop of the frame allocator steps from the kernel base, aligned or not, and can miss the last frame
  the kernel touches; `Frames.KernelCovered` says exactly when it does not, `Frames.KernelTailMissed` shows one.

## Model

| member | source | states |
|---|---|---|
| `FatTable.ChainAcyclic` | sageos_build/kernel/fs/fat32.c:61-66 | a chain that reaches an end mark visits no cluster twice, so every chain walk ends |
| `FatTable.ChainUnique` | sageos_build/kernel/fs/fat32.c:61-66 | the first cluster determines the chain |
| `FatTable.EndMarks` | sageos_build/kernel/fs/fat32.c:61-63 | of the 28-bit values exactly the last eight end a chain |
| `FatTable.ChainNotFree` | sageos_build/kernel/fs/fat32.c:166-174 | no cluster of any chain looks free to the search for a free cluster |
| `FatTable.ExtendStep` | sageos_build/kernel/fs/fat32.c:746-755 | linking one more free cluster behind the last extends the chain by exactly that cluster and changes no other entry; top four bits are kept everywhere |
| `FatTable.ExtendedKeepsFiles` | sageos_build/kernel/fs/fat32.c:743-756 | extending one file leaves the files of the volume disjoint chains |
| `FatTable.ExtensionFits` | sageos_build/kernel/fs/fat32.c:166-174 | an extension takes different clusters that were free; if none is free afterwards it took them all |
| `FatDisk.PutRawFat` | sageos_build/kernel/fs/fat32.c:152-164 | storing one 32-bit word in the sector of a slot changes that slot of the FAT and no other |
| `FatDisk.ClusterPlace` | sageos_build/kernel/fs/fat32.c:112-118 | cluster 2 starts right behind the last FAT copy, and cluster c is c - 2 clusters further |
| `FatChain.ClusterClearOfFats` | sageos_build/kernel/fs/fat32.c:112-118 | no sector of any cluster lies in any of the FAT copies |
| `FatChain.FatInBytes` | sageos_build/kernel/fs/fat32.c:141-150 | the FAT is the little-endian 32-bit words, one after the other, of the sectors behind the reserved ones |
| `FatVolume.CapacityIsBytes` | sageos_build/kernel/fs/fat32.c:732-742 | the room of a chain is the bytes of its clusters, 512 in each sector |
| `FatChain.LbasValid` | sageos_build/kernel/fs/fat32.c:112-118 | the sectors of different clusters are different, on the disk and behind the FATs |
| `FatChain.GrownKeepsBytes` | sageos_build/kernel/fs/fat32.c:743-756 | extending a chain keeps the bytes of every chain that is still there |
| `FatChain.StoredKeepsBytes` | sageos_build/kernel/fs/fat32.c:758-790 | storing into one chain leaves the bytes of every disjoint chain alone |
| `FatVolume.Volume.ReadFatEntry` | sageos_build/kernel/fs/fat32.c:141-150 | the low 28 bits of the slot in the FAT that the disk stores |
| `FatVolume.Volume.WriteFatEntry` | sageos_build/kernel/fs/fat32.c:152-164 | the stored FAT becomes the old one with the low 28 bits of one slot replaced; no sector outside the first FAT changes |
| `FatVolume.Volume.FindFreeCluster` | sageos_build/kernel/fs/fat32.c:166-174 | the lowest free cluster, and 0 exactly when none is free |
| `FatVolume.Volume.StepOrLink` | sageos_build/kernel/fs/fat32.c:746-754 | one turn of the expansion loop: one step along the chain, with a free cluster linked behind its end, or 0 on a full FAT |
| `FatVolume.Volume.ExtendChain` | sageos_build/kernel/fs/fat32.c:743-756 | the chain grows until it holds the end of the write; it stops early exactly on a full FAT, keeping what it linked |
| `FatVolume.Volume.StoreSector` | sageos_build/kernel/fs/fat32.c:776-787 | one sector gets its slice of the data and keeps its other bytes; a sector that is wholly overwritten is not read first |
| `FatVolume.Volume.WriteSector` | sageos_build/kernel/fs/fat32.c:776-788 | one sector takes its slice and the stored bytes advance to its end, the skip spent |
| `FatVolume.Volume.WriteCluster` | sageos_build/kernel/fs/fat32.c:766-788 | within one cluster the stored bytes advance by what the sectors take; nothing outside the chain changes |
| `FatVolume.Volume.WriteTurn` | sageos_build/kernel/fs/fat32.c:765-789 | one turn of the data loop stores into one cluster and steps along the chain |
| `FatVolume.Volume.WriteData` | sageos_build/kernel/fs/fat32.c:758-790 | the byte view of the chain is the old one with [offset, offset + size) overwritten; the FAT and all other sectors are unchanged |
| `FatVolume.Volume.SkipClusters` | sageos_build/kernel/fs/fat32.c:689-694 | the cluster that holds the offset, or an end mark when the chain is shorter, and what is left of the offset there |
| `FatVolume.Volume.ReadSector` | sageos_build/kernel/fs/fat32.c:705-724 | one sector of the copy loop appends the next bytes of the view |
| `FatVolume.Volume.ReadCluster` | sageos_build/kernel/fs/fat32.c:701-725 | one cluster of the copy loop keeps the output a slice of the view |
| `FatVolume.Volume.ReadTurn` | sageos_build/kernel/fs/fat32.c:700-727 | one turn of the copy loop copies from one cluster and steps along the chain |
| `FatVolume.Volume.ReadChain` | sageos_build/kernel/fs/fat32.c:696-727 | the copied bytes are the slice of the chain from the offset on |
| `FatVolume.Volume.Read` | sageos_build/kernel/fs/fat32.c:669-730 | for every offset and size: the slice [offset, min(offset + size, file size)) of the chain |
| `FatVolume.Volume.Write` | sageos_build/kernel/fs/fat32.c:732-798 | out of space exactly when the chain and all free clusters together cannot hold the write; the disk is then only extended, and otherwise extended by no more clusters than needed and overwritten at the offset; the new file size |
| `FatVolume.WriteKeepsFiles` | sageos_build/kernel/fs/fat32.c:732-790 | every write, finished or stopped for lack of space, keeps the files disjoint chains and changes the bytes of no other file |
| `FatVolume.ReadAfterWrite` | sageos_build/kernel/fs/fat32.c:743-790 | after a finished write the clusters of the file hold the data at the offset; every other byte they had is kept |
| `FatRun.WriteKeepsVolume` | sageos_build/kernel/fs/fat32.c:732-798 | one write takes a consistent volume to a consistent volume |
| `FatRun.RunKeepsFiles` | sageos_build/kernel/fs/fat32.c:732-798 | after every run of writes the files are disjoint ending chains, each with its old chain in front, and a file nobody wrote has the clusters and bytes it had |
| `FatRun.WriteFile` | sageos_build/kernel/fs/fat32.c:732-798 | every call of fat32_write is a step of the runs: which file it extended and overwrote, and whether it finished |
| `FatRun.WriteByte` | sageos_build/kernel/fs/fat32.c:758-790 | one write puts its data at its positions of its own file if it finishes; every other byte of every file stands |
| `FatRun.RunWrites` | sageos_build/kernel/fs/fat32.c:732-798 | after every run each position of each file holds the byte of the last finished write that covered it, and what it held at first where none did |
| `FatRun.RunKeepsHigh` | sageos_build/kernel/fs/fat32.c:152-164 | over every run the top four bits of every FAT entry are those it had at first |
| `FatSize.ReadBackExactly` | sageos_build/kernel/fs/fat32.c:681-684 | reading the range of a finished write, cut at the new recorded size, gives the data exactly when there was none or the write ended below 2^32 |
| `FatSize.WriteThenRead` | sageos_build/kernel/fs/fat32.c:669-798 | the same of fat32_write and then fat32_read with the size it recorded |
| `FatSize.LostByte` | sageos_build/kernel/fs/fat32.c:792-795 | a volume and a file of 2^32 - 1 bytes: the byte appended is written and cannot be read, and the recorded size is 0 |
| `FatSize.SizeCoversExactly` | sageos_build/kernel/fs/fat32.c:792-795 | over every run of writes the recorded size covers everything written exactly when every finished write ended below 2^32 |
| `FatSize.ReadAfterRunExactly` | sageos_build/kernel/fs/fat32.c:669-798 | after every run of writes a position that was written reads as the byte written there last exactly when the recorded size reaches past it |
| `LongNames.StoredHolds` | sageos_build/kernel/fs/fat32.c:251-260 | storing a part in its place keeps the parts already stored and closes the name behind the last |
| `LongNames.NameAssembled` | sageos_build/kernel/fs/fat32.c:268-271 | a buffer that holds all parts of a padded name spells exactly the name |
| `LongNames.PartsRead` | sageos_build/kernel/fs/fat32.c:247-264 | scanning the parts of a name from last to first leaves all of them in the buffer, whatever it held |
| `LongNames.NamesReassembled` | sageos_build/kernel/fs/fat32.c:225-293 | over every well-formed directory, with any initial buffer, the scan shows exactly the encoded names in order |
| `LongNames.ShortNameExact` | sageos_build/kernel/fs/fat32.c:273-281 | an 8.3 entry gives exactly the name it spells: base, and a dot and the extension if there is one, each up to its padding |
| `LongNames.DeletedForgets` | sageos_build/kernel/fs/fat32.c:242-245 | a deleted entry makes the scan forget the parts of a long name in front of it |
| `LongNames.SameLetter` | sageos_build/kernel/fs/fat32.c:124-139 | two bytes match exactly when they are equal or the two cases of one letter |
| `DirFormat.ShortEntrySpells` | sageos_build/kernel/fs/fat32.c:67-81 | the fields of an 8.3 entry, filled with blanks, spell base and extension |
| `DirFormat.LongEntryChars` | sageos_build/kernel/fs/fat32.c:207-223 | the reader takes from the three fields of a long-name entry the thirteen characters stored in them |
| `DirFormat.WrittenEncodes` | sageos_build/kernel/fs/fat32.c:67-81 | a directory written field by field, with or without an end mark, is well formed |
| `DirFormat.WrittenListed` | sageos_build/kernel/fs/fat32.c:594-667 | listing a written directory shows its files in order, each with its name, kind and size |
| `DirFormat.WrittenFound` | sageos_build/kernel/fs/fat32.c:225-293 | looking a name up in a written directory gives the entry of the first file with that name, letter case aside, and nothing exactly when there is none |
| `LongNames.FirstMatchIsFirst` | sageos_build/kernel/fs/fat32.c:284-287 | the lookup returns the first entry whose name matches up to letter case |
| `LongNames.NoMatch` | sageos_build/kernel/fs/fat32.c:284-292 | the lookup fails exactly when no entry matches |
| `LongNames.ListedNameFound` | sageos_build/kernel/fs/fat32.c:646-654 | a listed name that was not cut leads back to its entry or to an earlier one that differs only in letter case |
| `LongNames.CutNameFound` | sageos_build/kernel/fs/fat32.c:650-651 | a name cut to the listing buffer can be looked up exactly when the cut form is itself an entry name |
| `LongNames.ListedNameLeadsBackExactly` | sageos_build/kernel/fs/fat32.c:646-654 | looking up a listed name gives an entry of the name it was listed for, letter case aside, exactly when the name is a short one or fits the listing |
| `LongNames.CutNameLost` | sageos_build/kernel/fs/fat32.c:650-651 | in a directory with one long-named entry of 64 characters or more, the listed name is not found |
| `LongNames.EncodedPartsFit` | sageos_build/kernel/fs/fat32.c:249-260 | well-formed directories never store past the name buffer |
| `FatDir.ChainEntriesAreBytes` | sageos_build/kernel/fs/fat32.c:230-236 | reading cluster by cluster and sector by sector meets exactly the 32-byte pieces of the chain's bytes |
| `FatDir.StorePart` | sageos_build/kernel/fs/fat32.c:249-260 | the three copy loops and the closing mark are one store of thirteen characters |
| `FatDir.ScanEntry` | sageos_build/kernel/fs/fat32.c:238-282 | one entry moves the buffer and the flag as the scan specification says and yields its name |
| `FatDir.Streq` | sageos_build/kernel/fs/fat32.c:124-139 | true exactly when the two names are equal with all letters in upper case |
| `FatDir.FindInSector` | sageos_build/kernel/fs/fat32.c:235-289 | the entry loop of one sector carries the lookup on or ends it with its result |
| `FatDir.FindInChain` | sageos_build/kernel/fs/fat32.c:230-292 | the cluster loop ends with the result of the whole lookup |
| `FatDir.FindEntry` | sageos_build/kernel/fs/fat32.c:225-293 | the first entry of the directory whose scanned name matches, or nothing, for any directory and any initial buffer |
| `FatDir.FindEncoded` | sageos_build/kernel/fs/fat32.c:225-293 | over a well-formed directory, the first entry whose encoded name matches up to letter case, or nothing |
| `FatDir.ListInSector` | sageos_build/kernel/fs/fat32.c:623-660 | the entry loop of one sector carries the listing on, stops at the limit or ends it |
| `FatDir.ListDirectory` | sageos_build/kernel/fs/fat32.c:594-667 | name, kind and size of the first max_entries scanned entries, for any directory and any initial buffer |
| `FatDir.ListEncoded` | sageos_build/kernel/fs/fat32.c:594-667 | over a well-formed directory, name, kind and size of the first max_entries encoded entries |
| `FatDir.ListedEntryFound` | sageos_build/kernel/fs/fat32.c:594-667 | listing and lookup agree: looking up a listed name that was not cut gives its entry, or the first one before it that differs only in letter case |
| `LinkCode.RebaseFirstDecodes` | scripts/compile_to_sgvm.py:220-270 | relocating an instruction keeps opcode, length and other operands and raises each constant index, the optional class parent included |
| `LinkCode.ShiftDecodes` | scripts/compile_to_sgvm.py:220-270 | relocated code decodes to the same instructions with every index raised, none wrapped |
| `LinkCode.DecodeConcat` | scripts/compile_to_sgvm.py:271-273 | code laid end to end decodes to the instructions laid end to end |
| `Compiled.EmittedFirst` | sageos_build/sage_lang/core/src/vm/bytecode.c:102-402 | the linker sees every instruction that the compiler emits, and a CLASS with or without a parent, whole and with the pool entries that it names |
| `Compiled.EmittedDecodes` | sageos_build/sage_lang/core/src/vm/bytecode.c:102-402 | and reads emitted code as the instructions it was emitted from |
| `Compiled.EmittedTarget` | sageos_build/sage_lang/core/src/vm/bytecode.c:204-216 | for the linker and for the virtual machine an emitted jump goes where it was emitted to go |
| `Compiled.ShiftEmits` | scripts/compile_to_sgvm.py:220-270 | relocating emitted code is, byte for byte, emitting the instructions with every pool entry moved |
| `Compiled.LinkedEmits` | scripts/compile_to_sgvm.py:213-273 | linking emitted chunks is, byte for byte, emitting the instructions of all chunks in order, those of each moved behind the pools before it |
| `Compiled.EmittedLinkable` | scripts/compile_to_sgvm.py:213-218 | an emitted chunk that names only entries of its pool is one that links |
| `Linker.RelocateStep` | scripts/compile_to_sgvm.py:220-270 | one turn of the loop leaves the same code still to be relocated |
| `Linker.RelocateOne` | scripts/compile_to_sgvm.py:222-270 | the turn rewrites exactly the instruction at pc and finds the next one |
| `Linker.Relocate` | scripts/compile_to_sgvm.py:220-270 | the in-place loop computes the relocated code |
| `Linker.Link` | scripts/compile_to_sgvm.py:213-273 | merged pool, and the relocated bodies one after the other with one final RETURN |
| `Linker.LinkPreservesMeaning` | scripts/compile_to_sgvm.py:213-273 | with every constant looked up, the linked code is the code of the chunks one after the other; no index wraps when the pool fits its count |
| `Linker.LinkedInstr` | scripts/compile_to_sgvm.py:213-273 | instruction i of chunk k stands at its place in the linked code with its indices raised |
| `Linker.JumpsLandExactly` | scripts/compile_to_sgvm.py:262-265 | jump operands are not moved, so all jumps of the linker's format land where their targets went if and only if no chunk with a jump comes after a chunk with code |
| `Linker.JumpsCanGoAstray` | sageos_build/kernel/core/sagelang/metal_vm.c:935-939 | two chunks whose linked jump goes to the wrong instruction |
| `Linker.CutIsClean` | scripts/compile_to_sgvm.py:216-218 | taking a last byte 43 away leaves whole instructions exactly when the last instruction is a RETURN |
| `Linker.ChunkOkExactly` | scripts/compile_to_sgvm.py:213-218 | a chunk of whole instructions can be linked exactly when a last byte 43 belongs to a RETURN and its constants are in its pool; it then keeps all its instructions but a final RETURN |
| `Linker.OperandTakenForReturn` | scripts/compile_to_sgvm.py:216-218 | a jump to offset 43 at the end of a chunk loses its last operand byte |
| `Machine.ReadAlikeExactly` | sageos_build/kernel/core/sagelang/metal_vm.c:722-1187 | the virtual machine reads an instruction as the linker does, whatever its operands, exactly for the opcodes other than CALL_METHOD, DUP, BREAK, CONTINUE, LOOP_BACK, IMPORT, CLASS and SETUP_TRY |
| `Machine.ReadingsPart` | sageos_build/kernel/core/sagelang/metal_vm.c:722-1187 | for each of those opcodes, by how many bytes the machine's next instruction misses the linker's |
| `Machine.MachineReadsLinked` | sageos_build/kernel/core/sagelang/metal_vm.c:722-1187 | for chunks of such opcodes the virtual machine reads the linked code as the chunks one after the other, every constant operand naming the constant it named |
| `Machine.MachineJumpsLandExactly` | sageos_build/kernel/core/sagelang/metal_vm.c:935-939 | for such chunks the virtual machine's jumps all land where their targets went if and only if no chunk with a jump comes after a chunk with code |
| `Machine.ImportIsMangled` | sageos_build/kernel/core/sagelang/metal_vm.c:943-950 | a linked IMPORT names a constant of another chunk, and the instruction behind it has become another one |
| `PropertyKeys.GetAfterSet` | sageos_build/kernel/core/sagelang/metal_vm.c:562-589 | every dictionary gives what was set last under a key exactly if it had the key or room for it, and nothing else changes |
| `PropertyKeys.TakesExactly` | sageos_build/kernel/core/sagelang/metal_vm.c:562-577 | a dictionary takes a key exactly when it has it or has fewer than 64 entries |
| `PropertyKeys.Dict.DictSet` | sageos_build/kernel/core/sagelang/metal_vm.c:562-577 | the in-place update or append, and a full dictionary left alone |
| `PropertyKeys.Dict.DictGet` | sageos_build/kernel/core/sagelang/metal_vm.c:579-589 | the value under the key, or nil |
| `PropertyKeys.SameKeyExactly` | sageos_build/kernel/core/sagelang/metal_vm.c:997-1018 | in linked code two property instructions use one key exactly when they stand in one chunk and name one constant of its pool |
| `PropertyKeys.PropertiesByNameExactly` | sageos_build/kernel/core/sagelang/metal_vm.c:997-1018 | among the chunks properties go by their names exactly when no property name is used from two chunks or from two places of one pool |
| `PropertyKeys.FilePropertiesByNameExactly` | scripts/compile_to_sgvm.py:213-285 | in a whole file, where functions keep their own indices, properties go by their names exactly when no name is used from two places and no place of a function's pool names one property there and another elsewhere |
| `PropertyKeys.ReadAfterSet` | sageos_build/kernel/core/sagelang/metal_vm.c:997-1018 | what one property instruction reads after another has set the property of an object, full or not |
| `PropertyKeys.PropertyLost` | sageos_build/kernel/core/sagelang/metal_vm.c:997-1018 | one chunk sets a property and the next one, reading it by the same name, gets nil |
| `PropertyKeys.PropertiesClash` | sageos_build/kernel/core/sagelang/metal_vm.c:1090-1099 | a function sets x, and a chunk that reads y gets it, though each name has one place |
| `Sgvm.HashName` | scripts/compile_to_sgvm.py:95-100 | the loop computes the 32-bit FNV-1a fold of the name |
| `Sgvm.MachineHash` | sageos_build/kernel/core/sagelang/metal_vm.c:34-38 | the hash by which the virtual machine looks names up is that of the linker, for names without a NUL |
| `Sgvm.KnownHashes` | scripts/compile_to_sgvm.py:95-100 | the published FNV-1a values of the empty string and of "a" |
| `Sgvm.SampleFile` | scripts/compile_to_sgvm.py:275-285 | the bytes of a small SGVM file |
| `Sgvm.PackConsts` | scripts/compile_to_sgvm.py:102-112 | the bytes of the pool, or the error exactly when a length does not fit its field |
| `Sgvm.PackFunctions` | scripts/compile_to_sgvm.py:279-285 | the bytes of all functions with hashed parameters, or the error exactly when one does not fit |
| `Sgvm.Compile` | scripts/compile_to_sgvm.py:213-285 | the file of the linked program, or the error exactly when some length does not fit |
| `Sgvm.BlobRoundTrip` | scripts/compile_to_sgvm.py:275-285 | an SGVM file determines pool, code and functions |
| `Sgvm.FileKeepsMeaning` | scripts/compile_to_sgvm.py:213-285 | reading the compiled file back gives code with the meaning of the chunks one after the other |
| `Text.IntOfDec` | scripts/compile_to_sgvm.py:18-29 | a printed count reads back |
| `Text.HexRoundTrip` | scripts/compile_to_sgvm.py:31-57 | printed hexadecimal bytes read back, the empty string included |
| `SageBc.ReadFunctions` | scripts/compile_to_sgvm.py:20-61 | the function loop parses what the grammar says, errors included |
| `SageBc.ReadChunks` | scripts/compile_to_sgvm.py:66-90 | the chunk loop parses what the grammar says, errors included |
| `SageBc.ParseFile` | scripts/compile_to_sgvm.py:4-93 | the parser computes the grammar's reading of the lines, or the exception |
| `SageBc.SampleText` | sageos_build/sage_lang/core/src/vm/program.c:463-504 | the lines of a small SAGEBC1 file |
| `SageBc.TextRoundTrip` | sageos_build/sage_lang/core/src/vm/program.c:463-504 | parse_sagebc recovers every program from its printed SAGEBC1 text |
| `Btrfs.CompareIsOrder` | sageos_build/kernel/fs/btrfs.c:62-70 | the key comparison is a total order |
| `Btrfs.CompareIsNumeric` | sageos_build/kernel/fs/btrfs.c:62-70 | it is the order of the numbers that have the object identifier before the 8 bits of the type before the 64 of the offset |
| `Btrfs.DescendFinds` | sageos_build/kernel/fs/btrfs.c:84-91 | the child picked by the slot loop holds the key exactly when the node's subtree does |
| `Btrfs.PickSlot` | sageos_build/kernel/fs/btrfs.c:86-91 | the slot whose separator is not above the key while the next one is |
| `Btrfs.ReachesChild` | sageos_build/kernel/fs/btrfs.c:84-91 | the child of a reached node is reached |
| `Btrfs.ScanLeaf` | sageos_build/kernel/fs/btrfs.c:93-102 | found exactly when the leaf has the key, with its first index |
| `Btrfs.TreeSearch` | sageos_build/kernel/fs/btrfs.c:72-105 | found exactly when the key is in the flattened tree, with a leaf that the root reaches, its place in the flattened tree and the first index of the key in it |
| `Process.StepInv` | sageos_build/kernel/core/scheduler.c:122-299 | every operation keeps: only the current task is running, live tasks have different identifiers |
| `Process.RunInv` | sageos_build/kernel/core/scheduler.c:122-299 | the same over every run with fewer than 2^32 - 1 creations |
| `Process.RunFromBoot` | sageos_build/kernel/core/scheduler.c:96-299 | so it holds over every such run from boot |
| `Effects.BootEffect` | sageos_build/kernel/core/scheduler.c:96-113 | the idle task runs in slot 0 and no other slot is in use |
| `Effects.CreateEffect` | sageos_build/kernel/core/scheduler.c:122-134 | a ready task without a parent in the first unused slot under the next identifier, and a full table left alone |
| `Effects.ScheduleEffect` | sageos_build/kernel/core/scheduler.c:168-216 | the first runnable slot behind the current one runs, the one that gives way becomes ready, and every other slot stays as it is |
| `Effects.BlockEffect` | sageos_build/kernel/core/scheduler.c:288-293 | the caller is blocked, the first runnable slot behind it runs, or none if there is none, and every other slot stays as it is |
| `Effects.UnblockEffect` | sageos_build/kernel/core/scheduler.c:295-299 | exactly a blocked task in that slot becomes ready |
| `Effects.ExitEffect` | sageos_build/kernel/core/scheduler.c:218-230 | the caller is terminated with its code, every blocked task becomes ready, and the first runnable slot behind it runs |
| `Effects.VforkEffect` | sageos_build/kernel/core/syscall.c:545-585 | a child of the caller runs in the first unused slot, and the caller is blocked |
| `Effects.WaitEffect` | sageos_build/kernel/core/syscall.c:590-608 | refused exactly when no task in use has the identifier; the first that has is reaped if it ended, and otherwise the caller gives way as in a block |
| `PidWrap.StepSoundExactly` | sageos_build/kernel/core/scheduler.c:122-299 | past the wrap of the identifier counter: an operation keeps live identifiers different exactly when it does not create a task while a live one has the next identifier |
| `PidWrap.RunSoundExactly` | sageos_build/kernel/core/scheduler.c:122-299 | over runs of any length, live identifiers are different throughout exactly when no creation meets its identifier in use |
| `PidWrap.IdentifiersRunOut` | sageos_build/kernel/core/scheduler.c:133-133 | a run from boot after which the next task gets the identifier of task 0, still running |
| `Process.SwitchCloser` | sageos_build/kernel/core/scheduler.c:178-210 | a switch runs the ready task or comes strictly closer to it |
| `Process.BoundedWaiting` | sageos_build/kernel/core/scheduler.c:168-216 | while a ready task has not run, calls of sched_schedule are fewer than its distance plus the places that vforks took from it; without a vfork to a slot further away, fewer than the distance |
| `Process.LostIsBounded` | sageos_build/kernel/core/syscall.c:545-585 | vforks take less than a full round each, and only those whose child is further away than the caller |
| `Process.VforkDelays` | sageos_build/kernel/core/syscall.c:545-585 | a run from boot in which the distance alone is no bound, because of a vfork, and the places it took |
| `Blocking.BlockedExactly` | sageos_build/kernel/core/scheduler.c:218-230 | over runs of any length a blocked task stays blocked throughout exactly when no task at all exits and nobody unblocks its slot |
| `Blocking.ParentHeldExactly` | sageos_build/kernel/core/syscall.c:545-585 | so the parent of a vfork is held exactly until the first exit of any task or an unblock of its slot |
| `Blocking.BlockerHeldExactly` | sageos_build/kernel/core/scheduler.c:288-293 | a task that blocks stays blocked exactly until some task exits or its slot is unblocked |
| `Blocking.WaiterHeldExactly` | sageos_build/kernel/core/syscall.c:590-608 | and so does one that waits for a task that has not ended |
| `Blocking.ReleasedByAnother` | sageos_build/kernel/core/scheduler.c:218-230 | a run from boot in which the exit of a third task lets the parent of a vfork run beside its child |
| `Process.ExitLetsParentReap` | sageos_build/kernel/core/syscall.c:590-626 | a task's exit makes a blocked task ready, and the next waitpid for the ended one, whenever it comes, reaps it with its exit code |
| `Process.WaitingParentReapsOnce` | sageos_build/kernel/core/syscall.c:590-626 | a parent that blocked in waitpid is made ready by the exit of that child and runs within the bound; when it does, its waitpid reaps the child with its exit code, and no later one does |
| `Process.ZombieKept` | sageos_build/kernel/core/syscall.c:590-608 | an exited task stays as it is until a waitpid for it |
| `Process.ReapedOnce` | sageos_build/kernel/core/syscall.c:590-608 | a reaped identifier never comes back; every later waitpid for it is refused |
| `Scheduler.Scheduler.constructor` | sageos_build/kernel/core/scheduler.c:96-113 | the boot table |
| `Scheduler.Scheduler.CreateThread` | sageos_build/kernel/core/scheduler.c:122-164 | the first unused slot gets a ready task with the next identifier, or none is left |
| `Scheduler.Scheduler.PickNext` | sageos_build/kernel/core/scheduler.c:178-190 | the first runnable slot after the current one, going round |
| `Scheduler.Scheduler.Schedule` | sageos_build/kernel/core/scheduler.c:168-216 | the table after one round-robin switch |
| `Scheduler.Scheduler.BlockCurrent` | sageos_build/kernel/core/scheduler.c:288-293 | the table after sched_block |
| `Scheduler.Scheduler.Unblock` | sageos_build/kernel/core/scheduler.c:295-299 | the table after sched_unblock |
| `Scheduler.Scheduler.ExitCurrent` | sageos_build/kernel/core/scheduler.c:218-230 | the table after sys_exit and sched_exit |
| `Scheduler.Scheduler.ThreadById` | sageos_build/kernel/core/scheduler.c:242-249 | the first slot in use with that identifier |
| `Scheduler.Scheduler.VforkCurrent` | sageos_build/kernel/core/syscall.c:545-585 | the table after sys_vfork |
| `Scheduler.Scheduler.WaitOnce` | sageos_build/kernel/core/syscall.c:590-608 | one turn of the loop of sys_waitpid: refuse, reap or block |
| `Ring.StepLedger` | sageos_build/kernel/core/ipc.c:203-256 | one operation keeps the books: accepted messages are the delivered ones followed by the queued ones |
| `Ring.FirstInFirstOut` | sageos_build/kernel/core/ipc.c:203-256 | over every run messages come out in the order accepted, none lost or doubled; sent, received and drops count exactly |
| `Ring.Balance` | sageos_build/kernel/core/ipc.c:203-256 | sent minus received is the number queued, in 64 bits |
| `Ring.EnqueueEffect` | sageos_build/kernel/core/ipc.c:203-234 | a message is taken exactly by an active or draining endpoint with room |
| `Ring.DequeueEffect` | sageos_build/kernel/core/ipc.c:236-256 | the oldest message in any state; without one, refused exactly when draining or dead |
| `Ring.LifecycleExactly` | sageos_build/kernel/core/ipc.c:171-197 | an operation takes an endpoint to another state exactly along the lifecycle |
| `Ring.MovedBytes` | sageos_build/kernel/core/ipc.c:203-234 | over every run the byte counter is the sum of the accepted payload lengths, in 64 bits |
| `Ring.ItemsPut` | sageos_build/kernel/core/ipc.c:217-230 | storing at head appends to the queue that the ring stands for |
| `Ring.Endpoint.Put` | sageos_build/kernel/core/ipc.c:203-234 | enqueue on the ring is enqueue on the queue, with head kept at (tail + count) mod size |
| `Ring.Endpoint.Take` | sageos_build/kernel/core/ipc.c:236-256 | dequeue on the ring is dequeue on the queue |
| `Ring.Endpoint.Transition` | sageos_build/kernel/core/ipc.c:171-197 | only the listed state changes happen |
| `Ring.Endpoint.Unpause` | sageos_build/kernel/core/ipc.c:697-714 | resume works exactly from PAUSED |
| `Ring.Endpoint.Close` | sageos_build/kernel/core/ipc.c:739-741 | the end of a drain takes DRAINING to DEAD and no other state |
| `Endpoints.AllocatesTwice` | sageos_build/kernel/core/ipc.c:102-118 | the two endpoints that endpoint_create allocates are one and the same |
| `Endpoints.AllocEndpoint` | sageos_build/kernel/core/ipc.c:102-118 | the first dead or constructed endpoint, cleared and left constructed, or none |
| `Endpoints.StepInv` | sageos_build/kernel/core/ipc.c:358-745 | no IPC call of any task takes an endpoint out of ACTIVE or DEAD, puts a message in its queue or gives out a capability for an endpoint outside the pool |
| `Endpoints.EndpointsStayIdle` | sageos_build/kernel/core/scheduler_ipc_ext.c:104-136 | so over every run from boot no endpoint is ever paused or draining, and none ever holds a message |
| `Endpoints.NamesInPool` | sageos_build/kernel/core/ipc.c:358-420 | over every run a capability for an endpoint names one of the pool, so no call reaches past it |
| `Endpoints.CreateEffect` | sageos_build/kernel/core/ipc.c:358-420 | the first vacant endpoint becomes active with 16 places, and the first empty slot gets the right to receive from it |
| `Endpoints.FailedCreateEffect` | sageos_build/kernel/core/ipc.c:358-420 | without memory or a slot the endpoint is dead and no table changes |
| `Endpoints.MessageDelivered` | sageos_build/kernel/core/ipc.c:424-507 | in any state, a message sent with the right to send comes behind those waiting and is received in that order |
| `Caps.HandlesCoincide` | sageos_build/kernel/core/ipc.c:358-420 | the two handles of endpoint_create are one slot, left with the receiving half |
| `Caps.StepInv` | sageos_build/kernel/core/ipc.c:358-796 | no call gives a slot a right that its kind of object is not minted with |
| `Caps.NoAmplification` | sageos_build/kernel/core/scheduler_ipc_ext.c:22-67 | the same over every run from the initial tables, thread start, spawn and cleanup included |
| `Caps.AlwaysRefused` | sageos_build/kernel/core/ipc.c:645-745 | in every reachable state destroy, pause, drain and send on an endpoint are refused and change nothing |
| `CapEffects.EndpointEffect` | sageos_build/kernel/core/ipc.c:358-420 | the first empty slot gets the receiving half, and nothing else changes |
| `CapEffects.PortEffect` | sageos_build/kernel/core/ipc.c:548-576 | the first empty slot gets the port, and nothing else changes |
| `CapEffects.FullEffect` | sageos_build/kernel/core/ipc.c:70-81 | a full table refuses every call that needs a slot and changes nothing |
| `CapEffects.CopyEffect` | sageos_build/kernel/core/ipc.c:778-796 | a copy has the rights and the object of its source; it is made exactly with the right to duplicate |
| `CapEffects.LookupEffect` | sageos_build/kernel/core/ipc.c:620-643 | the copy has all rights of the registered capability but those to revoke and duplicate |
| `CapEffects.RestrictEffect` | sageos_build/kernel/core/ipc.c:747-771 | exactly the rights that were there and are asked for are kept; refused exactly on what is unusable or immutable |
| `CapEffects.RevokeEffect` | sageos_build/kernel/core/ipc.c:645-745 | destroy, pause and drain work exactly with the right to revoke |
| `CapEffects.TransferEffect` | sageos_build/kernel/core/ipc.c:454-464 | a transfer empties exactly the slots of the handles up to the first that is unusable or came before |
| `CapEffects.CheckEffect` | sageos_build/kernel/core/ipc.c:454-464 | without transfer no slot changes, and every handle has to be usable |
| `CapEffects.SendEffect` | sageos_build/kernel/core/ipc.c:424-464 | the capability loop runs exactly with the right to send on an endpoint |
| `CapEffects.MintsExactly` | sageos_build/kernel/core/ipc.c:358-643 | an object comes into the tables exactly by its creation, and the root directory exactly with a thread |
| `CapEffects.StartEffect` | sageos_build/kernel/core/scheduler_ipc_ext.c:22-45 | a thread starts with the root directory, to read and to write, and nothing else |
| `CapEffects.EndEffect` | sageos_build/kernel/core/scheduler_ipc_ext.c:47-67 | a thread that ends leaves an empty table |
| `CapEffects.SpawnEffect` | sageos_build/kernel/core/sagelang/sageos_bridge.c:636-646 | a spawned task has the table of its parent, or a fresh one when the two share a table |
| `Caps.AuthorityShrinks` | sageos_build/kernel/core/ipc.c:620-796 | until an object is minted again, any bound on the rights that all slots hold over it holds over every run of create, dup, narrow, send, lookup, spawn, thread start and end |
| `Caps.NarrowedForGood` | sageos_build/kernel/core/ipc.c:747-771 | narrowing the only capability for an object takes the dropped rights from everyone, over every later run |
| `Caps.RunEvery` | sageos_build/kernel/core/ipc.c:358-796 | a property that copying and narrowing keep and that all minted capabilities have holds of every slot over every run |
| `Caps.TableKeptExactly` | sageos_build/kernel/include/scheduler_ipc_ext.h:50-52 | the start or end of a thread leaves the capability table of another alone exactly when their identifiers differ modulo 64 |
| `Sharing.LiveTasksShareTable` | sageos_build/kernel/include/scheduler_ipc_ext.h:47-52 | from boot, the start of task n, 64 <= n < 128, clears the table of task n - 64, which is live |
| `Caps.CapTable.constructor` | sageos_build/kernel/core/scheduler_ipc_ext.c:22-45 | a new thread holds the root directory and nothing else |
| `Caps.CapTable.AllocSlot` | sageos_build/kernel/core/ipc.c:70-81 | the first free slot, not reserved |
| `Caps.CapTable.EndpointCreate` | sageos_build/kernel/core/ipc.c:394-419 | the table and the handles after endpoint_create |
| `Caps.CapTable.PortCreate` | sageos_build/kernel/core/ipc.c:548-576 | the table and the handle after port_create |
| `Caps.CapTable.CapDup` | sageos_build/kernel/core/ipc.c:778-796 | the table and the handle after dup |
| `Caps.CapTable.CapNarrow` | sageos_build/kernel/core/ipc.c:747-771 | the table after narrow |
| `Caps.CapTable.SendCaps` | sageos_build/kernel/core/ipc.c:454-464 | the capability loop of send, with what it moved out before it failed |
| `Caps.CapTable.CopyFrom` | sageos_build/kernel/core/ipc.c:620-643 | the copy of ns_lookup, source and target possibly the same table |
| `Caps.CapTable.Inherit` | sageos_build/kernel/core/sagelang/sageos_bridge.c:636-646 | the copy loop of os_spawn_task leaves the parent's table, parent and child possibly on one table |
| `Namespace.AddChildLook` | sageos_build/kernel/core/ipc.c:330-343 | a new child is found and changes no search that succeeded before, even when it takes the root's own entry |
| `Namespace.WalkIsFound` | sageos_build/kernel/core/ipc.c:298-352 | the path of an insertion leads to the node it reached |
| `Namespace.InsertThenFind` | sageos_build/kernel/core/ipc.c:298-352 | inserting keeps the tree sound, and an inserted name is found holding what was registered |
| `Namespace.InsertKeepsPlaces` | sageos_build/kernel/core/ipc.c:298-352 | inserting leaves every other name leading where it led |
| `Namespace.InsertHolds` | sageos_build/kernel/core/ipc.c:298-352 | what every entry of the tree holds after an insertion: the registration if the name leads to it, nothing if it is the root's and was taken, and otherwise what it held |
| `Namespace.OthersKeepTheirs` | sageos_build/kernel/core/ipc.c:302-342 | another name keeps what is registered under it exactly when it does not lead to the root's entry, or the entry is not taken, or nothing was there |
| `Namespace.RootRegistrationLost` | sageos_build/kernel/core/ipc.c:302-342 | what was registered under the empty name is lost when the first token is registered: both names then hold the new registration |
| `Namespace.EveryRunIsSound` | sageos_build/kernel/core/ipc.c:274-352 | over every run of registrations, failed ones included: sibling links go down, sibling names differ, the next name registered is found |
| `Namespace.PathSpelt` | sageos_build/kernel/core/ipc.c:298-316 | a dotted name leads along its tokens, and one of 64 characters or more along those of its first 63 |
| `Namespace.InsertSucceedsExactly` | sageos_build/kernel/core/ipc.c:298-352 | a registration succeeds exactly when the tokens that are missing in the tree still fit in its 256 entries |
| `Namespace.FirstInsertSucceeds` | sageos_build/kernel/core/ipc.c:298-352 | the first registration always succeeds |
| `Aliases.AddChildOneParent` | sageos_build/kernel/core/ipc.c:336-342 | a new child keeps every entry in the children of one entry only |
| `Aliases.SameEntryExactly` | sageos_build/kernel/core/ipc.c:274-352 | after every run of registrations two names that are found lead to one entry exactly when they differ only by tokens at their front that are the first token ever registered |
| `Directory.FoundHolds` | sageos_build/kernel/core/ipc.c:298-352 | after every run of registrations a name that is found holds the last registration for its entry, and handle 0 of task 0 when there is none |
| `Directory.RunSplits` | sageos_build/kernel/core/ipc.c:610-643 | a run of registrations, lookups by name and other calls is a run of registrations beside a run of capability calls |
| `Directory.LookupGives` | sageos_build/kernel/core/ipc.c:620-643 | after every such run a lookup copies the slot of the last registration for the entry, and slot 0 of task 0 when there is none |
| `Directory.RefusedCalls` | sageos_build/kernel/core/ipc.c:610-643 | a handle that does not resolve is not registered, and a name that leads nowhere gives nothing |
| `Directory.UnregisteredNameGivesRoot` | sageos_build/kernel/core/ipc.c:620-643 | a run from boot in which a task that may use no path looks up a name that nobody registered and may then use every path with a leading slash |
| `Registry.NextToken` | sageos_build/kernel/core/ipc.c:17-28 | strtok yields the tokens of the name one after the other |
| `Registry.Registry.FindChild` | sageos_build/kernel/core/ipc.c:283-291 | the first sibling with that name |
| `Registry.Registry.FindName` | sageos_build/kernel/core/ipc.c:274-296 | the entry a dotted name leads to |
| `Registry.Registry.NewChild` | sageos_build/kernel/core/ipc.c:336-342 | the next pool entry becomes the first child |
| `Registry.Registry.WalkTokens` | sageos_build/kernel/core/ipc.c:309-346 | the token loop of insert, or none when the pool runs out |
| `Registry.Registry.InsertName` | sageos_build/kernel/core/ipc.c:298-352 | the tree after ipc_ns_insert, and whether it succeeded |
| `Paths.ComponentsOfJoin` | sageos_build/kernel/fs/vfs.c:366-404 | joined proper components come apart again |
| `Paths.PlaceProper` | sageos_build/kernel/fs/vfs.c:359-407 | every path names a list of at most 32 proper components |
| `Paths.PlaceLaws` | sageos_build/kernel/fs/vfs.c:366-390 | a name goes down while there is room, "." stays, ".." goes up, and the root is above itself |
| `Paths.NormalIdempotent` | sageos_build/kernel/fs/vfs.c:359-407 | normalising twice is normalising once |
| `Paths.NormalCompositional` | sageos_build/kernel/fs/vfs.c:359-407 | normalising p/q is normalising (normalised p)/q |
| `Paths.ShallowIsFree` | sageos_build/kernel/fs/vfs.c:366-390 | a path whose live depth stays within 32 means what it would mean without the limit |
| `Paths.ShallowExactly` | sageos_build/kernel/fs/vfs.c:366-390 | the live depth stays within 32 exactly when it does so without the limit |
| `Paths.CollectOne` | sageos_build/kernel/fs/vfs.c:371-390 | one component moves the stack as the meaning says |
| `Paths.Collect` | sageos_build/kernel/fs/vfs.c:361-390 | the component loop leaves the stack meaning of the path |
| `Paths.Rebuild` | sageos_build/kernel/fs/vfs.c:398-405 | the rebuild loop leaves the joined components, cut to the buffer |
| `Paths.Normalize` | sageos_build/kernel/fs/vfs.c:359-407 | the normal form, cut to what the buffer holds; the buffer is left alone exactly for the root directory without room for it |
| `Mounts.UnderMeansPrefix` | sageos_build/kernel/fs/vfs.c:485-536 | on normal paths the string test means that the components of one start those of the other |
| `Mounts.BestIsLongestPrefix` | sageos_build/kernel/fs/vfs.c:485-536 | the best mount has the longest component-wise prefix, lowest slot on ties, and mount and relative components make up the path |
| `Mounts.ResolveAfterRun` | sageos_build/kernel/fs/vfs.c:413-536 | the same after every run of mounts at normal paths and unmounts, for every path |
| `Mounts.ResolveNothing` | sageos_build/kernel/fs/vfs.c:485-536 | no mount matches exactly when no active mount has a component-wise prefix |
| `Mounts.MountEffect` | sageos_build/kernel/fs/vfs.c:413-435 | a mount takes the next of eight slots and resolves what lies under its path |
| `Mounts.UnmountEffect` | sageos_build/kernel/fs/vfs.c:467-477 | the first active mount of the path matches nothing any more, and every other slot is as it was |
| `Mounts.UnmountResolves` | sageos_build/kernel/fs/vfs.c:467-536 | after an unmount a path resolves as before exactly when that mount was not the one it resolved to |
| `Mounts.MountTable.AddMount` | sageos_build/kernel/fs/vfs.c:413-435 | the table after vfs_mount; refused exactly when it is full |
| `Mounts.MountTable.Unmount` | sageos_build/kernel/fs/vfs.c:467-477 | the first active mount at the path becomes inactive; refused exactly when there is none |
| `Mounts.MountTable.ResolveMount` | sageos_build/kernel/fs/vfs.c:485-536 | the best mount and the path below it, or none exactly when nothing matches |
| `Mounts.SameStart` | sageos_build/kernel/fs/vfs.c:338-344 | equal over the first n characters |
| `VfsCaps.HasVfsCap` | sageos_build/kernel/core/syscall.c:199-223 | granted exactly to unconfined tasks and by some granting slot, for any mask of rights |
| `VfsCaps.UnderMeansLead` | sageos_build/kernel/core/syscall.c:207-218 | the string test on a raw path means that the capability's components start the leading normal stretch of the path |
| `VfsCaps.GrantedIsCoveredExactly` | sageos_build/kernel/core/syscall.c:199-223 | every capability grants only paths whose place it covers exactly when the path's leading stretch is still there in its place |
| `VfsCaps.CoveredIsGrantedExactly` | sageos_build/kernel/core/syscall.c:199-223 | every capability grants all paths whose place it covers exactly when the path is normal |
| `VfsCaps.TestMeansCoverageExactly` | sageos_build/kernel/core/syscall.c:199-223 | the test means coverage, for every capability, exactly on normal paths |
| `VfsCaps.AllowedMeansCovered` | sageos_build/kernel/core/syscall.c:199-223 | a confined task may use a normal path exactly when some capability covers its place |
| `VfsCaps.NoClimbIsSafe` | sageos_build/kernel/core/syscall.c:199-223 | a path without a ".." component is granted only by capabilities that cover its place |
| `VfsCaps.OnlyTheRoot` | sageos_build/kernel/core/scheduler_ipc_ext.c:22-45 | over every run no task holds a capability for a file or for a directory below the root |
| `VfsCaps.ReachableGrant` | sageos_build/kernel/core/syscall.c:199-223 | in every reachable table a capability grants a path exactly when the path has a leading slash and the capability covers its place |
| `VfsCaps.AllOrNothing` | sageos_build/kernel/core/syscall.c:199-223 | a confined task may use every path with a leading slash, or none, depending only on whether it holds the root with a needed right |
| `Confinement.LookupGainsExactly` | sageos_build/kernel/core/ipc.c:620-643 | a lookup lets a task use the tree exactly when it could before, or has a free slot for a copy of a root directory with a needed right |
| `Confinement.GainsRootExactly` | sageos_build/kernel/core/ipc.c:358-796 | a table without a right to the root gets one by a call exactly when the call starts a thread on it, spawns on it a task whose parent has one or shares the table, or looks up a slot that holds one |
| `Confinement.StaysWithoutExactly` | sageos_build/kernel/core/ipc.c:358-796 | over every run of calls such a table has none throughout exactly when no call gives it one |
| `VfsCaps.ClimbingPathGranted` | sageos_build/kernel/core/syscall.c:207-218 | a capability for a directory "/c", which no run ever gives out, would grant "/c/../d" |
| `VfsCaps.RelativePathRefused` | sageos_build/kernel/core/syscall.c:207-218 | a task spawned from boot, holding the root directory with all rights, is refused a path without a leading slash and granted it with one |
| `VfsCaps.DoubledSlashRefused` | sageos_build/kernel/core/syscall.c:207-218 | a capability for a directory "/c", which no run ever gives out, would refuse "//c" |
| `Argv.TextsRead` | sageos_build/kernel/fs/elf.c:57-101 | a null-terminated pointer list whose strings are in place reads back as the strings |
| `Argv.SpAligned` | sageos_build/kernel/fs/elf.c:86-100 | the initial stack pointer is 16-byte aligned and leaves room for the words below the strings |
| `Argv.FrameReadsBack` | sageos_build/kernel/fs/elf.c:57-101 | memory with the words at sp and the strings in place reads back as argv and envp |
| `Argv.ArgumentsLayout` | sageos_build/kernel/fs/elf.c:94-101 | what reads back stands as the psABI says: argc at the stack pointer, then the argument pointers and a null, then the environment pointers and a null |
| `Argv.ValueConcat` | sageos_build/kernel/fs/elf.c:94-101 | words stand in memory least significant byte first |
| `ElfStack.PushStrings` | sageos_build/kernel/fs/elf.c:70-84 | the strings stand one after the other below top, NUL included, and their addresses are recorded |
| `ElfStack.CopyStrings` | sageos_build/kernel/fs/elf.c:69-84 | argument strings below environment strings, neither overwritten, both pointer lists right |
| `ElfStack.StoreFrame` | sageos_build/kernel/fs/elf.c:94-101 | argc, argument pointers and environment pointers side by side |
| `ElfStack.Align` | sageos_build/kernel/fs/elf.c:86-92 | the padding leaves the final stack pointer aligned |
| `ElfStack.PrepareStack` | sageos_build/kernel/fs/elf.c:57-101 | for every argv and envp that fit: aligned stack pointer, and reading from it as the psABI says gives back exactly argv and envp |
| `ElfLoad.StaysInsideExactly` | sageos_build/kernel/fs/elf.c:48-55 | the stores of an admitted segment stay in the window for programs exactly when its extent, file bytes included, ends there without wrapping |
| `ElfLoad.CheckIsEnough` | sageos_build/kernel/fs/elf.c:50-50 | for a file size within the memory size and an end that does not wrap, the check is enough |
| `ElfLoad.AdmittedExactly` | sageos_build/kernel/fs/elf.c:50-50 | of the segments whose end does not wrap exactly those whose memory lies in the window are admitted |
| `ElfLoad.InOrderExactly` | sageos_build/kernel/fs/elf.c:48-55 | no copy reads past the file and no store leaves the window exactly under the condition of LoadSegments |
| `ElfLoad.CheckIsNotEnough` | sageos_build/kernel/fs/elf.c:50-54 | segments that the check admits and whose stores leave the window |
| `ElfLoad.CopySegment` | sageos_build/kernel/fs/elf.c:51-54 | the bytes of the file, as many as it has even beyond the memory size, and zeros behind them, and nothing else |
| `ElfLoad.LoadSegments` | sageos_build/kernel/fs/elf.c:48-55 | true exactly when every segment is admitted; memory holds the segments up to the first that is not |
| `ElfLoad.SegmentInPlace` | sageos_build/kernel/fs/elf.c:48-55 | segments that do not overlap each end up with their bytes of the file and zeros |
| `ElfLoad.ByteLoaded` | sageos_build/kernel/fs/elf.c:48-55 | segments that overlap included: every byte is that of the last segment that covers it, from the file or zero |
| `ElfLoad.ByteKept` | sageos_build/kernel/fs/elf.c:48-55 | and a byte that none covers is as it was |
| `ElfLoad.ImageKeeps` | sageos_build/kernel/fs/elf.c:48-55 | memory that no segment covers is as it was |
| `ElfLoad.PlaceHeap` | sageos_build/kernel/fs/elf.c:146-158 | the heap for the largest end of the segments, both added up in 64 bits, wrapped or not |
| `ElfLoad.TopReached` | sageos_build/kernel/fs/elf.c:146-153 | the largest end is the end of some segment |
| `ElfLoad.HeapPlaced` | sageos_build/kernel/fs/elf.c:156-158 | for a program that is loaded the heap starts empty at the first page boundary behind the largest end |
| `ElfLoad.HeapBehindExactly` | sageos_build/kernel/fs/elf.c:146-158 | it is behind every byte the loader stores exactly when no segment end wraps and no file bytes beyond a memory size reach past it |
| `ElfLoad.WrappedHeap` | sageos_build/kernel/fs/elf.c:146-158 | an admitted segment whose end wraps and a heap below it |
| `ElfLoad.FileBytesInHeap` | sageos_build/kernel/fs/elf.c:146-158 | an admitted segment inside the window whose file bytes lie in the heap |
| `ElfLoad.BrkEffect` | sageos_build/kernel/core/mm.c:19-33 | zero asks for the end of the heap, exactly an address within the limits becomes it, and any other is refused |
| `ElfLoad.HeapStaysClear` | sageos_build/kernel/core/mm.c:19-33 | over every run of sys_brk the heap of a loaded program stays within its limits, and behind every stored byte exactly when it was placed so |
| `Frames.BitOps` | sageos_build/kernel/core/mm.c:35-45 | setting or clearing one bit of a byte changes that bit and no other |
| `Frames.StepAccounts` | sageos_build/kernel/core/mm.c:90-107 | an operation keeps marked = reserved + held, counter = held exactly when it is an allocation or frees a held frame or an unmanaged address |
| `Frames.RunAccounts` | sageos_build/kernel/core/mm.c:90-107 | the same over every run that frees only held frames |
| `Frames.ImproperFreeUpsets` | sageos_build/kernel/core/mm.c:101-107 | the first free of a managed frame that is not held always upsets the accounts |
| `Frames.AllocIsFresh` | sageos_build/kernel/core/mm.c:90-99 | an allocated frame is neither reserved nor held; NULL only when every frame is |
| `Frames.CountSplits` | sageos_build/kernel/core/mm.c:47-55 | the bitmap count is the boot-reserved frames plus the counter |
| `Frames.KernelCovered` | sageos_build/kernel/core/mm.c:78-83 | the boot loop marks every frame the kernel touches exactly when its last page does not spill over, as with a page-aligned base |
| `Frames.KernelTailMissed` | sageos_build/kernel/core/mm.c:78-83 | a kernel of one page that is not page-aligned touches a frame that the loop does not mark |
| `Frames.HeldIsUsable` | sageos_build/kernel/core/mm.c:57-107 | held frames lie in memory, outside the first megabyte and outside the kernel |
| `Frames.FreeAtBootExactly` | sageos_build/kernel/core/mm.c:57-88 | a managed frame is free at boot exactly when it lies above the first megabyte and outside the pages counted from the kernel base |
| `Frames.Allocator.constructor` | sageos_build/kernel/core/mm.c:57-88 | the bitmap after phys_init marks exactly the reserved frames |
| `Frames.Allocator.SetFrame` | sageos_build/kernel/core/mm.c:35-37 | one frame more is marked |
| `Frames.Allocator.UnsetFrame` | sageos_build/kernel/core/mm.c:39-41 | one frame less is marked |
| `Frames.Allocator.IsFrameSet` | sageos_build/kernel/core/mm.c:43-45 | whether the frame is marked |
| `Frames.Allocator.PhysAlloc` | sageos_build/kernel/core/mm.c:90-99 | the lowest unmarked frame, marked and counted, or NULL |
| `Frames.Allocator.PhysFree` | sageos_build/kernel/core/mm.c:101-107 | the frame unmarked and uncounted when it is managed |
| `Frames.Allocator.CountUsed` | sageos_build/kernel/core/mm.c:47-55 | the number of marked managed frames |

## Left out

- Device drivers and sector errors: the disk is an array of sectors that reads and writes reliably.
- FatVolume.Volume.Read: takes first cluster and file size as parameters; path lookup, the VFS error codes and the conversion of the count to int are not modelled, and the output buffer is returned as a sequence.
- FatVolume.Volume.Write: takes first cluster and file size as parameters and returns the new size; the directory update compares the raw path with short names of the root directory only and is not modelled. The end of the write must not wrap in 64 bits.
- FatRun.WriteFile: as FatVolume.Volume.Write.
- FatVolume.Volume.ReadFatEntry: the cluster must have a slot in the FAT, and every slot its data sectors on the disk.
- FatVolume.Volume.WriteFatEntry: the cluster must have a slot in the FAT; the source would write a sector behind it.
- FatDir.FindEntry: directories with a long-name part numbered 20 before their end are excluded, because that part does not fit the name buffer; a name that fills all 255 bytes of the buffer without an end mark is taken as those 255 bytes.
- DirFormat.WrittenListed: the first cluster, the times and the checksum of long names are not read by the scan.
- FatDir.ListDirectory: the same exclusions as FatDir.FindEntry; the entry buffer is returned as a sequence.
- Splitting a path into segments and descending through FAT directories; the EFI branches of the driver; fat32_stat.
- SageBc.ParseFile: starts from lines already split and stripped; underscores and blanks that Python's int() and bytes.fromhex() tolerate are refused here; what float() makes of a number word is not modelled.
- SageBc.TextRoundTrip: for number words without white space.
- Linker.JumpsLandExactly: speaks of JUMP and JUMP_IF_FALSE, the jumps of the linker's format; for the virtual machine's reading see Machine.MachineJumpsLandExactly.
- Linker.LinkPreservesMeaning: in the linker's own instruction format; for the virtual machine's see Machine.MachineReadsLinked.
- Machine.MachineReadsLinked: says which constant an operand names, not what the virtual machine then does with it; PropertyKeys has that for properties.
- PropertyKeys.SameKeyExactly: dictionaries are also indexed by strings, whose keys are string numbers of the virtual machine; how those meet property keys is not modelled.
- Compiled.LinkedEmits: the compiler emits no IMPORT, CLASS, METHOD, exception or loop opcodes; the layout of CLASS is the linker's. EXEC_AST_STMT is emitted outside strict mode only; its operand numbers a statement, and the linker moves it like a pool entry.
- Sgvm.Compile: takes the parsed program with its doubles as eight opaque bytes.
- Btrfs.TreeSearch: nodes come from a map by logical address; the on-disk header layout, node read errors, extents and directories are not modelled.
- Process.StepInv: a creation when the identifier counter is at its last value is in PidWrap.StepSoundExactly.
- Process.RunInv: for runs before the identifier counter comes to its last value; PidWrap.RunSoundExactly is about the others. Bounded waiting and reaping are proved for the former.
- Process.RunFromBoot: the same.
- Context switching, stack copying in vfork, saved memory images, sleeping tasks and their timer, file descriptors, spinlocks; execve as a step of the process table.
- Every system call, and every turn of its waiting loop, is one step: calls do not interleave with each other or with interrupts.
- Scheduler.Scheduler.Schedule: with nothing runnable the source waits for an interrupt and tries again; the model returns and leaves the table as it is.
- Scheduler.Scheduler.VforkCurrent: the task table only; the copied stack, descriptors and memory image of the child are not modelled.
- Ring.Endpoint.Put: blocked receivers and wait queues are not modelled; nor are port accept and sys_ipc_call.
- Caps.CapTable.EndpointCreate: object allocation and its failure are a parameter here; Endpoints.AllocEndpoint and Endpoints.StepInv have them.
- Caps.CapTable.PortCreate: object allocation and its failure are a parameter.
- Endpoints.StepInv: ports, shared memory and the receiving side of endpoints that never hold a message are not followed further.
- Namespace.InsertThenFind: names are cut to the 63 characters of the name buffer, and the name field of an entry is as long.
- Directory.LookupGives: the source follows the identifier of the owner to its thread, and fails if that is gone; the model takes the table for the identifier.
- Paths.Normalize: a buffer without a byte is excluded unless the path names the root, because the source writes to it.
- Mounts.ResolveAfterRun: for mounts at normal paths and paths whose normal form fits the buffer.
- ElfStack.PrepareStack: the address of the stack memory is a parameter, and the strings and pointers must fit in its 65536 bytes; the source does not check that. A failed allocation is not modelled.
- ElfLoad.LoadSegments: for segments whose bytes are in the file and whose stores stay in the window, as ElfLoad.StaysInsideExactly has it; the checks of elf_validate and the reading of the header table are not modelled.
- ElfLoad.CopySegment: the same; what the source stores outside the window is not modelled.
- Frames.Allocator.constructor: the kernel range must lie in the memory the bitmap covers, and the memory size must not come near 2^64.
- dmesg, telemetry, the MetalVM bridge, console and keyboard, boot stages, benchmark scripts.
