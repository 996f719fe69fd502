# LibHakkun, modelled and proved in Dafny

LibHakkun is a hooking and dynamic-linking runtime for AArch64 (and AArch32), with the `sail`
symbol compiler beside it. This project models its most intricate parts and proves what they are
for. `dafny verify dfyconfig.toml` checks everything.

Where the original changes state step by step, the model does too: classes with the original's
fields, arrays for its buffers, loops with invariants. Each such method is proved against a
function on values, and the properties are lemmas about those functions.

| file | what it models |
|---|---|
| `Words.dfy`, `Options.dfy`, `Buffers.dfy`, `Hashing.dfy` | machine words, bit operations, `alignUp`, bytes at positions, the name hashes (left open) |
| `Arm64.dfy` | an AArch64 machine: registers, flags, memory, code placed at addresses |
| `InstrUtil.dfy`, `AdrpReader.dfy` | branch encoders and the ADRP reader on instruction words, and which words it takes |
| `Emitter.dfy`, `EmitterProof.dfy`, `EmitterCode.dfy` | the pseudo-instruction emitter and what its code does when it runs |
| `Trampoline.dfy`, `TrampolineProof.dfy`, `TrampolineCode.dfy`, `TrampolineLimits.dfy`, `TrampolineHook.dfy` | the trampoline relocator, its simulation proof, its limits, and installed hooks that call their backup |
| `SailDb.dfy`, `SailResolve.dfy`, `SailCache.dfy`, `SailMeaning.dfy`, `SailRun.dfy`, `SailImage.dfy` | the symbol database: compiling, resolving, caching, what symbols mean, whole runs, and what the answers are in a loaded image |
| `DataBlock.dfy` | pattern parsing and the emitted masked search |
| `ElfLookup.dfy`, `ElfTables.dfy`, `Relocate.dfy` | symbol lookup by both hash tables, the tables word by word, relocation in place |
| `Rings.dfy`, `IntrusiveList.dfy`, `RoModuleList.dfy` | intrusive lists and the list of loaded modules |
| `Hook.dfy`, `Futex.dfy`, `MemoryScan.dfy` | hooks over code memory, the futex lock, the memory-map scanner |
| `Pfs0.dfy`, `IpcParams.dfy`, `IpcRequest.dfy`, `IpcReceive.dfy` | the PFS0 writer, argument packing, request writing, and what a receiver reads |

## Where the code does not do what it is meant to

Each of these is proved with the exact condition under which the code is right, or with an input
on which it is wrong.

- Relocating B.AL or B.NV inverts nothing, and a 32-bit CBZ or CBNZ is relocated as a 64-bit one
  (`TrampolineProof.InvertedTest`, `TrampolineProof.TrampolineIsFaithful`).
- A literal is stored one word below the words that are given up for it, so a trampoline that
  fills its buffer to the last word loses an address
  (`TrampolineLimits.FullBackupLosesItsReturn`, `TrampolineLimits.BackupFitsExactly`).
- Forming an address in register 31 can move the stack pointer
  (`TrampolineLimits.ZeroRegisterMove`).
- `readADRPGlobal` cuts the top bit off the page delta, so its sign extension never applies
  (`InstrUtil.ReadAdrpAddExact`, `InstrUtil.ReadAdrpLdrExact`).
- The literal loads that the relocator does not refuse are copied, and read from another address
  (`TrampolineHook.CopiedLiteralMoves`).
- Version index 31 sets every higher bit of the bitset (`SailDb.BitsetIsMembership`).
- The case for the `Older` boundary falls through into the one for `From`, so a block that is meant
  for older versions is never searched (`SailMeaning.OlderNeverResolves`), and a block that the
  version test passes over does not abort where it has to resolve (`SailMeaning.DataBlockMeans`,
  `SailMeaning.AloneMisses`).
- A block that is not found, where failing is not fatal, leaves its offset as the result. Among
  alternatives that ends the search: the first alternative that resolves does not win
  (`SailMeaning.UnfoundBlockShadows`, with the input `SailMeaning.ShadowedExport`; the exact
  condition for one block is `SailMeaning.DataBlockMeans`).
- A sum over a symbol that is not exported is its addend (`SailMeaning.SumSettles`), and a name
  whose alternatives all fail aborts also where failing is not fatal. A name does what it means
  when it meets none of these (`SailMeaning.CompileThenResolve`).
- A value that an alternative leaves in a cache hides the abort a later lookup should end in
  (`SailCache.Database.Apply`, `SailCache.Database.LookupAfterAlternative`), and a symbol that
  others are built on may cache a number that was never written; names that no alternative is built
  on are safe from both (`SailRun.ShelteredIsSafe`).
- The data-block search never looks at the last position (`DataBlock.MissedExactlyAtEnd`).
- A RELATIVE entry also goes through symbol resolution: its slot survives only while its symbol
  does not resolve (`Relocate.RelaImage`), and REL entries are not safe to relocate twice
  (`Relocate.RelocateTwice`).
- Splicing a range before a place of the range itself loses the range
  (`IntrusiveList.IntrusiveListImpl.SpliceWithin`, `IntrusiveList.SpliceWithinKeepsAll`).
- A hook over a zero instruction, or one that saves words behind the read-only data, cannot be
  uninstalled (`Hook.UninstallableExactlyWhen`).
- A write that begins in the text and ends in the read-only data leaves the text mapping, unless
  the mappings happen to be adjacent (`Hook.WriteLandsExactlyWhen`), and a module whose read-only
  data could not be mapped can never be written (`Hook.MappedExactlyWhen`).
- `align` seeks by the rounded position instead of to it (`Pfs0.DataAlignedExactlyWhen`).

## Model

| member | source | states |
|---|---|---|
| `TrampolineProof.TrampolineIsFaithful` | hakkun/src/hk/hook/Trampoline.cpp:50-187 | for every instruction list without a use of a register that an earlier call may have changed, every placement at which no address formed in register 31 moves the stack, and every machine state: the emitted trampoline arrives at the target or return address that running the originals in place arrives at if and only if the relocated test of a final conditional carries over (conditions 0 to 13; a 32-bit CBZ or CBNZ on a register whose low half is not zero alone); the states then agree but for IP0 and, after a call, the link register |
| `TrampolineProof.EnteredIsFaithful` | hakkun/src/hk/hook/Trampoline.cpp:50-187 | the same when IP0 was used on the way in, for instructions that take nothing from IP0 |
| `TrampolineProof.InvertedTest` | hakkun/src/hk/hook/Trampoline.cpp:108-173 | the emitted opposite test decides against the original on exactly the states where it is invertible: B.AL and B.NV never are, and widening a 32-bit compare loses those where only the upper half is set |
| `TrampolineProof.ConditionalRuns` | hakkun/src/hk/hook/Trampoline.cpp:108-173 | the reserved slot, the far branch and the patched opposite test together take the branch or continue behind the emitted code |
| `TrampolineProof.Simulates` | hakkun/src/hk/hook/Trampoline.cpp:84-184 | from any instruction on, the emitted code reaches the place the in-place run leaves to |
| `TrampolineProof.BranchesAreLast` | hakkun/src/hk/hook/Trampoline.cpp:100-154 | the relocator accepts a list only if every B and every conditional is its last instruction |
| `TrampolineCode.MakeTrampolineBackup` | hakkun/src/hk/hook/Trampoline.cpp:50-187 | the filling loop with its aborts and the skipped return leaves the buffer the specification describes, and aborts exactly when it does |
| `TrampolineCode.Relocator.Relocate` | hakkun/src/hk/hook/Trampoline.cpp:84-179 | one call of the `relocate` lambda: new buffer, abort and the skip-return flag |
| `TrampolineCode.Relocator.RelocateConditional` | hakkun/src/hk/hook/Trampoline.cpp:116-123 | reserve, branch, patch: the slot array after the patch |
| `TrampolineLimits.BackupFits` | hakkun/src/hk/hook/Trampoline.cpp:181-186 | a buffer of more than 4 n + 5 words takes the backup of n supported instructions and keeps its literals intact |
| `TrampolineLimits.BackupFitsExactly` | hakkun/src/hk/hook/Trampoline.cpp:181-186 | a buffer is enough for every list of n supported instructions, wherever both are, if and only if it has more than 4 n + 5 words |
| `TrampolineLimits.FullBackupLosesItsReturn` | hakkun/include/hk/hook/a64/Assembler.h:1256-1268 | four far calls, a far CBZ and a far return fill 25 words: the relocator accepts, and the last instruction overwrites the low word of the return address it needs |
| `TrampolineLimits.FullBackupExists` | hakkun/include/hk/hook/a64/Assembler.h:1256-1268 | such a list and placement exist |
| `TrampolineLimits.ZeroRegisterMove` | hakkun/include/hk/hook/a64/Assembler.h:1233-1302 | running the move emitted for register 31, in any of its forms, leaves the state as it was if and only if ADR reaches the value, or ADRP does not, or the value is a page; otherwise only the stack pointer changes, by the offset in the page |
| `TrampolineLimits.HookJumpFits` | hakkun/src/hk/hook/Trampoline.cpp:19-26 | the jump to the hook always fits the five words that may be overwritten |
| `TrampolineLimits.HookJumpArrives` | hakkun/src/hk/hook/Trampoline.cpp:19-26 | running the words written over the originals arrives at the hook with nothing but IP0 changed, at any distance |
| `TrampolineHook.HookedRunsOriginal` | hakkun/src/hk/hook/Trampoline.cpp:16-31 | for an installed trampoline hook at any distance: entering the hooked code arrives at the hook, and a hook that goes on to its backup with at most IP0 changed leaves to where the overwritten instructions leave to, if and only if the test of a final conditional carries over, and then in the state they leave but for IP0 and, after a call, the link register; for instructions that take nothing from IP0 |
| `TrampolineHook.CopiedLiteralMoves` | hakkun/src/hk/hook/Trampoline.cpp:175-179 | the literal loads that are not refused are LDRSW, PRFM and those into SIMD registers; a copied one reads from the address of the original if and only if it has not moved |
| `EmitterProof.EmitMovRuns` | hakkun/include/hk/hook/a64/Assembler.h:1233-1302 | for every register and every value, running what `emitMovImmediate64` emitted, by ADR, ADRP and ADD, literal, or MOVK, leaves exactly that value and changes nothing else; register 31 takes no value, and with ADRP and ADD costs the stack pointer the offset in the page |
| `EmitterProof.EmitJumpRuns` | hakkun/include/hk/hook/a64/Assembler.h:1304-1318 | running an emitted jump arrives at its target |
| `EmitterProof.EmitCallRuns` | hakkun/include/hk/hook/a64/Assembler.h:1304-1318 | running an emitted call enters the callee in a state that differs only in IP0 and the link register and continues behind the emitted words |
| `EmitterProof.LiteralLoads` | hakkun/include/hk/hook/a64/Assembler.h:1256-1268 | the literal stored at the end of the buffer is loaded back |
| `EmitterProof.MoveForm` | hakkun/include/hk/hook/a64/Assembler.h:1233-1302 | which form a move takes and how many words, on plain distances: an ADR up to 2^20 - 1 bytes, an ADRP up to 2^20 - 1 pages, with an ADD unless the value is a page, a literal, or one MOVK for each 16-bit chunk that differs from the code address, which is loaded first if it shares one |
| `EmitterProof.BranchForm` | hakkun/include/hk/hook/a64/Assembler.h:1304-1318 | a branch is one word if and only if its target is less than 2^27 bytes away, else a move to IP0 and a branch there |
| `EmitterCode.PseudoInstructionEmitter.EmitMovImmediate64` | hakkun/include/hk/hook/a64/Assembler.h:1233-1302 | the emitter appends the specified words or aborts |
| `EmitterCode.PseudoInstructionEmitter.EmitBranch` | hakkun/include/hk/hook/a64/Assembler.h:1304-1318 | the emitter appends the specified branch or aborts |
| `EmitterCode.PseudoInstructionEmitter.EmitMovks` | hakkun/include/hk/hook/a64/Assembler.h:1290-1300 | the loop over the four chunks skips exactly the chunks that already match |
| `InstrUtil.BranchRoundTrip` | hakkun/include/hk/hook/InstrUtil.h:30-40 | decoding an encoded B or BL gives the target back if and only if the displacement lies in [-2^27, 2^27) |
| `InstrUtil.BranchRoundTripA32` | hakkun/include/hk/hook/InstrUtil.h:110-121 | the same on AArch32 if and only if displacement minus 8 lies in [-2^25, 2^25) |
| `InstrUtil.ReadAdrpAddExact` | hakkun/include/hk/hook/InstrUtil.h:50-95 | on an encoded ADRP and ADD the reader returns the address the pair forms if and only if the page delta is not negative |
| `InstrUtil.ReadAdrpLdr` | hakkun/include/hk/hook/InstrUtil.h:50-84 | with LDR as low instruction it fetches the word at the address the pair forms, or refuses an unreadable one; with a negative page delta it fetches 2^20 pages higher |
| `InstrUtil.ReadAdrpLdrExact` | hakkun/include/hk/hook/InstrUtil.h:50-84 | in every memory it gives the word the pair would load if and only if the page delta is not negative |
| `AdrpReader.ReaderExactly` | hakkun/include/hk/hook/InstrUtil.h:50-95 | over all pairs of instruction words: the reader takes exactly an ADRP followed by an LDR (unsigned offset) of 32 or 64 bits or an ADD (immediate), and returns the page formed without the top immediate bit plus the scaled or shifted immediate, or the 64-bit word there; it refuses every other pair |
| `SailDb.GenerateSymbolDb` | sail/src/fakelib.cpp:205-288 | the grouping loop that empties groups as it emits them yields one record per hash at its first occurrence; it succeeds if and only if for every ADRP and every arithmetic symbol some symbol has the hash of the name it is built on |
| `SailDb.CompilesExactlyWhen` | sail/src/fakelib.cpp:209-239 | that condition, as an equivalence |
| `SailDb.CollectGroups` | sail/src/fakelib.cpp:252-257 | the map holds for each hash its symbols in table order |
| `SailDb.TableIncreasing` | sail/src/fakelib.cpp:122-126 | the emitted hashes strictly increase |
| `SailDb.TableLosesNothing` | sail/src/fakelib.cpp:261-288 | read record by record, the table is the sorted symbols: nothing lost, duplicated or reordered |
| `SailDb.DatabaseIsComplete` | sail/src/fakelib.cpp:120-288 | whatever order the sort gives equal hashes, the table holds every source symbol exactly as often as the source |
| `SailDb.BitsetIsMembership` | sail/src/fakelib.cpp:164-170 | for indices up to 31 the emitted bitset tests as membership in the source version list, except that index 31 sets every bit from 31 on |
| `SailDb.BitsetCovers` | sail/src/fakelib.cpp:164-170 | for any version list, a bit of the emitted bitset is set if and only if some index covers it: its own bit modulo 32, and bit 31 and all above for those that are 31 modulo 32 |
| `SailDb.BinarySearch` | hakkun/include/hk/sail/detail.h:173-181 | the binary search finds the record with the hash, or returns -1 when there is none |
| `SailDb.LookupGivesGroup` | hakkun/include/hk/sail/detail.h:173-208 | a lookup hits if and only if some symbol has the hash, and gives that symbol or the list of exactly those symbols |
| `SailDb.CachesStart` | sail/src/fakelib.cpp:160-168 | every symbol has a record whose cache word starts at 0 if it uses the cache and at 1 if not, alone or among the candidates of a list that starts at 0 |
| `SailResolve.AbortOnlyAborts` | hakkun/src/hk/sail/detail.cpp:100-322 | insisting on success only turns outcomes into aborts, never into other values |
| `SailCache.Database.Apply` | hakkun/include/hk/sail/detail.h:122-152 | resolving through the caches gives what the cacheless resolver gives, for every record that cannot hold a number never written; it aborts exactly when neither its own cache nor one below it hides the abort; an abort is missed only where the record, or one it is built on, may be tried by an alternative, fails there and leaves a value above 1; the mutual recursion ends |
| `SailCache.Database.ColdPasses` | hakkun/include/hk/sail/detail.h:122-152 | with empty caches a call aborts exactly when the cacheless resolver does |
| `SailCache.Database.LookupAfterAlternative` | hakkun/include/hk/sail/detail.h:122-152 | such a miss: once a block that is not found was tried where failing is not fatal, looking its name up gives its offset instead of the abort |
| `SailCache.Database.ApplyMultiple` | hakkun/src/hk/sail/detail.cpp:295-322 | candidates: immediate ones first, then all, the first nonzero result, else abort |
| `SailCache.Database.ApplyFirst` | hakkun/src/hk/sail/detail.cpp:299-317 | one pass over the candidates in order |
| `SailCache.Database.ApplyReadAdrp` | hakkun/src/hk/sail/detail.cpp:230-265 | the source is resolved and read; a failed read aborts or leaves the output; nothing is promised where the source may leave its own output unwritten |
| `SailCache.Database.ApplyArithmetic` | hakkun/src/hk/sail/detail.cpp:276-285 | the source is resolved and the addend added modulo 2^64, with the same proviso |
| `SailCache.Database.Lookup` | hakkun/include/hk/sail/detail.h:184-208 | a missing symbol is 0 or an abort; a present one must resolve, and gives what the cacheless resolver gives, or misses its abort where one may be hidden, unless a number never written may be in its cache |
| `SailMeaning.CompileThenResolve` | sail/src/fakelib.cpp:120-288 | for every list of symbols the compiler accepts and can represent, looking a name up in the compiled table does what the source symbols of that name mean, whether or not it has to resolve, whenever everything it tries agrees with what it means: no block is passed over where it is meant to be searched, no alternative leaves the offset of a block not found, no version is misread by its bitset, nothing is added to an unresolved symbol, no list fails where failing is not fatal. For a name without alternatives whose bitsets read right, a lookup that must resolve does what is meant if and only if so |
| `SailMeaning.NameMeans` | hakkun/src/hk/sail/detail.cpp:93-322 | the agreement for one name, by induction on the references |
| `SailMeaning.DataBlockMeans` | hakkun/src/hk/sail/detail.cpp:98-162 | the record of a data block, searched for in the text, the read-only data, the data or all three as its section says, agrees with the block if and only if, when it must resolve, the version test does not pass over it, and otherwise it is not passed over where it would be found, and is found or has offset 0 modulo 2^64 |
| `SailMeaning.UnfoundBlockShadows` | hakkun/src/hk/sail/detail.cpp:144-162 | an alternative block that is searched for and not found, with an offset other than 0 and only unresolved alternatives before it, makes the name resolve to the offset; that is what is meant, the first alternative behind it that resolves, if and only if that is the same number |
| `SailMeaning.ShadowedExport` | hakkun/src/hk/sail/detail.cpp:144-317 | two alternatives on which it is not: a block that is not in the image with offset 8 hides a symbol the program exports at 0x7100 |
| `SailMeaning.SumSettles` | hakkun/src/hk/sail/detail.cpp:276-285 | a sum over an unresolved symbol that left 0 leaves its addend, where unresolved is meant |
| `SailMeaning.OlderNeverResolves` | hakkun/src/hk/sail/detail.cpp:109-118 | a block with the `Older` boundary never resolves |
| `SailMeaning.AloneMisses` | hakkun/src/hk/sail/detail.cpp:100-290 | a name without alternatives over a block that the version test passes over leaves its output unwritten, or computes from an unwritten one, instead of giving the address or the abort it means |
| `SailMeaning.ImmediateMeans` | hakkun/src/hk/sail/detail.cpp:199-219 | an immediate symbol that must resolve agrees with its version list, any list at all, if and only if its bitset reads right for the loaded version; one that need not also where an unmeant address is 0 |
| `SailMeaning.LowVersionsHold` | hakkun/src/hk/sail/detail.cpp:93-95 | bitsets read right for lists of indices up to 30 and loaded versions -1 to 63 |
| `SailMeaning.TableAcyclic` | sail/src/fakelib.cpp:205-246 | references that are acyclic in the source are acyclic in the table |
| `SailRun.LookupAll` | hakkun/include/hk/sail/detail.h:122-152 | over every sequence of lookups, however the caches were filled: a name that agrees with what it means answers with its address, and aborts when it has none unless that abort may be hidden, for every name that cannot hold a number never written |
| `SailRun.ShelteredIsSafe` | hakkun/include/hk/sail/detail.h:122-152 | a name that agrees with what it means can hold no such number and hide no abort if neither it nor a name it is built on is, directly or not, what an alternative is built on: then every lookup of a run answers exactly as meant |
| `SailImage.AnswerIsDescribed` | hakkun/include/hk/sail/detail.h:122-208 | over a loaded image every answer of a run is an address the image has for that name: in a module of a listed version, exported by the first module that defines the target, the first searched place where memory matches the pattern, what the reader makes of the instruction words at the source, or the source plus the addend, all the way down |
| `SailImage.Search` | sail/src/fakelib.cpp:108-115 | the emitted search gives the address the environment of an image has for a pattern and a section |
| `SailImage.LookupExport` | hakkun/src/hk/ro/RoUtil.cpp:133-143 | the lookup by hashes gives the address the environment of an image has for a name its hash tells apart |
| `DataBlock.HexStringToBytesWithMatch` | sail/include/util.h:86-121 | succeeds exactly on an even number of hex digits and question marks, and yields the bytes and masks of the pattern |
| `DataBlock.HexDigits` | sail/include/util.h:86-121 | which characters are hex digits, and the number each stands for |
| `DataBlock.CompareMask` | sail/src/fakelib.cpp:398-438 | the comparison by 64-, 32-, 16-bit words and bytes equals the byte-by-byte masked comparison for every length |
| `DataBlock.WordsCompareAsBytes` | sail/src/fakelib.cpp:400-428 | a masked comparison of little-endian words of any width is that of their bytes |
| `DataBlock.ByteAgrees` | sail/include/util.h:95-117 | a parsed byte and mask match exactly the bytes whose given nibbles agree |
| `DataBlock.Search` | sail/src/fakelib.cpp:108-115 | the emitted loop returns the first multiple-of-4 offset below len - n where memory matches, else 0, and never reads outside |
| `DataBlock.Locate` | sail/src/fakelib.cpp:83-118 | parsing and searching: the first place where memory agrees with every given nibble, 0 without one |
| `DataBlock.MissedExactlyAtEnd` | sail/src/fakelib.cpp:108-115 | a block that is there at an aligned place is missed if and only if it ends exactly where the region does |
| `SailImage.BlockAgrees` | sail/src/fakelib.cpp:83-118 | a symbol whose block was parsed from a pattern matches a place exactly where memory agrees with every given nibble |
| `ElfLookup.WalkGnu` | hakkun/src/rtld/RoModule.cpp:189-231 | the bloom, bucket and chain walk ends and returns the least hashed index of the bucket with 31 equal hash bits that is defined and matches |
| `ElfLookup.TestBloom` | hakkun/src/rtld/RoModule.cpp:190-201 | the masked word test says that both bits of the hash are set |
| `ElfLookup.WalkChain` | hakkun/src/rtld/RoModule.cpp:215-228 | the walk from a bucket start to the low-bit mark |
| `ElfLookup.GnuIsScan` | hakkun/src/rtld/RoModule.cpp:189-273 | by name, or by a murmur hash that identifies the name, the GNU lookup is the linear scan of the hashed symbols |
| `ElfLookup.XorBelowTwo` | hakkun/src/rtld/RoModule.cpp:217 | `(a ^ b) < 2` compares all but the lowest bit |
| `ElfLookup.WalkElf` | hakkun/src/rtld/RoModule.cpp:161-187 | the System V walk ends and returns the first match on the chain |
| `ElfLookup.ElfIsScan` | hakkun/src/rtld/RoModule.cpp:161-187 | with no name defined twice it is the linear scan of the whole symbol table |
| `ElfLookup.DefinedOnceMeans` | hakkun/src/rtld/RoModule.cpp:161-187 | what it takes for a name not to be defined twice, on sections and names |
| `ElfLookup.TablesAgree` | hakkun/src/rtld/RoModule.cpp:161-273 | both tables give the same symbol, by name and by hash |
| `ElfLookup.GetSymbolByName` | hakkun/src/rtld/RoModule.cpp:275-277 | either table gives the first definition of the name |
| `ElfLookup.GetSymbolByHashes` | hakkun/src/rtld/RoModule.cpp:279-281 | so do the hashes of a name murmur tells from the module's names |
| `ElfLookup.LookupSymbol` | hakkun/src/hk/ro/RoUtil.cpp:121-131 | 0 when no module defines the name, else base plus value, modulo 2^64, of the first symbol that defines it in the first module that has one |
| `ElfLookup.LookupSymbolByHashes` | hakkun/src/hk/ro/RoUtil.cpp:133-143 | the same address by hashes |
| `ElfLookup.OneGlobalAddress` | hakkun/src/hk/ro/RoUtil.cpp:121-143 | there is one such address |
| `ElfTables.LinkedIsWellFormed` | hakkun/src/rtld/RoModule.cpp:189-231 | a GNU table laid out word by word as a linker does, counts, bloom words, bucket starts and marked chain hashes, is what the lookup takes for granted |
| `ElfTables.LookupLinked` | hakkun/src/rtld/RoModule.cpp:189-277 | on such a table a lookup finds the first definition of the name, and nothing when there is none |
| `ElfTables.SystemVWords` | hakkun/src/rtld/RoModule.cpp:161-187 | the bucket and chain words of a System V table laid out as counts, buckets and chains |
| `Relocate.RoModule.Relocate` | hakkun/src/rtld/RoModule.cpp:61-77 | the loop over the dynamic entries leaves the image the pass describes |
| `Relocate.RoModule.ResolveSymbols` | hakkun/src/rtld/RoModule.cpp:139-159 | both tables are applied and the third word of the global offset table cleared |
| `Relocate.RoModule.ForEachRelocation` | hakkun/src/rtld/RoModule.cpp:129-137 | an entry list is applied in order |
| `Relocate.ResolveThroughTables` | hakkun/src/rtld/RoModule.cpp:79-106 | a symbol that is not visible resolves to base plus value of its own module's first definition, an undefined weak one to 0, another to nothing; a visible one to the first definition in list order if its address is not 0, else to what the manual lookup gives if that is not 0, else to nothing |
| `Relocate.OneSymbolAddress` | hakkun/src/rtld/RoModule.cpp:79-106 | these cases determine the address |
| `Relocate.LoadedSlots` | hakkun/src/rtld/RoModule.cpp:61-159 | for REL and RELA tables with disjoint targets: what every slot holds after both passes, and that every other byte is unchanged but for the cleared word |
| `Relocate.RelaImage` | hakkun/src/rtld/RoModule.cpp:61-159 | on RELA, with that address: a RELATIVE slot of the dynamic table ends as base plus addend if and only if its symbol does not resolve or resolves to the base; every other slot, JUMP_SLOT entries and any entry of the PLT table included, holds address plus addend when its symbol resolves and the word of the file when not |
| `Relocate.RelImage` | hakkun/src/rtld/RoModule.cpp:61-159 | on REL: every slot ends as the word of the file plus the address when its symbol resolves, and plus the base for a RELATIVE one of the dynamic table |
| `Relocate.NullSymbolUnresolved` | hakkun/src/rtld/RoModule.cpp:79-106 | symbol 0 does not resolve while nobody defines the empty name |
| `Relocate.LoadedInAnyOrder` | hakkun/src/rtld/RoModule.cpp:61-159 | the image does not depend on the order of the entries |
| `Relocate.RelocateTwice` | hakkun/src/rtld/RoModule.cpp:61-77 | relocating twice is relocating once if and only if the base is 0 or no REL entry is RELATIVE |
| `Rings.Node.Unlink` | addons/ExpHeap/src/ams/util/util_intrusive_list.hpp:87-94 | four pointer writes split a ring into the range and the rest |
| `Rings.Node.SplicePrev` | addons/ExpHeap/src/ams/util/util_intrusive_list.hpp:59-66 | four pointer writes join two rings before a node, or cut one ring in two when the node is in it |
| `Rings.Node.SpliceNext` | addons/ExpHeap/src/ams/util/util_intrusive_list.hpp:74-81 | and behind a node |
| `Rings.RingIsUnique` | addons/ExpHeap/src/ams/util/util_intrusive_list.hpp:40-41 | the links determine the sequence |
| `IntrusiveList.IntrusiveListImpl.constructor` | addons/ExpHeap/src/ams/util/util_intrusive_list.hpp:198-199 | an empty list |
| `IntrusiveList.IntrusiveListImpl.PushBack` | addons/ExpHeap/src/ams/util/util_intrusive_list.hpp:255-257 | appends the node; rings stay well formed |
| `IntrusiveList.IntrusiveListImpl.PushFront` | addons/ExpHeap/src/ams/util/util_intrusive_list.hpp:259-261 | prepends the node |
| `IntrusiveList.IntrusiveListImpl.PopBack` | addons/ExpHeap/src/ams/util/util_intrusive_list.hpp:263-265 | drops the last node, which becomes a self-loop; on an empty list nothing changes |
| `IntrusiveList.IntrusiveListImpl.PopFront` | addons/ExpHeap/src/ams/util/util_intrusive_list.hpp:267-269 | drops the first node likewise |
| `IntrusiveList.IntrusiveListImpl.Insert` | addons/ExpHeap/src/ams/util/util_intrusive_list.hpp:271-274 | inserts before any place, the end included, and returns the place of the new node |
| `IntrusiveList.IntrusiveListImpl.Erase` | addons/ExpHeap/src/ams/util/util_intrusive_list.hpp:290-297 | removes the node at a place and returns the next place; the end stays |
| `IntrusiveList.IntrusiveListImpl.Clear` | addons/ExpHeap/src/ams/util/util_intrusive_list.hpp:299-303 | empties the list and leaves every node a self-loop |
| `IntrusiveList.IntrusiveListImpl.SpliceAll` | addons/ExpHeap/src/ams/util/util_intrusive_list.hpp:276-278 | moves a whole other list before any place and leaves it empty |
| `IntrusiveList.IntrusiveListImpl.SpliceOne` | addons/ExpHeap/src/ams/util/util_intrusive_list.hpp:280-284 | moves one node of another list before any place |
| `IntrusiveList.IntrusiveListImpl.Splice` | addons/ExpHeap/src/ams/util/util_intrusive_list.hpp:286-316 | moves a range of another list before any place, in order, both rings well formed |
| `IntrusiveList.IntrusiveListImpl.SpliceWithin` | addons/ExpHeap/src/ams/util/util_intrusive_list.hpp:306-316 | moves a range within a list before a place outside it; before a place of the range itself it drops the range, which is left as two rings without a root, cut before that place |
| `IntrusiveList.SpliceWithinKeepsAll` | addons/ExpHeap/src/ams/util/util_intrusive_list.hpp:306-316 | a list that splices its own range from i to j before k keeps all its nodes if and only if i = j, k < i or j <= k |
| `IntrusiveList.SpliceKeepsAll` | addons/ExpHeap/src/ams/util/util_intrusive_list.hpp:286-316 | a splice conserves the nodes of both lists together |
| `IntrusiveList.MovedKeepsAll` | addons/ExpHeap/src/ams/util/util_intrusive_list.hpp:306-316 | a splice within a list conserves its nodes |
| `RoModuleList.List.PushFront` | hakkun/include/rtld/RoModuleList.h:61-71 | prepends a module; null is ignored |
| `RoModuleList.List.PushBack` | hakkun/include/rtld/RoModuleList.h:73-83 | appends a module |
| `RoModuleList.List.PopFront` | hakkun/include/rtld/RoModuleList.h:85-95 | drops the first module, left linked to itself |
| `RoModuleList.List.PopBack` | hakkun/include/rtld/RoModuleList.h:97-107 | drops the last module |
| `RoModuleList.List.InsertBefore` | hakkun/include/rtld/RoModuleList.h:109-121 | inserts before any place, the sentinel included; the branch for the front never runs |
| `RoModuleList.List.InsertAfter` | hakkun/include/rtld/RoModuleList.h:123-135 | inserts behind any place; the branch for the back never runs |
| `RoModuleList.List.Remove` | hakkun/include/rtld/RoModuleList.h:137-152 | removes a module; null and the list itself are ignored |
| `RoModuleList.List.Clear` | hakkun/include/rtld/RoModuleList.h:154-157 | empties the list |
| `RoModuleList.List.Iterate` | hakkun/include/rtld/RoModuleList.h:19-55 | forward iteration visits back to front, reverse iteration front to back |
| `RoModuleList.List.LookupGlobalAuto` | hakkun/src/rtld/standalone/main.cpp:29-38 | the address, base plus value, of the first definition in forward order, 0 without one |
| `RoModuleList.List.PushAll` | hakkun/src/rtld/standalone/main.cpp:70-72 | a run of pushes leaves the modules in reverse push order |
| `RoModuleList.PushOrder` | hakkun/include/rtld/RoModuleList.h:19-19 | iterating what was pushed to the front visits push order |
| `RoModuleList.PushThenLookup` | hakkun/src/rtld/standalone/main.cpp:29-72 | after any run of pushes a global lookup gives the definition of the earliest pushed module that has one, else 0 |
| `Hook.RoModule.WriteRo` | hakkun/src/hk/ro/RoModule.cpp:75-95 | writes through the mapping of the text or of the read-only data, or refuses and changes nothing; a write that begins in the text goes on into the read-only data when the mappings are adjacent, and otherwise puts the rest behind the text mapping |
| `Hook.WriteLandsExactlyWhen` | hakkun/src/hk/ro/RoModule.cpp:75-95 | a checked write leaves the module as asked if and only if it stays in one mapping, the two mappings are adjacent, or the read-only data already held the words that leave the text |
| `Hook.RoModule.MapRw` | hakkun/src/hk/ro/RoModule.cpp:47-57 | the two mapping calls, each of which may fail, at places that may be adjacent, and the state they leave |
| `Hook.MappedExactlyWhen` | hakkun/src/hk/ro/RoModule.cpp:47-57 | over any number of attempts a module becomes writable if and only if the first attempt that maps its text maps the read-only data too: once only the text is mapped, it never does |
| `Hook.HookNInstr.InstallAtOffset` | hakkun/include/hk/hook/Hook.h:87-101 | code memory and hook object after an install, with both failures; the saved window may reach behind the read-only data |
| `Hook.HookNInstr.Uninstall` | hakkun/include/hk/hook/Hook.h:103-110 | code memory and hook object after an uninstall, with both failures |
| `Hook.RunKeeps` | hakkun/include/hk/hook/Hook.h:73-111 | over every run in which installs save windows on which writes land, beginning on nonzero instructions, and no hook is uninstalled under a later one that overlaps it, the code is the original overlaid with exactly the words of the installed hooks, in install order |
| `Hook.StepKeeps` | hakkun/include/hk/hook/Hook.h:87-110 | one install or uninstall keeps that |
| `Hook.InstallIsAllowed` | hakkun/include/hk/hook/Hook.h:87-101 | an install that such a run may make: a window in one mapping, or across two adjacent ones, that begins on a nonzero instruction, with no more words than it saves |
| `Hook.RestoreWindow` | hakkun/include/hk/hook/Hook.h:103-110 | restoring a window takes its patch away, provided no later patch clashes with it |
| `Hook.AllUninstalledRestores` | hakkun/include/hk/hook/Hook.h:73-111 | once no hook is installed after such a run the original code is back |
| `Hook.DisjointAnyOrder` | hakkun/include/hk/hook/Hook.h:73-111 | hooks with fixed, pairwise disjoint windows on nonzero instructions: every sequence of installs and uninstalls in any order keeps that, and the original code is back whenever none is installed |
| `Hook.LifoRestores` | hakkun/include/hk/hook/Hook.h:73-111 | windows that overlap anyhow: every last-in, first-out sequence in which each hook begins on a word that is not 0 at that time leaves the original overlaid with the words of the hooks on its stack, and so the original once the stack is empty |
| `Hook.LastFirst` | hakkun/include/hk/hook/Hook.h:103-110 | the hook installed last may always be uninstalled |
| `Hook.UninstallableExactlyWhen` | hakkun/include/hk/hook/Hook.h:85-110 | a hook just installed can be uninstalled if and only if the first instruction it replaced was not zero and its window does not reach behind the read-only data; then the code is what it was, also where a write left the text mapping, and otherwise it and the hook stay |
| `Futex.MutualExclusion` | addons/Rust/src/mutex.rs:64-130 | for any number of threads and any interleaving, with kernel calls returning anything: at most one thread in the section, the word tells whether one is, and the counter is the number of completed bumps |
| `Futex.StepKeeps` | addons/Rust/src/mutex.rs:64-126 | every step of every thread keeps the invariant |
| `Futex.PanicLeavesTheLock` | addons/Rust/src/mutex.rs:92-137 | an exchange succeeds if and only if nobody is in the section, so a thread that panicked over a kernel result does not hold the lock |
| `Futex.TryNeverWaits` | addons/Rust/src/mutex.rs:65-91 | the exchange of `try_with_lock` enters the section if nobody is in it, and otherwise the call returns |
| `Futex.LockReturnsThroughTheSection` | addons/Rust/src/mutex.rs:93-126 | whatever the other threads and the kernel do, `with_lock` returns only after entering the section, or panics |
| `Futex.PanicsExactlyWhen` | addons/Rust/src/mutex.rs:133-137 | a thread panics exactly on a kernel result other than 0 and 0xFA01 |
| `MemoryScan.ForEachAutoLoadModule` | hakkun/include/hk/ro/RoUtil.h:39-70 | the scan ends on every map and calls back as specified |
| `MemoryScan.OneRound` | hakkun/include/hk/ro/RoUtil.h:42-66 | one round with its five ways to end |
| `MemoryScan.CallsAreModules` | hakkun/include/hk/ro/RoUtil.h:39-70 | on any map every callback is for a contiguous code, read-only, writable triple |
| `MemoryScan.ScanFindsAll` | hakkun/include/hk/ro/RoUtil.h:39-70 | in any memory map in which modules follow one another from the base address on, with free memory behind the last: the scan from that address succeeds and calls back exactly once per module, in ascending order, with its three bases |
| `MemoryScan.LayoutIsMap` | hakkun/include/hk/ro/RoUtil.h:39-70 | modules laid out one after the other and a free region are a memory map |
| `MemoryScan.SuccessMissesNone` | hakkun/include/hk/ro/RoUtil.h:39-70 | on any map a scan that succeeds ran up to free memory and called back for every executable region on the way |
| `Pfs0.BuildPfs0` | tools/build_pfs0.py:43-85 | the seeking writer produces the image, or fails: exactly when a character of a name is above 0x7F, a count or name offset above 2^32 - 1 or an offset or size above 2^64 - 1 |
| `Pfs0.WriteNames` | tools/build_pfs0.py:50-58 | the names loop fills the string pool and keeps each offset, or stops at a name that is not ASCII |
| `Pfs0.WriteFiles` | tools/build_pfs0.py:68-85 | the entries loop fills data and entries, or stops at an entry that does not fit |
| `Pfs0.WriteContent` | tools/build_pfs0.py:75-77 | copying by chunks is one write |
| `Pfs0.RoundTrip` | tools/build_pfs0.py:43-85 | reading the image back gives the magic PFS0, the number of files, and every name and content in order through the offsets and sizes of the entries |
| `Pfs0.RegionsAreDisjoint` | tools/build_pfs0.py:45-85 | for every list of files: header, entries, string pool and data follow each other, every entry, name and content lies in its region, and no two overlap |
| `Pfs0.DataAlignedExactlyWhen` | tools/build_npdm.py:177-178 | the data starts at a multiple of 16 if and only if the string pool already ends at one |
| `IpcParams.CalcParamsSize` | hakkun/include/hk/sf/utils.h:13-23 | the two folds compute the size |
| `IpcParams.PackInput` | hakkun/include/hk/sf/utils.h:30-42 | the resulting array has exactly that size, and every argument reads back at its offset |
| `IpcParams.LayoutIsTight` | hakkun/include/hk/sf/utils.h:13-42 | for every list of arguments: every range is aligned and inside the size, no two overlap, and the size is the least multiple of the largest alignment that covers them all |
| `IpcParams.PackedHolds` | hakkun/include/hk/sf/utils.h:33-40 | no later argument overwrites an earlier one |
| `IpcRequest.WriteToTls` | hakkun/include/hk/sf/sf.h:350-422 | the message in the buffer and its end, or an abort when it does not fit |
| `IpcRequest.Stream.Write` | hakkun/core/include/hk/util/Stream.h:74-82 | one write, or an abort out of range |
| `IpcRequest.Stream.SeekAligned` | hakkun/core/include/hk/util/Stream.h:45-50 | one aligned seek, or an abort out of range |
| `IpcRequest.Stream.WriteIterator` | hakkun/core/include/hk/util/Stream.h:127-131 | element by element is one write of all their bytes |
| `IpcRequest.PayloadFitsDeclaredWords` | hakkun/include/hk/sf/sf.h:355-414 | for every request that fits the buffer the bytes written after the descriptors, padding included, never pass four times the declared data words; the position before the padding is a multiple of 4 |
| `IpcRequest.NothingWraps` | hakkun/include/hk/sf/sf.h:355-374 | the 16-bit sums and the 10-bit field lose nothing |
| `IpcRequest.PaddedSizes` | hakkun/include/hk/sf/sf.h:390-414 | the alignments inside the payload cost no more than the 16 reserved bytes leave |
| `IpcReceive.ReceiverReads` | hakkun/include/hk/sf/sf.h:350-414 | reading the sent buffer at its places gives every field of the headers (tag, descriptor counts, data words, static mode, flags and handle counts, domain tag, object count, data size, object number, magic, version, command, token) and the handles, descriptors, data, objects and pointer sizes in order |
| `IpcReceive.MessageFits` | hakkun/include/hk/sf/sf.h:350-422 | the places of a request follow from its sizes alone, and it is sent if and only if they end within the 256 bytes |
| `Words.AlignUpIsLeast` | hakkun/core/include/hk/prim/traits/Integer.h:139 | for a power of two `alignUp` is the least multiple not below its argument |

## Left out

- The bit-level assembler and the instruction matchers: instructions are decoded values, and the emitter's choices, ranges and aborts are modelled.
- TrampolineProof.TrampolineIsFaithful: takes callees that use nothing of the link register but their return address and may lose IP0, as the procedure call standard allows, and excludes lists in which a later instruction uses a register an earlier call may have changed, and placements at which an address formed in register 31 moves the stack.
- TrampolineHook.HookedRunsOriginal: the hook itself is any function from the state in which it is entered to the one in which it enters the backup; it changes at most IP0.
- The AArch32 trampoline and AArch32 emission beyond the branch encoders.
- TrampolineLimits.BackupFitsExactly: fewer than 2^32 instructions and 2^16 words.
- EmitterProof.EmitMovRuns: buffers are below 2^16 words and do not wrap around the address space.
- SailDb.GenerateSymbolDb: starts from the sorted list; any sorted permutation is allowed for the sort, and the order of error messages is not modelled.
- SailDb.BinarySearch: index sums do not overflow 32 bits, which takes more than 2^30 records.
- SailCache.Database.Apply: what a number never written does further on is not followed: nothing is promised for records that may hold one.
- SailMeaning.CompileThenResolve: data-block fields fit a byte, and the murmur hash tells the names in use apart; a shift distance of 32 or more is taken modulo 32, as AArch64 does. For names with alternatives the condition is sufficient, since a leftover may happen to be the address meant (`SailMeaning.UnfoundBlockShadows`).
- Finding module versions by build id (`loadVersions`), and the hash functions themselves.
- DataBlock.Search: the last place searched lies below the last four bytes of the address space, and the pattern is not longer than the address of the region's end.
- ElfLookup.GnuIsScan: names are strings; the string table and its offsets are not modelled, nor is `parseDynamic`.
- Relocate.LoadedSlots: relocation and symbol tables are values, so they lie away from the words written; a module with both REL and RELA dynamic tables is not covered, since the two share one field.
- Relocate.RoModule.ResolveSymbols: the manual lookup function is a parameter; 32-bit modules are not covered.
- The typed wrapper `IntrusiveList<T>` and the parent-offset traits around the untyped list, and ExpHeap allocation.
- Hook.RoModule.WriteRo: offsets count whole instructions, address wrap-around cannot occur, and what lies behind the text mapping, when it is not the mapping of the read-only data, is not modelled: the words that go there are returned.
- Hook.RunKeeps: all hooks are on one mapped module, write no more words than they save, and save no words behind the read-only data.
- Cache maintenance, the write callback, `findRanges` (the memory scan covers the same pattern), `findBuildId`, virtual-table hooks.
- Futex.MutualExclusion: the section bumps a counter and does not panic; memory is sequentially consistent; fairness and wake-ups are not modelled.
- `Mutex.h`, `Event.h`, `SystemEvent.h` and the initialisation guard, which rest on kernel arbitration outside the repository.
- MemoryScan.ForEachAutoLoadModule: the kernel query is a lookup in the map and fails outside it.
- Pfs0.BuildPfs0: files are read as values; directories in the input are not modelled, nor is the partial file that a failure leaves.
- IpcRequest.WriteToTls: descriptors of 8 and 12 bytes are byte strings, receive statics are not written (as in the original), and printing is left out.
- Responses, services, SVC wrappers, logging, the graphics add-ons, the build and deploy scripts, and NSO and NRO headers.
