# kdeploy in Dafny

This project models kdeploy, the host-side deploy tool of kagent, and proves properties of the model. kdeploy takes a raw kernel image and a prebuilt kernel module (`.ko`). It reads ABI facts off decoded kernel code and off the kernel's exported-symbol tables. It then rewrites the module in place so that the running kernel accepts it. The model covers these parts:

- **Instruction-fingerprint scanners.** This is `disasm.cpp`, modelled in the modules `Insns` and `Disasm`. The decoded instruction stream is an abstract sequence of records. Each record holds the id, operand count, operand kinds, register, displacement, immediate and shift.
  - `get_module_layout` finds the offsets of `mod->init` and `mod->exit`.
  - On aarch64 it also applies the sentinel shift.
  - `get_kernel_symbol_size` finds the size of the exported-symbol record.
  - `arm64_decode_movn_movk` rebuilds a literal from a MOVN/MOVK run.
  - The architecture is a parameter (`Arch`), not a build-time choice.
- **Kernel self-relocation.** This is `relocate_arm64_kernel` (`Relocation`). It reads the relocation plan off the code at `__relocate_kernel`. It then makes an in-place pass over the kernel buffer that applies every `R_AARCH64_RELATIVE` entry of the ELF64 `Rela` table and skips every other type.
- **Symbol lookup.** This is `find_symbol` (both overloads) and `find_symbol_crc` (`Resolve`).
  - The search is a linear first match over one of the four record layouts of `kdeploy.h`. The absolute layouts store name pointers. The self-relative layouts store `name_offset`.
  - The tables are tried in priority order.
  - When the architecture relocates kcrctab, a 64-bit modular correction is applied to the checksum.
- **The module patcher of `main`** (kdeploy.cpp:333-571). It covers:
  - the mapping from record size to layout (`Deploy`);
  - the section scan and the rewrite of `.rela.gnu.linkonce.this_module` (`ElfModule`);
  - the exported-symbol tables and their size check (`Tables`);
  - the `__versions` checksum loop (`Versions`);
  - the two placeholder loops (`Placeholder`).

  `Deploy.Deploy` runs these stages in the source's order on the kernel image and the module buffer.
- **Helpers and layouts.** These are from `kdeploy.h` and `include/kagent/private.h` (`KernelInfo`, `Private`):
  - the packed version comparisons;
  - `ptr_of_sym`, `ptr` and `offset`, all relative to `_text`;
  - the record layouts V1..V4;
  - `SymbolTable`;
  - the two placeholders;
  - the `SymbolVersion` layout (64 bytes: an 8-byte checksum, then a 56-byte name);
  - the `KernelModule` layout, with `init` at offset 8 and `exit` at offset 16.

Machine arithmetic is written out explicitly on unbounded integers.
- `Wrap64` reduces modulo 2^64.
- `ToI32` and `ToU32` keep the low 32 bits.
- `BitOr` is bitwise OR on the low w bits.

Host pointers into the kernel buffer are modelled as 64-bit addresses. Every dereference goes through `KernelView.HostToOffset`. A read the source would make outside a buffer is an `AddressOutsideImage` error, or no match for a C-string comparison. A `throw` or an early `return -1` of the source is an `Err` of `Common.Result`.

Each stage is a method on the arrays, proved against a function on the old contents:

- `Placeholder.ReplaceAll` against `ReplacedFrom`;
- `Versions.PatchVersions` against `Outcome`;
- `ElfModule.RewriteThisModuleRela` against `RelaRewritten`;
- `Relocation.ApplyRelocations` against `Relocated`.

The lemmas beside each function state what the source promises of it. `Deploy.Deployed` is the whole run as one function.

Two behaviours of the code that the model keeps as written:
- `Disasm.GetModuleLayout` counts the `{LDR, CMP}` sentinel pairs anywhere in the decoded sequence (disasm.cpp:140-154).
- `Deploy.SelectLayout`: only a record size of 0 is fatal (kdeploy.cpp:341-343). A size outside {8, 12, 16, 24} leaves the layout as it was (kdeploy.cpp:348-361).

`main` calls the relocation routine as `arm64_relocate_kernel`, while `disasm.cpp` defines `relocate_arm64_kernel`. The model treats them as the same function.

## Model

| member | source | states |
|---|---|---|
| Common.FindFromIsFirst | disasm.cpp:132-135 | `find` returns the first occurrence of the pattern at or after the start, and none exactly when there is no occurrence there |
| Common.FirstWhereIsFirst | kdeploy.cpp:52-58 | the first-match scan returns the first index that passes the test, and -1 exactly when none does |
| Common.LastWhereIsLast | kdeploy.cpp:378-390 | the forward scan that overwrites its result keeps the last match, and none exactly when nothing matches |
| Bytes.DecodeEncodeLE | kdeploy.cpp:520 | a value stored as n little-endian bytes reads back as itself |
| Bytes.ReadOverwritten | disasm.cpp:295 | an 8-byte store reads back as the stored word |
| Bytes.ReadDisjoint | disasm.cpp:295 | an 8-byte store leaves a disjoint 8-byte word unchanged |
| Private.PlaceholderSizes | include/kagent/private.h:6-7 | VERMAGIC_PLACEHOLDER is 128 bytes (129 with its NUL); RANDOM_NAME_PLACEHOLDER is 10 bytes (11 with its NUL); neither contains a NUL |
| KernelInfo.RecordSize | kdeploy.h:103-133 | each of the four layouts has a record size of 8, 12, 16 or 24 bytes |
| KernelInfo.NameField | kdeploy.h:103-133 | the name field (pointer or name_offset) lies inside the record |
| KernelInfo.PackedValue | kdeploy.h:66-67 | for parts that fit their fields, the packed version is major·2^24 + minor·2^16 + revision |
| KernelInfo.VersionTrichotomy | kdeploy.h:64-83 | exactly one of old/equal/new holds for any two versions; `version_old_then` is irreflexive and transitive, and it is the converse of `version_new_then` |
| KernelInfo.SignExtensionKeepsOrder | kdeploy.h:64-76 | sign-extending the packed int to uintptr_t keeps both the order and equality of the 32-bit patterns |
| KernelInfo.VersionOrderIsLexicographic | kdeploy.h:66-67 | for major and minor below 256 and revision below 65536, the packed value is major·2^24 + minor·2^16 + revision, the comparison is the lexicographic order on (major, minor, revision), and equality is equality of the parts |
| KernelInfo.PtrOfSymIsPtrOfOffset | kdeploy.h:46-62 | `ptr_of_sym(a) == ptr(offset(a))` |
| KernelInfo.TranslationsInvert | kdeploy.h:46-62 | `offset` is inverted by adding `_text` back; host pointer and buffer offset translate into each other both ways |
| KernelInfo.AnchorIsOrigin | kdeploy.h:58-62 | `offset(sym_text) == 0`, and the address `_text + o` has offset o |
| KernelInfo.KernelImage.constructor | kdeploy.h:18-44 | a fresh image has no layout, no relocation, and zero default base and slide |
| KernelInfo.KernelImage.View | kdeploy.h:18-44 | the value view of the image holds the buffer contents and the layout tag |
| Disasm.DecodeMovnMovk | disasm.cpp:23-46 | false, with the output untouched, exactly when count is 0 or the first instruction is not MOVN; otherwise `(~imm0 << sh0)` OR'd with `imm_i << sh_i` for the maximal MOVK run within count |
| Disasm.MovkRunEndIsFirstNonMovk | disasm.cpp:38 | the MOVK loop stops at the first non-MOVK instruction or at count |
| Disasm.IdiomDecodes | disasm.cpp:253-259 | the MOVN/MOVK/MOVK idiom of `__relocate_kernel` decodes to its three halfwords placed at bits 32, 16 and 0 |
| Disasm.DecodeDefaultBaseIdiom | disasm.cpp:257-259 | every default base at or above 0xFFFF_0000_0000_0000 has an idiom that the decoder turns back into it |
| Disasm.DecoderMatchesArchitectureOnIdiom | disasm.cpp:33-42 | on the idiom, the decoder's result equals what the architectural MOVN and MOVK leave in the register |
| Disasm.DecoderDiffersOnLoneShiftedMovn | disasm.cpp:35-36 | a lone `MOVN x, #0, lsl #16` decodes to 0xFFFF_FFFF_FFFF_0000, while the architectural MOVN gives all ones, since the decoder shifts after negating |
| Disasm.Opcodes | disasm.cpp:90-93 | one opcode per decoded instruction, in order |
| Disasm.Probes | disasm.cpp:90-122 | one probe per decoded instruction, in order: the LDR memory disp, the CMP immediate, the x86 CMP memory disp, or 0 |
| Disasm.Fingerprint | disasm.cpp:90-122 | the push_back loop builds exactly the opcode and probe sequences |
| Disasm.SentinelHitsCountsAll | disasm.cpp:144-154 | the `find`-and-skip walk counts exactly the {LDR, CMP} pairs with probes (-8, 3) |
| Disasm.ShiftBySentinels | disasm.cpp:140-156 | each offset ends up as its start value plus 8 per sentinel pair, narrowed to int32 |
| Disasm.GetModuleLayout | disasm.cpp:48-159 | an empty decode fails, a missing LDR/CBZ/LDR/CBNZ (or CMP/JE/CMP/JE) window fails, and otherwise init and exit are the probes at the first window's positions 0 and 2, shifted on aarch64 only |
| Disasm.SentinelShiftKeepsDistance | disasm.cpp:149-152 | when neither shifted offset overflows an int, the sentinel shift keeps `exit - init` modulo 2^64 |
| Disasm.FirstSizeLoadIsFirst | disasm.cpp:193-219 | the result is the immediate of the first `MOV X3/ECX, #imm`, and 0 when there is none |
| Disasm.FirstSizeLoadNone | disasm.cpp:193-219 | with no `MOV X3/ECX, #imm` from i on, the scan reports 0 |
| Disasm.FirstSizeLoadAt | disasm.cpp:193-219 | when the first `MOV X3/ECX, #imm` from i on is at k, the scan reports its immediate |
| Disasm.SizeLoadResultIsFirst | disasm.cpp:178-222 | an empty decode is an error exactly; otherwise the result is the first size load's immediate, or 0 when there is none |
| Disasm.GetKernelSymbolSize | disasm.cpp:161-223 | the loop returns the first size load's immediate, 0 without one, and an error on an empty decode |
| Relocation.LiteralAt | disasm.cpp:270-271 | a literal-pool word is read exactly when its 4 bytes lie in the kernel buffer |
| Relocation.Plan | disasm.cpp:266-288 | an empty decode, and a first instruction other than LDR (ADR included), fail; the slide is `(buffer - load_offset) - default_base` mod 2^64 |
| Relocation.PlanLiteralFails | disasm.cpp:270-271 | a literal outside the buffer stops the relocation with its error |
| Relocation.PlanOk | disasm.cpp:269-288 | with both literals readable, the plan holds `rela_offset - load_offset`, `rela_size`, the decoded default base (0 when the decoder fails) and the slide |
| Relocation.Relocated | disasm.cpp:290-301 | the relocation pass keeps the buffer length |
| Relocation.ApplyRelocations | disasm.cpp:290-301 | the loop over the Rela entries leaves exactly the buffer `Relocated` gives, and reports whether every read and write stayed in the buffer |
| Relocation.ReadPlan | disasm.cpp:266-288 | reading the prologue gives exactly the plan |
| Relocation.RelocateArm64Kernel | disasm.cpp:225-312 | a failed plan changes nothing; otherwise the image is relocated, and `ARCH_RELOCATES_KCRCTAB`, `kaslr` and `default_base` are set from the plan |
| Relocation.TargetIsLinkOffset | disasm.cpp:291 | a RELATIVE write lands at `r_offset - (load_offset + default_base)` in the buffer |
| Relocation.ValuePointsIntoBuffer | disasm.cpp:292 | the stored value is the buffer address plus `r_addend - (load_offset + default_base)` |
| Relocation.NoRelativeEntriesChangeNothing | disasm.cpp:293-300 | a table with no RELATIVE entry leaves the image as it was |
| Relocation.AppliedEntryReadsBack | disasm.cpp:294-296 | after a RELATIVE entry is applied, its target reads back as slide + addend |
| Relocation.RelocatedKeepsUnwritten | disasm.cpp:290-301 | a buffer byte outside every word the pass stores to (`Writes`, in order) is the same after the pass |
| Relocation.RelocatedKeepsWord | disasm.cpp:290-301 | when the RELATIVE targets are apart from each other and from the table, a word none of them overlaps reads the same after the pass |
| Relocation.RelocatedStoresEachEntry | disasm.cpp:290-301 | when the pass completes and the RELATIVE targets are apart from each other and from the table, every RELATIVE entry's target word reads back as slide + `r_addend` |
| Relocation.StepKeepsTable | disasm.cpp:293-296 | a store apart from the table leaves every later entry as it was, and the later targets stay apart from each other and from the stored word |
| Resolve.WalkIsWrap | kdeploy.cpp:52 | i steps of `++iter` over records of size n reach `begin + i·n` mod 2^64 |
| Resolve.FirstNamedIsFirst | kdeploy.cpp:50-75 | the search result is the first record whose name equals the query, and -1 exactly when no record's does |
| Resolve.OffsetWalkEnds | kdeploy.cpp:52 | on a checked table, the `iter != end` walk reaches end exactly after the table's record count |
| Resolve.AbsWalkBound | kdeploy.cpp:66 | the `iter < end` walk visits exactly the records that start below end |
| Resolve.FindSymbolByOffset | kdeploy.cpp:47-59 | the self-relative search returns the first record whose name (at the address of name_offset plus its signed value) is the query, or -1, and any index is in [0, count) |
| Resolve.FindSymbolAbsolute | kdeploy.cpp:61-75 | the absolute search returns the first record whose name pointer names the query, or -1, and any index is in [0, count) |
| Resolve.CrcAt | kdeploy.cpp:113-124 | the checksum at the hit's index in the crc array fails only when it lies outside the image |
| Resolve.LookupTable | kdeploy.cpp:84-108 | the layout switch runs the `find_symbol` overload of the image's layout |
| Resolve.FindSymbolCrc | kdeploy.cpp:77-128 | the loop over the tables returns exactly `CrcOf` |
| Resolve.CrcSkipsMisses | kdeploy.cpp:82-112 | tables without a hit do not affect the result |
| Resolve.FirstHitWins | kdeploy.cpp:82-125 | the first table with a hit decides, with the checksum at the same index of that table's crc array |
| Resolve.NotFoundIsFalseZero | kdeploy.cpp:126-127 | the result is (false, 0) exactly when there are no tables, or when the layout is known and no table has a hit |
| Resolve.UnknownLayoutFails | kdeploy.cpp:109-110 | with no layout, the first table scanned throws |
| Resolve.CorrectionUndoesBias | kdeploy.cpp:115-124 | with `ARCH_RELOCATES_KCRCTAB` set, the result plus `_text - load_offset - default_base` is the raw word mod 2^64; otherwise it is the raw word |
| Resolve.HostDistance | kdeploy.h:46-50 | `ptr_of_sym` keeps the wrapped distance between two addresses |
| ElfModule.ReadHeader | kdeploy.cpp:368-370 | a header read succeeds only when every section header the scan reads is in the file |
| ElfModule.LastNamedIsLast | kdeploy.cpp:378-390 | a section name that repeats resolves to its last occurrence, and to none exactly when no section has the name |
| ElfModule.ScanSections | kdeploy.cpp:366-390 | the scan records exactly the last `.rela.gnu.linkonce.this_module`, `__versions` and `.kagent.runtime.information` sections |
| ElfModule.NewOffsetMovesOnlyInitExit | kdeploy.cpp:399-404 | only r_offset 8 and 16 move; 8 becomes init, then becomes exit when init is 16; 16 becomes exit |
| ElfModule.TwoTestsStep | kdeploy.cpp:399-404 | the two sequential ifs on one entry are a single store of the new r_offset |
| ElfModule.RewriteThisModuleRela | kdeploy.cpp:397-405 | the loop leaves exactly the rewritten file |
| ElfModule.RelaRewriteField | kdeploy.cpp:397-405 | entry k's r_offset becomes the new offset of its old value |
| ElfModule.RelaRewriteFrame | kdeploy.cpp:397-405 | every byte outside the r_offset fields is unchanged |
| Placeholder.Field | kdeploy.cpp:555-556 | the field holds the replacement, followed by zeros up to the placeholder's length |
| Placeholder.ClearThenCopy | kdeploy.cpp:555-556 | memset then memcpy writes exactly that field |
| Placeholder.FullLengthFieldIsReplacement | kdeploy.cpp:567-568 | an 11-byte name fills the whole field, its NUL included |
| Placeholder.ReplacedFrom | kdeploy.cpp:550-558 | the rewrite from a position is as long as the rest of the buffer |
| Placeholder.OccurrencesMatch | kdeploy.cpp:551 | each recorded position holds the placeholder |
| Placeholder.OccurrencesAreGreedy | kdeploy.cpp:550-558 | every occurrence of the placeholder meets a recorded field, since the search resumes right after each field |
| Placeholder.OccurrencesApart | kdeploy.cpp:557 | the recorded fields do not overlap |
| Placeholder.ReplacedIsSpliced | kdeploy.cpp:550-558 | the result is the buffer with each recorded field spliced in |
| Placeholder.ReplacedInside | kdeploy.cpp:555-556 | inside a recorded field, the result holds the field's bytes |
| Placeholder.ReplacedOutside | kdeploy.cpp:548-558 | outside every recorded field, bytes are unchanged |
| Placeholder.ContinuedIsReplaced | kdeploy.cpp:550-557 | going on from a resume point, one write per occurrence on the buffer as it then is, keeps the bytes before the point and yields the rewrite after it |
| Placeholder.ContinuedFromStart | kdeploy.cpp:548-558 | the loop's write-by-write account from the start of the buffer is the whole rewrite |
| Placeholder.ClearAndCopy | kdeploy.cpp:555-556 | the buffer afterwards is the old bytes before the occurrence, the field, then the old bytes after it |
| Placeholder.ReplaceAll | kdeploy.cpp:548-558 | the memmem/memset/memcpy loop leaves exactly the rewritten buffer |
| Tables.TablesOfSelects | kdeploy.cpp:427-469 | a section's table is listed exactly when its `__start___kcrctab*` symbol is nonzero |
| Tables.TablesOfOrder | kdeploy.cpp:427-469 | of two tables in the list, the earlier one's suffix comes earlier in `_gpl_future`, `_gpl`, the empty suffix |
| Tables.TablesOfShorterNames | kdeploy.cpp:427-469 | along the list the table names grow shorter: `ksymtab_gpl_future`, `ksymtab_gpl`, `ksymtab` |
| Tables.TablesOfShape | kdeploy.cpp:427-469 | at most three tables, each one the table of a present section |
| Tables.Filled | kdeploy.cpp:471-483 | the pointer fill keeps the number of tables |
| Tables.FillPointers | kdeploy.cpp:471-483 | the loop stores `ptr_of_sym` of each bound |
| Tables.FilledKeepsDistances | kdeploy.cpp:479-482 | filling changes only the pointers, and keeps each table's symbol size |
| Tables.CheckTables | kdeploy.cpp:485-506 | the check passes exactly when every table's `stop - start` is a multiple of the selected record size, and otherwise fails with the size error |
| Tables.FilledFits | kdeploy.cpp:479-506 | the size check sees the same result before and after the fill |
| Tables.FitTablesAreWalkable | kdeploy.cpp:485-506 | tables that pass the check can be walked by the self-relative search |
| Versions.FailureIsFirst | kdeploy.cpp:512-525 | the loop stops at the first lookup that throws, and runs to the end exactly when none does |
| Versions.PatchEntry | kdeploy.cpp:517-524 | one iteration stores a found checksum, leaves a missing one, and fails with the lookup's error |
| Versions.PatchVersions | kdeploy.cpp:512-525 | the loop leaves exactly the patched section, or reports the first lookup error |
| Versions.FoundCrcStored | kdeploy.cpp:519-520 | a found symbol's crc field holds its checksum |
| Versions.MissingCrcKept | kdeploy.cpp:522-524 | a missing symbol's crc field keeps its old value |
| Versions.PatchedAt | kdeploy.cpp:520 | each crc field holds its new or its old 8 bytes |
| Versions.PatchedElsewhere | kdeploy.cpp:512-525 | bytes outside the crc fields, the names among them, are never modified |
| Versions.OutcomeStoresEachCrc | kdeploy.cpp:512-525 | after a full run, every entry's crc field holds the checksum found for its name, or its old value when the name is not found |
| Versions.OutcomeFailsAtFirstError | kdeploy.cpp:512-525 | the loop fails exactly when some entry's lookup throws, and with the first such error |
| Versions.OutcomeKeepsOtherBytes | kdeploy.cpp:512-525 | the loop keeps the length, and every byte outside the crc fields |
| Deploy.LayoutForMatchesRecordSize | kdeploy.cpp:347-361 | sizes 8, 12, 16 and 24 select the layout of exactly that record size; any other size leaves the layout unchanged |
| Deploy.BeforeRelativeRecordsIsOlderThan | kdeploy.cpp:335 | the test against the packed constant is `version_old_then(4, 19, 0)` |
| Deploy.OldKernelsUseV1 | kdeploy.cpp:335-336 | kernels before 4.19.0 get the 16-byte V1 records, whatever the code holds |
| Deploy.NoSizeLoadIsRefused | kdeploy.cpp:338-343 | a newer kernel whose `module_get_kallsym` has no size load is refused |
| Deploy.KernelSymbolSize | kdeploy.cpp:333-339 | the symbol size is 16 before 4.19.0, and otherwise what `get_kernel_symbol_size` reads |
| Deploy.SelectLayout | kdeploy.cpp:333-364 | the chosen layout, or the size-0 error |
| Deploy.PrepareModule | kdeploy.cpp:366-405 | a missing header, a missing this_module rela section or an out-of-file rela table fails with the module unchanged; otherwise the sections are found and the rela entries rewritten |
| Deploy.RelocateKernel | kdeploy.cpp:407-420 | the kernel is relocated only for V1 or V4 with `__relocate_kernel` known |
| Deploy.RelocateOnlyAbsoluteLayouts | kdeploy.cpp:409-420 | for V2, V3, no layout, or no `__relocate_kernel`, the image is unchanged |
| Deploy.PatchChecksums | kdeploy.cpp:425-525 | the tables, their size check and the checksum loop, exactly as the stage function gives them |
| Deploy.ReplacePlaceholders | kdeploy.cpp:543-571 | both placeholder loops, vermagic first and then the name |
| Deploy.CompletedNeedsThisModuleRela | kdeploy.cpp:392-395 | a module without `.rela.gnu.linkonce.this_module` is refused before the kernel is relocated |
| Deploy.PatchModule | kdeploy.cpp:366-571 | the stages after layout selection leave exactly the module of `Completed`, or report its error |
| Deploy.Deploy | kdeploy.cpp:316-571 | the whole run leaves exactly the module of `Deployed`, or reports its error |

## Left out

- The Capstone calls (`cs_open`, `cs_disasm`, `cs_free`). The decoded instructions are an input sequence.
- `find_symbol_crc_unicorn.cpp`, which drives the Unicorn CPU emulator.
- Command-line parsing, boot-partition gzip extraction, the `kptr_restrict` write, the `/proc/kallsyms` read and the output file write. These are I/O. The kernel's symbol directory is an input map, and a missing name gives 0, as `find_symbol` does.
- The `sscanf` version parse and its "Invalid vermagic" exit (kdeploy.cpp:325-328). The kernel version and the vermagic string read from the kernel are inputs.
- The runtime-information fill (kdeploy.cpp:528-540). `arm64_get_mm_pgd_offset` is not part of this model. The section scan still locates `.kagent.runtime.information`.
- `get_random_string`, which is randomness. The name is an input of length 11, matching `sizeof(RANDOM_NAME_PLACEHOLDER)`. utils.cpp:28 stores the random index rather than `charset[index]`; that is outside this model.
- The ADR form of `__relocate_kernel` (RELR relocations). The source throws "TODO" for it, and the model returns an error.
- Logging, and the "Unsupported kernel relocation method" warning.
- Deploy.ReplacePlaceholders: each `memmem` call is given the whole buffer length from the current position. That reads past the end of the buffer. The model searches only the remaining bytes.
- Deploy.Deploy: requires `|vermagic| <= 129`. The source's `memcpy` of the whole vermagic string into the 129-byte field is not truncated, so a longer one writes past the field.
- Relocation.RelocateArm64Kernel: requires that a decode of `__relocate_kernel` starting with LDR holds at least five instructions. The source reads `insn[0]` to `insn[4]` without checking the count. `Deploy.Deploy` carries the same precondition.
- Resolve.FindSymbolByOffset: requires the table to be walkable, that is, its wrapped size is a multiple of the record size. Otherwise the source's `iter != end` loop runs past end. The size check in `main` guarantees this before any lookup.
- Relocation.RelocatedStoresEachEntry: states the final value of each target only when the RELATIVE targets overlap neither each other nor the table. For overlapping tables `Relocated` still gives the exact buffer, with entries read as earlier stores left them and later stores winning, but no per-entry result is stated.
- Relocation.ApplyRelocations: a write or read outside the kernel buffer stops the pass with `AddressOutsideImage`. The source writes through the raw pointer.
- Resolve.CrcAt: a checksum read outside the kernel image is `AddressOutsideImage`. The source dereferences the pointer.
- ElfModule.ReadHeader: a module too short for its section headers is refused with `AddressOutsideImage`. The source reads them unchecked.
- Disasm.ShiftBySentinels: sums the int offsets exactly and narrows them to int32 once at the end. `Disasm.SentinelStep` shows this equals narrowing after each `+= 8`. Signed overflow there is undefined behaviour in C++ anyway.
- Symbol names in the kernel image and section names in the module are compared with `Bytes.NameAt`. A name that runs past the end of its buffer counts as no match there. The source reads on.
- Versions.EntryName: a `__versions` name with no NUL before the end of the module file is cut at the end of the file, and the cut name is looked up. The source's `std::string_view` (kdeploy.cpp:517) reads on past the buffer.
