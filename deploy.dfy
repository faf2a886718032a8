/** The run of main (kdeploy.cpp:315-571) from the decoded kernel functions
    to the patched module: the struct layouts read off the kernel code,
    the this_module relocations, the relocation of the kernel image, the
    exported-symbol tables, the checksum patch and the two placeholders.
    Each stage is a function of what the earlier ones produced; Deploy
    runs them in the source's order on the two buffers. */
module Deploy {
  import opened Common
  import opened Bytes
  import opened Insns
  import opened KernelInfo
  import opened Private
  import opened Disasm
  import opened Relocation
  import opened ElfModule
  import opened Placeholder
  import opened Tables
  import opened Resolve
  import opened Versions

  // ---------------------------------------------------------------------------
  // The symbol record layout

  /** The switch on kernel_symbol_size: the layout with that record size,
      and the layout already set for any other size. */
  function LayoutFor(size: U64, prior: Layout): Layout
  {
    if size == 8 then V2
    else if size == 16 then V1
    else if size == 12 then V3
    else if size == 24 then V4
    else prior
  }

  /** The switch picks the layout whose records have exactly that size,
      and leaves the layout alone for a size no layout has. */
  lemma LayoutForMatchesRecordSize(size: U64, prior: Layout)
    ensures size in {8, 12, 16, 24} ==> LayoutFor(size, prior) != NoLayout && RecordSize(LayoutFor(size, prior)) == size
    ensures size !in {8, 12, 16, 24} ==> LayoutFor(size, prior) == prior
  {
  }

  /** The packed form of 4.19.0, the first version whose records may hold
      relative offsets instead of pointers. */
  const PACKED_4_19_0: U64 := 0x0413_0000

  /** version_old_then(4, 19, 0), against the packed constant. */
  predicate BeforeRelativeRecords(version: Version)
  {
    Packed(version) < PACKED_4_19_0
  }

  lemma BeforeRelativeRecordsIsOlderThan(version: Version)
    ensures BeforeRelativeRecords(version) <==> OlderThan(version, Version(4, 19, 0))
  {
    PackedValue(Version(4, 19, 0));
  }

  /** kernel_symbol_size: two pointers before 4.19.0, otherwise what
      get_kernel_symbol_size reads off module_get_kallsym. */
  function SymbolSize(version: Version, arch: Arch, kallsymCode: seq<Insn>): Result<U64>
  {
    if BeforeRelativeRecords(version) then Ok(16) else SizeLoadResult(arch, kallsymCode)
  }

  /** The layout main settles on, or the error that stops it. */
  function SelectedLayout(version: Version, arch: Arch, kallsymCode: seq<Insn>, prior: Layout): Result<Layout>
  {
    var size :- SymbolSize(version, arch, kallsymCode);
    if size == 0 then Err(SymbolSizeNotFound) else Ok(LayoutFor(size, prior))
  }

  /** Kernels before 4.19.0 get the 16-byte absolute records of V1, whatever
      module_get_kallsym holds. */
  lemma OldKernelsUseV1(version: Version, arch: Arch, kallsymCode: seq<Insn>, prior: Layout)
    requires BeforeRelativeRecords(version)
    ensures SelectedLayout(version, arch, kallsymCode, prior) == Ok(V1)
  {
  }

  /** A newer kernel with no size load in module_get_kallsym is refused. */
  lemma NoSizeLoadIsRefused(version: Version, arch: Arch, kallsymCode: seq<Insn>, prior: Layout)
    requires !BeforeRelativeRecords(version)
    requires forall k :: 0 <= k < |kallsymCode| ==> !IsSizeLoad(arch, kallsymCode[k])
    ensures SelectedLayout(version, arch, kallsymCode, prior).Err?
  {
    SizeLoadResultIsFirst(arch, kallsymCode);
  }

  /** The symbol-size block of main. */
  method KernelSymbolSize(version: Version, arch: Arch, kallsymCode: seq<Insn>) returns (r: Result<U64>)
    ensures r == SymbolSize(version, arch, kallsymCode)
  {
    BeforeRelativeRecordsIsOlderThan(version);
    if OlderThan(version, Version(4, 19, 0)) {
      return Ok(16);
    }
    r := GetKernelSymbolSize(arch, kallsymCode);
  }

  /** The symbol-size block of main and the switch after it. */
  method SelectLayout(version: Version, arch: Arch, kallsymCode: seq<Insn>, prior: Layout) returns (r: Result<Layout>)
    ensures r == SelectedLayout(version, arch, kallsymCode, prior)
  {
    var size :- KernelSymbolSize(version, arch, kallsymCode);
    if size == 0 {
      return Err(SymbolSizeNotFound);
    }
    var layout := prior;
    if size == 8 {
      layout := V2;
    } else if size == 16 {
      layout := V1;
    } else if size == 12 {
      layout := V3;
    } else if size == 24 {
      layout := V4;
    }
    assert layout == LayoutFor(size, prior);
    return Ok(layout);
  }

  // ---------------------------------------------------------------------------
  // The module's sections and this_module's relocations

  /** The section scan and the rela rewrite: the sections found and the
      file with mod->init and mod->exit relocated, or the error that stops
      the run. A table with no entries is not touched. */
  function RelaStage(ko: seq<byte>, offs: FieldOffsets): Result<(Sections, seq<byte>)>
  {
    var h :- ReadHeader(ko);
    var secs := Scanned(ko, h);
    match secs.rela
    case None => Err(ThisModuleRelaMissing)
    case Some(rela) =>
      var n := rela.size / RELA_ENTRY_SIZE;
      if n == 0 then Ok((secs, ko))
      else if rela.offset + 24 * n > |ko| then Err(AddressOutsideImage)
      else Ok((secs, RelaRewritten(ko, rela.offset, n, offs.init, offs.exit)))
  }

  /** The section block of main up to the rela loop. */
  method PrepareModule(ko: array<byte>, offs: FieldOffsets) returns (r: Result<Sections>)
    modifies ko
    ensures RelaStage(old(ko[..]), offs).Err? ==>
      r == Err(RelaStage(old(ko[..]), offs).error) && ko[..] == old(ko[..])
    ensures RelaStage(old(ko[..]), offs).Ok? ==>
      r == Ok(RelaStage(old(ko[..]), offs).value.0) && ko[..] == RelaStage(old(ko[..]), offs).value.1
  {
    var header := ReadHeader(ko[..]);
    if header.Err? {
      return Err(header.error);
    }
    var secs := ScanSections(ko, header.value);
    if secs.rela.None? {
      return Err(ThisModuleRelaMissing);
    }
    var rela := secs.rela.value;
    var n := rela.size / RELA_ENTRY_SIZE;
    if n > 0 {
      if rela.offset + 24 * n > ko.Length {
        return Err(AddressOutsideImage);
      }
      RewriteThisModuleRela(ko, rela.offset, n, offs.init, offs.exit);
    }
    return Ok(secs);
  }

  // ---------------------------------------------------------------------------
  // Relocating the kernel image

  /** The kernel image the lookups read: relocated by the code at
      __relocate_kernel when the layout is V1 or V4 and the symbol is
      known, otherwise as it was. */
  function Relocate(kv: KernelView, dir: SymbolDirectory, relocCode: seq<Insn>): Result<KernelView>
    requires |relocCode| > 0 && relocCode[0].id == Ldr ==> |relocCode| >= 5
  {
    if (kv.layout == V1 || kv.layout == V4) && Lookup(dir, "__relocate_kernel") != 0 then
      var p :- Plan(kv.image, kv.bufferAddr, kv.loadOffset, relocCode);
      var out := Relocated(kv.image, kv.bufferAddr, p.kaslr, p.relaOffset, p.relaSize, 0);
      if out.1 then Ok(kv.(image := out.0, defaultBase := p.defaultBase, relocatesKcrctab := true))
      else Err(AddressOutsideImage)
    else Ok(kv)
  }

  /** The relocation block of main. */
  method RelocateKernel(ki: KernelImage, dir: SymbolDirectory, relocCode: seq<Insn>) returns (r: Result<()>)
    requires |relocCode| > 0 && relocCode[0].id == Ldr ==> |relocCode| >= 5
    modifies ki, ki.buffer
    ensures ki.buffer == old(ki.buffer) && ki.version == old(ki.version)
    ensures r.Ok? <==> Relocate(old(ki.View()), dir, relocCode).Ok?
    ensures r.Ok? ==> ki.View() == Relocate(old(ki.View()), dir, relocCode).value
    ensures r.Err? ==> r.error == Relocate(old(ki.View()), dir, relocCode).error
  {
    if (ki.layout == V1 || ki.layout == V4) && Lookup(dir, "__relocate_kernel") != 0 {
      var relocated := RelocateArm64Kernel(ki, relocCode);
      if relocated.Err? {
        return Err(relocated.error);
      }
    }
    return Ok(());
  }

  /** Layouts V2 and V3 and a kernel without __relocate_kernel are never
      relocated. */
  lemma RelocateOnlyAbsoluteLayouts(kv: KernelView, dir: SymbolDirectory, relocCode: seq<Insn>)
    requires |relocCode| > 0 && relocCode[0].id == Ldr ==> |relocCode| >= 5
    requires kv.layout in {NoLayout, V2, V3} || Lookup(dir, "__relocate_kernel") == 0
    ensures Relocate(kv, dir, relocCode) == Ok(kv)
  {
  }

  // ---------------------------------------------------------------------------
  // The checksums

  /** The tables, their size check, and the checksum loop over the
      __versions entries (none when the module has no such section). */
  function ChecksumStage(kv: KernelView, dir: SymbolDirectory, ko: seq<byte>, versions: Option<Section>): Result<seq<byte>>
  {
    var tables := Filled(kv, TablesOf(dir));
    if !TablesFit(kv.layout, tables) then Err(WrongSymbolTableSize)
    else match versions
      case None => Ok(ko)
      case Some(v) =>
        var n := v.size / SYMBOL_VERSION_SIZE;
        if n == 0 then Ok(ko)
        else if v.offset + 64 * n > |ko| then Err(AddressOutsideImage)
        else Outcome(kv, tables, ko, v.offset, n)
  }

  /** The table block and the checksum loop of main. */
  method PatchChecksums(ko: array<byte>, kv: KernelView, dir: SymbolDirectory, versions: Option<Section>)
    returns (r: Result<()>)
    modifies ko
    ensures r.Ok? <==> ChecksumStage(kv, dir, old(ko[..]), versions).Ok?
    ensures r.Ok? ==> ko[..] == ChecksumStage(kv, dir, old(ko[..]), versions).value
    ensures r.Err? ==> r.error == ChecksumStage(kv, dir, old(ko[..]), versions).error
  {
    var tables := FillPointers(kv, TablesOf(dir));
    var fit := CheckTables(kv.layout, tables);
    if fit.Err? {
      return Err(fit.error);
    }
    if versions.None? || versions.value.size / SYMBOL_VERSION_SIZE == 0 {
      return Ok(());
    }
    var v := versions.value;
    var n := v.size / SYMBOL_VERSION_SIZE;
    if v.offset + 64 * n > ko.Length {
      return Err(AddressOutsideImage);
    }
    FilledFits(kv, TablesOf(dir));
    FitTablesAreWalkable(kv, TablesOf(dir));
    r := PatchVersions(ko, v.offset, n, kv, tables);
  }

  // ---------------------------------------------------------------------------
  // The placeholders

  /** The module after both placeholder loops: every VERMAGIC_PLACEHOLDER
      (with its NUL) cleared and given the kernel's vermagic, then every
      RANDOM_NAME_PLACEHOLDER cleared and given the random name. */
  function Placeholders(ko: seq<byte>, vermagic: seq<byte>, name: seq<byte>): (r: seq<byte>)
    requires |vermagic| <= 129 && |name| <= 11
  {
    PlaceholderSizes();
    ReplacedFrom(ReplacedFrom(ko, WithNul(VermagicPlaceholder()), vermagic, 0), WithNul(RandomNamePlaceholder()), name, 0)
  }

  /** The two placeholder loops of main. */
  method ReplacePlaceholders(ko: array<byte>, vermagic: seq<byte>, name: seq<byte>)
    requires |vermagic| <= 129 && |name| <= 11
    modifies ko
    ensures ko[..] == Placeholders(old(ko[..]), vermagic, name)
  {
    PlaceholderSizes();
    ReplaceAll(ko, WithNul(VermagicPlaceholder()), vermagic);
    ReplaceAll(ko, WithNul(RandomNamePlaceholder()), name);
  }

  // ---------------------------------------------------------------------------
  // The whole run

  /** The module main writes out once the layouts are known, or the error
      that stops it, for a kernel image kv with its record layout set, the
      offsets of mod->init and mod->exit, the kernel's symbol directory,
      the decode of __relocate_kernel, the module file ko, the vermagic
      read from the kernel and the random name. */
  function Completed(kv: KernelView, offs: FieldOffsets, dir: SymbolDirectory, relocCode: seq<Insn>,
                   ko: seq<byte>, vermagic: seq<byte>, name: seq<byte>): Result<seq<byte>>
    requires |relocCode| > 0 && relocCode[0].id == Ldr ==> |relocCode| >= 5
    requires |vermagic| <= 129 && |name| <= 11
  {
    var prepared :- RelaStage(ko, offs);
    var relocated :- Relocate(kv, dir, relocCode);
    var patched :- ChecksumStage(relocated, dir, prepared.1, prepared.0.versions);
    Ok(Placeholders(patched, vermagic, name))
  }

  /** The module main writes out, or the error that stops it, for a kernel
      image kv0 of the given version, the decodes of sys_delete_module,
      module_get_kallsym and __relocate_kernel, the kernel's symbol
      directory, the module file ko, the vermagic read from the kernel and
      the random name. */
  function Deployed(kv0: KernelView, version: Version, arch: Arch, dir: SymbolDirectory,
                    deleteCode: seq<Insn>, kallsymCode: seq<Insn>, relocCode: seq<Insn>,
                    ko: seq<byte>, vermagic: seq<byte>, name: seq<byte>): Result<seq<byte>>
    requires |relocCode| > 0 && relocCode[0].id == Ldr ==> |relocCode| >= 5
    requires |vermagic| <= 129 && |name| <= 11
  {
    var offs :- ModuleLayout(arch, deleteCode);
    var layout :- SelectedLayout(version, arch, kallsymCode, kv0.layout);
    Completed(kv0.(layout := layout), offs, dir, relocCode, ko, vermagic, name)
  }

  /** A module without this_module's relocation section is refused once
      the kernel's layouts are known, before the kernel is relocated. */
  lemma CompletedNeedsThisModuleRela(kv: KernelView, offs: FieldOffsets, dir: SymbolDirectory, relocCode: seq<Insn>,
                                   ko: seq<byte>, vermagic: seq<byte>, name: seq<byte>)
    requires |relocCode| > 0 && relocCode[0].id == Ldr ==> |relocCode| >= 5
    requires |vermagic| <= 129 && |name| <= 11
    requires ReadHeader(ko).Ok? && Scanned(ko, ReadHeader(ko).value).rela.None?
    ensures Completed(kv, offs, dir, relocCode, ko, vermagic, name) == Err(ThisModuleRelaMissing)
  {
  }

  /** main after the layouts are known: the section block, the relocation
      of the kernel, the checksums and the placeholders. */
  method PatchModule(ki: KernelImage, ko: array<byte>, offs: FieldOffsets, dir: SymbolDirectory,
                     relocCode: seq<Insn>, vermagic: seq<byte>, name: seq<byte>)
    returns (r: Result<()>)
    requires ko != ki.buffer
    requires |relocCode| > 0 && relocCode[0].id == Ldr ==> |relocCode| >= 5
    requires |vermagic| <= 129 && |name| <= 11
    modifies ki, ki.buffer, ko
    ensures ki.version == old(ki.version)
    ensures Reports(r, ko[..], Completed(old(ki.View()), offs, dir, relocCode, old(ko[..]), vermagic, name))
  {
    var secs :- PrepareModule(ko, offs);
    var relocated := RelocateKernel(ki, dir, relocCode);
    if relocated.Err? {
      return Err(relocated.error);
    }
    var patched := PatchChecksums(ko, ki.View(), dir, secs.versions);
    if patched.Err? {
      return Err(patched.error);
    }
    ReplacePlaceholders(ko, vermagic, name);
    return Ok(());
  }

  /** main from get_module_layout to the placeholder loops, on the kernel
      image ki and the module buffer ko. */
  method Deploy(ki: KernelImage, ko: array<byte>, arch: Arch, dir: SymbolDirectory,
                deleteCode: seq<Insn>, kallsymCode: seq<Insn>, relocCode: seq<Insn>,
                vermagic: seq<byte>, name: seq<byte>)
    returns (r: Result<()>)
    requires ko != ki.buffer
    requires |relocCode| > 0 && relocCode[0].id == Ldr ==> |relocCode| >= 5
    requires |vermagic| <= 129 && |name| == 11
    modifies ki, ki.buffer, ko
    ensures Reports(r, ko[..], Deployed(old(ki.View()), old(ki.version), arch, dir, deleteCode, kallsymCode, relocCode,
                                        old(ko[..]), vermagic, name))
  {
    ghost var kv0 := ki.View();
    var offs :- GetModuleLayout(arch, deleteCode);
    var layout :- SelectLayout(ki.version, arch, kallsymCode, ki.layout);
    ki.layout := layout;
    assert ki.View() == kv0.(layout := layout);
    r := PatchModule(ki, ko, offs, dir, relocCode, vermagic, name);
  }
}
