/** The parts of main that read and edit the module file (.ko) as ELF64:
    locating sections by name in the section header table, and moving the
    relocations of mod->init and mod->exit in
    .rela.gnu.linkonce.this_module to the kernel's field offsets. */
module ElfModule {
  import opened Common
  import opened Bytes
  import opened Private

  // Elf64_Ehdr
  const EHDR_SIZE: nat := 64
  const E_SHOFF: nat := 0x28
  const E_SHNUM: nat := 0x3c
  const E_SHSTRNDX: nat := 0x3e
  // Elf64_Shdr
  const SHDR_SIZE: nat := 64
  const SH_NAME: nat := 0
  const SH_OFFSET: nat := 0x18
  const SH_SIZE: nat := 0x20
  /** sizeof(Elf64_Rela); r_offset is its first field. */
  const RELA_ENTRY_SIZE: nat := 24

  function ThisModuleRelaName(): seq<byte>
  {
    Ascii(".rela.gnu.linkonce.this_module")
  }

  function VersionsName(): seq<byte>
  {
    Ascii("__versions")
  }

  function RuntimeInformationName(): seq<byte>
  {
    Ascii(".kagent.runtime.information")
  }

  // ---------------------------------------------------------------------------
  // Section headers

  /** e_shoff, e_shnum and e_shstrndx. */
  datatype ElfHeader = ElfHeader(shoff: U64, shnum: nat, shstrndx: nat)

  /** Every section header the scan reads lies in the file: those of the
      first e_shnum sections and that of the section-name string table. */
  predicate HeadersFit(ko: seq<byte>, h: ElfHeader)
  {
    h.shoff + SHDR_SIZE * h.shnum <= |ko| && h.shoff + SHDR_SIZE * (h.shstrndx + 1) <= |ko|
  }

  /** The ELF header's section-table fields. A file too short for the
      header or for the section headers the scan reads is refused. */
  function ReadHeader(ko: seq<byte>): (r: Result<ElfHeader>)
    ensures r.Ok? ==> HeadersFit(ko, r.value)
    ensures r.Err? ==> r.error == AddressOutsideImage
  {
    if |ko| < EHDR_SIZE then Err(AddressOutsideImage)
    else
      var h := ElfHeader(ReadU64(ko, E_SHOFF), ReadU16(ko, E_SHNUM), ReadU16(ko, E_SHSTRNDX));
      if HeadersFit(ko, h) then Ok(h) else Err(AddressOutsideImage)
  }

  /** The file offset of section header i. */
  function ShdrAt(h: ElfHeader, i: nat): nat
  {
    h.shoff + SHDR_SIZE * i
  }

  /** The file offset of the section-name string table (shstrtab). */
  function StrTab(ko: seq<byte>, h: ElfHeader): U64
    requires HeadersFit(ko, h)
  {
    ReadU64(ko, ShdrAt(h, h.shstrndx) + SH_OFFSET)
  }

  /** The name of section i, shstrtab + sh_name, compares equal to name. */
  predicate SectionNamed(ko: seq<byte>, h: ElfHeader, i: nat, name: seq<byte>)
    requires HeadersFit(ko, h) && i < h.shnum
  {
    NameAt(ko, StrTab(ko, h) + ReadU32(ko, ShdrAt(h, i) + SH_NAME), name)
  }

  function HasName(ko: seq<byte>, h: ElfHeader, name: seq<byte>): nat -> bool
    requires HeadersFit(ko, h)
  {
    (i: nat) => i < h.shnum && SectionNamed(ko, h, i, name)
  }

  /** The section the scan settles on for a name: the last one so named. */
  function LastNamed(ko: seq<byte>, h: ElfHeader, name: seq<byte>): (r: Option<nat>)
    requires HeadersFit(ko, h)
    ensures r.Some? ==> r.value < h.shnum
  {
    LastWhere(HasName(ko, h, name), h.shnum)
  }

  /** When a section name repeats the last match wins, and no section is
      found exactly when none has the name. */
  lemma LastNamedIsLast(ko: seq<byte>, h: ElfHeader, name: seq<byte>)
    requires HeadersFit(ko, h)
    ensures var r := LastNamed(ko, h, name);
      && (r.None? <==> forall j :: 0 <= j < h.shnum ==> !SectionNamed(ko, h, j, name))
      && (r.Some? ==>
            (SectionNamed(ko, h, r.value, name) && forall j :: r.value < j < h.shnum ==> !SectionNamed(ko, h, j, name)))
  {
    var p := HasName(ko, h, name);
    LastWhereIsLast(p, h.shnum);
    forall j: nat | j < h.shnum
      ensures p(j) == SectionNamed(ko, h, j, name)
    {
    }
  }

  /** A located section: the file offset of its contents and their size. */
  datatype Section = Section(offset: U64, size: U64)

  function SectionAt(ko: seq<byte>, h: ElfHeader, i: nat): Section
    requires HeadersFit(ko, h) && i < h.shnum
  {
    Section(ReadU64(ko, ShdrAt(h, i) + SH_OFFSET), ReadU64(ko, ShdrAt(h, i) + SH_SIZE))
  }

  function Pick(ko: seq<byte>, h: ElfHeader, found: Option<nat>): Option<Section>
    requires HeadersFit(ko, h) && (found.Some? ==> found.value < h.shnum)
  {
    match found
    case None => None
    case Some(i) => Some(SectionAt(ko, h, i))
  }

  /** What the section scan records: this_module's relocations, the
      __versions table, and the runtime-information block. */
  datatype Sections = Sections(rela: Option<Section>, versions: Option<Section>, runtimeInfo: Option<Section>)

  function Scanned(ko: seq<byte>, h: ElfHeader): Sections
    requires HeadersFit(ko, h)
  {
    Sections(
      Pick(ko, h, LastNamed(ko, h, ThisModuleRelaName())),
      Pick(ko, h, LastNamed(ko, h, VersionsName())),
      Pick(ko, h, LastNamed(ko, h, RuntimeInformationName())))
  }

  /** One step of a backward search over the sections seen so far. */
  lemma LastNamedStep(ko: seq<byte>, h: ElfHeader, name: seq<byte>, i: nat)
    requires HeadersFit(ko, h) && i < h.shnum
    ensures LastWhere(HasName(ko, h, name), i + 1)
         == if SectionNamed(ko, h, i, name) then Some(i) else LastWhere(HasName(ko, h, name), i)
  {
    assert HasName(ko, h, name)(i) == SectionNamed(ko, h, i, name);
  }

  /** The section loop of main: every header is compared with the three
      names, and a match replaces what an earlier one recorded. */
  method ScanSections(ko: array<byte>, h: ElfHeader) returns (s: Sections)
    requires HeadersFit(ko[..], h)
    ensures s == Scanned(ko[..], h)
  {
    var bytes := ko[..];
    var rela: Option<Section> := None;
    var versions: Option<Section> := None;
    var runtimeInfo: Option<Section> := None;
    var i := 0;
    while i < h.shnum
      invariant 0 <= i <= h.shnum
      invariant rela == Pick(bytes, h, LastWhere(HasName(bytes, h, ThisModuleRelaName()), i))
      invariant versions == Pick(bytes, h, LastWhere(HasName(bytes, h, VersionsName()), i))
      invariant runtimeInfo == Pick(bytes, h, LastWhere(HasName(bytes, h, RuntimeInformationName()), i))
    {
      LastNamedStep(bytes, h, ThisModuleRelaName(), i);
      LastNamedStep(bytes, h, VersionsName(), i);
      LastNamedStep(bytes, h, RuntimeInformationName(), i);
      if SectionNamed(bytes, h, i, ThisModuleRelaName()) {
        rela := Some(SectionAt(bytes, h, i));
      }
      if SectionNamed(bytes, h, i, VersionsName()) {
        versions := Some(SectionAt(bytes, h, i));
      }
      if SectionNamed(bytes, h, i, RuntimeInformationName()) {
        runtimeInfo := Some(SectionAt(bytes, h, i));
      }
      i := i + 1;
    }
    return Sections(rela, versions, runtimeInfo);
  }

  // ---------------------------------------------------------------------------
  // Relocating mod->init and mod->exit

  /** The r_offset an entry ends with: the two tests run one after the
      other on the same entry, so an entry moved to init is moved again
      when init is the exit field's offset. */
  function NewOffset(r: U64, init: U64, exit: U64): U64
  {
    var r1 := if r == MODULE_INIT_OFFSET then init else r;
    if r1 == MODULE_EXIT_OFFSET then exit else r1
  }

  /** Only the init and exit relocations move; any other r_offset stays. */
  lemma NewOffsetMovesOnlyInitExit(r: U64, init: U64, exit: U64)
    ensures r != MODULE_INIT_OFFSET && r != MODULE_EXIT_OFFSET ==> NewOffset(r, init, exit) == r
    ensures NewOffset(MODULE_INIT_OFFSET, init, exit) == (if init == MODULE_EXIT_OFFSET then exit else init)
    ensures NewOffset(MODULE_EXIT_OFFSET, init, exit) == exit
  {
  }

  /** The file after entry at's r_offset is rewritten: the field now
      holds NewOffset of its old value. */
  function RelaStep(s: seq<byte>, at: nat, init: U64, exit: U64): (r: seq<byte>)
    requires at + 8 <= |s|
    ensures |r| == |s|
  {
    Overwrite(s, at, LE64(NewOffset(ReadU64(s, at), init, exit)))
  }

  /** The two stores of the loop body, the second test reading what the
      first may have stored, leave the file as RelaStep says. */
  lemma TwoTestsStep(s: seq<byte>, at: nat, init: U64, exit: U64)
    requires at + 8 <= |s|
    ensures var s1 := if ReadU64(s, at) == MODULE_INIT_OFFSET then Overwrite(s, at, LE64(init)) else s;
      (if ReadU64(s1, at) == MODULE_EXIT_OFFSET then Overwrite(s1, at, LE64(exit)) else s1)
      == RelaStep(s, at, init, exit)
  {
    var r := ReadU64(s, at);
    var s1 := if r == MODULE_INIT_OFFSET then Overwrite(s, at, LE64(init)) else s;
    if r == MODULE_INIT_OFFSET {
      ReadOverwritten(s, at, init);
    }
    var r1 := ReadU64(s1, at);
    var s2 := if r1 == MODULE_EXIT_OFFSET then Overwrite(s1, at, LE64(exit)) else s1;
    if r1 == MODULE_EXIT_OFFSET {
      ReadOverwritten(s1, at, exit);
    } else {
      ReadU64Bytes(s1, at);
    }
    assert s2[at..at + 8] == LE64(NewOffset(r, init, exit));
    assert s2 == RelaStep(s, at, init, exit);
  }

  /** Byte j lies in the r_offset field of one of the first m entries of
      the table at off. */
  predicate InOffsetField(off: nat, m: nat, j: int)
  {
    off <= j < off + 24 * m && (j - off) % 24 < 8
  }

  /** Where entry j's r_offset starts, for a byte j of the table at off. */
  function EntryStart(off: nat, j: int): (e: int)
    requires off <= j
    ensures off <= e <= j < e + 24 && (j - off) % 24 == j - e
  {
    off + (j - off) / 24 * 24
  }

  /** The 8 bytes the rewrite leaves in the r_offset field at at. */
  function NewField(s: seq<byte>, at: nat, init: U64, exit: U64): (f: seq<byte>)
    requires at + 8 <= |s|
    ensures |f| == 8
  {
    LE64(NewOffset(ReadU64(s, at), init, exit))
  }

  /** The file after the first m entries of the table at off are rewritten:
      each of their r_offset fields holds NewOffset of what it held, and
      every other byte is as it was. */
  function RelaRewritten(s: seq<byte>, off: nat, m: nat, init: U64, exit: U64): (r: seq<byte>)
    requires off + 24 * m <= |s|
    ensures |r| == |s|
  {
    seq(|s|, j requires 0 <= j < |s| =>
      if InOffsetField(off, m, j) then NewField(s, EntryStart(off, j), init, exit)[j - EntryStart(off, j)] else s[j])
  }

  /** Rewriting one more entry: RelaStep on entry m of the file whose first
      m entries are rewritten gives the file whose first m + 1 are. */
  lemma RelaExtend(s: seq<byte>, off: nat, m: nat, init: U64, exit: U64)
    requires off + 24 * (m + 1) <= |s|
    ensures RelaStep(RelaRewritten(s, off, m, init, exit), off + 24 * m, init, exit)
         == RelaRewritten(s, off, m + 1, init, exit)
  {
    var at := off + 24 * m;
    var t := RelaRewritten(s, off, m, init, exit);
    forall j | at <= j < at + 8
      ensures t[j] == s[j]
    {
      assert !InOffsetField(off, m, j);
    }
    ReadSame(t, s, at);
    var a := RelaStep(t, at, init, exit);
    var b := RelaRewritten(s, off, m + 1, init, exit);
    forall j | 0 <= j < |s|
      ensures a[j] == b[j]
    {
      if off <= j {
        FieldOfEntry(off, m, j);
      }
    }
  }

  /** Byte j is in the first m + 1 entries' r_offset fields exactly when it
      is in the first m entries' or in entry m's, which starts at
      off + 24 * m. */
  lemma FieldOfEntry(off: nat, m: nat, j: int)
    requires off <= j
    ensures InOffsetField(off, m + 1, j) <==>
      (InOffsetField(off, m, j) || off + 24 * m <= j < off + 24 * m + 8)
    ensures off + 24 * m <= j < off + 24 * m + 8 ==> EntryStart(off, j) == off + 24 * m
  {
    var q := (j - off) / 24;
    assert j - off == 24 * q + (j - off) % 24;
  }

  /** The rela loop of main, on the module buffer. */
  method RewriteThisModuleRela(ko: array<byte>, off: nat, n: nat, init: U64, exit: U64)
    requires off + 24 * n <= ko.Length
    modifies ko
    ensures ko[..] == RelaRewritten(old(ko[..]), off, n, init, exit)
  {
    ghost var s := ko[..];
    assert RelaRewritten(s, off, 0, init, exit) == s;
    var i := 0;
    while i < n
      invariant 0 <= i <= n
      invariant ko[..] == RelaRewritten(s, off, i, init, exit)
    {
      var at := off + 24 * i;
      TwoTestsStep(ko[..], at, init, exit);
      RelaExtend(s, off, i, init, exit);
      if ReadU64(ko[..], at) == MODULE_INIT_OFFSET {
        Store(ko, at, LE64(init));
      }
      if ReadU64(ko[..], at) == MODULE_EXIT_OFFSET {
        Store(ko, at, LE64(exit));
      }
      i := i + 1;
    }
  }

  /** Bytes that agree on a word's range give the same word. */
  lemma ReadSame(s: seq<byte>, t: seq<byte>, at: nat)
    requires at + 8 <= |s| == |t|
    requires forall j :: at <= j < at + 8 ==> s[j] == t[j]
    ensures ReadU64(s, at) == ReadU64(t, at)
  {
  }

  /** After the rewrite of the n entries, entry k's r_offset is NewOffset of
      its old value. */
  lemma RelaRewriteField(s: seq<byte>, off: nat, n: nat, init: U64, exit: U64, k: nat)
    requires off + 24 * n <= |s|
    requires k < n
    ensures ReadU64(RelaRewritten(s, off, n, init, exit), off + 24 * k)
         == NewOffset(ReadU64(s, off + 24 * k), init, exit)
  {
    var at := off + 24 * k;
    var r := RelaRewritten(s, off, n, init, exit);
    var f := NewField(s, at, init, exit);
    forall d | 0 <= d < 8
      ensures r[at + d] == f[d]
    {
      FieldOfEntry(off, k, at + d);
      assert InOffsetField(off, n, at + d);
    }
    ReadLE64(NewOffset(ReadU64(s, at), init, exit));
  }

  /** The rewrite changes no byte outside the r_offset fields: the rest of
      each entry and of the file stays. */
  lemma RelaRewriteFrame(s: seq<byte>, off: nat, n: nat, init: U64, exit: U64, j: nat)
    requires off + 24 * n <= |s|
    requires j < |s| && !InOffsetField(off, n, j)
    ensures RelaRewritten(s, off, n, init, exit)[j] == s[j]
  {
  }
}
