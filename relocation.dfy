/** relocate_arm64_kernel (disasm.cpp): reading the location of the
    kernel's RELA table out of the literals of __relocate_kernel, and
    applying its R_AARCH64_RELATIVE entries to the image in the buffer, as
    the kernel would at boot with the buffer's host address as load address. */
module Relocation {
  import opened Common
  import opened Bytes
  import opened Insns
  import opened Disasm
  import opened KernelInfo

  const R_AARCH64_RELATIVE: U64 := 1027
  /** sizeof(Elf64_Rela). */
  const RELA_SIZE: nat := 24

  /** One Elf64_Rela entry; r_addend is kept as its 64-bit pattern, which
      is all the wrapping additions below need. */
  datatype Rela = Rela(offset: U64, info: U64, addend: U64)

  /** The table byte of the entry after the one at table byte k. */
  function NextEntry(k: nat): nat
  {
    k + RELA_SIZE
  }

  function RelaAt(img: seq<byte>, off: nat): Rela
    requires off + RELA_SIZE <= |img|
  {
    Rela(ReadU64(img, off), ReadU64(img, off + 8), ReadU64(img, off + 16))
  }

  /** The uint32_t an `ldr wN, =literal` loads: read at the literal's host
      address, which must lie in the buffer. */
  function LiteralAt(img: seq<byte>, bufferAddr: U64, i: Insn): (r: Result<U32>)
    ensures r.Ok? <==> Wrap64(i.op1.imm - bufferAddr) + 4 <= |img|
  {
    var off := Wrap64(i.op1.imm - bufferAddr);
    if off + 4 <= |img| then Ok(ReadU32(img, off)) else Err(AddressOutsideImage)
  }

  /** What the prologue of relocate_arm64_kernel derives before it touches
      anything: the table's buffer offset and byte size, the link-time base
      loaded by the MOVN/MOVK idiom, and the displacement kaslr that moves a
      link-time address to its host address. */
  datatype RelocationPlan = RelocationPlan(relaOffset: U64, relaSize: U32, defaultBase: U64, kaslr: U64)

  function Plan(img: seq<byte>, bufferAddr: U64, loadOffset: U64, insns: seq<Insn>): (r: Result<RelocationPlan>)
    requires |insns| > 0 && insns[0].id == Ldr ==> |insns| >= 5
    ensures |insns| == 0 <==> r == Err(DecodeFailed)
    ensures |insns| > 0 && insns[0].id != Ldr <==> r == Err(UnsupportedRelocation)
    ensures r.Ok? ==> r.value.kaslr == Wrap64(Wrap64(bufferAddr - loadOffset) - r.value.defaultBase)
  {
    if |insns| == 0 then Err(DecodeFailed)
    else if insns[0].id != Ldr then Err(UnsupportedRelocation)
    else
      var lit :- LiteralAt(img, bufferAddr, insns[0]);
      var size :- LiteralAt(img, bufferAddr, insns[1]);
      var base := match MovnMovk(insns[2..], 3) case Some(v) => v case None => 0;
      Ok(RelocationPlan(Wrap64(lit - loadOffset), size, base, Wrap64(Wrap64(bufferAddr - loadOffset) - base)))
  }

  /** A literal outside the buffer fails the plan with its error. */
  lemma PlanLiteralFails(img: seq<byte>, bufferAddr: U64, loadOffset: U64, insns: seq<Insn>)
    requires |insns| >= 5 && insns[0].id == Ldr
    ensures var lit := LiteralAt(img, bufferAddr, insns[0]);
      lit.Err? ==> Plan(img, bufferAddr, loadOffset, insns) == Err(lit.error)
    ensures var lit := LiteralAt(img, bufferAddr, insns[0]);
      var size := LiteralAt(img, bufferAddr, insns[1]);
      lit.Ok? && size.Err? ==> Plan(img, bufferAddr, loadOffset, insns) == Err(size.error)
  {
  }

  /** The plan when both literals lie in the buffer. */
  lemma PlanOk(img: seq<byte>, bufferAddr: U64, loadOffset: U64, insns: seq<Insn>)
    requires |insns| >= 5 && insns[0].id == Ldr
    requires LiteralAt(img, bufferAddr, insns[0]).Ok? && LiteralAt(img, bufferAddr, insns[1]).Ok?
    ensures var base := match MovnMovk(insns[2..], 3) case Some(v) => v case None => 0;
      Plan(img, bufferAddr, loadOffset, insns)
      == Ok(RelocationPlan(Wrap64(LiteralAt(img, bufferAddr, insns[0]).value - loadOffset),
                           LiteralAt(img, bufferAddr, insns[1]).value, base,
                           Wrap64(Wrap64(bufferAddr - loadOffset) - base)))
  {
  }

  /** The buffer offset an R_AARCH64_RELATIVE entry writes to. */
  function Target(bufferAddr: U64, kaslr: U64, e: Rela): U64
  {
    Wrap64(Wrap64(kaslr + e.offset) - bufferAddr)
  }

  /** The value it writes: the relocated address kaslr + r_addend. */
  function RelocatedValue(kaslr: U64, e: Rela): U64
  {
    Wrap64(kaslr + e.addend)
  }

  /** The image after the entries at table bytes [k, size) are applied in
      order, each read from the image as the earlier entries left it, and
      whether all of them lay in the buffer. */
  function Relocated(img: seq<byte>, bufferAddr: U64, kaslr: U64, start: U64, size: nat, k: nat): (out: (seq<byte>, bool))
    ensures |out.0| == |img|
    decreases size - k
  {
    if k >= size then (img, true)
    else
      var off := Wrap64(start + k);
      if off + RELA_SIZE > |img| then (img, false)
      else
        var e := RelaAt(img, off);
        if e.info != R_AARCH64_RELATIVE then Relocated(img, bufferAddr, kaslr, start, size, NextEntry(k))
        else
          var t := Target(bufferAddr, kaslr, e);
          if t + 8 > |img| then (img, false)
          else Relocated(Overwrite(img, t, LE64(RelocatedValue(kaslr, e))), bufferAddr, kaslr, start, size, NextEntry(k))
  }

  /** The relocation loop: entry by entry while the entry pointer is below
      the end of the table, each R_AARCH64_RELATIVE target is stored
      with its relocated value; other types are skipped. An entry or a
      target outside the buffer stops the run. */
  method ApplyRelocations(buffer: array<byte>, bufferAddr: U64, kaslr: U64, relaOffset: U64, relaSize: U32)
    returns (ok: bool)
    modifies buffer
    ensures (buffer[..], ok) == Relocated(old(buffer[..]), bufferAddr, kaslr, relaOffset, relaSize, 0)
  {
    var k := 0;
    while k < relaSize
      invariant Relocated(buffer[..], bufferAddr, kaslr, relaOffset, relaSize, k)
             == Relocated(old(buffer[..]), bufferAddr, kaslr, relaOffset, relaSize, 0)
      decreases relaSize - k
    {
      var off := Wrap64(relaOffset + k);
      if off + RELA_SIZE > buffer.Length {
        return false;
      }
      var e := RelaAt(buffer[..], off);
      if e.info == R_AARCH64_RELATIVE {
        var t := Target(bufferAddr, kaslr, e);
        if t + 8 > buffer.Length {
          return false;
        }
        Store(buffer, t, LE64(RelocatedValue(kaslr, e)));
      }
      k := NextEntry(k);
    }
    return true;
  }

  /** The prologue of relocate_arm64_kernel: the two literals, then the
      base decoded from the three instructions after them (left at 0 when
      they do not start with a MOVN). */
  method ReadPlan(img: array<byte>, bufferAddr: U64, loadOffset: U64, insns: seq<Insn>) returns (p: Result<RelocationPlan>)
    requires |insns| > 0 && insns[0].id == Ldr ==> |insns| >= 5
    ensures p == Plan(img[..], bufferAddr, loadOffset, insns)
  {
    if |insns| == 0 {
      return Err(DecodeFailed);
    }
    if insns[0].id == Adr {
      // the ADR form of later kernels (RELR) is not supported
      return Err(UnsupportedRelocation);
    } else if insns[0].id != Ldr {
      return Err(UnsupportedRelocation);
    }
    PlanLiteralFails(img[..], bufferAddr, loadOffset, insns);
    var lit := LiteralAt(img[..], bufferAddr, insns[0]);
    if lit.Err? {
      return Err(lit.error);
    }
    var relaOffset := Wrap64(lit.value - loadOffset);
    var size := LiteralAt(img[..], bufferAddr, insns[1]);
    if size.Err? {
      return Err(size.error);
    }
    var relaSize := size.value;
    var _, defaultBase := DecodeMovnMovk(insns[2..], 3, 0);
    assert defaultBase == match MovnMovk(insns[2..], 3) case Some(v) => v case None => 0;
    var kaslr := Wrap64(Wrap64(bufferAddr - loadOffset) - defaultBase);
    p := Ok(RelocationPlan(relaOffset, relaSize, defaultBase, kaslr));
    assert p == Plan(img[..], bufferAddr, loadOffset, insns) by {
      PlanOk(img[..], bufferAddr, loadOffset, insns);
    }
  }

  /** relocate_arm64_kernel on the decode of __relocate_kernel. */
  method RelocateArm64Kernel(ki: KernelImage, insns: seq<Insn>) returns (r: Result<()>)
    requires |insns| > 0 && insns[0].id == Ldr ==> |insns| >= 5
    modifies ki, ki.buffer
    ensures ki.buffer == old(ki.buffer) && ki.bufferAddr == old(ki.bufferAddr)
    ensures ki.loadOffset == old(ki.loadOffset) && ki.loadSize == old(ki.loadSize)
    ensures ki.symText == old(ki.symText) && ki.version == old(ki.version) && ki.layout == old(ki.layout)
    ensures var p := Plan(old(ki.buffer[..]), ki.bufferAddr, ki.loadOffset, insns);
      && (p.Err? ==> r == Err(p.error) && unchanged(ki) && ki.buffer[..] == old(ki.buffer[..]))
      && (p.Ok? ==>
            && ki.relocatesKcrctab && ki.kaslr == p.value.kaslr && ki.defaultBase == p.value.defaultBase
            && var out := Relocated(old(ki.buffer[..]), ki.bufferAddr, p.value.kaslr, p.value.relaOffset, p.value.relaSize, 0);
               ki.buffer[..] == out.0 && (r.Ok? <==> out.1) && (r.Err? ==> r.error == AddressOutsideImage))
  {
    var p := ReadPlan(ki.buffer, ki.bufferAddr, ki.loadOffset, insns);
    if p.Err? {
      return Err(p.error);
    }
    var plan := p.value;
    ki.relocatesKcrctab := true;
    ki.kaslr := plan.kaslr;
    ki.defaultBase := plan.defaultBase;
    var ok := ApplyRelocations(ki.buffer, ki.bufferAddr, plan.kaslr, plan.relaOffset, plan.relaSize);
    return if ok then Ok(()) else Err(AddressOutsideImage);
  }

  /** Where an entry writes does not depend on where the buffer sits in
      host memory: the link-time address r_offset less the image's
      link-time start load_offset + default_base. */
  lemma TargetIsLinkOffset(bufferAddr: U64, loadOffset: U64, defaultBase: U64, e: Rela)
    ensures var kaslr := Wrap64(Wrap64(bufferAddr - loadOffset) - defaultBase);
      Target(bufferAddr, kaslr, e) == Wrap64(e.offset - Wrap64(loadOffset + defaultBase))
  {
    WrapRebase(bufferAddr, loadOffset, defaultBase, e.offset);
  }

  /** The value an entry writes is the host address of the buffer byte that
      holds its link-time target r_addend: every relocated pointer points
      into the buffer's copy of the image. */
  lemma ValuePointsIntoBuffer(bufferAddr: U64, loadOffset: U64, defaultBase: U64, e: Rela)
    ensures var kaslr := Wrap64(Wrap64(bufferAddr - loadOffset) - defaultBase);
      RelocatedValue(kaslr, e) == Wrap64(bufferAddr + Wrap64(e.addend - Wrap64(loadOffset + defaultBase)))
  {
    var x := Wrap64(bufferAddr - loadOffset);
    var kaslr := Wrap64(x - defaultBase);
    var base := Wrap64(loadOffset + defaultBase);
    var off := Wrap64(e.addend - base);
    Reduce(bufferAddr - loadOffset);
    Reduce(x - defaultBase);
    Reduce(loadOffset + defaultBase);
    Reduce(e.addend - base);
    var d := bufferAddr + e.addend - loadOffset - defaultBase;
    Reduce(d);
    var k := d / TWO_64;
    WordSplit(kaslr + e.addend, k - (bufferAddr - loadOffset) / TWO_64 - (x - defaultBase) / TWO_64, Wrap64(d));
    WordSplit(bufferAddr + off, k + (loadOffset + defaultBase) / TWO_64 - (e.addend - base) / TWO_64, Wrap64(d));
  }

  /** The entry at table byte j is in the buffer and not R_AARCH64_RELATIVE. */
  predicate SkippedEntry(img: seq<byte>, start: U64, j: nat)
  {
    var off := Wrap64(start + j);
    off + RELA_SIZE <= |img| && RelaAt(img, off).info != R_AARCH64_RELATIVE
  }

  /** A table whose entries all lie in the buffer and none of which is
      R_AARCH64_RELATIVE changes nothing, and the run completes. */
  lemma {:induction false} NoRelativeEntriesChangeNothing(img: seq<byte>, bufferAddr: U64, kaslr: U64, start: U64, size: nat, k: nat)
    requires forall j: nat :: k <= j < size && (j - k) % RELA_SIZE == 0 ==> SkippedEntry(img, start, j)
    ensures Relocated(img, bufferAddr, kaslr, start, size, k) == (img, true)
    decreases size - k
  {
    if k < size {
      assert SkippedEntry(img, start, k);
      forall j: nat | NextEntry(k) <= j < size && (j - (NextEntry(k))) % RELA_SIZE == 0
        ensures SkippedEntry(img, start, j)
      {
        assert (j - k) % RELA_SIZE == 0;
      }
      NoRelativeEntriesChangeNothing(img, bufferAddr, kaslr, start, size, NextEntry(k));
    }
  }

  /** After an R_AARCH64_RELATIVE entry is applied, its target word holds
      the relocated value. */
  lemma AppliedEntryReadsBack(img: seq<byte>, bufferAddr: U64, kaslr: U64, e: Rela)
    requires Target(bufferAddr, kaslr, e) + 8 <= |img|
    ensures var t := Target(bufferAddr, kaslr, e);
      ReadU64(Overwrite(img, t, LE64(RelocatedValue(kaslr, e))), t) == RelocatedValue(kaslr, e)
  {
    ReadOverwritten(img, Target(bufferAddr, kaslr, e), RelocatedValue(kaslr, e));
  }

  // ---------------------------------------------------------------------------
  // The buffer a completed pass leaves

  /** The buffer offsets the pass from table byte k on stores to, in order. */
  function Writes(img: seq<byte>, bufferAddr: U64, kaslr: U64, start: U64, size: nat, k: nat): (w: seq<nat>)
    decreases size - k
  {
    if k >= size then []
    else
      var off := Wrap64(start + k);
      if off + RELA_SIZE > |img| then []
      else
        var e := RelaAt(img, off);
        if e.info != R_AARCH64_RELATIVE then Writes(img, bufferAddr, kaslr, start, size, NextEntry(k))
        else
          var t := Target(bufferAddr, kaslr, e);
          if t + 8 > |img| then []
          else [t] + Writes(Overwrite(img, t, LE64(RelocatedValue(kaslr, e))), bufferAddr, kaslr, start, size, NextEntry(k))
  }

  /** A byte no word of [t0] + w covers is covered neither by the word at
      t0 nor by any word of w. */
  lemma MissesTail(t0: nat, w: seq<nat>, j: nat)
    requires forall t :: t in [t0] + w ==> !(t <= j < t + 8)
    ensures !(t0 <= j < t0 + 8)
    ensures forall t :: t in w ==> !(t <= j < t + 8)
  {
    assert t0 in [t0] + w;
    forall t | t in w
      ensures !(t <= j < t + 8)
    {
      assert t in [t0] + w;
    }
  }

  /** A byte that none of the pass's stores covers keeps its value. */
  lemma {:induction false} RelocatedKeepsUnwritten(img: seq<byte>, bufferAddr: U64, kaslr: U64, start: U64, size: nat, k: nat, j: nat)
    requires j < |img|
    requires forall t :: t in Writes(img, bufferAddr, kaslr, start, size, k) ==> !(t <= j < t + 8)
    ensures Relocated(img, bufferAddr, kaslr, start, size, k).0[j] == img[j]
    decreases size - k
  {
    if k < size {
      var off := Wrap64(start + k);
      if off + RELA_SIZE <= |img| {
        var e := RelaAt(img, off);
        if e.info != R_AARCH64_RELATIVE {
          assert Writes(img, bufferAddr, kaslr, start, size, k) == Writes(img, bufferAddr, kaslr, start, size, NextEntry(k));
          RelocatedKeepsUnwritten(img, bufferAddr, kaslr, start, size, NextEntry(k), j);
        } else {
          var t := Target(bufferAddr, kaslr, e);
          if t + 8 <= |img| {
            var next := Overwrite(img, t, LE64(RelocatedValue(kaslr, e)));
            var w := Writes(next, bufferAddr, kaslr, start, size, NextEntry(k));
            assert Writes(img, bufferAddr, kaslr, start, size, k) == [t] + w;
            MissesTail(t, w, j);
            RelocatedKeepsUnwritten(next, bufferAddr, kaslr, start, size, NextEntry(k), j);
          }
        }
      }
    }
  }

  /** Table byte j is the start of an entry of a pass that starts at k. */
  predicate IsEntry(k: nat, size: nat, j: nat)
  {
    k <= j < size && (j - k) % RELA_SIZE == 0
  }

  /** The entry at table byte j of the image, when it lies in the buffer. */
  function TableEntry(img: seq<byte>, start: U64, j: nat): Rela
  {
    var off := Wrap64(start + j);
    if off + RELA_SIZE <= |img| then RelaAt(img, off) else Rela(0, 0, 0)
  }

  /** The entry at table byte j lies in the buffer and is R_AARCH64_RELATIVE. */
  predicate RelativeEntry(img: seq<byte>, start: U64, j: nat)
  {
    Wrap64(start + j) + RELA_SIZE <= |img| && TableEntry(img, start, j).info == R_AARCH64_RELATIVE
  }

  /** The ranges [a, a + n) and [b, b + m) do not overlap. */
  predicate Apart(a: int, n: nat, b: int, m: nat)
  {
    a + n <= b || b + m <= a
  }

  /** The words the RELATIVE entries of the table (from byte k on) target
      overlap neither each other nor any entry of the table. */
  ghost predicate TargetsApart(img: seq<byte>, bufferAddr: U64, kaslr: U64, start: U64, size: nat, k: nat)
  {
    && (forall j1, j2 ::
          IsEntry(k, size, j1) && IsEntry(k, size, j2) && j1 != j2 && RelativeEntry(img, start, j1) && RelativeEntry(img, start, j2) ==>
          Apart(Target(bufferAddr, kaslr, TableEntry(img, start, j1)), 8, Target(bufferAddr, kaslr, TableEntry(img, start, j2)), 8))
    && (forall j1, j2 :: IsEntry(k, size, j1) && IsEntry(k, size, j2) && RelativeEntry(img, start, j1) ==>
          Apart(Target(bufferAddr, kaslr, TableEntry(img, start, j1)), 8, Wrap64(start + j2), RELA_SIZE))
  }

  /** An entry of the pass from NextEntry(k) on is one of the pass from k on, after k. */
  lemma EntryLater(k: nat, size: nat, j: nat)
    requires IsEntry(NextEntry(k), size, j)
    ensures IsEntry(k, size, j) && j != k
  {
    assert (j - k) % RELA_SIZE == ((j - (NextEntry(k))) + RELA_SIZE) % RELA_SIZE;
  }

  /** An entry of the pass from k on other than the one at k is one of
      the pass from NextEntry(k) on. */
  lemma EntryAfter(k: nat, size: nat, j: nat)
    requires IsEntry(k, size, j) && j != k
    ensures IsEntry(NextEntry(k), size, j)
  {
    assert (j - k) % RELA_SIZE == ((j - NextEntry(k)) + RELA_SIZE) % RELA_SIZE;
  }

  /** A store that misses the bytes of an entry leaves the entry as it was. */
  lemma EntryKept(img: seq<byte>, start: U64, j: nat, t: nat, v: U64)
    requires t + 8 <= |img|
    requires Apart(t, 8, Wrap64(start + j), RELA_SIZE)
    ensures TableEntry(Overwrite(img, t, LE64(v)), start, j) == TableEntry(img, start, j)
  {
    var off := Wrap64(start + j);
    if off + RELA_SIZE <= |img| {
      var f := LE64(v);
      ReadDisjoint(img, t, f, off);
      ReadDisjoint(img, t, f, off + 8);
      ReadDisjoint(img, t, f, off + 16);
    }
  }

  /** Applying the entry at k keeps the table's later entries, their
      targets stay apart, and none of them overlaps the word just stored. */
  lemma StepKeepsTable(img: seq<byte>, bufferAddr: U64, kaslr: U64, start: U64, size: nat, k: nat)
    requires TargetsApart(img, bufferAddr, kaslr, start, size, k)
    requires IsEntry(k, size, k) && RelativeEntry(img, start, k)
    requires Target(bufferAddr, kaslr, TableEntry(img, start, k)) + 8 <= |img|
    ensures var e := TableEntry(img, start, k);
      var t := Target(bufferAddr, kaslr, e);
      var next := Overwrite(img, t, LE64(RelocatedValue(kaslr, e)));
      && TargetsApart(next, bufferAddr, kaslr, start, size, NextEntry(k))
      && (forall j :: IsEntry(NextEntry(k), size, j) ==> TableEntry(next, start, j) == TableEntry(img, start, j))
      && (forall j :: IsEntry(NextEntry(k), size, j) && RelativeEntry(next, start, j) ==>
            Apart(Target(bufferAddr, kaslr, TableEntry(next, start, j)), 8, t, 8))
  {
    var e := TableEntry(img, start, k);
    var t := Target(bufferAddr, kaslr, e);
    var next := Overwrite(img, t, LE64(RelocatedValue(kaslr, e)));
    forall j | IsEntry(NextEntry(k), size, j)
      ensures TableEntry(next, start, j) == TableEntry(img, start, j)
      ensures IsEntry(k, size, j) && j != k
    {
      EntryLater(k, size, j);
      EntryKept(img, start, j, t, RelocatedValue(kaslr, e));
    }
  }

  /** A word apart from the targets of the entries from k on is apart from
      those of the entries after k once the entry at k is applied. */
  lemma StepKeepsApart(img: seq<byte>, bufferAddr: U64, kaslr: U64, start: U64, size: nat, k: nat, a: nat)
    requires TargetsApart(img, bufferAddr, kaslr, start, size, k)
    requires IsEntry(k, size, k) && RelativeEntry(img, start, k)
    requires Target(bufferAddr, kaslr, TableEntry(img, start, k)) + 8 <= |img|
    requires forall j :: IsEntry(k, size, j) && RelativeEntry(img, start, j) ==>
      Apart(Target(bufferAddr, kaslr, TableEntry(img, start, j)), 8, a, 8)
    ensures var e := TableEntry(img, start, k);
      var next := Overwrite(img, Target(bufferAddr, kaslr, e), LE64(RelocatedValue(kaslr, e)));
      forall j :: IsEntry(NextEntry(k), size, j) && RelativeEntry(next, start, j) ==>
        Apart(Target(bufferAddr, kaslr, TableEntry(next, start, j)), 8, a, 8)
  {
    var e := TableEntry(img, start, k);
    var t := Target(bufferAddr, kaslr, e);
    var next := Overwrite(img, t, LE64(RelocatedValue(kaslr, e)));
    forall j | IsEntry(NextEntry(k), size, j)
      ensures TableEntry(next, start, j) == TableEntry(img, start, j)
      ensures IsEntry(k, size, j)
    {
      EntryLater(k, size, j);
      EntryKept(img, start, j, t, RelocatedValue(kaslr, e));
    }
  }

  /** The entries from NextEntry(k) on are among those from k on. */
  lemma TargetsApartLater(img: seq<byte>, bufferAddr: U64, kaslr: U64, start: U64, size: nat, k: nat)
    requires TargetsApart(img, bufferAddr, kaslr, start, size, k)
    ensures TargetsApart(img, bufferAddr, kaslr, start, size, NextEntry(k))
  {
    forall j | IsEntry(NextEntry(k), size, j)
      ensures IsEntry(k, size, j)
    {
      EntryLater(k, size, j);
    }
  }

  /** A word that no RELATIVE entry of the table targets keeps its value
      through the pass. */
  lemma {:induction false} RelocatedKeepsWord(img: seq<byte>, bufferAddr: U64, kaslr: U64, start: U64, size: nat, k: nat, a: nat)
    requires a + 8 <= |img| && TargetsApart(img, bufferAddr, kaslr, start, size, k)
    requires forall j :: IsEntry(k, size, j) && RelativeEntry(img, start, j) ==>
      Apart(Target(bufferAddr, kaslr, TableEntry(img, start, j)), 8, a, 8)
    ensures ReadU64(Relocated(img, bufferAddr, kaslr, start, size, k).0, a) == ReadU64(img, a)
    decreases size - k
  {
    if k < size && Wrap64(start + k) + RELA_SIZE <= |img| {
      assert IsEntry(k, size, k);
      var e := TableEntry(img, start, k);
      if e.info != R_AARCH64_RELATIVE {
        TargetsApartLater(img, bufferAddr, kaslr, start, size, k);
        forall j | IsEntry(NextEntry(k), size, j)
          ensures IsEntry(k, size, j)
        {
          EntryLater(k, size, j);
        }
        RelocatedKeepsWord(img, bufferAddr, kaslr, start, size, NextEntry(k), a);
      } else {
        var t := Target(bufferAddr, kaslr, e);
        if t + 8 <= |img| {
          var v := RelocatedValue(kaslr, e);
          var next := Overwrite(img, t, LE64(v));
          StepKeepsTable(img, bufferAddr, kaslr, start, size, k);
          StepKeepsApart(img, bufferAddr, kaslr, start, size, k, a);
          ReadDisjoint(img, t, LE64(v), a);
          RelocatedKeepsWord(next, bufferAddr, kaslr, start, size, NextEntry(k), a);
        }
      }
    }
  }

  /** When the pass completes, and the RELATIVE targets are apart from one
      another and from the table, every RELATIVE entry's target word holds
      its relocated value, slide + r_addend. */
  lemma {:induction false} RelocatedStoresEachEntry(img: seq<byte>, bufferAddr: U64, kaslr: U64, start: U64, size: nat, k: nat, j: nat)
    requires Relocated(img, bufferAddr, kaslr, start, size, k).1
    requires TargetsApart(img, bufferAddr, kaslr, start, size, k)
    requires IsEntry(k, size, j) && RelativeEntry(img, start, j)
    ensures var e := TableEntry(img, start, j);
      && Target(bufferAddr, kaslr, e) + 8 <= |img|
      && ReadU64(Relocated(img, bufferAddr, kaslr, start, size, k).0, Target(bufferAddr, kaslr, e)) == RelocatedValue(kaslr, e)
    decreases size - k
  {
    assert IsEntry(k, size, k);
    var e := TableEntry(img, start, k);
    if e.info != R_AARCH64_RELATIVE {
      TargetsApartLater(img, bufferAddr, kaslr, start, size, k);
      EntryAfter(k, size, j);
      RelocatedStoresEachEntry(img, bufferAddr, kaslr, start, size, NextEntry(k), j);
    } else {
      var t := Target(bufferAddr, kaslr, e);
      var v := RelocatedValue(kaslr, e);
      var next := Overwrite(img, t, LE64(v));
      StepKeepsTable(img, bufferAddr, kaslr, start, size, k);
      if j == k {
        RelocatedKeepsWord(next, bufferAddr, kaslr, start, size, NextEntry(k), t);
        ReadOverwritten(img, t, v);
      } else {
        EntryAfter(k, size, j);
        RelocatedStoresEachEntry(next, bufferAddr, kaslr, start, size, NextEntry(k), j);
      }
    }
  }
}
