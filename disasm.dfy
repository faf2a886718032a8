/** The instruction-fingerprint scanners of disasm.cpp: the MOVN/MOVK
    literal decoder, the module init/exit offset scan over
    sys_delete_module, and the symbol-struct-size scan over
    module_get_kallsym. Each works on an already decoded instruction
    sequence. */
module Disasm {
  import opened Common
  import opened Bytes
  import opened Insns

  // ---------------------------------------------------------------------------
  // arm64_decode_movn_movk

  /** NOT of a 64-bit word. */
  function Not64(x: U64): (r: U64)
    ensures r + x == TWO_64 - 1
  {
    TWO_64 - 1 - x
  }

  /** x << s on a 64-bit word: the bits shifted past bit 63 are lost. */
  function Shl64(x: nat, s: nat): (r: U64)
    ensures x * Pow2(s) < TWO_64 ==> r == x * Pow2(s)
  {
    (x * Pow2(s)) % TWO_64
  }

  /** OR of two 64-bit words. */
  function Or64(a: U64, b: U64): U64
  {
    Pow2Values();
    BitOr(a, b, 64)
  }

  /** What the decoder makes of the leading MOVN: (~imm) << shift, with the
      immediate taken as uintptr_t. */
  function MovnPart(i: Insn): U64
  {
    Shl64(Not64(Wrap64(i.op1.imm)), i.op1.shift)
  }

  /** What the decoder ORs in for a MOVK: imm << shift. */
  function MovkPart(i: Insn): U64
  {
    Shl64(Wrap64(i.op1.imm), i.op1.shift)
  }

  /** The end of the run of MOVKs that starts at index i, bounded by count. */
  function MovkRunEnd(insns: seq<Insn>, count: nat, i: nat): (e: nat)
    requires 1 <= i <= count <= |insns|
    ensures i <= e <= count
    ensures forall k :: i <= k < e ==> insns[k].id == Movk
    ensures e < count ==> insns[e].id != Movk
    decreases count - i
  {
    if i < count && insns[i].id == Movk then MovkRunEnd(insns, count, i + 1) else i
  }

  /** acc with the MOVK terms of insns[lo..hi] ORed in, left to right. */
  function MovkFold(acc: U64, insns: seq<Insn>, lo: nat, hi: nat): U64
    requires lo <= hi <= |insns|
    decreases hi - lo
  {
    if hi == lo then acc else Or64(MovkFold(acc, insns, lo, hi - 1), MovkPart(insns[hi - 1]))
  }

  /** The literal the decoder reconstructs from the first count
      instructions, or None when they do not start with a MOVN. */
  function MovnMovk(insns: seq<Insn>, count: nat): Option<U64>
    requires count <= |insns|
  {
    if count == 0 || insns[0].id != Movn then None
    else Some(MovkFold(MovnPart(insns[0]), insns, 1, MovkRunEnd(insns, count, 1)))
  }

  /** arm64_decode_movn_movk: on a leading MOVN, true and the literal; the
      output is left as it was otherwise. */
  method DecodeMovnMovk(insns: seq<Insn>, count: nat, output: U64) returns (ok: bool, value: U64)
    requires count <= |insns|
    ensures ok <==> count > 0 && insns[0].id == Movn
    ensures !ok ==> value == output
    ensures ok ==> Some(value) == MovnMovk(insns, count)
  {
    if count == 0 {
      return false, output;
    }
    if insns[0].id != Movn {
      return false, output;
    }
    var val := MovnPart(insns[0]);
    var i := 1;
    while i < count && insns[i].id == Movk
      invariant 1 <= i <= count
      invariant forall k :: 1 <= k < i ==> insns[k].id == Movk
      invariant val == MovkFold(MovnPart(insns[0]), insns, 1, i)
    {
      val := Or64(val, MovkPart(insns[i]));
      i := i + 1;
    }
    assert i == MovkRunEnd(insns, count, 1) by {
      MovkRunEndIsFirstNonMovk(insns, count, 1, i);
    }
    return true, val;
  }

  lemma {:induction false} MovkRunEndIsFirstNonMovk(insns: seq<Insn>, count: nat, i: nat, e: nat)
    requires 1 <= i <= e <= count <= |insns|
    requires forall k :: i <= k < e ==> insns[k].id == Movk
    requires e == count || insns[e].id != Movk
    ensures MovkRunEnd(insns, count, i) == e
    decreases e - i
  {
    if i < e {
      MovkRunEndIsFirstNonMovk(insns, count, i + 1, e);
    }
  }

  type Halfword = h: int | 0 <= h < 0x1_0000

  /** A MOVN or MOVK of a 16-bit immediate, as the decoder sees it. */
  function MovWide(id: Mnemonic, imm: Halfword, shift: ShiftAmount): Insn
  {
    Insn(id, 2, Operand(RegOperand, OtherRegister(11), 0, 0, 0), Operand(ImmOperand, OtherRegister(0), imm, 0, shift))
  }

  /** MOVN x, #h0, LSL #32; MOVK x, #h1, LSL #16; MOVK x, #h2. */
  function Idiom(h0: Halfword, h1: Halfword, h2: Halfword): (s: seq<Insn>)
    ensures |s| == 3
  {
    [MovWide(Movn, h0, 32), MovWide(Movk, h1, 16), MovWide(Movk, h2, 0)]
  }

  /** The idiom __relocate_kernel uses to load the link-time base. It can
      express every value whose top 16 bits are all ones: h0 holds the
      inverted bits 32..47, h1 bits 16..31 and h2 bits 0..15. */
  function DefaultBaseIdiom(v: U64): (s: seq<Insn>)
    ensures |s| == 3
  {
    var lo := v % TWO_32;
    Idiom(0xFFFF - (v / TWO_32) % 0x1_0000, lo / 0x1_0000, lo % 0x1_0000)
  }

  /** Division by 2^16 of a value split as q * 2^16 + r. */
  lemma SplitHalfword(a: int, q: int, r: int)
    requires 0 <= r < 0x1_0000 && a == q * 0x1_0000 + r
    ensures a / 0x1_0000 == q && a % 0x1_0000 == r
  {
  }

  lemma {:induction false} BitOrAssociates(a: nat, b: nat, c: nat, w: nat)
    ensures BitOr(BitOr(a, b, w), c, w) == BitOr(a, BitOr(b, c, w), w)
  {
    if w > 0 {
      var ab := BitOr(a, b, w);
      var bc := BitOr(b, c, w);
      assert ab % 2 == (if a % 2 == 1 || b % 2 == 1 then 1 else 0) && ab / 2 == BitOr(a / 2, b / 2, w - 1);
      assert bc % 2 == (if b % 2 == 1 || c % 2 == 1 then 1 else 0) && bc / 2 == BitOr(b / 2, c / 2, w - 1);
      BitOrAssociates(a / 2, b / 2, c / 2, w - 1);
    }
  }

  /** The value the idiom loads: bits 48..63 set, bits 32..47 the inverse
      of h0, then h1 and h2. */
  function IdiomValue(h0: Halfword, h1: Halfword, h2: Halfword): nat
  {
    (0xFFFF_FFFF - h0) * 0x1_0000_0000 + h1 * 0x1_0000 + h2
  }

  /** What the decoder computes on the idiom. */
  lemma IdiomDecodes(h0: Halfword, h1: Halfword, h2: Halfword)
    ensures MovnMovk(Idiom(h0, h1, h2), 3) == Some(IdiomValue(h0, h1, h2))
  {
    var s := Idiom(h0, h1, h2);
    var a, b, c := MovnPart(s[0]), MovkPart(s[1]), MovkPart(s[2]);
    assert MovnMovk(s, 3) == Some(Or64(Or64(a, b), c)) by {
      MovnThenTwoMovk(s);
    }
    var q := 0xFFFF_FFFF - h0;
    assert a == q * 0x1_0000_0000 && b == h1 * 0x1_0000 && c == h2 by {
      IdiomTerms(h0, h1, h2);
    }
    assert Or64(Or64(a, b), c) == IdiomValue(h0, h1, h2) by {
      IdiomOr(q, h1, h2);
    }
  }

  /** A MOVN followed by two MOVKs decodes to the two-step OR. */
  lemma MovnThenTwoMovk(s: seq<Insn>)
    requires |s| >= 3 && s[0].id == Movn && s[1].id == Movk && s[2].id == Movk
    ensures MovnMovk(s, 3) == Some(Or64(Or64(MovnPart(s[0]), MovkPart(s[1])), MovkPart(s[2])))
  {
    assert MovkRunEnd(s, 3, 3) == 3;
    assert MovkRunEnd(s, 3, 1) == 3;
  }

  /** The three shifted terms of the idiom. */
  lemma IdiomTerms(h0: Halfword, h1: Halfword, h2: Halfword)
    ensures var s := Idiom(h0, h1, h2);
      MovnPart(s[0]) == (0xFFFF_FFFF - h0) * 0x1_0000_0000 && MovkPart(s[1]) == h1 * 0x1_0000 && MovkPart(s[2]) == h2
  {
    MovnTerm32(h0);
    MovkTerm16(h1);
    WrapSmall(h2);
  }

  lemma MovnTerm32(h0: Halfword)
    ensures MovnPart(MovWide(Movn, h0, 32)) == (0xFFFF_FFFF - h0) * 0x1_0000_0000
  {
    assert Pow2(32) == 0x1_0000_0000 by {
      Pow2Values();
    }
    var n := 0xFFFF_FFFF_FFFF_FFFF - h0;
    assert Not64(Wrap64(h0)) == n by {
      WrapSmall(h0);
    }
    assert Wrap64(n * 0x1_0000_0000) == (0xFFFF_FFFF - h0) * 0x1_0000_0000 by {
      WordSplit(n * 0x1_0000_0000, 0xFFFF_FFFF, (0xFFFF_FFFF - h0) * 0x1_0000_0000);
    }
  }

  lemma MovkTerm16(h: Halfword)
    ensures MovkPart(MovWide(Movk, h, 16)) == h * 0x1_0000
  {
    assert Pow2(16) == 0x1_0000 by {
      Pow2Values();
    }
    WrapSmall(h);
  }


  /** The idiom's terms occupy disjoint bits, so ORing them adds them. */
  lemma IdiomOr(q: nat, h1: Halfword, h2: Halfword)
    requires q < 0x1_0000_0000
    ensures Or64(Or64(q * 0x1_0000_0000, h1 * 0x1_0000), h2) == q * 0x1_0000_0000 + h1 * 0x1_0000 + h2
  {
    var a, b := q * 0x1_0000_0000, h1 * 0x1_0000;
    assert Or64(Or64(a, b), h2) == BitOr(a, BitOr(b, h2, 64), 64) by {
      BitOrAssociates(a, b, h2, 64);
    }
    var bc := BitOr(b, h2, 64);
    assert bc == b + h2 by {
      OrBelow(h1, 0x1_0000, h2, 16);
    }
    assert BitOr(a, bc, 64) == a + bc by {
      OrBelow(q, 0x1_0000_0000, bc, 32);
    }
  }

  /** BitOrDisjoint at the literal widths the idiom uses. */
  lemma OrBelow(q: nat, p: nat, b: nat, k: nat)
    requires k in {16, 32} && p == (if k == 16 then 0x1_0000 else 0x1_0000_0000)
    requires b < p && q * p + b < TWO_64
    ensures BitOr(q * p, b, 64) == q * p + b
  {
    Pow2Values();
    BitOrDisjoint(q, b, k, 64);
  }

  /** Decoding the idiom gives back the value it was built from. */
  lemma DecodeDefaultBaseIdiom(v: U64)
    requires v >= 0xFFFF_0000_0000_0000
    ensures MovnMovk(DefaultBaseIdiom(v), 3) == Some(v)
  {
    var lo := v % TWO_32;
    IdiomDecodes(0xFFFF - (v / TWO_32) % 0x1_0000, lo / 0x1_0000, lo % 0x1_0000);
    IdiomHalfwords(v);
  }

  lemma IdiomHalfwords(v: U64)
    requires v >= 0xFFFF_0000_0000_0000
    ensures var lo := v % TWO_32;
      IdiomValue(0xFFFF - (v / TWO_32) % 0x1_0000, lo / 0x1_0000, lo % 0x1_0000) == v
  {
    var hi, lo := v / 0x1_0000_0000, v % 0x1_0000_0000;
    assert 0xFFFF_0000 <= hi && v == hi * 0x1_0000_0000 + lo;
    assert hi % 0x1_0000 == hi - 0xFFFF_0000;
  }

  /** The architectural effect of MOVN and MOVK (Arm Architecture Reference
      Manual, chapter C6): MOVN writes NOT(imm16 << shift); MOVK replaces
      the 16-bit field at shift and keeps the other bits. */
  function ArchMovn(imm: Halfword, shift: ShiftAmount): U64
  {
    Not64(Shl64(imm, shift))
  }

  function ArchMovk(acc: U64, imm: Halfword, shift: ShiftAmount): U64
  {
    Wrap64(acc - ((acc / Pow2(shift)) % 0x1_0000) * Pow2(shift) + imm * Pow2(shift))
  }

  /** On the idiom the kernel uses, the decoder's shortcut (shift the
      inverted immediate, OR in the MOVK terms) gives the value the three
      instructions really load. */
  lemma DecoderMatchesArchitectureOnIdiom(h0: Halfword, h1: Halfword, h2: Halfword)
    ensures MovnMovk(Idiom(h0, h1, h2), 3) == Some(ArchMovk(ArchMovk(ArchMovn(h0, 32), h1, 16), h2, 0))
  {
    IdiomDecodes(h0, h1, h2);
    ArchIdiom(h0, h1, h2);
  }

  lemma ArchIdiom(h0: Halfword, h1: Halfword, h2: Halfword)
    ensures ArchMovk(ArchMovk(ArchMovn(h0, 32), h1, 16), h2, 0) == IdiomValue(h0, h1, h2)
  {
    var y := 0xFFFF_FFFF - h0;
    var a0 := ArchMovn(h0, 32);
    MovnAt32(h0);
    var a1 := ArchMovk(a0, h1, 16);
    MovkAt16(a0, y, 0xFFFF, 0xFFFF, h1);
    MovkAt0(a1, y * 0x1_0000 + h1, 0xFFFF, h2);
  }

  /** MOVN at shift 32 sets every bit outside the inverted field. */
  lemma MovnAt32(h0: Halfword)
    ensures ArchMovn(h0, 32) == (0xFFFF_FFFF - h0) * 0x1_0000_0000 + 0xFFFF * 0x1_0000 + 0xFFFF
  {
    Pow2Values();
  }

  /** MOVK at shift 16 replaces the field f of y * 2^32 + f * 2^16 + r. */
  lemma MovkAt16(acc: U64, y: nat, f: Halfword, r: Halfword, h: Halfword)
    requires acc == y * 0x1_0000_0000 + f * 0x1_0000 + r
    ensures ArchMovk(acc, h, 16) == y * 0x1_0000_0000 + h * 0x1_0000 + r
  {
    assert Pow2(16) == 0x1_0000 by {
      Pow2Values();
    }
    var hi := y * 0x1_0000 + f;
    assert acc / 0x1_0000 == hi by {
      SplitHalfword(acc, hi, r);
    }
    assert hi % 0x1_0000 == f by {
      SplitHalfword(hi, y, f);
    }
    var v := acc - f * 0x1_0000 + h * 0x1_0000;
    assert v == y * 0x1_0000_0000 + h * 0x1_0000 + r;
  }

  /** MOVK at shift 0 replaces the low field f of y * 2^16 + f. */
  lemma MovkAt0(acc: U64, y: nat, f: Halfword, h: Halfword)
    requires acc == y * 0x1_0000 + f
    ensures ArchMovk(acc, h, 0) == y * 0x1_0000 + h
  {
    assert acc % 0x1_0000 == f by {
      SplitHalfword(acc, y, f);
    }
  }

  /** Outside that idiom it does not: a lone MOVN with a shift leaves the
      low bits clear where the instruction sets them. */
  lemma DecoderDiffersOnLoneShiftedMovn()
    ensures MovnMovk([MovWide(Movn, 0, 16)], 1) == Some(0xFFFF_FFFF_FFFF_0000)
    ensures ArchMovn(0, 16) == 0xFFFF_FFFF_FFFF_FFFF
  {
    Pow2Values();
    assert Shl64(TWO_64 - 1, 16) == Wrap64((TWO_64 - 1) * 0x1_0000);
    WordSplit((TWO_64 - 1) * 0x1_0000, 0xFFFF, 0xFFFF_FFFF_FFFF_0000);
  }


  // ---------------------------------------------------------------------------
  // get_module_layout

  /** The probe the scan records for one instruction: the displacement of a
      two-operand load (A64) or of a compare with a memory first operand
      (x86-64), the immediate of a two-operand compare (A64), 0 otherwise;
      kept as the int32_t the source stores. */
  function Probe(arch: Arch, i: Insn): I32
  {
    match arch
    case AArch64 =>
      if i.id == Ldr && i.opCount == 2 && i.op1.kind == MemOperand then ToI32(i.op1.disp)
      else if i.id == Cmp && i.opCount == 2 && i.op1.kind == ImmOperand then ToI32(i.op1.imm)
      else 0
    case X86_64 =>
      if i.id == Cmp && i.opCount == 2 && i.op0.kind == MemOperand then ToI32(i.op0.disp)
      else 0
  }

  function Opcodes(insns: seq<Insn>): (ops: seq<Mnemonic>)
    ensures |ops| == |insns| && forall k :: 0 <= k < |insns| ==> ops[k] == insns[k].id
  {
    seq(|insns|, k requires 0 <= k < |insns| => insns[k].id)
  }

  function Probes(arch: Arch, insns: seq<Insn>): (ps: seq<I32>)
    ensures |ps| == |insns| && forall k :: 0 <= k < |insns| ==> ps[k] == Probe(arch, insns[k])
  {
    seq(|insns|, k requires 0 <= k < |insns| => Probe(arch, insns[k]))
  }

  /** The fingerprint of the accesses to mod->init and mod->exit. */
  function InitExitWindow(arch: Arch): (w: seq<Mnemonic>)
    ensures |w| == 4
  {
    match arch
    case AArch64 => [Ldr, Cbz, Ldr, Cbnz]
    case X86_64 => [Cmp, Je, Cmp, Je]
  }

  /** The load/compare pair whose probes (-8, 3) reveal the extra struct
      member of later kernels. */
  function SentinelPair(): seq<Mnemonic>
  {
    [Ldr, Cmp]
  }

  predicate IsSentinel(ops: seq<Mnemonic>, probes: seq<I32>, p: nat)
    requires |ops| == |probes| && p + 2 <= |ops|
  {
    OccursAt(ops, SentinelPair(), p) && probes[p] == -8 && probes[p + 1] == 3
  }

  /** The number of sentinel pairs the source's search loop meets from
      position from on: it finds each {LDR, CMP} in turn and resumes two
      past it. */
  function SentinelHits(ops: seq<Mnemonic>, probes: seq<I32>, from: nat): nat
    requires |ops| == |probes|
    decreases |ops| - from
  {
    match FindFrom(ops, SentinelPair(), from)
    case None => 0
    case Some(p) => (if IsSentinel(ops, probes, p) then 1 else 0) + SentinelHits(ops, probes, p + 2)
  }

  /** Sentinel pairs counted position by position, with no search. */
  function SentinelCount(ops: seq<Mnemonic>, probes: seq<I32>, from: nat): nat
    requires |ops| == |probes|
    decreases |ops| - from
  {
    if from + 2 > |ops| then 0
    else (if IsSentinel(ops, probes, from) then 1 else 0) + SentinelCount(ops, probes, from + 1)
  }

  /** Resuming two past each match misses no sentinel pair: the search
      loop counts every occurrence. */
  lemma {:induction false} SentinelHitsCountsAll(ops: seq<Mnemonic>, probes: seq<I32>, from: nat)
    requires |ops| == |probes|
    ensures SentinelHits(ops, probes, from) == SentinelCount(ops, probes, from)
    decreases |ops| - from
  {
    match FindFrom(ops, SentinelPair(), from)
    case None =>
      if from <= |ops| {
        FindFromIsFirst(ops, SentinelPair(), from);
        NoSentinelBetween(ops, probes, from, |ops|);
      }
    case Some(p) =>
      SentinelMatchStep(ops, probes, from, p);
      SentinelHitsCountsAll(ops, probes, p + 2);
  }

  /** From a match at p, both counts add p's pair to their count from p + 2. */
  lemma SentinelMatchStep(ops: seq<Mnemonic>, probes: seq<I32>, from: nat, p: nat)
    requires |ops| == |probes| && FindFrom(ops, SentinelPair(), from) == Some(p)
    ensures p + 2 <= |ops|
    ensures var hit := if IsSentinel(ops, probes, p) then 1 else 0;
      && SentinelHits(ops, probes, from) == hit + SentinelHits(ops, probes, p + 2)
      && SentinelCount(ops, probes, from) == hit + SentinelCount(ops, probes, p + 2)
  {
    FindFromIsFirst(ops, SentinelPair(), from);
    NoSentinelBetween(ops, probes, from, p);
    NoSentinelAfterMatch(ops, probes, p);
  }

  /** A pair starting at p + 1 would need LDR where the match has CMP. */
  lemma NoSentinelAfterMatch(ops: seq<Mnemonic>, probes: seq<I32>, p: nat)
    requires |ops| == |probes| && OccursAt(ops, SentinelPair(), p)
    ensures SentinelCount(ops, probes, p + 1) == SentinelCount(ops, probes, p + 2)
  {
    assert ops[p..p + 2][1] == Cmp;
    if p + 3 <= |ops| {
      assert ops[p + 1..p + 3][0] == Cmp;
    }
  }

  lemma {:induction false} NoSentinelBetween(ops: seq<Mnemonic>, probes: seq<I32>, from: nat, upto: nat)
    requires |ops| == |probes| && from <= upto <= |ops|
    requires forall k :: from <= k < upto ==> !OccursAt(ops, SentinelPair(), k)
    ensures SentinelCount(ops, probes, from) == SentinelCount(ops, probes, upto)
    decreases upto - from
  {
    if from < upto {
      NoSentinelBetween(ops, probes, from + 1, upto);
    }
  }

  /** The module's init and exit field offsets, as uintptr_t. */
  datatype FieldOffsets = FieldOffsets(init: U64, exit: U64)

  /** The opcode and probe vectors the scan builds, one entry per
      instruction. */
  method Fingerprint(arch: Arch, insns: seq<Insn>) returns (opcodes: seq<Mnemonic>, probes: seq<I32>)
    ensures opcodes == Opcodes(insns) && probes == Probes(arch, insns)
  {
    opcodes, probes := [], [];
    var i := 0;
    while i < |insns|
      invariant 0 <= i <= |insns|
      invariant opcodes == Opcodes(insns[..i]) && probes == Probes(arch, insns[..i])
    {
      opcodes := opcodes + [insns[i].id];
      probes := probes + [Probe(arch, insns[i])];
      i := i + 1;
    }
    assert insns[..i] == insns;
  }

  /** The A64 sentinel loop: each {LDR, CMP} pair with probes (-8, 3) that
      the search meets moves both offsets up by 8. The sums are kept
      exact and narrowed to int32_t once at the end, which gives the same
      value as narrowing after every step (SentinelStep). */
  method ShiftBySentinels(opcodes: seq<Mnemonic>, probes: seq<I32>, init0: I32, exit0: I32)
    returns (init: I32, exit: I32)
    requires |opcodes| == |probes|
    ensures Wrap64(init) == Shifted(init0, SentinelCount(opcodes, probes, 0))
    ensures Wrap64(exit) == Shifted(exit0, SentinelCount(opcodes, probes, 0))
  {
    var sumInit: int, sumExit: int := init0, exit0;
    var from := 0;
    var hits := 0;
    while true
      invariant from <= |opcodes|
      invariant hits + SentinelHits(opcodes, probes, from) == SentinelHits(opcodes, probes, 0)
      invariant sumInit == init0 + 8 * hits && sumExit == exit0 + 8 * hits
      decreases |opcodes| - from
    {
      var m := FindFrom(opcodes, SentinelPair(), from);
      if m.None? {
        break;
      }
      var p := m.value;
      var next := p + 2;
      HitsAtMatch(opcodes, probes, from, p, next);
      if probes[p] == -8 && probes[p + 1] == 3 {
        sumInit, sumExit := sumInit + 8, sumExit + 8;
        hits := hits + 1;
      }
      from := next;
    }
    SentinelHitsCountsAll(opcodes, probes, 0);
    return ToI32(sumInit), ToI32(sumExit);
  }

  /** One pass of the sentinel loop: the match at p adds one hit when its
      probes are (-8, 3), and the search goes on from next = p + 2. */
  lemma HitsAtMatch(ops: seq<Mnemonic>, probes: seq<I32>, from: nat, p: nat, next: nat)
    requires |ops| == |probes| && FindFrom(ops, SentinelPair(), from) == Some(p) && next == p + 2
    ensures next <= |ops|
    ensures SentinelHits(ops, probes, from)
      == (if probes[p] == -8 && probes[p + 1] == 3 then 1 else 0) + SentinelHits(ops, probes, next)
  {
  }

  /** Narrowing after each step of 8 agrees with narrowing the exact sum. */
  lemma SentinelStep(base: int, hits: nat, cur: I32)
    requires cur == ToI32(base + 8 * hits)
    ensures ToI32(cur + 8) == ToI32(base + 8 * (hits + 1))
  {
    WrapI32Twice(base + 8 * hits, 8);
  }

  /** A probe moved by 8 per sentinel hit, narrowed to int32_t and
      sign-extended to uintptr_t. */
  function Shifted(probe: I32, hits: nat): U64
  {
    Wrap64(ToI32(probe + 8 * hits))
  }

  /** What get_module_layout reports on a decode: the probes of the first
      and third instruction of the first init/exit window, on A64 moved by
      8 for every sentinel pair, and an error for an empty decode or a
      missing window. */
  function ModuleLayout(arch: Arch, insns: seq<Insn>): Result<FieldOffsets>
  {
    if |insns| == 0 then Err(DecodeFailed)
    else match FindFrom(Opcodes(insns), InitExitWindow(arch), 0)
      case None => Err(PatternNotFound)
      case Some(pos) =>
        var init, exit := Probe(arch, insns[pos]), Probe(arch, insns[pos + 2]);
        if arch == AArch64 then
          var hits := SentinelCount(Opcodes(insns), Probes(arch, insns), 0);
          Ok(FieldOffsets(Shifted(init, hits), Shifted(exit, hits)))
        else Ok(FieldOffsets(Wrap64(init), Wrap64(exit)))
  }

  /** get_module_layout on the decode of sys_delete_module. */
  method GetModuleLayout(arch: Arch, insns: seq<Insn>) returns (r: Result<FieldOffsets>)
    ensures r == ModuleLayout(arch, insns)
  {
    if |insns| == 0 {
      return Err(DecodeFailed);
    }
    var opcodes, probes := Fingerprint(arch, insns);
    var found := FindFrom(opcodes, InitExitWindow(arch), 0);
    if found.None? {
      return Err(PatternNotFound);
    }
    var pos := found.value;
    var init := probes[pos];
    var exit := probes[pos + 2];
    assert init == Probe(arch, insns[pos]) && exit == Probe(arch, insns[pos + 2]);
    LayoutAtMatch(arch, insns, pos, init, exit);
    if arch == AArch64 {
      init, exit := ShiftBySentinels(opcodes, probes, init, exit);
    }
    return Ok(FieldOffsets(Wrap64(init), Wrap64(exit)));
  }

  /** ModuleLayout once the window is found at pos. */
  lemma LayoutAtMatch(arch: Arch, insns: seq<Insn>, pos: nat, init: I32, exit: I32)
    requires |insns| > 0 && FindFrom(Opcodes(insns), InitExitWindow(arch), 0) == Some(pos)
    requires pos + 2 < |insns| && init == Probe(arch, insns[pos]) && exit == Probe(arch, insns[pos + 2])
    ensures var hits := SentinelCount(Opcodes(insns), Probes(arch, insns), 0);
      ModuleLayout(arch, insns)
      == if arch == AArch64 then Ok(FieldOffsets(Shifted(init, hits), Shifted(exit, hits)))
         else Ok(FieldOffsets(Wrap64(init), Wrap64(exit)))
  {
  }

  /** The sentinel adjustment moves both offsets by the same amount, so it
      keeps exit - init (as the reported 64-bit offsets wrap) whenever
      neither int32_t wraps. */
  lemma SentinelShiftKeepsDistance(init: I32, exit: I32, hits: nat)
    requires init + 8 * hits < TWO_31 && exit + 8 * hits < TWO_31
    ensures Wrap64(Shifted(exit, hits) - Shifted(init, hits)) == Wrap64(exit - init)
  {
    WrapSub(exit + 8 * hits, init + 8 * hits);
  }

  // ---------------------------------------------------------------------------
  // get_kernel_symbol_size

  /** MOV X3, #imm (A64) or MOV ECX, imm (x86-64): the instruction that
      passes sizeof(struct kernel_symbol) in module_get_kallsym. */
  predicate IsSizeLoad(arch: Arch, i: Insn)
  {
    && i.id == Mov
    && i.opCount == 2
    && i.op0.kind == RegOperand
    && i.op0.reg == (if arch == AArch64 then X3 else Ecx)
    && i.op1.kind == ImmOperand
  }

  /** The immediate (as size_t) of the first size load at or after i, 0
      when there is none. */
  function FirstSizeLoad(arch: Arch, insns: seq<Insn>, i: nat): U64
    decreases |insns| - i
  {
    if i >= |insns| then 0
    else if IsSizeLoad(arch, insns[i]) then Wrap64(insns[i].op1.imm)
    else FirstSizeLoad(arch, insns, i + 1)
  }

  /** What get_kernel_symbol_size reports on a decode: failure on an empty
      decode, otherwise the first size load's immediate or 0. */
  function SizeLoadResult(arch: Arch, insns: seq<Insn>): Result<U64>
  {
    if |insns| == 0 then Err(DecodeFailed) else Ok(FirstSizeLoad(arch, insns, 0))
  }

  lemma FirstSizeLoadIsFirst(arch: Arch, insns: seq<Insn>, i: nat)
    ensures (forall k :: i <= k < |insns| ==> !IsSizeLoad(arch, insns[k])) ==> FirstSizeLoad(arch, insns, i) == 0
    ensures forall k ::
      (i <= k < |insns| && IsSizeLoad(arch, insns[k]) && forall j :: i <= j < k ==> !IsSizeLoad(arch, insns[j]))
      ==> FirstSizeLoad(arch, insns, i) == Wrap64(insns[k].op1.imm)
  {
    if forall k :: i <= k < |insns| ==> !IsSizeLoad(arch, insns[k]) {
      FirstSizeLoadNone(arch, insns, i);
    }
    forall k | i <= k < |insns| && IsSizeLoad(arch, insns[k]) && forall j :: i <= j < k ==> !IsSizeLoad(arch, insns[j])
      ensures FirstSizeLoad(arch, insns, i) == Wrap64(insns[k].op1.imm)
    {
      FirstSizeLoadAt(arch, insns, i, k);
    }
  }

  /** With no size load at or after i, the scan reports 0. */
  lemma {:induction false} FirstSizeLoadNone(arch: Arch, insns: seq<Insn>, i: nat)
    requires forall k :: i <= k < |insns| ==> !IsSizeLoad(arch, insns[k])
    ensures FirstSizeLoad(arch, insns, i) == 0
    decreases |insns| - i
  {
    if i < |insns| {
      FirstSizeLoadNone(arch, insns, i + 1);
    }
  }

  /** With the first size load at or after i at k, the scan reports its
      immediate. */
  lemma {:induction false} FirstSizeLoadAt(arch: Arch, insns: seq<Insn>, i: nat, k: nat)
    requires i <= k < |insns| && IsSizeLoad(arch, insns[k])
    requires forall j :: i <= j < k ==> !IsSizeLoad(arch, insns[j])
    ensures FirstSizeLoad(arch, insns, i) == Wrap64(insns[k].op1.imm)
    decreases k - i
  {
    if i < k {
      FirstSizeLoadAt(arch, insns, i + 1, k);
    }
  }

  /** The size get_kernel_symbol_size reports: an error exactly for an
      empty decode, the immediate of the first size load when there is
      one, and 0 when there is none. */
  lemma SizeLoadResultIsFirst(arch: Arch, insns: seq<Insn>)
    ensures |insns| == 0 <==> SizeLoadResult(arch, insns) == Err(DecodeFailed)
    ensures (|insns| > 0 && forall k :: 0 <= k < |insns| ==> !IsSizeLoad(arch, insns[k]))
      ==> SizeLoadResult(arch, insns) == Ok(0)
    ensures forall k ::
      (0 <= k < |insns| && IsSizeLoad(arch, insns[k]) && forall j :: 0 <= j < k ==> !IsSizeLoad(arch, insns[j]))
      ==> SizeLoadResult(arch, insns) == Ok(Wrap64(insns[k].op1.imm))
  {
    FirstSizeLoadIsFirst(arch, insns, 0);
  }

  /** get_kernel_symbol_size on the decode of module_get_kallsym. */
  method GetKernelSymbolSize(arch: Arch, insns: seq<Insn>) returns (r: Result<U64>)
    ensures r == SizeLoadResult(arch, insns)
  {
    if |insns| == 0 {
      return Err(DecodeFailed);
    }
    var size: U64 := 0;
    var i := 0;
    while i < |insns|
      invariant 0 <= i <= |insns|
      invariant FirstSizeLoad(arch, insns, i) == FirstSizeLoad(arch, insns, 0)
    {
      if IsSizeLoad(arch, insns[i]) {
        size := Wrap64(insns[i].op1.imm);
        break;
      }
      i := i + 1;
    }
    return Ok(size);
  }
}
