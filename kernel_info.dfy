/** The kernel-side state of a run (kdeploy.h): the four generations of
    exported-symbol records, kernel version comparison, the symbol tables,
    and the kernel image with its address translation through _text. */
module KernelInfo {
  import opened Bytes

  // ---------------------------------------------------------------------------
  // Exported-symbol record layouts

  /** KernelSymbolStructType; NoLayout is the zero value the struct starts
      with and keeps when the struct size matches no known generation. */
  datatype Layout = NoLayout | V1 | V2 | V3 | V4

  /** How a record locates its name: an absolute pointer stored in the
      record, or a signed offset relative to the name field's own address. */
  datatype NameMethod = Absolute | SelfRelative

  /** sizeof(KernelSymbol1..4) on a 64-bit target:
      V1 {unsigned long value; const char* name;}
      V2 {int value_offset; int name_offset;}
      V3 {int value_offset; int name_offset; int namespace_offset;}
      V4 {unsigned long value; const char* name; const char* namespaze;} */
  function RecordSize(l: Layout): (n: nat)
    requires l != NoLayout
    ensures n in {8, 12, 16, 24}
  {
    match l
    case V1 => 16
    case V2 => 8
    case V3 => 12
    case V4 => 24
  }

  function Method(l: Layout): NameMethod
    requires l != NoLayout
  {
    if l == V1 || l == V4 then Absolute else SelfRelative
  }

  /** Offset of the name field (pointer or name_offset) inside a record. */
  function NameField(l: Layout): (off: nat)
    requires l != NoLayout
    ensures off + (if Method(l) == Absolute then 8 else 4) <= RecordSize(l)
  {
    if Method(l) == Absolute then 8 else 4
  }

  // ---------------------------------------------------------------------------
  // Kernel versions

  datatype Version = Version(major: I32, minor: I32, revision: I32)

  /** The 32-bit pattern of (major << 24) | (minor << 16) | revision,
      computed on int as the source does (shifts keep the low 32 bits). */
  function PackedBits(v: Version): U32
  {
    var hi := BitOr(ToU32(v.major * 0x100_0000), ToU32(v.minor * 0x1_0000), 32);
    Pow2Values();
    BitOr(hi, ToU32(v.revision), 32)
  }

  /** The packed version as the uintptr_t the source compares: the int
      result, sign-extended to 64 bits. */
  function Packed(v: Version): U64
  {
    Wrap64(ToI32(PackedBits(v)))
  }

  /** version_old_then: this kernel is older than the target. */
  function OlderThan(self: Version, target: Version): bool
  {
    Packed(self) < Packed(target)
  }

  /** version_new_then: this kernel is newer than the target. */
  function NewerThan(self: Version, target: Version): bool
  {
    Packed(self) > Packed(target)
  }

  /** version_equals. */
  function SameVersion(self: Version, target: Version): bool
  {
    Packed(self) == Packed(target)
  }

  /** The packed form of a version whose parts fit their fields: major in
      bits 24-31, minor in bits 16-23, revision below; below 0x8000_0000 the
      sign extension leaves it alone. */
  lemma PackedValue(v: Version)
    requires 0 <= v.major < 128 && 0 <= v.minor < 256 && 0 <= v.revision < 0x1_0000
    ensures Packed(v) == v.major * 0x100_0000 + v.minor * 0x1_0000 + v.revision
  {
    PackedOfSmall(v);
    SignExtension(PackedBits(v));
  }

  /** For any two versions exactly one comparison holds, and OlderThan is a
      strict order that NewerThan mirrors. */
  lemma VersionTrichotomy(a: Version, b: Version, c: Version)
    ensures (OlderThan(a, b) && !SameVersion(a, b) && !NewerThan(a, b))
         || (!OlderThan(a, b) && SameVersion(a, b) && !NewerThan(a, b))
         || (!OlderThan(a, b) && !SameVersion(a, b) && NewerThan(a, b))
    ensures !OlderThan(a, a)
    ensures OlderThan(a, b) && OlderThan(b, c) ==> OlderThan(a, c)
    ensures OlderThan(a, b) <==> NewerThan(b, a)
  {
  }

  /** The sign extension does not disturb the order: the uintptr_t
      comparison agrees with the unsigned comparison of the 32-bit pattern. */
  lemma SignExtensionKeepsOrder(x: U32, y: U32)
    ensures Wrap64(ToI32(x)) < Wrap64(ToI32(y)) <==> x < y
    ensures Wrap64(ToI32(x)) == Wrap64(ToI32(y)) <==> x == y
  {
    SignExtension(x);
    SignExtension(y);
  }

  lemma SignExtension(x: U32)
    ensures Wrap64(ToI32(x)) == if x < TWO_31 then x else x + TWO_64 - TWO_32
  {
  }

  /** Within the ranges that do not collide in the packed word, version
      comparison is the lexicographic order on (major, minor, revision). */
  lemma {:induction false} VersionOrderIsLexicographic(a: Version, b: Version)
    requires 0 <= a.major < 256 && 0 <= a.minor < 256 && 0 <= a.revision < 0x1_0000
    requires 0 <= b.major < 256 && 0 <= b.minor < 256 && 0 <= b.revision < 0x1_0000
    ensures PackedBits(a) == a.major * 0x100_0000 + a.minor * 0x1_0000 + a.revision
    ensures OlderThan(a, b) <==>
      (a.major < b.major || (a.major == b.major &&
        (a.minor < b.minor || (a.minor == b.minor && a.revision < b.revision))))
    ensures SameVersion(a, b) <==> a == b
  {
    PackedOfSmall(a);
    PackedOfSmall(b);
    SignExtensionKeepsOrder(PackedBits(a), PackedBits(b));
  }

  lemma PackedOfSmall(v: Version)
    requires 0 <= v.major < 256 && 0 <= v.minor < 256 && 0 <= v.revision < 0x1_0000
    ensures PackedBits(v) == v.major * 0x100_0000 + v.minor * 0x1_0000 + v.revision
  {
    PackedHigh(v.major, v.minor);
    PackedLow(v.major * 0x100 + v.minor, v.revision);
  }

  /** The major and minor fields occupy disjoint bytes. */
  lemma PackedHigh(major: int, minor: int)
    requires 0 <= major < 256 && 0 <= minor < 256
    ensures BitOr(ToU32(major * 0x100_0000), ToU32(minor * 0x1_0000), 32) == major * 0x100_0000 + minor * 0x1_0000
  {
    var hiN := minor * 0x1_0000;
    assert ToU32(major * 0x100_0000) == major * 0x100_0000 && ToU32(hiN) == hiN;
    Pow2Values();
    BitOrDisjoint(major, hiN, 24, 32);
  }

  /** The revision occupies the low halfword, below a multiple of 2^16. */
  lemma PackedLow(q: int, rev: int)
    requires 0 <= q < 0x1_0000 && 0 <= rev < 0x1_0000
    ensures BitOr(q * 0x1_0000, ToU32(rev), 32) == q * 0x1_0000 + rev
  {
    assert ToU32(rev) == rev;
    Pow2Values();
    BitOrDisjoint(q, rev, 16, 32);
  }

  // ---------------------------------------------------------------------------
  // Symbol tables

  /** One exported-symbol region: the link addresses bounding its records
      and its parallel array of 64-bit checksums, and the host addresses
      of the same four bounds, which stay 0 until the run fills them in. */
  datatype SymbolTable = SymbolTable(
    name: string, symbolStart: U64, symbolStop: U64, crcStart: U64, crcStop: U64,
    symbolStartPtr: U64, symbolStopPtr: U64, crcStartPtr: U64, crcStopPtr: U64)

  // ---------------------------------------------------------------------------
  // The kernel image

  /** What the resolver reads of KernelInformation once relocation is done:
      the image bytes, where they sit in host memory, the anchor symbol
      _text, and the fields the checksum correction uses. */
  datatype KernelView = KernelView(
    image: seq<byte>,
    bufferAddr: U64,
    symText: U64,
    loadOffset: U64,
    defaultBase: U64,
    layout: Layout,
    relocatesKcrctab: bool)
  {
    /** offset(addr): the buffer offset of a kernel address, relative to _text. */
    function Offset(addr: U64): U64
    {
      Wrap64(addr - symText)
    }

    /** ptr(offset): the host address of a buffer offset. */
    function Ptr(off: U64): U64
    {
      Wrap64(bufferAddr + off)
    }

    /** ptr_of_sym(addr): the host address of a kernel address. */
    function PtrOfSym(addr: U64): U64
    {
      Wrap64(bufferAddr + addr - symText)
    }

    /** The buffer offset a host pointer refers to. */
    function HostToOffset(p: U64): U64
    {
      Wrap64(p - bufferAddr)
    }
  }

  /** ptr_of_sym is ptr after offset: every kernel address reaches the
      buffer through its offset from _text. */
  lemma PtrOfSymIsPtrOfOffset(kv: KernelView, addr: U64)
    ensures kv.PtrOfSym(addr) == kv.Ptr(kv.Offset(addr))
  {
    WrapAddDiff(kv.bufferAddr, addr, kv.symText);
  }

  /** offset and ptr are undone by adding _text back and by HostToOffset. */
  lemma TranslationsInvert(kv: KernelView, addr: U64, off: U64, p: U64)
    ensures Wrap64(kv.symText + kv.Offset(addr)) == addr
    ensures kv.HostToOffset(kv.Ptr(off)) == off
    ensures kv.Ptr(kv.HostToOffset(p)) == p
  {
    WrapDiff(addr, kv.symText);
    WrapSum(kv.bufferAddr, off);
    WrapDiff(p, kv.bufferAddr);
  }

  /** _text is buffer offset 0, and every offset is reached from _text. */
  lemma AnchorIsOrigin(kv: KernelView, off: U64)
    ensures kv.Offset(kv.symText) == 0
    ensures kv.Offset(Wrap64(kv.symText + off)) == off
  {
    var x := kv.symText + off;
    assert Wrap64(x) == x || Wrap64(x) == x - TWO_64;
  }

  /** KernelInformation: the kernel buffer and the facts discovered about it,
      filled in step by step by the run (relocate_arm64_kernel sets
      relocatesKcrctab, kaslr and defaultBase). */
  class KernelImage {
    var buffer: array<byte>
    var bufferAddr: U64       // host address of buffer.data()
    var loadOffset: U64       // image header field "offset"
    var loadSize: U64         // image header field "size"
    var defaultBase: U64
    var symText: U64          // address of _text, the single translation anchor
    var version: Version
    var layout: Layout
    var relocatesKcrctab: bool
    var kaslr: U64

    constructor (buffer: array<byte>, bufferAddr: U64, loadOffset: U64, loadSize: U64, symText: U64, version: Version)
      ensures this.buffer == buffer && this.bufferAddr == bufferAddr
      ensures this.loadOffset == loadOffset && this.loadSize == loadSize
      ensures this.symText == symText && this.version == version
      ensures defaultBase == 0 && layout == NoLayout && !relocatesKcrctab && kaslr == 0
    {
      this.buffer := buffer;
      this.bufferAddr := bufferAddr;
      this.loadOffset := loadOffset;
      this.loadSize := loadSize;
      this.symText := symText;
      this.version := version;
      defaultBase := 0;
      layout := NoLayout;
      relocatesKcrctab := false;
      kaslr := 0;
    }

    function View(): (kv: KernelView)
      reads this, buffer
      ensures kv.image == buffer[..] && kv.layout == layout
    {
      KernelView(buffer[..], bufferAddr, symText, loadOffset, defaultBase, layout, relocatesKcrctab)
    }
  }
}
