/** find_symbol and find_symbol_crc (kdeploy.cpp): the first-match search
    of one exported-symbol table in the kernel image, and the lookup of a
    symbol's checksum across the tables in priority order. The image is
    the kernel buffer after relocation, so the name pointers of the
    absolute layouts are host addresses into the buffer. */
module Resolve {
  import opened Common
  import opened Bytes
  import opened KernelInfo

  // ---------------------------------------------------------------------------
  // Records and their names

  /** The buffer offset of record i of a table whose first record is at
      host address begin. */
  function RecordOffset(kv: KernelView, l: Layout, begin: U64, i: nat): U64
    requires l != NoLayout
  {
    kv.HostToOffset(Walk(begin, RecordSize(l), i))
  }

  /** The host pointer after i steps of `iter++` from begin over records
      of size bytes, wrapping at 2^64. */
  function Walk(begin: U64, size: nat, i: nat): U64
  {
    if i == 0 then begin else Wrap64(Walk(begin, size, i - 1) + size)
  }

  lemma {:induction false} WalkIsWrap(begin: U64, size: nat, i: nat)
    ensures Walk(begin, size, i) == Wrap64(begin + i * size)
  {
    if i > 0 {
      WalkIsWrap(begin, size, i - 1);
      WalkStepIsWrap(begin, size, i - 1);
    } else {
      WrapSmall(begin);
    }
  }

  lemma WalkStepIsWrap(begin: U64, size: nat, k: nat)
    requires Walk(begin, size, k) == Wrap64(begin + k * size)
    ensures Walk(begin, size, k + 1) == Wrap64(begin + (k + 1) * size)
  {
    var a := begin + k * size;
    MulSucc(k, size);
    WrapStep(a, size);
  }

  /** The buffer offset of the name of the record at buffer offset rec:
      for the absolute layouts the host pointer stored in the name field,
      for the self-relative layouts the address of name_offset plus its
      signed 32-bit value. */
  function NameAddress(kv: KernelView, l: Layout, rec: nat): int
    requires l != NoLayout && rec + RecordSize(l) <= |kv.image|
  {
    if Method(l) == Absolute then kv.HostToOffset(ReadU64(kv.image, rec + NameField(l)))
    else rec + NameField(l) + ToI32(ReadU32(kv.image, rec + NameField(l)))
  }

  /** Record i of the table is in the buffer and its name compares equal
      to q. */
  predicate NamedAt(kv: KernelView, l: Layout, begin: U64, i: nat, q: seq<byte>)
    requires l != NoLayout
  {
    RecordNamed(kv, l, RecordOffset(kv, l, begin, i), q)
  }

  /** The record at buffer offset rec is in the buffer and its name
      compares equal to q. */
  predicate RecordNamed(kv: KernelView, l: Layout, rec: nat, q: seq<byte>)
    requires l != NoLayout
  {
    rec + RecordSize(l) <= |kv.image| && NameAt(kv.image, NameAddress(kv, l, rec), q)
  }

  /** How many records the search visits between the host addresses begin
      and end: the `iter != end` walk of the self-relative layouts covers
      the wrapped distance, the `iter < end` walk of the absolute layouts
      every record that starts below end. */
  function RecordCount(l: Layout, begin: U64, end: U64): nat
    requires l != NoLayout
  {
    var size := RecordSize(l);
    if Method(l) == SelfRelative then Wrap64(end - begin) / size
    else if begin < end then (end - begin + size - 1) / size
    else 0
  }

  /** The walk of a self-relative table reaches end exactly, which the
      table-size check guarantees. */
  predicate Walkable(l: Layout, begin: U64, end: U64)
    requires l != NoLayout
  {
    Method(l) == SelfRelative ==> Wrap64(end - begin) % RecordSize(l) == 0
  }

  /** The test find_symbol applies to record j. */
  function IsNamed(kv: KernelView, l: Layout, begin: U64, q: seq<byte>): nat -> bool
    requires l != NoLayout
  {
    (j: nat) => NamedAt(kv, l, begin, j, q)
  }

  /** The first index in [i, n) whose record is named q, or -1. */
  function FirstNamed(kv: KernelView, l: Layout, begin: U64, n: nat, q: seq<byte>, i: nat): (r: int)
    requires l != NoLayout
    ensures r == -1 || i <= r < n
  {
    FirstWhere(IsNamed(kv, l, begin, q), n, i)
  }

  /** One step of the search: a named record is the answer, any other
      record is passed over. */
  lemma FirstNamedStep(kv: KernelView, l: Layout, begin: U64, n: nat, q: seq<byte>, i: nat)
    requires l != NoLayout && i < n
    ensures NamedAt(kv, l, begin, i, q) ==> FirstNamed(kv, l, begin, n, q, i) == i
    ensures !NamedAt(kv, l, begin, i, q) ==> FirstNamed(kv, l, begin, n, q, i) == FirstNamed(kv, l, begin, n, q, i + 1)
  {
    assert IsNamed(kv, l, begin, q)(i) == NamedAt(kv, l, begin, i, q);
  }

  /** find_symbol's result is the first match: -1 exactly when no record
      in [i, n) is named q, and otherwise a record named q with none named
      q before it. */
  lemma FirstNamedIsFirst(kv: KernelView, l: Layout, begin: U64, n: nat, q: seq<byte>, i: nat)
    requires l != NoLayout
    ensures var r := FirstNamed(kv, l, begin, n, q, i);
      && (r == -1 <==> forall j :: i <= j < n ==> !NamedAt(kv, l, begin, j, q))
      && (r != -1 ==> NamedAt(kv, l, begin, r, q) && forall j :: i <= j < r ==> !NamedAt(kv, l, begin, j, q))
  {
    var p := IsNamed(kv, l, begin, q);
    FirstWhereIsFirst(p, n, i);
    forall j: nat
      ensures p(j) == NamedAt(kv, l, begin, j, q)
    {
    }
  }

  // ---------------------------------------------------------------------------
  // Walking a table

  lemma MulMono(a: nat, b: nat, s: nat)
    requires a <= b
    ensures a * s <= b * s
  {
    assert b * s - a * s == (b - a) * s;
  }

  lemma MulSucc(a: nat, s: nat)
    ensures a * s + s == (a + 1) * s
  {
  }

  /** i steps of the self-relative walk land on end exactly when they have
      covered the whole (wrapped) distance, which is i == count. */
  lemma OffsetWalkEnds(l: Layout, begin: U64, end: U64, i: nat)
    requires l != NoLayout && Method(l) == SelfRelative && Walkable(l, begin, end)
    requires i <= RecordCount(l, begin, end)
    ensures Walk(begin, RecordSize(l), i) == end <==> i == RecordCount(l, begin, end)
  {
    WalkIsWrap(begin, RecordSize(l), i);
    WrapWalkEnds(begin, end, RecordSize(l), i);
  }

  lemma {:induction false} WrapWalkEnds(begin: U64, end: U64, size: nat, i: nat)
    requires size > 0 && Wrap64(end - begin) % size == 0
    requires i <= Wrap64(end - begin) / size
    ensures Wrap64(begin + i * size) == end <==> i == Wrap64(end - begin) / size
  {
    var d := Wrap64(end - begin);
    var c := d / size;
    assert d == c * size;
    MulMono(i, c, size);
    var x := i * size;
    if i < c {
      MulMono(i + 1, c, size);
      assert x < d;
    }
    WrapReaches(begin, end, x);
  }

  /** Record i of an absolute table starts below end exactly when i is
      below the record count. */
  lemma AbsWalkBound(begin: U64, end: U64, size: nat, i: nat)
    requires size > 0 && begin < end
    ensures begin + i * size < end <==> i < (end - begin + size - 1) / size
  {
    var d := end - begin;
    var c := (d + size - 1) / size;
    assert c * size <= d + size - 1 < c * size + size;
    if i < c {
      MulMono(i, c - 1, size);
      assert (c - 1) * size == c * size - size;
    } else {
      MulMono(c, i, size);
    }
  }

  /** The absolute walk after i records: iter is the unwrapped pointer
      begin + i * size, it is the host address of record i while it stays
      below 2^64, and it is below end exactly while i is below the count. */
  predicate AbsAt(l: Layout, begin: U64, end: U64, i: nat, iter: int)
    requires l != NoLayout
  {
    && iter == begin + i * RecordSize(l)
    && (iter < TWO_64 ==> Walk(begin, RecordSize(l), i) == iter)
    && (iter < end <==> i < RecordCount(l, begin, end))
  }

  lemma AbsStart(l: Layout, begin: U64, end: U64)
    requires l != NoLayout && Method(l) == Absolute
    ensures AbsAt(l, begin, end, 0, begin)
  {
    if begin < end {
      AbsWalkBound(begin, end, RecordSize(l), 0);
    }
  }

  lemma AbsAdvance(l: Layout, begin: U64, end: U64, i: nat, iter: int)
    requires l != NoLayout && Method(l) == Absolute
    requires AbsAt(l, begin, end, i, iter) && iter < end
    ensures AbsAt(l, begin, end, i + 1, iter + RecordSize(l))
  {
    var size := RecordSize(l);
    assert begin + i * size + size == begin + (i + 1) * size;
    if iter + size < TWO_64 {
      WrapSmall(iter + size);
    }
    AbsWalkBound(begin, end, size, i + 1);
  }

  /** The self-relative walk after i records: iter is record i's host
      address, and it has reached end exactly when i is the count. */
  predicate OffsetAt(l: Layout, begin: U64, end: U64, i: nat, iter: U64)
    requires l != NoLayout
  {
    && i <= RecordCount(l, begin, end)
    && iter == Walk(begin, RecordSize(l), i)
    && (iter == end <==> i == RecordCount(l, begin, end))
  }

  lemma OffsetAdvance(l: Layout, begin: U64, end: U64, i: nat, iter: U64)
    requires l != NoLayout && Method(l) == SelfRelative && Walkable(l, begin, end)
    requires OffsetAt(l, begin, end, i, iter) && iter != end
    ensures OffsetAt(l, begin, end, i + 1, Wrap64(iter + RecordSize(l)))
  {
    OffsetWalkEnds(l, begin, end, i + 1);
  }

  /** find_symbol for the Offset layouts (KernelSymbol2, KernelSymbol3):
      the index of the first record named q between begin and end, or -1. */
  method FindSymbolByOffset(kv: KernelView, l: Layout, q: seq<byte>, begin: U64, end: U64) returns (index: int)
    requires l != NoLayout && Method(l) == SelfRelative && Walkable(l, begin, end)
    ensures index == FirstNamed(kv, l, begin, RecordCount(l, begin, end), q, 0)
    ensures index == -1 || 0 <= index < RecordCount(l, begin, end)
  {
    var size := RecordSize(l);
    ghost var n := RecordCount(l, begin, end);
    var iter := begin;
    var i := 0;
    OffsetWalkEnds(l, begin, end, 0);
    while iter != end
      invariant OffsetAt(l, begin, end, i, iter)
      invariant FirstNamed(kv, l, begin, n, q, i) == FirstNamed(kv, l, begin, n, q, 0)
      decreases n - i
    {
      var rec := kv.HostToOffset(iter);
      FirstNamedStep(kv, l, begin, n, q, i);
      if RecordNamed(kv, l, rec, q) {
        return i;
      }
      OffsetAdvance(l, begin, end, i, iter);
      iter := Wrap64(iter + size);
      i := i + 1;
    }
    return -1;
  }

  /** find_symbol for the Abs layouts (KernelSymbol1, KernelSymbol4): the
      index of the first record named q among those starting below end,
      or -1. */
  method FindSymbolAbsolute(kv: KernelView, l: Layout, q: seq<byte>, begin: U64, end: U64) returns (index: int)
    requires l != NoLayout && Method(l) == Absolute
    ensures index == FirstNamed(kv, l, begin, RecordCount(l, begin, end), q, 0)
    ensures index == -1 || 0 <= index < RecordCount(l, begin, end)
  {
    var size := RecordSize(l);
    ghost var n := RecordCount(l, begin, end);
    var iter: int := begin;
    var i := 0;
    AbsStart(l, begin, end);
    while iter < end
      invariant AbsAt(l, begin, end, i, iter)
      invariant FirstNamed(kv, l, begin, n, q, i) == FirstNamed(kv, l, begin, n, q, 0)
      decreases end - iter
    {
      var rec := kv.HostToOffset(iter);
      FirstNamedStep(kv, l, begin, n, q, i);
      if RecordNamed(kv, l, rec, q) {
        return i;
      }
      AbsAdvance(l, begin, end, i, iter);
      iter := iter + size;
      i := i + 1;
    }
    return -1;
  }

  // ---------------------------------------------------------------------------
  // find_symbol_crc

  /** The bias the source subtracts from a checksum when the architecture
      relocates kcrctab: _text - load_offset - default_base. */
  function CrcBias(kv: KernelView): U64
  {
    Wrap64(kv.symText - kv.loadOffset - kv.defaultBase)
  }

  /** The checksum as find_symbol_crc reports it, from the raw word. */
  function Corrected(kv: KernelView, raw: U64): U64
  {
    if kv.relocatesKcrctab then Wrap64(raw - (kv.symText - kv.loadOffset - kv.defaultBase)) else raw
  }

  /** The reported checksum of table entry i: the word at crc_start_ptr +
      i of the table's unsigned long checksum array. */
  function CrcAt(kv: KernelView, t: SymbolTable, i: nat): (r: Result<U64>)
    ensures r.Err? ==> r.error == AddressOutsideImage
  {
    var off := kv.HostToOffset(Wrap64(t.crcStartPtr + 8 * i));
    if off + 8 <= |kv.image| then Ok(Corrected(kv, ReadU64(kv.image, off))) else Err(AddressOutsideImage)
  }

  /** The index find_symbol returns for q in table t under the image's
      layout. */
  function TableLookup(kv: KernelView, q: seq<byte>, t: SymbolTable): int
    requires kv.layout != NoLayout
  {
    FirstNamed(kv, kv.layout, t.symbolStartPtr, RecordCount(kv.layout, t.symbolStartPtr, t.symbolStopPtr), q, 0)
  }

  /** Every table can be walked under the image's layout. */
  predicate TablesWalkable(kv: KernelView, tables: seq<SymbolTable>)
  {
    kv.layout != NoLayout ==>
      forall k :: 0 <= k < |tables| ==>
        Walkable(kv.layout, tables[k].symbolStartPtr, tables[k].symbolStopPtr)
  }

  /** The result of find_symbol_crc over tables[k..]: the first table in
      which q is found decides, a name found nowhere gives (false, 0), and
      an unknown layout fails at the first table scanned. */
  function CrcOf(kv: KernelView, q: seq<byte>, tables: seq<SymbolTable>, k: nat): Result<(bool, U64)>
    decreases |tables| - k
  {
    if k >= |tables| then Ok((false, 0))
    else if kv.layout == NoLayout then Err(UnsupportedSymbolLayout)
    else
      var index := TableLookup(kv, q, tables[k]);
      if index != -1 then
        var crc :- CrcAt(kv, tables[k], index);
        Ok((true, crc))
      else CrcOf(kv, q, tables, k + 1)
  }

  /** The layout switch of find_symbol_crc: the find_symbol overload the
      image's layout selects, run on table t. */
  method LookupTable(kv: KernelView, q: seq<byte>, t: SymbolTable) returns (index: int)
    requires kv.layout != NoLayout && Walkable(kv.layout, t.symbolStartPtr, t.symbolStopPtr)
    ensures index == TableLookup(kv, q, t)
  {
    var begin := t.symbolStartPtr;
    var end := t.symbolStopPtr;
    match kv.layout {
      case V1 =>
        index := FindSymbolAbsolute(kv, V1, q, begin, end);
      case V2 =>
        index := FindSymbolByOffset(kv, V2, q, begin, end);
      case V3 =>
        index := FindSymbolByOffset(kv, V3, q, begin, end);
      case V4 =>
        index := FindSymbolAbsolute(kv, V4, q, begin, end);
    }
  }

  /** find_symbol_crc. */
  method FindSymbolCrc(kv: KernelView, q: seq<byte>, tables: seq<SymbolTable>) returns (r: Result<(bool, U64)>)
    requires TablesWalkable(kv, tables)
    ensures r == CrcOf(kv, q, tables, 0)
  {
    var k := 0;
    while k < |tables|
      invariant 0 <= k <= |tables|
      invariant CrcOf(kv, q, tables, k) == CrcOf(kv, q, tables, 0)
    {
      if kv.layout == NoLayout {
        return Err(UnsupportedSymbolLayout);
      }
      var index := LookupTable(kv, q, tables[k]);
      if index != -1 {
        var crc := CrcAt(kv, tables[k], index);
        if crc.Err? {
          return Err(crc.error);
        }
        return Ok((true, crc.value));
      }
      k := k + 1;
    }
    return Ok((false, 0));
  }

  // ---------------------------------------------------------------------------
  // Properties of the lookup

  /** Tables that do not contain q are passed over. */
  lemma {:induction false} CrcSkipsMisses(kv: KernelView, q: seq<byte>, tables: seq<SymbolTable>, i: nat, k: nat)
    requires kv.layout != NoLayout && i <= k <= |tables|
    requires forall j :: i <= j < k ==> TableLookup(kv, q, tables[j]) == -1
    ensures CrcOf(kv, q, tables, i) == CrcOf(kv, q, tables, k)
    decreases k - i
  {
    if i < k {
      CrcSkipsMisses(kv, q, tables, i + 1, k);
    }
  }

  /** The first table containing q wins, and the checksum comes from the
      same index of that table's checksum array. */
  lemma FirstHitWins(kv: KernelView, q: seq<byte>, tables: seq<SymbolTable>, k: nat)
    requires kv.layout != NoLayout && k < |tables|
    requires forall j :: 0 <= j < k ==> TableLookup(kv, q, tables[j]) == -1
    requires TableLookup(kv, q, tables[k]) != -1
    ensures var c := CrcAt(kv, tables[k], TableLookup(kv, q, tables[k]));
      CrcOf(kv, q, tables, 0) == if c.Ok? then Ok((true, c.value)) else Err(AddressOutsideImage)
  {
    CrcSkipsMisses(kv, q, tables, 0, k);
  }

  /** A name found in no table gives (false, 0); with an unknown layout
      that happens only when there is no table left to scan. */
  lemma {:induction false} NotFoundIsFalseZero(kv: KernelView, q: seq<byte>, tables: seq<SymbolTable>, k: nat)
    requires k <= |tables|
    ensures CrcOf(kv, q, tables, k) == Ok((false, 0)) <==>
      (k == |tables| || (kv.layout != NoLayout && forall j :: k <= j < |tables| ==> TableLookup(kv, q, tables[j]) == -1))
    decreases |tables| - k
  {
    if k < |tables| && kv.layout != NoLayout && TableLookup(kv, q, tables[k]) == -1 {
      NotFoundIsFalseZero(kv, q, tables, k + 1);
    }
  }

  /** With an unknown layout the lookup fails as soon as a table is
      scanned. */
  lemma UnknownLayoutFails(kv: KernelView, q: seq<byte>, tables: seq<SymbolTable>)
    requires kv.layout == NoLayout && |tables| > 0
    ensures CrcOf(kv, q, tables, 0) == Err(UnsupportedSymbolLayout)
  {
  }

  /** The corrected checksum differs from the raw word by exactly the
      bias, in 64-bit arithmetic: adding the bias back gives the raw word. */
  lemma CorrectionUndoesBias(kv: KernelView, raw: U64)
    ensures kv.relocatesKcrctab ==> Wrap64(Corrected(kv, raw) + CrcBias(kv)) == raw
    ensures !kv.relocatesKcrctab ==> Corrected(kv, raw) == raw
  {
    if kv.relocatesKcrctab {
      var b := kv.symText - kv.loadOffset - kv.defaultBase;
      var c := raw - b;
      var qb := b / TWO_64;
      var qc := c / TWO_64;
      Reduce(b);
      Reduce(c);
      WordSplit(Wrap64(c) + Wrap64(b), -qc - qb, raw);
    }
  }

  /** Host distances between table bounds are their link-time distances,
      so the table-size check on link addresses makes the tables walkable. */
  lemma HostDistance(kv: KernelView, a: U64, b: U64)
    ensures Wrap64(kv.PtrOfSym(b) - kv.PtrOfSym(a)) == Wrap64(b - a)
  {
    var c := kv.bufferAddr - kv.symText;
    assert kv.PtrOfSym(b) == Wrap64(c + b) && kv.PtrOfSym(a) == Wrap64(c + a);
    WrapSub(c + b, c + a);
  }
}
