/** The exported-symbol tables main builds before patching checksums
    (kdeploy.cpp:425-506): which of the three export sections the kernel
    has, their host pointers, and the check of their sizes against the
    symbol record layout. */
module Tables {
  import opened Common
  import opened Bytes
  import opened KernelInfo
  import opened Resolve

  /** The kernel's own symbols by name, as read from kallsyms. */
  type SymbolDirectory = map<string, U64>

  /** ki.find_symbol: the address of a listed symbol, 0 for any other name. */
  function Lookup(dir: SymbolDirectory, name: string): U64
  {
    if name in dir then dir[name] else 0
  }

  /** The section suffixes main tries, in the order it tries them. */
  function Suffixes(): seq<string>
  {
    ["_gpl_future", "_gpl", ""]
  }

  /** The table one export section would contribute; its host pointers
      are filled in later. */
  function Candidate(dir: SymbolDirectory, suffix: string): SymbolTable
  {
    SymbolTable(
      "ksymtab" + suffix,
      Lookup(dir, "__start___ksymtab" + suffix), Lookup(dir, "__stop___ksymtab" + suffix),
      Lookup(dir, "__start___kcrctab" + suffix), Lookup(dir, "__stop___kcrctab" + suffix),
      0, 0, 0, 0)
  }

  /** A section is used when the start of its checksum table is a known
      symbol. */
  predicate Present(dir: SymbolDirectory, suffix: string)
  {
    Lookup(dir, "__start___kcrctab" + suffix) != 0
  }

  function IfPresent(dir: SymbolDirectory, suffix: string): seq<SymbolTable>
  {
    if Present(dir, suffix) then [Candidate(dir, suffix)] else []
  }

  /** sym_tables as the three blocks of main leave it. */
  function TablesOf(dir: SymbolDirectory): seq<SymbolTable>
  {
    IfPresent(dir, "_gpl_future") + IfPresent(dir, "_gpl") + IfPresent(dir, "")
  }

  /** A section's table is in the list exactly when the section is
      present. */
  lemma TablesOfSelects(dir: SymbolDirectory, suffix: string)
    requires suffix in Suffixes()
    ensures Candidate(dir, suffix) in TablesOf(dir) <==> Present(dir, suffix)
  {
    var ts := TablesOf(dir);
    if Candidate(dir, suffix) in ts {
      var k :| 0 <= k < |ts| && ts[k] == Candidate(dir, suffix);
      assert |ts[k].name| == 7 + |suffix|;
    }
  }

  /** The list keeps the order main tries the sections in: of two tables
      of the list, the earlier one's suffix comes earlier in Suffixes(). */
  lemma TablesOfOrder(dir: SymbolDirectory)
    ensures forall i, j, a, b ::
      (&& 0 <= i < j < |TablesOf(dir)| && 0 <= a < |Suffixes()| && 0 <= b < |Suffixes()|
       && TablesOf(dir)[i] == Candidate(dir, Suffixes()[a]) && TablesOf(dir)[j] == Candidate(dir, Suffixes()[b]))
      ==> a < b
  {
    TablesOfShorterNames(dir);
    var ts := TablesOf(dir);
    forall i, j, a, b |
      0 <= i < j < |ts| && 0 <= a < |Suffixes()| && 0 <= b < |Suffixes()|
      && ts[i] == Candidate(dir, Suffixes()[a]) && ts[j] == Candidate(dir, Suffixes()[b])
      ensures a < b
    {
      assert |ts[i].name| == 7 + |Suffixes()[a]| && |ts[j].name| == 7 + |Suffixes()[b]|;
    }
  }

  /** Along the list the table names grow shorter: ksymtab_gpl_future,
      ksymtab_gpl, ksymtab. */
  lemma TablesOfShorterNames(dir: SymbolDirectory)
    ensures forall i, j :: 0 <= i < j < |TablesOf(dir)| ==> |TablesOf(dir)[j].name| < |TablesOf(dir)[i].name|
  {
    var a, b, c := IfPresent(dir, "_gpl_future"), IfPresent(dir, "_gpl"), IfPresent(dir, "");
    var ts := TablesOf(dir);
    assert ts == a + b + c;
    forall i, j | 0 <= i < j < |ts|
      ensures |ts[j].name| < |ts[i].name|
    {
      if i < |a| {
        assert |ts[i].name| == 18;
        assert |ts[j].name| <= 11 by {
          if j < |a| + |b| { assert ts[j] == b[0]; } else { assert ts[j] == c[0]; }
        }
      } else {
        assert i < |a| + |b| && ts[i] == b[0] && |ts[i].name| == 11;
        assert ts[j] == c[0] && |ts[j].name| == 7;
      }
    }
  }

  /** t is the table of one of the sections main tries, and that section
      is present. */
  predicate OfPresentSection(dir: SymbolDirectory, t: SymbolTable)
  {
    exists suffix :: suffix in Suffixes() && Present(dir, suffix) && t == Candidate(dir, suffix)
  }

  lemma Witness(dir: SymbolDirectory, suffix: string, t: SymbolTable)
    requires suffix in Suffixes() && IfPresent(dir, suffix) == [t]
    ensures OfPresentSection(dir, t)
  {
    assert Present(dir, suffix) && t == Candidate(dir, suffix);
  }

  /** Every table in the list belongs to a present section, with the
      section symbols' addresses and no pointers yet. */
  lemma TablesOfShape(dir: SymbolDirectory)
    ensures |TablesOf(dir)| <= 3
    ensures forall k :: 0 <= k < |TablesOf(dir)| ==> OfPresentSection(dir, TablesOf(dir)[k])
  {
    var a, b, c := IfPresent(dir, "_gpl_future"), IfPresent(dir, "_gpl"), IfPresent(dir, "");
    var ts := TablesOf(dir);
    assert ts == a + b + c;
    forall k | 0 <= k < |ts|
      ensures OfPresentSection(dir, ts[k])
    {
      if k < |a| {
        assert ts[k] == a[0];
        Witness(dir, "_gpl_future", ts[k]);
      } else if k < |a| + |b| {
        assert ts[k] == b[0];
        Witness(dir, "_gpl", ts[k]);
      } else {
        assert ts[k] == c[0];
        Witness(dir, "", ts[k]);
      }
    }
  }

  // ---------------------------------------------------------------------------
  // Host pointers

  /** The pointer fields main fills in for one table. */
  function WithPointers(kv: KernelView, t: SymbolTable): SymbolTable
  {
    t.(symbolStartPtr := kv.PtrOfSym(t.symbolStart), symbolStopPtr := kv.PtrOfSym(t.symbolStop),
       crcStartPtr := kv.PtrOfSym(t.crcStart), crcStopPtr := kv.PtrOfSym(t.crcStop))
  }

  function Filled(kv: KernelView, tables: seq<SymbolTable>): (ts: seq<SymbolTable>)
    ensures |ts| == |tables|
  {
    seq(|tables|, k requires 0 <= k < |tables| => WithPointers(kv, tables[k]))
  }

  /** The loop over sym_tables that stores ptr_of_sym of each bound. */
  method FillPointers(kv: KernelView, tables: seq<SymbolTable>) returns (ts: seq<SymbolTable>)
    ensures ts == Filled(kv, tables)
  {
    ts := tables;
    var k := 0;
    while k < |ts|
      invariant k <= |ts| == |tables|
      invariant ts[..k] == Filled(kv, tables)[..k]
      invariant ts[k..] == tables[k..]
    {
      assert ts[k] == tables[k];
      ts := ts[k := WithPointers(kv, ts[k])];
      k := k + 1;
    }
  }

  /** Filling the pointers changes nothing but the pointers, and each
      pointer pair is as far apart as the kernel addresses it came from. */
  lemma FilledKeepsDistances(kv: KernelView, tables: seq<SymbolTable>, k: nat)
    requires k < |tables|
    ensures var t, u := tables[k], Filled(kv, tables)[k];
      && u.name == t.name && u.symbolStart == t.symbolStart && u.symbolStop == t.symbolStop
      && u.crcStart == t.crcStart && u.crcStop == t.crcStop
      && u.crcStartPtr == kv.PtrOfSym(t.crcStart)
      && Wrap64(u.symbolStopPtr - u.symbolStartPtr) == Wrap64(t.symbolStop - t.symbolStart)
  {
    HostDistance(kv, tables[k].symbolStart, tables[k].symbolStop);
  }

  // ---------------------------------------------------------------------------
  // The size check

  /** Each table's symbol area holds a whole number of records of the
      selected layout; with no layout nothing is checked. */
  predicate TablesFit(l: Layout, tables: seq<SymbolTable>)
  {
    l != NoLayout ==>
      forall k :: 0 <= k < |tables| ==> Wrap64(tables[k].symbolStop - tables[k].symbolStart) % RecordSize(l) == 0
  }

  /** The loop that rejects a table whose size is not a multiple of the
      record size: the four tests, one per layout, amount to one test with
      the selected layout's size. */
  method CheckTables(l: Layout, tables: seq<SymbolTable>) returns (r: Result<()>)
    ensures r.Ok? <==> TablesFit(l, tables)
    ensures r.Err? ==> r.error == WrongSymbolTableSize
  {
    var k := 0;
    while k < |tables|
      invariant k <= |tables|
      invariant l != NoLayout ==>
        forall i :: 0 <= i < k ==> Wrap64(tables[i].symbolStop - tables[i].symbolStart) % RecordSize(l) == 0
    {
      var size := Wrap64(tables[k].symbolStop - tables[k].symbolStart);
      if l == V1 && size % 16 != 0 {
        return Err(WrongSymbolTableSize);
      }
      if l == V2 && size % 8 != 0 {
        return Err(WrongSymbolTableSize);
      }
      if l == V3 && size % 12 != 0 {
        return Err(WrongSymbolTableSize);
      }
      if l == V4 && size % 24 != 0 {
        return Err(WrongSymbolTableSize);
      }
      k := k + 1;
    }
    return Ok(());
  }

  /** Filling the pointers does not change what the size check sees. */
  lemma FilledFits(kv: KernelView, tables: seq<SymbolTable>)
    ensures TablesFit(kv.layout, Filled(kv, tables)) <==> TablesFit(kv.layout, tables)
  {
    var ts := Filled(kv, tables);
    forall k | 0 <= k < |tables|
      ensures ts[k].symbolStop - ts[k].symbolStart == tables[k].symbolStop - tables[k].symbolStart
    {
      assert ts[k] == WithPointers(kv, tables[k]);
    }
  }

  /** Tables that pass the size check can be walked once their pointers
      are filled in: the checksum lookup's precondition. */
  lemma FitTablesAreWalkable(kv: KernelView, tables: seq<SymbolTable>)
    requires TablesFit(kv.layout, tables)
    ensures TablesWalkable(kv, Filled(kv, tables))
  {
    if kv.layout != NoLayout {
      forall k | 0 <= k < |tables|
        ensures Walkable(kv.layout, Filled(kv, tables)[k].symbolStartPtr, Filled(kv, tables)[k].symbolStopPtr)
      {
        FilledKeepsDistances(kv, tables, k);
      }
    }
  }
}
