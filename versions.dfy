/** The checksum patch of main (kdeploy.cpp:512-525): for each entry of
    the module's __versions section, the checksum the running kernel
    exports for the entry's name replaces the one the module was built
    with. */
module Versions {
  import opened Common
  import opened Bytes
  import opened KernelInfo
  import opened Private
  import opened Resolve

  /** Buffer offset of entry k of a __versions section at off. */
  function EntryAt(off: nat, k: nat): nat
  {
    off + 64 * k
  }

  /** The name of entry k: the C string in its name field. */
  function EntryName(s: seq<byte>, off: nat, k: nat): seq<byte>
    requires EntryAt(off, k) + SYMBOL_VERSION_SIZE <= |s|
  {
    CStringAt(s, EntryAt(off, k) + SYMBOL_VERSION_NAME)
  }

  /** find_symbol_crc for entry k. */
  function EntryLookup(kv: KernelView, tables: seq<SymbolTable>, s: seq<byte>, off: nat, k: nat): Result<(bool, U64)>
    requires EntryAt(off, k) + SYMBOL_VERSION_SIZE <= |s|
  {
    CrcOf(kv, EntryName(s, off, k), tables, 0)
  }

  /** What entry k's lookup contributes: the checksum to store, if the
      name was found. */
  function FoundCrc(r: Result<(bool, U64)>): Option<U64>
  {
    if r.Ok? && r.value.0 then Some(r.value.1) else None
  }

  /** The lookups of the first n entries, in order. */
  function Lookups(kv: KernelView, tables: seq<SymbolTable>, s: seq<byte>, off: nat, n: nat): (ls: seq<Result<(bool, U64)>>)
    requires off + 64 * n <= |s|
    ensures |ls| == n
  {
    if n == 0 then [] else Lookups(kv, tables, s, off, n - 1) + [EntryLookup(kv, tables, s, off, n - 1)]
  }

  lemma {:induction false} LookupsAt(kv: KernelView, tables: seq<SymbolTable>, s: seq<byte>, off: nat, n: nat, k: nat)
    requires off + 64 * n <= |s| && k < n
    ensures Lookups(kv, tables, s, off, n)[k] == EntryLookup(kv, tables, s, off, k)
  {
    if k < n - 1 {
      LookupsAt(kv, tables, s, off, n - 1, k);
    }
  }

  /** The section with its first m entries patched from crcs: an entry
      with a checksum gets it, any other keeps its own. */
  function Patched(s: seq<byte>, off: nat, crcs: seq<Option<U64>>, m: nat): (r: seq<byte>)
    requires m <= |crcs| && off + 64 * m <= |s|
    ensures |r| == |s|
  {
    if m == 0 then s
    else
      var before := Patched(s, off, crcs, m - 1);
      match crcs[m - 1]
      case Some(crc) => Overwrite(before, EntryAt(off, m - 1), LE64(crc))
      case None => before
  }

  function FoundCrcs(ls: seq<Result<(bool, U64)>>): (crcs: seq<Option<U64>>)
    ensures |crcs| == |ls|
  {
    seq(|ls|, k requires 0 <= k < |ls| => FoundCrc(ls[k]))
  }

  /** The error of the first failing lookup from k on, if any. */
  function Failure(ls: seq<Result<(bool, U64)>>, k: nat): Option<Error>
    decreases |ls| - k
  {
    if k >= |ls| then None
    else if ls[k].Err? then Some(ls[k].error)
    else Failure(ls, k + 1)
  }

  /** Failure is the first failure: none exactly when every lookup from k
      on succeeds, and otherwise the error of a failing lookup with only
      successes before it. */
  lemma {:induction false} FailureIsFirst(ls: seq<Result<(bool, U64)>>, k: nat) returns (j: nat)
    ensures Failure(ls, k).None? <==> forall i :: k <= i < |ls| ==> ls[i].Ok?
    ensures Failure(ls, k).Some? ==>
      && k <= j < |ls| && ls[j].Err? && Failure(ls, k).value == ls[j].error
      && forall i :: k <= i < j ==> ls[i].Ok?
    decreases |ls| - k
  {
    j := k;
    if k < |ls| {
      if !ls[k].Err? {
        j := FailureIsFirst(ls, k + 1);
      }
    }
  }

  /** What the loop leaves: the first failing lookup's error, or the
      section with every entry patched. */
  function Outcome(kv: KernelView, tables: seq<SymbolTable>, s: seq<byte>, off: nat, n: nat): Result<seq<byte>>
    requires off + 64 * n <= |s|
  {
    var ls := Lookups(kv, tables, s, off, n);
    match Failure(ls, 0)
    case Some(e) => Err(e)
    case None => Ok(Patched(s, off, FoundCrcs(ls), n))
  }

  /** Patching the first m entries leaves every byte from entry m on as it
      was. */
  lemma {:induction false} PatchedAhead(s: seq<byte>, off: nat, crcs: seq<Option<U64>>, m: nat)
    requires m <= |crcs| && off + 64 * m <= |s|
    ensures Patched(s, off, crcs, m)[EntryAt(off, m)..] == s[EntryAt(off, m)..]
  {
    if m > 0 {
      PatchedAhead(s, off, crcs, m - 1);
      var before := Patched(s, off, crcs, m - 1);
      var e := EntryAt(off, m);
      assert before[e..] == before[EntryAt(off, m - 1)..][SYMBOL_VERSION_SIZE..];
      assert s[e..] == s[EntryAt(off, m - 1)..][SYMBOL_VERSION_SIZE..];
    }
  }

  /** The name the loop reads for entry i is the entry's original name:
      patching earlier entries touches nothing at or after entry i. */
  lemma NameBeforePatch(s: seq<byte>, off: nat, crcs: seq<Option<U64>>, i: nat)
    requires i <= |crcs| && EntryAt(off, i) + SYMBOL_VERSION_SIZE <= |s|
    ensures CStringAt(Patched(s, off, crcs, i), EntryAt(off, i) + SYMBOL_VERSION_NAME) == EntryName(s, off, i)
  {
    PatchedAhead(s, off, crcs, i);
    CStringSameTail(Patched(s, off, crcs, i), s, EntryAt(off, i), EntryAt(off, i) + SYMBOL_VERSION_NAME);
  }

  /** The lookup the loop makes for entry i, on the buffer with the
      entries before i patched, is entry i's lookup on the original
      buffer, and what it contributes is entry i's checksum. */
  lemma LookupStep(kv: KernelView, tables: seq<SymbolTable>, s: seq<byte>, off: nat, n: nat, i: nat)
    requires off + 64 * n <= |s| && i < n
    ensures var ls := Lookups(kv, tables, s, off, n);
      && CrcOf(kv, CStringAt(Patched(s, off, FoundCrcs(ls), i), EntryAt(off, i) + SYMBOL_VERSION_NAME), tables, 0) == ls[i]
      && FoundCrcs(ls)[i] == FoundCrc(ls[i])
  {
    NameBeforePatch(s, off, FoundCrcs(Lookups(kv, tables, s, off, n)), i);
    LookupsAt(kv, tables, s, off, n, i);
  }

  /** One pass of the loop of main: look up entry i's name in the kernel
      tables and store the checksum found into the entry's field. */
  method PatchEntry(ko: array<byte>, off: nat, n: nat, i: nat, kv: KernelView, tables: seq<SymbolTable>,
                    ghost s: seq<byte>)
    returns (r: Result<()>)
    requires off + 64 * n <= |s| == ko.Length && i < n
    requires TablesWalkable(kv, tables)
    requires ko[..] == Patched(s, off, FoundCrcs(Lookups(kv, tables, s, off, n)), i)
    modifies ko
    ensures r.Ok? <==> Lookups(kv, tables, s, off, n)[i].Ok?
    ensures r.Ok? ==> ko[..] == Patched(s, off, FoundCrcs(Lookups(kv, tables, s, off, n)), i + 1)
    ensures r.Err? ==> r.error == Lookups(kv, tables, s, off, n)[i].error
  {
    ghost var ls := Lookups(kv, tables, s, off, n);
    LookupStep(kv, tables, s, off, n, i);
    var name := CStringAt(ko[..], EntryAt(off, i) + SYMBOL_VERSION_NAME);
    var res := FindSymbolCrc(kv, name, tables);
    if res.Err? {
      return Err(res.error);
    }
    var (found, crc) := res.value;
    if found {
      Store(ko, EntryAt(off, i), LE64(crc));
    }
    return Ok(());
  }

  /** A run that ends with r and the buffer buf is the outcome o: the same
      error, or success with buf as the patched contents. */
  predicate Reports(r: Result<()>, buf: seq<byte>, o: Result<seq<byte>>)
  {
    match r
    case Ok(_) => o == Ok(buf)
    case Err(e) => o == Err(e)
  }

  /** The loop of main over the __versions entries. */
  method PatchVersions(ko: array<byte>, off: nat, n: nat, kv: KernelView, tables: seq<SymbolTable>)
    returns (r: Result<()>)
    requires off + 64 * n <= ko.Length
    requires TablesWalkable(kv, tables)
    modifies ko
    ensures Reports(r, ko[..], Outcome(kv, tables, old(ko[..]), off, n))
  {
    ghost var s := ko[..];
    ghost var ls := Lookups(kv, tables, s, off, n);
    var i := 0;
    while i < n
      invariant i <= n
      invariant ko[..] == Patched(s, off, FoundCrcs(ls), i)
      invariant Failure(ls, i) == Failure(ls, 0)
    {
      var step := PatchEntry(ko, off, n, i, kv, tables, s);
      if step.Err? {
        return Err(step.error);
      }
      i := i + 1;
    }
    return Ok(());
  }

  /** After the patch, the checksum field of an entry with a checksum holds
      it, little-endian. */
  lemma FoundCrcStored(s: seq<byte>, off: nat, crcs: seq<Option<U64>>, n: nat, k: nat)
    requires n <= |crcs| && off + 64 * n <= |s| && k < n && crcs[k].Some?
    ensures ReadU64(Patched(s, off, crcs, n), EntryAt(off, k)) == crcs[k].value
  {
    PatchedAt(s, off, crcs, n, k);
    ReadStored(Patched(s, off, crcs, n), EntryAt(off, k), crcs[k].value);
  }

  /** An entry without a checksum keeps the one it had. */
  lemma MissingCrcKept(s: seq<byte>, off: nat, crcs: seq<Option<U64>>, n: nat, k: nat)
    requires n <= |crcs| && off + 64 * n <= |s| && k < n && crcs[k].None?
    ensures ReadU64(Patched(s, off, crcs, n), EntryAt(off, k)) == ReadU64(s, EntryAt(off, k))
  {
    PatchedAt(s, off, crcs, n, k);
    var p := Patched(s, off, crcs, n);
    var e := EntryAt(off, k);
    ReadU64IsDecodeLE(p, e);
    ReadU64IsDecodeLE(s, e);
  }

  /** The checksum field of entry k after patching the first m entries. */
  lemma {:induction false} PatchedAt(s: seq<byte>, off: nat, crcs: seq<Option<U64>>, m: nat, k: nat)
    requires m <= |crcs| && off + 64 * m <= |s| && k < m
    ensures var e := EntryAt(off, k);
      Patched(s, off, crcs, m)[e..e + 8] == if crcs[k].Some? then LE64(crcs[k].value) else s[e..e + 8]
  {
    var e := EntryAt(off, k);
    var before := Patched(s, off, crcs, m - 1);
    if k == m - 1 {
      PatchedAhead(s, off, crcs, m - 1);
      assert before[e..e + 8] == before[e..][..8];
      assert s[e..e + 8] == s[e..][..8];
    } else {
      PatchedAt(s, off, crcs, m - 1, k);
      var w := EntryAt(off, m - 1);
      assert e + 8 <= w;
      var after := Patched(s, off, crcs, m);
      assert after[e..e + 8] == before[e..e + 8] by {
        forall j | e <= j < e + 8
          ensures after[j] == before[j]
        {
        }
      }
    }
  }

  /** Bytes outside every checksum field, the names among them, are left
      as they were. */
  lemma {:induction false} PatchedElsewhere(s: seq<byte>, off: nat, crcs: seq<Option<U64>>, m: nat, j: nat)
    requires m <= |crcs| && off + 64 * m <= |s| && j < |s|
    requires forall k :: 0 <= k < m ==> !(EntryAt(off, k) <= j < EntryAt(off, k) + 8)
    ensures Patched(s, off, crcs, m)[j] == s[j]
  {
    if m > 0 {
      assert !(EntryAt(off, m - 1) <= j < EntryAt(off, m - 1) + 8);
      PatchedElsewhere(s, off, crcs, m - 1, j);
    }
  }

  /** When the loop runs to the end, every lookup succeeded, and each
      entry's checksum field holds the checksum the kernel exports for its
      name, or its own checksum when the name was not found. */
  lemma OutcomeStoresEachCrc(kv: KernelView, tables: seq<SymbolTable>, s: seq<byte>, off: nat, n: nat, k: nat)
    requires off + 64 * n <= |s| && k < n && Outcome(kv, tables, s, off, n).Ok?
    ensures var l := EntryLookup(kv, tables, s, off, k);
      && l.Ok?
      && ReadU64(Outcome(kv, tables, s, off, n).value, EntryAt(off, k))
         == if l.value.0 then l.value.1 else ReadU64(s, EntryAt(off, k))
  {
    var ls := Lookups(kv, tables, s, off, n);
    var crcs := FoundCrcs(ls);
    LookupsAt(kv, tables, s, off, n, k);
    var _ := FailureIsFirst(ls, 0);
    assert ls[k].Ok?;
    assert crcs[k] == FoundCrc(ls[k]);
    if crcs[k].Some? {
      FoundCrcStored(s, off, crcs, n, k);
    } else {
      MissingCrcKept(s, off, crcs, n, k);
    }
  }

  /** The loop stops with an error exactly when some entry's lookup fails,
      and the error is that of the first failing one. */
  lemma OutcomeFailsAtFirstError(kv: KernelView, tables: seq<SymbolTable>, s: seq<byte>, off: nat, n: nat)
    requires off + 64 * n <= |s|
    ensures Outcome(kv, tables, s, off, n).Err? <==>
      exists k :: 0 <= k < n && EntryLookup(kv, tables, s, off, k).Err?
    ensures Outcome(kv, tables, s, off, n).Err? ==>
      exists k :: 0 <= k < n && EntryLookup(kv, tables, s, off, k).Err?
        && Outcome(kv, tables, s, off, n).error == EntryLookup(kv, tables, s, off, k).error
        && forall i :: 0 <= i < k ==> EntryLookup(kv, tables, s, off, i).Ok?
  {
    var ls := Lookups(kv, tables, s, off, n);
    var j := FailureIsFirst(ls, 0);
    forall i | 0 <= i < n
      ensures ls[i] == EntryLookup(kv, tables, s, off, i)
    {
      LookupsAt(kv, tables, s, off, n, i);
    }
  }

  /** Bytes outside the checksum fields of the n entries, the names among
      them, are the same after the loop. */
  lemma OutcomeKeepsOtherBytes(kv: KernelView, tables: seq<SymbolTable>, s: seq<byte>, off: nat, n: nat, j: nat)
    requires off + 64 * n <= |s| && j < |s| && Outcome(kv, tables, s, off, n).Ok?
    requires forall k :: 0 <= k < n ==> !(EntryAt(off, k) <= j < EntryAt(off, k) + 8)
    ensures |Outcome(kv, tables, s, off, n).value| == |s|
    ensures Outcome(kv, tables, s, off, n).value[j] == s[j]
  {
    var ls := Lookups(kv, tables, s, off, n);
    PatchedElsewhere(s, off, FoundCrcs(ls), n, j);
  }
}
