/** Failure-compatible wrappers and the error taxonomy of the deploy tool. */
module Common {

  datatype Option<+T> = None | Some(value: T)

  /** The ways a run of the deploy tool can stop. Every one of them aborts
      the run with no output written; a symbol missing from the kernel's
      tables is not an error (it is reported per symbol instead). */
  datatype Error =
    | DecodeFailed              // the disassembler produced no instruction
    | PatternNotFound           // the expected instruction fingerprint is absent
    | UnsupportedRelocation     // __relocate_kernel starts with ADR or an unknown instruction
    | AddressOutsideImage       // a host pointer does not point into the kernel buffer
    | SymbolSizeNotFound        // the kernel symbol struct size came out as 0
    | UnsupportedSymbolLayout   // a table was scanned with no known record layout
    | WrongSymbolTableSize      // a table's length is not a multiple of the record size
    | ThisModuleRelaMissing     // the module has no .rela.gnu.linkonce.this_module section

  datatype Result<+T> = Ok(value: T) | Err(error: Error) {
    predicate IsFailure() { Err? }
    function PropagateFailure<U>(): Result<U>
      requires Err?
    {
      Err(error)
    }
    function Extract(): T
      requires Ok?
    {
      value
    }
  }

  // ---------------------------------------------------------------------------
  // Searching a sequence for a pattern

  predicate OccursAt<T(==)>(s: seq<T>, pat: seq<T>, k: nat)
  {
    k + |pat| <= |s| && s[k..k + |pat|] == pat
  }

  /** The first position at or after from where pat occurs in s: what
      basic_string::find returns on the opcode string, and what memmem
      returns on the bytes that remain after from. */
  function FindFrom<T(==)>(s: seq<T>, pat: seq<T>, from: nat): (r: Option<nat>)
    requires |pat| > 0
    ensures r.Some? ==> from <= r.value && OccursAt(s, pat, r.value)
    decreases |s| - from
  {
    if from + |pat| > |s| then None
    else if s[from..from + |pat|] == pat then Some(from)
    else FindFrom(s, pat, from + 1)
  }

  /** FindFrom misses nothing: no occurrence lies between from and the
      position it returns, and None means there is none at or after from. */
  lemma {:induction false} FindFromIsFirst<T>(s: seq<T>, pat: seq<T>, from: nat)
    requires |pat| > 0
    ensures FindFrom(s, pat, from).Some? ==>
      forall k :: from <= k < FindFrom(s, pat, from).value ==> !OccursAt(s, pat, k)
    ensures FindFrom(s, pat, from).None? ==> forall k :: from <= k ==> !OccursAt(s, pat, k)
    decreases |s| - from
  {
    if from + |pat| <= |s| && s[from..from + |pat|] != pat {
      FindFromIsFirst(s, pat, from + 1);
    }
  }

  /** The first index in [i, n) that satisfies p, or -1. */
  function FirstWhere(p: nat -> bool, n: nat, i: nat): (r: int)
    ensures r == -1 || i <= r < n
    decreases n - i
  {
    if i >= n then -1
    else if p(i) then i
    else FirstWhere(p, n, i + 1)
  }

  /** FirstWhere is the first match: -1 exactly when no index in [i, n)
      satisfies p, and otherwise an index that does with none before it. */
  lemma {:induction false} FirstWhereIsFirst(p: nat -> bool, n: nat, i: nat)
    ensures var r := FirstWhere(p, n, i);
      && (r == -1 <==> forall j :: i <= j < n ==> !p(j))
      && (r != -1 ==> p(r) && forall j :: i <= j < r ==> !p(j))
    decreases n - i
  {
    if i < n && !p(i) {
      FirstWhereIsFirst(p, n, i + 1);
    }
  }

  /** The last index below n that satisfies p. */
  function LastWhere(p: nat -> bool, n: nat): (r: Option<nat>)
    ensures r.Some? ==> r.value < n
  {
    if n == 0 then None
    else if p(n - 1) then Some(n - 1)
    else LastWhere(p, n - 1)
  }

  /** LastWhere is the last match: None exactly when no index below n
      satisfies p, and otherwise an index that does with none after it. */
  lemma {:induction false} LastWhereIsLast(p: nat -> bool, n: nat)
    ensures var r := LastWhere(p, n);
      && (r.None? <==> forall j :: 0 <= j < n ==> !p(j))
      && (r.Some? ==> p(r.value) && forall j :: r.value < j < n ==> !p(j))
  {
    if n > 0 && !p(n - 1) {
      LastWhereIsLast(p, n - 1);
    }
  }
}
