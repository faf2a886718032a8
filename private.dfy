/** The build-time placeholders and fixed record layouts shared by the
    kernel modules and the deploy tool (include/kagent/private.h). */
module Private {
  import opened Bytes

  function Repeat(s: seq<byte>, n: nat): (r: seq<byte>)
    ensures |r| == n * |s|
    ensures NulFree(s) ==> NulFree(r)
  {
    if n == 0 then [] else s + Repeat(s, n - 1)
  }

  function Ascii(s: string): (r: seq<byte>)
    requires forall j :: 0 <= j < |s| ==> s[j] as int < 128
    ensures |r| == |s|
    ensures forall j :: 0 <= j < |s| ==> r[j] == s[j] as int
  {
    seq(|s|, j requires 0 <= j < |s| => s[j] as int)
  }

  /** The characters of VERMAGIC_PLACEHOLDER: "VERMAGIC" sixteen times. */
  function VermagicPlaceholder(): seq<byte>
  {
    Repeat(Ascii("VERMAGIC"), 16)
  }

  /** The characters of RANDOM_NAME_PLACEHOLDER. */
  function RandomNamePlaceholder(): seq<byte>
  {
    Ascii("RANDOMNAME")
  }

  /** What sizeof gives for a string literal: its characters and the NUL. */
  function WithNul(s: seq<byte>): seq<byte>
  {
    s + [0]
  }

  lemma PlaceholderSizes()
    ensures |VermagicPlaceholder()| == 128 && |WithNul(VermagicPlaceholder())| == 129
    ensures |RandomNamePlaceholder()| == 10 && |WithNul(RandomNamePlaceholder())| == 11
    ensures NulFree(VermagicPlaceholder()) && NulFree(RandomNamePlaceholder())
  {
    var v, r := Ascii("VERMAGIC"), Ascii("RANDOMNAME");
    assert NulFree(v);
    assert NulFree(r);
  }

  // struct PACKED SymbolVersion { unsigned long crc; char name[56]; }
  const SYMBOL_VERSION_SIZE: nat := 64
  const SYMBOL_VERSION_CRC: nat := 0
  const SYMBOL_VERSION_NAME: nat := 8
  const SYMBOL_VERSION_NAME_LEN: nat := SYMBOL_VERSION_SIZE - 8

  // struct KernelModule { void* state; void* init; void* exit; ... }
  const MODULE_STATE_OFFSET: nat := 0
  const MODULE_INIT_OFFSET: nat := 8
  const MODULE_EXIT_OFFSET: nat := 16
}
