/** The placeholder rewrite at the end of main (kdeploy.cpp:544-571): each
    occurrence of a placeholder string, its NUL included, is cleared and
    then prefixed with the replacement, and the search resumes after it. */
module Placeholder {
  import opened Common
  import opened Bytes

  /** memset(ptr, 0, n). */
  function Zeros(n: nat): (z: seq<byte>)
    ensures |z| == n && forall j :: 0 <= j < n ==> z[j] == 0
  {
    seq(n, _ => 0)
  }

  /** What an n-byte occurrence holds once it has been cleared and repl has
      been copied over its start: repl, then NULs up to the end. */
  function Field(repl: seq<byte>, n: nat): (f: seq<byte>)
    requires |repl| <= n
    ensures |f| == n
    ensures forall j :: 0 <= j < |repl| ==> f[j] == repl[j]
    ensures forall j :: |repl| <= j < n ==> f[j] == 0
  {
    repl + Zeros(n - |repl|)
  }

  /** The memset followed by the memcpy stores Field. */
  lemma ClearThenCopy(s: seq<byte>, p: nat, n: nat, repl: seq<byte>)
    requires |repl| <= n && p + n <= |s|
    ensures Overwrite(Overwrite(s, p, Zeros(n)), p, repl) == Overwrite(s, p, Field(repl, n))
  {
    var a := Overwrite(Overwrite(s, p, Zeros(n)), p, repl);
    var b := Overwrite(s, p, Field(repl, n));
    forall j | 0 <= j < |s|
      ensures a[j] == b[j]
    {
    }
  }

  /** A replacement as long as the placeholder fills the whole field, the
      placeholder's NUL included. */
  lemma FullLengthFieldIsReplacement(repl: seq<byte>)
    ensures Field(repl, |repl|) == repl
  {
  }

  /** The position just past an occurrence of pat at p: where the search
      resumes. */
  function After(p: nat, pat: seq<byte>): nat
  {
    p + |pat|
  }

  /** The contents of s from position from on, once every occurrence of pat
      the search meets there has been rewritten; the search looks at the
      bytes from its resume point to the end of the buffer. */
  function ReplacedFrom(s: seq<byte>, pat: seq<byte>, repl: seq<byte>, from: nat): (r: seq<byte>)
    requires |pat| > 0 && |repl| <= |pat| && from <= |s|
    ensures |r| == |s| - from
    decreases |s| - from
  {
    match FindFrom(s, pat, from)
    case None => s[from..]
    case Some(p) => s[from..p] + Field(repl, |pat|) + ReplacedFrom(s, pat, repl, After(p, pat))
  }

  /** The positions of the occurrences the loop rewrites, from position from
      on, in the order it visits them. */
  function Occurrences(s: seq<byte>, pat: seq<byte>, from: nat): (occ: seq<nat>)
    requires |pat| > 0
    ensures forall k :: 0 <= k < |occ| ==> from <= occ[k] && occ[k] + |pat| <= |s|
    decreases |s| - from
  {
    match FindFrom(s, pat, from)
    case None => []
    case Some(p) => [p] + Occurrences(s, pat, After(p, pat))
  }

  /** Each visited position holds pat. */
  lemma {:induction false} OccurrencesMatch(s: seq<byte>, pat: seq<byte>, from: nat, k: nat)
    requires |pat| > 0 && k < |Occurrences(s, pat, from)|
    ensures OccursAt(s, pat, Occurrences(s, pat, from)[k])
    decreases |s| - from
  {
    match FindFrom(s, pat, from)
    case Some(p) =>
      var rest := Occurrences(s, pat, After(p, pat));
      assert Occurrences(s, pat, from) == [p] + rest;
      if k > 0 {
        assert Occurrences(s, pat, from)[k] == rest[k - 1];
        OccurrencesMatch(s, pat, After(p, pat), k - 1);
      }
  }

  /** The visited occurrences are the leftmost non-overlapping ones: every
      occurrence of pat at or after from is one of them or overlaps one. */
  lemma {:induction false} OccurrencesAreGreedy(s: seq<byte>, pat: seq<byte>, from: nat, q: nat) returns (k: nat)
    requires |pat| > 0 && from <= q && OccursAt(s, pat, q)
    ensures k < |Occurrences(s, pat, from)|
    ensures Occurrences(s, pat, from)[k] <= q < Occurrences(s, pat, from)[k] + |pat|
    decreases |s| - from
  {
    FindFromIsFirst(s, pat, from);
    match FindFrom(s, pat, from)
    case None =>
      assert false;
    case Some(p) =>
      var rest := Occurrences(s, pat, After(p, pat));
      assert Occurrences(s, pat, from) == [p] + rest;
      if q < After(p, pat) {
        IndexLeft([p], rest, 0);
        k := 0;
      } else {
        var i := OccurrencesAreGreedy(s, pat, After(p, pat), q);
        IndexRight([p], rest, i);
        k := i + 1;
      }
  }

  lemma IndexLeft<T>(a: seq<T>, b: seq<T>, i: nat)
    requires i < |a|
    ensures (a + b)[i] == a[i]
  {
  }

  lemma IndexRight<T>(a: seq<T>, b: seq<T>, i: nat)
    requires i < |b|
    ensures (a + b)[|a| + i] == b[i]
  {
  }

  /** One visited occurrence at p, found from from: both the rewrite and the
      occurrence list start with it. */
  lemma UnfoldAt(s: seq<byte>, pat: seq<byte>, repl: seq<byte>, from: nat, p: nat)
    requires |pat| > 0 && |repl| <= |pat| && from <= |s| && FindFrom(s, pat, from) == Some(p)
    ensures from <= p && After(p, pat) <= |s|
    ensures ReplacedFrom(s, pat, repl, from)
      == (s[from..p] + Field(repl, |pat|)) + ReplacedFrom(s, pat, repl, After(p, pat))
    ensures Occurrences(s, pat, from) == [p] + Occurrences(s, pat, After(p, pat))
  {
    UnfoldReplaced(s, pat, repl, from, p);
    UnfoldOccurrences(s, pat, from, p);
  }

  lemma UnfoldReplaced(s: seq<byte>, pat: seq<byte>, repl: seq<byte>, from: nat, p: nat)
    requires |pat| > 0 && |repl| <= |pat| && from <= |s| && FindFrom(s, pat, from) == Some(p)
    ensures After(p, pat) <= |s|
    ensures ReplacedFrom(s, pat, repl, from)
      == (s[from..p] + Field(repl, |pat|)) + ReplacedFrom(s, pat, repl, After(p, pat))
  {
  }

  lemma UnfoldOccurrences(s: seq<byte>, pat: seq<byte>, from: nat, p: nat)
    requires |pat| > 0 && FindFrom(s, pat, from) == Some(p)
    ensures Occurrences(s, pat, from) == [p] + Occurrences(s, pat, After(p, pat))
  {
  }

  /** Positions in increasing order, each at least n past the previous one
      (the first at or after from), each with n bytes inside a buffer of
      length len. */
  predicate Spaced(occ: seq<nat>, from: nat, n: nat, len: nat)
    decreases |occ|
  {
    occ == [] || (from <= occ[0] && occ[0] + n <= len && Spaced(occ[1..], occ[0] + n, n, len))
  }

  /** Spaced positions do not overlap. */
  lemma {:induction false} SpacedApart(occ: seq<nat>, from: nat, n: nat, len: nat, i: nat, j: nat)
    requires Spaced(occ, from, n, len) && i < j < |occ|
    ensures from <= occ[i] && occ[i] + n <= occ[j] && occ[j] + n <= len
    decreases |occ|
  {
    SpacedFrom(occ[1..], occ[0] + n, n, len, j - 1);
    if i > 0 {
      SpacedApart(occ[1..], occ[0] + n, n, len, i - 1, j - 1);
    }
  }

  lemma {:induction false} SpacedFrom(occ: seq<nat>, from: nat, n: nat, len: nat, k: nat)
    requires Spaced(occ, from, n, len) && k < |occ|
    ensures from <= occ[k] && occ[k] + n <= len
    decreases |occ|
  {
    if k > 0 {
      SpacedFrom(occ[1..], occ[0] + n, n, len, k - 1);
    }
  }

  /** s from position from on with f written at each position of occ. */
  function Spliced(s: seq<byte>, from: nat, occ: seq<nat>, f: seq<byte>): (r: seq<byte>)
    requires from <= |s| && Spaced(occ, from, |f|, |s|)
    ensures |r| == |s| - from
    decreases |occ|
  {
    if occ == [] then s[from..]
    else s[from..occ[0]] + f + Spliced(s, occ[0] + |f|, occ[1..], f)
  }

  /** The occurrences the search visits are spaced a placeholder apart. */
  lemma {:induction false} OccurrencesSpaced(s: seq<byte>, pat: seq<byte>, from: nat)
    requires |pat| > 0 && from <= |s|
    ensures Spaced(Occurrences(s, pat, from), from, |pat|, |s|)
    decreases |s| - from
  {
    match FindFrom(s, pat, from)
    case None =>
    case Some(p) =>
      var rest := Occurrences(s, pat, After(p, pat));
      assert Occurrences(s, pat, from) == [p] + rest;
      OccurrencesSpaced(s, pat, After(p, pat));
      assert ([p] + rest)[1..] == rest;
  }

  /** The rewrite is the splice of Field at the occurrences the search
      visits. */
  lemma {:induction false} ReplacedIsSpliced(s: seq<byte>, pat: seq<byte>, repl: seq<byte>, from: nat)
    requires |pat| > 0 && |repl| <= |pat| && from <= |s|
    ensures Spaced(Occurrences(s, pat, from), from, |pat|, |s|)
    ensures ReplacedFrom(s, pat, repl, from) == Spliced(s, from, Occurrences(s, pat, from), Field(repl, |pat|))
    decreases |s| - from
  {
    OccurrencesSpaced(s, pat, from);
    match FindFrom(s, pat, from)
    case None =>
    case Some(p) =>
      UnfoldAt(s, pat, repl, from, p);
      ReplacedIsSpliced(s, pat, repl, After(p, pat));
      var occ := Occurrences(s, pat, from);
      assert occ[0] == p && occ[1..] == Occurrences(s, pat, After(p, pat));
      SpliceCons(s, from, occ, Field(repl, |pat|));
  }

  lemma SpliceCons(s: seq<byte>, from: nat, occ: seq<nat>, f: seq<byte>)
    requires from <= |s| && occ != [] && from <= occ[0] && occ[0] + |f| <= |s|
    requires Spaced(occ[1..], occ[0] + |f|, |f|, |s|)
    ensures Spaced(occ, from, |f|, |s|)
    ensures Spliced(s, from, occ, f) == s[from..occ[0]] + f + Spliced(s, occ[0] + |f|, occ[1..], f)
  {
  }

  lemma {:induction false} SplicedInside(s: seq<byte>, from: nat, occ: seq<nat>, f: seq<byte>, k: nat, d: nat)
    requires from <= |s| && Spaced(occ, from, |f|, |s|) && k < |occ| && d < |f|
    ensures from <= occ[k] && occ[k] + d < |s|
    ensures Spliced(s, from, occ, f)[occ[k] + d - from] == f[d]
    decreases |occ|
  {
    var head := s[from..occ[0]] + f;
    var tail := Spliced(s, occ[0] + |f|, occ[1..], f);
    if k == 0 {
      IndexRight(s[from..occ[0]], f, d);
      IndexLeft(head, tail, occ[0] - from + d);
    } else {
      SplicedInside(s, occ[0] + |f|, occ[1..], f, k - 1, d);
      assert occ[1..][k - 1] == occ[k];
      IndexRight(head, tail, occ[k] + d - (occ[0] + |f|));
    }
  }

  lemma {:induction false} SplicedOutside(s: seq<byte>, from: nat, occ: seq<nat>, f: seq<byte>, j: nat)
    requires from <= j < |s| && Spaced(occ, from, |f|, |s|)
    requires forall k :: 0 <= k < |occ| ==> !(occ[k] <= j < occ[k] + |f|)
    ensures Spliced(s, from, occ, f)[j - from] == s[j]
    decreases |occ|
  {
    if occ != [] {
      var head := s[from..occ[0]] + f;
      var tail := Spliced(s, occ[0] + |f|, occ[1..], f);
      assert !(occ[0] <= j < occ[0] + |f|);
      if j < occ[0] {
        IndexLeft(s[from..occ[0]], f, j - from);
        IndexLeft(head, tail, j - from);
      } else {
        forall k | 0 <= k < |occ[1..]|
          ensures !(occ[1..][k] <= j < occ[1..][k] + |f|)
        {
          assert occ[1..][k] == occ[k + 1];
        }
        SplicedOutside(s, occ[0] + |f|, occ[1..], f, j);
        IndexRight(head, tail, j - (occ[0] + |f|));
      }
    }
  }

  /** Every byte of every occurrence the loop visits ends up holding the
      matching byte of Field: the replacement, then NULs. */
  lemma ReplacedInside(s: seq<byte>, pat: seq<byte>, repl: seq<byte>, k: nat, d: nat)
    requires |pat| > 0 && |repl| <= |pat| && k < |Occurrences(s, pat, 0)| && d < |pat|
    ensures Occurrences(s, pat, 0)[k] + d < |s|
    ensures ReplacedFrom(s, pat, repl, 0)[Occurrences(s, pat, 0)[k] + d] == Field(repl, |pat|)[d]
  {
    ReplacedIsSpliced(s, pat, repl, 0);
    SplicedInside(s, 0, Occurrences(s, pat, 0), Field(repl, |pat|), k, d);
  }

  /** A byte in no visited occurrence keeps its value. */
  lemma ReplacedOutside(s: seq<byte>, pat: seq<byte>, repl: seq<byte>, j: nat)
    requires |pat| > 0 && |repl| <= |pat| && j < |s|
    requires forall k :: 0 <= k < |Occurrences(s, pat, 0)| ==>
      !(Occurrences(s, pat, 0)[k] <= j < Occurrences(s, pat, 0)[k] + |pat|)
    ensures ReplacedFrom(s, pat, repl, 0)[j] == s[j]
  {
    ReplacedIsSpliced(s, pat, repl, 0);
    SplicedOutside(s, 0, Occurrences(s, pat, 0), Field(repl, |pat|), j);
  }

  /** The visited occurrences do not overlap. */
  lemma OccurrencesApart(s: seq<byte>, pat: seq<byte>, i: nat, j: nat)
    requires |pat| > 0 && i < j < |Occurrences(s, pat, 0)|
    ensures Occurrences(s, pat, 0)[i] + |pat| <= Occurrences(s, pat, 0)[j]
  {
    var repl: seq<byte> := [];
    ReplacedIsSpliced(s, pat, repl, 0);
    SpacedApart(Occurrences(s, pat, 0), 0, |pat|, |s|, i, j);
  }

  /** The search from pos sees only bytes at or after pos. */
  lemma {:induction false} FindSameSuffix(s: seq<byte>, t: seq<byte>, pat: seq<byte>, pos: nat)
    requires |pat| > 0 && pos <= |s| == |t| && s[pos..] == t[pos..]
    ensures FindFrom(s, pat, pos) == FindFrom(t, pat, pos)
    decreases |s| - pos
  {
    if pos + |pat| <= |s| {
      assert s[pos..pos + |pat|] == s[pos..][..|pat|];
      assert t[pos..pos + |pat|] == t[pos..][..|pat|];
      assert s[pos + 1..] == s[pos..][1..];
      assert t[pos + 1..] == t[pos..][1..];
      FindSameSuffix(s, t, pat, pos + 1);
    }
  }

  /** The whole buffer once the loop has gone on from resume point pos on
      buffer a: the loop's own account of the rewrite, one occurrence per
      step, each written over the buffer it finds it in. */
  function Continued(a: seq<byte>, pat: seq<byte>, repl: seq<byte>, pos: nat): (r: seq<byte>)
    requires |pat| > 0 && |repl| <= |pat| && pos <= |a|
    ensures |r| == |a|
    decreases |a| - pos
  {
    match FindFrom(a, pat, pos)
    case None => a
    case Some(p) => Continued(a[..p] + Field(repl, |pat|) + a[After(p, pat)..], pat, repl, After(p, pat))
  }

  /** One turn of the loop: the occurrence found from pos is written over
      and the loop goes on just after it. */
  lemma UnfoldContinued(a: seq<byte>, pat: seq<byte>, repl: seq<byte>, pos: nat, p: nat)
    requires |pat| > 0 && |repl| <= |pat| && pos <= |a| && FindFrom(a, pat, pos) == Some(p)
    ensures After(p, pat) <= |a|
    ensures Continued(a, pat, repl, pos) == Continued(a[..p] + Field(repl, |pat|) + a[After(p, pat)..], pat, repl, After(p, pat))
  {
  }

  /** The rewrite from k on sees only the bytes from k on. */
  lemma {:induction false} ReplacedSameSuffix(a: seq<byte>, b: seq<byte>, pat: seq<byte>, repl: seq<byte>, k: nat)
    requires |pat| > 0 && |repl| <= |pat| && k <= |a| == |b| && a[k..] == b[k..]
    ensures ReplacedFrom(a, pat, repl, k) == ReplacedFrom(b, pat, repl, k)
    decreases |a| - k
  {
    FindSameSuffix(a, b, pat, k);
    match FindFrom(a, pat, k)
    case None =>
    case Some(p) =>
      UnfoldReplaced(a, pat, repl, k, p);
      UnfoldReplaced(b, pat, repl, k, p);
      assert a[k..p] == b[k..p] by {
        assert a[k..p] == a[k..][..p - k];
        assert b[k..p] == b[k..][..p - k];
      }
      assert a[After(p, pat)..] == b[After(p, pat)..] by {
        assert a[After(p, pat)..] == a[k..][After(p, pat) - k..];
        assert b[After(p, pat)..] == b[k..][After(p, pat) - k..];
      }
      ReplacedSameSuffix(a, b, pat, repl, After(p, pat));
  }

  /** The buffer with f written at p, cut at the end of f. */
  lemma WrittenParts(a: seq<byte>, f: seq<byte>, t: seq<byte>, pos: nat, p: nat, q: nat)
    requires pos <= p && q == p + |f| <= |a|
    ensures (a[..p] + f + a[q..])[q..] == a[q..]
    ensures a[..pos] + (a[pos..p] + f + t) == (a[..p] + f + a[q..])[..q] + t
  {
    var b := a[..p] + f + a[q..];
    assert b[..q] == a[..p] + f;
    assert a[..pos] + a[pos..p] == a[..p];
  }

  /** The loop's account agrees with the rewrite: the bytes before the
      resume point are left as they are, and the rest is rewritten. */
  lemma {:induction false} ContinuedIsReplaced(a: seq<byte>, pat: seq<byte>, repl: seq<byte>, pos: nat)
    requires |pat| > 0 && |repl| <= |pat| && pos <= |a|
    ensures Continued(a, pat, repl, pos) == a[..pos] + ReplacedFrom(a, pat, repl, pos)
    decreases |a| - pos
  {
    match FindFrom(a, pat, pos)
    case None =>
      assert a[..pos] + a[pos..] == a;
    case Some(p) =>
      var q := After(p, pat);
      var f := Field(repl, |pat|);
      var b := a[..p] + f + a[q..];
      var t := ReplacedFrom(a, pat, repl, q);
      UnfoldContinued(a, pat, repl, pos, p);
      UnfoldReplaced(a, pat, repl, pos, p);
      WrittenParts(a, f, t, pos, p, q);
      ContinuedIsReplaced(b, pat, repl, q);
      ReplacedSameSuffix(b, a, pat, repl, q);
  }

  /** The whole rewrite, as the loop performs it from the start. */
  lemma ContinuedFromStart(a: seq<byte>, pat: seq<byte>, repl: seq<byte>)
    requires |pat| > 0 && |repl| <= |pat|
    ensures Continued(a, pat, repl, 0) == ReplacedFrom(a, pat, repl, 0)
  {
    ContinuedIsReplaced(a, pat, repl, 0);
    assert a[..0] == [];
  }

  /** The memset of the placeholder's bytes, its NUL included, followed by
      the memcpy of the replacement over them. */
  method ClearAndCopy(ko: array<byte>, p: nat, pat: seq<byte>, repl: seq<byte>)
    requires |repl| <= |pat| && After(p, pat) <= ko.Length
    modifies ko
    ensures ko[..] == old(ko[..p]) + Field(repl, |pat|) + old(ko[After(p, pat)..])
  {
    ghost var s := ko[..];
    var n := |pat|;
    ClearThenCopy(s, p, n, repl);
    Store(ko, p, Zeros(n));
    Store(ko, p, repl);
    ghost var r := Overwrite(s, p, Field(repl, n));
    assert ko[..] == r;
    ghost var e := After(p, pat);
    assert r == s[..p] + Field(repl, n) + s[e..] by {
      assert r[..p] == s[..p];
      assert r[e..] == s[e..];
      assert r == r[..p] + r[p..e] + r[e..];
    }
  }

  /** The memmem loop of main for one placeholder: every occurrence the
      search meets is cleared and prefixed with repl, and the search
      resumes after the occurrence. */
  method ReplaceAll(ko: array<byte>, pat: seq<byte>, repl: seq<byte>)
    requires |pat| > 0 && |repl| <= |pat|
    modifies ko
    ensures ko[..] == ReplacedFrom(old(ko[..]), pat, repl, 0)
  {
    ghost var cur := ko[..];
    ghost var w := Continued(cur, pat, repl, 0);
    ContinuedFromStart(cur, pat, repl);
    var pos := 0;
    while true
      invariant pos <= |cur| == ko.Length
      invariant ko[..] == cur
      invariant Continued(cur, pat, repl, pos) == w
      decreases ko.Length - pos
    {
      var found := FindFrom(ko[..], pat, pos);
      if found.None? {
        break;
      }
      var p := found.value;
      ghost var prev, from := cur, pos;
      ClearAndCopy(ko, p, pat, repl);
      pos := After(p, pat);
      cur := prev[..p] + Field(repl, |pat|) + prev[After(p, pat)..];
      UnfoldContinued(prev, pat, repl, from, p);
    }
  }
}
