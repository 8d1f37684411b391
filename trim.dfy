/** `bytes.Trim(imageData, " \r\n\t\x0c")` (main.go:38): strip every
    leading and every trailing byte of the cutset. The left end is trimmed
    first here; the order makes no difference to the result. */
module Trim {
  import opened Bytes

  /** The cutset of main.go:38: space, carriage return, line feed, tab, form feed. */
  predicate InCutset(b: byte)
  {
    b == 32 || b == 13 || b == 10 || b == 9 || b == 12
  }

  /** Every byte of s[lo..hi] is in the cutset. */
  predicate CutsetIn(s: seq<byte>, lo: int, hi: int)
  {
    forall k :: lo <= k < hi && 0 <= k < |s| ==> InCutset(s[k])
  }

  predicate AllCutset(s: seq<byte>)
  {
    CutsetIn(s, 0, |s|)
  }

  /** TrimLeft's scan: the first position at or after i whose byte is
      not in the cutset (|s| if there is none). */
  function LeftEdge(s: seq<byte>, i: nat): (k: nat)
    requires i <= |s|
    ensures i <= k <= |s| && CutsetIn(s, i, k)
    ensures k < |s| ==> !InCutset(s[k])
    decreases |s| - i
  {
    if i < |s| && InCutset(s[i]) then LeftEdge(s, i + 1) else i
  }

  /** TrimRight's scan over s[lo..j]: the end of that range once its
      trailing cutset bytes are dropped (lo if all of them are). */
  function RightEdge(s: seq<byte>, lo: nat, j: nat): (k: nat)
    requires lo <= j <= |s|
    ensures lo <= k <= j && CutsetIn(s, k, j)
    ensures lo < k ==> !InCutset(s[k - 1])
    decreases j - lo
  {
    if lo < j && InCutset(s[j - 1]) then RightEdge(s, lo, j - 1) else j
  }

  /** `bytes.Trim(s, cutset)`: the leading cutset bytes are dropped, then
      the trailing cutset bytes of what is left (dropping the trailing ones
      first gives the same result, see TrimUnique). The result is never
      longer than s and neither of its ends is a cutset byte. */
  function Trim(s: seq<byte>): (r: seq<byte>)
    ensures |r| <= |s|
    ensures r != [] ==> !InCutset(r[0]) && !InCutset(r[|r| - 1])
  {
    var lo := LeftEdge(s, 0);
    s[lo..RightEdge(s, lo, |s|)]
  }

  /** Reference characterisation: whenever s splits into a cutset prefix
      s[..i], a middle s[i..j] that is empty or has non-cutset ends, and a
      cutset suffix s[j..], Trim returns that middle. */
  lemma TrimUnique(s: seq<byte>, i: nat, j: nat)
    requires i <= j <= |s|
    requires CutsetIn(s, 0, i) && CutsetIn(s, j, |s|)
    requires i < j ==> !InCutset(s[i]) && !InCutset(s[j - 1])
    ensures Trim(s) == s[i..j]
  {
    var lo := LeftEdge(s, 0);
    if i < j {
      assert lo == i;
      assert RightEdge(s, lo, |s|) == j;
    }
  }

  /** Trim returns a slice s[i..j] of its input: everything before i and
      from j on is in the cutset, and the slice's first and last bytes
      (if any) are not. */
  lemma TrimIsSlice(s: seq<byte>) returns (i: nat, j: nat)
    ensures i <= j <= |s| && Trim(s) == s[i..j]
    ensures CutsetIn(s, 0, i) && CutsetIn(s, j, |s|)
    ensures i < j ==> !InCutset(s[i]) && !InCutset(s[j - 1])
  {
    i := LeftEdge(s, 0);
    j := RightEdge(s, i, |s|);
  }

  /** Trimming twice is the same as trimming once. */
  lemma TrimIdempotent(s: seq<byte>)
    ensures Trim(Trim(s)) == Trim(s)
  {
    var i, j := TrimIsSlice(s);
    var t := Trim(s);
    TrimUnique(t, 0, |t|);
  }

  /** A region made only of cutset bytes, and only such a region, trims
      to nothing. */
  lemma TrimEmptyIffAllCutset(s: seq<byte>)
    ensures Trim(s) == [] <==> AllCutset(s)
  {
    if AllCutset(s) {
      TrimUnique(s, 0, 0);
    } else {
      var i, j := TrimIsSlice(s);
    }
  }

  /** Padding a region with cutset bytes on either side does not change
      what it trims to. */
  lemma TrimAbsorbsPadding(a: seq<byte>, m: seq<byte>, b: seq<byte>)
    requires AllCutset(a) && AllCutset(b)
    ensures Trim(a + m + b) == Trim(m)
  {
    var i, j := TrimIsSlice(m);
    TrimOfPadded(a, m, b, i, j);
  }

  lemma TrimOfPadded(a: seq<byte>, m: seq<byte>, b: seq<byte>, i: nat, j: nat)
    requires AllCutset(a) && AllCutset(b) && i <= j <= |m|
    requires CutsetIn(m, 0, i) && CutsetIn(m, j, |m|)
    requires i < j ==> !InCutset(m[i]) && !InCutset(m[j - 1])
    ensures Trim(a + m + b) == m[i..j]
  {
    PaddedSplit(a, m, b, i, j);
    TrimUnique(a + m + b, |a| + i, |a| + j);
  }

  /** Where a split of m into cutset prefix, middle and cutset suffix sits
      inside a + m + b. */
  lemma PaddedSplit(a: seq<byte>, m: seq<byte>, b: seq<byte>, i: nat, j: nat)
    requires AllCutset(a) && AllCutset(b) && i <= j <= |m|
    requires CutsetIn(m, 0, i) && CutsetIn(m, j, |m|)
    ensures CutsetIn(a + m + b, 0, |a| + i) && CutsetIn(a + m + b, |a| + j, |a| + |m| + |b|)
    ensures (a + m + b)[|a| + i..|a| + j] == m[i..j]
    ensures i < j ==> (a + m + b)[|a| + i] == m[i] && (a + m + b)[|a| + j - 1] == m[j - 1]
  {
    var s := a + m + b;
    assert forall k :: |a| <= k < |a| + |m| ==> s[k] == m[k - |a|];
    assert forall k :: |a| + |m| <= k < |s| ==> s[k] == b[k - |a| - |m|];
  }
}
