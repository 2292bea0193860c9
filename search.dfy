/** The two byte searches the reader and the parser are built on, as
    reference definitions: the last occurrence of a delimiter before a
    bound (searched backward) and the first occurrence at or after a start
    (searched forward). */
module Search {
  import opened Consts

  /** The greatest index i < n with s[i] == d, or -1 when s[..n] has none
      (also for n <= 0). */
  function LastIndexBefore(s: seq<byte>, n: int, d: byte): (r: int)
    requires n <= |s|
    ensures -1 <= r
    ensures r >= 0 ==> r < n && s[r] == d
    ensures forall j :: r < j < n ==> s[j] != d
    decreases n
  {
    if n <= 0 then -1
    else if s[n - 1] == d then n - 1
    else LastIndexBefore(s, n - 1, d)
  }

  /** The result is -1 exactly when nothing before n is a delimiter. */
  lemma LastIndexBeforeAbsent(s: seq<byte>, n: int, d: byte)
    requires 0 <= n <= |s|
    ensures LastIndexBefore(s, n, d) == -1 <==> d !in s[..n]
  {
    var r := LastIndexBefore(s, n, d);
    if r >= 0 {
      assert s[..n][r] == d;
    } else {
      forall j | 0 <= j < n ensures s[..n][j] != d {}
    }
  }

  /** With no delimiter before n the result is -1. */
  lemma LastIndexBeforeNone(s: seq<byte>, n: int, d: byte)
    requires n <= |s|
    requires forall j :: 0 <= j < n ==> s[j] != d
    ensures LastIndexBefore(s, n, d) == -1
  {
  }

  /** A delimiter at k with none after it, before n, is the last one. */
  lemma LastIndexBeforeIs(s: seq<byte>, n: int, d: byte, k: int)
    requires 0 <= k < n <= |s| && s[k] == d
    requires forall j :: k < j < n ==> s[j] != d
    ensures LastIndexBefore(s, n, d) == k
  {
  }

  /** The least index i >= from with s[i] == d, or |s| when there is none;
      a start at or past the end is returned unchanged. */
  function NextIndexFrom(s: seq<byte>, from: nat, d: byte): (r: nat)
    ensures from <= r
    ensures r <= |s| || r == from
    ensures r < |s| ==> s[r] == d
    ensures forall j :: from <= j < r ==> s[j] != d
    decreases |s| - from
  {
    if from >= |s| then from
    else if s[from] == d then from
    else NextIndexFrom(s, from + 1, d)
  }

  /** A delimiter at k with none in [from, k) is the next one. */
  lemma NextIndexFromIs(s: seq<byte>, from: nat, d: byte, k: nat)
    requires from <= k <= |s|
    requires k < |s| ==> s[k] == d
    requires forall j :: from <= j < k ==> s[j] != d
    ensures NextIndexFrom(s, from, d) == k
  {
  }
}
