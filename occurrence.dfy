/**
 * The Horspool occurrence (bad-character) table: for every byte value, how far the
 * needle may be moved when that byte sits under the needle's last position.
 */
module Occurrence {
  import opened Window

  /**
   * `s` is the table entry for byte `c`: between 1 and N, no needle byte at
   * positions N-s .. N-2 equals `c`, and when s < N the byte at position N-1-s does,
   * so N-1-s is the rightmost occurrence of `c` before the last position.
   */
  predicate IsSkip(needle: seq<bv8>, c: bv8, s: nat)
  {
    var n := |needle|;
    1 <= s <= n
    && (forall j :: n - s <= j < n - 1 ==> needle[j] != c)
    && (s < n ==> needle[n - 1 - s] == c)
  }

  /**
   * The entry for `c` after the first `k` needle positions have been entered, each
   * overwriting the previous one: N-1-i for the rightmost such position i holding
   * `c`, or N when there is none.
   */
  function SkipPrefix(needle: seq<bv8>, c: bv8, k: nat): (s: nat)
    requires k < |needle|
    ensures |needle| - k <= s <= |needle|
    ensures forall j :: |needle| - s <= j < k ==> needle[j] != c
    ensures s < |needle| ==> needle[|needle| - 1 - s] == c
    decreases k
  {
    if k == 0 then |needle|
    else if needle[k - 1] == c then |needle| - k
    else SkipPrefix(needle, c, k - 1)
  }

  /** The table entry for `c`: every needle position except the last one entered. */
  function Skip(needle: seq<bv8>, c: bv8): (s: nat)
    requires |needle| >= 1
    ensures IsSkip(needle, c, s)
  {
    SkipPrefix(needle, c, |needle| - 1)
  }

  /** The entry is determined by the needle: at most one value satisfies IsSkip. */
  lemma SkipUnique(needle: seq<bv8>, c: bv8, s: nat, t: nat)
    requires IsSkip(needle, c, s) && IsSkip(needle, c, t)
    ensures s == t
  {
  }

  /**
   * The Horspool shift is safe: if the window byte under the needle's last position
   * at alignment k is `c`, no alignment strictly between k and k + Skip(c) is viable,
   * whether it would be a whole occurrence or a prefix running to the window's end.
   */
  lemma HorspoolSkip(needle: seq<bv8>, w: seq<bv8>, k: nat, s: nat)
    requires |needle| >= 1 && k + |needle| <= |w|
    requires IsSkip(needle, w[k + |needle| - 1], s)
    ensures forall q :: k < q < k + s && q <= |w| ==> !Viable(needle, w, q)
  {
    var n := |needle|;
    forall q | k < q < k + s && q <= |w|
      ensures !Viable(needle, w, q)
    {
      var j := k + n - 1 - q;
      var m := Reach(needle, w, q);
      assert 0 <= j < m;
      assert w[q..q + m][j] == w[k + n - 1];
      assert needle[..m][j] == needle[j] != w[k + n - 1];
    }
  }
}
