/**
 * The reference meaning of a search position. The matcher looks at a window of
 * bytes (the chunk, or the lookbehind bytes followed by the chunk); an alignment
 * `k` of the needle in that window is viable when the window's bytes from `k` on
 * agree with the needle for as far as both go: a whole occurrence when the needle
 * fits, otherwise a needle prefix that runs to the window's end and might be
 * completed by the next chunk.
 */
module Window {

  /** How many needle bytes can be compared at alignment `k` of `w`. */
  function Reach(needle: seq<bv8>, w: seq<bv8>, k: nat): (m: nat)
    requires k <= |w|
    ensures m <= |needle| && k + m <= |w|
    ensures m == |needle| || k + m == |w|
  {
    if |w| - k < |needle| then |w| - k else |needle|
  }

  predicate Viable(needle: seq<bv8>, w: seq<bv8>, k: nat)
    requires k <= |w|
  {
    var m := Reach(needle, w, k);
    w[k..k + m] == needle[..m]
  }

  /** The needle occurs in full at position `k` of `w`. */
  predicate Occurs(needle: seq<bv8>, w: seq<bv8>, k: nat)
  {
    k + |needle| <= |w| && w[k..k + |needle|] == needle
  }

  /** A lookbehind content is a proper needle prefix: shorter than the needle and equal to its start. */
  predicate NeedlePrefix(needle: seq<bv8>, lb: seq<bv8>)
  {
    |lb| < |needle| && lb == needle[..|lb|]
  }

  /** The end of the window is always viable: nothing is left to compare. */
  lemma EndViable(needle: seq<bv8>, w: seq<bv8>)
    ensures Viable(needle, w, |w|)
  {
    assert Reach(needle, w, |w|) == 0;
  }

  /**
   * The leftmost viable alignment at or after `k`: a naive left-to-right search,
   * the reference against which the Horspool loops are proved.
   */
  function FirstViable(needle: seq<bv8>, w: seq<bv8>, k: nat): (r: nat)
    requires k <= |w|
    ensures k <= r <= |w| && Viable(needle, w, r)
    ensures forall q :: k <= q < r ==> !Viable(needle, w, q)
    decreases |w| - k
  {
    EndViable(needle, w);
    if Viable(needle, w, k) then k else FirstViable(needle, w, k + 1)
  }

  /** The leftmost viable alignment is the one that is viable with none before it. */
  lemma FirstViableIs(needle: seq<bv8>, w: seq<bv8>, k: nat, r: nat)
    requires k <= r <= |w| && Viable(needle, w, r)
    requires forall q :: k <= q < r ==> !Viable(needle, w, q)
    ensures FirstViable(needle, w, k) == r
  {
  }

  /** A viable alignment where the needle fits is a whole occurrence, and one that does not fit is a needle-prefix tail. */
  lemma ViableCases(needle: seq<bv8>, w: seq<bv8>, k: nat)
    requires k <= |w| && Viable(needle, w, k)
    ensures k + |needle| <= |w| ==> Occurs(needle, w, k)
    ensures k + |needle| > |w| ==> NeedlePrefix(needle, w[k..])
  {
  }

  /**
   * The full comparison made by both Horspool loops: the last byte first, then
   * the first byte, then the first |needle|-1 bytes.
   */
  lemma FullCheck(needle: seq<bv8>, w: seq<bv8>, k: nat)
    requires |needle| >= 1 && k + |needle| <= |w|
    ensures Viable(needle, w, k) <==>
      w[k + |needle| - 1] == needle[|needle| - 1] && w[k..k + |needle| - 1] == needle[..|needle| - 1]
    ensures Viable(needle, w, k) <==>
      w[k + |needle| - 1] == needle[|needle| - 1] && w[k] == needle[0]
      && w[k..k + |needle| - 1] == needle[..|needle| - 1]
  {
    var n := |needle|;
    assert Reach(needle, w, k) == n;
    assert w[k..k + n] == w[k..k + n - 1] + [w[k + n - 1]];
    assert needle[..n] == needle[..n - 1] + [needle[n - 1]];
    if w[k..k + n] == needle {
      assert w[k] == w[k..k + n][0];
    }
  }

  /** Alignment `|lb| + q` of the joined window lb ++ data is alignment `q` of data. */
  lemma ViableShift(needle: seq<bv8>, lb: seq<bv8>, data: seq<bv8>, q: nat)
    requires q <= |data|
    ensures Viable(needle, lb + data, |lb| + q) <==> Viable(needle, data, q)
  {
    var w := lb + data;
    var m := Reach(needle, data, q);
    assert Reach(needle, w, |lb| + q) == m;
    assert w[|lb| + q..|lb| + q + m] == data[q..q + m];
  }

  /** The leftmost viable alignment of lb ++ data, once past lb, is that of data shifted by |lb|. */
  lemma FirstViableShift(needle: seq<bv8>, lb: seq<bv8>, data: seq<bv8>)
    requires forall q :: 0 <= q < |lb| ==> !Viable(needle, lb + data, q)
    ensures FirstViable(needle, lb + data, 0) == |lb| + FirstViable(needle, data, 0)
  {
    var w := lb + data;
    var r := FirstViable(needle, data, 0);
    ViableShift(needle, lb, data, r);
    forall q | 0 <= q < |lb| + r
      ensures !Viable(needle, w, q)
    {
      if q >= |lb| {
        ViableShift(needle, lb, data, q - |lb|);
      }
    }
    FirstViableIs(needle, w, 0, |lb| + r);
  }

  /** No viable alignment of lb ++ data before |lb| + p means none in lb and none in data before p. */
  lemma DiscardShift(needle: seq<bv8>, lb: seq<bv8>, data: seq<bv8>, p: nat)
    requires p <= |data|
    requires forall q :: 0 <= q < |lb| + p ==> !Viable(needle, lb + data, q)
    ensures forall q :: 0 <= q < |lb| ==> !Viable(needle, lb + data, q)
    ensures forall q :: 0 <= q < p ==> !Viable(needle, data, q)
  {
    forall q | 0 <= q < p
      ensures !Viable(needle, data, q)
    {
      ViableShift(needle, lb, data, q);
    }
  }
}
