/**
 * The matches of a whole stream. A naive reference scan counts the leftmost
 * non-overlapping occurrences of the needle in the joined input; the matcher,
 * chunk boundaries and lookbehind included, reports exactly that many, or the
 * match limit when it is reached first.
 */
module Leftmost {
  import opened Events
  import opened Window
  import opened Scanning
  import opened Properties

  /** The needle occurs in `s` at `i`, compared byte by byte from its `j`-th byte on. */
  predicate MatchAt(needle: seq<bv8>, s: seq<bv8>, i: nat, j: nat)
    requires i + |needle| <= |s| && j <= |needle|
    decreases |needle| - j
  {
    j == |needle| || (s[i + j] == needle[j] && MatchAt(needle, s, i, j + 1))
  }

  /** The byte-by-byte comparison agrees with comparing the slice of `s` at `i` to the needle. */
  lemma MatchAtSlice(needle: seq<bv8>, s: seq<bv8>, i: nat)
    requires i + |needle| <= |s|
    ensures MatchAt(needle, s, i, 0) <==> s[i..i + |needle|] == needle
  {
    MatchAtFrom(needle, s, i, 0);
    if !MatchAt(needle, s, i, 0) {
      var t :| 0 <= t < |needle| && s[i + t] != needle[t];
      assert s[i..i + |needle|][t] != needle[t];
    }
  }

  lemma {:induction false} MatchAtFrom(needle: seq<bv8>, s: seq<bv8>, i: nat, j: nat)
    requires i + |needle| <= |s| && j <= |needle|
    ensures MatchAt(needle, s, i, j) <==> forall t :: j <= t < |needle| ==> s[i + t] == needle[t]
    decreases |needle| - j
  {
    if j < |needle| {
      MatchAtFrom(needle, s, i, j + 1);
    }
  }

  /**
   * The number of leftmost non-overlapping occurrences of the needle in `s` from
   * position `i` on: a left-to-right scan that, after each occurrence, resumes
   * just past its end.
   */
  function LeftmostFrom(needle: seq<bv8>, s: seq<bv8>, i: nat): nat
    requires |needle| >= 1 && i <= |s|
    decreases |s| - i
  {
    if i + |needle| > |s| then 0
    else if MatchAt(needle, s, i, 0) then 1 + LeftmostFrom(needle, s, i + |needle|)
    else LeftmostFrom(needle, s, i + 1)
  }

  /** `w` is the stretch of the text `s` that starts at `a`. */
  predicate Placed(w: seq<bv8>, s: seq<bv8>, a: nat)
  {
    a + |w| <= |s| && MatchAt(w, s, a, 0)
  }

  /** Placed compares the stretch with the text byte by byte. */
  lemma PlacedAt(w: seq<bv8>, s: seq<bv8>, a: nat)
    ensures Placed(w, s, a) <==> a + |w| <= |s| && forall t :: 0 <= t < |w| ==> s[a + t] == w[t]
  {
    if a + |w| <= |s| {
      MatchAtFrom(w, s, a, 0);
    }
  }

  /** A stretch placed at `b` followed by one placed at `c`, where the first ends, is placed at `b`. */
  lemma PlacedJoin(u: seq<bv8>, v: seq<bv8>, s: seq<bv8>, b: nat, c: nat)
    requires Placed(u, s, b) && Placed(v, s, c) && c == b + |u|
    ensures Placed(u + v, s, b)
  {
    PlacedAt(u, s, b);
    PlacedAt(v, s, c);
    forall j | 0 <= j < |u + v|
      ensures s[b + j] == (u + v)[j]
    {
      if j >= |u| {
        assert s[c + (j - |u|)] == v[j - |u|];
      }
    }
    PlacedAt(u + v, s, b);
  }

  /** The part of a placed stretch from its `k`-th byte on is placed `k` bytes further, at `b`. */
  lemma PlacedSuffix(w: seq<bv8>, s: seq<bv8>, a: nat, k: nat, b: nat)
    requires Placed(w, s, a) && k <= |w| && b == a + k
    ensures Placed(w[k..], s, b)
  {
    PlacedAt(w, s, a);
    PlacedAt(w[k..], s, b);
  }

  /**
   * Alignments that are not viable in a window are no occurrences in the text the
   * window is part of: the reference scan passes over them. The window starts at
   * `a`; `from` and `to` are the text positions of alignments `q` and `k`.
   */
  lemma {:induction false} SkipNonViable(needle: seq<bv8>, w: seq<bv8>, s: seq<bv8>, a: nat, q: nat, k: nat,
                                          from: nat, to: nat)
    requires |needle| >= 1 && q <= k <= |w| && Placed(w, s, a) && from == a + q && to == a + k
    requires forall p :: q <= p < k ==> !Viable(needle, w, p)
    ensures LeftmostFrom(needle, s, from) == LeftmostFrom(needle, s, to)
    decreases k - q
  {
    if q < k {
      PlacedAt(w, s, a);
      var n := |needle|;
      var m := Reach(needle, w, q);
      assert !Viable(needle, w, q);
      assert s[from..from + m] == w[q..q + m];
      if from + n <= |s| {
        assert s[from..from + n][..m] == s[from..from + m];
        assert s[from..from + n] != needle;
        MatchAtSlice(needle, s, from);
      }
      SkipNonViable(needle, w, s, a, q + 1, k, from + 1, to);
    }
  }

  /**
   * A whole occurrence at alignment `k` of a window starting at `a` is counted, and
   * the reference scan resumes past it: `from` is its text position, `to` its end.
   */
  lemma TakeOccurrence(needle: seq<bv8>, w: seq<bv8>, s: seq<bv8>, a: nat, k: nat, from: nat, to: nat)
    requires |needle| >= 1 && Occurs(needle, w, k) && Placed(w, s, a)
    requires from == a + k && to == from + |needle|
    ensures to <= |s| && LeftmostFrom(needle, s, from) == 1 + LeftmostFrom(needle, s, to)
  {
    PlacedAt(w, s, a);
    assert s[from..to] == w[k..k + |needle|];
    MatchAtSlice(needle, s, from);
  }

  /**
   * The reference scan from alignment `q` of a window placed at `a` passes over
   * the alignments before the leftmost viable one, `k`, and counts the whole
   * occurrence there: `from` and `to` are the text positions of `q` and of the
   * occurrence's end.
   */
  lemma SkipThenTake(needle: seq<bv8>, w: seq<bv8>, s: seq<bv8>, a: nat, q: nat, k: nat, from: nat, to: nat)
    requires |needle| >= 1 && Placed(w, s, a) && q <= k && k + |needle| <= |w|
    requires FirstViable(needle, w, q) == k
    requires from == a + q && to == a + k + |needle|
    ensures to <= |s| && LeftmostFrom(needle, s, from) == 1 + LeftmostFrom(needle, s, to)
  {
    ViableCases(needle, w, k);
    SkipNonViable(needle, w, s, a, q, k, from, a + k);
    TakeOccurrence(needle, w, s, a, k, a + k, to);
  }

  /**
   * A step that starts the reference count at `from` and ends with the cursor at
   * `end` in the text accounts for it: its retained lookbehind is the text just
   * before the cursor, and its match plus the reference count from where that
   * lookbehind starts is the reference count from `from`.
   */
  predicate Accounts(needle: seq<bv8>, s: seq<bv8>, from: nat, o: Step, end: nat)
    requires |needle| >= 1
  {
    from <= |s| && |o.lb| <= end && Placed(o.lb, s, end - |o.lb|)
    && LeftmostFrom(needle, s, from) == (if o.matched then 1 else 0) + LeftmostFrom(needle, s, end - |o.lb|)
  }

  /** The matching case of a chunk scan: the occurrence at `k` in the chunk placed at `a` is counted. */
  lemma ScanMatchLeftmost(needle: seq<bv8>, data: seq<bv8>, s: seq<bv8>, a: nat, bufPos: nat, k: nat, o: Step,
                          from: nat, end: nat)
    requires |needle| >= 1 && Placed(data, s, a) && bufPos <= k && k + |needle| <= |data|
    requires FirstViable(needle, data, bufPos) == k
    requires o.matched && o.lb == [] && o.consumed == k + |needle|
    requires from == a + bufPos && end == a + o.consumed
    ensures Accounts(needle, s, from, o, end)
  {
    SkipThenTake(needle, data, s, a, bufPos, k, from, end - |o.lb|);
  }

  /** The tail case of a chunk scan: the chunk from `k` on is retained, nothing counted. */
  lemma ScanTailLeftmost(needle: seq<bv8>, data: seq<bv8>, s: seq<bv8>, a: nat, bufPos: nat, k: nat, o: Step,
                         from: nat, end: nat)
    requires |needle| >= 1 && Placed(data, s, a) && bufPos <= k <= |data|
    requires FirstViable(needle, data, bufPos) == k
    requires !o.matched && o.lb == data[k..] && o.consumed == |data|
    requires from == a + bufPos && end == a + o.consumed
    ensures Accounts(needle, s, from, o, end)
  {
    SkipNonViable(needle, data, s, a, bufPos, k, from, end - |o.lb|);
    PlacedSuffix(data, s, a, k, end - |o.lb|);
  }

  /**
   * A chunk scan from the cursor accounts for the chunk placed at `a` in the text;
   * `from` is the cursor's text position.
   */
  lemma ScanLeftmost(needle: seq<bv8>, data: seq<bv8>, s: seq<bv8>, a: nat, bufPos: nat, from: nat)
    requires |needle| >= 1 && bufPos <= |data| && Placed(data, s, a) && from == a + bufPos
    ensures var o := ScanSpec(needle, data, bufPos); Accounts(needle, s, from, o, a + o.consumed)
  {
    var o := ScanSpec(needle, data, bufPos);
    var k := FirstViable(needle, data, bufPos);
    if k + |needle| <= |data| {
      ScanSpecMatch(needle, data, bufPos, k);
      ScanMatchLeftmost(needle, data, s, a, bufPos, k, o, from, a + o.consumed);
    } else {
      ScanSpecTail(needle, data, bufPos, k);
      ScanTailLeftmost(needle, data, s, a, bufPos, k, o, from, a + o.consumed);
    }
  }

  /**
   * The spanning case of a feed step over the window `w` placed at `b` (lookbehind
   * bytes before `split`, chunk bytes after): the match that starts at `k` in the
   * lookbehind is counted.
   */
  lemma SpanLeftmost(needle: seq<bv8>, w: seq<bv8>, s: seq<bv8>, b: nat, split: nat, k: nat, o: Step,
                     from: nat, end: nat)
    requires |needle| >= 1 && Placed(w, s, b) && k < split <= |w| && k + |needle| <= |w|
    requires FirstViable(needle, w, 0) == k
    requires o.matched && o.lb == [] && o.consumed == k + |needle| - split
    requires from == b && end == b + split + o.consumed
    ensures Accounts(needle, s, from, o, end)
  {
    assert |o.lb| == 0;
    SkipThenTake(needle, w, s, b, 0, k, from, end - |o.lb|);
  }

  /** The retaining case of a feed step: the window from `k` on is kept, nothing counted. */
  lemma RetainLeftmost(needle: seq<bv8>, w: seq<bv8>, s: seq<bv8>, b: nat, split: nat, k: nat, o: Step,
                       from: nat, end: nat)
    requires |needle| >= 1 && Placed(w, s, b) && k < split <= |w|
    requires FirstViable(needle, w, 0) == k
    requires !o.matched && o.lb == w[k..] && o.consumed == |w| - split
    requires from == b && end == b + split + o.consumed
    ensures Accounts(needle, s, from, o, end)
  {
    SkipNonViable(needle, w, s, b, 0, k, from, end - |o.lb|);
    PlacedSuffix(w, s, b, k, end - |o.lb|);
  }

  /** The discarding case of a feed step: the lookbehind holds no occurrence and the chunk is scanned. */
  lemma DiscardLeftmost(needle: seq<bv8>, lb: seq<bv8>, data: seq<bv8>, s: seq<bv8>, a: nat, o: Step, from: nat)
    requires |needle| >= 1 && |lb| <= a && Placed(lb + data, s, a - |lb|) && Placed(data, s, a) && from == a - |lb|
    requires forall q :: 0 <= q < |lb| ==> !Viable(needle, lb + data, q)
    requires var r := ScanSpec(needle, data, 0); o.matched == r.matched && o.lb == r.lb && o.consumed == r.consumed
    ensures Accounts(needle, s, from, o, a + o.consumed)
  {
    SkipNonViable(needle, lb + data, s, a - |lb|, 0, |lb|, from, a + 0);
    ScanLeftmost(needle, data, s, a, 0, a + 0);
  }

  /**
   * A feed step accounts for the lookbehind and chunk placed together at
   * `a - |lb|`; `from` is the text position where the step starts.
   */
  lemma FeedLeftmost(needle: seq<bv8>, lb: seq<bv8>, data: seq<bv8>, s: seq<bv8>, a: nat, bufPos: nat, from: nat)
    requires |needle| >= 1 && NeedlePrefix(needle, lb)
    requires bufPos <= |data| && (|lb| > 0 ==> bufPos == 0)
    requires |lb| <= a && Placed(lb, s, a - |lb|) && Placed(data, s, a) && from == a - |lb| + bufPos
    ensures var o := FeedSpec(needle, lb, data, bufPos); Accounts(needle, s, from, o, a + o.consumed)
  {
    if |lb| == 0 {
      FeedEmptyLeftmost(needle, lb, data, s, a, bufPos);
    } else {
      PlacedJoin(lb, data, s, a - |lb|, a);
      FeedLookbehindLeftmost(needle, lb, data, s, a, bufPos);
    }
  }

  /** A feed step with an empty lookbehind is a chunk scan. */
  lemma FeedEmptyLeftmost(needle: seq<bv8>, lb: seq<bv8>, data: seq<bv8>, s: seq<bv8>, a: nat, bufPos: nat)
    requires |needle| >= 1 && lb == [] && bufPos <= |data|
    requires |lb| <= a && Placed(lb, s, a - |lb|) && Placed(data, s, a)
    ensures var o := FeedSpec(needle, lb, data, bufPos); Accounts(needle, s, a - |lb| + bufPos, o, a + o.consumed)
  {
    FeedSpecEmpty(needle, lb, data, bufPos);
    ScanLeftmost(needle, data, s, a, bufPos, a - |lb| + bufPos);
  }

  /** A feed step over a non-empty lookbehind starts at the cursor 0. */
  lemma FeedLookbehindLeftmost(needle: seq<bv8>, lb: seq<bv8>, data: seq<bv8>, s: seq<bv8>, a: nat, bufPos: nat)
    requires |needle| >= 1 && NeedlePrefix(needle, lb) && |lb| > 0 && bufPos == 0
    requires |lb| <= a && Placed(lb + data, s, a - |lb|) && Placed(data, s, a)
    ensures var o := FeedSpec(needle, lb, data, bufPos); Accounts(needle, s, a - |lb| + bufPos, o, a + o.consumed)
  {
    FeedWindowLeftmost(needle, lb, data, s, a);
  }

  /** A feed step over a non-empty lookbehind, by the case of the window's leftmost viable alignment. */
  lemma FeedWindowLeftmost(needle: seq<bv8>, lb: seq<bv8>, data: seq<bv8>, s: seq<bv8>, a: nat)
    requires |needle| >= 1 && NeedlePrefix(needle, lb) && |lb| > 0
    requires |lb| <= a && Placed(lb + data, s, a - |lb|) && Placed(data, s, a)
    ensures var o := FeedSpec(needle, lb, data, 0); Accounts(needle, s, a - |lb|, o, a + o.consumed)
  {
    var k := FirstViable(needle, lb + data, 0);
    if k < |lb| && k + |needle| <= |lb| + |data| {
      FeedSpanLeftmost(needle, lb, data, s, a, k);
    } else if k < |lb| {
      FeedRetainLeftmost(needle, lb, data, s, a, k);
    } else {
      FeedDiscardLeftmost(needle, lb, data, s, a);
    }
  }

  /** The feed step whose window holds a whole occurrence starting in the lookbehind. */
  lemma FeedSpanLeftmost(needle: seq<bv8>, lb: seq<bv8>, data: seq<bv8>, s: seq<bv8>, a: nat, k: nat)
    requires |needle| >= 1 && NeedlePrefix(needle, lb) && |lb| > 0
    requires |lb| <= a && Placed(lb + data, s, a - |lb|)
    requires FirstViable(needle, lb + data, 0) == k && k < |lb| && k + |needle| <= |lb| + |data|
    ensures var o := FeedSpec(needle, lb, data, 0); Accounts(needle, s, a - |lb|, o, a + o.consumed)
  {
    var o := FeedSpec(needle, lb, data, 0);
    FeedSpecSpanning(needle, lb, data, k);
    SpanLeftmost(needle, lb + data, s, a - |lb|, |lb|, k, o, a - |lb|, a + o.consumed);
  }

  /** The feed step whose window keeps a needle prefix that starts in the lookbehind. */
  lemma FeedRetainLeftmost(needle: seq<bv8>, lb: seq<bv8>, data: seq<bv8>, s: seq<bv8>, a: nat, k: nat)
    requires |needle| >= 1 && NeedlePrefix(needle, lb) && |lb| > 0
    requires |lb| <= a && Placed(lb + data, s, a - |lb|)
    requires FirstViable(needle, lb + data, 0) == k && k < |lb| && k + |needle| > |lb| + |data|
    ensures var o := FeedSpec(needle, lb, data, 0); Accounts(needle, s, a - |lb|, o, a + o.consumed)
  {
    var o := FeedSpec(needle, lb, data, 0);
    FeedSpecRetain(needle, lb, data, k);
    RetainLeftmost(needle, lb + data, s, a - |lb|, |lb|, k, o, a - |lb|, a + o.consumed);
  }

  /** The feed step whose lookbehind holds no viable alignment. */
  lemma FeedDiscardLeftmost(needle: seq<bv8>, lb: seq<bv8>, data: seq<bv8>, s: seq<bv8>, a: nat)
    requires |needle| >= 1 && NeedlePrefix(needle, lb) && |lb| > 0
    requires |lb| <= a && Placed(lb + data, s, a - |lb|) && Placed(data, s, a)
    requires FirstViable(needle, lb + data, 0) >= |lb|
    ensures var o := FeedSpec(needle, lb, data, 0); Accounts(needle, s, a - |lb|, o, a + o.consumed)
  {
    var o := FeedSpec(needle, lb, data, 0);
    DiscardIsScan(needle, lb, data);
    DiscardLeftmost(needle, lb, data, s, a, o, a - |lb|);
  }

  /** The discarding feed step ends where the chunk scan from its start ends. */
  lemma DiscardIsScan(needle: seq<bv8>, lb: seq<bv8>, data: seq<bv8>)
    requires |needle| >= 1 && NeedlePrefix(needle, lb) && |lb| > 0
    requires FirstViable(needle, lb + data, 0) >= |lb|
    ensures forall q :: 0 <= q < |lb| ==> !Viable(needle, lb + data, q)
    ensures var o := FeedSpec(needle, lb, data, 0); var r := ScanSpec(needle, data, 0);
      o.matched == r.matched && o.lb == r.lb && o.consumed == r.consumed
  {
    FeedSpecDiscard(needle, lb, data);
  }

  /** Two equal positions of the text have the same reference count. */
  lemma SamePosition(needle: seq<bv8>, s: seq<bv8>, i: nat, j: nat)
    requires |needle| >= 1 && i == j <= |s|
    ensures LeftmostFrom(needle, s, i) == LeftmostFrom(needle, s, j)
  {
  }

  /**
   * A push loop that starts the reference count at `from` with `matches` matches
   * and ends in `p`, the chunk placed at `a`, tracks it: its lookbehind is the text
   * just before its cursor, and its match count plus the reference count from
   * where that lookbehind starts is the old count plus the reference count from
   * `from`.
   */
  predicate Tracks(needle: seq<bv8>, s: seq<bv8>, from: nat, matches: nat, p: Pushed, a: nat)
    requires |needle| >= 1
  {
    from <= |s| && |p.lb| <= a + p.bufPos && Placed(p.lb, s, a + p.bufPos - |p.lb|)
    && matches + LeftmostFrom(needle, s, from) == p.matches + LeftmostFrom(needle, s, a + p.bufPos - |p.lb|)
  }

  /**
   * The push loop over one chunk placed at `a`, the lookbehind just before it,
   * tracks the reference count from the start of what is still to scan.
   */
  lemma {:induction false} DriveLeftmost(needle: seq<bv8>, limit: Option<nat>, matches: nat, lb: seq<bv8>,
                                          data: seq<bv8>, s: seq<bv8>, a: nat, bufPos: nat, from: nat)
    requires |needle| >= 1 && NeedlePrefix(needle, lb)
    requires bufPos <= |data| && (|lb| > 0 ==> bufPos == 0)
    requires |lb| <= a && Placed(lb, s, a - |lb|) && Placed(data, s, a) && from == a - |lb| + bufPos
    ensures Tracks(needle, s, from, matches, Drive(needle, limit, matches, lb, data, bufPos), a)
    decreases |data| - bufPos, 2
  {
    if Below(matches, limit) {
      DriveStepLeftmost(needle, limit, matches, lb, data, s, a, bufPos, from);
    } else {
      DriveAtLimit(needle, limit, matches, lb, data, bufPos);
      SamePosition(needle, s, from, a + bufPos - |lb|);
    }
  }

  /** A feed step that ends the push loop: the loop's result tracks what the step accounts for. */
  lemma TracksLast(needle: seq<bv8>, s: seq<bv8>, from: nat, matches: nat, o: Step, p: Pushed, a: nat)
    requires |needle| >= 1 && Accounts(needle, s, from, o, a + o.consumed)
    requires p.matches == (if o.matched then matches + 1 else matches) && p.lb == o.lb && p.bufPos == o.consumed
    ensures Tracks(needle, s, from, matches, p, a)
  {
  }

  /** A feed step followed by the rest of the push loop: tracking composes. */
  lemma TracksThen(needle: seq<bv8>, s: seq<bv8>, from: nat, matches: nat, o: Step, m: nat, r: Pushed,
                    p: Pushed, a: nat)
    requires |needle| >= 1 && Accounts(needle, s, from, o, a + o.consumed)
    requires m == (if o.matched then matches + 1 else matches)
    requires Tracks(needle, s, a + o.consumed - |o.lb|, m, r, a)
    requires p.matches == r.matches && p.lb == r.lb && p.bufPos == r.bufPos
    ensures Tracks(needle, s, from, matches, p, a)
  {
  }

  /** The push loop whose first feed step reaches the end of the chunk ends in the state that step leaves. */
  lemma DriveLast(needle: seq<bv8>, limit: Option<nat>, matches: nat, lb: seq<bv8>, data: seq<bv8>, bufPos: nat)
    requires |needle| >= 1 && NeedlePrefix(needle, lb) && Below(matches, limit)
    requires bufPos <= |data| && (|lb| > 0 ==> bufPos == 0)
    requires FeedSpec(needle, lb, data, bufPos).consumed == |data|
    ensures var o := FeedSpec(needle, lb, data, bufPos); var p := Drive(needle, limit, matches, lb, data, bufPos);
      p.matches == (if o.matched then matches + 1 else matches) && p.lb == o.lb && p.bufPos == o.consumed
  {
  }

  /**
   * The push loop whose first feed step stops inside the chunk: that step matched,
   * and the loop ends where the loop from the state it leaves ends.
   */
  lemma DriveSplit(needle: seq<bv8>, limit: Option<nat>, matches: nat, lb: seq<bv8>, data: seq<bv8>, bufPos: nat)
    requires |needle| >= 1 && NeedlePrefix(needle, lb) && Below(matches, limit)
    requires bufPos <= |data| && (|lb| > 0 ==> bufPos == 0)
    requires FeedSpec(needle, lb, data, bufPos).consumed < |data|
    ensures var o := FeedSpec(needle, lb, data, bufPos); o.matched && o.lb == [] && bufPos < o.consumed
    ensures var o := FeedSpec(needle, lb, data, bufPos); var p := Drive(needle, limit, matches, lb, data, bufPos);
      var r := Drive(needle, limit, matches + 1, [], data, o.consumed);
      p.matches == r.matches && p.lb == r.lb && p.bufPos == r.bufPos
  {
  }

  /** One feed step of the push loop below the limit, then the rest of the loop. */
  lemma {:induction false} DriveStepLeftmost(needle: seq<bv8>, limit: Option<nat>, matches: nat, lb: seq<bv8>,
                                              data: seq<bv8>, s: seq<bv8>, a: nat, bufPos: nat, from: nat)
    requires |needle| >= 1 && NeedlePrefix(needle, lb) && Below(matches, limit)
    requires bufPos <= |data| && (|lb| > 0 ==> bufPos == 0)
    requires |lb| <= a && Placed(lb, s, a - |lb|) && Placed(data, s, a) && from == a - |lb| + bufPos
    ensures Tracks(needle, s, from, matches, Drive(needle, limit, matches, lb, data, bufPos), a)
    decreases |data| - bufPos, 1
  {
    var o := FeedSpec(needle, lb, data, bufPos);
    FeedLeftmost(needle, lb, data, s, a, bufPos, from);
    if o.consumed == |data| {
      DriveEndLeftmost(needle, limit, matches, lb, data, s, a, bufPos, from);
    } else {
      DriveMoreLeftmost(needle, limit, matches, lb, data, s, a, bufPos, from);
    }
  }

  /** A feed step that reaches the end of the chunk ends the push loop. */
  lemma DriveEndLeftmost(needle: seq<bv8>, limit: Option<nat>, matches: nat, lb: seq<bv8>,
                         data: seq<bv8>, s: seq<bv8>, a: nat, bufPos: nat, from: nat)
    requires |needle| >= 1 && NeedlePrefix(needle, lb) && Below(matches, limit)
    requires bufPos <= |data| && (|lb| > 0 ==> bufPos == 0)
    requires var o := FeedSpec(needle, lb, data, bufPos); o.consumed == |data| && Accounts(needle, s, from, o, a + o.consumed)
    ensures Tracks(needle, s, from, matches, Drive(needle, limit, matches, lb, data, bufPos), a)
  {
    DriveLast(needle, limit, matches, lb, data, bufPos);
    TracksLast(needle, s, from, matches, FeedSpec(needle, lb, data, bufPos), Drive(needle, limit, matches, lb, data, bufPos), a);
  }

  /** A feed step that stops inside the chunk: the push loop goes on from the cursor it leaves. */
  lemma {:induction false} DriveMoreLeftmost(needle: seq<bv8>, limit: Option<nat>, matches: nat, lb: seq<bv8>,
                                              data: seq<bv8>, s: seq<bv8>, a: nat, bufPos: nat, from: nat)
    requires |needle| >= 1 && NeedlePrefix(needle, lb) && Below(matches, limit) && Placed(data, s, a)
    requires bufPos <= |data| && (|lb| > 0 ==> bufPos == 0)
    requires var o := FeedSpec(needle, lb, data, bufPos); o.consumed < |data| && Accounts(needle, s, from, o, a + o.consumed)
    ensures Tracks(needle, s, from, matches, Drive(needle, limit, matches, lb, data, bufPos), a)
    decreases |data| - bufPos, 0
  {
    DriveSplit(needle, limit, matches, lb, data, bufPos);
    DriveOnLeftmost(needle, limit, matches, data, s, a, from, FeedSpec(needle, lb, data, bufPos),
                    Drive(needle, limit, matches, lb, data, bufPos));
  }

  /**
   * A feed step that matched and left the chunk unfinished, at the cursor
   * `o.consumed`: the push loop `whole` ends where the loop from there ends.
   */
  lemma {:induction false} DriveOnLeftmost(needle: seq<bv8>, limit: Option<nat>, matches: nat, data: seq<bv8>,
                                            s: seq<bv8>, a: nat, from: nat, o: Step, whole: Pushed)
    requires |needle| >= 1 && Placed(data, s, a)
    requires o.matched && o.lb == [] && o.consumed < |data|
    requires Accounts(needle, s, from, o, a + o.consumed)
    requires var r := Drive(needle, limit, matches + 1, [], data, o.consumed);
      whole.matches == r.matches && whole.lb == r.lb && whole.bufPos == r.bufPos
    ensures Tracks(needle, s, from, matches, whole, a)
    decreases |data| - o.consumed, 3
  {
    DriveLeftmost(needle, limit, matches + 1, [], data, s, a, o.consumed, a + o.consumed - |o.lb|);
    TracksThen(needle, s, from, matches, o, matches + 1, Drive(needle, limit, matches + 1, [], data, o.consumed),
               whole, a);
  }

  /**
   * A run that starts the reference count at `from` with `matches` matches ends
   * in `r` accounting for it: below the limit, the match count plus the reference
   * count from the final lookbehind is the old count plus the reference count from
   * `from`; once the limit is reached the count stays at or below that.
   */
  predicate Finishes(needle: seq<bv8>, limit: Option<nat>, s: seq<bv8>, from: nat, matches: nat, r: Pushed)
    requires |needle| >= 1 && from <= |s|
  {
    (Below(r.matches, limit) && |r.lb| <= |s|
      && r.matches + LeftmostFrom(needle, s, |s| - |r.lb|) == matches + LeftmostFrom(needle, s, from))
    || (!Below(r.matches, limit) && r.matches <= matches + LeftmostFrom(needle, s, from))
  }

  /** A push that tracks the count, followed by a run that finishes from where it leaves off, finishes. */
  lemma FinishesThen(needle: seq<bv8>, limit: Option<nat>, s: seq<bv8>, from: nat, matches: nat, p: Pushed, a: nat,
                     next: nat, r: Pushed, whole: Pushed)
    requires |needle| >= 1 && Tracks(needle, s, from, matches, p, a) && next == a + p.bufPos - |p.lb|
    requires Finishes(needle, limit, s, next, p.matches, r)
    requires whole.matches == r.matches && whole.lb == r.lb
    ensures Finishes(needle, limit, s, from, matches, whole)
  {
  }

  /**
   * Pushing the chunks in order, the chunks filling the text from `a` to its end
   * and the lookbehind placed just before them at `from`: below the limit, the
   * match count plus the reference count from the final lookbehind is the old
   * count plus the reference count from `from`; once the limit is reached the
   * count stays at or below that.
   */
  lemma {:induction false} RunLeftmost(needle: seq<bv8>, limit: Option<nat>, matches: nat, lb: seq<bv8>,
                                        chunks: seq<seq<bv8>>, s: seq<bv8>, a: nat, from: nat)
    requires |needle| >= 1 && NeedlePrefix(needle, lb)
    requires |lb| <= a <= |s| && Placed(lb, s, a - |lb|) && s[a..] == Concat(chunks) && from == a - |lb|
    ensures Finishes(needle, limit, s, from, matches, Run(needle, limit, matches, lb, chunks))
    decreases |chunks|
  {
    if |chunks| == 0 {
      assert |s[a..]| == 0;
      SamePosition(needle, s, |s| - |lb|, from);
    } else {
      RunStepLeftmost(needle, limit, matches, lb, chunks, s, a, from);
    }
  }

  /** The first chunk of a run, then the rest of the run. */
  lemma {:induction false} RunStepLeftmost(needle: seq<bv8>, limit: Option<nat>, matches: nat, lb: seq<bv8>,
                                            chunks: seq<seq<bv8>>, s: seq<bv8>, a: nat, from: nat)
    requires |needle| >= 1 && NeedlePrefix(needle, lb) && |chunks| > 0
    requires |lb| <= a <= |s| && Placed(lb, s, a - |lb|) && s[a..] == Concat(chunks) && from == a - |lb|
    ensures Finishes(needle, limit, s, from, matches, Run(needle, limit, matches, lb, chunks))
    decreases |chunks|, 1
  {
    var c := chunks[0];
    FirstChunk(s, a, chunks);
    var p := PushSpec(needle, limit, matches, lb, c);
    DriveLeftmost(needle, limit, matches, lb, c, s, a, 0, from + 0);
    if Below(p.matches, limit) {
      RunOnLeftmost(needle, limit, matches, lb, chunks, s, a, from, p);
    } else {
      RunAtLimit(needle, limit, p.matches, p.lb, chunks[1..]);
    }
  }

  /** The first chunk of what fills the text from `a` on lies at `a`, and the rest follows it. */
  lemma FirstChunk(s: seq<bv8>, a: nat, chunks: seq<seq<bv8>>)
    requires a <= |s| && s[a..] == Concat(chunks) && |chunks| > 0
    ensures Placed(chunks[0], s, a) && s[a + |chunks[0]|..] == Concat(chunks[1..])
  {
    var c := chunks[0];
    assert Concat(chunks) == c + Concat(chunks[1..]);
    forall j | 0 <= j < |c|
      ensures s[a + j] == c[j]
    {
      assert s[a..][j] == Concat(chunks)[j];
    }
    PlacedAt(c, s, a);
    assert s[a + |c|..] == s[a..][|c|..];
  }

  /** A run of several chunks ends where the run of the rest, from the first push's state, ends. */
  lemma RunSplit(needle: seq<bv8>, limit: Option<nat>, matches: nat, lb: seq<bv8>, chunks: seq<seq<bv8>>)
    requires |needle| >= 1 && NeedlePrefix(needle, lb) && |chunks| > 0
    ensures var p := PushSpec(needle, limit, matches, lb, chunks[0]);
      var r := Run(needle, limit, p.matches, p.lb, chunks[1..]);
      Run(needle, limit, matches, lb, chunks).matches == r.matches && Run(needle, limit, matches, lb, chunks).lb == r.lb
  {
  }

  /** A run whose first push stays below the limit goes on with the rest of the chunks. */
  lemma {:induction false} RunOnLeftmost(needle: seq<bv8>, limit: Option<nat>, matches: nat, lb: seq<bv8>,
                                          chunks: seq<seq<bv8>>, s: seq<bv8>, a: nat, from: nat, p: Pushed)
    requires |needle| >= 1 && NeedlePrefix(needle, lb) && |chunks| > 0
    requires p == PushSpec(needle, limit, matches, lb, chunks[0]) && Below(p.matches, limit)
    requires a + |chunks[0]| <= |s| && s[a + |chunks[0]|..] == Concat(chunks[1..])
    requires Tracks(needle, s, from, matches, p, a)
    ensures Finishes(needle, limit, s, from, matches, Run(needle, limit, matches, lb, chunks))
    decreases |chunks|, 0
  {
    var c := chunks[0];
    assert p.bufPos == |c|;
    RunLeftmost(needle, limit, p.matches, p.lb, chunks[1..], s, a + |c|, a + p.bufPos - |p.lb|);
    RunSplit(needle, limit, matches, lb, chunks);
    FinishesThen(needle, limit, s, from, matches, p, a, a + p.bufPos - |p.lb|,
                 Run(needle, limit, p.matches, p.lb, chunks[1..]), Run(needle, limit, matches, lb, chunks));
  }

  /**
   * The matches of a whole stream on a fresh matcher are the leftmost
   * non-overlapping occurrences in the joined input: no occurrence is missed
   * across a chunk boundary and none is counted twice.
   */
  lemma StreamLeftmost(needle: seq<bv8>, chunks: seq<seq<bv8>>)
    requires |needle| >= 1
    ensures CountMatches(Stream(needle, None, chunks)) == LeftmostFrom(needle, Concat(chunks), 0)
  {
    StreamLeftmostLimit(needle, None, chunks);
  }

  /** With a limit, the count is the reference count cut off at the limit. */
  lemma StreamLeftmostLimit(needle: seq<bv8>, limit: Option<nat>, chunks: seq<seq<bv8>>)
    requires |needle| >= 1
    ensures var total := LeftmostFrom(needle, Concat(chunks), 0);
      CountMatches(Stream(needle, limit, chunks))
        == if limit.Some? && limit.value < total then limit.value else total
  {
    var s := Concat(chunks);
    var r := Run(needle, limit, 0, [], chunks);
    assert s[0..] == s;
    RunLeftmost(needle, limit, 0, [], chunks, s, 0, 0);
    RunCount(needle, limit, 0, [], chunks);
    CountMatchesAppend(r.events, Flush(r.lb));
    assert CountMatches(Flush(r.lb)) == 0;
    if Below(r.matches, limit) {
      assert LeftmostFrom(needle, s, |s| - |r.lb|) == 0;
    } else {
      StreamWithinLimit(needle, limit, chunks);
    }
  }



}
