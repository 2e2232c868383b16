/**
 * What one `feed` step, one `push` and a whole stream produce, stated on values
 * through the leftmost viable alignment (Window.FirstViable) rather than through
 * the Horspool loops; the class in module Sbmh is proved to compute exactly this.
 */
module Scanning {
  import opened Events
  import opened Window

  /** The result of one feed step: events, the chunk offset reached, the new lookbehind, whether a match was counted. */
  datatype Step = Step(events: seq<Event>, consumed: nat, lb: seq<bv8>, matched: bool)

  /**
   * The step over the chunk alone (the lookbehind is empty), starting at the
   * cursor `bufPos`: the leftmost viable alignment k at or after it is either a
   * whole occurrence (reported with the bytes since the cursor, which make an
   * event with data exactly when k > 0) or the tail to retain.
   */
  function ScanSpec(needle: seq<bv8>, data: seq<bv8>, bufPos: nat): (o: Step)
    requires |needle| >= 1 && bufPos <= |data|
    ensures o.consumed <= |data| && NeedlePrefix(needle, o.lb)
    ensures o.matched ==> bufPos < o.consumed && o.lb == []
    ensures !o.matched ==> o.consumed == |data|
  {
    var k := FirstViable(needle, data, bufPos);
    ViableCases(needle, data, k);
    if k + |needle| <= |data| then
      Step([if k > 0 then Match(data[bufPos..k], true) else ExactMatch], k + |needle|, [], true)
    else
      Step(if k > 0 then [NonMatch(data[bufPos..k], true)] else [], |data|, data[k..], false)
  }

  /** ScanSpec when the leftmost viable alignment `k` is a whole occurrence. */
  lemma ScanSpecMatch(needle: seq<bv8>, data: seq<bv8>, bufPos: nat, k: nat)
    requires |needle| >= 1 && bufPos <= k && k + |needle| <= |data|
    requires FirstViable(needle, data, bufPos) == k
    ensures ScanSpec(needle, data, bufPos)
      == Step([if k > 0 then Match(data[bufPos..k], true) else ExactMatch], k + |needle|, [], true)
  {
  }

  /** ScanSpec when the leftmost viable alignment `k` leaves a tail shorter than the needle. */
  lemma ScanSpecTail(needle: seq<bv8>, data: seq<bv8>, bufPos: nat, k: nat)
    requires |needle| >= 1 && bufPos <= k <= |data| < k + |needle|
    requires FirstViable(needle, data, bufPos) == k
    ensures ScanSpec(needle, data, bufPos)
      == Step(if k > 0 then [NonMatch(data[bufPos..k], true)] else [], |data|, data[k..], false)
  {
  }

  /**
   * One feed step. With a non-empty lookbehind `lb` the search runs over lb ++ data:
   * a leftmost viable alignment inside lb is a match spanning the boundary (always
   * reported exact, the lookbehind bytes before it are not reported) or a new,
   * shorter retained prefix; otherwise all of lb is reported as unsafe non-match data
   * and the chunk is scanned from its start.
   */
  function FeedSpec(needle: seq<bv8>, lb: seq<bv8>, data: seq<bv8>, bufPos: nat): (o: Step)
    requires |needle| >= 1 && NeedlePrefix(needle, lb)
    requires bufPos <= |data| && (|lb| > 0 ==> bufPos == 0)
    ensures o.consumed <= |data| && NeedlePrefix(needle, o.lb)
    ensures o.matched ==> bufPos < o.consumed && o.lb == []
    ensures !o.matched ==> o.consumed == |data|
  {
    if |lb| > 0 then
      var w := lb + data;
      var k := FirstViable(needle, w, 0);
      ViableCases(needle, w, k);
      if k < |lb| then
        if k + |needle| <= |w| then
          Step([ExactMatch], k + |needle| - |lb|, [], true)
        else
          Step(if k > 0 then [NonMatch(lb[..k], false)] else [], |data|, w[k..], false)
      else
        var b := ScanSpec(needle, data, 0);
        Step([NonMatch(lb, false)] + b.events, b.consumed, b.lb, b.matched)
    else
      ScanSpec(needle, data, bufPos)
  }

  /** FeedSpec when the leftmost viable alignment `k` of lb ++ data is a whole occurrence starting in lb. */
  lemma FeedSpecSpanning(needle: seq<bv8>, lb: seq<bv8>, data: seq<bv8>, k: nat)
    requires |needle| >= 1 && NeedlePrefix(needle, lb) && k < |lb| && k + |needle| <= |lb| + |data|
    requires FirstViable(needle, lb + data, 0) == k
    ensures FeedSpec(needle, lb, data, 0) == Step([ExactMatch], k + |needle| - |lb|, [], true)
  {
  }

  /** FeedSpec when the leftmost viable alignment `k` of lb ++ data starts in lb but the needle does not fit. */
  lemma FeedSpecRetain(needle: seq<bv8>, lb: seq<bv8>, data: seq<bv8>, k: nat)
    requires |needle| >= 1 && NeedlePrefix(needle, lb) && k < |lb| && k + |needle| > |lb| + |data|
    requires FirstViable(needle, lb + data, 0) == k
    ensures FeedSpec(needle, lb, data, 0)
      == Step(if k > 0 then [NonMatch(lb[..k], false)] else [], |data|, (lb + data)[k..], false)
  {
  }

  /** FeedSpec when no alignment inside lb is viable: lb is reported and the chunk scanned from its start. */
  lemma FeedSpecDiscard(needle: seq<bv8>, lb: seq<bv8>, data: seq<bv8>)
    requires |needle| >= 1 && NeedlePrefix(needle, lb) && |lb| > 0
    requires forall q :: 0 <= q < |lb| ==> !Viable(needle, lb + data, q)
    ensures var b := ScanSpec(needle, data, 0);
      FeedSpec(needle, lb, data, 0) == Step([NonMatch(lb, false)] + b.events, b.consumed, b.lb, b.matched)
  {
    FirstViableShift(needle, lb, data);
  }

  /** FeedSpec with an empty lookbehind is the chunk scan from the cursor. */
  lemma FeedSpecEmpty(needle: seq<bv8>, lb: seq<bv8>, data: seq<bv8>, bufPos: nat)
    requires |needle| >= 1 && lb == [] && bufPos <= |data|
    ensures FeedSpec(needle, lb, data, bufPos) == ScanSpec(needle, data, bufPos)
  {
  }

  /** The lookbehind bytes a feed step drops without reporting: those before a boundary-spanning match. */
  function Lost(needle: seq<bv8>, lb: seq<bv8>, data: seq<bv8>): (r: seq<bv8>)
    ensures |r| <= |lb| && r == lb[..|r|] && (|lb| > 0 ==> |r| < |lb|)
    ensures |r| > 0 ==> var k := FirstViable(needle, lb + data, 0); k == |r| && k + |needle| <= |lb| + |data|
  {
    if |lb| == 0 then []
    else
      var k := FirstViable(needle, lb + data, 0);
      if k < |lb| && k + |needle| <= |lb| + |data| then lb[..k] else []
  }

  /** What a push leaves behind: its events, the match count, the lookbehind and the cursor. */
  datatype Pushed = Pushed(events: seq<Event>, matches: nat, lb: seq<bv8>, bufPos: nat)

  /**
   * The push loop from cursor `bufPos`: feed steps while the last step did not
   * consume the chunk and the limit is not reached. The first step is always tried.
   */
  function Drive(needle: seq<bv8>, limit: Option<nat>, matches: nat, lb: seq<bv8>, data: seq<bv8>, bufPos: nat): (p: Pushed)
    requires |needle| >= 1 && NeedlePrefix(needle, lb)
    requires bufPos <= |data| && (|lb| > 0 ==> bufPos == 0)
    ensures NeedlePrefix(needle, p.lb) && bufPos <= p.bufPos <= |data|
    ensures p.bufPos == |data| || !Below(p.matches, limit)
    ensures Within(matches, limit) ==> Within(p.matches, limit)
    decreases |data| - bufPos
  {
    if !Below(matches, limit) then Pushed([], matches, lb, bufPos)
    else
      var o := FeedSpec(needle, lb, data, bufPos);
      var m := if o.matched then matches + 1 else matches;
      if o.consumed == |data| then Pushed(o.events, m, o.lb, o.consumed)
      else
        var r := Drive(needle, limit, m, o.lb, data, o.consumed);
        Pushed(o.events + r.events, r.matches, r.lb, r.bufPos)
  }

  /**
   * Drive below the limit when the first feed step stops inside the chunk: that
   * step, then the drive over the rest from the state it leaves (`m`, `lb'`, `bufPos'`).
   */
  lemma DriveContinues(needle: seq<bv8>, limit: Option<nat>, matches: nat, lb: seq<bv8>, data: seq<bv8>, bufPos: nat,
                       m: nat, lb': seq<bv8>, bufPos': nat)
    requires |needle| >= 1 && NeedlePrefix(needle, lb)
    requires bufPos <= |data| && (|lb| > 0 ==> bufPos == 0) && Below(matches, limit)
    requires var o := FeedSpec(needle, lb, data, bufPos);
      o.consumed < |data| && m == (if o.matched then matches + 1 else matches) && lb' == o.lb && bufPos' == o.consumed
    ensures NeedlePrefix(needle, lb') && bufPos' <= |data| && (|lb'| > 0 ==> bufPos' == 0)
    ensures var r := Drive(needle, limit, m, lb', data, bufPos');
      Drive(needle, limit, matches, lb, data, bufPos) == Pushed(FeedSpec(needle, lb, data, bufPos).events + r.events, r.matches, r.lb, r.bufPos)
  {
  }

  /**
   * Drive below the limit when the first feed step reaches the end of the chunk:
   * that step alone, which leaves the state (`m`, `lb'`, `bufPos'`).
   */
  lemma DriveEnds(needle: seq<bv8>, limit: Option<nat>, matches: nat, lb: seq<bv8>, data: seq<bv8>, bufPos: nat,
                  m: nat, lb': seq<bv8>, bufPos': nat)
    requires |needle| >= 1 && NeedlePrefix(needle, lb)
    requires bufPos <= |data| && (|lb| > 0 ==> bufPos == 0) && Below(matches, limit)
    requires var o := FeedSpec(needle, lb, data, bufPos);
      o.consumed == |data| && m == (if o.matched then matches + 1 else matches) && lb' == o.lb && bufPos' == o.consumed
    ensures Drive(needle, limit, matches, lb, data, bufPos) == Pushed(FeedSpec(needle, lb, data, bufPos).events, m, lb', bufPos')
  {
  }

  /** At the match limit Drive does nothing. */
  lemma DriveAtLimit(needle: seq<bv8>, limit: Option<nat>, matches: nat, lb: seq<bv8>, data: seq<bv8>, bufPos: nat)
    requires |needle| >= 1 && NeedlePrefix(needle, lb)
    requires bufPos <= |data| && (|lb| > 0 ==> bufPos == 0) && !Below(matches, limit)
    ensures Drive(needle, limit, matches, lb, data, bufPos) == Pushed([], matches, lb, bufPos)
  {
  }

  /** One `push` of a chunk: the cursor starts at 0. */
  function PushSpec(needle: seq<bv8>, limit: Option<nat>, matches: nat, lb: seq<bv8>, chunk: seq<bv8>): (p: Pushed)
    requires |needle| >= 1 && NeedlePrefix(needle, lb)
    ensures NeedlePrefix(needle, p.lb)
    ensures Within(matches, limit) ==> Within(p.matches, limit)
  {
    Drive(needle, limit, matches, lb, chunk, 0)
  }

  /** Pushing the chunks in order. */
  function Run(needle: seq<bv8>, limit: Option<nat>, matches: nat, lb: seq<bv8>, chunks: seq<seq<bv8>>): (p: Pushed)
    requires |needle| >= 1 && NeedlePrefix(needle, lb)
    ensures NeedlePrefix(needle, p.lb)
    ensures Within(matches, limit) ==> Within(p.matches, limit)
    decreases |chunks|
  {
    if |chunks| == 0 then Pushed([], matches, lb, 0)
    else
      var p := PushSpec(needle, limit, matches, lb, chunks[0]);
      var r := Run(needle, limit, p.matches, p.lb, chunks[1..]);
      Pushed(p.events + r.events, r.matches, r.lb, r.bufPos)
  }

  /** What `destroy` reports: the retained lookbehind as an unsafe non-match, when there is any. */
  function Flush(lb: seq<bv8>): (r: seq<Event>)
    ensures |r| == 0 <==> |lb| == 0
    ensures forall e :: e in r ==> e == NonMatch(lb, false)
    ensures forall needle :: Reported(needle, r) == lb
  {
    if |lb| > 0 then [NonMatch(lb, false)] else []
  }

  /** A whole stream on a fresh matcher: every push, then the final flush of `destroy`. */
  function Stream(needle: seq<bv8>, limit: Option<nat>, chunks: seq<seq<bv8>>): seq<Event>
    requires |needle| >= 1
  {
    var r := Run(needle, limit, 0, [], chunks);
    r.events + Flush(r.lb)
  }
}
