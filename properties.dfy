/**
 * What the event stream means: which input bytes the events of a feed step, a
 * push and a whole stream stand for, how many matches they report, and what the
 * match limit does.
 */
module Properties {
  import opened Events
  import opened Window
  import opened Scanning

  /** The chunks of a stream, joined. */
  function Concat(chunks: seq<seq<bv8>>): seq<bv8>
  {
    if |chunks| == 0 then [] else chunks[0] + Concat(chunks[1..])
  }

  /** No proper prefix of the needle has a border: no needle prefix ends with a shorter needle prefix. */
  predicate NoSelfOverlap(needle: seq<bv8>)
  {
    forall k, l :: 0 < k < l < |needle| ==> needle[k..l] != needle[..l - k]
  }

  /** A chunk scan stands for exactly the bytes from the cursor to where it stopped, the retained tail included. */
  lemma ScanAccounting(needle: seq<bv8>, data: seq<bv8>, bufPos: nat)
    requires |needle| >= 1 && bufPos <= |data|
    ensures var o := ScanSpec(needle, data, bufPos);
      data[bufPos..o.consumed] == Reported(needle, o.events) + o.lb
  {
    var k := FirstViable(needle, data, bufPos);
    ViableCases(needle, data, k);
    if k + |needle| <= |data| {
      if k > 0 {
        ScanMatchAccounting(needle, data, bufPos, k);
      } else {
        ScanExactAccounting(needle, data);
      }
    } else if k > 0 {
      ScanTailAccounting(needle, data, bufPos, k);
    } else {
      ScanWholeTailAccounting(needle, data);
    }
  }

  /** ScanAccounting when the scan ends in a match at `k` > 0. */
  lemma ScanMatchAccounting(needle: seq<bv8>, data: seq<bv8>, bufPos: nat, k: nat)
    requires |needle| >= 1 && bufPos <= k && 0 < k && k + |needle| <= |data|
    requires FirstViable(needle, data, bufPos) == k && Occurs(needle, data, k)
    ensures var o := ScanSpec(needle, data, bufPos);
      data[bufPos..o.consumed] == Reported(needle, o.events) + o.lb
  {
    ScanSpecMatch(needle, data, bufPos, k);
    SliceMatch(needle, data, bufPos, k);
    SingleBytes(needle, Match(data[bufPos..k], true));
    AppendNothing(Reported(needle, [Match(data[bufPos..k], true)]));
  }

  /** ScanAccounting when the scan ends in a match at 0. */
  lemma ScanExactAccounting(needle: seq<bv8>, data: seq<bv8>)
    requires |needle| >= 1 && |needle| <= |data|
    requires FirstViable(needle, data, 0) == 0 && Occurs(needle, data, 0)
    ensures var o := ScanSpec(needle, data, 0);
      data[0..o.consumed] == Reported(needle, o.events) + o.lb
  {
    ScanSpecMatch(needle, data, 0, 0);
    SliceMatch(needle, data, 0, 0);
    SingleBytes(needle, ExactMatch);
    AppendNothing(Reported(needle, [ExactMatch]));
  }

  /** ScanAccounting when the scan retains the tail from `k` > 0. */
  lemma ScanTailAccounting(needle: seq<bv8>, data: seq<bv8>, bufPos: nat, k: nat)
    requires |needle| >= 1 && bufPos <= k && 0 < k <= |data| < k + |needle|
    requires FirstViable(needle, data, bufPos) == k
    ensures var o := ScanSpec(needle, data, bufPos);
      data[bufPos..o.consumed] == Reported(needle, o.events) + o.lb
  {
    ScanSpecTail(needle, data, bufPos, k);
    SliceTail(data, bufPos, k);
    SingleBytes(needle, NonMatch(data[bufPos..k], true));
  }

  /** ScanAccounting when the scan retains all of a chunk shorter than the needle. */
  lemma ScanWholeTailAccounting(needle: seq<bv8>, data: seq<bv8>)
    requires |needle| >= 1 && |data| < |needle|
    requires FirstViable(needle, data, 0) == 0
    ensures var o := ScanSpec(needle, data, 0);
      data[0..o.consumed] == Reported(needle, o.events) + o.lb
  {
    ScanSpecTail(needle, data, 0, 0);
    SliceTail(data, 0, 0);
  }

  /**
   * A feed step stands for the lookbehind and the chunk bytes it consumed, less
   * the bytes Lost drops before a match spanning the boundary.
   */
  lemma FeedAccounting(needle: seq<bv8>, lb: seq<bv8>, data: seq<bv8>, bufPos: nat)
    requires |needle| >= 1 && NeedlePrefix(needle, lb)
    requires bufPos <= |data| && (|lb| > 0 ==> bufPos == 0)
    ensures var o := FeedSpec(needle, lb, data, bufPos);
      lb + data[bufPos..o.consumed] == Lost(needle, lb, data) + Reported(needle, o.events) + o.lb
  {
    if |lb| == 0 {
      FeedEmptyAccounting(needle, lb, data, bufPos);
    } else {
      var w := lb + data;
      var k := FirstViable(needle, w, 0);
      ViableCases(needle, w, k);
      if k < |lb| && k + |needle| <= |w| {
        FeedSpanningAccounting(needle, lb, data, k);
      } else if k < |lb| && k > 0 {
        FeedRetainAccounting(needle, lb, data, k);
      } else if k < |lb| {
        FeedWholeRetainAccounting(needle, lb, data);
      } else {
        FeedDiscardAccounting(needle, lb, data);
      }
    }
  }

  /** FeedAccounting with an empty lookbehind: the chunk scan. */
  lemma FeedEmptyAccounting(needle: seq<bv8>, lb: seq<bv8>, data: seq<bv8>, bufPos: nat)
    requires |needle| >= 1 && lb == [] && bufPos <= |data|
    ensures var o := FeedSpec(needle, lb, data, bufPos);
      lb + data[bufPos..o.consumed] == Lost(needle, lb, data) + Reported(needle, o.events) + o.lb
  {
    var o := ScanSpec(needle, data, bufPos);
    FeedSpecEmpty(needle, lb, data, bufPos);
    ScanAccounting(needle, data, bufPos);
    assert Lost(needle, lb, data) == [];
    EmptyBytes(lb, Lost(needle, lb, data), data[bufPos..o.consumed], Reported(needle, o.events), o.lb);
  }

  /** Nothing in front of both sides of s == r + t. */
  lemma EmptyBytes(a: seq<bv8>, lost: seq<bv8>, s: seq<bv8>, r: seq<bv8>, t: seq<bv8>)
    requires a == [] && lost == [] && s == r + t
    ensures a + s == lost + r + t
  {
  }

  /** FeedAccounting for a match spanning the boundary at `k`: lb[..k] is lost. */
  lemma FeedSpanningAccounting(needle: seq<bv8>, lb: seq<bv8>, data: seq<bv8>, k: nat)
    requires |needle| >= 1 && NeedlePrefix(needle, lb) && k < |lb| && k + |needle| <= |lb| + |data|
    requires FirstViable(needle, lb + data, 0) == k && Occurs(needle, lb + data, k)
    ensures var o := FeedSpec(needle, lb, data, 0);
      lb + data[0..o.consumed] == Lost(needle, lb, data) + Reported(needle, o.events) + o.lb
  {
    FeedSpecSpanning(needle, lb, data, k);
    SliceSpan(needle, lb, data, k);
    SingleBytes(needle, ExactMatch);
    AppendNothing(lb[..k] + Reported(needle, [ExactMatch]));
  }

  /** FeedAccounting when the step retains the window from `k` > 0 inside lb. */
  lemma FeedRetainAccounting(needle: seq<bv8>, lb: seq<bv8>, data: seq<bv8>, k: nat)
    requires |needle| >= 1 && NeedlePrefix(needle, lb) && 0 < k < |lb| && k + |needle| > |lb| + |data|
    requires FirstViable(needle, lb + data, 0) == k
    ensures var o := FeedSpec(needle, lb, data, 0);
      lb + data[0..o.consumed] == Lost(needle, lb, data) + Reported(needle, o.events) + o.lb
  {
    FeedSpecRetain(needle, lb, data, k);
    SliceRetain(lb, data, k);
    SingleBytes(needle, NonMatch(lb[..k], false));
    PrependNothing(Reported(needle, [NonMatch(lb[..k], false)]) + (lb + data)[k..]);
  }

  /** FeedAccounting when the step retains the whole window. */
  lemma FeedWholeRetainAccounting(needle: seq<bv8>, lb: seq<bv8>, data: seq<bv8>)
    requires |needle| >= 1 && NeedlePrefix(needle, lb) && 0 < |lb| && |needle| > |lb| + |data|
    requires FirstViable(needle, lb + data, 0) == 0
    ensures var o := FeedSpec(needle, lb, data, 0);
      lb + data[0..o.consumed] == Lost(needle, lb, data) + Reported(needle, o.events) + o.lb
  {
    FeedSpecRetain(needle, lb, data, 0);
    SliceRetain(lb, data, 0);
    PrependNothing(Reported(needle, []) + (lb + data)[0..]);
  }

  /** FeedAccounting when nothing in lb is viable: lb is reported whole, then the chunk scan. */
  lemma FeedDiscardAccounting(needle: seq<bv8>, lb: seq<bv8>, data: seq<bv8>)
    requires |needle| >= 1 && NeedlePrefix(needle, lb) && |lb| > 0
    requires FirstViable(needle, lb + data, 0) >= |lb|
    ensures var o := FeedSpec(needle, lb, data, 0);
      lb + data[0..o.consumed] == Lost(needle, lb, data) + Reported(needle, o.events) + o.lb
  {
    var b := ScanSpec(needle, data, 0);
    FeedSpecDiscard(needle, lb, data);
    ScanAccounting(needle, data, 0);
    SingleBytes(needle, NonMatch(lb, false));
    ReportedAppend(needle, [NonMatch(lb, false)], b.events);
    PrependBytes(lb, data[0..b.consumed], Reported(needle, b.events), b.lb);
  }

  /** Putting `a` in front of both sides of s == r + t. */
  lemma PrependBytes(a: seq<bv8>, s: seq<bv8>, r: seq<bv8>, t: seq<bv8>)
    requires s == r + t
    ensures a + s == [] + (a + r) + t
  {
  }

  /** The slices of a match spanning the boundary at `k`. */
  lemma SliceSpan(needle: seq<bv8>, lb: seq<bv8>, data: seq<bv8>, k: nat)
    requires k < |lb| <= |needle| && Occurs(needle, lb + data, k)
    ensures lb + data[0..k + |needle| - |lb|] == lb[..k] + needle
  {
    var w := lb + data;
    var n := |needle|;
    assert lb + data[0..k + n - |lb|] == w[..k + n];
    assert w[..k + n] == w[..k] + w[k..k + n];
  }

  /** The slices of a retaining step at `k`. */
  lemma SliceRetain(lb: seq<bv8>, data: seq<bv8>, k: nat)
    requires k < |lb|
    ensures lb + data[0..|data|] == lb[..k] + (lb + data)[k..]
    ensures k == 0 ==> lb + data[0..|data|] == (lb + data)[k..]
  {
    var w := lb + data;
    assert data[0..|data|] == data;
    assert w == w[..k] + w[k..];
  }

  /** A chunk scan reports one match exactly when it counts one. */
  lemma ScanCount(needle: seq<bv8>, data: seq<bv8>, bufPos: nat)
    requires |needle| >= 1 && bufPos <= |data|
    ensures var o := ScanSpec(needle, data, bufPos);
      CountMatches(o.events) == if o.matched then 1 else 0
  {
    var k := FirstViable(needle, data, bufPos);
    ViableCases(needle, data, k);
    if k + |needle| <= |data| {
      ScanSpecMatch(needle, data, bufPos, k);
      SingleCount(if k > 0 then Match(data[bufPos..k], true) else ExactMatch);
    } else {
      ScanSpecTail(needle, data, bufPos, k);
      if k > 0 {
        SingleCount(NonMatch(data[bufPos..k], true));
      }
    }
  }

  /** A feed step reports one match exactly when it counts one. */
  lemma FeedCount(needle: seq<bv8>, lb: seq<bv8>, data: seq<bv8>, bufPos: nat)
    requires |needle| >= 1 && NeedlePrefix(needle, lb)
    requires bufPos <= |data| && (|lb| > 0 ==> bufPos == 0)
    ensures var o := FeedSpec(needle, lb, data, bufPos);
      CountMatches(o.events) == if o.matched then 1 else 0
  {
    if |lb| == 0 {
      FeedSpecEmpty(needle, lb, data, bufPos);
      ScanCount(needle, data, bufPos);
    } else {
      var w := lb + data;
      var k := FirstViable(needle, w, 0);
      ViableCases(needle, w, k);
      if k < |lb| && k + |needle| <= |w| {
        FeedSpecSpanning(needle, lb, data, k);
        SingleCount(ExactMatch);
      } else if k < |lb| {
        FeedSpecRetain(needle, lb, data, k);
        if k > 0 {
          SingleCount(NonMatch(lb[..k], false));
        }
      } else {
        var b := ScanSpec(needle, data, 0);
        FeedSpecDiscard(needle, lb, data);
        ScanCount(needle, data, 0);
        CountMatchesAppend([NonMatch(lb, false)], b.events);
        SingleCount(NonMatch(lb, false));
      }
    }
  }

  /** Without a needle prefix that overlaps itself a feed step loses nothing. */
  lemma NoLossWithoutSelfOverlap(needle: seq<bv8>, lb: seq<bv8>, data: seq<bv8>)
    requires |needle| >= 1 && NeedlePrefix(needle, lb) && NoSelfOverlap(needle)
    ensures Lost(needle, lb, data) == []
  {
    if |lb| > 0 {
      var w := lb + data;
      var k := FirstViable(needle, w, 0);
      ViableCases(needle, w, k);
      if 0 < k < |lb| && k + |needle| <= |w| {
        SpanBorder(needle, lb, data, k);
        assert false;
      }
    }
  }

  /** A match at `k` inside a lookbehind that is a needle prefix makes needle[k..|lb|] a border of that prefix. */
  lemma SpanBorder(needle: seq<bv8>, lb: seq<bv8>, data: seq<bv8>, k: nat)
    requires NeedlePrefix(needle, lb) && k < |lb| && Occurs(needle, lb + data, k)
    ensures needle[k..|lb|] == needle[..|lb| - k]
  {
    var w := lb + data;
    assert w[k..|lb|] == w[k..k + |needle|][..|lb| - k];
    assert w[k..|lb|] == lb[k..];
    assert lb[k..] == needle[..|lb|][k..];
  }

  /**
   * A push stands for the lookbehind and the chunk bytes it consumed, less what
   * its first feed step lost.
   */
  lemma {:induction false} DriveAccounting(needle: seq<bv8>, limit: Option<nat>, matches: nat, lb: seq<bv8>,
                                            data: seq<bv8>, bufPos: nat)
    requires |needle| >= 1 && NeedlePrefix(needle, lb)
    requires bufPos <= |data| && (|lb| > 0 ==> bufPos == 0)
    ensures var p := Drive(needle, limit, matches, lb, data, bufPos);
      lb + data[bufPos..p.bufPos]
        == (if Below(matches, limit) then Lost(needle, lb, data) else []) + Reported(needle, p.events) + p.lb
    decreases |data| - bufPos
  {
    if !Below(matches, limit) {
      DriveAtLimit(needle, limit, matches, lb, data, bufPos);
      JoinNothing(lb, data, bufPos);
    } else {
      var o := FeedSpec(needle, lb, data, bufPos);
      var m := if o.matched then matches + 1 else matches;
      if o.consumed == |data| {
        DriveLastAccounting(needle, limit, matches, lb, data, bufPos);
      } else {
        DriveAccounting(needle, limit, m, o.lb, data, o.consumed);
        DriveMoreAccounting(needle, limit, matches, lb, data, bufPos);
      }
    }
  }

  lemma JoinNothing(lb: seq<bv8>, data: seq<bv8>, bufPos: nat)
    requires bufPos <= |data|
    ensures lb + data[bufPos..bufPos] == [] + [] + lb
  {
  }

  /** DriveAccounting when the first feed step reaches the end of the chunk. */
  lemma DriveLastAccounting(needle: seq<bv8>, limit: Option<nat>, matches: nat, lb: seq<bv8>,
                            data: seq<bv8>, bufPos: nat)
    requires |needle| >= 1 && NeedlePrefix(needle, lb)
    requires bufPos <= |data| && (|lb| > 0 ==> bufPos == 0) && Below(matches, limit)
    requires FeedSpec(needle, lb, data, bufPos).consumed == |data|
    ensures var p := Drive(needle, limit, matches, lb, data, bufPos);
      lb + data[bufPos..p.bufPos] == Lost(needle, lb, data) + Reported(needle, p.events) + p.lb
  {
    var o := FeedSpec(needle, lb, data, bufPos);
    DriveEnds(needle, limit, matches, lb, data, bufPos, if o.matched then matches + 1 else matches, o.lb, o.consumed);
    FeedAccounting(needle, lb, data, bufPos);
  }

  /** DriveAccounting when the first feed step stops inside the chunk, from the fact for the rest. */
  lemma DriveMoreAccounting(needle: seq<bv8>, limit: Option<nat>, matches: nat, lb: seq<bv8>,
                            data: seq<bv8>, bufPos: nat)
    requires |needle| >= 1 && NeedlePrefix(needle, lb)
    requires bufPos <= |data| && (|lb| > 0 ==> bufPos == 0) && Below(matches, limit)
    requires FeedSpec(needle, lb, data, bufPos).consumed < |data|
    requires var o := FeedSpec(needle, lb, data, bufPos);
      var m := if o.matched then matches + 1 else matches;
      var r := Drive(needle, limit, m, o.lb, data, o.consumed);
      o.lb + data[o.consumed..r.bufPos]
        == (if Below(m, limit) then Lost(needle, o.lb, data) else []) + Reported(needle, r.events) + r.lb
    ensures var p := Drive(needle, limit, matches, lb, data, bufPos);
      lb + data[bufPos..p.bufPos] == Lost(needle, lb, data) + Reported(needle, p.events) + p.lb
  {
    var o := FeedSpec(needle, lb, data, bufPos);
    var m := if o.matched then matches + 1 else matches;
    var r := Drive(needle, limit, m, o.lb, data, o.consumed);
    DriveContinues(needle, limit, matches, lb, data, bufPos, m, o.lb, o.consumed);
    FeedAccounting(needle, lb, data, bufPos);
    assert Lost(needle, o.lb, data) == [];
    ReportedAppend(needle, o.events, r.events);
    JoinBytes(lb, data, bufPos, o.consumed, r.bufPos, Lost(needle, lb, data), Reported(needle, o.events),
              Reported(needle, r.events), r.lb);
  }

  /** The bytes of two consecutive feed steps, joined. */
  lemma JoinBytes(lb: seq<bv8>, data: seq<bv8>, i: nat, j: nat, l: nat,
                  lost: seq<bv8>, r1: seq<bv8>, r2: seq<bv8>, t: seq<bv8>)
    requires i <= j <= l <= |data|
    requires lb + data[i..j] == lost + r1 + []
    requires [] + data[j..l] == [] + r2 + t
    ensures lb + data[i..l] == lost + (r1 + r2) + t
  {
    calc {
      lb + data[i..l];
      { assert data[i..l] == data[i..j] + data[j..l]; }
      (lb + data[i..j]) + data[j..l];
      { AppendNothing(lost + r1); }
      (lost + r1) + data[j..l];
      { PrependNothing(data[j..l]); PrependNothing(r2); }
      (lost + r1) + (r2 + t);
      lost + (r1 + r2) + t;
    }
  }

  /** A push counts exactly the matches it reports. */
  lemma {:induction false} DriveCount(needle: seq<bv8>, limit: Option<nat>, matches: nat, lb: seq<bv8>,
                                       data: seq<bv8>, bufPos: nat)
    requires |needle| >= 1 && NeedlePrefix(needle, lb)
    requires bufPos <= |data| && (|lb| > 0 ==> bufPos == 0)
    ensures var p := Drive(needle, limit, matches, lb, data, bufPos);
      p.matches == matches + CountMatches(p.events)
    decreases |data| - bufPos
  {
    if Below(matches, limit) {
      var o := FeedSpec(needle, lb, data, bufPos);
      var m := if o.matched then matches + 1 else matches;
      FeedCount(needle, lb, data, bufPos);
      if o.consumed == |data| {
        DriveEnds(needle, limit, matches, lb, data, bufPos, m, o.lb, o.consumed);
      } else {
        var r := Drive(needle, limit, m, o.lb, data, o.consumed);
        DriveCount(needle, limit, m, o.lb, data, o.consumed);
        DriveContinues(needle, limit, matches, lb, data, bufPos, m, o.lb, o.consumed);
        CountMatchesAppend(o.events, r.events);
      }
    }
  }

  /** Pushing the chunks in order counts exactly the matches they report. */
  lemma {:induction false} RunCount(needle: seq<bv8>, limit: Option<nat>, matches: nat, lb: seq<bv8>,
                                     chunks: seq<seq<bv8>>)
    requires |needle| >= 1 && NeedlePrefix(needle, lb)
    ensures var r := Run(needle, limit, matches, lb, chunks);
      r.matches == matches + CountMatches(r.events)
    decreases |chunks|
  {
    if |chunks| > 0 {
      var p := PushSpec(needle, limit, matches, lb, chunks[0]);
      DriveCount(needle, limit, matches, lb, chunks[0], 0);
      RunCount(needle, limit, p.matches, p.lb, chunks[1..]);
      var r := Run(needle, limit, p.matches, p.lb, chunks[1..]);
      CountMatchesAppend(p.events, r.events);
    }
  }

  /** A whole stream never reports more matches than the limit allows. */
  lemma StreamWithinLimit(needle: seq<bv8>, limit: Option<nat>, chunks: seq<seq<bv8>>)
    requires |needle| >= 1
    ensures Within(CountMatches(Stream(needle, limit, chunks)), limit)
  {
    var r := Run(needle, limit, 0, [], chunks);
    RunCount(needle, limit, 0, [], chunks);
    CountMatchesAppend(r.events, Flush(r.lb));
    assert CountMatches(Flush(r.lb)) == 0;
  }

  /** Once the limit is reached, pushing further chunks reports nothing and changes nothing. */
  lemma {:induction false} RunAtLimit(needle: seq<bv8>, limit: Option<nat>, matches: nat, lb: seq<bv8>,
                                       chunks: seq<seq<bv8>>)
    requires |needle| >= 1 && NeedlePrefix(needle, lb) && !Below(matches, limit)
    ensures Run(needle, limit, matches, lb, chunks) == Pushed([], matches, lb, 0)
    decreases |chunks|
  {
    if |chunks| > 0 {
      RunAtLimit(needle, limit, matches, lb, chunks[1..]);
    }
  }

  /**
   * With a limit of zero matches nothing at all is reported, not even the input
   * as non-match data: the push loop never runs.
   */
  lemma ZeroLimitSilent(needle: seq<bv8>, chunks: seq<seq<bv8>>)
    requires |needle| >= 1
    ensures Stream(needle, Some(0), chunks) == []
  {
    RunAtLimit(needle, Some(0), 0, [], chunks);
  }

  /**
   * Without a limit and with a needle none of whose prefixes overlaps itself,
   * the events of the pushes and the retained lookbehind stand for the input
   * exactly.
   */
  lemma {:induction false} RunLossless(needle: seq<bv8>, matches: nat, lb: seq<bv8>, chunks: seq<seq<bv8>>)
    requires |needle| >= 1 && NeedlePrefix(needle, lb) && NoSelfOverlap(needle)
    ensures var r := Run(needle, None, matches, lb, chunks);
      lb + Concat(chunks) == Reported(needle, r.events) + r.lb
    decreases |chunks|
  {
    if |chunks| == 0 {
      AppendNothing(lb);
    } else {
      var p := PushSpec(needle, None, matches, lb, chunks[0]);
      RunLossless(needle, p.matches, p.lb, chunks[1..]);
      RunMoreLossless(needle, matches, lb, chunks);
    }
  }

  /** RunLossless for a first chunk, from the fact for the rest. */
  lemma RunMoreLossless(needle: seq<bv8>, matches: nat, lb: seq<bv8>, chunks: seq<seq<bv8>>)
    requires |needle| >= 1 && NeedlePrefix(needle, lb) && NoSelfOverlap(needle) && |chunks| > 0
    requires var p := PushSpec(needle, None, matches, lb, chunks[0]);
      var r := Run(needle, None, p.matches, p.lb, chunks[1..]);
      p.lb + Concat(chunks[1..]) == Reported(needle, r.events) + r.lb
    ensures var r := Run(needle, None, matches, lb, chunks);
      lb + Concat(chunks) == Reported(needle, r.events) + r.lb
  {
    var c := chunks[0];
    var p := PushSpec(needle, None, matches, lb, c);
    var r := Run(needle, None, p.matches, p.lb, chunks[1..]);
    DriveAccounting(needle, None, matches, lb, c, 0);
    NoLossWithoutSelfOverlap(needle, lb, c);
    ReportedAppend(needle, p.events, r.events);
    ChainBytes(lb, c, p.bufPos, Concat(chunks[1..]), Reported(needle, p.events), p.lb,
               Reported(needle, r.events), r.lb);
  }

  /** The bytes of a whole push followed by the rest of the stream. */
  lemma ChainBytes(lb: seq<bv8>, c: seq<bv8>, n: nat, rest: seq<bv8>,
                   r1: seq<bv8>, t1: seq<bv8>, r2: seq<bv8>, t2: seq<bv8>)
    requires n == |c|
    requires lb + c[0..n] == [] + r1 + t1
    requires t1 + rest == r2 + t2
    ensures lb + (c + rest) == (r1 + r2) + t2
  {
    assert c[0..n] == c;
    assert lb + (c + rest) == (lb + c) + rest;
    assert lb + c == r1 + t1;
    assert (r1 + t1) + rest == r1 + (t1 + rest);
  }

  /**
   * Without a limit and with a needle none of whose prefixes overlaps itself, a
   * whole stream reports every input byte exactly once and in order.
   */
  lemma StreamLossless(needle: seq<bv8>, chunks: seq<seq<bv8>>)
    requires |needle| >= 1 && NoSelfOverlap(needle)
    ensures Reported(needle, Stream(needle, None, chunks)) == Concat(chunks)
  {
    var r := Run(needle, None, 0, [], chunks);
    RunLossless(needle, 0, [], chunks);
    ReportedAppend(needle, r.events, Flush(r.lb));
    assert [] + Concat(chunks) == Concat(chunks);
    if |r.lb| > 0 {
      assert Reported(needle, Flush(r.lb)) == r.lb;
    }
  }
  /** The slices of a scan that ends in a match at `k`. */
  lemma SliceMatch(needle: seq<bv8>, data: seq<bv8>, bufPos: nat, k: nat)
    requires bufPos <= k && Occurs(needle, data, k)
    ensures data[bufPos..k + |needle|] == data[bufPos..k] + needle
    ensures bufPos == k ==> data[bufPos..k + |needle|] == needle
  {
    assert data[bufPos..k + |needle|] == data[bufPos..k] + data[k..k + |needle|];
  }

  /** The slices of a scan that retains the tail from `k`. */
  lemma SliceTail(data: seq<bv8>, bufPos: nat, k: nat)
    requires bufPos <= k <= |data|
    ensures data[bufPos..|data|] == data[bufPos..k] + data[k..]
    ensures bufPos == k ==> data[bufPos..|data|] == data[k..]
  {
  }
}
