/** The streaming Boyer-Moore-Horspool matcher: its state, its two comparison helpers and its operations. */
module Sbmh {
  import opened Events
  import opened Window
  import opened Occurrence
  import opened Scanning

  /** Compares `num` bytes of `buf1` from `pos1` with `num` bytes of `buf2` from `pos2`, stopping at the first difference. */
  method Memcmp(buf1: seq<bv8>, pos1: nat, buf2: seq<bv8>, pos2: nat, num: nat) returns (same: bool)
    requires pos1 + num <= |buf1| && pos2 + num <= |buf2|
    ensures same <==> buf1[pos1..pos1 + num] == buf2[pos2..pos2 + num]
  {
    var i := 0;
    while i < num
      invariant 0 <= i <= num
      invariant buf1[pos1..pos1 + i] == buf2[pos2..pos2 + i]
    {
      if buf1[pos1 + i] != buf2[pos2 + i] {
        assert buf1[pos1..pos1 + num][i] != buf2[pos2..pos2 + num][i];
        return false;
      }
      assert buf1[pos1..pos1 + i + 1] == buf1[pos1..pos1 + i] + [buf1[pos1 + i]];
      assert buf2[pos2..pos2 + i + 1] == buf2[pos2..pos2 + i] + [buf2[pos2 + i]];
      i := i + 1;
    }
    return true;
  }

  /** A typed-array view `s.subarray(begin, end)`: empty when `end` is not past `begin`. */
  function Subarray(s: seq<bv8>, begin: nat, end: nat): (r: seq<bv8>)
    requires begin <= |s| && end <= |s|
    ensures |r| == if end <= begin then 0 else end - begin
    ensures forall i :: 0 <= i < |r| ==> r[i] == s[begin + i]
  {
    if end <= begin then [] else s[begin..end]
  }

  /** A typed-array copy `dst.set(src, offset)`: `src` overwrites `dst` from `offset` on, the rest is kept. */
  method SetBytes(dst: array<bv8>, src: seq<bv8>, offset: nat)
    requires offset + |src| <= dst.Length
    modifies dst
    ensures dst[..] == old(dst[..offset]) + src + old(dst[offset + |src|..])
  {
    forall i | 0 <= i < |src| {
      dst[offset + i] := src[i];
    }
    assert dst[..] == old(dst[..offset]) + src + old(dst[offset + |src|..]);
  }

  /**
   * Phase A's retain copy is harmless: copying `buf.subarray(cut, size - cut)` to the
   * front (the source passes the already reduced size as end index, so fewer bytes
   * move than the intended `buf.subarray(cut, size)`) and then the chunk after it
   * still leaves window[cut..] at the front, because the untouched bytes already
   * hold the needle prefix.
   */
  lemma RetainedPrefix(needle: seq<bv8>, before: seq<bv8>, moved: seq<bv8>, after: seq<bv8>,
                       lb: seq<bv8>, cut: nat, data: seq<bv8>)
    requires |lb| <= |before| && lb == before[..|lb|] && NeedlePrefix(needle, lb) && cut <= |lb|
    requires |lb| - cut + |data| <= |before| && |before| == |needle|
    requires NeedlePrefix(needle, (lb + data)[cut..])
    requires var src := Subarray(before, cut, |lb| - cut);
      moved == before[..0] + src + before[|src|..]
    requires after == moved[..|lb| - cut] + data + moved[|lb| - cut + |data|..]
    ensures after[..|lb| - cut + |data|] == (lb + data)[cut..]
  {
    var r := |lb| - cut;
    MovedPrefix(needle, before, moved, lb, cut, data);
    assert after[..r + |data|] == moved[..r] + data;
    assert moved[..r] == needle[..r] == (lb + data)[cut..][..r];
    assert (lb + data)[cut..] == (lb + data)[cut..][..r] + data;
  }

  /** After the front copy of RetainedPrefix, the first |lb| - cut bytes of the buffer still hold the needle prefix. */
  lemma MovedPrefix(needle: seq<bv8>, before: seq<bv8>, moved: seq<bv8>, lb: seq<bv8>, cut: nat, data: seq<bv8>)
    requires |lb| <= |before| && lb == before[..|lb|] && NeedlePrefix(needle, lb) && cut <= |lb|
    requires NeedlePrefix(needle, (lb + data)[cut..])
    requires var src := Subarray(before, cut, |lb| - cut);
      moved == before[..0] + src + before[|src|..]
    ensures |moved| == |before| && moved[..|lb| - cut] == needle[..|lb| - cut]
  {
    var r := |lb| - cut;
    var src := Subarray(before, cut, r);
    forall i | 0 <= i < r
      ensures moved[i] == needle[i]
    {
      if i < |src| {
        assert moved[i] == before[cut + i] == lb[cut + i] == (lb + data)[cut..][i];
      } else {
        assert moved[i] == before[i] == lb[i];
      }
    }
  }

  /**
   * The occurrence table built by the constructor: every entry starts at N, then
   * the needle positions 0 .. N-2 are entered in order, a later position
   * overwriting an earlier one.
   */
  method OccurrenceTable(needle: seq<bv8>) returns (table: array<nat>)
    requires |needle| >= 1
    ensures fresh(table) && table.Length == 256
    ensures forall c: bv8 :: table[c as int] == Skip(needle, c)
  {
    var n := |needle|;
    table := new nat[256](_ => n);
    if n > 1 {
      for i := 0 to n - 1
        invariant forall c: bv8 :: table[c as int] == SkipPrefix(needle, c, i)
      {
        table[needle[i] as int] := n - 1 - i;
      }
    }
  }

  class SBMH {
    const needle: seq<bv8>
    /** The occurrence table, indexed by byte value. */
    const occ: array<nat>
    /** The match limit; None is unbounded. */
    const maxMatches: Option<nat>
    /** Retained bytes, of which the first `lookbehindSize` are valid. */
    const lookbehind: array<bv8>
    var matches: nat
    var lookbehindSize: nat
    /** How much of the current chunk has been reported. */
    var bufPos: nat

    /**
     * The state invariant kept between calls: a non-empty needle, the occurrence
     * table of the needle, a lookbehind of capacity N holding a proper needle
     * prefix, and a match count within the limit.
     */
    ghost predicate Valid()
      reads this, occ, lookbehind
    {
      TableValid()
      && occ as object != lookbehind
      && lookbehind.Length == |needle|
      && lookbehindSize < |needle|
      && lookbehind[..lookbehindSize] == needle[..lookbehindSize]
      && Within(matches, maxMatches)
    }

    /** The occurrence table is that of a non-empty needle. */
    ghost predicate TableValid()
      reads this, occ
    {
      |needle| >= 1
      && occ.Length == 256
      && (forall c: bv8 :: occ[c as int] == Skip(needle, c))
    }

    /** The valid part of the lookbehind buffer. */
    ghost function Lookbehind(): seq<bv8>
      reads this, lookbehind
      requires lookbehindSize <= lookbehind.Length
    {
      lookbehind[..lookbehindSize]
    }

    /** The virtual window: the valid lookbehind bytes followed by the chunk. */
    ghost function Window(data: seq<bv8>): seq<bv8>
      reads this, lookbehind
      requires lookbehindSize <= lookbehind.Length
    {
      lookbehind[..lookbehindSize] + data
    }

    /** Builds the occurrence table and an empty lookbehind of capacity N. */
    constructor (needle: seq<bv8>, maxMatches: Option<nat>)
      requires |needle| >= 1
      ensures Valid() && fresh(occ) && fresh(lookbehind)
      ensures this.needle == needle && this.maxMatches == maxMatches
      ensures matches == 0 && lookbehindSize == 0 && bufPos == 0
    {
      var table := OccurrenceTable(needle);
      this.needle := needle;
      this.occ := table;
      this.maxMatches := maxMatches;
      this.lookbehind := new bv8[|needle|];
      matches := 0;
      lookbehindSize := 0;
      bufPos := 0;
    }

    /**
     * Feeds one chunk: feed steps from the chunk's start while the last step did
     * not reach its end and the match limit is not reached; the events and the new
     * state are those of the push PushSpec describes.
     */
    method Push(chunk: seq<bv8>) returns (events: seq<Event>)
      requires Valid()
      modifies this, lookbehind
      ensures Valid()
      ensures var p := PushSpec(needle, maxMatches, old(matches), old(Lookbehind()), chunk);
        events == p.events && matches == p.matches && Lookbehind() == p.lb && bufPos == p.bufPos
    {
      bufPos := 0;
      ghost var total := PushSpec(needle, maxMatches, matches, Lookbehind(), chunk);
      ghost var rest := total;
      var result: Option<nat> := None;
      events := [];
      while result != Some(|chunk|) && Below(matches, maxMatches)
        invariant Valid() && bufPos <= |chunk|
        invariant result.Some? ==> result.value == bufPos
        invariant result.None? ==> bufPos == 0
        invariant total == Pushed(events + rest.events, rest.matches, rest.lb, rest.bufPos)
        invariant result != Some(|chunk|) ==>
          (lookbehindSize > 0 ==> bufPos == 0) && rest == Drive(needle, maxMatches, matches, Lookbehind(), chunk, bufPos)
        invariant result == Some(|chunk|) ==> rest == Pushed([], matches, Lookbehind(), bufPos)
        decreases |chunk| - bufPos, if result.None? then 1 else 0
      {
        ghost var before := events;
        var step, consumed;
        ghost var next;
        step, consumed, next := PushStep(chunk, rest);
        AppendAssoc(before, step, next.events);
        events := events + step;
        result := Some(consumed);
        rest := next;
      }
      if result != Some(|chunk|) {
        DriveAtLimit(needle, maxMatches, matches, Lookbehind(), chunk, bufPos);
      }
      AppendNothing(events);
    }

    /**
     * One iteration of the push loop: a feed step, and what of the drive over the
     * chunk is left after it.
     */
    method PushStep(chunk: seq<bv8>, ghost rest: Pushed) returns (step: seq<Event>, consumed: nat, ghost next: Pushed)
      requires Valid() && Below(matches, maxMatches)
      requires bufPos <= |chunk| && (lookbehindSize > 0 ==> bufPos == 0)
      requires rest == Drive(needle, maxMatches, matches, Lookbehind(), chunk, bufPos)
      modifies this, lookbehind
      ensures Valid() && bufPos == consumed && consumed <= |chunk|
      ensures rest == Pushed(step + next.events, next.matches, next.lb, next.bufPos)
      ensures consumed == |chunk| ==> next == Pushed([], matches, Lookbehind(), bufPos)
      ensures old(bufPos) < consumed || consumed == |chunk|
      ensures consumed < |chunk| ==>
        lookbehindSize == 0 && next == Drive(needle, maxMatches, matches, Lookbehind(), chunk, bufPos)
    {
      ghost var lb, n, b := Lookbehind(), matches, bufPos;
      step, consumed := Feed(chunk);
      if consumed == |chunk| {
        DriveEnds(needle, maxMatches, n, lb, chunk, b, matches, Lookbehind(), bufPos);
        next := Pushed([], matches, Lookbehind(), bufPos);
        AppendNothing(step);
      } else {
        DriveContinues(needle, maxMatches, n, lb, chunk, b, matches, Lookbehind(), bufPos);
        next := Drive(needle, maxMatches, matches, Lookbehind(), chunk, bufPos);
      }
    }

    /** Forgets the retained lookbehind, the match count and the cursor. */
    method Reset()
      requires Valid()
      modifies this
      ensures Valid() && matches == 0 && lookbehindSize == 0 && bufPos == 0
    {
      matches := 0;
      lookbehindSize := 0;
      bufPos := 0;
    }

    /**
     * Ends the stream: reports the retained lookbehind, if any, as unsafe
     * non-match data (the final flush of Flush), then resets.
     */
    method Destroy() returns (flushed: Option<Event>)
      requires Valid()
      modifies this
      ensures flushed == (if old(lookbehindSize) > 0 then Some(NonMatch(old(Lookbehind()), false)) else None)
      ensures (if flushed.Some? then [flushed.value] else []) == Flush(old(Lookbehind()))
      ensures Valid() && matches == 0 && lookbehindSize == 0 && bufPos == 0
    {
      flushed := None;
      var lbSize := lookbehindSize;
      if lbSize > 0 {
        flushed := Some(NonMatch(lookbehind[..lbSize], false));
      }
      Reset();
    }

    /**
     * The byte at virtual position `p`: a negative `p` indexes the lookbehind from
     * its valid end (p == -k is lookbehind[lookbehindSize - k]), a non-negative one the chunk.
     */
    function At(data: seq<bv8>, p: int): (b: bv8)
      reads this, lookbehind
      requires lookbehindSize <= lookbehind.Length
      requires -(lookbehindSize as int) <= p < |data|
      ensures b == Window(data)[lookbehindSize as int + p]
    {
      if p < 0 then lookbehind[lookbehindSize as int + p] else data[p]
    }

    /** Compares the first `len` needle bytes with the virtual window from position `pos`, stopping at the first difference. */
    method MatchNeedle(data: seq<bv8>, pos: int, len: nat) returns (same: bool)
      requires lookbehindSize <= lookbehind.Length
      requires -(lookbehindSize as int) <= pos && pos + len <= |data| && len <= |needle|
      ensures same <==> Window(data)[lookbehindSize as int + pos..lookbehindSize as int + pos + len] == needle[..len]
    {
      ghost var w := Window(data);
      ghost var k := lookbehindSize as int + pos;
      var i := 0;
      var p := pos;
      while i < len
        invariant 0 <= i <= len && p == pos + i
        invariant w[k..k + i] == needle[..i]
      {
        var ch := At(data, p);
        if ch != needle[i] {
          assert w[k..k + len][i] != needle[..len][i];
          return false;
        }
        assert w[k..k + i + 1] == w[k..k + i] + [w[k + i]];
        assert needle[..i + 1] == needle[..i] + [needle[i]];
        i := i + 1;
        p := p + 1;
      }
      return true;
    }

    /**
     * Phase A's Horspool loop over the virtual window lookbehind ++ data, for
     * alignments before the chunk that the needle still fits: stops at the first
     * whole occurrence, or when the alignment reaches the chunk or the needle no
     * longer fits. No alignment it passes is viable.
     */
    method HorspoolLookbehind(data: seq<bv8>) returns (pos: int, found: bool)
      requires Valid() && lookbehindSize > 0
      ensures -(lookbehindSize as int) <= pos <= |data|
      ensures forall q :: 0 <= q < lookbehindSize as int + pos ==> !Viable(needle, Window(data), q)
      ensures found ==> pos < 0 && pos + |needle| <= |data| && Viable(needle, Window(data), lookbehindSize as int + pos)
      ensures !found ==> pos >= 0 || pos + |needle| > |data|
    {
      ghost var w := Window(data);
      var size := lookbehindSize;
      var end := |data| - |needle|;
      pos := -(size as int);
      while pos < 0 && pos <= end
        invariant -(size as int) <= pos <= |data|
        invariant forall q :: 0 <= q < size as int + pos ==> !Viable(needle, w, q)
      {
        var skip;
        found, skip := AlignLookbehind(data, pos);
        if found {
          return;
        }
        pos := pos + skip;
      }
      found := false;
    }

    /**
     * One alignment of Phase A's Horspool loop: the last window byte under the
     * needle, then the first N-1 bytes; on a mismatch, the skip the occurrence
     * table gives for that last byte, which passes over no viable alignment.
     */
    method AlignLookbehind(data: seq<bv8>, pos: int) returns (found: bool, skip: nat)
      requires Valid()
      requires -(lookbehindSize as int) <= pos && pos + |needle| <= |data|
      ensures found <==> Viable(needle, Window(data), lookbehindSize as int + pos)
      ensures 1 <= skip <= |needle|
      ensures !found ==> forall q :: lookbehindSize as int + pos < q < lookbehindSize as int + pos + skip ==>
        q <= |Window(data)| ==> !Viable(needle, Window(data), q)
    {
      ghost var w := Window(data);
      ghost var k := lookbehindSize + pos;
      var n := |needle|;
      var ch := At(data, pos + n - 1);
      found := false;
      if ch == needle[n - 1] {
        found := MatchNeedle(data, pos, n - 1);
      }
      FullCheck(needle, w, k);
      skip := occ[ch as int];
      assert Skip(needle, ch) == skip;
      HorspoolSkip(needle, w, k, skip);
    }

    /**
     * Phase A's fallback when the needle no longer fits: moves forward one byte at
     * a time until the rest of the window is a needle prefix, or the chunk is reached.
     */
    method ProbeLookbehind(data: seq<bv8>, start: int) returns (pos: int)
      requires Valid()
      requires -(lookbehindSize as int) <= start <= |data| && (start < 0 ==> start + |needle| > |data|)
      requires forall q :: 0 <= q < lookbehindSize as int + start ==> !Viable(needle, Window(data), q)
      ensures start <= pos <= |data| && (pos < 0 ==> pos + |needle| > |data|)
      ensures forall q :: 0 <= q < lookbehindSize as int + pos ==> !Viable(needle, Window(data), q)
      ensures pos < 0 ==> Viable(needle, Window(data), lookbehindSize as int + pos)
      ensures pos >= 0 ==> pos == start || pos == 0
    {
      ghost var w := Window(data);
      var size := lookbehindSize;
      var len := |data|;
      pos := start;
      while pos < 0
        invariant start <= pos <= len && (pos < 0 ==> pos + |needle| > len)
        invariant pos >= 0 ==> pos == start || pos == 0
        invariant forall q :: 0 <= q < size as int + pos ==> !Viable(needle, w, q)
      {
        var found := MatchNeedle(data, pos, len - pos);
        assert Reach(needle, w, size + pos) == len - pos;
        if found {
          return;
        }
        pos := pos + 1;
      }
    }

    /**
     * Phase A when the rest of the window from `pos` (inside the lookbehind) is a
     * needle prefix: the lookbehind bytes before it are reported as unsafe data,
     * the rest is moved to the front and the whole chunk appended after it.
     */
    method RetainLookbehind(data: seq<bv8>, pos: int) returns (events: seq<Event>, consumed: nat)
      requires Valid()
      requires -(lookbehindSize as int) <= pos < 0 && pos + |needle| > |data|
      requires FirstViable(needle, Window(data), 0) == lookbehindSize as int + pos
      modifies this, lookbehind
      ensures Valid()
      ensures var o := FeedSpec(needle, old(Lookbehind()), data, 0);
        events == o.events && consumed == o.consumed && Lookbehind() == o.lb
        && !o.matched && matches == old(matches)
      ensures bufPos == consumed
    {
      ghost var lb := Lookbehind();
      var cut := lookbehindSize + pos;
      FeedSpecRetain(needle, lb, data, cut);
      ViableCases(needle, Window(data), cut);
      events := [];
      if cut > 0 {
        assert lookbehind[..cut] == lb[..cut];
        events := events + [NonMatch(lookbehind[..cut], false)];
      }
      KeepTail(data, cut);
      consumed := |data|;
    }

    /**
     * Moves the lookbehind bytes from `cut` to the front and appends the whole
     * chunk after them: the new lookbehind is the window from `cut`, a needle prefix.
     */
    method KeepTail(data: seq<bv8>, cut: nat)
      requires Valid() && cut < lookbehindSize
      requires NeedlePrefix(needle, Window(data)[cut..])
      modifies this, lookbehind
      ensures Valid() && Lookbehind() == old(Window(data))[cut..]
      ensures bufPos == |data| && matches == old(matches)
    {
      ghost var lb := Lookbehind();
      var len := |data|;
      ghost var before := lookbehind[..];
      lookbehindSize := lookbehindSize - cut;
      SetBytes(lookbehind, Subarray(lookbehind[..], cut, lookbehindSize), 0);
      ghost var moved := lookbehind[..];
      SetBytes(lookbehind, data, lookbehindSize);
      RetainedPrefix(needle, before, moved, lookbehind[..], lb, cut, data);
      lookbehindSize := lookbehindSize + len;
      bufPos := len;
      assert Lookbehind() == lookbehind[..][..lookbehindSize];
    }

    /**
     * Phase A's search: the Horspool loop, then the probe. Either the leftmost
     * viable alignment of the window is found inside the lookbehind (`pos < 0`; a
     * whole occurrence when `found`), or none lies before chunk position `pos`.
     */
    method SearchLookbehind(data: seq<bv8>) returns (pos: int, found: bool)
      requires Valid() && lookbehindSize > 0
      ensures -(lookbehindSize as int) <= pos <= |data|
      ensures found ==> pos < 0 && pos + |needle| <= |data|
      ensures pos < 0 ==> FirstViable(needle, Window(data), 0) == lookbehindSize as int + pos
      ensures !found && pos < 0 ==> pos + |needle| > |data|
      ensures FirstViable(needle, Window(data), 0) >= lookbehindSize as int + pos
    {
      ghost var w := Window(data);
      pos, found := HorspoolLookbehind(data);
      if found {
        FirstViableIs(needle, w, 0, lookbehindSize + pos);
        return;
      }
      pos := ProbeLookbehind(data, pos);
      if pos < 0 {
        FirstViableIs(needle, w, 0, lookbehindSize + pos);
      }
    }

    /**
     * Phase A when the leftmost viable alignment is a whole occurrence starting in
     * the lookbehind: one exact match is reported, the lookbehind is emptied and
     * the cursor moves past the occurrence's end in the chunk.
     */
    method SpanningMatch(data: seq<bv8>, pos: int) returns (events: seq<Event>, consumed: nat)
      requires Valid() && Below(matches, maxMatches)
      requires -(lookbehindSize as int) <= pos < 0 && pos + |needle| <= |data|
      requires FirstViable(needle, Window(data), 0) == lookbehindSize as int + pos
      modifies this
      ensures Valid()
      ensures var o := FeedSpec(needle, old(Lookbehind()), data, 0);
        events == o.events && consumed == o.consumed && Lookbehind() == o.lb
        && o.matched && matches == old(matches) + 1
      ensures bufPos == consumed
    {
      FeedSpecSpanning(needle, Lookbehind(), data, lookbehindSize + pos);
      lookbehindSize := 0;
      matches := matches + 1;
      if pos > -(lookbehindSize as int) {
        // The source's match event carrying lookbehind data: unreachable, the test is now pos > 0.
        assert false;
      } else {
        events := [ExactMatch];
      }
      bufPos := pos + |needle|;
      consumed := bufPos;
    }

    /**
     * Phase A when no alignment inside the lookbehind is viable: the whole
     * lookbehind is reported as unsafe non-match data and dropped, and Phase B
     * scans the chunk from `pos`, before which nothing is viable.
     */
    method DiscardAndScan(data: seq<bv8>, pos: int) returns (events: seq<Event>, consumed: nat)
      requires Valid() && Below(matches, maxMatches) && lookbehindSize > 0 && bufPos == 0
      requires 0 <= pos <= |data|
      requires FirstViable(needle, Window(data), 0) >= lookbehindSize as int + pos
      modifies this, lookbehind
      ensures Valid()
      ensures var o := FeedSpec(needle, old(Lookbehind()), data, 0);
        events == o.events && consumed == o.consumed && Lookbehind() == o.lb
        && matches == (if o.matched then old(matches) + 1 else old(matches))
      ensures bufPos == consumed
    {
      ghost var lb := Lookbehind();
      events := [NonMatch(lookbehind[..lookbehindSize], false)];
      DiscardShift(needle, lb, data, pos);
      FeedSpecDiscard(needle, lb, data);
      lookbehindSize := 0;
      var rest;
      rest, consumed := ScanChunk(data, pos);
      events := events + rest;
    }

    /**
     * One scanning step over `data` from the cursor: Phase A when the lookbehind
     * is not empty (a match spanning into the chunk, a shorter retained prefix, or
     * the lookbehind reported and dropped), then Phase B over the chunk. The result
     * is the step FeedSpec describes.
     */
    method Feed(data: seq<bv8>) returns (events: seq<Event>, consumed: nat)
      requires Valid() && Below(matches, maxMatches)
      requires bufPos <= |data| && (lookbehindSize > 0 ==> bufPos == 0)
      modifies this, lookbehind
      ensures Valid()
      ensures var o := FeedSpec(needle, old(Lookbehind()), data, old(bufPos));
        events == o.events && consumed == o.consumed && Lookbehind() == o.lb
        && matches == (if o.matched then old(matches) + 1 else old(matches))
      ensures bufPos == consumed
    {
      if lookbehindSize > 0 {
        var pos, found := SearchLookbehind(data);
        if found {
          events, consumed := SpanningMatch(data, pos);
        } else if pos < 0 {
          events, consumed := RetainLookbehind(data, pos);
        } else {
          events, consumed := DiscardAndScan(data, pos);
        }
      } else {
        FeedSpecEmpty(needle, Lookbehind(), data, bufPos);
        events, consumed := ScanChunk(data, bufPos);
      }
    }

    /**
     * Phase B of a feed step, with the lookbehind empty: Horspool over the chunk
     * from `start`, then a forward search for the tail to retain. The positions from
     * the cursor up to `start` are known not to be viable.
     */
    method ScanChunk(data: seq<bv8>, start: nat) returns (events: seq<Event>, consumed: nat)
      requires Valid() && Below(matches, maxMatches) && lookbehindSize == 0
      requires bufPos <= start <= |data|
      requires forall q :: bufPos <= q < start ==> !Viable(needle, data, q)
      modifies this, lookbehind
      ensures Valid()
      ensures var o := ScanSpec(needle, data, old(bufPos));
        events == o.events && consumed == o.consumed && Lookbehind() == o.lb
        && matches == (if o.matched then old(matches) + 1 else old(matches))
      ensures bufPos == consumed
    {
      var len := |data|;
      var n := |needle|;
      var end := len - n;
      var pos := start;
      events := [];

      while pos <= end
        invariant bufPos <= pos <= len
        invariant forall q :: bufPos <= q < pos ==> !Viable(needle, data, q)
        invariant unchanged(this) && unchanged(lookbehind)
      {
        var found, skip := AlignChunk(data, pos);
        if found {
          FirstViableIs(needle, data, bufPos, pos);
          ScanSpecMatch(needle, data, bufPos, pos);
          matches := matches + 1;
          if pos > 0 {
            events := events + [Match(data[bufPos..pos], true)];
          } else {
            events := events + [ExactMatch];
          }
          bufPos := pos + n;
          consumed := bufPos;
          return;
        }
        pos := pos + skip;
      }

      events, consumed := ScanTail(data, pos);
    }

    /**
     * One alignment of Phase B's Horspool loop: the last byte, the first byte,
     * then the first N-1 bytes; on a mismatch, the occurrence table's skip for the
     * last byte, which passes over no viable alignment.
     */
    method AlignChunk(data: seq<bv8>, pos: nat) returns (found: bool, skip: nat)
      requires TableValid() && pos + |needle| <= |data|
      ensures 1 <= skip <= |needle|
      ensures found <==> Viable(needle, data, pos)
      ensures !found ==> forall q :: pos < q < pos + skip ==> q <= |data| ==> !Viable(needle, data, q)
    {
      var n := |needle|;
      var ch := data[pos + n - 1];
      found := false;
      if ch == needle[n - 1] && data[pos] == needle[0] {
        found := Memcmp(needle, 0, data, pos, n - 1);
      }
      FullCheck(needle, data, pos);
      skip := occ[ch as int];
      assert Skip(needle, ch) == skip;
      HorspoolSkip(needle, data, pos, skip);
    }

    /**
     * The end of Phase B when no whole occurrence is left: the first position from
     * `start` whose remaining bytes are a needle prefix is retained in the
     * lookbehind, and the bytes from the cursor to it are reported.
     */
    method ScanTail(data: seq<bv8>, start: int) returns (events: seq<Event>, consumed: nat)
      requires Valid() && lookbehindSize == 0
      requires bufPos <= start <= |data| && start + |needle| > |data|
      requires forall q :: bufPos <= q < start ==> !Viable(needle, data, q)
      modifies this, lookbehind
      ensures Valid()
      ensures var o := ScanSpec(needle, data, old(bufPos));
        events == o.events && consumed == o.consumed && Lookbehind() == o.lb && !o.matched
      ensures bufPos == consumed && matches == old(matches)
    {
      var len := |data|;
      var pos := FindTail(data, start);
      ScanSpecTail(needle, data, bufPos, pos);
      ViableCases(needle, data, pos);
      if pos < len {
        SetBytes(lookbehind, data[pos..len], 0);
        lookbehindSize := len - pos;
      }
      events := [];
      if pos > 0 {
        events := events + [NonMatch(data[bufPos..if pos < len then pos else len], true)];
      }
      bufPos := len;
      consumed := len;
    }

    /**
     * The tail loop's search: moves forward one byte at a time from `start` until
     * the rest of the chunk is a needle prefix (its first byte checked first), or
     * the end of the chunk; that is the leftmost viable alignment from the cursor.
     */
    method FindTail(data: seq<bv8>, start: int) returns (pos: nat)
      requires |needle| >= 1
      requires bufPos <= start <= |data| && start + |needle| > |data|
      requires forall q :: bufPos <= q < start ==> !Viable(needle, data, q)
      ensures FirstViable(needle, data, bufPos) == pos
    {
      var len := |data|;
      pos := start;
      while pos < len
        invariant bufPos <= pos <= len
        invariant forall q :: bufPos <= q < pos ==> !Viable(needle, data, q)
      {
        var found := data[pos] == needle[0];
        if found {
          found := Memcmp(data, pos, needle, 0, len - pos);
        }
        assert Reach(needle, data, pos) == len - pos;
        assert data[pos] == data[pos..len][0] && needle[0] == needle[..len - pos][0];
        if found {
          break;
        }
        pos := pos + 1;
      }
      EndViable(needle, data);
      FirstViableIs(needle, data, bufPos, pos);
    }
  }
}
