# Streaming Boyer-Moore-Horspool search (SBMH)

A model of the `SBMH` class of `streamsearch-web` and of its internal helpers
`feed`, `matchNeedle` and `memcmp`. `SBMH` searches a byte stream for a fixed
needle. The stream arrives in chunks. For each chunk, `push` yields events:

- an exact match;
- a match preceded by the non-matching bytes before it;
- a run of non-matching bytes.

Bytes at the end of a chunk that could still begin an occurrence are kept in
a lookbehind buffer of needle length. The next chunk is searched through a
window made of the lookbehind followed by that chunk. `destroy` flushes what
is left in the buffer. Events whose bytes come from the internal buffer are
marked unsafe (`isSafe` false), because later calls overwrite that buffer.

Modules:

- `Events`: the match limit (`Option<nat>`; `None` is the source's `Infinity`),
  the events, `Reported` (the input bytes an event sequence stands for) and
  `CountMatches`.
- `Window`: the reference meaning of a search position. An alignment of the
  needle is *viable* when the window agrees with the needle for as far as both
  go. `FirstViable` is a naive left-to-right search for the leftmost viable
  alignment.
- `Occurrence`: the Horspool occurrence table as a function of the needle, and
  the lemma that its shift skips no viable alignment.
- `Scanning`: one feed step, one push and a whole stream, as functions on
  values stated through `FirstViable` (`ScanSpec`, `FeedSpec`, `Drive`,
  `PushSpec`, `Run`, `Flush`, `Stream`).
- `Sbmh`: the imperative model. The class `SBMH` holds the source's state
  fields. `occ` and `lookbehind` are arrays, and every loop of the source is a
  `while` or `for` loop with its invariants. `Push`, `Feed` and the methods for
  the branches of `feed` are proved to compute exactly the `Scanning` function
  of their old state. The search loops inside them are specified through
  `Window` (the alignments they pass are not viable), `OccurrenceTable` through
  `Occurrence.Skip` and `Destroy` through `Scanning.Flush`. `Reset` and the
  constructor state the field values they set.
- `Properties`: accounting of every input byte, match counting, the match
  limit, and lossless streaming for needles without self-overlap. A needle
  has no self-overlap when no needle prefix shorter than the needle ends with
  a shorter needle prefix.
- `Leftmost`: a naive reference count of the leftmost non-overlapping
  occurrences of the needle in the joined input (`LeftmostFrom`), and the
  proof that the match count of a whole stream equals it, or the match limit
  when that is smaller. Chunk boundaries and the lookbehind therefore neither
  hide nor duplicate an occurrence.
- `Traces`: the two scenarios of `test/test.js`, computed through
  `Scanning.Stream`, plus a small stream that loses data.

Points where the code's behaviour deserves a note (the model follows the code
throughout):

- **Spanning matches.** When a match starts inside the lookbehind, the branch
  that would report the lookbehind bytes before it (`src/index.js:158-166`)
  cannot run. `lookbehindSize` has just been set to 0 (line 156), so `pos > 0`
  is tested for a negative `pos`. The code evidently meant that branch to emit
  those bytes as the data of the match event. As written, the match is always
  reported as exact and those earlier lookbehind bytes are dropped. The model
  has `assert false` in that branch, and `Scanning.Lost` names the dropped bytes.
  - `Properties.NoLossWithoutSelfOverlap` proves no byte is lost when no
    needle prefix shorter than the needle ends with a shorter needle prefix.
  - `Traces.BorderLoss` exhibits a loss for the needle `aab` fed as `aa`, `ab`:
    the prefix `aa` ends with the prefix `a`.
- **Limit of zero.** With `maxMatches` 0, the guard of the `push` loop
  (`src/index.js:84`) is false from the start, so nothing is emitted at all,
  not even non-match data (`Properties.ZeroLimitSilent`).
- **Empty needle.** The constructor does not reject an empty needle. The model
  requires a needle of at least one byte; see "Left out".

The second argument of `subarray` is an end index. At `src/index.js:209` the
code passes `state.lookbehindSize` after it has been reduced by the cut, which
is the length of the retained part, where the end index (the old size) is
meant. The copy can therefore move fewer bytes than the retained part holds.
`Sbmh.RetainedPrefix` proves the buffer is still right. Both the old
lookbehind and the retained part are prefixes of the needle, so the bytes left
in place already hold the correct values.

## Model

| member | source | states |
|---|---|---|
| Sbmh.Memcmp | src/index.js:36-42 | the result is true exactly when the two `num`-byte ranges are equal |
| Sbmh.Subarray | src/index.js:209 | `subarray(begin, end)` has length `end - begin`, or 0 when `end <= begin`, and holds the bytes from `begin` |
| Sbmh.SetBytes | src/index.js:210 | `set(src, offset)` overwrites exactly `|src|` bytes at `offset` and leaves the rest of the array unchanged |
| Sbmh.RetainedPrefix | src/index.js:208-211 | after the two `set` calls, even with the short `subarray` copy, the buffer starts with the window's bytes from the cut point |
| Sbmh.MovedPrefix | src/index.js:209 | after the first `set`, the buffer's first `size - cut` bytes are the needle's prefix of that length |
| Sbmh.OccurrenceTable | src/index.js:54-62 | a fresh 256-entry table whose entry for every byte is the Horspool skip of the needle |
| Occurrence.SkipPrefix | src/index.js:59-62 | after the first `k` positions are entered, the entry for `c` is `N-1-i` for the rightmost such position `i` holding `c`, or `N` when there is none |
| Occurrence.Skip | src/index.js:55-62 | the table entry lies between 1 and N, no needle byte between it and the last position equals `c`, and below N the byte it points at does |
| Occurrence.SkipUnique | src/index.js:55-62 | the table entry is determined by the needle: at most one value meets the skip property |
| Occurrence.HorspoolSkip | src/index.js:259 | advancing by the table entry of the byte under the needle's last position skips no viable alignment, neither a whole occurrence nor a needle-prefix tail |
| Window.FirstViable | src/index.js:236-277 | the reference search: an alignment at or after `k` that is viable, with no viable alignment before it |
| Window.FullCheck | src/index.js:239-241 | comparing the last byte, then the first byte, then the first N-1 bytes decides whether an alignment is a whole occurrence |
| Window.ViableCases | src/index.js:268-277 | a viable alignment is a whole occurrence when the needle fits, and otherwise a needle-prefix tail of the window |
| Window.FirstViableShift | src/index.js:217-229 | once no alignment inside the lookbehind is viable, the window's leftmost viable alignment is the chunk's shifted by the lookbehind size |
| Scanning.ScanSpec | src/index.js:229-292 | the chunk scan ends either with a counted match past the cursor and an empty lookbehind, or at the chunk's end with a needle-prefix lookbehind |
| Scanning.FeedSpec | src/index.js:119-293 | a feed step leaves a needle-prefix lookbehind; a counted match ends inside or at the chunk's end past the cursor, otherwise the whole chunk is consumed |
| Scanning.ScanSpecMatch | src/index.js:236-257 | unfolding lemma for one branch of `ScanSpec`: when the leftmost viable alignment is a whole occurrence, the step is that branch's match event, cursor and empty lookbehind |
| Scanning.ScanSpecTail | src/index.js:262-292 | unfolding lemma for one branch of `ScanSpec`: when the leftmost viable alignment leaves a short tail, the step is that branch's safe non-match and retained tail |
| Scanning.FeedSpecSpanning | src/index.js:154-171 | unfolding lemma for the spanning branch of `FeedSpec`: one exact match, an empty lookbehind and the cursor at the occurrence's end in the chunk |
| Scanning.FeedSpecRetain | src/index.js:190-215 | unfolding lemma for the retain branch of `FeedSpec`: the cut-off lookbehind bytes as an unsafe non-match and the window from there retained |
| Scanning.Lost | src/index.js:154-158 | the bytes a feed step drops: a proper prefix of the lookbehind, non-empty only when the window's leftmost viable alignment is a whole occurrence starting at its end |
| Scanning.Flush | src/index.js:97-107 | `destroy`'s events: none exactly when the lookbehind is empty, otherwise only its unsafe non-match, which stands for exactly the lookbehind bytes |
| Scanning.FeedSpecDiscard | src/index.js:217-229 | with no viable alignment in the lookbehind, all of it is reported as unsafe non-match data and the chunk is scanned from 0 |
| Scanning.FeedSpecEmpty | src/index.js:135 | unfolding lemma for the empty-lookbehind branch of `FeedSpec`: the step is the chunk scan from the cursor |
| Scanning.Drive | src/index.js:84-85 | the push loop stops with a needle-prefix lookbehind, either at the chunk's end or at the match limit, and never passes the limit |
| Scanning.DriveContinues | src/index.js:84-85 | unfolding lemma for `Drive` below the limit: a step that stops inside the chunk is followed by the drive over the rest |
| Scanning.DriveEnds | src/index.js:84-85 | unfolding lemma for `Drive` below the limit: a step that reaches the chunk's end is the whole drive |
| Scanning.DriveAtLimit | src/index.js:84 | unfolding lemma for `Drive` at the match limit: nothing is emitted and nothing changes |
| Scanning.PushSpec | src/index.js:81-86 | a push keeps the lookbehind a needle prefix and the match count within the limit |
| Scanning.Run | src/index.js:81-86 | pushing chunks in order keeps the lookbehind a needle prefix and the match count within the limit |
| Sbmh.SBMH.constructor | src/index.js:53-74 | a valid matcher with the given needle and limit, a correct occurrence table, a fresh buffer and zero counters |
| Sbmh.SBMH.Push | src/index.js:81-86 | the events, match count, lookbehind and cursor are those of `PushSpec` from the old state |
| Sbmh.SBMH.PushStep | src/index.js:85 | one loop iteration is one feed step followed by the drive over the rest of the chunk, and it always makes progress |
| Sbmh.SBMH.Reset | src/index.js:88-92 | the match count, lookbehind size and cursor are zero; needle and table unchanged |
| Sbmh.SBMH.Destroy | src/index.js:95-111 | returns the old lookbehind as an unsafe non-match exactly when it was not empty (the `Flush` of the old state), then resets |
| Sbmh.SBMH.At | src/index.js:150-152 | the signed lookup reads the window byte at lookbehind size plus the position |
| Sbmh.SBMH.MatchNeedle | src/index.js:301-312 | the result is true exactly when the `len` window bytes from the signed position equal the needle's first `len` bytes |
| Sbmh.SBMH.HorspoolLookbehind | src/index.js:148-175 | no viable alignment lies before the stop; stopping with a find means a whole occurrence starting in the lookbehind |
| Sbmh.SBMH.AlignLookbehind | src/index.js:149-155 | the test is true exactly at a viable alignment, and otherwise the table shift jumps over no viable alignment |
| Sbmh.SBMH.ProbeLookbehind | src/index.js:187-188 | moves forward over non-viable alignments only, stopping at a viable needle-prefix tail inside the lookbehind or at the chunk |
| Sbmh.SBMH.SearchLookbehind | src/index.js:148-188 | a stop inside the lookbehind is the window's leftmost viable alignment; otherwise none lies before the stop |
| Sbmh.SBMH.SpanningMatch | src/index.js:154-171 | the events, cursor and empty lookbehind are those of `FeedSpec`, and the match count goes up by one |
| Sbmh.SBMH.RetainLookbehind | src/index.js:190-215 | the events, consumed length and new lookbehind are those of `FeedSpec`, with no match counted |
| Sbmh.SBMH.KeepTail | src/index.js:208-213 | the new lookbehind is the window from the cut point and the cursor is at the chunk's end |
| Sbmh.SBMH.DiscardAndScan | src/index.js:217-229 | the whole lookbehind is reported unsafe, then the chunk is scanned; the result is that of `FeedSpec` |
| Sbmh.SBMH.Feed | src/index.js:119-293 | the events, consumed length, lookbehind, cursor and match count are those of `FeedSpec` from the old state |
| Sbmh.SBMH.ScanChunk | src/index.js:229-292 | the events, consumed length, lookbehind, cursor and match count are those of `ScanSpec` from the old cursor |
| Sbmh.SBMH.AlignChunk | src/index.js:237-241 | the test is true exactly at a viable alignment, and otherwise the table shift jumps over no viable alignment |
| Sbmh.SBMH.ScanTail | src/index.js:262-292 | the tail scan gives the events and retained lookbehind of `ScanSpec`, with no match |
| Sbmh.SBMH.FindTail | src/index.js:268-277 | the position found is the leftmost viable alignment at or after the cursor |
| Properties.ScanAccounting | src/index.js:279-289 | the chunk bytes from the cursor to the stop are exactly the reported bytes followed by the retained lookbehind |
| Properties.FeedAccounting | src/index.js:119-293 | the lookbehind plus the consumed chunk bytes are the lost bytes, then the reported bytes, then the new lookbehind |
| Properties.ScanCount | src/index.js:242 | a chunk scan emits one match event exactly when it counts a match |
| Properties.FeedCount | src/index.js:157 | a feed step emits one match event exactly when it counts a match |
| Properties.NoLossWithoutSelfOverlap | src/index.js:154-171 | when no needle prefix shorter than the needle ends with a shorter needle prefix, a spanning match drops no lookbehind bytes |
| Properties.SpanBorder | src/index.js:154-171 | a whole occurrence starting at `k` inside the lookbehind makes the needle's `|lb|-k` prefix also a suffix of its `|lb|` prefix |
| Properties.DriveAccounting | src/index.js:84-85 | the bytes the push loop consumed are the lost bytes, then the reported bytes, then the retained lookbehind |
| Properties.DriveCount | src/index.js:84-85 | the new match count is the old one plus the match events emitted |
| Properties.RunCount | src/index.js:81-86 | over a sequence of pushes, the match count rises by the number of match events emitted |
| Properties.StreamWithinLimit | src/index.js:84 | a stream on a fresh matcher emits at most `maxMatches` match events |
| Properties.RunAtLimit | src/index.js:84 | once the limit is reached, later pushes emit nothing and change nothing |
| Properties.ZeroLimitSilent | src/index.js:67-84 | with `maxMatches` 0 the stream emits no event at all |
| Properties.RunLossless | src/index.js:81-86 | without a limit and without self-overlap, the lookbehind plus the pushed chunks are the reported bytes followed by the final lookbehind |
| Properties.StreamLossless | src/index.js:95-111 | without a limit and without self-overlap, the events of all pushes plus `destroy` stand for exactly the concatenated input |
| Leftmost.MatchAtSlice | src/index.js:36-42 | the byte-by-byte comparison of the needle at a text position holds exactly when the text's slice there equals the needle |
| Leftmost.SkipNonViable | src/index.js:236-277 | alignments the search passes over as not viable are no occurrences in the text: the reference count is the same before and after them |
| Leftmost.TakeOccurrence | src/index.js:239-256 | a whole occurrence the search finds is one occurrence in the text, and the reference count resumes past its end |
| Leftmost.ScanLeftmost | src/index.js:229-292 | a chunk scan from the cursor counts exactly the reference count's occurrences up to where its retained lookbehind starts, and that lookbehind is the text just before its stop |
| Leftmost.SpanLeftmost | src/index.js:154-171 | a match starting in the lookbehind is the first occurrence of the reference count from the lookbehind's start |
| Leftmost.RetainLeftmost | src/index.js:208-213 | a retained window tail holds no occurrence before it, so the reference count resumes at the new lookbehind |
| Leftmost.DiscardLeftmost | src/index.js:217-229 | a discarded lookbehind holds no occurrence, so the reference count from its start is that from the chunk's cursor 0 |
| Leftmost.FeedLeftmost | src/index.js:119-293 | a feed step's match plus the reference count from where its new lookbehind starts is the reference count from where the step starts |
| Leftmost.DriveLeftmost | src/index.js:84-85 | the push loop over a chunk adds to the match count exactly the occurrences of the reference count it passes, and leaves the text before its cursor as the lookbehind |
| Leftmost.RunLeftmost | src/index.js:81-86 | pushing chunks in order, below the limit, counts the reference count's occurrences up to the final lookbehind; at the limit, no more than the reference count |
| Leftmost.StreamLeftmost | src/index.js:81-111 | without a limit, a whole stream on a fresh matcher reports as many matches as there are leftmost non-overlapping occurrences in the joined chunks |
| Leftmost.StreamLeftmostLimit | src/index.js:84 | with a limit, a whole stream reports the smaller of that limit and the reference count |
| Traces.CrlfStream | test/test.js:13-35 | the needle `\r\n` over the first test's chunks yields the nine events that test expects |
| Traces.DashStream | test/test.js:36-56 | the needle `---foobarbaz` over the second test's chunks yields the seven events that test expects, with a needle prefix retained across two chunks and then discarded |
| Traces.BorderLoss | src/index.js:156-168 | for the needle `aab` fed as `aa`, `ab`, the stream is one exact match and reports fewer bytes than the input |

## Left out

- `StreamSearch` (the `TransformStream` wrapper and its slicing of event data) is not part of this model.
- Generators are modelled as returned event sequences. The laziness of `push` and the abandoning of a partly drained sequence are not modelled.
- An event carries a copy of its bytes, not the source's `data`/`begin`/`end` view. The aliasing of the unsafe views with the reused lookbehind buffer is represented only by the `isSafe` flag.
- The `matches` getter is the public field `matches` of the class.
- An empty needle is excluded by a precondition of the constructor. The source accepts it, but then `lastNeedleChar` is undefined and the search has no meaningful result.
- `maxMatches` is `Option<nat>`, with `None` for `Infinity`. JavaScript numbers, `NaN` and negative or fractional limits are not modelled.
- Positions and counters are unbounded integers. The source's double-precision number limits are not modelled.
- Independence of the chunk split is proved for the match count only (`Leftmost.StreamLeftmost`). The positions and data of the individual events do depend on the split, and the lossless lemmas describe the reported bytes.
