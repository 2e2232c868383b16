/** Values shared by the matcher: the optional match limit and the events it emits. */
module Events {

  /** An optional value; `None` stands for the unbounded match limit (the source's `Infinity`). */
  datatype Option<T> = None | Some(value: T)

  /** True when `matches` is still below the limit, i.e. another match may be reported. */
  predicate Below(matches: nat, limit: Option<nat>)
  {
    limit.None? || matches < limit.value
  }

  /** True when `matches` has not gone past the limit. */
  predicate Within(matches: nat, limit: Option<nat>)
  {
    limit.None? || matches <= limit.value
  }

  /**
   * The three event shapes. The bytes of a slice are captured when the event is
   * emitted; `isSafe` is false exactly when they come from the internal lookbehind
   * buffer, which is overwritten by later calls.
   */
  datatype Event =
    | ExactMatch
    | Match(data: seq<bv8>, isSafe: bool)
    | NonMatch(data: seq<bv8>, isSafe: bool)

  /** The input bytes an event stands for: its slice, followed by the needle when it is a match. */
  function EventBytes(needle: seq<bv8>, e: Event): seq<bv8>
  {
    match e
    case ExactMatch => needle
    case Match(d, _) => d + needle
    case NonMatch(d, _) => d
  }

  /** The input bytes a sequence of events stands for, in order. */
  function Reported(needle: seq<bv8>, events: seq<Event>): seq<bv8>
  {
    if |events| == 0 then [] else EventBytes(needle, events[0]) + Reported(needle, events[1..])
  }

  /** The number of match events (exact or with data) in `events`. */
  function CountMatches(events: seq<Event>): nat
  {
    if |events| == 0 then 0 else (if events[0].NonMatch? then 0 else 1) + CountMatches(events[1..])
  }

  /** A single event stands for its own bytes. */
  lemma SingleBytes(needle: seq<bv8>, e: Event)
    ensures Reported(needle, [e]) == EventBytes(needle, e)
  {
    assert [e][1..] == [];
  }

  /** A single event counts as a match unless it is a non-match. */
  lemma SingleCount(e: Event)
    ensures CountMatches([e]) == if e.NonMatch? then 0 else 1
  {
    assert [e][1..] == [];
  }

  lemma {:induction false} ReportedAppend(needle: seq<bv8>, a: seq<Event>, b: seq<Event>)
    ensures Reported(needle, a + b) == Reported(needle, a) + Reported(needle, b)
  {
    if a == [] {
      assert a + b == b;
    } else {
      assert (a + b)[1..] == a[1..] + b;
      ReportedAppend(needle, a[1..], b);
    }
  }

  lemma {:induction false} CountMatchesAppend(a: seq<Event>, b: seq<Event>)
    ensures CountMatches(a + b) == CountMatches(a) + CountMatches(b)
  {
    if a == [] {
      assert a + b == b;
    } else {
      assert (a + b)[1..] == a[1..] + b;
      CountMatchesAppend(a[1..], b);
    }
  }

  /** Sequence concatenation regroups. */
  lemma AppendAssoc<T>(a: seq<T>, b: seq<T>, c: seq<T>)
    ensures a + (b + c) == (a + b) + c
  {
  }

  /** Appending the empty sequence changes nothing. */
  lemma AppendNothing<T>(a: seq<T>)
    ensures a + [] == a
  {
  }

  /** Prepending the empty sequence changes nothing. */
  lemma PrependNothing<T>(a: seq<T>)
    ensures [] + a == a
  {
  }
}
