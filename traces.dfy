/**
 * The two streams of the repository's test, pushed chunk by chunk through the
 * push specification, and a needle with a border showing the bytes the matcher
 * drops at a boundary-spanning match. Byte strings are written as numbers, with
 * their text in the comment above.
 */
module Traces {
  import opened Events
  import opened Window
  import opened Scanning
  import opened Properties

  /** "\r\n" */
  const Crlf: seq<bv8> := [13, 10]
  /** "\r" */
  const Cr: seq<bv8> := [13]
  /** "\n" */
  const Lf: seq<bv8> := [10]
  /** "foo" */
  const Foo: seq<bv8> := [102, 111, 111]
  /** " bar" */
  const Bar: seq<bv8> := [32, 98, 97, 114]
  /** "baz, hello\r" */
  const Hello: seq<bv8> := [98, 97, 122, 44, 32, 104, 101, 108, 108, 111, 13]
  /** "\n world." */
  const World: seq<bv8> := [10, 32, 119, 111, 114, 108, 100, 46]
  /** "\r\n Browser rules!!\r\n\r\n" */
  const Rules: seq<bv8> := [13, 10, 32, 66, 114, 111, 119, 115, 101, 114, 32, 114, 117, 108, 101, 115, 33, 33, 13, 10, 13, 10]

  /** An alignment is not viable when one byte it compares differs from the needle. */
  lemma ByteDiffers(needle: seq<bv8>, w: seq<bv8>, q: nat, i: nat)
    requires q <= |w| && i < Reach(needle, w, q) && w[q + i] != needle[i]
    ensures !Viable(needle, w, q)
  {
    var m := Reach(needle, w, q);
    assert w[q..q + m][i] != needle[..m][i];
  }

  /** An alignment whose first byte differs from the needle's first byte is not viable. */
  lemma FirstByteDiffers(needle: seq<bv8>, w: seq<bv8>, q: nat)
    requires |needle| >= 1 && q < |w| && w[q] != needle[0]
    ensures !Viable(needle, w, q)
  {
    ByteDiffers(needle, w, q, 0);
  }

  /** No alignment in [a, b) is viable when the needle's first byte does not occur there. */
  lemma NoStartIn(needle: seq<bv8>, w: seq<bv8>, a: nat, b: nat)
    requires |needle| >= 1 && a <= b <= |w| && needle[0] !in w[a..b]
    ensures forall q :: a <= q < b ==> !Viable(needle, w, q)
  {
    forall q | a <= q < b
      ensures !Viable(needle, w, q)
    {
      assert w[q] == w[a..b][q - a];
      FirstByteDiffers(needle, w, q);
    }
  }

  /** A chunk scan from `b` over bytes without the needle's first byte reports them all as safe non-match data. */
  lemma ScanNothing(needle: seq<bv8>, d: seq<bv8>, b: nat)
    requires |needle| >= 1 && b < |d| && needle[0] !in d[b..]
    ensures ScanSpec(needle, d, b) == Step([NonMatch(d[b..], true)], |d|, [], false)
  {
    assert d[b..] == d[b..|d|];
    NoStartIn(needle, d, b, |d|);
    EndViable(needle, d);
    FirstViableIs(needle, d, b, |d|);
    ScanSpecTail(needle, d, b, |d|);
  }

  /** A chunk scan from `b` whose first viable alignment is a whole occurrence at `k`. */
  lemma ScanFinds(needle: seq<bv8>, d: seq<bv8>, b: nat, k: nat)
    requires |needle| >= 1 && b <= k && k + |needle| <= |d|
    requires needle[0] !in d[b..k] && d[k..k + |needle|] == needle
    ensures ScanSpec(needle, d, b)
      == Step([if k > 0 then Match(d[b..k], true) else ExactMatch], k + |needle|, [], true)
  {
    NoStartIn(needle, d, b, k);
    assert Reach(needle, d, k) == |needle|;
    FirstViableIs(needle, d, b, k);
    ScanSpecMatch(needle, d, b, k);
  }

  /** Bytes without a "\r" are safe non-match data. */
  lemma CrlfPush1()
    ensures PushSpec(Crlf, None, 0, [], Foo) == Pushed([NonMatch(Foo, true)], 0, [], 3)
  {
    ScanNothing(Crlf, Foo, 0);
    FeedSpecEmpty(Crlf, [], Foo, 0);
    DriveEnds(Crlf, None, 0, [], Foo, 0, 0, [], 3);
  }

  /** As for the first chunk, " bar" is safe non-match data. */
  lemma CrlfPush2()
    ensures PushSpec(Crlf, None, 0, [], Bar) == Pushed([NonMatch(Bar, true)], 0, [], 4)
  {
    ScanNothing(Crlf, Bar, 0);
    FeedSpecEmpty(Crlf, [], Bar, 0);
    DriveEnds(Crlf, None, 0, [], Bar, 0, 0, [], 4);
  }

  /** A lone "\r" is retained: it may begin the needle. */
  lemma CrlfPush3()
    ensures PushSpec(Crlf, None, 0, [], Cr) == Pushed([], 0, Cr, 1)
  {
    var d: seq<bv8> := Cr;
    assert Reach(Crlf, d, 0) == 1 && d[0..1] == Crlf[..1];
    FirstViableIs(Crlf, d, 0, 0);
    ScanSpecTail(Crlf, d, 0, 0);
    FeedSpecEmpty(Crlf, [], d, 0);
    DriveEnds(Crlf, None, 0, [], d, 0, 0, d, 1);
  }

  /** The retained "\r" and the next chunk's "\n" make an exact match spanning the boundary. */
  lemma CrlfPush4()
    ensures PushSpec(Crlf, None, 0, Cr, Lf) == Pushed([ExactMatch], 1, [], 1)
  {
    var lb: seq<bv8> := Cr;
    var d: seq<bv8> := Lf;
    assert Reach(Crlf, lb + d, 0) == 2 && (lb + d)[0..2] == Crlf;
    FirstViableIs(Crlf, lb + d, 0, 0);
    FeedSpecSpanning(Crlf, lb, d, 0);
    DriveEnds(Crlf, None, 0, lb, d, 0, 1, [], 1);
  }

  /** Everything up to a trailing "\r" is safe non-match data; the "\r" is retained. */
  lemma CrlfPush5()
    ensures PushSpec(Crlf, None, 1, [], Hello) == Pushed([NonMatch(Hello[..10], true)], 1, Cr, 11)
  {
    NoStartIn(Crlf, Hello, 0, 10);
    assert Reach(Crlf, Hello, 10) == 1 && Hello[10..11] == Crlf[..1];
    FirstViableIs(Crlf, Hello, 0, 10);
    ScanSpecTail(Crlf, Hello, 0, 10);
    FeedSpecEmpty(Crlf, [], Hello, 0);
    DriveEnds(Crlf, None, 1, [], Hello, 0, 1, Hello[10..], 11);
    assert Hello[0..10] == Hello[..10];
  }

  /** After the spanning match, the rest of "\n world." is safe non-match data. */
  lemma CrlfPush6Rest()
    ensures Drive(Crlf, None, 2, [], World, 1) == Pushed([NonMatch(World[1..], true)], 2, [], 8)
  {
    ScanNothing(Crlf, World, 1);
    FeedSpecEmpty(Crlf, [], World, 1);
    DriveEnds(Crlf, None, 2, [], World, 1, 2, [], 8);
  }

  /** A spanning match, then the rest of the chunk as safe non-match data. */
  lemma CrlfPush6()
    ensures PushSpec(Crlf, None, 1, Cr, World)
      == Pushed([ExactMatch, NonMatch(World[1..], true)], 2, [], 8)
  {
    var lb: seq<bv8> := Cr;
    assert Reach(Crlf, lb + World, 0) == 2 && (lb + World)[0..2] == Crlf;
    FirstViableIs(Crlf, lb + World, 0, 0);
    FeedSpecSpanning(Crlf, lb, World, 0);
    DriveContinues(Crlf, None, 1, lb, World, 0, 2, [], 1);
    CrlfPush6Rest();
  }

  /** The third match of "\r\n Browser rules!!\r\n\r\n" follows the second directly. */
  lemma CrlfPush7Last()
    ensures Drive(Crlf, None, 4, [], Rules, 20) == Pushed([Match([], true)], 5, [], 22)
  {
    assert Rules[20..20] == [];
    ScanFinds(Crlf, Rules, 20, 20);
    FeedSpecEmpty(Crlf, [], Rules, 20);
    DriveEnds(Crlf, None, 4, [], Rules, 20, 5, [], 22);
  }

  /** The second match of "\r\n Browser rules!!\r\n\r\n" reports " Browser rules!!". */
  lemma CrlfPush7Rest()
    ensures Drive(Crlf, None, 3, [], Rules, 2) == Pushed([Match(Rules[2..18], true), Match([], true)], 5, [], 22)
  {
    ScanFinds(Crlf, Rules, 2, 18);
    FeedSpecEmpty(Crlf, [], Rules, 2);
    DriveContinues(Crlf, None, 3, [], Rules, 2, 4, [], 20);
    CrlfPush7Last();
  }

  /** Three matches in one chunk: at its start, after " Browser rules!!" and right after that. */
  lemma CrlfPush7()
    ensures PushSpec(Crlf, None, 2, [], Rules)
      == Pushed([ExactMatch, Match(Rules[2..18], true), Match([], true)], 5, [], 22)
  {
    ScanFinds(Crlf, Rules, 0, 0);
    FeedSpecEmpty(Crlf, [], Rules, 0);
    DriveContinues(Crlf, None, 2, [], Rules, 0, 3, [], 2);
    CrlfPush7Rest();
  }

  /** Pushing one chunk, then the rest. */
  lemma RunCons(needle: seq<bv8>, limit: Option<nat>, matches: nat, lb: seq<bv8>, chunk: seq<bv8>,
                rest: seq<seq<bv8>>, p: Pushed, r: Pushed)
    requires |needle| >= 1 && NeedlePrefix(needle, lb)
    requires p == PushSpec(needle, limit, matches, lb, chunk)
    requires r == Run(needle, limit, p.matches, p.lb, rest)
    ensures Run(needle, limit, matches, lb, [chunk] + rest) == Pushed(p.events + r.events, r.matches, r.lb, r.bufPos)
  {
    assert ([chunk] + rest)[0] == chunk && ([chunk] + rest)[1..] == rest;
  }

  /** "baz, hello" */
  const BazHello: seq<bv8> := [98, 97, 122, 44, 32, 104, 101, 108, 108, 111]
  /** " world." */
  const Dot: seq<bv8> := [32, 119, 111, 114, 108, 100, 46]
  /** " Browser rules!!" */
  const Browser: seq<bv8> := [32, 66, 114, 111, 119, 115, 101, 114, 32, 114, 117, 108, 101, 115, 33, 33]

  /** The pieces of the first test stream's chunks that its events report. */
  lemma CrlfPieces()
    ensures Hello[..10] == BazHello && World[1..] == Dot && Rules[2..18] == Browser
  {
  }

  /** The lookbehinds of the first test stream are prefixes of its needle. */
  lemma CrlfPrefixes()
    ensures NeedlePrefix(Crlf, []) && NeedlePrefix(Crlf, Cr)
  {
  }

  /** The events of the first test stream from its seventh push on, then from its sixth, and so on. */
  const Out7: seq<Event> := [ExactMatch, Match(Browser, true), Match([], true)]
  const Out6: seq<Event> := [ExactMatch, NonMatch(Dot, true)] + Out7
  const Out5: seq<Event> := [NonMatch(BazHello, true)] + Out6
  const Out4: seq<Event> := [ExactMatch] + Out5
  const Out3: seq<Event> := [] + Out4
  const Out2: seq<Event> := [NonMatch(Bar, true)] + Out3
  const Out1: seq<Event> := [NonMatch(Foo, true)] + Out2

  /** All the events of the first test stream, in order. */
  lemma CrlfEvents()
    ensures Out1 + [] == [NonMatch(Foo, true), NonMatch(Bar, true), ExactMatch, NonMatch(BazHello, true),
      ExactMatch, NonMatch(Dot, true), ExactMatch, Match(Browser, true), Match([], true)]
  {
  }

  /** The first test stream from its seventh push on. */
  lemma CrlfFrom6()
    ensures Run(Crlf, None, 2, [], [Rules]) == Pushed(Out7, 5, [], 0)
  {
    CrlfPrefixes();
    CrlfPieces();
    CrlfPush7();
    RunCons(Crlf, None, 2, [], Rules, [], Pushed(Out7, 5, [], 22), Pushed([], 5, [], 0));
    assert [Rules] + [] == [Rules];
    AppendNothing(Out7);
  }

  /** The first test stream from its sixth push on. */
  lemma CrlfFrom5()
    ensures Run(Crlf, None, 1, Cr, [World] + [Rules]) == Pushed(Out6, 5, [], 0)
  {
    CrlfPrefixes();
    CrlfPieces();
    CrlfFrom6();
    CrlfPush6();
    RunCons(Crlf, None, 1, Cr, World, [Rules], Pushed([ExactMatch, NonMatch(Dot, true)], 2, [], 8), Pushed(Out7, 5, [], 0));
  }

  /** The first test stream from its fifth push on. */
  lemma CrlfFrom4()
    ensures Run(Crlf, None, 1, [], [Hello] + ([World] + [Rules])) == Pushed(Out5, 5, [], 0)
  {
    CrlfPrefixes();
    CrlfPieces();
    CrlfFrom5();
    CrlfPush5();
    RunCons(Crlf, None, 1, [], Hello, [World] + [Rules], Pushed([NonMatch(BazHello, true)], 1, Cr, 11), Pushed(Out6, 5, [], 0));
  }

  /** The first test stream from its fourth push on. */
  lemma CrlfFrom3()
    ensures Run(Crlf, None, 0, Cr, [Lf] + ([Hello] + ([World] + [Rules]))) == Pushed(Out4, 5, [], 0)
  {
    CrlfPrefixes();
    CrlfFrom4();
    CrlfPush4();
    RunCons(Crlf, None, 0, Cr, Lf, [Hello] + ([World] + [Rules]), Pushed([ExactMatch], 1, [], 1), Pushed(Out5, 5, [], 0));
  }

  /** The first test stream from its third push on. */
  lemma CrlfFrom2()
    ensures Run(Crlf, None, 0, [], [Cr] + ([Lf] + ([Hello] + ([World] + [Rules])))) == Pushed(Out3, 5, [], 0)
  {
    CrlfPrefixes();
    CrlfFrom3();
    CrlfPush3();
    RunCons(Crlf, None, 0, [], Cr, [Lf] + ([Hello] + ([World] + [Rules])), Pushed([], 0, Cr, 1), Pushed(Out4, 5, [], 0));
  }

  /** The first test stream from its second push on. */
  lemma CrlfFrom1()
    ensures Run(Crlf, None, 0, [], [Bar] + ([Cr] + ([Lf] + ([Hello] + ([World] + [Rules]))))) == Pushed(Out2, 5, [], 0)
  {
    CrlfPrefixes();
    CrlfFrom2();
    CrlfPush2();
    RunCons(Crlf, None, 0, [], Bar, [Cr] + ([Lf] + ([Hello] + ([World] + [Rules]))), Pushed([NonMatch(Bar, true)], 0, [], 4), Pushed(Out3, 5, [], 0));
  }

  /** The first test stream from its first push on. */
  lemma CrlfFrom0()
    ensures Run(Crlf, None, 0, [], [Foo] + ([Bar] + ([Cr] + ([Lf] + ([Hello] + ([World] + [Rules])))))) == Pushed(Out1, 5, [], 0)
  {
    CrlfPrefixes();
    CrlfFrom1();
    CrlfPush1();
    RunCons(Crlf, None, 0, [], Foo, [Bar] + ([Cr] + ([Lf] + ([Hello] + ([World] + [Rules])))), Pushed([NonMatch(Foo, true)], 0, [], 3), Pushed(Out2, 5, [], 0));
  }

  /** The first stream of the repository's test: needle "\r\n" over seven chunks. */
  lemma CrlfStream()
    ensures Stream(Crlf, None, [Foo, Bar, Cr, Lf, Hello, World, Rules])
      == [NonMatch(Foo, true), NonMatch(Bar, true), ExactMatch, NonMatch(BazHello, true),
          ExactMatch, NonMatch(Dot, true), ExactMatch, Match(Browser, true), Match([], true)]
  {
    assert [Foo, Bar, Cr, Lf, Hello, World, Rules] == [Foo] + ([Bar] + ([Cr] + ([Lf] + ([Hello] + ([World] + [Rules])))));
    CrlfFrom0();
    CrlfEvents();
  }

  /** "---foobarbaz" */
  const Dashes: seq<bv8> := [45, 45, 45, 102, 111, 111, 98, 97, 114, 98, 97, 122]
  /** "asdf" */
  const Asdf: seq<bv8> := [97, 115, 100, 102]
  /** "---foobarba" */
  const Almost: seq<bv8> := [45, 45, 45, 102, 111, 111, 98, 97, 114, 98, 97]
  /** "---foobar" */
  const Partial: seq<bv8> := [45, 45, 45, 102, 111, 111, 98, 97, 114]
  /** "ba" */
  const Ba: seq<bv8> := [98, 97]
  /** "\r\n---foobarbaz--\r\n" */
  const Closing: seq<bv8> := [13, 10, 45, 45, 45, 102, 111, 111, 98, 97, 114, 98, 97, 122, 45, 45, 13, 10]
  /** "--\r\n" */
  const Trailer: seq<bv8> := [45, 45, 13, 10]

  /** The lookbehinds of the second test stream are prefixes of its needle. */
  lemma DashPrefixes()
    ensures NeedlePrefix(Dashes, []) && NeedlePrefix(Dashes, Almost) && NeedlePrefix(Dashes, Partial)
  {
  }

  /** The whole needle as a chunk is an exact match. */
  lemma DashPush1()
    ensures PushSpec(Dashes, None, 0, [], Dashes) == Pushed([ExactMatch], 1, [], 12)
  {
    ScanFinds(Dashes, Dashes, 0, 0);
    FeedSpecEmpty(Dashes, [], Dashes, 0);
    DriveEnds(Dashes, None, 0, [], Dashes, 0, 1, [], 12);
  }

  /** A chunk without a dash is safe non-match data. */
  lemma DashPush2()
    ensures PushSpec(Dashes, None, 1, [], Asdf) == Pushed([NonMatch(Asdf, true)], 1, [], 4)
  {
    ScanNothing(Dashes, Asdf, 0);
    FeedSpecEmpty(Dashes, [], Asdf, 0);
    DriveEnds(Dashes, None, 1, [], Asdf, 0, 1, [], 4);
  }

  /** As for "asdf", "\r\n" is safe non-match data. */
  lemma DashPush3()
    ensures PushSpec(Dashes, None, 1, [], Crlf) == Pushed([NonMatch(Crlf, true)], 1, [], 2)
  {
    ScanNothing(Dashes, Crlf, 0);
    FeedSpecEmpty(Dashes, [], Crlf, 0);
    DriveEnds(Dashes, None, 1, [], Crlf, 0, 1, [], 2);
  }

  /** A chunk that is a proper prefix of the needle is retained whole, with no event. */
  lemma DashPush4()
    ensures PushSpec(Dashes, None, 1, [], Almost) == Pushed([], 1, Almost, 11)
  {
    assert Reach(Dashes, Almost, 0) == 11 && Almost[0..11] == Dashes[..11];
    FirstViableIs(Dashes, Almost, 0, 0);
    ScanSpecTail(Dashes, Almost, 0, 0);
    FeedSpecEmpty(Dashes, [], Almost, 0);
    assert Almost[0..] == Almost;
    DriveEnds(Dashes, None, 1, [], Almost, 0, 1, Almost, 11);
  }

  /** Past its leading dashes, "---foobarba" holds no byte that could begin the needle. */
  lemma AlmostNoStart(data: seq<bv8>)
    ensures forall q :: 3 <= q < |Almost| ==> !Viable(Dashes, Almost + data, q)
  {
    assert (Almost + data)[3..11] == Almost[3..11];
    NoStartIn(Dashes, Almost + data, 3, 11);
  }

  /** No alignment inside the retained "---foobarba" survives a next byte other than 'z'. */
  lemma AlmostFails(data: seq<bv8>)
    requires |data| >= 1 && data[0] != 122
    ensures forall q :: 0 <= q < |Almost| ==> !Viable(Dashes, Almost + data, q)
  {
    var w := Almost + data;
    ByteDiffers(Dashes, w, 0, 11);
    ByteDiffers(Dashes, w, 1, 2);
    ByteDiffers(Dashes, w, 2, 1);
    AlmostNoStart(data);
  }

  /** "---foobar" cannot extend the retained "---foobarba": the old lookbehind is discarded, the chunk retained. */
  lemma DashPush5()
    ensures PushSpec(Dashes, None, 1, Almost, Partial) == Pushed([NonMatch(Almost, false)] + [], 1, Partial, 9)
  {
    AlmostFails(Partial);
    FeedSpecDiscard(Dashes, Almost, Partial);
    assert Reach(Dashes, Partial, 0) == 9 && Partial[0..9] == Dashes[..9];
    FirstViableIs(Dashes, Partial, 0, 0);
    ScanSpecTail(Dashes, Partial, 0, 0);
    assert Partial[0..] == Partial;
    DriveEnds(Dashes, None, 1, Almost, Partial, 0, 1, Partial, 9);
  }

  /** "ba" extends the retained "---foobar" to "---foobarba", still a needle prefix. */
  lemma DashPush6()
    ensures PushSpec(Dashes, None, 1, Partial, Ba) == Pushed([], 1, Almost, 2)
  {
    assert Partial + Ba == Almost;
    assert Reach(Dashes, Almost, 0) == 11 && Almost[0..11] == Dashes[..11];
    FirstViableIs(Dashes, Partial + Ba, 0, 0);
    FeedSpecRetain(Dashes, Partial, Ba, 0);
    assert Almost[0..] == Almost;
    DriveEnds(Dashes, None, 1, Partial, Ba, 0, 1, Almost, 2);
  }

  /** After the match in the closing chunk, "--\r\n" is safe non-match data. */
  lemma DashPush7Rest()
    ensures Drive(Dashes, None, 2, [], Closing, 14) == Pushed([NonMatch(Trailer, true)], 2, [], 18)
  {
    ByteDiffers(Dashes, Closing, 14, 2);
    ByteDiffers(Dashes, Closing, 15, 1);
    NoStartIn(Dashes, Closing, 16, 18);
    EndViable(Dashes, Closing);
    FirstViableIs(Dashes, Closing, 14, 18);
    ScanSpecTail(Dashes, Closing, 14, 18);
    FeedSpecEmpty(Dashes, [], Closing, 14);
    assert Closing[14..18] == Trailer && Closing[18..] == [];
    DriveEnds(Dashes, None, 2, [], Closing, 14, 2, [], 18);
  }

  /** The first feed step of the closing chunk: the lookbehind is discarded and "\r\n" precedes a match. */
  lemma DashPush7Feed()
    ensures FeedSpec(Dashes, Almost, Closing, 0) == Step([NonMatch(Almost, false)] + [Match(Crlf, true)], 14, [], true)
  {
    AlmostFails(Closing);
    FeedSpecDiscard(Dashes, Almost, Closing);
    DashClosingScan();
  }

  /** Scanned alone, the closing chunk has "\r\n" before its first whole occurrence. */
  lemma DashClosingScan()
    ensures ScanSpec(Dashes, Closing, 0) == Step([Match(Crlf, true)], 14, [], true)
  {
    assert Closing[2..14] == Dashes;
    ScanFinds(Dashes, Closing, 0, 2);
    assert Closing[0..2] == Crlf;
  }

  /** The closing chunk: the lookbehind is discarded, "\r\n" precedes a match, "--\r\n" follows it. */
  lemma DashPush7()
    ensures PushSpec(Dashes, None, 1, Almost, Closing)
      == Pushed(([NonMatch(Almost, false)] + [Match(Crlf, true)]) + [NonMatch(Trailer, true)], 2, [], 18)
  {
    DashPush7Feed();
    DriveContinues(Dashes, None, 1, Almost, Closing, 0, 2, [], 14);
    DashPush7Rest();
  }

  /** The events of the second test stream from its seventh push on, then from its sixth, and so on. */
  const DashOut7: seq<Event> := ([NonMatch(Almost, false)] + [Match(Crlf, true)]) + [NonMatch(Trailer, true)]
  const DashOut6: seq<Event> := [] + DashOut7
  const DashOut5: seq<Event> := ([NonMatch(Almost, false)] + []) + DashOut6
  const DashOut4: seq<Event> := [] + DashOut5
  const DashOut3: seq<Event> := [NonMatch(Crlf, true)] + DashOut4
  const DashOut2: seq<Event> := [NonMatch(Asdf, true)] + DashOut3
  const DashOut1: seq<Event> := [ExactMatch] + DashOut2

  /** All the events of the second test stream, in order. */
  lemma DashEvents()
    ensures DashOut1 + [] == [ExactMatch, NonMatch(Asdf, true), NonMatch(Crlf, true), NonMatch(Almost, false),
      NonMatch(Almost, false), Match(Crlf, true), NonMatch(Trailer, true)]
  {
  }

  /** The second test stream from its seventh push on. */
  lemma DashFrom6()
    ensures Run(Dashes, None, 1, Almost, [Closing]) == Pushed(DashOut7, 2, [], 0)
  {
    DashPrefixes();
    DashPush7();
    RunCons(Dashes, None, 1, Almost, Closing, [], Pushed(DashOut7, 2, [], 18), Pushed([], 2, [], 0));
    assert [Closing] + [] == [Closing];
    AppendNothing(DashOut7);
  }

  /** The second test stream from its sixth push on. */
  lemma DashFrom5()
    ensures Run(Dashes, None, 1, Partial, [Ba] + [Closing]) == Pushed(DashOut6, 2, [], 0)
  {
    DashPrefixes();
    DashFrom6();
    DashPush6();
    RunCons(Dashes, None, 1, Partial, Ba, [Closing], Pushed([], 1, Almost, 2), Pushed(DashOut7, 2, [], 0));
  }

  /** The second test stream from its fifth push on. */
  lemma DashFrom4()
    ensures Run(Dashes, None, 1, Almost, [Partial] + ([Ba] + [Closing])) == Pushed(DashOut5, 2, [], 0)
  {
    DashPrefixes();
    DashFrom5();
    DashPush5();
    RunCons(Dashes, None, 1, Almost, Partial, [Ba] + [Closing], Pushed([NonMatch(Almost, false)] + [], 1, Partial, 9), Pushed(DashOut6, 2, [], 0));
  }

  /** The second test stream from its fourth push on. */
  lemma DashFrom3()
    ensures Run(Dashes, None, 1, [], [Almost] + ([Partial] + ([Ba] + [Closing]))) == Pushed(DashOut4, 2, [], 0)
  {
    DashPrefixes();
    DashFrom4();
    DashPush4();
    RunCons(Dashes, None, 1, [], Almost, [Partial] + ([Ba] + [Closing]), Pushed([], 1, Almost, 11), Pushed(DashOut5, 2, [], 0));
  }

  /** The second test stream from its third push on. */
  lemma DashFrom2()
    ensures Run(Dashes, None, 1, [], [Crlf] + ([Almost] + ([Partial] + ([Ba] + [Closing])))) == Pushed(DashOut3, 2, [], 0)
  {
    DashPrefixes();
    DashFrom3();
    DashPush3();
    RunCons(Dashes, None, 1, [], Crlf, [Almost] + ([Partial] + ([Ba] + [Closing])), Pushed([NonMatch(Crlf, true)], 1, [], 2), Pushed(DashOut4, 2, [], 0));
  }

  /** The second test stream from its second push on. */
  lemma DashFrom1()
    ensures Run(Dashes, None, 1, [], [Asdf] + ([Crlf] + ([Almost] + ([Partial] + ([Ba] + [Closing]))))) == Pushed(DashOut2, 2, [], 0)
  {
    DashPrefixes();
    DashFrom2();
    DashPush2();
    RunCons(Dashes, None, 1, [], Asdf, [Crlf] + ([Almost] + ([Partial] + ([Ba] + [Closing]))), Pushed([NonMatch(Asdf, true)], 1, [], 4), Pushed(DashOut3, 2, [], 0));
  }

  /** The second test stream from its first push on. */
  lemma DashFrom0()
    ensures Run(Dashes, None, 0, [], [Dashes] + ([Asdf] + ([Crlf] + ([Almost] + ([Partial] + ([Ba] + [Closing])))))) == Pushed(DashOut1, 2, [], 0)
  {
    DashPrefixes();
    DashFrom1();
    DashPush1();
    RunCons(Dashes, None, 0, [], Dashes, [Asdf] + ([Crlf] + ([Almost] + ([Partial] + ([Ba] + [Closing])))), Pushed([ExactMatch], 1, [], 12), Pushed(DashOut2, 2, [], 0));
  }

  /** The second stream of the repository's test: needle "---foobarbaz" over seven chunks. */
  lemma DashStream()
    ensures Stream(Dashes, None, [Dashes, Asdf, Crlf, Almost, Partial, Ba, Closing])
      == [ExactMatch, NonMatch(Asdf, true), NonMatch(Crlf, true), NonMatch(Almost, false),
          NonMatch(Almost, false), Match(Crlf, true), NonMatch(Trailer, true)]
  {
    assert [Dashes, Asdf, Crlf, Almost, Partial, Ba, Closing] == [Dashes] + ([Asdf] + ([Crlf] + ([Almost] + ([Partial] + ([Ba] + [Closing])))));
    DashFrom0();
    DashEvents();
  }

  /** "aab" */
  const Aab: seq<bv8> := [97, 97, 98]
  /** "aa" */
  const Aa: seq<bv8> := [97, 97]
  /** "ab" */
  const Ab: seq<bv8> := [97, 98]

  /** "aa" is retained whole: it is a prefix of "aab". */
  lemma BorderPush1()
    ensures PushSpec(Aab, None, 0, [], Aa) == Pushed([], 0, Aa, 2)
  {
    assert Reach(Aab, Aa, 0) == 2 && Aa[0..2] == Aab[..2];
    FirstViableIs(Aab, Aa, 0, 0);
    ScanSpecTail(Aab, Aa, 0, 0);
    FeedSpecEmpty(Aab, [], Aa, 0);
    assert Aa[0..] == Aa;
    DriveEnds(Aab, None, 0, [], Aa, 0, 0, Aa, 2);
  }

  /** With "ab" the needle occurs at offset 1 of "aaab": an exact match, and the first "a" is never reported. */
  lemma BorderPush2()
    ensures PushSpec(Aab, None, 0, Aa, Ab) == Pushed([ExactMatch], 1, [], 2)
  {
    var w := Aa + Ab;
    ByteDiffers(Aab, w, 0, 2);
    assert Reach(Aab, w, 1) == 3 && w[1..4] == Aab;
    FirstViableIs(Aab, w, 0, 1);
    FeedSpecSpanning(Aab, Aa, Ab, 1);
    DriveEnds(Aab, None, 0, Aa, Ab, 0, 1, [], 2);
  }

  /**
   * A needle with a border loses data at a chunk boundary: "aab" over "aa", "ab"
   * reports one exact match and nothing else, three bytes for four.
   */
  lemma BorderLoss()
    ensures !NoSelfOverlap(Aab)
    ensures Stream(Aab, None, [Aa, Ab]) == [ExactMatch]
    ensures |Reported(Aab, Stream(Aab, None, [Aa, Ab]))| < |Concat([Aa, Ab])|
  {
    assert Aab[1..2] == Aab[..1];
    assert NeedlePrefix(Aab, []) && NeedlePrefix(Aab, Aa);
    BorderPush1();
    BorderPush2();
    RunCons(Aab, None, 0, Aa, Ab, [], Pushed([ExactMatch], 1, [], 2), Pushed([], 1, [], 0));
    assert [Ab] + [] == [Ab];
    AppendNothing([ExactMatch]);
    RunCons(Aab, None, 0, [], Aa, [Ab], Pushed([], 0, Aa, 2), Pushed([ExactMatch], 1, [], 0));
    assert [Aa, Ab] == [Aa] + [Ab] && [] + [ExactMatch] == [ExactMatch];
    AppendNothing([ExactMatch]);
    SingleBytes(Aab, ExactMatch);
    var chunks := [Aa, Ab];
    assert Concat(chunks) == Aa + Concat(chunks[1..]) && Concat(chunks[1..]) == Ab + Concat(chunks[2..]);
  }
}
