/**
  * Decoding with an output limit, call by call: a small buffer takes the bytes of each call, and
  * the next call goes on where the last one stopped (src/implementation.cpp).  The run of these
  * calls is a recursive function here; how it relates to one pass over the text is proved about it.
  */
module BufferedCalls {
  import opened Base64
  import opened SimdutfBase64
  import opened SafeBase64

  // ----- One call -----

  // What a call reports.  The bytes in front of an error are not specified; none are listed then.
  datatype Outcome = Outcome(error: ErrorCode, output: seq<byte>, symbols: nat)

  predicate Decodes(error: ErrorCode) { error == SUCCESS || error == OUTPUT_BUFFER_TOO_SMALL }

  // The text behind the '=' that a call skips, and the room that is left for it.
  function TextBehind(text: seq<byte>, options: Options): seq<byte>
    requires FirstStop(text, options) < |text|
  {
    text[FirstStop(text, options) + 1..]
  }

  function RoomBehind(text: seq<byte>, options: Options, room: nat): nat
    requires FirstStop(text, options) < Cut(room)
  {
    FirstPartFits(text, options, room);
    room - |Content(text, options)| / 4 * 3
  }

  function OnePassOutcome(text: seq<byte>, options: Options, last: LastChunk, room: nat): Outcome
  {
    var s, error := Content(text, options), VerdictOn(text, options, last, true, room);
    var m := DecodedOf(text, options, last, true, room);
    DecodedFits(s, TailOf(text, options), options.garbage, last, true, room);
    if Decodes(error) then Outcome(error, Decode(s[..m]), m) else Outcome(error, [], |s|)
  }

  function Call(text: seq<byte>, options: Options, last: LastChunk, room: nat): Outcome
  {
    if SplitsPadding(text, options, room) then Outcome(BASE64_INPUT_REMAINDER, [], |Content(text, options)|)
    else if SkipsPadding(text, options, room) then
      var rest := OnePassOutcome(TextBehind(text, options), options, last, RoomBehind(text, options, room));
      Outcome(rest.error, Whole(text, options) + rest.output, |Content(text, options)| + rest.symbols)
    else OnePassOutcome(text, options, last, room)
  }

  // Where a call stops that ran out of room.
  function Next(text: seq<byte>, options: Options, last: LastChunk, room: nat): (next: nat)
    ensures next <= |text|
  {
    if SkipsPadding(text, options, room) then
      var rest := TextBehind(text, options);
      FirstStop(text, options) + 1
      + Canonical(rest, options, DecodedOf(rest, options, last, true, RoomBehind(text, options, room)))
    else Canonical(text, options, DecodedOf(text, options, last, true, room))
  }

  // A call has one error code; if it decodes, one byte string; and if it runs out of room, one
  // position.
  ghost predicate IsCall(text: seq<byte>, options: Options, last: LastChunk, room: nat, r: FullResult)
  {
    var call := Call(text, options, last, room);
    && r.error == call.error && r.inputCount <= |text| && |r.output| <= room
    && (Decodes(r.error) ==>
          r.output == call.output && |SymbolsOf(text[..r.inputCount], options)| == call.symbols)
    && (r.error == OUTPUT_BUFFER_TOO_SMALL ==>
          r.inputCount == Next(text, options, last, room) && |r.output| == room / 3 * 3)
  }

  lemma CallIs(text: seq<byte>, options: Options, last: LastChunk, upToBad: bool, room: nat, r: FullResult)
    requires Safe(text, options, last, upToBad, room, r)
    ensures IsCall(text, options, last, room, r)
  {
    hide *;
    if SplitsPadding(text, options, room) {
      SplitIsCall(text, options, last, upToBad, room, r);
    } else if SkipsPadding(text, options, room) {
      SkipIsCall(text, options, last, upToBad, room, r);
    } else {
      OnePassIsCall(text, options, last, upToBad, room, r);
    }
  }

  lemma SplitIsCall(text: seq<byte>, options: Options, last: LastChunk, upToBad: bool, room: nat, r: FullResult)
    requires Safe(text, options, last, upToBad, room, r) && SplitsPadding(text, options, room)
    ensures IsCall(text, options, last, room, r)
  {
    hide SymbolsOf, FirstStop, TailOf, Content, Verdict, Decoded, Decode, Canonical, SplitsPadding, Regular;
  }

  lemma OnePassIsCall(text: seq<byte>, options: Options, last: LastChunk, upToBad: bool, room: nat, r: FullResult)
    requires Safe(text, options, last, upToBad, room, r)
    requires !SplitsPadding(text, options, room) && !SkipsPadding(text, options, room)
    ensures IsCall(text, options, last, room, r)
  {
    hide SymbolsOf, FirstStop, TailOf, Content, Verdict, Decoded, Decode, Canonical, SplitsPadding, Whole,
      SkipsPadding, IsEnd, ConsumesPadding;
    if r.error == OUTPUT_BUFFER_TOO_SMALL {
      VerdictKinds(Content(text, options), TailOf(text, options), options.garbage, last, true, room);
      WholeGroups(room / 3 * 4);
    }
  }

  lemma SkipIsCall(text: seq<byte>, options: Options, last: LastChunk, upToBad: bool, room: nat, r: FullResult)
    requires Safe(text, options, last, upToBad, room, r)
    requires !SplitsPadding(text, options, room) && SkipsPadding(text, options, room)
    ensures IsCall(text, options, last, room, r)
  {
    hide SymbolsOf, FirstStop, TailOf, Content, Verdict, Decoded, Decode, Canonical, SplitsPadding, Whole;
    if r.error == OUTPUT_BUFFER_TOO_SMALL {
      SkippedSize(text, options, last, room, r);
    }
  }

  lemma SkippedSize(text: seq<byte>, options: Options, last: LastChunk, room: nat, r: FullResult)
    requires SkipsPadding(text, options, room) && ReadOn(text, options, last, room, r)
    requires r.error == OUTPUT_BUFFER_TOO_SMALL
    ensures |r.output| == room / 3 * 3
  {
    hide SymbolsOf, FirstStop, TailOf, Content, Verdict, Decode, Canonical, Whole, SkipsPadding, Cut;
    SkippedStop(text, options, room);
    FirstPartFits(text, options, room);
    var g, rest := |Content(text, options)| / 4, TextBehind(text, options);
    VerdictKinds(Content(rest, options), TailOf(rest, options), options.garbage, last, true, room - g * 3);
    WholeSize(text, options);
    SizeBehind(g, room);
  }

  lemma SizeBehind(g: nat, room: nat)
    requires 3 * g <= room
    ensures g * 3 + 3 * ((room - g * 3) / 3 * 4) / 4 == room / 3 * 3
  {
    WholeGroups((room - 3 * g) / 3 * 4);
    Groups(0, g, room - 3 * g);
  }

  // What a call adds when it runs out of room.
  lemma FullCall(text: seq<byte>, options: Options, last: LastChunk, room: nat)
    requires !SkipsPadding(text, options, room) && Call(text, options, last, room).error == OUTPUT_BUFFER_TOO_SMALL
    ensures var s, c, k := Content(text, options), Next(text, options, last, room), room / 3;
            && 4 * k < |s| && Call(text, options, last, room) == Outcome(OUTPUT_BUFFER_TOO_SMALL, Decode(s[..4 * k]),
                                                                         4 * k)
            && c <= FirstStop(text, options) && c == Canonical(text, options, 4 * k)
            && |SymbolsOf(text[..c], options)| == 4 * k && IsBehindSymbol(text, options, c)
            && VerdictOn(text, options, last, true, room) == OUTPUT_BUFFER_TOO_SMALL
            && !SplitsPadding(text, options, room)
  {
    hide ToBase64, SymbolsOf, FirstStop, TailOf, Content, Decode, Canonical, SplitsPadding, SkipsPadding, IsValid,
      Verdict;
    var s := Content(text, options);
    VerdictKinds(s, TailOf(text, options), options.garbage, last, true, room);
    DecodedFits(s, TailOf(text, options), options.garbage, last, true, room);
    CanonicalInContent(text, options, room / 3 * 4);
  }

  lemma CanonicalInContent(text: seq<byte>, options: Options, m: nat)
    requires m <= |Content(text, options)|
    ensures var c := Canonical(text, options, m);
            c <= FirstStop(text, options) && |SymbolsOf(text[..c], options)| == m && IsBehindSymbol(text, options, c)
  {
    hide ToBase64, SymbolsOf, FirstStop, Canonical, IsValid, IsStop;
    var c, stop := Canonical(text, options, m), FirstStop(text, options);
    AtLeast(text, options);
    if stop < c {
      KindsOfCharacters(text[stop], options);
      SymbolsMonotone(text, options, stop, c);
    }
  }

  // ----- All the calls -----

  function Least(a: nat, b: nat): nat { if a < b then a else b }

  function Run(text: seq<byte>, options: Options, last: LastChunk, capacity: nat, bufferSize: nat): Outcome
    requires bufferSize >= 3
    decreases capacity
  {
    var call := Call(text, options, last, Least(bufferSize, capacity));
    if call.error == OUTPUT_BUFFER_TOO_SMALL && bufferSize < capacity then
      var next := Next(text, options, last, bufferSize);
      var rest := Run(text[next..], options, last, capacity - bufferSize / 3 * 3, bufferSize);
      Outcome(rest.error, call.output + rest.output, call.symbols + rest.symbols)
    else call
  }

  // ----- The call that meets the end of the text -----

  // Of g groups, those that fill buffers of k groups in front of the last one.
  function GroupsBefore(g: nat, k: nat): (n: nat)
    requires k > 0
    ensures if g == 0 then n == 0 else n < g <= n + k
  {
    if g <= k then 0 else k + GroupsBefore(g - k, k)
  }

  lemma GroupsBeforeNext(g: nat, k: nat)
    requires k > 0
    ensures GroupsBefore(g, k) == if g <= k then 0 else k + GroupsBefore(g - k, k)
    ensures g > k ==> k + GroupsBefore(g - k, k) <= g
  {
  }

  // Where that call starts, and the room it has.
  function LastStart(text: seq<byte>, options: Options, bufferSize: nat): (start: nat)
    requires bufferSize >= 3
    ensures start <= |text|
  {
    Canonical(text, options, 4 * GroupsBefore(|Content(text, options)| / 4, bufferSize / 3))
  }

  function LastLeft(text: seq<byte>, options: Options, capacity: nat, bufferSize: nat): nat
    requires bufferSize >= 3 && |Content(text, options)| / 4 * 3 <= capacity
  {
    capacity - 3 * GroupsBefore(|Content(text, options)| / 4, bufferSize / 3)
  }

  function LastRoom(text: seq<byte>, options: Options, capacity: nat, bufferSize: nat): nat
    requires bufferSize >= 3 && |Content(text, options)| / 4 * 3 <= capacity
  {
    Least(bufferSize, LastLeft(text, options, capacity, bufferSize))
  }

  // Its cut splits a '='.
  predicate RunSplits(text: seq<byte>, options: Options, capacity: nat, bufferSize: nat)
    requires bufferSize >= 3
  {
    && |Content(text, options)| / 4 * 3 <= capacity
    && SplitsPadding(text[LastStart(text, options, bufferSize)..], options,
                     LastRoom(text, options, capacity, bufferSize))
  }

  // Where garbage is skipped: a call skips a '=' and finds something to decode behind it.
  predicate ReadsBehind(text: seq<byte>, options: Options, last: LastChunk, room: nat)
  {
    SkipsPadding(text, options, room) && !AddsNothing(text, options, last, room)
  }

  predicate AddsNothing(text: seq<byte>, options: Options, last: LastChunk, room: nat)
    requires SkipsPadding(text, options, room)
  {
    var rest, left := TextBehind(text, options), RoomBehind(text, options, room);
    VerdictOn(rest, options, last, true, left) == SUCCESS && DecodedOf(rest, options, last, true, left) < 2
  }

  predicate RunReadsOn(text: seq<byte>, options: Options, last: LastChunk, capacity: nat, bufferSize: nat)
    requires bufferSize >= 3
  {
    && |Content(text, options)| / 4 * 3 <= capacity
    && ReadsBehind(text[LastStart(text, options, bufferSize)..], options, last,
                   LastRoom(text, options, capacity, bufferSize))
  }

  // If the groups fit the first buffer, it is the first call.
  lemma LastIsFirst(text: seq<byte>, options: Options, capacity: nat, bufferSize: nat)
    requires bufferSize >= 3 && |Content(text, options)| / 4 <= Least(bufferSize, capacity) / 3
    ensures |Content(text, options)| / 4 * 3 <= capacity
    ensures text[LastStart(text, options, bufferSize)..] == text
    ensures LastLeft(text, options, capacity, bufferSize) == capacity
    ensures LastRoom(text, options, capacity, bufferSize) == Least(bufferSize, capacity)
  {
    hide SymbolsOf, Content;
  }

  // Behind a full buffer it is the same call.
  lemma LastBehind(text: seq<byte>, options: Options, last: LastChunk, capacity: nat, bufferSize: nat)
    requires 3 <= bufferSize < capacity && !SkipsPadding(text, options, bufferSize)
    requires Call(text, options, last, bufferSize).error == OUTPUT_BUFFER_TOO_SMALL
    requires |Content(text, options)| / 4 > bufferSize / 3
    ensures var c, left := Next(text, options, last, bufferSize), capacity - bufferSize / 3 * 3;
            && text[LastStart(text, options, bufferSize)..] == text[c..][LastStart(text[c..], options, bufferSize)..]
            && (|Content(text, options)| / 4 * 3 <= capacity <==> |Content(text[c..], options)| / 4 * 3 <= left)
            && (|Content(text, options)| / 4 * 3 <= capacity ==>
                  && LastLeft(text, options, capacity, bufferSize) == LastLeft(text[c..], options, left, bufferSize)
                  && LastRoom(text, options, capacity, bufferSize) == LastRoom(text[c..], options, left, bufferSize))
  {
    hide SymbolsOf, Content, Canonical, FirstStop, TailOf, Decode, SkipsPadding, SplitsPadding, Call, Next,
      LastStart;
    var c, k := Next(text, options, last, bufferSize), bufferSize / 3;
    GroupsLeft(text, options, last, bufferSize);
    StartBehind(text, options, last, bufferSize);
    var start := LastStart(text[c..], options, bufferSize);
    assert text[c..][start..] == text[c + start..];
  }

  lemma GroupsLeft(text: seq<byte>, options: Options, last: LastChunk, room: nat)
    requires !SkipsPadding(text, options, room) && Call(text, options, last, room).error == OUTPUT_BUFFER_TOO_SMALL
    ensures var rest := text[Next(text, options, last, room)..];
            |Content(rest, options)| / 4 == |Content(text, options)| / 4 - room / 3
  {
    hide SymbolsOf, Content, Canonical, FirstStop, TailOf, Decode, SkipsPadding, SplitsPadding, Call, Next;
    FullCall(text, options, last, room);
    RestOfText(text, options, Next(text, options, last, room), room / 3);
    Groups(|Content(text, options)| - 4 * (room / 3), room / 3, 0);
  }

  lemma StartBehind(text: seq<byte>, options: Options, last: LastChunk, bufferSize: nat)
    requires bufferSize >= 3 && !SkipsPadding(text, options, bufferSize)
    requires Call(text, options, last, bufferSize).error == OUTPUT_BUFFER_TOO_SMALL
    requires |Content(text, options)| / 4 > bufferSize / 3
    ensures var c := Next(text, options, last, bufferSize);
            LastStart(text, options, bufferSize) == c + LastStart(text[c..], options, bufferSize)
  {
    hide SymbolsOf, Content, Canonical, FirstStop, TailOf, Decode, SkipsPadding, SplitsPadding, Call, Next;
    var c, k := Next(text, options, last, bufferSize), bufferSize / 3;
    FullCall(text, options, last, bufferSize);
    GroupsLeft(text, options, last, bufferSize);
    AtLeast(text[c..], options);
    CanonicalBehind(text, options, c, 4 * GroupsBefore(|Content(text[c..], options)| / 4, k));
  }

  // More room changes nothing once a text is decoded or rejected.
  lemma MoreRoomVerdict(s: seq<Sextet>, tail: Tail, garbage: bool, last: LastChunk, capacity: nat, more: nat)
    requires capacity <= more
    ensures Verdict(s, tail, garbage, last, true, capacity) != OUTPUT_BUFFER_TOO_SMALL ==>
              && Verdict(s, tail, garbage, last, true, more) == Verdict(s, tail, garbage, last, true, capacity)
              && Decoded(s, tail, garbage, last, true, more) == Decoded(s, tail, garbage, last, true, capacity)
  {
    hide ExtraBits;
  }

  lemma FullIsNoSplit(text: seq<byte>, options: Options, last: LastChunk, room: nat)
    requires |Content(text, options)| / 4 > room / 3
    ensures !SplitsPadding(text, options, room) && !SkipsPadding(text, options, room)
    ensures Call(text, options, last, room).error == OUTPUT_BUFFER_TOO_SMALL
  {
    hide SymbolsOf, Content, FirstStop, TailOf, IsPadding;
    if FirstStop(text, options) < Cut(room) {
      FirstPartFits(text, options, room);
    }
  }

  lemma FullNeedsTwo(s: seq<Sextet>, tail: Tail, garbage: bool, last: LastChunk, room: nat)
    requires Verdict(s, tail, garbage, last, true, room) == OUTPUT_BUFFER_TOO_SMALL && |s| / 4 <= room / 3
    ensures |s| % 4 >= 2
  {
    hide ExtraBits;
  }

  // The last call reads the end of the text as it is.
  lemma LastIndex(text: seq<byte>, options: Options, bufferSize: nat)
    requires bufferSize >= 3
    ensures var rest, g := text[LastStart(text, options, bufferSize)..],
                           GroupsBefore(|Content(text, options)| / 4, bufferSize / 3);
            && 4 * g <= |Content(text, options)| && Content(rest, options) == Content(text, options)[4 * g..]
            && |Content(rest, options)| % 4 == |Content(text, options)| % 4
            && TailOf(rest, options) == TailOf(text, options)
  {
    hide SymbolsOf, Content, FirstStop, TailOf, Canonical, GroupsBefore;
    var s, g := Content(text, options), GroupsBefore(|Content(text, options)| / 4, bufferSize / 3);
    CanonicalInContent(text, options, 4 * g);
    RestOfText(text, options, LastStart(text, options, bufferSize), g);
    SameIndex(|s|, g);
  }

  // Behind a full buffer, the rest is read as it is in the whole text.
  lemma BehindFullBuffer(text: seq<byte>, options: Options, last: LastChunk, capacity: nat, bufferSize: nat)
    requires 3 <= bufferSize < capacity && !SkipsPadding(text, options, bufferSize)
    requires Call(text, options, last, bufferSize).error == OUTPUT_BUFFER_TOO_SMALL
    ensures var c, k := Next(text, options, last, bufferSize), bufferSize / 3;
            var s, rest, left := Content(text, options), text[c..], capacity - k * 3;
            && 4 * k <= |s| && Content(rest, options) == s[4 * k..]
            && VerdictOn(rest, options, last, true, left) == VerdictOn(text, options, last, true, capacity)
            && 4 * k + DecodedOf(rest, options, last, true, left) == DecodedOf(text, options, last, true, capacity)
            && (RunSplits(rest, options, left, bufferSize) <==> RunSplits(text, options, capacity, bufferSize))
            && (RunReadsOn(rest, options, last, left, bufferSize)
                <==> RunReadsOn(text, options, last, capacity, bufferSize))
  {
    hide SymbolsOf, Content, FirstStop, TailOf, Canonical, Verdict, Decoded, Call, Next, RunSplits, RunReadsOn,
      SkipsPadding;
    var s, c, k := Content(text, options), Next(text, options, last, bufferSize), bufferSize / 3;
    FullCall(text, options, last, bufferSize);
    RestOfText(text, options, c, k);
    VerdictBehind(s, k, TailOf(text, options), options.garbage, last, capacity - 3 * k);
    if |s| / 4 > k {
      SameLastCall(text, options, last, capacity, bufferSize);
    } else {
      FullNeedsTwo(s, TailOf(text, options), options.garbage, last, bufferSize);
      SameIndex(|s|, k);
      NoSingleSymbol(text, options, last, capacity, bufferSize);
      NoSingleSymbol(text[c..], options, last, capacity - k * 3, bufferSize);
    }
  }

  lemma SameLastCall(text: seq<byte>, options: Options, last: LastChunk, capacity: nat, bufferSize: nat)
    requires 3 <= bufferSize < capacity && !SkipsPadding(text, options, bufferSize)
    requires Call(text, options, last, bufferSize).error == OUTPUT_BUFFER_TOO_SMALL
    requires |Content(text, options)| / 4 > bufferSize / 3
    ensures var rest, left := text[Next(text, options, last, bufferSize)..], capacity - bufferSize / 3 * 3;
            && (RunSplits(rest, options, left, bufferSize) <==> RunSplits(text, options, capacity, bufferSize))
            && (RunReadsOn(rest, options, last, left, bufferSize)
                <==> RunReadsOn(text, options, last, capacity, bufferSize))
  {
    hide Content, Call, Next, LastStart, LastRoom, ReadsBehind, SplitsPadding, SkipsPadding;
    LastBehind(text, options, last, capacity, bufferSize);
  }

  // Neither happens behind two or three symbols of a group.
  lemma NoSingleSymbol(text: seq<byte>, options: Options, last: LastChunk, capacity: nat, bufferSize: nat)
    requires bufferSize >= 3 && |Content(text, options)| % 4 >= 2
    ensures !RunSplits(text, options, capacity, bufferSize)
    ensures !RunReadsOn(text, options, last, capacity, bufferSize)
  {
    hide Content, LastStart, LastRoom, FirstStop, TailOf, SymbolsOf, AddsNothing;
    LastIndex(text, options, bufferSize);
  }

  // ----- The error of a run -----

  // Where garbage is not skipped, the calls together report the verdict of one pass, unless the
  // cut of the call that meets the end of the text splits a '='.
  lemma {:induction false} RunVerdict(text: seq<byte>, options: Options, last: LastChunk, capacity: nat,
                                      bufferSize: nat)
    requires bufferSize >= 3 && !options.garbage
    ensures Run(text, options, last, capacity, bufferSize).error
         == if RunSplits(text, options, capacity, bufferSize) then BASE64_INPUT_REMAINDER
            else VerdictOn(text, options, last, true, capacity)
    ensures RunSplits(text, options, capacity, bufferSize) ==>
              VerdictOn(text, options, last, true, capacity) == INVALID_BASE64_CHARACTER
    decreases capacity
  {
    hide SymbolsOf, Content, FirstStop, TailOf, Canonical, GroupsBefore, Decode, Verdict, Decoded, Call, Next,
      LastStart, LastRoom, RunSplits, RunReadsOn, VerdictOn, DecodedOf, SkipsPadding;
    var call := Call(text, options, last, Least(bufferSize, capacity));
    NoGarbage(text, options, bufferSize);
    if call.error == OUTPUT_BUFFER_TOO_SMALL && bufferSize < capacity {
      BehindFullBuffer(text, options, last, capacity, bufferSize);
      RunVerdict(text[Next(text, options, last, bufferSize)..], options, last, capacity - bufferSize / 3 * 3,
                 bufferSize);
    } else {
      LastVerdict(text, options, last, capacity, bufferSize);
    }
  }

  lemma LastVerdict(text: seq<byte>, options: Options, last: LastChunk, capacity: nat, bufferSize: nat)
    requires bufferSize >= 3 && !options.garbage
    requires Call(text, options, last, Least(bufferSize, capacity)).error == OUTPUT_BUFFER_TOO_SMALL ==>
               bufferSize >= capacity
    ensures Call(text, options, last, Least(bufferSize, capacity)).error
         == if RunSplits(text, options, capacity, bufferSize) then BASE64_INPUT_REMAINDER
            else VerdictOn(text, options, last, true, capacity)
    ensures RunSplits(text, options, capacity, bufferSize) ==>
              VerdictOn(text, options, last, true, capacity) == INVALID_BASE64_CHARACTER
  {
    hide SymbolsOf, Content, FirstStop, TailOf, Canonical, GroupsBefore, Decode, Verdict, Decoded, LastStart, LastRoom,
      SkipsPadding, SplitsPadding;
    var room, s, tail := Least(bufferSize, capacity), Content(text, options), TailOf(text, options);
    NoGarbage(text, options, room);
    OneCallIsExact(text, options, last, room);
    MoreRoomVerdict(s, tail, options.garbage, last, room, capacity);
    if |s| / 4 <= room / 3 {
      LastIsFirst(text, options, capacity, bufferSize);
    } else {
      FullIsNoSplit(text, options, last, room);
    }
  }

  // ----- Reading on behind a '=' -----

  // The error code and the bytes are those of one pass.
  predicate IsOnePass(o: Outcome, text: seq<byte>, options: Options, last: LastChunk, capacity: nat)
  {
    var pass := OnePassOutcome(text, options, last, capacity);
    o.error == pass.error && o.output == pass.output
  }

  // One pass ends at the '=' that a call skips.
  lemma SkippedPass(text: seq<byte>, options: Options, last: LastChunk, room: nat, capacity: nat)
    requires SkipsPadding(text, options, room) && room <= capacity
    ensures OnePassOutcome(text, options, last, capacity).error == SUCCESS
    ensures OnePassOutcome(text, options, last, capacity).output == Whole(text, options)
    ensures options.garbage && |Content(text, options)| / 4 <= room / 3
  {
    hide SymbolsOf, FirstStop, Decode, Verdict, Decoded, Whole, Content;
    FirstPartFits(text, options, room);
    var s := Content(text, options);
    EndedVerdict(s, last, capacity, Padding(1));
    WholeOfFewer(text, options);
    assert s[..|s|] == s;
  }

  // A call that skips it agrees exactly if it finds nothing to decode.
  lemma SkipAgrees(text: seq<byte>, options: Options, last: LastChunk, room: nat)
    requires SkipsPadding(text, options, room)
    ensures var call := Call(text, options, last, room);
            && (IsOnePass(call, text, options, last, room) <==> AddsNothing(text, options, last, room))
            && Decodes(call.error) && Whole(text, options) <= call.output
            && (call.error == SUCCESS ==> (call.output == Whole(text, options) <==> AddsNothing(text, options, last,
                                                                                                room)))
            && (call.error == SUCCESS <==>
                  VerdictOn(TextBehind(text, options), options, last, true, RoomBehind(text, options, room)) == SUCCESS)
  {
    hide SymbolsOf, FirstStop, Decode, Verdict, Decoded, Whole, Content, TailOf, SplitsPadding;
    SkippedPass(text, options, last, room, room);
    NoSplit(text, options, room);
    var rest, left := TextBehind(text, options), RoomBehind(text, options, room);
    var s, m := Content(rest, options), DecodedOf(rest, options, last, true, left);
    GarbageIsNotBad(s, TailOf(rest, options), last, left);
    DecodedFits(s, TailOf(rest, options), options.garbage, last, true, left);
    assert |Decode(s[..m])| == 0 <==> m < 2;
    assert Whole(text, options) + [] == Whole(text, options);
  }

  // If it runs out of room behind it, something is added, or the room runs out in the end.
  lemma RunAdds(text: seq<byte>, options: Options, last: LastChunk, room: nat, capacity: nat, bufferSize: nat)
    requires options.garbage && bufferSize >= 3 && room < 3
    requires VerdictOn(text, options, last, true, room) == OUTPUT_BUFFER_TOO_SMALL
    ensures var run := Run(text, options, last, capacity, bufferSize);
            run.error == OUTPUT_BUFFER_TOO_SMALL || run.output != []
  {
    hide SymbolsOf, FirstStop, Decode, Verdict, Decoded, Content, SkipsPadding, TailOf, Call;
    CallAdds(text, options, last, room, Least(bufferSize, capacity));
  }

  lemma CallAdds(text: seq<byte>, options: Options, last: LastChunk, room: nat, more: nat)
    requires options.garbage && room < 3 && VerdictOn(text, options, last, true, room) == OUTPUT_BUFFER_TOO_SMALL
    ensures var call := Call(text, options, last, more);
            call.output != [] || (call.error == OUTPUT_BUFFER_TOO_SMALL && more < 3)
  {
    hide SymbolsOf, FirstStop, Decode, Content, TailOf, SplitsPadding, Whole, Ending, Verdict, KeepsPartial;
    var s, tail := Content(text, options), TailOf(text, options);
    NoSplit(text, options, more);
    RunsOut(s, tail, last, room);
    WholeSize(text, options);
    GarbageIsNotBad(s, tail, last, more);
    VerdictKinds(s, tail, true, last, true, more);
    DecodedFits(s, tail, true, last, true, more);
  }

  lemma RunsOut(s: seq<Sextet>, tail: Tail, last: LastChunk, room: nat)
    requires room < 3 && Verdict(s, tail, true, last, true, room) == OUTPUT_BUFFER_TOO_SMALL
    ensures |s| / 4 > 0 || (|s| % 4 >= 2 && !KeepsPartial(|s| % 4, tail.Pads(), last))
  {
    hide ExtraBits;
  }

  // Where garbage is skipped, the calls together give the error and the bytes of one pass, unless
  // the call that meets the end of the text skips a '=' and finds something to decode behind it.
  lemma {:induction false} RunIsOnePass(text: seq<byte>, options: Options, last: LastChunk, capacity: nat,
                                        bufferSize: nat)
    requires bufferSize >= 3 && options.garbage
    ensures IsOnePass(Run(text, options, last, capacity, bufferSize), text, options, last, capacity)
       <==> !RunReadsOn(text, options, last, capacity, bufferSize)
    decreases capacity
  {
    hide *;
    var room := Least(bufferSize, capacity);
    if SkipsPadding(text, options, room) {
      RunSkipsFirst(text, options, last, capacity, bufferSize);
    } else if Call(text, options, last, room).error == OUTPUT_BUFFER_TOO_SMALL && bufferSize < capacity {
      LeastIs(bufferSize, capacity);
      RunIsOnePass(text[Next(text, options, last, bufferSize)..], options, last, capacity - bufferSize / 3 * 3,
                   bufferSize);
      RunBehind(text, options, last, capacity, bufferSize);
    } else {
      RunEnds(text, options, last, capacity, bufferSize);
    }
  }

  lemma LeastIs(a: nat, b: nat)
    ensures Least(a, b) == if a < b then a else b
  {
  }

  lemma RunSkipsFirst(text: seq<byte>, options: Options, last: LastChunk, capacity: nat, bufferSize: nat)
    requires bufferSize >= 3 && options.garbage && SkipsPadding(text, options, Least(bufferSize, capacity))
    ensures IsOnePass(Run(text, options, last, capacity, bufferSize), text, options, last, capacity)
       <==> !RunReadsOn(text, options, last, capacity, bufferSize)
  {
    hide SymbolsOf, Content, FirstStop, TailOf, Canonical, GroupsBefore, Decode, Verdict, Decoded, Call, Next,
      LastStart, LastRoom, VerdictOn, DecodedOf, SkipsPadding, AddsNothing, OnePassOutcome, RoomBehind, Whole;
    var room := Least(bufferSize, capacity);
    SkippedPass(text, options, last, room, room);
    SkippedPass(text, options, last, room, capacity);
    LastIsFirst(text, options, capacity, bufferSize);
    SkipAgrees(text, options, last, room);
    if Call(text, options, last, room).error == OUTPUT_BUFFER_TOO_SMALL && bufferSize < capacity {
      SkipThenAdds(text, options, last, capacity, bufferSize);
    }
  }

  // After a call that ran out of room behind a '=', the bytes are no longer those of one pass.
  lemma SkipThenAdds(text: seq<byte>, options: Options, last: LastChunk, capacity: nat, bufferSize: nat)
    requires bufferSize >= 3 && options.garbage && bufferSize < capacity && SkipsPadding(text, options, bufferSize)
    requires Call(text, options, last, bufferSize).error == OUTPUT_BUFFER_TOO_SMALL
    ensures var run := Run(text, options, last, capacity, bufferSize);
            run.error == OUTPUT_BUFFER_TOO_SMALL || run.output != Whole(text, options)
  {
    hide SymbolsOf, Content, FirstStop, TailOf, Canonical, Decode, Verdict, Decoded, SkipsPadding, Cut, Whole, Call,
      Next, RoomBehind, VerdictOn, DecodedOf;
    SkippedStop(text, options, bufferSize);
    FullSkip(text, options, last, bufferSize);
    var rest, left := TextBehind(text, options), RoomBehind(text, options, bufferSize);
    var s := Content(rest, options);
    assert |Decode(s[..left / 3 * 4])| == 3 * (left / 3 * 4) / 4;
    if left < 3 {
      CanonicalZero(rest, options);
      var later := Run(rest, options, last, capacity - bufferSize / 3 * 3, bufferSize);
      RunAdds(rest, options, last, left, capacity - bufferSize / 3 * 3, bufferSize);
      assert Whole(text, options) + [] == Whole(text, options);
    }
  }

  // A call that skips a '=' and runs out of room.
  lemma FullSkip(text: seq<byte>, options: Options, last: LastChunk, room: nat)
    requires SkipsPadding(text, options, room) && Call(text, options, last, room).error == OUTPUT_BUFFER_TOO_SMALL
    requires FirstStop(text, options) < |text| && FirstStop(text, options) < Cut(room)
    ensures var rest, left := TextBehind(text, options), RoomBehind(text, options, room);
            && VerdictOn(rest, options, last, true, left) == OUTPUT_BUFFER_TOO_SMALL
            && left / 3 * 4 <= |Content(rest, options)|
            && Call(text, options, last, room).output
               == Whole(text, options) + Decode(Content(rest, options)[..left / 3 * 4])
            && Next(text, options, last, room)
               == FirstStop(text, options) + 1 + Canonical(rest, options, left / 3 * 4)
            && text[Next(text, options, last, room)..] == rest[Canonical(rest, options, left / 3 * 4)..]
  {
    hide SymbolsOf, Content, FirstStop, TailOf, Canonical, Decode, Verdict, Decoded, SkipsPadding, Whole,
      SplitsPadding, Cut, RoomBehind;
    NoSplit(text, options, room);
    SkippedStop(text, options, room);
    var rest, left := TextBehind(text, options), RoomBehind(text, options, room);
    var s := Content(rest, options);
    VerdictKinds(s, TailOf(rest, options), options.garbage, last, true, left);
    DecodedFits(s, TailOf(rest, options), options.garbage, last, true, left);
  }

  lemma CanonicalZero(text: seq<byte>, options: Options)
    ensures Canonical(text, options, 0) == 0
  {
  }

  // Behind a full buffer of symbols.
  lemma RunBehind(text: seq<byte>, options: Options, last: LastChunk, capacity: nat, bufferSize: nat)
    requires 3 <= bufferSize < capacity && options.garbage && !SkipsPadding(text, options, bufferSize)
    requires Call(text, options, last, bufferSize).error == OUTPUT_BUFFER_TOO_SMALL
    ensures var rest := text[Next(text, options, last, bufferSize)..];
            var left := capacity - bufferSize / 3 * 3;
            && (IsOnePass(Run(text, options, last, capacity, bufferSize), text, options, last, capacity)
                <==> IsOnePass(Run(rest, options, last, left, bufferSize), rest, options, last, left))
            && (RunReadsOn(text, options, last, capacity, bufferSize)
                <==> RunReadsOn(rest, options, last, left, bufferSize))
  {
    hide SymbolsOf, Content, FirstStop, TailOf, Canonical, Decode, Verdict, Decoded, Call, Next, VerdictOn, DecodedOf,
      RunReadsOn;
    var s, k := Content(text, options), bufferSize / 3;
    var rest := text[Next(text, options, last, bufferSize)..];
    FullCall(text, options, last, bufferSize);
    BehindFullBuffer(text, options, last, capacity, bufferSize);
    GarbageIsDecoded(text, options, last, capacity);
    GarbageIsDecoded(rest, options, last, capacity - k * 3);
    GroupsDecode(s, k, DecodedOf(rest, options, last, true, capacity - k * 3));
    SamePrefix(Decode(s[..4 * k]), Run(rest, options, last, capacity - k * 3, bufferSize).output,
               OnePassOutcome(rest, options, last, capacity - k * 3).output);
  }

  lemma SamePrefix<T>(a: seq<T>, b: seq<T>, c: seq<T>)
    ensures a + b == a + c <==> b == c
  {
    assert (a + b)[|a|..] == b && (a + c)[|a|..] == c;
  }

  lemma GarbageIsDecoded(text: seq<byte>, options: Options, last: LastChunk, capacity: nat)
    requires options.garbage
    ensures Decodes(VerdictOn(text, options, last, true, capacity))
    ensures DecodedOf(text, options, last, true, capacity) <= |Content(text, options)|
  {
    hide Content, TailOf, Verdict, Decoded;
    GarbageIsNotBad(Content(text, options), TailOf(text, options), last, capacity);
    DecodedFits(Content(text, options), TailOf(text, options), true, last, true, capacity);
  }

  lemma RunEnds(text: seq<byte>, options: Options, last: LastChunk, capacity: nat, bufferSize: nat)
    requires bufferSize >= 3 && options.garbage && !SkipsPadding(text, options, Least(bufferSize, capacity))
    requires Call(text, options, last, Least(bufferSize, capacity)).error == OUTPUT_BUFFER_TOO_SMALL ==>
               bufferSize >= capacity
    ensures IsOnePass(Run(text, options, last, capacity, bufferSize), text, options, last, capacity)
    ensures !RunReadsOn(text, options, last, capacity, bufferSize)
  {
    hide SymbolsOf, Content, FirstStop, TailOf, Canonical, GroupsBefore, Decode, Verdict, Decoded, LastStart, LastRoom,
      SkipsPadding, SplitsPadding;
    var room, s, tail := Least(bufferSize, capacity), Content(text, options), TailOf(text, options);
    NoSplit(text, options, room);
    MoreRoomVerdict(s, tail, options.garbage, last, room, capacity);
    if |s| / 4 <= room / 3 {
      LastIsFirst(text, options, capacity, bufferSize);
    } else {
      FullIsNoSplit(text, options, last, room);
    }
  }

  lemma {:induction false} RunDecodes(text: seq<byte>, options: Options, last: LastChunk, capacity: nat,
                                      bufferSize: nat)
    requires bufferSize >= 3 && options.garbage
    ensures Decodes(Run(text, options, last, capacity, bufferSize).error)
    decreases capacity
  {
    hide SymbolsOf, Content, FirstStop, TailOf, VerdictOn, DecodedOf, Next, Whole, SkipsPadding, SplitsPadding,
      RoomBehind, OnePassOutcome;
    var room := Least(bufferSize, capacity);
    NoSplit(text, options, room);
    if SkipsPadding(text, options, room) {
      SkipAgrees(text, options, last, room);
    } else {
      PassDecodes(text, options, last, room);
    }
    if Call(text, options, last, room).error == OUTPUT_BUFFER_TOO_SMALL && bufferSize < capacity {
      RunDecodes(text[Next(text, options, last, bufferSize)..], options, last, capacity - bufferSize / 3 * 3,
                 bufferSize);
    }
  }

  lemma PassDecodes(text: seq<byte>, options: Options, last: LastChunk, room: nat)
    requires options.garbage
    ensures Decodes(OnePassOutcome(text, options, last, room).error)
  {
    hide Content, TailOf, VerdictOn, DecodedOf, FirstStop;
    GarbageIsDecoded(text, options, last, room);
  }

  // ----- Against one call -----

  // With a buffer as large as the output there is one call.
  lemma WideBuffer(text: seq<byte>, options: Options, last: LastChunk, capacity: nat, bufferSize: nat)
    requires bufferSize >= 3 && bufferSize >= capacity
    ensures Run(text, options, last, capacity, bufferSize) == Call(text, options, last, capacity)
    ensures RunSplits(text, options, capacity, bufferSize) <==> SplitsPadding(text, options, capacity)
    ensures RunReadsOn(text, options, last, capacity, bufferSize) <==> ReadsBehind(text, options, last, capacity)
  {
    hide Call, SplitsPadding, Content, LastStart, LastRoom, FirstStop, SkipsPadding, AddsNothing;
    if |Content(text, options)| / 4 <= capacity / 3 {
      LastIsFirst(text, options, capacity, bufferSize);
    } else {
      FullIsNoSplit(text, options, last, capacity);
    }
  }

  // Where garbage is not skipped, the calls report the error of a single call exactly if the cuts
  // of both split a '=', or neither.
  lemma RunAgreesWithCall(text: seq<byte>, options: Options, last: LastChunk, capacity: nat, bufferSize: nat)
    requires bufferSize >= 3 && !options.garbage
    ensures Run(text, options, last, capacity, bufferSize).error == CallVerdict(text, options, last, capacity)
       <==> (RunSplits(text, options, capacity, bufferSize) <==> SplitsPadding(text, options, capacity))
  {
    hide SplitsPadding, RunSplits, Content, FirstStop, VerdictOn;
    RunVerdict(text, options, last, capacity, bufferSize);
    OneCallIsExact(text, options, last, capacity);
    NoGarbage(text, options, capacity);
  }

  // Where garbage is skipped, two cases can agree: neither reads on behind the '=', or both do and
  // nothing further is read on by the calls that follow.
  predicate ReadsAlike(text: seq<byte>, options: Options, last: LastChunk, capacity: nat, bufferSize: nat)
    requires bufferSize >= 3
  {
    if RunReadsOn(text, options, last, capacity, bufferSize) then
      && ReadsBehind(text, options, last, capacity)
      && var rest, left := text[LastStart(text, options, bufferSize)..], LastLeft(text, options, capacity, bufferSize);
         Call(rest, options, last, Least(bufferSize, left)).error == OUTPUT_BUFFER_TOO_SMALL && bufferSize < left ==>
           !RunReadsOn(rest[Next(rest, options, last, bufferSize)..], options, last, left - bufferSize / 3 * 3,
                       bufferSize)
    else !ReadsBehind(text, options, last, capacity)
  }

  // The same error code and the same bytes.
  predicate Same(a: Outcome, b: Outcome) { a.error == b.error && a.output == b.output }

  // The run is decided by the call that meets the end of the text, and those behind it.
  lemma {:induction false} RunFromLast(text: seq<byte>, options: Options, last: LastChunk, capacity: nat,
                                       bufferSize: nat)
    requires bufferSize >= 3 && |Content(text, options)| / 4 * 3 <= capacity
    ensures var s, run := Content(text, options), Run(text, options, last, capacity, bufferSize);
            var rest := text[LastStart(text, options, bufferSize)..];
            var later := Run(rest, options, last, LastLeft(text, options, capacity, bufferSize), bufferSize);
            && run.error == later.error
            && run.output == Decode(s[..4 * GroupsBefore(|s| / 4, bufferSize / 3)]) + later.output
    decreases capacity
  {
    hide SymbolsOf, Content, FirstStop, TailOf, Canonical, Decode, VerdictOn, DecodedOf, LastStart, LastLeft, Call,
      Next, Run, GroupsBefore;
    var s, k := Content(text, options), bufferSize / 3;
    GroupsBeforeNext(|s| / 4, k);
    if |s| / 4 <= k {
      LastIsFirst(text, options, capacity, bufferSize);
      assert Decode(s[..0]) == [];
      assert [] + Run(text, options, last, capacity, bufferSize).output
          == Run(text, options, last, capacity, bufferSize).output;
    } else {
      FullIsNoSplit(text, options, last, bufferSize);
      LastBehind(text, options, last, capacity, bufferSize);
      GroupsLeft(text, options, last, bufferSize);
      RunGoesOn(text, options, last, capacity, bufferSize);
      var c, left := Next(text, options, last, bufferSize), capacity - k * 3;
      RunFromLast(text[c..], options, last, left, bufferSize);
      DecodeJoins(s, k, GroupsBefore(|s| / 4 - k, k),
                  Run(text[LastStart(text, options, bufferSize)..], options, last,
                      LastLeft(text, options, capacity, bufferSize), bufferSize).output);
    }
  }

  lemma DecodeJoins(s: seq<Sextet>, k: nat, n: nat, later: seq<byte>)
    requires 4 * k + 4 * n <= |s|
    ensures Decode(s[..4 * k]) + (Decode(s[4 * k..][..4 * n]) + later) == Decode(s[..4 * (k + n)]) + later
  {
    hide Decode;
    GroupsDecode(s, k, 4 * n);
  }

  lemma RunGoesOn(text: seq<byte>, options: Options, last: LastChunk, capacity: nat, bufferSize: nat)
    requires 3 <= bufferSize < capacity && !SkipsPadding(text, options, bufferSize)
    requires Call(text, options, last, bufferSize).error == OUTPUT_BUFFER_TOO_SMALL
    ensures var s, k, rest := Content(text, options), bufferSize / 3, text[Next(text, options, last, bufferSize)..];
            var run := Run(text, options, last, capacity, bufferSize);
            var later := Run(rest, options, last, capacity - k * 3, bufferSize);
            && 4 * k <= |s| && Content(rest, options) == s[4 * k..]
            && run.error == later.error && run.output == Decode(s[..4 * k]) + later.output
  {
    hide SymbolsOf, Content, FirstStop, TailOf, Canonical, Decode, VerdictOn, DecodedOf, Call, Next, SkipsPadding,
      SplitsPadding;
    FullCall(text, options, last, bufferSize);
    RestOfText(text, options, Next(text, options, last, bufferSize), bufferSize / 3);
  }

  // One pass over a text, continued behind as many groups as some room holds.
  lemma PassBehind(text: seq<byte>, options: Options, last: LastChunk, room: nat, capacity: nat)
    requires options.garbage && room <= capacity
    requires VerdictOn(text, options, last, true, room) == OUTPUT_BUFFER_TOO_SMALL
    ensures var s, k, pass := Content(text, options), room / 3, OnePassOutcome(text, options, last, capacity);
            var rest := text[Canonical(text, options, 4 * k)..];
            && 4 * k <= |s|
            && Same(pass, Outcome(OnePassOutcome(rest, options, last, capacity - 3 * k).error,
                                  Decode(s[..4 * k]) + OnePassOutcome(rest, options, last, capacity - 3 * k).output, 0))
  {
    hide ToBase64, SymbolsOf, FirstStop, TailOf, Content, Decode, Canonical, Verdict, Decoded;
    var s, k, tail := Content(text, options), room / 3, TailOf(text, options);
    VerdictKinds(s, tail, options.garbage, last, true, room);
    DecodedFits(s, tail, options.garbage, last, true, room);
    CanonicalInContent(text, options, 4 * k);
    var c := Canonical(text, options, 4 * k);
    RestOfText(text, options, c, k);
    VerdictBehind(s, k, tail, options.garbage, last, capacity - 3 * k);
    GarbageIsDecoded(text, options, last, capacity);
    GarbageIsDecoded(text[c..], options, last, capacity - 3 * k);
    GroupsDecode(s, k, DecodedOf(text[c..], options, last, true, capacity - 3 * k));
  }

  // What one pass would make of the text behind the '=' in all the room left.
  function PassBehindPad(text: seq<byte>, options: Options, last: LastChunk, left: nat): Outcome
    requires FirstStop(text, options) < |text| && |Content(text, options)| / 4 * 3 <= left
  {
    var pass := OnePassOutcome(TextBehind(text, options), options, last, left - |Content(text, options)| / 4 * 3);
    Outcome(pass.error, Whole(text, options) + pass.output, pass.symbols)
  }

  lemma LastSkipEnds(text: seq<byte>, options: Options, last: LastChunk, left: nat, bufferSize: nat)
    requires bufferSize >= 3 && SkipsPadding(text, options, Least(bufferSize, left))
    requires FirstStop(text, options) < |text| && |Content(text, options)| / 4 * 3 <= left
    requires Call(text, options, last, Least(bufferSize, left)).error == OUTPUT_BUFFER_TOO_SMALL ==>
               bufferSize >= left
    ensures Same(Run(text, options, last, left, bufferSize), PassBehindPad(text, options, last, left))
  {
    hide SymbolsOf, FirstStop, TailOf, Content, Decode, Verdict, Decoded, SkipsPadding, SplitsPadding, Whole, Cut;
    var room := Least(bufferSize, left);
    SkippedStop(text, options, room);
    NoSplit(text, options, room);
    var rest, g := TextBehind(text, options), |Content(text, options)| / 4;
    GarbageIsDecoded(rest, options, last, RoomBehind(text, options, room));
    MoreRoomVerdict(Content(rest, options), TailOf(rest, options), options.garbage, last,
                    RoomBehind(text, options, room), left - g * 3);
  }

  lemma LastSkipGoesOn(text: seq<byte>, options: Options, last: LastChunk, left: nat, bufferSize: nat)
    requires 3 <= bufferSize < left && SkipsPadding(text, options, bufferSize)
    requires FirstStop(text, options) < |text| && |Content(text, options)| / 4 * 3 <= left
    requires Call(text, options, last, bufferSize).error == OUTPUT_BUFFER_TOO_SMALL
    ensures Same(Run(text, options, last, left, bufferSize), PassBehindPad(text, options, last, left))
       <==> !RunReadsOn(text[Next(text, options, last, bufferSize)..], options, last, left - bufferSize / 3 * 3,
                        bufferSize)
  {
    hide SymbolsOf, FirstStop, TailOf, Content, Decode, Verdict, Decoded, SkipsPadding, SplitsPadding, Whole, Cut,
      Canonical, RunReadsOn, VerdictOn, DecodedOf, OnePassOutcome, Call, Next;
    var next, more := Next(text, options, last, bufferSize), left - bufferSize / 3 * 3;
    SkippedStop(text, options, bufferSize);
    FullSkip(text, options, last, bufferSize);
    var rest, room, g := TextBehind(text, options), RoomBehind(text, options, bufferSize), |Content(text, options)| / 4;
    PassBehind(rest, options, last, room, left - g * 3);
    RunIsOnePass(text[next..], options, last, more, bufferSize);
    GroupsIn(g, bufferSize);
    var a, b := Whole(text, options), Decode(Content(rest, options)[..room / 3 * 4]);
    var run, pass := Run(text[next..], options, last, more, bufferSize).output,
                     OnePassOutcome(text[next..], options, last, more).output;
    assert a + (b + pass) == (a + b) + pass;
    SamePrefix(a + b, run, pass);
  }

  lemma GroupsIn(g: nat, room: nat)
    requires g * 3 <= room
    ensures room / 3 * 3 == g * 3 + (room - g * 3) / 3 * 3
  {
  }

  // The last call meets the same '=' as a single call.
  lemma SamePad(text: seq<byte>, options: Options, last: LastChunk, capacity: nat, bufferSize: nat)
    requires bufferSize >= 3 && SkipsPadding(text, options, capacity) && |Content(text, options)| / 4 * 3 <= capacity
    ensures var s, rest := Content(text, options), text[LastStart(text, options, bufferSize)..];
            var gb, left := GroupsBefore(|s| / 4, bufferSize / 3), LastLeft(text, options, capacity, bufferSize);
            && 4 * gb <= |s| && FirstStop(rest, options) < |rest| && |Content(rest, options)| / 4 * 3 <= left
            && Same(Call(text, options, last, capacity),
                    Outcome(PassBehindPad(rest, options, last, left).error,
                            Decode(s[..4 * gb]) + PassBehindPad(rest, options, last, left).output, 0))
  {
    hide SymbolsOf, Content, TailOf, Canonical, Decode, VerdictOn, DecodedOf, GroupsBefore, FirstStop, SplitsPadding,
      SkipsPadding, Cut, OnePassOutcome;
    SkippedStop(text, options, capacity);
    NoSplit(text, options, capacity);
    var s, gb := Content(text, options), GroupsBefore(|Content(text, options)| / 4, bufferSize / 3);
    var start := LastStart(text, options, bufferSize);
    CanonicalInContent(text, options, 4 * gb);
    RestOfText(text, options, start, gb);
    var rest := text[start..];
    Groups(|s| - 4 * gb, gb, 0);
    ErrorBehind(s, gb, []);
    assert TextBehind(rest, options) == TextBehind(text, options);
    var pass := OnePassOutcome(TextBehind(text, options), options, last, capacity - |s| / 4 * 3).output;
    assert Decode(s[..4 * gb]) + (Whole(rest, options) + pass) == (Decode(s[..4 * gb]) + Whole(rest, options)) + pass;
  }

  // Where garbage is skipped, the calls together agree with a single call exactly if they read
  // alike.
  lemma RunAgreesInGarbage(text: seq<byte>, options: Options, last: LastChunk, capacity: nat, bufferSize: nat)
    requires bufferSize >= 3 && options.garbage
    ensures Same(Run(text, options, last, capacity, bufferSize), Call(text, options, last, capacity))
       <==> ReadsAlike(text, options, last, capacity, bufferSize)
  {
    hide *;
    RunIsOnePass(text, options, last, capacity, bufferSize);
    WideBuffer(text, options, last, capacity, 3 + capacity);
    RunIsOnePass(text, options, last, capacity, 3 + capacity);
    OnePassIsSame(Run(text, options, last, capacity, bufferSize), Call(text, options, last, capacity), text, options,
                  last, capacity);
    if RunReadsOn(text, options, last, capacity, bufferSize) && ReadsBehind(text, options, last, capacity) {
      BothReadOn(text, options, last, capacity, bufferSize);
    } else {
      NotBoth(text, options, last, capacity, bufferSize);
    }
  }

  lemma NotBoth(text: seq<byte>, options: Options, last: LastChunk, capacity: nat, bufferSize: nat)
    requires bufferSize >= 3
    requires !(RunReadsOn(text, options, last, capacity, bufferSize) && ReadsBehind(text, options, last, capacity))
    ensures ReadsAlike(text, options, last, capacity, bufferSize)
       <==> !RunReadsOn(text, options, last, capacity, bufferSize) && !ReadsBehind(text, options, last, capacity)
  {
    hide RunReadsOn, ReadsBehind, Call, Next, LastStart, LastLeft;
    if RunReadsOn(text, options, last, capacity, bufferSize) {
      assert !ReadsAlike(text, options, last, capacity, bufferSize);
    }
  }

  lemma OnePassIsSame(a: Outcome, b: Outcome, text: seq<byte>, options: Options, last: LastChunk, capacity: nat)
    ensures IsOnePass(a, text, options, last, capacity) && IsOnePass(b, text, options, last, capacity) ==> Same(a, b)
    ensures Same(a, b) ==>
              (IsOnePass(a, text, options, last, capacity) <==> IsOnePass(b, text, options, last, capacity))
  {
    hide OnePassOutcome;
  }

  lemma BothReadOn(text: seq<byte>, options: Options, last: LastChunk, capacity: nat, bufferSize: nat)
    requires bufferSize >= 3 && RunReadsOn(text, options, last, capacity, bufferSize)
    requires ReadsBehind(text, options, last, capacity)
    ensures Same(Run(text, options, last, capacity, bufferSize), Call(text, options, last, capacity))
       <==> ReadsAlike(text, options, last, capacity, bufferSize)
  {
    hide SymbolsOf, Content, TailOf, Canonical, Decode, VerdictOn, DecodedOf, GroupsBefore, FirstStop, SplitsPadding,
      SkipsPadding, Cut, OnePassOutcome, Call, Next, LastStart, LastLeft, PassBehindPad, AddsNothing, Run;
    var rest, left := text[LastStart(text, options, bufferSize)..], LastLeft(text, options, capacity, bufferSize);
    RunFromLast(text, options, last, capacity, bufferSize);
    SamePad(text, options, last, capacity, bufferSize);
    SamePrefix(Decode(Content(text, options)[..4 * GroupsBefore(|Content(text, options)| / 4, bufferSize / 3)]),
               Run(rest, options, last, left, bufferSize).output, PassBehindPad(rest, options, last, left).output);
    if Call(rest, options, last, Least(bufferSize, left)).error == OUTPUT_BUFFER_TOO_SMALL && bufferSize < left {
      LastSkipGoesOn(rest, options, last, left, bufferSize);
    } else {
      LastSkipEnds(rest, options, last, left, bufferSize);
    }
  }
}
