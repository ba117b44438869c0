/**
  * Decoding with an output limit (include/simdutf/base64_implementation.h): a first part of the
  * text, chosen so that it fits, goes to the fast decoder, and the scalar decoder takes the rest.
  */
module SafeBase64 {
  import opened Base64
  import opened SimdutfBase64
  import opened ScalarBase64

  // ----- The two parts of a text -----

  // The length of the first part: the characters of as many groups as there is room for.
  function Cut(capacity: nat): (cut: nat)
    ensures cut % 4 == 0 && 3 * cut <= 4 * capacity < 3 * cut + 12
  {
    capacity / 3 * 4
  }

  // The cut makes a '=' inside the text look like padding behind a single symbol.
  predicate SplitsPadding(text: seq<byte>, options: Options, capacity: nat)
  {
    var stop, cut := FirstStop(text, options), Cut(capacity);
    && !options.garbage && TailOf(text, options).Bad? && text[stop] == PAD && |Content(text, options)| % 4 == 1
    && stop < cut <= |text| && IsPadding(text[stop..cut])
  }

  // The cut hides from the second part that the text has ended at a '='.
  predicate SkipsPadding(text: seq<byte>, options: Options, capacity: nat)
  {
    var stop, cut, s := FirstStop(text, options), Cut(capacity), Content(text, options);
    && options.garbage && stop < cut < |text| && |s| % 4 <= 1
    && |SymbolsOf(text, options)| > |s|
  }

  // Texts for which neither can happen, whatever the cut: a '=' that is no padding does not follow
  // a single symbol of its group; where garbage is skipped, no symbol follows a '='.
  predicate Regular(text: seq<byte>, options: Options)
  {
    var stop, s := FirstStop(text, options), Content(text, options);
    if options.garbage then |SymbolsOf(text, options)| == |s|
    else TailOf(text, options).Bad? && text[stop] == PAD ==> |s| % 4 != 1
  }

  lemma RegularIsWhole(text: seq<byte>, options: Options, capacity: nat)
    requires Regular(text, options)
    ensures !SplitsPadding(text, options, capacity) && !SkipsPadding(text, options, capacity)
  {
    hide FirstStop, SymbolsOf, TailOf, IsPadding;
  }

  // ----- The contract of one call -----

  // The symbols of the first part fit.
  lemma FirstPartFits(text: seq<byte>, options: Options, capacity: nat)
    requires FirstStop(text, options) < Cut(capacity)
    ensures |Content(text, options)| / 4 * 3 <= capacity
  {
    hide FirstStop, SymbolsOf;
  }

  // The error code of one call.
  function CallVerdict(text: seq<byte>, options: Options, last: LastChunk, capacity: nat): ErrorCode
  {
    if SplitsPadding(text, options, capacity) then BASE64_INPUT_REMAINDER
    else if SkipsPadding(text, options, capacity) then
      FirstPartFits(text, options, capacity);
      VerdictOn(text[FirstStop(text, options) + 1..], options, last, true,
                capacity - |Content(text, options)| / 4 * 3)
    else VerdictOn(text, options, last, true, capacity)
  }

  // The result of one pass.  With decode_up_to_bad_char, everything in front of a bad character is
  // decoded.
  ghost predicate OnePass(text: seq<byte>, options: Options, last: LastChunk, upToBad: bool, capacity: nat,
                          r: FullResult)
  {
    && Allowed(text, options, last, true, capacity, r)
    && (upToBad && r.error == INVALID_BASE64_CHARACTER ==> r.output == Whole(text, options))
  }

  function Whole(text: seq<byte>, options: Options): seq<byte>
  {
    var s := Content(text, options);
    Decode(s[..|s| / 4 * 4])
  }

  // A '=' inside the text was taken for padding.
  ghost predicate Misread(text: seq<byte>, options: Options, capacity: nat, r: FullResult)
  {
    && !Regular(text, options) && !options.garbage
    && VerdictOn(text, options, Loose, true, capacity) == INVALID_BASE64_CHARACTER
    && r.error == BASE64_INPUT_REMAINDER && |r.output| <= capacity
    && r.output <= Decode(Content(text, options))
    && (r.inputCount == Canonical(text, options, |Content(text, options)|) || r.inputCount == FirstStop(text, options))
  }

  // Reading went on behind the '=' that ends the text.  (Where garbage is skipped, nothing is
  // rejected: a call succeeds or runs out of room.)
  ghost predicate ReadOn(text: seq<byte>, options: Options, last: LastChunk, capacity: nat, r: FullResult)
    requires SkipsPadding(text, options, capacity)
  {
    FirstPartFits(text, options, capacity);
    var rest, room := text[FirstStop(text, options) + 1..], capacity - |Content(text, options)| / 4 * 3;
    var m := DecodedOf(rest, options, last, true, room);
    var end := Canonical(text, options, |Content(text, options)| + m);
    && r.error == VerdictOn(rest, options, last, true, room)
    && (r.error == SUCCESS || r.error == OUTPUT_BUFFER_TOO_SMALL)
    && m <= |Content(rest, options)|
    && r.output == Whole(text, options) + Decode(Content(rest, options)[..m])
    && r.inputCount <= |text| && |SymbolsOf(text[..r.inputCount], options)| == |Content(text, options)| + m
    && if r.error == SUCCESS then r.inputCount == |text| || r.inputCount == end
       else r.inputCount == FirstStop(text, options) + 1 + Canonical(rest, options, m)
  }

  // base64_to_binary_safe.
  ghost predicate Safe(text: seq<byte>, options: Options, last: LastChunk, upToBad: bool, capacity: nat, r: FullResult)
  {
    && |r.output| <= capacity && r.inputCount <= |text|
    && if SplitsPadding(text, options, capacity) then Misread(text, options, capacity, r)
       else if SkipsPadding(text, options, capacity) then ReadOn(text, options, last, capacity, r)
       else OnePass(text, options, last, upToBad, capacity, r)
  }

  // ----- Reading on behind whole groups -----

  lemma EndBehind(text: seq<byte>, options: Options, c: nat, k: nat, count: nat)
    requires c <= FirstStop(text, options) && |SymbolsOf(text[..c], options)| == 4 * k
    requires count <= |text| - c && IsEnd(text[c..], options, count) && |Content(text, options)| % 4 != 0
    ensures IsEnd(text, options, c + count)
  {
    hide ToBase64, IsStop, SymbolsOf, IsPadding, CountPads, FirstStop, Canonical, TailOf, IsValid, Content;
    RestOfText(text, options, c, k);
    var rest := text[c..];
    EndHolds(rest, options, count);
    if count == Canonical(rest, options, |Content(rest, options)|) {
      CountBehind(text, options, c, count);
      BehindSymbol(rest, options);
      CanonicalIs(text, options, c + count);
    }
  }

  // The canonical position of all the symbols read is behind a symbol.
  lemma BehindSymbol(text: seq<byte>, options: Options)
    ensures var p := Canonical(text, options, |Content(text, options)|);
            Content(text, options) != [] ==> p > 0 && IsValid(text[p - 1], options)
  {
    hide ToBase64, IsStop, SymbolsOf, FirstStop, Canonical, IsValid;
    assert text[..|text|] == text && text[..0] == [];
    NoText(options);
    SymbolsMonotone(text, options, FirstStop(text, options), |text|);
  }

  // A result on the rest of a text of which k whole groups are decoded is a result on the text.
  lemma Behind(text: seq<byte>, options: Options, last: LastChunk, upToBad: bool, capacity: nat, c: nat, k: nat,
               r: FullResult)
    requires c <= FirstStop(text, options) && |SymbolsOf(text[..c], options)| == 4 * k && 3 * k <= capacity
    requires OnePass(text[c..], options, last, upToBad, capacity - 3 * k, r)
    requires r.error == OUTPUT_BUFFER_TOO_SMALL ==> IsBehindSymbol(text, options, c) || capacity - 3 * k >= 3
    ensures OnePass(text, options, last, upToBad, capacity,
                    FullResult(r.error, c + r.inputCount, Decode(SymbolsOf(text[..c], options)) + r.output))
  {
    hide OnePass;
    if r.error == SUCCESS || r.error == OUTPUT_BUFFER_TOO_SMALL {
      DecodedBehind(text, options, last, upToBad, capacity, c, k, r);
    } else {
      RejectedBehind(text, options, last, upToBad, capacity, c, k, r);
    }
  }

  lemma DecodedBehind(text: seq<byte>, options: Options, last: LastChunk, upToBad: bool, capacity: nat, c: nat, k: nat,
                      r: FullResult)
    requires c <= FirstStop(text, options) && |SymbolsOf(text[..c], options)| == 4 * k && 3 * k <= capacity
    requires OnePass(text[c..], options, last, upToBad, capacity - 3 * k, r)
    requires r.error == SUCCESS || r.error == OUTPUT_BUFFER_TOO_SMALL
    requires r.error == OUTPUT_BUFFER_TOO_SMALL ==> IsBehindSymbol(text, options, c) || capacity - 3 * k >= 3
    ensures OnePass(text, options, last, upToBad, capacity,
                    FullResult(r.error, c + r.inputCount, Decode(SymbolsOf(text[..c], options)) + r.output))
  {
    hide SymbolsOf, Content, FirstStop, Canonical, TailOf, VerdictOn, DecodedOf, Decode, IsEnd, ConsumesPadding, Whole,
      IsBehindSymbol;
    SameReading(text, options, last, capacity, c, k);
    CountBehind(text, options, c, r.inputCount);
    GroupsDecode(Content(text, options), k, DecodedOf(text[c..], options, last, true, capacity - 3 * k));
    if r.error == OUTPUT_BUFFER_TOO_SMALL {
      FullBehind(text, options, last, capacity, c, k, r);
    }
  }

  lemma SameReading(text: seq<byte>, options: Options, last: LastChunk, capacity: nat, c: nat, k: nat)
    requires c <= FirstStop(text, options) && |SymbolsOf(text[..c], options)| == 4 * k && 3 * k <= capacity
    ensures var s, rest := Content(text, options), text[c..];
            && 4 * k <= |s| && Content(rest, options) == s[4 * k..] && SymbolsOf(text[..c], options) == s[..4 * k]
            && FirstStop(rest, options) == FirstStop(text, options) - c
            && VerdictOn(rest, options, last, true, capacity - 3 * k) == VerdictOn(text, options, last, true, capacity)
            && 4 * k + DecodedOf(rest, options, last, true, capacity - 3 * k)
               == DecodedOf(text, options, last, true, capacity)
            && ConsumesPadding(rest, options, last) == ConsumesPadding(text, options, last)
  {
    hide SymbolsOf, Content, FirstStop, TailOf, Verdict, Decoded, KeepsPartial;
    var s := Content(text, options);
    RestOfText(text, options, c, k);
    VerdictBehind(s, k, TailOf(text, options), options.garbage, last, capacity - 3 * k);
    SameIndex(|s|, k);
  }

  lemma FullBehind(text: seq<byte>, options: Options, last: LastChunk, capacity: nat, c: nat, k: nat, r: FullResult)
    requires c <= |text| && |SymbolsOf(text[..c], options)| == 4 * k && 3 * k <= capacity
    requires Allowed(text[c..], options, last, true, capacity - 3 * k, r) && r.error == OUTPUT_BUFFER_TOO_SMALL
    requires IsBehindSymbol(text, options, c) || capacity - 3 * k >= 3
    ensures c + r.inputCount
         == Canonical(text, options, 4 * k + DecodedOf(text[c..], options, last, true, capacity - 3 * k))
  {
    hide SymbolsOf, Content, FirstStop, Canonical, TailOf, Verdict, Decoded, Decode, IsBehindSymbol;
    var rest := text[c..];
    VerdictKinds(Content(rest, options), TailOf(rest, options), options.garbage, last, true, capacity - 3 * k);
    PrefixCount(rest, options, r.inputCount);
    CanonicalBehind(text, options, c, (capacity - 3 * k) / 3 * 4);
  }

  lemma PrefixCount(text: seq<byte>, options: Options, count: nat)
    requires count <= |text|
    ensures |SymbolsOf(text[..count], options)| <= |SymbolsOf(text, options)|
  {
    hide SymbolsOf;
    assert text[..|text|] == text;
    SymbolsMonotone(text, options, count, |text|);
  }

  lemma RejectedBehind(text: seq<byte>, options: Options, last: LastChunk, upToBad: bool, capacity: nat, c: nat, k: nat,
                       r: FullResult)
    requires c <= FirstStop(text, options) && |SymbolsOf(text[..c], options)| == 4 * k && 3 * k <= capacity
    requires OnePass(text[c..], options, last, upToBad, capacity - 3 * k, r)
    requires r.error != SUCCESS && r.error != OUTPUT_BUFFER_TOO_SMALL
    ensures OnePass(text, options, last, upToBad, capacity,
                    FullResult(r.error, c + r.inputCount, Decode(SymbolsOf(text[..c], options)) + r.output))
  {
    hide SymbolsOf, Content, FirstStop, Canonical, TailOf, Verdict, Decoded, Decode, IsEnd, KeepsPartial;
    var s := Content(text, options);
    RestOfText(text, options, c, k);
    VerdictBehind(s, k, TailOf(text, options), options.garbage, last, capacity - 3 * k);
    VerdictKinds(s, TailOf(text, options), options.garbage, last, true, capacity);
    ErrorBehind(s, k, r.output);
    if r.error != INVALID_BASE64_CHARACTER {
      EndBehind(text, options, c, k, r.inputCount);
    }
  }

  lemma ErrorBehind(s: seq<Sextet>, k: nat, output: seq<byte>)
    requires 4 * k <= |s| && output <= Decode(s[4 * k..])
    ensures Decode(s[..4 * k]) + output <= Decode(s) && |Decode(s[..4 * k])| == 3 * k
    ensures |s[4 * k..]| % 4 == |s| % 4
    ensures Decode(s[..4 * k]) + Decode(s[4 * k..][..|s[4 * k..]| / 4 * 4]) == Decode(s[..|s| / 4 * 4])
  {
    hide Decode;
    assert s == s[..4 * k] + s[4 * k..];
    DecodeConcat(s[..4 * k], s[4 * k..]);
    GroupsDecode(s, k, |s[4 * k..]| / 4 * 4);
  }

  // ----- The first part -----

  lemma FirstPart(text: seq<byte>, options: Options, cut: nat)
    requires cut <= |text|
    ensures var part, stop := text[..cut], FirstStop(text, options);
            && FirstStop(part, options) == (if stop < cut then stop else cut)
            && (forall count :: 0 <= count <= cut ==> part[..count] == text[..count])
            && Content(part, options) == (if stop < cut then Content(text, options) else SymbolsOf(part, options))
            && (stop >= cut ==> TailOf(part, options) == End)
            && (stop < cut && options.garbage ==> TailOf(part, options) == Padding(1))
            && (stop < cut && !options.garbage ==>
                  TailOf(part, options) == if text[stop] == PAD && IsPadding(text[stop..cut])
                                           then Padding(CountPads(text[stop..cut])) else Bad)
            && (TailOf(text, options).Padding? && stop < cut && !options.garbage ==>
                  TailOf(part, options).Padding? && 1 <= TailOf(part, options).pads <= TailOf(text, options).pads <= 2)
  {
    hide ToBase64, IsStop, SymbolsOf, IsPadding, CountPads, FirstStop;
    var part, stop := text[..cut], FirstStop(text, options);
    FirstStopIs(part, if stop < cut then stop else cut, options);
    assert part[..cut] == part;
    assert forall count :: 0 <= count <= cut ==> part[..count] == text[..count];
    if stop < cut {
      assert part[stop..] == text[stop..cut];
      if TailOf(text, options).Padding? && !options.garbage {
        assert text[stop..] == text[stop..cut] + text[cut..];
        PaddingPrefix(text[stop..cut], text[cut..]);
        PadsOf(text[stop..cut]);
        PadsOf(text[stop..]);
      }
    }
  }

  lemma PadsOf(a: seq<byte>)
    requires IsPadding(a)
    ensures 1 <= CountPads(a) <= 2
  {
  }

  // Symbols in the first part never run out of room.
  lemma Fits(n: nat, capacity: nat)
    requires n <= Cut(capacity)
    ensures n / 4 <= capacity / 3 && 3 * n / 4 <= capacity
    ensures n % 4 >= 2 ==> 3 * (n / 4) + n % 4 - 1 <= capacity
  {
  }

  // If the first part is rejected, so is the text, at the same place; only a '=' inside the text
  // may be misread.
  lemma FirstFails(text: seq<byte>, options: Options, last: LastChunk, capacity: nat, r: FullResult)
    requires Cut(capacity) < |text| && Details(text[..Cut(capacity)], options, OnlyFullChunks, r) && r.error != SUCCESS
    ensures Safe(text, options, last, false, capacity, r)
    ensures !options.garbage && !SkipsPadding(text, options, capacity)
    ensures r.error == INVALID_BASE64_CHARACTER ==> !SplitsPadding(text, options, capacity)
  {
    hide ToBase64, SymbolsOf, IsPadding, CountPads, FirstStop, Canonical, TailOf, Decode, ExtraBits, Verdict, Content;
    var cut, s := Cut(capacity), Content(text, options);
    FirstPart(text, options, cut);
    FirstPartLimits(text, options, capacity, r);
    FirstVerdict(s, TailOf(text[..cut], options), TailOf(text, options), last, capacity);
    FirstVerdict(s, TailOf(text[..cut], options), TailOf(text, options), Loose, capacity);
  }

  // The verdict on the first part, if it is an error, is that on the text.
  lemma FirstVerdict(s: seq<Sextet>, first: Tail, tail: Tail, last: LastChunk, capacity: nat)
    requires Verdict(s, first, false, OnlyFullChunks, false, 0) != SUCCESS && |s| <= Cut(capacity)
    requires tail.Padding? ==> first.Padding? && 1 <= first.pads <= tail.pads <= 2
    requires (tail.End? ==> first.End?) && (first.Padding? ==> 1 <= first.pads <= 2)
    ensures var e := Verdict(s, first, false, OnlyFullChunks, false, 0);
            && e == (if first.Padding? && |s| % 4 == 1 then BASE64_INPUT_REMAINDER else INVALID_BASE64_CHARACTER)
            && (tail.Padding? ==> Verdict(s, tail, false, last, true, capacity) == e)
            && (tail.Bad? ==> Verdict(s, tail, false, last, true, capacity) == INVALID_BASE64_CHARACTER)
            && !tail.End?
  {
    hide ExtraBits;
    Fits(|s|, capacity);
  }

  lemma FirstPartLimits(text: seq<byte>, options: Options, capacity: nat, r: FullResult)
    requires Cut(capacity) < |text| && Details(text[..Cut(capacity)], options, OnlyFullChunks, r) && r.error != SUCCESS
    ensures !options.garbage && FirstStop(text, options) < Cut(capacity) && |r.output| <= capacity
    ensures |Content(text, options)| <= Cut(capacity)
    ensures Content(text[..Cut(capacity)], options) == Content(text, options)
    ensures r.error == BASE64_INPUT_REMAINDER ==>
              || r.inputCount == Canonical(text, options, |Content(text, options)|)
              || r.inputCount == FirstStop(text, options)
    ensures r.error == BASE64_INPUT_REMAINDER && TailOf(text, options).Padding? ==> IsEnd(text, options, r.inputCount)
    ensures r.error == INVALID_BASE64_CHARACTER ==> r.inputCount == FirstStop(text, options)
    ensures r.error == INVALID_BASE64_CHARACTER || r.error == BASE64_INPUT_REMAINDER
  {
    hide ToBase64, SymbolsOf, IsPadding, CountPads, FirstStop, Canonical, TailOf, Decode, ExtraBits;
    var cut, part := Cut(capacity), text[..Cut(capacity)];
    FirstPart(text, options, cut);
    Fits(|Content(part, options)|, capacity);
    if r.error == BASE64_INPUT_REMAINDER {
      EndHolds(part, options, r.inputCount);
      SamePosition(text, options, cut);
    }
  }

  lemma SamePosition(text: seq<byte>, options: Options, cut: nat)
    requires FirstStop(text, options) < cut <= |text| && Content(text, options) != []
    ensures var n := |Content(text, options)|;
            Canonical(text[..cut], options, n) == Canonical(text, options, n)
  {
    hide ToBase64, SymbolsOf, IsPadding, CountPads, FirstStop, Canonical, TailOf, IsStop, IsValid;
    var n, part := |Content(text, options)|, text[..cut];
    FirstPart(text, options, cut);
    var p := Canonical(part, options, n);
    SymbolsMonotone(part, options, FirstStop(text, options), cut);
    assert part[..cut] == part && part[..0] == [];
    NoText(options);
    CanonicalIs(text, options, p);
  }

  // The first part is the whole text: there is room for everything.
  lemma FirstIsAll(text: seq<byte>, options: Options, last: LastChunk, capacity: nat, r: FullResult)
    requires |text| <= Cut(capacity) && Details(text, options, last, r)
    ensures Safe(text, options, last, false, capacity, r)
    ensures !SplitsPadding(text, options, capacity) && !SkipsPadding(text, options, capacity)
  {
    hide ToBase64, SymbolsOf, IsPadding, CountPads, FirstStop, Canonical, TailOf, Decode, ExtraBits, IsEnd;
    var s := Content(text, options);
    Fits(|s|, capacity);
    AllFits(s, TailOf(text, options), options.garbage, last, capacity);
    if SplitsPadding(text, options, capacity) {
      WholeTail(text, options);
    }
  }

  lemma WholeTail(text: seq<byte>, options: Options)
    requires TailOf(text, options).Bad? && !options.garbage && text[FirstStop(text, options)] == PAD
    ensures !IsPadding(text[FirstStop(text, options)..|text|])
  {
    var stop := FirstStop(text, options);
    assert text[stop..|text|] == text[stop..];
  }

  lemma AllFits(s: seq<Sextet>, tail: Tail, garbage: bool, last: LastChunk, capacity: nat)
    requires |s| <= Cut(capacity)
    ensures Verdict(s, tail, garbage, last, true, capacity) == Verdict(s, tail, garbage, last, false, 0)
    ensures Verdict(s, tail, garbage, last, false, 0) != OUTPUT_BUFFER_TOO_SMALL
    ensures Decoded(s, tail, garbage, last, true, capacity) == Decoded(s, tail, garbage, last, false, 0)
  {
    hide ExtraBits;
    Fits(|s|, capacity);
  }

  // After a success on the first part: whole groups are decoded, or the text has ended at a '='.
  lemma FirstGoesOn(text: seq<byte>, options: Options, capacity: nat, r: FullResult)
    requires Cut(capacity) < |text| && Details(text[..Cut(capacity)], options, OnlyFullChunks, r) && r.error == SUCCESS
    ensures !SplitsPadding(text, options, capacity) && r.inputCount <= Cut(capacity) && |r.output| <= capacity
    ensures var stop, s := FirstStop(text, options), Content(text, options);
            if options.garbage && stop < Cut(capacity) && |s| % 4 <= 1 then
              r.inputCount == stop + 1 && r.output == Whole(text, options) && |r.output| == |s| / 4 * 3
            else
              && !SkipsPadding(text, options, capacity)
              && r.inputCount <= stop && |SymbolsOf(text[..r.inputCount], options)| % 4 == 0
              && r.output == Decode(SymbolsOf(text[..r.inputCount], options))
              && |r.output| == |SymbolsOf(text[..r.inputCount], options)| / 4 * 3
              && (IsBehindSymbol(text, options, r.inputCount) || capacity - |r.output| >= 3)
  {
    hide ToBase64, SymbolsOf, IsPadding, CountPads, FirstStop, Canonical, TailOf, Decode, ExtraBits, IsEnd;
    var cut, part, stop := Cut(capacity), text[..Cut(capacity)], FirstStop(text, options);
    FirstPart(text, options, cut);
    var s := Content(part, options);
    Fits(|s|, capacity);
    var n := |SymbolsOf(part[..r.inputCount], options)|;
    if r.inputCount <= FirstStop(part, options) {
      SymbolsMonotone(part, options, r.inputCount, FirstStop(part, options));
      assert SymbolsOf(part[..r.inputCount], options) == s[..n];
    } else {
      SymbolsMonotone(part, options, FirstStop(part, options), r.inputCount);
    }
    WholeGroups(|s|);
    assert s[..|s|] == s;
    if |s| % 4 <= 1 {
      DecodeFewer(s);
    }
    FullOfSymbols(text, options, capacity, r.inputCount);
  }

  // If the room is used up, the first part consists of symbols.
  lemma FullOfSymbols(text: seq<byte>, options: Options, capacity: nat, count: nat)
    requires count <= Cut(capacity) <= |text|
    ensures IsBehindSymbol(text, options, count) || capacity - |SymbolsOf(text[..count], options)| / 4 * 3 >= 3
  {
    hide SymbolsOf, IsValid;
    if !IsBehindSymbol(text, options, count) {
      Ignored(text, options, count - 1);
    }
  }

  lemma WholeGroups(n: nat)
    ensures n / 4 * 4 % 4 == 0 && 3 * (n / 4 * 4) / 4 == n / 4 * 3 && n / 4 * 4 / 4 * 3 == n / 4 * 3
    ensures n % 4 == 0 ==> n / 4 * 4 == n
  {
  }

  // A single symbol of a group decodes to nothing.
  lemma DecodeFewer(s: seq<Sextet>)
    requires |s| % 4 <= 1
    ensures Decode(s) == Decode(s[..|s| / 4 * 4])
  {
    hide Decode;
    DecodePrefix(s, |s| / 4 * 4);
    DecodedBytes(|s|);
    DecodedBytes(|s| / 4 * 4);
    WholeGroups(|s|);
  }

  // ----- The call -----

  // slow_base64_to_binary_safe_impl, which is called for a text with a bad character.
  method SlowDecode(text: seq<byte>, options: Options, last: LastChunk, capacity: nat) returns (r: FullResult)
    ensures VerdictOn(text, options, last, true, capacity) == INVALID_BASE64_CHARACTER ==>
              r == FullResult(INVALID_BASE64_CHARACTER, FirstStop(text, options), Whole(text, options))
  {
    hide ToBase64, FirstStop, SymbolsOf, Decode, TailResult, EndFound, TailOf, Verdict, IsEnd, Exact;
    var length, pads, equalLocation, fullLength := FindEnd(text, options);
    EndBounds(text, options, length, pads, equalLocation, fullLength);
    if length == 0 {
      NoBody(text, options, last, true, capacity, pads, equalLocation, fullLength);
      EmptyVerdict(text, options, last, capacity, pads, equalLocation, fullLength);
      if !options.garbage && pads > 0 {
        return FullResult(INVALID_BASE64_CHARACTER, equalLocation, []);
      }
      return FullResult(SUCCESS, 0, []);
    }
    var flag;
    r, flag := TailDecode(text[..length], pads, options, last, true, capacity);
    TailMeans(text, options, last, true, capacity, length, pads, equalLocation, fullLength, r, flag);
    if flag {
      r := r.(inputCount := equalLocation);
    }
    if r.error == SUCCESS && (!last.IsPartial() || |r.output| % 3 != 0) {
      r := r.(inputCount := fullLength);
    }
    if !last.IsPartial() && r.error == SUCCESS && pads > 0 && (|r.output| % 3 == 0 || |r.output| % 3 + 1 + pads != 4) {
      r := r.(error := INVALID_BASE64_CHARACTER);
    }
  }

  lemma EmptyVerdict(text: seq<byte>, options: Options, last: LastChunk, capacity: nat, pads: nat, equalLocation: nat,
                     fullLength: nat)
    requires EndFound(text, options, 0, pads, equalLocation, fullLength)
    requires Exact(text, options, last, true, capacity,
                   if !options.garbage && pads > 0 then FullResult(INVALID_BASE64_CHARACTER, equalLocation, [])
                   else FullResult(SUCCESS, fullLength, []))
    ensures VerdictOn(text, options, last, true, capacity) == INVALID_BASE64_CHARACTER ==>
              !options.garbage && pads > 0 && equalLocation == FirstStop(text, options) && Whole(text, options) == []
  {
    hide ToBase64, FirstStop, SymbolsOf, Decode, EndFound, TailOf, Verdict, IsEnd;
  }

  lemma SlowIsSafe(text: seq<byte>, options: Options, last: LastChunk, capacity: nat, r: FullResult)
    requires Safe(text, options, last, false, capacity, r) && r.error == INVALID_BASE64_CHARACTER
    requires !SplitsPadding(text, options, capacity) && !SkipsPadding(text, options, capacity)
    ensures VerdictOn(text, options, last, true, capacity) == INVALID_BASE64_CHARACTER
    ensures Safe(text, options, last, true, capacity,
                 FullResult(INVALID_BASE64_CHARACTER, FirstStop(text, options), Whole(text, options)))
  {
    hide ToBase64, FirstStop, SymbolsOf, Decode, TailOf, IsEnd, SplitsPadding, SkipsPadding, ExtraBits;
    var s := Content(text, options);
    DecodePrefix(s, |s| / 4 * 4);
    GroupsInRoom(|s|, capacity);
  }

  lemma GroupsInRoom(n: nat, capacity: nat)
    ensures n / 4 <= capacity / 3 ==> 3 * (n / 4 * 4) / 4 <= capacity
  {
  }

  // Nothing but characters to be ignored follows the '='.
  lemma NothingFollows(text: seq<byte>, options: Options, last: LastChunk, upToBad: bool, capacity: nat, r: FullResult)
    requires var stop, s := FirstStop(text, options), Content(text, options);
             && options.garbage && stop < Cut(capacity) && stop < |text| && |s| % 4 <= 1
             && |SymbolsOf(text, options)| == |s| && |s| / 4 * 3 <= capacity
             && Allowed(text[stop + 1..], options, last, true, capacity - |s| / 4 * 3, r)
    ensures var c := FirstStop(text, options) + 1;
            OnePass(text, options, last, upToBad, capacity,
                    FullResult(r.error, c + r.inputCount, Whole(text, options) + r.output))
    ensures r.error == SUCCESS
  {
    hide ToBase64, FirstStop, SymbolsOf, TailOf, Canonical, IsEnd, Verdict, Decoded, Decode, IsValid, IsStop, Content,
      Whole;
    var stop, s := FirstStop(text, options), Content(text, options);
    NoSymbolFollows(text, options, r.inputCount);
    NoSymbolsLeft(text[stop + 1..], options, last, capacity - |s| / 4 * 3, r);
    EndedVerdict(s, last, capacity, Padding(1));
    WholeOfFewer(text, options);
    assert s[..|s|] == s && Whole(text, options) + r.output == Whole(text, options);
  }

  lemma WholeOfFewer(text: seq<byte>, options: Options)
    requires |Content(text, options)| % 4 <= 1
    ensures Whole(text, options) == Decode(Content(text, options))
    ensures |Whole(text, options)| == |Content(text, options)| / 4 * 3
  {
    hide Content, Decode;
    DecodeFewer(Content(text, options));
    WholeGroups(|Content(text, options)|);
  }

  lemma NoSymbolFollows(text: seq<byte>, options: Options, count: nat)
    requires var stop := FirstStop(text, options);
             options.garbage && stop + 1 + count <= |text| && |SymbolsOf(text, options)| == |Content(text, options)|
    ensures var stop := FirstStop(text, options);
            && SymbolsOf(text[stop + 1..], options) == []
            && |SymbolsOf(text[..stop + 1 + count], options)| == |Content(text, options)|
  {
    hide ToBase64, FirstStop, SymbolsOf, TailOf, IsValid, IsStop;
    var stop := FirstStop(text, options);
    BehindStop(text, options, stop + 1);
    SplitSymbols(text, stop + 1, options);
    CountBehind(text, options, stop + 1, count);
    var rest := text[stop + 1..];
    assert rest[..|rest|] == rest;
    SymbolsMonotone(rest, options, count, |rest|);
  }

  lemma NoSymbolsLeft(text: seq<byte>, options: Options, last: LastChunk, capacity: nat, r: FullResult)
    requires options.garbage && SymbolsOf(text, options) == [] && Allowed(text, options, last, true, capacity, r)
    ensures r.error == SUCCESS && r.output == []
  {
    hide ToBase64, FirstStop, SymbolsOf, TailOf, Canonical, IsEnd, Verdict, Decoded, Decode;
    assert text[..|text|] == text;
    SymbolsMonotone(text, options, FirstStop(text, options), |text|);
    assert Content(text, options) == [];
    EndedVerdict([], last, capacity, TailOf(text, options));
    DecodeFewer([]);
  }

  lemma EndedVerdict(s: seq<Sextet>, last: LastChunk, capacity: nat, tail: Tail)
    requires |s| % 4 <= 1 && |s| / 4 * 3 <= capacity && (tail == Padding(1) || (s == [] && !tail.Bad?))
    ensures Verdict(s, tail, true, last, true, capacity) == SUCCESS
    ensures Decoded(s, tail, true, last, true, capacity) == |s|
  {
    hide ExtraBits;
  }

  lemma SteppedBack(text: seq<byte>, options: Options, last: LastChunk, upToBad: bool, capacity: nat, r: FullResult,
                    p: nat)
    requires OnePass(text, options, last, upToBad, capacity, r)
    requires p == r.inputCount || (r.error == SUCCESS && r.inputCount < |text| && p <= |text|
                                   && |SymbolsOf(text[..p], options)| == |SymbolsOf(text[..r.inputCount], options)|)
    ensures OnePass(text, options, last, upToBad, capacity, r.(inputCount := p))
  {
    hide ToBase64, FirstStop, SymbolsOf, Decode, TailOf, IsEnd, Verdict, Decoded, Canonical;
  }

  // Without a bad character the option makes no difference.
  lemma NotBad(text: seq<byte>, options: Options, last: LastChunk, upToBad: bool, capacity: nat, r: FullResult)
    requires Safe(text, options, last, false, capacity, r) && !(upToBad && r.error == INVALID_BASE64_CHARACTER)
    ensures Safe(text, options, last, upToBad, capacity, r)
  {
    hide Allowed, SplitsPadding, SkipsPadding, ReadOn;
  }

  lemma NotUpToBad(text: seq<byte>, options: Options, last: LastChunk, upToBad: bool, capacity: nat, r: FullResult)
    requires Safe(text, options, last, upToBad, capacity, r)
    ensures Safe(text, options, last, false, capacity, r)
  {
    hide Allowed, SplitsPadding, SkipsPadding, ReadOn;
  }

  lemma GarbageIsNotBad(s: seq<Sextet>, tail: Tail, last: LastChunk, capacity: nat)
    requires !tail.Bad?
    ensures var e := Verdict(s, tail, true, last, true, capacity);
            e == SUCCESS || e == OUTPUT_BUFFER_TOO_SMALL
  {
    hide ExtraBits;
  }

  // The scalar decoder takes the rest.
  method SecondPart(text: seq<byte>, options: Options, last: LastChunk, ghost upToBad: bool, capacity: nat,
                    first: FullResult)
    returns (r: FullResult)
    requires Cut(capacity) < |text| && Details(text[..Cut(capacity)], options, OnlyFullChunks, first)
    requires first.error == SUCCESS
    ensures Safe(text, options, last, upToBad, capacity, r)
    ensures r.error == INVALID_BASE64_CHARACTER ==>
              !SplitsPadding(text, options, capacity) && !SkipsPadding(text, options, capacity)
  {
    hide ToBase64, FirstStop, SymbolsOf, Decode, TailOf, IsEnd, Verdict, Decoded, Canonical, Details, Cut, IsStop,
      SplitsPadding, OnePass, ReadOn, Whole, Safe, IsBehindSymbol, Allowed;
    FirstGoesOn(text, options, capacity, first);
    var c, room := first.inputCount, capacity - |first.output|;
    var rest := WholeDecode(text[c..], options, last, true, room);
    ExactIsOnePass(text[c..], options, last, upToBad, room, rest);
    OnePassLimits(text[c..], options, last, upToBad, room, rest);
    var position := c + rest.inputCount;
    if rest.error == SUCCESS && position < |text| {
      position := StepBack(text, options, position);
    }
    r := FullResult(rest.error, position, first.output + rest.output);
    var stop, s := FirstStop(text, options), Content(text, options);
    if options.garbage && stop < Cut(capacity) && |s| % 4 <= 1 {
      BehindTheEnd(text, options, last, upToBad, capacity, rest, position);
    } else {
      BehindGroups(text, options, last, upToBad, capacity, c, rest, position);
    }
  }

  // The first part was whole groups.
  lemma BehindGroups(text: seq<byte>, options: Options, last: LastChunk, upToBad: bool, capacity: nat, c: nat,
                     rest: FullResult, position: nat)
    requires !SplitsPadding(text, options, capacity) && !SkipsPadding(text, options, capacity)
    requires c <= FirstStop(text, options) && |SymbolsOf(text[..c], options)| % 4 == 0
    requires var n := |SymbolsOf(text[..c], options)| / 4 * 3;
             && n <= capacity && (IsBehindSymbol(text, options, c) || capacity - n >= 3)
             && OnePass(text[c..], options, last, upToBad, capacity - n, rest) && rest.inputCount <= |text| - c
    requires var end := c + rest.inputCount;
             || position == end
             || (rest.error == SUCCESS && end < |text| && position <= |text|
                 && |SymbolsOf(text[..position], options)| == |SymbolsOf(text[..end], options)|)
    ensures Safe(text, options, last, upToBad, capacity,
                 FullResult(rest.error, position, Decode(SymbolsOf(text[..c], options)) + rest.output))
  {
    hide FirstStop, SymbolsOf, Decode, SplitsPadding, SkipsPadding, Canonical, OnePass, IsBehindSymbol;
    var end, output := c + rest.inputCount, Decode(SymbolsOf(text[..c], options)) + rest.output;
    Behind(text, options, last, upToBad, capacity, c, |SymbolsOf(text[..c], options)| / 4, rest);
    SteppedBack(text, options, last, upToBad, capacity, FullResult(rest.error, end, output), position);
    OnePassLimits(text, options, last, upToBad, capacity, FullResult(rest.error, end, output));
  }

  lemma OnePassLimits(text: seq<byte>, options: Options, last: LastChunk, upToBad: bool, capacity: nat, r: FullResult)
    requires OnePass(text, options, last, upToBad, capacity, r)
    ensures |r.output| <= capacity && r.inputCount <= |text|
  {
    hide FirstStop, SymbolsOf, Decode, Content, TailOf, Canonical;
  }

  lemma ExactIsOnePass(text: seq<byte>, options: Options, last: LastChunk, upToBad: bool, capacity: nat, r: FullResult)
    requires Exact(text, options, last, true, capacity, r)
    ensures OnePass(text, options, last, upToBad, capacity, r)
  {
    hide Allowed, FirstStop, SymbolsOf, Decode, FinalCount, DecodedOf;
  }

  // The first part has ended at a '='.
  lemma BehindTheEnd(text: seq<byte>, options: Options, last: LastChunk, upToBad: bool, capacity: nat, rest: FullResult,
                     position: nat)
    requires var stop, s := FirstStop(text, options), Content(text, options);
             && options.garbage && stop < Cut(capacity) < |text| && |s| % 4 <= 1 && |s| / 4 * 3 <= capacity
             && Allowed(text[stop + 1..], options, last, true, capacity - |s| / 4 * 3, rest)
    requires var end := FirstStop(text, options) + 1 + rest.inputCount;
             position == if rest.error == SUCCESS && end < |text|
                         then Canonical(text, options, |SymbolsOf(text[..end], options)|) else end
    ensures Safe(text, options, last, upToBad, capacity,
                 FullResult(rest.error, position, Whole(text, options) + rest.output))
    ensures rest.error != INVALID_BASE64_CHARACTER
  {
    hide ToBase64, FirstStop, SymbolsOf, TailOf, IsEnd, Verdict, Decode, Canonical, Content, OnePass, ReadOn,
      SplitsPadding, Whole, Allowed;
    var end := FirstStop(text, options) + 1 + rest.inputCount;
    RestIsGood(text[FirstStop(text, options) + 1..], options, last, capacity - |Content(text, options)| / 4 * 3, rest);
    PrefixCount(text, options, end);
    NoSplit(text, options, capacity);
    WholeSize(text, options);
    if SkipsPadding(text, options, capacity) {
      ReadsOn(text, options, last, capacity, rest, position);
    } else {
      AtLeast(text, options);
      NothingFollows(text, options, last, upToBad, capacity, rest);
      SteppedBack(text, options, last, upToBad, capacity,
                  FullResult(rest.error, end, Whole(text, options) + rest.output), position);
    }
  }

  lemma RestIsGood(text: seq<byte>, options: Options, last: LastChunk, capacity: nat, r: FullResult)
    requires options.garbage && Allowed(text, options, last, true, capacity, r)
    ensures r.error == SUCCESS || r.error == OUTPUT_BUFFER_TOO_SMALL
    ensures |r.output| <= capacity && r.inputCount <= |text|
    ensures var m := DecodedOf(text, options, last, true, capacity);
            && r.error == VerdictOn(text, options, last, true, capacity)
            && |SymbolsOf(text[..r.inputCount], options)| == m <= |Content(text, options)|
            && r.output == Decode(Content(text, options)[..m])
            && (r.error == OUTPUT_BUFFER_TOO_SMALL ==> r.inputCount == Canonical(text, options, m))
  {
    hide ToBase64, FirstStop, SymbolsOf, TailOf, IsEnd, Verdict, Decode, Canonical, Content, Decoded;
    GarbageIsNotBad(Content(text, options), TailOf(text, options), last, capacity);
  }

  lemma NoSplit(text: seq<byte>, options: Options, capacity: nat)
    ensures options.garbage ==> !SplitsPadding(text, options, capacity)
  {
    hide FirstStop, SymbolsOf, TailOf, Content, IsPadding;
  }

  lemma WholeSize(text: seq<byte>, options: Options)
    ensures |Whole(text, options)| == |Content(text, options)| / 4 * 3
  {
    hide Content;
    WholeGroups(|Content(text, options)|);
  }

  lemma SkippedStop(text: seq<byte>, options: Options, capacity: nat)
    requires SkipsPadding(text, options, capacity)
    ensures options.garbage && FirstStop(text, options) < |text| && FirstStop(text, options) < Cut(capacity)
    ensures TailOf(text, options).Padding?
  {
    hide FirstStop, SymbolsOf;
  }

  // What the scalar decoder makes of the text behind the '='.
  lemma ReadsOn(text: seq<byte>, options: Options, last: LastChunk, capacity: nat, rest: FullResult, position: nat)
    requires SkipsPadding(text, options, capacity) && |Content(text, options)| / 4 * 3 <= capacity
    requires Allowed(text[FirstStop(text, options) + 1..], options, last, true,
                     capacity - |Content(text, options)| / 4 * 3, rest)
    requires var end := FirstStop(text, options) + 1 + rest.inputCount;
             position == if rest.error == SUCCESS && end < |text|
                         then Canonical(text, options, |SymbolsOf(text[..end], options)|) else end
    ensures ReadOn(text, options, last, capacity,
                   FullResult(rest.error, position, Whole(text, options) + rest.output))
  {
    hide ToBase64, FirstStop, SymbolsOf, TailOf, Canonical, IsEnd, VerdictOn, DecodedOf, Decode, IsValid, IsStop,
      Content, Whole, SkipsPadding, Cut, Allowed;
    var stop := FirstStop(text, options);
    SkippedStop(text, options, capacity);
    RestIsGood(text[stop + 1..], options, last, capacity - |Content(text, options)| / 4 * 3, rest);
    BehindStop(text, options, stop + 1);
    CountBehind(text, options, stop + 1, rest.inputCount);
    SteppedPosition(text, options, stop + 1 + rest.inputCount, position);
  }

  lemma SteppedPosition(text: seq<byte>, options: Options, end: nat, position: nat)
    requires end <= |text|
    requires position == end || position == Canonical(text, options, |SymbolsOf(text[..end], options)|)
    ensures position <= |text| && |SymbolsOf(text[..position], options)| == |SymbolsOf(text[..end], options)|
  {
    hide SymbolsOf, Canonical;
    PrefixCount(text, options, end);
  }

  lemma AtLeast(text: seq<byte>, options: Options)
    ensures |Content(text, options)| <= |SymbolsOf(text, options)|
  {
    hide SymbolsOf, FirstStop;
    assert text[..|text|] == text;
    SymbolsMonotone(text, options, FirstStop(text, options), |text|);
  }

  // base64_to_binary_safe_impl.
  method ToBinarySafe(text: seq<byte>, options: Options, last: LastChunk, upToBad: bool, capacity: nat)
    returns (r: FullResult)
    ensures Safe(text, options, last, upToBad, capacity, r)
  {
    hide *;
    var safeInput := if |text| < Cut(capacity) then |text| else Cut(capacity);
    var doneWithPartial := safeInput == |text|;
    r := ToBinaryDetails(text[..safeInput], options, if doneWithPartial then last else OnlyFullChunks);
    assert text[..|text|] == text;
    if r.error != SUCCESS {
      if doneWithPartial {
        FirstIsAll(text, options, last, capacity, r);
      } else {
        FirstFails(text, options, last, capacity, r);
      }
      if upToBad && r.error == INVALID_BASE64_CHARACTER {
        SlowIsSafe(text, options, last, capacity, r);
        r := SlowDecode(text, options, last, capacity);
      } else {
        NotBad(text, options, last, upToBad, capacity, r);
      }
      return;
    }
    if doneWithPartial {
      FirstIsAll(text, options, last, capacity, r);
      NotBad(text, options, last, upToBad, capacity, r);
      return;
    }
    r := SecondPart(text, options, last, upToBad, capacity, r);
    if r.error != SUCCESS {
      if upToBad && r.error == INVALID_BASE64_CHARACTER {
        NotUpToBad(text, options, last, upToBad, capacity, r);
        SlowIsSafe(text, options, last, capacity, r);
        r := SlowDecode(text, options, last, capacity);
      }
    }
  }

  // ----- Which cuts split a padding character -----

  lemma NoGarbage(text: seq<byte>, options: Options, capacity: nat)
    ensures !options.garbage ==> !SkipsPadding(text, options, capacity)
  {
    hide FirstStop, SymbolsOf;
  }

  lemma IrregularIsBad(text: seq<byte>, options: Options)
    requires !Regular(text, options) && !options.garbage
    ensures |Content(text, options)| % 4 == 1 && TailOf(text, options).Bad?
  {
    hide FirstStop, SymbolsOf, TailOf;
  }

  // One call returns the verdict of one pass exactly if its cut does not split a '=' from what
  // shows that it is no padding.
  lemma OneCallIsExact(text: seq<byte>, options: Options, last: LastChunk, capacity: nat)
    requires !options.garbage
    ensures CallVerdict(text, options, last, capacity) == VerdictOn(text, options, last, true, capacity)
       <==> !SplitsPadding(text, options, capacity)
    ensures SplitsPadding(text, options, capacity) ==>
              VerdictOn(text, options, last, true, capacity) == INVALID_BASE64_CHARACTER
  {
    hide FirstStop, TailOf, SymbolsOf, IsPadding, Ending;
    if SplitsPadding(text, options, capacity) {
      Fits(|Content(text, options)|, capacity);
    }
  }

  // Some capacity splits it exactly if the first cut behind the '=' does.
  lemma SomeCutSplits(text: seq<byte>, options: Options)
    requires !options.garbage
    ensures (exists capacity: nat :: SplitsPadding(text, options, capacity))
       <==> var stop := FirstStop(text, options);
            !Regular(text, options) && NextCut(stop) <= |text| && IsPadding(text[stop..NextCut(stop)])
  {
    hide FirstStop, TailOf, SymbolsOf, IsPadding;
    var stop := FirstStop(text, options);
    forall capacity: nat | SplitsPadding(text, options, capacity)
      ensures !Regular(text, options) && NextCut(stop) <= |text| && IsPadding(text[stop..NextCut(stop)])
    {
      var cut, next := Cut(capacity), NextCut(stop);
      NextCutIsNext(stop, capacity);
      assert text[stop..cut] == text[stop..next] + text[next..cut];
      PaddingPrefix(text[stop..next], text[next..cut]);
    }
    if !Regular(text, options) && NextCut(stop) <= |text| && IsPadding(text[stop..NextCut(stop)]) {
      IrregularIsBad(text, options);
      NextCutIsNext(stop, NextCut(stop) / 4 * 3);
      assert SplitsPadding(text, options, NextCut(stop) / 4 * 3);
    }
  }

  // The first multiple of four behind a position.
  function NextCut(stop: nat): nat { (stop / 4 + 1) * 4 }

  lemma NextCutIsNext(stop: nat, capacity: nat)
    ensures stop < NextCut(stop) && Cut(NextCut(stop) / 4 * 3) == NextCut(stop)
    ensures stop < Cut(capacity) ==> NextCut(stop) <= Cut(capacity)
  {
  }
}
