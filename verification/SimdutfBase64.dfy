/**
  * What the base64 decoders of simdutf make of a text, and the contract of the one-shot decoder.
  * The library selects a kernel at run time, so what its documentation leaves open stays open
  * here: how much white space an accepted input is said to have consumed, and how much is decoded
  * in front of an error.
  */
module SimdutfBase64 {
  import opened Base64

  // ----- Characters -----

  // The letters that are read: standard, URL-safe, or both.
  datatype Reading = Default | Url | DefaultOrUrl

  // With `garbage`, characters outside the alphabet are skipped, and the text ends at the first
  // '='.
  datatype Options = Options(reading: Reading, garbage: bool)

  datatype LastChunk = Loose | Strict | StopBeforePartial | OnlyFullChunks
  {
    predicate IsPartial() { StopBeforePartial? || OnlyFullChunks? }
  }

  datatype ErrorCode =
    | SUCCESS
    | INVALID_BASE64_CHARACTER
    | BASE64_INPUT_REMAINDER
    | BASE64_EXTRA_BITS
    | OUTPUT_BUFFER_TOO_SMALL

  datatype FullResult = FullResult(error: ErrorCode, inputCount: nat, output: seq<byte>)

  predicate IsSpace(c: byte) { c == 9 || c == 10 || c == 12 || c == 13 || c == 32 }

  // The tables of character values by their rule: 64 for white space, 255 for everything else
  // outside the alphabet.
  function ToBase64(c: byte, options: Options): (v: byte)
    ensures v == 64 <==> IsSpace(c)
    ensures v <= 64 || v == 255
    ensures c == PAD ==> v == 255
  {
    if 65 <= c <= 90 then c - 65
    else if 97 <= c <= 122 then c - 71
    else if 48 <= c <= 57 then c + 4
    else if c == 43 && !options.reading.Url? then 62
    else if c == 47 && !options.reading.Url? then 63
    else if c == 45 && !options.reading.Default? then 62
    else if c == 95 && !options.reading.Default? then 63
    else if IsSpace(c) then 64
    else 255
  }

  function TableOf(options: Options): Table { c => ToBase64(c, options) }

  // base64_valid and base64_ignorable.
  predicate IsValid(c: byte, options: Options) { ToBase64(c, options) <= 63 }
  predicate IsIgnorable(c: byte, options: Options) { !IsValid(c, options) && (IsSpace(c) || options.garbage) }

  // Where reading stops: at a character that is neither a symbol nor white space, or, if garbage
  // is skipped, at a '='.
  predicate IsStop(c: byte, options: Options)
  {
    if options.garbage then c == PAD else !IsValid(c, options) && !IsSpace(c)
  }

  lemma KindsOfCharacters(c: byte, options: Options)
    ensures IsValid(c, options) || IsIgnorable(c, options) || IsStop(c, options)
    ensures IsStop(c, options) ==> !IsValid(c, options) && !IsSpace(c)
    ensures IsIgnorable(c, options) && !options.garbage ==> !IsStop(c, options)
    ensures IsSpace(c) ==> IsIgnorable(c, options)
  {
  }

  // ----- The same by the characters themselves -----

  predicate Accepts(reading: Reading, alphabet: Alphabet)
  {
    reading.DefaultOrUrl? || (reading.Default? && alphabet.Standard?) || (reading.Url? && alphabet.UrlSafe?)
  }

  // A character has the value that one of the alphabets that are read gives it.
  lemma ValueOfCharacter(c: byte, options: Options, v: Sextet)
    ensures ToBase64(c, options) == v
       <==> exists alphabet :: Accepts(options.reading, alphabet) && Spells(c, v, alphabet)
  {
    hide Spells;
    SpellsIsLetter(c, v, Standard);
    SpellsIsLetter(c, v, UrlSafe);
    LetterValue(c, options, v);
    forall alphabet | Accepts(options.reading, alphabet) && Spells(c, v, alphabet)
      ensures ToBase64(c, options) == v
    {
      assert alphabet == Standard || alphabet == UrlSafe;
    }
    if ToBase64(c, options) == v {
      var alphabet := if Accepts(options.reading, Standard) && c == Letter(v, Standard) then Standard else UrlSafe;
      assert Accepts(options.reading, alphabet) && Spells(c, v, alphabet);
    }
  }

  lemma LetterValue(c: byte, options: Options, v: Sextet)
    ensures ToBase64(c, options) == v
       <==> || (Accepts(options.reading, Standard) && c == Letter(v, Standard))
            || (Accepts(options.reading, UrlSafe) && c == Letter(v, UrlSafe))
  {
  }

  // The letters of the alphabets that are read.
  function LettersRead(reading: Reading): string
  {
    if reading.Default? then Characters(Standard)
    else if reading.Url? then Characters(UrlSafe)
    else Characters(Standard) + Characters(UrlSafe)
  }

  const WHITE_SPACE := " \t\n\U{000C}\r"

  // Which characters are symbols, which are passed over, and at which reading stops.
  lemma CharacterKinds(c: byte, options: Options)
    ensures IsValid(c, options) <==> c as char in LettersRead(options.reading)
    ensures IsSpace(c) <==> c as char in WHITE_SPACE
    ensures IsIgnorable(c, options) <==>
              || c as char in WHITE_SPACE
              || (options.garbage && c as char !in LettersRead(options.reading))
    ensures IsStop(c, options) <==>
              if options.garbage then c as char == '='
              else c as char !in LettersRead(options.reading) && c as char !in WHITE_SPACE
  {
    hide ToBase64, Characters, WHITE_SPACE, IsSpace;
    WhiteSpaceCharacters(c, options);
    SymbolCharacters(c, options);
  }

  lemma WhiteSpaceCharacters(c: byte, options: Options)
    ensures IsSpace(c) <==> c as char in WHITE_SPACE
    ensures IsSpace(c) ==> !IsValid(c, options)
    ensures c == PAD <==> c as char == '='
  {
  }

  lemma SymbolCharacters(c: byte, options: Options)
    ensures IsValid(c, options) <==> c as char in LettersRead(options.reading)
  {
    hide ToBase64, Characters, Spells;
    InAlphabet(c, Standard);
    InAlphabet(c, UrlSafe);
    if IsValid(c, options) {
      var v: Sextet := ToBase64(c, options);
      ValueOfCharacter(c, options, v);
      var alphabet :| Accepts(options.reading, alphabet) && Spells(c, v, alphabet);
      assert alphabet == Standard || alphabet == UrlSafe;
      SpelledIsInAlphabet(c, v, alphabet);
    }
    if c as char in LettersRead(options.reading) {
      var alphabet := if Accepts(options.reading, Standard) && c as char in Characters(Standard) then Standard
                      else UrlSafe;
      assert Accepts(options.reading, alphabet) && c as char in Characters(alphabet);
      var v: Sextet :| Spells(c, v, alphabet);
      ValueOfCharacter(c, options, v);
    }
  }

  function FirstStop(text: seq<byte>, options: Options): (stop: nat)
    ensures stop <= |text|
    ensures forall i :: 0 <= i < stop ==> !IsStop(text[i], options)
    ensures stop < |text| ==> IsStop(text[stop], options)
  {
    if text == [] || IsStop(text[0], options) then 0 else 1 + FirstStop(text[1..], options)
  }

  lemma FirstStopIs(text: seq<byte>, stop: nat, options: Options)
    requires stop <= |text|
    requires forall i :: 0 <= i < stop ==> !IsStop(text[i], options)
    requires stop < |text| ==> IsStop(text[stop], options)
    ensures FirstStop(text, options) == stop
  {
  }

  function SymbolsOf(text: seq<byte>, options: Options): (s: seq<Sextet>)
    ensures |s| <= |text|
  {
    Symbols(text, TableOf(options))
  }

  lemma NoText(options: Options)
    ensures SymbolsOf([], options) == []
  {
  }

  lemma SplitSymbols(text: seq<byte>, c: nat, options: Options)
    requires c <= |text|
    ensures SymbolsOf(text, options) == SymbolsOf(text[..c], options) + SymbolsOf(text[c..], options)
  {
    SymbolsSplit(text, c, TableOf(options));
  }

  lemma NextSymbolOf(text: seq<byte>, i: nat, options: Options)
    requires i < |text|
    ensures SymbolsOf(text[..i + 1], options)
         == SymbolsOf(text[..i], options) + if IsValid(text[i], options) then [ToBase64(text[i], options)] else []
  {
    hide ToBase64;
    SymbolsSnoc(text, i, TableOf(options));
  }

  // The text that is read, and its symbols.
  function Content(text: seq<byte>, options: Options): seq<Sextet>
  {
    SymbolsOf(text[..FirstStop(text, options)], options)
  }

  // ----- Padding -----

  function CountPads(text: seq<byte>): (n: nat)
    ensures n == 0 <==> PAD !in text
  {
    if text == [] then 0 else CountPads(text[..|text| - 1]) + if text[|text| - 1] == PAD then 1 else 0
  }

  // One or two '=' among white space.
  predicate IsPadding(text: seq<byte>)
  {
    && 1 <= CountPads(text) <= 2
    && forall i :: 0 <= i < |text| ==> text[i] == PAD || IsSpace(text[i])
  }

  lemma {:induction false} CountPadsConcat(a: seq<byte>, b: seq<byte>)
    ensures CountPads(a + b) == CountPads(a) + CountPads(b)
  {
    if b == [] {
      assert a + b == a;
    } else {
      assert (a + b)[..|a + b| - 1] == a + b[..|b| - 1];
      CountPadsConcat(a, b[..|b| - 1]);
    }
  }

  lemma {:induction false} PaddingPrefix(a: seq<byte>, b: seq<byte>)
    requires IsPadding(a + b) && a != [] && a[0] == PAD
    ensures IsPadding(a) && CountPads(a) <= CountPads(a + b)
  {
    CountPadsConcat(a, b);
    assert forall i :: 0 <= i < |a| ==> a[i] == (a + b)[i];
  }

  // What follows the symbols.
  datatype Tail = End | Padding(pads: nat) | Bad
  {
    function Pads(): nat { if Padding? then pads else 0 }
  }

  function TailOf(text: seq<byte>, options: Options): (tail: Tail)
    ensures tail.Padding? ==> 1 <= tail.pads <= 2
    ensures tail.End? <==> FirstStop(text, options) == |text|
    ensures options.garbage ==> tail == if FirstStop(text, options) == |text| then End else Padding(1)
  {
    var stop := FirstStop(text, options);
    if stop == |text| then End
    else if options.garbage then Padding(1)
    else if text[stop] == PAD && IsPadding(text[stop..]) then Padding(CountPads(text[stop..]))
    else Bad
  }

  // ----- Verdicts -----

  // The bits of an incomplete group behind its last whole byte.
  predicate ExtraBits(s: seq<Sextet>)
  {
    || (|s| % 4 == 2 && s[|s| - 1] & 0x0f != 0)
    || (|s| % 4 == 3 && s[|s| - 1] & 0x03 != 0)
  }

  // An incomplete group of idx symbols that is not consumed.
  predicate KeepsPartial(idx: nat, pads: nat, last: LastChunk)
  {
    || (last.StopBeforePartial? && idx + pads < 4 && idx != 0 && (idx >= 2 || pads == 0))
    || (last.OnlyFullChunks? && (idx >= 2 || pads == 0))
  }

  // How a text ends whose last group has idx symbols.
  function Ending(idx: nat, pads: nat, extra: bool, garbage: bool, last: LastChunk, full: bool): ErrorCode
  {
    if !garbage && idx + pads > 4 then INVALID_BASE64_CHARACTER
    else if !garbage && last.Loose? && idx >= 2 && pads > 0 && idx + pads != 4 then INVALID_BASE64_CHARACTER
    else if !garbage && last.Strict? && idx >= 2 && idx + pads != 4 then BASE64_INPUT_REMAINDER
    else if KeepsPartial(idx, pads, last) then SUCCESS
    else if idx >= 2 then
      if last.Strict? && !garbage && extra then BASE64_EXTRA_BITS
      else if full then OUTPUT_BUFFER_TOO_SMALL
      else SUCCESS
    else if idx == 1 && !garbage then BASE64_INPUT_REMAINDER
    else if idx == 0 && pads > 0 && !garbage then INVALID_BASE64_CHARACTER
    else SUCCESS
  }

  // Forgiving decoding: padding is optional, but if it is there, it completes the last group.
  lemma LooseIsForgiving(idx: nat, pads: nat, extra: bool)
    requires idx < 4 && pads <= 2
    ensures Ending(idx, pads, extra, false, Loose, false) == SUCCESS
       <==> if pads == 0 then idx != 1 else idx + pads == 4
  {
  }

  // Strict decoding: padding is required, and no bits are lost.
  lemma StrictIsCanonical(idx: nat, pads: nat, extra: bool)
    requires idx < 4 && pads <= 2
    ensures Ending(idx, pads, extra, false, Strict, false) == SUCCESS
       <==> (idx == 0 && pads == 0) || (idx >= 2 && idx + pads == 4 && !extra)
  {
  }

  // Stop before partial: a last group without its padding, or with too little of it, is accepted but
  // not decoded; completed by its padding, it is decoded.  Where garbage is skipped, one '=' counts.
  lemma StopBeforePartialIs(s: seq<Sextet>, pads: nat, garbage: bool, tail: Tail)
    requires tail == (if pads == 0 then End else Padding(pads)) && pads <= if garbage then 1 else 2
    ensures var idx, n := |s| % 4, |s|;
            && (Verdict(s, tail, garbage, StopBeforePartial, false, 0) == SUCCESS
                <==> garbage || pads == 0 || idx + pads == 4 || (idx == 2 && pads == 1))
            && (Verdict(s, tail, garbage, StopBeforePartial, false, 0) == BASE64_INPUT_REMAINDER
                <==> !garbage && idx == 1 && pads > 0)
            && (Verdict(s, tail, garbage, StopBeforePartial, false, 0) == SUCCESS ==>
                  Decoded(s, tail, garbage, StopBeforePartial, false, 0)
                  == if idx == 0 || idx + pads == 4 || (idx == 1 && pads == 1) then n else n / 4 * 4)
  {
    hide ExtraBits;
  }

  // Only full chunks: the last group is decoded only if it has four symbols.  Padding is accepted
  // behind two or three symbols, or where garbage is skipped.
  lemma OnlyFullChunksIs(s: seq<Sextet>, pads: nat, garbage: bool, tail: Tail)
    requires tail == (if pads == 0 then End else Padding(pads)) && pads <= if garbage then 1 else 2
    ensures var idx, n := |s| % 4, |s|;
            && (Verdict(s, tail, garbage, OnlyFullChunks, false, 0) == SUCCESS
                <==> garbage || pads == 0 || (idx >= 2 && idx + pads <= 4))
            && (Verdict(s, tail, garbage, OnlyFullChunks, false, 0) == BASE64_INPUT_REMAINDER
                <==> !garbage && idx == 1 && pads > 0)
            && (Verdict(s, tail, garbage, OnlyFullChunks, false, 0) == SUCCESS ==>
                  Decoded(s, tail, garbage, OnlyFullChunks, false, 0)
                  == if idx == 1 && pads == 1 then n else n / 4 * 4)
  {
    hide ExtraBits;
  }

  // The verdict on a text with the symbols s, with room for `capacity` bytes if that is checked.
  function Verdict(s: seq<Sextet>, tail: Tail, garbage: bool, last: LastChunk, check: bool, capacity: nat): ErrorCode
  {
    var g, idx := |s| / 4, |s| % 4;
    if check && g > capacity / 3 then OUTPUT_BUFFER_TOO_SMALL
    else if tail.Bad? then INVALID_BASE64_CHARACTER
    else Ending(idx, tail.Pads(), ExtraBits(s), garbage, last, check && 3 * g + idx - 1 > capacity)
  }

  // The number of symbols that are decoded, if none is rejected.
  function Decoded(s: seq<Sextet>, tail: Tail, garbage: bool, last: LastChunk, check: bool, capacity: nat): (m: nat)
  {
    if Verdict(s, tail, garbage, last, check, capacity) == OUTPUT_BUFFER_TOO_SMALL then capacity / 3 * 4
    else if KeepsPartial(|s| % 4, tail.Pads(), last) then |s| / 4 * 4
    else |s|
  }

  lemma DecodedFits(s: seq<Sextet>, tail: Tail, garbage: bool, last: LastChunk, check: bool, capacity: nat)
    ensures var e := Verdict(s, tail, garbage, last, check, capacity);
            var m := Decoded(s, tail, garbage, last, check, capacity);
            && (e == SUCCESS || e == OUTPUT_BUFFER_TOO_SMALL ==> m <= |s| && (check ==> 3 * m / 4 <= capacity))
            && (e == OUTPUT_BUFFER_TOO_SMALL ==> check && m % 4 == 0 && m < |s|)
            && (tail.Bad? ==> e == OUTPUT_BUFFER_TOO_SMALL || e == INVALID_BASE64_CHARACTER)
  {
    hide ExtraBits;
  }

  // What a verdict says about the end of the text.
  lemma VerdictKinds(s: seq<Sextet>, tail: Tail, garbage: bool, last: LastChunk, check: bool, capacity: nat)
    requires tail.Padding? ==> 1 <= tail.pads <= 2
    ensures var e, idx := Verdict(s, tail, garbage, last, check, capacity), |s| % 4;
            && (e == INVALID_BASE64_CHARACTER ==> !tail.End?)
            && (e == BASE64_INPUT_REMAINDER || e == BASE64_EXTRA_BITS ==> !garbage && !tail.Bad? && idx > 0)
            && (e == SUCCESS ==> !tail.Bad?)
            && (e == SUCCESS ==> Decoded(s, tail, garbage, last, check, capacity)
                                 == if KeepsPartial(idx, tail.Pads(), last) then |s| / 4 * 4 else |s|)
            && (e == OUTPUT_BUFFER_TOO_SMALL ==> Decoded(s, tail, garbage, last, check, capacity) == capacity / 3 * 4)
  {
    hide ExtraBits;
  }

  function VerdictOn(text: seq<byte>, options: Options, last: LastChunk, check: bool, capacity: nat): ErrorCode
  {
    Verdict(Content(text, options), TailOf(text, options), options.garbage, last, check, capacity)
  }

  function DecodedOf(text: seq<byte>, options: Options, last: LastChunk, check: bool, capacity: nat): nat
  {
    Decoded(Content(text, options), TailOf(text, options), options.garbage, last, check, capacity)
  }

  // ----- Results of one pass over a text -----

  // Everything was consumed, so the padding too.
  predicate ConsumesPadding(text: seq<byte>, options: Options, last: LastChunk)
  {
    var tail := TailOf(text, options);
    tail.Padding? && !KeepsPartial(|Content(text, options)| % 4, tail.pads, last)
  }

  // Where the symbols of a text end: behind the last one, or at the padding.
  predicate IsEnd(text: seq<byte>, options: Options, count: nat)
  {
    || count == Canonical(text, options, |Content(text, options)|)
    || (count == FirstStop(text, options) && TailOf(text, options).Padding?)
  }

  ghost predicate Allowed(text: seq<byte>, options: Options, last: LastChunk, check: bool, capacity: nat, r: FullResult)
  {
    var s := Content(text, options);
    var m := DecodedOf(text, options, last, check, capacity);
    && r.error == VerdictOn(text, options, last, check, capacity)
    && r.inputCount <= |text| && (check ==> |r.output| <= capacity)
    && match r.error
       case INVALID_BASE64_CHARACTER =>
         r.inputCount == FirstStop(text, options) && r.output <= Decode(s)
       case BASE64_INPUT_REMAINDER | BASE64_EXTRA_BITS =>
         IsEnd(text, options, r.inputCount) && r.output <= Decode(s)
       case OUTPUT_BUFFER_TOO_SMALL =>
         && r.inputCount <= FirstStop(text, options) && r.inputCount == Canonical(text, options, m)
         && |SymbolsOf(text[..r.inputCount], options)| == m && m <= |s| && r.output == Decode(s[..m])
       case SUCCESS =>
         // White space behind the last symbol used may or may not be counted.
         && |SymbolsOf(text[..r.inputCount], options)| == m && m <= |s| && r.output == Decode(s[..m])
         && (ConsumesPadding(text, options, last) && !options.garbage ==> r.inputCount == |text|)
  }

  // base64_to_binary_details.
  ghost predicate Details(text: seq<byte>, options: Options, last: LastChunk, r: FullResult)
  {
    && Allowed(text, options, last, false, 0, r)
    && (r.error == SUCCESS && ConsumesPadding(text, options, last) && options.garbage ==>
          r.inputCount == FirstStop(text, options) + 1)
  }

  // A partial mode that succeeds writes whole groups, and the last bytes only if their padding
  // completes the group and the mode is to stop before partial ones.
  lemma PartialOutput(text: seq<byte>, options: Options, last: LastChunk, r: FullResult)
    requires Details(text, options, last, r) && r.error == SUCCESS && last.IsPartial() && !options.garbage
    ensures var n, tail := |Content(text, options)|, TailOf(text, options);
            && !tail.Bad?
            && (tail.Padding? ==> n % 4 >= 2 && n % 4 + tail.pads <= 4)
            && |r.output| == 3 * (n / 4) + if last.StopBeforePartial? && tail.Padding? && n % 4 + tail.pads == 4
                                           then n % 4 - 1 else 0
  {
    hide Content, TailOf, Verdict, Decoded, SymbolsOf, FirstStop, Decode;
    var s, tail := Content(text, options), TailOf(text, options);
    NotBadTail(s, tail, last);
    if last.StopBeforePartial? {
      StopBeforePartialIs(s, tail.Pads(), false, tail);
    } else {
      OnlyFullChunksIs(s, tail.Pads(), false, tail);
    }
    GroupBytes(|s|);
  }

  lemma NotBadTail(s: seq<Sextet>, tail: Tail, last: LastChunk)
    requires Verdict(s, tail, false, last, false, 0) == SUCCESS
    ensures !tail.Bad?
  {
    hide ExtraBits, Ending;
  }

  lemma GroupBytes(n: nat)
    ensures 3 * (n / 4 * 4) / 4 == 3 * (n / 4)
    ensures 3 * n / 4 == 3 * (n / 4) + if n % 4 >= 2 then n % 4 - 1 else 0
  {
    assert n == 4 * (n / 4) + n % 4;
  }

  // ----- Positions -----

  // The length of the shortest prefix that holds m symbols.
  function Canonical(text: seq<byte>, options: Options, m: nat): (p: nat)
    ensures p <= |text|
    ensures m <= |SymbolsOf(text, options)| ==>
              |SymbolsOf(text[..p], options)| == m && (p > 0 ==> IsValid(text[p - 1], options))
  {
    if m == 0 || text == [] then
      NoText(options);
      assert text[..0] == [];
      0
    else if |SymbolsOf(text[..|text| - 1], options)| < m then
      assert text[..|text|] == text;
      |text|
    else
      var p := Canonical(text[..|text| - 1], options, m);
      assert text[..|text| - 1][..p] == text[..p];
      p
  }

  lemma SymbolsMonotone(text: seq<byte>, options: Options, i: nat, j: nat)
    requires i <= j <= |text|
    ensures SymbolsOf(text[..i], options) <= SymbolsOf(text[..j], options)
    ensures i < j && IsValid(text[j - 1], options) ==>
              |SymbolsOf(text[..i], options)| < |SymbolsOf(text[..j], options)|
  {
    hide ToBase64, SymbolsOf;
    assert text[..j][..i] == text[..i];
    SplitSymbols(text[..j], i, options);
    if i < j {
      NextSymbolOf(text, j - 1, options);
      assert text[..j - 1][..i] == text[..i];
      SplitSymbols(text[..j - 1], i, options);
    }
  }

  predicate IsBehindSymbol(text: seq<byte>, options: Options, p: nat)
    requires p <= |text|
  {
    p == 0 || IsValid(text[p - 1], options)
  }

  // A position behind a symbol is the shortest prefix with its number of symbols.
  lemma CanonicalIs(text: seq<byte>, options: Options, p: nat)
    requires p <= |text| && IsBehindSymbol(text, options, p)
    ensures Canonical(text, options, |SymbolsOf(text[..p], options)|) == p
  {
    hide ToBase64, Canonical, SymbolsOf;
    var m := |SymbolsOf(text[..p], options)|;
    assert text[..|text|] == text;
    SymbolsMonotone(text, options, p, |text|);
    var c := Canonical(text, options, m);
    if c < p {
      SymbolsMonotone(text, options, c, p);
    } else {
      SymbolsMonotone(text, options, p, c);
    }
  }

  // Counting on from a position behind a symbol.
  lemma CanonicalBehind(text: seq<byte>, options: Options, c: nat, m: nat)
    requires c <= |text| && m <= |SymbolsOf(text[c..], options)|
    requires m > 0 || IsBehindSymbol(text, options, c)
    ensures c + Canonical(text[c..], options, m) == Canonical(text, options, |SymbolsOf(text[..c], options)| + m)
  {
    hide ToBase64, Canonical, SymbolsOf;
    var p := Canonical(text[c..], options, m);
    assert text[c..][..p] == text[..c + p][c..] && text[..c + p][..c] == text[..c];
    SplitSymbols(text[..c + p], c, options);
    assert text[c..][..0] == [];
    NoText(options);
    CanonicalIs(text[c..], options, 0);
    assert p > 0 ==> text[c + p - 1] == text[c..][p - 1];
    CanonicalIs(text, options, c + p);
  }

  lemma Ignored(text: seq<byte>, options: Options, i: nat)
    requires i < |text| && !IsValid(text[i], options)
    ensures SymbolsOf(text[..i + 1], options) == SymbolsOf(text[..i], options)
  {
    hide ToBase64, SymbolsOf;
    NextSymbolOf(text, i, options);
  }

  lemma {:induction false} AllIgnored(text: seq<byte>, options: Options, i: nat, j: nat)
    requires i <= j <= |text| && forall k :: i <= k < j ==> !IsValid(text[k], options)
    ensures SymbolsOf(text[..j], options) == SymbolsOf(text[..i], options)
    decreases j
  {
    hide ToBase64, SymbolsOf;
    if i < j {
      AllIgnored(text, options, i, j - 1);
      Ignored(text, options, j - 1);
    }
  }

  lemma EndHolds(text: seq<byte>, options: Options, count: nat)
    requires IsEnd(text, options, count)
    ensures count <= FirstStop(text, options) && |SymbolsOf(text[..count], options)| == |Content(text, options)|
    ensures count == |text| ==> count == Canonical(text, options, |Content(text, options)|)
  {
    hide ToBase64, Canonical, SymbolsOf, FirstStop, IsPadding, CountPads;
    var stop := FirstStop(text, options);
    assert text[..|text|] == text;
    SymbolsMonotone(text, options, stop, |text|);
    var p := Canonical(text, options, |Content(text, options)|);
    if stop < p {
      KindsOfCharacters(text[stop], options);
      SymbolsMonotone(text, options, stop, p);
    }
  }

  // Step back over ignorable characters.
  method StepBack(input: seq<byte>, options: Options, start: nat) returns (pos: nat)
    requires start <= |input|
    ensures pos <= start && |SymbolsOf(input[..pos], options)| == |SymbolsOf(input[..start], options)|
    ensures forall i :: pos <= i < start ==> IsIgnorable(input[i], options)
    ensures pos > 0 ==> !IsIgnorable(input[pos - 1], options)
    ensures options.garbage || start <= FirstStop(input, options) ==>
              pos == Canonical(input, options, |SymbolsOf(input[..start], options)|)
  {
    hide ToBase64, SymbolsOf, Canonical, FirstStop, IsStop, IsValid;
    pos := start;
    while pos > 0 && IsIgnorable(input[pos - 1], options)
      invariant pos <= start && |SymbolsOf(input[..pos], options)| == |SymbolsOf(input[..start], options)|
      invariant forall i :: pos <= i < start ==> IsIgnorable(input[i], options)
    {
      pos := pos - 1;
      Ignored(input, options, pos);
    }
    if pos > 0 && (options.garbage || start <= FirstStop(input, options)) {
      KindsOfCharacters(input[pos - 1], options);
    }
    if pos == 0 || IsValid(input[pos - 1], options) {
      CanonicalIs(input, options, pos);
    }
  }

  // ----- Reading on behind whole groups -----

  lemma ExtraBitsBehind(s: seq<Sextet>, k: nat)
    requires 4 * k <= |s|
    ensures ExtraBits(s[4 * k..]) == ExtraBits(s)
  {
  }

  lemma Groups(n: nat, k: nat, capacity: nat)
    ensures (n + 4 * k) / 4 == n / 4 + k && (n + 4 * k) % 4 == n % 4
    ensures (3 * k + capacity) / 3 == k + capacity / 3
    ensures 3 * (n + 4 * k) / 4 == 3 * n / 4 + 3 * k
  {
  }

  lemma VerdictBehind(s: seq<Sextet>, k: nat, tail: Tail, garbage: bool, last: LastChunk, capacity: nat)
    requires 4 * k <= |s|
    ensures Verdict(s[4 * k..], tail, garbage, last, true, capacity)
         == Verdict(s, tail, garbage, last, true, 3 * k + capacity)
    ensures 4 * k + Decoded(s[4 * k..], tail, garbage, last, true, capacity)
         == Decoded(s, tail, garbage, last, true, 3 * k + capacity)
  {
    hide ExtraBits, Ending, KeepsPartial;
    ExtraBitsBehind(s, k);
    Groups(|s| - 4 * k, k, capacity);
  }

  // After k whole groups, what is left of the text is read as it is in the whole text.
  lemma RestOfText(text: seq<byte>, options: Options, c: nat, k: nat)
    requires c <= FirstStop(text, options) && |SymbolsOf(text[..c], options)| == 4 * k
    ensures var s := Content(text, options);
            && FirstStop(text[c..], options) == FirstStop(text, options) - c
            && 4 * k <= |s| && Content(text[c..], options) == s[4 * k..] && SymbolsOf(text[..c], options) == s[..4 * k]
            && TailOf(text[c..], options) == TailOf(text, options)
  {
    hide ToBase64, IsStop, SymbolsOf, IsPadding, CountPads;
    var stop := FirstStop(text, options);
    FirstStopIs(text[c..], stop - c, options);
    assert text[..stop][..c] == text[..c] && text[..stop][c..] == text[c..][..stop - c];
    SplitSymbols(text[..stop], c, options);
    assert text[c..][stop - c..] == text[stop..];
  }

  lemma CountBehind(text: seq<byte>, options: Options, c: nat, count: nat)
    requires c + count <= |text|
    ensures |SymbolsOf(text[..c + count], options)|
         == |SymbolsOf(text[..c], options)| + |SymbolsOf(text[c..][..count], options)|
  {
    hide SymbolsOf;
    assert text[..c + count][..c] == text[..c] && text[..c + count][c..] == text[c..][..count];
    SplitSymbols(text[..c + count], c, options);
  }

  lemma SameIndex(n: nat, k: nat)
    requires 4 * k <= n
    ensures (n - 4 * k) % 4 == n % 4
  {
    Groups(n - 4 * k, k, 0);
  }

  lemma GroupsDecode(s: seq<Sextet>, k: nat, m: nat)
    requires 4 * k + m <= |s|
    ensures Decode(s[..4 * k]) + Decode(s[4 * k..][..m]) == Decode(s[..4 * k + m]) && |Decode(s[..4 * k])| == 3 * k
    ensures |s| / 4 * 4 == 4 * k + (|s| - 4 * k) / 4 * 4 && (|s| - 4 * k) % 4 == |s| % 4
  {
    hide Decode;
    assert s[..4 * k + m] == s[..4 * k] + s[4 * k..][..m];
    DecodeConcat(s[..4 * k], s[4 * k..][..m]);
    Groups(|s| - 4 * k, k, 0);
  }

  // ----- The one-shot decoder -----

  method ToBinaryDetails(text: seq<byte>, options: Options, last: LastChunk) returns (r: FullResult)
    ensures Details(text, options, last, r)
  {
    hide ToBase64, SymbolsOf, FirstStop, Decode, Verdict, Decoded, Canonical, TailOf, KeepsPartial;
    var stop, s := FirstStop(text, options), Content(text, options);
    var e, m := VerdictOn(text, options, last, false, 0), DecodedOf(text, options, last, false, 0);
    DecodedFits(s, TailOf(text, options), options.garbage, last, false, 0);
    if e == SUCCESS {
      var p := CountsExist(text, options, last, m);
      var count: nat :| count <= |text| && IsCount(text, options, last, m, count);
      r := FullResult(e, count, Decode(s[..m]));
    } else if e == INVALID_BASE64_CHARACTER {
      var k: nat :| k <= |Decode(s)|;
      r := FullResult(e, stop, Decode(s)[..k]);
    } else {
      var k: nat :| k <= |Decode(s)|;
      assert IsEnd(text, options, Canonical(text, options, |s|));
      var count: nat :| IsEnd(text, options, count);
      EndHolds(text, options, count);
      r := FullResult(e, count, Decode(s)[..k]);
    }
  }

  // The counts of a successful call.
  predicate IsCount(text: seq<byte>, options: Options, last: LastChunk, m: nat, count: nat)
    requires count <= |text|
  {
    if ConsumesPadding(text, options, last) then
      count == if options.garbage then FirstStop(text, options) + 1 else |text|
    else |SymbolsOf(text[..count], options)| == m
  }

  lemma CountsExist(text: seq<byte>, options: Options, last: LastChunk, m: nat) returns (p: nat)
    requires VerdictOn(text, options, last, false, 0) == SUCCESS && m == DecodedOf(text, options, last, false, 0)
    ensures p <= |text| && IsCount(text, options, last, m, p)
    ensures forall count :: 0 <= count <= |text| && IsCount(text, options, last, m, count) ==>
                              |SymbolsOf(text[..count], options)| == m
  {
    hide ToBase64, SymbolsOf, FirstStop, Canonical, Verdict, IsStop, KeepsPartial;
    var stop, s := FirstStop(text, options), Content(text, options);
    DecodedFits(s, TailOf(text, options), options.garbage, last, false, 0);
    if ConsumesPadding(text, options, last) {
      p := if options.garbage then stop + 1 else |text|;
      BehindStop(text, options, p);
    } else {
      p := Canonical(text[..stop], options, m);
      assert text[..stop][..p] == text[..p];
    }
  }

  // No symbols are in the padding.
  lemma BehindStop(text: seq<byte>, options: Options, count: nat)
    requires TailOf(text, options).Padding? && FirstStop(text, options) <= count <= |text|
    requires options.garbage ==> count <= FirstStop(text, options) + 1
    ensures SymbolsOf(text[..count], options) == Content(text, options)
  {
    hide ToBase64, SymbolsOf, FirstStop;
    var stop := FirstStop(text, options);
    forall k | stop <= k < count ensures !IsValid(text[k], options) {
      assert text[k] == text[stop..][k - stop];
      KindsOfCharacters(text[k], options);
    }
    AllIgnored(text, options, stop, count);
  }

  // ----- Encoding -----

  // binary_to_base64: the padding completes the last group of four.
  function ToText(data: seq<byte>, alphabet: Alphabet, padding: bool): (text: seq<byte>)
    ensures |text| == (4 * |data| + 2) / 3 + if padding && |data| % 3 != 0 then 3 - |data| % 3 else 0
  {
    Letters(Encode(data), alphabet) + if padding then Pads(|data|) else []
  }

  // The '=' behind the encoding of n bytes.
  function Pads(n: nat): (pads: seq<byte>)
    ensures |pads| == if n % 3 != 0 then 3 - n % 3 else 0
  {
    if n % 3 != 0 then seq(3 - n % 3, _ => PAD) else []
  }

  // The text, character by character: the letters of the alphabet asked for at the values that the
  // bits of the data spell, six at a time, and nothing but '=' behind them.
  lemma CharacterOfText(data: seq<byte>, alphabet: Alphabet, padding: bool, i: nat)
    requires i < |ToText(data, alphabet, padding)|
    ensures if i < (4 * |data| + 2) / 3 then
              && Spells(ToText(data, alphabet, padding)[i], Encode(data)[i], alphabet)
              && SixBits(Encode(data)[i], data, i)
            else ToText(data, alphabet, padding)[i] as char == '='
  {
    hide Encode, Letter, SixBits, Spells;
    if i < (4 * |data| + 2) / 3 {
      LetterSpells(Encode(data)[i], alphabet);
      EncodeSixBits(data, i);
    }
  }

  // Padding completes the last group of four characters.
  lemma TextIsPadded(data: seq<byte>, alphabet: Alphabet)
    ensures |ToText(data, alphabet, true)| == (|data| + 2) / 3 * 4
  {
    var q, r := |data| / 3, |data| % 3;
    assert |data| == 3 * q + r;
    if r == 0 {
      assert (4 * |data| + 2) / 3 == 4 * q;
    } else if r == 1 {
      assert (4 * |data| + 2) / 3 == 4 * q + 2;
    } else {
      assert (4 * |data| + 2) / 3 == 4 * q + 3;
    }
  }

  lemma PadsBehind(n: nat, m: nat)
    requires n % 3 == 0
    ensures Pads(n) == [] && Pads(n + m) == Pads(m)
  {
    assert (n + m) % 3 == m % 3;
  }

  // Whole groups of three bytes can be encoded separately; padding then only follows the last part.
  lemma ToTextConcat(a: seq<byte>, b: seq<byte>, alphabet: Alphabet, padding: bool)
    requires |a| % 3 == 0
    ensures ToText(a + b, alphabet, padding) == ToText(a, alphabet, padding) + ToText(b, alphabet, padding)
  {
    hide Letters, Encode, Pads;
    PadsBehind(|a|, |b|);
    EncodeConcat(a, b);
    LettersConcat(Encode(a), Encode(b), alphabet);
  }
}
