/**
  * What the decoders of simdutf make of the texts that its encoders write, with white space added
  * anywhere.
  */
module EncodedTexts {
  import opened Base64
  import opened SimdutfBase64

  // The text that encodes the data, but for white space.
  predicate IsTextOf(text: seq<byte>, data: seq<byte>, alphabet: Alphabet, padding: bool)
  {
    Without(text, WHITE_SPACE) == ToText(data, alphabet, padding)
  }

  function TextPads(data: seq<byte>, padding: bool): nat
  {
    if padding && |data| % 3 != 0 then 3 - |data| % 3 else 0
  }

  // ----- The symbols -----

  lemma LettersAreRead(s: seq<Sextet>, alphabet: Alphabet, options: Options)
    requires Accepts(options.reading, alphabet)
    ensures SymbolsOf(Letters(s, alphabet), options) == s
    ensures forall i :: 0 <= i < |s| ==> IsValid(Letters(s, alphabet)[i], options)
  {
    hide ToBase64, Letter;
    forall i | 0 <= i < |s| ensures ToBase64(Letters(s, alphabet)[i], options) == s[i] {
      LetterValue(Letter(s[i], alphabet), options, s[i]);
    }
    SymbolsOfLetters(s, alphabet, TableOf(options));
  }

  lemma NoSymbolsInPads(n: nat, options: Options)
    ensures SymbolsOf(Pads(n), options) == []
    ensures forall i :: 0 <= i < |Pads(n)| ==> Pads(n)[i] == PAD
  {
    forall i | 0 <= i < |Pads(n)| ensures !IsValid(Pads(n)[i], options) {
      PadIsNoSymbol(options);
    }
    NoText(options);
    assert Pads(n)[..0] == [] && Pads(n)[..|Pads(n)|] == Pads(n);
    AllIgnored(Pads(n), options, 0, |Pads(n)|);
  }

  lemma PadIsNoSymbol(options: Options)
    ensures !IsValid(PAD, options) && IsStop(PAD, options) && !IsSpace(PAD)
  {
  }

  lemma WhiteSpaceIsNoSymbol(text: seq<byte>, options: Options)
    ensures SymbolsOf(Without(text, WHITE_SPACE), options) == SymbolsOf(text, options)
  {
    hide ToBase64, WHITE_SPACE;
    forall i | 0 <= i < |text| && text[i] as char in WHITE_SPACE ensures ToBase64(text[i], options) >= 64 {
      WhiteSpaceCharacters(text[i], options);
    }
    WithoutKeepsSymbols(text, WHITE_SPACE, TableOf(options));
  }

  // All the symbols of such a text are those of the data.
  lemma SymbolsOfText(text: seq<byte>, data: seq<byte>, alphabet: Alphabet, padding: bool, options: Options)
    requires IsTextOf(text, data, alphabet, padding) && Accepts(options.reading, alphabet)
    ensures SymbolsOf(text, options) == Encode(data)
  {
    hide SymbolsOf, Letters, Encode, Pads, Without, Accepts;
    WhiteSpaceIsNoSymbol(text, options);
    LettersAreRead(Encode(data), alphabet, options);
    NoSymbolsInPads(|data|, options);
    NoText(options);
    var letters := Letters(Encode(data), alphabet);
    JoinSymbols(letters, Pads(|data|), options);
    assert letters + [] == letters;
  }

  lemma JoinSymbols(a: seq<byte>, b: seq<byte>, options: Options)
    ensures SymbolsOf(a + b, options) == SymbolsOf(a, options) + SymbolsOf(b, options)
  {
    SymbolsConcat(a, b, TableOf(options));
  }

  // ----- The end -----

  lemma {:induction false} PadsAmongSpace(text: seq<byte>)
    requires forall c :: c in Without(text, WHITE_SPACE) ==> c == PAD
    ensures CountPads(text) == |Without(text, WHITE_SPACE)|
    ensures forall i :: 0 <= i < |text| ==> text[i] == PAD || IsSpace(text[i])
  {
    hide WHITE_SPACE, IsSpace;
    if text != [] {
      var n := |text| - 1;
      WhiteSpaceCharacters(text[n], Options(Reading.Default, false));
      NotWhite(Options(Reading.Default, false));
      assert forall c :: c in Without(text[..n], WHITE_SPACE) ==> c in Without(text, WHITE_SPACE);
      PadsAmongSpace(text[..n]);
      assert text[n] as char !in WHITE_SPACE ==> text[n] in Without(text, WHITE_SPACE);
    }
  }

  lemma NotWhite(options: Options)
    ensures PAD as char !in WHITE_SPACE
  {
    WhiteSpaceCharacters(PAD, options);
  }

  lemma NothingWithout()
    ensures Without([], WHITE_SPACE) == []
  {
  }

  lemma InFrontOfStop(text: seq<byte>, options: Options)
    ensures PAD !in Without(text[..FirstStop(text, options)], WHITE_SPACE)
  {
    hide ToBase64, Without, FirstStop, WHITE_SPACE, IsStop;
    PadIsNoSymbol(options);
  }

  // Reading stops at a '='.
  lemma StopIsPad(text: seq<byte>, data: seq<byte>, alphabet: Alphabet, padding: bool, options: Options)
    requires IsTextOf(text, data, alphabet, padding) && Accepts(options.reading, alphabet)
    requires FirstStop(text, options) < |text|
    ensures text[FirstStop(text, options)] == PAD
  {
    hide ToBase64, Without, FirstStop, Letters, Encode, WHITE_SPACE, IsStop, IsSpace, IsValid, Pads, Accepts;
    var c := text[FirstStop(text, options)];
    WhiteSpaceCharacters(c, options);
    KindsOfCharacters(c, options);
    KeptWithout(text, WHITE_SPACE, FirstStop(text, options));
    LettersAreRead(Encode(data), alphabet, options);
    NoSymbolsInPads(|data|, options);
    assert c in Letters(Encode(data), alphabet) + if padding then Pads(|data|) else [];
  }

  lemma FirstKept(text: seq<byte>)
    requires text != [] && text[0] == PAD
    ensures Without(text, WHITE_SPACE) != [] && Without(text, WHITE_SPACE)[0] == PAD
  {
    hide WHITE_SPACE;
    NotWhite(Options(Reading.Default, false));
    assert text == text[..1] + text[1..] && text[..1][..0] == [];
    WithoutConcat(text[..1], text[1..], WHITE_SPACE);
    NothingWithout();
  }

  // Where the '=' begin in a text of letters and '='.
  lemma PadsBegin(head: seq<byte>, tail: seq<byte>, letters: seq<byte>, pads: seq<byte>)
    requires head + tail == letters + pads && PAD !in head && PAD !in letters
    requires forall i :: 0 <= i < |pads| ==> pads[i] == PAD
    requires tail != [] ==> tail[0] == PAD
    ensures head == letters && tail == pads
  {
    var all := head + tail;
    InFrontOfPads(head, tail);
    InFrontOfPads(letters, pads);
    assert head == all[..|letters|] && tail == all[|letters|..];
  }

  // The length of a text in front of its first '='.
  function LengthToPad(text: seq<byte>): (n: nat)
    ensures n <= |text|
  {
    if text == [] || text[0] == PAD then 0 else 1 + LengthToPad(text[1..])
  }

  lemma {:induction false} InFrontOfPads(a: seq<byte>, b: seq<byte>)
    requires PAD !in a && (b != [] ==> b[0] == PAD)
    ensures LengthToPad(a + b) == |a|
  {
    if a == [] {
      assert a + b == b;
    } else {
      assert a[0] in a && (a + b)[1..] == a[1..] + b;
      InFrontOfPads(a[1..], b);
    }
  }

  // Where reading stops, the letters end and the padding begins.
  lemma Halves(text: seq<byte>, data: seq<byte>, alphabet: Alphabet, padding: bool, options: Options)
    requires IsTextOf(text, data, alphabet, padding) && Accepts(options.reading, alphabet)
    ensures Without(text[..FirstStop(text, options)], WHITE_SPACE) == Letters(Encode(data), alphabet)
    ensures Without(text[FirstStop(text, options)..], WHITE_SPACE) == (if padding then Pads(|data|) else [])
    ensures FirstStop(text, options) < |text| ==> text[FirstStop(text, options)] == PAD
  {
    hide ToBase64, Without, FirstStop, Letters, Encode, WHITE_SPACE, IsStop, IsSpace, IsValid, Pads, Accepts;
    var stop, letters, pads := FirstStop(text, options), Letters(Encode(data), alphabet),
                               if padding then Pads(|data|) else [];
    assert text[..stop] + text[stop..] == text;
    WithoutConcat(text[..stop], text[stop..], WHITE_SPACE);
    LettersAreRead(Encode(data), alphabet, options);
    NoSymbolsInPads(|data|, options);
    PadIsNoSymbol(options);
    InFrontOfStop(text, options);
    if stop < |text| {
      StopIsPad(text, data, alphabet, padding, options);
      FirstKept(text[stop..]);
    } else {
      NothingWithout();
    }
    PadsBegin(Without(text[..stop], WHITE_SPACE), Without(text[stop..], WHITE_SPACE), letters, pads);
  }

  // The text is read as the symbols of the data and their padding, if any.
  lemma TextIsRead(text: seq<byte>, data: seq<byte>, alphabet: Alphabet, padding: bool, options: Options)
    requires IsTextOf(text, data, alphabet, padding) && Accepts(options.reading, alphabet)
    ensures Content(text, options) == SymbolsOf(text, options) == Encode(data)
    ensures TailOf(text, options)
         == if TextPads(data,
                        padding) == 0 then End else Padding(if options.garbage then 1 else TextPads(data, padding))
  {
    hide ToBase64, Without, FirstStop, SymbolsOf, Letters, Encode, WHITE_SPACE, IsStop, IsSpace, IsValid, Accepts,
      CountPads;
    var stop := FirstStop(text, options);
    Halves(text, data, alphabet, padding, options);
    SymbolsOfText(text, data, alphabet, padding, options);
    WhiteSpaceIsNoSymbol(text[..stop], options);
    LettersAreRead(Encode(data), alphabet, options);
    NoSymbolsInPads(|data|, options);
    PadsAmongSpace(text[stop..]);
    if stop == |text| {
      NothingWithout();
    } else {
      FirstKept(text[stop..]);
    }
  }

  // ----- What is decoded -----

  // Which modes decode the last bytes, if there are `rest` of them behind the last group of three.
  predicate ReadsAll(last: LastChunk, padding: bool, garbage: bool, rest: nat)
  {
    rest == 0 || match last
                 case Loose => true
                 case Strict => padding || garbage
                 case StopBeforePartial => padding && (rest == 2 || !garbage)
                 case OnlyFullChunks => false
  }

  function ReadBack(data: seq<byte>, last: LastChunk, padding: bool, garbage: bool): seq<byte>
  {
    if ReadsAll(last, padding, garbage, |data| % 3) then data else data[..|data| / 3 * 3]
  }

  function TextVerdict(data: seq<byte>, last: LastChunk, padding: bool, garbage: bool): ErrorCode
  {
    if last.Strict? && !ReadsAll(last, padding, garbage, |data| % 3) then BASE64_INPUT_REMAINDER else SUCCESS
  }

  lemma EncodedSize(n: nat)
    ensures var m := (4 * n + 2) / 3;
            && m / 4 == n / 3 && m % 4 == (if n % 3 == 0 then 0 else n % 3 + 1)
            && 3 * (n / 3) + (if m % 4 >= 2 then m % 4 - 1 else 0) == n
  {
    var q, r := n / 3, n % 3;
    assert n == 3 * q + r;
    if r == 0 {
      assert (4 * n + 2) / 3 == 4 * q;
    } else if r == 1 {
      assert (4 * n + 2) / 3 == 4 * q + 2;
    } else {
      assert (4 * n + 2) / 3 == 4 * q + 3;
    }
  }

  // The bits behind the last byte are zero.
  lemma NoExtraBits(data: seq<byte>)
    ensures !ExtraBits(Encode(data))
  {
    hide Symbol0, Symbol3;
    EncodedSize(|data|);
    if |data| % 3 != 0 {
      EncodedSymbol(data, |Encode(data)| - 1);
      LowBitsAreZero(data[|data| - 1]);
    }
  }

  lemma LowBitsAreZero(x: byte)
    ensures Symbol1(x, 0) & 0x0f == 0 && Symbol2(x, 0) & 0x03 == 0
  {
  }

  // The verdict on such a text, if there is room for the data, and the symbols that are decoded.
  lemma EncodedVerdict(text: seq<byte>, data: seq<byte>, alphabet: Alphabet, padding: bool, options: Options,
                       last: LastChunk, check: bool, capacity: nat)
    requires IsTextOf(text, data, alphabet, padding) && Accepts(options.reading, alphabet)
    requires check ==> |data| <= capacity
    ensures VerdictOn(text, options, last, check, capacity) == TextVerdict(data, last, padding, options.garbage)
    ensures VerdictOn(text, options, last, check, capacity) == SUCCESS ==>
              DecodedOf(text, options, last, check, capacity)
              == if ReadsAll(last, padding, options.garbage, |data| % 3) then |Encode(data)| else |Encode(data)| / 4 * 4
  {
    hide Content, TailOf, ExtraBits, Encode, IsTextOf;
    TextIsRead(text, data, alphabet, padding, options);
    EncodedSize(|data|);
    NoExtraBits(data);
  }

  lemma ReadBackIs(data: seq<byte>)
    ensures Decode(Encode(data)) == data
    ensures var s := Encode(data);
            |s| / 4 * 4 <= |s| && Decode(s[..|s| / 4 * 4]) == data[..|data| / 3 * 3] && Decode(s[..|s|]) == data
  {
    hide Decode, Encode;
    var s := Encode(data);
    RoundTrip(data);
    EncodedSize(|data|);
    DecodePrefix(s, |s| / 4 * 4);
    assert s[..|s|] == s;
    assert 3 * (|s| / 4 * 4) / 4 == |data| / 3 * 3;
  }

  // Any one-shot decoder reads it back.
  lemma DetailsReadBack(text: seq<byte>, data: seq<byte>, alphabet: Alphabet, padding: bool, options: Options,
                        last: LastChunk, r: FullResult)
    requires IsTextOf(text, data, alphabet, padding) && Accepts(options.reading, alphabet)
    requires Details(text, options, last, r)
    ensures r.error == TextVerdict(data, last, padding, options.garbage)
    ensures r.error == SUCCESS ==> r.output == ReadBack(data, last, padding, options.garbage)
  {
    hide VerdictOn, DecodedOf, Content, TailOf, Encode, IsTextOf, ReadsAll;
    EncodedVerdict(text, data, alphabet, padding, options, last, false, 0);
    TextIsRead(text, data, alphabet, padding, options);
    ReadBackIs(data);
  }

  // No '=' of it is misread.
  lemma TextIsRegular(text: seq<byte>, data: seq<byte>, alphabet: Alphabet, padding: bool, options: Options)
    requires IsTextOf(text, data, alphabet, padding) && Accepts(options.reading, alphabet)
    ensures !TailOf(text, options).Bad? && |SymbolsOf(text, options)| == |Content(text, options)|
  {
    hide Content, SymbolsOf, TailOf, Encode, IsTextOf;
    TextIsRead(text, data, alphabet, padding, options);
  }

  // White space may be added anywhere.
  lemma SpaceAdded(head: seq<byte>, space: seq<byte>, tail: seq<byte>, data: seq<byte>, alphabet: Alphabet,
                   padding: bool)
    requires IsTextOf(head + tail, data, alphabet, padding)
    requires forall i :: 0 <= i < |space| ==> space[i] as char in WHITE_SPACE
    ensures IsTextOf(head + space + tail, data, alphabet, padding)
  {
    hide Without, ToText, WHITE_SPACE;
    WithoutConcat(head, tail, WHITE_SPACE);
    WithoutConcat(head + space, tail, WHITE_SPACE);
    WithoutConcat(head, space, WHITE_SPACE);
    OnlyWhiteSpace(space);
  }

  lemma {:induction false} OnlyWhiteSpace(space: seq<byte>)
    requires forall i :: 0 <= i < |space| ==> space[i] as char in WHITE_SPACE
    ensures Without(space, WHITE_SPACE) == []
  {
    if space != [] {
      OnlyWhiteSpace(space[..|space| - 1]);
    }
  }

  // What the encoder writes is such a text.
  lemma {:induction false} NoSpaceInText(data: seq<byte>, alphabet: Alphabet, padding: bool)
    ensures IsTextOf(ToText(data, alphabet, padding), data, alphabet, padding)
  {
    hide Encode, WHITE_SPACE, Letters;
    var options := Options(DefaultOrUrl, false);
    LettersAreRead(Encode(data), alphabet, options);
    NoSymbolsInPads(|data|, options);
    var text := ToText(data, alphabet, padding);
    forall i | 0 <= i < |text| ensures text[i] as char !in WHITE_SPACE {
      WhiteSpaceCharacters(text[i], options);
      NotWhite(options);
    }
    NothingToDrop(text);
  }

  lemma {:induction false} NothingToDrop(text: seq<byte>)
    requires forall i :: 0 <= i < |text| ==> text[i] as char !in WHITE_SPACE
    ensures Without(text, WHITE_SPACE) == text
  {
    if text != [] {
      NothingToDrop(text[..|text| - 1]);
    }
  }
}
