/**
  * The scalar base64 decoder (include/simdutf/scalar/base64.h): concrete code that meets the
  * contract of the one-shot decoder, so that it can be met.
  */
module ScalarBase64 {
  import opened Base64
  import opened SimdutfBase64

  // ----- Four characters in one word -----

  const BAD_WORD: bv32 := 0x01ffffff

  // The tables d0 to d3 by their rule: the bits of the symbol where they belong in a word whose
  // lowest byte comes first.
  function D0(c: byte, options: Options): bv32
  {
    if IsValid(c, options) then (ToBase64(c, options) as bv32) << 2 else BAD_WORD
  }

  function D1(c: byte, options: Options): bv32
  {
    var v := ToBase64(c, options);
    if IsValid(c, options) then ((v as bv32) >> 4) | (((v & 0x0f) as bv32) << 12) else BAD_WORD
  }

  function D2(c: byte, options: Options): bv32
  {
    var v := ToBase64(c, options);
    if IsValid(c, options) then (((v >> 2) as bv32) << 8) | (((v & 0x03) as bv32) << 22) else BAD_WORD
  }

  function D3(c: byte, options: Options): bv32
  {
    if IsValid(c, options) then (ToBase64(c, options) as bv32) << 16 else BAD_WORD
  }

  function Word(c0: byte, c1: byte, c2: byte, c3: byte, options: Options): bv32
  {
    D0(c0, options) | D1(c1, options) | D2(c2, options) | D3(c3, options)
  }

  lemma FastWord(c0: byte, c1: byte, c2: byte, c3: byte, options: Options)
    ensures var x := Word(c0, c1, c2, c3, options);
            && (x < BAD_WORD <==>
                  IsValid(c0, options) && IsValid(c1, options) && IsValid(c2, options) && IsValid(c3, options))
            && (x < BAD_WORD ==>
                  && (x & 0xff) as byte == First(ToBase64(c0, options), ToBase64(c1, options))
                  && ((x >> 8) & 0xff) as byte == Second(ToBase64(c1, options), ToBase64(c2, options))
                  && ((x >> 16) & 0xff) as byte == Third(ToBase64(c2, options), ToBase64(c3, options)))
  {
    hide ToBase64;
  }

  function SymbolOrZero(buffer: seq<Sextet>, i: nat): Sextet { if i < |buffer| then buffer[i] else 0 }

  // The word built from up to four symbols, highest first.
  function Triple(buffer: seq<Sextet>): bv32
    requires |buffer| <= 4
  {
    Combined(SymbolOrZero(buffer, 0), SymbolOrZero(buffer, 1), SymbolOrZero(buffer, 2), SymbolOrZero(buffer, 3))
  }

  function Combined(a: Sextet, b: Sextet, c: Sextet, d: Sextet): bv32
  {
    ((a as bv32) << 18) + ((b as bv32) << 12) + ((c as bv32) << 6) + (d as bv32)
  }

  function TripleBytes(buffer: seq<Sextet>): (bytes: seq<byte>)
    requires |buffer| <= 4
    ensures |bytes| == 3
  {
    HighBytes(Triple(buffer))
  }

  function HighBytes(t: bv32): (bytes: seq<byte>)
    ensures |bytes| == 3
  {
    [((t >> 16) & 0xff) as byte, ((t >> 8) & 0xff) as byte, (t & 0xff) as byte]
  }

  lemma WordOf(a: Sextet, b: Sextet, c: Sextet, d: Sextet)
    ensures HighBytes(Combined(a, b, c, d)) == [First(a, b), Second(b, c), Third(c, d)]
  {
  }

  // Its leading bytes are the decoding of the symbols.
  lemma TripleIsDecode(buffer: seq<Sextet>)
    requires 2 <= |buffer| <= 4
    ensures Decode(buffer) == TripleBytes(buffer)[..|buffer| - 1]
  {
    hide First, Second, Third, Triple, SymbolOrZero, Decode;
    TripleParts(buffer);
    DecodeShort(buffer);
  }

  lemma TripleParts(buffer: seq<Sextet>)
    requires |buffer| <= 4
    ensures TripleBytes(buffer) == [First(SymbolOrZero(buffer, 0), SymbolOrZero(buffer, 1)),
                                    Second(SymbolOrZero(buffer, 1), SymbolOrZero(buffer, 2)),
                                    Third(SymbolOrZero(buffer, 2), SymbolOrZero(buffer, 3))]
  {
    hide First, Second, Third, SymbolOrZero, Combined, HighBytes;
    WordOf(SymbolOrZero(buffer, 0), SymbolOrZero(buffer, 1), SymbolOrZero(buffer, 2), SymbolOrZero(buffer, 3));
  }

  lemma DecodeShort(buffer: seq<Sextet>)
    requires 2 <= |buffer| <= 4
    ensures Decode(buffer) == [First(SymbolOrZero(buffer, 0), SymbolOrZero(buffer, 1)),
                               Second(SymbolOrZero(buffer, 1), SymbolOrZero(buffer, 2)),
                               Third(SymbolOrZero(buffer, 2), SymbolOrZero(buffer, 3))][..|buffer| - 1]
  {
    hide First, Second, Third;
  }

  // ----- The decoding loop -----

  // g whole groups are decoded, and src is just behind the last of their symbols.
  ghost predicate Progress(text: seq<byte>, options: Options, src: nat, g: nat, output: seq<byte>)
  {
    && src <= FirstStop(text, options) && IsBehindSymbol(text, options, src)
    && |SymbolsOf(text[..src], options)| == 4 * g
    && output == Decode(SymbolsOf(text[..src], options))
  }

  // The symbols of the next group so far.
  ghost predicate Gathered(text: seq<byte>, options: Options, start: nat, src: nat, buffer: seq<Sextet>)
  {
    && start <= src <= FirstStop(text, options)
    && SymbolsOf(text[..src], options) == SymbolsOf(text[..start], options) + buffer
  }

  lemma Begin(text: seq<byte>, options: Options)
    ensures Progress(text, options, 0, 0, [])
  {
    NoText(options);
    assert text[..0] == [];
  }

  lemma GatherNone(text: seq<byte>, options: Options, start: nat, g: nat, output: seq<byte>)
    requires Progress(text, options, start, g, output)
    ensures Gathered(text, options, start, start, [])
  {
    hide SymbolsOf;
  }

  lemma GatherOne(text: seq<byte>, options: Options, start: nat, src: nat, buffer: seq<Sextet>)
    requires Gathered(text, options, start, src, buffer) && src < |text|
    ensures IsStop(text[src], options) <==> FirstStop(text, options) == src
    ensures !IsStop(text[src], options) ==>
              Gathered(text, options, start, src + 1,
                       if IsValid(text[src], options) then buffer + [ToBase64(text[src], options)] else buffer)
  {
    hide ToBase64, FirstStop, SymbolsOf;
    NextSymbolOf(text, src, options);
  }

  lemma NextGroup(text: seq<byte>, options: Options, start: nat, src: nat, g: nat, output: seq<byte>,
                  buffer: seq<Sextet>)
    requires Progress(text, options, start, g, output) && Gathered(text, options, start, src, buffer) && |buffer| == 4
    requires IsBehindSymbol(text, options, src)
    ensures Progress(text, options, src, g + 1, output + Decode(buffer)) && |output| == 3 * g
  {
    hide SymbolsOf, FirstStop;
    DecodeConcat(SymbolsOf(text[..start], options), buffer);
  }

  // How the loop ends on a text without its padding, of which there are `pads`.  The flag asks the
  // caller to report the position of the padding.
  ghost predicate TailResult(text: seq<byte>, pads: nat, options: Options, last: LastChunk, check: bool, capacity: nat,
                             r: FullResult, flag: bool)
  {
    var s, stop := Content(text, options), FirstStop(text, options);
    var tail := Follows(stop < |text|, pads);
    var m := Decoded(s, tail, options.garbage, last, check, capacity);
    var whole := Decode(s[..|s| / 4 * 4]);
    && r.error == Verdict(s, tail, options.garbage, last, check, capacity)
    && (check ==> |r.output| <= capacity)
    && match r.error
       case INVALID_BASE64_CHARACTER => flag == !tail.Bad? && r.inputCount == stop && r.output == whole
       case BASE64_INPUT_REMAINDER => flag == (|s| % 4 >= 2) && r.inputCount == |text| && r.output == whole
       case BASE64_EXTRA_BITS => !flag && r.inputCount == |text| && r.output == whole
       case OUTPUT_BUFFER_TOO_SMALL =>
         !flag && Stopped(text, options, m, r) && IsBehindSymbol(text, options, r.inputCount)
       case SUCCESS =>
         !flag && if KeepsPartial(|s| % 4, pads, last) then Stopped(text, options, m, r)
                  else r.inputCount == |text| && r.output == Decode(s)
  }

  // What follows the text that the loop reads.
  function Follows(bad: bool, pads: nat): Tail
  {
    if bad then Bad else if pads > 0 then Padding(pads) else End
  }

  // Stopped behind m symbols, a number of whole groups.
  ghost predicate Stopped(text: seq<byte>, options: Options, m: nat, r: FullResult)
  {
    var s := Content(text, options);
    && m <= |s| && r.inputCount <= FirstStop(text, options)
    && |SymbolsOf(text[..r.inputCount], options)| == m && r.output == Decode(s[..m])
  }

  lemma StopsAt(text: seq<byte>, options: Options, src: nat, g: nat, output: seq<byte>, error: ErrorCode)
    requires Progress(text, options, src, g, output)
    ensures Stopped(text, options, 4 * g, FullResult(error, src, output))
    ensures IsBehindSymbol(text, options, src) && |output| == 3 * g
  {
    hide SymbolsOf, FirstStop;
    SymbolsMonotone(text, options, src, FirstStop(text, options));
    assert Content(text, options)[..4 * g] == SymbolsOf(text[..src], options);
  }

  // There is one more group, but no room for it.
  lemma NoRoom(text: seq<byte>, pads: nat, options: Options, last: LastChunk, capacity: nat, start: nat, src: nat,
               g: nat, output: seq<byte>, buffer: seq<Sextet>)
    requires Progress(text, options, start, g, output) && Gathered(text, options, start, src, buffer) && |buffer| == 4
    requires 3 * g <= capacity < 3 * g + 3
    ensures TailResult(text, pads, options, last, true, capacity, FullResult(OUTPUT_BUFFER_TOO_SMALL, start, output),
                       false)
  {
    hide SymbolsOf, FirstStop, Stopped, Decode;
    StopsAt(text, options, start, g, output, OUTPUT_BUFFER_TOO_SMALL);
    SymbolsMonotone(text, options, src, FirstStop(text, options));
    assert capacity / 3 == g;
  }

  // The characters end, or reading stops, within the next group.
  lemma PartialGroup(text: seq<byte>, options: Options, start: nat, g: nat, output: seq<byte>, buffer: seq<Sextet>)
    requires Progress(text, options, start, g, output)
    requires Gathered(text, options, start, FirstStop(text, options), buffer) && |buffer| < 4
    ensures var s := Content(text, options);
            && |s| / 4 == g && |s| % 4 == |buffer| && output == Decode(s[..4 * g])
            && Decode(s) == output + Decode(buffer)
            && (|buffer| < 2 ==> Decode(buffer) == []) && |output| == 3 * g
            && (forall capacity: nat :: 3 * g <= capacity ==> g <= capacity / 3)
            && (|buffer| > 0 ==> s[|s| - 1] == buffer[|buffer| - 1])
  {
    hide SymbolsOf, FirstStop;
    DecodeConcat(SymbolsOf(text[..start], options), buffer);
  }

  lemma FourInARow(text: seq<byte>, options: Options, src: nat, g: nat, output: seq<byte>)
    requires Progress(text, options, src, g, output) && src + 4 <= |text|
    requires IsValid(text[src], options) && IsValid(text[src + 1], options)
    requires IsValid(text[src + 2], options) && IsValid(text[src + 3], options)
    ensures var buffer := FourSymbols(text, options, src);
            && Gathered(text, options, src, src + 4, buffer) && IsBehindSymbol(text, options, src + 4)
            && Decode(buffer)
               == [First(buffer[0], buffer[1]), Second(buffer[1], buffer[2]), Third(buffer[2], buffer[3])]
  {
    hide ToBase64, Progress, Gathered, First, Second, Third, FirstStop, SymbolsOf, Decode;
    var a: Sextet, b: Sextet, c: Sextet, d: Sextet := ToBase64(text[src], options), ToBase64(text[src + 1], options),
      ToBase64(text[src + 2], options), ToBase64(text[src + 3], options);
    GatherNone(text, options, src, g, output);
    GatherOne(text, options, src, src, []);
    assert [] + [a] == [a] && [a] + [b] == [a, b] && [a, b] + [c] == [a, b, c] && [a, b, c] + [d] == [a, b, c, d];
    GatherOne(text, options, src, src + 1, [a]);
    GatherOne(text, options, src, src + 2, [a, b]);
    GatherOne(text, options, src, src + 3, [a, b, c]);
    DecodeGroup(a, b, c, d);
  }

  function FourSymbols(text: seq<byte>, options: Options, src: nat): (buffer: seq<Sextet>)
    requires src + 4 <= |text|
    requires IsValid(text[src], options) && IsValid(text[src + 1], options)
    requires IsValid(text[src + 2], options) && IsValid(text[src + 3], options)
    ensures |buffer| == 4
  {
    [ToBase64(text[src], options), ToBase64(text[src + 1], options), ToBase64(text[src + 2], options),
     ToBase64(text[src + 3], options)]
  }

  // base64_tail_decode_impl.  In a text whose garbage is skipped, '=' was removed with all that
  // follows it.
  method TailDecode(text: seq<byte>, pads: nat, options: Options, last: LastChunk, check: bool, capacity: nat)
    returns (r: FullResult, flag: bool)
    requires pads <= 2 && (options.garbage ==> PAD !in text && pads <= 1)
    ensures TailResult(text, pads, options, last, check, capacity, r, flag)
  {
    hide ToBase64, Progress, Gathered, TailResult, SymbolsOf, Decode, FirstStop, Word, TripleBytes, Stopped, IsStop;
    var src: nat, output: seq<byte> := 0, [];
    ghost var g: nat := 0;
    Begin(text, options);
    while true
      invariant src <= |text| && Progress(text, options, src, g, output) && |output| == 3 * g
      invariant check ==> 3 * g <= capacity
      decreases |text| - src
    {
      var full;
      src, output, full, g := FastGroups(text, pads, options, last, check, capacity, src, g, output);
      if full {
        return FullResult(OUTPUT_BUFFER_TOO_SMALL, src, output), false;
      }
      var start, buffer, bad := Gather(text, options, src, g, output);
      src := bad;
      if |buffer| < 4 {
        if src < |text| {
          AtBad(text, pads, options, last, check, capacity, start, src, g, output, buffer);
          return FullResult(INVALID_BASE64_CHARACTER, src, output), false;
        }
        r, flag := FinalGroup(text, pads, options, last, check, capacity, start, g, output, buffer);
        return;
      }
      if check && capacity - |output| < 3 {
        NoRoom(text, pads, options, last, capacity, start, src, g, output, buffer);
        return FullResult(OUTPUT_BUFFER_TOO_SMALL, start, output), false;
      }
      NextGroup(text, options, start, src, g, output, buffer);
      TripleIsDecode(buffer);
      assert TripleBytes(buffer)[..3] == TripleBytes(buffer);
      output := output + TripleBytes(buffer);
      g := g + 1;
    }
  }

  // Decode while the next four characters are symbols and there is room for their bytes.
  method FastGroups(text: seq<byte>, ghost pads: nat, options: Options, ghost last: LastChunk, check: bool,
                    capacity: nat, src0: nat, ghost g0: nat, output0: seq<byte>)
    returns (src: nat, output: seq<byte>, full: bool, ghost g: nat)
    requires src0 <= |text| && Progress(text, options, src0, g0, output0) && |output0| == 3 * g0
    requires check ==> 3 * g0 <= capacity
    ensures src0 <= src <= |text| && Progress(text, options, src, g, output) && |output| == 3 * g
    ensures check ==> 3 * g <= capacity
    ensures full ==> check && TailResult(text, pads, options, last, check, capacity,
                                         FullResult(OUTPUT_BUFFER_TOO_SMALL, src, output), false)
  {
    hide *;
    src, output, g := src0, output0, g0;
    while src + 4 <= |text| && Word(text[src], text[src + 1], text[src + 2], text[src + 3], options) < BAD_WORD
      invariant src0 <= src <= |text| && Progress(text, options, src, g, output) && |output| == 3 * g
      invariant check ==> 3 * g <= capacity
    {
      var x := Word(text[src], text[src + 1], text[src + 2], text[src + 3], options);
      FastGroup(text, options, src, g, output);
      if check && capacity - |output| < 3 {
        FastNoRoom(text, pads, options, last, capacity, src, g, output);
        return src, output, true, g;
      }
      output := output + LowBytes(x);
      src, g := src + 4, g + 1;
    }
    full := false;
  }

  // The bytes of a combined word.
  function LowBytes(x: bv32): (bytes: seq<byte>)
    ensures |bytes| == 3
  {
    [(x & 0xff) as byte, ((x >> 8) & 0xff) as byte, ((x >> 16) & 0xff) as byte]
  }

  // Four symbols in a row are a group, and their combined word holds its bytes.
  lemma FastGroup(text: seq<byte>, options: Options, src: nat, g: nat, output: seq<byte>)
    requires Progress(text, options, src, g, output) && src + 4 <= |text|
    requires Word(text[src], text[src + 1], text[src + 2], text[src + 3], options) < BAD_WORD
    ensures var x := Word(text[src], text[src + 1], text[src + 2], text[src + 3], options);
            Progress(text, options, src + 4, g + 1, output + LowBytes(x))
  {
    hide ToBase64, Progress, Gathered, SymbolsOf, Decode, FirstStop, Word, IsBehindSymbol, IsValid, First, Second,
      Third;
    FastWord(text[src], text[src + 1], text[src + 2], text[src + 3], options);
    FourInARow(text, options, src, g, output);
    NextGroup(text, options, src, src + 4, g, output, FourSymbols(text, options, src));
  }

  lemma FastNoRoom(text: seq<byte>, pads: nat, options: Options, last: LastChunk, capacity: nat, src: nat, g: nat,
                   output: seq<byte>)
    requires Progress(text, options, src, g, output) && src + 4 <= |text| && 3 * g <= capacity < 3 * g + 3
    requires Word(text[src], text[src + 1], text[src + 2], text[src + 3], options) < BAD_WORD
    ensures TailResult(text, pads, options, last, true, capacity, FullResult(OUTPUT_BUFFER_TOO_SMALL, src, output),
                       false)
  {
    hide ToBase64, Progress, Gathered, TailResult, SymbolsOf, Decode, FirstStop, Word, IsBehindSymbol, IsValid;
    FastWord(text[src], text[src + 1], text[src + 2], text[src + 3], options);
    FourInARow(text, options, src, g, output);
    NoRoom(text, pads, options, last, capacity, src, src + 4, g, output, FourSymbols(text, options, src));
  }

  // Collect four symbols one by one; fewer mean that the text ends or that a bad character follows.
  method Gather(text: seq<byte>, options: Options, start0: nat, ghost g: nat, ghost output: seq<byte>)
    returns (start: nat, buffer: seq<Sextet>, src: nat)
    requires start0 <= |text| && Progress(text, options, start0, g, output)
    requires options.garbage ==> PAD !in text
    ensures start == start0 && src <= |text| && Gathered(text, options, start, src, buffer)
    ensures |buffer| <= 4 && src >= start + |buffer|
    ensures if |buffer| < 4 then src == FirstStop(text, options) else IsBehindSymbol(text, options, src)
  {
    hide ToBase64, Progress, Gathered, SymbolsOf, FirstStop;
    start, buffer, src := start0, [], start0;
    GatherNone(text, options, start, g, output);
    while |buffer| < 4 && src < |text|
      invariant start + |buffer| <= src <= |text| && |buffer| <= 4
      invariant Gathered(text, options, start, src, buffer)
      invariant |buffer| == 4 ==> IsBehindSymbol(text, options, src)
    {
      GatherOne(text, options, start, src, buffer);
      if IsValid(text[src], options) {
        buffer := buffer + [ToBase64(text[src], options)];
      } else if !options.garbage && ToBase64(text[src], options) > 64 {
        return;
      }
      src := src + 1;
    }
    GatheredLimit(text, options, start, src, buffer);
  }

  lemma GatheredLimit(text: seq<byte>, options: Options, start: nat, src: nat, buffer: seq<Sextet>)
    requires Gathered(text, options, start, src, buffer)
    ensures start <= src <= FirstStop(text, options)
  {
  }

  lemma AtBad(text: seq<byte>, pads: nat, options: Options, last: LastChunk, check: bool, capacity: nat, start: nat,
              src: nat, g: nat, output: seq<byte>, buffer: seq<Sextet>)
    requires src == FirstStop(text, options) < |text|
    requires Progress(text, options, start, g, output) && Gathered(text, options, start, src, buffer) && |buffer| < 4
    requires check ==> 3 * g <= capacity
    ensures TailResult(text, pads, options, last, check, capacity, FullResult(INVALID_BASE64_CHARACTER, src, output),
                       false)
  {
    hide SymbolsOf, FirstStop, Decode, Progress, Gathered, Stopped, Content, ExtraBits, Ending;
    PartialGroup(text, options, start, g, output, buffer);
  }

  // What each way to end within a group means for the loop.
  lemma GroupEnds(text: seq<byte>, pads: nat, options: Options, last: LastChunk, check: bool, capacity: nat,
                  start: nat, g: nat, output: seq<byte>, buffer: seq<Sextet>)
    requires pads <= 2 && FirstStop(text, options) == |text| && |buffer| < 4
    requires Progress(text, options, start, g, output) && Gathered(text, options, start, |text|, buffer)
    requires check ==> 3 * g <= capacity
    ensures var e := Ending(|buffer|, pads, ExtraBits(Content(text, options)), options.garbage, last,
                            check && 3 * g + |buffer| - 1 > capacity);
            match e
            case INVALID_BASE64_CHARACTER =>
              TailResult(text, pads, options, last, check, capacity, FullResult(e, |text|, output), true)
            case BASE64_INPUT_REMAINDER =>
              TailResult(text, pads, options, last, check, capacity, FullResult(e, |text|, output), |buffer| >= 2)
            case BASE64_EXTRA_BITS =>
              TailResult(text, pads, options, last, check, capacity, FullResult(e, |text|, output), false)
            case OUTPUT_BUFFER_TOO_SMALL =>
              TailResult(text, pads, options, last, check, capacity, FullResult(e, start, output), false)
            case SUCCESS =>
              TailResult(text, pads, options, last, check, capacity,
                         if KeepsPartial(|buffer|, pads, last) then FullResult(e, start, output)
                         else FullResult(e, |text|, output + Decode(buffer)), false)
  {
    hide SymbolsOf, FirstStop, Decode, Progress, Gathered, Stopped, Content, ExtraBits, KeepsPartial;
    PartialGroup(text, options, start, g, output, buffer);
    StopsAt(text, options, start, g, output, SUCCESS);
    StopsAt(text, options, start, g, output, OUTPUT_BUFFER_TOO_SMALL);
    var s := Content(text, options);
    assert s[..|s|] == s;
  }

  // The text ended within a group of fewer than four symbols.
  method FinalGroup(text: seq<byte>, pads: nat, options: Options, last: LastChunk, check: bool, capacity: nat,
                    start: nat, ghost g: nat, output0: seq<byte>, buffer: seq<Sextet>)
    returns (r: FullResult, flag: bool)
    requires pads <= 2 && FirstStop(text, options) == |text| && |buffer| < 4 && |output0| == 3 * g
    requires Progress(text, options, start, g, output0) && Gathered(text, options, start, |text|, buffer)
    requires check ==> 3 * g <= capacity
    ensures TailResult(text, pads, options, last, check, capacity, r, flag)
  {
    hide SymbolsOf, FirstStop, Decode, Progress, Gathered, TailResult, TripleBytes, Triple, Content, ExtraBits;
    PartialGroup(text, options, start, g, output0, buffer);
    GroupEnds(text, pads, options, last, check, capacity, start, g, output0, buffer);
    assert output0 + [] == output0;
    LastBits(Content(text, options), buffer);
    var idx, garbage, output := |buffer|, options.garbage, output0;
    if !garbage && idx + pads > 4 {
      return FullResult(INVALID_BASE64_CHARACTER, |text|, output), true;
    }
    if !garbage && last.Loose? && idx >= 2 && pads > 0 && (idx + pads) % 4 != 0 {
      return FullResult(INVALID_BASE64_CHARACTER, |text|, output), true;
    }
    if !garbage && last.Strict? && idx >= 2 && (idx + pads) % 4 != 0 {
      return FullResult(BASE64_INPUT_REMAINDER, |text|, output), true;
    }
    if KeepsPartial(idx, pads, last) {
      return FullResult(SUCCESS, start, output), false;
    }
    if idx >= 2 {
      if !garbage && last.Strict? && Triple(buffer) & (if idx == 2 then 0xffff else 0xff) != 0 {
        return FullResult(BASE64_EXTRA_BITS, |text|, output), false;
      }
      if check && capacity - |output| < idx - 1 {
        return FullResult(OUTPUT_BUFFER_TOO_SMALL, start, output), false;
      }
      TripleIsDecode(buffer);
      output := output + TripleBytes(buffer)[..idx - 1];
    } else if !garbage && idx == 1 && (!last.IsPartial() || pads > 0) {
      return FullResult(BASE64_INPUT_REMAINDER, |text|, output), false;
    } else if !garbage && idx == 0 && pads > 0 {
      return FullResult(INVALID_BASE64_CHARACTER, |text|, output), true;
    }
    return FullResult(SUCCESS, |text|, output), false;
  }

  // The bits that strict decoding looks at.
  lemma LastBits(s: seq<Sextet>, buffer: seq<Sextet>)
    requires |s| % 4 == |buffer| && (|buffer| > 0 ==> s[|s| - 1] == buffer[|buffer| - 1])
    ensures |buffer| == 2 ==> (ExtraBits(s) <==> Triple(buffer) & 0xffff != 0)
    ensures |buffer| == 3 ==> (ExtraBits(s) <==> Triple(buffer) & 0xff != 0)
  {
    if 2 <= |buffer| <= 3 {
      LowBits(buffer[0], buffer[1], if |buffer| == 3 then buffer[2] else 0);
    }
  }

  lemma LowBits(a: Sextet, b: Sextet, c: Sextet)
    ensures var t := Combined(a, b, c, 0);
            && (c == 0 ==> (t & 0xffff != 0 <==> b & 0x0f != 0))
            && (t & 0xff != 0 <==> c & 0x03 != 0)
  {
  }

  // ----- The whole input -----

  // What find_end returns: the length of the text without its padding, the number of '=', the
  // position of the first of them, and the length up to which the text is read.
  ghost predicate EndFound(text: seq<byte>, options: Options, length: nat, pads: nat, equalLocation: nat,
                           fullLength: nat)
  {
    && length <= equalLocation <= |text|
    && if options.garbage then
         && length == equalLocation == FirstStop(text, options)
         && pads == (if length < |text| then 1 else 0) && fullLength == length + pads
       else
         && pads <= 2 && fullLength == |text|
         && (forall i :: length <= i < equalLocation ==> IsSpace(text[i]))
         && (pads == 0 ==> equalLocation == length && forall i :: length <= i < |text| ==> IsSpace(text[i]))
         && (pads > 0 ==> equalLocation < |text| && text[equalLocation] == PAD
                          && IsPadding(text[equalLocation..]) && CountPads(text[equalLocation..]) == pads)
         && (pads == 2 ==> equalLocation == length)
         && (pads < 2 && length > 0 ==> !IsSpace(text[length - 1]) && text[length - 1] != PAD)
  }

  // White space at the end is set aside.
  method TrimSpace(text: seq<byte>, end: nat) returns (length: nat)
    requires end <= |text|
    ensures length <= end && forall i :: length <= i < end ==> IsSpace(text[i])
    ensures length > 0 ==> !IsSpace(text[length - 1])
  {
    length := end;
    while length > 0 && IsSpace(text[length - 1])
      invariant length <= end && forall i :: length <= i < end ==> IsSpace(text[i])
    {
      length := length - 1;
    }
  }

  method FindEnd(text: seq<byte>, options: Options)
    returns (length: nat, pads: nat, equalLocation: nat, fullLength: nat)
    ensures EndFound(text, options, length, pads, equalLocation, fullLength)
  {
    hide FirstStop, IsPadding, CountPads;
    pads, fullLength := 0, |text|;
    if options.garbage {
      length := 0;
      while length < |text| && text[length] != PAD
        invariant length <= |text| && forall i :: 0 <= i < length ==> text[i] != PAD
      {
        length := length + 1;
      }
      FirstStopIs(text, length, options);
      equalLocation := length;
      if length < |text| {
        pads, fullLength := 1, length + 1;
      }
      return;
    }
    length := TrimSpace(text, |text|);
    equalLocation := length;
    if length > 0 && text[length - 1] == PAD {
      pads, equalLocation := 1, length - 1;
      NextPad(text, equalLocation, |text|);
      length := TrimSpace(text, length - 1);
      if length > 0 && text[length - 1] == PAD {
        NextPad(text, length - 1, equalLocation);
        pads, equalLocation := 2, length - 1;
        length := length - 1;
      }
    }
  }

  // A '=' followed by white space, and perhaps by the other '='.
  lemma NextPad(text: seq<byte>, at: nat, next: nat)
    requires at < next <= |text| && text[at] == PAD && forall i :: at < i < next ==> IsSpace(text[i])
    requires next < |text| ==> IsPadding(text[next..]) && CountPads(text[next..]) == 1
    ensures CountPads(text[at..]) == if next < |text| then 2 else 1
    ensures IsPadding(text[at..])
  {
    hide CountPads, IsPadding;
    var space, rest := text[at + 1..next], text[next..];
    assert text[at..] == [PAD] + space + rest;
    CountPadsConcat([PAD] + space, rest);
    CountPadsConcat([PAD], space);
    OnePad();
    OnlySpace(space);
    if next < |text| {
      PadsAndSpace(rest);
    }
    forall i | 0 <= i < |text[at..]| ensures text[at..][i] == PAD || IsSpace(text[at..][i]) {
      assert text[at..][i] == text[at + i];
      assert at + i >= next ==> text[at + i] == rest[at + i - next];
    }
    ArePadding(text[at..]);
  }

  lemma OnlySpace(text: seq<byte>)
    requires forall i :: 0 <= i < |text| ==> IsSpace(text[i])
    ensures CountPads(text) == 0
  {
  }

  lemma PadsAndSpace(text: seq<byte>)
    requires IsPadding(text)
    ensures forall i :: 0 <= i < |text| ==> text[i] == PAD || IsSpace(text[i])
  {
  }

  lemma ArePadding(text: seq<byte>)
    requires 1 <= CountPads(text) <= 2 && forall i :: 0 <= i < |text| ==> text[i] == PAD || IsSpace(text[i])
    ensures IsPadding(text)
  {
  }

  lemma OnePad()
    ensures CountPads([PAD]) == 1
  {
    assert [PAD][..0] == [];
  }

  // Reading stops in the text without its padding where it stops in the whole text.
  lemma EndMeans(text: seq<byte>, options: Options, length: nat, pads: nat, equalLocation: nat, fullLength: nat)
    requires EndFound(text, options, length, pads, equalLocation, fullLength)
    ensures var body, stop := text[..length], FirstStop(text[..length], options);
            && Content(body, options) == Content(text, options)
            && if stop < length then FirstStop(text, options) == stop && TailOf(text, options) == Bad
               else FirstStop(text, options) == (if pads > 0 then equalLocation else |text|)
                    && TailOf(text, options) == if pads > 0 then Padding(pads) else End
  {
    hide ToBase64, FirstStop, SymbolsOf, IsPadding, CountPads, IsValid;
    var body, stop := text[..length], FirstStop(text[..length], options);
    assert body[..stop] == text[..stop];
    if stop < length {
      FirstStopIs(text, stop, options);
      if text[stop] == PAD {
        NotPadding(text, options, length, pads, equalLocation, fullLength, stop);
      }
    } else {
      var end := if pads > 0 then equalLocation else |text|;
      forall i | 0 <= i < end ensures !IsStop(text[i], options) {
        assert i < length ==> text[i] == body[i];
        KindsOfCharacters(text[i], options);
      }
      if end < |text| {
        assert IsStop(text[end], options) by {
          StopAtPad(options);
        }
      }
      FirstStopIs(text, end, options);
      forall k | length <= k < end ensures !IsValid(text[k], options) {
        SpaceIsNoSymbol(text[k], options);
      }
      AllIgnored(text, options, length, end);
    }
  }

  lemma StopAtPad(options: Options)
    ensures IsStop(PAD, options)
  {
  }

  lemma SpaceIsNoSymbol(c: byte, options: Options)
    requires IsSpace(c)
    ensures !IsValid(c, options)
  {
  }

  // A '=' inside the text is no padding.
  lemma NotPadding(text: seq<byte>, options: Options, length: nat, pads: nat, equalLocation: nat, fullLength: nat,
                   stop: nat)
    requires EndFound(text, options, length, pads, equalLocation, fullLength) && !options.garbage
    requires stop < length && text[stop] == PAD
    ensures !IsPadding(text[stop..])
  {
    if pads == 2 {
      assert text[stop..] == text[stop..length] + text[length..];
      CountPadsConcat(text[stop..length], text[length..]);
      assert text[stop..length][0] == PAD;
    } else {
      assert text[stop..][length - 1 - stop] == text[length - 1];
    }
  }

  // The result for the whole input, in a single pass.
  ghost predicate Exact(text: seq<byte>, options: Options, last: LastChunk, check: bool, capacity: nat, r: FullResult)
  {
    var s := Content(text, options);
    && Allowed(text, options, last, check, capacity, r)
    && (r.error != SUCCESS && r.error != OUTPUT_BUFFER_TOO_SMALL ==> r.output == Decode(s[..|s| / 4 * 4]))
    && (r.error == SUCCESS ==>
          r.inputCount == FinalCount(text, options, last, DecodedOf(text, options, last, check, capacity)))
  }

  // The position after a text of which m symbols are decoded.
  function FinalCount(text: seq<byte>, options: Options, last: LastChunk, m: nat): nat
  {
    if ConsumesPadding(text, options, last) then
      if options.garbage then FirstStop(text, options) + 1 else |text|
    else if m == |Content(text, options)| then |text|
    else Canonical(text, options, m)
  }

  // base64_to_binary_details_impl and base64_to_binary_details_safe_impl.
  method WholeDecode(text: seq<byte>, options: Options, last: LastChunk, check: bool, capacity: nat)
    returns (r: FullResult)
    ensures Exact(text, options, last, check, capacity, r)
  {
    hide ToBase64, FirstStop, SymbolsOf, Decode, TailResult, Exact, Canonical, EndFound, Content, TailOf, Verdict,
      IsValid, IsStop;
    var length, pads, equalLocation, fullLength := FindEnd(text, options);
    EndBounds(text, options, length, pads, equalLocation, fullLength);
    if length == 0 {
      NoBody(text, options, last, check, capacity, pads, equalLocation, fullLength);
      if !options.garbage && pads > 0 {
        return FullResult(INVALID_BASE64_CHARACTER, equalLocation, []);
      }
      return FullResult(SUCCESS, fullLength, []);
    }
    var tail, flag := TailDecode(text[..length], pads, options, last, check, capacity);
    r := Patch(tail, flag, equalLocation, fullLength, last);
    if !last.IsPartial() && r.error == SUCCESS && pads > 0 && !options.garbage
       && (|r.output| % 3 == 0 || |r.output| % 3 + 1 + pads != 4) {
      // The tail was already checked against the padding.
      CheckedPads(text, options, last, check, capacity, length, pads, equalLocation, fullLength, tail, flag);
      assert false;
      return FullResult(INVALID_BASE64_CHARACTER, equalLocation, r.output);
    }
    r := Extend(text, options, last, check, capacity, length, pads, equalLocation, fullLength, tail, flag, r);
  }

  // patch_tail_result.
  function Patch(r: FullResult, flag: bool, equalLocation: nat, fullLength: nat, last: LastChunk): FullResult
  {
    if r.error == SUCCESS && (!last.IsPartial() || |r.output| % 3 != 0) then r.(inputCount := fullLength)
    else if flag then r.(inputCount := equalLocation)
    else r
  }

  lemma CheckedPads(text: seq<byte>, options: Options, last: LastChunk, check: bool, capacity: nat, length: nat,
                    pads: nat, equalLocation: nat, fullLength: nat, tail: FullResult, flag: bool)
    requires EndFound(text, options, length, pads, equalLocation, fullLength)
    requires TailResult(text[..length], pads, options, last, check, capacity, tail, flag)
    ensures tail.error == SUCCESS && !last.IsPartial() && pads > 0 && !options.garbage ==>
              |tail.output| % 3 != 0 && |tail.output| % 3 + 1 + pads == 4
  {
    hide *;
    EndBounds(text, options, length, pads, equalLocation, fullLength);
    TailMeans(text, options, last, check, capacity, length, pads, equalLocation, fullLength, tail, flag);
    TailBounds(text, options, last, check, capacity, length, pads, equalLocation, tail, flag);
  }

  // A partial decoding ends at the end of the text, or just behind a symbol.
  method Extend(text: seq<byte>, options: Options, last: LastChunk, ghost check: bool, ghost capacity: nat,
                ghost length: nat, ghost pads: nat, ghost equalLocation: nat, fullLength: nat, ghost tail: FullResult,
                ghost flag: bool, r0: FullResult)
    returns (r: FullResult)
    requires EndFound(text, options, length, pads, equalLocation, fullLength)
    requires TailResult(text[..length], pads, options, last, check, capacity, tail, flag)
    requires r0 == Patch(tail, flag, equalLocation, fullLength, last)
    ensures Exact(text, options, last, check, capacity, r)
  {
    hide ToBase64, FirstStop, SymbolsOf, Decode, TailResult, Exact, Canonical, EndFound, Content, TailOf, Verdict,
      IsValid, IsStop;
    EndBounds(text, options, length, pads, equalLocation, fullLength);
    TailMeans(text, options, last, check, capacity, length, pads, equalLocation, fullLength, tail, flag);
    TailBounds(text, options, last, check, capacity, length, pads, equalLocation, tail, flag);
    r := r0;
    if r.error == SUCCESS {
      SuccessPosition(text, options, last, check, capacity, length, pads, equalLocation, fullLength, tail);
    }
    if last.IsPartial() && r.error == SUCCESS && r.inputCount < fullLength {
      var count := FinalPosition(text, options, r.inputCount, fullLength);
      r := r.(inputCount := count);
    }
    Patched(text, options, last, check, capacity, length, pads, equalLocation, fullLength, tail, flag, r);
  }

  lemma EndBounds(text: seq<byte>, options: Options, length: nat, pads: nat, equalLocation: nat, fullLength: nat)
    requires EndFound(text, options, length, pads, equalLocation, fullLength)
    ensures pads <= 2 && length <= equalLocation <= |text| && length <= fullLength <= |text|
    ensures options.garbage ==> pads <= 1 && PAD !in text[..length]
  {
    hide IsPadding, CountPads, FirstStop;
  }

  lemma NoBody(text: seq<byte>, options: Options, last: LastChunk, check: bool, capacity: nat, pads: nat,
               equalLocation: nat, fullLength: nat)
    requires EndFound(text, options, 0, pads, equalLocation, fullLength)
    ensures Exact(text, options, last, check, capacity,
                  if !options.garbage && pads > 0 then FullResult(INVALID_BASE64_CHARACTER, equalLocation, [])
                  else FullResult(SUCCESS, fullLength, []))
  {
    hide ToBase64, FirstStop, SymbolsOf, IsPadding, CountPads, IsValid, IsStop, Canonical, TailOf;
    EndMeans(text, options, 0, pads, equalLocation, fullLength);
    NoText(options);
    var stop := FirstStop(text, options);
    assert text[..0] == [] && text[..0][..FirstStop(text[..0], options)] == [];
    assert text[..|text|] == text;
    if options.garbage && pads > 0 {
      BehindStop(text, options, stop + 1);
    }
  }

  // How the loop ended, in terms of the whole text.
  ghost predicate TailMeaning(text: seq<byte>, options: Options, last: LastChunk, check: bool, capacity: nat,
                              length: nat, pads: nat, equalLocation: nat, tail: FullResult, flag: bool)
  {
    var s, stop := Content(text, options), FirstStop(text, options);
    var m, whole := DecodedOf(text, options, last, check, capacity), Decode(s[..|s| / 4 * 4]);
    var keeps := KeepsPartial(|s| % 4, pads, last);
    && tail.error == VerdictOn(text, options, last, check, capacity)
    && tail.inputCount <= length <= |text| && tail.inputCount <= stop && (check ==> |tail.output| <= capacity)
    && (flag ==> equalLocation <= stop)
    && match tail.error
       case INVALID_BASE64_CHARACTER => tail.output == whole && stop == if flag then equalLocation else tail.inputCount
       case BASE64_INPUT_REMAINDER | BASE64_EXTRA_BITS =>
         tail.output == whole && IsEnd(text, options, if flag then equalLocation else tail.inputCount)
       case OUTPUT_BUFFER_TOO_SMALL | SUCCESS =>
         && !flag && m <= |s| && tail.output == Decode(s[..m])
         && |SymbolsOf(text[..tail.inputCount], options)| == m
         && (tail.error == OUTPUT_BUFFER_TOO_SMALL ==> tail.inputCount == Canonical(text, options, m))
         && (tail.error == SUCCESS ==>
               && (ConsumesPadding(text, options, last) <==> pads > 0 && !keeps)
               && m == (if keeps then |s| / 4 * 4 else |s|)
               && (!keeps ==> tail.inputCount == length)
               && TailOf(text, options) == if pads > 0 then Padding(pads) else End)
  }

  lemma TailMeans(text: seq<byte>, options: Options, last: LastChunk, check: bool, capacity: nat, length: nat,
                  pads: nat, equalLocation: nat, fullLength: nat, tail: FullResult, flag: bool)
    requires EndFound(text, options, length, pads, equalLocation, fullLength) && pads <= 2
    requires TailResult(text[..length], pads, options, last, check, capacity, tail, flag)
    ensures TailMeaning(text, options, last, check, capacity, length, pads, equalLocation, tail, flag)
  {
    hide *;
    if tail.error == SUCCESS || tail.error == OUTPUT_BUFFER_TOO_SMALL {
      DecodedMeans(text, options, last, check, capacity, length, pads, equalLocation, fullLength, tail, flag);
    } else {
      RejectedMeans(text, options, last, check, capacity, length, pads, equalLocation, fullLength, tail, flag);
    }
  }

  lemma DecodedMeans(text: seq<byte>, options: Options, last: LastChunk, check: bool, capacity: nat, length: nat,
                     pads: nat, equalLocation: nat, fullLength: nat, tail: FullResult, flag: bool)
    requires EndFound(text, options, length, pads, equalLocation, fullLength) && pads <= 2
    requires TailResult(text[..length], pads, options, last, check, capacity, tail, flag)
    requires tail.error == SUCCESS || tail.error == OUTPUT_BUFFER_TOO_SMALL
    ensures TailMeaning(text, options, last, check, capacity, length, pads, equalLocation, tail, flag)
  {
    hide ToBase64, FirstStop, SymbolsOf, IsPadding, CountPads, IsValid, IsStop, Content, Decode, TailOf, Verdict,
      Decoded, EndFound, IsEnd, KeepsPartial, IsBehindSymbol;
    EndBounds(text, options, length, pads, equalLocation, fullLength);
    EndMeans(text, options, length, pads, equalLocation, fullLength);
    BodyPositions(text, options, length, pads, equalLocation, fullLength, tail.inputCount);
    var s, follows := Content(text, options), TailOf(text, options);
    assert s[..|s|] == s;
    VerdictKinds(s, follows, options.garbage, last, check, capacity);
    DecodedFits(s, follows, options.garbage, last, check, capacity);
  }

  lemma RejectedMeans(text: seq<byte>, options: Options, last: LastChunk, check: bool, capacity: nat, length: nat,
                      pads: nat, equalLocation: nat, fullLength: nat, tail: FullResult, flag: bool)
    requires EndFound(text, options, length, pads, equalLocation, fullLength) && pads <= 2
    requires TailResult(text[..length], pads, options, last, check, capacity, tail, flag)
    requires tail.error != SUCCESS && tail.error != OUTPUT_BUFFER_TOO_SMALL
    ensures TailMeaning(text, options, last, check, capacity, length, pads, equalLocation, tail, flag)
  {
    hide ToBase64, FirstStop, SymbolsOf, IsPadding, CountPads, IsValid, IsStop, Content, Decode, TailOf, Verdict,
      Decoded, EndFound, IsEnd, KeepsPartial, IsBehindSymbol;
    EndBounds(text, options, length, pads, equalLocation, fullLength);
    EndMeans(text, options, length, pads, equalLocation, fullLength);
    BodyPositions(text, options, length, pads, equalLocation, fullLength, tail.inputCount);
    VerdictKinds(Content(text, options), TailOf(text, options), options.garbage, last, check, capacity);
  }

  // The positions in the text without its padding.
  lemma BodyPositions(text: seq<byte>, options: Options, length: nat, pads: nat, equalLocation: nat, fullLength: nat,
                      count: nat)
    requires EndFound(text, options, length, pads, equalLocation, fullLength)
    ensures count <= length ==> text[..length][..count] == text[..count]
    ensures count <= length && IsBehindSymbol(text[..length], options, count) ==>
              count == Canonical(text, options, |SymbolsOf(text[..count], options)|)
    ensures FirstStop(text[..length], options) == length ==>
              && SymbolsOf(text[..length], options) == Content(text, options)
              && SymbolsOf(text[..equalLocation], options) == Content(text, options)
              && length <= equalLocation <= FirstStop(text, options)
              && (Content(text, options) != [] && !options.garbage ==>
                    IsEnd(text, options, length) && IsEnd(text, options, equalLocation))
  {
    hide ToBase64, FirstStop, SymbolsOf, IsPadding, CountPads, IsValid, IsStop, TailOf;
    EndMeans(text, options, length, pads, equalLocation, fullLength);
    var body := text[..length];
    if count <= length && IsBehindSymbol(body, options, count) {
      CanonicalIs(text, options, count);
    }
    if FirstStop(body, options) == length {
      assert body[..length] == body;
      forall k | length <= k < equalLocation ensures !IsValid(text[k], options) {
        SpaceIsNoSymbol(text[k], options);
      }
      AllIgnored(text, options, length, equalLocation);
      if pads < 2 && length > 0 && !options.garbage {
        KindsOfCharacters(text[length - 1], options);
        assert text[length - 1] == body[length - 1];
        CanonicalIs(text, options, length);
      }
      NoText(options);
      assert text[..0] == [];
    }
  }

  lemma DecodedBytes(n: nat)
    ensures 3 * n / 4 == 3 * (n / 4) + if n % 4 < 2 then 0 else n % 4 - 1
    ensures 3 * n / 4 % 3 == if n % 4 < 2 then 0 else n % 4 - 1
  {
    assert n == 4 * (n / 4) + n % 4;
  }

  lemma TailBounds(text: seq<byte>, options: Options, last: LastChunk, check: bool, capacity: nat, length: nat,
                   pads: nat, equalLocation: nat, tail: FullResult, flag: bool)
    requires TailMeaning(text, options, last, check, capacity, length, pads, equalLocation, tail, flag) && pads <= 2
    ensures tail.inputCount <= length && tail.inputCount <= FirstStop(text, options)
    ensures flag ==> tail.error != SUCCESS
    ensures tail.error == SUCCESS && !last.IsPartial() && pads > 0 && !options.garbage ==>
              |tail.output| % 3 != 0 && |tail.output| % 3 + 1 + pads == 4
    ensures tail.error == SUCCESS && last.IsPartial() ==>
              var n := |Content(text, options)|;
              |tail.output| % 3 == if KeepsPartial(n % 4, pads, last) || n % 4 < 2 then 0 else n % 4 - 1
  {
    hide ToBase64, FirstStop, SymbolsOf, Content, Decode, TailOf, Verdict, IsEnd, KeepsPartial;
    var s, follows := Content(text, options), TailOf(text, options);
    DecodedBytes(|s|);
    DecodedBytes(|s| / 4 * 4);
    AcceptedPads(s, follows, last, check, capacity);
    WholeGroupsOf(|s|);
  }

  lemma WholeGroupsOf(n: nat)
    ensures n / 4 * 4 % 4 == 0
  {
  }

  // Padding that a full decoding accepts completes the last group.
  lemma AcceptedPads(s: seq<Sextet>, tail: Tail, last: LastChunk, check: bool, capacity: nat)
    ensures Verdict(s, tail, false, last, check, capacity) == SUCCESS && tail.Pads() > 0 && !last.IsPartial() ==>
              |s| % 4 >= 2 && |s| % 4 + tail.pads == 4
    ensures !last.IsPartial() ==> !KeepsPartial(|s| % 4, tail.Pads(), last)
  {
    hide ExtraBits;
  }

  // Skip what can be ignored; if the end is not reached, go back over it to the last symbol.
  method FinalPosition(text: seq<byte>, options: Options, start: nat, end: nat) returns (pos: nat)
    requires start <= end <= |text| && start <= FirstStop(text, options)
    ensures (forall i :: start <= i < end ==> IsIgnorable(text[i], options)) ==> pos == end
    ensures !(forall i :: start <= i < end ==> IsIgnorable(text[i], options)) ==>
              pos == Canonical(text, options, |SymbolsOf(text[..start], options)|)
  {
    hide ToBase64, FirstStop, SymbolsOf, Canonical, IsValid, IsStop;
    pos := start;
    while pos < end && IsIgnorable(text[pos], options)
      invariant start <= pos <= end && |SymbolsOf(text[..pos], options)| == |SymbolsOf(text[..start], options)|
      invariant forall i :: start <= i < pos ==> IsIgnorable(text[i], options)
    {
      Ignored(text, options, pos);
      pos := pos + 1;
    }
    if pos < end {
      if FirstStop(text, options) < pos && !options.garbage {
        KindsOfCharacters(text[FirstStop(text, options)], options);
      }
      pos := StepBack(text, options, pos);
    }
  }

  // Between two positions with the same number of symbols in front there are none.
  lemma {:induction false} NoSymbolBetween(text: seq<byte>, options: Options, i: nat, j: nat)
    requires i <= j <= FirstStop(text, options)
    ensures |SymbolsOf(text[..i], options)| == |SymbolsOf(text[..j], options)| <==>
            forall k :: i <= k < j ==> IsIgnorable(text[k], options)
  {
    hide ToBase64, FirstStop, SymbolsOf, IsValid, IsStop;
    if forall k :: i <= k < j ==> IsIgnorable(text[k], options) {
      AllIgnored(text, options, i, j);
    } else {
      var k :| i <= k < j && !IsIgnorable(text[k], options);
      KindsOfCharacters(text[k], options);
      SymbolsMonotone(text, options, i, k + 1);
      SymbolsMonotone(text, options, k + 1, j);
    }
  }

  // The position that the caller sees.
  lemma Patched(text: seq<byte>, options: Options, last: LastChunk, check: bool, capacity: nat, length: nat, pads: nat,
                equalLocation: nat, fullLength: nat, tail: FullResult, flag: bool, r: FullResult)
    requires TailMeaning(text, options, last, check, capacity, length, pads, equalLocation, tail, flag)
    requires r.error == tail.error && r.output == tail.output
    requires tail.error != SUCCESS ==> r.inputCount == if flag then equalLocation else tail.inputCount
    requires tail.error == SUCCESS ==>
              r.inputCount == FinalCount(text, options, last, DecodedOf(text, options, last, check, capacity))
    ensures Exact(text, options, last, check, capacity, r)
  {
    hide ToBase64, FirstStop, SymbolsOf, Canonical, Decode, IsPadding, CountPads, Verdict, Decoded, KeepsPartial;
    var s := Content(text, options);
    DecodePrefix(s, |s| / 4 * 4);
    if tail.error == SUCCESS {
      FinalCountHolds(text, options, last, DecodedOf(text, options, last, check, capacity), pads);
    }
  }

  lemma FinalCountHolds(text: seq<byte>, options: Options, last: LastChunk, m: nat, pads: nat)
    requires TailOf(text, options) == if pads > 0 then Padding(pads) else End
    requires var n := |Content(text, options)|; m == if KeepsPartial(n % 4, pads, last) then n / 4 * 4 else n
    ensures var count := FinalCount(text, options, last, m);
            count <= |text| && |SymbolsOf(text[..count], options)| == m
  {
    hide ToBase64, FirstStop, SymbolsOf, Canonical, IsPadding, CountPads, IsStop, IsValid;
    var stop := FirstStop(text, options);
    assert text[..|text|] == text;
    SymbolsMonotone(text, options, stop, |text|);
    if ConsumesPadding(text, options, last) {
      BehindStop(text, options, if options.garbage then stop + 1 else |text|);
    }
  }

  // A successful decoding ends where FinalCount says.
  lemma SuccessPosition(text: seq<byte>, options: Options, last: LastChunk, check: bool, capacity: nat, length: nat,
                        pads: nat, equalLocation: nat, fullLength: nat, tail: FullResult)
    requires EndFound(text, options, length, pads, equalLocation, fullLength)
    requires TailMeaning(text, options, last, check, capacity, length, pads, equalLocation, tail, false)
    requires tail.error == SUCCESS
    ensures var m := DecodedOf(text, options, last, check, capacity);
            var count := FinalCount(text, options, last, m);
            var rest := forall i :: tail.inputCount <= i < fullLength ==> IsIgnorable(text[i], options);
            var keeps := KeepsPartial(|Content(text, options)| % 4, pads, last);
            && (!last.IsPartial() || (!keeps && |Content(text, options)| % 4 >= 2) ==> count == fullLength)
            && (last.IsPartial() && tail.inputCount < fullLength && (keeps || |Content(text, options)| % 4 < 2) ==>
                  count == if rest then fullLength else Canonical(text, options, m))
            && (last.IsPartial() && tail.inputCount == fullLength ==> count == fullLength)
  {
    hide ToBase64, FirstStop, SymbolsOf, Canonical, Decode, IsPadding, CountPads, ExtraBits, IsStop, IsValid, TailOf;
    EndMeans(text, options, length, pads, equalLocation, fullLength);
    EndBounds(text, options, length, pads, equalLocation, fullLength);
    var stop := FirstStop(text, options);
    NoSymbolBetween(text, options, tail.inputCount, stop);
    if options.garbage && pads > 0 {
      KindsOfCharacters(text[stop], options);
    }
  }

  // So the scalar code is one of the decoders that the contract allows.
  method ToBinaryDetailsScalar(text: seq<byte>, options: Options, last: LastChunk) returns (r: FullResult)
    ensures Details(text, options, last, r)
  {
    hide Allowed;
    r := WholeDecode(text, options, last, false, 0);
  }
}
