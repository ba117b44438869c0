/**
  * The block decoder of the SIMD kernels (src/generic/base64.h): the symbols of each block of 64
  * characters go through a buffer of six blocks; those of an incomplete last group are given back,
  * and the scalar decoder reads from there.  The operations of a block are modelled by their
  * results: the positions of bad characters, the symbols, and the bytes of 64 symbols.
  */
module BlockBase64 {
  import opened Base64
  import opened SimdutfBase64
  import opened ScalarBase64
  import opened Buffers

  const BUFFER_SIZE: nat := 6 * 64

  // ----- The invariant -----

  // The symbols in front of src are whole groups, which are decoded, and those kept in the buffer.
  ghost predicate Taken(text: seq<byte>, options: Options, src: nat, kept: seq<byte>, output: seq<byte>)
  {
    && src <= FirstStop(text, options)
    && var s := SymbolsOf(text[..src], options);
       var n := |s| - |kept|;
       n >= 0 && n % 4 == 0 && s[n..] == kept && output == Decode(s[..n])
  }

  lemma NothingTaken(text: seq<byte>, options: Options)
    ensures Taken(text, options, 0, [], [])
  {
    NoText(options);
    assert text[..0] == [];
  }

  // More characters in front of which reading does not stop.
  lemma TakeMore(text: seq<byte>, options: Options, src: nat, kept: seq<byte>, output: seq<byte>, count: nat)
    requires Taken(text, options, src, kept, output) && src + count <= FirstStop(text, options)
    ensures Taken(text, options, src + count, kept + SymbolsOf(text[src..src + count], options), output)
  {
    hide ToBase64, FirstStop, SymbolsOf, Decode;
    var s, more := SymbolsOf(text[..src], options), SymbolsOf(text[src..src + count], options);
    assert text[..src + count][..src] == text[..src] && text[..src + count][src..] == text[src..src + count];
    SplitSymbols(text[..src + count], src, options);
    var n := |s| - |kept|;
    assert (s + more)[n..] == s[n..] + more && (s + more)[..n] == s[..n];
  }

  lemma KeptAreSymbols(text: seq<byte>, options: Options, src: nat, kept: seq<byte>, output: seq<byte>)
    requires Taken(text, options, src, kept, output)
    ensures forall i :: 0 <= i < |kept| ==> kept[i] < 64
    ensures kept != [] ==> src > 0
  {
    hide ToBase64, FirstStop, Decode;
    var s := SymbolsOf(text[..src], options);
    assert forall i :: 0 <= i < |kept| ==> kept[i] == s[|s| - |kept| + i];
  }

  // Whole groups are decoded from the front of the buffer.
  lemma DecodeKept(text: seq<byte>, options: Options, src: nat, kept: seq<Sextet>, output: seq<byte>, m: nat)
    requires Taken(text, options, src, kept, output) && m <= |kept| && m % 4 == 0
    ensures Taken(text, options, src, kept[m..], output + Decode(kept[..m]))
  {
    hide ToBase64, FirstStop, SymbolsOf, Decode;
    var s := SymbolsOf(text[..src], options);
    var n := |s| - |kept|;
    assert s[..n + m] == s[..n] + kept[..m] && s[n + m..] == kept[m..];
    DecodeConcat(s[..n], kept[..m]);
    SumOfQuarters(n, m);
  }

  lemma SumOfQuarters(n: nat, m: nat)
    requires n % 4 == 0 && m % 4 == 0
    ensures (n + m) % 4 == 0
  {
  }

  // Giving back: characters that are no symbols, and the last symbol kept.
  lemma GiveBack(text: seq<byte>, options: Options, src: nat, kept: seq<byte>, output: seq<byte>)
    requires Taken(text, options, src, kept, output) && kept != []
    ensures src > 0
    ensures if IsValid(text[src - 1], options) then Taken(text, options, src - 1, kept[..|kept| - 1], output)
            else Taken(text, options, src - 1, kept, output)
  {
    hide ToBase64, FirstStop, SymbolsOf, Decode, IsValid;
    NoText(options);
    assert text[..0] == [];
    NextSymbolOf(text, src - 1, options);
    var s, before := SymbolsOf(text[..src], options), SymbolsOf(text[..src - 1], options);
    var n := |s| - |kept|;
    if IsValid(text[src - 1], options) {
      assert before[..n] == s[..n];
      assert before[n..] == s[n..][..|kept| - 1];
    } else {
      assert before == s;
    }
  }

  lemma OutputIsPrefix(text: seq<byte>, options: Options, src: nat, kept: seq<byte>, output: seq<byte>)
    requires Taken(text, options, src, kept, output)
    ensures output <= Decode(Content(text, options))
  {
    hide ToBase64, FirstStop, SymbolsOf, Decode;
    SymbolsMonotone(text, options, src, FirstStop(text, options));
    var s, n := Content(text, options), |SymbolsOf(text[..src], options)| - |kept|;
    assert s[..n] == SymbolsOf(text[..src], options)[..n];
    DecodePrefix(s, n);
  }

  // ----- The blocks -----

  // base64_decode_block: the bytes of m symbols of the buffer.
  method DecodeFromBuffer(buffer: array<byte>, start: nat, m: nat, output0: seq<byte>, ghost ptr: nat,
                          ghost text: seq<byte>, ghost options: Options, ghost src: nat)
    returns (output: seq<byte>)
    requires start + m <= ptr <= buffer.Length && m % 4 == 0
    requires Taken(text, options, src, buffer[start..ptr], output0)
    ensures Taken(text, options, src, buffer[start + m..ptr], output)
  {
    hide Taken, Decode;
    KeptAreSymbols(text, options, src, buffer[start..ptr], output0);
    assert forall i :: start <= i < ptr ==> buffer[i] == buffer[start..ptr][i - start];
    output := output0 + Decode(buffer[start..start + m]);
    assert buffer[start..ptr][..m] == buffer[start..start + m];
    assert buffer[start..ptr][m..] == buffer[start + m..ptr];
    DecodeKept(text, options, src, buffer[start..ptr], output0, m);
  }

  // A buffer that holds five blocks is decoded, and the rest moved to its front.
  method Refill(buffer: array<byte>, ptr0: nat, output0: seq<byte>, ghost text: seq<byte>, ghost options: Options,
                ghost src: nat)
    returns (output: seq<byte>, ptr: nat)
    requires buffer.Length == BUFFER_SIZE && 5 * 64 <= ptr0 < BUFFER_SIZE
    requires Taken(text, options, src, buffer[..ptr0], output0)
    modifies buffer
    ensures ptr == ptr0 - 5 * 64 && Taken(text, options, src, buffer[..ptr], output)
  {
    hide Taken;
    output := output0;
    assert buffer[..ptr0] == buffer[0..ptr0];
    for i := 0 to 5
      invariant Taken(text, options, src, buffer[64 * i..ptr0], output)
    {
      output := DecodeFromBuffer(buffer, 64 * i, 64, output, ptr0, text, options, src);
    }
    ptr := ptr0 - 5 * 64;
    ghost var kept := buffer[5 * 64..ptr0];
    MoveDown(buffer, 5 * 64, 64);
    assert buffer[..ptr] == buffer[..64][..ptr] == kept;
  }

  // The loop over blocks of 64 characters.
  method DecodeBlocks(text: seq<byte>, options: Options, buffer: array<byte>)
    returns (bad: bool, src: nat, ptr: nat, output: seq<byte>)
    requires buffer.Length == BUFFER_SIZE && (options.garbage ==> FirstStop(text, options) == |text|)
    modifies buffer
    ensures src <= |text| && ptr < 5 * 64
    ensures if bad then !options.garbage && src == FirstStop(text, options) < |text|
                        && output <= Decode(Content(text, options))
            else Taken(text, options, src, buffer[..ptr], output)
  {
    hide Taken, FirstStop, SymbolsOf, Decode, Content, ToBase64;
    src, ptr, output := 0, 0, [];
    NothingTaken(text, options);
    assert buffer[..0] == [];
    while src + 64 <= |text|
      invariant src <= |text| && ptr < 5 * 64 && Taken(text, options, src, buffer[..ptr], output)
    {
      var block := text[src..src + 64];
      var error, symbols := FirstStop(block, options), SymbolsOf(block, options);
      StopInBlock(text, options, src, 64, buffer[..ptr], output);
      if !options.garbage && error < 64 {
        return true, src + error, ptr, output;
      }
      TakeMore(text, options, src, buffer[..ptr], output, 64);
      src := src + 64;
      if |symbols| != 64 {
        // compress_block
        Store(buffer, ptr, symbols);
        ptr := ptr + |symbols|;
      } else if ptr != 0 {
        // copy_block
        Store(buffer, ptr, symbols);
        ptr := ptr + 64;
      } else {
        assert buffer[..0] + symbols == symbols && symbols[..64] == symbols && symbols[64..] == buffer[..0];
        DecodeKept(text, options, src, symbols, output, 64);
        output := output + Decode(symbols);
      }
      if ptr >= 5 * 64 {
        output, ptr := Refill(buffer, ptr, output, text, options, src);
      }
    }
    bad := false;
  }

  // A block holds the first bad character, or none.
  lemma StopInBlock(text: seq<byte>, options: Options, src: nat, count: nat, kept: seq<byte>, output: seq<byte>)
    requires Taken(text, options, src, kept, output) && src + count <= |text|
    ensures var error := FirstStop(text[src..src + count], options);
            if error < count then FirstStop(text, options) == src + error
            else src + count <= FirstStop(text, options)
    ensures output <= Decode(Content(text, options))
  {
    hide ToBase64, IsStop, SymbolsOf, Decode, Content;
    OutputIsPrefix(text, options, src, kept, output);
    var block, stop := text[src..src + count], FirstStop(text, options);
    if stop < src + count {
      FirstStopIs(block, stop - src, options);
    }
  }

  // An almost full block of the buffer is filled up one by one.
  method FillUp(text: seq<byte>, options: Options, buffer: array<byte>, src0: nat, ptr0: nat, ghost output: seq<byte>)
    returns (bad: bool, src: nat, ptr: nat)
    requires buffer.Length == BUFFER_SIZE && (options.garbage ==> FirstStop(text, options) == |text|)
    requires src0 <= |text| && ptr0 < 5 * 64 && Taken(text, options, src0, buffer[..ptr0], output)
    modifies buffer
    ensures src <= |text| && ptr <= 5 * 64 < buffer.Length && output <= Decode(Content(text, options))
    ensures if bad then !options.garbage && src == FirstStop(text, options) < |text|
            else Taken(text, options, src, buffer[..ptr], output)
  {
    hide Taken, FirstStop, SymbolsOf, Decode, Content;
    OutputIsPrefix(text, options, src0, buffer[..ptr0], output);
    src, ptr := src0, ptr0;
    var lastBlock := ptr % 64;
    if lastBlock != 0 && |text| - src + lastBlock >= 64 {
      while ptr % 64 != 0 && src < |text|
        invariant src <= |text| && ptr <= 5 * 64 && Taken(text, options, src, buffer[..ptr], output)
        decreases |text| - src
      {
        var val := ToBase64(text[src], options);
        ghost var kept := buffer[..ptr];
        buffer[ptr] := val;
        assert buffer[..ptr] == kept && buffer[..ptr + 1] == kept + [val];
        TakeOne(text, options, src, kept, output);
        if !options.garbage && val > 64 {
          return true, src, ptr;
        }
        ptr := if val <= 63 then ptr + 1 else ptr;
        src := src + 1;
      }
    }
    bad := false;
  }

  lemma StopValue(c: byte, options: Options)
    ensures !options.garbage ==> (IsStop(c, options) <==> ToBase64(c, options) > 64)
  {
  }

  lemma TakeOne(text: seq<byte>, options: Options, src: nat, kept: seq<byte>, output: seq<byte>)
    requires Taken(text, options, src, kept, output) && src < |text|
    requires options.garbage ==> FirstStop(text, options) == |text|
    ensures var val := ToBase64(text[src], options);
            if !options.garbage && val > 64 then FirstStop(text, options) == src
            else Taken(text, options, src + 1, if val <= 63 then kept + [val] else kept, output)
  {
    hide ToBase64, FirstStop, SymbolsOf, Decode, IsStop;
    NextSymbolOf(text, src, options);
    StopValue(text[src], options);
    var s, next := SymbolsOf(text[..src], options), SymbolsOf(text[..src + 1], options);
    var n := |s| - |kept|;
    assert next[..n] == s[..n];
    if ToBase64(text[src], options) <= 63 {
      assert next[n..] == s[n..] + [ToBase64(text[src], options)];
    }
  }

  // What the buffer holds is decoded but for an incomplete group.
  method Drain(buffer: array<byte>, ptr: nat, output0: seq<byte>, ghost text: seq<byte>, ghost options: Options,
               ghost src: nat)
    returns (output: seq<byte>, start: nat)
    requires ptr <= buffer.Length && Taken(text, options, src, buffer[..ptr], output0)
    ensures start <= ptr < start + 4 && Taken(text, options, src, buffer[start..ptr], output)
  {
    hide Taken;
    output, start := output0, 0;
    assert buffer[..ptr] == buffer[0..ptr];
    while start + 64 <= ptr
      invariant start <= ptr && Taken(text, options, src, buffer[start..ptr], output)
    {
      output := DecodeFromBuffer(buffer, start, 64, output, ptr, text, options, src);
      start := start + 64;
    }
    if (ptr - start) % 64 != 0 {
      while start + 4 < ptr
        invariant start <= ptr && Taken(text, options, src, buffer[start..ptr], output)
      {
        output := DecodeQuad(buffer, start, output, ptr, text, options, src);
        start := start + 4;
      }
      if start + 4 <= ptr {
        output := DecodeQuad(buffer, start, output, ptr, text, options, src);
        start := start + 4;
      }
    }
  }

  // Four symbols of the buffer, combined in a word.
  method DecodeQuad(buffer: array<byte>, start: nat, output0: seq<byte>, ghost ptr: nat, ghost text: seq<byte>,
                    ghost options: Options, ghost src: nat)
    returns (output: seq<byte>)
    requires start + 4 <= ptr <= buffer.Length && Taken(text, options, src, buffer[start..ptr], output0)
    ensures Taken(text, options, src, buffer[start + 4..ptr], output)
  {
    hide Taken, Decode, TripleBytes;
    KeptAreSymbols(text, options, src, buffer[start..ptr], output0);
    assert forall i :: start <= i < ptr ==> buffer[i] == buffer[start..ptr][i - start];
    output := output0 + TripleBytes(buffer[start..start + 4]);
    TripleIsDecode(buffer[start..start + 4]);
    assert TripleBytes(buffer[start..start + 4])[..3] == TripleBytes(buffer[start..start + 4]);
    assert buffer[start..ptr][..4] == buffer[start..start + 4];
    assert buffer[start..ptr][4..] == buffer[start + 4..ptr];
    DecodeKept(text, options, src, buffer[start..ptr], output0, 4);
  }

  // The symbols left in the buffer are given back, with what lies between them.
  method WalkBack(text: seq<byte>, options: Options, src0: nat, leftover0: nat, ghost kept: seq<byte>,
                  ghost output: seq<byte>)
    returns (src: nat)
    requires src0 <= |text| && |kept| == leftover0 && Taken(text, options, src0, kept, output)
    ensures src <= src0 && Taken(text, options, src, [], output)
    ensures leftover0 > 0 ==> src < src0
  {
    hide Taken, FirstStop, SymbolsOf, Decode, ToBase64;
    src := src0;
    var leftover := leftover0;
    assert kept[..leftover] == kept;
    while leftover > 0
      invariant src <= src0 && leftover <= leftover0 && Taken(text, options, src, kept[..leftover], output)
      invariant leftover < leftover0 ==> src < src0
    {
      GiveBack(text, options, src, kept[..leftover], output);
      while if options.garbage then ToBase64(text[src - 1], options) >= 64 else ToBase64(text[src - 1], options) == 64
        invariant 0 < src <= src0 && Taken(text, options, src, kept[..leftover], output)
        decreases src
      {
        GiveBack(text, options, src, kept[..leftover], output);
        src := src - 1;
        GiveBack(text, options, src, kept[..leftover], output);
      }
      GiveBack(text, options, src, kept[..leftover], output);
      NotStopped(text, options, src, kept[..leftover], output);
      assert kept[..leftover][..leftover - 1] == kept[..leftover - 1];
      src := src - 1;
      leftover := leftover - 1;
    }
    assert kept[..0] == [];
  }

  lemma NotStopped(text: seq<byte>, options: Options, src: nat, kept: seq<byte>, output: seq<byte>)
    requires Taken(text, options, src, kept, output) && 0 < src <= |text|
    ensures IsValid(text[src - 1], options) || if options.garbage then ToBase64(text[src - 1], options) >= 64
                                               else ToBase64(text[src - 1], options) == 64
  {
    hide FirstStop, SymbolsOf, Decode, ToBase64;
    KindsOfCharacters(text[src - 1], options);
  }

  // ----- The rest -----

  lemma UncheckedBehind(s: seq<Sextet>, k: nat, tail: Tail, garbage: bool, last: LastChunk)
    requires 4 * k <= |s|
    ensures Verdict(s[4 * k..], tail, garbage, last, false, 0) == Verdict(s, tail, garbage, last, false, 0)
    ensures Verdict(s, tail, garbage, last, false, 0) != OUTPUT_BUFFER_TOO_SMALL
    ensures Verdict(s, tail, garbage, last, false, 0) == SUCCESS ==>
              4 * k + Decoded(s[4 * k..], tail, garbage, last, false, 0) == Decoded(s, tail, garbage, last, false, 0)
  {
    hide ExtraBits;
    ExtraBitsBehind(s, k);
    Groups(|s| - 4 * k, k, 0);
  }

  // How the loop ends behind whole groups is how it ends on all of the text.
  lemma TailBehind(text: seq<byte>, pads: nat, options: Options, last: LastChunk, c: nat, output: seq<byte>,
                   r: FullResult, flag: bool)
    requires Taken(text, options, c, [], output)
    requires TailResult(text[c..], pads, options, last, false, 0, r, flag)
    ensures TailResult(text, pads, options, last, false, 0,
                       FullResult(r.error, c + r.inputCount, output + r.output), flag)
  {
    hide ToBase64, FirstStop, SymbolsOf, Decode, Content, Verdict, Decoded, KeepsPartial, IsValid;
    var s, k, tail := Content(text, options), |SymbolsOf(text[..c], options)| / 4,
                      Follows(FirstStop(text, options) < |text|, pads);
    TakenGroups(text, options, c, output);
    RestOfText(text, options, c, k);
    UncheckedBehind(s, k, tail, options.garbage, last);
    SameIndex(|s|, k);
    GroupsDecode(s, k, |s[4 * k..]| / 4 * 4);
    if r.error == SUCCESS {
      StoppedBehind(text, pads, options, last, c, k, output, r, flag);
    }
  }

  lemma TakenGroups(text: seq<byte>, options: Options, c: nat, output: seq<byte>)
    requires Taken(text, options, c, [], output)
    ensures var s := SymbolsOf(text[..c], options);
            |s| == 4 * (|s| / 4) && output == Decode(s) && c <= FirstStop(text, options)
  {
    hide FirstStop, SymbolsOf, Decode;
    var s := SymbolsOf(text[..c], options);
    assert s[..|s|] == s;
  }

  lemma StoppedBehind(text: seq<byte>, pads: nat, options: Options, last: LastChunk, c: nat, k: nat,
                      output: seq<byte>, r: FullResult, flag: bool)
    requires c <= FirstStop(text, options) && |SymbolsOf(text[..c], options)| == 4 * k
    requires output == Decode(SymbolsOf(text[..c], options))
    requires TailResult(text[c..], pads, options, last, false, 0, r, flag) && r.error == SUCCESS
    ensures TailResult(text, pads, options, last, false, 0,
                       FullResult(r.error, c + r.inputCount, output + r.output), flag)
  {
    hide ToBase64, FirstStop, SymbolsOf, Decode, Content, Verdict, KeepsPartial, IsValid;
    var s, tail := Content(text, options), Follows(FirstStop(text, options) < |text|, pads);
    RestOfText(text, options, c, k);
    UncheckedBehind(s, k, tail, options.garbage, last);
    SameIndex(|s|, k);
    CountBehind(text, options, c, r.inputCount);
    GroupsDecode(s, k, Decoded(s[4 * k..], tail, options.garbage, last, false, 0));
    GroupsDecode(s, k, |s| - 4 * k);
    assert s[..|s|] == s && s[4 * k..][..|s| - 4 * k] == s[4 * k..];
  }

  // compress_decode_base64.  A partial mode writes whole groups only, unless padding completes the
  // last group.
  method CompressDecode(text: seq<byte>, options: Options, last: LastChunk) returns (r: FullResult)
    ensures Details(text, options, last, r)
    ensures r.error == SUCCESS && last.IsPartial() && !options.garbage ==>
              var n, tail := |Content(text, options)|, TailOf(text, options);
              |r.output| == 3 * (n / 4) + if last.StopBeforePartial? && tail.Padding? && n % 4 + tail.pads == 4
                                          then n % 4 - 1 else 0
  {
    hide *;
    r := DecodeInBlocks(text, options, last);
    if r.error == SUCCESS && last.IsPartial() && !options.garbage {
      PartialOutput(text, options, last, r);
    }
  }

  method DecodeInBlocks(text: seq<byte>, options: Options, last: LastChunk) returns (r: FullResult)
    ensures Details(text, options, last, r)
  {
    hide *;
    var length, pads, equalLocation, fullLength := FindEnd(text, options);
    EndBounds(text, options, length, pads, equalLocation, fullLength);
    if length == 0 {
      NoBody(text, options, last, false, 0, pads, equalLocation, fullLength);
      r := if !options.garbage && pads > 0 then FullResult(INVALID_BASE64_CHARACTER, equalLocation, [])
           else FullResult(SUCCESS, fullLength, []);
      ExactIsDetails(text, options, last, r);
      return;
    }
    var body := text[..length];
    NoStopInBody(text, options, length, pads, equalLocation, fullLength);
    var buffer := new byte[BUFFER_SIZE];
    var bad, src, ptr, output := DecodeBlocks(body, options, buffer);
    if bad {
      BadInBody(text, options, last, length, pads, equalLocation, fullLength, output);
      return FullResult(INVALID_BASE64_CHARACTER, src, output);
    }
    bad, src, ptr := FillUp(body, options, buffer, src, ptr, output);
    if bad {
      BadInBody(text, options, last, length, pads, equalLocation, fullLength, output);
      return FullResult(INVALID_BASE64_CHARACTER, src, output);
    }
    var start;
    output, start := Drain(buffer, ptr, output, body, options, src);
    src := WalkBack(body, options, src, ptr - start, buffer[start..ptr], output);
    if src < length + pads {
      assert text[src..length] == body[src..];
      var rest, flag := TailDecode(text[src..length], pads, options, last, false, 0);
      TailBehind(body, pads, options, last, src, output, rest, flag);
      var tail := FullResult(rest.error, src + rest.inputCount, output + rest.output);
      r := Patch(tail, flag, equalLocation, fullLength, last);
      r := Extend(text, options, last, false, 0, length, pads, equalLocation, fullLength, tail, flag, r);
      ExactIsDetails(text, options, last, r);
      return;
    }
    if !options.garbage && pads > 0 {
      // The padding was left to the scalar decoder.
      assert false;
      return FullResult(INVALID_BASE64_CHARACTER, equalLocation, output);
    }
    AllTaken(text, options, last, length, equalLocation, fullLength, output);
    return FullResult(SUCCESS, length, output);
  }

  lemma ExactIsDetails(text: seq<byte>, options: Options, last: LastChunk, r: FullResult)
    requires Exact(text, options, last, false, 0, r)
    ensures Details(text, options, last, r)
  {
    hide Allowed, Content, FirstStop, SymbolsOf, Decode, Canonical;
  }

  lemma NoStopInBody(text: seq<byte>, options: Options, length: nat, pads: nat, equalLocation: nat, fullLength: nat)
    requires EndFound(text, options, length, pads, equalLocation, fullLength)
    ensures options.garbage ==> FirstStop(text[..length], options) == |text[..length]|
  {
    hide FirstStop, IsPadding, CountPads;
    if options.garbage {
      FirstStopIs(text[..length], length, options);
    }
  }

  // A bad character rejects the text.
  lemma BadInBody(text: seq<byte>, options: Options, last: LastChunk, length: nat, pads: nat, equalLocation: nat,
                  fullLength: nat, output: seq<byte>)
    requires EndFound(text, options, length, pads, equalLocation, fullLength) && length <= |text|
    requires FirstStop(text[..length], options) < length && output <= Decode(Content(text[..length], options))
    ensures Details(text, options, last,
                    FullResult(INVALID_BASE64_CHARACTER, FirstStop(text[..length], options), output))
  {
    hide ToBase64, FirstStop, SymbolsOf, Decode, EndFound, TailOf, Canonical, ExtraBits;
    EndMeans(text, options, length, pads, equalLocation, fullLength);
  }

  // Everything was decoded in blocks.
  lemma AllTaken(text: seq<byte>, options: Options, last: LastChunk, length: nat, equalLocation: nat, fullLength: nat,
                 output: seq<byte>)
    requires EndFound(text, options, length, 0, equalLocation, fullLength) && length <= |text|
    requires Taken(text[..length], options, length, [], output)
    ensures Details(text, options, last, FullResult(SUCCESS, length, output))
  {
    hide ToBase64, FirstStop, SymbolsOf, Decode, EndFound, TailOf, Canonical, ExtraBits;
    var body := text[..length];
    EndMeans(text, options, length, 0, equalLocation, fullLength);
    TakenGroups(body, options, length, output);
    assert body[..length] == body && body[..FirstStop(body, options)] == body;
  }
}
