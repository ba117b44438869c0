/**
  * The base64 functions of src/implementation.cpp that work through a small temporary buffer, so
  * that the caller's memory is only touched with relaxed atomic copies.  The copies are plain here.
  */
module AtomicBase64 {
  import opened Base64
  import opened SimdutfBase64
  import opened ScalarBase64
  import opened SafeBase64
  import opened BufferedCalls
  import opened EncodedTexts
  import opened Buffers

  // ----- What is returned -----

  // The number of symbols in front of the returned position.
  function Consumed(text: seq<byte>, options: Options, last: LastChunk, capacity: nat, error: ErrorCode): nat
  {
    if Decodes(error) then DecodedOf(text, options, last, true, capacity)
    else |Content(text, options)|
  }

  // The driver's result for a text whose calls fit together: the verdict of one pass over all of
  // it, unless the cut of its last call splits a '='; its bytes; and the position just behind the
  // last symbol consumed, or the end if no symbol is left.
  ghost predicate Returned(text: seq<byte>, options: Options, last: LastChunk, upToBad: bool, capacity: nat,
                           bufferSize: nat, error: ErrorCode, count: nat, output: seq<byte>)
    requires bufferSize >= 3
  {
    && error == (if RunSplits(text, options, capacity, bufferSize) then BASE64_INPUT_REMAINDER
                 else VerdictOn(text, options, last, true, capacity))
    && Delivered(text, options, last, upToBad, capacity, error, count, output)
  }

  // The bytes and the position that come with an error code.
  ghost predicate Delivered(text: seq<byte>, options: Options, last: LastChunk, upToBad: bool, capacity: nat,
                            error: ErrorCode, count: nat, output: seq<byte>)
  {
    var s, m := Content(text, options), DecodedOf(text, options, last, true, capacity);
    && (if Decodes(error) then m <= |s| && output == Decode(s[..m]) else output <= Decode(s))
    && (upToBad && error == INVALID_BASE64_CHARACTER ==> output == Whole(text, options))
    && (count == Canonical(text, options, Consumed(text, options, last, capacity, error))
        || (count == |text| && error == SUCCESS && |SymbolsOf(text, options)| == m))
  }

  // What the calls leave, before the position is adjusted.
  ghost predicate Settled(text: seq<byte>, options: Options, last: LastChunk, upToBad: bool, capacity: nat,
                          r: FullResult)
  {
    OnePass(text, options, last, upToBad, capacity, r) || Misread(text, options, capacity, r)
  }

  // The texts for which the calls fit together: where garbage is skipped, no symbol follows a '='.
  predicate Readable(text: seq<byte>, options: Options) { options.garbage ==> Regular(text, options) }

  lemma CallSettles(text: seq<byte>, options: Options, last: LastChunk, upToBad: bool, capacity: nat, r: FullResult)
    requires Safe(text, options, last, upToBad, capacity, r) && Readable(text, options)
    ensures Settled(text, options, last, upToBad, capacity, r) && r.inputCount <= |text| && |r.output| <= capacity
    ensures Regular(text, options) ==> OnePass(text, options, last, upToBad, capacity, r)
  {
    hide OnePass, Misread, ReadOn, SplitsPadding, SkipsPadding, Regular;
    if Regular(text, options) {
      RegularIsWhole(text, options, capacity);
    }
    NoGarbage(text, options, capacity);
  }

  // ----- One call against the whole -----

  // Between two turns of the loop: k whole groups are decoded into the output.
  ghost predicate Partial(text: seq<byte>, options: Options, output: seq<byte>, c: nat, k: nat)
  {
    && c <= FirstStop(text, options) && IsBehindSymbol(text, options, c)
    && |SymbolsOf(text[..c], options)| == 4 * k
    && output == Decode(SymbolsOf(text[..c], options))
  }

  lemma Begin(text: seq<byte>, options: Options)
    ensures Partial(text, options, [], 0, 0)
  {
    NoText(options);
    assert text[..0] == [];
  }

  lemma RegularBehind(text: seq<byte>, options: Options, output: seq<byte>, c: nat, k: nat)
    requires Partial(text, options, output, c, k)
    ensures Regular(text[c..], options) == Regular(text, options)
    ensures Readable(text[c..], options) == Readable(text, options)
    ensures |output| == 3 * k
  {
    hide FirstStop, SymbolsOf, TailOf;
    RestOfText(text, options, c, k);
    SplitSymbols(text, c, options);
    Groups(|Content(text, options)| - 4 * k, k, 0);
    var stop := FirstStop(text, options);
    assert stop < |text| ==> text[c..][stop - c] == text[stop];
  }

  // More room changes nothing once the text is decoded or rejected.
  lemma MoreRoom(text: seq<byte>, options: Options, last: LastChunk, upToBad: bool, capacity: nat, more: nat,
                 r: FullResult)
    requires capacity <= more && r.error != OUTPUT_BUFFER_TOO_SMALL
    ensures OnePass(text, options, last, upToBad, capacity, r) ==> OnePass(text, options, last, upToBad, more, r)
    ensures Misread(text, options, capacity, r) ==> Misread(text, options, more, r)
  {
    hide FirstStop, SymbolsOf, TailOf, Content, Verdict, Decoded, Decode, IsEnd, Canonical, KeepsPartial, Regular,
      Whole;
    var s, tail := Content(text, options), TailOf(text, options);
    MoreRoomVerdict(s, tail, options.garbage, last, capacity, more);
    MoreRoomVerdict(s, tail, options.garbage, Loose, capacity, more);
  }

  // A full temporary buffer: its groups are added.
  lemma AfterFullBuffer(text: seq<byte>, options: Options, last: LastChunk, upToBad: bool, output: seq<byte>, c: nat,
                        k: nat, room: nat, r: FullResult)
    requires Partial(text, options, output, c, k) && r.error == OUTPUT_BUFFER_TOO_SMALL
    requires OnePass(text[c..], options, last, upToBad, room, r)
    ensures Partial(text, options, output + r.output, c + r.inputCount, k + room / 3) && |r.output| == room / 3 * 3
  {
    hide FirstStop, SymbolsOf, TailOf, Content, OnePass, Decode, IsValid;
    FullSymbols(text[c..], options, last, upToBad, room, r);
    RestOfText(text, options, c, k);
    GroupsAdd(text, options, c, k, r.inputCount);
    assert r.inputCount > 0 ==> text[c + r.inputCount - 1] == text[c..][r.inputCount - 1];
  }

  lemma GroupsAdd(text: seq<byte>, options: Options, c: nat, k: nat, count: nat)
    requires c + count <= |text| && |SymbolsOf(text[..c], options)| == 4 * k
    ensures var s, a, b := SymbolsOf(text[..c + count], options), SymbolsOf(text[..c], options),
                           SymbolsOf(text[c..][..count], options);
            |s| == |a| + |b| && Decode(s) == Decode(a) + Decode(b)
  {
    hide SymbolsOf, Decode;
    assert text[..c + count][..c] == text[..c] && text[..c + count][c..] == text[c..][..count];
    SplitSymbols(text[..c + count], c, options);
    DecodeConcat(SymbolsOf(text[..c], options), SymbolsOf(text[c..][..count], options));
  }

  lemma FullSymbols(text: seq<byte>, options: Options, last: LastChunk, upToBad: bool, room: nat, r: FullResult)
    requires OnePass(text, options, last, upToBad, room, r) && r.error == OUTPUT_BUFFER_TOO_SMALL
    ensures r.inputCount <= FirstStop(text, options) && IsBehindSymbol(text, options, r.inputCount)
    ensures |SymbolsOf(text[..r.inputCount], options)| == 4 * (room / 3)
    ensures r.output == Decode(SymbolsOf(text[..r.inputCount], options)) && |r.output| == room / 3 * 3
  {
    hide FirstStop, SymbolsOf, TailOf, Content, Verdict, Decode, IsEnd, Canonical, IsValid;
    VerdictKinds(Content(text, options), TailOf(text, options), options.garbage, last, true, room);
    SymbolsMonotone(text, options, r.inputCount, FirstStop(text, options));
    ContentIs(text, options);
    assert SymbolsOf(text[..r.inputCount], options) == Content(text, options)[..room / 3 * 4];
    CanonicalOfPrefix(text, options, r.inputCount);
    WholeGroups(room / 3 * 4);
  }

  lemma CanonicalOfPrefix(text: seq<byte>, options: Options, count: nat)
    requires count <= |text| && count == Canonical(text, options, |SymbolsOf(text[..count], options)|)
    ensures IsBehindSymbol(text, options, count)
  {
    hide SymbolsOf, Canonical, IsValid;
    PrefixCount(text, options, count);
  }

  // The last call settles the whole text.
  lemma LastBuffer(text: seq<byte>, options: Options, last: LastChunk, upToBad: bool, output: seq<byte>, c: nat, k: nat,
                   room: nat, capacity: nat, r: FullResult)
    requires Partial(text, options, output, c, k) && 3 * k + room <= capacity && r.inputCount <= |text| - c
    requires Settled(text[c..], options, last, upToBad, room, r)
    requires r.error == OUTPUT_BUFFER_TOO_SMALL ==> 3 * k + room == capacity
    ensures Settled(text, options, last, upToBad, capacity, FullResult(r.error, c + r.inputCount, output + r.output))
  {
    hide FirstStop, SymbolsOf, TailOf, Content, OnePass, Misread;
    if r.error != OUTPUT_BUFFER_TOO_SMALL {
      MoreRoom(text[c..], options, last, upToBad, room, capacity - 3 * k, r);
    }
    if OnePass(text[c..], options, last, upToBad, capacity - 3 * k, r) {
      Behind(text, options, last, upToBad, capacity, c, k, r);
    } else {
      MisreadBehind(text, options, output, c, k, capacity, r);
    }
  }

  lemma MisreadBehind(text: seq<byte>, options: Options, output: seq<byte>, c: nat, k: nat, capacity: nat,
                      r: FullResult)
    requires Partial(text, options, output, c, k) && 3 * k <= capacity && r.inputCount <= |text| - c
    requires Misread(text[c..], options, capacity - 3 * k, r)
    ensures Misread(text, options, capacity, FullResult(r.error, c + r.inputCount, output + r.output))
  {
    hide FirstStop, SymbolsOf, TailOf, Verdict, Decode, Canonical, Content;
    RegularBehind(text, options, output, c, k);
    RestOfText(text, options, c, k);
    var s, rest := Content(text, options), text[c..];
    VerdictBehind(s, k, TailOf(text, options), options.garbage, Loose, capacity - 3 * k);
    ErrorBehind(s, k, r.output);
    IrregularIsBad(text, options);
    if r.inputCount == Canonical(rest, options, |Content(rest, options)|) {
      EndBehind(text, options, c, k, r.inputCount);
    }
  }

  // ----- The run of the calls -----

  // Between two turns of the loop, the calls to come complete what was done to the run.
  ghost predicate Continues(input: seq<byte>, options: Options, last: LastChunk, capacity: nat, bufferSize: nat,
                            pos: nat, done: seq<byte>)
    requires bufferSize >= 3
  {
    && pos <= |input| && |done| <= capacity
    && var rest := Run(input[pos..], options, last, capacity - |done|, bufferSize);
       Run(input, options, last, capacity, bufferSize)
       == Outcome(rest.error, done + rest.output, |SymbolsOf(input[..pos], options)| + rest.symbols)
  }

  ghost predicate Completes(input: seq<byte>, options: Options, last: LastChunk, capacity: nat, bufferSize: nat,
                            error: ErrorCode, pos: nat, output: seq<byte>)
    requires bufferSize >= 3
  {
    var run := Run(input, options, last, capacity, bufferSize);
    && error == run.error && pos <= |input|
    && (Decodes(error) ==> output == run.output && |SymbolsOf(input[..pos], options)| == run.symbols)
  }

  lemma NoCallYet(input: seq<byte>, options: Options, last: LastChunk, capacity: nat, bufferSize: nat)
    requires bufferSize >= 3
    ensures Continues(input, options, last, capacity, bufferSize, 0, [])
  {
    hide Run;
    NoText(options);
    assert input[..0] == [] && input[0..] == input;
    assert [] + Run(input, options, last, capacity, bufferSize).output
        == Run(input, options, last, capacity, bufferSize).output;
  }

  lemma NextCall(input: seq<byte>, options: Options, last: LastChunk, capacity: nat, bufferSize: nat, pos: nat,
                 done: seq<byte>, r: FullResult)
    requires bufferSize >= 3 && Continues(input, options, last, capacity, bufferSize, pos, done)
    requires IsCall(input[pos..], options, last, Least(bufferSize, capacity - |done|), r)
    ensures pos + r.inputCount <= |input|
    ensures if r.error == OUTPUT_BUFFER_TOO_SMALL && bufferSize < capacity - |done| then
              Continues(input, options, last, capacity, bufferSize, pos + r.inputCount, done + r.output)
            else Completes(input, options, last, capacity, bufferSize, r.error, pos + r.inputCount, done + r.output)
  {
    hide SymbolsOf, Call, Next;
    CountBehind(input, options, pos, r.inputCount);
    if r.error == OUTPUT_BUFFER_TOO_SMALL && bufferSize < capacity - |done| {
      assert input[pos..][r.inputCount..] == input[pos + r.inputCount..];
      var rest := Run(input[pos + r.inputCount..], options, last, capacity - |done + r.output|, bufferSize);
      assert done + (r.output + rest.output) == (done + r.output) + rest.output;
    }
  }

  lemma CompletesWith(input: seq<byte>, options: Options, last: LastChunk, capacity: nat, bufferSize: nat,
                      error: ErrorCode, pos: nat, output: seq<byte>)
    requires bufferSize >= 3 && Completes(input, options, last, capacity, bufferSize, error, pos, output)
    ensures var run := Run(input, options, last, capacity, bufferSize);
            error == run.error && (Decodes(error) ==> output == run.output)
  {
    hide Run, SymbolsOf;
  }

  // ----- The loop -----

  // atomic_base64_to_binary_safe_impl, for every temporary buffer that holds a group (4096 bytes,
  // 128 when fuzzing).
  method AtomicToBinarySafe(input: seq<byte>, output: array<byte>, outlen0: nat, options: Options, last: LastChunk,
                            upToBad: bool, bufferSize: nat)
    returns (error: ErrorCode, count: nat, outlen: nat)
    requires outlen0 <= output.Length && bufferSize >= 3
    modifies output
    ensures outlen <= outlen0 && count <= |input|
    ensures forall j :: outlen <= j < output.Length ==> output[j] == old(output[j])
    ensures Completes(input, options, last, outlen0, bufferSize, error, count, output[..outlen])
    ensures options.garbage ==>
              || count == |input|
              || count == Canonical(input, options, Run(input, options, last, outlen0, bufferSize).symbols)
    ensures Readable(input, options) ==>
              Returned(input, options, last, upToBad, outlen0, bufferSize, error, count, output[..outlen])
  {
    hide *;
    var pos: nat, actualOut: nat, lastChunk := 0, 0, false;
    ghost var k := 0;
    Begin(input, options);
    NoCallYet(input, options, last, outlen0, bufferSize);
    assert output[..0] == [];
    error := OUTPUT_BUFFER_TOO_SMALL;
    while !lastChunk
      invariant actualOut <= outlen0 && pos <= |input|
      invariant if lastChunk then
                  Completes(input, options, last, outlen0, bufferSize, error, pos, output[..actualOut])
                else Continues(input, options, last, outlen0, bufferSize, pos, output[..actualOut])
      invariant Readable(input, options) && !lastChunk ==>
                  actualOut == 3 * k && Partial(input, options, output[..actualOut], pos, k)
      invariant Readable(input, options) && lastChunk ==>
                  Settled(input, options, last, upToBad, outlen0, FullResult(error, pos, output[..actualOut]))
      invariant forall j :: actualOut <= j < output.Length ==> output[j] == old(output[j])
      decreases outlen0 - actualOut, !lastChunk
    {
      var left := outlen0 - actualOut;
      lastChunk := lastChunk || bufferSize >= left;
      var room := if bufferSize < left then bufferSize else left;
      LeastIs(bufferSize, left);
      ghost var before := output[..actualOut];
      var r := ToBinarySafe(input[pos..], options, last, upToBad, room);
      CallIs(input[pos..], options, last, upToBad, room, r);
      CallLimits(input[pos..], options, last, room, r);
      Store(output, actualOut, r.output);
      NextCall(input, options, last, outlen0, bufferSize, pos, before, r);
      if Readable(input, options) {
        RegularBehind(input, options, before, pos, k);
        CallSettles(input[pos..], options, last, upToBad, room, r);
        if lastChunk || r.error != OUTPUT_BUFFER_TOO_SMALL {
          LastBuffer(input, options, last, upToBad, before, pos, k, room, outlen0, r);
        } else {
          FullIsOnePass(input[pos..], options, last, upToBad, room, r);
          AfterFullBuffer(input, options, last, upToBad, before, pos, k, room, r);
        }
      }
      actualOut := actualOut + |r.output|;
      pos := pos + r.inputCount;
      k := k + room / 3;
      error := r.error;
      if r.error != OUTPUT_BUFFER_TOO_SMALL {
        break;
      }
    }
    count := AdjustPosition(input, options, pos);
    outlen := actualOut;
    SteppedBack(input, options, last, outlen0, bufferSize, error, pos, count, output[..outlen]);
    if Readable(input, options) {
      SettledReturns(input, options, last, upToBad, outlen0, FullResult(error, pos, output[..outlen]), count);
      CompletesWith(input, options, last, outlen0, bufferSize, error, count, output[..outlen]);
      ErrorReturned(input, options, last, upToBad, outlen0, bufferSize, FullResult(error, pos, output[..outlen]));
      Returns(input, options, last, upToBad, outlen0, bufferSize, error, count, output[..outlen]);
    }
  }

  // If not everything was processed, do not end with an ignorable character.
  method AdjustPosition(input: seq<byte>, options: Options, pos: nat) returns (count: nat)
    requires pos <= |input|
    ensures count <= |input| && Adjusted(input, options, pos, count)
  {
    hide Canonical, FirstStop, SymbolsOf, IsIgnorable;
    count := pos;
    if pos != |input| {
      count := StepBack(input, options, pos);
    }
  }

  lemma CallLimits(text: seq<byte>, options: Options, last: LastChunk, room: nat, r: FullResult)
    requires IsCall(text, options, last, room, r)
    ensures |r.output| <= room && r.inputCount <= |text|
    ensures r.error == OUTPUT_BUFFER_TOO_SMALL ==> |r.output| == room / 3 * 3
  {
    hide Call, Next, SymbolsOf;
  }

  // The position is moved over characters to be ignored only.
  lemma SteppedBack(input: seq<byte>, options: Options, last: LastChunk, capacity: nat, bufferSize: nat,
                    error: ErrorCode, pos: nat, count: nat, output: seq<byte>)
    requires bufferSize >= 3 && Completes(input, options, last, capacity, bufferSize, error, pos, output)
    requires Adjusted(input, options, pos, count)
    ensures Completes(input, options, last, capacity, bufferSize, error, count, output)
    ensures options.garbage ==>
              || count == |input|
              || count == Canonical(input, options, Run(input, options, last, capacity, bufferSize).symbols)
  {
    hide Run, SymbolsOf, Canonical, FirstStop;
    if options.garbage && pos != |input| {
      RunDecodes(input, options, last, capacity, bufferSize);
    }
  }

  lemma ErrorReturned(text: seq<byte>, options: Options, last: LastChunk, upToBad: bool, capacity: nat,
                      bufferSize: nat, r: FullResult)
    requires bufferSize >= 3 && Readable(text, options)
    requires r.error == Run(text, options, last, capacity, bufferSize).error
    requires Settled(text, options, last, upToBad, capacity, r)
    ensures r.error == if RunSplits(text, options, capacity, bufferSize) then BASE64_INPUT_REMAINDER
                       else VerdictOn(text, options, last, true, capacity)
  {
    hide Run, VerdictOn, Content, LastStart, LastRoom, FirstStop, Canonical, SymbolsOf, Decode, Regular, Whole,
      DecodedOf;
    if options.garbage {
      NoRunSplit(text, options, capacity, bufferSize);
    } else {
      RunVerdict(text, options, last, capacity, bufferSize);
    }
  }

  lemma NoRunSplit(text: seq<byte>, options: Options, capacity: nat, bufferSize: nat)
    requires bufferSize >= 3 && options.garbage
    ensures !RunSplits(text, options, capacity, bufferSize)
  {
    hide LastStart, LastRoom, Content, FirstStop, TailOf, IsPadding;
  }

  lemma Returns(text: seq<byte>, options: Options, last: LastChunk, upToBad: bool, capacity: nat, bufferSize: nat,
                error: ErrorCode, count: nat, output: seq<byte>)
    requires bufferSize >= 3 && Delivered(text, options, last, upToBad, capacity, error, count, output)
    requires error == if RunSplits(text, options, capacity, bufferSize) then BASE64_INPUT_REMAINDER
                      else VerdictOn(text, options, last, true, capacity)
    ensures Returned(text, options, last, upToBad, capacity, bufferSize, error, count, output)
  {
    hide Delivered, RunSplits, VerdictOn;
  }

  lemma FullIsOnePass(text: seq<byte>, options: Options, last: LastChunk, upToBad: bool, room: nat, r: FullResult)
    requires Settled(text, options, last, upToBad, room, r) && r.error == OUTPUT_BUFFER_TOO_SMALL
    ensures OnePass(text, options, last, upToBad, room, r)
  {
    hide OnePass;
  }

  // The position of an error is where the symbols end, perhaps followed by white space.
  lemma ErrorPosition(text: seq<byte>, options: Options, pos: nat)
    requires pos == Canonical(text, options, |Content(text, options)|) || pos == FirstStop(text, options)
    ensures pos <= FirstStop(text, options) && |SymbolsOf(text[..pos], options)| == |Content(text, options)|
  {
    hide ToBase64, FirstStop, SymbolsOf, Canonical, IsPadding, CountPads, TailOf;
    if pos == Canonical(text, options, |Content(text, options)|) {
      assert IsEnd(text, options, pos);
      EndHolds(text, options, pos);
    }
  }

  // How the position is adjusted.
  ghost predicate Adjusted(text: seq<byte>, options: Options, pos: nat, count: nat)
    requires pos <= |text|
  {
    if pos == |text| then count == |text|
    else
      && count <= pos && |SymbolsOf(text[..count], options)| == |SymbolsOf(text[..pos], options)|
      && (options.garbage || pos <= FirstStop(text, options) ==>
            count == Canonical(text, options, |SymbolsOf(text[..pos], options)|))
  }

  lemma SettledReturns(text: seq<byte>, options: Options, last: LastChunk, upToBad: bool, capacity: nat, r: FullResult,
                       count: nat)
    requires Settled(text, options, last, upToBad, capacity, r) && r.inputCount <= |text| && Readable(text, options)
    requires Adjusted(text, options, r.inputCount, count)
    ensures Delivered(text, options, last, upToBad, capacity, r.error, count, r.output)
  {
    hide OnePass, Misread, Delivered, Adjusted;
    if Misread(text, options, capacity, r) {
      MisreadReturns(text, options, last, upToBad, capacity, r, count);
    } else if r.error == SUCCESS || r.error == OUTPUT_BUFFER_TOO_SMALL {
      DecodedReturns(text, options, last, upToBad, capacity, r, count);
    } else {
      RejectedReturns(text, options, last, upToBad, capacity, r, count);
    }
  }

  lemma MisreadReturns(text: seq<byte>, options: Options, last: LastChunk, upToBad: bool, capacity: nat, r: FullResult,
                       count: nat)
    requires Misread(text, options, capacity, r) && r.inputCount <= |text|
    requires Adjusted(text, options, r.inputCount, count)
    ensures Delivered(text, options, last, upToBad, capacity, r.error, count, r.output)
  {
    hide FirstStop, SymbolsOf, TailOf, Content, Verdict, Decode, Canonical, Decoded, KeepsPartial, IsPadding;
    IrregularIsBad(text, options);
    MisreadVerdict(text, options, last, capacity);
    ErrorPosition(text, options, r.inputCount);
  }

  lemma RejectedReturns(text: seq<byte>, options: Options, last: LastChunk, upToBad: bool, capacity: nat, r: FullResult,
                        count: nat)
    requires OnePass(text, options, last, upToBad, capacity, r) && r.error != SUCCESS
    requires r.error != OUTPUT_BUFFER_TOO_SMALL
    requires Adjusted(text, options, r.inputCount, count)
    ensures Delivered(text, options, last, upToBad, capacity, r.error, count, r.output)
  {
    hide FirstStop, SymbolsOf, TailOf, Content, Verdict, Decode, Canonical, Decoded, KeepsPartial, IsPadding;
    VerdictKinds(Content(text, options), TailOf(text, options), options.garbage, last, true, capacity);
    ErrorPosition(text, options, r.inputCount);
    if r.error != INVALID_BASE64_CHARACTER {
      EndHolds(text, options, r.inputCount);
    }
  }

  lemma DecodedReturns(text: seq<byte>, options: Options, last: LastChunk, upToBad: bool, capacity: nat, r: FullResult,
                       count: nat)
    requires OnePass(text, options, last, upToBad, capacity, r)
    requires r.error == SUCCESS || r.error == OUTPUT_BUFFER_TOO_SMALL
    requires Adjusted(text, options, r.inputCount, count)
    ensures Delivered(text, options, last, upToBad, capacity, r.error, count, r.output)
  {
    hide FirstStop, SymbolsOf, TailOf, Content, Verdict, Decode, Canonical, Decoded, KeepsPartial, IsPadding;
    assert text[..|text|] == text;
    DecodedFits(Content(text, options), TailOf(text, options), options.garbage, last, true, capacity);
    if r.error == SUCCESS {
      SuccessCount(text, options, last, capacity, r);
    } else {
      FullStops(text, options, r.inputCount);
    }
  }

  lemma MisreadVerdict(text: seq<byte>, options: Options, last: LastChunk, capacity: nat)
    requires TailOf(text, options).Bad?
    ensures VerdictOn(text, options, last, true, capacity) == VerdictOn(text, options, Loose, true, capacity)
  {
    hide FirstStop, SymbolsOf, TailOf, Content;
  }

  lemma FullStops(text: seq<byte>, options: Options, count: nat)
    requires count <= FirstStop(text, options) && |SymbolsOf(text[..count], options)| < |Content(text, options)|
    ensures count < |text|
  {
    hide FirstStop, SymbolsOf;
  }

  // An accepted text is consumed, or reading stopped in front of its last symbols.
  lemma SuccessCount(text: seq<byte>, options: Options, last: LastChunk, capacity: nat, r: FullResult)
    requires Allowed(text, options, last, true, capacity, r) && r.error == SUCCESS
    ensures r.inputCount == |text| || options.garbage || r.inputCount <= FirstStop(text, options)
  {
    hide FirstStop, SymbolsOf, TailOf, Content, Verdict, Decode, Canonical, IsPadding;
    var stop, s, tail := FirstStop(text, options), Content(text, options), TailOf(text, options);
    VerdictKinds(s, tail, options.garbage, last, true, capacity);
    ContentIs(text, options);
    if stop < r.inputCount {
      SymbolsMonotone(text, options, stop, r.inputCount);
    }
  }

  lemma ContentIs(text: seq<byte>, options: Options)
    ensures Content(text, options) == SymbolsOf(text[..FirstStop(text, options)], options)
  {
  }

  // ----- Against one call of base64_to_binary_safe -----

  // Any result of one call on the whole text, its position moved like the driver's, is what the
  // driver returns with a buffer that is not smaller than the output.
  lemma OneCallReturns(text: seq<byte>, options: Options, last: LastChunk, upToBad: bool, capacity: nat,
                       bufferSize: nat, r: FullResult, count: nat)
    requires Safe(text, options, last, upToBad, capacity, r) && Readable(text, options)
    requires bufferSize >= 3 && bufferSize >= capacity
    requires r.inputCount <= |text| && Adjusted(text, options, r.inputCount, count)
    ensures Returned(text, options, last, upToBad, capacity, bufferSize, r.error, count, r.output)
  {
    hide *;
    CallSettles(text, options, last, upToBad, capacity, r);
    SettledReturns(text, options, last, upToBad, capacity, r, count);
    CallIs(text, options, last, upToBad, capacity, r);
    WideBuffer(text, options, last, capacity, bufferSize);
    CallError(text, options, last, capacity, r);
    ErrorReturned(text, options, last, upToBad, capacity, bufferSize, r);
    Returns(text, options, last, upToBad, capacity, bufferSize, r.error, count, r.output);
  }

  lemma CallError(text: seq<byte>, options: Options, last: LastChunk, room: nat, r: FullResult)
    requires IsCall(text, options, last, room, r)
    ensures r.error == Call(text, options, last, room).error
  {
    hide Call, Next, SymbolsOf;
  }

  // Two buffers, one of which may be as large as the output: the driver returns the same error if
  // and only if the last cut splits a '=' for both or for neither; and then the same bytes, but
  // for those in front of an error, which are not specified without decode_up_to_bad_char.  The
  // position is always the same, but for white space at the end of an accepted text.
  lemma BuffersAgree(text: seq<byte>, options: Options, last: LastChunk, upToBad: bool, capacity: nat,
                     size1: nat, e1: ErrorCode, count1: nat, output1: seq<byte>,
                     size2: nat, e2: ErrorCode, count2: nat, output2: seq<byte>)
    requires Readable(text, options) && size1 >= 3 && size2 >= 3
    requires Returned(text, options, last, upToBad, capacity, size1, e1, count1, output1)
    requires Returned(text, options, last, upToBad, capacity, size2, e2, count2, output2)
    ensures e1 == e2 <==> (RunSplits(text, options, capacity, size1) <==> RunSplits(text, options, capacity, size2))
    ensures e1 == e2 && (Decodes(e1) || (upToBad && e1 == INVALID_BASE64_CHARACTER)) ==> output1 == output2
    ensures count1 != count2 ==>
              && e1 == e2 == SUCCESS && (count1 == |text| || count2 == |text|)
              && |SymbolsOf(text, options)| == DecodedOf(text, options, last, true, capacity)
  {
    hide RunSplits, FirstStop, SymbolsOf, Content, VerdictOn, DecodedOf, Decode, Canonical, Whole, Run;
    SplitIsInvalid(text, options, last, capacity, size1);
    SplitIsInvalid(text, options, last, capacity, size2);
  }

  lemma SplitIsInvalid(text: seq<byte>, options: Options, last: LastChunk, capacity: nat, bufferSize: nat)
    requires bufferSize >= 3
    ensures RunSplits(text, options, capacity, bufferSize) ==>
              VerdictOn(text, options, last, true, capacity) == INVALID_BASE64_CHARACTER
  {
    hide RunSplits, Run, VerdictOn;
    if options.garbage {
      NoRunSplit(text, options, capacity, bufferSize);
    } else {
      RunVerdict(text, options, last, capacity, bufferSize);
    }
  }

  // Regular texts are never split, so there the driver agrees with one call for every capacity,
  // buffer and mode.
  lemma RegularNeverSplits(text: seq<byte>, options: Options, capacity: nat, bufferSize: nat)
    requires bufferSize >= 3 && Regular(text, options)
    ensures !RunSplits(text, options, capacity, bufferSize)
  {
    hide FirstStop, SymbolsOf, Content, Canonical, Regular, SplitsPadding, GroupsBefore;
    var start, g := LastStart(text, options, bufferSize), GroupsBefore(|Content(text, options)| / 4, bufferSize / 3);
    CanonicalInContent(text, options, 4 * g);
    RegularBehind(text, options, Decode(SymbolsOf(text[..start], options)), start, g);
    if |Content(text, options)| / 4 * 3 <= capacity {
      RegularIsWhole(text[start..], options, LastRoom(text, options, capacity, bufferSize));
    }
  }

  // ----- The position -----

  // For a rejected character, one call returns its exact position.  The driver steps back over the
  // characters to be ignored in front of it, so it does so if and only if there are none.
  lemma InvalidPosition(text: seq<byte>, options: Options, last: LastChunk, upToBad: bool, capacity: nat,
                        bufferSize: nat, count: nat, output: seq<byte>)
    requires bufferSize >= 3
    requires Returned(text, options, last, upToBad, capacity, bufferSize, INVALID_BASE64_CHARACTER, count, output)
    ensures var stop := FirstStop(text, options);
            count == stop <==> stop == 0 || !IsIgnorable(text[stop - 1], options)
  {
    hide ToBase64, SymbolsOf, Canonical, FirstStop, TailOf, Verdict, Decoded, Decode, Regular, IsStop, IsValid;
    var stop := FirstStop(text, options);
    assert text[..|text|] == text;
    SymbolsMonotone(text, options, stop, |text|);
    ContentIs(text, options);
    if stop == 0 || !IsIgnorable(text[stop - 1], options) {
      if stop > 0 {
        KindsOfCharacters(text[stop - 1], options);
      }
      CanonicalIs(text, options, stop);
    } else {
      Ignored(text, options, stop - 1);
      assert count == 0 || IsValid(text[count - 1], options);
    }
  }

  // ----- Inputs that show it -----

  const STANDARD := Options(Reading.Default, false)
  const STANDARD_GARBAGE := Options(Reading.Default, true)

  // "Q=  QUJDQUJD", "Q= =  =", "QU JDQUJDQUJD  Q=QUJD", "=QUJD", "==QUJD" and " !".
  const PAD_INSIDE: seq<byte> := [81, 61, 32, 32, 81, 85, 74, 68, 81, 85, 74, 68]
  const THREE_PADS: seq<byte> := [81, 61, 32, 61, 32, 32, 61]
  const LATE_SPACE: seq<byte> :=
    [81, 85, 32, 74, 68, 81, 85, 74, 68, 81, 85, 74, 68, 32, 32, 81, 61, 81, 85, 74, 68]
  const TWO_PADS_FIRST: seq<byte> := [61, 61, 81, 85, 74, 68]
  const PAD_FIRST: seq<byte> := [61, 81, 85, 74, 68]
  const SPACE_THEN_BAD: seq<byte> := [32, 33]

  lemma PadInsideIsSplit()
    ensures SplitsPadding(PAD_INSIDE, STANDARD, 3) && !SplitsPadding(PAD_INSIDE, STANDARD, 9)
    ensures CallVerdict(PAD_INSIDE, STANDARD, Loose, 3) == BASE64_INPUT_REMAINDER
    ensures CallVerdict(PAD_INSIDE, STANDARD, Loose, 9) == INVALID_BASE64_CHARACTER
  {
    hide SymbolsOf, FirstStop, SplitsPadding, CallVerdict, CountPads;
    var text := PAD_INSIDE;
    assert text[1..][3] == 81 && text[1..12] == text[1..];
    SingleSymbolThenPad(text, 3);
    SingleSymbolThenPad(text, 9);
    OnePad();
    assert text[1..4] == [PAD] + [32, 32];
    CountPadsConcat([PAD], [32, 32]);
    OnlySpace([32, 32]);
  }

  // Three '=' are no padding either, though no symbol follows them.
  lemma ThreePadsAreSplit()
    ensures SplitsPadding(THREE_PADS, STANDARD, 3)
    ensures CallVerdict(THREE_PADS, STANDARD, Loose, 3) == BASE64_INPUT_REMAINDER
    ensures CallVerdict(THREE_PADS, STANDARD, Loose, 6) == INVALID_BASE64_CHARACTER
  {
    hide SymbolsOf, FirstStop, SplitsPadding, CallVerdict, CountPads;
    var text := THREE_PADS;
    OnePad();
    OnlySpace([32]);
    OnlySpace([32, 32]);
    assert text[1..4] == [PAD] + ([32] + [PAD]);
    CountPadsConcat([PAD], [32] + [PAD]);
    CountPadsConcat([32], [PAD]);
    assert text[1..] == text[1..4] + ([32, 32] + [PAD]);
    CountPadsConcat(text[1..4], [32, 32] + [PAD]);
    CountPadsConcat([32, 32], [PAD]);
    SingleSymbolThenPad(text, 3);
    SingleSymbolThenPad(text, 6);
  }

  // A single symbol and a '=' that is no padding.
  lemma SingleSymbolThenPad(text: seq<byte>, capacity: nat)
    requires |text| >= 2 && text[0] == 81 && text[1] == PAD && !IsPadding(text[1..]) && capacity >= 3
    ensures SplitsPadding(text, STANDARD, capacity)
       <==> Cut(capacity) <= |text| && IsPadding(text[1..Cut(capacity)])
    ensures CallVerdict(text, STANDARD, Loose, capacity)
         == if SplitsPadding(text, STANDARD, capacity) then BASE64_INPUT_REMAINDER else INVALID_BASE64_CHARACTER
  {
    hide SymbolsOf, FirstStop, IsPadding;
    FirstStopIs(text, 1, STANDARD);
    NextSymbolOf(text, 0, STANDARD);
    NoText(STANDARD);
    assert text[..0] == [];
  }

  // The driver reports a remainder where one call reports the character.
  method MisreadsPadding(output: array<byte>) returns (error: ErrorCode)
    requires output.Length >= 9
    modifies output
    ensures error == BASE64_INPUT_REMAINDER
    ensures CallVerdict(PAD_INSIDE, STANDARD, Loose, 9) == INVALID_BASE64_CHARACTER
  {
    hide *;
    PadInsideIsSplit();
    var count, outlen;
    error, count, outlen := AtomicToBinarySafe(PAD_INSIDE, output, 9, STANDARD, Loose, false, 3);
    FirstCallSplits(PAD_INSIDE, STANDARD, Loose, 9, 3);
    CompletesWith(PAD_INSIDE, STANDARD, Loose, 9, 3, error, count, output[..outlen]);
  }

  lemma FirstCallSplits(text: seq<byte>, options: Options, last: LastChunk, capacity: nat, bufferSize: nat)
    requires 3 <= bufferSize < capacity && SplitsPadding(text, options, bufferSize)
    ensures Run(text, options, last, capacity, bufferSize).error == BASE64_INPUT_REMAINDER
  {
    hide SplitsPadding;
  }

  // It does so even where no capacity makes a single call misread the '=': white space in front
  // lets the second call start where its cut falls directly behind the '='.
  method MisreadsLater(output: array<byte>) returns (error: ErrorCode)
    requires output.Length >= 12
    modifies output
    ensures error == BASE64_INPUT_REMAINDER
    ensures forall capacity: nat :: !SplitsPadding(LATE_SPACE, STANDARD, capacity)
    ensures CallVerdict(LATE_SPACE, STANDARD, Loose, 12) == INVALID_BASE64_CHARACTER
  {
    hide *;
    NoCutSplits();
    SecondCallSplits();
    var count, outlen;
    error, count, outlen := AtomicToBinarySafe(LATE_SPACE, output, 12, STANDARD, Loose, false, 6);
    CompletesWith(LATE_SPACE, STANDARD, Loose, 12, 6, error, count, output[..outlen]);
  }

  // Symbols but for three blanks, then a '=' and a symbol.
  lemma LateSpace(text: seq<byte>)
    requires |text| >= 18 && text[16] == PAD && IsValid(text[17], STANDARD)
    requires forall i :: 0 <= i < 16 ==>
              if i == 2 || i == 13 || i == 14 then text[i] == 32 else IsValid(text[i], STANDARD)
    ensures FirstStop(text, STANDARD) == 16 && |Content(text, STANDARD)| == 13
    ensures !IsPadding(text[16..]) && TailOf(text, STANDARD) == Bad
    ensures |SymbolsOf(text[..9], STANDARD)| == 8
  {
    hide SymbolsOf, FirstStop, CountPads, ToBase64;
    FirstStopIs(text, 16, STANDARD);
    NoText(STANDARD);
    assert text[..0] == [];
    LettersAdd(text, STANDARD, 0, 2);
    Ignored(text, STANDARD, 2);
    LettersAdd(text, STANDARD, 3, 9);
    LettersAdd(text, STANDARD, 9, 13);
    AllIgnored(text, STANDARD, 13, 15);
    LettersAdd(text, STANDARD, 15, 16);
    assert text[16..][1] == text[17];
  }

  lemma {:induction false} LettersAdd(text: seq<byte>, options: Options, i: nat, j: nat)
    requires i <= j <= |text| && forall k :: i <= k < j ==> IsValid(text[k], options)
    ensures |SymbolsOf(text[..j], options)| == |SymbolsOf(text[..i], options)| + j - i
    decreases j
  {
    hide ToBase64, SymbolsOf, IsValid;
    if i < j {
      LettersAdd(text, options, i, j - 1);
      NextSymbolOf(text, j - 1, options);
    }
  }

  lemma LateSpaceIs()
    ensures |LATE_SPACE| == 21 && LATE_SPACE[16] == PAD && IsValid(LATE_SPACE[17], STANDARD)
    ensures IsValid(LATE_SPACE[8], STANDARD) && STANDARD == Options(Reading.Default, false)
    ensures forall i :: 0 <= i < 16 ==> if i == 2 || i == 13 || i == 14 then LATE_SPACE[i] == 32
                                        else IsValid(LATE_SPACE[i], STANDARD)
  {
  }

  lemma NoCutSplits()
    ensures forall capacity: nat :: !SplitsPadding(LATE_SPACE, STANDARD, capacity)
    ensures CallVerdict(LATE_SPACE, STANDARD, Loose, 12) == INVALID_BASE64_CHARACTER
  {
    hide SymbolsOf, FirstStop, Content, CountPads, SplitsPadding, LATE_SPACE, ToBase64, TailOf, Ending;
    var text := LATE_SPACE;
    LateSpaceIs();
    LateSpace(text);
    SomeCutSplits(text, STANDARD);
    assert text[16..NextCut(16)][1] == text[17];
    NoGarbage(text, STANDARD, 12);
  }

  lemma SecondCallSplits()
    ensures Run(LATE_SPACE, STANDARD, Loose, 12, 6).error == BASE64_INPUT_REMAINDER
  {
    hide SymbolsOf, FirstStop, Content, CountPads, Canonical, LATE_SPACE, ToBase64, TailOf, Run;
    var text := LATE_SPACE;
    LateSpaceIs();
    LateSpace(text);
    CanonicalIs(text, STANDARD, 9);
    assert LastStart(text, STANDARD, 6) == 9 && LastRoom(text, STANDARD, 12, 6) == 6;
    RestOfText(text, STANDARD, 9, 2);
    assert text[9..][7..8] == [PAD];
    OnePad();
    assert text[9..][7] == text[16];
    RunVerdict(text, STANDARD, Loose, 12, 6);
  }

  // Where garbage is skipped, the driver decodes three bytes behind the '=' that ends the text for
  // one call.
  method ReadsBehindPadding(output: array<byte>) returns (outlen: nat)
    requires output.Length >= 6
    modifies output
    ensures outlen == 3
    ensures forall r :: Safe(PAD_FIRST, STANDARD_GARBAGE, Loose, false, 6, r) ==> r.output == []
  {
    hide *;
    PadFirst();
    var error, count;
    error, count, outlen := AtomicToBinarySafe(PAD_FIRST, output, 6, STANDARD_GARBAGE, Loose, false, 3);
    CompletesWith(PAD_FIRST, STANDARD_GARBAGE, Loose, 6, 3, error, count, output[..outlen]);
  }

  lemma PadFirst()
    ensures var run := Run(PAD_FIRST, STANDARD_GARBAGE, Loose, 6, 3); Decodes(run.error) && |run.output| == 3
    ensures forall r :: Safe(PAD_FIRST, STANDARD_GARBAGE, Loose, false, 6, r) ==> r.output == []
  {
    var rest: seq<byte> := [81, 85, 74, 68];
    assert PAD_FIRST[1..] == rest && rest[..4] == rest;
    FirstStopIs(rest, 4, STANDARD_GARBAGE);
    LettersAdd(rest, STANDARD_GARBAGE, 0, 4);
    assert rest[..0] == [];
    NoText(STANDARD_GARBAGE);
    PadThenGroup(PAD_FIRST, STANDARD_GARBAGE);
  }

  // A '=', and behind it one group.
  lemma PadThenGroup(text: seq<byte>, options: Options)
    requires |text| == 5 && text[0] == PAD && options.garbage
    requires FirstStop(text[1..], options) == 4 && |Content(text[1..], options)| == 4
    ensures var run := Run(text, options, Loose, 6, 3); Decodes(run.error) && |run.output| == 3
    ensures forall r :: Safe(text, options, Loose, false, 6, r) ==> r.output == []
  {
    hide SymbolsOf, FirstStop, Decode, ToBase64;
    FirstStopIs(text, 0, options);
    NoText(options);
    assert text[..0] == [] && text[1..][..4] == text[1..];
    SplitSymbols(text, 1, options);
    assert Decode([]) == [] by {
      DecodeFewer([]);
    }
  }

  // A second '=' ends what is read behind the first: then nothing is added.
  lemma TwoPadsFirst()
    ensures SkipsPadding(TWO_PADS_FIRST, STANDARD_GARBAGE, 3)
    ensures IsOnePass(Call(TWO_PADS_FIRST, STANDARD_GARBAGE, Loose, 3), TWO_PADS_FIRST, STANDARD_GARBAGE, Loose, 3)
  {
    hide SymbolsOf, FirstStop, Decode;
    var text, o := TWO_PADS_FIRST, STANDARD_GARBAGE;
    FirstStopIs(text, 0, o);
    FirstStopIs(text[1..], 0, o);
    assert text[..0] == [] && text[1..][..0] == [];
    NoText(o);
    LettersAdd(text, o, 2, 6);
    assert text[..6] == text;
    SkipAgrees(text, o, Loose, 3);
  }

  // The returned position of the '!' is that of the space in front of it.
  lemma StepsOverSpace(last: LastChunk, upToBad: bool, capacity: nat, bufferSize: nat, count: nat, output: seq<byte>)
    requires bufferSize >= 3
    requires Returned(SPACE_THEN_BAD, STANDARD, last, upToBad, capacity, bufferSize, INVALID_BASE64_CHARACTER, count,
                      output)
    ensures FirstStop(SPACE_THEN_BAD, STANDARD) == 1 && count == 0
  {
    hide SymbolsOf, Canonical, Verdict, Decode, FirstStop;
    FirstStopIs(SPACE_THEN_BAD, 1, STANDARD);
    NextSymbolOf(SPACE_THEN_BAD, 0, STANDARD);
    NoText(STANDARD);
    assert SPACE_THEN_BAD[..0] == [];
    InvalidPosition(SPACE_THEN_BAD, STANDARD, last, upToBad, capacity, bufferSize, count, output);
    assert Content(SPACE_THEN_BAD, STANDARD) == [];
    CanonicalIs(SPACE_THEN_BAD, STANDARD, 0);
  }

  // ----- Encoding -----

  // atomic_binary_to_base64: blocks of a multiple of three bytes (3072, or 384 when fuzzing) give
  // the encoding of the whole input, padded at the end only.
  method AtomicBinaryToBase64(input: seq<byte>, output: array<byte>, alphabet: Alphabet, padding: bool, blockSize: nat)
    returns (retval: nat)
    requires blockSize > 0 && blockSize % 3 == 0
    requires |ToText(input, alphabet, padding)| <= output.Length
    modifies output
    ensures retval == |ToText(input, alphabet, padding)|
    ensures output[..retval] == ToText(input, alphabet, padding)
    ensures forall i: nat :: i < retval ==>
              if i < |Encode(input)| then
                Spells(output[i], Encode(input)[i], alphabet) && SixBits(Encode(input)[i], input, i)
              else output[i] as char == '='
    ensures forall j :: retval <= j < output.Length ==> output[j] == old(output[j])
  {
    hide ToText, Encode, Spells, SixBits;
    retval := 0;
    var i := 0;
    NoData(alphabet, padding);
    assert input[..0] == [];
    while i < |input|
      invariant i <= |input| && (i < |input| ==> i % 3 == 0)
      invariant retval == |ToText(input[..i], alphabet, padding)| <= |ToText(input, alphabet, padding)|
      invariant output[..retval] == ToText(input[..i], alphabet, padding)
      invariant forall j :: retval <= j < output.Length ==> output[j] == old(output[j])
    {
      var size := if blockSize < |input| - i then blockSize else |input| - i;
      var block := input[i..i + size];
      NextBlock(input, i, size, alphabet, padding);
      var text := ToText(block, alphabet, padding);
      Store(output, retval, text);
      retval := retval + |text|;
      i := i + size;
      BlockEnd(i - size, size, blockSize, |input|);
    }
    assert input[..i] == input;
    CharactersOfText(input, alphabet, padding);
    assert forall j :: 0 <= j < retval ==> output[j] == output[..retval][j];
  }

  lemma CharactersOfText(input: seq<byte>, alphabet: Alphabet, padding: bool)
    ensures var text := ToText(input, alphabet, padding);
            forall i: nat :: i < |text| ==>
              if i < |Encode(input)| then Spells(text[i], Encode(input)[i], alphabet) && SixBits(Encode(input)[i],
                                                                                                 input, i)
              else text[i] as char == '='
  {
    hide ToText, Encode, Spells, SixBits;
    var text := ToText(input, alphabet, padding);
    forall i: nat | i < |text|
      ensures if i < |Encode(input)| then
                Spells(text[i], Encode(input)[i], alphabet) && SixBits(Encode(input)[i], input, i)
              else text[i] as char == '='
    {
      CharacterOfText(input, alphabet, padding, i);
    }
  }

  lemma NoData(alphabet: Alphabet, padding: bool)
    ensures ToText([], alphabet, padding) == []
  {
  }

  lemma NextBlock(input: seq<byte>, i: nat, size: nat, alphabet: Alphabet, padding: bool)
    requires i % 3 == 0 && i + size <= |input|
    ensures ToText(input[..i + size], alphabet, padding)
         == ToText(input[..i], alphabet, padding) + ToText(input[i..i + size], alphabet, padding)
    ensures |ToText(input[..i + size], alphabet, padding)| <= |ToText(input, alphabet, padding)|
  {
    hide ToText;
    assert input[..i + size] == input[..i] + input[i..i + size];
    ToTextConcat(input[..i], input[i..i + size], alphabet, padding);
    TextLength(|input[..i + size]|, |input|);
  }

  lemma TextLength(n: nat, m: nat)
    requires n <= m
    ensures (4 * n + 2) / 3 + (if n % 3 != 0 then 3 - n % 3 else 0)
         <= (4 * m + 2) / 3 + if m % 3 != 0 then 3 - m % 3 else 0
    ensures (4 * n + 2) / 3 <= (4 * m + 2) / 3
  {
  }

  lemma BlockEnd(i: nat, size: nat, blockSize: nat, length: nat)
    requires i % 3 == 0 && blockSize % 3 == 0 && size == if blockSize < length - i then blockSize else length - i
    ensures i + size < length ==> (i + size) % 3 == 0
  {
  }

  // ----- There and back -----

  // A text that encodes the data, with any white space, is decoded to the data if there is room and
  // the mode decodes its last bytes, whatever the buffer; if not, strict mode reports a remainder
  // and the others leave these bytes out.
  lemma TextReturned(text: seq<byte>, data: seq<byte>, alphabet: Alphabet, padding: bool, options: Options,
                     last: LastChunk, upToBad: bool, capacity: nat, bufferSize: nat, error: ErrorCode, count: nat,
                     output: seq<byte>)
    requires IsTextOf(text, data, alphabet, padding) && Accepts(options.reading, alphabet)
    requires |data| <= capacity && bufferSize >= 3
    requires Returned(text, options, last, upToBad, capacity, bufferSize, error, count, output)
    ensures error == TextVerdict(data, last, padding, options.garbage)
    ensures error == SUCCESS ==> output == ReadBack(data, last, padding, options.garbage)
  {
    hide IsTextOf, Accepts, VerdictOn, DecodedOf, RunSplits, Content, SymbolsOf, TailOf, FirstStop, Encode, Decode,
      TextVerdict, ReadsAll, Canonical;
    TextIsReadable(text, data, alphabet, padding, options);
    RegularNeverSplits(text, options, capacity, bufferSize);
    EncodedVerdict(text, data, alphabet, padding, options, last, true, capacity);
    TextIsRead(text, data, alphabet, padding, options);
    ReadBackIs(data);
    NoRemainder(data, last, padding, options.garbage);
  }

  lemma NoRemainder(data: seq<byte>, last: LastChunk, padding: bool, garbage: bool)
    ensures TextVerdict(data, last, padding, garbage) in {SUCCESS, BASE64_INPUT_REMAINDER}
  {
  }

  lemma TextIsReadable(text: seq<byte>, data: seq<byte>, alphabet: Alphabet, padding: bool, options: Options)
    requires IsTextOf(text, data, alphabet, padding) && Accepts(options.reading, alphabet)
    ensures Regular(text, options) && Readable(text, options)
  {
    hide IsTextOf, Accepts, Content, SymbolsOf, TailOf, FirstStop;
    TextIsRegular(text, data, alphabet, padding, options);
  }

  method DecodeText(text: seq<byte>, ghost data: seq<byte>, ghost alphabet: Alphabet, ghost padding: bool,
                    output: array<byte>, outlen0: nat, options: Options, last: LastChunk, upToBad: bool,
                    bufferSize: nat)
    returns (error: ErrorCode, outlen: nat)
    requires IsTextOf(text, data, alphabet, padding) && Accepts(options.reading, alphabet)
    requires |data| <= outlen0 <= output.Length && bufferSize >= 3
    modifies output
    ensures outlen <= outlen0 && error == TextVerdict(data, last, padding, options.garbage)
    ensures error == SUCCESS ==> output[..outlen] == ReadBack(data, last, padding, options.garbage)
  {
    hide *;
    TextIsReadable(text, data, alphabet, padding, options);
    var count;
    error, count, outlen := AtomicToBinarySafe(text, output, outlen0, options, last, upToBad, bufferSize);
    TextReturned(text, data, alphabet, padding, options, last, upToBad, outlen0, bufferSize, error, count,
                 output[..outlen]);
  }

  // Encoding and decoding through small buffers gives the data back.
  method EncodeThenDecode(data: seq<byte>, text: array<byte>, output: array<byte>, alphabet: Alphabet, padding: bool,
                          blockSize: nat, options: Options, last: LastChunk, upToBad: bool, bufferSize: nat)
    returns (error: ErrorCode, outlen: nat)
    requires blockSize > 0 && blockSize % 3 == 0 && bufferSize >= 3 && text != output
    requires |ToText(data, alphabet, padding)| <= text.Length && |data| <= output.Length
    requires Accepts(options.reading, alphabet) && ReadsAll(last, padding, options.garbage, |data| % 3)
    modifies text, output
    ensures error == SUCCESS && outlen == |data| && output[..outlen] == data
  {
    hide IsTextOf, Accepts, ToText, ReadsAll;
    var retval := AtomicBinaryToBase64(data, text, alphabet, padding, blockSize);
    NoSpaceInText(data, alphabet, padding);
    error, outlen := DecodeText(text[..retval], data, alphabet, padding, output, output.Length, options, last, upToBad,
                                bufferSize);
  }
}
