/**
  * The decoding loop of the fastbase64 tool (tools/fastbase64.cpp): fixed-size chunks, of which the
  * characters of an incomplete group are carried over to the next.
  */
module Fastbase64Decode {
  import opened Base64
  import opened SimdutfBase64
  import opened EncodedTexts
  import opened Fastbase64Carry
  import opened Fastbase64Files
  import opened Buffers

  // What the tool reports: a position in the file, a wrong number of characters, or success.
  datatype Verdict = Decoded | InvalidCharacterAt(position: nat) | WrongLength

  // One-shot loose decoding of the whole file.
  function WholeFile(all: seq<byte>, options: Options): Verdict
  {
    var bad := FirstStop(all, options);
    if bad < |all| then InvalidCharacterAt(bad)
    else if |SymbolsOf(all, options)| % 4 == 1 && !options.garbage then WrongLength
    else Decoded
  }

  // The compaction loop.
  method Compact(buffer: array<byte>, total: nat, options: Options) returns (w: nat)
    requires total <= buffer.Length
    modifies buffer
    ensures w <= total && buffer[..w] == ValidOnly(old(buffer[..total]), options)
  {
    hide IsValid;
    w := 0;
    ghost var text := buffer[..total];
    for i := 0 to total
      invariant w <= i && buffer[..w] == ValidOnly(text[..i], options)
      invariant forall j :: i <= j < total ==> buffer[j] == text[j]
    {
      var c := buffer[i];
      assert text[..i + 1][..i] == text[..i];
      if IsValid(c, options) {
        buffer[w] := c;
        w := w + 1;
        assert buffer[..w] == ValidOnly(text[..i], options) + [c];
      }
    }
    assert text[..total] == text;
  }

  // Of the first `read` bytes of the file, the symbols in `done` are written, in whole groups; the
  // others are in `text`, whose first `offset` characters are carried over and known to be good,
  // and whose other characters are the last ones read.
  ghost predicate Carrying(all: seq<byte>, read: nat, done: seq<Sextet>, text: seq<byte>, offset: nat, pos: nat,
                           options: Options)
  {
    && offset <= |text| && pos + |text| == read <= |all|
    && |done| % 4 == 0 && PAD !in text
    && SymbolsOf(all[..read], options) == done + SymbolsOf(text, options)
    && (forall i :: 0 <= i < offset ==> !IsStop(text[i], options))
    && (forall i :: 0 <= i < pos + offset ==> !IsStop(all[i], options))
    && text[offset..] == all[pos + offset..read]
  }

  // A bad character in the buffer has its exact place in the file, even after compactions.
  lemma {:induction false} BadPosition(all: seq<byte>, read: nat, done: seq<Sextet>, text: seq<byte>, offset: nat,
                                       pos: nat, options: Options)
    requires Carrying(all, read, done, text, offset, pos, options)
    ensures var bad := FirstStop(text, options);
            if bad < |text| then FirstStop(all, options) == pos + bad
            else forall i :: 0 <= i < read ==> !IsStop(all[i], options)
  {
    hide IsStop, SymbolsOf;
    var bad := FirstStop(text, options);
    assert forall i :: offset <= i < |text| ==> text[i] == text[offset..][i - offset] == all[pos + i];
    assert forall i :: pos + offset <= i < read ==> all[i] == text[i - pos];
    if bad < |text| {
      assert bad >= offset;
      FirstStopIs(all, pos + bad, options);
    }
  }

  // Reading more of the file behind carried characters.
  lemma AfterLoad(all: seq<byte>, read: nat, done: seq<Sextet>, carried: seq<byte>, pos: nat, read': nat,
                  options: Options)
    requires Carrying(all, read, done, carried, |carried|, pos, options) && read <= read' <= |all|
    requires PAD !in all
    ensures Carrying(all, read', done, carried + all[read..read'], |carried|, pos, options)
  {
    hide IsStop, SymbolsOf;
    assert all[..read'] == all[..read] + all[read..read'];
    JoinSymbols(all[..read], all[read..read'], options);
    JoinSymbols(carried, all[read..read'], options);
  }

  // Whole groups were written up to `count`; the rest is carried over.
  lemma AfterWrite(all: seq<byte>, read: nat, done: seq<Sextet>, text: seq<byte>, offset: nat, pos: nat,
                   options: Options, count: nat)
    requires Carrying(all, read, done, text, offset, pos, options)
    requires FirstStop(text, options) == |text| && count <= |text|
    requires |SymbolsOf(text[..count], options)| % 4 == 0
    ensures |done| % 4 == 0
    ensures Carrying(all, read, done + SymbolsOf(text[..count], options), text[count..], |text[count..]|, pos + count,
                     options)
  {
    hide IsStop, SymbolsOf, FirstStop;
    BadPosition(all, read, done, text, offset, pos, options);
    SplitSymbols(text, count, options);
  }

  // No group was complete; the buffer is compacted.
  lemma AfterCompact(all: seq<byte>, read: nat, done: seq<Sextet>, text: seq<byte>, offset: nat, pos: nat,
                     options: Options)
    requires Carrying(all, read, done, text, offset, pos, options)
    requires FirstStop(text, options) == |text|
    ensures var kept := ValidOnly(text, options);
            && |kept| == |SymbolsOf(text, options)|
            && Carrying(all, read, done, kept, |kept|, pos + (|text| - |kept|), options)
  {
    hide SymbolsOf, ValidOnly, FirstStop;
    BadPosition(all, read, done, text, offset, pos, options);
    ValidOnlyKeepsSymbols(text, options);
    forall i | 0 <= i < |ValidOnly(text, options)|
      ensures !IsStop(ValidOnly(text, options)[i], options) && ValidOnly(text, options)[i] != PAD
    {
      KindsOfCharacters(ValidOnly(text, options)[i], options);
    }
  }

  // The whole file is read: its verdict is that of the last chunk.
  lemma AtEnd(all: seq<byte>, done: seq<Sextet>, text: seq<byte>, offset: nat, pos: nat, options: Options)
    requires Carrying(all, |all|, done, text, offset, pos, options)
    ensures var bad := FirstStop(text, options);
            WholeFile(all, options)
            == if bad < |text| then InvalidCharacterAt(pos + bad)
               else if |SymbolsOf(text, options)| % 4 == 1 && !options.garbage then WrongLength else Decoded
    ensures Decode(SymbolsOf(all, options)) == Decode(done) + Decode(SymbolsOf(text, options))
  {
    hide IsStop, SymbolsOf, Decode, FirstStop;
    assert all[..|all|] == all;
    BadPosition(all, |all|, done, text, offset, pos, options);
    DecodeConcat(done, SymbolsOf(text, options));
    SameRest(|done|, |SymbolsOf(text, options)|, |SymbolsOf(all, options)|);
    if FirstStop(text, options) == |text| {
      FirstStopIs(all, |all|, options);
    }
  }

  // A bad character ends the run before the end of the file is reached.
  lemma NotAtEnd(all: seq<byte>, read: nat, done: seq<Sextet>, text: seq<byte>, offset: nat, pos: nat, options: Options)
    requires Carrying(all, read, done, text, offset, pos, options) && FirstStop(text, options) < |text|
    ensures WholeFile(all, options) == InvalidCharacterAt(pos + FirstStop(text, options))
  {
    BadPosition(all, read, done, text, offset, pos, options);
  }

  // What was written so far is a prefix of the whole decoding, also when the file is rejected.
  lemma WrittenPrefix(all: seq<byte>, read: nat, done: seq<Sextet>, text: seq<byte>, offset: nat, pos: nat,
                      options: Options)
    requires Carrying(all, read, done, text, offset, pos, options)
    ensures Decode(done) <= Decode(SymbolsOf(all, options))
    ensures PAD !in text
  {
    hide IsStop, ToBase64, Decode;
    SplitSymbols(all, read, options);
    var s := SymbolsOf(all, options);
    assert done == s[..|done|];
    DecodePrefix(s, |done|);
  }

  // What the decoder returns for a text without '='.
  lemma Unpadded(text: seq<byte>, options: Options, last: LastChunk, r: FullResult)
    requires Details(text, options, last, r) && PAD !in text && (last.Loose? || last.StopBeforePartial?)
    ensures var stop, s := FirstStop(text, options), SymbolsOf(text, options);
            if stop < |text| then r.error == INVALID_BASE64_CHARACTER && r.inputCount == stop
            else if last.StopBeforePartial? then
              && r.error == SUCCESS && r.inputCount <= |text|
              && |SymbolsOf(text[..r.inputCount], options)| == |s| / 4 * 4
              && r.output == Decode(s[..|s| / 4 * 4])
            else if |s| % 4 == 1 && !options.garbage then r.error == BASE64_INPUT_REMAINDER
            else r.error == SUCCESS && r.output == Decode(s)
  {
    hide ToBase64, SymbolsOf, Canonical, Decode, IsEnd, ExtraBits, IsStop;
    var s := SymbolsOf(text, options);
    assert text[..|text|] == text && s[..|s|] == s;
    if FirstStop(text, options) < |text| {
      assert text[FirstStop(text, options)] != PAD;
      StopIsPad(text[FirstStop(text, options)], options);
    }
  }

  lemma StopIsPad(c: byte, options: Options)
    requires IsStop(c, options) && c != PAD
    ensures !options.garbage
  {
  }

  // A chunk that is not the last is not rejected otherwise.
  lemma PartialErrors(text: seq<byte>, options: Options, r: FullResult)
    requires Details(text, options, StopBeforePartial, r)
    ensures r.error in {SUCCESS, INVALID_BASE64_CHARACTER, BASE64_INPUT_REMAINDER} && r.inputCount <= |text|
  {
    hide ToBase64, SymbolsOf, FirstStop, Canonical, ExtraBits, Decode, TailOf, SimdutfBase64.Decoded;
  }

  // Write what was decoded and move the rest of the buffer to its start; if nothing was decoded,
  // compact the buffer to make room.
  method CarryOver(buffer: array<byte>, total: nat, r: FullResult, pos0: nat, options: Options, output: OutputFile)
    returns (pos: nat, offset: nat)
    requires 4 <= total <= buffer.Length
    requires Details(buffer[..total], options, StopBeforePartial, r) && r.error == SUCCESS
    modifies buffer, output
    ensures offset < total && pos == pos0 + (total - offset)
    ensures buffer[..offset] == Kept(old(buffer[..total]), r.inputCount, options)
    ensures output.data == old(output.data) + Written(r)
  {
    hide *;
    ghost var text := buffer[..total];
    PartialErrors(text, options, r);
    KeptIs(text, options, r);
    if r.inputCount == 0 {
      offset := Compact(buffer, total, options);
      SomethingIsDropped(text, options, r);
      pos := pos0 + (total - offset);
    } else {
      output.Write(r.output);
      offset := total - r.inputCount;
      MoveDown(buffer, r.inputCount, offset);
      pos := pos0 + r.inputCount;
    }
  }

  // What is carried over, and what is written.
  function Kept(text: seq<byte>, count: nat, options: Options): seq<byte>
    requires count <= |text|
  {
    if count == 0 then ValidOnly(text, options) else text[count..]
  }

  function Written(r: FullResult): seq<byte> { if r.inputCount == 0 then [] else r.output }

  lemma KeptIs(text: seq<byte>, options: Options, r: FullResult)
    requires r.inputCount <= |text|
    ensures r.inputCount == 0 ==> Kept(text, 0, options) == ValidOnly(text, options) && Written(r) == []
    ensures r.inputCount > 0 ==> Kept(text, r.inputCount, options) == text[r.inputCount..] && Written(r) == r.output
  {
  }

  // Four symbols would be decoded, so compaction makes room.
  lemma SomethingIsDropped(text: seq<byte>, options: Options, r: FullResult)
    requires Details(text, options, StopBeforePartial, r) && r.error == SUCCESS && r.inputCount == 0 && |text| >= 4
    ensures |ValidOnly(text, options)| < |text|
  {
    hide ToBase64, SymbolsOf, FirstStop, Decode, ValidOnly, Canonical, IsStop, SimdutfBase64.Verdict,
      SimdutfBase64.Decoded, IsPadding, CountPads;
    var s := SymbolsOf(text, options);
    ValidOnlyKeepsSymbols(text, options);
    NoText(options);
    assert text[..0] == [] && text[..|text|] == text;
    if |s| == |text| {
      AllValid(text, options);
      StopBeforePartialIs(s, 0, options.garbage, End);
      assert false;
    }
  }

  lemma {:induction false} AllValid(text: seq<byte>, options: Options)
    requires |SymbolsOf(text, options)| == |text|
    ensures FirstStop(text, options) == |text|
  {
    hide ToBase64, IsStop, IsValid, FirstStop;
    forall i | 0 <= i < |text| ensures !IsStop(text[i], options) {
      KindsOfCharacters(text[i], options);
      assert text[..|text|] == text;
      SplitSymbols(text, i, options);
      NextSymbolOf(text, i, options);
      SplitSymbols(text, i + 1, options);
    }
    FirstStopIs(text, |text|, options);
  }

  // What is carried over of a file without '='.
  lemma CarriesOn(all: seq<byte>, read: nat, done: seq<Sextet>, text: seq<byte>, offset: nat, pos: nat,
                  options: Options, r: FullResult)
    requires Carrying(all, read, done, text, offset, pos, options) && PAD !in all
    requires Details(text, options, StopBeforePartial, r) && r.error == SUCCESS && r.inputCount <= |text|
    ensures var taken, kept := SymbolsOf(text[..r.inputCount], options), Kept(text, r.inputCount, options);
            && |kept| <= |text|
            && Carrying(all, read, done + taken, kept, |kept|, pos + (|text| - |kept|), options)
            && Decode(done + taken) == Decode(done) + Written(r)
  {
    hide IsStop, ToBase64, Decode, Details, ValidOnly, SymbolsOf, FirstStop;
    Unpadded(text, options, StopBeforePartial, r);
    KeptIs(text, options, r);
    if r.inputCount == 0 {
      NoText(options);
      assert text[..0] == [] && done + [] == done && Decode(done) + [] == Decode(done);
      AfterCompact(all, read, done, text, offset, pos, options);
    } else {
      AfterWrite(all, read, done, text, offset, pos, options, r.inputCount);
      SplitSymbols(text, r.inputCount, options);
      DecodeConcat(done, SymbolsOf(text[..r.inputCount], options));
    }
  }

  // ----- Any file -----

  ghost predicate Readable(all: seq<byte>, options: Options, chunkSize: nat)
    requires chunkSize >= 4
  {
    IsAccepted(all, options) && KeepsPadding(all, options, chunkSize)
  }

  // The files whose output is known.
  ghost predicate IsKnown(all: seq<byte>, options: Options, chunkSize: nat)
    requires chunkSize >= 4
  {
    PAD !in all || Readable(all, options, chunkSize)
  }

  ghost predicate Carried(all: seq<byte>, read: nat, done: seq<Sextet>, text: seq<byte>, offset: nat, pos: nat, q: nat,
                          options: Options, chunkSize: nat)
    requires chunkSize >= 4
  {
    && (PAD !in all ==> Carrying(all, read, done, text, offset, pos, options))
    && (Readable(all, options, chunkSize) ==> Following(all, read, done, text, q, options))
  }

  lemma ReadableMeans(all: seq<byte>, options: Options, chunkSize: nat)
    requires chunkSize >= 4
    ensures Readable(all, options, chunkSize) <==> IsAccepted(all, options) && KeepsPadding(all, options, chunkSize)
    ensures IsKnown(all, options, chunkSize) <==> PAD !in all || Readable(all, options, chunkSize)
  {
  }

  lemma AfterFirstLoad(all: seq<byte>, read: nat, options: Options, chunkSize: nat)
    requires read <= |all| && chunkSize >= 4
    ensures Carried(all, read, [], all[0..read], 0, 0, 0, options, chunkSize) && Decode([]) == []
  {
    hide IsStop, SymbolsOf, Carrying, Following, Readable;
    Initially(all, options);
    FollowsFirst(all, read, options);
    if PAD !in all {
      AfterLoad(all, 0, [], [], 0, read, options);
      assert [] + all[0..read] == all[0..read];
    }
  }

  // What a chunk that is not the last leads to.
  lemma Turn(all: seq<byte>, read: nat, done: seq<Sextet>, text: seq<byte>, offset: nat, pos: nat, q: nat,
             options: Options, chunkSize: nat, r: FullResult)
    requires 4 <= chunkSize == |text| && Carried(all, read, done, text, offset, pos, q, options, chunkSize)
    requires Details(text, options, StopBeforePartial, r)
    ensures r.error in {SUCCESS, INVALID_BASE64_CHARACTER, BASE64_INPUT_REMAINDER} && r.inputCount <= |text|
    ensures Readable(all, options, chunkSize) ==> r.error == SUCCESS
    ensures PAD !in all ==>
              && Decode(done) <= Decode(SymbolsOf(all, options)) && r.error != BASE64_INPUT_REMAINDER
              && (r.error == INVALID_BASE64_CHARACTER ==>
                    WholeFile(all, options) == InvalidCharacterAt(pos + r.inputCount))
    ensures r.error == SUCCESS ==>
              var taken, kept := SymbolsOf(text[..r.inputCount], options), Kept(text, r.inputCount, options);
              && |kept| <= |text|
              && Carried(all, read, done + taken, kept, |kept|, pos + (|text| - |kept|),
                         NextStart(text, read, q, r.inputCount), options, chunkSize)
              && (IsKnown(all, options, chunkSize) ==> Decode(done + taken) == Decode(done) + Written(r))
  {
    hide IsStop, ToBase64, Decode, Details, SymbolsOf, FirstStop, Carrying, Following, IsAccepted, KeepsPadding,
      Kept, Written, WholeFile, ValidOnly;
    PartialErrors(text, options, r);
    KeptIs(text, options, r);
    if Readable(all, options, chunkSize) {
      FollowsOn(all, read, done, text, q, options, chunkSize, r);
    }
    if PAD !in all {
      WrittenPrefix(all, read, done, text, offset, pos, options);
      Unpadded(text, options, StopBeforePartial, r);
      if r.error == SUCCESS {
        CarriesOn(all, read, done, text, offset, pos, options, r);
      } else {
        NotAtEnd(all, read, done, text, offset, pos, options);
      }
    }
  }

  lemma LoadOn(all: seq<byte>, read: nat, done: seq<Sextet>, carried: seq<byte>, pos: nat, q: nat, read': nat,
               options: Options, chunkSize: nat)
    requires chunkSize >= 4 && Carried(all, read, done, carried, |carried|, pos, q, options, chunkSize)
    requires read <= read' <= |all|
    ensures Carried(all, read', done, carried + all[read..read'], |carried|, pos, q, options, chunkSize)
  {
    hide Carrying, Following, Readable;
    if PAD !in all {
      AfterLoad(all, read, done, carried, pos, read', options);
    }
    if Readable(all, options, chunkSize) {
      FollowsLoad(all, read, done, carried, q, read', options);
    }
  }

  lemma NothingLeft(all: seq<byte>, done: seq<Sextet>, pos: nat, q: nat, options: Options, chunkSize: nat)
    requires chunkSize >= 4 && Carried(all, |all|, done, [], 0, pos, q, options, chunkSize)
    ensures PAD !in all ==> WholeFile(all, options) == Decoded
    ensures IsKnown(all, options, chunkSize) ==> Decode(SymbolsOf(all, options)) == Decode(done)
  {
    hide IsStop, SymbolsOf, Decode, FirstStop, Carrying, WholeFile, Following, Readable;
    NoText(options);
    Initially(all, options);
    if PAD !in all {
      AtEnd(all, done, [], 0, pos, options);
      assert Decode(done) + [] == Decode(done);
    }
    if Readable(all, options, chunkSize) {
      AllSymbols(all, done, [], q, options);
      assert done + [] == done;
    }
  }

  // The final chunk is decoded in loose mode.
  method FinalChunk(text: seq<byte>, pos: nat, options: Options, output: OutputFile, ghost all: seq<byte>,
                    ghost done: seq<Sextet>, ghost offset: nat, ghost q: nat, ghost chunkSize: nat)
    returns (v: Verdict)
    requires chunkSize >= 4 && Carried(all, |all|, done, text, offset, pos, q, options, chunkSize)
    requires IsKnown(all, options, chunkSize) ==> output.data == Decode(done)
    modifies output
    ensures PAD !in all ==>
              && v == WholeFile(all, options)
              && (v == Decoded ==> output.data == Decode(SymbolsOf(all, options)))
              && output.data <= Decode(SymbolsOf(all, options))
    ensures Readable(all, options, chunkSize) ==> v == Decoded && output.data == Decode(SymbolsOf(all, options))
  {
    hide IsStop, ToBase64, Decode, Details, WholeFile, Carrying, SymbolsOf, FirstStop, IsAccepted, Following,
      KeepsPadding;
    var r := ToBinaryDetails(text, options, Loose);
    LooseErrors(text, options, r);
    if PAD !in all {
      AtEnd(all, done, text, offset, pos, options);
      WrittenPrefix(all, |all|, done, text, offset, pos, options);
      Unpadded(text, options, Loose, r);
    }
    if Readable(all, options, chunkSize) {
      LastCall(all, done, text, q, options, r);
    }
    if r.error == INVALID_BASE64_CHARACTER {
      return InvalidCharacterAt(pos + r.inputCount);
    }
    if r.error == BASE64_INPUT_REMAINDER {
      return WrongLength;
    }
    output.Write(r.output);
    v := Decoded;
  }

  lemma LooseErrors(text: seq<byte>, options: Options, r: FullResult)
    requires Details(text, options, Loose, r)
    ensures r.error in {SUCCESS, INVALID_BASE64_CHARACTER, BASE64_INPUT_REMAINDER}
  {
    hide ToBase64, SymbolsOf, FirstStop, Canonical, ExtraBits, Decode, TailOf, SimdutfBase64.Decoded;
  }

  lemma Initially(all: seq<byte>, options: Options)
    ensures Carrying(all, 0, [], [], 0, 0, options) && Decode([]) == []
    ensures SymbolsOf([], options) == [] && FirstStop([], options) == 0
  {
    assert all[..0] == [];
  }

  // decode_to.  For a file without '=', the result and the output are those of decoding it in one
  // call, for every count the decoder may legally return and every chunk size that holds a group.
  // A file that one call accepts is decoded, padded or not, if the chunks keep its padding.
  method DecodeTo(input: InputFile, output: OutputFile, options: Options, chunkSize: nat) returns (v: Verdict)
    requires input.pos == 0 && output.data == [] && chunkSize >= 4
    modifies input, output
    ensures PAD !in input.data ==>
              && v == WholeFile(input.data, options)
              && (v == Decoded ==> output.data == Decode(SymbolsOf(input.data, options)))
              && output.data <= Decode(SymbolsOf(input.data, options))
    ensures IsAccepted(input.data, options) && KeepsPadding(input.data, options, chunkSize) ==>
              v == Decoded && output.data == Decode(SymbolsOf(input.data, options))
  {
    hide *;
    ReadableMeans(input.data, options, chunkSize);
    var all := input.data;
    var buffer := new byte[chunkSize];
    var pos: nat, offset: nat := 0, 0;
    ghost var done: seq<Sextet>, q: nat := [], 0;
    var more, count: nat;
    more, count := input.LoadChunk(buffer, offset);
    AfterFirstLoad(all, input.pos, options, chunkSize);
    assert buffer[..count] == all[0..input.pos];
    while count + offset > 0
      invariant fresh(buffer) && count + offset <= chunkSize == buffer.Length && input.pos <= |all|
      invariant more <==> offset + count == chunkSize
      invariant !more ==> input.pos == |all|
      invariant Carried(all, input.pos, done, buffer[..count + offset], offset, pos, q, options, chunkSize)
      invariant IsKnown(all, options, chunkSize) ==> output.data == Decode(done)
      decreases |all| - input.pos, more
    {
      var total := count + offset;
      var text := buffer[..total];
      if !more {
        v := FinalChunk(text, pos, options, output, all, done, offset, q, chunkSize);
        return;
      }
      // An incomplete group at the end is not decoded, and carried over to the next chunk.
      var r := ToBinaryDetails(text, options, StopBeforePartial);
      Turn(all, input.pos, done, text, offset, pos, q, options, chunkSize, r);
      if r.error == INVALID_BASE64_CHARACTER {
        return InvalidCharacterAt(pos + r.inputCount);
      }
      if r.error == BASE64_INPUT_REMAINDER {
        return WrongLength;
      }
      pos, offset := CarryOver(buffer, total, r, pos, options, output);
      done, q := done + SymbolsOf(text[..r.inputCount], options), NextStart(text, input.pos, q, r.inputCount);
      ghost var read, carried := input.pos, buffer[..offset];
      more, count := input.LoadChunk(buffer, offset);
      LoadOn(all, read, done, carried, pos, q, input.pos, options, chunkSize);
    }
    assert buffer[..0] == [];
    NothingLeft(all, done, pos, q, options, chunkSize);
    v := Decoded;
  }
}
