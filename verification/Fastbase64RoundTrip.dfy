/**
  * What the fastbase64 tool encodes, it decodes (tools/fastbase64.cpp), for every width of the
  * lines and all sizes of the chunks in which the two files are read.
  */
module Fastbase64RoundTrip {
  import opened Base64
  import opened SimdutfBase64
  import opened EncodedTexts
  import opened Fastbase64Files
  import opened Fastbase64Encode
  import opened Fastbase64Carry
  import opened Fastbase64Decode

  predicate IsWhite(c: byte) { c as char in WHITE_SPACE }

  lemma LineBreakIsWhite()
    ensures NEWLINE as char == '\n' && IsWhite(NEWLINE) && Without([NEWLINE], WHITE_SPACE) == []
  {
    WhiteSpaceCharacters(NEWLINE, Options(Reading.Default, false));
    OnlyWhiteSpace([NEWLINE]);
  }

  // ----- Line breaks are white space, and no two of them are next to each other -----

  // No two characters next to each other are white space.
  predicate IsSparse(text: seq<byte>) { forall i :: 0 <= i < |text| - 1 ==> !IsWhite(text[i]) || !IsWhite(text[i + 1]) }

  predicate NothingWhite(text: seq<byte>) { forall i :: 0 <= i < |text| ==> !IsWhite(text[i]) }

  lemma {:induction false} WrappedIsText(text: seq<byte>, width: nat)
    requires width > 0
    ensures Without(Wrapped(text, width), WHITE_SPACE) == Without(text, WHITE_SPACE)
    decreases |text|
  {
    hide Lines, JoinLines, Without, WHITE_SPACE, IsWhite;
    if |text| <= width {
      OneLine(text, width);
    } else {
      WrapLong(text, width);
      WrappedIsText(text[width..], width);
      var first, rest := text[..width], Wrapped(text[width..], width);
      WithoutConcat(first + [NEWLINE], rest, WHITE_SPACE);
      WithoutConcat(first, [NEWLINE], WHITE_SPACE);
      LineBreakIsWhite();
      WithoutConcat(first, text[width..], WHITE_SPACE);
      assert first + text[width..] == text;
    }
  }

  lemma OneLine(text: seq<byte>, width: nat)
    requires 0 < width && |text| <= width
    ensures Wrapped(text, width) == text
  {
    assert Lines(text, width) == [text];
  }

  lemma {:induction false} WrappedIsSparse(text: seq<byte>, width: nat)
    requires width > 0 && NothingWhite(text) && text != []
    ensures var wrapped := Wrapped(text, width);
            && IsSparse(wrapped) && wrapped != []
            && !IsWhite(wrapped[0]) && !IsWhite(wrapped[|wrapped| - 1])
    decreases |text|
  {
    hide Wrapped, IsWhite;
    if |text| <= width {
      OneLine(text, width);
    } else {
      WrapLong(text, width);
      assert forall i :: 0 <= i < |text| - width ==> text[width..][i] == text[width + i];
      WrappedIsSparse(text[width..], width);
    }
  }

  // Almost every second character is not white space.
  lemma {:induction false} SparseIsHalf(text: seq<byte>)
    requires IsSparse(text)
    ensures 2 * |Without(text, WHITE_SPACE)| + 1 >= |text|
    ensures text != [] && !IsWhite(text[|text| - 1]) ==> 2 * |Without(text, WHITE_SPACE)| >= |text|
  {
    hide WHITE_SPACE;
    if text != [] {
      var n := |text| - 1;
      assert forall i :: 0 <= i < n ==> text[..n][i] == text[i];
      SparseIsHalf(text[..n]);
      if n > 0 && IsWhite(text[n]) {
        assert !IsWhite(text[n - 1]);
      }
    }
  }

  lemma SparseIsDense(text: seq<byte>, n: nat)
    requires IsSparse(text) && n >= 8
    ensures AreDense(text, n)
  {
    hide Without, IsWhite;
    forall i: nat ensures IsDense(text, i, n) {
      if i + n <= |text| {
        var part := text[i..i + n];
        assert forall k :: 0 <= k < n ==> part[k] == text[i + k];
        SparseIsHalf(part);
      }
    }
  }

  // ----- The file that is written -----

  // Whatever the width of the lines, the file is the text of the data with white space added.
  lemma FileIsText(file: seq<byte>, encoder: Encoder, data: seq<byte>)
    requires file == encoder.Layout(ToText(data, Standard, true)) + [NEWLINE]
    ensures IsTextOf(file, data, Standard, true) && IsSparse(file)
  {
    hide Wrapped, ToText, Without, WHITE_SPACE, IsWhite;
    var text := ToText(data, Standard, true);
    var body := encoder.Layout(text);
    NoSpaceInText(data, Standard, true);
    assert Without(text, WHITE_SPACE) == text;
    LineBreakIsWhite();
    WithoutConcat(body, [NEWLINE], WHITE_SPACE);
    forall i | 0 <= i < |text| ensures !IsWhite(text[i]) {
      NotDropped(text, i);
    }
    if encoder.wrapCols > 0 {
      WrappedIsText(text, encoder.wrapCols);
      if text == [] {
        OneLine(text, encoder.wrapCols);
      } else {
        WrappedIsSparse(text, encoder.wrapCols);
      }
    }
    assert text + [] == text;
  }

  lemma NotDropped(text: seq<byte>, i: nat)
    requires i < |text| && Without(text, WHITE_SPACE) == text
    ensures !IsWhite(text[i])
  {
    hide WHITE_SPACE;
    assert text[i] in text;
  }

  // The decoder accepts it in one call, and chunks of ten characters or more keep its padding.
  lemma FileIsReadable(file: seq<byte>, data: seq<byte>, options: Options, chunkSize: nat)
    requires IsTextOf(file, data, Standard, true) && IsSparse(file)
    requires Accepts(options.reading, Standard) && chunkSize >= 10
    ensures IsAccepted(file, options) && KeepsPadding(file, options, chunkSize)
    ensures Decode(SymbolsOf(file, options)) == data
  {
    hide SymbolsOf, Content, TailOf, IsTextOf, VerdictOn, IsSparse, AreDense, Encode, Decode;
    TextIsRegular(file, data, Standard, true, options);
    EncodedVerdict(file, data, Standard, true, options, Loose, false, 0);
    SymbolsOfText(file, data, Standard, true, options);
    SparseIsDense(file, chunkSize - 2);
    RoundTrip(data);
  }

  // encode_to, and decode_to on what it wrote: every byte comes back that the encoder's carry did
  // not lose, and with the chunks of the tool it loses none.
  method EncodeThenDecode(data: seq<byte>, wrapCols: int, encodeChunk: nat, options: Options, decodeChunk: nat)
    returns (v: Verdict, decoded: seq<byte>)
    requires encodeChunk >= 3 && decodeChunk >= 10 && Accepts(options.reading, Standard)
    ensures v == Decoded && decoded == data[..|data| - Lost(|data|, encodeChunk)]
    ensures encodeChunk % 3 == 0 ==> decoded == data
  {
    hide *;
    var encoder := new Encoder(wrapCols);
    var input := new InputFile(data);
    var file := new OutputFile();
    encoder.EncodeTo(input, file, encodeChunk);
    var kept := data[..|data| - Lost(|data|, encodeChunk)];
    FileIsText(file.data, encoder, kept);
    FileIsReadable(file.data, kept, options, decodeChunk);
    var written := new InputFile(file.data);
    var output := new OutputFile();
    v := DecodeTo(written, output, options, decodeChunk);
    decoded := output.data;
    NoCarry(|data|, encodeChunk);
  }

  lemma NoCarry(length: nat, chunkSize: nat)
    requires chunkSize >= 3
    ensures chunkSize % 3 == 0 ==> Lost(length, chunkSize) == 0
  {
  }
}
