/**
  * What the OpenSSL decoder makes of encoded texts with white space added anywhere.
  */
module OpenSslTexts {
  import opened Base64
  import opened Buffers
  import opened OpenSslDecoder
  import Simdutf = SimdutfBase64

  // ----- Letters -----

  lemma LetterIsData(v: Sextet)
    ensures Ascii2Bin(Letter(v, Standard), false) == v && Letter(v, Standard) != PAD
    ensures Letter(v, Standard) as char !in WHITE_SPACE
  {
  }

  lemma WhiteIsNoData(c: byte)
    requires c as char in WHITE_SPACE
    ensures !IsData(c, false) && SymbolTable(false)(c) >= 64 && c != PAD
    ensures Ascii2Bin(c, false) != B64_EOF && Ascii2Bin(c, false) != B64_ERROR
  {
    hide Ascii2Bin, WHITE_SPACE;
    OtherCharacters(c, false);
  }

  lemma LettersAreSymbols(s: seq<Sextet>)
    ensures Symbols(Letters(s, Standard), SymbolTable(false)) == s
  {
    hide Letter, Ascii2Bin;
    forall i | 0 <= i < |s| ensures SymbolTable(false)(Letters(s, Standard)[i]) == s[i] {
      LetterIsData(s[i]);
    }
    SymbolsOfLetters(s, Standard, SymbolTable(false));
  }

  // A letter, a '=' or white space.
  predicate IsExpected(c: byte) { IsData(c, false) || c as char in WHITE_SPACE }

  lemma ExpectedIsFine(c: byte)
    requires IsExpected(c)
    ensures Ascii2Bin(c, false) != B64_EOF && Ascii2Bin(c, false) != B64_ERROR
  {
    hide WHITE_SPACE, Ascii2Bin;
    OtherCharacters(c, false);
    if c as char in WHITE_SPACE {
      WhiteIsNoData(c);
    }
  }

  // ----- Texts -----

  predicate SpellsEncoding(text: seq<byte>, b: seq<byte>)
  {
    Without(text, WHITE_SPACE) == Letters(Encode(b), Standard)
  }

  predicate SpellsPadded(text: seq<byte>, b: seq<byte>)
  {
    Without(text, WHITE_SPACE) == Simdutf.ToText(b, Standard, true)
  }

  lemma WhiteSpaceIsDropped(text: seq<byte>)
    ensures Symbols(Without(text, WHITE_SPACE), SymbolTable(false)) == Symbols(text, SymbolTable(false))
  {
    hide Ascii2Bin, WHITE_SPACE, SymbolTable;
    forall i | 0 <= i < |text| && text[i] as char in WHITE_SPACE ensures SymbolTable(false)(text[i]) >= 64 {
      WhiteIsNoData(text[i]);
    }
    WithoutKeepsSymbols(text, WHITE_SPACE, SymbolTable(false));
  }

  lemma SpelledSymbols(text: seq<byte>, b: seq<byte>)
    requires SpellsEncoding(text, b)
    ensures Symbols(text, SymbolTable(false)) == Encode(b) && CleanText(text, false)
  {
    hide Ascii2Bin, WHITE_SPACE, SymbolTable, Letter, Encode;
    WhiteSpaceIsDropped(text);
    LettersAreSymbols(Encode(b));
    forall i | 0 <= i < |text|
      ensures text[i] != PAD && Ascii2Bin(text[i], false) != B64_ERROR && Ascii2Bin(text[i], false) != B64_EOF
    {
      if text[i] as char in WHITE_SPACE {
        WhiteIsNoData(text[i]);
      } else {
        KeptWithout(text, WHITE_SPACE, i);
        var j :| 0 <= j < |Encode(b)| && Letters(Encode(b), Standard)[j] == text[i];
        LetterIsData(Encode(b)[j]);
        ExpectedIsFine(text[i]);
      }
    }
  }

  lemma {:induction false} PartIsIn<T>(parts: seq<seq<T>>, i: nat, j: nat)
    requires i < |parts| && j < |parts[i]|
    ensures parts[i][j] in Joined(parts)
  {
    if i > 0 {
      PartIsIn(parts[1..], i - 1, j);
    }
  }

  lemma PartsAreClean(chunks: seq<seq<byte>>)
    requires CleanText(Joined(chunks), false)
    ensures forall i :: 0 <= i < |chunks| ==> CleanText(chunks[i], false)
  {
    hide Ascii2Bin;
    forall i, j | 0 <= i < |chunks| && 0 <= j < |chunks[i]|
      ensures chunks[i][j] != PAD && Ascii2Bin(chunks[i][j], false) != B64_ERROR
              && Ascii2Bin(chunks[i][j], false) != B64_EOF
    {
      PartIsIn(chunks, i, j);
    }
  }

  lemma EncodedLength(n: nat)
    ensures (4 * n + 2) / 3 % 4 == 0 <==> n % 3 == 0
  {
    var q, r := n / 3, n % 3;
    assert n == 3 * q + r;
    if r == 0 {
      assert (4 * n + 2) / 3 == 4 * q;
    } else if r == 1 {
      assert (4 * n + 2) / 3 == 4 * q + 2;
    } else {
      assert (4 * n + 2) / 3 == 4 * q + 3;
    }
  }

  // Unpadded letters in any chunks: all the data is written if it is whole groups of three bytes,
  // and otherwise the stream is refused with fewer than 48 bytes missing.
  method DecodeCutLetters(chunks: seq<seq<byte>>, out: array<byte>, ghost b: seq<byte>) returns (ok: bool, len: nat)
    requires SpellsEncoding(Joined(chunks), b) && Room(|Joined(chunks)|) <= out.Length
    modifies out
    ensures ok <==> |b| % 3 == 0
    ensures len <= out.Length && len <= |b| < len + 48 && out[..len] == b[..len]
    ensures ok ==> out[..len] == b
  {
    hide SpellsEncoding, CleanText, Decode, Encode, SymbolTable, Symbols, Room;
    SpelledSymbols(Joined(chunks), b);
    PartsAreClean(chunks);
    RoundTrip(b);
    EncodedLength(|b|);
    assert |Decode(Encode(b))| == |b| && b[..|b|] == b;
    ok, len := DecodeChunks(chunks, out);
  }

  // ----- Padded texts -----

  lemma {:induction false} DataIsKept(text: seq<byte>)
    requires forall i :: 0 <= i < |text| ==> IsExpected(text[i])
    ensures Data(text, false) == Without(text, WHITE_SPACE)
  {
    hide WHITE_SPACE, IsData;
    if text != [] {
      var n := |text| - 1;
      DataIsKept(text[..n]);
      assert IsExpected(text[n]);
      if text[n] as char in WHITE_SPACE {
        WhiteIsNoData(text[n]);
      }
    }
  }

  lemma PadIsData()
    ensures IsData(PAD, false) && PAD as char !in WHITE_SPACE
  {
  }

  lemma TextIsExpected(text: seq<byte>, b: seq<byte>)
    requires SpellsPadded(text, b)
    ensures forall i :: 0 <= i < |text| ==> IsExpected(text[i])
  {
    hide WHITE_SPACE, IsData, Letter, Encode;
    PadIsData();
    forall i | 0 <= i < |text| ensures IsExpected(text[i]) {
      if text[i] as char !in WHITE_SPACE {
        KeptWithout(text, WHITE_SPACE, i);
        var t := Simdutf.ToText(b, Standard, true);
        var j :| 0 <= j < |t| && t[j] == text[i];
        if j < |Encode(b)| {
          LetterIsData(Encode(b)[j]);
          ValueIsData(text[i], Encode(b)[j]);
        }
      }
    }
  }

  lemma ValueIsData(c: byte, v: Sextet)
    requires Ascii2Bin(c, false) == v
    ensures IsData(c, false)
  {
    hide Ascii2Bin;
  }

  lemma {:induction false} PadsBehind(letters: seq<byte>, n: nat)
    requires PAD !in letters
    ensures Pads(letters + seq(n, _ => PAD)) == n
    ensures n <= 2 ==> WellPadded(letters + seq(n, _ => PAD))
  {
    var t := letters + seq(n, _ => PAD);
    if n > 0 {
      PadsBehind(letters, n - 1);
      assert t[..|t| - 1] == letters + seq(n - 1, _ => PAD);
    } else {
      assert t == letters;
    }
    assert forall i :: 0 <= i < |letters| ==> t[i] == letters[i] && letters[i] in letters;
  }

  function PadCount(n: nat): (pads: nat)
    ensures pads <= 2
  {
    if n % 3 != 0 then 3 - n % 3 else 0
  }

  lemma TextParts(b: seq<byte>)
    ensures Simdutf.ToText(b, Standard, true) == Letters(Encode(b), Standard) + seq(PadCount(|b|), _ => PAD)
  {
    hide Letters, Encode;
  }

  lemma NoPadInLetters(s: seq<Sextet>)
    ensures PAD !in Letters(s, Standard)
  {
    hide Letter;
    forall i | 0 <= i < |s| ensures Letters(s, Standard)[i] != PAD {
      LetterIsData(s[i]);
    }
  }

  lemma ToTextIs(b: seq<byte>)
    ensures var t := Simdutf.ToText(b, Standard, true);
            && WellPadded(t) && |t| % 4 == 0 && Symbols(t, SymbolTable(false)) == Encode(b)
  {
    hide *;
    var letters, n := Letters(Encode(b), Standard), PadCount(|b|);
    NoPadInLetters(Encode(b));
    TextParts(b);
    PadsBehind(letters, n);
    Simdutf.TextIsPadded(b, Standard);
    LettersAreSymbols(Encode(b));
    NoSymbolsInPads(n);
    SymbolsConcat(letters, seq(n, _ => PAD), SymbolTable(false));
    assert Encode(b) + [] == Encode(b);
  }

  lemma {:induction false} NoSymbolsInPads(n: nat)
    ensures Symbols(seq(n, _ => PAD), SymbolTable(false)) == []
  {
    if n > 0 {
      assert seq(n, _ => PAD)[..n - 1] == seq(n - 1, _ => PAD);
      NoSymbolsInPads(n - 1);
    }
  }

  lemma PaddedIsAccepted(text: seq<byte>, b: seq<byte>)
    requires SpellsPadded(text, b)
    ensures var content := text[..ContentLength(text, false)];
            var t := Data(content, false);
            && content == text && NoErrors(content, false) && WellPadded(t) && |t| % 4 == 0
            && Symbols(t, SymbolTable(false)) == Encode(b)
  {
    hide WHITE_SPACE, IsData, Letter, Encode, Ascii2Bin, Symbols, WellPadded, IsExpected;
    TextIsExpected(text, b);
    forall i | 0 <= i < |text|
      ensures Ascii2Bin(text[i], false) != B64_EOF && Ascii2Bin(text[i], false) != B64_ERROR
    {
      ExpectedIsFine(text[i]);
    }
    DataIsKept(text);
    ToTextIs(b);
  }

  // The padded text of any data is accepted in one call, and gives the data back.
  method DecodePadded(dst: array<byte>, text: seq<byte>, ghost b: seq<byte>) returns (ok: bool, len: nat)
    requires SpellsPadded(text, b) && Room(|text|) <= dst.Length
    modifies dst
    ensures ok && len <= dst.Length && dst[..len] == b
  {
    hide SpellsPadded, Decode, Encode, SymbolTable, Symbols, Room, Data, NoErrors, WellPadded, ContentLength;
    PaddedIsAccepted(text, b);
    RoundTrip(b);
    ok, len := Base64Decode(dst, text);
  }
}
