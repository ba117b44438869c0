/**
  * The trimming of a cut in benchmarks/stream.cpp, so that no character is converted in part.
  */
module StreamTrim {
  import opened Unicode
  import opened WellFormedUtf16

  // trim_partial_utf8 on the first len bytes of buf.
  function TrimPartialUtf8(buf: seq<Octet>, len: nat): (t: nat)
    requires len <= |buf|
    ensures t <= len
  {
    if len >= 1 && buf[len - 1] >= 0xC0 then len - 1       // only one byte of a longer character
    else if len >= 2 && buf[len - 2] >= 0xE0 then len - 2  // only two bytes of a longer one
    else if len >= 3 && buf[len - 3] >= 0xF0 then len - 3  // only three bytes of a longer one
    else len
  }

  // trim_partial_utf16.
  function TrimPartialUtf16(buf: seq<CodeUnit>, len: nat): (t: nat)
    requires len <= |buf|
    ensures t <= len
  {
    if len > 0 && IsHigh(buf[len - 1]) then len - 1 else len
  }

  // For valid UTF-8 the result is the largest character boundary not above the cut.
  lemma {:induction false} TrimIsBoundary(vs: seq<ScalarValue>, len: nat)
    requires len <= |Utf8All(vs)|
    ensures TrimPartialUtf8(Utf8All(vs), len) == BoundaryBelow(vs, len)
  {
    hide Utf8All, BoundaryBelow;
    // Each of the last three bytes in front of the cut, in its character.
    if len >= 1 {
      CharacterAround(vs, len - 1);
    }
    if len >= 2 {
      CharacterAround(vs, len - 2);
    }
    if len >= 3 {
      CharacterAround(vs, len - 3);
    }
  }

  // Both sides of a trimmed cut decode, and together they are the whole text.
  lemma TrimmedCutDecodes(data: seq<Octet>, len: nat)
    requires len <= |data| && DecodeUtf8(data).Some?
    ensures var t := TrimPartialUtf8(data, len);
            && DecodeUtf8(data[..t]).Some? && DecodeUtf8(data[t..]).Some?
            && DecodeUtf8(data[..t]).value + DecodeUtf8(data[t..]).value == DecodeUtf8(data).value
  {
    hide TrimPartialUtf8, BoundaryBelow, DecodeUtf8, Utf8All;
    var vs := DecodeUtf8(data).value;
    EncodeOfDecode(data);
    TrimIsBoundary(vs, len);
    BoundarySplits(vs, len);
    var n := CharactersBelow(vs, len);
    DecodeOfEncode(vs[..n]);
    DecodeOfEncode(vs[n..]);
  }

  // Reading a text in pieces: each cut is trimmed, and what it leaves is read again.
  function Pieces(data: seq<Octet>, cuts: seq<nat>): seq<seq<Octet>>
    decreases |cuts|
  {
    if cuts == [] then [data]
    else
      var t := TrimPartialUtf8(data, if cuts[0] < |data| then cuts[0] else |data|);
      [data[..t]] + Pieces(data[t..], cuts[1..])
  }

  function DecodePieces(pieces: seq<seq<Octet>>): Option<seq<ScalarValue>>
  {
    if pieces == [] then Some([])
    else
      match (DecodeUtf8(pieces[0]), DecodePieces(pieces[1..]))
      case (Some(a), Some(b)) => Some(a + b)
      case _ => None
  }

  // For any sequence of cuts, the pieces decode to the text.
  lemma {:induction false} AnyCutsDecode(data: seq<Octet>, cuts: seq<nat>)
    requires DecodeUtf8(data).Some?
    ensures DecodePieces(Pieces(data, cuts)) == DecodeUtf8(data)
    decreases |cuts|
  {
    hide TrimPartialUtf8, DecodeUtf8;
    var pieces := Pieces(data, cuts);
    if cuts == [] {
      assert pieces[1..] == [];
      assert DecodePieces(pieces[1..]) == Some([]);
      assert DecodeUtf8(data).value + [] == DecodeUtf8(data).value;
    } else {
      var len := if cuts[0] < |data| then cuts[0] else |data|;
      var t := TrimPartialUtf8(data, len);
      TrimmedCutDecodes(data, len);
      AnyCutsDecode(data[t..], cuts[1..]);
      assert pieces[1..] == Pieces(data[t..], cuts[1..]);
    }
  }

  // For well-formed UTF-16 both sides of the trimmed cut are well-formed, and a unit is dropped only
  // where the cut itself splits a pair.
  lemma TrimUtf16(text: seq<CodeUnit>, len: nat)
    requires len <= |text| && WellFormed(text)
    ensures var t := TrimPartialUtf16(text, len);
            && WellFormed(text[..t]) && WellFormed(text[t..])
            && (t < len <==> !WellFormed(text[..len]))
  {
    hide WellFormed;
    var t := TrimPartialUtf16(text, len);
    WellFormedIsPaired(text);
    WellFormedIsPaired(text[..t]);
    WellFormedIsPaired(text[t..]);
    WellFormedIsPaired(text[..len]);
    forall i: nat | i < t
      ensures !Unpaired(text[..t], i)
    {
      assert !Unpaired(text, i);
    }
    forall i: nat | i < |text| - t
      ensures !Unpaired(text[t..], i)
    {
      assert !Unpaired(text, t + i);
    }
    if t < len {
      assert Unpaired(text[..len], t);
    }
  }
}
