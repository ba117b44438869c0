/**
  * The Node.js base64 codec kept for comparison in benchmarks/base64/node_base64.h: a decoder that
  * mixes a four-symbol fast path with a garbage-skipping slow path under two capacity limits, and
  * an encoder.
  */
module NodeBase64 {
  import opened Base64

  // unbase64_table by its rule: both alphabets are accepted, the rest is negative as an int8_t.
  function Unbase64(c: byte): (v: byte)
    ensures v < 64 || v >= 0x80
    ensures c == PAD ==> v >= 0x80
  {
    if 65 <= c <= 90 then c - 65
    else if 97 <= c <= 122 then c - 71
    else if 48 <= c <= 57 then c + 4
    else if c == 43 || c == 45 then 62
    else if c == 47 || c == 95 then 63
    else if c == 10 || c == 13 || c == 32 then 0xfe
    else 0xff
  }

  // A character has a value exactly if one of the two alphabets gives it that value.
  lemma ValueOfCharacter(c: byte, v: Sextet)
    ensures Unbase64(c) == v <==> Spells(c, v, Standard) || Spells(c, v, UrlSafe)
  {
    hide Spells;
    SpellsIsLetter(c, v, Standard);
    SpellsIsLetter(c, v, UrlSafe);
    ValueOfLetter(c, v);
  }

  lemma ValueOfLetter(c: byte, v: Sextet)
    ensures Unbase64(c) == v <==> c == Letter(v, Standard) || c == Letter(v, UrlSafe)
  {
  }

  function LettersRead(): string { Characters(Standard) + Characters(UrlSafe) }

  // All others are garbage, line breaks and blanks among them.
  lemma SymbolCharacters(c: byte)
    ensures Unbase64(c) < 64 <==> c as char in LettersRead()
    ensures c == PAD <==> c as char == '='
  {
    hide Unbase64, Characters, Spells;
    InAlphabet(c, Standard);
    InAlphabet(c, UrlSafe);
    if Unbase64(c) < 64 {
      ValueOfCharacter(c, Unbase64(c));
    } else if c as char in LettersRead() {
      var alphabet := if c as char in Characters(Standard) then Standard else UrlSafe;
      var v: Sextet :| Spells(c, v, alphabet);
      ValueOfCharacter(c, v);
    }
  }

  // ----- What is to be decoded: the alphabet symbols before the first '=' -----

  function FirstPad(src: seq<byte>): (e: nat)
    ensures e <= |src|
    ensures forall j :: 0 <= j < e ==> src[j] != PAD
    ensures e < |src| ==> src[e] == PAD
  {
    if src == [] || src[0] == PAD then 0 else 1 + FirstPad(src[1..])
  }

  ghost function Content(src: seq<byte>): seq<Sextet>
  {
    Symbols(src[..FirstPad(src)], Unbase64)
  }

  // The first i characters hold no padding, and their whole bytes are the first k bytes of dst.
  ghost predicate Decoded(dst: array<byte>, src: seq<byte>, i: nat, k: nat)
    reads dst
  {
    && i <= FirstPad(src)
    && k <= dst.Length
    && dst[..k] == Decode(Symbols(src[..i], Unbase64))
  }

  // Nothing more can be decoded, or nothing more fits.
  ghost predicate Finished(dst: array<byte>, src: seq<byte>, k: nat)
    reads dst
  {
    var whole := Decode(Content(src));
    && k == (if dst.Length < |whole| then dst.Length else |whole|)
    && dst[..k] == whole[..k]
  }

  lemma ContentSplit(src: seq<byte>, i: nat)
    requires i <= FirstPad(src)
    ensures Symbols(src[..i], Unbase64) <= Content(src)
    ensures Decode(Symbols(src[..i], Unbase64)) <= Decode(Content(src))
    ensures |Content(src)| <= FirstPad(src)
  {
    var text := src[..FirstPad(src)];
    assert text[..i] == src[..i];
    SymbolsSplit(text, i, Unbase64);
    var seen := Symbols(src[..i], Unbase64);
    assert Content(src)[..|seen|] == seen;
    DecodePrefix(Content(src), |seen|);
  }

  lemma Stop(dst: array<byte>, src: seq<byte>, i: nat, k: nat)
    requires Decoded(dst, src, i, k)
    requires i == |src| || k == dst.Length || Content(src) == Symbols(src[..i], Unbase64)
    ensures Finished(dst, src, k)
  {
    ContentSplit(src, i);
    assert i == |src| ==> src[..FirstPad(src)] == src[..i];
  }

  // ----- Slow path -----

  // The loop of macro V: scan to the next alphabet character.
  method NextSymbol(src: seq<byte>, start: nat) returns (found: bool, lo: byte, i: nat)
    requires start < |src| && start <= FirstPad(src)
    ensures start < i <= |src|
    ensures found ==> lo < 64 && i <= FirstPad(src)
    ensures found ==> Symbols(src[..i], Unbase64) == Symbols(src[..start], Unbase64) + [lo]
    ensures !found ==> Content(src) == Symbols(src[..start], Unbase64)
  {
    i := start;
    while true
      invariant start <= i < |src| && i <= FirstPad(src)
      invariant Symbols(src[..i], Unbase64) == Symbols(src[..start], Unbase64)
      decreases |src| - i
    {
      var c := src[i];
      lo := Unbase64(c);
      SymbolsSnoc(src, i, Unbase64);
      i := i + 1;
      if lo < 64 {
        return true, lo, i;
      }
      if c == PAD || i >= |src| {
        assert FirstPad(src) == if c == PAD then i - 1 else i;
        return false, lo, i;
      }
    }
  }

  // The byte of the slow path at each place of a group.
  function Combine(place: nat, hi: byte, lo: byte): byte
  {
    if place == 0 then ((hi & 0x3f) << 2) | ((lo & 0x30) >> 4)
    else if place == 1 then ((hi & 0x0f) << 4) | ((lo & 0x3c) >> 2)
    else ((hi & 0x03) << 6) | (lo & 0x3f)
  }

  lemma CombineIsJoin(place: nat, hi: Sextet, lo: Sextet)
    requires place < 3
    ensures Combine(place, hi, lo) == Join(place, hi, lo)
  {
  }

  // Between two symbols: n of them were seen so far, the last one is hi, and there is room and text
  // for more.
  ghost predicate Ready(dst: array<byte>, src: seq<byte>, i: nat, k: nat, n: nat, hi: byte)
    reads dst
  {
    && i < |src| && k < dst.Length
    && Decoded(dst, src, i, k)
    && |Symbols(src[..i], Unbase64)| == n
    && (n % 4 != 0 ==> hi == Symbols(src[..i], Unbase64)[n - 1])
  }

  // One use of macro V: scan to the next symbol, write the byte it completes unless it is the
  // first of its group, then test both limits.
  method NextByte(dst: array<byte>, src: seq<byte>, i0: nat, k0: nat, place: nat, hi: byte, ghost n: nat)
    returns (more: bool, lo: byte, i: nat, k: nat)
    requires Ready(dst, src, i0, k0, n, hi) && place == n % 4
    modifies dst
    ensures k0 <= k <= dst.Length && forall j :: k <= j < dst.Length ==> dst[j] == old(dst[j])
    ensures !more ==> Finished(dst, src, k)
    ensures more ==> i0 < i && Ready(dst, src, i, k, n + 1, lo)
    ensures more ==> k == k0 + if place == 0 then 0 else 1
  {
    hide Unbase64, Symbols, Combine, Join, Content;
    more, k := false, k0;
    var found;
    found, lo, i := NextSymbol(src, i0);
    if !found {
      Stop(dst, src, i0, k);
      return;
    }
    DecodeSnoc(Symbols(src[..i0], Unbase64), lo);
    if place != 0 {
      CombineIsJoin(place - 1, hi, lo);
      dst[k] := Combine(place - 1, hi, lo);
      k := k + 1;
      assert dst[..k] == old(dst[..k0]) + [dst[k0]];
    }
    if i >= |src| || k >= dst.Length {
      Stop(dst, src, i, k);
      return;
    }
    more := true;
  }

  lemma Places(n: nat)
    requires n % 4 == 0
    ensures (n + 1) % 4 == 1 && (n + 2) % 4 == 2 && (n + 3) % 4 == 3 && (n + 4) % 4 == 0
  {
  }

  // A group starts without a previous symbol.
  lemma NewGroup(dst: array<byte>, src: seq<byte>, i: nat, k: nat, n: nat, hi: byte)
    requires Ready(dst, src, i, k, n, hi) && n % 4 == 0
    ensures Ready(dst, src, i, k, n, 0)
  {
  }

  method DecodeGroupSlow(dst: array<byte>, src: seq<byte>, i0: nat, k0: nat, ghost n: nat)
    returns (more: bool, i: nat, k: nat)
    requires Ready(dst, src, i0, k0, n, 0) && n % 4 == 0
    modifies dst
    ensures k0 <= k <= dst.Length && forall j :: k <= j < dst.Length ==> dst[j] == old(dst[j])
    ensures !more ==> Finished(dst, src, k)
    ensures more ==> i0 + 4 <= i && k == k0 + 3 && Ready(dst, src, i, k, n + 4, 0)
  {
    hide Decode, Symbols, Content, Finished, Ready;
    Places(n);
    var c;
    more, c, i, k := NextByte(dst, src, i0, k0, 0, 0, n);
    if more {
      more, c, i, k := NextByte(dst, src, i, k, 1, c, n + 1);
    }
    if more {
      more, c, i, k := NextByte(dst, src, i, k, 2, c, n + 2);
    }
    if more {
      more, c, i, k := NextByte(dst, src, i, k, 3, c, n + 3);
    }
    if more {
      NewGroup(dst, src, i, k, n + 4, c);
    }
  }

  // ----- Fast path -----

  function ReadUint32BE(a: byte, b: byte, c: byte, d: byte): bv32
  {
    ((a as bv32) << 24) | ((b as bv32) << 16) | ((c as bv32) << 8) | (d as bv32)
  }

  // One test of the four top bits recognises four alphabet symbols, and the masked shifts of the
  // word are the three bytes they spell.
  lemma {:induction false} FastGroup(a: byte, b: byte, c: byte, d: byte)
    ensures (ReadUint32BE(a, b, c, d) & 0x80808080 == 0) <==> a < 0x80 && b < 0x80 && c < 0x80 && d < 0x80
    ensures a < 64 && b < 64 && c < 64 && d < 64 ==>
              var v := ReadUint32BE(a, b, c, d);
              && (((v >> 22) & 0xfc) | ((v >> 20) & 0x03)) as byte == First(a, b)
              && (((v >> 12) & 0xf0) | ((v >> 10) & 0x0f)) as byte == Second(b, c)
              && (((v >> 2) & 0xc0) | (v & 0x3f)) as byte == Third(c, d)
  {
  }

  lemma OneMore(src: seq<byte>, i: nat, v: byte)
    requires i <= FirstPad(src) && i < |src| && v == Unbase64(src[i]) < 64
    ensures i + 1 <= FirstPad(src)
    ensures Symbols(src[..i + 1], Unbase64) == Symbols(src[..i], Unbase64) + [v]
  {
    SymbolsSnoc(src, i, Unbase64);
  }

  // Four alphabet characters in a row add three bytes.
  lemma FourMore(src: seq<byte>, i: nat, a: byte, b: byte, c: byte, d: byte)
    requires i <= FirstPad(src) && |Symbols(src[..i], Unbase64)| % 4 == 0
    requires i + 4 <= |src|
    requires a == Unbase64(src[i]) && b == Unbase64(src[i + 1]) && c == Unbase64(src[i + 2])
    requires d == Unbase64(src[i + 3])
    requires a < 64 && b < 64 && c < 64 && d < 64
    ensures i + 4 <= FirstPad(src)
    ensures |Symbols(src[..i + 4], Unbase64)| == |Symbols(src[..i], Unbase64)| + 4
    ensures Decode(Symbols(src[..i + 4], Unbase64))
         == Decode(Symbols(src[..i], Unbase64)) + [First(a, b), Second(b, c), Third(c, d)]
  {
    OneMore(src, i, a);
    OneMore(src, i + 1, b);
    OneMore(src, i + 2, c);
    OneMore(src, i + 3, d);
    var s := Symbols(src[..i], Unbase64);
    assert Symbols(src[..i + 4], Unbase64) == s + [a, b, c, d];
    DecodeConcat(s, [a, b, c, d]);
    DecodeGroup(a, b, c, d);
  }

  // Write the three bytes of four symbols found in one word.
  method StoreGroup(dst: array<byte>, k: nat, v: bv32, ghost src: seq<byte>, ghost i: nat,
                    ghost a: byte, ghost b: byte, ghost c: byte, ghost d: byte)
    requires Decoded(dst, src, i, k) && k + 3 <= dst.Length && |Symbols(src[..i], Unbase64)| % 4 == 0
    requires i + 4 <= |src|
    requires a == Unbase64(src[i]) && b == Unbase64(src[i + 1]) && c == Unbase64(src[i + 2])
    requires d == Unbase64(src[i + 3])
    requires v == ReadUint32BE(a, b, c, d) && v & 0x80808080 == 0
    modifies dst
    ensures Decoded(dst, src, i + 4, k + 3)
    ensures |Symbols(src[..i + 4], Unbase64)| == |Symbols(src[..i], Unbase64)| + 4
    ensures forall j :: k + 3 <= j < dst.Length ==> dst[j] == old(dst[j])
  {
    hide Symbols, Decode, Unbase64, ReadUint32BE, First, Second, Third, FirstPad;
    FastGroup(a, b, c, d);
    assert a < 64 && b < 64 && c < 64 && d < 64;
    FourMore(src, i, a, b, c, d);
    StoreThree(dst, k, (((v >> 22) & 0xfc) | ((v >> 20) & 0x03)) as byte,
               (((v >> 12) & 0xf0) | ((v >> 10) & 0x0f)) as byte, (((v >> 2) & 0xc0) | (v & 0x3f)) as byte);
  }

  method StoreThree(dst: array<byte>, k: nat, x: byte, y: byte, z: byte)
    requires k + 3 <= dst.Length
    modifies dst
    ensures dst[..k + 3] == old(dst[..k]) + [x, y, z]
    ensures forall j :: k + 3 <= j < dst.Length ==> dst[j] == old(dst[j])
  {
    dst[k] := x;
    dst[k + 1] := y;
    dst[k + 2] := z;
  }

  // Neither limit that ends the fast loop leaves room for one more whole group.
  lemma NoGroupLeft(dst: array<byte>, src: seq<byte>, i: nat, k: nat, decodedSize: nat)
    requires Decoded(dst, src, i, k) && |Decode(Content(src))| <= decodedSize
    ensures k <= decodedSize
  {
    ContentSplit(src, i);
  }

  // One turn of the fast loop: four characters at once, or a slow group.
  method DecodeGroup4(dst: array<byte>, src: seq<byte>, i0: nat, k0: nat, ghost n: nat)
    returns (slow: bool, more: bool, i: nat, k: nat)
    requires Ready(dst, src, i0, k0, n, 0) && n % 4 == 0
    requires i0 + 4 <= |src| && k0 + 3 <= dst.Length
    modifies dst
    ensures k0 <= k <= dst.Length && forall j :: k <= j < dst.Length ==> dst[j] == old(dst[j])
    ensures !more ==> Finished(dst, src, k)
    ensures more ==> i0 + 4 <= i <= |src| && k == k0 + 3 && (!slow ==> i == i0 + 4)
    ensures more ==> Decoded(dst, src, i, k) && |Symbols(src[..i], Unbase64)| == n + 4
  {
    hide Decode, Symbols, Content, Finished, FirstPad, Unbase64, ReadUint32BE, Decoded;
    var a, b, c, d := Unbase64(src[i0]), Unbase64(src[i0 + 1]), Unbase64(src[i0 + 2]), Unbase64(src[i0 + 3]);
    var v := ReadUint32BE(a, b, c, d);
    // If a top bit is set, the input holds whitespace or is not valid base64.
    slow := v & 0x80808080 != 0;
    if slow {
      more, i, k := DecodeGroupSlow(dst, src, i0, k0, n);
    } else {
      StoreGroup(dst, k0, v, src, i0, a, b, c, d);
      more, i, k := true, i0 + 4, k0 + 3;
    }
  }

  lemma Start(dst: array<byte>, src: seq<byte>)
    ensures Decoded(dst, src, 0, 0) && |Symbols(src[..0], Unbase64)| == 0
  {
  }

  // Sizes rounded down to whole groups.
  function WholeTriples(n: nat): (t: nat)
    ensures t <= n < t + 3 && t % 3 == 0
  {
    n / 3 * 3
  }

  function WholeQuads(n: nat): (q: nat)
    ensures q <= n < q + 4 && q % 4 == 0
  {
    n / 4 * 4
  }

  // The bounds of the fast loop are whole groups away.
  predicate Aligned(i: nat, maxI: nat, k: nat, maxK: nat, n: nat)
  {
    i <= maxI && (maxI - i) % 4 == 0 && k <= maxK && (maxK - k) % 3 == 0 && n % 4 == 0
  }

  lemma NextAligned(i: nat, maxI: nat, k: nat, maxK: nat, n: nat)
    requires Aligned(i, maxI, k, maxK, n)
    ensures n % 4 == 0 && i <= maxI && k <= maxK
    ensures i < maxI && k < maxK ==>
              i + 4 <= maxI && k + 3 <= maxK && Aligned(i + 4, maxI, k + 3, maxK, n + 4)
  {
  }

  lemma StartAligned(maxI: nat, maxK: nat)
    requires maxI % 4 == 0 && maxK % 3 == 0
    ensures Aligned(0, maxI, 0, maxK, 0)
  {
  }

  lemma Realigned(i: nat, size: nat, i0: nat, maxI: nat, k: nat, maxK: nat, n: nat)
    requires Aligned(i0, maxI, k, maxK, n) && i <= size
    ensures Aligned(i, i + WholeQuads(size - i), k, maxK, n)
  {
  }

  method DecodeFast(dst: array<byte>, src: seq<byte>, decodedSize: nat) returns (k: nat)
    requires |Decode(Content(src))| <= decodedSize
    modifies dst
    ensures k <= dst.Length && Finished(dst, src, k)
    ensures forall j :: k <= j < dst.Length ==> dst[j] == old(dst[j])
  {
    hide Decode, Content, Finished, FirstPad, Unbase64, Decoded, Symbols, WholeTriples, WholeQuads, Aligned;
    Start(dst, src);
    var available := if dst.Length < decodedSize then dst.Length else decodedSize;
    var maxK := WholeTriples(available);
    var maxI := WholeQuads(|src|);
    var i := 0;
    k := 0;
    ghost var n := 0;
    StartAligned(maxI, maxK);
    while i < maxI && k < maxK
      invariant i <= maxI <= |src| < maxI + 4 && k <= maxK && Aligned(i, maxI, k, maxK, n)
      invariant Decoded(dst, src, i, k) && |Symbols(src[..i], Unbase64)| == n
      invariant forall j :: k <= j < dst.Length ==> dst[j] == old(dst[j])
      decreases |src| - i
    {
      NextAligned(i, maxI, k, maxK, n);
      ghost var i0 := i;
      var slow, more;
      slow, more, i, k := DecodeGroup4(dst, src, i, k, n);
      if !more {
        return;
      }
      n := n + 4;
      if slow {
        Realigned(i, |src|, i0 + 4, maxI, k, maxK, n);
        maxI := i + WholeQuads(|src| - i);
      }
    }
    NextAligned(i, maxI, k, maxK, n);
    if i < |src| && k < dst.Length {
      var more;
      more, i, k := DecodeGroupSlow(dst, src, i, k, n);
      if more {
        NoGroupLeft(dst, src, i, k, decodedSize);
        assert false;
      }
    } else {
      Stop(dst, src, i, k);
    }
  }

  // ----- Sizes -----

  function DecodedSizeFast(size: nat): nat
  {
    if size > 1 then size / 4 * 3 + (size % 4 + 1) / 2 else 0
  }

  function DecodedSize(src: seq<byte>): nat
  {
    if |src| < 2 then 0
    else if src[|src| - 1] != PAD then DecodedSizeFast(|src|)
    else if src[|src| - 2] != PAD then DecodedSizeFast(|src| - 1)
    else DecodedSizeFast(|src| - 2)
  }

  // The size computed up front is never too small, whatever garbage the text holds.
  lemma {:induction false} DecodedSizeSuffices(src: seq<byte>)
    ensures |Decode(Content(src))| <= DecodedSize(src)
  {
    ContentSplit(src, FirstPad(src));
  }

  method Base64Decode(dst: array<byte>, src: seq<byte>) returns (k: nat)
    modifies dst
    ensures k == (if dst.Length < 3 * |Content(src)| / 4 then dst.Length else 3 * |Content(src)| / 4)
    ensures dst[..k] == Decode(Content(src))[..k]
    ensures forall j :: k <= j < dst.Length ==> dst[j] == old(dst[j])
  {
    DecodedSizeSuffices(src);
    k := DecodeFast(dst, src, DecodedSize(src));
  }

  // A text that spells the encoding of x in front of its first '=', among any characters that are
  // neither letters of an alphabet nor '='.
  predicate SpellsEncoding(text: seq<byte>, x: seq<byte>, mode: Alphabet)
  {
    Only(text[..FirstPad(text)], LettersRead() + "=") == Letters(Encode(x), mode)
  }

  lemma SpelledContent(text: seq<byte>, x: seq<byte>, mode: Alphabet)
    requires SpellsEncoding(text, x, mode)
    ensures Content(text) == Encode(x) && Decode(Content(text)) == x
  {
    hide Unbase64, Letter, LettersRead, FirstPad, Encode, Decode;
    var head := text[..FirstPad(text)];
    forall i | 0 <= i < |head| && Unbase64(head[i]) < 64 ensures head[i] as char in LettersRead() + "=" {
      SymbolCharacters(head[i]);
    }
    OnlyKeepsSymbols(head, LettersRead() + "=", Unbase64);
    forall i | 0 <= i < |Encode(x)| ensures Unbase64(Letters(Encode(x), mode)[i]) == Encode(x)[i] {
      ReadsBackLetters(Encode(x)[i], mode);
    }
    SymbolsOfLetters(Encode(x), mode, Unbase64);
    RoundTrip(x);
  }

  // Garbage may stand anywhere between the letters.
  lemma GarbageBetweenLetters(head: seq<byte>, garbage: seq<byte>, tail: seq<byte>, x: seq<byte>, mode: Alphabet)
    requires SpellsEncoding(head + tail, x, mode) && PAD !in head
    requires forall c :: c in garbage ==> c as char !in LettersRead() && c as char != '='
    ensures SpellsEncoding(head + garbage + tail, x, mode)
  {
    hide LettersRead, FirstPad, Only, Letters, Encode;
    var chars := LettersRead() + "=";
    forall i | 0 <= i < |garbage| ensures garbage[i] != PAD && garbage[i] as char !in chars {
      assert garbage[i] in garbage;
      SymbolCharacters(garbage[i]);
    }
    var e := FirstPad(tail);
    PadOf(head, tail);
    PadOf(head + garbage, tail);
    assert (head + tail)[..|head| + e] == head + tail[..e];
    assert (head + garbage + tail)[..|head + garbage| + e] == head + garbage + tail[..e];
    OnlyConcat(head, tail[..e], chars);
    OnlyConcat(head + garbage, tail[..e], chars);
    OnlyConcat(head, garbage, chars);
    OnlyNone(garbage, chars);
  }

  // So the decoder gives the data back if there is room for it.
  method DecodeSpelled(dst: array<byte>, text: seq<byte>, ghost x: seq<byte>, ghost mode: Alphabet) returns (k: nat)
    requires SpellsEncoding(text, x, mode) && |x| <= dst.Length
    modifies dst
    ensures k == |x| && dst[..k] == x
    ensures forall j :: k <= j < dst.Length ==> dst[j] == old(dst[j])
  {
    hide Decode, Encode, SpellsEncoding, Content;
    SpelledContent(text, x, mode);
    assert |Decode(Encode(x))| == |x|;
    k := Base64Decode(dst, text);
  }

  // Characters outside the alphabet can be inserted or removed anywhere before the padding.
  lemma GarbageIsIgnored(a: seq<byte>, garbage: seq<byte>, b: seq<byte>)
    requires forall c :: c in garbage ==> Unbase64(c) >= 64 && c != PAD
    requires PAD !in a
    ensures Content(a + garbage + b) == Content(a + b)
  {
    hide Symbols, Unbase64, FirstPad;
    var e := FirstPad(b);
    PadOf(a + garbage, b);
    PadOf(a, b);
    assert (a + garbage + b)[..|a + garbage| + e] == (a + garbage) + b[..e];
    assert (a + b)[..|a| + e] == a + b[..e];
    NoSymbols(garbage);
    SymbolsConcat(a, garbage, Unbase64);
    SymbolsConcat(a + garbage, b[..e], Unbase64);
    SymbolsConcat(a, b[..e], Unbase64);
  }

  lemma PadOf(a: seq<byte>, b: seq<byte>)
    requires PAD !in a
    ensures FirstPad(a + b) == |a| + FirstPad(b)
  {
    forall j | 0 <= j < |a| ensures (a + b)[j] != PAD {
      assert a[j] in a;
    }
    assert forall j :: 0 <= j < |b| ==> (a + b)[|a| + j] == b[j];
  }

  lemma {:induction false} NoSymbols(text: seq<byte>)
    requires forall c :: c in text ==> Unbase64(c) >= 64
    ensures Symbols(text, Unbase64) == []
  {
    if text != [] {
      assert text[|text| - 1] in text;
      NoSymbols(text[..|text| - 1]);
    }
  }

  // ----- Encoder -----

  function EncodedSize(size: nat, mode: Alphabet): nat
  {
    if mode.Standard? then (size + 2) / 3 * 4 else (size * 4 + 2) / 3
  }

  // In the standard mode the size counts padding that the encoder never writes.
  lemma EncodedSizeOf(size: nat, mode: Alphabet)
    ensures EncodedSize(size, mode)
         == (4 * size + 2) / 3 + if mode.Standard? && size % 3 != 0 then 3 - size % 3 else 0
  {
    var q, r := size / 3, size % 3;
    assert size == 3 * q + r;
    if r == 0 {
      assert (size + 2) / 3 == q && (4 * size + 2) / 3 == 4 * q;
    } else if r == 1 {
      assert (size + 2) / 3 == q + 1 && (4 * size + 2) / 3 == 4 * q + 2;
    } else {
      assert (size + 2) / 3 == q + 1 && (4 * size + 2) / 3 == 4 * q + 3;
    }
  }

  // The indices looked up for a group of three bytes, or of one or two in the final switch.
  function GroupSymbols(group: seq<byte>): seq<Sextet>
    requires 1 <= |group| <= 3
  {
    if |group| == 1 then [Symbol0(group[0]), Symbol1(group[0], 0)]
    else if |group| == 2 then [Symbol0(group[0]), Symbol1(group[0], group[1]), Symbol2(group[1], 0)]
    else [Symbol0(group[0]), Symbol1(group[0], group[1]), Symbol2(group[1], group[2]), Symbol3(group[2])]
  }

  lemma GroupSymbolsAreEncode(group: seq<byte>)
    requires 1 <= |group| <= 3
    ensures GroupSymbols(group) == Encode(group)
  {
    hide Encode, Symbol0, Symbol1, Symbol2, Symbol3;
    if |group| == 1 {
      EncodeOne(group[0]);
      assert group == [group[0]];
    } else if |group| == 2 {
      EncodePair(group[0], group[1]);
      assert group == [group[0], group[1]];
    } else {
      EncodeGroup(group[0], group[1], group[2]);
      assert group == [group[0], group[1], group[2]];
    }
  }

  // The encoding of the first i bytes is in place.
  ghost predicate Encoded(dst: array<byte>, src: seq<byte>, i: nat, k: nat, mode: Alphabet)
    reads dst
  {
    && i <= |src| && k == |Encode(src[..i])| <= dst.Length
    && dst[..k] == Letters(Encode(src[..i]), mode)
  }

  lemma EncodedLimits(dst: array<byte>, src: seq<byte>, i: nat, n: nat, mode: Alphabet)
    ensures Encoded(dst, src, 0, 0, mode)
    ensures i % 3 == 0 && i + n <= |src| && 1 <= n <= 3 ==>
              |Encode(src[..i])| + n + 1 == |Encode(src[..i + n])| <= |Encode(src)|
  {
    if i % 3 == 0 && i + n <= |src| && 1 <= n <= 3 {
      hide Encode;
      SizeOfGroups(i / 3, n);
      assert i == 3 * (i / 3);
      SizeGrows(i + n, |src|);
    }
  }

  lemma SizeOfGroups(q: nat, n: nat)
    requires 1 <= n <= 3
    ensures (4 * (3 * q) + 2) / 3 + n + 1 == (4 * (3 * q + n) + 2) / 3
  {
  }

  lemma SizeGrows(a: nat, b: nat)
    requires a <= b
    ensures (4 * a + 2) / 3 <= (4 * b + 2) / 3
  {
  }

  // Look up and store the symbols of the next n bytes.
  method EncodeGroupAt(src: seq<byte>, dst: array<byte>, i: nat, k: nat, n: nat, mode: Alphabet)
    requires Encoded(dst, src, i, k, mode) && 1 <= n <= 3 && i + n <= |src| && i % 3 == 0
    requires |Encode(src)| <= dst.Length
    modifies dst
    ensures Encoded(dst, src, i + n, k + n + 1, mode) && k + n + 1 <= |Encode(src)|
    ensures forall j :: k + n + 1 <= j < dst.Length ==> dst[j] == old(dst[j])
  {
    hide Encode, GroupSymbols;
    EncodedLimits(dst, src, i, n, mode);
    var symbols := GroupSymbols(src[i..i + n]);
    GroupSymbolsAreEncode(src[i..i + n]);
    assert src[..i + n] == src[..i] + src[i..i + n];
    EncodeConcat(src[..i], src[i..i + n]);
    LettersConcat(Encode(src[..i]), symbols, mode);
    for j := 0 to |symbols|
      invariant dst[..k] == old(dst[..k])
      invariant forall m :: 0 <= m < j ==> dst[k + m] == Letter(symbols[m], mode)
      invariant forall m :: k + j <= m < dst.Length ==> dst[m] == old(dst[m])
    {
      dst[k + j] := Letter(symbols[j], mode);
    }
    assert dst[..k + |symbols|] == dst[..k] + Letters(symbols, mode);
  }

  method Base64Encode(src: seq<byte>, dst: array<byte>, mode: Alphabet) returns (dlen: nat)
    requires |Encode(src)| <= dst.Length
    modifies dst
    ensures dst[..|Encode(src)|] == Letters(Encode(src), mode)
    ensures forall j :: |Encode(src)| <= j < dst.Length ==> dst[j] == old(dst[j])
    ensures dlen == |Encode(src)| + if mode.Standard? && |src| % 3 != 0 then 3 - |src| % 3 else 0
  {
    hide Letters, Encode, EncodedSize, WholeTriples, Encoded;
    dlen := EncodedSize(|src|, mode);
    EncodedSizeOf(|src|, mode);
    EncodeAll(src, dst, mode);
  }

  // The loop over whole groups and the final switch.
  method EncodeAll(src: seq<byte>, dst: array<byte>, mode: Alphabet)
    requires |Encode(src)| <= dst.Length
    modifies dst
    ensures dst[..|Encode(src)|] == Letters(Encode(src), mode)
    ensures forall j :: |Encode(src)| <= j < dst.Length ==> dst[j] == old(dst[j])
  {
    hide Letters, Encode, WholeTriples, Encoded;
    var i, k, n: nat := 0, 0, WholeTriples(|src|);
    EncodedLimits(dst, src, 0, 0, mode);
    while i < n
      invariant i <= n && i % 3 == 0 && Encoded(dst, src, i, k, mode)
      invariant forall j :: |Encode(src)| <= j < dst.Length ==> dst[j] == old(dst[j])
    {
      NextTriple(i, n);
      EncodeGroupAt(src, dst, i, k, 3, mode);
      i := i + 3;
      k := k + 4;
    }
    if n < |src| {
      EncodeGroupAt(src, dst, i, k, |src| - n, mode);
      k := k + (|src| - n) + 1;
    }
    AllEncoded(dst, src, k, mode);
  }

  lemma NextTriple(i: nat, n: nat)
    requires i % 3 == 0 && n % 3 == 0 && i < n
    ensures i + 3 <= n && (i + 3) % 3 == 0
  {
  }

  lemma AllEncoded(dst: array<byte>, src: seq<byte>, k: nat, mode: Alphabet)
    requires Encoded(dst, src, |src|, k, mode)
    ensures k == |Encode(src)| && dst[..k] == Letters(Encode(src), mode)
  {
    assert src[..|src|] == src;
  }

  lemma ReadsBackLetters(v: Sextet, mode: Alphabet)
    ensures Unbase64(Letter(v, mode)) == v && Letter(v, mode) != PAD
  {
  }

  lemma ContentOfLetters(s: seq<Sextet>, mode: Alphabet)
    ensures PAD !in Letters(s, mode)
    ensures Content(Letters(s, mode)) == s
  {
    var text := Letters(s, mode);
    forall i | 0 <= i < |text| ensures Unbase64(text[i]) == s[i] && text[i] != PAD {
      ReadsBackLetters(s[i], mode);
    }
    SymbolsOfLetters(s, mode, Unbase64);
    assert text[..FirstPad(text)] == text;
  }

  // Decoding what the encoder wrote gives the original bytes, into a buffer of exactly the size
  // announced by base64_decoded_size.
  lemma EncodeThenDecode(x: seq<byte>, mode: Alphabet)
    ensures var text := Letters(Encode(x), mode);
            && Decode(Content(text)) == x
            && DecodedSize(text) == |x|
  {
    hide Decode, Encode, Content, Letters;
    ContentOfLetters(Encode(x), mode);
    RoundTrip(x);
  }
}
