/**
  * The meaning of base64 at the level of bits (sections 4 and 5 of RFC 4648).
  *
  * A symbol stands for six bits, a byte for eight, most significant first.  The closed forms
  * `Decode` and `Encode` say how each output unit is built from the input units next to it;
  * `DecodeBits` and `EncodeBits` tie them to the plain concatenation of bits, and every decoder
  * and encoder of this project is proved against them.
  */
module Base64 {

  type byte = bv8

  // The value of one base64 symbol: six bits.
  type Sextet = x: byte | x < 64

  const PAD: byte := 61  // '='

  // Maps a character to the value of its symbol, or to 64 or more if it is not in the alphabet.
  type Table = byte -> byte

  datatype Alphabet = Standard | UrlSafe

  // ----- Bits -----

  // The mask of bit k of a byte, counted from the most significant one.
  function BitMask(k: nat): byte
    requires k < 8
  {
    if k == 0 then 0x80 else if k == 1 then 0x40 else if k == 2 then 0x20 else if k == 3 then 0x10
    else if k == 4 then 0x08 else if k == 5 then 0x04 else if k == 6 then 0x02 else 0x01
  }

  predicate ByteBit(b: byte, k: nat)
    requires k < 8
  {
    b & BitMask(k) != 0
  }

  // Bit t of the concatenation of all the bytes.
  predicate BitOfBytes(d: seq<byte>, t: nat)
    requires t < 8 * |d|
  {
    ByteBit(d[t / 8], t % 8)
  }

  // Bit t of the concatenation of all the symbols: the two top bits of a sextet are not part of it.
  predicate BitOfSymbols(s: seq<Sextet>, t: nat)
    requires t < 6 * |s|
  {
    ByteBit(s[t / 6], 2 + t % 6)
  }

  lemma ByteIsItsBits(x: byte, y: byte)
    requires forall k: nat | k < 8 :: ByteBit(x, k) == ByteBit(y, k)
    ensures x == y
  {
    assert ByteBit(x, 0) == ByteBit(y, 0) && ByteBit(x, 1) == ByteBit(y, 1);
    assert ByteBit(x, 2) == ByteBit(y, 2) && ByteBit(x, 3) == ByteBit(y, 3);
    assert ByteBit(x, 4) == ByteBit(y, 4) && ByteBit(x, 5) == ByteBit(y, 5);
    assert ByteBit(x, 6) == ByteBit(y, 6) && ByteBit(x, 7) == ByteBit(y, 7);
  }

  // ----- Decoding -----

  function First(x: byte, y: byte): byte { (x << 2) | (y >> 4) }
  function Second(x: byte, y: byte): byte { (x << 4) | (y >> 2) }
  function Third(x: byte, y: byte): byte { (x << 6) | y }

  // A byte is made from two neighbouring symbols; which of their bits depends on its place in
  // its group of three.
  function Join(place: nat, x: byte, y: byte): byte
  {
    if place == 0 then First(x, y) else if place == 1 then Second(x, y) else Third(x, y)
  }

  // The whole bytes spelled by a symbol string; left-over bits are dropped.
  function Decode(s: seq<Sextet>): (d: seq<byte>)
    ensures |d| == 3 * |s| / 4
  {
    seq(3 * |s| / 4, j requires 0 <= j < 3 * |s| / 4 => Join(j % 3, s[j + j / 3], s[j + j / 3 + 1]))
  }

  // The number of bits of a byte that come from the first of its two symbols.
  function FirstBits(place: nat): nat { if place == 0 then 6 else if place == 1 then 4 else 2 }

  lemma JoinBits(place: nat, x: Sextet, y: Sextet, k: nat)
    requires place < 3 && k < 8
    ensures var n := FirstBits(place);
            ByteBit(Join(place, x, y), k) == if k < n then ByteBit(x, 8 - n + k) else ByteBit(y, 2 + k - n)
  {
    hide First, Second, Third, ByteBit;
    EachBit(x, y, k);
  }

  lemma EachBit(x: Sextet, y: Sextet, k: nat)
    requires k < 8
    ensures ByteBit(First(x, y), k) == if k < 6 then ByteBit(x, 2 + k) else ByteBit(y, k - 4)
    ensures ByteBit(Second(x, y), k) == if k < 4 then ByteBit(x, 4 + k) else ByteBit(y, k - 2)
    ensures ByteBit(Third(x, y), k) == if k < 2 then ByteBit(x, 6 + k) else ByteBit(y, k)
  {
  }

  lemma DecodedByte(s: seq<Sextet>, j: nat)
    requires j < |Decode(s)|
    ensures j + j / 3 + 1 < |s| && Decode(s)[j] == Join(j % 3, s[j + j / 3], s[j + j / 3 + 1])
  {
    hide Join;
  }

  // Bit k of byte j among the bits of the symbols.
  lemma BitPlace(j: nat, k: nat)
    requires k < 8
    ensures var i, n := j + j / 3, FirstBits(j % 3);
            && (k < n ==> (8 * j + k) / 6 == i && (8 * j + k) % 6 == 6 - n + k)
            && (k >= n ==> (8 * j + k) / 6 == i + 1 && (8 * j + k) % 6 == k - n)
  {
    var q, r := j / 3, j % 3;
    assert j == 3 * q + r;
    assert j + q == 4 * q + r;
    if r == 0 {
      assert 8 * j + k == 6 * (4 * q) + k;
    } else if r == 1 {
      assert 8 * j + k == 6 * (4 * q + 1) + 2 + k;
    } else {
      assert 8 * j + k == 6 * (4 * q + 2) + 4 + k;
    }
  }

  // Decoding keeps the bit string, up to the last whole byte.
  lemma {:induction false} DecodeBits(s: seq<Sextet>, t: nat)
    requires t < 8 * |Decode(s)|
    ensures t < 6 * |s| && BitOfBytes(Decode(s), t) == BitOfSymbols(s, t)
  {
    hide Decode, Join, ByteBit, FirstBits;
    var j, k := t / 8, t % 8;
    DecodedByte(s, j);
    BitPlace(j, k);
    PlaceBits(j % 3);
    JoinBits(j % 3, s[j + j / 3], s[j + j / 3 + 1], k);
  }

  lemma PlaceBits(place: nat)
    ensures 2 <= FirstBits(place) <= 6
  {
  }

  // ... and it is the only byte string of that length which does.
  lemma DecodeIsUnique(s: seq<Sextet>, d: seq<byte>)
    requires |d| == 3 * |s| / 4
    requires forall t: nat | t < 8 * |d| :: BitOfBytes(d, t) == BitOfSymbols(s, t)
    ensures d == Decode(s)
  {
    forall j | 0 <= j < |d| ensures d[j] == Decode(s)[j] {
      forall k: nat | k < 8 ensures ByteBit(d[j], k) == ByteBit(Decode(s)[j], k) {
        var t := 8 * j + k;
        assert t / 8 == j && t % 8 == k;
        DecodeBits(s, t);
        assert BitOfBytes(d, t) == BitOfSymbols(s, t);
      }
      ByteIsItsBits(d[j], Decode(s)[j]);
    }
  }

  lemma DecodePrefix(s: seq<Sextet>, n: nat)
    requires n <= |s|
    ensures Decode(s[..n]) == Decode(s)[..3 * n / 4]
  {
  }

  lemma {:induction false} DecodeConcat(a: seq<Sextet>, b: seq<Sextet>)
    requires |a| % 4 == 0
    ensures Decode(a + b) == Decode(a) + Decode(b)
  {
    hide Join;
    var q := |a| / 4;
    assert |Decode(a)| == 3 * q;
    forall j | 0 <= j < |Decode(b)| ensures Decode(a + b)[3 * q + j] == Decode(b)[j] {
      assert (3 * q + j) / 3 == q + j / 3 && (3 * q + j) % 3 == j % 3;
    }
  }

  lemma DecodeGroup(a: Sextet, b: Sextet, c: Sextet, d: Sextet)
    ensures Decode([a, b, c, d]) == [First(a, b), Second(b, c), Third(c, d)]
  {
  }

  // What one more symbol adds.
  lemma DecodeSnoc(s: seq<Sextet>, x: Sextet)
    ensures Decode(s + [x])
         == Decode(s) + if |s| % 4 == 0 then [] else [Join(|s| % 4 - 1, s[|s| - 1], x)]
  {
    var n := |s|;
    if n % 4 != 0 {
      var j := 3 * n / 4;
      assert |Decode(s + [x])| == j + 1;
      assert j + j / 3 + 1 == n && j % 3 == n % 4 - 1;
    }
  }

  // ----- Encoding -----

  function ByteOrZero(b: seq<byte>, i: nat): byte { if i < |b| then b[i] else 0 }

  // The four symbols of a group of three bytes.
  function Symbol0(x: byte): Sextet { x >> 2 }
  function Symbol1(x: byte, y: byte): Sextet { ((x & 3) << 4) | (y >> 4) }
  function Symbol2(y: byte, z: byte): Sextet { ((y & 0x0f) << 2) | (z >> 6) }
  function Symbol3(z: byte): Sextet { z & 0x3f }

  // Symbol i of the encoding of b, the missing bytes of the last group read as zero.
  function SymbolAt(b: seq<byte>, i: nat): Sextet
  {
    var x := ByteOrZero(b, i / 4 * 3);
    var y := ByteOrZero(b, i / 4 * 3 + 1);
    var z := ByteOrZero(b, i / 4 * 3 + 2);
    if i % 4 == 0 then Symbol0(x) else if i % 4 == 1 then Symbol1(x, y)
    else if i % 4 == 2 then Symbol2(y, z) else Symbol3(z)
  }

  // The shortest symbol string that holds all the bits of b.
  function Encode(b: seq<byte>): (s: seq<Sextet>)
    ensures |s| == (4 * |b| + 2) / 3
  {
    seq((4 * |b| + 2) / 3, i requires 0 <= i < (4 * |b| + 2) / 3 => SymbolAt(b, i))
  }

  lemma SplitBits(x: byte, y: byte, k: nat)
    requires k < 6
    ensures ByteBit(Symbol0(x), 2 + k) == ByteBit(x, k)
    ensures ByteBit(Symbol1(x, y), 2 + k) == if k < 2 then ByteBit(x, 6 + k) else ByteBit(y, k - 2)
    ensures ByteBit(Symbol2(x, y), 2 + k) == if k < 4 then ByteBit(x, 4 + k) else ByteBit(y, k - 4)
    ensures ByteBit(Symbol3(y), 2 + k) == ByteBit(y, 2 + k)
  {
  }

  // Encoding keeps the bit string and fills the last symbol with zero bits.
  lemma {:induction false} EncodeBits(b: seq<byte>, t: nat)
    requires t < 6 * |Encode(b)|
    ensures BitOfSymbols(Encode(b), t) == (t < 8 * |b| && BitOfBytes(b, t))
  {
    hide Encode, Symbol0, Symbol1, Symbol2, Symbol3, ByteBit, ByteOrZero;
    var i, k := t / 6, t % 6;
    var p := i / 4 * 3;
    var x, y, z := ByteOrZero(b, p), ByteOrZero(b, p + 1), ByteOrZero(b, p + 2);
    EncodedSymbol(b, i);
    SplitBits(x, y, k);
    SplitBits(y, z, k);
    SymbolPlace(i, k);
    if i % 4 == 0 {
      BitOrZero(b, p, k);
    } else if i % 4 == 1 {
      BitOrZero(b, if k < 2 then p else p + 1, if k < 2 then 6 + k else k - 2);
    } else if i % 4 == 2 {
      BitOrZero(b, if k < 4 then p + 1 else p + 2, if k < 4 then 4 + k else k - 4);
    } else {
      BitOrZero(b, p + 2, 2 + k);
    }
  }

  lemma EncodedSymbol(b: seq<byte>, i: nat)
    requires i < |Encode(b)|
    ensures Encode(b)[i] == SymbolAt(b, i)
  {
    hide SymbolAt;
  }

  // Bit k of symbol i among the bits of the bytes.
  lemma SymbolPlace(i: nat, k: nat)
    requires k < 6
    ensures 6 * i + k == 8 * (i / 4 * 3) + if i % 4 == 0 then k else if i % 4 == 1 then 6 + k
                                          else if i % 4 == 2 then 12 + k else 18 + k
  {
    assert i == 4 * (i / 4) + i % 4;
  }

  // A bit of a byte, or of the zeros behind the last one.
  lemma BitOrZero(b: seq<byte>, j: nat, k: nat)
    requires k < 8
    ensures ByteBit(ByteOrZero(b, j), k) == (8 * j + k < 8 * |b| && BitOfBytes(b, 8 * j + k))
  {
    hide BitMask;
    assert (8 * j + k) / 8 == j && (8 * j + k) % 8 == k;
    assert 0 & BitMask(k) == 0;
  }

  // The value is spelled by the six bits from 6 * i on, with zeros behind the last byte.
  predicate SixBits(v: Sextet, d: seq<byte>, i: nat)
  {
    forall k: nat | k < 6 :: SextetBit(v, k) == (6 * i + k < 8 * |d| && BitOfBytes(d, 6 * i + k))
  }

  predicate SextetBit(v: Sextet, k: nat)
    requires k < 6
  {
    ByteBit(v, 2 + k)
  }

  lemma EncodeSixBits(b: seq<byte>, i: nat)
    requires i < |Encode(b)|
    ensures SixBits(Encode(b)[i], b, i)
  {
    hide Encode, ByteBit;
    forall k: nat | k < 6
      ensures SextetBit(Encode(b)[i], k) == (6 * i + k < 8 * |b| && BitOfBytes(b, 6 * i + k))
    {
      assert (6 * i + k) / 6 == i && (6 * i + k) % 6 == k;
      EncodeBits(b, 6 * i + k);
    }
  }

  // Every byte string survives encoding and decoding.
  lemma {:induction false} RoundTrip(b: seq<byte>)
    ensures Decode(Encode(b)) == b
  {
    var s := Encode(b);
    forall t: nat | t < 8 * |b| ensures BitOfBytes(b, t) == BitOfSymbols(s, t) {
      EncodeBits(b, t);
    }
    DecodeIsUnique(s, b);
  }

  lemma {:induction false} EncodeConcat(a: seq<byte>, b: seq<byte>)
    requires |a| % 3 == 0
    ensures Encode(a + b) == Encode(a) + Encode(b)
  {
    hide Symbol0, Symbol1, Symbol2, Symbol3;
    var q := |a| / 3;
    assert |Encode(a)| == 4 * q;
    forall i | 0 <= i < |Encode(a)| ensures Encode(a + b)[i] == Encode(a)[i] {
      assert i / 4 * 3 + 2 < |a|;
    }
    forall i | 0 <= i < |Encode(b)| ensures Encode(a + b)[4 * q + i] == Encode(b)[i] {
      assert (4 * q + i) / 4 == q + i / 4 && (4 * q + i) % 4 == i % 4;
    }
  }

  lemma EncodeGroup(a: byte, b: byte, c: byte)
    ensures Encode([a, b, c]) == [Symbol0(a), Symbol1(a, b), Symbol2(b, c), Symbol3(c)]
  {
    hide Symbol0, Symbol1, Symbol2, Symbol3;
  }

  lemma EncodePair(a: byte, b: byte)
    ensures Encode([a, b]) == [Symbol0(a), Symbol1(a, b), Symbol2(b, 0)]
  {
    hide Symbol0, Symbol1, Symbol2, Symbol3;
  }

  lemma EncodeOne(a: byte)
    ensures Encode([a]) == [Symbol0(a), Symbol1(a, 0)]
  {
    hide Symbol0, Symbol1, Symbol2, Symbol3;
  }

  // ----- Characters -----

  // The symbols of a text, in order; characters outside the table's alphabet are skipped.
  function Symbols(text: seq<byte>, table: Table): (s: seq<Sextet>)
    ensures |s| <= |text|
  {
    if text == [] then []
    else
      var rest := Symbols(text[..|text| - 1], table);
      var v := table(text[|text| - 1]);
      if v < 64 then rest + [v] else rest
  }

  lemma {:induction false} SymbolsConcat(a: seq<byte>, b: seq<byte>, table: Table)
    ensures Symbols(a + b, table) == Symbols(a, table) + Symbols(b, table)
  {
    if b == [] {
      assert a + b == a;
    } else {
      assert (a + b)[..|a + b| - 1] == a + b[..|b| - 1];
      SymbolsConcat(a, b[..|b| - 1], table);
    }
  }

  lemma SymbolsSnoc(text: seq<byte>, i: nat, table: Table)
    requires i < |text|
    ensures Symbols(text[..i + 1], table)
         == Symbols(text[..i], table) + if table(text[i]) < 64 then [table(text[i])] else []
  {
    assert text[..i + 1][..i] == text[..i];
  }

  lemma SymbolsSplit(text: seq<byte>, i: nat, table: Table)
    requires i <= |text|
    ensures Symbols(text, table) == Symbols(text[..i], table) + Symbols(text[i..], table)
  {
    assert text == text[..i] + text[i..];
    SymbolsConcat(text[..i], text[i..], table);
  }

  // The letter of a symbol value.
  function Letter(v: Sextet, alphabet: Alphabet): byte
  {
    if v < 26 then v + 65
    else if v < 52 then v + 71
    else if v < 62 then v - 4
    else if alphabet.Standard? then (if v == 62 then 43 else 47)
    else (if v == 62 then 45 else 95)
  }

  function Letters(s: seq<Sextet>, alphabet: Alphabet): (text: seq<byte>)
    ensures |text| == |s|
  {
    seq(|s|, i requires 0 <= i < |s| => Letter(s[i], alphabet))
  }

  lemma LettersConcat(a: seq<Sextet>, b: seq<Sextet>, alphabet: Alphabet)
    ensures Letters(a + b, alphabet) == Letters(a, alphabet) + Letters(b, alphabet)
  {
  }

  // Tables 1 and 2 of RFC 4648, spelled out.
  const CAPITALS := "ABCDEFGHIJKLMNOPQRSTUVWXYZ"
  const SMALL := "abcdefghijklmnopqrstuvwxyz"
  const DIGITS := "0123456789"

  function Characters(alphabet: Alphabet): (characters: string)
    ensures |characters| == 64
  {
    CAPITALS + SMALL + DIGITS + if alphabet.Standard? then "+/" else "-_"
  }

  // The character is the one with this value in the alphabet.
  predicate Spells(c: byte, v: Sextet, alphabet: Alphabet) { c as char == Characters(alphabet)[v as int] }

  lemma LetterSpells(v: Sextet, alphabet: Alphabet)
    ensures Spells(Letter(v, alphabet), v, alphabet)
  {
    if v < 52 {
      CapitalOrSmall(if v < 26 then v as int else v as int - 26);
    }
  }

  lemma CapitalOrSmall(i: nat)
    requires i < 26
    ensures CAPITALS[i] as int == 65 + i && SMALL[i] as int == 97 + i
  {
  }

  // No other character has the value.
  lemma SpellsIsLetter(c: byte, v: Sextet, alphabet: Alphabet)
    ensures Spells(c, v, alphabet) <==> c == Letter(v, alphabet)
  {
    hide Letter, Characters;
    LetterSpells(v, alphabet);
    var d := Letter(v, alphabet);
    assert c as char == d as char ==> c as int == d as int;
    assert c as int == d as int ==> c == d;
  }

  lemma InAlphabet(c: byte, alphabet: Alphabet)
    ensures c as char in Characters(alphabet) <==> exists v: Sextet :: Spells(c, v, alphabet)
  {
    hide Characters;
    if c as char in Characters(alphabet) {
      var i :| 0 <= i < 64 && Characters(alphabet)[i] == c as char;
      assert Spells(c, i as byte, alphabet);
    }
  }

  lemma SpelledIsInAlphabet(c: byte, v: Sextet, alphabet: Alphabet)
    requires Spells(c, v, alphabet)
    ensures c as char in Characters(alphabet)
  {
    hide Characters;
  }

  // What remains of a text without all other characters.
  function Only(text: seq<byte>, characters: string): (r: seq<byte>)
    ensures |r| <= |text|
  {
    if text == [] then []
    else
      var c := text[|text| - 1];
      Only(text[..|text| - 1], characters) + if c as char in characters then [c] else []
  }

  // What remains of a text without these characters.
  function Without(text: seq<byte>, characters: string): (r: seq<byte>)
    ensures |r| <= |text|
    ensures forall c :: c in r ==> c in text && c as char !in characters
  {
    if text == [] then []
    else
      var c := text[|text| - 1];
      Without(text[..|text| - 1], characters) + if c as char in characters then [] else [c]
  }

  lemma {:induction false} WithoutConcat(a: seq<byte>, b: seq<byte>, characters: string)
    ensures Without(a + b, characters) == Without(a, characters) + Without(b, characters)
  {
    if b == [] {
      assert a + b == a;
    } else {
      assert (a + b)[..|a + b| - 1] == a + b[..|b| - 1];
      WithoutConcat(a, b[..|b| - 1], characters);
    }
  }

  lemma {:induction false} KeptWithout(text: seq<byte>, characters: string, i: nat)
    requires i < |text| && text[i] as char !in characters
    ensures text[i] in Without(text, characters)
  {
    if i < |text| - 1 {
      KeptWithout(text[..|text| - 1], characters, i);
    }
  }

  lemma {:induction false} WithoutKeepsSymbols(text: seq<byte>, characters: string, table: Table)
    requires forall i :: 0 <= i < |text| && text[i] as char in characters ==> table(text[i]) >= 64
    ensures Symbols(Without(text, characters), table) == Symbols(text, table)
  {
    if text != [] {
      var n := |text| - 1;
      WithoutKeepsSymbols(text[..n], characters, table);
      var last := if text[n] as char in characters then [] else [text[n]];
      SymbolsConcat(Without(text[..n], characters), last, table);
      SymbolsSnoc(text, n, table);
      SymbolsOfOne(text[n], table);
      assert text[..n + 1] == text;
    }
  }

  lemma {:induction false} OnlyConcat(a: seq<byte>, b: seq<byte>, characters: string)
    ensures Only(a + b, characters) == Only(a, characters) + Only(b, characters)
  {
    if b == [] {
      assert a + b == a;
    } else {
      assert (a + b)[..|a + b| - 1] == a + b[..|b| - 1];
      OnlyConcat(a, b[..|b| - 1], characters);
    }
  }

  lemma {:induction false} OnlyNone(text: seq<byte>, characters: string)
    requires forall i :: 0 <= i < |text| ==> text[i] as char !in characters
    ensures Only(text, characters) == []
  {
    if text != [] {
      OnlyNone(text[..|text| - 1], characters);
    }
  }

  // If all symbols are among these characters, the others do not matter.
  lemma {:induction false} OnlyKeepsSymbols(text: seq<byte>, characters: string, table: Table)
    requires forall i :: 0 <= i < |text| && table(text[i]) < 64 ==> text[i] as char in characters
    ensures Symbols(Only(text, characters), table) == Symbols(text, table)
  {
    if text != [] {
      var n := |text| - 1;
      OnlyKeepsSymbols(text[..n], characters, table);
      var last := if text[n] as char in characters then [text[n]] else [];
      SymbolsConcat(Only(text[..n], characters), last, table);
      SymbolsSnoc(text, n, table);
      SymbolsOfOne(text[n], table);
      assert text[..n + 1] == text;
    }
  }

  lemma SymbolsOfOne(c: byte, table: Table)
    ensures Symbols([], table) == [] && Symbols([c], table) == if table(c) < 64 then [table(c)] else []
  {
    assert [c][..0] == [];
  }

  // A table that reads back every letter of an alphabet gives the symbols that were written.
  lemma {:induction false} SymbolsOfLetters(s: seq<Sextet>, alphabet: Alphabet, table: Table)
    requires forall i :: 0 <= i < |s| ==> table(Letters(s, alphabet)[i]) == s[i]
    ensures Symbols(Letters(s, alphabet), table) == s
  {
    if s != [] {
      var n := |s| - 1;
      assert Letters(s, alphabet)[..n] == Letters(s[..n], alphabet);
      SymbolsOfLetters(s[..n], alphabet, table);
      assert s == s[..n] + [s[n]];
    }
  }
}
