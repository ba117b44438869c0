/**
  * The OpenSSL streaming base64 decoder kept for comparison in benchmarks/base64/openssl3_base64.h:
  * a context with up to 64 characters carried from one update to the next.
  */
module OpenSslDecoder {
  import opened Base64
  import opened Buffers

  const B64_EOF: byte := 0xf2  // the value of '-'
  const B64_WS: byte := 0xe0
  const B64_ERROR: byte := 0xff
  const SRP_ALPHABET: bv32 := 2

  // data_ascii2bin and srpdata_ascii2bin by their rules; '=' reads as zero in both.
  function Ascii2Bin(c: byte, srp: bool): (v: byte)
    ensures v < 64 || v >= 0xe0
    ensures c == PAD ==> v == 0
  {
    if c >= 0x80 then B64_ERROR
    else if c == 9 || c == 32 then B64_WS
    else if c == 10 then 0xf0
    else if c == 13 then 0xf1
    else if c == 45 then B64_EOF
    else if c == PAD then 0
    else if srp then
      if 48 <= c <= 57 then c - 48
      else if 65 <= c <= 90 then c - 55
      else if 97 <= c <= 122 then c - 61
      else if c == 46 then 62
      else if c == 47 then 63
      else B64_ERROR
    else
      if 65 <= c <= 90 then c - 65
      else if 97 <= c <= 122 then c - 71
      else if 48 <= c <= 57 then c + 4
      else if c == 43 then 62
      else if c == 47 then 63
      else B64_ERROR
  }

  // ----- The same by the characters themselves -----

  const WHITE_SPACE := " \t\n\r"

  // The SRP alphabet, spelled out.
  const SRP_LETTERS := "0123456789" + "ABCDEFGHIJKLMNOPQRSTUVWXYZ" + "abcdefghijklmnopqrstuvwxyz" + "./"

  function LettersRead(srp: bool): (letters: string)
    ensures |letters| == 64
  {
    if srp then SRP_LETTERS else Characters(Standard)
  }

  // A letter has the value of its place in the alphabet; '=' reads as zero.
  lemma LetterValue(c: byte, srp: bool, v: Sextet)
    requires c != PAD
    ensures Ascii2Bin(c, srp) == v <==> c as char == LettersRead(srp)[v as int]
  {
    hide Characters, Ascii2Bin;
    if srp {
      SrpLetterIs(c, v);
    } else {
      SpellsIsLetter(c, v, Standard);
      StandardLetterIs(c, v);
    }
  }

  lemma StandardLetterIs(c: byte, v: Sextet)
    requires c != PAD
    ensures Ascii2Bin(c, false) == v <==> c == Letter(v, Standard)
  {
  }

  function SrpLetter(v: Sextet): byte
  {
    if v < 10 then v + 48 else if v < 36 then v + 55 else if v < 62 then v + 61 else if v == 62 then 46 else 47
  }

  lemma SrpLetterIs(c: byte, v: Sextet)
    requires c != PAD
    ensures Ascii2Bin(c, true) == v <==> c as char == SRP_LETTERS[v as int]
  {
    hide SRP_LETTERS;
    SrpLetterSpells(v);
    SrpLetterValue(c, v);
    var d := SrpLetter(v);
    assert c as char == d as char ==> c as int == d as int;
    assert c as int == d as int ==> c == d;
  }

  lemma SrpLetterValue(c: byte, v: Sextet)
    requires c != PAD
    ensures Ascii2Bin(c, true) == v <==> c == SrpLetter(v)
  {
  }

  lemma SrpLetterSpells(v: Sextet)
    ensures SrpLetter(v) as char == SRP_LETTERS[v as int]
  {
    if 10 <= v < 62 {
      CapitalOrSmall(if v < 36 then v as int - 10 else v as int - 36);
    }
  }

  // What the other values stand for.
  lemma OtherCharacters(c: byte, srp: bool)
    ensures Ascii2Bin(c, srp) in {0xe0, 0xf0, 0xf1} <==> c as char in WHITE_SPACE
    ensures Ascii2Bin(c, srp) == B64_EOF <==> c as char == '-'
    ensures c == PAD <==> c as char == '='
    ensures Ascii2Bin(c, srp) < 64 || Ascii2Bin(c, srp) in {0xe0, 0xf0, 0xf1, B64_EOF, B64_ERROR}
  {
  }

  predicate NotBase64(v: byte) { v | 0x13 == 0xf3 }

  lemma ValueKinds(c: byte, srp: bool)
    ensures var v := Ascii2Bin(c, srp);
            && (v < 64 <==> !NotBase64(v) && v != B64_ERROR)
            && (v >= 0x80 <==> v & 0x80 != 0)
            && (v == B64_WS || v == B64_EOF ==> NotBase64(v))
  {
  }

  predicate IsData(c: byte, srp: bool) { Ascii2Bin(c, srp) < 64 }

  // The symbols of a text: padding carries no bits.
  function SymbolTable(srp: bool): Table
  {
    c => if c == PAD then 0xff else Ascii2Bin(c, srp)
  }

  // ----- What a call decodes -----

  // The characters a call keeps: symbols and padding.
  function Data(text: seq<byte>, srp: bool): (t: seq<byte>)
    ensures |t| <= |text|
    ensures forall i :: 0 <= i < |t| ==> IsData(t[i], srp)
  {
    if text == [] then []
    else
      var c := text[|text| - 1];
      Data(text[..|text| - 1], srp) + if IsData(c, srp) then [c] else []
  }

  // The number of trailing padding characters.
  function Pads(t: seq<byte>): (e: nat)
    ensures e <= |t|
    ensures forall i :: |t| - e <= i < |t| ==> t[i] == PAD
    ensures e < |t| ==> t[|t| - 1 - e] != PAD
  {
    if t == [] || t[|t| - 1] != PAD then 0 else 1 + Pads(t[..|t| - 1])
  }

  // At most two padding characters, all at the end.
  predicate WellPadded(t: seq<byte>)
  {
    && Pads(t) <= 2
    && forall i :: 0 <= i < |t| - Pads(t) ==> t[i] != PAD
  }

  lemma PadsSnoc(t: seq<byte>, c: byte)
    ensures Pads(t + [c]) == if c == PAD then Pads(t) + 1 else 0
    ensures WellPadded(t) ==> Pads(t) <= 2
    ensures WellPadded(t) ==>
              (WellPadded(t + [c]) <==> if c == PAD then Pads(t) < 2 else Pads(t) == 0)
  {
    assert (t + [c])[..|t|] == t;
    if WellPadded(t) && c != PAD && Pads(t) > 0 {
      assert (t + [c])[|t| - 1] == PAD;
    }
  }

  lemma UnpadLast(t: seq<byte>, c: byte)
    requires WellPadded(t + [c])
    ensures WellPadded(t)
  {
    PadsSnoc(t, c);
    assert forall i :: 0 <= i < |t| ==> (t + [c])[i] == t[i];
  }

  lemma {:induction false} DataConcat(a: seq<byte>, b: seq<byte>, srp: bool)
    ensures Data(a + b, srp) == Data(a, srp) + Data(b, srp)
  {
    if b == [] {
      assert a + b == a;
    } else {
      assert (a + b)[..|a + b| - 1] == a + b[..|b| - 1];
      DataConcat(a, b[..|b| - 1], srp);
    }
  }

  lemma {:induction false} PaddedPrefix(t: seq<byte>, u: seq<byte>)
    requires WellPadded(t + u)
    ensures WellPadded(t)
  {
    if u == [] {
      assert t + u == t;
    } else {
      var n := |u| - 1;
      assert t + u == (t + u[..n]) + [u[n]];
      PadsSnoc(t + u[..n], u[n]);
      UnpadLast(t + u[..n], u[n]);
      PaddedPrefix(t, u[..n]);
    }
  }

  lemma DataSnoc(text: seq<byte>, i: nat, srp: bool)
    requires i < |text|
    ensures Data(text[..i + 1], srp) == Data(text[..i], srp) + if IsData(text[i], srp) then [text[i]] else []
  {
    assert text[..i + 1][..i] == text[..i];
  }

  // Once the padding is wrong, no more text can make it right.
  lemma WrongPadding(p: seq<byte>, text: seq<byte>, i: nat, k: nat, srp: bool)
    requires i < k <= |text| && IsData(text[i], srp)
    requires !WellPadded(p + Data(text[..i], srp) + [text[i]])
    ensures !WellPadded(p + Data(text[..k], srp))
  {
    hide WellPadded;
    DataSnoc(text, i, srp);
    assert text[..k] == text[..i + 1] + text[i + 1..k];
    DataConcat(text[..i + 1], text[i + 1..k], srp);
    var t, u := p + Data(text[..i], srp) + [text[i]], Data(text[i + 1..k], srp);
    assert p + Data(text[..k], srp) == t + u;
    if WellPadded(t + u) {
      PaddedPrefix(t, u);
    }
  }

  lemma PaddedSuffix(t: seq<byte>, f: nat)
    requires f <= |t| && WellPadded(t)
    ensures WellPadded(t[f..])
  {
    var s := t[f..];
    var e := Pads(s);
    if e < |s| {
      assert t[f + |s| - 1 - e] != PAD;
    }
    assert e <= Pads(t);
  }

  function Value(c: byte, srp: bool): Sextet
    requires IsData(c, srp)
  {
    Ascii2Bin(c, srp)
  }

  function Values(t: seq<byte>, srp: bool): (s: seq<Sextet>)
    requires forall i :: 0 <= i < |t| ==> IsData(t[i], srp)
    ensures |s| == |t|
  {
    seq(|t|, i requires 0 <= i < |t| => Value(t[i], srp))
  }

  lemma {:induction false} SymbolsAreValues(t: seq<byte>, srp: bool)
    requires forall i :: 0 <= i < |t| ==> IsData(t[i], srp)
    requires forall i :: 0 <= i < |t| ==> t[i] != PAD
    ensures Symbols(t, SymbolTable(srp)) == Values(t, srp)
  {
    if t != [] {
      var n := |t| - 1;
      SymbolsAreValues(t[..n], srp);
      assert Values(t, srp) == Values(t[..n], srp) + [Value(t[n], srp)];
    }
  }

  lemma {:induction false} PadsHaveNoSymbols(t: seq<byte>, srp: bool)
    requires forall i :: 0 <= i < |t| ==> t[i] == PAD
    ensures Symbols(t, SymbolTable(srp)) == []
  {
    if t != [] {
      PadsHaveNoSymbols(t[..|t| - 1], srp);
    }
  }

  // Decoding a block with its padding read as zeros and dropping a byte per padding character is
  // decoding its symbols.
  lemma BlockMeaning(b: seq<byte>, e: nat, srp: bool)
    requires |b| % 4 == 0 && e <= 2 && e <= |b|
    requires forall i :: 0 <= i < |b| ==> IsData(b[i], srp)
    requires forall i :: 0 <= i < |b| ==> (b[i] == PAD <==> |b| - e <= i)
    ensures e <= 3 * |b| / 4
    ensures Decode(Symbols(b, SymbolTable(srp))) == Decode(Values(b, srp))[..3 * |b| / 4 - e]
  {
    hide SymbolTable, Decode, Symbols, IsData, Values;
    var n := |b| - e;
    var body, pads := b[..n], b[n..];
    assert 3 * n / 4 == 3 * |b| / 4 - e;
    SymbolsSplit(b, n, SymbolTable(srp));
    SymbolsAreValues(body, srp);
    PadsHaveNoSymbols(pads, srp);
    assert Symbols(b, SymbolTable(srp)) == Values(body, srp);
    ValuesPrefix(b, n, srp);
    DecodePrefix(Values(b, srp), n);
  }

  lemma ValuesPrefix(t: seq<byte>, n: nat, srp: bool)
    requires n <= |t| && forall i :: 0 <= i < |t| ==> IsData(t[i], srp)
    ensures Values(t[..n], srp) == Values(t, srp)[..n]
  {
  }

  // Flushing the tail of t after position f: the padding, if any, is all in that tail.
  lemma FlushMeaning(t: seq<byte>, f: nat, srp: bool)
    requires f < |t| && f % 4 == 0 && |t| % 4 == 0 && WellPadded(t)
    requires forall i :: 0 <= i < |t| ==> IsData(t[i], srp)
    ensures Pads(t) <= Room(|t| - f)
    ensures Decode(Symbols(t, SymbolTable(srp)))
         == Decode(Symbols(t[..f], SymbolTable(srp))) + Decode(Values(t[f..], srp))[..Room(|t| - f) - Pads(t)]
  {
    hide SymbolTable, Decode, Symbols, IsData, Values, Pads;
    var e, head, tail := Pads(t), t[..f], t[f..];
    assert |tail| % 4 == 0;
    RoomOfWhole(|tail|);
    BlockMeaning(tail, e, srp);
    SymbolsSplit(t, f, SymbolTable(srp));
    SymbolsAreValues(head, srp);
    DecodeConcat(Symbols(head, SymbolTable(srp)), Symbols(tail, SymbolTable(srp)));
  }

  // ----- The context -----

  // The text in front of the first '-', where the content ends.
  function ContentLength(text: seq<byte>, srp: bool): (k: nat)
    ensures k <= |text|
    ensures forall i :: 0 <= i < k ==> Ascii2Bin(text[i], srp) != B64_EOF
    ensures k < |text| ==> Ascii2Bin(text[k], srp) == B64_EOF
  {
    if text == [] || Ascii2Bin(text[0], srp) == B64_EOF then 0 else 1 + ContentLength(text[1..], srp)
  }

  predicate NoErrors(text: seq<byte>, srp: bool)
  {
    forall i :: 0 <= i < |text| ==> Ascii2Bin(text[i], srp) != B64_ERROR
  }

  lemma ContentAt(text: seq<byte>, i: nat, srp: bool)
    requires i < |text| && i <= ContentLength(text, srp) && NoErrors(text[..i], srp)
    ensures var k, v := ContentLength(text, srp), Ascii2Bin(text[i], srp);
            if v == B64_ERROR then !NoErrors(text[..k], srp)
            else if v == B64_EOF then k == i
            else i < k && NoErrors(text[..i + 1], srp)
  {
    hide Ascii2Bin, ContentLength;
    if Ascii2Bin(text[i], srp) == B64_ERROR {
      assert text[..ContentLength(text, srp)][i] == text[i];
    }
    assert forall j :: 0 <= j < i ==> text[..i][j] == text[..i + 1][j];
  }

  // How many of the characters kept so far stay in the context when an update ends.
  function Carried(t: seq<byte>): nat { if |t| % 4 == 0 then 0 else |t| % 64 }

  // All but the last n of t characters were decoded, 64 at a time.
  predicate InBlocks(t: nat, n: nat) { n < 64 && n <= t && (t - n) % 64 == 0 }

  lemma NoBlocks(n: nat)
    ensures n < 64 ==> InBlocks(n, n)
  {
  }

  lemma OneMoreInBlocks(t: nat, n: nat)
    requires InBlocks(t, n)
    ensures if n < 63 then InBlocks(t + 1, n + 1) else InBlocks(t + 1, 0) && (t + 1) % 4 == 0
  {
    if n == 63 {
      NextBlock(t - 63);
      FourDividesSixtyFour(t + 1);
    }
  }

  lemma NextBlock(m: nat)
    requires m % 64 == 0
    ensures (m + 64) % 64 == 0
  {
  }

  lemma RestOfBuffer(t: seq<byte>, n: nat, written: seq<byte>, srp: bool)
    requires InBlocks(|t|, n) && written == Decode(Symbols(t[..|t| - n], SymbolTable(srp)))
    ensures FlushedOnly(t, written, t[|t| - n..], srp)
  {
    hide Symbols, Decode, SymbolTable;
    assert n == |t| % 64;
  }

  lemma CarriedIs(t: seq<byte>, n: nat)
    requires InBlocks(|t|, n)
    ensures Carried(t) == if n % 4 == 0 then 0 else n
    ensures n % 4 == 0 ==> |t| % 4 == 0
  {
    assert |t| % 64 == n;
    FourDividesSixtyFour(|t|);
  }

  lemma CarriedShort(t: seq<byte>)
    requires |t| < 64 && (|t| % 4 == 0 ==> t == [])
    ensures Carried(t) == |t|
  {
  }

  lemma CarriedRest(t: seq<byte>)
    ensures Carried(t) <= |t| && Carried(t) % 4 == |t| % 4 && (Carried(t) == 0 <==> |t| % 4 == 0)
    ensures Carried(t) < 64 && (|t| - Carried(t)) % 4 == 0
  {
    FourDividesSixtyFour(|t|);
  }

  lemma FourDividesSixtyFour(t: nat)
    ensures t % 64 % 4 == t % 4
  {
    assert t == 4 * (16 * (t / 64)) + t % 64;
  }

  // The bytes that n characters can decode to.
  function Room(n: nat): nat { 3 * (n / 4) }

  lemma RoomGrows(a: nat, b: nat)
    requires a <= b
    ensures Room(a) <= Room(b)
  {
  }

  lemma RoomOfWhole(n: nat)
    requires n % 4 == 0
    ensures 4 * Room(n) == 3 * n
  {
  }

  lemma RoomAdds(a: nat, b: nat)
    requires a % 4 == 0
    ensures Room(a) + Room(b) == Room(a + b)
  {
  }

  datatype Status = Scanned | EndOfContent | Rejected

  // Where reading stops from position i on: at the end, at a '-', at an error, or at a character
  // that makes the padding wrong.
  ghost function Stop(p: seq<byte>, text: seq<byte>, srp: bool, i: nat): (stop: nat)
    requires i <= |text|
    ensures i <= stop <= |text|
    decreases |text| - i
  {
    if i == |text| || Ascii2Bin(text[i], srp) == B64_EOF || Ascii2Bin(text[i], srp) == B64_ERROR
       || !WellPadded(p + Data(text[..i + 1], srp)) then i
    else Stop(p, text, srp, i + 1)
  }

  // Of the characters t, full buffers of 64 are decoded.
  ghost predicate FlushedOnly(t: seq<byte>, written: seq<byte>, p': seq<byte>, srp: bool)
  {
    var f := |t| - |t| % 64;
    p' == t[f..] && written == Decode(Symbols(t[..f], SymbolTable(srp)))
  }

  // What one update does, from the characters p saved before it to the characters p' saved after
  // it: everything kept so far is decoded except an incomplete block, or, if the text is rejected,
  // an incomplete buffer of 64.
  ghost predicate UpdateMeaning(srp: bool, p: seq<byte>, text: seq<byte>, rv: int, written: seq<byte>, p': seq<byte>)
  {
    var k := ContentLength(text, srp);
    var t := p + Data(text[..k], srp);
    var n := |t| - Carried(t);
    if text == [] then
      rv == 0 && written == [] && p' == p
    else if !NoErrors(text[..k], srp) || !WellPadded(t) then
      rv == -1 && FlushedOnly(p + Data(text[..Stop(p, text, srp, 0)], srp), written, p', srp)
    else
      && p' == t[n..]
      && written == Decode(Symbols(t[..n], SymbolTable(srp)))
      && rv == if k < |text| then (if n == |t| then 0 else -1)
               else if n == |t| && PAD in t then 0 else 1
  }

  lemma EmptyUpdate(srp: bool, p: seq<byte>)
    ensures UpdateMeaning(srp, p, [], 0, [], p)
  {
  }

  // The first i characters of the text were read without an error; t are the characters kept.
  ghost predicate Seen(p: seq<byte>, text: seq<byte>, srp: bool, i: nat, t: seq<byte>)
  {
    && i <= ContentLength(text, srp) && NoErrors(text[..i], srp)
    && Stop(p, text, srp, i) == Stop(p, text, srp, 0)
    && t == p + Data(text[..i], srp) && WellPadded(t)
  }

  // How the reading of a text ends.
  ghost predicate Outcome(p: seq<byte>, text: seq<byte>, srp: bool, status: Status, t: seq<byte>)
  {
    var k := ContentLength(text, srp);
    if NoErrors(text[..k], srp) && WellPadded(p + Data(text[..k], srp)) then
      t == p + Data(text[..k], srp) && status == if k < |text| then EndOfContent else Scanned
    else status == Rejected && t == p + Data(text[..Stop(p, text, srp, 0)], srp)
  }

  lemma SeenNothing(p: seq<byte>, text: seq<byte>, srp: bool)
    requires WellPadded(p)
    ensures Seen(p, text, srp, 0, p)
  {
    hide WellPadded, ContentLength, Stop;
    assert text[..0] == [] && p + [] == p;
  }

  lemma SeenNext(p: seq<byte>, text: seq<byte>, srp: bool, i: nat, t: seq<byte>)
    requires Seen(p, text, srp, i, t) && i < |text|
    ensures var c := text[i];
            var t' := if IsData(c, srp) then t + [c] else t;
            if Ascii2Bin(c, srp) == B64_ERROR || !WellPadded(t') then Outcome(p, text, srp, Rejected, t)
            else if Ascii2Bin(c, srp) == B64_EOF then Outcome(p, text, srp, EndOfContent, t)
            else Seen(p, text, srp, i + 1, t')
  {
    hide WellPadded, ContentLength, NoErrors, Data, Ascii2Bin;
    StopAt(p, text, srp, i, t);
    ContentAt(text, i, srp);
    DataSnoc(text, i, srp);
    var k, c := ContentLength(text, srp), text[i];
    if i < k && IsData(c, srp) && !WellPadded(t + [c]) {
      WrongPadding(p, text, i, k, srp);
    }
  }

  lemma StopAt(p: seq<byte>, text: seq<byte>, srp: bool, i: nat, t: seq<byte>)
    requires i < |text| && t == p + Data(text[..i], srp)
    ensures var c := text[i];
            var t' := if IsData(c, srp) then t + [c] else t;
            var v := Ascii2Bin(c, srp);
            Stop(p, text, srp, i)
            == if v == B64_EOF || v == B64_ERROR || !WellPadded(t') then i else Stop(p, text, srp, i + 1)
  {
    hide WellPadded, Data, Ascii2Bin, IsData;
    DataSnoc(text, i, srp);
    assert p + Data(text[..i + 1], srp) == if IsData(text[i], srp) then t + [text[i]] else t;
  }

  lemma EndIsNoData(c: byte, srp: bool)
    ensures Ascii2Bin(c, srp) == B64_EOF ==> !IsData(c, srp)
  {
  }

  lemma SeenAll(p: seq<byte>, text: seq<byte>, srp: bool, t: seq<byte>)
    requires Seen(p, text, srp, |text|, t)
    ensures Outcome(p, text, srp, Scanned, t)
  {
    hide WellPadded, ContentLength, NoErrors, Data, Stop;
  }

  // The verdict of an update from the way its scan ended.
  lemma UpdateMeans(srp: bool, p: seq<byte>, text: seq<byte>, status: Status, t: seq<byte>, n: nat, rv: int,
                    written: seq<byte>)
    requires text != [] && n <= |t|
    requires Outcome(p, text, srp, status, t)
    requires if status == Rejected then FlushedOnly(t, written, t[|t| - n..], srp) else n == Carried(t)
    requires status != Rejected ==> written == Decode(Symbols(t[..|t| - n], SymbolTable(srp)))
    requires rv == if status == Rejected || (n != 0 && status == EndOfContent) then -1
                   else if status == EndOfContent || (n == 0 && Pads(t) > 0) then 0 else 1
    ensures UpdateMeaning(srp, p, text, rv, written, t[|t| - n..])
  {
    hide Symbols, Decode, SymbolTable, Data, NoErrors, Pads, Carried, Stop, ContentLength, FlushedOnly;
    if WellPadded(t) {
      HasPads(t);
    }
  }

  lemma HasPads(t: seq<byte>)
    requires WellPadded(t)
    ensures PAD in t <==> Pads(t) > 0
  {
  }

  // An update on a fresh context decodes everything or leaves an incomplete block behind.
  lemma WholeText(text: seq<byte>, rv: int, written: seq<byte>, p': seq<byte>)
    requires UpdateMeaning(false, [], text, rv, written, p')
    ensures var k := ContentLength(text, false);
            var t := Data(text[..k], false);
            if NoErrors(text[..k], false) && WellPadded(t) then
              && |p'| % 4 == |t| % 4
              && (|t| % 4 != 0 ==> rv == (if k < |text| then -1 else 1) && p' != [])
              && (|t| % 4 == 0 ==> rv >= 0 && p' == [] && written == Decode(Symbols(t, SymbolTable(false))))
            else rv == -1
  {
    hide Symbols, Decode, SymbolTable, WellPadded, NoErrors, ContentLength, Carried, Data, Pads, Stop, FlushedOnly;
    var t := Data(text[..ContentLength(text, false)], false);
    assert [] + t == t && t[..|t|] == t && t[|t|..] == [];
    CarriedRest(t);
    NothingDecoded(false);
  }

  // The bytes of the characters that are pending have room behind those written.
  lemma RoomForRest(text: seq<byte>, rv: int, written: seq<byte>, p': seq<byte>)
    requires UpdateMeaning(false, [], text, rv, written, p') && rv >= 0
    ensures |written| + Room(|p'|) <= Room(|text|)
  {
    hide Symbols, Decode, SymbolTable, WellPadded, NoErrors, ContentLength, Carried, Data, Pads, Stop, FlushedOnly,
      Room;
    var t := [] + Data(text[..ContentLength(text, false)], false);
    var n := |t| - Carried(t);
    CarriedRest(t);
    RoomAdds(n, Carried(t));
    RoomOfSymbols(|Symbols(t[..n], SymbolTable(false))|, n);
    RoomGrows(|t|, |text|);
    RoomGrows(0, |text|);
    RoomOfSymbols(0, 0);
  }

  lemma RoomOfSymbols(s: nat, n: nat)
    requires s <= n && n % 4 == 0
    ensures 3 * s / 4 <= Room(n) && Room(0) == 0
  {
  }

  lemma NothingDecoded(srp: bool)
    ensures Decode(Symbols([], SymbolTable(srp))) == [] && Data([], srp) == [] && WellPadded([]) && NoErrors([], srp)
  {
    hide SymbolTable;
  }

  // ----- Streams of symbols and white space -----

  predicate CleanText(text: seq<byte>, srp: bool)
  {
    forall i :: 0 <= i < |text| ==>
                  text[i] != PAD && Ascii2Bin(text[i], srp) != B64_ERROR && Ascii2Bin(text[i], srp) != B64_EOF
  }

  // Between two updates of such a stream: the characters seen so far are those whose bytes were
  // written, in whole blocks, and the fewer than 64 that are pending.
  ghost predicate InStream(seen: seq<byte>, p: seq<byte>, written: seq<byte>, srp: bool)
  {
    && |p| < 64 && |p| <= |seen| && p == seen[|seen| - |p|..]
    && PAD !in seen && (forall i :: 0 <= i < |seen| ==> IsData(seen[i], srp))
    && (|seen| - |p|) % 4 == 0 && (|p| % 4 == 0 ==> p == [])
    && written == Decode(Symbols(seen[..|seen| - |p|], SymbolTable(srp)))
  }

  lemma {:induction false} CleanData(text: seq<byte>, srp: bool)
    requires CleanText(text, srp)
    ensures ContentLength(text, srp) == |text| && NoErrors(text, srp)
    ensures PAD !in Data(text, srp)
  {
    if text != [] {
      CleanData(text[..|text| - 1], srp);
    }
  }

  lemma NoPadIsWellPadded(t: seq<byte>)
    requires PAD !in t
    ensures Pads(t) == 0 && WellPadded(t)
  {
  }

  // What an update does to such a stream.
  lemma CleanUpdate(p: seq<byte>, text: seq<byte>, rv: int, written: seq<byte>, p': seq<byte>, srp: bool)
    requires UpdateMeaning(srp, p, text, rv, written, p') && CleanText(text, srp)
    requires PAD !in p && |p| < 64 && (|p| % 4 == 0 ==> p == [])
    ensures var t := p + Data(text, srp);
            var n := |t| - Carried(t);
            rv >= 0 && p' == t[n..] && written == Decode(Symbols(t[..n], SymbolTable(srp)))
  {
    hide Symbols, Decode, SymbolTable, WellPadded, NoErrors, IsData, Data, Pads, CleanText, Stop, FlushedOnly, Carried;
    CarriedShort(p);
    CleanData(text, srp);
    assert text[..|text|] == text;
    var t := p + Data(text, srp);
    assert PAD !in t;
    NoPadIsWellPadded(t);
    if text == [] {
      NothingDecoded(srp);
      assert t == p;
      assert t[..0] == [] && t[0..] == t;
    }
  }

  // Every update keeps the relation, whatever the length of its input.
  lemma StreamStep(seen: seq<byte>, p: seq<byte>, done: seq<byte>, text: seq<byte>, rv: int, written: seq<byte>,
                   p': seq<byte>, srp: bool)
    requires InStream(seen, p, done, srp) && CleanText(text, srp)
    requires UpdateMeaning(srp, p, text, rv, written, p')
    ensures rv >= 0 && InStream(seen + Data(text, srp), p', done + written, srp)
  {
    hide Symbols, Decode, SymbolTable, WellPadded, NoErrors, IsData, Data, Pads, CleanText, UpdateMeaning,
      ContentLength, Ascii2Bin, Carried;
    assert PAD !in p by {
      assert forall c :: c in p ==> c in seen;
    }
    CleanUpdate(p, text, rv, written, p', srp);
    CleanData(text, srp);
    var t := p + Data(text, srp);
    CarriedRest(t);
    StreamJoin(seen, p, Data(text, srp), |t| - Carried(t), srp);
  }

  lemma StreamJoin(seen: seq<byte>, p: seq<byte>, d: seq<byte>, n: nat, srp: bool)
    requires |p| <= |seen| && p == seen[|seen| - |p|..] && (|seen| - |p|) % 4 == 0 && n <= |p + d| && n % 4 == 0
    requires PAD !in seen && forall i :: 0 <= i < |seen| ==> IsData(seen[i], srp)
    ensures var f := |seen| - |p|;
            && (f + n) % 4 == 0 && (seen + d)[f + n..] == (p + d)[n..]
            && Decode(Symbols((seen + d)[..f + n], SymbolTable(srp)))
               == Decode(Symbols(seen[..f], SymbolTable(srp))) + Decode(Symbols((p + d)[..n], SymbolTable(srp)))
  {
    hide Symbols, Decode, SymbolTable, IsData;
    var f := |seen| - |p|;
    assert seen + d == seen[..f] + (p + d);
    assert (seen + d)[..f + n] == seen[..f] + (p + d)[..n];
    SymbolsAreValues(seen[..f], srp);
    SymbolsConcat(seen[..f], (p + d)[..n], SymbolTable(srp));
    DecodeConcat(Symbols(seen[..f], SymbolTable(srp)), Symbols((p + d)[..n], SymbolTable(srp)));
  }

  // The decoding of one block of characters, with white space trimmed at both ends.
  method DecodeBlock(srp: bool, t: array<byte>, at: nat, f: seq<byte>) returns (ret: int)
    requires at + Room(|f|) <= t.Length
    modifies t
    ensures ret == -1 || 0 <= ret <= Room(|f|)
    ensures (forall i :: 0 <= i < |f| ==> IsData(f[i], srp)) ==>
              if |f| % 4 != 0 then ret == -1
              else ret == Room(|f|) && t[at..at + ret] == Decode(Values(f, srp))
    ensures forall j :: 0 <= j < t.Length && !(at <= j < at + Room(|f|)) ==> t[j] == old(t[j])
  {
    hide Decode, Ascii2Bin, Values, Holds, Room;
    var lo, n := TrimBlock(f, srp);
    if (n - lo) % 4 != 0 {
      return -1;
    }
    RoomGrows(n - lo, |f|);
    ret := DecodeQuads(srp, t, at, f[lo..n]);
    if forall i :: 0 <= i < |f| ==> IsData(f[i], srp) {
      assert f[lo..n] == f;
      HoldsSlice(t, at, ret, Decode(Values(f, srp)));
    }
  }

  method TrimBlock(f: seq<byte>, srp: bool) returns (lo: nat, n: nat)
    ensures lo <= n <= |f|
    ensures (forall i :: 0 <= i < |f| ==> IsData(f[i], srp)) ==> lo == 0 && n == |f|
  {
    hide Ascii2Bin, NotBase64;
    ghost var clean := forall i :: 0 <= i < |f| ==> IsData(f[i], srp);
    lo, n := 0, |f|;
    while lo < n && Ascii2Bin(f[lo], srp) == B64_WS
      invariant lo <= n
      invariant clean ==> lo == 0
    {
      lo := lo + 1;
    }
    while n - lo > 3 && NotBase64(Ascii2Bin(f[n - 1], srp))
      invariant lo <= n <= |f|
      invariant clean ==> n == |f|
    {
      ValueKinds(f[n - 1], srp);
      n := n - 1;
    }
  }

  method DecodeQuads(srp: bool, t: array<byte>, at: nat, f: seq<byte>) returns (ret: int)
    requires |f| % 4 == 0 && at + Room(|f|) <= t.Length
    modifies t
    ensures ret == -1 || ret == Room(|f|)
    ensures (forall i :: 0 <= i < |f| ==> IsData(f[i], srp)) ==> Holds(t, at, ret, Decode(Values(f, srp)))
    ensures forall j :: 0 <= j < t.Length && !(at <= j < at + Room(|f|)) ==> t[j] == old(t[j])
  {
    hide Decode, Ascii2Bin, Values, Holds, First, Second, Third;
    ret := 0;
    var i, g: nat := 0, 0;
    ghost var written: seq<byte> := [];
    ghost var clean := forall i :: 0 <= i < |f| ==> IsData(f[i], srp);
    HoldsNothing(t, at);
    NoQuads(f, srp);
    while i < |f|
      invariant i == 4 * g && ret == 3 * g && i <= |f|
      invariant Holds(t, at, ret, written)
      invariant clean ==> written == Decode(Values(f[..i], srp))
      invariant forall j :: 0 <= j < t.Length && !(at <= j < at + Room(|f|)) ==> t[j] == old(t[j])
    {
      if clean {
        NextQuad(f, i, srp);
      }
      var ok := StoreQuad(srp, t, at, ret, f[i], f[i + 1], f[i + 2], f[i + 3], written);
      if !ok {
        return -1;
      }
      written := written + Quad(f[i], f[i + 1], f[i + 2], f[i + 3], srp);
      ret := ret + 3;
      i := i + 4;
      g := g + 1;
    }
    assert f[..|f|] == f;
  }

  lemma HoldsNothing(t: array<byte>, at: nat)
    requires at <= t.Length
    ensures Holds(t, at, 0, [])
  {
  }

  lemma NoQuads(f: seq<byte>, srp: bool)
    ensures f[..0] == [] && Decode(Values(f[..0], srp)) == []
  {
  }

  function Quad(c0: byte, c1: byte, c2: byte, c3: byte, srp: bool): (q: seq<byte>)
    requires IsData(c0, srp) && IsData(c1, srp) && IsData(c2, srp) && IsData(c3, srp)
    ensures |q| == 3
  {
    [First(Value(c0, srp), Value(c1, srp)), Second(Value(c1, srp), Value(c2, srp)),
     Third(Value(c2, srp), Value(c3, srp))]
  }

  // Three more bytes behind the k written.
  method StoreQuad(srp: bool, t: array<byte>, at: nat, k: nat, c0: byte, c1: byte, c2: byte, c3: byte,
                   ghost written: seq<byte>)
    returns (ok: bool)
    requires at + k + 3 <= t.Length && Holds(t, at, k, written)
    modifies t
    ensures ok <==> IsData(c0, srp) && IsData(c1, srp) && IsData(c2, srp) && IsData(c3, srp)
    ensures ok ==> Holds(t, at, k + 3, written + Quad(c0, c1, c2, c3, srp))
    ensures forall j :: 0 <= j < t.Length && !(at + k <= j < at + k + 3) ==> t[j] == old(t[j])
  {
    hide First, Second, Third, IsData, Value;
    ok := DecodeQuad(srp, t, at + k, c0, c1, c2, c3);
    if ok {
      ghost var q := Quad(c0, c1, c2, c3, srp);
      assert t[at + k] == q[0] && t[at + k + 1] == q[1] && t[at + k + 2] == q[2];
    }
  }

  lemma HoldsSlice(t: array<byte>, at: nat, k: int, bytes: seq<byte>)
    requires Holds(t, at, k, bytes)
    ensures k == |bytes| && t[at..at + k] == bytes
  {
  }

  // The k bytes of t from at on.
  ghost predicate Holds(t: array<byte>, at: nat, k: int, bytes: seq<byte>)
    reads t
  {
    k == |bytes| && at + k <= t.Length && forall j :: 0 <= j < k ==> t[at + j] == bytes[j]
  }

  // The three low bytes of the 24-bit word built from four values.
  method DecodeQuad(srp: bool, t: array<byte>, at: nat, c0: byte, c1: byte, c2: byte, c3: byte) returns (ok: bool)
    requires at + 3 <= t.Length
    modifies t
    ensures ok <==> IsData(c0, srp) && IsData(c1, srp) && IsData(c2, srp) && IsData(c3, srp)
    ensures forall j :: 0 <= j < t.Length && !(at <= j < at + 3) ==> t[j] == old(t[j])
    ensures ok ==> && t[at] == First(Value(c0, srp), Value(c1, srp))
                   && t[at + 1] == Second(Value(c1, srp), Value(c2, srp))
                   && t[at + 2] == Third(Value(c2, srp), Value(c3, srp))
  {
    hide Ascii2Bin, First, Second, Third, QuadWord;
    var a, b, c, d := Ascii2Bin(c0, srp), Ascii2Bin(c1, srp), Ascii2Bin(c2, srp), Ascii2Bin(c3, srp);
    ValueKinds(c0, srp);
    ValueKinds(c1, srp);
    ValueKinds(c2, srp);
    ValueKinds(c3, srp);
    if a & 0x80 != 0 || b & 0x80 != 0 || c & 0x80 != 0 || d & 0x80 != 0 {
      return false;
    }
    var l := QuadWord(a, b, c, d);
    QuadBytes(a, b, c, d);
    t[at] := ((l >> 16) & 0xff) as byte;
    t[at + 1] := ((l >> 8) & 0xff) as byte;
    t[at + 2] := (l & 0xff) as byte;
    ok := true;
  }

  function QuadWord(a: byte, b: byte, c: byte, d: byte): bv32
  {
    ((a as bv32) << 18) | ((b as bv32) << 12) | ((c as bv32) << 6) | (d as bv32)
  }

  lemma QuadBytes(a: byte, b: byte, c: byte, d: byte)
    requires a < 64 && b < 64 && c < 64 && d < 64
    ensures var l := QuadWord(a, b, c, d);
            && ((l >> 16) & 0xff) as byte == First(a, b)
            && ((l >> 8) & 0xff) as byte == Second(b, c)
            && (l & 0xff) as byte == Third(c, d)
  {
  }

  lemma NextQuad(f: seq<byte>, i: nat, srp: bool)
    requires i % 4 == 0 && i + 4 <= |f| && forall k :: 0 <= k < |f| ==> IsData(f[k], srp)
    ensures Decode(Values(f[..i + 4], srp))
         == Decode(Values(f[..i], srp))
            + Quad(f[i], f[i + 1], f[i + 2], f[i + 3], srp)
  {
    hide Decode, First, Second, Third, IsData;
    var g := [Value(f[i], srp), Value(f[i + 1], srp), Value(f[i + 2], srp), Value(f[i + 3], srp)];
    assert Values(f[..i + 4], srp) == Values(f[..i], srp) + g;
    DecodeConcat(Values(f[..i], srp), g);
    DecodeGroup(g[0], g[1], g[2], g[3]);
  }

  // The characters t kept in an update, all but the last n of them decoded.
  ghost predicate Kept(t: seq<byte>, n: nat, eof: nat, srp: bool)
  {
    && n <= 64 && n <= |t| && (|t| - n) % 4 == 0
    && (forall i :: 0 <= i < |t| ==> IsData(t[i], srp))
    && WellPadded(t) && eof == Pads(t)
  }

  lemma KeptMeans(t: seq<byte>, n: nat, eof: nat, srp: bool)
    requires Kept(t, n, eof, srp)
    ensures n <= |t| && WellPadded(t) && forall i :: 0 <= i < |t| ==> IsData(t[i], srp)
  {
    hide IsData, WellPadded, Pads;
  }

  lemma KeptOneMore(t: seq<byte>, n: nat, eof: nat, c: byte, eof': nat, srp: bool)
    requires Kept(t, n, eof, srp) && n < 64
    requires IsData(c, srp) && WellPadded(t + [c]) && eof' == Pads(t + [c])
    ensures n <= |t| && Kept(t + [c], n + 1, eof', srp)
  {
    hide IsData, WellPadded, Pads;
    assert |t + [c]| - (n + 1) == |t| - n;
  }

  lemma FlushRoom(t: nat, n: nat, ret: nat, room: int)
    requires n <= t && n % 4 == 0 && (t - n) % 4 == 0 && 4 * ret <= 3 * (t - n) && 3 * t <= 4 * room
    ensures t % 4 == 0 && ret + Room(n) <= room && 4 * (ret + Room(n)) <= 3 * t
  {
    var q := n / 4;
    assert n == 4 * q;
  }

  lemma KeptBlock(t: seq<byte>, n: nat, eof: nat, srp: bool, ret: nat, room: int)
    requires Kept(t, n, eof, srp) && n % 4 == 0 && 4 * ret <= 3 * (|t| - n) && 3 * |t| <= 4 * room
    ensures Kept(t, 0, eof, srp) && n <= 64 && n <= |t| && (|t| - n) % 4 == 0
    ensures WellPadded(t) && eof == Pads(t) && forall i :: 0 <= i < |t| ==> IsData(t[i], srp)
    ensures ret + Room(n) <= room && 4 * (ret + Room(n)) <= 3 * |t|
  {
    hide IsData, WellPadded, Pads, Room;
    FlushRoom(|t|, n, ret, room);
  }

  // Decode a block of data behind the bytes written so far.
  method DecodeBehind(srp: bool, out: array<byte>, at: nat, ret0: nat, f: seq<byte>) returns (len: int)
    requires at + ret0 + Room(|f|) <= out.Length
    requires |f| % 4 == 0 && forall i :: 0 <= i < |f| ==> IsData(f[i], srp)
    modifies out
    ensures len == Room(|f|) && out[at..at + ret0] == old(out[at..at + ret0])
    ensures out[at + ret0..at + ret0 + len] == Decode(Values(f, srp))
    ensures forall j :: 0 <= j < out.Length && !(at + ret0 <= j < at + ret0 + Room(|f|)) ==> out[j] == old(out[j])
  {
    hide Decode, Values, Room, IsData;
    len := DecodeBlock(srp, out, at + ret0, f);
  }

  lemma Rejoined(out: array<byte>, at: nat, done: nat, len: nat, e: nat)
    requires at + done + len <= out.Length && e <= len
    ensures out[at..at + (done + len - e)]
         == out[at..at + done] + out[at + done..at + done + len][..len - e]
  {
  }

  class EvpEncodeCtx {
    var num: nat              // characters saved from a partial block
    var length: int
    const encData: array<byte>
    var lineNum: int
    var flags: bv32

    constructor ()
      ensures Valid() && num == 0 && flags == 0 && fresh(encData)
    {
      encData := new byte[80];
      num, length, lineNum, flags := 0, 0, 0, 0;
    }

    predicate Srp()
      reads `flags
    {
      flags & SRP_ALPHABET != 0
    }

    ghost function Pending(): seq<byte>
      reads this, encData
      requires num <= encData.Length
    {
      encData[..num]
    }

    // What every call keeps: fewer than 64 characters are saved, all of them symbols or padding.
    ghost predicate Valid()
      reads this, encData
    {
      && encData.Length == 80 && num < 64
      && (forall i :: 0 <= i < num ==> IsData(encData[i], Srp()))
      && WellPadded(Pending())
    }

    method DecodeInit()
      requires encData.Length == 80
      modifies this
      ensures Valid() && num == 0 && flags == 0
    {
      num := 0;
      length := 0;
      lineNum := 0;
      flags := 0;
    }

    // In the middle of an update: of the characters t kept so far, all but the last n are decoded.
    ghost predicate Midway(out: array<byte>, at: nat, t: seq<byte>, n: nat, eof: nat, ret: nat)
      reads `flags, encData, out
    {
      && encData.Length == 80 && Kept(t, n, eof, Srp())
      && encData[..n] == t[|t| - n..]
      && 4 * ret <= 3 * (|t| - n)
      && at + ret <= out.Length
      && out[at..at + ret] == Decode(Symbols(t[..|t| - n], SymbolTable(Srp())))
    }

    // Decode the n saved characters behind the bytes written so far.
    method Flush(out: array<byte>, at: nat, n: nat, eof: nat, ret0: nat, ghost t: seq<byte>, ghost hi: nat)
      returns (ok: bool, ret: nat)
      requires Midway(out, at, t, n, eof, ret0) && out != encData
      requires 0 < n && n % 4 == 0
      requires 3 * |t| <= 4 * (hi - at) && hi <= out.Length
      modifies out
      ensures ok && Midway(out, at, t, 0, eof, ret)
      ensures forall j :: 0 <= j < out.Length && !(at <= j < hi) ==> out[j] == old(out[j])
    {
      hide *;
      BeforeFlush(out, at, n, eof, ret0, t, hi);
      FlushMeaning(t, |t| - n, Srp());
      ghost var done, block := out[at..at + ret0], encData[..n];
      var decodedLen := DecodeBehind(Srp(), out, at, ret0, encData[..n]);
      ok, ret := false, ret0;
      if decodedLen < 0 || eof > decodedLen {
        return;
      }
      ok, ret := true, ret0 + decodedLen - eof;
      AfterFlush(out, at, eof, t, done, out[at + ret0..at + ret0 + decodedLen]);
    }

    // All the padding is in the block of saved characters, and its bytes have room.
    lemma BeforeFlush(out: array<byte>, at: nat, n: nat, eof: nat, ret0: nat, t: seq<byte>, hi: nat)
      requires Midway(out, at, t, n, eof, ret0) && 0 < n && n % 4 == 0
      requires 3 * |t| <= 4 * (hi - at) && hi <= out.Length
      ensures encData.Length == 80 && n <= 64 && n <= |t| && at + ret0 + Room(n) <= hi
      ensures encData[..n] == t[|t| - n..] && forall i :: 0 <= i < n ==> IsData(encData[i], Srp())
      ensures Kept(t, 0, eof, Srp()) && 4 * (ret0 + Room(n)) <= 3 * |t|
      ensures out[at..at + ret0] == Decode(Symbols(t[..|t| - n], SymbolTable(Srp())))
      ensures (|t| - n) % 4 == 0 && n <= |t| && WellPadded(t) && eof == Pads(t)
      ensures forall i :: 0 <= i < |t| ==> IsData(t[i], Srp())
    {
      hide Symbols, Decode, SymbolTable, IsData, WellPadded, Pads, Kept, Room;
      KeptBlock(t, n, eof, Srp(), ret0, hi - at);
      SavedIsData(t, n);
    }

    lemma SavedIsData(t: seq<byte>, n: nat)
      requires n <= encData.Length && n <= |t| && encData[..n] == t[|t| - n..]
      requires forall i :: 0 <= i < |t| ==> IsData(t[i], Srp())
      ensures forall i :: 0 <= i < n ==> IsData(encData[i], Srp())
    {
      hide IsData;
      forall i | 0 <= i < n
        ensures IsData(encData[i], Srp())
      {
        assert encData[..n][i] == t[|t| - n..][i];
      }
    }

    lemma AfterFlush(out: array<byte>, at: nat, eof: nat, t: seq<byte>, done: seq<byte>, bytes: seq<byte>)
      requires encData.Length == 80 && Kept(t, 0, eof, Srp()) && eof <= |bytes|
      requires 4 * (|done| + |bytes|) <= 3 * |t| && at + |done| + |bytes| <= out.Length
      requires out[at..at + |done|] == done && out[at + |done|..at + |done| + |bytes|] == bytes
      requires Decode(Symbols(t, SymbolTable(Srp()))) == done + bytes[..|bytes| - eof]
      ensures Midway(out, at, t, 0, eof, |done| + |bytes| - eof)
    {
      hide Symbols, Decode, SymbolTable, Kept, IsData, WellPadded, Pads;
      assert t[..|t|] == t && t[|t|..] == [] && encData[..0] == [];
      Rejoined(out, at, |done|, |bytes|, eof);
    }

    // Save one more character.
    method Save(c: byte, n: nat, eof: nat, ghost out: array<byte>, ghost at: nat, ghost t: seq<byte>, ghost ret: nat)
      requires Midway(out, at, t, n, Pads(t), ret) && out != encData && n < 64
      requires IsData(c, Srp()) && WellPadded(t + [c]) && eof == Pads(t + [c])
      modifies encData
      ensures Midway(out, at, t + [c], n + 1, eof, ret)
    {
      hide Symbols, Decode, SymbolTable, IsData, WellPadded, Pads, Kept;
      ghost var u := t + [c];
      KeptOneMore(t, n, Pads(t), c, eof, Srp());
      encData[n] := c;
      assert u[..|u| - (n + 1)] == t[..|t| - n];
      assert u[|u| - (n + 1)..] == t[|t| - n..] + [c];
    }

    // One turn of the loop, for a character that is neither an error nor the end of the content.
    method Take(out: array<byte>, at: nat, c: byte, n0: nat, eof0: nat, ret0: nat, ghost t0: seq<byte>, ghost hi: nat)
      returns (ok: bool, n: nat, eof: nat, ret: nat, ghost t: seq<byte>)
      requires Midway(out, at, t0, n0, eof0, ret0) && WellPadded(t0) && eof0 == Pads(t0)
      requires InBlocks(|t0|, n0) && n0 < 64 && out != encData
      requires Ascii2Bin(c, Srp()) != B64_ERROR && at + Room(|t0| + 1) <= hi <= out.Length
      modifies encData, out
      ensures ok <==> !IsData(c, Srp()) || WellPadded(t0 + [c])
      ensures ok ==> t == (if IsData(c, Srp()) then t0 + [c] else t0) && eof == Pads(t)
      ensures !ok ==> t == t0
      ensures WellPadded(t)
      ensures Midway(out, at, t, n, Pads(t), ret) && InBlocks(|t|, n) && n < 64
      ensures forall j :: 0 <= j < out.Length && !(at <= j < hi) ==> out[j] == old(out[j])
    {
      hide Midway, Pads, Ascii2Bin, NotBase64, WellPadded, InBlocks, Room;
      ok, n, eof, ret, t := true, n0, eof0, ret0, t0;
      OneMoreInBlocks(|t0|, n0);
      var v := Ascii2Bin(c, Srp());
      ValueKinds(c, Srp());
      PadsSnoc(t, c);
      if c == PAD {
        eof := eof + 1;
      } else if eof > 0 && !NotBase64(v) {
        ok := false;  // more data after padding
        return;
      }
      if eof > 2 {
        ok := false;
        return;
      }
      if !NotBase64(v) {
        // The buffer is emptied as soon as it holds 64 characters.
        if n >= 64 {
          assert false;
          ok := false;
          return;
        }
        Save(c, n, eof, out, at, t, ret);
        n, t := n + 1, t + [c];
      }
      if n == 64 {
        RoomOfWhole(|t|);
        ok, ret := Flush(out, at, n, eof, ret, t, hi);
        n := 0;
      }
    }

    // The loop over the input.  The characters kept so far, `t`, are returned for the proof.
    method Scan(out: array<byte>, at: nat, text: seq<byte>, eof0: nat, ghost p: seq<byte>, ghost hi: nat)
      returns (status: Status, n: nat, eof: nat, ret: nat, ghost t: seq<byte>)
      requires Midway(out, at, p, num, eof0, 0) && eof0 == Pads(p) && WellPadded(p) && num == |p| < 64 && out != encData
      requires at + Room(|p| + |text|) <= hi <= out.Length
      modifies encData, out
      ensures n < 64 && Midway(out, at, t, n, Pads(t), ret) && InBlocks(|t|, n) && |t| <= |p| + |text|
      ensures forall j :: 0 <= j < out.Length && !(at <= j < hi) ==> out[j] == old(out[j])
      ensures Outcome(p, text, Srp(), status, t)
      ensures status != Rejected ==> eof == Pads(t)
    {
      hide Midway, WellPadded, Pads, Ascii2Bin, NotBase64, IsData, InBlocks, Room, Srp, Seen, Outcome;
      ghost var srp := Srp();
      n, eof, ret, t := num, eof0, 0, p;
      var i := 0;
      SeenNothing(p, text, srp);
      NoBlocks(|p|);
      while i < |text|
        invariant i <= |text| && n < 64 && InBlocks(|t|, n) && |t| <= |p| + i
        invariant Srp() == srp && Seen(p, text, srp, i, t)
        invariant Midway(out, at, t, n, eof, ret) && eof == Pads(t) && WellPadded(t)
        invariant forall j :: 0 <= j < out.Length && !(at <= j < hi) ==> out[j] == old(out[j])
      {
        var c := text[i];
        var v := Ascii2Bin(c, Srp());
        SeenNext(p, text, srp, i, t);
        if v == B64_ERROR {
          status := Rejected;
          return;
        }
        if v == B64_EOF {
          status := EndOfContent;
          EndIsNoData(c, srp);
          return;
        }
        RoomGrows(|t| + 1, |p| + |text|);
        var ok;
        ok, n, eof, ret, t := Take(out, at, c, n, eof, ret, t, hi);
        if !ok {
          status := Rejected;
          return;
        }
        i := i + 1;
      }
      SeenAll(p, text, srp, t);
      status := Scanned;
    }

    // The end of an update: decode the saved characters if they form whole blocks.
    method EndUpdate(out: array<byte>, at: nat, eofSeen: bool, n0: nat, eof: nat, ret0: nat, ghost t: seq<byte>,
                     ghost hi: nat)
      returns (rv: int, n: nat, ret: nat)
      requires Midway(out, at, t, n0, eof, ret0) && eof == Pads(t) && out != encData
      requires InBlocks(|t|, n0) && at + Room(|t|) <= hi <= out.Length
      modifies out
      ensures Midway(out, at, t, n, eof, ret) && n == Carried(t)
      ensures rv == if n != 0 && eofSeen then -1 else if eofSeen || (n == 0 && eof > 0) then 0 else 1
      ensures forall j :: 0 <= j < out.Length && !(at <= j < hi) ==> out[j] == old(out[j])
    {
      hide Midway, Pads, Carried, InBlocks, Room;
      rv, n, ret := -1, n0, ret0;
      CarriedIs(t, n0);
      if n > 0 {
        if n % 4 == 0 {
          var ok;
          RoomOfWhole(|t|);
          ok, ret := Flush(out, at, n, eof, ret, t, hi);
          n := 0;
        } else if eofSeen {
          return;
        }
      }
      rv := if eofSeen || (n == 0 && eof > 0) then 0 else 1;
    }

    // 0 for the last line, 1 for a full line, -1 for an error; outl bytes are written at out[at..].
    method DecodeUpdate(out: array<byte>, at: nat, text: seq<byte>, ghost hi: nat) returns (rv: int, outl: nat)
      requires Valid() && out != encData && at + Room(num + |text|) <= hi <= out.Length
      modifies `num, encData, out
      ensures Valid() && at + outl <= out.Length && 4 * outl <= 3 * (old(num) + |text|)
      ensures UpdateMeaning(Srp(), old(Pending()), text, rv, out[at..at + outl], Pending())
      ensures forall j :: 0 <= j < out.Length && !(at <= j < hi) ==> out[j] == old(out[j])
    {
      hide Symbols, Decode, SymbolTable, IsData, WellPadded, Pads, Midway, NoErrors, Ascii2Bin, Data, UpdateMeaning,
        Room;
      ghost var p, srp := Pending(), Srp();
      var eof := CountPads();
      if |text| == 0 {
        EmptyUpdate(srp, p);
        assert out[at..at + 0] == [];
        return 0, 0;
      }
      Begin(out, at);
      var status, n;
      ghost var t;
      status, n, eof, outl, t := Scan(out, at, text, eof, p, hi);
      rv := -1;
      if status != Rejected {
        RoomGrows(|t|, |p| + |text|);
        rv, n, outl := EndUpdate(out, at, status == EndOfContent, n, eof, outl, t, hi);
      }
      num := n;
      Finish(out, at, t, n, outl);
      Written(out, at, t, n, outl);
      if status == Rejected {
        RestOfBuffer(t, n, out[at..at + outl], srp);
      }
      UpdateMeans(srp, p, text, status, t, n, rv, out[at..at + outl]);
    }

    // The padding at the end of the saved characters; only the last two are looked at.
    method CountPads() returns (eof: nat)
      requires Valid()
      ensures eof == Pads(Pending()) && WellPadded(Pending())
      ensures forall i :: 0 <= i < |Pending()| ==> IsData(Pending()[i], Srp())
    {
      eof := 0;
      if num > 0 && encData[num - 1] == PAD {
        eof := 1;
        if num > 1 && encData[num - 2] == PAD {
          eof := 2;
        }
      }
      ghost var p := Pending();
      assert eof <= Pads(p);
    }

    lemma Begin(out: array<byte>, at: nat)
      requires Valid() && at <= out.Length
      ensures Midway(out, at, Pending(), num, Pads(Pending()), 0)
    {
      hide IsData, WellPadded, SymbolTable, Decode, Symbols;
      var p := Pending();
      assert p[..|p| - num] == [];
      NothingDecoded(Srp());
    }

    lemma Finish(out: array<byte>, at: nat, t: seq<byte>, n: nat, ret: nat)
      requires Midway(out, at, t, n, Pads(t), ret) && n < 64 && num == n
      ensures Valid() && Pending() == t[|t| - n..]
    {
      hide *;
      SavedSoFar(out, at, t, n, Pads(t), ret);
      KeptMeans(t, n, Pads(t), Srp());
      PaddedSuffix(t, |t| - n);
      SavedIsData(t, n);
      SavedIsValid(t[|t| - n..]);
    }

    lemma SavedSoFar(out: array<byte>, at: nat, t: seq<byte>, n: nat, eof: nat, ret: nat)
      requires Midway(out, at, t, n, eof, ret)
      ensures encData.Length == 80 && n <= 64 && n <= |t| && Kept(t, n, eof, Srp()) && encData[..n] == t[|t| - n..]
    {
      hide Symbols, Decode, SymbolTable, IsData, WellPadded, Pads;
    }

    lemma SavedIsValid(p: seq<byte>)
      requires encData.Length == 80 && num < 64 && encData[..num] == p
      requires WellPadded(p) && forall i :: 0 <= i < num ==> IsData(encData[i], Srp())
      ensures Valid() && Pending() == p
    {
      hide IsData, WellPadded;
    }

    lemma Written(out: array<byte>, at: nat, t: seq<byte>, n: nat, ret: nat)
      requires Midway(out, at, t, n, Pads(t), ret)
      ensures n <= |t| && at + ret <= out.Length && 4 * ret <= 3 * |t|
      ensures out[at..at + ret] == Decode(Symbols(t[..|t| - n], SymbolTable(Srp())))
    {
      hide Symbols, Decode, SymbolTable, IsData, WellPadded, Pads;
    }

    method DecodeFinal(out: array<byte>, at: nat) returns (rv: int, outl: nat)
      requires Valid() && out != encData && at + Room(num) <= out.Length
      modifies `num, out
      ensures Valid() && at + outl <= out.Length
      ensures rv == if old(num) % 4 == 0 then 1 else -1
      ensures old(num) == 0 || rv == -1 ==> outl == 0
      ensures rv == 1 ==> out[at..at + outl] == Decode(Values(old(Pending()), Srp()))
      ensures num == if rv == 1 then 0 else old(num)
      ensures forall j :: 0 <= j < at ==> out[j] == old(out[j])
    {
      hide Decode, WellPadded, IsData;
      outl := 0;
      rv := 1;
      if num != 0 {
        var f := encData[..num];
        assert forall i :: 0 <= i < |f| ==> IsData(f[i], Srp());
        var i := DecodeBlock(Srp(), out, at, f);
        if i < 0 {
          return -1, 0;
        }
        num := 0;
        outl := i;
        NothingDecoded(false);
      }
    }
  }

  // ----- Whole inputs -----

  // One update and the final call on a whole text.  The program exits instead of returning false.
  method Base64Decode(dst: array<byte>, src: seq<byte>) returns (ok: bool, len: nat)
    requires Room(|src|) <= dst.Length
    modifies dst
    ensures var content := src[..ContentLength(src, false)];
            var t := Data(content, false);
            && (ok <==> NoErrors(content, false) && WellPadded(t) && |t| % 4 == 0)
            && (ok ==> len <= dst.Length && dst[..len] == Decode(Symbols(t, SymbolTable(false))))
  {
    hide Symbols, Decode, SymbolTable, IsData, WellPadded, Data, NoErrors, ContentLength, UpdateMeaning, Room;
    var ctx := new EvpEncodeCtx();
    ctx.DecodeInit();
    assert ctx.Pending() == [];
    var rv;
    rv, len := ctx.DecodeUpdate(dst, 0, src, Room(|src|));
    WholeText(src, rv, dst[0..len], ctx.Pending());
    ok := false;
    if rv >= 0 {
      RoomForRest(src, rv, dst[0..len], ctx.Pending());
      var rest;
      rv, rest := ctx.DecodeFinal(dst, len);
      ok := rv >= 0;
      len := len + rest;
    }
  }

  // A run: the context is initialised, updated with each chunk in turn and finished.  The bytes
  // written never lag 64 characters behind, and the output and the verdict of a complete stream do
  // not depend on how it was cut.
  method DecodeChunks(chunks: seq<seq<byte>>, out: array<byte>) returns (ok: bool, len: nat)
    requires forall i :: 0 <= i < |chunks| ==> CleanText(chunks[i], false)
    requires Room(|Joined(chunks)|) <= out.Length
    modifies out
    ensures var s := Symbols(Joined(chunks), SymbolTable(false));
            && (ok <==> |s| % 4 == 0)
            && len <= out.Length && len <= 3 * |s| / 4
            && out[..len] == Decode(s)[..len]
            && (ok ==> len == 3 * |s| / 4)
            && 3 * |s| / 4 < len + 48
  {
    hide Decode, Symbols, SymbolTable, IsData, WellPadded, CleanText, InStream, UpdateMeaning, Data, Room;
    var ctx := new EvpEncodeCtx();
    len := 0;
    ghost var seen := [];
    ghost var hi := Room(|Joined(chunks)|);
    StartStream();
    assert ctx.Pending() == [] && out[..0] == [];
    for i := 0 to |chunks|
      invariant ctx.Valid() && !ctx.Srp() && fresh(ctx.encData) && fresh(ctx)
      invariant len <= out.Length && seen == Data(Joined(chunks[..i]), false)
      invariant InStream(seen, ctx.Pending(), out[..len], false)
    {
      JoinedNext(chunks, i);
      DataConcat(Joined(chunks[..i]), chunks[i], false);
      JoinedPrefix(chunks, i + 1);
      RoomGrows(|seen| + |chunks[i]|, |Joined(chunks)|);
      len := DecodeChunk(ctx, chunks[i], out, len, seen, hi);
      seen := seen + Data(chunks[i], false);
    }
    assert chunks[..|chunks|] == chunks;
    EndStream(Joined(chunks), ctx.Pending(), out[..len], false);
    RoomGrows(|seen|, |Joined(chunks)|);
    StreamRoom(seen, ctx.Pending(), out[..len], hi, 0, false);
    FinalRoom(|Symbols(Joined(chunks), SymbolTable(false))|, ctx.num);
    ghost var done := out[..len];
    var rv, rest := ctx.DecodeFinal(out, len);
    assert out[..len] == done;
    ok := rv >= 0;
    len := len + rest;
  }

  lemma FinalRoom(s: nat, p: nat)
    requires p <= s && s % 4 == p % 4 && p < 64 && (p % 4 == 0 ==> p == 0)
    ensures var len := 3 * ((s - p) / 4);
            && len <= 3 * s / 4 < len + 48
            && (s % 4 == 0 ==> len == 3 * s / 4)
  {
  }

  method DecodeChunk(ctx: EvpEncodeCtx, chunk: seq<byte>, out: array<byte>, at: nat, ghost seen: seq<byte>,
                     ghost hi: nat)
    returns (len: nat)
    requires ctx.Valid() && !ctx.Srp() && out != ctx.encData && CleanText(chunk, false)
    requires at <= out.Length && InStream(seen, ctx.Pending(), out[..at], false)
    requires Room(|seen| + |chunk|) <= hi <= out.Length
    modifies ctx`num, ctx.encData, out
    ensures ctx.Valid() && !ctx.Srp() && at <= len <= out.Length
    ensures InStream(seen + Data(chunk, false), ctx.Pending(), out[..len], false)
  {
    hide Decode, Symbols, SymbolTable, IsData, WellPadded, CleanText, InStream, UpdateMeaning, Data, Room;
    ghost var p, done := ctx.Pending(), out[..at];
    StreamRoom(seen, p, done, hi, |chunk|, false);
    var rv, outl := ctx.DecodeUpdate(out, at, chunk, hi);
    len := at + outl;
    assert out[..len] == done + out[at..len];
    StreamStep(seen, p, done, chunk, rv, out[at..len], ctx.Pending(), false);
  }

  lemma StartStream()
    ensures InStream([], [], [], false) && Data([], false) == []
  {
    hide SymbolTable;
  }

  // The symbols seen so far leave room for the rest of the text.
  lemma StreamRoom(seen: seq<byte>, p: seq<byte>, done: seq<byte>, hi: nat, more: nat, srp: bool)
    requires InStream(seen, p, done, srp) && Room(|seen| + more) <= hi
    ensures |done| + Room(|p| + more) <= hi
  {
    hide Symbols, Decode, SymbolTable, IsData;
    SymbolsAreValues(seen[..|seen| - |p|], srp);
    RoomAdds(|seen| - |p|, |p| + more);
  }

  lemma EndStream(text: seq<byte>, p: seq<byte>, done: seq<byte>, srp: bool)
    requires InStream(Data(text, srp), p, done, srp)
    ensures var s := Symbols(text, SymbolTable(srp));
            && |p| <= |s| && |s| % 4 == |p| % 4 && |p| < 64 && (|p| % 4 == 0 ==> p == [])
            && |done| == 3 * ((|s| - |p|) / 4) && done == Decode(s)[..|done|]
  {
    hide Decode, SymbolTable, IsData, Symbols, Values, Data;
    var d := Data(text, srp);
    var f := |d| - |p|;
    DataKeepsSymbols(text, srp);
    SymbolsAreValues(d, srp);
    SymbolsAreValues(d[..f], srp);
    ValuesPrefix(d, f, srp);
    DecodePrefix(Values(d, srp), f);
    QuarterOf(|d|, |p|);
  }

  lemma QuarterOf(n: nat, p: nat)
    requires p <= n && (n - p) % 4 == 0
    ensures n % 4 == p % 4 && 3 * (n - p) / 4 == 3 * ((n - p) / 4)
  {
    var q := (n - p) / 4;
    assert n == p + 4 * q;
    SameRest(p, q);
    WholeQuarters(q);
  }

  lemma SameRest(p: nat, q: nat)
    ensures (p + 4 * q) % 4 == p % 4
  {
    assert p == 4 * (p / 4) + p % 4;
    assert p + 4 * q == 4 * (p / 4 + q) + p % 4;
  }

  lemma WholeQuarters(q: nat)
    ensures 3 * (4 * q) / 4 == 3 * q
  {
  }

  lemma {:induction false} DataKeepsSymbols(text: seq<byte>, srp: bool)
    ensures Symbols(Data(text, srp), SymbolTable(srp)) == Symbols(text, SymbolTable(srp))
  {
    hide Symbols, SymbolTable, IsData;
    if text != [] {
      var n := |text| - 1;
      var d, c, table := Data(text[..n], srp), text[n], SymbolTable(srp);
      DataKeepsSymbols(text[..n], srp);
      SymbolsConcat(d, if IsData(c, srp) then [c] else [], table);
      SymbolsConcat(text[..n], [c], table);
      assert text == text[..n] + [c];
      DataOfOne(c, srp);
    }
  }

  lemma DataOfOne(c: byte, srp: bool)
    ensures Symbols(if IsData(c, srp) then [c] else [], SymbolTable(srp)) == Symbols([c], SymbolTable(srp))
  {
    hide Ascii2Bin;
    var table := SymbolTable(srp);
    if !IsData(c, srp) {
      assert c != PAD && table(c) >= 64;
      assert [c][..0] == [];
    }
  }
}
