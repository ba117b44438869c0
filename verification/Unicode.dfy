/**
  * UTF-16 (sections 2.1 and 2.2 of RFC 2781) and UTF-8 (section 3 of RFC 3629).
  */
module Unicode {

  type Octet = b: int | 0 <= b < 0x100
  type CodeUnit = u: int | 0 <= u < 0x1_0000
  type ScalarValue = v: int | 0 <= v < 0xD800 || 0xE000 <= v < 0x11_0000

  // ----- UTF-16 -----

  predicate IsHigh(u: CodeUnit) { 0xD800 <= u < 0xDC00 }
  predicate IsLow(u: CodeUnit) { 0xDC00 <= u < 0xE000 }

  // The number of code units of the first character, 0 if it is an unpaired surrogate.
  function FirstLength(text: seq<CodeUnit>): (k: nat)
    requires text != []
    ensures k <= |text| && k <= 2
  {
    if IsHigh(text[0]) then (if |text| > 1 && IsLow(text[1]) then 2 else 0)
    else if IsLow(text[0]) then 0
    else 1
  }

  function FirstScalar(text: seq<CodeUnit>): ScalarValue
    requires text != [] && FirstLength(text) > 0
  {
    if FirstLength(text) == 1 then text[0]
    else (text[0] as int - 0xD800) * 0x400 + (text[1] as int - 0xDC00) + 0x1_0000
  }

  // The length of the longest prefix that consists of whole characters, that is, the position of
  // the first unpaired surrogate, if any.
  function ValidLength(text: seq<CodeUnit>): (v: nat)
    ensures v <= |text|
  {
    if text == [] || FirstLength(text) == 0 then 0
    else FirstLength(text) + ValidLength(text[FirstLength(text)..])
  }

  predicate WellFormed(text: seq<CodeUnit>) { ValidLength(text) == |text| }

  // ----- UTF-8 -----

  function Utf8(v: ScalarValue): (b: seq<Octet>)
    ensures |b| == if v < 0x80 then 1 else if v < 0x800 then 2 else if v < 0x1_0000 then 3 else 4
  {
    if v < 0x80 then [v]
    else if v < 0x800 then [0xC0 + v / 0x40, 0x80 + v % 0x40]
    else if v < 0x1_0000 then [0xE0 + v / 0x1000, 0x80 + v / 0x40 % 0x40, 0x80 + v % 0x40]
    else [0xF0 + v / 0x4_0000, 0x80 + v / 0x1000 % 0x40, 0x80 + v / 0x40 % 0x40, 0x80 + v % 0x40]
  }

  predicate IsContinuation(b: Octet) { 0x80 <= b < 0xC0 }

  // The length announced by a leading byte; 0 for a continuation byte and the unused values.
  function LeadLength(b: Octet): nat
  {
    if b < 0x80 then 1 else if 0xC2 <= b < 0xE0 then 2 else if 0xE0 <= b < 0xF0 then 3
    else if 0xF0 <= b < 0xF5 then 4 else 0
  }

  // The bits of the bytes behind their markers, highest first.
  function Payload(b: seq<Octet>): int
    requires 1 <= |b| <= 4
  {
    if |b| == 1 then b[0]
    else if |b| == 2 then (b[0] as int - 0xC0) * 0x40 + (b[1] as int - 0x80)
    else if |b| == 3 then ((b[0] as int - 0xE0) * 0x40 + (b[1] as int - 0x80)) * 0x40 + (b[2] as int - 0x80)
    else
      (((b[0] as int - 0xF0) * 0x40 + (b[1] as int - 0x80)) * 0x40 + (b[2] as int - 0x80)) * 0x40
      + (b[3] as int - 0x80)
  }

  // Each character is announced by its first byte and can be read back.
  lemma {:induction false} Utf8Layout(v: ScalarValue)
    ensures var b := Utf8(v);
            && LeadLength(b[0]) == |b|
            && (forall i :: 1 <= i < |b| ==> IsContinuation(b[i]))
            && Payload(b) == v
  {
    if v >= 0x1_0000 {
      FourDigits(v);
    }
  }

  lemma FourDigits(v: int)
    requires 0 <= v
    ensures ((v / 0x4_0000 * 0x40 + v / 0x1000 % 0x40) * 0x40 + v / 0x40 % 0x40) * 0x40 + v % 0x40 == v
  {
    assert v / 0x40 == v / 0x1000 * 0x40 + v / 0x40 % 0x40;
    assert v / 0x1000 == v / 0x4_0000 * 0x40 + v / 0x1000 % 0x40;
  }

  // ----- UTF-16 to UTF-8 -----

  // The UTF-8 form of the leading whole characters of a text.
  function Transcode(text: seq<CodeUnit>): seq<Octet>
  {
    if text == [] || FirstLength(text) == 0 then []
    else Utf8(FirstScalar(text)) + Transcode(text[FirstLength(text)..])
  }

  lemma {:induction false} WellFormedConcat(a: seq<CodeUnit>, b: seq<CodeUnit>)
    requires WellFormed(a)
    ensures ValidLength(a + b) == |a| + ValidLength(b)
    ensures Transcode(a + b) == Transcode(a) + Transcode(b)
  {
    if a == [] {
      assert a + b == b;
    } else {
      var k := FirstLength(a);
      assert (a + b)[k..] == a[k..] + b;
      WellFormedConcat(a[k..], b);
    }
  }

  lemma {:induction false} ValidPrefix(text: seq<CodeUnit>)
    ensures WellFormed(text[..ValidLength(text)])
  {
    if text != [] && FirstLength(text) > 0 {
      var k, v := FirstLength(text), ValidLength(text);
      ValidPrefix(text[k..]);
      assert text[..v][k..] == text[k..][..v - k];
      assert FirstLength(text[..v]) == k;
    }
  }

  lemma {:induction false} TranscodeBound(text: seq<CodeUnit>)
    ensures |Transcode(text)| <= 3 * ValidLength(text)
    ensures ValidLength(text) <= |Transcode(text)|
  {
    if text != [] && FirstLength(text) > 0 {
      TranscodeBound(text[FirstLength(text)..]);
    }
  }

  // ----- As many characters as fit -----

  // The number of code units of the longest run of leading whole characters with room for their
  // UTF-8 form.
  function Fitting(text: seq<CodeUnit>, capacity: nat): (n: nat)
    ensures n <= |text|
  {
    if text == [] || FirstLength(text) == 0 || |Utf8(FirstScalar(text))| > capacity then 0
    else
      var k := FirstLength(text);
      k + Fitting(text[k..], capacity - |Utf8(FirstScalar(text))|)
  }

  lemma {:induction false} FittingFits(text: seq<CodeUnit>, capacity: nat)
    ensures var n := Fitting(text, capacity);
            && n <= ValidLength(text) && WellFormed(text[..n])
            && |Transcode(text[..n])| <= capacity
            && Transcode(text[..n]) <= Transcode(text)
  {
    var n := Fitting(text, capacity);
    if n > 0 {
      var k := FirstLength(text);
      FittingFits(text[k..], capacity - |Utf8(FirstScalar(text))|);
      assert text[..n][k..] == text[k..][..n - k];
      assert FirstLength(text[..n]) == k && FirstScalar(text[..n]) == FirstScalar(text);
    }
  }

  // No longer run of whole characters fits.
  lemma {:induction false} FittingIsLongest(text: seq<CodeUnit>, capacity: nat, p: nat)
    requires p <= |text| && WellFormed(text[..p]) && |Transcode(text[..p])| <= capacity
    ensures p <= Fitting(text, capacity)
  {
    if p > 0 {
      var k := FirstLength(text[..p]);
      assert FirstLength(text) == k && FirstScalar(text[..p]) == FirstScalar(text);
      assert text[..p][k..] == text[k..][..p - k];
      FittingIsLongest(text[k..], capacity - |Utf8(FirstScalar(text))|, p - k);
    }
  }

  lemma {:induction false} FittingConcat(a: seq<CodeUnit>, b: seq<CodeUnit>, capacity: nat)
    requires WellFormed(a) && |Transcode(a)| <= capacity
    ensures Fitting(a + b, capacity) == |a| + Fitting(b, capacity - |Transcode(a)|)
  {
    if a == [] {
      assert a + b == b;
    } else {
      var k := FirstLength(a);
      assert (a + b)[k..] == a[k..] + b;
      assert FirstLength(a + b) == k && FirstScalar(a + b) == FirstScalar(a);
      FittingConcat(a[k..], b, capacity - |Utf8(FirstScalar(a))|);
    }
  }

  // ----- UTF-8 texts -----

  function Utf8All(vs: seq<ScalarValue>): seq<Octet>
  {
    if vs == [] then [] else Utf8(vs[0]) + Utf8All(vs[1..])
  }

  lemma Utf8Cons(v: ScalarValue, vs: seq<ScalarValue>)
    ensures Utf8All([v] + vs) == Utf8(v) + Utf8All(vs)
  {
    assert ([v] + vs)[1..] == vs;
  }

  lemma {:induction false} Utf8Concat(a: seq<ScalarValue>, b: seq<ScalarValue>)
    ensures Utf8All(a + b) == Utf8All(a) + Utf8All(b)
  {
    if a == [] {
      assert a + b == b;
    } else {
      assert (a + b)[1..] == a[1..] + b;
      Utf8Concat(a[1..], b);
    }
  }

  datatype Option<T> = None | Some(value: T)

  // The length of a well-formed first character, 0 if there is none: the checks of the scalar
  // converters.
  function FirstBytes(data: seq<Octet>): (k: nat)
    ensures k <= |data| && k <= 4
  {
    if data == [] then 0
    else if data[0] < 0x80 then 1
    else if 0xC0 <= data[0] < 0xE0 then
      if |data| < 2 || !IsContinuation(data[1]) || Payload(data[..2]) < 0x80 then 0 else 2
    else if 0xE0 <= data[0] < 0xF0 then
      if |data| < 3 || !IsContinuation(data[1]) || !IsContinuation(data[2]) then 0
      else if Payload(data[..3]) < 0x800 || 0xD7FF < Payload(data[..3]) < 0xE000 then 0 else 3
    else if 0xF0 <= data[0] < 0xF8 then
      if |data| < 4 || !IsContinuation(data[1]) || !IsContinuation(data[2]) || !IsContinuation(data[3]) then 0
      else if Payload(data[..4]) <= 0xFFFF || 0x10FFFF < Payload(data[..4]) then 0 else 4
    else 0
  }

  function DecodeUtf8(data: seq<Octet>): Option<seq<ScalarValue>>
  {
    if data == [] then Some([])
    else
      var k := FirstBytes(data);
      if k == 0 then None
      else
        match DecodeUtf8(data[k..])
        case None => None
        case Some(rest) => Some([Payload(data[..k])] + rest)
  }

  lemma FirstBytesOfUtf8(v: ScalarValue, rest: seq<Octet>)
    ensures FirstBytes(Utf8(v) + rest) == |Utf8(v)|
  {
    hide Payload;
    Utf8Layout(v);
    var data := Utf8(v) + rest;
    assert data[..|Utf8(v)|] == Utf8(v);
  }

  lemma Digits(a: int, b: int, c: int, d: int)
    requires 0 <= a && 0 <= b < 0x40 && 0 <= c < 0x40 && 0 <= d < 0x40
    ensures var v := ((a * 0x40 + b) * 0x40 + c) * 0x40 + d;
            && v / 0x4_0000 == a && v / 0x1000 % 0x40 == b && v / 0x40 % 0x40 == c && v % 0x40 == d
            && v / 0x1000 == a * 0x40 + b
            && v / 0x40 == (a * 0x40 + b) * 0x40 + c
  {
    var x, y := a * 0x40 + b, (a * 0x40 + b) * 0x40 + c;
    LastDigit(y, d);
    LastDigit(x, c);
    LastDigit(a, b);
    assert x * 0x1000 <= y * 0x40 + d < x * 0x1000 + 0x1000;
    assert a * 0x4_0000 <= y * 0x40 + d < a * 0x4_0000 + 0x4_0000;
  }

  lemma LastDigit(x: int, d: int)
    requires 0 <= d < 0x40
    ensures (x * 0x40 + d) / 0x40 == x && (x * 0x40 + d) % 0x40 == d
  {
  }

  lemma FirstBytesAreUtf8(data: seq<Octet>)
    requires FirstBytes(data) > 0
    ensures var v := Payload(data[..FirstBytes(data)]);
            (0 <= v < 0xD800 || 0xE000 <= v < 0x11_0000) && Utf8(v) == data[..FirstBytes(data)]
  {
    var k := FirstBytes(data);
    if k == 2 {
      TwoBytes(data);
    } else if k == 3 {
      ThreeBytes(data);
    } else if k == 4 {
      FourBytes(data);
    }
  }

  lemma TwoBytes(data: seq<Octet>)
    requires FirstBytes(data) == 2
    ensures 0 <= Payload(data[..2]) < 0xD800 && Utf8(Payload(data[..2])) == data[..2]
  {
    Digits(0, 0, data[0] as int - 0xC0, data[1] as int - 0x80);
  }

  lemma ThreeBytes(data: seq<Octet>)
    requires FirstBytes(data) == 3
    ensures var v := Payload(data[..3]); (0 <= v < 0xD800 || 0xE000 <= v < 0x11_0000) && Utf8(v) == data[..3]
  {
    Digits(0, data[0] as int - 0xE0, data[1] as int - 0x80, data[2] as int - 0x80);
  }

  lemma FourBytes(data: seq<Octet>)
    requires FirstBytes(data) == 4
    ensures var v := Payload(data[..4]); 0xE000 <= v < 0x11_0000 && Utf8(v) == data[..4]
  {
    Digits(data[0] as int - 0xF0, data[1] as int - 0x80, data[2] as int - 0x80, data[3] as int - 0x80);
  }

  // The converters accept exactly the UTF-8 forms of scalar values, and read the values back.
  lemma {:induction false} DecodeOfEncode(vs: seq<ScalarValue>)
    ensures DecodeUtf8(Utf8All(vs)) == Some(vs)
  {
    if vs != [] {
      hide Utf8, Payload, FirstBytes;
      var rest := Utf8All(vs[1..]);
      FirstBytesOfUtf8(vs[0], rest);
      Utf8Layout(vs[0]);
      var data, k := Utf8All(vs), |Utf8(vs[0])|;
      assert data == Utf8(vs[0]) + rest && data[k..] == rest && data[..k] == Utf8(vs[0]);
      DecodeOfEncode(vs[1..]);
      assert [vs[0]] + vs[1..] == vs;
    }
  }

  lemma {:induction false} EncodeOfDecode(data: seq<Octet>)
    requires DecodeUtf8(data).Some?
    ensures Utf8All(DecodeUtf8(data).value) == data
  {
    hide Utf8, Utf8All, DecodeUtf8;
    NoBytes();
    if data != [] {
      var v, k := DecodeFirst(data);
      EncodeOfDecode(data[k..]);
      Utf8Cons(v, DecodeUtf8(data[k..]).value);
      assert data == data[..k] + data[k..];
    }
  }

  lemma NoBytes()
    ensures DecodeUtf8([]) == Some([]) && Utf8All([]) == []
  {
  }

  lemma DecodeFirst(data: seq<Octet>) returns (v: ScalarValue, k: nat)
    requires data != [] && DecodeUtf8(data).Some?
    ensures 0 < k <= |data| && Utf8(v) == data[..k] && DecodeUtf8(data[k..]).Some?
    ensures DecodeUtf8(data).value == [v] + DecodeUtf8(data[k..]).value
  {
    hide Payload, FirstBytes, Utf8;
    k := FirstBytes(data);
    FirstBytesAreUtf8(data);
    v := Payload(data[..k]);
  }

  // ----- Character boundaries -----

  // The number of characters that lie below position c, and where they end.
  function CharactersBelow(vs: seq<ScalarValue>, c: nat): (n: nat)
    ensures n <= |vs|
  {
    if vs == [] || c < |Utf8(vs[0])| then 0 else 1 + CharactersBelow(vs[1..], c - |Utf8(vs[0])|)
  }

  function BoundaryBelow(vs: seq<ScalarValue>, c: nat): (b: nat)
    ensures b <= c
  {
    if vs == [] || c < |Utf8(vs[0])| then 0 else |Utf8(vs[0])| + BoundaryBelow(vs[1..], c - |Utf8(vs[0])|)
  }

  lemma BoundarySplits(vs: seq<ScalarValue>, c: nat)
    requires c <= |Utf8All(vs)|
    ensures var n, b := CharactersBelow(vs, c), BoundaryBelow(vs, c);
            && b <= |Utf8All(vs)|
            && Utf8All(vs[..n]) == Utf8All(vs)[..b] && Utf8All(vs[n..]) == Utf8All(vs)[b..]
            && (c == |Utf8All(vs)| ==> b == c && n == |vs|)
  {
    hide Utf8All;
    BelowIsPrefix(vs, c);
    Utf8Concat(vs[..CharactersBelow(vs, c)], vs[CharactersBelow(vs, c)..]);
    assert vs[..CharactersBelow(vs, c)] + vs[CharactersBelow(vs, c)..] == vs;
    if c == |Utf8All(vs)| {
      AllIsBelow(vs);
    }
  }

  lemma {:induction false} BelowIsPrefix(vs: seq<ScalarValue>, c: nat)
    ensures |Utf8All(vs[..CharactersBelow(vs, c)])| == BoundaryBelow(vs, c)
  {
    if vs != [] && c >= |Utf8(vs[0])| {
      hide Utf8, Utf8All;
      var k, rest := |Utf8(vs[0])|, vs[1..];
      BelowIsPrefix(rest, c - k);
      var n := CharactersBelow(vs, c);
      assert vs[..n] == [vs[0]] + rest[..n - 1];
      Utf8Cons(vs[0], rest[..n - 1]);
    }
  }

  lemma {:induction false} AllIsBelow(vs: seq<ScalarValue>)
    ensures CharactersBelow(vs, |Utf8All(vs)|) == |vs| && BoundaryBelow(vs, |Utf8All(vs)|) == |Utf8All(vs)|
  {
    if vs != [] {
      hide Utf8;
      AllIsBelow(vs[1..]);
    }
  }

  // It is the largest boundary: every cut between two characters at or below c is at or below it.
  lemma {:induction false} BoundaryIsLargest(vs: seq<ScalarValue>, c: nat, i: nat)
    requires i <= |vs| && |Utf8All(vs[..i])| <= c
    ensures |Utf8All(vs[..i])| <= BoundaryBelow(vs, c)
  {
    if i > 0 {
      hide Utf8;
      assert vs[..i][1..] == vs[1..][..i - 1];
      BoundaryIsLargest(vs[1..], c - |Utf8(vs[0])|, i - 1);
    }
  }

  // The character that byte p belongs to: where it starts, its announced length, and its bytes.
  lemma {:induction false} CharacterAround(vs: seq<ScalarValue>, p: nat)
    requires p < |Utf8All(vs)|
    ensures var s, a := Utf8All(vs), BoundaryBelow(vs, p);
            var k := LeadLength(s[a]);
            && a <= p < a + k <= |s| && k <= 4
            && !IsContinuation(s[a]) && (forall q :: a < q < a + k ==> IsContinuation(s[q]))
            && (forall q :: a <= q < a + k ==> BoundaryBelow(vs, q) == a)
            && BoundaryBelow(vs, a + k) == a + k
  {
    hide Utf8;
    Utf8Layout(vs[0]);
    var k := |Utf8(vs[0])|;
    if p >= k {
      CharacterAround(vs[1..], p - k);
    }
  }
}
