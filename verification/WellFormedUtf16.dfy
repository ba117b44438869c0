/**
  * Repairing UTF-16: ReplaceUnpairedSurrogates of benchmarks/benchmark_to_well_formed_utf16.cpp.
  */
module WellFormedUtf16 {
  import opened Unicode

  const REPLACEMENT: CodeUnit := 0xFFFD

  // code & 0x1ffc00: a 16-bit code unit without its lowest ten bits.
  function WithoutLowBits(code: CodeUnit): CodeUnit { code / 0x400 * 0x400 }

  predicate IsLeadSurrogate(code: CodeUnit) { WithoutLowBits(code) == 0xD800 }
  predicate IsTrailSurrogate(code: CodeUnit) { WithoutLowBits(code) == 0xDC00 }

  lemma SurrogateTests(code: CodeUnit)
    ensures IsLeadSurrogate(code) <==> IsHigh(code)
    ensures IsTrailSurrogate(code) <==> IsLow(code)
  {
  }

  // ----- The specification -----

  predicate IsPaired(text: seq<CodeUnit>, i: nat)
  {
    i + 1 < |text| && IsHigh(text[i]) && IsLow(text[i + 1])
  }

  predicate Unpaired(text: seq<CodeUnit>, i: nat)
    requires i < |text|
  {
    (IsHigh(text[i]) && !IsPaired(text, i)) || (IsLow(text[i]) && !(i > 0 && IsPaired(text, i - 1)))
  }

  function Repaired(text: seq<CodeUnit>): (r: seq<CodeUnit>)
    ensures |r| == |text|
  {
    seq(|text|, i requires 0 <= i < |text| => if Unpaired(text, i) then REPLACEMENT else text[i])
  }

  // Reading from a position that is not inside a pair stops at the first unpaired surrogate.
  lemma {:induction false} FirstUnpaired(text: seq<CodeUnit>, i: nat)
    requires i <= |text| && !(i > 0 && IsPaired(text, i - 1))
    ensures var v := i + ValidLength(text[i..]);
            && (forall j :: i <= j < v ==> !Unpaired(text, j))
            && (v < |text| ==> Unpaired(text, v))
    decreases |text| - i
  {
    hide FirstLength, Unpaired, IsPaired;
    if i < |text| {
      FirstAt(text, i);
      var k := FirstLength(text[i..]);
      if k > 0 {
        assert text[i..][k..] == text[i + k..];
        FirstUnpaired(text, i + k);
      }
    }
  }

  lemma FirstAt(text: seq<CodeUnit>, i: nat)
    requires i < |text| && !(i > 0 && IsPaired(text, i - 1))
    ensures var k := FirstLength(text[i..]);
            && (k == 0 ==> Unpaired(text, i))
            && (k > 0 ==> !IsPaired(text, i + k - 1) && forall j :: i <= j < i + k ==> !Unpaired(text, j))
  {
  }

  lemma WellFormedIsPaired(text: seq<CodeUnit>)
    ensures WellFormed(text) <==> forall i :: 0 <= i < |text| ==> !Unpaired(text, i)
  {
    FirstUnpaired(text, 0);
    assert text[0..] == text;
  }

  lemma RepairedIsWellFormed(text: seq<CodeUnit>)
    ensures WellFormed(Repaired(text))
  {
    var r := Repaired(text);
    forall i: nat | i < |r| ensures !Unpaired(r, i) {
      if r[i] == REPLACEMENT {
      } else if IsHigh(text[i]) {
        assert IsPaired(text, i) && !Unpaired(text, i + 1);
      } else if IsLow(text[i]) {
        assert IsPaired(text, i - 1) && !Unpaired(text, i - 1);
      }
    }
    WellFormedIsPaired(r);
  }

  // Exactly the ill-formed texts are changed, and repairing once is enough.
  lemma RepairedIsIdentity(text: seq<CodeUnit>)
    ensures Repaired(text) == text <==> WellFormed(text)
    ensures Repaired(Repaired(text)) == Repaired(text)
  {
    WellFormedIsPaired(text);
    RepairedIsWellFormed(text);
    WellFormedIsPaired(Repaired(text));
    if !WellFormed(text) {
      var i :| 0 <= i < |text| && Unpaired(text, i);
      assert Repaired(text)[i] != text[i];
    }
  }

  // No choice of fewer replacements gives a well-formed text.
  lemma RepairIsMinimal(text: seq<CodeUnit>, other: seq<CodeUnit>, i: nat)
    requires |other| == |text| && i < |text| && WellFormed(other)
    requires forall j :: 0 <= j < |text| ==> other[j] == text[j] || other[j] == REPLACEMENT
    ensures Unpaired(text, i) ==> other[i] == REPLACEMENT
  {
    WellFormedIsPaired(other);
    if other[i] != REPLACEMENT {
      assert !Unpaired(other, i);
    }
  }

  // ----- The loop -----

  // The destination may be the source itself.
  method ReplaceUnpairedSurrogates(source: array<CodeUnit>, length: nat, dest: array<CodeUnit>)
    requires length <= source.Length && length <= dest.Length
    modifies dest
    ensures dest[..length] == Repaired(old(source[..length]))
    ensures forall j :: 0 <= j < length ==>
              dest[j] == if Unpaired(old(source[..length]), j) then 0xFFFD else old(source[j])
    ensures forall j :: length <= j < dest.Length ==> dest[j] == old(dest[j])
  {
    ghost var text := source[..length];
    var i := 0;
    while i < length
      invariant i <= length && !(i > 0 && IsPaired(text, i - 1))
      invariant forall j :: i <= j < length ==> source[j] == text[j]
      invariant forall j :: 0 <= j < i ==> dest[j] == Repaired(text)[j]
      invariant forall j :: length <= j < dest.Length ==> dest[j] == old(dest[j])
    {
      var sourceCodeUnit := source[i];
      var copyIndex := i;
      var destCodeUnit := sourceCodeUnit;
      SurrogateTests(sourceCodeUnit);
      if IsLeadSurrogate(sourceCodeUnit) {
        if i == length - 1 || !IsTrailSurrogate(source[i + 1]) {
          destCodeUnit := REPLACEMENT;
        } else {
          i := i + 1;
          dest[i] := source[i];
        }
      } else if IsTrailSurrogate(sourceCodeUnit) {
        destCodeUnit := REPLACEMENT;
      }
      dest[copyIndex] := destCodeUnit;
      i := i + 1;
    }
  }

  // The library's own scalar routine, which goes back to replace a lead that stays alone, gives the
  // same text.
  method ToWellFormedUtf16(input: array<CodeUnit>, len: nat, output: array<CodeUnit>)
    requires len <= input.Length && len <= output.Length
    modifies output
    ensures output[..len] == Repaired(old(input[..len]))
    ensures forall j :: 0 <= j < len ==>
              output[j] == if Unpaired(old(input[..len]), j) then 0xFFFD else old(input[j])
    ensures forall j :: len <= j < output.Length ==> output[j] == old(output[j])
  {
    ghost var text := input[..len];
    var highSurrogatePrev := false;
    for i := 0 to len
      invariant highSurrogatePrev <==> i > 0 && IsHigh(text[i - 1])
      invariant forall j :: i <= j < len ==> input[j] == text[j]
      invariant forall j :: 0 <= j < i && !(j == i - 1 && highSurrogatePrev) ==> output[j] == Repaired(text)[j]
      invariant highSurrogatePrev ==> output[i - 1] == text[i - 1]
      invariant forall j :: len <= j < output.Length ==> output[j] == old(output[j])
    {
      var c := input[i];
      if highSurrogatePrev && !IsLow(c) {
        output[i - 1] := REPLACEMENT;
      }
      if !highSurrogatePrev && IsLow(c) {
        output[i] := REPLACEMENT;
      } else {
        output[i] := input[i];
      }
      highSurrogatePrev := IsHigh(c);
    }
    if highSurrogatePrev {
      output[len - 1] := REPLACEMENT;
    }
  }
}
