/**
  * The bitmask validation of UTF-16: the masks and the claims of
  * scripts/sse_validate_utf16le_proof.py, which enumerates blocks of eight words, for blocks of any
  * length, and the block loop of src/generic/validate_utf16.h that relies on them.
  *
  * The naming follows the source: L is the surrogate that comes first.  A bit mask is a sequence
  * of booleans, bit 0 first.
  */
module Utf16Validation {
  import opened Unicode

  datatype Kind = V | L | H

  type Mask = seq<bool>

  // ----- The script -----

  datatype WordError = NoError | StartsWithHigh | LowNotFollowed(at: nat) | HighNotPreceded(at: nat)

  // Every H comes right after an L, and every L but a last one right before an H.
  predicate Paired(words: seq<Kind>)
  {
    forall i: nat :: i < |words| ==> PairedAt(words, i)
  }

  predicate PairedAt(words: seq<Kind>, i: nat)
    requires i < |words|
  {
    words[i].H? <==> i > 0 && words[i - 1].L?
  }

  lemma PairedSnoc(words: seq<Kind>, i: nat)
    requires i < |words| && Paired(words[..i])
    ensures Paired(words[..i + 1]) <==> PairedAt(words, i)
  {
    var head := words[..i + 1];
    assert PairedAt(head, i) <==> PairedAt(words, i);
    forall j: nat | j < i ensures PairedAt(head, j) {
      assert PairedAt(words[..i], j);
    }
  }

  predicate EndsWithLow(words: seq<Kind>) { words != [] && words[|words| - 1].L? }

  // find_error_in_words: it accepts a low surrogate at the end.
  method FindErrorInWords(words: seq<Kind>) returns (error: WordError)
    requires words != []
    ensures error.NoError? <==> Paired(words)
    ensures error.StartsWithHigh? ==> words[0].H?
    ensures error.LowNotFollowed? ==> error.at + 1 < |words| && words[error.at].L? && !words[error.at + 1].H?
                                      && Paired(words[..error.at + 1])
    ensures error.HighNotPreceded? ==> 0 < error.at < |words| && words[error.at].H? && !words[error.at - 1].L?
                                       && Paired(words[..error.at])
  {
    if words[0].H? {
      assert !PairedAt(words, 0);
      return StartsWithHigh;
    }
    var prev := V;
    for i := 0 to |words|
      invariant i > 0 ==> prev == words[i - 1]
      invariant i == 0 ==> prev.V?
      invariant Paired(words[..i])
    {
      var kind := words[i];
      PairedSnoc(words, i);
      if kind.H? {
        if !prev.L? {
          return HighNotPreceded(i);
        }
      } else if prev.L? {
        return LowNotFollowed(i - 1);
      }
      prev := kind;
    }
    assert words[..|words|] == words;
    error := NoError;
  }

  function Bitmask(words: seq<Kind>, state: Kind): (m: Mask)
    ensures |m| == |words|
  {
    seq(|words|, i requires 0 <= i < |words| => words[i] == state)
  }

  function And(x: Mask, y: Mask): (m: Mask)
    requires |x| == |y|
    ensures |m| == |x|
  {
    seq(|x|, i requires 0 <= i < |x| => x[i] && y[i])
  }

  function Or(x: Mask, y: Mask): (m: Mask)
    requires |x| == |y|
    ensures |m| == |x|
  {
    seq(|x|, i requires 0 <= i < |x| => x[i] || y[i])
  }

  function Not(x: Mask): (m: Mask)
    ensures |m| == |x|
  {
    seq(|x|, i requires 0 <= i < |x| => !x[i])
  }

  function ShiftRight(x: Mask): (m: Mask)
    ensures |m| == |x|
  {
    seq(|x|, i requires 0 <= i < |x| => i + 1 < |x| && x[i + 1])
  }

  function ShiftLeft(x: Mask): (m: Mask)
    ensures |m| == |x|
  {
    seq(|x|, i requires 0 <= i < |x| => i > 0 && x[i - 1])
  }

  function MaskOf(words: seq<Kind>): (c: Mask)
    ensures |c| == |words|
  {
    var l := Bitmask(words, L);
    var h := Bitmask(words, H);
    var v := Not(Or(l, h));
    var a := And(l, ShiftRight(h));
    var b := ShiftLeft(a);
    Or(v, Or(a, b))
  }

  function AllMask(n: nat): Mask { seq(n, _ => true) }

  function AllButLastMask(n: nat): Mask { seq(n, i => i + 1 < n) }

  // The word is whole or part of a pair inside the block.
  predicate Covered(words: seq<Kind>, i: nat)
    requires i < |words|
  {
    || words[i].V?
    || (words[i].L? && i + 1 < |words| && words[i + 1].H?)
    || (i > 0 && words[i - 1].L? && words[i].H?)
  }

  // What a bit of the mask says about its word.
  lemma {:induction false} MaskBit(words: seq<Kind>, i: nat)
    requires i < |words|
    ensures MaskOf(words)[i] <==> Covered(words, i)
  {
  }

  lemma CoveredPrefix(words: seq<Kind>, n: nat)
    requires n <= |words| && (0 < n < |words| ==> !words[n - 1].L?)
    ensures (forall i: nat :: i < n ==> Covered(words, i)) <==> Paired(words[..n]) && !EndsWithLow(words[..n])
  {
    if forall i: nat :: i < n ==> Covered(words, i) {
      forall i: nat | i < n ensures PairedAt(words[..n], i) {
        assert Covered(words, i);
        assert i > 0 ==> Covered(words, i - 1);
      }
      assert n > 0 ==> Covered(words, n - 1);
    }
    if Paired(words[..n]) && !EndsWithLow(words[..n]) {
      forall i: nat | i < n ensures Covered(words, i) {
        assert PairedAt(words[..n], i);
        assert i + 1 < n ==> PairedAt(words[..n], i + 1);
      }
    }
  }

  // The mask is all ones exactly for blocks of whole characters.
  lemma AllOnes(words: seq<Kind>)
    ensures MaskOf(words) == AllMask(|words|) <==> Paired(words) && !EndsWithLow(words)
  {
    hide MaskOf;
    forall i: nat | i < |words| ensures MaskOf(words)[i] <==> Covered(words, i) {
      MaskBit(words, i);
    }
    CoveredPrefix(words, |words|);
    assert words[..|words|] == words;
    assert MaskOf(words) == AllMask(|words|) <==> forall i: nat :: i < |words| ==> MaskOf(words)[i];
  }

  // The mask lacks only its last bit exactly if whole characters are followed by a surrogate that
  // does not complete a pair.
  lemma AllButLast(words: seq<Kind>)
    requires |words| >= 2
    ensures var n := |words| - 1;
            MaskOf(words) == AllButLastMask(|words|) <==>
              Paired(words[..n]) && !EndsWithLow(words[..n]) && !words[n].V?
  {
    hide MaskOf;
    var n := |words| - 1;
    forall i: nat | i <= n ensures MaskOf(words)[i] <==> Covered(words, i) {
      MaskBit(words, i);
    }
    if MaskOf(words) == AllButLastMask(|words|) {
      assert forall i: nat :: i < n ==> AllButLastMask(|words|)[i];
      assert !Covered(words, n) && Covered(words, n - 1);
      CoveredPrefix(words, n);
    }
    if Paired(words[..n]) && !EndsWithLow(words[..n]) && !words[n].V? {
      assert words[..n][n - 1] == words[n - 1];
      CoveredPrefix(words, n);
      assert !Covered(words, n);
    }
  }

  // The two claims of the script.
  lemma ProofOfScript(words: seq<Kind>)
    requires |words| >= 2
    ensures MaskOf(words) == AllMask(|words|) ==> Paired(words)
    ensures MaskOf(words) == AllButLastMask(|words|) ==>
              match words[|words| - 1]
              case L => Paired(words)
              case H => !Paired(words) && Paired(words[..|words| - 1]) && !words[|words| - 2].L?
              case V => false
  {
    AllOnes(words);
    AllButLast(words);
    var n := |words| - 1;
    if MaskOf(words) == AllButLastMask(|words|) {
      assert words[..n][n - 1] == words[n - 1] && PairedAt(words[..n], n - 1);
      assert Paired(words) ==> PairedAt(words, n);
      if words[n].L? {
        forall i: nat | i <= n ensures PairedAt(words, i) {
          assert i < n ==> PairedAt(words[..n], i);
        }
      }
    }
  }

  // ----- Words and code units -----

  function KindOf(u: CodeUnit): Kind
  {
    if IsHigh(u) then L else if IsLow(u) then H else V
  }

  function Kinds(text: seq<CodeUnit>): (k: seq<Kind>)
    ensures |k| == |text|
  {
    seq(|text|, i requires 0 <= i < |text| => KindOf(text[i]))
  }

  predicate Complete(words: seq<Kind>) { Paired(words) && !EndsWithLow(words) }

  // Pairing, stated position by position, is well-formedness, stated character by character.
  lemma {:induction false} CompleteIsWellFormed(text: seq<CodeUnit>)
    ensures Complete(Kinds(text)) <==> WellFormed(text)
  {
    if text != [] {
      var k, words := FirstLength(text), Kinds(text);
      if k == 0 {
        assert Paired(words) ==> PairedAt(words, 0);
        assert Paired(words) && |words| > 1 ==> PairedAt(words, 1);
      } else {
        CompleteIsWellFormed(text[k..]);
        assert Kinds(text[k..]) == words[k..];
        CompleteTail(words, k);
      }
    }
  }

  // Removing a complete first character.
  lemma CompleteTail(words: seq<Kind>, k: nat)
    requires (k == 1 <= |words| && words[0].V?) || (k == 2 <= |words| && words[0].L? && words[1].H?)
    ensures Complete(words) <==> Complete(words[k..])
  {
    if Complete(words[k..]) {
      forall i: nat | i < |words| ensures PairedAt(words, i) {
        assert i >= k ==> PairedAt(words[k..], i - k);
      }
    }
    if Complete(words) {
      forall i: nat | i < |words| - k ensures PairedAt(words[k..], i) {
        assert PairedAt(words, k + i);
      }
    }
  }

  // A block cut out of whole characters shows one of the two masks.
  lemma BlockOfWellFormed(words: seq<Kind>, n: nat)
    requires Complete(words) && 2 <= n <= |words|
    ensures MaskOf(words[..n]) == AllMask(n) || MaskOf(words[..n]) == AllButLastMask(n)
  {
    var block := words[..n];
    AllOnes(block);
    AllButLast(block);
    forall i: nat | i < n ensures PairedAt(block, i) {
      assert PairedAt(words, i);
    }
    if block[n - 1].L? {
      var head := block[..n - 1];
      forall i: nat | i < n - 1 ensures PairedAt(head, i) {
        assert PairedAt(words, i);
      }
      assert PairedAt(words, n - 1);
    }
  }

  // ----- The block loop -----

  datatype ErrorCode = SUCCESS | SURROGATE

  lemma NothingBroken()
    ensures WellFormed([])
  {
  }

  lemma NoSurrogates(words: seq<Kind>)
    requires forall i :: 0 <= i < |words| ==> words[i].V?
    ensures Complete(words)
  {
  }

  lemma ValidAtLeast(text: seq<CodeUnit>, count: nat)
    requires count <= |text| && WellFormed(text[..count])
    ensures ValidLength(text) == count + ValidLength(text[count..])
  {
    assert text == text[..count] + text[count..];
    WellFormedConcat(text[..count], text[count..]);
  }

  lemma Advance(text: seq<CodeUnit>, count: nat, m: nat)
    requires count + m <= |text| && WellFormed(text[..count])
    requires Complete(Kinds(text[count..count + m]))
    ensures WellFormed(text[..count + m])
  {
    CompleteIsWellFormed(text[count..count + m]);
    assert text[..count + m] == text[..count] + text[count..count + m];
    WellFormedConcat(text[..count], text[count..count + m]);
  }

  // A block with any other mask holds a broken character.
  lemma BrokenBlock(text: seq<CodeUnit>, count: nat, n: nat)
    requires 2 <= n && count + n <= |text| && WellFormed(text[..count])
    requires var c := MaskOf(Kinds(text[count..count + n])); c != AllMask(n) && c != AllButLastMask(n)
    ensures count <= ValidLength(text) < count + n
  {
    hide MaskOf, WellFormed, ValidLength;
    ValidAtLeast(text, count);
    var rest := text[count..];
    var v := ValidLength(rest);
    if v >= n {
      ValidPrefix(rest);
      CompleteIsWellFormed(rest[..v]);
      assert Kinds(rest[..v])[..n] == Kinds(text[count..count + n]);
      BlockOfWellFormed(Kinds(rest[..v]), n);
    }
  }

  // One block: how many of its units are whole characters, 0 if it is broken.
  method CheckBlock(words: seq<Kind>) returns (m: nat)
    requires |words| >= 2
    ensures m <= |words| && Complete(words[..m])
    ensures m == 0 <==> MaskOf(words) != AllMask(|words|) && MaskOf(words) != AllButLastMask(|words|)
  {
    hide MaskOf;
    var n := |words|;
    var surrogates := Not(Bitmask(words, V));
    AllOnes(words);
    AllButLast(words);
    assert words[..n] == words && words[..0] == [];
    if forall i :: 0 <= i < n ==> !surrogates[i] {
      assert forall i :: 0 <= i < n ==> (words[i].V? <==> !surrogates[i]);
      NoSurrogates(words);
      return n;
    }
    var c := MaskOf(words);
    if c == AllMask(n) {
      m := n;
    } else if c == AllButLastMask(n) {
      m := n - 1;
    } else {
      m := 0;
    }
  }

  // validate_utf16_with_errors of the kernel: blocks of n units while more than `reserve` are left
  // (n is 16 and the reserve 32 in the source).  The last unit of a block may be seen again in
  // the next one.
  method ValidateBlocks(text: seq<CodeUnit>, n: nat, reserve: nat) returns (error: ErrorCode, count: nat)
    requires 2 <= n <= reserve
    ensures count <= ValidLength(text) && WellFormed(text[..count])
    ensures error == SURROGATE ==> ValidLength(text) < count + n <= |text|
    ensures error == SUCCESS ==> |text| <= count + reserve
  {
    hide MaskOf, WellFormed, Complete, ValidLength;
    count := 0;
    assert text[..0] == [];
    NothingBroken();
    while count + reserve < |text|
      invariant count <= |text| && WellFormed(text[..count])
      decreases |text| - count
    {
      var block := text[count..count + n];
      var m := CheckBlock(Kinds(block));
      if m == 0 {
        BrokenBlock(text, count, n);
        return SURROGATE, count;
      }
      assert Kinds(block)[..m] == Kinds(text[count..count + m]);
      Advance(text, count, m);
      count := count + m;
    }
    ValidAtLeast(text, count);
    error := SUCCESS;
  }

  // The scalar validation: the position of the first unpaired surrogate.
  method ValidateScalar(text: seq<CodeUnit>) returns (error: ErrorCode, count: nat)
    ensures count == ValidLength(text) && (error == SUCCESS <==> count == |text|)
  {
    hide WellFormed, ValidLength;
    var pos := 0;
    assert text[..0] == [];
    NothingBroken();
    while pos < |text|
      invariant pos <= |text| && WellFormed(text[..pos])
    {
      ValidAtLeast(text, pos);
      OneCharacter(text, pos);
      var word := text[pos];
      if word / 0x800 == 0x1B {
        if pos + 1 >= |text| {
          return SURROGATE, pos;
        }
        var diff := (word as int - 0xD800) % 0x1_0000;
        if diff > 0x3FF {
          return SURROGATE, pos;
        }
        var diff2 := (text[pos + 1] as int - 0xDC00) % 0x1_0000;
        if diff2 > 0x3FF {
          return SURROGATE, pos;
        }
        pos := pos + 2;
      } else {
        pos := pos + 1;
      }
    }
    ValidAtLeast(text, pos);
    assert text[pos..] == [];
    NothingLeft();
    return SUCCESS, pos;
  }

  lemma NothingLeft()
    ensures ValidLength([]) == 0
  {
  }

  lemma OneCharacter(text: seq<CodeUnit>, pos: nat)
    requires pos < |text| && WellFormed(text[..pos])
    ensures var word, rest := text[pos], text[pos..];
            var pair := pos + 1 < |text| && IsHigh(word) && IsLow(text[pos + 1]);
            && (word / 0x800 == 0x1B && !pair ==> ValidLength(rest) == 0)
            && (word / 0x800 == 0x1B && pair ==> WellFormed(text[..pos + 2]))
            && (word / 0x800 != 0x1B ==> WellFormed(text[..pos + 1]))
  {
    var rest := text[pos..];
    var k := FirstLength(rest);
    if k > 0 {
      assert text[..pos + k] == text[..pos] + rest[..k];
      assert rest[..k][k..] == [] && FirstLength(rest[..k]) == k;
      WellFormedConcat(text[..pos], rest[..k]);
    }
  }

  // validate_utf16le: the block loop and the scalar routine on what it leaves accept exactly the
  // well-formed texts.
  method Validate(text: seq<CodeUnit>, n: nat, reserve: nat) returns (valid: bool)
    requires 2 <= n <= reserve
    ensures valid <==> WellFormed(text)
  {
    hide ValidLength;
    if |text| == 0 {
      NothingLeft();
      return true;
    }
    var error, count := ValidateBlocks(text, n, reserve);
    if error != SUCCESS {
      return false;
    }
    if count == |text| {
      return true;
    }
    ValidAtLeast(text, count);
    var rest;
    error, rest := ValidateScalar(text[count..]);
    valid := error == SUCCESS;
  }

  // validate_utf16le_with_errors: after a rejected block the scalar routine finds the exact place.
  method ValidateWithErrors(text: seq<CodeUnit>, n: nat, reserve: nat) returns (error: ErrorCode, count: nat)
    requires 2 <= n <= reserve
    ensures count == ValidLength(text) && (error == SUCCESS <==> count == |text|)
  {
    hide ValidLength;
    if |text| == 0 {
      NothingLeft();
      return SUCCESS, 0;
    }
    error, count := ValidateBlocks(text, n, reserve);
    if count != |text| {
      ValidAtLeast(text, count);
      var rest;
      error, rest := ValidateScalar(text[count..]);
      count := count + rest;
    }
  }
}
