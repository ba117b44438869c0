/**
  * The conversions with an output limit of src/implementation.cpp: they work in chunks for which
  * the worst case fits, and finish with a scalar routine that checks every character.
  */
module SafeConversions {
  import opened Unicode
  import opened Buffers

  datatype ErrorCode = SUCCESS | SURROGATE | OUTPUT_BUFFER_TOO_SMALL

  // Behind the n bytes written from at on.
  method Append(output: array<Octet>, at: nat, n: nat, bytes: seq<Octet>)
    requires at + n + |bytes| <= output.Length
    modifies output
    ensures output[at..at + n + |bytes|] == old(output[at..at + n]) + bytes
    ensures output[..at] == old(output[..at])
    ensures forall j :: at + n + |bytes| <= j < output.Length ==> output[j] == old(output[j])
  {
    Store(output, at + n, bytes);
    assert output[..at] == output[..at + n + |bytes|][..at];
    assert output[at..at + n + |bytes|] == output[..at + n + |bytes|][at..];
  }

  // ----- The scalar routine -----

  // The leading `pos` code units are whole characters, and their UTF-8 form is what was written.
  ghost predicate Converted(text: seq<CodeUnit>, pos: nat, written: seq<Octet>)
  {
    pos <= |text| && WellFormed(text[..pos]) && written == Transcode(text[..pos])
  }

  lemma NextCharacter(text: seq<CodeUnit>, pos: nat, written: seq<Octet>)
    requires Converted(text, pos, written) && pos < |text|
    ensures var k := FirstLength(text[pos..]);
            && (k == 0 ==> ValidLength(text) == pos)
            && (k > 0 ==> Converted(text, pos + k, written + Utf8(FirstScalar(text[pos..]))))
  {
    hide Utf8, Transcode, ValidLength, FirstScalar, FirstLength;
    var rest := text[pos..];
    var k := FirstLength(rest);
    assert text == text[..pos] + rest;
    WellFormedConcat(text[..pos], rest);
    if k > 0 {
      OneCharacter(rest);
      assert text[..pos + k] == text[..pos] + rest[..k];
      WellFormedConcat(text[..pos], rest[..k]);
    } else {
      NoCharacter(rest);
    }
  }

  // The first character of a text, on its own.
  lemma OneCharacter(text: seq<CodeUnit>)
    requires text != [] && FirstLength(text) > 0
    ensures var c := text[..FirstLength(text)]; WellFormed(c) && Transcode(c) == Utf8(FirstScalar(text))
  {
    hide Utf8;
    var k := FirstLength(text);
    var c := text[..k];
    assert FirstLength(c) == k && FirstScalar(c) == FirstScalar(text) && c[k..] == [];
    assert Transcode(c) == Utf8(FirstScalar(c)) + [];
  }

  lemma NoCharacter(text: seq<CodeUnit>)
    requires text != [] && FirstLength(text) == 0
    ensures ValidLength(text) == 0
  {
  }

  // The next character does not fit, or is broken: this is as far as the limit allows.
  lemma StopsHere(text: seq<CodeUnit>, pos: nat, written: seq<Octet>, capacity: nat)
    requires Converted(text, pos, written) && |written| <= capacity
    requires pos == |text| || FirstLength(text[pos..]) == 0
             || |Utf8(FirstScalar(text[pos..]))| > capacity - |written|
    ensures Fitting(text, capacity) == pos
  {
    hide Utf8, Transcode;
    assert text == text[..pos] + text[pos..];
    FittingConcat(text[..pos], text[pos..], capacity);
  }

  // The UTF-8 form of one code unit that is not a surrogate.
  lemma OneUnit(text: seq<CodeUnit>, pos: nat)
    requires pos < |text|
    ensures var u := text[pos];
            u / 0x800 != 0x1B ==> FirstLength(text[pos..]) == 1 && FirstScalar(text[pos..]) == u
  {
  }

  function Wrap16(x: int): CodeUnit { x % 0x1_0000 }

  lemma TwoUnits(text: seq<CodeUnit>, pos: nat)
    requires pos < |text| && text[pos] / 0x800 == 0x1B
    ensures var diff := Wrap16(text[pos] as int - 0xD800);
            if pos + 1 >= |text| || diff > 0x3FF || Wrap16(text[pos + 1] as int - 0xDC00) > 0x3FF then
              FirstLength(text[pos..]) == 0
            else
              && FirstLength(text[pos..]) == 2
              && FirstScalar(text[pos..])
                 == diff as int * 0x400 + Wrap16(text[pos + 1] as int - 0xDC00) as int + 0x1_0000
  {
  }

  // The contract of a stop at `pos` with `written` bytes in the output.
  ghost predicate StoppedAt(text: seq<CodeUnit>, checkOutput: bool, capacity: nat, error: ErrorCode, pos: nat,
                            written: nat)
  {
    match error
    case SUCCESS => pos == |text|
    case SURROGATE => pos == ValidLength(text) < |text| && (checkOutput ==> capacity - written >= 4)
    case OUTPUT_BUFFER_TOO_SMALL =>
      && checkOutput && Fitting(text, capacity) == pos
      && (pos == ValidLength(text) < |text| ==> capacity - written < 4)
  }

  // convert_with_errors.  Without `checkOutput` the caller guarantees the room.
  method ConvertWithErrors(text: seq<CodeUnit>, output: array<Octet>, at: nat, checkOutput: bool, capacity: nat)
    returns (error: ErrorCode, pos: nat, written: nat)
    requires at + (if checkOutput then capacity else 3 * |text|) <= output.Length
    modifies output
    ensures at + written <= output.Length && (checkOutput ==> written <= capacity)
    ensures Converted(text, pos, output[at..at + written])
    ensures StoppedAt(text, checkOutput, capacity, error, pos, written)
    ensures output[..at] == old(output[..at])
    ensures forall j :: at + written <= j < output.Length ==> output[j] == old(output[j])
  {
    hide Transcode, ValidLength, Fitting, Converted;
    pos, written := 0, 0;
    Start(text);
    assert output[at..at] == [];
    if checkOutput && capacity == 0 {
      EmptyRoom(text);
      return OUTPUT_BUFFER_TOO_SMALL, 0, 0;
    }
    while pos < |text|
      invariant pos <= |text| && at + written <= output.Length && (checkOutput ==> written <= capacity)
      invariant Converted(text, pos, output[at..at + written])
      invariant output[..at] == old(output[..at])
      invariant forall j :: at + written <= j < output.Length ==> output[j] == old(output[j])
    {
      if pos + 4 <= |text| && IsAscii(text[pos..pos + 4]) {
        var finalPos := pos + 4;
        assert forall j :: pos <= j < finalPos ==> text[j] == text[pos..pos + 4][j - pos];
        while pos < finalPos
          invariant pos <= finalPos && at + written <= output.Length && (checkOutput ==> written <= capacity)
          invariant forall j :: pos <= j < finalPos ==> text[j] < 0x80
          invariant Converted(text, pos, output[at..at + written])
          invariant output[..at] == old(output[..at])
          invariant forall j :: at + written <= j < output.Length ==> output[j] == old(output[j])
        {
          ghost var done := output[at..at + written];
          var size, bytes;
          error, size, bytes := UnitBytes(text, pos, done, checkOutput, capacity, written);
          if error != SUCCESS {
            return;
          }
          RoomFor(text, pos, size, done, bytes);
          Append(output, at, written, bytes);
          pos, written := pos + 1, written + 1;
        }
      } else {
        ghost var done := output[at..at + written];
        var size, bytes;
        if text[pos] / 0x800 != 0x1B {
          error, size, bytes := UnitBytes(text, pos, done, checkOutput, capacity, written);
        } else {
          error, size, bytes := PairBytes(text, pos, done, checkOutput, capacity, written);
        }
        if error != SUCCESS {
          return;
        }
        RoomFor(text, pos, size, done, bytes);
        Append(output, at, written, bytes);
        pos, written := pos + size, written + |bytes|;
      }
    }
    error := SUCCESS;
  }

  // The test of eight bytes at once: none of the units has a bit above the low seven.
  predicate IsAscii(units: seq<CodeUnit>)
  {
    forall i :: 0 <= i < |units| ==> units[i] < 0x80
  }

  // The bytes of a code unit that is not a surrogate, if they fit.
  method UnitBytes(text: seq<CodeUnit>, pos: nat, ghost done: seq<Octet>, checkOutput: bool, capacity: nat,
                   written: nat)
    returns (error: ErrorCode, size: nat, bytes: seq<Octet>)
    requires pos < |text| && Converted(text, pos, done) && written == |done| && (checkOutput ==> written <= capacity)
    requires text[pos] / 0x800 != 0x1B
    ensures error == SUCCESS ==>
              && size == 1 && Converted(text, pos + size, done + bytes) && (text[pos] < 0x80 ==> |bytes| == 1)
              && (checkOutput ==> written + |bytes| <= capacity)
    ensures error != SUCCESS ==> StoppedAt(text, checkOutput, capacity, error, pos, written)
  {
    hide Transcode, ValidLength, Fitting, Converted;
    NextCharacter(text, pos, done);
    OneUnit(text, pos);
    var word := text[pos];
    error, size := SUCCESS, 1;
    bytes := if word < 0x80 then [word]
             else if word < 0x800 then [word / 0x40 + 0xC0, word % 0x40 + 0x80]
             else [word / 0x1000 + 0xE0, word / 0x40 % 0x40 + 0x80, word % 0x40 + 0x80];
    if checkOutput && capacity - written < |bytes| {
      StopsHere(text, pos, done, capacity);
      NotBroken(text, pos, done);
      error := OUTPUT_BUFFER_TOO_SMALL;
    }
  }

  // The bytes of a surrogate pair, if it is one.  The room is checked first.
  method PairBytes(text: seq<CodeUnit>, pos: nat, ghost done: seq<Octet>, checkOutput: bool, capacity: nat,
                   written: nat)
    returns (error: ErrorCode, size: nat, bytes: seq<Octet>)
    requires pos < |text| && Converted(text, pos, done) && written == |done| && (checkOutput ==> written <= capacity)
    requires text[pos] / 0x800 == 0x1B
    ensures error == SUCCESS ==>
              && size > 0 && Converted(text, pos + size, done + bytes)
              && (checkOutput ==> written + |bytes| <= capacity)
    ensures error != SUCCESS ==> StoppedAt(text, checkOutput, capacity, error, pos, written)
  {
    hide Transcode, ValidLength, Fitting, Converted;
    error, size, bytes := SUCCESS, 2, [];
    NextCharacter(text, pos, done);
    TwoUnits(text, pos);
    if checkOutput && capacity - written < 4 {
      StopsHere(text, pos, done, capacity);
      error := OUTPUT_BUFFER_TOO_SMALL;
      return;
    }
    if pos + 1 >= |text| {
      error := SURROGATE;
      return;
    }
    var diff := Wrap16(text[pos] as int - 0xD800);
    if diff > 0x3FF {
      error := SURROGATE;
      return;
    }
    var diff2 := Wrap16(text[pos + 1] as int - 0xDC00);
    if diff2 > 0x3FF {
      error := SURROGATE;
      return;
    }
    var value: int := diff as int * 0x400 + diff2 as int + 0x1_0000;
    bytes := [value / 0x4_0000 + 0xF0, value / 0x1000 % 0x40 + 0x80, value / 0x40 % 0x40 + 0x80, value % 0x40 + 0x80];
  }

  lemma Start(text: seq<CodeUnit>)
    ensures Converted(text, 0, [])
  {
    assert text[..0] == [];
  }

  lemma EmptyRoom(text: seq<CodeUnit>)
    ensures Fitting(text, 0) == 0
  {
  }

  lemma NotBroken(text: seq<CodeUnit>, pos: nat, written: seq<Octet>)
    requires Converted(text, pos, written) && pos < |text| && FirstLength(text[pos..]) > 0
    ensures ValidLength(text) != pos
  {
    assert text == text[..pos] + text[pos..];
    WellFormedConcat(text[..pos], text[pos..]);
  }

  // Three bytes per code unit are always enough.
  lemma RoomFor(text: seq<CodeUnit>, pos: nat, size: nat, written: seq<Octet>, bytes: seq<Octet>)
    requires Converted(text, pos + size, written + bytes)
    ensures pos + size <= |text| && |written| + |bytes| <= 3 * |text|
  {
    TranscodeBound(text[..pos + size]);
  }

  // ----- convert_utf16_to_utf8_safe -----

  // convert_utf16_to_utf8: 0 for an ill-formed input.
  method ConvertUtf16ToUtf8(text: seq<CodeUnit>, output: array<Octet>, at: nat) returns (n: nat)
    requires at + 3 * |text| <= output.Length
    modifies output
    ensures at + n <= output.Length && (text != [] ==> (n == 0 <==> !WellFormed(text)))
    ensures WellFormed(text) ==> output[at..at + n] == Transcode(text)
    ensures output[..at] == old(output[..at])
    ensures forall j :: at + 3 * |text| <= j < output.Length ==> output[j] == old(output[j])
  {
    hide Transcode;
    var error, pos, written := ConvertWithErrors(text, output, at, false, 0);
    assert text[..|text|] == text;
    TranscodeBound(text);
    TranscodeBound(text[..pos]);
    n := if error == SUCCESS then written else 0;
  }

  // The length of the next chunk, 0 if what is left is for the scalar routine.  A lead at its end
  // is left to the next chunk.
  function ChunkLength(text: seq<CodeUnit>, capacity: nat): (n: nat)
    ensures n <= |text| && 3 * n <= capacity
  {
    var n := if |text| < capacity / 3 then |text| else capacity / 3;
    if n <= 16 then 0 else if n < |text| && IsHigh(text[n - 1]) then n - 1 else n
  }

  // Some chunk is ill-formed.
  predicate ChunkBreaks(text: seq<CodeUnit>, capacity: nat)
    decreases |text|
  {
    var n := ChunkLength(text, capacity);
    TranscodeBound(text[..n]);
    n > 0 && (!WellFormed(text[..n]) || ChunkBreaks(text[n..], capacity - |Transcode(text[..n])|))
  }

  // What the caller gets: the longest run of whole characters that fits, or 0 if the text is found
  // to be ill-formed.  A broken character is certain to be found if four bytes are left for it, and
  // certain to be taken for one that does not fit if there are less than three.  With exactly three
  // bytes left it is found only by a chunk.
  ghost predicate SafeResult(text: seq<CodeUnit>, capacity: nat, r: nat)
  {
    var fit := Fitting(text, capacity);
    var whole := |Transcode(text[..fit])|;
    if WellFormed(text) || fit < ValidLength(text) || capacity < whole + 3 then r == whole
    else if capacity >= whole + 4 then r == 0
    else r == if ChunkBreaks(text, capacity) then 0 else whole
  }

  // A chunk may end with the broken unit at v only behind 16 units of three bytes each, and not
  // with a lead that another unit follows.
  predicate EndsAChunk(text: seq<CodeUnit>, v: nat)
  {
    && 16 <= v < |text| && (IsHigh(text[v]) ==> v == |text| - 1)
    && forall i :: v - 16 <= i < v ==> TakesThreeBytes(text[i])
  }

  predicate TakesThreeBytes(u: CodeUnit) { u >= 0x800 && !IsHigh(u) && !IsLow(u) }

  // Only such units need the worst case.
  lemma {:induction false} AllTakeThreeBytes(text: seq<CodeUnit>)
    requires WellFormed(text) && |Transcode(text)| == 3 * |text|
    ensures forall i :: 0 <= i < |text| ==> TakesThreeBytes(text[i])
  {
    if text != [] {
      var k := FirstLength(text);
      var rest := text[k..];
      TranscodeBound(rest);
      AllTakeThreeBytes(rest);
      assert forall i :: k <= i < |text| ==> text[i] == rest[i - k];
    }
  }

  // The text has room for its whole characters and three bytes more.
  predicate ThreeBytesLeft(text: seq<CodeUnit>, capacity: nat)
  {
    var v := ValidLength(text);
    v < |text| && capacity == |Transcode(text[..v])| + 3
  }

  // With three bytes left, the chunk that breaks ends with the broken unit.
  lemma {:induction false} BreakEndsChunk(text: seq<CodeUnit>, capacity: nat)
    requires ThreeBytesLeft(text, capacity) && ChunkBreaks(text, capacity)
    ensures EndsAChunk(text, ValidLength(text))
    decreases |text|
  {
    hide Transcode, ValidLength, ChunkLength;
    var n, v := ChunkLength(text, capacity), ValidLength(text);
    ChunkSplitsNoPair(text, capacity);
    if WellFormed(text[..n]) {
      ThreeBytesBehind(text, capacity, n);
      BreakEndsChunk(text[n..], capacity - |Transcode(text[..n])|);
      assert forall i :: v - 16 <= i < v ==> text[i] == text[n..][i - n];
    } else {
      BrokenChunkEnds(text, capacity);
    }
  }

  lemma ChunkSplitsNoPair(text: seq<CodeUnit>, capacity: nat)
    ensures !SplitsPair(text, ChunkLength(text, capacity))
  {
  }

  lemma ThreeBytesBehind(text: seq<CodeUnit>, capacity: nat, n: nat)
    requires ThreeBytesLeft(text, capacity) && n <= |text| && WellFormed(text[..n])
    ensures |Transcode(text[..n])| <= capacity && ThreeBytesLeft(text[n..], capacity - |Transcode(text[..n])|)
    ensures ValidLength(text) == n + ValidLength(text[n..])
  {
    hide Transcode, ValidLength;
    var rest, m := text[n..], ValidLength(text[n..]);
    assert text == text[..n] + rest && text[..n + m] == text[..n] + rest[..m];
    WellFormedConcat(text[..n], rest);
    WellFormedConcat(text[..n], rest[..m]);
  }

  lemma BrokenChunkEnds(text: seq<CodeUnit>, capacity: nat)
    requires ThreeBytesLeft(text, capacity) && ChunkLength(text, capacity) > 0
    requires !WellFormed(text[..ChunkLength(text, capacity)])
    ensures EndsAChunk(text, ValidLength(text))
  {
    hide Transcode, ValidLength;
    var n, v := ChunkLength(text, capacity), ValidLength(text);
    CutBetweenCharacters(text, n);
    ValidPrefix(text);
    TranscodeBound(text[..v]);
    assert |Transcode(text[..v])| == 3 * v;
    AllTakeThreeBytes(text[..v]);
    assert forall i :: 0 <= i < v ==> text[..v][i] == text[i];
  }

  // If all the units in front of the broken one take three bytes, it ends the first chunk.
  lemma FirstChunk(text: seq<CodeUnit>, capacity: nat)
    requires ThreeBytesLeft(text, capacity) && capacity == 3 * ValidLength(text) + 3
    ensures ChunkBreaks(text, capacity) <==> EndsAChunk(text, ValidLength(text))
  {
    hide Transcode;
    var v := ValidLength(text);
    if EndsAChunk(text, v) {
      assert ChunkLength(text, capacity) == v + 1;
      assert text == text[..v + 1] + text[v + 1..];
      if WellFormed(text[..v + 1]) {
        WellFormedConcat(text[..v + 1], text[v + 1..]);
      }
    } else if ChunkBreaks(text, capacity) {
      BreakEndsChunk(text, capacity);
    }
  }

  predicate SplitsPair(text: seq<CodeUnit>, c: nat)
  {
    0 < c < |text| && IsHigh(text[c - 1]) && IsLow(text[c])
  }

  // A cut that splits no pair leaves whole characters on both sides, or in front of it the first
  // broken one.
  lemma {:induction false} CutBetweenCharacters(text: seq<CodeUnit>, c: nat)
    requires c <= |text| && !SplitsPair(text, c)
    ensures ValidLength(text) >= c ==> WellFormed(text[..c])
    ensures !WellFormed(text[..c]) ==> ValidLength(text) == ValidLength(text[..c]) < c
  {
    if c > 0 {
      var k := FirstLength(text);
      if k > 0 {
        assert text[..c][k..] == text[k..][..c - k];
        CutBetweenCharacters(text[k..], c - k);
        assert FirstLength(text[..c]) == k;
      }
    }
  }

  // A chunk found to be ill-formed leaves room for three bytes at its first broken character.
  lemma BrokenChunk(text: seq<CodeUnit>, pos: nat, written: seq<Octet>, n: nat, capacity: nat)
    requires Converted(text, pos, written) && pos + n <= |text| && |written| + 3 * n <= capacity
    requires !SplitsPair(text[pos..], n) && !WellFormed(text[pos..pos + n])
    requires ChunkBreaks(text, capacity)
    ensures SafeResult(text, capacity, 0)
  {
    hide Transcode, Fitting, ValidLength, ChunkBreaks;
    var rest, chunk := text[pos..], text[pos..pos + n];
    assert rest[..n] == chunk && text == text[..pos] + rest;
    CutBetweenCharacters(rest, n);
    var v := ValidLength(chunk);
    WellFormedConcat(text[..pos], rest);
    HeadOfChunk(text, pos, written, n, v);
    FittingIsLongest(text, capacity, pos + v);
    FittingFits(text, capacity);
  }

  lemma HeadOfChunk(text: seq<CodeUnit>, pos: nat, written: seq<Octet>, n: nat, v: nat)
    requires Converted(text, pos, written) && pos + n <= |text|
    requires v == ValidLength(text[pos..pos + n]) < n
    ensures WellFormed(text[..pos + v]) && |Transcode(text[..pos + v])| <= |written| + 3 * v
  {
    hide Transcode, ValidLength;
    var head := text[pos..pos + n][..v];
    assert text[..pos + v] == text[..pos] + head;
    ValidPrefix(text[pos..pos + n]);
    WellFormedConcat(text[..pos], head);
    TranscodeBound(head);
  }

  // The scalar routine on the rest of the text settles the result.
  lemma LastPart(text: seq<CodeUnit>, pos: nat, written: seq<Octet>, capacity: nat, error: ErrorCode, p: nat,
                 tail: seq<Octet>)
    requires Converted(text, pos, written) && |written| + |tail| <= capacity
    requires Converted(text[pos..], p, tail)
    requires StoppedAt(text[pos..], true, capacity - |written|, error, p, |tail|)
    requires !ChunkBreaks(text, capacity)
    ensures error == SURROGATE ==> SafeResult(text, capacity, 0)
    ensures error != SURROGATE ==>
              && SafeResult(text, capacity, |written| + |tail|)
              && written + tail == Transcode(text[..Fitting(text, capacity)])
  {
    hide Transcode, Fitting, ValidLength, ChunkBreaks;
    var rest := text[pos..];
    assert text == text[..pos] + rest && rest[..p] == text[pos..pos + p];
    WellFormedConcat(text[..pos], rest);
    WellFormedConcat(text[..pos], rest[..p]);
    assert text[..pos + p] == text[..pos] + rest[..p];
    FittingConcat(text[..pos], rest, capacity);
    FittingFits(text, capacity);
    if error != OUTPUT_BUFFER_TOO_SMALL {
      FittingIsLongest(text, capacity, pos + p);
      assert error == SUCCESS ==> text[..pos + p] == text;
    }
  }

  method ConvertUtf16ToUtf8Safe(text: seq<CodeUnit>, output: array<Octet>, capacity: nat) returns (r: nat)
    requires capacity <= output.Length
    modifies output
    ensures SafeResult(text, capacity, r) && r <= capacity
    ensures output[..r] == Transcode(text[..Fitting(text, capacity)])[..r]
    ensures forall j :: capacity <= j < output.Length ==> output[j] == old(output[j])
  {
    hide Transcode, Fitting, ValidLength, Converted, StoppedAt, SafeResult, WellFormed, ChunkBreaks, SplitsPair;
    var pos: nat, w: nat := 0, 0;
    Start(text);
    assert output[..0] == [] && text[0..] == text;
    while true
      invariant pos <= |text| && w <= capacity
      invariant Converted(text, pos, output[..w])
      invariant ChunkBreaks(text, capacity) == ChunkBreaks(text[pos..], capacity - w)
      invariant forall j :: capacity <= j < output.Length ==> output[j] == old(output[j])
      decreases |text| - pos
    {
      var len := |text| - pos;
      var readLen := if len < (capacity - w) / 3 then len else (capacity - w) / 3;
      NextBreaks(text[pos..], capacity - w);
      if readLen <= 16 {
        break;
      }
      if readLen < len && IsHigh(text[pos + readLen - 1]) {
        // Do not split a pair: backtrack.
        readLen := readLen - 1;
      }
      ChunkSplitsNoPair(text[pos..], capacity - w);
      assert text[pos..][..readLen] == text[pos..pos + readLen];
      assert text[pos..][readLen..] == text[pos + readLen..];
      ghost var done := output[..w];
      var n := ConvertChunk(text, pos, readLen, output, w, capacity);
      if n == 0 {
        BrokenChunk(text, pos, done, readLen, capacity);
        assert output[..0] == [];
        return 0;
      }
      pos, w := pos + readLen, w + n;
    }
    ghost var done := output[..w];
    var error, p, n := ConvertWithErrors(text[pos..], output, w, true, capacity - w);
    LastPart(text, pos, done, capacity, error, p, output[w..w + n]);
    if error == SURROGATE {
      assert output[..0] == [];
      return 0;
    }
    r := w + n;
    assert output[..r] == done + output[w..r];
  }

  // One chunk behind what has been converted.
  method ConvertChunk(text: seq<CodeUnit>, pos: nat, readLen: nat, output: array<Octet>, w: nat, capacity: nat)
    returns (n: nat)
    requires 0 < readLen && pos + readLen <= |text| && w + 3 * readLen <= capacity <= output.Length
    requires Converted(text, pos, output[..w])
    modifies output
    ensures n == 0 <==> !WellFormed(text[pos..pos + readLen])
    ensures n > 0 ==>
              && w + n <= capacity && n == |Transcode(text[pos..pos + readLen])|
              && Converted(text, pos + readLen, output[..w + n])
    ensures forall j :: capacity <= j < output.Length ==> output[j] == old(output[j])
  {
    hide Transcode, Converted, WellFormed;
    ghost var done := output[..w];
    n := ConvertUtf16ToUtf8(text[pos..pos + readLen], output, w);
    if n > 0 {
      NextChunk(text, pos, done, readLen);
      assert output[..w + n] == done + output[w..w + n];
    }
  }

  lemma NextBreaks(text: seq<CodeUnit>, capacity: nat)
    ensures var n := ChunkLength(text, capacity);
            ChunkBreaks(text, capacity)
            <==> n > 0 && (!WellFormed(text[..n])
                           || (|Transcode(text[..n])| <= capacity
                               && ChunkBreaks(text[n..], capacity - |Transcode(text[..n])|)))
  {
    hide ChunkLength, WellFormed;
    TranscodeBound(text[..ChunkLength(text, capacity)]);
  }

  lemma NextChunk(text: seq<CodeUnit>, pos: nat, written: seq<Octet>, n: nat)
    requires Converted(text, pos, written) && pos + n <= |text| && WellFormed(text[pos..pos + n])
    ensures Converted(text, pos + n, written + Transcode(text[pos..pos + n]))
    ensures |Transcode(text[pos..pos + n])| <= 3 * n
  {
    hide Transcode;
    assert text[..pos + n] == text[..pos] + text[pos..pos + n];
    WellFormedConcat(text[..pos], text[pos..pos + n]);
    TranscodeBound(text[pos..pos + n]);
  }

  // ----- convert_latin1_to_utf8_safe -----

  // A Latin-1 character has the code of its byte.
  predicate IsLatin1(text: seq<CodeUnit>)
  {
    forall i :: 0 <= i < |text| ==> text[i] < 0x100
  }

  lemma {:induction false} Latin1IsWellFormed(text: seq<CodeUnit>)
    requires IsLatin1(text)
    ensures WellFormed(text) && |Transcode(text)| <= 2 * |text|
  {
    if text != [] {
      assert FirstLength(text) == 1;
      Latin1IsWellFormed(text[1..]);
    }
  }

  // convert_latin1_to_utf8, for an output with room for two bytes per character.
  method ConvertLatin1ToUtf8(text: seq<CodeUnit>, output: array<Octet>, at: nat) returns (n: nat)
    requires IsLatin1(text) && at + 2 * |text| <= output.Length
    modifies output
    ensures at + n <= output.Length && n <= 2 * |text| && output[at..at + n] == Transcode(text)
    ensures output[..at] == old(output[..at])
    ensures forall j :: at + 2 * |text| <= j < output.Length ==> output[j] == old(output[j])
  {
    hide Transcode, ValidLength, Converted;
    n := 0;
    var pos := 0;
    Start(text);
    assert output[at..at] == [];
    while pos < |text|
      invariant pos <= |text| && n <= 2 * pos
      invariant Converted(text, pos, output[at..at + n])
      invariant output[..at] == old(output[..at])
      invariant forall j :: at + 2 * |text| <= j < output.Length ==> output[j] == old(output[j])
    {
      ghost var done := output[at..at + n];
      var bytes := Latin1Bytes(text, pos, done);
      Append(output, at, n, bytes);
      pos, n := pos + 1, n + |bytes|;
    }
    assert text[..pos] == text;
    AllConverted(text, output[at..at + n]);
  }

  lemma AllConverted(text: seq<CodeUnit>, written: seq<Octet>)
    requires Converted(text, |text|, written)
    ensures written == Transcode(text)
  {
    assert text[..|text|] == text;
  }

  // One byte for an ASCII character, two for the others.
  method Latin1Bytes(text: seq<CodeUnit>, pos: nat, ghost done: seq<Octet>) returns (bytes: seq<Octet>)
    requires pos < |text| && IsLatin1(text) && Converted(text, pos, done)
    ensures Converted(text, pos + 1, done + bytes) && bytes == Utf8(FirstScalar(text[pos..]))
    ensures FirstLength(text[pos..]) == 1 && |bytes| == if text[pos] < 0x80 then 1 else 2
  {
    hide Transcode, ValidLength, Converted;
    NextCharacter(text, pos, done);
    OneUnit(text, pos);
    var byte := text[pos];
    bytes := if byte < 0x80 then [byte] else [byte / 0x40 + 0xC0, byte % 0x40 + 0x80];
  }

  // The scalar convert_safe, with its copies of sixteen ASCII bytes at once.
  method ConvertSafe(text: seq<CodeUnit>, output: array<Octet>, at: nat, capacity: nat) returns (n: nat)
    requires IsLatin1(text) && at + capacity <= output.Length
    modifies output
    ensures n <= capacity && output[at..at + n] == Transcode(text[..Fitting(text, capacity)])
    ensures output[..at] == old(output[..at])
    ensures forall j :: at + capacity <= j < output.Length ==> output[j] == old(output[j])
  {
    hide Transcode, ValidLength, Converted, Fitting;
    n := 0;
    var pos, skipPos := 0, 0;
    Start(text);
    assert output[at..at] == [];
    while pos < |text| && n < capacity
      invariant pos <= |text| && n <= capacity
      invariant Converted(text, pos, output[at..at + n])
      invariant output[..at] == old(output[..at])
      invariant forall j :: at + capacity <= j < output.Length ==> output[j] == old(output[j])
      decreases |text| - pos, skipPos <= pos
    {
      ghost var done := output[at..at + n];
      if pos >= skipPos && pos + 16 <= |text| && n + 16 <= capacity {
        if IsAscii(text[pos..pos + 16]) {
          AsciiRun(text, pos, done, 16);
          Append(output, at, n, AsOctets(text[pos..pos + 16]));
          pos, n := pos + 16, n + 16;
        } else {
          // At least one of the next 16 bytes is not ASCII: one by one.
          skipPos := pos + 16;
        }
      } else {
        var bytes := Latin1Bytes(text, pos, done);
        if n + |bytes| > capacity {
          StopsHere(text, pos, done, capacity);
          StoppedLatin1(text, pos, done);
          return;
        }
        Append(output, at, n, bytes);
        pos, n := pos + 1, n + |bytes|;
      }
    }
    StopsHere(text, pos, output[at..at + n], capacity);
    StoppedLatin1(text, pos, output[at..at + n]);
  }

  function AsOctets(units: seq<CodeUnit>): (b: seq<Octet>)
    requires IsAscii(units)
    ensures |b| == |units|
  {
    seq(|units|, i requires 0 <= i < |units| => units[i] as int)
  }

  lemma {:induction false} AsciiRun(text: seq<CodeUnit>, pos: nat, done: seq<Octet>, n: nat)
    requires pos + n <= |text| && IsAscii(text[pos..pos + n]) && Converted(text, pos, done)
    ensures Converted(text, pos + n, done + AsOctets(text[pos..pos + n]))
  {
    hide Transcode, ValidLength, Converted;
    if n > 0 {
      var run := text[pos..pos + n];
      assert run[..n - 1] == text[pos..pos + (n - 1)];
      AsciiRun(text, pos, done, n - 1);
      var last := pos + (n - 1);
      assert text[last] == run[n - 1];
      NextCharacter(text, last, done + AsOctets(run[..n - 1]));
      OneUnit(text, last);
      assert AsOctets(run) == AsOctets(run[..n - 1]) + [text[last]];
      assert done + AsOctets(run) == done + AsOctets(run[..n - 1]) + [text[last]];
    } else {
      assert done + AsOctets(text[pos..pos]) == done;
    }
  }

  lemma StoppedLatin1(text: seq<CodeUnit>, pos: nat, written: seq<Octet>)
    requires Converted(text, pos, written)
    ensures pos <= |text| && written == Transcode(text[..pos])
  {
  }

  method ConvertLatin1ToUtf8Safe(text: seq<CodeUnit>, output: array<Octet>, capacity: nat) returns (r: nat)
    requires IsLatin1(text) && capacity <= output.Length
    modifies output
    ensures r <= capacity && output[..r] == Transcode(text[..Fitting(text, capacity)])
    ensures forall j :: capacity <= j < output.Length ==> output[j] == old(output[j])
  {
    hide Transcode, ValidLength, Converted, Fitting;
    var pos: nat, w: nat := 0, 0;
    Start(text);
    assert output[..0] == [];
    while true
      invariant pos <= |text| && w <= capacity
      invariant Converted(text, pos, output[..w])
      invariant forall j :: capacity <= j < output.Length ==> output[j] == old(output[j])
      decreases |text| - pos
    {
      // One character never needs more than two bytes.
      var len := |text| - pos;
      var readLen := if len < (capacity - w) / 2 then len else (capacity - w) / 2;
      if readLen <= 16 {
        break;
      }
      ghost var done := output[..w];
      var chunk := text[pos..pos + readLen];
      Latin1IsWellFormed(chunk);
      var n := ConvertLatin1ToUtf8(chunk, output, w);
      NextChunk(text, pos, done, readLen);
      assert output[..w + n] == done + output[w..w + n];
      pos, w := pos + readLen, w + n;
    }
    ghost var done := output[..w];
    var n := ConvertSafe(text[pos..], output, w, capacity - w);
    r := w + n;
    assert output[..r] == done + output[w..r];
    LastLatin1(text, pos, done, capacity);
  }

  lemma LastLatin1(text: seq<CodeUnit>, pos: nat, written: seq<Octet>, capacity: nat)
    requires Converted(text, pos, written) && |written| <= capacity
    ensures written + Transcode(text[pos..][..Fitting(text[pos..], capacity - |written|)])
         == Transcode(text[..Fitting(text, capacity)])
  {
    hide Transcode, Fitting;
    var rest := text[pos..];
    var n := Fitting(rest, capacity - |written|);
    assert text == text[..pos] + rest;
    FittingConcat(text[..pos], rest, capacity);
    assert text[..pos + n] == text[..pos] + rest[..n];
    WellFormedConcat(text[..pos], rest[..n]);
  }
}
