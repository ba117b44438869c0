/**
  * The conversion loop of the sutf tool (tools/sutf.cpp) for UTF-8 input: the files are read as one
  * stream, a buffer at a time, and the bytes of a character that may be incomplete are left over
  * for the next buffer.
  */
module Sutf {
  import opened Unicode
  import opened Buffers

  // What a scalar value becomes in the target encoding (UTF-16 or UTF-32, in either byte order).
  type Target = ScalarValue -> seq<Octet>

  function Emit(vs: seq<ScalarValue>, target: Target): seq<Octet>
  {
    if vs == [] then [] else target(vs[0]) + Emit(vs[1..], target)
  }

  lemma {:induction false} EmitConcat(a: seq<ScalarValue>, b: seq<ScalarValue>, target: Target)
    ensures Emit(a + b, target) == Emit(a, target) + Emit(b, target)
  {
    if a == [] {
      assert a + b == b;
    } else {
      assert (a + b)[1..] == a[1..] + b;
      EmitConcat(a[1..], b, target);
    }
  }

  // Each character gives its own part of the output, in order.
  lemma {:induction false} EmitAt(vs: seq<ScalarValue>, target: Target, i: nat)
    requires i < |vs|
    ensures Emit([], target) == [] && Emit([vs[i]], target) == target(vs[i])
    ensures Emit(vs, target) == Emit(vs[..i], target) + target(vs[i]) + Emit(vs[i + 1..], target)
  {
    assert vs == vs[..i] + vs[i..] && vs[i..][1..] == vs[i + 1..];
    EmitConcat(vs[..i], vs[i..], target);
    assert Emit([vs[i]][1..], target) == [] && target(vs[i]) + [] == target(vs[i]);
    assert Emit(vs[..i], target) + (target(vs[i]) + Emit(vs[i + 1..], target))
        == Emit(vs[..i], target) + target(vs[i]) + Emit(vs[i + 1..], target);
  }

  // find_last_leading_byte on the first size bytes: back over at most four bytes.
  function FindLastLeadingByte(data: seq<Octet>, size: nat): (k: nat)
    requires 4 <= size <= |data|
    ensures size - 4 <= k < size
  {
    if !IsContinuation(data[size - 1]) then size - 1
    else if !IsContinuation(data[size - 2]) then size - 2
    else if !IsContinuation(data[size - 3]) then size - 3
    else size - 4
  }

  // In valid UTF-8 it is the start of the character that holds the last byte.
  lemma LastLeadingByte(vs: seq<ScalarValue>, size: nat)
    requires 4 <= size <= |Utf8All(vs)|
    ensures FindLastLeadingByte(Utf8All(vs), size) == BoundaryBelow(vs, size - 1)
  {
    hide Utf8All, BoundaryBelow;
    CharacterAround(vs, size - 1);
  }

  lemma MoveByte(head: seq<Octet>, front: seq<Octet>, pos: nat, tail: seq<Octet>)
    requires pos < |front|
    ensures head + (front[pos..] + tail) == (head + [front[pos]]) + (front[pos + 1..] + tail)
  {
    assert front[pos..] == [front[pos]] + front[pos + 1..];
  }

  // ----- The command line object -----

  class CommandLine {
    var inputFiles: seq<seq<Octet>>
    var fileOpen: bool  // current_file != NULL: the front file, read up to filePos
    var filePos: nat
    const inputData: array<Octet>
    var output: seq<Octet>

    constructor (files: seq<seq<Octet>>, chunkSize: nat)
      ensures Valid() && Unread() == Joined(files) && output == [] && fresh(inputData)
      ensures inputData.Length == chunkSize && inputFiles == files
    {
      inputFiles, fileOpen, filePos, output := files, false, 0, [];
      inputData := new Octet[chunkSize];
      new;
      assert files != [] ==> files[0][0..] == files[0];
    }

    ghost predicate Valid()
      reads this`inputFiles, this`fileOpen, this`filePos
    {
      && (fileOpen ==> inputFiles != [] && filePos <= |inputFiles[0]|)
      && (!fileOpen ==> filePos == 0)
    }

    // The bytes that are still to be read.
    ghost function Unread(): (unread: seq<Octet>)
      reads this`inputFiles, this`fileOpen, this`filePos
      requires Valid()
      ensures inputFiles == [] ==> unread == []
    {
      if inputFiles == [] then [] else inputFiles[0][filePos..] + Joined(inputFiles[1..])
    }

    // The stream that follows what has been converted: k bytes of the buffer and the unread ones.
    ghost function Pending(k: nat): (pending: seq<Octet>)
      reads this`inputFiles, this`fileOpen, this`filePos, inputData
      requires Valid() && k <= inputData.Length
      ensures |pending| == k + |Unread()|
    {
      inputData[..k] + Unread()
    }

    // load_chunk: fill the buffer behind the first size0 bytes, from as many files as it takes.  It
    // stops short only when no file is left.
    method LoadChunk(size0: nat) returns (size: nat)
      requires Valid() && inputFiles != [] && size0 <= inputData.Length
      modifies this`inputFiles, this`fileOpen, this`filePos, inputData
      ensures Valid() && size0 <= size <= inputData.Length
      ensures size == inputData.Length <==> inputFiles != []
      ensures Pending(size) == old(Pending(size0))
      ensures size0 < inputData.Length ==>
                |Unread()| < |old(Unread())| || |inputFiles| < |old(inputFiles)|
      ensures |Unread()| <= |old(Unread())| && |inputFiles| <= |old(inputFiles)|
      ensures size0 == inputData.Length ==>
                && inputData[..] == old(inputData[..])
                && inputFiles == old(inputFiles) && fileOpen == old(fileOpen) && filePos == old(filePos)
    {
      hide Joined, Unread, Pending;
      size := size0;
      while size < inputData.Length
        invariant Valid() && inputFiles != [] && size0 <= size <= inputData.Length
        invariant Pending(size) == old(Pending(size0))
        invariant |inputFiles| <= |old(inputFiles)|
        invariant size0 == inputData.Length ==>
                    && inputData[..] == old(inputData[..])
                    && inputFiles == old(inputFiles) && fileOpen == old(fileOpen) && filePos == old(filePos)
        decreases |inputFiles|, inputData.Length - size
      {
        if !fileOpen {
          Open();
        }
        var atEnd, bytesRead := Read(size);
        size := size + bytesRead;
        if atEnd {
          NextFile();
          if inputFiles == [] {
            break;
          }
        }
      }
    }

    // fopen.
    method Open()
      requires Valid() && !fileOpen && inputFiles != []
      modifies this`fileOpen
      ensures Valid() && fileOpen && Unread() == old(Unread())
      ensures forall k: nat :: k <= inputData.Length ==> Pending(k) == old(Pending(k))
    {
      fileOpen := true;
    }

    // fread of the rest of the buffer from the current file: short only at its end.
    method Read(size: nat) returns (atEnd: bool, bytesRead: nat)
      requires Valid() && fileOpen && size < inputData.Length
      modifies this`filePos, inputData
      ensures Valid() && size + bytesRead <= inputData.Length
      ensures Pending(size + bytesRead) == old(Pending(size))
      ensures atEnd <==> size + bytesRead < inputData.Length
      ensures atEnd ==> filePos == |inputFiles[0]|
    {
      hide Joined, Pending, Unread;
      bytesRead := 0;
      while size + bytesRead < inputData.Length && filePos < |inputFiles[0]|
        invariant size + bytesRead <= inputData.Length && filePos <= |inputFiles[0]|
        invariant Pending(size + bytesRead) == old(Pending(size))
      {
        ReadByte(size + bytesRead);
        bytesRead := bytesRead + 1;
      }
      atEnd := size + bytesRead < inputData.Length;
    }

    method ReadByte(k: nat)
      requires Valid() && fileOpen && k < inputData.Length && filePos < |inputFiles[0]|
      modifies this`filePos, inputData
      ensures Valid() && filePos == old(filePos) + 1 && Pending(k + 1) == old(Pending(k))
    {
      hide Joined;
      ghost var head, front, later := inputData[..k], inputFiles[0], Joined(inputFiles[1..]);
      MoveByte(head, front, filePos, later);
      StoreByte(k, inputFiles[0][filePos]);
      filePos := filePos + 1;
      assert Unread() == front[filePos..] + later;
    }

    method StoreByte(k: nat, b: Octet)
      requires k < inputData.Length
      modifies inputData
      ensures inputData[..k + 1] == old(inputData[..k]) + [b]
    {
      inputData[k] := b;
    }

    // fclose and pop.
    method NextFile()
      requires Valid() && fileOpen && filePos == |inputFiles[0]|
      modifies this`inputFiles, this`fileOpen, this`filePos
      ensures Valid() && !fileOpen && Unread() == old(Unread()) && |inputFiles| == old(|inputFiles|) - 1
      ensures forall k: nat :: k <= inputData.Length ==> Pending(k) == old(Pending(k))
    {
      ghost var front := inputFiles[0];
      assert front[|front|..] == [];
      inputFiles := inputFiles[1..];
      fileOpen := false;
      filePos := 0;
      assert inputFiles != [] ==> inputFiles[0][0..] == inputFiles[0];
    }

    // The UTF-8 procedures: convert the buffer, unless more follows only up to its last character.
    method Proc(size0: nat, target: Target) returns (size: nat)
      requires 4 <= size0 <= inputData.Length || (inputFiles == [] && size0 <= inputData.Length)
      modifies this`output
      ensures size == if inputFiles != [] then FindLastLeadingByte(inputData[..], size0) else size0
      ensures var d := DecodeUtf8(inputData[..size]); d.Some? ==> output == old(output) + Emit(d.value, target)
    {
      size := size0;
      if inputFiles != [] {
        size := FindLastLeadingByte(inputData[..], size);
      }
      match DecodeUtf8(inputData[..size]) {
        case None =>  // "Could not convert": nothing is written
        case Some(vs) => output := output + Emit(vs, target);
      }
    }

    // run_simdutf_procedure.  The output is the conversion of the concatenated files, for every
    // buffer that holds more than one character of the longest form.
    method Run(target: Target)
      requires Valid() && output == [] && inputData.Length >= 5
      requires DecodeUtf8(Unread()).Some?
      modifies this, inputData
      ensures inputFiles == []
      ensures output == Emit(DecodeUtf8(old(Unread())).value, target)
    {
      EncodeOfDecode(Unread());
      Convert(target, DecodeUtf8(Unread()).value);
    }

    method Convert(target: Target, ghost all: seq<ScalarValue>)
      requires Valid() && output == [] && inputData.Length >= 5 && Unread() == Utf8All(all)
      modifies this, inputData
      ensures inputFiles == [] && output == Emit(all, target)
    {
      assert Emit([], target) == [] && Pending(0) == Unread();
      hide Emit, Unread, Pending, Utf8All;
      ghost var rest, done := all, [];
      var leftovers: nat := 0;
      while inputFiles != []
        invariant Valid() && leftovers <= 4
        invariant all == done + rest && output == Emit(done, target)
        invariant inputFiles != [] ==> Pending(leftovers) == Utf8All(rest)
        invariant inputFiles == [] ==> done == all
        decreases |inputFiles| + |Unread()|
      {
        var inputSize := LoadChunk(leftovers);
        leftovers, done, rest := ConvertBuffer(inputSize, target, done, rest);
      }
    }

    // A turn of the loop of run_simdutf_procedure with a buffer of four bytes, the size the source
    // calls sufficient.  If it holds a character of four bytes, nothing at all changes: the next
    // turn is the same.
    method StallWithFourBytes(target: Target, ghost v: ScalarValue) returns (leftovers: nat)
      requires Valid() && inputFiles != [] && inputData.Length == 4
      requires v >= 0x1_0000 && inputData[..] == Utf8(v)
      modifies this, inputData
      ensures leftovers == 4 && inputData[..] == old(inputData[..]) && output == old(output)
      ensures inputFiles == old(inputFiles) && fileOpen == old(fileOpen) && filePos == old(filePos)
    {
      hide Utf8;
      HeldBack(v);
      NothingToEmit(target);
      leftovers := 4;
      var inputSize := LoadChunk(leftovers);
      var size := Proc(inputSize, target);
      assert inputData[..size] == [];
      leftovers := inputSize - size;
      MoveDown(inputData, inputSize - leftovers, leftovers);
      assert inputData[..leftovers] == inputData[..];
    }

    // The run that gets there: a single file with such a character.  After any number of turns the
    // file is still open, so that the loop goes on, and nothing is written.
    static method RunWithFourBytes(target: Target, v: ScalarValue, turns: nat) returns (c: CommandLine)
      requires v >= 0x1_0000
      ensures fresh(c) && c.Valid() && c.inputFiles != [] && c.output == []
    {
      hide Utf8, Emit, DecodeUtf8, Joined;
      c := new CommandLine([Utf8(v)], 4);
      HeldBack(v);
      NothingToEmit(target);
      OneFile(Utf8(v));
      assert c.Pending(0) == Utf8(v);
      if turns > 0 {
        var inputSize := c.LoadChunk(0);
        FilledByOne(c.inputData[..inputSize], c.Unread(), Utf8(v));
        var size := c.Proc(inputSize, target);
        MoveDown(c.inputData, size, inputSize - size);
        assert c.inputData[..4] == c.inputData[..];
        for i := 1 to turns
          invariant c.Valid() && c.inputFiles != [] && c.output == [] && c.inputData[..] == Utf8(v)
        {
          var leftovers := c.StallWithFourBytes(target, v);
        }
      }
    }

    // One turn of the loop: convert what the buffer holds and carry the rest to its start.
    method ConvertBuffer(inputSize: nat, target: Target, ghost done: seq<ScalarValue>, ghost rest: seq<ScalarValue>)
      returns (leftovers: nat, ghost nowDone: seq<ScalarValue>, ghost nowRest: seq<ScalarValue>)
      requires Valid() && inputSize <= inputData.Length && (inputSize >= 4 || inputFiles == [])
      requires Pending(inputSize) == Utf8All(rest) && output == Emit(done, target)
      modifies this`output, inputData
      ensures leftovers <= 4 && leftovers <= inputSize
      ensures nowDone + nowRest == done + rest && output == Emit(nowDone, target)
      ensures Pending(leftovers) == Utf8All(nowRest)
      ensures inputFiles == [] ==> nowDone == done + rest
    {
      hide Emit, Joined, Unread, Utf8All, DecodeUtf8, FindLastLeadingByte, ConvertedCharacters;
      ghost var n := ConvertedCharacters(rest, inputSize, inputFiles == []);
      ghost var cut := if inputFiles != [] then FindLastLeadingByte(inputData[..], inputSize) else inputSize;
      CutBuffer(rest, inputData[..], inputSize, cut, inputFiles == [], Unread());
      var size := Proc(inputSize, target);
      leftovers := inputSize - size;
      Progress(done, rest, n, target);
      nowDone, nowRest := done + rest[..n], rest[n..];
      MoveDown(inputData, inputSize - leftovers, leftovers);
    }
  }

  // The characters that one buffer of the stream converts.
  function ConvertedCharacters(rest: seq<ScalarValue>, size: nat, last: bool): (n: nat)
    ensures n <= |rest|
  {
    CharactersBelow(rest, if last || size == 0 then size else size - 1)
  }

  lemma Progress(done: seq<ScalarValue>, rest: seq<ScalarValue>, n: nat, target: Target)
    requires n <= |rest|
    ensures (done + rest[..n]) + rest[n..] == done + rest
    ensures Emit(done + rest[..n], target) == Emit(done, target) + Emit(rest[..n], target)
  {
    hide Emit;
    EmitConcat(done, rest[..n], target);
    assert rest[..n] + rest[n..] == rest;
    assert (done + rest[..n]) + rest[n..] == done + (rest[..n] + rest[n..]);
  }

  // The part of the buffer that is converted consists of whole characters of the stream, and the
  // leftover bytes with the unread ones are all the others.
  lemma CutBuffer(rest: seq<ScalarValue>, buffer: seq<Octet>, size: nat, cut: nat, last: bool, unread: seq<Octet>)
    requires cut <= size <= |buffer| && buffer[..size] + unread == Utf8All(rest)
    requires if last then cut == size && unread == [] else size >= 4 && cut == FindLastLeadingByte(buffer, size)
    ensures var n := ConvertedCharacters(rest, size, last);
            && DecodeUtf8(buffer[..cut]) == Some(rest[..n])
            && Utf8All(rest[n..]) == buffer[cut..size] + unread
            && (last ==> n == |rest|)
  {
    hide Utf8All, DecodeUtf8, CharactersBelow, BoundaryBelow, FindLastLeadingByte;
    var text := Utf8All(rest);
    var c := if last then size else size - 1;
    BoundarySplits(rest, c);
    if !last {
      SameLastLeadingByte(buffer, text, size, unread);
      LastLeadingByte(rest, size);
    }
    DecodeOfEncode(rest[..CharactersBelow(rest, c)]);
    CutOf(buffer, unread, size, cut);
  }

  lemma CutOf(buffer: seq<Octet>, unread: seq<Octet>, size: nat, cut: nat)
    requires cut <= size <= |buffer|
    ensures (buffer[..size] + unread)[..cut] == buffer[..cut]
    ensures (buffer[..size] + unread)[cut..] == buffer[cut..size] + unread
  {
  }

  lemma SameLastLeadingByte(buffer: seq<Octet>, text: seq<Octet>, size: nat, unread: seq<Octet>)
    requires 4 <= size <= |buffer| && text == buffer[..size] + unread
    ensures FindLastLeadingByte(text, size) == FindLastLeadingByte(buffer, size)
  {
    assert forall i :: 0 <= i < size ==> buffer[i] == buffer[..size][i] == text[i];
  }

  lemma OneFile(file: seq<Octet>)
    ensures Joined([file]) == file
  {
    assert [file][1..] == [];
    assert file + [] == file;
  }

  lemma FilledByOne(buffer: seq<Octet>, unread: seq<Octet>, text: seq<Octet>)
    requires buffer + unread == text && |buffer| == |text|
    ensures buffer == text && unread == []
  {
    assert (buffer + unread)[..|buffer|] == buffer;
  }

  lemma NothingToEmit(target: Target)
    ensures DecodeUtf8([]) == Some([]) && Emit([], target) == []
  {
  }

  // A buffer of four bytes that starts at a character is held back whole exactly if that is a
  // character of four bytes.  So five bytes, enough for Run, are the least that suffice.
  lemma FourBytesAreNotEnough(rest: seq<ScalarValue>, buffer: seq<Octet>)
    requires rest != [] && |buffer| == 4 && buffer <= Utf8All(rest)
    ensures FindLastLeadingByte(buffer, 4) == 0 <==> |Utf8(rest[0])| == 4
  {
    hide Utf8;
    var all, first := Utf8All(rest), Utf8(rest[0]);
    Utf8Layout(rest[0]);
    assert forall i :: 0 <= i < 4 ==> buffer[i] == all[i];
    assert forall i :: 0 <= i < |first| ==> all[i] == first[i];
    if |first| < 4 {
      Utf8Layout(rest[1]);
      assert all[|first|] == Utf8(rest[1])[0];
    }
  }

  lemma HeldBack(v: ScalarValue)
    requires v >= 0x1_0000
    ensures |Utf8(v)| == 4 && FindLastLeadingByte(Utf8(v), 4) == 0
  {
  }
}
