/**
  * The encoding loop of the fastbase64 tool (tools/fastbase64.cpp) with its line wrapping.
  */
module Fastbase64Encode {
  import opened Base64
  import opened SimdutfBase64
  import opened Fastbase64Files
  import opened Buffers

  const NEWLINE: byte := 10

  // ----- What wrapped text is -----

  // Cut a text into lines of `width` characters.
  function Lines(text: seq<byte>, width: nat): (lines: seq<seq<byte>>)
    requires width > 0
    ensures |lines| > 0
    decreases |text|
  {
    if |text| <= width then [text] else [text[..width]] + Lines(text[width..], width)
  }

  function JoinLines(lines: seq<seq<byte>>): seq<byte>
    requires |lines| > 0
  {
    if |lines| == 1 then lines[0] else lines[0] + [NEWLINE] + JoinLines(lines[1..])
  }

  function Wrapped(text: seq<byte>, width: nat): seq<byte>
    requires width > 0
  {
    JoinLines(Lines(text, width))
  }

  // Every line but the last has exactly the wrap width, the last is not longer and only empty if
  // there is nothing to write, and without the line breaks the text is what it was.
  lemma {:induction false} LinesAreFull(text: seq<byte>, width: nat)
    requires width > 0
    ensures var lines := Lines(text, width);
            && (forall i :: 0 <= i < |lines| - 1 ==> |lines[i]| == width)
            && |lines[|lines| - 1]| <= width
            && (text != [] ==> lines[|lines| - 1] != [])
            && Joined(lines) == text
    decreases |text|
  {
    var lines := Lines(text, width);
    if |text| > width {
      LinesAreFull(text[width..], width);
      assert lines[1..] == Lines(text[width..], width);
    } else {
      assert lines[1..] == [];
      assert Joined(lines) == text + [];
    }
  }

  // The column after writing a text of n characters.
  function Column(n: nat, width: nat): (c: nat)
    requires width > 0
    ensures c <= width && (c == 0 <==> n == 0)
  {
    if n <= width then n else Column(n - width, width)
  }

  // One piece that fits on the current line, or on the next one if the current line is full.
  lemma {:induction false} WrapPiece(text: seq<byte>, piece: seq<byte>, width: nat)
    requires width > 0 && piece != []
    requires var c := Column(|text|, width); |piece| <= if c == width then width else width - c
    ensures var c := Column(|text|, width);
            && Wrapped(text + piece, width)
               == Wrapped(text, width) + (if c == width then [NEWLINE] else []) + piece
            && Column(|text + piece|, width) == (if c == width then 0 else c) + |piece|
    decreases |text|
  {
    hide Lines, JoinLines;
    var all := text + piece;
    if |text| <= width {
      WrapShort(text, piece, width);
    } else {
      WrapPiece(text[width..], piece, width);
      assert all[..width] == text[..width] && all[width..] == text[width..] + piece;
      WrapLong(text, width);
      WrapLong(all, width);
    }
  }

  lemma WrapLong(text: seq<byte>, width: nat)
    requires 0 < width < |text|
    ensures Wrapped(text, width) == text[..width] + [NEWLINE] + Wrapped(text[width..], width)
  {
    assert Lines(text, width)[1..] == Lines(text[width..], width);
  }

  lemma WrapShort(text: seq<byte>, piece: seq<byte>, width: nat)
    requires |text| <= width && 0 < |piece| <= if |text| == width then width else width - |text|
    ensures Wrapped(text + piece, width) == text + (if |text| == width then [NEWLINE] else []) + piece
    ensures Wrapped(text, width) == text
  {
    var all := text + piece;
    assert JoinLines([text]) == text && JoinLines([piece]) == piece && JoinLines([all]) == all;
    if |text| == width {
      assert all[..width] == text && all[width..] == piece;
      assert Lines(all, width) == [text, piece];
      assert [text, piece][1..] == [piece];
    } else {
      assert text + [] + piece == all;
    }
  }

  // ----- What the carry loses -----

  // A full chunk without the bytes that are carried over.
  function Stride(chunkSize: nat): (d: nat)
    requires chunkSize >= 3
    ensures d >= 3 && d % 3 == 0 && d + chunkSize % 3 == chunkSize
  {
    chunkSize - chunkSize % 3
  }

  // Where a turn of the loop may start.
  predicate AtTurn(chunkSize: nat, n: nat, offset: nat)
    requires chunkSize >= 3
  {
    n % Stride(chunkSize) == 0 && offset == if n == 0 then 0 else chunkSize % 3
  }

  // The number of bytes at the end of a file that are not encoded: the carry, if the file ends
  // exactly with a full chunk.
  function Lost(length: nat, chunkSize: nat): (lost: nat)
    requires chunkSize >= 3
    ensures lost <= length
  {
    if length >= chunkSize && (length - chunkSize % 3) % Stride(chunkSize) == 0 then chunkSize % 3 else 0
  }

  // The tool's chunks lose nothing; other sizes do.
  lemma LostBytes(length: nat)
    ensures Lost(length, 49152) == 0
    ensures Lost(4, 4) == 1 && Lost(7, 4) == 1 && Lost(5, 4) == 0 && Lost(8, 5) == 2
  {
  }

  lemma Gap(a: nat, b: nat, d: nat)
    ensures a < b ==> d * a + d <= d * b
  {
    if a < b {
      assert d * b == d * (a + 1) + d * (b - a - 1);
    }
  }

  lemma QuotientIsUnique(q: nat, c: nat, q': nat, c': nat, d: nat)
    requires d * q + c == d * q' + c' && c < d && c' < d
    ensures c == c'
  {
    Gap(q, q', d);
    Gap(q', q, d);
  }

  lemma Remainder(q: nat, d: nat, c: nat)
    requires c < d
    ensures (d * q + c) % d == c
  {
    var a := d * q + c;
    assert a == d * (a / d) + a % d;
    QuotientIsUnique(q, c, a / d, a % d, d);
  }

  lemma Turns(n: nat, d: nat, c: nat)
    requires d > 0 && n % d == 0 && c <= d
    ensures (n + c) % d == 0 <==> c == 0 || c == d
  {
    var q := n / d;
    assert n == d * q;
    if c < d {
      Remainder(q, d, c);
    } else {
      Remainder(q + 1, d, 0);
      assert n + c == d * (q + 1) + 0;
    }
  }

  lemma NextTurn(n: nat, chunkSize: nat, offset: nat)
    requires chunkSize >= 3 && AtTurn(chunkSize, n, offset)
    ensures AtTurn(chunkSize, n + Stride(chunkSize), chunkSize % 3)
  {
    Turns(n, Stride(chunkSize), Stride(chunkSize));
  }

  // ----- The tool -----

  class Encoder {
    const wrapCols: int
    var currentCol: int

    constructor (wrapCols: int)
      ensures this.wrapCols == wrapCols
    {
      this.wrapCols := wrapCols;
      currentCol := 0;
    }

    function Layout(text: seq<byte>): seq<byte>
    {
      if wrapCols <= 0 then text else Wrapped(text, wrapCols)
    }

    // `text` was written to the file and the column says where the next character goes.
    ghost predicate HasWritten(output: OutputFile, text: seq<byte>)
      reads this, output
    {
      output.data == Layout(text) && (wrapCols > 0 ==> currentCol == Column(|text|, wrapCols))
    }

    // write_with_wrapping: how the data is cut into calls leaves no trace in the output.
    method WriteWithWrapping(output: OutputFile, data: seq<byte>, ghost text: seq<byte>)
      requires HasWritten(output, text)
      modifies this, output
      ensures HasWritten(output, text + data)
    {
      hide Wrapped;
      if wrapCols <= 0 {
        output.Write(data);
        return;
      }
      var i := 0;
      assert text + data[..0] == text;
      while i < |data|
        invariant i <= |data| && HasWritten(output, text + data[..i])
      {
        ghost var so := text + data[..i];
        ghost var col := currentCol;
        if currentCol >= wrapCols {
          output.Write([NEWLINE]);
          currentCol := 0;
        }
        var remaining := wrapCols - currentCol;
        var toWrite := if remaining < |data| - i then remaining else |data| - i;
        var piece := data[i..i + toWrite];
        WrapPiece(so, piece, wrapCols);
        output.Write(piece);
        currentCol := currentCol + toWrite;
        i := i + toWrite;
        assert text + data[..i] == so + piece;
      }
      assert data[..i] == data;
    }

    method WriteText(output: OutputFile, data: seq<byte>, ghost text: seq<byte>)
      requires HasWritten(output, text)
      modifies this, output
      ensures HasWritten(output, text + data)
    {
      if wrapCols == 0 {
        output.Write(data);
      } else {
        WriteWithWrapping(output, data, text);
      }
    }

    // Encode and write the next part of the file; what came before it is a multiple of three bytes.
    method EncodePart(output: OutputFile, part: seq<byte>, ghost before: seq<byte>)
      requires |before| % 3 == 0 && HasWritten(output, ToText(before, Standard, true))
      modifies this, output
      ensures HasWritten(output, ToText(before + part, Standard, true))
    {
      hide ToText;
      ToTextConcat(before, part, Standard, true);
      WriteText(output, ToText(part, Standard, true), ToText(before, Standard, true));
    }

    // The newline after the last line.
    method EndLine(output: OutputFile, ghost text: seq<byte>)
      requires HasWritten(output, text)
      modifies output
      ensures output.data == Layout(text) + [NEWLINE]
    {
      output.Write([NEWLINE]);
    }

    // Before a turn of the loop: the first n bytes of the file are encoded and written, the next
    // ones are in the buffer, `offset` of them carried over and `count` just read.
    ghost predicate Reading(input: InputFile, output: OutputFile, buffer: array<byte>, more: bool, count: nat,
                            offset: nat, n: nat)
      reads this, input, output, buffer
    {
      && offset + count <= buffer.Length && offset < 3
      && (more <==> offset + count == buffer.Length)
      && n + offset + count == input.pos <= |input.data| && (!more ==> input.pos == |input.data|)
      && buffer.Length >= 3 && AtTurn(buffer.Length, n, offset)
      && n % 3 == 0 && buffer[..offset + count] == input.data[n..input.pos]
      && HasWritten(output, ToText(input.data[..n], Standard, true))
    }

    // A turn that is not the last: encode whole groups, keep the last 0, 1 or 2 bytes, read on.
    method EncodeChunk(input: InputFile, output: OutputFile, buffer: array<byte>, count0: nat, offset0: nat,
                       ghost n0: nat)
      returns (more: bool, count: nat, offset: nat, ghost n: nat)
      requires Reading(input, output, buffer, true, count0, offset0, n0)
      modifies this, input, output, buffer
      ensures Reading(input, output, buffer, more, count, offset, n) && n > n0
    {
      hide ToText, HasWritten, Stride, AtTurn;
      ghost var all := input.data;
      var size := count0 + offset0;
      offset := size % 3;
      var total := size - offset;
      n := n0 + total;
      NextTurn(n0, buffer.Length, offset0);
      WholeGroups(n0, size);
      EncodeStart(input, output, buffer, total, n0);
      more, count := Refill(input, buffer, total, offset, n);
    }

    method EncodeStart(input: InputFile, output: OutputFile, buffer: array<byte>, total: nat, ghost n: nat)
      requires n % 3 == 0 && total <= buffer.Length && n + total <= |input.data|
      requires buffer[..total] == input.data[n..n + total]
      requires HasWritten(output, ToText(input.data[..n], Standard, true))
      modifies this, output
      ensures HasWritten(output, ToText(input.data[..n + total], Standard, true))
    {
      hide ToText, HasWritten;
      var part := buffer[..total];
      assert input.data[..n + total] == input.data[..n] + part;
      EncodePart(output, part, input.data[..n]);
    }

    // Keep the bytes behind the first `total` ones and read on.
    method Refill(input: InputFile, buffer: array<byte>, total: nat, offset: nat, ghost n: nat)
      returns (more: bool, count: nat)
      requires total + offset == buffer.Length && n + offset == input.pos <= |input.data|
      requires buffer[total..] == input.data[n..input.pos]
      modifies input, buffer
      ensures offset + count <= buffer.Length && (more <==> offset + count == buffer.Length)
      ensures n + offset + count == input.pos <= |input.data| && (!more ==> input.pos == |input.data|)
      ensures buffer[..offset + count] == input.data[n..input.pos]
    {
      ghost var all, read := input.data, input.pos;
      MoveDown(buffer, total, offset);
      assert buffer[..offset] == all[n..read];
      more, count := input.LoadChunk(buffer, offset);
      assert all[n..read] + all[read..input.pos] == all[n..input.pos];
    }

    lemma WholeGroups(n: nat, size: nat)
      requires n % 3 == 0 && size >= 3
      ensures (n + (size - size % 3)) % 3 == 0 && size - size % 3 == Stride(size)
    {
    }

    // encode_to.  The carry of up to two bytes is lost if the file ends exactly with a full chunk.
    method EncodeTo(input: InputFile, output: OutputFile, chunkSize: nat)
      requires input.pos == 0 && output.data == [] && chunkSize >= 3
      modifies this, input, output
      ensures var encoded := input.data[..|input.data| - Lost(|input.data|, chunkSize)];
              output.data == Layout(ToText(encoded, Standard, true)) + [NEWLINE]
    {
      hide ToText, Layout, HasWritten, Reading, Lost;
      var buffer := new byte[chunkSize];
      var more, count := Begin(input, output, buffer);
      var offset: nat := 0;
      ghost var n: nat := 0;
      while count > 0
        invariant fresh(buffer) && buffer.Length == chunkSize && Reading(input, output, buffer, more, count, offset, n)
        decreases |input.data| - n
      {
        ReadingBounds(input, output, buffer, more, count, offset, n);
        if !more {
          LastPart(input, output, buffer, count, offset, n);
          return;
        }
        more, count, offset, n := EncodeChunk(input, output, buffer, count, offset, n);
        ReadingBounds(input, output, buffer, more, count, offset, n);
      }
      NothingMore(input, output, buffer, more, offset, n);
    }

    method Begin(input: InputFile, output: OutputFile, buffer: array<byte>) returns (more: bool, count: nat)
      requires input.pos == 0 && output.data == [] && buffer.Length >= 3
      modifies this, input, buffer
      ensures Reading(input, output, buffer, more, count, 0, 0)
    {
      hide ToText, HasWritten;
      currentCol := 0;
      NothingWritten(output);
      assert input.data[..0] == [];
      more, count := input.LoadChunk(buffer, 0);
    }

    lemma ReadingBounds(input: InputFile, output: OutputFile, buffer: array<byte>, more: bool, count: nat, offset: nat,
                        n: nat)
      requires Reading(input, output, buffer, more, count, offset, n)
      ensures n <= |input.data|
    {
    }

    // The last chunk is short.
    method LastPart(input: InputFile, output: OutputFile, buffer: array<byte>, count: nat, offset: nat, ghost n: nat)
      requires Reading(input, output, buffer, false, count, offset, n) && count > 0
      modifies this, output
      ensures var encoded := input.data[..|input.data| - Lost(|input.data|, buffer.Length)];
              output.data == Layout(ToText(encoded, Standard, true)) + [NEWLINE]
    {
      hide ToText, HasWritten, Layout;
      ghost var all := input.data;
      var part := buffer[..count + offset];
      assert all == all[..n] + part;
      if n > 0 {
        Turns(n, Stride(buffer.Length), count);
      }
      assert all[..|all| - Lost(|all|, buffer.Length)] == all;
      EncodePart(output, part, all[..n]);
      EndLine(output, ToText(all, Standard, true));
    }

    // Nothing more was read, and what is carried over is dropped.
    method NothingMore(input: InputFile, output: OutputFile, buffer: array<byte>, more: bool, offset: nat, ghost n: nat)
      requires Reading(input, output, buffer, more, 0, offset, n)
      modifies output
      ensures var encoded := input.data[..|input.data| - Lost(|input.data|, buffer.Length)];
              output.data == Layout(ToText(encoded, Standard, true)) + [NEWLINE]
    {
      hide ToText, HasWritten, Layout;
      LostAtEnd(n, buffer.Length, offset);
      EndLine(output, ToText(input.data[..n], Standard, true));
    }

    lemma LostAtEnd(n: nat, chunkSize: nat, offset: nat)
      requires chunkSize >= 3 && AtTurn(chunkSize, n, offset)
      ensures Lost(n + offset, chunkSize) == offset
    {
      if n > 0 {
        var d := Stride(chunkSize);
        assert n >= d by {
          if n < d {
            Remainder(0, d, n);
          }
        }
      }
    }

    lemma NothingWritten(output: OutputFile)
      requires output.data == [] && currentCol == 0
      ensures HasWritten(output, ToText([], Standard, true))
    {
      assert ToText([], Standard, true) == [];
    }
  }
}
