/**
  * The files of the fastbase64 tool (tools/fastbase64.cpp): a byte sequence with a read position,
  * and a byte sequence that grows.
  */
module Fastbase64Files {
  import opened Base64

  class InputFile {
    const data: seq<byte>
    var pos: nat

    constructor (data: seq<byte>)
      ensures this.data == data && pos == 0
    {
      this.data := data;
      pos := 0;
    }

    // load_chunk: fill the rest of the buffer.  Only the end of the file makes a read short.
    method LoadChunk(buffer: array<byte>, offset: nat) returns (more: bool, count: nat)
      requires pos <= |data| && offset <= buffer.Length
      modifies this, buffer
      ensures pos == old(pos) + count <= |data|
      ensures more <==> offset + count == buffer.Length
      ensures offset + count <= buffer.Length && (!more ==> pos == |data|)
      ensures buffer[..offset + count] == old(buffer[..offset]) + data[old(pos)..pos]
    {
      count := 0;
      while offset + count < buffer.Length && pos < |data|
        invariant offset + count <= buffer.Length && pos == old(pos) + count <= |data|
        invariant buffer[..offset + count] == old(buffer[..offset]) + data[old(pos)..pos]
      {
        buffer[offset + count] := data[pos];
        pos := pos + 1;
        count := count + 1;
      }
      more := offset + count == buffer.Length;
    }
  }

  class OutputFile {
    var data: seq<byte>

    constructor ()
      ensures data == []
    {
      data := [];
    }

    method Write(text: seq<byte>)
      modifies this
      ensures data == old(data) + text
    {
      data := data + text;
    }
  }
}
