/**
  * Copies between buffers, and the parts of a text.
  */
module Buffers {

  // memcpy of the values to the buffer from position `at` on.
  method Store<T>(buffer: array<T>, at: nat, values: seq<T>)
    requires at + |values| <= buffer.Length
    modifies buffer
    ensures buffer[..at + |values|] == old(buffer[..at]) + values
    ensures forall j :: at + |values| <= j < buffer.Length ==> buffer[j] == old(buffer[j])
  {
    for i := 0 to |values|
      invariant buffer[..at + i] == old(buffer[..at]) + values[..i]
      invariant forall j :: at + i <= j < buffer.Length ==> buffer[j] == old(buffer[j])
    {
      buffer[at + i] := values[i];
    }
  }

  // memmove or memcpy to the front of the buffer.
  method MoveDown<T>(buffer: array<T>, from: nat, count: nat)
    requires from + count <= buffer.Length
    modifies buffer
    ensures buffer[..count] == old(buffer[from..from + count])
  {
    for i := 0 to count
      invariant forall j :: 0 <= j < i ==> buffer[j] == old(buffer[from + j])
      invariant forall j :: i <= j < buffer.Length ==> buffer[j] == old(buffer[j])
    {
      buffer[i] := buffer[from + i];
    }
  }

  function Joined<T>(parts: seq<seq<T>>): seq<T>
  {
    if parts == [] then [] else parts[0] + Joined(parts[1..])
  }

  // One part after the other.
  lemma {:induction false} JoinedNext<T>(parts: seq<seq<T>>, i: nat)
    requires i < |parts|
    ensures Joined(parts[..i + 1]) == Joined(parts[..i]) + parts[i]
  {
    if i == 0 {
      assert parts[..1][1..] == [] && parts[..0] == [];
      assert Joined(parts[..1]) == parts[0] + Joined([]);
    } else {
      assert parts[..i + 1][1..] == parts[1..][..i] && parts[..i][1..] == parts[1..][..i - 1];
      JoinedNext(parts[1..], i - 1);
    }
  }

  lemma {:induction false} JoinedPrefix<T>(parts: seq<seq<T>>, i: nat)
    requires i <= |parts|
    ensures |Joined(parts[..i])| <= |Joined(parts)|
    decreases |parts| - i
  {
    if i < |parts| {
      JoinedNext(parts, i);
      JoinedPrefix(parts, i + 1);
    } else {
      assert parts[..i] == parts;
    }
  }
}
