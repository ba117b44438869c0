/**
  * The NEON whitespace compactor of benchmarks/base64/arm_base64_spaces.h.  A 128-bit register is
  * a sequence of 16 bytes; the shuffle tables are given by the rule of their comments.
  */
module SpaceRemoval {
  import opened Base64

  type Vector = v: seq<byte> | |v| == 16 witness seq(16, _ => 0)

  predicate IsSpace(c: byte)
  {
    c == 0x20 || c == 0x09 || c == 0x0a || c == 0x0d
  }

  // What remains of a text when the whitespace is taken out.
  function Kept(text: seq<byte>): (r: seq<byte>)
    ensures |r| <= |text|
  {
    if text == [] then []
    else Kept(text[..|text| - 1]) + if IsSpace(text[|text| - 1]) then [] else [text[|text| - 1]]
  }

  lemma {:induction false} KeptConcat(a: seq<byte>, b: seq<byte>)
    ensures Kept(a + b) == Kept(a) + Kept(b)
  {
    if b == [] {
      assert a + b == a;
    } else {
      assert (a + b)[..|a + b| - 1] == a + b[..|b| - 1];
      KeptConcat(a, b[..|b| - 1]);
    }
  }

  const BLANKS := " \t\n\r"

  // The four characters that are taken out.
  lemma BlankCharacters(c: byte)
    ensures IsSpace(c) <==> c as char in BLANKS
  {
  }

  lemma {:induction false} KeptIsWithout(text: seq<byte>)
    ensures Kept(text) == Without(text, BLANKS)
  {
    hide IsSpace, BLANKS;
    if text != [] {
      KeptIsWithout(text[..|text| - 1]);
      BlankCharacters(text[|text| - 1]);
    }
  }

  lemma {:induction false} KeptAll(text: seq<byte>)
    requires forall i :: 0 <= i < |text| ==> !IsSpace(text[i])
    ensures Kept(text) == text
  {
    if text != [] {
      KeptAll(text[..|text| - 1]);
    }
  }

  // ----- Masks -----

  function Bit8(i: nat): byte
    requires i < 8
  {
    if i == 0 then 0x01 else if i == 1 then 0x02 else if i == 2 then 0x04 else if i == 3 then 0x08
    else if i == 4 then 0x10 else if i == 5 then 0x20 else if i == 6 then 0x40 else 0x80
  }

  predicate Marked(mask: byte, i: nat)
    requires i < 8
  {
    mask & Bit8(i) != 0
  }

  function Low(mask: bv16): byte { (mask & 0xff) as byte }
  function High(mask: bv16): byte { (mask >> 8) as byte }

  predicate Marked16(mask: bv16, i: nat)
    requires i < 16
  {
    if i < 8 then Marked(Low(mask), i) else Marked(High(mask), i - 8)
  }

  // One lane of the comparison result, masked with its bit.
  function Lane(c: byte, i: nat): byte
    requires i < 8
  {
    (if IsSpace(c) then 0xff else 0) & Bit8(i)
  }

  // The horizontal sum of eight lanes (vaddv_u8 wraps, but the bits are distinct).
  function LaneSum(v: seq<byte>): byte
    requires |v| == 8
  {
    Lane(v[0], 0) + Lane(v[1], 1) + Lane(v[2], 2) + Lane(v[3], 3)
    + Lane(v[4], 4) + Lane(v[5], 5) + Lane(v[6], 6) + Lane(v[7], 7)
  }

  function WhitespaceMask(v: Vector): bv16
  {
    (LaneSum(v[..8]) as bv16) | ((LaneSum(v[8..]) as bv16) << 8)
  }

  lemma LaneSumMarks(v: seq<byte>, i: nat)
    requires |v| == 8 && i < 8
    ensures Marked(LaneSum(v), i) <==> IsSpace(v[i])
  {
    hide IsSpace;
  }

  lemma HalvesOf(lo: byte, hi: byte)
    ensures Low((lo as bv16) | ((hi as bv16) << 8)) == lo
    ensures High((lo as bv16) | ((hi as bv16) << 8)) == hi
  {
  }

  lemma {:induction false} WhitespaceMaskMarks(v: Vector)
    ensures forall i: nat :: i < 16 ==> (Marked16(WhitespaceMask(v), i) <==> IsSpace(v[i]))
  {
    hide IsSpace, LaneSum, Marked;
    HalvesOf(LaneSum(v[..8]), LaneSum(v[8..]));
    forall i: nat | i < 16 ensures Marked16(WhitespaceMask(v), i) <==> IsSpace(v[i]) {
      if i < 8 {
        LaneSumMarks(v[..8], i);
      } else {
        LaneSumMarks(v[8..], i - 8);
      }
    }
  }

  // ----- The two shuffle tables -----

  // The positions below k whose bit is clear, in order.
  function KeptIndices(mask: byte, k: nat): (r: seq<nat>)
    requires k <= 8
    ensures |r| <= k && forall j :: 0 <= j < |r| ==> r[j] < k
  {
    if k == 0 then []
    else KeptIndices(mask, k - 1) + if Marked(mask, k - 1) then [] else [k - 1]
  }

  // thintable_epi8: the kept positions of a lane, then zeros.
  function ThinRow(mask: byte): (r: seq<nat>)
    ensures |r| == 8 && forall j :: 0 <= j < 8 ==> r[j] < 8
  {
    KeptIndices(mask, 8) + seq(8 - |KeptIndices(mask, 8)|, _ => 0)
  }

  // The number of set bits; BitsSetTable256mul2 holds twice this.
  function Dropped(mask: byte): nat { 8 - |KeptIndices(mask, 8)| }

  // pshufb_combine_table: the row for p dropped bytes skips them in the low lane and ends in 0xff.
  function CombineRow(p: nat): (r: seq<nat>)
    requires p <= 8
    ensures |r| == 16
  {
    seq(16, j => if j < 8 - p then j else if j < 16 - p then j + p else 0xff)
  }

  // vqtbl1q_u8: out-of-range indices read as zero.
  function Lookup(data: Vector, index: seq<nat>): Vector
    requires |index| == 16
  {
    seq(16, j requires 0 <= j < 16 => if index[j] < 16 then data[index[j]] else 0)
  }

  function Compress(data: Vector, mask: bv16): Vector
  {
    if mask == 0 then data
    else
      var high := ThinRow(High(mask));
      var compact := ThinRow(Low(mask)) + seq(8, j requires 0 <= j < 8 => high[j] + 8);
      Lookup(Lookup(data, compact), CombineRow(Dropped(Low(mask))))
  }

  // Lane i becomes lane i + 1 from pos on: subtracting 0xff from a byte adds one.
  function CompressSingle(data: Vector, pos: nat): Vector
    requires pos < 16
  {
    Lookup(data, seq(16, i => if i >= pos then i + 1 else i))
  }

  function Select(data: seq<byte>, index: seq<nat>): seq<byte>
    requires forall j :: 0 <= j < |index| ==> index[j] < |data|
  {
    seq(|index|, j requires 0 <= j < |index| => data[index[j]])
  }

  // The kept positions of a lane select exactly its kept bytes.
  lemma {:induction false} SelectKept(lane: seq<byte>, mask: byte, k: nat)
    requires |lane| == 8 && k <= 8
    requires forall i: nat :: i < 8 ==> (Marked(mask, i) <==> IsSpace(lane[i]))
    ensures Select(lane, KeptIndices(mask, k)) == Kept(lane[..k])
  {
    hide IsSpace, Marked;
    if k > 0 {
      SelectKept(lane, mask, k - 1);
      assert lane[..k][..k - 1] == lane[..k - 1];
      assert Marked(mask, k - 1) <==> IsSpace(lane[k - 1]);
    }
  }

  predicate MarksSpaces(v: Vector, mask: bv16)
  {
    forall i: nat :: i < 16 ==> (Marked16(mask, i) <==> IsSpace(v[i]))
  }

  // Shuffling with both tables leaves the kept bytes at the front of the register.
  lemma CompressIsFilter(v: Vector, mask: bv16)
    requires MarksSpaces(v, mask) && mask != 0
    ensures |Kept(v)| == 16 - Dropped(Low(mask)) - Dropped(High(mask))
    ensures Compress(v, mask)[..|Kept(v)|] == Kept(v)
  {
    hide IsSpace, Marked, Low, High, KeptIndices, Kept;
    var m1, m2 := Low(mask), High(mask);
    forall i: nat | i < 8 ensures (Marked(m1, i) <==> IsSpace(v[..8][i])) && (Marked(m2, i) <==> IsSpace(v[8..][i])) {
      assert Marked16(mask, i) <==> IsSpace(v[i]);
      assert Marked16(mask, i + 8) <==> IsSpace(v[i + 8]);
    }
    SelectKept(v[..8], m1, 8);
    SelectKept(v[8..], m2, 8);
    assert v[..8][..8] == v[..8] && v[8..][..8] == v[8..] && v == v[..8] + v[8..];
    KeptConcat(v[..8], v[8..]);
    var k1, k2 := KeptIndices(m1, 8), KeptIndices(m2, 8);
    assert Kept(v) == Select(v[..8], k1) + Select(v[8..], k2);
    forall j: nat | j < |Kept(v)| ensures Compress(v, mask)[j] == Kept(v)[j] {
      CompressAt(v, mask, j);
    }
  }

  lemma LookupAt(data: Vector, index: seq<nat>, j: nat)
    requires |index| == 16 && j < 16
    ensures Lookup(data, index)[j] == if index[j] < 16 then data[index[j]] else 0
  {
  }

  lemma CompressAt(v: Vector, mask: bv16, j: nat)
    requires mask != 0
    ensures var k1, k2 := KeptIndices(Low(mask), 8), KeptIndices(High(mask), 8);
            && (j < |k1| ==> Compress(v, mask)[j] == v[k1[j]])
            && (|k1| <= j < |k1| + |k2| ==> Compress(v, mask)[j] == v[8 + k2[j - |k1|]])
  {
    hide Low, High, KeptIndices, Lookup, CombineRow, ThinRow;
    var k1, k2 := KeptIndices(Low(mask), 8), KeptIndices(High(mask), 8);
    var high, row := ThinRow(High(mask)), CombineRow(8 - |k1|);
    var compact := ThinRow(Low(mask)) + seq(8, j requires 0 <= j < 8 => high[j] + 8);
    if j < |k1| {
      RowAt(8 - |k1|, j);
      ThinAt(Low(mask), j);
      LookupAt(Lookup(v, compact), row, j);
      LookupAt(v, compact, j);
    } else if j < |k1| + |k2| {
      RowAt(8 - |k1|, j);
      ThinAt(High(mask), j - |k1|);
      LookupAt(Lookup(v, compact), row, j);
      LookupAt(v, compact, j - |k1| + 8);
    }
  }

  lemma RowAt(p: nat, j: nat)
    requires p <= 8 && j < 16
    ensures CombineRow(p)[j] == if j < 8 - p then j else if j < 16 - p then j + p else 0xff
  {
  }

  lemma ThinAt(mask: byte, j: nat)
    requires j < |KeptIndices(mask, 8)|
    ensures ThinRow(mask)[j] == KeptIndices(mask, 8)[j]
  {
  }

  // ----- A single dropped byte -----

  // mask & (mask - 1) clears the lowest set bit.
  predicate SingleBit(mask: bv16) { mask & (mask - 1) == 0 }

  function Bit16(i: nat): bv16
    requires i < 16
  {
    if i < 8 then Bit8(i) as bv16 else (Bit8(i - 8) as bv16) << 8
  }

  // The test recognises the masks with one bit, and counting trailing zeroes finds it.
  lemma SingleBitIs(mask: bv16)
    requires mask != 0
    ensures SingleBit(mask) <==> mask == Bit16(Ctz(mask, 0))
  {
    if SingleBit(mask) {
      OneBit(mask);
      var i: nat :| i < 16 && mask == Bit16(i);
      Bit16Marks(i, i);
      Bit16Marks(i, Ctz(mask, 0));
    }
    BitIsSingle(Ctz(mask, 0));
  }

  lemma BitIsSingle(i: nat)
    requires i < 16
    ensures SingleBit(Bit16(i))
  {
  }

  lemma OneBit(mask: bv16)
    requires mask != 0 && SingleBit(mask)
    ensures exists i: nat :: i < 16 && mask == Bit16(i)
  {
    assert mask == 0x0001 || mask == 0x0002 || mask == 0x0004 || mask == 0x0008
        || mask == 0x0010 || mask == 0x0020 || mask == 0x0040 || mask == 0x0080
        || mask == 0x0100 || mask == 0x0200 || mask == 0x0400 || mask == 0x0800
        || mask == 0x1000 || mask == 0x2000 || mask == 0x4000 || mask == 0x8000;
    assert Bit16(0) == 0x0001 && Bit16(1) == 0x0002 && Bit16(2) == 0x0004 && Bit16(3) == 0x0008;
    assert Bit16(4) == 0x0010 && Bit16(5) == 0x0020 && Bit16(6) == 0x0040 && Bit16(7) == 0x0080;
    assert Bit16(8) == 0x0100 && Bit16(9) == 0x0200 && Bit16(10) == 0x0400 && Bit16(11) == 0x0800;
    assert Bit16(12) == 0x1000 && Bit16(13) == 0x2000 && Bit16(14) == 0x4000 && Bit16(15) == 0x8000;
  }

  lemma Bit16Marks(i: nat, j: nat)
    requires i < 16 && j < 16
    ensures Marked16(Bit16(i), j) <==> i == j
  {
  }

  // Count trailing zeroes, searching from bit `from`.
  function Ctz(mask: bv16, from: nat): (r: nat)
    requires from < 16
    ensures from <= r < 16
    ensures forall i :: from <= i < r ==> !Marked16(mask, i)
    ensures Marked16(mask, r) || r == 15
    decreases 16 - from
  {
    if Marked16(mask, from) || from == 15 then from else Ctz(mask, from + 1)
  }

  lemma CompressSingleIsFilter(v: Vector, mask: bv16)
    requires MarksSpaces(v, mask) && mask != 0 && SingleBit(mask)
    ensures |Kept(v)| == 15
    ensures CompressSingle(v, Ctz(mask, 0))[..15] == Kept(v)
  {
    hide IsSpace, Marked16, Kept, Bit16, SingleBit;
    SingleBitIs(mask);
    var i := Ctz(mask, 0);
    forall j: nat | j < 16 ensures IsSpace(v[j]) <==> j == i {
      Bit16Marks(i, j);
      assert Marked16(mask, j) <==> IsSpace(v[j]);
    }
    Bit16Marks(i, i);
    var pos := i;
    assert v == v[..pos] + ([v[pos]] + v[pos + 1..]);
    KeptConcat(v[..pos], [v[pos]] + v[pos + 1..]);
    KeptConcat([v[pos]], v[pos + 1..]);
    KeptAll(v[..pos]);
    KeptAll(v[pos + 1..]);
    KeptSpace(v[pos]);
    assert CompressSingle(v, pos)[..15] == v[..pos] + v[pos + 1..];
  }

  lemma KeptSpace(c: byte)
    requires IsSpace(c)
    ensures Kept([c]) == []
  {
  }

  // ----- The block loop -----

  // vst1q_u8: all 16 bytes are written.
  method Store(dst: array<byte>, d: nat, v: Vector)
    requires d + 16 <= dst.Length
    modifies dst
    ensures forall j :: 0 <= j < dst.Length ==> dst[j] == if d <= j < d + 16 then v[j - d] else old(dst[j])
  {
    for j := 0 to 16
      invariant forall m :: 0 <= m < dst.Length ==> dst[m] == if d <= m < d + j then v[m - d] else old(dst[m])
    {
      dst[d + j] := v[j];
    }
  }

  // One block: the register to store and how many of its bytes count.
  function PackBlock(v: Vector): (r: (Vector, nat))
    ensures r.1 <= 16 && r.0[..r.1] == Kept(v)
  {
    var mask := WhitespaceMask(v);
    WhitespaceMaskMarks(v);
    if mask == 0 then
      NoMarks(v);
      (v, 16)
    else if SingleBit(mask) then
      CompressSingleIsFilter(v, mask);
      (CompressSingle(v, Ctz(mask, 0)), 15)
    else
      CompressIsFilter(v, mask);
      (Compress(v, mask), 16 - Dropped(Low(mask)) - Dropped(High(mask)))
  }

  lemma NoMarks(v: Vector)
    requires MarksSpaces(v, 0)
    ensures Kept(v) == v
  {
    forall i: nat | i < 16 ensures !IsSpace(v[i]) {
      assert Marked16(0, i) <==> IsSpace(v[i]);
    }
    KeptAll(v);
  }

  lemma KeptSnoc(text: seq<byte>, i: nat)
    requires i < |text|
    ensures Kept(text[..i + 1]) == Kept(text[..i]) + if IsSpace(text[i]) then [] else [text[i]]
  {
    assert text[..i + 1][..i] == text[..i];
  }

  // The text up to i is compacted in front of dst, the rest of it is still unread in src, and
  // nothing was written past its length.
  ghost predicate Compacted(src: array<byte>, dst: array<byte>, text: seq<byte>, rest: seq<byte>, i: nat, n: nat)
    reads src, dst
  {
    && n <= i <= |text| == src.Length <= dst.Length == src.Length + |rest|
    && dst[..n] == Kept(text[..i])
    && (forall j :: i <= j < src.Length ==> src[j] == text[j])
    && (forall j :: src.Length <= j < dst.Length ==> dst[j] == rest[j - src.Length])
  }

  method PackAt(src: array<byte>, dst: array<byte>, i: nat, n0: nat, ghost text: seq<byte>, ghost rest: seq<byte>)
    returns (n: nat)
    requires Compacted(src, dst, text, rest, i, n0) && i + 16 <= src.Length
    modifies dst
    ensures Compacted(src, dst, text, rest, i + 16, n)
  {
    hide Kept, PackBlock, IsSpace;
    var v: Vector := src[i..i + 16];
    assert text[..i + 16] == text[..i] + v;
    KeptConcat(text[..i], v);
    var packed := PackBlock(v);
    Store(dst, n0, packed.0);
    n := n0 + packed.1;
    assert dst[..n] == old(dst[..n0]) + packed.0[..packed.1];
  }

  method CopyAt(src: array<byte>, dst: array<byte>, i: nat, n0: nat, ghost text: seq<byte>, ghost rest: seq<byte>)
    returns (n: nat)
    requires Compacted(src, dst, text, rest, i, n0) && i < src.Length
    modifies dst
    ensures Compacted(src, dst, text, rest, i + 1, n)
  {
    hide Kept;
    n := n0;
    var c := src[i];
    KeptSnoc(text, i);
    if !IsSpace(c) {
      dst[n] := c;
      n := n + 1;
      assert dst[..n] == old(dst[..n0]) + [c];
    }
  }

  // The destination may be the source itself: each full store stays below the next unread block.
  method RemoveSpaces(src: array<byte>, dst: array<byte>) returns (n: nat)
    requires src.Length <= dst.Length
    modifies dst
    ensures n <= src.Length && dst[..n] == Kept(old(src[..])) == Without(old(src[..]), " \t\n\r")
    ensures dst[src.Length..] == old(dst[src.Length..])
  {
    hide Kept, Without;
    n := 0;
    var i := 0;
    ghost var text, rest := src[..], dst[src.Length..];
    while i + 16 <= src.Length
      invariant Compacted(src, dst, text, rest, i, n)
    {
      n := PackAt(src, dst, i, n, text, rest);
      i := i + 16;
    }
    while i < src.Length
      invariant Compacted(src, dst, text, rest, i, n)
    {
      n := CopyAt(src, dst, i, n, text, rest);
      i := i + 1;
    }
    assert text[..i] == text;
    KeptIsWithout(text);
  }

  // Cleaning a text first does not change what a whitespace-unaware decoder reads from it.
  lemma {:induction false} RemovalKeepsSymbols(text: seq<byte>, table: Table)
    requires forall i :: 0 <= i < |text| && IsSpace(text[i]) ==> table(text[i]) >= 64
    ensures Symbols(Kept(text), table) == Symbols(text, table)
  {
    if text != [] {
      var n := |text| - 1;
      RemovalKeepsSymbols(text[..n], table);
      var rest, c := Kept(text[..n]), text[n];
      if IsSpace(c) {
        assert table(c) >= 64;
        assert Kept(text) == rest;
      } else {
        assert Kept(text) == rest + [c] && (rest + [c])[..|rest|] == rest;
      }
    }
  }
}
