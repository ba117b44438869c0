/**
  * The byte shuffle that expands UTF-16 words into 32-bit lanes: shuffle_mask of
  * scripts/sse_convert_utf16_to_utf8.py, which builds one pattern for each mask of eight words, for
  * masks of any length.  A set bit marks a surrogate.
  */
module SurrogateShuffle {
  import opened Unicode

  type Mask = seq<bool>

  // A complete character: a word that is no surrogate, or two surrogates.
  datatype Character = Word(at: nat) | Pair(at: nat)

  function Width(c: Character): nat { if c.Word? then 1 else 2 }

  // The characters from word i on, a last surrogate without its partner left out; None if a
  // surrogate is followed by a word that is none.
  function Characters(mask: Mask, i: nat): Option<seq<Character>>
    requires i <= |mask|
    decreases |mask| - i
  {
    if i == |mask| || (i == |mask| - 1 && mask[i]) then Some([])
    else if !mask[i] then Prepend([Word(i)], Characters(mask, i + 1))
    else if mask[i + 1] then Prepend([Pair(i)], Characters(mask, i + 2))
    else None
  }

  function Prepend(cs: seq<Character>, more: Option<seq<Character>>): Option<seq<Character>>
  {
    if more.None? then None else Some(cs + more.value)
  }

  // ----- What the characters are -----

  // A maximal run of set bits, from word i on, of odd length, with a word behind it.
  ghost predicate HasOddRun(mask: Mask, i: nat)
  {
    exists a: nat, b: nat :: IsOddRun(mask, i, a, b)
  }

  predicate IsOddRun(mask: Mask, i: nat, a: nat, b: nat)
  {
    && i <= a < b < |mask| && (a == i || !mask[a - 1]) && !mask[b]
    && (forall k :: a <= k < b ==> mask[k])
    && (b - a) % 2 == 1
  }

  lemma {:induction false} FailsExactlyOnOddRuns(mask: Mask, i: nat)
    requires i <= |mask|
    ensures Characters(mask, i).None? <==> HasOddRun(mask, i)
    decreases |mask| - i
  {
    if i < |mask| && (!mask[i] || (i + 1 < |mask| && mask[i + 1])) {
      var next := if mask[i] then i + 2 else i + 1;
      FailsExactlyOnOddRuns(mask, next);
      forall a: nat, b: nat | IsOddRun(mask, i, a, b)
        ensures HasOddRun(mask, next)
      {
        assert IsOddRun(mask, next, if a == i then next else a, b);
      }
      forall a: nat, b: nat | IsOddRun(mask, next, a, b)
        ensures HasOddRun(mask, i)
      {
        assert IsOddRun(mask, i, if a == next && mask[i] then i else a, b);
      }
    } else if i + 1 < |mask| {
      assert IsOddRun(mask, i, i, i + 1);
    }
  }

  // The words of the characters, in order.
  function WordsOf(cs: seq<Character>): seq<nat>
  {
    if cs == [] then []
    else (if cs[0].Word? then [cs[0].at] else [cs[0].at, cs[0].at + 1]) + WordsOf(cs[1..])
  }

  // Every word once, in order, but for a dangling last surrogate; a word alone iff it is none.
  lemma {:induction false} CharactersCoverTheMask(mask: Mask, i: nat)
    requires i <= |mask| && Characters(mask, i).Some?
    ensures var cs, words := Characters(mask, i).value, WordsOf(Characters(mask, i).value);
            && i + |words| <= |mask| <= i + |words| + 1
            && (i + |words| < |mask| ==> mask[|mask| - 1])
            && (forall j :: 0 <= j < |words| ==> words[j] == i + j)
            && (forall j :: 0 <= j < |cs| ==> i <= cs[j].at && cs[j].at + Width(cs[j]) <= |mask|)
            && (forall j :: 0 <= j < |cs| ==>
                  if cs[j].Word? then !mask[cs[j].at] else mask[cs[j].at] && mask[cs[j].at + 1])
    decreases |mask| - i
  {
    if !(i == |mask| || (i == |mask| - 1 && mask[i])) {
      var k := if mask[i] then 2 else 1;
      CharactersCoverTheMask(mask, i + k);
      var cs := Characters(mask, i).value;
      assert cs[1..] == Characters(mask, i + k).value;
    }
  }

  // ----- The pattern -----

  // Where the four bytes of a lane come from; -1 clears a byte.
  function Lane(c: Character): seq<int>
  {
    if c.Word? then [2 * c.at, 2 * c.at + 1, -1, -1]
    else [2 * c.at, 2 * c.at + 1, 2 * (c.at + 1), 2 * (c.at + 1) + 1]
  }

  function Lanes(cs: seq<Character>): (pattern: seq<int>)
    ensures |pattern| == 4 * |cs|
  {
    if cs == [] then [] else Lanes(cs[..|cs| - 1]) + Lane(cs[|cs| - 1])
  }

  lemma LanesSnoc(cs: seq<Character>, c: Character)
    ensures Lanes(cs + [c]) == Lanes(cs) + Lane(c)
  {
    assert (cs + [c])[..|cs|] == cs;
  }

  lemma {:induction false} LaneAt(cs: seq<Character>, k: nat)
    requires k < |cs|
    ensures Lanes(cs)[4 * k..4 * k + 4] == Lane(cs[k])
  {
    if k < |cs| - 1 {
      LaneAt(cs[..|cs| - 1], k);
      assert Lanes(cs)[4 * k..4 * k + 4] == Lanes(cs[..|cs| - 1])[4 * k..4 * k + 4];
    }
  }

  function Cleared(n: nat): (pattern: seq<int>)
    ensures |pattern| == n
  {
    seq(n, _ => -1)
  }

  lemma {:induction false} CharactersAreAtMost(mask: Mask, i: nat)
    requires i <= |mask| && Characters(mask, i).Some?
    ensures |Characters(mask, i).value| <= |mask| - i
    decreases |mask| - i
  {
    if !(i == |mask| || (i == |mask| - 1 && mask[i])) {
      CharactersAreAtMost(mask, if mask[i] then i + 2 else i + 1);
    }
  }

  // ----- shuffle_mask -----

  datatype State = V | L | H

  // The characters before word i that are complete, given the state there.
  ghost predicate Consumed(mask: Mask, i: nat, state: State, cs: seq<Character>, result: seq<int>, dwords: nat)
    requires i <= |mask|
  {
    if state.L? then
      && i > 0 && mask[i - 1]
      && Characters(mask, 0) == Prepend(cs, Characters(mask, i - 1))
      && result == Lanes(cs) + [2 * (i - 1), 2 * (i - 1) + 1]
      && dwords == |cs| + 1
    else
      && Characters(mask, 0) == Prepend(cs, Characters(mask, i))
      && result == Lanes(cs)
      && dwords == |cs|
  }

  function NextState(bit: bool, prev: State): State
  {
    if !bit then V else if prev.L? then H else L
  }

  lemma Starts(mask: Mask)
    ensures Consumed(mask, 0, V, [], [], 0)
  {
    if Characters(mask, 0).Some? {
      assert [] + Characters(mask, 0).value == Characters(mask, 0).value;
    }
  }

  // The complete characters after one more word.
  function Now(bit: bool, i: nat, prev: State, cs: seq<Character>): seq<Character>
    requires prev.L? ==> i > 0
  {
    if !bit then cs + [Word(i)] else if prev.L? then cs + [Pair(i - 1)] else cs
  }

  lemma Advances(mask: Mask, i: nat, prev: State, cs: seq<Character>, result: seq<int>, dwords: nat)
    requires i < |mask| && Consumed(mask, i, prev, cs, result, dwords) && (mask[i] || !prev.L?)
    ensures var more := if mask[i] then [2 * i, 2 * i + 1] else [2 * i, 2 * i + 1, -1, -1];
            Consumed(mask, i + 1, NextState(mask[i], prev), Now(mask[i], i, prev, cs), result + more,
                     if mask[i] && prev.L? then dwords else dwords + 1)
  {
    if !mask[i] {
      PrependTwice(cs, Word(i), Characters(mask, i + 1));
      LanesSnoc(cs, Word(i));
    } else if prev.L? {
      PrependTwice(cs, Pair(i - 1), Characters(mask, i + 1));
      LanesSnoc(cs, Pair(i - 1));
    }
  }

  lemma PrependTwice(cs: seq<Character>, c: Character, more: Option<seq<Character>>)
    ensures Prepend(cs, Prepend([c], more)) == Prepend(cs + [c], more)
  {
    if more.Some? {
      assert cs + ([c] + more.value) == cs + [c] + more.value;
    }
  }

  // At the end of the mask the characters are complete, but for a surrogate that is dropped.
  lemma Ends(mask: Mask, state: State, cs: seq<Character>, result: seq<int>, dwords: nat)
    requires Consumed(mask, |mask|, state, cs, result, dwords)
    ensures Characters(mask, 0) == Some(cs) && |cs| <= |mask|
    ensures result == Lanes(cs) + (if state.L? then [2 * (|mask| - 1), 2 * (|mask| - 1) + 1] else [])
    ensures dwords == if state.L? then |cs| + 1 else |cs|
  {
    assert cs + [] == cs && Lanes(cs) + [] == Lanes(cs);
    CharactersAreAtMost(mask, 0);
  }

  // shuffle_mask: None stands for the ValueError.
  method ShuffleMask(mask: Mask) returns (pattern: Option<(seq<int>, nat)>)
    requires mask != []
    ensures pattern.None? <==> HasOddRun(mask, 0)
    ensures pattern.None? <==> Characters(mask, 0).None?
    ensures pattern.Some? ==>
              var cs := Characters(mask, 0).value;
              && |cs| <= |mask|
              && pattern.value == (Lanes(cs) + Cleared(4 * |mask| - 4 * |cs|), |cs|)
  {
    hide Characters, HasOddRun, Consumed, Lanes;
    FailsExactlyOnOddRuns(mask, 0);
    var result: seq<int> := [];
    var prev, curr := V, V;
    var dwordsConsumed: nat := 0;
    ghost var cs: seq<Character> := [];
    Starts(mask);
    for i := 0 to |mask|
      invariant curr == prev && Consumed(mask, i, prev, cs, result, dwordsConsumed)
      invariant prev.L? ==> i > 0
    {
      if mask[i] || !prev.L? {
        Advances(mask, i, prev, cs, result, dwordsConsumed);
      }
      if mask[i] {
        curr := if prev.L? then H else L;
        result := result + [2 * i, 2 * i + 1];
        if curr.L? {
          dwordsConsumed := dwordsConsumed + 1;
        }
      } else {
        if prev.L? {
          Fails(mask, i, cs, result, dwordsConsumed);
          return None;
        }
        curr := V;
        result := result + [2 * i, 2 * i + 1, -1, -1];
        dwordsConsumed := dwordsConsumed + 1;
      }
      cs := Now(mask[i], i, prev, cs);
      prev := curr;
    }
    Ends(mask, curr, cs, result, dwordsConsumed);
    if curr.L? {
      result := result[..|result| - 2];
      dwordsConsumed := dwordsConsumed - 1;
    }
    assert result == Lanes(cs) && result + Cleared(0) == result;
    while |result| < 4 * |mask|
      invariant 4 * |cs| <= |result| <= 4 * |mask|
      invariant result == Lanes(cs) + Cleared(|result| - 4 * |cs|)
    {
      result := result + [-1];
    }
    pattern := Some((result, dwordsConsumed));
  }

  lemma Fails(mask: Mask, i: nat, cs: seq<Character>, result: seq<int>, dwords: nat)
    requires i < |mask| && !mask[i] && Consumed(mask, i, L, cs, result, dwords)
    ensures Characters(mask, 0).None?
  {
  }

  // ----- What the pattern does to a block of text -----

  predicate IsSurrogate(u: CodeUnit) { IsHigh(u) || IsLow(u) }

  function SurrogateMask(text: seq<CodeUnit>): (mask: Mask)
    ensures |mask| == |text|
  {
    seq(|text|, i requires 0 <= i < |text| => IsSurrogate(text[i]))
  }

  // The bytes of the words in memory order.
  function Bytes(text: seq<CodeUnit>): (bytes: seq<Octet>)
    ensures |bytes| == 2 * |text|
  {
    seq(2 * |text|, j requires 0 <= j < 2 * |text| => if j % 2 == 0 then text[j / 2] % 0x100 else text[j / 2] / 0x100)
  }

  // A pattern that selects among n bytes; negative indices clear.
  predicate Inside(pattern: seq<int>, n: nat) { forall j :: 0 <= j < |pattern| ==> pattern[j] < n }

  // The byte shuffle instruction.
  function Shuffled(bytes: seq<Octet>, pattern: seq<int>): (r: seq<Octet>)
    requires Inside(pattern, |bytes|)
    ensures |r| == |pattern|
  {
    seq(|pattern|, j requires 0 <= j < |pattern| => if pattern[j] < 0 then 0 else bytes[pattern[j]])
  }

  // The words of a lane, low half first.
  function LaneWords(text: seq<CodeUnit>, c: Character): seq<CodeUnit>
    requires c.at + Width(c) <= |text|
  {
    if c.Word? then [text[c.at], 0] else [text[c.at], text[c.at + 1]]
  }

  // A block that starts well-formed text never fails, whatever follows it, and its characters are
  // those of the text.
  lemma {:induction false} BlockOfText(block: seq<CodeUnit>, more: seq<CodeUnit>, i: nat)
    requires i <= |block| && WellFormed((block + more)[i..])
    ensures var cs := Characters(SurrogateMask(block), i);
            && cs.Some?
            && forall k :: 0 <= k < |cs.value| ==>
                 && cs.value[k].at < |block + more|
                 && FirstLength((block + more)[cs.value[k].at..]) == Width(cs.value[k])
    decreases |block| - i
  {
    var text, mask := block + more, SurrogateMask(block);
    if i < |block| && !(i == |block| - 1 && mask[i]) {
      assert text[i..][0] == block[i];
      var n := FirstLength(text[i..]);
      assert n == if mask[i] then 2 else 1;
      assert text[i..][n..] == text[i + n..];
      assert n == 2 ==> text[i..][1] == block[i + 1];
      BlockOfText(block, more, i + n);
    }
  }

  // The pattern expands the block: lane k holds the words of character k, a lone one extended with
  // zeros, and the lanes behind them are clear.
  lemma ExpandedLane(block: seq<CodeUnit>, k: nat)
    requires Characters(SurrogateMask(block), 0).Some? && k < |block|
    ensures var cs := Characters(SurrogateMask(block), 0).value;
            && |cs| <= |block|
            && var pattern := Lanes(cs) + Cleared(4 * |block| - 4 * |cs|);
            && Inside(pattern, |Bytes(block)|)
            && (k < |cs| ==> cs[k].at + Width(cs[k]) <= |block|)
            && Shuffled(Bytes(block), pattern)[4 * k..4 * k + 4]
               == Bytes(if k < |cs| then LaneWords(block, cs[k]) else [0, 0])
  {
    hide Characters, Lanes, Lane, Bytes, LaneWords, SurrogateMask, WordsOf;
    var cs := Characters(SurrogateMask(block), 0).value;
    CharactersAreAtMost(SurrogateMask(block), 0);
    CharactersCoverTheMask(SurrogateMask(block), 0);
    LanesAreInside(cs, |block|);
    var pattern := Lanes(cs) + Cleared(4 * |block| - 4 * |cs|);
    PatternIsInside(Lanes(cs), 4 * |block| - 4 * |cs|, |Bytes(block)|);
    var lane := pattern[4 * k..4 * k + 4];
    assert Shuffled(Bytes(block), pattern)[4 * k..4 * k + 4] == Shuffled(Bytes(block), lane);
    if k < |cs| {
      LaneAt(cs, k);
      assert lane == Lanes(cs)[4 * k..4 * k + 4];
      OneLane(block, cs[k]);
    } else {
      assert lane == Cleared(4);
      ClearLane(block);
    }
  }

  lemma PatternIsInside(lanes: seq<int>, cleared: nat, n: nat)
    requires Inside(lanes, n)
    ensures Inside(lanes + Cleared(cleared), n)
  {
  }

  lemma ClearLane(block: seq<CodeUnit>)
    ensures Shuffled(Bytes(block), Cleared(4)) == Bytes([0, 0])
  {
  }

  lemma OneLane(block: seq<CodeUnit>, c: Character)
    requires c.at + Width(c) <= |block|
    ensures Shuffled(Bytes(block), Lane(c)) == Bytes(LaneWords(block, c))
  {
  }

  lemma {:induction false} LanesAreInside(cs: seq<Character>, n: nat)
    requires forall j :: 0 <= j < |cs| ==> cs[j].at + Width(cs[j]) <= n
    ensures Inside(Lanes(cs), 2 * n)
  {
    if cs != [] {
      LanesAreInside(cs[..|cs| - 1], n);
    }
  }
}
