/**
  * What the decoding loop of the fastbase64 tool carries from chunk to chunk when it reads a file
  * that may be padded (tools/fastbase64.cpp).
  */
module Fastbase64Carry {
  import opened Base64
  import opened SimdutfBase64
  import opened EncodedTexts

  // The characters that compaction keeps.
  function ValidOnly(text: seq<byte>, options: Options): (r: seq<byte>)
    ensures |r| <= |text|
  {
    if text == [] then []
    else ValidOnly(text[..|text| - 1], options) + if IsValid(text[|text| - 1], options) then [text[|text| - 1]] else []
  }

  lemma {:induction false} ValidOnlyKeepsSymbols(text: seq<byte>, options: Options)
    ensures SymbolsOf(ValidOnly(text, options), options) == SymbolsOf(text, options)
    ensures |ValidOnly(text, options)| == |SymbolsOf(text, options)|
    ensures forall i :: 0 <= i < |ValidOnly(text, options)| ==> IsValid(ValidOnly(text, options)[i], options)
  {
    hide ToBase64;
    if text != [] {
      var n := |text| - 1;
      ValidOnlyKeepsSymbols(text[..n], options);
      var kept := ValidOnly(text[..n], options);
      if IsValid(text[n], options) {
        var all := kept + [text[n]];
        assert all[..|kept|] == kept;
        NextSymbolOf(all, |kept|, options);
        assert all[..|kept| + 1] == all && ValidOnly(text, options) == all;
      } else {
        assert ValidOnly(text, options) == kept;
      }
      NextSymbolOf(text, n, options);
      assert text[..n + 1] == text;
    }
  }

  // ----- The files that are decoded -----

  // One call accepts the file, and no symbol follows the '=' at which its text ends.
  predicate IsAccepted(all: seq<byte>, options: Options)
  {
    && VerdictOn(all, options, Loose, false, 0) == SUCCESS
    && |SymbolsOf(all, options)| == |Content(all, options)|
  }

  // More than three of the next n characters are not white space, if there are so many.
  predicate IsDense(all: seq<byte>, i: nat, n: nat)
  {
    i + n <= |all| ==> |Without(all[i..i + n], WHITE_SPACE)| > 3
  }

  // No chunk holds two symbols, one of the two '=' behind them and otherwise only white space: it
  // would be compacted, and the '=' be lost.
  ghost predicate KeepsPadding(all: seq<byte>, options: Options, chunkSize: nat)
    requires chunkSize >= 2
  {
    TailOf(all, options) == Padding(2) ==> AreDense(all, chunkSize - 2)
  }

  ghost predicate AreDense(all: seq<byte>, n: nat) { forall i: nat :: IsDense(all, i, n) }

  lemma AcceptedEnd(all: seq<byte>, options: Options)
    requires IsAccepted(all, options)
    ensures var tail, idx := TailOf(all, options), |SymbolsOf(all, options)| % 4;
            && !tail.Bad?
            && (!options.garbage ==> if tail.Padding? then idx + tail.pads == 4 && idx >= 2 else idx != 1)
  {
    hide SymbolsOf, Content, TailOf, ExtraBits, FirstStop, IsPadding;
    var tail := TailOf(all, options);
    assert tail.Padding? ==> 1 <= tail.pads <= 2;
  }

  // No symbol follows where the text ends.
  lemma NoSymbolBehind(all: seq<byte>, options: Options, i: nat)
    requires IsAccepted(all, options) && FirstStop(all, options) <= i < |all|
    ensures !IsValid(all[i], options)
  {
    hide ToBase64, SymbolsOf, FirstStop, VerdictOn, IsValid;
    assert all[..|all|] == all;
    SymbolsMonotone(all, options, FirstStop(all, options), i);
    SymbolsMonotone(all, options, i + 1, |all|);
    SymbolsMonotone(all, options, i, i + 1);
  }

  lemma SymbolsRead(all: seq<byte>, options: Options, read: nat)
    requires IsAccepted(all, options) && read <= |all|
    ensures |SymbolsOf(all[..read], options)| <= |SymbolsOf(all, options)|
    ensures FirstStop(all, options) <= read ==> SymbolsOf(all[..read], options) == SymbolsOf(all, options)
  {
    hide ToBase64, SymbolsOf, FirstStop, VerdictOn, IsValid;
    assert all[..|all|] == all;
    SymbolsMonotone(all, options, read, |all|);
    if FirstStop(all, options) <= read {
      forall k | read <= k < |all| ensures !IsValid(all[k], options) {
        NoSymbolBehind(all, options, k);
      }
      AllIgnored(all, options, read, |all|);
    }
  }

  // ----- The invariant -----

  // Of the first `read` bytes of the file, the symbols in `done` are written; the others are in
  // `text`, which is symbols kept by a compaction and then the file from q on.  Either the padding
  // is still to come or in the text, or it was consumed and only white space follows.
  ghost predicate Following(all: seq<byte>, read: nat, done: seq<Sextet>, text: seq<byte>, q: nat, options: Options)
  {
    && q <= read <= |all| && read - q <= |text|
    && text[|text| - (read - q)..] == all[q..read]
    && (forall i :: 0 <= i < |text| - (read - q) ==> IsValid(text[i], options))
    && SymbolsOf(all[..read], options) == done + SymbolsOf(text, options)
    && if options.garbage then |done| % 4 == 0 || |done| == |SymbolsOf(all, options)|
       else if q <= FirstStop(all, options) then |done| % 4 == 0
       else |done| == |SymbolsOf(all, options)| && forall i :: q <= i < |all| ==> IsSpace(all[i])
  }

  // What the next call sees: the text of the file, or its beginning.
  ghost predicate Ahead(all: seq<byte>, read: nat, done: seq<Sextet>, text: seq<byte>, options: Options)
  {
    var tail, n := TailOf(text, options), |SymbolsOf(text, options)|;
    && Content(text, options) == SymbolsOf(text, options)
    && !tail.Bad? && |done| + n <= |SymbolsOf(all, options)|
    && (|done| % 4 == 0 || n == 0)
    && (tail.Padding? ==> |done| + n == |SymbolsOf(all, options)|)
    && (!options.garbage ==>
          && (tail.Padding? ==>
                && |done| % 4 == 0 && TailOf(all, options).Padding? && tail.pads <= TailOf(all, options).pads
                && (read == |all| ==> tail == TailOf(all, options)))
          && (tail.End? && read == |all| && n > 0 ==> |done| % 4 == 0 && TailOf(all, options).End?))
  }

  lemma Raw(all: seq<byte>, read: nat, done: seq<Sextet>, text: seq<byte>, q: nat, options: Options, i: nat)
    requires Following(all, read, done, text, q, options) && i < |text|
    ensures if i < |text| - (read - q) then IsValid(text[i], options)
            else q + (i - (|text| - (read - q))) < read && text[i] == all[q + (i - (|text| - (read - q)))]
  {
    hide ToBase64, SymbolsOf, FirstStop, IsValid;
    var y := |text| - (read - q);
    assert i >= y ==> text[i] == text[y..][i - y];
  }

  lemma IsAhead(all: seq<byte>, read: nat, done: seq<Sextet>, text: seq<byte>, q: nat, options: Options)
    requires IsAccepted(all, options) && Following(all, read, done, text, q, options)
    ensures Ahead(all, read, done, text, options)
  {
    hide *;
    if options.garbage {
      AheadInGarbage(all, read, done, text, q, options);
    } else if q <= FirstStop(all, options) {
      if read <= FirstStop(all, options) {
        AheadInFront(all, read, done, text, q, options);
      } else {
        AheadAtEnd(all, read, done, text, q, options);
      }
    } else {
      AheadBehind(all, read, done, text, q, options);
    }
  }

  lemma SymbolCount(all: seq<byte>, read: nat, done: seq<Sextet>, text: seq<byte>, q: nat, options: Options)
    requires IsAccepted(all, options) && Following(all, read, done, text, q, options)
    ensures |done| + |SymbolsOf(text, options)| <= |SymbolsOf(all, options)|
    ensures FirstStop(all, options) <= read ==>
              |done| + |SymbolsOf(text, options)| == |SymbolsOf(all, options)|
    ensures |done| % 4 == 0 || SymbolsOf(text, options) == []
  {
    hide ToBase64, SymbolsOf, FirstStop, VerdictOn, IsValid;
    SymbolsRead(all, options, read);
  }

  // Nothing stops: the text is all symbols and characters to be passed over.
  lemma NoStop(text: seq<byte>, options: Options)
    requires forall i :: 0 <= i < |text| ==> !IsStop(text[i], options)
    ensures FirstStop(text, options) == |text| && TailOf(text, options) == End
    ensures Content(text, options) == SymbolsOf(text, options)
  {
    hide ToBase64, SymbolsOf, IsStop, IsPadding, CountPads;
    FirstStopIs(text, |text|, options);
    assert text[..|text|] == text;
  }

  lemma AheadInFront(all: seq<byte>, read: nat, done: seq<Sextet>, text: seq<byte>, q: nat, options: Options)
    requires IsAccepted(all, options) && Following(all, read, done, text, q, options)
    requires !options.garbage && q <= FirstStop(all, options) && read <= FirstStop(all, options)
    ensures Ahead(all, read, done, text, options)
  {
    hide ToBase64, SymbolsOf, Content, FirstStop, IsValid, IsStop, VerdictOn, IsPadding, CountPads;
    SymbolCount(all, read, done, text, q, options);
    forall i | 0 <= i < |text| ensures !IsStop(text[i], options) {
      Raw(all, read, done, text, q, options, i);
      KindsOfCharacters(text[i], options);
    }
    NoStop(text, options);
  }

  lemma AheadBehind(all: seq<byte>, read: nat, done: seq<Sextet>, text: seq<byte>, q: nat, options: Options)
    requires IsAccepted(all, options) && Following(all, read, done, text, q, options)
    requires !options.garbage && FirstStop(all, options) < q
    ensures Ahead(all, read, done, text, options)
  {
    hide ToBase64, SymbolsOf, Content, FirstStop, IsValid, IsStop, VerdictOn, IsPadding, CountPads, IsSpace;
    SymbolCount(all, read, done, text, q, options);
    forall i | 0 <= i < |text| ensures !IsStop(text[i], options) {
      Raw(all, read, done, text, q, options, i);
      KindsOfCharacters(text[i], options);
    }
    NoStop(text, options);
  }

  // Reading stops in the text where it stops in the file.
  lemma StopAhead(all: seq<byte>, read: nat, done: seq<Sextet>, text: seq<byte>, q: nat, options: Options)
    requires IsAccepted(all, options) && Following(all, read, done, text, q, options)
    requires q <= FirstStop(all, options) < read
    ensures FirstStop(text, options) == |text| - (read - FirstStop(all, options))
    ensures text[FirstStop(text, options)..] == all[FirstStop(all, options)..read]
  {
    hide ToBase64, SymbolsOf, Content, FirstStop, IsValid, IsStop, VerdictOn;
    var stop := FirstStop(all, options);
    var f := |text| - (read - stop);
    forall i | 0 <= i < f ensures !IsStop(text[i], options) {
      Raw(all, read, done, text, q, options, i);
      KindsOfCharacters(text[i], options);
    }
    Raw(all, read, done, text, q, options, f);
    FirstStopIs(text, f, options);
    var y := |text| - (read - q);
    assert text[f..] == text[y..][f - y..] && all[stop..read] == all[q..read][stop - q..];
  }

  lemma NoSymbolLeft(text: seq<byte>, options: Options, f: nat)
    requires f <= |text| && forall i :: f <= i < |text| ==> !IsValid(text[i], options)
    ensures SymbolsOf(text, options) == SymbolsOf(text[..f], options)
  {
    hide ToBase64, SymbolsOf, IsValid;
    assert text[..|text|] == text;
    AllIgnored(text, options, f, |text|);
  }

  lemma AheadAtEnd(all: seq<byte>, read: nat, done: seq<Sextet>, text: seq<byte>, q: nat, options: Options)
    requires IsAccepted(all, options) && Following(all, read, done, text, q, options)
    requires !options.garbage && q <= FirstStop(all, options) < read
    ensures Ahead(all, read, done, text, options)
  {
    hide ToBase64, SymbolsOf, FirstStop, IsValid, IsStop, VerdictOn, IsPadding, CountPads;
    var stop, f := FirstStop(all, options), FirstStop(text, options);
    SymbolCount(all, read, done, text, q, options);
    AcceptedEnd(all, options);
    StopAhead(all, read, done, text, q, options);
    forall i | f <= i < |text| ensures !IsValid(text[i], options) {
      assert text[i] == text[f..][i - f] == all[stop + (i - f)];
      NoSymbolBehind(all, options, stop + (i - f));
    }
    NoSymbolLeft(text, options, f);
    assert all[stop..] == all[stop..read] + all[read..];
    assert all[stop..read][0] == all[stop] == PAD && text[f] == text[f..][0];
    PaddingPrefix(all[stop..read], all[read..]);
    PaddingCounts(all[stop..read]);
    assert read == |all| ==> all[stop..read] == all[stop..];
  }

  lemma PaddingCounts(text: seq<byte>)
    requires IsPadding(text)
    ensures 1 <= CountPads(text) <= 2
    ensures forall i :: 0 <= i < |text| ==> text[i] == PAD || IsSpace(text[i])
  {
  }

  lemma AheadInGarbage(all: seq<byte>, read: nat, done: seq<Sextet>, text: seq<byte>, q: nat, options: Options)
    requires IsAccepted(all, options) && Following(all, read, done, text, q, options) && options.garbage
    ensures Ahead(all, read, done, text, options)
  {
    hide ToBase64, SymbolsOf, FirstStop, IsValid, VerdictOn, IsPadding, CountPads;
    var stop, f := FirstStop(all, options), FirstStop(text, options);
    SymbolCount(all, read, done, text, q, options);
    if f < |text| {
      StopIsRaw(all, read, done, text, q, options);
    }
    forall i | f <= i < |text| ensures !IsValid(text[i], options) {
      Raw(all, read, done, text, q, options, i);
      Raw(all, read, done, text, q, options, f);
      NoSymbolBehind(all, options, q + (i - (|text| - (read - q))));
    }
    NoSymbolLeft(text, options, f);
  }

  lemma StopIsRaw(all: seq<byte>, read: nat, done: seq<Sextet>, text: seq<byte>, q: nat, options: Options)
    requires IsAccepted(all, options) && Following(all, read, done, text, q, options) && options.garbage
    requires FirstStop(text, options) < |text|
    ensures |text| - (read - q) <= FirstStop(text, options)
    ensures FirstStop(all, options) <= q + (FirstStop(text, options) - (|text| - (read - q))) < read
  {
    hide ToBase64, SymbolsOf, FirstStop, IsValid, VerdictOn, IsPadding, CountPads, IsStop;
    var f := FirstStop(text, options);
    Raw(all, read, done, text, q, options, f);
    KindsOfCharacters(text[f], options);
  }

  // ----- A chunk that is not the last -----

  // How many symbols the call takes.
  ghost predicate Takes(all: seq<byte>, done: seq<Sextet>, text: seq<byte>, options: Options, r: FullResult, m: nat)
  {
    var n, tail := |SymbolsOf(text, options)|, TailOf(text, options);
    && r.error == SUCCESS && r.inputCount <= |text| && m <= n
    && |SymbolsOf(text[..r.inputCount], options)| == m && r.output == Decode(SymbolsOf(text, options)[..m])
    && (m == n / 4 * 4 || (m == n && tail.Padding? && |done| + n == |SymbolsOf(all, options)|))
    && (!options.garbage && tail.Padding? ==>
          if n % 4 + tail.pads == 4 then m == n && r.inputCount == |text| && tail.pads == TailOf(all, options).Pads()
          else n % 4 == 2 && tail == Padding(1) && TailOf(all, options) == Padding(2) && m == n / 4 * 4)
  }

  lemma NextCall(all: seq<byte>, read: nat, done: seq<Sextet>, text: seq<byte>, options: Options, r: FullResult)
    requires IsAccepted(all, options) && Ahead(all, read, done, text, options)
    requires Details(text, options, StopBeforePartial, r)
    ensures r.error == SUCCESS
    ensures Takes(all, done, text, options, r, DecodedOf(text, options, StopBeforePartial, false, 0))
  {
    hide ToBase64, SymbolsOf, FirstStop, IsAccepted, Decode, Verdict, Decoded, Content;
    var s, tail := SymbolsOf(text, options), TailOf(text, options);
    AcceptedEnd(all, options);
    SameRest(|done|, |s|, |SymbolsOf(all, options)|);
    StopBeforePartialIs(s, tail.Pads(), options.garbage, tail);
    SmallTail(tail.Pads(), options, text);
    QuarterSymbols(|s|);
  }

  lemma SmallTail(pads: nat, options: Options, text: seq<byte>)
    requires pads == TailOf(text, options).Pads()
    ensures pads <= if options.garbage then 1 else 2
    ensures TailOf(text, options).Padding? ==> pads >= 1
  {
    hide FirstStop, IsPadding;
  }

  lemma SameRest(d: nat, n: nat, all: nat)
    ensures d % 4 == 0 && d + n == all ==> n % 4 == all % 4
  {
  }

  lemma QuarterSymbols(n: nat)
    ensures n / 4 * 4 <= n && (n % 4 == 0 ==> n / 4 * 4 == n) && n / 4 * 4 % 4 == 0
  {
  }

  // What is written then.
  lemma TakenBytes(all: seq<byte>, read: nat, done: seq<Sextet>, text: seq<byte>, options: Options, r: FullResult,
                   m: nat)
    requires Ahead(all, read, done, text, options) && Takes(all, done, text, options, r, m)
    ensures var taken := SymbolsOf(text[..r.inputCount], options);
            && taken == SymbolsOf(text, options)[..m]
            && Decode(done + taken) == Decode(done) + r.output
            && SymbolsOf(text, options) == taken + SymbolsOf(text[r.inputCount..], options)
  {
    hide ToBase64, SymbolsOf, FirstStop, Decode, Content, TailOf;
    SplitSymbols(text, r.inputCount, options);
    if |done| % 4 == 0 {
      DecodeConcat(done, SymbolsOf(text[..r.inputCount], options));
    } else {
      DecodeOfNothing();
      assert done + [] == done && Decode(done) + [] == Decode(done);
    }
  }

  lemma DecodeOfNothing()
    ensures Decode([]) == []
  {
  }

  // Where the file goes on in what is carried over.
  function NextStart(text: seq<byte>, read: nat, q: nat, count: nat): nat
  {
    if count == 0 then read
    else if read + count > q + |text| then read + count - |text| else q
  }

  // The rest of the buffer is carried over.
  lemma FollowsBehind(all: seq<byte>, read: nat, done: seq<Sextet>, text: seq<byte>, q: nat, options: Options,
                      r: FullResult, m: nat)
    requires IsAccepted(all, options) && Following(all, read, done, text, q, options)
    requires Ahead(all, read, done, text, options) && Takes(all, done, text, options, r, m) && r.inputCount > 0
    ensures Following(all, read, done + SymbolsOf(text[..r.inputCount], options), text[r.inputCount..],
                      NextStart(text, read, q, r.inputCount), options)
  {
    hide ToBase64, SymbolsOf, FirstStop, Decode, Content, TailOf, IsAccepted, IsValid, Ahead, Takes, IsSpace;
    var count, q' := r.inputCount, NextStart(text, read, q, r.inputCount);
    TakesLimits(all, done, text, options, r, m);
    TakenBytes(all, read, done, text, options, r, m);
    RawBehind(all, read, done, text, q, options, count);
    var taken := SymbolsOf(text[..count], options);
    assert (done + taken) + SymbolsOf(text[count..], options) == done + (taken + SymbolsOf(text[count..], options));
    if options.garbage {
      GarbageBehind(all, read, done, text, q, options, r, m);
    } else if q > FirstStop(all, options) {
      PaddedBehind(all, read, done, text, q, options, r, m);
    } else if q' <= FirstStop(all, options) {
      FrontBehind(all, read, done, text, q, options, r, m);
    } else {
      PaddingTaken(all, read, done, text, q, options, r, m);
    }
  }

  lemma TakesLimits(all: seq<byte>, done: seq<Sextet>, text: seq<byte>, options: Options, r: FullResult, m: nat)
    requires Takes(all, done, text, options, r, m)
    ensures r.inputCount <= |text| && |SymbolsOf(text[..r.inputCount], options)| == m <= |SymbolsOf(text, options)|
  {
    hide SymbolsOf, TailOf, Decode;
  }

  // The raw part of what is carried over.
  lemma RawBehind(all: seq<byte>, read: nat, done: seq<Sextet>, text: seq<byte>, q: nat, options: Options, count: nat)
    requires Following(all, read, done, text, q, options) && 0 < count <= |text|
    ensures var rest, q' := text[count..], NextStart(text, read, q, count);
            && q <= q' <= read && read - q' <= |rest|
            && rest[|rest| - (read - q')..] == all[q'..read]
            && forall i :: 0 <= i < |rest| - (read - q') ==> IsValid(rest[i], options)
  {
    hide SymbolsOf, FirstStop, IsValid;
    var y, q' := |text| - (read - q), NextStart(text, read, q, count);
    if count > y {
      DropBoth(text, all[..read], y, q, count);
      assert all[..read][q'..] == all[q'..read] && all[..read][q..] == all[q..read];
    } else {
      DropFront(text, y, count);
    }
  }

  lemma DropFront(text: seq<byte>, y: nat, count: nat)
    requires count <= y <= |text|
    ensures text[count..][y - count..] == text[y..]
    ensures forall i :: 0 <= i < y - count ==> text[count..][i] == text[count + i]
  {
  }

  lemma DropBoth(text: seq<byte>, raw: seq<byte>, y: nat, q: nat, count: nat)
    requires y <= count <= |text| && q <= |raw| && text[y..] == raw[q..]
    ensures text[count..] == raw[q + count - y..]
  {
    assert text[count..] == text[y..][count - y..] && raw[q + count - y..] == raw[q..][count - y..];
  }

  lemma GarbageBehind(all: seq<byte>, read: nat, done: seq<Sextet>, text: seq<byte>, q: nat, options: Options,
                      r: FullResult, m: nat)
    requires IsAccepted(all, options) && Following(all, read, done, text, q, options)
    requires Ahead(all, read, done, text, options) && Takes(all, done, text, options, r, m) && options.garbage
    ensures (|done| + m) % 4 == 0 || |done| + m == |SymbolsOf(all, options)|
  {
    hide SymbolsOf, TailOf, Decode, Content, IsAccepted, IsValid;
    SymbolCount(all, read, done, text, q, options);
    Quarters(|done|, |SymbolsOf(text, options)|);
  }

  lemma Quarters(d: nat, n: nat)
    ensures d % 4 == 0 ==> (d + n / 4 * 4) % 4 == 0
    ensures n == 0 ==> n / 4 * 4 == 0
  {
  }

  // The padding was consumed before.
  lemma PaddedBehind(all: seq<byte>, read: nat, done: seq<Sextet>, text: seq<byte>, q: nat, options: Options,
                     r: FullResult, m: nat)
    requires IsAccepted(all, options) && Following(all, read, done, text, q, options)
    requires Takes(all, done, text, options, r, m)
    requires !options.garbage && q > FirstStop(all, options)
    ensures m == 0 && |done| + m == |SymbolsOf(all, options)|
  {
    hide SymbolsOf, TailOf, Decode, FirstStop, IsAccepted, IsValid, IsSpace;
    SymbolCount(all, read, done, text, q, options);
  }

  // The padding is still to be consumed, or to come.
  lemma FrontBehind(all: seq<byte>, read: nat, done: seq<Sextet>, text: seq<byte>, q: nat, options: Options,
                    r: FullResult, m: nat)
    requires IsAccepted(all, options) && Following(all, read, done, text, q, options) && r.inputCount > 0
    requires Ahead(all, read, done, text, options) && Takes(all, done, text, options, r, m)
    requires !options.garbage && q <= NextStart(text, read, q, r.inputCount) <= FirstStop(all, options)
    ensures (|done| + m) % 4 == 0
  {
    hide SymbolsOf, TailOf, Decode, FirstStop, IsAccepted, IsValid, Content, IsSpace;
    Quarters(|done|, |SymbolsOf(text, options)|);
    if TailOf(text, options).Padding? {
      PadIsRead(all, read, done, text, q, options);
    } else {
      EndTakes(all, done, text, options, r, m);
    }
  }

  // A '=' in the text is one of the file.
  lemma PadIsRead(all: seq<byte>, read: nat, done: seq<Sextet>, text: seq<byte>, q: nat, options: Options)
    requires IsAccepted(all, options) && Following(all, read, done, text, q, options)
    requires !options.garbage && TailOf(text, options).Padding?
    ensures FirstStop(all, options) < read
  {
    hide ToBase64, SymbolsOf, FirstStop, IsAccepted, IsValid, Content, IsSpace, IsStop, IsPadding, CountPads;
    var f := FirstStop(text, options);
    Raw(all, read, done, text, q, options, f);
    KindsOfCharacters(text[f], options);
  }

  lemma EndTakes(all: seq<byte>, done: seq<Sextet>, text: seq<byte>, options: Options, r: FullResult, m: nat)
    requires Takes(all, done, text, options, r, m) && !options.garbage
    requires !TailOf(text, options).Padding?
    ensures m == |SymbolsOf(text, options)| / 4 * 4
  {
    hide SymbolsOf, TailOf, Decode;
  }

  // The padding is consumed by this call: the symbols are all taken, and white space follows.
  lemma PaddingTaken(all: seq<byte>, read: nat, done: seq<Sextet>, text: seq<byte>, q: nat, options: Options,
                     r: FullResult, m: nat)
    requires IsAccepted(all, options) && Following(all, read, done, text, q, options) && r.inputCount > 0
    requires Ahead(all, read, done, text, options) && Takes(all, done, text, options, r, m)
    requires !options.garbage && q <= FirstStop(all, options) < NextStart(text, read, q, r.inputCount)
    ensures |done| + m == |SymbolsOf(all, options)|
    ensures forall i :: NextStart(text, read, q, r.inputCount) <= i < |all| ==> IsSpace(all[i])
  {
    hide ToBase64, SymbolsOf, Decode, FirstStop, IsAccepted, IsValid, Content, IsSpace, TailOf;
    var stop, f := FirstStop(all, options), FirstStop(text, options);
    StopAhead(all, read, done, text, q, options);
    TakesLimits(all, done, text, options, r, m);
    SymbolsMonotone(text, options, f, r.inputCount);
    ContentIs(text, options);
    AllAreTaken(all, read, done, text, options, r, m);
    PaddingMeans(text, options);
    PaddingMeans(all, options);
    OnlySpaceBehind(all, stop, read);
  }

  lemma ContentIs(text: seq<byte>, options: Options)
    ensures Content(text, options) == SymbolsOf(text[..FirstStop(text, options)], options)
  {
  }

  lemma AllAreTaken(all: seq<byte>, read: nat, done: seq<Sextet>, text: seq<byte>, options: Options, r: FullResult,
                    m: nat)
    requires IsAccepted(all, options) && Ahead(all, read, done, text, options) && Takes(all, done, text, options, r, m)
    requires !options.garbage && FirstStop(text, options) < |text| && m == |SymbolsOf(text, options)|
    ensures TailOf(text, options).Padding? && TailOf(all, options) == TailOf(text, options)
    ensures r.inputCount == |text| && |done| + m == |SymbolsOf(all, options)|
  {
    hide SymbolsOf, Decode, FirstStop, Content, IsPadding, IsAccepted;
    QuarterSymbols(m);
  }

  lemma PaddingMeans(text: seq<byte>, options: Options)
    requires !options.garbage && TailOf(text, options).Padding?
    ensures FirstStop(text, options) < |text| && IsPadding(text[FirstStop(text, options)..])
    ensures TailOf(text, options).pads == CountPads(text[FirstStop(text, options)..])
  {
    hide FirstStop, IsPadding, CountPads;
  }

  lemma OnlySpaceBehind(all: seq<byte>, stop: nat, read: nat)
    requires stop <= read <= |all| && IsPadding(all[stop..]) && CountPads(all[stop..read]) == CountPads(all[stop..])
    ensures forall i :: read <= i < |all| ==> IsSpace(all[i])
  {
    hide CountPads, IsSpace;
    assert all[stop..] == all[stop..read] + all[read..];
    CountPadsConcat(all[stop..read], all[read..]);
    forall i | read <= i < |all| ensures IsSpace(all[i]) {
      assert all[i] == all[stop..][i - stop] && all[i] == all[read..][i - read];
      assert all[i] in all[read..];
    }
  }

  // ----- A chunk that is compacted -----

  lemma {:induction false} WithoutSpace(text: seq<byte>, options: Options)
    requires !options.garbage && forall i :: 0 <= i < |text| ==> !IsStop(text[i], options)
    ensures |Without(text, WHITE_SPACE)| == |SymbolsOf(text, options)|
  {
    hide ToBase64, IsStop, IsValid, IsSpace, WHITE_SPACE;
    if text != [] {
      var n := |text| - 1;
      WithoutSpace(text[..n], options);
      SpaceOrSymbol(text[n], options);
      WhiteSpaceCharacters(text[n], options);
      NextSymbolOf(text, n, options);
      assert text[..n + 1] == text;
    }
  }

  lemma SpaceOrSymbol(c: byte, options: Options)
    requires !options.garbage && !IsStop(c, options)
    ensures IsValid(c, options) <==> !IsSpace(c)
  {
  }

  // Everything but white space, counted.
  lemma PaddedCount(text: seq<byte>, options: Options)
    requires !options.garbage && TailOf(text, options).Padding?
    ensures |Without(text, WHITE_SPACE)| == |Content(text, options)| + TailOf(text, options).pads
  {
    hide ToBase64, FirstStop, IsStop, IsPadding, CountPads, Without, WHITE_SPACE, SymbolsOf, IsSpace;
    var stop := FirstStop(text, options);
    var tail := text[stop..];
    WithoutSpace(text[..stop], options);
    PaddingCounts(tail);
    forall c | c in Without(tail, WHITE_SPACE) ensures c == PAD {
      WhiteSpaceCharacters(c, options);
    }
    PadsAmongSpace(tail);
    WithoutConcat(text[..stop], tail, WHITE_SPACE);
    assert text == text[..stop] + tail;
  }

  lemma MoreWithout(a: seq<byte>, b: seq<byte>)
    ensures |Without(a + b, WHITE_SPACE)| >= |Without(a, WHITE_SPACE)|
    ensures |Without(a + b, WHITE_SPACE)| >= |Without(b, WHITE_SPACE)|
  {
    WithoutConcat(a, b, WHITE_SPACE);
  }

  // The first characters are symbols, and there are no more of them than symbols.
  lemma {:induction false} FewKept(text: seq<byte>, y: nat, options: Options)
    requires y <= |text| && forall i :: 0 <= i < y ==> IsValid(text[i], options)
    ensures y <= |SymbolsOf(text, options)|
  {
    hide ToBase64, SymbolsOf, IsValid;
    if y > 0 {
      var n := |text| - 1;
      FewKept(text[..n], if y <= n then y else n, options);
      NextSymbolOf(text, n, options);
      assert text[..n + 1] == text;
    }
  }

  lemma SplitSlice(all: seq<byte>, i: nat, j: nat, k: nat)
    requires i <= j <= k <= |all|
    ensures all[i..k] == all[i..j] + all[j..k]
  {
  }

  // A chunk with more than three characters that are not white space is not compacted while it
  // holds the padding.
  lemma NotStarved(all: seq<byte>, read: nat, done: seq<Sextet>, text: seq<byte>, q: nat, options: Options,
                   chunkSize: nat)
    requires Following(all, read, done, text, q, options) && chunkSize >= 2 && |text| == chunkSize
    requires |SymbolsOf(text, options)| <= 2 && AreDense(all, chunkSize - 2)
    ensures |Without(text, WHITE_SPACE)| > 3
  {
    hide ToBase64, SymbolsOf, FirstStop, IsValid, IsSpace, Without, WHITE_SPACE;
    var y, n := |text| - (read - q), chunkSize - 2;
    FewKept(text, y, options);
    assert IsDense(all, q, n);
    SplitSlice(all, q, q + n, read);
    MoreWithout(all[q..q + n], all[q + n..read]);
    assert text == text[..y] + text[y..];
    MoreWithout(text[..y], text[y..]);
  }

  // The padding is not lost by a compaction: it was consumed before, or is still to be read.
  lemma PaddingSurvives(all: seq<byte>, read: nat, done: seq<Sextet>, text: seq<byte>, q: nat, options: Options,
                        chunkSize: nat, r: FullResult)
    requires IsAccepted(all, options) && Following(all, read, done, text, q, options)
    requires Ahead(all, read, done, text, options) && Takes(all, done, text, options, r, 0) && r.inputCount == 0
    requires 4 <= chunkSize == |text| && KeepsPadding(all, options, chunkSize) && !options.garbage
    ensures q > FirstStop(all, options) || read <= FirstStop(all, options)
  {
    hide ToBase64, SymbolsOf, FirstStop, IsAccepted, IsValid, Content, TailOf, Decode, IsSpace, AreDense, WHITE_SPACE,
      Takes, Ahead, Without;
    if q <= FirstStop(all, options) < read {
      StopAhead(all, read, done, text, q, options);
      StopsAtPadding(all, read, done, text, options);
      Starved(all, done, text, options, r);
      NotStarved(all, read, done, text, q, options, chunkSize);
      PaddedCount(text, options);
      assert false;
    }
  }

  lemma StopsAtPadding(all: seq<byte>, read: nat, done: seq<Sextet>, text: seq<byte>, options: Options)
    requires Ahead(all, read, done, text, options) && FirstStop(text, options) < |text|
    ensures TailOf(text, options).Padding? && Content(text, options) == SymbolsOf(text, options)
  {
    hide SymbolsOf, FirstStop, Content, IsPadding, CountPads;
  }

  lemma Starved(all: seq<byte>, done: seq<Sextet>, text: seq<byte>, options: Options, r: FullResult)
    requires Takes(all, done, text, options, r, 0) && r.inputCount == 0 && !options.garbage
    requires TailOf(text, options).Padding? && text != []
    ensures |SymbolsOf(text, options)| == 2 && TailOf(text, options) == Padding(1)
    ensures TailOf(all, options) == Padding(2)
  {
    hide SymbolsOf, TailOf, Decode;
    FewSymbols(|SymbolsOf(text, options)|);
  }

  lemma FewSymbols(n: nat)
    ensures n / 4 * 4 == 0 ==> n < 4 && n % 4 == n
  {
  }

  // Nothing was decoded: only the symbols are carried over.
  lemma FollowsCompacted(all: seq<byte>, read: nat, done: seq<Sextet>, text: seq<byte>, q: nat, options: Options,
                         chunkSize: nat, r: FullResult, m: nat)
    requires IsAccepted(all, options) && Following(all, read, done, text, q, options)
    requires Ahead(all, read, done, text, options) && Takes(all, done, text, options, r, m) && r.inputCount == 0
    requires 4 <= chunkSize == |text| && KeepsPadding(all, options, chunkSize)
    ensures m == 0 && Following(all, read, done, ValidOnly(text, options), read, options)
  {
    hide ToBase64, SymbolsOf, FirstStop, IsAccepted, IsValid, Ahead, IsSpace, ValidOnly, Decode, TailOf, AreDense;
    NoText(options);
    assert text[..0] == [];
    ValidOnlyKeepsSymbols(text, options);
    if !options.garbage {
      PaddingSurvives(all, read, done, text, q, options, chunkSize, r);
    }
  }

  // The next turn begins as this one did, and what was written is what was taken.
  lemma FollowsOn(all: seq<byte>, read: nat, done: seq<Sextet>, text: seq<byte>, q: nat, options: Options,
                  chunkSize: nat, r: FullResult)
    requires IsAccepted(all, options) && Following(all, read, done, text, q, options)
    requires 4 <= chunkSize == |text| && KeepsPadding(all, options, chunkSize)
    requires Details(text, options, StopBeforePartial, r)
    ensures r.error == SUCCESS && r.inputCount <= |text|
    ensures var taken := SymbolsOf(text[..r.inputCount], options);
            && Following(all, read, done + taken,
                         if r.inputCount == 0 then ValidOnly(text, options) else text[r.inputCount..],
                         NextStart(text, read, q, r.inputCount), options)
            && Decode(done + taken) == Decode(done) + if r.inputCount == 0 then [] else r.output
  {
    hide *;
    var m := DecodedOf(text, options, StopBeforePartial, false, 0);
    IsAhead(all, read, done, text, q, options);
    NextCall(all, read, done, text, options, r);
    TakesLimits(all, done, text, options, r, m);
    TakenBytes(all, read, done, text, options, r, m);
    StartBehind(text, read, q, r.inputCount);
    if r.inputCount == 0 {
      NoText(options);
      assert text[..0] == [] && done + [] == done && Decode(done) + [] == Decode(done);
      FollowsCompacted(all, read, done, text, q, options, chunkSize, r, m);
    } else {
      FollowsBehind(all, read, done, text, q, options, r, m);
    }
  }

  lemma StartBehind(text: seq<byte>, read: nat, q: nat, count: nat)
    ensures count == 0 ==> NextStart(text, read, q, count) == read
  {
  }

  // ----- Beginning, reading on, and the end -----

  lemma FollowsFirst(all: seq<byte>, read: nat, options: Options)
    requires read <= |all|
    ensures Following(all, read, [], all[0..read], 0, options)
  {
    hide SymbolsOf, FirstStop;
    assert all[0..read] == all[..read];
    assert [] + SymbolsOf(all[..read], options) == SymbolsOf(all[..read], options);
  }

  lemma FollowsLoad(all: seq<byte>, read: nat, done: seq<Sextet>, carried: seq<byte>, q: nat, read': nat,
                    options: Options)
    requires Following(all, read, done, carried, q, options) && read <= read' <= |all|
    ensures Following(all, read', done, carried + all[read..read'], q, options)
  {
    hide SymbolsOf, FirstStop, IsValid, IsSpace;
    var more := all[read..read'];
    var y := |carried| - (read - q);
    assert all[..read'] == all[..read] + more && all[q..read'] == all[q..read] + more;
    assert (carried + more)[y..] == carried[y..] + more;
    JoinSymbols(all[..read], more, options);
    JoinSymbols(carried, more, options);
    assert (done + SymbolsOf(carried, options)) + SymbolsOf(more, options)
        == done + (SymbolsOf(carried, options) + SymbolsOf(more, options));
  }

  // The last call accepts what is left, and decodes all of it.
  lemma LastCall(all: seq<byte>, done: seq<Sextet>, text: seq<byte>, q: nat, options: Options, r: FullResult)
    requires IsAccepted(all, options) && Following(all, |all|, done, text, q, options)
    requires Details(text, options, Loose, r)
    ensures r.error == SUCCESS && Decode(done) + r.output == Decode(SymbolsOf(all, options))
  {
    hide ToBase64, SymbolsOf, FirstStop, IsAccepted, Following, Decode, Verdict, Decoded, TailOf, Content;
    IsAhead(all, |all|, done, text, q, options);
    AllSymbols(all, done, text, q, options);
    LastVerdict(all, done, text, options);
    var s := SymbolsOf(text, options);
    assert s[..|s|] == s;
    if s == [] {
      DecodeOfNothing();
      assert done + [] == done && Decode(done) + [] == Decode(done);
    } else {
      DecodeConcat(done, s);
    }
  }

  lemma AllSymbols(all: seq<byte>, done: seq<Sextet>, text: seq<byte>, q: nat, options: Options)
    requires Following(all, |all|, done, text, q, options)
    ensures SymbolsOf(all, options) == done + SymbolsOf(text, options)
  {
    hide SymbolsOf, FirstStop, IsValid, IsSpace;
    assert all[..|all|] == all;
  }

  lemma LastVerdict(all: seq<byte>, done: seq<Sextet>, text: seq<byte>, options: Options)
    requires IsAccepted(all, options) && Ahead(all, |all|, done, text, options)
    requires SymbolsOf(all, options) == done + SymbolsOf(text, options)
    ensures VerdictOn(text, options, Loose, false, 0) == SUCCESS
    ensures DecodedOf(text, options, Loose, false, 0) == |SymbolsOf(text, options)|
  {
    hide ToBase64, SymbolsOf, FirstStop, IsAccepted, TailOf, Content, ExtraBits;
    var s, tail := SymbolsOf(text, options), TailOf(text, options);
    AcceptedEnd(all, options);
    SameRest(|done|, |s|, |SymbolsOf(all, options)|);
    SmallTail(tail.Pads(), options, text);
  }

  // ----- Where the condition fails -----

  function Blanks(n: nat): (blanks: seq<byte>)
    ensures |blanks| == n
  {
    seq(n, _ => 32)
  }

  // The two symbols of one byte, the first '=' of their padding, and n spaces.
  function OnePad(x: byte, n: nat): (text: seq<byte>)
    ensures |text| == n + 3
  {
    Letters(Encode([x]), Standard) + [PAD] + Blanks(n)
  }

  lemma BlanksAreWhite(n: nat)
    ensures forall i :: 0 <= i < n ==> Blanks(n)[i] as char in WHITE_SPACE && IsSpace(Blanks(n)[i])
  {
  }

  lemma OnePadIsRead(x: byte, n: nat, options: Options)
    requires !options.garbage && Accepts(options.reading, Standard)
    ensures var text := OnePad(x, n);
            && Content(text, options) == SymbolsOf(text, options) == Encode([x])
            && TailOf(text, options) == Padding(1)
            && ValidOnly(text, options) == Letters(Encode([x]), Standard) == text[..2]
            && IsValid(text[0], options)
  {
    hide ToBase64, SymbolsOf, Encode, Letters, WHITE_SPACE, ValidOnly, IsStop, IsSpace, IsValid, CountPads, Accepts;
    var letters, tail := Letters(Encode([x]), Standard), [PAD] + Blanks(n);
    var text := OnePad(x, n);
    assert text == letters + tail && text[..2] == letters && text[2..] == tail;
    LettersAreRead(Encode([x]), Standard, options);
    PadIsNoSymbol(options);
    BlanksAreWhite(n);
    forall i | 0 <= i < 2 ensures !IsStop(text[i], options) {
      KindsOfCharacters(letters[i], options);
    }
    forall i | 2 <= i < |text| ensures !IsValid(text[i], options) {
      if i > 2 {
        KindsOfCharacters(text[i], options);
      }
    }
    assert text[2] == PAD;
    FirstStopIs(text, 2, options);
    NoSymbolLeft(text, options, 2);
    OnePadded(n);
    KeptLetters(text, 2, options);
  }

  lemma OnePadded(n: nat)
    ensures IsPadding([PAD] + Blanks(n)) && CountPads([PAD] + Blanks(n)) == 1
  {
    hide IsSpace;
    BlanksAreWhite(n);
    CountPadsConcat([PAD], Blanks(n));
    assert [PAD][..0] == [];
    NoPadInBlanks(n);
  }

  lemma NoPadInBlanks(n: nat)
    ensures CountPads(Blanks(n)) == 0
  {
  }

  lemma {:induction false} KeptLetters(text: seq<byte>, k: nat, options: Options)
    requires k <= |text| && (forall i :: 0 <= i < k ==> IsValid(text[i], options))
    requires forall i :: k <= i < |text| ==> !IsValid(text[i], options)
    ensures ValidOnly(text, options) == text[..k]
  {
    hide IsValid;
    if text != [] {
      var n := |text| - 1;
      if k <= n {
        KeptLetters(text[..n], k, options);
        assert text[..n][..k] == text[..k];
      } else {
        KeptLetters(text[..n], n, options);
        assert text[..k] == text[..n] + [text[n]] && text[..n][..n] == text[..n];
      }
    }
  }

  // A chunk that ends between the two '=' with nothing but white space behind the first one: one
  // call accepts the file, but compaction drops the first '=', and the final call rejects the rest.
  lemma PaddingIsLost(x: byte, chunkSize: nat, options: Options, r: FullResult, last: FullResult)
    requires !options.garbage && Accepts(options.reading, Standard) && chunkSize >= 4
    requires Details(OnePad(x, chunkSize - 3), options, StopBeforePartial, r)
    requires Details(ValidOnly(OnePad(x, chunkSize - 3), options) + [PAD], options, Loose, last)
    ensures var file := OnePad(x, chunkSize - 3) + [PAD];
            && |OnePad(x, chunkSize - 3)| == chunkSize
            && IsAccepted(file, options) && Decode(SymbolsOf(file, options)) == [x]
    ensures r.error == SUCCESS && r.inputCount == 0
    ensures last.error == INVALID_BASE64_CHARACTER
  {
    hide SymbolsOf, Content, TailOf, Encode, VerdictOn, DecodedOf, IsTextOf, ValidOnly, OnePad, Letters, Decode,
      IsValid, Canonical;
    var text, letters := OnePad(x, chunkSize - 3), Letters(Encode([x]), Standard);
    OnePadIsRead(x, chunkSize - 3, options);
    OnePadIsRead(x, 0, options);
    TwoPads(x, chunkSize - 3);
    assert letters + [PAD] == OnePad(x, 0) by { NoBlanks(x); }
    FileOfOne(OnePad(x, chunkSize - 3) + [PAD], x, options);
    OnePadVerdicts(text, x, options);
    OnePadVerdicts(OnePad(x, 0), x, options);
    if r.inputCount > 0 {
      SymbolsMonotone(text, options, 0, 1);
      SymbolsMonotone(text, options, 1, r.inputCount);
    }
  }

  lemma NoBlanks(x: byte)
    ensures OnePad(x, 0) == Letters(Encode([x]), Standard) + [PAD]
  {
  }

  lemma TwoPads(x: byte, n: nat)
    ensures IsTextOf(OnePad(x, n) + [PAD], [x], Standard, true)
  {
    hide Encode, Letters, WHITE_SPACE, IsSpace, IsTextOf;
    var letters := Letters(Encode([x]), Standard);
    NoSpaceInText([x], Standard, true);
    assert ToText([x], Standard, true) == (letters + [PAD]) + [PAD];
    BlanksAreWhite(n);
    SpaceAdded(letters + [PAD], Blanks(n), [PAD], [x], Standard, true);
  }

  lemma FileOfOne(file: seq<byte>, x: byte, options: Options)
    requires IsTextOf(file, [x], Standard, true) && Accepts(options.reading, Standard)
    ensures IsAccepted(file, options) && Decode(SymbolsOf(file, options)) == [x]
  {
    hide SymbolsOf, Content, TailOf, Encode, VerdictOn, DecodedOf, IsTextOf, Decode;
    TextIsRegular(file, [x], Standard, true, options);
    EncodedVerdict(file, [x], Standard, true, options, Loose, false, 0);
    SymbolsOfText(file, [x], Standard, true, options);
    RoundTrip([x]);
  }

  lemma OnePadVerdicts(text: seq<byte>, x: byte, options: Options)
    requires Content(text, options) == Encode([x]) && TailOf(text, options) == Padding(1) && !options.garbage
    ensures VerdictOn(text, options, StopBeforePartial, false, 0) == SUCCESS
    ensures DecodedOf(text, options, StopBeforePartial, false, 0) == 0
    ensures VerdictOn(text, options, Loose, false, 0) == INVALID_BASE64_CHARACTER
  {
    hide Content, TailOf, ExtraBits;
  }

  // Two padded texts one behind the other: one call rejects the file, but if the first text fills a
  // chunk, both are decoded.
  lemma JoinedTextsAreRead(a: seq<byte>, b: seq<byte>, options: Options, r: FullResult, last: FullResult)
    requires !options.garbage && Accepts(options.reading, Standard) && |a| % 3 != 0 && b != []
    requires Details(ToText(a, Standard, true), options, StopBeforePartial, r)
    requires Details(ToText(b, Standard, true), options, Loose, last)
    ensures var file := ToText(a, Standard, true) + ToText(b, Standard, true);
            VerdictOn(file, options, Loose, false, 0) == INVALID_BASE64_CHARACTER
    ensures r.error == SUCCESS && r.inputCount == |ToText(a, Standard, true)| && r.output == a
    ensures last.error == SUCCESS && last.output == b
  {
    hide ToText, VerdictOn, IsTextOf, Details;
    NoSpaceInText(a, Standard, true);
    NoSpaceInText(b, Standard, true);
    var text, more := ToText(a, Standard, true), ToText(b, Standard, true);
    DetailsReadBack(text, a, Standard, true, options, StopBeforePartial, r);
    DetailsReadBack(more, b, Standard, true, options, Loose, last);
    TextIsRead(text, a, Standard, true, options);
    AllIsConsumed(text, a, options, r);
    StartsWithLetter(b, options);
    StopsInFirst(text, more, options);
  }

  lemma AllIsConsumed(text: seq<byte>, a: seq<byte>, options: Options, r: FullResult)
    requires Details(text, options, StopBeforePartial, r) && r.error == SUCCESS && !options.garbage && |a| % 3 != 0
    requires Content(text, options) == Encode(a) && TailOf(text, options) == Padding(TextPads(a, true))
    ensures r.inputCount == |text|
  {
    hide SymbolsOf, Content, TailOf, Encode, VerdictOn, DecodedOf, Decode, FirstStop;
    EncodedSize(|a|);
  }

  lemma StartsWithLetter(b: seq<byte>, options: Options)
    requires b != [] && Accepts(options.reading, Standard)
    ensures IsValid(ToText(b, Standard, true)[0], options)
  {
    hide Encode, Letters, IsValid, Pads;
    LettersAreRead(Encode(b), Standard, options);
    EncodedSize(|b|);
    assert ToText(b, Standard, true)[0] == Letters(Encode(b), Standard)[0];
  }

  lemma StopsInFirst(text: seq<byte>, more: seq<byte>, options: Options)
    requires TailOf(text, options).Padding? && more != [] && IsValid(more[0], options) && !options.garbage
    ensures VerdictOn(text + more, options, Loose, false, 0) == INVALID_BASE64_CHARACTER
  {
    hide ToBase64, FirstStop, IsStop, CountPads, SymbolsOf, IsValid;
    var stop := FirstStop(text, options);
    FirstStopIs(text + more, stop, options);
    KindsOfCharacters(more[0], options);
    PadIsNoSymbol(options);
    assert (text + more)[stop..][|text| - stop] == more[0];
  }
}
