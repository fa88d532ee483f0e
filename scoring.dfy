/** Scoring of one guess against the secret (MasterMind.evaluate_guess).

    The source keeps its own peg names: `white` counts the positions where
    guess and secret agree, `black` counts the remaining guess symbols that
    occur among the remaining secret symbols, each secret occurrence being
    used at most once.
 */
module Scoring {

  /** The two counts written into a Guess by one evaluation. */
  datatype Pegs = Pegs(white: nat, black: nat)

  /** Position-by-position agreement flags of secret and guess. */
  function ExactMask(secret: seq<char>, answer: seq<char>): seq<bool>
    requires |secret| == |answer|
  {
    seq(|secret|, i requires 0 <= i < |secret| => secret[i] == answer[i])
  }

  /** Number of set flags (the `sum` of the agreement flags). */
  function CountTrue(mask: seq<bool>): nat
  {
    if mask == [] then 0
    else CountTrue(mask[..|mask| - 1]) + (if mask[|mask| - 1] then 1 else 0)
  }

  /** The elements of `s` at the positions whose flag is clear, in order. */
  function Unmatched(s: seq<char>, mask: seq<bool>): seq<char>
    requires |s| == |mask|
  {
    if s == [] then []
    else (if mask[0] then [] else [s[0]]) + Unmatched(s[1..], mask[1..])
  }

  /** The elements of `s` at the positions whose flag is set, in order. */
  function Matched(s: seq<char>, mask: seq<bool>): seq<char>
    requires |s| == |mask|
  {
    if s == [] then []
    else (if mask[0] then [s[0]] else []) + Matched(s[1..], mask[1..])
  }

  /** Python's `list.remove`: delete the first occurrence of `x`. */
  function RemoveFirst(s: seq<char>, x: char): (r: seq<char>)
    requires x in s
    ensures |r| == |s| - 1
  {
    if s[0] == x then s[1..] else [s[0]] + RemoveFirst(s[1..], x)
  }

  /** list.remove takes out exactly one occurrence of the symbol. */
  lemma {:induction false} RemoveFirstRemovesOne(s: seq<char>, x: char)
    requires x in s
    ensures multiset(RemoveFirst(s, x)) == multiset(s) - multiset{x}
  {
    assert s == [s[0]] + s[1..];
    if s[0] != x {
      RemoveFirstRemovesOne(s[1..], x);
    }
  }

  /** The colour scan: each guess symbol still present in the secret
      remainder counts once and consumes one occurrence of it. */
  function ColorMatches(answer: seq<char>, secret: seq<char>): nat
  {
    if answer == [] then 0
    else if answer[0] in secret then 1 + ColorMatches(answer[1..], RemoveFirst(secret, answer[0]))
    else ColorMatches(answer[1..], secret)
  }

  /** The pegs awarded to `answer` against `secret`. */
  function Score(secret: seq<char>, answer: seq<char>): Pegs
    requires |secret| == 4 && |answer| == 4
  {
    var mask := ExactMask(secret, answer);
    Pegs(CountTrue(mask), ColorMatches(Unmatched(answer, mask), Unmatched(secret, mask)))
  }

  /** The scoring part of evaluate_guess as the source runs it: the
      agreement flags, the two filtered remainders, then the scan loop that
      removes matched symbols from the secret remainder in place. */
  method CountPegs(secret: seq<char>, answer: seq<char>) returns (white: nat, black: nat)
    requires |secret| == 4 && |answer| == 4
    ensures Pegs(white, black) == Score(secret, answer)
  {
    var mask := ExactMask(secret, answer);
    var rest := Unmatched(secret, mask);
    var guessRest := Unmatched(answer, mask);
    black := 0;
    for i := 0 to |guessRest|
      invariant black + ColorMatches(guessRest[i..], rest) == ColorMatches(guessRest, Unmatched(secret, mask))
    {
      var g := guessRest[i];
      assert guessRest[i..][0] == g && guessRest[i..][1..] == guessRest[i + 1..];
      if g in rest {
        black := black + 1;
        rest := RemoveFirst(rest, g);
      }
    }
    white := CountTrue(mask);
  }

  // ---------------------------------------------------------------------
  // Facts about the helpers

  lemma {:induction false} CountTrueBound(mask: seq<bool>)
    ensures CountTrue(mask) <= |mask|
    ensures CountTrue(mask) == |mask| <==> forall i :: 0 <= i < |mask| ==> mask[i]
  {
    if mask != [] {
      var init := mask[..|mask| - 1];
      CountTrueBound(init);
      assert forall i :: 0 <= i < |init| ==> init[i] == mask[i];
    }
  }

  /** The count of set flags is the number of flagged positions. */
  lemma {:induction false} CountTrueIsPositions(mask: seq<bool>)
    ensures CountTrue(mask) == |set i | 0 <= i < |mask| && mask[i]|
  {
    if mask != [] {
      var n := |mask|;
      var init := mask[..n - 1];
      CountTrueIsPositions(init);
      var before := set i | 0 <= i < |init| && init[i];
      var all := set i | 0 <= i < n && mask[i];
      if mask[n - 1] {
        assert all == before + {n - 1};
      } else {
        assert all == before;
      }
    }
  }

  /** CountTrue read from the front. */
  lemma {:induction false} CountTrueCons(b: bool, mask: seq<bool>)
    ensures CountTrue([b] + mask) == (if b then 1 else 0) + CountTrue(mask)
  {
    if mask != [] {
      var n := |mask|;
      assert ([b] + mask)[..n] == [b] + mask[..n - 1];
      CountTrueCons(b, mask[..n - 1]);
    }
  }

  lemma {:induction false} SplitLengths(s: seq<char>, mask: seq<bool>)
    requires |s| == |mask|
    ensures |Matched(s, mask)| == CountTrue(mask)
    ensures |Unmatched(s, mask)| == |mask| - CountTrue(mask)
  {
    if s != [] {
      SplitLengths(s[1..], mask[1..]);
      CountTrueCons(mask[0], mask[1..]);
      assert mask == [mask[0]] + mask[1..];
      CountTrueBound(mask[1..]);
    }
  }

  /** Splitting by the flags loses no symbol. */
  lemma {:induction false} SplitMultiset(s: seq<char>, mask: seq<bool>)
    requires |s| == |mask|
    ensures multiset(s) == multiset(Matched(s, mask)) + multiset(Unmatched(s, mask))
  {
    if s != [] {
      var rest, flags := s[1..], mask[1..];
      SplitMultiset(rest, flags);
      assert s == [s[0]] + rest;
      assert multiset(s) == multiset{s[0]} + multiset(rest);
      if mask[0] {
        assert Matched(s, mask) == [s[0]] + Matched(rest, flags);
      } else {
        assert Unmatched(s, mask) == [s[0]] + Unmatched(rest, flags);
      }
    }
  }

  /** Where the flags say two sequences agree, their flagged parts are equal. */
  lemma {:induction false} MatchedAgree(a: seq<char>, b: seq<char>, mask: seq<bool>)
    requires |a| == |b| == |mask|
    requires forall i :: 0 <= i < |mask| && mask[i] ==> a[i] == b[i]
    ensures Matched(a, mask) == Matched(b, mask)
  {
    if a != [] {
      MatchedAgree(a[1..], b[1..], mask[1..]);
    }
  }

  /** With no position flagged, nothing is filtered out. */
  lemma {:induction false} UnmatchedNone(s: seq<char>, mask: seq<bool>)
    requires |s| == |mask|
    requires forall i :: 0 <= i < |mask| ==> !mask[i]
    ensures Unmatched(s, mask) == s
  {
    if s != [] {
      UnmatchedNone(s[1..], mask[1..]);
      assert s == [s[0]] + s[1..];
    }
  }

  lemma AddCommon(m: multiset<char>, x: multiset<char>, y: multiset<char>)
    ensures (m + x) * (m + y) == m + x * y
  {
  }

  lemma AddAbsent(c: char, x: multiset<char>, y: multiset<char>)
    requires c !in y
    ensures (multiset{c} + x) * y == x * y
  {
  }

  lemma IntersectionCommutes(x: multiset<char>, y: multiset<char>)
    ensures x * y == y * x
  {
  }

  // ---------------------------------------------------------------------
  // Properties of the colour scan and of Score

  /** The scan counts exactly the common symbols of the two lists, with
      multiplicity: a secret occurrence is never matched twice. */
  lemma {:induction false} ColorMatchesIsIntersection(answer: seq<char>, secret: seq<char>)
    ensures ColorMatches(answer, secret) == |multiset(answer) * multiset(secret)|
  {
    if answer != [] {
      var c := answer[0];
      assert answer == [c] + answer[1..];
      assert multiset(answer) == multiset{c} + multiset(answer[1..]);
      if c in secret {
        var rest := RemoveFirst(secret, c);
        RemoveFirstRemovesOne(secret, c);
        ColorMatchesIsIntersection(answer[1..], rest);
        assert multiset(secret) == multiset{c} + multiset(rest);
        AddCommon(multiset{c}, multiset(answer[1..]), multiset(rest));
      } else {
        ColorMatchesIsIntersection(answer[1..], secret);
        AddAbsent(c, multiset(answer[1..]), multiset(secret));
      }
    }
  }

  /** The scan never counts more symbols than either list holds. */
  lemma {:induction false} ColorMatchesBound(answer: seq<char>, secret: seq<char>)
    ensures ColorMatches(answer, secret) <= |answer|
    ensures ColorMatches(answer, secret) <= |secret|
  {
    if answer != [] {
      if answer[0] in secret {
        ColorMatchesBound(answer[1..], RemoveFirst(secret, answer[0]));
      } else {
        ColorMatchesBound(answer[1..], secret);
      }
    }
  }

  /** `white` is the number of positions where guess and secret agree. */
  lemma ScoreWhiteIsExactPositions(secret: seq<char>, answer: seq<char>)
    requires |secret| == 4 && |answer| == 4
    ensures Score(secret, answer).white == |set i | 0 <= i < 4 && secret[i] == answer[i]|
  {
    var mask := ExactMask(secret, answer);
    CountTrueIsPositions(mask);
    assert (set i | 0 <= i < |mask| && mask[i]) == (set i | 0 <= i < 4 && secret[i] == answer[i]);
  }

  /** `black` is the size of the multiset intersection of the two
      remainders left after removing the exact-position matches. */
  lemma ScoreBlackIsCommonRemainder(secret: seq<char>, answer: seq<char>)
    requires |secret| == 4 && |answer| == 4
    ensures var mask := ExactMask(secret, answer);
      Score(secret, answer).black == |multiset(Unmatched(answer, mask)) * multiset(Unmatched(secret, mask))|
  {
    var mask := ExactMask(secret, answer);
    ColorMatchesIsIntersection(Unmatched(answer, mask), Unmatched(secret, mask));
  }

  /** Both pegs together count every common symbol of guess and secret,
      with multiplicity; so `black` is that total minus `white`. */
  lemma ScoreTotalIsCommonSymbols(secret: seq<char>, answer: seq<char>)
    requires |secret| == 4 && |answer| == 4
    ensures Score(secret, answer).white + Score(secret, answer).black
         == |multiset(secret) * multiset(answer)|
  {
    var mask := ExactMask(secret, answer);
    var common := multiset(Matched(secret, mask));
    var restS := multiset(Unmatched(secret, mask));
    var restA := multiset(Unmatched(answer, mask));
    MatchedAgree(secret, answer, mask);
    SplitMultiset(secret, mask);
    SplitMultiset(answer, mask);
    SplitLengths(secret, mask);
    AddCommon(common, restS, restA);
    IntersectionCommutes(restS, restA);
    ColorMatchesIsIntersection(Unmatched(answer, mask), Unmatched(secret, mask));
    assert multiset(secret) * multiset(answer) == common + restA * restS;
  }

  /** At most four pegs are awarded in all. */
  lemma ScoreBounded(secret: seq<char>, answer: seq<char>)
    requires |secret| == 4 && |answer| == 4
    ensures Score(secret, answer).white + Score(secret, answer).black <= 4
  {
    var mask := ExactMask(secret, answer);
    SplitLengths(answer, mask);
    ColorMatchesBound(Unmatched(answer, mask), Unmatched(secret, mask));
  }

  /** Four exact pegs exactly when the guess is the secret, and then no
      colour-only peg. */
  lemma ScoreFullMatch(secret: seq<char>, answer: seq<char>)
    requires |secret| == 4 && |answer| == 4
    ensures Score(secret, answer).white == 4 <==> secret == answer
    ensures secret == answer ==> Score(secret, answer) == Pegs(4, 0)
  {
    var mask := ExactMask(secret, answer);
    CountTrueBound(mask);
    SplitLengths(answer, mask);
    if Score(secret, answer).white == 4 {
      forall i | 0 <= i < 4 ensures secret[i] == answer[i] {
        assert mask[i];
      }
    }
  }

  /** Exchanging the roles of guess and secret gives the same pegs. */
  lemma ScoreSymmetric(secret: seq<char>, answer: seq<char>)
    requires |secret| == 4 && |answer| == 4
    ensures Score(secret, answer) == Score(answer, secret)
  {
    assert ExactMask(secret, answer) == ExactMask(answer, secret);
    ScoreTotalIsCommonSymbols(secret, answer);
    ScoreTotalIsCommonSymbols(answer, secret);
    IntersectionCommutes(multiset(secret), multiset(answer));
  }

  lemma {:induction false} CountTrueNone(mask: seq<bool>)
    requires forall i :: 0 <= i < |mask| ==> !mask[i]
    ensures CountTrue(mask) == 0
  {
    if mask != [] {
      CountTrueNone(mask[..|mask| - 1]);
    }
  }

  /** Lists with no symbol in common give no colour match. */
  lemma {:induction false} ColorMatchesNone(answer: seq<char>, secret: seq<char>)
    requires forall c :: c in answer ==> c !in secret
    ensures ColorMatches(answer, secret) == 0
  {
    if answer != [] {
      assert forall c :: c in answer[1..] ==> c in answer;
      ColorMatchesNone(answer[1..], secret);
    }
  }

  lemma ScanNoCommonColour()
    ensures ColorMatches("rgby", "Gmcw") == 0
  {
    ColorMatchesNone("rgby", "Gmcw");
  }

  /** One step of the scan on a guess symbol the secret remainder holds. */
  lemma ColorMatchesHit(c: char, rest: seq<char>, secret: seq<char>)
    requires c in secret
    ensures ColorMatches([c] + rest, secret) == 1 + ColorMatches(rest, RemoveFirst(secret, c))
  {
    assert ([c] + rest)[1..] == rest;
  }

  /** One step of the scan on a guess symbol the secret remainder lacks. */
  lemma ColorMatchesMiss(c: char, rest: seq<char>, secret: seq<char>)
    requires c !in secret
    ensures ColorMatches([c] + rest, secret) == ColorMatches(rest, secret)
  {
    assert ([c] + rest)[1..] == rest;
  }

  lemma ScanDoubleColour()
    ensures ColorMatches("grgy", "rbwr") == 1
  {
    assert "grgy" == ['g'] + "rgy" && "rgy" == ['r'] + "gy";
    ColorMatchesMiss('g', "rgy", "rbwr");
    ColorMatchesHit('r', "gy", "rbwr");
    assert RemoveFirst("rbwr", 'r') == "bwr";
    ColorMatchesNone("gy", "bwr");
  }

  /** The evaluations that tests.py checks. */
  lemma ScoreNoCommonColour()
    ensures Score("Gmcw", "rgby") == Pegs(0, 0)
  {
    var mask := ExactMask("Gmcw", "rgby");
    assert mask == [false, false, false, false];
    CountTrueNone(mask);
    UnmatchedNone("Gmcw", mask);
    UnmatchedNone("rgby", mask);
    ScanNoCommonColour();
  }

  lemma ScanAllMisplaced()
    ensures ColorMatches("rgby", "gbyr") == 4
  {
    assert "rgby" == ['r'] + "gby" && "gby" == ['g'] + "by" && "by" == ['b'] + "y" && "y" == ['y'] + [];
    assert RemoveFirst("gbyr", 'r') == "gby";
    ColorMatchesHit('r', "gby", "gbyr");
    ColorMatchesHit('g', "by", "gby");
    ColorMatchesHit('b', "y", "by");
    ColorMatchesHit('y', [], "y");
  }

  lemma ScoreAllMisplaced()
    ensures Score("gbyr", "rgby") == Pegs(0, 4)
  {
    var mask := ExactMask("gbyr", "rgby");
    assert mask == [false, false, false, false];
    CountTrueNone(mask);
    UnmatchedNone("gbyr", mask);
    UnmatchedNone("rgby", mask);
    ScanAllMisplaced();
  }

  lemma ScoreDoubleColour()
    ensures Score("rbwr", "grgy") == Pegs(0, 1)
    ensures Score("grgy", "rbwr") == Pegs(0, 1)
  {
    var mask := ExactMask("rbwr", "grgy");
    assert mask == [false, false, false, false];
    CountTrueNone(mask);
    UnmatchedNone("rbwr", mask);
    UnmatchedNone("grgy", mask);
    ScanDoubleColour();
    ScoreSymmetric("rbwr", "grgy");
  }
}
