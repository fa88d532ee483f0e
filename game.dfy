/** The game engine (class MasterMind): palette clamp, the history of
    guesses, the points rule and the win/loss state, with the console
    input replaced by parameters and the game-over display by a log of
    notices. */
module Game {
  import opened Scoring

  /** The fixed colour alphabet; a game uses a prefix of it. */
  const AllColors: seq<char> := ['r', 'G', 'y', 'g', 'b', 'm', 'c', 'w']

  function Distance(a: int, b: int): nat
  {
    if a < b then b - a else a - b
  }

  /** The requested colour count forced into [3, 8]: the value of that
      range nearest to the request. */
  function ClampColors(requested: int): (k: int)
    ensures 3 <= k <= 8
    ensures forall j :: 3 <= j <= 8 ==> Distance(k, requested) <= Distance(j, requested)
  {
    if requested < 3 then 3
    else if requested > 8 then 8
    else requested
  }

  lemma ClampExamples()
    ensures ClampColors(4) == 4 && AllColors[..4] == "rGyg"
    ensures ClampColors(0) == 3 && AllColors[..3] == "rGy"
    ensures ClampColors(20) == 8 && AllColors[..8] == "rGygbmcw"
  {
  }

  /** The points a win would be worth after `guessCount` guesses. */
  function Points(guessCount: int, numColors: int): int
  {
    (10 - guessCount) * numColors * 10
  }

  /** With at least one colour, points stay positive for fewer than ten
      guesses and reach zero at the tenth. */
  lemma PointsSign(guessCount: int, numColors: int)
    requires numColors >= 1
    ensures Points(guessCount, numColors) > 0 <==> guessCount < 10
    ensures Points(10, numColors) == 0
    ensures Points(0, numColors) == 100 * numColors
  {
  }

  /** One entry of the history. Source naming: `white` is the
      exact-position count, `black` the colour-only count. */
  datatype Guess = Guess(answer: seq<char>, black: nat, white: nat)

  /** One call of display_game_over: whether the game was won and the
      points it reports (and, on a win, saves). */
  datatype Notice = Notice(won: bool, points: int)

  /** The guess after evaluation has written its pegs. */
  function Scored(secret: seq<char>, answer: seq<char>): Guess
    requires |secret| == 4 && |answer| == 4
  {
    var p := Score(secret, answer);
    Guess(answer, p.black, p.white)
  }

  /** What an evaluated guess holds: its own symbols, `white` exact
      positions, and with `black` all common symbols, at most four pegs. */
  lemma ScoredGuess(secret: seq<char>, answer: seq<char>)
    requires |secret| == 4 && |answer| == 4
    ensures Scored(secret, answer).answer == answer
    ensures Scored(secret, answer).white + Scored(secret, answer).black <= 4
    ensures Scored(secret, answer).white == |set i | 0 <= i < 4 && secret[i] == answer[i]|
    ensures Scored(secret, answer).white + Scored(secret, answer).black
         == |multiset(secret) * multiset(answer)|
    ensures Scored(secret, answer) == Scored(answer, secret).(answer := answer)
  {
    ScoreBounded(secret, answer);
    ScoreWhiteIsExactPositions(secret, answer);
    ScoreTotalIsCommonSymbols(secret, answer);
    ScoreSymmetric(secret, answer);
  }

  /** What the history holds for a guess once the play loop is done with
      it: a winning guess keeps its initial zero pegs. */
  function Recorded(secret: seq<char>, answer: seq<char>): Guess
    requires |secret| == 4 && |answer| == 4
  {
    if answer == secret then Guess(answer, 0, 0) else Scored(secret, answer)
  }

  /** The history entries a run of guesses leaves, in order. */
  function RecordAll(secret: seq<char>, answers: seq<seq<char>>): (h: seq<Guess>)
    requires |secret| == 4
    requires forall k :: 0 <= k < |answers| ==> |answers[k]| == 4
    ensures |h| == |answers|
  {
    if answers == [] then []
    else RecordAll(secret, answers[..|answers| - 1]) + [Recorded(secret, answers[|answers| - 1])]
  }

  /** Each history entry is the record of the guess at its position. */
  lemma {:induction false} RecordAllAt(secret: seq<char>, answers: seq<seq<char>>, k: nat)
    requires |secret| == 4
    requires forall i :: 0 <= i < |answers| ==> |answers[i]| == 4
    requires k < |answers|
    ensures RecordAll(secret, answers)[k] == Recorded(secret, answers[k])
  {
    var n := |answers|;
    if k < n - 1 {
      RecordAllAt(secret, answers[..n - 1], k);
    }
  }

  /** The notices a game shows when it ends after `guessCount` guesses:
      a win reports the points it was worth before that guess; reaching
      the tenth guess reports once more, with zero points, even after a
      win on that guess. */
  function Closing(won: bool, guessCount: int, numColors: int): seq<Notice>
  {
    (if won then [Notice(true, Points(guessCount - 1, numColors))] else [])
    + (if guessCount == 10 then [Notice(won, 0)] else [])
  }

  lemma RecordAllStep(secret: seq<char>, answers: seq<seq<char>>, answer: seq<char>)
    requires |secret| == 4 && |answer| == 4
    requires forall k :: 0 <= k < |answers| ==> |answers[k]| == 4
    ensures RecordAll(secret, answers + [answer]) == RecordAll(secret, answers) + [Recorded(secret, answer)]
  {
  }

  lemma PrefixStep<T>(s: seq<T>, i: nat)
    requires i < |s|
    ensures s[..i + 1] == s[..i] + [s[i]]
    ensures (s[..i] + [s[i]])[..i] == s[..i]
  {
  }

  /** Where a run of the play loop stands after the guesses `played`,
      started from the history `before` and the notices `shown`: the
      history holds their records; while the game goes on none of them was
      the secret and nothing was reported; once it is over, only the last
      one may be the secret, a loss took all ten guesses, and the closing
      notices were shown. */
  ghost predicate Progress(secret: seq<char>, numColors: int, guesses: seq<Guess>, notices: seq<Notice>,
                           gameOver: bool, winner: bool,
                           before: seq<Guess>, shown: seq<Notice>, played: seq<seq<char>>)
  {
    && |secret| == 4
    && (forall k :: 0 <= k < |played| ==> |played[k]| == 4)
    && guesses == before + RecordAll(secret, played)
    && |guesses| <= 10
    && if !gameOver then
         |guesses| < 10 && notices == shown && secret !in played
       else
         && |played| > 0
         && secret !in played[..|played| - 1]
         && (winner <==> played[|played| - 1] == secret)
         && (!winner ==> |guesses| == 10)
         && notices == shown + Closing(winner, |guesses|, numColors)
  }

  /** One more guess played from a running game keeps Progress: its record
      is appended, and the game ends exactly on a win or at the tenth guess,
      adding the closing notices. */
  lemma ProgressStep(secret: seq<char>, numColors: int, guesses: seq<Guess>, notices: seq<Notice>,
                     before: seq<Guess>, shown: seq<Notice>, played: seq<seq<char>>, answer: seq<char>,
                     guesses': seq<Guess>, notices': seq<Notice>, gameOver': bool, winner': bool)
    requires |answer| == 4
    requires Progress(secret, numColors, guesses, notices, false, false, before, shown, played)
    requires guesses' == guesses + [Recorded(secret, answer)]
    requires winner' == (answer == secret)
    requires gameOver' == (winner' || |guesses'| == 10)
    requires notices' == notices + (if gameOver' then Closing(winner', |guesses'|, numColors) else [])
    ensures Progress(secret, numColors, guesses', notices', gameOver', winner', before, shown, played + [answer])
  {
    var p := played + [answer];
    assert p[..|played|] == played && p[|played|] == answer;
    assert forall k :: 0 <= k < |p| ==> |p[k]| == 4;
    RecordAllStep(secret, played, answer);
    assert guesses' == before + RecordAll(secret, p);
    if !gameOver' {
      assert secret !in p;
    }
  }

  class MasterMind {
    const numColors: int
    const colors: seq<char>
    const secret: seq<char>
    var guesses: seq<Guess>
    var points: int
    var gameOver: bool
    var winner: bool
    var notices: seq<Notice>

    /** The object invariant. */
    ghost predicate Valid()
      reads this
    {
      && 3 <= numColors <= 8
      && |colors| == numColors
      && |secret| == 4
      && (forall c :: c in secret ==> c in colors)
      && (forall i :: 0 <= i < |guesses| ==> |guesses[i].answer| == 4)
      && (winner ==> gameOver)
    }

    /** The state update_points leaves: points match the history length
        and a non-positive value has ended the game. */
    ghost predicate Settled()
      reads this
    {
      points == Points(|guesses|, numColors) && (points <= 0 ==> gameOver)
    }

    /** A new game; `secret` stands for what make_secret draws from the
        palette. */
    constructor (requested: int, secret: seq<char>)
      requires |secret| == 4
      requires forall c :: c in secret ==> c in AllColors[..ClampColors(requested)]
      ensures Valid() && Settled()
      ensures numColors == ClampColors(requested)
      ensures |colors| == numColors && colors == AllColors[..numColors]
      ensures this.secret == secret
      ensures guesses == [] && notices == []
      ensures !gameOver && !winner
      ensures points == 100 * numColors > 0
    {
      numColors := ClampColors(requested);
      colors := AllColors[..ClampColors(requested)];
      guesses := [];
      this.secret := secret;
      gameOver := false;
      winner := false;
      notices := [];
      points := 0;
      new;
      UpdatePoints();
      PointsSign(0, numColors);
    }

    /** display_game_over: record the outcome shown to the player. */
    method ReportGameOver()
      modifies this`notices
      ensures notices == old(notices) + [Notice(winner, points)]
    {
      notices := notices + [Notice(winner, points)];
    }

    /** get_next_guess with the typed line passed in: append an unscored
        guess to the history. */
    method AddGuess(answer: seq<char>)
      requires Valid() && |answer| == 4
      modifies this`guesses
      ensures Valid()
      ensures guesses == old(guesses) + [Guess(answer, 0, 0)]
    {
      guesses := guesses + [Guess(answer, 0, 0)];
    }

    /** evaluate_guess: a winning guess ends the game unscored; a negative
        point total ends it unscored; otherwise only the last guess's pegs
        change. */
    method EvaluateGuess()
      requires Valid() && |guesses| > 0
      modifies this`guesses, this`gameOver, this`winner, this`notices
      ensures Valid()
      ensures old(gameOver) ==> gameOver
      ensures var last := old(guesses[|guesses| - 1]);
        if last.answer == secret then
          && gameOver && winner
          && guesses == old(guesses)
          && notices == old(notices) + [Notice(true, points)]
        else if points < 0 then
          && gameOver && winner == old(winner)
          && guesses == old(guesses)
          && notices == old(notices) + [Notice(winner, points)]
        else
          && gameOver == old(gameOver) && winner == old(winner)
          && notices == old(notices)
          && guesses == old(guesses[..|guesses| - 1]) + [Scored(secret, last.answer)]
    {
      var guess := guesses[|guesses| - 1];
      if guess.answer == secret {
        gameOver := true;
        winner := true;
        ReportGameOver();
        return;
      } else if points < 0 {
        gameOver := true;
        ReportGameOver();
        return;
      }
      var white, black := CountPegs(secret, guess.answer);
      guesses := guesses[..|guesses| - 1] + [Guess(guess.answer, black, white)];
    }

    /** update_points: recompute the points from the history length and
        end the game once they are not positive. */
    method UpdatePoints()
      requires Valid()
      modifies this`points, this`gameOver, this`notices
      ensures Valid() && Settled()
      ensures points == Points(|guesses|, numColors)
      ensures gameOver == (old(gameOver) || points <= 0)
      ensures notices == old(notices) + (if points <= 0 then [Notice(winner, points)] else [])
    {
      points := (10 - |guesses|) * numColors * 10;
      if points <= 0 {
        gameOver := true;
        ReportGameOver();
      }
    }

    /** Where a run of the play loop stands after the guesses `played`,
        started from the history `before` and the notices `shown`. */
    ghost predicate PlayedFrom(before: seq<Guess>, shown: seq<Notice>, played: seq<seq<char>>)
      reads this
    {
      Progress(secret, numColors, guesses, notices, gameOver, winner, before, shown, played)
    }

    /** One pass of the play loop: take the next guess, evaluate it and
        update the points. The ghost parameters describe the run so far. */
    method PlayRound(answer: seq<char>, ghost before: seq<Guess>, ghost shown: seq<Notice>,
                     ghost played: seq<seq<char>>)
      requires Valid() && Settled() && !gameOver && |answer| == 4
      requires PlayedFrom(before, shown, played)
      modifies this`guesses, this`points, this`gameOver, this`winner, this`notices
      ensures Valid() && Settled()
      ensures guesses == old(guesses) + [Recorded(secret, answer)]
      ensures |guesses| <= 10
      ensures winner == (answer == secret)
      ensures gameOver == (winner || |guesses| == 10)
      ensures notices == old(notices) + (if gameOver then Closing(winner, |guesses|, numColors) else [])
      ensures PlayedFrom(before, shown, played + [answer])
    {
      PointsSign(|guesses|, numColors);
      AddGuess(answer);
      EvaluateGuess();
      UpdatePoints();
      PointsSign(|guesses|, numColors);
      ProgressStep(secret, numColors, old(guesses), old(notices), before, shown, played, answer,
                   guesses, notices, gameOver, winner);
    }

    /** play: while the game is not over, take the next guess, evaluate it
        and update the points. `input` holds the lines the player types; it
        must not run out before the game ends, so it covers the remaining
        budget of guesses or contains the secret. A game in progress ends within its remaining budget of guesses: by
        a win, whose guess is the last one played, or at the tenth guess. */
    method Play(input: seq<seq<char>>) returns (used: nat)
      requires Valid() && Settled()
      requires forall k :: 0 <= k < |input| ==> |input[k]| == 4
      requires !gameOver ==> 10 - |guesses| <= |input| || secret in input
      modifies this`guesses, this`points, this`gameOver, this`winner, this`notices
      ensures Valid() && Settled() && gameOver
      ensures used <= |input|
      ensures old(gameOver) ==>
        && used == 0 && guesses == old(guesses)
        && winner == old(winner) && points == old(points) && notices == old(notices)
      ensures !old(gameOver) ==>
        0 < used <= 10 - |old(guesses)| && PlayedFrom(old(guesses), old(notices), input[..used])
    {
      ghost var before := guesses;
      ghost var shown := notices;
      ghost var played: seq<seq<char>> := [];
      PointsSign(|guesses|, numColors);
      used := 0;
      while !gameOver
        invariant Valid() && Settled()
        invariant used <= |input| && played == input[..used]
        invariant old(gameOver) ==>
          && used == 0 && gameOver && guesses == before
          && winner == old(winner) && points == old(points) && notices == shown
        invariant !old(gameOver) ==>
          (10 - |before| <= |input| || secret in input) && PlayedFrom(before, shown, played)
        decreases 10 - |guesses|
      {
        assert |guesses| == |before| + used < 10;
        if 10 - |before| > |input| {
          assert input == input[..used] + input[used..];
        }
        var answer := input[used];
        PlayRound(answer, before, shown, played);
        PrefixStep(input, used);
        played := played + [answer];
        used := used + 1;
      }
    }
  }

  /** A win on the tenth guess is reported twice: first with the points
      the guess was worth, then by update_points with zero points. */
  lemma ClosingOnTenthGuess(numColors: int)
    ensures Closing(true, 10, numColors) == [Notice(true, 10 * numColors), Notice(true, 0)]
    ensures Closing(false, 10, numColors) == [Notice(false, 0)]
    ensures Closing(true, 3, numColors) == [Notice(true, 80 * numColors)]
  {
  }

  /** The win case of tests.py: a guess equal to the secret ends the game
      as a win and keeps its zero pegs. */
  method WinningGuessEndsGame() returns (over: bool, won: bool, entry: Guess)
    ensures over && won && entry == Guess("rgby", 0, 0)
  {
    assert AllColors[..ClampColors(8)] == AllColors;
    assert AllColors[0] == 'r' && AllColors[2] == 'y' && AllColors[3] == 'g' && AllColors[4] == 'b';
    var game := new MasterMind(8, "rgby");
    game.AddGuess("rgby");
    game.EvaluateGuess();
    over, won, entry := game.gameOver, game.winner, game.guesses[0];
  }

  /** The all-misplaced case of tests.py: the guess stays in play and the
      history holds its evaluation (four colour-only pegs, by
      ScoredAllMisplaced). */
  method MisplacedGuessIsScored() returns (over: bool, entry: Guess)
    ensures !over && entry == Scored("gbyr", "rgby")
  {
    assert AllColors[..ClampColors(8)] == AllColors;
    assert AllColors[0] == 'r' && AllColors[2] == 'y' && AllColors[3] == 'g' && AllColors[4] == 'b';
    var game := new MasterMind(8, "gbyr");
    game.AddGuess("rgby");
    assert game.guesses[0].answer != game.secret by { assert "rgby"[0] != "gbyr"[0]; }
    game.EvaluateGuess();
    over, entry := game.gameOver, game.guesses[0];
  }

  /** The entry that case records: four colour-only pegs, no exact one. */
  lemma ScoredAllMisplaced()
    ensures Scored("gbyr", "rgby") == Guess("rgby", 4, 0)
  {
    ScoreAllMisplaced();
  }
}
