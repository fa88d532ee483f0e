# Mastermind console game: a Dafny model of its engine

This project models the game engine of a console Mastermind game, the
`MasterMind` class in `mastermind.py`. The game hides a secret of four colours.
The player guesses, and each guess is scored with exact-position pegs and
colour-only pegs. The game ends when the secret is guessed or when the points
fall to zero, which happens at the tenth guess.

Three modules, one per component:

- `Scoring` (`scoring.dfy`) models the arithmetic of `evaluate_guess`.
  `ExactMask` gives the per-position agreement flags. `Unmatched` gives the two
  filtered remainders. `RemoveFirst` is `list.remove`. `ColorMatches` is the
  scan over the guess remainder, and `Score` combines them. The method
  `CountPegs` runs the scan as a loop, as the source does, and is proved equal
  to `Score`. The lemmas then say what the pegs mean:
  - `white` is the number of agreeing positions;
  - `black` is the multiset intersection of the two remainders;
  - together the pegs count every common symbol of guess and secret;
  - there are at most four pegs;
  - `white` is four exactly when the guess is the secret;
  - swapping guess and secret gives the same pegs.
- `Game` (`game.dfy`) holds the clamp of the colour count, the points formula,
  the `Guess` record and the class `MasterMind`. The class has the source's
  fields (`numColors`, `colors`, `secret`, `guesses`, `points`, `gameOver`,
  `winner`). Its methods are the constructor, `get_next_guess` (`AddGuess`),
  `evaluate_guess`, `update_points`, one pass of the `play` loop, and `play`
  itself.
- `HighScores` (`high_scores.dfy`) models the list part of `save_score`:
  append `[points, initials]` and `sort(reverse=True)`, under Python's
  ordering of lists, with initials compared as sequences of code points.

Naming follows the code. A `Guess`'s `white` is the exact-position count and
its `black` is the colour-only count. This is the reverse of the usual
Mastermind convention, where black marks an exact position; the docstring of
`Guess.__init__`, the code and tests.py all agree on it.

Behaviour of the code that the model keeps:

- A winning guess ends the game before any pegs are written, so it stays at
  `white = 0, black = 0`. `update_points` still runs after the win and
  recomputes `points`.
- `display_game_over` is modelled as a `Notice(won, points)` appended to the
  field `notices`. A win on the tenth guess is reported twice. The first
  notice carries the points the guess was worth. The second comes from
  `update_points` and carries zero points. `Play`'s contract (through
  `Progress` and `Closing`) states this.
- A guess made while `points` is negative ends the game unscored. Inside
  `play` this cannot happen, because the loop stops at zero points.
- Equal points in the score list are ordered by initials, highest first.
  Python compares the whole `[points, initials]` list.
- The code opens the score file for reading with no guard. Only malformed
  content falls back to an empty list; a missing file is an error. The model
  takes the stored list as a parameter, so it has no missing-file case.

## Model

| member | source | states |
|---|---|---|
| `Game.ClampColors` | mastermind.py:80-83 | the colour count lies in [3, 8] and is the value of that range nearest the request (so a request in range is kept, below 3 gives 3, above 8 gives 8) |
| `Game.ClampExamples` | tests.py:44-63 | requests 4, 0 and 20 give palettes `rGyg`, `rGy` and `rGygbmcw` |
| `Game.Points` | mastermind.py:161 | `(10 - guesses) * numColors * 10`; its sign and its start value are stated by `PointsSign` |
| `Game.MasterMind.constructor` | mastermind.py:73-90 | `numColors` is the clamped count and `colors` is that-length prefix of the alphabet; the history and notices start empty; the game is not over and not won; `points` is `100 * numColors`, which is positive |
| `Game.MasterMind.AddGuess` | mastermind.py:190-194 | the history grows by exactly one unscored guess at its end |
| `Game.MasterMind.ReportGameOver` | mastermind.py:139-150 | one notice with the current win flag and points is appended |
| `Game.MasterMind.EvaluateGuess` | mastermind.py:101-130 | a guess equal to the secret sets `gameOver` and `winner` and leaves the history unchanged; otherwise negative points end the game unscored; otherwise only the last guess's pegs change, to `Score`, and the win/over flags stay as they were; `gameOver` is never cleared |
| `Game.MasterMind.UpdatePoints` | mastermind.py:159-164 | `points = (10 - number of guesses) * numColors * 10`; `gameOver` is its old value or `points <= 0`; a notice is added exactly when `points <= 0` |
| `Game.PointsSign` | mastermind.py:161-163 | with at least one colour, points are positive exactly while fewer than ten guesses were made, are 0 at ten, and start at `100 * numColors` |
| `Game.MasterMind.PlayRound` | mastermind.py:96-99 | one loop pass appends the guess's record (unscored if it wins, scored otherwise); `winner` is set exactly when the guess is the secret; the game is over exactly on a win or at the tenth guess; the closing notices are added when it ends |
| `Game.ProgressStep` | mastermind.py:96-99 | from a running game, one more guess appends its record and ends the game exactly on a win or at the tenth guess, adding the closing notices; the run so far stays described by `Progress` |
| `Game.MasterMind.Play` | mastermind.py:92-99 | a game already over is left unchanged; otherwise the loop runs at least once and at most `10 - |guesses|` times; the history gains one record per guess played; only the last guess played can equal the secret; `winner` holds exactly when it does; a loss takes ten guesses; the notices are `Closing` |
| `Game.Closing` | mastermind.py:110-116 | the notices shown when a game ends, from the display_game_over calls at :113 and :164: a win first reports the points before its guess, the tenth guess adds one more notice with zero points; `Play`'s contract and `ClosingOnTenthGuess` pin it down |
| `Game.RecordAll` | mastermind.py:96-99 | the history a run of guesses leaves: one record per guess, in order, each given by `RecordAllAt` |
| `Game.RecordAllAt` | mastermind.py:96-99 | the history entry at each position is the record of that guess: unscored if it is the secret, scored otherwise |
| `Game.ClosingOnTenthGuess` | mastermind.py:110-116 | a win on the tenth guess gives two notices, the second with zero points; a loss gives one; an earlier win gives one with the points before that guess |
| `Game.ScoredGuess` | mastermind.py:120-130 | an evaluated guess keeps its symbols; `white` is the number of agreeing positions; `white + black` is the number of common symbols with multiplicity; at most four pegs; swapping secret and guess gives the same pegs |
| `Game.WinningGuessEndsGame` | tests.py:125-136 | secret `rgby` guessed as `rgby` ends the game as a win, and the guess keeps zero pegs |
| `Game.MisplacedGuessIsScored` | tests.py:113-123 | secret `gbyr` guessed as `rgby` leaves the game running, and the history holds that guess's evaluation |
| `Game.ScoredAllMisplaced` | tests.py:113-123 | that evaluation is `black = 4, white = 0` |
| `Scoring.Score` | mastermind.py:120-130 | the pegs of one evaluation; `ScoreWhiteIsExactPositions` and `ScoreTotalIsCommonSymbols` characterise them without the scan, and `CountPegs` computes them |
| `Scoring.ColorMatches` | mastermind.py:123-127 | the colour scan with removal; `ColorMatchesIsIntersection` shows it counts the multiset intersection of the remainders |
| `Scoring.RemoveFirst` | mastermind.py:127 | `list.remove` of a present symbol: the result is one shorter, and by `RemoveFirstRemovesOne` exactly one occurrence goes |
| `Scoring.ExactMask` | mastermind.py:120 | the per-position agreement flags; `ScoreWhiteIsExactPositions` and `ScoreFullMatch` state what they count |
| `Scoring.Unmatched` | mastermind.py:121-122 | the symbols at unflagged positions; `SplitMultiset` and `SplitLengths` show that matched and unmatched parts together keep every symbol, with the unmatched part `4 - white` long |
| `Scoring.CountTrue` | mastermind.py:128 | the `sum` over the flags; `CountTrueIsPositions` shows it is the number of flagged positions |
| `Scoring.SplitMultiset` | mastermind.py:120-122 | the matched and unmatched parts together hold exactly the symbols of the list |
| `Scoring.SplitLengths` | mastermind.py:120-122 | the matched part has `white` symbols and the unmatched part the rest |
| `Scoring.CountPegs` | mastermind.py:120-130 | the flags, remainders and in-place removal loop produce exactly `Score(secret, answer)` |
| `Scoring.RemoveFirstRemovesOne` | mastermind.py:127 | removing a present symbol takes exactly one occurrence of it out of the multiset, so the list is one shorter |
| `Scoring.ColorMatchesIsIntersection` | mastermind.py:123-127 | the scan counts the size of the multiset intersection of the two remainders, so no secret occurrence is matched twice |
| `Scoring.ColorMatchesNone` | mastermind.py:123-127 | a guess remainder sharing no symbol with the secret remainder gets no colour-only peg |
| `Scoring.ColorMatchesBound` | mastermind.py:123-127 | the scan counts at most as many symbols as either remainder holds |
| `Scoring.ScoreWhiteIsExactPositions` | mastermind.py:120 | `white` is the number of positions i < 4 with `answer[i] == secret[i]` |
| `Scoring.ScoreBlackIsCommonRemainder` | mastermind.py:121-127 | `black` is the size of the multiset intersection of the unmatched guess and secret remainders |
| `Scoring.ScoreTotalIsCommonSymbols` | mastermind.py:120-128 | `white + black` is the size of the multiset intersection of the whole guess and the whole secret |
| `Scoring.ScoreBounded` | mastermind.py:120-130 | `white + black <= 4` |
| `Scoring.ScoreFullMatch` | mastermind.py:110-130 | `white == 4` exactly when the guess equals the secret, and then `black == 0` |
| `Scoring.ScoreSymmetric` | mastermind.py:120-127 | exchanging secret and guess gives the same pegs |
| `Scoring.CountTrueIsPositions` | mastermind.py:128 | the sum over the agreement flags equals the number of flagged positions |
| `Scoring.ScoreNoCommonColour` | tests.py:101-111 | secret `Gmcw`, guess `rgby` give no pegs |
| `Scoring.ScanAllMisplaced` | tests.py:113-123 | the scan of `rgby` against `gbyr` matches all four symbols |
| `Scoring.ScoreAllMisplaced` | tests.py:113-123 | secret `gbyr`, guess `rgby` give `white = 0, black = 4` |
| `Scoring.ScoreDoubleColour` | tests.py:138-160 | `rbwr` against `grgy`, in either role, gives `white = 0, black = 1` |
| `HighScores.Record` | mastermind.py:175-176 | the new list is one longer; it holds every stored entry and the new one, as a multiset exactly those; it is sorted non-increasing in Python's list order |
| `HighScores.RecordIsTheSortedList` | mastermind.py:175-176 | any non-increasing arrangement of the stored entries plus the new one equals `Record`, whatever the sorting algorithm |
| `HighScores.RecordOfSorted` | mastermind.py:175-176 | on an already sorted list the new entry is inserted in its place |
| `HighScores.DescendingIsUnique` | mastermind.py:176 | two non-increasing lists with the same entries are equal |
| `HighScores.InsertCorrect` | mastermind.py:176 | insertion into a sorted list keeps it sorted and adds exactly the new entry |
| `HighScores.SortDescendingCorrect` | mastermind.py:176 | the reference sort returns a non-increasing permutation of its input |
| `HighScores.StringLess` | mastermind.py:176 | Python `<` on initials, compared symbol by symbol with a proper prefix first; `StringLessIrreflexive`, `StringLessTransitive` and `StringLessTotal` make it a strict total order (see Left out for Python 2 strings) |
| `HighScores.EntryLess` | mastermind.py:176 | Python `<` on `[points, initials]`: points first, then initials; `EntryLessTotal` and `EntryLessTransitive` make it a strict total order |
| `HighScores.SortDescending` | mastermind.py:176 | the reference for `sort(reverse=True)`; `SortDescendingCorrect` and `DescendingIsUnique` show it is the one descending permutation |
| `HighScores.StringLessIrreflexive` | mastermind.py:176 | no string is below itself |
| `HighScores.StringLessTotal` | mastermind.py:176 | Python string comparison orders any two different strings |
| `HighScores.StringLessTransitive` | mastermind.py:176 | Python string comparison is transitive |
| `HighScores.EntryLessTotal` | mastermind.py:176 | the `[points, initials]` order ranks any two different entries |
| `HighScores.RecordExample` | mastermind.py:175-176 | equal points are ordered by initials descending; higher points come first |

## Left out

- Console input and output: `print` and `raw_input` in `display_game`,
  `display_game_over`, `display_high_scores` and `get_next_guess`. A guess is
  a parameter of `AddGuess`. The lines the player types are `Play`'s `input`
  sequence. `raw_input` fails at end of input, so `Play` requires that the
  input does not run out before the game ends: it holds at least as many
  lines as guesses remain, or it contains the secret. Only `input[..used]` is
  read. A game-over display is a `Notice` in the `notices` field.
- The initials prompt, the call of `save_score` from `display_game_over` and
  the "show the high scores" prompt. They are console input. A won notice
  carries the points that would be saved.
- File and JSON handling in `save_score` and `display_high_scores`. Reading,
  writing and parsing the score file are I/O. `HighScores.Record` takes the
  stored list as a value. Entries that are not `[int, string]` pairs are not
  modelled.
- `make_secret`'s `random.choice`. Randomness is a parameter. The constructor
  takes the secret and requires four symbols from the palette.
- The colour rendering of `Guess.__str__` and the `color_map`. They depend on
  the termcolor library and produce ANSI escape output.
- The argparse entry point.
- Guesses whose length is not 4. `AddGuess` requires four symbols; the source
  itself indexes four positions.
- Replacing the secret after construction, as tests.py does with
  `mm.secret = ...`. The secret is fixed at construction. The secret-equals-guess
  check compares symbol sequences. Python's comparison of a string with a list
  is not modelled.
- Object identity of `Guess` records: evaluation replaces the last history
  entry with an updated value instead of mutating a shared object.
- `list.sort`'s own algorithm (Timsort). `SortDescending` is a reference
  insertion sort. `HighScores.RecordIsTheSortedList` shows that the result
  does not depend on the algorithm.
- HighScores.StringLess: initials are compared as sequences of Unicode code
  points. The program runs under Python 2: new initials come from `raw_input`
  as a byte `str`, and stored ones come back from `json.load` as `unicode`.
  The mixed `str`/`unicode` comparison is not modelled, and neither is its
  `UnicodeDecodeError` when tied points meet non-ASCII initials.
- The mock-based tests of tests.py, which only count calls and check prompt
  strings.
