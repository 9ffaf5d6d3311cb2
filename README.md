# Mastermind game engine, modelled in Dafny

This project models `MastermindGame`, the engine of a single-player Mastermind
game. The engine holds a secret code over the six-colour palette `R G B Y O P`,
an attempt counter and two flags, `gameWon` and `gameOver`. Its one mutating
operation, `guess`, scores a guess in two passes. The first pass counts exact
matches ("black pins") and marks those positions. The second pass builds
per-colour counts of the unmarked positions of the secret and of the guess, and
sums the smaller of each pair ("white pins"). The same call also drives the
game: a full match wins, and a miss on the last allowed attempt loses. Once
the game is over, later guesses are ignored and score `(0, 0)`.

Two modules:

- `MastermindScoring` (`Scoring.dfy`) holds the palette and `ColorToIndex`. It
  also holds the pure specification of the feedback: `BlackPins`, `WhitePins`,
  `Score`, built from the counting functions `Agreeing`, `AgreeingOf` and
  `Tally`. Finally it holds a position-free reference definition,
  `ColourMatches`: the sum over the palette of the smaller of the two codes'
  counts of each colour. The lemmas prove what the two-pass count promises.
  Black plus white never exceeds the code length. It always equals
  `ColourMatches`, so no colour is counted twice and rearranging a guess never
  changes the total. A full match scores `(length, 0)` exactly when the guess
  is the secret.
- `MastermindEngine` (`Game.dfy`) holds the class `MastermindGame`. The fields
  are those of the Java class. `codeLength`, `maxAttempts` and the
  `secretCode` array are `const`, like the Java `final` fields. `attemptsMade`,
  `gameWon` and `gameOver` are mutable. `Valid()` is the object invariant: a
  won game is over, and the counter never passes the limit. `Guess` is proved
  against `Score` and states the complete new state. The first pass
  (`MatchExact`) and the frequency count (`CountUnmatched`, used once for the
  secret and once for the guess, as the two identical Java loops) are static
  helper methods with their own loops and invariants. The white-pin sum loop
  stays inside `Guess`. The getters are functions.

Points where the model follows the code's actual behaviour:

- The Java code validates neither guesses nor the configuration, so the model
  has no error results. What the code needs in order not to crash is a
  `requires` clause instead.
- A guess longer than the code is accepted, and its extra characters are
  ignored. A guess made after game over is not read at all.
- `maxAttempts` may be any integer. When it is below one, the first guess ends
  the game. The counter then stops at one, so "attempts made ≤ max attempts"
  holds only when `maxAttempts ≥ 1`. `Valid()` states the general form.

## Model

| member | source | states |
|---|---|---|
| `MastermindScoring.ColorToIndex` | src/main/java/com/mycompany/mastermindapp/MastermindGame.java:50-52 | the index is -1 exactly for a character outside the palette; otherwise it is the colour's position in `R G B Y O P` |
| `MastermindScoring.ColorIndexInverse` | src/main/java/com/mycompany/mastermindapp/MastermindGame.java:29-38 | the lookup table inverts palette indexing, so each of the six colours has its own index |
| `MastermindScoring.Agreeing` | src/main/java/com/mycompany/mastermindapp/MastermindGame.java:68-74 | the number of agreeing (or differing) positions among the first n is at most n |
| `MastermindScoring.AgreeingOf` | src/main/java/com/mycompany/mastermindapp/MastermindGame.java:88-104 | counting only one colour never counts more positions than counting all colours |
| `MastermindScoring.Tally` | src/main/java/com/mycompany/mastermindapp/MastermindGame.java:84-104 | the `codeCount`/`guessCount` table: one entry per palette colour, each at most the number of unmatched positions |
| `MastermindScoring.BlackPins` | src/main/java/com/mycompany/mastermindapp/MastermindGame.java:68-74 | the first-pass count of exact matches, never more than the code length |
| `MastermindScoring.WhitePins` | src/main/java/com/mycompany/mastermindapp/MastermindGame.java:84-109 | the sum of per-colour minima of the left-over counts, never more than the secret's left-over positions |
| `MastermindScoring.Score` | src/main/java/com/mycompany/mastermindapp/MastermindGame.java:76-116 | black pins at most the code length; a full match reports no white pins (the early exit); white pins never exceed the secret's left-over positions |
| `MastermindScoring.AgreeingSplit` | src/main/java/com/mycompany/mastermindapp/MastermindGame.java:68-74 | matched and unmatched positions together are all the positions, so unmatched = length − black |
| `MastermindScoring.AgreeingAll` | src/main/java/com/mycompany/mastermindapp/MastermindGame.java:68-77 | all of the first n positions match exactly when the two prefixes are equal |
| `MastermindScoring.FullMatch` | src/main/java/com/mycompany/mastermindapp/MastermindGame.java:76-81 | black pins equal the code length iff the guess is the secret, and then the feedback is (length, 0) |
| `MastermindScoring.TallyEntryStep` | src/main/java/com/mycompany/mastermindapp/MastermindGame.java:88-94 | one more unmatched position adds one to the count of its own colour and changes no other colour's count |
| `MastermindScoring.TallySum` | src/main/java/com/mycompany/mastermindapp/MastermindGame.java:84-104 | for a palette code, the per-colour counts add up to the number of counted positions: each is counted once |
| `MastermindScoring.PinsBounded` | src/main/java/com/mycompany/mastermindapp/MastermindGame.java:106-109 | black + white ≤ code length for every guess |
| `MastermindScoring.WhiteOfFullMatch` | src/main/java/com/mycompany/mastermindapp/MastermindGame.java:76-81 | on a full match the white-pin sum is zero anyway, so the early exit changes no result |
| `MastermindScoring.CensusSplit` | src/main/java/com/mycompany/mastermindapp/MastermindGame.java:68-94 | a colour's occurrences in a code are its exact matches plus its left-over positions |
| `MastermindScoring.ExactMatchesSymmetric` | src/main/java/com/mycompany/mastermindapp/MastermindGame.java:70-73 | the exact matches of a colour are the same counted from the secret or from the guess |
| `MastermindScoring.ColourMatchesPrefix` | src/main/java/com/mycompany/mastermindapp/MastermindGame.java:106-109 | colour by colour, min(left-over counts) + exact matches = min(whole-code counts) |
| `MastermindScoring.TotalPins` | src/main/java/com/mycompany/mastermindapp/MastermindGame.java:63-109 | black + white equals the position-free number of colour matches between secret and guess |
| `MastermindScoring.TotalPinsPermutation` | src/main/java/com/mycompany/mastermindapp/MastermindGame.java:84-109 | two guesses with the same colours in any order earn the same black + white total |
| `MastermindScoring.ExampleFullMatch` | src/main/java/com/mycompany/mastermindapp/MastermindGame.java:77-80 | secret RGBY, guess RGBY scores (4, 0) |
| `MastermindScoring.ExampleAllMisplaced` | src/main/java/com/mycompany/mastermindapp/MastermindGame.java:63-116 | secret RGBY, guess YBGR scores (0, 4) |
| `MastermindScoring.ExampleRepeatedColours` | src/main/java/com/mycompany/mastermindapp/MastermindGame.java:63-116 | secret RRGG, guess RGRG scores (2, 2); repeated colours are not counted twice |
| `MastermindEngine.MastermindGame.constructor` | src/main/java/com/mycompany/mastermindapp/MastermindGame.java:20-27 | a new game keeps its configuration and a fresh copy of the secret; no attempts yet, not won, not over |
| `MastermindEngine.MastermindGame.Valid` | src/main/java/com/mycompany/mastermindapp/MastermindGame.java:12-18 | the secret array holds `codeLength` palette colours, so every secret colour has an index into the count table; a won game is over; the counter never passes the limit |
| `MastermindEngine.MastermindGame.Guess` | src/main/java/com/mycompany/mastermindapp/MastermindGame.java:54-117 | after game over: (0, 0), nothing changes. Otherwise: attempts + 1, pins = `Score` of the first codeLength characters, won iff the guess is the secret, over iff won or attempts ≥ max. The invariant and the secret are kept |
| `MastermindEngine.MastermindGame.MatchExact` | src/main/java/com/mycompany/mastermindapp/MastermindGame.java:63-74 | black pins count the agreeing positions, and the mask is true exactly at those positions |
| `MastermindEngine.MastermindGame.CountUnmatched` | src/main/java/com/mycompany/mastermindapp/MastermindGame.java:83-104 | the frequency array is the per-colour count of the unmasked positions |
| `MastermindEngine.MastermindGame.IsGameWon` | src/main/java/com/mycompany/mastermindapp/MastermindGame.java:119-121 | a won game is over |
| `MastermindEngine.MastermindGame.IsGameOver` | src/main/java/com/mycompany/mastermindapp/MastermindGame.java:123-125 | while the game is not over, an attempt is still left |
| `MastermindEngine.MastermindGame.GetAttemptsMade` | src/main/java/com/mycompany/mastermindapp/MastermindGame.java:127-129 | the counter is at most the limit (or 1 when the limit is below 1) |
| `MastermindEngine.MastermindGame.GetMaxAttempts` | src/main/java/com/mycompany/mastermindapp/MastermindGame.java:131-133 | the returned limit bounds the attempt counter in the same way |
| `MastermindEngine.MastermindGame.GetSecretCode` | src/main/java/com/mycompany/mastermindapp/MastermindGame.java:135-137 | a fresh array, equal to the secret, made of palette colours |

## Left out

- Random secret generation (`MastermindGame.java:40-45`) and the debug print of the secret (line 46): the constructor takes the secret as a parameter, which must be a palette code of length `codeLength`.
- The `HashMap` behind `colorToIndex` (`MastermindGame.java:29-38`): `ColorToIndex` is a plain function with the same mapping and the same -1 default.
- Malformed guesses: the code crashes on them. A guess shorter than the code throws at line 70, after the counter was already incremented. A non-palette character at an unmatched position throws at line 91 or 100. `Guess` requires instead that, unless the game is over, the guess has at least `codeLength` characters and that these are palette colours. A `null` guess string is not modelled.
- The result array `int[]{black, white}`: `Guess` returns the two numbers as two out-parameters.
- Java's 32-bit `int`: no wrap-around is modelled. None can occur: the counter stops at the limit, and both pin counts are at most the code length.
- A negative `codeLength`, which makes the Java constructor throw: the model takes a `nat`.
- `MastermindView.java` and `ColorCirclePanel.java`: the Swing window, dialogs and click-to-cycle colour pickers are presentation only and are not part of this model.
