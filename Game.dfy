/** The game engine: a secret code over the palette, an attempt counter and
    the won/over flags, updated in place by one guess at a time. */
module MastermindEngine {
  import opened MastermindScoring

  class MastermindGame {
    const codeLength: nat
    const maxAttempts: int
    const secretCode: array<char>
    /** The secret, as a value: what `secretCode` holds for the whole game. */
    ghost const Secret: seq<char>

    var attemptsMade: nat
    var gameWon: bool
    var gameOver: bool

    /** The object invariant. Nothing bounds maxAttempts from below: when it
        is less than one, the first guess ends the game, so the counter then
        stops at one. */
    ghost predicate Valid()
      reads this, secretCode
      ensures Valid() ==> secretCode.Length == codeLength
      ensures Valid() ==> forall k :: 0 <= k < secretCode.Length ==> 0 <= ColorToIndex(secretCode[k]) < |Colors|
    {
      && secretCode[..] == Secret
      && |Secret| == codeLength
      && IsCode(Secret)
      && (gameWon ==> gameOver)
      && (attemptsMade <= maxAttempts || attemptsMade <= 1)
      && (!gameOver ==> attemptsMade == 0 || attemptsMade < maxAttempts)
    }

    /** A new game that has not been guessed at yet, with the given secret
        (drawn at random by the caller). */
    constructor (codeLength: nat, maxAttempts: int, secret: string)
      requires |secret| == codeLength && IsCode(secret)
      ensures Valid() && fresh(secretCode)
      ensures this.codeLength == codeLength && this.maxAttempts == maxAttempts
      ensures Secret == secret
      ensures attemptsMade == 0 && !gameWon && !gameOver
    {
      this.codeLength := codeLength;
      this.maxAttempts := maxAttempts;
      this.secretCode := new char[codeLength](i requires 0 <= i < codeLength => secret[i]);
      this.Secret := secret;
      this.attemptsMade := 0;
      this.gameWon := false;
      this.gameOver := false;
    }

    /** Scores a guess and advances the game. After game over the guess is
        ignored and (0, 0) returned; otherwise it counts as an attempt, a
        full match wins, and a miss on the last attempt loses. Only the first
        codeLength characters of the guess are read. */
    method Guess(guessStr: string) returns (blackPins: int, whitePins: int)
      requires Valid()
      requires gameOver || (|guessStr| >= codeLength && IsCode(guessStr[..codeLength]))
      modifies this
      ensures Valid()
      ensures secretCode[..] == Secret
      ensures old(gameOver) ==>
        && blackPins == 0 && whitePins == 0
        && attemptsMade == old(attemptsMade) && gameWon == old(gameWon) && gameOver
      ensures !old(gameOver) ==>
        var guess := guessStr[..codeLength];
        && attemptsMade == old(attemptsMade) + 1
        && blackPins == Score(Secret, guess).black
        && whitePins == Score(Secret, guess).white
        && gameWon == (guess == Secret)
        && gameOver == (gameWon || attemptsMade >= maxAttempts)
    {
      if gameOver {
        return 0, 0;
      }

      attemptsMade := attemptsMade + 1;
      ghost var secret := Secret;
      // Only the first codeLength characters of the guess are ever read.
      var guessChars := guessStr[..codeLength];

      // First pass: exact matches, remembered so the second pass skips them.
      var blackMatched;
      blackPins, blackMatched := MatchExact(secretCode, guessChars);
      whitePins := 0;

      FullMatch(secret, guessChars);
      if blackPins == codeLength {
        gameWon := true;
        gameOver := true;
        return;
      }

      // Second pass: per-colour counts of the positions left unmatched.
      var codeCount := CountUnmatched(secretCode[..], blackMatched, guessChars);
      var guessCount := CountUnmatched(guessChars, blackMatched, secret);

      // White pins: for each colour, the smaller of the two counts.
      for i := 0 to |Colors|
        invariant whitePins == SumMin(Tally(secret, guessChars, codeLength, false), Tally(guessChars, secret, codeLength, false), i)
      {
        whitePins := whitePins + Min(codeCount[i], guessCount[i]);
      }

      if attemptsMade >= maxAttempts {
        gameOver := true;
      }
    }

    /** Number of positions where `guess` repeats the colour of `code`, and
        the mask of those positions. */
    static method MatchExact(code: array<char>, guess: seq<char>) returns (blackPins: int, blackMatched: array<bool>)
      requires code.Length <= |guess|
      ensures blackPins == Agreeing(code[..], guess, code.Length, true)
      ensures fresh(blackMatched) && blackMatched.Length == code.Length
      ensures forall k :: 0 <= k < code.Length ==> blackMatched[k] == (code[k] == guess[k])
    {
      blackPins := 0;
      blackMatched := new bool[code.Length](_ => false);
      for i := 0 to code.Length
        invariant blackPins == Agreeing(code[..], guess, i, true)
        invariant forall k :: 0 <= k < i ==> blackMatched[k] == (code[k] == guess[k])
        invariant forall k :: i <= k < code.Length ==> !blackMatched[k]
      {
        if guess[i] == code[i] {
          blackPins := blackPins + 1;
          blackMatched[i] := true;
        }
      }
    }

    /** Frequency table (indexed like `Colors`) of the colours of `code` at
        the positions that `blackMatched` leaves unmarked; the marks are the
        positions where `code` agrees with `other`. */
    static method CountUnmatched(code: seq<char>, blackMatched: array<bool>, ghost other: seq<char>)
      returns (count: array<int>)
      requires blackMatched.Length <= |code| && blackMatched.Length <= |other|
      requires forall k :: 0 <= k < blackMatched.Length ==> code[k] in Colors
      requires forall k :: 0 <= k < blackMatched.Length ==> blackMatched[k] == (code[k] == other[k])
      ensures fresh(count) && count.Length == |Colors|
      ensures count[..] == Tally(code, other, blackMatched.Length, false)
    {
      count := new int[|Colors|](_ => 0);
      for i := 0 to blackMatched.Length
        invariant count[..] == Tally(code, other, i, false)
      {
        TallyEntryStep(code, other, i, false);
        if !blackMatched[i] {
          var idx := ColorToIndex(code[i]);
          count[idx] := count[idx] + 1;
        }
      }
    }

    /** Whether the secret has been guessed; a won game is over. */
    function IsGameWon(): (won: bool)
      reads this, secretCode
      requires Valid()
      ensures won ==> gameOver
    {
      gameWon
    }

    /** Whether the game is over; while it is not, an attempt is left. */
    function IsGameOver(): (over: bool)
      reads this, secretCode
      requires Valid()
      ensures !over ==> attemptsMade == 0 || attemptsMade < maxAttempts
    {
      gameOver
    }

    /** Number of guesses counted so far; never past the limit. */
    function GetAttemptsMade(): (made: nat)
      reads this, secretCode
      requires Valid()
      ensures made <= maxAttempts || made <= 1
    {
      attemptsMade
    }

    /** The attempt limit, which the counter never passes. */
    function GetMaxAttempts(): (limit: int)
      reads this, secretCode
      requires Valid()
      ensures attemptsMade <= limit || attemptsMade <= 1
    {
      maxAttempts
    }

    /** A fresh copy of the secret, so the caller cannot change the game's. */
    method GetSecretCode() returns (code: array<char>)
      requires Valid()
      ensures fresh(code) && code[..] == Secret
      ensures IsCode(code[..])
    {
      code := new char[secretCode.Length](i reads secretCode requires 0 <= i < secretCode.Length => secretCode[i]);
    }
  }
}
