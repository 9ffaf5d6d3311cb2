/** The palette and the feedback rules of a Mastermind game: how a guess is
    scored against the secret code ("black" pins for a right colour in the
    right place, "white" pins for a right colour in the wrong place). The
    functions here are the specification that the engine's loops are proved
    against; the lemmas state what that specification promises. */
module MastermindScoring {

  /** The six colours, in index order: R=0, G=1, B=2, Y=3, O=4, P=5. */
  const Colors: seq<char> := ['R', 'G', 'B', 'Y', 'O', 'P']

  /** Every entry of `s` is a palette colour. */
  predicate IsCode(s: seq<char>) {
    forall i :: 0 <= i < |s| ==> s[i] in Colors
  }

  /** Index of a colour in the palette, -1 for a character outside it
      (the lookup table's default). */
  function ColorToIndex(c: char): (r: int)
    ensures -1 <= r < |Colors|
    ensures r == -1 <==> c !in Colors
    ensures r != -1 ==> Colors[r] == c
  {
    if c == 'R' then 0
    else if c == 'G' then 1
    else if c == 'B' then 2
    else if c == 'Y' then 3
    else if c == 'O' then 4
    else if c == 'P' then 5
    else -1
  }

  /** The lookup is the inverse of indexing the palette; in particular the
      six colours are distinct. */
  lemma ColorIndexInverse()
    ensures forall j :: 0 <= j < |Colors| ==> ColorToIndex(Colors[j]) == j
  {
  }

  /** Feedback on one guess. */
  datatype Feedback = Feedback(black: nat, white: nat)

  function Min(a: int, b: int): int {
    if a <= b then a else b
  }

  // ---------------------------------------------------------------------
  // Counting over the first n positions of two codes

  /** Number of positions k < n at which `s` and `g` agree (agree = true)
      or differ (agree = false). */
  function Agreeing(s: seq<char>, g: seq<char>, n: nat, agree: bool): (r: nat)
    requires n <= |s| && n <= |g|
    ensures r <= n
  {
    if n == 0 then 0
    else Agreeing(s, g, n - 1, agree) + (if (s[n - 1] == g[n - 1]) == agree then 1 else 0)
  }

  /** Of the positions counted by `Agreeing`, those where `s` has colour `c`. */
  function AgreeingOf(s: seq<char>, g: seq<char>, n: nat, agree: bool, c: char): (r: nat)
    requires n <= |s| && n <= |g|
    ensures r <= Agreeing(s, g, n, agree)
  {
    if n == 0 then 0
    else AgreeingOf(s, g, n - 1, agree, c)
         + (if (s[n - 1] == g[n - 1]) == agree && s[n - 1] == c then 1 else 0)
  }

  /** Per-colour frequency table (indexed like `Colors`) of the positions
      counted by `Agreeing`. With agree = false this is the table of the
      colours of `s` left over once the exact matches are removed. */
  function Tally(s: seq<char>, g: seq<char>, n: nat, agree: bool): (t: seq<nat>)
    requires n <= |s| && n <= |g|
    ensures |t| == |Colors|
    ensures forall j :: 0 <= j < |t| ==> t[j] <= Agreeing(s, g, n, agree)
  {
    seq(|Colors|, j requires 0 <= j < |Colors| => AgreeingOf(s, g, n, agree, Colors[j]))
  }

  /** Per-colour frequency table of a whole code, ignoring positions. */
  function Census(s: seq<char>): seq<nat> {
    seq(|Colors|, j requires 0 <= j < |Colors| => multiset(s)[Colors[j]])
  }

  /** t[0] + ... + t[k-1] */
  function Sum(t: seq<nat>, k: nat): nat
    requires k <= |t|
  {
    if k == 0 then 0 else Sum(t, k - 1) + t[k - 1]
  }

  /** min(a[0], b[0]) + ... + min(a[k-1], b[k-1]) */
  function SumMin(a: seq<nat>, b: seq<nat>, k: nat): nat
    requires k <= |a| && k <= |b|
  {
    if k == 0 then 0 else SumMin(a, b, k - 1) + Min(a[k - 1], b[k - 1])
  }

  // ---------------------------------------------------------------------
  // The scoring rules

  /** Black pins: positions where guess and secret carry the same colour. */
  function BlackPins(secret: seq<char>, guess: seq<char>): (b: nat)
    requires |secret| == |guess|
    ensures b <= |secret|
  {
    Agreeing(secret, guess, |secret|, true)
  }

  /** White pins: over the positions that are not black, the sum over the
      palette of the smaller of the secret's and the guess's count of that
      colour. */
  function WhitePins(secret: seq<char>, guess: seq<char>): (w: nat)
    requires |secret| == |guess|
    ensures w <= Sum(Tally(secret, guess, |secret|, false), |Colors|)
  {
    SumMinBelowSum(Tally(secret, guess, |secret|, false), Tally(guess, secret, |secret|, false), |Colors|);
    SumMin(Tally(secret, guess, |secret|, false), Tally(guess, secret, |secret|, false), |Colors|)
  }

  /** The feedback a guess earns: a full match stops at (length, 0)
      without counting white pins. */
  function Score(secret: seq<char>, guess: seq<char>): (r: Feedback)
    requires |secret| == |guess|
    ensures r.black <= |secret|
    ensures r.black == |secret| ==> r.white == 0
    ensures r.white <= Sum(Tally(secret, guess, |secret|, false), |Colors|)
  {
    var b := BlackPins(secret, guess);
    if b == |secret| then Feedback(b, 0) else Feedback(b, WhitePins(secret, guess))
  }

  /** Position-free reference: the number of colour matches, i.e. the sum
      over the palette of the smaller of the two codes' counts of a colour. */
  function ColourMatches(secret: seq<char>, guess: seq<char>): nat {
    SumMin(Census(secret), Census(guess), |Colors|)
  }

  // ---------------------------------------------------------------------
  // Lemmas

  /** Every position either agrees or differs. */
  lemma {:induction false} AgreeingSplit(s: seq<char>, g: seq<char>, n: nat)
    requires n <= |s| && n <= |g|
    ensures Agreeing(s, g, n, true) + Agreeing(s, g, n, false) == n
  {
    if n > 0 {
      AgreeingSplit(s, g, n - 1);
    }
  }

  /** All of the first n positions agree exactly when the prefixes are equal. */
  lemma {:induction false} AgreeingAll(s: seq<char>, g: seq<char>, n: nat)
    requires n <= |s| && n <= |g|
    ensures Agreeing(s, g, n, true) == n <==> s[..n] == g[..n]
  {
    if n > 0 {
      AgreeingAll(s, g, n - 1);
      assert s[..n] == s[..n - 1] + [s[n - 1]];
      assert g[..n] == g[..n - 1] + [g[n - 1]];
      if s[..n] == g[..n] {
        assert s[..n - 1] == s[..n][..n - 1] == g[..n][..n - 1] == g[..n - 1];
        assert s[n - 1] == s[..n][n - 1] == g[..n][n - 1] == g[n - 1];
      }
    }
  }

  /** A guess earns as many black pins as the code is long exactly when it
      is the secret, and then the feedback is (length, 0). */
  lemma FullMatch(secret: seq<char>, guess: seq<char>)
    requires |secret| == |guess|
    ensures BlackPins(secret, guess) == |secret| <==> guess == secret
    ensures guess == secret ==> Score(secret, guess) == Feedback(|secret|, 0)
  {
    AgreeingAll(secret, guess, |secret|);
    assert secret[..|secret|] == secret;
    assert guess[..|guess|] == guess;
  }

  /** How one more position changes the first k entries of a tally. */
  lemma {:induction false} TallySumStep(s: seq<char>, g: seq<char>, n: nat, agree: bool, k: nat)
    requires n < |s| && n < |g| && k <= |Colors|
    ensures Sum(Tally(s, g, n + 1, agree), k)
         == Sum(Tally(s, g, n, agree), k)
            + (if (s[n] == g[n]) == agree && 0 <= ColorToIndex(s[n]) < k then 1 else 0)
  {
    if k > 0 {
      TallySumStep(s, g, n, agree, k - 1);
      ColorIndexInverse();
      assert (s[n] == Colors[k - 1]) == (ColorToIndex(s[n]) == k - 1);
    }
  }

  /** One more position adds one to at most one entry of a tally: the entry
      of its colour, if it is counted at all. */
  lemma TallyEntryStep(s: seq<char>, g: seq<char>, n: nat, agree: bool)
    requires n < |s| && n < |g| && s[n] in Colors
    ensures var t, idx := Tally(s, g, n, agree), ColorToIndex(s[n]);
      Tally(s, g, n + 1, agree) == if (s[n] == g[n]) == agree then t[idx := t[idx] + 1] else t
  {
  }

  /** When the first n entries of `s` are palette colours, a tally counts
      each of the positions it describes exactly once. */
  lemma {:induction false} TallySum(s: seq<char>, g: seq<char>, n: nat, agree: bool)
    requires n <= |s| && n <= |g|
    requires forall i :: 0 <= i < n ==> s[i] in Colors
    ensures Sum(Tally(s, g, n, agree), |Colors|) == Agreeing(s, g, n, agree)
  {
    if n > 0 {
      TallySum(s, g, n - 1, agree);
      TallySumStep(s, g, n - 1, agree, |Colors|);
    } else {
      SumOfZeros(Tally(s, g, 0, agree), |Colors|);
    }
  }

  lemma {:induction false} SumOfZeros(t: seq<nat>, k: nat)
    requires k <= |t|
    requires forall j :: 0 <= j < k ==> t[j] == 0
    ensures Sum(t, k) == 0
  {
    if k > 0 {
      SumOfZeros(t, k - 1);
    }
  }

  /** A sum of minima is at most the sum of either side. */
  lemma {:induction false} SumMinBelowSum(a: seq<nat>, b: seq<nat>, k: nat)
    requires k <= |a| && k <= |b|
    ensures SumMin(a, b, k) <= Sum(a, k)
  {
    if k > 0 {
      SumMinBelowSum(a, b, k - 1);
    }
  }

  /** Black plus white pins never exceed the length of the code. */
  lemma PinsBounded(secret: seq<char>, guess: seq<char>)
    requires |secret| == |guess| && IsCode(secret)
    ensures Score(secret, guess).black + Score(secret, guess).white <= |secret|
  {
    var n := |secret|;
    assert secret[..n] == secret;
    AgreeingSplit(secret, guess, n);
    TallySum(secret, guess, n, false);
    SumMinBelowSum(Tally(secret, guess, n, false), Tally(guess, secret, n, false), |Colors|);
  }

  /** The white pins of a full match are zero anyway: the early exit only
      saves work. */
  lemma WhiteOfFullMatch(secret: seq<char>, guess: seq<char>)
    requires |secret| == |guess|
    requires BlackPins(secret, guess) == |secret|
    ensures WhitePins(secret, guess) == 0
  {
    var n := |secret|;
    AgreeingSplit(secret, guess, n);
    SumMinZero(Tally(secret, guess, n, false), Tally(guess, secret, n, false), |Colors|);
  }

  lemma {:induction false} SumMinZero(a: seq<nat>, b: seq<nat>, k: nat)
    requires k <= |a| && k <= |b|
    requires forall j :: 0 <= j < k ==> a[j] == 0
    ensures SumMin(a, b, k) == 0
  {
    if k > 0 {
      SumMinZero(a, b, k - 1);
    }
  }

  /** A colour of `s` among the first n positions is either an exact match
      or left over. */
  lemma {:induction false} CensusSplit(s: seq<char>, g: seq<char>, n: nat, c: char)
    requires n <= |s| && n <= |g|
    ensures multiset(s[..n])[c] == AgreeingOf(s, g, n, true, c) + AgreeingOf(s, g, n, false, c)
  {
    if n > 0 {
      CensusSplit(s, g, n - 1, c);
      assert s[..n] == s[..n - 1] + [s[n - 1]];
    }
  }

  /** Exact matches of a colour are the same seen from either side. */
  lemma {:induction false} ExactMatchesSymmetric(s: seq<char>, g: seq<char>, n: nat, c: char)
    requires n <= |s| && n <= |g|
    ensures AgreeingOf(s, g, n, true, c) == AgreeingOf(g, s, n, true, c)
  {
    if n > 0 {
      ExactMatchesSymmetric(s, g, n - 1, c);
    }
  }

  /** Colour by colour, min(left-over counts) + exact matches
      == min(whole counts); summed over the first k colours. */
  lemma {:induction false} ColourMatchesPrefix(secret: seq<char>, guess: seq<char>, k: nat)
    requires |secret| == |guess| && k <= |Colors|
    ensures SumMin(Tally(secret, guess, |secret|, false), Tally(guess, secret, |secret|, false), k)
            + Sum(Tally(secret, guess, |secret|, true), k)
         == SumMin(Census(secret), Census(guess), k)
  {
    if k > 0 {
      ColourMatchesPrefix(secret, guess, k - 1);
      var n, c := |secret|, Colors[k - 1];
      CensusSplit(secret, guess, n, c);
      CensusSplit(guess, secret, n, c);
      ExactMatchesSymmetric(secret, guess, n, c);
      assert secret[..n] == secret && guess[..n] == guess;
    }
  }

  /** The two-pass count agrees with the position-free definition: black
      plus white pins is the number of colour matches between the codes, so
      no secret colour and no guessed colour is counted twice. */
  lemma TotalPins(secret: seq<char>, guess: seq<char>)
    requires |secret| == |guess| && IsCode(secret)
    ensures Score(secret, guess).black + Score(secret, guess).white == ColourMatches(secret, guess)
  {
    var n := |secret|;
    assert secret[..n] == secret;
    ColourMatchesPrefix(secret, guess, |Colors|);
    TallySum(secret, guess, n, true);
    if BlackPins(secret, guess) == n {
      WhiteOfFullMatch(secret, guess);
    }
  }

  /** Rearranging the guess never changes the total number of pins. */
  lemma TotalPinsPermutation(secret: seq<char>, guess1: seq<char>, guess2: seq<char>)
    requires |secret| == |guess1| == |guess2| && IsCode(secret)
    requires multiset(guess1) == multiset(guess2)
    ensures Score(secret, guess1).black + Score(secret, guess1).white
         == Score(secret, guess2).black + Score(secret, guess2).white
  {
    TotalPins(secret, guess1);
    TotalPins(secret, guess2);
    assert Census(guess1) == Census(guess2);
  }

  /** Worked examples with four positions: a full match, ... */
  lemma ExampleFullMatch()
    ensures Score("RGBY", "RGBY") == Feedback(4, 0)
  {
  }

  /** ... every colour right but in the wrong place, ... */
  lemma ExampleAllMisplaced()
    ensures Score("RGBY", "YBGR") == Feedback(0, 4)
  {
    var s, g := "RGBY", "YBGR";
    assert Agreeing(s, g, 4, true) == 0;
    var a, b := Tally(s, g, 4, false), Tally(g, s, 4, false);
    assert a[0] == b[0] == 1 && a[1] == b[1] == 1 && a[2] == b[2] == 1;
    assert a[3] == b[3] == 1 && a[4] == b[4] == 0 && a[5] == b[5] == 0;
    assert a == b == [1, 1, 1, 1, 0, 0];
    assert SumMin([1, 1, 1, 1, 0, 0], [1, 1, 1, 1, 0, 0], 6) == 4;
  }

  /** ... and repeated colours, none counted twice. */
  lemma ExampleRepeatedColours()
    ensures Score("RRGG", "RGRG") == Feedback(2, 2)
  {
    var s, g := "RRGG", "RGRG";
    assert Agreeing(s, g, 4, true) == 2;
    var a, b := Tally(s, g, 4, false), Tally(g, s, 4, false);
    assert a[0] == b[0] == 1 && a[1] == b[1] == 1 && a[2] == b[2] == 0;
    assert a[3] == b[3] == 0 && a[4] == b[4] == 0 && a[5] == b[5] == 0;
    assert a == b == [1, 1, 0, 0, 0, 0];
    assert SumMin([1, 1, 0, 0, 0, 0], [1, 1, 0, 0, 0, 0], 6) == 2;
  }
}
