/**
 * Scoring of a Mastermind guess against the secret code: black pegs for
 * symbols in the right position, white pegs for further symbols that occur in
 * both codes but elsewhere.
 *
 * The reference definition (Score) says what the count IS: the black pegs are
 * the positions where secret and guess agree, and black plus white is the size
 * of the multiset intersection of the two codes, i.e. the sum over all symbols
 * d of min(count(secret, d), count(guess, d)). EvaluateGuess is the two-pass
 * algorithm over two boolean "used" arrays, proved to compute exactly that;
 * its second pass is WhitePass, and that pass's inner search is TakeUnused.
 */
module Scoring {

  /** The pair of peg counts reported for one guess. */
  datatype Feedback = Feedback(blackPegs: int, whitePegs: int)

  // ---------------------------------------------------------------------------
  // Reference definitions

  /** Number of positions k < m at which secret and guess hold the same symbol. */
  function Matches<T(==)>(secret: seq<T>, guess: seq<T>, m: nat): (n: nat)
    requires m <= |secret| && m <= |guess|
    ensures n <= m
  {
    if m == 0 then 0
    else Matches(secret, guess, m - 1) + (if secret[m - 1] == guess[m - 1] then 1 else 0)
  }

  /** The black pegs: the positions of the secret at which the guess holds the same symbol. */
  function BlackCount<T(==)>(secret: seq<T>, guess: seq<T>): (n: nat)
    requires |secret| <= |guess|
    ensures n <= |secret|
  {
    Matches(secret, guess, |secret|)
  }

  /** Number of pegs of either colour: the size of the multiset intersection of the two codes. */
  function Common<T(==)>(secret: seq<T>, guess: seq<T>): (n: nat)
    ensures n <= |secret| && n <= |guess|
  {
    IntersectionBound(multiset(secret), multiset(guess));
    |multiset(secret) * multiset(guess)|
  }

  /**
   * The score the evaluator must report: the black pegs, and as white pegs
   * whatever the common symbols leave over once the black ones are taken.
   */
  function Score<T(==)>(secret: seq<T>, guess: seq<T>): (f: Feedback)
    requires |secret| <= |guess|
    ensures 0 <= f.blackPegs && 0 <= f.whitePegs
    ensures f.blackPegs + f.whitePegs <= |secret|
  {
    HitsInBoth(secret, guess);
    Feedback(BlackCount(secret, guess), Common(secret, guess) - BlackCount(secret, guess))
  }

  /** The symbols at the positions k < m at which secret and guess agree (the black pegs' symbols). */
  ghost function Hits<T>(secret: seq<T>, guess: seq<T>, m: nat): multiset<T>
    requires m <= |secret| && m <= |guess|
  {
    if m == 0 then multiset{}
    else Hits(secret, guess, m - 1) + (if secret[m - 1] == guess[m - 1] then multiset{secret[m - 1]} else multiset{})
  }

  /** The symbols at the positions k < m whose flag in `used` is false: what is still free to match. */
  ghost function Unused<T>(s: seq<T>, used: seq<bool>, m: nat): multiset<T>
    requires |used| == |s| && m <= |s|
  {
    if m == 0 then multiset{}
    else Unused(s, used, m - 1) + (if used[m - 1] then multiset{} else multiset{s[m - 1]})
  }

  /** The "used" flags after pass one: exactly the positions below |secret| that match. */
  ghost function ExactMask<T>(secret: seq<T>, guess: seq<T>, len: nat): (r: seq<bool>)
    requires |secret| <= |guess|
    ensures |r| == len
  {
    seq(len, k requires 0 <= k < len => k < |secret| && secret[k] == guess[k])
  }

  /** The secret's "used" flags in pass two once the positions before i have been handled. */
  ghost function Handled(used: seq<bool>, i: int): (r: seq<bool>)
    ensures |r| == |used|
  {
    seq(|used|, k requires 0 <= k < |used| => k < i || used[k])
  }

  // ---------------------------------------------------------------------------
  // The two-pass algorithm

  /**
   * Scores `guess` against `secret` as the game does: first every exact
   * position match is a black peg and marks that position used on both sides;
   * then each unused secret position takes the first unused guess position
   * holding the same symbol, counting a white peg. The guess may be longer than
   * the secret (the second pass looks at all of it); it must not be shorter.
   */
  method EvaluateGuess<T(==)>(secret: seq<T>, guess: seq<T>) returns (f: Feedback)
    requires |secret| <= |guess|
    ensures f == Score(secret, guess)
    ensures f.blackPegs == BlackCount(secret, guess)
    ensures f.blackPegs + f.whitePegs == |multiset(secret) * multiset(guess)|
    ensures 0 <= f.blackPegs && 0 <= f.whitePegs && f.blackPegs + f.whitePegs <= |secret|
  {
    var blackPegs, whitePegs := 0, 0;
    var codeUsed := new bool[|secret|](_ => false);
    var guessUsed := new bool[|guess|](_ => false);

    // Pass one: exact matches.
    for i := 0 to |secret|
      invariant blackPegs == Matches(secret, guess, i)
      invariant forall k :: 0 <= k < i ==> codeUsed[k] == (secret[k] == guess[k]) && guessUsed[k] == codeUsed[k]
      invariant forall k :: i <= k < |secret| ==> !codeUsed[k]
      invariant forall k :: i <= k < |guess| ==> !guessUsed[k]
    {
      if secret[i] == guess[i] {
        blackPegs := blackPegs + 1;
        codeUsed[i] := true;
        guessUsed[i] := true;
      }
    }
    assert codeUsed[..] == ExactMask(secret, guess, |secret|);
    assert guessUsed[..] == ExactMask(secret, guess, |guess|);

    // Pass two: each unused secret position takes the first unused equal guess position.
    whitePegs := WhitePass(secret, guess, codeUsed, guessUsed);
    ScoreFromPasses(secret, guess, blackPegs, whitePegs);
    f := Feedback(blackPegs, whitePegs);
  }

  /**
   * Pass two, on the flags pass one leaves: every secret position not yet
   * used takes the first unused guess position with the same symbol. The
   * number of white pegs is the size of the intersection of what the two
   * codes have left unused.
   */
  method WhitePass<T(==)>(secret: seq<T>, guess: seq<T>, codeUsed: array<bool>, guessUsed: array<bool>)
    returns (whitePegs: nat)
    requires |secret| <= |guess| && codeUsed != guessUsed
    requires codeUsed[..] == ExactMask(secret, guess, |secret|)
    requires guessUsed[..] == ExactMask(secret, guess, |guess|)
    modifies guessUsed
    ensures whitePegs == |Unused(secret, ExactMask(secret, guess, |secret|), |secret|)
                          * Unused(guess, ExactMask(secret, guess, |guess|), |guess|)|
  {
    HandledNone(ExactMask(secret, guess, |secret|));
    whitePegs := 0;
    for i := 0 to |secret|
      invariant whitePegs + |Unused(secret, Handled(ExactMask(secret, guess, |secret|), i), |secret|) * Unused(guess, guessUsed[..], |guess|)|
                == |Unused(secret, ExactMask(secret, guess, |secret|), |secret|) * Unused(guess, ExactMask(secret, guess, |guess|), |guess|)|
    {
      ghost var cu := ExactMask(secret, guess, |secret|);
      ghost var total := |Unused(secret, cu, |secret|) * Unused(guess, ExactMask(secret, guess, |guess|), |guess|)|;
      HandledStep(cu, i);
      if !codeUsed[i] {
        ghost var gu := guessUsed[..];
        var taken;
        ghost var at;
        taken, at := TakeUnused(guess, guessUsed, secret[i]);
        if taken {
          WhiteTaken(secret, guess, cu, i, gu, at, whitePegs, total);
          whitePegs := whitePegs + 1;
        } else {
          WhiteNotTaken(secret, guess, cu, i, gu, whitePegs, total);
        }
      }
    }
    WhiteEnd(secret, ExactMask(secret, guess, |secret|), Unused(guess, guessUsed[..], |guess|), whitePegs,
             |Unused(secret, ExactMask(secret, guess, |secret|), |secret|) * Unused(guess, ExactMask(secret, guess, |guess|), |guess|)|);
  }

  /**
   * The inner loop of pass two: finds the first guess position that is still
   * unused and holds x and marks it used; reports whether there was one.
   */
  method TakeUnused<T(==)>(guess: seq<T>, guessUsed: array<bool>, x: T) returns (taken: bool, ghost at: nat)
    requires guessUsed.Length == |guess|
    modifies guessUsed
    ensures taken ==> at < |guess| && !old(guessUsed[..])[at] && guess[at] == x
                      && guessUsed[..] == old(guessUsed[..])[at := true]
    ensures taken ==> forall k :: 0 <= k < at ==> old(guessUsed[..])[k] || guess[k] != x
    ensures !taken ==> guessUsed[..] == old(guessUsed[..])
    ensures !taken ==> forall k :: 0 <= k < |guess| ==> old(guessUsed[..])[k] || guess[k] != x
  {
    taken, at := false, 0;
    for j := 0 to |guess|
      invariant !taken && guessUsed[..] == old(guessUsed[..])
      invariant forall k :: 0 <= k < j ==> guessUsed[k] || guess[k] != x
    {
      if !guessUsed[j] && x == guess[j] {
        guessUsed[j] := true;
        taken, at := true, j;
        break;
      }
    }
  }

  // ---------------------------------------------------------------------------
  // Properties of the score

  /** Scoring is symmetric: for codes of equal length, swapping secret and guess changes nothing. */
  lemma ScoreSymmetric<T>(secret: seq<T>, guess: seq<T>)
    requires |secret| == |guess|
    ensures Score(secret, guess) == Score(guess, secret)
  {
    MatchesSymmetric(secret, guess, |secret|);
    assert multiset(secret) * multiset(guess) == multiset(guess) * multiset(secret);
  }

  lemma {:induction false} MatchesSymmetric<T>(a: seq<T>, b: seq<T>, m: nat)
    requires m <= |a| && m <= |b|
    ensures Matches(a, b, m) == Matches(b, a, m)
  {
    if m > 0 {
      MatchesSymmetric(a, b, m - 1);
    }
  }

  /** All pegs are black exactly when the guess starts with the secret: the winning condition. */
  lemma AllBlackIffEqual<T>(secret: seq<T>, guess: seq<T>)
    requires |secret| <= |guess|
    ensures BlackCount(secret, guess) == |secret| <==> secret == guess[..|secret|]
  {
    AllMatchIff(secret, guess, |secret|);
    if forall k :: 0 <= k < |secret| ==> secret[k] == guess[k] {
      assert secret == guess[..|secret|];
    }
  }

  lemma {:induction false} AllMatchIff<T>(secret: seq<T>, guess: seq<T>, m: nat)
    requires m <= |secret| && m <= |guess|
    ensures Matches(secret, guess, m) == m <==> forall k :: 0 <= k < m ==> secret[k] == guess[k]
  {
    if m > 0 {
      AllMatchIff(secret, guess, m - 1);
    }
  }

  /** Guessing the secret itself scores all black and no white. */
  lemma ScoreOfSecret<T>(secret: seq<T>)
    ensures Score(secret, secret) == Feedback(|secret|, 0)
  {
    AllBlackIffEqual(secret, secret);
    assert multiset(secret) * multiset(secret) == multiset(secret);
  }

  /** secret 1234 against guess 1325: one black (the 1), two white (the 3 and the 2). */
  lemma ScoreExampleDistinct()
    ensures Score([1, 2, 3, 4], [1, 3, 2, 5]) == Feedback(1, 2)
  {
    var s, g := [1, 2, 3, 4], [1, 3, 2, 5];
    assert multiset(s) == multiset{1, 2, 3, 4} && multiset(g) == multiset{1, 3, 2, 5};
    assert multiset(s) * multiset(g) == multiset{1, 2, 3};
  }

  /**
   * secret 5522 against guess 5222: positions 0, 2 and 3 are black; the
   * secret's second 5 finds no unused 5 in the guess, so there is no white.
   */
  lemma ScoreExampleDuplicates()
    ensures Score([5, 5, 2, 2], [5, 2, 2, 2]) == Feedback(3, 0)
  {
    var s, g := [5, 5, 2, 2], [5, 2, 2, 2];
    assert Matches(s, g, 2) == 1;
    assert Matches(s, g, 4) == 3;
    assert multiset(s) == multiset{5, 5, 2, 2} && multiset(g) == multiset{5, 2, 2, 2};
    assert (multiset(s) * multiset(g))[5] == 1 && (multiset(s) * multiset(g))[2] == 2;
    assert multiset(s) * multiset(g) == multiset{5, 2, 2};
  }

  // ---------------------------------------------------------------------------
  // Helper lemmas: one round of pass two

  /** A round of pass two that finds an unused guess position `at` for secret position i. */
  lemma WhiteTaken<T>(secret: seq<T>, guess: seq<T>, cu: seq<bool>, i: nat, gu: seq<bool>, at: nat, white: int, total: int)
    requires |cu| == |secret| && |gu| == |guess| && i < |secret| && !cu[i]
    requires at < |guess| && !gu[at] && guess[at] == secret[i]
    requires white + |Unused(secret, Handled(cu, i), |secret|) * Unused(guess, gu, |guess|)| == total
    ensures white + 1 + |Unused(secret, Handled(cu, i + 1), |secret|) * Unused(guess, gu[at := true], |guess|)| == total
  {
    HandledStep(cu, i);
    UnusedMark(secret, Handled(cu, i), i, |secret|);
    WhiteFound(Unused(secret, Handled(cu, i + 1), |secret|), guess, gu, at, white, total);
  }

  /** A round of pass two that finds no unused guess position for secret position i. */
  lemma WhiteNotTaken<T>(secret: seq<T>, guess: seq<T>, cu: seq<bool>, i: nat, gu: seq<bool>, white: int, total: int)
    requires |cu| == |secret| && |gu| == |guess| && i < |secret| && !cu[i]
    requires forall k :: 0 <= k < |guess| ==> gu[k] || guess[k] != secret[i]
    requires white + |Unused(secret, Handled(cu, i), |secret|) * Unused(guess, gu, |guess|)| == total
    ensures white + |Unused(secret, Handled(cu, i + 1), |secret|) * Unused(guess, gu, |guess|)| == total
  {
    HandledStep(cu, i);
    UnusedMark(secret, Handled(cu, i), i, |secret|);
    WhiteMissing(Unused(secret, Handled(cu, i + 1), |secret|), guess, gu, secret[i], white, total);
  }

  /** Before pass two has handled any position, the flags are those of pass one. */
  lemma HandledNone(used: seq<bool>)
    ensures Handled(used, 0) == used
  {
  }

  /** Once every secret position is handled, the white pegs have reached the total. */
  lemma WhiteEnd<T>(secret: seq<T>, cu: seq<bool>, rest: multiset<T>, white: int, total: int)
    requires |cu| == |secret|
    requires white + |Unused(secret, Handled(cu, |secret|), |secret|) * rest| == total
    ensures white == total
  {
    UnusedAllUsed(secret, Handled(cu, |secret|), |secret|);
    assert Unused(secret, Handled(cu, |secret|), |secret|) * rest == multiset{};
  }

  /** Handling position i of the secret marks it used, unless it already was. */
  lemma HandledStep(used: seq<bool>, i: nat)
    requires i < |used|
    ensures Handled(used, i + 1) == if used[i] then Handled(used, i) else Handled(used, i)[i := true]
  {
  }

  // ---------------------------------------------------------------------------
  // Helper lemmas: what pass one leaves

  /** The black-peg symbols number BlackCount. */
  lemma {:induction false} HitsCount<T>(secret: seq<T>, guess: seq<T>, m: nat)
    requires m <= |secret| && m <= |guess|
    ensures |Hits(secret, guess, m)| == Matches(secret, guess, m)
  {
    if m > 0 {
      HitsCount(secret, guess, m - 1);
    }
  }

  /**
   * The symbols at the positions k < m, counted with repetition. This is
   * multiset(s[..m]) (see SymbolsAll), written by recursion on m so that the
   * proofs about pass one add one symbol at a time without taking slices.
   */
  ghost function Symbols<T>(s: seq<T>, m: nat): multiset<T>
    requires m <= |s|
  {
    if m == 0 then multiset{} else Symbols(s, m - 1) + multiset{s[m - 1]}
  }

  lemma {:induction false} SymbolsAll<T>(s: seq<T>, m: nat)
    requires m <= |s|
    ensures Symbols(s, m) == multiset(s[..m])
  {
    if m > 0 {
      SymbolsAll(s, m - 1);
      assert s[..m] == s[..m - 1] + [s[m - 1]];
    }
  }

  /** After pass one, the secret's unused symbols plus the black-peg symbols are all its symbols. */
  lemma {:induction false} SplitSecret<T>(secret: seq<T>, guess: seq<T>, m: nat)
    requires |secret| <= |guess| && m <= |secret|
    ensures Unused(secret, ExactMask(secret, guess, |secret|), m) + Hits(secret, guess, m) == Symbols(secret, m)
  {
    if m > 0 {
      var mask := ExactMask(secret, guess, |secret|);
      SplitSecret(secret, guess, m - 1);
      assert mask[m - 1] == (secret[m - 1] == guess[m - 1]);
    }
  }

  /** Within the secret's length, the guess's unused symbols plus the black-peg symbols are its symbols. */
  lemma {:induction false} SplitGuessLow<T>(secret: seq<T>, guess: seq<T>, m: nat)
    requires |secret| <= |guess| && m <= |secret|
    ensures Unused(guess, ExactMask(secret, guess, |guess|), m) + Hits(secret, guess, m) == Symbols(guess, m)
  {
    if m > 0 {
      var mask := ExactMask(secret, guess, |guess|);
      SplitGuessLow(secret, guess, m - 1);
      assert mask[m - 1] == (secret[m - 1] == guess[m - 1]);
    }
  }

  /** After pass one, the guess's unused symbols plus all black-peg symbols are all its symbols. */
  lemma {:induction false} SplitGuess<T>(secret: seq<T>, guess: seq<T>, m: nat)
    requires |secret| <= m <= |guess|
    ensures Unused(guess, ExactMask(secret, guess, |guess|), m) + Hits(secret, guess, |secret|) == Symbols(guess, m)
  {
    if m == |secret| {
      SplitGuessLow(secret, guess, m);
    } else {
      var mask := ExactMask(secret, guess, |guess|);
      SplitGuess(secret, guess, m - 1);
      assert !mask[m - 1];
      assert Unused(guess, mask, m) == Unused(guess, mask, m - 1) + multiset{guess[m - 1]};
    }
  }

  /** The black-peg symbols occur in both codes, so there are at least as many common symbols. */
  lemma HitsInBoth<T>(secret: seq<T>, guess: seq<T>)
    requires |secret| <= |guess|
    ensures BlackCount(secret, guess) <= Common(secret, guess)
  {
    SplitSecret(secret, guess, |secret|);
    SplitGuess(secret, guess, |guess|);
    HitsCount(secret, guess, |secret|);
    SymbolsAll(secret, |secret|);
    SymbolsAll(guess, |guess|);
    assert secret[..|secret|] == secret && guess[..|guess|] == guess;
    var h := Hits(secret, guess, |secret|);
    assert h <= multiset(secret) * multiset(guess);
    MultisetSubsetSize(h, multiset(secret) * multiset(guess));
  }

  /** The counts left by the two passes are the reference score. */
  lemma ScoreFromPasses<T>(secret: seq<T>, guess: seq<T>, black: int, white: int)
    requires |secret| <= |guess|
    requires black == Matches(secret, guess, |secret|)
    requires white == |Unused(secret, ExactMask(secret, guess, |secret|), |secret|)
                       * Unused(guess, ExactMask(secret, guess, |guess|), |guess|)|
    ensures Feedback(black, white) == Score(secret, guess)
    ensures black + white == |multiset(secret) * multiset(guess)|
  {
    SplitSecret(secret, guess, |secret|);
    SplitGuess(secret, guess, |guess|);
    HitsCount(secret, guess, |secret|);
    SymbolsAll(secret, |secret|);
    SymbolsAll(guess, |guess|);
    assert secret[..|secret|] == secret && guess[..|guess|] == guess;
    SharedPart(Hits(secret, guess, |secret|),
               Unused(secret, ExactMask(secret, guess, |secret|), |secret|),
               Unused(guess, ExactMask(secret, guess, |guess|), |guess|));
  }

  // ---------------------------------------------------------------------------
  // Helper lemmas: what pass two does to the free symbols

  /** Marking a position at or above m does not change the free symbols below m. */
  lemma {:induction false} UnusedMarkAbove<T>(s: seq<T>, used: seq<bool>, j: int, m: nat)
    requires |used| == |s| && m <= j < |s|
    ensures Unused(s, used[j := true], m) == Unused(s, used, m)
  {
    if m > 0 {
      UnusedMarkAbove(s, used, j, m - 1);
    }
  }

  /** Marking a free position j < m takes exactly the symbol s[j] out of the free ones. */
  lemma {:induction false} UnusedMark<T>(s: seq<T>, used: seq<bool>, j: int, m: nat)
    requires |used| == |s| && 0 <= j < m <= |s| && !used[j]
    ensures Unused(s, used[j := true], m) + multiset{s[j]} == Unused(s, used, m)
  {
    var marked := used[j := true];
    var last := if used[m - 1] then multiset{} else multiset{s[m - 1]};
    if j < m - 1 {
      UnusedMark(s, used, j, m - 1);
      assert marked[m - 1] == used[m - 1];
      assert Unused(s, marked, m) == Unused(s, marked, m - 1) + last;
    } else {
      UnusedMarkAbove(s, used, j, m - 1);
    }
  }

  /** A symbol that sits at no free position is not free. */
  lemma {:induction false} UnusedAbsent<T>(s: seq<T>, used: seq<bool>, x: T, m: nat)
    requires |used| == |s| && m <= |s|
    requires forall k :: 0 <= k < |s| ==> used[k] || s[k] != x
    ensures x !in Unused(s, used, m)
  {
    if m > 0 {
      UnusedAbsent(s, used, x, m - 1);
    }
  }

  /** With every position used, nothing is free. */
  lemma {:induction false} UnusedAllUsed<T>(s: seq<T>, used: seq<bool>, m: nat)
    requires |used| == |s| && m <= |s|
    requires forall k :: 0 <= k < |used| ==> used[k]
    ensures Unused(s, used, m) == multiset{}
  {
    if m > 0 {
      UnusedAllUsed(s, used, m - 1);
    }
  }

  /** Pass two, one step: the secret symbol s[j] takes the free guess position j. */
  lemma WhiteFound<T>(rest: multiset<T>, s: seq<T>, used: seq<bool>, j: int, white: int, total: int)
    requires |used| == |s| && 0 <= j < |s| && !used[j]
    requires white + |(rest + multiset{s[j]}) * Unused(s, used, |s|)| == total
    ensures white + 1 + |rest * Unused(s, used[j := true], |s|)| == total
  {
    UnusedMark(s, used, j, |s|);
    assert s[j] in Unused(s, used, |s|);
    TakeOne(rest, Unused(s, used, |s|), s[j]);
    assert Unused(s, used, |s|) - multiset{s[j]} == Unused(s, used[j := true], |s|);
  }

  /** Pass two, one step: a secret symbol with no free equal guess symbol scores nothing. */
  lemma WhiteMissing<T>(rest: multiset<T>, s: seq<T>, used: seq<bool>, x: T, white: int, total: int)
    requires |used| == |s|
    requires forall k :: 0 <= k < |s| ==> used[k] || s[k] != x
    requires white + |(rest + multiset{x}) * Unused(s, used, |s|)| == total
    ensures white + |rest * Unused(s, used, |s|)| == total
  {
    UnusedAbsent(s, used, x, |s|);
    TakeNone(rest, Unused(s, used, |s|), x);
  }

  // ---------------------------------------------------------------------------
  // Helper lemmas: multiset intersections

  lemma IntersectionBound<T>(a: multiset<T>, b: multiset<T>)
    ensures |a * b| <= |a| && |a * b| <= |b|
  {
    assert a == a * b + (a - b);
    assert b == a * b + (b - a);
  }

  lemma MultisetSubsetSize<T>(a: multiset<T>, b: multiset<T>)
    requires a <= b
    ensures |a| <= |b|
  {
    assert b == a + (b - a);
  }

  /** Symbols shared outright (the black pegs) add one to one to the intersection. */
  lemma SharedPart<T>(h: multiset<T>, x: multiset<T>, y: multiset<T>)
    ensures |(x + h) * (y + h)| == |h| + |x * y|
  {
    assert (x + h) * (y + h) == h + x * y;
  }

  /** A secret symbol that finds a free equal guess symbol adds one peg. */
  lemma TakeOne<T>(u: multiset<T>, a: multiset<T>, x: T)
    requires x in a
    ensures |(u + multiset{x}) * a| == |u * (a - multiset{x})| + 1
  {
    assert (u + multiset{x}) * a == u * (a - multiset{x}) + multiset{x};
  }

  /** A secret symbol that finds no free equal guess symbol adds nothing. */
  lemma TakeNone<T>(u: multiset<T>, a: multiset<T>, x: T)
    requires x !in a
    ensures |(u + multiset{x}) * a| == |u * a|
  {
    assert (u + multiset{x}) * a == u * a;
  }
}
