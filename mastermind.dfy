/**
 * The game behind the Mastermind window: the settings a new game is started
 * with, the secret code drawn from the ten digits, and the handling of one
 * submitted guess (length check, attempt count, scoring, win and loss).
 *
 * The window itself is not modelled. What the text fields hold reaches the
 * model as parameters; the "Submit Guess" button being enabled is the field
 * `active`; the messages written to the feedback area are the results the
 * operations return.
 */
module Mastermind {
  import Scoring

  datatype Option<T> = None | Some(value: T)

  /** The symbols a secret code is drawn from: the one-character strings "0" to "9". */
  const Digits: seq<string> := ["0", "1", "2", "3", "4", "5", "6", "7", "8", "9"]

  /** A one-character string holding a decimal digit. */
  predicate IsDigit(d: string)
  {
    |d| == 1 && '0' <= d[0] <= '9'
  }

  /** What a press of "Start Game" leads to. */
  datatype StartResult =
    | Started     // a new secret was drawn and guessing is enabled
    | BadNumber   // a field did not hold an integer
    | BadRange    // code length not in 1..6 or attempts not in 1..10

  /** Where the game stands after a scored guess. */
  datatype Status = Playing | Won | Lost(revealed: string)

  /** What a press of "Submit Guess" leads to. */
  datatype GuessOutcome =
    | WrongLength(expected: int)       // the guess was refused; nothing changed
    | IndexOutOfBounds(attempt: int)   // the guess is shorter than the secret: the scorer indexes past its end
    | Scored(attempt: int, feedback: Scoring.Feedback, status: Status)

  /**
   * What parsing a text field can give: no number, or a number a 32-bit Java
   * int holds (text naming a larger number fails to parse).
   */
  predicate ParsedInt(v: Option<int>)
  {
    v.None? || -0x8000_0000 <= v.value < 0x8000_0000
  }

  /** The settings a game may be started with: 1 to 6 symbols, 1 to 10 attempts. */
  predicate InRange(codeLength: int, maxAttempts: int)
  {
    1 <= codeLength <= 6 && 1 <= maxAttempts <= 10
  }

  // ---------------------------------------------------------------------------
  // Splitting a guess into symbols, and joining symbols back

  /**
   * A string cut into its one-character pieces, as splitting on the empty
   * pattern does; the empty string gives one empty piece, not none.
   */
  function Split(t: string): (pieces: seq<string>)
    ensures |pieces| == if t == "" then 1 else |t|
    ensures forall k :: 0 <= k < |pieces| ==> |pieces[k]| == if t == "" then 0 else 1
  {
    if t == "" then [""] else Pieces(t)
  }

  /** The one-character strings of t, in order. */
  function Pieces(t: string): (pieces: seq<string>)
    ensures |pieces| == |t|
  {
    seq(|t|, k requires 0 <= k < |t| => [t[k]])
  }

  /** The pieces written one after the other. */
  function Join(parts: seq<string>): (r: string)
    ensures (forall k :: 0 <= k < |parts| ==> |parts[k]| == 1) ==> |r| == |parts|
  {
    if parts == [] then "" else parts[0] + Join(parts[1..])
  }

  /** Joining the pieces of a string gives the string back. */
  lemma JoinSplit(t: string)
    ensures Join(Split(t)) == t
  {
    if t == "" {
      assert Join([""]) == "" + Join([]);
    } else {
      JoinPieces(t);
    }
  }

  lemma {:induction false} JoinPieces(t: string)
    ensures Join(Pieces(t)) == t
  {
    if t != "" {
      assert Pieces(t) == [[t[0]]] + Pieces(t[1..]);
      assert Pieces(t)[1..] == Pieces(t[1..]);
      JoinPieces(t[1..]);
      assert t == [t[0]] + t[1..];
    }
  }

  /** Splitting a joined sequence of one-character strings gives the sequence back. */
  lemma {:induction false} SplitJoin(parts: seq<string>)
    requires parts != []
    requires forall k :: 0 <= k < |parts| ==> |parts[k]| == 1
    ensures Split(Join(parts)) == parts
  {
    var t := Join(parts);
    assert t != "";
    forall k | 0 <= k < |parts|
      ensures Split(t)[k] == parts[k]
    {
      JoinAt(parts, k);
    }
  }

  lemma {:induction false} JoinAt(parts: seq<string>, k: nat)
    requires k < |parts|
    requires forall i :: 0 <= i < |parts| ==> |parts[i]| == 1
    ensures |Join(parts)| == |parts| && Join(parts)[k] == parts[k][0]
  {
    if k > 0 {
      JoinAt(parts[1..], k - 1);
    }
  }

  // ---------------------------------------------------------------------------
  // Drawing the secret

  /**
   * Draws a code of `length` symbols, each one picked from `numbers` at
   * random; the choice is left open, so what is proved holds for every draw.
   */
  method GenerateCode(numbers: seq<string>, length: int) returns (code: array<string>)
    requires 0 <= length
    requires length == 0 || |numbers| > 0
    ensures code.Length == length
    ensures forall k :: 0 <= k < length ==> code[k] in numbers
  {
    code := new string[length](_ => "");
    for i := 0 to length
      invariant forall k :: 0 <= k < i ==> code[k] in numbers
    {
      var r :| 0 <= r < |numbers|;
      code[i] := numbers[r];
    }
  }

  // ---------------------------------------------------------------------------
  // One game session

  class Session {
    /** The code to be guessed; empty until the first game is started. */
    var secretCode: seq<string>
    /** The code length last read from the settings. */
    var codeLength: int
    /** The number of attempts last read from the settings. */
    var maxAttempts: int
    /** The guesses scored in the current game. */
    var currentAttempt: int
    /** Whether guesses are accepted (the "Submit Guess" button is enabled). */
    var active: bool

    /** Holds in every reachable state: the secret is made of digits and the attempt count is not negative. */
    ghost predicate Valid()
      reads this
    {
      0 <= currentAttempt && forall k :: 0 <= k < |secretCode| ==> IsDigit(secretCode[k])
    }

    /** While a game is on, the settings it runs with agree with its secret and the attempts left. */
    ghost predicate Consistent()
      reads this
    {
      active ==> |secretCode| == codeLength && InRange(codeLength, maxAttempts) && currentAttempt < maxAttempts
    }

    /** The window as it opens: no game, guessing disabled. */
    constructor()
      ensures secretCode == [] && codeLength == 0 && maxAttempts == 0 && currentAttempt == 0 && !active
      ensures Valid() && Consistent()
    {
      secretCode, codeLength, maxAttempts, currentAttempt, active := [], 0, 0, 0, false;
    }

    /**
     * "Start Game" as the window does it: each setting is stored as soon as
     * it is read, and the range is checked only afterwards, so a refused
     * start still leaves the settings it read behind while the running game
     * (if any) goes on. A field that is not an integer arrives as None.
     */
    method Start(lengthText: Option<int>, attemptsText: Option<int>) returns (r: StartResult)
      requires Valid()
      requires ParsedInt(lengthText) && ParsedInt(attemptsText)
      modifies this
      ensures Valid()
      ensures lengthText.None? ==> r == BadNumber && unchanged(this)
      ensures r == BadNumber <==> lengthText.None? || attemptsText.None?
      ensures lengthText.Some? ==> codeLength == lengthText.value
      ensures lengthText.Some? && attemptsText.None? ==>
                r == BadNumber && maxAttempts == old(maxAttempts)
      ensures attemptsText.Some? && lengthText.Some? ==> maxAttempts == attemptsText.value
      ensures r != Started ==>
                secretCode == old(secretCode) && currentAttempt == old(currentAttempt) && active == old(active)
      ensures r == Started <==>
                lengthText.Some? && attemptsText.Some? && InRange(lengthText.value, attemptsText.value)
      ensures r == Started ==> |secretCode| == codeLength && currentAttempt == 0 && active && Consistent()
    {
      if lengthText.None? {
        return BadNumber;
      }
      codeLength := lengthText.value;
      if attemptsText.None? {
        return BadNumber;
      }
      maxAttempts := attemptsText.value;
      if !InRange(codeLength, maxAttempts) {
        return BadRange;
      }
      var code := GenerateCode(Digits, codeLength);
      DrawnFromDigits(code[..]);
      secretCode := code[..];
      currentAttempt := 0;
      active := true;
      r := Started;
    }

    /**
     * "Start Game" with the settings checked before any of them is stored: a
     * refused start changes nothing, so a running game keeps its settings.
     */
    method StartChecked(lengthText: Option<int>, attemptsText: Option<int>) returns (r: StartResult)
      requires Valid()
      requires ParsedInt(lengthText) && ParsedInt(attemptsText)
      modifies this
      ensures Valid()
      ensures r != Started ==> unchanged(this)
      ensures r == BadNumber <==> lengthText.None? || attemptsText.None?
      ensures r == Started <==>
                lengthText.Some? && attemptsText.Some? && InRange(lengthText.value, attemptsText.value)
      ensures r == Started ==>
                codeLength == lengthText.value && maxAttempts == attemptsText.value
                && |secretCode| == codeLength && currentAttempt == 0 && active
      ensures old(Consistent()) ==> Consistent()
    {
      if lengthText.None? || attemptsText.None? {
        return BadNumber;
      }
      if !InRange(lengthText.value, attemptsText.value) {
        return BadRange;
      }
      codeLength, maxAttempts := lengthText.value, attemptsText.value;
      var code := GenerateCode(Digits, codeLength);
      DrawnFromDigits(code[..]);
      secretCode := code[..];
      currentAttempt := 0;
      active := true;
      r := Started;
    }

    /**
     * "Submit Guess": a guess whose length is not the code length is refused;
     * otherwise it counts as an attempt and is scored symbol by symbol. All
     * black pegs wins; an attempt that reaches the limit without winning loses
     * and reveals the secret; either way guessing is then disabled.
     */
    method CheckGuess(guess: string) returns (o: GuessOutcome)
      requires Valid() && active
      modifies this
      ensures Valid()
      ensures secretCode == old(secretCode) && codeLength == old(codeLength) && maxAttempts == old(maxAttempts)
      ensures |guess| != codeLength ==> o == WrongLength(codeLength) && unchanged(this)
      ensures |guess| == codeLength ==> currentAttempt == old(currentAttempt) + 1
      ensures |guess| == codeLength && |Split(guess)| < |secretCode| ==>
                o == IndexOutOfBounds(currentAttempt) && active
      ensures |guess| == codeLength && |Split(guess)| >= |secretCode| ==>
                o.Scored? && o.attempt == currentAttempt
                && o.feedback == Scoring.Score(secretCode, Split(guess))
                && (o.status == Won <==> o.feedback.blackPegs == codeLength)
                && (o.status.Lost? <==> o.feedback.blackPegs != codeLength && currentAttempt >= maxAttempts)
                && (o.status.Lost? ==> o.status.revealed == Join(secretCode))
                && (active <==> o.status == Playing)
      ensures old(Consistent()) ==> Consistent() && !o.IndexOutOfBounds?
      ensures old(Consistent()) && o.Scored? ==> (o.status == Won <==> Split(guess) == secretCode)
      ensures old(Consistent()) && o.Scored? && o.status.Lost? ==> Split(o.status.revealed) == secretCode
    {
      if |guess| != codeLength {
        return WrongLength(codeLength);
      }
      currentAttempt := currentAttempt + 1;
      var pieces := Split(guess);
      if |pieces| < |secretCode| {
        return IndexOutOfBounds(currentAttempt);
      }
      var feedback := Scoring.EvaluateGuess(secretCode, pieces);
      if feedback.blackPegs == codeLength {
        active := false;
        o := Scored(currentAttempt, feedback, Won);
      } else if currentAttempt >= maxAttempts {
        active := false;
        o := Scored(currentAttempt, feedback, Lost(Join(secretCode)));
      } else {
        o := Scored(currentAttempt, feedback, Playing);
      }
      if old(Consistent()) {
        Scoring.AllBlackIffEqual(secretCode, pieces);
        assert pieces[..|secretCode|] == pieces;
        if o.status.Lost? {
          SplitJoin(secretCode);
        }
      }
    }
  }

  /** Every symbol drawn from Digits is a digit. */
  lemma DrawnFromDigits(code: seq<string>)
    requires forall k :: 0 <= k < |code| ==> code[k] in Digits
    ensures forall k :: 0 <= k < |code| ==> IsDigit(code[k])
  {
  }

  // ---------------------------------------------------------------------------
  // A refused restart during a game

  /**
   * With the settings stored before they are checked, a refused restart
   * during a one-symbol game sets the code length to 0; the empty guess then
   * passes the length check, splits into one empty piece, scores no black
   * pegs, and 0 black pegs equal the code length: the game is won.
   */
  method RefusedRestartLetsEmptyGuessWin() returns (o: GuessOutcome)
    ensures o.Scored? && o.feedback.blackPegs == 0 && o.status == Won
  {
    var game := new Session();
    var first := game.Start(Some(1), Some(5));
    var second := game.Start(Some(0), Some(5));
    assert first == Started;
    assert second == BadRange;
    assert game.active && |game.secretCode| == 1;
    assert game.secretCode[0] != "";
    o := game.CheckGuess("");
  }

  /** With the settings checked first, the same refused restart leaves the game as it was: "" is refused. */
  method CheckedRestartRefusesEmptyGuess() returns (o: GuessOutcome)
    ensures o == WrongLength(1)
  {
    var game := new Session();
    var first := game.StartChecked(Some(1), Some(5));
    var second := game.StartChecked(Some(0), Some(5));
    o := game.CheckGuess("");
  }
}
