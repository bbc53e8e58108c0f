/** The decision logic of `get_validation` in proj07.py: which commands are
    well formed, which clue a command resolves to, the hint it reports and the
    guesses the re-prompt loop lets through. Printing and reading input are
    left out; the command's tokens and the typed guesses are parameters. */
module Commands {
  import opened Wrappers
  import opened Clues
  import opened Crossword

  // ---------------------------------------------------------------------
  // Numbers

  predicate IsDigit(ch: char) { '0' <= ch <= '9' }

  /** `str.isdigit()` on ASCII text: non-empty and only decimal digits. */
  predicate IsDigits(s: string)
  {
    |s| > 0 && forall i :: 0 <= i < |s| ==> IsDigit(s[i])
  }

  function Pow10(k: nat): nat { if k == 0 then 1 else 10 * Pow10(k - 1) }

  /** `int(s)` for a string of decimal digits: k digits name a number below
      10^k, and at least 10^(k-1) when the first digit is not zero. */
  function DigitsValue(s: string): (v: nat)
    requires forall i :: 0 <= i < |s| ==> IsDigit(s[i])
    ensures v < Pow10(|s|)
    ensures |s| > 0 && s[0] != '0' ==> Pow10(|s| - 1) <= v
    decreases |s|
  {
    if |s| == 0 then 0
    else
      assert IsDigit(s[|s| - 1]);
      assert |s| > 1 ==> s[..|s| - 1][0] == s[0];
      DigitsValue(s[..|s| - 1]) * 10 + (s[|s| - 1] as int - '0' as int)
  }

  /** The decimal digits of `n` without leading zeros. */
  function Decimal(n: nat): (s: string)
    ensures IsDigits(s)
  {
    if n < 10 then [('0' as int + n) as char]
    else Decimal(n / 10) + [('0' as int + n % 10) as char]
  }

  /** Reading back the decimal digits of a number gives the number. */
  lemma {:induction false} DigitsValueOfDecimal(n: nat)
    ensures DigitsValue(Decimal(n)) == n
  {
    if n >= 10 {
      var s := Decimal(n);
      assert s[..|s| - 1] == Decimal(n / 10);
      DigitsValueOfDecimal(n / 10);
    }
  }

  /** Leading zeros do not change the value: "007" reads as 7. */
  lemma {:induction false} LeadingZeroIgnored(s: string)
    requires forall i :: 0 <= i < |s| ==> IsDigit(s[i])
    ensures DigitsValue("0" + s) == DigitsValue(s)
    decreases |s|
  {
    if |s| > 0 {
      var s' := s[..|s| - 1];
      assert ("0" + s)[..|s|] == "0" + s';
      LeadingZeroIgnored(s');
    }
  }

  // ---------------------------------------------------------------------
  // Commands

  /** What a well-formed command asks for. Reveal, hint and guess carry the
      clue their key resolved to. */
  datatype Command =
    | ShowClues(count: nat)
    | Reveal(clue: Clue)
    | Hint(clue: Clue)
    | Guess(clue: Clue)
    | Restart
    | Quit
    | Help

  /** The outcome of validating a command line. `Rejected` is the "Invalid
      option/arguments" answer; `Unrecognized` is a first token that names
      no command, which the validator passes over silently; `Crashed` is an
      uncaught exception. */
  datatype Verdict = Accepted(command: Command) | Rejected | Unrecognized | Crashed

  predicate IsClueCommand(cmd: Command) { cmd.Reveal? || cmd.Hint? || cmd.Guess? }

  /** Whether tokens 1 to 3 of a reveal, hint or guess command are well formed. */
  predicate WellFormedKey(tokens: seq<string>)
  {
    |tokens| == 4 && IsDigits(tokens[1]) && IsDigits(tokens[2]) && tokens[3] in {"A", "D"}
  }

  /** The dictionary key such a command names. */
  function KeyOf(tokens: seq<string>): Key
    requires WellFormedKey(tokens)
  {
    (DigitsValue(tokens[1]), DigitsValue(tokens[2]), tokens[3])
  }

  /** The branches of `get_validation` for a line with at least one token. */
  function Classify(tokens: seq<string>, t: seq<Clue>): Verdict
    requires |tokens| > 0
  {
    var op := tokens[0];
    if op == "C" then
      if |tokens| != 2 || !IsDigits(tokens[1]) then Rejected
      else Accepted(ShowClues(DigitsValue(tokens[1])))
    else if op in {"R", "T", "G"} then
      if !WellFormedKey(tokens) then Rejected
      else match Lookup(t, KeyOf(tokens))
        case None => Rejected
        case Some(c) =>
          Accepted(if op == "R" then Reveal(c) else if op == "T" then Hint(c) else Guess(c))
    else if op in {"S", "Q", "H"} then
      if |tokens| > 1 then Rejected
      else Accepted(if op == "S" then Restart else if op == "Q" then Quit else Help)
    else Unrecognized
  }

  /** `get_validation` as written: it reads the first token before checking
      that there is one, so a blank line raises IndexError. On every other
      line it decides as `Validate` does. */
  function ValidateAsWritten(tokens: seq<string>, t: seq<Clue>): (v: Verdict)
    ensures v == Crashed <==> |tokens| == 0
    ensures |tokens| > 0 ==> v == Validate(tokens, t)
  {
    if |tokens| == 0 then Crashed else Classify(tokens, t)
  }

  /** A blank line crashes the game as written. */
  lemma BlankLineCrashes(t: seq<Clue>)
    ensures ValidateAsWritten([], t) == Crashed
    ensures Validate([], t) == Rejected
  {
  }

  /** `get_validation` with a blank line rejected like any other malformed
      command:
      - `C n` is accepted iff it has exactly two tokens and n is all digits;
      - `R`, `T` and `G` need four tokens, digits in tokens 1 and 2 and "A" or
        "D" in token 3, and the key they name must be in the dictionary; they
        then carry the clue stored under that key;
      - `S`, `Q` and `H` are accepted alone and rejected with arguments;
      - any other first token is not a command. */
  function Validate(tokens: seq<string>, t: seq<Clue>): (v: Verdict)
    ensures v != Crashed
    ensures |tokens| == 0 ==> v == Rejected
    ensures (v.Accepted? && v.command.ShowClues?) <==>
      |tokens| == 2 && tokens[0] == "C" && IsDigits(tokens[1])
    ensures v.Accepted? && v.command.ShowClues? ==> v.command.count == DigitsValue(tokens[1])
    ensures (v.Accepted? && IsClueCommand(v.command)) <==>
      |tokens| > 0 && tokens[0] in {"R", "T", "G"} && WellFormedKey(tokens) && HasKey(t, KeyOf(tokens))
    ensures v.Accepted? && IsClueCommand(v.command) ==>
      && Lookup(t, KeyOf(tokens)) == Some(v.command.clue)
      && v.command.clue.Key() == KeyOf(tokens)
      && (v.command.Reveal? <==> tokens[0] == "R")
      && (v.command.Hint? <==> tokens[0] == "T")
    ensures v == Accepted(Restart) <==> tokens == ["S"]
    ensures v == Accepted(Quit) <==> tokens == ["Q"]
    ensures v == Accepted(Help) <==> tokens == ["H"]
    ensures v == Unrecognized <==> |tokens| > 0 && tokens[0] !in {"C", "R", "T", "G", "S", "Q", "H"}
  {
    if |tokens| == 0 then Rejected else Classify(tokens, t)
  }

  // ---------------------------------------------------------------------
  // Hints

  /** The `T` command: nothing when the clue already reads its answer
      ("This clue is already correct!"), otherwise the 1-based position of
      the first wrong letter and the letter that belongs there. */
  function HintFor(b: Grid, c: Clue): (h: Option<(nat, char)>)
    requires Fits(c)
    ensures h.None? <==> Matches(b, c)
    ensures h.Some? ==>
      && 1 <= h.value.0 <= |c.answer|
      && h.value.1 == c.answer[h.value.0 - 1]
      && Letter(b, c, h.value.0 - 1) != h.value.1
      && forall j :: 0 <= j < h.value.0 - 1 ==> Letter(b, c, j) == c.answer[j]
  {
    var i := FindWrongLetter(b, c);
    if i == -1 then None else Some((i + 1, c.answer[i]))
  }

  /** Writing the hinted letter where the hint says moves the next hint
      strictly further along the answer, or leaves the clue correct. */
  lemma FollowingTheHintProgresses(b: Grid, c: Clue)
    requires Fits(c) && HintFor(b, c).Some?
    ensures
      var (pos, ch) := HintFor(b, c).value;
      var b' := Put(b, LoadCell(c, pos - 1).0, LoadCell(c, pos - 1).1, ch);
      HintFor(b', c).None? || HintFor(b', c).value.0 > pos
  {
    var (pos, ch) := HintFor(b, c).value;
    LoadCellCovers(c, pos - 1);
    var b' := Put(b, LoadCell(c, pos - 1).0, LoadCell(c, pos - 1).1, ch);
    forall j | 0 <= j < pos
      ensures Letter(b', c, j) == c.answer[j]
    {
      LoadCellCovers(c, j);
      if j < pos - 1 {
        LoadCellInjective(c, j, pos - 1);
      }
    }
  }

  // ---------------------------------------------------------------------
  // Guesses

  /** `str.upper()` on ASCII letters; other characters are kept. */
  function UpperChar(ch: char): char
  {
    if 'a' <= ch <= 'z' then (ch as int - 32) as char else ch
  }

  /** `str.upper()`: every lower-case ASCII letter becomes the upper-case
      letter at the same place in the alphabet; every other character is
      kept, so no lower-case ASCII letter is left. */
  function Upper(s: string): (u: string)
    ensures |u| == |s|
    ensures forall i :: 0 <= i < |u| ==> !('a' <= u[i] <= 'z')
    ensures forall i :: 0 <= i < |s| && !('a' <= s[i] <= 'z') ==> u[i] == s[i]
    ensures forall i :: 0 <= i < |s| && 'a' <= s[i] <= 'z' ==>
      'A' <= u[i] <= 'Z' && u[i] as int - 'A' as int == s[i] as int - 'a' as int
  {
    seq(|s|, i requires 0 <= i < |s| => UpperChar(s[i]))
  }

  /** Upper-casing twice is upper-casing once. */
  lemma UpperIsIdempotent(s: string)
    ensures Upper(Upper(s)) == Upper(s)
  {
  }

  /** A character a guess may be typed with: a letter of either case or `_`. */
  predicate Typeable(ch: char) { 'A' <= ch <= 'Z' || 'a' <= ch <= 'z' || ch == '_' }

  /** A character is one of GUESS_CHARS iff it is an upper-case ASCII letter
      or `_`. */
  lemma GuessCharsAreUpperOrBlank(ch: char)
    ensures ch in GuessChars <==> 'A' <= ch <= 'Z' || ch == '_'
  {
    assert forall i :: 0 <= i < |GuessChars| ==>
      GuessChars[i] == if i < 26 then ('A' as int + i) as char else '_';
    if 'A' <= ch <= 'Z' {
      assert GuessChars[ch as int - 'A' as int] == ch;
    }
  }

  /** One pass of the guess prompt loop: the typed line is upper-cased and
      kept iff that uses only GUESS_CHARS and has the answer's length. In
      terms of what was typed: iff it has the answer's length and uses only
      ASCII letters, in either case, and `_`. */
  function AcceptGuess(typed: string, c: Clue): (g: Option<string>)
    ensures g.Some? <==>
      |typed| == |c.answer| && forall i :: 0 <= i < |typed| ==> Typeable(typed[i])
    ensures g.Some? ==> g.value == Upper(typed)
  {
    var u := Upper(typed);
    assert forall i :: 0 <= i < |typed| ==> (u[i] in GuessChars <==> Typeable(typed[i])) by {
      forall i | 0 <= i < |typed| {
        GuessCharsAreUpperOrBlank(u[i]);
      }
    }
    if !ValidChars(u) then None
    else if |u| != |c.answer| then None
    else Some(u)
  }

  /** The guess prompt loop over the lines typed so far: the first accepted
      one, or nothing while the loop is still prompting. */
  function FirstAcceptedGuess(typed: seq<string>, c: Clue): (g: Option<string>)
    ensures g.None? <==> forall j :: 0 <= j < |typed| ==> AcceptGuess(typed[j], c).None?
    ensures g.Some? ==> exists j ::
      && 0 <= j < |typed| && AcceptGuess(typed[j], c) == g
      && forall j' :: 0 <= j' < j ==> AcceptGuess(typed[j'], c).None?
  {
    if |typed| == 0 then None
    else
      var first := AcceptGuess(typed[0], c);
      if first.Some? then first
      else
        var rest := FirstAcceptedGuess(typed[1..], c);
        assert forall j :: 1 <= j < |typed| ==> typed[1..][j - 1] == typed[j];
        rest
  }

  /** The `G` command: once a guess is accepted it is written with
      `change_guess`, which never refuses it, so the new board holds the
      guess in the clue's span and nothing else changes. */
  function GuessCommand(b: Grid, c: Clue, typed: seq<string>): (r: Option<Grid>)
    requires Fits(c)
    ensures r.Some? <==> FirstAcceptedGuess(typed, c).Some?
    ensures r.Some? ==>
      var g := FirstAcceptedGuess(typed, c).value;
      && ValidChars(g) && |g| == |c.answer|
      && ChangeGuess(b, c, g) == Success(r.value)
  {
    match FirstAcceptedGuess(typed, c)
    case None => None
    case Some(g) =>
      match ChangeGuess(b, c, g)
      case Success(b') => Some(b')
      case Failure(_) => None
  }
}
