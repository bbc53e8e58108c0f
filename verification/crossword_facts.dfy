/** Properties that relate several operations of the puzzle board: what
    loading produces, and how guessing, revealing, hinting and the solved
    check fit together. */
module CrosswordFacts {
  import opened Wrappers
  import opened Clues
  import opened Crossword

  // ---------------------------------------------------------------------
  // Loading

  /** Every entry of the dictionary after loading is an old entry or one of
      the records. */
  lemma {:induction false} LoadAllElements(p: Puzzle, recs: seq<Clue>)
    requires AllFit(recs)
    ensures forall x :: x in LoadAll(p, recs).clues ==> x in p.clues || x in recs
    decreases |recs|
  {
    if |recs| > 0 {
      var init := recs[..|recs| - 1];
      LoadAllElements(p, init);
      AssignElements(LoadAll(p, init).clues, recs[|recs| - 1]);
      assert forall x :: x in init ==> x in recs;
    }
  }

  /** A loaded puzzle is well formed: its clues fit the board and no key
      appears twice. */
  lemma LoadValid(recs: seq<Clue>)
    requires AllFit(recs)
    ensures Valid(Load(recs))
  {
    var p := Load(recs);
    LoadAllElements(Empty(), recs);
    LoadAllKeepsKeysDistinct(Empty(), recs);
    forall j | 0 <= j < |p.clues|
      ensures Fits(p.clues[j])
    {
      assert p.clues[j] in recs;
    }
  }

  /** No cell of any clue's span is blocked. */
  predicate SpansOpen(p: Puzzle)
    requires AllFit(p.clues)
  {
    forall j, i :: 0 <= j < |p.clues| && 0 <= i < |p.clues[j].answer| ==>
      Letter(p.board, p.clues[j], i) != BlockedCell
  }

  /** Loading materialises every clue's span on the board. */
  lemma LoadOpensSpans(recs: seq<Clue>)
    requires AllFit(recs)
    ensures Valid(Load(recs)) && SpansOpen(Load(recs))
  {
    var p := Load(recs);
    LoadValid(recs);
    LoadAllElements(Empty(), recs);
    forall j, i | 0 <= j < |p.clues| && 0 <= i < |p.clues[j].answer|
      ensures Letter(p.board, p.clues[j], i) != BlockedCell
    {
      var c := p.clues[j];
      assert c in recs;
      LoadCellCovers(c, i);
      assert SomeCovers(recs, LoadCell(c, i).0, LoadCell(c, i).1);
    }
  }

  /** The game loads every puzzle file twice (once in the constructor and
      once more right after it); the second load changes nothing. */
  lemma ReloadIsIdempotent(recs: seq<Clue>)
    requires AllFit(recs)
    ensures LoadAll(Load(recs), recs) == Load(recs)
  {
    var p := Load(recs);
    var q := LoadAll(p, recs);
    GridExtensionality(q.board, p.board);
    forall j | 0 <= j < |recs|
      ensures HasKey(p.clues, recs[j].Key())
    {
      assert Latest(recs, recs[j].Key()).Some?;
    }
    LoadValid(recs);
    LoadAllKeepsKeysDistinct(p, recs);
    LoadAllKeepsKeyOrder(p, recs);
    forall k
      ensures Lookup(q.clues, k) == Lookup(p.clues, k)
    {
      LoadAllLookup(p, recs, k);
    }
    TableExtensionality(q.clues, p.clues);
  }

  // ---------------------------------------------------------------------
  // Guessing and revealing

  /** A guess of the wrong length is refused, so the caller's board stays as
      it was; a guess of the right length is accepted whatever characters it
      holds, and a character outside GUESS_CHARS lands on the board. */
  lemma InvalidCharactersAreWritten(b: Grid, c: Clue, guess: string, i: int)
    requires Fits(c) && Oriented(c)
    requires |guess| == |c.answer| && 0 <= i < |guess| && guess[i] !in GuessChars
    ensures ChangeGuess(b, c, guess).Success?
    ensures Letter(ChangeGuess(b, c, guess).value, c, i) == guess[i]
    ensures !ValidChars(guess)
  {
    LoadCellCovers(c, i);
  }

  /** Guessing the answer has the same effect as revealing it. */
  lemma GuessingTheAnswerReveals(b: Grid, c: Clue)
    requires Fits(c)
    ensures ChangeGuess(b, c, c.answer) == Success(RevealAnswer(b, c))
  {
  }

  /** Revealing a clue twice leaves the same board as revealing it once. */
  lemma RevealIsIdempotent(b: Grid, c: Clue)
    requires Fits(c)
    ensures RevealAnswer(RevealAnswer(b, c), c) == RevealAnswer(b, c)
  {
    var once := RevealAnswer(b, c);
    var twice := RevealAnswer(once, c);
    forall r, k | InGrid(r, k)
      ensures twice[r][k] == once[r][k]
    {
      if Covers(c, r, k) {
        var i := Offset(c, r, k);
        LoadCellCovers(c, i);
        assert Letter(twice, c, i) == c.answer[i] == Letter(once, c, i);
      }
    }
    GridExtensionality(twice, once);
  }

  /** After a reveal the hint scan finds no wrong letter. */
  lemma RevealLeavesNoWrongLetter(b: Grid, c: Clue)
    requires Fits(c)
    ensures FindWrongLetter(RevealAnswer(b, c), c) == -1
  {
  }

  /** Writing a clue's span touches no cell of a clue whose span is disjoint
      from it, so that clue's hint is unchanged. */
  lemma RevealKeepsDisjointClues(b: Grid, c: Clue, d: Clue)
    requires Fits(c) && Fits(d)
    requires forall i :: 0 <= i < |d.answer| ==> !Covers(c, LoadCell(d, i).0, LoadCell(d, i).1)
    ensures FindWrongLetter(RevealAnswer(b, c), d) == FindWrongLetter(b, d)
  {
    var b' := RevealAnswer(b, c);
    forall i | 0 <= i < |d.answer|
      ensures Letter(b', d, i) == Letter(b, d, i)
    {
      LoadCellCovers(d, i);
    }
    FindWrongLetterDependsOnSpan(b, b', d);
  }

  /** The hint scan only reads the clue's own span. */
  lemma FindWrongLetterDependsOnSpan(b: Grid, b': Grid, c: Clue)
    requires Fits(c)
    requires forall i :: 0 <= i < |c.answer| ==> Letter(b, c, i) == Letter(b', c, i)
    ensures FindWrongLetter(b, c) == FindWrongLetter(b', c)
  {
    if Oriented(c) {
      MismatchFromDependsOnSpan(b, b', c, 0);
    }
  }

  lemma {:induction false} MismatchFromDependsOnSpan(b: Grid, b': Grid, c: Clue, i: nat)
    requires Fits(c) && i <= |c.answer|
    requires forall m :: i <= m < |c.answer| ==> Letter(b, c, m) == Letter(b', c, m)
    ensures MismatchFrom(b, c, i) == MismatchFrom(b', c, i)
    decreases |c.answer| - i
  {
    if i < |c.answer| {
      MismatchFromDependsOnSpan(b, b', c, i + 1);
    }
  }

  /** A guess made only of GUESS_CHARS keeps every span open. */
  lemma ChangeGuessKeepsSpansOpen(p: Puzzle, c: Clue, guess: string)
    requires Valid(p) && SpansOpen(p) && Fits(c) && ValidChars(guess)
    requires ChangeGuess(p.board, c, guess).Success?
    ensures SpansOpen(Puzzle(p.clues, ChangeGuess(p.board, c, guess).value))
  {
    var b' := ChangeGuess(p.board, c, guess).value;
    forall j, i | 0 <= j < |p.clues| && 0 <= i < |p.clues[j].answer|
      ensures Letter(b', p.clues[j], i) != BlockedCell
    {
      LoadCellCovers(p.clues[j], i);
      var r, k := LoadCell(p.clues[j], i).0, LoadCell(p.clues[j], i).1;
      assert Letter(p.board, p.clues[j], i) != BlockedCell;
      if Covers(c, r, k) {
        assert guess[Offset(c, r, k)] in GuessChars;
        assert BlockedCell !in GuessChars;
      }
    }
  }

  /** Revealing an answer that holds no black square keeps every span open. */
  lemma RevealKeepsSpansOpen(p: Puzzle, c: Clue)
    requires Valid(p) && SpansOpen(p) && Fits(c)
    requires forall i :: 0 <= i < |c.answer| ==> c.answer[i] != BlockedCell
    ensures SpansOpen(Puzzle(p.clues, RevealAnswer(p.board, c)))
  {
    var b' := RevealAnswer(p.board, c);
    forall j, i | 0 <= j < |p.clues| && 0 <= i < |p.clues[j].answer|
      ensures Letter(b', p.clues[j], i) != BlockedCell
    {
      LoadCellCovers(p.clues[j], i);
      var r, k := LoadCell(p.clues[j], i).0, LoadCell(p.clues[j], i).1;
      assert Letter(p.board, p.clues[j], i) != BlockedCell;
      if Covers(c, r, k) {
        var o := Offset(c, r, k);
        LoadCellCovers(c, o);
        assert Letter(b', c, o) == c.answer[o];
      }
    }
  }

  // ---------------------------------------------------------------------
  // Solved

  /** The puzzle is solved iff no clue of it has a wrong letter. */
  lemma SolvedIffNoWrongLetter(p: Puzzle)
    requires AllFit(p.clues)
    ensures Solved(p) <==> forall j :: 0 <= j < |p.clues| ==> FindWrongLetter(p.board, p.clues[j]) == -1
  {
  }

  /** Crossing clues agree on the letter of every cell they share. */
  predicate Consistent(t: seq<Clue>)
    requires AllFit(t)
  {
    forall i, j, r, k ::
      0 <= i < |t| && 0 <= j < |t| && 0 <= r < Size && 0 <= k < Size
      && Covers(t[i], r, k) && Covers(t[j], r, k) ==>
      t[i].answer[Offset(t[i], r, k)] == t[j].answer[Offset(t[j], r, k)]
  }

  /** Reveals the clues of `t` one after the other, in order. */
  function RevealAll(b: Grid, t: seq<Clue>): Grid
    requires AllFit(t)
    decreases |t|
  {
    if |t| == 0 then b
    else RevealAnswer(RevealAll(b, t[..|t| - 1]), t[|t| - 1])
  }

  /** After every clue of a consistent list has been revealed, each of them
      reads its answer. */
  lemma {:induction false} RevealAllMatches(b: Grid, t: seq<Clue>)
    requires AllFit(t) && Consistent(t)
    ensures forall j :: 0 <= j < |t| ==> Matches(RevealAll(b, t), t[j])
    decreases |t|
  {
    if |t| > 0 {
      var init, last := t[..|t| - 1], t[|t| - 1];
      assert forall j :: 0 <= j < |init| ==> init[j] == t[j];
      assert AllFit(init) && Consistent(init);
      RevealAllMatches(b, init);
      var before := RevealAll(b, init);
      var after := RevealAll(b, t);
      forall j, i | 0 <= j < |init| && Oriented(init[j]) && 0 <= i < |init[j].answer|
        ensures Letter(after, t[j], i) == t[j].answer[i]
      {
        var c := init[j];
        LoadCellCovers(c, i);
        var (r, k) := LoadCell(c, i);
        assert Letter(before, c, i) == c.answer[i];
        if Covers(last, r, k) {
          var o := Offset(last, r, k);
          LoadCellCovers(last, o);
          assert after[r][k] == last.answer[o];
          assert t[|t| - 1] == last;
          assert Covers(t[j], r, k);
        }
      }
    }
  }

  /** Revealing every clue of a puzzle whose crossing answers agree solves it. */
  lemma RevealingEveryClueSolves(p: Puzzle)
    requires AllFit(p.clues) && Consistent(p.clues)
    ensures Solved(Puzzle(p.clues, RevealAll(p.board, p.clues)))
  {
    RevealAllMatches(p.board, p.clues);
  }

  // ---------------------------------------------------------------------
  // Examples

  /** A second record with the same key replaces the first in the
      dictionary, but the cells only the first one covered stay blank: a
      blank cell no clue of the dictionary covers. */
  lemma DuplicateKeyLeavesStrayBlank(first: Clue, second: Clue)
    requires first == Clue(0, 0, "A", "CATS", "Felines")
    requires second == Clue(0, 0, "A", "CAT", "Feline")
    ensures Lookup(Load([first, second]).clues, first.Key()) == Some(second)
    ensures Load([first, second]).board[0][3] == BlankCell
    ensures forall j :: 0 <= j < |Load([first, second]).clues| ==>
      !LoadCovers(Load([first, second]).clues[j], 0, 3)
  {
    var recs := [first, second];
    assert LoadCovers(recs[0], 0, 3);
    var t := Load(recs).clues;
    LoadAllElements(Empty(), recs);
    LoadValid(recs);
    forall j | 0 <= j < |t|
      ensures !LoadCovers(t[j], 0, 3)
    {
      assert t[j] in recs;
      LookupDistinct(t, j);
    }
  }
}
