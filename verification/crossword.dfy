/** The puzzle board of crossword.py: a 5x5 grid derived from the clue
    records, and the operations that guess, reveal and check a clue's cells. */
module Crossword {
  import opened Wrappers
  import opened Clues

  /** CROSSWORD_DIMENSION: the board is always Size x Size. */
  const Size: int := 5

  /** A cell no clue covers: the black square U+25A0. */
  const BlockedCell: char := '\U{25A0}'

  /** A covered cell that holds no letter yet. */
  const BlankCell: char := '_'

  /** GUESS_CHARS: the characters a guess is meant to use. */
  const GuessChars: string := "ABCDEFGHIJKLMNOPQRSTUVWXYZ_"

  /** The board: Size rows of Size cells each. */
  type Grid = b: seq<seq<char>> | |b| == Size && forall r :: 0 <= r < Size ==> |b[r]| == Size
    witness seq(5, _ => seq(5, _ => '\U{25A0}'))

  predicate InGrid(r: int, k: int) { 0 <= r < Size && 0 <= k < Size }

  /** Two boards are equal when they agree on every cell. */
  lemma GridExtensionality(b: Grid, b': Grid)
    requires forall r, k :: InGrid(r, k) ==> b[r][k] == b'[r][k]
    ensures b == b'
  {
    forall r | 0 <= r < Size
      ensures b[r] == b'[r]
    {
      assert forall k :: 0 <= k < Size ==> b[r][k] == b'[r][k];
    }
  }

  /** `self.board[r][k] = ch`. */
  function Put(b: Grid, r: int, k: int, ch: char): (b': Grid)
    requires InGrid(r, k)
    ensures b'[r][k] == ch
    ensures forall r', k' :: InGrid(r', k') && (r' != r || k' != k) ==> b'[r'][k'] == b[r'][k']
  {
    b[r := b[r][k := ch]]
  }

  // ---------------------------------------------------------------------
  // Spans

  /** The cell that letter `i` of `c` occupies as the loader marks it:
      along the row for tag "A", down the column for every other tag. */
  function LoadCell(c: Clue, i: int): (int, int)
  {
    if c.IsAcross() then (c.row, c.col + i) else (c.row + i, c.col)
  }

  /** Whether the loader's span of `c` covers cell (r, k). */
  predicate LoadCovers(c: Clue, r: int, k: int)
  {
    if c.IsAcross() then r == c.row && c.col <= k < c.col + |c.answer|
    else k == c.col && c.row <= r < c.row + |c.answer|
  }

  /** Which letter of `c` a cell of its span holds. */
  function Offset(c: Clue, r: int, k: int): int
  {
    if c.IsAcross() then k - c.col else r - c.row
  }

  /** The guess, reveal, hint and solved operations act only on clues tagged
      "A" or "D"; a clue with another tag is skipped by all of them. */
  predicate Oriented(c: Clue) { c.IsAcross() || c.IsDown() }

  /** Whether the span those operations write and read covers cell (r, k). */
  predicate Covers(c: Clue, r: int, k: int) { Oriented(c) && LoadCovers(c, r, k) }

  /** Every cell the loader would mark for `c` lies on the board. */
  predicate Fits(c: Clue)
  {
    |c.answer| == 0
    || (0 <= c.row && 0 <= c.col
        && if c.IsAcross() then c.row < Size && c.col + |c.answer| <= Size
           else c.row + |c.answer| <= Size && c.col < Size)
  }

  predicate AllFit(t: seq<Clue>) { forall j :: 0 <= j < |t| ==> Fits(t[j]) }

  /** Letter positions and covered cells correspond one to one. */
  lemma LoadCellCovers(c: Clue, i: int)
    requires Fits(c) && 0 <= i < |c.answer|
    ensures LoadCovers(c, LoadCell(c, i).0, LoadCell(c, i).1)
    ensures Offset(c, LoadCell(c, i).0, LoadCell(c, i).1) == i
    ensures InGrid(LoadCell(c, i).0, LoadCell(c, i).1)
  {
  }

  /** Different letters of a span sit in different cells. */
  lemma LoadCellInjective(c: Clue, i: int, j: int)
    requires i != j
    ensures LoadCell(c, i) != LoadCell(c, j)
  {
  }

  /** Letter `i` of `c`'s span as it currently stands on the board. */
  function Letter(b: Grid, c: Clue, i: int): char
    requires Fits(c) && 0 <= i < |c.answer|
  {
    b[LoadCell(c, i).0][LoadCell(c, i).1]
  }

  /** Every letter of an oriented clue's span equals its answer. */
  predicate Matches(b: Grid, c: Clue)
    requires Fits(c)
  {
    !Oriented(c) || forall i :: 0 <= i < |c.answer| ==> Letter(b, c, i) == c.answer[i]
  }

  // ---------------------------------------------------------------------
  // Writing a span

  /** The write loop of `change_guess` and `reveal_answer` from letter `i`
      on: letter `i` of `s` goes to cell `i` of the span, for "A" along the
      row and for "D" down the column; any other tag writes nothing. */
  function WriteFrom(b: Grid, c: Clue, s: string, i: nat): (b': Grid)
    requires Fits(c) && |s| == |c.answer| && i <= |s|
    ensures forall r, k :: InGrid(r, k) ==>
      b'[r][k] == if Covers(c, r, k) && i <= Offset(c, r, k) then s[Offset(c, r, k)] else b[r][k]
    decreases |s| - i
  {
    if i == |s| then b
    else
      var next := if Oriented(c) then Put(b, LoadCell(c, i).0, LoadCell(c, i).1, s[i]) else b;
      WriteFrom(next, c, s, i + 1)
  }

  datatype GuessError = LengthMismatch

  /** Whether every character of `s` is one of GUESS_CHARS. */
  predicate ValidChars(s: string) { forall i :: 0 <= i < |s| ==> s[i] in GuessChars }

  /** `change_guess`: a guess whose length differs from the answer's raises
      before anything is written. Otherwise guess letter `i` is written to
      span cell `i` and every other cell keeps its value. Characters outside
      GUESS_CHARS are only reported by `change_guess` (a printed message) and
      are written anyway. */
  function ChangeGuess(b: Grid, c: Clue, guess: string): (r: Result<Grid, GuessError>)
    requires Fits(c)
    ensures r.Failure? <==> |guess| != |c.answer|
    ensures r.Success? ==> forall rr, k :: InGrid(rr, k) ==>
      r.value[rr][k] == if Covers(c, rr, k) then guess[Offset(c, rr, k)] else b[rr][k]
  {
    if |guess| != |c.answer| then Failure(LengthMismatch)
    else Success(WriteFrom(b, c, guess, 0))
  }

  /** `reveal_answer`: the answer is written into the clue's span and every
      cell outside it keeps its value. */
  function RevealAnswer(b: Grid, c: Clue): (b': Grid)
    requires Fits(c)
    ensures Matches(b', c)
    ensures forall r, k :: InGrid(r, k) && !Covers(c, r, k) ==> b'[r][k] == b[r][k]
  {
    var b' := WriteFrom(b, c, c.answer, 0);
    assert forall i :: 0 <= i < |c.answer| && Oriented(c) ==> Letter(b', c, i) == c.answer[i] by {
      forall i | 0 <= i < |c.answer| && Oriented(c) {
        LoadCellCovers(c, i);
      }
    }
    b'
  }

  // ---------------------------------------------------------------------
  // Checking a span

  /** The scan of `find_wrong_letter` from letter `i` on. */
  function MismatchFrom(b: Grid, c: Clue, i: nat): (j: int)
    requires Fits(c) && i <= |c.answer|
    ensures j == -1 || i <= j < |c.answer|
    ensures j == -1 <==> forall m :: i <= m < |c.answer| ==> Letter(b, c, m) == c.answer[m]
    ensures j != -1 ==>
      && Letter(b, c, j) != c.answer[j]
      && forall m :: i <= m < j ==> Letter(b, c, m) == c.answer[m]
    decreases |c.answer| - i
  {
    if i == |c.answer| then -1
    else if Letter(b, c, i) != c.answer[i] then i
    else MismatchFrom(b, c, i + 1)
  }

  /** `find_wrong_letter`: the least index whose cell differs from the
      answer, or -1 when the whole span matches (and always for a clue whose
      tag is neither "A" nor "D"). */
  function FindWrongLetter(b: Grid, c: Clue): (i: int)
    requires Fits(c)
    ensures -1 <= i < |c.answer|
    ensures i == -1 <==> Matches(b, c)
    ensures i != -1 ==>
      && Letter(b, c, i) != c.answer[i]
      && forall j :: 0 <= j < i ==> Letter(b, c, j) == c.answer[j]
  {
    if Oriented(c) then MismatchFrom(b, c, 0) else -1
  }

  // ---------------------------------------------------------------------
  // The puzzle

  /** `Crossword`: the clue dictionary, kept in insertion order as Python's
      dict keeps it, and the board. */
  datatype Puzzle = Puzzle(clues: seq<Clue>, board: Grid)

  predicate HasKey(t: seq<Clue>, k: Key) { exists j :: 0 <= j < |t| && t[j].Key() == k }

  predicate DistinctKeys(t: seq<Clue>)
  {
    forall i, j :: 0 <= i < j < |t| ==> t[i].Key() != t[j].Key()
  }

  /** `self.clues.get(key)`. */
  function Lookup(t: seq<Clue>, k: Key): (r: Option<Clue>)
    ensures r.Some? <==> HasKey(t, k)
    ensures r.Some? ==> r.value in t && r.value.Key() == k
  {
    if |t| == 0 then None
    else if t[0].Key() == k then Some(t[0])
    else
      var r := Lookup(t[1..], k);
      assert HasKey(t[1..], k) ==> HasKey(t, k);
      assert HasKey(t, k) ==> HasKey(t[1..], k) by {
        if HasKey(t, k) {
          var j :| 0 <= j < |t| && t[j].Key() == k;
          assert t[1..][j - 1] == t[j];
        }
      }
      r
  }

  /** In a table with distinct keys, each entry is what its key looks up. */
  lemma LookupDistinct(t: seq<Clue>, i: int)
    requires DistinctKeys(t) && 0 <= i < |t|
    ensures Lookup(t, t[i].Key()) == Some(t[i])
  {
    if i > 0 {
      assert t[1..][i - 1] == t[i];
      LookupDistinct(t[1..], i - 1);
    }
  }

  /** `self.clues[key] = clue`: an existing key keeps its position and takes
      the new clue; a new key is appended. The key now looks up `c` and every
      other key looks up what it did before. */
  function Assign(t: seq<Clue>, c: Clue): (t': seq<Clue>)
    ensures Lookup(t', c.Key()) == Some(c)
    ensures forall k :: k != c.Key() ==> Lookup(t', k) == Lookup(t, k)
  {
    if |t| == 0 then [c]
    else if t[0].Key() == c.Key() then [c] + t[1..]
    else [t[0]] + Assign(t[1..], c)
  }

  /** Assignment never creates a second entry for a key. */
  lemma {:induction false} AssignKeepsKeysDistinct(t: seq<Clue>, c: Clue)
    requires DistinctKeys(t)
    ensures DistinctKeys(Assign(t, c))
  {
    if |t| > 0 && t[0].Key() != c.Key() {
      AssignKeepsKeysDistinct(t[1..], c);
      var rest := Assign(t[1..], c);
      forall x | x in rest
        ensures x.Key() != t[0].Key()
      {
        AssignElements(t[1..], c);
      }
    }
  }

  /** Every entry after an assignment is the assigned clue or an old entry. */
  lemma {:induction false} AssignElements(t: seq<Clue>, c: Clue)
    ensures forall x :: x in Assign(t, c) ==> x == c || x in t
  {
    if |t| > 0 && t[0].Key() != c.Key() {
      AssignElements(t[1..], c);
    }
  }

  /** Assigning to a key already present changes no key's position. */
  lemma {:induction false} AssignKeepsKeyOrder(t: seq<Clue>, c: Clue)
    requires HasKey(t, c.Key())
    ensures |Assign(t, c)| == |t|
    ensures forall i :: 0 <= i < |t| ==> Assign(t, c)[i].Key() == t[i].Key()
  {
    if t[0].Key() != c.Key() {
      var j :| 0 <= j < |t| && t[j].Key() == c.Key();
      assert t[1..][j - 1] == t[j];
      AssignKeepsKeyOrder(t[1..], c);
    }
  }

  /** Two tables with distinct keys, the same keys in the same order and the
      same lookups are the same table. */
  lemma TableExtensionality(t: seq<Clue>, t': seq<Clue>)
    requires DistinctKeys(t) && DistinctKeys(t') && |t| == |t'|
    requires forall i :: 0 <= i < |t| ==> t[i].Key() == t'[i].Key()
    requires forall k :: Lookup(t, k) == Lookup(t', k)
    ensures t == t'
  {
    forall i | 0 <= i < |t|
      ensures t[i] == t'[i]
    {
      LookupDistinct(t, i);
      LookupDistinct(t', i);
      assert Lookup(t, t[i].Key()) == Lookup(t', t'[i].Key());
    }
  }

  /** The record loaded last among those with key `k`, if any. */
  function Latest(recs: seq<Clue>, k: Key): (r: Option<Clue>)
    ensures r.None? <==> forall j :: 0 <= j < |recs| ==> recs[j].Key() != k
    ensures r.Some? ==> exists j ::
      && 0 <= j < |recs| && recs[j] == r.value && recs[j].Key() == k
      && forall j' :: j < j' < |recs| ==> recs[j'].Key() != k
  {
    if |recs| == 0 then None
    else if recs[|recs| - 1].Key() == k then Some(recs[|recs| - 1])
    else
      var r := Latest(recs[..|recs| - 1], k);
      assert forall j :: 0 <= j < |recs| - 1 ==> recs[..|recs| - 1][j] == recs[j];
      r
  }

  /** The board the constructor starts from: every cell blocked. */
  function BlockedGrid(): (b: Grid)
    ensures forall r, k :: InGrid(r, k) ==> b[r][k] == BlockedCell
  {
    seq(Size, _ => seq(Size, _ => BlockedCell))
  }

  /** A puzzle before any record is loaded. */
  function Empty(): Puzzle { Puzzle([], BlockedGrid()) }

  /** The marking loop of `_load` from letter `i` on: the loader's span of
      `c` becomes blank. */
  function Mark(b: Grid, c: Clue, i: nat): (b': Grid)
    requires Fits(c) && i <= |c.answer|
    ensures forall r, k :: InGrid(r, k) ==>
      b'[r][k] == if LoadCovers(c, r, k) && i <= Offset(c, r, k) then BlankCell else b[r][k]
    decreases |c.answer| - i
  {
    if i == |c.answer| then b
    else Mark(Put(b, LoadCell(c, i).0, LoadCell(c, i).1, BlankCell), c, i + 1)
  }

  /** One iteration of `_load`: store the clue under its key, then mark its span. */
  function LoadRecord(p: Puzzle, c: Clue): Puzzle
    requires Fits(c)
  {
    Puzzle(Assign(p.clues, c), Mark(p.board, c, 0))
  }

  /** Whether some record's span, as the loader marks it, covers (r, k). */
  predicate SomeCovers(recs: seq<Clue>, r: int, k: int)
  {
    exists j :: 0 <= j < |recs| && LoadCovers(recs[j], r, k)
  }

  /** Covering by a record list splits into its prefix and its last record. */
  lemma SomeCoversSnoc(recs: seq<Clue>, r: int, k: int)
    requires |recs| > 0
    ensures SomeCovers(recs, r, k) <==>
      SomeCovers(recs[..|recs| - 1], r, k) || LoadCovers(recs[|recs| - 1], r, k)
  {
    var init := recs[..|recs| - 1];
    if SomeCovers(recs, r, k) && !LoadCovers(recs[|recs| - 1], r, k) {
      var j :| 0 <= j < |recs| && LoadCovers(recs[j], r, k);
      assert init[j] == recs[j];
    }
    if SomeCovers(init, r, k) {
      var j :| 0 <= j < |init| && LoadCovers(init[j], r, k);
      assert recs[j] == init[j];
    }
  }

  /** `_load` over decoded records, starting from puzzle `p`: a cell becomes
      blank iff some record's span covers it, and every other cell keeps its
      value. */
  function LoadAll(p: Puzzle, recs: seq<Clue>): (q: Puzzle)
    requires AllFit(recs)
    ensures forall r, k :: InGrid(r, k) ==>
      q.board[r][k] == if SomeCovers(recs, r, k) then BlankCell else p.board[r][k]
    decreases |recs|
  {
    if |recs| == 0 then p
    else
      var q0 := LoadAll(p, recs[..|recs| - 1]);
      var q := LoadRecord(q0, recs[|recs| - 1]);
      assert forall r, k :: SomeCovers(recs, r, k) <==>
        SomeCovers(recs[..|recs| - 1], r, k) || LoadCovers(recs[|recs| - 1], r, k) by {
        forall r, k {
          SomeCoversSnoc(recs, r, k);
        }
      }
      q
  }

  /** After loading, each key looks up the last record carrying it; a key no
      record carries keeps the lookup it had before. A later record with the
      same key silently replaces an earlier one. */
  lemma {:induction false} LoadAllLookup(p: Puzzle, recs: seq<Clue>, k: Key)
    requires AllFit(recs)
    ensures Lookup(LoadAll(p, recs).clues, k) ==
      if Latest(recs, k).Some? then Latest(recs, k) else Lookup(p.clues, k)
    decreases |recs|
  {
    if |recs| > 0 {
      LoadAllLookup(p, recs[..|recs| - 1], k);
    }
  }

  /** Loading keeps the keys of the dictionary distinct. */
  lemma {:induction false} LoadAllKeepsKeysDistinct(p: Puzzle, recs: seq<Clue>)
    requires AllFit(recs) && DistinctKeys(p.clues)
    ensures DistinctKeys(LoadAll(p, recs).clues)
    decreases |recs|
  {
    if |recs| > 0 {
      LoadAllKeepsKeysDistinct(p, recs[..|recs| - 1]);
      AssignKeepsKeysDistinct(LoadAll(p, recs[..|recs| - 1]).clues, recs[|recs| - 1]);
    }
  }

  /** Loading records whose keys are all present already leaves the keys in
      place: the dictionary only takes new values. */
  lemma {:induction false} LoadAllKeepsKeyOrder(p: Puzzle, recs: seq<Clue>)
    requires AllFit(recs)
    requires forall j :: 0 <= j < |recs| ==> HasKey(p.clues, recs[j].Key())
    ensures |LoadAll(p, recs).clues| == |p.clues|
    ensures forall i :: 0 <= i < |p.clues| ==> LoadAll(p, recs).clues[i].Key() == p.clues[i].Key()
    decreases |recs|
  {
    if |recs| > 0 {
      var init := recs[..|recs| - 1];
      var last := recs[|recs| - 1];
      assert forall j :: 0 <= j < |init| ==> init[j] == recs[j];
      LoadAllKeepsKeyOrder(p, init);
      var q0 := LoadAll(p, init);
      assert HasKey(p.clues, last.Key());
      LoadAllLookup(p, init, last.Key());
      assert HasKey(q0.clues, last.Key()) by {
        assert Lookup(q0.clues, last.Key()).Some?;
      }
      AssignKeepsKeyOrder(q0.clues, last);
    }
  }

  /** The constructor followed by `_load`: the board is blank exactly on the
      cells some record's span reaches and blocked everywhere else, and each
      key finds the last record carrying it (none when no record has it). */
  function Load(recs: seq<Clue>): (p: Puzzle)
    requires AllFit(recs)
    ensures forall r, k :: InGrid(r, k) ==>
      p.board[r][k] == if SomeCovers(recs, r, k) then BlankCell else BlockedCell
    ensures forall k :: Lookup(p.clues, k) == Latest(recs, k)
  {
    var p := LoadAll(Empty(), recs);
    assert forall k :: Lookup(p.clues, k) == Latest(recs, k) by {
      forall k {
        LoadAllLookup(Empty(), recs, k);
      }
    }
    p
  }

  /** Well-formedness the loader establishes and the operations keep. */
  predicate Valid(p: Puzzle) { AllFit(p.clues) && DistinctKeys(p.clues) }

  // ---------------------------------------------------------------------
  // Solved

  /** Every clue in the dictionary currently reads its answer. */
  predicate Solved(p: Puzzle)
    requires AllFit(p.clues)
  {
    forall j :: 0 <= j < |p.clues| ==> Matches(p.board, p.clues[j])
  }

  /** `is_solved`: visits the clues in dictionary order and each clue's
      letters in order, and stops at the first cell that differs from its
      answer. */
  method IsSolved(p: Puzzle) returns (solved: bool)
    requires AllFit(p.clues)
    ensures solved <==> Solved(p)
  {
    var j := 0;
    while j < |p.clues|
      invariant 0 <= j <= |p.clues|
      invariant forall j' :: 0 <= j' < j ==> Matches(p.board, p.clues[j'])
    {
      var c := p.clues[j];
      var i := 0;
      while i < |c.answer|
        invariant 0 <= i <= |c.answer|
        invariant Oriented(c) ==> forall i' :: 0 <= i' < i ==> Letter(p.board, c, i') == c.answer[i']
      {
        if c.IsAcross() {
          if p.board[c.row][c.col + i] != c.answer[i] {
            return false;
          }
        } else if c.IsDown() {
          if p.board[c.row + i][c.col] != c.answer[i] {
            return false;
          }
        }
        i := i + 1;
      }
      j := j + 1;
    }
    return true;
  }
}
