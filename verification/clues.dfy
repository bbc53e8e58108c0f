/** A clue of the puzzle and the order in which clues are listed (class `Clue`
    of crossword.py). */
module Clues {

  /** Key under which a puzzle indexes its clues: start row, start column and
      the orientation tag, in that order. */
  type Key = (int, int, string)

  /** One answer placement as read from a puzzle record. `tag` is the record's
      orientation column: "A" for across, "D" for down. Other tags are kept as
      they are, because the game never rejects them. */
  datatype Clue = Clue(row: int, col: int, tag: string, answer: string, text: string)
  {
    function Key(): Key { (row, col, tag) }

    predicate IsAcross() { tag == "A" }

    predicate IsDown() { tag == "D" }
  }

  /** Python's `<` on strings: code points compared from the left, and a
      proper prefix sorts before the longer string. */
  predicate StrLess(a: string, b: string)
    decreases |a|
  {
    if |b| == 0 then false
    else if |a| == 0 then true
    else if a[0] != b[0] then a[0] < b[0]
    else StrLess(a[1..], b[1..])
  }

  /** `StrLess` agrees with the textbook definition of lexicographic order:
      either `a` is a proper prefix of `b`, or the first position where they
      differ holds a smaller character in `a`. */
  lemma {:induction false} StrLessIsLexicographic(a: string, b: string)
    ensures StrLess(a, b) <==>
      (|a| < |b| && a == b[..|a|])
      || (exists k :: 0 <= k < |a| && k < |b| && a[..k] == b[..k] && a[k] < b[k])
    decreases |a|
  {
    if |b| == 0 || |a| == 0 {
    } else if a[0] != b[0] {
      if StrLess(a, b) {
        assert a[..0] == b[..0];
      }
    } else {
      var a', b' := a[1..], b[1..];
      StrLessIsLexicographic(a', b');
      if |a'| < |b'| && a' == b'[..|a'|] {
        assert a == [a[0]] + a' && b[..|a|] == [b[0]] + b'[..|a'|];
      }
      if |a| < |b| && a == b[..|a|] {
        assert a' == b'[..|a'|];
      }
      if k :| 0 <= k < |a'| && k < |b'| && a'[..k] == b'[..k] && a'[k] < b'[k] {
        assert a[..k + 1] == [a[0]] + a'[..k] && b[..k + 1] == [b[0]] + b'[..k];
      }
      if k :| 0 <= k < |a| && k < |b| && a[..k] == b[..k] && a[k] < b[k] {
        assert k > 0;
        assert a'[..k - 1] == a[1..k] == b[1..k] == b'[..k - 1];
        assert a'[k - 1] < b'[k - 1];
      }
    }
  }

  lemma {:induction false} StrLessIrreflexive(a: string)
    ensures !StrLess(a, a)
    decreases |a|
  {
    if |a| > 0 {
      StrLessIrreflexive(a[1..]);
    }
  }

  lemma {:induction false} StrLessTransitive(a: string, b: string, c: string)
    requires StrLess(a, b) && StrLess(b, c)
    ensures StrLess(a, c)
    decreases |a|
  {
    if |a| > 0 && a[0] == b[0] && b[0] == c[0] {
      StrLessTransitive(a[1..], b[1..], c[1..]);
    }
  }

  /** Two different strings are always ordered one way or the other. */
  lemma {:induction false} StrLessTotal(a: string, b: string)
    requires a != b
    ensures StrLess(a, b) || StrLess(b, a)
    decreases |a|
  {
    if |a| > 0 && |b| > 0 && a[0] == b[0] {
      assert a == [a[0]] + a[1..] && b == [b[0]] + b[1..];
      StrLessTotal(a[1..], b[1..]);
    }
  }

  /** `Clue.__lt__`: the tuples (tag, row, column) compared as Python compares
      tuples, so the first component that differs decides. */
  predicate Less(x: Clue, y: Clue)
  {
    StrLess(x.tag, y.tag)
    || (x.tag == y.tag && (x.row < y.row || (x.row == y.row && x.col < y.col)))
  }

  /** The components `Less` looks at; clues with the same order key are tied. */
  function OrderKey(x: Clue): (string, int, int) { (x.tag, x.row, x.col) }

  lemma LessIrreflexive(x: Clue)
    ensures !Less(x, x)
  {
    StrLessIrreflexive(x.tag);
  }

  lemma LessTransitive(x: Clue, y: Clue, z: Clue)
    requires Less(x, y) && Less(y, z)
    ensures Less(x, z)
  {
    if StrLess(x.tag, y.tag) && StrLess(y.tag, z.tag) {
      StrLessTransitive(x.tag, y.tag, z.tag);
    }
  }

  /** `Less` never holds both ways. */
  lemma LessAsymmetric(x: Clue, y: Clue)
    requires Less(x, y)
    ensures !Less(y, x)
  {
    if Less(y, x) {
      LessTransitive(x, y, x);
      LessIrreflexive(x);
    }
  }

  /** Clues with different order keys are comparable; clues with the same
      order key are not ordered either way. */
  lemma LessTrichotomy(x: Clue, y: Clue)
    ensures OrderKey(x) != OrderKey(y) <==> (Less(x, y) || Less(y, x))
  {
    if x.tag != y.tag {
      StrLessTotal(x.tag, y.tag);
    } else {
      StrLessIrreflexive(x.tag);
    }
  }

  /** Every Across clue is listed before every Down clue. */
  lemma AcrossBeforeDown(x: Clue, y: Clue)
    requires x.IsAcross() && y.IsDown()
    ensures Less(x, y) && !Less(y, x)
  {
    assert StrLess(x.tag, y.tag);
    LessAsymmetric(x, y);
  }

  /** Within one orientation, clues are ordered by row, then by column. */
  lemma SameTagOrder(x: Clue, y: Clue)
    requires x.tag == y.tag
    ensures Less(x, y) <==> x.row < y.row || (x.row == y.row && x.col < y.col)
  {
    StrLessIrreflexive(x.tag);
  }
}
