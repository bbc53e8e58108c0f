/** `display_clues` of proj07.py: the dictionary's clues split by
    orientation, each group sorted by the clue order and cut to the first n.
    The printed text is left out; the two groups are the result. */
module Display {
  import opened Clues

  /** Ordered by `Less`: no later clue sorts before an earlier one. */
  predicate Sorted(s: seq<Clue>)
  {
    forall i, j :: 0 <= i < j < |s| ==> !Less(s[j], s[i])
  }

  /** The clues of `values` carrying `tag`, in their original order. */
  function Group(values: seq<Clue>, tag: string): (g: seq<Clue>)
    ensures forall c :: multiset(g)[c] == if c.tag == tag then multiset(values)[c] else 0
  {
    if |values| == 0 then []
    else
      var rest := Group(values[1..], tag);
      assert values == [values[0]] + values[1..];
      if values[0].tag == tag then [values[0]] + rest else rest
  }

  /** Inserts `x` before the first clue that sorts after it. */
  function InsertSorted(x: Clue, s: seq<Clue>): (r: seq<Clue>)
    ensures multiset(r) == multiset(s) + multiset{x}
  {
    if |s| == 0 || Less(x, s[0]) then [x] + s
    else
      assert s == [s[0]] + s[1..];
      [s[0]] + InsertSorted(x, s[1..])
  }

  /** Prepending a clue no element sorts before keeps a list sorted. */
  lemma PrependSorted(x: Clue, s: seq<Clue>)
    requires Sorted(s)
    requires forall k :: 0 <= k < |s| ==> !Less(s[k], x)
    ensures Sorted([x] + s)
  {
    var r := [x] + s;
    forall i, j | 0 <= i < j < |r|
      ensures !Less(r[j], r[i])
    {
      if i == 0 {
        assert r[j] == s[j - 1];
      } else {
        assert r[i] == s[i - 1] && r[j] == s[j - 1];
      }
    }
  }

  /** Insertion keeps a sorted list sorted. */
  lemma {:induction false} InsertSortedKeepsSorted(x: Clue, s: seq<Clue>)
    requires Sorted(s)
    ensures Sorted(InsertSorted(x, s))
  {
    if |s| == 0 || Less(x, s[0]) {
      forall k | 0 <= k < |s|
        ensures !Less(s[k], x)
      {
        if Less(s[k], x) {
          LessTransitive(s[k], x, s[0]);
          LessIrreflexive(s[0]);
        }
      }
      PrependSorted(x, s);
    } else {
      var tail := s[1..];
      assert Sorted(tail);
      InsertSortedKeepsSorted(x, tail);
      var rest := InsertSorted(x, tail);
      forall k | 0 <= k < |rest|
        ensures !Less(rest[k], s[0])
      {
        assert rest[k] in multiset(rest);
        if rest[k] != x {
          assert rest[k] in multiset(tail);
          var m :| 0 <= m < |tail| && tail[m] == rest[k];
          assert s[m + 1] == rest[k];
        }
      }
      PrependSorted(s[0], rest);
    }
  }

  /** Insertion sort by the clue order (the `list.sort()` calls). Unlike
      Python's stable sort it puts clues with equal order keys in reverse
      input order; dictionary keys are distinct, so no group has such ties
      (`GroupOrderIsDetermined`). */
  function SortClues(s: seq<Clue>): (r: seq<Clue>)
    ensures Sorted(r)
    ensures multiset(r) == multiset(s)
  {
    if |s| == 0 then []
    else
      assert s == [s[0]] + s[1..];
      var rest := SortClues(s[1..]);
      InsertSortedKeepsSorted(s[0], rest);
      InsertSorted(s[0], rest)
  }

  /** `clues[:n or None]`: everything for n == 0, otherwise the first n
      (all of them when there are fewer than n). */
  function Truncate(s: seq<Clue>, n: nat): (t: seq<Clue>)
    ensures |t| == if n == 0 || n >= |s| then |s| else n
    ensures t == s[..|t|]
    ensures multiset(t) <= multiset(s)
  {
    if n == 0 || n >= |s| then s
    else
      assert s == s[..n] + s[n..];
      s[..n]
  }

  /** The Across group and the Down group, in that order, as `display_clues`
      prints them. `values` is the dictionary's values in iteration order. */
  function DisplayClues(values: seq<Clue>, n: nat): (groups: (seq<Clue>, seq<Clue>))
    ensures Sorted(groups.0) && Sorted(groups.1)
    ensures forall c :: c in groups.0 ==> c.IsAcross() && c in values
    ensures forall c :: c in groups.1 ==> c.IsDown() && c in values
    ensures n == 0 ==> forall c :: multiset(groups.0)[c] == if c.IsAcross() then multiset(values)[c] else 0
    ensures n == 0 ==> forall c :: multiset(groups.1)[c] == if c.IsDown() then multiset(values)[c] else 0
    ensures |groups.0| == if n == 0 || n >= |Group(values, "A")| then |Group(values, "A")| else n
    ensures |groups.1| == if n == 0 || n >= |Group(values, "D")| then |Group(values, "D")| else n
    ensures forall x, y :: x in groups.0 && y in values && y.IsAcross() && Less(y, x) ==> y in groups.0
    ensures forall x, y :: x in groups.1 && y in values && y.IsDown() && Less(y, x) ==> y in groups.1
    ensures multiset(groups.0) <= multiset(Group(values, "A"))
    ensures multiset(groups.1) <= multiset(Group(values, "D"))
  {
    var across := SortClues(Group(values, "A"));
    var down := SortClues(Group(values, "D"));
    TruncateKeepsSmallest(across, n);
    TruncateKeepsSmallest(down, n);
    ElementsOfGroup(values, "A");
    ElementsOfGroup(values, "D");
    (Truncate(across, n), Truncate(down, n))
  }

  lemma ElementsOfGroup(values: seq<Clue>, tag: string)
    ensures forall c :: c in SortClues(Group(values, tag)) <==> c in values && c.tag == tag
  {
    forall c
      ensures c in SortClues(Group(values, tag)) <==> c in values && c.tag == tag
    {
      assert c in SortClues(Group(values, tag)) <==> c in multiset(Group(values, tag));
    }
  }

  /** Cutting a sorted list keeps a sorted prefix, and no omitted clue sorts
      before a kept one. */
  lemma TruncateKeepsSmallest(s: seq<Clue>, n: nat)
    requires Sorted(s)
    ensures Sorted(Truncate(s, n))
    ensures forall x :: x in Truncate(s, n) ==> x in s
    ensures forall x, y :: x in Truncate(s, n) && y in s && Less(y, x) ==> y in Truncate(s, n)
  {
    var t := Truncate(s, n);
    forall x, y | x in t && y in s && Less(y, x)
      ensures y in t
    {
      var p :| 0 <= p < |t| && t[p] == x;
      var q :| 0 <= q < |s| && s[q] == y;
      if q < |t| {
        assert t[q] == y;
      }
    }
  }

  // ---------------------------------------------------------------------
  // The groups do not depend on the sort algorithm or the iteration order

  /** No clue occurs twice and no two clues share an order key. */
  ghost predicate Unambiguous(m: multiset<Clue>)
  {
    && (forall x :: m[x] <= 1)
    && forall x, y :: x in m && y in m && OrderKey(x) == OrderKey(y) ==> x == y
  }

  /** Two positions of a list whose clues occur once hold different clues. */
  lemma DifferentPositions(a: seq<Clue>, i: int, j: int)
    requires 0 <= i < j < |a| && multiset(a)[a[i]] <= 1
    ensures a[i] != a[j]
  {
    assert a == a[..i] + [a[i]] + a[i + 1..j] + [a[j]] + a[j + 1..];
  }

  /** Sorted lists that hold the same unambiguous clues start alike. */
  lemma SortedHeadsEqual(a: seq<Clue>, b: seq<Clue>)
    requires Sorted(a) && Sorted(b) && multiset(a) == multiset(b)
    requires Unambiguous(multiset(a)) && |a| > 0
    ensures |b| > 0 && a[0] == b[0]
  {
    assert a[0] in multiset(b);
    var j :| 0 <= j < |b| && b[j] == a[0];
    assert b[0] in multiset(a);
    var i :| 0 <= i < |a| && a[i] == b[0];
    if i > 0 {
      DifferentPositions(a, 0, i);
      LessTrichotomy(a[0], a[i]);
    }
  }

  /** Part of an unambiguous collection is unambiguous. */
  lemma UnambiguousPart(m: multiset<Clue>, m': multiset<Clue>)
    requires m' <= m && Unambiguous(m)
    ensures Unambiguous(m')
  {
    forall x
      ensures m'[x] <= 1
    {
      assert m'[x] <= m[x];
    }
  }

  /** Lists that hold the same clues and start alike hold the same clues
      after their first. */
  lemma SameTails(a: seq<Clue>, b: seq<Clue>)
    requires |a| > 0 && |b| > 0 && a[0] == b[0] && multiset(a) == multiset(b)
    ensures multiset(a[1..]) == multiset(b[1..]) && multiset(a[1..]) <= multiset(a)
  {
    assert a == [a[0]] + a[1..] && b == [b[0]] + b[1..];
    assert multiset(a[1..]) == multiset(a) - multiset{a[0]};
    assert multiset(b[1..]) == multiset(b) - multiset{b[0]};
  }

  /** The part of a sorted list after its first clue is sorted. */
  lemma SortedTail(a: seq<Clue>)
    requires Sorted(a) && |a| > 0
    ensures Sorted(a[1..])
  {
  }

  /** Sorted lists that hold the same unambiguous clues are equal. */
  lemma {:induction false} SortedIsUnique(a: seq<Clue>, b: seq<Clue>)
    requires Sorted(a) && Sorted(b) && multiset(a) == multiset(b)
    requires Unambiguous(multiset(a))
    ensures a == b
    decreases |a|
  {
    assert |a| == |multiset(a)| == |multiset(b)| == |b|;
    if |a| > 0 {
      SortedHeadsEqual(a, b);
      SameTails(a, b);
      UnambiguousPart(multiset(a), multiset(a[1..]));
      SortedTail(a);
      SortedTail(b);
      SortedIsUnique(a[1..], b[1..]);
      assert a == [a[0]] + a[1..] && b == [b[0]] + b[1..];
    }
  }

  /** A list with distinct dictionary keys is unambiguous. */
  lemma DistinctKeysUnambiguous(values: seq<Clue>)
    requires forall i, j :: 0 <= i < j < |values| ==> values[i].Key() != values[j].Key()
    ensures Unambiguous(multiset(values))
  {
    forall x | x in multiset(values)
      ensures multiset(values)[x] <= 1
    {
      var p :| 0 <= p < |values| && values[p] == x;
      MultiplicityOfDistinct(values, p);
    }
  }

  /** Distinct dictionary keys: two clues of one orientation never share an
      order key, so each group has exactly one sorted arrangement. Python's
      stable sort, insertion sort and any iteration order of the dictionary
      all produce the same groups. */
  lemma GroupOrderIsDetermined(values: seq<Clue>, tag: string, other: seq<Clue>)
    requires forall i, j :: 0 <= i < j < |values| ==> values[i].Key() != values[j].Key()
    requires Sorted(other) && multiset(other) == multiset(Group(values, tag))
    ensures other == SortClues(Group(values, tag))
  {
    DistinctKeysUnambiguous(values);
    var g := Group(values, tag);
    assert forall x :: x in multiset(g) ==> x in multiset(values);
    SortedIsUnique(SortClues(g), other);
  }

  /** A clue with a unique key occurs once. */
  lemma MultiplicityOfDistinct(values: seq<Clue>, p: int)
    requires forall i, j :: 0 <= i < j < |values| ==> values[i].Key() != values[j].Key()
    requires 0 <= p < |values|
    ensures multiset(values)[values[p]] == 1
  {
    var x := values[p];
    assert values == values[..p] + [x] + values[p + 1..];
    assert forall q :: 0 <= q < |values| && q != p ==> values[q] != x;
    assert x !in values[..p];
    assert x !in values[p + 1..];
  }
}
