/** The list part of MasterMind.save_score: the stored `[points, initials]`
    pairs get the new pair appended and are sorted in reverse, so under
    Python's list ordering (points first, then initials, compared here as
    sequences of code points) the highest entry comes first. */
module HighScores {

  /** One stored `[points, initials]` pair. */
  datatype Entry = Entry(points: int, initials: string)

  /** Python's `<` on strings. */
  predicate StringLess(a: string, b: string)
  {
    if a == [] then b != []
    else if b == [] then false
    else if a[0] != b[0] then a[0] < b[0]
    else StringLess(a[1..], b[1..])
  }

  /** Python's `<` on two-element lists `[points, initials]`. */
  predicate EntryLess(a: Entry, b: Entry)
  {
    a.points < b.points || (a.points == b.points && StringLess(a.initials, b.initials))
  }

  // ---------------------------------------------------------------------
  // The orders are strict total orders

  lemma {:induction false} StringLessIrreflexive(a: string)
    ensures !StringLess(a, a)
  {
    if a != [] {
      StringLessIrreflexive(a[1..]);
    }
  }

  lemma {:induction false} StringLessTransitive(a: string, b: string, c: string)
    requires StringLess(a, b) && StringLess(b, c)
    ensures StringLess(a, c)
  {
    if a != [] && a[0] == b[0] && b[0] == c[0] {
      StringLessTransitive(a[1..], b[1..], c[1..]);
    }
  }

  lemma {:induction false} StringLessTotal(a: string, b: string)
    requires a != b
    ensures StringLess(a, b) || StringLess(b, a)
  {
    if a != [] && b != [] && a[0] == b[0] {
      assert a == [a[0]] + a[1..] && b == [b[0]] + b[1..];
      StringLessTotal(a[1..], b[1..]);
    }
  }

  lemma EntryLessIrreflexive(a: Entry)
    ensures !EntryLess(a, a)
  {
    StringLessIrreflexive(a.initials);
  }

  lemma EntryLessTransitive(a: Entry, b: Entry, c: Entry)
    requires EntryLess(a, b) && EntryLess(b, c)
    ensures EntryLess(a, c)
  {
    if a.points == b.points == c.points {
      StringLessTransitive(a.initials, b.initials, c.initials);
    }
  }

  lemma EntryLessTotal(a: Entry, b: Entry)
    requires a != b
    ensures EntryLess(a, b) || EntryLess(b, a)
  {
    if a.points == b.points {
      StringLessTotal(a.initials, b.initials);
    }
  }

  // ---------------------------------------------------------------------
  // Sorting in reverse

  /** Non-increasing: no entry is below a later one. */
  predicate Descending(s: seq<Entry>)
  {
    forall i, j :: 0 <= i < j < |s| ==> !EntryLess(s[i], s[j])
  }

  /** Put `e` before the first entry that is below it. */
  function Insert(e: Entry, s: seq<Entry>): seq<Entry>
  {
    if s == [] || !EntryLess(e, s[0]) then [e] + s
    else [s[0]] + Insert(e, s[1..])
  }

  /** A reference definition of `sort(reverse=True)`; by
      DescendingIsUnique every descending permutation equals it, so list.sort's
      own algorithm gives the same list. */
  function SortDescending(s: seq<Entry>): seq<Entry>
  {
    if s == [] then [] else Insert(s[0], SortDescending(s[1..]))
  }

  lemma FirstIsGreatest(s: seq<Entry>, x: Entry)
    requires Descending(s) && x in s
    ensures !EntryLess(s[0], x)
  {
    var j :| 0 <= j < |s| && s[j] == x;
    if j == 0 {
      EntryLessIrreflexive(x);
    }
  }

  /** An entry not below the head of a descending list may go in front. */
  lemma PrependDescending(e: Entry, s: seq<Entry>)
    requires Descending(s) && (s == [] || !EntryLess(e, s[0]))
    ensures Descending([e] + s)
  {
    var r := [e] + s;
    forall i, j | 0 <= i < j < |r| ensures !EntryLess(r[i], r[j]) {
      if i == 0 && EntryLess(e, s[j - 1]) {
        FirstIsGreatest(s, s[j - 1]);
        if s[j - 1] != s[0] {
          EntryLessTotal(s[j - 1], s[0]);
          EntryLessTransitive(e, s[j - 1], s[0]);
        }
      }
    }
  }

  /** A head not below any later entry keeps a descending tail descending. */
  lemma ConsDescending(x: Entry, tail: seq<Entry>)
    requires Descending(tail)
    requires forall y :: y in tail ==> !EntryLess(x, y)
    ensures Descending([x] + tail)
  {
    var r := [x] + tail;
    forall i, j | 0 <= i < j < |r| ensures !EntryLess(r[i], r[j]) {
      if i == 0 {
        assert r[j] in tail;
      } else {
        assert r[i] == tail[i - 1] && r[j] == tail[j - 1];
      }
    }
  }

  /** Inserting into a descending list keeps it descending and adds
      exactly the new entry. */
  lemma {:induction false} InsertCorrect(e: Entry, s: seq<Entry>)
    requires Descending(s)
    ensures Descending(Insert(e, s))
    ensures multiset(Insert(e, s)) == multiset(s) + multiset{e}
  {
    if s == [] || !EntryLess(e, s[0]) {
      PrependDescending(e, s);
    } else {
      assert s == [s[0]] + s[1..];
      var tail := Insert(e, s[1..]);
      InsertCorrect(e, s[1..]);
      forall x | x in tail ensures !EntryLess(s[0], x) {
        assert x in multiset(tail);
        if x == e {
          if EntryLess(s[0], e) {
            EntryLessTransitive(s[0], e, s[0]);
            EntryLessIrreflexive(s[0]);
          }
        } else {
          assert x in s[1..];
          FirstIsGreatest(s, x);
        }
      }
      ConsDescending(s[0], tail);
    }
  }

  lemma {:induction false} SortDescendingCorrect(s: seq<Entry>)
    ensures Descending(SortDescending(s))
    ensures multiset(SortDescending(s)) == multiset(s)
  {
    if s != [] {
      SortDescendingCorrect(s[1..]);
      InsertCorrect(s[0], SortDescending(s[1..]));
      assert s == [s[0]] + s[1..];
    }
  }

  /** Dropping the head keeps a list descending and removes that one entry. */
  lemma DropHead(a: seq<Entry>)
    requires Descending(a) && a != []
    ensures Descending(a[1..])
    ensures multiset(a[1..]) == multiset(a) - multiset{a[0]}
  {
    assert a == [a[0]] + a[1..];
  }

  /** Non-empty descending lists with the same entries start alike. */
  lemma SameHead(a: seq<Entry>, b: seq<Entry>)
    requires Descending(a) && Descending(b) && multiset(a) == multiset(b)
    requires a != [] && b != []
    ensures a[0] == b[0]
  {
    assert a[0] in multiset(b) && b[0] in multiset(a);
    FirstIsGreatest(a, b[0]);
    FirstIsGreatest(b, a[0]);
    if a[0] != b[0] {
      EntryLessTotal(a[0], b[0]);
    }
  }

  /** Two descending lists with the same entries are the same list. */
  lemma {:induction false} DescendingIsUnique(a: seq<Entry>, b: seq<Entry>)
    requires Descending(a) && Descending(b) && multiset(a) == multiset(b)
    ensures a == b
  {
    assert |a| == |multiset(a)| == |multiset(b)| == |b|;
    if a != [] {
      SameHead(a, b);
      DropHead(a);
      DropHead(b);
      DescendingIsUnique(a[1..], b[1..]);
      assert a == [a[0]] + a[1..] && b == [b[0]] + b[1..];
    }
  }

  /** save_score's list update: append the new pair, sort in reverse. The
      result holds every stored entry and the new one, highest first. */
  function Record(scores: seq<Entry>, e: Entry): (r: seq<Entry>)
    ensures |r| == |scores| + 1
    ensures multiset(r) == multiset(scores) + multiset{e}
    ensures forall x :: x in scores ==> x in r
    ensures e in r
    ensures Descending(r)
  {
    SortDescendingCorrect(scores + [e]);
    assert multiset(scores + [e]) == multiset(scores) + multiset{e};
    var r := SortDescending(scores + [e]);
    assert forall x :: x in scores ==> x in multiset(r);
    assert e in multiset(r);
    assert |r| == |multiset(r)|;
    r
  }

  /** The updated list is the only descending arrangement of the stored
      entries plus the new one, whatever sorting algorithm produced it. */
  lemma RecordIsTheSortedList(scores: seq<Entry>, e: Entry, r: seq<Entry>)
    requires Descending(r) && multiset(r) == multiset(scores) + multiset{e}
    ensures r == Record(scores, e)
  {
    DescendingIsUnique(r, Record(scores, e));
  }

  /** A store that is already in order gets the new pair inserted in its
      place. */
  lemma RecordOfSorted(scores: seq<Entry>, e: Entry)
    requires Descending(scores)
    ensures Record(scores, e) == Insert(e, scores)
  {
    InsertCorrect(e, scores);
    DescendingIsUnique(Insert(e, scores), Record(scores, e));
  }

  /** Equal points are ordered by initials, highest first. */
  lemma RecordExample()
    ensures Record([Entry(300, "ab")], Entry(300, "zz")) == [Entry(300, "zz"), Entry(300, "ab")]
    ensures Record([Entry(500, "ab")], Entry(300, "zz")) == [Entry(500, "ab"), Entry(300, "zz")]
  {
    assert StringLess("ab", "zz");
    RecordOfSorted([Entry(300, "ab")], Entry(300, "zz"));
    RecordOfSorted([Entry(500, "ab")], Entry(300, "zz"));
  }
}
