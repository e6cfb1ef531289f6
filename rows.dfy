/** One row of a compressed-row matrix, seen as the sequence of its stored
    `(column, value)` entries, and the two operations the matrix performs on
    rows: the stable sort by column used when a matrix is built, and the
    two-pointer merge used when two matrices are added. */
module Rows {

  /** A stored entry of a row: its column index and its value. */
  type Entry = (nat, int)

  predicate NonDecreasing(s: seq<Entry>) {
    forall i, j | 0 <= i < j < |s| :: s[i].0 <= s[j].0
  }

  predicate StrictlyAscending(s: seq<Entry>) {
    forall i, j | 0 <= i < j < |s| :: s[i].0 < s[j].0
  }

  predicate DistinctCols(s: seq<Entry>) {
    forall i, j | 0 <= i < j < |s| :: s[i].0 != s[j].0
  }

  function ColSet(s: seq<Entry>): set<nat> {
    set e | e in s :: e.0
  }

  predicate AllPositive(s: seq<Entry>) {
    forall e | e in s :: e.1 > 0
  }

  /** No column present in both rows has values that sum to exactly zero. */
  predicate NoCancellation(a: seq<Entry>, b: seq<Entry>) {
    forall x, y | x in a && y in b && x.0 == y.0 :: x.1 + y.1 != 0
  }

  /** The value a row holds for column `c`: the first stored entry with that
      column, or the implicit zero when there is none. */
  function Lookup(s: seq<Entry>, c: nat): int {
    if s == [] then 0
    else if s[0].0 == c then s[0].1
    else Lookup(s[1..], c)
  }

  lemma {:induction false} LookupAbsent(s: seq<Entry>, c: nat)
    requires c !in ColSet(s)
    ensures Lookup(s, c) == 0
  {
    if s != [] {
      assert s[0] in s;
      assert ColSet(s[1..]) <= ColSet(s) by {
        forall e | e in s[1..] ensures e in s { }
      }
      LookupAbsent(s[1..], c);
    }
  }

  lemma {:induction false} LookupPresent(s: seq<Entry>, k: nat)
    requires DistinctCols(s) && k < |s|
    ensures Lookup(s, s[k].0) == s[k].1
  {
    if k > 0 {
      assert s[0].0 != s[k].0;
      assert s[1..][k - 1] == s[k];
      LookupPresent(s[1..], k - 1);
    }
  }

  // ---------------------------------------------------------------------------
  // The stable sort by column (`sort_by_key(|(c, _)| *c)`)
  // ---------------------------------------------------------------------------

  /** Inserts `x` after every entry whose column is not greater than its own. */
  function InsertByCol(t: seq<Entry>, x: Entry): seq<Entry> {
    if t == [] || x.0 < t[0].0 then [x] + t
    else [t[0]] + InsertByCol(t[1..], x)
  }

  /** A stable sort by column: insertion of each entry, in input order. */
  function SortByCol(s: seq<Entry>): seq<Entry> {
    if s == [] then [] else InsertByCol(SortByCol(s[..|s| - 1]), s[|s| - 1])
  }

  /** The entries of `s` with column `c`, in their order in `s`. */
  function WithCol(s: seq<Entry>, c: nat): seq<Entry> {
    if s == [] then [] else (if s[0].0 == c then [s[0]] else []) + WithCol(s[1..], c)
  }

  lemma {:induction false} InsertByColMultiset(t: seq<Entry>, x: Entry)
    ensures multiset(InsertByCol(t, x)) == multiset(t) + multiset{x}
  {
    if t != [] && x.0 >= t[0].0 {
      InsertByColMultiset(t[1..], x);
      assert t == [t[0]] + t[1..];
    }
  }

  lemma {:induction false} InsertByColSorted(t: seq<Entry>, x: Entry)
    requires NonDecreasing(t)
    ensures NonDecreasing(InsertByCol(t, x))
  {
    if t == [] || x.0 < t[0].0 {
      forall e | e in t ensures x.0 <= e.0 {
        var k :| 0 <= k < |t| && t[k] == e;
        assert t[0].0 <= t[k].0;
      }
      ConsSorted(x, t);
    } else {
      var rest := InsertByCol(t[1..], x);
      InsertByColSorted(t[1..], x);
      InsertByColMultiset(t[1..], x);
      forall e | e in rest ensures t[0].0 <= e.0 {
        assert e in multiset(rest);
        if e != x {
          assert e in multiset(t[1..]);
          var k :| 0 <= k < |t[1..]| && t[1..][k] == e;
          assert t[0].0 <= t[k + 1].0;
        }
      }
      ConsSorted(t[0], rest);
    }
  }

  /** An entry no greater than any entry of a sorted row can go in front. */
  lemma ConsSorted(h: Entry, rest: seq<Entry>)
    requires NonDecreasing(rest) && forall e | e in rest :: h.0 <= e.0
    ensures NonDecreasing([h] + rest)
  {
    var r := [h] + rest;
    forall i, j | 0 <= i < j < |r| ensures r[i].0 <= r[j].0 {
      assert r[j] == rest[j - 1];
      if i == 0 {
        assert rest[j - 1] in rest;
      } else {
        assert r[i] == rest[i - 1];
      }
    }
  }

  lemma {:induction false} SortByColMultiset(s: seq<Entry>)
    ensures multiset(SortByCol(s)) == multiset(s)
  {
    if s != [] {
      var init := s[..|s| - 1];
      SortByColMultiset(init);
      InsertByColMultiset(SortByCol(init), s[|s| - 1]);
      assert s == init + [s[|s| - 1]];
    }
  }

  lemma {:induction false} SortByColSorted(s: seq<Entry>)
    ensures NonDecreasing(SortByCol(s))
  {
    if s != [] {
      SortByColSorted(s[..|s| - 1]);
      InsertByColSorted(SortByCol(s[..|s| - 1]), s[|s| - 1]);
    }
  }

  lemma {:induction false} WithColAbsent(t: seq<Entry>, c: nat)
    requires forall e | e in t :: e.0 != c
    ensures WithCol(t, c) == []
  {
    if t != [] {
      assert t[0] in t;
      forall e | e in t[1..] ensures e.0 != c {
        assert e in t;
      }
      WithColAbsent(t[1..], c);
    }
  }

  lemma {:induction false} WithColAppend(s: seq<Entry>, x: Entry, c: nat)
    ensures WithCol(s + [x], c) == WithCol(s, c) + (if x.0 == c then [x] else [])
  {
    var tail := if x.0 == c then [x] else [];
    if s == [] {
      assert s + [x] == [x] && [x][1..] == [];
    } else {
      var t := s + [x];
      assert t[0] == s[0] && t[1..] == s[1..] + [x];
      WithColAppend(s[1..], x, c);
      var h := if s[0].0 == c then [s[0]] else [];
      assert WithCol(t, c) == h + (WithCol(s[1..], c) + tail);
      assert h + (WithCol(s[1..], c) + tail) == (h + WithCol(s[1..], c)) + tail;
    }
  }

  lemma {:induction false} InsertByColWithCol(t: seq<Entry>, x: Entry, c: nat)
    requires NonDecreasing(t)
    ensures WithCol(InsertByCol(t, x), c) == WithCol(t, c) + (if x.0 == c then [x] else [])
  {
    if t == [] {
      assert WithCol([x][1..], c) == [];
    } else if x.0 < t[0].0 {
      assert ([x] + t)[1..] == t;
      if x.0 == c {
        forall e | e in t ensures e.0 != c {
          var k :| 0 <= k < |t| && t[k] == e;
          assert t[0].0 <= t[k].0;
        }
        WithColAbsent(t, c);
      }
    } else {
      assert ([t[0]] + InsertByCol(t[1..], x))[1..] == InsertByCol(t[1..], x);
      InsertByColWithCol(t[1..], x, c);
    }
  }

  /** Stability: for every column, the entries with that column keep their
      input order, and none is dropped or merged. */
  lemma {:induction false} SortByColStable(s: seq<Entry>, c: nat)
    ensures WithCol(SortByCol(s), c) == WithCol(s, c)
  {
    if s != [] {
      var init, x := s[..|s| - 1], s[|s| - 1];
      SortByColStable(init, c);
      SortByColSorted(init);
      InsertByColWithCol(SortByCol(init), x, c);
      WithColAppend(init, x, c);
      assert s == init + [x];
    }
  }

  lemma {:induction false} InsertByColAtEnd(t: seq<Entry>, x: Entry)
    requires forall e | e in t :: e.0 <= x.0
    ensures InsertByCol(t, x) == t + [x]
  {
    if t != [] {
      assert t[0] in t;
      forall e | e in t[1..] ensures e.0 <= x.0 {
        assert e in t;
      }
      InsertByColAtEnd(t[1..], x);
      assert t == [t[0]] + t[1..];
    }
  }

  /** Sorting a row that is already in column order leaves it unchanged. */
  lemma {:induction false} SortByColIdentity(s: seq<Entry>)
    requires NonDecreasing(s)
    ensures SortByCol(s) == s
  {
    if s != [] {
      var init, x := s[..|s| - 1], s[|s| - 1];
      SortByColIdentity(init);
      forall e | e in init ensures e.0 <= x.0 {
        var k :| 0 <= k < |init| && init[k] == e;
      }
      InsertByColAtEnd(init, x);
      assert s == init + [x];
    }
  }

  lemma {:induction false} InsertByColDistinct(t: seq<Entry>, x: Entry)
    requires DistinctCols(t) && x.0 !in ColSet(t)
    ensures DistinctCols(InsertByCol(t, x))
  {
    var r := InsertByCol(t, x);
    if t == [] || x.0 < t[0].0 {
      forall i, j | 0 <= i < j < |r| ensures r[i].0 != r[j].0 {
        if i == 0 {
          assert r[j] == t[j - 1] && t[j - 1] in t;
        } else {
          assert r[i] == t[i - 1] && r[j] == t[j - 1];
        }
      }
    } else {
      var rest := InsertByCol(t[1..], x);
      assert t[0] in t;
      assert x.0 !in ColSet(t[1..]) by {
        forall e | e in t[1..] ensures e in t { }
      }
      InsertByColDistinct(t[1..], x);
      InsertByColMultiset(t[1..], x);
      forall i, j | 0 <= i < j < |r| ensures r[i].0 != r[j].0 {
        if i == 0 {
          var e := rest[j - 1];
          assert r[j] == e;
          assert e in multiset(rest);
          if e != x {
            assert e in multiset(t[1..]);
            var k :| 0 <= k < |t[1..]| && t[1..][k] == e;
            assert t[k + 1] == e;
          }
        } else {
          assert r[i] == rest[i - 1] && r[j] == rest[j - 1];
        }
      }
    }
  }

  lemma {:induction false} SortByColDistinct(s: seq<Entry>)
    requires DistinctCols(s)
    ensures DistinctCols(SortByCol(s))
  {
    if s != [] {
      var init, x := s[..|s| - 1], s[|s| - 1];
      SortByColDistinct(init);
      SortByColMultiset(init);
      forall e | e in SortByCol(init) ensures e.0 != x.0 {
        assert e in multiset(SortByCol(init));
        var k :| 0 <= k < |init| && init[k] == e;
        assert s[k] == e;
      }
      InsertByColDistinct(SortByCol(init), x);
    }
  }

  // ---------------------------------------------------------------------------
  // The two-pointer merge of `impl Add for &CSR`
  // ---------------------------------------------------------------------------

  /** The row produced by merging rows `a` and `b`: an entry on one side only
      is copied through; entries with the same column are summed and the sum
      is kept only when it is not zero. */
  function Merge(a: seq<Entry>, b: seq<Entry>): seq<Entry>
    decreases |a| + |b|
  {
    if a == [] then b
    else if b == [] then a
    else if a[0].0 == b[0].0 then
      var sum := a[0].1 + b[0].1;
      (if sum != 0 then [(a[0].0, sum)] else []) + Merge(a[1..], b[1..])
    else if a[0].0 < b[0].0 then [a[0]] + Merge(a[1..], b)
    else [b[0]] + Merge(a, b[1..])
  }

  lemma {:induction false} MergeLength(a: seq<Entry>, b: seq<Entry>)
    ensures |Merge(a, b)| <= |a| + |b|
    decreases |a| + |b|
  {
    if a != [] && b != [] {
      if a[0].0 == b[0].0 {
        MergeLength(a[1..], b[1..]);
      } else if a[0].0 < b[0].0 {
        MergeLength(a[1..], b);
      } else {
        MergeLength(a, b[1..]);
      }
    }
  }

  lemma TailCols(s: seq<Entry>)
    requires s != []
    ensures ColSet(s[1..]) <= ColSet(s)
    ensures ColSet(s) == {s[0].0} + ColSet(s[1..])
  {
    assert s == [s[0]] + s[1..];
    assert s[0] in s;
    forall e | e in s ensures e == s[0] || e in s[1..] {
      var k :| 0 <= k < |s| && s[k] == e;
      if k > 0 { assert s[1..][k - 1] == e; }
    }
  }

  /** Every column of the merged row comes from one of the two rows. */
  lemma {:induction false} MergeColsWithin(a: seq<Entry>, b: seq<Entry>)
    ensures ColSet(Merge(a, b)) <= ColSet(a) + ColSet(b)
    decreases |a| + |b|
  {
    if a != [] && b != [] {
      TailCols(a);
      TailCols(b);
      if a[0].0 == b[0].0 {
        MergeColsWithin(a[1..], b[1..]);
        var sum := a[0].1 + b[0].1;
        TailColsOfCons(if sum != 0 then [(a[0].0, sum)] else [], Merge(a[1..], b[1..]));
      } else if a[0].0 < b[0].0 {
        MergeColsWithin(a[1..], b);
        TailColsOfCons([a[0]], Merge(a[1..], b));
      } else {
        MergeColsWithin(a, b[1..]);
        TailColsOfCons([b[0]], Merge(a, b[1..]));
      }
    }
  }

  lemma TailColsOfCons(h: seq<Entry>, t: seq<Entry>)
    ensures ColSet(h + t) == ColSet(h) + ColSet(t)
  {
    forall e | e in h + t ensures e in h || e in t { }
  }

  lemma NoCancellationTails(a: seq<Entry>, b: seq<Entry>)
    requires a != [] && b != [] && NoCancellation(a, b)
    ensures NoCancellation(a[1..], b) && NoCancellation(a, b[1..]) && NoCancellation(a[1..], b[1..])
    ensures a[0].0 == b[0].0 ==> a[0].1 + b[0].1 != 0
  {
    assert a[0] in a && b[0] in b;
    forall x | x in a[1..] ensures x in a { }
    forall y | y in b[1..] ensures y in b { }
  }

  /** When no shared column cancels, the merged row holds exactly the union
      of the two rows' columns. */
  lemma {:induction false} MergeColsUnion(a: seq<Entry>, b: seq<Entry>)
    requires NoCancellation(a, b)
    ensures ColSet(Merge(a, b)) == ColSet(a) + ColSet(b)
    decreases |a| + |b|
  {
    if a != [] && b != [] {
      NoCancellationTails(a, b);
      if a[0].0 == b[0].0 {
        MergeColsUnion(a[1..], b[1..]);
      } else if a[0].0 < b[0].0 {
        MergeColsUnion(a[1..], b);
      } else {
        MergeColsUnion(a, b[1..]);
      }
      MergeColsUnionStep(a, b);
    }
  }

  /** The step of `MergeColsUnion`: the union law for the rest of the merge
      gives it for the whole. */
  lemma MergeColsUnionStep(a: seq<Entry>, b: seq<Entry>)
    requires a != [] && b != []
    requires a[0].0 == b[0].0 ==> a[0].1 + b[0].1 != 0
    requires a[0].0 == b[0].0 ==> ColSet(Merge(a[1..], b[1..])) == ColSet(a[1..]) + ColSet(b[1..])
    requires a[0].0 < b[0].0 ==> ColSet(Merge(a[1..], b)) == ColSet(a[1..]) + ColSet(b)
    requires a[0].0 > b[0].0 ==> ColSet(Merge(a, b[1..])) == ColSet(a) + ColSet(b[1..])
    ensures ColSet(Merge(a, b)) == ColSet(a) + ColSet(b)
  {
    MergeStepCols(a, b);
  }

  /** One step of the merge, in terms of column sets. */
  lemma MergeStepCols(a: seq<Entry>, b: seq<Entry>)
    requires a != [] && b != []
    requires a[0].0 == b[0].0 ==> a[0].1 + b[0].1 != 0
    ensures a[0].0 == b[0].0 ==> ColSet(Merge(a, b)) == ColSet(Merge(a[1..], b[1..])) + {a[0].0}
    ensures a[0].0 < b[0].0 ==> ColSet(Merge(a, b)) == ColSet(Merge(a[1..], b)) + {a[0].0}
    ensures a[0].0 > b[0].0 ==> ColSet(Merge(a, b)) == ColSet(Merge(a, b[1..])) + {b[0].0}
    ensures ColSet(a) == {a[0].0} + ColSet(a[1..]) && ColSet(b) == {b[0].0} + ColSet(b[1..])
  {
    TailCols(a);
    TailCols(b);
    if a[0].0 == b[0].0 {
      var e := (a[0].0, a[0].1 + b[0].1);
      TailColsOfCons([e], Merge(a[1..], b[1..]));
      assert ColSet([e]) == {a[0].0};
    } else if a[0].0 < b[0].0 {
      TailColsOfCons([a[0]], Merge(a[1..], b));
      assert ColSet([a[0]]) == {a[0].0};
    } else {
      TailColsOfCons([b[0]], Merge(a, b[1..]));
      assert ColSet([b[0]]) == {b[0].0};
    }
  }

  lemma AscendingTail(s: seq<Entry>)
    requires StrictlyAscending(s) && s != []
    ensures StrictlyAscending(s[1..])
    ensures forall c | c in ColSet(s[1..]) :: s[0].0 < c
  {
    forall c | c in ColSet(s[1..]) ensures s[0].0 < c {
      var e :| e in s[1..] && e.0 == c;
      var k :| 0 <= k < |s[1..]| && s[1..][k] == e;
      assert s[k + 1] == e;
    }
  }

  lemma AscendingCons(h: seq<Entry>, t: seq<Entry>)
    requires |h| <= 1 && StrictlyAscending(t)
    requires forall x, c | x in h && c in ColSet(t) :: x.0 < c
    ensures StrictlyAscending(h + t)
  {
    var r := h + t;
    forall i, j | 0 <= i < j < |r| ensures r[i].0 < r[j].0 {
      if i < |h| {
        assert r[i] in h && r[j] == t[j - |h|] && t[j - |h|] in t;
        assert r[j].0 in ColSet(t);
      } else {
        assert r[i] == t[i - |h|] && r[j] == t[j - |h|];
      }
    }
  }

  /** Merging two strictly ascending rows gives a strictly ascending row. */
  lemma {:induction false} MergeAscending(a: seq<Entry>, b: seq<Entry>)
    requires StrictlyAscending(a) && StrictlyAscending(b)
    ensures StrictlyAscending(Merge(a, b))
    decreases |a| + |b|
  {
    if a != [] && b != [] {
      AscendingTail(a);
      AscendingTail(b);
      if a[0].0 == b[0].0 {
        MergeAscending(a[1..], b[1..]);
        MergeColsWithin(a[1..], b[1..]);
        var sum := a[0].1 + b[0].1;
        AscendingCons(if sum != 0 then [(a[0].0, sum)] else [], Merge(a[1..], b[1..]));
      } else if a[0].0 < b[0].0 {
        MergeAscending(a[1..], b);
        MergeColsWithin(a[1..], b);
        forall c | c in ColSet(b) ensures a[0].0 < c {
          if c != b[0].0 { assert c in ColSet(b[1..]) by { TailCols(b); } }
        }
        AscendingCons([a[0]], Merge(a[1..], b));
      } else {
        MergeAscending(a, b[1..]);
        MergeColsWithin(a, b[1..]);
        forall c | c in ColSet(a) ensures b[0].0 < c {
          if c != a[0].0 { assert c in ColSet(a[1..]) by { TailCols(a); } }
        }
        AscendingCons([b[0]], Merge(a, b[1..]));
      }
    }
  }

  /** The pointwise meaning of the merge: for two strictly ascending rows the
      merged row holds, at every column, the sum of the two rows' values there
      (a cancelled pair reads back as the implicit zero). */
  lemma {:induction false} MergeLookup(a: seq<Entry>, b: seq<Entry>, c: nat)
    requires StrictlyAscending(a) && StrictlyAscending(b)
    ensures Lookup(Merge(a, b), c) == Lookup(a, c) + Lookup(b, c)
    decreases |a| + |b|
  {
    if a != [] && b != [] {
      AscendingTail(a);
      AscendingTail(b);
      if a[0].0 == b[0].0 {
        MergeLookup(a[1..], b[1..], c);
        var sum := a[0].1 + b[0].1;
        var h: seq<Entry> := if sum != 0 then [(a[0].0, sum)] else [];
        var m := Merge(a[1..], b[1..]);
        assert Merge(a, b) == h + m;
        if c == a[0].0 {
          LookupAbsent(a[1..], c);
          LookupAbsent(b[1..], c);
          if sum != 0 {
            assert (h + m)[0] == (c, sum);
          } else {
            assert h + m == m;
          }
        } else if sum != 0 {
          assert (h + m)[0].0 != c && (h + m)[1..] == m;
        } else {
          assert h + m == m;
        }
      } else if a[0].0 < b[0].0 {
        MergeLookup(a[1..], b, c);
        if c == a[0].0 {
          TailCols(b);
          LookupAbsent(b, c);
        }
      } else {
        MergeLookup(a, b[1..], c);
        if c == b[0].0 {
          TailCols(a);
          LookupAbsent(a, c);
        }
      }
    }
  }

  /** Rows of positive values merge into a row of positive values, so the
      merge of two such rows never meets a cancelling pair. */
  lemma {:induction false} MergePositive(a: seq<Entry>, b: seq<Entry>)
    requires AllPositive(a) && AllPositive(b)
    ensures AllPositive(Merge(a, b)) && NoCancellation(a, b)
    decreases |a| + |b|
  {
    if a != [] && b != [] {
      assert a[0] in a && b[0] in b;
      assert AllPositive(a[1..]) by { forall e | e in a[1..] ensures e in a { } }
      assert AllPositive(b[1..]) by { forall e | e in b[1..] ensures e in b { } }
      if a[0].0 == b[0].0 {
        MergePositive(a[1..], b[1..]);
      } else if a[0].0 < b[0].0 {
        MergePositive(a[1..], b);
      } else {
        MergePositive(a, b[1..]);
      }
    }
  }

  // ---------------------------------------------------------------------------
  // The merge loop exactly as the source writes it
  // ---------------------------------------------------------------------------

  /** The cursors of the merge loop and the row emitted so far. */
  datatype Cursor = Cursor(li: nat, ri: nat, out: seq<Entry>)

  predicate LoopGuard(a: seq<Entry>, b: seq<Entry>, s: Cursor) {
    s.li < |a| || s.ri < |b|
  }

  /** One iteration of the source's merge loop body. When the two heads have
      the same column and their sum is zero, the source pushes nothing and
      advances neither cursor. */
  function StepAsWritten(a: seq<Entry>, b: seq<Entry>, s: Cursor): (t: Cursor)
    requires s.li <= |a| && s.ri <= |b| && LoopGuard(a, b, s)
    ensures s.li <= t.li <= |a| && s.ri <= t.ri <= |b|
    ensures t.li + t.ri <= s.li + s.ri + 2
    ensures |s.out| <= |t.out| <= |s.out| + 1 && t.out[..|s.out|] == s.out
    ensures t.li + t.ri == s.li + s.ri <==> t == s
  {
    if s.li == |a| then Cursor(s.li, s.ri + 1, s.out + [b[s.ri]])
    else if s.ri == |b| then Cursor(s.li + 1, s.ri, s.out + [a[s.li]])
    else
      var lc, rc := a[s.li].0, b[s.ri].0;
      if lc == rc then
        var sum := a[s.li].1 + b[s.ri].1;
        if sum != 0 then Cursor(s.li + 1, s.ri + 1, s.out + [(lc, sum)]) else s
      else if lc < rc then Cursor(s.li + 1, s.ri, s.out + [a[s.li]])
      else Cursor(s.li, s.ri + 1, s.out + [b[s.ri]])
  }

  /** A cancelling pair of heads is a fixed point of the loop body while the
      loop guard still holds: the source's merge loop never terminates. */
  lemma StepAsWrittenStalls(a: seq<Entry>, b: seq<Entry>, s: Cursor)
    requires s.li < |a| && s.ri < |b|
    requires a[s.li].0 == b[s.ri].0 && a[s.li].1 + b[s.ri].1 == 0
    ensures LoopGuard(a, b, StepAsWritten(a, b, s)) && StepAsWritten(a, b, s) == s
  {
  }

  /** A concrete input on which the source's loop spins: two rows each holding
      column 0, with values 1 and -1. The intended result is the empty row. */
  lemma StallExample()
    ensures var a, b, s := [(0, 1)], [(0, -1)], Cursor(0, 0, []);
      StepAsWritten(a, b, s) == s && LoopGuard(a, b, s) && Merge(a, b) == []
  {
  }

  /** Away from a cancelling pair, one step of the source's loop makes progress
      and agrees with `Merge`: the emitted row followed by the merge of what is
      left is unchanged. */
  lemma StepAsWrittenAgrees(a: seq<Entry>, b: seq<Entry>, s: Cursor)
    requires s.li <= |a| && s.ri <= |b| && LoopGuard(a, b, s)
    requires s.li < |a| && s.ri < |b| && a[s.li].0 == b[s.ri].0 ==> a[s.li].1 + b[s.ri].1 != 0
    ensures var t := StepAsWritten(a, b, s);
      t.li <= |a| && t.ri <= |b| && t.li + t.ri > s.li + s.ri &&
      t.out + Merge(a[t.li..], b[t.ri..]) == s.out + Merge(a[s.li..], b[s.ri..])
  {
    var t := StepAsWritten(a, b, s);
    var x, y := a[s.li..], b[s.ri..];
    if s.li == |a| {
      assert x == [] && y[1..] == b[t.ri..];
      assert y == [y[0]] + y[1..];
    } else if s.ri == |b| {
      assert y == [] && x[1..] == a[t.li..];
      assert x == [x[0]] + x[1..];
    } else {
      assert x[1..] == a[s.li + 1..] && y[1..] == b[s.ri + 1..];
      assert x[0] == a[s.li] && y[0] == b[s.ri];
      var lc, rc := a[s.li].0, b[s.ri].0;
      if lc == rc {
        var e := (lc, a[s.li].1 + b[s.ri].1);
        assert Merge(x, y) == [e] + Merge(x[1..], y[1..]);
        assert t.out + Merge(a[t.li..], b[t.ri..]) == s.out + ([e] + Merge(x[1..], y[1..]));
      } else if lc < rc {
        assert Merge(x, y) == [x[0]] + Merge(x[1..], y);
        assert t.out + Merge(a[t.li..], b[t.ri..]) == s.out + ([x[0]] + Merge(x[1..], y));
      } else {
        assert Merge(x, y) == [y[0]] + Merge(x, y[1..]);
        assert t.out + Merge(a[t.li..], b[t.ri..]) == s.out + ([y[0]] + Merge(x, y[1..]));
      }
    }
  }
}
