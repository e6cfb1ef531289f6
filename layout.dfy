/** How a compressed-row matrix lays its rows out in `row_ptr`, `col_idx` and
    `val`, stated on plain sequences: the shape invariant of `row_ptr`, the
    layout built from a list of rows, the grouping of triplets by row that the
    batch constructors perform, and the row-major enumeration of the stored
    entries that the iterator yields. */
module Layout {
  import opened Rows

  /** A triplet `(row, col, value)`. */
  type Triplet = (nat, nat, int)

  predicate Monotone(rowPtr: seq<nat>) {
    forall i, j | 0 <= i <= j < |rowPtr| :: rowPtr[i] <= rowPtr[j]
  }

  /** `row_ptr` has one offset per row plus one, starts at 0, never decreases
      and ends at the number of stored entries. */
  predicate PtrShape(rowPtr: seq<nat>, nRows: nat, nNz: nat) {
    |rowPtr| == nRows + 1 && rowPtr[0] == 0 && rowPtr[nRows] == nNz && Monotone(rowPtr)
  }

  /** `PtrShape` for whatever number of rows `row_ptr` describes. */
  predicate WellShaped(rowPtr: seq<nat>, nNz: nat) {
    |rowPtr| > 0 && PtrShape(rowPtr, |rowPtr| - 1, nNz)
  }

  /** The parallel arrays `col_idx` and `val` as one sequence of entries. */
  function Entries(colIdx: seq<nat>, val: seq<int>): (es: seq<Entry>)
    requires |colIdx| == |val|
    ensures |es| == |colIdx|
  {
    seq(|colIdx|, k requires 0 <= k < |colIdx| => (colIdx[k], val[k]))
  }

  lemma EntriesAppend(colIdx: seq<nat>, val: seq<int>, c: nat, v: int)
    requires |colIdx| == |val|
    ensures Entries(colIdx + [c], val + [v]) == Entries(colIdx, val) + [(c, v)]
  {
  }

  /** The row `i` of a layout: the entries of its span. */
  function RowSpan(rowPtr: seq<nat>, es: seq<Entry>, i: nat): seq<Entry>
    requires WellShaped(rowPtr, |es|) && i + 1 < |rowPtr|
  {
    es[rowPtr[i]..rowPtr[i + 1]]
  }

  /** The entries of the rows, one row after the other. */
  function Concat(rows: seq<seq<Entry>>): seq<Entry> {
    if rows == [] then [] else Concat(rows[..|rows| - 1]) + rows[|rows| - 1]
  }

  /** The `row_ptr` of the rows laid out one after the other. */
  function Offsets(rows: seq<seq<Entry>>): seq<nat> {
    if rows == [] then [0] else Offsets(rows[..|rows| - 1]) + [|Concat(rows)|]
  }

  /** Laying rows out one after the other gives a well-shaped `row_ptr`, and
      the span of row `i` holds exactly that row. */
  lemma {:induction false} OffsetsLayout(rows: seq<seq<Entry>>)
    ensures PtrShape(Offsets(rows), |rows|, |Concat(rows)|)
    ensures forall i | 0 <= i < |rows| :: RowSpan(Offsets(rows), Concat(rows), i) == rows[i]
  {
    if rows != [] {
      var init, last := rows[..|rows| - 1], rows[|rows| - 1];
      OffsetsLayout(init);
      var o, c := Offsets(init), Concat(init);
      assert Offsets(rows) == o + [|c| + |last|];
      assert Concat(rows) == c + last;
      forall i | 0 <= i < |rows|
        ensures RowSpan(Offsets(rows), Concat(rows), i) == rows[i]
      {
        if i < |init| {
          assert o[i] <= o[i + 1] <= o[|init|] == |c|;
          assert (c + last)[o[i]..o[i + 1]] == c[o[i]..o[i + 1]];
        } else {
          assert (c + last)[|c|..|c| + |last|] == last;
        }
      }
    }
  }

  /** The first `n - 1` rows of a layout, cut off where row `n - 1` begins,
      are a layout of their own with the same spans. */
  lemma PrefixLayout(rowPtr: seq<nat>, es: seq<Entry>, n: nat)
    requires WellShaped(rowPtr, |es|) && 0 < n < |rowPtr|
    ensures rowPtr[n - 1] <= |es|
    ensures PtrShape(rowPtr[..n], n - 1, rowPtr[n - 1])
    ensures forall i | 0 <= i < n - 1 ::
      RowSpan(rowPtr[..n], es[..rowPtr[n - 1]], i) == RowSpan(rowPtr, es, i)
  {
    assert rowPtr[n - 1] <= rowPtr[|rowPtr| - 1];
    forall i | 0 <= i < n - 1
      ensures RowSpan(rowPtr[..n], es[..rowPtr[n - 1]], i) == RowSpan(rowPtr, es, i)
    {
      assert rowPtr[i] <= rowPtr[i + 1] <= rowPtr[n - 1];
    }
  }

  /** A layout is determined by its rows: any well-shaped `row_ptr` and entry
      sequence whose spans are `rows` are the layout `Offsets`/`Concat` of
      `rows`. */
  lemma {:induction false} LayoutDeterminedByRows(rowPtr: seq<nat>, es: seq<Entry>, rows: seq<seq<Entry>>)
    requires PtrShape(rowPtr, |rows|, |es|)
    requires forall i | 0 <= i < |rows| :: RowSpan(rowPtr, es, i) == rows[i]
    ensures Offsets(rows) == rowPtr && Concat(rows) == es
    decreases |rows|
  {
    if rows == [] {
      assert es == [];
    } else {
      var n := |rows|;
      PrefixLayout(rowPtr, es, n);
      var rp', es', init := rowPtr[..n], es[..rowPtr[n - 1]], rows[..n - 1];
      assert forall i | 0 <= i < n - 1 :: RowSpan(rp', es', i) == init[i];
      LayoutDeterminedByRows(rp', es', init);
      assert RowSpan(rowPtr, es, n - 1) == rows[n - 1];
      assert rowPtr == rp' + [rowPtr[n]];
      assert es == es' + es[rowPtr[n - 1]..rowPtr[n]];
    }
  }

  // ---------------------------------------------------------------------------
  // Grouping triplets by row
  // ---------------------------------------------------------------------------

  /** The `(col, value)` pairs that `rows[r].push((c, v))` collects for row `i`,
      in input order. */
  function GroupRow(ts: seq<Triplet>, i: nat): seq<Entry> {
    if ts == [] then []
    else
      var t := ts[|ts| - 1];
      GroupRow(ts[..|ts| - 1], i) + (if t.0 == i then [(t.1, t.2)] else [])
  }

  /** The rows `from_triplet` lays out: each row's pairs, stably sorted by column. */
  function SortedRows(ts: seq<Triplet>, nRows: nat): (rows: seq<seq<Entry>>)
    ensures |rows| == nRows
  {
    seq(nRows, i requires 0 <= i < nRows => SortByCol(GroupRow(ts, i)))
  }

  /** Every triplet `(r, c, v)` of the input occurs in row `r`, as the entry
      `(c, v)`, exactly as often as it occurs in the input. */
  lemma {:induction false} GroupRowCount(ts: seq<Triplet>, t: Triplet)
    ensures multiset(GroupRow(ts, t.0))[(t.1, t.2)] == multiset(ts)[t]
  {
    if ts != [] {
      var init, last := ts[..|ts| - 1], ts[|ts| - 1];
      GroupRowCount(init, t);
      assert ts == init + [last];
      if last.0 == t.0 && (last.1, last.2) == (t.1, t.2) {
        assert last == t;
      }
    }
  }

  // ---------------------------------------------------------------------------
  // The row-major enumeration of the stored entries
  // ---------------------------------------------------------------------------

  /** The row whose span holds stored position `k`, searching from row `r`
      upwards, as the iterator's row-advance loop does. */
  function RowIndexFrom(rowPtr: seq<nat>, k: nat, r: nat): (row: nat)
    requires Monotone(rowPtr) && r + 1 < |rowPtr|
    requires rowPtr[r] <= k < rowPtr[|rowPtr| - 1]
    ensures r <= row && row + 1 < |rowPtr| && rowPtr[row] <= k < rowPtr[row + 1]
    decreases |rowPtr| - r
  {
    if k < rowPtr[r + 1] then r else RowIndexFrom(rowPtr, k, r + 1)
  }

  /** Only one row's span holds a given position. */
  lemma RowIndexUnique(rowPtr: seq<nat>, k: nat, r1: nat, r2: nat)
    requires Monotone(rowPtr) && r1 + 1 < |rowPtr| && r2 + 1 < |rowPtr|
    requires rowPtr[r1] <= k < rowPtr[r1 + 1] && rowPtr[r2] <= k < rowPtr[r2 + 1]
    ensures r1 == r2
  {
  }

  /** The `(row, col, value)` triples of a layout in row-major order. */
  function TriplesOf(rowPtr: seq<nat>, es: seq<Entry>): (ts: seq<Triplet>)
    requires WellShaped(rowPtr, |es|)
    ensures |ts| == |es|
  {
    seq(|es|, k requires 0 <= k < |es| => (RowIndexFrom(rowPtr, k, 0), es[k].0, es[k].1))
  }

  function Min(x: nat, y: nat): nat { if x <= y then x else y }

  /** Grouping one more triple of a prefix adds its pair when it is in row `i`. */
  lemma GroupRowStep(ts: seq<Triplet>, i: nat, k: nat)
    requires 0 < k <= |ts|
    ensures GroupRow(ts[..k], i) ==
      GroupRow(ts[..k - 1], i) + (if ts[k - 1].0 == i then [(ts[k - 1].1, ts[k - 1].2)] else [])
  {
    assert ts[..k][..k - 1] == ts[..k - 1];
  }

  /** Moving the end of a prefix one position on grows the part of the span
      `a..b` it covers by that position exactly when the span holds it. */
  lemma SpanPrefixStep(es: seq<Entry>, a: nat, b: nat, k: nat)
    requires a <= b <= |es| && 0 < k <= |es|
    ensures es[Min(a, k)..Min(b, k)] ==
      es[Min(a, k - 1)..Min(b, k - 1)] + (if a <= k - 1 < b then [es[k - 1]] else [])
  {
    if a <= k - 1 < b {
      assert es[a..k] == es[a..k - 1] + [es[k - 1]];
    }
  }

  /** Grouping a prefix of the enumeration by row gives the part of each row's
      span that the prefix covers. */
  lemma {:induction false} GroupRowOfTriplesPrefix(rowPtr: seq<nat>, es: seq<Entry>, i: nat, k: nat)
    requires WellShaped(rowPtr, |es|) && i + 1 < |rowPtr| && k <= |es|
    ensures GroupRow(TriplesOf(rowPtr, es)[..k], i) == es[Min(rowPtr[i], k)..Min(rowPtr[i + 1], k)]
  {
    if k > 0 {
      var ts := TriplesOf(rowPtr, es);
      GroupRowOfTriplesPrefix(rowPtr, es, i, k - 1);
      GroupRowStep(ts, i, k);
      var r := RowIndexFrom(rowPtr, k - 1, 0);
      assert ts[k - 1] == (r, es[k - 1].0, es[k - 1].1);
      assert rowPtr[i] <= rowPtr[i + 1] <= |es|;
      SpanPrefixStep(es, rowPtr[i], rowPtr[i + 1], k);
      if r < i {
        assert rowPtr[r + 1] <= rowPtr[i];
      } else if r > i {
        assert rowPtr[i + 1] <= rowPtr[r];
      }
    }
  }

  /** Building a matrix from its own enumeration reproduces it: when every row
      is already in column order, grouping the triples by row and sorting each
      row gives back the same `row_ptr` and the same entries. */
  lemma FromTripletOfTriplesIdentity(rowPtr: seq<nat>, es: seq<Entry>, nRows: nat)
    requires PtrShape(rowPtr, nRows, |es|)
    requires forall i | 0 <= i < nRows :: NonDecreasing(RowSpan(rowPtr, es, i))
    ensures Offsets(SortedRows(TriplesOf(rowPtr, es), nRows)) == rowPtr
    ensures Concat(SortedRows(TriplesOf(rowPtr, es), nRows)) == es
  {
    var ts := TriplesOf(rowPtr, es);
    var rows := SortedRows(ts, nRows);
    forall i | 0 <= i < nRows ensures RowSpan(rowPtr, es, i) == rows[i] {
      GroupRowOfTriplesPrefix(rowPtr, es, i, |es|);
      assert ts[..|es|] == ts;
      assert rowPtr[i + 1] <= rowPtr[nRows];
      SortByColIdentity(RowSpan(rowPtr, es, i));
    }
    LayoutDeterminedByRows(rowPtr, es, rows);
  }
}
