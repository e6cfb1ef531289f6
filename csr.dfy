/** The compressed-row sparse matrix `CSR` of the `csr_matrix` crate: its
    batch constructors, point lookup, element-wise addition (`impl Add for
    &CSR`) and in-place addition. Values are counts, modelled as `int`. */
module CsrMatrix {
  import opened Wrappers
  import opened Rows
  import opened Layout

  /** The error `impl Add for &CSR` returns when the shapes differ. */
  const SizeMismatch: string := "Matrices are not the same size"

  class Csr {
    const nRows: nat
    const nCols: nat
    var nNz: nat
    var rowPtr: seq<nat>
    var colIdx: seq<nat>
    var val: seq<int>

    /** The structural invariant: `row_ptr` has `n_rows + 1` offsets, starts
        at 0, never decreases and ends at `n_nz`, which is also the length of
        `col_idx` and of `val`. */
    ghost predicate Valid()
      reads this
    {
      PtrShape(rowPtr, nRows, nNz) && |colIdx| == nNz && |val| == nNz
    }

    /** Row `i` as the `(col, value)` entries of its span. */
    ghost function Row(i: nat): seq<Entry>
      reads this
      requires Valid() && i < nRows
    {
      RowSpan(rowPtr, Entries(colIdx, val), i)
    }

    /** All rows, in order. */
    ghost function Rows(): (rows: seq<seq<Entry>>)
      reads this
      requires Valid()
      ensures |rows| == nRows && forall i | 0 <= i < nRows :: rows[i] == Row(i)
    {
      seq(nRows, i requires 0 <= i < nRows && Valid() reads this => Row(i))
    }

    /** The value of cell `(r, c)`: the first stored entry of row `r` with
        column `c`, or the implicit zero. */
    ghost function At(r: nat, c: nat): int
      reads this
      requires Valid() && r < nRows
    {
      Lookup(Row(r), c)
    }

    ghost predicate RowsSorted()
      reads this
      requires Valid()
    {
      forall i | 0 <= i < nRows :: NonDecreasing(Row(i))
    }

    ghost predicate RowsAscending()
      reads this
      requires Valid()
    {
      forall i | 0 <= i < nRows :: StrictlyAscending(Row(i))
    }

    ghost predicate RowsPositive()
      reads this
      requires Valid()
    {
      forall i | 0 <= i < nRows :: AllPositive(Row(i))
    }

    /** `CSR::new`: an `n_rows x n_cols` matrix that stores nothing. */
    constructor New(nRows: nat, nCols: nat)
      ensures this.nRows == nRows && this.nCols == nCols
      ensures nNz == 0 && rowPtr == seq(nRows + 1, _ => 0) && colIdx == [] && val == []
      ensures Valid() && RowsAscending() && RowsPositive()
      ensures forall r, c | 0 <= r < nRows :: At(r, c) == 0
    {
      this.nRows, this.nCols := nRows, nCols;
      nNz := 0;
      rowPtr := seq(nRows + 1, _ => 0);
      colIdx, val := [], [];
    }

    /** The struct literal `CSR { .. }` that ends each constructor. */
    constructor Make(nRows: nat, nCols: nat, nNz: nat, rowPtr: seq<nat>, colIdx: seq<nat>, val: seq<int>)
      ensures this.nRows == nRows && this.nCols == nCols && this.nNz == nNz
      ensures this.rowPtr == rowPtr && this.colIdx == colIdx && this.val == val
    {
      this.nRows, this.nCols, this.nNz := nRows, nCols, nNz;
      this.rowPtr, this.colIdx, this.val := rowPtr, colIdx, val;
    }

    /** `CSR::from_triplet`: groups the triplets by row, sorts each row stably
        by column and lays the rows out. Duplicate columns are kept. */
    static method FromTriplet(triplets: seq<Triplet>, nRows: nat, nCols: nat) returns (m: Csr)
      requires forall t | t in triplets :: t.0 < nRows
      ensures fresh(m) && m.Valid() && m.nRows == nRows && m.nCols == nCols
      ensures m.rowPtr == Offsets(SortedRows(triplets, nRows))
      ensures Entries(m.colIdx, m.val) == Concat(SortedRows(triplets, nRows))
      ensures forall i | 0 <= i < nRows :: m.Row(i) == SortByCol(GroupRow(triplets, i))
      ensures m.RowsSorted()
      ensures forall i: nat, e: Entry | i < nRows :: multiset(m.Row(i))[e] == multiset(triplets)[(i, e.0, e.1)]
      ensures forall i: nat, c: nat | i < nRows :: WithCol(m.Row(i), c) == WithCol(GroupRow(triplets, i), c)
      ensures forall i | 0 <= i < nRows :: m.rowPtr[i] == m.rowPtr[i + 1] <==> GroupRow(triplets, i) == []
    {
      var rows := GroupByRow(triplets, nRows);
      rows := SortEachRow(rows);
      var rowPtr, colIdx, val, nNz := LayOut(rows);
      m := new Csr.Make(nRows, nCols, nNz, rowPtr, colIdx, val);
      assert rows == SortedRows(triplets, nRows);
      OffsetsLayout(rows);
      forall i | 0 <= i < nRows
        ensures NonDecreasing(m.Row(i))
        ensures multiset(m.Row(i)) == multiset(GroupRow(triplets, i))
      {
        SortByColSorted(GroupRow(triplets, i));
        SortByColMultiset(GroupRow(triplets, i));
      }
      forall i: nat, e: Entry | i < nRows
        ensures multiset(m.Row(i))[e] == multiset(triplets)[(i, e.0, e.1)]
      {
        GroupRowCount(triplets, (i, e.0, e.1));
      }
      forall i: nat, c: nat | i < nRows
        ensures WithCol(m.Row(i), c) == WithCol(GroupRow(triplets, i), c)
      {
        SortByColStable(GroupRow(triplets, i), c);
      }
      forall i | 0 <= i < nRows
        ensures m.rowPtr[i] == m.rowPtr[i + 1] <==> GroupRow(triplets, i) == []
      {
        assert |m.Row(i)| == m.rowPtr[i + 1] - m.rowPtr[i];
        assert |m.Row(i)| == |GroupRow(triplets, i)| by {
          assert |multiset(m.Row(i))| == |multiset(GroupRow(triplets, i))|;
        }
      }
    }

    /** `CSR::from_fxhash`: the same construction from a map keyed by
        `(row, col)`. The map's iteration order is left open; because keys are
        unique, every row comes out strictly ascending and each cell reads
        back the map's value, or zero where the map has no key. */
    static method FromFxHash(fxhash: map<(nat, nat), int>, nRows: nat, nCols: nat) returns (m: Csr)
      requires forall k | k in fxhash :: k.0 < nRows
      ensures fresh(m) && m.Valid() && m.nRows == nRows && m.nCols == nCols
      ensures m.RowsAscending()
      ensures forall i, e | 0 <= i < nRows :: e in m.Row(i) <==> (i, e.0) in fxhash && fxhash[(i, e.0)] == e.1
      ensures forall i: nat, c: nat | i < nRows :: m.At(i, c) == if (i, c) in fxhash then fxhash[(i, c)] else 0
      ensures (forall k | k in fxhash :: fxhash[k] > 0) ==> m.RowsPositive()
    {
      var grouped := GroupMapByRow(fxhash, nRows);
      var rows := SortEachRow(grouped);
      var rowPtr, colIdx, val, nNz := LayOut(rows);
      m := new Csr.Make(nRows, nCols, nNz, rowPtr, colIdx, val);
      OffsetsLayout(rows);
      forall i | 0 <= i < nRows
        ensures StrictlyAscending(m.Row(i))
        ensures forall e :: e in m.Row(i) <==> e in grouped[i]
      {
        SortByColSorted(grouped[i]);
        SortByColDistinct(grouped[i]);
        SortByColMultiset(grouped[i]);
        forall e ensures e in m.Row(i) <==> e in grouped[i] {
          assert e in m.Row(i) <==> e in multiset(m.Row(i));
          assert e in grouped[i] <==> e in multiset(grouped[i]);
        }
      }
      forall i: nat, c: nat | i < nRows
        ensures m.At(i, c) == if (i, c) in fxhash then fxhash[(i, c)] else 0
      {
        var row := m.Row(i);
        if (i, c) in fxhash {
          var e := (c, fxhash[(i, c)]);
          assert e in row;
          var k :| 0 <= k < |row| && row[k] == e;
          LookupPresent(row, k);
        } else {
          LookupAbsent(row, c);
        }
      }
    }

    /** `CSR::value`, with the bounds test rejecting every row and column
        outside the matrix (see `ValueGuardAsWritten` for the source's test). */
    method Value(row: nat, col: nat) returns (r: Option<int>)
      requires Valid()
      ensures r == if row >= nRows || col >= nCols then None else Some(At(row, col))
    {
      if row >= nRows || col >= nCols {
        return None;
      }
      var rowStart := rowPtr[row];
      var rowEnd := rowPtr[row + 1];
      ghost var es := Entries(colIdx, val);
      for i := rowStart to rowEnd
        invariant Lookup(es[i..rowEnd], col) == At(row, col)
      {
        if colIdx[i] == col {
          return Some(val[i]);
        }
        assert es[i..rowEnd][1..] == es[i + 1..rowEnd];
      }
      return Some(0);
    }

    /** `impl Add for &CSR`: fails when the shapes differ; otherwise merges
        the two matrices row by row with two cursors. A pair of equal columns
        whose values sum to zero is dropped and both cursors advance (see
        `Rows.StepAsWritten` for what the source does there). */
    method Add(other: Csr) returns (r: Result<Csr, string>)
      requires Valid() && other.Valid()
      ensures r.Err? <==> nRows != other.nRows || nCols != other.nCols
      ensures r.Err? ==> r.error == SizeMismatch
      ensures r.Ok? ==> fresh(r.value) && r.value.Valid()
      ensures r.Ok? ==> r.value.nRows == nRows && r.value.nCols == nCols
      ensures r.Ok? ==> r.value.nNz <= nNz + other.nNz
      ensures r.Ok? ==> forall i | 0 <= i < nRows :: r.value.Row(i) == Merge(Row(i), other.Row(i))
    {
      if nRows != other.nRows || nCols != other.nCols {
        return Err(SizeMismatch);
      }
      var rp: seq<nat> := [0];
      var ci: seq<nat> := [];
      var vs: seq<int> := [];
      ghost var merged: seq<seq<Entry>> := [];
      for i := 0 to nRows
        invariant |ci| == |vs| && |merged| == i
        invariant rp == Offsets(merged) && Entries(ci, vs) == Concat(merged)
        invariant forall k | 0 <= k < i :: merged[k] == Merge(Row(k), other.Row(k))
        invariant |ci| <= rowPtr[i] + other.rowPtr[i]
      {
        ci, vs := MergeSpans(colIdx, val, rowPtr[i], rowPtr[i + 1],
                             other.colIdx, other.val, other.rowPtr[i], other.rowPtr[i + 1], ci, vs);
        merged := merged + [Merge(Row(i), other.Row(i))];
        assert merged[..i] == merged[..|merged| - 1];
        rp := rp + [|ci|];
      }
      OffsetsLayout(merged);
      var sum := new Csr.Make(nRows, nCols, |vs|, rp, ci, vs);
      r := Ok(sum);
    }

    /** `CSR::add_in_place`: on a shape mismatch the error is returned and
        the matrix is untouched; otherwise `n_nz`, `row_ptr`, `col_idx` and
        `val` are replaced by those of `self + other`. */
    method AddInPlace(other: Csr) returns (r: Outcome<string>)
      requires Valid() && other.Valid() && other != this
      modifies this
      ensures Valid()
      ensures r.Fail? <==> nRows != other.nRows || nCols != other.nCols
      ensures r.Fail? ==> r.error == SizeMismatch && unchanged(this)
      ensures r.Pass? ==> nNz <= old(nNz) + other.nNz
      ensures r.Pass? ==> forall i | 0 <= i < nRows :: Row(i) == Merge(old(Row(i)), other.Row(i))
    {
      var res := Add(other);
      if res.Err? {
        return Fail(res.error);
      }
      var sum := res.value;
      nNz, rowPtr, colIdx, val := sum.nNz, sum.rowPtr, sum.colIdx, sum.val;
      assert forall i | 0 <= i < nRows :: Row(i) == sum.Row(i);
      r := Pass;
    }
  }

  /** What `self + other` means cell by cell, for a matrix `s` whose rows are
      the merges of the rows `a` of the left operand with those of `b`: when
      both operands keep their rows strictly ascending, so does `s`, and
      every cell of `s` is the sum of the two cells (a column stored in only
      one operand is copied through). When both operands store only positive
      values, so does `s`, and its columns are the union of the operands'. */
  lemma SumCells(a: seq<seq<Entry>>, b: Csr, s: Csr)
    requires b.Valid() && s.Valid() && |a| == b.nRows == s.nRows
    requires forall i | 0 <= i < |a| :: s.Row(i) == Merge(a[i], b.Row(i))
    requires (forall i | 0 <= i < |a| :: StrictlyAscending(a[i])) && b.RowsAscending()
    ensures s.RowsAscending()
    ensures forall i: nat, c: nat | i < |a| :: s.At(i, c) == Lookup(a[i], c) + b.At(i, c)
    ensures (forall i | 0 <= i < |a| :: AllPositive(a[i])) && b.RowsPositive() ==>
      s.RowsPositive() &&
      forall i | 0 <= i < |a| :: ColSet(s.Row(i)) == ColSet(a[i]) + ColSet(b.Row(i))
  {
    forall i | 0 <= i < |a| ensures StrictlyAscending(s.Row(i)) {
      MergeAscending(a[i], b.Row(i));
    }
    forall i: nat, c: nat | i < |a| ensures s.At(i, c) == Lookup(a[i], c) + b.At(i, c) {
      MergeLookup(a[i], b.Row(i), c);
    }
    if (forall i | 0 <= i < |a| :: AllPositive(a[i])) && b.RowsPositive() {
      forall i | 0 <= i < |a|
        ensures AllPositive(s.Row(i)) && ColSet(s.Row(i)) == ColSet(a[i]) + ColSet(b.Row(i))
      {
        MergePositive(a[i], b.Row(i));
        MergeColsUnion(a[i], b.Row(i));
      }
    }
  }

  lemma AppendAssoc(a: seq<Entry>, b: seq<Entry>, c: seq<Entry>)
    ensures (a + b) + c == a + (b + c)
  {
  }

  /** A turn of the merge loop that copies the head of the lhs span through:
      the rhs span is used up or its head has a larger column. */
  lemma MergeTurnLhs(lhs: seq<Entry>, rhs: seq<Entry>, li: nat, le: nat, ri: nat, re: nat)
    requires li < le <= |lhs| && ri <= re <= |rhs|
    requires ri < re ==> lhs[li].0 < rhs[ri].0
    ensures Merge(lhs[li..le], rhs[ri..re]) == [lhs[li]] + Merge(lhs[li + 1..le], rhs[ri..re])
  {
    var x := lhs[li..le];
    assert x[0] == lhs[li] && x[1..] == lhs[li + 1..le];
    if ri < re {
      assert rhs[ri..re][0] == rhs[ri];
    }
  }

  /** A turn of the merge loop that copies the head of the rhs span through:
      the lhs span is used up or its head has a larger column. */
  lemma MergeTurnRhs(lhs: seq<Entry>, rhs: seq<Entry>, li: nat, le: nat, ri: nat, re: nat)
    requires li <= le <= |lhs| && ri < re <= |rhs|
    requires li < le ==> lhs[li].0 > rhs[ri].0
    ensures Merge(lhs[li..le], rhs[ri..re]) == [rhs[ri]] + Merge(lhs[li..le], rhs[ri + 1..re])
  {
    var y := rhs[ri..re];
    assert y[0] == rhs[ri] && y[1..] == rhs[ri + 1..re];
    if li < le {
      assert lhs[li..le][0] == lhs[li];
    }
  }

  /** A turn of the merge loop on two heads with the same column: their sum
      is emitted unless it is zero, and both spans advance. */
  lemma MergeTurnBoth(lhs: seq<Entry>, rhs: seq<Entry>, li: nat, le: nat, ri: nat, re: nat)
    requires li < le <= |lhs| && ri < re <= |rhs| && lhs[li].0 == rhs[ri].0
    ensures var sum := lhs[li].1 + rhs[ri].1;
      Merge(lhs[li..le], rhs[ri..re])
        == (if sum != 0 then [(lhs[li].0, sum)] else []) + Merge(lhs[li + 1..le], rhs[ri + 1..re])
  {
    var x, y := lhs[li..le], rhs[ri..re];
    assert x[0] == lhs[li] && x[1..] == lhs[li + 1..le];
    assert y[0] == rhs[ri] && y[1..] == rhs[ri + 1..re];
  }

  /** One turn of the two-pointer merge of `impl Add for &CSR`: compare the
      heads of the lhs span `[li, le)` and the rhs span `[ri, re)`, push the
      smaller, or the nonzero sum of two heads of one column, onto `col_idx`
      and `val`, and advance past what was consumed. On two heads that cancel
      both cursors advance, which the source as written does not do (see
      `Rows.StepAsWritten`). What it pushes is the head of what is left to
      merge. */
  method MergeStep(lc: seq<nat>, lv: seq<int>, li: nat, le: nat,
                   rc: seq<nat>, rv: seq<int>, ri: nat, re: nat,
                   ci: seq<nat>, vs: seq<int>)
    returns (li': nat, ri': nat, ci': seq<nat>, vs': seq<int>, ghost emitted: seq<Entry>)
    requires |lc| == |lv| && li <= le <= |lc|
    requires |rc| == |rv| && ri <= re <= |rc|
    requires |ci| == |vs| && (li < le || ri < re)
    ensures li <= li' <= le && ri <= ri' <= re && li + ri < li' + ri'
    ensures |ci'| == |vs'| && |ci'| - |ci| <= (li' - li) + (ri' - ri)
    ensures Entries(ci', vs') == Entries(ci, vs) + emitted
    ensures Merge(Entries(lc, lv)[li..le], Entries(rc, rv)[ri..re])
      == emitted + Merge(Entries(lc, lv)[li'..le], Entries(rc, rv)[ri'..re])
  {
    ghost var lhs, rhs := Entries(lc, lv), Entries(rc, rv);
    li', ri', ci', vs' := li, ri, ci, vs;
    if li == le {
      MergeTurnRhs(lhs, rhs, li, le, ri, re);
      emitted := [(rc[ri], rv[ri])];
      EntriesAppend(ci, vs, rc[ri], rv[ri]);
      ci', vs' := ci + [rc[ri]], vs + [rv[ri]];
      ri' := ri + 1;
    } else if ri == re {
      MergeTurnLhs(lhs, rhs, li, le, ri, re);
      emitted := [(lc[li], lv[li])];
      EntriesAppend(ci, vs, lc[li], lv[li]);
      ci', vs' := ci + [lc[li]], vs + [lv[li]];
      li' := li + 1;
    } else {
      var lhsCol, rhsCol := lc[li], rc[ri];
      if lhsCol == rhsCol {
        MergeTurnBoth(lhs, rhs, li, le, ri, re);
        var sum := lv[li] + rv[ri];
        if sum != 0 {
          emitted := [(lhsCol, sum)];
          EntriesAppend(ci, vs, lhsCol, sum);
          ci', vs' := ci + [lhsCol], vs + [sum];
        } else {
          emitted := [];
        }
        li', ri' := li + 1, ri + 1;
      } else if lhsCol < rhsCol {
        MergeTurnLhs(lhs, rhs, li, le, ri, re);
        emitted := [(lhsCol, lv[li])];
        EntriesAppend(ci, vs, lhsCol, lv[li]);
        ci', vs' := ci + [lhsCol], vs + [lv[li]];
        li' := li + 1;
      } else {
        MergeTurnRhs(lhs, rhs, li, le, ri, re);
        emitted := [(rhsCol, rv[ri])];
        EntriesAppend(ci, vs, rhsCol, rv[ri]);
        ci', vs' := ci + [rhsCol], vs + [rv[ri]];
        ri' := ri + 1;
      }
    }
  }

  /** The body of the row loop of `impl Add for &CSR`: the two-pointer merge
      of the lhs span `[ls, le)` with the rhs span `[rs, re)`, pushing onto
      `col_idx` and `val`. */
  method MergeSpans(lc: seq<nat>, lv: seq<int>, ls: nat, le: nat,
                    rc: seq<nat>, rv: seq<int>, rs: nat, re: nat,
                    ci: seq<nat>, vs: seq<int>) returns (ci': seq<nat>, vs': seq<int>)
    requires |lc| == |lv| && ls <= le <= |lc|
    requires |rc| == |rv| && rs <= re <= |rc|
    requires |ci| == |vs|
    ensures |ci'| == |vs'| && |ci'| <= |ci| + (le - ls) + (re - rs)
    ensures Entries(ci', vs') == Entries(ci, vs) + Merge(Entries(lc, lv)[ls..le], Entries(rc, rv)[rs..re])
  {
    ghost var lhs, rhs := Entries(lc, lv), Entries(rc, rv);
    ci', vs' := ci, vs;
    var li, ri := ls, rs;
    while li < le || ri < re
      invariant ls <= li <= le && rs <= ri <= re
      invariant |ci'| == |vs'| && |ci'| - |ci| <= (li - ls) + (ri - rs)
      invariant Entries(ci', vs') + Merge(lhs[li..le], rhs[ri..re]) == Entries(ci, vs) + Merge(lhs[ls..le], rhs[rs..re])
      decreases (le - li) + (re - ri)
    {
      ghost var out, emitted;
      out := Entries(ci', vs');
      li, ri, ci', vs', emitted := MergeStep(lc, lv, li, le, rc, rv, ri, re, ci', vs');
      AppendAssoc(out, emitted, Merge(lhs[li..le], rhs[ri..re]));
    }
    assert lhs[li..le] == [] && rhs[ri..re] == [];
  }

  /** The first loop of the batch constructors: `rows[r].push((c, v))` for
      each triplet in input order. */
  method GroupByRow(triplets: seq<Triplet>, nRows: nat) returns (rows: seq<seq<Entry>>)
    requires forall t | t in triplets :: t.0 < nRows
    ensures |rows| == nRows
    ensures forall i | 0 <= i < nRows :: rows[i] == GroupRow(triplets, i)
  {
    rows := seq(nRows, _ => []);
    for k := 0 to |triplets|
      invariant |rows| == nRows
      invariant forall i | 0 <= i < nRows :: rows[i] == GroupRow(triplets[..k], i)
    {
      assert triplets[k] in triplets;
      var (r, c, v) := triplets[k];
      rows := rows[r := rows[r] + [(c, v)]];
      assert triplets[..k + 1][..k] == triplets[..k];
    }
    assert triplets[..|triplets|] == triplets;
  }

  /** The first loop of `from_fxhash`: each key `(r, c)` of the map, in an
      order the map chooses, pushes `(c, map[(r, c)])` onto row `r`. */
  method GroupMapByRow(fxhash: map<(nat, nat), int>, nRows: nat) returns (rows: seq<seq<Entry>>)
    requires forall k | k in fxhash :: k.0 < nRows
    ensures |rows| == nRows
    ensures forall i | 0 <= i < nRows :: DistinctCols(rows[i])
    ensures forall i, e | 0 <= i < nRows :: e in rows[i] <==> (i, e.0) in fxhash && fxhash[(i, e.0)] == e.1
  {
    rows := seq(nRows, _ => []);
    var pending := fxhash.Keys;
    while pending != {}
      invariant pending <= fxhash.Keys && |rows| == nRows
      invariant forall i | 0 <= i < nRows :: DistinctCols(rows[i])
      invariant forall i, e | 0 <= i < nRows ::
        e in rows[i] <==> (i, e.0) in fxhash && (i, e.0) !in pending && fxhash[(i, e.0)] == e.1
      decreases pending
    {
      var key :| key in pending;
      var (r, c) := key;
      var entry := (c, fxhash[key]);
      forall e | e in rows[r] ensures e.0 != c { }
      rows := rows[r := rows[r] + [entry]];
      pending := pending - {key};
    }
  }

  /** The second loop of the batch constructors: `sort_by_key` on every row. */
  method SortEachRow(rows: seq<seq<Entry>>) returns (sorted: seq<seq<Entry>>)
    ensures |sorted| == |rows|
    ensures forall i | 0 <= i < |rows| :: sorted[i] == SortByCol(rows[i])
  {
    sorted := rows;
    for i := 0 to |rows|
      invariant |sorted| == |rows|
      invariant forall k | 0 <= k < i :: sorted[k] == SortByCol(rows[k])
      invariant forall k | i <= k < |rows| :: sorted[k] == rows[k]
    {
      sorted := sorted[i := SortByCol(sorted[i])];
    }
  }

  /** The last loop of the batch constructors: push 0, then for each row push
      its entries and the new end offset (an empty row repeats the last
      offset). */
  method LayOut(rows: seq<seq<Entry>>) returns (rowPtr: seq<nat>, colIdx: seq<nat>, val: seq<int>, nNz: nat)
    ensures |colIdx| == nNz && |val| == nNz
    ensures rowPtr == Offsets(rows) && Entries(colIdx, val) == Concat(rows)
  {
    rowPtr, colIdx, val, nNz := [0], [], [], 0;
    for i := 0 to |rows|
      invariant |colIdx| == nNz && |val| == nNz
      invariant rowPtr == Offsets(rows[..i]) && Entries(colIdx, val) == Concat(rows[..i])
    {
      assert rows[..i + 1][..i] == rows[..i];
      var row := rows[i];
      if row == [] {
        assert Concat(rows[..i + 1]) == Concat(rows[..i]);
        assert rowPtr[|rowPtr| - 1] == |Concat(rows[..i])| by { OffsetsLayout(rows[..i]); }
        rowPtr := rowPtr + [rowPtr[|rowPtr| - 1]];
        continue;
      }
      for j := 0 to |row|
        invariant |colIdx| == nNz && |val| == nNz
        invariant Entries(colIdx, val) == Concat(rows[..i]) + row[..j]
      {
        EntriesAppend(colIdx, val, row[j].0, row[j].1);
        colIdx, val := colIdx + [row[j].0], val + [row[j].1];
        nNz := nNz + 1;
        assert row[..j + 1] == row[..j] + [row[j]];
      }
      assert row[..|row|] == row;
      rowPtr := rowPtr + [|colIdx|];
    }
    assert rows[..|rows|] == rows;
  }

  /** The bounds test of `value` as the source writes it: `row > n_rows ||
      col > n_cols`. */
  predicate ValueGuardAsWritten(nRows: nat, nCols: nat, row: nat, col: nat): (rejects: bool)
    ensures rejects ==> row >= nRows || col >= nCols
  {
    row > nRows || col > nCols
  }

  /** The source's test lets `row == n_rows` through, and the lookup that
      follows reads `row_ptr[row + 1]`, one past the end of `row_ptr`. It
      also lets `col == n_cols` through, where the scan finds no entry of a
      row whose columns are below `n_cols` and answers `Some(0)`, while
      `Value` answers `None` for both. */
  lemma ValueGuardAsWrittenAdmitsLastRow(m: Csr)
    requires m.Valid()
    ensures !ValueGuardAsWritten(m.nRows, m.nCols, m.nRows, 0) && |m.rowPtr| == m.nRows + 1
    ensures !ValueGuardAsWritten(m.nRows, m.nCols, 0, m.nCols)
  {
  }
}
