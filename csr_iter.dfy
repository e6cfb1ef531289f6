/** `CSRIter`: the row-major iterator over the stored entries of a `CSR`,
    a small state machine over the current row and the stored position. */
module CsrIterator {
  import opened Wrappers
  import opened Rows
  import opened Layout
  import opened CsrMatrix

  class CsrIter {
    const csr: Csr
    var row: nat
    var idx: nat

    /** The iterator's invariant: the row whose span it last reported starts
        at or before the next position, and the position has not run past
        the stored entries. */
    ghost predicate Valid()
      reads this, csr
    {
      csr.Valid() && row <= csr.nRows && csr.rowPtr[row] <= idx <= csr.nNz
    }

    /** The triples still to come, in the order `next` yields them. */
    ghost function Remaining(): seq<Triplet>
      reads this, csr
      requires Valid()
    {
      TriplesOf(csr.rowPtr, Entries(csr.colIdx, csr.val))[idx..]
    }

    /** `CSR::iter`: starts at row 0, position 0. */
    constructor (m: Csr)
      requires m.Valid()
      ensures csr == m && row == 0 && idx == 0
      ensures Valid() && Remaining() == TriplesOf(m.rowPtr, Entries(m.colIdx, m.val))
    {
      csr, row, idx := m, 0, 0;
    }

    /** `Iterator::next`: `None` once every stored entry has been yielded,
        and the state then stays put; otherwise the entry at `idx`, tagged
        with the row whose span holds it, found by moving `row` forward. */
    method Next() returns (item: Option<Triplet>)
      requires Valid()
      modifies this
      ensures Valid()
      ensures item.None? <==> old(idx) >= csr.nNz
      ensures item.None? ==> row == old(row) && idx == old(idx)
      ensures item.Some? ==> idx == old(idx) + 1 && old(row) <= row < csr.nRows
      ensures item.Some? ==> csr.rowPtr[row] <= old(idx) < csr.rowPtr[row + 1]
      ensures item.Some? ==> item.value == (row, csr.colIdx[old(idx)], csr.val[old(idx)])
      ensures item.Some? ==> [item.value] + Remaining() == old(Remaining())
    {
      if idx >= csr.nNz {
        return None;
      }
      while idx >= csr.rowPtr[row + 1]
        invariant idx == old(idx) < csr.nNz
        invariant old(row) <= row < csr.nRows && csr.rowPtr[row] <= idx
        decreases csr.nRows - row
      {
        row := row + 1;
      }
      ghost var ts := TriplesOf(csr.rowPtr, Entries(csr.colIdx, csr.val));
      RowIndexUnique(csr.rowPtr, idx, row, RowIndexFrom(csr.rowPtr, idx, 0));
      assert ts[idx] == (row, csr.colIdx[idx], csr.val[idx]);
      item := Some((row, csr.colIdx[idx], csr.val[idx]));
      idx := idx + 1;
      assert ts[idx - 1..] == [ts[idx - 1]] + ts[idx..];
    }

    /** Runs the iterator to the end, collecting what it yields. */
    method Drain() returns (items: seq<Triplet>)
      requires Valid()
      modifies this
      ensures Valid() && idx == csr.nNz
      ensures items == old(Remaining())
    {
      items := [];
      while true
        invariant Valid()
        invariant items + Remaining() == old(Remaining())
        decreases csr.nNz - idx
      {
        var item := Next();
        match item {
          case None =>
            assert Remaining() == [];
            return;
          case Some(t) =>
            items := items + [t];
        }
      }
    }
  }

  /** `CSR::iter`. */
  method Iter(m: Csr) returns (it: CsrIter)
    requires m.Valid()
    ensures fresh(it) && it.Valid() && it.csr == m && it.row == 0 && it.idx == 0
  {
    it := new CsrIter(m);
  }

  /** `IntoIterator for &CSR`: the same iterator as `CSR::iter`. */
  method IntoIter(m: Csr) returns (it: CsrIter)
    requires m.Valid()
    ensures fresh(it) && it.Valid() && it.csr == m && it.row == 0 && it.idx == 0
  {
    it := Iter(m);
  }

  /** `for (row, col, val) in &m`: exactly `n_nz` items, the k-th being
      `(r, col_idx[k], val[k])` with `k` inside row `r`'s span, rows never
      decreasing along the way. */
  method Enumerate(m: Csr) returns (items: seq<Triplet>)
    requires m.Valid()
    ensures items == TriplesOf(m.rowPtr, Entries(m.colIdx, m.val))
    ensures |items| == m.nNz
    ensures forall k | 0 <= k < |items| ::
      items[k].0 < m.nRows && m.rowPtr[items[k].0] <= k < m.rowPtr[items[k].0 + 1] &&
      items[k].1 == m.colIdx[k] && items[k].2 == m.val[k]
    ensures forall j, k | 0 <= j <= k < |items| :: items[j].0 <= items[k].0
  {
    var it := IntoIter(m);
    items := it.Drain();
  }
}
