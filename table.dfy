/**
 * Row selection by a boolean mask, as `df[mask]` does it: the rows whose mask
 * entry is true are kept, in their original order, and nothing else.
 */
module Table {

  /** The rows of `rows` for which `keep` holds, in their original order. */
  function Where<T(==)>(rows: seq<T>, keep: T -> bool): (view: seq<T>)
    ensures |view| <= |rows|
  {
    if rows == [] then []
    else
      var last := rows[|rows| - 1];
      Where(rows[..|rows| - 1], keep) + (if keep(last) then [last] else [])
  }

  /** A value is in the view exactly when it is a row of the table that passes the mask. */
  lemma {:induction false} WhereMembers<T(!new)>(rows: seq<T>, keep: T -> bool)
    ensures forall x :: x in Where(rows, keep) <==> x in rows && keep(x)
  {
    if rows != [] {
      var n := |rows| - 1;
      WhereMembers(rows[..n], keep);
      assert rows == rows[..n] + [rows[n]];
    }
  }

  /** The positions in `rows` whose mask entry is true, in increasing order. */
  function KeptIndices<T>(rows: seq<T>, keep: T -> bool): seq<nat>
  {
    if rows == [] then []
    else
      KeptIndices(rows[..|rows| - 1], keep) + (if keep(rows[|rows| - 1]) then [|rows| - 1] else [])
  }

  /**
   * `view` is picked out of `rows` by the strictly increasing positions `idx`,
   * and a position is picked exactly when its row passes `keep`.
   */
  ghost predicate OrderedSelection<T>(view: seq<T>, rows: seq<T>, keep: T -> bool, idx: seq<nat>)
  {
    && |idx| == |view|
    && (forall k :: 0 <= k < |idx| ==> idx[k] < |rows| && view[k] == rows[idx[k]])
    && (forall k, l :: 0 <= k < l < |idx| ==> idx[k] < idx[l])
    && (forall j :: 0 <= j < |rows| ==> (keep(rows[j]) <==> j in idx))
  }

  /**
   * The mask keeps a subsequence of the table: every row that passes appears,
   * at its own position and in the original order, and no other row does.
   */
  lemma {:induction false} KeptIndicesSelect<T(!new)>(rows: seq<T>, keep: T -> bool)
    ensures OrderedSelection(Where(rows, keep), rows, keep, KeptIndices(rows, keep))
  {
    if rows != [] {
      var n := |rows| - 1;
      var prefix := rows[..n];
      KeptIndicesSelect(prefix, keep);
      var idx0 := KeptIndices(prefix, keep);
      forall k | 0 <= k < |idx0|
        ensures idx0[k] < n
      {
      }
    }
  }

  /** Each row that passes appears as often as in the table; the others not at all. */
  lemma {:induction false} WhereMultiplicity<T(!new)>(rows: seq<T>, keep: T -> bool)
    ensures forall x :: multiset(Where(rows, keep))[x] == if keep(x) then multiset(rows)[x] else 0
  {
    if rows != [] {
      var n := |rows| - 1;
      WhereMultiplicity(rows[..n], keep);
      assert rows == rows[..n] + [rows[n]];
    }
  }

  /** A mask that every row passes keeps the table unchanged. */
  lemma {:induction false} WhereAll<T(!new)>(rows: seq<T>, keep: T -> bool)
    requires forall j :: 0 <= j < |rows| ==> keep(rows[j])
    ensures Where(rows, keep) == rows
  {
    if rows != [] {
      var n := |rows| - 1;
      var prefix := rows[..n];
      WhereAll(prefix, keep);
      calc {
        Where(rows, keep);
        Where(prefix, keep) + [rows[n]];
        prefix + [rows[n]];
        rows;
      }
    }
  }

  /** A mask that no row passes keeps nothing. */
  lemma {:induction false} WhereNone<T(!new)>(rows: seq<T>, keep: T -> bool)
    requires forall j :: 0 <= j < |rows| ==> !keep(rows[j])
    ensures Where(rows, keep) == []
  {
    if rows != [] {
      var n := |rows| - 1;
      WhereNone(rows[..n], keep);
    }
  }
}
