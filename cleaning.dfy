/**
 * Row sanitising: a survey row survives only when the text of its Date cell
 * contains '-'; the others are dropped by position, and the missing category
 * cells of the survivors are then filled with 0.
 */
module Cleaning {
  import opened Sequences

  datatype Option<T> = None | Some(value: T)

  /** A row as loaded: the Date cell rendered as text, and one cell per category, possibly empty. */
  datatype Row = Row(date: string, cells: seq<Option<real>>)

  /** A row after filling: every category cell holds a number. */
  datatype CleanRow = CleanRow(date: string, values: seq<real>)

  /** The cheap date-shape test: a parsed date renders as YYYY-MM-DD. */
  predicate HasDateShape(r: Row)
  {
    '-' in r.date
  }

  /** Reference filter: the rows with a date shape, in their original order. */
  function DateShaped(rows: seq<Row>): (r: seq<Row>)
    ensures |r| <= |rows|
    ensures forall i :: 0 <= i < |r| ==> HasDateShape(r[i])
    ensures forall x :: x in r ==> x in rows
  {
    if rows == [] then []
    else DateShaped(rows[..|rows| - 1])
         + (if HasDateShape(rows[|rows| - 1]) then [rows[|rows| - 1]] else [])
  }

  /** The positions of the rows that fail the date-shape test (the inverted mask, as positions). */
  function BadPositions(rows: seq<Row>): set<int>
  {
    set i | 0 <= i < |rows| && !HasDateShape(rows[i])
  }

  /** As many positions are dropped as there are rows that the date-shape filter rejects. */
  lemma {:induction false} BadPositionsCount(rows: seq<Row>)
    ensures |BadPositions(rows)| == |rows| - |DateShaped(rows)|
  {
    if rows != [] {
      var n := |rows| - 1;
      var init := rows[..n];
      BadPositionsCount(init);
      assert forall i :: 0 <= i < n ==> rows[i] == init[i];
      if HasDateShape(rows[n]) {
        assert BadPositions(rows) == BadPositions(init);
      } else {
        assert BadPositions(rows) == BadPositions(init) + {n};
        assert n !in BadPositions(init);
      }
    }
  }

  /** Dropping the rows at the given positions; the table's index is 0..n-1, so labels are positions. */
  function DropPositions(rows: seq<Row>, drop: set<int>): (r: seq<Row>)
    ensures |r| <= |rows|
    ensures forall i :: 0 <= i < |r| ==> r[i] in rows
  {
    if rows == [] then []
    else DropPositions(rows[..|rows| - 1], drop)
         + (if |rows| - 1 in drop then [] else [rows[|rows| - 1]])
  }

  /** Filling a row: a missing cell becomes 0, any other keeps its value. */
  function FillRow(r: Row): (c: CleanRow)
    ensures c.date == r.date && |c.values| == |r.cells|
    ensures forall k :: 0 <= k < |r.cells| && r.cells[k].Some? ==> c.values[k] == r.cells[k].value
    ensures forall k :: 0 <= k < |r.cells| && r.cells[k].None? ==> c.values[k] == 0.0
  {
    CleanRow(r.date, seq(|r.cells|, k requires 0 <= k < |r.cells| =>
      match r.cells[k]
      case None => 0.0
      case Some(v) => v))
  }

  /** Turning a clean row back into a loaded row whose every cell is present. */
  function Lift(c: CleanRow): Row
  {
    Row(c.date, seq(|c.values|, k requires 0 <= k < |c.values| => Some(c.values[k])))
  }

  /** No category cell of the row is missing. */
  predicate Complete(r: Row)
  {
    forall k :: 0 <= k < |r.cells| ==> r.cells[k].Some?
  }

  /** Filling leaves a complete row as it is and loses no number: it undoes Lift, and Lift undoes it exactly on complete rows. */
  lemma {:induction false} FillLiftRoundTrip(c: CleanRow, r: Row)
    ensures FillRow(Lift(c)) == c
    ensures Complete(r) <==> Lift(FillRow(r)) == r
  {
    if Complete(r) {
      assert Lift(FillRow(r)).cells == r.cells;
    }
    if Lift(FillRow(r)) == r {
      forall k | 0 <= k < |r.cells| ensures r.cells[k].Some? {
        assert r.cells[k] == Lift(FillRow(r)).cells[k];
      }
    }
  }

  /** `fillna(0)` over the surviving rows. */
  function Fill(rows: seq<Row>): seq<CleanRow>
  {
    seq(|rows|, i requires 0 <= i < |rows| => FillRow(rows[i]))
  }

  /** The whole sanitising stage: drop the rows at the bad positions, then fill. */
  function Sanitize(rows: seq<Row>): (r: seq<CleanRow>)
    ensures forall w :: Rectangular(rows, w) ==> CleanRectangular(r, w)
  {
    Fill(DropPositions(rows, BadPositions(rows)))
  }

  /** Every row of the table has one cell per category. */
  predicate Rectangular(rows: seq<Row>, width: nat)
  {
    forall i :: 0 <= i < |rows| ==> |rows[i].cells| == width
  }

  /** Every clean row has one value per category. */
  predicate CleanRectangular(rows: seq<CleanRow>, width: nat)
  {
    forall i :: 0 <= i < |rows| ==> |rows[i].values| == width
  }

  /** Dropping by the bad positions is the same as keeping the date-shaped rows. */
  lemma {:induction false} DropBadIsFilter(rows: seq<Row>)
    ensures DropPositions(rows, BadPositions(rows)) == DateShaped(rows)
  {
    DropPrefix(rows, |rows|);
    assert rows[..|rows|] == rows;
  }

  lemma {:induction false} DropPrefix(rows: seq<Row>, k: nat)
    requires k <= |rows|
    ensures DropPositions(rows[..k], BadPositions(rows)) == DateShaped(rows[..k])
  {
    if k > 0 {
      DropPrefix(rows, k - 1);
      assert rows[..k][..k - 1] == rows[..k - 1];
    }
  }

  /** The surviving rows keep their relative order. */
  lemma {:induction false} DateShapedIsSubsequence(rows: seq<Row>)
    ensures IsSubsequence(DateShaped(rows), rows)
  {
    if rows != [] {
      var init := rows[..|rows| - 1];
      var d := DateShaped(rows);
      DateShapedIsSubsequence(init);
      if HasDateShape(rows[|rows| - 1]) {
        assert d[..|d| - 1] == DateShaped(init);
      } else {
        assert d == DateShaped(init);
        if d != [] {
          assert HasDateShape(d[|d| - 1]);
        }
      }
    }
  }

  /** No row is duplicated or lost: each date-shaped row occurs as often as in the input, every other row not at all. */
  lemma {:induction false} DateShapedCounts(rows: seq<Row>, x: Row)
    ensures multiset(DateShaped(rows))[x] == if HasDateShape(x) then multiset(rows)[x] else 0
  {
    if rows != [] {
      var init := rows[..|rows| - 1];
      DateShapedCounts(init, x);
      assert rows == init + [rows[|rows| - 1]];
    }
  }

  /**
   * The sanitised table: exactly the date-shaped rows, in order, each
   * filled; no missing cell remains and present values are unchanged.
   */
  lemma {:induction false} SanitizeSpec(rows: seq<Row>, width: nat)
    requires Rectangular(rows, width)
    ensures Sanitize(rows) == Fill(DateShaped(rows))
    ensures IsSubsequence(DateShaped(rows), rows)
    ensures forall x :: multiset(DateShaped(rows))[x] == if HasDateShape(x) then multiset(rows)[x] else 0
    ensures CleanRectangular(Sanitize(rows), width)
    ensures forall i :: 0 <= i < |Sanitize(rows)| ==> '-' in Sanitize(rows)[i].date
  {
    DropBadIsFilter(rows);
    DateShapedIsSubsequence(rows);
    forall x ensures multiset(DateShaped(rows))[x] == if HasDateShape(x) then multiset(rows)[x] else 0 {
      DateShapedCounts(rows, x);
    }
    forall i | 0 <= i < |DateShaped(rows)| ensures |DateShaped(rows)[i].cells| == width {
      assert DateShaped(rows)[i] in rows;
    }
  }

  /**
   * Cell by cell, the sanitised table is the date-shaped rows with every
   * empty cell read as 0 and every present value unchanged.
   */
  lemma {:induction false} SanitizeCells(rows: seq<Row>, width: nat)
    requires Rectangular(rows, width)
    ensures |Sanitize(rows)| == |DateShaped(rows)|
    ensures forall i :: 0 <= i < |DateShaped(rows)| ==> Sanitize(rows)[i].date == DateShaped(rows)[i].date
    ensures forall i :: 0 <= i < |DateShaped(rows)| ==> |DateShaped(rows)[i].cells| == width
    ensures forall i, k :: 0 <= i < |DateShaped(rows)| && 0 <= k < width ==>
      Sanitize(rows)[i].values[k] == match DateShaped(rows)[i].cells[k]
        case Some(v) => v
        case None => 0.0
  {
    DropBadIsFilter(rows);
    var d := DateShaped(rows);
    forall i | 0 <= i < |d|
      ensures Sanitize(rows)[i] == FillRow(d[i]) && |d[i].cells| == width
    {
      assert d[i] in rows;
    }
  }

  /**
   * Cleaning works row by row: a new row without a date shape adds nothing,
   * a date-shaped one adds its filled form at the end.
   */
  lemma {:induction false} SanitizeAppend(rows: seq<Row>, r: Row)
    ensures Sanitize(rows + [r]) == if HasDateShape(r) then Sanitize(rows) + [FillRow(r)] else Sanitize(rows)
  {
    DropBadIsFilter(rows + [r]);
    DropBadIsFilter(rows);
    assert (rows + [r])[..|rows|] == rows;
    var kept := DateShaped(rows);
    assert DateShaped(rows + [r]) == kept + (if HasDateShape(r) then [r] else []);
    if HasDateShape(r) {
      assert Fill(kept + [r]) == Fill(kept) + [FillRow(r)];
    }
  }
}
