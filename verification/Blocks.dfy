/**
  Blocks of a sequence, the common ground of the memory moves and fills in both terminal engines.

  Fill and Put are a memset and a memcpy; ShiftUp and ShiftDown are the two moves of a scroll. Rows of a page
  are blocks of equal length: RowStart is where a row begins, RowAt and ColAt are the row and the column of an
  index, and Flatten puts rows end to end. Products of rows and columns are written as RowStart throughout, so
  that proofs go by steps of one row.
  */
module Blocks {

  /** n copies of x: what a memset leaves behind. */
  function Fill<T>(n: nat, x: T): (r: seq<T>)
    ensures |r| == n
    ensures forall i {:trigger r[i]} :: 0 <= i < n ==> r[i] == x
  {
    seq(n, _ => x)
  }

  /** s with block written over the positions from at on: what a memcpy or memmove leaves behind. */
  function Put<T>(s: seq<T>, at: nat, block: seq<T>): (r: seq<T>)
    requires at + |block| <= |s|
    ensures |r| == |s|
    ensures forall i {:trigger r[i]} :: 0 <= i < |s| ==>
      r[i] == if at <= i < at + |block| then block[i - at] else s[i]
  {
    s[..at] + block + s[at + |block|..]
  }

  /** A stretch of Put(s, at, block) that lies in the block, or apart from it. */
  lemma PutSlice<T>(s: seq<T>, at: nat, block: seq<T>, i: nat, n: nat)
    requires at + |block| <= |s| && i + n <= |s|
    ensures at <= i && i + n <= at + |block| ==> Put(s, at, block)[i..i + n] == block[i - at..i - at + n]
    ensures i + n <= at || at + |block| <= i ==> Put(s, at, block)[i..i + n] == s[i..i + n]
  {
  }

  /** The cells from..to move towards the front by n; the last n become blank. */
  function ShiftUp<T>(s: seq<T>, from: nat, to: nat, n: nat, blank: T): (r: seq<T>)
    requires from + n <= to <= |s|
    ensures |r| == |s|
    ensures forall i {:trigger r[i]} :: 0 <= i < |s| ==>
      r[i] == if from <= i < to - n then s[i + n] else if to - n <= i < to then blank else s[i]
  {
    Put(Put(s, from, s[from + n..to]), to - n, Fill(n, blank))
  }

  /** The cells from..to move towards the back by n; the first n become blank. */
  function ShiftDown<T>(s: seq<T>, from: nat, to: nat, n: nat, blank: T): (r: seq<T>)
    requires from + n <= to <= |s|
    ensures |r| == |s|
    ensures forall i {:trigger r[i]} :: 0 <= i < |s| ==>
      r[i] == if from + n <= i < to then s[i - n] else if from <= i < from + n then blank else s[i]
  {
    Put(Put(s, from + n, s[from..to - n]), from, Fill(n, blank))
  }

  lemma ShiftUpSlice<T>(s: seq<T>, from: nat, to: nat, n: nat, blank: T, i: nat)
    requires from + n <= to <= |s| && i + n <= |s|
    ensures var r := ShiftUp(s, from, to, n, blank);
            && (i + n <= from || to <= i ==> r[i..i + n] == s[i..i + n])
            && (from <= i && i + n + n <= to ==> r[i..i + n] == s[i + n..i + n + n])
            && (i + n == to ==> r[i..i + n] == Fill(n, blank))
  {
    hide Put;
  }

  lemma ShiftDownSlice<T>(s: seq<T>, from: nat, to: nat, n: nat, blank: T, i: nat)
    requires from + n <= to <= |s| && i + n <= |s|
    ensures var r := ShiftDown(s, from, to, n, blank);
            && (i + n <= from || to <= i ==> r[i..i + n] == s[i..i + n])
            && (from + n <= i && i + n <= to ==> r[i..i + n] == s[i - n..i])
            && (i == from ==> r[i..i + n] == Fill(n, blank))
  {
    hide Put;
  }

  /** The index of the first cell of row r in a page of rows of cols cells. */
  function RowStart(r: nat, cols: nat): nat {
    if r == 0 then 0 else RowStart(r - 1, cols) + cols
  }

  lemma {:induction false} RowStartIsProduct(r: nat, cols: nat)
    ensures RowStart(r, cols) == r * cols
  {
    if r > 0 {
      RowStartIsProduct(r - 1, cols);
      assert r * cols == (r - 1) * cols + cols;
    }
  }

  /** r * cols, the offset of row r as the code computes it. */
  function Offset(r: nat, cols: nat): (i: nat)
    ensures i == RowStart(r, cols)
  {
    RowStartIsProduct(r, cols);
    r * cols
  }

  lemma FirstRow(cols: nat)
    ensures RowStart(0, cols) == 0
  {
  }

  lemma NextRow(r: nat, cols: nat)
    ensures RowStart(r + 1, cols) == RowStart(r, cols) + cols
  {
  }

  /** Distinct rows do not overlap, and come in order. */
  lemma {:induction false} RowsApart(r: nat, q: nat, cols: nat)
    ensures r < q ==> RowStart(r, cols) + cols <= RowStart(q, cols)
    ensures r > q ==> RowStart(q, cols) + cols <= RowStart(r, cols)
    decreases q, r
  {
    if r + 1 < q {
      RowsApart(r, q - 1, cols);
    } else if q + 1 < r {
      RowsApart(r - 1, q, cols);
    }
  }

  lemma {:induction false} RowStartAdd(r: nat, q: nat, cols: nat)
    ensures RowStart(r + q, cols) == RowStart(r, cols) + RowStart(q, cols)
  {
    if q > 0 {
      RowStartAdd(r, q - 1, cols);
    }
  }

  /** The row index i falls in: i / cols. */
  function RowAt(i: nat, cols: nat): (r: nat)
    requires cols > 0
    decreases i
  {
    if i < cols then 0 else RowAt(i - cols, cols) + 1
  }

  /** Its column: i % cols. */
  function ColAt(i: nat, cols: nat): (c: nat)
    requires cols > 0
    ensures c < cols && c <= i
    decreases i
  {
    if i < cols then i else ColAt(i - cols, cols)
  }

  lemma {:induction false} RowColAt(i: nat, cols: nat)
    requires cols > 0
    ensures i == RowStart(RowAt(i, cols), cols) + ColAt(i, cols)
    decreases i
  {
    if i >= cols {
      RowColAt(i - cols, cols);
    }
  }

  /** Row and column determine the index and are determined by it. */
  lemma {:induction false} RowColOf(r: nat, c: nat, cols: nat)
    requires c < cols
    ensures RowAt(RowStart(r, cols) + c, cols) == r && ColAt(RowStart(r, cols) + c, cols) == c
    decreases r
  {
    if r > 0 {
      RowColOf(r - 1, c, cols);
    }
  }

  lemma MulLe(a: nat, b: nat, c: nat)
    requires a <= b
    ensures a * c <= b * c
  {
  }

  lemma DivModUnique(i: nat, q: nat, m: nat, cols: nat)
    requires m < cols && i == q * cols + m
    ensures i / cols == q && i % cols == m
  {
    var d := i / cols;
    if d < q {
      MulLe(d + 1, q, cols);
    } else if q < d {
      MulLe(q + 1, d, cols);
    }
  }

  lemma RowColAreDivMod(i: nat, cols: nat)
    requires cols > 0
    ensures RowAt(i, cols) == i / cols && ColAt(i, cols) == i % cols
  {
    RowColAt(i, cols);
    RowStartIsProduct(RowAt(i, cols), cols);
    DivModUnique(i, RowAt(i, cols), ColAt(i, cols), cols);
  }

  /** An index of the page lies in one of its rows, and the row lies in the page. */
  lemma RowOfIndex(i: nat, rows: nat, cols: nat)
    requires cols > 0 && i < RowStart(rows, cols)
    ensures RowAt(i, cols) < rows
    ensures i == RowStart(RowAt(i, cols), cols) + ColAt(i, cols)
    ensures RowStart(RowAt(i, cols), cols) + cols <= RowStart(rows, cols)
  {
    RowColAt(i, cols);
    RowsApart(RowAt(i, cols), rows, cols);
  }

  /** Row r of a page of rows of cols cells. */
  function Row<T>(page: seq<T>, cols: nat, r: nat): (line: seq<T>)
    requires RowStart(r, cols) + cols <= |page|
    ensures |line| == cols
  {
    page[RowStart(r, cols)..RowStart(r, cols) + cols]
  }

  /** Scrolling rows top..bottom-1 of a page up, row by row. */
  lemma ShiftUpRow<T>(page: seq<T>, rows: nat, cols: nat, top: nat, bottom: nat, blank: T, r: nat)
    requires top < bottom <= rows && |page| == RowStart(rows, cols) && r < rows
    ensures RowStart(top, cols) + cols <= RowStart(bottom, cols) <= |page|
    ensures RowStart(r, cols) + cols <= |page| && (r < bottom - 1 ==> RowStart(r + 1, cols) + cols <= |page|)
    ensures var r' := Row(ShiftUp(page, RowStart(top, cols), RowStart(bottom, cols), cols, blank), cols, r);
            && (top <= r < bottom - 1 ==> r' == Row(page, cols, r + 1))
            && (r == bottom - 1 ==> r' == Fill(cols, blank))
            && (r < top || bottom <= r ==> r' == Row(page, cols, r))
  {
    hide ShiftUp, RowStart;
    RowsApart(top, bottom, cols);
    RowsApart(bottom, rows, cols);
    RowsApart(r, rows, cols);
    RowsApart(r, top, cols);
    RowsApart(r, bottom, cols);
    NextRow(r, cols);
    RowsApart(r + 1, bottom, cols);
    ShiftUpSlice(page, RowStart(top, cols), RowStart(bottom, cols), cols, blank, RowStart(r, cols));
  }

  /** Scrolling rows top..bottom-1 of a page down, row by row. */
  lemma ShiftDownRow<T>(page: seq<T>, rows: nat, cols: nat, top: nat, bottom: nat, blank: T, r: nat)
    requires top < bottom <= rows && |page| == RowStart(rows, cols) && r < rows
    ensures RowStart(top, cols) + cols <= RowStart(bottom, cols) <= |page|
    ensures RowStart(r, cols) + cols <= |page| && (0 < r ==> RowStart(r - 1, cols) + cols <= |page|)
    ensures var r' := Row(ShiftDown(page, RowStart(top, cols), RowStart(bottom, cols), cols, blank), cols, r);
            && (top < r < bottom ==> r' == Row(page, cols, r - 1))
            && (r == top ==> r' == Fill(cols, blank))
            && (r < top || bottom <= r ==> r' == Row(page, cols, r))
  {
    hide ShiftDown, RowStart;
    RowsApart(top, bottom, cols);
    RowsApart(bottom, rows, cols);
    RowsApart(r, rows, cols);
    RowsApart(r, top, cols);
    RowsApart(r, bottom, cols);
    if r > 0 { NextRow(r - 1, cols); }
    ShiftDownSlice(page, RowStart(top, cols), RowStart(bottom, cols), cols, blank, RowStart(r, cols));
  }

  /** The concatenation of rows. */
  function Flatten<T>(rows: seq<seq<T>>): seq<T> {
    if rows == [] then [] else Flatten(rows[..|rows| - 1]) + rows[|rows| - 1]
  }

  ghost predicate AllOfLength<T>(rows: seq<seq<T>>, cols: nat) {
    forall i :: 0 <= i < |rows| ==> |rows[i]| == cols
  }

  lemma {:induction false} FlattenLength<T>(rows: seq<seq<T>>, cols: nat)
    requires AllOfLength(rows, cols)
    ensures |Flatten(rows)| == RowStart(|rows|, cols)
  {
    if rows != [] {
      FlattenLength(rows[..|rows| - 1], cols);
    }
  }

  lemma {:induction false} FlattenConcat<T>(a: seq<seq<T>>, b: seq<seq<T>>)
    ensures Flatten(a + b) == Flatten(a) + Flatten(b)
  {
    if b == [] {
      assert a + b == a;
    } else {
      assert (a + b)[..|a + b| - 1] == a + b[..|b| - 1];
      FlattenConcat(a, b[..|b| - 1]);
    }
  }
}
