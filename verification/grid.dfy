/** Index arithmetic of the padded grid: a maze of w columns and h rows is
    stored row by row in (w+2)*(h+2) cells, with a one-cell border around it.
    The cell in column x and row y has index x + y*(w+2). */
module Grids {

  /** The length of one stored row. */
  function Stride(w: int): int {
    w + 2
  }

  /** The number of stored cells. */
  function Size(w: int, h: int): int {
    (w + 2) * (h + 2)
  }

  function Cell(w: int, x: int, y: int): int {
    x + y * (w + 2)
  }

  /** The border test of the constructor: top row, left column, bottom row,
      right column. */
  predicate IsBorder(w: int, h: int, i: int)
    requires w >= 1
  {
    i < w + 2 || i % (w + 2) == 0 || i >= (w + 2) * (h + 1) || i % (w + 2) == w + 1
  }

  predicate InRange(w: int, h: int, i: int) {
    0 <= i < Size(w, h)
  }

  predicate IsInterior(w: int, h: int, i: int)
    requires w >= 1
  {
    InRange(w, h, i) && !IsBorder(w, h, i)
  }

  /** The cells of the maze proper. */
  ghost function InteriorCells(w: int, h: int): set<int>
    requires w >= 1
  {
    set i | 0 <= i < Size(w, h) && !IsBorder(w, h, i)
  }

  // ---------------------------------------------------------------------------
  // Coordinates

  /** Division by the stride recovers the row and the remainder the column. */
  lemma CellDivMod(w: int, x: int, y: int)
    requires w >= 1 && 0 <= x < w + 2
    ensures Cell(w, x, y) / (w + 2) == y && Cell(w, x, y) % (w + 2) == x
  {
    DivModUnique(Cell(w, x, y), w + 2, y, x);
  }

  lemma DivModUnique(i: int, d: int, q: int, r: int)
    requires d > 0 && 0 <= r < d && i == q * d + r
    ensures i / d == q && i % d == r
  {
    var q', r' := i / d, i % d;
    assert (q - q') * d == r' - r;
    if q > q' {
      MulMonotone(1, q - q', d);
    } else if q < q' {
      MulMonotone(1, q' - q, d);
    }
  }

  lemma MulMonotone(a: int, b: int, c: int)
    requires a <= b && c >= 0
    ensures a * c <= b * c
  {
  }

  /** Every stored index has a column in 0..w+1 and a row in 0..h+1. */
  lemma Coordinates(w: int, h: int, i: int) returns (x: int, y: int)
    requires w >= 1 && h >= 1 && InRange(w, h, i)
    ensures 0 <= x < w + 2 && 0 <= y < h + 2 && i == Cell(w, x, y)
  {
    x, y := i % (w + 2), i / (w + 2);
    if y >= h + 2 {
      MulMonotone(h + 2, y, w + 2);
      assert false;
    }
  }

  /** The border test reads the coordinates: column 0 or w+1, row 0 or h+1. */
  lemma BorderByCoordinates(w: int, h: int, x: int, y: int)
    requires w >= 1 && h >= 1 && 0 <= x < w + 2 && 0 <= y < h + 2
    ensures IsBorder(w, h, Cell(w, x, y)) <==> x == 0 || x == w + 1 || y == 0 || y == h + 1
  {
    var i := Cell(w, x, y);
    CellDivMod(w, x, y);
    if y >= 1 {
      MulMonotone(1, y, w + 2);
    }
    if y <= h {
      MulMonotone(y + 1, h + 1, w + 2);
    } else {
      assert y == h + 1;
    }
  }

  /** An interior cell's column and row lie in 1..w and 1..h. */
  lemma InteriorCoordinates(w: int, h: int, i: int) returns (x: int, y: int)
    requires w >= 1 && h >= 1 && IsInterior(w, h, i)
    ensures 1 <= x <= w && 1 <= y <= h && i == Cell(w, x, y)
  {
    x, y := Coordinates(w, h, i);
    BorderByCoordinates(w, h, x, y);
  }

  /** The four neighbours of an interior cell are stored cells. */
  lemma NeighboursInRange(w: int, h: int, i: int)
    requires w >= 1 && h >= 1 && IsInterior(w, h, i)
    ensures InRange(w, h, i - 1) && InRange(w, h, i + 1)
    ensures InRange(w, h, i - (w + 2)) && InRange(w, h, i + (w + 2))
  {
    var x, y := InteriorCoordinates(w, h, i);
    assert i + (w + 2) == Cell(w, x, y + 1);
    MulMonotone(y + 1, h + 1, w + 2);
  }

  // ---------------------------------------------------------------------------
  // Reaching every cell

  /** A set holding cell (1, 1) and closed under the right and down steps
      between interior cells holds every interior cell. */
  lemma Flood(w: int, h: int, s: set<int>)
    requires w >= 1 && h >= 1
    requires Cell(w, 1, 1) in s
    requires forall i :: i in s && IsInterior(w, h, i) && IsInterior(w, h, i + 1) ==> i + 1 in s
    requires forall i :: i in s && IsInterior(w, h, i) && IsInterior(w, h, i + (w + 2)) ==> i + (w + 2) in s
    ensures forall i :: IsInterior(w, h, i) ==> i in s
  {
    forall i | IsInterior(w, h, i)
      ensures i in s
    {
      var x, y := InteriorCoordinates(w, h, i);
      FloodCell(w, h, s, x, y);
    }
  }

  lemma {:induction false} FloodCell(w: int, h: int, s: set<int>, x: int, y: int)
    requires w >= 1 && h >= 1
    requires Cell(w, 1, 1) in s
    requires forall i :: i in s && IsInterior(w, h, i) && IsInterior(w, h, i + 1) ==> i + 1 in s
    requires forall i :: i in s && IsInterior(w, h, i) && IsInterior(w, h, i + (w + 2)) ==> i + (w + 2) in s
    requires 1 <= x <= w && 1 <= y <= h
    ensures Cell(w, x, y) in s
    decreases y, x
  {
    if x > 1 {
      FloodCell(w, h, s, x - 1, y);
      InteriorAt(w, h, x - 1, y);
      InteriorAt(w, h, x, y);
    } else if y > 1 {
      FloodCell(w, h, s, x, y - 1);
      InteriorAt(w, h, x, y - 1);
      InteriorAt(w, h, x, y);
      assert Cell(w, x, y - 1) + (w + 2) == Cell(w, x, y);
    }
  }

  lemma InteriorAt(w: int, h: int, x: int, y: int)
    requires w >= 1 && h >= 1 && 1 <= x <= w && 1 <= y <= h
    ensures IsInterior(w, h, Cell(w, x, y))
  {
    BorderByCoordinates(w, h, x, y);
    MulMonotone(y + 1, h + 2, w + 2);
  }

  // ---------------------------------------------------------------------------
  // Counting

  /** Consecutive integers from lo up to hi - 1. */
  ghost function Range(lo: int, hi: int): set<int>
    decreases hi - lo
  {
    if lo >= hi then {} else {lo} + Range(lo + 1, hi)
  }

  lemma {:induction false} RangeFacts(lo: int, hi: int)
    requires lo <= hi
    ensures forall i :: i in Range(lo, hi) <==> lo <= i < hi
    ensures |Range(lo, hi)| == hi - lo
    decreases hi - lo
  {
    if lo < hi {
      RangeFacts(lo + 1, hi);
    }
  }

  /** The index of column 0 of row y, counted up row by row. */
  function RowStart(w: int, y: nat): int {
    if y == 0 then 0 else RowStart(w, y - 1) + (w + 2)
  }

  lemma {:induction false} RowStartCell(w: int, y: nat)
    ensures RowStart(w, y) == Cell(w, 0, y)
  {
    if y > 0 {
      RowStartCell(w, y - 1);
    }
  }

  /** Columns 1..w of row y. */
  ghost function Row(w: int, y: nat): set<int> {
    Range(RowStart(w, y) + 1, RowStart(w, y) + w + 1)
  }

  lemma RowFacts(w: int, y: nat)
    requires w >= 1
    ensures forall i :: i in Row(w, y) <==> RowStart(w, y) < i <= RowStart(w, y) + w
    ensures |Row(w, y)| == w
  {
    RangeFacts(RowStart(w, y) + 1, RowStart(w, y) + w + 1);
  }

  /** The cells of rows 1..k of the maze proper. */
  ghost function RowsUpTo(w: int, k: nat): set<int> {
    if k == 0 then {} else RowsUpTo(w, k - 1) + Row(w, k)
  }

  /** Rows 1..k lie before column w+1 of row k. */
  lemma {:induction false} RowsBound(w: int, k: nat)
    requires w >= 1
    ensures forall i :: i in RowsUpTo(w, k) ==> i <= RowStart(w, k) + w
  {
    if k > 0 {
      RowsBound(w, k - 1);
      RowFacts(w, k);
    }
  }

  /** Rows 1..k hold k*w cells. */
  lemma {:induction false} RowsSize(w: int, k: nat)
    requires w >= 1
    ensures |RowsUpTo(w, k)| == k * w
  {
    if k > 0 {
      RowsSize(w, k - 1);
      RowsDisjoint(w, k);
      RowFacts(w, k);
      MulStep(k, w);
    }
  }

  lemma RowsDisjoint(w: int, k: nat)
    requires w >= 1 && k >= 1
    ensures RowsUpTo(w, k - 1) !! Row(w, k)
  {
    RowsBound(w, k - 1);
    RowFacts(w, k);
    assert RowStart(w, k) == RowStart(w, k - 1) + (w + 2);
    forall i | i in RowsUpTo(w, k - 1)
      ensures i !in Row(w, k)
    {
    }
  }

  lemma MulStep(k: int, w: int)
    ensures k * w == (k - 1) * w + w
  {
  }

  /** A cell of rows 1..k lies in one of those rows. */
  lemma {:induction false} RowOf(w: int, k: nat, i: int) returns (y: int)
    requires w >= 1 && i in RowsUpTo(w, k)
    ensures 1 <= y <= k && RowStart(w, y) < i <= RowStart(w, y) + w
  {
    RowFacts(w, k);
    if i in Row(w, k) {
      y := k;
    } else {
      y := RowOf(w, k - 1, i);
    }
  }

  lemma {:induction false} RowIncluded(w: int, k: nat, y: nat, i: int)
    requires w >= 1 && 1 <= y <= k && RowStart(w, y) < i <= RowStart(w, y) + w
    ensures i in RowsUpTo(w, k)
  {
    RowFacts(w, y);
    if y < k {
      RowIncluded(w, k - 1, y, i);
    }
  }

  /** The maze proper holds w*h cells. */
  lemma InteriorSize(w: int, h: int)
    requires w >= 1 && h >= 1
    ensures |InteriorCells(w, h)| == w * h
  {
    RowsSize(w, h);
    InteriorInRows(w, h);
    RowsInInterior(w, h);
    assert InteriorCells(w, h) == RowsUpTo(w, h);
  }

  lemma InteriorInRows(w: int, h: int)
    requires w >= 1 && h >= 1
    ensures InteriorCells(w, h) <= RowsUpTo(w, h)
  {
    forall i | i in InteriorCells(w, h)
      ensures i in RowsUpTo(w, h)
    {
      var x, y := InteriorCoordinates(w, h, i);
      RowStartCell(w, y);
      RowIncluded(w, h, y, i);
    }
  }

  lemma RowsInInterior(w: int, h: int)
    requires w >= 1 && h >= 1
    ensures RowsUpTo(w, h) <= InteriorCells(w, h)
  {
    forall i | i in RowsUpTo(w, h)
      ensures i in InteriorCells(w, h)
    {
      var y := RowOf(w, h, i);
      RowStartCell(w, y);
      InteriorAt(w, h, i - RowStart(w, y), y);
    }
  }

  // ---------------------------------------------------------------------------
  // Sets of cells and lists of cells

  /** No cell listed twice. */
  predicate Distinct<T(==)>(s: seq<T>) {
    forall i, j :: 0 <= i < j < |s| ==> s[i] != s[j]
  }

  ghost function Elements<T>(s: seq<T>): set<T> {
    set x | x in s
  }

  /** A list without repetitions has as many entries as it names cells. */
  lemma {:induction false} DistinctSize<T>(s: seq<T>)
    requires Distinct(s)
    ensures |Elements(s)| == |s|
  {
    if s != [] {
      var last := |s| - 1;
      DistinctSize(s[..last]);
      assert Elements(s) == Elements(s[..last]) + {s[last]};
      assert s[last] !in Elements(s[..last]);
    }
  }

  /** A subset is no larger, and a proper subset is smaller. */
  lemma {:induction false} SubsetSize<T>(a: set<T>, b: set<T>)
    requires a <= b
    ensures |a| <= |b|
    ensures a < b ==> |a| < |b|
    decreases b
  {
    if a != {} {
      var x :| x in a;
      SubsetSize(a - {x}, b - {x});
      if a < b {
        var y :| y in b && y !in a;
        assert y in b - {x} && y !in a - {x};
      }
    } else if b != {} {
      var y :| y in b;
      assert |b| == |b - {y}| + 1;
    }
  }

  /** s read from its end. */
  function Reversed<T>(s: seq<T>): seq<T> {
    if s == [] then [] else Reversed(s[1..]) + [s[0]]
  }

  lemma {:induction false} ReversedAt<T>(s: seq<T>)
    ensures |Reversed(s)| == |s|
    ensures forall k :: 0 <= k < |s| ==> Reversed(s)[k] == s[|s| - 1 - k]
  {
    if s != [] {
      ReversedAt(s[1..]);
    }
  }

  /** Reading backwards twice gives the sequence back. */
  lemma ReversedTwice<T>(s: seq<T>)
    ensures Reversed(Reversed(s)) == s
  {
    ReversedAt(s);
    ReversedAt(Reversed(s));
  }

  /** Reading backwards keeps the elements and their distinctness. */
  lemma ReversedElements<T>(s: seq<T>)
    ensures forall x :: x in Reversed(s) <==> x in s
    ensures Distinct(s) ==> Distinct(Reversed(s))
  {
    ReversedAt(s);
    var r := Reversed(s);
    forall x | x in s ensures x in r {
      var k :| 0 <= k < |s| && s[k] == x;
      assert r[|s| - 1 - k] == x;
    }
  }
}
