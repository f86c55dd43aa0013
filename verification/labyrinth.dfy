/** The maze generator: a depth-first walk over the padded grid that marks
    each cell visited, tries its three onward directions in random order and
    puts a wall wherever the walk could not go on. */
module Labyrinths {
  import opened Tiles
  import opened Grids

  // ---------------------------------------------------------------------------
  // Flags of one tile value

  predicate Visited(v: bv32) {
    v & VISITED != 0
  }

  predicate Blocked(v: bv32) {
    v & BLOCK != 0
  }

  /** checkAny(VISITED, BLOCK): the walk may not enter a cell with either flag. */
  predicate Taken(v: bv32) {
    v & (VISITED | BLOCK) != 0
  }

  /** The wall bit of direction d is set. */
  predicate Wall(v: bv32, d: bv32) {
    v & d != 0
  }

  lemma TakenFlags(v: bv32)
    ensures Taken(v) <==> Visited(v) || Blocked(v)
  {
    assert v & (VISITED | BLOCK) == (v & VISITED) | (v & BLOCK);
  }

  // Single-bit facts, one per lemma: each proof stays small when it touches
  // one flag only.

  lemma DirectionApart(d: bv32)
    requires IsDirection(d)
    ensures d != 0 && d & VISITED == 0 && d & BLOCK == 0 && VISITED & d == 0
  {
  }

  lemma DirectionsApart(d: bv32, m: bv32)
    requires IsDirection(d) && IsDirection(m) && d != m
    ensures m & d == 0
  {
  }

  lemma FlagsApart()
    ensures VISITED != 0 && VISITED & BLOCK == 0
  {
  }

  lemma OrApart(v: bv32, f: bv32, g: bv32)
    requires f & g == 0
    ensures (v | f) & g != 0 <==> v & g != 0
  {
    assert (v | f) & g == v & g;
  }

  lemma AndNotApart(v: bv32, f: bv32, g: bv32)
    requires f & g == 0
    ensures (v & !f) & g != 0 <==> v & g != 0
  {
    assert (v & !f) & g == v & g;
  }

  lemma OrSelf(v: bv32, f: bv32)
    requires f != 0
    ensures (v | f) & f != 0
  {
    assert (v | f) & f == f;
  }

  lemma AndNotSelf(v: bv32, f: bv32)
    ensures (v & !f) & f == 0
  {
  }

  lemma VisitedMark(v: bv32)
    ensures Visited(v | VISITED)
  {
    FlagsApart();
    OrSelf(v, VISITED);
  }

  lemma BlockedMark(v: bv32)
    ensures Blocked(v | VISITED) == Blocked(v)
  {
    FlagsApart();
    OrApart(v, VISITED, BLOCK);
  }

  lemma WallMark(v: bv32, d: bv32)
    requires IsDirection(d)
    ensures Wall(v | VISITED, d) == Wall(v, d)
  {
    DirectionApart(d);
    OrApart(v, VISITED, d);
  }

  lemma VisitedWall(v: bv32, m: bv32)
    requires IsDirection(m)
    ensures Visited(v | m) == Visited(v)
  {
    DirectionApart(m);
    OrApart(v, m, VISITED);
  }

  lemma BlockedWall(v: bv32, m: bv32)
    requires IsDirection(m)
    ensures Blocked(v | m) == Blocked(v)
  {
    DirectionApart(m);
    OrApart(v, m, BLOCK);
  }

  lemma WallSelf(v: bv32, m: bv32)
    requires IsDirection(m)
    ensures Wall(v | m, m)
  {
    DirectionApart(m);
    OrSelf(v, m);
  }

  lemma WallOther(v: bv32, m: bv32, d: bv32)
    requires IsDirection(m) && IsDirection(d) && d != m
    ensures Wall(v | m, d) == Wall(v, d)
  {
    DirectionsApart(d, m);
    OrApart(v, m, d);
  }

  lemma VisitedOpen(v: bv32, m: bv32)
    requires IsDirection(m)
    ensures Visited(v & !m) == Visited(v)
  {
    DirectionApart(m);
    AndNotApart(v, m, VISITED);
  }

  lemma BlockedOpen(v: bv32, m: bv32)
    requires IsDirection(m)
    ensures Blocked(v & !m) == Blocked(v)
  {
    DirectionApart(m);
    AndNotApart(v, m, BLOCK);
  }

  lemma OpenOther(v: bv32, m: bv32, d: bv32)
    requires IsDirection(m) && IsDirection(d) && d != m
    ensures Wall(v & !m, d) == Wall(v, d)
  {
    DirectionsApart(d, m);
    AndNotApart(v, m, d);
  }

  // The facts the walk uses, per operation on a tile value.

  /** Marking a cell visited sets VISITED and nothing else that is read. */
  lemma MarkFlags(v: bv32)
    ensures Visited(v | VISITED) && Taken(v | VISITED)
    ensures Blocked(v | VISITED) == Blocked(v)
    ensures forall d :: IsDirection(d) ==> Wall(v | VISITED, d) == Wall(v, d)
  {
    VisitedMark(v);
    TakenFlags(v | VISITED);
    BlockedMark(v);
    forall d | IsDirection(d) ensures Wall(v | VISITED, d) == Wall(v, d) {
      WallMark(v, d);
    }
  }

  /** Applying the wall of direction m sets that wall and nothing else that is read. */
  lemma WallFlags(v: bv32, m: bv32)
    requires IsDirection(m)
    ensures Visited(v | m) == Visited(v) && Blocked(v | m) == Blocked(v) && Taken(v | m) == Taken(v)
    ensures Wall(v | m, m)
    ensures forall d :: IsDirection(d) && d != m ==> Wall(v | m, d) == Wall(v, d)
  {
    VisitedWall(v, m);
    BlockedWall(v, m);
    TakenFlags(v);
    TakenFlags(v | m);
    WallSelf(v, m);
    forall d | IsDirection(d) && d != m ensures Wall(v | m, d) == Wall(v, d) {
      WallOther(v, m, d);
    }
  }

  /** Removing the wall of direction m clears that wall and nothing else that is read. */
  lemma OpenFlags(v: bv32, m: bv32)
    requires IsDirection(m)
    ensures Visited(v & !m) == Visited(v) && Blocked(v & !m) == Blocked(v)
    ensures !Wall(v & !m, m)
    ensures forall d :: IsDirection(d) && d != m ==> Wall(v & !m, d) == Wall(v, d)
  {
    VisitedOpen(v, m);
    BlockedOpen(v, m);
    AndNotSelf(v, m);
    forall d | IsDirection(d) && d != m ensures Wall(v & !m, d) == Wall(v, d) {
      OpenOther(v, m, d);
    }
  }

  /** The two values the constructor stores: an empty tile and a block. */
  lemma InitialFlags()
    ensures !Taken(0) && !Visited(0) && !Blocked(0)
    ensures forall d :: !Wall(0, d)
    ensures Taken(BLOCK) && Blocked(BLOCK) && !Visited(BLOCK)
    ensures forall d :: IsDirection(d) ==> !Wall(BLOCK, d)
  {
    FlagsApart();
    forall d | IsDirection(d) ensures !Wall(BLOCK, d) {
      DirectionApart(d);
    }
  }

  // ---------------------------------------------------------------------------
  // Moving between cells

  /** getIndexChange: the index step of one move on a grid of the given width,
      computed from the direction's components as the source does. */
  function IndexChange(width: int, direction: bv32): (r: int)
    ensures direction == LEFT ==> r == -1
    ensures direction == UP ==> r == -(width + 2)
    ensures direction == RIGHT ==> r == 1
    ensures direction == DOWN ==> r == width + 2
  {
    var components := DirectionComponents(direction);
    -components[0] - (width + 2) * components[1] + components[2] + (width + 2) * components[3]
  }

  /** Opposite moves cancel, no move stays in place, and different moves land
      on different cells. */
  lemma IndexChangeOpposite(width: int, d: bv32)
    requires width >= 1 && IsDirection(d)
    ensures IndexChange(width, Opposite(d)) == -IndexChange(width, d)
    ensures IndexChange(width, d) != 0
    ensures forall e :: IsDirection(e) && e != d ==> IndexChange(width, e) != IndexChange(width, d)
  {
  }

  /** The cell one move away. */
  function Neighbour(width: int, c: int, d: bv32): int {
    c + IndexChange(width, d)
  }

  /** A move from an interior cell lands on a stored cell. */
  lemma NeighbourInRange(width: int, height: int, c: int, d: bv32)
    requires width >= 1 && height >= 1 && IsInterior(width, height, c) && IsDirection(d)
    ensures InRange(width, height, Neighbour(width, c, d))
  {
    NeighboursInRange(width, height, c);
  }

  // ---------------------------------------------------------------------------
  // The state of the walk, as values
  //
  // t is the tile array, e maps every visited cell to the direction of the move
  // that entered it (a bookkeeping map the source does not hold), and o is the
  // filled part of tileOrder.

  predicate Settled(t: seq<bv32>, i: int) {
    0 <= i < |t| && Taken(t[i])
  }

  /** The cells the walk may still enter. */
  ghost function FreeCells(t: seq<bv32>): set<int> {
    set i | 0 <= i < |t| && !Taken(t[i])
  }

  /** The walk went from c to its neighbour in direction d. */
  ghost predicate Carved(width: int, e: map<int, bv32>, c: int, d: bv32) {
    Neighbour(width, c, d) in e && e[Neighbour(width, c, d)] == d
  }

  /** The cell the walk came from when it entered m. */
  ghost function Parent(width: int, e: map<int, bv32>, m: int): int
    requires m in e
  {
    m - IndexChange(width, e[m])
  }

  /** Every neighbour of c is visited or blocked. */
  ghost predicate Done(width: int, t: seq<bv32>, c: int) {
    forall d {:trigger Neighbour(width, c, d)} :: IsDirection(d) ==> Settled(t, Neighbour(width, c, d))
  }

  /** The walls of cell c towards its three onward directions: a wall exactly
      where the walk did not go on. */
  ghost predicate WallsMatch(width: int, t: seq<bv32>, e: map<int, bv32>, c: int) {
    0 <= c < |t| && c in e && IsDirection(e[c]) &&
    forall d {:trigger Wall(t[c], d)} {:trigger Carved(width, e, c, d)} ::
      IsDirection(d) && d != Opposite(e[c]) ==> (Wall(t[c], d) <==> !Carved(width, e, c, d))
  }

  ghost predicate Shaped(width: int, height: int, t: seq<bv32>) {
    width >= 1 && height >= 1 && |t| == Size(width, height)
  }

  /** Border cells hold BLOCK, interior cells never do. */
  ghost predicate BordersBlocked(width: int, height: int, t: seq<bv32>)
    requires width >= 1
  {
    forall i :: 0 <= i < |t| ==> (IsBorder(width, height, i) ==> t[i] == BLOCK) && (!IsBorder(width, height, i) ==> !Blocked(t[i]))
  }

  /** The visited cells are the cells with an entry direction. */
  ghost predicate EntriesMarked(t: seq<bv32>, e: map<int, bv32>) {
    forall i :: i in e <==> 0 <= i < |t| && Visited(t[i])
  }

  /** Every visited cell was entered by a move from a visited or blocked cell,
      and its wall back towards that cell is set only when that cell is border. */
  ghost predicate EntriesLinked(width: int, height: int, t: seq<bv32>, e: map<int, bv32>)
    requires width >= 1
  {
    (forall i :: i in e ==> IsDirection(e[i]) && 0 <= i < |t|) &&
    forall i {:trigger Parent(width, e, i)} :: i in e ==>
      Settled(t, Parent(width, e, i)) &&
      (Wall(t[i], Opposite(e[i])) ==> IsBorder(width, height, Parent(width, e, i)))
  }

  /** An interior cell not yet visited has walls only towards the border. */
  ghost predicate FreeWalls(width: int, height: int, t: seq<bv32>, e: map<int, bv32>)
    requires width >= 1
  {
    forall i, d {:trigger Wall(t[i], d)} :: 0 <= i < |t| && !IsBorder(width, height, i) && i !in e && IsDirection(d) && Wall(t[i], d) ==>
      IsBorder(width, height, Neighbour(width, i, d))
  }

  /** The cells in tileOrder are visited, listed once, have all neighbours
      settled and have their final walls. */
  ghost predicate Finished(width: int, t: seq<bv32>, e: map<int, bv32>, o: seq<int>) {
    Distinct(o) &&
    forall k :: 0 <= k < |o| ==> o[k] in e && Done(width, t, o[k]) && WallsMatch(width, t, e, o[k])
  }

  /** tileOrder lists every cell before the cell it was entered from: no
      cell listed ahead of o[k] is its parent. */
  ghost predicate Ordered(width: int, e: map<int, bv32>, o: seq<int>) {
    forall j, k :: 0 <= j < k < |o| && o[k] in e ==> o[j] != Parent(width, e, o[k])
  }

  /** The invariant of the walk. */
  ghost predicate Consistent(width: int, height: int, t: seq<bv32>, e: map<int, bv32>, o: seq<int>) {
    Shaped(width, height, t) &&
    BordersBlocked(width, height, t) &&
    EntriesMarked(t, e) &&
    EntriesLinked(width, height, t, e) &&
    FreeWalls(width, height, t, e) &&
    Finished(width, t, e, o) &&
    Ordered(width, e, o)
  }

  /** A later state of the walk: entries are kept, new entries were free cells,
      settled cells stay settled, cells neither new nor in `touched` keep their
      tile, and tileOrder only gains new cells at its end. */
  ghost predicate Grew(t0: seq<bv32>, e0: map<int, bv32>, o0: seq<int>,
                       t1: seq<bv32>, e1: map<int, bv32>, o1: seq<int>, touched: set<int>) {
    |t1| == |t0| &&
    (forall i :: i in e0 ==> i in e1 && e1[i] == e0[i]) &&
    (forall i :: i in e1 && i !in e0 ==> 0 <= i < |t0| && !Taken(t0[i])) &&
    (forall i :: 0 <= i < |t0| && Taken(t0[i]) ==> Taken(t1[i])) &&
    (forall i :: 0 <= i < |t0| && i !in touched && (i !in e1 || i in e0) ==> t1[i] == t0[i]) &&
    |o0| <= |o1| && o1[..|o0|] == o0 &&
    (forall k :: |o0| <= k < |o1| ==> o1[k] in e1 && o1[k] !in e0)
  }

  /** Every new cell has been appended to tileOrder. */
  ghost predicate Appended(e0: map<int, bv32>, o0: seq<int>, e1: map<int, bv32>, o1: seq<int>) {
    |o0| <= |o1| &&
    forall i {:trigger i in o1[|o0|..]} :: i in e1 && i !in e0 ==> i in o1[|o0|..]
  }

  /** Every new cell but `pending` has been appended to tileOrder. */
  ghost predicate AppendedBut(e0: map<int, bv32>, o0: seq<int>, e1: map<int, bv32>, o1: seq<int>, pending: int) {
    |o0| <= |o1| &&
    forall i {:trigger i in o1[|o0|..]} :: i in e1 && i !in e0 && i != pending ==> i in o1[|o0|..]
  }

  /** The new cells are closed under parents: the parent of every new cell
      other than `root` is new as well. */
  ghost predicate NewParents(width: int, e0: map<int, bv32>, e1: map<int, bv32>, root: int) {
    forall m {:trigger Parent(width, e1, m)} :: m in e1 && m !in e0 && m != root ==> Parent(width, e1, m) in e1 && Parent(width, e1, m) !in e0
  }

  /** Direction d of cell c has not been tried: not carved, and walled only
      towards the border. */
  ghost predicate Untried(width: int, height: int, t: seq<bv32>, e: map<int, bv32>, c: int, d: bv32)
    requires width >= 1
  {
    0 <= c < |t| && !Carved(width, e, c, d) && (Wall(t[c], d) ==> IsBorder(width, height, Neighbour(width, c, d)))
  }

  /** Direction d of cell c has been tried: the neighbour is settled, and the
      wall is there exactly when the walk did not go on. */
  ghost predicate Tried(width: int, t: seq<bv32>, e: map<int, bv32>, c: int, d: bv32) {
    0 <= c < |t| && Settled(t, Neighbour(width, c, d)) && (Wall(t[c], d) <==> !Carved(width, e, c, d))
  }

  /** The loop of nextTile over the candidate pool of `tile`. */
  ghost predicate Exploring(width: int, height: int, t: seq<bv32>, e: map<int, bv32>, o: seq<int>,
                            tile: int, lastMove: bv32, pool: seq<bv32>)
    requires width >= 1
  {
    IsDirection(lastMove) && tile in e && e[tile] == lastMove && 0 <= tile < |t| && tile !in o &&
    Distinct(pool) &&
    (forall d {:trigger d in pool} :: d in pool ==> IsDirection(d) && d != Opposite(lastMove) && Untried(width, height, t, e, tile, d)) &&
    (forall d {:trigger Tried(width, t, e, tile, d)} :: IsDirection(d) && d != Opposite(lastMove) && d !in pool ==> Tried(width, t, e, tile, d))
  }

  /** What one attempt of a move from c achieves: the neighbour is settled
      afterwards, the wall of that move is set exactly when the walk did not
      go on, and nothing else about c changes. */
  ghost predicate Attempted(width: int, height: int,
                            t0: seq<bv32>, e0: map<int, bv32>, o0: seq<int>,
                            t1: seq<bv32>, e1: map<int, bv32>, o1: seq<int>, c: int, move: bv32) {
    0 <= c < |t0| && c in e0 &&
    Grew(t0, e0, o0, t1, e1, o1, {c}) &&
    Appended(e0, o0, e1, o1) &&
    NewParents(width, e0, e1, Neighbour(width, c, move)) &&
    (Neighbour(width, c, move) in e1 && Neighbour(width, c, move) !in e0 ==> e1[Neighbour(width, c, move)] == move) &&
    Settled(t1, Neighbour(width, c, move)) &&
    (Wall(t1[c], move) <==> !Carved(width, e1, c, move)) &&
    (forall d {:trigger Wall(t1[c], d)} {:trigger Wall(t0[c], d)} {:trigger Carved(width, e1, c, d)} {:trigger Carved(width, e0, c, d)} ::
      IsDirection(d) && d != move ==>
      (Wall(t1[c], d) <==> Wall(t0[c], d)) && (Carved(width, e1, c, d) <==> Carved(width, e0, c, d)))
  }

  /** The progress of nextTile on `tile` since its call: `tile` and the cells
      reached from it are new, and all of them but `tile` are finished. */
  ghost predicate Tracked(width: int, t0: seq<bv32>, e0: map<int, bv32>, o0: seq<int>,
                          t1: seq<bv32>, e1: map<int, bv32>, o1: seq<int>, tile: int) {
    Grew(t0, e0, o0, t1, e1, o1, {}) &&
    tile in e1 && tile !in e0 &&
    AppendedBut(e0, o0, e1, o1, tile) &&
    NewParents(width, e0, e1, tile)
  }

  // ---------------------------------------------------------------------------
  // Entering a free cell: the tile gains the VISITED flag

  /** v is v0 with VISITED set: the flags the walk reads, as MarkFlags states them. */
  ghost predicate MarkedAs(v0: bv32, v: bv32) {
    Visited(v) && Taken(v) && Blocked(v) == Blocked(v0) &&
    forall d {:trigger Wall(v, d)} {:trigger Wall(v0, d)} :: IsDirection(d) ==> Wall(v, d) == Wall(v0, d)
  }

  lemma MarkedAsMark(v0: bv32)
    ensures MarkedAs(v0, v0 | VISITED)
  {
    MarkFlags(v0);
  }

  lemma EnterBorders(width: int, height: int, t: seq<bv32>, tile: int, v: bv32)
    requires Shaped(width, height, t) && BordersBlocked(width, height, t)
    requires 0 <= tile < |t| && !Taken(t[tile]) && MarkedAs(t[tile], v)
    ensures !IsBorder(width, height, tile)
    ensures BordersBlocked(width, height, t[tile := v])
  {
    InitialFlags();
    TakenFlags(t[tile]);
  }

  lemma EnterMarked(t: seq<bv32>, e: map<int, bv32>, tile: int, m: bv32, v: bv32)
    requires EntriesMarked(t, e)
    requires 0 <= tile < |t| && !Taken(t[tile]) && MarkedAs(t[tile], v)
    ensures tile !in e
    ensures EntriesMarked(t[tile := v], e[tile := m])
  {
    TakenFlags(t[tile]);
  }

  /** Cells other than the one just entered keep their links. */
  lemma EnterLinkedOthers(width: int, height: int, t: seq<bv32>, e: map<int, bv32>, tile: int, m: bv32, v: bv32)
    requires width >= 1 && EntriesLinked(width, height, t, e)
    requires 0 <= tile < |t| && tile !in e && Taken(v)
    ensures forall i :: i in e ==>
      IsDirection(e[i]) && 0 <= i < |t| && Settled(t[tile := v], Parent(width, e[tile := m], i)) &&
      (Wall(t[tile := v][i], Opposite(e[i])) ==> IsBorder(width, height, Parent(width, e[tile := m], i)))
  {
    var t', e' := t[tile := v], e[tile := m];
    forall i | i in e
      ensures Settled(t', Parent(width, e', i))
      ensures Wall(t'[i], Opposite(e[i])) ==> IsBorder(width, height, Parent(width, e', i))
    {
      assert Parent(width, e', i) == Parent(width, e, i);
      assert t'[i] == t[i];
    }
  }

  /** The cell just entered is linked to the cell it came from. */
  lemma EnterLinkedTile(width: int, height: int, t: seq<bv32>, e: map<int, bv32>, tile: int, m: bv32, v: bv32)
    requires Shaped(width, height, t) && FreeWalls(width, height, t, e)
    requires 0 <= tile < |t| && tile !in e && !IsBorder(width, height, tile) && IsDirection(m)
    requires MarkedAs(t[tile], v)
    requires Settled(t, tile - IndexChange(width, m))
    ensures Settled(t[tile := v], Parent(width, e[tile := m], tile))
    ensures Wall(v, Opposite(m)) ==> IsBorder(width, height, Parent(width, e[tile := m], tile))
  {
    IndexChangeOpposite(width, m);
    var p := Neighbour(width, tile, Opposite(m));
    assert Parent(width, e[tile := m], tile) == p;
    assert Wall(v, Opposite(m)) == Wall(t[tile], Opposite(m));
    assert Wall(t[tile], Opposite(m)) ==> IsBorder(width, height, p);
  }

  lemma EnterLinked(width: int, height: int, t: seq<bv32>, e: map<int, bv32>, tile: int, m: bv32, v: bv32)
    requires Shaped(width, height, t) && BordersBlocked(width, height, t)
    requires EntriesMarked(t, e) && EntriesLinked(width, height, t, e) && FreeWalls(width, height, t, e)
    requires 0 <= tile < |t| && !Taken(t[tile]) && IsDirection(m) && MarkedAs(t[tile], v)
    requires Settled(t, tile - IndexChange(width, m))
    ensures EntriesLinked(width, height, t[tile := v], e[tile := m])
  {
    EnterBorders(width, height, t, tile, v);
    EnterMarked(t, e, tile, m, v);
    EnterLinkedOthers(width, height, t, e, tile, m, v);
    EnterLinkedTile(width, height, t, e, tile, m, v);
  }

  lemma EnterFreeWalls(width: int, height: int, t: seq<bv32>, e: map<int, bv32>, tile: int, m: bv32, v: bv32)
    requires Shaped(width, height, t) && FreeWalls(width, height, t, e)
    requires 0 <= tile < |t|
    ensures FreeWalls(width, height, t[tile := v], e[tile := m])
  {
  }

  lemma EnterFinished(width: int, t: seq<bv32>, e: map<int, bv32>, o: seq<int>, tile: int, m: bv32, v: bv32)
    requires Finished(width, t, e, o) && EntriesMarked(t, e)
    requires 0 <= tile < |t| && !Taken(t[tile]) && MarkedAs(t[tile], v)
    ensures Finished(width, t[tile := v], e[tile := m], o)
  {
    var t', e' := t[tile := v], e[tile := m];
    EnterMarked(t, e, tile, m, v);
    forall k | 0 <= k < |o|
      ensures o[k] in e' && Done(width, t', o[k]) && WallsMatch(width, t', e', o[k])
    {
      var c := o[k];
      assert t'[c] == t[c];
      forall d | IsDirection(d)
        ensures Settled(t', Neighbour(width, c, d))
        ensures Carved(width, e', c, d) <==> Carved(width, e, c, d)
      {
        assert Settled(t, Neighbour(width, c, d));
      }
    }
  }

  /** Entering a free cell keeps the invariant. */
  lemma Enter(width: int, height: int, t: seq<bv32>, e: map<int, bv32>, o: seq<int>, tile: int, m: bv32, v: bv32)
    requires Consistent(width, height, t, e, o)
    requires 0 <= tile < |t| && !Taken(t[tile]) && IsDirection(m) && MarkedAs(t[tile], v)
    requires Settled(t, tile - IndexChange(width, m))
    ensures tile !in e && !IsBorder(width, height, tile)
    ensures Consistent(width, height, t[tile := v], e[tile := m], o)
  {
    EnterBorders(width, height, t, tile, v);
    EnterMarked(t, e, tile, m, v);
    EnterLinked(width, height, t, e, tile, m, v);
    EnterFreeWalls(width, height, t, e, tile, m, v);
    EnterFinished(width, t, e, o, tile, m, v);
    EnterOrdered(width, e, o, tile, m);
  }

  /** Entering a cell that is not yet listed keeps the parents of the listed cells. */
  lemma EnterOrdered(width: int, e: map<int, bv32>, o: seq<int>, tile: int, m: bv32)
    requires Ordered(width, e, o) && tile !in e
    requires forall k :: 0 <= k < |o| ==> o[k] in e
    ensures Ordered(width, e[tile := m], o)
  {
    var e' := e[tile := m];
    forall j, k | 0 <= j < k < |o| && o[k] in e'
      ensures o[j] != Parent(width, e', o[k])
    {
      assert Parent(width, e', o[k]) == Parent(width, e, o[k]);
    }
  }

  /** No neighbour of a free cell was entered from it. */
  lemma FreeNotCarved(width: int, height: int, t: seq<bv32>, e: map<int, bv32>, tile: int, d: bv32)
    requires width >= 1 && EntriesLinked(width, height, t, e) && IsDirection(d)
    requires 0 <= tile < |t| && !Taken(t[tile])
    ensures !Carved(width, e, tile, d)
  {
    var n := Neighbour(width, tile, d);
    if n in e {
      assert Settled(t, Parent(width, e, n));
    }
  }

  /** Right after entering, an onward direction is untried. */
  lemma EnterUntried(width: int, height: int, t: seq<bv32>, e: map<int, bv32>, tile: int, m: bv32, v: bv32, d: bv32)
    requires width >= 1 && EntriesLinked(width, height, t, e) && FreeWalls(width, height, t, e)
    requires 0 <= tile < |t| && tile !in e && !IsBorder(width, height, tile) && !Taken(t[tile])
    requires MarkedAs(t[tile], v) && IsDirection(d)
    ensures Untried(width, height, t[tile := v], e[tile := m], tile, d)
  {
    EnterNotCarved(width, height, t, e, tile, m, d);
    assert Wall(v, d) == Wall(t[tile], d);
    EnterWallUntried(width, height, t, e, tile, v, d);
  }

  lemma EnterNotCarved(width: int, height: int, t: seq<bv32>, e: map<int, bv32>, tile: int, m: bv32, d: bv32)
    requires width >= 1 && EntriesLinked(width, height, t, e) && IsDirection(d)
    requires 0 <= tile < |t| && tile !in e && !Taken(t[tile])
    ensures !Carved(width, e[tile := m], tile, d)
  {
    IndexChangeOpposite(width, d);
    FreeNotCarved(width, height, t, e, tile, d);
    assert Neighbour(width, tile, d) != tile;
  }

  lemma EnterWallUntried(width: int, height: int, t: seq<bv32>, e: map<int, bv32>, tile: int, v: bv32, d: bv32)
    requires width >= 1 && FreeWalls(width, height, t, e) && IsDirection(d)
    requires 0 <= tile < |t| && tile !in e && !IsBorder(width, height, tile) && Wall(v, d) == Wall(t[tile], d)
    ensures Wall(v, d) ==> IsBorder(width, height, Neighbour(width, tile, d))
  {
  }

  /** Right after entering, the three candidates of the entering move are untried. */
  lemma EnterExploring(width: int, height: int, t: seq<bv32>, e: map<int, bv32>, o: seq<int>, tile: int, m: bv32, v: bv32)
    requires Consistent(width, height, t, e, o)
    requires 0 <= tile < |t| && !Taken(t[tile]) && IsDirection(m) && MarkedAs(t[tile], v)
    ensures Exploring(width, height, t[tile := v], e[tile := m], o, tile, m, Directions(m))
  {
    EnterMarked(t, e, tile, m, v);
    EnterBorders(width, height, t, tile, v);
    DirectionsCover(m);
    var pool := Directions(m);
    assert Distinct(pool);
    forall d | d in pool
      ensures Untried(width, height, t[tile := v], e[tile := m], tile, d)
    {
      EnterUntried(width, height, t, e, tile, m, v, d);
    }
  }

  // ---------------------------------------------------------------------------
  // Closing a direction: the tile gains the wall bit of a refused move

  /** v is v0 with the wall of move set. */
  ghost predicate WalledAs(v0: bv32, v: bv32, move: bv32) {
    Visited(v) == Visited(v0) && Blocked(v) == Blocked(v0) && Taken(v) == Taken(v0) && Wall(v, move) &&
    forall d {:trigger Wall(v, d)} {:trigger Wall(v0, d)} :: IsDirection(d) && d != move ==> Wall(v, d) == Wall(v0, d)
  }

  lemma WalledAsWall(v0: bv32, move: bv32)
    requires IsDirection(move)
    ensures WalledAs(v0, v0 | move, move)
  {
    WallFlags(v0, move);
  }

  /** Setting the wall of an onward direction of a visited, unfinished cell
      keeps the invariant. */
  lemma AddWall(width: int, height: int, t: seq<bv32>, e: map<int, bv32>, o: seq<int>, c: int, move: bv32, v: bv32)
    requires Consistent(width, height, t, e, o)
    requires c in e && c !in o && IsDirection(move) && move != Opposite(e[c]) && WalledAs(t[c], v, move)
    ensures Consistent(width, height, t[c := v], e, o)
  {
    AddWallBorders(width, height, t, e, c, move, v);
    AddWallLinked(width, height, t, e, c, move, v);
    AddWallFinished(width, height, t, e, o, c, move, v);
  }

  lemma AddWallBorders(width: int, height: int, t: seq<bv32>, e: map<int, bv32>, c: int, move: bv32, v: bv32)
    requires Shaped(width, height, t) && BordersBlocked(width, height, t) && EntriesMarked(t, e)
    requires c in e && WalledAs(t[c], v, move)
    ensures BordersBlocked(width, height, t[c := v]) && EntriesMarked(t[c := v], e)
  {
    InitialFlags();
    assert !IsBorder(width, height, c);
  }

  lemma AddWallLinked(width: int, height: int, t: seq<bv32>, e: map<int, bv32>, c: int, move: bv32, v: bv32)
    requires Shaped(width, height, t) && EntriesLinked(width, height, t, e) && FreeWalls(width, height, t, e)
    requires c in e && IsDirection(move) && move != Opposite(e[c]) && WalledAs(t[c], v, move)
    ensures EntriesLinked(width, height, t[c := v], e) && FreeWalls(width, height, t[c := v], e)
  {
    var t' := t[c := v];
    forall i | i in e
      ensures Settled(t', Parent(width, e, i))
      ensures Wall(t'[i], Opposite(e[i])) ==> IsBorder(width, height, Parent(width, e, i))
    {
      assert Settled(t, Parent(width, e, i));
    }
  }

  lemma AddWallFinished(width: int, height: int, t: seq<bv32>, e: map<int, bv32>, o: seq<int>, c: int, move: bv32, v: bv32)
    requires Shaped(width, height, t) && Finished(width, t, e, o)
    requires 0 <= c < |t| && c !in o && WalledAs(t[c], v, move)
    ensures Finished(width, t[c := v], e, o)
  {
    var t' := t[c := v];
    forall k | 0 <= k < |o|
      ensures Done(width, t', o[k]) && WallsMatch(width, t', e, o[k])
    {
      assert o[k] != c;
      forall d | IsDirection(d)
        ensures Settled(t', Neighbour(width, o[k], d))
      {
        assert Settled(t, Neighbour(width, o[k], d));
      }
    }
  }

  // ---------------------------------------------------------------------------
  // Finishing a cell: the tile is appended to the visit order

  /** When the pool is empty every neighbour is settled and every onward wall
      is final. */
  lemma ExploredAll(width: int, height: int, t: seq<bv32>, e: map<int, bv32>, o: seq<int>, tile: int, m: bv32)
    requires Consistent(width, height, t, e, o)
    requires Exploring(width, height, t, e, o, tile, m, [])
    ensures Done(width, t, tile) && WallsMatch(width, t, e, tile)
  {
    IndexChangeOpposite(width, m);
    assert Settled(t, Parent(width, e, tile));
    assert Parent(width, e, tile) == Neighbour(width, tile, Opposite(m));
    forall d | IsDirection(d)
      ensures Settled(t, Neighbour(width, tile, d))
    {
      if d != Opposite(m) {
        assert Tried(width, t, e, tile, d);
      }
    }
    forall d | IsDirection(d) && d != Opposite(e[tile])
      ensures Wall(t[tile], d) <==> !Carved(width, e, tile, d)
    {
      assert Tried(width, t, e, tile, d);
    }
  }

  /** Appending a fully explored cell whose parent is not listed yet keeps
      the invariant. */
  lemma Finish(width: int, height: int, t: seq<bv32>, e: map<int, bv32>, o: seq<int>, tile: int, m: bv32)
    requires Consistent(width, height, t, e, o)
    requires Exploring(width, height, t, e, o, tile, m, [])
    requires Parent(width, e, tile) !in o
    ensures Consistent(width, height, t, e, o + [tile])
  {
    ExploredAll(width, height, t, e, o, tile, m);
    var o' := o + [tile];
    forall k | 0 <= k < |o'|
      ensures o'[k] in e && Done(width, t, o'[k]) && WallsMatch(width, t, e, o'[k])
    {
      if k < |o| {
        assert o'[k] == o[k];
      }
    }
    FinishOrdered(width, e, o, tile);
  }

  lemma FinishOrdered(width: int, e: map<int, bv32>, o: seq<int>, tile: int)
    requires Ordered(width, e, o) && tile in e && Parent(width, e, tile) !in o
    ensures Ordered(width, e, o + [tile])
  {
    var o' := o + [tile];
    forall j, k | 0 <= j < k < |o'| && o'[k] in e
      ensures o'[j] != Parent(width, e, o'[k])
    {
      assert o'[j] == o[j];
      if k < |o| {
        assert o'[k] == o[k];
      }
    }
  }

  /** The cell a tile was entered from, settled before the tile was entered
      and not listed then, is still not listed while the walk grows. */
  lemma ParentPending(t0: seq<bv32>, e0: map<int, bv32>, o0: seq<int>,
                      t1: seq<bv32>, e1: map<int, bv32>, o1: seq<int>, p: int)
    requires Grew(t0, e0, o0, t1, e1, o1, {}) && Settled(t0, p) && p !in o0
    ensures p !in o1
  {
    forall k | 0 <= k < |o1|
      ensures o1[k] != p
    {
      if k < |o0| {
        assert o1[k] == o1[..|o0|][k];
      }
    }
  }

  // ---------------------------------------------------------------------------
  // Composing steps of the walk

  /** Two successive growths make one; the cells allowed to change add up. */
  lemma GrewTrans(t0: seq<bv32>, e0: map<int, bv32>, o0: seq<int>,
                  t1: seq<bv32>, e1: map<int, bv32>, o1: seq<int>,
                  t2: seq<bv32>, e2: map<int, bv32>, o2: seq<int>, s1: set<int>, s2: set<int>)
    requires Grew(t0, e0, o0, t1, e1, o1, s1) && Grew(t1, e1, o1, t2, e2, o2, s2)
    ensures Grew(t0, e0, o0, t2, e2, o2, s1 + s2)
  {
    assert o2[..|o0|] == o1[..|o1|][..|o0|];
    forall k | |o0| <= k < |o2|
      ensures o2[k] in e2 && o2[k] !in e0
    {
      if k < |o1| {
        assert o2[k] == o2[..|o1|][k] == o1[k];
        assert o1[k] in e1 && o1[k] !in e0;
        assert o1[k] in e2;
      } else {
        assert o2[k] in e2 && o2[k] !in e1;
        assert forall i :: i in e0 ==> i in e1;
      }
    }
  }

  /** A changed cell that is new need not be listed as touched. */
  lemma GrewForget(t0: seq<bv32>, e0: map<int, bv32>, o0: seq<int>,
                   t1: seq<bv32>, e1: map<int, bv32>, o1: seq<int>, s: set<int>, x: int)
    requires Grew(t0, e0, o0, t1, e1, o1, s + {x}) && x in e1 && x !in e0
    ensures Grew(t0, e0, o0, t1, e1, o1, s)
  {
  }

  /** Free cells only get fewer, and entries only more. */
  lemma GrewFree(t0: seq<bv32>, e0: map<int, bv32>, o0: seq<int>,
                 t1: seq<bv32>, e1: map<int, bv32>, o1: seq<int>, s: set<int>)
    requires Grew(t0, e0, o0, t1, e1, o1, s)
    ensures FreeCells(t1) <= FreeCells(t0)
    ensures e0.Keys <= e1.Keys && |e0.Keys| <= |e1.Keys|
  {
    assert e0.Keys <= e1.Keys by {
      forall i | i in e0.Keys
        ensures i in e1.Keys
      {
      }
    }
    SubsetSize(e0.Keys, e1.Keys);
  }

  /** Entering a free cell removes it from the free cells and adds an entry. */
  lemma FewerFree(t0: seq<bv32>, e0: map<int, bv32>, o0: seq<int>,
                  t1: seq<bv32>, e1: map<int, bv32>, o1: seq<int>, tile: int)
    requires Grew(t0, e0, o0, t1, e1, o1, {}) && EntriesMarked(t1, e1)
    requires tile in e1 && tile !in e0
    ensures FreeCells(t1) < FreeCells(t0)
    ensures |FreeCells(t1)| < |FreeCells(t0)|
    ensures |e0.Keys| < |e1.Keys|
  {
    GrewFree(t0, e0, o0, t1, e1, o1, {});
    TakenFlags(t1[tile]);
    assert tile in FreeCells(t0) && tile !in FreeCells(t1);
    SubsetSize(FreeCells(t1), FreeCells(t0));
    assert tile in e1.Keys - e0.Keys;
    SubsetSize(e0.Keys, e1.Keys);
  }

  /** One attempt inside nextTile keeps track of the new cells. */
  lemma TrackStep(width: int, height: int,
                  t0: seq<bv32>, e0: map<int, bv32>, o0: seq<int>,
                  t1: seq<bv32>, e1: map<int, bv32>, o1: seq<int>,
                  t2: seq<bv32>, e2: map<int, bv32>, o2: seq<int>, tile: int, move: bv32)
    requires width >= 1 && IsDirection(move)
    requires Tracked(width, t0, e0, o0, t1, e1, o1, tile)
    requires Attempted(width, height, t1, e1, o1, t2, e2, o2, tile, move)
    ensures Tracked(width, t0, e0, o0, t2, e2, o2, tile)
  {
    GrewTrans(t0, e0, o0, t1, e1, o1, t2, e2, o2, {}, {tile});
    assert {} + {tile} == {} + {tile};
    GrewForget(t0, e0, o0, t2, e2, o2, {}, tile);
    forall i | i in e2 && i !in e0 && i != tile
      ensures i in o2[|o0|..]
    {
      if i in e1 {
        assert i in o1[|o0|..];
        var k :| |o0| <= k < |o1| && o1[k] == i;
        assert o2[k] == i;
      } else {
        assert i in o2[|o1|..];
        var k :| |o1| <= k < |o2| && o2[k] == i;
      }
    }
    var n := Neighbour(width, tile, move);
    forall m | m in e2 && m !in e0 && m != tile
      ensures Parent(width, e2, m) in e2 && Parent(width, e2, m) !in e0
    {
      if m in e1 {
        assert Parent(width, e2, m) == Parent(width, e1, m);
      } else if m == n {
        assert Parent(width, e2, m) == tile;
      }
    }
  }

  /** Once `tile` is appended, every new cell is finished. */
  lemma TrackDone(width: int,
                  t0: seq<bv32>, e0: map<int, bv32>, o0: seq<int>,
                  t1: seq<bv32>, e1: map<int, bv32>, o1: seq<int>, tile: int)
    requires Tracked(width, t0, e0, o0, t1, e1, o1, tile)
    ensures Grew(t0, e0, o0, t1, e1, o1 + [tile], {})
    ensures Appended(e0, o0, e1, o1 + [tile])
  {
    var o2 := o1 + [tile];
    assert o2[..|o1|] == o1;
    assert o2[..|o0|] == o1[..|o0|];
    forall i | i in e1 && i !in e0
      ensures i in o2[|o0|..]
    {
      if i == tile {
        assert o2[|o1|] == tile;
      } else {
        assert i in o1[|o0|..];
        var k :| |o0| <= k < |o1| && o1[k] == i;
        assert o2[k] == i;
      }
    }
  }

  // ---------------------------------------------------------------------------
  // One attempt: walk on to the neighbour, and wall that side when the walk was refused

  /** Only the move that was attempted can have been carved from c. */
  lemma CarvedKept(width: int, e0: map<int, bv32>, e1: map<int, bv32>, c: int, move: bv32, d: bv32)
    requires width >= 1 && IsDirection(move) && IsDirection(d) && d != move && c in e0
    requires forall i :: i in e0 ==> i in e1 && e1[i] == e0[i]
    requires NewParents(width, e0, e1, Neighbour(width, c, move))
    ensures Carved(width, e1, c, d) <==> Carved(width, e0, c, d)
  {
    IndexChangeOpposite(width, move);
    var n := Neighbour(width, c, d);
    assert n != Neighbour(width, c, move);
    if n in e1 && n !in e0 {
      assert Parent(width, e1, n) in e1 && Parent(width, e1, n) !in e0;
    }
  }

  /** The walk went on into the neighbour. */
  lemma AttemptWent(width: int, height: int,
                    t0: seq<bv32>, e0: map<int, bv32>, o0: seq<int>,
                    t1: seq<bv32>, e1: map<int, bv32>, o1: seq<int>, c: int, move: bv32)
    requires Shaped(width, height, t0) && BordersBlocked(width, height, t0) && EntriesMarked(t1, e1)
    requires c in e0 && 0 <= c < |t0| && IsDirection(move) && Untried(width, height, t0, e0, c, move)
    requires Grew(t0, e0, o0, t1, e1, o1, {}) && Appended(e0, o0, e1, o1)
    requires NewParents(width, e0, e1, Neighbour(width, c, move))
    requires Neighbour(width, c, move) in e1 && Neighbour(width, c, move) !in e0
    requires e1[Neighbour(width, c, move)] == move
    ensures Attempted(width, height, t0, e0, o0, t1, e1, o1, c, move)
  {
    var n := Neighbour(width, c, move);
    InitialFlags();
    TakenFlags(t1[n]);
    assert !IsBorder(width, height, n);
    assert t1[c] == t0[c];
    forall d | IsDirection(d) && d != move
      ensures Carved(width, e1, c, d) <==> Carved(width, e0, c, d)
    {
      CarvedKept(width, e0, e1, c, move, d);
    }
  }

  /** The neighbour was settled: the wall goes up. */
  lemma AttemptBlocked(width: int, height: int, t: seq<bv32>, e: map<int, bv32>, o: seq<int>, c: int, move: bv32, v: bv32)
    requires Consistent(width, height, t, e, o)
    requires c in e && 0 <= c < |t| && IsDirection(move) && Untried(width, height, t, e, c, move)
    requires Settled(t, Neighbour(width, c, move)) && WalledAs(t[c], v, move)
    ensures Attempted(width, height, t, e, o, t[c := v], e, o, c, move)
  {
    IndexChangeOpposite(width, move);
    assert o[..|o|] == o;
  }

  /** Taking entry k out of a list without repetitions. */
  lemma RemoveAt(pool: seq<bv32>, k: int)
    requires Distinct(pool) && 0 <= k < |pool|
    ensures Distinct(pool[..k] + pool[k + 1..])
    ensures forall x :: x in pool[..k] + pool[k + 1..] <==> x in pool && x != pool[k]
  {
    var rest := pool[..k] + pool[k + 1..];
    forall x | x in pool && x != pool[k]
      ensures x in rest
    {
      var j :| 0 <= j < |pool| && pool[j] == x;
      if j < k {
        assert rest[j] == x;
      } else {
        assert rest[j - 1] == x;
      }
    }
    forall i, j | 0 <= i < j < |rest|
      ensures rest[i] != rest[j]
    {
      var i' := if i < k then i else i + 1;
      var j' := if j < k then j else j + 1;
      assert rest[i] == pool[i'] && rest[j] == pool[j'];
    }
  }

  /** An attempt moves its direction from the pool to the tried directions. */
  lemma AttemptStep(width: int, height: int,
                    t0: seq<bv32>, e0: map<int, bv32>, o0: seq<int>,
                    t1: seq<bv32>, e1: map<int, bv32>, o1: seq<int>,
                    tile: int, lastMove: bv32, pool: seq<bv32>, k: int)
    requires width >= 1 && Exploring(width, height, t0, e0, o0, tile, lastMove, pool) && 0 <= k < |pool|
    requires Attempted(width, height, t0, e0, o0, t1, e1, o1, tile, pool[k])
    ensures Exploring(width, height, t1, e1, o1, tile, lastMove, pool[..k] + pool[k + 1..])
  {
    var move := pool[k];
    var rest := pool[..k] + pool[k + 1..];
    RemoveAt(pool, k);
    forall d | d in rest
      ensures IsDirection(d) && d != Opposite(lastMove) && Untried(width, height, t1, e1, tile, d)
    {
      assert d in pool && d != move;
      assert Untried(width, height, t0, e0, tile, d);
    }
    forall d | IsDirection(d) && d != Opposite(lastMove) && d !in rest
      ensures Tried(width, t1, e1, tile, d)
    {
      if d != move {
        assert Tried(width, t0, e0, tile, d);
      }
    }
  }

  // ---------------------------------------------------------------------------
  // Counting cells

  /** There are no more entries than stored cells. */
  lemma EntriesBound(t: seq<bv32>, e: map<int, bv32>)
    requires EntriesMarked(t, e)
    ensures |e.Keys| <= |t|
  {
    RangeFacts(0, |t|);
    forall i | i in e.Keys
      ensures i in Range(0, |t|)
    {
      assert i in e;
    }
    SubsetSize(e.Keys, Range(0, |t|));
  }

  /** A visited cell not yet finished leaves room in tileOrder. */
  lemma OrderRoom(width: int, t: seq<bv32>, e: map<int, bv32>, o: seq<int>, tile: int)
    requires Finished(width, t, e, o) && EntriesMarked(t, e)
    requires tile in e && tile !in o
    ensures |o| < |e.Keys| <= |t|
  {
    DistinctSize(o);
    assert Elements(o) + {tile} <= e.Keys;
    assert tile !in Elements(o);
    SubsetSize(Elements(o) + {tile}, e.Keys);
    EntriesBound(t, e);
  }

  /** A visited cell is an interior cell and is settled. */
  lemma EntryInterior(width: int, height: int, t: seq<bv32>, e: map<int, bv32>, c: int)
    requires Shaped(width, height, t) && BordersBlocked(width, height, t) && EntriesMarked(t, e)
    requires c in e
    ensures IsInterior(width, height, c) && Settled(t, c)
  {
    InitialFlags();
    TakenFlags(t[c]);
  }

  /** Entering a free cell starts the progress of nextTile on it. */
  lemma TrackStart(width: int, t: seq<bv32>, e: map<int, bv32>, o: seq<int>, tile: int, m: bv32, v: bv32)
    requires 0 <= tile < |t| && !Taken(t[tile]) && tile !in e && Taken(v)
    ensures Tracked(width, t, e, o, t[tile := v], e[tile := m], o, tile)
    ensures |e[tile := m].Keys| == |e.Keys| + 1
  {
    assert e[tile := m].Keys == e.Keys + {tile};
  }

  // ---------------------------------------------------------------------------
  // The finished labyrinth: what generate leaves

  /** generate's start cell, column 1 of row 1. */
  function Start(width: int): int {
    1 + width + 2
  }

  /** The cell in column w of row h, whose right wall the exits open. */
  function Last(width: int, height: int): int {
    width + height * (width + 2)
  }

  /** The border cell left of the start, which the exits open. */
  function Entrance(width: int): int {
    width + 2
  }

  /** The border cell right of Last, which the exits open. */
  function Exit(width: int, height: int): int {
    width + 1 + height * (width + 2)
  }

  /** The walk reached everything: the visited cells are the interior cells,
      tileOrder lists each of them once, and the start cell comes last. */
  ghost predicate Complete(width: int, height: int, e: map<int, bv32>, o: seq<int>)
    requires width >= 1
  {
    Distinct(o) && |o| == width * height && |o| > 0 && o[|o| - 1] == Start(width) &&
    (forall i :: i in e <==> IsInterior(width, height, i)) &&
    (forall i :: i in o <==> IsInterior(width, height, i))
  }

  /** Every interior cell is visited and none is blocked. */
  ghost predicate Marked(width: int, height: int, t: seq<bv32>) {
    Shaped(width, height, t) &&
    forall i :: IsInterior(width, height, i) ==> Visited(t[i]) && !Blocked(t[i])
  }

  /** Between two interior neighbours there is a wall exactly when the walk
      went between them in neither direction. */
  ghost predicate Passages(width: int, height: int, t: seq<bv32>, e: map<int, bv32>) {
    Shaped(width, height, t) &&
    forall c, d {:trigger Wall(t[c], d)} ::
      IsInterior(width, height, c) && IsDirection(d) && IsInterior(width, height, Neighbour(width, c, d)) ==>
      (Wall(t[c], d) <==> !Carved(width, e, c, d) && !Carved(width, e, Neighbour(width, c, d), Opposite(d)))
  }

  /** Every interior cell is walled off from the border, except the left
      side of the start and the right side of Last when those are open. */
  ghost predicate Enclosed(width: int, height: int, t: seq<bv32>, openLeft: bool, openRight: bool) {
    Shaped(width, height, t) &&
    forall c, d {:trigger Wall(t[c], d)} ::
      IsInterior(width, height, c) && IsDirection(d) && IsBorder(width, height, Neighbour(width, c, d)) ==>
      (Wall(t[c], d) <==> !Gap(width, height, openLeft, openRight, c, d))
  }

  /** The side d of cell c is one of the opened exits. */
  predicate Gap(width: int, height: int, openLeft: bool, openRight: bool, c: int, d: bv32) {
    (openLeft && c == Start(width) && d == LEFT) || (openRight && c == Last(width, height) && d == RIGHT)
  }

  /** The border holds BLOCK, except the entrance and the exit when those
      are open: they hold UP|DOWN. */
  ghost predicate Rim(width: int, height: int, t: seq<bv32>, openIn: bool, openOut: bool) {
    Shaped(width, height, t) &&
    forall i :: 0 <= i < |t| && IsBorder(width, height, i) ==>
      t[i] == if (openIn && i == Entrance(width)) || (openOut && i == Exit(width, height)) then UP | DOWN else BLOCK
  }

  /** The labyrinth generate(exits) leaves. */
  ghost predicate Maze(width: int, height: int, t: seq<bv32>, e: map<int, bv32>, exits: bool) {
    Marked(width, height, t) && Passages(width, height, t, e) &&
    Enclosed(width, height, t, exits, exits) && Rim(width, height, t, exits, exits)
  }

  /** A map keyed by interior cells only has at most w*h keys. */
  lemma InteriorKeys(width: int, height: int, e: map<int, bv32>)
    requires width >= 1 && height >= 1
    requires forall c :: c in e ==> IsInterior(width, height, c)
    ensures |e.Keys| <= width * height
  {
    assert e.Keys <= InteriorCells(width, height);
    SubsetSize(e.Keys, InteriorCells(width, height));
    InteriorSize(width, height);
  }

  /** The visited cells are interior, so the walk lists at most w*h cells. */
  lemma EntriesWithin(width: int, height: int, t: seq<bv32>, e: map<int, bv32>)
    requires Shaped(width, height, t) && BordersBlocked(width, height, t) && EntriesMarked(t, e)
    ensures forall c :: c in e ==> IsInterior(width, height, c)
    ensures |e.Keys| <= width * height
  {
    forall c | c in e
      ensures IsInterior(width, height, c)
    {
      EntryInterior(width, height, t, e, c);
    }
    InteriorKeys(width, height, e);
  }

  /** While the walk runs, tileOrder holds no more cells than were visited,
      so tileOrderIndex never exceeds w*h. */
  lemma OrderWithin(width: int, height: int, t: seq<bv32>, e: map<int, bv32>, o: seq<int>)
    requires Consistent(width, height, t, e, o)
    ensures |o| <= |e.Keys| <= width * height
  {
    DistinctSize(o);
    forall c | c in Elements(o)
      ensures c in e.Keys
    {
      var k :| 0 <= k < |o| && o[k] == c;
    }
    SubsetSize(Elements(o), e.Keys);
    EntriesWithin(width, height, t, e);
  }

  /** A walk from the start that has appended every cell it visited has
      visited every interior cell: each listed cell has all neighbours
      settled, so the visited cells are closed under interior moves. */
  lemma Covered(width: int, height: int, t: seq<bv32>, e: map<int, bv32>, o: seq<int>)
    requires Consistent(width, height, t, e, o) && Appended(map[], [], e, o) && Start(width) in e
    ensures forall i :: i in e <==> IsInterior(width, height, i)
    ensures forall i :: i in o <==> IsInterior(width, height, i)
    ensures |o| == width * height
  {
    forall i | i in e
      ensures IsInterior(width, height, i)
    {
      EntryInterior(width, height, t, e, i);
    }
    forall i | i in e
      ensures i in o
    {
      assert i in o[0..];
    }
    forall i, d | i in e.Keys && IsInterior(width, height, i) && IsDirection(d) && IsInterior(width, height, Neighbour(width, i, d))
      ensures Neighbour(width, i, d) in e.Keys
    {
      var k :| 0 <= k < |o| && o[k] == i;
      assert Done(width, t, o[k]);
      var n := Neighbour(width, i, d);
      assert Settled(t, n);
      TakenFlags(t[n]);
    }
    assert Cell(width, 1, 1) == Start(width);
    forall i | i in e.Keys && IsInterior(width, height, i) && IsInterior(width, height, i + 1)
      ensures i + 1 in e.Keys
    {
      assert Neighbour(width, i, RIGHT) == i + 1;
    }
    forall i | i in e.Keys && IsInterior(width, height, i) && IsInterior(width, height, i + (width + 2))
      ensures i + (width + 2) in e.Keys
    {
      assert Neighbour(width, i, DOWN) == i + (width + 2);
    }
    Flood(width, height, e.Keys);
    assert Elements(o) == InteriorCells(width, height);
    DistinctSize(o);
    InteriorSize(width, height);
  }

  /** Once every interior cell is finished, each interior wall says whether
      the walk went between the two cells. */
  lemma PassagesHold(width: int, height: int, t: seq<bv32>, e: map<int, bv32>, o: seq<int>)
    requires Consistent(width, height, t, e, o)
    requires forall i :: IsInterior(width, height, i) ==> i in o
    ensures Passages(width, height, t, e)
  {
    forall c, d | IsInterior(width, height, c) && IsDirection(d) && IsInterior(width, height, Neighbour(width, c, d))
      ensures Wall(t[c], d) <==> !Carved(width, e, c, d) && !Carved(width, e, Neighbour(width, c, d), Opposite(d))
    {
      var k :| 0 <= k < |o| && o[k] == c;
      assert WallsMatch(width, t, e, o[k]);
      var n := Neighbour(width, c, d);
      IndexChangeOpposite(width, d);
      assert Neighbour(width, n, Opposite(d)) == c;
      if d == Opposite(e[c]) {
        IndexChangeOpposite(width, e[c]);
        assert Parent(width, e, c) == n;
        assert Opposite(d) == e[c];
        assert Carved(width, e, n, Opposite(d));
        assert !IsBorder(width, height, Parent(width, e, c));
      } else {
        assert Opposite(d) != e[c];
      }
    }
  }

  /** Walls look the same from both sides. */
  lemma WallsAgree(width: int, height: int, t: seq<bv32>, e: map<int, bv32>, c: int, d: bv32)
    requires width >= 1 && Passages(width, height, t, e)
    requires IsInterior(width, height, c) && IsDirection(d) && IsInterior(width, height, Neighbour(width, c, d))
    ensures Wall(t[c], d) <==> Wall(t[Neighbour(width, c, d)], Opposite(d))
  {
    var n := Neighbour(width, c, d);
    IndexChangeOpposite(width, d);
    assert Neighbour(width, n, Opposite(d)) == c;
    assert Opposite(Opposite(d)) == d;
    assert Wall(t[n], Opposite(d)) <==> !Carved(width, e, n, Opposite(d)) && !Carved(width, e, c, d);
  }

  /** The walk from the start never crosses the border, and the start keeps
      the left wall generate sets before the walk. */
  lemma EnclosedHold(width: int, height: int, t: seq<bv32>, e: map<int, bv32>, o: seq<int>)
    requires Consistent(width, height, t, e, o)
    requires forall i :: IsInterior(width, height, i) ==> i in o
    requires NewParents(width, map[], e, Start(width)) && Start(width) in e && e[Start(width)] == RIGHT
    requires Wall(t[Start(width)], LEFT)
    ensures Enclosed(width, height, t, false, false)
  {
    InitialFlags();
    forall c, d | IsInterior(width, height, c) && IsDirection(d) && IsBorder(width, height, Neighbour(width, c, d))
      ensures Wall(t[c], d)
    {
      var k :| 0 <= k < |o| && o[k] == c;
      assert WallsMatch(width, t, e, o[k]);
      var n := Neighbour(width, c, d);
      NeighbourInRange(width, height, c, d);
      assert t[n] == BLOCK && n !in e;
      if d == Opposite(e[c]) {
        IndexChangeOpposite(width, e[c]);
        assert Parent(width, e, c) == n;
        assert c == Start(width);
      }
    }
  }

  /** Before exits are opened the labyrinth is a Maze. */
  lemma MazeHold(width: int, height: int, t: seq<bv32>, e: map<int, bv32>, o: seq<int>)
    requires Consistent(width, height, t, e, o)
    requires forall i :: IsInterior(width, height, i) ==> i in o
    requires NewParents(width, map[], e, Start(width)) && Start(width) in e && e[Start(width)] == RIGHT
    requires Wall(t[Start(width)], LEFT)
    ensures Maze(width, height, t, e, false)
  {
    forall i | IsInterior(width, height, i)
      ensures Visited(t[i]) && !Blocked(t[i])
    {
      var k :| 0 <= k < |o| && o[k] == i;
      assert o[k] in e;
    }
    PassagesHold(width, height, t, e, o);
    EnclosedHold(width, height, t, e, o);
  }


  /** Before the walk: the pristine grid with the start's left wall set
      satisfies the walk invariant, and the cell the start is entered from
      is the blocked border cell to its left. */
  lemma StartReady(width: int, height: int, t: seq<bv32>, v: bv32)
    requires Shaped(width, height, t)
    requires forall i :: 0 <= i < |t| ==> t[i] == if IsBorder(width, height, i) then BLOCK else 0
    requires WalledAs(0, v, LEFT)
    ensures IsInterior(width, height, Start(width)) && !Taken(v)
    ensures Consistent(width, height, t[Start(width) := v], map[], [])
    ensures Settled(t[Start(width) := v], Start(width) - IndexChange(width, RIGHT))
  {
    InitialFlags();
    InteriorAt(width, height, 1, 1);
    assert Cell(width, 1, 1) == Start(width);
    NeighbourInRange(width, height, Start(width), LEFT);
    var t' := t[Start(width) := v];
    assert IsBorder(width, height, Start(width) - 1);
    forall i, d | 0 <= i < |t'| && !IsBorder(width, height, i) && IsDirection(d)
      ensures Wall(t'[i], d) ==> IsBorder(width, height, Neighbour(width, i, d))
    {
      if i != Start(width) {
        assert t'[i] == 0;
      } else if d != LEFT {
        assert Wall(v, d) == Wall(0, d);
      }
    }
  }

  /** What generate(false) leaves, from what nextTile promises about the walk
      from the start. */
  lemma Generated(width: int, height: int, t: seq<bv32>, e: map<int, bv32>, o: seq<int>)
    requires Consistent(width, height, t, e, o)
    requires Appended(map[], [], e, o) && NewParents(width, map[], e, Start(width))
    requires Start(width) in e && e[Start(width)] == RIGHT && 0 < |o| && o[|o| - 1] == Start(width)
    requires Wall(t[Start(width)], LEFT)
    ensures Complete(width, height, e, o) && Maze(width, height, t, e, false)
  {
    Covered(width, height, t, e, o);
    MazeHold(width, height, t, e, o);
  }

  /** v is v0 with the wall of move cleared. */
  ghost predicate OpenedAs(v0: bv32, v: bv32, move: bv32) {
    Visited(v) == Visited(v0) && Blocked(v) == Blocked(v0) && !Wall(v, move) &&
    forall d {:trigger Wall(v, d)} {:trigger Wall(v0, d)} :: IsDirection(d) && d != move ==> Wall(v, d) == Wall(v0, d)
  }

  lemma OpenedAsOpen(v0: bv32, move: bv32)
    requires IsDirection(move)
    ensures OpenedAs(v0, v0 & !move, move)
  {
    OpenFlags(v0, move);
  }

  /** The labyrinth with some of the four exit changes made. */
  ghost predicate Opened(width: int, height: int, t: seq<bv32>, e: map<int, bv32>,
                         openLeft: bool, openRight: bool, openIn: bool, openOut: bool) {
    Marked(width, height, t) && Passages(width, height, t, e) &&
    Enclosed(width, height, t, openLeft, openRight) && Rim(width, height, t, openIn, openOut)
  }

  lemma MazeOpened(width: int, height: int, t: seq<bv32>, e: map<int, bv32>, exits: bool)
    ensures Maze(width, height, t, e, exits) <==> Opened(width, height, t, e, exits, exits, exits, exits)
  {
  }

  /** Where the exits are: the entrance and the exit are border cells beside
      the start and Last, which are interior. */
  lemma ExitCells(width: int, height: int)
    requires width >= 1 && height >= 1
    ensures IsInterior(width, height, Start(width)) && IsInterior(width, height, Last(width, height))
    ensures Neighbour(width, Start(width), LEFT) == Entrance(width)
    ensures Neighbour(width, Last(width, height), RIGHT) == Exit(width, height)
    ensures InRange(width, height, Entrance(width)) && IsBorder(width, height, Entrance(width))
    ensures InRange(width, height, Exit(width, height)) && IsBorder(width, height, Exit(width, height))
  {
    InteriorAt(width, height, 1, 1);
    assert Cell(width, 1, 1) == Start(width);
    InteriorAt(width, height, width, height);
    assert Cell(width, width, height) == Last(width, height);
    NeighbourInRange(width, height, Start(width), LEFT);
    NeighbourInRange(width, height, Last(width, height), RIGHT);
    CellDivMod(width, 0, 1);
    assert Cell(width, 0, 1) == Entrance(width);
    CellDivMod(width, width + 1, height);
    assert Cell(width, width + 1, height) == Exit(width, height);
  }

  /** A border cell changes: nothing the interior predicates read changes. */
  lemma BorderChange(width: int, height: int, t: seq<bv32>, e: map<int, bv32>, l: bool, r: bool, i: int, v: bv32)
    requires Marked(width, height, t) && Passages(width, height, t, e) && Enclosed(width, height, t, l, r)
    requires 0 <= i < |t| && IsBorder(width, height, i)
    ensures Marked(width, height, t[i := v]) && Passages(width, height, t[i := v], e) && Enclosed(width, height, t[i := v], l, r)
  {
    var t' := t[i := v];
    forall c | IsInterior(width, height, c)
      ensures t'[c] == t[c]
    {
    }
  }

  /** The entrance tile becomes UP | DOWN. */
  lemma OpenEntrance(width: int, height: int, t: seq<bv32>, e: map<int, bv32>, l: bool, r: bool, exit: bool)
    requires Opened(width, height, t, e, l, r, false, exit)
    ensures Opened(width, height, t[Entrance(width) := UP | DOWN], e, l, r, true, exit)
  {
    ExitCells(width, height);
    BorderChange(width, height, t, e, l, r, Entrance(width), UP | DOWN);
  }

  /** The exit tile becomes UP | DOWN. */
  lemma OpenExit(width: int, height: int, t: seq<bv32>, e: map<int, bv32>, l: bool, r: bool, entrance: bool)
    requires Opened(width, height, t, e, l, r, entrance, false)
    ensures Opened(width, height, t[Exit(width, height) := UP | DOWN], e, l, r, entrance, true)
  {
    ExitCells(width, height);
    BorderChange(width, height, t, e, l, r, Exit(width, height), UP | DOWN);
  }

  /** An interior cell loses the wall of a direction that leads to the
      border: nothing but that wall changes. */
  lemma InteriorOpen(width: int, height: int, t: seq<bv32>, e: map<int, bv32>, c: int, m: bv32, v: bv32)
    requires Marked(width, height, t) && Passages(width, height, t, e)
    requires IsInterior(width, height, c) && IsDirection(m) && IsBorder(width, height, Neighbour(width, c, m))
    requires OpenedAs(t[c], v, m)
    ensures Marked(width, height, t[c := v]) && Passages(width, height, t[c := v], e)
  {
    InteriorOpenMarked(width, height, t, c, m, v);
    var t' := t[c := v];
    forall i, d | IsInterior(width, height, i) && IsDirection(d) && IsInterior(width, height, Neighbour(width, i, d))
      ensures Wall(t'[i], d) <==> !Carved(width, e, i, d) && !Carved(width, e, Neighbour(width, i, d), Opposite(d))
    {
      if i == c {
        assert d != m;
        assert Wall(v, d) == Wall(t[c], d);
      } else {
        assert t'[i] == t[i];
      }
    }
  }

  lemma InteriorOpenMarked(width: int, height: int, t: seq<bv32>, c: int, m: bv32, v: bv32)
    requires Marked(width, height, t) && IsInterior(width, height, c) && OpenedAs(t[c], v, m)
    ensures Marked(width, height, t[c := v])
  {
  }

  /** One side of an interior cell towards the border opens: the cell keeps
      its other walls, so the enclosure gains exactly that gap. */
  lemma EnclosedOpen(width: int, height: int, t: seq<bv32>, c: int, m: bv32, v: bv32,
                     l0: bool, r0: bool, l1: bool, r1: bool)
    requires Enclosed(width, height, t, l0, r0) && IsInterior(width, height, c) && OpenedAs(t[c], v, m)
    requires Gap(width, height, l1, r1, c, m)
    requires forall i, d :: Gap(width, height, l1, r1, i, d) <==> Gap(width, height, l0, r0, i, d) || (i == c && d == m)
    ensures Enclosed(width, height, t[c := v], l1, r1)
  {
    var t' := t[c := v];
    forall i, d | IsInterior(width, height, i) && IsDirection(d) && IsBorder(width, height, Neighbour(width, i, d))
      ensures Wall(t'[i], d) <==> !Gap(width, height, l1, r1, i, d)
    {
      if i == c && d != m {
        assert Wall(v, d) == Wall(t[c], d);
      }
    }
  }

  /** The start cell loses its left wall. */
  lemma OpenLeft(width: int, height: int, t: seq<bv32>, e: map<int, bv32>, r: bool, entrance: bool, exit: bool, v: bv32)
    requires width >= 1 && height >= 1
    requires Opened(width, height, t, e, false, r, entrance, exit) && OpenedAs(t[Start(width)], v, LEFT)
    ensures Opened(width, height, t[Start(width) := v], e, true, r, entrance, exit)
  {
    ExitCells(width, height);
    InteriorOpen(width, height, t, e, Start(width), LEFT, v);
    EnclosedOpen(width, height, t, Start(width), LEFT, v, false, r, true, r);
  }

  /** The last cell loses its right wall. */
  lemma OpenRight(width: int, height: int, t: seq<bv32>, e: map<int, bv32>, l: bool, entrance: bool, exit: bool, v: bv32)
    requires width >= 1 && height >= 1
    requires Opened(width, height, t, e, l, false, entrance, exit) && OpenedAs(t[Last(width, height)], v, RIGHT)
    ensures Opened(width, height, t[Last(width, height) := v], e, l, true, entrance, exit)
  {
    ExitCells(width, height);
    InteriorOpen(width, height, t, e, Last(width, height), RIGHT, v);
    EnclosedOpen(width, height, t, Last(width, height), RIGHT, v, l, false, l, true);
  }

  /** What a Maze says about the four cells the exits concern: the start and
      Last are visited, their outer walls are set exactly when there are no
      exits, and the entrance and exit cells are blocks or open passages. */
  lemma MazeExits(width: int, height: int, t: seq<bv32>, e: map<int, bv32>, exits: bool)
    requires Maze(width, height, t, e, exits)
    ensures Visited(t[Start(width)]) && Visited(t[Last(width, height)])
    ensures Wall(t[Start(width)], LEFT) <==> !exits
    ensures Wall(t[Last(width, height)], RIGHT) <==> !exits
    ensures t[Entrance(width)] == if exits then UP | DOWN else BLOCK
    ensures t[Exit(width, height)] == if exits then UP | DOWN else BLOCK
  {
    ExitCells(width, height);
  }

  /** After the walk, orderArray lists every interior cell once, starting
      with the start cell. */
  lemma OrderStart(width: int, height: int, e: map<int, bv32>, o: seq<int>)
    requires width >= 1 && Complete(width, height, e, o)
    ensures |Reversed(o)| == width * height && Reversed(o)[0] == Start(width)
    ensures Distinct(Reversed(o))
    ensures forall i :: i in Reversed(o) <==> IsInterior(width, height, i)
  {
    ReversedAt(o);
    ReversedElements(o);
  }

  // ---------------------------------------------------------------------------
  // The passages form a tree spanning the maze

  /** The walk from the start as a tree: every visited cell was entered by a
      move, every cell but the start was entered from a visited cell, and
      tileOrder lists every cell before the cell it was entered from. */
  ghost predicate Rooted(width: int, e: map<int, bv32>, o: seq<int>) {
    (forall i :: i in e ==> IsDirection(e[i])) &&
    NewParents(width, map[], e, Start(width)) &&
    Ordered(width, e, o)
  }

  /** The cell reached from c by the moves ds. */
  function Follow(width: int, c: int, ds: seq<bv32>): int
    decreases |ds|
  {
    if ds == [] then c else Follow(width, Neighbour(width, c, ds[0]), ds[1..])
  }

  /** The moves ds lead from c over interior cells and through no wall. */
  ghost predicate Walk(width: int, height: int, t: seq<bv32>, c: int, ds: seq<bv32>)
    decreases |ds|
  {
    Shaped(width, height, t) && IsInterior(width, height, c) &&
    (ds != [] ==>
      IsDirection(ds[0]) && !Wall(t[c], ds[0]) && Walk(width, height, t, Neighbour(width, c, ds[0]), ds[1..]))
  }

  /** Every cell but the start has its parent listed after it in tileOrder,
      so following parents never comes back to a cell. */
  lemma ParentAfter(width: int, height: int, e: map<int, bv32>, o: seq<int>, k: int) returns (j: int)
    requires width >= 1 && height >= 1 && Complete(width, height, e, o) && Rooted(width, e, o)
    requires 0 <= k < |o| && o[k] != Start(width)
    ensures k < j < |o| && o[j] == Parent(width, e, o[k])
  {
    var c := o[k];
    var p := Parent(width, e, c);
    assert p in e;
    j :| 0 <= j < |o| && o[j] == p;
    IndexChangeOpposite(width, e[c]);
    assert j != k;
    forall i | 0 <= i < k ensures o[i] != p {
    }
  }

  /** Two moves shift an index alike only when they are the same move. */
  lemma SameMove(width: int, a: bv32, b: bv32)
    requires width >= 1 && IsDirection(a) && IsDirection(b)
    ensures IndexChange(width, a) == IndexChange(width, b) <==> a == b
  {
    IndexChangeOpposite(width, a);
  }

  /** A passage between two interior neighbours is open exactly when one of
      them was entered from the other. */
  lemma PassageLinks(width: int, height: int, t: seq<bv32>, e: map<int, bv32>, c: int, d: bv32)
    requires width >= 1 && Passages(width, height, t, e)
    requires forall i :: IsInterior(width, height, i) ==> i in e && IsDirection(e[i])
    requires IsInterior(width, height, c) && IsDirection(d) && IsInterior(width, height, Neighbour(width, c, d))
    ensures !Wall(t[c], d) <==>
      Parent(width, e, Neighbour(width, c, d)) == c || Parent(width, e, c) == Neighbour(width, c, d)
  {
    var n := Neighbour(width, c, d);
    assert c in e && n in e;
    assert Wall(t[c], d) <==> !Carved(width, e, c, d) && !Carved(width, e, n, Opposite(d));
    SameMove(width, e[n], d);
    assert Carved(width, e, c, d) <==> Parent(width, e, n) == c;
    IndexChangeOpposite(width, d);
    SameMove(width, e[c], Opposite(d));
    assert Neighbour(width, n, Opposite(d)) == c;
    assert Carved(width, e, n, Opposite(d)) <==> Parent(width, e, c) == n;
  }

  /** From the k-th cell of tileOrder the parents lead to the start through
      open passages. */
  lemma {:induction false} PathFrom(width: int, height: int, t: seq<bv32>, e: map<int, bv32>, o: seq<int>,
                                    exits: bool, k: int) returns (ds: seq<bv32>)
    requires Maze(width, height, t, e, exits) && Complete(width, height, e, o) && Rooted(width, e, o)
    requires 0 <= k < |o|
    ensures Walk(width, height, t, o[k], ds) && Follow(width, o[k], ds) == Start(width)
    decreases |o| - k
  {
    var c := o[k];
    if c == Start(width) {
      ds := [];
    } else {
      var j := ParentAfter(width, height, e, o, k);
      var m := e[c];
      IndexChangeOpposite(width, m);
      var d := Opposite(m);
      assert Neighbour(width, c, d) == o[j];
      PassageLinks(width, height, t, e, c, d);
      var rest := PathFrom(width, height, t, e, o, exits, j);
      ds := [d] + rest;
      assert ds[1..] == rest;
    }
  }

  /** Every interior cell reaches the start through open passages. */
  lemma Connected(width: int, height: int, t: seq<bv32>, e: map<int, bv32>, o: seq<int>, exits: bool, c: int)
    returns (ds: seq<bv32>)
    requires Maze(width, height, t, e, exits) && Complete(width, height, e, o) && Rooted(width, e, o)
    requires IsInterior(width, height, c)
    ensures Walk(width, height, t, c, ds) && Follow(width, c, ds) == Start(width)
  {
    var k :| 0 <= k < |o| && o[k] == c;
    ds := PathFrom(width, height, t, e, o, exits, k);
  }

  // ---------------------------------------------------------------------------
  // Single-flag updates of a tile: Tile.apply with one flag

  /** A tile value with the VISITED flag added. */
  function ApplyVisited(v: bv32): (r: bv32)
    ensures MarkedAs(v, r)
  {
    MarkedAsMark(v);
    v | VISITED
  }

  /** A tile value with the wall bit of a move added. */
  function ApplyWall(v: bv32, move: bv32): (r: bv32)
    requires IsDirection(move)
    ensures WalledAs(v, r, move)
  {
    WalledAsWall(v, move);
    v | move
  }

  /** A tile value with the wall bit of a move cleared. */
  function RemoveWall(v: bv32, move: bv32): (r: bv32)
    requires IsDirection(move)
    ensures OpenedAs(v, r, move)
  {
    OpenedAsOpen(v, move);
    v & !move
  }

  // ---------------------------------------------------------------------------
  // Shifting the candidate pool

  /** Closes the gap left by the candidate at `index` among the first
      count + 1 candidates: the elementwise form of the array copy in
      nextTile. */
  method ShiftDown(a: array<bv32>, index: int, count: int)
    requires 0 <= index <= count < a.Length
    modifies a
    ensures a[..count] == old(a[..index]) + old(a[index + 1..count + 1])
    ensures a[count..] == old(a[count..])
  {
    ghost var s := a[..];
    var i := index;
    while i < count
      invariant index <= i <= count
      invariant forall j :: 0 <= j < index ==> a[j] == s[j]
      invariant forall j :: index <= j < i ==> a[j] == s[j + 1]
      invariant forall j :: i <= j < a.Length ==> a[j] == s[j]
    {
      a[i] := a[i + 1];
      i := i + 1;
    }
    assert a[..count] == s[..index] + s[index + 1..count + 1] by {
      forall j | 0 <= j < count
        ensures a[..count][j] == (s[..index] + s[index + 1..count + 1])[j]
      {
        if j < index {
          assert (s[..index] + s[index + 1..count + 1])[j] == s[j];
        } else {
          assert (s[..index] + s[index + 1..count + 1])[j] == s[j + 1];
        }
      }
    }
    assert a[count..] == s[count..];
  }

  // ---------------------------------------------------------------------------
  // The generator

  class Labyrinth {
    const width: int
    const height: int
    const keepChance: real
    const tiles: array<bv32>
    const tileOrder: array<int>
    var tileOrderIndex: int
    var maxDepth: int
    /** The direction of the move that entered each visited cell. */
    ghost var entry: map<int, bv32>

    ghost predicate Valid()
      reads this, tiles, tileOrder
    {
      tiles as object != tileOrder as object && tileOrder.Length == tiles.Length &&
      0 <= tileOrderIndex <= tileOrder.Length &&
      Consistent(width, height, tiles[..], entry, tileOrder[..tileOrderIndex]) &&
      0 <= maxDepth <= |entry.Keys|
    }

    /** The object invariant, which holds from construction on, with or
        without exits: the arrays have the grid's size, the counters are in
        range and only interior cells are visited. */
    ghost predicate Sound()
      reads this
    {
      width >= 1 && height >= 1 &&
      tiles as object != tileOrder as object &&
      tiles.Length == Size(width, height) && tileOrder.Length == tiles.Length &&
      0 <= tileOrderIndex <= tileOrder.Length &&
      0 <= maxDepth <= |entry.Keys| &&
      forall c :: c in entry ==> IsInterior(width, height, c)
    }

    /** The walk invariant implies the object invariant. */
    lemma ValidSound()
      requires Valid()
      ensures Sound()
    {
      EntriesWithin(width, height, tiles[..], entry);
    }

    /** The state the constructor leaves: border cells blocked, interior
        cells without flags, nothing visited. */
    ghost predicate Pristine()
      reads this, tiles, tileOrder
    {
      width >= 1 && height >= 1 &&
      tiles as object != tileOrder as object &&
      tiles.Length == Size(width, height) && tileOrder.Length == tiles.Length &&
      (forall i :: 0 <= i < tiles.Length ==> tiles[i] == if IsBorder(width, height, i) then BLOCK else 0) &&
      entry == map[] && tileOrderIndex == 0 && maxDepth == 0
    }

    ghost function FreeCount(): nat
      reads tiles
    {
      |FreeCells(tiles[..])|
    }

    constructor (width: int, height: int, keepChance: real)
      requires width >= 1 && height >= 1
      ensures this.width == width && this.height == height && this.keepChance == keepChance
      ensures Pristine() && Sound() && fresh(tiles) && fresh(tileOrder)
    {
      var len := (width + 2) * (height + 2);
      var t := new bv32[len];
      var i := 0;
      while i < len
        invariant 0 <= i <= len
        invariant forall j :: 0 <= j < i ==> t[j] == if IsBorder(width, height, j) then BLOCK else 0
      {
        if i < width + 2 || i % (width + 2) == 0 || i >= (width + 2) * (height + 1) || i % (width + 2) == width + 1 {
          t[i] := BLOCK;
        } else {
          t[i] := 0;
        }
        i := i + 1;
      }
      this.width := width;
      this.height := height;
      this.keepChance := keepChance;
      tiles := t;
      tileOrder := new int[len];
      tileOrderIndex := 0;
      maxDepth := 0;
      entry := map[];
    }

    /** The recursive walk: enter `tile` by `lastMove` unless it is visited
        or blocked. */
    method NextTile(tile: int, lastMove: bv32, depth: int) returns (ok: bool)
      requires Valid() && IsDirection(lastMove)
      requires 0 <= tile < tiles.Length && Settled(tiles[..], tile - IndexChange(width, lastMove))
      requires tile - IndexChange(width, lastMove) !in tileOrder[..tileOrderIndex]
      requires 0 <= depth <= |entry.Keys|
      modifies this, tiles, tileOrder
      ensures Valid() && Sound()
      ensures ok <==> !old(Taken(tiles[tile]))
      ensures Grew(old(tiles[..]), old(entry), old(tileOrder[..tileOrderIndex]), tiles[..], entry, tileOrder[..tileOrderIndex], {})
      ensures Appended(old(entry), old(tileOrder[..tileOrderIndex]), entry, tileOrder[..tileOrderIndex])
      ensures NewParents(width, old(entry), entry, tile)
      ensures ok ==> tile in entry && tile !in old(entry) && entry[tile] == lastMove
      ensures ok ==> 0 < tileOrderIndex && tileOrder[tileOrderIndex - 1] == tile
      ensures ok ==> (Wall(tiles[tile], Opposite(lastMove)) <==> old(Wall(tiles[tile], Opposite(lastMove))))
      ensures !ok ==> tiles[..] == old(tiles[..]) && entry == old(entry)
      ensures !ok ==> tileOrderIndex == old(tileOrderIndex) && tileOrder[..tileOrderIndex] == old(tileOrder[..tileOrderIndex])
      ensures old(maxDepth) <= maxDepth && depth <= maxDepth && (ok ==> depth + 1 <= maxDepth)
      decreases FreeCount(), 4
    {
      if depth > maxDepth {
        maxDepth := depth;
      }
      if Taken(tiles[tile]) {
        ValidSound();
        return false;
      }
      Visit(tile, lastMove, depth);
      ok := true;
      ValidSound();
    }

    /** nextTile past its check: mark `tile` visited, try its onward
        directions, then append it to tileOrder. */
    method Visit(tile: int, lastMove: bv32, depth: int)
      requires Valid() && IsDirection(lastMove)
      requires 0 <= tile < tiles.Length && !Taken(tiles[tile]) && Settled(tiles[..], tile - IndexChange(width, lastMove))
      requires tile - IndexChange(width, lastMove) !in tileOrder[..tileOrderIndex]
      requires 0 <= depth <= |entry.Keys| && depth <= maxDepth
      modifies this, tiles, tileOrder
      ensures Valid()
      ensures Grew(old(tiles[..]), old(entry), old(tileOrder[..tileOrderIndex]), tiles[..], entry, tileOrder[..tileOrderIndex], {})
      ensures Appended(old(entry), old(tileOrder[..tileOrderIndex]), entry, tileOrder[..tileOrderIndex])
      ensures NewParents(width, old(entry), entry, tile)
      ensures tile in entry && tile !in old(entry) && entry[tile] == lastMove
      ensures 0 < tileOrderIndex && tileOrder[tileOrderIndex - 1] == tile
      ensures Wall(tiles[tile], Opposite(lastMove)) <==> old(Wall(tiles[tile], Opposite(lastMove)))
      ensures old(maxDepth) <= maxDepth && depth + 1 <= maxDepth
      decreases FreeCount(), 3
    {
      ghost var t0, e0, o0 := tiles[..], entry, tileOrder[..tileOrderIndex];
      var marked := ApplyVisited(tiles[tile]);
      Enter(width, height, t0, e0, o0, tile, lastMove, marked);
      EnterExploring(width, height, t0, e0, o0, tile, lastMove, marked);
      TrackStart(width, t0, e0, o0, tile, lastMove, marked);
      tiles[tile] := marked;
      entry := entry[tile := lastMove];
      assert tiles[..] == t0[tile := marked];

      var possibleMoves := GetDirections(lastMove);
      DirectionsCover(lastMove);
      ghost var back := Wall(tiles[tile], Opposite(lastMove));
      Explore(tile, lastMove, depth, possibleMoves, t0, e0, o0, back);

      Close(tile, lastMove, depth, t0, e0, o0, back);
    }

    /** The end of nextTile: with every direction of `tile` tried, the tile
        is appended to tileOrder. */
    method Close(tile: int, lastMove: bv32, depth: int,
                 ghost t0: seq<bv32>, ghost e0: map<int, bv32>, ghost o0: seq<int>, ghost back: bool)
      requires Pending(tile, lastMove, depth, [], t0, e0, o0, back)
      requires Settled(t0, tile - IndexChange(width, lastMove)) && tile - IndexChange(width, lastMove) !in o0
      modifies this, tileOrder
      ensures Valid() && maxDepth == old(maxDepth)
      ensures Grew(t0, e0, o0, tiles[..], entry, tileOrder[..tileOrderIndex], {})
      ensures Appended(e0, o0, entry, tileOrder[..tileOrderIndex])
      ensures NewParents(width, e0, entry, tile)
      ensures tile in entry && tile !in e0 && entry[tile] == lastMove
      ensures 0 < tileOrderIndex && tileOrder[tileOrderIndex - 1] == tile
      ensures Wall(tiles[tile], Opposite(lastMove)) == back
    {
      ghost var t2, e2, o2 := tiles[..], entry, tileOrder[..tileOrderIndex];
      ParentPending(t0, e0, o0, t2, e2, o2, tile - IndexChange(width, lastMove));
      Finish(width, height, t2, e2, o2, tile, lastMove);
      TrackDone(width, t0, e0, o0, t2, e2, o2, tile);
      OrderRoom(width, t2, e2, o2, tile);
      tileOrder[tileOrderIndex] := tile;
      tileOrderIndex := tileOrderIndex + 1;
      assert tileOrder[..tileOrderIndex] == o2 + [tile];
    }

    /** The state of the loop of nextTile at `tile`: the labyrinth is valid,
        pool holds the candidates still to try, and since the tile was entered
        the walk has only grown. */
    ghost predicate Pending(tile: int, lastMove: bv32, depth: int, pool: seq<bv32>,
                            t0: seq<bv32>, e0: map<int, bv32>, o0: seq<int>, back: bool)
      reads this, tiles, tileOrder
    {
      Valid() &&
      Exploring(width, height, tiles[..], entry, tileOrder[..tileOrderIndex], tile, lastMove, pool) &&
      Tracked(width, t0, e0, o0, tiles[..], entry, tileOrder[..tileOrderIndex], tile) &&
      0 <= depth && depth + 1 <= |entry.Keys| &&
      Wall(tiles[tile], Opposite(lastMove)) == back
    }

    /** The onward moves of nextTile from `tile`: the straight move first
        with probability keepChance, then the remaining candidates in random
        order, each removed from possibleMoves once tried. */
    method Explore(tile: int, lastMove: bv32, depth: int, possibleMoves: array<bv32>,
                   ghost t0: seq<bv32>, ghost e0: map<int, bv32>, ghost o0: seq<int>, ghost back: bool)
      requires possibleMoves.Length == 3 && possibleMoves[2] == lastMove
      requires possibleMoves as object != tiles as object && possibleMoves as object != tileOrder as object
      requires Pending(tile, lastMove, depth, possibleMoves[..], t0, e0, o0, back) && depth <= maxDepth
      modifies this, tiles, tileOrder, possibleMoves
      ensures Pending(tile, lastMove, depth, [], t0, e0, o0, back)
      ensures old(maxDepth) <= maxDepth && depth + 1 <= maxDepth
      decreases |FreeCells(t0)|, 2
    {
      var moveCount := possibleMoves.Length;
      assert possibleMoves[..moveCount] == possibleMoves[..];
      var r: real :| 0.0 <= r < 1.0;
      if r < keepChance {
        TryMove(tile, lastMove, depth, lastMove, possibleMoves[..moveCount], 2, t0, e0, o0, back);
        moveCount := moveCount - 1;
        assert possibleMoves[..3][..2] + possibleMoves[..3][3..] == possibleMoves[..moveCount];
      }

      while moveCount > 0
        invariant 0 <= moveCount <= 3
        invariant Pending(tile, lastMove, depth, possibleMoves[..moveCount], t0, e0, o0, back)
        invariant old(maxDepth) <= maxDepth && (moveCount < 3 ==> depth + 1 <= maxDepth)
        decreases moveCount
      {
        Round(tile, lastMove, depth, possibleMoves, moveCount, t0, e0, o0, back);
        moveCount := moveCount - 1;
      }
    }

    /** One round of the loop of nextTile: a random candidate among the first
        count entries is tried and then removed by shifting the rest down. */
    method Round(tile: int, lastMove: bv32, depth: int, possibleMoves: array<bv32>, count: int,
                 ghost t0: seq<bv32>, ghost e0: map<int, bv32>, ghost o0: seq<int>, ghost back: bool)
      requires 0 < count <= possibleMoves.Length
      requires possibleMoves as object != tiles as object && possibleMoves as object != tileOrder as object
      requires Pending(tile, lastMove, depth, possibleMoves[..count], t0, e0, o0, back)
      modifies this, tiles, tileOrder, possibleMoves
      ensures Pending(tile, lastMove, depth, possibleMoves[..count - 1], t0, e0, o0, back)
      ensures old(maxDepth) <= maxDepth && depth + 1 <= maxDepth
      decreases |FreeCells(t0)|, 1
    {
      var moveCount := count;
      var index :| 0 <= index < moveCount;
      moveCount := moveCount - 1;
      var move := possibleMoves[index];
      ghost var pool := possibleMoves[..count];
      TryMove(tile, lastMove, depth, move, pool, index, t0, e0, o0, back);
      ShiftDown(possibleMoves, index, moveCount);
      assert possibleMoves[..moveCount] == pool[..index] + pool[index + 1..];
    }

    /** One candidate of the pool of `tile` tried: the attempt of the keep
        branch or of one round of the loop, with the bookkeeping of both. */
    method TryMove(tile: int, lastMove: bv32, depth: int, move: bv32, ghost pool: seq<bv32>, ghost k: int,
                   ghost t0: seq<bv32>, ghost e0: map<int, bv32>, ghost o0: seq<int>, ghost back: bool)
      requires 0 <= k < |pool| && pool[k] == move
      requires Pending(tile, lastMove, depth, pool, t0, e0, o0, back)
      modifies this, tiles, tileOrder
      ensures Pending(tile, lastMove, depth, pool[..k] + pool[k + 1..], t0, e0, o0, back)
      ensures old(maxDepth) <= maxDepth && depth + 1 <= maxDepth
      decreases |FreeCells(t0)|, 0
    {
      ghost var t1, e1, o1 := tiles[..], entry, tileOrder[..tileOrderIndex];
      FewerFree(t0, e0, o0, t1, e1, o1, tile);
      assert pool[k] in pool;
      Attempt(tile, move, depth + 1);
      AttemptStep(width, height, t1, e1, o1, tiles[..], entry, tileOrder[..tileOrderIndex], tile, lastMove, pool, k);
      TrackStep(width, height, t0, e0, o0, t1, e1, o1, tiles[..], entry, tileOrder[..tileOrderIndex], tile, move);
      GrewFree(t1, e1, o1, tiles[..], entry, tileOrder[..tileOrderIndex], {tile});
    }

    /** One attempt from cell c: walk on in direction `move`, and set the wall
        of that direction when the neighbour was already visited or blocked. */
    method Attempt(c: int, move: bv32, depth: int)
      requires Valid() && c in entry && c !in tileOrder[..tileOrderIndex]
      requires IsDirection(move) && move != Opposite(entry[c])
      requires Untried(width, height, tiles[..], entry, c, move)
      requires 0 <= depth <= |entry.Keys|
      modifies this, tiles, tileOrder
      ensures Valid()
      ensures Attempted(width, height, old(tiles[..]), old(entry), old(tileOrder[..tileOrderIndex]),
                        tiles[..], entry, tileOrder[..tileOrderIndex], c, move)
      ensures old(maxDepth) <= maxDepth && depth <= maxDepth
      decreases FreeCount(), 5
    {
      ghost var t0, e0, o0 := tiles[..], entry, tileOrder[..tileOrderIndex];
      EntryInterior(width, height, t0, e0, c);
      NeighbourInRange(width, height, c, move);
      var ok := NextTile(c + IndexChange(width, move), move, depth);
      if ok {
        AttemptWent(width, height, t0, e0, o0, tiles[..], entry, tileOrder[..tileOrderIndex], c, move);
      } else {
        var walled := ApplyWall(tiles[c], move);
        AttemptBlocked(width, height, t0, e0, o0, c, move, walled);
        AddWall(width, height, t0, e0, o0, c, move, walled);
        tiles[c] := walled;
        assert tiles[..] == t0[c := walled];
      }
    }

    /** The deepest recursion level nextTile has reached. */
    function MaxDepth(): (r: int)
      reads this
      requires Sound()
      ensures 0 <= r <= |entry.Keys| <= width * height
    {
      InteriorKeys(width, height, entry);
      maxDepth
    }

    /** generate(exits): set the start cell's left wall and walk from it,
        entering by RIGHT at depth 0; with exits, open the entrance left of
        the start and the exit right of the last cell. */
    method Generate(exits: bool)
      requires Pristine()
      modifies this, tiles, tileOrder
      ensures 0 <= tileOrderIndex <= tileOrder.Length
      ensures Complete(width, height, entry, tileOrder[..tileOrderIndex]) && Rooted(width, entry, tileOrder[..tileOrderIndex])
      ensures Maze(width, height, tiles[..], entry, exits)
      ensures Sound() && (!exits ==> Valid())
      ensures 1 <= maxDepth <= width * height
    {
      ExitCells(width, height);
      ghost var t0 := tiles[..];
      assert t0[1 + width + 2] == 0;
      var walled := ApplyWall(tiles[1 + width + 2], LEFT);
      StartReady(width, height, t0, walled);
      tiles[1 + width + 2] := walled;
      assert tiles[..] == t0[Start(width) := walled];
      var ok := NextTile(1 + width + 2, RIGHT, 0);
      assert ok;
      Generated(width, height, tiles[..], entry, tileOrder[..tileOrderIndex]);
      InteriorKeys(width, height, entry);
      if exits {
        OpenExits();
      }
    }

    /** The exit block of generate: four tiles change. */
    method OpenExits()
      requires Sound() && Maze(width, height, tiles[..], entry, false)
      modifies tiles
      ensures Sound() && Maze(width, height, tiles[..], entry, true)
      ensures forall i ::
        0 <= i < tiles.Length && i != Entrance(width) && i != Start(width) && i != Last(width, height) && i != Exit(width, height)
        ==> tiles[i] == old(tiles[i])
    {
      var entrance, start := width + 2, 1 + width + 2;
      var last, exit := width + height * (width + 2), width + 1 + height * (width + 2);
      assert entrance == Entrance(width) && start == Start(width);
      assert last == Last(width, height) && exit == Exit(width, height);
      ExitCells(width, height);
      ghost var e := entry;
      ghost var t1 := tiles[..];
      MazeOpened(width, height, t1, e, false);
      tiles[entrance] := UP | DOWN;
      OpenEntrance(width, height, t1, e, false, false, false);
      assert tiles[..] == t1[entrance := UP | DOWN];

      ghost var t2 := tiles[..];
      var cleared := RemoveWall(tiles[start], LEFT);
      tiles[start] := cleared;
      OpenLeft(width, height, t2, e, false, true, false, cleared);
      assert tiles[..] == t2[start := cleared];

      ghost var t3 := tiles[..];
      cleared := RemoveWall(tiles[last], RIGHT);
      tiles[last] := cleared;
      OpenRight(width, height, t3, e, true, true, false, cleared);
      assert tiles[..] == t3[last := cleared];

      ghost var t4 := tiles[..];
      tiles[exit] := UP | DOWN;
      OpenExit(width, height, t4, e, true, true, true);
      assert tiles[..] == t4[exit := UP | DOWN];
      MazeOpened(width, height, tiles[..], e, true);
    }

    /** tileOrder, filled part only, last visit first. */
    method OrderArray() returns (temp: array<int>)
      requires 0 <= tileOrderIndex <= tileOrder.Length
      ensures fresh(temp) && temp.Length == tileOrderIndex
      ensures temp[..] == Reversed(tileOrder[..tileOrderIndex])
    {
      temp := new int[tileOrderIndex];
      forall j | 0 <= j < tileOrderIndex {
        temp[j] := tileOrder[j];
      }
      ghost var s := temp[..];
      var n := temp.Length;
      var i := 0;
      while i < n / 2
        invariant 0 <= i <= n / 2 && temp.Length == n == |s|
        invariant forall j :: 0 <= j < i ==> temp[j] == s[n - 1 - j] && temp[n - 1 - j] == s[j]
        invariant forall j :: i <= j < n - i ==> temp[j] == s[j]
      {
        var swap := temp[i];
        temp[i] := temp[n - i - 1];
        temp[n - i - 1] := swap;
        i := i + 1;
      }
      assert s == tileOrder[..tileOrderIndex];
      ReversedAt(s);
    }
  }
}
