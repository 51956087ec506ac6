/** Board encoding: the nine cells of a tic-tac-toe board are single bits of a
    16-bit mask, the eight winning lines are three-bit masks, and `Full` is the
    union of all nine cells. A mask records occupancy only, never ownership. */
module Board {

  /** The source's `Bits` (an unsigned 16-bit integer). */
  type Bits = bv16

  // One bit per cell; `Pxy` is column x, row y, so cell index i is bit i.
  const P00: Bits := 0x001
  const P10: Bits := 0x002
  const P20: Bits := 0x004
  const P01: Bits := 0x008
  const P11: Bits := 0x010
  const P21: Bits := 0x020
  const P02: Bits := 0x040
  const P12: Bits := 0x080
  const P22: Bits := 0x100

  /** The eight winning lines, in the source's order: two diagonals, three rows, three columns. */
  const Solutions: seq<Bits> := [
    P00 | P11 | P22,
    P20 | P11 | P02,
    P00 | P10 | P20,
    P01 | P11 | P21,
    P02 | P12 | P22,
    P00 | P01 | P02,
    P10 | P11 | P12,
    P20 | P21 | P22
  ]

  const Full: Bits := P00 | P01 | P02 | P10 | P11 | P12 | P20 | P21 | P22

  /** The sentinel `MoveToIndex` returns for a mask holding none of the nine cells. */
  const NoIndex: nat := 255

  /** A single bit that is one of the nine cells. */
  predicate IsCell(m: Bits) {
    m != 0 && m & (m - 1) == 0 && m & Full == m
  }

  /** The cell bit of a board index; every other index gives the empty mask. */
  function IndexToMove(index: int): (m: Bits)
    ensures 0 <= index < 9 ==> IsCell(m)
    ensures !(0 <= index < 9) ==> m == 0
  {
    match index
    case 0 => P00
    case 1 => P10
    case 2 => P20
    case 3 => P01
    case 4 => P11
    case 5 => P21
    case 6 => P02
    case 7 => P12
    case 8 => P22
    case _ => 0
  }

  /** The index of the first cell set in `move`, scanning cells 0..8, or `NoIndex`. */
  function MoveToIndex(move: Bits): (r: nat)
    ensures r < 9 || r == NoIndex
    ensures r == NoIndex <==> move & Full == 0
    ensures r < 9 ==> move & IndexToMove(r) != 0
    ensures r < 9 ==> forall j :: 0 <= j < r ==> move & IndexToMove(j) == 0
  {
    if move & P00 != 0 then 0
    else if move & P10 != 0 then 1
    else if move & P20 != 0 then 2
    else if move & P01 != 0 then 3
    else if move & P11 != 0 then 4
    else if move & P21 != 0 then 5
    else if move & P02 != 0 then 6
    else if move & P12 != 0 then 7
    else if move & P22 != 0 then 8
    else NoIndex
  }

  /** Cell index i is bit i of the mask, as the source's `1 << iota` constants lay them out. */
  lemma IndexIsBit(i: nat)
    requires i < 9
    ensures IndexToMove(i) == 1 << i
  {
  }

  /** Index and cell bit convert into each other exactly on the nine cells. */
  lemma IndexMoveRoundTrip(i: int)
    ensures 0 <= i < 9 ==> MoveToIndex(IndexToMove(i)) == i
    ensures !(0 <= i < 9) ==> MoveToIndex(IndexToMove(i)) == NoIndex
  {
  }

  /** A mask is a cell exactly when `MoveToIndex` finds an index whose bit is the whole mask. */
  lemma CellIndex(m: Bits)
    ensures IsCell(m) <==> MoveToIndex(m) < 9 && IndexToMove(MoveToIndex(m)) == m
  {
  }

  /** 1 when cell `c` is occupied in `b`, else 0. */
  function Occupied(b: Bits, c: Bits): nat {
    if b & c != 0 then 1 else 0
  }

  /** The number of occupied cells. */
  function PopCount(b: Bits): (n: nat)
    ensures n <= 9
    ensures n == 0 <==> b & Full == 0
    ensures n == 9 <==> b & Full == Full
  {
    Occupied(b, P00) + Occupied(b, P10) + Occupied(b, P20) +
    Occupied(b, P01) + Occupied(b, P11) + Occupied(b, P21) +
    Occupied(b, P02) + Occupied(b, P12) + Occupied(b, P22)
  }

  /** Placing a mark on a free cell raises the number of occupied cells by one. */
  lemma PopCountAdd(b: Bits, m: Bits)
    requires IsCell(m) && b & m == 0
    ensures PopCount(b | m) == PopCount(b) + 1
  {
    CellIndex(m);
    match MoveToIndex(m)
    case 0 => assert m == P00;
    case 1 => assert m == P10;
    case 2 => assert m == P20;
    case 3 => assert m == P01;
    case 4 => assert m == P11;
    case 5 => assert m == P21;
    case 6 => assert m == P02;
    case 7 => assert m == P12;
    case 8 => assert m == P22;
  }

  /** Placing a mark on a free cell of a board of `h` cells gives the board `b2` of `h + 1` cells. */
  lemma PlaceCell(b: Bits, h: nat, m: Bits, b2: Bits, h2: nat)
    requires b & Full == b && PopCount(b) == h
    requires IsCell(m) && b & m == 0
    requires b2 == b | m && h2 == h + 1
    ensures b2 & Full == b2 && PopCount(b2) == h2
  {
    PopCountAdd(b, m);
  }

  /** `move` shares no cell with the occupied cells `remain`. */
  predicate Available(remain: Bits, move: Bits) {
    remain & move == 0
  }

  /** Some winning line is contained in the mark set `b`. */
  predicate HasLine(b: Bits) {
    exists k :: 0 <= k < |Solutions| && Covers(b, k)
  }

  /** The `k`-th winning line is contained in `b`. */
  predicate Covers(b: Bits, k: nat)
    requires k < |Solutions|
  {
    b & Solutions[k] == Solutions[k]
  }

  /** The cells (3r, 3r+1, 3r+2) of row r, (c, c+3, c+6) of column c, and the two diagonals. */
  function Row(r: nat): Bits
    requires r < 3
  {
    IndexToMove(3 * r) | IndexToMove(3 * r + 1) | IndexToMove(3 * r + 2)
  }

  function Column(c: nat): Bits
    requires c < 3
  {
    IndexToMove(c) | IndexToMove(c + 3) | IndexToMove(c + 6)
  }

  /** The eight solution masks are the two diagonals, the three rows and the three columns,
      in that order; each covers three distinct cells of the board. */
  lemma SolutionsAreLines()
    ensures Solutions == [
      IndexToMove(0) | IndexToMove(4) | IndexToMove(8),
      IndexToMove(2) | IndexToMove(4) | IndexToMove(6),
      Row(0), Row(1), Row(2), Column(0), Column(1), Column(2)]
    ensures forall k :: 0 <= k < |Solutions| ==> Solutions[k] & Full == Solutions[k] && PopCount(Solutions[k]) == 3
  {
  }

  /** The empty board holds no line, so the root of a game is never won. */
  lemma NoLineOnEmptyBoard()
    ensures !HasLine(0)
  {
  }

  /** A board that is not full has a free cell among the nine. */
  lemma FreeCellExists(b: Bits)
    requires b & Full == b && b != Full
    ensures exists j :: 0 <= j < 9 && b & IndexToMove(j) == 0
  {
    if b & P00 == 0 { assert b & IndexToMove(0) == 0; }
    else if b & P10 == 0 { assert b & IndexToMove(1) == 0; }
    else if b & P20 == 0 { assert b & IndexToMove(2) == 0; }
    else if b & P01 == 0 { assert b & IndexToMove(3) == 0; }
    else if b & P11 == 0 { assert b & IndexToMove(4) == 0; }
    else if b & P21 == 0 { assert b & IndexToMove(5) == 0; }
    else if b & P02 == 0 { assert b & IndexToMove(6) == 0; }
    else if b & P12 == 0 { assert b & IndexToMove(7) == 0; }
    else { assert b & IndexToMove(8) == 0; }
  }
}
