/** The 6x6 infection board: owner codes per cell (0 empty, 1 and 2 the players)
    and the player to move. */
module Board {
  import opened Wrappers
  import opened Moves

  const Width := 6
  const Height := 6
  const Size := Width * Height

  /** The cells in raster order: cell `(x, y)` is at index `y * Width + x`. */
  type Grid = s: seq<Byte> | |s| == 36 witness seq(36, _ => 0)

  datatype Field = Field(data: Grid, current: Byte)

  predicate IsValidPosition(p: Pos) {
    0 <= p.x < Width && 0 <= p.y < Height
  }

  function CellIndex(p: Pos): (i: nat)
    requires IsValidPosition(p)
    ensures i < Size
  {
    p.y * Width + p.x
  }

  /** The position visited at step `i` of the raster walk `(i % 6, i / 6)`. */
  function PosAt(i: int): (p: Pos)
    requires 0 <= i < Size
    ensures IsValidPosition(p) && CellIndex(p) == i
  {
    Pos(i % Width, i / Width)
  }

  lemma PosAtCellIndex(p: Pos)
    requires IsValidPosition(p)
    ensures PosAt(CellIndex(p)) == p
  {
  }

  /** Every cell holds 0, 1 or 2 and the player to move is 1 or 2. */
  predicate WellFormed(f: Field) {
    && (forall i :: 0 <= i < Size ==> f.data[i] in {0, 1, 2})
    && f.current in {1, 2}
  }

  function Get(f: Field, p: Pos): (r: Option<Byte>)
    ensures r.Some? <==> IsValidPosition(p)
  {
    if !IsValidPosition(p) then None else Some(f.data[CellIndex(p)])
  }

  /** Writing a cell: fails off the board; on it, only that cell changes. */
  function Set(f: Field, p: Pos, v: Byte): (r: Result<Field>)
    ensures r.Ok? <==> IsValidPosition(p)
    ensures r.Ok? ==> r.value.current == f.current
    ensures r.Ok? ==> forall q :: Get(r.value, q) == if q == p then Some(v) else Get(f, q)
  {
    if !IsValidPosition(p) then Err
    else
      PosAtCellIndex(p);
      Ok(Field(f.data[CellIndex(p) := v], f.current))
  }

  /** The empty board with player 1 to move. */
  function New(): (f: Field)
    ensures WellFormed(f)
    ensures forall p :: IsValidPosition(p) ==> Get(f, p) == Some(0)
    ensures f.current == 1
  {
    Field(seq(36, _ => 0), 1)
  }

  /** The starting layout: player 1 on corners (0,0) and (5,5), player 2 on (5,0) and (0,5). */
  function Default(): (f: Field)
    ensures WellFormed(f)
    ensures f.current == 1
    ensures Get(f, Pos(0, 0)) == Some(1) && Get(f, Pos(5, 5)) == Some(1)
    ensures Get(f, Pos(5, 0)) == Some(2) && Get(f, Pos(0, 5)) == Some(2)
    ensures forall p :: IsValidPosition(p) && p !in {Pos(0, 0), Pos(5, 0), Pos(0, 5), Pos(5, 5)} ==>
      Get(f, p) == Some(0)
  {
    var f := New();
    var f := Set(f, Pos(0, 0), 1).value;
    var f := Set(f, Pos(5, 0), 2).value;
    var f := Set(f, Pos(0, 5), 2).value;
    var f := Set(f, Pos(5, 5), 1).value;
    assert forall i :: 0 <= i < Size ==> Get(f, PosAt(i)) == Some(f.data[i]);
    f
  }

  /** Legality: a valid (clone or jump) move from an on-board cell of the player to move
      to an on-board empty cell. */
  predicate IsValidMove(f: Field, m: Move)
    ensures IsValidMove(f, m) <==>
      && IsValidPosition(m.source) && IsValidPosition(m.destination)
      && 1 <= Distance(m) <= 2
      && f.data[CellIndex(m.source)] == f.current
      && f.data[CellIndex(m.destination)] == 0
  {
    if !IsValid(m) then false
    else if Get(f, m.source) != Some(f.current) then false
    else Get(f, m.destination) == Some(0)
  }
}
