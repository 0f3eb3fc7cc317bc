/** Applying a move: vacating the source of a jump, filling the destination, the capture
    sweep around the destination, the change of turn, and the end-of-game verdict. */
module Play {
  import opened Wrappers
  import opened Moves
  import opened Board
  import opened MoveGen

  // ---------------------------------------------------------------------------
  // Terminal detection

  /** Number of cells holding `v`. */
  function Count(s: seq<Byte>, v: Byte): (n: nat)
    ensures n == multiset(s)[v]
  {
    if |s| == 0 then 0
    else
      assert s == [s[0]] + s[1..];
      (if s[0] == v then 1 else 0) + Count(s[1..], v)
  }

  /** `get_winner`: no verdict while the player to move has a legal move; otherwise 0 for
      equal counts of player-1 and player-2 cells, else the player with more cells. */
  function GetWinner(f: Field): (w: Option<Byte>)
    ensures w.None? <==> exists m :: IsValidMove(f, m)
    ensures w.Some? ==> (w.value == 0 <==> multiset(f.data)[1] == multiset(f.data)[2])
    ensures w.Some? ==> (w.value == 1 <==> multiset(f.data)[1] > multiset(f.data)[2])
    ensures w.Some? ==> (w.value == 2 <==> multiset(f.data)[2] > multiset(f.data)[1])
  {
    var moves := ValidMoves(f);
    if |moves| > 0 then
      assert IsValidMove(f, moves[0]);
      None
    else
      var p1, p2 := Count(f.data, 1), Count(f.data, 2);
      if p1 == p2 then Some(0) else Some(if p1 > p2 then 1 else 2)
  }

  // ---------------------------------------------------------------------------
  // The capture sweep

  /** Neighbour number `n` of the 3x3 ring: dx outer, dy inner, both ascending, centre skipped. */
  function NeighbourAt(n: int): (d: (int, int))
    requires 0 <= n < 8
    ensures -1 <= d.0 <= 1 && -1 <= d.1 <= 1 && d != (0, 0)
  {
    var l := if n < 4 then n else n + 1;
    (l / 3 - 1, l % 3 - 1)
  }

  function NeighbourIndex(dx: int, dy: int): (n: int)
    requires -1 <= dx <= 1 && -1 <= dy <= 1 && (dx, dy) != (0, 0)
    ensures 0 <= n < 8 && NeighbourAt(n) == (dx, dy)
  {
    var l := (dx + 1) * 3 + (dy + 1);
    if l < 4 then l else l - 1
  }

  /** `p` is one of the eight cells around `q`. */
  predicate Adjacent(p: Pos, q: Pos) {
    p != q && -1 <= p.x - q.x <= 1 && -1 <= p.y - q.y <= 1
  }

  /** `p` is around `q` and comes at or after neighbour number `n` in the sweep. */
  predicate Swept(p: Pos, q: Pos, n: int) {
    Adjacent(p, q) && NeighbourIndex(p.x - q.x, p.y - q.y) >= n
  }

  /** `p` is on the board and owned by someone other than `player`. */
  predicate Capturable(f: Field, p: Pos, player: Byte) {
    Get(f, p).Some? && Get(f, p).value != 0 && Get(f, p).value != player
  }

  /** The sweep from neighbour number `n` on: each on-board neighbour of `dest` that is
      neither empty nor `player`'s becomes `player`'s. */
  function Capture(f: Field, dest: Pos, player: Byte, n: int): (r: Field)
    requires IsValidPosition(dest) && 0 <= n <= 8
    ensures r.current == f.current
    decreases 8 - n
  {
    if n == 8 then f
    else Capture(SweepStep(f, dest, player, n), dest, player, n + 1)
  }

  /** Neighbour number `n` of `dest`. */
  function NeighbourPos(dest: Pos, n: int): (q: Pos)
    requires IsValidPosition(dest) && 0 <= n < 8
    ensures Swept(q, dest, n) && !Swept(q, dest, n + 1)
  {
    var d := NeighbourAt(n);
    assert NeighbourIndex(d.0, d.1) == n;
    Pos(dest.x + d.0, dest.y + d.1)
  }

  /** The field after step `n` of the sweep. */
  function SweepStep(f: Field, dest: Pos, player: Byte, n: int): Field
    requires IsValidPosition(dest) && 0 <= n < 8
  {
    var q := NeighbourPos(dest, n);
    if Capturable(f, q, player) then Set(f, q, player).value else f
  }

  /** What the rest of the sweep does to cell `p` is the same whether it starts at step `n`
      or, on the field after step `n`, at step `n + 1`. */
  lemma SweepStepCell(f: Field, dest: Pos, player: Byte, n: int, p: Pos)
    requires IsValidPosition(dest) && 0 <= n < 8
    ensures var next := SweepStep(f, dest, player, n);
      (if Swept(p, dest, n + 1) && Capturable(next, p, player) then Some(player) else Get(next, p))
      == (if Swept(p, dest, n) && Capturable(f, p, player) then Some(player) else Get(f, p))
  {
    var q := NeighbourPos(dest, n);
    var next := SweepStep(f, dest, player, n);
    if p != q {
      assert Get(next, p) == Get(f, p);
      if Adjacent(p, dest) {
        assert NeighbourAt(NeighbourIndex(p.x - dest.x, p.y - dest.y)) == (p.x - dest.x, p.y - dest.y);
      }
    }
  }

  /** The sweep from neighbour number `n` on takes exactly the capturable cells among the
      neighbours it visits and leaves every other cell alone. */
  lemma {:induction false} CaptureCells(f: Field, dest: Pos, player: Byte, n: int)
    requires IsValidPosition(dest) && 0 <= n <= 8
    ensures forall p ::
      Get(Capture(f, dest, player, n), p) ==
        if Swept(p, dest, n) && Capturable(f, p, player) then Some(player) else Get(f, p)
    decreases 8 - n
  {
    if n < 8 {
      var next := SweepStep(f, dest, player, n);
      assert Capture(f, dest, player, n) == Capture(next, dest, player, n + 1);
      CaptureCells(next, dest, player, n + 1);
      forall p
        ensures Get(Capture(f, dest, player, n), p) ==
          if Swept(p, dest, n) && Capturable(f, p, player) then Some(player) else Get(f, p)
      {
        SweepStepCell(f, dest, player, n, p);
      }
    }
  }

  // ---------------------------------------------------------------------------
  // Move application

  /** The field after the call, and what `make_move` returns. */
  datatype MoveOutcome = MoveOutcome(after: Field, result: Result<Option<Byte>>)

  /** The board changes of an accepted move, and the change of turn. */
  function Apply(f: Field, m: Move): (g: Field)
    requires IsValidMove(f, m)
    ensures Get(g, m.destination) == Some(f.current)
    ensures g.current == 1 + f.current % 2
  {
    var player := Get(f, m.source).value;
    var f1 := if IsMoving(m) then Set(f, m.source, 0).value else f;
    var f2 := Set(f1, m.destination, player).value;
    var f3 := Capture(f2, m.destination, player, 0);
    BeforeSweep(f, m, f2);
    CaptureCells(f2, m.destination, player, 0);
    assert Get(f3, m.destination) == Some(player);
    Field(f3.data, 1 + f3.current % 2)
  }

  /** `make_move`: rejects exactly the illegal moves, leaving the field as it was; otherwise
      passes the turn with `1 + p % 2` and reports the verdict on the new field. */
  function MakeMove(f: Field, m: Move): (o: MoveOutcome)
    ensures o.result.Err? <==> !IsValidMove(f, m)
    ensures o.result.Err? ==> o.after == f
    ensures o.result.Ok? ==> o.after.current == 1 + f.current % 2
    ensures o.result.Ok? ==> o.result.value == GetWinner(o.after)
  {
    if !IsValidMove(f, m) then MoveOutcome(f, Err)
    else
      var g := Apply(f, m);
      MoveOutcome(g, Ok(GetWinner(g)))
  }

  /** Fields with the same cells read the same everywhere. */
  lemma SameCells(f: Field, g: Field)
    requires f.data == g.data
    ensures forall p :: Get(f, p) == Get(g, p)
  {
  }

  /** The cells just before the capture sweep: a jump has emptied its source and the
      destination holds the mover's stone. */
  lemma BeforeSweep(f: Field, m: Move, f2: Field)
    requires IsValidMove(f, m)
    requires f2 == Set(if IsMoving(m) then Set(f, m.source, 0).value else f, m.destination, f.current).value
    ensures Get(f2, m.destination) == Some(f.current)
    ensures IsMoving(m) ==> Get(f2, m.source) == Some(0)
    ensures forall p :: p != m.destination && !(p == m.source && IsMoving(m)) ==> Get(f2, p) == Get(f, p)
  {
  }

  /** The cells after an accepted move: a jump empties its source, a clone keeps it; the
      destination becomes the mover's; every on-board neighbour of the destination owned by
      someone other than the mover becomes the mover's; no other cell changes. */
  lemma MakeMoveCells(f: Field, m: Move)
    requires IsValidMove(f, m)
    ensures var g := MakeMove(f, m).after;
      && Get(g, m.destination) == Some(f.current)
      && (IsMoving(m) ==> Get(g, m.source) == Some(0))
      && (IsCloning(m) ==> Get(g, m.source) == Get(f, m.source))
      && (forall p :: Adjacent(p, m.destination) && Capturable(f, p, f.current) ==> Get(g, p) == Some(f.current))
      && (forall p ::
            && p != m.destination
            && !(p == m.source && IsMoving(m))
            && !(Adjacent(p, m.destination) && Capturable(f, p, f.current))
            ==> Get(g, p) == Get(f, p))
  {
    var player := f.current;
    var f1 := if IsMoving(m) then Set(f, m.source, 0).value else f;
    var f2 := Set(f1, m.destination, player).value;
    var f3 := Capture(f2, m.destination, player, 0);
    var g := MakeMove(f, m).after;
    assert Get(f, m.source).value == player;
    assert g == Apply(f, m);
    assert g.data == f3.data;
    BeforeSweep(f, m, f2);
    CaptureCells(f2, m.destination, player, 0);
    SameCells(g, f3);
    assert forall p :: Swept(p, m.destination, 0) == Adjacent(p, m.destination);
    assert IsMoving(m) ==> !Adjacent(m.source, m.destination);
    forall p | Adjacent(p, m.destination) && Capturable(f, p, f.current)
      ensures Get(g, p) == Some(f.current)
    {
      assert Get(f2, p) == Get(f, p);
      assert Swept(p, m.destination, 0) && Capturable(f2, p, player);
    }
  }

  /** A move drawn from `valid_moves` is always accepted. */
  lemma ValidMovesApply(f: Field, m: Move)
    requires m in ValidMoves(f)
    ensures MakeMove(f, m).result.Ok?
  {
  }

  /** After an accepted move every cell still holds 0, 1 or 2 and the turn passes to the other player. */
  lemma MakeMoveKeepsWellFormed(f: Field, m: Move)
    requires WellFormed(f) && IsValidMove(f, m)
    ensures WellFormed(MakeMove(f, m).after)
    ensures MakeMove(f, m).after.current == 3 - f.current
  {
    var g := MakeMove(f, m).after;
    MakeMoveCells(f, m);
    assert g.current == 1 + f.current % 2;
    if f.current == 1 {
      assert 1 % 2 == 1;
    } else {
      assert 2 % 2 == 0;
    }
    forall i | 0 <= i < Size
      ensures g.data[i] in {0, 1, 2}
    {
      var p := PosAt(i);
      assert Get(g, p) == Some(g.data[i]);
      assert Get(f, p) == Some(f.data[i]);
      if p == m.destination {
      } else if p == m.source && IsMoving(m) {
      } else if Adjacent(p, m.destination) && Capturable(f, p, f.current) {
      } else {
        assert Get(g, p) == Get(f, p);
      }
    }
  }

  /** No verdict after a move means the next player has a move, so the search never
      continues from a field without moves; a verdict means it has none. */
  lemma VerdictMatchesMoves(f: Field, m: Move)
    requires IsValidMove(f, m)
    ensures MakeMove(f, m).result.value.None? <==> |ValidMoves(MakeMove(f, m).after)| > 0
    ensures MakeMove(f, m).result.value.Some? ==> MakeMove(f, m).result.value.value in {0, 1, 2}
  {
    var g := MakeMove(f, m).after;
    if MakeMove(f, m).result.value.None? {
      var mv :| IsValidMove(g, mv);
      assert mv in ValidMoves(g);
    }
  }

  /** From the starting layout, `a1 b1` clones the (0,0) stone to (1,0): it is among the
      valid moves, the game goes on, (1,0) is player 1's and player 2 is to move. */
  lemma DefaultOpening()
    ensures FromText(Ascii("a1 b1")) == Some(Move(Pos(0, 0), Pos(1, 0)))
    ensures Move(Pos(0, 0), Pos(1, 0)) in ValidMoves(Default())
    ensures MakeMove(Default(), Move(Pos(0, 0), Pos(1, 0))).result == Ok(None)
    ensures Get(MakeMove(Default(), Move(Pos(0, 0), Pos(1, 0))).after, Pos(1, 0)) == Some(1)
    ensures MakeMove(Default(), Move(Pos(0, 0), Pos(1, 0))).after.current == 2
  {
    DecodeClone();
    var f := Default();
    var m := Move(Pos(0, 0), Pos(1, 0));
    assert Get(f, Pos(1, 0)) == Some(0);
    assert IsValidMove(f, m);
    var g := MakeMove(f, m).after;
    MakeMoveCells(f, m);
    var reply := Move(Pos(5, 0), Pos(4, 0));
    assert Get(g, Pos(5, 0)) == Get(f, Pos(5, 0));
    assert Get(f, Pos(4, 0)) == Some(0);
    assert Get(g, Pos(4, 0)) == Get(f, Pos(4, 0));
    assert IsValidMove(g, reply);
  }
}
