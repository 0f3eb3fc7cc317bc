/** Move enumeration: for every cell of the player to move, in raster order, the 24 offsets
    of the surrounding 5x5 box (dx outer, dy inner, both ascending, centre skipped). */
module MoveGen {
  import opened Moves
  import opened Board

  const OffsetCount := 24

  /** The two nested loops over cells and offsets, flattened: step `j` visits cell `j / 24`
      with offset number `j % 24`. */
  const CandidateCount := Size * OffsetCount

  /** Offset number `k`: position `l` of the 5x5 box in dx-major order, the centre `l = 12` skipped. */
  function OffsetAt(k: int): (d: (int, int))
    requires 0 <= k < OffsetCount
    ensures -2 <= d.0 <= 2 && -2 <= d.1 <= 2 && d != (0, 0)
  {
    var l := if k < 12 then k else k + 1;
    (l / 5 - 2, l % 5 - 2)
  }

  /** The number of an offset in the enumeration: inverse of `OffsetAt`. */
  function OffsetIndex(dx: int, dy: int): (k: int)
    requires -2 <= dx <= 2 && -2 <= dy <= 2 && (dx, dy) != (0, 0)
    ensures 0 <= k < OffsetCount && OffsetAt(k) == (dx, dy)
  {
    var l := (dx + 2) * 5 + (dy + 2);
    if l < 12 then l else l - 1
  }

  lemma OffsetIndexOfOffsetAt(k: int)
    requires 0 <= k < OffsetCount
    ensures OffsetIndex(OffsetAt(k).0, OffsetAt(k).1) == k
  {
  }

  /** A move whose source is on the board and whose destination lies in the 5x5 box around it. */
  predicate IsCandidate(m: Move) {
    && IsValidPosition(m.source)
    && -2 <= m.destination.x - m.source.x <= 2
    && -2 <= m.destination.y - m.source.y <= 2
    && m.source != m.destination
  }

  /** The move examined at step `j`. */
  function Candidate(j: int): (m: Move)
    requires 0 <= j < CandidateCount
    ensures IsCandidate(m)
  {
    var p := PosAt(j / OffsetCount);
    var d := OffsetAt(j % OffsetCount);
    Move(p, Pos(p.x + d.0, p.y + d.1))
  }

  /** The step at which a candidate move is examined. */
  function CandidateIndex(m: Move): (j: int)
    requires IsCandidate(m)
    ensures 0 <= j < CandidateCount
  {
    CellIndex(m.source) * OffsetCount + OffsetIndex(m.destination.x - m.source.x, m.destination.y - m.source.y)
  }

  /** Every candidate is examined, at the step `CandidateIndex` names, while the loop is on
      its source cell. */
  lemma CandidateAtIndex(m: Move)
    requires IsCandidate(m)
    ensures CandidateIndex(m) / OffsetCount == CellIndex(m.source)
    ensures Candidate(CandidateIndex(m)) == m
  {
    var j := CandidateIndex(m);
    assert j / OffsetCount == CellIndex(m.source);
    PosAtCellIndex(m.source);
  }

  lemma CandidateIndexOfCandidate(j: int)
    requires 0 <= j < CandidateCount
    ensures CandidateIndex(Candidate(j)) == j
  {
    var i, k := j / OffsetCount, j % OffsetCount;
    assert j == i * OffsetCount + k;
    OffsetIndexOfOffsetAt(k);
  }

  lemma ValidMoveIsCandidate(f: Field, m: Move)
    requires IsValidMove(f, m)
    ensures IsCandidate(m)
  {
    Classification(m);
  }

  /** Enumeration order: source cell index first, then dx, then dy, all ascending. */
  predicate Precedes(a: Move, b: Move) {
    var ka, kb := a.source.y * Width + a.source.x, b.source.y * Width + b.source.x;
    var dxa, dxb := a.destination.x - a.source.x, b.destination.x - b.source.x;
    var dya, dyb := a.destination.y - a.source.y, b.destination.y - b.source.y;
    ka < kb || (ka == kb && (dxa < dxb || (dxa == dxb && dya < dyb)))
  }

  /** The step number orders candidates exactly as `Precedes` does. */
  lemma PrecedesByIndex(a: Move, b: Move)
    requires IsCandidate(a) && IsCandidate(b)
    ensures Precedes(a, b) <==> CandidateIndex(a) < CandidateIndex(b)
  {
    var ca, cb := CellIndex(a.source), CellIndex(b.source);
    var oa := OffsetIndex(a.destination.x - a.source.x, a.destination.y - a.source.y);
    var ob := OffsetIndex(b.destination.x - b.source.x, b.destination.y - b.source.y);
    if ca < cb {
      assert ca * OffsetCount + oa < (ca + 1) * OffsetCount <= cb * OffsetCount;
    } else if cb < ca {
      assert cb * OffsetCount + ob < (cb + 1) * OffsetCount <= ca * OffsetCount;
    }
  }

  /** Step `j` emits a move: its source is the mover's and the move is legal. */
  predicate Keep(f: Field, j: int)
    requires 0 <= j < CandidateCount
  {
    f.data[j / OffsetCount] == f.current && IsValidMove(f, Candidate(j))
  }

  /** The loops of `valid_moves` from step `j` on, with `acc` the moves pushed so far.
      A cloning move already pushed is skipped, which is what the `similar` set does:
      that set holds exactly the cloning moves of `acc`. */
  function Enumerate(f: Field, j: int, acc: seq<Move>): (r: seq<Move>)
    requires 0 <= j <= CandidateCount
    ensures acc <= r
    ensures forall m :: m in r ==> m in acc || IsValidMove(f, m)
    decreases CandidateCount - j
  {
    if j == CandidateCount then acc
    else if !Keep(f, j) then Enumerate(f, j + 1, acc)
    else
      var m := Candidate(j);
      if IsCloning(m) && m in acc then Enumerate(f, j + 1, acc)
      else Enumerate(f, j + 1, acc + [m])
  }

  /** Reference enumeration without de-duplication: the legal candidates from step `j` on,
      in step order. */
  function Legal(f: Field, j: int): seq<Move>
    requires 0 <= j <= CandidateCount
    decreases CandidateCount - j
  {
    if j == CandidateCount then []
    else if Keep(f, j) then [Candidate(j)] + Legal(f, j + 1)
    else Legal(f, j + 1)
  }

  /** One unfolding of the reference enumeration. */
  lemma LegalStep(f: Field, j: int)
    requires 0 <= j < CandidateCount
    ensures Legal(f, j) == if Keep(f, j) then [Candidate(j)] + Legal(f, j + 1) else Legal(f, j + 1)
  {
  }

  /** The reference enumeration emits only legal moves. */
  lemma {:induction false} LegalSound(f: Field, j: int)
    requires 0 <= j <= CandidateCount
    ensures forall k :: 0 <= k < |Legal(f, j)| ==> IsValidMove(f, Legal(f, j)[k])
    decreases CandidateCount - j
  {
    if j < CandidateCount {
      LegalSound(f, j + 1);
      LegalStep(f, j);
      if Keep(f, j) {
        var rest := Legal(f, j + 1);
        var r := [Candidate(j)] + rest;
        assert forall k :: 1 <= k < |r| ==> r[k] == rest[k - 1];
      }
    }
  }

  /** The steps from `j` on that emit a move. */
  function KeptSteps(f: Field, j: int): seq<int>
    requires 0 <= j <= CandidateCount
    decreases CandidateCount - j
  {
    if j == CandidateCount then []
    else if Keep(f, j) then [j] + KeptSteps(f, j + 1)
    else KeptSteps(f, j + 1)
  }

  /** The emitting steps lie between `j` and the last step and strictly increase. */
  lemma {:induction false} KeptStepsOrdered(f: Field, j: int)
    requires 0 <= j <= CandidateCount
    ensures forall k :: 0 <= k < |KeptSteps(f, j)| ==> j <= KeptSteps(f, j)[k] < CandidateCount
    ensures forall a, b :: 0 <= a < b < |KeptSteps(f, j)| ==> KeptSteps(f, j)[a] < KeptSteps(f, j)[b]
    decreases CandidateCount - j
  {
    if j < CandidateCount {
      KeptStepsOrdered(f, j + 1);
      var rest := KeptSteps(f, j + 1);
      if Keep(f, j) {
        var ks := [j] + rest;
        assert KeptSteps(f, j) == ks;
        forall k | 1 <= k < |ks|
          ensures ks[k] == rest[k - 1]
        {
        }
      }
    }
  }

  /** `r` lists the moves of steps `ks`, position by position. */
  predicate AtSteps(r: seq<Move>, ks: seq<int>) {
    && |r| == |ks|
    && forall k :: 0 <= k < |r| ==> 0 <= ks[k] < CandidateCount && r[k] == Candidate(ks[k])
  }

  lemma ConsAtSteps(j: int, r: seq<Move>, ks: seq<int>)
    requires 0 <= j < CandidateCount && AtSteps(r, ks)
    ensures AtSteps([Candidate(j)] + r, [j] + ks)
  {
    var r', ks' := [Candidate(j)] + r, [j] + ks;
    forall k | 1 <= k < |r'|
      ensures r'[k] == r[k - 1] && ks'[k] == ks[k - 1]
    {
    }
  }

  /** The reference enumeration emits the move of each emitting step, in step order. */
  lemma {:induction false} LegalAtSteps(f: Field, j: int)
    requires 0 <= j <= CandidateCount
    ensures AtSteps(Legal(f, j), KeptSteps(f, j))
    decreases CandidateCount - j
  {
    if j < CandidateCount {
      LegalAtSteps(f, j + 1);
      LegalStep(f, j);
      if Keep(f, j) {
        assert KeptSteps(f, j) == [j] + KeptSteps(f, j + 1);
        ConsAtSteps(j, Legal(f, j + 1), KeptSteps(f, j + 1));
      } else {
        assert KeptSteps(f, j) == KeptSteps(f, j + 1);
      }
    }
  }

  /** Every move of `acc` is a candidate examined before step `j`. */
  predicate AllBefore(acc: seq<Move>, j: int) {
    forall k :: 0 <= k < |acc| ==> IsCandidate(acc[k]) && CandidateIndex(acc[k]) < j
  }

  /** A move pushed before step `j` is not the move of step `j`. */
  lemma NotYetPushed(acc: seq<Move>, j: int)
    requires 0 <= j < CandidateCount
    requires AllBefore(acc, j)
    ensures Candidate(j) !in acc
  {
    CandidateIndexOfCandidate(j);
  }

  /** A kept step whose move was not pushed yet pushes it. */
  lemma EnumeratePushes(f: Field, j: int, acc: seq<Move>)
    requires 0 <= j < CandidateCount && Keep(f, j) && Candidate(j) !in acc
    ensures Enumerate(f, j, acc) == Enumerate(f, j + 1, acc + [Candidate(j)])
  {
  }

  /** Pushing step `j`'s move keeps every pushed move before step `j + 1`. */
  lemma PushedBefore(acc: seq<Move>, j: int)
    requires 0 <= j < CandidateCount
    requires AllBefore(acc, j)
    ensures AllBefore(acc + [Candidate(j)], j + 1)
  {
    CandidateIndexOfCandidate(j);
  }

  /** Concatenation regroups. */
  lemma ConcatAssoc(a: seq<Move>, b: seq<Move>, c: seq<Move>)
    ensures a + b + c == a + (b + c)
  {
  }

  /** The de-duplication never fires: a step's move was never pushed at an earlier step. */
  lemma {:induction false} EnumerateIsLegal(f: Field, j: int, acc: seq<Move>)
    requires 0 <= j <= CandidateCount
    requires AllBefore(acc, j)
    ensures Enumerate(f, j, acc) == acc + Legal(f, j)
    decreases CandidateCount - j
  {
    if j < CandidateCount {
      if Keep(f, j) {
        var m := Candidate(j);
        NotYetPushed(acc, j);
        EnumeratePushes(f, j, acc);
        PushedBefore(acc, j);
        EnumerateIsLegal(f, j + 1, acc + [m]);
        LegalStep(f, j);
        ConcatAssoc(acc, [m], Legal(f, j + 1));
      } else {
        assert Enumerate(f, j, acc) == Enumerate(f, j + 1, acc);
        LegalStep(f, j);
        EnumerateIsLegal(f, j + 1, acc);
      }
    }
  }

  /** Every legal move at or after step `j` is emitted. */
  lemma {:induction false} LegalComplete(f: Field, j: int, m: Move)
    requires 0 <= j <= CandidateCount
    requires IsValidMove(f, m)
    requires IsCandidate(m) && j <= CandidateIndex(m)
    ensures m in Legal(f, j)
    decreases CandidateCount - j
  {
    LegalStep(f, j);
    CandidateAtIndex(m);
    if j == CandidateIndex(m) {
      assert Candidate(j) == m;
      assert Keep(f, j);
    } else {
      LegalComplete(f, j + 1, m);
    }
  }

  /** `valid_moves`: exactly the legal moves, each once, in enumeration order. */
  function ValidMoves(f: Field): (r: seq<Move>)
    ensures forall m :: m in r <==> IsValidMove(f, m)
    ensures forall k :: 0 <= k < |r| ==> IsValidMove(f, r[k])
    ensures forall a, b :: 0 <= a < b < |r| ==> Precedes(r[a], r[b])
  {
    EnumerateFromStart(f);
    LegalExact(f);
    Enumerate(f, 0, [])
  }

  lemma EnumerateFromStart(f: Field)
    ensures Enumerate(f, 0, []) == Legal(f, 0)
  {
    EnumerateIsLegal(f, 0, []);
    assert [] + Legal(f, 0) == Legal(f, 0);
  }

  lemma LegalExact(f: Field)
    ensures forall m :: m in Legal(f, 0) <==> IsValidMove(f, m)
    ensures forall a, b :: 0 <= a < b < |Legal(f, 0)| ==> Precedes(Legal(f, 0)[a], Legal(f, 0)[b])
  {
    var r, ks := Legal(f, 0), KeptSteps(f, 0);
    LegalSound(f, 0);
    LegalAtSteps(f, 0);
    KeptStepsOrdered(f, 0);
    forall m | IsValidMove(f, m)
      ensures m in r
    {
      ValidMoveIsCandidate(f, m);
      LegalComplete(f, 0, m);
    }
    forall a, b | 0 <= a < b < |r|
      ensures Precedes(r[a], r[b])
    {
      CandidateIndexOfCandidate(ks[a]);
      CandidateIndexOfCandidate(ks[b]);
      PrecedesByIndex(r[a], r[b]);
    }
  }

  /** No move appears twice. */
  lemma ValidMovesDistinct(f: Field)
    ensures forall a, b :: 0 <= a < b < |ValidMoves(f)| ==> ValidMoves(f)[a] != ValidMoves(f)[b]
  {
  }
}
