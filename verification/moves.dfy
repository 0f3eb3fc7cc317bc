/** Moves of the infection game: a source and a destination cell, classified by
    Chebyshev distance, with the five-byte text form `<letter><digit> <letter><digit>`. */
module Moves {
  import opened Wrappers

  /** An unsigned byte: the source's `u8`, and one byte of UTF-8 text. */
  type Byte = x: int | 0 <= x < 256

  /** A signed byte: the source's `i8` coordinate type. */
  type I8 = x: int | -128 <= x < 128

  /** A cell coordinate `[x, y]`; off-board values are representable. */
  datatype Pos = Pos(x: I8, y: I8)

  datatype Move = Move(source: Pos, destination: Pos)

  const Space: Byte := 32
  const LetterBase: Byte := 97  // 'a'
  const DigitBase: Byte := 49   // '1'

  function Abs(a: int): nat {
    if a < 0 then -a else a
  }

  /** Chebyshev distance between source and destination (`abs_diff` on `i8` is exact in `u8`). */
  function Distance(m: Move): (d: nat)
    ensures Abs(m.destination.x - m.source.x) <= d && Abs(m.destination.y - m.source.y) <= d
    ensures d == Abs(m.destination.x - m.source.x) || d == Abs(m.destination.y - m.source.y)
    ensures d == 0 <==> m.source == m.destination
  {
    var x := Abs(m.destination.x - m.source.x);
    var y := Abs(m.destination.y - m.source.y);
    if x > y then x else y
  }

  predicate IsValid(m: Move) {
    Distance(m) > 0 && Distance(m) <= 2
  }

  /** A clone: the source keeps its stone. */
  predicate IsCloning(m: Move) {
    Distance(m) == 1
  }

  /** A jump: the source is vacated. */
  predicate IsMoving(m: Move) {
    Distance(m) == 2
  }

  /** Clones and jumps are disjoint and together are exactly the valid moves, which are
      the moves whose destination lies in the 5x5 box around the source, centre excluded. */
  lemma Classification(m: Move)
    ensures !(IsCloning(m) && IsMoving(m))
    ensures IsValid(m) <==> IsCloning(m) || IsMoving(m)
    ensures IsValid(m) <==>
      && m.source != m.destination
      && -2 <= m.destination.x - m.source.x <= 2
      && -2 <= m.destination.y - m.source.y <= 2
  {
  }

  // ---------------------------------------------------------------------------
  // Splitting text on a separator byte, as `str::split` does

  /** The parts joined back together with the separator between consecutive parts. */
  function Join(parts: seq<seq<Byte>>, sep: Byte): seq<Byte>
    requires |parts| >= 1
  {
    if |parts| == 1 then parts[0] else parts[0] + [sep] + Join(parts[1..], sep)
  }

  /** Prefixing a byte to the first part prefixes it to the joined text. */
  lemma JoinPrefix(c: Byte, rest: seq<seq<Byte>>, sep: Byte)
    requires |rest| >= 1
    ensures Join([[c] + rest[0]] + rest[1..], sep) == [c] + Join(rest, sep)
  {
    var parts := [[c] + rest[0]] + rest[1..];
    assert parts[1..] == rest[1..];
  }

  lemma JoinTwo(parts: seq<seq<Byte>>, sep: Byte)
    requires |parts| == 2
    ensures Join(parts, sep) == parts[0] + [sep] + parts[1]
  {
    assert parts[1..] == [parts[1]];
  }

  /** `s.split(sep)`: the separator-free pieces between separators, empty ones included. */
  function Split(s: seq<Byte>, sep: Byte): (parts: seq<seq<Byte>>)
    ensures |parts| == multiset(s)[sep] + 1
    ensures forall i :: 0 <= i < |parts| ==> sep !in parts[i]
  {
    if |s| == 0 then [[]]
    else
      var rest := Split(s[1..], sep);
      assert s == [s[0]] + s[1..];
      assert multiset(s) == multiset{s[0]} + multiset(s[1..]);
      if s[0] == sep then
        [[]] + rest
      else
        var parts := [[s[0]] + rest[0]] + rest[1..];
        assert forall i :: 1 <= i < |parts| ==> parts[i] == rest[i];
        parts
  }

  /** Joining the pieces back with the separator gives the original text. */
  lemma {:induction false} SplitJoin(s: seq<Byte>, sep: Byte)
    ensures Join(Split(s, sep), sep) == s
  {
    if |s| > 0 {
      var rest := Split(s[1..], sep);
      SplitJoin(s[1..], sep);
      assert s == [s[0]] + s[1..];
      if s[0] == sep {
        assert ([[]] + rest)[1..] == rest;
      } else {
        JoinPrefix(s[0], rest, sep);
      }
    }
  }

  // ---------------------------------------------------------------------------
  // Text decoding and encoding

  /** `(b - base) as i8` with the `u8` subtraction wrapping as in a release build. */
  function DecodeCoord(b: Byte, base: Byte): I8 {
    var v := (b - base) % 256;
    if v < 128 then v else v - 256
  }

  /** Exactly five bytes, a space in the middle and nowhere else. */
  predicate WellShaped(s: seq<Byte>) {
    && |s| == 5
    && s[2] == Space
    && s[0] != Space && s[1] != Space && s[3] != Space && s[4] != Space
  }

  /** The move the coordinate bytes of a five-byte text spell. */
  function Decoded(s: seq<Byte>): Move
    requires |s| == 5
  {
    Move(Pos(DecodeCoord(s[0], LetterBase), DecodeCoord(s[1], DigitBase)),
         Pos(DecodeCoord(s[3], LetterBase), DecodeCoord(s[4], DigitBase)))
  }

  /** `Move::from_string` on the UTF-8 bytes of its argument. */
  function FromText(s: seq<Byte>): (r: Option<Move>)
    ensures r.Some? ==> IsValid(r.value)
    ensures r.Some? ==> multiset(s)[Space] == 1
  {
    var parts := Split(s, Space);
    if |parts| != 2 then None
    else if |parts[0]| != 2 then None
    else if |parts[1]| != 2 then None
    else
      var m := Move(Pos(DecodeCoord(parts[0][0], LetterBase), DecodeCoord(parts[0][1], DigitBase)),
                    Pos(DecodeCoord(parts[1][0], LetterBase), DecodeCoord(parts[1][1], DigitBase)));
      if !IsValid(m) then None else Some(m)
  }

  lemma SpacesOfWellShaped(s: seq<Byte>)
    requires WellShaped(s)
    ensures multiset(s)[Space] == 1
  {
    assert s == [s[0]] + [s[1]] + [s[2]] + [s[3]] + [s[4]];
  }

  /** Decoding succeeds exactly on well-shaped text whose decoded move is valid,
      and then yields that move. Board bounds are not consulted. */
  lemma FromTextExact(s: seq<Byte>)
    ensures FromText(s).Some? <==> WellShaped(s) && IsValid(Decoded(s))
    ensures FromText(s).Some? ==> FromText(s).value == Decoded(s)
  {
    var parts := Split(s, Space);
    SplitJoin(s, Space);
    if |parts| == 2 && |parts[0]| == 2 && |parts[1]| == 2 {
      JoinTwo(parts, Space);
      assert s[0] == parts[0][0] && s[1] == parts[0][1] && s[3] == parts[1][0] && s[4] == parts[1][1];
      assert WellShaped(s);
    }
    if WellShaped(s) {
      SpacesOfWellShaped(s);
      assert |parts| == 2;
      var p0, p1 := parts[0], parts[1];
      JoinTwo(parts, Space);
      assert s[|p0|] == Space;
      assert forall i :: 0 <= i < 5 && i != 2 ==> s[i] != Space;
      assert |p0| == 2 && |p1| == 2;
    }
  }

  /** The coordinates `to_string` can write without leaving single-byte ASCII. */
  predicate Printable(m: Move) {
    && 0 <= m.source.x && LetterBase + m.source.x < 128
    && 0 <= m.source.y && DigitBase + m.source.y < 128
    && 0 <= m.destination.x && LetterBase + m.destination.x < 128
    && 0 <= m.destination.y && DigitBase + m.destination.y < 128
  }

  /** Decoding undoes the offset `to_string` adds. */
  lemma DecodeShift(v: int, base: Byte)
    requires 0 <= v && base + v < 128
    ensures DecodeCoord(base + v, base) == v
  {
    assert (base + v - base) % 256 == v;
  }

  /** `Move::to_string`, as the UTF-8 bytes of the resulting string. */
  function ToText(m: Move): (s: seq<Byte>)
    requires Printable(m)
    ensures WellShaped(s)
    ensures Decoded(s) == m
  {
    DecodeShift(m.source.x, LetterBase);
    DecodeShift(m.source.y, DigitBase);
    DecodeShift(m.destination.x, LetterBase);
    DecodeShift(m.destination.y, DigitBase);
    [LetterBase + m.source.x, DigitBase + m.source.y, Space,
     LetterBase + m.destination.x, DigitBase + m.destination.y]
  }

  /** Text round trip: every printable valid move decodes back to itself; an invalid one is rejected. */
  lemma RoundTrip(m: Move)
    requires Printable(m)
    ensures FromText(ToText(m)) == if IsValid(m) then Some(m) else None
  {
    FromTextExact(ToText(m));
  }

  /** On-board coordinates print as a letter `a`..`f` and a digit `1`..`6`. */
  lemma OnBoardText(m: Move)
    requires 0 <= m.source.x < 6 && 0 <= m.source.y < 6
    requires 0 <= m.destination.x < 6 && 0 <= m.destination.y < 6
    ensures Printable(m)
    ensures var s := ToText(m);
      && 'a' as int <= s[0] <= 'f' as int && '1' as int <= s[1] <= '6' as int
      && s[2] == ' ' as int
      && 'a' as int <= s[3] <= 'f' as int && '1' as int <= s[4] <= '6' as int
  {
  }

  /** The bytes of an ASCII string literal. */
  function Ascii(t: string): (s: seq<Byte>)
    requires forall i :: 0 <= i < |t| ==> t[i] as int < 128
    ensures |s| == |t|
  {
    seq(|t|, i requires 0 <= i < |t| => t[i] as int)
  }

  /** An ordinary clone decodes. */
  lemma DecodeClone()
    ensures FromText(Ascii("a1 b1")) == Some(Move(Pos(0, 0), Pos(1, 0)))
  {
    var s := Ascii("a1 b1");
    assert s == [97, 49, 32, 98, 49];
    assert WellShaped(s) && Decoded(s) == Move(Pos(0, 0), Pos(1, 0));
    FromTextExact(s);
  }

  /** Board bounds are not checked: `z1 z2` decodes to a move off the 6x6 board. */
  lemma DecodeOffBoard()
    ensures FromText(Ascii("z1 z2")) == Some(Move(Pos(25, 0), Pos(25, 1)))
  {
    var s := Ascii("z1 z2");
    assert s == [122, 49, 32, 122, 50];
    assert WellShaped(s) && Decoded(s) == Move(Pos(25, 0), Pos(25, 1));
    FromTextExact(s);
  }

  /** Distance 0 is rejected. */
  lemma DecodeRejectsStay()
    ensures FromText(Ascii("a1 a1")) == None
  {
    var s := Ascii("a1 a1");
    assert s == [97, 49, 32, 97, 49];
    assert !IsValid(Decoded(s));
    FromTextExact(s);
  }

  /** Distance 3 is rejected. */
  lemma DecodeRejectsFar()
    ensures FromText(Ascii("a1 d1")) == None
  {
    var s := Ascii("a1 d1");
    assert s == [97, 49, 32, 100, 49];
    assert !IsValid(Decoded(s));
    FromTextExact(s);
  }

  /** Text without the separator is rejected. */
  lemma DecodeRejectsUnsplit()
    ensures FromText(Ascii("a1b1")) == None
  {
    var s := Ascii("a1b1");
    assert s == [97, 49, 98, 49];
    assert !WellShaped(s);
    FromTextExact(s);
  }
}
