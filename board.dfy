/**
 * The attack map of the analysis board: which squares each piece attacks
 * in the current position, whether or not a move there would be legal.
 * Squares are named as chess.js names them ("e4"); the position is what
 * `chess.get` answers for each square.
 */
module Board {
  import opened Wrappers
  import JsValues

  datatype Color = White | Black
  datatype Kind = Pawn | Knight | Bishop | Rook | Queen | King
  datatype Piece = Piece(color: Color, kind: Kind)

  /** The occupied squares of the position and the piece on each. */
  type Position = map<string, Piece>

  /** File `f` (0 for a) and rank `r` (0 for rank 1) name a square of the board. */
  predicate InBounds(f: int, r: int)
  {
    0 <= f < 8 && 0 <= r < 8
  }

  /** The square's name: its file letter, then its rank number. */
  function ToSq(f: int, r: int): (sq: string)
    requires InBounds(f, r)
    ensures |sq| == 2 && 'a' <= sq[0] <= 'h' && '1' <= sq[1] <= '8'
  {
    [(97 + f) as char, (49 + r) as char]
  }

  /** The name is the letter `String.fromCharCode` gives for the file, then the rank number in decimal. */
  lemma ToSqSpells(f: int, r: int)
    requires InBounds(f, r)
    ensures ToSq(f, r) == [(('a' as int) + f) as char] + JsValues.DecimalString(r + 1)
  {
  }

  /**
   * The file and rank a square name encodes: the first character's offset
   * from 'a' and the second character read as a digit, less one. Without a
   * digit in second place `parseInt` gives NaN, and no test against a NaN
   * coordinate holds, so that case is None.
   */
  function FromSq(sq: string): (c: Option<(int, int)>)
  {
    if |sq| < 2 || !('0' <= sq[1] <= '9') then None
    else Some((sq[0] as int - 97, sq[1] as int - 49))
  }

  /** Every in-bounds pair survives the trip through its name. */
  lemma FromToSq(f: int, r: int)
    requires InBounds(f, r)
    ensures FromSq(ToSq(f, r)) == Some((f, r))
  {
  }

  /** A two-character name that decodes in bounds is the name of that pair. */
  lemma ToFromSq(sq: string)
    requires |sq| == 2 && FromSq(sq).Some? && InBounds(FromSq(sq).value.0, FromSq(sq).value.1)
    ensures ToSq(FromSq(sq).value.0, FromSq(sq).value.1) == sq
  {
  }

  /** Distinct squares have distinct names. */
  lemma ToSqInjective(f: int, r: int, f': int, r': int)
    requires InBounds(f, r) && InBounds(f', r')
    ensures ToSq(f, r) == ToSq(f', r') <==> f == f' && r == r'
  {
    if ToSq(f, r) == ToSq(f', r') {
      assert ToSq(f, r)[0] == ToSq(f', r')[0];
      assert ToSq(f, r)[1] == ToSq(f', r')[1];
    }
  }

  /** A name of a square of the board. */
  predicate OnBoard(t: string)
  {
    FromSq(t).Some? && InBounds(FromSq(t).value.0, FromSq(t).value.1) && ToSq(FromSq(t).value.0, FromSq(t).value.1) == t
  }

  /** The two diagonal squares one rank forward: up the board for White, down for Black. */
  function PawnOffsets(c: Color): seq<(int, int)>
  {
    var dir := if c == White then 1 else -1;
    [(-1, dir), (1, dir)]
  }

  const KnightOffsets: seq<(int, int)> := [(-2, -1), (-2, 1), (-1, -2), (-1, 2), (1, -2), (1, 2), (2, -1), (2, 1)]
  const KingOffsets: seq<(int, int)> := [(-1, -1), (-1, 0), (-1, 1), (0, -1), (0, 1), (1, -1), (1, 0), (1, 1)]
  const BishopDirections: seq<(int, int)> := [(-1, -1), (-1, 1), (1, -1), (1, 1)]
  const RookDirections: seq<(int, int)> := [(-1, 0), (1, 0), (0, -1), (0, 1)]

  /** A unit step along a file, a rank or a diagonal. */
  predicate IsDirection(d: (int, int))
  {
    -1 <= d.0 <= 1 && -1 <= d.1 <= 1 && d != (0, 0)
  }

  /** The diagonals for a bishop, the lines for a rook, both (diagonals first) for a queen. */
  function SlideDirections(k: Kind): (dirs: seq<(int, int)>)
    ensures forall i :: 0 <= i < |dirs| ==> IsDirection(dirs[i])
  {
    (if k == Bishop || k == Queen then BishopDirections else []) + (if k == Rook || k == Queen then RookDirections else [])
  }

  /** The squares a leaping piece on (f, r) reaches: each offset, in order, that stays on the board. */
  function Leaps(f: int, r: int, offsets: seq<(int, int)>): seq<string>
    decreases |offsets|
  {
    if |offsets| == 0 then []
    else
      var d := offsets[|offsets| - 1];
      Leaps(f, r, offsets[..|offsets| - 1]) + (if InBounds(f + d.0, r + d.1) then [ToSq(f + d.0, r + d.1)] else [])
  }

  /** How many more in-bounds steps direction `d` allows from (f, r). */
  function Room(f: int, r: int, d: (int, int)): int
  {
    (if d.0 > 0 then 8 - f else if d.0 < 0 then f + 1 else 0) + (if d.1 > 0 then 8 - r else if d.1 < 0 then r + 1 else 0)
  }

  /**
   * A sliding ray that enters at (f, r) and keeps stepping by `d`: each
   * square on the board, up to and including the first occupied one.
   */
  function Ray(pos: Position, f: int, r: int, d: (int, int)): seq<string>
    requires IsDirection(d)
    decreases Room(f, r, d)
  {
    if !InBounds(f, r) then []
    else if ToSq(f, r) in pos then [ToSq(f, r)]
    else [ToSq(f, r)] + Ray(pos, f + d.0, r + d.1, d)
  }

  /** The rays from (f, r) in each of `dirs`, one after another. */
  function Rays(pos: Position, f: int, r: int, dirs: seq<(int, int)>): seq<string>
    requires forall i :: 0 <= i < |dirs| ==> IsDirection(dirs[i])
    decreases |dirs|
  {
    if |dirs| == 0 then []
    else
      var d := dirs[|dirs| - 1];
      Rays(pos, f, r, dirs[..|dirs| - 1]) + Ray(pos, f + d.0, r + d.1, d)
  }

  /** Every square `piece` on `square` attacks in `pos`, in the order they are found. */
  function Attacks(pos: Position, square: string, piece: Piece): seq<string>
  {
    match FromSq(square)
    case None => []
    case Some((f, r)) =>
      match piece.kind
      case Pawn => Leaps(f, r, PawnOffsets(piece.color))
      case Knight => Leaps(f, r, KnightOffsets)
      case King => Leaps(f, r, KingOffsets)
      case _ => Rays(pos, f, r, SlideDirections(piece.kind))
  }

  /** The targets of one sliding ray, walking until the board's edge or the first occupied square. */
  method RayTargets(pos: Position, f: int, r: int, d: (int, int)) returns (res: seq<string>)
    requires IsDirection(d)
    ensures res == Ray(pos, f + d.0, r + d.1, d)
  {
    res := [];
    var nf, nr := f + d.0, r + d.1;
    while InBounds(nf, nr)
      invariant res + Ray(pos, nf, nr, d) == Ray(pos, f + d.0, r + d.1, d)
      decreases Room(nf, nr, d)
    {
      var target := ToSq(nf, nr);
      res := res + [target];
      if target in pos {
        return;
      }
      nf, nr := nf + d.0, nr + d.1;
    }
  }

  /** The in-bounds landing squares of a leaping piece, pushed one offset at a time. */
  method LeapTargets(f: int, r: int, offsets: seq<(int, int)>) returns (res: seq<string>)
    ensures res == Leaps(f, r, offsets)
  {
    res := [];
    for i := 0 to |offsets|
      invariant res == Leaps(f, r, offsets[..i])
    {
      assert offsets[..i + 1][..i] == offsets[..i];
      var nf, nr := f + offsets[i].0, r + offsets[i].1;
      if InBounds(nf, nr) {
        res := res + [ToSq(nf, nr)];
      }
    }
    assert offsets[..|offsets|] == offsets;
  }

  /** The attacked squares of `piece` on `square`, collected as the board's overlay does. */
  method EnumerateAttacksFor(pos: Position, square: string, piece: Piece) returns (res: seq<string>)
    ensures res == Attacks(pos, square, piece)
  {
    var coords := FromSq(square);
    if coords.None? {
      // NaN coordinates: no candidate square is ever in bounds.
      return [];
    }
    var (f, r) := coords.value;
    if piece.kind == Pawn {
      res := LeapTargets(f, r, PawnOffsets(piece.color));
      return;
    }
    if piece.kind == Knight {
      res := LeapTargets(f, r, KnightOffsets);
      return;
    }
    if piece.kind == King {
      res := LeapTargets(f, r, KingOffsets);
      return;
    }
    var dirs: seq<(int, int)> := [];
    if piece.kind == Bishop || piece.kind == Queen {
      dirs := dirs + BishopDirections;
    }
    if piece.kind == Rook || piece.kind == Queen {
      dirs := dirs + RookDirections;
    }
    assert dirs == SlideDirections(piece.kind);
    res := SlideTargets(pos, f, r, dirs);
  }

  /** The rays in each direction of `dirs`, walked one after another. */
  method SlideTargets(pos: Position, f: int, r: int, dirs: seq<(int, int)>) returns (res: seq<string>)
    requires forall i :: 0 <= i < |dirs| ==> IsDirection(dirs[i])
    ensures res == Rays(pos, f, r, dirs)
  {
    res := [];
    for i := 0 to |dirs|
      invariant res == Rays(pos, f, r, dirs[..i])
    {
      assert dirs[..i + 1][..i] == dirs[..i];
      var ray := RayTargets(pos, f, r, dirs[i]);
      res := res + ray;
    }
    assert dirs[..|dirs|] == dirs;
  }

  // ---- What the attack map promises ----

  /** A leaper reaches exactly the in-bounds offsets, at most one square per offset. */
  lemma {:induction false} LeapsExactly(f: int, r: int, offsets: seq<(int, int)>, t: string)
    ensures |Leaps(f, r, offsets)| <= |offsets|
    ensures t in Leaps(f, r, offsets) <==>
      exists i :: 0 <= i < |offsets| && InBounds(f + offsets[i].0, r + offsets[i].1) && t == ToSq(f + offsets[i].0, r + offsets[i].1)
    decreases |offsets|
  {
    if |offsets| > 0 {
      var init := offsets[..|offsets| - 1];
      LeapsExactly(f, r, init, t);
      assert forall i :: 0 <= i < |init| ==> init[i] == offsets[i];
      if t in Leaps(f, r, offsets) && t !in Leaps(f, r, init) {
        var i := |offsets| - 1;
        assert InBounds(f + offsets[i].0, r + offsets[i].1) && t == ToSq(f + offsets[i].0, r + offsets[i].1);
      }
    }
  }

  /** Every ray square is on the board. */
  lemma {:induction false} RayOnBoard(pos: Position, f: int, r: int, d: (int, int))
    requires IsDirection(d)
    ensures forall t :: t in Ray(pos, f, r, d) ==> OnBoard(t)
    decreases Room(f, r, d)
  {
    if InBounds(f, r) && ToSq(f, r) !in pos {
      RayOnBoard(pos, f + d.0, r + d.1, d);
    }
  }

  lemma {:induction false} RaysOnBoard(pos: Position, f: int, r: int, dirs: seq<(int, int)>)
    requires forall i :: 0 <= i < |dirs| ==> IsDirection(dirs[i])
    ensures forall t :: t in Rays(pos, f, r, dirs) ==> OnBoard(t)
    decreases |dirs|
  {
    if |dirs| > 0 {
      var d := dirs[|dirs| - 1];
      RaysOnBoard(pos, f, r, dirs[..|dirs| - 1]);
      RayOnBoard(pos, f + d.0, r + d.1, d);
    }
  }

  lemma {:induction false} LeapsOnBoard(f: int, r: int, offsets: seq<(int, int)>)
    ensures forall t :: t in Leaps(f, r, offsets) ==> OnBoard(t)
    decreases |offsets|
  {
    if |offsets| > 0 {
      LeapsOnBoard(f, r, offsets[..|offsets| - 1]);
    }
  }

  /** Every attacked square is a square of the board. */
  lemma AttacksOnBoard(pos: Position, square: string, piece: Piece)
    ensures forall t :: t in Attacks(pos, square, piece) ==> OnBoard(t)
  {
    match FromSq(square)
    case None =>
    case Some((f, r)) =>
      match piece.kind
      case Pawn => LeapsOnBoard(f, r, PawnOffsets(piece.color));
      case Knight => LeapsOnBoard(f, r, KnightOffsets);
      case King => LeapsOnBoard(f, r, KingOffsets);
      case _ => RaysOnBoard(pos, f, r, SlideDirections(piece.kind));
  }

  /**
   * A pawn attacks at most two squares, the in-bounds diagonal neighbours
   * one rank forward for its colour, whatever stands on them.
   */
  lemma PawnAttacks(pos: Position, pos': Position, f: int, r: int, c: Color, t: string)
    requires InBounds(f, r)
    ensures var dir := if c == White then 1 else -1;
      var a := Attacks(pos, ToSq(f, r), Piece(c, Pawn));
      |a| <= 2 &&
      a == Attacks(pos', ToSq(f, r), Piece(c, Pawn)) &&
      (t in a <==> (InBounds(f - 1, r + dir) && t == ToSq(f - 1, r + dir)) || (InBounds(f + 1, r + dir) && t == ToSq(f + 1, r + dir)))
  {
    FromToSq(f, r);
    var offs := PawnOffsets(c);
    LeapsExactly(f, r, offs, t);
  }

  /** A knight attacks at most eight squares, exactly its in-bounds offsets, whatever stands on them. */
  lemma KnightAttacks(pos: Position, pos': Position, f: int, r: int, c: Color, t: string)
    requires InBounds(f, r)
    ensures var a := Attacks(pos, ToSq(f, r), Piece(c, Knight));
      |a| <= 8 &&
      a == Attacks(pos', ToSq(f, r), Piece(c, Knight)) &&
      (t in a <==> exists i :: 0 <= i < 8 && InBounds(f + KnightOffsets[i].0, r + KnightOffsets[i].1) && t == ToSq(f + KnightOffsets[i].0, r + KnightOffsets[i].1))
  {
    FromToSq(f, r);
    LeapsExactly(f, r, KnightOffsets, t);
  }

  /** A king attacks at most eight squares, exactly its in-bounds neighbours, whatever stands on them. */
  lemma KingAttacks(pos: Position, pos': Position, f: int, r: int, c: Color, t: string)
    requires InBounds(f, r)
    ensures var a := Attacks(pos, ToSq(f, r), Piece(c, King));
      |a| <= 8 &&
      a == Attacks(pos', ToSq(f, r), Piece(c, King)) &&
      (t in a <==> exists i :: 0 <= i < 8 && InBounds(f + KingOffsets[i].0, r + KingOffsets[i].1) && t == ToSq(f + KingOffsets[i].0, r + KingOffsets[i].1))
  {
    FromToSq(f, r);
    LeapsExactly(f, r, KingOffsets, t);
  }

  /** Square `b` is one step along `d` from square `a`. */
  predicate StepsTo(a: string, d: (int, int), b: string)
  {
    FromSq(a).Some? && FromSq(b) == Some((FromSq(a).value.0 + d.0, FromSq(a).value.1 + d.1))
  }

  /** Each square of `s` after the first is one step along `d` from the one before. */
  predicate Consecutive(s: seq<string>, d: (int, int))
  {
    forall i :: 0 <= i < |s| - 1 ==> StepsTo(s[i], d, s[i + 1])
  }

  /** A ray starts at the square it enters at and each next square is one step further along. */
  lemma {:induction false} RayPath(pos: Position, f: int, r: int, d: (int, int))
    requires IsDirection(d)
    ensures |Ray(pos, f, r, d)| > 0 ==> InBounds(f, r) && Ray(pos, f, r, d)[0] == ToSq(f, r)
    ensures Consecutive(Ray(pos, f, r, d), d)
    decreases Room(f, r, d)
  {
    if InBounds(f, r) && ToSq(f, r) !in pos {
      var f', r' := f + d.0, r + d.1;
      RayPath(pos, f', r', d);
      var s := Ray(pos, f, r, d);
      var rest := Ray(pos, f', r', d);
      assert s == [ToSq(f, r)] + rest;
      if |rest| > 0 {
        FromToSq(f, r);
        FromToSq(f', r');
      }
      ConsecutiveCons(ToSq(f, r), rest, d);
    }
  }

  lemma ConsecutiveCons(a: string, s: seq<string>, d: (int, int))
    requires |s| > 0 ==> StepsTo(a, d, s[0])
    requires Consecutive(s, d)
    ensures Consecutive([a] + s, d)
  {
    var t := [a] + s;
    forall i | 0 <= i < |t| - 1
      ensures StepsTo(t[i], d, t[i + 1])
    {
      if i > 0 {
        assert t[i] == s[i - 1] && t[i + 1] == s[i];
      }
    }
  }

  /** Every square of `s` but the last is empty in `pos`. */
  predicate EmptyBeforeLast(pos: Position, s: seq<string>)
  {
    forall i :: 0 <= i < |s| - 1 ==> s[i] !in pos
  }

  /** A ray passes only over empty squares: every square but its last is unoccupied. */
  lemma {:induction false} RayPassesEmpty(pos: Position, f: int, r: int, d: (int, int))
    requires IsDirection(d)
    ensures EmptyBeforeLast(pos, Ray(pos, f, r, d))
    decreases Room(f, r, d)
  {
    if InBounds(f, r) && ToSq(f, r) !in pos {
      RayPassesEmpty(pos, f + d.0, r + d.1, d);
      var s := Ray(pos, f, r, d);
      var rest := Ray(pos, f + d.0, r + d.1, d);
      assert s == [ToSq(f, r)] + rest;
      forall i | 1 <= i < |s| - 1
        ensures s[i] !in pos
      {
        assert s[i] == rest[i - 1];
      }
    }
  }

  /** The last square of `s` is occupied, or the next step along `d` from it leaves the board. */
  predicate Stops(pos: Position, s: seq<string>, d: (int, int))
    requires |s| > 0
  {
    var last := s[|s| - 1];
    FromSq(last).Some? && (last in pos || !InBounds(FromSq(last).value.0 + d.0, FromSq(last).value.1 + d.1))
  }

  /** A ray ends on an occupied square or where the next step would leave the board; it is empty only when it enters off the board. */
  lemma {:induction false} RayEnds(pos: Position, f: int, r: int, d: (int, int))
    requires IsDirection(d)
    ensures |Ray(pos, f, r, d)| == 0 <==> !InBounds(f, r)
    ensures |Ray(pos, f, r, d)| > 0 ==> Stops(pos, Ray(pos, f, r, d), d)
    decreases Room(f, r, d)
  {
    if InBounds(f, r) {
      FromToSq(f, r);
      var s := Ray(pos, f, r, d);
      if ToSq(f, r) !in pos {
        var rest := Ray(pos, f + d.0, r + d.1, d);
        RayEnds(pos, f + d.0, r + d.1, d);
        assert s == [ToSq(f, r)] + rest;
        if |rest| > 0 {
          assert s[|s| - 1] == rest[|rest| - 1];
        }
      }
    }
  }

  lemma {:induction false} RaysAppend(pos: Position, f: int, r: int, a: seq<(int, int)>, b: seq<(int, int)>)
    requires forall i :: 0 <= i < |a| ==> IsDirection(a[i])
    requires forall i :: 0 <= i < |b| ==> IsDirection(b[i])
    ensures forall i :: 0 <= i < |a + b| ==> IsDirection((a + b)[i])
    ensures Rays(pos, f, r, a + b) == Rays(pos, f, r, a) + Rays(pos, f, r, b)
    decreases |b|
  {
    if |b| > 0 {
      var d := b[|b| - 1];
      var b' := b[..|b| - 1];
      assert (a + b)[|a + b| - 1] == d;
      assert (a + b)[..|a + b| - 1] == a + b';
      RaysAppend(pos, f, r, a, b');
      var last := Ray(pos, f + d.0, r + d.1, d);
      assert Rays(pos, f, r, a + b) == Rays(pos, f, r, a + b') + last;
      assert Rays(pos, f, r, b) == Rays(pos, f, r, b') + last;
    } else {
      assert a + b == a;
    }
  }

  /** A queen attacks what a bishop on its square attacks, followed by what a rook there attacks. */
  lemma QueenIsBishopThenRook(pos: Position, square: string, c: Color)
    ensures Attacks(pos, square, Piece(c, Queen)) == Attacks(pos, square, Piece(c, Bishop)) + Attacks(pos, square, Piece(c, Rook))
  {
    if FromSq(square).Some? {
      var (f, r) := FromSq(square).value;
      assert SlideDirections(Queen) == BishopDirections + RookDirections;
      assert SlideDirections(Bishop) == BishopDirections;
      assert SlideDirections(Rook) == RookDirections;
      RaysAppend(pos, f, r, BishopDirections, RookDirections);
    }
  }
}
