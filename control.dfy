/**
 * The control counts behind the heat-map overlay: for each colour, an
 * 8×8 table (rank by file) of how many of that colour's pieces attack
 * each square.
 */
module Control {
  import opened Board

  /** For each square, the attack list of the piece on it when it is `c`'s; nothing for an empty square or the other colour. */
  function AttacksBy(pos: Position, c: Color): string -> seq<string>
  {
    sq => if sq in pos && pos[sq].color == c then Attacks(pos, sq, pos[sq]) else []
  }

  /**
   * The lists of the squares visited before (f, r), in visiting order:
   * every square of the files before `f`, then ranks 1 to `r` of file `f`.
   */
  function Visited(lists: string -> seq<string>, f: int, r: int): seq<string>
    requires 0 <= f <= 8 && 0 <= r <= 8 && (f == 8 ==> r == 0)
    decreases f, r
  {
    if r == 0 then (if f == 0 then [] else Visited(lists, f - 1, 8))
    else Visited(lists, f, r - 1) + lists(ToSq(f, r - 1))
  }

  /** How many times square (f, r) occurs in the attack lists of `c`'s pieces. */
  function Count(pos: Position, c: Color, f: int, r: int): nat
    requires InBounds(f, r)
  {
    multiset(Visited(AttacksBy(pos, c), 8, 0))[ToSq(f, r)]
  }

  /** Each cell of `grid` holds the number of times its square occurs in `s`. */
  predicate Tallies(grid: array2<int>, s: seq<string>)
    requires grid.Length0 == 8 && grid.Length1 == 8
    reads grid
  {
    forall y, x :: 0 <= y < 8 && 0 <= x < 8 ==> grid[y, x] == multiset(s)[ToSq(x, y)]
  }

  /** Adds one to the cell of each attacked square, as often as it is listed. */
  method Tally(grid: array2<int>, attacks: seq<string>, ghost seen: seq<string>)
    requires grid.Length0 == 8 && grid.Length1 == 8
    requires forall t :: t in attacks ==> OnBoard(t)
    requires Tallies(grid, seen)
    modifies grid
    ensures Tallies(grid, seen + attacks)
  {
    for j := 0 to |attacks|
      invariant Tallies(grid, seen + attacks[..j])
    {
      var t := attacks[j];
      assert t in attacks;
      var (tf, tr) := FromSq(t).value;
      ghost var before := seen + attacks[..j];
      assert seen + attacks[..j + 1] == before + [t];
      grid[tr, tf] := grid[tr, tf] + 1;
      forall y, x | 0 <= y < 8 && 0 <= x < 8
        ensures grid[y, x] == multiset(before + [t])[ToSq(x, y)]
      {
        ToSqInjective(x, y, tf, tr);
      }
    }
    assert attacks[..|attacks|] == attacks;
  }

  /** Both colours' control tables for the position. */
  method ComputeControl(pos: Position) returns (white: array2<int>, black: array2<int>)
    ensures fresh(white) && fresh(black)
    ensures white.Length0 == 8 && white.Length1 == 8 && black.Length0 == 8 && black.Length1 == 8
    ensures forall r, f :: 0 <= r < 8 && 0 <= f < 8 ==> white[r, f] == Count(pos, White, f, r) && black[r, f] == Count(pos, Black, f, r)
  {
    white := new int[8, 8]((_, _) => 0);
    black := new int[8, 8]((_, _) => 0);
    for f := 0 to 8
      invariant Tallies(white, Visited(AttacksBy(pos, White), f, 0)) && Tallies(black, Visited(AttacksBy(pos, Black), f, 0))
    {
      VisitFile(pos, white, black, f);
    }
    forall r, f | 0 <= r < 8 && 0 <= f < 8
      ensures white[r, f] == Count(pos, White, f, r) && black[r, f] == Count(pos, Black, f, r)
    {
    }
  }

  /** The inner loop: ranks 1 to 8 of file `f`. */
  method VisitFile(pos: Position, white: array2<int>, black: array2<int>, f: int)
    requires 0 <= f < 8 && white != black
    requires white.Length0 == 8 && white.Length1 == 8 && black.Length0 == 8 && black.Length1 == 8
    requires Tallies(white, Visited(AttacksBy(pos, White), f, 0)) && Tallies(black, Visited(AttacksBy(pos, Black), f, 0))
    modifies white, black
    ensures Tallies(white, Visited(AttacksBy(pos, White), f + 1, 0)) && Tallies(black, Visited(AttacksBy(pos, Black), f + 1, 0))
  {
    for r := 0 to 8
      invariant Tallies(white, Visited(AttacksBy(pos, White), f, r)) && Tallies(black, Visited(AttacksBy(pos, Black), f, r))
    {
      VisitSquare(pos, white, black, f, r);
    }
  }

  /** One step of the visit: the piece on (f, r), if any, adds its attacks to its colour's table. */
  method VisitSquare(pos: Position, white: array2<int>, black: array2<int>, f: int, r: int)
    requires InBounds(f, r) && white != black
    requires white.Length0 == 8 && white.Length1 == 8 && black.Length0 == 8 && black.Length1 == 8
    requires Tallies(white, Visited(AttacksBy(pos, White), f, r)) && Tallies(black, Visited(AttacksBy(pos, Black), f, r))
    modifies white, black
    ensures Tallies(white, Visited(AttacksBy(pos, White), f, r + 1)) && Tallies(black, Visited(AttacksBy(pos, Black), f, r + 1))
  {
    ghost var byWhite, byBlack := AttacksBy(pos, White), AttacksBy(pos, Black);
    var sq := ToSq(f, r);
    ghost var seenWhite := Visited(byWhite, f, r);
    ghost var seenBlack := Visited(byBlack, f, r);
    if sq !in pos {
      assert byWhite(sq) == [] && byBlack(sq) == [];
      assert seenWhite + [] == seenWhite && seenBlack + [] == seenBlack;
      return;
    }
    var piece := pos[sq];
    var attacks := EnumerateAttacksFor(pos, sq, piece);
    AttacksOnBoard(pos, sq, piece);
    if piece.color == White {
      Tally(white, attacks, seenWhite);
      assert byWhite(sq) == attacks && byBlack(sq) == [];
      assert seenBlack + [] == seenBlack;
    } else {
      Tally(black, attacks, seenBlack);
      assert byBlack(sq) == attacks && byWhite(sq) == [];
      assert seenWhite + [] == seenWhite;
    }
  }

  /** A square is in the lists visited before (f, r) exactly when one of those lists contains it. */
  lemma {:induction false} VisitedHas(lists: string -> seq<string>, f: int, r: int, t: string)
    requires 0 <= f <= 8 && 0 <= r <= 8 && (f == 8 ==> r == 0)
    ensures t in Visited(lists, f, r) <==>
      exists f', r' :: InBounds(f', r') && (f' < f || (f' == f && r' < r)) && t in lists(ToSq(f', r'))
    decreases f, r
  {
    if r == 0 && f > 0 {
      VisitedHas(lists, f - 1, 8, t);
    } else if r > 0 {
      VisitedHas(lists, f, r - 1, t);
      if t in lists(ToSq(f, r - 1)) {
        assert InBounds(f, r - 1) && (f < f || (f == f && r - 1 < r)) && t in lists(ToSq(f, r - 1));
      }
      if exists f', r' :: InBounds(f', r') && (f' < f || (f' == f && r' < r)) && t in lists(ToSq(f', r')) {
        var f', r' :| InBounds(f', r') && (f' < f || (f' == f && r' < r)) && t in lists(ToSq(f', r'));
        if f' == f && r' == r - 1 {
          assert t in lists(ToSq(f, r - 1));
        }
      }
    }
  }

  /**
   * A square's count is positive exactly when some piece of that colour,
   * on some square of the board, attacks it.
   */
  lemma Controlled(pos: Position, c: Color, f: int, r: int)
    requires InBounds(f, r)
    ensures Count(pos, c, f, r) > 0 <==>
      exists f', r' :: InBounds(f', r') && ToSq(f', r') in pos && pos[ToSq(f', r')].color == c &&
        ToSq(f, r) in Attacks(pos, ToSq(f', r'), pos[ToSq(f', r')])
  {
    var t, lists := ToSq(f, r), AttacksBy(pos, c);
    VisitedHas(lists, 8, 0, t);
    if Count(pos, c, f, r) > 0 {
      assert t in Visited(lists, 8, 0);
      var f', r' :| InBounds(f', r') && (f' < 8 || (f' == 8 && r' < 0)) && t in lists(ToSq(f', r'));
      assert ToSq(f', r') in pos && pos[ToSq(f', r')].color == c && t in Attacks(pos, ToSq(f', r'), pos[ToSq(f', r')]);
    }
    if exists f', r' :: InBounds(f', r') && ToSq(f', r') in pos && pos[ToSq(f', r')].color == c &&
        t in Attacks(pos, ToSq(f', r'), pos[ToSq(f', r')]) {
      var f', r' :| InBounds(f', r') && ToSq(f', r') in pos && pos[ToSq(f', r')].color == c &&
        t in Attacks(pos, ToSq(f', r'), pos[ToSq(f', r')]);
      assert t in lists(ToSq(f', r'));
    }
  }
}
