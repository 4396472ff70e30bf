/**
 * The heat-map overlay drawn over the board: 64 cells laid out from the
 * viewer's side, each tinted by how strongly the chosen side controls its
 * square, and the buttons and keys that choose what is shown.
 */
module Overlay {
  import opened Wrappers
  import opened Board
  import Control

  /** What the overlay shows: the opponent's control, my control, or nothing ('none'). */
  datatype Mode = Opp | Mine | NoOverlay

  /** A mode that shows something: what `lastMode` remembers. */
  type ShownMode = m: Mode | m != NoOverlay witness Opp

  function Opposite(c: Color): Color
  {
    if c == White then Black else White
  }

  /**
   * The overlay cell that square (f, r) is drawn in, `row * 8 + col`:
   * from White's side file a is on the left and rank 8 on top, from
   * Black's side the other way round.
   */
  function ViewCell(whiteView: bool, f: int, r: int): (i: int)
    ensures InBounds(f, r) ==> 0 <= i < 64
  {
    var col := if whiteView then f else 7 - f;
    var row := if whiteView then 7 - r else r;
    row * 8 + col
  }

  /** The square drawn in overlay cell `i`. */
  function ViewSquare(whiteView: bool, i: int): (int, int)
  {
    var row, col := i / 8, i % 8;
    if whiteView then (col, 7 - row) else (7 - col, row)
  }

  /** Every square is drawn in a cell of the overlay, and the cell tells which square it is. */
  lemma ViewCellRoundTrip(whiteView: bool, f: int, r: int)
    requires InBounds(f, r)
    ensures 0 <= ViewCell(whiteView, f, r) < 64
    ensures ViewSquare(whiteView, ViewCell(whiteView, f, r)) == (f, r)
  {
    var col := if whiteView then f else 7 - f;
    var row := if whiteView then 7 - r else r;
    assert (row * 8 + col) / 8 == row && (row * 8 + col) % 8 == col;
  }

  /** Every cell of the overlay shows some square, so the layout is a bijection of the 64 squares onto the 64 cells. */
  lemma ViewSquareRoundTrip(whiteView: bool, i: int)
    requires 0 <= i < 64
    ensures InBounds(ViewSquare(whiteView, i).0, ViewSquare(whiteView, i).1)
    ensures ViewCell(whiteView, ViewSquare(whiteView, i).0, ViewSquare(whiteView, i).1) == i
  {
  }

  /** Black's view is White's turned through half a circle. */
  lemma ViewsAreRotated(f: int, r: int)
    ensures ViewCell(true, f, r) + ViewCell(false, f, r) == 63
  {
  }

  /** How a cell is drawn: hidden, or tinted with a class and an opacity. */
  datatype CellStyle = Hidden | Heat(className: string, alpha: real)

  /** The opacity for a count: linear in the count up to six, capped at 0.7. */
  function Alpha(v: int): real
  {
    var x := v as real / 6.0;
    if x < 0.7 then x else 0.7
  }

  /** How the cell of a square is drawn, given the square's White and Black control counts. */
  function CellFor(mode: Mode, myColor: Color, wv: int, bv: int): CellStyle
  {
    var mineV := if myColor == White then wv else bv;
    var oppV := if Opposite(myColor) == White then wv else bv;
    var (alpha, className) :=
      if mode == Mine && mineV > 0 then (Alpha(mineV), "heat-blue")
      else if mode == Opp && oppV > 0 then (Alpha(oppV), "heat")
      else (0.0, "");
    if alpha > 0.0 then Heat(className, alpha) else Hidden
  }

  /**
   * A cell is tinted exactly when the side the mode picks controls its
   * square at least once: blue for my side, red for the opponent's, with an
   * opacity in (0, 0.7] that grows with the count and is full from five on.
   */
  lemma CellShowsControl(mode: Mode, myColor: Color, wv: int, bv: int)
    ensures var v := if (mode == Mine) == (myColor == White) then wv else bv;
      var c := CellFor(mode, myColor, wv, bv);
      (c.Heat? <==> mode != NoOverlay && v > 0) &&
      (c.Heat? ==> c.className == (if mode == Mine then "heat-blue" else "heat") && 0.0 < c.alpha <= 0.7) &&
      (c.Heat? && v >= 5 ==> c.alpha == 0.7) &&
      (c.Heat? && v <= 4 ==> c.alpha == v as real / 6.0)
  {
  }

  /** In mode 'none' every cell is hidden. */
  lemma NothingWhenNone(myColor: Color, wv: int, bv: int)
    ensures CellFor(NoOverlay, myColor, wv, bv) == Hidden
  {
  }

  /** More control never gives a fainter cell. */
  lemma AlphaMonotone(v: int, w: int)
    requires v <= w
    ensures Alpha(v) <= Alpha(w)
  {
  }

  /** The state the handlers share: the mode shown, the last mode that showed something, and my side. */
  datatype ViewState = ViewState(current: Mode, last: ShownMode, side: Color)

  /** The buttons and keys. */
  datatype Action = Toggle | ShowOpponent | ShowMine | Hide | SwitchSide

  /** What each button (and each hotkey) does to the shared state. */
  function Step(s: ViewState, a: Action): ViewState
  {
    match a
    case Toggle => s.(current := if s.current == NoOverlay then s.last else NoOverlay)
    case ShowOpponent => s.(current := Opp, last := Opp)
    case ShowMine => s.(current := Mine, last := Mine)
    case Hide => s.(current := NoOverlay)
    case SwitchSide => s.(side := Opposite(s.side))
  }

  /** The hotkey bound to `key`, in either case: A toggles, O shows the opponent, M shows mine, H hides. */
  function KeyAction(key: string): Option<Action>
  {
    if key == "a" || key == "A" then Some(Toggle)
    else if key == "o" || key == "O" then Some(ShowOpponent)
    else if key == "m" || key == "M" then Some(ShowMine)
    else if key == "h" || key == "H" then Some(Hide)
    else None
  }

  /** The overlay shows nothing or exactly the last mode chosen. */
  predicate Remembers(s: ViewState)
  {
    s.current == NoOverlay || s.current == s.last
  }

  /** Every action keeps the overlay showing nothing or the last mode chosen. */
  lemma StepRemembers(s: ViewState, a: Action)
    requires Remembers(s)
    ensures Remembers(Step(s, a))
  {
  }

  /** Toggling twice changes nothing, and a toggle shows something exactly when nothing was shown. */
  lemma ToggleTwice(s: ViewState)
    requires Remembers(s)
    ensures Step(Step(s, Toggle), Toggle) == s
    ensures (Step(s, Toggle).current == NoOverlay) <==> s.current != NoOverlay
  {
  }

  /** After hiding, a toggle brings back the last mode chosen, whatever it was. */
  lemma ToggleAfterHide(s: ViewState)
    ensures Step(Step(s, Hide), Toggle) == s.(current := s.last)
  {
  }

  /** Switching sides twice changes nothing, and never changes the mode. */
  lemma SwitchSideTwice(s: ViewState)
    ensures Step(Step(s, SwitchSide), SwitchSide) == s
    ensures Step(s, SwitchSide).current == s.current && Step(s, SwitchSide).last == s.last
  {
  }

  /** The hotkeys do what their buttons do, letter case aside; any other key does nothing. */
  lemma HotkeysAreCaseBlind(key: char)
    ensures KeyAction([key]).Some? <==> key in "aAoOmMhH"
    ensures key == 'a' || key == 'A' ==> KeyAction([key]) == Some(Toggle)
    ensures key == 'h' || key == 'H' ==> KeyAction([key]) == Some(Hide)
  {
  }

  /** The overlay of 64 cells and the state the handlers share. */
  class OverlayView {
    var cells: array<CellStyle>
    var currentMode: Mode
    var lastMode: ShownMode
    var myColor: Color

    function State(): ViewState
      reads this
    {
      ViewState(currentMode, lastMode, myColor)
    }

    ghost predicate Valid()
      reads this
    {
      cells.Length == 64 && Remembers(State())
    }

    /** Each square's cell, seen from my side, is drawn as the current mode and the position's control ask. */
    ghost predicate Shows(pos: Position)
      requires cells.Length == 64
      reads this, cells
    {
      forall f, r :: InBounds(f, r) ==>
        cells[ViewCell(myColor == White, f, r)] == CellFor(currentMode, myColor, Control.Count(pos, White, f, r), Control.Count(pos, Black, f, r))
    }

    /** The page's start: White's side, the opponent's control shown, the overlay drawn for `pos`. */
    constructor(pos: Position)
      ensures Valid() && Shows(pos)
      ensures State() == ViewState(Opp, Opp, White)
    {
      cells := new CellStyle[64](_ => Hidden);
      currentMode := Opp;
      lastMode := Opp;
      myColor := White;
      new;
      Refresh(Opp, pos);
    }

    /** Shows `mode` for `pos`: hides every cell for 'none', otherwise draws each square's control. */
    method Refresh(mode: Mode, pos: Position)
      requires cells.Length == 64
      modifies this, cells
      ensures cells == old(cells) && lastMode == old(lastMode) && myColor == old(myColor)
      ensures currentMode == mode && Shows(pos)
    {
      currentMode := mode;
      if mode == NoOverlay {
        HideAll(pos);
        return;
      }
      DrawControl(pos);
    }

    /** 'none': every cell hidden. */
    method HideAll(pos: Position)
      requires cells.Length == 64 && currentMode == NoOverlay
      modifies cells
      ensures forall i :: 0 <= i < 64 ==> cells[i] == Hidden
      ensures Shows(pos)
    {
      for i := 0 to 64
        invariant forall j :: 0 <= j < i ==> cells[j] == Hidden
      {
        cells[i] := Hidden;
      }
      forall f, r | InBounds(f, r)
        ensures cells[ViewCell(myColor == White, f, r)] == CellFor(currentMode, myColor, Control.Count(pos, White, f, r), Control.Count(pos, Black, f, r))
      {
        NothingWhenNone(myColor, Control.Count(pos, White, f, r), Control.Count(pos, Black, f, r));
      }
    }

    /** Any other mode: the position's control tables, drawn cell by cell. */
    method DrawControl(pos: Position)
      requires cells.Length == 64
      modifies cells
      ensures Shows(pos)
    {
      var white, black := Control.ComputeControl(pos);
      DrawAll(currentMode, white, black);
      forall f, r | InBounds(f, r)
        ensures cells[ViewCell(myColor == White, f, r)] == CellFor(currentMode, myColor, Control.Count(pos, White, f, r), Control.Count(pos, Black, f, r))
      {
        assert white[r, f] == Control.Count(pos, White, f, r) && black[r, f] == Control.Count(pos, Black, f, r);
      }
    }

    /** Squares (f', r') visited before (f, r) in the drawing loop, ranks outer and files inner, are drawn from the tables. */
    ghost predicate DrawnBefore(mode: Mode, white: array2<int>, black: array2<int>, f: int, r: int)
      requires cells.Length == 64
      requires white.Length0 == 8 && white.Length1 == 8 && black.Length0 == 8 && black.Length1 == 8
      reads this, cells, white, black
    {
      forall f', r' :: InBounds(f', r') && (r' < r || (r' == r && f' < f)) ==>
        cells[ViewCell(myColor == White, f', r')] == CellFor(mode, myColor, white[r', f'], black[r', f'])
    }

    /** Draws every square from the control tables, each in its cell as seen from my side. */
    method DrawAll(mode: Mode, white: array2<int>, black: array2<int>)
      requires cells.Length == 64
      requires white.Length0 == 8 && white.Length1 == 8 && black.Length0 == 8 && black.Length1 == 8
      modifies cells
      ensures DrawnBefore(mode, white, black, 0, 8)
    {
      var whiteView := myColor == White;
      for r := 0 to 8
        invariant DrawnBefore(mode, white, black, 0, r)
      {
        for f := 0 to 8
          invariant DrawnBefore(mode, white, black, f, r)
        {
          DrawCell(whiteView, f, r, CellFor(mode, myColor, white[r, f], black[r, f]));
        }
      }
    }

    /** Draws the cell of square (f, r), leaving every other square's cell as it was. */
    method DrawCell(whiteView: bool, f: int, r: int, style: CellStyle)
      requires cells.Length == 64 && InBounds(f, r)
      modifies cells
      ensures cells[ViewCell(whiteView, f, r)] == style
      ensures forall f', r' :: InBounds(f', r') && (f', r') != (f, r) ==>
        cells[ViewCell(whiteView, f', r')] == old(cells[ViewCell(whiteView, f', r')])
    {
      ViewCellRoundTrip(whiteView, f, r);
      cells[ViewCell(whiteView, f, r)] := style;
      forall f', r' | InBounds(f', r') && (f', r') != (f, r)
        ensures cells[ViewCell(whiteView, f', r')] == old(cells[ViewCell(whiteView, f', r')])
      {
        ViewCellRoundTrip(whiteView, f', r');
      }
    }

    /** The Show/Hide button and the A key. */
    method ToggleOverlay(pos: Position)
      requires Valid()
      modifies this, cells
      ensures Valid() && Shows(pos) && State() == Step(old(State()), Toggle)
    {
      var next := if currentMode == NoOverlay then lastMode else NoOverlay;
      Refresh(next, pos);
    }

    /** The Opponent button and the O key. */
    method ShowOpponentControl(pos: Position)
      requires Valid()
      modifies this, cells
      ensures Valid() && Shows(pos) && State() == Step(old(State()), ShowOpponent)
    {
      lastMode := Opp;
      Refresh(Opp, pos);
    }

    /** The Mine button and the M key. */
    method ShowMyControl(pos: Position)
      requires Valid()
      modifies this, cells
      ensures Valid() && Shows(pos) && State() == Step(old(State()), ShowMine)
    {
      lastMode := Mine;
      Refresh(Mine, pos);
    }

    /** The Hide button and the H key. */
    method HideOverlay(pos: Position)
      requires Valid()
      modifies this, cells
      ensures Valid() && Shows(pos) && State() == Step(old(State()), Hide)
    {
      Refresh(NoOverlay, pos);
    }

    /** The switch-side button: the other colour becomes mine and the board is seen from its side. */
    method SwitchMySide(pos: Position)
      requires Valid()
      modifies this, cells
      ensures Valid() && Shows(pos) && State() == Step(old(State()), SwitchSide)
    {
      myColor := if myColor == White then Black else White;
      Refresh(currentMode, pos);
    }

    /** The hotkeys; a key without a binding leaves everything as it was. */
    method KeyDown(key: string, pos: Position)
      requires Valid() && Shows(pos)
      modifies this, cells
      ensures Valid() && Shows(pos)
      ensures KeyAction(key).Some? ==> State() == Step(old(State()), KeyAction(key).value)
      ensures KeyAction(key).None? ==> State() == old(State()) && cells[..] == old(cells[..])
    {
      if key == "a" || key == "A" {
        ToggleOverlay(pos);
      } else if key == "o" || key == "O" {
        ShowOpponentControl(pos);
      } else if key == "m" || key == "M" {
        ShowMyControl(pos);
      } else if key == "h" || key == "H" {
        HideOverlay(pos);
      }
    }
  }
}
