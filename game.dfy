/**
 * The per-frame rule of the main loop in src/main.rs: find the first empty
 * cell under the pointer (`find_map` over `board.iter()`), and mark it when
 * the left button was pressed this frame.  The pointer test
 * `check_collision_point_rec` is the caller-supplied predicate `contains`.
 *
 * The game invariant kept by every frame: the turn counter equals the number
 * of marked cells, and there are as many X marks as O marks or one more.
 */
module MainLoop {
  import opened TicTacToe

  /** The `find_map` test: the pointer is inside the cell and the cell is empty. */
  predicate Selectable(e: Entry, contains: Cell -> bool)
  {
    contains(e.0) && e.1 == None
  }

  /** The hovered cell: the first entry, in enumeration order, that is selectable. */
  function Hovered(es: seq<Entry>, contains: Cell -> bool): (h: Option<Cell>)
    ensures h == None <==> forall i :: 0 <= i < |es| ==> !Selectable(es[i], contains)
    ensures h.Some? ==> exists i :: 0 <= i < |es| && es[i].0 == h.value && Selectable(es[i], contains) && forall j :: 0 <= j < i ==> !Selectable(es[j], contains)
  {
    if es == [] then None
    else if Selectable(es[0], contains) then Some(es[0].0)
    else
      var h := Hovered(es[1..], contains);
      assert forall i :: 1 <= i < |es| ==> es[i] == es[1..][i - 1];
      h
  }

  /** Number of entries whose state is `s`. */
  function Count(es: seq<Entry>, s: Option<TileState>): (n: nat)
    ensures n <= |es|
  {
    if es == [] then 0 else (if es[0].1 == s then 1 else 0) + Count(es[1..], s)
  }

  /** Number of marked cells among the entries. */
  function Marked(es: seq<Entry>): nat
  {
    Count(es, Some(X)) + Count(es, Some(O))
  }

  /** The game invariant relating the turn counter to the cells. */
  predicate Consistent(es: seq<Entry>, turn: int)
  {
    && turn == Marked(es)
    && (Count(es, Some(X)) == Count(es, Some(O)) || Count(es, Some(X)) == Count(es, Some(O)) + 1)
  }

  /** Every entry is empty, marked X or marked O. */
  lemma {:induction false} CountPartition(es: seq<Entry>)
    ensures Count(es, None) + Marked(es) == |es|
  {
    if es != [] {
      CountPartition(es[1..]);
      match es[0].1
      case None =>
      case Some(t) => assert t == X || t == O;
    }
  }

  /** No entry has state `s` exactly when `s` is counted zero times. */
  lemma {:induction false} CountZero(es: seq<Entry>, s: Option<TileState>)
    ensures Count(es, s) == 0 <==> forall i :: 0 <= i < |es| ==> es[i].1 != s
  {
    if es != [] {
      CountZero(es[1..], s);
      assert forall i :: 1 <= i < |es| ==> es[i] == es[1..][i - 1];
    }
  }

  /** Replacing one entry changes a count only by what left and what arrived. */
  lemma {:induction false} CountUpdate(es: seq<Entry>, k: nat, e: Entry, s: Option<TileState>)
    requires k < |es|
    ensures Count(es[k := e], s) == Count(es, s) - (if es[k].1 == s then 1 else 0) + (if e.1 == s then 1 else 0)
  {
    if k > 0 {
      CountUpdate(es[1..], k - 1, e, s);
      assert es[k := e][1..] == es[1..][k - 1 := e];
    } else {
      assert es[k := e][1..] == es[1..];
    }
  }

  /** A fresh board, all cells empty, satisfies the invariant at turn 0. */
  lemma EmptyConsistent(es: seq<Entry>)
    requires forall i :: 0 <= i < |es| ==> es[i].1 == None
    ensures Consistent(es, 0)
  {
    CountZero(es, Some(X));
    CountZero(es, Some(O));
  }

  /** The invariant bounds the turn by the number of cells. */
  lemma TurnBounded(es: seq<Entry>, turn: int)
    requires Consistent(es, turn)
    ensures 0 <= turn <= |es|
  {
    CountPartition(es);
  }

  /** Once every cell holds a mark, the pointer selects nothing. */
  lemma FullBoardHoversNothing(es: seq<Entry>, turn: int, contains: Cell -> bool)
    requires Consistent(es, turn) && turn == |es|
    ensures Hovered(es, contains) == None
  {
    CountPartition(es);
    CountZero(es, None);
  }

  /** Marking an empty entry with the mark of the current turn keeps the invariant at the next turn. */
  lemma MarkKeepsConsistent(es: seq<Entry>, turn: int, k: nat)
    requires Consistent(es, turn)
    requires k < |es| && es[k].1 == None
    ensures Consistent(es[k := (es[k].0, Some(NextMark(turn)))], turn + 1)
  {
    var e := (es[k].0, Some(NextMark(turn)));
    CountUpdate(es, k, e, Some(X));
    CountUpdate(es, k, e, Some(O));
  }

  /** What the main loop reads in one frame: the pointer test for each cell and whether the left button went down. */
  datatype Input = Input(contains: Cell -> bool, clicked: bool)

  /** The entries are the nine cells in enumeration order, as `Board.Iter` yields them. */
  predicate Enumerated(es: seq<Entry>)
  {
    |es| == 9 && forall i :: 0 <= i < 9 ==> es[i].0 == BoundsIter()[i]
  }

  /** On enumerated entries, the hovered cell `(r, c)` is the entry at position `3r + c`, which is empty and under the pointer. */
  lemma HoveredAtIndex(es: seq<Entry>, contains: Cell -> bool)
    requires Enumerated(es) && Hovered(es, contains).Some?
    ensures var c := Hovered(es, contains).value;
      c.0 < 3 && c.1 < 3 && IndexOf(c) < 9 && es[IndexOf(c)].0 == c && Selectable(es[IndexOf(c)], contains)
  {
    var c := Hovered(es, contains).value;
    var i :| 0 <= i < |es| && es[i].0 == c && Selectable(es[i], contains) && forall j :: 0 <= j < i ==> !Selectable(es[j], contains);
    assert IndexOf(c) == i;
  }

  /** A click on a hovered cell replaces exactly its entry, at position `3r + c`, and advances the turn. */
  lemma StepClicked(es: seq<Entry>, turn: int, inp: Input)
    requires Enumerated(es) && inp.clicked && Hovered(es, inp.contains).Some?
    ensures var c := Hovered(es, inp.contains).value;
      && c.0 < 3 && c.1 < 3 && es[IndexOf(c)].1 == None
      && Step(es, turn, inp) == (es[IndexOf((c.0, c.1)) := ((c.0, c.1), Some(NextMark(turn)))], turn + 1)
  {
    HoveredAtIndex(es, inp.contains);
  }

  /**
   * One frame as a transition on the entries of `iter` and the turn counter:
   * when the button went down and a cell is hovered, that cell receives the
   * mark of the current turn and the turn advances; otherwise nothing changes.
   */
  function Step(es: seq<Entry>, turn: int, inp: Input): (r: (seq<Entry>, int))
    requires Enumerated(es)
    ensures Enumerated(r.0)
    ensures r.1 == turn || r.1 == turn + 1
    ensures r.1 == turn + 1 <==> inp.clicked && Hovered(es, inp.contains).Some?
    ensures forall i :: 0 <= i < 9 && es[i].1 != None ==> r.0[i] == es[i]
    ensures r.1 == turn ==> r.0 == es
    ensures r.1 == turn + 1 ==> exists k :: 0 <= k < 9 && es[k].1 == None && r.0 == es[k := (es[k].0, Some(NextMark(turn)))]
  {
    var h := Hovered(es, inp.contains);
    if inp.clicked && h.Some? then
      HoveredAtIndex(es, inp.contains);
      (es[IndexOf(h.value) := (h.value, Some(NextMark(turn)))], turn + 1)
    else
      (es, turn)
  }

  /** The frames applied in order, the last one last. */
  function Steps(es: seq<Entry>, turn: int, frames: seq<Input>): (r: (seq<Entry>, int))
    requires Enumerated(es)
    ensures Enumerated(r.0)
    ensures turn <= r.1 <= turn + |frames|
    ensures forall i :: 0 <= i < 9 && es[i].1 != None ==> r.0[i] == es[i]
  {
    if frames == [] then (es, turn)
    else
      var p := Steps(es, turn, frames[..|frames| - 1]);
      Step(p.0, p.1, frames[|frames| - 1])
  }

  /** Every frame keeps the game invariant. */
  lemma StepKeepsConsistent(es: seq<Entry>, turn: int, inp: Input)
    requires Enumerated(es) && Consistent(es, turn)
    ensures Consistent(Step(es, turn, inp).0, Step(es, turn, inp).1)
  {
    var r := Step(es, turn, inp);
    if r.1 == turn + 1 {
      var k :| 0 <= k < 9 && es[k].1 == None && r.0 == es[k := (es[k].0, Some(NextMark(turn)))];
      MarkKeepsConsistent(es, turn, k);
    }
  }

  /** Any finite run of frames keeps the game invariant, so the turn never exceeds 9. */
  lemma {:induction false} StepsKeepConsistent(es: seq<Entry>, turn: int, frames: seq<Input>)
    requires Enumerated(es) && Consistent(es, turn)
    ensures Consistent(Steps(es, turn, frames).0, Steps(es, turn, frames).1)
    ensures Steps(es, turn, frames).1 <= 9
  {
    if frames != [] {
      StepsKeepConsistent(es, turn, frames[..|frames| - 1]);
      var p := Steps(es, turn, frames[..|frames| - 1]);
      StepKeepsConsistent(p.0, p.1, frames[|frames| - 1]);
    }
    TurnBounded(Steps(es, turn, frames).0, Steps(es, turn, frames).1);
  }

  /** Program start: a new board, which satisfies the game invariant. */
  method NewGame() returns (board: Board)
    ensures fresh(board) && fresh(board.states)
    ensures board.Valid() && board.turn == 0 && Consistent(board.Iter(), 0)
    ensures forall r, c :: 0 <= r < 3 && 0 <= c < 3 ==> board.states[r, c] == None
  {
    board := new Board();
    EmptyConsistent(board.Iter());
  }

  /**
   * One pass of the main loop's update: compute the hovered cell and, when
   * `clicked` (the left button went down this frame) and a cell is hovered,
   * mark it.  Returns the hovered cell.
   */
  method Frame(board: Board, contains: Cell -> bool, clicked: bool) returns (hovered: Option<Cell>)
    requires board.Valid() && Consistent(board.Iter(), board.turn as int)
    modifies board`turn, board.states
    ensures board.Valid() && Consistent(board.Iter(), board.turn as int)
    ensures hovered == Hovered(old(board.Iter()), contains)
    ensures (board.Iter(), board.turn as int) == Step(old(board.Iter()), old(board.turn) as int, Input(contains, clicked))
    ensures hovered.Some? ==> hovered.value.0 < 3 && hovered.value.1 < 3 && old(board.states[hovered.value.0, hovered.value.1]) == None && contains(hovered.value)
    ensures if clicked && hovered.Some? then
              && board.turn as int == old(board.turn) as int + 1
              && board.states[hovered.value.0, hovered.value.1] == Some(NextMark(old(board.turn) as int))
              && forall r, c :: 0 <= r < 3 && 0 <= c < 3 && (r, c) != hovered.value ==> board.states[r, c] == old(board.states[r, c])
            else
              && board.turn == old(board.turn)
              && forall r, c :: 0 <= r < 3 && 0 <= c < 3 ==> board.states[r, c] == old(board.states[r, c])
  {
    var es := board.Iter();
    ghost var turn := board.turn as int;
    ghost var inp := Input(contains, clicked);
    hovered := Hovered(es, contains);
    if hovered.Some? {
      HoveredAtIndex(es, contains);
    }
    StepKeepsConsistent(es, turn, inp);
    if clicked && hovered.Some? {
      StepClicked(es, turn, inp);
      TurnBounded(es, turn);
      board.Mark(hovered.value.0, hovered.value.1);
    }
  }

  /**
   * Any finite run of frames from a board that satisfies the invariant: the
   * board ends as `Steps` says, the invariant still holds, the turn never
   * decreases, and a cell that was marked keeps its mark.
   */
  method Run(board: Board, frames: seq<Input>)
    requires board.Valid() && Consistent(board.Iter(), board.turn as int)
    modifies board`turn, board.states
    ensures board.Valid() && Consistent(board.Iter(), board.turn as int)
    ensures (board.Iter(), board.turn as int) == Steps(old(board.Iter()), old(board.turn) as int, frames)
    ensures old(board.turn) <= board.turn <= 9
    ensures forall r, c :: 0 <= r < 3 && 0 <= c < 3 && old(board.states[r, c]) != None ==> board.states[r, c] == old(board.states[r, c])
  {
    for n := 0 to |frames|
      invariant board.Valid() && Consistent(board.Iter(), board.turn as int)
      invariant (board.Iter(), board.turn as int) == Steps(old(board.Iter()), old(board.turn) as int, frames[..n])
      invariant old(board.turn) <= board.turn
      invariant forall r, c :: 0 <= r < 3 && 0 <= c < 3 && old(board.states[r, c]) != None ==> board.states[r, c] == old(board.states[r, c])
    {
      assert frames[..n + 1][..n] == frames[..n];
      var _ := Frame(board, frames[n].contains, frames[n].clicked);
    }
    assert frames[..|frames|] == frames;
    TurnBounded(board.Iter(), board.turn as int);
  }
}
