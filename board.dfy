/**
 * The tic-tac-toe board of src/main.rs: the mark a tile carries, the
 * row-major enumeration of the nine cells that `bounds_iter` and `iter`
 * walk, and the `Board` object whose `mark` writes one cell in place and
 * advances the turn counter.  Cell rectangles (floating-point geometry)
 * are not modelled: a cell is identified by its (row, col) pair alone.
 */
module TicTacToe {

  /** The two marks a tile can carry. */
  datatype TileState = X | O

  /** Rust's `Option`: an empty cell is `None`. */
  datatype Option<T> = None | Some(value: T)

  /** The source's `u8`, used for the turn counter. */
  newtype u8 = x: int | 0 <= x < 256

  /** A (row, col) pair; both components are below 3 for every cell the board yields. */
  type Cell = (nat, nat)

  /** The mark placed on the given turn: X on even turns, O on odd ones (`turn & 1 == 0`). */
  function NextMark(turn: int): TileState
  {
    if turn % 2 == 0 then X else O
  }

  /** Position of a cell in row-major order; the inverse of `CellOf`. */
  function IndexOf(c: Cell): nat
  {
    3 * c.0 + c.1
  }

  /** The cell visited at step `i` of `0..9`: `(i / 3, i % 3)`. */
  function CellOf(i: nat): (c: Cell)
    requires i < 9
    ensures c.0 < 3 && c.1 < 3
    ensures IndexOf(c) == i
  {
    (i / 3, i % 3)
  }

  /** `a` comes strictly before `b` in row-major order. */
  predicate Before(a: Cell, b: Cell)
  {
    a.0 < b.0 || (a.0 == b.0 && a.1 < b.1)
  }

  /** The (row, col) part of `bounds_iter`: the nine cells in the order `0..9` visits them. */
  function BoundsIter(): (cs: seq<Cell>)
    ensures |cs| == 9
    ensures forall i :: 0 <= i < |cs| ==> cs[i].0 < 3 && cs[i].1 < 3 && IndexOf(cs[i]) == i
  {
    seq(9, i requires 0 <= i < 9 => CellOf(i))
  }

  /** `CellOf` and `IndexOf` are inverse bijections between 0..9 and {0,1,2} x {0,1,2}. */
  lemma CellIndexRoundTrip()
    ensures forall i: nat :: i < 9 ==> IndexOf(CellOf(i)) == i
    ensures forall r: nat, c: nat :: r < 3 && c < 3 ==> IndexOf((r, c)) < 9 && CellOf(IndexOf((r, c))) == (r, c)
  {
    forall r: nat, c: nat | r < 3 && c < 3
      ensures IndexOf((r, c)) < 9 && CellOf(IndexOf((r, c))) == (r, c)
    {
      var k := CellOf(IndexOf((r, c)));
      assert 3 * k.0 + k.1 == 3 * r + c;
    }
  }

  /** Every cell of the 3 x 3 grid is yielded by the enumeration, at its row-major index. */
  lemma BoundsIterCovers(r: nat, c: nat)
    requires r < 3 && c < 3
    ensures IndexOf((r, c)) < 9 && BoundsIter()[IndexOf((r, c))] == (r, c)
  {
  }

  /** The enumeration is strictly increasing in row-major order, so no cell is yielded twice. */
  lemma BoundsIterRowMajor(i: nat, j: nat)
    requires i < j < 9
    ensures Before(BoundsIter()[i], BoundsIter()[j])
    ensures BoundsIter()[i] != BoundsIter()[j]
  {
  }

  /** One element of `iter`: a cell paired with that cell's current state. */
  type Entry = (Cell, Option<TileState>)

  /**
   * `Board` of src/main.rs without its `bounds` rectangle.  `states[row, col]`
   * is the state of the cell in that row and column.
   */
  class Board {
    var turn: u8
    const states: array2<Option<TileState>>

    /** The grid is 3 x 3, as the source's `[[Option<TileState>; 3]; 3]` is by its type. */
    ghost predicate Valid()
      reads this
    {
      states.Length0 == 3 && states.Length1 == 3
    }

    /** `Board::new`: turn 0 and every cell empty. */
    constructor ()
      ensures Valid() && fresh(states)
      ensures turn == 0
      ensures forall r, c :: 0 <= r < 3 && 0 <= c < 3 ==> states[r, c] == None
    {
      turn := 0;
      states := new Option<TileState>[3, 3]((r, c) => None);
    }

    /**
     * `Board::mark`: writes the mark of the current turn into the cell and
     * advances the turn.  It does not look at what the cell held before.
     */
    method Mark(row: nat, col: nat)
      requires Valid()
      requires row < 3 && col < 3
      requires turn < 255
      modifies this`turn, states
      ensures Valid()
      ensures states[row, col] == Some(NextMark(old(turn) as int))
      ensures turn as int == old(turn) as int + 1
      ensures forall r, c :: 0 <= r < 3 && 0 <= c < 3 && (r != row || c != col) ==> states[r, c] == old(states[r, c])
      ensures Iter() == old(Iter())[IndexOf((row, col)) := ((row, col), Some(NextMark(old(turn) as int)))]
    {
      ghost var before := Iter();
      states[row, col] := Some(NextMark(turn as int));
      turn := turn + 1;
      forall i | 0 <= i < 9
        ensures Iter()[i] == before[IndexOf((row, col)) := ((row, col), Some(NextMark(old(turn) as int)))][i]
      {
        var k := BoundsIter()[i];
        assert IndexOf(k) == i;
      }
    }

    /** `Board::iter` without the rectangles: every cell, in enumeration order, with its current state. */
    function Iter(): (es: seq<Entry>)
      reads this, states
      requires Valid()
      ensures |es| == 9
      ensures forall i :: 0 <= i < |es| ==> es[i].0 == BoundsIter()[i]
      ensures forall i :: 0 <= i < |es| ==> es[i].0.0 < 3 && es[i].0.1 < 3 && es[i].1 == states[es[i].0.0, es[i].0.1]
      ensures forall r: nat, c: nat :: r < 3 && c < 3 ==> IndexOf((r, c)) < 9 && es[IndexOf((r, c))] == ((r, c), states[r, c])
    {
      CellIndexRoundTrip();
      seq(9, i requires 0 <= i < 9 reads this, states => (CellOf(i), states[CellOf(i).0, CellOf(i).1]))
    }
  }

  /** A client of the contracts: marking (0,0), (1,1), (2,2) on a new board places X, O, X and leaves turn 3. */
  method MarkDiagonal()
  {
    var b := new Board();
    b.Mark(0, 0);
    b.Mark(1, 1);
    b.Mark(2, 2);
    assert b.states[0, 0] == Some(X) && b.states[1, 1] == Some(O) && b.states[2, 2] == Some(X);
    assert b.turn == 3 && b.states[0, 1] == None;
  }
}
