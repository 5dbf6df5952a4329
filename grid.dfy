/** Keyboard navigation over the result cards, laid out row by row in a grid
    whose column count follows the window width (`on_resize`, `action_move_*`). */
module Grid {

  /** What holds keyboard focus: a result card (by position), the search box,
      or some other widget. */
  datatype Focus = OnResult(index: nat) | OnSearchBox | Elsewhere

  /** The column count `on_resize` picks for a window width. */
  function GridSizeFor(width: int): (n: nat)
    ensures 1 <= n <= 5
  {
    if width > 200 then 5
    else if width > 150 then 4
    else if width > 100 then 3
    else if width > 70 then 2
    else 1
  }

  /** A wider window never has fewer columns. */
  lemma GridSizeMonotone(narrow: int, wide: int)
    requires narrow <= wide
    ensures GridSizeFor(narrow) <= GridSizeFor(wide)
  {
  }

  /** Position `n == size * row + column` in a grid of `size` columns. */
  lemma RowColumn(n: int, size: int, row: int, column: int)
    requires size >= 1 && 0 <= column < size && n == size * row + column
    ensures n / size == row && n % size == column
  {
    var q, m := n / size, n % size;
    assert n == size * q + m && 0 <= m < size;
    StepApart(size, row, q);
    StepApart(size, q, row);
  }

  /** Distinct rows start at least one full row apart. */
  lemma StepApart(size: int, a: int, b: int)
    requires size >= 1
    ensures a < b ==> size * a + size <= size * b
  {
    if a < b {
      AtLeastOnce(size, b - a);
      assert size * b - size * a == size * (b - a);
    }
  }

  lemma {:induction false} AtLeastOnce(size: int, d: int)
    requires size >= 1 && d >= 1
    ensures size * d >= size
    decreases d
  {
    if d > 1 {
      AtLeastOnce(size, d - 1);
      assert size * d == size * (d - 1) + size;
    }
  }

  /** `action_move_up`: one row up, or to the search box from the first row. */
  function MoveUp(f: Focus, size: nat, count: nat): (g: Focus)
    requires size >= 1
    requires f.OnResult? ==> f.index < count
    ensures !f.OnResult? ==> g == f
    ensures f.OnResult? && f.index < size ==> g == OnSearchBox
    ensures f.OnResult? && f.index >= size ==>
              && g.OnResult? && g.index < count
              && g.index % size == f.index % size
              && g.index / size == f.index / size - 1
  {
    if !f.OnResult? then f
    else
      var index := f.index - size;
      if index >= 0 then
        RowColumn(f.index, size, index / size + 1, index % size);
        OnResult(index)
      else OnSearchBox
  }

  /** `action_move_down`: one row down when there is a card there; from outside
      the grid, to the first card. */
  function MoveDown(f: Focus, size: nat, count: nat): (g: Focus)
    requires size >= 1
    requires f.OnResult? ==> f.index < count
    requires !f.OnResult? ==> count > 0
    ensures !f.OnResult? ==> g == OnResult(0)
    ensures f.OnResult? && f.index + size >= count ==> g == f
    ensures f.OnResult? && f.index + size < count ==>
              && g.OnResult? && g.index < count
              && g.index % size == f.index % size
              && g.index / size == f.index / size + 1
  {
    if !f.OnResult? then OnResult(0)
    else
      var index := f.index + size;
      if index < count then
        RowColumn(index, size, f.index / size + 1, f.index % size);
        OnResult(index)
      else f
  }

  /** `action_move_left`: one card left, unless the card is first in its row. */
  function MoveLeft(f: Focus, size: nat, count: nat): (g: Focus)
    requires size >= 1
    requires f.OnResult? && f.index < count
    ensures g.OnResult? && g.index < count && g.index / size == f.index / size
    ensures g != f <==> f.index % size != 0
    ensures g != f ==> g.index == f.index - 1
  {
    var index := f.index - 1;
    if index >= 0 && (index + 1) % size > 0 then
      RowColumn(index, size, f.index / size, f.index % size - 1);
      OnResult(index)
    else f
  }

  /** `action_move_right`: one card right, unless the card is last in its row
      or the last card. */
  function MoveRight(f: Focus, size: nat, count: nat): (g: Focus)
    requires size >= 1
    requires f.OnResult? && f.index < count
    ensures g.OnResult? && g.index < count && g.index / size == f.index / size
    ensures g != f <==> f.index + 1 < count && f.index % size != size - 1
    ensures g != f ==> g.index == f.index + 1
  {
    var index := f.index + 1;
    NextInRow(f.index, size);
    if index < count && index % size > 0 then OnResult(index) else f
  }

  /** The card after position `i` is in the same row exactly when `i` is not
      in the last column. */
  lemma NextInRow(i: nat, size: nat)
    requires size >= 1
    ensures (i + 1) % size > 0 <==> i % size != size - 1
    ensures (i + 1) % size > 0 ==> (i + 1) / size == i / size
  {
    if i % size == size - 1 {
      RowColumn(i + 1, size, i / size + 1, 0);
    } else {
      RowColumn(i + 1, size, i / size, i % size + 1);
    }
  }

  /** The application's navigation state: the column count and the focus. */
  class Navigator {
    var gridSize: nat
    var focused: Focus

    ghost predicate Valid()
      reads this
    {
      1 <= gridSize <= 5
    }

    /** The search box has focus at start; the first resize sets the column count. */
    constructor (width: int)
      ensures Valid() && gridSize == GridSizeFor(width) && focused == OnSearchBox
    {
      gridSize := GridSizeFor(width);
      focused := OnSearchBox;
    }

    /** `on_resize`. */
    method OnResize(width: int)
      modifies this
      ensures Valid() && gridSize == GridSizeFor(width) && focused == old(focused)
    {
      if width > 200 {
        gridSize := 5;
      } else if width > 150 {
        gridSize := 4;
      } else if width > 100 {
        gridSize := 3;
      } else if width > 70 {
        gridSize := 2;
      } else {
        gridSize := 1;
      }
    }

    /** `action_move_up`, with `count` result cards on screen. */
    method ActionMoveUp(count: nat)
      requires Valid() && (focused.OnResult? ==> focused.index < count)
      modifies this
      ensures Valid() && gridSize == old(gridSize)
      ensures focused == MoveUp(old(focused), gridSize, count)
    {
      if !focused.OnResult? {
        return;
      }
      var index := focused.index - gridSize;
      if index >= 0 {
        focused := OnResult(index);
      } else {
        focused := OnSearchBox;
      }
    }

    /** `action_move_down`, with `count` result cards on screen. */
    method ActionMoveDown(count: nat)
      requires Valid() && (focused.OnResult? ==> focused.index < count)
      requires !focused.OnResult? ==> count > 0
      modifies this
      ensures Valid() && gridSize == old(gridSize)
      ensures focused == MoveDown(old(focused), gridSize, count)
    {
      if !focused.OnResult? {
        focused := OnResult(0);
        return;
      }
      var index := focused.index + gridSize;
      if index < count {
        focused := OnResult(index);
      }
    }

    /** `action_move_left`, with `count` result cards on screen. */
    method ActionMoveLeft(count: nat)
      requires Valid() && focused.OnResult? && focused.index < count
      modifies this
      ensures Valid() && gridSize == old(gridSize)
      ensures focused == MoveLeft(old(focused), gridSize, count)
    {
      var index := focused.index - 1;
      if index >= 0 && (index + 1) % gridSize > 0 {
        focused := OnResult(index);
      }
    }

    /** `action_move_right`, with `count` result cards on screen. */
    method ActionMoveRight(count: nat)
      requires Valid() && focused.OnResult? && focused.index < count
      modifies this
      ensures Valid() && gridSize == old(gridSize)
      ensures focused == MoveRight(old(focused), gridSize, count)
    {
      var index := focused.index + 1;
      if index < count && index % gridSize > 0 {
        focused := OnResult(index);
      }
    }
  }
}
