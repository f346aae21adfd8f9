/**
 The vector of cells behind a heap: an array with room behind its top, which is
 replaced by a larger one when the room is used up.
 */
module CellHeap {
  import opened TypeLayout

  class CellHeap {
    var cells: array<nat>
    var top: nat

    // Behind the top nobody wrote.
    ghost predicate Valid()
      reads this, cells
    {
      1 <= top <= cells.Length && forall i :: top <= i < cells.Length ==> cells[i] == 0
    }

    ghost function Contents(): seq<nat>
      reads this, cells
      requires Valid()
    {
      cells[..top]
    }

    constructor (cellNumber: nat)
      requires cellNumber >= 1
      ensures Valid() && fresh(cells) && Contents() == [0]
    {
      cells := new nat[cellNumber](_ => 0);
      top := 1;
    }

    /**
     increaseHeap: moves the top, and copies what is in front of it only if the
     array becomes too small. In both cases the new cells are zero.
     */
    method IncreaseHeap(n: nat) returns (result: nat)
      requires Valid()
      modifies this
      ensures Valid() && (cells == old(cells) || fresh(cells))
      ensures result == |old(Contents())| && Contents() == old(Contents()) + Zeros(n)
    {
      result := top;
      top := top + n;
      if top < cells.Length {
        return;
      }
      var cellNumber := if n > cells.Length then cells.Length + n else cells.Length * 2;
      var newCells := new nat[cellNumber](_ => 0);
      for i := 0 to result
        invariant cells == old(cells) && top == old(top) + n && unchanged(cells)
        invariant forall j :: 0 <= j < i ==> newCells[j] == cells[j]
        invariant forall j :: i <= j < cellNumber ==> newCells[j] == 0
      {
        newCells[i] := cells[i];
      }
      cells := newCells;
    }

    method SetHeapValue(a: nat, v: nat)
      requires Valid() && a < top
      modifies cells
      ensures Valid() && Contents() == old(Contents())[a := v]
    {
      cells[a] := v;
    }

    /**
     reset: only the cells in front of the top are painted over, which is enough
     for the next increaseHeap. A heap with nothing in it keeps its first cell.
     */
    method Reset()
      requires Valid()
      modifies this, cells
      ensures Valid() && cells == old(cells)
      ensures Contents() == if old(Contents()) == [old(Contents())[0]] then old(Contents()) else [0]
    {
      if top == 1 {
        return;
      }
      for i := 0 to top
        invariant Valid() && cells == old(cells) && top == old(top)
        invariant forall j :: 0 <= j < i ==> cells[j] == 0
      {
        cells[i] := 0;
      }
      top := 1;
    }
  }
}
