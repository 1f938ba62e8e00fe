/**
 The registry of threads: a doubly linked list with a count and a traversal
 cursor (threads-storage.c).
 */
module ThreadsStorage {
  class StorageCell {
    var thread: nat
    var next: StorageCell?
    var prev: StorageCell?

    /** `calloc`: every field zero. */
    constructor ()
      ensures thread == 0 && next == null && prev == null
    {
      thread, next, prev := 0, null, null;
    }
  }

  /** The cell before or after position `i`, NULL at the ends. */
  function At(cells: seq<StorageCell>, i: int): StorageCell? {
    if 0 <= i < |cells| then cells[i] else null
  }

  /** The neighbours of a cell once position `k` is gone. */
  lemma Removed(before: seq<StorageCell>, k: nat, i: nat)
    requires k < |before| && i < |before| - 1
    ensures
      var after := before[..k] + before[k + 1..];
      var j := if i < k then i else i + 1;
      && after[i] == before[j]
      && At(after, i + 1) == (if j == k - 1 then At(before, k + 1) else At(before, j + 1))
      && At(after, i - 1) == (if j == k + 1 then At(before, k - 1) else At(before, j - 1))
  {
  }

  lemma RemovedDistinct(before: seq<StorageCell>, k: nat)
    requires k < |before| && forall i, j :: 0 <= i < j < |before| ==> before[i] != before[j]
    ensures var after := before[..k] + before[k + 1..]; forall i, j :: 0 <= i < j < |after| ==> after[i] != after[j]
    ensures At(before[..k] + before[k + 1..], 0) == if k == 0 then At(before, 1) else At(before, 0)
    ensures forall c :: c in before[..k] + before[k + 1..] ==> c in before
  {
    var after := before[..k] + before[k + 1..];
    forall i, j | 0 <= i < j < |after|
      ensures after[i] != after[j]
    {
      Removed(before, k, i);
      Removed(before, k, j);
    }
  }

  class Storage {
    var head: StorageCell?
    var threadCount: int
    var cursor: StorageCell?
    /** The cells from head to tail. */
    ghost var cells: seq<StorageCell>

    ghost predicate Valid()
      reads this, cells
    {
      threadCount == |cells| && Linked()
    }

    /** A doubly linked list from `head` through the cells. */
    ghost predicate Linked()
      reads this, cells
    {
      && head == At(cells, 0)
      && (forall i, j :: 0 <= i < j < |cells| ==> cells[i] != cells[j])
      && (forall i :: 0 <= i < |cells| ==> cells[i].next == At(cells, i + 1) && cells[i].prev == At(cells, i - 1))
    }

    constructor ()
      ensures Valid() && cells == []
    {
      head, threadCount, cursor, cells := null, 0, null, [];
    }

    /** `create_cell_for_thread`: a new cell at the front. */
    method CreateCellForThread() returns (cell: StorageCell)
      requires Valid()
      modifies this`head, this`threadCount, this`cells, cells
      ensures Valid() && fresh(cell) && cells == [cell] + old(cells)
      ensures forall c :: c in old(cells) ==> c.thread == old(c.thread)
    {
      cell := new StorageCell();
      threadCount := threadCount + 1;
      if head != null { head.prev := cell; }
      cell.next := head;
      head := cell;
      cells := [cell] + cells;
    }

    /** The pointer writes of `destroy_cell`: both neighbours now skip the cell. */
    method Unlink(cell: StorageCell, ghost k: nat)
      requires Linked() && k < |cells| && cells[k] == cell
      modifies cells
      ensures head == old(head) && cells == old(cells)
      ensures forall c :: c in cells ==> c.thread == old(c.thread)
      ensures forall i :: 0 <= i < |cells| ==>
        cells[i].next == if i == k - 1 then At(cells, k + 1) else At(cells, i + 1)
      ensures forall i :: 0 <= i < |cells| ==>
        cells[i].prev == if i == k + 1 then At(cells, k - 1) else At(cells, i - 1)
    {
      if cell.prev != null { cell.prev.next := cell.next; }
      if cell.next != null { cell.next.prev := cell.prev; }
    }

    /** `destroy_cell`: the cell is unlinked, wherever it is, and the others keep their order. */
    method DestroyCell(cell: StorageCell, ghost k: nat)
      requires Valid() && k < |cells| && cells[k] == cell
      modifies this`head, this`threadCount, this`cells, cells
      ensures Valid() && cells == old(cells)[..k] + old(cells)[k + 1..]
      ensures forall c :: c in old(cells) ==> c.thread == old(c.thread)
    {
      ghost var before, after := cells, cells[..k] + cells[k + 1..];
      threadCount := threadCount - 1;
      Unlink(cell, k);
      if head == cell { head := cell.next; }
      RemovedDistinct(before, k);
      forall i | 0 <= i < |after|
        ensures after[i].next == At(after, i + 1) && after[i].prev == At(after, i - 1)
      {
        Removed(before, k, i);
      }
      cells := after;
    }

    /** The unsafe traversal, with the list left alone meanwhile: it yields every thread once, in list order. */
    method Traverse() returns (threads: seq<nat>)
      requires Valid()
      modifies this`cursor
      ensures Valid() && cells == old(cells)
      ensures |threads| == threadCount && forall i :: 0 <= i < |threads| ==> threads[i] == cells[i].thread
    {
      cursor := head;
      threads := [];
      while cursor != null
        invariant Valid() && cells == old(cells) && |threads| <= |cells| && cursor == At(cells, |threads|)
        invariant forall i :: 0 <= i < |threads| ==> threads[i] == cells[i].thread
        decreases |cells| - |threads|
      {
        threads := threads + [cursor.thread];
        cursor := cursor.next;
      }
    }
  }
}
