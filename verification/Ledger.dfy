/** Bags of heap cells, the currency of every ownership claim: a bag is what a piece of code allocated, freed, gave
    away or lost, and two bags are the same when they count every cell alike. */
module Ledger {

  datatype Bag = Empty | Cell(id: nat) | Plus(a: Bag, b: Bag)

  function Count(b: Bag, x: nat): nat {
    match b
    case Empty => 0
    case Cell(id) => if id == x then 1 else 0
    case Plus(c, d) => Count(c, x) + Count(d, x)
  }

  ghost predicate Same(a: Bag, b: Bag) {
    forall x: nat :: Count(a, x) == Count(b, x)
  }

  /** How often cell `x` is among the ids from `lo` up to `hi`: once or never. */
  function Once(lo: nat, hi: nat, x: nat): nat { if lo <= x < hi then 1 else 0 }

  /** The bag holds the cells an allocator hands out between ids `lo` and `hi`, each exactly once. */
  ghost predicate Allocated(b: Bag, lo: nat, hi: nat) {
    forall x: nat :: Count(b, x) == Once(lo, hi, x)
  }

  /** The allocator and the free() of the process. */
  class Heap {
    var next: nat
    var freed: Bag

    constructor ()
      ensures next == 0 && freed == Empty
    {
      next, freed := 0, Empty;
    }

    method Alloc() returns (cell: nat)
      modifies this`next
      ensures cell == old(next) && next == old(next) + 1
    {
      cell := next;
      next := next + 1;
    }

    method Free(cell: nat)
      modifies this`freed
      ensures freed == Plus(old(freed), Cell(cell))
    {
      freed := Plus(freed, Cell(cell));
    }
  }
}
