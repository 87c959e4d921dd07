/** The frontier stack: an array of cell slots with an explicit top index.
    Slots from the top upwards hold null. The caller owns both the array and
    the index; each operation returns the new index. */
module Stack {
  import opened CellRecord

  /** The first top slots of the stack hold st, bottom first. */
  ghost predicate StackHolds(stack: array<Cell?>, top: nat, st: seq<Cell>)
    reads stack
  {
    top <= stack.Length && stack[..top] == st
  }

  /** Removes the top element: the index drops by one, the element in that
      slot is returned and the slot is cleared. */
  method Pop(stack: array<Cell?>, top: nat) returns (result: Cell?, newTop: nat)
    requires 0 < top <= stack.Length
    modifies stack
    ensures newTop == top - 1
    ensures result == old(stack[top - 1])
    ensures stack[..] == old(stack[..])[newTop := null]
    ensures stack[..newTop] == old(stack[..newTop])
  {
    newTop := top - 1;
    result := stack[newTop];
    stack[newTop] := null;
  }

  /** Popping a stack that holds st hands back its last element, a cell,
      and leaves the stack holding the rest. */
  method PopHeld(stack: array<Cell?>, top: nat, ghost st: seq<Cell>) returns (result: Cell, newTop: nat)
    requires StackHolds(stack, top, st) && |st| > 0
    modifies stack
    ensures result == st[|st| - 1] && StackHolds(stack, newTop, st[..|st| - 1])
  {
    var r;
    r, newTop := Pop(stack, top);
    assert r == st[|st| - 1];
    result := r;
  }

  /** Writes item into the slot at the index and raises the index by one. */
  method Push(item: Cell?, stack: array<Cell?>, top: nat) returns (newTop: nat)
    requires top < stack.Length
    modifies stack
    ensures newTop == top + 1
    ensures stack[..] == old(stack[..])[top := item]
    ensures stack[..top] == old(stack[..top]) && stack[..newTop] == old(stack[..top]) + [item]
  {
    stack[top] := item;
    newTop := top + 1;
  }

  /** A push followed by a pop hands back the pushed item, restores the
      index, and leaves the slot at that index empty. */
  method PushThenPop(item: Cell?, stack: array<Cell?>, top: nat) returns (result: Cell?, newTop: nat)
    requires top < stack.Length
    modifies stack
    ensures result == item && newTop == top
    ensures stack[..] == old(stack[..])[top := null]
  {
    var t := Push(item, stack, top);
    result, newTop := Pop(stack, t);
  }
}
