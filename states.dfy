/** The visited-board list of the C engine (states.h): a singly linked list
    of heap copies of nine-cell boards, appended at the tail and searched
    from the head. */
module States {

  /** One stored board: its own copy of the nine cells (the C field
      `array`, written once by the memcpy and never again, so held here as a
      value), and the next entry. */
  class State {
    const cells: seq<int>
    var next: State?

    constructor (cells: seq<int>)
      ensures this.cells == cells && next == null
    {
      this.cells := cells;
      next := null;
    }
  }

  /** The list head. `nodes` is the chain from `first` to `final` and
      `Contents` the boards stored in it, oldest first. */
  class StateList {
    var first: State?
    var final: State?
    ghost var nodes: seq<State>
    ghost var Contents: seq<seq<int>>
    ghost var Repr: set<object>

    ghost predicate Valid()
      reads this, Repr
    {
      this in Repr && |nodes| == |Contents| &&
      (forall k :: 0 <= k < |nodes| ==>
         nodes[k] in Repr && nodes[k].cells == Contents[k] &&
         (k + 1 < |nodes| ==> nodes[k].next == nodes[k + 1])) &&
      (forall k, l :: 0 <= k < l < |nodes| ==> nodes[k] != nodes[l]) &&
      if |nodes| == 0 then first == null && final == null
      else first == nodes[0] && final == nodes[|nodes| - 1] && final.next == null
    }

    /** newStateList: an empty list. */
    constructor ()
      ensures Valid() && fresh(Repr)
      ensures Contents == [] && first == null && final == null
    {
      first := null;
      final := null;
      nodes := [];
      Contents := [];
      Repr := {this};
    }

    /** addArrayToList: copy the first nine cells of `newArray` into a new
        entry and link it after `final` (it becomes `first` too when the list
        was empty). */
    method AddArrayToList(newArray: array<int>)
      requires Valid() && newArray.Length >= 9
      modifies Repr
      ensures Valid() && final != null && fresh(final)
      ensures Repr == old(Repr) + {final}
      ensures Contents == old(Contents) + [old(newArray[..9])]
      ensures old(first) != null ==> first == old(first)
      ensures old(first) == null ==> first == final
    {
      var copy := newArray[..9];
      var newState := new State(copy);
      if final != null {
        final.next := newState;
        final := newState;
      } else {
        final := newState;
        first := newState;
      }
      newState.next := null;
      nodes := nodes + [newState];
      Contents := Contents + [copy];
      Repr := Repr + {newState};
    }

    /** isInList: walk the chain from `first`, comparing nine cells at a time. */
    method IsInList(board: seq<int>) returns (found: bool)
      requires Valid() && |board| == 9
      ensures found <==> board in Contents
    {
      var curState := first;
      ghost var k := 0;
      while curState != null
        invariant 0 <= k <= |nodes|
        invariant curState == if k < |nodes| then nodes[k] else null
        invariant board !in Contents[..k]
        decreases |nodes| - k
      {
        var board2 := curState.cells;
        if board2 == board {
          return true;
        }
        curState := curState.next;
        k := k + 1;
      }
      assert Contents[..k] == Contents;
      return false;
    }
  }
}
