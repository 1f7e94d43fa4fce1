// stack<Type>: a LIFO stack of entries with a size counter.
//
// The chain of stack_entry cells reached from top_ is modelled as the
// sequence `entries`, top first: entries[0] is top_->value_, entries[1]
// is top_->next_->value_, and so on. size_ is kept as its own field,
// because the source maintains it separately from the chain.
module Stacks {
  import opened Wrappers

  /** What pop throws on an empty stack (std::out_of_range). */
  datatype OutOfRange = OutOfRange

  class Stack<T> {
    var entries: seq<T>
    var size: nat

    /** size_ counts the entries of the chain. */
    ghost predicate Valid()
      reads this
    {
      size == |entries|
    }

    /** stack(): no entries. */
    constructor ()
      ensures Valid() && entries == []
    {
      entries := [];
      size := 0;
    }

    /**
     * The copy constructor: size_ is taken from rhs, then rhs's entries
     * are copied from the top down, each new one linked below the last.
     */
    constructor Copy(rhs: Stack<T>)
      requires rhs.Valid()
      ensures Valid() && entries == rhs.entries
    {
      entries := [];
      size := rhs.size;
      new;
      var k := 0;
      while k < |rhs.entries|
        invariant 0 <= k <= |rhs.entries|
        invariant entries == rhs.entries[..k]
        invariant size == rhs.size
      {
        entries := entries + [rhs.entries[k]];
        k := k + 1;
      }
    }

    /** size(). */
    function Size(): (n: nat)
      requires Valid()
      reads this
      ensures n == |entries|
    {
      size
    }

    /** push: a new entry on top. */
    method Push(t: T)
      requires Valid()
      modifies this
      ensures Valid() && entries == [t] + old(entries)
    {
      entries := [t] + entries;
      size := size + 1;
    }

    /** pop: the top value, or out_of_range with nothing changed when empty. */
    method Pop() returns (r: Result<T, OutOfRange>)
      requires Valid()
      modifies this
      ensures Valid()
      ensures old(entries) == [] ==> r == Err(OutOfRange) && entries == []
      ensures old(entries) != [] ==> r == Ok(old(entries)[0]) && entries == old(entries)[1..]
    {
      if size < 1 {
        return Err(OutOfRange);
      }
      var e := entries[0];
      entries := entries[1..];
      size := size - 1;
      r := Ok(e);
    }

    /**
     * operator=: copy-and-swap. A temporary copy of rhs trades its chain
     * and size with this, so this ends up with rhs's entries and rhs
     * keeps its own.
     */
    method Assign(rhs: Stack<T>)
      requires Valid() && rhs.Valid()
      modifies this
      ensures Valid() && entries == old(rhs.entries)
      ensures rhs != this ==> rhs.entries == old(rhs.entries)
    {
      var tmp := new Stack.Copy(rhs);
      size, tmp.size := tmp.size, size;
      entries, tmp.entries := tmp.entries, entries;
    }
  }

  /** LIFO: popping right after a push returns the pushed value and restores the stack. */
  method PushThenPop<T>(s: Stack<T>, t: T) returns (r: Result<T, OutOfRange>)
    requires s.Valid()
    modifies s
    ensures s.Valid() && r == Ok(t) && s.entries == old(s.entries)
  {
    s.Push(t);
    r := s.Pop();
  }

  /** Pushing a then b pops b first, then a (last in, first out). */
  method LastInFirstOut<T>(s: Stack<T>, a: T, b: T) returns (first: Result<T, OutOfRange>, second: Result<T, OutOfRange>)
    requires s.Valid()
    modifies s
    ensures s.Valid() && first == Ok(b) && second == Ok(a) && s.entries == old(s.entries)
  {
    s.Push(a);
    s.Push(b);
    first := s.Pop();
    second := s.Pop();
  }

  /** A copy is independent: pushing onto it leaves the original as it was. */
  method CopyIsIndependent<T>(s: Stack<T>, t: T) returns (c: Stack<T>)
    requires s.Valid()
    ensures c.Valid() && s.Valid()
    ensures c.entries == [t] + s.entries && s.entries == old(s.entries)
  {
    c := new Stack.Copy(s);
    c.Push(t);
  }
}
