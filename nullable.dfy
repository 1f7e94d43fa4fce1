// nullable<T>: an owned, possibly null pointer to a T.
//
// The pointer field t_ is modelled as an Option: None for nullptr, Some(v)
// for a pointer to a heap copy of v. Copies are deep, so two nullables
// never share the held value; that is why a value field suffices.
module Nullables {
  import opened Wrappers

  /** What get throws on an empty nullable (std::exception). */
  datatype NullAccess = NullAccess

  class Nullable<T> {
    var held: Option<T>

    /** nullable(): no value. */
    constructor Empty()
      ensures held == None
    {
      held := None;
    }

    /** nullable(const T &): a copy of t. */
    constructor Of(t: T)
      ensures held == Some(t)
    {
      held := Some(t);
    }

    /** The copy constructor: a new copy of whatever n holds. */
    constructor Copy(n: Nullable<T>)
      ensures held == n.held
    {
      held := n.held;
    }

    /** The move constructor: takes n's pointer and leaves n empty. */
    constructor Move(n: Nullable<T>)
      modifies n
      ensures held == old(n.held) && n.held == None
    {
      held := n.held;
      n.held := None;
    }

    /** has_value, also operator bool. */
    function HasValue(): (b: bool)
      reads this
      ensures b <==> held != None
    {
      held.Some?
    }

    /** get: the held value, or the exception when empty. */
    function Get(): (r: Result<T, NullAccess>)
      reads this
      ensures r.Ok? <==> HasValue()
      ensures r.Ok? ==> held == Some(r.value)
    {
      if held.Some? then Ok(held.value) else Err(NullAccess)
    }

    /**
     * try_get(t): whether a value is held; the out-parameter, passed in as
     * t, is overwritten only when one is.
     */
    function TryGet(t: T): (r: (bool, T))
      reads this
      ensures r.0 == HasValue()
      ensures r.0 ==> Some(r.1) == held
      ensures !r.0 ==> r.1 == t
    {
      if held.Some? then (true, held.value) else (false, t)
    }

    /** swap: exchanges the two pointers. */
    method Swap(rhs: Nullable<T>)
      modifies this, rhs
      ensures held == old(rhs.held) && rhs.held == old(held)
    {
      held, rhs.held := rhs.held, held;
    }

    /**
     * operator=(nullable n): n is a by-value copy of the right-hand side,
     * swapped into this; the right-hand side itself is untouched.
     */
    method Assign(rhs: Nullable<T>)
      modifies this
      ensures held == old(rhs.held)
      ensures rhs != this ==> rhs.held == old(rhs.held)
    {
      var n := new Nullable.Copy(rhs);
      Swap(n);
    }

    /** set(const T &): a fresh copy of t swapped in. */
    method Set(t: T)
      modifies this
      ensures held == Some(t) && Get() == Ok(t)
    {
      var temp := new Nullable.Of(t);
      Swap(temp);
    }
  }
}
