/** The failure-compatible Option used throughout the model: `None` stands for
    pandas' NaN (an absent measurement) and for an operation that raised. */
module Wrappers {

  datatype Option<+T> = None | Some(value: T) {

    predicate IsFailure() {
      None?
    }

    function PropagateFailure<U>(): Option<U>
      requires None?
    {
      None
    }

    function Extract(): T
      requires Some?
    {
      value
    }
  }

  /** Applies `f` to a present value; an absent value stays absent, as NaN does
      under pandas arithmetic. */
  function MapOption<T, U>(o: Option<T>, f: T -> U): (r: Option<U>)
    ensures r.Some? <==> o.Some?
    ensures r.Some? ==> r.value == f(o.value)
  {
    match o
    case None => None
    case Some(v) => Some(f(v))
  }
}
