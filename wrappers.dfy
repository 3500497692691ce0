/** Optional values, standing in for Rust's `Option`. */
module Wrappers {
  datatype Option<T> = None | Some(value: T)

  /** Three-way comparison result, standing in for `std::cmp::Ordering`. */
  datatype Ordering = Less | Equal | Greater
  {
    function Reverse(): Ordering
    {
      match this
      case Less => Greater
      case Equal => Equal
      case Greater => Less
    }

    /** `Ordering::then`: the first comparison decides unless it is `Equal`. */
    function Then(other: Ordering): Ordering
    {
      if this == Equal then other else this
    }
  }

  /** `Ord::cmp` on integers. */
  function CmpInt(a: int, b: int): (o: Ordering)
    ensures o == Less <==> a < b
    ensures o == Equal <==> a == b
    ensures o == Greater <==> a > b
  {
    if a < b then Less else if a == b then Equal else Greater
  }

  function Abs(n: int): nat
  {
    if n < 0 then -n else n
  }

  function Max(a: int, b: int): int { if a < b then b else a }

  function Min(a: int, b: int): int { if a < b then a else b }
}
