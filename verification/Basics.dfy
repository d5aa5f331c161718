/** Shared vocabulary: options, results, and the instants every other module reads. */
module Basics {

  /** Seconds since the Unix epoch. The program keeps these in a signed 64-bit integer. */
  type Timestamp = int

  /** The largest value of the program's 32-bit counters, where saturating additions stop. */
  const MAX_U32: nat := 0xFFFF_FFFF

  const DAY_SECONDS: int := 86_400

  datatype Option<+T> = None | Some(value: T) {
    function GetOr(default: T): T {
      if Some? then value else default
    }
  }

  datatype Result<+T, +E> = Ok(value: T) | Err(error: E)

  function Min(a: int, b: int): int {
    if a <= b then a else b
  }

  function Max(a: int, b: int): int {
    if a >= b then a else b
  }

  /** The earlier of two optional instants; an absent one never wins. */
  function MinOpt(a: Option<Timestamp>, b: Option<Timestamp>): Option<Timestamp> {
    match (a, b)
    case (Some(x), Some(y)) => Some(Min(x, y))
    case (None, _) => b
    case (_, None) => a
  }

  /** The position of the first element that passes the test, or the length when there is none. */
  function FirstWhere<T>(xs: seq<T>, test: T -> bool): (i: nat)
    ensures i <= |xs|
    ensures i < |xs| ==> test(xs[i])
    ensures forall j :: 0 <= j < i ==> !test(xs[j])
  {
    if xs == [] || test(xs[0]) then 0 else 1 + FirstWhere(xs[1..], test)
  }
}
