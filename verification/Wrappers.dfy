/** Outcome types and the searches shared by every component. */
module Wrappers {
  datatype Option<+T> = None | Some(value: T)

  datatype Result<+T, +E> = Ok(value: T) | Err(error: E)
}

module Sequences {
  import opened Wrappers

  /** Index of the first element that p accepts: Rust's `iter().position(p)`. */
  function Position<T>(s: seq<T>, p: T -> bool): (r: Option<nat>)
    ensures r.Some? ==> r.value < |s| && p(s[r.value]) && forall j | 0 <= j < r.value :: !p(s[j])
    ensures r.None? ==> forall j | 0 <= j < |s| :: !p(s[j])
  {
    PositionFrom(s, p, 0)
  }

  function PositionFrom<T>(s: seq<T>, p: T -> bool, i: nat): (r: Option<nat>)
    requires i <= |s|
    ensures r.Some? ==> i <= r.value < |s| && p(s[r.value]) && forall j | i <= j < r.value :: !p(s[j])
    ensures r.None? ==> forall j | i <= j < |s| :: !p(s[j])
    decreases |s| - i
  {
    if i == |s| then None else if p(s[i]) then Some(i) else PositionFrom(s, p, i + 1)
  }

  /** Where c occurs first in s, |s| if nowhere. */
  function FirstIndex(s: string, c: char): (r: nat)
    ensures r <= |s| && (r < |s| ==> s[r] == c)
    ensures forall i | 0 <= i < r :: s[i] != c
  {
    if |s| == 0 then 0 else if s[0] == c then 0 else 1 + FirstIndex(s[1..], c)
  }
}
