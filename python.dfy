/** The two pieces of Python's run-time behaviour that the script relies on:
    raising `IndexError`, and indexing a sequence with a possibly negative
    index (`s[-1]` is the last element). */
module Python {

  /** The only exception the modelled statements can raise. */
  datatype Error = IndexError

  datatype Result<T> = Ok(value: T) | Err(error: Error)

  /** `i` is accepted by Python's `s[i]` on a sequence of length `n`. */
  predicate ValidIndex(n: nat, i: int) {
    -(n as int) <= i < n
  }

  /** The position Python reads for a valid index: negative indices count from the end. */
  function Position(n: nat, i: int): (p: nat)
    requires ValidIndex(n, i)
    ensures p < n
    ensures i >= 0 ==> p == i
    ensures i < 0 ==> p + (-i) == n
  {
    if i < 0 then (n as int) + i else i
  }

  /** Python's `s[i]`: the element at `Position` or an `IndexError`. */
  function Index<T>(s: seq<T>, i: int): (r: Result<T>)
    ensures r.Ok? <==> -|s| <= i < |s|
    ensures 0 <= i < |s| ==> r == Ok(s[i])
    ensures -|s| <= i < 0 ==> r == Ok(s[|s| + i])
  {
    if ValidIndex(|s|, i) then Ok(s[Position(|s|, i)]) else Err(IndexError)
  }
}
