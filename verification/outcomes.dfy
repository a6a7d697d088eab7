/** Failures of the ICO packer and a failure-compatible result type.

    Every exception the packer can raise is one of these kinds.  The
    five validation failures come from explicit checks in `iconDirEntry`;
    `OutOfRange` stands for the range error Node's buffer accessors raise
    when a read runs past the end of a buffer or a value does not fit the
    integer width being written.
 */
module Outcomes {

  datatype PackError =
    | NotBuffer        // the element is not a Buffer
    | NotPng           // the first 8 bytes are not the PNG signature
    | OutOfRange       // a checked read or write was out of range
    | NotSquare        // IHDR width differs from IHDR height
    | TooLarge         // IHDR width exceeds 256
    | WrongColorType   // IHDR colour type is not 6 (truecolour with alpha)

  /** Either a value or the first failure met; usable with `:-`. */
  datatype Result<+T> = Success(value: T) | Failure(error: PackError) {

    predicate IsFailure() {
      Failure?
    }

    function PropagateFailure<U>(): Result<U>
      requires Failure?
    {
      Failure(error)
    }

    function Extract(): T
      requires Success?
    {
      value
    }
  }

  /** `Array.prototype.map` over positions `lo .. hi - 1` with a callback
      that may throw: the callback runs on each position in order, and the
      first failure ends the map with that failure. */
  function MapResults<T>(f: nat -> Result<T>, lo: nat, hi: nat): (r: Result<seq<T>>)
    requires lo <= hi
    ensures r.Success? ==> |r.value| == hi - lo
    decreases hi - lo
  {
    if lo == hi then Success([])
    else
      var x :- f(lo);
      var rest :- MapResults(f, lo + 1, hi);
      Success([x] + rest)
  }

  /** Element `k - lo` of a successful map is the callback's value at `k`. */
  lemma {:induction false} MapResultsAt<T>(f: nat -> Result<T>, lo: nat, hi: nat, k: nat)
    requires lo <= k < hi
    requires MapResults(f, lo, hi).Success?
    ensures f(k) == Success(MapResults(f, lo, hi).value[k - lo])
    decreases hi - lo
  {
    if k > lo {
      MapResultsAt(f, lo + 1, hi, k);
    }
  }

  /** A map succeeds exactly when the callback succeeds on every position. */
  lemma {:induction false} MapResultsSuccess<T>(f: nat -> Result<T>, lo: nat, hi: nat)
    requires lo <= hi
    ensures MapResults(f, lo, hi).Success? <==> forall i :: lo <= i < hi ==> f(i).Success?
    decreases hi - lo
  {
    if lo < hi {
      MapResultsSuccess(f, lo + 1, hi);
    }
  }

  /** A map fails with `e` exactly when the first position where the
      callback fails fails with `e`. */
  lemma {:induction false} MapResultsFailure<T>(f: nat -> Result<T>, lo: nat, hi: nat, e: PackError)
    requires lo <= hi
    ensures MapResults(f, lo, hi) == Failure(e) <==>
      exists i :: lo <= i < hi && f(i) == Failure(e)
        && forall j :: lo <= j < i ==> f(j).Success?
    decreases hi - lo
  {
    if lo < hi {
      MapResultsFailure(f, lo + 1, hi, e);
      if f(lo).Success? && MapResults(f, lo + 1, hi) == Failure(e) {
        var i :| lo + 1 <= i < hi && f(i) == Failure(e)
          && forall j :: lo + 1 <= j < i ==> f(j).Success?;
        assert forall j :: lo <= j < i ==> f(j).Success?;
      }
    }
  }
}
