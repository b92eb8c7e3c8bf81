/**
 * The main loop of index.js (lines 195-197): after logging in, one iteration of
 * the invoice-issuing routine runs for each `i` from 1 up to the accepted
 * number of repetitions. The browser work of an iteration is not modelled; the
 * method records the iteration numbers in the order the loop passes them on.
 */
module Iterations {

  method IterationNumbers(repetitions: int) returns (numbers: seq<int>)
    ensures |numbers| == if repetitions < 1 then 0 else repetitions
    ensures forall k :: 0 <= k < |numbers| ==> numbers[k] == k + 1
  {
    numbers := [];
    var i := 1;
    while i <= repetitions
      invariant 1 <= i <= if repetitions < 1 then 1 else repetitions + 1
      invariant |numbers| == i - 1
      invariant forall k :: 0 <= k < |numbers| ==> numbers[k] == k + 1
      decreases repetitions - i
    {
      numbers := numbers + [i];
      i := i + 1;
    }
  }
}
