/**
 * The cryptographic random source the password generator draws from.
 *
 * Its implementation is not part of this model. It is represented by an
 * arbitrary entropy stream: the k-th call of `Next(minValue, maxValue)`
 * returns `minValue + stream(k) % (maxValue - minValue)`. Every finite
 * sequence of in-range answers an oracle could give is produced by some
 * stream (`EveryAnswerSequenceIsReachable`), so a property proved for every
 * stream holds for every behaviour of the oracle.
 */
module Randomness {

  /** The answer to the k-th request for a number in [minValue, maxValue). */
  function Draw(stream: nat -> nat, k: nat, minValue: int, maxValue: int): (r: int)
    requires minValue < maxValue
    ensures minValue <= r < maxValue
  {
    minValue + stream(k) % (maxValue - minValue)
  }

  /** A stream that answers every request with the same raw value. */
  function ConstantStream(v: nat): nat -> nat
  {
    _ => v
  }

  /** Every value of the range is the answer of some oracle behaviour. */
  lemma DrawReachesEveryValue(k: nat, minValue: int, maxValue: int, r: int)
    requires minValue <= r < maxValue
    ensures Draw(ConstantStream(r - minValue), k, minValue, maxValue) == r
  {
  }

  /** Raw value k of the stream that replays `answers`, each taken relative to its lower bound. */
  function ReplayOffset(answers: seq<int>, lows: seq<int>, k: nat): nat
    requires |lows| == |answers|
    requires forall i :: 0 <= i < |answers| ==> lows[i] <= answers[i]
  {
    if k < |answers| then answers[k] - lows[k] else 0
  }

  /** The stream under which the first `|answers|` requests are answered by `answers`. */
  function ReplayStream(answers: seq<int>, lows: seq<int>): nat -> nat
    requires |lows| == |answers|
    requires forall i :: 0 <= i < |answers| ==> lows[i] <= answers[i]
  {
    (k: nat) => ReplayOffset(answers, lows, k)
  }

  /** Under `stream`, the k-th request, for a number in [lows[k], highs[k]), is answered answers[k]. */
  predicate Replays(stream: nat -> nat, answers: seq<int>, lows: seq<int>, highs: seq<int>)
    requires |lows| == |answers| && |highs| == |answers|
  {
    forall k :: 0 <= k < |answers| ==> lows[k] < highs[k] && Draw(stream, k, lows[k], highs[k]) == answers[k]
  }

  /**
   * Every finite sequence of in-range answers is given by some stream: the
   * k-th request, for a number in [lows[k], highs[k]), is answered answers[k].
   */
  lemma EveryAnswerSequenceIsReachable(answers: seq<int>, lows: seq<int>, highs: seq<int>)
    requires |lows| == |answers| && |highs| == |answers|
    requires forall k :: 0 <= k < |answers| ==> lows[k] <= answers[k] < highs[k]
    ensures exists stream :: Replays(stream, answers, lows, highs)
  {
    var stream := ReplayStream(answers, lows);
    forall k | 0 <= k < |answers|
      ensures Draw(stream, k, lows[k], highs[k]) == answers[k]
    {
      var offset := answers[k] - lows[k];
      assert stream(k) == offset;
      assert offset % (highs[k] - lows[k]) == offset;
    }
    assert Replays(stream, answers, lows, highs);
  }

  /** The random source: an entropy stream and the number of draws taken so far. */
  class CryptoRandom {
    const stream: nat -> nat
    var calls: nat

    constructor (stream: nat -> nat)
      ensures this.stream == stream && calls == 0
    {
      this.stream := stream;
      calls := 0;
    }

    /** A number in [minValue, maxValue); each call consumes one draw. */
    method Next(minValue: int, maxValue: int) returns (r: int)
      requires minValue < maxValue
      modifies this
      ensures minValue <= r < maxValue
      ensures r == Draw(stream, old(calls), minValue, maxValue)
      ensures calls == old(calls) + 1
    {
      r := Draw(stream, calls, minValue, maxValue);
      calls := calls + 1;
    }
  }
}
