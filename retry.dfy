/**
 * Translation of one string with a bounded number of attempts and
 * exponential backoff between them. The translation service is a function
 * from the attempt number to that attempt's outcome; the waits are recorded
 * as values instead of being slept.
 */
module Retry {
  import opened Wrappers

  /** The error raised once every attempt has failed, naming the text and the attempt budget. */
  datatype TranslationFailure = TranslationFailure(text: string, attempts: nat)

  const DefaultRetryCount: nat := 3
  const DefaultDelay: int := 1000

  function Pow2(n: nat): (p: nat)
    ensures p >= 1
  {
    if n == 0 then 1 else 2 * Pow2(n - 1)
  }

  lemma Doubled(d: int, n: nat)
    ensures d * Pow2(n) * 2 == d * Pow2(n + 1)
  {
  }

  /**
   * Calls `call(1)`, `call(2)`, ... up to `call(retryCount)` and returns the
   * first successful text. After a failed attempt that is not the last it
   * waits `delay` and doubles `delay`; the last failure raises
   * `TranslationFailure`. `sleeps` lists the waits in order.
   */
  method TranslateSingle(value: string, call: nat -> Option<string>, retryCount: nat, delay0: int)
    returns (r: Result<string, TranslationFailure>, ghost sleeps: seq<int>)
    requires retryCount >= 1
    ensures r.Success? <==> exists k :: 1 <= k <= retryCount && call(k).Some?
    ensures r.Success? ==>
      exists k :: 1 <= k <= retryCount && call(k) == Some(r.value) && forall j :: 1 <= j < k ==> call(j).None?
    ensures r.Failure? ==> r.error == TranslationFailure(value, retryCount)
    ensures |sleeps| < retryCount
    ensures forall i :: 0 <= i < |sleeps| ==> sleeps[i] == delay0 * Pow2(i)
    ensures forall k :: 1 <= k <= |sleeps| ==> call(k).None?
    ensures r.Success? ==> call(|sleeps| + 1) == Some(r.value)
    ensures r.Failure? ==>
      |sleeps| == retryCount - 1 && call(retryCount).None? &&
      r.error == TranslationFailure(value, retryCount)
  {
    var attempt := 1;
    var delay := delay0;
    sleeps := [];
    while true
      invariant 1 <= attempt <= retryCount
      invariant |sleeps| == attempt - 1
      invariant delay == delay0 * Pow2(attempt - 1)
      invariant forall i :: 0 <= i < |sleeps| ==> sleeps[i] == delay0 * Pow2(i)
      invariant forall k :: 1 <= k < attempt ==> call(k).None?
      decreases retryCount - attempt
    {
      var response := call(attempt);
      if response.Some? {
        return Success(response.value), sleeps;
      }
      if attempt < retryCount {
        sleeps := sleeps + [delay];
        Doubled(delay0, attempt - 1);
        delay := delay * 2;
      } else {
        return Failure(TranslationFailure(value, retryCount)), sleeps;
      }
      attempt := attempt + 1;
    }
  }
}
