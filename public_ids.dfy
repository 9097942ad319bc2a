/**
 * The public-id generator: draw a random candidate, keep it when no row of the
 * model already uses it, give up after a fixed number of attempts.
 */
module PublicIds {
  import opened Wrappers

  /**
   * `_generate_unique`.  The random draws are `candidates` (one per attempt),
   * the public ids already in the table are `existing`, and `maxRetries` is
   * `MAX_PUBLIC_ID_RETRIES`.  None stands for the ValueError raised when every
   * attempt was taken; `attempts` counts the draws made.
   */
  method GenerateUnique(candidates: seq<string>, existing: set<string>, maxRetries: nat)
    returns (r: Option<string>, attempts: nat)
    requires |candidates| >= maxRetries
    ensures attempts <= maxRetries
    ensures forall i :: 0 <= i < attempts - 1 ==> candidates[i] in existing
    ensures r.Some? ==> 1 <= attempts && r.value == candidates[attempts - 1] && r.value !in existing
    ensures r.None? ==> attempts == maxRetries
    ensures r.None? <==> forall i :: 0 <= i < maxRetries ==> candidates[i] in existing
  {
    attempts := 0;
    while attempts < maxRetries
      invariant attempts <= maxRetries
      invariant forall i :: 0 <= i < attempts ==> candidates[i] in existing
    {
      var candidate := candidates[attempts];
      attempts := attempts + 1;
      if candidate !in existing {
        return Some(candidate), attempts;
      }
    }
    return None, attempts;
  }
}
