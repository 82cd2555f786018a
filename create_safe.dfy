/**
 * Validating the arguments of a new Safe (`src/app/CreateSafe.tsx`): the
 * threshold must be at least 1 and at most the number of owner addresses.
 * Deploying the Safe through the SDK is left out.
 */
module CreateSafe {

  /** The one field the validation reports on, and its two messages. */
  const ThresholdField := "threshold"
  const ThresholdTooLow := "Threshold needs to be at least 1"
  const ThresholdTooHigh := "Threshold cannot be more than the number of addresses"

  /**
   * The error map the form shows: empty exactly when `1 <= threshold <=
   * |addresses|`, otherwise one entry under "threshold" whose message names
   * the bound that was broken.
   */
  function SafeArgumentErrors(threshold: int, addresses: seq<string>): (errors: map<string, string>)
    ensures errors.Keys <= {ThresholdField}
    ensures errors == map[] <==> 1 <= threshold <= |addresses|
    ensures threshold > |addresses| ==> errors == map[ThresholdField := ThresholdTooHigh]
    ensures threshold <= 0 ==> errors == map[ThresholdField := ThresholdTooLow]
  {
    if threshold > |addresses| then
      var errors := map[ThresholdField := ThresholdTooHigh];
      assert ThresholdField in errors;
      errors
    else if threshold <= 0 then
      var errors := map[ThresholdField := ThresholdTooLow];
      assert ThresholdField in errors;
      errors
    else map[]
  }

  /**
   * `validateSafeArguments`: fills a fresh error map by field assignment,
   * the bound checks in the order the form runs them, a later assignment
   * replacing an earlier one.
   */
  method ValidateSafeArguments(threshold: int, addresses: seq<string>) returns (errors: map<string, string>)
    ensures errors == SafeArgumentErrors(threshold, addresses)
  {
    errors := map[];
    if threshold <= 0 {
      errors := errors[ThresholdField := ThresholdTooLow];
    }
    if threshold > |addresses| {
      errors := errors[ThresholdField := ThresholdTooHigh];
    }
  }

  /** The form's initial values, a threshold of 1 and a single address, pass validation. */
  lemma InitialValuesAreValid(signerAddress: string)
    ensures SafeArgumentErrors(1, [signerAddress]) == map[]
  {
  }
}
