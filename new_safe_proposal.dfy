/**
 * The decisions the proposal view makes (`src/app/NewSafeProposal.tsx`):
 * whether the current account has approved, whether "Sign and Execute" is
 * offered, which buttons are disabled, and the request handed to the Safe
 * SDK. The SDK calls, the wallet and the React state around them are left
 * out; the approvers, the account and the threshold are inputs.
 */
module NewSafeProposal {
  import opened Optional
  import opened ProposalSchema
  import opened LoadProposal
  import opened SetParams

  /**
   * `determineIfCanExecute`: the combined sign-and-execute path is offered
   * when the approvals already equal the threshold, or when exactly one is
   * missing and the current account has not approved yet (its approval
   * would be the last one). Only exact equality counts: more approvals than
   * the threshold disables it.
   */
  function DetermineIfCanExecute(hasApproved: bool, totalApprovers: int, threshold: int): (canExecute: bool)
    ensures canExecute <==> totalApprovers == threshold || (!hasApproved && totalApprovers + 1 == threshold)
  {
    var remainingNeeded := threshold - totalApprovers;
    if remainingNeeded == 0 then true
    else if remainingNeeded == 1 && !hasApproved then true
    else false
  }

  /** The rule case by case, by the number of approvals still missing. */
  lemma CanExecuteByRemaining(hasApproved: bool, totalApprovers: int, threshold: int)
    ensures threshold - totalApprovers == 0 ==> DetermineIfCanExecute(hasApproved, totalApprovers, threshold)
    ensures threshold - totalApprovers == 1 ==> DetermineIfCanExecute(hasApproved, totalApprovers, threshold) == !hasApproved
    ensures threshold - totalApprovers >= 2 ==> !DetermineIfCanExecute(hasApproved, totalApprovers, threshold)
    ensures threshold - totalApprovers < 0 ==> !DetermineIfCanExecute(hasApproved, totalApprovers, threshold)
  {
  }

  /**
   * When the path is offered, the approvals, with the caller's own added if
   * it is not among them, reach the threshold: execution is never offered
   * short of it.
   */
  lemma CanExecuteMeetsThreshold(hasApproved: bool, totalApprovers: int, threshold: int)
    requires DetermineIfCanExecute(hasApproved, totalApprovers, threshold)
    ensures totalApprovers + (if hasApproved then 0 else 1) >= threshold
  {
  }

  /** `address ? approvers.includes(address) : false`; an absent or empty address has not approved. */
  function HasApproved(approvers: seq<string>, account: Option<string>): (approved: bool)
    ensures approved ==> account.Some? && account.value in approvers
    ensures account.None? || account.value == "" ==> !approved
    ensures account.Some? && account.value != "" && account.value in approvers ==> approved
  {
    if account.Some? && account.value != "" then account.value in approvers else false
  }

  /**
   * `safeInformation?.threshold || 0`: a missing threshold reads as 0, and a
   * known one, zero included, reads as itself.
   */
  function ThresholdOrZero(threshold: Option<int>): (t: int)
    ensures threshold.None? ==> t == 0
    ensures threshold.Some? ==> t == threshold.value
  {
    if threshold.Some? && threshold.value != 0 then threshold.value else 0
  }

  /** The `disabled` flags of the "Sign" and "Sign and Execute" buttons. */
  datatype ProposalButtons = ProposalButtons(signDisabled: bool, signAndExecuteDisabled: bool)

  /** The buttons `ViewProposal` renders for the given approvers, account and safe threshold. */
  function ViewProposalButtons(approvers: seq<string>, account: Option<string>, threshold: Option<int>): (b: ProposalButtons)
    ensures b.signDisabled <==> account.Some? && account.value != "" && account.value in approvers
    ensures !b.signAndExecuteDisabled <==>
      var t := ThresholdOrZero(threshold);
      |approvers| == t || (!b.signDisabled && |approvers| + 1 == t)
  {
    var hasApproved := HasApproved(approvers, account);
    var canExecute := DetermineIfCanExecute(hasApproved, |approvers|, ThresholdOrZero(threshold));
    ProposalButtons(hasApproved, !canExecute)
  }

  /** With no threshold known and no approvals, "Sign and Execute" is enabled. */
  lemma MissingThresholdEnablesExecute(account: Option<string>)
    ensures !ViewProposalButtons([], account, None).signAndExecuteDisabled
  {
  }

  /**
   * An account that has approved while one approval is still missing has
   * both buttons disabled: it cannot sign again and is not offered
   * execution, and must wait for another owner.
   */
  lemma ApprovedOneShortDisablesBoth(approvers: seq<string>, account: Option<string>, threshold: Option<int>)
    requires HasApproved(approvers, account)
    requires ThresholdOrZero(threshold) == |approvers| + 1
    ensures ViewProposalButtons(approvers, account, threshold) == ProposalButtons(true, true)
  {
  }

  /**
   * When the account's approval is the last one missing, both buttons are
   * enabled; once its approval is recorded, "Sign" is disabled and
   * "Sign and Execute" stays enabled.
   */
  lemma LastApprovalKeepsExecuteEnabled(approvers: seq<string>, address: string, threshold: Option<int>)
    requires address != "" && address !in approvers
    requires ThresholdOrZero(threshold) == |approvers| + 1
    ensures ViewProposalButtons(approvers, Some(address), threshold) == ProposalButtons(false, false)
    ensures ViewProposalButtons(approvers + [address], Some(address), threshold) == ProposalButtons(true, false)
  {
    assert address in approvers + [address];
  }

  /** An approval beyond the threshold disables execution, even though the threshold is met. */
  lemma OverApprovalDisablesExecution(approvers: seq<string>, account: Option<string>, threshold: Option<int>)
    requires |approvers| > ThresholdOrZero(threshold)
    ensures ViewProposalButtons(approvers, account, threshold).signAndExecuteDisabled
  {
  }

  /** Concrete approval states with thresholds of 2 and 3. */
  lemma ApprovalScenarios()
    ensures ViewProposalButtons(["0xA"], Some("0xB"), Some(2)) == ProposalButtons(false, false)
    ensures ViewProposalButtons(["0xA", "0xB"], Some("0xB"), Some(2)) == ProposalButtons(true, false)
    ensures ViewProposalButtons(["0xA"], Some("0xB"), Some(3)) == ProposalButtons(false, true)
  {
    assert "0xB" !in ["0xA"];
  }

  // ---------------------------------------------------------------------------
  // The request handed to the Safe SDK

  /** `{ transactions, options: { nonce } }` passed to `safe.createTransaction`. */
  datatype SafeTransactionRequest = SafeTransactionRequest(transactions: seq<Action>, nonce: Option<int>)

  /**
   * `createSafeTransaction` up to the SDK call: nothing when the actions are
   * absent (an empty list still makes a request), the actions as they are,
   * and `proposal.nonce || undefined` as the nonce option.
   */
  function CreateSafeTransactionRequest(p: Proposal): (r: Option<SafeTransactionRequest>)
    ensures r.None? <==> p.actions.None?
    ensures r.Some? ==> r.value.transactions == p.actions.value
    ensures r.Some? ==> (r.value.nonce.Some? <==> IsTruthy(p.nonce))
    ensures r.Some? && r.value.nonce.Some? ==> p.nonce == Num(r.value.nonce.value)
  {
    if p.actions.None? then None
    else Some(SafeTransactionRequest(p.actions.value, if IsTruthy(p.nonce) then Some(p.nonce.n) else None))
  }

  /**
   * Sharing a proposal by link does not change the request the SDK receives,
   * whatever its nonce: a nonce the link drops (0 or NaN) is one the request
   * leaves out anyway.
   */
  lemma LinkPreservesTransactionRequest(p: Proposal)
    requires p.actions.Some? && p.actions.value != []
    requires SeparatorFreeActions(p.actions.value)
    requires forall i :: 0 <= i < |p.actions.value| ==> p.actions.value[i].value != ""
    ensures var loaded := LoadProposalFromQuery(ProposalParams(p).value);
      && loaded.Loaded?
      && CreateSafeTransactionRequest(loaded.proposal) == CreateSafeTransactionRequest(p)
  {
    RoundTripNormalises(p);
    var actions := p.actions.value;
    var normal := Normalised(p).actions.value;
    assert forall i :: 0 <= i < |actions| ==> normal[i] == actions[i];
    assert normal == actions;
  }
}
