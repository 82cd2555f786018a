/**
 * Editing the proposal held in the URL (`src/hooks/useUpdateProposalViaQuery.ts`):
 * `addAction` appends one action to the current proposal and hands the
 * result to the callback of `SetParams`; `replace` hands a proposal to that
 * callback as it is. No existing list is changed: a new one is built.
 */
module UpdateProposal {
  import opened Optional
  import opened ProposalSchema
  import opened LoadProposal
  import opened SetParams

  /**
   * The proposal `addAction` builds: the current actions (none when there is
   * no proposal or no list) followed by the new one, and the current nonce.
   */
  function AddAction(current: Option<Proposal>, newAction: Action): (r: Proposal)
    ensures r.actions.Some?
    ensures |r.actions.value| == |ActionsOrEmpty(current)| + 1
    ensures r.actions.value[..|ActionsOrEmpty(current)|] == ActionsOrEmpty(current)
    ensures r.actions.value[|r.actions.value| - 1] == newAction
    ensures r.nonce == if current.Some? then current.value.nonce else NoNonce
  {
    Proposal(
      if current.Some? then current.value.nonce else NoNonce,
      Some(ActionsOrEmpty(current) + [newAction]))
  }

  /** `addAction(newAction)`: always produces a parameter update, since the new list is never empty. */
  function AddActionUpdate(current: Option<Proposal>, newAction: Action, loc: Location): (r: Option<ParamsUpdate>)
    ensures r.Some?
    ensures r.value.params == ProposalParams(AddAction(current, newAction)).value
    ensures r.value.navigateTo == RedirectPath(loc)
  {
    RedirectToProposalWithNewParams(AddAction(current, newAction), loc)
  }

  /** `replace(proposal)`: the proposal goes to the callback unchanged. */
  function ReplaceUpdate(p: Proposal, loc: Location): (r: Option<ParamsUpdate>)
    ensures r.None? <==> p.actions.None? || p.actions.value == []
    ensures r.Some? ==> r.value.params == ProposalParams(p).value
    ensures r.Some? ==> r.value.navigateTo == RedirectPath(loc)
  {
    RedirectToProposalWithNewParams(p, loc)
  }

  /**
   * Reading back the link `addAction` writes gives the previous actions, in
   * order, followed by the new action, provided no field holds a separator
   * and no value is empty; the nonce survives when it is truthy.
   */
  lemma AddedActionSurvivesLink(current: Option<Proposal>, newAction: Action, loc: Location)
    requires SeparatorFreeActions(ActionsOrEmpty(current) + [newAction])
    requires forall i :: 0 <= i < |ActionsOrEmpty(current)| ==> ActionsOrEmpty(current)[i].value != ""
    requires newAction.value != ""
    ensures var loaded := LoadProposalFromQuery(AddActionUpdate(current, newAction, loc).value.params);
      && loaded.Loaded?
      && loaded.proposal.actions == Some(ActionsOrEmpty(current) + [newAction])
      && (current.Some? && IsTruthy(current.value.nonce) ==> loaded.proposal.nonce == current.value.nonce)
  {
    var p := AddAction(current, newAction);
    RoundTripNormalises(p);
    var actions := p.actions.value;
    var normal := Normalised(p).actions.value;
    assert forall i :: 0 <= i < |actions| ==> actions[i].value != "";
    assert forall i :: 0 <= i < |actions| ==> normal[i] == actions[i];
    assert normal == actions;
  }
}
