/**
 * Writing a proposal into the URL (`src/hooks/useSetParamsFromQuery.ts`):
 * the callback returned by `useRedirectToProposalWithNewParams` joins each
 * field of the actions with `|`, adds the nonce when it is truthy, and
 * redirects to the new-proposal page first when the current path is not
 * one. `navigate` and `setParams` are the I/O boundary: the model returns
 * what they would be called with. The round-trip laws with the decoder of
 * `LoadProposal` are proved here.
 */
module SetParams {
  import opened Optional
  import opened Text
  import opened JsNumbers
  import opened ProposalSchema
  import opened LoadProposal

  /** The `to` fields of the actions, in order. */
  function Targets(actions: seq<Action>): (tos: seq<string>)
    ensures |tos| == |actions| && forall i :: 0 <= i < |actions| ==> tos[i] == actions[i].to
  {
    seq(|actions|, i requires 0 <= i < |actions| => actions[i].to)
  }

  /** The `data` fields of the actions, in order. */
  function Calldatas(actions: seq<Action>): (datas: seq<string>)
    ensures |datas| == |actions| && forall i :: 0 <= i < |actions| ==> datas[i] == actions[i].data
  {
    seq(|actions|, i requires 0 <= i < |actions| => actions[i].data)
  }

  /** The `value` fields of the actions, in order. */
  function Values(actions: seq<Action>): (values: seq<string>)
    ensures |values| == |actions| && forall i :: 0 <= i < |actions| ==> values[i] == actions[i].value
  {
    seq(|actions|, i requires 0 <= i < |actions| => actions[i].value)
  }

  /**
   * The parameters the callback sets, or `None` when the proposal has no
   * actions (absent or empty) and the callback returns without doing anything.
   */
  function ProposalParams(p: Proposal): (r: Option<QueryParams>)
    ensures r.None? <==> p.actions.None? || p.actions.value == []
    ensures r.Some? ==>
      && r.value.Keys == {TargetsKey, CalldatasKey, ValuesKey} + (if IsTruthy(p.nonce) then {NonceKey} else {})
      && r.value[TargetsKey] == Join(Targets(p.actions.value), Separator)
      && r.value[CalldatasKey] == Join(Calldatas(p.actions.value), Separator)
      && r.value[ValuesKey] == Join(Values(p.actions.value), Separator)
      && (IsTruthy(p.nonce) ==> r.value[NonceKey] == IntToString(p.nonce.n))
  {
    if p.actions.None? || p.actions.value == [] then None
    else
      var actions := p.actions.value;
      var params := map[
        TargetsKey := Join(Targets(actions), Separator),
        CalldatasKey := Join(Calldatas(actions), Separator),
        ValuesKey := Join(Values(actions), Separator)];
      Some(if IsTruthy(p.nonce) then params[NonceKey := IntToString(p.nonce.n)] else params)
  }

  /** The route the callback runs in: the current path and the `:networkId` and `:safeAddress` route parameters. */
  datatype Location = Location(pathname: string, networkId: Option<string>, safeAddress: Option<string>)

  /** A route parameter inside a template literal: an absent one prints as "undefined". */
  function TemplateText(x: Option<string>): string
  {
    x.GetOr("undefined")
  }

  /**
   * The path to navigate to first: the new-proposal page of the same safe,
   * when the current path does not contain "new". The target path itself
   * contains "new", so a second call from there does not redirect again.
   */
  function RedirectPath(loc: Location): (r: Option<string>)
    ensures r.None? <==> Includes(loc.pathname, "new")
    ensures r.Some? ==> r.value == "/safe/" + TemplateText(loc.networkId) + "/" + TemplateText(loc.safeAddress) + "/new"
    ensures r.Some? ==> Includes(r.value, "new")
  {
    if Includes(loc.pathname, "new") then None
    else
      var path := "/safe/" + TemplateText(loc.networkId) + "/" + TemplateText(loc.safeAddress) + "/new";
      assert OccursAt(path, "new", |path| - 3);
      Some(path)
  }

  /** The calls one invocation of the callback makes: `navigate(navigateTo)` if any, then `setParams(params)`. */
  datatype ParamsUpdate = ParamsUpdate(navigateTo: Option<string>, params: QueryParams)

  /** The callback `useRedirectToProposalWithNewParams` returns, applied to a proposal. */
  function RedirectToProposalWithNewParams(p: Proposal, loc: Location): (r: Option<ParamsUpdate>)
    ensures r.None? <==> p.actions.None? || p.actions.value == []
    ensures r.Some? ==> r.value.params == ProposalParams(p).value && r.value.navigateTo == RedirectPath(loc)
  {
    match ProposalParams(p)
    case None => None
    case Some(params) => Some(ParamsUpdate(RedirectPath(loc), params))
  }

  /** After the redirect the path contains "new": applying the callback there does not navigate. */
  lemma RedirectHappensOnce(p: Proposal, loc: Location)
    requires RedirectToProposalWithNewParams(p, loc).Some?
    requires RedirectToProposalWithNewParams(p, loc).value.navigateTo.Some?
    ensures var path := RedirectToProposalWithNewParams(p, loc).value.navigateTo.value;
      RedirectToProposalWithNewParams(p, loc.(pathname := path)).value.navigateTo.None?
  {
  }

  // ---------------------------------------------------------------------------
  // Separators and round trips

  /** No field of any action contains the separator. The encoder does no escaping, so it relies on this. */
  predicate SeparatorFreeActions(actions: seq<Action>)
  {
    forall i :: 0 <= i < |actions| ==>
      Separator !in actions[i].to && Separator !in actions[i].data && Separator !in actions[i].value
  }

  /** For n separator-free actions, each joined parameter holds exactly n - 1 separators. */
  lemma EncodedSeparatorCount(p: Proposal)
    requires p.actions.Some? && p.actions.value != []
    requires SeparatorFreeActions(p.actions.value)
    ensures var params := ProposalParams(p).value;
      var n := |p.actions.value|;
      && multiset(params[TargetsKey])[Separator] == n - 1
      && multiset(params[CalldatasKey])[Separator] == n - 1
      && multiset(params[ValuesKey])[Separator] == n - 1
  {
    var actions := p.actions.value;
    JoinSeparatorCount(Targets(actions), Separator);
    JoinSeparatorCount(Calldatas(actions), Separator);
    JoinSeparatorCount(Values(actions), Separator);
  }

  /** What a proposal looks like after a trip through the link: empty values read "0", a falsy nonce is dropped. */
  function Normalised(p: Proposal): (q: Proposal)
    requires p.actions.Some?
  {
    var actions := p.actions.value;
    Proposal(
      if IsTruthy(p.nonce) then p.nonce else NoNonce,
      Some(seq(|actions|, i requires 0 <= i < |actions| =>
        actions[i].(value := if actions[i].value == "" then "0" else actions[i].value))))
  }

  /** The nonce the encoder writes is the nonce the decoder reads; a falsy nonce is not written and not read. */
  lemma NonceRoundTrip(p: Proposal)
    requires p.actions.Some? && p.actions.value != []
    ensures NonceFromQuery(Lookup(ProposalParams(p).value, NonceKey)) == if IsTruthy(p.nonce) then p.nonce else NoNonce
  {
    var params := ProposalParams(p).value;
    if IsTruthy(p.nonce) {
      assert Lookup(params, NonceKey) == Some(IntToString(p.nonce.n));
      ParseIntOfIntToString(p.nonce.n);
    } else {
      assert NonceKey !in params;
    }
  }

  /**
   * Decoding the parameters of a proposal with at least one action and no
   * separator in its fields gives the proposal back, up to normalisation:
   * same actions in the same order, empty values read as "0", a nonce of
   * 0, NaN or none read as none.
   */
  lemma RoundTripNormalises(p: Proposal)
    requires p.actions.Some? && p.actions.value != []
    requires SeparatorFreeActions(p.actions.value)
    ensures LoadProposalFromQuery(ProposalParams(p).value) == Loaded(Normalised(p))
  {
    var actions := p.actions.value;
    var params := ProposalParams(p).value;
    assert SeparatorFree(Targets(actions), Separator);
    assert SeparatorFree(Calldatas(actions), Separator);
    assert SeparatorFree(Values(actions), Separator);
    SplitJoin(Targets(actions), Separator);
    SplitJoin(Calldatas(actions), Separator);
    SplitJoin(Values(actions), Separator);
    NonceRoundTrip(p);
    var r := LoadProposalFromQuery(params);
    assert r.Loaded?;
    var decoded := r.proposal.actions.value;
    var expected := Normalised(p).actions.value;
    assert |decoded| == |expected|;
    forall i | 0 <= i < |decoded| ensures decoded[i] == expected[i] {
      assert Split(params[TargetsKey], Separator)[i] == actions[i].to;
      assert Split(params[CalldatasKey], Separator)[i] == actions[i].data;
      assert Split(params[ValuesKey], Separator)[i] == actions[i].value;
    }
    assert decoded == expected;
    assert r.proposal.nonce == Normalised(p).nonce;
  }

  /**
   * The round trip is exact when, besides having at least one action and no
   * separator in any field, every value is non-empty and the nonce is absent
   * or a non-zero integer.
   */
  lemma RoundTrip(p: Proposal)
    requires p.actions.Some? && p.actions.value != []
    requires SeparatorFreeActions(p.actions.value)
    requires forall i :: 0 <= i < |p.actions.value| ==> p.actions.value[i].value != ""
    requires p.nonce.NoNonce? || (p.nonce.Num? && p.nonce.n != 0)
    ensures LoadProposalFromQuery(ProposalParams(p).value) == Loaded(p)
  {
    RoundTripNormalises(p);
    var actions := p.actions.value;
    var normal := Normalised(p).actions.value;
    assert |normal| == |actions|;
    assert forall i :: 0 <= i < |actions| ==> normal[i] == actions[i];
    assert normal == actions;
  }

  /** A nonce of 0 does not survive the link: the encoder tests its truthiness and leaves it out. */
  lemma ZeroNonceIsDropped(p: Proposal)
    requires p.actions.Some? && p.actions.value != []
    requires SeparatorFreeActions(p.actions.value)
    requires p.nonce == Num(0)
    ensures LoadProposalFromQuery(ProposalParams(p).value).Loaded?
    ensures LoadProposalFromQuery(ProposalParams(p).value).proposal.nonce == NoNonce
  {
    RoundTripNormalises(p);
  }

  /** Proposals whose every action passes the grammars (data read as bytes) survive the link exactly. */
  lemma WellFormedRoundTrip(p: Proposal)
    requires p.actions.Some? && p.actions.value != []
    requires forall i :: 0 <= i < |p.actions.value| ==> WellFormedAction(p.actions.value[i])
    requires p.nonce.NoNonce? || (p.nonce.Num? && p.nonce.n != 0)
    ensures LoadProposalFromQuery(ProposalParams(p).value) == Loaded(p)
  {
    forall i | 0 <= i < |p.actions.value|
      ensures Separator !in p.actions.value[i].to && Separator !in p.actions.value[i].data
      ensures Separator !in p.actions.value[i].value && p.actions.value[i].value != ""
    {
      WellFormedActionFields(p.actions.value[i]);
    }
    RoundTrip(p);
  }

  /**
   * Proposals whose every action passes the schema, with the data grammar as
   * written (any ASCII letters and digits) and `to` read as an address shape,
   * also survive the link exactly.
   */
  lemma SchemaValidRoundTrip(p: Proposal)
    requires p.actions.Some? && p.actions.value != []
    requires forall i :: 0 <= i < |p.actions.value| ==> SchemaValidAction(p.actions.value[i])
    requires p.nonce.NoNonce? || (p.nonce.Num? && p.nonce.n != 0)
    ensures LoadProposalFromQuery(ProposalParams(p).value) == Loaded(p)
  {
    forall i | 0 <= i < |p.actions.value|
      ensures Separator !in p.actions.value[i].to && Separator !in p.actions.value[i].data
      ensures Separator !in p.actions.value[i].value && p.actions.value[i].value != ""
    {
      SchemaValidActionFields(p.actions.value[i]);
    }
    RoundTrip(p);
  }

  /**
   * The other direction: re-encoding a decoded proposal reproduces the
   * `targets` and `calldatas` parameters it came from.
   */
  lemma ReencodeReproducesLists(params: QueryParams)
    requires LoadProposalFromQuery(params).Loaded?
    ensures var again := ProposalParams(LoadProposalFromQuery(params).proposal);
      && again.Some?
      && again.value[TargetsKey] == params[TargetsKey]
      && again.value[CalldatasKey] == params[CalldatasKey]
  {
    var actions := LoadProposalFromQuery(params).proposal.actions.value;
    LoadedFieldsJoinBack(params);
    assert Targets(actions) == seq(|actions|, i requires 0 <= i < |actions| => actions[i].to);
    assert Calldatas(actions) == seq(|actions|, i requires 0 <= i < |actions| => actions[i].data);
  }
}
