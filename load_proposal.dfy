/**
 * Loading a proposal from the URL's search parameters
 * (`src/hooks/useLoadProposalFromQuery.ts`): `targets`, `calldatas` and
 * `values` are `|`-separated lists, index i of each giving action i, and
 * `nonce` is read with `parseInt`. The React state that stores the result is
 * left out: the decode is a function of the parameters.
 */
module LoadProposal {
  import opened Optional
  import opened Text
  import opened JsNumbers
  import opened ProposalSchema

  /** `queryKeys`: the names of the four search parameters. */
  const TargetsKey := "targets"
  const CalldatasKey := "calldatas"
  const ValuesKey := "values"
  const NonceKey := "nonce"

  /** The character the lists are joined with. */
  const Separator := '|'

  /** The search parameters, one value per name (`params.get(name)` is the value when the name is present). */
  type QueryParams = map<string, string>

  /**
   * What the effect does with the parameters: nothing when `targets` or
   * `calldatas` is missing, nothing but a log line when the list lengths
   * disagree, otherwise it stores the decoded proposal.
   */
  datatype LoadOutcome = NotPresent | InvalidLengths | Loaded(proposal: Proposal)

  /** `(values && values[index]) || "0"`: a missing or empty value reads as "0". */
  function ValueAt(values: Option<seq<string>>, index: nat): (value: string)
    ensures value != ""
    ensures value == "0" || (values.Some? && index < |values.value| && value == values.value[index])
    ensures values.Some? && index < |values.value| && values.value[index] != "" ==> value == values.value[index]
  {
    if values.Some? && index < |values.value| && values.value[index] != "" then values.value[index] else "0"
  }

  /**
   * `nonce ? { nonce: parseInt(nonce) } : {}`: a proposal carries a nonce
   * exactly when the parameter is present and not empty, and that nonce is
   * whatever `parseInt` makes of it, NaN included.
   */
  function NonceFromQuery(nonce: Option<string>): (r: Nonce)
    ensures r.NoNonce? <==> nonce.None? || nonce.value == ""
    ensures r.NaN? <==> nonce.Some? && nonce.value != "" && ParseInt(nonce.value).None?
    ensures r.Num? ==> nonce.Some? && ParseInt(nonce.value) == Some(r.n)
  {
    if nonce.Some? && nonce.value != "" then
      match ParseInt(nonce.value)
      case Some(n) => Num(n)
      case None => NaN
    else NoNonce
  }

  function Lookup(params: QueryParams, key: string): Option<string>
  {
    if key in params then Some(params[key]) else None
  }

  /** The decoding the effect of `useLoadProposalFromQuery` performs. */
  function LoadProposalFromQuery(params: QueryParams): (r: LoadOutcome)
    ensures r.NotPresent? <==> TargetsKey !in params || CalldatasKey !in params
    ensures r.InvalidLengths? <==>
      && TargetsKey in params && CalldatasKey in params
      && var targets := Split(params[TargetsKey], Separator);
         || |targets| != |Split(params[CalldatasKey], Separator)|
         || (ValuesKey in params && |Split(params[ValuesKey], Separator)| != |targets|)
    ensures r.Loaded? ==>
      && r.proposal.actions.Some?
      && var actions := r.proposal.actions.value;
         var targets := Split(params[TargetsKey], Separator);
         var calldatas := Split(params[CalldatasKey], Separator);
         && 1 <= |actions| == |targets| == |calldatas|
         && (forall i :: 0 <= i < |actions| ==> actions[i].to == targets[i] && actions[i].data == calldatas[i])
         && (forall i :: 0 <= i < |actions| ==>
               actions[i].value == (if ValuesKey in params && Split(params[ValuesKey], Separator)[i] != ""
                                    then Split(params[ValuesKey], Separator)[i] else "0"))
    ensures r.Loaded? ==> r.proposal.nonce == NonceFromQuery(Lookup(params, NonceKey))
  {
    if TargetsKey !in params || CalldatasKey !in params then NotPresent
    else
      var targets := Split(params[TargetsKey], Separator);
      var calldatas := Split(params[CalldatasKey], Separator);
      var values := if ValuesKey in params then Some(Split(params[ValuesKey], Separator)) else None;
      if |targets| != |calldatas| || (values.Some? && |values.value| != 0 && |values.value| != |targets|) then
        InvalidLengths
      else
        var actions := seq(|targets|, i requires 0 <= i < |targets| =>
          Action(targets[i], ValueAt(values, i), calldatas[i]));
        Loaded(Proposal(NonceFromQuery(Lookup(params, NonceKey)), Some(actions)))
  }

  /**
   * Decoding loses nothing of the `targets` and `calldatas` parameters:
   * joining the decoded fields gives the parameters back.
   */
  lemma LoadedFieldsJoinBack(params: QueryParams)
    requires LoadProposalFromQuery(params).Loaded?
    ensures var actions := LoadProposalFromQuery(params).proposal.actions.value;
      && Join(seq(|actions|, i requires 0 <= i < |actions| => actions[i].to), Separator) == params[TargetsKey]
      && Join(seq(|actions|, i requires 0 <= i < |actions| => actions[i].data), Separator) == params[CalldatasKey]
  {
    var actions := LoadProposalFromQuery(params).proposal.actions.value;
    var tos := seq(|actions|, i requires 0 <= i < |actions| => actions[i].to);
    var datas := seq(|actions|, i requires 0 <= i < |actions| => actions[i].data);
    assert tos == Split(params[TargetsKey], Separator);
    assert datas == Split(params[CalldatasKey], Separator);
    JoinSplit(params[TargetsKey], Separator);
    JoinSplit(params[CalldatasKey], Separator);
  }

  /** Two targets and one calldata: decoding aborts rather than build a partial proposal. */
  lemma MismatchedLengthsAbort()
    ensures LoadProposalFromQuery(map[TargetsKey := "0xA|0xB", CalldatasKey := "0x"]).InvalidLengths?
  {
    var t := "0xA|0xB";
    assert t[3] == '|';
    assert FirstIndex(t, '|') == 3;
    assert t[..3] == "0xA" && t[4..] == "0xB";
    assert Split(t, '|') == ["0xA", "0xB"];
  }

  /** Without `values` and `nonce`, every value defaults to "0" and there is no nonce. */
  lemma MissingValuesDefaultToZero(params: QueryParams)
    requires ValuesKey !in params && NonceKey !in params
    requires LoadProposalFromQuery(params).Loaded?
    ensures var p := LoadProposalFromQuery(params).proposal;
      && p.nonce == NoNonce
      && forall i :: 0 <= i < |p.actions.value| ==> p.actions.value[i].value == "0"
  {
  }
}
