/**
 * Converting a proposal's values between ETH and wei (`src/utils/etherFormatting.ts`).
 * Only the `value` of each action is rewritten; the conversions themselves
 * are viem's `parseEther` and `formatEther`, which this model takes as
 * parameters and does not interpret. `parseEther` may throw (modelled as
 * `None`); so may `BigInt` on text that is not an integer.
 */
module EtherFormatting {
  import opened Optional
  import opened JsNumbers
  import opened ProposalSchema

  /**
   * `actions.map(action => ({ ...action, value: convert(action.value) }))`,
   * where a conversion that throws (`None`) aborts the whole map.
   */
  function MapValues(actions: seq<Action>, convert: string -> Option<string>): (r: Option<seq<Action>>)
    ensures r.Some? <==> forall i :: 0 <= i < |actions| ==> convert(actions[i].value).Some?
    ensures r.Some? ==> |r.value| == |actions|
    ensures r.Some? ==> forall i :: 0 <= i < |actions| ==>
      && r.value[i].to == actions[i].to
      && r.value[i].data == actions[i].data
      && Some(r.value[i].value) == convert(actions[i].value)
  {
    if actions == [] then Some([])
    else
      match convert(actions[0].value)
      case None => None
      case Some(v) =>
        match MapValues(actions[1..], convert)
        case None =>
          assert forall i :: 1 <= i < |actions| ==> actions[i] == actions[1..][i - 1];
          None
        case Some(rest) =>
          var r := [actions[0].(value := v)] + rest;
          assert forall i :: 1 <= i < |actions| ==> actions[i] == actions[1..][i - 1] && r[i] == rest[i - 1];
          Some(r)
  }

  /** `parseEther(value).toString()`: it throws when `parseEther` does, and otherwise `BigInt` reads the text back as the wei amount. */
  function ToWeiText(parseEther: string -> Option<int>): (toWei: string -> Option<string>)
    ensures forall value :: toWei(value).Some? <==> parseEther(value).Some?
    ensures forall value :: toWei(value).Some? ==> ParseBigInt(toWei(value).value) == parseEther(value)
  {
    ParseBigIntOfEveryIntToString();
    value => match parseEther(value)
             case Some(wei) => Some(IntToString(wei))
             case None => None
  }

  /** `formatEther(BigInt(value))`: it throws exactly when `BigInt` does, and formats the amount `BigInt` reads. */
  function FromWeiText(formatEther: int -> string): (fromWei: string -> Option<string>)
    ensures forall value :: fromWei(value).Some? <==> ParseBigInt(value).Some?
    ensures forall value :: ParseBigInt(value).Some? ==> fromWei(value) == Some(formatEther(ParseBigInt(value).value))
  {
    value => match ParseBigInt(value)
             case Some(wei) => Some(formatEther(wei))
             case None => None
  }

  /**
   * `transformValuesToWei`: every value becomes the decimal text of the wei
   * amount `parseEther` gives; nonce, destinations, data, the absence of the
   * list and its length and order are unchanged. `None` when `parseEther`
   * throws on some value.
   */
  function TransformValuesToWei(p: Proposal, parseEther: string -> Option<int>): (r: Option<Proposal>)
    ensures r.None? <==> p.actions.Some? && exists i :: 0 <= i < |p.actions.value| && parseEther(p.actions.value[i].value).None?
    ensures r.Some? ==>
      && r.value.nonce == p.nonce
      && (r.value.actions.None? <==> p.actions.None?)
      && (p.actions.Some? ==>
            var before, after := p.actions.value, r.value.actions.value;
            && |after| == |before|
            && forall i :: 0 <= i < |before| ==>
                 && after[i].to == before[i].to
                 && after[i].data == before[i].data
                 && after[i].value == IntToString(parseEther(before[i].value).value))
  {
    if p.actions.None? then Some(p)
    else
      match MapValues(p.actions.value, ToWeiText(parseEther))
      case None => None
      case Some(actions) => Some(p.(actions := Some(actions)))
  }

  /**
   * `transformValuesFromWei`: every value is read as an integer number of wei
   * and replaced by `formatEther` of it; everything else is unchanged. `None`
   * when some value is not integer text (`BigInt` throws).
   */
  function TransformValuesFromWei(p: Proposal, formatEther: int -> string): (r: Option<Proposal>)
    ensures r.None? <==> p.actions.Some? && exists i :: 0 <= i < |p.actions.value| && ParseBigInt(p.actions.value[i].value).None?
    ensures r.Some? ==>
      && r.value.nonce == p.nonce
      && (r.value.actions.None? <==> p.actions.None?)
      && (p.actions.Some? ==>
            var before, after := p.actions.value, r.value.actions.value;
            && |after| == |before|
            && forall i :: 0 <= i < |before| ==>
                 && after[i].to == before[i].to
                 && after[i].data == before[i].data
                 && after[i].value == formatEther(ParseBigInt(before[i].value).value))
  {
    if p.actions.None? then Some(p)
    else
      match MapValues(p.actions.value, FromWeiText(formatEther))
      case None => None
      case Some(actions) => Some(p.(actions := Some(actions)))
  }

  /** The wei text written for one value is read back by `BigInt` without loss. */
  lemma WeiTextReadsBack(value: string, parseEther: string -> Option<int>, formatEther: int -> string)
    requires parseEther(value).Some?
    ensures ToWeiText(parseEther)(value) == Some(IntToString(parseEther(value).value))
    ensures FromWeiText(formatEther)(IntToString(parseEther(value).value)) == Some(formatEther(parseEther(value).value))
  {
    ParseBigIntOfIntToString(parseEther(value).value);
  }

  /**
   * Formatting what was just converted to wei never throws, and each value
   * ends up as `formatEther(parseEther(value))`: the integer text written by
   * the first transform is read back exactly by the second. Whether viem's
   * two functions invert each other is not claimed.
   */
  lemma FromWeiAfterToWei(p: Proposal, parseEther: string -> Option<int>, formatEther: int -> string)
    requires TransformValuesToWei(p, parseEther).Some?
    ensures var back := TransformValuesFromWei(TransformValuesToWei(p, parseEther).value, formatEther);
      && back.Some?
      && back.value.nonce == p.nonce
      && (back.value.actions.None? <==> p.actions.None?)
      && (p.actions.Some? ==>
            && |back.value.actions.value| == |p.actions.value|
            && forall i :: 0 <= i < |p.actions.value| ==>
                 back.value.actions.value[i] ==
                   p.actions.value[i].(value := formatEther(parseEther(p.actions.value[i].value).value)))
  {
    if p.actions.Some? {
      var before := p.actions.value;
      var wei := MapValues(before, ToWeiText(parseEther)).value;
      forall i | 0 <= i < |wei|
        ensures FromWeiText(formatEther)(wei[i].value) == Some(formatEther(parseEther(before[i].value).value))
      {
        assert ToWeiText(parseEther)(before[i].value).Some?;
        WeiTextReadsBack(before[i].value, parseEther, formatEther);
      }
      var after := MapValues(wei, FromWeiText(formatEther));
      assert after.Some?;
      forall i | 0 <= i < |before|
        ensures after.value[i] == before[i].(value := formatEther(parseEther(before[i].value).value))
      {
      }
    }
  }
}
