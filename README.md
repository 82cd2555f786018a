# smol-safe proposal logic in Dafny

A model of the pure logic inside smol-safe, a browser front end for Safe
multisig accounts. It covers these parts:

- **The proposal record and its form grammars** (`ProposalSchema`). A
  proposal is a list of actions plus an optional nonce. Each action has a
  destination, an ETH value and calldata. The module also holds the value
  and data grammars and the defaults a fresh form starts from.
- **The query-string codec.** `SetParams` writes a proposal into the URL:
  the `targets`, `calldatas` and `values` parameters are `|`-joined lists,
  and `nonce` is added when the nonce is truthy. `LoadProposal` reads a
  proposal back out. The round-trip laws between the two are proved.
- **Proposal updates** (`UpdateProposal`): `addAction` and `replace`.
- **The ETH/wei value transforms** (`EtherFormatting`). viem's `parseEther`
  and `formatEther` are parameters of these functions and are not
  interpreted.
- **The proposal view** (`NewSafeProposal`). It decides whether the current
  account has approved, whether "Sign and Execute" is offered, which
  buttons are disabled, and what request goes to the Safe SDK.
- **Safe-creation validation** (`CreateSafe`): the threshold bounds.

Two helper modules give the JavaScript built-ins these parts rely on.
`Text` has `split`, `join` and `includes`. `JsNumbers` has `parseInt`,
`BigInt(string)` and integer `toString`.

Three behaviours of the code are easy to miss:

- **Over-approval.** `determineIfCanExecute` offers "Sign and Execute"
  only when `remainingNeeded === 0`, or when it is 1 and the account has
  not approved. More approvals than the threshold therefore disable
  "Sign and Execute". See `NewSafeProposal.OverApprovalDisablesExecution`.
- **The `values` length check.** The decoder compares the length of
  `values` with that of `targets` whenever the `values` parameter is
  present. An empty `values` parameter splits to `[""]`, a list of length
  one, so it is length-checked too. It passes only when there is exactly
  one target.
- **The data grammar.** The schema accepts any ASCII letters and digits
  after `0x`, not only hexadecimal digits. See the Findings section.

## Model

| member | source | states |
|---|---|---|
| `Text.Split` | src/hooks/useLoadProposalFromQuery.ts:17-19 | splitting on `\|` yields at least one piece, and no piece contains the separator |
| `Text.Join` | src/hooks/useSetParamsFromQuery.ts:25 | no pieces join to ""; otherwise the text is as long as the pieces together plus one separator between each two |
| `Text.Includes` | src/hooks/useSetParamsFromQuery.ts:40 | found exactly when the text occurs in the path at some position: nothing longer than the path is found, and an occurrence anywhere, the prefix and the suffix included, is |
| `Text.JoinSplit` | src/hooks/useLoadProposalFromQuery.ts:17-18 | re-joining the pieces of a split gives back the original parameter text |
| `Text.SplitJoin` | src/hooks/useSetParamsFromQuery.ts:23-31 | splitting the `\|`-join of one or more separator-free strings returns exactly those strings, in order |
| `Text.JoinSeparatorCount` | src/hooks/useSetParamsFromQuery.ts:22-31 | joining n separator-free strings puts exactly n-1 separators into the result |
| `JsNumbers.TrimStart` | src/hooks/useLoadProposalFromQuery.ts:43 | the result is a suffix of the input, everything dropped is white space, and the result does not start with white space |
| `JsNumbers.TrimEnd` | src/utils/etherFormatting.ts:19 | the result is a prefix of the input, everything dropped is white space, and the result does not end with white space |
| `JsNumbers.DigitPrefix` | src/hooks/useLoadProposalFromQuery.ts:43 | returns the longest prefix made only of digits in the radix; the next character, if any, is not such a digit |
| `JsNumbers.ParseIntSkipsWhiteSpace` | src/hooks/useLoadProposalFromQuery.ts:43 | any leading white-space character, for every text after it, leaves the parsed nonce unchanged |
| `JsNumbers.DigitPrefixStops` | src/hooks/useLoadProposalFromQuery.ts:43 | for digits followed by a non-digit (or nothing), the run `parseInt` reads is exactly those digits |
| `JsNumbers.ParseInt` | src/hooks/useLoadProposalFromQuery.ts:43 | a number is read only when the first non-white-space character is a digit, or a sign followed by a digit; a negative result needs a leading minus |
| `JsNumbers.ParseBigInt` | src/utils/etherFormatting.ts:19 | blank text reads as 0; any other text that is read ends in a digit after trimming, so nothing may follow the number; a negative result needs a leading minus |
| `JsNumbers.IntToString` | src/hooks/useSetParamsFromQuery.ts:34 | the text starts with a minus iff the number is negative, and the digits after it denote the number's absolute value, with no leading zero unless the number is 0 |
| `JsNumbers.NatToString` | src/hooks/useSetParamsFromQuery.ts:34 | the decimal text of n is one or more digits, and those digits denote n, with no leading zero unless n is 0 |
| `JsNumbers.ParseBigIntOfEveryIntToString` | src/utils/etherFormatting.ts:9 | `BigInt` reads back the `toString` text of every integer |
| `JsNumbers.ParseIntOfIntToString` | src/hooks/useLoadProposalFromQuery.ts:43 | `parseInt` reads back every integer that `toString` writes, including negative ones |
| `JsNumbers.ParseIntStopsAtNonDigit` | src/hooks/useLoadProposalFromQuery.ts:43 | `parseInt("12abc")` is 12: trailing text after the digits is ignored |
| `JsNumbers.ParseIntSkipsSpaceAndSign` | src/hooks/useLoadProposalFromQuery.ts:43 | `parseInt(" -7")` is -7 |
| `JsNumbers.ParseIntReadsHexPrefix` | src/hooks/useLoadProposalFromQuery.ts:43 | `parseInt("0x1f")` is 31, because a `0x` nonce is read as hexadecimal |
| `JsNumbers.ParseIntNaN` | src/hooks/useLoadProposalFromQuery.ts:43 | text without leading digits, and the empty string, give NaN |
| `JsNumbers.ParseBigIntOfIntToString` | src/utils/etherFormatting.ts:19 | `BigInt` reads back every integer that `toString` writes, without throwing |
| `ProposalSchema.IsEthAmount` | src/schemas/proposal.ts:12 | an accepted value is non-empty and starts and ends with a decimal digit |
| `ProposalSchema.DecimalDigitIsRadixDigit` | src/schemas/proposal.ts:12 | the regex class `[0-9]` is the set of characters `parseInt` reads as base-10 digits |
| `ProposalSchema.EthAmountCharacters` | src/schemas/proposal.ts:9-15 | the value regex accepts exactly the non-empty strings of digits with at most one dot, where the dot is neither first nor last |
| `ProposalSchema.EthAmountHasShape` | src/schemas/proposal.ts:12 | every accepted value has that character shape |
| `ProposalSchema.ShapeIsEthAmount` | src/schemas/proposal.ts:12 | every string of that shape is accepted |
| `ProposalSchema.DigitRunHasShape` | src/schemas/proposal.ts:12 | an integer amount (digits only) is accepted |
| `ProposalSchema.DottedHasShape` | src/schemas/proposal.ts:12 | digits, one dot, then digits is accepted |
| `ProposalSchema.EthAmountExamples` | src/schemas/proposal.ts:13 | "0", "1" and "0.23", the examples in the schema's message, are accepted |
| `ProposalSchema.EthAmountRejects` | src/schemas/proposal.ts:12 | "-1", ".5", "1." and "" are rejected: no sign, no leading or trailing dot, no empty value |
| `ProposalSchema.IsAlphanumericPairs` | src/schemas/proposal.ts:19 | the repeated group of two characters only matches text of even length |
| `ProposalSchema.IsCalldata` | src/schemas/proposal.ts:19 | accepted data starts with `0x` and has an even number of characters |
| `ProposalSchema.AlphanumericPairsCharacters` | src/schemas/proposal.ts:19 | the repeated group of two letters or digits matches exactly the even-length strings of ASCII letters and digits |
| `ProposalSchema.CalldataCharacters` | src/schemas/proposal.ts:16-22 | data is accepted iff it is `0x` followed by an even number of ASCII letters and digits |
| `ProposalSchema.EmptyCalldata` | src/schemas/proposal.ts:19 | `0x` alone is valid data |
| `ProposalSchema.CalldataGrammarAcceptsNonHex` | src/schemas/proposal.ts:19-20 | the data grammar as written accepts "0xzz", which denotes no bytes |
| `ProposalSchema.HexDigit` | src/schemas/proposal.ts:19-20 | each value below 16 gets a hex digit that reads back as that value and is not an upper-case letter |
| `ProposalSchema.HexEncode` | src/schemas/proposal.ts:19-20 | a byte string encodes to text twice its length, made of hex pairs |
| `ProposalSchema.HexDecode` | src/schemas/proposal.ts:19-20 | hex-pair text decodes to half as many bytes as it has characters |
| `ProposalSchema.ToLower` | src/schemas/proposal.ts:19-20 | lower-casing keeps the length of the text |
| `ProposalSchema.HexDecodeEncode` | src/schemas/proposal.ts:19-20 | decoding inverts encoding: the hex text of a byte string decodes back to it |
| `ProposalSchema.LowerHexTextIsUnique` | src/schemas/proposal.ts:19-20 | a lower-case hex text is the text `HexEncode` writes for the bytes it denotes, so each byte string has exactly one lower-case hex text |
| `ProposalSchema.HexEncodeDecode` | src/schemas/proposal.ts:19-20 | encoding inverts decoding up to letter case |
| `ProposalSchema.HexDigitOfValue` | src/schemas/proposal.ts:19-20 | re-encoding the value of a hex digit gives that digit in lower case |
| `ProposalSchema.HexCalldataDenotesBytes` | src/schemas/proposal.ts:19-20 | corrected grammar: every accepted data string denotes a byte string, and every byte string has an accepted `0x` text that decodes back to it |
| `ProposalSchema.HexPairsAreAlphanumericPairs` | src/schemas/proposal.ts:19 | the corrected grammar only narrows the grammar as written |
| `ProposalSchema.IsAddressShaped` | src/schemas/proposal.ts:8 | the `to` check, read as the address shape (the check's definition is not part of this model): text of that shape is hex data that denotes exactly 20 bytes |
| `ProposalSchema.HexDigitsArePairs` | src/schemas/proposal.ts:8 | an even number of hex digits is a run of hex pairs, as the address shape needs |
| `ProposalSchema.SchemaValidActionFields` | src/schemas/proposal.ts:4-25 | an action that passes the schema, with `to` read as an address shape, has no `\|` in any field and a non-empty value, so the encoder's unescaped join is safe for it |
| `ProposalSchema.WellFormedActionFields` | src/schemas/proposal.ts:4-25 | an action that passes the corrected grammar also passes the schema (with `to` read as an address shape), so the same holds for it |
| `ProposalSchema.IsTruthy` | src/hooks/useSetParamsFromQuery.ts:32 | a nonce is truthy unless it is absent, 0 or NaN |
| `ProposalSchema.ActionsOrEmpty` | src/hooks/useUpdateProposalViaQuery.ts:23 | the proposal's actions when it has a list, and the empty list when the proposal or its list is absent |
| `ProposalSchema.DefaultsSatisfyGrammar` | src/schemas/proposal.ts:31-40 | the default value "0" and data "0x" pass their grammars; the default proposal's nonce is absent (`null`) and its actions are exactly the default action |
| `LoadProposal.ValueAt` | src/hooks/useLoadProposalFromQuery.ts:36 | a decoded value is never empty; a present, non-empty `values` entry is taken as it is, and otherwise the value is "0" |
| `LoadProposal.NonceFromQuery` | src/hooks/useLoadProposalFromQuery.ts:43 | a nonce is carried iff the parameter is present and non-empty; it is NaN iff `parseInt` finds no digits, and otherwise it is the parsed integer |
| `LoadProposal.LoadProposalFromQuery` | src/hooks/useLoadProposalFromQuery.ts:16-47 | no proposal without `targets` or `calldatas`; abort on any length mismatch between targets, calldatas and present values; otherwise one action per target (at least one), with `to`/`data` taken index by index, the value from `values` or "0", and the nonce from `NonceFromQuery` |
| `LoadProposal.LoadedFieldsJoinBack` | src/hooks/useLoadProposalFromQuery.ts:33-37 | a loaded proposal keeps all of `targets` and `calldatas`: re-joining its fields gives the parameters back |
| `LoadProposal.MismatchedLengthsAbort` | src/hooks/useLoadProposalFromQuery.ts:25-31 | two targets with one calldata abort instead of producing a partial proposal |
| `LoadProposal.MissingValuesDefaultToZero` | src/hooks/useLoadProposalFromQuery.ts:36 | without `values` and `nonce`, every value is "0" and there is no nonce |
| `SetParams.Targets` | src/hooks/useSetParamsFromQuery.ts:23-25 | one entry per action, in order, each the action's `to` |
| `SetParams.Calldatas` | src/hooks/useSetParamsFromQuery.ts:26-28 | one entry per action, in order, each the action's `data` |
| `SetParams.Values` | src/hooks/useSetParamsFromQuery.ts:29-31 | one entry per action, in order, each the action's `value` |
| `SetParams.ProposalParams` | src/hooks/useSetParamsFromQuery.ts:18-37 | no update for absent or empty actions; otherwise exactly the keys targets, calldatas and values, plus nonce iff the nonce is truthy; each list is the `\|`-join of that field in action order |
| `SetParams.RedirectPath` | src/hooks/useSetParamsFromQuery.ts:40-46 | redirects iff the path lacks "new"; the target is exactly `/safe/{networkId}/{safeAddress}/new`, with an absent route parameter printed as "undefined", and it contains "new" itself |
| `SetParams.RedirectToProposalWithNewParams` | src/hooks/useSetParamsFromQuery.ts:17-48 | the callback does nothing for a proposal without actions; otherwise it navigates as `RedirectPath` says and sets the encoded parameters |
| `SetParams.RedirectHappensOnce` | src/hooks/useSetParamsFromQuery.ts:40-46 | after the redirect, calling the callback again from the new path does not navigate |
| `SetParams.EncodedSeparatorCount` | src/hooks/useSetParamsFromQuery.ts:22-31 | for n actions with no `\|` in any field, each joined parameter holds exactly n-1 separators |
| `SetParams.NonceRoundTrip` | src/hooks/useSetParamsFromQuery.ts:32-36 | a truthy nonce is written and read back unchanged; 0, NaN or no nonce is not written and reads back as none |
| `SetParams.RoundTripNormalises` | src/hooks/useSetParamsFromQuery.ts:22-37 | for at least one action and no `\|` in any field, decoding the encoding gives the same actions in the same order, with empty values read as "0" and a falsy nonce read as none |
| `SetParams.RoundTrip` | src/hooks/useSetParamsFromQuery.ts:22-37 | decode(encode(p)) is exactly p when p has an action, no field holds `\|`, every value is non-empty and the nonce is absent or a non-zero integer |
| `SetParams.ZeroNonceIsDropped` | src/hooks/useSetParamsFromQuery.ts:32 | a nonce of 0 does not survive the link |
| `SetParams.WellFormedRoundTrip` | src/hooks/useSetParamsFromQuery.ts:22-37 | proposals whose actions pass the grammars, with the data read as bytes, survive the link exactly |
| `SetParams.SchemaValidRoundTrip` | src/hooks/useSetParamsFromQuery.ts:22-37 | proposals whose actions pass the schema, data of any letters and digits included and `to` read as an address shape, survive the link exactly |
| `SetParams.ReencodeReproducesLists` | src/hooks/useSetParamsFromQuery.ts:22-28 | re-encoding a decoded proposal reproduces the `targets` and `calldatas` it was decoded from |
| `UpdateProposal.AddAction` | src/hooks/useUpdateProposalViaQuery.ts:21-25 | one more action than before (absent actions count as none); the old actions are an unchanged prefix, the new action comes last, and the nonce is carried over |
| `UpdateProposal.AddActionUpdate` | src/hooks/useUpdateProposalViaQuery.ts:20-28 | `addAction` always produces a parameter update: the encoding of the extended proposal, and the redirect to the new-proposal page when the path lacks "new" |
| `UpdateProposal.ReplaceUpdate` | src/hooks/useUpdateProposalViaQuery.ts:30-33 | `replace` hands the proposal to the encoder unchanged; no update when it has no actions, otherwise its encoding and the redirect to the new-proposal page when the path lacks "new" |
| `UpdateProposal.AddedActionSurvivesLink` | src/hooks/useUpdateProposalViaQuery.ts:22-25 | reading back the link `addAction` writes gives the old actions followed by the new one, and a truthy nonce unchanged |
| `EtherFormatting.ToWeiText` | src/utils/etherFormatting.ts:9 | throws exactly when `parseEther` does; otherwise `BigInt` reads the text back as the wei amount |
| `EtherFormatting.FromWeiText` | src/utils/etherFormatting.ts:19 | throws exactly when `BigInt` does; otherwise it is `formatEther` of the amount `BigInt` reads |
| `EtherFormatting.MapValues` | src/utils/etherFormatting.ts:7-10 | succeeds iff every conversion succeeds; then it keeps the length, `to` and `data` at each index and sets the value to the conversion of the value at the same index |
| `EtherFormatting.TransformValuesToWei` | src/utils/etherFormatting.ts:4-12 | the nonce and the absence or length of the actions are kept, along with each `to` and `data`; each value becomes the decimal text of `parseEther(value)`; it fails iff `parseEther` throws on some value |
| `EtherFormatting.TransformValuesFromWei` | src/utils/etherFormatting.ts:14-22 | the same structure is kept; each value becomes `formatEther(BigInt(value))`; it fails iff some value is not integer text |
| `EtherFormatting.WeiTextReadsBack` | src/utils/etherFormatting.ts:9-19 | the wei text written for one value is read back by `BigInt` without loss |
| `EtherFormatting.FromWeiAfterToWei` | src/utils/etherFormatting.ts:4-22 | converting from wei right after converting to wei never throws, and maps each value to `formatEther(parseEther(value))` with all else unchanged |
| `NewSafeProposal.DetermineIfCanExecute` | src/app/NewSafeProposal.tsx:215-238 | sign-and-execute is offered iff the approvals equal the threshold exactly, or the caller has not approved and their approval is the single missing one |
| `NewSafeProposal.CanExecuteByRemaining` | src/app/NewSafeProposal.tsx:224-237 | remaining 0 gives true; remaining 1 gives true iff the caller has not approved; remaining 2 or more, or below 0, gives false |
| `NewSafeProposal.CanExecuteMeetsThreshold` | src/app/NewSafeProposal.tsx:224-237 | whenever the path is offered, the approvals plus the caller's fresh approval reach the threshold |
| `NewSafeProposal.HasApproved` | src/app/NewSafeProposal.tsx:303 | an absent or empty address has not approved; a present, non-empty one has approved iff it is among the approvers |
| `NewSafeProposal.ThresholdOrZero` | src/app/NewSafeProposal.tsx:310 | a missing threshold reads as 0; a known threshold reads as itself, since `0 \|\| 0` is 0 too |
| `NewSafeProposal.ViewProposalButtons` | src/app/NewSafeProposal.tsx:303-358 | "Sign" is disabled iff the account is defined, non-empty and among the approvers; "Sign and Execute" is enabled iff the approvals equal the threshold (missing = 0), or "Sign" is enabled and one approval is missing |
| `NewSafeProposal.MissingThresholdEnablesExecute` | src/app/NewSafeProposal.tsx:310 | with no threshold and no approvers, "Sign and Execute" is enabled |
| `NewSafeProposal.ApprovedOneShortDisablesBoth` | src/app/NewSafeProposal.tsx:231-237 | an account that approved while one approval is missing has both buttons disabled |
| `NewSafeProposal.LastApprovalKeepsExecuteEnabled` | src/app/NewSafeProposal.tsx:303-311 | when the account's approval is the last one missing, both buttons are enabled; after it is recorded, only "Sign and Execute" stays enabled |
| `NewSafeProposal.OverApprovalDisablesExecution` | src/app/NewSafeProposal.tsx:226 | more approvals than the threshold disable "Sign and Execute" |
| `NewSafeProposal.ApprovalScenarios` | src/app/NewSafeProposal.tsx:303-311 | threshold 2 with one other approver enables both buttons; threshold 2 with the account among two approvers enables only execution; threshold 3 with one approver enables only "Sign" |
| `NewSafeProposal.CreateSafeTransactionRequest` | src/app/NewSafeProposal.tsx:90-97 | no request when the actions are absent; otherwise the actions unchanged, and a nonce option present iff the nonce is truthy, equal to it |
| `NewSafeProposal.LinkPreservesTransactionRequest` | src/app/NewSafeProposal.tsx:94-97 | for any nonce, a proposal shared by link yields the same SDK request as the original |
| `CreateSafe.SafeArgumentErrors` | src/app/CreateSafe.tsx:17-28 | the errors are empty iff 1 <= threshold <= #addresses; the only key ever present is `threshold`; each message names the bound that was broken |
| `CreateSafe.ValidateSafeArguments` | src/app/CreateSafe.tsx:17-28 | the step-by-step field assignments produce exactly `SafeArgumentErrors` |
| `CreateSafe.InitialValuesAreValid` | src/app/CreateSafe.tsx:83-86 | the initial form values (threshold 1, one address) pass validation |

## Left out

- Safe SDK calls are foreign and cannot be seen: `Safe.create`, `createTransaction`, `getTransactionHash`, `approveTransactionHash`, `executeTransaction`, `getOwnersWhoApprovedTx` and `SafeFactory.deploySafe`. The approvers and the threshold are inputs. Only the request handed to `createTransaction` is modelled.
- Wallet and network plumbing is asynchronous I/O and is left out. This covers provider events, account requests, chain switching, the `ether.actor` fetch in `DataActionPreview` and the legacy DOM script `src/app.ts`.
- React state, effects, Formik/yup machinery, rendering and routing are left out. Each hook is modelled by the pure value it computes. `navigate` and `setParams` are modelled by the arguments they receive (`SetParams.ParamsUpdate`).
- URL search parameters are a map from name to decoded value. Percent-encoding and repeated names are not modelled.
- viem's `isAddress`, `parseEther` and `formatEther` are library code. The two conversions are function parameters, and their round trip is not claimed. `ProposalSchema.IsAddressShaped` checks only the `0x` plus 40 hex digits shape, not EIP-55 checksum casing.
- `ProposalSchema.IsAddressShaped`: the schema's `to` check, `yupAddress` (src/schemas/proposal.ts:2, 8), is imported from src/utils/validators.ts, which does not define it (it exports only `validateAddress` and `validateETH`). The model assumes it accepts at most the `0x` plus 40 hex digits shape, as viem's `isAddress` does. `SchemaValidActionFields`, `WellFormedActionFields` and `SchemaValidRoundTrip` rest on that assumption for the `to` field.
- JavaScript numbers are unbounded integers here. This leaves out the precision lost above 2^53 and exponent notation from `toString` at 1e21 and above. Fractional nonces are also left out.
- `CreateSafe.ValidateSafeArguments`: the threshold is an integer. A non-numeric threshold from the form (NaN, which passes both comparisons in JavaScript) is not modelled.
- `EtherFormatting.TransformValuesToWei`: a value `parseEther` rejects is `None` from the parameter. Which inputs viem rejects is not modelled.
- `EditProposal.onSubmit` (src/app/NewSafeProposal.tsx:374-384) is left out. It stores `transformValuesToWei(result)`, but writes the pre-edit `proposal` to the link rather than the submitted `result`. It does so through a hook name, `useSetParamsFromQuery`, that src/hooks/useSetParamsFromQuery.ts does not export, and `proposal` is missing from its dependency list, so even that value can be stale.
- The static chain and explorer tables only hold data and are left out.

## Findings

| source | as written | input that shows it | evidently intended | confidence | as-written member | corrected member |
|---|---|---|---|---|---|---|
| src/schemas/proposal.ts:19 | data passes if it is `0x` followed by pairs of any ASCII letters or digits | `"0xzz"` is accepted but denotes no bytes | `0x` followed by pairs of hexadecimal digits; the schema's own message says "hex format" | high, not executed | `ProposalSchema.CalldataGrammarAcceptsNonHex` | `ProposalSchema.HexCalldataDenotesBytes` |
