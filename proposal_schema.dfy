/**
 * The proposal record (`src/schemas/proposal.ts`): a list of actions, each a
 * call with a destination, an ETH value and calldata, plus an optional
 * nonce; the grammars the form schema imposes on value and data; and the
 * defaults a fresh form starts from.
 */
module ProposalSchema {
  import opened Optional
  import opened JsNumbers
  import Text

  /** One call of a proposal. All three fields are kept as the text the form and the link carry. */
  datatype Action = Action(to: string, value: string, data: string)

  /**
   * The proposal's `nonce: number | null | undefined`. Null and undefined are
   * both `NoNonce` (every use tests truthiness or copies the field); `NaN` is
   * what `parseInt` yields for text without digits. Fractional numbers are
   * not modelled.
   */
  datatype Nonce = NoNonce | Num(n: int) | NaN

  /** `actions` is optional in the schema: `None` is an absent list, distinct from an empty one. */
  datatype Proposal = Proposal(nonce: Nonce, actions: Option<seq<Action>>)

  /** JavaScript truthiness of the nonce: `undefined`, `0` and `NaN` are the falsy ones. */
  predicate IsTruthy(nonce: Nonce): (truthy: bool)
    ensures truthy <==> nonce != NoNonce && nonce != NaN && nonce != Num(0)
  {
    nonce.Num? && nonce.n != 0
  }

  /** The actions of a proposal, an absent list read as empty (`proposal?.actions || []`). */
  function ActionsOrEmpty(p: Option<Proposal>): (actions: seq<Action>)
    ensures p.None? || p.value.actions.None? ==> actions == []
    ensures p.Some? && p.value.actions.Some? ==> actions == p.value.actions.value
  {
    if p.Some? && p.value.actions.Some? then p.value.actions.value else []
  }

  // ---------------------------------------------------------------------------
  // The value grammar  /^[0-9]+(\.[0-9]+)?$/

  predicate IsDecimalDigit(c: char)
  {
    '0' <= c <= '9'
  }

  /** The regex class `[0-9]` is the set of decimal digits `parseInt` reads. */
  lemma DecimalDigitIsRadixDigit(c: char)
    ensures IsDecimalDigit(c) <==> IsRadixDigit(c, 10)
  {
  }

  /** `[0-9]+`. */
  predicate IsDigitRun(s: string)
  {
    |s| > 0 && forall i :: 0 <= i < |s| ==> IsDecimalDigit(s[i])
  }

  /**
   * A value the schema accepts: one or more digits, optionally a dot and one
   * or more digits. It starts and ends with a digit.
   */
  function IsEthAmount(s: string): (accepted: bool)
    ensures accepted ==> |s| > 0 && IsDecimalDigit(s[0]) && IsDecimalDigit(s[|s| - 1])
  {
    || IsDigitRun(s)
    || exists i | 0 <= i < |s| :: s[i] == '.' && IsDigitRun(s[..i]) && IsDigitRun(s[i + 1..])
  }

  /**
   * The value grammar by the characters it allows: a non-empty string of
   * digits and at most one dot, neither starting nor ending with the dot.
   */
  predicate HasEthAmountShape(s: string)
  {
    && |s| > 0
    && (forall i :: 0 <= i < |s| ==> IsDecimalDigit(s[i]) || s[i] == '.')
    && multiset(s)['.'] <= 1
    && s[0] != '.' && s[|s| - 1] != '.'
  }

  /** A run of digits has the shape. */
  lemma DigitRunHasShape(s: string)
    requires IsDigitRun(s)
    ensures HasEthAmountShape(s)
  {
    assert '.' !in s;
  }

  /** Two runs of digits around one dot have the shape. */
  lemma DottedHasShape(left: string, right: string)
    requires IsDigitRun(left) && IsDigitRun(right)
    ensures HasEthAmountShape(left + ['.'] + right)
  {
    var s := left + ['.'] + right;
    assert '.' !in left && '.' !in right;
    assert multiset(s) == multiset(left) + multiset(['.']) + multiset(right);
    forall i | 0 <= i < |s| ensures IsDecimalDigit(s[i]) || s[i] == '.' {
      if i < |left| { assert s[i] == left[i]; }
      else if i > |left| { assert s[i] == right[i - |left| - 1]; }
    }
    assert s[|s| - 1] == right[|right| - 1];
  }

  lemma EthAmountHasShape(s: string)
    requires IsEthAmount(s)
    ensures HasEthAmountShape(s)
  {
    if IsDigitRun(s) {
      DigitRunHasShape(s);
    } else {
      var i :| 0 <= i < |s| && s[i] == '.' && IsDigitRun(s[..i]) && IsDigitRun(s[i + 1..]);
      assert s == s[..i] + ['.'] + s[i + 1..];
      DottedHasShape(s[..i], s[i + 1..]);
    }
  }

  lemma ShapeIsEthAmount(s: string)
    requires HasEthAmountShape(s)
    ensures IsEthAmount(s)
  {
    if '.' !in s {
      assert IsDigitRun(s);
    } else {
      var i := Text.FirstIndex(s, '.');
      var left, right := s[..i], s[i + 1..];
      assert s == left + ['.'] + right;
      assert multiset(s) == multiset(left) + multiset(['.']) + multiset(right);
      assert '.' !in right;
      assert IsDigitRun(left);
      assert IsDigitRun(right);
    }
  }

  /** A value is accepted exactly when it has the shape above. */
  lemma EthAmountCharacters(s: string)
    ensures IsEthAmount(s) <==> HasEthAmountShape(s)
  {
    if IsEthAmount(s) { EthAmountHasShape(s); }
    if HasEthAmountShape(s) { ShapeIsEthAmount(s); }
  }

  /** The amounts the schema's own message gives as examples are accepted. */
  lemma EthAmountExamples()
    ensures IsEthAmount("0") && IsEthAmount("1") && IsEthAmount("0.23")
  {
    assert "0.23"[..1] == "0" && "0.23"[2..] == "23";
  }

  /** No sign, no leading or trailing dot, no empty amount. */
  lemma EthAmountRejects()
    ensures !IsEthAmount("-1") && !IsEthAmount(".5") && !IsEthAmount("1.") && !IsEthAmount("")
  {
    EthAmountCharacters("-1");
    EthAmountCharacters(".5");
    EthAmountCharacters("1.");
  }

  // ---------------------------------------------------------------------------
  // The data grammar  /^0x(?:[0-9A-Za-z][0-9A-Za-z])*$/

  predicate IsAsciiAlphanumeric(c: char)
  {
    '0' <= c <= '9' || 'A' <= c <= 'Z' || 'a' <= c <= 'z'
  }

  /** `(?:[0-9A-Za-z][0-9A-Za-z])*`: zero or more pairs of ASCII letters or digits, so an even number of characters. */
  function IsAlphanumericPairs(s: string): (accepted: bool)
    ensures accepted ==> |s| % 2 == 0
    decreases |s|
  {
    s == "" || (|s| >= 2 && IsAsciiAlphanumeric(s[0]) && IsAsciiAlphanumeric(s[1]) && IsAlphanumericPairs(s[2..]))
  }

  /** Data the schema accepts, as written: `0x` followed by pairs of ASCII letters or digits. */
  function IsCalldata(s: string): (accepted: bool)
    ensures accepted ==> |s| >= 2 && |s| % 2 == 0 && s[..2] == "0x"
  {
    |s| >= 2 && s[..2] == "0x" && IsAlphanumericPairs(s[2..])
  }

  /** Pairs of letters or digits are exactly the even-length strings of letters and digits. */
  lemma {:induction false} AlphanumericPairsCharacters(s: string)
    ensures IsAlphanumericPairs(s) <==> |s| % 2 == 0 && forall i :: 0 <= i < |s| ==> IsAsciiAlphanumeric(s[i])
    decreases |s|
  {
    if |s| >= 2 {
      AlphanumericPairsCharacters(s[2..]);
      assert forall i :: 2 <= i < |s| ==> s[i] == s[2..][i - 2];
    }
  }

  /** The data grammar by its characters: `0x`, then an even number of ASCII letters and digits. */
  lemma CalldataCharacters(s: string)
    ensures IsCalldata(s) <==>
      && |s| >= 2 && s[0] == '0' && s[1] == 'x' && |s| % 2 == 0
      && forall i :: 2 <= i < |s| ==> IsAsciiAlphanumeric(s[i])
  {
    if |s| >= 2 {
      AlphanumericPairsCharacters(s[2..]);
      assert forall i :: 2 <= i < |s| ==> s[i] == s[2..][i - 2];
    }
  }

  /** `0x` alone is valid data: the call carries no bytes. */
  lemma EmptyCalldata()
    ensures IsCalldata("0x")
  {
    assert "0x"[2..] == "";
  }

  // ---------------------------------------------------------------------------
  // Calldata as byte strings: what the data grammar is meant to accept

  /** `(?:[0-9A-Fa-f][0-9A-Fa-f])*`: zero or more pairs of hexadecimal digits, either case. */
  predicate IsHexPairs(s: string)
    decreases |s|
  {
    s == "" || (|s| >= 2 && IsHexDigit(s[0]) && IsHexDigit(s[1]) && IsHexPairs(s[2..]))
  }

  /** Data that denotes a byte string: `0x` followed by pairs of hexadecimal digits. */
  predicate IsHexCalldata(s: string)
  {
    |s| >= 2 && s[..2] == "0x" && IsHexPairs(s[2..])
  }

  type Byte = b: nat | b < 256

  /** The lower-case hexadecimal digit for `d`. */
  function HexDigit(d: nat): (c: char)
    requires d < 16
    ensures IsHexDigit(c) && DigitValue(c) == d
    ensures !('A' <= c <= 'Z')
  {
    if d < 10 then ('0' as int + d) as char else ('a' as int + d - 10) as char
  }

  /** Two lower-case hexadecimal digits per byte. */
  function HexEncode(bytes: seq<Byte>): (s: string)
    ensures |s| == 2 * |bytes| && IsHexPairs(s)
  {
    if bytes == [] then ""
    else
      var s := [HexDigit(bytes[0] / 16), HexDigit(bytes[0] % 16)] + HexEncode(bytes[1..]);
      assert s[2..] == HexEncode(bytes[1..]);
      s
  }

  /** The bytes a string of hexadecimal pairs denotes. */
  function HexDecode(s: string): (bytes: seq<Byte>)
    requires IsHexPairs(s)
    ensures 2 * |bytes| == |s|
    decreases |s|
  {
    if s == "" then [] else [DigitValue(s[0]) * 16 + DigitValue(s[1])] + HexDecode(s[2..])
  }

  /** An upper-case ASCII letter made lower-case; any other character unchanged. */
  function LowerChar(c: char): char
  {
    if 'A' <= c <= 'Z' then (c as int + 32) as char else c
  }

  /** Upper-case ASCII letters made lower-case, everything else unchanged. */
  function ToLower(s: string): (t: string)
    ensures |t| == |s|
  {
    if s == "" then "" else [LowerChar(s[0])] + ToLower(s[1..])
  }

  /** The digit `HexEncode` writes for a digit's value is that digit in lower case. */
  lemma HexDigitOfValue(c: char)
    requires IsHexDigit(c)
    ensures HexDigit(DigitValue(c)) == LowerChar(c)
  {
  }

  /** A byte splits back into the two digit values it was built from. */
  lemma ByteOfDigits(hi: nat, lo: nat)
    requires hi < 16 && lo < 16
    ensures (hi * 16 + lo) / 16 == hi && (hi * 16 + lo) % 16 == lo
  {
  }

  /** Decoding inverts encoding, for every byte string. */
  lemma {:induction false} HexDecodeEncode(bytes: seq<Byte>)
    ensures HexDecode(HexEncode(bytes)) == bytes
  {
    if bytes != [] {
      var s := HexEncode(bytes);
      assert s[2..] == HexEncode(bytes[1..]);
      HexDecodeEncode(bytes[1..]);
      assert bytes == [bytes[0]] + bytes[1..];
    }
  }

  /** A lower-case hex text is the one `HexEncode` writes for the bytes it denotes. */
  lemma LowerHexTextIsUnique(s: string, bytes: seq<Byte>)
    requires IsHexPairs(s) && ToLower(s) == s && HexDecode(s) == bytes
    ensures s == HexEncode(bytes)
  {
    HexEncodeDecode(s);
  }

  /** Encoding inverts decoding, up to the case of the letters. */
  lemma {:induction false} HexEncodeDecode(s: string)
    requires IsHexPairs(s)
    ensures HexEncode(HexDecode(s)) == ToLower(s)
    decreases |s|
  {
    if s != "" {
      HexEncodeDecode(s[2..]);
      var hi, lo := DigitValue(s[0]), DigitValue(s[1]);
      ByteOfDigits(hi, lo);
      HexDigitOfValue(s[0]);
      HexDigitOfValue(s[1]);
      HexEncodeCons(hi * 16 + lo, HexDecode(s[2..]));
      ToLowerPair(s);
    }
  }

  /** `HexEncode` one byte at a time. */
  lemma HexEncodeCons(b: Byte, rest: seq<Byte>)
    ensures HexEncode([b] + rest) == [HexDigit(b / 16), HexDigit(b % 16)] + HexEncode(rest)
  {
    assert ([b] + rest)[1..] == rest;
  }

  /** `ToLower` two characters at a time. */
  lemma ToLowerPair(s: string)
    requires |s| >= 2
    ensures ToLower(s) == [LowerChar(s[0]), LowerChar(s[1])] + ToLower(s[2..])
  {
    assert s[1..][1..] == s[2..];
  }

  /** Corrected data grammar: every accepted text denotes bytes, and every byte string has an accepted text. */
  lemma HexCalldataDenotesBytes(s: string, bytes: seq<Byte>)
    ensures IsHexCalldata(s) ==> "0x" + HexEncode(HexDecode(s[2..])) == "0x" + ToLower(s[2..])
    ensures IsHexCalldata("0x" + HexEncode(bytes))
    ensures HexDecode(("0x" + HexEncode(bytes))[2..]) == bytes
  {
    if IsHexCalldata(s) {
      HexEncodeDecode(s[2..]);
    }
    assert ("0x" + HexEncode(bytes))[2..] == HexEncode(bytes);
    HexDecodeEncode(bytes);
  }

  /** As written, the data grammar accepts text that is not hexadecimal and denotes no bytes. */
  lemma CalldataGrammarAcceptsNonHex()
    ensures IsCalldata("0xzz") && !IsHexCalldata("0xzz")
  {
    assert "0xzz"[2..] == "zz";
    assert "zz"[2..] == "";
  }

  /** Hex calldata is calldata: the corrected grammar only narrows the one as written. */
  lemma {:induction false} HexPairsAreAlphanumericPairs(s: string)
    requires IsHexPairs(s)
    ensures IsAlphanumericPairs(s)
    decreases |s|
  {
    if s != "" {
      HexPairsAreAlphanumericPairs(s[2..]);
    }
  }

  /** An even number of hexadecimal digits is a run of hex pairs. */
  lemma {:induction false} HexDigitsArePairs(s: string)
    requires |s| % 2 == 0 && forall i :: 0 <= i < |s| ==> IsHexDigit(s[i])
    ensures IsHexPairs(s)
    decreases |s|
  {
    if s != "" {
      HexDigitsArePairs(s[2..]);
    }
  }

  /**
   * The address check on `to`, read as the textual shape of an address: `0x`
   * and forty hexadecimal digits (checksum casing is not modelled). Such a
   * text denotes twenty bytes.
   */
  function IsAddressShaped(s: string): (accepted: bool)
    ensures accepted ==> IsHexCalldata(s) && |HexDecode(s[2..])| == 20
  {
    if |s| == 42 && s[..2] == "0x" && forall i :: 2 <= i < |s| ==> IsHexDigit(s[i]) then
      HexDigitsArePairs(s[2..]);
      true
    else false
  }

  /** An action every field of which passes its grammar, data read as bytes. */
  predicate WellFormedAction(a: Action)
  {
    IsAddressShaped(a.to) && IsEthAmount(a.value) && IsHexCalldata(a.data)
  }

  /**
   * An action every field of which passes the schema: `value` and `data` by
   * their regular expressions as written, `to` read as an address shape.
   */
  predicate SchemaValidAction(a: Action)
  {
    IsAddressShaped(a.to) && IsEthAmount(a.value) && IsCalldata(a.data)
  }

  /** An action that passes the schema (`to` read as an address shape) has no `|` in any field and a non-empty value. */
  lemma SchemaValidActionFields(a: Action)
    requires SchemaValidAction(a)
    ensures '|' !in a.to && '|' !in a.data && '|' !in a.value && a.value != ""
  {
    EthAmountCharacters(a.value);
    CalldataCharacters(a.data);
  }

  /** A well-formed action passes the schema (`to` read as an address shape), so it too has no `|` in any field and a non-empty value. */
  lemma WellFormedActionFields(a: Action)
    requires WellFormedAction(a)
    ensures SchemaValidAction(a)
    ensures '|' !in a.to && '|' !in a.data && '|' !in a.value && a.value != ""
  {
    HexPairsAreAlphanumericPairs(a.data[2..]);
    SchemaValidActionFields(a);
  }

  // ---------------------------------------------------------------------------
  // Defaults

  /** `DEFAULT_ACTION_ITEM`. */
  const DefaultActionItem := Action("0x", "0", "0x")

  /** `DEFAULT_PROPOSAL`: no nonce and the default action alone. */
  const DefaultProposal := Proposal(NoNonce, Some([DefaultActionItem]))

  /** The defaults satisfy the grammars of their fields. */
  lemma DefaultsSatisfyGrammar()
    ensures IsEthAmount(DefaultActionItem.value) && IsCalldata(DefaultActionItem.data)
    ensures DefaultProposal.nonce == NoNonce && !IsTruthy(DefaultProposal.nonce)
    ensures ActionsOrEmpty(Some(DefaultProposal)) == [DefaultActionItem]
  {
    EmptyCalldata();
  }
}
