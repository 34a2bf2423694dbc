/** lib/moonpay.ts: opening the MoonPay buy widget, and its own copy of the
    Solana wallet-address check. The API key, read from the environment by
    the source, is a parameter; the MoonPay SDK is a parameter too, a
    function that says whether constructing the SDK with the given options
    and calling `show()` threw, and what it threw. */
module MoonPay {
  import opened Js
  import AlchemyPay

  const MissingKeyMessage := "MoonPay API key is not configured."
                           + " Please set NEXT_PUBLIC_MOONPAY_API_KEY in your environment variables."
  const FailurePrefix := "Failed to open MoonPay widget: "
  const UnknownError := "Unknown error"

  /** The caller's request; the two currency codes may be left undefined. */
  datatype MoonPayConfig = MoonPayConfig(
    walletAddress: string,
    currencyCode: Option<string>,
    baseCurrencyCode: Option<string>)

  /** The `params` object handed to the SDK. */
  datatype WidgetParams = WidgetParams(
    apiKey: string,
    currencyCode: string,
    baseCurrencyCode: string,
    walletAddress: string,
    theme: string,
    colorCode: string)

  /** The options object `new MoonPayWebSdk(...)` is constructed with. */
  datatype SdkOptions = SdkOptions(flow: string, environment: string, params: WidgetParams)

  /** How a call of openMoonPayWidget ends: the options handed to
      `new MoonPayWebSdk(...)`, if the constructor was called at all (it may
      still have thrown), and the message of the Error the returned promise
      rejects with, if it rejects. */
  datatype Outcome = Outcome(attempted: Option<SdkOptions>, rejection: Option<string>)

  /** The SDK options for a configuration and a (present) API key. */
  function WidgetOptions(config: MoonPayConfig, apiKey: string): SdkOptions {
    SdkOptions("buy", "production",
      WidgetParams(
        apiKey,
        OrElse(config.currencyCode, "SOL"),
        OrElse(config.baseCurrencyCode, "usd"),
        config.walletAddress,
        "dark",
        "#9945FF"))
  }

  /** openMoonPayWidget: a missing or empty key rejects before the SDK is
      touched; otherwise the SDK is constructed and shown, and whatever it
      throws is rethrown as an Error with a prefixed message. */
  function OpenMoonPayWidget(config: MoonPayConfig, apiKey: Option<string>, sdk: SdkOptions -> Option<Thrown>): (r: Outcome)
    ensures r.attempted.None? <==> !Truthy(apiKey)
    ensures r.attempted.None? ==> r.rejection == Some(MissingKeyMessage)
    ensures r.attempted.Some? ==> (r.rejection.None? <==> sdk(r.attempted.value).None?)
  {
    if !Truthy(apiKey) then
      Outcome(None, Some(MissingKeyMessage))
    else
      var options := WidgetOptions(config, apiKey.value);
      match sdk(options)
      case None => Outcome(Some(options), None)
      case Some(error) => Outcome(Some(options), Some(FailurePrefix + CaughtMessage(error, UnknownError)))
  }

  /** Without a key the SDK is never consulted: the outcome is the same
      whatever the SDK would have done. */
  lemma MissingKeyIgnoresSdk(config: MoonPayConfig, apiKey: Option<string>,
                             sdk1: SdkOptions -> Option<Thrown>, sdk2: SdkOptions -> Option<Thrown>)
    requires !Truthy(apiKey)
    ensures OpenMoonPayWidget(config, apiKey, sdk1) == OpenMoonPayWidget(config, apiKey, sdk2)
    ensures OpenMoonPayWidget(config, apiKey, sdk1).rejection == Some(MissingKeyMessage)
  {
  }

  /** With a key, the SDK gets flow `buy`, environment `production`, theme
      `dark`, colour `#9945FF`, the key itself, the wallet address verbatim,
      and the currency codes given or, when missing or empty, `SOL` and
      `usd`. */
  lemma WidgetConfiguration(config: MoonPayConfig, apiKey: Option<string>, sdk: SdkOptions -> Option<Thrown>)
    requires Truthy(apiKey)
    ensures
      var p := WidgetParams(
        apiKey.value,
        if Truthy(config.currencyCode) then config.currencyCode.value else "SOL",
        if Truthy(config.baseCurrencyCode) then config.baseCurrencyCode.value else "usd",
        config.walletAddress, "dark", "#9945FF");
      OpenMoonPayWidget(config, apiKey, sdk).attempted == Some(SdkOptions("buy", "production", p))
  {
  }

  /** A failure of the SDK surfaces as the prefix followed by the thrown
      Error's message, or by `Unknown error` for a thrown non-Error; the
      original message can be read back after the prefix. */
  lemma SdkFailureWrapped(config: MoonPayConfig, apiKey: Option<string>, sdk: SdkOptions -> Option<Thrown>)
    requires Truthy(apiKey)
    requires sdk(WidgetOptions(config, apiKey.value)).Some?
    ensures
      var thrown := sdk(WidgetOptions(config, apiKey.value)).value;
      var m := OpenMoonPayWidget(config, apiKey, sdk).rejection;
      && m.Some?
      && |FailurePrefix| <= |m.value|
      && m.value[..|FailurePrefix|] == FailurePrefix
      && m.value[|FailurePrefix|..] == (if thrown.ErrorObject? then thrown.message else UnknownError)
  {
    var thrown := sdk(WidgetOptions(config, apiKey.value)).value;
    var m := FailurePrefix + CaughtMessage(thrown, UnknownError);
    assert m[..|FailurePrefix|] == FailurePrefix;
    assert m[|FailurePrefix|..] == CaughtMessage(thrown, UnknownError);
  }

  /** The two kinds of rejection can be told apart: the missing-key message
      never carries the SDK-failure prefix. */
  lemma RejectionsDistinct(config: MoonPayConfig, apiKey: Option<string>, sdk: SdkOptions -> Option<Thrown>)
    ensures
      var m := OpenMoonPayWidget(config, apiKey, sdk).rejection;
      m.Some? ==>
        (m.value == MissingKeyMessage <==> !Truthy(apiKey))
  {
    var m := OpenMoonPayWidget(config, apiKey, sdk).rejection;
    if Truthy(apiKey) && m.Some? {
      assert m.value[0] == 'F';
      assert MissingKeyMessage[0] == 'M';
    }
  }

  // ---- The address check ----

  /** The alphabet of `/^[1-9A-HJ-NP-Za-km-z]+$/` spelled out, in runs of
      consecutive code points: the digits and letters that are kept. */
  const Digits := "123456789"
  const Upper := "ABCDEFGH" + "JKLMN" + "PQRSTUVWXYZ"
  const Lower := "abcdefghijk" + "mnopqrstuvwxyz"
  const Base58Alphabet := Digits + Upper + Lower

  /** isValidSolanaAddress, the copy in lib/moonpay.ts: trim, reject the
      empty string, reject a `.length` outside [32, 44], then require every
      character to be in the base58 alphabet (and at least one). */
  predicate IsValidSolanaAddress(address: string) {
    var trimmedAddress := Trim(address);
    if !Truthy(Some(trimmedAddress)) then false
    else if Utf16Length(trimmedAddress) < 32 || Utf16Length(trimmedAddress) > 44 then false
    else |trimmedAddress| > 0 && forall i :: 0 <= i < |trimmedAddress| ==> trimmedAddress[i] in Base58Alphabet
  }

  /** A run of consecutive code points holds exactly the characters of its range. */
  lemma RunMembership(run: string, first: char, c: char)
    requires forall i :: 0 <= i < |run| ==> run[i] as int == first as int + i
    ensures c in run <==> first as int <= c as int < first as int + |run|
  {
    if first as int <= c as int < first as int + |run| {
      assert run[c as int - first as int] == c;
    }
  }

  /** The spelled-out alphabet is exactly the character class of the pattern. */
  lemma AlphabetIsCharacterClass(c: char)
    ensures c in Base58Alphabet <==> AlchemyPay.IsBase58Char(c)
  {
    RunMembership("123456789", '1', c);
    RunMembership("ABCDEFGH", 'A', c);
    RunMembership("JKLMN", 'J', c);
    RunMembership("PQRSTUVWXYZ", 'P', c);
    RunMembership("abcdefghijk", 'a', c);
    RunMembership("mnopqrstuvwxyz", 'm', c);
  }

  /** The two copies of the check agree on every input. */
  lemma ValidatorsAgree(address: string)
    ensures IsValidSolanaAddress(address) == AlchemyPay.IsValidSolanaAddress(address)
  {
    var t := Trim(address);
    forall i | 0 <= i < |t|
      ensures t[i] in Base58Alphabet <==> AlchemyPay.IsBase58Char(t[i])
    {
      AlphabetIsCharacterClass(t[i]);
    }
  }

  /** This copy rejects empty and whitespace-only input. */
  lemma BlankAddressRejected(address: string)
    requires AllWhitespace(address)
    ensures !IsValidSolanaAddress(address)
  {
    ValidatorsAgree(address);
    AlchemyPay.BlankAddressRejected(address);
  }

  /** This copy rejects a trimmed address of fewer than 32 or more than 44
      characters. */
  lemma AddressLengthOutOfRangeRejected(address: string)
    requires |Trim(address)| < 32 || |Trim(address)| > 44
    ensures !IsValidSolanaAddress(address)
  {
    ValidatorsAgree(address);
    AlchemyPay.AddressLengthOutOfRangeRejected(address);
  }

  /** Whitespace around an address never changes this copy's verdict. */
  lemma SurroundingWhitespaceIgnored(w1: string, address: string, w2: string)
    requires AllWhitespace(w1) && AllWhitespace(w2)
    ensures IsValidSolanaAddress(w1 + address + w2) == IsValidSolanaAddress(address)
  {
    ValidatorsAgree(w1 + address + w2);
    ValidatorsAgree(address);
    AlchemyPay.SurroundingWhitespaceIgnored(w1, address, w2);
  }
}
