/** lib/alchemypay.ts: the hosted-checkout URL of the Alchemy Pay on-ramp and
    the Solana wallet-address check. The two environment variables the module
    reads are passed in explicitly. */
module AlchemyPay {
  import opened Js
  import FormUrlEncoded

  const ProductionBaseUrl := "https://ramp.alchemypay.org"
  const TestBaseUrl := "https://ramptest.alchemypay.org"

  /** The caller's request; the three currency fields may be left undefined. */
  datatype AlchemyPayConfig = AlchemyPayConfig(
    walletAddress: string,
    crypto: Option<string>,
    network: Option<string>,
    fiat: Option<string>)

  /** NEXT_PUBLIC_ALCHEMY_PAY_APP_ID and NEXT_PUBLIC_ALCHEMY_PAY_ENV. */
  datatype Environment = Environment(appId: Option<string>, rampEnv: Option<string>)

  /** The base URL: the production host only when the environment tag, `test`
      when unset or empty, is exactly `production`. */
  function BaseUrl(environment: Environment): string {
    var env := OrElse(environment.rampEnv, "test");
    if env == "production" then ProductionBaseUrl else TestBaseUrl
  }

  /** The five query parameters in the order they are written. */
  function CheckoutParameters(config: AlchemyPayConfig, environment: Environment): seq<(string, string)> {
    [("appId", OrElse(environment.appId, "")),
     ("crypto", OrElse(config.crypto, "SOL")),
     ("network", OrElse(config.network, "SOLANA")),
     ("fiat", OrElse(config.fiat, "USD")),
     ("address", config.walletAddress)]
  }

  /** getAlchemyPayUrl: the base URL, `?`, and the serialized parameters.
      It never fails, whatever the environment holds. */
  function GetAlchemyPayUrl(config: AlchemyPayConfig, environment: Environment): string {
    BaseUrl(environment) + "?" + FormUrlEncoded.Serialize(CheckoutParameters(config, environment))
  }

  /** Whether getAlchemyPayUrl logs the missing-app-id warning: exactly when
      the app id is unset or empty. */
  predicate WarnsMissingAppId(environment: Environment) {
    !Truthy(environment.appId)
  }

  /** The character class of `/^[1-9A-HJ-NP-Za-km-z]+$/`: the base58
      alphabet, that is ASCII digits and letters except `0`, `O`, `I`, `l`. */
  predicate IsBase58Char(c: char) {
    || ('1' <= c <= '9') || ('A' <= c <= 'H') || ('J' <= c <= 'N')
    || ('P' <= c <= 'Z') || ('a' <= c <= 'k') || ('m' <= c <= 'z')
  }

  predicate AllBase58(s: string) {
    forall i :: 0 <= i < |s| ==> IsBase58Char(s[i])
  }

  /** `/^[1-9A-HJ-NP-Za-km-z]+$/.test(s)`: one or more base58 characters and
      nothing else. */
  predicate Base58Test(s: string) {
    |s| > 0 && AllBase58(s)
  }

  /** isValidSolanaAddress: trim, reject the empty string, reject a length
      (in UTF-16 code units, as `.length` counts) outside [32, 44], then
      test against the base58 pattern. */
  predicate IsValidSolanaAddress(address: string) {
    var trimmedAddress := Trim(address);
    if !Truthy(Some(trimmedAddress)) then false
    else if Utf16Length(trimmedAddress) < 32 || Utf16Length(trimmedAddress) > 44 then false
    else Base58Test(trimmedAddress)
  }

  // ---- The address check ----

  /** The address check in terms of code points: the trimmed address has 32
      to 44 characters and every one of them is in the base58 alphabet.
      Counting UTF-16 units instead of code points makes no difference,
      because base58 characters are single units. */
  lemma ValidAddressCharacterization(address: string)
    ensures IsValidSolanaAddress(address)
        <==> (var t := Trim(address); 32 <= |t| <= 44 && AllBase58(t))
  {
    var t := Trim(address);
    if AllBase58(t) {
      Base58Utf16Length(t);
    }
  }

  /** Base58 characters are single UTF-16 units. */
  lemma Base58Utf16Length(s: string)
    requires AllBase58(s)
    ensures Utf16Length(s) == |s|
  {
    forall i | 0 <= i < |s| ensures s[i] as int < 0x1_0000 {
      assert IsBase58Char(s[i]);
    }
  }

  /** Empty and whitespace-only input is rejected. */
  lemma BlankAddressRejected(address: string)
    requires AllWhitespace(address)
    ensures !IsValidSolanaAddress(address)
  {
    TrimSpec(address);
  }

  /** A trimmed length below 32 or above 44 is rejected. */
  lemma AddressLengthOutOfRangeRejected(address: string)
    requires |Trim(address)| < 32 || |Trim(address)| > 44
    ensures !IsValidSolanaAddress(address)
  {
    ValidAddressCharacterization(address);
  }

  /** Whitespace around an address never changes the verdict. */
  lemma SurroundingWhitespaceIgnored(w1: string, address: string, w2: string)
    requires AllWhitespace(w1) && AllWhitespace(w2)
    ensures IsValidSolanaAddress(w1 + address + w2) == IsValidSolanaAddress(address)
  {
    TrimIgnoresSurroundingWhitespace(w1, address, w2);
  }

  lemma Base58IsNotWhitespace(c: char)
    requires IsBase58Char(c)
    ensures !IsWhitespace(c)
  {
  }

  /** A base58 string of 32 to 44 characters is accepted, and replacing any
      one of its characters by one of the excluded `0`, `O`, `I`, `l` makes
      it rejected. */
  lemma AmbiguousCharacterRejected(s: string, i: nat, c: char)
    requires 32 <= |s| <= 44 && AllBase58(s)
    requires i < |s|
    requires c == '0' || c == 'O' || c == 'I' || c == 'l'
    ensures IsValidSolanaAddress(s)
    ensures !IsValidSolanaAddress(s[i := c])
  {
    var s' := s[i := c];
    Base58IsNotWhitespace(s[0]);
    Base58IsNotWhitespace(s[|s| - 1]);
    ValidAddressCharacterization(s);
    assert Trim(s) == s;
    assert !IsWhitespace(s'[0]) && !IsWhitespace(s'[|s'| - 1]) by {
      if i != 0 { Base58IsNotWhitespace(s'[0]); }
      if i != |s| - 1 { Base58IsNotWhitespace(s'[|s'| - 1]); }
    }
    assert Trim(s') == s';
    ValidAddressCharacterization(s');
    assert !IsBase58Char(s'[i]);
  }

  // ---- The checkout URL ----

  /** The production host is chosen exactly when the environment tag is
      `production`; unset, empty or any other tag selects the test host. */
  lemma BaseUrlSelection(environment: Environment)
    ensures BaseUrl(environment)
         == if environment.rampEnv == Some("production") then ProductionBaseUrl else TestBaseUrl
  {
  }

  lemma NoQuestionMark(base: string)
    requires base == ProductionBaseUrl || base == TestBaseUrl
    ensures forall i :: 0 <= i < |base| ==> base[i] != '?'
  {
  }

  /** Read back, the URL is the base URL of the selected environment, then
      `?`, then a query of exactly five pairs in the order appId, crypto,
      network, fiat, address: a missing or empty app id gives an empty
      appId, missing or empty currency fields take SOL, SOLANA and USD, and
      the address is always the caller's. The production host is chosen only
      for the environment tag `production`. */
  lemma CheckoutUrlParameters(config: AlchemyPayConfig, environment: Environment)
    ensures
      var url := GetAlchemyPayUrl(config, environment);
      var (base, query) := FormUrlEncoded.SplitAtFirst(url, '?');
      && base == (if environment.rampEnv == Some("production") then ProductionBaseUrl else TestBaseUrl)
      && FormUrlEncoded.Parse(query) == Some([
           ("appId", if Truthy(environment.appId) then environment.appId.value else ""),
           ("crypto", if Truthy(config.crypto) then config.crypto.value else "SOL"),
           ("network", if Truthy(config.network) then config.network.value else "SOLANA"),
           ("fiat", if Truthy(config.fiat) then config.fiat.value else "USD"),
           ("address", config.walletAddress)])
  {
    var base := BaseUrl(environment);
    var params := CheckoutParameters(config, environment);
    var query := FormUrlEncoded.Serialize(params);
    assert GetAlchemyPayUrl(config, environment) == base + ['?'] + query;
    NoQuestionMark(base);
    FormUrlEncoded.SplitAtFirstAround(base, '?', query);
    FormUrlEncoded.ParseSerialize(params);
  }

  /** A missing or empty app id is no error: the warning is logged and the
      URL is still built, with an empty appId as its first pair. */
  lemma MissingAppIdTolerated(config: AlchemyPayConfig, environment: Environment)
    requires !Truthy(environment.appId)
    ensures WarnsMissingAppId(environment)
    ensures
      var query := FormUrlEncoded.SplitAtFirst(GetAlchemyPayUrl(config, environment), '?').1;
      && FormUrlEncoded.Parse(query).Some?
      && |FormUrlEncoded.Parse(query).value| == 5
      && FormUrlEncoded.Parse(query).value[0] == ("appId", "")
  {
    CheckoutUrlParameters(config, environment);
  }

  lemma EndsWithAppended(x: string, y: string)
    ensures EndsWith(x + y, y)
  {
    assert (x + y)[|x|..] == y;
  }

  /** A tuple whose name needs no escaping is written as the name, `=` and
      the encoded value. */
  lemma UnreservedNamePair(name: string, value: string)
    requires forall i :: 0 <= i < |name| ==> FormUrlEncoded.IsUnreserved(name[i])
    ensures "&" + FormUrlEncoded.EncodeTuple((name, value)) == "&" + name + "=" + FormUrlEncoded.Encode(value)
  {
    FormUrlEncoded.EncodeUnreserved(name);
  }

  lemma AddressNameUnreserved()
    ensures forall i :: 0 <= i < |"address"| ==> FormUrlEncoded.IsUnreserved("address"[i])
    ensures "&" + "address" + "=" == "&address="
  {
  }

  /** The last pair of the query is written as `&address=` followed by the
      encoded wallet address. */
  lemma QueryEndsWithAddress(config: AlchemyPayConfig, environment: Environment)
    ensures
      var url := GetAlchemyPayUrl(config, environment);
      var suffix := "&address=" + FormUrlEncoded.Encode(config.walletAddress);
      EndsWith(url, suffix)
  {
    var params := CheckoutParameters(config, environment);
    var last := ("address", config.walletAddress);
    assert "&" + FormUrlEncoded.EncodeTuple(last) == "&address=" + FormUrlEncoded.Encode(config.walletAddress) by {
      AddressNameUnreserved();
      UnreservedNamePair("address", config.walletAddress);
    }
    assert params == params[..4] + [last];
    EndsWithLastPair(BaseUrl(environment) + "?", params[..4], last);
  }

  /** A serialized query ends with its last pair, after an `&`. */
  lemma EndsWithLastPair(prefix: string, init: seq<(string, string)>, last: (string, string))
    requires init != []
    ensures EndsWith(prefix + FormUrlEncoded.Serialize(init + [last]), "&" + FormUrlEncoded.EncodeTuple(last))
  {
    var pair := "&" + FormUrlEncoded.EncodeTuple(last);
    FormUrlEncoded.SerializeSnoc(init, last);
    assert prefix + FormUrlEncoded.Serialize(init + [last]) == (prefix + FormUrlEncoded.Serialize(init)) + pair;
    EndsWithAppended(prefix + FormUrlEncoded.Serialize(init), pair);
  }

  /** For an address the check accepts, the trimmed address appears in the
      URL exactly as typed: base58 characters are never percent-encoded. */
  lemma ValidAddressUnescaped(address: string, config: AlchemyPayConfig, environment: Environment)
    requires IsValidSolanaAddress(address)
    requires config.walletAddress == Trim(address)
    ensures
      var url := GetAlchemyPayUrl(config, environment);
      var suffix := "&address=" + Trim(address);
      EndsWith(url, suffix)
  {
    ValidAddressCharacterization(address);
    Base58Unescaped(Trim(address));
    QueryEndsWithAddress(config, environment);
  }

  /** Base58 text is written into a query as it is. */
  lemma Base58Unescaped(s: string)
    requires AllBase58(s)
    ensures FormUrlEncoded.Encode(s) == s
  {
    forall i | 0 <= i < |s| ensures FormUrlEncoded.IsUnreserved(s[i]) {
      assert IsBase58Char(s[i]);
    }
    FormUrlEncoded.EncodeUnreserved(s);
  }
}
