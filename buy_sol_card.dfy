/** components/BuySolCard.tsx: the purchase card's state (`walletAddress`,
    `isLoading`, `error`), its two event handlers and the condition that
    disables the buy button. Rendering is not modelled. The two Alchemy Pay
    environment variables are a parameter, and the assignment to
    `window.location.href` is a parameter saying whether it threw and what:
    when it does not throw, the URL assigned is the handler's result. */
module BuySolCard {
  import opened Js
  import AlchemyPay
  import FormUrlEncoded

  const EmptyAddressMessage := "Please enter your Solana wallet address"
  const InvalidAddressMessage := "Please enter a valid Solana wallet address (32-44 characters)"
  const PaymentFailedMessage := "Failed to initiate payment. Please try again."

  /** The component's state. */
  datatype View = View(walletAddress: string, isLoading: bool, error: string)

  /** What a click on the buy button leaves behind: the new state and the
      URL the page was sent to, if any. */
  datatype Click = Click(view: View, redirect: Option<string>)

  /** The request handed to getAlchemyPayUrl: the trimmed address, SOL on
      the SOLANA network, paid in NGN. */
  function CheckoutConfig(walletAddress: string): AlchemyPay.AlchemyPayConfig {
    AlchemyPay.AlchemyPayConfig(Trim(walletAddress), Some("SOL"), Some("SOLANA"), Some("NGN"))
  }

  /** The URL getAlchemyPayUrl builds for the typed address. */
  function CheckoutUrl(walletAddress: string, environment: AlchemyPay.Environment): string {
    AlchemyPay.GetAlchemyPayUrl(CheckoutConfig(walletAddress), environment)
  }

  /** handleBuySol, as a function of the state before the click and of the
      checkout URL built for it: clear the error; stop on an empty or
      invalid address; otherwise start loading and navigate to the URL, and
      when the navigation throws, stop loading and show what was thrown.
      (Building the URL cannot throw, so whether it is built before the
      checks or after them makes no difference.) */
  function ClickResult(v: View, checkoutUrl: string, navigation: Option<Thrown>): Click {
    if !Truthy(Some(Trim(v.walletAddress))) then
      Click(v.(error := EmptyAddressMessage), None)
    else if !AlchemyPay.IsValidSolanaAddress(v.walletAddress) then
      Click(v.(error := InvalidAddressMessage), None)
    else
      match navigation
      case None => Click(v.(isLoading := true, error := ""), Some(checkoutUrl))
      case Some(thrown) => Click(v.(isLoading := false, error := CaughtMessage(thrown, PaymentFailedMessage)), None)
  }

  /** The input's onChange: store the typed value and clear the error. */
  function Edited(v: View, value: string): View {
    v.(walletAddress := value, error := "")
  }

  /** `disabled={!walletAddress.trim() || isLoading}`. */
  predicate BuyDisabled(v: View) {
    !Truthy(Some(Trim(v.walletAddress))) || v.isLoading
  }

  /** The card's state as React holds it; each handler updates the fields
      through their setters in the order the source calls them. */
  class CardState {
    var walletAddress: string
    var isLoading: bool
    var error: string

    /** `useState('')`, `useState(false)`, `useState('')`. */
    constructor()
      ensures walletAddress == "" && !isLoading && error == ""
    {
      walletAddress := "";
      isLoading := false;
      error := "";
    }

    function Current(): View
      reads this
    {
      View(walletAddress, isLoading, error)
    }

    predicate ButtonDisabled()
      reads this
    {
      BuyDisabled(Current())
    }

    method OnChange(value: string)
      modifies this
      ensures Current() == Edited(old(Current()), value)
    {
      walletAddress := value;
      error := "";
    }

    method HandleBuySol(environment: AlchemyPay.Environment, navigation: Option<Thrown>)
      returns (redirect: Option<string>)
      modifies this
      ensures ClickResult(old(Current()), CheckoutUrl(old(walletAddress), environment), navigation)
           == Click(View(walletAddress, isLoading, error), redirect)
    {
      // The handler reads the address of the render it belongs to.
      var address := walletAddress;
      ghost var before := Current();
      error := "";
      if !Truthy(Some(Trim(address))) {
        error := EmptyAddressMessage;
        return None;
      }
      if !AlchemyPay.IsValidSolanaAddress(address) {
        error := InvalidAddressMessage;
        return None;
      }
      isLoading := true;
      var checkoutUrl := CheckoutUrl(address, environment);
      match navigation {
        case None =>
          redirect := Some(checkoutUrl);
          SuccessfulClick(before, checkoutUrl);
        case Some(thrown) =>
          isLoading := false;
          error := CaughtMessage(thrown, PaymentFailedMessage);
          redirect := None;
          FailedNavigationClick(before, checkoutUrl, thrown);
      }
    }
  }

  // ---- What a click does ----

  /** The error shown before a click never influences the click: it is
      cleared before any check. */
  lemma StaleErrorIrrelevant(v: View, e1: string, e2: string, checkoutUrl: string, navigation: Option<Thrown>)
    ensures ClickResult(v.(error := e1), checkoutUrl, navigation)
         == ClickResult(v.(error := e2), checkoutUrl, navigation)
  {
  }

  /** A click never changes the typed address. */
  lemma ClickKeepsAddress(v: View, checkoutUrl: string, navigation: Option<Thrown>)
    ensures ClickResult(v, checkoutUrl, navigation).view.walletAddress == v.walletAddress
  {
    if Truthy(Some(Trim(v.walletAddress))) && AlchemyPay.IsValidSolanaAddress(v.walletAddress) {
      if navigation.Some? {
        assert ClickResult(v, checkoutUrl, navigation).view
            == v.(isLoading := false, error := CaughtMessage(navigation.value, PaymentFailedMessage));
      }
    }
  }

  /** An empty or whitespace-only address: the empty-address message,
      loading untouched, no navigation. */
  lemma EmptyAddressClick(v: View, checkoutUrl: string, navigation: Option<Thrown>)
    requires AllWhitespace(v.walletAddress)
    ensures ClickResult(v, checkoutUrl, navigation) == Click(v.(error := EmptyAddressMessage), None)
  {
    TrimSpec(v.walletAddress);
  }

  /** A non-blank address the check rejects: the invalid-address message,
      loading untouched, no navigation. */
  lemma InvalidAddressClick(v: View, checkoutUrl: string, navigation: Option<Thrown>)
    requires !AllWhitespace(v.walletAddress)
    requires !AlchemyPay.IsValidSolanaAddress(v.walletAddress)
    ensures ClickResult(v, checkoutUrl, navigation) == Click(v.(error := InvalidAddressMessage), None)
  {
    TrimSpec(v.walletAddress);
  }

  /** A valid address and a navigation that goes through: loading, no
      error, and the page is sent to the checkout URL. */
  lemma SuccessfulClick(v: View, checkoutUrl: string)
    requires AlchemyPay.IsValidSolanaAddress(v.walletAddress)
    ensures ClickResult(v, checkoutUrl, None) == Click(View(v.walletAddress, true, ""), Some(checkoutUrl))
  {
  }

  /** The checkout URL for a valid address: the Alchemy Pay host of the
      environment, and a query that reads back as the app id, crypto SOL,
      network SOLANA, fiat NGN and the trimmed address, which appears
      unescaped at the end of the URL. */
  lemma CardCheckoutUrl(walletAddress: string, environment: AlchemyPay.Environment)
    requires AlchemyPay.IsValidSolanaAddress(walletAddress)
    ensures
      var url := CheckoutUrl(walletAddress, environment);
      var address := Trim(walletAddress);
      && var (base, query) := FormUrlEncoded.SplitAtFirst(url, '?');
      && base == (if environment.rampEnv == Some("production")
                  then AlchemyPay.ProductionBaseUrl else AlchemyPay.TestBaseUrl)
      && FormUrlEncoded.Parse(query) == Some([
           ("appId", if Truthy(environment.appId) then environment.appId.value else ""),
           ("crypto", "SOL"), ("network", "SOLANA"), ("fiat", "NGN"),
           ("address", address)])
      && EndsWith(url, "&address=" + address)
  {
    AlchemyPay.CheckoutUrlParameters(CheckoutConfig(walletAddress), environment);
    AlchemyPay.ValidAddressUnescaped(walletAddress, CheckoutConfig(walletAddress), environment);
  }

  /** A valid address whose navigation throws: loading is switched off
      again and the thrown Error's message, or the generic message for a
      thrown non-Error, is shown; there is no navigation. */
  lemma FailedNavigationClick(v: View, checkoutUrl: string, thrown: Thrown)
    requires AlchemyPay.IsValidSolanaAddress(v.walletAddress)
    ensures
      var r := ClickResult(v, checkoutUrl, Some(thrown));
      && r.redirect == None
      && r.view.walletAddress == v.walletAddress
      && !r.view.isLoading
      && r.view.error == (if thrown.ErrorObject? then thrown.message else PaymentFailedMessage)
  {
  }

  /** The page navigates exactly when the address is valid and the
      navigation does not throw; a click that does not navigate leaves
      loading off, provided it was off before. */
  lemma RedirectExactlyWhenValid(v: View, checkoutUrl: string, navigation: Option<Thrown>)
    ensures
      var r := ClickResult(v, checkoutUrl, navigation);
      && (r.redirect.Some? <==> AlchemyPay.IsValidSolanaAddress(v.walletAddress) && navigation.None?)
      && (r.redirect.None? && !v.isLoading ==> !r.view.isLoading)
  {
  }

  /** A click that does not navigate always shows an error, unless the
      navigation threw an Error with an empty message. */
  lemma FailureVisible(v: View, checkoutUrl: string, navigation: Option<Thrown>)
    requires navigation != Some(ErrorObject(""))
    ensures
      var r := ClickResult(v, checkoutUrl, navigation);
      r.redirect.None? ==> Truthy(Some(r.view.error))
  {
    var r := ClickResult(v, checkoutUrl, navigation);
    if !Truthy(Some(Trim(v.walletAddress))) {
      assert r.view.error == EmptyAddressMessage;
    } else if !AlchemyPay.IsValidSolanaAddress(v.walletAddress) {
      assert r.view.error == InvalidAddressMessage;
    } else if navigation.Some? {
      assert r.view.error == CaughtMessage(navigation.value, PaymentFailedMessage);
      assert |PaymentFailedMessage| > 0;
    }
  }

  // ---- The button and the input ----

  /** While the button is enabled the empty-address branch of the click
      handler cannot be reached: the empty-address message only appears if
      the navigation itself threw an Error carrying that text. */
  lemma EnabledButtonHasAddress(v: View, checkoutUrl: string, navigation: Option<Thrown>)
    requires !BuyDisabled(v)
    ensures ClickResult(v, checkoutUrl, navigation).view.error != EmptyAddressMessage
            || navigation == Some(ErrorObject(EmptyAddressMessage))
  {
    assert |EmptyAddressMessage| != |InvalidAddressMessage|;
    assert |EmptyAddressMessage| != |PaymentFailedMessage|;
  }

  /** After a click that navigates, the button is disabled: the checkout
      cannot be started twice. */
  lemma NoDoubleSubmit(v: View, checkoutUrl: string, navigation: Option<Thrown>)
    ensures ClickResult(v, checkoutUrl, navigation).redirect.Some?
        ==> BuyDisabled(ClickResult(v, checkoutUrl, navigation).view)
  {
  }

  /** Typing stores the new value and clears the error; loading is
      untouched, and the button is then disabled exactly when the new value
      is blank or a checkout is under way. */
  lemma EditingClearsError(v: View, value: string)
    ensures Edited(v, value) == View(value, v.isLoading, "")
    ensures BuyDisabled(Edited(v, value)) <==> AllWhitespace(value) || v.isLoading
  {
    TrimSpec(value);
  }
}
