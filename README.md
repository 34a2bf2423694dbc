# Solana on-ramp: address check, checkout URL, MoonPay widget and the buy card

A Dafny model of the logic of a small Telegram Mini App that lets a user buy
SOL through Alchemy Pay (with MoonPay as a second on-ramp):

- `lib/alchemypay.ts`: `getAlchemyPayUrl`, which picks the Alchemy Pay host
  from an environment tag and writes five query parameters (with `||`
  defaults) through `URLSearchParams`, and `isValidSolanaAddress`, which
  trims the input and accepts 32 to 44 base58 characters.
- `lib/moonpay.ts`: `openMoonPayWidget`, which rejects when the API key is
  missing, builds the SDK options with two defaults, and rewraps whatever the
  SDK throws; and the module's own copy of `isValidSolanaAddress`.
- `components/BuySolCard.tsx`: the card's three pieces of state
  (`walletAddress`, `isLoading`, `error`), the `handleBuySol` click handler,
  the input's `onChange`, and the condition that disables the buy button.

The model is split into six modules:

| file | module | what it holds |
|---|---|---|
| `js.dfy` | `Js` | the JavaScript semantics the code leans on: `undefined` as `Option`, truthiness, `a \|\| b`, `trim` over the exact ECMAScript whitespace set, `.length` in UTF-16 code units, `endsWith`, and `err instanceof Error ? err.message : fallback` |
| `utf8.dfy` | `Utf8` | UTF-8 encoding and decoding of code points, with the round trip |
| `form_urlencoded.dfy` | `FormUrlEncoded` | the application/x-www-form-urlencoded serializer of section 5.2 of the WHATWG URL Standard (what `URLSearchParams.toString()` does), and the parser of section 5.1 as its inverse |
| `alchemypay.dfy` | `AlchemyPay` | `getAlchemyPayUrl` and `isValidSolanaAddress` |
| `moonpay.dfy` | `MoonPay` | `openMoonPayWidget` and the second copy of the address check |
| `buy_sol_card.dfy` | `BuySolCard` | the card: a class `CardState` with the three fields, whose `OnChange` and `HandleBuySol` methods update them step by step in the order the source calls the setters. Each method is proved against a function of the old state (`Edited`, `ClickResult`) |

Environment variables (`NEXT_PUBLIC_ALCHEMY_PAY_APP_ID`,
`NEXT_PUBLIC_ALCHEMY_PAY_ENV`, `NEXT_PUBLIC_MOONPAY_API_KEY`) are explicit
optional-string parameters. The MoonPay SDK is a function parameter that says
whether constructing it with the given options and calling `show()` threw,
and what it threw. The assignment to `window.location.href` is a parameter
too: it says whether the assignment threw and what.

Three details of the code's behaviour that are easy to misread:

- The currency defaults are applied with `||`, so an empty string gets the
  default too, as an unset field does.
- A MoonPay failure is rejected with `Failed to open MoonPay widget: `
  followed by the underlying message.
- The length check counts UTF-16 code units, as JavaScript's `.length` does.
  `AlchemyPay.ValidAddressCharacterization` shows that this gives the same
  verdict as counting characters.

The MoonPay copy of the address check is written against the base58
alphabet spelled out as a string. The Alchemy Pay copy is written against
the character ranges of the regular expression. `MoonPay.ValidatorsAgree`
proves that the two give the same verdict on every input.

## Model

| member | source | states |
|---|---|---|
| Js.OrElseTruthy | lib/alchemypay.ts:35-38 | `a \|\| fallback` is truthy exactly when `a` is truthy or the fallback is non-empty; applying the same default twice is applying it once |
| Js.Trim | lib/alchemypay.ts:53 | `s.trim()`; what it returns is stated by `Js.TrimSlice`, `Js.TrimSpec` and the lemmas after them |
| Js.TrimSlice | lib/alchemypay.ts:53 | `trim` returns the slice of its input between a run of leading whitespace and a run of trailing whitespace |
| Js.TrimSpec | lib/alchemypay.ts:53-57 | `trim` leaves the empty string exactly when the input is all whitespace; the result never starts or ends with whitespace; a string that neither starts nor ends with whitespace is left unchanged |
| Js.TrimStartSpec | lib/alchemypay.ts:53 | trimming the start leaves a suffix of the input, drops only whitespace, and leaves no leading whitespace |
| Js.TrimEndSpec | lib/alchemypay.ts:53 | trimming the end leaves a prefix of the input, drops only whitespace, and leaves no trailing whitespace |
| Js.TrimIgnoresSurroundingWhitespace | lib/alchemypay.ts:53 | whitespace added on either side does not change the trimmed string |
| Js.TrimIdempotent | lib/alchemypay.ts:53 | trimming twice gives the same result as trimming once |
| Js.Utf16Length | lib/alchemypay.ts:60 | `.length` lies between the number of code points and twice that number, and equals it exactly when no code point lies outside the Basic Multilingual Plane |
| Utf8.EncodeChar | lib/alchemypay.ts:42 | a code point encodes to 1 to 4 bytes: a single byte equal to the code point for ASCII, otherwise a lead byte followed by continuation bytes |
| Utf8.DecodeEncode | lib/alchemypay.ts:42 | decoding the UTF-8 encoding of any string gives the string back |
| FormUrlEncoded.HexDigit | lib/alchemypay.ts:42 | a percent-encoding digit is an upper-case hexadecimal digit whose value reads back as the digit's value |
| FormUrlEncoded.Encode | lib/alchemypay.ts:42 | an encoded name or value contains only unreserved characters, `+` and `%`, so it contains no `&` and no `=` |
| FormUrlEncoded.EncodeUnreserved | lib/alchemypay.ts:39 | a string made only of unreserved characters is written unchanged |
| FormUrlEncoded.DecodeEncode | lib/alchemypay.ts:42 | percent-decoding and UTF-8-decoding an encoded name or value gives it back |
| FormUrlEncoded.Serialize | lib/alchemypay.ts:42 | the serialized query is empty exactly when there are no pairs |
| FormUrlEncoded.SerializeSnoc | lib/alchemypay.ts:34-42 | appending a pair to a non-empty list appends `&name=value` to the query |
| FormUrlEncoded.ParseSerialize | lib/alchemypay.ts:34-42 | parsing the serialized query gives back exactly the pairs, in order |
| AlchemyPay.IsValidSolanaAddress | lib/alchemypay.ts:52-67 | the address check, in the order the source makes its tests; its meaning is stated by `AlchemyPay.ValidAddressCharacterization` and the rejection lemmas after it |
| AlchemyPay.ValidAddressCharacterization | lib/alchemypay.ts:52-67 | an address is accepted exactly when its trimmed form has 32 to 44 characters, all in the base58 alphabet |
| AlchemyPay.BlankAddressRejected | lib/alchemypay.ts:53-57 | empty and whitespace-only input is rejected |
| AlchemyPay.AddressLengthOutOfRangeRejected | lib/alchemypay.ts:60-62 | a trimmed address shorter than 32 or longer than 44 characters is rejected |
| AlchemyPay.SurroundingWhitespaceIgnored | lib/alchemypay.ts:53-66 | whitespace around an address never changes the verdict |
| AlchemyPay.AmbiguousCharacterRejected | lib/alchemypay.ts:64-66 | a base58 string of 32 to 44 characters is accepted; replacing any one character by `0`, `O`, `I` or `l` makes it rejected |
| AlchemyPay.BaseUrl | lib/alchemypay.ts:23-28 | the host chosen from the environment tag; stated by `AlchemyPay.BaseUrlSelection` |
| AlchemyPay.CheckoutParameters | lib/alchemypay.ts:34-40 | the five pairs with their `\|\|` defaults; what reaches the URL is stated by `AlchemyPay.CheckoutUrlParameters` |
| AlchemyPay.GetAlchemyPayUrl | lib/alchemypay.ts:21-43 | `getAlchemyPayUrl`; stated by `AlchemyPay.CheckoutUrlParameters`, `AlchemyPay.QueryEndsWithAddress` and `AlchemyPay.ValidAddressUnescaped` |
| AlchemyPay.WarnsMissingAppId | lib/alchemypay.ts:30-32 | whether the missing-app-id warning is logged; stated by `AlchemyPay.MissingAppIdTolerated` |
| AlchemyPay.BaseUrlSelection | lib/alchemypay.ts:23-28 | the production host is chosen exactly when the environment tag is `production`; an unset, empty or other tag selects the test host |
| AlchemyPay.CheckoutUrlParameters | lib/alchemypay.ts:21-43 | the URL is the selected host, `?`, and a query that parses back to exactly appId, crypto, network, fiat and address, in that order. The app id becomes empty when missing; the currency fields default to SOL, SOLANA and USD when missing or empty; the address is always the caller's |
| AlchemyPay.MissingAppIdTolerated | lib/alchemypay.ts:30-35 | a missing or empty app id logs the warning, and the URL is still built with five pairs and an empty `appId` first |
| AlchemyPay.QueryEndsWithAddress | lib/alchemypay.ts:39-42 | the URL ends with `&address=` followed by the encoded wallet address |
| AlchemyPay.ValidAddressUnescaped | lib/alchemypay.ts:39-42 | for an address the check accepts, the URL ends with `&address=` followed by the trimmed address, unescaped |
| AlchemyPay.Base58Unescaped | lib/alchemypay.ts:65 | base58 text is never changed by form-urlencoding |
| MoonPay.WidgetOptions | lib/moonpay.ts:35-49 | the options handed to the SDK; stated by `MoonPay.WidgetConfiguration` |
| MoonPay.OpenMoonPayWidget | lib/moonpay.ts:25-58 | the SDK constructor is called exactly when the API key is present and non-empty. Without a key, the call rejects with the missing-key message. With a key, it rejects exactly when the SDK throws |
| MoonPay.MissingKeyIgnoresSdk | lib/moonpay.ts:27-31 | without a key, the outcome does not depend on the SDK at all: it is the missing-key rejection |
| MoonPay.WidgetConfiguration | lib/moonpay.ts:35-49 | the SDK gets flow `buy`, environment `production`, the key, the address verbatim, theme `dark` and colour `#9945FF`. The currency codes are the given ones, or `SOL` and `usd` when missing or empty |
| MoonPay.SdkFailureWrapped | lib/moonpay.ts:54-56 | an SDK failure rejects with `Failed to open MoonPay widget: ` followed by the thrown Error's message, or by `Unknown error` for a non-Error |
| MoonPay.RejectionsDistinct | lib/moonpay.ts:29-56 | a rejection carries the missing-key message exactly when the key was missing |
| MoonPay.IsValidSolanaAddress | lib/moonpay.ts:67-83 | the MoonPay copy of the address check; stated by `MoonPay.ValidatorsAgree` and the lemmas after it |
| MoonPay.AlphabetIsCharacterClass | lib/moonpay.ts:81-82 | a character is in the spelled-out base58 alphabet exactly when it is in `[1-9A-HJ-NP-Za-km-z]` |
| MoonPay.ValidatorsAgree | lib/moonpay.ts:67-83 | the MoonPay copy of the address check and the Alchemy Pay copy agree on every input |
| MoonPay.BlankAddressRejected | lib/moonpay.ts:69-73 | the MoonPay copy rejects empty and whitespace-only input |
| MoonPay.AddressLengthOutOfRangeRejected | lib/moonpay.ts:76-78 | the MoonPay copy rejects a trimmed address shorter than 32 or longer than 44 characters |
| MoonPay.SurroundingWhitespaceIgnored | lib/moonpay.ts:69-82 | whitespace around an address never changes the MoonPay copy's verdict |
| BuySolCard.ClickResult | components/BuySolCard.tsx:21-58 | what a click leaves behind, as a function of the state before it; stated by `BuySolCard.EmptyAddressClick`, `BuySolCard.InvalidAddressClick`, `BuySolCard.SuccessfulClick`, `BuySolCard.FailedNavigationClick` and the lemmas after them |
| BuySolCard.Edited | components/BuySolCard.tsx:115-118 | the state after typing; stated by `BuySolCard.EditingClearsError` |
| BuySolCard.BuyDisabled | components/BuySolCard.tsx:141 | the button's `disabled` condition; stated by `BuySolCard.EditingClearsError`, `BuySolCard.NoDoubleSubmit` and `BuySolCard.EnabledButtonHasAddress` |
| BuySolCard.CardState.constructor | components/BuySolCard.tsx:14-16 | the card starts with an empty address, not loading, and no error |
| BuySolCard.CardState.OnChange | components/BuySolCard.tsx:115-118 | typing stores the value and clears the error; loading is untouched |
| BuySolCard.CardState.HandleBuySol | components/BuySolCard.tsx:21-58 | the new state and the redirect are those `ClickResult` gives for the old state and the checkout URL built from the old address |
| BuySolCard.StaleErrorIrrelevant | components/BuySolCard.tsx:23 | the error shown before a click never influences the click, because it is cleared before any check |
| BuySolCard.ClickKeepsAddress | components/BuySolCard.tsx:21-58 | a click never changes the typed address |
| BuySolCard.EmptyAddressClick | components/BuySolCard.tsx:26-29 | a whitespace-only address shows the empty-address message, leaves loading unchanged and does not navigate |
| BuySolCard.InvalidAddressClick | components/BuySolCard.tsx:31-34 | a non-blank address the check rejects shows the invalid-address message, leaves loading unchanged and does not navigate |
| BuySolCard.SuccessfulClick | components/BuySolCard.tsx:36-48 | a valid address with a navigation that goes through sets loading, shows no error and navigates to the checkout URL |
| BuySolCard.CardCheckoutUrl | components/BuySolCard.tsx:40-45 | for a valid address, the checkout URL has the environment's host and a query that reads back as the app id, SOL, SOLANA, NGN and the trimmed address. The trimmed address appears unescaped at the end |
| BuySolCard.FailedNavigationClick | components/BuySolCard.tsx:50-56 | when the navigation throws, loading goes back off, there is no redirect, and the thrown Error's message (or the generic message) is shown |
| BuySolCard.RedirectExactlyWhenValid | components/BuySolCard.tsx:26-48 | the page navigates exactly when the address is valid and the navigation does not throw. A click that does not navigate leaves loading off if it was off |
| BuySolCard.FailureVisible | components/BuySolCard.tsx:26-56 | a click that does not navigate always leaves a non-empty error, unless an Error with an empty message was thrown |
| BuySolCard.EnabledButtonHasAddress | components/BuySolCard.tsx:139-141 | while the button is enabled, a click cannot end with the empty-address message, unless the navigation itself threw that text |
| BuySolCard.NoDoubleSubmit | components/BuySolCard.tsx:37-48 | after a click that navigates, the button is disabled |
| BuySolCard.EditingClearsError | components/BuySolCard.tsx:115-141 | typing clears the error and keeps loading. The button is then disabled exactly when the new value is whitespace-only or a checkout is under way |

## Left out

- Rendering: JSX, SVGs and CSS classes in `components/BuySolCard.tsx` are presentation. `app/layout.tsx` and `app/page.tsx` hold only metadata and layout.
- `console.warn` and `console.error` are logging. The Alchemy Pay warning is kept as the predicate `AlchemyPay.WarnsMissingAppId`; the MoonPay error log is not modelled.
- The MoonPay SDK is a foreign library. Its construction and `show()` are one oracle parameter that either succeeds or throws.
- `openMoonPayWidget` is `async`. Its promise is modelled by its outcome, a rejection message or none, and not by scheduling.
- React's batching of state updates is not modelled. The handlers update the fields one after another, and only the state after the handler is observed.
- The handler's closure over the state of the render it belongs to is reduced to one read: the handler reads the address once, at its start.
- The navigation itself (`window.location.href`) is I/O. Only the URL assigned, and whether the assignment threw, are modelled.
- Determinism of `getAlchemyPayUrl` holds by construction: it is a Dafny function of its two inputs, the environment included.
- The input's `disabled={isLoading}` is not modelled as a guard on `OnChange`. That guard only affects which events the page can deliver.
- The `+` in `/^[1-9A-HJ-NP-Za-km-z]+$/` is written as "non-empty". Regular-expression matching in general is not modelled.
- FormUrlEncoded.Parse returns `None` on bytes that are not well-formed UTF-8, where the URL Standard's parser substitutes U+FFFD. The serializer never produces such bytes, so the round trip is unaffected.
- A string holding a lone surrogate cannot be expressed: a Dafny `char` is a Unicode scalar value.
