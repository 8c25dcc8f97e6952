# Display and argument helpers of the swap events view

This project models the pure logic inside `frontend/src/components/swap/EventsList.jsx`,
the view in which the connected account sees the hash-time-locked swap events addressed
to it and can unlock or decline a lock. The logic modelled is:

- `formatValue`: an amount in the token's smallest unit shown as a fixed-point decimal
  with six fractional digits (`ValueFormat`);
- `formatAddress` and `formatHash`: a long string shown as its first six characters,
  `...` and its last four (`AddressFormat`);
- the secret encoding of `executeUnlock`: text starting with `0x` is passed on unchanged,
  any other text becomes `0x` plus its UTF-8 bytes in lower-case hexadecimal,
  right-padded with `0` to 64 digits (`SecretEncoding`);
- the `recipientEvents` filter: the events whose recipient is the connected account,
  compared without regard to case (`RecipientFilter`);
- `getEventColor` and the `LockBuy`/`LockSell` guard on the Unlock and Decline buttons
  (`EventKinds`).

The JavaScript built-ins these rely on are modelled in `JsText` (`substring` with its
clamping and swapping of arguments, `startsWith`, `padStart`, `padEnd`, `toLowerCase`)
and `JsNumbers` (the digits of a `BigInt` literal, `BigInt.prototype.toString`, and
`Buffer`'s `'hex'` encoding). Everything is a pure function: the source computes these
values with expressions and library calls, with no loops and no mutation.

Each operation is paired with what it must agree with: `FormatValue` with `ReadAmount`,
which reads the displayed text back into smallest units; `DecimalText` with
`DigitsValue`, in both directions; `BytesHex` with `HexBytes`; the abbreviation with
plain slicing of the string; the filter with membership, subsequence order and
case-insensitivity of the account.

Two behaviours of the source that a reader might not expect are stated as lemmas rather
than corrected, since both follow from JavaScript semantics and neither loses
information: the BigInt `0n` is falsy and is shown as `0`, while the string `"0"` is
shown as `0.000000` (`ValueFormat.ZeroDisplay`); and a text secret longer than 32 bytes
is sent in full, longer than a bytes32 value (`SecretEncoding.EncodedWordBytes`).

## Model

| member | source | states |
|---|---|---|
| `JsText.Clamp` | frontend/src/components/swap/EventsList.jsx:70 | a substring index below 0 reads as 0, one past the end reads as the length, one in range as itself |
| `JsText.Substring` | frontend/src/components/swap/EventsList.jsx:70 | `substring(start, end)` is the plain slice when the indices are in order and in range, the swapped slice when reversed, and for every placement of out-of-range indices the slice between the clamped, ordered indices (from the start when an index is negative, to the end when one is past it, empty when both lie on the same side outside); never longer than the string |
| `JsText.SubstringFrom` | frontend/src/components/swap/EventsList.jsx:70 | one-argument `substring(start)` is the slice from the clamped start to the end of the string |
| `JsText.StartsWith` | frontend/src/components/swap/EventsList.jsx:137 | `startsWith(p)` holds exactly when `p` fits in `s` and agrees with `s` character by character from the front |
| `JsText.PadStart` | frontend/src/components/swap/EventsList.jsx:88 | `padStart(n, '0')` has length `max(|s|, n)`, ends with `s`, and everything before `s` is the fill character |
| `JsText.PadEnd` | frontend/src/components/swap/EventsList.jsx:144 | `padEnd(n, '0')` has length `max(|s|, n)`, begins with `s`, and everything after `s` is the fill character |
| `JsText.Lower` | frontend/src/components/swap/EventsList.jsx:19 | `toLowerCase` keeps the length, maps each character on its own, and leaves no upper-case letter |
| `JsNumbers.DecimalText` | frontend/src/components/swap/EventsList.jsx:89 | the text of a BigInt is canonical decimal (non-empty digits, no leading zero except `0`) and denotes exactly the number |
| `JsNumbers.DecimalTextOfValue` | frontend/src/components/swap/EventsList.jsx:89 | conversely, every canonical decimal text is the text of the number it denotes: toString and reading are a bijection |
| `JsNumbers.DecimalTextLength` | frontend/src/components/swap/EventsList.jsx:86-88 | a number below 10^k has at most k digits, so a remainder modulo 10^6 never needs more than six |
| `JsNumbers.LeadingZeros` | frontend/src/components/swap/EventsList.jsx:88 | zeros padded in front of digits do not change the number they denote |
| `JsNumbers.BytesHex` | frontend/src/components/swap/EventsList.jsx:143-144 | the `'hex'` text of the bytes has two characters per byte, all lower-case hexadecimal digits |
| `JsNumbers.HexRoundTrip` | frontend/src/components/swap/EventsList.jsx:143-144 | reading the lower-case hexadecimal text of bytes two digits at a time gives the bytes back |
| `ValueFormat.IsFalsy` | frontend/src/components/swap/EventsList.jsx:81 | `!value` holds for null or undefined, for a BigInt exactly when it is zero, for a string exactly when it is empty |
| `ValueFormat.ParseBigInt` | frontend/src/components/swap/EventsList.jsx:83 | `BigInt(s)` converts every non-empty all-decimal string to its value; after a `0x`, `0o` or `0b` prefix (either case) it converts exactly a non-empty run of hexadecimal, octal or binary digits to their value; it rejects every other non-empty string |
| `ValueFormat.FormatAmount` | frontend/src/components/swap/EventsList.jsx:83-89 | the text is the canonical decimal of `n / 10^6`, a point, and exactly six digits denoting `n % 10^6` |
| `ValueFormat.FormatValue` | frontend/src/components/swap/EventsList.jsx:80-94 | a falsy value shows `0`; a positive BigInt, and a non-empty string BigInt converts, show exactly the fixed-point text of the amount, which reads back as the value; a string BigInt cannot convert is returned unchanged |
| `ValueFormat.AmountReadsBack` | frontend/src/components/swap/EventsList.jsx:85-89 | integer part times 10^6 plus fractional part of the displayed text is the amount |
| `ValueFormat.FormatValueInjective` | frontend/src/components/swap/EventsList.jsx:80-94 | two different amounts are never displayed alike |
| `ValueFormat.ZeroDisplay` | frontend/src/components/swap/EventsList.jsx:81-89 | the BigInt zero shows `0` and the string `"0"` shows `0.000000` |
| `ValueFormat.TextAgreesWithBig` | frontend/src/components/swap/EventsList.jsx:81-89 | a positive amount given as its decimal string is displayed as the amount itself |
| `AddressFormat.Abbreviate` | frontend/src/components/swap/EventsList.jsx:70 | the display is the first `min(6, |s|)` characters, `...`, and the characters from `max(0, |s| - 4)` on |
| `AddressFormat.FormatAddress` | frontend/src/components/swap/EventsList.jsx:68-71 | empty exactly for a missing or empty address; otherwise the abbreviation; 13 characters for addresses of ten or more; never more than 13 |
| `AddressFormat.FormatHash` | frontend/src/components/swap/EventsList.jsx:74-77 | the same display for hashes and identifiers, with the same emptiness, shape and length |
| `AddressFormat.AbbreviationHidesMiddle` | frontend/src/components/swap/EventsList.jsx:70 | for ten characters or more the string is the display's first six characters, the hidden middle, and the display's last four |
| `SecretEncoding.EncodeTextSecret` | frontend/src/components/swap/EventsList.jsx:141-144 | `0x`, then the lower-case hex digits of the bytes, then `0` digits up to 64; length `2 + max(64, 2 * bytes)` |
| `SecretEncoding.UnlockSecret` | frontend/src/components/swap/EventsList.jsx:130-145 | no call for an empty secret; a secret starting `0x` passes unchanged; any other secret is encoded; what is sent always starts `0x` |
| `SecretEncoding.EncodedWordBytes` | frontend/src/components/swap/EventsList.jsx:141-144 | the digits after `0x` denote the secret's bytes followed by zero bytes up to 32, never truncated |
| `SecretEncoding.ShortSecretIsBytes32` | frontend/src/components/swap/EventsList.jsx:144 | a text secret of at most 32 bytes is sent as exactly 66 characters |
| `SecretEncoding.EncodingIsFixedPoint` | frontend/src/components/swap/EventsList.jsx:137-138 | what is sent, entered again, is sent unchanged |
| `RecipientFilter.IsForAccount` | frontend/src/components/swap/EventsList.jsx:19 | an event is for the account exactly when there is an account, the recipient is non-empty, and the two agree character by character up to case; never with no account |
| `RecipientFilter.RecipientEvents` | frontend/src/components/swap/EventsList.jsx:18-21 | an event is kept iff its recipient is non-empty and equals the account up to case; the result keeps the events' order |
| `RecipientFilter.RecipientEventsCount` | frontend/src/components/swap/EventsList.jsx:18-21 | every occurrence of a kept event is kept and no occurrence of a dropped one: the result's multiset is the input's restricted to the events for the account |
| `RecipientFilter.NoAccountNoEvents` | frontend/src/components/swap/EventsList.jsx:19 | with no account, or an empty one, no event is shown |
| `RecipientFilter.AccountCaseIrrelevant` | frontend/src/components/swap/EventsList.jsx:19 | an account and its lower-case form see the same events |
| `RecipientFilter.FilterIdempotent` | frontend/src/components/swap/EventsList.jsx:18-21 | filtering the shown events again changes nothing |
| `RecipientFilter.FilterAppend` | frontend/src/components/swap/EventsList.jsx:18-21 | the filter of two lists joined is the two filters joined |
| `EventKinds.EventColor` | frontend/src/components/swap/EventsList.jsx:102-117 | the default colours are given exactly to the kinds not among LockBuy, LockSell, Unlock, Retrieve, Decline |
| `EventKinds.ColorsDistinguishKinds` | frontend/src/components/swap/EventsList.jsx:102-117 | different known kinds get different colours |
| `EventKinds.OffersActions` | frontend/src/components/swap/EventsList.jsx:469-470 | a kind offers Unlock and Decline exactly when it is a known kind other than the terminal ones, that is LockBuy or LockSell |
| `EventKinds.ActionsOnlyOnCreation` | frontend/src/components/swap/EventsList.jsx:469-470 | the kinds whose cards offer Unlock and Decline are exactly those `getEventColor` (lines 102-117) colours blue or green |

## Left out

- The escrow contract itself (`AtomicSwapERC20.sol`: lock registry, lock identifier derivation, the create, unlock, decline and retrieve lifecycle) is not part of this model; its source is not among the files modelled, and `frontend/src/lib/contractrefs.js` holds only its interface as data.
- `calculateLockId`, used by `frontend/src/components/swap/SecretGenerator.jsx`, is not part of this model; it lives in a module that is not among the files modelled.
- React state and effects, the async handlers (`handleRefresh`, `handleUnlock`, `handleDecline`, `executeUnlock`, `executeDecline`), the on-chain `unlock` and `decline` calls, `copyToClipboard` with the clipboard and its timer, and the JSX rendering: user interface and I/O.
- UnlockSecret: models only the empty-secret guard of `executeUnlock`; its other guards (no event selected, wallet not connected) are UI state.
- UnlockSecret: the UTF-8 bytes of the secret are a parameter, as `TextEncoder` produces them; the UTF-8 encoding itself is not modelled.
- `formatTimestamp`: date and locale formatting of a library.
- ParseBigInt: the empty string, which `BigInt` reads as 0, is treated as not convertible; `formatValue` never passes it on, since an empty string is falsy and shows `0` first.
- ParseBigInt: surrounding whitespace, which `BigInt` trims, and a leading sign, which it accepts on decimal text, are not modelled; such strings are treated as not convertible.
- FormatValue: a JavaScript number argument and negative amounts are not modelled; amounts are unsigned on chain and arrive as BigInt or string.
- Lower: lower-cases the ASCII letters only; full Unicode case mapping is not modelled (addresses are hexadecimal).
- Strings are sequences of Unicode characters, not of UTF-16 code units, so `substring` on text with characters outside the Basic Multilingual Plane is not modelled.
- `frontend/src/components/swap/SecretGenerator.jsx` (random bytes, keccak256, ABI encoding), `frontend/src/components/swap/Decline.jsx` (depends on `ethers.isAddress` and submits a transaction), `blockchain/compile.js` (build tooling) and the layout and wiring components are outside the modelled core.
