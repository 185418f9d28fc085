# PAYUNi TypeScript SDK: a Dafny model of the envelope codec and the trade dispatcher

This project models the core of the PAYUNi payment-gateway SDK for TypeScript and proves
properties of that model. The core has three parts.

- **`CryptoHelper`** (`src/utils/crypto.ts`) puts a trade's fields into an envelope.
  - It serializes a field map to a canonical `application/x-www-form-urlencoded` query
    string: keys are sorted, `null`/`undefined` values are dropped, and `empty=1` is
    sent when nothing is left.
  - It seals that string with AES-256-GCM and frames the result as
    `hex(base64(ciphertext) ":::" base64(tag))`.
  - `decrypt` reverses these steps, folding `name[...]` keys into arrays.
  - The integrity hash is the upper-case hex SHA-256 of `key ++ envelope ++ iv`, and it
    is compared case-insensitively.
- **`PayuniApi`** (`src/PayuniApi.ts`) is the dispatcher.
  - It validates a trade's fields for one of sixteen modes.
  - It builds the posted parameters: `MerID`, `Version`, `EncryptInfo`, `HashInfo` and an
    optional `IsPlatForm`. LINE Pay's version `1.0` becomes `1.1`.
  - For UPP it hands back the payment form. Any other mode is posted to the mode's
    endpoint.
  - `processApiResponse` interprets gateway replies in this order: status, then hash
    check, then decryption.
  - `resultProcess` interprets ReturnURL/NotifyURL callbacks in the same order, after
    parsing JSON text.
- **`src/types.ts`** holds the sixteen `PaymentMode` names, the records exchanged with the
  gateway, and the choice of sandbox or production host.

## Layout

| file | module | what it holds |
|---|---|---|
| `wrappers.dfy` | `Wrappers` | `Option`, `Result` |
| `utf8.dfy` | `Utf8` | UTF-8 encoding and WHATWG decoding with U+FFFD replacement |
| `hex.dfy` | `Hex` | Node's `toString('hex')` and its lenient `Buffer.from(s, 'hex')` |
| `base64.dfy` | `Base64` | base 64 (section 4 of RFC 4648), padded |
| `js_string.dfy` | `JsString` | `trim`, ASCII case mapping, `indexOf`, `split` |
| `js_value.dfy` | `JsValue` | JavaScript scalar values, truthiness, `String(v)`, objects as ordered key/value lists |
| `code_unit_order.dfy` | `CodeUnitOrder` | the default `Array.prototype.sort` order (UTF-16 code units) and a sort |
| `urlencoded.dfy` | `UrlEncoded` | `URLSearchParams` serializing and parsing (sections 5.1 and 5.2 of the WHATWG URL Standard) |
| `query_codec.dfy` | `QueryCodec` | `objectToQueryString` / `queryStringToObject` as specification functions |
| `primitives.dfy` | `Primitives` | AES-256-GCM and SHA-256 as function values, and the properties assumed of them |
| `types.dfy` | `Types` | `src/types.ts` |
| `crypto.dfy` | `Crypto` | `CryptoHelper` |
| `payuni_api.dfy` | `Payuni` | `PayuniApi` |

## How the model is built

- **Loops become methods.** `objectToQueryString` and `queryStringToObject` loop over keys
  and pairs, so they are methods with loop invariants:
  - `Crypto.CryptoHelper.ObjectToQueryString` is proved equal to the specification
    function `QueryCodec.QueryString`.
  - `Crypto.CryptoHelper.QueryStringToObject` is proved equal to `QueryCodec.DecodeFields`.
  - The `Encrypt` and `Decrypt` methods call them, and are proved equal to
    `CryptoHelper.Envelope` and `CryptoHelper.Opened`.
  - The round-trip and authenticity lemmas are stated over those functions.
- **Fields written once are `const`.** Both classes set their fields only in the
  constructor. Their methods therefore change nothing.
- **The primitives are parameters.**
  - An `Aead` value (a `seal` and an `open` function) stands for AES-256-GCM.
  - A function from bytes to bytes stands for SHA-256.
  - Both are passed to the constructors.
  - The lemmas that need them assume `Primitives.IsGcm` or `Primitives.IsSha256`:
    - the ciphertext is as long as the plaintext and the tag is 16 bytes;
    - opening what was sealed gives the plaintext back, with the whole tag or with an
      accepted prefix of it. Node's decipher, created without `authTagLength`, checks
      a tag of 4, 8 or 12 to 16 bytes against the start of the full tag;
    - opening succeeds only on the ciphertext that sealing produces, with such a tag;
    - digests are 32 bytes.
  - `Primitives.TransparentIsGcm` shows these properties can hold together.
- **The transport and `JSON.parse` are parameters.**
  - `UniversalTrade` takes the HTTP transport as a function from the request to the
    reply, or to the client error's message.
  - It returns the request it handed to the transport, if any. So "UPP makes no POST" is
    `sent == None`.
  - `ResultProcess` takes `JSON.parse` as a function that returns the parsed reply or the
    syntax error's message.
- **Input objects keep their insertion order.** A JavaScript object is a list of distinct
  keys with values, so "insertion order does not matter" is a real theorem.
- **The decoded result is a map.** Each field is a string, or the array built from
  `name[...]` keys.
- **`resultProcess` repeats the decryption prefix.** `decrypt` already prefixes its
  errors with `Decryption failed: `, and `resultProcess` adds the prefix again. The
  callback's message is therefore `Decryption failed: Decryption failed: ...`.
  `Payuni.ResultProcessDoublePrefix` states this.

Three behaviours of the code are easy to misread. The model keeps each of them as the code
has it.

- **Key order.** Keys are ordered by the default JavaScript sort, which compares UTF-16
  code units, and not by byte value. The two orders differ between characters from U+E000
  to U+FFFF and characters above U+FFFF.
- **Unknown modes.** An unknown mode passes validation. It is rejected only after
  encryption and hashing (`Invalid mode: <mode>`), not before any cryptography.
- **Trade amount.** `TradeAmt` is checked for truthiness, not positivity: `0` and `''`
  are missing, and `-1` passes.

## Model

| member | source | states |
|---|---|---|
| Types.ParseMode | src/types.ts:57-73 | A string recognised as a payment mode is that mode's name |
| Types.ParseName | src/types.ts:57-73 | Each of the sixteen modes is recognised from its own name |
| Types.SixteenModes | src/types.ts:57-73 | The union has exactly sixteen members, and their names are pairwise different |
| Types.ModeNamesExactly | src/types.ts:57-73 | A string is recognised exactly when it is the name of some mode |
| Types.BaseUrl | src/PayuniApi.ts:43-47 | `'t'` and only `'t'` selects the sandbox host; anything else, `''` included, selects production |
| Crypto.CryptoHelper.constructor | src/utils/crypto.ts:7-10 | Key and IV are stored trimmed of surrounding white space |
| JsString.TrimIgnoresPadding | src/utils/crypto.ts:8-9 | A key or IV padded with white space on either side trims to the same value as the unpadded one |
| JsString.TrimIdempotent | src/PayuniApi.ts:39-50 | Trimming an already trimmed key or IV changes nothing, so the helper gets the dispatcher's key and IV |
| CodeUnitOrder.RankIsUnitOrder | src/utils/crypto.ts:91 | Comparing two characters' ranks is comparing their UTF-16 code units |
| CodeUnitOrder.BelowIsUtf16Order | src/utils/crypto.ts:91 | One string sorts before another exactly when its UTF-16 code units come first lexicographically, a proper prefix first: the default `sort` order |
| CodeUnitOrder.BelowTotal | src/utils/crypto.ts:91 | Any two different strings are ordered one way or the other |
| CodeUnitOrder.BelowTransitive | src/utils/crypto.ts:91 | The string order is transitive |
| CodeUnitOrder.Sort | src/utils/crypto.ts:91 | Sorting the keys permutes them (same multiset) |
| CodeUnitOrder.SortSorted | src/utils/crypto.ts:91 | Sorting distinct keys gives them in strictly ascending order |
| CodeUnitOrder.SortedUnique | src/utils/crypto.ts:91 | Two strictly ascending sequences with the same elements are equal, so the sorted keys depend only on the key set |
| JsValue.ToJsStringEmpty | src/utils/crypto.ts:95 | `String(v)` is empty exactly for the empty string, so `''` survives a round trip as `''` and `0` becomes `'0'` |
| JsValue.DigitsValueOf | src/utils/crypto.ts:95 | The decimal digits `String(n)` writes read back as `n` |
| JsValue.DecimalIsOne | src/utils/crypto.ts:95 | `String(n)` is `"1"` only for `n == 1`; this decides whether a field named `empty` collides with the placeholder |
| UrlEncoded.EncodeComponent | src/utils/crypto.ts:95-99 | A form-encoded name or value holds only unreserved bytes, `+` and `%`: never a raw `&` or `=` that would split a pair |
| JsString.SplitAfterClean | src/utils/crypto.ts:45 | `split(':::')` cuts at the first separator when the text before it has no `:` |
| JsString.SplitClean | src/utils/crypto.ts:45 | Text without `:` is split into one piece, so the tag half is missing |
| JsString.IndexOfChar | src/utils/crypto.ts:119 | `indexOf('[')` is the position of the first `[` |
| JsString.ToUpperAscii | src/utils/crypto.ts:81 | Upper-casing keeps the length and maps each character on its own |
| UrlEncoded.ComponentRoundTrip | src/utils/crypto.ts:95 | Percent-decoding a form-encoded name or value gives the original string back, including `&`, `+`, `=` and spaces |
| UrlEncoded.SerializeEmpty | src/utils/crypto.ts:99-101 | `URLSearchParams.toString()` is empty exactly when there are no pairs |
| UrlEncoded.ParseSerialize | src/utils/crypto.ts:99-108 | Parsing the serialized pairs gives exactly those pairs, in order |
| QueryCodec.PairsForEntry | src/utils/crypto.ts:93-97 | Every appended pair has one of the keys, a value that is neither `null` nor `undefined`, and that value's `String` |
| QueryCodec.QueryString | src/utils/crypto.ts:99-101 | The canonical query string is never empty: nothing left gives the placeholder |
| QueryCodec.NothingKeptGivesPlaceholder | src/utils/crypto.ts:99-101 | A map whose values are all `null`/`undefined` serializes to `empty=1` |
| QueryCodec.QueryStringOrderInvariant | src/utils/crypto.ts:91-101 | Two objects with the same keys and values serialize identically, whatever their insertion order |
| Crypto.CryptoHelper.ObjectToQueryString | src/utils/crypto.ts:87-102 | The loop over the sorted keys, then the placeholder rule, computes the canonical query string |
| QueryCodec.BaseKey | src/utils/crypto.ts:119 | The base name is the prefix before the first `[` |
| QueryCodec.FoldErrorSticks | src/utils/crypto.ts:111-127 | Once a `push` has thrown, the later pairs change nothing |
| QueryCodec.FoldPlain | src/utils/crypto.ts:124-126 | Pairs with plain keys decode to plain assignments |
| QueryCodec.AssignLastWins | src/utils/crypto.ts:124-126 | A plain key is present exactly when it occurs, and holds the value of its last occurrence |
| QueryCodec.Step | src/utils/crypto.ts:111-127 | One pair never removes a field. The only error is the `push` TypeError, on a `name[...]` key. A plain pair assigns its value, and a `name[...]` pair leaves an array under the base name that ends with its value |
| QueryCodec.Fold | src/utils/crypto.ts:111-127 | Running the callback over the pairs in order fails only with the `push` TypeError |
| QueryCodec.FoldInterleaved | src/utils/crypto.ts:111-127 | Plain and `name[...]` keys in any interleaving decode without error when no plain key is also a base name. Each base name holds its values in order, each plain key holds its last value, and nothing else is present |
| QueryCodec.FoldArrayRun | src/utils/crypto.ts:118-123 | `name[...]` keys with one base name give one array of their values in order of appearance |
| QueryCodec.PushOnStringFails | src/utils/crypto.ts:120-123 | `a=x&a[0]=y` throws, because `push` is called on the string `x` |
| QueryCodec.EmptyStringReplacedByArray | src/utils/crypto.ts:120-122 | An empty-string field is falsy, so a later `a[]` key replaces it with a new array |
| QueryCodec.PlaceholderPairDropped | src/utils/crypto.ts:113-115 | The pair `empty=1` is skipped |
| QueryCodec.DecodePlaceholder | src/utils/crypto.ts:113-115 | The placeholder query string decodes to the empty map |
| Crypto.CryptoHelper.QueryStringToObject | src/utils/crypto.ts:107-130 | The `forEach` over the parsed pairs computes the decoded fields, or the `push` TypeError |
| QueryCodec.RoundTrip | src/utils/crypto.ts:87-130 | Decoding the query string of an object without `name[...]` keys gives its non-null fields as strings |
| Utf8.DecodeEncode | src/utils/crypto.ts:42 | Decoding the UTF-8 of a string gives the string back |
| Hex.Encode | src/utils/crypto.ts:33 | Hex output is two lower-case digits per byte |
| Hex.DecodeEncode | src/utils/crypto.ts:42 | Hex decoding what hex encoding wrote gives the bytes back |
| Hex.DecodeReadsPairs | src/utils/crypto.ts:42 | Each byte read is the value of its pair of hex digits, in either case |
| Hex.DecodeStopsAtBadPair | src/utils/crypto.ts:42 | Reading stops only where no whole pair of hex digits remains |
| Base64.Encode | src/utils/crypto.ts:23-30 | Base 64 output has four characters per started group of three bytes, all from the base 64 alphabet |
| Base64.DecodeEncode | src/utils/crypto.ts:55-58 | Decoding base 64 gives back the bytes that were encoded |
| Crypto.Base64HasNoColon | src/utils/crypto.ts:30-45 | Base 64 text never contains `:`, so the separator can be found again |
| Crypto.CryptoHelper.Envelope | src/utils/crypto.ts:15-34 | The envelope is lower-case hex and never empty |
| Crypto.CryptoHelper.Encrypt | src/utils/crypto.ts:15-34 | Encrypting serializes the fields, seals them, and frames the ciphertext and tag |
| Crypto.CryptoHelper.Opened | src/utils/crypto.ts:39-66 | Every decryption failure is reported with the prefix `Decryption failed: ` |
| Crypto.CryptoHelper.Decrypt | src/utils/crypto.ts:39-66 | The steps of `decrypt` compute `Opened`: unframe, authenticate, open, decode |
| Crypto.FrameEnvelope | src/utils/crypto.ts:30-49 | Unframing an envelope gives the ciphertext and tag that sealing produced |
| Crypto.OpenEnvelope | src/utils/crypto.ts:15-66 | Decrypting the envelope of a query string gives what decoding that query string gives |
| Crypto.DecryptEncrypt | src/utils/crypto.ts:15-66 | `decrypt(encrypt(m))` is `m` with `null`/`undefined` dropped and the other values as strings |
| Crypto.DecryptEncryptEmpty | src/utils/crypto.ts:99-115 | `decrypt(encrypt({}))` is `{}` |
| Crypto.OpenedIsAuthentic | src/utils/crypto.ts:52-62 | A successful decryption implies the envelope carries the ciphertext that sealing some plaintext gives, and a tag the decipher accepts for it: the sealed tag or an accepted prefix of it. The fields are that plaintext decoded |
| Crypto.TruncatedTagOpens | src/utils/crypto.ts:52-59 | An envelope whose tag is cut to 4, 8 or 12 to 16 bytes decrypts to what the full envelope gives |
| Crypto.NoColonNoSeparator | src/utils/crypto.ts:45 | Text without `:` holds no `:::` |
| Crypto.CryptoHelper.Frame | src/utils/crypto.ts:42-58 | Unframing succeeds only when the hex text has `:::` after a non-empty first piece. Its only errors are the format error and the authentication error |
| Crypto.NoSeparatorEnvelope | src/utils/crypto.ts:42-49 | Hex whose text has no `:::` fails with `Decryption failed: Invalid encrypted data format` |
| Crypto.EmptyPieceEnvelope | src/utils/crypto.ts:45-49 | Hex whose text has an empty piece on either side of the first `:::` fails with the format error |
| Crypto.LeadingSeparator | src/utils/crypto.ts:45-47 | Text starting with `:::` has an empty first piece |
| Crypto.TrailingSeparator | src/utils/crypto.ts:45-47 | Text ending with its only `:::` has an empty second piece |
| Crypto.EmptyPieceText | src/utils/crypto.ts:45-49 | The hex of `:::abc`, `abc:::` or `:::` fails with the format error |
| Crypto.MalformedEnvelope | src/utils/crypto.ts:42-49 | The hex of any text without `:` (the hex of `Hello`, for one) fails with the format error |
| Crypto.NotHexEnvelope | src/utils/crypto.ts:42-65 | Text that does not start with two hex digits (`invalid_hex_data`, for one) fails with the format error |
| Crypto.CryptoHelper.GenerateHash | src/utils/crypto.ts:71-74 | The hash is upper-case hex, two digits per byte, and read back as hex it is exactly the SHA-256 digest of key ++ text ++ IV |
| Crypto.DecodeUpper | src/utils/crypto.ts:73-73 | Upper-casing a lower-case hex digest (as `toUpperCase` does) leaves the bytes it spells unchanged |
| Crypto.CryptoHelper.VerifyHash | src/utils/crypto.ts:79-82 | A hash that verifies has the generated hash's length, and each of its characters upper-cases (ASCII) to the generated one |
| Crypto.GenerateHashLength | src/utils/crypto.ts:71-74 | The hash is 64 characters long |
| Crypto.GenerateHashShape | src/utils/crypto.ts:71-74 | The hash is 64 upper-case hex digits |
| Crypto.VerifyHashCaseInsensitive | src/utils/crypto.ts:79-82 | For ASCII upper-casing, a hash verifies exactly when it is 64 characters long and each one is the generated character or its lower-case form |
| Crypto.OwnHashVerifies | src/utils/crypto.ts:79-82 | The generated hash verifies, in upper case and in lower case |
| Crypto.WrongLengthHashFails | src/utils/crypto.ts:79-82 | For ASCII upper-casing, a hash of any other length never verifies |
| Primitives.OpenSealed | src/utils/crypto.ts:52-59 | Opening what was sealed, with its whole tag, gives the plaintext back |
| Primitives.TransparentIsGcm | src/utils/crypto.ts:20-27 | The properties assumed of AES-256-GCM can hold together |
| Primitives.ConstantDigestIsSha256 | src/utils/crypto.ts:73 | The property assumed of SHA-256 can hold |
| Payuni.UrlMappingKeys | src/PayuniApi.ts:19-36 | The endpoint table (`UrlMapping`, the sixteen entries as written) has exactly the sixteen mode names as keys |
| Payuni.UrlMappingEndpoints | src/PayuniApi.ts:19-36 | No endpoint is empty, and no two modes share an endpoint |
| Payuni.ValidateFields | src/PayuniApi.ts:194-262 | Validation passes exactly with `Validation passed`, and a missing `MerID` is reported first |
| Payuni.FirstUnmetPasses | src/PayuniApi.ts:194-262 | Checking rules in order passes exactly when every rule is met |
| Payuni.FirstUnmetNamesFirst | src/PayuniApi.ts:194-262 | A failure reports the first broken rule, and every earlier rule is met |
| Payuni.PaymentByTable | src/PayuniApi.ts:206-239 | For the six payment modes, the cascade is the table `MerTradeNo`, `TradeAmt`, then the UPP URLs or the card rule |
| Payuni.ValidateByTable | src/PayuniApi.ts:194-262 | `validateFields` equals checking the mode's rule table in order |
| Payuni.ValidationPassesIff | src/PayuniApi.ts:194-262 | Validation passes exactly when every rule of the mode is met |
| Payuni.OtherModesPass | src/PayuniApi.ts:255-261 | `credit_bind_*` and unlisted modes need only `MerID` and `Timestamp` |
| Payuni.TradeAmtTruthiness | src/PayuniApi.ts:216-218 | A `TradeAmt` of `0` is missing, and one of `-1` is accepted |
| Payuni.FormPairs | src/PayuniApi.ts:90-100 | The posted fields are `MerID`, `Version`, `EncryptInfo` and `HashInfo` in that order, with `IsPlatForm` fifth exactly when it is set |
| Payuni.FormBodyParses | src/PayuniApi.ts:117 | The form body parses back into exactly the posted fields |
| Payuni.EffectiveVersion | src/PayuniApi.ts:69-81 | The version defaults to `1.0`. For `linepay`, `1.0` (given or defaulted) becomes `1.1`. Every other mode/version pair is unchanged |
| Payuni.PlatForm | src/PayuniApi.ts:98-100 | `IsPlatForm` is sent exactly when the input's is truthy, as its `String` |
| Payuni.PayuniApi.constructor | src/PayuniApi.ts:38-50 | Key and IV are trimmed, the host follows the environment, and the helper gets the same key and IV |
| Payuni.PayuniApi.RequestParams | src/PayuniApi.ts:84-100 | The parameters carry the envelope of the fields, its hash, the `MerID`, the effective version and the `IsPlatForm` rule |
| Payuni.PayuniApi.HandleUppPayment | src/PayuniApi.ts:267-293 | UPP succeeds with a form that posts the parameters to the UPP endpoint |
| Payuni.PayuniApi.UniversalTrade | src/PayuniApi.ts:66-128 | A validation failure is returned unchanged and nothing is sent. Then an unknown mode fails with `Invalid mode`, UPP returns the form with no POST, and every other mode posts the form body to its endpoint and returns the transport error or the interpreted reply |
| Payuni.PayuniApi.ProcessApiResponse | src/PayuniApi.ts:298-345 | Success requires a status other than `ERROR` and `API00003`, and then a verified hash and a successful decryption, or an unencrypted `SUCCESS` reply. Decrypted fields imply the hash verified |
| Payuni.PayuniApi.ResultProcess | src/PayuniApi.ts:133-189 | Success requires a parse and a non-empty status other than `ERROR`, and then a verified hash and a successful decryption if the data is encrypted. Decrypted fields imply the hash verified |
| Payuni.RequestHashVerifies | src/PayuniApi.ts:84-95 | The `HashInfo` sent verifies against the `EncryptInfo` sent |
| Payuni.RequestDecrypts | src/PayuniApi.ts:84-95 | The `EncryptInfo` sent decrypts to the trade's fields as strings |
| Payuni.HashedReplyOpens | src/PayuniApi.ts:316-338 | A reply whose status lets it through and whose hash was made under the merchant's key and IV succeeds with the decrypted fields, or fails with `Failed to decrypt response: ` and the decryption error |
| Payuni.AuthenticReplyDecodes | src/PayuniApi.ts:315-331 | A reply encrypted and hashed under the merchant's key and IV decodes to its fields |
| Payuni.ForgedReplyRefused | src/PayuniApi.ts:316-324 | A reply whose hash does not verify is refused before any decryption |
| Payuni.WrongLengthReplyRefused | src/PayuniApi.ts:316-324 | A reply hash of the wrong length is refused |
| Payuni.DecryptedReplyIsAuthentic | src/PayuniApi.ts:326-331 | Decrypted reply fields come from a plaintext that sealing turns into the carried ciphertext. The carried tag is the sealed tag or an accepted prefix of it |
| Payuni.ErrorStatusFirst | src/PayuniApi.ts:300-305 | An `ERROR` status wins over everything else a reply carries, and fails with the reply's message or `API error` |
| Payuni.ServerHashFailure | src/PayuniApi.ts:308-313 | An `API00003` status fails with `Hash validation failed at server`, whatever else the reply carries |
| Payuni.PlainReply | src/PayuniApi.ts:340-344 | An unencrypted reply comes back unchanged, and succeeds exactly when its status is `SUCCESS` |
| Payuni.ResultProcessDoublePrefix | src/PayuniApi.ts:163-174 | An authentically hashed callback payload that does not decrypt fails with `Decryption failed: ` before the decryption error. That error starts with the same prefix, so the message starts with it twice |
| Payuni.ResultWithoutSeparator | src/PayuniApi.ts:163-174 | An authentically hashed callback payload whose text holds no `:::` fails with `Decryption failed: Decryption failed: Invalid encrypted data format` |
| Payuni.ResultErrorStatus | src/PayuniApi.ts:144-149 | An `ERROR` callback status fails with the callback's message or `Unknown error`, before anything else |
| Payuni.ForgedResultRefused | src/PayuniApi.ts:152-160 | An encrypted callback whose hash does not verify fails with `Hash validation failed`, whatever its payload |
| Payuni.UnparsableResult | src/PayuniApi.ts:137-139 | A callback text the JSON parser refuses fails with the parser's message |
| Payuni.ResultWithoutStatus | src/PayuniApi.ts:144-149 | A callback without a status, or with an empty one, fails with its message or `Unknown error` |
| Payuni.PlainResult | src/PayuniApi.ts:177-181 | An unencrypted callback with a status is returned unchanged as success |

## Left out

- The HTTP transport is not modelled: the axios client, its headers, the 30-second timeout and the async plumbing. The transport is a function parameter, and its errors are reduced to their message.
- AES-256-GCM and SHA-256 are not computed. Their properties are assumed through `IsGcm` and `IsSha256`.
- Node's key and IV length checks are not modelled: `Invalid key length`, `Invalid initialization vector`, and `Invalid authentication tag length` for a decoded tag of the wrong size.
- Crypto.CryptoHelper.Opened: a tag of a length Node refuses (other than 4, 8 or 12 to 16 bytes), and base 64 that Node's lenient decoder would accept (missing padding, stray characters), are both reported as the authentication error. The model decodes base 64 strictly.
- Crypto.CryptoHelper.Encrypt: an exception from `createCipheriv` (a bad key or IV) is not modelled. In the source it reaches `universalTrade`'s `catch`.
- Payuni.PayuniApi.UniversalTrade: the `catch` for exceptions thrown by encryption is not modelled, for the same reason.
- The HTML text of the UPP form is not modelled. `PaymentForm` carries the form's action URL and its hidden fields.
- `JSON.parse` is a parameter that yields an `ApiResponse` or an error message. JSON `null` is not modelled: the source raises a `TypeError` when it reads `Status` from it. A JSON number, string, boolean or array is not modelled either: the source reads no `Status` from it and fails with `Unknown error`.
- The decoded object is a map, so the insertion order of its keys is not modelled. In the source, `queryStringToObject` builds an object whose keys keep the order of their first appearance.
- Payuni.PayuniApi.ResultProcess: reply fields are strings or absent. Non-string JSON values (a numeric `Status`, say) are not modelled.
- Crypto.CryptoHelper.VerifyHash: `toUpperCase` is modelled for ASCII only. A caller-supplied hash containing characters such as `ß` or `ﬀ`, which upper-case to two characters, is not modelled.
- `String(v)` is modelled for strings, integers, booleans, `null` and `undefined`. Floating-point numbers, big integers, nested objects and arrays given as field values are not modelled.
- Field names that are `Object.prototype` properties (`__proto__`, `constructor`, `toString`) are not modelled. In the source they interact with the prototype chain in `queryStringToObject` and in the `URL_MAPPING` lookup.
- Strings are sequences of Unicode scalar values. Lone surrogates, which `URLSearchParams` would replace with U+FFFD, are not modelled.
- QueryCodec.RoundTrip and Crypto.DecryptEncrypt are stated for objects without kept `name[...]` keys and without an `empty` field printing `1`. Those fields come back as arrays or are dropped, as `FoldArrayRun` and `PlaceholderPairDropped` show.
- `PayuniConfig`, `BatchQueryResult` and `TradeQueryResponse` (`src/types.ts`) are not modelled: no modelled operation uses them.
- The examples, the tests and `eslint.config.js` are not modelled.
