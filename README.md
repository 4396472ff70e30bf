# iwillnotblunder: sign-in with Lichess and the attack overlay, in Dafny

This project models two parts of the iwillnotblunder web application and
proves properties of each.

**The Lichess OAuth/session subsystem** (`functions/`) covers the following:

- **The signed-token codec.** A cookie value is `base64(JSON(payload)) + "." + base64(HMAC-SHA256(body, secret))`.
  - `createSessionCookie` builds it.
  - `verifySessionCookie` splits it at the last `.`, checks the tag and decodes the body. Every failed check gives `null`; an empty secret throws.
- **The `Cookie` header parser and the PKCE cookie reader.**
- **The login handler.** It does the following:
  - it renders 32 random bytes as a 64-digit hex code verifier;
  - it derives the S256 challenge of section 4.2 of RFC 7636;
  - it builds the authorization request of section 4.1.1 of RFC 6749;
  - it signs `{state, code_verifier}` into the `pkce` cookie.
- **Three handlers over two tables.**
  - The OAuth callback validates the request, exchanges the code, upserts the user, inserts a session row and issues the session cookie.
  - `/api/me` resolves the session cookie through the sessions⋈users join.
  - `/api/logout` deletes the session row.

The tables are two maps, `auth_users` and `auth_sessions`. The handlers that write to them are methods on a `Store` class that holds both maps.

Base64 (section 4 of RFC 4648, with the forgiving decoder browsers use), base64url (section 5 of RFC 4648, unpadded), UTF-8, `encodeURIComponent`/`decodeURIComponent` and `URLSearchParams` are modelled concretely. As a result, "the tag never contains `.`" and "atob inverts btoa" are theorems, not assumptions.

The following are parameters of the model, with laws in `Utils.Lawful`:

- HMAC-SHA256 and SHA-256: 32-byte digests;
- `JSON.stringify`/`JSON.parse`: parse inverts stringify on JSON values, and stringify keeps Latin-1 text Latin-1;
- the Lichess token and account endpoints (`Callback.Provider`);
- the fresh UUIDs, the random bytes and the clock.

JavaScript values are the `JsValues.JsValue` datatype. That module also models truthiness, `||`, `String(v)` and property access. A thrown exception is a `Failure` of a `Result`. The model covers these exceptions:

- `URIError` from a malformed percent escape in a cookie;
- `DataError` from importing an empty HMAC key;
- `InvalidCharacterError` from `btoa`;
- `TypeError` from reading a property of `undefined`;
- `RangeError` from `toISOString`;
- the primary-key conflict on a session insert.

**The attack-map and overlay logic** (`src/main.ts`) covers the following:

- square coordinates;
- the attack lists of `enumerateAttacksFor`: pawns, knights and kings by offsets, and sliding pieces by rays that stop at the first occupied square;
- the per-colour 8×8 control counts of `computeControl`;
- the mapping from board squares to overlay cells for either perspective;
- the heat style of one cell;
- the mode/side state machine driven by the buttons and hotkeys;
- the dotted-path lookup of `getDictValue`.

The board that `chess.get` reads is a map from square to piece. `enumerateAttacksFor`, `computeControl` and `getDictValue` are methods with loops, proved against recursive specification functions. The overlay state is the `Overlay.OverlayView` class: its 64 cells are an array, and the mode and colour variables are fields.

On these points the model follows the code:

- the session expiry is `now + expires_in * 1000` milliseconds, not `now + expires_in`;
- writes already made stay in place when a later step of the callback fails: a user row upserted before a failed insert, or a session row inserted before a failed cookie signing;
- `/api/me` and `/api/logout` do throw, on a malformed percent escape in the `Cookie` header and on an empty secret;
- `exchangeCodeForToken` as written sends `OAUTH_REDIRECT_URI` as configured (`Utils.TokenRequestParams`); the callback handler of the model posts the corrected form instead (see Findings and the `Callback.Exchange` line under Left out).

## Model

| member | source | states |
|---|---|---|
| JsStrings.IndexOf | functions/_utils.ts:26 | the index returned holds the character, and no earlier index holds it; None exactly when the character is absent |
| JsStrings.LastIndexOf | functions/_utils.ts:52 | the index returned holds the character, and no later index holds it; None exactly when the character is absent |
| JsStrings.LastIndexOfJoin | functions/_utils.ts:52-55 | in `body + "." + tag` where tag has no `.`, the last `.` is at index length(body) |
| JsStrings.Split | functions/_utils.ts:24 | split gives at least one part, and no part contains the separator |
| JsStrings.JoinSplit | functions/_utils.ts:24 | joining the parts of a split with the separator gives back the input |
| JsStrings.SplitJoin | functions/_utils.ts:24 | splitting a join of separator-free parts gives back the parts |
| JsStrings.IndexOfJoin | functions/_utils.ts:26 | in `head + "=" + tail` where head has no `=`, the first `=` is at index length(head) |
| JsStrings.SplitNoSeparator | functions/_utils.ts:24 | a string without the separator splits into itself alone |
| JsStrings.TrimStart | functions/_utils.ts:27-28 | the result is a suffix that starts with no whitespace, and everything removed is whitespace |
| JsStrings.TrimEnd | functions/_utils.ts:27-28 | the result is a prefix that ends with no whitespace, and everything removed is whitespace |
| JsStrings.TrimIsInfix | functions/_utils.ts:27-28 | trim gives a contiguous slice of the input with no whitespace at either end |
| JsStrings.TrimNoOp | functions/_utils.ts:28 | trimming a string with no whitespace at its ends changes nothing |
| JsStrings.HexDigit | functions/api/oauth/login.ts:12 | a nibble renders as one of `0-9a-f` |
| JsStrings.HexValueOfDigit | functions/api/oauth/login.ts:12 | reading a rendered hex digit gives back the nibble |
| JsValues.Or | functions/api/oauth/callback.ts:16-18 | `a \|\| b` is a when a is truthy and b otherwise |
| JsValues.NatDigits | src/main.ts:128 | a number prints as a non-empty run of digits with no leading zero |
| JsValues.DigitsValueOfNatDigits | src/main.ts:131 | parseInt of the printed number gives the number back |
| JsValues.CanonicalIndex | src/main.ts:65 | a key is taken as an array index only if it is the canonical decimal form of that index |
| JsValues.CanonicalDigits | src/main.ts:65 | a digit string with no leading zero is the printed form of its own value |
| JsValues.ToJsString | functions/api/oauth/callback.ts:16-17 | `String(v)` of a string is the string; of a number, decimal text that reads back as the number and starts with `-` exactly when it is negative |
| JsValues.FieldText | functions/_utils.ts:112-113 | `String(v \|\| '')` is "" for a falsy value and the string itself for a string |
| JsValues.StringRecord | functions/api/oauth/callback.ts:40 | a record of strings is a JSON value; it is Latin-1 when every key and value is; each key reads back its string |
| Utf8.EncodeChar | functions/_utils.ts:35-37 | a character encodes to 1 to 4 bytes, and to exactly one byte iff it is ASCII |
| Utf8.Encode | functions/_utils.ts:72 | the encoding is bytes and at least as long as the text |
| Utf8.EncodeAscii | functions/_utils.ts:72 | ASCII text encodes to its own character codes |
| Utf8.DecodeEncodeChar | functions/_utils.ts:28 | the lead byte of a multi-byte encoding announces its length, and decoding gives back the character |
| UriCoding.UpperHexDigit | functions/api/oauth/login.ts:25 | a nibble renders as an upper-case hex digit that reads back as the nibble |
| UriCoding.PercentEncode | functions/api/oauth/login.ts:25 | each byte becomes three characters, each a `%` or an upper-case hex digit |
| UriCoding.EncodeChar | functions/api/oauth/login.ts:25 | an encoded character is made only of unescaped characters, `%` and hex digits |
| UriCoding.EncodeUriComponent | functions/api/oauth/login.ts:25 | the encoding holds only unescaped characters, `%` and hex digits |
| UriCoding.EscapedOctet | functions/_utils.ts:28 | a well-formed `%XX` escape reads as a byte |
| UriCoding.ReadOctets | functions/_utils.ts:28 | reading k escapes gives k bytes |
| UriCoding.DecodeUriComponent | functions/_utils.ts:28 | a decoded value is never longer than its input; a malformed escape or a non-UTF-8 sequence is the URIError (None) |
| UriCoding.DecodeWithoutPercent | functions/_utils.ts:28 | text without `%` decodes to itself |
| UriCoding.ReadPercentEncoded | functions/_utils.ts:28 | percent-encoded bytes read back as those bytes |
| UriCoding.DecodeEncodedChar | functions/_utils.ts:28 | decoding an encoded character followed by a rest gives that character before the decoded rest |
| UriCoding.DecodeEncode | functions/_utils.ts:28 | decodeURIComponent inverts encodeURIComponent on every string |
| UriCoding.EncodedHasNoDelimiters | functions/api/oauth/login.ts:25 | an encoded cookie value holds no `;`, no `=` and no whitespace |
| UrlParams.GetParam | functions/api/oauth/callback.ts:5 | get is None iff no pair has the name; otherwise it returns the value of a pair with that name |
| UrlParams.GetParamAt | functions/api/oauth/callback.ts:5 | get returns the value of the first pair with the name |
| UrlParams.Without | functions/api/oauth/login.ts:16-22 | removing a name leaves no pair with it and never lengthens the list |
| UrlParams.SetParam | functions/api/oauth/login.ts:16-22 | `set` never leaves the list empty and adds at most one pair |
| UrlParams.SetKeepsOthers | functions/api/oauth/login.ts:16-22 | `set` leaves the pairs of every other name as they were, in order |
| UrlParams.SetAbsent | functions/api/oauth/login.ts:16-22 | setting a name that is absent appends the pair |
| UrlParams.GetAfterSet | functions/api/oauth/login.ts:16-22 | after set, get of that name gives the new value, and every other name reads as before |
| UrlParams.GetWithout | functions/api/oauth/login.ts:16-22 | removing one name leaves the other names' values unchanged |
| UrlParams.SetLeavesOne | functions/api/oauth/login.ts:16-22 | after set, exactly one pair carries the name, holding the new value |
| UrlParams.SearchParams.constructor | functions/_utils.ts:78 | a new parameter list is empty |
| UrlParams.SearchParams.Set | functions/api/oauth/login.ts:16-22 | the in-place loop leaves the list equal to the set specification applied to the old list |
| UrlParams.FormEncodeBytes | functions/_utils.ts:88 | form-encoded bytes contain no `&`, `=` or `#` |
| UrlParams.FormEncode | functions/_utils.ts:88 | a form-encoded string contains no `&`, `=` or `#` |
| UrlParams.PairTexts | functions/_utils.ts:88 | there is one `name=value` text per pair, in order, both halves form-encoded |
| UrlParams.Serialize | functions/_utils.ts:88 | `toString()` of no pairs is "", and the serialized query never holds `#` |
| UrlParams.SerializeSplits | functions/_utils.ts:88 | splitting the serialized form at `&` gives back exactly the pair texts |
| Base64.Letter | functions/_utils.ts:41 | every 6-bit value maps to an alphabet character, never `=` |
| Base64.ValueOf | functions/_utils.ts:59 | decoding a letter gives a 6-bit value that encodes back to the letter |
| Base64.ValueOfLetter | functions/_utils.ts:41-59 | a 6-bit value survives encoding and decoding |
| Base64.Quad | functions/_utils.ts:41 | three bytes encode to four characters |
| Base64.Unpadded | functions/_utils.ts:41 | the unpadded encoding consists of alphabet characters only |
| Base64.UnpaddedLength | functions/_utils.ts:41 | the unpadded encoding has 4 characters per full group and r+1 for a tail of r bytes |
| Base64.Btoa | functions/_utils.ts:45 | btoa succeeds iff its input is Latin-1 (otherwise InvalidCharacterError) |
| Base64.BtoaShape | functions/_utils.ts:41 | the encoding is `4⌈n/3⌉` characters, each an alphabet character or `=` |
| Base64.BtoaHasNoDot | functions/_utils.ts:47 | an encoding never contains `.` |
| Base64.RemoveAsciiWhitespace | functions/_utils.ts:59 | the result has no ASCII whitespace, and input without any is unchanged |
| Base64.StripPadding | functions/_utils.ts:59 | the unpadded data is a prefix of the input |
| Base64.DecodeChars | functions/_utils.ts:59 | decoded data is Latin-1 |
| Base64.Atob | functions/_utils.ts:59 | whatever atob decodes is Latin-1 |
| Base64.DecodeUnpadded | functions/_utils.ts:41-59 | decoding the unpadded encoding gives the input back |
| Base64.StripBtoaPadding | functions/_utils.ts:41-59 | stripping the padding of an encoding leaves the unpadded encoding |
| Base64.AtobBtoa | functions/_utils.ts:59 | atob inverts btoa on every Latin-1 string |
| Utils.BindingText | functions/_utils.ts:81 | a configured binding is its own text |
| Utils.BinaryString | functions/_utils.ts:39-40 | character i of the binary string has code bytes[i], so the string is Latin-1 |
| Utils.BuildBinaryString | functions/_utils.ts:39-40 | the append loop builds exactly the binary string of the bytes |
| Utils.EncodeEmpty | functions/_utils.ts:36 | the raw HMAC key is empty iff the secret is |
| Utils.Hmac | functions/_utils.ts:34-42 | hmac fails, with DataError, exactly when the secret is empty; otherwise the tag is 44 characters with no `.` |
| Utils.CreateSessionCookie | functions/_utils.ts:44-48 | signing succeeds iff the JSON is Latin-1 and the secret non-empty, with InvalidCharacterError or DataError otherwise; a token contains `.` |
| Utils.SplitToken | functions/_utils.ts:52-55 | None iff there is no `.`; otherwise token = body + "." + tag with no `.` in tag |
| Utils.SplitTokenJoin | functions/_utils.ts:52-55 | splitting `body + "." + tag` gives back body and tag |
| Utils.CheckSigned | functions/_utils.ts:56-62 | it fails only for an empty secret, and a tag other than hmac(body) gives null |
| Utils.VerifySessionCookie | functions/_utils.ts:50-63 | no cookie, "" or no `.` gives null; the only failure is DataError for an empty secret; a non-null result has a tag equal to hmac(body) |
| Utils.VerifyJoined | functions/_utils.ts:52-56 | verifying `body + "." + tag` checks exactly that body and tag |
| Utils.VerifyRejectsForgedTag | functions/_utils.ts:56-57 | a tag that differs from hmac(body) verifies to null |
| Utils.SessionRoundTrip | functions/_utils.ts:44-63 | verifying a created cookie with the same secret gives back the payload |
| Utils.CreateSucceeds | functions/_utils.ts:44-48 | a Latin-1 JSON payload signs under a non-empty secret |
| Utils.ReplaceAll | functions/_utils.ts:68 | the same length, with exactly the matching characters replaced |
| Utils.StripTrailing | functions/_utils.ts:68 | a prefix not ending in the character, with only that character removed |
| Utils.Base64Url | functions/_utils.ts:65-69 | base64url output has no `+`, no `/` and no trailing `=` |
| Utils.Base64UrlOfDigest | functions/_utils.ts:65-74 | a 32-byte digest gives 43 URL-safe characters |
| Utils.StripOneEquals | functions/_utils.ts:68 | a 44-character encoding with one `=` of padding loses exactly that `=` |
| Utils.DeriveCodeChallenge | functions/_utils.ts:71-75 | the challenge is 43 URL-safe characters, as section 4.2 of RFC 7636 requires |
| Utils.ParseCookiePart | functions/_utils.ts:25-29 | a part without `=` gives (trimmed part, ""); the only failure is URIError |
| Utils.ParseCookiePartOf | functions/_utils.ts:26-28 | `name=value` gives (trimmed name, decoded untrimmed value), or URIError when the value does not decode |
| Utils.ParseCookieParts | functions/_utils.ts:23-29 | it succeeds iff every part parses, giving one entry per part in order |
| Utils.NamedEntries | functions/_utils.ts:30 | exactly the entries with a non-empty name are kept |
| Utils.FromEntriesDomain | functions/_utils.ts:22 | a name is in the record iff some entry has it |
| Utils.FromEntriesLastWins | functions/_utils.ts:22-31 | for a repeated name, the last entry's value wins |
| Utils.LastNamed | functions/_utils.ts:30-31 | filtering keeps the last entry of a non-empty name as the last one with that name |
| Utils.ParseCookies | functions/_utils.ts:20-32 | it succeeds iff every part parses (else URIError); the empty name is never a key |
| Utils.CookieParts | functions/_utils.ts:21-24 | an absent header is read as "", and there is at least one part |
| Utils.ParsedCookieValue | functions/_utils.ts:20-31 | a name's value is the one from its last part |
| Utils.ParseEncodedPart | functions/_utils.ts:26-28 | `name=encodeURIComponent(v)` parses to (name, v) |
| Utils.ParseOnePart | functions/_utils.ts:21-31 | a header of one part parses to the one-entry record |
| Utils.ParseSingleCookie | functions/_utils.ts:20-31 | the header `name=encodeURIComponent(v)` parses to `{name: v}` |
| Utils.PkcePayload | functions/api/oauth/login.ts:24 | `{state, code_verifier}` is a JSON record holding the two strings, and is Latin-1 when they are |
| Utils.CreatePkceCookie | functions/_utils.ts:103-105 | for Latin-1 fields, it succeeds iff the secret is non-empty (else DataError) |
| Utils.PkceFields | functions/_utils.ts:111-115 | a falsy payload gives null; a result has both `String(x \|\| '')` fields non-empty, and a truthy payload with both fields non-empty gives exactly those two strings |
| Utils.ReadPkceCookie | functions/_utils.ts:107-116 | no `pkce` cookie gives null; a non-null result means the parsed `pkce` cookie splits at its last `.` into a body and a tag equal to hmac(body, secret), and the result is exactly the non-empty state and verifier of that verified payload |
| Utils.PkceFieldsOfPayload | functions/_utils.ts:112-115 | the fields of a PKCE payload are read back exactly |
| Utils.PkceRoundTrip | functions/_utils.ts:103-116 | the reader, given the header carrying a created PKCE cookie, returns exactly its state and verifier |
| Utils.PkceIssued | functions/_utils.ts:103-105 | an issued PKCE token contains `.` and verifies to its payload |
| Utils.PkceHeaderParses | functions/_utils.ts:107-109 | the header `pkce=<encoded token>` parses to `{pkce: token}` |
| Utils.ReadPkceOf | functions/_utils.ts:107-116 | for any header whose parsed `pkce` cookie is non-empty, the reader is verification of that cookie followed by the field checks |
| Utils.TokenRequestFor | functions/_utils.ts:78-83 | the token form is exactly grant_type, code, redirect_uri, client_id, code_verifier, in that order |
| Utils.TokenRequestParams | functions/_utils.ts:78-83 | the token form as written sends `String(OAUTH_REDIRECT_URI)` as redirect_uri |
| Http.BaseUrl | functions/_utils.ts:15-18 | the base URL is `protocol + "//" + host` |
| Http.JsonResponse | functions/_utils.ts:8-13 | the given status, the JSON body, a single `application/json` content type and a single `Access-Control-Allow-Origin: *` |
| Http.HeaderValues | functions/api/oauth/callback.ts:42-44 | the values of one header name, at most one per header line |
| Http.CookieSentBack | functions/api/oauth/callback.ts:43 | the cookie a browser sends back contains no `;` |
| Http.CookieSentBackOf | functions/api/oauth/callback.ts:43 | the browser sends back the `name=value` before the attributes |
| AuthStore.Upsert | functions/api/oauth/callback.ts:21-24 | the row is added or updated: username and title written, id and created_at kept on conflict, other rows untouched |
| AuthStore.UpsertConsistent | functions/api/oauth/callback.ts:21-24 | the upsert keeps every session's user present |
| AuthStore.UpsertIdempotent | functions/api/oauth/callback.ts:21-24 | upserting the same user twice equals upserting once, with the first created_at kept |
| AuthStore.SessionUser | functions/api/me.ts:7-11 | the join has a row iff the session exists and its user exists, and the row is that user |
| AuthStore.Store.constructor | functions/api/oauth/callback.ts:21-38 | the store starts with the two given tables |
| AuthStore.Store.UpsertUser | functions/api/oauth/callback.ts:21-24 | the users table becomes the upsert of the old one, and sessions are unchanged |
| AuthStore.Store.InsertSession | functions/api/oauth/callback.ts:27-38 | the insert fails with a constraint error iff the id is taken, changing nothing; otherwise it adds the row |
| AuthStore.Store.DeleteSession | functions/api/logout.ts:6 | only that session id is removed, and users are unchanged |
| Login.HexString | functions/api/oauth/login.ts:12 | `toString(16)` gives lower-case digits, one digit iff the value is below 16, with no leading zero |
| Login.SliceFromEnd | functions/api/oauth/login.ts:12 | `slice(-k)` is the last min(k, n) characters |
| Login.HexByteDigits | functions/api/oauth/login.ts:12 | `('0' + b.toString(16)).slice(-2)` is the high then the low nibble digit |
| Login.CodeVerifier | functions/api/oauth/login.ts:11-13 | the verifier has two lower-case hex digits per byte |
| Login.CodeVerifierSpells | functions/api/oauth/login.ts:11-13 | byte i is at positions 2i and 2i+1, high nibble first |
| Login.HexBytes | functions/api/oauth/login.ts:11-13 | reading back gives one byte per two digits |
| Login.CodeVerifierDecodes | functions/api/oauth/login.ts:11-13 | the verifier determines the random bytes: reading it back gives them |
| Login.CodeVerifierValid | functions/api/oauth/login.ts:11-13 | 32 bytes give a verifier of 43 to 128 unreserved characters (section 4.1 of RFC 7636) that is Latin-1 |
| Login.UuidIsLatin1 | functions/api/oauth/login.ts:10 | a UUID state is non-empty Latin-1, so it can be signed |
| Login.RedirectUri | functions/api/oauth/login.ts:5 | the configured URI when non-empty, else `base + "/api/oauth/callback"` |
| Login.AuthorizationRequest | functions/api/oauth/login.ts:16-22 | exactly the seven parameters in order, with redirect_uri, S256, the challenge and the state reading back |
| Login.ReadsAfterSets | functions/api/oauth/login.ts:16-22 | after the successive sets, each later-set parameter reads its own value |
| Login.HandleLogin | functions/api/oauth/login.ts:3-27 | it fails (DataError) iff the secret is empty; otherwise a 302 to the authorization URL with the pkce Set-Cookie |
| Login.PkceSetCookieReadsBack | functions/api/oauth/login.ts:24-25 | the cookie the browser returns from the Set-Cookie line reads back as `{state, verifier}` |
| Login.PkceSetCookie | functions/api/oauth/login.ts:25 | the Set-Cookie line names `pkce` and ends with `Path=/; HttpOnly; SameSite=Lax; Max-Age=600` |
| Login.PkceSentBack | functions/api/oauth/login.ts:25 | the browser sends back `pkce=<encoded token>` |
| Login.LoginCookieReadsBack | functions/api/oauth/login.ts:10-25 | the PKCE cookie carries the same state as the URL and the verifier whose challenge the URL carries |
| Callback.ReturnedState | functions/api/oauth/callback.ts:10 | the `state` parameter, or "" when it is absent |
| Callback.Validate | functions/api/oauth/callback.ts:4-11 | a rejection is a 400; a cleared request has a non-empty code and a verified PKCE cookie whose state equals the returned one |
| Callback.ValidateChain | functions/api/oauth/callback.ts:5-11 | missing code, missing PKCE, a reader exception and a state mismatch each give their own answer, in that order |
| Callback.TokenForm | functions/_utils.ts:78-88 | the posted body splits at `&` into the five `name=value` texts of the corrected form, in order |
| Callback.TokenFormAsWritten | functions/_utils.ts:78-88 | whenever OAUTH_REDIRECT_URI is set and non-empty, the posted body is the as-written form of `exchangeCodeForToken` |
| Callback.TokenRequestFixed | functions/_utils.ts:81 | the corrected token form carries login's redirect URI |
| Callback.Property | functions/api/oauth/callback.ts:14 | `v.key` throws TypeError iff v is null or undefined, else reads the property |
| Callback.OptionalProperty | functions/api/oauth/callback.ts:16 | `v?.key` is undefined for null or undefined, else reads the property |
| Callback.ProfileFields | functions/api/oauth/callback.ts:16-18 | the fallback orders id → user.id → username and username → name → "unknown"; a truthy title is kept as it is and a falsy one becomes null |
| Callback.ToNumber | functions/api/oauth/callback.ts:36 | a number converts to itself; `[]` converts to 0 and a one-element array of a non-negative number to that number |
| Callback.ExpiresAt | functions/api/oauth/callback.ts:36 | null for a falsy lifetime, else `now + expires_in*1000`; RangeError outside the Date range |
| Callback.SessionRowFor | functions/api/oauth/callback.ts:26-38 | the row has the fresh id, the user, 'lichess', the token, refresh token or null, scope or 'board:play', and the expiry |
| Callback.SessionPayload | functions/api/oauth/callback.ts:40 | `{sid, uid, u}` is a JSON record holding the three strings |
| Callback.FetchIdentity | functions/api/oauth/callback.ts:13-18 | the identity comes from the token response, its access_token and the profile fields of the account response |
| Callback.Persist | functions/api/oauth/callback.ts:21-45 | the users table is always the upsert, and a taken session id leaves the sessions unchanged |
| Callback.SignedIn | functions/api/oauth/callback.ts:42-45 | the sign-in answer is a 302 with no body whose only `Location` is `/` |
| Callback.PersistWrites | functions/api/oauth/callback.ts:21-45 | at most one session row is added, under the fresh id for the upserted user; success carries the cookie signed over that row |
| Callback.Exchange | functions/api/oauth/callback.ts:13-45 | a failed token or profile fetch escapes with both tables unchanged; once the identity is fetched, the user row is upserted |
| Callback.Callback | functions/api/oauth/callback.ts:3-46 | a validation failure or rejection is the answer, and neither table changes; a cleared request is `Callback.Exchange` with its code and PKCE fields |
| Callback.HandleCallback | functions/api/oauth/callback.ts:3-46 | the handler on the store gives the answer and the new tables of the callback specification |
| Callback.PersistOn | functions/api/oauth/callback.ts:21-45 | the writes on the store match the persist specification |
| Callback.CallbackKeepsConsistent | functions/api/oauth/callback.ts:3-46 | every outcome, failures after a write included, keeps every session's user present |
| Callback.ExchangeKeepsConsistent | functions/api/oauth/callback.ts:13-45 | the exchange keeps every session's user present |
| Callback.PersistKeepsConsistent | functions/api/oauth/callback.ts:21-38 | the writes keep every session's user present |
| Callback.ExchangeSignIn | functions/api/oauth/callback.ts:13-45 | a successful exchange adds only the session row for the stored user, and its cookie verifies to `{sid, uid, u}` of that row |
| Callback.CallbackSignIn | functions/api/oauth/callback.ts:3-45 | a 302 happens only after code, PKCE and state checks pass, and it signs in exactly as above |
| Callback.TokenRedirectMismatch | functions/_utils.ts:81 | with OAUTH_REDIRECT_URI unset or empty, the token request's redirect_uri differs from login's |
| Callback.TokenRedirectMatches | functions/_utils.ts:81 | the corrected token request always sends login's redirect_uri and equals the original when the binding is set |
| Me.SessionId | functions/api/me.ts:10 | `String(session.sid)` is the sid itself for a string, and "undefined" when the payload has no `sid` |
| Me.CookieSession | functions/api/me.ts:4-5 | a header that does not parse throws URIError; no session cookie gives null; the only other exception is the empty-secret DataError |
| Me.UserView | functions/api/me.ts:12 | the user view has exactly id, username and title from the user row |
| Me.AuthenticatedAs | functions/api/me.ts:12 | the authenticated answer names that user and differs from the unauthenticated answer |
| Me.Resolve | functions/api/me.ts:6-12 | authenticated iff the session is truthy and its sid joins to a user; the answer is that user |
| Me.Me | functions/api/me.ts:3-13 | it throws iff reading the cookie throws; otherwise the answer is 200 with the resolved session |
| Me.ResolveReadsOnlySid | functions/api/me.ts:7-10 | two sessions with the same sid resolve alike, so uid and u are not trusted |
| Me.ResolveIgnoresTokens | functions/api/me.ts:12 | the answer depends only on which user each session names, never on tokens |
| Logout.LoggedOut | functions/api/logout.ts:4-6 | it throws iff reading the cookie throws; a verified cookie removes just its sid, and otherwise the sessions are unchanged |
| Logout.HandleLogout | functions/api/logout.ts:3-8 | users are never changed; on success the answer is the 204 clearing the session, with the new sessions as specified |
| Logout.LogoutIdempotent | functions/api/logout.ts:6 | logging out twice with the same cookie equals logging out once |
| Logout.LogoutKeepsConsistent | functions/api/logout.ts:6 | deleting a session keeps every session's user present |
| Logout.MeAfterLogout | functions/api/logout.ts:6 | after logout, `/api/me` with the same cookie answers `{authenticated: false}` |
| AuthFlow.SessionSentBack | functions/api/oauth/callback.ts:43 | the browser sends back `session=<encoded token>` |
| AuthFlow.SessionHeaderParses | functions/api/me.ts:4-5 | that header parses to `{session: token}` |
| AuthFlow.ReturnedSession | functions/api/me.ts:4-5 | the cookie sent back from the Set-Cookie line reads as the signed payload |
| AuthFlow.PayloadNamesSession | functions/api/oauth/callback.ts:40 | the payload is truthy and its sid is the session id |
| AuthFlow.SessionCookieRead | functions/api/me.ts:4-5 | reading `session=<encoded token>` is verifying the token |
| AuthFlow.SetCookieLines | functions/api/oauth/callback.ts:42-44 | the sign-in answer sets the session cookie, then clears pkce |
| AuthFlow.SignInMeLogout | functions/api/oauth/callback.ts:40-45 | after a sign-in, `/api/me` with the returned cookie names the user; logout removes exactly that row, and `/api/me` then answers unauthenticated |
| Board.ToSq | src/main.ts:128 | an in-bounds pair names a square `a1`..`h8` |
| Board.ToSqSpells | src/main.ts:128 | the name is the file letter followed by the decimal text of r + 1 |
| Board.FromToSq | src/main.ts:127-132 | fromSq inverts toSq on every in-bounds pair |
| Board.ToFromSq | src/main.ts:128-132 | toSq inverts fromSq on a two-character name of an in-bounds square |
| Board.ToSqInjective | src/main.ts:128 | two in-bounds pairs share a name iff they are equal |
| Board.SlideDirections | src/main.ts:177-179 | every sliding direction is a unit step |
| Board.RayTargets | src/main.ts:180-188 | the while loop collects exactly the ray specification from the next square |
| Board.LeapTargets | src/main.ts:150-172 | the offset loop collects exactly the in-bounds offset squares, in order |
| Board.SlideTargets | src/main.ts:177-189 | the direction loop collects the rays of every direction, in order |
| Board.EnumerateAttacksFor | src/main.ts:134-190 | the method returns exactly the attack specification for the piece |
| Board.LeapsExactly | src/main.ts:150-172 | a square is a leap target iff some offset lands on it in bounds; at most one per offset |
| Board.RayOnBoard | src/main.ts:182 | every ray square is on the board |
| Board.RaysOnBoard | src/main.ts:180-188 | every square of the rays is on the board |
| Board.LeapsOnBoard | src/main.ts:150-172 | every leap target is on the board |
| Board.AttacksOnBoard | src/main.ts:140-190 | every attacked square is on the board |
| Board.PawnAttacks | src/main.ts:147-152 | a pawn attacks only the in-bounds forward diagonals, at most 2, whatever the position |
| Board.KnightAttacks | src/main.ts:154-164 | exactly the in-bounds knight offsets, at most 8, whatever the position |
| Board.KingAttacks | src/main.ts:166-175 | exactly the in-bounds king offsets, at most 8, whatever the position |
| Board.RayPath | src/main.ts:180-188 | a ray starts at its first square and each square is one step from the previous one |
| Board.RayPassesEmpty | src/main.ts:182-187 | every ray square before the last is empty |
| Board.RayEnds | src/main.ts:182-187 | a ray is empty iff it starts off the board; a ray ends at an occupied square or at the edge |
| Board.RaysAppend | src/main.ts:180-188 | the rays of two direction lists are the rays of the first followed by those of the second |
| Board.QueenIsBishopThenRook | src/main.ts:177-179 | a queen's targets are the bishop's targets followed by the rook's |
| Control.Tally | src/main.ts:203-208 | counting a list of targets adds its occurrences to the grid |
| Control.VisitSquare | src/main.ts:199-208 | one square's piece adds its attacks to its colour's grid |
| Control.VisitFile | src/main.ts:198-209 | one file's squares are counted in rank order |
| Control.ComputeControl | src/main.ts:192-212 | `white[r][f]` and `black[r][f]` are the occurrences of the square in that colour's attack lists |
| Control.VisitedHas | src/main.ts:197-209 | a target is among the visited lists iff an earlier square's list holds it |
| Control.Controlled | src/main.ts:192-211 | a count is positive iff some piece of that colour attacks the square; otherwise the cell stays 0 |
| Overlay.ViewCell | src/main.ts:266-278 | an in-bounds square maps to an overlay cell in 0..63 |
| Overlay.ViewCellRoundTrip | src/main.ts:266-278 | the cell maps back to its square, in either perspective |
| Overlay.ViewSquareRoundTrip | src/main.ts:266-278 | every cell 0..63 is the cell of the in-bounds square it maps back to, so with the previous row the mapping is a bijection |
| Overlay.ViewsAreRotated | src/main.ts:266-267 | black's cell for a square is white's rotated by 180 degrees |
| Overlay.CellShowsControl | src/main.ts:257-289 | a cell is shown iff the mode is on and its count is positive; blue for mine, red for the opponent; alpha `min(0.7, v/6)` |
| Overlay.NothingWhenNone | src/main.ts:232-235 | with the overlay off, every cell is hidden |
| Overlay.AlphaMonotone | src/main.ts:272-275 | the alpha never decreases as the count grows |
| Overlay.StepRemembers | src/main.ts:311-338 | every action keeps the overlay showing either nothing or the last mode chosen |
| Overlay.ToggleTwice | src/main.ts:311-314 | toggling twice restores the state, and a toggle switches between off and on |
| Overlay.ToggleAfterHide | src/main.ts:317-322 | hide then toggle shows the last chosen mode |
| Overlay.SwitchSideTwice | src/main.ts:334-338 | switching side twice restores the state, and it leaves the modes alone |
| Overlay.HotkeysAreCaseBlind | src/main.ts:319-332 | exactly a/A, o/O, m/M and h/H are bound; a/A toggles and h/H hides |
| Overlay.OverlayView.constructor | src/main.ts:12-14 | the start state is opponent mode, last mode opponent, white, and the cells show it |
| Overlay.OverlayView.Refresh | src/main.ts:227-291 | the new mode is set, the other fields are kept, and the 64 cells show the position in that mode |
| Overlay.OverlayView.HideAll | src/main.ts:232-235 | every cell is hidden |
| Overlay.OverlayView.DrawControl | src/main.ts:237-291 | the cells show the control counts of the position |
| Overlay.OverlayView.DrawAll | src/main.ts:260-291 | the nested loops draw every square's cell |
| Overlay.OverlayView.DrawCell | src/main.ts:278-289 | only the square's own cell is written |
| Overlay.OverlayView.ToggleOverlay | src/main.ts:311-314 | the toggle button steps the state machine and redraws |
| Overlay.OverlayView.ShowOpponentControl | src/main.ts:315 | the opponent button sets both modes to opponent and redraws |
| Overlay.OverlayView.ShowMyControl | src/main.ts:316 | the mine button sets both modes to mine and redraws |
| Overlay.OverlayView.HideOverlay | src/main.ts:317 | the hide button turns the overlay off, keeps the last mode and redraws |
| Overlay.OverlayView.SwitchMySide | src/main.ts:334-338 | switching side flips the colour, keeps the modes and redraws |
| Overlay.OverlayView.KeyDown | src/main.ts:319-332 | a bound key steps the state machine; any other key changes nothing, cells included |
| Locale.GetDictValue | src/main.ts:61-69 | the loop returns the lookup of the path's dot-separated segments |
| Locale.LookupAppend | src/main.ts:64-67 | looking up a longer path is looking up its tail in the result of its head |
| Locale.UndefinedStaysUndefined | src/main.ts:66 | once a segment is missing, the result is undefined |
| Locale.SplitAtDot | src/main.ts:62 | a path splits at its first dot into the head and the split of the rest |
| Locale.DottedKey | src/main.ts:61-69 | `head.rest` is the lookup of rest in the value at head |
| Locale.MissingSegment | src/main.ts:65-66 | a segment that is not an own property gives undefined |

## Left out

- Cryptography is not computed. HMAC-SHA256, SHA-256, `JSON.stringify` and `JSON.parse` are function parameters with the laws in `Utils.Lawful`. Real digests, the JSON text format and `TextEncoder` on the secret are not modelled beyond those laws.
- `fetch` is not modelled. The token and account endpoints are `Callback.Provider` results. HTTP status codes and the error message text of a failed fetch are not modelled.
- D1 is not modelled as SQL. It is two maps with upsert, insert-if-absent, join lookup and delete. SQL text, driver errors other than the primary-key conflict, and the `await` points between writes are not modelled.
- Time is a parameter. `now` is an integer count of milliseconds, and `created_at`/`expires_at` are kept as that integer rather than its `toISOString` text. The callback reads the clock twice (`new Date()` for `created_at`, then `Date.now()` for the expiry base after the upsert's `await`); the model uses the one `now` for both.
- `crypto.randomUUID` and `crypto.getRandomValues` become parameters: a state satisfying `Login.IsUuid`, 32 bytes and a session id.
- `JsValues.JsValue` numbers are integers. Floating point, `NaN` and `Infinity` are not modelled.
- Callback.ToNumber: converts integers, booleans, null, the empty string, decimal-digit strings and arrays (through their `join(',')` text). Other strings (signs, decimals, exponents, surrounding whitespace, hex) are treated as NaN, which gives a RangeError in `Callback.ExpiresAt`. An object is always NaN: its `valueOf` and `toString` are not consulted.
- Callback.Exchange: posts the corrected token form (`Callback.TokenForm`, built on `Callback.TokenRequestFixed`), not the as-written `Utils.TokenRequestParams`. With OAUTH_REDIRECT_URI unset or empty the program sends "undefined" or "" as `redirect_uri` and the model sends login's fallback URI. Whenever the binding is set and non-empty the two coincide (`Callback.TokenFormAsWritten`). The provider is unconstrained, so no other result depends on the difference.
- Callback.Callback: a cleared request goes through `Callback.Exchange`, so it models the corrected token request described on the previous line.
- Callback.HandleCallback: equals `Callback.Callback`, so it models the corrected token request as well.
- JsValues.ToJsString: an object always prints as `[object Object]`. An own `toString` key, which makes `String(v)` throw or print something else in JavaScript, is not modelled.
- Strings are sequences of Unicode scalar values. A lone surrogate, on which `encodeURIComponent` throws, cannot be represented. `length` and the index properties of a string (`JsValues.OwnProperty`, used by `getDictValue`) count scalar values where JavaScript counts UTF-16 code units, so they differ for characters outside the Basic Multilingual Plane.
- `json()` is modelled for its status, its body, its content type and the `Access-Control-Allow-Origin: *` header it adds. The `_middleware.ts` CORS handling and `lichess-proxy.ts` are not part of this model.
- The header order of a `Response` is kept as a list. `Headers` lower-casing of names is not modelled.
- Board.ToSq: requires an in-bounds pair. Every caller in `src/main.ts` passes one. The text `toSq` would build for other numbers is not modelled.
- Board.FromSq: `parseInt` of a non-digit gives NaN, which the model returns as `None`. No square the program builds reaches that case.
- chess.js is not modelled. Move legality, FEN loading, `updateMovable` and `chess.move` are left out, and `chess.get` is the map `Board.Position`. The FEN, reset and move handlers are therefore modelled only through the redraw they trigger (`Overlay.OverlayView.Refresh`).
- Control.ComputeControl: the source picks the colour's grid for each target, and the model adds the whole list to the colour's grid. Both increment the same cells.
- Overlay.CellShowsControl: the alpha is a real number rather than a floating-point value. `alpha.toString()` and the `toFixed(2)` pixel geometry are not modelled.
- DOM work is left out: Chessground, `ensureOverlayAttached`, resize handling, `requestAnimationFrame`, timers and CSS. `ensureOverlayCells` becomes the 64-cell array that `Overlay.OverlayView.constructor` allocates.
- `applyLocale`, `localStorage` and the two locale dictionaries are left out. `Locale.GetDictValue` is modelled over any JavaScript value.
- Concurrency between requests is left out: two callbacks racing on one code.

## Findings

| source | as written | input that shows it | evidently intended | confidence | as-written member | corrected member |
|---|---|---|---|---|---|---|
| functions/_utils.ts:81 | the token request sends `env.OAUTH_REDIRECT_URI` as `redirect_uri`, while login sends `OAUTH_REDIRECT_URI \|\| base + "/api/oauth/callback"` (functions/api/oauth/login.ts:5) | OAUTH_REDIRECT_URI unset: the token request sends "undefined"; OAUTH_REDIRECT_URI "": it sends "" — either way not the URI login used, which section 4.1.3 of RFC 6749 requires to be identical | the token request sends the same redirect URI as the authorization request | not executed | Utils.TokenRequestParams, Callback.TokenRedirectMismatch | Callback.TokenRequestFixed, Callback.TokenRedirectMatches |
