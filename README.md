# The "who am I" endpoint of a dual-mode authentication gateway

This project models `AuthController::me`. The endpoint answers a bearer credential
with the caller's identity.

- **Federated mode** (`KEYCLOAK_ENABLED` truthy): the endpoint takes the user that the
  identity middleware has already attached to the request.
- **Simplified mode**: the endpoint reads the bearer token. It answers 401 when the token
  is missing. Otherwise it base64-decodes the token and takes the text before the first
  `:` as the claimed email. It then looks up the first user row with exactly that email.

In both modes, a missing user or a user whose `status` is not 1 gets 403. An active user
gets 200 with a projection of the user row.

Modules:

- `AuthController` (`auth_controller.dfy`): the data model (`Mode`, `User`, `Payload`,
  `Response`), the endpoint `Me`, and the properties of its decision table.
- `PhpStrings` (`php_strings.dfy`): PHP `explode` on a one-character separator and its
  inverse `implode`. `explode(':', s)[0]` is `FirstPiece(':', s)`.
- `Base64` (`base64.dfy`): a strict decoder and its encoder, in the standard alphabet of
  section 4 of RFC 4648. `Me` takes the decoder as a parameter. This codec is the one
  concrete decoder the lemmas use.
- `Wrappers` (`wrappers.dfy`): `Option`. `None` stands for PHP `null`.

The request, the environment, the user table and `base64_decode` are all parameters of
`Me`:

- `mode` is the environment flag.
- `bearer` is `$request->bearerToken()`.
- `attributeUser` is the request attribute `user`.
- `store` is the user table, in the order that `first()` meets its rows.
- `decode` stands for `base64_decode`. `None` stands for a `false` result, which the
  endpoint's lenient call never gives.

Strings are PHP byte strings: a Dafny `string` whose characters are all below 256, one
character per byte. `User.email`, the bearer token and the decoded claim are all such
strings, so a UTF-8 email is compared byte by byte. The two error messages are held the
same way, as the UTF-8 bytes of their text: `ã` is the two characters `\U{c3}\U{a3}` and
`á` is `\U{c3}\U{a1}`. The JSON body that `response()->json` builds from them is not
modelled.

Points about the code that the model follows:

- Lines 28-30 show the evident intent to fall back to the raw token when decoding fails.
  That fallback never runs: neither `base64_decode` nor `explode` throws. The endpoint
  calls `base64_decode` without the strict flag. In that mode PHP does not fail: it skips
  the characters outside the alphabet and decodes the rest, so a plain email used as a
  token is decoded to other bytes, and those bytes are looked up. `DecodedToken` maps a
  failing decoder's `false` to `""`, as PHP's coercion would; only a failing decoder,
  such as the strict codec of module `Base64`, reaches that case.
- The endpoint checks the bearer token only in simplified mode. In federated mode it
  never answers 401: a request without an attached user gets 403.
- The 401 test is PHP's `!$email`. It therefore rejects the token `"0"` as well as a
  missing or empty token (`Truthy`).

## Model

| member | source | states |
|---|---|---|
| `AuthController.Me` | provider.php:10-47 | every answer has status 200, 401 or 403; 200 is exactly the success answer; 401 happens exactly in simplified mode with a null, empty or `"0"` token |
| `AuthController.Truthy` | provider.php:20 | no contract of its own: `Me` and `MissingTokenIsUnauthenticated` state that exactly a null, empty or `"0"` token is answered 401 |
| `AuthController.MissingTokenIsUnauthenticated` | provider.php:19-22 | in simplified mode a falsy token is answered 401 with the fixed message, and the answer is the same for every attached user, user table and decoder |
| `AuthController.ClaimIsTextBeforeFirstColon` | provider.php:24-27 | the claim is a prefix of the decoded token, contains no `:`, stops at the first `:` or at the end, and is the whole decoded token when that has no `:` |
| `AuthController.ClaimOfEmailAndSecret` | provider.php:26-27 | a token that decodes to `a@x.com:secret` gives the claim `a@x.com` |
| `AuthController.DecodedToken` | provider.php:26-27 | no contract of its own: `ClaimIsTextBeforeFirstColon` states what the claim is in terms of it, `EncodedCredentialResolvesEmail` its value for a decoded credential and `PlainEmailTokenGivesEmptyClaim` its `""` for a failing decoder |
| `AuthController.Claim` | provider.php:26-27 | no contract of its own: `ClaimIsTextBeforeFirstColon` and `ClaimOfEmailAndSecret` state that it is the text of the decoded token before the first `:` |
| `AuthController.FirstIndexByEmail` | provider.php:32 | the index found holds a row whose email equals the claim, no earlier row has that email, and none is found exactly when no row has it |
| `AuthController.FindByEmail` | provider.php:32 | a user found is a row of the table with exactly the claimed email, and none is found exactly when no row has that email |
| `AuthController.FoundUserIsFirstMatch` | provider.php:32 | a user is found iff some row has the claimed email; the user found is a row with that email and no earlier row has it |
| `AuthController.Authorize` | provider.php:35-46 | the answer is a success exactly for a present user with status 1; every other answer is 403 with the fixed message |
| `AuthController.Project` | provider.php:39-46 | no contract of its own: `SuccessProjectsActiveUser` states the field mapping of the success body |
| `AuthController.ForbiddenUnlessActive` | provider.php:35-36 | in either mode, once past the token check, no user or a user whose status is not 1 is answered 403 with the fixed message |
| `AuthController.SuccessProjectsActiveUser` | provider.php:35-46 | the answer is 200 iff the resolved user exists with status 1; its payload copies id, name, nome and email, maps funcao to role and permissao to acesso (absent as null); in simplified mode that user is a row whose email is the claim |
| `AuthController.FederatedDependsOnlyOnAttachedUser` | provider.php:12-16 | in federated mode the answer is never 401, is the status gate applied to the attached user, and is the same for every bearer token, user table and decoder |
| `AuthController.EncodedCredentialResolvesEmail` | provider.php:24-32 | with the strict decoder, the base64 of `email:secret` (email free of `:`) is answered exactly as the lookup of `email` is |
| `AuthController.PlainEmailTokenGivesEmptyClaim` | provider.php:25-30 | with the strict decoder, a token containing `@` fails to decode and gives the empty claim, never the token itself |
| `PhpStrings.Explode` | provider.php:27 | `explode` gives at least one piece, no piece contains the separator, and implode joins the pieces back into the input |
| `PhpStrings.ExplodeImplode` | provider.php:27 | exploding the implode of separator-free pieces gives back those pieces, so `explode` is the unique such split |
| `PhpStrings.FirstPiece` | provider.php:27 | `explode(sep, s)[0]` is a prefix of `s` without `sep` that ends at the first `sep` or at the end of `s` |
| `PhpStrings.FirstPieceUnique` | provider.php:27 | any prefix without `sep` that ends at a `sep` or at the end of `s` is `explode(sep, s)[0]` |
| `PhpStrings.FirstPieceWithoutSeparator` | provider.php:27 | a string without the separator is its own first piece |
| `PhpStrings.FirstPieceBeforeSeparator` | provider.php:27 | the first piece of `e + sep + rest`, with `e` free of `sep`, is `e` |
| `Base64.Encode` | provider.php:26 | the encoding of `n` bytes has `4 * ceil(n / 3)` characters |
| `Base64.EncodeBytesLength` | provider.php:26 | `n` byte values are encoded as `4 * ceil(n / 3)` codes, padding included |
| `Base64.Decode` | provider.php:26 | whatever it decodes to is a byte string; `DecodeEncode` and `EncodeDecode` state that it inverts `Encode` and accepts nothing else |
| `Base64.DecodeEncodeBytes` | provider.php:26 | decoding the 6-bit codes of a byte sequence gives back the bytes |
| `Base64.EncodeDecodeCodes` | provider.php:26 | every code sequence the decoder accepts is the encoding of what it decodes to |
| `Base64.DecodeEncode` | provider.php:26 | decoding the encoding of a byte string gives back that string |
| `Base64.EncodeDecode` | provider.php:26 | whatever the decoder accepts is the encoding of its result, so it accepts exactly the encoder's outputs |
| `Base64.CharsToCodesOfCodesToChars` | provider.php:26 | reading back the codes of the characters written for a code sequence gives that sequence |
| `Base64.CodesToCharsOfCharsToCodes` | provider.php:26 | the characters of the codes read from a string give back the string |
| `Base64.BytesCharsRoundTrip` | provider.php:26 | a byte string and its sequence of byte values convert into each other without loss |
| `Base64.DecodeRejectsForeignCharacter` | provider.php:26 | a string with a character outside the alphabet and `=` does not decode |

## Left out

- Laravel's `Request`, `response()->json` and JSON serialisation are framework I/O. The request is given as its parts, and the answer is the `Response` datatype.
- Reading `KEYCLOAK_ENABLED` from the process environment is a foreign call. The mode is a parameter.
- `User::where('email', ...)->first()` is a database query. It is modelled as an exact-match search over a sequence. The database's collation, which may make email comparison case- or trailing-space-insensitive, is not modelled. A query without `orderBy` has no fixed row order; the model takes the sequence order.
- PHP's `base64_decode` runs in non-strict mode. That mode skips characters outside the alphabet and accepts missing padding. The endpoint is proved for every decoder. The lemmas that name a concrete decoder use the strict codec of section 4 of RFC 4648, not PHP's lenient one.
- The `catch` fallback to the raw token (provider.php:28-30) cannot be reached, as noted above. The model has no such path.
- `PlainEmailTokenGivesEmptyClaim` and `DecodeRejectsForeignCharacter` are properties of the strict stand-in codec, not of the endpoint: PHP's lenient `base64_decode` decodes a plain email token such as `a@x.com` (from `axcom`) to other bytes and looks those up, instead of yielding the empty claim.
- `$user->status != 1` is PHP's loose comparison. `status` is modelled as an integer, so comparisons between strings and numbers do not arise.
- The identity middleware that attaches the federated user is not part of this model. That includes fetching the key set and checking the JWT signature and expiry. Federated mode only receives an optional user.
- The client session controller, the route guard and the login endpoint are not part of this model. Their source is not among the modelled files.
