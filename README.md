# Bearer-token checking: key manager and access-token validator

This project models the two classes that check bearer tokens: `KeyManager` and
`AccessTokenValidator`.

- `KeyManager` loads RSA public keys from PEM files and keys them by file name.
- `AccessTokenValidator` checks an RS256-signed JWT in compact serialisation,
  as described in section 7.1 of RFC 7515 and in RFC 7519. It then reads the
  caller's user id out of the token and records the outcome on a caller-owned
  response.

The modules are:

- `Wrappers`: `Option` (Java's `null`) and `Result`.
- `JavaStrings`: the `java.lang.String` and Spring `StringUtils` behaviour the
  code relies on, on `seq<char>`:
  - `hasText`, using `Character.isWhitespace`;
  - ASCII `equalsIgnoreCase`;
  - `lastIndexOf`/`substring`;
  - `String.join("", …)`;
  - `split` on a one-character regex, which drops trailing empty pieces.
- `Json`: the claim maps Jackson produces, and the three ways the validator reads
  a claim:
  - `toString()`;
  - the `(Integer)` cast, which succeeds only for integral values within the
    32-bit range;
  - the `(String)` cast, which can give `null`, a string, or a
    `ClassCastException`.
- `Foreign`: the library calls, passed in as a `Codecs` value of partial
  functions:
  - base64url and base64 decoding;
  - JSON parsing;
  - X.509 key parsing;
  - RSA-SHA256 verification.
- `Pem`: the cleaning `loadPublicKey` does before base64 decoding. It is three
  `replaceAll` calls, each modelled as the regex engine's single left-to-right
  scan with greedy dashes.
- `KeyStore`:
  - the file walk result;
  - the per-file load;
  - the fold `LoadKeys`, which is what `init` leaves in the map;
  - the `KeyManager` class, whose `keyMap` field is updated by a loop proved
    against that fold.
- `TokenValidation`:
  - `Validate`, which is `validateToken` with the reason for rejection kept;
  - the `AccessTokenValidator` class: `checkIss`, `verifyUserToken` and
    `fetchUserIdFromAccessToken`, which writes the status, the error message and
    the HTTP code of an `ApiResponse`.

The models follow the code. Where the code departs from the standards it
implements or from its own Javadoc, the model keeps the code's behaviour:

- **Segments.** Section 7.1 of RFC 7515 defines a compact JWS as exactly three
  base64url parts separated by two dots. The code splits on "." with Java's
  `split`, which drops trailing empty pieces, and asks only for at least three
  pieces. Extra segments are ignored, and empty header and body segments pass
  the guard. An empty signature segment gets through only when something other
  than dots follows it.
- **Expiry.** Section 4.1.4 of RFC 7519 requires the current time to be before
  `exp`. The code rejects only `now > exp`, so a token is still accepted in its
  expiry second.
- **Missing `sub`.** The Javadoc of `verifyUserToken`
  (AccessTokenValidator.java:89-95) promises the user id or "Unauthorized".
  With a missing or null `sub` it returns `null`, and
  `fetchUserIdFromAccessToken` passes that on without touching the response.
- **Empty token.** Only a `null` token gets 400. An empty or blank token gets
  401.
- **Expiry message.** Every rejected token gets the message "Access token is
  expired", whatever the reason for the rejection.

## Model

| member | source | states |
|---|---|---|
| `JavaStrings.HasText` | src/main/java/org/igot/common/util/AccessTokenValidator.java:48 | `StringUtils.hasText` is false for null and for the empty string, and otherwise true exactly when some character is not whitespace |
| `JavaStrings.JavaSplit` | src/main/java/org/igot/common/util/AccessTokenValidator.java:52 | `split("\\.")` gives the whole string when it holds no dot; otherwise a prefix of the pieces between dots, none holding a dot, that drops only empty pieces and does not end with one |
| `JavaStrings.JavaSplitFirstThree` | src/main/java/org/igot/common/util/AccessTokenValidator.java:52-60 | the first three pieces of `token.split("\\.")` are the text before the first dot, between the first two dots and between the second and third, whenever the third is non-empty or something other than dots follows it |
| `JavaStrings.JavaSplitThree` | src/main/java/org/igot/common/util/AccessTokenValidator.java:52-60 | "h.b.s" with dot-free parts and a non-empty s splits into exactly [h, b, s] |
| `JavaStrings.JavaSplitTrailingSeparator` | src/main/java/org/igot/common/util/AccessTokenValidator.java:52-54 | "h.b." splits into at most the two pieces [h, b] (trailing empty pieces dropped) |
| `JavaStrings.DropTrailingEmptyLonger` | src/main/java/org/igot/common/util/AccessTokenValidator.java:52-54 | after dropping trailing empty pieces more than n pieces remain iff some piece at index n or later is non-empty |
| `JavaStrings.JoinSplit` | src/main/java/org/igot/common/util/AccessTokenValidator.java:52 | cutting a string at every separator and joining the pieces back gives the string |
| `JavaStrings.SplitJoin` | src/main/java/org/igot/common/util/AccessTokenValidator.java:52 | cutting a join of separator-free pieces gives back exactly those pieces |
| `JavaStrings.AfterLast` | src/main/java/org/igot/common/util/AccessTokenValidator.java:108 | `s.substring(s.lastIndexOf(c) + 1)` is a suffix of s free of c, all of s when s has no c, and otherwise is preceded by a c |
| `JavaStrings.AfterLastIdempotent` | src/main/java/org/igot/common/util/AccessTokenValidator.java:108 | stripping up to the last ':' a second time changes nothing |
| `JavaStrings.AfterLastOfQualified` | src/main/java/org/igot/common/util/AccessTokenValidator.java:108 | for any namespace ns and a c-free id, stripping ns + c + id gives id |
| `JavaStrings.EqualsIgnoreCaseIsUpperCaseEquality` | src/main/java/org/igot/common/util/AccessTokenValidator.java:125 | equalsIgnoreCase holds iff the upper-cased strings are equal (so it is an equivalence) |
| `JavaStrings.ConcatFramed` | src/main/java/org/igot/common/util/KeyManager.java:42 | joining a first line, the middle lines and a last line with "" gives first + joined middle + last |
| `JavaStrings.ConcatChars` | src/main/java/org/igot/common/util/KeyManager.java:42 | a character in no line is not in the joined text (line terminators, already stripped by readAllLines, cannot come back) |
| `Json.ClaimText` | src/main/java/org/igot/common/util/AccessTokenValidator.java:67 | `get("kid").toString()` has no value (NullPointerException) exactly when the claim is missing or JSON null, and a string claim gives its own text |
| `Json.IntegerClaim` | src/main/java/org/igot/common/util/AccessTokenValidator.java:75 | `(Integer) get("exp")` gives a value exactly when the claim is an integer in the 32-bit range, and that value is the claim's |
| `Json.StringClaim` | src/main/java/org/igot/common/util/AccessTokenValidator.java:103-105 | `(String) get(name)` is a null reference exactly for a missing or null claim and a string exactly for a string claim; the text is the claim's own string; anything else is a failed cast |
| `Pem.Clean` | src/main/java/org/igot/common/util/KeyManager.java:68-70 | the cleaned key never holds a carriage return or a line feed |
| `Pem.RemoveRuns` | src/main/java/org/igot/common/util/KeyManager.java:68-69 | one `replaceAll` pass only removes: the result is no longer than the text, holds no character the text lacks, and loses at least the whole match when one starts at the front |
| `Pem.RemoveLineBreaks` | src/main/java/org/igot/common/util/KeyManager.java:70 | no CR or LF is left, and text without them is unchanged |
| `Pem.CleanCanonical` | src/main/java/org/igot/common/util/KeyManager.java:68-70 | any number (at least one) of dashes, BEGIN PUBLIC KEY, dashes, a non-empty body without dashes or line breaks, dashes, END PUBLIC KEY, dashes, cleans to exactly the body |
| `Pem.CleanKeepsPlainText` | src/main/java/org/igot/common/util/KeyManager.java:68-70 | text with no dash and no line break (spaces and tabs included) comes through unchanged |
| `Pem.RemoveRunsDropsRun` | src/main/java/org/igot/common/util/KeyManager.java:68-69 | a whole `-+word-+` run at the front is removed, all its dashes included |
| `Pem.RemoveRunsKeepsDashFree` | src/main/java/org/igot/common/util/KeyManager.java:68-69 | dash-free text in front of the rest is kept as it is |
| `Pem.RemoveRunsWithoutWord` | src/main/java/org/igot/common/util/KeyManager.java:68-69 | text that cannot hold the word is unchanged |
| `Pem.MatchLengthOfRun` | src/main/java/org/igot/common/util/KeyManager.java:68 | the match at d dashes, the word and e dashes has length d + |word| + e (both dash runs greedy) |
| `Pem.CleanEmptyBody` | src/main/java/org/igot/common/util/KeyManager.java:68-69 | with an empty body the BEGIN match swallows the END line's leading dashes, so "END PUBLIC KEY" and its trailing dashes survive cleaning |
| `Pem.SinglePassLeavesGluedRun` | src/main/java/org/igot/common/util/KeyManager.java:68 | one replaceAll pass can leave a `-word-` run formed from text around a removed run |
| `KeyStore.FileName` | src/main/java/org/igot/common/util/KeyManager.java:43 | the base name is the '/'-free tail of the path |
| `KeyStore.RegularFiles` | src/main/java/org/igot/common/util/KeyManager.java:36-37 | the filter keeps exactly the walked paths that are regular files |
| `KeyStore.RegularFilesAppend` | src/main/java/org/igot/common/util/KeyManager.java:36-38 | filtering keeps walk order: the filter of a + b is the filter of a followed by the filter of b |
| `KeyStore.RegularFilesKeepsAll` | src/main/java/org/igot/common/util/KeyManager.java:36-38 | a walk of regular files only is kept whole and in order, so the per-file loop sees them in walk order |
| `KeyStore.LoadPublicKey` | src/main/java/org/igot/common/util/KeyManager.java:66-77 | a key is produced exactly when base64 decoding of the cleaned text and X.509 parsing of those bytes both succeed, and it is the parsed key |
| `KeyStore.LoadFile` | src/main/java/org/igot/common/util/KeyManager.java:40-43 | a file yields KeyData exactly when its lines were read and their join loads as a key; the KeyData carries the file's base name as keyId and that loaded key as publicKey |
| `KeyStore.LoadFileSucceeds` | src/main/java/org/igot/common/util/KeyManager.java:40-45 | a file is stored under k iff it was read, its joined lines load as a key, and its base name is k |
| `KeyStore.LoadKeys` | src/main/java/org/igot/common/util/KeyManager.java:38-49 | every entry of the loaded map is stored under its own keyId |
| `KeyStore.LoadKeysDomain` | src/main/java/org/igot/common/util/KeyManager.java:38-45 | a key is in the map iff some file with that base name loaded |
| `KeyStore.LoadKeysLastWins` | src/main/java/org/igot/common/util/KeyManager.java:45 | the entry for k is the one from the last file that loaded under k |
| `KeyStore.LoadKeysSkipsFailure` | src/main/java/org/igot/common/util/KeyManager.java:38-48 | a file that fails changes nothing: the map is what the other files give |
| `KeyStore.LoadKeysAppend` | src/main/java/org/igot/common/util/KeyManager.java:38-49 | loading a + b is loading a, then overriding with what b loads |
| `KeyStore.LoadKeysStep` | src/main/java/org/igot/common/util/KeyManager.java:43-45 | one more file adds its entry under its keyId, or nothing if it fails |
| `KeyStore.CanonicalFileCleansToBody` | src/main/java/org/igot/common/util/KeyManager.java:41-42 | a file of a header line, body lines and a footer line reaches the decoder as the body lines joined |
| `KeyStore.KeyManager.constructor` | src/main/java/org/igot/common/util/KeyManager.java:25-29 | the map starts empty |
| `KeyStore.KeyManager.Init` | src/main/java/org/igot/common/util/KeyManager.java:31-53 | a failed walk leaves the map unchanged; otherwise the map becomes the old one overridden by LoadKeys of the regular files, and every entry stays under its own keyId |
| `KeyStore.KeyManager.LoadEach` | src/main/java/org/igot/common/util/KeyManager.java:38-49 | the per-file loop puts exactly LoadKeys(files) over the old map, keeping every entry under its own keyId |
| `KeyStore.KeyManager.GetPublicKey` | src/main/java/org/igot/common/util/KeyManager.java:55-57 | returns the entry for the id, null iff there is none, and that entry's keyId is the id |
| `TokenValidation.DecodeObject` | src/main/java/org/igot/common/util/AccessTokenValidator.java:64 | the header (or body) decodes to claims exactly when base64url decoding and JSON parsing both succeed, and the claims are the parsed ones |
| `TokenValidation.IsExpired` | src/main/java/org/igot/common/util/AccessTokenValidator.java:133-135 | a token is expired exactly when exp is strictly before now; the expiry second itself is not expired |
| `TokenValidation.SigningInput` | src/main/java/org/igot/common/util/AccessTokenValidator.java:62 | the signing input is the header, one dot and the body, in that order |
| `TokenValidation.Pipeline` | src/main/java/org/igot/common/util/AccessTokenValidator.java:63-82 | success only with a verified signature, a body that decodes to the returned claims and an exp not before now; rejections for body, exp or expiry happen only after the signature verified; an unverified signature always rejects before the body is looked at |
| `TokenValidation.Validate` | src/main/java/org/igot/common/util/AccessTokenValidator.java:45-87 | an accepted token has text, splits into at least three pieces, and its claims hold an Integer exp with now <= exp |
| `TokenValidation.SegmentGuard` | src/main/java/org/igot/common/util/AccessTokenValidator.java:52-56 | a token with text fails the segment guard iff every piece after the second is empty |
| `TokenValidation.ValidateReadsFirstThree` | src/main/java/org/igot/common/util/AccessTokenValidator.java:52-60 | h.b.s.anything is validated on h, b, s alone when s is non-empty or non-dots follow: extra segments are ignored and empty h or b pass the guard |
| `TokenValidation.ValidateThreeSegments` | src/main/java/org/igot/common/util/AccessTokenValidator.java:52-60 | h.b.s with a non-empty s is validated on h, b and s |
| `TokenValidation.EmptySignatureRejected` | src/main/java/org/igot/common/util/AccessTokenValidator.java:52-56 | "h.b." is refused at the segment guard |
| `TokenValidation.AcceptedTokenLayout` | src/main/java/org/igot/common/util/AccessTokenValidator.java:58-72 | an accepted token is decided by its first three pieces, its signature verified over exactly the first two, and it begins with the three joined by dots |
| `TokenValidation.ExpiryBoundary` | src/main/java/org/igot/common/util/AccessTokenValidator.java:75-79 | after a verified signature and a decoded body, the token is accepted iff now <= exp (exp == now accepted) and is otherwise Expired |
| `TokenValidation.MissingExpRejected` | src/main/java/org/igot/common/util/AccessTokenValidator.java:75 | a missing, null or non-integer exp is refused even with a good signature |
| `TokenValidation.UnknownKidRejected` | src/main/java/org/igot/common/util/AccessTokenValidator.java:67-71 | a kid the key manager does not hold is refused, not a fault |
| `TokenValidation.RealmUrl` | src/main/java/org/igot/common/util/AccessTokenValidator.java:141-143 | the realm URL always has text (it holds "realms/"), null properties included |
| `TokenValidation.AccessTokenValidator.constructor` | src/main/java/org/igot/common/util/AccessTokenValidator.java:32-36 | REALM_URL is ssoUrl + "realms/" + ssoRealm, fixed at construction |
| `TokenValidation.AccessTokenValidator.ValidateToken` | src/main/java/org/igot/common/util/AccessTokenValidator.java:45-87 | the result is non-empty iff the token is accepted, and is then the token's claims |
| `TokenValidation.AccessTokenValidator.CheckIss` | src/main/java/org/igot/common/util/AccessTokenValidator.java:123-131 | true iff iss is not null and equals REALM_URL ignoring case (the blank-realm guard never fires) |
| `TokenValidation.AccessTokenValidator.UserIdOf` | src/main/java/org/igot/common/util/AccessTokenValidator.java:98-110 | "Unauthorized" for an empty payload, a rejected issuer or a non-string sub; null iff issuer accepted and sub missing or null; a sub with text gives the part after its last ':' (all of it when it has none), a blank sub comes back as it is |
| `TokenValidation.AccessTokenValidator.VerifyUserToken` | src/main/java/org/igot/common/util/AccessTokenValidator.java:96-115 | "Unauthorized" whenever the token is refused, otherwise the user id read from the accepted claims |
| `TokenValidation.PlainSubjectKept` | src/main/java/org/igot/common/util/AccessTokenValidator.java:105-108 | a subject with no ':', such as "alice", comes back whole |
| `TokenValidation.SubjectNamespaceStripped` | src/main/java/org/igot/common/util/AccessTokenValidator.java:107-109 | a subject ns:id gives back id, however many ':' the namespace holds |
| `TokenValidation.UnauthorizedIgnoresCase` | src/main/java/org/igot/common/util/AccessTokenValidator.java:150 | the 401 test takes an id for "Unauthorized" exactly when it upper-cases to "UNAUTHORIZED"; a null id never is |
| `TokenValidation.AccessTokenValidator.FetchUserIdFromAccessToken` | src/main/java/org/igot/common/util/AccessTokenValidator.java:145-171 | null token: Failed, "Access token validation is failed", 400, null; "Unauthorized" in any case: Failed, "Access token is expired", 401, null; otherwise the id, response untouched |

## Left out

- RSA-SHA256 verification, base64url and base64 decoding, Jackson parsing (with `new String(bytes)`'s default charset) and X.509 key parsing are partial functions passed in as `Codecs`; their internals are not part of this model.
- The file system: the walk is given as its result (a list of paths with a regular-file flag and the lines `readAllLines` returns, or nothing when the walk throws); UTF-8 decoding and the base path lookup in `CommonProperties` are not modelled.
- `Time.currentTime()` is the parameter `now`.
- Logging has no effect on results and is left out; the `Rejection` kinds stand for what is only logged.
- Spring wiring, `CommonProperties`, `CommonUtilAutoConfiguration` and `ProjectUtil` are configuration plumbing; the validator receives `ssoUrl` and `ssoRealm` directly.
- `ApiResponse` and `ApiRespParam` keep only the fields `fetchUserIdFromAccessToken` writes; `params` is never null in the model.
- Concurrency and `HashMap` thread-safety: the code has no concurrency logic.
- `JavaStrings.EqualsIgnoreCase`: ASCII case folding only, not Java's full Unicode case mapping.
- `KeyStore.FileName`: paths are '/'-separated as the walk produces them; `Path` normalisation (trailing separators, other separators) is not modelled.
- `TokenValidation.AccessTokenValidator.FetchUserIdFromAccessToken`: the catch block that sets 500 is not modelled, because `verifyUserToken` catches every exception itself, so nothing reaches it.
- `Pem.Clean`: only the two marker patterns and line breaks are modelled, as in the code; other PEM headers are left in the text and base64 decoding rejects them.
