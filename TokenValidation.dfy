/** AccessTokenValidator: checks an RS256-signed JWT in compact serialisation
    (header.body.signature, section 7.1 of RFC 7515) against the keys the key
    manager loaded, then reads the user identity and the issuer out of it. */
module TokenValidation {
  import opened Wrappers
  import opened JavaStrings
  import opened Json
  import opened Foreign
  import opened KeyStore

  const DOT: char := '.'
  const UNAUTHORIZED: string := "Unauthorized"
  const SUB: string := "sub"
  const FAILED: string := "Failed"
  const ACCESS_TOKEN_IS_EXPIRED: string := "Access token is expired"
  const ACCESS_TOKEN_VALIDATION_FAILED: string := "Access token validation is failed"

  /** Why validateToken gave up. Java throws (and logs) at each of these
      points; every one of them ends in the empty map. */
  datatype Rejection =
    | BlankToken            // StringUtils.hasText fails
    | TooFewSegments        // fewer than three pieces after the split
    | HeaderUndecodable     // base64url or JSON decoding of the header throws
    | MissingKid            // headerData.get("kid") is null
    | SignatureUndecodable  // base64url decoding of the signature throws
    | UnknownKey            // getPublicKey(kid) is null
    | InvalidSignature      // verifyRSASign returned false
    | BodyUndecodable       // base64url or JSON decoding of the body throws
    | MissingExp            // exp missing, null or not an Integer
    | Expired               // the clock is past exp
  {
    /** The stages that run only once the signature has been verified. */
    predicate AfterSignature() {
      this == BodyUndecodable || this == MissingExp || this == Expired
    }
  }

  /** `mapper.readValue(new String(decodeFromBase64(segment)), ...)`. */
  function DecodeObject(segment: string, codecs: Codecs): (r: Option<Claims>)
    ensures var bytes := codecs.base64UrlDecode(segment);
      r.Some? <==> bytes.Some? && codecs.parseObject(bytes.value).Some?
    ensures var bytes := codecs.base64UrlDecode(segment);
      r.Some? ==> r == codecs.parseObject(bytes.value)
  {
    match codecs.base64UrlDecode(segment)
    case None => None
    case Some(bytes) => codecs.parseObject(bytes)
  }

  /** The JWS signing input: the header and body segments as they appear in
      the token, joined by a dot. */
  function SigningInput(header: string, body: string): (input: string)
    ensures |input| == |header| + |body| + 1
    ensures input[..|header|] == header && input[|header|] == DOT && input[|header| + 1..] == body
  {
    header + [DOT] + body
  }

  /** The signature checks out: the header names a key the key manager holds,
      the signature segment decodes, and RSA verifies it over the signing
      input with that key. */
  predicate SignedBy(header: string, body: string, signature: string, keys: map<string, KeyData>, codecs: Codecs) {
    match DecodeObject(header, codecs)
    case None => false
    case Some(headerData) =>
      match ClaimText(headerData, "kid")
      case None => false
      case Some(kid) =>
        match codecs.base64UrlDecode(signature)
        case None => false
        case Some(sig) => kid in keys && codecs.verifyRsaSha256(SigningInput(header, body), sig, keys[kid].publicKey)
  }

  /** validateToken from the header decode on, for the first three pieces of
      the split token, in the order the Java code runs its steps. */
  function Pipeline(header: string, body: string, signature: string, keys: map<string, KeyData>, now: int, codecs: Codecs): (r: Result<Claims, Rejection>)
    ensures r.Success? ==> SignedBy(header, body, signature, keys, codecs)
    ensures r.Success? ==> DecodeObject(body, codecs) == Some(r.value)
    ensures r.Success? ==> IntegerClaim(r.value, "exp").Some? && now <= IntegerClaim(r.value, "exp").value
    ensures r.Failure? && r.error.AfterSignature() ==> SignedBy(header, body, signature, keys, codecs)
    ensures !SignedBy(header, body, signature, keys, codecs) ==> r.Failure? && !r.error.AfterSignature()
  {
    match DecodeObject(header, codecs)
    case None => Failure(HeaderUndecodable)
    case Some(headerData) =>
      match ClaimText(headerData, "kid")
      case None => Failure(MissingKid)
      case Some(kid) =>
        match codecs.base64UrlDecode(signature)
        case None => Failure(SignatureUndecodable)
        case Some(sig) =>
          if kid !in keys then Failure(UnknownKey)
          else if !codecs.verifyRsaSha256(SigningInput(header, body), sig, keys[kid].publicKey) then Failure(InvalidSignature)
          else
            match DecodeObject(body, codecs)
            case None => Failure(BodyUndecodable)
            case Some(tokenBody) =>
              match IntegerClaim(tokenBody, "exp")
              case None => Failure(MissingExp)
              case Some(exp) => if IsExpired(now, exp) then Failure(Expired) else Success(tokenBody)
  }

  /** isExpired: strictly past the expiry time, so the expiry second itself
      still counts as valid. */
  predicate IsExpired(now: int, expiration: int)
    ensures IsExpired(now, expiration) <==> expiration < now
  {
    now > expiration
  }

  /** validateToken, with the outcome kept: the blank check, the split on
      "." and the three-piece guard, then the pipeline on the first three
      pieces (any further pieces are never looked at). */
  function Validate(token: Option<string>, keys: map<string, KeyData>, now: int, codecs: Codecs): (r: Result<Claims, Rejection>)
    ensures r.Success? ==> HasText(token) && |JavaSplit(token.value, DOT)| >= 3
    ensures r.Success? ==> "exp" in r.value && IntegerClaim(r.value, "exp").Some? && now <= IntegerClaim(r.value, "exp").value
  {
    if !HasText(token) then Failure(BlankToken)
    else
      var elements := JavaSplit(token.value, DOT);
      if |elements| < 3 then Failure(TooFewSegments)
      else Pipeline(elements[0], elements[1], elements[2], keys, now, codecs)
  }

  /** A token with text passes the segment guard exactly when, cutting it at
      every dot, some piece after the second is not empty: "h.b." and "h.b"
      are refused, "h..s", ".b.s" and "..s" are not. */
  lemma SegmentGuard(t: string, keys: map<string, KeyData>, now: int, codecs: Codecs)
    requires HasText(Some(t))
    ensures Validate(Some(t), keys, now, codecs) == Failure(TooFewSegments)
        <==> forall j :: 2 <= j < |SplitAll(t, DOT)| ==> SplitAll(t, DOT)[j] == []
  {
    var pieces := SplitAll(t, DOT);
    var e := JavaSplit(t, DOT);
    if DOT !in t {
      assert pieces == [t] && e == [t];
      assert Validate(Some(t), keys, now, codecs) == Failure(TooFewSegments);
    } else {
      assert e == DropTrailingEmpty(pieces);
      DropTrailingEmptyLonger(pieces, 2);
      if |e| >= 3 {
        assert Validate(Some(t), keys, now, codecs) == Pipeline(e[0], e[1], e[2], keys, now, codecs);
        PipelineNeverTooFew(e[0], e[1], e[2], keys, now, codecs);
        assert Validate(Some(t), keys, now, codecs) != Failure(TooFewSegments);
        var j :| 2 <= j < |pieces| && pieces[j] != [];
        assert !(2 <= j < |SplitAll(t, DOT)| ==> SplitAll(t, DOT)[j] == []);
      } else {
        assert Validate(Some(t), keys, now, codecs) == Failure(TooFewSegments);
      }
    }
  }

  lemma PipelineNeverTooFew(header: string, body: string, signature: string, keys: map<string, KeyData>, now: int, codecs: Codecs)
    ensures Pipeline(header, body, signature, keys, now, codecs) != Failure(TooFewSegments)
  {
  }

  /** A dot is not whitespace, so a token holding one has text. */
  lemma DottedHasText(x: string, y: string)
    ensures HasText(Some(x + [DOT] + y))
  {
    assert (x + [DOT] + y)[|x|] == DOT;
    HasTextWitness(x + [DOT] + y, |x|);
  }

  /** A token that reads h.b.s followed by a dot and anything at all is
      validated on h, b and s alone, provided the guard lets it through: s is
      not empty or something other than dots follows. Extra segments are
      ignored, and empty header or body segments are not refused here. */
  lemma ValidateReadsFirstThree(h: string, b: string, s: string, rest: string, keys: map<string, KeyData>, now: int, codecs: Codecs)
    requires DOT !in h && DOT !in b && DOT !in s
    requires s != [] || exists i :: 0 <= i < |rest| && rest[i] != DOT
    ensures Validate(Some(h + [DOT] + (b + [DOT] + (s + [DOT] + rest))), keys, now, codecs) == Pipeline(h, b, s, keys, now, codecs)
  {
    DottedHasText(h, b + [DOT] + (s + [DOT] + rest));
    JavaSplitFirstThree(h, b, s, rest, DOT);
    var e := JavaSplit(h + [DOT] + (b + [DOT] + (s + [DOT] + rest)), DOT);
    assert e[0] == h && e[1] == b && e[2] == s by {
      assert e[..3] == [h, b, s];
    }
  }

  /** With exactly three segments and a non-empty signature, the token is
      validated on those three. */
  lemma ValidateThreeSegments(h: string, b: string, s: string, keys: map<string, KeyData>, now: int, codecs: Codecs)
    requires DOT !in h && DOT !in b && DOT !in s && s != []
    ensures Validate(Some(h + [DOT] + (b + [DOT] + s)), keys, now, codecs) == Pipeline(h, b, s, keys, now, codecs)
  {
    DottedHasText(h, b + [DOT] + s);
    JavaSplitThree(h, b, s, DOT);
  }

  /** "h.b." (the signature segment empty, nothing after it) never gets past
      the segment guard. */
  lemma EmptySignatureRejected(h: string, b: string, keys: map<string, KeyData>, now: int, codecs: Codecs)
    requires DOT !in h && DOT !in b
    ensures Validate(Some(h + [DOT] + (b + [DOT])), keys, now, codecs) == Failure(TooFewSegments)
  {
    DottedHasText(h, b + [DOT]);
    JavaSplitTrailingSeparator(h, b, DOT);
  }

  /** Whatever validateToken accepts is what the pipeline gives on the first
      three pieces of the token, the signature was verified over exactly the
      first two, and the token begins with those three joined by dots. */
  lemma AcceptedTokenLayout(t: string, keys: map<string, KeyData>, now: int, codecs: Codecs)
    requires Validate(Some(t), keys, now, codecs).Success?
    ensures var p := SplitAll(t, DOT);
      |p| >= 3 && Validate(Some(t), keys, now, codecs) == Pipeline(p[0], p[1], p[2], keys, now, codecs)
      && SignedBy(p[0], p[1], p[2], keys, codecs)
      && p[0] + [DOT] + (p[1] + [DOT] + p[2]) <= t
  {
    var p := SplitAll(t, DOT);
    assert DOT in t;
    var e := JavaSplit(t, DOT);
    assert e <= p;
    assert e[0] == p[0] && e[1] == p[1] && e[2] == p[2];
    JoinSplit(t, DOT);
    JoinFirstThree(p, DOT);
  }

  /** The text of the first three pieces, joined, begins the joined whole. */
  lemma JoinFirstThree(p: seq<string>, sep: char)
    requires |p| >= 3
    ensures p[0] + [sep] + (p[1] + [sep] + p[2]) <= Join(p, sep)
  {
    if |p| > 3 {
      JoinAppend(p[..3], p[3..], sep);
      assert p[..3] + p[3..] == p;
      assert p[..3][1..] == p[1..3];
      assert p[1..3][1..] == [p[2]];
    } else {
      assert p[1..][1..] == [p[2]];
      assert Join(p[1..], sep) == p[1] + [sep] + p[2];
    }
  }

  /** Once the signature has been verified and the body decodes, exp alone
      decides: the token is accepted exactly when the clock has not passed
      exp, so a token is still accepted in its expiry second. */
  lemma ExpiryBoundary(h: string, b: string, s: string, keys: map<string, KeyData>, now: int, codecs: Codecs, claims: Claims, exp: int)
    requires SignedBy(h, b, s, keys, codecs)
    requires DecodeObject(b, codecs) == Some(claims)
    requires IntegerClaim(claims, "exp") == Some(exp)
    ensures Pipeline(h, b, s, keys, now, codecs) == (if now <= exp then Success(claims) else Failure(Expired))
  {
  }

  /** A missing, null or non-Integer exp is refused even with a good
      signature. */
  lemma MissingExpRejected(h: string, b: string, s: string, keys: map<string, KeyData>, now: int, codecs: Codecs, claims: Claims)
    requires SignedBy(h, b, s, keys, codecs)
    requires DecodeObject(b, codecs) == Some(claims)
    requires "exp" !in claims || !claims["exp"].Int?
    ensures Pipeline(h, b, s, keys, now, codecs) == Failure(MissingExp)
  {
  }

  /** A kid the key manager does not know is refused before the signature is
      looked at. */
  lemma UnknownKidRejected(h: string, b: string, s: string, keys: map<string, KeyData>, now: int, codecs: Codecs, headerData: Claims)
    requires DecodeObject(h, codecs) == Some(headerData)
    requires ClaimText(headerData, "kid").Some? && ClaimText(headerData, "kid").value !in keys
    requires codecs.base64UrlDecode(s).Some?
    ensures Pipeline(h, b, s, keys, now, codecs) == Failure(UnknownKey)
  {
  }

  /** getRealmUrl: `ssoUrl + "realms/" + ssoRealm`, a null property printing
      as "null". */
  function RealmUrl(ssoUrl: Option<string>, ssoRealm: Option<string>): (url: string)
    ensures HasText(Some(url))
  {
    var url := Stringify(ssoUrl) + "realms/" + Stringify(ssoRealm);
    assert url[|Stringify(ssoUrl)|] == 'r';
    url
  }

  /** `UNAUTHORIZED.equalsIgnoreCase(id)`: false for a null id, true for
      "Unauthorized" in any mix of cases. */
  predicate IsUnauthorized(id: Option<string>) {
    id.Some? && EqualsIgnoreCase(UNAUTHORIZED, id.value)
  }

  /** The 401 test ignores case and nothing else: an id is taken for
      "Unauthorized" exactly when it upper-cases to "UNAUTHORIZED". */
  lemma UnauthorizedIgnoresCase(id: Option<string>)
    ensures IsUnauthorized(id) <==> id.Some? && UpperCase(id.value) == "UNAUTHORIZED"
  {
    if id.Some? {
      EqualsIgnoreCaseIsUpperCaseEquality(UNAUTHORIZED, id.value);
    }
  }

  /** The response codes fetchUserIdFromAccessToken sets: 400 and 401. The
      500 of its catch block is not modelled (see FetchUserIdFromAccessToken). */
  datatype HttpStatus = BadRequest | Unauthorized

  /** The two fields of ApiRespParam that fetchUserIdFromAccessToken writes. */
  class ApiRespParam {
    var status: Option<string>
    var errMsg: Option<string>

    constructor ()
      ensures status.None? && errMsg.None?
    {
      status := None;
      errMsg := None;
    }
  }

  /** The parts of ApiResponse that fetchUserIdFromAccessToken touches: its
      params object (never null here) and the response code. */
  class ApiResponse {
    var params: ApiRespParam
    var responseCode: Option<HttpStatus>

    constructor ()
      ensures fresh(params) && params.status.None? && params.errMsg.None? && responseCode.None?
    {
      params := new ApiRespParam();
      responseCode := None;
    }
  }

  class AccessTokenValidator {
    const keyManager: KeyManager
    const ssoUrl: Option<string>
    const ssoRealm: Option<string>
    /** REALM_URL, fixed when the validator is built. */
    const realmUrl: string := RealmUrl(ssoUrl, ssoRealm)

    constructor (keyManager: KeyManager, ssoUrl: Option<string>, ssoRealm: Option<string>)
      ensures this.keyManager == keyManager && this.ssoUrl == ssoUrl && this.ssoRealm == ssoRealm
      ensures realmUrl == Stringify(ssoUrl) + "realms/" + Stringify(ssoRealm)
    {
      this.keyManager := keyManager;
      this.ssoUrl := ssoUrl;
      this.ssoRealm := ssoRealm;
    }

    /** validateToken: the token's claims, or the empty map on any failure. */
    function ValidateToken(token: Option<string>, now: int, codecs: Codecs): (claims: Claims)
      reads keyManager
      ensures claims != map[] <==> Validate(token, keyManager.keyMap, now, codecs).Success?
      ensures claims != map[] ==> claims == Validate(token, keyManager.keyMap, now, codecs).value
    {
      match Validate(token, keyManager.keyMap, now, codecs)
      case Success(tokenBody) => tokenBody
      case Failure(_) => map[]
    }

    /** checkIss: fail-closed issuer check. The blank-realm half of the guard
        never fires, since the realm URL always holds "realms/". */
    function CheckIss(iss: Option<string>): (ok: bool)
      ensures ok <==> iss.Some? && EqualsIgnoreCase(realmUrl, iss.value)
    {
      if !HasText(Some(realmUrl)) || !(iss.Some? && EqualsIgnoreCase(realmUrl, iss.value)) then false
      else true
    }

    /** The issuer claim is a string (or null) that checkIss accepts. */
    predicate IssuerAccepted(payload: Claims) {
      var iss := StringClaim(payload, "iss");
      !iss.BadCast? && CheckIss(if iss.Text? then Some(iss.s) else None)
    }

    /** verifyUserToken once the payload is in hand: "Unauthorized" unless the
        payload is non-empty and its issuer passes; then the subject with its
        namespace (everything up to the last ':') stripped, a blank subject
        as it is, and null for a missing or null subject. A claim that is not
        a string makes the cast throw, which leaves "Unauthorized". */
    function UserIdOf(payload: Claims): (userId: Option<string>)
      ensures payload == map[] || !IssuerAccepted(payload) ==> userId == Some(UNAUTHORIZED)
      ensures userId.None? <==> payload != map[] && IssuerAccepted(payload) && StringClaim(payload, SUB).NullRef?
      ensures userId.Some? ==> ':' !in userId.value && AfterLast(userId.value, ':') == userId.value
      ensures (payload != map[] && IssuerAccepted(payload) && StringClaim(payload, SUB).Text?
               && HasText(Some(StringClaim(payload, SUB).s))) ==>
            var sub := StringClaim(payload, SUB).s;
            userId.Some? && |userId.value| <= |sub| && userId.value == sub[|sub| - |userId.value|..]
      ensures (payload != map[] && IssuerAccepted(payload) && StringClaim(payload, SUB).Text?
               && HasText(Some(StringClaim(payload, SUB).s))) ==>
            userId == Some(AfterLast(StringClaim(payload, SUB).s, ':'))
      ensures (payload != map[] && IssuerAccepted(payload) && StringClaim(payload, SUB).Text?
               && !HasText(Some(StringClaim(payload, SUB).s))) ==>
            userId == Some(StringClaim(payload, SUB).s)
      ensures (payload != map[] && IssuerAccepted(payload) && StringClaim(payload, SUB).BadCast?) ==>
            userId == Some(UNAUTHORIZED)
    {
      if payload == map[] then Some(UNAUTHORIZED)
      else
        var iss := StringClaim(payload, "iss");
        if iss.BadCast? then Some(UNAUTHORIZED)
        else if !CheckIss(if iss.Text? then Some(iss.s) else None) then Some(UNAUTHORIZED)
        else
          match StringClaim(payload, SUB)
          case BadCast => Some(UNAUTHORIZED)
          case NullRef => None
          case Text(sub) =>
            if HasText(Some(sub)) then Some(AfterLast(sub, ':'))
            else
              BlankHasNoColon(sub);
              Some(sub)
    }

    /** verifyUserToken. */
    function VerifyUserToken(token: Option<string>, now: int, codecs: Codecs): (userId: Option<string>)
      reads keyManager
      ensures !Validate(token, keyManager.keyMap, now, codecs).Success? ==> userId == Some(UNAUTHORIZED)
      ensures Validate(token, keyManager.keyMap, now, codecs).Success? ==>
        userId == UserIdOf(Validate(token, keyManager.keyMap, now, codecs).value)
    {
      UserIdOf(ValidateToken(token, now, codecs))
    }

    /** fetchUserIdFromAccessToken: a null token is a bad request; a result
        of "Unauthorized" (any case) marks the response 401 and gives null;
        anything else is returned with the response untouched. The catch
        block's 500 path is not here: verifyUserToken catches everything
        itself, so nothing reaches it. */
    method FetchUserIdFromAccessToken(accessToken: Option<string>, response: ApiResponse, now: int, codecs: Codecs)
        returns (clientAccessTokenId: Option<string>)
      modifies response, response.params
      ensures response.params == old(response.params)
      ensures accessToken.None? ==>
        clientAccessTokenId.None? && response.params.status == Some(FAILED)
        && response.params.errMsg == Some(ACCESS_TOKEN_VALIDATION_FAILED) && response.responseCode == Some(BadRequest)
      ensures accessToken.Some? ==>
        var id := old(VerifyUserToken(accessToken, now, codecs));
        if IsUnauthorized(id) then
          clientAccessTokenId.None? && response.params.status == Some(FAILED)
          && response.params.errMsg == Some(ACCESS_TOKEN_IS_EXPIRED) && response.responseCode == Some(Unauthorized)
        else
          clientAccessTokenId == id && response.params.status == old(response.params.status)
          && response.params.errMsg == old(response.params.errMsg) && response.responseCode == old(response.responseCode)
    {
      clientAccessTokenId := None;
      if accessToken.Some? {
        clientAccessTokenId := VerifyUserToken(accessToken, now, codecs);
        if IsUnauthorized(clientAccessTokenId) {
          response.params.status := Some(FAILED);
          response.params.errMsg := Some(ACCESS_TOKEN_IS_EXPIRED);
          response.responseCode := Some(Unauthorized);
          clientAccessTokenId := None;
        }
      } else {
        response.params.status := Some(FAILED);
        response.params.errMsg := Some(ACCESS_TOKEN_VALIDATION_FAILED);
        response.responseCode := Some(BadRequest);
      }
    }
  }

  /** A namespaced subject such as "f:<realm id>:<user id>" comes back as the
      bare user id, however many ':'-separated parts the namespace has. */
  lemma SubjectNamespaceStripped(v: AccessTokenValidator, payload: Claims, ns: string, id: string)
    requires payload != map[] && v.IssuerAccepted(payload)
    requires StringClaim(payload, SUB) == Text(ns + [':'] + id) && ':' !in id
    ensures v.UserIdOf(payload) == Some(id)
  {
    var sub := ns + [':'] + id;
    assert sub[|ns|] == ':';
    HasTextWitness(sub, |ns|);
    AfterLastOfQualified(ns, id, ':');
  }

  /** A subject with no namespace, such as "alice", comes back whole. */
  lemma PlainSubjectKept(v: AccessTokenValidator, payload: Claims, sub: string)
    requires payload != map[] && v.IssuerAccepted(payload)
    requires StringClaim(payload, SUB) == Text(sub) && ':' !in sub
    ensures v.UserIdOf(payload) == Some(sub)
  {
  }

  /** A string without text holds only whitespace, so no ':'. */
  lemma BlankHasNoColon(s: string)
    requires !HasText(Some(s))
    ensures ':' !in s
  {
  }
}
