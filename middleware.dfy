/**
 * api/middleware.go: the authorization check in front of the protected
 * routes. The request's `authorization` header must hold at least two
 * white-space separated fields, the first of which names the scheme
 * (compared case-insensitively with "bearer") and the second the access
 * token. Token verification (PASETO decryption and expiry) is a parameter:
 * it yields the payload or an error message.
 */
module Middleware {
  import opened Wrappers
  import opened Strings

  const AuthorizationHeaderKey := "authorization"
  const AuthorizationPayloadKey := "authorization_payload"
  const AuthorizationTypeBearer := "bearer"

  /** http.StatusUnauthorized */
  const Unauthorized := 401

  const MissingHeaderMessage := "Authorization header is not provided"
  const InvalidHeaderMessage := "Invalid authorization header!"
  const UnsupportedTypeMessage := "Unsupported authorization type "

  /**
   * What the middleware does with a request: abort it with a status and an
   * error message, or store the payload under a context key and pass the
   * request on.
   */
  datatype Verdict<P> = Abort(status: int, message: string) | Proceed(key: string, payload: P)

  /**
   * authMiddleware on a request whose authorization header is `header`. A
   * request passes exactly when the header has at least two fields, the
   * first one lower-cases to "bearer" and the second one verifies; then the
   * payload is stored under "authorization_payload". Every refusal is a 401.
   */
  function Authorize<P>(header: string, verify: string -> Result<P, string>): (v: Verdict<P>)
    ensures v.Abort? ==> v.status == Unauthorized
    ensures v.Proceed? <==> var fs := Fields(header);
      |fs| >= 2 && ToLower(fs[0]) == AuthorizationTypeBearer && verify(fs[1]).Ok?
    ensures v.Proceed? ==> v.key == AuthorizationPayloadKey && verify(Fields(header)[1]) == Ok(v.payload)
  {
    if |header| == 0 then Abort(Unauthorized, MissingHeaderMessage)
    else
      var fields := Fields(header);
      if |fields| < 2 then Abort(Unauthorized, InvalidHeaderMessage)
      else
        var scheme := ToLower(fields[0]);
        if scheme == AuthorizationTypeBearer then
          match verify(fields[1])
          case Err(e) => Abort(Unauthorized, e)
          case Ok(payload) => Proceed(AuthorizationPayloadKey, payload)
        else Abort(Unauthorized, UnsupportedTypeMessage + scheme)
  }

  /** The verdict depends only on the lower-cased first field and on the second field. */
  lemma SameLeadingFields<P>(h: string, k: string, verify: string -> Result<P, string>)
    requires h != [] && k != [] && (|Fields(h)| >= 2 <==> |Fields(k)| >= 2)
    requires |Fields(h)| >= 2 ==> ToLower(Fields(h)[0]) == ToLower(Fields(k)[0]) && Fields(h)[1] == Fields(k)[1]
    ensures Authorize(h, verify) == Authorize(k, verify)
  {
  }

  /** A request without the header is refused as not authorized. */
  lemma MissingHeader<P>(verify: string -> Result<P, string>)
    ensures Authorize("", verify) == Abort(Unauthorized, MissingHeaderMessage)
  {
  }

  /** A header made of white space only is present but malformed. */
  lemma BlankHeader<P>(header: string, verify: string -> Result<P, string>)
    requires header != [] && Blank(header)
    ensures Authorize(header, verify) == Abort(Unauthorized, InvalidHeaderMessage)
  {
    FieldsEmptyIffBlank(header);
  }

  /** A header with a single field (a scheme without a token, or a bare token) is malformed. */
  lemma SingleField<P>(w: string, verify: string -> Result<P, string>)
    requires IsField(w)
    ensures Authorize(w, verify) == Abort(Unauthorized, InvalidHeaderMessage)
  {
    FieldsOfField(w);
  }

  /** A scheme other than bearer is refused, and the message names it in lower case. */
  lemma UnsupportedScheme<P>(scheme: string, c: char, token: string, verify: string -> Result<P, string>)
    requires IsField(scheme) && IsSpace(c) && IsField(token) && ToLower(scheme) != AuthorizationTypeBearer
    ensures Authorize(scheme + [c] + token, verify) == Abort(Unauthorized, UnsupportedTypeMessage + ToLower(scheme))
  {
    FieldsAfterWord(scheme, c, token);
    FieldsOfField(token);
  }

  /** A bearer token that fails verification is refused with the verifier's own message. */
  lemma RejectedToken<P>(scheme: string, c: char, token: string, verify: string -> Result<P, string>)
    requires IsField(scheme) && IsSpace(c) && IsField(token) && ToLower(scheme) == AuthorizationTypeBearer
    requires verify(token).Err?
    ensures Authorize(scheme + [c] + token, verify) == Abort(Unauthorized, verify(token).error)
  {
    FieldsAfterWord(scheme, c, token);
    FieldsOfField(token);
    BearerVerdict(scheme + [c] + token, verify);
  }

  /** "Bearer", as clients write the scheme, is a single field. */
  lemma CapitalBearerIsField()
    ensures IsField("Bearer")
  {
  }

  /** "Bearer" lower-cases to "bearer". */
  lemma CapitalBearerLowered()
    ensures ToLower("Bearer") == AuthorizationTypeBearer
  {
  }

  /**
   * The header a client sends, "Bearer " followed by a token without white
   * space, passes exactly when the token verifies, and then carries its payload.
   */
  lemma {:induction false} BearerHeader<P>(token: string, verify: string -> Result<P, string>)
    requires IsField(token)
    ensures var v := Authorize("Bearer " + token, verify);
      match verify(token)
      case Ok(payload) => v == Proceed(AuthorizationPayloadKey, payload)
      case Err(e) => v == Abort(Unauthorized, e)
  {
    var scheme, header := "Bearer", "Bearer " + token;
    assert Fields(header) == [scheme, token] by {
      CapitalBearerIsField();
      assert header == scheme + [' '] + token;
      FieldsAfterWord(scheme, ' ', token);
      FieldsOfField(token);
    }
    assert ToLower(Fields(header)[0]) == AuthorizationTypeBearer by {
      CapitalBearerLowered();
    }
    BearerVerdict(header, verify);
  }

  /** With a bearer scheme, the verdict is the verifier's on the second field. */
  lemma BearerVerdict<P>(header: string, verify: string -> Result<P, string>)
    requires |Fields(header)| >= 2 && ToLower(Fields(header)[0]) == AuthorizationTypeBearer
    ensures var v := Authorize(header, verify);
      match verify(Fields(header)[1])
      case Ok(payload) => v == Proceed(AuthorizationPayloadKey, payload)
      case Err(e) => v == Abort(Unauthorized, e)
  {
  }

  /**
   * The scheme is matched without regard to case: two spellings of the
   * scheme that lower-case alike ("Bearer", "BEARER", "bearer") get the same
   * verdict for the same rest of the header.
   */
  lemma {:induction false} SchemeCaseInsensitive<P>(scheme: string, other: string, c: char, rest: string,
                                                    verify: string -> Result<P, string>)
    requires IsField(scheme) && IsField(other) && ToLower(scheme) == ToLower(other) && IsSpace(c)
    ensures Authorize(scheme + [c] + rest, verify) == Authorize(other + [c] + rest, verify)
  {
    FieldsAfterWord(scheme, c, rest);
    FieldsAfterWord(other, c, rest);
    SameLeadingFields(scheme + [c] + rest, other + [c] + rest, verify);
  }

  /** Fields after the token play no part: text after the token, past white space, changes nothing. */
  lemma {:induction false} ExtraFieldsIgnored<P>(scheme: string, c: char, token: string, d: char, more: string,
                                                 verify: string -> Result<P, string>)
    requires IsField(scheme) && IsSpace(c) && IsField(token) && IsSpace(d)
    ensures Authorize(scheme + [c] + token + [d] + more, verify) == Authorize(scheme + [c] + token, verify)
  {
    var long, short := scheme + [c] + token + [d] + more, scheme + [c] + token;
    TwoLeadingFields(scheme, c, token, d, more);
    SameLeadingFields(long, short, verify);
  }
}
