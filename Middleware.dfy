/** The basic-authentication guard in front of the CSV upload
    (api/middleware.ts). It reads the configured user and password and the
    request's `Authorization` header and either lets the request through
    (calls `next`) or answers it; its effects on the response are the
    fields of the returned outcome.

    Base64 decoding (`Buffer.from(text, 'base64').toString()`) is a library
    call that never fails on a string; it is the parameter `decode`. */
module Middleware {
  import opened Wrappers
  import opened JsText

  /** What the guard does: call `next`, or send a response with a status,
      an optional `WWW-Authenticate` header and a body, or throw (the
      TypeError of `Buffer.from(undefined)`, when the header has no space). */
  datatype Outcome =
    | Next
    | Respond(status: nat, authenticate: Option<string>, body: string)
    | Throws

  const Challenge: string := "Basic realm=\"Secure Area\""

  /** basicAuth. Every answer it sends is one of three: the configuration
      error, or a 401 with the Basic challenge that asks for credentials or
      rejects them. */
  function BasicAuth(configUser: Option<string>, configPassword: Option<string>, authorization: Option<string>,
                     decode: string -> string): (r: Outcome)
    ensures r.Respond? ==> (r.status == 500 || r.status == 401) && (r.status == 401 <==> r.authenticate == Some(Challenge))
    ensures r.Respond? ==> || r == Respond(500, None, "Server configuration error")
                           || r == Respond(401, Some(Challenge), "Authentication required")
                           || r == Respond(401, Some(Challenge), "Invalid credentials")
  {
    if !Truthy(configUser) || !Truthy(configPassword) then Respond(500, None, "Server configuration error")
    else if !Truthy(authorization) then Respond(401, Some(Challenge), "Authentication required")
    else
      var words := Split(authorization.value, ' ');
      if |words| < 2 then Throws
      else
        var auth := Split(decode(words[1]), ':');
        var user := auth[0];
        var pass: Option<string> := if |auth| >= 2 then Some(auth[1]) else None;
        if user == configUser.value && pass == Some(configPassword.value) then Next
        else Respond(401, Some(Challenge), "Invalid credentials")
  }

  /** Without a configured user or password the answer is 500, whatever the
      header says. */
  lemma MissingConfiguration(configUser: Option<string>, configPassword: Option<string>, authorization: Option<string>,
                             decode: string -> string)
    requires !Truthy(configUser) || !Truthy(configPassword)
    ensures BasicAuth(configUser, configPassword, authorization, decode) == Respond(500, None, "Server configuration error")
  {
  }

  /** Without a header (or with an empty one) the answer is 401 with the
      Basic challenge. */
  lemma MissingHeader(configUser: Option<string>, configPassword: Option<string>, authorization: Option<string>,
                      decode: string -> string)
    requires Truthy(configUser) && Truthy(configPassword) && !Truthy(authorization)
    ensures BasicAuth(configUser, configPassword, authorization, decode) == Respond(401, Some(Challenge), "Authentication required")
  {
  }

  /** A non-empty header without a space has no second word; decoding
      `undefined` throws. */
  lemma NoSpaceThrows(configUser: Option<string>, configPassword: Option<string>, header: string, decode: string -> string)
    requires Truthy(configUser) && Truthy(configPassword) && header != [] && ' ' !in header
    ensures BasicAuth(configUser, configPassword, Some(header), decode) == Throws
  {
    SplitSeparatorFree(header, ' ');
  }

  /** The decoded credentials carry user u and password p: they are
      `u:p`, possibly followed by another colon and anything at all, and
      neither value holds a colon. */
  predicate CarriesCredentials(decoded: string, u: string, p: string) {
    ':' !in u && ':' !in p && (decoded == u + [':'] + p || u + [':'] + p + [':'] <= decoded)
  }

  /** The request is let through exactly when the configuration and the
      header are present, the header has a second word, and that word
      decodes to credentials that carry the configured user and
      password. */
  lemma NextIff(configUser: Option<string>, configPassword: Option<string>, authorization: Option<string>,
                decode: string -> string)
    ensures BasicAuth(configUser, configPassword, authorization, decode) == Next <==>
              && Truthy(configUser) && Truthy(configPassword) && Truthy(authorization)
              && |Split(authorization.value, ' ')| >= 2
              && CarriesCredentials(decode(Split(authorization.value, ' ')[1]), configUser.value, configPassword.value)
  {
    if Truthy(configUser) && Truthy(configPassword) && Truthy(authorization) && |Split(authorization.value, ' ')| >= 2 {
      var d := decode(Split(authorization.value, ' ')[1]);
      SplitFirstTwo(d, ':', configUser.value, configPassword.value);
    }
  }

  /** With the configuration and a header that has a second word, any
      credentials that do not carry the configured user and password are
      answered 401 "Invalid credentials", with the Basic challenge. */
  lemma InvalidCredentials(configUser: Option<string>, configPassword: Option<string>, authorization: Option<string>,
                           decode: string -> string)
    requires Truthy(configUser) && Truthy(configPassword) && Truthy(authorization)
    requires |Split(authorization.value, ' ')| >= 2
    requires !CarriesCredentials(decode(Split(authorization.value, ' ')[1]), configUser.value, configPassword.value)
    ensures BasicAuth(configUser, configPassword, authorization, decode) == Respond(401, Some(Challenge), "Invalid credentials")
  {
    NextIff(configUser, configPassword, authorization, decode);
  }

  /** The password is the text between the first and the second colon, so
      a configured password that holds a colon never matches, whatever
      the header. */
  lemma ColonInPasswordNeverMatches(configUser: Option<string>, configPassword: Option<string>, authorization: Option<string>,
                                    decode: string -> string)
    requires configPassword.Some? && ':' in configPassword.value
    ensures BasicAuth(configUser, configPassword, authorization, decode) != Next
  {
    NextIff(configUser, configPassword, authorization, decode);
  }

  /** Section 2 of RFC 7617 splits the decoded text at its first colon
      only: user-id, then a password that may itself contain colons. */
  predicate Rfc7617Matches(user: string, password: string, decoded: string) {
    ':' !in user && decoded == user + [':'] + password
  }

  /** Where the guard departs from RFC 7617: with a password holding a
      colon, the credentials the RFC accepts are refused. */
  lemma DepartsFromRfc7617(user: string, password: string, decode: string -> string, token: string)
    requires user != [] && ':' !in user && ':' in password
    requires decode(token) == user + [':'] + password
    ensures Rfc7617Matches(user, password, decode(token))
    ensures BasicAuth(Some(user), Some(password), Some("Basic " + token), decode) != Next
  {
    ColonInPasswordNeverMatches(Some(user), Some(password), Some("Basic " + token), decode);
  }

  /** Extra colon-separated segments after the password are ignored. */
  lemma TrailingSegmentsAccepted(user: string, password: string, extra: string, authorization: string,
                                 decode: string -> string)
    requires user != [] && password != [] && ':' !in user && ':' !in password
    requires |Split(authorization, ' ')| >= 2
    requires decode(Split(authorization, ' ')[1]) == user + [':'] + password + [':'] + extra
    ensures BasicAuth(Some(user), Some(password), Some(authorization), decode) == Next
  {
    NextIff(Some(user), Some(password), Some(authorization), decode);
  }

  /** Credentials are the second space-separated word; the scheme word in
      front of it is not checked. */
  lemma SchemeNotChecked(configUser: Option<string>, configPassword: Option<string>, scheme: string, token: string,
                         decode: string -> string)
    requires ' ' !in scheme && ' ' !in token
    ensures BasicAuth(configUser, configPassword, Some(scheme + " " + token), decode)
            == BasicAuth(configUser, configPassword, Some("Basic " + token), decode)
  {
    SplitAfterHead(scheme, ' ', token);
    SplitAfterHead("Basic", ' ', token);
    SplitSeparatorFree(token, ' ');
    assert scheme + " " + token == scheme + [' '] + token;
    assert "Basic " + token == "Basic" + [' '] + token;
  }
}
