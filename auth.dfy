/**
 * The `requireAuth` middleware that guards `/split`. The configured token is
 * a parameter (in the service it comes from the environment, absent meaning
 * the empty string); an empty token turns the check off.
 */
module Auth {
  import opened Wrappers
  import opened JsText

  const BearerPrefix: string := "Bearer "
  const UnauthorizedError: string := "Unauthorized"

  datatype AuthDecision =
    | Next                                  // the request goes on to the upload and the handler
    | Reject(status: int, error: string)    // `res.status(status).json({ error })`

  /** The token a request presents: the header after `Bearer `, or "" when the header is missing or has another scheme. */
  function PresentedToken(header: Option<string>): string {
    var h := if header.None? then "" else header.value;
    if StartsWith(h, BearerPrefix) then h[|BearerPrefix|..] else ""
  }

  /**
   * With no configured token every request passes; otherwise exactly the
   * requests whose Authorization header is `Bearer ` followed by the token
   * pass, and every other one is answered 401 "Unauthorized".
   */
  function RequireAuth(apiToken: string, header: Option<string>): (d: AuthDecision)
    ensures d.Next? <==> (apiToken == "" || header == Some(BearerPrefix + apiToken))
    ensures d.Reject? ==> d == Reject(401, UnauthorizedError)
  {
    if apiToken == "" then Next
    else
      var token := PresentedToken(header);
      assert header == Some(BearerPrefix + apiToken) ==> token == apiToken by {
        if header == Some(BearerPrefix + apiToken) {
          assert (BearerPrefix + apiToken)[..|BearerPrefix|] == BearerPrefix;
          assert (BearerPrefix + apiToken)[|BearerPrefix|..] == apiToken;
        }
      }
      assert token == apiToken ==> header == Some(BearerPrefix + apiToken) by {
        if token == apiToken {
          var h := header.value;
          assert h == h[..|BearerPrefix|] + h[|BearerPrefix|..];
        }
      }
      if token != apiToken then Reject(401, UnauthorizedError) else Next
  }

  /** A missing header never passes a configured check, nor does a bare `Bearer `. */
  lemma MissingOrBareHeaderRejected(apiToken: string, header: Option<string>)
    requires apiToken != ""
    requires header == None || header == Some(BearerPrefix)
    ensures RequireAuth(apiToken, header) == Reject(401, UnauthorizedError)
  {
    if header == Some(BearerPrefix) {
      assert BearerPrefix != BearerPrefix + apiToken by {
        assert |BearerPrefix + apiToken| > |BearerPrefix|;
      }
    }
  }
}
