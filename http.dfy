/** Request headers and the bearer-token extraction shared by the logout
    endpoint and the gateway: `Headers.Authorization.FirstOrDefault()?.Split(" ").Last()`.
    Header names are case-insensitive; a header is stored under its
    lower-cased name, with the list of its values. */
module Http {
  import opened Wrappers
  import Text

  type Headers = map<string, seq<string>>

  /** The values of a header, empty when it is absent. */
  function Values(h: Headers, name: string): seq<string> {
    var key := Text.ToLower(name);
    if key in h then h[key] else []
  }

  /** `headers[name] = value`: replaces every value of that header. */
  function SetHeader(h: Headers, name: string, value: string): (r: Headers)
    ensures Values(r, name) == [value]
    ensures forall n :: Text.ToLower(n) != Text.ToLower(name) ==> Values(r, n) == Values(h, n)
  {
    h[Text.ToLower(name) := [value]]
  }

  /** The last space-separated segment of the first `Authorization` value;
      `None` exactly when the request has no `Authorization` value. */
  function BearerToken(h: Headers): (t: Option<string>)
    ensures t.None? <==> |Values(h, "Authorization")| == 0
    ensures t.Some? ==> ' ' !in t.value
  {
    var values := Values(h, "Authorization");
    if |values| == 0 then None else Some(Text.LastSegment(values[0], ' '))
  }

  /** `Authorization: <scheme> <token>` yields the token. */
  lemma BearerTokenOfScheme(h: Headers, scheme: string, token: string)
    requires ' ' !in token
    requires |Values(h, "Authorization")| > 0 && Values(h, "Authorization")[0] == scheme + " " + token
    ensures BearerToken(h) == Some(token)
  {
    Text.LastSegmentAfterSeparator(scheme, ' ', token);
  }

  /** A bare value without a space is taken whole. */
  lemma BearerTokenOfBareValue(h: Headers, token: string)
    requires ' ' !in token
    requires |Values(h, "Authorization")| > 0 && Values(h, "Authorization")[0] == token
    ensures BearerToken(h) == Some(token)
  {
    Text.LastSegmentOfUnsplit(token, ' ');
  }
}
