/** The Salesforce handler: the bearer token the browser sends is pulled out
    of the `Authorization` header, decoded, and, when it carries an access
    token, the SOQL `query` and/or the `info` describe request is answered. */
module Salesforce {
  import opened Js
  import opened JsString

  // ---------------------------------------------------------------------------
  // The Authorization header: produced by the browser, consumed by the handler
  // ---------------------------------------------------------------------------

  /** The marker the handler splits the header on. */
  const TokenMarker: string := "token "

  /** The browser's request interceptor: a truthy `access` cookie becomes the
      header `Bearer token <cookie>`; otherwise no header is sent. */
  function AuthorizationHeader(cookie: Option<string>): Option<string>
  {
    if Truthy(cookie) then Some("Bearer " + TokenMarker + cookie.value) else None
  }

  /** `authHeader.split('token ')[1]`: `None` (`undefined`) when the marker
      does not occur, otherwise a piece of the header free of the marker. */
  function ExtractJwt(header: string): (t: Option<string>)
    ensures t.None? <==> !Contains(header, TokenMarker)
    ensures t.Some? ==> !Contains(t.value, TokenMarker)
  {
    var parts := Split(header, TokenMarker);
    SplitSingle(header, TokenMarker);
    SplitPartsFree(header, TokenMarker);
    if |parts| > 1 then Some(parts[1]) else None
  }

  /** The extracted token is the text from just after the first `token ` up to
      the next `token ` or the end of the header. */
  lemma ExtractJwtBetween(header: string, i: nat)
    requires OccursAt(header, TokenMarker, i) && AbsentBefore(header, TokenMarker, i)
    ensures ExtractJwt(header).Some?
    ensures var t := ExtractJwt(header).value; var start := i + |TokenMarker|;
      && start + |t| <= |header|
      && header[start..start + |t|] == t
      && (start + |t| == |header| || OccursAt(header, TokenMarker, start + |t|))
  {
    var start := i + |TokenMarker|;
    var rest := header[start..];
    SplitAtFirst(header, TokenMarker, i);
    var t := Split(rest, TokenMarker)[0];
    assert ExtractJwt(header) == Some(t);
    SplitHead(rest, TokenMarker);
    SliceOfSuffix(header, start, 0, |t|);
    if start + |t| < |header| {
      assert OccursAt(rest, TokenMarker, |t|);
      SliceOfSuffix(header, start, |t|, |t| + |TokenMarker|);
    }
  }

  /** A slice of a suffix is a slice of the whole, shifted by the suffix's start. */
  lemma SliceOfSuffix(s: string, start: nat, a: nat, b: nat)
    requires start <= |s| && a <= b <= |s| - start
    ensures s[start..][a..b] == s[start + a..start + b]
  {
  }

  /** The header the browser builds hands the cookie back unchanged, provided the
      cookie does not itself contain `token `. */
  lemma {:induction false} BearerRoundTrip(t: string)
    requires !Contains(t, TokenMarker)
    ensures ExtractJwt("Bearer " + TokenMarker + t) == Some(t)
  {
    var h := "Bearer " + TokenMarker + t;
    assert h[7..13] == TokenMarker;
    assert OccursAt(h, TokenMarker, 7);
    BearerPrefixFree(h);
    SplitAtFirst(h, TokenMarker, 7);
    assert h[13..] == t;
    SplitSingle(t, TokenMarker);
  }

  /** In a header built by the browser, `token ` cannot start inside `Bearer `. */
  lemma BearerPrefixFree(h: string)
    requires |h| >= 7 && h[..7] == "Bearer "
    ensures AbsentBefore(h, TokenMarker, 7)
  {
    forall j: nat | j < 7
      ensures !OccursAt(h, TokenMarker, j)
    {
      if j + 6 <= |h| {
        assert h[j] == h[..7][j];
        assert h[j..j + 6][0] == h[j] != 't';
      }
    }
  }

  /** From cookie to handler: a truthy cookie without `token ` in it arrives as
      the token the handler decodes. */
  lemma CookieRoundTrip(cookie: Option<string>)
    requires Truthy(cookie) && !Contains(cookie.value, TokenMarker)
    ensures AuthorizationHeader(cookie).Some?
    ensures ExtractJwt(AuthorizationHeader(cookie).value) == cookie
  {
    BearerRoundTrip(cookie.value);
  }

  /** The round trip needs its precondition: a cookie that contains `token `
      reaches the handler cut short, at the first `token ` inside it. */
  lemma CookieWithMarkerIsTruncated(a: string, b: string)
    requires AbsentBefore(a + TokenMarker + b, TokenMarker, |a|)
    ensures AuthorizationHeader(Some(a + TokenMarker + b)).Some?
    ensures ExtractJwt(AuthorizationHeader(Some(a + TokenMarker + b)).value) == Some(a)
  {
    var cookie := a + TokenMarker + b;
    var h := "Bearer " + TokenMarker + cookie;
    assert h[7..13] == TokenMarker;
    BearerPrefixFree(h);
    SplitAtFirst(h, TokenMarker, 7);
    assert h[13..] == cookie;
    assert cookie[|a|..|a| + 6] == TokenMarker;
    SplitAtFirst(cookie, TokenMarker, |a|);
    assert cookie[..|a|] == a;
  }

  /** A character of a compact-serialised JSON Web Token: the base64url alphabet
      (section 5 of RFC 4648) and the `.` that separates the parts (section 7.1
      of RFC 7515). */
  predicate IsJwtChar(c: char)
  {
    ('A' <= c <= 'Z') || ('a' <= c <= 'z') || ('0' <= c <= '9') || c == '-' || c == '_' || c == '.'
  }

  /** A well-formed JSON Web Token never contains `token ` (it has no space),
      so the round trip holds for every cookie the login flow issues. */
  lemma JwtHasNoMarker(t: string)
    requires forall k :: 0 <= k < |t| ==> IsJwtChar(t[k])
    ensures !Contains(t, TokenMarker)
  {
    forall i: nat
      ensures !OccursAt(t, TokenMarker, i)
    {
      if i + 6 <= |t| {
        assert t[i..i + 6][5] == t[i + 5];
      }
    }
  }

  // ---------------------------------------------------------------------------
  // The object returned for info === 'all'
  // ---------------------------------------------------------------------------

  /** A JavaScript object from sobject names to field-name lists, as its
      properties in insertion order. */
  type Entries = seq<(string, seq<string>)>

  /** `obj[key]`: the value of the first property named `key`. */
  function Lookup(entries: Entries, key: string): Option<seq<string>>
  {
    if entries == [] then None
    else if entries[0].0 == key then Some(entries[0].1)
    else Lookup(entries[1..], key)
  }

  /** `obj[key] = value`: overwrites an existing property where it stands, or
      appends a new one at the end; no other property changes. */
  function Assign(entries: Entries, key: string, value: seq<string>): (r: Entries)
    ensures Lookup(r, key) == Some(value)
    ensures forall other :: other != key ==> Lookup(r, other) == Lookup(entries, other)
    ensures |r| == if Lookup(entries, key).Some? then |entries| else |entries| + 1
    ensures forall k :: 0 <= k < |entries| ==> r[k].0 == entries[k].0
    ensures Lookup(entries, key).None? ==> r == entries + [(key, value)]
  {
    if entries == [] then [(key, value)]
    else if entries[0].0 == key then [(key, value)] + entries[1..]
    else [entries[0]] + Assign(entries[1..], key, value)
  }

  /** The object the `for (const sobject of sobjects)` loop builds: each name in
      order, assigned its described field names; `None` when a describe call
      rejects, which aborts the loop. */
  function DescribeEach(names: seq<string>, describe: string -> Option<seq<string>>): Option<Entries>
  {
    if names == [] then Some([])
    else
      match DescribeEach(names[..|names| - 1], describe)
      case None => None
      case Some(entries) =>
        match describe(names[|names| - 1])
        case None => None
        case Some(fields) => Some(Assign(entries, names[|names| - 1], fields))
  }

  /** The loop fails exactly when some sobject's describe call fails. */
  lemma {:induction false} DescribeEachFails(names: seq<string>, describe: string -> Option<seq<string>>)
    ensures DescribeEach(names, describe).None? <==> exists k :: 0 <= k < |names| && describe(names[k]).None?
    decreases |names|
  {
    if names != [] {
      var init := names[..|names| - 1];
      DescribeEachFails(init, describe);
      if exists k :: 0 <= k < |init| && describe(init[k]).None? {
        var k :| 0 <= k < |init| && describe(init[k]).None?;
        assert names[k] == init[k];
      }
      if exists k :: 0 <= k < |names| && describe(names[k]).None? {
        var k :| 0 <= k < |names| && describe(names[k]).None?;
        if k < |init| {
          assert init[k] == names[k];
        }
      }
    }
  }

  /** When the loop succeeds, every sobject name maps to its own field names and
      no other property exists. */
  lemma {:induction false} DescribeEachLookup(names: seq<string>, describe: string -> Option<seq<string>>, name: string)
    requires DescribeEach(names, describe).Some?
    ensures Lookup(DescribeEach(names, describe).value, name)
            == if name in names then describe(name) else None
    decreases |names|
  {
    if names != [] {
      var init, last := names[..|names| - 1], names[|names| - 1];
      assert names == init + [last];
      DescribeEachLookup(init, describe, name);
      if name != last {
        assert name in names <==> name in init;
      }
    }
  }

  /** With distinct sobject names, the properties are the names in
      `describeGlobal` order, each with its field names. */
  lemma {:induction false} DescribeEachOrder(names: seq<string>, describe: string -> Option<seq<string>>)
    requires forall k :: 0 <= k < |names| ==> describe(names[k]).Some?
    requires forall i, j :: 0 <= i < j < |names| ==> names[i] != names[j]
    ensures DescribeEach(names, describe).Some?
    ensures |DescribeEach(names, describe).value| == |names|
    ensures forall k :: 0 <= k < |names| ==>
              DescribeEach(names, describe).value[k] == (names[k], describe(names[k]).value)
    decreases |names|
  {
    DescribeEachFails(names, describe);
    if names != [] {
      var init, last := names[..|names| - 1], names[|names| - 1];
      assert names == init + [last];
      DescribeEachOrder(init, describe);
      DescribeEachLookup(init, describe, last);
    }
  }

  /** The `for` loop over `describeGlobal`'s sobjects, filling `result` one
      property at a time; a rejected describe call aborts it (`None`). */
  method DescribeAll(names: seq<string>, describe: string -> Option<seq<string>>) returns (r: Option<Entries>)
    ensures r == DescribeEach(names, describe)
  {
    var result: Entries := [];
    for i := 0 to |names|
      invariant DescribeEach(names[..i], describe) == Some(result)
    {
      assert names[..i + 1][..i] == names[..i];
      match describe(names[i])
      case None =>
        DescribeEachFails(names, describe);
        assert describe(names[i]).None?;
        return None;
      case Some(fields) =>
        result := Assign(result, names[i], fields);
    }
    assert names[..|names|] == names;
    return Some(result);
  }

  // ---------------------------------------------------------------------------
  // The handler's decision
  // ---------------------------------------------------------------------------

  /** The decoded token's payload; only its `accessToken` is inspected. */
  datatype Claims = Claims(accessToken: Option<string>)

  /** Why the handler throws instead of replying: `token.accessToken` read on
      `undefined`, or a rejected describe call that nothing catches. */
  datatype Fault = TokenUndefined | DescribeRejected

  /** A JSON reply body: nothing (`undefined`), the query result, one object's
      field names, or every object's field names. */
  datatype Payload<Q> = Undefined | Records(result: Q) | FieldNames(names: seq<string>) | FieldsByObject(entries: Entries)

  datatype Body<Q> = Text(text: string) | Json(payload: Payload<Q>)

  datatype Outcome<Q> = Reply(status: int, body: Body<Q>) | Thrown(fault: Fault)

  /** What the Salesforce connection answers: the result of a SOQL query (`None`
      when it rejects), the list of sobject names, and each sobject's field names. */
  datatype Sdk<Q> = Sdk(
    query: string -> Option<Q>,
    describeGlobal: Option<seq<string>>,
    describe: string -> Option<seq<string>>)

  const MissingHeader: string := "Authorization header is missing"
  const InvalidToken: string := "Access token is missing or invalid"
  const QueryError: string := "Custom query error"

  /** The reply to `info`: every sobject's fields for `'all'`, else one object's fields. */
  function InfoOutcome<Q>(info: string, sdk: Sdk<Q>): Outcome<Q>
  {
    if info == "all" then
      match sdk.describeGlobal
      case None => Thrown(DescribeRejected)
      case Some(names) =>
        match DescribeEach(names, sdk.describe)
        case None => Thrown(DescribeRejected)
        case Some(entries) => Reply(200, Json(FieldsByObject(entries)))
    else
      match sdk.describe(info)
      case None => Thrown(DescribeRejected)
      case Some(fields) => Reply(200, Json(FieldNames(fields)))
  }

  /** The handler's outcome once the token has been decoded (`None`: `decodeJWT`
      returned `undefined`). */
  function AfterDecode<Q>(decoded: Option<Claims>, query: Option<string>, info: Option<string>, sdk: Sdk<Q>): Outcome<Q>
  {
    match decoded
    case None => Thrown(TokenUndefined)
    case Some(claims) =>
      if !Truthy(claims.accessToken) then Reply(401, Text(InvalidToken))
      else if Truthy(query) && sdk.query(query.value).None? then Reply(500, Text(QueryError))
      else if Truthy(info) then InfoOutcome(info.value, sdk)
      else if Truthy(query) then Reply(200, Json(Records(sdk.query(query.value).value)))
      else Reply(200, Json(Undefined))
  }

  /** What `decodeJWT(jwtToken)` yields: `jwt.verify` rejects a missing or
      empty token outright ("jwt must be provided"), so only a non-empty token
      reaches the verifier; `None` is `undefined`. */
  function DecodeJwt(jwtToken: Option<string>, verify: string -> Option<Claims>): Option<Claims>
  {
    if Truthy(jwtToken) then verify(jwtToken.value) else None
  }

  /** The handler's outcome for a request, as a decision table. `verify` is
      the signature check of a non-empty token (`None`: it failed). */
  function Decide<Q>(header: Option<string>, query: Option<string>, info: Option<string>,
                     verify: string -> Option<Claims>, sdk: Sdk<Q>): Outcome<Q>
  {
    if !Truthy(header) then Reply(401, Text(MissingHeader))
    else AfterDecode(DecodeJwt(ExtractJwt(header.value), verify), query, info, sdk)
  }

  /** The handler as written: early returns, a `response` variable reassigned by
      the `query` and then the `info` branch, and the describe loop. */
  method Handle<Q>(header: Option<string>, query: Option<string>, info: Option<string>,
                   verify: string -> Option<Claims>, sdk: Sdk<Q>) returns (out: Outcome<Q>)
    ensures out == Decide(header, query, info, verify, sdk)
  {
    if !Truthy(header) {
      return Reply(401, Text(MissingHeader));
    }
    var jwtToken := ExtractJwt(header.value);
    var token := None;
    if Truthy(jwtToken) {
      token := verify(jwtToken.value);
    }
    if token.None? {
      return Thrown(TokenUndefined);
    }
    var accessToken := token.value.accessToken;
    if Truthy(accessToken) {
      var response: Payload<Q> := Undefined;
      if Truthy(query) {
        var rows := sdk.query(query.value);
        if rows.None? {
          return Reply(500, Text(QueryError));
        }
        response := Records(rows.value);
      }
      if Truthy(info) {
        if info.value == "all" {
          if sdk.describeGlobal.None? {
            return Thrown(DescribeRejected);
          }
          var result := DescribeAll(sdk.describeGlobal.value, sdk.describe);
          if result.None? {
            return Thrown(DescribeRejected);
          }
          response := FieldsByObject(result.value);
        } else {
          var fields := sdk.describe(info.value);
          if fields.None? {
            return Thrown(DescribeRejected);
          }
          response := FieldNames(fields.value);
        }
      }
      return Reply(200, Json(response));
    } else {
      return Reply(401, Text(InvalidToken));
    }
  }

  // ---------------------------------------------------------------------------
  // Properties of the decision
  // ---------------------------------------------------------------------------

  /** No header: 401 before any token is decoded, whatever the verifier would say. */
  lemma MissingHeaderRejected<Q>(header: Option<string>, query: Option<string>, info: Option<string>,
                                 verify: string -> Option<Claims>, verify': string -> Option<Claims>,
                                 sdk: Sdk<Q>)
    requires !Truthy(header)
    ensures Decide(header, query, info, verify, sdk) == Reply(401, Text(MissingHeader))
    ensures Decide(header, query, info, verify, sdk) == Decide(header, query, info, verify', sdk)
  {
  }

  /** A token that fails verification makes the handler throw, not reply 401. */
  lemma InvalidTokenThrows<Q>(header: Option<string>, query: Option<string>, info: Option<string>,
                              verify: string -> Option<Claims>, sdk: Sdk<Q>)
    requires Truthy(header) && Truthy(ExtractJwt(header.value)) && verify(ExtractJwt(header.value).value).None?
    ensures Decide(header, query, info, verify, sdk) == Thrown(TokenUndefined)
  {
  }

  /** A header with nothing after a `token ` (none at all, or an empty piece
      such as in `Bearer token `) throws whatever the verifier would say. */
  lemma NoTokenThrows<Q>(header: Option<string>, query: Option<string>, info: Option<string>,
                         verify: string -> Option<Claims>, sdk: Sdk<Q>)
    requires Truthy(header) && !Truthy(ExtractJwt(header.value))
    ensures Decide(header, query, info, verify, sdk) == Thrown(TokenUndefined)
  {
  }

  /** In particular, the standard `Bearer <jwt>` form, which has no `token `,
      always makes the handler throw. */
  lemma StandardBearerThrows<Q>(t: string, query: Option<string>, info: Option<string>,
                                verify: string -> Option<Claims>, sdk: Sdk<Q>)
    requires forall k :: 0 <= k < |t| ==> IsJwtChar(t[k])
    ensures Decide(Some("Bearer " + t), query, info, verify, sdk) == Thrown(TokenUndefined)
  {
    var h := "Bearer " + t;
    BearerPrefixFree(h);
    forall i: nat
      ensures !OccursAt(h, TokenMarker, i)
    {
      if 7 <= i && i + 6 <= |h| {
        assert h[i..i + 6][5] == h[i + 5] == t[i - 2];
      }
    }
    assert !Contains(h, TokenMarker);
  }

  /** A decoded token without a truthy access token: 401, and neither the query
      nor the describe calls are made (the outcome does not depend on them). */
  lemma NoAccessTokenRejected<Q>(claims: Claims, query: Option<string>, info: Option<string>, sdk: Sdk<Q>,
                                 query': Option<string>, info': Option<string>, sdk': Sdk<Q>)
    requires !Truthy(claims.accessToken)
    ensures AfterDecode(Some(claims), query, info, sdk) == Reply(401, Text(InvalidToken))
    ensures AfterDecode(Some(claims), query, info, sdk) == AfterDecode(Some(claims), query', info', sdk')
  {
  }

  /** A rejected query: 500 whatever `info` asks for. */
  lemma QueryFailureIgnoresInfo<Q>(claims: Claims, query: Option<string>, info: Option<string>,
                                   info': Option<string>, sdk: Sdk<Q>)
    requires Truthy(claims.accessToken) && Truthy(query) && sdk.query(query.value).None?
    ensures AfterDecode(Some(claims), query, info, sdk) == Reply(500, Text(QueryError))
    ensures AfterDecode(Some(claims), query, info, sdk) == AfterDecode(Some(claims), query, info', sdk)
  {
  }

  /** With a truthy `info`, the `info` reply replaces the query result: the
      outcome is the same as with no query at all. */
  lemma InfoOverridesQuery<Q>(claims: Claims, query: Option<string>, info: Option<string>, sdk: Sdk<Q>)
    requires Truthy(claims.accessToken) && Truthy(info)
    requires !Truthy(query) || sdk.query(query.value).Some?
    ensures AfterDecode(Some(claims), query, info, sdk) == InfoOutcome(info.value, sdk)
    ensures AfterDecode(Some(claims), query, info, sdk) == AfterDecode(Some(claims), None, info, sdk)
  {
  }

  /** A query alone: 200 with its result. Neither query nor info: 200 with no body. */
  lemma QueryOrNothing<Q>(claims: Claims, query: Option<string>, info: Option<string>, sdk: Sdk<Q>)
    requires Truthy(claims.accessToken) && !Truthy(info)
    ensures Truthy(query) && sdk.query(query.value).Some? ==>
              AfterDecode(Some(claims), query, info, sdk) == Reply(200, Json(Records(sdk.query(query.value).value)))
    ensures !Truthy(query) ==> AfterDecode(Some(claims), query, info, sdk) == Reply(200, Json(Undefined))
  {
  }

  /** `info === 'all'` with every describe call succeeding: 200 with an object
      mapping each sobject name to exactly its field names. */
  lemma AllInfoMapsEveryObject<Q>(sdk: Sdk<Q>, names: seq<string>, name: string)
    requires sdk.describeGlobal == Some(names)
    requires forall k :: 0 <= k < |names| ==> sdk.describe(names[k]).Some?
    ensures InfoOutcome("all", sdk).Reply? && InfoOutcome("all", sdk).status == 200
    ensures InfoOutcome("all", sdk).body.Json? && InfoOutcome("all", sdk).body.payload.FieldsByObject?
    ensures Lookup(InfoOutcome("all", sdk).body.payload.entries, name)
            == if name in names then sdk.describe(name) else None
  {
    DescribeEachFails(names, sdk.describe);
    DescribeEachLookup(names, sdk.describe, name);
  }

  /** Any other truthy `info`: 200 with that one object's field names, or a
      throw when its describe call rejects. */
  lemma OneObjectInfo<Q>(info: string, sdk: Sdk<Q>)
    requires info != "all"
    ensures sdk.describe(info).Some? ==> InfoOutcome(info, sdk) == Reply(200, Json(FieldNames(sdk.describe(info).value)))
    ensures sdk.describe(info).None? ==> InfoOutcome(info, sdk) == Thrown(DescribeRejected)
  {
  }

  /** End to end: a request sent without a cookie is rejected for its missing header;
      one sent with a JWT cookie has exactly that cookie verified. */
  lemma BrowserRequest<Q>(cookie: Option<string>, query: Option<string>, info: Option<string>,
                          verify: string -> Option<Claims>, sdk: Sdk<Q>)
    requires Truthy(cookie) ==> forall k :: 0 <= k < |cookie.value| ==> IsJwtChar(cookie.value[k])
    ensures !Truthy(cookie) ==>
              Decide(AuthorizationHeader(cookie), query, info, verify, sdk) == Reply(401, Text(MissingHeader))
    ensures Truthy(cookie) ==>
              Decide(AuthorizationHeader(cookie), query, info, verify, sdk) == AfterDecode(verify(cookie.value), query, info, sdk)
  {
    if Truthy(cookie) {
      JwtHasNoMarker(cookie.value);
      CookieRoundTrip(cookie);
      assert Truthy(AuthorizationHeader(cookie));
    }
  }
}
