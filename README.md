# Smartsheet and Salesforce API gateways — a verified model

The application is a Next.js front end with one API route per data source.
This project models two of those routes, plus the browser code that
authenticates requests to one of them.

- **The Smartsheet route** (`pages/api/smartsheet/index.ts`):
  - `parseFunctionString` turns a query such as
    `getSheetAsJSON(2888478287155076)` into a function name and a list of
    trimmed, comma-separated parameters.
  - The handler answers with the matching entry of its `options` object,
    or with `{ message: 'no query' }`.
  - `getSheetAsJSON` fills a `{ json, csv }` record in place from a CSV
    download.
  - `writeToCSV` fills the same kind of record, then streams the text line
    by line to `output.csv`.
- **The Salesforce route** (`pages/api/salesforce/index.ts`) runs these
  steps in order:
  - It requires an `Authorization` header.
  - It takes the JSON Web Token after the first `token ` in that header
    and decodes it.
  - It requires that the decoded payload has an `accessToken`.
  - It runs the SOQL `query`. A rejected query is answered with a 500.
  - It then lets `info` replace the query result. For `info === 'all'`,
    it builds an object that maps every sobject name to that object's
    field names.
- **The request interceptor** in `pages/index.js` sends the `access`
  cookie as `Authorization: Bearer token <cookie>`.

## Layout

- `js.dfy` (module `Js`):
  - `undefined`-or-value (`Option`);
  - JavaScript truthiness of such a string.
- `js_string.dfy` (module `JsString`): the string built-ins the routes use.
  - `indexOf`, `split` with a non-empty separator, and `join`.
  - `trim`, with the ECMAScript WhiteSpace and LineTerminator code points.
- `smartsheet.dfy` (module `Smartsheet`):
  - the regular expression `^(\w+)\((.*)\)$` and `parseFunctionString`;
  - the reply selection;
  - the `{ json, csv }` result record, as the class `SheetResult`;
  - the output stream, as the class `WriteStream`;
  - the `writeToCSV` loop.
- `salesforce.dfy` (module `Salesforce`):
  - the header the browser produces and the extraction the handler performs;
  - the `'all'` describe loop;
  - the handler's decision table `Decide`;
  - the imperative `Handle`, proved equal to `Decide`.

External services are parameters of the model, and so is the answer of
each call into them:
- the Smartsheet download is an `Option<string>`;
- the CSV-to-JSON conversion is a function that may reject (`None`);
- jsonwebtoken rejects a missing or empty token before any signature check;
  the `verify` parameter stands for the signature check of a non-empty token,
  giving the decoded claims (`None` when the check fails);
- the jsforce connection is the `Sdk` record (the query result, the sobject
  list and each sobject's field names).

## Model

| member | source | states |
|---|---|---|
| JsString.IndexOf | pages/api/salesforce/index.ts:36 | The result is the first position where the separator occurs: it occurs there and at no earlier position. `None` means it occurs nowhere. |
| JsString.Split | pages/api/smartsheet/index.ts:25 | `split` with a non-empty separator always yields at least one piece. |
| JsString.SplitAtFirst | pages/api/salesforce/index.ts:36 | At the first occurrence of the separator, `split` yields the text before it, followed by the split of the text after it. |
| JsString.SplitHead | pages/api/salesforce/index.ts:36 | The first piece is a prefix of the input. It ends at the end of the input or where the separator occurs. |
| JsString.SplitSingle | pages/api/salesforce/index.ts:36 | `split` yields exactly one piece iff the separator does not occur, so `[1]` is `undefined` exactly then. |
| JsString.SplitJoin | pages/api/smartsheet/index.ts:123-125 | `split(sep).join(sep)` gives back the input. |
| JsString.SplitPartsFree | pages/api/smartsheet/index.ts:25 | No piece produced by `split` contains the separator. |
| JsString.SplitCount | pages/api/smartsheet/index.ts:25 | Splitting on one character yields one more piece than the number of times that character occurs. |
| JsString.JoinSplit | pages/api/smartsheet/index.ts:25 | Splitting the join of at least one separator-free piece gives back exactly those pieces. |
| JsString.SkipWhiteSpace | pages/api/smartsheet/index.ts:25 | Skips exactly the leading white space: everything skipped is white space, and the stop is the end of the text or a non-white-space character. |
| JsString.SkipWhiteSpaceBack | pages/api/smartsheet/index.ts:25 | Skips exactly the trailing white space, from the back, in the same sense. |
| JsString.Trim | pages/api/smartsheet/index.ts:25 | `trim` returns a contiguous slice of the input. Only white space lies before and after the slice, and the slice neither starts nor ends with white space. |
| JsString.TrimFixed | pages/api/smartsheet/index.ts:25 | `trim` leaves a string unchanged iff it is empty or neither starts nor ends with white space. |
| JsString.TrimIdempotent | pages/api/smartsheet/index.ts:25 | Trimming twice is the same as trimming once. |
| Smartsheet.WordPrefixLength | pages/api/smartsheet/index.ts:19 | Gives the length of the longest prefix made of `\w` characters. |
| Smartsheet.MatchCallExact | pages/api/smartsheet/index.ts:19-20 | The matcher returns `(name, args)` iff the input is `name(args)`, where `name` is one or more `\w` characters and `args` contains no line terminator. The capture is therefore unique. |
| Smartsheet.InnerParenthesesKept | pages/api/smartsheet/index.ts:19 | The greedy `(.*)` capture runs to the last `)`: `g(h(1))` captures `h(1)`. |
| Smartsheet.ParseRejected | pages/api/smartsheet/index.ts:21-23 | Parameters are the string `'undefined'` iff the regular expression matches no decomposition of the query. The record is then exactly `{ functionName: 'undefined', params: 'undefined' }`. |
| Smartsheet.ParseAccepted | pages/api/smartsheet/index.ts:24-26 | See the parsing clauses below this table. |
| Smartsheet.EmptyArgumentList | pages/api/smartsheet/index.ts:25 | `f()` parses to the name `f` with the one parameter `''`. |
| Smartsheet.RespondRule | pages/api/smartsheet/index.ts:140-149 | The status is always 200. The body is an option's value iff the query matches `^(\w+)\((.*)\)$` with a captured name that is one of the five option keys, and then it is `options[name]`. Any other body is `{ message: 'no query' }`. |
| Smartsheet.RejectedQueryGetsNoQuery | pages/api/smartsheet/index.ts:142-146 | A query the regular expression rejects is answered `{ message: 'no query' }`. |
| Smartsheet.AcceptedQueryByName | pages/api/smartsheet/index.ts:142-146 | For a query that parses, the reply depends only on whether the parsed name is an option key. |
| Smartsheet.SheetResult.constructor | pages/api/smartsheet/index.ts:68 | The record starts as `{ json: '', csv: '' }`. |
| Smartsheet.SheetResult.StoreDownload | pages/api/smartsheet/index.ts:75-80 | A successful download replaces `csv`. A failed one leaves the record unchanged. `json` is untouched in both cases. |
| Smartsheet.SheetResult.ConvertIfPresent | pages/api/smartsheet/index.ts:82-89 | `json` becomes the conversion of `csv` exactly when `csv` is non-empty and the conversion succeeds. The step reports a rejection exactly when a non-empty `csv` fails to convert; `json` then keeps its old value. `csv` is unchanged. |
| Smartsheet.GetSheetAsJson | pages/api/smartsheet/index.ts:67-92 | Returns a fresh record. `csv` is the download's text when the sheet id is truthy and the download succeeded, else `''`. The call rejects iff a non-empty `csv` fails to convert. Otherwise `json` is filled iff `csv` is non-empty. |
| Smartsheet.WriteStream.constructor | pages/api/smartsheet/index.ts:120 | A new stream is empty and open. |
| Smartsheet.WriteStream.Write | pages/api/smartsheet/index.ts:125 | Writing to an open stream appends the chunk and changes nothing else. |
| Smartsheet.WriteStream.End | pages/api/smartsheet/index.ts:127 | Ending a stream closes it and keeps its contents. |
| Smartsheet.TerminatedIsJoin | pages/api/smartsheet/index.ts:121-126 | Writing each line followed by `\n` produces the lines joined by `\n`, plus one final `\n`. |
| Smartsheet.WriteToCsv | pages/api/smartsheet/index.ts:95-130 | See the write clauses below this table. |
| Salesforce.ExtractJwt | pages/api/salesforce/index.ts:36 | `split('token ')[1]` is `undefined` iff the header contains no `token `. A defined result never contains `token `. |
| Salesforce.ExtractJwtBetween | pages/api/salesforce/index.ts:36 | The extracted token is the text right after the first `token `, up to the next `token ` or the end of the header. |
| Salesforce.BearerPrefixFree | pages/index.js:14 | In a header that starts with `Bearer `, no `token ` begins inside that prefix. |
| Salesforce.BearerRoundTrip | pages/api/salesforce/index.ts:36 | Extracting from `Bearer token <t>` gives back `t`, for any `t` without `token `. |
| Salesforce.CookieRoundTrip | pages/index.js:13-15 | A truthy cookie without `token ` produces a header from which the handler extracts exactly that cookie. |
| Salesforce.CookieWithMarkerIsTruncated | pages/index.js:14 | A cookie `a + 'token ' + b`, with no earlier `token `, reaches the handler as just `a`. |
| Salesforce.JwtHasNoMarker | pages/api/oauth/index.ts:17 | A compact JSON Web Token, written in base64url plus `.`, never contains `token `. |
| Salesforce.Assign | pages/api/salesforce/index.ts:67 | `result[name] = fields`: the property now holds `fields` and every other property is unchanged. An existing property keeps its position. A new one is appended at the end. |
| Salesforce.DescribeEachFails | pages/api/salesforce/index.ts:64-69 | The loop aborts iff some sobject's describe call rejects. |
| Salesforce.DescribeEachLookup | pages/api/salesforce/index.ts:63-70 | After the loop, each listed sobject name maps to its own field names, and no other property exists. |
| Salesforce.DescribeEachOrder | pages/api/salesforce/index.ts:63-70 | With distinct names, the object's properties are the sobject names in `describeGlobal` order, each holding its field names. |
| Salesforce.DescribeAll | pages/api/salesforce/index.ts:59-70 | The imperative loop returns exactly the object specified by `DescribeEach`. If a describe rejects, it returns `None`. |
| Salesforce.Handle | pages/api/salesforce/index.ts:29-82 | The handler, with its early returns and its reassigned `response`, has exactly the outcome given by the decision table `Decide`. |
| Salesforce.MissingHeaderRejected | pages/api/salesforce/index.ts:32-34 | With no header (or an empty one), the reply is 401 `Authorization header is missing`, and the token verifier is never consulted. |
| Salesforce.InvalidTokenThrows | pages/api/salesforce/index.ts:37-38 | When a non-empty token fails verification, `decodeJWT` yields `undefined` and reading `token.accessToken` throws. The handler never replies with 401. |
| Salesforce.NoTokenThrows | pages/api/salesforce/index.ts:36-38 | A header with no `token `, or with nothing after it, makes the handler throw, whatever the verifier would say. |
| Salesforce.StandardBearerThrows | pages/api/salesforce/index.ts:36-38 | The standard `Bearer <jwt>` header, which has no `token `, always makes the handler throw. |
| Salesforce.NoAccessTokenRejected | pages/api/salesforce/index.ts:40-82 | A payload without a truthy access token gets 401 `Access token is missing or invalid`, whatever the query, the info and the SDK. |
| Salesforce.QueryFailureIgnoresInfo | pages/api/salesforce/index.ts:48-55 | A rejected query gets 500 `Custom query error`, whatever `info` is. |
| Salesforce.InfoOverridesQuery | pages/api/salesforce/index.ts:58-77 | When the query does not fail, a truthy `info` decides the outcome, exactly as if no query had been sent. |
| Salesforce.QueryOrNothing | pages/api/salesforce/index.ts:46-79 | Without `info`, a successful query replies 200 with its result. With neither `query` nor `info`, the reply is 200 with no body. |
| Salesforce.AllInfoMapsEveryObject | pages/api/salesforce/index.ts:59-70 | If every describe call succeeds, `info === 'all'` replies 200 with an object mapping each sobject name to exactly its field names. |
| Salesforce.OneObjectInfo | pages/api/salesforce/index.ts:71-76 | Any truthy `info` other than `'all'` replies 200 with that one object's field names, or throws when its describe call rejects. |
| Salesforce.BrowserRequest | pages/index.js:10-17 | End to end: a request without a cookie gets 401 for the missing header. A request carrying a JSON Web Token cookie has exactly that token verified. |

Clauses of `Smartsheet.ParseAccepted` (on a match, the name is the
captured `\w+` and the parameters are a list):
- the list has one more element than the arguments have commas;
- element k is the trimmed k-th comma-separated field;
- no element contains a comma;
- no element starts or ends with white space;
- the untrimmed fields join back to the argument text.

Clauses of `Smartsheet.WriteToCsv`:
- if the downloaded text is non-empty and fails to convert to JSON, the call
  rejects: there is no message and no `output.csv`;
- otherwise the message is `SUCCESS writing output.csv`;
- otherwise `output.csv` is written iff the downloaded text is non-empty;
- when written, it receives that text followed by one `\n`.

## Left out

- The SDK calls and the CSV converter are parameters:
  - the Smartsheet client;
  - `csvtojson`;
  - the jsforce connection;
  - `jsonwebtoken`.
- `getSheetRows`, `getSheetById` and `listSheets` are thin wrappers around
  SDK calls. No logic of the route depends on what they return.
- Evaluation order: the handler evaluates all five `options` entries
  eagerly, before choosing one (pages/api/smartsheet/index.ts:132-138).
  - So `writeToCSV` writes `output.csv` whatever the query names.
  - A throwing `getSheetById` or `listSheets` ends the request first.
  - A rejected CSV conversion in `getSheetAsJSON` or `writeToCSV` also ends
    the whole request. `GetSheetAsJson` and `WriteToCsv` report that
    rejection, but `Respond` does not model it.
  - The model gives `Respond` the already evaluated options.
  - `WriteToCsv` models `writeToCSV` on its own.
- `Number(params[0])` and its truthiness are not modelled: the sheet id's
  truthiness is a boolean input.
- `query` is modelled as a string. A request without `query` throws at
  pages/api/smartsheet/index.ts:20, and the model does not cover that case.
- The Salesforce `query` and `info` fields are modelled as strings or
  `undefined`. Other JSON values and their truthiness are not modelled.
- The file system is not modelled. The `output.csv` write stream is an
  in-memory string, and only the order of its writes is modelled.
- Console logging is not modelled.
- Asynchronous interleaving is not modelled: each awaited call is one step.
- Further code not part of this model:
  - the OAuth route, except that the token it issues is a compact JSON Web
    Token;
  - the monday.com route;
  - the health route;
  - the rest of the React page.
- The SDK answers do not depend on the access token or the instance URL
  given to `jsforce.Connection`.
- An uncaught rejection from `describeGlobal` or `describe` is modelled as a
  `Thrown` outcome. What Next.js then sends is not modelled.
- Salesforce.Assign: when `result` is built, integer-like property names
  are not moved ahead of the others, unlike in JavaScript object order.
- `split` with an empty separator is never used by the routes and is not
  modelled. `JsString.Split` requires a non-empty separator.
