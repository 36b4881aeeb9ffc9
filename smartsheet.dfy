/** The Smartsheet handler: a "virtual function call" string such as
    `getSheetAsJSON(2888478287155076)` is parsed into a function name and a
    parameter list, and the reply is the pre-computed option of that name. */
module Smartsheet {
  import opened Js
  import opened JsString

  // ---------------------------------------------------------------------------
  // parseFunctionString: the regular expression /^(\w+)\((.*)\)$/
  // ---------------------------------------------------------------------------

  /** `\w` without the `u` and `i` flags: `[A-Za-z0-9_]`. */
  predicate IsWordChar(c: char)
  {
    ('A' <= c <= 'Z') || ('a' <= c <= 'z') || ('0' <= c <= '9') || c == '_'
  }

  /** What it means for `s` to match `^(\w+)\((.*)\)$` with capture groups
      `name` and `args`: a non-empty run of word characters, `(`, text without
      line terminators (what `.` matches), and a final `)` at the end of input. */
  ghost predicate MatchesCall(s: string, name: string, args: string)
  {
    |name| >= 1
    && (forall k :: 0 <= k < |name| ==> IsWordChar(name[k]))
    && (forall k :: 0 <= k < |args| ==> !IsLineTerminator(args[k]))
    && s == name + "(" + args + ")"
  }

  /** Length of the longest prefix of `s` made of word characters. */
  function WordPrefixLength(s: string): (n: nat)
    ensures n <= |s|
    ensures forall k :: 0 <= k < n ==> IsWordChar(s[k])
    ensures n == |s| || !IsWordChar(s[n])
  {
    if s != [] && IsWordChar(s[0]) then 1 + WordPrefixLength(s[1..]) else 0
  }

  /** `s.match(/^(\w+)\((.*)\)$/)`: the two capture groups, or `None` (`null`).
      `\w+` cannot cross the `(`, so the name is the whole word prefix; the greedy
      `.*` followed by `\)$` takes everything up to the last character. */
  function MatchCall(s: string): (m: Option<(string, string)>)
  {
    var n := WordPrefixLength(s);
    if 1 <= n && n + 2 <= |s| && s[n] == '(' && s[|s| - 1] == ')'
       && (forall k :: n + 1 <= k < |s| - 1 ==> !IsLineTerminator(s[k]))
    then Some((s[..n], s[n + 1..|s| - 1]))
    else None
  }

  /** A string with `(` at `n` and `)` at its end is the text before, the
      parentheses and the text between them. */
  lemma CallShape(s: string, n: nat)
    requires n + 2 <= |s| && s[n] == '(' && s[|s| - 1] == ')'
    ensures s == s[..n] + "(" + s[n + 1..|s| - 1] + ")"
  {
    var t := s[..n] + "(" + s[n + 1..|s| - 1] + ")";
    assert |t| == |s|;
    forall k | 0 <= k < |s|
      ensures s[k] == t[k]
    {
      if k < n {
      } else if k == n {
      } else if k < |s| - 1 {
        assert t[k] == s[n + 1..|s| - 1][k - n - 1];
      }
    }
  }

  /** The matcher finds exactly the matches the regular expression admits,
      and a match determines its capture groups. */
  lemma MatchCallExact(s: string, name: string, args: string)
    ensures MatchCall(s) == Some((name, args)) <==> MatchesCall(s, name, args)
  {
    var n := WordPrefixLength(s);
    if MatchCall(s) == Some((name, args)) {
      assert name == s[..n] && args == s[n + 1..|s| - 1];
      CallShape(s, n);
      forall k | 0 <= k < |args|
        ensures !IsLineTerminator(args[k])
      {
        assert args[k] == s[n + 1 + k];
      }
    }
    if MatchesCall(s, name, args) {
      var w := |name|;
      assert s[w] == '(';
      assert forall k :: 0 <= k < w ==> s[k] == name[k];
      assert n == w;
      assert s[..n] == name;
      assert s[n + 1..|s| - 1] == args;
      forall k | n + 1 <= k < |s| - 1
        ensures !IsLineTerminator(s[k])
      {
        assert s[k] == args[k - n - 1];
      }
    }
  }

  /** The `params` field: an array of strings after a match, and the string
      `'undefined'` (not an array) when the query does not match. */
  datatype Params = List(items: seq<string>) | Text(text: string)

  /** The record `{ functionName, params }` returned by `parseFunctionString`. */
  datatype Call = Call(functionName: string, params: Params)

  /** `parseFunctionString(str)`. */
  function ParseFunctionString(s: string): Call
  {
    match MatchCall(s)
    case None => Call("undefined", Text("undefined"))
    case Some((name, args)) =>
      var pieces := Split(args, ",");
      Call(name, List(seq(|pieces|, k requires 0 <= k < |pieces| => Trim(pieces[k]))))
  }

  /** A string the regular expression rejects parses to the fixed record
      `{ functionName: 'undefined', params: 'undefined' }`, and only such a string does. */
  lemma ParseRejected(s: string)
    ensures ParseFunctionString(s).params.Text?
            <==> forall name, args :: !MatchesCall(s, name, args)
    ensures ParseFunctionString(s).params.Text?
            ==> ParseFunctionString(s) == Call("undefined", Text("undefined"))
  {
    match MatchCall(s)
    case None =>
      forall name, args
        ensures !MatchesCall(s, name, args)
      {
        MatchCallExact(s, name, args);
      }
    case Some((name, args)) =>
      MatchCallExact(s, name, args);
  }

  /** On a match, `functionName` is the text before the first `(` and the
      parameters are the comma-separated fields of everything between that `(`
      and the final `)`, each trimmed: one more parameter than there are commas,
      none containing a comma, none starting or ending with white space, and the
      untrimmed fields join back to the argument text. */
  lemma ParseAccepted(s: string, name: string, args: string)
    requires MatchesCall(s, name, args)
    ensures ParseFunctionString(s).functionName == name
    ensures ParseFunctionString(s).params.List?
    ensures var items := ParseFunctionString(s).params.items;
      && |items| == multiset(args)[','] + 1
      && (forall k :: 0 <= k < |items| ==> items[k] == Trim(Split(args, ",")[k]))
      && (forall k :: 0 <= k < |items| ==> ',' !in items[k])
      && (forall k :: 0 <= k < |items| ==>
            items[k] == [] || (!IsWhiteSpace(items[k][0]) && !IsWhiteSpace(items[k][|items[k]| - 1])))
    ensures Join(Split(args, ","), ",") == args
  {
    MatchCallExact(s, name, args);
    var pieces := Split(args, ",");
    var items := ParseFunctionString(s).params.items;
    SplitCount(args, ',');
    SplitJoin(args, ",");
    SplitPartsFree(args, ",");
    forall k | 0 <= k < |items|
      ensures ',' !in items[k]
    {
      ContainsChar(pieces[k], ',');
      var a, b :| 0 <= a <= b <= |pieces[k]| && items[k] == pieces[k][a..b];
    }
  }

  /** `f()` has one, empty, parameter. */
  lemma EmptyArgumentList()
    ensures ParseFunctionString("f()") == Call("f", List([""]))
  {
    assert "f()" == "f" + "(" + "" + ")";
    assert MatchesCall("f()", "f", "");
    ParseAccepted("f()", "f", "");
    assert Split("", ",") == [""];
  }

  /** The greedy `.*` keeps inner parentheses: `paramsStr` runs to the last `)`. */
  lemma InnerParenthesesKept()
    ensures MatchCall("g(h(1))") == Some(("g", "h(1)"))
  {
    var s, args := "g(h(1))", "h(1)";
    assert s == "g" + "(" + args + ")";
    assert forall k :: 0 <= k < |args| ==> !IsLineTerminator(args[k]);
    MatchCallExact(s, "g", args);
  }

  // ---------------------------------------------------------------------------
  // The reply: options[functionName] or { message: 'no query' }
  // ---------------------------------------------------------------------------

  /** The keys of the `options` object. */
  const OptionKeys: set<string> := {"getSheetRows", "getSheetAsJSON", "getSheetById", "writeToCSV", "listSheets"}

  /** The JSON body: the value of one option, or a `{ message }` object. */
  datatype Body<V> = OptionValue(value: V) | Message(message: string)

  datatype Reply<V> = Reply(status: int, body: Body<V>)

  /** The handler's reply to `query`, given the already evaluated `options`:
      `options[functionName]` when `query` is truthy and the parsed name is an
      own key of `options`, `{ message: 'no query' }` otherwise; always status 200. */
  function Respond<V>(query: string, options: map<string, V>): Reply<V>
    requires options.Keys == OptionKeys
  {
    var name := ParseFunctionString(query).functionName;
    if query != "" && name in options then Reply(200, OptionValue(options[name]))
    else Reply(200, Message("no query"))
  }

  /** A query that does not parse is answered `{ message: 'no query' }`:
      `'undefined'` is not one of the option keys. */
  lemma RejectedQueryGetsNoQuery<V>(query: string, options: map<string, V>)
    requires options.Keys == OptionKeys
    requires forall name, args :: !MatchesCall(query, name, args)
    ensures Respond(query, options) == Reply(200, Message("no query"))
  {
    ParseRejected(query);
    assert "undefined" !in OptionKeys;
  }

  /** The selection rule stated against the regular expression itself: the
      reply is always 200; it is an option's value exactly when the query is
      `name(args)` for an option key `name`, and then it is that option;
      otherwise it is `{ message: 'no query' }`. */
  lemma RespondRule<V>(query: string, options: map<string, V>)
    requires options.Keys == OptionKeys
    ensures Respond(query, options).status == 200
    ensures Respond(query, options).body.OptionValue?
            <==> exists name, args :: MatchesCall(query, name, args) && name in OptionKeys
    ensures forall name, args :: MatchesCall(query, name, args) && name in OptionKeys
              ==> Respond(query, options).body == OptionValue(options[name])
    ensures Respond(query, options).body.Message? ==> Respond(query, options).body.message == "no query"
  {
    match MatchCall(query)
    case None =>
      forall name, args
        ensures !MatchesCall(query, name, args)
      {
        MatchCallExact(query, name, args);
      }
      RejectedQueryGetsNoQuery(query, options);
    case Some((name, args)) =>
      MatchCallExact(query, name, args);
      AcceptedQueryByName(query, options, name, args);
      forall name', args' | MatchesCall(query, name', args')
        ensures name' == name
      {
        MatchCallExact(query, name', args');
      }
  }

  /** For a query that parses, the reply is decided by the parsed name alone:
      the `query &&` guard never rejects a string that names an option. */
  lemma AcceptedQueryByName<V>(query: string, options: map<string, V>, name: string, args: string)
    requires options.Keys == OptionKeys
    requires MatchesCall(query, name, args)
    ensures Respond(query, options).body
            == if name in OptionKeys then OptionValue(options[name]) else Message("no query")
  {
    ParseAccepted(query, name, args);
  }

  // ---------------------------------------------------------------------------
  // getSheetAsJSON and writeToCSV: a result record filled in place
  // ---------------------------------------------------------------------------

  /** The `json` field: the initial `''`, or what the CSV converter produced. */
  datatype JsonField<J> = Blank | Converted(rows: J)

  /** The record `{ json: '', csv: '' }` that `getSheetAsJSON` and `writeToCSV`
      fill in place. */
  class SheetResult<J> {
    var json: JsonField<J>
    var csv: string

    constructor ()
      ensures json == Blank && csv == ""
    {
      json := Blank;
      csv := "";
    }

    /** The download's `.then(response => result.csv = response)`; a rejected
        download (`None`) is only logged and leaves the record as it was. */
    method StoreDownload(download: Option<string>)
      modifies this
      ensures csv == (if download.Some? then download.value else old(csv))
      ensures json == old(json)
    {
      if download.Some? {
        csv := download.value;
      }
    }

    /** `if (result.csv !== '') await csv(...).fromString(result.csv).then(r => result.json = r)`.
        The conversion has no `.catch`: when it rejects (`None`), `json` is left
        as it was and `rejected` reports that the rejection propagates. */
    method ConvertIfPresent(toJson: string -> Option<J>) returns (rejected: bool)
      modifies this
      ensures csv == old(csv)
      ensures rejected <==> ConversionRejects(old(csv), toJson)
      ensures json == (if old(csv) != "" && !rejected then Converted(toJson(old(csv)).value) else old(json))
    {
      rejected := false;
      if csv != "" {
        match toJson(csv)
        case None =>
          rejected := true;
        case Some(rows) =>
          json := Converted(rows);
      }
    }
  }

  /** The CSV-to-JSON conversion is attempted (the text is non-empty) and rejects. */
  predicate ConversionRejects<J>(csv: string, toJson: string -> Option<J>)
  {
    csv != "" && toJson(csv).None?
  }

  /** The CSV text the record holds after the download step: the download's
      text when the sheet id is truthy and the download succeeded, else `''`. */
  function DownloadedCsv(sheetIdTruthy: bool, download: Option<string>): string
  {
    if sheetIdTruthy && download.Some? then download.value else ""
  }

  /** `getSheetAsJSON(sheetId)`: the download is attempted only for a truthy
      sheet id, and the JSON field is filled exactly when some CSV text arrived
      and converted. `rejected`: the conversion rejected, so the call rejects
      instead of returning `result`. */
  method GetSheetAsJson<J>(sheetIdTruthy: bool, download: Option<string>, toJson: string -> Option<J>)
    returns (result: SheetResult<J>, rejected: bool)
    ensures fresh(result)
    ensures result.csv == DownloadedCsv(sheetIdTruthy, download)
    ensures rejected <==> ConversionRejects(result.csv, toJson)
    ensures result.json == (if result.csv != "" && !rejected then Converted(toJson(result.csv).value) else Blank)
  {
    result := new SheetResult<J>();
    if sheetIdTruthy {
      result.StoreDownload(download);
    }
    rejected := result.ConvertIfPresent(toJson);
  }

  /** The output file's stream: what has been written so far, and whether it was ended. */
  class WriteStream {
    var contents: string
    var ended: bool

    constructor ()
      ensures contents == "" && !ended
    {
      contents := "";
      ended := false;
    }

    method Write(chunk: string)
      requires !ended
      modifies this
      ensures contents == old(contents) + chunk && !ended
    {
      contents := contents + chunk;
    }

    method End()
      modifies this
      ensures ended && contents == old(contents)
    {
      ended := true;
    }
  }

  /** Each line followed by a newline, in order: what the `forEach` loop writes. */
  function Terminated(lines: seq<string>): string
  {
    if lines == [] then "" else Terminated(lines[..|lines| - 1]) + lines[|lines| - 1] + "\n"
  }

  /** Writing every line with a newline after it is joining them with newlines
      and adding one final newline. */
  lemma {:induction false} TerminatedIsJoin(lines: seq<string>)
    requires |lines| >= 1
    ensures Terminated(lines) == Join(lines, "\n") + "\n"
    decreases |lines|
  {
    var init, last := lines[..|lines| - 1], lines[|lines| - 1];
    assert lines == init + [last];
    if |init| >= 1 {
      TerminatedIsJoin(init);
      JoinSnoc(init, last, "\n");
    }
  }

  /** `writeToCSV(sheetId)`: fetch the CSV as `getSheetAsJSON` does, then, if
      any text arrived, write each line's comma-separated fields re-joined with
      commas and a newline to `output.csv`. What the file receives is the
      downloaded text plus one newline, and the message is always the same.
      If the CSV-to-JSON conversion rejects, the call rejects before any
      file is created (`message` is `None`). `written` is `None` when no file
      is created. */
  method WriteToCsv<J>(sheetIdTruthy: bool, download: Option<string>, toJson: string -> Option<J>)
    returns (written: Option<string>, message: Option<string>)
    ensures var text := DownloadedCsv(sheetIdTruthy, download);
            if ConversionRejects(text, toJson) then written.None? && message.None?
            else message == Some("SUCCESS writing output.csv")
                 && written == if text != "" then Some(text + "\n") else None
  {
    var result, rejected := GetSheetAsJson(sheetIdTruthy, download, toJson);
    written := None;
    if rejected {
      return None, None;
    }
    var text := result.csv;
    if text != "" {
      var lines := Split(text, "\n");
      var stream := new WriteStream();
      for i := 0 to |lines|
        invariant !stream.ended
        invariant stream.contents == Terminated(lines[..i])
      {
        var fields := Split(lines[i], ",");
        SplitJoin(lines[i], ",");
        stream.Write(Join(fields, ",") + "\n");
        assert lines[..i + 1][..i] == lines[..i];
      }
      stream.End();
      assert lines[..|lines|] == lines;
      TerminatedIsJoin(lines);
      SplitJoin(text, "\n");
      written := Some(stream.contents);
    }
    message := Some("SUCCESS writing output.csv");
  }
}
