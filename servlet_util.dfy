/**
 * The servlet-side adapter of the HTTP signature scheme: it turns an
 * incoming request into the content that gets signed, and it picks the
 * Authorization header value to verify.
 *
 * The servlet request is an immutable record. Its headers are the names
 * the container enumerates, in that order, each with the values it
 * enumerates for that name, in that order. Authorization parsing is not
 * part of this model and is passed in as a function.
 */
module ServletUtil {
  import opened Wrappers
  import opened Strings
  import RequestContent

  /** The header name under which the Authorization value is looked up. */
  const AUTHORIZATION: string := "Authorization"

  datatype Header = Header(name: string, values: seq<string>)

  datatype Request = Request(
    httpMethod: string,
    requestUri: string,
    queryString: Option<string>,
    protocol: string,
    headers: seq<Header>)

  /** Header names are compared with their case ignored. */
  predicate SameName(a: string, b: string) {
    Lower(a) == Lower(b)
  }

  /**
   * Assumed of the container: two enumerated names that agree with case
   * ignored carry the same values. It holds in particular when no name is
   * enumerated twice.
   */
  predicate ConsistentNames(headers: seq<Header>) {
    forall i, j :: 0 <= i < j < |headers| && SameName(headers[i].name, headers[j].name) ==>
                     headers[i].values == headers[j].values
  }

  /**
   * The values the request gives for a header name: those of the first
   * header that has that name, ignoring case, and none when there is no
   * such header.
   */
  function HeaderValues(headers: seq<Header>, name: string): (r: seq<string>)
    ensures r == [] || exists k :: 0 <= k < |headers| && SameName(headers[k].name, name) && r == headers[k].values
  {
    if headers == [] then []
    else if SameName(headers[0].name, name) then headers[0].values
    else HeaderValues(headers[1..], name)
  }

  /** No header has the name: no values. */
  lemma {:induction false} HeaderValuesAbsent(headers: seq<Header>, name: string)
    requires forall k :: 0 <= k < |headers| ==> !SameName(headers[k].name, name)
    ensures HeaderValues(headers, name) == []
  {
    if headers != [] {
      assert forall k :: 0 <= k < |headers| - 1 ==> headers[1..][k] == headers[k + 1];
      HeaderValuesAbsent(headers[1..], name);
    }
  }

  /** The first header that has the name gives the values; later ones are not consulted. */
  lemma {:induction false} HeaderValuesFirst(headers: seq<Header>, name: string, k: nat)
    requires k < |headers| && SameName(headers[k].name, name)
    requires forall j :: 0 <= j < k ==> !SameName(headers[j].name, name)
    ensures HeaderValues(headers, name) == headers[k].values
  {
    if k > 0 {
      assert forall j :: 0 <= j < k - 1 ==> headers[1..][j] == headers[j + 1];
      HeaderValuesFirst(headers[1..], name, k - 1);
    }
  }

  /** With consistent names, every enumerated name gives back its own values. */
  lemma {:induction false} HeaderValuesOwn(headers: seq<Header>, k: nat)
    requires ConsistentNames(headers)
    requires k < |headers|
    ensures HeaderValues(headers, headers[k].name) == headers[k].values
  {
    if k > 0 && !SameName(headers[0].name, headers[k].name) {
      assert headers[1..][k - 1] == headers[k];
      assert ConsistentNames(headers[1..]) by {
        forall i, j | 0 <= i < j < |headers[1..]| && SameName(headers[1..][i].name, headers[1..][j].name)
          ensures headers[1..][i].values == headers[1..][j].values
        {
          assert headers[1..][i] == headers[i + 1] && headers[1..][j] == headers[j + 1];
        }
      }
      HeaderValuesOwn(headers[1..], k - 1);
    }
  }

  // ---------------------------------------------------------------------
  // Ignored header names
  // ---------------------------------------------------------------------

  /**
   * The lower-cased names of the headers to leave out; a missing (null)
   * collection leaves nothing out.
   */
  function IgnoreSet(ignoreHeaders: Option<seq<string>>): (r: set<string>)
    ensures ignoreHeaders.None? ==> r == {}
    ensures forall n :: n in r <==>
              ignoreHeaders.Some? && exists x :: x in ignoreHeaders.value && Lower(x) == n
    ensures forall n :: n in r ==> IsLower(n)
  {
    if ignoreHeaders.None? then {} else set x | x in ignoreHeaders.value :: Lower(x)
  }

  /** A name taken from the ignore set is itself ignored. */
  lemma IgnoreSetClosed(ignoreHeaders: Option<seq<string>>, n: string)
    requires n in IgnoreSet(ignoreHeaders)
    ensures Lower(n) in IgnoreSet(ignoreHeaders)
  {
    var x :| x in ignoreHeaders.value && Lower(x) == n;
    LowerIdempotent(x);
  }

  // ---------------------------------------------------------------------
  // Path and request line
  // ---------------------------------------------------------------------

  /** The request URI, followed by "?" and the query string when there is one. */
  function Path(request: Request): (r: string)
    ensures |r| == |request.requestUri| +
                   (if request.queryString.Some? then 1 + |request.queryString.value| else 0)
    ensures r[..|request.requestUri|] == request.requestUri
    ensures request.queryString.Some? ==>
              r[|request.requestUri|] == '?' && r[|request.requestUri| + 1..] == request.queryString.value
  {
    request.requestUri +
      (if request.queryString.Some? then "?" + request.queryString.value else "")
  }

  function RequestLine(request: Request): (r: string)
    ensures |r| == |request.httpMethod| + |Path(request)| + |request.protocol| + 2
    ensures r[..|request.httpMethod|] == request.httpMethod && r[|request.httpMethod|] == ' '
    ensures r[|request.httpMethod| + 1..|request.httpMethod| + 1 + |Path(request)|] == Path(request)
    ensures r[|request.httpMethod| + 1 + |Path(request)|] == ' '
    ensures r[|request.httpMethod| + 2 + |Path(request)|..] == request.protocol
  {
    request.httpMethod + " " + Path(request) + " " + request.protocol
  }

  /** Reads a path back into the URI and the query string. */
  function ParsePath(path: string): (string, Option<string>) {
    SplitAt(path, '?')
  }

  /** Reads a request line back into method, path and protocol. */
  function ParseRequestLine(line: string): Option<(string, string, string)> {
    var (verb, rest) := SplitAt(line, ' ');
    if rest.None? then None
    else
      var (path, protocol) := SplitAt(rest.value, ' ');
      if protocol.None? then None else Some((verb, path, protocol.value))
  }

  /**
   * The path is unambiguous: when the URI holds no '?', the URI and the
   * query string (present or not) can be recovered from it.
   */
  lemma PathRoundTrip(request: Request)
    requires '?' !in request.requestUri
    ensures ParsePath(Path(request)) == (request.requestUri, request.queryString)
  {
    var uri := request.requestUri;
    match request.queryString
    case None =>
      assert Path(request) == uri;
      SplitAtAbsent(uri, '?');
    case Some(q) =>
      assert Path(request) == uri + ['?'] + q;
      SplitAtJoin(uri, '?', q);
  }

  /**
   * The request line is unambiguous: when neither the method nor the path
   * holds a space, all three parts can be recovered from it.
   */
  lemma RequestLineRoundTrip(request: Request)
    requires ' ' !in request.httpMethod && ' ' !in Path(request)
    ensures ParseRequestLine(RequestLine(request)) ==
            Some((request.httpMethod, Path(request), request.protocol))
  {
    var verb, path, protocol := request.httpMethod, Path(request), request.protocol;
    assert RequestLine(request) == verb + [' '] + (path + " " + protocol);
    SplitAtJoin(verb, ' ', path + " " + protocol);
    assert path + " " + protocol == path + [' '] + protocol;
    SplitAtJoin(path, ' ', protocol);
  }

  // ---------------------------------------------------------------------
  // Header additions
  // ---------------------------------------------------------------------

  /** Each value paired with the header name, in the values' order. */
  function Occurrences(name: string, values: seq<string>): (r: seq<(string, string)>)
    ensures |r| == |values|
    ensures forall j :: 0 <= j < |values| ==> r[j] == (name, values[j])
  {
    seq(|values|, j requires 0 <= j < |values| => (name, values[j]))
  }

  lemma OccurrencesStep(name: string, values: seq<string>, j: nat)
    requires j < |values|
    ensures Occurrences(name, values[..j + 1]) == Occurrences(name, values[..j]) + [(name, values[j])]
  {
  }

  /**
   * What one enumerated header name adds to the content: nothing when its
   * lower-cased form is ignored, otherwise each of the request's values
   * for it, under the name as enumerated.
   */
  function Contribution(name: string, all: seq<Header>, ignore: set<string>): (r: seq<(string, string)>)
    ensures Lower(name) in ignore ==> r == []
    ensures Lower(name) !in ignore ==>
              |r| == |HeaderValues(all, name)| &&
              forall j :: 0 <= j < |r| ==> r[j] == (name, HeaderValues(all, name)[j])
  {
    if Lower(name) in ignore then [] else Occurrences(name, HeaderValues(all, name))
  }

  /** The additions made while walking the enumerated names, in order. */
  function Additions(names: seq<Header>, all: seq<Header>, ignore: set<string>): (r: seq<(string, string)>)
    ensures forall p :: p in r ==> Lower(p.0) !in ignore
  {
    if names == [] then []
    else Contribution(names[0].name, all, ignore) + Additions(names[1..], all, ignore)
  }

  /** The headers whose lower-cased name is not ignored, in their order. */
  function Kept(headers: seq<Header>, ignore: set<string>): seq<Header> {
    if headers == [] then []
    else (if Lower(headers[0].name) in ignore then [] else [headers[0]]) + Kept(headers[1..], ignore)
  }

  /** Every value of every header, in order, paired with its header's name. */
  function Flatten(headers: seq<Header>): seq<(string, string)> {
    if headers == [] then []
    else Occurrences(headers[0].name, headers[0].values) + Flatten(headers[1..])
  }

  /** Walking names one after the other adds their additions one after the other. */
  lemma {:induction false} AdditionsAppend(xs: seq<Header>, ys: seq<Header>, all: seq<Header>, ignore: set<string>)
    ensures Additions(xs + ys, all, ignore) == Additions(xs, all, ignore) + Additions(ys, all, ignore)
  {
    if xs != [] {
      assert (xs + ys)[0] == xs[0];
      assert (xs + ys)[1..] == xs[1..] + ys;
      AdditionsAppend(xs[1..], ys, all, ignore);
      var c := Contribution(xs[0].name, all, ignore);
      assert Additions(xs + ys, all, ignore) == c + Additions(xs[1..] + ys, all, ignore);
    } else {
      assert xs + ys == ys;
    }
  }

  /** Walking one more name adds that name's contribution at the end. */
  lemma AdditionsStep(names: seq<Header>, i: nat, ignore: set<string>)
    requires i < |names|
    ensures Additions(names[..i + 1], names, ignore) ==
            Additions(names[..i], names, ignore) + Contribution(names[i].name, names, ignore)
  {
    assert names[..i + 1] == names[..i] + [names[i]];
    AdditionsAppend(names[..i], [names[i]], names, ignore);
    assert Additions([names[i]], names, ignore) == Contribution(names[i].name, names, ignore);
  }

  /**
   * Every addition is a value of a non-ignored name, given under that name
   * exactly as it was enumerated (its case unchanged).
   */
  lemma {:induction false} AdditionsSound(names: seq<Header>, all: seq<Header>, ignore: set<string>)
    ensures forall p :: p in Additions(names, all, ignore) ==>
              Lower(p.0) !in ignore && p.1 in HeaderValues(all, p.0) &&
              exists k :: 0 <= k < |names| && names[k].name == p.0
  {
    if names != [] {
      AdditionsSound(names[1..], all, ignore);
      forall p | p in Additions(names, all, ignore)
        ensures Lower(p.0) !in ignore && p.1 in HeaderValues(all, p.0)
        ensures exists k :: 0 <= k < |names| && names[k].name == p.0
      {
        if p in Contribution(names[0].name, all, ignore) {
          var vs := HeaderValues(all, names[0].name);
          var j :| 0 <= j < |vs| && Occurrences(names[0].name, vs)[j] == p;
          assert names[0].name == p.0;
        } else {
          assert p in Additions(names[1..], all, ignore);
          var k :| 0 <= k < |names[1..]| && names[1..][k].name == p.0;
          assert names[k + 1].name == p.0;
        }
      }
    }
  }

  /** Every value of every non-ignored name is added. */
  lemma {:induction false} AdditionsComplete(names: seq<Header>, all: seq<Header>, ignore: set<string>, k: nat, j: nat)
    requires k < |names| && Lower(names[k].name) !in ignore
    requires j < |HeaderValues(all, names[k].name)|
    ensures (names[k].name, HeaderValues(all, names[k].name)[j]) in Additions(names, all, ignore)
  {
    if k == 0 {
      assert Occurrences(names[0].name, HeaderValues(all, names[0].name))[j] ==
             (names[0].name, HeaderValues(all, names[0].name)[j]);
    } else {
      assert names[1..][k - 1] == names[k];
      AdditionsComplete(names[1..], all, ignore, k - 1, j);
    }
  }

  lemma {:induction false} KeptMembers(headers: seq<Header>, ignore: set<string>, h: Header)
    ensures h in Kept(headers, ignore) <==> h in headers && Lower(h.name) !in ignore
  {
    if headers != [] {
      KeptMembers(headers[1..], ignore, h);
      assert headers == [headers[0]] + headers[1..];
    }
  }

  /** A header is kept exactly when no ignored name matches its name, case ignored. */
  lemma KeptIff(headers: seq<Header>, ignoreHeaders: Option<seq<string>>, h: Header)
    ensures h in Kept(headers, IgnoreSet(ignoreHeaders)) <==>
            h in headers &&
            !(ignoreHeaders.Some? && exists x :: x in ignoreHeaders.value && SameName(x, h.name))
  {
    KeptMembers(headers, IgnoreSet(ignoreHeaders), h);
  }

  /** Nothing ignored, nothing dropped. */
  lemma {:induction false} KeptNothingIgnored(headers: seq<Header>)
    ensures Kept(headers, {}) == headers
  {
    if headers != [] {
      KeptNothingIgnored(headers[1..]);
      assert headers == [headers[0]] + headers[1..];
    }
  }

  /**
   * With consistent names, the additions are exactly the in-order flattening
   * of the non-ignored headers: names in enumeration order, each one's
   * values in their order, nothing reordered, merged or dropped.
   */
  lemma {:induction false} AdditionsFlatten(names: seq<Header>, all: seq<Header>, ignore: set<string>)
    requires ConsistentNames(all)
    requires forall h :: h in names ==> h in all
    ensures Additions(names, all, ignore) == Flatten(Kept(names, ignore))
  {
    if names != [] {
      var h := names[0];
      assert h in names;
      assert forall x :: x in names[1..] ==> x in names;
      AdditionsFlatten(names[1..], all, ignore);
      var k :| 0 <= k < |all| && all[k] == h;
      HeaderValuesOwn(all, k);
      if Lower(h.name) in ignore {
        assert Kept(names, ignore) == Kept(names[1..], ignore);
      } else {
        assert Kept(names, ignore) == [h] + Kept(names[1..], ignore);
        assert ([h] + Kept(names[1..], ignore))[1..] == Kept(names[1..], ignore);
      }
    }
  }

  /**
   * The assumption matters: when "Foo" and "foo" are enumerated with
   * different values, both names get the values of the first.
   */
  lemma InconsistentNamesRepeatFirst()
    ensures Additions([Header("Foo", ["a"]), Header("foo", ["b"])],
                      [Header("Foo", ["a"]), Header("foo", ["b"])], {}) ==
            [("Foo", "a"), ("foo", "a")]
  {
    var all := [Header("Foo", ["a"]), Header("foo", ["b"])];
    assert Lower("Foo") == "foo" && Lower("foo") == "foo";
    assert HeaderValues(all, "foo") == ["a"];
    assert all[1..] == [Header("foo", ["b"])] && all[1..][1..] == [];
  }

  // ---------------------------------------------------------------------
  // getRequestContent
  // ---------------------------------------------------------------------

  /** The content made from a request, leaving out the given header names. */
  function ExpectedContent(request: Request, ignoreHeaders: Option<seq<string>>): (r: RequestContent.Content)
    ensures r.requestTarget.Some? && r.requestLine.Some?
    ensures r.requestLine.value ==
            r.requestTarget.value.0 + " " + r.requestTarget.value.1 + " " + request.protocol
    ensures forall p :: p in r.headers ==> Lower(p.0) !in IgnoreSet(ignoreHeaders)
  {
    RequestContent.Content(
      Some((request.httpMethod, Path(request))),
      Some(RequestLine(request)),
      Additions(request.headers, request.headers, IgnoreSet(ignoreHeaders)))
  }

  /** The content's headers are the flattening of the request's non-ignored headers. */
  lemma ContentHeaders(request: Request, ignoreHeaders: Option<seq<string>>)
    requires ConsistentNames(request.headers)
    ensures ExpectedContent(request, ignoreHeaders).headers ==
            Flatten(Kept(request.headers, IgnoreSet(ignoreHeaders)))
  {
    AdditionsFlatten(request.headers, request.headers, IgnoreSet(ignoreHeaders));
  }

  /** Without a collection to ignore, every header occurrence is signed. */
  lemma ContentHeadersNoIgnore(request: Request)
    requires ConsistentNames(request.headers)
    ensures ExpectedContent(request, None).headers == Flatten(request.headers)
  {
    ContentHeaders(request, None);
    KeptNothingIgnored(request.headers);
  }

  /** A null collection and an empty one leave out the same (no) headers. */
  lemma NullIgnoreIsEmptyIgnore(request: Request)
    ensures ExpectedContent(request, None) == ExpectedContent(request, Some([]))
  {
    assert IgnoreSet(Some([])) == {};
  }

  /** Fills the set of lower-cased ignored names, one entry at a time. */
  method CollectIgnored(ignoreHeaders: Option<seq<string>>) returns (ignore: set<string>)
    ensures ignore == IgnoreSet(ignoreHeaders)
  {
    ignore := {};
    if ignoreHeaders.Some? {
      var xs := ignoreHeaders.value;
      for i := 0 to |xs|
        invariant forall n :: n in ignore <==> exists j :: 0 <= j < i && Lower(xs[j]) == n
      {
        ignore := ignore + {Lower(xs[i])};
      }
      forall n | n in ignore ensures exists x :: x in xs && Lower(x) == n {
        var j :| 0 <= j < |xs| && Lower(xs[j]) == n;
        assert xs[j] in xs;
      }
    }
  }

  method GetRequestContent(request: Request, ignoreHeaders: Option<seq<string>>)
    returns (content: RequestContent.Content)
    ensures content == ExpectedContent(request, ignoreHeaders)
  {
    var ignore := CollectIgnored(ignoreHeaders);

    var signatureContent := new RequestContent.Builder();
    var path := request.requestUri +
      (if request.queryString.Some? then "?" + request.queryString.value else "");

    signatureContent.SetRequestTarget(request.httpMethod, path);
    signatureContent.SetRequestLine(request.httpMethod + " " + path + " " + request.protocol);

    ghost var target, line := signatureContent.requestTarget, signatureContent.requestLine;
    assert target == Some((request.httpMethod, Path(request))) && line == Some(RequestLine(request));
    var headerNames := request.headers;
    var i := 0;
    while i < |headerNames|
      invariant 0 <= i <= |headerNames|
      invariant signatureContent.requestTarget == target && signatureContent.requestLine == line
      invariant signatureContent.headers == Additions(headerNames[..i], headerNames, ignore)
    {
      var headerName := headerNames[i].name;
      ghost var before := signatureContent.headers;
      if Lower(headerName) !in ignore {
        var headerValues := HeaderValues(request.headers, headerName);
        var j := 0;
        while j < |headerValues|
          invariant 0 <= j <= |headerValues|
          invariant signatureContent.requestTarget == target && signatureContent.requestLine == line
          invariant signatureContent.headers == before + Occurrences(headerName, headerValues[..j])
        {
          signatureContent.AddHeader(headerName, headerValues[j]);
          OccurrencesStep(headerName, headerValues, j);
          j := j + 1;
        }
        assert headerValues[..j] == headerValues;
      }
      AdditionsStep(headerNames, i, ignore);
      i := i + 1;
    }
    assert headerNames[..i] == headerNames;

    content := signatureContent.Build();
  }

  /** The one-argument form: no header is ignored. */
  method GetRequestContentAll(request: Request) returns (content: RequestContent.Content)
    ensures content == ExpectedContent(request, None)
  {
    content := GetRequestContent(request, None);
  }

  // ---------------------------------------------------------------------
  // getAuthorization
  // ---------------------------------------------------------------------

  /** The parse of the first value that parses, and none when no value does. */
  function FirstParse<A>(values: seq<string>, parse: string -> Option<A>): (r: Option<A>)
    ensures r.Some? ==> exists i :: 0 <= i < |values| && parse(values[i]) == r
  {
    if values == [] then None
    else if parse(values[0]).Some? then parse(values[0])
    else FirstParse(values[1..], parse)
  }

  /** Nothing is found exactly when no value parses. */
  lemma {:induction false} FirstParseNone<A>(values: seq<string>, parse: string -> Option<A>)
    ensures FirstParse(values, parse).None? <==> forall i :: 0 <= i < |values| ==> parse(values[i]).None?
  {
    if values != [] {
      FirstParseNone(values[1..], parse);
      assert forall i :: 1 <= i < |values| ==> values[i] == values[1..][i - 1];
    }
  }

  /** When the value at i is the first that parses, its parse is the one found. */
  lemma {:induction false} FirstParseFirst<A>(values: seq<string>, parse: string -> Option<A>, i: nat)
    requires i < |values| && parse(values[i]).Some?
    requires forall j :: 0 <= j < i ==> parse(values[j]).None?
    ensures FirstParse(values, parse) == parse(values[i])
  {
    if i > 0 {
      assert forall j :: 0 <= j < i - 1 ==> values[1..][j] == values[j + 1];
      FirstParseFirst(values[1..], parse, i - 1);
    }
  }

  /** Once a value parses, the values after it are never consulted. */
  lemma {:induction false} FirstParseIgnoresLater<A>(values: seq<string>, later: seq<string>, parse: string -> Option<A>)
    requires FirstParse(values, parse).Some?
    ensures FirstParse(values + later, parse) == FirstParse(values, parse)
  {
    if parse(values[0]).None? {
      assert (values + later)[1..] == values[1..] + later;
      FirstParseIgnoresLater(values[1..], later, parse);
    }
  }

  method GetAuthorization<A>(request: Request, parse: string -> Option<A>) returns (authorization: Option<A>)
    ensures authorization == FirstParse(HeaderValues(request.headers, AUTHORIZATION), parse)
  {
    var headerValues := HeaderValues(request.headers, AUTHORIZATION);
    var i := 0;
    while i < |headerValues|
      invariant 0 <= i <= |headerValues|
      invariant FirstParse(headerValues[i..], parse) == FirstParse(headerValues, parse)
    {
      var headerValue := headerValues[i];
      var parsed := parse(headerValue);
      if parsed.Some? {
        return parsed;
      }
      assert headerValues[i..][1..] == headerValues[i + 1..];
      i := i + 1;
    }
    return None;
  }
}
