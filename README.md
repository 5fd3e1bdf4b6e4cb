# httpsig-java servlet adapter, modelled in Dafny

This project models the servlet-side adapter of the httpsig-java HTTP
signature scheme, `ServletUtil`. It does two things:

- `getRequestContent` turns an incoming servlet request into the
  `RequestContent` that gets signed. It lower-cases the header names to
  ignore. It builds the path (the request URI, plus `?query` when there is
  a query string) and the request line (`method path protocol`). Then it
  hands every value of every non-ignored header to the content builder, in
  enumeration order.
- `getAuthorization` returns the first `Authorization` header value that
  parses, or nothing.

Modules:

- `Wrappers` (wrappers.dfy): `Option`, which stands for Java's null.
- `Strings` (strings.dfy): ASCII lower-casing, and splitting at the first
  occurrence of a separator (used to read a path or request line back).
- `RequestContent` (request_content.dfy): `RequestContent.Builder` as a
  class. Its fields (request target, request line, header occurrences) are
  updated by `SetRequestTarget`, `SetRequestLine` and `AddHeader`.
  `Build` returns a snapshot `Content` of those fields.
- `ServletUtil` (servlet_util.dfy): the request record, the two operations
  as methods with loops, the specification functions they are proved
  against (`IgnoreSet`, `Path`, `RequestLine`, `Additions`,
  `FirstParse`), and lemmas about those functions.

The servlet request is an immutable `Request`. It holds the method, the
request URI, an optional query string, the protocol, and the headers. The
headers are a sequence of `Header(name, values)` in the container's
name-enumeration order, each with its values in value-enumeration order.
`request.getHeaders(name)` is `HeaderValues`: the values of the first
header whose name matches case-insensitively, and none when there is no
such header. `Authorization.parse` is a function parameter
`string -> Option<A>`.

## Model

| member | source | states |
|---|---|---|
| `Strings.Lower` | http-helpers/src/main/java/net/adamcin/httpsig/http/servlet/ServletUtil.java:89 | The lower-cased name has the same length, every character is the ASCII lower-case of the original's, and it contains no upper-case letter. |
| `Strings.LowerIdempotent` | http-helpers/src/main/java/net/adamcin/httpsig/http/servlet/ServletUtil.java:103 | Lower-casing an already lower-cased name changes nothing. `IgnoreSetClosed` uses this. |
| `ServletUtil.HeaderValues` | http-helpers/src/main/java/net/adamcin/httpsig/http/servlet/ServletUtil.java:57 | `getHeaders(name)` yields either no values or the values of some header whose name matches with case ignored. |
| `ServletUtil.HeaderValuesFirst` | http-helpers/src/main/java/net/adamcin/httpsig/http/servlet/ServletUtil.java:104 | `getHeaders(name)` yields the values of the first header whose name matches case-insensitively. Later headers are not consulted. |
| `ServletUtil.HeaderValuesAbsent` | http-helpers/src/main/java/net/adamcin/httpsig/http/servlet/ServletUtil.java:57 | When no header has the name, `getHeaders` yields no values. |
| `ServletUtil.HeaderValuesOwn` | http-helpers/src/main/java/net/adamcin/httpsig/http/servlet/ServletUtil.java:104 | When the names are consistent (names equal with case ignored carry equal values), `getHeaders` on an enumerated name yields that header's own values. |
| `ServletUtil.IgnoreSet` | http-helpers/src/main/java/net/adamcin/httpsig/http/servlet/ServletUtil.java:85-91 | A null collection gives the empty set. Otherwise a name is in the set exactly when it is the lower-case form of some entry of the collection, and every member is lower-case. |
| `ServletUtil.CollectIgnored` | http-helpers/src/main/java/net/adamcin/httpsig/http/servlet/ServletUtil.java:85-91 | The set filled one entry at a time by the loop is exactly `IgnoreSet` of the collection. |
| `ServletUtil.NullIgnoreIsEmptyIgnore` | http-helpers/src/main/java/net/adamcin/httpsig/http/servlet/ServletUtil.java:87-91 | A null collection and an empty collection produce the same content, so no header is skipped. |
| `ServletUtil.IgnoreSetClosed` | http-helpers/src/main/java/net/adamcin/httpsig/http/servlet/ServletUtil.java:89 | A name taken from the ignore set is itself ignored once it is lower-cased again. |
| `ServletUtil.Path` | http-helpers/src/main/java/net/adamcin/httpsig/http/servlet/ServletUtil.java:94 | The path is the URI when the query string is null, and URI + "?" + query otherwise. Its length, its URI prefix, the '?' and the query after it are stated position by position. |
| `ServletUtil.RequestLine` | http-helpers/src/main/java/net/adamcin/httpsig/http/servlet/ServletUtil.java:97 | The request line is method, space, path, space, protocol, stated position by position with its length. |
| `ServletUtil.PathRoundTrip` | http-helpers/src/main/java/net/adamcin/httpsig/http/servlet/ServletUtil.java:94 | When the URI holds no '?', splitting the path at its first '?' gives back exactly the URI and the query string (present or absent). |
| `ServletUtil.RequestLineRoundTrip` | http-helpers/src/main/java/net/adamcin/httpsig/http/servlet/ServletUtil.java:96-97 | When neither the method nor the path holds a space, splitting the line gives back the method, the path and the protocol. |
| `ServletUtil.Contribution` | http-helpers/src/main/java/net/adamcin/httpsig/http/servlet/ServletUtil.java:103-108 | An enumerated name whose lower-case form is ignored adds nothing. Otherwise it adds exactly its `getHeaders` values, in order, each under the name as enumerated. |
| `ServletUtil.Additions` | http-helpers/src/main/java/net/adamcin/httpsig/http/servlet/ServletUtil.java:99-110 | No name whose lower-case form is ignored appears among the additions of the walk over the enumerated names. |
| `ServletUtil.AdditionsAppend` | http-helpers/src/main/java/net/adamcin/httpsig/http/servlet/ServletUtil.java:99-110 | Walking one list of names and then another adds the first list's additions followed by the second's, with nothing reordered between them. |
| `ServletUtil.AdditionsSound` | http-helpers/src/main/java/net/adamcin/httpsig/http/servlet/ServletUtil.java:101-108 | Every added (name, value) pair has a name that is not ignored once lower-cased, a value among the values `getHeaders` gives for that name, and a name exactly as enumerated (original case). |
| `ServletUtil.AdditionsComplete` | http-helpers/src/main/java/net/adamcin/httpsig/http/servlet/ServletUtil.java:101-108 | Every value of every enumerated name whose lower-case form is not ignored is added, under the enumerated name. |
| `ServletUtil.KeptIff` | http-helpers/src/main/java/net/adamcin/httpsig/http/servlet/ServletUtil.java:103 | A header is kept exactly when it is in the request and no entry of the ignore collection equals its name with case ignored. |
| `ServletUtil.KeptNothingIgnored` | http-helpers/src/main/java/net/adamcin/httpsig/http/servlet/ServletUtil.java:87 | With nothing ignored, every header is kept, in order. |
| `ServletUtil.AdditionsFlatten` | http-helpers/src/main/java/net/adamcin/httpsig/http/servlet/ServletUtil.java:99-110 | With consistent names, the additions are the in-order flattening of the non-ignored headers: headers in name-enumeration order, each header's values in value order, nothing reordered, deduplicated or dropped. |
| `ServletUtil.InconsistentNamesRepeatFirst` | http-helpers/src/main/java/net/adamcin/httpsig/http/servlet/ServletUtil.java:104-107 | When "Foo" and "foo" are enumerated with different values, both names are added with the first one's values. The consistency assumption therefore matters. |
| `ServletUtil.ExpectedContent` | http-helpers/src/main/java/net/adamcin/httpsig/http/servlet/ServletUtil.java:93-112 | The content has a request target and a request line, and the line is the target's method and path followed by the protocol, separated by spaces. No ignored name appears among its headers. |
| `ServletUtil.ContentHeaders` | http-helpers/src/main/java/net/adamcin/httpsig/http/servlet/ServletUtil.java:99-112 | The built content's header occurrences are the flattening of the request's non-ignored headers. |
| `ServletUtil.ContentHeadersNoIgnore` | http-helpers/src/main/java/net/adamcin/httpsig/http/servlet/ServletUtil.java:74-76 | The one-argument form signs every value of every header, in order. |
| `ServletUtil.GetRequestContent` | http-helpers/src/main/java/net/adamcin/httpsig/http/servlet/ServletUtil.java:84-113 | The content built has the request target (method, path), the request line, and exactly `Additions` of the request's headers under `IgnoreSet` of the collection. These are the walk's builder state on exit, proved by loop invariants over the headers and values already processed. |
| `ServletUtil.GetRequestContentAll` | http-helpers/src/main/java/net/adamcin/httpsig/http/servlet/ServletUtil.java:74-76 | The one-argument overload produces the same content as passing a null ignore collection. |
| `ServletUtil.FirstParse` | http-helpers/src/main/java/net/adamcin/httpsig/http/servlet/ServletUtil.java:57-66 | Whatever is returned is the parse of one of the Authorization values. |
| `ServletUtil.FirstParseNone` | http-helpers/src/main/java/net/adamcin/httpsig/http/servlet/ServletUtil.java:56-67 | Nothing is returned exactly when no Authorization value parses. |
| `ServletUtil.FirstParseFirst` | http-helpers/src/main/java/net/adamcin/httpsig/http/servlet/ServletUtil.java:58-63 | When value i is the first that parses, its parse is the one returned. |
| `ServletUtil.FirstParseIgnoresLater` | http-helpers/src/main/java/net/adamcin/httpsig/http/servlet/ServletUtil.java:58-63 | Once a value parses, values after it do not affect the result (the early return). |
| `ServletUtil.GetAuthorization` | http-helpers/src/main/java/net/adamcin/httpsig/http/servlet/ServletUtil.java:56-67 | The loop with early return gives `FirstParse` of the Authorization header's values. |
| `RequestContent.Builder.constructor` | http-helpers/src/main/java/net/adamcin/httpsig/http/servlet/ServletUtil.java:93 | A new builder has no request target, no request line and no headers. |
| `RequestContent.Builder.SetRequestTarget` | http-helpers/src/main/java/net/adamcin/httpsig/http/servlet/ServletUtil.java:96 | Records the method and path as the request target. Nothing else changes. |
| `RequestContent.Builder.SetRequestLine` | http-helpers/src/main/java/net/adamcin/httpsig/http/servlet/ServletUtil.java:97 | Records the request line. Nothing else changes. |
| `RequestContent.Builder.AddHeader` | http-helpers/src/main/java/net/adamcin/httpsig/http/servlet/ServletUtil.java:107 | Appends one (name, value) occurrence after all earlier ones. Nothing else changes. |
| `RequestContent.Builder.Build` | http-helpers/src/main/java/net/adamcin/httpsig/http/servlet/ServletUtil.java:112 | The content is a snapshot of the recorded target, line and header occurrences. |

## Left out

- `sendChallenge` (http-helpers/src/main/java/net/adamcin/httpsig/http/servlet/ServletUtil.java:123-132) is left out because it resets, writes and flushes an `HttpServletResponse`, which is response I/O. Its only decision is its guard: a response that is already committed is left untouched and false is returned.
- `Authorization.parse` is not part of this model. It is an arbitrary function `string -> Option<A>` passed to `GetAuthorization`, and the Authorization type is a type parameter.
- `Constants.AUTHORIZATION` is not part of this model. Its value is taken to be `"Authorization"`. Since header names are compared case-insensitively, only its lower-case form matters.
- `RequestContent.Builder.build()` and the rest of `RequestContent` are not part of this model. The builder records the calls it receives, and `Build` returns that record rather than inventing the canonical form.
- `Strings.Lower` models Java's locale- and Unicode-dependent `String.toLowerCase` as ASCII lower-casing only.
- The `HttpServletRequest` and `Enumeration` API is replaced by an immutable record of sequences. Concurrent mutation of the request and null header enumerations are not modelled.
- `ServletUtil.AdditionsFlatten`, `ServletUtil.ContentHeaders` and `ServletUtil.ContentHeadersNoIgnore` assume of the container that enumerated names which agree with case ignored carry the same values; the servlet API does not promise it. `InconsistentNamesRepeatFirst` shows what happens without it. Without that assumption, `AdditionsSound` and `AdditionsComplete` still describe the additions, in terms of `getHeaders`.
- `PathRoundTrip` and `RequestLineRoundTrip` need a URI without '?' and a method and path without spaces. A URI containing '?' makes the path ambiguous: "/a?b" with no query gives the same path as "/a" with query "b".
- Exceptions from a null request, a null entry in the ignore collection or a failing builder are not modelled.
- The signing and verification tests (JschKeyTest, Http4UtilTest) are not modelled. They exercise RSA/DSA cryptography through JSch and JCE, key files and an HTTP server.
