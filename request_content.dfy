/**
 * The content of a request that gets signed, as collected by its builder.
 * The builder records what it is told: the request target (method and
 * path), the request line, and every header occurrence in the order it
 * was added. What the finished content does with them afterwards is not
 * part of this model, so Build returns a snapshot of the recorded fields.
 */
module RequestContent {
  import opened Wrappers

  datatype Content = Content(
    requestTarget: Option<(string, string)>,
    requestLine: Option<string>,
    headers: seq<(string, string)>)

  class Builder {
    var requestTarget: Option<(string, string)>
    var requestLine: Option<string>
    var headers: seq<(string, string)>

    constructor ()
      ensures requestTarget == None && requestLine == None && headers == []
    {
      requestTarget := None;
      requestLine := None;
      headers := [];
    }

    method SetRequestTarget(verb: string, path: string)
      modifies this
      ensures requestTarget == Some((verb, path))
      ensures requestLine == old(requestLine) && headers == old(headers)
    {
      requestTarget := Some((verb, path));
    }

    method SetRequestLine(line: string)
      modifies this
      ensures requestLine == Some(line)
      ensures requestTarget == old(requestTarget) && headers == old(headers)
    {
      requestLine := Some(line);
    }

    /** Appends one header occurrence; earlier occurrences are kept as they are. */
    method AddHeader(name: string, value: string)
      modifies this
      ensures headers == old(headers) + [(name, value)]
      ensures requestTarget == old(requestTarget) && requestLine == old(requestLine)
    {
      headers := headers + [(name, value)];
    }

    method Build() returns (c: Content)
      ensures c.requestTarget == requestTarget
      ensures c.requestLine == requestLine
      ensures c.headers == headers
    {
      c := Content(requestTarget, requestLine, headers);
    }
  }
}
