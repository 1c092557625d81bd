/**
 * The HTTP/1.1 request parser: request line, header lines up to the first
 * empty line, then a body of Content-Length bytes. It covers a small part
 * of sections 3, 5 and 6.3 of RFC 9112, and works over one input stream
 * whose cursor every phase advances.
 */
module RequestParser {
  import opened Wrappers
  import opened Strings
  import opened Bytes
  import opened ByteInput
  import opened Headers
  import opened HttpBodies
  import opened HttpMethods
  import opened Messages

  const CR: byte := 13
  const LF: byte := 10

  datatype ParsingFailure =
    | EmptyRequestLine
    | MalformedRequestLine(line: string)
    | MalformedHeaderLine(line: string)
    | BodyReadFailed

  datatype Unsupported = BodyTooLarge | ChunkedEncoding

  /** The exceptions `parse` lets escape. */
  datatype ParseError =
    | HttpParsing(failure: ParsingFailure)
    | UnsupportedOperation(what: Unsupported)
    | IllegalArgument(name: string)
    | NumberFormat(text: string)
    | NegativeArraySize(size: int)

  /** The outcome of a phase and where it leaves the stream, whether it succeeded or not. */
  datatype Step<T> = Step(result: Result<T, ParseError>, next: nat)

  // ----- readLine -----

  /** The position of the first LF at or after `c`, or the end of the data. */
  function LineEnd(data: seq<byte>, c: nat): (e: nat)
    requires c <= |data|
    ensures c <= e <= |data|
    ensures forall i :: c <= i < e ==> data[i] != LF
    ensures e < |data| ==> data[e] == LF
    decreases |data| - c
  {
    if c == |data| || data[c] == LF then c else LineEnd(data, c + 1)
  }

  /** A line as `readLine` returns it (`None` for null) and the position after it. */
  datatype LineRead = LineRead(line: Option<string>, next: nat)

  /** What `readLine` returns at `c`, and where it leaves the stream. */
  function ReadLineSpec(data: seq<byte>, c: nat): (r: LineRead)
    requires c <= |data|
    ensures c <= r.next <= |data|
    ensures r.line.Some? ==> c < r.next
  {
    var e := LineEnd(data, c);
    if e < |data| then
      var bytes := data[c..e + 1];
      if |bytes| > 1 && bytes[|bytes| - 2] == CR then LineRead(Some(ByteChars(bytes[..|bytes| - 2])), e + 1)
      else LineRead(Some(ByteChars(bytes)), e + 1)
    else if e == c then LineRead(None, c)
    else LineRead(Some(ByteChars(data[c..e])), e)
  }

  /** `readLine(in)`: read byte by byte until an LF or the end of the stream. */
  method ReadLine(input: InputStream) returns (line: Option<string>)
    requires input.Valid()
    modifies input
    ensures input.Valid()
    ensures LineRead(line, input.cursor) == ReadLineSpec(input.data, old(input.cursor))
  {
    ghost var start := input.cursor;
    var baos: seq<byte> := [];
    while true
      invariant input.Valid()
      invariant start <= input.cursor <= LineEnd(input.data, start)
      invariant baos == input.data[start..input.cursor]
      decreases |input.data| - input.cursor
    {
      var b := input.Read();
      if b == -1 {
        break;
      }
      baos := baos + [b as byte];
      if b == 10 {
        assert LineEnd(input.data, start) == input.cursor - 1;
        assert baos == input.data[start..LineEnd(input.data, start) + 1];
        if |baos| > 1 && baos[|baos| - 2] == CR {
          return Some(ByteChars(baos[..|baos| - 2]));
        }
        return Some(ByteChars(baos));
      }
    }
    if |baos| == 0 {
      return None;
    }
    return Some(ByteChars(baos));
  }

  // ----- parseRequestLine -----

  /** `parseRequestLine`: one line, split on single spaces into exactly three tokens. */
  function RequestLineSpec(data: seq<byte>, c: nat): (s: Step<seq<string>>)
    requires c <= |data|
    ensures c <= s.next <= |data|
    ensures s.result.Success? ==> |s.result.value| == 3
  {
    var l := ReadLineSpec(data, c);
    if l.line.None? || l.line.value == "" then Step(Failure(HttpParsing(EmptyRequestLine)), l.next)
    else
      var tokens := Split(l.line.value, ' ');
      if |tokens| != 3 then Step(Failure(HttpParsing(MalformedRequestLine(l.line.value))), l.next)
      else Step(Success(tokens), l.next)
  }

  method ParseRequestLine(input: InputStream) returns (r: Result<seq<string>, ParseError>)
    requires input.Valid()
    modifies input
    ensures input.Valid()
    ensures Step(r, input.cursor) == RequestLineSpec(input.data, old(input.cursor))
  {
    var requestLine := ReadLine(input);
    if requestLine.None? || requestLine.value == "" {
      return Failure(HttpParsing(EmptyRequestLine));
    }
    var requestParam := Split(requestLine.value, ' ');
    if |requestParam| != 3 {
      return Failure(HttpParsing(MalformedRequestLine(requestLine.value)));
    }
    return Success(requestParam);
  }

  // ----- parseHeader -----

  /** The trimmed name and value `parseHeader` takes from one line. */
  datatype HeaderField = HeaderField(name: string, value: string)

  /** The field of a line whose first colon is at `idx`. */
  function FieldOf(line: string, idx: nat): (f: HeaderField)
    requires idx < |line|
    ensures IsTrim(f.name) && IsTrim(f.value)
  {
    HeaderField(Trim(line[..idx]), Trim(line[idx + 1..]))
  }

  /**
   * The lines `parseHeader` reads from position `c` on, after `fields`: lines
   * are read until null or an empty line, and each is split at its first colon.
   */
  function HeaderPhase(data: seq<byte>, c: nat, fields: seq<HeaderField>): (s: Step<seq<HeaderField>>)
    requires c <= |data|
    ensures c <= s.next <= |data|
    decreases |data| - c
  {
    var l := ReadLineSpec(data, c);
    if l.line.None? || l.line.value == "" then Step(Success(fields), l.next)
    else
      var line := l.line.value;
      var idx := IndexOf(line, ':');
      if idx == -1 then Step(Failure(HttpParsing(MalformedHeaderLine(line))), l.next)
      else HeaderPhase(data, l.next, fields + [FieldOf(line, idx)])
  }

  /** The header map after `put` of every field in order. */
  function PutAll(m: HeaderMap, fields: seq<HeaderField>): (r: HeaderMap)
    ensures forall k :: k in m ==> k in r && m[k] <= r[k]
  {
    if fields == [] then m
    else
      var f := fields[|fields| - 1];
      WithPut(PutAll(m, fields[..|fields| - 1]), f.name, f.value)
  }

  method ParseHeader(input: InputStream) returns (r: Result<HttpHeader, ParseError>)
    requires input.Valid()
    modifies input
    ensures input.Valid()
    ensures var s := HeaderPhase(input.data, old(input.cursor), []);
      input.cursor == s.next &&
      (r.Success? <==> s.result.Success?) &&
      (r.Success? ==> fresh(r.value) && r.value.headers == PutAll(map[], s.result.value)) &&
      (r.Failure? ==> r.error == s.result.error)
  {
    ghost var c0 := input.cursor;
    ghost var fields: seq<HeaderField> := [];
    var header := new HttpHeader();
    while true
      invariant input.Valid()
      invariant fresh(header)
      invariant HeaderPhase(input.data, c0, []) == HeaderPhase(input.data, input.cursor, fields)
      invariant header.headers == PutAll(map[], fields)
      decreases |input.data| - input.cursor
    {
      var line := ReadLine(input);
      if line.None? || line.value == "" {
        break;
      }
      var idx := IndexOf(line.value, ':');
      if idx == -1 {
        return Failure(HttpParsing(MalformedHeaderLine(line.value)));
      }
      var key := Trim(line.value[..idx]);
      var value := Trim(line.value[idx + 1..]);
      header.Put(key, value);
      assert (fields + [FieldOf(line.value, idx)])[..|fields|] == fields;
      fields := fields + [FieldOf(line.value, idx)];
    }
    return Success(header);
  }

  // ----- parseBody -----

  /**
   * `(int) n` for a long: keeps the low 32 bits as a two's-complement value,
   * so lengths below Integer.MIN_VALUE wrap around.
   */
  function ToInt32(n: int): (r: int)
    ensures -0x8000_0000 <= r <= IntMax
    ensures (r - n) % 0x1_0000_0000 == 0
    ensures -0x8000_0000 <= n <= IntMax ==> r == n
  {
    var u := n % 0x1_0000_0000;
    if u > IntMax then u - 0x1_0000_0000 else u
  }

  /** `parseBody(in, n)` exactly as written: the array size is `(int) n`. */
  function BodyReadAsWritten(data: seq<byte>, c: nat, n: int): (s: Step<HttpBody>)
    requires c <= |data|
    ensures c <= s.next <= |data|
    ensures s.result.Success? ==> s.result.value.ContentLengthLong() == ToInt32(n) && s.next == c + ToInt32(n)
    ensures s.result.Success? ==> s.result.value.GetData() == data[c..s.next]
    ensures n <= IntMax && 0 <= ToInt32(n) && c + ToInt32(n) > |data| ==> s == Step(Failure(HttpParsing(BodyReadFailed)), |data|)
    ensures n <= IntMax && ToInt32(n) < 0 ==> s == Step(Failure(NegativeArraySize(ToInt32(n))), c)
    ensures n > IntMax ==> s == Step(Failure(UnsupportedOperation(BodyTooLarge)), c)
  {
    if n == 0 then Step(Success(Empty()), c)
    else if n > IntMax then Step(Failure(UnsupportedOperation(BodyTooLarge)), c)
    else
      var size := ToInt32(n);
      if size < 0 then Step(Failure(NegativeArraySize(size)), c)
      else if c + size <= |data| then Step(Success(HttpBody(data[c..c + size])), c + size)
      else Step(Failure(HttpParsing(BodyReadFailed)), |data|)
  }

  /** `parseBody(in, n)` with every negative length rejected, as the in-range ones are. */
  function BodyRead(data: seq<byte>, c: nat, n: int): (s: Step<HttpBody>)
    requires c <= |data|
    ensures c <= s.next <= |data|
    ensures s.result.Success? ==> s.result.value.ContentLengthLong() == n && s.next == c + n
    ensures s.result.Success? ==> s.result.value.GetData() == data[c..s.next]
    ensures 0 < n <= IntMax && c + n > |data| ==> s == Step(Failure(HttpParsing(BodyReadFailed)), |data|)
    ensures n < 0 ==> s == Step(Failure(NegativeArraySize(n)), c)
    ensures n > IntMax ==> s == Step(Failure(UnsupportedOperation(BodyTooLarge)), c)
  {
    if n == 0 then Step(Success(Empty()), c)
    else if n > IntMax then Step(Failure(UnsupportedOperation(BodyTooLarge)), c)
    else if n < 0 then Step(Failure(NegativeArraySize(n)), c)
    else if c + n <= |data| then Step(Success(HttpBody(data[c..c + n])), c + n)
    else Step(Failure(HttpParsing(BodyReadFailed)), |data|)
  }

  /** `parseBody(in, n)`: `new byte[(int) n]` fails for a negative size; `readFully` fails when the stream ends first. */
  method ParseBody(input: InputStream, contentLength: int) returns (r: Result<HttpBody, ParseError>)
    requires input.Valid()
    modifies input
    ensures input.Valid()
    ensures Step(r, input.cursor) == BodyReadAsWritten(input.data, old(input.cursor), contentLength)
  {
    if contentLength == 0 {
      return Success(Empty());
    }
    if contentLength > IntMax {
      return Failure(UnsupportedOperation(BodyTooLarge));
    }
    var size := ToInt32(contentLength);
    if size < 0 {
      return Failure(NegativeArraySize(size));
    }
    var data := input.ReadFully(size);
    if data.None? {
      return Failure(HttpParsing(BodyReadFailed));
    }
    return Success(HttpBody(data.value));
  }

  /** The body step of `parse`: driven by the first Content-Length value, if any. */
  function BodyPhase(data: seq<byte>, c: nat, m: HeaderMap): (s: Step<HttpBody>)
    requires c <= |data|
    ensures c <= s.next <= |data|
  {
    var lenValue := FirstValue(m, "Content-Length");
    if lenValue.None? || lenValue.value == "" then Step(Success(Empty()), c)
    else
      match ParseLong(lenValue.value)
      case None => Step(Failure(NumberFormat(lenValue.value)), c)
      case Some(n) => BodyReadAsWritten(data, c, n)
  }

  /** `transferEncoding != null && transferEncoding.contains("chunked")` on the first value. */
  predicate IsChunked(m: HeaderMap)
    ensures IsChunked(m) ==> "Transfer-Encoding" in m && m["Transfer-Encoding"] != [] && Contains(m["Transfer-Encoding"][0], "chunked")
  {
    var te := FirstValue(m, "Transfer-Encoding");
    te.Some? && Contains(te.value, "chunked")
  }

  // ----- parse -----

  /** The last decisions of `parse`, once the body phase is done: body errors, then chunked encoding, then the method name. */
  function Finish(tokens: seq<string>, headers: HeaderMap, bp: Step<HttpBody>): (s: Step<RequestView>)
    requires |tokens| == 3
    ensures s.next == bp.next
    ensures s.result.Success? <==> bp.result.Success? && !IsChunked(headers) && From(tokens[0]).Some?
  {
    if bp.result.Failure? then Step(Failure(bp.result.error), bp.next)
    else if IsChunked(headers) then Step(Failure(UnsupportedOperation(ChunkedEncoding)), bp.next)
    else
      match From(tokens[0])
      case None => Step(Failure(IllegalArgument(tokens[0])), bp.next)
      case Some(m) => Step(Success(RequestView(headers, bp.result.value, tokens[2], m, tokens[1])), bp.next)
  }

  /** `parse(inputStream)`: every phase in source order, each starting where the last stopped. */
  function ParseSpec(data: seq<byte>, c: nat): (s: Step<RequestView>)
    requires c <= |data|
    ensures c <= s.next <= |data|
  {
    var rl := RequestLineSpec(data, c);
    if rl.result.Failure? then Step(Failure(rl.result.error), rl.next)
    else
      var hp := HeaderPhase(data, rl.next, []);
      if hp.result.Failure? then Step(Failure(hp.result.error), hp.next)
      else
        var headers := PutAll(map[], hp.result.value);
        Finish(rl.result.value, headers, BodyPhase(data, hp.next, headers))
  }

  method Parse(input: InputStream) returns (r: Result<HttpRequest, ParseError>)
    requires input.Valid()
    modifies input
    ensures input.Valid()
    ensures var s := ParseSpec(input.data, old(input.cursor));
      input.cursor == s.next &&
      (r.Success? <==> s.result.Success?) &&
      (r.Success? ==> fresh(r.value.header) && View(r.value) == s.result.value) &&
      (r.Failure? ==> r.error == s.result.error)
  {
    var requestParam := ParseRequestLine(input);
    if requestParam.Failure? {
      return Failure(requestParam.error);
    }
    var parsed := ParseHeader(input);
    if parsed.Failure? {
      return Failure(parsed.error);
    }
    var header := parsed.value;
    var body: HttpBody;
    var lenValue := FirstValue(header.headers, "Content-Length");
    if lenValue.Some? && lenValue.value != "" {
      var contentLength := ParseLong(lenValue.value);
      if contentLength.None? {
        return Failure(NumberFormat(lenValue.value));
      }
      var read := ParseBody(input, contentLength.value);
      if read.Failure? {
        return Failure(read.error);
      }
      body := read.value;
    } else {
      body := Empty();
    }
    var transferEncoding := FirstValue(header.headers, "Transfer-Encoding");
    if transferEncoding.Some? && Contains(transferEncoding.value, "chunked") {
      return Failure(UnsupportedOperation(ChunkedEncoding));
    }
    var httpMethod := From(requestParam.value[0]);
    if httpMethod.None? {
      return Failure(IllegalArgument(requestParam.value[0]));
    }
    return Success(HttpRequest(header, body, requestParam.value[2], httpMethod.value, requestParam.value[1]));
  }
}
