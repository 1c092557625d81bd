/** Properties of the HTTP/1.1 request parser, each over every input. */
module RequestParserProps {
  import opened Wrappers
  import opened Strings
  import opened Bytes
  import opened Headers
  import opened HttpBodies
  import opened HttpMethods
  import opened Messages
  import opened RequestParser

  // ----- readLine -----

  /** The line ends at the first LF after `c`, or at the end of the data when there is none. */
  lemma {:induction false} LineEndIs(data: seq<byte>, c: nat, k: nat)
    requires c <= k <= |data|
    requires forall i :: c <= i < k ==> data[i] != LF
    requires k < |data| ==> data[k] == LF
    ensures LineEnd(data, c) == k
    decreases k - c
  {
    if c < k {
      LineEndIs(data, c + 1, k);
    }
  }

  /** A CRLF-terminated line is returned without its CR and LF, and both are consumed. */
  lemma ReadLineCrlf(data: seq<byte>, c: nat, k: nat)
    requires c <= k && k + 1 < |data|
    requires forall i :: c <= i < k ==> data[i] != LF
    requires data[k] == CR && data[k + 1] == LF
    ensures ReadLineSpec(data, c) == LineRead(Some(ByteChars(data[c..k])), k + 2)
  {
    LineEndIs(data, c, k + 1);
    var bytes := data[c..k + 2];
    assert bytes[|bytes| - 2] == CR;
    assert bytes[..|bytes| - 2] == data[c..k];
  }

  /** A line ended by a bare LF keeps the LF as its last character. */
  lemma ReadLineBareLf(data: seq<byte>, c: nat, k: nat)
    requires c <= k < |data|
    requires forall i :: c <= i < k ==> data[i] != LF
    requires data[k] == LF && (k == c || data[k - 1] != CR)
    ensures ReadLineSpec(data, c) == LineRead(Some(ByteChars(data[c..k + 1])), k + 1)
  {
    LineEndIs(data, c, k);
  }

  /** Without an LF the rest of the data is the line, and null comes only at the very end. */
  lemma ReadLineAtEnd(data: seq<byte>, c: nat)
    requires c <= |data|
    requires forall i :: c <= i < |data| ==> data[i] != LF
    ensures ReadLineSpec(data, c) ==
      if c == |data| then LineRead(None, c) else LineRead(Some(ByteChars(data[c..])), |data|)
  {
    LineEndIs(data, c, |data|);
    assert data[c..|data|] == data[c..];
  }

  /** `readLine` returns null exactly when nothing is left. */
  lemma ReadLineNull(data: seq<byte>, c: nat)
    requires c <= |data|
    ensures ReadLineSpec(data, c).line.None? <==> c == |data|
  {
    var e := LineEnd(data, c);
    assert c <= e;
  }

  // ----- parseRequestLine -----

  /** Three space-free tokens on a CRLF line, the last non-empty, are the request line. */
  lemma RequestLineTokens(data: seq<byte>, c: nat, k: nat, tokens: seq<string>)
    requires c <= k && k + 1 < |data|
    requires forall i :: c <= i < k ==> data[i] != LF
    requires data[k] == CR && data[k + 1] == LF
    requires |tokens| == 3 && tokens[2] != ""
    requires forall j :: 0 <= j < 3 ==> ' ' !in tokens[j]
    requires ByteChars(data[c..k]) == Join(tokens, ' ')
    ensures RequestLineSpec(data, c) == Step(Success(tokens), k + 2)
  {
    ReadLineCrlf(data, c, k);
    SplitJoin(tokens, ' ');
  }

  /** An empty first line, or none, is rejected as an empty request line. */
  lemma EmptyRequestLineRejected(data: seq<byte>, c: nat)
    requires c == |data| || (c + 1 < |data| && data[c] == CR && data[c + 1] == LF)
    ensures RequestLineSpec(data, c).result == Failure(HttpParsing(EmptyRequestLine))
  {
    if c < |data| {
      ReadLineCrlf(data, c, c);
    }
  }

  // ----- parseHeader -----

  /** An empty line is a bare CRLF, the only line that ends the header block short of the end of the data. */
  lemma ReadLineEmpty(data: seq<byte>, c: nat)
    requires c <= |data|
    ensures var l := ReadLineSpec(data, c);
      l.line == Some("") ==> c + 2 == l.next <= |data| && data[c] == CR && data[c + 1] == LF
  {
    var e := LineEnd(data, c);
    if e < |data| {
      var bytes := data[c..e + 1];
      assert |ByteChars(bytes)| == |bytes|;
      if |bytes| > 1 {
        assert |ByteChars(bytes[..|bytes| - 2])| == |bytes| - 2;
      }
    }
  }

  /** `n` is the end of the data or just past a CRLF that lies after `c`. */
  predicate EndsAtBlankLine(data: seq<byte>, c: nat, n: nat)
  {
    n == |data| || (c + 2 <= n <= |data| && data[n - 2] == CR && data[n - 1] == LF)
  }

  /** A header block that parses ends at the end of the data or just past a CRLF. */
  lemma {:induction false} HeaderPhaseEnd(data: seq<byte>, c: nat, fields: seq<HeaderField>)
    requires c <= |data|
    ensures HeaderPhase(data, c, fields).result.Success? ==> EndsAtBlankLine(data, c, HeaderPhase(data, c, fields).next)
    decreases |data| - c
  {
    var s := HeaderPhase(data, c, fields);
    var l := ReadLineSpec(data, c);
    ReadLineEmpty(data, c);
    ReadLineNull(data, c);
    if l.line.None? {
      assert s.next == |data|;
    } else if l.line.value == "" {
      assert s.next == c + 2;
      assert EndsAtBlankLine(data, c, s.next);
    } else {
      var line := l.line.value;
      var idx := IndexOf(line, ':');
      if idx == -1 {
        assert s.result.Failure?;
      } else {
        var more := fields + [FieldOf(line, idx)];
        assert s == HeaderPhase(data, l.next, more);
        HeaderPhaseEnd(data, l.next, more);
        assert s.result.Success? ==> EndsAtBlankLine(data, l.next, s.next);
      }
    }
  }

  /** A blank line ended by a bare LF is not the end of the headers: it is a header line without a colon. */
  lemma BareLfBlankLineRejected(data: seq<byte>, c: nat, fields: seq<HeaderField>)
    requires c < |data| && data[c] == LF
    ensures HeaderPhase(data, c, fields) == Step(Failure(HttpParsing(MalformedHeaderLine("\n"))), c + 1)
  {
    ReadLineBareLf(data, c, c);
    assert ByteChars(data[c..c + 1]) == "\n";
  }

  /** A header line without a colon stops the parse. */
  lemma HeaderWithoutColon(data: seq<byte>, c: nat, k: nat, fields: seq<HeaderField>)
    requires c < k && k + 1 < |data|
    requires forall i :: c <= i < k ==> data[i] != LF
    requires data[k] == CR && data[k + 1] == LF
    requires ':' !in ByteChars(data[c..k])
    ensures HeaderPhase(data, c, fields) == Step(Failure(HttpParsing(MalformedHeaderLine(ByteChars(data[c..k])))), k + 2)
  {
    ReadLineCrlf(data, c, k);
  }

  /** The first colon of `name:value` is the one after `name`, and the field is their trimmed forms. */
  lemma ColonLine(name: string, value: string)
    requires ':' !in name
    ensures IndexOf(name + ":" + value, ':') == |name|
    ensures FieldOf(name + ":" + value, |name|) == HeaderField(Trim(name), Trim(value))
  {
    var line := name + ":" + value;
    assert line == name + [':'] + value;
    IndexOfAfterPrefix(name, ':', value);
    assert line[..|name|] == name;
    assert line[|name| + 1..] == value;
  }

  /** A non-empty line with a colon adds its field and the phase goes on after the line. */
  lemma HeaderPhaseLine(data: seq<byte>, c: nat, fields: seq<HeaderField>, line: string, next: nat, f: HeaderField)
    requires c <= |data|
    requires ReadLineSpec(data, c) == LineRead(Some(line), next)
    requires line != "" && IndexOf(line, ':') >= 0 && FieldOf(line, IndexOf(line, ':')) == f
    ensures next <= |data|
    ensures HeaderPhase(data, c, fields) == HeaderPhase(data, next, fields + [f])
  {
  }

  /**
   * A header line `name:value` yields the trimmed name and the trimmed value,
   * the value keeping any later colons, and parsing goes on after the line.
   */
  lemma HeaderLineStep(data: seq<byte>, c: nat, fields: seq<HeaderField>, name: string, value: string, next: nat)
    requires c <= |data|
    requires ReadLineSpec(data, c) == LineRead(Some(name + ":" + value), next)
    requires ':' !in name
    ensures next <= |data|
    ensures HeaderPhase(data, c, fields) == HeaderPhase(data, next, fields + [HeaderField(Trim(name), Trim(value))])
  {
    ColonLine(name, value);
    HeaderPhaseLine(data, c, fields, name + ":" + value, next, HeaderField(Trim(name), Trim(value)));
  }

  /** The values `put` collects under `key`: the pieces of each of its lines, in order. */
  function FieldValues(fields: seq<HeaderField>, key: string): seq<string>
  {
    if fields == [] then []
    else
      var f := fields[|fields| - 1];
      FieldValues(fields[..|fields| - 1], key) + (if f.name == key then ValuePieces(f.value) else [])
  }

  /** One `put` appends the pieces of its value to its own name and leaves every other name as it was. */
  lemma PutValues(m: HeaderMap, name: string, value: string, key: string)
    ensures ValuesOf(WithPut(m, name, value), key) == ValuesOf(m, key) + (if name == key then ValuePieces(value) else [])
    ensures key in WithPut(m, name, value) <==> key in m || key == name
  {
    if name != key {
      assert ValuesOf(m, key) + [] == ValuesOf(m, key);
    }
  }

  /** After every field is put, a name holds what it held plus the pieces of its own lines, in order. */
  lemma {:induction false} PutAllValues(m: HeaderMap, fields: seq<HeaderField>, key: string)
    ensures ValuesOf(PutAll(m, fields), key) == ValuesOf(m, key) + FieldValues(fields, key)
  {
    if fields == [] {
      assert ValuesOf(m, key) + [] == ValuesOf(m, key);
    } else {
      var init := fields[..|fields| - 1];
      var f := fields[|fields| - 1];
      var before := PutAll(m, init);
      var mine := if f.name == key then ValuePieces(f.value) else [];
      PutAllValues(m, init, key);
      PutValues(before, f.name, f.value, key);
      ConcatAssoc(ValuesOf(m, key), FieldValues(init, key), mine);
    }
  }

  /** Some line names `key`. */
  predicate Named(fields: seq<HeaderField>, key: string)
  {
    fields != [] && (Named(fields[..|fields| - 1], key) || fields[|fields| - 1].name == key)
  }

  /** `Named` means what it says: some line carries that name. */
  lemma {:induction false} NamedAt(fields: seq<HeaderField>, key: string)
    ensures Named(fields, key) <==> exists i :: 0 <= i < |fields| && fields[i].name == key
  {
    if fields != [] {
      var init := fields[..|fields| - 1];
      NamedAt(init, key);
      if Named(init, key) {
        var i :| 0 <= i < |init| && init[i].name == key;
        assert fields[i] == init[i];
      }
      if exists i :: 0 <= i < |fields| && fields[i].name == key {
        var i :| 0 <= i < |fields| && fields[i].name == key;
        if i < |init| {
          assert init[i] == fields[i];
        }
      }
    }
  }

  /** A name is present after the fields are put exactly when it was before or one of the lines named it. */
  lemma {:induction false} PutAllNames(m: HeaderMap, fields: seq<HeaderField>, key: string)
    ensures key in PutAll(m, fields) <==> key in m || Named(fields, key)
  {
    if fields != [] {
      var init := fields[..|fields| - 1];
      var f := fields[|fields| - 1];
      PutAllNames(m, init, key);
      PutValues(PutAll(m, init), f.name, f.value, key);
    }
  }

  // ----- parseBody -----

  /**
   * The int cast lets a negative Content-Length below Integer.MIN_VALUE through:
   * -4294967295 becomes 1, so one byte is read as the body, where the corrected
   * read refuses the length as it refuses every other negative one.
   */
  lemma NegativeLengthReadsOneByte(data: seq<byte>, c: nat)
    requires c < |data|
    ensures BodyReadAsWritten(data, c, -4294967295) == Step(Success(HttpBody(data[c..c + 1])), c + 1)
    ensures BodyRead(data, c, -4294967295) == Step(Failure(NegativeArraySize(-4294967295)), c)
  {
  }

  /** For every length from Integer.MIN_VALUE up, the cast changes nothing: both reads agree. */
  lemma BodyReadAgreesFromIntMin(data: seq<byte>, c: nat, n: int)
    requires c <= |data|
    requires -0x8000_0000 <= n
    ensures BodyReadAsWritten(data, c, n) == BodyRead(data, c, n)
  {
  }

  // ----- parse -----

  /** A request line that parses has three tokens, the last two free of spaces and the last non-empty. */
  lemma RequestLineShape(data: seq<byte>, c: nat)
    requires c <= |data|
    ensures var rl := RequestLineSpec(data, c);
      rl.result.Success? ==>
        var tokens := rl.result.value;
        |tokens| == 3 && ' ' !in tokens[1] && ' ' !in tokens[2] && tokens[2] != ""
  {
    var rl := RequestLineSpec(data, c);
    if rl.result.Success? {
      var line := ReadLineSpec(data, c).line.value;
      assert rl.result.value == Split(line, ' ');
      assert ' ' in line;
    }
  }

  /**
   * A body that reads is exactly as long as `(int)` of the first
   * Content-Length value, which is the value itself from Integer.MIN_VALUE
   * up; without a value, or with an empty one, there is no body.
   */
  lemma BodyPhaseShape(data: seq<byte>, c: nat, m: HeaderMap)
    requires c <= |data|
    ensures var bp := BodyPhase(data, c, m); var len := FirstValue(m, "Content-Length");
      bp.result.Success? ==>
        (len.None? || len.value == "" ==> bp.result.value == Empty() && bp.next == c) &&
        (len.Some? && len.value != "" ==>
          ParseLong(len.value).Some? &&
          ToInt32(ParseLong(len.value).value) == |bp.result.value.GetData()| &&
          bp.next == c + |bp.result.value.GetData()| &&
          (-0x8000_0000 <= ParseLong(len.value).value ==> ParseLong(len.value) == Some(|bp.result.value.GetData()|)))
  {
  }

  /**
   * The wrap as `parse` meets it: a first Content-Length value of
   * "-4294967295" passes both guards and yields a one-byte body.
   */
  lemma NegativeLengthBodyPhase(data: seq<byte>, c: nat, m: HeaderMap)
    requires c < |data|
    requires FirstValue(m, "Content-Length") == Some(Decimal(-4294967295))
    ensures BodyPhase(data, c, m) == Step(Success(HttpBody(data[c..c + 1])), c + 1)
  {
    ParseDecimal(-4294967295);
    NegativeLengthReadsOneByte(data, c);
  }

  /**
   * A request that parses has a known method, a space-free path, a non-empty
   * space-free version, no chunked Transfer-Encoding, and a body exactly as
   * long as `(int)` of its first Content-Length value, which is that value
   * from Integer.MIN_VALUE up (none, or an empty one, means no body).
   */
  lemma ParseSuccess(data: seq<byte>, c: nat)
    requires c <= |data|
    ensures var s := ParseSpec(data, c);
      s.result.Success? ==>
        var v := s.result.value;
        var len := FirstValue(v.headers, "Content-Length");
        ' ' !in v.path && ' ' !in v.version && v.version != "" &&
        !IsChunked(v.headers) &&
        (len.None? || len.value == "" ==> v.body == Empty()) &&
        (len.Some? && len.value != "" ==>
          ParseLong(len.value).Some? && ToInt32(ParseLong(len.value).value) == |v.body.GetData()| &&
          (-0x8000_0000 <= ParseLong(len.value).value ==> ParseLong(len.value) == Some(|v.body.GetData()|)))
  {
    var s := ParseSpec(data, c);
    if s.result.Success? {
      var rl := RequestLineSpec(data, c);
      RequestLineShape(data, c);
      var tokens := rl.result.value;
      var hp := HeaderPhase(data, rl.next, []);
      var headers := PutAll(map[], hp.result.value);
      var bp := BodyPhase(data, hp.next, headers);
      BodyPhaseShape(data, hp.next, headers);
      var m := From(tokens[0]).value;
      assert s.result.value == RequestView(headers, bp.result.value, tokens[2], m, tokens[1]);
    }
  }

  /**
   * A request line, a blank line and nothing else: no headers, no body, and
   * whatever follows stays unread. The method name is checked last.
   */
  lemma RequestWithoutHeaders(line: seq<byte>, rest: seq<byte>, tokens: seq<string>)
    requires forall i :: 0 <= i < |line| ==> line[i] != LF
    requires |tokens| == 3 && tokens[2] != ""
    requires forall j :: 0 <= j < 3 ==> ' ' !in tokens[j]
    requires ByteChars(line) == Join(tokens, ' ')
    ensures var s := ParseSpec(line + [CR, LF, CR, LF] + rest, 0);
      s.next == |line| + 4 &&
      s.result == match From(tokens[0])
        case Some(m) => Success(RequestView(map[], Empty(), tokens[2], m, tokens[1]))
        case None => Failure(IllegalArgument(tokens[0]))
  {
    var data := line + [CR, LF, CR, LF] + rest;
    var k := |line|;
    assert data[0..k] == line;
    assert data[k] == CR && data[k + 1] == LF && data[k + 2] == CR && data[k + 3] == LF;
    BlankLineAfterRequestLine(data, k, tokens);
  }

  /** The request-line-and-blank-line case over any input, at position 0. */
  lemma BlankLineAfterRequestLine(data: seq<byte>, k: nat, tokens: seq<string>)
    requires k + 3 < |data|
    requires forall i :: 0 <= i < k ==> data[i] != LF
    requires data[k] == CR && data[k + 1] == LF && data[k + 2] == CR && data[k + 3] == LF
    requires |tokens| == 3 && tokens[2] != ""
    requires forall j :: 0 <= j < 3 ==> ' ' !in tokens[j]
    requires ByteChars(data[0..k]) == Join(tokens, ' ')
    ensures var s := ParseSpec(data, 0);
      s.next == k + 4 &&
      s.result == match From(tokens[0])
        case Some(m) => Success(RequestView(map[], Empty(), tokens[2], m, tokens[1]))
        case None => Failure(IllegalArgument(tokens[0]))
  {
    RequestLineTokens(data, 0, k, tokens);
    EmptyHeaderPhase(data, k + 2);
    NoHeadersNoBody(data, k + 4);
    ParsePhases(data, 0, tokens, k + 2, [], k + 4, Empty(), k + 4);
  }

  /** A blank line right away ends the header phase with no fields. */
  lemma EmptyHeaderPhase(data: seq<byte>, j: nat)
    requires j + 1 < |data| && data[j] == CR && data[j + 1] == LF
    ensures HeaderPhase(data, j, []) == Step(Success([]), j + 2)
  {
    ReadLineCrlf(data, j, j);
    assert ByteChars(data[j..j]) == "";
  }

  /** Without header fields there is no Content-Length and no Transfer-Encoding, so the body is empty. */
  lemma NoHeadersNoBody(data: seq<byte>, c: nat)
    requires c <= |data|
    ensures PutAll(map[], []) == map[]
    ensures BodyPhase(data, c, map[]) == Step(Success(Empty()), c)
    ensures !IsChunked(map[])
  {
    assert PutAll(map[], []) == map[];
  }

  /** How the three phases make up a parse that gets past the body. */
  lemma ParsePhases(data: seq<byte>, c: nat, tokens: seq<string>, n1: nat, fields: seq<HeaderField>, n2: nat,
                    body: HttpBody, n3: nat)
    requires c <= n1 <= n2 <= |data|
    requires RequestLineSpec(data, c) == Step(Success(tokens), n1)
    requires HeaderPhase(data, n1, []) == Step(Success(fields), n2)
    requires BodyPhase(data, n2, PutAll(map[], fields)) == Step(Success(body), n3)
    ensures !IsChunked(PutAll(map[], fields)) ==>
      ParseSpec(data, c) == match From(tokens[0])
        case Some(m) => Step(Success(RequestView(PutAll(map[], fields), body, tokens[2], m, tokens[1])), n3)
        case None => Step(Failure(IllegalArgument(tokens[0])), n3)
    ensures IsChunked(PutAll(map[], fields)) ==> ParseSpec(data, c) == Step(Failure(UnsupportedOperation(ChunkedEncoding)), n3)
  {
  }
}
