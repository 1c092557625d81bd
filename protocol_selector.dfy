/**
 * Protocol sniffing: the first bytes of a connection decide whether it
 * speaks HTTP/2 (the connection preface of section 3.5 of RFC 7540) or
 * HTTP/1.1 (a request line starting with a method name).
 */
module ProtocolSelector {
  import opened Wrappers
  import opened Strings
  import opened Bytes
  import opened ByteInput
  import opened HttpMethods
  import opened ProtocolVersions

  /** HttpVersionDetectionException, with the two situations the selector reports. */
  datatype DetectionError = EmptyPreface | UnknownProtocol(preface: string)

  /** How many bytes `detect` reads at most. */
  const PrefaceLength: nat := 24

  /** The start of the HTTP/2 connection preface the selector looks for. */
  const Http2Prefix: string := "PRI * HTTP/2.0"

  /** `anyMatch` over `vs`: `text` starts with one of their names followed by a space (exact case). */
  predicate AnyMethodPrefix(vs: seq<HttpMethod>, text: string)
  {
    |vs| > 0 && (StartsWith(text, Name(vs[0]) + " ") || AnyMethodPrefix(vs[1..], text))
  }

  lemma {:induction false} AnyMethodPrefixExists(vs: seq<HttpMethod>, text: string)
    ensures AnyMethodPrefix(vs, text) <==> exists k :: 0 <= k < |vs| && StartsWith(text, Name(vs[k]) + " ")
  {
    if |vs| > 0 {
      AnyMethodPrefixExists(vs[1..], text);
      if StartsWith(text, Name(vs[0]) + " ") {
      } else if exists k :: 0 <= k < |vs| && StartsWith(text, Name(vs[k]) + " ") {
        var k :| 0 <= k < |vs| && StartsWith(text, Name(vs[k]) + " ");
        assert vs[1..][k - 1] == vs[k];
      }
    }
  }

  /** The decision `detect` takes on the bytes it read. */
  function Classify(preface: seq<byte>): (r: Result<HttpProtocolVersion, DetectionError>)
    ensures r == Failure(EmptyPreface) <==> |preface| == 0
    ensures r == Success(HTTP_2_0) ==> StartsWith(AsciiDecode(preface), Http2Prefix)
    ensures r.Failure? && |preface| > 0 ==> r.error == UnknownProtocol(AsciiDecode(preface))
  {
    if |preface| == 0 then Failure(EmptyPreface)
    else
      var text := AsciiDecode(preface);
      if StartsWith(text, Http2Prefix) then Success(HTTP_2_0)
      else if AnyMethodPrefix(HttpMethods.Values, text) then Success(HTTP_1_1)
      else Failure(UnknownProtocol(text))
  }

  /**
   * `detect(inputStream)`: read up to 24 bytes, which stay consumed, and
   * classify them.
   */
  method Detect(input: InputStream) returns (r: Result<HttpProtocolVersion, DetectionError>)
    requires input.Valid()
    modifies input
    ensures input.Valid()
    ensures input.cursor == old(input.cursor) + Min(PrefaceLength, |input.data| - old(input.cursor))
    ensures r == Classify(input.data[old(input.cursor)..input.cursor])
  {
    var preface := input.ReadNBytes(PrefaceLength);
    if |preface| == 0 {
      return Failure(EmptyPreface);
    }
    var text := AsciiDecode(preface);
    if StartsWith(text, Http2Prefix) {
      return Success(HTTP_2_0);
    }
    var isHttp1 := false;
    var i := 0;
    while i < |HttpMethods.Values| && !isHttp1
      invariant 0 <= i <= |HttpMethods.Values|
      invariant AnyMethodPrefix(HttpMethods.Values, text) == (isHttp1 || AnyMethodPrefix(HttpMethods.Values[i..], text))
      decreases |HttpMethods.Values| - i
    {
      assert HttpMethods.Values[i..][1..] == HttpMethods.Values[i + 1..];
      isHttp1 := StartsWith(text, Name(HttpMethods.Values[i]) + " ");
      i := i + 1;
    }
    if isHttp1 {
      return Success(HTTP_1_1);
    }
    return Failure(UnknownProtocol(text));
  }

  /**
   * The three outcomes exactly: HTTP/2 when the text starts with the preface,
   * HTTP/1.1 when instead it starts with a method name and a space, and an
   * error otherwise, in particular for an empty read.
   */
  lemma ClassifyCases(preface: seq<byte>)
    ensures Classify(preface) == Success(HTTP_2_0) <==>
      |preface| > 0 && StartsWith(AsciiDecode(preface), Http2Prefix)
    ensures Classify(preface) == Success(HTTP_1_1) <==>
      |preface| > 0 && !StartsWith(AsciiDecode(preface), Http2Prefix) &&
      exists m: HttpMethod :: StartsWith(AsciiDecode(preface), Name(m) + " ")
    ensures Classify(preface).Failure? <==>
      |preface| == 0 ||
      (!StartsWith(AsciiDecode(preface), Http2Prefix) &&
       forall m: HttpMethod :: !StartsWith(AsciiDecode(preface), Name(m) + " "))
    ensures |preface| == 0 ==> Classify(preface) == Failure(EmptyPreface)
  {
    var text := AsciiDecode(preface);
    AnyMethodPrefixExists(HttpMethods.Values, text);
    ValuesComplete();
    if exists m: HttpMethod :: StartsWith(text, Name(m) + " ") {
      var m: HttpMethod :| StartsWith(text, Name(m) + " ");
      assert m in HttpMethods.Values;
      var k :| 0 <= k < |HttpMethods.Values| && HttpMethods.Values[k] == m;
    }
  }

  /** ASCII bytes decode to the characters with the same codes. */
  lemma DecodeIs(bs: seq<byte>, text: string)
    requires |bs| == |text|
    requires forall i :: 0 <= i < |bs| ==> bs[i] < 0x80 && bs[i] as int == text[i] as int
    ensures AsciiDecode(bs) == text
  {
  }

  /** There is no minimum length: the four bytes "GET " alone are taken for HTTP/1.1. */
  lemma GetSpaceAlone()
    ensures Classify([0x47, 0x45, 0x54, 0x20]) == Success(HTTP_1_1)
  {
    DecodeIs([0x47, 0x45, 0x54, 0x20], "GET ");
    assert !StartsWith("GET ", Http2Prefix);
    assert StartsWith("GET ", Name(HttpMethods.Values[0]) + " ");
  }

  /** Method names are matched in exact case: "get " is rejected. */
  lemma LowerCaseRejected()
    ensures Classify([0x67, 0x65, 0x74, 0x20]) == Failure(UnknownProtocol("get "))
  {
    DecodeIs([0x67, 0x65, 0x74, 0x20], "get ");
    LowerCaseNoMethod();
    ClassifyCases([0x67, 0x65, 0x74, 0x20]);
  }

  lemma LowerCaseNoMethod()
    ensures forall m: HttpMethod :: !StartsWith("get ", Name(m) + " ")
  {
    forall m: HttpMethod
      ensures !StartsWith("get ", Name(m) + " ")
    {
      assert (Name(m) + " ")[0] == Name(m)[0];
      assert "get "[0] == 'g';
    }
  }

  /** A request whose text starts with a method name and a space is taken for HTTP/1.1. */
  lemma RequestLineDetected(s: string, m: HttpMethod)
    requires IsAscii(s) && StartsWith(s, Name(m) + " ")
    ensures Classify(Utf8Encode(s)) == Success(HTTP_1_1)
  {
    AsciiRoundTrip(s);
    Utf8Ascii(s);
    var n := Name(m) + " ";
    assert s[0] == n[0] && s[1] == n[1];
    assert Http2Prefix[0] == 'P' && Http2Prefix[1] == 'R';
    assert n[0] != 'P' || n[1] != 'R';
    ClassifyCases(Utf8Encode(s));
  }

  /** A connection that opens with the HTTP/2 preface is taken for HTTP/2. */
  lemma PrefaceDetected(s: string)
    requires IsAscii(s) && StartsWith(s, Http2Prefix)
    ensures Classify(Utf8Encode(s)) == Success(HTTP_2_0)
  {
    AsciiRoundTrip(s);
    Utf8Ascii(s);
  }
}
