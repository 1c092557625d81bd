/**
 * What the header block of a response contains: the lines built from the
 * response's own headers, the Content-Type rule, and the frame of the block;
 * and what a long body write leaves buffered.
 */
module OutputBufferProps {
  import opened Wrappers
  import opened Strings
  import opened Headers
  import opened ProtocolVersions
  import opened OutputBuffers
  import opened Bytes

  /** Every line taken from the response's headers names a header in the map's order, is not mandatory, and carries one of its values. */
  lemma {:induction false} OtherFieldsSound(m: HeaderMap, order: seq<string>, i: nat)
    requires i < |OtherFields(m, order)|
    ensures OtherFields(m, order)[i].0 in order
    ensures ToUpper(OtherFields(m, order)[i].0) !in Mandatory
    ensures OtherFields(m, order)[i].1 in ValuesOf(m, OtherFields(m, order)[i].0)
  {
    var head := KeyFields(m, order[0]);
    assert OtherFields(m, order) == head + OtherFields(m, order[1..]);
    if i < |head| {
      assert OtherFields(m, order)[i] == head[i];
    } else {
      OtherFieldsSound(m, order[1..], i - |head|);
      assert OtherFields(m, order)[i] == OtherFields(m, order[1..])[i - |head|];
    }
  }

  /** The lines of `fields` that carry the name `k`, in their order. */
  function LinesNamed(fields: seq<(string, string)>, k: string): (r: seq<(string, string)>)
    ensures |r| <= |fields|
    ensures forall i :: 0 <= i < |r| ==> r[i].0 == k
  {
    if fields == [] then [] else (if fields[0].0 == k then [fields[0]] else []) + LinesNamed(fields[1..], k)
  }

  /** Picking the lines of one name distributes over concatenation. */
  lemma {:induction false} LinesNamedAppend(a: seq<(string, string)>, b: seq<(string, string)>, k: string)
    ensures LinesNamed(a + b, k) == LinesNamed(a, k) + LinesNamed(b, k)
  {
    if a == [] {
      assert a + b == b;
    } else {
      assert (a + b)[0] == a[0] && (a + b)[1..] == a[1..] + b;
      LinesNamedAppend(a[1..], b, k);
      ConcatAssoc(if a[0].0 == k then [a[0]] else [], LinesNamed(a[1..], k), LinesNamed(b, k));
    }
  }

  /** Lines that all carry the name `j` are kept whole for `j` and dropped for every other name. */
  lemma {:induction false} LinesNamedOne(fields: seq<(string, string)>, j: string, k: string)
    requires forall i :: 0 <= i < |fields| ==> fields[i].0 == j
    ensures LinesNamed(fields, k) == if j == k then fields else []
  {
    if fields != [] {
      LinesNamedOne(fields[1..], j, k);
      if j == k {
        assert [fields[0]] + fields[1..] == fields;
      }
    }
  }

  /** Over an order without repeats, the lines of a name are exactly that name's own lines, once each. */
  lemma {:induction false} OtherFieldsNamed(m: HeaderMap, order: seq<string>, k: string)
    requires forall i, j :: 0 <= i < j < |order| ==> order[i] != order[j]
    ensures LinesNamed(OtherFields(m, order), k) == if k in order then KeyFields(m, k) else []
  {
    if order != [] {
      var head := KeyFields(m, order[0]);
      assert OtherFields(m, order) == head + OtherFields(m, order[1..]);
      LinesNamedAppend(head, OtherFields(m, order[1..]), k);
      LinesNamedOne(head, order[0], k);
      assert forall i, j :: 0 <= i < j < |order[1..]| ==> order[1..][i] != order[1..][j] by {
        forall i, j | 0 <= i < j < |order[1..]| ensures order[1..][i] != order[1..][j] {
          assert order[1..][i] == order[i + 1] && order[1..][j] == order[j + 1];
        }
      }
      OtherFieldsNamed(m, order[1..], k);
      if k == order[0] {
        assert k !in order[1..] by {
          forall i | 0 <= i < |order[1..]| ensures order[1..][i] != k {
            assert order[1..][i] == order[i + 1];
          }
        }
        assert head + [] == head;
      } else {
        assert k in order <==> k in order[1..];
      }
    }
  }

  /**
   * When `order` is the map's own key order, every name's lines are exactly
   * its values, once each and in list order; a mandatory name or one the
   * map lacks gets none.
   */
  lemma OtherFieldsComplete(m: HeaderMap, order: seq<string>, k: string)
    requires IsKeyOrder(m, order)
    ensures LinesNamed(OtherFields(m, order), k) == KeyFields(m, k)
    ensures k in m && ToUpper(k) !in Mandatory ==>
      |LinesNamed(OtherFields(m, order), k)| == |m[k]| &&
      forall j :: 0 <= j < |m[k]| ==> LinesNamed(OtherFields(m, order), k)[j] == (k, m[k][j])
    ensures k !in m || ToUpper(k) in Mandatory ==> LinesNamed(OtherFields(m, order), k) == []
  {
    OtherFieldsNamed(m, order, k);
  }

  /** A name whose upper-case form is mandatory contributes no line, whatever its values. */
  lemma MandatorySkipped(m: HeaderMap, order: seq<string>, name: string)
    requires ToUpper(name) in Mandatory
    ensures forall i :: 0 <= i < |OtherFields(m, order)| ==> OtherFields(m, order)[i].0 != name
  {
    forall i | 0 <= i < |OtherFields(m, order)| ensures OtherFields(m, order)[i].0 != name {
      OtherFieldsSound(m, order, i);
    }
  }

  /** Content-Type is the first value of that exact name when it is non-empty, and the default otherwise. */
  lemma ContentTypeRule(m: HeaderMap)
    ensures "Content-Type" in m && m["Content-Type"] != [] && m["Content-Type"][0] != "" ==>
      ContentType(m) == m["Content-Type"][0]
    ensures ("Content-Type" !in m || m["Content-Type"] == [] || m["Content-Type"][0] == "") ==>
      ContentType(m) == DefaultContentType
  {
  }

  /** Rendering a concatenation of lines renders each part in turn. */
  lemma {:induction false} RenderFieldsAppend(a: seq<(string, string)>, b: seq<(string, string)>)
    ensures RenderFields(a + b) == RenderFields(a) + RenderFields(b)
  {
    if a != [] {
      var line := FieldLine(a[0].0, a[0].1);
      assert (a + b)[0] == a[0] && (a + b)[1..] == a[1..] + b;
      RenderFieldsAppend(a[1..], b);
      ConcatAssoc(line, RenderFields(a[1..]), RenderFields(b));
    } else {
      assert a + b == b;
    }
  }

  /** A non-empty rendering ends in a line break. */
  lemma {:induction false} RenderFieldsEnd(fields: seq<(string, string)>)
    requires fields != []
    ensures |RenderFields(fields)| >= 2
    ensures RenderFields(fields)[|RenderFields(fields)| - 2..] == "\r\n"
  {
    var line := FieldLine(fields[0].0, fields[0].1);
    if fields[1..] != [] {
      RenderFieldsEnd(fields[1..]);
      var rest := RenderFields(fields[1..]);
      assert (line + rest)[|line + rest| - 2..] == rest[|rest| - 2..];
    } else {
      assert RenderFields(fields) == line + "";
      assert line[|line| - 2..] == "\r\n";
    }
  }

  /** Each line of the list appears, whole, in the rendering; `k` is where it starts. */
  lemma {:induction false} RenderFieldsAt(fields: seq<(string, string)>, i: nat) returns (k: nat)
    requires i < |fields|
    ensures k + |FieldLine(fields[i].0, fields[i].1)| <= |RenderFields(fields)|
    ensures RenderFields(fields)[k..k + |FieldLine(fields[i].0, fields[i].1)|] == FieldLine(fields[i].0, fields[i].1)
  {
    var line := FieldLine(fields[0].0, fields[0].1);
    var rest := RenderFields(fields[1..]);
    assert RenderFields(fields) == line + rest;
    if i == 0 {
      k := 0;
      assert (line + rest)[..|line|] == line;
    } else {
      var j := RenderFieldsAt(fields[1..], i - 1);
      assert fields[1..][i - 1] == fields[i];
      var l := FieldLine(fields[i].0, fields[i].1);
      k := |line| + j;
      assert (line + rest)[k..k + |l|] == rest[j..j + |l|];
    }
  }

  /** A status line, lines that end in a line break, and one more line break frame the block. */
  lemma BlockFrame(line: string, r: string)
    requires |r| >= 2 && r[|r| - 2..] == "\r\n"
    ensures var block := line + r + "\r\n";
      |line| + 4 <= |block| && block[..|line|] == line && block[|block| - 4..] == "\r\n\r\n"
  {
    var block := line + r + "\r\n";
    assert block[..|line|] == line;
    assert block[|block| - 4..] == r[|r| - 2..] + "\r\n";
  }

  /** The block starts with the status line and ends with an empty line after the last header line. */
  lemma HeaderBlockFrame(version: HttpProtocolVersion, statusCode: int, message: string, headers: HeaderMap,
                         bodyLength: nat, date: string, serverName: string, order: seq<string>)
    ensures var block := HeaderBlock(version, statusCode, message, headers, bodyLength, date, serverName, order);
      var line := StatusLine(version, statusCode, message);
      |line| + 4 <= |block| && block[..|line|] == line && block[|block| - 4..] == "\r\n\r\n"
  {
    var fields := ResponseFields(headers, bodyLength, date, serverName, order);
    RenderFieldsEnd(fields);
    BlockFrame(StatusLine(version, statusCode, message), RenderFields(fields));
  }

  /** A piece found inside the header lines is found inside the whole block. */
  lemma ContainedInBlock(line: string, r: string, l: string, k: nat)
    requires k + |l| <= |r| && r[k..k + |l|] == l
    ensures Contains(line + r + "\r\n", l)
  {
    var block := line + r + "\r\n";
    assert block[|line| + k..|line| + k + |l|] == r[k..k + |l|];
    ContainsAt(block, l, |line| + k);
  }

  /** Each header line is written whole into the block. */
  lemma HeaderBlockHas(version: HttpProtocolVersion, statusCode: int, message: string, headers: HeaderMap,
                       bodyLength: nat, date: string, serverName: string, order: seq<string>, i: nat)
    requires i < |ResponseFields(headers, bodyLength, date, serverName, order)|
    ensures var f := ResponseFields(headers, bodyLength, date, serverName, order)[i];
      Contains(HeaderBlock(version, statusCode, message, headers, bodyLength, date, serverName, order), FieldLine(f.0, f.1))
  {
    var fields := ResponseFields(headers, bodyLength, date, serverName, order);
    var k := RenderFieldsAt(fields, i);
    ContainedInBlock(StatusLine(version, statusCode, message), RenderFields(fields), FieldLine(fields[i].0, fields[i].1), k);
  }

  /** The Content-Length line holds the body length, and reading its value back as a long gives that length. */
  lemma ContentLengthLine(version: HttpProtocolVersion, statusCode: int, message: string, headers: HeaderMap,
                          bodyLength: nat, date: string, serverName: string, order: seq<string>)
    requires bodyLength <= LongMax
    ensures Contains(HeaderBlock(version, statusCode, message, headers, bodyLength, date, serverName, order),
                     FieldLine("Content-Length", Decimal(bodyLength)))
    ensures ParseLong(Decimal(bodyLength)) == Some(bodyLength)
  {
    HeaderBlockHas(version, statusCode, message, headers, bodyLength, date, serverName, order, 3);
    ParseDecimal(bodyLength);
  }

  /** The Content-Type line carries the rule's value. */
  lemma ContentTypeLine(version: HttpProtocolVersion, statusCode: int, message: string, headers: HeaderMap,
                        bodyLength: nat, date: string, serverName: string, order: seq<string>)
    ensures Contains(HeaderBlock(version, statusCode, message, headers, bodyLength, date, serverName, order),
                     FieldLine("Content-Type", ContentType(headers)))
  {
    HeaderBlockHas(version, statusCode, message, headers, bodyLength, date, serverName, order, 2);
  }

  /** After the four fixed lines, the only header lines are the response's own non-mandatory ones. */
  lemma ResponseFieldsAfterFixed(headers: HeaderMap, bodyLength: nat, date: string, serverName: string,
                                 order: seq<string>, i: nat)
    requires 4 <= i < |ResponseFields(headers, bodyLength, date, serverName, order)|
    ensures var f := ResponseFields(headers, bodyLength, date, serverName, order)[i];
      ToUpper(f.0) !in Mandatory && f.0 in order && f.1 in ValuesOf(headers, f.0)
  {
    var fields := ResponseFields(headers, bodyLength, date, serverName, order);
    assert fields[i] == OtherFields(headers, order)[i - 4];
    OtherFieldsSound(headers, order, i - 4);
  }

  /** 20000 body bytes from an empty buffer: two full buffers are written out and 3616 bytes stay buffered. */
  method WriteBodyExample(b: OutputBuffer, data: seq<byte>) returns (r: Outcome<WriteError>)
    requires b.Valid() && b.committed && b.pos == 0 && |data| == 20000
    modifies b, b.buffer, b.out
    ensures r == Pass && b.Valid()
    ensures b.pos == 3616
    ensures b.out.writeCalls == old(b.out.writeCalls) + 2
    ensures b.Emitted() == old(b.Emitted()) + data
  {
    r := b.WriteBody(data);
    DivModOf(20000, 2, 3616);
  }
}
