/**
 * The HTTP/1.1 response writer: a fixed 8 KiB buffer in front of an output
 * stream, the header block it writes once per response, and the body bytes
 * that follow it.
 */
module OutputBuffers {
  import opened Wrappers
  import opened Strings
  import opened Bytes
  import opened Headers
  import opened HttpBodies
  import opened ProtocolVersions
  import opened Messages

  const DefaultSize: nat := 8192

  /** The socket's output stream: everything written to it, and how often it was written and flushed. */
  class OutputStream {
    var written: seq<byte>
    var writeCalls: nat
    var flushCalls: nat

    constructor ()
      ensures written == [] && writeCalls == 0 && flushCalls == 0
    {
      written := [];
      writeCalls := 0;
      flushCalls := 0;
    }

    /** `write(b, 0, len)`: one call that appends the bytes. */
    method Write(bs: seq<byte>)
      modifies this
      ensures written == old(written) + bs
      ensures writeCalls == old(writeCalls) + 1 && flushCalls == old(flushCalls)
    {
      written := written + bs;
      writeCalls := writeCalls + 1;
    }

    method Flush()
      modifies this
      ensures written == old(written) && writeCalls == old(writeCalls)
      ensures flushCalls == old(flushCalls) + 1
    {
      flushCalls := flushCalls + 1;
    }
  }

  /** The exceptions the writer throws: HttpWritingException and IllegalStateException. */
  datatype WriteError = UnsupportedVersion(version: HttpProtocolVersion) | HeadersNotCommitted

  // ----- the header block -----

  /** Header names the writer emits itself and skips among the response's own headers. */
  const Mandatory: set<string> := {"DATE", "SERVER", "CONTENT-TYPE", "CONTENT-LENGTH"}

  const DefaultContentType := "application/octet-stream"

  /** `"%s %d %s\r\n"` over the protocol string, the status code and the reason. */
  function StatusLine(version: HttpProtocolVersion, statusCode: int, message: string): (r: string)
    ensures |r| > |version.ProtocolString()| + 2
    ensures r[..|version.ProtocolString()| + 1] == version.ProtocolString() + " "
    ensures r[|r| - 2..] == "\r\n"
  {
    version.ProtocolString() + " " + Decimal(statusCode) + " " + message + "\r\n"
  }

  /** One header line, `name: value` and CRLF. */
  function FieldLine(name: string, value: string): string
  {
    name + ": " + value + "\r\n"
  }

  /** The first Content-Type value, or the default when there is none or it is empty. */
  function ContentType(m: HeaderMap): (t: string)
    ensures t != ""
  {
    var first := FirstValue(m, "Content-Type");
    if first.None? || first.value == "" then DefaultContentType else first.value
  }

  /** The lines written for one name of the response's headers: one per value, none for a mandatory name. */
  function KeyFields(m: HeaderMap, k: string): (r: seq<(string, string)>)
    ensures ToUpper(k) in Mandatory ==> r == []
    ensures ToUpper(k) !in Mandatory ==> |r| == |ValuesOf(m, k)|
    ensures ToUpper(k) !in Mandatory ==> forall j :: 0 <= j < |r| ==> r[j] == (k, ValuesOf(m, k)[j])
  {
    if ToUpper(k) in Mandatory then []
    else seq(|ValuesOf(m, k)|, j requires 0 <= j < |ValuesOf(m, k)| => (k, ValuesOf(m, k)[j]))
  }

  /** `order` lists every name of `m` exactly once, as iterating over the map's entries does. */
  predicate IsKeyOrder(m: HeaderMap, order: seq<string>)
  {
    (forall i, j :: 0 <= i < j < |order| ==> order[i] != order[j]) &&
    (forall k :: k in order ==> k in m) && (forall k :: k in m ==> k in order)
  }

  /** The other header lines, name by name in the map's iteration order `order`. */
  function OtherFields(m: HeaderMap, order: seq<string>): seq<(string, string)>
  {
    if order == [] then [] else KeyFields(m, order[0]) + OtherFields(m, order[1..])
  }

  function RenderFields(fields: seq<(string, string)>): string
  {
    if fields == [] then "" else FieldLine(fields[0].0, fields[0].1) + RenderFields(fields[1..])
  }

  /**
   * The header lines `sendHeaders` writes, in order: Date, Server,
   * Content-Type, Content-Length, then the response's other headers.
   */
  function ResponseFields(headers: HeaderMap, bodyLength: nat, date: string, serverName: string,
                          order: seq<string>): (r: seq<(string, string)>)
    ensures |r| == 4 + |OtherFields(headers, order)|
    ensures r[2] == ("Content-Type", ContentType(headers)) && r[3] == ("Content-Length", Decimal(bodyLength))
    ensures r[4..] == OtherFields(headers, order)
  {
    [("Date", date), ("Server", serverName), ("Content-Type", ContentType(headers)),
     ("Content-Length", Decimal(bodyLength))] + OtherFields(headers, order)
  }

  /** The block `sendHeaders` writes: status line, the header lines, and the empty line. */
  function HeaderBlock(version: HttpProtocolVersion, statusCode: int, message: string, headers: HeaderMap,
                       bodyLength: nat, date: string, serverName: string, order: seq<string>): (r: string)
    ensures |r| >= |StatusLine(version, statusCode, message)| + 2
    ensures r[..|StatusLine(version, statusCode, message)|] == StatusLine(version, statusCode, message)
    ensures r[|r| - 2..] == "\r\n"
  {
    StatusLine(version, statusCode, message)
      + RenderFields(ResponseFields(headers, bodyLength, date, serverName, order))
      + "\r\n"
  }

  // ----- the buffer -----

  /** Division by the buffer size, from a quotient and remainder in range. */
  lemma DivModOf(x: nat, q: nat, r: nat)
    requires x == q * DefaultSize + r && r < DefaultSize
    ensures x / DefaultSize == q && x % DefaultSize == r
  {
  }

  lemma SliceSplit(data: seq<byte>, a: nat, b: nat, c: nat)
    requires a <= b <= c <= |data|
    ensures data[a..c] == data[a..b] + data[b..c]
  {
  }

  class OutputBuffer {
    const out: OutputStream
    const buffer: array<byte>
    var pos: nat
    var committed: bool

    /** Between calls the buffer is never full: a full buffer is written out at once. */
    ghost predicate Valid()
      reads this
    {
      buffer.Length == DefaultSize && pos < DefaultSize
    }

    /** Every byte handed to the buffer so far, sent or still buffered, in order. */
    ghost function Emitted(): seq<byte>
      reads this, buffer, out
      requires buffer.Length == DefaultSize && pos <= DefaultSize
    {
      out.written + buffer[..pos]
    }

    constructor (out: OutputStream)
      ensures Valid() && fresh(buffer)
      ensures this.out == out && pos == 0 && !committed
    {
      this.out := out;
      buffer := new byte[DefaultSize];
      pos := 0;
      committed := false;
    }

    /** `flushInternal`: hand the buffered bytes to the stream in one write, if there are any. */
    method FlushInternal()
      requires buffer.Length == DefaultSize && pos <= DefaultSize
      modifies this, out
      ensures Valid() && pos == 0 && committed == old(committed)
      ensures out.written == old(Emitted())
      ensures out.writeCalls == old(out.writeCalls) + (if old(pos) > 0 then 1 else 0)
      ensures out.flushCalls == old(out.flushCalls)
    {
      if pos > 0 {
        out.Write(buffer[..pos]);
        pos := 0;
      }
    }

    /** `flush`: empty the buffer, then flush the stream. */
    method Flush()
      requires Valid()
      modifies this, out
      ensures Valid() && pos == 0 && committed == old(committed)
      ensures out.written == old(Emitted())
      ensures out.writeCalls == old(out.writeCalls) + (if old(pos) > 0 then 1 else 0)
      ensures out.flushCalls == old(out.flushCalls) + 1
    {
      FlushInternal();
      out.Flush();
    }

    /** `System.arraycopy` of `n` bytes of `data` from `from` to the end of the buffered bytes. */
    method CopyIn(data: seq<byte>, from: nat, n: nat)
      requires Valid() && from + n <= |data| && pos + n <= DefaultSize
      modifies this, buffer
      ensures buffer.Length == DefaultSize && pos == old(pos) + n && committed == old(committed)
      ensures buffer[..pos] == old(buffer[..pos]) + data[from..from + n]
      ensures Emitted() == old(Emitted()) + data[from..from + n]
    {
      ghost var before := buffer[..pos];
      forall i | 0 <= i < n {
        buffer[pos + i] := data[from + i];
      }
      pos := pos + n;
      assert buffer[..pos] == before + data[from..from + n];
      ConcatAssoc(out.written, before, data[from..from + n]);
    }

    /**
     * One round of the loop in `writeInternal`: copy as much of the `remaining`
     * bytes at `from` as fits, and write the buffer out if that filled it.
     */
    method WriteRound(data: seq<byte>, from: nat, remaining: nat) returns (copied: nat)
      requires Valid() && 0 < remaining && from + remaining <= |data|
      modifies this, buffer, out
      ensures Valid() && committed == old(committed)
      ensures 0 < copied <= remaining
      ensures Emitted() == old(Emitted()) + data[from..from + copied]
      ensures old(pos) + copied == (out.writeCalls - old(out.writeCalls)) * DefaultSize + pos
      ensures out.writeCalls >= old(out.writeCalls) && out.flushCalls == old(out.flushCalls)
    {
      var availableSpace := buffer.Length - pos;
      copied := if availableSpace <= remaining then availableSpace else remaining;
      CopyIn(data, from, copied);
      if pos == buffer.Length {
        ghost var full := Emitted();
        FlushInternal();
        assert buffer[..pos] == [];
        assert Emitted() == full;
      }
    }

    /**
     * `writeInternal(data, off, len)`: copy as much as fits, write the buffer
     * out whenever it is full, and keep the rest buffered.
     */
    method WriteInternal(data: seq<byte>, off: nat, len: nat)
      requires Valid() && off + len <= |data|
      modifies this, buffer, out
      ensures Valid() && committed == old(committed)
      ensures Emitted() == old(Emitted()) + data[off..off + len]
      ensures pos == (old(pos) + len) % DefaultSize
      ensures out.writeCalls == old(out.writeCalls) + (old(pos) + len) / DefaultSize
      ensures out.flushCalls == old(out.flushCalls)
    {
      var currentOffset: nat := off;
      var remaining: nat := len;
      while remaining > 0
        invariant Valid() && committed == old(committed)
        invariant off <= currentOffset <= |data| && currentOffset + remaining == off + len
        invariant Emitted() == old(Emitted()) + data[off..currentOffset]
        invariant old(pos) + (currentOffset - off) == (out.writeCalls - old(out.writeCalls)) * DefaultSize + pos
        invariant out.writeCalls >= old(out.writeCalls) && out.flushCalls == old(out.flushCalls)
        decreases remaining
      {
        var copied := WriteRound(data, currentOffset, remaining);
        assert Emitted() == old(Emitted()) + data[off..currentOffset + copied] by {
          SliceSplit(data, off, currentOffset, currentOffset + copied);
          ConcatAssoc(old(Emitted()), data[off..currentOffset], data[currentOffset..currentOffset + copied]);
        }
        currentOffset := currentOffset + copied;
        remaining := remaining - copied;
      }
      DivModOf(old(pos) + len, out.writeCalls - old(out.writeCalls), pos);
    }

    /** `writeBody`: body bytes, refused until the headers are committed. */
    method WriteBody(data: seq<byte>) returns (r: Outcome<WriteError>)
      requires Valid()
      modifies this, buffer, out
      ensures Valid() && committed == old(committed)
      ensures !old(committed) ==> r == Fail(HeadersNotCommitted) && unchanged(this, out) && unchanged(buffer)
      ensures old(committed) ==> r == Pass && Emitted() == old(Emitted()) + data
      ensures old(committed) ==> pos == (old(pos) + |data|) % DefaultSize
      ensures old(committed) ==> out.writeCalls == old(out.writeCalls) + (old(pos) + |data|) / DefaultSize
      ensures out.flushCalls == old(out.flushCalls)
    {
      if !committed {
        return Fail(HeadersNotCommitted);
      }
      WriteInternal(data, 0, |data|);
      assert data[0..|data|] == data;
      return Pass;
    }

    /**
     * `sendHeaders`: once per response, and only for HTTP/1.1, write the
     * header block, flush, and commit. `date` and `serverName` stand for
     * the clock and the server's configured name; `order` is the order in
     * which the response's header map yields its names.
     */
    method SendHeaders(response: HttpResponse, date: string, serverName: string, order: seq<string>)
      returns (r: Outcome<WriteError>)
      requires Valid()
      requires IsKeyOrder(response.headers, order)
      modifies this, buffer, out
      ensures Valid()
      ensures old(committed) ==> r == Pass && unchanged(this, out) && unchanged(buffer)
      ensures !old(committed) && response.version != HTTP_1_1 ==>
        r == Fail(UnsupportedVersion(response.version)) && unchanged(this, out) && unchanged(buffer)
      ensures !old(committed) && response.version == HTTP_1_1 ==>
        var bytes := Utf8Encode(HeaderBlock(response.version, response.statusCode, response.message,
                                             response.headers, |response.body.GetData()|, date, serverName, order));
        r == Pass && committed && pos == 0 &&
        out.written == old(Emitted()) + bytes &&
        out.flushCalls == old(out.flushCalls) + 1 &&
        out.writeCalls == old(out.writeCalls) + (old(pos) + |bytes|) / DefaultSize + (if (old(pos) + |bytes|) % DefaultSize > 0 then 1 else 0)
    {
      if committed {
        return Pass;
      }
      if response.version != HTTP_1_1 {
        return Fail(UnsupportedVersion(response.version));
      }
      var block := HeaderBlock(response.version, response.statusCode, response.message,
                               response.headers, response.body.ContentLengthLong(), date, serverName, order);
      var bytes := Utf8Encode(block);
      WriteInternal(bytes, 0, |bytes|);
      assert bytes[0..|bytes|] == bytes;
      Flush();
      committed := true;
      return Pass;
    }
  }
}
