/** A message body: the raw bytes, never interpreted by the server. */
module HttpBodies {
  import opened Bytes

  datatype HttpBody = HttpBody(data: seq<byte>)
  {
    /** `getContentLengthLong()`: the number of bytes stored. */
    function ContentLengthLong(): (n: nat)
      ensures n == |GetData()|
    {
      |data|
    }

    /** `getData()`: the stored bytes as they were given. */
    function GetData(): seq<byte>
    {
      data
    }
  }

  /** `HttpBody.empty()`: a body with no bytes. */
  function Empty(): (b: HttpBody)
    ensures b.ContentLengthLong() == 0
    ensures b.GetData() == []
  {
    HttpBody([])
  }
}
