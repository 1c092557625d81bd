/** An InputStream over a fixed byte sequence: the bytes and a read cursor. */
module ByteInput {
  import opened Bytes
  import opened Wrappers

  class InputStream {
    /** Every byte the peer sends on this connection. */
    const data: seq<byte>
    /** How many of them have been consumed. */
    var cursor: nat

    ghost predicate Valid()
      reads this
    {
      cursor <= |data|
    }

    constructor (data: seq<byte>)
      ensures Valid() && this.data == data && cursor == 0
    {
      this.data := data;
      cursor := 0;
    }

    /** `read()`: the next byte, or -1 at end of stream. */
    method Read() returns (b: int)
      requires Valid()
      modifies this
      ensures Valid()
      ensures old(cursor) < |data| ==> b == data[old(cursor)] as int && cursor == old(cursor) + 1
      ensures old(cursor) == |data| ==> b == -1 && cursor == old(cursor)
    {
      if cursor < |data| {
        b := data[cursor] as int;
        cursor := cursor + 1;
      } else {
        b := -1;
      }
    }

    /** `readNBytes(n)`: up to `n` bytes, fewer only at end of stream. */
    method ReadNBytes(n: nat) returns (bs: seq<byte>)
      requires Valid()
      modifies this
      ensures Valid()
      ensures cursor == old(cursor) + Min(n, |data| - old(cursor))
      ensures bs == data[old(cursor)..cursor]
    {
      var end := cursor + Min(n, |data| - cursor);
      bs := data[cursor..end];
      cursor := end;
    }

    /**
     * DataInputStream.readFully into an array of length `n`: exactly `n`
     * bytes, or `None` (EOFException) after consuming all that remain.
     */
    method ReadFully(n: nat) returns (bs: Option<seq<byte>>)
      requires Valid()
      modifies this
      ensures Valid()
      ensures old(cursor) + n <= |data| ==> bs == Some(data[old(cursor)..old(cursor) + n]) && cursor == old(cursor) + n
      ensures |data| < old(cursor) + n ==> bs == None && cursor == |data|
    {
      if cursor + n <= |data| {
        bs := Some(data[cursor..cursor + n]);
        cursor := cursor + n;
      } else {
        bs := None;
        cursor := |data|;
      }
    }
  }

  function Min(a: int, b: int): int
  {
    if a <= b then a else b
  }
}
