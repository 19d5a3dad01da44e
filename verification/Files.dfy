// A C stream: a byte sequence with a cursor.
module Files {
  import opened Bytes

  // What a reader at position `pos` has still in front of it.
  function RestOf(data: seq<byte>, pos: nat): seq<byte> {
    if pos <= |data| then data[pos..] else []
  }

  class File {
    var data: seq<byte>
    var pos: nat

    constructor (contents: seq<byte>)
      ensures data == contents && pos == 0
    {
      data := contents;
      pos := 0;
    }

    ghost function Rest(): seq<byte>
      reads this
    {
      RestOf(data, pos)
    }

    // fread of up to `count` single bytes.
    method ReadBin(count: nat) returns (got: seq<byte>)
      modifies this`pos
      ensures got == old(Rest())[..Min(count, |old(Rest())|)]
      ensures Rest() == old(Rest())[|got|..]
      ensures pos == old(pos) + |got|
    {
      if pos >= |data| {
        got := [];
      } else {
        var stop := Min(pos + count, |data|);
        got := data[pos..stop];
        pos := stop;
      }
    }

    // fread of up to `count` single bytes into buf[at..].
    method ReadInto(buf: array<byte>, at: nat, count: nat) returns (n: nat)
      requires at + count <= buf.Length
      modifies this`pos, buf
      ensures n == Min(count, |old(Rest())|)
      ensures buf[..] == Splice(old(buf[..]), at, old(Rest())[..n])
      ensures Rest() == old(Rest())[n..]
      ensures pos == old(pos) + n
    {
      var got := ReadBin(count);
      n := |got|;
      CopyIn(buf, at, got);
    }

    // fwrite to a file that is only ever appended to.
    method WriteBin(bytes: seq<byte>)
      modifies this`data
      ensures data == old(data) + bytes
    {
      data := data + bytes;
    }

    // fseek from the start of the file.
    method SeekSet(offset: int) returns (ok: bool)
      modifies this`pos
      ensures ok == (offset >= 0)
      ensures pos == if ok then offset else old(pos)
    {
      ok := offset >= 0;
      if ok {
        pos := offset;
      }
    }

    // fseek from the end of the file.
    method SeekEnd(offset: int) returns (ok: bool)
      modifies this`pos
      ensures ok == (|data| + offset >= 0)
      ensures pos == if ok then |data| + offset else old(pos)
    {
      ok := |data| + offset >= 0;
      if ok {
        pos := |data| + offset;
      }
    }
  }

  // memcpy of a value into an array.
  method CopyIn(buf: array<byte>, at: nat, bytes: seq<byte>)
    requires at + |bytes| <= buf.Length
    modifies buf
    ensures buf[..] == Splice(old(buf[..]), at, bytes)
  {
    forall k | 0 <= k < |bytes| {
      buf[at + k] := bytes[k];
    }
    assert buf[..] == Splice(old(buf[..]), at, bytes);
  }
}
