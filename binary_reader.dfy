/**
  The bounds-checked forward-only cursor the archive code reads through
  (util/BinaryReader.h). Every read or fast-forward that would pass the end of
  the buffer fails and leaves the cursor where it was.
 */
module Reader {
  import opened Bytes

  class BinaryReader {
    const buffer: seq<byte>
    var seek: nat

    ghost predicate Valid()
      reads this
    {
      seek <= |buffer|
    }

    constructor (data: seq<byte>)
      ensures Valid() && buffer == data && seek == 0
    {
      buffer := data;
      seek := 0;
    }

    function BytesLeft(): (n: nat)
      reads this
      requires Valid()
      ensures seek + n == |buffer|
    {
      |buffer| - seek
    }

    /** A view of the next `n` bytes (BinaryReader::here, of a known length). */
    function Here(n: nat): (r: seq<byte>)
      reads this
      requires Valid() && n <= BytesLeft()
      ensures |r| == n && r == buffer[seek..seek + n]
    {
      buffer[seek..seek + n]
    }

    /** read<uint32_t>(): one little-endian word. */
    method ReadU32() returns (r: Result<u32>)
      requires Valid()
      modifies this
      ensures Valid()
      ensures old(seek) + 4 <= |buffer| ==> r == Ok(U32At(buffer, old(seek))) && seek == old(seek) + 4
      ensures old(seek) + 4 > |buffer| ==> r == Err(OutOfBounds) && seek == old(seek)
    {
      if seek + 4 > |buffer| {
        return Err(OutOfBounds);
      }
      r := Ok(U32At(buffer, seek));
      seek := seek + 4;
    }

    /** read<T>() of a plain struct of `n` bytes: the bytes themselves. */
    method ReadBytes(n: nat) returns (r: Result<seq<byte>>)
      requires Valid()
      modifies this
      ensures Valid()
      ensures old(seek) + n <= |buffer| ==> r == Ok(buffer[old(seek)..old(seek) + n]) && seek == old(seek) + n
      ensures old(seek) + n > |buffer| ==> r == Err(OutOfBounds) && seek == old(seek)
    {
      if seek + n > |buffer| {
        return Err(OutOfBounds);
      }
      r := Ok(buffer[seek..seek + n]);
      seek := seek + n;
    }

    /** ffwd(n): skip `n` bytes. */
    method Ffwd(n: nat) returns (ok: bool)
      requires Valid()
      modifies this
      ensures Valid()
      ensures ok == (old(seek) + n <= |buffer|)
      ensures seek == if ok then old(seek) + n else old(seek)
    {
      ok := seek + n <= |buffer|;
      if ok {
        seek := seek + n;
      }
    }
  }
}
