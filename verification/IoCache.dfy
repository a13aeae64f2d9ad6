/** The read cache of PluginTARGA.cpp: a buffer of fixed size in front of a stream. */
module IoCache {
  import opened Numbers
  import MemoryStream

  class IoCache {
    const stream: MemoryStream.MemoryStream
    const size: nat
    const buffer: array<byte>
    var ptr: nat
    // Where in the file the buffer begins, and how much of the file it holds.
    ghost var base: int
    ghost var filled: nat

    ghost predicate Valid()
      reads this, buffer, stream, stream.data
    {
      && stream.Valid() && buffer != stream.data && buffer.Length == size > 0 && ptr <= size
      && stream.currentPosition == base + filled <= stream.fileLength && filled <= size
      && base + ptr >= 0 && ptr <= filled && (filled < size ==> base + filled == stream.fileLength)
      && forall i :: ptr <= i < filled ==> buffer[i] == stream.Contents()[base + i]
    }

    /** The place in the file of the next byte. */
    ghost function Position(): int
      reads this
    {
      base + ptr
    }

    /** What the file holds. */
    ghost function File(): seq<byte>
      requires Valid()
      reads this, buffer, stream, stream.data
    {
      stream.Contents()
    }

    constructor (stream: MemoryStream.MemoryStream, size: nat)
      requires stream.Valid() && stream.currentPosition <= stream.fileLength && size > 0
      ensures Valid() && fresh(buffer) && this.stream == stream && this.size == size
      ensures Position() == stream.currentPosition
    {
      this.stream, this.size := stream, size;
      buffer := new byte[size];
      ptr := size; // forces a refill on the first access
      base, filled := stream.currentPosition - size, size;
    }

    /** Fills the buffer from the position of the stream on; less at the end of the file. */
    method Refill()
      requires stream.Valid() && buffer != stream.data && buffer.Length == size > 0
      requires stream.currentPosition <= stream.fileLength
      modifies this`ptr, this`base, this`filled, buffer, stream`currentPosition
      ensures Valid() && File() == old(stream.Contents()) && Position() == old(stream.currentPosition) && ptr == 0
    {
      base := stream.currentPosition;
      ptr := 0;
      var x, bytes := stream.Read(1, size);
      filled := |bytes|;
      forall i | 0 <= i < |bytes| {
        buffer[i] := bytes[i];
      }
    }

    method GetByte() returns (result: byte)
      requires Valid() && Position() < stream.fileLength
      modifies this`ptr, this`base, this`filled, buffer, stream`currentPosition
      ensures Valid() && File() == old(File()) && Position() == old(Position()) + 1
      ensures result == File()[old(Position())]
    {
      if ptr >= size {
        Refill();
      }
      result := buffer[ptr];
      ptr := ptr + 1;
    }

    /** The next bytes, all of them in the buffer: what is left in it may have to be read again. */
    method GetBytes(count: nat) returns (result: seq<byte>)
      requires Valid() && count <= size && Position() + count <= stream.fileLength
      modifies this`ptr, this`base, this`filled, buffer, stream`currentPosition
      ensures Valid() && File() == old(File()) && Position() == old(Position()) + count
      ensures result == File()[old(Position())..old(Position()) + count]
    {
      if ptr + count >= size {
        var remaining := size - ptr;
        var _ := stream.Seek(-remaining, MemoryStream.SeekCur);
        Refill();
      }
      result := buffer[ptr..ptr + count];
      ptr := ptr + count;
    }
  }
}
