/** The memory stream of FreeImageIO.cpp: reading, writing and seeking in a buffer that grows by doubling. */
module MemoryStream {
  import opened Numbers

  const MAX_LENGTH := 0x7FFF_FFFF

  datatype Origin = SeekSet | SeekCur | SeekEnd

  class MemoryStream {
    var data: array<byte>
    var fileLength: nat
    var dataLength: nat
    var currentPosition: nat

    ghost predicate Valid()
      reads this, data
    {
      fileLength <= dataLength == data.Length <= MAX_LENGTH
    }

    /** What the file holds. */
    ghost function Contents(): (c: seq<byte>)
      requires Valid()
      reads this, data
      ensures |c| == fileLength
    {
      data[..fileLength]
    }

    constructor ()
      ensures Valid() && fresh(data) && Contents() == [] && currentPosition == 0
    {
      data := new byte[0];
      fileLength, dataLength, currentPosition := 0, 0, 0;
    }

    /** A stream over the bytes of a file. */
    constructor Open(bytes: seq<byte>)
      requires |bytes| <= MAX_LENGTH
      ensures Valid() && fresh(data) && Contents() == bytes && currentPosition == 0
    {
      data := new byte[|bytes|](i requires 0 <= i < |bytes| => bytes[i]);
      fileLength, dataLength, currentPosition := |bytes|, |bytes|, 0;
    }

    /** Reads x whole items of this size; what is left before the end of the file is read, but not counted. */
    method Read(size: nat, count: nat) returns (x: nat, buffer: seq<byte>)
      requires Valid()
      modifies this`currentPosition
      ensures Valid() && Contents() == old(Contents())
      ensures old(currentPosition) <= fileLength ==>
        var from := old(currentPosition);
        var to := if from + size * count <= fileLength then from + size * count else fileLength;
        buffer == Contents()[from..to] && currentPosition == to
      ensures old(currentPosition) + size * count <= fileLength ==> x == count
      ensures old(currentPosition) <= fileLength < old(currentPosition) + size * count ==>
        x < count && x * size <= fileLength - old(currentPosition) < (x + 1) * size
      ensures old(currentPosition) > fileLength && count > 0 ==> x == 0 && buffer == [] && currentPosition == fileLength
      ensures count == 0 ==> x == 0 && buffer == [] && currentPosition == old(currentPosition)
    {
      ghost var n;
      x, buffer, n := ReadItems(size, count);
      Sum(x, size, count, n);
    }

    /** The loop of the read function; n bytes were in whole items. */
    method ReadItems(size: nat, count: nat) returns (x: nat, buffer: seq<byte>, ghost n: nat)
      requires Valid()
      modifies this`currentPosition
      ensures Valid() && Contents() == old(Contents()) && x <= count && n == x * size
      ensures if old(currentPosition) <= fileLength then HasRead(buffer, old(currentPosition)) else x == 0 && buffer == []
      ensures old(currentPosition) <= fileLength ==> old(currentPosition) + n <= fileLength
      ensures if x == count then currentPosition == old(currentPosition) + n
        else currentPosition == fileLength && fileLength - (old(currentPosition) + n) < size
    {
      buffer := [];
      x := 0;
      n := 0;
      ghost var from := currentPosition;
      while x < count
        invariant x <= count && n == x * size && currentPosition == from + n && Contents() == old(Contents())
        invariant if from <= fileLength then HasRead(buffer, from) else x == 0 && buffer == []
      {
        MulDistributes(x, 1, size);
        var remainingBytes := fileLength - currentPosition;
        if remainingBytes < size {
          if remainingBytes > 0 {
            buffer := Take(buffer, remainingBytes, from);
          }
          currentPosition := fileLength;
          break;
        }
        buffer := Take(buffer, size, from);
        n := n + size;
        x := x + 1;
      }
    }

    ghost predicate HasRead(buffer: seq<byte>, from: nat)
      reads this, data
    {
      Valid() && from <= currentPosition <= fileLength && buffer == Contents()[from..currentPosition]
    }

    /** memcpy behind what has been read. */
    method Take(buffer: seq<byte>, n: nat, ghost from: nat) returns (b: seq<byte>)
      requires HasRead(buffer, from) && currentPosition + n <= fileLength
      modifies this`currentPosition
      ensures HasRead(b, from) && currentPosition == old(currentPosition) + n && Contents() == old(Contents())
    {
      SliceOn(data[..], Contents(), from, currentPosition, currentPosition + n);
      b := buffer + data[..][currentPosition..currentPosition + n];
      currentPosition := currentPosition + n;
    }

    /** Writes the bytes at the position. It fails if and only if the file would not stay below the longest length. */
    method Write(buffer: seq<byte>, size: nat, count: nat) returns (r: nat)
      requires Valid() && |buffer| == size * count
      modifies this, data
      ensures Valid() && (data == old(data) || fresh(data))
      ensures r == if old(currentPosition) + |buffer| < MAX_LENGTH then count else 0
      ensures old(currentPosition) + |buffer| >= MAX_LENGTH ==>
        Contents() == old(Contents()) && currentPosition == old(currentPosition)
      ensures old(currentPosition) + |buffer| < MAX_LENGTH ==> currentPosition == old(currentPosition) + |buffer|
      ensures old(currentPosition) + |buffer| < MAX_LENGTH && old(currentPosition) <= old(fileLength) ==>
        Contents() == Overwritten(old(Contents()), old(currentPosition), buffer)
      ensures old(currentPosition) + |buffer| < MAX_LENGTH && old(currentPosition) > old(fileLength) ==>
        old(Contents()) <= Contents() && old(currentPosition) <= fileLength && Contents()[old(currentPosition)..] == buffer
    {
      var ok := Grow(size * count);
      if !ok {
        return 0;
      }
      Put(buffer);
      return count;
    }

    /** Doubles the buffer until there is more room than needed. */
    method Grow(n: nat) returns (ok: bool)
      requires Valid()
      modifies this`data, this`dataLength
      ensures Valid() && Contents() == old(Contents()) && (data == old(data) || fresh(data))
      ensures ok == (currentPosition + n < MAX_LENGTH) && (ok ==> currentPosition + n < dataLength)
    {
      while currentPosition + n >= dataLength
        invariant Valid() && Contents() == old(Contents()) && (data == old(data) || fresh(data))
        decreases MAX_LENGTH - dataLength
      {
        var newDataLen;
        if dataLength / 0x4000_0000 % 2 == 1 {
          if dataLength == MAX_LENGTH {
            return false;
          }
          newDataLen := MAX_LENGTH;
        } else if dataLength == 0 {
          newDataLen := 4096;
        } else {
          newDataLen := 2 * dataLength;
        }
        Realloc(newDataLen);
      }
      return true;
    }

    method Put(buffer: seq<byte>)
      requires Valid() && currentPosition + |buffer| < dataLength
      modifies this`currentPosition, this`fileLength, data
      ensures Valid() && currentPosition == old(currentPosition) + |buffer|
      ensures old(currentPosition) <= old(fileLength) ==>
        Contents() == Overwritten(old(Contents()), old(currentPosition), buffer)
      ensures old(currentPosition) > old(fileLength) ==>
        old(Contents()) <= Contents() && old(currentPosition) <= fileLength && Contents()[old(currentPosition)..] == buffer
    {
      ghost var before := data[..];
      Store(buffer);
      StoreContents(before, data[..], currentPosition, buffer, fileLength);
      currentPosition := currentPosition + |buffer|;
      if currentPosition > fileLength {
        fileLength := currentPosition;
      }
    }

    method Realloc(newDataLen: nat)
      requires Valid() && dataLength <= newDataLen <= MAX_LENGTH
      modifies this`data, this`dataLength
      ensures Valid() && dataLength == newDataLen && fresh(data) && Contents() == old(Contents())
    {
      var newData := new byte[newDataLen];
      forall i | 0 <= i < dataLength {
        newData[i] := data[i];
      }
      data := newData;
      dataLength := newDataLen;
    }

    /** memcpy */
    method Store(buffer: seq<byte>)
      requires currentPosition + |buffer| <= data.Length
      modifies data
      ensures data[..] == old(data[..])[..currentPosition] + buffer + old(data[..])[currentPosition + |buffer|..]
    {
      forall i | 0 <= i < |buffer| {
        data[currentPosition + i] := buffer[i];
      }
    }

    /** True on success; the position may be beyond the end of the file. */
    method Seek(offset: int, origin: Origin) returns (ok: bool)
      requires Valid()
      modifies this`currentPosition
      ensures Valid() && Contents() == old(Contents())
      ensures var to := match origin case SeekSet => offset case SeekCur => old(currentPosition) + offset case SeekEnd => fileLength + offset;
        ok == (to >= 0) && currentPosition == if ok then to else old(currentPosition)
    {
      match origin
      case SeekSet =>
        if offset >= 0 {
          currentPosition := offset;
          return true;
        }
        return false;
      case SeekCur =>
        if currentPosition + offset >= 0 {
          currentPosition := currentPosition + offset;
          return true;
        }
        return false;
      case SeekEnd =>
        if fileLength + offset >= 0 {
          currentPosition := fileLength + offset;
          return true;
        }
        return false;
    }

    method Tell() returns (position: nat)
      ensures position == currentPosition
    {
      return currentPosition;
    }
  }

  lemma Sum(x: nat, size: nat, count: nat, n: nat)
    requires x <= count && n == x * size
    ensures (x + 1) * size == n + size && if x == count then n == size * count else n + size <= size * count
  {
    MulDistributes(x, 1, size);
    if x < count {
      MulMono(x + 1, count, size);
    }
  }

  lemma SliceOn(data: seq<byte>, c: seq<byte>, a: nat, b: nat, e: nat)
    requires a <= b <= e <= |c| <= |data| && c == data[..|c|]
    ensures c[a..b] + data[b..e] == c[a..e]
  {
  }

  lemma StoreContents(before: seq<byte>, after: seq<byte>, at: nat, buffer: seq<byte>, n: nat)
    requires |before| == |after| && at + |buffer| <= |before| && n <= |before|
    requires after == before[..at] + buffer + before[at + |buffer|..]
    ensures at <= n ==> after[..if at + |buffer| > n then at + |buffer| else n] == Overwritten(before[..n], at, buffer)
    ensures at > n ==> before[..n] <= after[..at + |buffer|] && after[..at + |buffer|][at..] == buffer
  {
    var end := at + |buffer|;
    assert after[..end] == before[..at] + buffer;
    if at <= n {
      assert before[..n][..at] == before[..at];
      if end <= n {
        assert before[..n][end..] == before[end..n];
        assert after[..n] == before[..at] + buffer + before[end..n];
      }
    } else {
      assert before[..at][..n] == before[..n];
    }
  }

  /** A file with a part replaced, or made longer. */
  function Overwritten(c: seq<byte>, at: nat, buffer: seq<byte>): seq<byte>
    requires at <= |c|
  {
    c[..at] + buffer + (if at + |buffer| <= |c| then c[at + |buffer|..] else [])
  }
}
