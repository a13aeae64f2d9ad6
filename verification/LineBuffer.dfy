/** A buffer that a line is written to from the front. */
module LineBuffer {
  import opened Numbers

  /** The line starts with what has been written, and is as before behind it. */
  ghost predicate Written(line: seq<byte>, done: seq<byte>, before: seq<byte>)
  {
    |done| <= |before| && line == done + before[|done|..]
  }

  /** memcpy */
  method Copy(line: array<byte>, n: nat, s: seq<byte>, ghost done: seq<byte>, ghost before: seq<byte>)
    requires n + |s| <= line.Length && n == |done| && Written(line[..], done, before)
    modifies line
    ensures Written(line[..], done + s, before)
  {
    forall i | 0 <= i < |s| {
      line[n + i] := s[i];
    }
  }

  /** memset */
  method Set(line: array<byte>, n: nat, b: byte, len: nat, ghost done: seq<byte>, ghost before: seq<byte>)
    requires n + len <= line.Length && n == |done| && Written(line[..], done, before)
    modifies line
    ensures Written(line[..], done + Fill(b, len), before)
  {
    forall i | 0 <= i < len {
      line[n + i] := b;
    }
  }

  lemma WrittenNone(line: seq<byte>)
    ensures Written(line, [], line)
  {
  }

  lemma WrittenIs(line: seq<byte>, done: seq<byte>, before: seq<byte>)
    requires Written(line, done, before)
    ensures |done| <= |before| && line == done + before[|done|..]
  {
  }

  lemma Regroup(a: seq<byte>, b: seq<byte>, c: seq<byte>)
    ensures a + (b + c) == a + b + c
  {
  }
}
