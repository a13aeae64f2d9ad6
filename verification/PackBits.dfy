/** The PackBits run-length code (section 9 of TIFF 6.0) as PSDParser.cpp packs and unpacks it. */
module PackBits {
  import opened Numbers
  import opened LineBuffer

  // ---- Packing ----

  /** The length of the run at the start of s, from len bytes on and at most 127. */
  function RunFrom(s: seq<byte>, len: nat): (r: nat)
    requires 1 <= len <= |s|
    ensures len <= r <= |s| && (len <= 127 ==> r <= 127)
    decreases |s| - len
  {
    if len < 127 && len < |s| && s[0] == s[len] then RunFrom(s, len + 1) else len
  }

  /** Is another byte taken into an uncompressed packet of len bytes? Not if three equal bytes follow. */
  predicate GoesOn(s: seq<byte>, len: nat)
  {
    len < 127 && len < |s| && (len + 2 >= |s| || s[len] != s[len + 1] || s[len] != s[len + 2])
  }

  function LiteralFrom(s: seq<byte>, len: nat): (r: nat)
    requires 1 <= len <= |s|
    ensures len <= r <= |s| && (len <= 127 ==> r <= 127) && !GoesOn(s, r)
    decreases |s| - len
  {
    if GoesOn(s, len) then LiteralFrom(s, len + 1) else len
  }

  predicate StartsRun(s: seq<byte>)
  {
    |s| >= 2 && s[0] == s[1]
  }

  function Pack(s: seq<byte>): seq<byte>
  {
    if s == [] then []
    else if StartsRun(s) then
      var len := RunFrom(s, 2);
      [257 - len, s[0]] + Pack(s[len..])
    else
      var len := LiteralFrom(s, 1);
      [len - 1] + s[..len] + Pack(s[len..])
  }

  // ---- Unpacking ----

  /** A sequence of complete packets. */
  predicate WellFormed(p: seq<byte>)
  {
    p == [] ||
    if p[0] < 128 then p[0] + 2 <= |p| && WellFormed(p[p[0] + 2..])
    else if p[0] > 128 then 2 <= |p| && WellFormed(p[2..])
    else WellFormed(p[1..])
  }

  function Unpack(p: seq<byte>): seq<byte>
    requires WellFormed(p)
  {
    if p == [] then []
    else if p[0] < 128 then p[1..p[0] + 2] + Unpack(p[p[0] + 2..])
    else if p[0] > 128 then Fill(p[1], 257 - p[0]) + Unpack(p[2..])
    else Unpack(p[1..])
  }

  /** No packet has the header 128. */
  predicate NoFiller(p: seq<byte>)
    requires WellFormed(p)
  {
    p == [] || (p[0] != 128 && NoFiller(if p[0] < 128 then p[p[0] + 2..] else p[2..]))
  }

  lemma {:induction false} RunIs(s: seq<byte>, len: nat)
    requires 1 <= len <= |s| && s[..len] == Fill(s[0], len)
    ensures s[..RunFrom(s, len)] == Fill(s[0], RunFrom(s, len))
    decreases |s| - len
  {
    if len < 127 && len < |s| && s[0] == s[len] {
      assert s[..len + 1] == s[..len] + [s[len]];
      FillSnoc(s[0], len);
      RunIs(s, len + 1);
    }
  }

  /** Unpacking undoes packing, for every sequence of bytes; and packing makes no filler headers. */
  lemma {:induction false} UnpackPack(s: seq<byte>)
    ensures WellFormed(Pack(s)) && Unpack(Pack(s)) == s && NoFiller(Pack(s))
  {
    hide Pack, Unpack, WellFormed, NoFiller, RunFrom, LiteralFrom;
    if s == [] {
      PackNone();
      UnpackNone();
    } else if StartsRun(s) {
      var len := RunFrom(s, 2);
      UnpackPack(s[len..]);
      PackRun(s);
      RunHeader(len, s[0], Pack(s[len..]));
      assert s[..2] == Fill(s[0], 2);
      RunIs(s, 2);
      assert s == s[..len] + s[len..];
    } else {
      var len := LiteralFrom(s, 1);
      UnpackPack(s[len..]);
      PackLiteral(s);
      LiteralHeader(s[..len], Pack(s[len..]));
      assert s == s[..len] + s[len..];
    }
  }

  lemma RunHeader(len: nat, b: byte, rest: seq<byte>)
    requires 2 <= len <= 127 && WellFormed(rest) && NoFiller(rest)
    ensures var p: seq<byte> := [257 - len, b] + rest; WellFormed(p) && Unpack(p) == Fill(b, len) + Unpack(rest) && NoFiller(p)
  {
    var p: seq<byte> := [257 - len, b] + rest;
    assert p[2..] == rest;
  }

  lemma LiteralHeader(s: seq<byte>, rest: seq<byte>)
    requires 1 <= |s| <= 127 && WellFormed(rest) && NoFiller(rest)
    ensures var p: seq<byte> := [|s| - 1] + s + rest; WellFormed(p) && Unpack(p) == s + Unpack(rest) && NoFiller(p)
  {
    var p: seq<byte> := [|s| - 1] + s + rest;
    assert p[0] == |s| - 1 && p[1..p[0] + 2] == s && p[p[0] + 2..] == rest;
  }

  lemma PackNone()
    ensures Pack([]) == []
  {
  }

  lemma UnpackNone()
    ensures WellFormed([]) && Unpack([]) == [] && NoFiller([])
  {
  }

  lemma PackRun(s: seq<byte>)
    requires StartsRun(s)
    ensures var len := RunFrom(s, 2); Pack(s) == [257 - len, s[0]] + Pack(s[len..])
  {
  }

  lemma PackLiteral(s: seq<byte>)
    requires s != [] && !StartsRun(s)
    ensures var len := LiteralFrom(s, 1); Pack(s) == [len - 1] + s[..len] + Pack(s[len..])
  {
  }

  lemma {:induction false} RunEnds(s: seq<byte>, len: nat)
    requires 1 <= len <= |s| && len <= 127
    ensures var r := RunFrom(s, len); r < 127 && r < |s| ==> s[r] != s[0]
    ensures forall k :: len <= k < RunFrom(s, len) ==> s[k] == s[0]
    decreases |s| - len
  {
    if len < 127 && len < |s| && s[0] == s[len] {
      RunEnds(s, len + 1);
    }
  }

  lemma {:induction false} LiteralGoesOn(s: seq<byte>, len: nat)
    requires 1 <= len <= |s|
    ensures forall k :: len <= k < LiteralFrom(s, len) ==> GoesOn(s, k)
    decreases |s| - len
  {
    if GoesOn(s, len) {
      LiteralGoesOn(s, len + 1);
    }
  }

  /** Three equal bytes from k on. */
  predicate Three(s: seq<byte>, k: nat)
  {
    k + 2 < |s| && s[k] == s[k + 1] && s[k] == s[k + 2]
  }

  /** The first packet: two equal bytes begin a run, which goes on as far as it can; a literal packet goes on to the next
      three equal bytes. Packets have at most 127 bytes. */
  lemma PackIs(s: seq<byte>) returns (len: nat)
    requires s != []
    ensures 1 <= len <= 127 && len <= |s|
    ensures |s| >= 2 && s[0] == s[1] ==>
      && len >= 2 && (forall k :: 0 <= k < len ==> s[k] == s[0]) && (len < 127 && len < |s| ==> s[len] != s[0])
      && Pack(s) == [257 - len, s[0]] + Pack(s[len..])
    ensures |s| < 2 || s[0] != s[1] ==>
      && (forall k :: 1 <= k < len ==> !Three(s, k)) && (len < 127 && len < |s| ==> Three(s, len))
      && Pack(s) == [len - 1] + s[..len] + Pack(s[len..])
  {
    hide RunFrom, LiteralFrom, Pack;
    if StartsRun(s) {
      len := RunFrom(s, 2);
      PackRun(s);
      RunEnds(s, 2);
    } else {
      len := LiteralFrom(s, 1);
      PackLiteral(s);
      LiteralGoesOn(s, 1);
      forall k | 1 <= k < len ensures !Three(s, k) {
        assert GoesOn(s, k);
      }
    }
  }

  /** ceil(n / 127) */
  function Extra(n: nat): nat
  {
    (n + 126) / 127
  }

  /** Packing n bytes takes at most n + ceil(n / 127): a literal packet of less than 127 bytes that does not end the
      line is paid for by the run of three or more that follows it. */
  lemma {:induction false} PackedLength(s: seq<byte>)
    ensures |Pack(s)| <= |s| + Extra(|s|)
  {
    if s != [] {
      if StartsRun(s) {
        PackedLength(s[RunFrom(s, 2)..]);
      } else {
        var len := LiteralFrom(s, 1);
        var rest := s[len..];
        if len < 127 && rest != [] {
          assert rest[0] == rest[1] == rest[2];
          var run := RunFrom(rest, 2);
          assert run == RunFrom(rest, 3) >= 3;
          PackedLength(rest[run..]);
        } else {
          PackedLength(rest);
        }
      }
    }
  }

  // ---- The loops ----

  /** PackRLE: the buffer need not be longer than the bound. */
  method PackRle(line: array<byte>, src: seq<byte>) returns (n: nat)
    requires line.Length >= |src| + Extra(|src|)
    modifies line
    ensures n == |Pack(src)| <= |src| + Extra(|src|)
    ensures line[..] == Pack(src) + old(line[..])[n..]
  {
    hide Pack, RunFrom, LiteralFrom, Written;
    PackedLength(src);
    PackNone();
    WrittenNone(line[..]);
    ghost var done: seq<byte> := [];
    ghost var before := line[..];
    var rest := src;
    n := 0;
    while |rest| > 0
      invariant n == |done| && Written(line[..], done, before) && Pack(src) == done + Pack(rest)
      decreases |rest|
    {
      if |rest| >= 2 && rest[0] == rest[1] {
        n, rest, done := PackRunPacket(line, n, rest, done, before);
      } else {
        n, rest, done := PackLiteralPacket(line, n, rest, done, before);
      }
    }
    assert rest == [] && Pack(src) == done;
    WrittenIs(line[..], done, before);
  }

  method PackRunPacket(line: array<byte>, n: nat, rest: seq<byte>, ghost done: seq<byte>, ghost before: seq<byte>)
      returns (n': nat, rest': seq<byte>, ghost done': seq<byte>)
    requires StartsRun(rest) && n == |done| && Written(line[..], done, before) && n + |Pack(rest)| <= line.Length
    modifies line
    ensures |rest'| < |rest| && n' == |done'| && Written(line[..], done', before)
    ensures done' + Pack(rest') == done + Pack(rest)
  {
    hide Pack, Written;
    var len := RunLength(rest);
    PackRun(rest);
    Copy(line, n, [257 - len, rest[0]], done, before);
    Regroup(done, [257 - len, rest[0]], Pack(rest[len..]));
    done' := done + [257 - len, rest[0]];
    n' := n + 2;
    rest' := rest[len..];
  }

  method PackLiteralPacket(line: array<byte>, n: nat, rest: seq<byte>, ghost done: seq<byte>, ghost before: seq<byte>)
      returns (n': nat, rest': seq<byte>, ghost done': seq<byte>)
    requires rest != [] && !StartsRun(rest) && n == |done| && Written(line[..], done, before)
    requires n + |Pack(rest)| <= line.Length
    modifies line
    ensures |rest'| < |rest| && n' == |done'| && Written(line[..], done', before)
    ensures done' + Pack(rest') == done + Pack(rest)
  {
    hide Pack, Written;
    var len := LiteralLength(rest);
    PackLiteral(rest);
    Copy(line, n, [len - 1] + rest[..len], done, before);
    Regroup(done, [len - 1] + rest[..len], Pack(rest[len..]));
    done' := done + ([len - 1] + rest[..len]);
    n' := n + 1 + len;
    rest' := rest[len..];
  }

  method RunLength(s: seq<byte>) returns (len: nat)
    requires StartsRun(s)
    ensures len == RunFrom(s, 2)
  {
    len := 2;
    while len < 127 && len < |s| && s[0] == s[len]
      invariant 2 <= len <= |s| && len <= 127 && RunFrom(s, 2) == RunFrom(s, len)
    {
      len := len + 1;
    }
  }

  method LiteralLength(s: seq<byte>) returns (len: nat)
    requires s != []
    ensures len == LiteralFrom(s, 1)
  {
    len := 1;
    while len < 127 && len < |s| && (len + 2 >= |s| || s[len] != s[len + 1] || s[len] != s[len + 2])
      invariant 1 <= len <= |s| && len <= 127 && LiteralFrom(s, 1) == LiteralFrom(s, len)
    {
      len := len + 1;
    }
  }

  lemma UnpackStep(p: seq<byte>)
    requires WellFormed(p) && p != []
    ensures p[0] < 128 ==> p[0] + 2 <= |p| && WellFormed(p[p[0] + 2..])
    ensures p[0] < 128 ==> Unpack(p) == p[1..p[0] + 2] + Unpack(p[p[0] + 2..])
    ensures p[0] > 128 ==> |p| >= 2 && WellFormed(p[2..]) && Unpack(p) == Fill(p[1], 257 - p[0]) + Unpack(p[2..])
    ensures p[0] == 128 ==> WellFormed(p[1..]) && Unpack(p) == Unpack(p[1..])
  {
  }

  /** UnpackRLE, on packets that fit the line. */
  method UnpackRle(line: array<byte>, packets: seq<byte>)
    requires WellFormed(packets) && |Unpack(packets)| <= line.Length
    modifies line
    ensures line[..] == Unpack(packets) + old(line[..])[|Unpack(packets)|..]
  {
    hide WellFormed, Unpack, Written;
    UnpackNone();
    WrittenNone(line[..]);
    ghost var done: seq<byte> := [];
    ghost var before := line[..];
    var rest := packets;
    var n: nat := 0;
    while |rest| > 0
      invariant WellFormed(rest) && Unpack(packets) == done + Unpack(rest)
      invariant n == |done| && Written(line[..], done, before)
      decreases |rest|
    {
      n, rest, done := UnpackPacket(line, n, rest, done, before);
    }
    assert rest == [] && Unpack(packets) == done;
    WrittenIs(line[..], done, before);
  }

  method UnpackPacket(line: array<byte>, n: nat, rest: seq<byte>, ghost done: seq<byte>, ghost before: seq<byte>)
      returns (n': nat, rest': seq<byte>, ghost done': seq<byte>)
    requires WellFormed(rest) && rest != [] && n == |done| && Written(line[..], done, before)
    requires n + |Unpack(rest)| <= line.Length
    modifies line
    ensures WellFormed(rest') && |rest'| < |rest| && n' == |done'| && Written(line[..], done', before)
    ensures done' + Unpack(rest') == done + Unpack(rest)
  {
    hide WellFormed, Unpack, Written;
    UnpackStep(rest);
    var len: int := rest[0];
    if len < 128 {
      len := len + 1;
      Copy(line, n, rest[1..len + 1], done, before);
      Regroup(done, rest[1..len + 1], Unpack(rest[len + 1..]));
      done' := done + rest[1..len + 1];
      n' := n + len;
      rest' := rest[len + 1..];
    } else if len > 128 {
      len := (255 - len) + 2;
      Set(line, n, rest[1], len, done, before);
      Regroup(done, Fill(rest[1], len), Unpack(rest[2..]));
      done' := done + Fill(rest[1], len);
      n' := n + len;
      rest' := rest[2..];
    } else {
      n', rest', done' := n, rest[1..], done;
    }
  }
}
