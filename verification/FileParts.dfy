/** Parts of a file. */
module FileParts {
  import opened Numbers

  /** The bytes stand at this place of the file. */
  ghost predicate Here(file: seq<byte>, pos: nat, bytes: seq<byte>)
  {
    pos + |bytes| <= |file| && file[pos..pos + |bytes|] == bytes
  }

  lemma NextHere(file: seq<byte>, start: nat, a: seq<byte>, k: seq<byte>, all: seq<byte>)
    requires a + k <= all && Here(file, start, all)
    ensures Here(file, start + |a|, k)
  {
    hide Here;
    PrefixPart(a, k, all);
    PartHere(file, start, all, |a|, |a| + |k|);
    HereIs(file, start + |a|, k);
  }

  lemma HereIs(file: seq<byte>, pos: nat, bytes: seq<byte>)
    requires pos + |bytes| <= |file| && file[pos..pos + |bytes|] == bytes
    ensures Here(file, pos, bytes)
  {
  }

  lemma PrefixPart(a: seq<byte>, k: seq<byte>, all: seq<byte>)
    requires a + k <= all
    ensures |a| + |k| <= |all| && all[|a|..|a| + |k|] == k
  {
    assert all[..|a + k|] == a + k;
    assert all[|a|..|a| + |k|] == all[..|a + k|][|a|..];
  }

  lemma PartHere(file: seq<byte>, pos: nat, bytes: seq<byte>, a: nat, b: nat)
    requires Here(file, pos, bytes) && a <= b <= |bytes|
    ensures pos + b <= |file| && file[pos + a..pos + b] == bytes[a..b]
  {
    var part := file[pos..pos + |bytes|];
    forall i | a <= i < b ensures file[pos + i] == bytes[i] {
      assert file[pos + i] == part[i];
    }
  }
}
