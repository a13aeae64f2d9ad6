/** The probability estimation state machine: Table D.3 of ITU-T T.81 and its packed form. */
module AriTable {
  import opened Numbers

  /** What the coders need of a packed entry: a Qe value below a half and legal next states. */
  predicate SoundEntry(p: int)
  {
    && 0 < Qe(p) < 0x8000
    && NextLps(p) % 0x80 <= 113
    && NextMps(p) <= 113
  }

  /** The last entry stands for a fixed probability: it leads back to itself. */
  predicate SoundTable(tab: seq<int>)
  {
    && |tab| == 114
    && (forall i :: 0 <= i < 114 ==> SoundEntry(tab[i]))
    && NextLps(tab[113]) == 113 && NextMps(tab[113]) == 113
  }

  function NextLps(p: int): byte { p % 0x100 }

  function NextMps(p: int): byte { p / 0x100 % 0x100 }

  function Qe(p: int): int { p / 0x1_0000 }

  /** A statistics bin is one byte: the more probable symbol in the top bit, the state below. */
  predicate LegalBin(sv: byte)
  {
    sv % 0x80 <= 113
  }

  predicate Mps(sv: byte)
  {
    sv / 0x80 == 1
  }

  /** The bin after a transition: the symbol bit of `sv` exclusive-or'ed with the packed next state. */
  function Moved(sv: byte, next: byte): byte
  {
    (sv / 0x80 + next / 0x80) % 2 * 0x80 + next % 0x80
  }

  /** A transition takes the next state, and exchanges the symbol exactly when its top bit is set. */
  lemma MovedIs(sv: byte, next: byte)
    ensures Moved(sv, next) % 0x80 == next % 0x80
    ensures Moved(sv, next) >= 0x80 <==> (sv >= 0x80) != (next >= 0x80)
  {
  }

  lemma MovedIsLegal(sv: byte, next: byte)
    requires next % 0x80 <= 113
    ensures LegalBin(Moved(sv, next))
  {
  }
}

/** The constant table of the JPEG coder. */
module JpegAriTable {
  import opened Numbers
  import opened AriTable

  datatype Row = Row(qe: nat, nextLps: nat, nextMps: nat, switchMps: bool)

  predicate SoundRow(r: Row)
  {
    0 < r.qe < 0x8000 && r.nextLps <= 113 && r.nextMps <= 113
  }

  function V(r: Row): int
  {
    r.qe * 0x1_0000 + r.nextMps * 0x100 + (if r.switchMps then 0x80 else 0) + r.nextLps
  }

  /** Unpacking an entry gives back the row it was packed from, so no field spills into another. */
  lemma UnpackV(r: Row)
    requires SoundRow(r)
    ensures Qe(V(r)) == r.qe && NextMps(V(r)) == r.nextMps
    ensures NextLps(V(r)) % 0x80 == r.nextLps && (NextLps(V(r)) >= 0x80 <==> r.switchMps)
  {
    var low := (if r.switchMps then 0x80 else 0) + r.nextLps;
    DivUnique(V(r), r.qe, 0x1_0000, r.nextMps * 0x100 + low);
    DivUnique(V(r), r.qe * 0x100 + r.nextMps, 0x100, low);
    DivUnique(r.qe * 0x100 + r.nextMps, r.qe, 0x100, r.nextMps);
  }

  function Aritab(): (tab: seq<int>)
  {
    var rows := Rows0() + Rows19() + Rows38() + Rows57() + Rows76() + Rows95();
    seq(114, i requires 0 <= i < 114 => V(rows[i]))
  }

  function Rows0(): (s: seq<Row>)
    ensures |s| == 19 && forall r :: r in s ==> SoundRow(r)
  {
    [
      Row(0x5a1d, 1, 1, true), Row(0x2586, 14, 2, false),
      Row(0x1114, 16, 3, false), Row(0x080b, 18, 4, false),
      Row(0x03d8, 20, 5, false), Row(0x01da, 23, 6, false),
      Row(0x00e5, 25, 7, false), Row(0x006f, 28, 8, false),
      Row(0x0036, 30, 9, false), Row(0x001a, 33, 10, false),
      Row(0x000d, 35, 11, false), Row(0x0006, 9, 12, false),
      Row(0x0003, 10, 13, false), Row(0x0001, 12, 13, false),
      Row(0x5a7f, 15, 15, true), Row(0x3f25, 36, 16, false),
      Row(0x2cf2, 38, 17, false), Row(0x207c, 39, 18, false),
      Row(0x17b9, 40, 19, false)
    ]
  }

  function Rows19(): (s: seq<Row>)
    ensures |s| == 19 && forall r :: r in s ==> SoundRow(r)
  {
    [
      Row(0x1182, 42, 20, false), Row(0x0cef, 43, 21, false),
      Row(0x09a1, 45, 22, false), Row(0x072f, 46, 23, false),
      Row(0x055c, 48, 24, false), Row(0x0406, 49, 25, false),
      Row(0x0303, 51, 26, false), Row(0x0240, 52, 27, false),
      Row(0x01b1, 54, 28, false), Row(0x0144, 56, 29, false),
      Row(0x00f5, 57, 30, false), Row(0x00b7, 59, 31, false),
      Row(0x008a, 60, 32, false), Row(0x0068, 62, 33, false),
      Row(0x004e, 63, 34, false), Row(0x003b, 32, 35, false),
      Row(0x002c, 33, 9, false), Row(0x5ae1, 37, 37, true),
      Row(0x484c, 64, 38, false)
    ]
  }

  function Rows38(): (s: seq<Row>)
    ensures |s| == 19 && forall r :: r in s ==> SoundRow(r)
  {
    [
      Row(0x3a0d, 65, 39, false), Row(0x2ef1, 67, 40, false),
      Row(0x261f, 68, 41, false), Row(0x1f33, 69, 42, false),
      Row(0x19a8, 70, 43, false), Row(0x1518, 72, 44, false),
      Row(0x1177, 73, 45, false), Row(0x0e74, 74, 46, false),
      Row(0x0bfb, 75, 47, false), Row(0x09f8, 77, 48, false),
      Row(0x0861, 78, 49, false), Row(0x0706, 79, 50, false),
      Row(0x05cd, 48, 51, false), Row(0x04de, 50, 52, false),
      Row(0x040f, 50, 53, false), Row(0x0363, 51, 54, false),
      Row(0x02d4, 52, 55, false), Row(0x025c, 53, 56, false),
      Row(0x01f8, 54, 57, false)
    ]
  }

  function Rows57(): (s: seq<Row>)
    ensures |s| == 19 && forall r :: r in s ==> SoundRow(r)
  {
    [
      Row(0x01a4, 55, 58, false), Row(0x0160, 56, 59, false),
      Row(0x0125, 57, 60, false), Row(0x00f6, 58, 61, false),
      Row(0x00cb, 59, 62, false), Row(0x00ab, 61, 63, false),
      Row(0x008f, 61, 32, false), Row(0x5b12, 65, 65, true),
      Row(0x4d04, 80, 66, false), Row(0x412c, 81, 67, false),
      Row(0x37d8, 82, 68, false), Row(0x2fe8, 83, 69, false),
      Row(0x293c, 84, 70, false), Row(0x2379, 86, 71, false),
      Row(0x1edf, 87, 72, false), Row(0x1aa9, 87, 73, false),
      Row(0x174e, 72, 74, false), Row(0x1424, 72, 75, false),
      Row(0x119c, 74, 76, false)
    ]
  }

  function Rows76(): (s: seq<Row>)
    ensures |s| == 19 && forall r :: r in s ==> SoundRow(r)
  {
    [
      Row(0x0f6b, 74, 77, false), Row(0x0d51, 75, 78, false),
      Row(0x0bb6, 77, 79, false), Row(0x0a40, 77, 48, false),
      Row(0x5832, 80, 81, true), Row(0x4d1c, 88, 82, false),
      Row(0x438e, 89, 83, false), Row(0x3bdd, 90, 84, false),
      Row(0x34ee, 91, 85, false), Row(0x2eae, 92, 86, false),
      Row(0x299a, 93, 87, false), Row(0x2516, 86, 71, false),
      Row(0x5570, 88, 89, true), Row(0x4ca9, 95, 90, false),
      Row(0x44d9, 96, 91, false), Row(0x3e22, 97, 92, false),
      Row(0x3824, 99, 93, false), Row(0x32b4, 99, 94, false),
      Row(0x2e17, 93, 86, false)
    ]
  }

  function Rows95(): (s: seq<Row>)
    ensures |s| == 19 && forall r :: r in s ==> SoundRow(r)
  {
    [
      Row(0x56a8, 95, 96, true), Row(0x4f46, 101, 97, false),
      Row(0x47e5, 102, 98, false), Row(0x41cf, 103, 99, false),
      Row(0x3c3d, 104, 100, false), Row(0x375e, 99, 93, false),
      Row(0x5231, 105, 102, false), Row(0x4c0f, 106, 103, false),
      Row(0x4639, 107, 104, false), Row(0x415e, 103, 99, false),
      Row(0x5627, 105, 106, true), Row(0x50e7, 108, 107, false),
      Row(0x4b85, 109, 103, false), Row(0x5597, 110, 109, false),
      Row(0x504f, 111, 107, false), Row(0x5a10, 110, 111, true),
      Row(0x5522, 112, 109, false), Row(0x59eb, 112, 111, true),
      Row(0x5a1d, 113, 113, false)
    ]
  }

  lemma AritabIsSound()
    ensures SoundTable(Aritab())
  {
    var rows := Rows0() + Rows19() + Rows38() + Rows57() + Rows76() + Rows95();
    forall i | 0 <= i < 114
      ensures SoundEntry(Aritab()[i])
    {
      assert rows[i] in rows;
      UnpackV(rows[i]);
    }
    UnpackV(rows[113]);
    assert rows[113] == Rows95()[18];
  }
}
