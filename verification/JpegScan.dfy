/** The parameters of a scan that the entropy coder reads from the compressor object. */
module JpegScan {
  import opened Numbers

  type Block = seq<int>

  datatype Component = Component(dcTbl: nat, acTbl: nat)

  /** `order` is the natural order; dcL, dcU and acK are the conditioning values per table. */
  datatype Scan = Scan(progressive: bool, comps: seq<Component>, membership: seq<nat>, order: seq<nat>,
                       dcL: seq<nat>, dcU: seq<nat>, acK: seq<nat>,
                       ss: nat, se: nat, ah: nat, al: nat, limSe: nat, restartInterval: nat)

  /** A natural order visits distinct places of the block and starts with the DC coefficient. */
  ghost predicate IsOrder(order: seq<nat>)
  {
    && |order| == 64 && order[0] == 0
    && (forall i :: 0 <= i < 64 ==> order[i] < 64)
    && (forall i, j :: 0 <= i < j < 64 ==> order[i] != order[j])
  }

  ghost predicate ValidScan(s: Scan)
  {
    && IsOrder(s.order)
    && |s.comps| > 0
    && (forall i :: 0 <= i < |s.comps| ==> s.comps[i].dcTbl < 16 && s.comps[i].acTbl < 16)
    && (forall i :: 0 <= i < |s.membership| ==> s.membership[i] < |s.comps|)
    && |s.dcL| == |s.dcU| == |s.acK| == 16
    && s.se < 64 && s.limSe < 64
    && (!s.progressive ==> s.ss == 0 && s.ah == 0 && (s.limSe > 0 ==> s.se > 0))
    && (s.progressive ==> (if s.ss == 0 then s.se == 0 else s.ss <= s.se && |s.membership| == 1 && s.membership[0] == 0))
  }

  /** Which of the encoding routines start_pass selects. */
  datatype Kind = Sequential | DcFirst | AcFirst | DcRefine | AcRefine

  function KindOf(s: Scan): Kind
  {
    if !s.progressive then Sequential
    else if s.ah == 0 then if s.ss == 0 then DcFirst else AcFirst
    else if s.ss == 0 then DcRefine else AcRefine
  }

  /** A JCOEF is a 16-bit integer. */
  ghost predicate IsBlock(b: Block)
  {
    |b| == 64 && forall i :: 0 <= i < 64 ==> -0x8000 <= b[i] < 0x8000
  }

  function Abs(x: int): nat
  {
    if x < 0 then -x else x
  }

  /** The point transform of AC coefficients (section G.1.2.1): divide by 2^al, rounding towards zero. */
  function Quot(x: int, al: nat): int
  {
    if x < 0 then -(Abs(x) / Pow2(al)) else Abs(x) / Pow2(al)
  }

  lemma QuotByOne(x: int)
    ensures Quot(x, 0) == x && Quot(x, 0) * Pow2(0) == x
  {
    assert Pow2(0) == 1;
  }

  lemma QuotBound(x: int, al: nat)
    ensures Abs(Quot(x, al)) <= Abs(x)
  {
    DivAtMost(Abs(x), Pow2(al));
    var q := Abs(x) / Pow2(al);
    assert Abs(q) == q && Abs(-q) == q;
  }

  /** The coefficients 0..se of a block in scan order, after the point transform. */
  function Scanned(b: Block, order: seq<nat>, al: nat, se: nat): (z: seq<int>)
    requires |b| == 64 && |order| == 64 && se < 64 && forall i :: 0 <= i < 64 ==> order[i] < 64
    ensures |z| == se + 1 && forall k :: 0 <= k <= se ==> z[k] == Quot(b[order[k]], al)
  {
    seq(se + 1, k requires 0 <= k <= se => Quot(b[order[k]], al))
  }
}
