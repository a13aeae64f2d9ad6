/** Scan scripts: any legal order of first and refinement scans brings every coefficient to its last bit position. */
module ProgressiveScript {
  import opened Numbers
  import opened JpegScan
  import opened ScanCoding

  /** For each coefficient in scan order, the bit position it has been brought to, -1 before its first scan. */
  type Progress = seq<int>

  ghost predicate AllAt(at: Progress, p: int)
  {
    |at| == 64 && forall k :: 0 <= k < 64 ==> at[k] == p
  }

  /** The value of coefficient k of the source, cut off at bit position p: DC values by an arithmetic shift,
      AC values as sign times shifted magnitude. */
  function CutOff(x: Block, order: seq<nat>, k: nat, p: int): int
    requires |x| == |order| == 64 && k < 64 && p >= -1 && forall i :: 0 <= i < 64 ==> order[i] < 64
  {
    if p < 0 then 0
    else if k == 0 then x[order[0]] / Pow2(p) * Pow2(p)
    else Quot(x[order[k]], p) * Pow2(p)
  }

  ghost predicate IsProgress(at: Progress)
  {
    |at| == 64 && forall k :: 0 <= k < 64 ==> at[k] >= -1
  }

  /** The decoder holds every coefficient of x down to its bit position. */
  ghost predicate Shows(x: Block, held: Block, order: seq<nat>, at: Progress)
  {
    && |x| == |held| == 64 && IsOrder(order) && IsProgress(at)
    && forall k :: 0 <= k < 64 ==> held[order[k]] == CutOff(x, order, k, at[k])
  }

  /** What has not been sent yet is zero. */
  ghost predicate Blank(held: Block, order: seq<nat>, at: Progress)
  {
    && |held| == 64 && IsOrder(order) && IsProgress(at)
    && forall k :: 0 <= k < 64 && at[k] == -1 ==> held[order[k]] == 0
  }

  predicate Touches(s: Scan, k: nat)
  {
    if k == 0 then s.ss == 0 else InBand(s, k)
  }

  /** A first scan takes up coefficients that have not been sent; a refinement lowers a position by one. */
  ghost predicate Legal(s: Scan, at: Progress)
  {
    && ValidScan(s) && IsProgress(at)
    && (s.ah != 0 ==> s.ah == s.al + 1)
    && forall k :: 0 <= k < 64 && Touches(s, k) ==> at[k] == if s.ah == 0 then -1 else s.ah
  }

  function Advanced(s: Scan, at: Progress): (r: Progress)
    requires |at| == 64
    ensures |r| == 64
  {
    seq(64, k requires 0 <= k < 64 => if Touches(s, k) then Position(s) else at[k])
  }

  /** A legal scan finds in the decoder what it expects there. */
  lemma LegalExpected(s: Scan, x: Block, held: Block, at: Progress)
    requires Legal(s, at) && Shows(x, held, s.order, at)
    ensures Expected(s, x, held)
  {
    forall k | 0 <= k < 64 && Touches(s, k)
      ensures held[s.order[k]] == CutOff(x, s.order, k, if s.ah == 0 then -1 else s.ah)
    {
    }
    assert Touches(s, 0) <==> s.ss == 0;
    forall k | 0 < k < 64 && InBand(s, k)
      ensures held[s.order[k]] == if s.ah == 0 then 0 else Quot(x[s.order[k]], s.ah) * Pow2(s.ah)
    {
      assert Touches(s, k);
    }
  }

  /** A scan that only takes up new coefficients, or only DC bits, can be read into a block whose other coefficients
      are not those of the source. */
  lemma BlankNeeds(s: Scan, x: Block, held: Block, at: Progress)
    requires Legal(s, at) && Blank(held, s.order, at) && |x| == 64 && !KindOf(s).AcRefine?
    ensures Needs(s, x, held)
  {
    forall k | 0 < k < 64 && InBand(s, k)
      ensures s.ah == 0 ==> held[s.order[k]] == 0
    {
      assert Touches(s, k);
    }
  }

  /** A legal scan takes a block of the source to the next bit positions. */
  lemma ScanAdvances(s: Scan, x: Block, held: Block, after: Block, at: Progress)
    requires Legal(s, at) && Shows(x, held, s.order, at) && ScanDone(s, x, held, after)
    ensures Shows(x, after, s.order, Advanced(s, at))
  {
    LegalExpected(s, x, held, at);
    forall k | 0 <= k < 64
      ensures after[s.order[k]] == CutOff(x, s.order, k, Advanced(s, at)[k])
    {
      assert held[s.order[k]] == CutOff(x, s.order, k, at[k]);
    }
  }

  lemma BlankAfter(s: Scan, x: Block, held: Block, after: Block, at: Progress)
    requires Legal(s, at) && Blank(held, s.order, at) && |x| == 64 && ScanDone(s, x, held, after)
    ensures Blank(after, s.order, Advanced(s, at))
  {
    forall k | 0 <= k < 64 && Advanced(s, at)[k] == -1
      ensures after[s.order[k]] == 0
    {
      assert !Touches(s, k) && at[k] == -1;
    }
  }

  // ---- A block brought to position 0 is the block of the source ----

  function Below(n: nat): (s: set<nat>)
    ensures |s| == n && forall i :: i in s <==> 0 <= i < n
  {
    if n == 0 then {} else Below(n - 1) + {n - 1}
  }

  /** The places of the first n positions. */
  function PlacesOf(order: seq<nat>, n: nat): (s: set<nat>)
    requires IsOrder(order) && n <= 64
    ensures |s| == n && s <= Below(64) && forall i :: i in s ==> i in order[..n]
  {
    if n == 0 then {}
    else
      assert order[..n] == order[..n - 1] + [order[n - 1]];
      PlacesOf(order, n - 1) + {order[n - 1]}
  }

  lemma SubsetOfSize(a: set<nat>, b: set<nat>)
    requires a <= b && |a| == |b|
    ensures a == b
  {
    if a != b {
      var x :| x in b && x !in a;
      assert a <= b - {x};
      SubsetSize(a, b - {x});
    }
  }

  lemma {:induction false} SubsetSize(a: set<nat>, b: set<nat>)
    requires a <= b
    ensures |a| <= |b|
    decreases |a|
  {
    if a != {} {
      var x :| x in a;
      SubsetSize(a - {x}, b - {x});
    }
  }

  /** A natural order has a position for every place. */
  lemma PositionOf(order: seq<nat>, i: nat) returns (k: nat)
    requires IsOrder(order) && i < 64
    ensures k < 64 && order[k] == i
  {
    SubsetOfSize(PlacesOf(order, 64), Below(64));
    assert i in order[..64];
    k :| 0 <= k < 64 && order[k] == i;
  }

  /** Brought to position 0 in all coefficients, a block is exactly that of the source. */
  lemma CompleteBlock(x: Block, held: Block, order: seq<nat>, at: Progress)
    requires Shows(x, held, order, at) && AllAt(at, 0)
    ensures held == x
  {
    assert Pow2(0) == 1;
    forall i | 0 <= i < 64 ensures held[i] == x[i] {
      var k := PositionOf(order, i);
      QuotByOne(x[order[k]]);
      assert held[order[k]] == CutOff(x, order, k, 0);
    }
  }
}
