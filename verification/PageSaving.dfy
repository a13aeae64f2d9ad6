/** What the page loop of FreeImage_SaveMultiBitmapToHandle saves. */
module PageSaving {
  import opened Numbers
  import opened PageChains
  import opened PageList

  type Saver = (DocPage, nat) -> bool

  /** Pages with consecutive numbers. */
  function Numbered(d: seq<DocPage>): seq<(DocPage, nat)>
  {
    seq(|d|, i requires 0 <= i < |d| => (d[i], i))
  }

  lemma NumberedSnoc(d: seq<DocPage>, n: nat)
    requires n < |d|
    ensures Numbered(d[..n + 1]) == Numbered(d[..n]) + [(d[n], n)]
  {
  }

  /** Where the loop ends: behind the first block whose last page fails. */
  function StopAt(list: seq<Node>, d: seq<DocPage>, accepts: Saver, n: int): int
  {
    if list == [] then n
    else
      var m := n + PageCount(list[0].block);
      if 0 < m <= |d| && !accepts(d[m - 1], m - 1) then m else StopAt(list[1..], d, accepts, m)
  }

  ghost predicate ValidBlocks(list: seq<Node>, files: Files)
  {
    forall n :: n in list ==> ValidBlock(n.block, files)
  }

  lemma {:induction false} StopWithin(list: seq<Node>, files: Files, d: seq<DocPage>, accepts: Saver, n: nat)
    requires ValidBlocks(list, files)
    ensures n + |list| <= n + Count(list) && n <= StopAt(list, d, accepts, n) <= n + Count(list)
  {
    if list != [] {
      assert list[0] in list;
      StopWithin(list[1..], files, d, accepts, n + PageCount(list[0].block));
    }
  }

  /** The first m pages are whole blocks. */
  ghost predicate EndsBlock(list: seq<Node>, m: int)
  {
    exists i :: 0 <= i <= |list| && Count(list[..i]) == m
  }

  ghost predicate AllBefore(d: seq<DocPage>, accepts: Saver, k: nat)
  {
    forall j: nat :: j < k && j < |d| ==> accepts(d[j], j)
  }

  /** Without a failure every page is saved. */
  lemma {:induction false} AllSaved(list: seq<Node>, files: Files, d: seq<DocPage>, accepts: Saver, n: nat)
    requires ValidBlocks(list, files) && AllBefore(d, accepts, |d|) && n + Count(list) == |d|
    ensures StopAt(list, d, accepts, n) == |d|
  {
    if list != [] {
      assert list[0] in list;
      StopWithin(list[1..], files, d, accepts, n + PageCount(list[0].block));
      AllSaved(list[1..], files, d, accepts, n + PageCount(list[0].block));
    }
  }

  /** Saving stops right after the first page that fails if and only if this page is the last one of its block: a
      block of several source pages is saved to its end, whatever happens within it. */
  lemma {:induction false} StopsAtFailure(list: seq<Node>, files: Files, d: seq<DocPage>, accepts: Saver, n: nat, k: nat)
    requires ValidBlocks(list, files) && n + Count(list) == |d| && n <= k < |d|
    requires AllBefore(d, accepts, k) && !accepts(d[k], k)
    ensures StopAt(list, d, accepts, n) == k + 1 <==> EndsBlock(list, k + 1 - n)
  {
    assert list[0] in list;
    var rest, m := list[1..], n + PageCount(list[0].block);
    StopWithin(rest, files, d, accepts, m);
    assert Count(list[..1]) == PageCount(list[0].block) by { DenoteOne(list[0]); }
    if m <= k {
      StopsAtFailure(rest, files, d, accepts, m, k);
      EndsLater(list, files, k + 1 - n);
    } else if m == k + 1 {
      assert Count(list[..1]) == k + 1 - n;
    } else {
      forall i | 0 <= i <= |list| ensures Count(list[..i]) != k + 1 - n {
        if i > 0 {
          assert list[..i][0] == list[0] && list[..i][1..] == rest[..i - 1];
          StopWithin(rest[..i - 1], files, d, accepts, 0);
        }
      }
    }
  }

  lemma EndsLater(list: seq<Node>, files: Files, m: int)
    requires ValidBlocks(list, files) && list != [] && m > PageCount(list[0].block)
    ensures EndsBlock(list, m) <==> EndsBlock(list[1..], m - PageCount(list[0].block))
  {
    assert list[0] in list;
    var rest, c := list[1..], PageCount(list[0].block);
    forall i | 0 <= i <= |rest| ensures Count(list[..i + 1]) == c + Count(rest[..i]) {
      assert list[..i + 1][0] == list[0] && list[..i + 1][1..] == rest[..i];
    }
    if EndsBlock(list, m) {
      var i :| 0 <= i <= |list| && Count(list[..i]) == m;
      assert i > 0;
      assert Count(rest[..i - 1]) == m - c;
    }
    if EndsBlock(rest, m - c) {
      var i :| 0 <= i <= |rest| && Count(rest[..i]) == m - c;
      assert Count(list[..i + 1]) == m;
    }
  }

  /** Two source pages in one block, of which the first fails: both are attempted, and the failure is forgotten. */
  lemma FailureForgotten()
    ensures var d, list := [Source(0), Source(1)], [Node(0, Continuous(0, 1))];
      var accepts: Saver := (p, n) => n != 0;
      Seen(Denote(list), map[]) == d && !accepts(d[0], 0)
      && StopAt(list, d, accepts, 0) == 2 && accepts(d[1], 1)
  {
    DenoteOne(Node(0, Continuous(0, 1)));
    assert Range(0, 1) == [OfSource(0), OfSource(1)];
    var d, list := [Source(0), Source(1)], [Node(0, Continuous(0, 1))];
    var accepts: Saver := (p, n) => n != 0;
    assert StopAt(list[1..], d, accepts, 2) == 2;
  }

  lemma SeenSlice(places: seq<PageAt>, files: Files, lo: nat, hi: nat)
    requires lo <= hi <= |places|
    ensures Seen(places, files)[lo..hi] == Seen(places[lo..hi], files)
  {
  }

  /** The pages of block i in the sequence. */
  lemma BlockPages(list: seq<Node>, files: Files, i: nat)
    requires ValidBlocks(list, files) && i < |list|
    ensures var n, c := Count(list[..i]), PageCount(list[i].block);
      0 <= n && 0 < c && n + c <= |Denote(list)|
      && Seen(Denote(list), files)[n..n + c] == Seen(PagesIn(list[i].block), files)
  {
    PlacesOfBlock(list, files, i);
    hide Denote, Count, Seen, PagesIn;
    SeenSlice(Denote(list), files, Count(list[..i]), Count(list[..i]) + PageCount(list[i].block));
  }

  lemma PlacesOfBlock(list: seq<Node>, files: Files, i: nat)
    requires ValidBlocks(list, files) && i < |list|
    ensures var n, c := Count(list[..i]), PageCount(list[i].block);
      0 <= n && 0 < c && n + c <= |Denote(list)| && Denote(list)[n..n + c] == PagesIn(list[i].block)
  {
    var b := list[i];
    assert list == list[..i] + [b] + list[i + 1..] && b in list;
    assert forall m :: m in list[..i] ==> m in list;
    assert |PagesIn(b.block)| == PageCount(b.block) > 0;
    hide Denote, Count, PagesIn, PageCount;
    DenoteParts(list[..i], [b], list[i + 1..]);
    DenoteOne(b);
    CountIsLength(list[..i], files);
    Middle(Denote(list[..i]), PagesIn(b.block), Denote(list[i + 1..]));
  }

  lemma Middle(x: seq<PageAt>, y: seq<PageAt>, z: seq<PageAt>)
    ensures (x + y + z)[|x|..|x| + |y|] == y
  {
  }
}
