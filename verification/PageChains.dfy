/** Files as chains of pages: what CacheFile.cpp's linked blocks stand for. A page whose `next` is 0 ends its chain,
    and 0 is a page number as well. */
module PageChains {
  import opened Numbers

  const BLOCK_SIZE := 65528

  datatype Page = Page(next: nat, data: seq<byte>)

  type Pages = map<nat, Page>

  ghost predicate NoDuplicates<T>(s: seq<T>)
  {
    forall i, j :: 0 <= i < j < |s| ==> s[i] != s[j]
  }

  /** The pages c are linked in this order, and end where the links end. */
  ghost predicate IsChain(pages: Pages, c: seq<nat>)
  {
    |c| > 0 && NoDuplicates(c) && ZeroOnlyFirst(c) && Linked(pages, c, |c|)
  }

  ghost predicate ZeroOnlyFirst(c: seq<nat>)
  {
    forall i :: 0 < i < |c| ==> c[i] != 0
  }

  function NextIn(c: seq<nat>, i: nat): nat
  {
    if i + 1 < |c| then c[i + 1] else 0
  }

  /** The first n pages of c are linked. */
  ghost predicate Linked(pages: Pages, c: seq<nat>, n: nat)
  {
    n <= |c| && forall i :: 0 <= i < n ==> LinkedAt(pages, c, i)
  }

  ghost predicate LinkedAt(pages: Pages, c: seq<nat>, i: nat)
    requires i < |c|
  {
    c[i] in pages && pages[c[i]].next == NextIn(c, i)
  }

  /** The number of blocks that hold n bytes: one more than the full ones, even if nothing is left for it. */
  function BlocksFor(n: nat): (k: nat)
    ensures k > 0
  {
    1 + n / BLOCK_SIZE
  }

  /** What is copied to the block with the bytes from s on. */
  function CopySize(size: nat, s: nat): nat
    requires s <= size
  {
    if s + BLOCK_SIZE > size then size - s else BLOCK_SIZE
  }

  function Chunk(bytes: seq<byte>, i: nat): (c: seq<byte>)
    requires i * BLOCK_SIZE <= |bytes|
    ensures |c| <= BLOCK_SIZE
  {
    bytes[i * BLOCK_SIZE..i * BLOCK_SIZE + CopySize(|bytes|, i * BLOCK_SIZE)]
  }

  ghost predicate Holds(pages: Pages, c: seq<nat>, bytes: seq<byte>, n: nat)
    requires n <= |c| && n <= BlocksFor(|bytes|)
  {
    forall i :: 0 <= i < n ==> HoldsChunk(pages, c[i], bytes, i)
  }

  ghost predicate HoldsChunk(pages: Pages, nr: nat, bytes: seq<byte>, i: nat)
  {
    && nr in pages && |pages[nr].data| == BLOCK_SIZE
    && i * BLOCK_SIZE <= |bytes| && Chunk(bytes, i) <= pages[nr].data
  }

  /** The chain c stores these bytes. */
  ghost predicate Stores(pages: Pages, c: seq<nat>, bytes: seq<byte>)
  {
    IsChain(pages, c) && |bytes| > 0 && |c| == BlocksFor(|bytes|) && Holds(pages, c, bytes, |c|)
  }

  ghost predicate Disjoint(a: seq<nat>, b: seq<nat>)
  {
    forall n :: n in a ==> n !in b
  }

  /** Every file has a chain of its own, and every page belongs to the chain of its owner. */
  ghost predicate Filed(pages: Pages, chains: map<nat, seq<nat>>, files: map<nat, seq<byte>>,
      owner: map<nat, nat>)
  {
    && chains.Keys == files.Keys
    && (forall r :: r in files ==> Stores(pages, chains[r], files[r]) && chains[r][0] == r)
    && (forall r, q :: r in files && q in files && r != q ==> Disjoint(chains[r], chains[q]))
    && forall n {:trigger HasOwner(chains, owner, n)} :: n in pages ==> HasOwner(chains, owner, n)
  }

  ghost predicate HasOwner(chains: map<nat, seq<nat>>, owner: map<nat, nat>, n: nat)
  {
    n in owner && owner[n] in chains && n in chains[owner[n]]
  }

  /** All pages of c belong to r. */
  ghost function Owned(owner: map<nat, nat>, c: seq<nat>, r: nat): map<nat, nat>
  {
    map n | n in owner.Keys + (set m | m in c) :: if n in c then r else owner[n]
  }

  // ---- The allocator, and the store as a value ----

  /** The free pages in the order of their use, and the number of all pages. */
  datatype Allocator = Allocator(free: seq<nat>, count: nat)

  function FirstPage(a: Allocator): nat
  {
    if a.free != [] then a.free[0] else a.count
  }

  function TakeOne(a: Allocator): Allocator
  {
    if a.free != [] then Allocator(a.free[1..], a.count) else Allocator([], a.count + 1)
  }

  /** The pages that the next n allocations hand out. */
  function Upcoming(a: Allocator, n: nat): (u: seq<nat>)
    ensures |u| == n
    decreases n
  {
    if n == 0 then [] else [FirstPage(a)] + Upcoming(TakeOne(a), n - 1)
  }

  /** What n allocations leave. */
  function Used(a: Allocator, n: nat): Allocator
    decreases n
  {
    if n == 0 then a else Used(TakeOne(a), n - 1)
  }

  lemma {:induction false} UpcomingSnoc(a: Allocator, n: nat)
    ensures Upcoming(a, n + 1) == Upcoming(a, n) + [FirstPage(Used(a, n))]
    ensures Used(a, n + 1) == TakeOne(Used(a, n))
    decreases n
  {
    if n == 0 {
      assert Upcoming(TakeOne(a), 0) == [] && Used(TakeOne(a), 0) == TakeOne(a);
    } else {
      UpcomingSnoc(TakeOne(a), n - 1);
    }
  }

  /** The pages that hold these bytes when they are written next. */
  function ChainFor(a: Allocator, data: seq<byte>): (c: seq<nat>)
    ensures |c| == BlocksFor(|data|)
  {
    Upcoming(a, BlocksFor(|data|))
  }

  /** Writing these bytes does not need page 0 as a continuation page. */
  ghost predicate Sound(a: Allocator, data: seq<byte>)
  {
    data != [] ==> ZeroOnlyFirst(ChainFor(a, data))
  }

  /** The files of a store by their first pages, the pages of each, and the pages that come next. */
  datatype Store = Store(files: map<nat, seq<byte>>, chains: map<nat, seq<nat>>, alloc: Allocator)

  /** writeFile */
  function Wrote(s: Store, data: seq<byte>): Store
  {
    if data == [] then s
    else
      var c := ChainFor(s.alloc, data);
      Store(s.files[c[0] := data], s.chains[c[0] := c], Used(s.alloc, |c|))
  }

  /** deleteFile: the pages of the file go to the end of the free list. */
  function Removed(s: Store, nr: nat): Store
  {
    if nr in s.files && nr in s.chains then
      Store(s.files - {nr}, s.chains - {nr}, s.alloc.(free := s.alloc.free + s.chains[nr]))
    else s
  }

  // ---- Chains stay as they are when other pages change ----

  ghost predicate SameOn(before: Pages, after: Pages, c: seq<nat>)
  {
    forall n :: n in c ==> n in before && n in after && before[n] == after[n]
  }

  lemma StoresKept(before: Pages, after: Pages, c: seq<nat>, bytes: seq<byte>)
    requires Stores(before, c, bytes) && SameOn(before, after, c)
    ensures Stores(after, c, bytes)
  {
    forall i | 0 <= i < |c| ensures LinkedAt(after, c, i) && HoldsChunk(after, c[i], bytes, i) {
      assert c[i] in c && LinkedAt(before, c, i) && HoldsChunk(before, c[i], bytes, i);
    }
  }

  lemma AddFile(before: Pages, after: Pages, chains: map<nat, seq<nat>>, files: map<nat, seq<byte>>, owner: map<nat, nat>,
      c: seq<nat>, bytes: seq<byte>)
    requires Filed(before, chains, files, owner) && Stores(after, c, bytes) && Extends(before, after, c)
    ensures c[0] !in files
    ensures Filed(after, chains[c[0] := c], files[c[0] := bytes], Owned(owner, c, c[0]))
  {
    hide Stores, Disjoint;
    PagesOf(after, c, bytes);
    hide HasOwner, Owned;
    forall r | r in files
      ensures r != c[0] && Stores(after, chains[r], files[r]) && Disjoint(chains[r], c) && Disjoint(c, chains[r])
    {
      PagesOf(before, chains[r], files[r]);
      StillThere(before, after, chains[r], files[r], c);
    }
    OwnersMore(before, after, chains, files, owner, c);
  }

  lemma OwnersMore(before: Pages, after: Pages, chains: map<nat, seq<nat>>, files: map<nat, seq<byte>>,
      owner: map<nat, nat>, c: seq<nat>)
    requires Filed(before, chains, files, owner) && |c| > 0 && c[0] !in chains && Extends(before, after, c)
    ensures forall n {:trigger HasOwner(chains[c[0] := c], Owned(owner, c, c[0]), n)} :: n in after ==>
      HasOwner(chains[c[0] := c], Owned(owner, c, c[0]), n)
  {
    hide Stores, Disjoint;
    forall n | n in after ensures HasOwner(chains[c[0] := c], Owned(owner, c, c[0]), n) {
      assert n !in c ==> HasOwner(chains, owner, n);
    }
  }

  /** A new chain does not begin where a file begins. */
  lemma NewFile(before: Pages, after: Pages, chains: map<nat, seq<nat>>, files: map<nat, seq<byte>>, owner: map<nat, nat>,
      c: seq<nat>)
    requires Filed(before, chains, files, owner) && |c| > 0 && Extends(before, after, c)
    ensures c[0] !in files
  {
    hide Stores, Disjoint;
    assert c[0] in c;
    if c[0] in files {
      PagesOf(before, chains[c[0]], files[c[0]]);
    }
  }

  lemma StillThere(before: Pages, after: Pages, d: seq<nat>, bytes: seq<byte>, c: seq<nat>)
    requires Stores(before, d, bytes)
    requires forall n :: n in before ==> n !in c && n in after && after[n] == before[n]
    ensures Stores(after, d, bytes) && Disjoint(d, c) && Disjoint(c, d)
  {
    PagesOf(before, d, bytes);
    StoresKept(before, after, d, bytes);
  }

  lemma PagesOf(pages: Pages, c: seq<nat>, bytes: seq<byte>)
    requires Stores(pages, c, bytes)
    ensures |c| > 0 && c[0] in c && forall n :: n in c ==> n in pages
  {
    assert forall i :: 0 <= i < |c| ==> LinkedAt(pages, c, i) ==> c[i] in pages;
  }

  lemma RemoveFile(before: Pages, after: Pages, chains: map<nat, seq<nat>>, files: map<nat, seq<byte>>,
      owner: map<nat, nat>, nr: nat)
    requires Filed(before, chains, files, owner) && nr in files
    requires nr in chains && Shrunk(before, after, chains[nr], |chains[nr]|)
    ensures Filed(after, chains - {nr}, files - {nr}, owner)
  {
    hide Stores;
    assert chains[nr][..|chains[nr]|] == chains[nr];
    var chains', files' := chains - {nr}, files - {nr};
    forall r | r in files' ensures Stores(after, chains'[r], files'[r]) {
      PagesOf(before, chains[r], files[r]);
      assert Disjoint(chains[r], chains[nr]);
      StoresKept(before, after, chains[r], files[r]);
    }
    forall n | n in after ensures HasOwner(chains', owner, n) {
      assert HasOwner(chains, owner, n);
    }
  }

  // ---- Reading and writing chunk by chunk ----

  lemma NextChunk(bytes: seq<byte>, i: nat, s: nat)
    requires s == i * BLOCK_SIZE <= |bytes|
    ensures bytes[..s] + Chunk(bytes, i) == bytes[..s + CopySize(|bytes|, s)]
    ensures |Chunk(bytes, i)| == CopySize(|bytes|, s)
  {
  }

  /** Pages c have been allocated; all but the last are filled and linked, and the pages there were are the same. */
  ghost predicate Writing(start: Pages, pages: Pages, c: seq<nat>, data: seq<byte>)
  {
    && 0 < |c| <= BlocksFor(|data|) && NoDuplicates(c)
    && Linked(pages, c, |c| - 1) && Holds(pages, c, data, |c| - 1)
    && Extends(start, pages, c)
  }

  ghost predicate Extends(start: Pages, pages: Pages, c: seq<nat>)
  {
    && (forall n :: n in start ==> n !in c && n in pages && pages[n] == start[n])
    && (forall n :: n in pages ==> n in start || n in c)
    && forall n :: n in c ==> n in pages
  }

  /** Only the page nr has changed, and now holds this chunk. */
  ghost predicate Filled(before: Pages, after: Pages, nr: nat, data: seq<byte>, i: nat, next: nat)
  {
    && HoldsChunk(after, nr, data, i) && after[nr].next == next
    && forall n :: n in before && n != nr ==> n in after && after[n] == before[n]
  }

  lemma WritingStarts(start: Pages, pages: Pages, nr: nat, data: seq<byte>)
    requires nr !in start && nr in pages && pages == start[nr := pages[nr]]
    ensures Writing(start, pages, [nr], data)
  {
  }

  lemma WriteStep(start: Pages, before: Pages, after: Pages, c: seq<nat>, data: seq<byte>, next: nat)
    requires Writing(start, before, c, data) && |c| < BlocksFor(|data|)
    requires next !in before && after.Keys == before.Keys + {next}
    requires Filled(before, after, c[|c| - 1], data, |c| - 1, next)
    ensures Writing(start, after, c + [next], data)
  {
    hide HoldsChunk;
    var last, d := |c| - 1, c + [next];
    assert c[last] in c && forall i :: 0 <= i < |c| ==> c[i] in c;
    forall i | 0 <= i < |c| ensures LinkedAt(after, d, i) && HoldsChunk(after, d[i], data, i) {
      if i < last {
        assert LinkedAt(before, c, i) && HoldsChunk(before, c[i], data, i);
        Unchanged(before, after, c[i], data, i);
      }
    }
  }

  lemma Unchanged(before: Pages, after: Pages, nr: nat, data: seq<byte>, i: nat)
    requires HoldsChunk(before, nr, data, i) && nr in after && after[nr] == before[nr]
    ensures HoldsChunk(after, nr, data, i)
  {
  }

  lemma WriteLast(start: Pages, before: Pages, after: Pages, c: seq<nat>, data: seq<byte>)
    requires Writing(start, before, c, data) && |c| == BlocksFor(|data|)
    requires after.Keys == before.Keys && Filled(before, after, c[|c| - 1], data, |c| - 1, 0)
    ensures NoDuplicates(c) && Linked(after, c, |c|) && Holds(after, c, data, |c|) && Extends(start, after, c)
  {
    hide HoldsChunk, Chunk, Extends;
    var last := |c| - 1;
    StillExtends(start, before, after, c, last);
    AllIn(start, before, c);
    forall i | 0 <= i < |c| ensures LinkedAt(after, c, i) && HoldsChunk(after, c[i], data, i) {
      if i < last {
        assert LinkedAt(before, c, i) && HoldsChunk(before, c[i], data, i);
        Unchanged(before, after, c[i], data, i);
      }
    }
  }

  lemma StillExtends(start: Pages, before: Pages, after: Pages, c: seq<nat>, i: nat)
    requires Extends(start, before, c) && i < |c| && after.Keys == before.Keys
    requires forall n :: n in before && n != c[i] ==> after[n] == before[n]
    ensures Extends(start, after, c)
  {
    assert c[i] in c;
  }

  lemma AllIn(start: Pages, pages: Pages, c: seq<nat>)
    requires Extends(start, pages, c)
    ensures forall i :: 0 <= i < |c| ==> c[i] in pages
  {
  }

  // ---- Deleting page by page ----

  /** The first i pages of c are gone, the others are as they were. */
  ghost predicate Shrunk(start: Pages, pages: Pages, c: seq<nat>, i: nat)
  {
    && i <= |c|
    && (forall n :: n in start && n !in c[..i] ==> n in pages && pages[n] == start[n])
    && forall n :: n in pages ==> n in start && n !in c[..i]
  }

  lemma ShrunkNone(pages: Pages, c: seq<nat>)
    ensures Shrunk(pages, pages, c, 0)
  {
  }

  lemma ShrinkStep(start: Pages, before: Pages, c: seq<nat>, i: nat)
    requires Shrunk(start, before, c, i) && i < |c|
    ensures Shrunk(start, before - {c[i]}, c, i + 1)
  {
    assert c[..i + 1] == c[..i] + [c[i]];
  }

  lemma StillIn(start: Pages, pages: Pages, c: seq<nat>, i: nat)
    requires Shrunk(start, pages, c, i) && i < |c| && NoDuplicates(c) && c[i] in start
    ensures c[i] in pages && pages[c[i]] == start[c[i]]
  {
  }

  lemma AtChunk(pages: Pages, c: seq<nat>, bytes: seq<byte>, i: nat)
    requires Stores(pages, c, bytes) && i < |c|
    ensures |c| == BlocksFor(|bytes|) && i * BLOCK_SIZE <= |bytes|
    ensures c[i] in pages && |pages[c[i]].data| == BLOCK_SIZE && Chunk(bytes, i) <= pages[c[i]].data
    ensures if i + 1 < |c| then pages[c[i]].next == c[i + 1] != 0 else pages[c[i]].next == 0
  {
    assert LinkedAt(pages, c, i) && HoldsChunk(pages, c[i], bytes, i);
  }

  /** A chunk is full unless it is the last one. */
  lemma FullChunk(n: nat, i: nat)
    requires i < BlocksFor(n)
    ensures i * BLOCK_SIZE <= n && if i + 1 < BlocksFor(n) then (i + 1) * BLOCK_SIZE <= n else i * BLOCK_SIZE + BLOCK_SIZE > n
  {
  }

  // ---- What goes wrong with page 0 ----

  /** The pages that following the links visits, at most n. */
  function Walk(pages: Pages, nr: nat, n: nat): seq<nat>
    decreases n
  {
    if n == 0 || nr !in pages then []
    else if pages[nr].next == 0 then [nr]
    else [nr] + Walk(pages, pages[nr].next, n - 1)
  }

  /** Pages linked one to the next are all found again if and only if none but the first is page 0. */
  lemma {:induction false} FoundAgain(pages: Pages, c: seq<nat>, n: nat)
    requires 0 < |c| <= n && Linked(pages, c, |c|)
    ensures Walk(pages, c[0], n) == c <==> ZeroOnlyFirst(c)
    decreases n
  {
    assert LinkedAt(pages, c, 0);
    var walk := Walk(pages, c[0], n);
    if |c| > 1 {
      assert pages[c[0]].next == c[1];
      if c[1] != 0 {
        var d := c[1..];
        forall i | 0 <= i < |d| ensures LinkedAt(pages, d, i) {
          assert LinkedAt(pages, c, i + 1);
          assert d[i] == c[i + 1] && NextIn(d, i) == NextIn(c, i + 1);
        }
        FoundAgain(pages, d, n - 1);
        assert walk == [c[0]] + Walk(pages, d[0], n - 1) && c == [c[0]] + d;
        assert walk[1..] == Walk(pages, d[0], n - 1);
        if ZeroOnlyFirst(d) {
          assert forall i :: 1 < i < |c| ==> c[i] == d[i - 1];
        }
        if ZeroOnlyFirst(c) {
          assert forall i :: 0 < i < |d| ==> d[i] == c[i + 1];
        }
      } else {
        assert walk == [c[0]];
      }
    }
  }

  /** While nothing has been freed, page 0 is at most the first page of a file. */
  lemma {:induction false} NothingFreed(count: nat, n: nat)
    ensures forall i :: 0 <= i < n ==> Upcoming(Allocator([], count), n)[i] == count + i
    ensures ZeroOnlyFirst(Upcoming(Allocator([], count), n)) && Used(Allocator([], count), n) == Allocator([], count + n)
    decreases n
  {
    if n > 0 {
      NothingFreed(count + 1, n - 1);
    }
  }

  /** Pages come from the free list first, and then from the end. */
  lemma {:induction false} UpcomingAre(a: Allocator, n: nat)
    ensures forall i :: 0 <= i < n ==> Upcoming(a, n)[i] == if i < |a.free| then a.free[i] else a.count + i - |a.free|
    ensures Used(a, n).free == a.free[if n < |a.free| then n else |a.free|..]
    ensures Used(a, n).count == a.count + if n < |a.free| then 0 else n - |a.free|
    decreases n
  {
    if n > 0 {
      UpcomingAre(TakeOne(a), n - 1);
    }
  }

  /** What can be told from the free list before writing: page 0 must not be in it where a continuation page is taken. */
  lemma SoundIff(a: Allocator, data: seq<byte>)
    requires a.free != [] ==> a.count > 0
    ensures Sound(a, data) <==>
      data == [] || forall i :: 0 < i < BlocksFor(|data|) && i < |a.free| ==> a.free[i] != 0
  {
    var n := BlocksFor(|data|);
    UpcomingAre(a, n);
    if data != [] && ZeroOnlyFirst(ChainFor(a, data)) {
      forall i | 0 < i < n && i < |a.free| ensures a.free[i] != 0 {
        assert ChainFor(a, data)[i] == a.free[i];
      }
    }
  }
}
