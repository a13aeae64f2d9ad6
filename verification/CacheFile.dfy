/** The paged store of CacheFile.cpp: blocks in a bounded memory list and on disk, a page map, a free list, and
    files as chains of blocks. */
module CacheFile {
  import opened Numbers
  import opened PageChains

  const CACHE_SIZE := 32

  /** A block; its data is [] while it is swapped out. */
  class Block {
    var nr: nat
    var next: nat
    var data: seq<byte>

    constructor (nr: nat, data: seq<byte>)
      ensures this.nr == nr && next == 0 && this.data == data
    {
      this.nr, next, this.data := nr, 0, data;
    }
  }

  function Without<T(==)>(s: seq<T>, x: T): (r: seq<T>)
    ensures |r| <= |s|
  {
    if s == [] then [] else if s[0] == x then Without(s[1..], x) else [s[0]] + Without(s[1..], x)
  }

  lemma WithoutIs<T>(s: seq<T>, x: T)
    ensures forall y :: y in Without(s, x) <==> y in s && y != x
    ensures NoDuplicates(s) ==> NoDuplicates(Without(s, x))
  {
    if s != [] {
      WithoutIs(s[1..], x);
      if NoDuplicates(s) {
        assert forall y :: y in s[1..] ==> y != s[0];
        var r := Without(s[1..], x);
        forall i, j | 0 <= i < j < |[s[0]] + r| ensures ([s[0]] + r)[i] != ([s[0]] + r)[j] {
          assert i == 0 ==> r[j - 1] in r;
        }
      }
    }
  }

  /** The page that a block stands for, here or in the file. */
  ghost predicate Represents(b: Block, page: Page, file: map<nat, seq<byte>>)
    reads b
  {
    b.next == page.next && |page.data| == BLOCK_SIZE
    && if b.data != [] then b.data == page.data else b.nr in file && file[b.nr] == page.data
  }

  /** The blocks in the page map stand for the pages. */
  ghost predicate MappedIn(pageMap: map<nat, Block>, pages: Pages, pageCount: nat, blocks: set<Block>,
      file: map<nat, seq<byte>>)
    reads blocks
  {
    && pages.Keys == pageMap.Keys
    && forall n :: n in pageMap ==>
      n < pageCount && pageMap[n] in blocks && pageMap[n].nr == n && Represents(pageMap[n], pages[n], file)
  }

  /** Blocks of one list, each once. */
  ghost predicate ListedIn(list: seq<Block>, pageMap: map<nat, Block>, blocks: set<Block>, swappedOut: bool)
    reads blocks`nr, blocks`data
  {
    && NoDuplicates(list)
    && forall b :: b in list ==> b in blocks && b.nr in pageMap && pageMap[b.nr] == b && (b.data == [] <==> swappedOut)
  }

  lemma MappedMore(pageMap: map<nat, Block>, pages: Pages, pageCount: nat, blocks: set<Block>, file: map<nat, seq<byte>>,
      nr: nat, block: Block)
    requires MappedIn(pageMap, pages, pageCount, blocks, file) && nr < pageCount && nr !in pageMap
    requires block.nr == nr && block.next == 0 && |block.data| == BLOCK_SIZE
    ensures MappedIn(pageMap[nr := block], pages[nr := Page(0, block.data)], pageCount, blocks + {block}, file)
  {
  }

  lemma ListedMore(list: seq<Block>, pageMap: map<nat, Block>, blocks: set<Block>, swappedOut: bool, nr: nat, block: Block)
    requires ListedIn(list, pageMap, blocks, swappedOut) && nr !in pageMap && block !in blocks
    ensures ListedIn(list, pageMap[nr := block], blocks + {block}, swappedOut) && block !in list
  {
  }

  class CacheFile {
    // An iterator of the page lists is modelled by the block it stands at, the file by its pages.
    var memCache: seq<Block>
    var diskCache: seq<Block>
    var pageMap: map<nat, Block>
    var freePages: seq<nat>
    var pageCount: nat
    var currentBlock: Block?
    const keepInMemory: bool
    var file: map<nat, seq<byte>>
    // All blocks there were, what the pages hold, the files that are stored, and the pages of each.
    ghost var blocks: set<Block>
    ghost var pages: Pages
    ghost var files: map<nat, seq<byte>>
    ghost var chains: map<nat, seq<nat>>
    ghost var owner: map<nat, nat>

    // ---- What the pages hold ----

    ghost predicate Mapped()
      reads this`pageMap, this`pages, this`pageCount, this`blocks, this`file, blocks
    {
      MappedIn(pageMap, pages, pageCount, blocks, file)
    }

    /** Live pages and free pages make up all pages. */
    ghost predicate Partition()
      reads this`freePages, this`pageCount, this`pageMap
    {
      && NoDuplicates(freePages)
      && (forall n :: n in freePages ==> n < pageCount && n !in pageMap)
      && forall n :: 0 <= n < pageCount ==> n in pageMap || n in freePages
    }

    ghost predicate InMemory()
      reads this`diskCache, this`pageMap, this`blocks, blocks`data
    {
      keepInMemory ==> diskCache == [] && forall n :: n in pageMap ==> pageMap[n] in blocks && pageMap[n].data != []
    }

    ghost predicate Listed(list: seq<Block>, swappedOut: bool)
      reads this`pageMap, this`blocks, blocks`nr, blocks`data
    {
      ListedIn(list, pageMap, blocks, swappedOut)
    }

    ghost predicate Placed()
      reads this`pageMap, this`blocks, this`diskCache, this`memCache, blocks`data
    {
      forall n :: n in pageMap ==>
        pageMap[n] in blocks && if pageMap[n].data == [] then pageMap[n] in diskCache else pageMap[n] in memCache
    }

    /** With spilling on, every block is in the list that fits. */
    ghost predicate Spilling(limit: nat)
      reads this`pageMap, this`blocks, this`diskCache, this`memCache, this`freePages, blocks`nr, blocks`data
    {
      !keepInMemory ==>
        freePages == [] && |memCache| <= limit && Listed(memCache, false) && Listed(diskCache, true) && Placed()
    }

    ghost predicate Paged(limit: nat)
      reads this`pageMap, this`pages, this`pageCount, this`blocks, this`file, this`diskCache, this`memCache, this`freePages, blocks
    {
      Mapped() && Partition() && InMemory() && Spilling(limit)
    }

    /** Between calls: no block is locked, the memory list is within its bound, and every file has its own chain. */
    ghost predicate Valid()
      reads this, blocks
    {
      Paged(CACHE_SIZE) && currentBlock == null && Filed(pages, chains, files, owner)
    }

    ghost function Alloc(): Allocator
      reads this`freePages, this`pageCount
    {
      Allocator(freePages, pageCount)
    }

    ghost function State(): Store
      reads this`files, this`chains, this`freePages, this`pageCount
    {
      Store(files, chains, Alloc())
    }

    constructor (keepInMemory: bool)
      ensures Valid() && State() == Store(map[], map[], Allocator([], 0))
      ensures this.keepInMemory == keepInMemory && blocks == {}
    {
      memCache, diskCache, pageMap, freePages, pageCount := [], [], map[], [], 0;
      currentBlock, this.keepInMemory, file := null, keepInMemory, map[];
      blocks, pages, files, chains, owner := {}, map[], map[], map[], map[];
    }

    // ---- Blocks ----

    method CleanupMemCache()
      requires Paged(CACHE_SIZE + 1)
      requires !keepInMemory && |memCache| > CACHE_SIZE ==> memCache[CACHE_SIZE] != currentBlock
      modifies this`memCache, this`diskCache, this`pageMap, this`file, blocks`data
      ensures Paged(CACHE_SIZE) && pageMap == old(pageMap) && pages == old(pages)
      ensures !keepInMemory && |old(memCache)| > CACHE_SIZE ==> memCache == old(memCache)[..CACHE_SIZE]
      ensures keepInMemory || |old(memCache)| <= CACHE_SIZE ==> memCache == old(memCache)
      ensures currentBlock != null && currentBlock in blocks ==> currentBlock.data == old(currentBlock.data)
    {
      if !keepInMemory {
        if |memCache| > CACHE_SIZE {
          SwapOut();
        }
      }
    }

    /** Flushes the least used block to the file. */
    method SwapOut()
      requires Paged(CACHE_SIZE + 1) && !keepInMemory && |memCache| == CACHE_SIZE + 1
      modifies this`memCache, this`diskCache, this`pageMap, this`file, {memCache[CACHE_SIZE]}`data
      ensures Paged(CACHE_SIZE) && pageMap == old(pageMap) && pages == old(pages)
      ensures memCache == old(memCache)[..CACHE_SIZE]
    {
      var oldBlock := memCache[|memCache| - 1];
      assert oldBlock in memCache;
      file := file[oldBlock.nr := oldBlock.data];
      oldBlock.data := [];
      memCache := memCache[..|memCache| - 1];
      diskCache := [oldBlock] + diskCache;
      pageMap := pageMap[oldBlock.nr := oldBlock];
      assert pageMap == old(pageMap);
      assert Mapped();
      assert Listed(memCache, false);
      assert Listed(diskCache, true);
      assert Placed();
    }

    method AllocateBlock() returns (nr: nat)
      requires Paged(CACHE_SIZE)
      requires currentBlock != null ==> currentBlock in blocks && (keepInMemory || AtFront(currentBlock))
      modifies this`memCache, this`diskCache, this`pageMap, this`file, this`freePages, this`pageCount, this`pages,
        this`blocks, blocks`data
      ensures Paged(CACHE_SIZE) && nr !in old(pageMap) && nr in pageMap
      ensures nr == FirstPage(old(Alloc())) && Alloc() == TakeOne(old(Alloc()))
      ensures pageMap == old(pageMap)[nr := pageMap[nr]] && fresh(pageMap[nr]) && pages == old(pages)[nr := pages[nr]]
      ensures blocks == old(blocks) + {pageMap[nr]} && pageMap[nr].data != [] && (keepInMemory || AtFront(pageMap[nr]))
      ensures currentBlock != null ==> currentBlock.data == old(currentBlock.data)
    {
      hide Mapped, Placed;
      nr := TakePage();
      AddBlock(nr);
      CleanupMemCache();
      assert !keepInMemory ==> memCache[0] in memCache;
    }

    /** The number of a free page, or of a new one. */
    method TakePage() returns (nr: nat)
      requires Paged(CACHE_SIZE)
      modifies this`freePages, this`pageCount
      ensures Mapped() && InMemory() && Spilling(CACHE_SIZE) && nr < pageCount && nr !in pageMap
      ensures NoDuplicates(freePages) && forall n :: n in freePages ==> n < pageCount && n !in pageMap && n != nr
      ensures forall n :: 0 <= n < pageCount ==> n in pageMap || n in freePages || n == nr
      ensures nr == FirstPage(old(Alloc())) && Alloc() == TakeOne(old(Alloc()))
    {
      if freePages != [] {
        nr := freePages[0];
        assert nr in freePages;
        freePages := freePages[1..];
      } else {
        nr := pageCount;
        pageCount := pageCount + 1;
      }
    }

    ghost predicate AtFront(b: Block)
      reads this
    {
      |memCache| > 0 && memCache[0] == b
    }

    /** A new block; it holds whatever the memory held. */
    method AddBlock(nr: nat)
      requires Mapped() && InMemory() && Spilling(CACHE_SIZE) && nr < pageCount && nr !in pageMap
      modifies this`memCache, this`pageMap, this`pages, this`blocks
      ensures Mapped() && InMemory() && Spilling(CACHE_SIZE + 1)
      ensures nr in pageMap && pageMap == old(pageMap)[nr := pageMap[nr]] && fresh(pageMap[nr])
      ensures pages == old(pages)[nr := pages[nr]]
      ensures memCache == [pageMap[nr]] + old(memCache) && blocks == old(blocks) + {pageMap[nr]}
    {
      hide Mapped, Spilling, Entered;
      var data: seq<byte> :| |data| == BLOCK_SIZE by { assert |Fill(0, BLOCK_SIZE)| == BLOCK_SIZE; }
      var block := new Block(nr, data);
      EnterBlock(nr, block);
      PushFront(nr, block);
    }

    method EnterBlock(nr: nat, block: Block)
      requires Mapped() && InMemory() && Spilling(CACHE_SIZE) && nr < pageCount && nr !in pageMap
      requires block !in blocks && block.nr == nr && block.next == 0 && |block.data| == BLOCK_SIZE
      modifies this`pageMap, this`pages, this`blocks
      ensures Mapped() && InMemory() && Entered(nr, block)
      ensures pageMap == old(pageMap)[nr := block] && pages == old(pages)[nr := pages[nr]]
      ensures blocks == old(blocks) + {block}
    {
      hide MappedIn, ListedIn;
      MappedMore(pageMap, pages, pageCount, blocks, file, nr, block);
      if !keepInMemory {
        ListedMore(memCache, pageMap, blocks, false, nr, block);
        ListedMore(diskCache, pageMap, blocks, true, nr, block);
      }
      pageMap := pageMap[nr := block];
      pages := pages[nr := Page(0, block.data)];
      blocks := blocks + {block};
    }

    /** The block is in the map and not in a list yet. */
    ghost predicate Entered(nr: nat, block: Block)
      reads this, blocks
    {
      && nr in pageMap && pageMap[nr] == block && block in blocks && block.nr == nr && block.data != []
      && (!keepInMemory ==>
        && freePages == [] && |memCache| <= CACHE_SIZE && Listed(memCache, false) && Listed(diskCache, true)
        && block !in memCache
        && forall n :: n in pageMap && n != nr ==>
          pageMap[n] in blocks && if pageMap[n].data == [] then pageMap[n] in diskCache else pageMap[n] in memCache)
    }

    method PushFront(nr: nat, block: Block)
      requires Mapped() && InMemory() && Entered(nr, block)
      modifies this`memCache
      ensures Mapped() && InMemory() && Spilling(CACHE_SIZE + 1)
      ensures memCache == [block] + old(memCache)
    {
      memCache := [block] + memCache;
      if !keepInMemory {
        assert Listed(memCache, false);
      }
    }

    method LockBlock(nr: nat) returns (block: Block?)
      requires Paged(CACHE_SIZE)
      modifies this`memCache, this`diskCache, this`pageMap, this`file, this`currentBlock, blocks`data
      ensures Paged(CACHE_SIZE) && pageMap == old(pageMap)
      ensures block != null <==> old(currentBlock) == null && nr in pageMap
      ensures block == null ==> currentBlock == old(currentBlock) && memCache == old(memCache)
      ensures block != null ==> block == currentBlock == pageMap[nr] && block.data == pages[nr].data != []
      ensures block != null ==> block.next == pages[nr].next
      ensures block != null && old(pageMap[nr].data) != [] ==> memCache == old(memCache)
    {
      if currentBlock == null {
        if nr in pageMap {
          currentBlock := pageMap[nr];
          if currentBlock.data == [] {
            SwapIn(nr);
          }
          CleanupMemCache();
          return currentBlock;
        }
      }
      return null;
    }

    /** Loads a block back. */
    method SwapIn(nr: nat)
      requires Paged(CACHE_SIZE) && nr in pageMap && pageMap[nr] == currentBlock && currentBlock.data == []
      modifies this`memCache, this`diskCache, this`pageMap, blocks`data
      ensures Paged(CACHE_SIZE + 1) && pageMap == old(pageMap) && pageMap[nr].data == pages[nr].data
      ensures AtFront(pageMap[nr])
    {
      WithoutIs(diskCache, pageMap[nr]);
      pageMap[nr].data := file[nr];
      diskCache := Without(diskCache, pageMap[nr]);
      memCache := [pageMap[nr]] + memCache;
      pageMap := pageMap[nr := pageMap[nr]];
      assert pageMap == old(pageMap);
      assert Mapped();
      assert Listed(memCache, false);
      assert Listed(diskCache, true);
      assert Placed();
    }

    method UnlockBlock(nr: nat) returns (ok: bool)
      modifies this`currentBlock
      ensures ok == (old(currentBlock) != null) && currentBlock == null
      ensures old(Paged(CACHE_SIZE)) ==> Paged(CACHE_SIZE)
    {
      if currentBlock != null {
        currentBlock := null;
        return true;
      }
      return false;
    }

    /** A number that is no page in use goes to the free list all the same. */
    method DeleteBlock(nr: nat) returns (ok: bool)
      requires Paged(CACHE_SIZE) && keepInMemory
      modifies this`pageMap, this`freePages, this`pages
      ensures ok == (currentBlock == null)
      ensures ok && nr in old(pageMap) ==> Paged(CACHE_SIZE)
      ensures ok ==> pageMap == old(pageMap) - {nr}
      ensures ok ==> freePages == old(freePages) + [nr] && pages == old(pages) - {nr}
      ensures !ok ==> pageMap == old(pageMap) && freePages == old(freePages) && pages == old(pages)
    {
      if currentBlock == null {
        if nr in pageMap {
          pageMap := pageMap - {nr};
          pages := pages - {nr};
        }
        freePages := freePages + [nr];
        return true;
      }
      return false;
    }

    method CopyIn(nr: nat, chunk: seq<byte>)
      requires Paged(CACHE_SIZE) && nr in pageMap && pageMap[nr].data != [] && |chunk| <= BLOCK_SIZE
      modifies {pageMap[nr]}`data, this`pages
      ensures Paged(CACHE_SIZE) && pageMap[nr].data != []
      ensures pages == old(pages)[nr := Page(old(pages[nr]).next, chunk + old(pages[nr]).data[|chunk|..])]
    {
      assert forall n :: n in pageMap && n != nr ==> pageMap[n] != pageMap[nr];
      pageMap[nr].data := chunk + pageMap[nr].data[|chunk|..];
      pages := pages[nr := Page(pages[nr].next, pageMap[nr].data)];
      assert Mapped();
      if !keepInMemory {
        assert Listed(memCache, false);
        assert Listed(diskCache, true);
      }
    }

    method SetNext(nr: nat, next: nat)
      requires Paged(CACHE_SIZE) && nr in pageMap
      modifies {pageMap[nr]}`next, this`pages
      ensures Paged(CACHE_SIZE) && pages == old(pages)[nr := Page(next, old(pages[nr]).data)]
    {
      hide ListedIn;
      assert forall n :: n in pageMap && n != nr ==> pageMap[n] != pageMap[nr];
      pageMap[nr].next := next;
      pages := pages[nr := Page(next, pages[nr].data)];
    }

    // ---- Files ----

    method ReadFile(nr: nat, size: int) returns (ok: bool, data: seq<byte>)
      requires Valid() && (size > 0 ==> nr in files && size == |files[nr]|)
      modifies this`memCache, this`diskCache, this`pageMap, this`file, this`currentBlock, blocks`data
      ensures Valid()
      ensures ok == (size > 0)
      ensures ok ==> data == files[nr]
      ensures !ok ==> data == []
    {
      hide Paged, Filed;
      if size > 0 {
        ghost var bytes, c := FileOf(nr);
        data := ReadChain(nr, size, bytes, c);
        return true, data;
      }
      return false, [];
    }

    /** The loop of readFile. */
    method ReadChain(nr: nat, size: nat, ghost bytes: seq<byte>, ghost c: seq<nat>) returns (data: seq<byte>)
      requires Paged(CACHE_SIZE) && currentBlock == null && pages.Keys == pageMap.Keys
      requires Stores(pages, c, bytes) && c[0] == nr && size == |bytes|
      modifies this`memCache, this`diskCache, this`pageMap, this`file, this`currentBlock, blocks`data
      ensures Paged(CACHE_SIZE) && currentBlock == null && pageMap == old(pageMap)
      ensures data == bytes
    {
      hide Paged, IsChain, Holds, HoldsChunk, LinkedAt, Chunk;
      var s, blockNr := 0, nr;
      ghost var i := 0;
      data := [];
      while true
        invariant Paged(CACHE_SIZE) && currentBlock == null && pageMap == old(pageMap)
        invariant i < |c| && blockNr == c[i] && s == i * BLOCK_SIZE <= size && data == bytes[..s]
        decreases |c| - i
      {
        var copyNr := blockNr;
        AtChunk(pages, c, bytes, i);
        NextChunk(bytes, i, s);
        FullChunk(size, i);
        var block := LockBlock(copyNr);
        blockNr := block.next;
        data := data + block.data[..CopySize(size, s)];
        var _ := UnlockBlock(copyNr);
        s := s + BLOCK_SIZE;
        if blockNr == 0 {
          break;
        }
        i := i + 1;
      }
    }

    /** If page 0 is handed out as a continuation page, the bytes are all stored, but following the links from the
        first page does not find them. */
    method WriteFile(data: seq<byte>) returns (ref: nat)
      requires Valid()
      modifies this`memCache, this`diskCache, this`pageMap, this`file, this`freePages, this`pageCount, this`pages,
        this`blocks, this`currentBlock, this`files, this`chains, this`owner, blocks
      ensures fresh(blocks - old(blocks)) && old(blocks) <= blocks
      ensures Sound(old(Alloc()), data) ==> Valid() && State() == Wrote(old(State()), data)
      ensures if data == [] then ref == 0 else ref == FirstPage(old(Alloc())) && ref !in old(files)
      ensures !Sound(old(Alloc()), data) ==> var c := ChainFor(old(Alloc()), data);
        Paged(CACHE_SIZE) && currentBlock == null && Linked(pages, c, |c|) && Holds(pages, c, data, |c|)
        && Walk(pages, ref, |c|) != c
    {
      hide Paged, Filed, Upcoming, Used, HoldsChunk, Walk;
      if data != [] {
        ghost var c;
        ref, c := WriteChain(data);
        FoundAgain(pages, c, |c|);
        NewFile(old(pages), pages, chains, files, owner, c);
        if ZeroOnlyFirst(c) {
          AddFile(old(pages), pages, chains, files, owner, c, data);
          chains, files, owner := chains[ref := c], files[ref := data], Owned(owner, c, ref);
        }
        return ref;
      }
      return 0;
    }

    /** The loop of writeFile. */
    method WriteChain(data: seq<byte>) returns (storedAlloc: nat, ghost c: seq<nat>)
      requires Paged(CACHE_SIZE) && currentBlock == null && data != []
      modifies this`memCache, this`diskCache, this`pageMap, this`file, this`freePages, this`pageCount, this`pages,
        this`blocks, this`currentBlock, blocks
      ensures Paged(CACHE_SIZE) && currentBlock == null && fresh(blocks - old(blocks)) && old(blocks) <= blocks
      ensures c == ChainFor(old(Alloc()), data) && storedAlloc == c[0] == FirstPage(old(Alloc()))
      ensures Alloc() == Used(old(Alloc()), |c|)
      ensures NoDuplicates(c) && Linked(pages, c, |c|) && Holds(pages, c, data, |c|) && Extends(old(pages), pages, c)
    {
      hide Paged, Writing, Extends, Filled, HoldsChunk, Chunk, FirstPage, TakeOne;
      var size := |data|;
      var nrBlocksRequired := 1 + size / BLOCK_SIZE;
      var count, s := 0, 0;
      PagesAre();
      assert Upcoming(Alloc(), 0) == [] && Used(Alloc(), 0) == Alloc();
      UpcomingSnoc(Alloc(), 0);
      var alloc := AllocateBlock();
      storedAlloc, c := alloc, [alloc];
      PagesAre();
      WritingStarts(old(pages), pages, alloc, data);
      hide Upcoming, Used;
      while true
        invariant Paged(CACHE_SIZE) && currentBlock == null && fresh(blocks - old(blocks)) && old(blocks) <= blocks
        invariant |c| == count + 1 <= nrBlocksRequired && c[0] == storedAlloc && c[count] == alloc && s == count * BLOCK_SIZE
        invariant alloc in pageMap && pageMap[alloc].data != [] && (keepInMemory || AtFront(pageMap[alloc]))
        invariant c == Upcoming(old(Alloc()), |c|) && Alloc() == Used(old(Alloc()), |c|)
        invariant Writing(old(pages), pages, c, data)
        decreases nrBlocksRequired - count
      {
        FullChunk(size, count);
        PagesAre();
        ghost var before := pages;
        UpcomingSnoc(old(Alloc()), |c|);
        var next := WriteBlock(alloc, data, s, count, count + 1 < nrBlocksRequired);
        s := s + BLOCK_SIZE;
        count := count + 1;
        if count >= nrBlocksRequired {
          WriteLast(old(pages), before, pages, c, data);
          break;
        }
        WriteStep(old(pages), before, pages, c, data, next);
        alloc := next;
        c := c + [alloc];
      }
    }

    /** One round of the loop of writeFile: fills the block, and links it to a new one if there is more. */
    method WriteBlock(nr: nat, data: seq<byte>, s: nat, ghost count: nat, more: bool) returns (alloc: nat)
      requires Paged(CACHE_SIZE) && currentBlock == null && nr in pageMap && s == count * BLOCK_SIZE <= |data|
      requires pageMap[nr].data != [] && (keepInMemory || AtFront(pageMap[nr]))
      modifies this`memCache, this`diskCache, this`pageMap, this`file, this`freePages, this`pageCount, this`pages,
        this`blocks, this`currentBlock, blocks
      ensures Paged(CACHE_SIZE) && currentBlock == null && fresh(blocks - old(blocks)) && old(blocks) <= blocks
      ensures alloc in pageMap && pageMap[alloc].data != [] && (keepInMemory || AtFront(pageMap[alloc]))
      ensures pages.Keys == old(pages).Keys + {alloc}
      ensures Filled(old(pages), pages, nr, data, count, if more then alloc else 0)
      ensures if more then
          alloc !in old(pages) && alloc == FirstPage(old(Alloc())) && Alloc() == TakeOne(old(Alloc()))
        else alloc == nr && Alloc() == old(Alloc())
    {
      hide Paged;
      PagesAre();
      FillBlock(nr, data[s..s + CopySize(|data|, s)]);
      if more {
        alloc := LinkBlock(nr);
      } else {
        alloc := nr;
      }
      PagesAre();
      var _ := UnlockBlock(nr);
    }

    method FillBlock(nr: nat, chunk: seq<byte>)
      requires Paged(CACHE_SIZE) && currentBlock == null && nr in pageMap && |chunk| <= BLOCK_SIZE
      requires pageMap[nr].data != []
      modifies this`memCache, this`diskCache, this`pageMap, this`file, this`pages, this`currentBlock, blocks
      ensures Paged(CACHE_SIZE) && pageMap == old(pageMap) && memCache == old(memCache)
      ensures currentBlock == pageMap[nr] && currentBlock in blocks && pageMap[nr].data != []
      ensures pages == old(pages)[nr := pages[nr]] && nr in old(pages)
      ensures chunk <= pages[nr].data && |pages[nr].data| == BLOCK_SIZE && pages[nr].next == 0
    {
      hide Paged;
      var block := LockBlock(nr);
      PagesAre();
      SetNext(nr, 0);
      CopyIn(nr, chunk);
    }

    method LinkBlock(nr: nat) returns (alloc: nat)
      requires Paged(CACHE_SIZE) && nr in pageMap && currentBlock == pageMap[nr] && currentBlock in blocks && nr in pages
      requires keepInMemory || AtFront(pageMap[nr])
      modifies this`memCache, this`diskCache, this`pageMap, this`file, this`freePages, this`pageCount, this`pages,
        this`blocks, blocks
      ensures Paged(CACHE_SIZE) && alloc !in old(pageMap) && fresh(blocks - old(blocks)) && old(blocks) <= blocks
      ensures alloc in pageMap && pageMap[alloc].data != [] && (keepInMemory || AtFront(pageMap[alloc]))
      ensures pages == old(pages)[alloc := pages[alloc]][nr := Page(alloc, old(pages)[nr].data)]
      ensures alloc == FirstPage(old(Alloc())) && Alloc() == TakeOne(old(Alloc()))
    {
      hide Paged;
      PagesAre();
      alloc := AllocateBlock();
      SetNext(nr, alloc);
    }

    lemma FilesHaveChains()
      requires Valid()
      ensures chains.Keys == files.Keys
    {
    }

    /** The chains of the files have no cycles and no pages in common, and every page is free or in one of them. */
    lemma PagesPartitioned()
      requires Valid()
      ensures chains.Keys == files.Keys && forall r :: r in chains ==> IsChain(pages, chains[r]) && chains[r][0] == r
      ensures forall r, q :: r in chains && q in chains && r != q ==> Disjoint(chains[r], chains[q])
      ensures NoDuplicates(freePages) && forall r :: r in chains ==> Disjoint(chains[r], freePages)
      ensures forall n :: 0 <= n < pageCount <==> n in freePages || exists r :: r in chains && n in chains[r]
    {
      hide Holds, Linked, Spilling;
      forall r | r in chains ensures IsChain(pages, chains[r]) && chains[r][0] == r && Disjoint(chains[r], freePages) {
        PagesOf(pages, chains[r], files[r]);
      }
      forall n | 0 <= n < pageCount && n !in freePages ensures exists r :: r in chains && n in chains[r] {
        assert HasOwner(chains, owner, n);
      }
      forall n, r | r in chains && n in chains[r] ensures 0 <= n < pageCount {
        PagesOf(pages, chains[r], files[r]);
      }
    }

    lemma PagesAre()
      requires Paged(CACHE_SIZE)
      ensures pages.Keys == pageMap.Keys
      ensures forall n :: n in pageMap ==> pageMap[n] in blocks && |pages[n].data| == BLOCK_SIZE
    {
    }

    method DeleteFile(nr: nat)
      requires Valid() && keepInMemory && (nr in files || nr !in pageMap)
      modifies this`memCache, this`diskCache, this`pageMap, this`file, this`freePages, this`pages, this`currentBlock,
        this`files, this`chains, blocks`data
      ensures Valid() && State() == Removed(old(State()), nr)
    {
      hide Paged, Filed, Stores;
      ghost var bytes: seq<byte>, c: seq<nat> := [], [];
      PagesAre();
      if nr in files {
        bytes, c := FileOf(nr);
        PagesOf(pages, c, bytes);
      }
      DeleteChain(nr, bytes, c);
      assert c == [] ==> pages == old(pages);
      if nr in files {
        RemoveFile(old(pages), pages, chains, files, owner, nr);
        chains, files := chains - {nr}, files - {nr};
      }
    }

    /** The loop of deleteFile. */
    method DeleteChain(nr: nat, ghost bytes: seq<byte>, ghost c: seq<nat>)
      requires Paged(CACHE_SIZE) && currentBlock == null && keepInMemory
      requires if nr in pageMap then Stores(pages, c, bytes) && c[0] == nr else c == []
      modifies this`memCache, this`diskCache, this`pageMap, this`file, this`freePages, this`pages, this`currentBlock, blocks`data
      ensures Paged(CACHE_SIZE) && currentBlock == null && freePages == old(freePages) + c
      ensures Shrunk(old(pages), pages, c, |c|)
    {
      hide Paged, Linked, Holds, Shrunk;
      var nr := nr;
      ghost var i := 0;
      PagesAre();
      ShrunkNone(pages, c);
      while true
        invariant Paged(CACHE_SIZE) && currentBlock == null && pages.Keys == pageMap.Keys
        invariant if c == [] then i == 0 && nr !in pageMap else i < |c| && nr == c[i]
        invariant freePages == old(freePages) + c[..i]
        invariant Shrunk(old(pages), pages, c, i)
        decreases |c| - i
      {
        if c != [] {
          AtChunk(old(pages), c, bytes, i);
          StillIn(old(pages), pages, c, i);
          ShrinkStep(old(pages), pages, c, i);
          assert c[..i + 1] == c[..i] + [c[i]];
        }
        var block := LockBlock(nr);
        if block == null {
          break;
        }
        var next := block.next;
        var _ := UnlockBlock(nr);
        var _ := DeleteBlock(nr);
        nr := next;
        if nr == 0 {
          assert c == c[..i + 1];
          break;
        }
        i := i + 1;
      }
    }

    ghost method FileOf(nr: nat) returns (bytes: seq<byte>, c: seq<nat>)
      requires Valid() && nr in files
      ensures bytes == files[nr] && c == chains[nr] && Stores(pages, c, bytes) && c[0] == nr
      ensures pages.Keys == pageMap.Keys && nr in chains
    {
      bytes, c := files[nr], chains[nr];
      PagesOf(pages, c, bytes);
    }
  }
}
