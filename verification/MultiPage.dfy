/** The multi-page document of MultiPage.cpp: a lazily split list of blocks over the paged store. */
module MultiPage {
  import opened Numbers
  import opened PageChains
  import opened PageList
  import opened PageSaving
  import CacheFile

  datatype Option<T> = None | Some(value: T)

  /** The place of an iterator in the list. */
  function IndexOf(list: seq<Node>, id: int): (k: nat)
    ensures k <= |list| && (k < |list| ==> list[k].id == id)
  {
    if list == [] || list[0].id == id then 0 else 1 + IndexOf(list[1..], id)
  }

  lemma {:induction false} IndexIs(list: seq<Node>, k: nat)
    requires k < |list| && Distinct(list)
    ensures IndexOf(list, list[k].id) == k
  {
    if k > 0 {
      assert list[0].id != list[k].id;
      IndexIs(list[1..], k - 1);
    }
  }

  lemma PrefixSnoc(list: seq<Node>, i: nat)
    requires i < |list|
    ensures Count(list[..i + 1]) == Count(list[..i]) + PageCount(list[i].block)
  {
    assert list[..i + 1] == list[..i] + [list[i]];
    DenoteAppend(list[..i], [list[i]]);
    DenoteOne(list[i]);
  }

  lemma EmptyDenotes()
    ensures Denote([]) == [] && Count([]) == 0
  {
  }

  lemma PrefixWithin(list: seq<Node>, k: nat, files: Files)
    requires k <= |list| && forall n :: n in list ==> ValidBlock(n.block, files)
    ensures Count(list[..k]) <= |Denote(list)|
  {
    assert list[..k] + list[k..] == list;
    DenoteAppend(list[..k], list[k..]);
    CountIsLength(list[..k], files);
  }

  /** The plugin that saves: what it was given, and which pages it takes. */
  class PageSink {
    const accepts: Saver
    var saved: seq<(DocPage, nat)>

    constructor (accepts: Saver)
      ensures this.accepts == accepts && saved == []
    {
      this.accepts, saved := accepts, [];
    }

    method SavePage(page: DocPage, count: nat) returns (ok: bool)
      modifies this
      ensures saved == old(saved) + [(page, count)] && ok == accepts(page, count)
    {
      saved := saved + [(page, count)];
      ok := accepts(page, count);
    }
  }

  class MultiBitmap {
    const readOnly: bool
    const cache: CacheFile.CacheFile
    var blocks: seq<Node>
    var nextId: nat
    var changed: bool
    var pageCount: int
    var lockedPages: map<nat, int>

    ghost predicate Valid()
      reads this, cache, cache.blocks
    {
      cache.Valid() && ListOk()
    }

    ghost predicate ListOk()
      reads this, cache`files
    {
      && ValidList(blocks, cache.files, nextId)
      && (pageCount == -1 || pageCount == Count(blocks))
      && forall a, b :: a in lockedPages && b in lockedPages && a != b ==> lockedPages[a] != lockedPages[b]
    }

    /** The pages of the document. */
    ghost function Doc(): seq<DocPage>
      reads this`blocks, this`lockedPages, cache`files, cache`chains, cache`freePages, cache`pageCount
    {
      DocOf(State())
    }

    ghost function State(): Document
      reads this`blocks, this`lockedPages, cache`files, cache`chains, cache`freePages, cache`pageCount
    {
      Document(Denote(blocks), cache.State(), lockedPages)
    }

    /** A document with the pages 0 to n - 1 of a source, or an empty one. */
    constructor (readOnly: bool, cache: CacheFile.CacheFile, n: nat)
      requires cache.Valid() && cache.files == map[]
      ensures Valid() && this.readOnly == readOnly && this.cache == cache
      ensures State() == Document(Range(0, n - 1), cache.State(), map[])
      ensures Doc() == seq(n, i => Source(i))
    {
      this.readOnly, this.cache := readOnly, cache;
      blocks := if n > 0 then [Node(0, Continuous(0, n - 1))] else [];
      nextId, changed, lockedPages := 1, false, map[];
      pageCount := n;
      new;
      DenoteOne(Node(0, Continuous(0, n - 1)));
    }

    method GetPageCount() returns (n: int)
      requires Valid()
      modifies this`pageCount
      ensures Valid() && n == |Doc()| && pageCount == n
    {
      CountIsLength(blocks, cache.files);
      if pageCount == -1 {
        pageCount := 0;
        for i := 0 to |blocks|
          invariant pageCount == Count(blocks[..i])
        {
          PrefixSnoc(blocks, i);
          pageCount := pageCount + PageCount(blocks[i].block);
        }
        assert blocks[..|blocks|] == blocks;
      }
      return pageCount;
    }

    /** Finds the block that is this page alone, splitting a longer block where need be; -1 stands for end(). A negative
        position takes the first block, and counts backwards from its start. */
    method FindBlock(position: int, ghost files: Files) returns (it: int)
      requires ValidList(blocks, files, nextId)
      modifies this`blocks, this`nextId
      ensures position >= 0 ==> ValidList(blocks, files, nextId) && Refines(old(blocks), blocks, old(nextId))
      ensures position >= 0 ==> Denote(blocks) == Denote(old(blocks)) && Count(blocks) == Count(old(blocks))
      ensures position >= 0 ==> (it == -1 <==> position >= Count(blocks))
      ensures position >= 0 && it != -1 ==> At(blocks, IndexOf(blocks, it), position)
      ensures position < 0 ==> Beside(old(blocks), blocks, old(nextId), position)
      ensures position < 0 ==> it == FoundBeside(old(blocks), old(nextId))
      ensures nextId == old(nextId) || (old(blocks) != [] && !IsSinglePage(old(blocks)[0].block)) || position >= 0
    {
      hide Denote, IndexOf, ValidList, Distinct, Pieces, Count;
      DistinctIs(blocks, files, nextId);
      CountIsLength(blocks, files);
      EmptyDenotes();
      var k, prevCount, count := Locate(position);
      assert blocks[..|blocks|] == blocks;
      if k < |blocks| && count > position {
        PrefixWithin(blocks, k + 1, files);
        if IsSinglePage(blocks[k].block) {
          assert position >= 0 ==> At(blocks, k, position) && Refines(blocks, blocks, nextId);
          IndexIs(blocks, k);
          return blocks[k].id;
        }
        it := SplitBlock(k, position, prevCount, files);
        return it;
      }
      return -1;
    }

    /** Step 1 of FindBlock: the block with this page, or the end of the list. */
    method Locate(position: int) returns (k: nat, prevCount: int, count: int)
      requires forall n :: n in blocks ==> PageCount(n.block) > 0
      ensures k <= |blocks| && count == Count(blocks[..if k < |blocks| then k + 1 else k])
      ensures k < |blocks| ==> prevCount == Count(blocks[..k]) && position < count == prevCount + PageCount(blocks[k].block)
      ensures k < |blocks| ==> if position >= 0 then prevCount <= position else k == 0
      ensures k == |blocks| ==> count <= position || blocks == []
    {
      prevCount, count, k := 0, 0, 0;
      while k < |blocks|
        invariant k <= |blocks| && 0 <= count == Count(blocks[..k]) && (count <= position || k == 0)
      {
        PrefixSnoc(blocks, k);
        prevCount := count;
        count := count + PageCount(blocks[k].block);
        if count > position {
          break;
        }
        k := k + 1;
      }
    }

    /** Step 2: splits a block in up to three, and gives the middle one. */
    method SplitBlock(i: nat, position: int, prevCount: int, ghost files: Files) returns (it: int)
      requires ValidList(blocks, files, nextId) && i < |blocks| && !IsSinglePage(blocks[i].block)
      requires position < 0 || prevCount == Count(blocks[..i]) <= position < prevCount + PageCount(blocks[i].block)
      modifies this`blocks, this`nextId
      ensures position >= 0 ==> ValidList(blocks, files, nextId) && Refines(old(blocks), blocks, old(nextId))
      ensures position >= 0 ==> Denote(blocks) == Denote(old(blocks)) && Count(blocks) == Count(old(blocks))
      ensures position >= 0 ==> it >= 0 && At(blocks, IndexOf(blocks, it), position)
      ensures old(blocks)[i].block.Continuous? && it == old(nextId) + 1
      ensures var b := old(blocks)[i].block;
        blocks == old(blocks)[..i] + Pieces(b, b.start + (position - prevCount), old(nextId)) + old(blocks)[i + 1..]
    {
      hide ValidList, Denote, Count, Distinct, At, IndexOf, Refs, Pieces;
      ghost var before, id := blocks, nextId;
      ElementValid(blocks, files, nextId, i);
      var b := blocks[i].block;
      var item := b.start + (position - prevCount);
      ghost var target;
      it, target := InsertPieces(i, b, item);
      if position >= 0 {
        assert SplitAt(before, blocks, i, item, id);
        ValidSplit(before, blocks, i, item, id, files);
        SplitDenote(before, blocks, i, item, id);
        TargetAt(before, blocks, i, item, id, target, position);
        IndexIs(blocks, target) by { DistinctIs(blocks, files, nextId); }
      }
    }

    /** Inserts the pieces of a block and erases it. */
    method InsertPieces(k: nat, b: PageBlock, item: int) returns (it: int, ghost target: nat)
      requires k < |blocks| && b == blocks[k].block && b.Continuous?
      modifies this`blocks, this`nextId
      ensures blocks == old(blocks)[..k] + Pieces(b, item, old(nextId)) + old(blocks)[k + 1..] && nextId == old(nextId) + 3
      ensures it == old(nextId) + 1 && target == if item != b.start then k + 1 else k
    {
      hide Insert, Erase;
      var i := k;
      ghost var a, rest := blocks[..k], blocks[k..];
      ghost var pieces: seq<Node> := [];
      assert blocks == a + pieces + rest;
      if item != b.start {
        var left := Node(nextId, Continuous(b.start, item - 1));
        InsertBetween(a, pieces, rest, left);
        blocks := Insert(blocks, i, left);
        pieces := pieces + [left];
        i := i + 1;
      }
      target := i;
      it := nextId + 1;
      var middle := Node(nextId + 1, Continuous(item, item));
      InsertBetween(a, pieces, rest, middle);
      blocks := Insert(blocks, i, middle);
      pieces := pieces + [middle];
      i := i + 1;
      if item != b.end {
        var right := Node(nextId + 2, Continuous(item + 1, b.end));
        InsertBetween(a, pieces, rest, right);
        blocks := Insert(blocks, i, right);
        pieces := pieces + [right];
        i := i + 1;
      }
      EraseBehind(a, pieces, rest);
      blocks := Erase(blocks, i);
      assert pieces == Pieces(b, item, nextId);
      nextId := nextId + 3;
    }

    // ---- Editing ----

    /** What the encoder makes of a bitmap, stored; None if the document cannot be edited now. */
    method SavePageToBlock(data: seq<byte>) returns (res: Option<PageBlock>)
      requires Valid() && data != [] && (!readOnly && lockedPages == map[] ==> RoomFor(data))
      modifies cache, cache.blocks
      ensures cache.Valid() && fresh(cache.blocks - old(cache.blocks))
      ensures res.None? <==> readOnly || lockedPages != map[]
      ensures cache.State() == if res.Some? then Wrote(old(cache.State()), data) else old(cache.State())
      ensures res.Some? ==> StoredAs(res.value, data, old(cache.files), cache.files)
      ensures res.Some? ==> res.value.ref == FirstPage(old(cache.Alloc()))
    {
      if readOnly || lockedPages != map[] {
        return None;
      }
      var ref := cache.WriteFile(data);
      return Some(Reference(ref, |data|));
    }

    /** Writing these bytes does not need page 0 as a continuation page. */
    ghost predicate RoomFor(data: seq<byte>)
      reads cache`freePages, cache`pageCount
    {
      Sound(cache.Alloc(), data)
    }

    ghost predicate Editable()
      reads this`lockedPages
    {
      !readOnly && lockedPages == map[]
    }

    method AppendPage(data: seq<byte>)
      requires Valid() && data != [] && (Editable() ==> RoomFor(data))
      modifies this, cache, cache.blocks
      ensures Valid() && fresh(cache.blocks - old(cache.blocks)) && lockedPages == old(lockedPages)
      ensures State() == if old(Editable()) then Appended(old(State()), data) else old(State())
      ensures Doc() == if old(Editable()) then old(Doc()) + [Stored(data)] else old(Doc())
      ensures changed == (old(changed) || old(Editable()))
    {
      hide Denote, ValidList, CacheFile.CacheFile.Valid, Wrote, DocOf, InFiles;
      ghost var files := cache.files;
      PlacesInFiles(blocks, files, nextId);
      var block := SavePageToBlock(data);
      if block.Some? {
        assert blocks[..|blocks|] == blocks && Denote([]) == [] by { EmptyDenotes(); }
        AddBlock(|blocks|, block.value, files, data);
        changed := true;
        pageCount := -1;
        AppendedDoc(old(State()), data);
      }
    }

    /** Puts a new block before the k-th one. */
    method AddBlock(k: nat, block: PageBlock, ghost files: Files, ghost data: seq<byte>)
      requires k <= |blocks| && ValidList(blocks, files, nextId)
      requires StoredAs(block, data, files, cache.files)
      modifies this`blocks, this`nextId
      ensures blocks == Insert(old(blocks), k, Node(old(nextId), block))
      ensures ValidList(blocks, cache.files, nextId)
      ensures Denote(blocks) == Denote(old(blocks)[..k]) + [OfFile(block.ref)] + Denote(old(blocks)[k..])
    {
      hide Denote, ValidList;
      ghost var n := Node(nextId, block);
      ValidInsert(blocks, files, nextId, k, n, cache.files);
      DenoteParts(blocks[..k], [n], blocks[k..]);
      DenoteOne(n);
      blocks := Insert(blocks, k, Node(nextId, block));
      nextId := nextId + 1;
    }

    method InsertPage(page: int, data: seq<byte>)
      requires Valid() && data != [] && (Editable() && page < |Doc()| ==> RoomFor(data))
      modifies this, cache, cache.blocks
      ensures Valid() && fresh(cache.blocks - old(cache.blocks)) && lockedPages == old(lockedPages)
      ensures State() == if old(Editable()) && page < |old(Doc())| then InsertedAt(old(State()), page, data) else old(State())
      ensures Doc() == if old(Editable()) && page < |old(Doc())| then
          Inserted(old(Doc()), if page > 0 then page else 0, Stored(data))
        else old(Doc())
      ensures changed == (old(changed) || (old(Editable()) && page < |old(Doc())|))
    {
      hide Denote, ValidList, CacheFile.CacheFile.Valid, Refines, IndexOf, Wrote, DocOf, InFiles;
      var n := GetPageCount();
      if page >= n {
        return;
      }
      ghost var files := cache.files;
      PlacesInFiles(blocks, files, nextId);
      var block := SavePageToBlock(data);
      if block.Some? {
        if page > 0 {
          CountIsDoc(blocks, files, nextId);
          var blockSource := FindBlock(page, files);
          ghost var k := IndexOf(blocks, blockSource);
          AroundFound(blocks, files, nextId, k, page);
          AddBlock(IndexOf(blocks, blockSource), block.value, files, data);
        } else {
          assert blocks[..0] == [] && blocks[0..] == blocks && Denote([]) == [] by { EmptyDenotes(); }
          AddBlock(0, block.value, files, data);
        }
        changed := true;
        pageCount := -1;
        InsertedDoc(old(State()), page, data);
      }
    }

    /** A negative number deletes the first page if that is a block of its own, and otherwise leaves a list that has
        pages which are not there. */
    method DeletePage(page: int)
      requires Valid()
      requires Editable() && |Doc()| > 1 && page < |Doc()| && State().places[if page > 0 then page else 0].OfFile? ==>
        cache.keepInMemory
      modifies this, cache, cache.blocks
      ensures cache.Valid() && fresh(cache.blocks - old(cache.blocks)) && lockedPages == old(lockedPages)
      ensures var deletes := old(Editable()) && |old(Doc())| > 1 && page < |old(Doc())|;
        changed == (old(changed) || deletes) && (deletes ==> pageCount == -1)
      ensures var deletes := old(Editable()) && |old(Doc())| > 1 && page < |old(Doc())|;
        if deletes && page < 0 && !IsSinglePage(old(blocks)[0].block) then
          cache.State() == old(cache.State()) && old(blocks)[0].block.Continuous?
          && blocks == Overlapping(old(blocks), page, old(nextId))
        else
          Valid() && State() == (if deletes then DeletedAt(old(State()), if page > 0 then page else 0) else old(State()))
          && Doc() == if deletes then Deleted(old(Doc()), if page > 0 then page else 0) else old(Doc())
    {
      hide Denote, ValidList, CacheFile.CacheFile.Valid, Refines, IndexOf, DocOf, InFiles, Removed, Pieces;
      if !readOnly && lockedPages == map[] {
        var n := GetPageCount();
        if n > 1 {
          ghost var files := cache.files;
          CountIsDoc(blocks, files, nextId);
          FirstAt(blocks, files, nextId);
          DistinctIs(blocks, files, nextId);
          ghost var beside := page < 0 && !IsSinglePage(blocks[0].block);
          var i := FindBlock(page, files);
          if i != -1 {
            if beside {
              SplitBeside(old(blocks), blocks, old(nextId), page);
            }
            EraseFound(IndexOf(blocks, i), if beside then None else Some(if page > 0 then page else 0));
            changed := true;
            pageCount := -1;
          }
        }
      }
    }

    /** Deletes the file of a block, if it has one, and erases it. */
    method EraseFound(k: nat, ghost page: Option<nat>)
      requires cache.Valid() && k < |blocks| && (page.None? ==> blocks[k].block.Continuous?)
      requires page.Some? ==> ValidList(blocks, cache.files, nextId) && At(blocks, k, page.value)
      requires page.Some? ==> page.value < |Doc()| && (State().places[page.value].OfFile? ==> cache.keepInMemory)
      modifies this`blocks, cache, cache.blocks
      ensures cache.Valid() && fresh(cache.blocks - old(cache.blocks))
      ensures page.Some? ==> ValidList(blocks, cache.files, nextId)
      ensures page.Some? ==> State() == DeletedAt(old(State()), page.value) && Doc() == Deleted(old(Doc()), page.value)
      ensures page.None? ==> blocks == Erase(old(blocks), k) && cache.State() == old(cache.State())
    {
      hide Denote, ValidList, CacheFile.CacheFile.Valid, DocOf, InFiles, Removed;
      ghost var files := cache.files;
      if page.Some? {
        PlaceOfBlock(blocks, files, nextId, k, page.value);
        PlacesInFiles(blocks, files, nextId);
        RemovedFiles(cache.State(), blocks[k].block) by { cache.FilesHaveChains(); }
        ErasedPage(blocks, files, nextId, k, page.value);
      }
      if blocks[k].block.Reference? {
        cache.DeleteFile(blocks[k].block.ref);
      }
      blocks := Erase(blocks, k);
      if page.Some? {
        PlacesInFiles(blocks, cache.files, nextId);
        DeletedDoc(old(State()), page.value);
      }
    }

    /** The page at `target` is the one that moves. */
    method MovePage(target: int, source: int) returns (ok: bool)
      requires Valid()
      modifies this
      ensures Valid() && lockedPages == old(lockedPages)
      ensures ok == (old(Editable()) && target != source && 0 <= target < |old(Doc())| && 0 <= source < |old(Doc())|)
      ensures State() == if ok then old(State()).(places := Moved(old(State()).places, target, source)) else old(State())
      ensures Doc() == if ok then Moved(old(Doc()), target, source) else old(Doc())
      ensures changed == (old(changed) || ok)
    {
      hide Denote, ValidList, CacheFile.CacheFile.Valid, Refines, IndexOf, At, Moved, Seen;
      if !readOnly && lockedPages == map[] {
        var n := GetPageCount();
        if target != source && 0 <= target < n && 0 <= source < n {
          ghost var files := cache.files;
          CountIsDoc(blocks, files, nextId);
          var blockSource := FindBlock(target, files);
          ghost var found, id := blocks, nextId;
          var blockTarget := FindBlock(source, files);
          StillAt(found, blocks, files, nextId, id, blockSource, target);
          var i, j := IndexOf(blocks, blockSource), IndexOf(blocks, blockTarget);
          MovePages(blocks, files, nextId, i, target, j, source);
          MovedCount(blocks, files, nextId, i, target, j, source);
          EraseAt(i, j);
          changed := true;
          MovedDoc(old(State()).places, files, target, source);
          return true;
        }
      }
      return false;
    }

    /** insert(block_target, *block_source) and erase(block_source). */
    method EraseAt(i: nat, j: nat)
      requires i < |blocks| && j < |blocks|
      modifies this`blocks, this`nextId
      ensures blocks == Erase(Insert(old(blocks), j, Node(old(nextId), old(blocks)[i].block)), After(i, j))
      ensures nextId == old(nextId) + 1
    {
      blocks := Insert(blocks, j, Node(nextId, blocks[i].block));
      nextId := nextId + 1;
      blocks := Erase(blocks, After(i, j));
    }

    // ---- Locking ----

    /** `dib` is what the plugin loads for this page of the source: a new bitmap, or nothing. */
    method LockPage(page: int, dib: Option<nat>) returns (r: Option<nat>)
      requires Valid() && (dib.Some? ==> dib.value !in lockedPages)
      modifies this`lockedPages
      ensures Valid() && State() == old(State()).(locked := lockedPages) && Doc() == old(Doc())
      ensures r == if page in old(lockedPages).Values then None else dib
      ensures lockedPages == if r.Some? then old(lockedPages)[r.value := page] else old(lockedPages)
    {
      if page in lockedPages.Values {
        return None;
      }
      if dib.Some? {
        lockedPages := lockedPages[dib.value := page];
      }
      return dib;
    }

    /** The bytes fit the pages that are free once the file of this page, if it has one, has gone. */
    ghost predicate RoomToReplace(page: nat, data: seq<byte>)
      reads this`blocks, this`lockedPages, cache`files, cache`chains, cache`freePages, cache`pageCount
      requires page < |Doc()|
    {
      Sound(Vacated(State(), page).alloc, data) && (State().places[page].OfFile? ==> cache.keepInMemory)
    }

    method UnlockPage(bitmap: nat, isChanged: bool, data: seq<byte>)
      requires Valid()
      requires bitmap in lockedPages && isChanged && !readOnly ==>
        data != [] && 0 <= lockedPages[bitmap] < |Doc()| && RoomToReplace(lockedPages[bitmap], data)
      modifies this, cache, cache.blocks
      ensures Valid() && fresh(cache.blocks - old(cache.blocks)) && lockedPages == old(lockedPages) - {bitmap}
      ensures |Doc()| == |old(Doc())|
      ensures State() == (if bitmap in old(lockedPages) && isChanged && !readOnly then
          ReplacedAt(old(State()), old(lockedPages[bitmap]), data)
        else old(State())).(locked := lockedPages)
      ensures Doc() == if bitmap in old(lockedPages) && isChanged && !readOnly then
          old(Doc())[old(lockedPages[bitmap]) := Stored(data)]
        else old(Doc())
      ensures changed == (old(changed) || (bitmap in old(lockedPages) && isChanged && !readOnly))
    {
      hide Denote, ValidList, CacheFile.CacheFile.Valid, Refines, IndexOf, At, Seen, Wrote, Removed;
      if bitmap in lockedPages {
        if isChanged && !readOnly {
          changed := true;
          ReplaceStored(lockedPages[bitmap], data);
        }
        lockedPages := lockedPages - {bitmap};
      }
    }

    /** Puts a stored page in place of a page. */
    method ReplaceStored(page: nat, data: seq<byte>)
      requires Valid() && data != [] && page < |Doc()| && RoomToReplace(page, data)
      modifies this`blocks, this`nextId, cache, cache.blocks
      ensures Valid() && fresh(cache.blocks - old(cache.blocks))
      ensures State() == ReplacedAt(old(State()), page, data)
      ensures Doc() == old(Doc())[page := Stored(data)]
    {
      hide Denote, ValidList, CacheFile.CacheFile.Valid, Refines, IndexOf, At, DocOf, InFiles, Wrote, Removed;
      ghost var files, was := cache.files, State();
      CountIsDoc(blocks, files, nextId);
      PlacesInFiles(blocks, files, nextId);
      var i := FindBlock(page, files);
      var k := IndexOf(blocks, i);
      PlaceOfBlock(blocks, files, nextId, k, page);
      FilesVacated(blocks, files, nextId, k, page);
      RemovedFiles(cache.State(), blocks[k].block) by { cache.FilesHaveChains(); }
      if blocks[k].block.Reference? {
        cache.DeleteFile(blocks[k].block.ref);
      }
      assert cache.State() == Vacated(was, page);
      var ref := cache.WriteFile(data);
      ghost var n := Node(blocks[k].id, Reference(ref, |data|));
      WroteFile(Vacated(was, page), data);
      ReplacedList(blocks, files, nextId, k, page, n, cache.files, data);
      blocks := blocks[k := Node(blocks[k].id, Reference(ref, |data|))];
      ReplacedDoc(was, page, data);
    }

    // ---- Saving ----

    /** The page loop of FreeImage_SaveMultiBitmapToHandle. */
    method Save(sink: PageSink) returns (success: bool)
      requires Valid() && sink.saved == []
      modifies cache, cache.blocks, sink
      ensures Valid() && State() == old(State()) && Doc() == old(Doc())
      ensures var n := StopAt(blocks, Doc(), sink.accepts, 0);
        0 <= n <= |Doc()| && sink.saved == Numbered(Doc()[..n])
        && success == (n > 0 ==> sink.accepts(Doc()[n - 1], n - 1))
      ensures |sink.saved| <= |Doc()| && forall i :: 0 <= i < |sink.saved| ==> sink.saved[i] == (Doc()[i], i)
    {
      hide Denote, ValidList, CacheFile.CacheFile.Valid, PagesIn, Count, PageCount, Seen, DocOf, StopAt;
      assert Count([]) == 0 by { EmptyDenotes(); }
      assert Numbered([]) == [];
      hide Numbered;
      ghost var d := Doc();
      success := true;
      var count := 0;
      AllValid(blocks, cache.files, nextId);
      CountIsLength(blocks, cache.files);
      DocIs();
      StopWithin(blocks, cache.files, d, sink.accepts, 0);
      assert blocks[..|blocks|] == blocks == blocks[0..];
      NothingLeft(d, sink.accepts, Count(blocks));
      for i := 0 to |blocks|
        invariant cache.Valid() && cache.State() == old(cache.State())
        invariant fresh(cache.blocks - old(cache.blocks))
        invariant success ==> count == Count(blocks[..i]) && StopAt(blocks, d, sink.accepts, 0) == StopAt(blocks[i..], d, sink.accepts, count)
        invariant !success ==> StopAt(blocks, d, sink.accepts, 0) == count
        invariant 0 <= count <= |d| && sink.saved == Numbered(d[..count])
        invariant success == (count > 0 ==> sink.accepts(d[count - 1], count - 1))
      {
        if success {
          DocIs();
          BlockPages(blocks, cache.files, i);
          StopStep(blocks, d, sink.accepts, i, count);
          success, count := SaveBlock(i, sink, d, count);
        } else {
          break;
        }
      }
      assert blocks[|blocks|..] == [];
    }

    lemma DocIs()
      ensures Doc() == Seen(Denote(blocks), cache.files) && |Doc()| == |Denote(blocks)|
    {
    }

    /** The pages of one block. */
    method SaveBlock(i: nat, sink: PageSink, ghost d: seq<DocPage>, n: nat) returns (success: bool, count: nat)
      requires cache.Valid() && i < |blocks| && ValidBlock(blocks[i].block, cache.files)
      requires n + PageCount(blocks[i].block) <= |d| && sink.saved == Numbered(d[..n])
      requires d[n..n + PageCount(blocks[i].block)] == Seen(PagesIn(blocks[i].block), cache.files)
      modifies cache, cache.blocks, sink
      ensures cache.Valid() && cache.State() == old(cache.State()) && cache.blocks == old(cache.blocks)
      ensures count == n + PageCount(blocks[i].block) && sink.saved == Numbered(d[..count])
      ensures success == sink.accepts(d[count - 1], count - 1)
    {
      hide CacheFile.CacheFile.Valid, Numbered, Seen;
      match blocks[i].block
      case Continuous(start, end) =>
        success, count := SaveRange(start, end, sink, d, n);
      case Reference(ref, size) =>
        var _, compressedData := cache.ReadFile(ref, size);
        SliceAt(d, n, Seen(PagesIn(blocks[i].block), cache.files), 0);
        assert d[n] == Stored(compressedData);
        NumberedSnoc(d, n);
        success := sink.SavePage(Stored(compressedData), n);
        count := n + 1;
    }

    /** The pages of a block of source pages: the result is that of the last one. */
    method SaveRange(start: int, end: int, sink: PageSink, ghost d: seq<DocPage>, n: nat) returns (success: bool, count: nat)
      requires 0 <= start <= end && n + end - start + 1 <= |d| && sink.saved == Numbered(d[..n])
      requires d[n..n + end - start + 1] == Seen(Range(start, end), cache.files)
      modifies sink
      ensures count == n + end - start + 1 && sink.saved == Numbered(d[..count])
      ensures success == sink.accepts(d[count - 1], count - 1)
    {
      hide Numbered, Seen, Range;
      count := n;
      success := true;
      for j := start to end + 1
        invariant count == n + j - start && sink.saved == Numbered(d[..count])
        invariant j > start ==> success == sink.accepts(d[count - 1], count - 1)
      {
        SourceAt(start, end, cache.files, j - start);
        SliceAt(d, n, Seen(Range(start, end), cache.files), j - start);
        NumberedSnoc(d, count);
        success := sink.SavePage(Source(j), count);
        count := count + 1;
      }
    }
  }

  lemma SliceAt(d: seq<DocPage>, n: nat, pages: seq<DocPage>, k: nat)
    requires k < |pages| && n + |pages| <= |d| && d[n..n + |pages|] == pages
    ensures d[n + k] == pages[k]
  {
  }

  lemma SourceAt(start: int, end: int, files: Files, k: nat)
    requires start + k <= end
    ensures |Seen(Range(start, end), files)| == end - start + 1 && Seen(Range(start, end), files)[k] == Source(start + k)
  {
  }

  /** The loop over the blocks is one step further. */
  lemma StopStep(list: seq<Node>, d: seq<DocPage>, accepts: Saver, i: nat, n: nat)
    requires i < |list| && n == Count(list[..i]) && 0 < n + PageCount(list[i].block) <= |d|
    ensures var m := n + PageCount(list[i].block);
      StopAt(list[i..], d, accepts, n) == (if accepts(d[m - 1], m - 1) then StopAt(list[i + 1..], d, accepts, m) else m)
      && m == Count(list[..i + 1])
  {
    PrefixSnoc(list, i);
    assert list[i..][1..] == list[i + 1..];
  }

  lemma NothingLeft(d: seq<DocPage>, accepts: Saver, n: int)
    ensures StopAt([], d, accepts, n) == n
  {
  }

  /** The place of a page found is that of its block. */
  lemma PlaceOfBlock(list: seq<Node>, files: Files, nextId: nat, k: nat, i: nat)
    requires ValidList(list, files, nextId) && At(list, k, i)
    ensures k < |list| && i < |Denote(list)| && ValidBlock(list[k].block, files)
    ensures Denote(list)[i] == if list[k].block.Reference? then OfFile(list[k].block.ref) else OfSource(list[k].block.start)
  {
    AllValid(list, files, nextId);
    AroundPage(list, k, i, files);
    assert list[k] in list;
    assert PagesIn(list[k].block)[0] == Denote(list)[i];
  }

  lemma RemovedFiles(s: Store, b: PageBlock)
    requires s.chains.Keys == s.files.Keys
    ensures b.Reference? ==> Removed(s, b.ref).files == WithoutFile(b, s.files)
  {
    if b.Reference? && b.ref !in s.files {
      assert s.files - {b.ref} == s.files;
    }
  }

  lemma WroteFile(s: Store, data: seq<byte>)
    requires data != []
    ensures Wrote(s, data).files == s.files[FirstPage(s.alloc) := data]
  {
  }

  lemma ErasedPage(list: seq<Node>, files: Files, nextId: nat, k: nat, i: nat)
    requires ValidList(list, files, nextId) && At(list, k, i)
    ensures k < |list| && i < |Denote(list)|
    ensures ValidList(Erase(list, k), WithoutFile(list[k].block, files), nextId)
    ensures Denote(Erase(list, k)) == Deleted(Denote(list), i)
  {
    AllValid(list, files, nextId);
    ValidErase(list, files, nextId, k);
    hide Denote, ValidList, At;
    ErasePage(list, k, i, files);
  }

  /** The other pages are in the files that are left. */
  lemma FilesVacated(list: seq<Node>, files: Files, nextId: nat, k: nat, i: nat)
    requires ValidList(list, files, nextId) && At(list, k, i)
    ensures k < |list| && i < |Denote(list)|
    ensures InFiles(Deleted(Denote(list), i), WithoutFile(list[k].block, files))
  {
    hide ValidList, Denote, At, InFiles;
    ErasedPage(list, files, nextId, k, i);
    PlacesInFiles(Erase(list, k), WithoutFile(list[k].block, files), nextId);
  }

  /** What a search with a negative position does to the list: a first block of several pages is split beside its pages. */
  ghost predicate Beside(before: seq<Node>, list: seq<Node>, nextId: nat, position: int)
  {
    if before == [] || IsSinglePage(before[0].block) then list == before
    else
      var b := before[0].block;
      b.Continuous? && list == Pieces(b, b.start + position, nextId) + before[1..]
  }

  function FoundBeside(before: seq<Node>, nextId: nat): int
  {
    if before == [] then -1 else if IsSinglePage(before[0].block) then before[0].id else nextId + 1
  }

  /** A list of which the first block is split beside its pages, and the middle one erased. */
  function Overlapping(before: seq<Node>, position: int, nextId: nat): seq<Node>
    requires before != [] && before[0].block.Continuous?
  {
    WithoutMiddle(before[0].block, before[0].block.start + position, nextId) + before[1..]
  }

  /** What DeletePage leaves for a negative number when the first block has several pages: by its counts the list is one
      page shorter, but it stands for at least as many pages as before. */
  lemma NegativePage(list: seq<Node>, files: Files, nextId: nat, position: int)
    requires ValidList(list, files, nextId) && list != [] && !IsSinglePage(list[0].block) && position < 0
    ensures list[0].block.Continuous?
    ensures var left := Overlapping(list, position, nextId);
      Count(left) == Count(list) - 1 && |Denote(left)| == |Denote(list)| - 1 - position
  {
    ElementValid(list, files, nextId, 0);
    hide ValidList, Denote, Count, PagesIn, PageCount, WithoutMiddle;
    OverlapPages(list[0].block, position, nextId);
    FirstReplaced(list, WithoutMiddle(list[0].block, list[0].block.start + position, nextId));
  }

  lemma FirstReplaced(list: seq<Node>, left: seq<Node>)
    requires list != []
    ensures Count(left + list[1..]) == Count(left) + Count(list) - PageCount(list[0].block)
    ensures |Denote(left + list[1..])| == |Denote(left)| + |Denote(list)| - |PagesIn(list[0].block)|
  {
    hide PagesIn, PageCount;
    DenoteAppend(left, list[1..]);
  }

  lemma OverlapPages(b: PageBlock, position: int, nextId: nat)
    requires b.Continuous? && b.start < b.end && position < 0
    ensures var left := WithoutMiddle(b, b.start + position, nextId);
      Count(left) == PageCount(b) - 1 && |Denote(left)| == |PagesIn(b)| - 1 - position
  {
    var item := b.start + position;
    var l, r := Node(nextId, Continuous(b.start, item - 1)), Node(nextId + 2, Continuous(item + 1, b.end));
    assert WithoutMiddle(b, item, nextId) == [l] + [r];
    DenoteOne(l);
    DenoteOne(r);
    DenoteAppend([l], [r]);
  }

  lemma SplitBeside(before: seq<Node>, list: seq<Node>, id: nat, position: int)
    requires Beside(before, list, id, position) && before != [] && !IsSinglePage(before[0].block) && position < 0
    ensures IndexOf(list, id + 1) < |list| && list[IndexOf(list, id + 1)].block.Continuous?
    ensures Erase(list, IndexOf(list, id + 1)) == Overlapping(before, position, id)
  {
    var b := before[0].block;
    var p := Pieces(b, b.start + position, id);
    assert p[0].id == id && p[1].id == id + 1 && list[0] == p[0] && list[1..][0] == p[1];
    assert IndexOf(list, id + 1) == 1;
    EraseInFront(p, before[1..], 1);
  }

  lemma EraseInFront(a: seq<Node>, b: seq<Node>, k: nat)
    requires k < |a|
    ensures Erase(a + b, k) == Erase(a, k) + b
  {
  }

  /** A single-page block at the front is page 0. */
  lemma FirstAt(list: seq<Node>, files: Files, nextId: nat)
    requires ValidList(list, files, nextId)
    ensures list != [] && IsSinglePage(list[0].block) ==> At(list, 0, 0) && IndexOf(list, list[0].id) == 0
    ensures list != [] ==> Count(list) > 0
  {
    CountIsLength(list, files);
    assert Count(list[..0]) == 0;
  }

  /** A single-page block found first is still there after the second search. */
  lemma StillAt(found: seq<Node>, list: seq<Node>, files: Files, nextId: nat, id: nat, it: int, i: nat)
    requires Refines(found, list, id) && At(found, IndexOf(found, it), i) && ValidList(list, files, nextId)
    ensures At(list, IndexOf(list, it), i)
  {
    DistinctIs(list, files, nextId);
    hide ValidList, Refines;
    var k := StaysAt(found, list, id, IndexOf(found, it), i);
    IndexIs(list, k);
  }

  lemma MovedCount(list: seq<Node>, files: Files, nextId: nat, i: nat, t: nat, j: nat, s: nat)
    requires ValidList(list, files, nextId) && At(list, i, t) && At(list, j, s) && t != s
    ensures i < |list| && j < |list|
    ensures Count(Erase(Insert(list, j, Node(nextId, list[i].block)), After(i, j))) == Count(list)
  {
    MovePages(list, files, nextId, i, t, j, s);
    var after := Erase(Insert(list, j, Node(nextId, list[i].block)), After(i, j));
    CountIsDoc(list, files, nextId);
    CountIsDoc(after, files, nextId + 1);
  }

  lemma ReplacedList(list: seq<Node>, files: Files, nextId: nat, k: nat, i: nat, n: Node, files': Files, data: seq<byte>)
    requires ValidList(list, files, nextId) && At(list, k, i) && n.id == list[k].id
    requires StoredAs(n.block, data, WithoutFile(list[k].block, files), files')
    ensures ValidList(list[k := n], files', nextId) && i < |Denote(list)|
    ensures Denote(list[k := n]) == Denote(list)[i := OfFile(n.block.ref)]
    ensures Count(list[k := n]) == Count(list)
  {
    hide ValidList, Denote;
    ValidReplace(list, files, nextId, k, n, files');
    ReplacedPlaces(list, files, nextId, k, i, n);
    CountIsDoc(list, files, nextId);
    CountIsDoc(list[k := n], files', nextId);
  }

  lemma ReplacedPlaces(list: seq<Node>, files: Files, nextId: nat, k: nat, i: nat, n: Node)
    requires ValidList(list, files, nextId) && At(list, k, i) && n.block.Reference?
    ensures i < |Denote(list)| && k < |list| && Denote(list[k := n]) == Denote(list)[i := OfFile(n.block.ref)]
  {
    AllValid(list, files, nextId);
    hide ValidList, Denote, PagesIn;
    AroundPage(list, k, i, files);
    hide At;
    assert list[k := n] == list[..k] + [n] + list[k + 1..];
    DenoteParts(list[..k], [n], list[k + 1..]);
    DenoteOne(n);
    assert PagesIn(n.block) == [OfFile(n.block.ref)] by { StoredPlace(n.block); }
    SpliceIsUpdate(Denote(list), i, OfFile(n.block.ref));
  }

  lemma StoredPlace(b: PageBlock)
    requires b.Reference?
    ensures PagesIn(b) == [OfFile(b.ref)]
  {
  }

  lemma SpliceIsUpdate(d: seq<PageAt>, i: nat, page: PageAt)
    requires i < |d|
    ensures d[..i] + [page] + d[i + 1..] == d[i := page]
  {
  }

  lemma CountIsDoc(list: seq<Node>, files: Files, nextId: nat)
    requires ValidList(list, files, nextId)
    ensures Count(list) == |Denote(list)| >= |list|
  {
    CountIsLength(list, files);
  }

  lemma AroundFound(list: seq<Node>, files: Files, nextId: nat, k: nat, i: nat)
    requires ValidList(list, files, nextId) && At(list, k, i)
    ensures var d := Denote(list);
      i < |d| && Denote(list[..k]) == d[..i] && Denote(list[k..]) == d[i..]
  {
    AllValid(list, files, nextId);
    hide ValidList, Denote, PagesIn, Count;
    AroundPage(list, k, i, files);
    CountIsLength(list[..k], files);
    hide At;
    DenoteAppend(list[..k], list[k..]);
    assert list == list[..k] + list[k..];
  }

  /** The block refers to a new file with this content. */
  ghost predicate StoredAs(block: PageBlock, data: seq<byte>, before: Files, after: Files)
  {
    block.Reference? && block.size == |data| && block.ref !in before && after == before[block.ref := data]
  }

  lemma InsertBetween(a: seq<Node>, mid: seq<Node>, b: seq<Node>, n: Node)
    ensures Insert(a + mid + b, |a| + |mid|, n) == a + (mid + [n]) + b
  {
  }

  lemma EraseBehind(a: seq<Node>, mid: seq<Node>, b: seq<Node>)
    requires b != []
    ensures Erase(a + mid + b, |a| + |mid|) == a + mid + b[1..]
  {
  }

  lemma DistinctIs(list: seq<Node>, files: Files, nextId: nat)
    requires ValidList(list, files, nextId)
    ensures Distinct(list) && forall n :: n in list ==> ValidBlock(n.block, files) && PageCount(n.block) > 0
  {
  }

  lemma TargetAt(before: seq<Node>, list: seq<Node>, k: nat, item: int, id: nat, target: nat,
    position: nat)
    requires k < |before| && SplitAt(before, list, k, item, id)
    requires target == if item != before[k].block.start then k + 1 else k
    requires position == Count(before[..k]) + item - before[k].block.start
    ensures target < |list| && list[target] == Node(id + 1, Continuous(item, item)) && At(list, target, position)
  {
    if target == k {
      assert list[..k] == before[..k];
    } else {
      PrefixSnoc(list, k);
      assert list[..k] == before[..k];
    }
  }
}