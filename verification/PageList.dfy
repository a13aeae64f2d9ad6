/** The block list of MultiPage.cpp as a value: blocks of source pages and single stored pages, and the sequence
    of pages that a list of blocks stands for, first by their places and then with what the files hold. */
module PageList {
  import opened Numbers
  import opened PageChains

  datatype PageBlock = Continuous(start: int, end: int) | Reference(ref: nat, size: nat)

  /** A node of the list; iterators are modelled by the node's id. */
  datatype Node = Node(id: nat, block: PageBlock)

  /** Where a page of the document is: in the source, or in a file of the store. */
  datatype PageAt = OfSource(page: int) | OfFile(ref: nat)

  datatype DocPage = Source(page: int) | Stored(bytes: seq<byte>)

  type Files = map<nat, seq<byte>>

  function IsSinglePage(b: PageBlock): bool
  {
    if b.Continuous? then b.start == b.end else true
  }

  function PageCount(b: PageBlock): int
  {
    if b.Continuous? then b.end - b.start + 1 else 1
  }

  function Count(list: seq<Node>): int
  {
    if list == [] then 0 else PageCount(list[0].block) + Count(list[1..])
  }

  /** The pages from start to end: what the loop of the save function runs over. */
  function Range(start: int, end: int): (r: seq<PageAt>)
    ensures |r| == if start <= end then end - start + 1 else 0
  {
    if start <= end then seq<PageAt>(end - start + 1, i => OfSource(start + i)) else []
  }

  function PagesIn(b: PageBlock): seq<PageAt>
  {
    match b
    case Continuous(start, end) => Range(start, end)
    case Reference(ref, _) => [OfFile(ref)]
  }

  /** The places of the pages that a list stands for. */
  function Denote(list: seq<Node>): seq<PageAt>
  {
    if list == [] then [] else PagesIn(list[0].block) + Denote(list[1..])
  }

  function SeenPage(place: PageAt, files: Files): DocPage
  {
    match place
    case OfSource(page) => Source(page)
    case OfFile(ref) => Stored(if ref in files then files[ref] else [])
  }

  /** The pages at these places. */
  function Seen(places: seq<PageAt>, files: Files): (d: seq<DocPage>)
    ensures |d| == |places| && forall i :: 0 <= i < |d| ==> d[i] == SeenPage(places[i], files)
  {
    seq(|places|, i requires 0 <= i < |places| => SeenPage(places[i], files))
  }

  // ---- Well-formed lists ----

  ghost predicate ValidBlock(b: PageBlock, files: Files)
  {
    match b
    case Continuous(start, end) => 0 <= start <= end
    case Reference(ref, size) => ref in files && size == |files[ref]|
  }

  ghost predicate Distinct(list: seq<Node>)
  {
    forall i, j :: 0 <= i < j < |list| ==> list[i].id != list[j].id && !SameFile(list[i].block, list[j].block)
  }

  predicate SameFile(a: PageBlock, b: PageBlock)
  {
    a.Reference? && b.Reference? && a.ref == b.ref
  }

  function Refs(list: seq<Node>): set<nat>
  {
    set n | n in list && n.block.Reference? :: n.block.ref
  }

  /** Every stored file belongs to one block of the list, and every reference block has one. */
  ghost predicate ValidList(list: seq<Node>, files: Files, nextId: nat)
  {
    && (forall n :: n in list ==> ValidBlock(n.block, files) && n.id < nextId)
    && Distinct(list) && files.Keys == Refs(list)
  }

  function Insert(list: seq<Node>, k: nat, n: Node): seq<Node>
    requires k <= |list|
  {
    list[..k] + [n] + list[k..]
  }

  function Erase(list: seq<Node>, k: nat): seq<Node>
    requires k < |list|
  {
    list[..k] + list[k + 1..]
  }

  function WithoutFile(b: PageBlock, files: Files): Files
  {
    if b.Reference? then files - {b.ref} else files
  }

  lemma ValidErase(list: seq<Node>, files: Files, nextId: nat, k: nat)
    requires ValidList(list, files, nextId) && k < |list|
    ensures ValidList(Erase(list, k), WithoutFile(list[k].block, files), nextId)
  {
    var after, files' := Erase(list, k), WithoutFile(list[k].block, files);
    forall i | 0 <= i < |after| ensures ValidBlock(after[i].block, files') && after[i].id < nextId {
      assert after[i] in list;
      assert after[i] == list[if i < k then i else i + 1];
    }
    DistinctErase(list, k);
    hide Distinct;
    forall r | r in files' ensures r in Refs(after) {
      var n :| n in list && n.block.Reference? && n.block.ref == r;
      var i :| 0 <= i < |list| && list[i] == n;
      assert after[if i < k then i else i - 1] == n;
    }
    forall n | n in after && n.block.Reference? ensures n.block.ref in files' {
    }
  }

  lemma DistinctErase(list: seq<Node>, k: nat)
    requires Distinct(list) && k < |list|
    ensures Distinct(Erase(list, k))
  {
    var after := Erase(list, k);
    forall i, j | 0 <= i < j < |after| ensures after[i].id != after[j].id && !SameFile(after[i].block, after[j].block) {
      assert after[i] == list[if i < k then i else i + 1] && after[j] == list[if j < k then j else j + 1];
    }
  }

  lemma ValidInsert(list: seq<Node>, files: Files, nextId: nat, k: nat, n: Node, files': Files)
    requires ValidList(list, files, nextId) && k <= |list| && nextId <= n.id && ValidBlock(n.block, files')
    requires if n.block.Reference? then n.block.ref !in files && files' == files[n.block.ref := files'[n.block.ref]]
      else files' == files
    ensures ValidList(Insert(list, k, n), files', n.id + 1)
  {
    var after := Insert(list, k, n);
    forall m | m in after ensures ValidBlock(m.block, files') && m.id < n.id + 1 {
      assert m == n || m in list;
    }
    forall i, j | 0 <= i < j < |after| ensures after[i].id != after[j].id && !SameFile(after[i].block, after[j].block) {
      assert i != k ==> after[i] == list[if i < k then i else i - 1] && after[i] in list;
      assert j != k ==> after[j] == list[if j < k then j else j - 1] && after[j] in list;
    }
    assert n in after && forall m :: m in list ==> m in after;
  }

  // ---- Lists and the sequences they stand for ----

  lemma {:induction false} DenoteAppend(a: seq<Node>, b: seq<Node>)
    ensures Denote(a + b) == Denote(a) + Denote(b)
    ensures Count(a + b) == Count(a) + Count(b)
  {
    if a == [] {
      assert a + b == b;
    } else {
      var ab := a + b;
      assert ab[0] == a[0] && ab[1..] == a[1..] + b;
      DenoteAppend(a[1..], b);
      var first := PagesIn(a[0].block);
      assert first + (Denote(a[1..]) + Denote(b)) == first + Denote(a[1..]) + Denote(b);
    }
  }

  lemma DenoteOne(n: Node)
    ensures Denote([n]) == PagesIn(n.block) && Count([n]) == PageCount(n.block)
  {
  }

  lemma DenoteParts(a: seq<Node>, b: seq<Node>, c: seq<Node>)
    ensures Denote(a + b + c) == Denote(a) + Denote(b) + Denote(c)
    ensures Count(a + b + c) == Count(a) + Count(b) + Count(c)
  {
    hide Denote, Count;
    DenoteAppend(a + b, c);
    DenoteAppend(a, b);
  }

  lemma {:induction false} CountIsLength(list: seq<Node>, files: Files)
    requires forall n :: n in list ==> ValidBlock(n.block, files)
    ensures |Denote(list)| == Count(list) >= |list|
  {
    if list != [] {
      CountIsLength(list[1..], files);
    }
  }

  /** Pages do not depend on files that they are not in. */
  lemma SeenKept(places: seq<PageAt>, before: Files, after: Files)
    requires forall p :: p in places && p.OfFile? ==>
      p.ref in before && p.ref in after && before[p.ref] == after[p.ref]
    ensures Seen(places, before) == Seen(places, after)
  {
    forall i | 0 <= i < |places| ensures SeenPage(places[i], before) == SeenPage(places[i], after) {
      assert places[i] in places;
    }
  }

  /** The places in the store are those of the reference blocks. */
  lemma {:induction false} RefsDenoted(list: seq<Node>, r: nat)
    ensures OfFile(r) in Denote(list) <==> r in Refs(list)
  {
    if list != [] {
      RefsDenoted(list[1..], r);
      assert forall n :: n in list <==> n == list[0] || n in list[1..];
      assert list[0] in list;
      RefHere(list[0].block, r);
    }
  }

  lemma RefHere(b: PageBlock, r: nat)
    ensures OfFile(r) in PagesIn(b) <==> b.Reference? && b.ref == r
  {
  }

  // ---- Splitting a block ----

  /** The blocks that FindBlock puts in place of one that spans several pages. */
  function Pieces(b: PageBlock, item: int, id: nat): seq<Node>
    requires b.Continuous?
  {
    (if item != b.start then [Node(id, Continuous(b.start, item - 1))] else [])
    + [Node(id + 1, Continuous(item, item))]
    + (if item != b.end then [Node(id + 2, Continuous(item + 1, b.end))] else [])
  }

  /** Splitting at a page of the block changes nothing that it stands for. */
  lemma PiecesDenote(b: PageBlock, item: int, id: nat)
    requires b.Continuous? && b.start <= item <= b.end
    ensures Denote(Pieces(b, item, id)) == PagesIn(b)
    ensures Count(Pieces(b, item, id)) == PageCount(b)
  {
    var left := if item != b.start then [Node(id, Continuous(b.start, item - 1))] else [];
    var middle := [Node(id + 1, Continuous(item, item))];
    var right := if item != b.end then [Node(id + 2, Continuous(item + 1, b.end))] else [];
    DenoteParts(left, middle, right);
    DenoteOne(Node(id, Continuous(b.start, item - 1)));
    DenoteOne(middle[0]);
    DenoteOne(Node(id + 2, Continuous(item + 1, b.end)));
    assert Denote([]) == [] && Count([]) == 0;
    hide Denote, Count;
    RangeSplit(b.start, item, b.end);
  }

  lemma RangeSplit(start: int, item: int, end: int)
    requires start <= item <= end
    ensures Range(start, item - 1) + Range(item, item) + Range(item + 1, end) == Range(start, end)
  {
  }

  /** The pieces of a block once the middle one is erased. */
  function WithoutMiddle(b: PageBlock, item: int, id: nat): seq<Node>
    requires b.Continuous?
  {
    Erase(Pieces(b, item, id), if item != b.start then 1 else 0)
  }

  // ---- The list operations ----

  /** Page i of the sequence is the single page of block k. */
  ghost predicate At(list: seq<Node>, k: nat, i: nat)
  {
    k < |list| && IsSinglePage(list[k].block) && Count(list[..k]) == i
  }

  /** `list` is `before`, or `before` with one block of several pages split. */
  ghost predicate Refines(before: seq<Node>, list: seq<Node>, nextId: nat)
  {
    list == before ||
    exists k, item :: 0 <= k < |before| && SplitAt(before, list, k, item, nextId)
  }

  ghost predicate SplitAt(before: seq<Node>, list: seq<Node>, k: int, item: int, nextId: nat)
    requires 0 <= k < |before|
  {
    var b := before[k].block;
    b.Continuous? && b.start <= item <= b.end && b.start < b.end
    && list == before[..k] + Pieces(b, item, nextId) + before[k + 1..]
  }

  lemma SplitDenote(before: seq<Node>, list: seq<Node>, k: nat, item: int, nextId: nat)
    requires k < |before| && SplitAt(before, list, k, item, nextId)
    ensures Denote(list) == Denote(before) && Count(list) == Count(before)
  {
    var b := before[k].block;
    hide Denote, Count, Pieces, PagesIn, PageCount;
    PiecesDenote(b, item, nextId);
    DenoteOne(before[k]);
    assert before == before[..k] + [before[k]] + before[k + 1..];
    hide SplitAt;
    SamePart(before[..k], Pieces(b, item, nextId), [before[k]], before[k + 1..]);
  }

  lemma SamePart(a: seq<Node>, p: seq<Node>, q: seq<Node>, c: seq<Node>)
    requires Denote(p) == Denote(q) && Count(p) == Count(q)
    ensures Denote(a + p + c) == Denote(a + q + c) && Count(a + p + c) == Count(a + q + c)
  {
    hide Denote, Count;
    DenoteParts(a, p, c);
    DenoteParts(a, q, c);
  }

  /** A single-page block found before stays in the list, at the same page. */
  lemma StaysAt(before: seq<Node>, list: seq<Node>, nextId: nat, j: nat, i: nat) returns (j': nat)
    requires Refines(before, list, nextId) && At(before, j, i)
    ensures At(list, j', i) && list[j'] == before[j]
  {
    j' := j;
    if list != before {
      var k, item :| 0 <= k < |before| && SplitAt(before, list, k, item, nextId);
      var pieces := Pieces(before[k].block, item, nextId);
      assert j != k;
      if j < k {
        assert list[..j] == before[..j];
      } else {
        j' := j - 1 + |pieces|;
        SameCount(before, list, k, item, nextId, j);
      }
    }
  }

  /** Behind a split block, the pages are counted as before. */
  lemma SameCount(before: seq<Node>, list: seq<Node>, k: nat, item: int, nextId: nat, j: nat)
    requires k < j <= |before| && SplitAt(before, list, k, item, nextId)
    ensures var n := |Pieces(before[k].block, item, nextId)|;
      j - 1 + n <= |list| && Count(list[..j - 1 + n]) == Count(before[..j])
      && (j < |before| ==> j - 1 + n < |list| && list[j - 1 + n] == before[j])
  {
    hide Pieces;
    var pieces, rest := Pieces(before[k].block, item, nextId), before[k + 1..j];
    assert before[..j] == before[..k] + [before[k]] + rest;
    assert list[..j - 1 + |pieces|] == before[..k] + pieces + rest;
    PiecesDenote(before[k].block, item, nextId);
    DenoteOne(before[k]);
    SamePart(before[..k], pieces, [before[k]], rest);
  }

  /** Around a single-page block. */
  lemma AroundPage(list: seq<Node>, k: nat, i: nat, files: Files)
    requires At(list, k, i) && forall n :: n in list ==> ValidBlock(n.block, files)
    ensures i < |Denote(list)| == Count(list)
    ensures Denote(list[..k]) == Denote(list)[..i]
    ensures Denote(list[k + 1..]) == Denote(list)[i + 1..]
    ensures PagesIn(list[k].block) == [Denote(list)[i]]
  {
    assert list == list[..k] + [list[k]] + list[k + 1..];
    assert list[k] in list && |PagesIn(list[k].block)| == 1;
    DenoteOne(list[k]);
    CountIsLength(list[..k], files);
    CountIsLength(list, files);
    hide Denote, Count, PagesIn;
    DenoteParts(list[..k], [list[k]], list[k + 1..]);
    AroundOne(Denote(list[..k]), PagesIn(list[k].block), Denote(list[k + 1..]));
  }

  lemma AroundOne(x: seq<PageAt>, p: seq<PageAt>, z: seq<PageAt>)
    requires |p| == 1
    ensures var d := x + p + z; d[..|x|] == x && d[|x| + 1..] == z && p == [d[|x|]]
  {
  }

  lemma ErasePage(list: seq<Node>, k: nat, i: nat, files: Files)
    requires At(list, k, i) && forall n :: n in list ==> ValidBlock(n.block, files)
    ensures var d := Denote(list);
      i < |d| && Denote(Erase(list, k)) == d[..i] + d[i + 1..]
  {
    AroundPage(list, k, i, files);
    DenoteAppend(list[..k], list[k + 1..]);
  }

  lemma InsertPage(list: seq<Node>, k: nat, i: nat, n: Node, files: Files)
    requires At(list, k, i) && forall n :: n in list ==> ValidBlock(n.block, files)
    ensures var d := Denote(list);
      i < |d| && Denote(Insert(list, k, n)) == d[..i] + PagesIn(n.block) + d[i..]
  {
    hide Denote, Count, PagesIn;
    AroundPage(list, k, i, files);
    DenoteParts(list[..k], [n], list[k..]);
    DenoteOne(n);
    assert list[k..] == [list[k]] + list[k + 1..];
    DenoteAppend([list[k]], list[k + 1..]);
    DenoteOne(list[k]);
    assert Denote(list)[i..] == [Denote(list)[i]] + Denote(list)[i + 1..];
  }

  /** Splitting a block keeps the list well formed. */
  lemma ValidSplit(before: seq<Node>, list: seq<Node>, k: nat, item: int, nextId: nat, files: Files)
    requires ValidList(before, files, nextId) && k < |before| && SplitAt(before, list, k, item, nextId)
    ensures ValidList(list, files, nextId + 3)
  {
    hide ValidList;
    assert before[k] in before && ValidBlock(before[k].block, files) by { ElementValid(before, files, nextId, k); }
    var b, a, rest := before[k].block, before[..k], before[k + 1..];
    ValidErase(before, files, nextId, k);
    var left := if item != b.start then [Node(nextId, Continuous(b.start, item - 1))] else [];
    var middle := Node(nextId + 1, Continuous(item, item));
    if item != b.start {
      assert a + [] + rest == a + rest;
      ValidBetween(a, [], rest, left[0], files, nextId);
      assert [] + left == left;
    } else {
      assert a + left + rest == a + rest;
    }
    ValidMore(a + left + rest, files, if item != b.start then nextId + 1 else nextId, nextId + 1);
    ValidBetween(a, left, rest, middle, files, nextId + 1);
    if item != b.end {
      ValidBetween(a, left + [middle], rest, Node(nextId + 2, Continuous(item + 1, b.end)), files, nextId + 2);
    } else {
      assert Pieces(b, item, nextId) == left + [middle];
    }
    ValidMore(list, files, if item != b.end then nextId + 3 else nextId + 2, nextId + 3);
  }

  lemma ValidBetween(a: seq<Node>, mid: seq<Node>, b: seq<Node>, n: Node, files: Files, nextId: nat)
    requires ValidList(a + mid + b, files, nextId) && n.id == nextId && n.block.Continuous? && ValidBlock(n.block, files)
    ensures ValidList(a + (mid + [n]) + b, files, nextId + 1)
  {
    hide ValidList;
    ValidInsert(a + mid + b, files, nextId, |a + mid|, n, files);
    assert Insert(a + mid + b, |a + mid|, n) == a + (mid + [n]) + b;
  }

  lemma ElementValid(list: seq<Node>, files: Files, nextId: nat, k: nat)
    requires ValidList(list, files, nextId) && k < |list|
    ensures ValidBlock(list[k].block, files) && list[k].id < nextId
  {
    assert list[k] in list;
  }

  lemma ValidMore(list: seq<Node>, files: Files, nextId: nat, more: nat)
    requires ValidList(list, files, nextId) && nextId <= more
    ensures ValidList(list, files, more)
  {
  }

  // ---- Editing operations on the sequence ----

  function Inserted<T>(d: seq<T>, i: nat, page: T): seq<T>
    requires i <= |d|
  {
    d[..i] + [page] + d[i..]
  }

  function Deleted<T>(d: seq<T>, i: nat): seq<T>
    requires i < |d|
  {
    d[..i] + d[i + 1..]
  }

  /** The page at `target` ends up just before the page that was at `source`. */
  function Moved<T>(d: seq<T>, target: nat, source: nat): seq<T>
    requires target < |d| && source < |d| && target != source
  {
    Inserted(Deleted(d, target), if target < source then source - 1 else source, d[target])
  }

  // ---- Documents as values ----

  /** The places of the pages, the store that has the files, and which bitmap is locked for which page. */
  datatype Document = Document(places: seq<PageAt>, store: Store, locked: map<nat, int>)

  function Appended(d: Document, data: seq<byte>): Document
  {
    d.(places := d.places + [OfFile(FirstPage(d.store.alloc))], store := Wrote(d.store, data))
  }

  function InsertedAt(d: Document, page: int, data: seq<byte>): Document
    requires page < |d.places|
  {
    d.(places := Inserted(d.places, if page > 0 then page else 0, OfFile(FirstPage(d.store.alloc))),
       store := Wrote(d.store, data))
  }

  /** The store once the file of this page, if it has one, is deleted. */
  function Vacated(d: Document, page: nat): Store
    requires page < |d.places|
  {
    if d.places[page].OfFile? then Removed(d.store, d.places[page].ref) else d.store
  }

  function DeletedAt(d: Document, page: nat): Document
    requires page < |d.places|
  {
    d.(places := Deleted(d.places, page), store := Vacated(d, page))
  }

  function ReplacedAt(d: Document, page: nat, data: seq<byte>): Document
    requires page < |d.places|
  {
    d.(places := d.places[page := OfFile(FirstPage(Vacated(d, page).alloc))], store := Wrote(Vacated(d, page), data))
  }

  /** The pages of the document. */
  function DocOf(d: Document): (doc: seq<DocPage>)
    ensures |doc| == |d.places|
  {
    Seen(d.places, d.store.files)
  }

  ghost predicate InFiles(places: seq<PageAt>, files: Files)
  {
    forall p :: p in places && p.OfFile? ==> p.ref in files
  }

  lemma PlacesInFiles(list: seq<Node>, files: Files, nextId: nat)
    requires ValidList(list, files, nextId)
    ensures InFiles(Denote(list), files)
  {
    forall p | p in Denote(list) && p.OfFile? ensures p.ref in files {
      RefsDenoted(list, p.ref);
    }
  }

  lemma AppendedDoc(d: Document, data: seq<byte>)
    requires InFiles(d.places, d.store.files) && data != [] && FirstPage(d.store.alloc) !in d.store.files
    ensures DocOf(Appended(d, data)) == DocOf(d) + [Stored(data)]
  {
    SeenKept(d.places, d.store.files, Wrote(d.store, data).files);
  }

  lemma InsertedDoc(d: Document, page: int, data: seq<byte>)
    requires InFiles(d.places, d.store.files) && data != [] && FirstPage(d.store.alloc) !in d.store.files
    requires page < |d.places|
    ensures DocOf(InsertedAt(d, page, data)) == Inserted(DocOf(d), if page > 0 then page else 0, Stored(data))
  {
    SeenKept(d.places, d.store.files, Wrote(d.store, data).files);
  }

  lemma DeletedDoc(d: Document, page: nat)
    requires page < |d.places| && InFiles(d.places, d.store.files)
    requires InFiles(Deleted(d.places, page), Vacated(d, page).files)
    ensures DocOf(DeletedAt(d, page)) == Deleted(DocOf(d), page)
  {
    SeenKept(Deleted(d.places, page), Vacated(d, page).files, d.store.files);
  }

  lemma ReplacedDoc(d: Document, page: nat, data: seq<byte>)
    requires page < |d.places| && InFiles(d.places, d.store.files) && data != []
    requires InFiles(Deleted(d.places, page), Vacated(d, page).files)
    requires FirstPage(Vacated(d, page).alloc) !in Vacated(d, page).files
    ensures DocOf(ReplacedAt(d, page, data)) == DocOf(d)[page := Stored(data)]
  {
    var fewer, rest := Vacated(d, page), Deleted(d.places, page);
    var after := Wrote(fewer, data).files;
    SeenKept(rest, fewer.files, d.store.files);
    SeenKept(rest, fewer.files, after);
    forall i | 0 <= i < |d.places| && i != page ensures SeenPage(d.places[i], after) == SeenPage(d.places[i], d.store.files) {
      assert d.places[i] == rest[if i < page then i else i - 1];
    }
  }

  lemma MovedDoc(places: seq<PageAt>, files: Files, target: nat, source: nat)
    requires target < |places| && source < |places| && target != source
    ensures Seen(Moved(places, target, source), files) == Moved(Seen(places, files), target, source)
  {
    hide Inserted, Deleted;
    SeenDeleted(places, files, target);
    SeenInserted(Deleted(places, target), files, if target < source then source - 1 else source, places[target]);
  }

  lemma SeenDeleted(places: seq<PageAt>, files: Files, i: nat)
    requires i < |places|
    ensures Seen(Deleted(places, i), files) == Deleted(Seen(places, files), i)
    ensures |Deleted(places, i)| == |places| - 1
  {
  }

  lemma SeenInserted(places: seq<PageAt>, files: Files, i: nat, p: PageAt)
    requires i <= |places|
    ensures Seen(Inserted(places, i, p), files) == Inserted(Seen(places, files), i, SeenPage(p, files))
  {
  }

  /** Where the node is after a node has been put before block j. */
  function After(i: nat, j: nat): nat
  {
    if i < j then i else i + 1
  }

  /** Moving as the list does it: a copy of block i before block j, and then block i is erased. */
  lemma MovePages(list: seq<Node>, files: Files, nextId: nat, i: nat, t: nat, j: nat, s: nat)
    requires ValidList(list, files, nextId) && At(list, i, t) && At(list, j, s) && t != s
    ensures t < |Denote(list)| && s < |Denote(list)|
    ensures var list' := Erase(Insert(list, j, Node(nextId, list[i].block)), After(i, j));
      ValidList(list', files, nextId + 1) && Denote(list') == Moved(Denote(list), t, s)
  {
    hide ValidList, At, Denote, PagesIn;
    OrderOfPages(list, files, nextId, i, t, j, s);
    var n, without := Node(nextId, list[i].block), Erase(list, i);
    var j' := if i < j then j - 1 else j;
    EraseInserted(list, i, j, n);
    PutBack(list, files, nextId, i, j', n);
    PutBackPages(list, files, nextId, i, t, j, s, n);
  }

  lemma EraseInserted(list: seq<Node>, i: nat, j: nat, n: Node)
    requires i < |list| && j < |list| && i != j
    ensures Erase(Insert(list, j, n), After(i, j)) == Insert(Erase(list, i), if i < j then j - 1 else j, n)
  {
    if i < j {
      var a, b, c := list[..i], list[i + 1..j], list[j..];
      assert Insert(list, j, n) == a + [list[i]] + b + [n] + c;
      assert Erase(list, i) == a + b + c;
    } else {
      var a, b, c := list[..j], list[j..i], list[i + 1..];
      assert Insert(list, j, n) == a + [n] + b + [list[i]] + c;
      assert Erase(list, i) == a + b + c;
    }
  }

  lemma PutBackPages(list: seq<Node>, files: Files, nextId: nat, i: nat, t: nat, j: nat, s: nat, n: Node)
    requires ValidList(list, files, nextId) && At(list, i, t) && At(list, j, s) && t != s && i != j && (i < j <==> t < s)
    requires n.block == list[i].block
    ensures t < |Denote(list)| && s < |Denote(list)|
    ensures Denote(Insert(Erase(list, i), if i < j then j - 1 else j, n)) == Moved(Denote(list), t, s)
  {
    AtErased(list, files, nextId, i, t, j, s);
    AllValid(list, files, nextId);
    assert list[i] in list;
    hide ValidList, At, Denote, PagesIn;
    AroundPage(list, i, t, files);
    AroundPage(list, j, s, files);
    ErasePage(list, i, t, files);
    var without := Erase(list, i);
    assert forall m :: m in without ==> m in list;
    InsertPage(without, if i < j then j - 1 else j, if t < s then s - 1 else s, n, files);
  }

  lemma AllValid(list: seq<Node>, files: Files, nextId: nat)
    requires ValidList(list, files, nextId)
    ensures forall n :: n in list ==> ValidBlock(n.block, files)
  {
  }

  lemma PutBack(list: seq<Node>, files: Files, nextId: nat, i: nat, j: nat, n: Node)
    requires ValidList(list, files, nextId) && i < |list| && j < |list| && n == Node(nextId, list[i].block)
    ensures ValidList(Insert(Erase(list, i), j, n), files, nextId + 1)
  {
    ValidErase(list, files, nextId, i);
    ElementValid(list, files, nextId, i);
    hide ValidList;
    var fewer := WithoutFile(n.block, files);
    assert n.block.Reference? ==> files == fewer[n.block.ref := files[n.block.ref]];
    ValidInsert(Erase(list, i), fewer, nextId, j, n, files);
  }

  lemma OrderOfPages(list: seq<Node>, files: Files, nextId: nat, i: nat, t: nat, j: nat, s: nat)
    requires ValidList(list, files, nextId) && At(list, i, t) && At(list, j, s) && t != s
    ensures i < |list| && j < |list| && i != j && (i < j <==> t < s)
  {
    if i < j {
      CountGrows(list, files, nextId, i, j);
    } else if j < i {
      CountGrows(list, files, nextId, j, i);
    }
  }

  lemma CountGrows(list: seq<Node>, files: Files, nextId: nat, i: nat, j: nat)
    requires ValidList(list, files, nextId) && i < j < |list|
    ensures Count(list[..i]) < Count(list[..j])
  {
    assert list[..j] == list[..i] + list[i..j];
    DenoteAppend(list[..i], list[i..j]);
    assert forall n :: n in list[i..j] ==> n in list;
    CountIsLength(list[i..j], files);
  }

  lemma AtErased(list: seq<Node>, files: Files, nextId: nat, i: nat, t: nat, j: nat, s: nat)
    requires ValidList(list, files, nextId) && At(list, i, t) && At(list, j, s) && i != j
    ensures if i < j then s > 0 && At(Erase(list, i), j - 1, s - 1) else At(Erase(list, i), j, s)
  {
    var without := Erase(list, i);
    if i < j {
      CountGrows(list, files, nextId, i, j);
      assert list[..j] == list[..i] + [list[i]] + list[i + 1..j];
      assert without[..j - 1] == list[..i] + list[i + 1..j];
      DenoteParts(list[..i], [list[i]], list[i + 1..j]);
      DenoteOne(list[i]);
      DenoteAppend(list[..i], list[i + 1..j]);
      ElementValid(list, files, nextId, i);
    } else {
      assert without[..j] == list[..j];
    }
  }

  /** A block replaced in place by one that refers to a new file; the file it referred to is gone. */
  lemma ValidReplace(list: seq<Node>, files: Files, nextId: nat, k: nat, n: Node, files': Files)
    requires ValidList(list, files, nextId) && k < |list| && n.id == list[k].id && n.block.Reference?
    requires var fewer := WithoutFile(list[k].block, files);
      n.block.ref !in fewer && n.block.ref in files' && files' == fewer[n.block.ref := files'[n.block.ref]]
    requires n.block.size == |files'[n.block.ref]|
    ensures ValidList(list[k := n], files', nextId)
  {
    var after, fewer := list[k := n], WithoutFile(list[k].block, files);
    forall i | 0 <= i < |after| ensures ValidBlock(after[i].block, files') && after[i].id < nextId {
      assert list[i] in list;
      assert i != k ==> !SameFile(list[i].block, list[k].block);
    }
    forall i, j | 0 <= i < j < |after| ensures after[i].id != after[j].id && !SameFile(after[i].block, after[j].block) {
      assert list[i] in list && list[j] in list;
      assert !SameFile(list[i].block, list[j].block);
    }
    forall r | r in files' ensures r in Refs(after) {
      if r == n.block.ref {
        assert after[k] == n;
      } else {
        var m :| m in list && m.block.Reference? && m.block.ref == r;
        var i :| 0 <= i < |list| && list[i] == m;
        assert after[i] == m;
      }
    }
    forall m | m in after && m.block.Reference? ensures m.block.ref in files' {
    }
  }
}
