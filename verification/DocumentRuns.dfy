/** Whole runs of a multi-page document: every list of edits, lookups and locks refines a sequence of source pages and
    stored byte strings. */
module DocumentRuns {
  import opened Numbers
  import opened PageChains
  import opened PageList
  import opened MultiPage
  import CacheFile

  /** A lock is given what the plugin loads, an unlock what the encoder makes of a changed bitmap. */
  datatype DocOp =
    | Append(data: seq<byte>)
    | Insert(page: int, data: seq<byte>)
    | Delete(page: int)
    | Move(target: int, source: int)
    | Lock(page: int, dib: Option<nat>)
    | Unlock(bitmap: nat, isChanged: bool, data: seq<byte>)
    | CountPages

  // ---- What an operation does to the pages ----

  /** The document as its user sees it. */
  datatype View = View(pages: seq<DocPage>, locked: map<nat, int>)

  function Locked(locked: map<nat, int>, page: int, dib: Option<nat>): map<nat, int>
  {
    if page in locked.Values || dib.None? then locked else locked[dib.value := page]
  }

  function Edited(readOnly: bool, v: View, op: DocOp): View
  {
    var editable, n := !readOnly && v.locked == map[], |v.pages|;
    match op
    case Append(data) => if editable then v.(pages := v.pages + [Stored(data)]) else v
    case Insert(page, data) =>
      if editable && page < n then v.(pages := Inserted(v.pages, if page > 0 then page else 0, Stored(data))) else v
    case Delete(page) => if editable && n > 1 && 0 <= page < n then v.(pages := Deleted(v.pages, page)) else v
    case Move(target, source) =>
      if editable && target != source && 0 <= target < n && 0 <= source < n then
        v.(pages := Moved(v.pages, target, source))
      else v
    case Lock(page, dib) => v.(locked := Locked(v.locked, page, dib))
    case Unlock(bitmap, isChanged, data) =>
      var more := bitmap in v.locked && isChanged && !readOnly && 0 <= v.locked[bitmap] < n;
      View(if more then v.pages[v.locked[bitmap] := Stored(data)] else v.pages, v.locked - {bitmap})
    case CountPages => v
  }

  function AllEdited(readOnly: bool, v: View, ops: seq<DocOp>): View
    decreases |ops|
  {
    if ops == [] then v else AllEdited(readOnly, Edited(readOnly, v, ops[0]), ops[1..])
  }

  /** An inserted page has the number it was inserted at, or 0; those from there on move up by one. */
  lemma InsertIs(readOnly: bool, v: View, page: int, data: seq<byte>)
    requires !readOnly && v.locked == map[] && page < |v.pages|
    ensures var d, i := Edited(readOnly, v, Insert(page, data)).pages, if page > 0 then page else 0;
      && |d| == |v.pages| + 1 && d[i] == Stored(data)
      && forall k :: 0 <= k < |v.pages| ==> d[if k < i then k else k + 1] == v.pages[k]
  {
  }

  /** The pages behind a deleted one move down by one; the only page of a document is not deleted. */
  lemma DeleteIs(readOnly: bool, v: View, page: int)
    requires !readOnly && v.locked == map[] && 0 <= page < |v.pages|
    ensures var d := Edited(readOnly, v, Delete(page)).pages;
      if |v.pages| == 1 then d == v.pages
      else |d| == |v.pages| - 1 && forall k :: 0 <= k < |d| ==> d[k] == v.pages[if k < page then k else k + 1]
  {
  }

  /** A page that is moved to a higher number ends up just before the page that has it, one that is moved to a lower
      number gets it; the pages in between make room. */
  lemma MoveIs(readOnly: bool, v: View, target: int, source: int)
    requires !readOnly && v.locked == map[] && target != source && 0 <= target < |v.pages| && 0 <= source < |v.pages|
    ensures var d, p := Edited(readOnly, v, Move(target, source)).pages, v.pages;
      && |d| == |p|
      && (target < source ==>
            && d[source - 1] == p[target]
            && forall k :: 0 <= k < |d| && k != source - 1 ==> d[k] == p[if target <= k < source - 1 then k + 1 else k])
      && (source < target ==>
            && d[source] == p[target]
            && forall k :: 0 <= k < |d| && k != source ==> d[k] == p[if source < k <= target then k - 1 else k])
  {
    hide Moved;
    if target < source {
      MovedUp(v.pages, target, source);
    } else {
      MovedDown(v.pages, target, source);
    }
  }

  lemma MovedUp<T>(p: seq<T>, target: nat, source: nat)
    requires target < source < |p|
    ensures var d := Moved(p, target, source);
      |d| == |p| && d[source - 1] == p[target]
      && forall k :: 0 <= k < |d| && k != source - 1 ==> d[k] == p[if target <= k < source - 1 then k + 1 else k]
  {
  }

  lemma MovedDown<T>(p: seq<T>, target: nat, source: nat)
    requires source < target < |p|
    ensures var d := Moved(p, target, source);
      |d| == |p| && d[source] == p[target]
      && forall k :: 0 <= k < |d| && k != source ==> d[k] == p[if source < k <= target then k - 1 else k]
  {
  }

  // ---- What it does to the store as well ----

  function Apply(readOnly: bool, d: Document, op: DocOp): Document
  {
    var editable, n := !readOnly && d.locked == map[], |d.places|;
    match op
    case Append(data) => if editable then Appended(d, data) else d
    case Insert(page, data) => if editable && page < n then InsertedAt(d, page, data) else d
    case Delete(page) => if editable && n > 1 && 0 <= page < n then DeletedAt(d, page) else d
    case Move(target, source) =>
      if editable && target != source && 0 <= target < n && 0 <= source < n then
        d.(places := Moved(d.places, target, source))
      else d
    case Lock(page, dib) => d.(locked := Locked(d.locked, page, dib))
    case Unlock(bitmap, isChanged, data) =>
      var more := bitmap in d.locked && isChanged && !readOnly && 0 <= d.locked[bitmap] < n;
      (if more then ReplacedAt(d, d.locked[bitmap], data) else d).(locked := d.locked - {bitmap})
    case CountPages => d
  }

  /** What callers must keep to: encoded pages are not empty, page numbers to delete not negative, a loaded bitmap is a
      new one, a page to be replaced is in the document, and without memory to keep it in no stored page is deleted. */
  predicate Proper(readOnly: bool, keepInMemory: bool, d: Document, op: DocOp)
  {
    var editable, n := !readOnly && d.locked == map[], |d.places|;
    match op
    case Append(data) => data != []
    case Insert(_, data) => data != []
    case Delete(page) => page >= 0 && (editable && 1 < n && page < n ==> keepInMemory || d.places[page].OfSource?)
    case Move(_, _) => true
    case Lock(_, dib) => dib.Some? ==> dib.value !in d.locked
    case Unlock(bitmap, isChanged, data) =>
      bitmap in d.locked && isChanged && !readOnly ==>
        data != [] && 0 <= d.locked[bitmap] < n && (keepInMemory || d.places[d.locked[bitmap]].OfSource?)
    case CountPages => true
  }

  /** The operation does not take page 0 of the store for a continuation page. */
  ghost predicate SoundFor(readOnly: bool, d: Document, op: DocOp)
  {
    var editable, n := !readOnly && d.locked == map[], |d.places|;
    match op
    case Append(data) => editable ==> Sound(d.store.alloc, data)
    case Insert(page, data) => editable && page < n ==> Sound(d.store.alloc, data)
    case Unlock(bitmap, isChanged, data) =>
      bitmap in d.locked && isChanged && !readOnly && 0 <= d.locked[bitmap] < n ==>
        Sound(Vacated(d, d.locked[bitmap]).alloc, data)
    case _ => true
  }

  function Final(readOnly: bool, d: Document, ops: seq<DocOp>): Document
    decreases |ops|
  {
    if ops == [] then d else Final(readOnly, Apply(readOnly, d, ops[0]), ops[1..])
  }

  ghost predicate AllProper(readOnly: bool, keepInMemory: bool, d: Document, ops: seq<DocOp>)
    decreases |ops|
  {
    ops != [] ==>
      && Proper(readOnly, keepInMemory, d, ops[0]) && SoundFor(readOnly, d, ops[0])
      && AllProper(readOnly, keepInMemory, Apply(readOnly, d, ops[0]), ops[1..])
  }

  ghost function ViewOf(bitmap: MultiBitmap): View
    reads bitmap, bitmap.cache
  {
    View(bitmap.Doc(), bitmap.lockedPages)
  }

  method RunOne(bitmap: MultiBitmap, op: DocOp)
    requires bitmap.Valid() && Proper(bitmap.readOnly, bitmap.cache.keepInMemory, bitmap.State(), op)
    requires SoundFor(bitmap.readOnly, bitmap.State(), op)
    modifies bitmap, bitmap.cache, bitmap.cache.blocks
    ensures bitmap.Valid() && fresh(bitmap.cache.blocks - old(bitmap.cache.blocks))
    ensures bitmap.State() == Apply(bitmap.readOnly, old(bitmap.State()), op)
    ensures ViewOf(bitmap) == Edited(bitmap.readOnly, old(ViewOf(bitmap)), op)
  {
    hide MultiBitmap.Valid, DocOf, Sound, Appended, InsertedAt, DeletedAt, ReplacedAt, Vacated, Moved, Inserted, Deleted;
    match op
    case Append(data) => bitmap.AppendPage(data);
    case Insert(page, data) => bitmap.InsertPage(page, data);
    case Delete(page) => bitmap.DeletePage(page);
    case Move(target, source) => var _ := bitmap.MovePage(target, source);
    case Lock(page, dib) => var _ := bitmap.LockPage(page, dib);
    case Unlock(b, isChanged, data) => bitmap.UnlockPage(b, isChanged, data);
    case CountPages => var _ := bitmap.GetPageCount();
  }

  /** Every run of proper operations in which page 0 of the store is not taken for a continuation page: each can be
      called, and the document ends as the edits of its sequence of pages say. */
  method RunAll(bitmap: MultiBitmap, ops: seq<DocOp>)
    requires bitmap.Valid() && AllProper(bitmap.readOnly, bitmap.cache.keepInMemory, bitmap.State(), ops)
    modifies bitmap, bitmap.cache, bitmap.cache.blocks
    ensures bitmap.Valid() && fresh(bitmap.cache.blocks - old(bitmap.cache.blocks))
    ensures bitmap.State() == Final(bitmap.readOnly, old(bitmap.State()), ops)
    ensures ViewOf(bitmap) == AllEdited(bitmap.readOnly, old(ViewOf(bitmap)), ops)
  {
    hide MultiBitmap.Valid, Proper, SoundFor, Apply, Edited, DocOf;
    assert ops[0..] == ops;
    for i := 0 to |ops|
      invariant bitmap.Valid() && fresh(bitmap.cache.blocks - old(bitmap.cache.blocks))
      invariant AllProper(bitmap.readOnly, bitmap.cache.keepInMemory, bitmap.State(), ops[i..])
      invariant Final(bitmap.readOnly, bitmap.State(), ops[i..]) == Final(bitmap.readOnly, old(bitmap.State()), ops)
      invariant AllEdited(bitmap.readOnly, ViewOf(bitmap), ops[i..])
             == AllEdited(bitmap.readOnly, old(ViewOf(bitmap)), ops)
    {
      assert ops[i..][0] == ops[i] && ops[i..][1..] == ops[i + 1..];
      RunOne(bitmap, ops[i]);
    }
    assert ops[|ops|..] == [];
  }

  /** A new document on a new store, with the pages of a source of n pages. */
  function NewDocument(n: nat): Document
  {
    Document(Range(0, n - 1), Store(map[], map[], Allocator([], 0)), map[])
  }

  method RunNew(readOnly: bool, keepInMemory: bool, n: nat, ops: seq<DocOp>) returns (bitmap: MultiBitmap)
    requires AllProper(readOnly, keepInMemory, NewDocument(n), ops)
    ensures bitmap.Valid() && fresh(bitmap) && bitmap.readOnly == readOnly
    ensures bitmap.State() == Final(readOnly, NewDocument(n), ops)
    ensures ViewOf(bitmap) == AllEdited(readOnly, View(seq(n, i => Source(i)), map[]), ops)
  {
    hide MultiBitmap.Valid, CacheFile.CacheFile.Valid, AllProper, Final, AllEdited, DocOf;
    var cache := new CacheFile.CacheFile(keepInMemory);
    bitmap := new MultiBitmap(readOnly, cache, n);
    RunAll(bitmap, ops);
  }

  // ---- Locks ----

  /** While a page is locked, no operation but unlocking changes the pages, and none their number. */
  lemma LockedStays(readOnly: bool, v: View, op: DocOp)
    requires v.locked != map[]
    ensures op.Unlock? || Edited(readOnly, v, op).pages == v.pages
    ensures |Edited(readOnly, v, op).pages| == |v.pages|
  {
  }

  /** A locked number need not be a page of the document: of a source of n pages, one is deleted, and then its last page
      can still be locked. FindBlock gives the end of the list for it, which UnlockPage would write through. */
  method LockedBeyond(n: nat, bitmap: nat) returns (doc: MultiBitmap, it: int)
    requires n > 1
    ensures doc.Valid() && bitmap in doc.lockedPages && doc.lockedPages[bitmap] == |doc.Doc()| == n - 1
    ensures it == -1
  {
    hide CacheFile.CacheFile.Valid, Denote, ValidList;
    var cache := new CacheFile.CacheFile(true);
    doc := new MultiBitmap(false, cache, n);
    doc.DeletePage(0);
    var _ := doc.LockPage(n - 1, Some(bitmap));
    CountIsDoc(doc.blocks, doc.cache.files, doc.nextId);
    it := doc.FindBlock(n - 1, doc.cache.files);
  }
}
