/** Whole runs of the paged store: what a list of operations leaves behind and returns, and when all of them can be
    called. */
module StoreRuns {
  import opened Numbers
  import opened PageChains
  import opened CacheFile

  datatype StoreOp = Write(data: seq<byte>) | Read(nr: nat, size: int) | Delete(nr: nat)

  /** A reference, or success and bytes. */
  datatype Outcome = Ref(nr: nat) | Bytes(ok: bool, data: seq<byte>) | Done

  const NEW_STORE := Store(map[], map[], Allocator([], 0))

  function Apply(s: Store, op: StoreOp): Store
  {
    match op
    case Write(data) => Wrote(s, data)
    case Read(_, _) => s
    case Delete(nr) => Removed(s, nr)
  }

  /** Files are read with the size they were written with, and only files are deleted, from memory. */
  predicate Handled(s: Store, keepInMemory: bool, op: StoreOp)
  {
    match op
    case Write(_) => true
    case Read(nr, size) => size > 0 ==> nr in s.files && size == |s.files[nr]|
    case Delete(nr) => keepInMemory && nr in s.files
  }

  function Returned(s: Store, op: StoreOp): Outcome
    requires Handled(s, true, op)
  {
    match op
    case Write(data) => Ref(if data == [] then 0 else FirstPage(s.alloc))
    case Read(nr, size) => if size > 0 then Bytes(true, s.files[nr]) else Bytes(false, [])
    case Delete(_) => Done
  }

  /** A store after a list of operations. */
  function Final(s: Store, ops: seq<StoreOp>): Store
    decreases |ops|
  {
    if ops == [] then s else Final(Apply(s, ops[0]), ops[1..])
  }

  predicate AllHandled(s: Store, keepInMemory: bool, ops: seq<StoreOp>)
    decreases |ops|
  {
    ops != [] ==> Handled(s, keepInMemory, ops[0]) && AllHandled(Apply(s, ops[0]), keepInMemory, ops[1..])
  }

  /** No operation takes page 0 for a continuation page. */
  ghost predicate AllSound(s: Store, ops: seq<StoreOp>)
    decreases |ops|
  {
    ops != [] ==> (ops[0].Write? ==> Sound(s.alloc, ops[0].data)) && AllSound(Apply(s, ops[0]), ops[1..])
  }

  function AllReturned(s: Store, ops: seq<StoreOp>): seq<Outcome>
    requires AllHandled(s, true, ops)
    decreases |ops|
  {
    if ops == [] then [] else [Returned(s, ops[0])] + AllReturned(Apply(s, ops[0]), ops[1..])
  }

  lemma {:induction false} HandledInMemory(s: Store, keepInMemory: bool, ops: seq<StoreOp>)
    requires AllHandled(s, keepInMemory, ops)
    ensures AllHandled(s, true, ops)
    decreases |ops|
  {
    if ops != [] {
      HandledInMemory(Apply(s, ops[0]), keepInMemory, ops[1..]);
    }
  }

  // ---- What is read is what was written ----

  /** Page n belongs to the file r alone. */
  ghost predicate Kept(s: Store, r: nat, n: nat)
  {
    n < s.alloc.count && n !in s.alloc.free && forall q :: q in s.chains && q != r ==> n !in s.chains[q]
  }

  ghost predicate OwnPages(s: Store, r: nat)
  {
    r in s.chains && r in s.chains[r] && NoDuplicates(s.chains[r]) && forall n :: n in s.chains[r] ==> Kept(s, r, n)
  }

  /** Every page is free, or not yet there, or in one file. */
  ghost predicate Sane(s: Store)
  {
    && s.chains.Keys == s.files.Keys
    && NoDuplicates(s.alloc.free) && (forall n :: n in s.alloc.free ==> n < s.alloc.count)
    && forall r :: r in s.chains ==> OwnPages(s, r)
  }

  lemma SaneState(store: CacheFile)
    requires store.Valid()
    ensures Sane(store.State())
  {
    hide CacheFile.Valid;
    ChainsApart(store);
    FreeOnce(store);
    SaneIf(store.State());
  }

  lemma ChainsApart(store: CacheFile)
    requires store.Valid()
    ensures var s := store.State();
      && s.chains.Keys == s.files.Keys
      && (forall r :: r in s.chains ==> s.chains[r] != [] && s.chains[r][0] == r && NoDuplicates(s.chains[r]))
      && forall r, q :: r in s.chains && q in s.chains && r != q ==> Disjoint(s.chains[r], s.chains[q])
  {
    hide CacheFile.Valid, Linked;
    store.PagesPartitioned();
  }

  lemma FreeOnce(store: CacheFile)
    requires store.Valid()
    ensures var s := store.State();
      && NoDuplicates(s.alloc.free) && (forall n :: n in s.alloc.free ==> n < s.alloc.count)
      && (forall r :: r in s.chains ==> Disjoint(s.chains[r], s.alloc.free))
      && forall r, n :: r in s.chains && n in s.chains[r] ==> n < s.alloc.count
  {
    hide CacheFile.Valid, IsChain;
    store.PagesPartitioned();
  }

  lemma SaneIf(s: Store)
    requires s.chains.Keys == s.files.Keys
    requires forall r :: r in s.chains ==> s.chains[r] != [] && s.chains[r][0] == r && NoDuplicates(s.chains[r])
    requires forall r, q :: r in s.chains && q in s.chains && r != q ==> Disjoint(s.chains[r], s.chains[q])
    requires NoDuplicates(s.alloc.free) && forall n :: n in s.alloc.free ==> n < s.alloc.count
    requires forall r :: r in s.chains ==> Disjoint(s.chains[r], s.alloc.free)
    requires forall r, n :: r in s.chains && n in s.chains[r] ==> n < s.alloc.count
    ensures Sane(s)
  {
    forall r | r in s.chains ensures OwnPages(s, r) {
      assert s.chains[r][0] in s.chains[r];
      forall n | n in s.chains[r] ensures Kept(s, r, n) {
        assert forall q :: q in s.chains && q != r ==> Disjoint(s.chains[q], s.chains[r]);
      }
    }
  }

  lemma UpcomingOnce(a: Allocator, n: nat)
    requires NoDuplicates(a.free) && forall m :: m in a.free ==> m < a.count
    ensures NoDuplicates(Upcoming(a, n)) && NoDuplicates(Used(a, n).free) && Used(a, n).count >= a.count
    ensures forall m :: m in Upcoming(a, n) ==> m < Used(a, n).count && m !in Used(a, n).free && (m in a.free || m >= a.count)
    ensures forall m :: m in Used(a, n).free ==> m in a.free
  {
    UpcomingAre(a, n);
    var c := Upcoming(a, n);
    forall i | 0 <= i < n
      ensures if i < |a.free| then c[i] == a.free[i] && c[i] in a.free else c[i] == a.count + i - |a.free|
    {
    }
  }

  /** The pages of a new file are not those of others, and not free any more. */
  lemma NewPages(s: Store, data: seq<byte>)
    requires Sane(s) && data != []
    ensures var c, s' := ChainFor(s.alloc, data), Wrote(s, data);
      && c != [] && NoDuplicates(c) && s'.chains == s.chains[c[0] := c] && s'.files == s.files[c[0] := data]
      && c[0] !in s.chains && s'.alloc.count >= s.alloc.count && NoDuplicates(s'.alloc.free)
      && (forall n :: n in s'.alloc.free ==> n in s.alloc.free)
      && forall n :: n in c ==> Kept(s', c[0], n)
  {
    var c, free := ChainFor(s.alloc, data), s.alloc.free;
    UpcomingOnce(s.alloc, |c|);
    var s' := Wrote(s, data);
    forall q, m | q in s.chains && m in s.chains[q] ensures m !in free && m < s.alloc.count && m !in c {
      assert OwnPages(s, q) && Kept(s, q, m);
    }
    assert c[0] in c && forall q :: q in s.chains ==> OwnPages(s, q) && q in s.chains[q];
  }

  lemma SaneAfter(s: Store, op: StoreOp)
    requires Sane(s) && Handled(s, true, op)
    ensures Sane(Apply(s, op))
  {
    match op
    case Write(data) =>
      if data != [] {
        NewPages(s, data);
        var c, s' := ChainFor(s.alloc, data), Wrote(s, data);
        assert c[0] in c;
        forall r | r in s'.chains ensures OwnPages(s', r) {
          assert r != c[0] ==> OwnPages(s, r);
        }
      }
    case Read(_, _) =>
    case Delete(nr) =>
      var s' := Removed(s, nr);
      assert OwnPages(s, nr);
      forall i | 0 <= i < |s.chains[nr]| ensures s.chains[nr][i] !in s.alloc.free && s.chains[nr][i] < s.alloc.count {
        assert s.chains[nr][i] in s.chains[nr];
      }
      forall r | r in s'.chains ensures OwnPages(s', r) {
        assert OwnPages(s, r);
      }
  }

  /** The file is there with these bytes, and its first page is no other's. */
  ghost predicate HeldFile(s: Store, r: nat, data: seq<byte>)
  {
    && s.chains.Keys == s.files.Keys && r in s.files && s.files[r] == data && r in s.chains[r] && Kept(s, r, r)
  }

  lemma FileStays(s: Store, r: nat, data: seq<byte>, op: StoreOp)
    requires HeldFile(s, r, data) && op != Delete(r)
    ensures HeldFile(Apply(s, op), r, data)
  {
    if op.Write? && op.data != [] {
      KeptByWriting(s, r, r, op.data);
      assert ChainFor(s.alloc, op.data)[0] in ChainFor(s.alloc, op.data);
    }
  }

  lemma {:induction false} FileReads(s: Store, r: nat, data: seq<byte>, ops: seq<StoreOp>, j: nat, size: nat)
    requires HeldFile(s, r, data) && AllHandled(s, true, ops) && j < |ops| && ops[j] == Read(r, size) && size > 0
    requires forall k :: 0 <= k < j ==> ops[k] != Delete(r)
    ensures j < |AllReturned(s, ops)| == |ops| && AllReturned(s, ops)[j] == Bytes(true, data)
    decreases j
  {
    ReturnedCount(s, ops);
    if j > 0 {
      hide HeldFile;
      FileStays(s, r, data, ops[0]);
      FileReads(Apply(s, ops[0]), r, data, ops[1..], j - 1, size);
    }
  }

  lemma {:induction false} ReturnedCount(s: Store, ops: seq<StoreOp>)
    requires AllHandled(s, true, ops)
    ensures |AllReturned(s, ops)| == |ops|
    decreases |ops|
  {
    if ops != [] {
      ReturnedCount(Apply(s, ops[0]), ops[1..]);
    }
  }

  /** If operation i writes bytes, and operation j reads the reference that i returned, and nothing deletes it in
      between, then j returns success and the same bytes. */
  ghost predicate ReadBack(ops: seq<StoreOp>, results: seq<Outcome>, i: nat, j: nat)
  {
    i < j < |ops| == |results| && ops[i].Write? && ops[i].data != [] && results[i].Ref? && ops[j].Read? && ops[j].size > 0
    && ops[j].nr == results[i].nr && (forall k :: i < k < j ==> ops[k] != Delete(ops[j].nr))
    ==> results[j] == Bytes(true, ops[i].data)
  }

  lemma {:induction false} ReadsReturn(s: Store, ops: seq<StoreOp>, i: nat, j: nat)
    requires Sane(s) && AllHandled(s, true, ops)
    ensures ReadBack(ops, AllReturned(s, ops), i, j)
    decreases |ops|
  {
    var results := AllReturned(s, ops);
    if i < j < |ops| && ops[i].Write? && ops[i].data != [] {
      ReturnedCount(s, ops);
      var s', rest := Apply(s, ops[0]), ops[1..];
      if i > 0 {
        SaneAfter(s, ops[0]);
        ReadsReturn(s', rest, i - 1, j - 1);
        assert forall k :: i < k < j ==> ops[k] == rest[k - 1];
      } else if results[0].Ref? && ops[j].Read? && ops[j].size > 0 && ops[j].nr == results[0].nr
        && (forall k :: 0 < k < j ==> ops[k] != Delete(ops[j].nr)) {
        NewPages(s, ops[0].data);
        assert results[0].nr in ChainFor(s.alloc, ops[0].data);
        FileReads(s', results[0].nr, ops[0].data, rest, j - 1, ops[j].size);
      }
    }
  }

  lemma EveryRead(s: Store, ops: seq<StoreOp>)
    requires Sane(s) && AllHandled(s, true, ops)
    ensures forall i, j :: ReadBack(ops, AllReturned(s, ops), i, j)
  {
    forall i, j ensures ReadBack(ops, AllReturned(s, ops), i, j) {
      ReadsReturn(s, ops, i, j);
    }
  }

  method RunOne(store: CacheFile, op: StoreOp) returns (r: Outcome)
    requires store.Valid() && Handled(store.State(), store.keepInMemory, op)
    requires op.Write? ==> Sound(store.Alloc(), op.data)
    modifies store, store.blocks
    ensures store.Valid() && fresh(store.blocks - old(store.blocks))
    ensures store.State() == Apply(old(store.State()), op) && r == Returned(old(store.State()), op)
  {
    hide CacheFile.Valid, Wrote, Removed, Sound;
    match op
    case Write(data) =>
      var nr := store.WriteFile(data);
      r := Ref(nr);
    case Read(nr, size) =>
      var ok, data := store.ReadFile(nr, size);
      r := Bytes(ok, data);
    case Delete(nr) =>
      store.DeleteFile(nr);
      r := Done;
  }

  /** Every run of writes, reads and deletions in which page 0 is not taken for a continuation page, in memory, and
      every such run without deletions with spilling to disk: each operation can be called, each read returns what was
      written, and what is stored at the end is what the operations say. */
  method RunAll(store: CacheFile, ops: seq<StoreOp>) returns (results: seq<Outcome>)
    requires store.Valid() && AllHandled(store.State(), store.keepInMemory, ops) && AllSound(store.State(), ops)
    modifies store, store.blocks
    ensures store.Valid() && fresh(store.blocks - old(store.blocks))
    ensures store.State() == Final(old(store.State()), ops)
    ensures AllHandled(old(store.State()), true, ops) && results == AllReturned(old(store.State()), ops)
    ensures forall i, j :: ReadBack(ops, results, i, j)
  {
    hide CacheFile.Valid, Apply, Handled, Returned, Sound, Sane, ReadBack;
    HandledInMemory(store.State(), store.keepInMemory, ops);
    SaneState(store);
    EveryRead(store.State(), ops);
    results := [];
    assert ops[0..] == ops;
    for i := 0 to |ops|
      invariant store.Valid() && fresh(store.blocks - old(store.blocks))
      invariant AllHandled(store.State(), store.keepInMemory, ops[i..]) && AllSound(store.State(), ops[i..])
      invariant AllHandled(store.State(), true, ops[i..])
      invariant Final(store.State(), ops[i..]) == Final(old(store.State()), ops)
      invariant results + AllReturned(store.State(), ops[i..]) == AllReturned(old(store.State()), ops)
    {
      assert ops[i..][0] == ops[i] && ops[i..][1..] == ops[i + 1..];
      var r := RunOne(store, ops[i]);
      results := results + [r];
    }
    assert ops[|ops|..] == [];
  }

  method RunNew(keepInMemory: bool, ops: seq<StoreOp>) returns (store: CacheFile, results: seq<Outcome>)
    requires AllHandled(NEW_STORE, keepInMemory, ops) && AllSound(NEW_STORE, ops)
    ensures store.Valid() && fresh(store) && fresh(store.blocks) && store.keepInMemory == keepInMemory
    ensures store.State() == Final(NEW_STORE, ops)
    ensures AllHandled(NEW_STORE, true, ops) && results == AllReturned(NEW_STORE, ops)
    ensures forall i, j :: ReadBack(ops, results, i, j)
  {
    hide CacheFile.Valid, ReadBack;
    store := new CacheFile(keepInMemory);
    results := RunAll(store, ops);
  }

  // ---- When page 0 is no continuation page ----

  /** Without deletions it never is. */
  lemma {:induction false} WithoutDeletions(s: Store, ops: seq<StoreOp>)
    requires s.alloc.free == [] && forall i :: 0 <= i < |ops| ==> !ops[i].Delete?
    ensures AllSound(s, ops) && Final(s, ops).alloc.free == []
    decreases |ops|
  {
    if ops != [] {
      if ops[0].Write? {
        NothingFreed(s.alloc.count, BlocksFor(|ops[0].data|));
        assert s.alloc == Allocator([], s.alloc.count);
      }
      WithoutDeletions(Apply(s, ops[0]), ops[1..]);
    }
  }

  /** Page 0 is in the file r, and both page 0 and the first page of r are in use there. */
  ghost predicate ZeroHeld(s: Store, r: nat)
  {
    && s.chains.Keys == s.files.Keys && r in s.files && 0 in s.chains[r] && r in s.chains[r]
    && Kept(s, r, 0) && Kept(s, r, r)
  }

  lemma KeptByWriting(s: Store, r: nat, n: nat, data: seq<byte>)
    requires Kept(s, r, n) && data != []
    ensures Kept(Wrote(s, data), r, n) && n !in ChainFor(s.alloc, data)
  {
    UpcomingAre(s.alloc, BlocksFor(|data|));
  }

  lemma ZeroStaysHeld(s: Store, r: nat, op: StoreOp)
    requires ZeroHeld(s, r) && op != Delete(r)
    ensures ZeroHeld(Apply(s, op), r) && (op.Write? ==> Sound(s.alloc, op.data))
  {
    match op
    case Write(data) =>
      if data != [] {
        KeptByWriting(s, r, 0, data);
        KeptByWriting(s, r, r, data);
        assert ChainFor(s.alloc, data)[0] in ChainFor(s.alloc, data);
      }
    case Read(_, _) =>
    case Delete(nr) =>
  }

  /** While the file with page 0 is kept, no other operations do harm. */
  lemma {:induction false} FirstFileKept(s: Store, r: nat, ops: seq<StoreOp>)
    requires ZeroHeld(s, r) && Delete(r) !in ops
    ensures AllSound(s, ops)
    decreases |ops|
  {
    if ops != [] {
      hide ZeroHeld, Sound;
      ZeroStaysHeld(s, r, ops[0]);
      FirstFileKept(Apply(s, ops[0]), r, ops[1..]);
    }
  }

  /** So every run is sound that begins with writing a file and never deletes it. */
  lemma FirstFileSuffices(data: seq<byte>, ops: seq<StoreOp>)
    requires data != [] && Delete(0) !in ops
    ensures AllSound(NEW_STORE, [Write(data)] + ops)
  {
    var n := BlocksFor(|data|);
    NothingFreed(0, n);
    var s := Wrote(NEW_STORE, data);
    assert s.chains[0][0] == 0;
    FirstFileKept(s, 0, ops);
    assert ([Write(data)] + ops)[1..] == ops;
  }

  /** But page 0 can come back. Two files of one page each, deleted in the order last to first, leave the free list
      [1, 0], and the next file of two pages or more continues at page 0. */
  lemma ZeroComesBack(a: seq<byte>, b: seq<byte>, data: seq<byte>)
    requires 0 < |a| < BLOCK_SIZE && 0 < |b| < BLOCK_SIZE <= |data|
    ensures var ops := [Write(a), Write(b), Delete(1), Delete(0)];
      && AllHandled(NEW_STORE, true, ops) && AllSound(NEW_STORE, ops)
      && Final(NEW_STORE, ops) == Store(map[], map[], Allocator([1, 0], 2))
      && !Sound(Final(NEW_STORE, ops).alloc, data)
  {
    var s1 := Store(map[0 := a], map[0 := [0]], Allocator([], 1));
    var s2 := Store(map[0 := a, 1 := b], map[0 := [0], 1 := [1]], Allocator([], 2));
    var s3 := Store(map[0 := a], map[0 := [0]], Allocator([1], 2));
    var s4 := Store(map[], map[], Allocator([1, 0], 2));
    OnePage(Allocator([], 0), a);
    OnePage(Allocator([], 1), b);
    assert Apply(NEW_STORE, Write(a)) == s1 && Apply(s1, Write(b)) == s2;
    assert Apply(s2, Delete(1)) == s3 && Apply(s3, Delete(0)) == s4;
    FirstThen(s3, Delete(0), []);
    FirstThen(s2, Delete(1), [Delete(0)]);
    FirstThen(s1, Write(b), [Delete(1), Delete(0)]);
    FirstThen(NEW_STORE, Write(a), [Write(b), Delete(1), Delete(0)]);
    SoundIff(s4.alloc, data);
    assert s4.alloc.free[1] == 0;
  }

  lemma FirstThen(s: Store, op: StoreOp, rest: seq<StoreOp>)
    requires Handled(s, true, op) && (op.Write? ==> Sound(s.alloc, op.data))
    requires AllHandled(Apply(s, op), true, rest) && AllSound(Apply(s, op), rest)
    ensures AllHandled(s, true, [op] + rest) && AllSound(s, [op] + rest)
    ensures Final(s, [op] + rest) == Final(Apply(s, op), rest)
  {
    assert ([op] + rest)[1..] == rest;
  }

  lemma OnePage(a: Allocator, data: seq<byte>)
    requires 0 < |data| < BLOCK_SIZE
    ensures ChainFor(a, data) == [FirstPage(a)] && Used(a, BlocksFor(|data|)) == TakeOne(a) && Sound(a, data)
  {
    assert BlocksFor(|data|) == 1;
    assert Upcoming(TakeOne(a), 0) == [] && Used(TakeOne(a), 0) == TakeOne(a);
  }

  /** What the store then does: the file is stored from page 1 on, and following the links finds only page 1. */
  method CutFile(a: seq<byte>, b: seq<byte>, data: seq<byte>) returns (store: CacheFile, ref: nat)
    requires 0 < |a| < BLOCK_SIZE && 0 < |b| < BLOCK_SIZE <= |data|
    ensures ref == 1 && Walk(store.pages, ref, BlocksFor(|data|)) == [1] && BlocksFor(|data|) > 1
  {
    hide CacheFile.Valid, CacheFile.Paged, Final, AllHandled, AllSound, Sound, Holds;
    ZeroComesBack(a, b, data);
    var results;
    store, results := RunNew(true, [Write(a), Write(b), Delete(1), Delete(0)]);
    ref := store.WriteFile(data);
    ghost var c := ChainFor(Allocator([1, 0], 2), data);
    UpcomingAre(Allocator([1, 0], 2), |c|);
    assert LinkedAt(store.pages, c, 0);
  }
}
