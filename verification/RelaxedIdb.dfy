/**
 Writing a page file back to the block store. A sync control queues an operation; the commit loop takes
 the operations one by one, collects what changed in one step, and commits it later, while the file goes on
 changing. Whatever happens in between, the store holds the file as it was at some sync.
 */
module RelaxedIdb {
  import opened Bytes
  import opened PageFile

  datatype IdbCommitOp = Sync(file: string)

  /** A transaction on the store: put these blocks, then delete those from `from` on. */
  datatype StoreTx = StoreTx(puts: Pages, from: nat)

  function Applied(store: Pages, tx: StoreTx): Pages {
    map k | k in store.Keys + tx.puts.Keys && k < tx.from :: if k in tx.puts then tx.puts[k] else store[k]
  }

  class RelaxedIdb {
    const name: string
    const file: IdbPageFile
    /** The blocks of the file in the store, by offset. */
    var store: Pages
    var queue: seq<IdbCommitOp>
    var inFlight: Option<StoreTx>
    /** The file as it is in the store, and as it will be after the transaction in flight. */
    ghost var committed: seq<byte>
    ghost var pending: seq<byte>

    /** What the store will be. */
    ghost function Effective(): Pages
      reads this
    {
      if inFlight.Some? then Applied(store, inFlight.value) else store
    }

    ghost predicate StoreValid()
      reads this
      requires file.pageSize > 0
    {
      && Aligned(file.pageSize, |committed|) && store == Cut(file.pageSize, committed)
      && Aligned(file.pageSize, |pending|) && Effective() == Cut(file.pageSize, pending)
      && (inFlight.None? ==> committed == pending)
    }

    ghost predicate Valid()
      reads this, file
    {
      && file.Valid() && StoreValid()
      && file.CleanUpTo(Effective(), file.fileSize)
      && |pending| <= |file.all|
      && (file.syncNotified ==> Sync(name) in queue)
    }

    /** Open with the blocks of the store preloaded, or with nothing stored. */
    constructor (name: string, file: IdbPageFile, store: Pages, queue: seq<IdbCommitOp>, ghost contents: seq<byte>)
      requires file.Valid() && !file.syncNotified
      requires Aligned(file.pageSize, |contents|) && store == Cut(file.pageSize, contents) && |contents| <= |file.all|
      requires file.CleanUpTo(store, file.fileSize)
      ensures Valid() && this.file == file && this.name == name && this.store == store && this.queue == queue
      ensures committed == contents == pending && inFlight.None?
    {
      this.name, this.file, this.store, this.queue := name, file, store, queue;
      inFlight, committed, pending := None, contents, contents;
    }

    method Write(buf: seq<byte>, offset: nat)
      requires Valid() && |buf| == file.pageSize && Aligned(file.pageSize, offset)
      modifies file`fileSize, file`blockSize, file`blocks, file`txBlocks, file`all
      ensures Valid() && file.Flat() == FlatWrite(old(file.Flat()), offset, buf)
    {
      file.Write(buf, offset, Effective());
    }

    method Truncate(size: nat)
      requires Valid() && Aligned(file.pageSize, size) && size <= file.fileSize
      modifies file`fileSize
      ensures Valid() && file.Flat() == old(file.Flat())[..size]
    {
      file.Truncate(size);
    }

    /** `SQLITE_FCNTL_SYNC` and `SQLITE_FCNTL_COMMIT_PHASETWO`. */
    method SyncControl()
      requires Valid()
      modifies this`queue, file`syncNotified
      ensures Valid() && file.syncNotified && file.Flat() == old(file.Flat())
      ensures queue == if old(file.syncNotified) then old(queue) else old(queue) + [Sync(name)]
    {
      if !file.syncNotified {
        queue := queue + [Sync(name)];
        file.syncNotified := true;
      }
    }

    /** The first step of an operation, up to where the transaction is awaited. */
    method BeginSync()
      requires Valid() && inFlight.None? && queue != []
      modifies this`queue, this`inFlight, this`pending, file`syncNotified, file`blocks, file`all, file`txBlocks
      ensures Valid() && queue == old(queue)[1..]
      ensures file.Flat() == old(file.Flat())
      ensures store == old(store) && committed == old(committed)
      ensures old(queue)[0] == Sync(name)
          ==> pending == file.Flat() && !file.syncNotified && file.txBlocks == {} && file.Tidy()
      ensures old(queue)[0] != Sync(name)
          ==> pending == old(pending) && inFlight.None? && file.syncNotified == old(file.syncNotified)
    {
      var op := queue[0];
      queue := queue[1..];
      if op.file == name {
        SyncDb();
        UpToDate();
      }
    }

    method SyncDb()
      requires file.Valid() && StoreValid() && inFlight.None?
      requires file.CleanUpTo(store, file.fileSize) && |pending| <= |file.all|
      modifies this`inFlight, this`pending, file`syncNotified, file`blocks, file`all, file`txBlocks
      ensures file.Valid() && StoreValid() && file.Tidy() && file.Flat() == old(file.Flat())
      ensures pending == file.Flat() && !file.syncNotified && file.txBlocks == {}
    {
      var changed, truncated := file.TakeChanges(store);
      if changed == {} && !truncated {
        NothingToDo();
      } else {
        BuildTransaction(changed);
      }
    }

    lemma UpToDate()
      requires file.Valid() && StoreValid() && file.Tidy() && pending == file.Flat()
      ensures file.CleanUpTo(Effective(), file.fileSize)
    {
      assert file.Flat() == file.all;
    }

    method BuildTransaction(changed: set<nat>)
      requires file.Valid() && StoreValid() && inFlight.None? && file.Tidy()
      requires forall k :: k in file.blocks && k !in changed ==> k in store && store[k] == file.blocks[k]
      modifies this`inFlight, this`pending
      ensures StoreValid() && inFlight.Some? && pending == file.Flat()
    {
      var puts := Changed(changed);
      AppliedIsFile(changed, puts);
      inFlight := Some(StoreTx(puts, file.fileSize));
      pending := file.Flat();
    }

    /** The blocks to put: those that were marked and still exist. */
    method Changed(changed: set<nat>) returns (puts: Pages)
      requires file.Valid()
      ensures puts == map k | k in changed && k in file.blocks :: file.blocks[k]
    {
      puts := map[];
      var rest := changed;
      while rest != {}
        invariant rest <= changed
        invariant puts == map k | k in changed && k !in rest && k in file.blocks :: file.blocks[k]
        decreases |rest|
      {
        var k :| k in rest;
        if k in file.blocks {
          puts := puts[k := file.blocks[k]];
        }
        rest := rest - {k};
      }
    }

    /** No changed blocks, none truncated: the store is up to date. */
    lemma NothingToDo()
      requires file.Valid() && StoreValid() && inFlight.None? && file.Tidy()
      requires (forall k :: k in file.blocks ==> k in store && store[k] == file.blocks[k]) && |pending| <= |file.all|
      ensures pending == file.Flat()
    {
      assert file.blocks == Cut(file.pageSize, file.all) && file.Flat() == file.all;
      forall k | k in store ensures k in file.blocks {
        assert k in Cut(file.pageSize, pending);
      }
      assert store == file.blocks;
      CutInjective(file.pageSize, pending, file.all);
    }

    /** The transaction turns the store into the file. */
    lemma AppliedIsFile(changed: set<nat>, puts: Pages)
      requires file.Valid() && StoreValid() && inFlight.None? && file.Tidy()
      requires puts == map k | k in changed && k in file.blocks :: file.blocks[k]
      requires forall k :: k in file.blocks && k !in changed ==> k in store && store[k] == file.blocks[k]
      ensures Applied(store, StoreTx(puts, file.fileSize)) == Cut(file.pageSize, file.Flat())
    {
      assert file.Flat() == file.all;
      var r := Applied(store, StoreTx(puts, file.fileSize));
      forall k | k in r ensures k in file.blocks && r[k] == file.blocks[k] {
        if k in store { assert k in Cut(file.pageSize, committed); }
        assert k in file.blocks;
      }
      forall k | k in file.blocks ensures k in r {
        assert k in puts || k in store;
      }
    }

    /** The transaction commits. */
    method Commit()
      requires Valid() && inFlight.Some?
      modifies this`store, this`inFlight, this`committed
      ensures Valid() && inFlight.None? && committed == old(pending) && pending == old(pending)
    {
      store := Applied(store, inFlight.value);
      inFlight := None;
      committed := pending;
    }

    /** The commit loop until the queue is empty. */
    method CommitLoop()
      requires Valid()
      modifies this`queue, this`inFlight, this`pending, this`store, this`committed
      modifies file`syncNotified, file`blocks, file`all, file`txBlocks
      ensures Valid() && queue == [] && inFlight.None? && file.Flat() == old(file.Flat())
      ensures committed == if old(Sync(name) in queue) then file.Flat() else old(pending)
      ensures store == Cut(file.pageSize, committed)
    {
      if inFlight.Some? {
        Commit();
      }
      while queue != []
        invariant Valid() && inFlight.None? && committed == pending
        invariant file.Flat() == old(file.Flat())
        invariant if Sync(name) in queue then old(Sync(name) in queue)
                  else committed == if old(Sync(name) in queue) then file.Flat() else old(pending)
        invariant !old(Sync(name) in queue) ==> committed == old(pending)
        decreases |queue|
      {
        ghost var head := queue[0];
        assert queue == [head] + queue[1..];
        BeginSync();
        if inFlight.Some? {
          Commit();
        }
      }
    }
  }

  // ----- preloading

  /** `preload_db_impl` for one file; None where no block is stored. */
  method Preload(store: Pages, ghost pageSize: nat, ghost contents: seq<byte>) returns (file: Option<IdbPageFile>)
    requires pageSize > 0 && Aligned(pageSize, |contents|) && store == Cut(pageSize, contents)
    ensures file.None? <==> contents == []
    ensures file.Some? ==>
              && fresh(file.value) && file.value.Valid() && file.value.pageSize == pageSize
              && file.value.Flat() == contents && file.value.Tidy()
              && file.value.txBlocks == {} && !file.value.syncNotified
  {
    var fileSize, blockSize, blocks := InsertBlocks(store, pageSize, contents);
    CutSize(pageSize, contents);
    if blocks == map[] {
      NoBlocks(pageSize, contents);
      file := None;
    } else {
      var f := new IdbPageFile.FromBlocks(contents, blockSize, blocks, {}, fileSize);
      file := Some(f);
    }
  }

  /** The size of the file is found by counting blocks. */
  method InsertBlocks(store: Pages, ghost pageSize: nat, ghost contents: seq<byte>)
    returns (fileSize: nat, blockSize: nat, blocks: Pages)
    requires pageSize > 0 && Aligned(pageSize, |contents|) && store == Cut(pageSize, contents)
    ensures blocks == store && fileSize == Times(|store|, pageSize)
    ensures blockSize == if store == map[] then 0 else pageSize
  {
    assert AllPages(store, pageSize) by {
      forall k | k in store ensures |store[k]| == pageSize {
        assert store[k] == PageAt(pageSize, contents, k);
      }
    }
    fileSize, blockSize, blocks := InsertAll(store, pageSize);
  }

  ghost predicate AllPages(m: Pages, pageSize: nat) { forall k :: k in m ==> |m[k]| == pageSize }

  /** After some blocks: the others are in `rest`. */
  ghost predicate Inserted(store: Pages, blocks: Pages, rest: Pages, pageSize: nat, fileSize: nat, blockSize: nat) {
    && Split(store, blocks, rest) && fileSize == Times(|blocks|, pageSize)
    && blockSize == if blocks == map[] then 0 else pageSize
  }

  lemma InsertNext(store: Pages, blocks: Pages, rest: Pages, pageSize: nat, fileSize: nat, blockSize: nat, k: nat)
    requires AllPages(store, pageSize) && Inserted(store, blocks, rest, pageSize, fileSize, blockSize) && k in rest
    ensures |rest[k]| == pageSize && |rest - {k}| < |rest|
    ensures Inserted(store, blocks[k := rest[k]], rest - {k}, pageSize, fileSize + pageSize, pageSize)
    ensures blocks == map[] ==> fileSize == 0
  {
    SplitNext(store, blocks, rest, k);
    assert rest[k] == store[k];
    assert k in blocks[k := rest[k]];
  }

  lemma InsertEnd(store: Pages, blocks: Pages)
    requires Split(store, blocks, map[])
    ensures blocks == store
  {
  }

  method InsertAll(store: Pages, ghost pageSize: nat) returns (fileSize: nat, blockSize: nat, blocks: Pages)
    requires AllPages(store, pageSize)
    ensures blocks == store && fileSize == Times(|store|, pageSize)
    ensures blockSize == if store == map[] then 0 else pageSize
  {
    fileSize, blockSize, blocks := 0, 0, map[];
    var rest: Pages := store;
    while rest != map[]
      invariant Inserted(store, blocks, rest, pageSize, fileSize, blockSize)
      decreases |rest|
    {
      var offset :| offset in rest;
      var data := rest[offset];
      InsertNext(store, blocks, rest, pageSize, fileSize, blockSize, offset);
      if blocks == map[] {
        fileSize, blockSize := |data|, |data|;
      } else {
        fileSize := fileSize + blockSize;
      }
      blocks, rest := blocks[offset := data], rest - {offset};
    }
    InsertEnd(store, blocks);
  }

  ghost predicate Split(store: Pages, blocks: Pages, rest: Pages) {
    && (forall k :: k in store <==> k in blocks || k in rest) && (forall k :: k in rest ==> k !in blocks)
    && (forall k :: k in rest ==> rest[k] == store[k]) && (forall k :: k in blocks ==> blocks[k] == store[k])
  }

  lemma SplitNext(store: Pages, blocks: Pages, rest: Pages, k: nat)
    requires Split(store, blocks, rest) && k in rest
    ensures Split(store, blocks[k := rest[k]], rest - {k})
    ensures |blocks[k := rest[k]]| == |blocks| + 1 && |rest - {k}| < |rest|
  {
    NewKey(blocks, k, rest[k]);
    NewKey(rest - {k}, k, rest[k]);
    assert rest == (rest - {k})[k := rest[k]];
  }

  lemma NoBlocks(p: nat, bytes: seq<byte>)
    requires p > 0 && Aligned(p, |bytes|) && Cut(p, bytes) == map[]
    ensures bytes == []
  {
    if bytes != [] {
      var k := ByteOfPage(p, bytes, 0);
    }
  }

  /**
   Losing the memory at any point and starting again gives the file as it was at the last sync that
   was committed.
   */
  method Restart(lost: RelaxedIdb) returns (idb: Option<RelaxedIdb>)
    requires lost.Valid()
    ensures idb.None? <==> lost.committed == []
    ensures idb.Some? ==>
              && idb.value.Valid() && idb.value.file.Flat() == idb.value.committed == lost.committed
              && idb.value.name == lost.name && idb.value.queue == []
  {
    var file := Preload(lost.store, lost.file.pageSize, lost.committed);
    if file.None? {
      idb := None;
    } else {
      var r := new RelaxedIdb(lost.name, file.value, lost.store, [], lost.committed);
      idb := Some(r);
    }
  }

  // ----- whole runs

  datatype Event =
    | WriteEvent(buf: seq<byte>, offset: nat)
    | TruncateEvent(size: nat)
    | SyncEvent
    | BeginEvent
    | CommitEvent

  /** Full aligned pages; truncation to a shorter multiple of the page size. */
  predicate Legal(p: nat, flat: seq<byte>, e: Event)
    requires p > 0
  {
    match e
    case WriteEvent(buf, offset) => |buf| == p && Aligned(p, offset)
    case TruncateEvent(size) => Aligned(p, size) && size <= |flat|
    case _ => true
  }

  /** What the event does to a flat file. */
  function FlatStep(flat: seq<byte>, e: Event): seq<byte> {
    match e
    case WriteEvent(buf, offset) => FlatWrite(flat, offset, buf)
    case TruncateEvent(size) => if size <= |flat| then flat[..size] else flat
    case _ => flat
  }

  function FlatRun(flat: seq<byte>, events: seq<Event>): seq<byte> {
    if events == [] then flat else FlatStep(FlatRun(flat, events[..|events| - 1]), events[|events| - 1])
  }

  ghost predicate LegalRun(p: nat, flat: seq<byte>, events: seq<Event>)
    requires p > 0
  {
    forall i :: 0 <= i < |events| ==> Legal(p, FlatRun(flat, events[..i]), events[i])
  }

  /** `bytes` was the file at some point of the run. */
  ghost predicate WasFile(flat: seq<byte>, events: seq<Event>, bytes: seq<byte>) {
    exists k :: 0 <= k <= |events| && bytes == FlatRun(flat, events[..k])
  }

  lemma WasFileLater(flat: seq<byte>, events: seq<Event>, e: Event, bytes: seq<byte>)
    requires WasFile(flat, events, bytes) || bytes == FlatRun(flat, events + [e])
    ensures WasFile(flat, events + [e], bytes)
  {
    if WasFile(flat, events, bytes) {
      var k :| 0 <= k <= |events| && bytes == FlatRun(flat, events[..k]);
      assert (events + [e])[..k] == events[..k];
    } else {
      assert (events + [e])[..|events| + 1] == events + [e];
    }
  }

  /** One event; a step of the commit loop happens when there is one to take. */
  method Perform(idb: RelaxedIdb, e: Event)
    requires idb.Valid() && Legal(idb.file.pageSize, idb.file.Flat(), e)
    modifies idb, idb.file
    ensures idb.Valid() && idb.file.Flat() == FlatStep(old(idb.file.Flat()), e)
    ensures idb.committed in {old(idb.committed), old(idb.pending)}
    ensures idb.pending in {old(idb.pending), idb.file.Flat()}
  {
    match e
    case WriteEvent(buf, offset) => idb.Write(buf, offset);
    case TruncateEvent(size) => idb.Truncate(size);
    case SyncEvent => idb.SyncControl();
    case BeginEvent =>
      if idb.inFlight.None? && idb.queue != [] {
        idb.BeginSync();
      }
    case CommitEvent =>
      if idb.inFlight.Some? {
        idb.Commit();
      }
  }

  /**
   Over every run the page map is the flat file, and whatever the store holds, also halfway through,
   was the file at some point of the run.
   */
  method PerformAll(idb: RelaxedIdb, events: seq<Event>)
    requires idb.Valid() && idb.committed == idb.pending == idb.file.Flat()
    requires LegalRun(idb.file.pageSize, idb.file.Flat(), events)
    modifies idb, idb.file
    ensures idb.Valid() && idb.file.Flat() == FlatRun(old(idb.file.Flat()), events)
    ensures WasFile(old(idb.file.Flat()), events, idb.committed)
  {
    ghost var flat := idb.file.Flat();
    assert events[..0] == [];
    assert events[..0][..0] == [];
    for i := 0 to |events|
      invariant idb.Valid() && idb.file.Flat() == FlatRun(flat, events[..i])
      invariant WasFile(flat, events[..i], idb.committed) && WasFile(flat, events[..i], idb.pending)
    {
      Perform(idb, events[i]);
      RunNext(flat, events, i, idb.committed, idb.pending);
    }
    assert events[..|events|] == events;
  }

  lemma RunNext(flat: seq<byte>, events: seq<Event>, i: nat, committed: seq<byte>, pending: seq<byte>)
    requires i < |events|
    requires WasFile(flat, events[..i], committed)
    requires WasFile(flat, events[..i], pending) || pending == FlatStep(FlatRun(flat, events[..i]), events[i])
    ensures FlatRun(flat, events[..i + 1]) == FlatStep(FlatRun(flat, events[..i]), events[i])
    ensures WasFile(flat, events[..i + 1], committed) && WasFile(flat, events[..i + 1], pending)
  {
    assert events[..i + 1] == events[..i] + [events[i]];
    assert events[..i + 1][..i] == events[..i];
    WasFileLater(flat, events[..i], events[i], committed);
    WasFileLater(flat, events[..i], events[i], pending);
  }

  // ----- importing

  datatype ImportResult = Imported(idb: RelaxedIdb) | InvalidPageSize | InvalidDbSize | Panicked

  predicate LegalPageSize(n: nat) { n in {512, 1024, 2048, 4096, 8192, 16384, 32768, 65536} }

  /** The database in legacy mode: both version numbers of the header are 1. */
  function Legacy(bytes: seq<byte>): seq<byte>
    requires |bytes| >= 20
  {
    Patch(bytes, 18, [1, 1])
  }

  function PowerOfTwo(k: nat): nat { if k == 0 then 1 else 2 * PowerOfTwo(k - 1) }

  /** `n` is the `k`-th power of two, for the exponents of the page sizes. */
  lemma PowerIs(k: nat, n: nat)
    requires 9 <= k <= 16
    ensures n == PowerOfTwo(k) <==>
            n == if k == 9 then 512 else if k == 10 then 1024 else if k == 11 then 2048 else if k == 12 then 4096
                 else if k == 13 then 8192 else if k == 14 then 16384 else if k == 15 then 32768 else 65536
  {
    EightTimes();
    var p9 := PowerOfTwo(9);
    assert PowerOfTwo(10) == 2 * p9 && PowerOfTwo(11) == 4 * p9 && PowerOfTwo(12) == 8 * p9;
    assert PowerOfTwo(13) == 16 * p9 && PowerOfTwo(14) == 32 * p9 && PowerOfTwo(15) == 64 * p9;
    assert PowerOfTwo(16) == 128 * p9;
  }

  lemma EightTimes()
    ensures PowerOfTwo(9) == 512
  {
    assert PowerOfTwo(3) == 8;
    assert PowerOfTwo(6) == 8 * PowerOfTwo(3);
    assert PowerOfTwo(9) == 8 * PowerOfTwo(6);
  }

  /** The page sizes are the powers of two from 512 to 65536. */
  lemma PageSizes(n: nat)
    ensures LegalPageSize(n) <==> exists k :: 9 <= k <= 16 && n == PowerOfTwo(k)
  {
    forall k | 9 <= k <= 16 ensures n == PowerOfTwo(k) ==> LegalPageSize(n) {
      PowerIs(k, n);
    }
    if LegalPageSize(n) {
      var k := if n == 512 then 9 else if n == 1024 then 10 else if n == 2048 then 11 else if n == 4096 then 12
               else if n == 8192 then 13 else if n == 16384 then 14 else if n == 32768 then 15 else 16;
      PowerIs(k, n);
    }
  }

  /** `chunks`, with their offsets. */
  lemma NextChunk(p: nat, bytes: seq<byte>, at: nat)
    requires p > 0 && Aligned(p, |bytes|) && Aligned(p, at) && at < |bytes|
    ensures at + p <= |bytes| && Aligned(p, at + p)
    ensures Cut(p, bytes[..at + p]) == Cut(p, bytes[..at])[at := bytes[at..at + p]]
  {
    NextAligned(p, at, |bytes|);
    var page := bytes[at..at + p];
    assert PutPage(bytes[..at], at, page) == bytes[..at] + page == bytes[..at + p];
    CutPut(p, bytes[..at], at, page);
  }

  method Chunks(bytes: seq<byte>, pageSize: nat) returns (blocks: Pages)
    requires pageSize > 0 && Aligned(pageSize, |bytes|)
    ensures blocks == Cut(pageSize, bytes)
  {
    blocks := map[];
    var at := 0;
    while at < |bytes|
      invariant at <= |bytes| && Aligned(pageSize, at) && blocks == Cut(pageSize, bytes[..at])
    {
      NextChunk(pageSize, bytes, at);
      blocks := blocks[at := bytes[at..at + pageSize]];
      at := at + pageSize;
    }
    assert bytes[..at] == bytes;
  }

  /** `import_db_unchecked`, for a file that is neither in memory nor in the store. */
  method Import(name: string, bytes: seq<byte>, pageSize: nat, clearWal: bool) returns (r: ImportResult)
    ensures r.InvalidPageSize? <==> !LegalPageSize(pageSize)
    ensures r.InvalidDbSize? <==> LegalPageSize(pageSize) && |bytes| % pageSize != 0
    ensures r.Panicked? <==> LegalPageSize(pageSize) && bytes == [] && clearWal
    ensures r.Imported? ==>
              && fresh(r.idb) && fresh(r.idb.file) && r.idb.Valid() && r.idb.queue == [Sync(name)]
              && r.idb.name == name && r.idb.committed == []
              && (clearWal ==> |bytes| >= 20)
              && |r.idb.file.Flat()| == |bytes|
              && forall i :: 0 <= i < |bytes| ==>
                   r.idb.file.Flat()[i] == if clearWal && (i == 18 || i == 19) then 1 else bytes[i]
    ensures LegalPageSize(pageSize) <==> exists k :: 9 <= k <= 16 && pageSize == PowerOfTwo(k)
  {
    PageSizes(pageSize);
    if !LegalPageSize(pageSize) {
      return InvalidPageSize;
    }
    if |bytes| % pageSize != 0 {
      return InvalidDbSize;
    }
    PageOf(pageSize, |bytes|);
    var blocks := Chunks(bytes, pageSize);
    ghost var all := bytes;
    if clearWal {
      if 0 !in blocks {
        return Panicked;
      }
      blocks := ClearWal(bytes, pageSize, blocks);
      all := Legacy(bytes);
    }
    CutSize(pageSize, all);
    TimesIsProduct(|blocks|, pageSize);
    var file := new IdbPageFile.FromBlocks(all, pageSize, blocks, blocks.Keys, |blocks| * pageSize);
    var idb := new RelaxedIdb(name, file, map[], [Sync(name)], []);
    r := Imported(idb);
  }

  /** Force the header back to legacy mode. */
  method ClearWal(ghost bytes: seq<byte>, pageSize: nat, blocks: Pages) returns (r: Pages)
    requires pageSize >= 20 && Aligned(pageSize, |bytes|) && blocks == Cut(pageSize, bytes) && 0 in blocks
    ensures |bytes| >= 20 && Aligned(pageSize, |Legacy(bytes)|) && r == Cut(pageSize, Legacy(bytes))
  {
    assert blocks[0] == PageAt(pageSize, bytes, 0);
    var header := Patch(blocks[0], 18, [1, 1]);
    CutPut(pageSize, bytes, 0, header);
    assert PutPage(bytes, 0, header) == Legacy(bytes);
    r := blocks[0 := header];
  }

  /** A file with a sync in the queue: commit, lose the memory, start again, export. */
  method SaveAndReload(idb: RelaxedIdb) returns (exported: seq<byte>)
    requires idb.Valid() && Sync(idb.name) in idb.queue && idb.file.Flat() != []
    modifies idb, idb.file
    ensures exported == old(idb.file.Flat())
  {
    idb.CommitLoop();
    var again := Restart(idb);
    exported := again.value.file.Export();
  }

  /** Import, sync, restart, export: the bytes come back, in legacy mode if that was asked for. */
  method ImportSurvives(name: string, bytes: seq<byte>, pageSize: nat, clearWal: bool) returns (exported: seq<byte>)
    requires LegalPageSize(pageSize) && bytes != [] && |bytes| % pageSize == 0
    ensures |bytes| >= 20 && |exported| == |bytes|
    ensures forall i :: 0 <= i < |bytes| ==>
              exported[i] == if clearWal && (i == 18 || i == 19) then 1 else bytes[i]
  {
    OnePageAtLeast(|bytes|, pageSize);
    var r := Import(name, bytes, pageSize, clearWal);
    exported := SaveAndReload(r.idb);
  }

  lemma OnePageAtLeast(n: nat, p: nat)
    requires 0 < p && 0 < n && n % p == 0
    ensures n >= p
  {
    if n < p { PageOf(p, n); }
  }
}
