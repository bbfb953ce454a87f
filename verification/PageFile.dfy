/**
 The in-memory page file of the relaxed IndexedDB file system: a map from offsets to pages, the set of
 pages to write back, and a size. It should behave like a flat array of bytes.
 */
module PageFile {
  import opened Bytes

  type Page = seq<byte>
  type Pages = map<nat, Page>

  // ----- pages and flat bytes

  /** Multiples of the page size. */
  predicate Aligned(p: nat, n: nat)
    requires p > 0
  {
    n == 0 || (n >= p && Aligned(p, n - p))
  }

  lemma {:induction false} NextAligned(p: nat, k: nat, f: nat)
    requires p > 0 && Aligned(p, k) && Aligned(p, f)
    ensures Aligned(p, k + p)
    ensures k < f ==> k + p <= f
    ensures f >= p ==> Aligned(p, f - p)
    decreases f
  {
    if f > 0 && k > 0 {
      NextAligned(p, k - p, f - p);
    }
  }

  /** The page an offset is on. */
  lemma PageOf(p: nat, i: nat)
    requires p > 0
    ensures var k := i / p * p; Aligned(p, k) && k + i % p == i && i % p < p
  {
    AlignedMultiple(p, i / p);
  }

  lemma {:induction false} AlignedMultiple(p: nat, m: nat)
    requires p > 0
    ensures m * p >= 0 && Aligned(p, m * p)
  {
    if m == 0 {
    } else {
      AlignedMultiple(p, m - 1);
      assert m * p == (m - 1) * p + p;
    }
  }

  /** A flat file cut into pages. */
  function Cut(p: nat, bytes: seq<byte>): Pages
    requires p > 0 && Aligned(p, |bytes|)
  {
    map k | 0 <= k < |bytes| && Aligned(p, k) :: PageAt(p, bytes, k)
  }

  function PageAt(p: nat, bytes: seq<byte>, k: nat): (r: Page)
    requires p > 0 && Aligned(p, |bytes|) && k < |bytes| && Aligned(p, k)
    ensures |r| == p && k + p <= |bytes|
  {
    NextAligned(p, k, |bytes|);
    bytes[k..k + p]
  }

  /** One page written at or before the end. */
  function PutPage(bytes: seq<byte>, k: nat, page: Page): (r: seq<byte>)
    requires k <= |bytes|
    ensures |r| == if k + |page| <= |bytes| then |bytes| else k + |page|
  {
    bytes[..k] + page + if k + |page| <= |bytes| then bytes[k + |page|..] else []
  }

  lemma PutAligned(p: nat, bytes: seq<byte>, k: nat, page: Page)
    requires p > 0 && Aligned(p, |bytes|) && Aligned(p, k) && k <= |bytes| && |page| == p
    ensures Aligned(p, |PutPage(bytes, k, page)|) && k + p <= |PutPage(bytes, k, page)|
    ensures k < |bytes| ==> |PutPage(bytes, k, page)| == |bytes|
  {
    NextAligned(p, k, |bytes|);
  }

  lemma PutOnePage(p: nat, bytes: seq<byte>, k: nat, page: Page, j: nat)
    requires p > 0 && Aligned(p, |bytes|) && Aligned(p, k) && k <= |bytes| && |page| == p
    requires Aligned(p, j) && j < |PutPage(bytes, k, page)| && Aligned(p, |PutPage(bytes, k, page)|)
    ensures j != k ==> j < |bytes|
    ensures PageAt(p, PutPage(bytes, k, page), j) == if j == k then page else PageAt(p, bytes, j)
  {
    NextAligned(p, j, |PutPage(bytes, k, page)|);
    if j < k { NextAligned(p, j, k); }
    if k < j { NextAligned(p, k, j); }
    if j < |bytes| { NextAligned(p, j, |bytes|); }
    NextAligned(p, k, |bytes|);
  }

  /** Writing a page writes one block. */
  lemma CutPut(p: nat, bytes: seq<byte>, k: nat, page: Page)
    requires p > 0 && Aligned(p, |bytes|) && Aligned(p, k) && k <= |bytes| && |page| == p
    ensures Aligned(p, |PutPage(bytes, k, page)|)
    ensures Cut(p, PutPage(bytes, k, page)) == Cut(p, bytes)[k := page]
  {
    PutAligned(p, bytes, k, page);
    var r := PutPage(bytes, k, page);
    forall j | j in Cut(p, r) ensures j == k || j in Cut(p, bytes) {
      PutOnePage(p, bytes, k, page, j);
    }
    forall j | j in Cut(p, r) ensures Cut(p, r)[j] == if j == k then page else Cut(p, bytes)[j] {
      PutOnePage(p, bytes, k, page, j);
    }
    assert Cut(p, r).Keys == Cut(p, bytes).Keys + {k};
  }

  /** Cutting off the end drops the blocks behind it. */
  lemma CutPrefix(p: nat, bytes: seq<byte>, n: nat)
    requires p > 0 && Aligned(p, |bytes|) && Aligned(p, n) && n <= |bytes|
    ensures Cut(p, bytes[..n]) == map k | k in Cut(p, bytes) && k < n :: Cut(p, bytes)[k]
  {
    var front, whole := Cut(p, bytes[..n]), Cut(p, bytes);
    forall k | k in front ensures k in whole && k < n && front[k] == whole[k] {
      PageOfPrefix(p, bytes, n, k);
    }
    forall k | k in whole && k < n ensures k in front {
      assert Aligned(p, k);
    }
  }

  lemma PageOfPrefix(p: nat, bytes: seq<byte>, n: nat, k: nat)
    requires p > 0 && Aligned(p, |bytes|) && Aligned(p, n) && Aligned(p, k) && k < n <= |bytes|
    ensures PageAt(p, bytes[..n], k) == PageAt(p, bytes, k)
  {
    NextAligned(p, k, n);
    NextAligned(p, k, |bytes|);
    assert bytes[..n][k..k + p] == bytes[k..k + p];
  }

  /** The blocks determine the bytes. */
  lemma CutInjective(p: nat, a: seq<byte>, b: seq<byte>)
    requires p > 0 && Aligned(p, |a|) && Aligned(p, |b|) && Cut(p, a) == Cut(p, b)
    ensures a == b
  {
    assert |a| in Cut(p, b) <==> |a| < |b|;
    assert |b| in Cut(p, a) <==> |b| < |a|;
    forall i | 0 <= i < |a| ensures a[i] == b[i] {
      var ka := ByteOfPage(p, a, i);
      var kb := ByteOfPage(p, b, i);
    }
  }

  /** Every byte is on a page. */
  lemma ByteOfPage(p: nat, bytes: seq<byte>, i: nat) returns (k: nat)
    requires p > 0 && Aligned(p, |bytes|) && i < |bytes|
    ensures k == i / p * p && k <= i < k + p && k in Cut(p, bytes) && Cut(p, bytes)[k][i - k] == bytes[i]
  {
    PageOf(p, i);
    k := i / p * p;
    assert Cut(p, bytes)[k] == PageAt(p, bytes, k);
  }

  function Without(m: Pages, from: nat, to: nat): Pages {
    map k | k in m && !(from <= k < to) :: m[k]
  }

  lemma WithoutNext(p: nat, bytes: seq<byte>, from: nat, to: nat)
    requires p > 0 && Aligned(p, |bytes|) && Aligned(p, to) && from <= to
    ensures Without(Cut(p, bytes), from, to) - {to} == Without(Cut(p, bytes), from, to + p)
  {
    forall k | k in Cut(p, bytes) && to < k ensures to + p <= k {
      NextAligned(p, to, k);
    }
    OneLess(Cut(p, bytes), from, to, p);
  }

  lemma OneLess(m: Pages, from: nat, to: nat, p: nat)
    requires p > 0 && from <= to && forall k :: k in m && to < k ==> to + p <= k
    ensures Without(m, from, to) - {to} == Without(m, from, to + p)
  {
  }

  /** Number of blocks times the page size is the file size. */
  lemma {:induction false} CutSize(p: nat, bytes: seq<byte>)
    requires p > 0 && Aligned(p, |bytes|)
    ensures Times(|Cut(p, bytes)|, p) == |bytes|
    decreases |bytes|
  {
    if bytes == [] {
    } else {
      NextAligned(p, 0, |bytes|);
      var n := |bytes| - p;
      CutSize(p, bytes[..n]);
      CutLast(p, bytes);
    }
  }

  lemma CutLast(p: nat, bytes: seq<byte>)
    requires p > 0 && Aligned(p, |bytes|) && |bytes| >= p && Aligned(p, |bytes| - p)
    ensures |Cut(p, bytes)| == |Cut(p, bytes[..|bytes| - p])| + 1
  {
    var n := |bytes| - p;
    CutLastBlock(p, bytes, n);
    NewKey(Cut(p, bytes[..n]), n, bytes[n..]);
  }

  lemma LastPage(bytes: seq<byte>, n: nat)
    requires n < |bytes|
    ensures PutPage(bytes[..n], n, bytes[n..]) == bytes
  {
    assert bytes[..n][..n] + bytes[n..] == bytes;
  }

  lemma CutLastBlock(p: nat, bytes: seq<byte>, n: nat)
    requires p > 0 && Aligned(p, |bytes|) && n + p == |bytes| && Aligned(p, n)
    ensures Cut(p, bytes) == Cut(p, bytes[..n])[n := bytes[n..]]
  {
    LastPage(bytes, n);
    CutPut(p, bytes[..n], n, bytes[n..]);
  }

  lemma NewKey(m: Pages, k: nat, page: Page)
    requires k !in m
    ensures |m[k := page]| == |m| + 1
  {
    assert m[k := page].Keys == m.Keys + {k};
    assert |m[k := page].Keys| == |m.Keys| + 1;
  }

  // ----- the flat file

  /** `pwrite`: a gap behind the end reads as zeros. */
  function FlatWrite(bytes: seq<byte>, at: nat, data: seq<byte>): seq<byte> {
    if at <= |bytes| then PutPage(bytes, at, data) else bytes + Zeros(at - |bytes|) + data
  }

  /** `pread`, padded with zeros, and whether all bytes were there. */
  function FlatRead(bytes: seq<byte>, at: nat, n: nat): (seq<byte>, bool) {
    (seq(n, j requires 0 <= j => if at + j < |bytes| then bytes[at + j] else 0), at + n <= |bytes|)
  }

  /** `ftruncate`: the file is cut or continued with zeros. */
  function Resized(bytes: seq<byte>, size: nat): seq<byte> {
    if size <= |bytes| then bytes[..size] else bytes + Zeros(size - |bytes|)
  }

  /**
   A truncate changes the size and no block. Reads inside the new size, which return what the blocks
   hold, are those of the resized file exactly when the blocks reach that far.
   */
  lemma TruncateExactly(all: seq<byte>, size: nat)
    ensures (forall offset: nat, n: nat :: n > 0 && offset + n <= size ==>
               FlatRead(all, offset, n) == FlatRead(Resized(all, size), offset, n))
            <==> size <= |all|
  {
    if size <= |all| {
      forall offset: nat, n: nat | n > 0 && offset + n <= size
        ensures FlatRead(all, offset, n) == FlatRead(Resized(all, size), offset, n)
      {
        assert FlatRead(all, offset, n).0 == FlatRead(Resized(all, size), offset, n).0;
      }
    } else {
      assert FlatRead(all, |all|, 1) != FlatRead(Resized(all, size), |all|, 1);
    }
  }

  /** A page written to blocks that begin with `flat` and a gap. */
  lemma WriteAfterGap(all: seq<byte>, flat: seq<byte>, n: nat, at: nat, data: seq<byte>)
    requires |flat| <= n <= |all| && all[..n] == flat + Zeros(n - |flat|)
    requires if at <= |flat| then n == |flat| && (at < |flat| ==> at + |data| <= |flat|) else n == at
    ensures |FlatWrite(flat, at, data)|
        == (if |flat| < at + |data| then at + |data| else |flat|) <= |PutPage(all, at, data)|
    ensures PutPage(all, at, data)[..|FlatWrite(flat, at, data)|] == FlatWrite(flat, at, data)
  {
    var r, w := PutPage(all, at, data), FlatWrite(flat, at, data);
    forall i | 0 <= i < |w| ensures r[i] == w[i] {
      if i < n { assert all[i] == all[..n][i]; }
    }
  }

  lemma GapGrows(all: seq<byte>, flat: seq<byte>, n: nat, p: nat)
    requires |flat| <= n <= |all| && all[..n] == flat + Zeros(n - |flat|)
    ensures n + p <= |PutPage(all, n, Zeros(p))| && PutPage(all, n, Zeros(p))[..n + p] == flat + Zeros(n + p - |flat|)
  {
    var r, w := PutPage(all, n, Zeros(p)), flat + Zeros(n + p - |flat|);
    forall i | 0 <= i < n + p ensures r[i] == w[i] {
      if i < n { assert all[i] == all[..n][i]; }
    }
  }

  lemma PatchPages(p: nat, bytes: seq<byte>, k: nat, page: Page, j: nat)
    requires p > 0 && Aligned(p, j) && Aligned(p, k) && |page| == p && k + p <= |bytes| && j + p <= |bytes|
    ensures Patch(bytes, k, page)[j..j + p] == if j == k then page else bytes[j..j + p]
  {
    NextAligned(p, j, k);
    NextAligned(p, k, j);
  }

  // ----- reading pages

  /** The page of an offset is there if the offset is in the file, and holds its byte and those after it. */
  lemma PageHit(p: nat, all: seq<byte>, i: nat, addr: nat, offset: nat)
    requires p > 0 && Aligned(p, |all|) && addr == i / p * p && offset == i % p
    ensures offset < p && (addr in Cut(p, all) <==> i < |all|)
    ensures addr in Cut(p, all) ==>
              |Cut(p, all)[addr]| == p && i + (p - offset) <= |all|
              && forall k :: offset <= k < p ==> Cut(p, all)[addr][k] == all[i - offset + k]
  {
    PageOf(p, i);
    if i < |all| {
      assert Cut(p, all)[addr] == PageAt(p, all, addr);
    } else if addr < |all| {
      NextAligned(p, addr, |all|);
    }
  }

  /** `page_read`. Returns false for a short read. */
  method PageRead(buf: array<byte>, pageSize: nat, fileSize: nat, offset: nat, pages: Pages, ghost all: seq<byte>)
    returns (ok: bool)
    requires pageSize > 0 && fileSize > 0 ==> Aligned(pageSize, |all|) && pages == Cut(pageSize, all)
    modifies buf
    ensures pageSize == 0 || fileSize == 0 ==> !ok && buf[..] == Zeros(buf.Length)
    ensures pageSize > 0 && fileSize > 0 && buf.Length > 0 ==> (buf[..], ok) == FlatRead(all, offset, buf.Length)
    ensures pageSize > 0 && fileSize > 0 && buf.Length == 0 ==> ok
  {
    if pageSize == 0 || fileSize == 0 {
      Fill(buf, 0);
      assert buf[..] == Zeros(buf.Length);
      return false;
    }
    var dataOffset := 0;
    while dataOffset < buf.Length
      invariant 0 <= dataOffset <= buf.Length
      invariant dataOffset == 0 || offset + dataOffset <= |all|
      invariant forall j :: 0 <= j < dataOffset ==> buf[j] == all[offset + j]
    {
      var n := ReadPart(buf, dataOffset, pageSize, offset + dataOffset, pages, all);
      if n == 0 {
        break;
      }
      dataOffset := dataOffset + n;
    }
    if dataOffset < buf.Length {
      Fill(buf, dataOffset);
      assert buf[..] == FlatRead(all, offset, buf.Length).0;
      return false;
    }
    assert buf[..] == FlatRead(all, offset, buf.Length).0;
    return true;
  }

  /** Copy as much as one page gives; nothing where there is no page. */
  method ReadPart(buf: array<byte>, at: nat, pageSize: nat, fileOffset: nat, pages: Pages, ghost all: seq<byte>)
    returns (n: nat)
    requires pageSize > 0 && Aligned(pageSize, |all|) && pages == Cut(pageSize, all) && at < buf.Length
    modifies buf
    ensures n == 0 <==> fileOffset >= |all|
    ensures at + n <= buf.Length && (n > 0 ==> fileOffset + n <= |all|)
    ensures forall j :: 0 <= j < buf.Length ==>
        buf[j] == if at <= j < at + n then all[fileOffset + j - at] else old(buf[j])
  {
    var pageIdx := fileOffset / pageSize;
    var pageOffset := fileOffset % pageSize;
    var pageAddr := pageIdx * pageSize;
    PageHit(pageSize, all, fileOffset, pageAddr, pageOffset);
    if pageAddr !in pages {
      return 0;
    }
    n := if pageSize - pageOffset < buf.Length - at then pageSize - pageOffset else buf.Length - at;
    var page := pages[pageAddr];
    Copy(buf, at, page[pageOffset..pageOffset + n]);
  }

  method Fill(buf: array<byte>, from: nat)
    requires from <= buf.Length
    modifies buf
    ensures forall j :: 0 <= j < buf.Length ==> buf[j] == if j < from then old(buf[j]) else 0
  {
    for i := from to buf.Length
      invariant forall j :: 0 <= j < buf.Length ==> buf[j] == if from <= j < i then 0 else old(buf[j])
    {
      buf[i] := 0;
    }
  }

  method Copy(buf: array<byte>, at: nat, data: seq<byte>)
    requires at + |data| <= buf.Length
    modifies buf
    ensures forall j :: 0 <= j < buf.Length ==> buf[j] == if at <= j < at + |data| then data[j - at] else old(buf[j])
  {
    for i := 0 to |data|
      invariant forall j :: 0 <= j < buf.Length ==> buf[j] == if at <= j < at + i then data[j - at] else old(buf[j])
    {
      buf[at + i] := data[i];
    }
  }

  // ----- the file

  class IdbPageFile {
    ghost const pageSize: nat
    var fileSize: nat
    var blockSize: nat
    var blocks: Pages
    var txBlocks: set<nat>
    var syncNotified: bool
    /** The bytes of all blocks, those behind the end of the file included. */
    ghost var all: seq<byte>

    ghost predicate Valid()
      reads this
    {
      && pageSize > 0
      && Aligned(pageSize, |all|) && Aligned(pageSize, fileSize) && fileSize <= |all|
      && blocks == Cut(pageSize, all)
      && (blockSize == pageSize || all == [])
    }

    /** The contents of the file. */
    ghost function Flat(): seq<byte>
      reads this
      requires Valid()
    {
      all[..fileSize]
    }

    /** No blocks are left over from before a truncation. */
    ghost predicate Tidy()
      reads this
      requires Valid()
    {
      fileSize == |all|
    }

    constructor (ghost pageSize: nat)
      requires pageSize > 0
      ensures Valid() && Flat() == [] && Tidy() && txBlocks == {} && !syncNotified
      ensures this.pageSize == pageSize && blockSize == 0
    {
      this.pageSize := pageSize;
      fileSize, blockSize, blocks, txBlocks, syncNotified, all := 0, 0, map[], {}, false, [];
    }

    constructor FromBlocks(ghost all: seq<byte>, blockSize: nat, blocks: Pages, txBlocks: set<nat>, fileSize: nat)
      requires blockSize > 0 && Aligned(blockSize, |all|) && blocks == Cut(blockSize, all) && fileSize == |all|
      ensures Valid() && Flat() == all && Tidy() && this.txBlocks == txBlocks && !syncNotified
      ensures this.pageSize == blockSize == this.blockSize
    {
      this.pageSize := blockSize;
      this.fileSize, this.blockSize, this.blocks, this.txBlocks, this.syncNotified, this.all :=
        fileSize, blockSize, blocks, txBlocks, false, all;
    }

    method Read(buf: array<byte>, offset: nat) returns (ok: bool)
      requires Valid()
      modifies buf
      ensures fileSize == 0 ==> !ok && buf[..] == Zeros(buf.Length)
      ensures fileSize > 0 && buf.Length > 0 ==> (buf[..], ok) == FlatRead(all, offset, buf.Length)
      ensures buf.Length > 0 && ReadsTruly(offset, buf.Length) ==> (buf[..], ok) == FlatRead(Flat(), offset, buf.Length)
    {
      ok := PageRead(buf, blockSize, fileSize, offset, blocks, all);
      if fileSize == 0 {
        assert FlatRead(Flat(), offset, buf.Length).0 == Zeros(buf.Length);
      }
    }

    /** What a read returns is what a flat file would return. */
    ghost predicate ReadsTruly(offset: nat, n: nat)
      reads this
      requires Valid()
    {
      fileSize == 0 || FlatRead(all, offset, n) == FlatRead(Flat(), offset, n)
    }

    /** Inside the file reads return the file. */
    lemma InsideReadsTruly(offset: nat, n: nat)
      requires Valid() && offset + n <= fileSize
      ensures ReadsTruly(offset, n)
    {
      assert FlatRead(all, offset, n).0 == FlatRead(Flat(), offset, n).0;
    }

    /** All reads, also those past the end, do so exactly when no truncated blocks are left. */
    lemma ReadsExactly()
      requires Valid()
      ensures (forall offset: nat, n: nat :: n > 0 ==> ReadsTruly(offset, n)) <==> fileSize == 0 || Tidy()
    {
      if fileSize == |all| {
        assert Flat() == all;
      } else if fileSize > 0 {
        NextAligned(pageSize, fileSize, |all|);
        assert !ReadsTruly(fileSize, pageSize);
      }
    }

    /** Unmarked blocks before `n` are in the store as they are. */
    ghost predicate CleanUpTo(store: Pages, n: nat)
      reads this
    {
      forall k :: k in blocks && k < n && k !in txBlocks ==> k in store && store[k] == blocks[k]
    }

    method Write(buf: seq<byte>, offset: nat, ghost store: Pages)
      requires Valid() && |buf| == pageSize && Aligned(pageSize, offset)
      modifies `fileSize, `blockSize, `blocks, `txBlocks, `all
      ensures Valid() && Flat() == FlatWrite(old(Flat()), offset, buf)
      ensures old(Tidy()) ==> Tidy()
      ensures old(CleanUpTo(store, fileSize)) ==> CleanUpTo(store, fileSize)
      ensures old(|all|) <= |all|
    {
      assert all[..fileSize] == Flat() + Zeros(0);
      FillGap(offset, |buf|, Flat(), Tidy(), CleanUpTo(store, fileSize), |all|, store);
      WriteLast(buf, offset, if fileSize < offset then offset else fileSize,
                old(Flat()), old(Tidy()), old(CleanUpTo(store, fileSize)), old(|all|), store);
    }

    /** The page itself, after the gap. */
    method WriteLast(buf: seq<byte>, offset: nat, ghost n: nat, ghost flat: seq<byte>, ghost tidy: bool,
                     ghost clean: bool, ghost size: nat, ghost store: Pages)
      requires Valid() && |buf| == pageSize && Aligned(pageSize, offset)
      requires n == (if fileSize < offset then offset else fileSize) && Filling(n, flat, tidy, clean, size, store)
      modifies `fileSize, `blockSize, `blocks, `txBlocks, `all
      ensures Valid() && Flat() == FlatWrite(flat, offset, buf) && size <= |all|
      ensures (tidy ==> Tidy()) && (clean ==> CleanUpTo(store, fileSize))
    {
      NextAligned(pageSize, offset, fileSize);
      WriteAfterGap(all, flat, n, offset, buf);
      StoreBlock(offset, buf, store, n);
      if fileSize < offset + |buf| {
        fileSize := offset + |buf|;
      }
    }

    /** Before `n` there is the file and then zeros. */
    ghost predicate Gap(n: nat)
      reads this
      requires Valid()
    {
      fileSize <= n <= |all| && all[..n] == Flat() + Zeros(n - fileSize)
    }

    /** Filling a gap has come to `n`; `tidy`, `clean` and `size` are from before. */
    ghost predicate Filling(n: nat, flat: seq<byte>, tidy: bool, clean: bool, size: nat, store: Pages)
      reads this
      requires Valid()
    {
      && Aligned(pageSize, n) && Gap(n) && Flat() == flat && size <= |all|
      && (tidy ==> |all| == n) && (clean ==> CleanUpTo(store, n))
    }

    /** Zero pages from the end of the file up to `offset`. */
    method FillGap(offset: nat, step: nat, ghost flat: seq<byte>, ghost tidy: bool, ghost clean: bool, ghost size: nat,
                   ghost store: Pages)
      requires Valid() && step == pageSize && Aligned(pageSize, offset)
      requires Filling(fileSize, flat, tidy, clean, size, store)
      modifies `blockSize, `blocks, `txBlocks, `all
      ensures Valid() && Filling(if fileSize < offset then offset else fileSize, flat, tidy, clean, size, store)
    {
      var filled := fileSize;
      while filled < offset
        invariant Valid() && Filling(filled, flat, tidy, clean, size, store)
        invariant filled <= if fileSize < offset then offset else fileSize
      {
        NextAligned(pageSize, filled, offset);
        FillPage(filled, step, flat, tidy, clean, size, store);
        filled := filled + step;
      }
    }

    method FillPage(k: nat, step: nat, ghost flat: seq<byte>, ghost tidy: bool, ghost clean: bool, ghost size: nat,
                    ghost store: Pages)
      requires Valid() && step == pageSize && Filling(k, flat, tidy, clean, size, store)
      modifies `blockSize, `blocks, `txBlocks, `all
      ensures Valid() && Filling(k + step, flat, tidy, clean, size, store)
    {
      NextAligned(pageSize, k, |all|);
      GapGrows(all, flat, k, step);
      StoreBlock(k, Zeros(step), store, k);
      assert all[..fileSize] == all[..k + step][..fileSize] == flat;
    }

    /** Insert or overwrite one block and mark it. */
    method StoreBlock(k: nat, page: Page, ghost store: Pages, ghost n: nat)
      requires Valid() && |page| == pageSize && Aligned(pageSize, k) && Aligned(pageSize, n) && k <= n <= |all|
      modifies `blocks, `txBlocks, `all, `blockSize
      ensures Valid() && all == PutPage(old(all), k, page)
      ensures old(CleanUpTo(store, n)) ==> CleanUpTo(store, n) && (k == n ==> CleanUpTo(store, n + pageSize))
    {
      CutPut(pageSize, all, k, page);
      PutAligned(pageSize, all, k, page);
      all := PutPage(all, k, page);
      blocks := blocks[k := page];
      txBlocks := txBlocks + {k};
      blockSize := |page|;
      forall j | j in blocks && j < n + pageSize ensures j <= n {
        if n < j { NextAligned(pageSize, n, j); }
      }
    }

    method Truncate(size: nat)
      requires Valid() && Aligned(pageSize, size) && size <= fileSize
      modifies `fileSize
      ensures Valid() && Flat() == old(Flat())[..size]
    {
      fileSize := size;
    }

    method Size() returns (size: nat)
      requires Valid()
      ensures size == |Flat()|
    {
      size := fileSize;
    }

    /**
     `PRAGMA page_size`; None where the original goes on to the default handling. What a file without
     blocks is told is forgotten with the first write.
     */
    method PragmaPageSize(n: nat) returns (accepted: Option<bool>)
      requires Valid()
      modifies `blockSize
      ensures Valid() && Flat() == old(Flat())
      ensures old(blockSize) == 0 && n > 0 ==> accepted == None && blockSize == n
      ensures old(blockSize) != 0 || n == 0 ==> accepted == Some(n == old(blockSize)) && blockSize == old(blockSize)
      ensures all != [] ==> accepted == Some(n == pageSize) && blockSize == pageSize
    {
      if n == blockSize {
        accepted := Some(true);
      } else if blockSize == 0 {
        blockSize := n;
        accepted := None;
      } else {
        accepted := Some(false);
      }
    }

    /** The loop at the start of a sync: forget the blocks behind the end. */
    method DropTruncated() returns (truncatedOffset: nat)
      requires Valid()
      modifies `blocks, `all
      ensures Valid() && Tidy() && Flat() == old(Flat())
      ensures blocks == map k | k in old(blocks) && k < fileSize :: old(blocks)[k]
      ensures truncatedOffset == fileSize <==> old(Tidy())
    {
      truncatedOffset := fileSize;
      CutPrefix(pageSize, all, fileSize);
      while truncatedOffset in blocks
        invariant all == old(all) && fileSize <= truncatedOffset <= |all| && Aligned(pageSize, truncatedOffset)
        invariant blocks == Without(old(blocks), fileSize, truncatedOffset)
        invariant truncatedOffset == fileSize || !old(Tidy())
        decreases |all| - truncatedOffset
      {
        NextAligned(pageSize, truncatedOffset, |all|);
        WithoutNext(pageSize, all, fileSize, truncatedOffset);
        blocks := blocks - {truncatedOffset};
        truncatedOffset := truncatedOffset + blockSize;
      }
      assert truncatedOffset in Cut(pageSize, all) <==> truncatedOffset < |all|;
      all := all[..fileSize];
    }

    /** Take the marked offsets, forgetting the blocks behind the end. */
    method TakeChanges(ghost store: Pages) returns (changed: set<nat>, truncated: bool)
      requires Valid() && CleanUpTo(store, fileSize)
      modifies `blocks, `all, `txBlocks, `syncNotified
      ensures Valid() && Tidy() && Flat() == old(Flat()) && txBlocks == {} && !syncNotified
      ensures changed == old(txBlocks) && (truncated <==> !old(Tidy()))
      ensures forall k :: k in blocks && k !in changed ==> k in store && store[k] == blocks[k]
    {
      syncNotified := false;
      var truncatedOffset := DropTruncated();
      changed, txBlocks := txBlocks, {};
      truncated := truncatedOffset != fileSize;
    }

    /** `export_db`. */
    method Export() returns (bytes: seq<byte>)
      requires Valid()
      ensures bytes == Flat()
    {
      bytes := Zeros(fileSize);
      var rest: Pages := blocks;
      while rest != map[]
        invariant Copied(bytes, rest)
        decreases |rest|
      {
        var k :| k in rest;
        if k < fileSize {
          CopiedOne(bytes, rest, k);
          bytes := Patch(bytes, k, rest[k]);
        }
        assert (rest - {k}).Keys == rest.Keys - {k};
        rest := rest - {k};
      }
      FromPages(bytes);
    }

    /** The blocks that are not in `rest` are in place. */
    ghost predicate Copied(bytes: seq<byte>, rest: Pages)
      reads this
    {
      && |bytes| == fileSize && (forall k :: k in rest ==> k in blocks && rest[k] == blocks[k])
      && forall k :: k in blocks && k !in rest && k < fileSize ==>
          k + pageSize <= fileSize && bytes[k..k + pageSize] == blocks[k]
    }

    lemma CopiedOne(bytes: seq<byte>, rest: Pages, k: nat)
      requires Valid() && Copied(bytes, rest) && k in rest && k < fileSize
      ensures k + |rest[k]| <= |bytes| && Copied(Patch(bytes, k, rest[k]), rest - {k})
    {
      NextAligned(pageSize, k, fileSize);
      assert rest[k] == PageAt(pageSize, all, k);
      forall j | j in blocks && j !in rest - {k} && j < fileSize
        ensures j + pageSize <= fileSize && Patch(bytes, k, rest[k])[j..j + pageSize] == blocks[j]
      {
        CopiedAlready(bytes, rest, k, j);
      }
    }

    lemma CopiedAlready(bytes: seq<byte>, rest: Pages, k: nat, j: nat)
      requires Valid() && Copied(bytes, rest) && k in rest && k < fileSize && |rest[k]| == pageSize
      requires k + pageSize <= |bytes| && j in blocks && j !in rest - {k} && j < fileSize
      ensures j + pageSize <= fileSize && Patch(bytes, k, rest[k])[j..j + pageSize] == blocks[j]
    {
      NextAligned(pageSize, j, fileSize);
      PatchPages(pageSize, bytes, k, rest[k], j);
    }

    lemma FromPages(bytes: seq<byte>)
      requires Valid() && |bytes| == fileSize
      requires forall k :: k in blocks && k < fileSize ==>
          k + pageSize <= fileSize && bytes[k..k + pageSize] == blocks[k]
      ensures bytes == Flat()
    {
      forall i | 0 <= i < fileSize ensures bytes[i] == all[i] {
        var k := ByteOfPage(pageSize, all, i);
        assert bytes[i] == bytes[k..k + pageSize][i - k];
      }
    }
  }
}
