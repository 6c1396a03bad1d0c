/** An abstract scratch file: the page bookkeeping of one memory-mapped scratch file,
    as far as the scratch buffer pool relies on it.  The file's own allocator is not
    part of this model; the functions below state what the pool expects of
    TryGettingFromAllocatedBuffer, Allocate and Free. */
module ScratchBufferFiles {
  import opened Wrappers
  import opened Sequences

  /** The write transaction asking for pages: its id and the id of the oldest
      transaction still active (a freed range tagged with a later or equal id may
      still be visible to a reader). */
  datatype Transaction = Transaction(Id: int, OldestActiveTransaction: int)

  /** The descriptor handed out by an allocation: which scratch file, the first page,
      the size class in pages and the number of pages asked for. */
  datatype PageFromScratchBuffer =
    PageFromScratchBuffer(ScratchFileNumber: int, PositionInScratchBuffer: nat, Size: nat, NumberOfPages: nat)

  /** A released page range on the free list, tagged with the transaction as of which it became free. */
  datatype FreeRange = FreeRange(Position: nat, Size: nat, ValidAfterTransactionId: int)

  /** The reference-counted snapshot of a scratch file's mapping. */
  datatype PagerState = PagerState(References: nat)

  function AllocationSize(p: PageFromScratchBuffer): nat { p.Size }

  function FreeRangeSize(r: FreeRange): nat { r.Size }

  datatype ScratchBufferFile = ScratchBufferFile(
    Number: int,
    PageSize: nat,
    NumberOfAllocatedPages: nat,           // capacity of the mapping, in pages
    LastUsedPage: nat,                     // append cursor
    AllocatedPagesUsedSize: nat,           // pages held by live allocations
    AllocatedPages: seq<PageFromScratchBuffer>,
    FreePages: seq<FreeRange>,
    PagerState: PagerState)
  {
    /** Size of the mapping in bytes. */
    function Size(): int { NumberOfAllocatedPages * PageSize }

    /** Bytes held by allocations that have not been freed yet. */
    function ActivelyUsedBytes(): int { AllocatedPagesUsedSize * PageSize }

    /** The pages of the live allocations and of the free ranges add up to the
        append cursor, and every allocation and range lies below it. */
    ghost predicate Valid() {
      && PageSize > 0
      && LastUsedPage <= NumberOfAllocatedPages
      && AllocatedPagesUsedSize == Total(AllocatedPages, AllocationSize)
      && AllocatedPagesUsedSize + Total(FreePages, FreeRangeSize) == LastUsedPage
      && (forall j :: 0 <= j < |AllocatedPages| ==>
            && AllocatedPages[j].ScratchFileNumber == Number
            && AllocatedPages[j].Size > 0
            && AllocatedPages[j].PositionInScratchBuffer + AllocatedPages[j].Size <= LastUsedPage)
      && (forall j :: 0 <= j < |FreePages| ==>
            FreePages[j].Size > 0 && FreePages[j].Position + FreePages[j].Size <= LastUsedPage)
    }
  }

  /** Bytes of pages add up like pages do. */
  lemma BytesOfPages(pages: int, more: int, pageSize: int)
    ensures (pages + more) * pageSize == pages * pageSize + more * pageSize
  {
  }

  /** The pages needed to hold `bytes`, rounded up. */
  function PagesFor(bytes: nat, pageSize: nat): (pages: nat)
    requires pageSize > 0
    ensures bytes <= pages * pageSize < bytes + pageSize
  {
    var q := (bytes + pageSize - 1) / pageSize;
    assert q * pageSize + (bytes + pageSize - 1) % pageSize == bytes + pageSize - 1;
    q
  }

  /** A freshly created scratch file of at least `bytes` bytes (CreateScratchPager
      followed by the ScratchBufferFile constructor). */
  function Create(number: int, bytes: nat, pageSize: nat): (f: ScratchBufferFile)
    requires pageSize > 0
    ensures f.Valid() && f.Number == number && f.PageSize == pageSize
    ensures bytes <= f.Size() < bytes + pageSize
    ensures f.LastUsedPage == 0 && f.AllocatedPages == [] && f.FreePages == []
    ensures f.ActivelyUsedBytes() == 0 && f.PagerState.References == 1
  {
    ScratchBufferFile(number, pageSize, PagesFor(bytes, pageSize), 0, 0, [], [], PagerState(1))
  }

  /** The result of allocating from a file: the file afterwards and the descriptor. */
  datatype Allocation = Allocation(File: ScratchBufferFile, Page: PageFromScratchBuffer)

  /** A free range may be handed out again for size class `size` once no active
      transaction is as old as its tag. */
  predicate Reusable(r: FreeRange, size: nat, tx: Transaction) {
    r.Size == size && r.ValidAfterTransactionId < tx.OldestActiveTransaction
  }

  /** The first reusable range of size class `size` on the free list. */
  function FirstReusable(f: ScratchBufferFile, size: nat, tx: Transaction): Option<nat> {
    FirstIndex(f.FreePages, (r: FreeRange) => Reusable(r, size, tx))
  }

  /** The free-list reuse path: moves the first reusable range of the size class
      from the free list to the live allocations, without growing the file. */
  function TryGettingFromAllocatedBuffer(f: ScratchBufferFile, tx: Transaction, numberOfPages: nat, size: nat)
    : (r: Option<Allocation>)
    requires f.Valid()
    ensures r.None? <==> forall j :: 0 <= j < |f.FreePages| ==> !Reusable(f.FreePages[j], size, tx)
    ensures r.Some? ==>
      && FirstReusable(f, size, tx).Some?
      && var k := FirstReusable(f, size, tx).value;
      && k < |f.FreePages| && Reusable(f.FreePages[k], size, tx)
      && r.value.Page == PageFromScratchBuffer(f.Number, f.FreePages[k].Position, size, numberOfPages)
      && r.value.File.FreePages == RemoveAt(f.FreePages, k)
      && r.value.File.AllocatedPages == f.AllocatedPages + [r.value.Page]
    ensures r.Some? ==>
      && r.value.File.Valid()
      && r.value.File.Number == f.Number && r.value.File.PageSize == f.PageSize
      && r.value.File.NumberOfAllocatedPages == f.NumberOfAllocatedPages
      && r.value.File.LastUsedPage == f.LastUsedPage
      && r.value.File.PagerState == f.PagerState
      && r.value.File.ActivelyUsedBytes() == f.ActivelyUsedBytes() + size * f.PageSize
  {
    match FirstReusable(f, size, tx)
    case None => None
    case Some(k) =>
      var page := PageFromScratchBuffer(f.Number, f.FreePages[k].Position, size, numberOfPages);
      ReuseKeepsValid(f, k, page);
      Some(Allocation(Reuse(f, k, page), page))
  }

  /** The file after free range `k` is handed out again as `page`. */
  function Reuse(f: ScratchBufferFile, k: nat, page: PageFromScratchBuffer): ScratchBufferFile
    requires k < |f.FreePages|
  {
    f.(AllocatedPagesUsedSize := f.AllocatedPagesUsedSize + page.Size,
       AllocatedPages := f.AllocatedPages + [page],
       FreePages := RemoveAt(f.FreePages, k))
  }

  /** Handing a free range out again, as an allocation of the same position and
      size, keeps the page accounting of the file. */
  lemma ReuseKeepsValid(f: ScratchBufferFile, k: nat, page: PageFromScratchBuffer)
    requires f.Valid() && k < |f.FreePages|
    requires page.ScratchFileNumber == f.Number
    requires page.PositionInScratchBuffer == f.FreePages[k].Position && page.Size == f.FreePages[k].Size
    ensures Reuse(f, k, page).Valid()
    ensures Reuse(f, k, page).ActivelyUsedBytes() == f.ActivelyUsedBytes() + page.Size * f.PageSize
  {
    var g := Reuse(f, k, page);
    TotalAppend(f.AllocatedPages, page, AllocationSize);
    TotalRemoveAt(f.FreePages, k, FreeRangeSize);
    assert forall j :: 0 <= j < |g.FreePages| ==> g.FreePages[j] in f.FreePages;
    ReuseBytes(f, k, page);
  }

  lemma ReuseBytes(f: ScratchBufferFile, k: nat, page: PageFromScratchBuffer)
    requires k < |f.FreePages|
    ensures Reuse(f, k, page).ActivelyUsedBytes() == f.ActivelyUsedBytes() + page.Size * f.PageSize
  {
    BytesOfPages(f.AllocatedPagesUsedSize, page.Size, f.PageSize);
  }

  /** The append path: places the allocation at the append cursor, growing the
      mapping first when the cursor would pass its capacity. */
  function Allocate(f: ScratchBufferFile, numberOfPages: nat, size: nat): (r: Allocation)
    requires f.Valid() && size > 0
    ensures r.File.Valid()
    ensures r.Page == PageFromScratchBuffer(f.Number, f.LastUsedPage, size, numberOfPages)
    ensures r.File.LastUsedPage == f.LastUsedPage + size
    ensures r.File.NumberOfAllocatedPages ==
      if f.LastUsedPage + size <= f.NumberOfAllocatedPages then f.NumberOfAllocatedPages else f.LastUsedPage + size
    ensures r.File.AllocatedPages == f.AllocatedPages + [r.Page] && r.File.FreePages == f.FreePages
    ensures r.File.Number == f.Number && r.File.PageSize == f.PageSize && r.File.PagerState == f.PagerState
    ensures r.File.ActivelyUsedBytes() == f.ActivelyUsedBytes() + size * f.PageSize
  {
    var page := PageFromScratchBuffer(f.Number, f.LastUsedPage, size, numberOfPages);
    TotalAppend(f.AllocatedPages, page, AllocationSize);
    var capacity := if f.LastUsedPage + size <= f.NumberOfAllocatedPages then f.NumberOfAllocatedPages
                    else f.LastUsedPage + size;
    var g := f.(NumberOfAllocatedPages := capacity,
                LastUsedPage := f.LastUsedPage + size,
                AllocatedPagesUsedSize := f.AllocatedPagesUsedSize + size,
                AllocatedPages := f.AllocatedPages + [page]);
    BytesOfPages(f.AllocatedPagesUsedSize, size, f.PageSize);
    Allocation(g, page)
  }

  /** The live allocation that starts at `page`, if any. */
  function FindAllocation(f: ScratchBufferFile, page: int): Option<nat> {
    FirstIndex(f.AllocatedPages, (p: PageFromScratchBuffer) => p.PositionInScratchBuffer == page)
  }

  /** Releases the live allocation starting at `page` onto the free list, tagged with
      `asOfTxId`; fails when no live allocation starts there. */
  function Free(f: ScratchBufferFile, page: int, asOfTxId: int): (r: Option<ScratchBufferFile>)
    requires f.Valid()
    ensures r.None? <==> forall j :: 0 <= j < |f.AllocatedPages| ==> f.AllocatedPages[j].PositionInScratchBuffer != page
    ensures r.Some? ==>
      && FindAllocation(f, page).Some?
      && var k := FindAllocation(f, page).value;
      && k < |f.AllocatedPages| && f.AllocatedPages[k].PositionInScratchBuffer == page
      && r.value.AllocatedPages == RemoveAt(f.AllocatedPages, k)
      && r.value.FreePages == f.FreePages + [FreeRange(f.AllocatedPages[k].PositionInScratchBuffer, f.AllocatedPages[k].Size, asOfTxId)]
      && r.value.ActivelyUsedBytes() == f.ActivelyUsedBytes() - f.AllocatedPages[k].Size * f.PageSize
    ensures r.Some? ==>
      && r.value.Valid()
      && r.value.Number == f.Number && r.value.PageSize == f.PageSize
      && r.value.NumberOfAllocatedPages == f.NumberOfAllocatedPages
      && r.value.LastUsedPage == f.LastUsedPage
      && r.value.PagerState == f.PagerState
  {
    match FindAllocation(f, page)
    case None => None
    case Some(k) =>
      ReleaseKeepsValid(f, k, asOfTxId);
      Some(Release(f, k, asOfTxId))
  }

  /** The file after live allocation `k` is moved to the free list. */
  function Release(f: ScratchBufferFile, k: nat, asOfTxId: int): ScratchBufferFile
    requires f.Valid() && k < |f.AllocatedPages|
  {
    var p := f.AllocatedPages[k];
    TotalRemoveAt(f.AllocatedPages, k, AllocationSize);
    f.(AllocatedPagesUsedSize := f.AllocatedPagesUsedSize - p.Size,
       AllocatedPages := RemoveAt(f.AllocatedPages, k),
       FreePages := f.FreePages + [FreeRange(p.PositionInScratchBuffer, p.Size, asOfTxId)])
  }

  /** Moving a live allocation to the free list keeps the page accounting of the file. */
  lemma ReleaseKeepsValid(f: ScratchBufferFile, k: nat, asOfTxId: int)
    requires f.Valid() && k < |f.AllocatedPages|
    ensures Release(f, k, asOfTxId).Valid()
    ensures Release(f, k, asOfTxId).ActivelyUsedBytes() == f.ActivelyUsedBytes() - f.AllocatedPages[k].Size * f.PageSize
  {
    var p := f.AllocatedPages[k];
    var g := Release(f, k, asOfTxId);
    TotalRemoveAt(f.AllocatedPages, k, AllocationSize);
    TotalAppend(f.FreePages, FreeRange(p.PositionInScratchBuffer, p.Size, asOfTxId), FreeRangeSize);
    BytesOfPages(g.AllocatedPagesUsedSize, p.Size, f.PageSize);
    assert forall j :: 0 <= j < |g.AllocatedPages| ==> g.AllocatedPages[j] in f.AllocatedPages;
  }

  /** A file's active bytes are zero exactly when it holds no live allocation: the
      trigger the pool uses to retire or trim a file. */
  lemma DrainedIffNothingAllocated(f: ScratchBufferFile)
    requires f.Valid()
    ensures f.ActivelyUsedBytes() == 0 <==> f.AllocatedPages == []
  {
    TotalZeroIffEmpty(f.AllocatedPages, AllocationSize);
  }

  /** Freeing what was just appended puts the file's live allocations and active
      bytes back where they were, and leaves the range on the free list. */
  lemma AllocateThenFree(f: ScratchBufferFile, numberOfPages: nat, size: nat, asOfTxId: int)
    requires f.Valid() && size > 0
    ensures var a := Allocate(f, numberOfPages, size);
            var g := Free(a.File, a.Page.PositionInScratchBuffer, asOfTxId);
            && g.Some?
            && g.value.AllocatedPages == f.AllocatedPages
            && g.value.ActivelyUsedBytes() == f.ActivelyUsedBytes()
            && g.value.FreePages == f.FreePages + [FreeRange(f.LastUsedPage, size, asOfTxId)]
  {
    var a := Allocate(f, numberOfPages, size);
    var n := |f.AllocatedPages|;
    assert a.File.AllocatedPages[n].PositionInScratchBuffer == f.LastUsedPage;
    assert forall j :: 0 <= j < n ==> a.File.AllocatedPages[j] == f.AllocatedPages[j];
    var k := FindAllocation(a.File, f.LastUsedPage);
    assert k == Some(n);
    assert RemoveAt(a.File.AllocatedPages, n) == f.AllocatedPages;
  }
}
