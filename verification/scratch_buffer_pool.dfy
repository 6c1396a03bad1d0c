/** The scratch buffer pool: hands out temporary page ranges to write transactions
    from a numbered set of scratch files, rotating to a new file when the current
    one is full and oversized, and retiring files whose pages have all been freed.
    The pool is used by one writer at a time, so it is modelled as a sequential
    object; the aliasing between the pool's map entry and its `_current` reference
    is kept by the invariant `scratchBuffers[current.Number] == current`. */
module Scratch {
  import opened Wrappers
  import opened Bits
  import opened ScratchBufferFiles

  /** The configuration values the pool reads, in bytes except PageSize. */
  datatype StorageEnvironmentOptions =
    StorageEnvironmentOptions(PageSize: nat, InitialLogFileSize: nat, MaxScratchBufferSize: nat)

  /** The exceptions the pool's operations can end with. */
  datatype ScratchError =
    | ArgumentNullException                             // Allocate with a null transaction
    | KeyNotFoundException(scratchNumber: int)          // Free of an unknown scratch file
    | PageNotAllocated(page: int)                       // the file has no live allocation at that page
    | ScratchBufferOutOfDiskSpace(scratchNumber: int, size: nat)  // even the fallback creation failed

  function Max(a: int, b: int): int { if a >= b then a else b }

  function Min(a: int, b: int): int { if a <= b then a else b }

  /** The size asked for a new scratch file on rotation: twice the current file,
      capped at the maximum, but never less than the allocation needs. */
  function RotationSize(currentSize: int, minSize: int, maxSize: int): (r: int)
    ensures r >= minSize
    ensures minSize <= maxSize ==> r <= maxSize
    ensures r == minSize || r == maxSize || r == 2 * currentSize
    ensures minSize <= 2 * currentSize <= maxSize ==> r == 2 * currentSize
  {
    Max(minSize, Min(currentSize * 2, maxSize))
  }

  /** Appending the files disposed now, in ascending order, to a log of files no
      longer in the pool keeps every entry of the log distinct. */
  lemma AppendDisposed(before: seq<int>, now: seq<int>, keys: set<int>)
    requires forall i, j :: 0 <= i < j < |before| ==> before[i] != before[j]
    requires forall i :: 0 <= i < |before| ==> before[i] !in keys
    requires forall i :: 0 <= i < |now| ==> now[i] in keys
    requires forall i, j :: 0 <= i < j < |now| ==> now[i] < now[j]
    ensures forall i, j :: 0 <= i < j < |before + now| ==> (before + now)[i] != (before + now)[j]
  {
  }

  /** Dropping a key forgets what was last stored under it. */
  lemma DropUpdated(m: map<int, ScratchBufferFile>, k: int, v: ScratchBufferFile)
    ensures m[k := v] - {k} == m - {k}
  {
    assert (m[k := v] - {k}).Keys == (m - {k}).Keys;
  }

  /** Storing twice under a key keeps the second value only. */
  lemma UpdateTwice(m: map<int, ScratchBufferFile>, k: int, v: ScratchBufferFile, w: ScratchBufferFile)
    ensures m[k := v][k := w] == m[k := w]
  {
    assert m[k := v][k := w].Keys == m[k := w].Keys;
  }

  /** What Free does with the file a range was returned to. */
  datatype FreeFate = Keep | Release | TrimCurrent

  /** The file with one more reference taken on its PagerState. */
  function AddRef(f: ScratchBufferFile): (g: ScratchBufferFile)
    ensures g.PagerState.References == f.PagerState.References + 1
    ensures g == f.(PagerState := g.PagerState)
  {
    f.(PagerState := PagerState(f.PagerState.References + 1))
  }

  class ScratchBufferPool {
    const options: StorageEnvironmentOptions
    var current: ScratchBufferFile                      // _current
    var currentScratchNumber: int                       // _currentScratchNumber
    var scratchBuffers: map<int, ScratchBufferFile>     // _scratchBuffers
    /** The numbers of the scratch files disposed so far, in the order they were disposed. */
    ghost var Disposed: seq<int>

    /** A file the pool may hold under number `n` while its counter is `bound`. */
    ghost predicate FileValid(f: ScratchBufferFile, n: int, bound: int)
    {
      f.Valid() && f.Number == n && f.PageSize == options.PageSize && 0 <= n <= bound
    }

    /** Every file in the map is well formed and keyed by its own number, no number
        above the counter is in use, and a disposed file never comes back. */
    ghost predicate FilesValid()
      reads this
    {
      && options.PageSize > 0
      && 0 <= currentScratchNumber
      && (forall n :: n in scratchBuffers ==> FileValid(scratchBuffers[n], n, currentScratchNumber))
      && (forall i :: 0 <= i < |Disposed| ==> Disposed[i] !in scratchBuffers && Disposed[i] <= currentScratchNumber)
      && (forall i, j :: 0 <= i < j < |Disposed| ==> Disposed[i] != Disposed[j])
    }

    /** In addition, while the pool holds files the current file is the newest of
        them and is the very entry the map holds. */
    ghost predicate Valid()
      reads this
    {
      && FilesValid()
      && FileValid(current, current.Number, currentScratchNumber)
      && (current.Number in scratchBuffers || scratchBuffers == map[])
      && (current.Number in scratchBuffers ==> scratchBuffers[current.Number] == current)
      && (forall n :: n in scratchBuffers ==> n <= current.Number)
    }

    /** Creates scratch file 0 of InitialLogFileSize bytes; the constructor of the
        source throws when that file cannot be created, which this model excludes. */
    constructor (options: StorageEnvironmentOptions, freeDiskBytes: int)
      requires options.PageSize > 0
      requires options.InitialLogFileSize <= freeDiskBytes
      ensures Valid() && this.options == options
      ensures currentScratchNumber == 0 && Disposed == []
      ensures current == Create(0, options.InitialLogFileSize, options.PageSize)
      ensures scratchBuffers == map[0 := current]
    {
      this.options := options;
      var first := Create(0, Max(options.InitialLogFileSize, options.InitialLogFileSize), options.PageSize);
      current := first;
      currentScratchNumber := 0;
      scratchBuffers := map[0 := first];
      Disposed := [];
    }

    /** The size NextFile ends up creating a file of, or None when both the sized
        and the fallback creation fail for lack of disk space. */
    ghost function NextFileSize(minSize: nat, requestedSize: Option<nat>, freeDiskBytes: int): Option<nat>
    {
      if requestedSize.Some? && requestedSize.value <= freeDiskBytes then requestedSize
      else if Max(options.InitialLogFileSize, minSize) <= freeDiskBytes
      then Some(Max(options.InitialLogFileSize, minSize) as nat)
      else None
    }

    /** Creates and registers the next scratch file.  A failed sized creation falls
        back, under the next number, to max(InitialLogFileSize, minSize). */
    method NextFile(minSize: nat, requestedSize: Option<nat>, freeDiskBytes: int) returns (r: Option<ScratchBufferFile>)
      requires FilesValid()
      modifies this
      ensures FilesValid()
      ensures current == old(current) && Disposed == old(Disposed)
      ensures currentScratchNumber ==
        old(currentScratchNumber) + (if requestedSize.Some? && requestedSize.value > freeDiskBytes then 2 else 1)
      ensures r.Some? <==> NextFileSize(minSize, requestedSize, freeDiskBytes).Some?
      ensures r.Some? ==>
        && r.value == Create(currentScratchNumber, NextFileSize(minSize, requestedSize, freeDiskBytes).value, options.PageSize)
        && scratchBuffers == old(scratchBuffers)[currentScratchNumber := r.value]
      ensures r.None? ==> scratchBuffers == old(scratchBuffers)
      ensures forall n :: n in old(scratchBuffers) ==> n < currentScratchNumber
      decreases if requestedSize.Some? then 1 else 0
    {
      currentScratchNumber := currentScratchNumber + 1;
      forall n | n in scratchBuffers
        ensures FileValid(scratchBuffers[n], n, currentScratchNumber)
      {
        assert FileValid(scratchBuffers[n], n, currentScratchNumber - 1);
      }
      var size: nat;
      if requestedSize.Some? {
        if requestedSize.value > freeDiskBytes {
          // creating the sized file failed: fall back to the minimum
          r := NextFile(minSize, None, freeDiskBytes);
          return;
        }
        size := requestedSize.value;
      } else {
        size := Max(options.InitialLogFileSize, minSize);
        if size > freeDiskBytes {
          // the exception of CreateScratchPager propagates
          return None;
        }
      }
      var file := Create(currentScratchNumber, size, options.PageSize);
      scratchBuffers := scratchBuffers[currentScratchNumber := file];
      r := Some(file);
    }

    /** Writes back a file of the pool after an operation on it: the map entry and,
        when it is the current file, `current` see the same new value. */
    method StoreFile(f: ScratchBufferFile)
      requires Valid() && FileValid(f, f.Number, currentScratchNumber)
      requires f.Number in scratchBuffers || f.Number == current.Number
      modifies this
      ensures Valid()
      ensures scratchBuffers == if f.Number in old(scratchBuffers) then old(scratchBuffers)[f.Number := f] else old(scratchBuffers)
      ensures current == if f.Number == old(current.Number) then f else old(current)
      ensures currentScratchNumber == old(currentScratchNumber) && Disposed == old(Disposed)
    {
      if f.Number in scratchBuffers {
        scratchBuffers := scratchBuffers[f.Number := f];
      }
      if f.Number == current.Number {
        current := f;
      }
    }

    /** Makes the newest file of the pool, just registered by NextFile, the current
        one, storing its latest value in the map as well. */
    method Publish(f: ScratchBufferFile)
      requires FilesValid() && f.Number == currentScratchNumber && f.Number in scratchBuffers
      requires FileValid(f, f.Number, currentScratchNumber)
      modifies this
      ensures Valid()
      ensures current == f && scratchBuffers == old(scratchBuffers)[f.Number := f]
      ensures currentScratchNumber == old(currentScratchNumber) && Disposed == old(Disposed)
    {
      scratchBuffers := scratchBuffers[f.Number := f];
      current := f;
    }

    /** Whether Allocate serves the request from the current file: by reuse from its
        free list, by appending within its capacity, or by growing it while it is
        still smaller than MaxScratchBufferSize. */
    ghost predicate ServedByCurrent(tx: Transaction, numberOfPages: nat)
      reads this
      requires Valid() && numberOfPages >= 1
    {
      var size := NextPowerOf2(numberOfPages);
      || TryGettingFromAllocatedBuffer(current, tx, numberOfPages, size).Some?
      || current.LastUsedPage + size <= current.NumberOfAllocatedPages
      || current.Size() < options.MaxScratchBufferSize
    }

    /** What the current file becomes, and what it hands out, when it serves the request. */
    ghost function InPlace(f: ScratchBufferFile, tx: Transaction, numberOfPages: nat): Allocation
      requires f.Valid() && numberOfPages >= 1
    {
      var size := NextPowerOf2(numberOfPages);
      match TryGettingFromAllocatedBuffer(f, tx, numberOfPages, size)
      case Some(a) => a
      case None => ScratchBufferFiles.Allocate(f, numberOfPages, size)
    }

    /** The size asked for on rotation for this request. */
    ghost function RequestedSize(numberOfPages: nat): nat
      reads this
    {
      var r := RotationSize(current.Size(), numberOfPages * options.PageSize, options.MaxScratchBufferSize);
      assert r >= 0;
      r
    }

    /** Allocate rotates only once the current file has reached MaxScratchBufferSize,
        so the doubling term of RotationSize never decides the size asked for: it is
        the request or MaxScratchBufferSize, whichever is larger. */
    lemma RotationNeverDoubles(tx: Transaction, numberOfPages: nat)
      requires Valid() && numberOfPages >= 1 && !ServedByCurrent(tx, numberOfPages)
      ensures RequestedSize(numberOfPages) == Max(numberOfPages * options.PageSize, options.MaxScratchBufferSize)
    {
      assert current.Size() >= options.MaxScratchBufferSize;
    }

    method Allocate(tx: Option<Transaction>, numberOfPages: nat, freeDiskBytes: int)
      returns (r: Result<PageFromScratchBuffer, ScratchError>)
      requires Valid()
      requires numberOfPages >= 1
      modifies this
      ensures Valid() && Disposed == old(Disposed)
      // a null transaction is rejected and nothing changes
      ensures tx.None? ==> r == Failure(ArgumentNullException) && unchanged(this)
      // every descriptor is of the size class, from the (possibly new) current file
      ensures r.Success? ==>
        && r.value.Size == NextPowerOf2(numberOfPages) && r.value.Size >= numberOfPages
        && r.value.NumberOfPages == numberOfPages
        && r.value.ScratchFileNumber == current.Number
        && (|| current.AllocatedPages == old(current.AllocatedPages) + [r.value]
            || (current.Number != old(current.Number) && current.AllocatedPages == [r.value]))
      // served by the current file: no file is created and `_current` stays
      ensures tx.Some? && old(ServedByCurrent(tx.value, numberOfPages)) ==>
        && r == Success(InPlace(old(current), tx.value, numberOfPages).Page)
        && current == InPlace(old(current), tx.value, numberOfPages).File
        && current.Number == old(current.Number)
        && currentScratchNumber == old(currentScratchNumber)
        && scratchBuffers ==
             if current.Number in old(scratchBuffers) then old(scratchBuffers)[current.Number := current]
             else old(scratchBuffers)
      // rotation: a new file, sized by RotationSize, becomes current; the old one stays in the map
      ensures tx.Some? && !old(ServedByCurrent(tx.value, numberOfPages)) ==>
        var requested := old(RequestedSize(numberOfPages));
        var created := NextFileSize(numberOfPages * options.PageSize, Some(requested), freeDiskBytes);
        && currentScratchNumber == old(currentScratchNumber) + (if requested <= freeDiskBytes then 1 else 2)
        && (created.None? ==>
              && r.Failure? && r.error.ScratchBufferOutOfDiskSpace?
              && current == old(current) && scratchBuffers == old(scratchBuffers))
        && (created.Some? ==>
              && r.Success?
              && current.Number == currentScratchNumber && current.Number !in old(scratchBuffers)
              && current.PagerState.References == 2
              && current == ScratchBufferFiles.Allocate(
                              AddRef(Create(current.Number, created.value, options.PageSize)),
                              numberOfPages, NextPowerOf2(numberOfPages)).File
              && scratchBuffers == old(scratchBuffers)[current.Number := current])
    {
      if tx.None? {
        return Failure(ArgumentNullException);
      }
      var page := AllocateFromCurrent(tx.value, numberOfPages);
      if page.Some? {
        return Success(page.value);
      }
      r := Rotate(numberOfPages, freeDiskBytes);
    }

    /** The first half of Allocate: reuse from the free list, append within the
        capacity, or grow the current file; None, with nothing changed, when the
        current file cannot serve the request. */
    method AllocateFromCurrent(tx: Transaction, numberOfPages: nat) returns (page: Option<PageFromScratchBuffer>)
      requires Valid() && numberOfPages >= 1
      modifies this
      ensures Valid() && Disposed == old(Disposed)
      ensures page.Some? <==> old(ServedByCurrent(tx, numberOfPages))
      ensures page.None? ==> unchanged(this)
      ensures page.Some? ==>
        && page.value == InPlace(old(current), tx, numberOfPages).Page
        && current == InPlace(old(current), tx, numberOfPages).File
        && current.Number == old(current.Number)
        && currentScratchNumber == old(currentScratchNumber)
        && scratchBuffers ==
             (if current.Number in old(scratchBuffers) then old(scratchBuffers)[current.Number := current]
              else old(scratchBuffers))
        && page.value.Size == NextPowerOf2(numberOfPages) && page.value.NumberOfPages == numberOfPages
        && page.value.ScratchFileNumber == current.Number
        && current.AllocatedPages == old(current.AllocatedPages) + [page.value]
    {
      var size := NextPowerOf2(numberOfPages);
      var reused := TryGettingFromAllocatedBuffer(current, tx, numberOfPages, size);
      if reused.Some? {
        StoreFile(reused.value.File);
        return Some(reused.value.Page);
      }
      // we can allocate from the end of the file directly
      if current.LastUsedPage + size <= current.NumberOfAllocatedPages {
        var a := ScratchBufferFiles.Allocate(current, numberOfPages, size);
        StoreFile(a.File);
        return Some(a.Page);
      }
      if current.Size() < options.MaxScratchBufferSize {
        var a := ScratchBufferFiles.Allocate(current, numberOfPages, size);
        StoreFile(a.File);
        return Some(a.Page);
      }
      return None;
    }

    /** The second half of Allocate: the current file is full, so a new one, sized
        by RotationSize, is created and becomes current. */
    method Rotate(numberOfPages: nat, freeDiskBytes: int) returns (r: Result<PageFromScratchBuffer, ScratchError>)
      requires Valid() && numberOfPages >= 1
      modifies this
      ensures Valid() && Disposed == old(Disposed)
      ensures
        var requested := old(RequestedSize(numberOfPages));
        var created := NextFileSize(numberOfPages * options.PageSize, Some(requested), freeDiskBytes);
        && currentScratchNumber == old(currentScratchNumber) + (if requested <= freeDiskBytes then 1 else 2)
        && (created.None? ==>
              && r.Failure? && r.error.ScratchBufferOutOfDiskSpace?
              && current == old(current) && scratchBuffers == old(scratchBuffers))
        && (created.Some? ==>
              && r.Success?
              && current.Number == currentScratchNumber && current.Number !in old(scratchBuffers)
              && current.PagerState.References == 2
              && current == ScratchBufferFiles.Allocate(
                              AddRef(Create(current.Number, created.value, options.PageSize)),
                              numberOfPages, NextPowerOf2(numberOfPages)).File
              && scratchBuffers == old(scratchBuffers)[current.Number := current])
      ensures r.Success? ==>
        && r.value.Size == NextPowerOf2(numberOfPages) && r.value.NumberOfPages == numberOfPages
        && r.value.ScratchFileNumber == current.Number && current.AllocatedPages == [r.value]
    {
      var size := NextPowerOf2(numberOfPages);
      var minSize := numberOfPages * options.PageSize;
      var requestedSize := RotationSize(current.Size(), minSize, options.MaxScratchBufferSize);
      var next := NextFile(minSize, Some(requestedSize), freeDiskBytes);
      if next.None? {
        return Failure(ScratchBufferOutOfDiskSpace(currentScratchNumber, Max(options.InitialLogFileSize, minSize)));
      }
      // the new file's PagerState gains a reference before it is published as current
      var file := AddRef(next.value);
      var a := ScratchBufferFiles.Allocate(file, numberOfPages, size);
      UpdateTwice(old(scratchBuffers), file.Number, next.value, a.File);
      Publish(a.File);
      return Success(a.Page);
    }
  
    /** The file a Free leaves behind before the pool decides its fate, or None
        when the number or the page is unknown. */
    ghost function Freed(scratchNumber: int, page: int, asOfTxId: int): Option<ScratchBufferFile>
      reads this
      requires Valid()
    {
      if scratchNumber in scratchBuffers then ScratchBufferFiles.Free(scratchBuffers[scratchNumber], page, asOfTxId)
      else None
    }

    /** What the pool does with a file after a range of it was freed: a file still
        in use, or the current file within MaxScratchBufferSize, is kept; another
        drained file is released; the drained, oversized current file is trimmed. */
    ghost function FateAfterFree(freed: ScratchBufferFile, isCurrent: bool): FreeFate
    {
      if freed.ActivelyUsedBytes() != 0 || (isCurrent && freed.Size() <= options.MaxScratchBufferSize) then Keep
      else if !isCurrent then Release
      else TrimCurrent
    }

    /** Returns a page range to its file.  A file left with no live allocation is
        disposed and dropped from the map, unless it is the current file: that one
        is kept, or, when it has grown beyond MaxScratchBufferSize, replaced by a
        new current file (the trim) and then dropped. */
    method Free(scratchNumber: int, page: int, asOfTxId: int, freeDiskBytes: int) returns (r: Outcome<ScratchError>)
      requires Valid()
      modifies this
      ensures Valid()
      // an unknown scratch number or page changes nothing
      ensures scratchNumber !in old(scratchBuffers) ==>
        r == Fail(KeyNotFoundException(scratchNumber)) && unchanged(this)
      ensures scratchNumber in old(scratchBuffers) && old(Freed(scratchNumber, page, asOfTxId)).None? ==>
        r == Fail(PageNotAllocated(page)) && unchanged(this)
      // the file stays, with the range on its free list
      ensures old(Freed(scratchNumber, page, asOfTxId)).Some? ==>
        var freed := old(Freed(scratchNumber, page, asOfTxId)).value;
        FateAfterFree(freed, scratchNumber == old(current.Number)) == Keep ==>
          && r == Pass
          && scratchBuffers == old(scratchBuffers)[scratchNumber := freed]
          && current == (if scratchNumber == old(current.Number) then freed else old(current))
          && currentScratchNumber == old(currentScratchNumber) && Disposed == old(Disposed)
      // a drained older file is disposed
      ensures old(Freed(scratchNumber, page, asOfTxId)).Some? ==>
        var freed := old(Freed(scratchNumber, page, asOfTxId)).value;
        FateAfterFree(freed, scratchNumber == old(current.Number)) == Release ==>
          && r == Pass
          && scratchBuffers == old(scratchBuffers) - {scratchNumber}
          && current == old(current)
          && currentScratchNumber == old(currentScratchNumber) && Disposed == old(Disposed) + [scratchNumber]
      // the drained, oversized current file is trimmed
      ensures old(Freed(scratchNumber, page, asOfTxId)).Some? ==>
        var freed := old(Freed(scratchNumber, page, asOfTxId)).value;
        var created := NextFileSize(options.InitialLogFileSize, Some(options.MaxScratchBufferSize), freeDiskBytes);
        FateAfterFree(freed, scratchNumber == old(current.Number)) == TrimCurrent ==>
          && currentScratchNumber == old(currentScratchNumber) + (if options.MaxScratchBufferSize <= freeDiskBytes then 1 else 2)
          && (created.Some? ==>
                && r == Pass
                && current == AddRef(Create(currentScratchNumber, created.value, options.PageSize))
                && scratchBuffers == (old(scratchBuffers) - {scratchNumber})[current.Number := current]
                && Disposed == old(Disposed) + [scratchNumber])
          && (created.None? ==>
                && r.Fail? && r.error.ScratchBufferOutOfDiskSpace?
                && current == freed
                && scratchBuffers == old(scratchBuffers)[scratchNumber := freed]
                && Disposed == old(Disposed))
    {
      if scratchNumber !in scratchBuffers {
        return Fail(KeyNotFoundException(scratchNumber));
      }
      var scratch := scratchBuffers[scratchNumber];
      var freed := ScratchBufferFiles.Free(scratch, page, asOfTxId);
      if freed.None? {
        return Fail(PageNotAllocated(page));
      }
      StoreFile(freed.value);
      r := Pass;
      if freed.value.ActivelyUsedBytes() != 0 {
        return;
      }
      if scratchNumber == current.Number {
        if freed.value.Size() <= options.MaxScratchBufferSize {
          return;
        }
        // no one uses the oversized current file any more: trim it
        DropUpdated(old(scratchBuffers), scratchNumber, freed.value);
        r := Trim(freeDiskBytes);
        return;
      }
      Retire(scratchNumber);
    }

    /** Drops a file other than the current one from the map and disposes it. */
    method Retire(scratchNumber: int)
      requires Valid() && scratchNumber in scratchBuffers && scratchNumber != current.Number
      modifies this
      ensures Valid()
      ensures scratchBuffers == old(scratchBuffers) - {scratchNumber} && Disposed == old(Disposed) + [scratchNumber]
      ensures current == old(current) && currentScratchNumber == old(currentScratchNumber)
    {
      scratchBuffers := scratchBuffers - {scratchNumber};
      Disposed := Disposed + [scratchNumber];   // scratch.File.Dispose()
    }

    /** Replaces the current file by a new one of MaxScratchBufferSize bytes (or the
        InitialLogFileSize fallback), then retires the old current file. */
    method Trim(freeDiskBytes: int) returns (r: Outcome<ScratchError>)
      requires Valid() && current.Number in scratchBuffers
      modifies this
      ensures Valid()
      ensures currentScratchNumber == old(currentScratchNumber) + (if options.MaxScratchBufferSize <= freeDiskBytes then 1 else 2)
      ensures NextFileSize(options.InitialLogFileSize, Some(options.MaxScratchBufferSize), freeDiskBytes).Some? ==>
        && r == Pass
        && current == AddRef(Create(currentScratchNumber,
             NextFileSize(options.InitialLogFileSize, Some(options.MaxScratchBufferSize), freeDiskBytes).value, options.PageSize))
        && scratchBuffers == (old(scratchBuffers) - {old(current.Number)})[current.Number := current]
        && Disposed == old(Disposed) + [old(current.Number)]
      ensures NextFileSize(options.InitialLogFileSize, Some(options.MaxScratchBufferSize), freeDiskBytes).None? ==>
        && r.Fail? && r.error.ScratchBufferOutOfDiskSpace?
        && current == old(current) && scratchBuffers == old(scratchBuffers) && Disposed == old(Disposed)
    {
      var scratchNumber := current.Number;
      var next := NextFile(options.InitialLogFileSize, Some(options.MaxScratchBufferSize), freeDiskBytes);
      if next.None? {
        return Fail(ScratchBufferOutOfDiskSpace(currentScratchNumber, options.InitialLogFileSize));
      }
      var newCurrent := AddRef(next.value);
      Publish(newCurrent);
      Retire(scratchNumber);
      r := Pass;
    }

    /** Disposes every file of the pool and empties it; the current file is left
        referenced but disposed. */
    method Dispose()
      requires Valid()
      modifies this
      ensures Valid()
      ensures scratchBuffers == map[]
      ensures current == old(current) && currentScratchNumber == old(currentScratchNumber)
      ensures |old(Disposed)| <= |Disposed| && Disposed[..|old(Disposed)|] == old(Disposed)
      ensures forall n :: n in Disposed[|old(Disposed)|..] <==> n in old(scratchBuffers)
    {
      var disposedNow := DisposeFiles(scratchBuffers, currentScratchNumber);
      Clear(disposedNow);
    }

    /** Disposes the files of `files` one by one, enumerating the dictionary in
        ascending order of scratch number; the result lists the numbers disposed,
        each file exactly once. */
    static method DisposeFiles(files: map<int, ScratchBufferFile>, last: int) returns (disposed: seq<int>)
      requires forall n :: n in files ==> 0 <= n <= last
      ensures forall i :: 0 <= i < |disposed| ==> disposed[i] in files
      ensures forall i, j :: 0 <= i < j < |disposed| ==> disposed[i] < disposed[j]
      ensures forall n :: n in files ==> n in disposed
    {
      var number := 0;
      disposed := [];
      while number <= last
        invariant 0 <= number <= if last < 0 then 0 else last + 1
        invariant forall i :: 0 <= i < |disposed| ==> disposed[i] in files && 0 <= disposed[i] < number
        invariant forall i, j :: 0 <= i < j < |disposed| ==> disposed[i] < disposed[j]
        invariant forall n :: n in files && 0 <= n < number ==> n in disposed
      {
        if number in files {
          disposed := disposed + [number];   // scratch.Value.File.Dispose()
        }
        number := number + 1;
      }
    }

    /** Empties the map once every file in it, listed in `now`, has been disposed. */
    method Clear(ghost now: seq<int>)
      requires Valid()
      requires forall i :: 0 <= i < |now| ==> now[i] in scratchBuffers
      requires forall i, j :: 0 <= i < j < |now| ==> now[i] < now[j]
      requires forall n :: n in scratchBuffers ==> n in now
      modifies this
      ensures Valid()
      ensures scratchBuffers == map[] && Disposed == old(Disposed) + now
      ensures current == old(current) && currentScratchNumber == old(currentScratchNumber)
    {
      AppendDisposed(Disposed, now, scratchBuffers.Keys);
      Disposed := Disposed + now;
      scratchBuffers := map[];
    }

    /** Free pages of the current file: its capacity less the pages held by live allocations. */
    function GetAvailablePagesCount(): (r: int)
      reads this
      requires Valid()
      ensures 0 <= r <= current.NumberOfAllocatedPages
      ensures r >= current.NumberOfAllocatedPages - current.LastUsedPage
    {
      current.NumberOfAllocatedPages - current.AllocatedPagesUsedSize
    }

    /** A snapshot of the PagerState of every live scratch file, by number. */
    function GetPagerStatesOfAllScratches(): (r: map<int, PagerState>)
      reads this
      requires Valid()
      ensures r.Keys == scratchBuffers.Keys
      ensures forall n :: n in r ==> r[n] == scratchBuffers[n].PagerState
      ensures forall n :: n in r ==> 0 <= n <= current.Number
      ensures r == map[] || r[current.Number] == current.PagerState
    {
      map n | n in scratchBuffers :: scratchBuffers[n].PagerState
    }
  }
}
