/** The directory cursor (source/directory.cxx). */
module Directories {
  import opened Bytes
  import opened Errors
  import opened Layout
  import opened Disks
  import opened DirectoryListing

  class DirectoryHandle {
    const disk: Disk
    const errs: ThreadError
    var header: Option<nat>
    var block: Option<nat>
    var blockIndex: nat
    var entryIndex: nat
    ghost const image: bytes
    /** How many more blocks the cursor may enter. */
    ghost var steps: nat

    /** An open handle on an unchanged image. */
    ghost predicate Valid()
      reads this, disk, disk.base
    {
      disk.Valid() && disk.Image() == image && Positioned()
    }

    ghost predicate Positioned()
      reads this
    {
      header.Some? && header.value < NumBlocks(image) &&
      block.Some? && block.value < NumBlocks(image) &&
      (blockIndex <= EntriesPerBlock(image, header.value) || blockIndex == 1) &&
      entryIndex <= FileCount(image, header.value)
    }

    /** What the cursor would meet from here. */
    ghost function Ahead(): View
      requires Positioned()
      reads this
    {
      Scan(image, EntriesPerBlock(image, header.value), block.value, blockIndex, steps)
    }

    /** What is left of the listing. */
    ghost function Remaining(): View
      requires Positioned()
      reads this
    {
      Upto(Ahead(), FileCount(image, header.value) - entryIndex)
    }

    constructor Raw(disk: Disk, errs: ThreadError)
      requires disk.Valid()
      ensures this.disk == disk && this.errs == errs && image == disk.Image()
    {
      this.disk, this.errs, this.image := disk, errs, disk.Image();
      header, block, blockIndex, entryIndex, steps := None, None, 1, 0, 0;
    }

    /** _Open: puts the cursor on the first slot after the header. */
    method Open(key: nat) returns (r: Outcome<()>)
      requires disk.Valid() && disk.Image() == image
      requires key < NumBlocks(image)
      modifies this
      ensures IsDirectoryKey(image, key) ==>
        r == Ok(()) && Valid() && header == Some(key) && Remaining() == DirectoryView(image, key)
      ensures !IsDirectoryKey(image, key) ==> r == Threw(NotADirectoryKeyBlock) && unchanged(this)
    {
      var storageType := disk.base[512 * key + 4] / 16;
      if storageType != 0xF && storageType != 0xE {
        return Threw(NotADirectoryKeyBlock);
      }
      header, block, blockIndex, entryIndex := Some(key), Some(key), 1, 0;
      steps := Horizon(image, key);
      return Ok(());
    }

    method Close()
      modifies this
      ensures header == None && block == None && blockIndex == 0 && entryIndex == 0
    {
      header, block, blockIndex, entryIndex := None, None, 0, 0;
    }

    /** _Next: one slot on, or to the first slot of the next block. */
    method Next() returns (r: Outcome<()>)
      requires Valid() && EntryRef(block.value, blockIndex).Addr() < |image| && Ahead() != End(Some(Endless))
      modifies this`block, this`blockIndex, this`steps
      ensures Valid()
      ensures if old(blockIndex) < EntriesPerBlock(image, header.value) then
          r == Ok(()) && blockIndex == old(blockIndex) + 1 && block == old(block) && steps == old(steps)
        else if HasNext(image, old(block.value)) then
          r == Ok(()) && blockIndex == 0 && block == Some(NextBlock(image, old(block.value))) && steps + 1 == old(steps)
        else r == Threw(StopAt(image, block.value)) && unchanged(this)
    {
      if blockIndex < disk.base[512 * header.value + 36] {
        blockIndex := blockIndex + 1;
        return Ok(());
      }
      var low: int, high: int := disk.base[512 * block.value + 2], disk.base[512 * block.value + 3];
      var next := high * 0x100 + low;
      assert next == NextBlock(image, block.value);
      if next == 0 {
        return Threw(NoMoreDirectoryBlocks);
      }
      var read := disk.ReadBlock(next);
      if read.Threw? {
        return Threw(read.failure);
      }
      block, blockIndex := Some(next), 0;
      steps := steps - 1;
      return Ok(());
    }

    /** The entry under the cursor is in use. With 13 entries per block, the byte that this
        looks at is in the cursor's block, and at worst its unused last byte. */
    method AtActive() returns (r: Outcome<bool>)
      requires Valid()
      ensures var here := EntryRef(block.value, blockIndex);
        r == (if here.Addr() < |image| then Ok(!here.IsInactive(image)) else Threw(OutOfBounds)) &&
        (EntriesPerBlock(image, header.value) == 13 ==> here.Addr() - 512 * block.value <= 511 && r.Ok?)
    {
      var at := 512 * block.value + 4 + 39 * blockIndex;
      if at >= disk.base.Length {
        return Threw(OutOfBounds);
      }
      return Ok(disk.base[at] / 16 != 0);
    }

    /** The skip loop of NextEntry: on to the next entry in use. It ends unless the cursor
        goes round in a circle. */
    method SkipInactive() returns (r: Outcome<()>)
      requires Valid() && Ahead() != End(Some(Endless))
      modifies this`block, this`blockIndex, this`steps
      ensures Valid() && Ahead() == old(Ahead())
      ensures r.Ok? ==> var here := EntryRef(block.value, blockIndex);
        here.Addr() < |image| && !here.IsInactive(image)
      ensures r.Threw? ==> Ahead() == End(Some(r.failure))
    {
      var active := AtActive();
      while active.Ok? && !active.value
        invariant Valid() && Ahead() == old(Ahead())
        invariant var here := EntryRef(block.value, blockIndex);
          active == if here.Addr() < |image| then Ok(!here.IsInactive(image)) else Threw(OutOfBounds)
        decreases steps, 256 - blockIndex
      {
        var moved := Next();
        if moved.Threw? {
          return Threw(moved.failure);
        }
        active := AtActive();
      }
      return if active.Ok? then Ok(()) else Threw(active.failure);
    }

    /** Delivers the first remaining entry, or reports the end of the listing: the end of
        file for good, or the exception. The cursor keeps its place at an exception, so
        that further calls throw the same or report the end of file. */
    method NextEntry() returns (r: Outcome<Option<EntryRef>>)
      requires Valid() && Remaining() != End(Some(Endless))
      modifies this`block, this`blockIndex, this`entryIndex, this`steps, errs
      ensures Valid()
      ensures match old(Remaining())
        case End(None) => r == Ok(None) && errs.code == ErrEndOfFile && unchanged(this)
        case End(Some(failure)) => (
          r == Threw(failure) && unchanged(errs) && Remaining() in {End(Some(failure)), End(None)})
        case Entry(ref, rest) => r == Ok(Some(ref)) && unchanged(errs) && Remaining() == rest
    {
      var low: int, high: int := disk.base[512 * header.value + 37], disk.base[512 * header.value + 38];
      var fileCount := high * 0x100 + low;
      assert fileCount == FileCount(image, header.value);
      if entryIndex == fileCount {
        errs.code := ErrEndOfFile;
        return Ok(None);
      }
      ghost var ahead := Ahead();
      var found := SkipInactive();
      if found.Threw? {
        return Threw(found.failure);
      }
      var entry := EntryRef(block.value, blockIndex);
      entryIndex := entryIndex + 1;
      var moved := Next();
      if moved.Threw? {
        return Threw(moved.failure);
      }
      assert ahead == Entry(entry, Ahead());
      return Ok(Some(entry));
    }
  }

  /** The constructor: a handle at the start of a directory, or the exception it throws. */
  method OpenDirectoryHandle(disk: Disk, errs: ThreadError, key: nat) returns (r: Outcome<DirectoryHandle>)
    requires disk.Valid() && key < disk.numBlocks
    ensures !IsDirectoryKey(disk.Image(), key) ==> r == Threw(NotADirectoryKeyBlock)
    ensures IsDirectoryKey(disk.Image(), key) ==>
      r.Ok? && fresh(r.value) && r.value.Valid() && r.value.disk == disk && r.value.errs == errs &&
      r.value.header == Some(key) && r.value.image == disk.Image() &&
      r.value.Remaining() == DirectoryView(disk.Image(), key)
  {
    var h := new DirectoryHandle.Raw(disk, errs);
    var started := h.Open(key);
    if started.Threw? {
      return Threw(started.failure);
    }
    return Ok(h);
  }

  /** The entry in hand, if any, and those still to be listed. */
  ghost function InHand(entry: Option<EntryRef>, rest: View): View {
    match entry
    case None => End(None)
    case Some(ref) => Entry(ref, rest)
  }

  /** NextEntry, with what it found put before what is left. */
  method Fetch(handle: DirectoryHandle) returns (next: Outcome<Option<EntryRef>>)
    requires handle.Valid() && handle.Remaining() != End(Some(Endless))
    modifies handle`block, handle`blockIndex, handle`entryIndex, handle`steps, handle.errs
    ensures next.Ok? ==> handle.Valid() && InHand(next.value, handle.Remaining()) == old(handle.Remaining())
    ensures next.Threw? ==> old(handle.Remaining()) == End(Some(next.failure))
    ensures next.Ok? ==> handle.errs.code == if next.value.Some? then old(handle.errs.code) else ErrEndOfFile
  {
    next := handle.NextEntry();
  }
}
