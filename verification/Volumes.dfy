/** A mounted volume (source/volume.cxx). */
module Volumes {
  import opened Bytes
  import opened Errors
  import opened Layout
  import opened Obfuscation
  import opened Disks
  import opened Discovery
  import opened Mounting
  import opened DirectoryListing
  import opened Directories
  import opened Files
  import opened FileContents
  import opened Paths
  import opened Lookup
  import opened Bitmap
  import opened Renaming

  class Volume {
    const disk: Disk
    const errs: ThreadError

    /** Mounted: the root is block 2, and the image passes all checks. */
    ghost predicate Valid()
      reads this, disk, disk.base
    {
      disk.Valid() && IsVolume(disk.Image())
    }

    constructor Raw(disk: Disk, errs: ThreadError)
      ensures this.disk == disk && this.errs == errs
    {
      this.disk, this.errs := disk, errs;
    }

    method Name() returns (name: bytes)
      requires Valid()
      ensures name == VolumeName(disk.Image())
    {
      name := Part(disk.base[..], 1029, disk.base[1028] % 16);
    }

    /** Looks a path up. "/" is the root, and any other path resolves from the root. The
        only thing asked for is what it takes to end: that no directory on the way goes
        round in a circle for ever before its match. */
    method GetEntry(pathname: bytes) returns (r: Outcome<Option<EntryRef>>)
      requires Valid() && Lookup(pathname) != Raised(Endless)
      modifies errs
      ensures pathname == [SLASH] ==> r == Ok(Some(Header(2))) && unchanged(errs)
      ensures pathname != [SLASH] ==>
        EndsAs(Resolve(disk.Image(), 2, Split(pathname), 0), r, old(errs.code), errs.code)
    {
      if pathname == [SLASH] {
        return Ok(Some(Header(2)));
      }
      var path := SplitPath(pathname);
      var opening := OpenDirectoryHandle(disk, errs, 2);
      r := WalkTree(opening.value, path);
    }

    /** What GetEntry finds, in terms of the image alone. */
    ghost function Lookup(pathname: bytes): Result
      requires Valid()
      reads this, disk, disk.base
    {
      if pathname == [SLASH] then Found(Header(2)) else Resolve(disk.Image(), 2, Split(pathname), 0)
    }

    /** Opens a regular file. Anything else that has an entry is refused. */
    method OpenFile(pathname: bytes) returns (r: Outcome<Option<FileHandle>>)
      requires Valid() && Lookup(pathname) != Raised(Endless)
      modifies errs
      ensures match Lookup(pathname)
        case Raised(failure) => r == Threw(failure)
        case NotFound(error) => r == Ok(None) && errs.code == error
        case Found(ref) =>
          ref.Within(disk.Image()) &&
          if !ref.IsFile(disk.Image()) then r == Ok(None) && errs.code == ErrUnsupportedStorageType
          else match Locate(disk.Image(), ref, 0)
            case Threw(failure) => r == Threw(failure)
            case Ok(_) => (
              r.Ok? && r.value.Some? && fresh(r.value.value) && r.value.value.Valid() && r.value.value.position == 0 &&
              r.value.value.entry == Some(ref) && r.value.value.disk == disk && r.value.value.errs == errs)
    {
      FoundIsWithin(disk.Image(), 2, Split(pathname), 0);
      var entry := GetEntry(pathname);
      if entry.Threw? {
        return Threw(entry.failure);
      } else if entry.value.None? {
        return Ok(None);
      }
      var ref := entry.value.value;
      if !ref.IsFile(disk.base[..]) {
        errs.code := ErrUnsupportedStorageType;
        return Ok(None);
      }
      var handle := OpenFileHandle(disk, errs, ref);
      return if handle.Ok? then Ok(Some(handle.value)) else Threw(handle.failure);
    }

    /** Opens a directory; "/" is the root. */
    method OpenDirectory(pathname: bytes) returns (r: Outcome<Option<DirectoryHandle>>)
      requires Valid() && Lookup(pathname) != Raised(Endless)
      modifies errs
      ensures pathname == [SLASH] ==> IsOpenAt(r, 2)
      ensures pathname != [SLASH] ==>
        match Lookup(pathname)
        case Raised(failure) => r == Threw(failure)
        case NotFound(error) => r == Ok(None) && errs.code == error
        case Found(ref) =>
          ref.Within(disk.Image()) &&
          if !ref.IsDirectory(disk.Image()) then r == Ok(None) && errs.code == ErrDirectoryNotFound
          else if ref.KeyPointer(disk.Image()) >= disk.numBlocks then r == Threw(InvalidBlockNumber)
          else if !IsDirectoryKey(disk.Image(), ref.KeyPointer(disk.Image())) then r == Threw(NotADirectoryKeyBlock)
          else IsOpenAt(r, ref.KeyPointer(disk.Image()))
      ensures r.Ok? && r.value.Some? ==> fresh(r.value.value)
    {
      if pathname == [SLASH] {
        var root := OpenDirectoryHandle(disk, errs, 2);
        return Ok(Some(root.value));
      }
      FoundIsWithin(disk.Image(), 2, Split(pathname), 0);
      var entry := GetEntry(pathname);
      if entry.Threw? {
        return Threw(entry.failure);
      } else if entry.value.None? {
        return Ok(None);
      }
      var ref := entry.value.value;
      if !ref.IsDirectory(disk.base[..]) {
        errs.code := ErrDirectoryNotFound;
        return Ok(None);
      }
      var keyBlock := disk.ReadBlock(ref.KeyPointer(disk.base[..]));
      if keyBlock.Threw? {
        return Threw(keyBlock.failure);
      }
      var handle := OpenDirectoryHandle(disk, errs, keyBlock.value);
      return if handle.Ok? then Ok(Some(handle.value)) else Threw(handle.failure);
    }

    /** A handle at the start of the directory with key block `key`. */
    ghost predicate IsOpenAt(r: Outcome<Option<DirectoryHandle>>, key: nat)
      reads this, disk, disk.base, if r.Ok? && r.value.Some? then {r.value.value} else {}
    {
      r.Ok? && r.value.Some? && r.value.value.disk == disk && r.value.value.errs == errs && r.value.value.Valid() &&
      r.value.value.header == Some(key) && key < NumBlocks(r.value.value.image) &&
      r.value.value.Remaining() == DirectoryView(r.value.value.image, key)
    }

    /** Takes 1 - popcount for every byte it visits, one byte per block of the volume; so it
        counts the blocks in use exactly when all bits behind theirs are clear. It throws
        exactly when so many bytes do not follow the bitmap's start. */
    method CountBlocksUsed() returns (r: Outcome<int>)
      requires Valid()
      ensures IsCount(disk.Image(), BitMapPointer(disk.Image(), 2), r)
    {
      VolumeSize(disk.Image());
      var low: int, high: int := disk.base[1063], disk.base[1064];
      var start := high * 0x100 + low;
      assert start == BitMapPointer(disk.Image(), 2);
      r := CountUsed(disk, start, BitmapBytes(disk.Image(), start));
      CountFollows(disk.Image(), start, r);
    }

    /** Follows the root's chain, block by block. */
    method CountRootDirectoryBlocks() returns (r: Outcome<nat>)
      requires Valid() && HasChain(disk.Image(), 2)
      ensures var chain := ChainFrom(disk.Image(), 2);
        r == if ChainEndsWell(disk.Image(), chain) then Ok(|chain|) else Threw(InvalidBlockNumber)
    {
      ghost var img, chain := disk.Image(), ChainFrom(disk.Image(), 2);
      ghost var rest := chain;
      var numBlocks := 1;
      var low: int, high: int := disk.base[1026], disk.base[1027];
      var pointer := high * 0x100 + low;
      while pointer != 0
        invariant IsChain(img, rest) && numBlocks + |rest| == |chain| + 1
        invariant pointer == NextBlock(img, rest[0])
        invariant ChainEndsWell(img, rest) == ChainEndsWell(img, chain)
        decreases |rest|
      {
        numBlocks := numBlocks + 1;
        var read := disk.ReadBlock(pointer);
        if read.Threw? {
          assert |rest| > 1 ==> IsChain(img, rest[1..]) && rest[1..][0] == rest[1];
          return Threw(read.failure);
        }
        low, high := disk.base[512 * pointer + 2], disk.base[512 * pointer + 3];
        rest := rest[1..];
        pointer := high * 0x100 + low;
      }
      return Ok(numBlocks);
    }

    /** Renames the volume in the header, in place. `beyond` is what lies in memory behind
        the end of the new name. */
    method Rename(name: bytes, beyond: bytes) returns (renamed: bool)
      requires Valid() && |beyond| == 15
      modifies disk`dirty, disk.base
      ensures Valid() && (renamed <==> LegalName(name))
      ensures renamed ==> disk.dirty && disk.Image() == Renamed(old(disk.Image()), name, beyond)
      ensures !renamed ==> disk.dirty == old(disk.dirty) && disk.Image() == old(disk.Image())
    {
      var valid := IsValidName(name);
      if !valid {
        return false;
      }
      ghost var img, after := disk.Image(), Renamed(disk.Image(), name, beyond);
      var stored := StoredName(name, beyond);
      forall i | 0 <= i < 15 {
        disk.base[1029 + i] := stored[i];
      }
      disk.base[1028] := disk.base[1028] / 16 * 16 + |name|;
      assert disk.base[..] == after;
      RenamedMounts(img, after, None);
      WriteBack(after);
      var _ := disk.WriteBlock(2, Part(disk.base[..], 1024, 512));
      return true;
    }

    method Save() returns (file: bytes)
      requires Valid()
      ensures file == disk.Image()
    {
      file := disk.Save();
    }
  }

  /** Mounts an image file; `password` is what could be read of the password file. */
  method OpenVolume(file: bytes, password: Option<bytes>, errs: ThreadError) returns (r: Outcome<Volume>)
    requires password.Some? ==> |password.value| < 32
    ensures match Mount(file, KeyBuffer(password))
      case Threw(failure) => r == Threw(failure)
      case Ok(m) => (
        r.Ok? && fresh(r.value) && fresh(r.value.disk) && r.value.Valid() && r.value.errs == errs &&
        r.value.disk.Image() == m.img && r.value.disk.converted == m.converted && r.value.disk.dirty == m.dirty)
  {
    if |file| % 512 != 0 {
      return Threw(SizeNotMultipleOfBlock);
    }
    var disk := new Disk(file);
    var root := GetVolumeDirectoryBlock(disk, password);
    if root.Threw? {
      return Threw(root.failure);
    } else if root.value.None? {
      return Threw(NoVolumeDirectory);
    }
    DiscoveryIsSound(file, KeyBuffer(password));
    var problem := HeaderProblem(disk.base[..]);
    if problem.Some? {
      return Threw(problem.value);
    }
    var volume := new Volume.Raw(disk, errs);
    return Ok(volume);
  }

  /** S_Normalize of diskutil: what it writes to the output file, or None when it refuses
      because the volume does not count as modified. */
  method Normalize(file: bytes, password: Option<bytes>, errs: ThreadError) returns (r: Outcome<Option<bytes>>)
    requires password.Some? ==> |password.value| < 32
    ensures match Mount(file, KeyBuffer(password))
      case Threw(failure) => r == Threw(failure)
      case Ok(m) => r == Ok(if m.dirty then Some(m.img) else None)
  {
    var volume := OpenVolume(file, password, errs);
    if volume.Threw? {
      return Threw(volume.failure);
    }
    if !volume.value.disk.dirty {
      return Ok(None);
    }
    var written := volume.value.Save();
    return Ok(Some(written));
  }

  // ----- one step of a lookup -----

  /** What a lookup asks of an entry. */
  method Inspect(handle: DirectoryHandle, e: EntryRef, name: bytes)
    returns (within: bool, matches: bool, directory: bool, key: nat)
    requires handle.Valid()
    ensures within <==> e.Within(handle.image)
    ensures within ==> (matches <==> e.NameMatches(handle.image, name))
    ensures within ==> (directory <==> e.IsDirectory(handle.image)) && key == e.KeyPointer(handle.image)
  {
    var img := handle.disk.base[..];
    within, matches, directory, key := e.Within(img), false, false, 0;
    if within {
      matches, directory, key := e.NameMatches(img, name), e.IsDirectory(img), e.KeyPointer(img);
    }
  }

  /** Re-opens the handle on a subdirectory. */
  method Descend(handle: DirectoryHandle, path: seq<bytes>, i: nat, key: nat) returns (r: Outcome<()>)
    requires handle.Valid() && i < |path|
    modifies handle
    ensures r.Threw? ==> Resolve(handle.image, key, path, i) == Raised(r.failure)
    ensures r.Ok? ==> handle.Valid()
    ensures r.Ok? ==> Resolve(handle.image, key, path, i) == Search(handle.image, handle.Remaining(), path, i)
  {
    var keyBlock := handle.disk.ReadBlock(key);
    if keyBlock.Threw? {
      return Threw(keyBlock.failure);
    }
    if !IsDirectoryKey(handle.disk.base[..], key) {
      return Threw(NotADirectoryKeyBlock);
    }
    r := handle.Open(key);
  }

  /** What to do after an entry was examined: stop, or fetch another entry to be compared
      with component `i`. */
  datatype Step = Stop(r: Outcome<Option<EntryRef>>) | Go(i: nat)

  /** The lookup ends as expected: an entry, no entry and an error code, or an exception. */
  ghost predicate EndsAs(expected: Result, r: Outcome<Option<EntryRef>>, before: ProdosError, after: ProdosError) {
    match expected
    case Found(ref) => r == Ok(Some(ref)) && after == before
    case NotFound(error) => r == Ok(None) && after == error
    case Raised(failure) => r == Threw(failure)
  }

  /** The entries of `view` are still to be compared with component i, and the lookup will
      end, as expected. */
  ghost predicate Comparing(img: bytes, view: View, path: seq<bytes>, i: nat, expected: Result) {
    i < |path| && expected == Search(img, view, path, i) && expected != Raised(Endless)
  }

  /** The body of GetEntry's loop, the call of NextEntry aside. */
  method Compare(handle: DirectoryHandle, e: EntryRef, path: seq<bytes>, i: nat, ghost expected: Result)
    returns (step: Step)
    requires handle.Valid() && Comparing(handle.image, Entry(e, handle.Remaining()), path, i, expected)
    modifies handle, handle.errs
    ensures step.Stop? ==> EndsAs(expected, step.r, old(handle.errs.code), handle.errs.code)
    ensures step.Go? ==> handle.Valid() && unchanged(handle.errs) && i <= step.i
    ensures step.Go? ==> Comparing(handle.image, handle.Remaining(), path, step.i, expected)
    ensures step.Go? && step.i == i ==> handle.Remaining() == old(handle.Remaining())
  {
    var within, matches, directory, key := Inspect(handle, e, path[i]);
    if !within {
      return Stop(Threw(OutOfBounds));
    }
    if !matches {
      assert expected == Search(handle.image, handle.Remaining(), path, i);
      return Go(i);
    }
    assert expected == Enter(handle.image, e, path, i);
    step := Accept(handle, e, path, i, directory, key, expected);
  }

  /** The case of a match. */
  method Accept(handle: DirectoryHandle, e: EntryRef, path: seq<bytes>, i: nat, directory: bool, key: nat,
                ghost expected: Result)
    returns (step: Step)
    requires handle.Valid() && i < |path| && e.Within(handle.image)
    requires directory == e.IsDirectory(handle.image) && key == e.KeyPointer(handle.image)
    requires expected == Enter(handle.image, e, path, i) && expected != Raised(Endless)
    modifies handle, handle.errs
    ensures step.Stop? ==> EndsAs(expected, step.r, old(handle.errs.code), handle.errs.code)
    ensures step.Go? ==> handle.Valid() && unchanged(handle.errs) && step.i == i + 1
    ensures step.Go? ==> Comparing(handle.image, handle.Remaining(), path, step.i, expected)
  {
    if i + 1 == |path| {
      assert expected == Found(e);
      return Stop(Ok(Some(e)));
    } else if !directory {
      assert expected == NotFound(ErrDirectoryNotFound);
      handle.errs.code := ErrDirectoryNotFound;
      return Stop(Ok(None));
    }
    assert expected == Resolve(handle.image, key, path, i + 1);
    var started := Descend(handle, path, i + 1, key);
    if started.Threw? {
      return Stop(Threw(started.failure));
    }
    return Go(i + 1);
  }

  /** The body of GetEntry's loop: compares the entry in hand, then fetches another. */
  method Round(handle: DirectoryHandle, e: EntryRef, path: seq<bytes>, i: nat, ghost expected: Result)
    returns (step: Step, next: Option<EntryRef>)
    requires handle.Valid() && Comparing(handle.image, Entry(e, handle.Remaining()), path, i, expected)
    modifies handle, handle.errs
    ensures step.Stop? ==> EndsAs(expected, step.r, old(handle.errs.code), handle.errs.code)
    ensures step.Go? ==> handle.Valid() && i <= step.i
    ensures step.Go? ==> Comparing(handle.image, InHand(next, handle.Remaining()), path, step.i, expected)
    ensures step.Go? && step.i == i ==> InHand(next, handle.Remaining()) == old(handle.Remaining())
    ensures step.Go? && next.Some? ==> handle.errs.code == old(handle.errs.code)
  {
    step := Compare(handle, e, path, i, expected);
    next := None;
    if step.Go? {
      var fetched := Fetch(handle);
      if fetched.Threw? {
        return Stop(Threw(fetched.failure)), None;
      }
      next := fetched.value;
    }
  }

  /** The loop of GetEntry: one handle, re-opened in place on the way down. It ends even
      if directories contain each other: the components left, then the entries left, get
      fewer. */
  method WalkTree(handle: DirectoryHandle, path: seq<bytes>) returns (r: Outcome<Option<EntryRef>>)
    requires handle.Valid() && |path| > 0
    requires Search(handle.image, handle.Remaining(), path, 0) != Raised(Endless)
    modifies handle, handle.errs
    ensures EndsAs(Search(handle.image, old(handle.Remaining()), path, 0), r, old(handle.errs.code), handle.errs.code)
  {
    ghost var expected := Search(handle.image, handle.Remaining(), path, 0);
    var i := 0;
    var next := Fetch(handle);
    if next.Threw? {
      return Threw(next.failure);
    }
    var entry := next.value;
    while entry.Some?
      invariant 0 <= i && handle.Valid()
      invariant Comparing(handle.image, InHand(entry, handle.Remaining()), path, i, expected)
      invariant entry.Some? ==> handle.errs.code == old(handle.errs.code)
      decreases |path| - i, InHand(entry, handle.Remaining())
    {
      var step, another := Round(handle, entry.value, path, i, expected);
      if step.Stop? {
        return step.r;
      }
      i, entry := step.i, another;
    }
    handle.errs.code := ErrFileNotFound;
    return Ok(None);
  }

  // ----- the bitmap -----

  /** All the blocks that are visited, from block `start` on, exist. */
  predicate BitmapFits(start: nat, numBlocks: nat) {
    start + (numBlocks + 511) / 512 <= numBlocks
  }

  /** The bytes that are visited, as far as they exist: one per block of the volume. */
  ghost function BitmapBytes(img: bytes, start: nat): bytes {
    if 512 * start < |img| then Part(img, 512 * start, Min(NumBlocks(img), |img| - 512 * start)) else []
  }

  /** The result of CountBlocksUsed on an image whose bitmap begins at block `start`. */
  ghost predicate IsCount(img: bytes, start: nat, r: Outcome<int>) {
    var n, bits := NumBlocks(img), BitmapBytes(img, start);
    if BitmapFits(start, n) then
      |bits| == n && r == Ok(n - PopSum(bits, n)) && (r == Ok(ClearBits(bits, n)) <==> AllClear(bits, n, 8 * n))
    else r == Threw(InvalidBlockNumber)
  }

  lemma CountFollows(img: bytes, start: nat, r: Outcome<int>)
    requires var n, bits := NumBlocks(img), BitmapBytes(img, start);
      if BitmapFits(start, n) then |bits| == n && r == Ok(n - PopSum(bits, n)) else r == Threw(InvalidBlockNumber)
    ensures IsCount(img, start, r)
  {
    if BitmapFits(start, NumBlocks(img)) {
      CountIsRightIffRestClear(BitmapBytes(img, start), NumBlocks(img));
    }
  }

  /** The loops of CountBlocksUsed; `bits` is the bytes to be visited, as far as they exist. */
  method CountUsed(disk: Disk, start: nat, ghost bits: bytes) returns (r: Outcome<int>)
    requires disk.Valid() && 0 < disk.numBlocks < 0x10000
    requires |bits| == if start < disk.numBlocks then Min(disk.numBlocks, 512 * (disk.numBlocks - start)) else 0
    requires forall k {:trigger bits[k]} :: 0 <= k < |bits| ==> bits[k] == disk.base[512 * start + k]
    ensures if BitmapFits(start, disk.numBlocks) then
        |bits| == disk.numBlocks && r == Ok(disk.numBlocks - PopSum(bits, disk.numBlocks))
      else r == Threw(InvalidBlockNumber)
  {
    ghost var n := disk.numBlocks;
    var pointer, blocks, used := start, disk.numBlocks, 0;
    ghost var read, done := 0, 0;
    while blocks > 0
      invariant 0 <= blocks && blocks + done == n && done <= |bits|
      invariant pointer == start + read && (read > 0 ==> pointer <= n)
      invariant if blocks > 0 then done == 512 * read else read == (n + 511) / 512
      invariant used == done - PopSum(bits, done)
    {
      var bitmap := disk.ReadBlock(pointer);
      if bitmap.Threw? {
        assert !BitmapFits(start, n);
        return Threw(bitmap.failure);
      }
      BitmapBlockFits(n, start, blocks, read);
      var more := CountInBlock(disk.base, 512 * pointer, Min(blocks, 512), bits, done);
      used, done, blocks := used + more, done + Min(blocks, 512), blocks - Min(blocks, 512);
      pointer, read := (pointer + 1) % 0x10000, read + 1;
    }
    return Ok(used);
  }

  /** The inner loop: the first n bytes of one bitmap block. */
  method CountInBlock(base: array<byte>, at: nat, n: nat, ghost bits: bytes, ghost done: nat) returns (used: int)
    requires at + n <= base.Length && done + n <= |bits|
    requires forall k :: done <= k < done + n ==> bits[k] == base[at + (k - done)]
    ensures used == n - (PopSum(bits, done + n) - PopSum(bits, done))
  {
    used := 0;
    var i := 0;
    while i < n
      invariant 0 <= i <= n
      invariant used == i - (PopSum(bits, done + i) - PopSum(bits, done))
    {
      assert base[at + i] == bits[done + i];
      used := used + (1 - PopCount(base[at + i]));
      i := i + 1;
    }
  }

  /** A bitmap block that exists holds the bytes to be visited next. */
  lemma BitmapBlockFits(numBlocks: nat, start: nat, blocks: nat, read: nat)
    requires 0 < blocks && blocks + 512 * read == numBlocks && start + read < numBlocks
    ensures 512 * (start + read) + Min(blocks, 512) <= 512 * numBlocks
    ensures 512 * read + Min(blocks, 512) <= Min(numBlocks, 512 * numBlocks - 512 * start)
    ensures blocks <= 512 ==> read + 1 == (numBlocks + 511) / 512
    ensures blocks > 512 ==> (numBlocks + 511) / 512 > read + 1
  {
  }

  /** A volume's size is a 16-bit number of blocks. */
  lemma VolumeSize(img: bytes)
    requires IsVolume(img)
    ensures 2 < NumBlocks(img) < 0x10000
  {
  }

  /** Writing a block back where it was read changes nothing. */
  lemma WriteBack(img: bytes)
    requires 2 < NumBlocks(img)
    ensures WithBlock(img, 2, Part(img, 1024, 512)) == img
  {
  }
}
