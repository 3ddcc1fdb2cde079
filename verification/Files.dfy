/** The file handle (source/file.cxx): a cursor over a standard file, with the master
    index block, index block and data block of its position cached. */
module Files {
  import opened Bytes
  import opened Arithmetic
  import opened Errors
  import opened Layout
  import opened Disks
  import opened FileContents

  datatype Whence = SeekSet | SeekCur | SeekEnd

  /** Every position from `first` to `last`, both included, maps to some block. */
  ghost predicate Mapped(blocks: seq<Outcome<nat>>, first: nat, last: nat) {
    forall o :: first <= o <= last && o < |blocks| ==> blocks[o].Ok?
  }

  /** `blocks` and `contents` describe the file: see FileMap and FileBytes. */
  ghost predicate Describe(blocks: seq<Outcome<nat>>, contents: bytes, img: bytes, entry: EntryRef)
    requires IsFileEntry(img, entry)
  {
    |blocks| == |contents| + 1 == entry.Eof(img) + 1 &&
    (forall o: nat {:trigger Locate(img, entry, o)} :: o < |blocks| ==> blocks[o] == Locate(img, entry, o)) &&
    (forall o: nat {:trigger FileByte(img, entry, o)} :: o < |contents| ==> contents[o] == FileByte(img, entry, o))
  }

  lemma DescriptionIsUnique(blocks: seq<Outcome<nat>>, contents: bytes, img: bytes, entry: EntryRef)
    requires IsFileEntry(img, entry)
    ensures Describe(blocks, contents, img, entry) <==>
      blocks == FileMap(img, entry) && contents == FileBytes(img, entry)
  {
    if Describe(blocks, contents, img, entry) {
      forall o: nat | o < |blocks| ensures blocks[o] == FileMap(img, entry)[o] {
        assert blocks[o] == Locate(img, entry, o);
      }
      forall o: nat | o < |contents| ensures contents[o] == FileBytes(img, entry)[o] {
        assert contents[o] == FileByte(img, entry, o);
      }
    }
  }

  /** All positions of one block map alike. */
  lemma SameBlock(img: bytes, entry: EntryRef, o: nat, p: nat)
    requires IsFileEntry(img, entry) && o / 512 == p / 512
    ensures Locate(img, entry, o) == Locate(img, entry, p)
  {
    TwoIndices(o);
    TwoIndices(p);
  }

  /** Both indices of a position depend on its block only. */
  lemma TwoIndices(o: nat)
    ensures o / 131072 == o / 512 / 256 && o % 131072 / 512 == o / 512 % 256
  {
    var q, r := o / 512, o % 512;
    var h, b := q / 256, q % 256;
    DivisionIsUnique(o, h, 131072, 512 * b + r);
    DivisionIsUnique(512 * b + r, b, 512, r);
  }

  /** The block at position `start` holds the file's bytes from there to the block's end. */
  lemma BlockIsFile(blocks: seq<Outcome<nat>>, contents: bytes, img: bytes, entry: EntryRef, start: nat, n: nat)
    requires IsFileEntry(img, entry) && Describe(blocks, contents, img, entry)
    requires start < |blocks| && blocks[start].Ok? && start % 512 + n <= 512
    ensures forall o :: start <= o < start + n && o < |blocks| ==> blocks[o] == blocks[start]
    ensures forall o :: start <= o < start + n && o < |contents| ==>
      contents[o] == ByteOf(img, blocks[start].value, start % 512 + (o - start))
  {
    forall o: nat | start <= o < start + n && o < |blocks|
      ensures blocks[o] == blocks[start]
      ensures o < |contents| ==> contents[o] == ByteOf(img, blocks[start].value, start % 512 + (o - start))
    {
      SameBlock(img, entry, o, start);
      assert o < |contents| ==> contents[o] == FileByte(img, entry, o);
    }
  }

  // ----- reading past the end of file -----

  /** Where a read from `start` that goes past the end of file gets stuck: at the beginning
      of the block of the end of file, or at `start` in that block. */
  function StuckAt(start: nat, eof: nat): (p: nat)
    requires start <= eof
    ensures start <= p <= eof
  {
    if eof / 512 * 512 <= start then start else eof / 512 * 512
  }

  /** What is left of the block there. */
  function Lap(start: nat, eof: nat): (n: nat)
    requires start <= eof
    ensures 0 < n <= 512
  {
    512 - StuckAt(start, eof) % 512
  }

  /** Seeks beyond the end of file fail and leave the position, until the last piece is so
      short that it ends in the file. */
  function PositionAfter(start: nat, size: nat, eof: nat): nat
    requires start <= eof
  {
    if start + size <= eof then start + size
    else Landing(StuckAt(start, eof), Lap(start, eof), start + size, eof)
  }

  function Landing(p: nat, w: nat, end: nat, eof: nat): nat
    requires w > 0 && p <= end
  {
    var rest := Wrap(end - p, w);
    if p + rest <= eof then p + rest else p
  }

  /** A read from `start` gets stuck at p, w bytes before the end of p's block. */
  predicate Sticks(p: nat, w: nat, start: nat, eof: nat) {
    start <= p <= eof < p + w && p % 512 + w == 512 && (p == start || p % 512 == 0)
  }

  lemma PieceBefore(p: nat, w: nat, start: nat, eof: nat, position: nat)
    requires Sticks(p, w, start, eof) && start <= position <= eof && (position == start || position % 512 == 0)
    ensures position <= p && (position < p ==> position + (512 - position % 512) <= p)
  {
  }

  /** How far a read from `start` to `end` is at `now`, when it gets stuck at p. */
  ghost predicate Progress(p: nat, w: nat, start: nat, end: nat, eof: nat, now: nat, position: nat, overrun: bool) {
    Sticks(p, w, start, eof) && start <= now <= end &&
    (!overrun ==> position == now <= eof && (now < end ==> now <= p)) &&
    (overrun ==> now > eof && position == if now < end then p else Landing(p, w, end, eof)) &&
    (now < end ==> position == start || position % 512 == 0) &&
    (p <= now < end ==> Wrap(now - p, w) == 0)
  }

  lemma ReadStarts(start: nat, size: nat, eof: nat)
    requires start <= eof
    ensures Progress(StuckAt(start, eof), Lap(start, eof), start, start + size, eof, start, start, false)
  {
  }

  lemma ReadEnds(start: nat, size: nat, eof: nat, position: nat, overrun: bool)
    requires start <= eof
    requires Progress(StuckAt(start, eof), Lap(start, eof), start, start + size, eof, start + size, position, overrun)
    ensures position == PositionAfter(start, size, eof) && (overrun <==> start + size > eof)
  {
  }

  /** One more piece of a read. It ends at the next block boundary; if the end of file lies
      before that, it is a piece of the block where the read gets stuck. */
  lemma ProgressStep(p: nat, w: nat, start: nat, end: nat, eof: nat, now: nat, position: nat, overrun: bool, n: nat)
    requires Progress(p, w, start, end, eof, now, position, overrun) && now < end
    requires n == Min(end - now, 512 - position % 512)
    ensures position <= p && (position < p ==> position + n <= p)
    ensures Progress(p, w, start, end, eof, now + n, if position + n <= eof then position + n else position,
      overrun || position + n > eof)
  {
    PieceBefore(p, w, start, eof, position);
    if position == p {
      WrapOn(now - p, w, n);
    } else {
      NextBoundary(position);
    }
  }

  lemma NextBoundary(position: nat)
    ensures (position + (512 - position % 512)) % 512 == 0
  {
  }

  /** The same, by its effect. */
  lemma ProgressMade(p: nat, w: nat, start: nat, end: nat, eof: nat, now: nat, position: nat, overrun: bool, n: nat,
                     later: nat, moved: nat, overran: bool)
    requires Progress(p, w, start, end, eof, now, position, overrun) && now < end
    requires n == Min(end - now, 512 - position % 512) && later == now + n
    requires moved == if position + n <= eof then position + n else position
    requires overran <==> overrun || position + n > eof
    ensures position <= p && (position < p ==> position + n <= p)
    ensures Progress(p, w, start, end, eof, later, moved, overran)
  {
    ProgressStep(p, w, start, end, eof, now, position, overrun, n);
  }

  /** A piece whose seek does not throw maps all that it passes. */
  lemma MappedOn(blocks: seq<Outcome<nat>>, p: nat, w: nat, start: nat, end: nat, now: nat, position: nat,
                 overrun: bool, n: nat)
    requires |blocks| > 0 && Progress(p, w, start, end, |blocks| - 1, now, position, overrun) && now < end && n > 0
    requires Mapped(blocks, start, now) && Mapped(blocks, position, position + n - 1)
    ensures Mapped(blocks, start, now + n) <==> position + n >= |blocks| || blocks[position + n].Ok?
  {
  }

  class FileHandle {
    const disk: Disk
    const errs: ThreadError
    var entry: Option<EntryRef>
    var master: Option<nat>
    var index: Option<nat>
    var data: Option<nat>
    var position: nat
    ghost const image: bytes
    ghost const blocks: seq<Outcome<nat>>
    ghost const contents: bytes

    /** An open handle on an unchanged image, whose position is in the file. */
    ghost predicate Usable()
      reads this, disk, disk.base
    {
      disk.Valid() && disk.Image() == image &&
      entry.Some? && IsFileEntry(image, entry.value) && Describe(blocks, contents, image, entry.value) &&
      GetBlock(image, entry.value.KeyPointer(image)).Ok? &&
      Rooted(entry.value.StorageType(image), entry.value.KeyPointer(image)) &&
      position < |blocks| && data.Some?
    }

    /** Coherent: the cached blocks are those that the position maps to. A seek that throws
        leaves a handle that is usable, but not coherent. */
    ghost predicate Valid()
      reads this, disk, disk.base
    {
      Usable() && blocks[position] == Ok(data.value) &&
      (master.Some? ==> Ok(index.value) == LocateIndex(image, entry.value, position))
    }

    /** Which blocks are cached, by storage type: a seedling keeps its key block as its
        only data block, a sapling as its index block, a tree as its master index block. */
    ghost predicate Rooted(storageType: nat, key: nat)
      reads this
    {
      (storageType == SEEDLING ==> master == None && index == None && data == Some(key)) &&
      (storageType == SAPLING ==> master == None && index == Some(key)) &&
      (storageType == TREE ==> master == Some(key) && index.Some?)
    }

    constructor Raw(disk: Disk, errs: ThreadError, entry: EntryRef)
      requires disk.Valid() && IsFileEntry(disk.Image(), entry)
      ensures this.disk == disk && this.errs == errs && this.entry == Some(entry) && image == disk.Image()
      ensures blocks == FileMap(image, entry) && contents == FileBytes(image, entry)
      ensures master == None && index == None && data == None && position == 0
    {
      this.disk, this.errs, this.entry, this.image := disk, errs, Some(entry), disk.Image();
      this.blocks, this.contents := FileMap(disk.Image(), entry), FileBytes(disk.Image(), entry);
      master, index, data, position := None, None, None, 0;
    }

    method Close()
      modifies this
      ensures entry == None && master == None && index == None && data == None && position == 0
    {
      entry, master, index, data, position := None, None, None, None, 0;
    }

    method Type() returns (t: byte)
      requires Usable()
      ensures t == entry.value.FileType(image)
    {
      t := disk.base[entry.value.Addr() + 16];
    }

    method EofMark() returns (n: nat)
      requires Usable()
      ensures n == entry.value.Eof(image)
    {
      n := U24(disk.base[..], entry.value.Addr() + 21);
    }

    method Eof() returns (atEnd: bool)
      requires Usable()
      ensures atEnd <==> position == entry.value.Eof(image)
    {
      var n := EofMark();
      atEnd := position == n;
    }

    /** _context->GetBlock(block->At(i)) */
    method FollowPointer(block: nat, i: nat) returns (r: Outcome<nat>)
      requires disk.Valid() && disk.Image() == image && GetBlock(image, block).Ok?
      ensures r == Follow(image, block, i)
    {
      if i > 255 {
        return Threw(InvalidIndex);
      }
      var low: int, high: int := 0, 0;
      if block != 0 {
        low := disk.base[512 * block + i];
        high := disk.base[512 * block + 256 + i];
      }
      var pointer: nat := high * 0x100 + low;
      if pointer == 0 {
        return Ok(0);
      }
      r := disk.ReadBlock(pointer);
    }

    /** Moves the cached index block and data block to position `offset`. */
    method MoveTo(offset: nat) returns (r: Outcome<()>)
      requires disk.Valid() && disk.Image() == image
      requires entry.Some? && IsFileEntry(image, entry.value) && GetBlock(image, entry.value.KeyPointer(image)).Ok?
      requires Rooted(entry.value.StorageType(image), entry.value.KeyPointer(image))
      modifies this`index, this`data
      ensures match Locate(image, entry.value, offset)
        case Threw(f) => r == Threw(f) && data == old(data)
        case Ok(block) => r == Ok(()) && data == Some(block)
      ensures Rooted(entry.value.StorageType(image), entry.value.KeyPointer(image))
      ensures old(data).Some? ==> data.Some?
      ensures r.Ok? && master.Some? ==> index.Some? && LocateIndex(image, entry.value, offset) == Ok(index.value)
      ensures master.None? ==> index == old(index)
    {
      var o := offset;
      if master.Some? {
        var i := o / 131072;
        o := o - i * 131072;
        var block := FollowPointer(master.value, i);
        if block.Threw? {
          return Threw(block.failure);
        }
        index := Some(block.value);
      }
      if index.Some? {
        var i := o / 512;
        var block := FollowPointer(index.value, i);
        if block.Threw? {
          return Threw(block.failure);
        }
        data := Some(block.value);
      }
      return Ok(());
    }

    /** A seek out of range changes nothing but the error; one in range moves the cursor
        and all the cached blocks, or throws what looking the position up throws. It makes
        a handle coherent again that an earlier exception left incoherent. */
    method Seek(offset: int, whence: Whence) returns (r: Outcome<int>)
      requires Usable()
      modifies this`position, this`index, this`data, errs
      ensures !whence.SeekSet? ==> r == Threw(OnlySeekSet) && unchanged(this) && unchanged(errs)
      ensures whence.SeekSet? && !(0 <= offset < |blocks|) ==>
        r == Ok(-1) && errs.code == ErrPositionOutOfRange && unchanged(this)
      ensures whence.SeekSet? && 0 <= offset < |blocks| ==>
        position == offset && unchanged(errs) && Usable() &&
        if blocks[offset].Ok? then r == Ok(offset) && Valid()
        else r == Threw(blocks[offset].failure) && data == old(data)
    {
      if !whence.SeekSet? {
        return Threw(OnlySeekSet);
      }
      var end := EofMark();
      if offset < 0 || offset > end {
        errs.code := ErrPositionOutOfRange;
        return Ok(-1);
      }
      position := offset;
      var moved := MoveTo(offset);
      if moved.Threw? {
        return Threw(moved.failure);
      }
      return Ok(position);
    }

    /** The body of Read's loop: copies up to the end of the cached block, then seeks. */
    method ReadPiece(buffer: array<byte>, target: nat, left: nat) returns (n: nat, sought: Outcome<int>)
      requires Valid()
      requires buffer != disk.base && 0 < left && target + left <= buffer.Length
      modifies this`position, this`index, this`data, errs, buffer
      ensures n == Min(left, 512 - old(position) % 512)
      ensures Mapped(blocks, old(position), old(position) + n - 1)
      ensures forall j {:trigger buffer[j]} :: target <= j < target + n ==>
        buffer[j] == ByteOf(image, blocks[old(position)].value, old(position) % 512 + (j - target))
      ensures forall j :: 0 <= j < buffer.Length && !(target <= j < target + n) ==> buffer[j] == old(buffer[j])
      ensures position == if old(position) + n <= |contents| then old(position) + n else old(position)
      ensures if old(position) + n <= |contents| then unchanged(errs) else errs.code == ErrPositionOutOfRange
      ensures if sought.Ok? then Valid() else Usable() && blocks[position] == Threw(sought.failure)
      ensures sought.Ok? <==> old(position) + n >= |blocks| || blocks[old(position) + n].Ok?
    {
      var at := position % 512;
      n := Min(left, 512 - at);
      assert Locate(image, entry.value, position) == Ok(data.value);
      BlockIsFile(blocks, contents, image, entry.value, position, n);
      CopyFromBlock(disk, data.value, at, buffer, target, n);
      sought := Seek(position + n, SeekSet);
    }

    /** The same, in a read that began at `start` and has `target` bytes already. */
    method ReadOn(buffer: array<byte>, target: nat, left: nat, ghost start: nat, ghost overrun: bool,
                  ghost p: nat, ghost w: nat, ghost all: bytes)
      returns (n: nat, sought: Outcome<int>, ghost overran: bool)
      requires buffer != disk.base && 0 < left && target + left <= buffer.Length
      requires InProgress(target + left, p, w, start, target, overrun)
      requires IsDelivery(all, p, w, start) && |all| == target + left
      requires overrun ==> errs.code == ErrPositionOutOfRange
      modifies this`position, this`index, this`data, errs, buffer
      ensures 0 < n <= left
      ensures forall j {:trigger buffer[j]} :: target <= j < target + n ==> buffer[j] == all[j]
      ensures forall j :: 0 <= j < buffer.Length && !(target <= j < target + n) ==> buffer[j] == old(buffer[j])
      ensures sought.Threw? ==> Usable() && !Mapped(blocks, start, start + target + n)
      ensures sought.Ok? ==> InProgress(target + left, p, w, start, target + n, overran)
      ensures if overran then errs.code == ErrPositionOutOfRange else unchanged(errs) && !overrun
    {
      ghost var before := position;
      n, sought := ReadPiece(buffer, target, left);
      overran := overrun || before + n > |contents|;
      ProgressMade(p, w, start, start + (target + left), |contents|, start + target, before, overrun, n,
                   start + target + n, position, overran);
      MappedOn(blocks, p, w, start, start + (target + left), start + target, before, overrun, n);
      PieceDelivers(entry.value, all, p, w, start, target, before, overrun, n);
    }

    /** Reads `size` bytes, come what may: the end of file does not stop it. It throws
        exactly when some position that it passes, the final one included, maps to no
        block. */
    method Read(buffer: array<byte>, size: nat) returns (r: Outcome<nat>)
      requires Valid()
      requires buffer != disk.base && size <= buffer.Length
      modifies this`position, this`index, this`data, errs, buffer
      ensures Usable()
      ensures forall j :: size <= j < buffer.Length ==> buffer[j] == old(buffer[j])
      ensures r.Ok? <==> Mapped(blocks, old(position), old(position) + size)
      ensures r.Ok? ==> r == Ok(size) && Valid() && position == PositionAfter(old(position), size, |contents|)
      ensures r.Ok? ==> HasDelivered(buffer, old(position), size)
      ensures r.Ok? ==>
        if old(position) + size <= |contents| then unchanged(errs) else errs.code == ErrPositionOutOfRange
    {
      ghost var start := position;
      ghost var p, w := StuckAt(start, |contents|), Lap(start, |contents|);
      ReadStarts(start, size, |contents|);
      ghost var all, overrun := Delivery(p, w, start, size), false;
      r, overrun := ReadPieces(buffer, size, p, w, all);
      if r.Ok? {
        ReadEnds(start, size, |contents|, position, overrun);
      }
    }

    /** The loop of Read; `all` is what it is to deliver. */
    method ReadPieces(buffer: array<byte>, size: nat, ghost p: nat, ghost w: nat, ghost all: bytes)
      returns (r: Outcome<nat>, ghost overrun: bool)
      requires InProgress(size, p, w, position, 0, false) && IsDelivery(all, p, w, position) && |all| == size
      requires buffer != disk.base && size <= buffer.Length
      modifies this`position, this`index, this`data, errs, buffer
      ensures Usable()
      ensures forall j :: size <= j < buffer.Length ==> buffer[j] == old(buffer[j])
      ensures r.Threw? ==> !Mapped(blocks, old(position), old(position) + size)
      ensures r.Ok? ==> r == Ok(size) && InProgress(size, p, w, old(position), size, overrun)
      ensures r.Ok? ==> forall k :: 0 <= k < size ==> buffer[k] == all[k]
      ensures r.Ok? ==> if overrun then errs.code == ErrPositionOutOfRange else unchanged(errs)
    {
      ghost var start := position;
      overrun := false;
      var bytesRead, left := 0, size;
      while left > 0
        invariant 0 <= left && bytesRead + left == size
        invariant forall j :: size <= j < buffer.Length ==> buffer[j] == old(buffer[j])
        invariant InProgress(size, p, w, start, bytesRead, overrun)
        invariant forall k :: 0 <= k < bytesRead ==> buffer[k] == all[k]
        invariant if overrun then errs.code == ErrPositionOutOfRange else unchanged(errs)
        decreases left
      {
        var n, sought, overran := ReadOn(buffer, bytesRead, left, start, overrun, p, w, all);
        if sought.Threw? {
          return Threw(sought.failure), overran;
        }
        overrun := overran;
        bytesRead := bytesRead + n;
        left := left - n;
      }
      return Ok(bytesRead), overrun;
    }

    /** The k-th byte of a read from `start` that gets stuck at p: up to the end of file the
        file's bytes, then its last block from p to the end, w bytes, over and over again. */
    ghost function Delivered(p: nat, w: nat, start: nat, k: nat): byte
      requires p % 512 + w == 512 && w > 0 && p <= |contents| < |blocks|
    {
      var o := start + k;
      if o < |contents| then contents[o]
      else if blocks[p].Ok? then ByteOf(image, blocks[p].value, p % 512 + Wrap(o - p, w))
      else 0
    }

    /** The first n bytes of the buffer are those of a read from `start`. */
    ghost predicate HasDelivered(buffer: array<byte>, start: nat, n: nat)
      requires start <= |contents| < |blocks| && n <= buffer.Length
      reads buffer
    {
      forall k {:trigger buffer[k]} :: 0 <= k < n ==>
        buffer[k] == Delivered(StuckAt(start, |contents|), Lap(start, |contents|), start, k)
    }

    ghost function Delivery(p: nat, w: nat, start: nat, size: nat): (all: bytes)
      requires p % 512 + w == 512 && w > 0 && p <= |contents| < |blocks|
      ensures IsDelivery(all, p, w, start) && |all| == size
    {
      seq<byte>(size, k requires 0 <= k < size => Delivered(p, w, start, k))
    }

    ghost predicate IsDelivery(all: bytes, p: nat, w: nat, start: nat) {
      p % 512 + w == 512 && w > 0 && p <= |contents| < |blocks| &&
      forall k: nat {:trigger Delivered(p, w, start, k)} :: k < |all| ==> all[k] == Delivered(p, w, start, k)
    }

    /** A read of `size` bytes from `start`, of which `done` are there. */
    ghost predicate InProgress(size: nat, p: nat, w: nat, start: nat, done: nat, overrun: bool)
      reads this, disk, disk.base
    {
      Valid() && Progress(p, w, start, start + size, |contents|, start + done, position, overrun) &&
      Mapped(blocks, start, start + done)
    }

    /** A piece that is copied out of the block of `position` is what is to be delivered. */
    lemma PieceDelivers(e: EntryRef, all: bytes, p: nat, w: nat, start: nat, done: nat, position: nat, overrun: bool,
                        n: nat)
      requires IsFileEntry(image, e) && Describe(blocks, contents, image, e) && |blocks| == |contents| + 1
      requires Progress(p, w, start, start + |all|, |contents|, start + done, position, overrun) && done + n <= |all|
      requires IsDelivery(all, p, w, start)
      requires position <= p && blocks[position].Ok? && 0 < n <= 512 - position % 512
      requires position < p ==> position + n <= p
      ensures forall k {:trigger all[k]} :: done <= k < done + n ==>
        all[k] == ByteOf(image, blocks[position].value, position % 512 + (k - done))
    {
      BlockIsFile(blocks, contents, image, e, position, n);
      forall k {:trigger all[k]} | done <= k < done + n
        ensures all[k] == ByteOf(image, blocks[position].value, position % 512 + (k - done))
      {
        assert all[k] == Delivered(p, w, start, k);
        if start + k >= |contents| {
          WrapOn(start + done - p, w, k - done);
        }
      }
    }
  }

  /** memcpy out of a block; block 0 is the sparse block. */
  method CopyFromBlock(disk: Disk, block: nat, at: nat, buffer: array<byte>, target: nat, n: nat)
    requires disk.Valid() && GetBlock(disk.Image(), block).Ok?
    requires buffer != disk.base && at + n <= 512 && target + n <= buffer.Length
    modifies buffer
    ensures forall j :: 0 <= j < buffer.Length ==>
      buffer[j] == if target <= j < target + n then ByteOf(disk.Image(), block, at + (j - target)) else old(buffer[j])
  {
    if block == 0 {
      forall i | 0 <= i < n {
        buffer[target + i] := 0;
      }
    } else {
      forall i | 0 <= i < n {
        buffer[target + i] := disk.base[512 * block + at + i];
      }
    }
  }

  /** The constructor: a handle at position 0, or the exception it throws. */
  method OpenFileHandle(disk: Disk, errs: ThreadError, entry: EntryRef) returns (r: Outcome<FileHandle>)
    requires disk.Valid() && entry.Within(disk.Image())
    ensures !entry.IsFile(disk.Image()) ==> r == Threw(UnexpectedStorageType)
    ensures entry.IsFile(disk.Image()) ==>
      match Locate(disk.Image(), entry, 0)
      case Threw(f) => r == Threw(f)
      case Ok(_) => (
        r.Ok? && fresh(r.value) && r.value.Valid() && r.value.position == 0 && r.value.entry == Some(entry) &&
        r.value.disk == disk && r.value.errs == errs && r.value.image == disk.Image())
  {
    var img := disk.base[..];
    if !entry.IsFile(img) {
      return Threw(UnexpectedStorageType);
    }
    var pointer := entry.KeyPointer(img);
    if pointer != 0 {
      var read := disk.ReadBlock(pointer);
      if read.Threw? {
        return Threw(read.failure);
      }
    }
    var h := new FileHandle.Raw(disk, errs, entry);
    if entry.StorageType(img) == SEEDLING {
      h.data := Some(pointer);
      return Ok(h);
    }
    h.index := Some(pointer);
    if entry.StorageType(img) == TREE {
      h.master := Some(pointer);
    }
    var moved := h.MoveTo(0);
    if moved.Threw? {
      return Threw(moved.failure);
    }
    return Ok(h);
  }
}
