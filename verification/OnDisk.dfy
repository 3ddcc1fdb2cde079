/** The on-disk format written out field by field, in the order of the structures in
    include/prodos/block.hxx: whatever is encoded this way is what the accessors read. */
module OnDisk {
  import opened Bytes
  import opened Arithmetic
  import opened Errors
  import opened Layout
  import opened FileContents
  import opened Discovery
  import opened Mounting

  /** A number in little-endian bytes. */
  function LE16(n: nat): (b: bytes)
    requires n < 0x1_0000
    ensures |b| == 2
  {
    [n % 256, n / 256]
  }

  function LE24(n: nat): (b: bytes)
    requires n < 0x100_0000
    ensures |b| == 3
  {
    [n % 256, n / 256 % 256, n / 65536]
  }

  function Padded(name: bytes): (b: bytes)
    requires |name| <= 15
    ensures |b| == 15 && forall i :: 0 <= i < |name| ==> b[i] == name[i]
  {
    name + Zeros(15 - |name|)
  }

  /** The image holds these bytes from `at` on. */
  predicate Holds(img: bytes, at: nat, b: bytes) {
    at + |b| <= |img| && forall i :: 0 <= i < |b| ==> img[at + i] == b[i]
  }

  // ----- directory entries -----

  /** A directory entry; `rest` is dates, versions, access, auxiliary type and header
      pointer. */
  datatype FileRecord = FileRecord(storageType: nat, name: bytes, fileType: byte, key: nat, blocksUsed: nat, eof: nat,
                                   rest: bytes)
  {
    predicate Fits() {
      storageType < 16 && |name| <= 15 && key < 0x1_0000 && blocksUsed < 0x1_0000 && eof < 0x100_0000 && |rest| == 15
    }

    function Encoded(): (b: bytes)
      requires Fits()
      ensures |b| == 39
    {
      [16 * storageType + |name|] + Padded(name) + [fileType] + LE16(key) + LE16(blocksUsed) + LE24(eof) + rest
    }
  }

  lemma EncodedFields(r: FileRecord)
    requires r.Fits()
    ensures var b := r.Encoded();
      b[0] == 16 * r.storageType + |r.name| && (forall i :: 0 <= i < |r.name| ==> b[1 + i] == r.name[i]) &&
      b[16] == r.fileType && b[17] == r.key % 256 && b[18] == r.key / 256 &&
      b[21] == r.eof % 256 && b[22] == r.eof / 256 % 256 && b[23] == r.eof / 65536
  {
    var name := Padded(r.name);
    assert forall i :: 0 <= i < 15 ==> r.Encoded()[1 + i] == name[i];
  }

  /** Reading an entry gives back the record that was written: slot `slot` of a block is 39
      bytes at 4 + 39 * slot. */
  lemma EntryRoundTrip(img: bytes, r: FileRecord, block: nat, slot: nat)
    requires r.Fits() && Holds(img, 512 * block + 4 + 39 * slot, r.Encoded())
    ensures var ref := EntryRef(block, slot);
      ref.Within(img) && ref.StorageType(img) == r.storageType && ref.FileName(img) == r.name &&
      ref.FileType(img) == r.fileType && ref.KeyPointer(img) == r.key && ref.Eof(img) == r.eof
  {
    EncodedFields(r);
    var a, b := 512 * block + 4 + 39 * slot, r.Encoded();
    assert img[a + 0] == b[0] && img[a + 16] == b[16] && img[a + 17] == b[17] && img[a + 18] == b[18];
    assert img[a + 21] == b[21] && img[a + 22] == b[22] && img[a + 23] == b[23];
    ThreeBytes(r.eof);
    NameRoundTrip(img, a, r.name, b);
  }

  /** What an entry is, by its first byte. */
  lemma EntryKinds(img: bytes, block: nat, slot: nat)
    requires 512 * block + 4 + 39 * slot < |img|
    ensures var ref, first := EntryRef(block, slot), img[512 * block + 4 + 39 * slot];
      (ref.IsInactive(img) <==> first < 0x10) &&
      (ref.IsFile(img) <==> 0x10 <= first < 0x40) &&
      (ref.StorageType(img) == SEEDLING <==> 0x10 <= first < 0x20) &&
      (ref.StorageType(img) == SAPLING <==> 0x20 <= first < 0x30) &&
      (ref.StorageType(img) == TREE <==> 0x30 <= first < 0x40) &&
      (ref.IsDirectory(img) <==> 0xD0 <= first < 0xE0)
  {
  }

  // ----- directory headers -----

  /** The header of a directory; the last two fields are a volume's bit map pointer and
      total number of blocks, and a subdirectory's place in its parent. */
  datatype HeaderRecord = HeaderRecord(storageType: nat, name: bytes, reserved: bytes, creation: bytes, version: byte,
                                       minVersion: byte, access: byte, entryLength: byte, entriesPerBlock: byte,
                                       fileCount: nat, pointer: nat, total: nat)
  {
    predicate Fits() {
      storageType < 16 && |name| <= 15 && |reserved| == 8 && |creation| == 4 &&
      fileCount < 0x1_0000 && pointer < 0x1_0000 && total < 0x1_0000
    }

    function Encoded(): (b: bytes)
      requires Fits()
      ensures |b| == 39
    {
      [16 * storageType + |name|] + Padded(name) + reserved + creation +
      [version, minVersion, access, entryLength, entriesPerBlock] + LE16(fileCount) + LE16(pointer) + LE16(total)
    }
  }

  /** A key block, as far as its header goes. */
  function EncodedKeyBlock(prev: nat, next: nat, h: HeaderRecord): (b: bytes)
    requires prev < 0x1_0000 && next < 0x1_0000 && h.Fits()
    ensures |b| == 43
  {
    LE16(prev) + LE16(next) + h.Encoded()
  }

  lemma EncodedHeaderFields(h: HeaderRecord)
    requires h.Fits()
    ensures var b := h.Encoded();
      b[0] == 16 * h.storageType + |h.name| && (forall i :: 0 <= i < |h.name| ==> b[1 + i] == h.name[i]) &&
      b[29] == h.minVersion && b[31] == h.entryLength && b[32] == h.entriesPerBlock &&
      b[33] == h.fileCount % 256 && b[34] == h.fileCount / 256 && b[35] == h.pointer % 256 &&
      b[36] == h.pointer / 256 && b[37] == h.total % 256 && b[38] == h.total / 256
  {
    var name := Padded(h.name);
    assert forall i :: 0 <= i < 15 ==> h.Encoded()[1 + i] == name[i];
  }

  lemma EncodedKeyBlockFields(prev: nat, next: nat, h: HeaderRecord)
    requires prev < 0x1_0000 && next < 0x1_0000 && h.Fits()
    ensures var b := EncodedKeyBlock(prev, next, h);
      b[0] == prev % 256 && b[1] == prev / 256 && b[2] == next % 256 && b[3] == next / 256 &&
      forall i :: 0 <= i < 39 ==> b[4 + i] == h.Encoded()[i]
  {
  }

  lemma KeyBlockBytes(img: bytes, a: nat, prev: nat, next: nat, h: HeaderRecord)
    requires prev < 0x1_0000 && next < 0x1_0000 && h.Fits()
    requires Holds(img, a, EncodedKeyBlock(prev, next, h))
    ensures img[a] == prev % 256 && img[a + 1] == prev / 256 && img[a + 2] == next % 256 && img[a + 3] == next / 256
    ensures forall i {:trigger h.Encoded()[i]} :: 0 <= i < 39 ==> img[a + 4 + i] == h.Encoded()[i]
  {
    EncodedKeyBlockFields(prev, next, h);
    var k := EncodedKeyBlock(prev, next, h);
    assert img[a + 0] == k[0] && img[a + 1] == k[1] && img[a + 2] == k[2] && img[a + 3] == k[3];
    forall i {:trigger h.Encoded()[i]} | 0 <= i < 39 ensures img[a + 4 + i] == h.Encoded()[i] {
      assert img[a + (4 + i)] == k[4 + i];
    }
  }

  /** Reading a key block gives back what was written. */
  lemma KeyBlockRoundTrip(img: bytes, block: nat, prev: nat, next: nat, h: HeaderRecord)
    requires prev < 0x1_0000 && next < 0x1_0000 && h.Fits() && block < NumBlocks(img)
    requires Holds(img, 512 * block, EncodedKeyBlock(prev, next, h))
    ensures NextBlock(img, block) == next && FileCount(img, block) == h.fileCount
    ensures MinVersion(img, block) == h.minVersion && EntryLength(img, block) == h.entryLength
    ensures EntriesPerBlock(img, block) == h.entriesPerBlock
    ensures BitMapPointer(img, block) == h.pointer && TotalBlocks(img, block) == h.total
    ensures IsDirectoryKey(img, block) <==> h.storageType == 0xE || h.storageType == 0xF
    ensures IsVolumeDirectory(img, 512 * block) <==> prev == 0 && h.storageType == 0xF
    ensures Header(block).FileName(img) == h.name
  {
    EncodedHeaderFields(h);
    KeyBlockBytes(img, 512 * block, prev, next, h);
    var a, b := 512 * block, h.Encoded();
    assert b[0] == img[a + 4] && b[29] == img[a + 33] && b[31] == img[a + 35] && b[32] == img[a + 36];
    assert b[33] == img[a + 37] && b[34] == img[a + 38] && b[35] == img[a + 39] && b[36] == img[a + 40];
    assert b[37] == img[a + 41] && b[38] == img[a + 42];
    NameRoundTrip(img, a + 4, h.name, b);
  }

  lemma NameRoundTrip(img: bytes, at: nat, name: bytes, b: bytes)
    requires |name| <= 15 && |b| == 39 && at + 39 <= |img|
    requires forall i {:trigger b[i]} :: 0 <= i < 39 ==> img[at + i] == b[i]
    requires forall i :: 0 <= i < |name| ==> b[1 + i] == name[i]
    ensures Part(img, at + 1, |name|) == name
  {
    forall i | 0 <= i < |name| ensures Part(img, at + 1, |name|)[i] == name[i] {
      assert b[1 + i] == img[at + (1 + i)];
    }
  }

  /** The links of any directory block, with or without a header. */
  lemma LinkRoundTrip(img: bytes, block: nat, prev: nat, next: nat)
    requires prev < 0x1_0000 && next < 0x1_0000 && block < NumBlocks(img)
    requires Holds(img, 512 * block, LE16(prev) + LE16(next))
    ensures NextBlock(img, block) == next
  {
    var a, b := 512 * block, LE16(prev) + LE16(next);
    assert img[a + 2] == b[2] && img[a + 3] == b[3];
  }

  /** The same by the places of the two bytes. */
  lemma HeaderNumbers(img: bytes, b: nat, n: nat)
    requires b < NumBlocks(img) && n < 0x1_0000
    ensures img[512 * b + 2] == n % 256 && img[512 * b + 3] == n / 256 ==> NextBlock(img, b) == n
    ensures img[512 * b + 37] == n % 256 && img[512 * b + 38] == n / 256 ==> FileCount(img, b) == n
    ensures img[512 * b + 39] == n % 256 && img[512 * b + 40] == n / 256 ==> BitMapPointer(img, b) == n
    ensures img[512 * b + 41] == n % 256 && img[512 * b + 42] == n / 256 ==> TotalBlocks(img, b) == n
  {
  }

  lemma EntryNumbers(img: bytes, block: nat, slot: nat, a: nat, key: nat, eof: nat)
    requires a == 512 * block + 4 + 39 * slot && a + 39 <= |img| && key < 0x1_0000 && eof < 0x100_0000
    ensures img[a + 17] == key % 256 && img[a + 18] == key / 256 ==> EntryRef(block, slot).KeyPointer(img) == key
    ensures img[a + 21] == eof % 256 && img[a + 22] == eof / 256 % 256 && img[a + 23] == eof / 65536 ==>
      EntryRef(block, slot).Eof(img) == eof
  {
    ThreeBytes(eof);
  }

  lemma ThreeBytes(n: nat)
    ensures n == n / 65536 * 65536 + n / 256 % 256 * 256 + n % 256
  {
    var q, r := n / 256, n % 256;
    var h, m := q / 256, q % 256;
    DivisionIsUnique(n, h, 65536, 256 * m + r);
  }

  // ----- index blocks -----

  /** 256 block numbers: all the low bytes, then all the high bytes. */
  function EncodedIndex(pointers: seq<nat>): (b: bytes)
    requires |pointers| == 256 && forall i :: 0 <= i < 256 ==> pointers[i] < 0x1_0000
    ensures |b| == 512
  {
    seq<byte>(256, i requires 0 <= i < 256 => pointers[i] % 256) +
    seq<byte>(256, i requires 0 <= i < 256 => pointers[i] / 256)
  }

  lemma IndexRoundTrip(img: bytes, index: nat, pointers: seq<nat>, i: nat)
    requires |pointers| == 256 && forall i :: 0 <= i < 256 ==> pointers[i] < 0x1_0000
    requires 0 < index < NumBlocks(img) && Holds(img, 512 * index, EncodedIndex(pointers)) && i < 256
    ensures Pointer(img, index, i) == pointers[i]
  {
    var b := EncodedIndex(pointers);
    assert b[i] == pointers[i] % 256 && b[256 + i] == pointers[i] / 256;
    assert img[512 * index + i] == b[i] && img[512 * index + (256 + i)] == b[256 + i];
  }

  /** One pointer alone. */
  lemma PointerBytes(img: bytes, index: nat, i: nat, p: nat)
    requires 0 < index < NumBlocks(img) && i < 256 && p < 0x1_0000
    requires img[512 * index + i] == p % 256 && img[512 * index + 256 + i] == p / 256
    ensures Pointer(img, index, i) == p
  {
  }

  // ----- volumes -----

  /** Exactly these images mount as they are. */
  lemma VolumeBytes(img: bytes)
    ensures IsVolume(img) <==>
      |img| % 512 == 0 && |img| >= 1536 && img[1024] == 0 && img[1025] == 0 && 0xF0 <= img[1028] && img[1057] == 0 &&
      img[1060] == 13 && img[1059] == 39 && img[1065] as int + 256 * img[1066] as int == |img| / 512
  {
  }

  /** Files that do not even get so far. */
  lemma MountFailures(file: bytes, key: Option<bytes>)
    requires ValidKey(key)
    ensures |file| % 512 != 0 ==> Mount(file, key) == Threw(SizeNotMultipleOfBlock)
    ensures |file| % 512 == 0 && |file| < 1536 ==> Mount(file, key) == Threw(InvalidBlockNumber)
    ensures |file| % 512 == 0 && |file| >= 1536 && Discover(file, key).Undiscovered? ==>
      Mount(file, key) == Threw(NoVolumeDirectory)
  {
  }

  /** Otherwise the first of these that the header fails is reported. */
  lemma HeaderProblems(img: bytes)
    requires 2 < NumBlocks(img)
    ensures HeaderProblem(img) == Some(UnexpectedMinVersion) <==> img[1057] != 0
    ensures HeaderProblem(img) == Some(UnexpectedEntriesPerBlock) <==> img[1057] == 0 && img[1060] != 13
    ensures HeaderProblem(img) == Some(UnexpectedEntryLength) <==>
      img[1057] == 0 && img[1060] == 13 && img[1059] != 39
    ensures HeaderProblem(img) == Some(UnexpectedTotalBlocks) <==>
      img[1057] == 0 && img[1060] == 13 && img[1059] == 39 &&
      img[1065] as int + 256 * img[1066] as int != |img| / 512
    ensures HeaderProblem(img).Some? ==>
      HeaderProblem(img).value in
        {UnexpectedMinVersion, UnexpectedEntriesPerBlock, UnexpectedEntryLength, UnexpectedTotalBlocks}
  {
  }
}
