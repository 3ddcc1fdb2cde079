/** ProDOS' on-disk format: blocks of an image, directory entries and headers
    (include/prodos/block.hxx) and their accessors (source/entry.cxx). */
module Layout {
  import opened Bytes

  // storage types
  const NONE := 0x0
  const SEEDLING := 0x1
  const SAPLING := 0x2
  const TREE := 0x3
  const SUBDIRECTORY := 0xD
  const SUBDIR_BLOCK := 0xE
  const VOLUME_BLOCK := 0xF

  predicate WholeBlocks(img: bytes) {
    |img| % 512 == 0
  }

  function NumBlocks(img: bytes): nat {
    |img| / 512
  }

  function Block(img: bytes, index: nat): (b: bytes)
    requires index < NumBlocks(img)
    ensures |b| == 512
  {
    Part(img, 512 * index, 512)
  }

  /** The image after block `index` was overwritten. */
  function WithBlock(img: bytes, index: nat, b: bytes): (r: bytes)
    requires index < NumBlocks(img) && |b| == 512
    ensures |r| == |img|
    ensures forall i :: 0 <= i < |img| ==>
      r[i] == if i / 512 == index then b[i % 512] else img[i]
  {
    seq(|img|, i requires 0 <= i < |img| => if i / 512 == index then b[i % 512] else img[i])
  }

  // ----- directory entries -----

  /** Where a directory entry lies: a pointer to slot `slot` of block `block`. */
  datatype EntryRef = EntryRef(block: nat, slot: nat) {
    function Addr(): nat {
      512 * block + 4 + 39 * slot
    }

    /** The whole entry lies inside the image. */
    predicate Within(img: bytes) {
      Addr() + 39 <= |img|
    }

    function StorageType(img: bytes): nat
      requires Addr() < |img|
    {
      img[Addr()] / 16
    }

    function NameLength(img: bytes): (n: nat)
      requires Addr() < |img|
      ensures n <= 15
    {
      img[Addr()] % 16
    }

    function FileName(img: bytes): bytes
      requires Within(img)
    {
      Part(img, Addr() + 1, NameLength(img))
    }

    function FileType(img: bytes): byte
      requires Within(img)
    {
      img[Addr() + 16]
    }

    function KeyPointer(img: bytes): nat
      requires Within(img)
    {
      U16(img, Addr() + 17)
    }

    function Eof(img: bytes): nat
      requires Within(img)
    {
      U24(img, Addr() + 21)
    }

    predicate IsInactive(img: bytes)
      requires Addr() < |img|
    {
      StorageType(img) == NONE
    }

    predicate IsFile(img: bytes)
      requires Addr() < |img|
    {
      SEEDLING <= StorageType(img) <= TREE
    }

    predicate IsDirectory(img: bytes)
      requires Addr() < |img|
    {
      StorageType(img) == SUBDIRECTORY
    }

    predicate NameMatches(img: bytes, name: bytes)
      requires Within(img)
    {
      SameIgnoringCase(name, FileName(img))
    }
  }

  // ----- directory blocks and headers -----

  function NextBlock(img: bytes, b: nat): nat
    requires b < NumBlocks(img)
  {
    U16(img, 512 * b + 2)
  }

  /** The header is slot 0 of a directory's key block. */
  function Header(key: nat): EntryRef {
    EntryRef(key, 0)
  }

  function MinVersion(img: bytes, key: nat): byte
    requires key < NumBlocks(img)
  {
    img[Header(key).Addr() + 29]
  }

  function EntryLength(img: bytes, key: nat): byte
    requires key < NumBlocks(img)
  {
    img[Header(key).Addr() + 31]
  }

  function EntriesPerBlock(img: bytes, key: nat): byte
    requires key < NumBlocks(img)
  {
    img[Header(key).Addr() + 32]
  }

  function FileCount(img: bytes, key: nat): nat
    requires key < NumBlocks(img)
  {
    U16(img, Header(key).Addr() + 33)
  }

  function BitMapPointer(img: bytes, key: nat): nat
    requires key < NumBlocks(img)
  {
    U16(img, Header(key).Addr() + 35)
  }

  function TotalBlocks(img: bytes, key: nat): nat
    requires key < NumBlocks(img)
  {
    U16(img, Header(key).Addr() + 37)
  }

  /** A block may begin a directory when its header says volume or subdirectory. */
  predicate IsDirectoryKey(img: bytes, key: nat)
    requires key < NumBlocks(img)
  {
    var t := Header(key).StorageType(img);
    t == VOLUME_BLOCK || t == SUBDIR_BLOCK
  }

  // ----- names -----

  /** A legal ProDOS name: a letter, then letters, digits and dots, 15 at most. */
  predicate LegalName(name: bytes) {
    1 <= |name| <= 15 &&
    IsAlpha(name[0]) &&
    forall i :: 1 <= i < |name| ==> IsAlnum(name[i]) || name[i] == 0x2E
  }

  method IsValidName(name: bytes) returns (valid: bool)
    ensures valid <==> LegalName(name)
  {
    if |name| < 1 || |name| > 15 {
      return false;
    }
    if !IsAlpha(name[0]) {
      return false;
    }
    var i := 1;
    while i < |name|
      invariant 1 <= i <= |name|
      invariant forall j :: 1 <= j < i ==> IsAlnum(name[j]) || name[j] == 0x2E
    {
      if !IsAlnum(name[i]) && name[i] != 0x2E {
        return false;
      }
      i := i + 1;
    }
    return true;
  }
}
