/** What a standard file contains. Two views: Locate finds the data block of one position
    through the index blocks (ProDOS 8 Technical Reference Manual, section B.3.7, Locating
    a Byte in a Standard File); Contents lays all the data blocks out in a row. A pointer
    of 0 stands for a block of zeros (section B.3.6, Sparse Files). */
module FileContents {
  import opened Bytes
  import opened Arithmetic
  import opened Errors
  import opened Layout

  /** volume_t::GetBlock: pointer 0 is the constant zero block. */
  function GetBlock(img: bytes, pointer: nat): Outcome<nat> {
    if pointer == 0 || pointer < NumBlocks(img) then Ok(pointer) else Threw(InvalidBlockNumber)
  }

  /** Byte `k` of the block behind a pointer. */
  function ByteOf(img: bytes, pointer: nat, k: nat): byte
    requires k < 512
  {
    if 0 < pointer < NumBlocks(img) then img[512 * pointer + k] else 0
  }

  /** The contents of the block behind a pointer. */
  function BlockBytes(img: bytes, pointer: nat): (b: bytes)
    ensures |b| == 512 && forall k :: 0 <= k < 512 ==> b[k] == ByteOf(img, pointer, k)
  {
    seq(512, k requires 0 <= k < 512 => ByteOf(img, pointer, k))
  }

  /** Pointer `i` of an index block: low bytes first, then high bytes. */
  function Pointer(img: bytes, index: nat, i: nat): (p: nat)
    requires i < 256
    ensures p < 0x10000
  {
    var low: int, high: int := ByteOf(img, index, i), ByteOf(img, index, 256 + i);
    high * 0x100 + low
  }

  /** index_block_t::At */
  function At(img: bytes, index: nat, i: nat): Outcome<nat> {
    if i < 256 then Ok(Pointer(img, index, i)) else Threw(InvalidIndex)
  }

  /** The block behind pointer `i` of an index block. */
  function Follow(img: bytes, index: nat, i: nat): Outcome<nat> {
    match At(img, index, i)
    case Threw(f) => Threw(f)
    case Ok(p) => GetBlock(img, p)
  }

  predicate IsFileEntry(img: bytes, entry: EntryRef) {
    entry.Within(img) && entry.IsFile(img)
  }

  /** The index block for position `o` of a sapling or a tree. */
  function LocateIndex(img: bytes, entry: EntryRef, o: nat): Outcome<nat>
    requires IsFileEntry(img, entry) && entry.StorageType(img) != SEEDLING
  {
    match GetBlock(img, entry.KeyPointer(img))
    case Threw(f) => Threw(f)
    case Ok(key) =>
      if entry.StorageType(img) == SAPLING then Ok(key) else Follow(img, key, o / 131072)
  }

  /** Position `o` relative to its index block. */
  function IndexOffset(img: bytes, entry: EntryRef, o: nat): nat
    requires IsFileEntry(img, entry)
  {
    if entry.StorageType(img) == TREE then o % 131072 else o
  }

  /** The data block for position `o`, or the exception that looking for it throws. */
  function Locate(img: bytes, entry: EntryRef, o: nat): (r: Outcome<nat>)
    requires IsFileEntry(img, entry)
  {
    if entry.StorageType(img) == SEEDLING then GetBlock(img, entry.KeyPointer(img)) else
      match LocateIndex(img, entry, o)
      case Threw(f) => Threw(f)
      case Ok(index) => Follow(img, index, IndexOffset(img, entry, o) / 512)
  }

  /** The byte of the data block that position `o` maps to (0 if it maps to none). */
  function FileByte(img: bytes, entry: EntryRef, o: nat): byte
    requires IsFileEntry(img, entry)
  {
    match Locate(img, entry, o)
    case Ok(block) => ByteOf(img, block, o % 512)
    case Threw(_) => 0
  }

  /** The data block of every position, the end of file included. */
  function FileMap(img: bytes, entry: EntryRef): (m: seq<Outcome<nat>>)
    requires IsFileEntry(img, entry)
    ensures |m| == entry.Eof(img) + 1
    ensures forall o: nat {:trigger Locate(img, entry, o)} :: o < |m| ==> m[o] == Locate(img, entry, o)
  {
    seq(entry.Eof(img) + 1, o requires 0 <= o <= entry.Eof(img) => Locate(img, entry, o))
  }

  /** All the bytes that the file's positions map to. */
  function FileBytes(img: bytes, entry: EntryRef): (b: bytes)
    requires IsFileEntry(img, entry)
    ensures |b| == entry.Eof(img)
    ensures forall o: nat {:trigger FileByte(img, entry, o)} :: o < |b| ==> b[o] == FileByte(img, entry, o)
  {
    seq(entry.Eof(img), o requires 0 <= o < entry.Eof(img) => FileByte(img, entry, o))
  }

  // ----- the file laid out -----

  function Join(parts: seq<bytes>): bytes {
    if parts == [] then [] else parts[0] + Join(parts[1..])
  }

  /** A row of parts of one width: part o / width holds position o. */
  lemma {:induction false} JoinAt(parts: seq<bytes>, width: nat, o: nat)
    requires width > 0 && forall i :: 0 <= i < |parts| ==> |parts[i]| == width
    ensures |Join(parts)| == |parts| * width
    ensures o < |parts| * width ==> o / width < |parts| && Join(parts)[o] == parts[o / width][o % width]
  {
    if parts == [] {
      assert |parts| * width == 0;
    } else {
      var rest := parts[1..];
      assert |parts| * width == |rest| * width + width;
      if o < width {
        JoinAt(rest, width, 0);
        DivisionIsUnique(o, 0, width, o);
      } else {
        JoinAt(rest, width, o - width);
        StepBack(o, width);
        assert o - width < |rest| * width ==> parts[o / width] == rest[(o - width) / width];
      }
    }
  }

  /** The 128K a sapling's index block describes. */
  function SaplingBytes(img: bytes, index: nat): bytes {
    Join(seq(256, i requires 0 <= i < 256 => BlockBytes(img, Pointer(img, index, i))))
  }

  /** The 32M a tree's master index block describes. */
  function TreeBytes(img: bytes, master: nat): bytes {
    Join(seq(256, i requires 0 <= i < 256 => SaplingBytes(img, Pointer(img, master, i))))
  }

  /** The file, from its first byte to its end-of-file mark. */
  function Contents(img: bytes, entry: EntryRef): bytes
    requires IsFileEntry(img, entry)
  {
    var all := if entry.StorageType(img) == SEEDLING then BlockBytes(img, entry.KeyPointer(img))
               else if entry.StorageType(img) == SAPLING then SaplingBytes(img, entry.KeyPointer(img))
               else TreeBytes(img, entry.KeyPointer(img));
    all[..Min(entry.Eof(img), |all|)]
  }

  lemma SaplingAt(img: bytes, index: nat, o: nat)
    requires o < 131072
    ensures |SaplingBytes(img, index)| == 131072
    ensures SaplingBytes(img, index)[o] == ByteOf(img, Pointer(img, index, o / 512), o % 512)
  {
    JoinAt(seq(256, i requires 0 <= i < 256 => BlockBytes(img, Pointer(img, index, i))), 512, o);
  }

  lemma TreePartAt(img: bytes, master: nat, o: nat)
    requires o < 256 * 131072
    ensures |TreeBytes(img, master)| == 256 * 131072
    ensures |SaplingBytes(img, Pointer(img, master, o / 131072))| == 131072
    ensures TreeBytes(img, master)[o] ==
      SaplingBytes(img, Pointer(img, master, o / 131072))[o % 131072]
  {
    var parts := seq(256, i requires 0 <= i < 256 => SaplingBytes(img, Pointer(img, master, i)));
    forall i | 0 <= i < 256 ensures |parts[i]| == 131072 {
      SaplingAt(img, Pointer(img, master, i), 0);
    }
    JoinAt(parts, 131072, o);
  }

  lemma TreeAt(img: bytes, master: nat, o: nat)
    requires o < 256 * 131072
    ensures |TreeBytes(img, master)| == 256 * 131072
    ensures var index := Pointer(img, master, o / 131072);
      var within := o % 131072;
      TreeBytes(img, master)[o] == ByteOf(img, Pointer(img, index, within / 512), o % 512)
  {
    TreePartAt(img, master, o);
    var within := o % 131072;
    SaplingAt(img, Pointer(img, master, o / 131072), within);
    assert within % 512 == o % 512;
  }

  /** The end-of-file mark that the storage type can reach. */
  predicate EofFits(img: bytes, entry: EntryRef)
    requires IsFileEntry(img, entry)
  {
    (entry.StorageType(img) == SEEDLING ==> entry.Eof(img) <= 512) &&
    (entry.StorageType(img) == SAPLING ==> entry.Eof(img) <= 131072)
  }

  lemma ContentsLength(img: bytes, entry: EntryRef)
    requires IsFileEntry(img, entry)
    ensures |Contents(img, entry)| == entry.Eof(img) <==> EofFits(img, entry)
  {
    SaplingAt(img, entry.KeyPointer(img), 0);
    TreeAt(img, entry.KeyPointer(img), 0);
  }

  /** The lookup through index blocks finds exactly the bytes of the laid-out file. */
  lemma LookupFindsContents(img: bytes, entry: EntryRef, o: nat)
    requires IsFileEntry(img, entry) && EofFits(img, entry)
    requires o < entry.Eof(img) && Locate(img, entry, o).Ok?
    ensures o < |Contents(img, entry)|
    ensures Contents(img, entry)[o] == FileByte(img, entry, o)
  {
    var key := entry.KeyPointer(img);
    ContentsLength(img, entry);
    if entry.StorageType(img) == SAPLING {
      SaplingAt(img, key, o);
      assert Follow(img, key, o / 512) == Locate(img, entry, o);
    } else if entry.StorageType(img) == TREE {
      TreeAt(img, key, o);
      var index := Pointer(img, key, o / 131072);
      assert LocateIndex(img, entry, o) == Ok(index);
      assert Follow(img, index, o % 131072 / 512) == Locate(img, entry, o);
    }
  }
}
