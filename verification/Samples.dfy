/** A volume of 320 blocks, byte by byte, and what the code makes of it: a root directory of
    two blocks, a subdirectory of two, a seedling, a sapling and a tree, with block numbers
    above 255 in every kind of pointer. */
module Samples {
  import opened Bytes
  import opened Errors
  import opened Layout
  import opened DirectoryListing
  import opened Lookup
  import opened FileContents
  import opened FileTheorems
  import opened Mounting
  import opened OnDisk
  import opened Counterexamples

  // ----- the bytes -----

  /** Block 2, the root: header, DIR, SAP and TREE; block 305 follows and holds LAST. */
  ghost predicate HoldsRoot(img: bytes) {
    |img| == 163840 &&
    img[1024] == 0 && img[1025] == 0 && img[1026] == 0x31 && img[1027] == 0x01 &&
    img[1028] == 0xF6 && img[1057] == 0 && img[1059] == 39 && img[1060] == 13 && img[1061] == 4 && img[1062] == 0 &&
    img[1063] == 0x39 && img[1064] == 0x01 && img[1065] == 0x40 && img[1066] == 0x01 &&
    ZeroSlots(img, 2, 4, 14) &&
    img[156162] == 0 && img[156163] == 0
  }

  ghost predicate HoldsRootEntries(img: bytes) {
    |img| == 163840 && HoldsDir(img) && HoldsSap(img) && HoldsTree(img) && HoldsLast(img)
  }

  /** DIR, with key block 3. */
  ghost predicate HoldsDir(img: bytes)
    requires |img| == 163840
  {
    img[1067] == 0xD3 && img[1068] == 0x44 && img[1069] == 0x49 && img[1070] == 0x52 &&
    img[1084] == 3 && img[1085] == 0
  }

  /** SAP, with index block 7 and 600 bytes. */
  ghost predicate HoldsSap(img: bytes)
    requires |img| == 163840
  {
    img[1106] == 0x23 && img[1107] == 0x53 && img[1108] == 0x41 && img[1109] == 0x50 &&
    img[1123] == 7 && img[1124] == 0 && img[1127] == 0x58 && img[1128] == 0x02 && img[1129] == 0
  }

  /** TREE, with master index block 310 and 131594 bytes. */
  ghost predicate HoldsTree(img: bytes)
    requires |img| == 163840
  {
    img[1145] == 0x34 && img[1146] == 0x54 && img[1147] == 0x52 && img[1148] == 0x45 && img[1149] == 0x45 &&
    img[1162] == 0x36 && img[1163] == 0x01 && img[1166] == 0x0A && img[1167] == 0x02 && img[1168] == 0x02
  }

  /** LAST, in block 305: a text file with key block 306 and 3 bytes. */
  ghost predicate HoldsLast(img: bytes)
    requires |img| == 163840
  {
    img[156164] == 0x14 && img[156165] == 0x4C && img[156166] == 0x41 && img[156167] == 0x53 && img[156168] == 0x54 &&
    img[156180] == 0x04 && img[156181] == 0x32 && img[156182] == 0x01 &&
    img[156185] == 3 && img[156186] == 0 && img[156187] == 0
  }

  /** Blocks 3 and 300, the directory DIR: F with key block 9 and 5 bytes, and G. */
  ghost predicate HoldsDirectory(img: bytes) {
    |img| == 163840 &&
    img[1538] == 0x2C && img[1539] == 0x01 && img[1540] == 0xE3 &&
    img[1572] == 13 && img[1573] == 2 && img[1574] == 0 &&
    img[1579] == 0x11 && img[1580] == 0x46 && img[1596] == 9 && img[1597] == 0 &&
    img[1600] == 5 && img[1601] == 0 && img[1602] == 0 &&
    ZeroSlots(img, 3, 2, 14) &&
    img[153602] == 0 && img[153603] == 0 && img[153604] == 0x11 && img[153605] == 0x47
  }

  /** The files' index blocks, and some bytes of their data blocks. */
  ghost predicate HoldsFiles(img: bytes) {
    |img| == 163840 &&
    // F: HELLO
    img[4608] == 0x48 && img[4609] == 0x45 && img[4610] == 0x4C && img[4611] == 0x4C && img[4612] == 0x4F &&
    // LAST: HI and a CR, with the high bits set
    img[156672] == 0xC8 && img[156673] == 0xC9 && img[156674] == 0x8D &&
    // index block 7: data blocks 8 and 301
    img[3584] == 8 && img[3840] == 0 && img[3585] == 0x2D && img[3841] == 0x01 &&
    (forall i {:trigger img[3584 + i]} {:trigger img[3840 + i]} :: 2 <= i < 256 ==>
      img[3584 + i] == 0 && img[3840 + i] == 0) &&
    img[4096] == 0x41 && img[4607] == 0x43 && img[154112] == 0x42 && img[154199] == 0x44 &&
    // master index block 310: index blocks 7 and 303
    img[158720] == 7 && img[158976] == 0 && img[158721] == 0x2F && img[158977] == 0x01 &&
    // index block 303: a sparse block, and data block 304
    img[155136] == 0 && img[155392] == 0 && img[155137] == 0x30 && img[155393] == 0x01 &&
    (forall i {:trigger img[155136 + i]} {:trigger img[155392 + i]} :: 2 <= i < 256 ==>
      img[155136 + i] == 0 && img[155392 + i] == 0) &&
    img[155648] == 0x54 && img[155657] == 0x45
  }

  /** Block 313, the bitmap: the last eight blocks are free. */
  ghost predicate HoldsBitmap(img: bytes) {
    |img| == 163840 && img[160295] == 0xFF &&
    forall i {:trigger img[160256 + i]} :: 0 <= i < 320 && i != 39 ==> img[160256 + i] == 0
  }

  ghost predicate IsSample(img: bytes) {
    HoldsRoot(img) && HoldsRootEntries(img) && HoldsDirectory(img) && HoldsFiles(img) && HoldsBitmap(img)
  }

  lemma SampleMounts(img: bytes)
    requires HoldsRoot(img)
    ensures IsVolume(img) && Mount(img, None) == Ok(Mounted(img, false, false))
    ensures NextBlock(img, 2) == 305 && NextBlock(img, 305) == 0 && FileCount(img, 2) == 4
    ensures BitMapPointer(img, 2) == 313 && TotalBlocks(img, 2) == 320 == NumBlocks(img)
    ensures IsDirectoryKey(img, 2) && EntriesPerBlock(img, 2) == 13
  {
    VolumesMountUnchanged(img, None);
  }

  // ----- entries -----

  /** An entry that begins with these bytes. */
  lemma NameIs(img: bytes, ref: EntryRef, name: bytes)
    requires ref.Within(img) && |name| < 16 && img[ref.Addr()] % 16 == |name|
    requires forall i :: 0 <= i < |name| ==> img[ref.Addr() + 1 + i] == name[i]
    ensures ref.FileName(img) == name
  {
  }

  lemma Matches(name: bytes, component: bytes)
    requires 0 !in name && 0 !in component && |name| == |component|
    requires forall i :: 0 <= i < |name| ==> component[i] == name[i] || component[i] as int == name[i] as int + 0x20
    requires forall i :: 0 <= i < |name| ==> 0x41 <= name[i] <= 0x5A
    ensures SameIgnoringCase(component, name)
  {
    CStrOfNulFree(name);
    CStrOfNulFree(component);
    assert Upper(component) == Upper(name);
  }

  lemma Differs(name: bytes, component: bytes)
    requires 0 !in name && 0 !in component && |name| != |component|
    ensures !SameIgnoringCase(component, name)
  {
    CStrOfNulFree(name);
    CStrOfNulFree(component);
    assert |Upper(component)| == |component| && |Upper(name)| == |name|;
  }

  lemma RootEntries(img: bytes)
    requires HoldsRootEntries(img)
    ensures var dir, sap, tree, last := EntryRef(2, 1), EntryRef(2, 2), EntryRef(2, 3), EntryRef(305, 0);
      dir.Within(img) && sap.Within(img) && tree.Within(img) && last.Within(img) &&
      dir.IsDirectory(img) && dir.KeyPointer(img) == 3 && dir.FileName(img) == [0x44, 0x49, 0x52] &&
      sap.StorageType(img) == SAPLING && sap.KeyPointer(img) == 7 && sap.Eof(img) == 600 &&
      sap.FileName(img) == [0x53, 0x41, 0x50] &&
      tree.StorageType(img) == TREE && tree.KeyPointer(img) == 310 && tree.Eof(img) == 131594 &&
      tree.FileName(img) == [0x54, 0x52, 0x45, 0x45] &&
      last.StorageType(img) == SEEDLING && last.KeyPointer(img) == 306 && last.Eof(img) == 3 &&
      last.FileType(img) == 4 && last.FileName(img) == [0x4C, 0x41, 0x53, 0x54]
  {
    NameIs(img, EntryRef(2, 1), [0x44, 0x49, 0x52]);
    NameIs(img, EntryRef(2, 2), [0x53, 0x41, 0x50]);
    NameIs(img, EntryRef(2, 3), [0x54, 0x52, 0x45, 0x45]);
    NameIs(img, EntryRef(305, 0), [0x4C, 0x41, 0x53, 0x54]);
  }

  lemma DirectoryEntries(img: bytes)
    requires HoldsDirectory(img)
    ensures var f, g := EntryRef(3, 1), EntryRef(300, 0);
      f.Within(img) && g.Within(img) && g.StorageType(img) == SEEDLING && g.FileName(img) == [0x47] &&
      f.StorageType(img) == SEEDLING && f.KeyPointer(img) == 9 && f.Eof(img) == 5 && f.FileName(img) == [0x46]
    ensures IsDirectoryKey(img, 3) && EntriesPerBlock(img, 3) == 13 && FileCount(img, 3) == 2
    ensures NextBlock(img, 3) == 300 && NextBlock(img, 300) == 0
  {
    NameIs(img, EntryRef(3, 1), [0x46]);
    NameIs(img, EntryRef(300, 0), [0x47]);
  }

  // ----- listings -----

  /** Slots `slot` .. 13 of a block are empty, so the cursor goes on in the next block. */
  lemma OnToNext(img: bytes, block: nat, slot: nat, steps: nat)
    requires block < NumBlocks(img) && HasNext(img, block) && steps > 0
    requires slot <= 13 && ZeroSlots(img, block, slot, 14)
    ensures Scan(img, 13, block, slot, steps) == Scan(img, 13, NextBlock(img, block), 0, steps - 1)
  {
    ZerosAreEmpty(img, block, slot, 14);
    PassEmpty(img, block, slot, 13, steps);
    ScanOn(img, block, steps);
  }

  lemma UptoEntry(view: View, count: nat)
    requires view.Entry? && count > 0
    ensures Upto(view, count) == Entry(view.ref, Upto(view.rest, count - 1))
  {
  }

  lemma RootListing(img: bytes)
    requires HoldsRoot(img) && HoldsRootEntries(img)
    ensures DirectoryView(img, 2) ==
      Entry(EntryRef(2, 1), Entry(EntryRef(2, 2), Entry(EntryRef(2, 3), Entry(EntryRef(305, 0), End(None)))))
  {
    SampleMounts(img);
    RootEntries(img);
    var n := Horizon(img, 2);
    ScanStep(img, 2, 1, n);
    ScanStep(img, 2, 2, n);
    ScanStep(img, 2, 3, n);
    OnToNext(img, 2, 4, n);
    ScanStep(img, 305, 0, n - 1);
    UptoEntry(Scan(img, 13, 2, 1, n), 4);
    UptoEntry(Scan(img, 13, 2, 2, n), 3);
    UptoEntry(Scan(img, 13, 2, 3, n), 2);
    UptoEntry(Scan(img, 13, 305, 0, n - 1), 1);
  }

  lemma DirectoryListed(img: bytes)
    requires HoldsDirectory(img)
    ensures DirectoryView(img, 3) == Entry(EntryRef(3, 1), Entry(EntryRef(300, 0), End(None)))
  {
    DirectoryEntries(img);
    var n := Horizon(img, 3);
    ScanStep(img, 3, 1, n);
    OnToNext(img, 3, 2, n);
    ScanStep(img, 300, 0, n - 1);
    UptoEntry(Scan(img, 13, 3, 1, n), 2);
    UptoEntry(Scan(img, 13, 300, 0, n - 1), 1);
  }

  // ----- lookups -----

  /** "/dir/F" and "/DIR/g", whatever the case. */
  lemma FirstFileIsFound(img: bytes, dir: bytes, f: byte)
    requires HoldsRoot(img) && HoldsRootEntries(img) && HoldsDirectory(img)
    requires |dir| == 3 && (dir == [0x64, 0x69, 0x72] || dir == [0x44, 0x49, 0x52]) && (f == 0x46 || f == 0x66)
    ensures Resolve(img, 2, [dir, [f]], 0) == Found(EntryRef(3, 1))
  {
    InDirectory(img, dir, [f]);
    DirectoryEntries(img);
    Matches([0x46], [f]);
  }

  lemma SecondFileIsFound(img: bytes, dir: bytes, g: byte)
    requires HoldsRoot(img) && HoldsRootEntries(img) && HoldsDirectory(img)
    requires |dir| == 3 && (dir == [0x64, 0x69, 0x72] || dir == [0x44, 0x49, 0x52]) && (g == 0x47 || g == 0x67)
    ensures Resolve(img, 2, [dir, [g]], 0) == Found(EntryRef(300, 0))
  {
    InDirectory(img, dir, [g]);
    DirectoryEntries(img);
    Matches([0x47], [g]);
    assert !SameIgnoringCase([g], [0x46]) by {
      CStrOfNulFree([g]);
      CStrOfNulFree([0x46]);
      assert Upper([g])[0] == 0x47 && Upper([0x46])[0] == 0x46;
    }
    var path, last := [dir, [g]], Entry(EntryRef(300, 0), End(None));
    assert path[1] == [g];
    assert Search(img, Entry(EntryRef(3, 1), last), path, 1) == Search(img, last, path, 1);
    assert Search(img, last, path, 1) == Enter(img, EntryRef(300, 0), path, 1);
  }

  /** The way into the directory. */
  lemma InDirectory(img: bytes, dir: bytes, name: bytes)
    requires HoldsRoot(img) && HoldsRootEntries(img) && HoldsDirectory(img)
    requires |dir| == 3 && (dir == [0x64, 0x69, 0x72] || dir == [0x44, 0x49, 0x52])
    ensures Resolve(img, 2, [dir, name], 0) ==
      Search(img, Entry(EntryRef(3, 1), Entry(EntryRef(300, 0), End(None))), [dir, name], 1)
  {
    SampleMounts(img);
    RootListing(img);
    RootEntries(img);
    DirectoryListed(img);
    DirectoryEntries(img);
    Matches([0x44, 0x49, 0x52], dir);
    assert Resolve(img, 2, [dir, name], 0) == Enter(img, EntryRef(2, 1), [dir, name], 0);
  }

  /** "/LAST" comes behind three entries that do not match, in the second block. */
  lemma LastIsFound(img: bytes)
    requires HoldsRoot(img) && HoldsRootEntries(img)
    ensures Resolve(img, 2, [[0x6C, 0x61, 0x73, 0x74]], 0) == Found(EntryRef(305, 0))
  {
    SampleMounts(img);
    RootListing(img);
    RootEntries(img);
    var path := [[0x6C, 0x61, 0x73, 0x74]];
    Differs([0x44, 0x49, 0x52], path[0]);
    Differs([0x53, 0x41, 0x50], path[0]);
    assert !SameIgnoringCase(path[0], [0x54, 0x52, 0x45, 0x45]) by {
      CStrOfNulFree(path[0]);
      CStrOfNulFree([0x54, 0x52, 0x45, 0x45]);
      assert Upper(path[0])[0] == 0x4C && Upper([0x54, 0x52, 0x45, 0x45])[0] == 0x54;
    }
    Matches([0x4C, 0x41, 0x53, 0x54], path[0]);
    var four := Entry(EntryRef(305, 0), End(None));
    var three := Entry(EntryRef(2, 3), four);
    var two := Entry(EntryRef(2, 2), three);
    assert Search(img, Entry(EntryRef(2, 1), two), path, 0) == Search(img, two, path, 0);
    assert Search(img, two, path, 0) == Search(img, three, path, 0);
    assert Search(img, three, path, 0) == Search(img, four, path, 0);
    assert Search(img, four, path, 0) == Enter(img, EntryRef(305, 0), path, 0);
  }

  // ----- files -----

  /** The pointers of the two index blocks and of the master index block. */
  lemma SamplePointers(img: bytes)
    requires HoldsFiles(img)
    ensures Pointer(img, 7, 0) == 8 && Pointer(img, 7, 1) == 301
    ensures Pointer(img, 310, 0) == 7 && Pointer(img, 310, 1) == 303
    ensures Pointer(img, 303, 0) == 0 && Pointer(img, 303, 1) == 304
    ensures forall i :: 2 <= i < 256 ==> Pointer(img, 7, i) == 0 && Pointer(img, 303, i) == 0
  {
    forall i | 2 <= i < 256 ensures Pointer(img, 7, i) == 0 && Pointer(img, 303, i) == 0 {
      assert img[3584 + i] == 0 && img[3840 + i] == 0 && img[155136 + i] == 0 && img[155392 + i] == 0;
      PointerBytes(img, 7, i, 0);
      PointerBytes(img, 303, i, 0);
    }
  }

  lemma SampleFilesAreWellFormed(img: bytes)
    requires HoldsRootEntries(img) && HoldsFiles(img)
    ensures IsFileEntry(img, EntryRef(2, 2)) && WellFormedFile(img, EntryRef(2, 2))
    ensures IsFileEntry(img, EntryRef(2, 3)) && WellFormedFile(img, EntryRef(2, 3))
  {
    RootEntries(img);
    SamplePointers(img);
    SmallPointersLead(img, 7);
    SmallPointersLead(img, 303);
  }

  lemma SmallPointersLead(img: bytes, index: nat)
    requires HoldsFiles(img) && (index == 7 || index == 303)
    ensures forall i :: 0 <= i < 256 ==> Leads(img, index, i)
  {
    SamplePointers(img);
    forall i | 0 <= i < 256 ensures Leads(img, index, i) {
      assert i >= 2 ==> Pointer(img, index, i) == 0;
    }
  }

  /** The sapling's 600 bytes come from blocks 8 and 301. */
  lemma SaplingSample(img: bytes) returns (contents: bytes)
    requires HoldsRootEntries(img) && HoldsFiles(img)
    ensures IsFileEntry(img, EntryRef(2, 2)) && contents == Contents(img, EntryRef(2, 2)) && |contents| == 600
    ensures contents[0] == 0x41 && contents[511] == 0x43 && contents[512] == 0x42 && contents[599] == 0x44
  {
    RootEntries(img);
    contents := SaplingContents(img);
    assert img[4096 + 0] == 0x41 && img[4096 + 511] == 0x43;
  }

  lemma SaplingContents(img: bytes) returns (contents: bytes)
    requires HoldsRootEntries(img) && HoldsFiles(img)
    ensures IsFileEntry(img, EntryRef(2, 2)) && contents == Contents(img, EntryRef(2, 2)) && |contents| == 600
    ensures forall o: nat {:trigger contents[o]} :: o < 600 ==>
      contents[o] == if o < 512 then img[4096 + o] else img[154112 + (o - 512)]
  {
    var ref := EntryRef(2, 2);
    RootEntries(img);
    ContentsLength(img, ref);
    contents := Contents(img, ref);
    forall o: nat | o < 600 ensures contents[o] == if o < 512 then img[4096 + o] else img[154112 + (o - 512)] {
      SaplingByte(img, o);
    }
  }

  lemma SaplingByte(img: bytes, o: nat)
    requires HoldsRootEntries(img) && HoldsFiles(img) && o < 600
    ensures IsFileEntry(img, EntryRef(2, 2)) && o < |Contents(img, EntryRef(2, 2))|
    ensures Contents(img, EntryRef(2, 2))[o] == if o < 512 then img[4096 + o] else img[154112 + (o - 512)]
  {
    var ref := EntryRef(2, 2);
    RootEntries(img);
    SamplePointers(img);
    assert Follow(img, 7, o / 512) == Ok(if o < 512 then 8 else 301);
    assert Locate(img, ref, o) == Ok(if o < 512 then 8 else 301);
    LookupFindsContents(img, ref, o);
  }

  /** The tree's bytes come from the same blocks, from a sparse block, and from block 304. */
  lemma TreeSample(img: bytes) returns (contents: bytes)
    requires HoldsRootEntries(img) && HoldsFiles(img)
    ensures IsFileEntry(img, EntryRef(2, 3)) && contents == Contents(img, EntryRef(2, 3)) && |contents| == 131594
    ensures contents[0] == 0x41 && contents[512] == 0x42 && contents[131072] == 0
    ensures contents[131584] == 0x54 && contents[131593] == 0x45
  {
    contents := TreeContents(img);
    TreeSampleBytes(img, contents);
  }

  lemma TreeSampleBytes(img: bytes, contents: bytes)
    requires HoldsRootEntries(img) && HoldsFiles(img) && |contents| == 131594 && IsTreeContents(img, contents)
    ensures contents[0] == 0x41 && contents[512] == 0x42 && contents[131072] == 0
    ensures contents[131584] == 0x54 && contents[131593] == 0x45
  {
    SamplePointers(img);
    TreeByte(img, contents, 0, 7, 8);
    TreeByte(img, contents, 512, 7, 301);
    TreeByte(img, contents, 131072, 303, 0);
    TreeByte(img, contents, 131584, 303, 304);
    TreeByte(img, contents, 131593, 303, 304);
  }

  lemma TreeContents(img: bytes) returns (contents: bytes)
    requires HoldsRootEntries(img)
    ensures IsFileEntry(img, EntryRef(2, 3)) && contents == Contents(img, EntryRef(2, 3)) && |contents| == 131594
    ensures EntryRef(2, 3).Eof(img) == 131594 && IsTreeContents(img, contents)
  {
    RootEntries(img);
    ContentsLength(img, EntryRef(2, 3));
    contents := Contents(img, EntryRef(2, 3));
    forall o: nat {:trigger FileByte(img, EntryRef(2, 3), o)} | o < |contents| && Locate(img, EntryRef(2, 3), o).Ok?
      ensures contents[o] == FileByte(img, EntryRef(2, 3), o)
    {
      LookupFindsContents(img, EntryRef(2, 3), o);
    }
  }

  ghost predicate IsTreeContents(img: bytes, contents: bytes) {
    IsFileEntry(img, EntryRef(2, 3)) && EofFits(img, EntryRef(2, 3)) &&
    forall o: nat {:trigger FileByte(img, EntryRef(2, 3), o)} ::
      o < |contents| && Locate(img, EntryRef(2, 3), o).Ok? ==> contents[o] == FileByte(img, EntryRef(2, 3), o)
  }

  lemma TreeByte(img: bytes, contents: bytes, o: nat, index: nat, block: nat)
    requires HoldsRootEntries(img) && |contents| == 131594 && IsTreeContents(img, contents) && o < 131594
    requires index == Pointer(img, 310, o / 131072) < 320 && block == Pointer(img, index, o % 131072 / 512) < 320
    ensures contents[o] == if block == 0 then 0 else img[512 * block + o % 512]
  {
    var ref := EntryRef(2, 3);
    RootEntries(img);
    assert Follow(img, 310, o / 131072) == Ok(index);
    assert Follow(img, index, o % 131072 / 512) == Ok(block);
    assert Locate(img, ref, o) == Ok(block);
    assert FileByte(img, ref, o) == ByteOf(img, block, o % 512);
  }

  /** The seedlings. */
  lemma SeedlingSamples(img: bytes)
    requires HoldsRootEntries(img) && HoldsDirectory(img) && HoldsFiles(img)
    ensures var f, last := EntryRef(3, 1), EntryRef(305, 0);
      IsFileEntry(img, f) && WellFormedFile(img, f) && Contents(img, f) == [0x48, 0x45, 0x4C, 0x4C, 0x4F] &&
      IsFileEntry(img, last) && WellFormedFile(img, last) && Contents(img, last) == [0xC8, 0xC9, 0x8D]
  {
    RootEntries(img);
    DirectoryEntries(img);
    var f, last := EntryRef(3, 1), EntryRef(305, 0);
    ContentsLength(img, f);
    ContentsLength(img, last);
    forall o | 0 <= o < 5 ensures Contents(img, f)[o] == img[4608 + o] {
      assert Contents(img, f)[o] == ByteOf(img, 9, o);
    }
    forall o | 0 <= o < 3 ensures Contents(img, last)[o] == img[156672 + o] {
      assert Contents(img, last)[o] == ByteOf(img, 306, o);
    }
    assert img[4608 + 0] == 0x48 && img[156672 + 0] == 0xC8;
    assert Contents(img, f) == [0x48, 0x45, 0x4C, 0x4C, 0x4F];
    assert Contents(img, last) == [0xC8, 0xC9, 0x8D];
  }

  // ----- there is such a volume -----

  function RootByte(o: nat): byte {
    if o == 2 then 0x31 else if o == 3 then 0x01 else if o == 4 then 0xF6 else if o == 5 then 0x53
    else if o == 6 then 0x41 else if o == 7 then 0x4D else if o == 8 then 0x50 else if o == 9 then 0x4C
    else if o == 10 then 0x45 else if o == 35 then 0x27 else if o == 36 then 0x0D else if o == 37 then 0x04
    else if o == 39 then 0x39 else if o == 40 then 0x01 else if o == 41 then 0x40 else if o == 42 then 0x01
    else if o == 43 then 0xD3 else if o == 44 then 0x44 else if o == 45 then 0x49 else if o == 46 then 0x52
    else if o == 60 then 0x03 else if o == 82 then 0x23 else if o == 83 then 0x53 else if o == 84 then 0x41
    else if o == 85 then 0x50 else if o == 99 then 0x07 else if o == 103 then 0x58 else if o == 104 then 0x02
    else if o == 121 then 0x34 else if o == 122 then 0x54 else if o == 123 then 0x52 else if o == 124 then 0x45
    else if o == 125 then 0x45 else if o == 138 then 0x36 else if o == 139 then 0x01 else if o == 142 then 0x0A
    else if o == 143 then 0x02 else if o == 144 then 0x02 else 0
  }

  function DirectoryByte(o: nat): byte {
    if o == 2 then 0x2C else if o == 3 then 0x01 else if o == 4 then 0xE3 else if o == 36 then 0x0D
    else if o == 37 then 0x02 else if o == 43 then 0x11 else if o == 44 then 0x46 else if o == 60 then 0x09
    else if o == 64 then 0x05 else 0
  }

  function IndexByte(o: nat): byte {
    if o == 0 then 0x08 else if o == 1 then 0x2D else if o == 257 then 0x01 else 0
  }

  function FirstByte(o: nat): byte {
    if o == 0 then 0x41 else if o == 511 then 0x43 else 0
  }

  function HelloByte(o: nat): byte {
    if o == 0 then 0x48 else if o == 1 then 0x45 else if o == 2 then 0x4C else if o == 3 then 0x4C
    else if o == 4 then 0x4F else 0
  }

  function DirectoryEndByte(o: nat): byte {
    if o == 4 then 0x11 else if o == 5 then 0x47 else 0
  }

  function SecondByte(o: nat): byte {
    if o == 0 then 0x42 else if o == 87 then 0x44 else 0
  }

  function SparseIndexByte(o: nat): byte {
    if o == 1 then 0x30 else if o == 257 then 0x01 else 0
  }

  function ThirdByte(o: nat): byte {
    if o == 0 then 0x54 else if o == 9 then 0x45 else 0
  }

  function RootEndByte(o: nat): byte {
    if o == 4 then 0x14 else if o == 5 then 0x4C else if o == 6 then 0x41 else if o == 7 then 0x53
    else if o == 8 then 0x54 else if o == 20 then 0x04 else if o == 21 then 0x32 else if o == 22 then 0x01
    else if o == 25 then 0x03 else 0
  }

  function TextByte(o: nat): byte {
    if o == 0 then 0xC8 else if o == 1 then 0xC9 else if o == 2 then 0x8D else 0
  }

  function MasterByte(o: nat): byte {
    if o == 0 then 0x07 else if o == 1 then 0x2F else if o == 257 then 0x01 else 0
  }

  function BitmapByte(o: nat): byte {
    if o == 39 then 0xFF else 0
  }

  function SampleByte(b: nat, o: nat): byte {
    if b == 2 then RootByte(o) else if b == 3 then DirectoryByte(o) else if b == 7 then IndexByte(o)
    else if b == 8 then FirstByte(o) else if b == 9 then HelloByte(o) else if b == 300 then DirectoryEndByte(o)
    else if b == 301 then SecondByte(o) else if b == 303 then SparseIndexByte(o)
    else if b == 304 then ThirdByte(o) else if b == 305 then RootEndByte(o) else if b == 306 then TextByte(o)
    else if b == 310 then MasterByte(o) else if b == 313 then BitmapByte(o) else 0
  }

  function SampleVolume(): (img: bytes)
    ensures |img| == 163840
    ensures forall i: nat {:trigger img[i]} :: i < 163840 ==> img[i] == SampleByte(i / 512, i % 512)
  {
    seq<byte>(163840, i requires 0 <= i < 163840 => SampleByte(i / 512, i % 512))
  }

  lemma SampleRoot(img: bytes)
    requires img == SampleVolume()
    ensures HoldsRoot(img)
  {
  }

  lemma SampleDir(img: bytes)
    requires img == SampleVolume()
    ensures HoldsDir(img)
  {
  }

  lemma SampleSap(img: bytes)
    requires img == SampleVolume()
    ensures HoldsSap(img)
  {
  }

  lemma SampleTree(img: bytes)
    requires img == SampleVolume()
    ensures HoldsTree(img)
  {
  }

  lemma SampleLast(img: bytes)
    requires img == SampleVolume()
    ensures HoldsLast(img)
  {
  }

  lemma SampleBitmap(img: bytes)
    requires img == SampleVolume()
    ensures HoldsBitmap(img)
  {
  }

  lemma SampleDirectory(img: bytes)
    requires img == SampleVolume()
    ensures HoldsDirectory(img)
  {
  }

  lemma SampleFiles(img: bytes)
    requires img == SampleVolume()
    ensures HoldsFiles(img)
  {
  }

  lemma SampleExists()
    ensures IsSample(SampleVolume())
  {
    SampleRoot(SampleVolume());
    SampleDir(SampleVolume());
    SampleSap(SampleVolume());
    SampleTree(SampleVolume());
    SampleLast(SampleVolume());
    SampleBitmap(SampleVolume());
    SampleDirectory(SampleVolume());
    SampleFiles(SampleVolume());
  }
}
