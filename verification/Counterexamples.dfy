/** Volumes that mount, and on which the code does not do what it means to. Each is the
    volume of eight blocks with an empty root, with a few bytes changed. */
module Counterexamples {
  import opened Bytes
  import opened Arithmetic
  import opened Errors
  import opened Layout
  import opened DirectoryListing
  import opened Circles
  import opened Lookup
  import opened FileContents
  import opened FileTheorems
  import opened Files
  import opened Discovery
  import opened Mounting
  import opened Bitmap
  import opened Volumes

  type Patch = map<nat, byte>

  /** The small volume with some bytes changed. */
  function Patched(patch: Patch): (img: bytes)
    ensures |img| == 4096
    ensures forall i: nat {:trigger img[i]} :: i < 4096 ==> img[i] == if i in patch then patch[i] else SmallVolume()[i]
  {
    seq<byte>(4096, i requires 0 <= i < 4096 => if i in patch then patch[i] else SmallVolume()[i])
  }

  /** No patched byte is one that the mounting checks look at. */
  predicate KeepsChecks(patch: Patch) {
    forall i :: i in patch ==> i !in {1024, 1025, 1028, 1057, 1059, 1060, 1065, 1066}
  }

  lemma PatchedMounts(patch: Patch)
    requires KeepsChecks(patch)
    ensures IsVolume(Patched(patch)) && IsDirectoryKey(Patched(patch), 2) && EntriesPerBlock(Patched(patch), 2) == 13
  {
    var small, img := SmallVolume(), Patched(patch);
    assert img[1024] == small[1024] && img[1025] == small[1025] && img[1028] == small[1028];
    assert img[1057] == small[1057] && img[1059] == small[1059] && img[1060] == small[1060];
    assert img[1065] == small[1065] && img[1066] == small[1066];
  }

  // ----- counting blocks -----

  /** The bit behind the last block's is set. */
  const PADDED: Patch := map[1 := 0x80]

  lemma PaddingIsCounted()
    ensures var img := Patched(PADDED);
      var bits := BitmapBytes(img, BitMapPointer(img, 2));
      IsVolume(img) && BitmapFits(BitMapPointer(img, 2), 8) && |bits| == 8 &&
      8 - PopSum(bits, 8) != ClearBits(bits, 8)
  {
    PatchedMounts(PADDED);
    var img := Patched(PADDED);
    assert img[1] == 0x80 && img[1063] == 0 && img[1064] == 0;
    PaddingBit(img, BitmapBytes(img, 0));
  }

  lemma PaddingBit(img: bytes, bits: bytes)
    requires |img| == 4096 && img[1] == 0x80 && bits == BitmapBytes(img, 0)
    ensures |bits| == 8 && 8 - PopSum(bits, 8) != ClearBits(bits, 8)
  {
    assert bits[1] == 0x80;
    assert Shifted(0x80, 3) == 16;
    assert Bit(bits, 8) == 1;
    CountIsRightIffRestClear(bits, 8);
  }

  // ----- listing directories -----

  /** Slots `slot` .. `stop` - 1 of a block are empty. */
  ghost predicate Empty(img: bytes, block: nat, slot: nat, stop: nat) {
    forall s: nat :: slot <= s < stop ==> EntryRef(block, s).Addr() < |img| && EntryRef(block, s).IsInactive(img)
  }

  lemma {:induction false} PassEmpty(img: bytes, block: nat, slot: nat, stop: nat, steps: nat)
    requires block < NumBlocks(img) && slot <= stop <= 13 && Empty(img, block, slot, stop)
    ensures Scan(img, 13, block, slot, steps) == Scan(img, 13, block, stop, steps)
    decreases stop - slot
  {
    if slot < stop {
      ScanStep(img, block, slot, steps);
      PassEmpty(img, block, slot + 1, stop, steps);
    }
  }

  lemma {:induction false} EmptyIsSilent(img: bytes, block: nat, slot: nat)
    requires slot <= 13 && Empty(img, block, slot, 14)
    ensures Silent(img, 13, block, slot)
    decreases 13 - slot
  {
    if slot < 13 {
      EmptyIsSilent(img, block, slot + 1);
    }
  }

  /** A zero at the beginning of each of these slots. */
  ghost predicate ZeroSlots(img: bytes, block: nat, from: nat, stop: nat) {
    512 * block + 512 <= |img| && stop <= 14 && forall s: nat :: from <= s < stop ==> img[512 * block + 4 + 39 * s] == 0
  }

  lemma ZerosAreEmpty(img: bytes, block: nat, from: nat, stop: nat)
    requires ZeroSlots(img, block, from, stop)
    ensures Empty(img, block, from, stop)
  {
  }

  /** The root is block 2, with this file count. */
  predicate HasRoot(img: bytes, fileCount: byte) {
    |img| == 4096 && IsDirectoryKey(img, 2) && EntriesPerBlock(img, 2) == 13 && FileCount(img, 2) == fileCount as nat
  }

  lemma PatchedRoot(patch: Patch)
    requires KeepsChecks(patch) && 1062 !in patch && 1061 in patch
    ensures IsVolume(Patched(patch)) && HasRoot(Patched(patch), patch[1061])
  {
    PatchedMounts(patch);
    assert Patched(patch)[1061] == patch[1061] && Patched(patch)[1062] == 0;
  }

  /** A file count of 1, and no entry. */
  const OVERLONG: Patch := map[1061 := 1]

  lemma OverlongCountThrows()
    ensures var img := Patched(OVERLONG);
      IsVolume(img) && IsChain(img, [2]) && DirectoryView(img, 2) == End(Some(NoMoreDirectoryBlocks))
  {
    PatchedRoot(OVERLONG);
    var img := Patched(OVERLONG);
    assert img[1026] == 0 && img[1027] == 0;
    assert ZeroSlots(img, 2, 1, 13);
    NoEntryThrows(img);
  }

  lemma NoEntryThrows(img: bytes)
    requires HasRoot(img, 1) && NextBlock(img, 2) == 0 && ZeroSlots(img, 2, 1, 13)
    ensures DirectoryView(img, 2) == End(Some(NoMoreDirectoryBlocks))
  {
    ZerosAreEmpty(img, 2, 1, 13);
    PassEmpty(img, 2, 1, 13, Horizon(img, 2));
    assert EntryRef(2, 13).Addr() == 1535;
  }

  /** Block 3 follows block 2 and holds the only entry, and the last byte of block 2 is set. */
  const SENTINEL: Patch := map[1026 := 3, 1061 := 1, 1535 := 0x10, 1540 := 0x11, 1541 := 0x41]

  lemma SentinelIsListed()
    ensures var img := Patched(SENTINEL);
      IsVolume(img) && IsChain(img, [2, 3]) && IsActive(img, EntryRef(3, 0)) && FileCount(img, 2) == 1 &&
      Listed(DirectoryView(img, 2)) == [EntryRef(2, 13)]
  {
    PatchedRoot(SENTINEL);
    var img := Patched(SENTINEL);
    assert ZeroSlots(img, 2, 1, 13);
    assert img[1026] == 3 && img[1027] == 0 && img[1538] == 0 && img[1539] == 0;
    TwoBlocks(img);
    assert img[1535] == 0x10 && img[1540] == 0x11;
    SetSentinelIsListed(img);
  }

  lemma SetSentinelIsListed(img: bytes)
    requires HasRoot(img, 1) && NextBlock(img, 2) == 3 && ZeroSlots(img, 2, 1, 13) && img[1535] == 0x10
    ensures Listed(DirectoryView(img, 2)) == [EntryRef(2, 13)]
  {
    ZerosAreEmpty(img, 2, 1, 13);
    var n := Horizon(img, 2);
    PassEmpty(img, 2, 1, 13, n);
    ScanOn(img, 2, n);
    OneEntry(Scan(img, 13, 2, 1, n), EntryRef(2, 13));
  }

  lemma OneEntry(view: View, ref: EntryRef)
    requires view.Entry? && view.ref == ref
    ensures Upto(view, 1) == Entry(ref, End(None)) && Listed(Upto(view, 1)) == [ref]
  {
    assert Upto(view, 1) == Entry(ref, Upto(view.rest, 0));
    assert Listed(Upto(view, 1)) == [ref] + Listed(End(None));
  }

  lemma TwoBlocks(img: bytes)
    requires |img| == 4096 && img[1026] == 3 && img[1027] == 0 && img[1538] == 0 && img[1539] == 0
    ensures NextBlock(img, 2) == 3 && IsChain(img, [2, 3])
  {
    assert NextBlock(img, 3) == 0;
    assert [2, 3][1..] == [3];
    assert IsChain(img, [3]);
  }

  /** Block 3 follows block 2, and itself; there is no entry, and the file count is 1. */
  const CIRCLE: Patch := map[1026 := 3, 1061 := 1, 1538 := 3]

  lemma CircleNeverEnds()
    ensures var img := Patched(CIRCLE);
      IsVolume(img) && GoesRound(img, 2) && DirectoryView(img, 2) == End(Some(Endless))
  {
    PatchedRoot(CIRCLE);
    var img := Patched(CIRCLE);
    assert ZeroSlots(img, 2, 1, 14);
    assert ZeroSlots(img, 3, 0, 14);
    assert img[1026] == 3 && img[1027] == 0 && img[1538] == 3 && img[1539] == 0;
    EmptyCircleNeverEnds(img);
    ListingNeverEndsIff(img, 2);
  }

  lemma EmptyCircleNeverEnds(img: bytes)
    requires HasRoot(img, 1) && NextBlock(img, 2) == 3 && NextBlock(img, 3) == 3
    requires ZeroSlots(img, 2, 1, 14) && ZeroSlots(img, 3, 0, 14)
    ensures DirectoryView(img, 2) == End(Some(Endless))
  {
    ZerosAreEmpty(img, 2, 1, 14);
    ZerosAreEmpty(img, 3, 0, 14);
    var n := Horizon(img, 2);
    EmptyIsSilent(img, 2, 1);
    EmptyIsSilent(img, 3, 0);
    SilentScan(img, 13, 2, 1, n);
    assert IsSilentCircle(img, 13, {3});
    CircleScan(img, 13, {3}, 3, n - 1);
  }

  // ----- reading files -----

  /** The root lists a file A, whose key pointer is 0: all its bytes are. */
  ghost predicate HoldsFile(img: bytes, storageType: nat, eof: nat) {
    HasRoot(img, 1) && img[1067] == 16 * storageType + 1 && img[1068] == 0x41 && SEEDLING <= storageType <= TREE &&
    img[1084] == 0 && img[1085] == 0 && U24(img, 1088) == eof
  }

  lemma FileEntry(img: bytes, storageType: nat, eof: nat)
    requires HoldsFile(img, storageType, eof)
    ensures var ref := EntryRef(2, 1);
      IsFileEntry(img, ref) && ref.StorageType(img) == storageType && ref.FileName(img) == [0x41] &&
      ref.KeyPointer(img) == 0 && ref.Eof(img) == eof
  {
    assert EntryRef(2, 1).Addr() == 1067;
  }

  lemma SparsePointers(img: bytes, storageType: nat, eof: nat)
    requires HoldsFile(img, storageType, eof)
    ensures IsFileEntry(img, EntryRef(2, 1)) && PointersInRange(img, EntryRef(2, 1))
  {
    FileEntry(img, storageType, eof);
    forall i | 0 <= i < 256 ensures Leads(img, 0, i) && Pointer(img, 0, i) == 0 {
      assert Pointer(img, 0, i) == 0;
    }
  }

  lemma FileIsFound(img: bytes, storageType: nat, eof: nat)
    requires HoldsFile(img, storageType, eof)
    ensures Resolve(img, 2, [[0x41]], 0) == Found(EntryRef(2, 1))
  {
    FileEntry(img, storageType, eof);
    ScanStep(img, 2, 1, Horizon(img, 2));
    OneEntry(Scan(img, 13, 2, 1, Horizon(img, 2)), EntryRef(2, 1));
    assert DirectoryView(img, 2) == Entry(EntryRef(2, 1), End(None));
    assert EntryRef(2, 1).NameMatches(img, [0x41]);
  }

  /** A sapling of 131072 bytes. */
  const FULL_SAPLING: Patch := map[1061 := 1, 1067 := 0x21, 1068 := 0x41, 1090 := 2]

  /** It is found and its pointers are in range; but the seek to its end, which reading it
      whole comes to, throws, and leaves the position where no block belongs to it. */
  lemma FullSaplingThrows()
    ensures var img, ref := Patched(FULL_SAPLING), EntryRef(2, 1);
      IsVolume(img) && Resolve(img, 2, [[0x41]], 0) == Found(ref) &&
      IsFileEntry(img, ref) && EofFits(img, ref) && PointersInRange(img, ref) && ref.Eof(img) == 131072 &&
      |FileMap(img, ref)| == 131073 && FileMap(img, ref)[131072] == Threw(InvalidIndex) &&
      !Mapped(FileMap(img, ref), 0, 131072)
  {
    PatchedRoot(FULL_SAPLING);
    var img, ref := Patched(FULL_SAPLING), EntryRef(2, 1);
    assert HoldsFile(img, SAPLING, 131072) by {
      assert img[1067] == 0x21 && img[1068] == 0x41 && img[1084] == 0 && img[1085] == 0;
      assert img[1088] == 0 && img[1089] == 0 && img[1090] == 2;
    }
    FileEntry(img, SAPLING, 131072);
    SparsePointers(img, SAPLING, 131072);
    FileIsFound(img, SAPLING, 131072);
    FullSaplingReads(img, ref, 0, 131072);
    assert Locate(img, ref, 131072) == Threw(InvalidIndex);
  }

  /** A seedling of 100 bytes. */
  const SHORT: Patch := map[1061 := 1, 1067 := 0x11, 1068 := 0x41, 1088 := 100]

  /** A read of 562 bytes of it does not stop at its end: it does not throw, so it reports
      562 bytes, and it leaves the position in the middle of the file. */
  lemma ShortFileIsReadOn()
    ensures var img, ref := Patched(SHORT), EntryRef(2, 1);
      IsVolume(img) && Resolve(img, 2, [[0x41]], 0) == Found(ref) &&
      IsFileEntry(img, ref) && WellFormedFile(img, ref) && |FileBytes(img, ref)| == 100 &&
      Mapped(FileMap(img, ref), 0, 562) && PositionAfter(0, 562, 100) == 50
  {
    PatchedRoot(SHORT);
    var img, ref := Patched(SHORT), EntryRef(2, 1);
    assert HoldsFile(img, SEEDLING, 100) by {
      assert img[1067] == 0x11 && img[1068] == 0x41 && img[1084] == 0 && img[1085] == 0;
      assert img[1088] == 100 && img[1089] == 0 && img[1090] == 0;
    }
    FileEntry(img, SEEDLING, 100);
    SparsePointers(img, SEEDLING, 100);
    FileIsFound(img, SEEDLING, 100);
    WellFormedFileReads(img, ref, 0, 562);
    EndsInTheMiddle();
  }

  lemma EndsInTheMiddle()
    ensures PositionAfter(0, 562, 100) == 50
  {
    assert StuckAt(0, 100) == 0 && Lap(0, 100) == 512;
    assert Wrap(562, 512) == Wrap(50, 512) == 50;
    assert PositionAfter(0, 562, 100) == Landing(0, 512, 562, 100);
  }

  // ----- converting -----

  /** Twelve blocks, one and a half tracks, with a volume header's bytes in sector 11. */
  function PartialTrack(): (img: bytes)
    ensures |img| == 6144 && img[2820] == 0xF0 && forall i :: 0 <= i < 6144 && i != 2820 ==> img[i] == 0
  {
    seq(6144, i => if i == 2820 then 0xF0 else 0)
  }

  /** It is taken for a track-and-sector image, and converting it reads behind its end. */
  lemma PartialTrackLeavesImage()
    ensures WholeBlocks(PartialTrack()) && Discover(PartialTrack(), None) == Aborted(OutOfBounds)
  {
    var img := PartialTrack();
    assert IsVolumeDirectory(img, 2816) && !IsVolumeDirectory(img, 1024);
  }
}
