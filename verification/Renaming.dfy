/** Renaming a volume (volume_t::Rename in source/volume.cxx) and what that leaves alone. */
module Renaming {
  import opened Bytes
  import opened Errors
  import opened Layout
  import opened DirectoryListing
  import opened FileContents
  import opened Lookup
  import opened Discovery
  import opened Mounting

  /** The volume name stored in the header. */
  function VolumeName(img: bytes): bytes
    requires 2 < NumBlocks(img)
  {
    Header(2).FileName(img)
  }

  /** The 15 bytes copied into the header: the upper-cased name, its NUL, and whatever lies
      behind it in memory. */
  function StoredName(name: bytes, beyond: bytes): (s: bytes)
    requires |name| <= 15 && |beyond| == 15
    ensures |s| == 15
  {
    seq(15, i requires 0 <= i < 15 =>
      if i < |name| then ToUpper(name[i]) else if i == |name| then 0 else beyond[i])
  }

  /** The image after renaming. */
  function Renamed(img: bytes, name: bytes, beyond: bytes): (r: bytes)
    requires 2 < NumBlocks(img) && |name| <= 15 && |beyond| == 15
    ensures |r| == |img|
    ensures forall i {:trigger r[i]} :: 0 <= i < |img| && !(1028 <= i < 1044) ==> r[i] == img[i]
    ensures r[1028] == img[1028] / 16 * 16 + |name|
    ensures forall i :: 0 <= i < |name| ==> r[1029 + i] == ToUpper(name[i])
    ensures |name| < 15 ==> r[1029 + |name|] == 0
    ensures forall i {:trigger beyond[i]} :: |name| < i < 15 ==> r[1029 + i] == beyond[i]
  {
    var stored := StoredName(name, beyond);
    seq(|img|, i requires 0 <= i < |img| =>
      if i == 1028 then img[1028] / 16 * 16 + |name|
      else if 1029 <= i < 1044 then stored[i - 1029]
      else img[i])
  }

  /** Two images that may differ in the name and name length of the volume header only. */
  ghost predicate SameButName(img: bytes, other: bytes) {
    2 < NumBlocks(img) && |other| == |img| &&
    (forall i {:trigger other[i]} :: 0 <= i < |img| && !(1028 <= i < 1044) ==> other[i] == img[i]) &&
    other[1028] / 16 == img[1028] / 16
  }

  lemma RenamedIsSameButName(img: bytes, name: bytes, beyond: bytes)
    requires 2 < NumBlocks(img) && |name| <= 15 && |beyond| == 15
    ensures SameButName(img, Renamed(img, name, beyond))
  {
  }

  /** The new name reads back, with capitals for small letters and everything else as it
      was, and the header is still one of a volume. */
  lemma NameReadsBack(img: bytes, name: bytes, beyond: bytes)
    requires 2 < NumBlocks(img) && LegalName(name) && |beyond| == 15
    ensures VolumeName(Renamed(img, name, beyond)) == Upper(name)
    ensures |VolumeName(Renamed(img, name, beyond))| == |name|
    ensures forall i :: 0 <= i < |name| ==>
      VolumeName(Renamed(img, name, beyond))[i] == if 0x61 <= name[i] <= 0x7A then name[i] - 0x20 else name[i]
    ensures Header(2).StorageType(Renamed(img, name, beyond)) == Header(2).StorageType(img)
  {
    var r := Renamed(img, name, beyond);
    assert Header(2).Addr() == 1028 && Header(2).NameLength(r) == |name|;
    forall i | 0 <= i < |name| ensures VolumeName(r)[i] == Upper(name)[i] {
      assert r[1029 + i] == ToUpper(name[i]);
    }
  }

  /** A renamed volume passes every check of the constructor. */
  lemma RenamedMounts(img: bytes, other: bytes, key: Option<bytes>)
    requires IsVolume(img) && SameButName(img, other) && ValidKey(key)
    ensures IsVolume(other) && Mount(other, key) == Ok(Mounted(other, false, false))
  {
    assert other[1024] == img[1024] && other[1025] == img[1025];
    VolumesMountUnchanged(other, key);
  }

  // ----- directories -----

  /** No slot but the header itself begins in the name. */
  lemma SlotOutsideName(ref: EntryRef)
    ensures ref.Addr() <= 1028 || 1044 <= ref.Addr()
  {
  }

  lemma NextKept(img: bytes, other: bytes, b: nat)
    requires SameButName(img, other) && b < NumBlocks(img)
    ensures NextBlock(img, b) == NextBlock(other, b)
    ensures FileCount(img, b) == FileCount(other, b) && EntriesPerBlock(img, b) == EntriesPerBlock(other, b)
    ensures IsDirectoryKey(img, b) <==> IsDirectoryKey(other, b)
  {
    assert other[512 * b + 2] == img[512 * b + 2] && other[512 * b + 3] == img[512 * b + 3];
    assert other[512 * b + 36] == img[512 * b + 36];
    assert other[512 * b + 37] == img[512 * b + 37] && other[512 * b + 38] == img[512 * b + 38];
    assert b != 2 ==> other[512 * b + 4] == img[512 * b + 4];
  }

  lemma {:induction false} ScanKept(img: bytes, other: bytes, epb: nat, block: nat, slot: nat, steps: nat)
    requires SameButName(img, other) && block < NumBlocks(img)
    ensures Scan(img, epb, block, slot, steps) == Scan(other, epb, block, slot, steps)
    decreases steps, if slot <= epb then epb - slot + 1 else 0
  {
    var here := EntryRef(block, slot);
    SlotOutsideName(here);
    NextKept(img, other, block);
    if here.Addr() < |img| {
      assert here.IsInactive(img) <==> here.IsInactive(other);
      if slot < epb {
        ScanKept(img, other, epb, block, slot + 1, steps);
      } else if HasNext(img, block) && steps > 0 {
        ScanKept(img, other, epb, NextBlock(img, block), 0, steps - 1);
      }
    }
  }

  /** Every directory, well formed or not, lists the same entries. */
  lemma ListingKept(img: bytes, other: bytes, key: nat)
    requires SameButName(img, other) && key < NumBlocks(img)
    ensures DirectoryView(img, key) == DirectoryView(other, key)
  {
    NextKept(img, other, key);
    ScanKept(img, other, EntriesPerBlock(img, key), key, 1, Horizon(img, key));
  }

  // ----- lookups -----

  /** The entry does not overlap the renamed bytes. */
  predicate ClearOfName(ref: EntryRef) {
    ref.Addr() + 39 <= 1028 || 1044 <= ref.Addr()
  }

  lemma EntryKept(img: bytes, other: bytes, ref: EntryRef, name: bytes)
    requires SameButName(img, other) && ClearOfName(ref) && ref.Within(img)
    ensures ref.StorageType(img) == ref.StorageType(other) && ref.FileName(img) == ref.FileName(other)
    ensures ref.NameMatches(img, name) <==> ref.NameMatches(other, name)
    ensures ref.KeyPointer(img) == ref.KeyPointer(other) && ref.Eof(img) == ref.Eof(other)
    ensures ref.FileType(img) == ref.FileType(other)
  {
    var a := ref.Addr();
    assert forall i :: a <= i < a + 39 ==> other[i] == img[i];
    assert ref.FileName(img) == ref.FileName(other);
  }

  /** No directory met within `depth` levels lists an entry that overlaps the renamed
      bytes. */
  ghost predicate HeaderNotListed(img: bytes, key: nat, depth: nat)
    decreases depth, 1
  {
    depth > 0 && key < NumBlocks(img) && IsDirectoryKey(img, key) ==>
      NoneListed(img, DirectoryView(img, key), depth - 1)
  }

  ghost predicate NoneListed(img: bytes, view: View, depth: nat)
    decreases depth, 2, view
  {
    view.Entry? ==>
      ClearOfName(view.ref) &&
      (view.ref.Within(img) && view.ref.IsDirectory(img) ==> HeaderNotListed(img, view.ref.KeyPointer(img), depth)) &&
      NoneListed(img, view.rest, depth)
  }

  /** What is found does not overlap the name, nor, if it is a directory, do its entries. */
  ghost predicate ClearResult(img: bytes, r: Result, depth: nat) {
    r.Found? ==>
      ClearOfName(r.ref) && r.ref.Within(img) &&
      (r.ref.IsDirectory(img) ==> HeaderNotListed(img, r.ref.KeyPointer(img), depth))
  }

  lemma {:induction false} SearchKept(img: bytes, other: bytes, view: View, path: seq<bytes>, i: nat, depth: nat)
    requires SameButName(img, other) && i < |path| && NoneListed(img, view, depth + |path| - i - 1)
    ensures Search(img, view, path, i) == Search(other, view, path, i)
    ensures ClearResult(img, Search(img, view, path, i), depth)
    decreases |path| - i, 0, view
  {
    if view.Entry? && view.ref.Within(img) {
      EntryKept(img, other, view.ref, path[i]);
      if !view.ref.NameMatches(img, path[i]) {
        SearchKept(img, other, view.rest, path, i, depth);
      } else if i + 1 < |path| && view.ref.IsDirectory(img) {
        LookupKept(img, other, view.ref.KeyPointer(img), path, i + 1, depth);
      }
    }
  }

  /** Every lookup gives the same result. */
  lemma {:induction false} LookupKept(img: bytes, other: bytes, key: nat, path: seq<bytes>, i: nat, depth: nat)
    requires SameButName(img, other) && i < |path| && HeaderNotListed(img, key, depth + |path| - i)
    ensures Resolve(img, key, path, i) == Resolve(other, key, path, i)
    ensures ClearResult(img, Resolve(img, key, path, i), depth)
    decreases |path| - i, 1
  {
    if key < NumBlocks(img) {
      NextKept(img, other, key);
      if IsDirectoryKey(img, key) {
        ListingKept(img, other, key);
        SearchKept(img, other, DirectoryView(img, key), path, i, depth);
      }
    }
  }

  // ----- well-formed volumes -----

  /** Within `depth` levels, no chain comes to block 2 on its way. */
  ghost predicate RootStaysFirst(img: bytes, key: nat, depth: nat)
    requires WellFormedTree(img, key, depth)
    decreases depth, 1
  {
    depth > 0 ==>
      (forall i :: 1 <= i < |ChainFrom(img, key)| ==> ChainFrom(img, key)[i] != 2) &&
      AllStayFirst(img, ActiveEntries(img, key), depth - 1)
  }

  ghost predicate AllStayFirst(img: bytes, refs: seq<EntryRef>, depth: nat)
    requires AllWellFormed(img, refs, depth)
    decreases depth, 2
  {
    forall i :: 0 <= i < |refs| && refs[i].Within(img) && refs[i].IsDirectory(img) ==>
      RootStaysFirst(img, refs[i].KeyPointer(img), depth)
  }

  /** A well-formed directory lists its key block's header only if its chain comes to it. */
  lemma ActiveAreClear(img: bytes, key: nat)
    requires HasChain(img, key) && forall i :: 1 <= i < |ChainFrom(img, key)| ==> ChainFrom(img, key)[i] != 2
    ensures forall i :: 0 <= i < |ActiveEntries(img, key)| ==> ClearOfName(ActiveEntries(img, key)[i])
  {
    var refs, chain := ActiveEntries(img, key), ChainFrom(img, key);
    forall i | 0 <= i < |refs| ensures ClearOfName(refs[i]) {
      ActiveExactly(img, chain, 1, refs[i]);
      if refs[i].block == 2 {
        var k :| 0 <= k < |chain| && chain[k] == 2;
        assert k == 0;
      }
    }
  }

  /** So in a well-formed tree no directory lists the root's header. */
  lemma {:induction false} TreeIsClear(img: bytes, key: nat, depth: nat)
    requires WellFormedTree(img, key, depth) && RootStaysFirst(img, key, depth)
    ensures HeaderNotListed(img, key, depth)
    decreases depth, 1
  {
    if depth > 0 {
      ActiveAreClear(img, key);
      WellFormedDirectoryLists(img, key);
      AllAreClear(img, DirectoryView(img, key), ActiveEntries(img, key), depth - 1);
    }
  }

  lemma {:induction false} AllAreClear(img: bytes, view: View, refs: seq<EntryRef>, depth: nat)
    requires refs == Listed(view) && AllWellFormed(img, refs, depth) && AllStayFirst(img, refs, depth)
    requires forall i :: 0 <= i < |refs| ==> ClearOfName(refs[i])
    ensures NoneListed(img, view, depth)
    decreases depth, 2, view
  {
    if view.Entry? {
      var later := Listed(view.rest);
      assert refs[0] == view.ref;
      if view.ref.Within(img) && view.ref.IsDirectory(img) {
        TreeIsClear(img, view.ref.KeyPointer(img), depth);
      }
      assert forall i :: 0 <= i < |later| ==> later[i] == refs[i + 1];
      AllAreClear(img, view.rest, later, depth);
    }
  }

  // ----- files -----

  /** No block that the file's positions map to, directly or through an index, is block 2. */
  ghost predicate AvoidsRoot(img: bytes, entry: EntryRef)
    requires IsFileEntry(img, entry)
  {
    entry.KeyPointer(img) != 2 &&
    forall o: nat :: o <= entry.Eof(img) ==>
      Locate(img, entry, o) != Ok(2) && (entry.StorageType(img) != SEEDLING ==> LocateIndex(img, entry, o) != Ok(2))
  }

  lemma FollowKept(img: bytes, other: bytes, index: nat, i: nat)
    requires SameButName(img, other) && index != 2
    ensures Follow(img, index, i) == Follow(other, index, i)
  {
    if i < 256 && 0 < index < NumBlocks(img) {
      assert other[512 * index + i] == img[512 * index + i];
      assert other[512 * index + (256 + i)] == img[512 * index + (256 + i)];
    }
  }

  lemma PositionKept(img: bytes, other: bytes, entry: EntryRef, o: nat)
    requires SameButName(img, other) && ClearOfName(entry)
    requires IsFileEntry(img, entry) && AvoidsRoot(img, entry) && o <= entry.Eof(img)
    ensures IsFileEntry(other, entry)
    ensures Locate(img, entry, o) == Locate(other, entry, o) && FileByte(img, entry, o) == FileByte(other, entry, o)
  {
    EntryKept(img, other, entry, []);
    var key := entry.KeyPointer(img);
    assert Locate(img, entry, o) != Ok(2);
    if entry.StorageType(img) == SAPLING {
      FollowKept(img, other, key, o / 512);
    } else if entry.StorageType(img) == TREE {
      FollowKept(img, other, key, o / 131072);
      assert LocateIndex(img, entry, o) != Ok(2);
      if LocateIndex(img, entry, o).Ok? {
        FollowKept(img, other, LocateIndex(img, entry, o).value, o % 131072 / 512);
      }
    }
    assert Locate(img, entry, o) == Locate(other, entry, o);
  }

  /** Every file reads the same, position by position. */
  lemma FileKept(img: bytes, other: bytes, entry: EntryRef)
    requires SameButName(img, other) && ClearOfName(entry)
    requires IsFileEntry(img, entry) && AvoidsRoot(img, entry)
    ensures IsFileEntry(other, entry)
    ensures FileMap(img, entry) == FileMap(other, entry) && FileBytes(img, entry) == FileBytes(other, entry)
  {
    PositionKept(img, other, entry, 0);
    EntryKept(img, other, entry, []);
    forall o: nat | o <= entry.Eof(img)
      ensures Locate(img, entry, o) == Locate(other, entry, o) && FileByte(img, entry, o) == FileByte(other, entry, o)
    {
      PositionKept(img, other, entry, o);
    }
  }
}
