/** What a user of a volume notices when it is renamed: the name, and nothing else. */
module RenamedVolumes {
  import opened Bytes
  import opened Errors
  import opened Layout
  import opened DirectoryListing
  import opened FileContents
  import opened Lookup
  import opened Names
  import opened Fuse
  import opened Discovery
  import opened Mounting
  import opened Renaming

  /** Two ways to name entries that agree on those that do not overlap the volume name. */
  ghost predicate SameNames(img: bytes, nameOf: EntryRef -> bytes, otherNameOf: EntryRef -> bytes) {
    forall ref: EntryRef {:trigger nameOf(ref)} ::
      ref.Within(img) && ClearOfName(ref) ==> nameOf(ref) == otherNameOf(ref)
  }

  lemma DisplayKept(img: bytes, other: bytes, extensions: bool, typeNames: TypeNames)
    requires SameButName(img, other)
    ensures SameNames(img, Displayer(img, extensions, typeNames), Displayer(other, extensions, typeNames))
  {
    forall ref: EntryRef | ref.Within(img) && ClearOfName(ref)
      ensures Displayed(img, ref, extensions, typeNames) == Displayed(other, ref, extensions, typeNames)
    {
      EntryKept(img, other, ref, []);
    }
  }

  lemma {:induction false} FillKept(img: bytes, other: bytes, view: View, nameOf: EntryRef -> bytes,
                                   otherNameOf: EntryRef -> bytes, room: nat, got: seq<bytes>, depth: nat)
    requires |other| == |img| && SameNames(img, nameOf, otherNameOf) && NoneListed(img, view, depth)
    ensures Fill(img, view, nameOf, room, got) == Fill(other, view, otherNameOf, room, got)
    decreases view
  {
    if view.Entry? && view.ref.Within(img) && room > 0 {
      assert nameOf(view.ref) == otherNameOf(view.ref);
      FillKept(img, other, view.rest, nameOf, otherNameOf, room - 1, got + [nameOf(view.ref)], depth);
    }
  }

  /** A directory shows the same names, into buffers of any size. */
  ghost predicate ShowsTheSame(img: bytes, other: bytes, key: nat, extensions: bool, typeNames: TypeNames, room: nat) {
    key < NumBlocks(img) == NumBlocks(other) &&
    Fill(img, DirectoryView(img, key), Displayer(img, extensions, typeNames), room, []) ==
    Fill(other, DirectoryView(other, key), Displayer(other, extensions, typeNames), room, [])
  }

  lemma ShownKept(img: bytes, other: bytes, key: nat, depth: nat, extensions: bool, typeNames: TypeNames, room: nat)
    requires SameButName(img, other) && key < NumBlocks(img) && IsDirectoryKey(img, key)
    requires depth > 0 && HeaderNotListed(img, key, depth)
    ensures ShowsTheSame(img, other, key, extensions, typeNames, room)
  {
    ListingKept(img, other, key);
    DisplayKept(img, other, extensions, typeNames);
    FillKept(img, other, DirectoryView(img, key), Displayer(img, extensions, typeNames),
             Displayer(other, extensions, typeNames), room, [], depth - 1);
  }

  /** A file has the same type, end of file, blocks and bytes. */
  ghost predicate ReadsTheSame(img: bytes, other: bytes, ref: EntryRef) {
    IsFileEntry(img, ref) && IsFileEntry(other, ref) && ref.FileType(img) == ref.FileType(other) &&
    FileMap(img, ref) == FileMap(other, ref) && FileBytes(img, ref) == FileBytes(other, ref)
  }

  /** The volume has its new name, and what is saved opens again, unmodified. */
  lemma RenamedVolumeMounts(img: bytes, name: bytes, beyond: bytes, key: Option<bytes>)
    requires IsVolume(img) && LegalName(name) && |beyond| == 15 && ValidKey(key)
    ensures var r := Renamed(img, name, beyond);
      SameButName(img, r) && |VolumeName(r)| == |name| && Mount(r, key) == Ok(Mounted(r, false, false)) &&
      forall i :: 0 <= i < |name| ==>
        VolumeName(r)[i] == if 0x61 <= name[i] <= 0x7A then name[i] - 0x20 else name[i]
  {
    RenamedIsSameButName(img, name, beyond);
    NameReadsBack(img, name, beyond);
    RenamedMounts(img, Renamed(img, name, beyond), key);
  }

  /** What a path finds is the same for a user: a directory shows the same names, and a file
      reads the same, unless it uses the root's own block. */
  ghost predicate LooksTheSame(img: bytes, other: bytes, ref: EntryRef, extensions: bool, typeNames: TypeNames,
                               room: nat)
  {
    ref.Within(img) &&
    (ref.IsDirectory(img) ==> ShowsTheSame(img, other, ref.KeyPointer(img), extensions, typeNames, room)) &&
    (ref.IsFile(img) && AvoidsRoot(img, ref) ==> ReadsTheSame(img, other, ref))
  }

  lemma FoundKept(img: bytes, other: bytes, ref: EntryRef, extensions: bool, typeNames: TypeNames, room: nat)
    requires SameButName(img, other) && ClearOfName(ref) && ref.Within(img)
    requires ref.IsDirectory(img) ==>
      var key := ref.KeyPointer(img);
      key < NumBlocks(img) && IsDirectoryKey(img, key) && HeaderNotListed(img, key, 1)
    ensures LooksTheSame(img, other, ref, extensions, typeNames, room)
  {
    if ref.IsDirectory(img) {
      ShownKept(img, other, ref.KeyPointer(img), 1, extensions, typeNames, room);
    }
    if ref.IsFile(img) && AvoidsRoot(img, ref) {
      EntryKept(img, other, ref, []);
      FileKept(img, other, ref);
    }
  }

  /** On a volume that is well formed as far down as the path leads, and one level further,
      every lookup of the renamed volume gives the same result, and what it finds looks the
      same; so does the root. */
  lemma RenamingIsInvisible(img: bytes, other: bytes, path: seq<bytes>, extensions: bool, typeNames: TypeNames,
                            room: nat)
    requires SameButName(img, other) && |path| > 0
    requires WellFormedTree(img, 2, |path| + 1) && RootStaysFirst(img, 2, |path| + 1)
    ensures Resolve(other, 2, path, 0) == Resolve(img, 2, path, 0)
    ensures Resolve(img, 2, path, 0).Found? ==>
      LooksTheSame(img, other, Resolve(img, 2, path, 0).ref, extensions, typeNames, room)
    ensures ShowsTheSame(img, other, 2, extensions, typeNames, room)
  {
    TreeIsClear(img, 2, |path| + 1);
    LookupKept(img, other, 2, path, 0, 1);
    FoundDirectory(img, path, 2, 0);
    if Resolve(img, 2, path, 0).Found? {
      FoundKept(img, other, Resolve(img, 2, path, 0).ref, extensions, typeNames, room);
    }
    ShownKept(img, other, 2, |path| + 1, extensions, typeNames, room);
  }

  /** In a well-formed tree, a directory that is found can be opened. */
  lemma {:induction false} FoundDirectory(img: bytes, path: seq<bytes>, key: nat, i: nat)
    requires i < |path| && WellFormedTree(img, key, |path| - i + 1)
    ensures var found := Resolve(img, key, path, i);
      found.Found? && found.ref.Within(img) && found.ref.IsDirectory(img) ==>
        var sub := found.ref.KeyPointer(img);
        sub < NumBlocks(img) && IsDirectoryKey(img, sub)
    decreases |path| - i
  {
    ActiveEntriesWithin(img, key);
    var refs := ActiveEntries(img, key);
    var k := SomeFirstMatch(img, refs, path[i]);
    ResolveStep(img, key, path, i, k, |path| - i + 1);
    if k < |refs| && refs[k].IsDirectory(img) && i + 1 < |path| {
      FoundDirectory(img, path, refs[k].KeyPointer(img), i + 1);
    }
  }
}
