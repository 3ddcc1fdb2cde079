/** Reading a file by its path: prodosfs_open and prodosfs_read (main.cxx) on a mounted
    volume, from the path down to the blocks. */
module FileSystem {
  import opened Bytes
  import opened Errors
  import opened Layout
  import opened DirectoryListing
  import opened Lookup
  import opened FileContents
  import opened FileTheorems
  import opened Files
  import opened Names
  import opened Fuse
  import opened Volumes

  /** What prodosfs_open leaves: a handle, or an error number. */
  datatype Opened = Handle(fh: FileHandle) | Failed(errno: int)

  /** prodosfs_open. Paths of files that are generated are not part of this model. */
  method Open(volume: Volume, path: bytes, extensions: bool) returns (r: Outcome<Opened>)
    requires volume.Valid() && volume.Lookup(ProdosName(path, extensions)) != Raised(Endless)
    modifies volume.errs
    ensures match volume.Lookup(ProdosName(path, extensions))
      case Raised(failure) => r == Threw(failure)
      case NotFound(error) => r == Ok(Failed(-(ToErrno(error) as int)))
      case Found(ref) =>
        ref.Within(volume.disk.Image()) &&
        if !ref.IsFile(volume.disk.Image()) then r == Ok(Failed(-EIO))
        else match Locate(volume.disk.Image(), ref, 0)
          case Threw(failure) => r == Threw(failure)
          case Ok(_) => r.Ok? && r.value.Handle? && fresh(r.value.fh) && Opens(r.value.fh, volume, ref)
  {
    var fh := volume.OpenFile(ProdosName(path, extensions));
    if fh.Threw? {
      return Threw(fh.failure);
    } else if fh.value.None? {
      return Ok(Failed(-(ToErrno(volume.errs.code) as int)));
    }
    return Ok(Handle(fh.value.value));
  }

  /** A handle at the start of a file of the volume. */
  ghost predicate Opens(fh: FileHandle, volume: Volume, ref: EntryRef)
    reads fh, fh.disk, fh.disk.base
  {
    fh.Valid() && fh.position == 0 && fh.entry == Some(ref) && fh.disk == volume.disk && fh.errs == volume.errs
  }

  /** The path finds a well-formed file. */
  ghost predicate FindsFile(volume: Volume, name: bytes, ref: EntryRef)
    requires volume.Valid()
    reads volume, volume.disk, volume.disk.base
  {
    volume.Lookup(name) == Found(ref) &&
    IsFileEntry(volume.disk.Image(), ref) && WellFormedFile(volume.disk.Image(), ref)
  }

  /** Opening a well-formed file: every read inside it will succeed. */
  method OpenFileAt(volume: Volume, path: bytes, extensions: bool, ghost ref: EntryRef) returns (fh: FileHandle)
    requires volume.Valid() && FindsFile(volume, ProdosName(path, extensions), ref)
    modifies volume.errs
    ensures fresh(fh) && Opens(fh, volume, ref) && fh.image == volume.disk.Image()
    ensures fh.contents == Contents(fh.image, ref) && Mapped(fh.blocks, 0, |fh.contents|)
  {
    FirstBlockIsFound(volume.disk.Image(), ref);
    var handle := Open(volume, path, extensions);
    fh := handle.value.fh;
    HandleOnFile(fh, volume, ref);
  }

  /** Reading a span of an open file, in pieces of any sizes. */
  method ReadSpan(fh: FileHandle, sizes: seq<nat>, off: nat, unixText: bool, ghost text: bool)
    returns (r: Outcome<bytes>)
    requires fh.Valid() && off + Sum(sizes) <= |fh.contents| && Mapped(fh.blocks, 0, |fh.contents|)
    requires text == IsText(fh, unixText)
    modifies fh`position, fh`index, fh`data, fh.errs
    ensures r == Ok(Served(fh.contents, text, off, Sum(sizes)))
  {
    assert Mapped(fh.blocks, off, off + Sum(sizes));
    r := ReadInPieces(fh, sizes, off, unixText);
  }

  /** Opening a well-formed file and reading a span of it, in pieces of any sizes, gives the
      bytes of its data blocks laid out one after the other, translated for text files. */
  method ReadPath(volume: Volume, path: bytes, extensions: bool, sizes: seq<nat>, off: nat, unixText: bool,
                  ghost ref: EntryRef, ghost contents: bytes)
    returns (r: Outcome<bytes>)
    requires volume.Valid() && FindsFile(volume, ProdosName(path, extensions), ref)
    requires contents == Contents(volume.disk.Image(), ref) && off + Sum(sizes) <= |contents|
    modifies volume.errs
    ensures var text := unixText && ref.FileType(volume.disk.Image()) == FILE_TYPE_TEXT;
      r == Ok(Served(contents, text, off, Sum(sizes)))
  {
    ghost var text := unixText && ref.FileType(volume.disk.Image()) == FILE_TYPE_TEXT;
    var fh := OpenFileAt(volume, path, extensions, ref);
    r := ReadSpan(fh, sizes, off, unixText, text);
  }

  lemma FirstBlockIsFound(img: bytes, ref: EntryRef)
    requires IsFileEntry(img, ref) && WellFormedFile(img, ref)
    ensures Locate(img, ref, 0).Ok?
  {
    WellFormedFileReads(img, ref, 0, 0);
    assert FileMap(img, ref)[0] == Locate(img, ref, 0);
  }

  lemma HandleOnFile(fh: FileHandle, volume: Volume, ref: EntryRef)
    requires volume.Valid() && Opens(fh, volume, ref)
    requires IsFileEntry(volume.disk.Image(), ref) && WellFormedFile(volume.disk.Image(), ref)
    ensures fh.image == volume.disk.Image() && fh.contents == Contents(fh.image, ref)
    ensures Mapped(fh.blocks, 0, |fh.contents|)
  {
    DescriptionIsUnique(fh.blocks, fh.contents, fh.image, ref);
    WellFormedFileReads(fh.image, ref, 0, |fh.contents|);
  }

  /** So every well-formed file that the root of a well-formed volume lists can be read under
      the name it is listed with. */
  method ReadListedFile(volume: Volume, path: bytes, extensions: bool, sizes: seq<nat>, off: nat, unixText: bool,
                        ghost typeNames: TypeNames, ghost j: nat, ghost ref: EntryRef, ghost contents: bytes)
    returns (r: Outcome<bytes>)
    requires volume.Valid() && WellFormedTree(volume.disk.Image(), 2, 1)
    requires PlainNames(volume.disk.Image(), ActiveEntries(volume.disk.Image(), 2), extensions)
    requires j < |ActiveEntries(volume.disk.Image(), 2)| && ref == ActiveEntries(volume.disk.Image(), 2)[j]
    requires IsFileEntry(volume.disk.Image(), ref) && WellFormedFile(volume.disk.Image(), ref)
    requires extensions ==> ColonFreeTypes(typeNames)
    requires path == [SLASH] + Displayed(volume.disk.Image(), ref, extensions, typeNames)
    requires contents == Contents(volume.disk.Image(), ref) && off + Sum(sizes) <= |contents|
    modifies volume.errs
    ensures var text := unixText && ref.FileType(volume.disk.Image()) == FILE_TYPE_TEXT;
      r == Ok(Served(contents, text, off, Sum(sizes)))
  {
    ListedInRootIsFound(volume.disk.Image(), j, extensions, typeNames, path);
    r := ReadPath(volume, path, extensions, sizes, off, unixText, ref, contents);
  }
}
