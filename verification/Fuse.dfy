/** The FUSE operations that read files and directories (main.cxx). */
module Fuse {
  import opened Bytes
  import opened Errors
  import opened Layout
  import opened DirectoryListing
  import opened Directories
  import opened Files
  import opened Names
  import opened Lookup

  const FILE_TYPE_TEXT := 0x04

  const ENOENT := 2
  const EIO := 5
  const EBADF := 9
  const ENOTDIR := 20

  /** S_ToError. The second entry for err_position_out_of_range (ENXIO) never counts. */
  function ToErrno(code: ProdosError): (n: nat)
    ensures n == 0 <==> code == ErrNone || code == ErrEndOfFile
  {
    match code
    case ErrNone => 0
    case ErrEndOfFile => 0
    case ErrPositionOutOfRange => EBADF
    case ErrDirectoryNotFound => ENOTDIR
    case ErrFileNotFound => ENOENT
    case ErrUnsupportedStorageType => EIO
  }

  /** The error numbers, as errno.h has them. */
  lemma ErrorNumbers()
    ensures ToErrno(ErrNone) == 0 && ToErrno(ErrEndOfFile) == 0
    ensures ToErrno(ErrFileNotFound) == 2 && ToErrno(ErrUnsupportedStorageType) == 5
    ensures ToErrno(ErrPositionOutOfRange) == 9 && ToErrno(ErrDirectoryNotFound) == 20
  {
  }

  // ----- reading files -----

  /** The text translation of one byte: the high bit goes, and a CR becomes an LF. */
  function Translate(b: byte): byte {
    if b % 128 == CR then LF else b % 128
  }

  /** A CR, with or without the high bit, becomes an LF; any other 7-bit character stays,
      and one with the high bit becomes the one without. */
  lemma Translations(b: byte)
    ensures b == 13 || b == 141 ==> Translate(b) == 10
    ensures b < 128 && b != 13 ==> Translate(b) == b
    ensures b >= 128 && b != 141 ==> Translate(b) == b - 128
  {
  }

  function Shown(text: bool, b: byte): byte {
    if text then Translate(b) else b
  }

  /** What a reader sees of n bytes of a file from `off` on. */
  function Served(contents: bytes, text: bool, off: nat, n: nat): (s: bytes)
    requires off + n <= |contents|
    ensures |s| == n && forall k :: 0 <= k < n ==> s[k] == Shown(text, contents[off + k])
  {
    seq<byte>(n, k requires 0 <= k < n => Shown(text, contents[off + k]))
  }

  /** A text file, in text mode. */
  ghost predicate IsText(fh: FileHandle, unixText: bool)
    requires fh.Usable()
    reads fh, fh.disk, fh.disk.base
  {
    unixText && fh.entry.value.FileType(fh.image) == FILE_TYPE_TEXT
  }

  /** Byte k of what is read from `off` on, as a reader sees it. */
  ghost function ShownAt(fh: FileHandle, text: bool, off: nat, k: nat): byte
    requires off <= |fh.contents| < |fh.blocks|
  {
    Shown(text, fh.Delivered(StuckAt(off, |fh.contents|), Lap(off, |fh.contents|), off, k))
  }

  /** prodosfs_read. A size of 0 before the end of file reports whatever error the thread
      met last. Since it begins with a seek, it does not matter what became of the reads
      before it. */
  method ReadFile(fh: FileHandle, buf: array<byte>, size: nat, off: int, unixText: bool) returns (r: Outcome<int>)
    requires fh.Usable() && buf != fh.disk.base && size <= buf.Length
    modifies fh`position, fh`index, fh`data, fh.errs, buf
    ensures fh.Usable() && IsText(fh, unixText) == old(IsText(fh, unixText))
    ensures !(0 <= off < |fh.blocks|) ==> r == Ok(-EBADF) && buf[..] == old(buf[..])
    ensures 0 <= off < |fh.blocks| ==>
      (r.Ok? <==> Mapped(fh.blocks, off, off + size)) &&
      (r.Ok? && size == 0 && off < |fh.contents| ==> r == Ok(-(ToErrno(old(fh.errs.code)) as int))) &&
      (r.Ok? && (size > 0 || off == |fh.contents|) ==> r == Ok(size)) &&
      (r.Ok? ==> forall k {:trigger buf[k]} :: 0 <= k < size ==> buf[k] == ShownAt(fh, IsText(fh, unixText), off, k))
  {
    var pos := fh.Seek(off, SeekSet);
    if pos.Threw? {
      assert !fh.blocks[off].Ok?;
      return Threw(pos.failure);
    } else if pos.value < 0 {
      return Ok(-EBADF);
    }
    var n := fh.Read(buf, size);
    if n.Threw? {
      return Threw(n.failure);
    }
    var atEnd := fh.Eof();
    if n.value == 0 && !atEnd {
      return Ok(-(ToErrno(fh.errs.code) as int));
    }
    var fileType := fh.Type();
    if unixText && fileType == FILE_TYPE_TEXT {
      TranslateInPlace(buf, size);
    }
    return Ok(size);
  }

  /** The translation loop of prodosfs_read. */
  method TranslateInPlace(buf: array<byte>, n: nat)
    requires n <= buf.Length
    modifies buf
    ensures forall k :: 0 <= k < n ==> buf[k] == Translate(old(buf[k]))
    ensures forall k :: n <= k < buf.Length ==> buf[k] == old(buf[k])
  {
    var i := 0;
    while i < n
      invariant 0 <= i <= n
      invariant forall k :: 0 <= k < i ==> buf[k] == Translate(old(buf[k]))
      invariant forall k :: i <= k < buf.Length ==> buf[k] == old(buf[k])
    {
      buf[i] := buf[i] % 128;
      if buf[i] == CR {
        buf[i] := LF;
      }
      i := i + 1;
    }
  }

  /** Translating text again changes nothing, and translated text is 7-bit without CR. */
  lemma TranslateTwice(b: byte)
    ensures Translate(Translate(b)) == Translate(b) && Translate(b) < 128 && Translate(b) != CR
  {
  }

  function Sum(sizes: seq<nat>): nat {
    if sizes == [] then 0 else sizes[0] + Sum(sizes[1..])
  }

  /** Successive reads of the given sizes on one handle, put together. (An empty read adds
      nothing, whatever it reports.) However a span of a file is cut into reads, they fail
      or give the same bytes. */
  method ReadInPieces(fh: FileHandle, sizes: seq<nat>, off: nat, unixText: bool) returns (r: Outcome<bytes>)
    requires fh.Usable() && off + Sum(sizes) <= |fh.contents|
    modifies fh`position, fh`index, fh`data, fh.errs
    ensures fh.Usable() && IsText(fh, unixText) == old(IsText(fh, unixText))
    ensures r.Ok? <==> sizes == [] || Mapped(fh.blocks, off, off + Sum(sizes))
    ensures r.Ok? ==> r.value == Served(fh.contents, IsText(fh, unixText), off, Sum(sizes))
    decreases |sizes|
  {
    if sizes == [] {
      return Ok([]);
    }
    var first := ReadPart(fh, sizes[0], off, unixText);
    if first.Threw? {
      return first;
    }
    var rest := ReadInPieces(fh, sizes[1..], off + sizes[0], unixText);
    if rest.Threw? {
      return rest;
    }
    ServedInTwo(fh.contents, IsText(fh, unixText), off, sizes[0], Sum(sizes[1..]));
    return Ok(first.value + rest.value);
  }

  /** One read inside the file, into a buffer of its own. */
  method ReadPart(fh: FileHandle, size: nat, off: nat, unixText: bool) returns (r: Outcome<bytes>)
    requires fh.Usable() && off + size <= |fh.contents|
    modifies fh`position, fh`index, fh`data, fh.errs
    ensures fh.Usable() && IsText(fh, unixText) == old(IsText(fh, unixText))
    ensures r.Ok? <==> Mapped(fh.blocks, off, off + size)
    ensures r.Ok? ==> r.value == Served(fh.contents, IsText(fh, unixText), off, size)
  {
    var buf := new byte[size];
    var n := ReadFile(fh, buf, size, off, unixText);
    if n.Threw? {
      return Threw(n.failure);
    }
    r := Ok(buf[..]);
    forall k | 0 <= k < size ensures buf[k] == Served(fh.contents, IsText(fh, unixText), off, size)[k] {
      assert buf[k] == ShownAt(fh, IsText(fh, unixText), off, k);
    }
  }

  lemma ServedInTwo(contents: bytes, text: bool, off: nat, n: nat, m: nat)
    requires off + n + m <= |contents|
    ensures Served(contents, text, off, n) + Served(contents, text, off + n, m) == Served(contents, text, off, n + m)
  {
    var a, b := Served(contents, text, off, n), Served(contents, text, off + n, m);
    var all := Served(contents, text, off, n + m);
    forall k | 0 <= k < n + m ensures (a + b)[k] == all[k] {
      if k >= n {
        assert b[k - n] == Shown(text, contents[off + n + (k - n)]);
      }
    }
  }

  /** Text that was served translates to itself. */
  lemma ServedTwice(contents: bytes, off: nat, n: nat)
    requires off + n <= |contents|
    ensures Served(Served(contents, true, off, n), true, 0, n) == Served(contents, true, off, n)
  {
    var once := Served(contents, true, off, n);
    forall k | 0 <= k < n ensures Served(once, true, 0, n)[k] == once[k] {
      TranslateTwice(contents[off + k]);
    }
  }

  // ----- listing directories -----

  const DOT: byte := 0x2E

  datatype FillEnd = Exhausted | Full | Broken(failure: Failure)

  /** The names in the buffer, and what ended the listing. */
  datatype Filled = Filled(names: seq<bytes>, end: FillEnd)

  /** The displayed name of every entry in the image. */
  function Displayer(img: bytes, extensions: bool, typeNames: TypeNames): EntryRef -> bytes {
    (ref: EntryRef) => if ref.Within(img) then Displayed(img, ref, extensions, typeNames) else []
  }

  /** Putting a view's names behind those in `got`, with room for `room` more. */
  ghost function Fill(img: bytes, view: View, nameOf: EntryRef -> bytes, room: nat, got: seq<bytes>): Filled
    decreases view
  {
    match view
    case End(None) => Filled(got, Exhausted)
    case End(Some(failure)) => Filled(got, Broken(failure))
    case Entry(ref, rest) =>
      if !ref.Within(img) then Filled(got, Broken(OutOfBounds))
      else if room == 0 then Filled(got, Full)
      else Fill(img, rest, nameOf, room - 1, got + [nameOf(ref)])
  }

  /** prodosfs_readdir, into a buffer that takes `room` names besides "." and "..". A full
      buffer reports whatever error the thread met last. */
  method ReadDirectory(dh: DirectoryHandle, extensions: bool, typeNames: TypeNames, room: nat)
    returns (names: seq<bytes>, r: Outcome<int>)
    requires dh.Valid()
    requires Fill(dh.image, dh.Remaining(), Displayer(dh.image, extensions, typeNames), room, []).end != Broken(Endless)
    modifies dh, dh.errs
    ensures var filled := Fill(dh.image, old(dh.Remaining()), Displayer(dh.image, extensions, typeNames), room, []);
      match filled.end
      case Broken(failure) => r == Threw(failure)
      case Exhausted => r == Ok(0) && names == [[DOT], [DOT, DOT]] + filled.names
      case Full => r == Ok(-(ToErrno(old(dh.errs.code)) as int)) && names == [[DOT], [DOT, DOT]] + filled.names
  {
    ghost var nameOf := Displayer(dh.image, extensions, typeNames);
    ghost var whole := Fill(dh.image, dh.Remaining(), nameOf, room, []);
    var entries, error := ReadEntries(dh, extensions, typeNames, room, nameOf, whole);
    names := [[DOT], [DOT, DOT]] + entries;
    return names, if error.Ok? then Ok(-(ToErrno(error.value) as int)) else Threw(error.failure);
  }

  /** `nameOf` gives the displayed names. */
  ghost predicate IsDisplayer(nameOf: EntryRef -> bytes, img: bytes, extensions: bool, typeNames: TypeNames) {
    forall ref: EntryRef {:trigger Displayed(img, ref, extensions, typeNames)} ::
      ref.Within(img) ==> nameOf(ref) == Displayed(img, ref, extensions, typeNames)
  }

  /** What is left of a listing that ends. */
  ghost predicate Filling(img: bytes, view: View, nameOf: EntryRef -> bytes, room: nat, got: seq<bytes>,
                          whole: Filled)
  {
    whole == Fill(img, view, nameOf, room, got) && whole.end != Broken(Endless)
  }

  lemma FillingOn(img: bytes, ref: EntryRef, rest: View, nameOf: EntryRef -> bytes, room: nat, got: seq<bytes>,
                  whole: Filled)
    requires Filling(img, Entry(ref, rest), nameOf, room, got, whole)
    ensures !ref.Within(img) ==> whole.end == Broken(OutOfBounds)
    ensures ref.Within(img) && room == 0 ==> whole == Filled(got, Full)
    ensures ref.Within(img) && room > 0 ==>
      Filling(img, rest, nameOf, room - 1, got + [nameOf(ref)], whole) && rest != End(Some(Endless))
  {
  }

  /** The entry loop of prodosfs_readdir, and the error code that it leaves. */
  method ReadEntries(dh: DirectoryHandle, extensions: bool, typeNames: TypeNames, room: nat,
                     ghost nameOf: EntryRef -> bytes, ghost whole: Filled)
    returns (entries: seq<bytes>, error: Outcome<ProdosError>)
    requires dh.Valid() && IsDisplayer(nameOf, dh.image, extensions, typeNames)
    requires Filling(dh.image, dh.Remaining(), nameOf, room, [], whole)
    modifies dh, dh.errs
    ensures match whole.end
      case Broken(failure) => error == Threw(failure)
      case Exhausted => error == Ok(ErrEndOfFile) && entries == whole.names
      case Full => error == Ok(old(dh.errs.code)) && entries == whole.names
  {
    ghost var view := dh.Remaining();
    entries := [];
    var left := room;
    var next := Fetch(dh);
    if next.Threw? {
      return entries, Threw(next.failure);
    }
    var entry := next.value;
    while entry.Some?
      invariant dh.Valid() && InHand(entry, dh.Remaining()) == view
      invariant Filling(dh.image, view, nameOf, left, entries, whole)
      invariant dh.errs.code == if entry.Some? then old(dh.errs.code) else ErrEndOfFile
      decreases view
    {
      FillingOn(dh.image, entry.value, dh.Remaining(), nameOf, left, entries, whole);
      var name := NameOf(dh, entry.value, extensions, typeNames, nameOf);
      if name.None? {
        return entries, Threw(OutOfBounds);
      }
      if left == 0 {
        return entries, Ok(dh.errs.code);
      }
      view := dh.Remaining();
      left := left - 1;
      entries := entries + [name.value];
      next := Fetch(dh);
      if next.Threw? {
        return entries, Threw(next.failure);
      }
      entry := next.value;
    }
    return entries, Ok(dh.errs.code);
  }

  /** The displayed name of an entry, if the entry lies in the image. */
  method NameOf(dh: DirectoryHandle, ref: EntryRef, extensions: bool, typeNames: TypeNames,
                ghost nameOf: EntryRef -> bytes)
    returns (name: Option<bytes>)
    requires dh.Valid() && IsDisplayer(nameOf, dh.image, extensions, typeNames)
    ensures name == if ref.Within(dh.image) then Some(nameOf(ref)) else None
  {
    var img := dh.disk.base[..];
    return if ref.Within(img) then Some(Displayed(img, ref, extensions, typeNames)) else None;
  }

  /** With every entry in the image and room enough, the buffer gets every listed name once
      and in order; with less room it gets the first ones. */
  lemma {:induction false} FillLists(img: bytes, view: View, nameOf: EntryRef -> bytes, room: nat, got: seq<bytes>)
    requires forall i :: 0 <= i < |Listed(view)| ==> Listed(view)[i].Within(img)
    ensures var filled, n := Fill(img, view, nameOf, room, got), Min(room, |Listed(view)|);
      |filled.names| == |got| + n &&
      (forall i :: 0 <= i < |got| ==> filled.names[i] == got[i]) &&
      (forall i :: 0 <= i < n ==> filled.names[|got| + i] == nameOf(Listed(view)[i])) &&
      filled.end == if room < |Listed(view)| then Full
                    else if EndOf(view) == None then Exhausted else Broken(EndOf(view).value)
    decreases view
  {
    if view.Entry? {
      var refs, tail := Listed(view), Listed(view.rest);
      assert refs[0] == view.ref;
      forall i | 0 <= i < |tail| ensures tail[i].Within(img) {
        assert tail[i] == refs[i + 1];
      }
      if room > 0 {
        var more := got + [nameOf(view.ref)];
        FillLists(img, view.rest, nameOf, room - 1, more);
        var filled := Fill(img, view, nameOf, room, got);
        forall i | 0 <= i < Min(room, |refs|) ensures filled.names[|got| + i] == nameOf(refs[i]) {
          if i > 0 {
            assert refs[i] == tail[i - 1] && |got| + i == |more| + (i - 1);
          } else {
            assert filled.names[|got|] == more[|got|];
          }
        }
      }
    }
  }

  /** A well-formed directory is listed completely: the names of its active entries, in
      order, and no error. */
  lemma WellFormedDirectoryIsShown(img: bytes, key: nat, nameOf: EntryRef -> bytes, room: nat)
    requires key < NumBlocks(img) && WellFormedDirectory(img, key) && FileCount(img, key) <= room
    ensures var filled, active := Fill(img, DirectoryView(img, key), nameOf, room, []), ActiveEntries(img, key);
      filled.end == Exhausted && |filled.names| == |active| &&
      forall i :: 0 <= i < |active| ==> active[i].Within(img) && filled.names[i] == nameOf(active[i])
  {
    ActiveEntriesWithin(img, key);
    WellFormedDirectoryLists(img, key);
    FillLists(img, DirectoryView(img, key), nameOf, room, []);
  }
}
