/** Names as FUSE shows them (S_ExportedFilename and S_ProdosFilename in main.cxx), and
    that every name that is listed can be looked up. */
module Names {
  import opened Bytes
  import opened Errors
  import opened Layout
  import opened DirectoryListing
  import opened Paths
  import opened Lookup

  /** The type names of the file type table, by file type. */
  type TypeNames = byte -> bytes

  /** With extensions on, a file's name ends in a colon and the name of its type. */
  function Exported(img: bytes, ref: EntryRef, extensions: bool, typeNames: TypeNames): bytes
    requires ref.Within(img)
  {
    if extensions && ref.IsFile(img) then ref.FileName(img) + [COLON] + typeNames(ref.FileType(img))
    else ref.FileName(img)
  }

  /** What a reader sees of it: a name with a NUL in it is cut off there. */
  function Displayed(img: bytes, ref: EntryRef, extensions: bool, typeNames: TypeNames): bytes
    requires ref.Within(img)
  {
    CStr(Exported(img, ref, extensions, typeNames))
  }

  /** The entry's name up to a NUL, if it has one. */
  function CName(img: bytes, ref: EntryRef): bytes
    requires ref.Within(img)
  {
    CStr(ref.FileName(img))
  }

  /** The position of the last colon before `end`, or None. */
  function LastColon(s: bytes, end: nat): (p: Option<nat>)
    requires end <= |s|
    ensures p.Some? ==> p.value < end && s[p.value] == COLON && forall i :: p.value < i < end ==> s[i] != COLON
    ensures p.None? ==> forall i :: 0 <= i < end ==> s[i] != COLON
  {
    if end == 0 then None else if s[end - 1] == COLON then Some(end - 1) else LastColon(s, end - 1)
  }

  /** The path without its extension: everything before the last colon. */
  function ProdosName(path: bytes, extensions: bool): bytes {
    if !extensions then path else
      match LastColon(path, |path|)
      case None => path
      case Some(p) => Part(path, 0, p)
  }

  /** A name that a path can spell. A colon is in the way only if extensions are on. */
  predicate Plain(name: bytes, extensions: bool) {
    name != [] && SLASH !in name && (extensions ==> COLON !in name)
  }

  /** The names of a directory are plain, and no two differ in case only. */
  ghost predicate PlainNames(img: bytes, refs: seq<EntryRef>, extensions: bool) {
    (forall i :: 0 <= i < |refs| ==> refs[i].Within(img) && Plain(CName(img, refs[i]), extensions)) &&
    forall i, j :: 0 <= i < j < |refs| ==> !SameIgnoringCase(refs[i].FileName(img), refs[j].FileName(img))
  }

  predicate ColonFreeTypes(typeNames: TypeNames) {
    forall t: byte :: COLON !in typeNames(t)
  }

  /** Displaying a name and cutting the extension off again gives the name, whatever path
      comes before it, if only the type name holds no colon. */
  lemma ExtensionComesOff(img: bytes, ref: EntryRef, extensions: bool, typeNames: TypeNames, before: bytes)
    requires ref.Within(img)
    requires extensions ==> COLON !in CName(img, ref) && COLON !in before && COLON !in typeNames(ref.FileType(img))
    ensures ProdosName(before + Displayed(img, ref, extensions, typeNames), extensions) == before + CName(img, ref)
  {
    var name := ref.FileName(img);
    if extensions && ref.IsFile(img) {
      DisplayedName(name, typeNames(ref.FileType(img)));
      CutDisplayed(before, name, typeNames(ref.FileType(img)));
    } else {
      if extensions {
        NoColonIn(before, CStr(name));
      }
      NothingToCut(before + CStr(name), extensions);
    }
  }

  lemma NothingToCut(path: bytes, extensions: bool)
    requires extensions ==> COLON !in path
    ensures ProdosName(path, extensions) == path
  {
  }

  lemma DisplayedName(name: bytes, ext: bytes)
    ensures CStr(name + [COLON] + ext) == if 0 in name then CStr(name) else name + ([COLON] + CStr(ext))
  {
    assert name + [COLON] + ext == name + ([COLON] + ext);
    CStrOfConcat(name, [COLON] + ext);
    CStrOfConcat([COLON], ext);
  }

  lemma CutDisplayed(before: bytes, name: bytes, ext: bytes)
    requires COLON !in before && COLON !in CStr(name) && COLON !in ext
    ensures var shown := if 0 in name then CStr(name) else name + ([COLON] + CStr(ext));
      ProdosName(before + shown, true) == before + CStr(name)
  {
    NoColonIn(before, CStr(name));
    if 0 in name {
      NothingToCut(before + CStr(name), true);
    } else {
      CStrOfNulFree(name);
      Regroup(before, name, [COLON], CStr(ext));
      CutAtColon(before + name, CStr(ext));
    }
  }

  lemma Regroup(a: bytes, b: bytes, c: bytes, d: bytes)
    ensures a + (b + (c + d)) == (a + b) + c + d
  {
  }

  lemma NoColonIn(a: bytes, b: bytes)
    requires COLON !in a && COLON !in b
    ensures COLON !in a + b
  {
  }

  lemma CutAtColon(a: bytes, ext: bytes)
    requires COLON !in a && COLON !in ext
    ensures ProdosName(a + [COLON] + ext, true) == a
  {
    var path := a + [COLON] + ext;
    var last := LastColon(path, |path|);
    assert path[|a|] == COLON;
    forall i | |a| < i < |path| ensures path[i] != COLON {
      assert path[i] == ext[i - |a| - 1];
    }
    assert last == Some(|a|);
    assert forall i :: 0 <= i < |a| ==> path[i] == a[i];
  }

  /** A name is the first match for itself. */
  lemma NameFindsItself(img: bytes, refs: seq<EntryRef>, j: nat)
    requires PlainNames(img, refs, false) && j < |refs|
    ensures FirstMatch(img, refs, CName(img, refs[j]), j)
  {
    CStrTwice(refs[j].FileName(img));
    forall i | 0 <= i < j ensures !refs[i].NameMatches(img, CName(img, refs[j])) {
      assert !SameIgnoringCase(refs[i].FileName(img), refs[j].FileName(img));
    }
  }

  /** In the root, an entry is found under its name. */
  lemma FoundInRoot(img: bytes, j: nat)
    requires WellFormedTree(img, 2, 1) && PlainNames(img, ActiveEntries(img, 2), false) && j < |ActiveEntries(img, 2)|
    ensures Resolve(img, 2, [CName(img, ActiveEntries(img, 2)[j])], 0) == Found(ActiveEntries(img, 2)[j])
  {
    NameFindsItself(img, ActiveEntries(img, 2), j);
    ResolveStep(img, 2, [CName(img, ActiveEntries(img, 2)[j])], 0, j, 1);
  }

  /** In a directory of the root, an entry is found under both names. */
  lemma FoundInSubdirectory(img: bytes, d: nat, key: nat, j: nat, path: seq<bytes>)
    requires WellFormedTree(img, 2, 2) && PlainNames(img, ActiveEntries(img, 2), false) && d < |ActiveEntries(img, 2)|
    requires ActiveEntries(img, 2)[d].IsDirectory(img) && key == ActiveEntries(img, 2)[d].KeyPointer(img)
    requires HasChain(img, key) && PlainNames(img, ActiveEntries(img, key), false) && j < |ActiveEntries(img, key)|
    requires path == [CName(img, ActiveEntries(img, 2)[d]), CName(img, ActiveEntries(img, key)[j])]
    ensures Resolve(img, 2, path, 0) == Found(ActiveEntries(img, key)[j])
  {
    NameFindsItself(img, ActiveEntries(img, 2), d);
    ResolveStep(img, 2, path, 0, d, 2);
    NameFindsItself(img, ActiveEntries(img, key), j);
    ResolveStep(img, key, path, 1, j, 1);
  }

  /** Every entry of the root directory is found under the name it is listed with. */
  lemma ListedInRootIsFound(img: bytes, j: nat, extensions: bool, typeNames: TypeNames, path: bytes)
    requires WellFormedTree(img, 2, 1) && PlainNames(img, ActiveEntries(img, 2), extensions)
    requires j < |ActiveEntries(img, 2)|
    requires extensions ==> ColonFreeTypes(typeNames)
    requires path == [SLASH] + Displayed(img, ActiveEntries(img, 2)[j], extensions, typeNames)
    ensures var name := ProdosName(path, extensions);
      name != [SLASH] && |Split(name)| == 1 && Resolve(img, 2, Split(name), 0) == Found(ActiveEntries(img, 2)[j])
  {
    var name := CName(img, ActiveEntries(img, 2)[j]);
    assert ProdosName(path, extensions) == [SLASH] + name by {
      ExtensionComesOff(img, ActiveEntries(img, 2)[j], extensions, typeNames, [SLASH]);
    }
    assert Split([SLASH] + name) == [name] by { SplitNames(name, []); }
    FoundInRoot(img, j);
  }

  /** Every entry of a directory in the root is found under that directory's name and the
      name it is listed with. */
  lemma ListedInSubdirectoryIsFound(img: bytes, d: nat, key: nat, j: nat, extensions: bool, typeNames: TypeNames,
                                    path: bytes)
    requires WellFormedTree(img, 2, 2) && PlainNames(img, ActiveEntries(img, 2), extensions)
    requires d < |ActiveEntries(img, 2)|
    requires ActiveEntries(img, 2)[d].IsDirectory(img) && key == ActiveEntries(img, 2)[d].KeyPointer(img)
    requires HasChain(img, key) && PlainNames(img, ActiveEntries(img, key), extensions) && j < |ActiveEntries(img, key)|
    requires extensions ==> ColonFreeTypes(typeNames)
    requires path == [SLASH] + Displayed(img, ActiveEntries(img, 2)[d], extensions, typeNames) + [SLASH] +
                     Displayed(img, ActiveEntries(img, key)[j], extensions, typeNames)
    ensures var name := ProdosName(path, extensions);
      name != [SLASH] && |Split(name)| == 2 && Resolve(img, 2, Split(name), 0) == Found(ActiveEntries(img, key)[j])
  {
    var dir, ref := ActiveEntries(img, 2)[d], ActiveEntries(img, key)[j];
    var a, b := CName(img, dir), CName(img, ref);
    assert Displayed(img, dir, extensions, typeNames) == a;
    assert ProdosName(path, extensions) == [SLASH] + a + [SLASH] + b by {
      if extensions {
        NoColonIn([SLASH] + a, [SLASH]);
      }
      ExtensionComesOff(img, ref, extensions, typeNames, [SLASH] + a + [SLASH]);
    }
    assert Split([SLASH] + a + [SLASH] + b) == [a, b] by { SplitNames(a, b); }
    FoundInSubdirectory(img, d, key, j, [a, b]);
  }

  // ----- deeper paths -----

  /** Names that differ in case only have their slashes at the same places. */
  lemma SlashesMatch(a: bytes, b: bytes, k: nat)
    requires Upper(a) == Upper(b) && k < |a|
    ensures k < |b| && (a[k] == SLASH <==> b[k] == SLASH)
  {
    assert |Upper(a)| == |a| && |Upper(b)| == |b|;
    assert Upper(a)[k] == ToUpper(a[k]) && Upper(b)[k] == ToUpper(b[k]);
  }

  /** A component with a slash in it matches no name without one. */
  lemma SlashMatchesNothing(img: bytes, ref: EntryRef, component: bytes)
    requires ref.Within(img) && SLASH !in CName(img, ref)
    requires 0 !in component && SLASH in component
    ensures !ref.NameMatches(img, component)
  {
    CStrOfNulFree(component);
    var k :| 0 <= k < |component| && component[k] == SLASH;
    if Upper(component) == Upper(CName(img, ref)) {
      SlashesMatch(component, CName(img, ref), k);
    }
  }

  lemma {:induction false} PartsAreNulFree(s: bytes, start: nat, i: nat)
    requires Start(s) <= start <= |s| && 0 !in s && i < |SplitFrom(s, start)|
    ensures 0 !in SplitFrom(s, start)[i]
    decreases i
  {
    var pos := FindSlash(s, start);
    if i > 0 {
      PartsAreNulFree(s, pos + 1, i - 1);
    }
  }

  /** No entry of a first-level directory has a slash in its name. */
  ghost predicate NoSlashBelow(img: bytes)
    requires 2 < NumBlocks(img)
  {
    forall ref :: ref in Listed(DirectoryView(img, 2)) && ref.Within(img) && ref.IsDirectory(img) ==>
      ref.KeyPointer(img) < NumBlocks(img) ==> NoSlashIn(img, ref.KeyPointer(img))
  }

  ghost predicate NoSlashIn(img: bytes, key: nat)
    requires key < NumBlocks(img)
  {
    forall ref :: ref in Listed(DirectoryView(img, key)) && ref.Within(img) ==> SLASH !in CName(img, ref)
  }

  lemma SlashNotFound(img: bytes, key: nat, path: seq<bytes>)
    requires key < NumBlocks(img) && NoSlashIn(img, key)
    requires |path| > 1 && 0 !in path[1] && SLASH in path[1]
    ensures !Resolve(img, key, path, 1).Found?
  {
    if Resolve(img, key, path, 1).Found? {
      var k := SearchEnters(img, DirectoryView(img, key), path, 1);
      SlashMatchesNothing(img, Listed(DirectoryView(img, key))[k], path[1]);
    }
  }

  /** Nothing below a first-level directory can be reached, in any volume: with three
      components or more the second one keeps a slash, so the lookup stops there at the
      latest. If the first two levels are well formed, it ends in an error, and in no
      exception. */
  lemma DeepPathsAreNotFound(img: bytes, pathname: bytes)
    requires 2 < NumBlocks(img) && |Split(pathname)| >= 3 && 0 !in pathname && NoSlashBelow(img)
    ensures !Resolve(img, 2, Split(pathname), 0).Found?
    ensures WellFormedTree(img, 2, 2) ==> Resolve(img, 2, Split(pathname), 0).NotFound?
  {
    var path := Split(pathname);
    MiddleComponents(pathname, 1);
    PartsAreNulFree(pathname, Start(pathname), 1);
    if Resolve(img, 2, path, 0).Found? {
      var k := SearchEnters(img, DirectoryView(img, 2), path, 0);
      var dir := Listed(DirectoryView(img, 2))[k];
      if dir.IsDirectory(img) && dir.KeyPointer(img) < NumBlocks(img) {
        SlashNotFound(img, dir.KeyPointer(img), path);
      }
    }
    if WellFormedTree(img, 2, 2) {
      DeepPathEnds(img, path);
    }
  }

  lemma DeepPathEnds(img: bytes, path: seq<bytes>)
    requires |path| > 2 && WellFormedTree(img, 2, 2) && NoSlashBelow(img) && 0 !in path[1] && SLASH in path[1]
    ensures Resolve(img, 2, path, 0).NotFound?
  {
    ActiveEntriesWithin(img, 2);
    WellFormedDirectoryLists(img, 2);
    var refs := ActiveEntries(img, 2);
    var k := SomeFirstMatch(img, refs, path[0]);
    ResolveStep(img, 2, path, 0, k, 2);
    if k < |refs| && refs[k].IsDirectory(img) {
      var key := refs[k].KeyPointer(img);
      assert refs[k] in refs;
      NothingMatches(img, key, path);
    }
  }

  lemma NothingMatches(img: bytes, key: nat, path: seq<bytes>)
    requires |path| > 2 && WellFormedTree(img, key, 1) && 0 !in path[1] && SLASH in path[1]
    requires key < NumBlocks(img) && NoSlashIn(img, key)
    ensures Resolve(img, key, path, 1) == NotFound(ErrFileNotFound)
  {
    ActiveEntriesWithin(img, key);
    WellFormedDirectoryLists(img, key);
    var refs := ActiveEntries(img, key);
    forall j | 0 <= j < |refs| ensures !refs[j].NameMatches(img, path[1]) {
      assert refs[j] in refs;
      SlashMatchesNothing(img, refs[j], path[1]);
    }
    ResolveStep(img, key, path, 1, |refs|, 1);
  }
}
