/** The operations on the sample volume, with their results written out. */
module SampleRuns {
  import opened Bytes
  import opened Arithmetic
  import opened Characters
  import opened Errors
  import opened Layout
  import opened Obfuscation
  import opened Discovery
  import opened Mounting
  import opened DirectoryListing
  import opened Lookup
  import opened FileContents
  import opened Paths
  import opened Names
  import opened Bitmap
  import opened Volumes
  import opened Renaming
  import opened Fuse
  import opened FileSystem
  import opened Samples

  /** The volume mounts as it is, without a password. */
  method OpenSample(file: bytes, errs: ThreadError) returns (v: Volume)
    requires IsSample(file)
    ensures fresh(v) && fresh(v.disk) && v.errs == errs && v.Valid() && v.disk.Image() == file
    ensures !v.disk.dirty && !v.disk.converted
  {
    SampleMounts(file);
    assert KeyBuffer(None) == None;
    var opening := OpenVolume(file, None, errs);
    v := opening.value;
  }

  lemma TwoComponents(path: bytes, a: bytes, b: bytes)
    requires SLASH !in a && SLASH !in b && path == [0x2F] + a + [0x2F] + b
    ensures Split(path) == [a, b] && path != [SLASH]
  {
    SplitNames(a, b);
    assert |path| >= 2;
  }

  lemma OneComponent(path: bytes, a: bytes)
    requires a != [] && SLASH !in a && path == [0x2F] + a
    ensures Split(path) == [a] && path != [SLASH]
  {
    SplitNames(a, []);
    assert |path| >= 2;
  }

  /** "/dir/f" holds HELLO. */
  method ReadHello(v: Volume) returns (r: Outcome<bytes>)
    requires v.Valid() && IsSample(v.disk.Image())
    modifies v.errs
    ensures r == Ok([0x48, 0x45, 0x4C, 0x4C, 0x4F])
  {
    var path: bytes := [0x2F, 0x64, 0x69, 0x72, 0x2F, 0x66];
    HelloIsFound(v, path);
    ghost var contents: bytes := [0x48, 0x45, 0x4C, 0x4C, 0x4F];
    assert Sum([2, 3]) == 2 + Sum([3]) by {
      assert [2, 3][1..] == [3];
    }
    r := ReadPath(v, path, false, [2, 3], 0, false, EntryRef(3, 1), contents);
    assert Served(contents, false, 0, 5) == contents;
  }

  lemma HelloIsFound(v: Volume, path: bytes)
    requires v.Valid() && IsSample(v.disk.Image()) && path == [0x2F, 0x64, 0x69, 0x72, 0x2F, 0x66]
    ensures FindsFile(v, ProdosName(path, false), EntryRef(3, 1))
    ensures Contents(v.disk.Image(), EntryRef(3, 1)) == [0x48, 0x45, 0x4C, 0x4C, 0x4F]
  {
    assert path == [0x2F] + [0x64, 0x69, 0x72] + [0x2F] + [0x66];
    TwoComponents(path, [0x64, 0x69, 0x72], [0x66]);
    FirstFileIsFound(v.disk.Image(), [0x64, 0x69, 0x72], 0x66);
    SeedlingSamples(v.disk.Image());
  }

  /** "/last:TXT", with extensions on, is HI and an LF once it is translated. */
  method ReadText(v: Volume) returns (r: Outcome<bytes>)
    requires v.Valid() && IsSample(v.disk.Image())
    modifies v.errs
    ensures r == Ok([0x48, 0x49, 0x0A])
  {
    var path: bytes := [0x2F, 0x6C, 0x61, 0x73, 0x74, 0x3A, 0x54, 0x58, 0x54];
    TextIsFound(v, path);
    ghost var contents: bytes := [0xC8, 0xC9, 0x8D];
    assert Sum([3]) == 3 + Sum([]) by {
      assert [3][1..] == [];
    }
    r := ReadPath(v, path, true, [3], 0, true, EntryRef(305, 0), contents);
    TextServed(contents);
  }

  lemma TextServed(contents: bytes)
    requires contents == [0xC8, 0xC9, 0x8D]
    ensures Served(contents, true, 0, 3) == [0x48, 0x49, 0x0A]
  {
    assert Shown(true, 0xC8) == 0x48 && Shown(true, 0xC9) == 0x49 && Shown(true, 0x8D) == 0x0A;
    assert Served(contents, true, 0, 3)[0] == Shown(true, contents[0]);
  }

  lemma TextIsFound(v: Volume, path: bytes)
    requires v.Valid() && IsSample(v.disk.Image())
    requires path == [0x2F, 0x6C, 0x61, 0x73, 0x74, 0x3A, 0x54, 0x58, 0x54]
    ensures FindsFile(v, ProdosName(path, true), EntryRef(305, 0))
    ensures Contents(v.disk.Image(), EntryRef(305, 0)) == [0xC8, 0xC9, 0x8D]
    ensures EntryRef(305, 0).FileType(v.disk.Image()) == 4
  {
    var name: bytes := [0x2F, 0x6C, 0x61, 0x73, 0x74];
    assert path == name + [0x3A] + [0x54, 0x58, 0x54];
    CutAtColon(name, [0x54, 0x58, 0x54]);
    assert name == [0x2F] + [0x6C, 0x61, 0x73, 0x74];
    OneComponent(name, [0x6C, 0x61, 0x73, 0x74]);
    LastIsFound(v.disk.Image());
    RootEntries(v.disk.Image());
    SeedlingSamples(v.disk.Image());
  }

  /** "/DIR" lists ".", "..", "F" and "G". */
  method ListDirectory(v: Volume, typeNames: TypeNames) returns (names: seq<bytes>, r: Outcome<int>)
    requires v.Valid() && IsSample(v.disk.Image())
    modifies v.errs
    ensures r == Ok(0) && names == [[0x2E], [0x2E, 0x2E], [0x46], [0x47]]
  {
    var path: bytes := [0x2F, 0x44, 0x49, 0x52];
    DirectoryIsFound(v, path);
    var dh := v.OpenDirectory(path);
    ghost var img := v.disk.Image();
    DirectoryNames(img, typeNames);
    names, r := ReadDirectory(dh.value.value, false, typeNames, 10);
  }

  lemma DirectoryIsFound(v: Volume, path: bytes)
    requires v.Valid() && IsSample(v.disk.Image()) && path == [0x2F, 0x44, 0x49, 0x52]
    ensures path != [SLASH] && v.Lookup(path) == Found(EntryRef(2, 1))
    ensures var dir, img := EntryRef(2, 1), v.disk.Image();
      dir.Within(img) && dir.IsDirectory(img) && dir.KeyPointer(img) == 3 && IsDirectoryKey(img, 3)
  {
    var name: bytes := [0x44, 0x49, 0x52];
    assert path == [0x2F] + name;
    OneComponent(path, name);
    DirectoryResolves(v.disk.Image(), name);
    RootEntries(v.disk.Image());
    DirectoryEntries(v.disk.Image());
  }

  lemma DirectoryResolves(img: bytes, name: bytes)
    requires IsSample(img) && name == [0x44, 0x49, 0x52]
    ensures Resolve(img, 2, [name], 0) == Found(EntryRef(2, 1))
  {
    SampleMounts(img);
    RootListing(img);
    RootEntries(img);
    Matches(name, name);
    assert Resolve(img, 2, [name], 0) == Enter(img, EntryRef(2, 1), [name], 0);
  }

  lemma DirectoryNames(img: bytes, typeNames: TypeNames)
    requires IsSample(img)
    ensures Fill(img, DirectoryView(img, 3), Displayer(img, false, typeNames), 10, []) ==
      Filled([[0x46], [0x47]], Exhausted)
  {
    DirectoryListed(img);
    DirectoryEntries(img);
    CStrOfNulFree([0x46]);
    CStrOfNulFree([0x47]);
    var nameOf := Displayer(img, false, typeNames);
    assert nameOf(EntryRef(3, 1)) == [0x46] && nameOf(EntryRef(300, 0)) == [0x47];
    TwoNames(img, EntryRef(3, 1), EntryRef(300, 0), nameOf);
  }

  lemma TwoNames(img: bytes, a: EntryRef, b: EntryRef, nameOf: EntryRef -> bytes)
    requires a.Within(img) && b.Within(img)
    ensures Fill(img, Entry(a, Entry(b, End(None))), nameOf, 10, []) == Filled([nameOf(a), nameOf(b)], Exhausted)
  {
    assert [] + [nameOf(a)] == [nameOf(a)];
    assert [nameOf(a)] + [nameOf(b)] == [nameOf(a), nameOf(b)];
    assert Fill(img, Entry(b, End(None)), nameOf, 9, [nameOf(a)]) ==
      Fill(img, End(None), nameOf, 8, [nameOf(a)] + [nameOf(b)]);
  }

  /** 312 of the 320 blocks are in use, and the root has two. */
  method CountSample(v: Volume) returns (used: Outcome<int>, root: Outcome<nat>)
    requires v.Valid() && IsSample(v.disk.Image())
    ensures used == Ok(312) && root == Ok(2)
  {
    ghost var img := v.disk.Image();
    SampleMounts(img);
    SampleCount(img);
    used := v.CountBlocksUsed();
    TwoRootBlocks(img);
    root := v.CountRootDirectoryBlocks();
  }

  lemma SampleCount(img: bytes)
    requires IsSample(img)
    ensures var bits := BitmapBytes(img, 313);
      |bits| == 320 && PopSum(bits, 320) == 8 && BitmapFits(313, 320)
  {
    var bits := BitmapBytes(img, 313);
    forall i | 0 <= i < 320 ensures bits[i] == if i == 39 then 0xFF else 0 {
      assert bits[i] == img[160256 + i];
    }
    OneFullByte(bits, 320);
  }

  lemma {:induction false} OneFullByte(bits: bytes, n: nat)
    requires n <= |bits| && forall i :: 0 <= i < n ==> bits[i] == if i == 39 then 0xFF else 0
    ensures PopSum(bits, n) == if n <= 39 then 0 else 8
  {
    if n > 0 {
      OneFullByte(bits, n - 1);
      AllBits();
    }
  }

  lemma AllBits()
    ensures PopCount(0) == 0 && PopCount(0xFF) == 8
  {
    assert PopCount(0x03) == 2;
    assert PopCount(0x0F) == 4;
    assert PopCount(0x3F) == 6;
  }

  lemma TwoRootBlocks(img: bytes)
    requires IsSample(img)
    ensures HasChain(img, 2) && |ChainFrom(img, 2)| == 2 && ChainEndsWell(img, ChainFrom(img, 2))
  {
    SampleMounts(img);
    var chain: seq<nat> := [2, 305];
    assert chain[1..] == [305] && IsChain(img, [305]);
    assert IsChain(img, chain);
    ChainIsUnique(img, chain, ChainFrom(img, 2));
  }

  /** Renaming the volume to "hello.1" makes it HELLO.1; "1up" is no name. */
  method RenameSample(v: Volume, beyond: bytes) returns (name: bytes)
    requires v.Valid() && IsSample(v.disk.Image()) && |beyond| == 15
    modifies v.disk`dirty, v.disk.base
    ensures v.Valid() && v.disk.dirty && name == [0x48, 0x45, 0x4C, 0x4C, 0x4F, 0x2E, 0x31]
    ensures v.disk.base.Length == 163840 && v.disk.base[1028] == 0xF7 && v.disk.base[1029] == 0x48
  {
    var asked: bytes := [0x68, 0x65, 0x6C, 0x6C, 0x6F, 0x2E, 0x31];
    ghost var before := v.disk.Image();
    var refused := v.Rename([0x31, 0x75, 0x70], beyond);
    var renamed := v.Rename(asked, beyond);
    assert v.disk.Image() == Renamed(before, asked, beyond);
    HelloInCapitals(before, asked, beyond);
    name := v.Name();
  }

  lemma HelloInCapitals(img: bytes, asked: bytes, beyond: bytes)
    requires 2 < NumBlocks(img) && asked == [0x68, 0x65, 0x6C, 0x6C, 0x6F, 0x2E, 0x31] && |beyond| == 15
    ensures LegalName(asked)
    ensures VolumeName(Renamed(img, asked, beyond)) == [0x48, 0x45, 0x4C, 0x4C, 0x4F, 0x2E, 0x31]
  {
    NameReadsBack(img, asked, beyond);
    var name := VolumeName(Renamed(img, asked, beyond));
    assert name[0] == 0x48 && name[1] == 0x45 && name[2] == 0x4C && name[3] == 0x4C && name[4] == 0x4F;
  }

  // ----- a protected volume -----

  /** The small volume, obfuscated with the password ABC: in block 2, every byte is changed
      by 0x3E and 0x3D in turn. */
  function Cipher(): (img: bytes)
    ensures |img| == 4096
  {
    seq<byte>(4096, i =>
      if i == 1028 then 0xCF else if i == 1059 then 0x1A else if i == 1060 then 0x33 else if i == 1065 then 0x35
      else if 1024 <= i < 1536 then (if i % 2 == 0 then 0x3E else 0x3D) else 0)
  }

  lemma KeyStream()
    ensures Xor(0x41, 0x7F) == 0x3E && Xor(0x42, 0x7F) == 0x3D
  {
    XorIs(0x41, 0x7F, 0x3E);
    XorIs(0x42, 0x7F, 0x3D);
  }

  lemma SameAgain(b: byte)
    ensures Xor(b, b) == 0
  {
    forall k: nat {:trigger BitOf(0, k)} | k < 8 ensures BitOf(0, k) == (BitOf(b, k) + BitOf(b, k)) % 2 {
    }
    XorIs(b, b, 0);
  }

  lemma TypeAndVersion()
    ensures Xor(0xCF, 0x3E) == 0xF1 && Xor(0x1A, 0x3D) == 39
  {
    XorIs(0xCF, 0x3E, 0xF1);
    XorIs(0x1A, 0x3D, 39);
  }

  lemma EntriesAndBlocks()
    ensures Xor(0x33, 0x3E) == 13 && Xor(0x35, 0x3D) == 8
  {
    XorIs(0x33, 0x3E, 13);
    XorIs(0x35, 0x3D, 8);
  }

  lemma CipherKey(key: Option<bytes>)
    requires key == KeyBuffer(Some([0x41, 0x42, 0x43, 0x0A]))
    ensures key.Some? && Period(key.value) == 2 && KeyByte(key.value, 0) == 0x3E
    ensures forall i: nat {:trigger KeyByte(key.value, i)} :: KeyByte(key.value, i) == if i % 2 == 0 then 0x3E else 0x3D
  {
    UsablePasswords([0x41, 0x42, 0x43, 0x0A]);
    PeriodOf(key.value, [0x41, 0x42]);
    KeyStream();
    forall i: nat {:trigger KeyByte(key.value, i)} ensures KeyByte(key.value, i) == if i % 2 == 0 then 0x3E else 0x3D {
      WrapIsModulo(i, 2);
    }
  }

  lemma CipherByte(key: bytes, i: nat)
    requires Some(key) == KeyBuffer(Some([0x41, 0x42, 0x43, 0x0A])) && i < 4096
    ensures RecoveredByte(Cipher(), key, i) == SmallVolume()[i]
  {
    CipherKey(Some(key));
    SameAgain(0x3E);
    SameAgain(0x3D);
    TypeAndVersion();
    EntriesAndBlocks();
  }

  /** It mounts with that password, in a file that ends with a newline, and not without. */
  lemma CipherMounts(key: Option<bytes>)
    requires key == KeyBuffer(Some([0x41, 0x42, 0x43, 0x0A]))
    ensures Mount(Cipher(), key) == Ok(Mounted(SmallVolume(), false, true))
    ensures Mount(Cipher(), None) == Threw(NoVolumeDirectory)
  {
    var img, small := Cipher(), SmallVolume();
    CipherKey(key);
    forall i: nat {:trigger PlainByte(key.value, img, 1024, i)} | i < 5
      ensures FitsVolume(i, PlainByte(key.value, img, 1024, i))
    {
      CipherByte(key.value, 1024 + i);
    }
    assert IsRecovered(small, img, key.value) by {
      forall i: nat | i < 4096 ensures small[i] == RecoveredByte(img, key.value, i) {
        CipherByte(key.value, i);
      }
    }
    RecoveredIsUnique(small, WithRecoveredRoot(img, key), img, key.value);
    assert !IsVolumeDirectory(img, 1024) && !IsVolumeDirectory(img, 2816);
    MountedAs(img, key, small, false, true);
  }
}
