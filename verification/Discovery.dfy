/** Finding the volume directory block of a raw image, which may be obfuscated, in
    track-and-sector order, or both (_GetVolumeDirectoryBlock in source/volume.cxx). */
module Discovery {
  import opened Bytes
  import opened Errors
  import opened Layout
  import opened TrackOrder
  import opened Obfuscation
  import opened Disks

  /** S_IsVolumeDirectoryBlock: no previous block, and a volume header. */
  predicate IsVolumeDirectory(img: bytes, at: nat)
    requires at + 5 <= |img|
  {
    img[at] == 0 && img[at + 1] == 0 && img[at + 4] / 16 == VOLUME_BLOCK
  }

  /** The key buffer that a usable password yields; None when there is none. */
  predicate ValidKey(key: Option<bytes>) {
    key.Some? ==> IsKeyBuffer(key.value)
  }

  /** Byte i of the block that begins at `at`, as the key recovers it. */
  function PlainByte(key: bytes, img: bytes, at: nat, i: nat): byte
    requires IsKeyBuffer(key) && at + i < |img|
  {
    Xor(img[at + i], KeyByte(key, i))
  }

  /** What a volume directory block may hold as its byte i. */
  predicate FitsVolume(i: nat, b: byte) {
    (i < 2 ==> b == 0) && (i == 4 ==> b / 16 == VOLUME_BLOCK)
  }

  /** The key turns the bytes at `at` into a volume directory block. Like the plain test,
      this looks at bytes 0, 1 and 4 only. */
  ghost predicate RecoversVolume(key: Option<bytes>, img: bytes, at: nat)
    requires ValidKey(key) && at + 5 <= |img|
  {
    key.Some? &&
    forall i: nat {:trigger PlainByte(key.value, img, at, i)} ::
      i < 5 ==> FitsVolume(i, PlainByte(key.value, img, at, i))
  }

  /** This is the plain test on the recovered bytes. */
  lemma RecoversIff(key: bytes, img: bytes, at: nat, plain: bytes)
    requires IsKeyBuffer(key) && at + 5 <= |img| && |plain| >= 5
    requires forall i :: 0 <= i < 5 ==> plain[i] == Xor(img[at + i], KeyByte(key, i))
    ensures RecoversVolume(Some(key), img, at) <==> IsVolumeDirectory(plain, 0)
  {
    forall i: nat | i < 5 ensures plain[i] == PlainByte(key, img, at, i) {
    }
    if RecoversVolume(Some(key), img, at) {
      assert FitsVolume(0, PlainByte(key, img, at, 0)) && FitsVolume(1, PlainByte(key, img, at, 1));
      assert FitsVolume(4, PlainByte(key, img, at, 4));
    }
  }

  /** How discovery ends, with the image it leaves in memory. */
  datatype Finding =
    | Discovered(img: bytes, converted: bool, dirty: bool)
    | Undiscovered
    | Aborted(failure: Failure)

  /** Byte i of the image with block 2 recovered. */
  function RecoveredByte(img: bytes, key: bytes, i: nat): byte
    requires i < |img| && IsKeyBuffer(key)
  {
    if i / 512 == 2 then PlainByte(key, img, 1024, i - 1024) else img[i]
  }

  ghost predicate IsRecovered(r: bytes, img: bytes, key: bytes)
    requires IsKeyBuffer(key)
  {
    |r| == |img| &&
    forall i: nat {:trigger RecoveredByte(img, key, i)} :: i < |img| ==> r[i] == RecoveredByte(img, key, i)
  }

  lemma RecoveredExists(img: bytes, key: bytes)
    requires 2 < NumBlocks(img) && IsKeyBuffer(key)
    ensures IsRecovered(WithBlock(img, 2, Deobfuscated(key, Block(img, 2))), img, key)
  {
    var r := WithBlock(img, 2, Deobfuscated(key, Block(img, 2)));
    forall i: nat | i < |img| ensures r[i] == RecoveredByte(img, key, i) {
      if i / 512 == 2 {
        assert Block(img, 2)[i % 512] == img[i] && i % 512 == i - 1024;
      }
    }
  }

  lemma RecoveredIsUnique(r: bytes, other: bytes, img: bytes, key: bytes)
    requires IsKeyBuffer(key) && IsRecovered(r, img, key) && IsRecovered(other, img, key)
    ensures r == other
  {
    forall i: nat | i < |img| ensures r[i] == other[i] {
      assert r[i] == RecoveredByte(img, key, i);
    }
  }

  /** The image with block 2 replaced by its recovered contents. */
  ghost function WithRecoveredRoot(img: bytes, key: Option<bytes>): (r: bytes)
    requires 2 < NumBlocks(img) && ValidKey(key) && key.Some?
    ensures |r| == |img| && IsRecovered(r, img, key.value)
  {
    RecoveredExists(img, key.value);
    var r :| IsRecovered(r, img, key.value);
    r
  }

  lemma RecoveredRoot(img: bytes, key: bytes)
    requires 2 < NumBlocks(img) && IsKeyBuffer(key)
    ensures WithRecoveredRoot(img, Some(key)) == WithBlock(img, 2, Deobfuscated(key, Block(img, 2)))
  {
    RecoveredExists(img, key);
    RecoveredIsUnique(WithBlock(img, 2, Deobfuscated(key, Block(img, 2))), WithRecoveredRoot(img, Some(key)), img, key);
  }

  ghost function Discover(img: bytes, key: Option<bytes>): Finding
    requires WholeBlocks(img) && ValidKey(key)
  {
    if NumBlocks(img) <= 2 then Aborted(InvalidBlockNumber)
    else if IsVolumeDirectory(img, 1024) then Discovered(img, false, false)
    else if RecoversVolume(key, img, 1024) then
      Discovered(WithRecoveredRoot(img, key), false, true)
    else if |img| < 2816 + 256 then Aborted(OutOfBounds)
    else if IsVolumeDirectory(img, 2816) then
      if WholeTracks(img) then Discovered(ToBlockOrder(img), true, false) else Aborted(OutOfBounds)
    else if key.None? then Undiscovered
    else if |img| < 2816 + 512 then Aborted(OutOfBounds)
    else if RecoversVolume(key, img, 2816) then
      if WholeTracks(img) then Discovered(WithRecoveredRoot(ToBlockOrder(img), key), true, true)
      else Aborted(OutOfBounds)
    else Undiscovered
  }

  /** The method itself, on a disk in memory. It returns the number of the volume
      directory block, or None. */
  method GetVolumeDirectoryBlock(disk: Disk, password: Option<bytes>) returns (r: Outcome<Option<nat>>)
    requires disk.Valid() && (password.Some? ==> |password.value| < 32)
    requires !disk.converted && !disk.dirty
    modifies disk, disk.base
    ensures disk.Valid() && (disk.base == old(disk.base) || fresh(disk.base))
    ensures match Discover(old(disk.Image()), KeyBuffer(password))
      case Discovered(img, converted, dirty) =>
        r == Ok(Some(2)) && disk.Image() == img && disk.converted == converted && disk.dirty == dirty
      case Undiscovered => r == Ok(None)
      case Aborted(failure) => r == Threw(failure)
  {
    ghost var img := disk.Image();
    var read := disk.ReadBlock(2);
    if read.Threw? {
      return Threw(read.failure);
    }
    var block := Part(disk.base[..], 1024, 512);
    if IsVolumeDirectory(block, 0) {
      return Ok(Some(2));
    }
    var plain := Deobfuscate(block, password);
    if plain.Some? {
      RecoversIff(KeyBuffer(password).value, img, 1024, plain.value);
    }
    if plain.Some? && IsVolumeDirectory(plain.value, 0) {
      assert plain.value == Deobfuscated(KeyBuffer(password).value, Block(img, 2));
      RecoveredRoot(img, KeyBuffer(password).value);
      var _ := disk.WriteBlock(2, plain.value);
      return Ok(Some(2));
    }
    r := TryTrackAndSector(disk, password);
  }

  /** The branches for images in track-and-sector order. */
  method TryTrackAndSector(disk: Disk, password: Option<bytes>) returns (r: Outcome<Option<nat>>)
    requires disk.Valid() && (password.Some? ==> |password.value| < 32) && 2 < disk.numBlocks
    requires !disk.converted && !disk.dirty
    requires !BlockTwoChecksFire(disk.Image(), KeyBuffer(password))
    modifies disk, disk.base
    ensures disk.Valid() && (disk.base == old(disk.base) || fresh(disk.base))
    ensures match Discover(old(disk.Image()), KeyBuffer(password))
      case Discovered(img, converted, dirty) =>
        r == Ok(Some(2)) && disk.Image() == img && disk.converted == converted && disk.dirty == dirty
      case Undiscovered => r == Ok(None)
      case Aborted(failure) => r == Threw(failure)
  {
    ghost var img := disk.Image();
    var sector := disk.ReadTrackSector(0, 11);
    var at := sector.value;
    if at + 256 > disk.base.Length {
      return Threw(OutOfBounds);
    }
    if IsVolumeDirectory(disk.base[..], at) {
      var convert := disk.Convert();
      return if convert.Ok? then Ok(Some(2)) else Threw(convert.failure);
    }
    if KeyBuffer(password).None? {
      return Ok(None);
    }
    if at + 512 > disk.base.Length {
      return Threw(OutOfBounds);
    }
    var plain := Deobfuscate(Part(disk.base[..], at, 512), password);
    RecoversIff(KeyBuffer(password).value, img, 2816, plain.value);
    if IsVolumeDirectory(plain.value, 0) {
      var convert := disk.Convert();
      if convert.Threw? {
        return Threw(convert.failure);
      }
      var block := Part(disk.base[..], 1024, 512);
      plain := Deobfuscate(block, password);
      assert plain.value == Deobfuscated(KeyBuffer(password).value, Block(ToBlockOrder(img), 2));
      RecoveredRoot(ToBlockOrder(img), KeyBuffer(password).value);
      var _ := disk.WriteBlock(2, plain.value);
      return Ok(Some(2));
    }
    return Ok(None);
  }

  // ----- what discovery guarantees -----

  /** Whether a block passes the volume test depends on bytes 0, 1 and 4 alone, and the
      keystream on the position alone: the first sector decides for the whole block. */
  lemma FirstSectorDecides(img: bytes, key: Option<bytes>)
    requires WholeTracks(img) && |img| >= 4096 && ValidKey(key)
    ensures IsVolumeDirectory(ToBlockOrder(img), 1024) <==> IsVolumeDirectory(img, 2816)
    ensures RecoversVolume(key, ToBlockOrder(img), 1024) <==> RecoversVolume(key, img, 2816)
  {
    SectorElevenIsHalfOfBlockTwo(img, 0);
    SectorElevenIsHalfOfBlockTwo(img, 1);
    SectorElevenIsHalfOfBlockTwo(img, 4);
    if key.Some? {
      SamePlainBytes(img, ToBlockOrder(img), key.value);
    }
  }

  lemma SamePlainBytes(img: bytes, ordered: bytes, key: bytes)
    requires WholeTracks(img) && |img| >= 4096 && IsKeyBuffer(key) && ordered == ToBlockOrder(img)
    ensures RecoversVolume(Some(key), ordered, 1024) <==> RecoversVolume(Some(key), img, 2816)
  {
    forall i: nat {:trigger PlainByte(key, ordered, 1024, i)} {:trigger PlainByte(key, img, 2816, i)} | i < 5
      ensures PlainByte(key, ordered, 1024, i) == PlainByte(key, img, 2816, i)
    {
      SectorElevenIsHalfOfBlockTwo(img, i);
    }
  }

  lemma RecoveredRootIsDirectory(img: bytes, key: Option<bytes>)
    requires 2 < NumBlocks(img) && ValidKey(key) && RecoversVolume(key, img, 1024)
    ensures IsVolumeDirectory(WithRecoveredRoot(img, key), 1024)
  {
    var r := WithRecoveredRoot(img, key);
    RecoveredFits(img, key.value, r, 0);
    RecoveredFits(img, key.value, r, 1);
    RecoveredFits(img, key.value, r, 4);
  }

  lemma RecoveredFits(img: bytes, key: bytes, r: bytes, i: nat)
    requires 2 < NumBlocks(img) && IsKeyBuffer(key) && RecoversVolume(Some(key), img, 1024)
    requires IsRecovered(r, img, key) && i < 5
    ensures FitsVolume(i, r[1024 + i])
  {
    assert r[1024 + i] == RecoveredByte(img, key, 1024 + i) == PlainByte(key, img, 1024, i);
  }

  /** The image that the file stands for, before its directory is recovered. */
  ghost function Ordered(img: bytes, converted: bool): (r: bytes)
    requires converted ==> WholeTracks(img)
    ensures |r| == |img|
  {
    if converted then ToBlockOrder(img) else img
  }

  /** Soundness: what is found is a volume directory, in an image of the same size that
      differs from the file only by the conversion and by the recovered block 2; and
      `dirty` is set exactly when block 2 was rewritten. */
  lemma DiscoveryIsSound(img: bytes, key: Option<bytes>)
    requires WholeBlocks(img) && ValidKey(key)
    requires Discover(img, key).Discovered?
    ensures var r := Discover(img, key);
      |r.img| == |img| && 2 < NumBlocks(img) && IsVolumeDirectory(r.img, 1024) &&
      (r.converted ==> WholeTracks(img)) &&
      var ordered := Ordered(img, r.converted);
      (!r.dirty ==> r.img == ordered) &&
      (r.dirty ==> key.Some? && r.img == WithRecoveredRoot(ordered, key)) &&
      (r.dirty <==> Block(r.img, 2) != Block(ordered, 2))
  {
    var r := Discover(img, key);
    if r.converted {
      FirstSectorDecides(img, key);
    }
    var ordered := Ordered(img, r.converted);
    if r.dirty {
      RecoveredRootIsDirectory(ordered, key);
      assert !IsVolumeDirectory(ordered, 1024);
      assert IsVolumeDirectory(Block(r.img, 2), 0) && !IsVolumeDirectory(Block(ordered, 2), 0);
    }
  }

  /** Normalising: the image that discovery leaves, saved and opened again with any
      key, is found at once and left alone. */
  lemma ReopeningChangesNothing(img: bytes, key: Option<bytes>, later: Option<bytes>)
    requires WholeBlocks(img) && ValidKey(key) && ValidKey(later)
    requires Discover(img, key).Discovered?
    ensures var saved := Discover(img, key).img;
      WholeBlocks(saved) && Discover(saved, later) == Discovered(saved, false, false)
  {
    DiscoveryIsSound(img, key);
  }

  /** The checks of block 2 that come before the image is taken for a track-and-sector one. */
  ghost predicate BlockTwoChecksFire(img: bytes, key: Option<bytes>)
    requires 2 < NumBlocks(img) && ValidKey(key)
  {
    IsVolumeDirectory(img, 1024) || RecoversVolume(key, img, 1024)
  }

  /** What these checks find is not converted. */
  lemma FiringIsNotConverted(stored: bytes, key: Option<bytes>)
    requires WholeBlocks(stored) && 2 < NumBlocks(stored) && ValidKey(key) && BlockTwoChecksFire(stored, key)
    ensures Discover(stored, key).Discovered? && !Discover(stored, key).converted
  {
  }

  /** Without them, a directory in sector 11 has the image converted. */
  lemma SectorElevenConverts(stored: bytes, key: Option<bytes>)
    requires WholeBlocks(stored) && WholeTracks(stored) && |stored| >= 4096
    requires ValidKey(key) && !BlockTwoChecksFire(stored, key)
    ensures IsVolumeDirectory(stored, 2816) ==> Discover(stored, key) == Discovered(ToBlockOrder(stored), true, false)
    ensures !IsVolumeDirectory(stored, 2816) && RecoversVolume(key, stored, 2816) ==>
      Discover(stored, key) == Discovered(WithRecoveredRoot(ToBlockOrder(stored), key), true, true)
  {
  }

  /** Opening a track-and-sector image whose converted block 2 is a plain directory. */
  lemma PlainTrackImage(stored: bytes, ordered: bytes, key: Option<bytes>)
    requires WholeBlocks(stored) && WholeTracks(stored) && |stored| >= 4096 && ordered == ToBlockOrder(stored)
    requires ValidKey(key) && IsVolumeDirectory(ordered, 1024)
    ensures !BlockTwoChecksFire(stored, key) <==> Discover(stored, key) == Discovered(ordered, true, false)
  {
    FirstSectorDecides(stored, key);
    if BlockTwoChecksFire(stored, key) {
      FiringIsNotConverted(stored, key);
    } else {
      SectorElevenConverts(stored, key);
    }
  }

  /** Opening one whose converted block 2 is an obfuscated directory. */
  lemma ProtectedTrackImage(stored: bytes, hidden: bytes, key: Option<bytes>)
    requires WholeBlocks(stored) && WholeTracks(stored) && |stored| >= 4096 && hidden == ToBlockOrder(stored)
    requires key.Some? && IsKeyBuffer(key.value)
    requires !IsVolumeDirectory(hidden, 1024) && RecoversVolume(key, hidden, 1024)
    ensures !BlockTwoChecksFire(stored, key) <==>
      Discover(stored, key) == Discovered(WithRecoveredRoot(hidden, key), true, true)
  {
    FirstSectorDecides(stored, key);
    if BlockTwoChecksFire(stored, key) {
      FiringIsNotConverted(stored, key);
    } else {
      SectorElevenConverts(stored, key);
    }
  }

  /** A volume stored in track-and-sector order opens as the same bytes as the same
      volume in block order, unless its raw block 2 is mistaken for a directory. */
  lemma TrackOrderOpensTheSame(volume: bytes, stored: bytes, key: Option<bytes>)
    requires WholeBlocks(volume) && WholeTracks(volume) && |volume| >= 4096
    requires ValidKey(key) && IsVolumeDirectory(volume, 1024)
    requires stored == ToTrackOrder(volume)
    ensures !BlockTwoChecksFire(stored, key) <==> Discover(stored, key) == Discovered(volume, true, false)
    ensures Discover(volume, key) == Discovered(volume, false, false)
  {
    assert ToBlockOrder(stored) == volume by { ConversionRoundTrips(volume); }
    PlainTrackImage(stored, volume, key);
  }

  /** The volume with its directory block obfuscated. */
  ghost function Protected(volume: bytes, key: bytes): (hidden: bytes)
    requires 2 < NumBlocks(volume) && IsKeyBuffer(key)
    ensures |hidden| == |volume|
  {
    WithRecoveredRoot(volume, Some(key))
  }

  lemma ProtectedRecovers(volume: bytes, key: bytes)
    requires 2 < NumBlocks(volume) && IsKeyBuffer(key)
    ensures WithRecoveredRoot(Protected(volume, key), Some(key)) == volume
    ensures IsVolumeDirectory(volume, 1024) ==> RecoversVolume(Some(key), Protected(volume, key), 1024)
  {
    var hidden := Protected(volume, key);
    var r := WithRecoveredRoot(hidden, Some(key));
    forall i: nat | i < |volume| ensures r[i] == volume[i] {
      RecoveredTwice(volume, key, hidden, i);
    }
    if IsVolumeDirectory(volume, 1024) {
      forall i: nat | i < 5 ensures FitsVolume(i, PlainByte(key, hidden, 1024, i)) {
        RecoveredTwice(volume, key, hidden, 1024 + i);
      }
    }
  }

  lemma RecoveredTwice(volume: bytes, key: bytes, hidden: bytes, i: nat)
    requires IsKeyBuffer(key) && IsRecovered(hidden, volume, key) && i < |volume|
    ensures RecoveredByte(hidden, key, i) == volume[i]
    ensures i / 512 == 2 ==> PlainByte(key, hidden, 1024, i - 1024) == volume[i]
  {
    assert hidden[i] == RecoveredByte(volume, key, i);
    if i / 512 == 2 {
      XorTwice(volume[i], KeyByte(key, i - 1024));
    }
  }

  /** The same for an obfuscated volume, in either order: both open as the plain volume. */
  lemma ProtectedVolumeOpensTheSame(volume: bytes, hidden: bytes, stored: bytes, key: bytes)
    requires WholeBlocks(volume) && WholeTracks(volume) && |volume| >= 4096 && IsKeyBuffer(key)
    requires hidden == Protected(volume, key) && stored == ToTrackOrder(hidden)
    requires IsVolumeDirectory(volume, 1024) && !IsVolumeDirectory(hidden, 1024)
    ensures !BlockTwoChecksFire(stored, Some(key)) <==> Discover(stored, Some(key)) == Discovered(volume, true, true)
    ensures Discover(hidden, Some(key)) == Discovered(volume, false, true)
  {
    ProtectedRecovers(volume, key);
    assert ToBlockOrder(stored) == hidden by { ConversionRoundTrips(hidden); }
    ProtectedTrackImage(stored, hidden, Some(key));
  }

  /** Discovery stays inside every image of whole tracks; of the others it leaves the
      image exactly when block 2 is no directory and the image is too short to test
      sector 11, or is taken for a track-and-sector one. */
  lemma DiscoveryInBounds(img: bytes, key: Option<bytes>)
    requires WholeBlocks(img) && ValidKey(key) && 2 < NumBlocks(img)
    ensures Discover(img, key).Aborted? ==> Discover(img, key) == Aborted(OutOfBounds)
    ensures Discover(img, key).Aborted? <==>
      !WholeTracks(img) && !BlockTwoChecksFire(img, key) &&
      (|img| < 2816 + 256 || IsVolumeDirectory(img, 2816) ||
       (key.Some? &&
        (|img| < 2816 + 512 || RecoversVolume(key, img, 2816))))
  {
    if WholeTracks(img) {
      assert |img| >= 4096;
    }
  }
}
