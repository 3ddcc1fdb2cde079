/** Which files open as a volume (volume_t's constructor in source/volume.cxx). */
module Mounting {
  import opened Bytes
  import opened Errors
  import opened Layout
  import opened TrackOrder
  import opened Obfuscation
  import opened Discovery

  /** The first constructor check that the volume header fails. */
  function HeaderProblem(img: bytes): Option<Failure>
    requires 2 < NumBlocks(img)
  {
    if MinVersion(img, 2) != 0 then Some(UnexpectedMinVersion)
    else if EntriesPerBlock(img, 2) != 13 then Some(UnexpectedEntriesPerBlock)
    else if EntryLength(img, 2) != 39 then Some(UnexpectedEntryLength)
    else if TotalBlocks(img, 2) != NumBlocks(img) then Some(UnexpectedTotalBlocks)
    else None
  }

  /** An image in memory that passes all checks as it is. */
  predicate IsVolume(img: bytes) {
    WholeBlocks(img) && 2 < NumBlocks(img) && IsVolumeDirectory(img, 1024) && HeaderProblem(img) == None
  }

  /** The image in memory after mounting, and whether it counts as modified. */
  datatype Mounted = Mounted(img: bytes, converted: bool, dirty: bool)

  ghost function Mount(file: bytes, key: Option<bytes>): Outcome<Mounted>
    requires ValidKey(key)
  {
    if !WholeBlocks(file) then Threw(SizeNotMultipleOfBlock) else
      match Discover(file, key)
      case Aborted(f) => Threw(f)
      case Undiscovered => Threw(NoVolumeDirectory)
      case Discovered(img, converted, dirty) =>
        DiscoveryIsSound(file, key);
        match HeaderProblem(img)
        case Some(f) => Threw(f)
        case None => Ok(Mounted(img, converted, dirty))
  }

  /** A volume in memory passes every check, and opens again from what Save writes, with
      any key or none, as the same bytes and unmodified. */
  lemma MountingNormalises(file: bytes, key: Option<bytes>, later: Option<bytes>)
    requires ValidKey(key) && ValidKey(later) && Mount(file, key).Ok?
    ensures var m := Mount(file, key).value;
      IsVolume(m.img) && |m.img| == |file| && Mount(m.img, later) == Ok(Mounted(m.img, false, false))
  {
    DiscoveryIsSound(file, key);
    ReopeningChangesNothing(file, key, later);
  }

  /** Volumes are exactly the images that mount unchanged. */
  lemma VolumesMountUnchanged(img: bytes, key: Option<bytes>)
    requires ValidKey(key)
    ensures IsVolume(img) <==> Mount(img, key) == Ok(Mounted(img, false, false))
  {
    if Mount(img, key) == Ok(Mounted(img, false, false)) {
      DiscoveryIsSound(img, key);
    }
  }

  lemma MountedAs(file: bytes, key: Option<bytes>, img: bytes, converted: bool, dirty: bool)
    requires ValidKey(key) && WholeBlocks(file) && IsVolume(img)
    requires Discover(file, key) == Discovered(img, converted, dirty)
    ensures Mount(file, key) == Ok(Mounted(img, converted, dirty))
  {
  }

  lemma PlainFormsMountAlike(img: bytes, key: bytes, inTracks: bytes)
    requires IsVolume(img) && WholeTracks(img) && IsKeyBuffer(key)
    requires inTracks == ToTrackOrder(img) && !BlockTwoChecksFire(inTracks, Some(key))
    ensures Mount(img, Some(key)) == Ok(Mounted(img, false, false))
    ensures Mount(inTracks, Some(key)) == Ok(Mounted(img, true, false))
  {
    TrackOrderOpensTheSame(img, inTracks, Some(key));
    MountedAs(img, Some(key), img, false, false);
    MountedAs(inTracks, Some(key), img, true, false);
  }

  lemma ProtectedFormsMountAlike(img: bytes, key: bytes, hidden: bytes, hiddenInTracks: bytes)
    requires IsVolume(img) && WholeTracks(img) && IsKeyBuffer(key)
    requires hidden == Protected(img, key) && !IsVolumeDirectory(hidden, 1024)
    requires hiddenInTracks == ToTrackOrder(hidden) && !BlockTwoChecksFire(hiddenInTracks, Some(key))
    ensures Mount(hidden, Some(key)) == Ok(Mounted(img, false, true))
    ensures Mount(hiddenInTracks, Some(key)) == Ok(Mounted(img, true, true))
  {
    ProtectedVolumeOpensTheSame(img, hidden, hiddenInTracks, key);
    MountedAs(hidden, Some(key), img, false, true);
    MountedAs(hiddenInTracks, Some(key), img, true, true);
  }

  /** A whole-track volume mounts as the same bytes from its block-ordered file, its
      track-and-sector file, and the obfuscated form of either, as long as the raw block 2
      of the track-and-sector file is not mistaken for a directory. */
  lemma AllFormsMountAlike(img: bytes, key: bytes, hidden: bytes, inTracks: bytes, hiddenInTracks: bytes)
    requires IsVolume(img) && WholeTracks(img) && IsKeyBuffer(key)
    requires hidden == Protected(img, key) && !IsVolumeDirectory(hidden, 1024)
    requires inTracks == ToTrackOrder(img) && hiddenInTracks == ToTrackOrder(hidden)
    requires !BlockTwoChecksFire(inTracks, Some(key)) && !BlockTwoChecksFire(hiddenInTracks, Some(key))
    ensures Mount(img, Some(key)) == Ok(Mounted(img, false, false))
    ensures Mount(inTracks, Some(key)) == Ok(Mounted(img, true, false))
    ensures Mount(hidden, Some(key)) == Ok(Mounted(img, false, true))
    ensures Mount(hiddenInTracks, Some(key)) == Ok(Mounted(img, true, true))
  {
    PlainFormsMountAlike(img, key, inTracks);
    ProtectedFormsMountAlike(img, key, hidden, hiddenInTracks);
  }

  // ----- what counts as modified -----

  /** Raw block 2 is no directory, but sector 11 of track 0 is the start of a plain one. */
  ghost predicate IsPlainTrackImage(file: bytes, key: Option<bytes>)
    requires ValidKey(key)
  {
    WholeBlocks(file) && |file| >= 3072 && !BlockTwoChecksFire(file, key) && IsVolumeDirectory(file, 2816)
  }

  /** `dirty` should say that the image in memory is not what the file holds. It does,
      except for plain images in track-and-sector order: converting does not set it. */
  lemma DirtyMeansModifiedIff(file: bytes, key: Option<bytes>)
    requires ValidKey(key) && Mount(file, key).Ok?
    ensures var m := Mount(file, key).value;
      ((m.dirty <==> m.img != file) <==> !IsPlainTrackImage(file, key)) &&
      (IsPlainTrackImage(file, key) ==> !m.dirty && m.converted && m.img != file)
  {
    DiscoveryIsSound(file, key);
    var m := Mount(file, key).value;
    if !IsVolumeDirectory(file, 1024) {
      assert m.img != file;
    }
  }

  /** A volume of eight blocks with an empty root directory. */
  function SmallVolume(): (img: bytes)
    ensures IsVolume(img) && WholeTracks(img) && |img| == 4096
    ensures forall i :: 0 <= i < 4096 && !(1028 <= i < 1066) ==> img[i] == 0
  {
    seq(4096, i =>
      if i == 1028 then 0xF1 else if i == 1059 then 39 else if i == 1060 then 13 else if i == 1065 then 8 else 0)
  }

  /** The track-and-sector form of this volume opens, but does not count as modified,
      although the image in memory differs from the file. */
  lemma ConvertedButNotDirty()
    ensures var file := ToTrackOrder(SmallVolume());
      IsPlainTrackImage(file, None) && Mount(file, None) == Ok(Mounted(SmallVolume(), true, false)) &&
      file != SmallVolume()
  {
    var volume := SmallVolume();
    var file := ToTrackOrder(volume);
    TargetParts(1028, 0, 4, 4);
    assert file[1028] == volume[TargetOf(1028)] == 0;
    TrackOrderOpensTheSame(volume, file, None);
    DirtyMeansModifiedIff(file, None);
    assert ToBlockOrder(file) == volume by { ConversionRoundTrips(volume); }
    FirstSectorDecides(file, None);
  }
}
