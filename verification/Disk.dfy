/** The in-memory disk image (source/disk.cxx). */
module Disks {
  import opened Bytes
  import opened Errors
  import opened Layout
  import opened TrackOrder

  class Disk {
    var base: array<byte>
    const numBlocks: nat
    var converted: bool
    var dirty: bool

    ghost predicate Valid()
      reads this
    {
      base.Length == 512 * numBlocks
    }

    /** The image as a value. */
    ghost function Image(): (img: bytes)
      requires Valid()
      reads this, base
      ensures WholeBlocks(img) && NumBlocks(img) == numBlocks
    {
      base[..]
    }

    /** Maps a file whose size was already found to be a multiple of the block size. */
    constructor (file: bytes)
      requires WholeBlocks(file)
      ensures Valid() && fresh(base)
      ensures Image() == file && !converted && !dirty
    {
      var a := new byte[|file|](i requires 0 <= i < |file| => file[i]);
      base := a;
      numBlocks := NumBlocks(file);
      converted := false;
      dirty := false;
      new;
      assert base[..] == file;
    }

    /** The number of a block that lies in the image, or an exception. */
    method ReadBlock(index: int) returns (r: Outcome<nat>)
      requires Valid()
      ensures r == if 0 <= index < numBlocks then Ok(index) else Threw(InvalidBlockNumber)
    {
      if index < 0 || index >= numBlocks {
        return Threw(InvalidBlockNumber);
      }
      return Ok(index);
    }

    method WriteBlock(index: int, block: bytes) returns (r: Outcome<()>)
      requires Valid() && |block| == 512
      modifies this`dirty, base
      ensures Valid()
      ensures 0 <= index < numBlocks ==>
        r == Ok(()) && dirty && Image() == WithBlock(old(Image()), index, block)
      ensures !(0 <= index < numBlocks) ==>
        r == Threw(InvalidBlockNumber) && dirty == old(dirty) && Image() == old(Image())
    {
      if index < 0 || index >= numBlocks {
        return Threw(InvalidBlockNumber);
      }
      ghost var before := base[..];
      forall i | 0 <= i < 512 {
        base[512 * index + i] := block[i];
      }
      dirty := true;
      assert base[..] == WithBlock(before, index, block);
      return Ok(());
    }

    /** The offset of a sector. Only the numbers are checked, not the image's size. */
    method ReadTrackSector(track: int, sector: int) returns (r: Outcome<nat>)
      ensures 0 <= track < 35 && 0 <= sector < 16 ==>
        r == Ok((track * 16 + sector) * 256)
      ensures !(0 <= track < 35) ==> r == Threw(InvalidTrackNumber)
      ensures 0 <= track < 35 && !(0 <= sector < 16) ==> r == Threw(InvalidSectorNumber)
    {
      if track < 0 || track >= 35 {
        return Threw(InvalidTrackNumber);
      } else if sector < 0 || sector >= 16 {
        return Threw(InvalidSectorNumber);
      }
      var index := track * 16 + sector;
      return Ok(index * 256);
    }

    /** Assembles block `index` from its two sectors into `target`, at `at`. */
    method ReadRwtsBlock(index: nat, target: array<byte>, at: nat) returns (r: Outcome<()>)
      requires Valid() && index < numBlocks
      requires target != base && at + 512 <= target.Length
      modifies target
      ensures r == if SourcesWithin(index, base.Length) then Ok(()) else Threw(OutOfBounds)
      ensures r.Ok? ==> forall p: nat {:trigger SourceOf(p)} :: InBlock(index, p) ==>
        target[at + p - 512 * index] == base[SourceOf(p)]
      ensures forall j :: 0 <= j < target.Length && !(at <= j < at + 512) ==> target[j] == old(target[j])
    {
      var track := index / 8;
      var sector1 := FIRST_HALF[index % 8];
      var sector2 := SECOND_HALF[index % 8];
      var source1 := (track * 16 + sector1) * 256;
      var source2 := (track * 16 + sector2) * 256;
      SourcesOfBlock(index, source1, source2, base.Length);
      if source1 + 256 > base.Length || source2 + 256 > base.Length {
        return Threw(OutOfBounds);
      }
      forall i | 0 <= i < 256 {
        target[at + i] := base[source1 + i];
      }
      forall i | 0 <= i < 256 {
        target[at + 256 + i] := base[source2 + i];
      }
      return Ok(());
    }

    /** Rearranges the image into block order, in a new buffer. It reads outside the
        image exactly when the image ends in the middle of a track. */
    method Convert() returns (r: Outcome<()>)
      requires Valid()
      modifies this
      ensures Valid() && dirty == old(dirty)
      ensures r == if numBlocks % 8 == 0 then Ok(()) else Threw(OutOfBounds)
      ensures r.Ok? ==> fresh(base) && converted && WholeTracks(old(Image())) && Image() == ToBlockOrder(old(Image()))
      ensures r.Threw? ==> base == old(base) && converted == old(converted) && Image() == old(Image())
    {
      ghost var img := base[..];
      SourcesWithinImage(numBlocks);
      var target := new byte[base.Length];
      var i := 0;
      while i < numBlocks
        modifies target
        invariant 0 <= i <= numBlocks
        invariant base[..] == img
        invariant forall b: nat :: b < i ==> SourcesWithin(b, |img|)
        invariant forall p: nat :: p < 512 * i ==> SourceOf(p) < |img| && target[p] == img[SourceOf(p)]
      {
        var block := ReadRwtsBlock(i, target, 512 * i);
        if block.Threw? {
          return block;
        }
        forall p: nat | 512 * i <= p < 512 * (i + 1)
          ensures SourceOf(p) < |img| && target[p] == img[SourceOf(p)]
        {
          assert InBlock(i, p);
        }
        i := i + 1;
      }
      base := target;
      converted := true;
      assert base[..] == ToBlockOrder(img);
      return Ok(());
    }

    /** What `Save` writes. */
    method Save() returns (file: bytes)
      requires Valid()
      ensures file == Image()
    {
      file := base[..];
    }
  }

  predicate InBlock(index: nat, p: nat) {
    512 * index <= p < 512 * (index + 1)
  }

  /** Both sectors of a block lie inside an image of `length` bytes. */
  ghost predicate SourcesWithin(index: nat, length: nat) {
    forall p: nat {:trigger SourceOf(p)} :: InBlock(index, p) ==> SourceOf(p) < length
  }

  /** The first half of a block comes from one sector, the second half from another. */
  lemma SourceInBlock(index: nat, source1: nat, source2: nat, p: nat)
    requires source1 == (index / 8 * 16 + SectorOf(index % 8, 0)) * 256
    requires source2 == (index / 8 * 16 + SectorOf(index % 8, 1)) * 256
    requires InBlock(index, p)
    ensures SourceOf(p) ==
      if p < 512 * index + 256 then source1 + (p - 512 * index) else source2 + (p - 512 * index - 256)
  {
    var half := if p < 512 * index + 256 then 0 else 1;
    var h, o := 2 * (index % 8) + half, p - 512 * index - 256 * half;
    assert h / 2 == index % 8 && h % 2 == half;
    SourceParts(p, index / 8, h, o);
  }

  lemma SourcesOfBlock(index: nat, source1: nat, source2: nat, length: nat)
    requires source1 == (index / 8 * 16 + SectorOf(index % 8, 0)) * 256
    requires source2 == (index / 8 * 16 + SectorOf(index % 8, 1)) * 256
    ensures forall p: nat {:trigger SourceOf(p)} :: InBlock(index, p) ==>
      SourceOf(p) == if p < 512 * index + 256 then source1 + (p - 512 * index) else source2 + (p - 512 * index - 256)
    ensures SourcesWithin(index, length) <==> source1 + 256 <= length && source2 + 256 <= length
  {
    forall p: nat {:trigger SourceOf(p)} | InBlock(index, p)
      ensures SourceOf(p) ==
        if p < 512 * index + 256 then source1 + (p - 512 * index) else source2 + (p - 512 * index - 256)
    {
      SourceInBlock(index, source1, source2, p);
    }
    LastSources(index, source1, source2, length);
  }

  lemma LastSources(index: nat, source1: nat, source2: nat, length: nat)
    requires forall p: nat {:trigger SourceOf(p)} :: InBlock(index, p) ==>
      SourceOf(p) == if p < 512 * index + 256 then source1 + (p - 512 * index) else source2 + (p - 512 * index - 256)
    ensures SourcesWithin(index, length) <==> source1 + 256 <= length && source2 + 256 <= length
  {
    var last1, last2 := 512 * index + 255, 512 * index + 511;
    assert InBlock(index, last1) && InBlock(index, last2);
    assert SourceOf(last1) == source1 + 255 && SourceOf(last2) == source2 + 255;
  }

  /** The first block of an incomplete track needs that track's last-but-one sector. */
  lemma SourcesWithinImage(numBlocks: nat)
    ensures numBlocks % 8 == 0 <==>
      forall b: nat :: b < numBlocks ==> SourcesWithin(b, 512 * numBlocks)
  {
    if numBlocks % 8 == 0 {
      forall b: nat, p: nat {:trigger SourceOf(p), SourcesWithin(b, 512 * numBlocks)}
        | 0 <= b < numBlocks && InBlock(b, p)
        ensures SourceOf(p) < 512 * numBlocks
      {
        StaysInImage(512 * numBlocks, p);
      }
    } else {
      var track := numBlocks / 8;
      var b := track * 8;
      var p := 512 * b + 256;
      SourceParts(p, track, 1, 0);
      assert InBlock(b, p) && SourceOf(p) >= 512 * numBlocks;
      assert !SourcesWithin(b, 512 * numBlocks);
    }
  }
}
