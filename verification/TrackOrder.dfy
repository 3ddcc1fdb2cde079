/** The two orders of a 5.25-inch image: track-and-sector (RWTS) and block order.
    A block is two sectors of one track, found through two tables. */
module TrackOrder {
  import opened Bytes
  import opened Arithmetic

  const FIRST_HALF: seq<nat> := [0, 13, 11, 9, 7, 5, 3, 1]
  const SECOND_HALF: seq<nat> := [14, 12, 10, 8, 6, 4, 2, 15]

  predicate WholeTracks(img: bytes) {
    |img| % 4096 == 0
  }

  /** The sector of a track that holds half `half` (0 or 1) of block `b` of that track. */
  function SectorOf(b: nat, half: nat): (s: nat)
    requires b < 8 && half < 2
    ensures s < 16
  {
    if half == 0 then FIRST_HALF[b] else SECOND_HALF[b]
  }

  /** Offset, in a track-and-sector image, of the byte at offset `p` in block order. */
  function SourceOf(p: nat): nat {
    var index := p / 512;
    var sector := SectorOf(index % 8, p / 256 % 2);
    (index / 8 * 16 + sector) * 256 + p % 256
  }

  /** The half-block that sector `s` of a track holds: 2 * block + half. */
  function HalfBlockOf(s: nat): (h: nat)
    requires s < 16
    ensures h < 16
  {
    if s == 0 then 0
    else if s == 15 then 15
    else if s % 2 == 1 then 15 - s   // 13, 11 .. 1 are the first halves of blocks 1 .. 7
    else 15 - s                      // 14, 12 .. 2 are the second halves of blocks 0 .. 6
  }

  /** Offset, in block order, of the byte at offset `q` of a track-and-sector image. */
  function TargetOf(q: nat): nat {
    q / 4096 * 4096 + HalfBlockOf(q / 256 % 16) * 256 + q % 256
  }

  /** The tables pair every sector of a track with exactly one half-block. */
  lemma TablesAreInverse()
    ensures forall h :: 0 <= h < 16 ==> HalfBlockOf(SectorOf(h / 2, h % 2)) == h
    ensures forall s :: 0 <= s < 16 ==> SectorOf(HalfBlockOf(s) / 2, HalfBlockOf(s) % 2) == s
  {
  }

  /** The sectors of a track, in the order of the half-blocks that they hold. */
  lemma SectorOrder(h: nat)
    requires h < 16
    ensures SectorOf(h / 2, h % 2) == [0, 14, 13, 12, 11, 10, 9, 8, 7, 6, 5, 4, 3, 2, 1, 15][h]
  {
  }

  lemma OffsetParts(p: nat) returns (track: nat, s: nat, o: nat)
    ensures p == track * 4096 + s * 256 + o && s < 16 && o < 256
    ensures track == p / 4096 == p / 512 / 8
    ensures s == p / 256 % 16 && o == p % 256
    ensures p / 512 % 8 == s / 2 && p / 256 % 2 == s % 2
  {
    track := p / 4096;
    var rest := p - 4096 * track;
    s := rest / 256;
    o := rest - 256 * s;
    HalfBlock(p, track, s, o);
  }

  lemma HalfBlock(p: nat, track: nat, h: nat, o: nat)
    requires p == track * 4096 + h * 256 + o && h < 16 && o < 256
    ensures p / 256 == track * 16 + h && p % 256 == o && p / 256 % 16 == h && p / 256 % 2 == h % 2
    ensures p / 4096 == track && p / 512 / 8 == track && p / 512 % 8 == h / 2
  {
    var b, half := h / 2, h % 2;
    DivisionIsUnique(p, track * 16 + h, 256, o);
    DivisionIsUnique(p, track, 4096, h * 256 + o);
    DivisionIsUnique(p, track * 8 + b, 512, half * 256 + o);
    DivisionIsUnique(track * 16 + h, track, 16, h);
    DivisionIsUnique(track * 16 + h, track * 8 + b, 2, half);
    DivisionIsUnique(track * 8 + b, track, 8, b);
  }

  lemma SourceParts(p: nat, track: nat, h: nat, o: nat)
    requires p == track * 4096 + h * 256 + o && h < 16 && o < 256
    ensures SourceOf(p) == track * 4096 + SectorOf(h / 2, h % 2) * 256 + o
  {
    HalfBlock(p, track, h, o);
  }

  lemma TargetParts(q: nat, track: nat, s: nat, o: nat)
    requires q == track * 4096 + s * 256 + o && s < 16 && o < 256
    ensures TargetOf(q) == track * 4096 + HalfBlockOf(s) * 256 + o
  {
    HalfBlock(q, track, s, o);
  }

  /** The conversion permutes byte positions, track by track: every source byte lands
      exactly once, and TargetOf says where. */
  lemma PositionsAreABijection(p: nat)
    ensures TargetOf(SourceOf(p)) == p && SourceOf(TargetOf(p)) == p
    ensures SourceOf(p) / 4096 == p / 4096 == TargetOf(p) / 4096
  {
    TablesAreInverse();
    var track, h, o := OffsetParts(p);
    SourceParts(p, track, h, o);
    TargetParts(p, track, h, o);
    TargetParts(SourceOf(p), track, SectorOf(h / 2, h % 2), o);
    SourceParts(TargetOf(p), track, HalfBlockOf(h), o);
  }

  lemma StaysInImage(n: nat, p: nat)
    requires n % 4096 == 0 && p < n
    ensures SourceOf(p) < n && TargetOf(p) < n
  {
    PositionsAreABijection(p);
    assert p / 4096 < n / 4096;
  }

  /** `r` is `img` rearranged from track-and-sector order to block order. */
  ghost predicate IsInBlockOrder(r: bytes, img: bytes) {
    |r| == |img| &&
    forall p: nat {:trigger SourceOf(p)} :: p < |img| ==> SourceOf(p) < |img| && r[p] == img[SourceOf(p)]
  }

  /** `r` is `img` rearranged from block order to track-and-sector order. */
  ghost predicate IsInTrackOrder(r: bytes, img: bytes) {
    |r| == |img| &&
    forall q: nat {:trigger TargetOf(q)} :: q < |img| ==> TargetOf(q) < |img| && r[q] == img[TargetOf(q)]
  }

  lemma OrdersExist(img: bytes)
    requires WholeTracks(img)
    ensures exists r :: IsInBlockOrder(r, img)
    ensures exists r :: IsInTrackOrder(r, img)
  {
    forall p: nat | p < |img| ensures SourceOf(p) < |img| && TargetOf(p) < |img| {
      StaysInImage(|img|, p);
    }
    var inBlocks := seq(|img|, p requires 0 <= p < |img| => img[SourceOf(p)]);
    var inTracks := seq(|img|, q requires 0 <= q < |img| => img[TargetOf(q)]);
    assert IsInBlockOrder(inBlocks, img) && IsInTrackOrder(inTracks, img);
  }

  /** A whole-track image, rearranged from track-and-sector order to block order. */
  ghost function ToBlockOrder(img: bytes): (r: bytes)
    requires WholeTracks(img)
    ensures IsInBlockOrder(r, img)
  {
    OrdersExist(img);
    var r :| IsInBlockOrder(r, img);
    r
  }

  /** The other direction, which the source leaves unimplemented: an image as a
      track-and-sector imager would have written it. */
  ghost function ToTrackOrder(img: bytes): (r: bytes)
    requires WholeTracks(img)
    ensures IsInTrackOrder(r, img)
  {
    OrdersExist(img);
    var r :| IsInTrackOrder(r, img);
    r
  }

  lemma ConversionRoundTrips(img: bytes)
    requires WholeTracks(img)
    ensures ToBlockOrder(ToTrackOrder(img)) == img
    ensures ToTrackOrder(ToBlockOrder(img)) == img
  {
    forall p | 0 <= p < |img|
      ensures ToBlockOrder(ToTrackOrder(img))[p] == img[p]
      ensures ToTrackOrder(ToBlockOrder(img))[p] == img[p]
    {
      StaysInImage(|img|, p);
      PositionsAreABijection(p);
      assert SourceOf(TargetOf(p)) == p && TargetOf(SourceOf(p)) == p;
    }
  }

  /** Sector 11 of track 0 is the first half of block 2, as every sector is of some block:
      the fact that lets discovery look for a volume directory before converting. */
  lemma SectorElevenIsHalfOfBlockTwo(img: bytes, i: nat)
    requires WholeTracks(img) && |img| > 0 && i < 256
    ensures ToBlockOrder(img)[1024 + i] == img[2816 + i]
  {
    SourceParts(1024 + i, 0, 4, i);
  }
}
