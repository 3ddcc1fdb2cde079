/** What a directory lists: the chain of its blocks, and the entries that a cursor meets
    on its way along it (ProDOS 8 Technical Reference Manual, section B.2.5, Reading a
    Directory File). */
module DirectoryListing {
  import opened Bytes
  import opened Errors
  import opened Arithmetic
  import opened Gathering
  import opened Layout

  // ----- chains -----

  /** Successive blocks, each the next of the one before; the last has no next block, or
      one outside the image. */
  ghost predicate IsChain(img: bytes, chain: seq<nat>) {
    |chain| > 0 && chain[0] < NumBlocks(img) &&
    var next := NextBlock(img, chain[0]);
    if |chain| == 1 then next == 0 || next >= NumBlocks(img)
    else next != 0 && next == chain[1] && IsChain(img, chain[1..])
  }

  /** The last block of the chain says so itself. */
  ghost predicate ChainEndsWell(img: bytes, chain: seq<nat>)
    requires IsChain(img, chain)
  {
    if |chain| == 1 then NextBlock(img, chain[0]) == 0 else ChainEndsWell(img, chain[1..])
  }

  /** There is a next block, in the image. */
  predicate HasNext(img: bytes, block: nat)
    requires block < NumBlocks(img)
  {
    NextBlock(img, block) != 0 && NextBlock(img, block) < NumBlocks(img)
  }

  /** The exception for going past the last block of a chain. */
  function StopAt(img: bytes, last: nat): Failure
    requires last < NumBlocks(img)
  {
    if NextBlock(img, last) == 0 then NoMoreDirectoryBlocks else InvalidBlockNumber
  }

  /** Following the next pointers from `key` comes to an end. */
  ghost predicate HasChain(img: bytes, key: nat) {
    exists chain :: IsChain(img, chain) && chain[0] == key
  }

  ghost function ChainFrom(img: bytes, key: nat): (chain: seq<nat>)
    requires HasChain(img, key)
    ensures IsChain(img, chain) && chain[0] == key
  {
    var chain :| IsChain(img, chain) && chain[0] == key;
    chain
  }

  lemma {:induction false} ChainIsUnique(img: bytes, a: seq<nat>, b: seq<nat>)
    requires IsChain(img, a) && IsChain(img, b) && a[0] == b[0]
    ensures a == b
  {
    if |a| > 1 && |b| > 1 {
      ChainIsUnique(img, a[1..], b[1..]);
      assert a == [a[0]] + a[1..] && b == [b[0]] + b[1..];
    }
  }

  lemma {:induction false} ChainSuffix(img: bytes, chain: seq<nat>, i: nat)
    requires IsChain(img, chain) && i < |chain|
    ensures IsChain(img, chain[i..])
  {
    if i > 0 {
      ChainSuffix(img, chain[1..], i - 1);
      assert chain[1..][i - 1..] == chain[i..];
    }
  }

  /** A chain that ends never meets a block twice. */
  lemma ChainHasNoRepeats(img: bytes, chain: seq<nat>, i: nat, j: nat)
    requires IsChain(img, chain) && i < j < |chain|
    ensures chain[i] != chain[j]
  {
    if chain[i] == chain[j] {
      ChainSuffix(img, chain, i);
      ChainSuffix(img, chain, j);
      ChainIsUnique(img, chain[i..], chain[j..]);
      assert false;
    }
  }

  lemma {:induction false} DistinctNumbersFit(s: seq<nat>, n: nat)
    requires forall i :: 0 <= i < |s| ==> s[i] < n
    requires forall i, j :: 0 <= i < j < |s| ==> s[i] != s[j]
    ensures |s| <= n
  {
    if s == [] {
      return;
    }
    assert s[0] < n;
    if k :| 0 <= k < |s| && s[k] == n - 1 {
      DistinctNumbersFit(s[..k] + s[k + 1..], n - 1);
    } else {
      DistinctNumbersFit(s, n - 1);
    }
  }

  /** So a chain is no longer than the volume has blocks. */
  lemma ChainFitsVolume(img: bytes, chain: seq<nat>)
    requires IsChain(img, chain)
    ensures |chain| <= NumBlocks(img)
  {
    forall i | 0 <= i < |chain| ensures chain[i] < NumBlocks(img) {
      ChainSuffix(img, chain, i);
    }
    forall i, j | 0 <= i < j < |chain| ensures chain[i] != chain[j] {
      ChainHasNoRepeats(img, chain, i, j);
    }
    DistinctNumbersFit(chain, NumBlocks(img));
  }

  // ----- what the cursor meets -----

  /** What a cursor delivers from where it stands: some entries, then the end of file
      (End(None)) or an exception. */
  datatype View = End(failure: Option<Failure>) | Entry(ref: EntryRef, rest: View)

  /** The entries of a view. */
  function Listed(view: View): seq<EntryRef> {
    match view
    case End(_) => []
    case Entry(ref, rest) => [ref] + Listed(rest)
  }

  /** How a view ends. */
  function EndOf(view: View): Option<Failure> {
    match view
    case End(failure) => failure
    case Entry(_, rest) => EndOf(rest)
  }

  function With(img: bytes, here: EntryRef, rest: View): View
    requires here.Addr() < |img|
  {
    if here.IsInactive(img) then rest else Entry(here, rest)
  }

  /** What a cursor at slot `slot` of block `block` meets while it enters at most `steps`
      more blocks, for any number `entriesPerBlock` in the header. The slot after the last
      regular one is looked at too. An entry is delivered only if the cursor can move on
      behind it. */
  function Scan(img: bytes, entriesPerBlock: nat, block: nat, slot: nat, steps: nat): View
    requires block < NumBlocks(img)
    decreases steps, if slot <= entriesPerBlock then entriesPerBlock - slot + 1 else 0
  {
    var here := EntryRef(block, slot);
    if here.Addr() >= |img| then End(Some(OutOfBounds))
    else if slot < entriesPerBlock then With(img, here, Scan(img, entriesPerBlock, block, slot + 1, steps))
    else if !HasNext(img, block) then End(Some(StopAt(img, block)))
    else if steps == 0 then End(Some(Endless))
    else With(img, here, Scan(img, entriesPerBlock, NextBlock(img, block), 0, steps - 1))
  }

  /** The directory's file count ends the listing, if the entries last that long. */
  function Upto(view: View, count: nat): View {
    if count == 0 then End(None) else
      match view
      case End(_) => view
      case Entry(ref, rest) => Entry(ref, Upto(rest, count - 1))
  }

  lemma {:induction false} UptoLists(view: View, count: nat)
    ensures Listed(Upto(view, count)) == if count <= |Listed(view)| then Listed(view)[..count] else Listed(view)
    ensures EndOf(Upto(view, count)) == if count <= |Listed(view)| then None else EndOf(view)
    decreases view
  {
    if count > 0 && view.Entry? {
      UptoLists(view.rest, count - 1);
    }
  }

  /** A cursor that enters so many blocks without having delivered all entries goes round
      in a circle for ever (see module Circles). */
  function Horizon(img: bytes, key: nat): (n: nat)
    requires key < NumBlocks(img)
  {
    Times(FileCount(img, key), NumBlocks(img) + 1)
  }

  /** Everything that the directory with key block `key` lists. */
  function DirectoryView(img: bytes, key: nat): View
    requires key < NumBlocks(img)
  {
    Upto(Scan(img, EntriesPerBlock(img, key), key, 1, Horizon(img, key)), FileCount(img, key))
  }

  // ----- well-formed directories -----

  /** The entry lies in the image and is in use. */
  predicate IsActive(img: bytes, ref: EntryRef) {
    ref.Within(img) && !ref.IsInactive(img)
  }

  function Activity(img: bytes): EntryRef -> bool {
    ref => IsActive(img, ref)
  }

  /** The active entries of a directory, in chain order, from slot `from` of the first
      block on. */
  ghost function Active(img: bytes, chain: seq<nat>, from: nat): seq<EntryRef>
    requires |chain| > 0
  {
    Gather(Activity(img), chain, from)
  }

  ghost function ActiveEntries(img: bytes, key: nat): seq<EntryRef>
    requires HasChain(img, key)
  {
    Active(img, ChainFrom(img, key), 1)
  }

  /** The unused last byte of a block looks like an inactive slot 13. */
  predicate SentinelClear(img: bytes, block: nat)
    requires block < NumBlocks(img)
  {
    img[512 * block + 511] / 16 == NONE
  }

  /** The unused byte is clear in every block that the cursor must leave to get to an
      active entry. */
  ghost predicate SentinelsClear(img: bytes, chain: seq<nat>)
    requires IsChain(img, chain)
  {
    |chain| > 1 ==>
      (Active(img, chain[1..], 0) != [] ==> SentinelClear(img, chain[0])) && SentinelsClear(img, chain[1..])
  }

  /** What it takes for a directory to be listed rightly (see ListsExactlyIff). */
  ghost predicate WellFormedDirectory(img: bytes, key: nat) {
    HasChain(img, key) && IsDirectoryKey(img, key) && EntriesPerBlock(img, key) == 13 &&
    FileCount(img, key) == |ActiveEntries(img, key)| && SentinelsClear(img, ChainFrom(img, key))
  }

  /** The listing is the active entries, in order, and then the end of file. */
  ghost predicate ListsExactly(img: bytes, key: nat)
    requires HasChain(img, key)
  {
    Listed(DirectoryView(img, key)) == ActiveEntries(img, key) && EndOf(DirectoryView(img, key)) == None
  }

  lemma {:induction false} NothingBehind(img: bytes, chain: seq<nat>, slot: nat)
    requires IsChain(img, chain) && Active(img, chain, slot) == []
    ensures |chain| > 1 ==> Active(img, chain[1..], 0) == []
    ensures SentinelsClear(img, chain)
    decreases |chain|, 13 - slot
  {
    if slot < 13 {
      NothingBehind(img, chain, slot + 1);
    } else if |chain| > 1 {
      NothingBehind(img, chain[1..], 0);
    }
  }

  /** One slot further on, in a directory with 13 entries per block. */
  lemma ScanStep(img: bytes, block: nat, slot: nat, steps: nat)
    requires block < NumBlocks(img) && slot < 13
    ensures EntryRef(block, slot).Within(img)
    ensures Scan(img, 13, block, slot, steps) == With(img, EntryRef(block, slot), Scan(img, 13, block, slot + 1, steps))
  {
  }

  /** From slot 13 into the next block. */
  lemma ScanOn(img: bytes, block: nat, steps: nat)
    requires block < NumBlocks(img) && HasNext(img, block) && steps > 0
    ensures EntryRef(block, 13).Addr() == 512 * block + 511
    ensures Scan(img, 13, block, 13, steps) ==
      With(img, EntryRef(block, 13), Scan(img, 13, NextBlock(img, block), 0, steps - 1))
  {
  }

  lemma GatherStep(img: bytes, chain: seq<nat>, slot: nat)
    requires IsChain(img, chain)
    ensures var here, later := EntryRef(chain[0], slot), Active(img, chain, slot + 1);
      slot < 13 ==> Active(img, chain, slot) == (if IsActive(img, here) then [here] + later else later)
    ensures slot >= 13 ==> Active(img, chain, slot) == (if |chain| > 1 then Active(img, chain[1..], 0) else [])
  {
    assert |chain| == 1 ==> chain[1..] == [] && Gather(Activity(img), chain[1..], 0) == [];
  }

  /** As many entries as are active are delivered rightly exactly if the sentinels are
      clear. */
  lemma {:induction false} ScanFindsActiveIff(img: bytes, chain: seq<nat>, slot: nat, steps: nat,
                                             active: seq<EntryRef>, view: View)
    requires IsChain(img, chain) && slot <= 13 && steps + 1 >= |chain|
    requires active == Active(img, chain, slot)
    requires view == Upto(Scan(img, 13, chain[0], slot, steps), |active|)
    ensures Listed(view) == active && EndOf(view) == None <==> SentinelsClear(img, chain)
    decreases |chain|, 13 - slot
  {
    var here := EntryRef(chain[0], slot);
    GatherStep(img, chain, slot);
    if active == [] {
      NothingBehind(img, chain, slot);
    } else if slot < 13 {
      var later := Active(img, chain, slot + 1);
      ScanStep(img, chain[0], slot, steps);
      ScanFindsActiveIff(img, chain, slot + 1, steps, later,
                         Upto(Scan(img, 13, chain[0], slot + 1, steps), |later|));
      if IsActive(img, here) {
        SameTails(here, view, active, later);
      }
    } else {
      ScanOn(img, chain[0], steps);
      if here.IsInactive(img) {
        ScanFindsActiveIff(img, chain[1..], 0, steps - 1, active, view);
      } else {
        assert view.ref == Listed(view)[0] == here;
        var k := GatherSound(Activity(img), chain, slot, 0);
      }
    }
  }

  lemma SameTails(here: EntryRef, view: View, active: seq<EntryRef>, later: seq<EntryRef>)
    requires active == [here] + later && view.Entry? && view.ref == here
    ensures Listed(view) == active <==> Listed(view.rest) == later
  {
    assert Listed(view)[1..] == Listed(view.rest) && active[1..] == later;
  }

  /** Only the file count makes a listing end without an exception. */
  lemma {:induction false} ScanEndsBadly(img: bytes, epb: nat, block: nat, slot: nat, steps: nat)
    requires block < NumBlocks(img)
    ensures EndOf(Scan(img, epb, block, slot, steps)) != None
    decreases steps, if slot <= epb then epb - slot + 1 else 0
  {
    if slot < epb {
      ScanEndsBadly(img, epb, block, slot + 1, steps);
    } else if HasNext(img, block) && steps > 0 {
      ScanEndsBadly(img, epb, NextBlock(img, block), 0, steps - 1);
    }
  }

  /** A directory lists exactly its active entries, in chain order and each once, and then
      ends without an exception, if and only if it is well formed. */
  lemma ListsExactlyIff(img: bytes, key: nat)
    requires HasChain(img, key) && IsDirectoryKey(img, key) && EntriesPerBlock(img, key) == 13
    ensures ListsExactly(img, key) <==> WellFormedDirectory(img, key)
  {
    var chain, active, count := ChainFrom(img, key), ActiveEntries(img, key), FileCount(img, key);
    var all := Scan(img, 13, key, 1, Horizon(img, key));
    UptoLists(all, count);
    ScanEndsBadly(img, 13, key, 1, Horizon(img, key));
    if count == |active| {
      if count > 0 {
        ChainFitsVolume(img, chain);
        ScanFindsActiveIff(img, chain, 1, Horizon(img, key), active, Upto(all, count));
      } else {
        NothingBehind(img, chain, 1);
      }
    }
  }

  lemma WellFormedDirectoryLists(img: bytes, key: nat)
    requires WellFormedDirectory(img, key)
    ensures Listed(DirectoryView(img, key)) == ActiveEntries(img, key)
    ensures EndOf(DirectoryView(img, key)) == None
  {
    ListsExactlyIff(img, key);
  }

  /** Every block but the last has its sentinel clear. */
  ghost predicate RegularChain(img: bytes, chain: seq<nat>)
    requires IsChain(img, chain)
  {
    |chain| > 1 ==> SentinelClear(img, chain[0]) && RegularChain(img, chain[1..])
  }

  lemma {:induction false} ScanFindsActive(img: bytes, chain: seq<nat>, slot: nat, steps: nat, view: View)
    requires IsChain(img, chain) && RegularChain(img, chain) && slot <= 13 && steps + 1 >= |chain|
    requires view == Scan(img, 13, chain[0], slot, steps)
    ensures Listed(view) == Active(img, chain, slot)
    ensures EndOf(view) == Some(StopAt(img, Last(img, chain)))
    decreases |chain|, 13 - slot
  {
    GatherStep(img, chain, slot);
    if slot < 13 {
      ScanStep(img, chain[0], slot, steps);
      ScanFindsActive(img, chain, slot + 1, steps, Scan(img, 13, chain[0], slot + 1, steps));
    } else if |chain| > 1 {
      ScanOn(img, chain[0], steps);
      ScanFindsActive(img, chain[1..], 0, steps - 1, view);
    }
  }

  ghost function Last(img: bytes, chain: seq<nat>): (b: nat)
    requires IsChain(img, chain)
    ensures b < NumBlocks(img)
  {
    if |chain| == 1 then chain[0] else Last(img, chain[1..])
  }

  /** With these sentinels clear, whatever the file count is, a directory lists its active
      entries as far as the count goes, and ends in an exception exactly when there are
      fewer. */
  lemma RegularDirectoryLists(img: bytes, key: nat)
    requires HasChain(img, key) && EntriesPerBlock(img, key) == 13 && RegularChain(img, ChainFrom(img, key))
    ensures var active, count := ActiveEntries(img, key), FileCount(img, key);
      Listed(DirectoryView(img, key)) == if count <= |active| then active[..count] else active
    ensures EndOf(DirectoryView(img, key)) ==
      if FileCount(img, key) <= |ActiveEntries(img, key)| then None
      else Some(StopAt(img, Last(img, ChainFrom(img, key))))
  {
    var chain, count := ChainFrom(img, key), FileCount(img, key);
    if count > 0 {
      ChainFitsVolume(img, chain);
      var all := Scan(img, 13, key, 1, Horizon(img, key));
      ScanFindsActive(img, chain, 1, Horizon(img, key), all);
      UptoLists(all, count);
    }
  }

  // ----- what is active, said slot by slot -----

  /** Active lists an entry if and only if it is an active slot of some block of the
      chain, the slots before `from` in the first block aside. */
  lemma ActiveExactly(img: bytes, chain: seq<nat>, from: nat, ref: EntryRef)
    requires IsChain(img, chain)
    ensures ref in Active(img, chain, from) <==>
      ref.block in chain && ref.slot < 13 && (ref.block == chain[0] ==> from <= ref.slot) && IsActive(img, ref)
  {
    var live := Activity(img);
    if ref in Active(img, chain, from) {
      var i :| 0 <= i < |Active(img, chain, from)| && Active(img, chain, from)[i] == ref;
      var k := GatherSound(live, chain, from, i);
      if k > 0 {
        ChainHasNoRepeats(img, chain, 0, k);
      }
    }
    if ref.block in chain && ref.slot < 13 && (ref.block == chain[0] ==> from <= ref.slot) && live(ref) {
      var k :| 0 <= k < |chain| && chain[k] == ref.block;
      var i := GatherComplete(live, chain, from, k, ref.slot);
    }
  }

  /** Every listed entry comes before the ones listed later: by place of its block in the
      chain, then by slot. So no entry is listed twice. */
  lemma ActiveOrdered(img: bytes, chain: seq<nat>, from: nat, i: nat, j: nat) returns (k: nat, l: nat)
    requires IsChain(img, chain) && i < j < |Active(img, chain, from)|
    ensures var a, b := Active(img, chain, from)[i], Active(img, chain, from)[j];
      k <= l < |chain| && chain[k] == a.block && chain[l] == b.block && (k == l ==> a.slot < b.slot) && a != b
  {
    k, l := GatherOrdered(Activity(img), chain, from, i, j);
    if k < l {
      ChainHasNoRepeats(img, chain, k, l);
    }
  }

  /** At most 13 per block. */
  lemma ActiveCount(img: bytes, chain: seq<nat>, from: nat)
    requires IsChain(img, chain) && from <= 13
    ensures |Active(img, chain, from)| <= 13 * |chain| - from
  {
    GatherCount(Activity(img), chain, from);
  }

  /** So the file count of a well-formed directory is bounded by its blocks, one slot being
      the header's, and these by the volume. */
  lemma FileCountFits(img: bytes, key: nat)
    requires WellFormedDirectory(img, key)
    ensures var blocks := |ChainFrom(img, key)|;
      FileCount(img, key) <= 13 * blocks - 1 && blocks <= NumBlocks(img)
  {
    ActiveCount(img, ChainFrom(img, key), 1);
    ChainFitsVolume(img, ChainFrom(img, key));
  }
}
