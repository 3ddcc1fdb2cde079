/** Directories whose block chain runs in a circle. The source goes round such a circle
    until the file count is reached: for ever, exactly if no slot in it is in use. */
module Circles {
  import opened Bytes
  import opened Arithmetic
  import opened Errors
  import opened Layout
  import opened DirectoryListing

  /** The cursor passes slot `slot` of the block, and those after it, without an entry. */
  predicate Silent(img: bytes, epb: nat, block: nat, slot: nat)
    decreases epb - slot
  {
    EntryRef(block, slot).Addr() < |img| && EntryRef(block, slot).IsInactive(img) &&
    (slot < epb ==> Silent(img, epb, block, slot + 1))
  }

  /** Blocks without an entry that lead to each other. */
  ghost predicate IsSilentCircle(img: bytes, epb: nat, blocks: set<nat>) {
    forall b :: b in blocks ==>
      b < NumBlocks(img) && Silent(img, epb, b, 0) && HasNext(img, b) && NextBlock(img, b) in blocks
  }

  ghost predicate InSilentCircle(img: bytes, epb: nat, block: nat) {
    exists blocks :: IsSilentCircle(img, epb, blocks) && block in blocks
  }

  lemma {:induction false} CircleScan(img: bytes, epb: nat, blocks: set<nat>, block: nat, steps: nat)
    requires IsSilentCircle(img, epb, blocks) && block in blocks
    ensures Scan(img, epb, block, 0, steps) == End(Some(Endless))
    decreases steps
  {
    SilentScan(img, epb, block, 0, steps);
    if steps > 0 {
      CircleScan(img, epb, blocks, NextBlock(img, block), steps - 1);
    }
  }

  lemma {:induction false} SilentScan(img: bytes, epb: nat, block: nat, slot: nat, steps: nat)
    requires block < NumBlocks(img) && HasNext(img, block) && Silent(img, epb, block, slot)
    ensures Scan(img, epb, block, slot, steps) ==
      if steps == 0 then End(Some(Endless)) else Scan(img, epb, NextBlock(img, block), 0, steps - 1)
    decreases epb - slot
  {
    if slot < epb {
      SilentScan(img, epb, block, slot + 1, steps);
    }
  }

  lemma {:induction false} EndlessIsSilent(img: bytes, epb: nat, block: nat, slot: nat, steps: nat)
    requires block < NumBlocks(img) && steps > 0
    requires Scan(img, epb, block, slot, steps) == End(Some(Endless))
    ensures Silent(img, epb, block, slot) && HasNext(img, block)
    ensures Scan(img, epb, NextBlock(img, block), 0, steps - 1) == End(Some(Endless))
    decreases epb - slot
  {
    if slot < epb {
      EndlessIsSilent(img, epb, block, slot + 1, steps);
    }
  }

  /** The blocks passed on the way. */
  lemma {:induction false} SilentPath(img: bytes, epb: nat, block: nat, steps: nat) returns (path: seq<nat>)
    requires block < NumBlocks(img) && Scan(img, epb, block, 0, steps) == End(Some(Endless))
    ensures |path| == steps + 1 && path[0] == block
    ensures forall i :: 0 <= i <= steps ==> path[i] < NumBlocks(img)
    ensures forall i :: 0 <= i < steps ==>
      Silent(img, epb, path[i], 0) && HasNext(img, path[i]) && NextBlock(img, path[i]) == path[i + 1]
    decreases steps
  {
    path := [block];
    if steps > 0 {
      EndlessIsSilent(img, epb, block, 0, steps);
      var rest := SilentPath(img, epb, NextBlock(img, block), steps - 1);
      path := path + rest;
      assert forall i :: 1 <= i <= steps ==> path[i] == rest[i - 1];
    }
  }

  /** Among so many blocks one comes twice, so the cursor has gone round in a circle. */
  lemma FindCircle(img: bytes, epb: nat, block: nat)
    requires block < NumBlocks(img) && Scan(img, epb, block, 0, NumBlocks(img)) == End(Some(Endless))
    ensures InSilentCircle(img, epb, block)
  {
    var n := NumBlocks(img);
    var path := SilentPath(img, epb, block, n);
    if forall i, j :: 0 <= i < j < |path| ==> path[i] != path[j] {
      DistinctNumbersFit(path, n);
      assert false;
    }
    var i, j :| 0 <= i < j < |path| && path[i] == path[j];
    var blocks := set k | 0 <= k < j :: path[k];
    forall b | b in blocks
      ensures b < n && Silent(img, epb, b, 0) && HasNext(img, b) && NextBlock(img, b) in blocks
    {
      var k :| 0 <= k < j && path[k] == b;
      assert NextBlock(img, b) == path[k + 1] == path[if k + 1 == j then i else k + 1];
    }
    assert path[0] in blocks;
    assert IsSilentCircle(img, epb, blocks);
  }

  /** The search for the next entry enters more than NumBlocks + 1 blocks exactly if it
      never ends, and that is exactly if it runs into a circle without an entry. */
  lemma SearchNeverEndsIff(img: bytes, epb: nat, block: nat, slot: nat, steps: nat)
    requires block < NumBlocks(img) && steps > NumBlocks(img)
    ensures Scan(img, epb, block, slot, steps) == End(Some(Endless)) <==>
      Silent(img, epb, block, slot) && HasNext(img, block) && InSilentCircle(img, epb, NextBlock(img, block))
  {
    if Scan(img, epb, block, slot, steps) == End(Some(Endless)) {
      EndlessIsSilent(img, epb, block, slot, steps);
      var next := NextBlock(img, block);
      EndlessSooner(img, epb, next, 0, NumBlocks(img), steps - 1);
      FindCircle(img, epb, next);
    }
    if Silent(img, epb, block, slot) && HasNext(img, block) && InSilentCircle(img, epb, NextBlock(img, block)) {
      var blocks :| IsSilentCircle(img, epb, blocks) && NextBlock(img, block) in blocks;
      SilentScan(img, epb, block, slot, steps);
      CircleScan(img, epb, blocks, NextBlock(img, block), steps - 1);
    }
  }

  lemma {:induction false} EndlessSooner(img: bytes, epb: nat, block: nat, slot: nat, n: nat, m: nat)
    requires block < NumBlocks(img) && n <= m && Scan(img, epb, block, slot, m) == End(Some(Endless))
    ensures Scan(img, epb, block, slot, n) == End(Some(Endless))
    decreases n, epb - slot
  {
    if slot < epb {
      EndlessSooner(img, epb, block, slot + 1, n, m);
    } else if n > 0 {
      EndlessSooner(img, epb, NextBlock(img, block), 0, n - 1, m - 1);
    }
  }

  // ----- the limit on steps is none -----

  /** An exception met within n steps is met. */
  lemma {:induction false} SameEnd(img: bytes, epb: nat, block: nat, slot: nat, n: nat, m: nat)
    requires block < NumBlocks(img) && n <= m
    requires Scan(img, epb, block, slot, n).End? && Scan(img, epb, block, slot, n) != End(Some(Endless))
    ensures Scan(img, epb, block, slot, m) == Scan(img, epb, block, slot, n)
    decreases n, epb - slot
  {
    if slot < epb {
      if EntryRef(block, slot).Addr() < |img| {
        SameEnd(img, epb, block, slot + 1, n, m);
      }
    } else if EntryRef(block, slot).Addr() < |img| && HasNext(img, block) {
      SameEnd(img, epb, NextBlock(img, block), 0, n - 1, m - 1);
    }
  }

  /** The k-th block after `block`, if the chain goes on so long. */
  function Nth(img: bytes, block: nat, k: nat): Option<nat>
    requires block < NumBlocks(img)
    decreases k
  {
    if k == 0 then Some(block)
    else if HasNext(img, block) then Nth(img, NextBlock(img, block), k - 1)
    else None
  }

  /** An entry met within n steps is met, and the cursor goes on from the same place. */
  lemma {:induction false} SameEntry(img: bytes, epb: nat, block: nat, slot: nat, n: nat)
    returns (b: nat, s: nat, j: nat)
    requires block < NumBlocks(img) && Scan(img, epb, block, slot, n).Entry?
    ensures j <= n && b < NumBlocks(img) && Nth(img, block, j) == Some(b)
    ensures forall m: nat {:trigger Scan(img, epb, block, slot, m)} :: m >= n ==>
      Scan(img, epb, block, slot, m) == Entry(Scan(img, epb, block, slot, n).ref, Scan(img, epb, b, s, m - j))
    decreases n, epb - slot
  {
    var here := EntryRef(block, slot);
    if slot < epb {
      if here.IsInactive(img) {
        b, s, j := SameEntry(img, epb, block, slot + 1, n);
      } else {
        b, s, j := block, slot + 1, 0;
      }
    } else if here.IsInactive(img) {
      b, s, j := SameEntry(img, epb, NextBlock(img, block), 0, n - 1);
      j := j + 1;
    } else {
      b, s, j := NextBlock(img, block), 0, 1;
      assert Nth(img, b, 0) == Some(b);
    }
  }

  lemma Enough(c: nat, unit: nat, n: nat, j: nat)
    requires c > 0 && n >= Times(c, unit) && j <= unit
    ensures n >= unit && n - j >= Times(c - 1, unit)
  {
  }

  lemma {:induction false} Settled(img: bytes, epb: nat, block: nat, slot: nat, c: nat, n: nat, m: nat)
    requires block < NumBlocks(img) && n >= Times(c, NumBlocks(img) + 1) && m >= Times(c, NumBlocks(img) + 1)
    ensures Upto(Scan(img, epb, block, slot, n), c) == Upto(Scan(img, epb, block, slot, m), c)
    decreases c
  {
    if c > 0 {
      var unit := NumBlocks(img) + 1;
      Enough(c, unit, n, 0);
      Enough(c, unit, m, 0);
      var view := Scan(img, epb, block, slot, unit);
      if view == End(Some(Endless)) {
        SearchNeverEndsIff(img, epb, block, slot, unit);
        SearchNeverEndsIff(img, epb, block, slot, n);
        SearchNeverEndsIff(img, epb, block, slot, m);
      } else if view.End? {
        SameEnd(img, epb, block, slot, unit, n);
        SameEnd(img, epb, block, slot, unit, m);
      } else {
        var b, s, j := SameEntry(img, epb, block, slot, unit);
        Enough(c, unit, n, j);
        Enough(c, unit, m, j);
        Settled(img, epb, b, s, c - 1, n - j, m - j);
      }
    }
  }

  /** However far a directory is followed, it lists the same: DirectoryView does not depend
      on its limit, and Endless means for ever. */
  lemma ListingIsSettled(img: bytes, key: nat, steps: nat)
    requires key < NumBlocks(img) && steps >= Horizon(img, key)
    ensures Upto(Scan(img, EntriesPerBlock(img, key), key, 1, steps), FileCount(img, key)) == DirectoryView(img, key)
  {
    Settled(img, EntriesPerBlock(img, key), key, 1, FileCount(img, key), steps, Horizon(img, key));
  }

  // ----- which listings never end -----

  /** The chain from `block` runs into a circle without an entry. */
  ghost predicate RunsSilent(img: bytes, epb: nat, block: nat)
    requires block < NumBlocks(img)
  {
    exists k: nat :: Nth(img, block, k).Some? && InSilentCircle(img, epb, Nth(img, block, k).value)
  }

  lemma {:induction false} NthOfNth(img: bytes, block: nat, j: nat, k: nat)
    requires block < NumBlocks(img) && Nth(img, block, j).Some?
    ensures Nth(img, block, j).value < NumBlocks(img)
    ensures Nth(img, block, j + k) == Nth(img, Nth(img, block, j).value, k)
    decreases j
  {
    if j > 0 {
      NthOfNth(img, NextBlock(img, block), j - 1, k);
    }
  }

  lemma {:induction false} CircleGoesOn(img: bytes, epb: nat, blocks: set<nat>, block: nat, k: nat)
    requires IsSilentCircle(img, epb, blocks) && block in blocks
    ensures Nth(img, block, k).Some?
    decreases k
  {
    if k > 0 {
      CircleGoesOn(img, epb, blocks, NextBlock(img, block), k - 1);
    }
  }

  /** Such a chain has no end. */
  lemma RunsOn(img: bytes, epb: nat, block: nat, k: nat)
    requires block < NumBlocks(img) && RunsSilent(img, epb, block)
    ensures Nth(img, block, k).Some?
  {
    var i: nat :| Nth(img, block, i).Some? && InSilentCircle(img, epb, Nth(img, block, i).value);
    var at := Nth(img, block, i).value;
    var blocks :| IsSilentCircle(img, epb, blocks) && at in blocks;
    RunsOnThrough(img, epb, block, i, at, blocks, k);
  }

  lemma RunsOnThrough(img: bytes, epb: nat, block: nat, i: nat, at: nat, blocks: set<nat>, k: nat)
    requires block < NumBlocks(img) && Nth(img, block, i) == Some(at)
    requires IsSilentCircle(img, epb, blocks) && at in blocks
    ensures Nth(img, block, k).Some?
  {
    if k < i {
      Sooner(img, block, k, i);
    } else {
      NthOfNth(img, block, i, k - i);
      CircleGoesOn(img, epb, blocks, at, k - i);
    }
  }

  lemma {:induction false} Sooner(img: bytes, block: nat, k: nat, i: nat)
    requires block < NumBlocks(img) && k <= i && Nth(img, block, i).Some?
    ensures Nth(img, block, k).Some?
    decreases k
  {
    if k > 0 {
      Sooner(img, NextBlock(img, block), k - 1, i - 1);
    }
  }

  lemma {:induction false} EndlessRunsSilent(img: bytes, epb: nat, block: nat, slot: nat, c: nat, n: nat)
    requires block < NumBlocks(img) && n >= Times(c, NumBlocks(img) + 1)
    requires EndOf(Upto(Scan(img, epb, block, slot, n), c)) == Some(Endless)
    ensures RunsSilent(img, epb, block)
    decreases c
  {
    var unit := NumBlocks(img) + 1;
    Enough(c, unit, n, 0);
    var view := Scan(img, epb, block, slot, unit);
    if view == End(Some(Endless)) {
      SearchNeverEndsIff(img, epb, block, slot, unit);
      assert Nth(img, block, 1) == Nth(img, NextBlock(img, block), 0);
    } else if view.End? {
      SameEnd(img, epb, block, slot, unit, n);
    } else {
      var b, s, j := SameEntry(img, epb, block, slot, unit);
      Enough(c, unit, n, j);
      EndlessRunsSilent(img, epb, b, s, c - 1, n - j);
      var k: nat :| Nth(img, b, k).Some? && InSilentCircle(img, epb, Nth(img, b, k).value);
      NthOfNth(img, block, j, k);
    }
  }

  /** How many slots in use a cursor at slot `slot` passes until it has left k blocks; None
      if it leaves the image, or comes to the end of the chain, before that. */
  function Met(img: bytes, epb: nat, block: nat, slot: nat, k: nat): Option<nat>
    requires block < NumBlocks(img)
    decreases k, if slot <= epb then epb - slot + 1 else 0
  {
    var here := EntryRef(block, slot);
    if k == 0 then Some(0)
    else if here.Addr() >= |img| then None
    else if slot < epb then Counted(img, here, Met(img, epb, block, slot + 1, k))
    else if !HasNext(img, block) then None
    else Counted(img, here, Met(img, epb, NextBlock(img, block), 0, k - 1))
  }

  function Counted(img: bytes, here: EntryRef, later: Option<nat>): Option<nat>
    requires here.Addr() < |img|
  {
    if later.None? then None else Some(later.value + if here.IsInactive(img) then 0 else 1)
  }

  /** After k blocks the chain is in a circle without an entry, and until then fewer slots
      are in use than the file count says. (The first block is always left.) */
  ghost predicate GoesRoundAfter(img: bytes, key: nat, k: nat)
    requires key < NumBlocks(img)
  {
    var epb := EntriesPerBlock(img, key);
    var met := Met(img, epb, key, 1, k);
    k > 0 && Nth(img, key, k).Some? && InSilentCircle(img, epb, Nth(img, key, k).value) &&
    met.Some? && met.value < FileCount(img, key)
  }

  ghost predicate GoesRound(img: bytes, key: nat)
    requires key < NumBlocks(img)
  {
    exists k: nat :: GoesRoundAfter(img, key, k)
  }

  /** A scan into a circle without an entry lists what is in use before the circle. */
  lemma {:induction false} ScanIntoCircle(img: bytes, epb: nat, block: nat, slot: nat, k: nat, steps: nat)
    requires block < NumBlocks(img) && steps >= k && (k == 0 ==> slot == 0)
    requires Nth(img, block, k).Some? && InSilentCircle(img, epb, Nth(img, block, k).value)
    ensures var view, met := Scan(img, epb, block, slot, steps), Met(img, epb, block, slot, k);
      (met.None? ==> EndOf(view) == Some(OutOfBounds)) &&
      (met.Some? ==> |Listed(view)| == met.value && EndOf(view) == Some(Endless))
    decreases k, if slot <= epb then epb - slot + 1 else 0
  {
    if k == 0 {
      var blocks :| IsSilentCircle(img, epb, blocks) && block in blocks;
      CircleScan(img, epb, blocks, block, steps);
    } else if EntryRef(block, slot).Addr() < |img| {
      assert HasNext(img, block) && Nth(img, block, k) == Nth(img, NextBlock(img, block), k - 1);
      if slot < epb {
        ScanIntoCircle(img, epb, block, slot + 1, k, steps);
      } else {
        ScanIntoCircle(img, epb, NextBlock(img, block), 0, k - 1, steps - 1);
      }
    }
  }

  /** One block further round. */
  lemma StillInCircle(img: bytes, epb: nat, block: nat)
    requires block < NumBlocks(img) && InSilentCircle(img, epb, block)
    ensures HasNext(img, block) && InSilentCircle(img, epb, NextBlock(img, block))
    ensures Nth(img, block, 1) == Some(NextBlock(img, block))
  {
    assert Nth(img, NextBlock(img, block), 0) == Some(NextBlock(img, block));
  }

  lemma ListingIntoCircle(img: bytes, key: nat, k: nat)
    requires key < NumBlocks(img) && k > 0 && Nth(img, key, k).Some?
    requires InSilentCircle(img, EntriesPerBlock(img, key), Nth(img, key, k).value)
    ensures EndOf(DirectoryView(img, key)) == Some(Endless) <==> GoesRoundAfter(img, key, k)
  {
    var epb, steps := EntriesPerBlock(img, key), Horizon(img, key) + k;
    ListingIsSettled(img, key, steps);
    ScanIntoCircle(img, epb, key, 1, k, steps);
    CutOff(Scan(img, epb, key, 1, steps), FileCount(img, key), Met(img, epb, key, 1, k));
  }

  lemma CutOff(view: View, count: nat, met: Option<nat>)
    requires met.None? ==> EndOf(view) == Some(OutOfBounds)
    requires met.Some? ==> |Listed(view)| == met.value && EndOf(view) == Some(Endless)
    ensures EndOf(Upto(view, count)) == Some(Endless) <==> met.Some? && met.value < count
  {
    UptoLists(view, count);
  }

  /** A listing never ends if and only if its chain runs into a circle without an entry, and
      fewer slots are in use before the circle than the file count says. */
  lemma ListingNeverEndsIff(img: bytes, key: nat)
    requires key < NumBlocks(img)
    ensures EndOf(DirectoryView(img, key)) == Some(Endless) <==> GoesRound(img, key)
  {
    var epb := EntriesPerBlock(img, key);
    if EndOf(DirectoryView(img, key)) == Some(Endless) {
      EndlessRunsSilent(img, epb, key, 1, FileCount(img, key), Horizon(img, key));
      var k: nat :| Nth(img, key, k).Some? && InSilentCircle(img, epb, Nth(img, key, k).value);
      if k == 0 {
        StillInCircle(img, epb, key);
        ListingIntoCircle(img, key, 1);
      } else {
        ListingIntoCircle(img, key, k);
      }
    }
    if k: nat :| GoesRoundAfter(img, key, k) {
      ListingIntoCircle(img, key, k);
    }
  }

  // ----- chains that end -----

  lemma {:induction false} ChainStops(img: bytes, chain: seq<nat>)
    requires IsChain(img, chain)
    ensures Nth(img, chain[0], |chain|) == None
    decreases |chain|
  {
    if |chain| > 1 {
      ChainStops(img, chain[1..]);
    }
    assert !HasNext(img, chain[0]) ==> Nth(img, chain[0], |chain|) == None;
  }

  lemma {:induction false} StoppingChain(img: bytes, block: nat, k: nat) returns (chain: seq<nat>)
    requires block < NumBlocks(img) && Nth(img, block, k) == None
    ensures IsChain(img, chain) && chain[0] == block
    decreases k
  {
    chain := [block];
    if HasNext(img, block) {
      var rest := StoppingChain(img, NextBlock(img, block), k - 1);
      chain := [block] + rest;
      assert chain[1..] == rest;
    }
  }

  /** A directory has a chain exactly if following the next pointers comes to an end. */
  lemma HasChainIff(img: bytes, key: nat)
    requires key < NumBlocks(img)
    ensures HasChain(img, key) <==> exists k: nat :: Nth(img, key, k) == None
  {
    if HasChain(img, key) {
      ChainStops(img, ChainFrom(img, key));
    }
    if k: nat :| Nth(img, key, k) == None {
      var chain := StoppingChain(img, key, k);
    }
  }

  /** Then its listing ends, whatever the file count and the entries per block are. */
  lemma EndingChainsAreListed(img: bytes, key: nat)
    requires HasChain(img, key)
    ensures !GoesRound(img, key) && EndOf(DirectoryView(img, key)) != Some(Endless)
  {
    ListingNeverEndsIff(img, key);
    ChainStops(img, ChainFrom(img, key));
    if k: nat :| GoesRoundAfter(img, key, k) {
      RunsOn(img, EntriesPerBlock(img, key), key, |ChainFrom(img, key)|);
    }
  }
}
