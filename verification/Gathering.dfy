/** Filtering the slots 0 .. 12 of a row of directory blocks. */
module Gathering {
  import opened Layout

  /** The live slots of several blocks, in order, from slot `from` of the first one on. */
  function Gather(live: EntryRef -> bool, blocks: seq<nat>, from: nat): seq<EntryRef>
    decreases |blocks|, 13 - from
  {
    if blocks == [] then []
    else if from >= 13 then Gather(live, blocks[1..], 0)
    else
      var here := EntryRef(blocks[0], from);
      if live(here) then [here] + Gather(live, blocks, from + 1) else Gather(live, blocks, from + 1)
  }

  /** Whatever is gathered is a live slot of some block. */
  lemma {:induction false} GatherSound(live: EntryRef -> bool, blocks: seq<nat>, from: nat, i: nat) returns (k: nat)
    requires i < |Gather(live, blocks, from)|
    ensures var ref := Gather(live, blocks, from)[i];
      k < |blocks| && ref.block == blocks[k] && (k == 0 ==> from <= ref.slot) && ref.slot < 13 && live(ref)
    decreases |blocks|, 13 - from
  {
    if from >= 13 {
      k := GatherSound(live, blocks[1..], 0, i);
      k := k + 1;
    } else if !live(EntryRef(blocks[0], from)) {
      k := GatherSound(live, blocks, from + 1, i);
    } else if i == 0 {
      k := 0;
    } else {
      k := GatherSound(live, blocks, from + 1, i - 1);
    }
  }

  /** Every live slot is gathered. */
  lemma {:induction false} GatherComplete(live: EntryRef -> bool, blocks: seq<nat>, from: nat, k: nat, slot: nat)
    returns (i: nat)
    requires k < |blocks| && (k == 0 ==> from <= slot) && slot < 13 && live(EntryRef(blocks[k], slot))
    ensures i < |Gather(live, blocks, from)| && Gather(live, blocks, from)[i] == EntryRef(blocks[k], slot)
    decreases |blocks|, 13 - from
  {
    if from >= 13 {
      i := GatherComplete(live, blocks[1..], 0, k - 1, slot);
    } else if k == 0 && slot == from {
      i := 0;
    } else {
      i := GatherComplete(live, blocks, from + 1, k, slot);
      i := if live(EntryRef(blocks[0], from)) then i + 1 else i;
    }
  }

  /** Slots are gathered by place of their block, then by number. */
  lemma {:induction false} GatherOrdered(live: EntryRef -> bool, blocks: seq<nat>, from: nat, i: nat, j: nat)
    returns (k: nat, l: nat)
    requires i < j < |Gather(live, blocks, from)|
    ensures var a, b := Gather(live, blocks, from)[i], Gather(live, blocks, from)[j];
      k <= l < |blocks| && blocks[k] == a.block && blocks[l] == b.block && (k == l ==> a.slot < b.slot)
    decreases |blocks|, 13 - from
  {
    if from >= 13 {
      k, l := GatherOrdered(live, blocks[1..], 0, i, j);
      k, l := k + 1, l + 1;
    } else if !live(EntryRef(blocks[0], from)) {
      k, l := GatherOrdered(live, blocks, from + 1, i, j);
    } else if i == 0 {
      k := 0;
      l := GatherSound(live, blocks, from + 1, j - 1);
    } else {
      k, l := GatherOrdered(live, blocks, from + 1, i - 1, j - 1);
    }
  }

  lemma {:induction false} GatherCount(live: EntryRef -> bool, blocks: seq<nat>, from: nat)
    requires |blocks| > 0 && from <= 13
    ensures |Gather(live, blocks, from)| <= 13 * |blocks| - from
    decreases |blocks|, 13 - from
  {
    if from < 13 {
      GatherCount(live, blocks, from + 1);
    } else if |blocks| > 1 {
      GatherCount(live, blocks[1..], 0);
    }
  }
}
