/** Which lookups come to an end. */
module EndingLookups {
  import opened Bytes
  import opened Errors
  import opened Layout
  import opened DirectoryListing
  import opened Circles
  import opened Lookup

  /** How a search among `refs` ends: at the first match, at an entry that is not in the
      image, or behind the last entry. */
  ghost predicate IsOutcome(img: bytes, refs: seq<EntryRef>, end: Option<Failure>, path: seq<bytes>, i: nat, k: nat,
                            r: Result)
    requires i < |path|
  {
    k <= |refs| &&
    (forall j :: 0 <= j < k ==> refs[j].Within(img) && !refs[j].NameMatches(img, path[i])) &&
    if k == |refs| then r == (if end == None then NotFound(ErrFileNotFound) else Raised(end.value))
    else if !refs[k].Within(img) then r == Raised(OutOfBounds)
    else refs[k].NameMatches(img, path[i]) && r == Enter(img, refs[k], path, i)
  }

  lemma LaterOutcome(img: bytes, ref: EntryRef, refs: seq<EntryRef>, end: Option<Failure>, path: seq<bytes>, i: nat,
                     k: nat, r: Result)
    requires i < |path| && ref.Within(img) && !ref.NameMatches(img, path[i])
    requires IsOutcome(img, refs, end, path, i, k, r)
    ensures IsOutcome(img, [ref] + refs, end, path, i, k + 1, r)
  {
    var all := [ref] + refs;
    forall j | 0 <= j < k + 1 ensures all[j].Within(img) && !all[j].NameMatches(img, path[i]) {
      if j > 0 {
        assert all[j] == refs[j - 1];
      }
    }
    assert k < |refs| ==> all[k + 1] == refs[k];
  }

  lemma {:induction false} SearchOutcome(img: bytes, view: View, path: seq<bytes>, i: nat) returns (k: nat)
    requires i < |path|
    ensures IsOutcome(img, Listed(view), EndOf(view), path, i, k, Search(img, view, path, i))
    decreases view
  {
    k := 0;
    if view.Entry? {
      if view.ref.Within(img) && !view.ref.NameMatches(img, path[i]) {
        k := SearchOutcome(img, view.rest, path, i);
        LaterOutcome(img, view.ref, Listed(view.rest), EndOf(view), path, i, k, Search(img, view, path, i));
        k := k + 1;
      } else {
        assert Listed(view)[0] == view.ref;
      }
    }
  }

  /** First matches lead to a directory that lists no match and goes round for ever. */
  ghost predicate LeadsRound(img: bytes, key: nat, path: seq<bytes>, i: nat)
    requires i < |path|
    decreases |path| - i, 0
  {
    key < NumBlocks(img) && IsDirectoryKey(img, key) &&
    var refs := Listed(DirectoryView(img, key));
    (GoesRound(img, key) && NoMatch(img, refs, path[i])) ||
    (i + 1 < |path| && exists k: nat :: FirstMatch(img, refs, path[i], k) && LeadsRoundFrom(img, refs[k], path, i + 1))
  }

  ghost predicate LeadsRoundFrom(img: bytes, ref: EntryRef, path: seq<bytes>, i: nat)
    requires i < |path| && ref.Within(img)
    decreases |path| - i, 1
  {
    ref.IsDirectory(img) && LeadsRound(img, ref.KeyPointer(img), path, i)
  }

  /** A lookup never ends if and only if this is so. */
  lemma {:induction false} LookupNeverEndsIff(img: bytes, key: nat, path: seq<bytes>, i: nat)
    requires i < |path|
    ensures Resolve(img, key, path, i) == Raised(Endless) <==> LeadsRound(img, key, path, i)
    decreases |path| - i
  {
    if key < NumBlocks(img) && IsDirectoryKey(img, key) {
      ListingNeverEndsIff(img, key);
      var view := DirectoryView(img, key);
      var refs := Listed(view);
      var k := SearchOutcome(img, view, path, i);
      if k < |refs| && refs[k].Within(img) {
        assert FirstMatch(img, refs, path[i], k);
        OnlyFirstMatch(img, refs, path[i], k);
        if i + 1 < |path| && refs[k].IsDirectory(img) {
          LookupNeverEndsIff(img, refs[k].KeyPointer(img), path, i + 1);
        }
      }
    }
  }

  lemma OnlyFirstMatch(img: bytes, refs: seq<EntryRef>, name: bytes, k: nat)
    requires FirstMatch(img, refs, name, k)
    ensures !NoMatch(img, refs, name)
    ensures forall j: nat :: FirstMatch(img, refs, name, j) ==> j == k
  {
    forall j: nat | FirstMatch(img, refs, name, j) ensures j == k {
      assert !(j < k) && !(k < j);
    }
  }

  // ----- a condition on the directories alone -----

  /** No directory met within `depth` levels goes round for ever. */
  ghost predicate NoneGoesRound(img: bytes, key: nat, depth: nat)
    decreases depth, 1
  {
    depth > 0 && key < NumBlocks(img) && IsDirectoryKey(img, key) ==>
      !GoesRound(img, key) && NoneListedGoesRound(img, DirectoryView(img, key), depth - 1)
  }

  ghost predicate NoneListedGoesRound(img: bytes, view: View, depth: nat)
    decreases depth, 2, view
  {
    view.Entry? ==>
      (view.ref.Within(img) && view.ref.IsDirectory(img) ==> NoneGoesRound(img, view.ref.KeyPointer(img), depth)) &&
      NoneListedGoesRound(img, view.rest, depth)
  }

  /** Then every lookup of so many components ends, whatever else is wrong with them. */
  lemma {:induction false} LookupEnds(img: bytes, key: nat, path: seq<bytes>, i: nat)
    requires i < |path| && NoneGoesRound(img, key, |path| - i)
    ensures Resolve(img, key, path, i) != Raised(Endless)
    decreases |path| - i, 1
  {
    if key < NumBlocks(img) && IsDirectoryKey(img, key) {
      ListingNeverEndsIff(img, key);
      SearchEnds(img, DirectoryView(img, key), path, i);
    }
  }

  lemma {:induction false} SearchEnds(img: bytes, view: View, path: seq<bytes>, i: nat)
    requires i < |path| && NoneListedGoesRound(img, view, |path| - i - 1) && EndOf(view) != Some(Endless)
    ensures Search(img, view, path, i) != Raised(Endless)
    decreases |path| - i, 0, view
  {
    if view.Entry? && view.ref.Within(img) {
      if !view.ref.NameMatches(img, path[i]) {
        SearchEnds(img, view.rest, path, i);
      } else if i + 1 < |path| && view.ref.IsDirectory(img) {
        LookupEnds(img, view.ref.KeyPointer(img), path, i + 1);
      }
    }
  }

  /** The chain of every directory met within `depth` levels ends. */
  ghost predicate ChainsEnd(img: bytes, key: nat, depth: nat)
    decreases depth, 1
  {
    depth > 0 && key < NumBlocks(img) && IsDirectoryKey(img, key) ==>
      HasChain(img, key) && ListedChainsEnd(img, DirectoryView(img, key), depth - 1)
  }

  ghost predicate ListedChainsEnd(img: bytes, view: View, depth: nat)
    decreases depth, 2, view
  {
    view.Entry? ==>
      (view.ref.Within(img) && view.ref.IsDirectory(img) ==> ChainsEnd(img, view.ref.KeyPointer(img), depth)) &&
      ListedChainsEnd(img, view.rest, depth)
  }

  lemma {:induction false} EndingChainsDoNotGoRound(img: bytes, key: nat, depth: nat)
    requires ChainsEnd(img, key, depth)
    ensures NoneGoesRound(img, key, depth)
    decreases depth, 1
  {
    if depth > 0 && key < NumBlocks(img) && IsDirectoryKey(img, key) {
      EndingChainsAreListed(img, key);
      ListedChainsDoNotGoRound(img, DirectoryView(img, key), depth - 1);
    }
  }

  lemma {:induction false} ListedChainsDoNotGoRound(img: bytes, view: View, depth: nat)
    requires ListedChainsEnd(img, view, depth)
    ensures NoneListedGoesRound(img, view, depth)
    decreases depth, 2, view
  {
    if view.Entry? {
      if view.ref.Within(img) && view.ref.IsDirectory(img) {
        EndingChainsDoNotGoRound(img, view.ref.KeyPointer(img), depth);
      }
      ListedChainsDoNotGoRound(img, view.rest, depth);
    }
  }

  /** With wrong file counts, odd entries per block and stray bytes 511, a lookup still ends
      if only the chains do. */
  lemma LookupEndsIfChainsDo(img: bytes, key: nat, path: seq<bytes>, i: nat)
    requires i < |path| && ChainsEnd(img, key, |path| - i)
    ensures Resolve(img, key, path, i) != Raised(Endless)
  {
    EndingChainsDoNotGoRound(img, key, |path| - i);
    LookupEnds(img, key, path, i);
  }
}
