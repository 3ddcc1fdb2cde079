/** What looking a path up means: at every level the first entry, in listing order, whose
    name matches the component whatever its case. */
module Lookup {
  import opened Bytes
  import opened Errors
  import opened Layout
  import opened DirectoryListing

  datatype Result = Found(ref: EntryRef) | NotFound(error: ProdosError) | Raised(failure: Failure)

  /** Looks the components path[i..] up from the directory with key block `key`. */
  ghost function Resolve(img: bytes, key: nat, path: seq<bytes>, i: nat): Result
    requires i < |path|
    decreases |path| - i, 1
  {
    if key >= NumBlocks(img) then Raised(InvalidBlockNumber)
    else if !IsDirectoryKey(img, key) then Raised(NotADirectoryKeyBlock)
    else Search(img, DirectoryView(img, key), path, i)
  }

  /** The same, among the entries still to be listed in one directory. An entry that
      reaches beyond the image cannot be examined. */
  ghost function Search(img: bytes, view: View, path: seq<bytes>, i: nat): Result
    requires i < |path|
    decreases |path| - i, 0, 1, view
  {
    match view
    case End(None) => NotFound(ErrFileNotFound)
    case End(Some(failure)) => Raised(failure)
    case Entry(ref, rest) =>
      if !ref.Within(img) then Raised(OutOfBounds)
      else if ref.NameMatches(img, path[i]) then Enter(img, ref, path, i)
      else Search(img, rest, path, i)
  }

  /** What a matching entry leads to. */
  ghost function Enter(img: bytes, ref: EntryRef, path: seq<bytes>, i: nat): Result
    requires i < |path| && ref.Within(img)
    decreases |path| - i, 0, 0
  {
    if i + 1 == |path| then Found(ref)
    else if !ref.IsDirectory(img) then NotFound(ErrDirectoryNotFound)
    else Resolve(img, ref.KeyPointer(img), path, i + 1)
  }

  /** A matching directory entry that leads nowhere: to a block outside the image, or to one
      that does not begin with 0xE0 or more. */
  lemma DeadEnds(img: bytes, ref: EntryRef, path: seq<bytes>, i: nat)
    requires i + 1 < |path| && ref.Within(img) && ref.IsDirectory(img)
    ensures ref.KeyPointer(img) >= |img| / 512 ==> Enter(img, ref, path, i) == Raised(InvalidBlockNumber)
    ensures ref.KeyPointer(img) < |img| / 512 && img[512 * ref.KeyPointer(img) + 4] < 0xE0 ==>
      Enter(img, ref, path, i) == Raised(NotADirectoryKeyBlock)
  {
  }

  /** What is found lies in the image. */
  lemma {:induction false} FoundIsWithin(img: bytes, key: nat, path: seq<bytes>, i: nat)
    requires i < |path|
    ensures Resolve(img, key, path, i).Found? ==> Resolve(img, key, path, i).ref.Within(img)
    decreases |path| - i, 1
  {
    if key < NumBlocks(img) && IsDirectoryKey(img, key) {
      SearchFindsWithin(img, DirectoryView(img, key), path, i);
    }
  }

  lemma {:induction false} SearchFindsWithin(img: bytes, view: View, path: seq<bytes>, i: nat)
    requires i < |path|
    ensures Search(img, view, path, i).Found? ==> Search(img, view, path, i).ref.Within(img)
    decreases |path| - i, 0, view
  {
    if view.Entry? && view.ref.Within(img) {
      if !view.ref.NameMatches(img, path[i]) {
        SearchFindsWithin(img, view.rest, path, i);
      } else if i + 1 < |path| && view.ref.IsDirectory(img) {
        FoundIsWithin(img, view.ref.KeyPointer(img), path, i + 1);
      }
    }
  }

  /** A search that finds something enters a matching entry. */
  lemma {:induction false} SearchEnters(img: bytes, view: View, path: seq<bytes>, i: nat) returns (k: nat)
    requires i < |path| && Search(img, view, path, i).Found?
    ensures k < |Listed(view)| && Listed(view)[k].Within(img) && Listed(view)[k].NameMatches(img, path[i])
    ensures Search(img, view, path, i) == Enter(img, Listed(view)[k], path, i)
    decreases view
  {
    k := 0;
    if !view.ref.NameMatches(img, path[i]) {
      k := SearchEnters(img, view.rest, path, i);
      k := k + 1;
    }
  }

  // ----- in a well-formed volume -----

  /** The directory and, `depth` levels down, all its subdirectories are well formed. */
  ghost predicate WellFormedTree(img: bytes, key: nat, depth: nat)
    decreases depth, 1
  {
    depth > 0 ==>
      WellFormedDirectory(img, key) &&
      AllWellFormed(img, ActiveEntries(img, key), depth - 1)
  }

  ghost predicate AllWellFormed(img: bytes, refs: seq<EntryRef>, depth: nat)
    decreases depth, 2
  {
    forall i :: 0 <= i < |refs| && refs[i].Within(img) && refs[i].IsDirectory(img) ==>
      WellFormedTree(img, refs[i].KeyPointer(img), depth)
  }

  /** refs[k] is the first entry with the given name. */
  ghost predicate FirstMatch(img: bytes, refs: seq<EntryRef>, name: bytes, k: nat) {
    k < |refs| &&
    (forall j :: 0 <= j <= k ==> refs[j].Within(img)) &&
    refs[k].NameMatches(img, name) &&
    forall j :: 0 <= j < k ==> !refs[j].NameMatches(img, name)
  }

  ghost predicate NoMatch(img: bytes, refs: seq<EntryRef>, name: bytes) {
    forall j :: 0 <= j < |refs| ==> refs[j].Within(img) && !refs[j].NameMatches(img, name)
  }

  lemma {:induction false} SearchFindsFirst(img: bytes, view: View, path: seq<bytes>, i: nat, k: nat)
    requires i < |path|
    requires FirstMatch(img, Listed(view), path[i], k)
    ensures Search(img, view, path, i) == Enter(img, Listed(view)[k], path, i)
    decreases k
  {
    var refs := Listed(view);
    assert refs[0] == view.ref;
    if k > 0 {
      assert forall j :: 0 <= j < |Listed(view.rest)| ==> Listed(view.rest)[j] == refs[j + 1];
      SearchFindsFirst(img, view.rest, path, i, k - 1);
    }
  }

  lemma {:induction false} SearchFindsNone(img: bytes, view: View, path: seq<bytes>, i: nat)
    requires i < |path|
    requires NoMatch(img, Listed(view), path[i]) && EndOf(view) == None
    ensures Search(img, view, path, i) == NotFound(ErrFileNotFound)
    decreases view
  {
    if view.Entry? {
      var refs := Listed(view);
      assert refs[0] == view.ref;
      assert forall j :: 0 <= j < |Listed(view.rest)| ==> Listed(view.rest)[j] == refs[j + 1];
      SearchFindsNone(img, view.rest, path, i);
    }
  }

  lemma {:induction false} SomeFirstMatch(img: bytes, refs: seq<EntryRef>, name: bytes) returns (k: nat)
    requires forall j :: 0 <= j < |refs| ==> refs[j].Within(img)
    ensures k <= |refs|
    ensures k < |refs| ==> FirstMatch(img, refs, name, k)
    ensures k == |refs| ==> NoMatch(img, refs, name)
  {
    k := 0;
    while k < |refs| && !refs[k].NameMatches(img, name)
      invariant k <= |refs| && forall j :: 0 <= j < k ==> !refs[j].NameMatches(img, name)
    {
      k := k + 1;
    }
  }

  /** refs[k] is the first match for some k. */
  ghost predicate IsFirstMatch(img: bytes, refs: seq<EntryRef>, name: bytes, ref: EntryRef) {
    exists k: nat :: FirstMatch(img, refs, name, k) && refs[k] == ref
  }

  /** The walk shows why a lookup ends the way it does: level by level it names the first
      match, up to where there is none, or it is no directory, or it is the entry found. */
  ghost predicate Explains(img: bytes, key: nat, path: seq<bytes>, i: nat, walk: seq<EntryRef>, r: Result)
    requires i < |path|
    decreases |walk|
  {
    HasChain(img, key) &&
    if walk == [] then r == NotFound(ErrFileNotFound) && NoMatch(img, ActiveEntries(img, key), path[i])
    else
      walk[0].Within(img) && IsFirstMatch(img, ActiveEntries(img, key), path[i], walk[0]) &&
      if i + 1 == |path| then |walk| == 1 && r == Found(walk[0])
      else if !walk[0].IsDirectory(img) then |walk| == 1 && r == NotFound(ErrDirectoryNotFound)
      else Explains(img, walk[0].KeyPointer(img), path, i + 1, walk[1..], r)
  }

  lemma ActiveEntriesWithin(img: bytes, key: nat)
    requires HasChain(img, key)
    ensures forall j :: 0 <= j < |ActiveEntries(img, key)| ==> ActiveEntries(img, key)[j].Within(img)
  {
    var refs := ActiveEntries(img, key);
    forall j | 0 <= j < |refs| ensures refs[j].Within(img) {
      ActiveExactly(img, ChainFrom(img, key), 1, refs[j]);
    }
  }

  /** One level of a lookup in a well-formed tree. */
  lemma ResolveStep(img: bytes, key: nat, path: seq<bytes>, i: nat, k: nat, depth: nat)
    requires i < |path| && depth > 0 && WellFormedTree(img, key, depth)
    requires k <= |ActiveEntries(img, key)|
    requires k < |ActiveEntries(img, key)| ==> FirstMatch(img, ActiveEntries(img, key), path[i], k)
    requires k == |ActiveEntries(img, key)| ==> NoMatch(img, ActiveEntries(img, key), path[i])
    ensures k == |ActiveEntries(img, key)| ==> Resolve(img, key, path, i) == NotFound(ErrFileNotFound)
    ensures k < |ActiveEntries(img, key)| ==> var ref := ActiveEntries(img, key)[k];
      ref.Within(img) &&
      (ref.IsDirectory(img) ==> WellFormedTree(img, ref.KeyPointer(img), depth - 1)) &&
      Resolve(img, key, path, i) == Enter(img, ref, path, i)
  {
    WellFormedDirectoryLists(img, key);
    var refs := ActiveEntries(img, key);
    if k == |refs| {
      SearchFindsNone(img, DirectoryView(img, key), path, i);
    } else {
      SearchFindsFirst(img, DirectoryView(img, key), path, i, k);
    }
  }

  /** In a well-formed tree every lookup is explained by a walk, and never throws. */
  lemma {:induction false} LookupIsExplained(img: bytes, key: nat, path: seq<bytes>, i: nat)
    returns (walk: seq<EntryRef>, r: Result)
    requires i < |path| && WellFormedTree(img, key, |path| - i)
    ensures r == Resolve(img, key, path, i)
    ensures Explains(img, key, path, i, walk, r)
    decreases |path| - i
  {
    ActiveEntriesWithin(img, key);
    var refs := ActiveEntries(img, key);
    var k := SomeFirstMatch(img, refs, path[i]);
    ResolveStep(img, key, path, i, k, |path| - i);
    if k == |refs| {
      walk, r := [], NotFound(ErrFileNotFound);
    } else if i + 1 == |path| {
      walk, r := [refs[k]], Found(refs[k]);
    } else if !refs[k].IsDirectory(img) {
      walk, r := [refs[k]], NotFound(ErrDirectoryNotFound);
    } else {
      walk, r := LookupIsExplained(img, refs[k].KeyPointer(img), path, i + 1);
      OneMoreLevel(img, key, path, i, refs[k], walk, r);
      walk := [refs[k]] + walk;
    }
  }

  lemma OneMoreLevel(img: bytes, key: nat, path: seq<bytes>, i: nat, ref: EntryRef, rest: seq<EntryRef>, r: Result)
    requires i + 1 < |path| && ref.Within(img) && ref.IsDirectory(img)
    requires HasChain(img, key) && IsFirstMatch(img, ActiveEntries(img, key), path[i], ref)
    requires Explains(img, ref.KeyPointer(img), path, i + 1, rest, r)
    ensures Explains(img, key, path, i, [ref] + rest, r)
  {
    assert ([ref] + rest)[1..] == rest;
  }

  lemma {:induction false} ExplanationIsUnique(img: bytes, key: nat, path: seq<bytes>, i: nat,
                                              walk: seq<EntryRef>, r: Result, other: seq<EntryRef>, s: Result)
    requires i < |path|
    requires Explains(img, key, path, i, walk, r)
    requires Explains(img, key, path, i, other, s)
    ensures r == s
    decreases |walk|
  {
    if walk != [] && other != [] {
      var refs := ActiveEntries(img, key);
      var k: nat :| FirstMatch(img, refs, path[i], k) && refs[k] == walk[0];
      var l: nat :| FirstMatch(img, refs, path[i], l) && refs[l] == other[0];
      assert !(k < l) && !(l < k);
      if i + 1 < |path| && walk[0].IsDirectory(img) {
        ExplanationIsUnique(img, walk[0].KeyPointer(img), path, i + 1, walk[1..], r, other[1..], s);
      }
    }
  }

  /** Conversely a walk that explains an outcome forces it: the lookup is exactly the
      first-match-per-level search. */
  lemma ExplanationDecides(img: bytes, key: nat, path: seq<bytes>, i: nat, walk: seq<EntryRef>, r: Result)
    requires i < |path| && WellFormedTree(img, key, |path| - i)
    requires Explains(img, key, path, i, walk, r)
    ensures Resolve(img, key, path, i) == r
  {
    var other, s := LookupIsExplained(img, key, path, i);
    ExplanationIsUnique(img, key, path, i, walk, r, other, s);
  }

  /** An explanation has one entry per component looked at, each but the last a directory
      that holds the next. A lookup that fails stops short: at an entry that is no
      directory, or behind a directory without a match. */
  lemma {:induction false} ShapeOfWalk(img: bytes, key: nat, path: seq<bytes>, i: nat, walk: seq<EntryRef>, r: Result)
    requires i < |path| && Explains(img, key, path, i, walk, r)
    ensures !r.Raised? && i + |walk| <= |path|
    ensures forall j :: 0 <= j < |walk| ==> walk[j].Within(img) && (j < |walk| - 1 ==> walk[j].IsDirectory(img))
    ensures r.Found? <==> i + |walk| == |path|
    ensures r.Found? ==> walk[|walk| - 1] == r.ref
    ensures r == NotFound(ErrDirectoryNotFound) <==>
      0 < |walk| < |path| - i && walk[|walk| - 1].Within(img) && !walk[|walk| - 1].IsDirectory(img)
    decreases |walk|
  {
    if walk != [] && i + 1 < |path| && walk[0].IsDirectory(img) {
      ShapeOfWalk(img, walk[0].KeyPointer(img), path, i + 1, walk[1..], r);
      assert forall j :: 1 <= j < |walk| ==> walk[j] == walk[1..][j - 1];
    }
  }
}
