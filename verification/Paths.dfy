/** Splitting a pathname into components (S_SplitPath in source/volume.cxx), as the source
    does it: with the position of the next slash, less one, for the component's length. */
module Paths {
  import opened Bytes

  /** The position of the first slash at or after `from`; the length if there is none. */
  function FindSlash(s: bytes, from: nat): (p: nat)
    requires from <= |s|
    ensures from <= p <= |s|
    ensures p < |s| ==> s[p] == SLASH
    ensures forall i :: from <= i < p ==> s[i] != SLASH
    decreases |s| - from
  {
    if from == |s| || s[from] == SLASH then from else FindSlash(s, from + 1)
  }

  /** std::string::substr */
  function Substr(s: bytes, start: nat, n: nat): bytes
    requires start <= |s|
  {
    Part(s, start, Min(n, |s| - start))
  }

  function Tail(s: bytes, start: nat): bytes
    requires start <= |s|
  {
    Part(s, start, |s| - start)
  }

  predicate Rooted(s: bytes) {
    s != [] && s[0] == SLASH
  }

  function Start(s: bytes): nat {
    if Rooted(s) then 1 else 0
  }

  /** The components from position `start` on, as the source cuts them. */
  function SplitFrom(s: bytes, start: nat): (parts: seq<bytes>)
    requires Start(s) <= start <= |s|
    decreases |s| - start
  {
    var pos := FindSlash(s, start);
    if pos == |s| then [Tail(s, start)] else [Substr(s, start, pos - 1)] + SplitFrom(s, pos + 1)
  }

  function Split(s: bytes): seq<bytes> {
    SplitFrom(s, Start(s))
  }

  method SplitPath(pathname: bytes) returns (path: seq<bytes>)
    ensures path == Split(pathname)
  {
    path := [];
    var start := Start(pathname);
    var pos := FindSlash(pathname, start);
    while pos < |pathname|
      invariant Start(pathname) <= start <= pos <= |pathname|
      invariant pos == FindSlash(pathname, start)
      invariant IsInTwo(Split(pathname), path, SplitFrom(pathname, start))
      decreases |pathname| - start
    {
      var part := Substr(pathname, start, pos - 1);
      MoveOver(Split(pathname), path, part, SplitFrom(pathname, pos + 1));
      path := path + [part];
      start := pos + 1;
      pos := FindSlash(pathname, start);
    }
    var part := Tail(pathname, start);
    assert SplitFrom(pathname, start) == [part];
    MoveLast(Split(pathname), path, part);
    path := path + [part];
  }

  lemma MoveLast(whole: seq<bytes>, a: seq<bytes>, x: bytes)
    requires IsInTwo(whole, a, [x])
    ensures whole == a + [x]
  {
  }

  lemma MoveOver(whole: seq<bytes>, a: seq<bytes>, x: bytes, b: seq<bytes>)
    requires IsInTwo(whole, a, [x] + b)
    ensures IsInTwo(whole, a + [x], b)
  {
    forall i | |a| < i < |whole| ensures whole[i] == b[i - |a| - 1] {
      assert whole[i] == ([x] + b)[i - |a|];
    }
  }

  /** `whole` is `a` followed by `b`. */
  ghost predicate IsInTwo(whole: seq<bytes>, a: seq<bytes>, b: seq<bytes>) {
    |whole| == |a| + |b| &&
    (forall i :: 0 <= i < |a| ==> whole[i] == a[i]) &&
    (forall i :: |a| <= i < |whole| ==> whole[i] == b[i - |a|])
  }

  // ----- what splitting should mean -----

  function JoinParts(parts: seq<bytes>): bytes
    requires |parts| > 0
  {
    if |parts| == 1 then parts[0] else parts[0] + [SLASH] + JoinParts(parts[1..])
  }

  /** The right components of a path: free of slashes, and joined by slashes they give the
      path back, a leading slash aside. */
  predicate IsSplit(s: bytes, parts: seq<bytes>) {
    |parts| > 0 && (forall p :: p in parts ==> SLASH !in p) && JoinParts(parts) == Tail(s, Start(s))
  }

  /** Slashes at or after position `from`. */
  function SlashesFrom(s: bytes, from: nat): nat
    requires from <= |s|
    decreases |s| - from
  {
    if from == |s| then 0 else (if s[from] == SLASH then 1 else 0) + SlashesFrom(s, from + 1)
  }

  /** Slashes that separate components: all but the leading one. */
  function Separators(s: bytes): nat {
    SlashesFrom(s, Start(s))
  }

  lemma {:induction false} SlashesAfterFirst(s: bytes, from: nat)
    requires from <= |s|
    ensures var pos := FindSlash(s, from);
      SlashesFrom(s, from) == if pos == |s| then 0 else 1 + SlashesFrom(s, pos + 1)
    decreases |s| - from
  {
    if from < |s| && s[from] != SLASH {
      SlashesAfterFirst(s, from + 1);
    }
  }

  /** One component more than separators, and the last one is what follows the last slash. */
  lemma {:induction false} SplitCount(s: bytes, start: nat)
    requires Start(s) <= start <= |s|
    ensures |SplitFrom(s, start)| == 1 + SlashesFrom(s, start)
    ensures var last := SplitFrom(s, start)[|SplitFrom(s, start)| - 1];
      SLASH !in last && |last| <= |s| - start && last == Tail(s, |s| - |last|) &&
      (start < |s| - |last| ==> s[|s| - |last| - 1] == SLASH)
    decreases |s| - start
  {
    var pos := FindSlash(s, start);
    SlashesAfterFirst(s, start);
    if pos < |s| {
      SplitCount(s, pos + 1);
    }
  }

  /** The first component is what comes before the first separator exactly for rooted paths
      and for paths without one; otherwise its last character is lost. */
  lemma FirstComponent(s: bytes)
    ensures Split(s)[0] == Part(s, Start(s), FindSlash(s, Start(s)) - Start(s)) <==> Rooted(s) || Separators(s) == 0
  {
    SlashesAfterFirst(s, Start(s));
    assert |Split(s)[0]| < FindSlash(s, Start(s)) - Start(s) || Rooted(s) || Separators(s) == 0;
  }

  /** From the second component on, all but the last swallow a slash. */
  lemma {:induction false} MiddlePartsKeepASlash(s: bytes, start: nat, i: nat)
    requires 2 <= start <= |s| && i + 1 < |SplitFrom(s, start)|
    ensures SLASH in SplitFrom(s, start)[i]
    decreases i
  {
    var pos := FindSlash(s, start);
    if i > 0 {
      MiddlePartsKeepASlash(s, pos + 1, i - 1);
    } else {
      var part := Substr(s, start, pos - 1);
      assert part[pos - start] == SLASH;
    }
  }

  lemma MiddleComponents(s: bytes, i: nat)
    requires 0 < i && i + 1 < |Split(s)|
    ensures SLASH in Split(s)[i]
  {
    var pos := FindSlash(s, Start(s));
    if Start(s) == 0 {
      assert pos > 0;
    }
    MiddlePartsKeepASlash(s, pos + 1, i - 1);
  }

  /** Splitting is right exactly for paths without separators and for rooted paths with
      one. */
  lemma SplitIsExactOnShortPaths(s: bytes)
    ensures IsSplit(s, Split(s)) <==> Separators(s) == 0 || (Rooted(s) && Separators(s) == 1)
  {
    SplitCount(s, Start(s));
    SlashesAfterFirst(s, Start(s));
    if Separators(s) == 1 {
      OneSeparator(s);
    } else if Separators(s) > 1 {
      MiddleComponents(s, 1);
      assert Split(s)[1] in Split(s);
    }
  }

  /** "/a/b/c", for instance, comes apart into "a", "b/c" and "c". */
  lemma DeepPathComesApartWrongly()
    ensures var s: bytes := [SLASH, 0x61, SLASH, 0x62, SLASH, 0x63];
      Split(s) == [[0x61], [0x62, SLASH, 0x63], [0x63]] && !IsSplit(s, Split(s))
  {
    var s: bytes := [SLASH, 0x61, SLASH, 0x62, SLASH, 0x63];
    FindAt(s, 1, 2);
    FindAt(s, 3, 4);
    FindAt(s, 5, 6);
    assert Substr(s, 1, 1) == [0x61] && Substr(s, 3, 3) == [0x62, SLASH, 0x63] && Tail(s, 5) == [0x63];
    assert SplitFrom(s, 5) == [[0x63]];
    assert SplitFrom(s, 3) == [[0x62, SLASH, 0x63]] + SplitFrom(s, 5);
    assert SLASH in Split(s)[1];
  }

  lemma OneSeparator(s: bytes)
    requires Separators(s) == 1
    ensures IsSplit(s, Split(s)) <==> Rooted(s)
  {
    var start := Start(s);
    var pos := FindSlash(s, start);
    SlashesAfterFirst(s, start);
    SlashesAfterFirst(s, pos + 1);
    var parts := Split(s);
    var first, last := Substr(s, start, pos - 1), Tail(s, pos + 1);
    assert SplitFrom(s, pos + 1) == [last];
    assert parts == [first, last];
    assert parts[1..] == [last] && JoinParts(parts) == first + [SLASH] + last;
    if Rooted(s) {
      assert first == Part(s, 1, pos - 1);
      assert Tail(s, 1) == Part(s, 1, pos - 1) + [SLASH] + Tail(s, pos + 1);
    } else {
      assert |JoinParts(parts)| < |Tail(s, start)|;
    }
  }

  /** The two shapes of path for which lookup works as intended. */
  lemma SplitNames(a: bytes, b: bytes)
    requires SLASH !in a && SLASH !in b
    ensures Split([SLASH] + a) == [a]
    ensures Split([SLASH] + a + [SLASH] + b) == [a, b]
  {
    SplitOne([SLASH] + a, a);
    SplitTwo([SLASH] + a + [SLASH] + b, a, b);
  }

  lemma SplitOne(s: bytes, a: bytes)
    requires SLASH !in a && s == [SLASH] + a
    ensures Split(s) == [a]
  {
    assert forall i :: 1 <= i < |s| ==> s[i] == a[i - 1];
    FindAt(s, 1, |s|);
    assert Tail(s, 1) == a;
  }

  lemma SplitTwo(s: bytes, a: bytes, b: bytes)
    requires SLASH !in a && SLASH !in b && s == [SLASH] + a + [SLASH] + b
    ensures Split(s) == [a, b]
  {
    SplitAt(s, a, b, |a| + 1);
  }

  /** The same, character by character. */
  lemma SplitAt(s: bytes, a: bytes, b: bytes, m: nat)
    requires SLASH !in a && SLASH !in b && |a| == m - 1 && |b| == |s| - m - 1
    requires s[0] == s[m] == SLASH && forall i :: 1 <= i < m ==> s[i] == a[i - 1]
    requires forall i :: m < i < |s| ==> s[i] == b[i - m - 1]
    ensures Split(s) == [a, b]
  {
    FindAt(s, 1, m);
    assert Substr(s, 1, m - 1) == a;
    assert SplitFrom(s, m + 1) == [b] by {
      FindAt(s, m + 1, |s|);
      assert Tail(s, m + 1) == b;
    }
    assert SplitFrom(s, 1) == [Substr(s, 1, m - 1)] + SplitFrom(s, m + 1);
  }

  lemma {:induction false} FindAt(s: bytes, from: nat, p: nat)
    requires from <= p <= |s| && (p < |s| ==> s[p] == SLASH)
    requires forall i :: from <= i < p ==> s[i] != SLASH
    ensures FindSlash(s, from) == p
    decreases p - from
  {
    if from < p {
      FindAt(s, from + 1, p);
    }
  }
}
