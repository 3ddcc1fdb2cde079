/** Replacing every character of a range in a line, as the converters' `s/[a-b]/text/g`. */
module Substitution {
  /** Characters `low` .. `high` become `text`. */
  datatype Rule = Rule(low: char, high: char, text: string) {
    predicate Matches(c: char) {
      low <= c <= high
    }

    /** What the rule makes of one character. */
    function Piece(c: char): string {
      if Matches(c) then text else [c]
    }
  }

  /** The first n characters of the line after one substitution. */
  function Substituted(line: string, n: nat, rule: Rule): string
    requires n <= |line|
  {
    if n == 0 then "" else Substituted(line, n - 1, rule) + rule.Piece(line[n - 1])
  }

  /** s/[low-high]/text/g */
  method Substitute(line: string, rule: Rule) returns (out: string)
    ensures out == Substituted(line, |line|, rule)
  {
    out := "";
    var i := 0;
    while i < |line|
      invariant 0 <= i <= |line|
      invariant out == Substituted(line, i, rule)
    {
      out := out + rule.Piece(line[i]);
      i := i + 1;
    }
  }

  lemma {:induction false} SubstitutedConcat(a: string, b: string, m: nat, rule: Rule)
    requires m <= |b|
    ensures Substituted(a + b, |a| + m, rule) == Substituted(a, |a|, rule) + Substituted(b, m, rule)
  {
    if m == 0 {
      SubstitutedPrefix(a, b, |a|, rule);
      assert Substituted(a, |a|, rule) + "" == Substituted(a, |a|, rule);
    } else {
      SubstitutedConcat(a, b, m - 1, rule);
      var x, y, z := Substituted(a, |a|, rule), Substituted(b, m - 1, rule), rule.Piece(b[m - 1]);
      assert (x + y) + z == x + (y + z);
    }
  }

  lemma {:induction false} SubstitutedPrefix(a: string, b: string, n: nat, rule: Rule)
    requires n <= |a|
    ensures Substituted(a + b, n, rule) == Substituted(a, n, rule)
  {
    if n > 0 {
      SubstitutedPrefix(a, b, n - 1, rule);
    }
  }

  lemma {:induction false} InertUnchanged(text: string, n: nat, rule: Rule)
    requires n <= |text| && forall i :: 0 <= i < |text| ==> !rule.Matches(text[i])
    ensures Substituted(text, n, rule) == text[..n]
  {
    if n > 0 {
      InertUnchanged(text, n - 1, rule);
    }
  }

  lemma SubstitutedParts(a: string, b: string, rule: Rule, a': string, b': string)
    requires Substituted(a, |a|, rule) == a' && Substituted(b, |b|, rule) == b'
    ensures Substituted(a + b, |a + b|, rule) == a' + b'
  {
    SubstitutedConcat(a, b, |b|, rule);
  }
}
