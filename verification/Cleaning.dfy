/** The clean-up of a run of MultiScribe text (util/wpf2txt). */
module Cleaning {
  import opened Substitution

  const NUL := '\U{00}'
  const TAB := '\t'
  const LF := '\n'
  const CR := '\r'

  function Whole(text: string, rule: Rule): string {
    Substituted(text, |text|, rule)
  }

  function ReturnRule(): Rule {
    Rule(CR, CR, "\n\n")
  }

  function TabRule(): Rule {
    Rule(TAB, TAB, "        ")
  }

  /** The first two substitutions. */
  function Expanded(text: string): string {
    Whole(Whole(text, ReturnRule()), TabRule())
  }

  /** s/\x00.//g from the front on; the dot does not match a newline. */
  function PairsDeleted(text: string): string {
    if text == "" then ""
    else if StartsWithPair(text) then PairsDeleted(text[2..])
    else [text[0]] + PairsDeleted(text[1..])
  }

  predicate StartsWithPair(text: string) {
    |text| >= 2 && text[0] == NUL && text[1] != LF
  }

  predicate IsControl(c: char) {
    c <= '\U{08}' || '\U{0E}' <= c <= '\U{1F}'
  }

  /** s/[\x00-\x08\x0e-\x1f]//g */
  function ControlsDeleted(text: string): string {
    if text == "" then ""
    else if IsControl(text[0]) then ControlsDeleted(text[1..])
    else [text[0]] + ControlsDeleted(text[1..])
  }

  /** The clean-up, with a single round of each of its two loops. */
  function Cleaned(text: string): string {
    ControlsDeleted(PairsDeleted(Expanded(text)))
  }

  // ----- the script -----

  /** The clean-up of a run. Each loop goes round once to delete and once to find nothing. */
  method Clean(text: string) returns (out: string)
    ensures out == Cleaned(text)
  {
    out := Substitute(text, ReturnRule());
    out := Substitute(out, TabRule());
    out := DeleteAllPairs(out);
    out := DeleteAllControls(out);
  }

  method DeleteAllPairs(text: string) returns (out: string)
    ensures out == PairsDeleted(text)
  {
    PairsAreDeletedAtOnce(text);
    out := text;
    var matched := true;
    while matched
      invariant out == text || out == PairsDeleted(text)
      invariant !matched ==> out == PairsDeleted(text)
      decreases |out|, matched
    {
      out, matched := DeletePairs(out);
    }
  }

  /** One round, and whether it found something to delete. */
  method DeletePairs(text: string) returns (out: string, matched: bool)
    ensures out == PairsDeleted(text)
    ensures if matched then |out| < |text| else out == text
  {
    out, matched := "", false;
    var i := 0;
    while i < |text|
      invariant 0 <= i <= |text| && |out| <= i
      invariant out + PairsDeleted(text[i..]) == PairsDeleted(text)
      invariant if matched then |out| < i else out == text[..i]
    {
      ghost var rest, was := text[i..], out;
      if i + 1 < |text| && text[i] == NUL && text[i + 1] != LF {
        matched := true;
        i := i + 2;
        assert rest[2..] == text[i..];
      } else {
        out := out + [text[i]];
        i := i + 1;
        assert rest[1..] == text[i..];
        assert was + ([rest[0]] + PairsDeleted(rest[1..])) == out + PairsDeleted(text[i..]);
      }
    }
  }

  method DeleteAllControls(text: string) returns (out: string)
    ensures out == ControlsDeleted(text)
  {
    ControlsAreDeletedAtOnce(text);
    out := text;
    var matched := true;
    while matched
      invariant out == text || out == ControlsDeleted(text)
      invariant !matched ==> out == ControlsDeleted(text)
      decreases |out|, matched
    {
      out, matched := DeleteControls(out);
    }
  }

  method DeleteControls(text: string) returns (out: string, matched: bool)
    ensures out == ControlsDeleted(text)
    ensures if matched then |out| < |text| else out == text
  {
    out, matched := "", false;
    var i := 0;
    while i < |text|
      invariant 0 <= i <= |text| && |out| <= i
      invariant out + ControlsDeleted(text[i..]) == ControlsDeleted(text)
      invariant if matched then |out| < i else out == text[..i]
    {
      ghost var rest, was := text[i..], out;
      if IsControl(text[i]) {
        matched := true;
      } else {
        out := out + [text[i]];
        assert was + ([rest[0]] + ControlsDeleted(rest[1..])) == out + ControlsDeleted(rest[1..]);
      }
      i := i + 1;
      assert rest[1..] == text[i..];
    }
  }

  // ----- one round is enough -----

  predicate HasNoPair(text: string) {
    forall i :: 0 <= i < |text| - 1 ==> !(text[i] == NUL && text[i + 1] != LF)
  }

  predicate HasNoControl(text: string) {
    forall i :: 0 <= i < |text| ==> !IsControl(text[i])
  }

  /** One round leaves no pair, so the round after it changes nothing. */
  lemma {:induction false} PairsAreDeletedAtOnce(text: string)
    ensures HasNoPair(PairsDeleted(text))
    ensures PairsDeleted(PairsDeleted(text)) == PairsDeleted(text)
    decreases |text|
  {
    if text != "" {
      if StartsWithPair(text) {
        PairsAreDeletedAtOnce(text[2..]);
      } else {
        var rest := PairsDeleted(text[1..]);
        PairsAreDeletedAtOnce(text[1..]);
        assert PairsDeleted(text) == [text[0]] + rest;
        if text[0] == NUL && |text| > 1 {
          assert text[1..][0] == LF;
          assert rest[0] == LF;
        }
        assert ([text[0]] + rest)[1..] == rest;
        assert forall i :: 0 <= i < |rest| ==> ([text[0]] + rest)[i + 1] == rest[i];
      }
    }
  }

  lemma {:induction false} ControlsAreDeletedAtOnce(text: string)
    ensures HasNoControl(ControlsDeleted(text))
    ensures ControlsDeleted(ControlsDeleted(text)) == ControlsDeleted(text)
    decreases |text|
  {
    if text != "" {
      ControlsAreDeletedAtOnce(text[1..]);
      var rest := ControlsDeleted(text[1..]);
      assert ([text[0]] + rest)[1..] == rest;
    }
  }

  // ----- the four rewritings as one reading of the text -----

  /** What a character contributes; `hit` says that it follows a NUL that deletes. */
  function Shown(c: char, hit: bool): string {
    if c == CR then "\n\n"
    else if c == LF then "\n"
    else if c == TAB then (if hit then "       " else "        ")
    else if hit || IsControl(c) then ""
    else [c]
  }

  /** The cleaned text, read off the original in one go: a NUL takes the next character
      with it, but no line end, and of a tab only the first of its eight blanks. */
  function Read(text: string, hit: bool): string {
    if text == "" then "" else Shown(text[0], hit) + Read(text[1..], text[0] == NUL && !hit)
  }

  lemma {:induction false} ExpandedCons(c: char, text: string)
    ensures Expanded([c] + text) == Expanded([c]) + Expanded(text)
  {
    var r := Whole([c], ReturnRule());
    var s := Whole(text, ReturnRule());
    SubstitutedParts([c], text, ReturnRule(), r, s);
    SubstitutedParts(r, s, TabRule(), Whole(r, TabRule()), Whole(s, TabRule()));
  }

  /** The first two substitutions on one character. */
  function Widened(c: char): string {
    if c == CR then "\n\n" else if c == TAB then "        " else [c]
  }

  lemma Single(c: char, rule: Rule)
    ensures Whole([c], rule) == rule.Piece(c)
  {
    assert Substituted([c], 1, rule) == Substituted([c], 0, rule) + rule.Piece(c);
  }

  lemma Unmatched(text: string, rule: Rule)
    requires forall i :: 0 <= i < |text| ==> !rule.Matches(text[i])
    ensures Whole(text, rule) == text
  {
    InertUnchanged(text, |text|, rule);
  }

  lemma ExpandedOne(c: char)
    ensures Expanded([c]) == Widened(c)
  {
    Single(c, ReturnRule());
    if c == CR {
      Unmatched("\n\n", TabRule());
    } else {
      Single(c, TabRule());
    }
  }

  /** Free of what the first two substitutions replace. */
  predicate IsExpanded(u: string) {
    forall i :: 0 <= i < |u| ==> u[i] != CR && u[i] != TAB
  }

  /** A reading of text that is expanded already. */
  lemma {:induction false} DeletionsAreAReading(u: string)
    requires IsExpanded(u)
    ensures ControlsDeleted(PairsDeleted(u)) == Read(u, false)
    decreases |u|
  {
    if u != "" {
      var v := u[1..];
      if StartsWithPair(u) {
        assert u[2..] == v[1..];
        DeletionsAreAReading(u[2..]);
        assert Read(v, true) == Read(v[1..], false);
      } else {
        DeletionsAreAReading(v);
        var w := PairsDeleted(v);
        assert PairsDeleted(u) == [u[0]] + w;
        assert ([u[0]] + w)[1..] == w;
        if u[0] == NUL && v != "" {
          assert Read(v, true) == Read(v, false);
        }
      }
    }
  }

  lemma ReadOne(c: char, rest: string, hit: bool)
    ensures Read([c] + rest, hit) == Shown(c, hit) + Read(rest, c == NUL && !hit)
  {
    assert ([c] + rest)[1..] == rest;
  }

  /** A run of blanks. */
  lemma {:induction false} ReadBlanks(n: nat, blanks: string, rest: string, got: string)
    requires got == Read(rest, false) && |blanks| == n && forall i :: 0 <= i < n ==> blanks[i] == ' '
    ensures Read(blanks + rest, false) == blanks + got
    decreases n
  {
    if n == 0 {
      assert blanks + rest == rest;
    } else {
      var fewer, more := blanks[1..], blanks[1..] + rest;
      ReadBlanks(n - 1, fewer, rest, got);
      BlankInFront(fewer, rest, blanks);
      BlankInFront(fewer, got, blanks);
      ReadOne(' ', more, false);
    }
  }

  lemma BlankInFront(fewer: string, rest: string, blanks: string)
    requires blanks != "" && blanks[0] == ' ' && fewer == blanks[1..]
    ensures [' '] + (fewer + rest) == blanks + rest
  {
  }

  lemma ReadWidened(c: char, rest: string, hit: bool)
    ensures Read(Widened(c) + rest, hit) == Shown(c, hit) + Read(rest, c == NUL && !hit)
  {
    if c == CR {
      assert Widened(c) + rest == [LF] + ([LF] + rest);
      ReadOne(LF, [LF] + rest, hit);
      ReadOne(LF, rest, false);
      assert [LF] + ([LF] + Read(rest, false)) == "\n\n" + Read(rest, false);
    } else if c == TAB && hit {
      assert Widened(c) + rest == [' '] + ("       " + rest);
      ReadOne(' ', "       " + rest, hit);
      ReadBlanks(7, "       ", rest, Read(rest, false));
    } else if c == TAB {
      ReadBlanks(8, "        ", rest, Read(rest, false));
    } else {
      ReadOne(c, rest, hit);
    }
  }

  /** The expansion of one more character in front. */
  lemma ExpandedStep(c: char, rest: string, u: string)
    requires u == Expanded(rest)
    ensures Expanded([c] + rest) == Widened(c) + u
  {
    ExpandedCons(c, rest);
    ExpandedOne(c);
  }

  /** The reading of one more character in front. */
  lemma ReadStep(c: char, rest: string, u: string, hit: bool)
    requires Read(u, c == NUL && !hit) == Read(rest, c == NUL && !hit)
    ensures Read(Widened(c) + u, hit) == Read([c] + rest, hit)
  {
    ReadWidened(c, u, hit);
    ReadOne(c, rest, hit);
  }

  lemma WidenedIsExpanded(c: char, u: string)
    requires IsExpanded(u)
    ensures IsExpanded(Widened(c) + u)
  {
  }

  /** Reading what the first two substitutions leave is reading the original. */
  lemma {:induction false} ReadExpanded(text: string, hit: bool) returns (u: string)
    ensures u == Expanded(text) && IsExpanded(u) && Read(u, hit) == Read(text, hit)
    decreases |text|
  {
    if text == "" {
      u := "";
    } else {
      var c, rest := text[0], text[1..];
      var v := ReadExpanded(rest, c == NUL && !hit);
      ExpandedStep(c, rest, v);
      ReadStep(c, rest, v, hit);
      WidenedIsExpanded(c, v);
      u := Widened(c) + v;
      assert [c] + rest == text;
    }
  }

  /** The clean-up is a single reading of the text. */
  lemma CleanedIsOneReading(text: string)
    ensures Cleaned(text) == Read(text, false)
  {
    var u := ReadExpanded(text, false);
    DeletionsAreAReading(u);
  }

  /** What becomes of a single character, by its code. */
  lemma CleanedCharacter(c: char)
    ensures var n := c as int;
      Cleaned([c]) ==
        if n == 13 then [10 as char, 10 as char]
        else if n == 9 then [' ', ' ', ' ', ' ', ' ', ' ', ' ', ' ']
        else if n == 10 || n == 11 || n == 12 || n >= 32 then [c]
        else []
  {
    CleanedIsOneReading([c]);
    assert Read([c], false) == Shown(c, false) + Read([], c == NUL);
  }

  /** A NUL takes any following character with it that is no line end. */
  lemma NulTakesNext(c: char)
    requires c as int != 10 && c as int != 13 && c as int != 9
    ensures Cleaned([0 as char, c, 'x']) == ['x']
  {
    var text := [0 as char, c, 'x'];
    CleanedIsOneReading(text);
    assert text[1..] == [c, 'x'] && [c, 'x'][1..] == ['x'] && ['x'][1..] == [];
    assert Read(['x'], false) == ['x'];
    assert Read([c, 'x'], true) == ['x'];
  }

  predicate Printable(c: char) {
    c != CR && c != TAB && !IsControl(c)
  }

  lemma {:induction false} ReadIsPrintable(text: string, hit: bool)
    ensures forall i :: 0 <= i < |Read(text, hit)| ==> Printable(Read(text, hit)[i])
    decreases |text|
  {
    if text != "" {
      ReadIsPrintable(text[1..], text[0] == NUL && !hit);
    }
  }

  /** Cleaned text has no CR, no tab and none of the other deleted codes. */
  lemma CleanedIsPrintable(text: string)
    ensures forall i :: 0 <= i < |Cleaned(text)| ==> Printable(Cleaned(text)[i])
  {
    CleanedIsOneReading(text);
    ReadIsPrintable(text, false);
  }

  lemma {:induction false} PrintableReadsAsItself(text: string)
    requires forall i :: 0 <= i < |text| ==> Printable(text[i])
    ensures Read(text, false) == text
    decreases |text|
  {
    if text != "" {
      PrintableReadsAsItself(text[1..]);
      assert [text[0]] + text[1..] == text;
    }
  }

  /** Cleaning keeps exactly the text that has nothing to clean, so cleaning again changes
      nothing. */
  lemma CleanedIsItselfIff(text: string)
    ensures Cleaned(text) == text <==> forall i :: 0 <= i < |text| ==> Printable(text[i])
    ensures Cleaned(Cleaned(text)) == Cleaned(text)
  {
    CleanedIsPrintable(text);
    CleanedIsPrintable(Cleaned(text));
    CleanedIsOneReading(text);
    CleanedIsOneReading(Cleaned(text));
    PrintableReadsAsItself(Cleaned(text));
    if forall i :: 0 <= i < |text| ==> Printable(text[i]) {
      PrintableReadsAsItself(text);
    }
  }
}
