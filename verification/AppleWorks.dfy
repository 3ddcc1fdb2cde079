/** The control codes of an AppleWorks text line (util/awp2txt). The script replaces them
    one kind after the other, in the line it is rewriting. */
module AppleWorks {
  import opened Substitution

  /** The escape sequences of a palette; all empty in plain mode. */
  datatype Palette =
    Palette(boldOn: string, boldOff: string, underOn: string, underOff: string, faintOn: string, faintOff: string)

  const COLOR := Palette("\U{1B}[1m", "\U{1B}[22m", "\U{1B}[4m", "\U{1B}[24m", "\U{1B}[2m", "\U{1B}[22m")

  const PLAIN := Palette("", "", "", "", "", "")

  /** A label in faint print. */
  function Label(p: Palette, text: string): string {
    p.faintOn + text + p.faintOff
  }

  /** The substitutions, in the script's order. */
  function Rules(p: Palette): (rules: seq<Rule>)
    ensures |rules| == 23
  {
    [ Rule('\U{01}', '\U{01}', p.boldOn),
      Rule('\U{02}', '\U{02}', p.boldOff),
      Rule('\U{07}', '\U{07}', p.underOn),
      Rule('\U{08}', '\U{08}', p.underOff),
      Rule('\U{03}', '\U{03}', Label(p, "[SUPER->]")),
      Rule('\U{04}', '\U{04}', Label(p, "[<-SUPER]")),
      Rule('\U{05}', '\U{05}', Label(p, "[SUB->]")),
      Rule('\U{06}', '\U{06}', Label(p, "[<-SUB]")),
      Rule('\U{09}', '\U{09}', Label(p, "[PAGE NO]")),
      Rule('\U{0A}', '\U{0A}', Label(p, "[KEYBOARD]")),
      Rule('\U{0B}', '\U{0B}', Label(p, "[STICKY SPACE]")),
      Rule('\U{0C}', '\U{0C}', Label(p, "[MAIL MERGE]")),
      Rule('\U{0D}', '\U{0D}', Label(p, "[0D]")),
      Rule('\U{0E}', '\U{0E}', Label(p, "[DATE]")),
      Rule('\U{0F}', '\U{0F}', Label(p, "[TIME]")),
      Rule('\U{10}', '\U{10}', Label(p, "[10]")),
      Rule('\U{11}', '\U{11}', Label(p, "[11]")),
      Rule('\U{12}', '\U{12}', Label(p, "[12]")),
      Rule('\U{13}', '\U{13}', Label(p, "[13]")),
      Rule('\U{14}', '\U{14}', Label(p, "[14]")),
      Rule('\U{15}', '\U{15}', Label(p, "[15]")),
      Rule('\U{16}', '\U{17}', " "),
      Rule('\U{18}', '\U{18}', Label(p, "[8]")) ]
  }

  // ----- all of them -----

  /** The line after the first k substitutions, one after the other. */
  function Chained(line: string, rules: seq<Rule>, k: nat): string
    requires k <= |rules|
  {
    if k == 0 then line else
      var before := Chained(line, rules, k - 1);
      Substituted(before, |before|, rules[k - 1])
  }

  /** What the first k rules make of one character at once: the first that matches counts. */
  function Image(c: char, rules: seq<Rule>, k: nat): string
    requires k <= |rules|
  {
    if k == 0 then [c]
    else if exists j :: 0 <= j < k - 1 && rules[j].Matches(c) then Image(c, rules, k - 1)
    else rules[k - 1].Piece(c)
  }

  /** The first n characters of the line, each replaced by its image. */
  function AtOnce(line: string, n: nat, rules: seq<Rule>, k: nat): string
    requires n <= |line| && k <= |rules|
  {
    if n == 0 then "" else AtOnce(line, n - 1, rules, k) + Image(line[n - 1], rules, k)
  }

  /** The rewriting of a text line. */
  method TranslateLine(line: string, p: Palette) returns (out: string)
    ensures out == Chained(line, Rules(p), 23)
  {
    var rules := Rules(p);
    out := line;
    for k := 0 to 23
      invariant out == Chained(line, rules, k)
    {
      out := Substitute(out, rules[k]);
    }
  }

  /** No rule matches what another rule has put in. */
  ghost predicate TextsAreInert(rules: seq<Rule>) {
    forall i, j, n {:trigger rules[j].Matches(rules[i].text[n])} ::
      0 <= i < |rules| && 0 <= j < |rules| && 0 <= n < |rules[i].text| ==>
        !rules[j].Matches(rules[i].text[n])
  }

  lemma {:induction false} MatchedImageIsInert(c: char, rules: seq<Rule>, k: nat, n: nat)
    requires TextsAreInert(rules) && k <= |rules| && n < |Image(c, rules, k)|
    requires exists j :: 0 <= j < k && rules[j].Matches(c)
    ensures forall i :: 0 <= i < |rules| ==> !rules[i].Matches(Image(c, rules, k)[n])
  {
    if exists j :: 0 <= j < k - 1 && rules[j].Matches(c) {
      MatchedImageIsInert(c, rules, k - 1, n);
    } else {
      assert Image(c, rules, k) == rules[k - 1].text;
    }
  }

  lemma UnmatchedImage(c: char, rules: seq<Rule>, k: nat)
    requires k <= |rules| && !exists j :: 0 <= j < k && rules[j].Matches(c)
    ensures Image(c, rules, k) == [c]
  {
  }

  /** One more substitution takes an image to the next. */
  lemma ImageStep(c: char, rules: seq<Rule>, k: nat)
    requires TextsAreInert(rules) && k < |rules|
    ensures var image := Image(c, rules, k); Substituted(image, |image|, rules[k]) == Image(c, rules, k + 1)
  {
    var image := Image(c, rules, k);
    if exists j :: 0 <= j < k && rules[j].Matches(c) {
      forall n | 0 <= n < |image| ensures !rules[k].Matches(image[n]) {
        MatchedImageIsInert(c, rules, k, n);
      }
      InertUnchanged(image, |image|, rules[k]);
      assert image[..|image|] == image;
    } else {
      UnmatchedImage(c, rules, k);
      assert Substituted([c], 1, rules[k]) == Substituted([c], 0, rules[k]) + rules[k].Piece(c);
    }
  }

  lemma {:induction false} AtOnceStep(line: string, n: nat, rules: seq<Rule>, k: nat, sofar: string)
    requires TextsAreInert(rules) && n <= |line| && k < |rules|
    requires sofar == AtOnce(line, n, rules, k)
    ensures Substituted(sofar, |sofar|, rules[k]) == AtOnce(line, n, rules, k + 1)
  {
    if n > 0 {
      var a, b := AtOnce(line, n - 1, rules, k), Image(line[n - 1], rules, k);
      AtOnceStep(line, n - 1, rules, k, a);
      ImageStep(line[n - 1], rules, k);
      SubstitutedParts(a, b, rules[k], AtOnce(line, n - 1, rules, k + 1), Image(line[n - 1], rules, k + 1));
      assert sofar == a + b;
    }
  }

  lemma {:induction false} NothingAtOnce(line: string, n: nat, rules: seq<Rule>)
    requires n <= |line|
    ensures AtOnce(line, n, rules, 0) == line[..n]
  {
    if n > 0 {
      NothingAtOnce(line, n - 1, rules);
    }
  }

  lemma NothingYet(line: string, rules: seq<Rule>)
    ensures AtOnce(line, |line|, rules, 0) == line == Chained(line, rules, 0)
  {
    NothingAtOnce(line, |line|, rules);
  }

  lemma ChainStep(line: string, rules: seq<Rule>, k: nat, before: string)
    requires 0 < k <= |rules| && before == Chained(line, rules, k - 1)
    ensures Chained(line, rules, k) == Substituted(before, |before|, rules[k - 1])
  {
  }

  /** Substituting one kind of code after the other amounts to replacing every character
      at once, whenever no text that is put in contains a code. */
  lemma {:induction false} ChainIsSimultaneous(line: string, rules: seq<Rule>, k: nat, got: string)
    requires TextsAreInert(rules) && k <= |rules| && got == Chained(line, rules, k)
    ensures got == AtOnce(line, |line|, rules, k)
    decreases k
  {
    if k == 0 {
      NothingYet(line, rules);
    } else {
      ghost var before :| before == Chained(line, rules, k - 1);
      ChainIsSimultaneous(line, rules, k - 1, before);
      ChainStep(line, rules, k, before);
      AtOnceStep(line, |line|, rules, k - 1, before);
    }
  }

  // ----- the script's own rules -----

  predicate IsCode(c: char) {
    '\U{01}' <= c <= '\U{18}'
  }

  predicate CodeFree(s: string) {
    forall i :: 0 <= i < |s| ==> !IsCode(s[i])
  }

  predicate CleanPalette(p: Palette) {
    CodeFree(p.boldOn) && CodeFree(p.boldOff) && CodeFree(p.underOn) && CodeFree(p.underOff) &&
    CodeFree(p.faintOn) && CodeFree(p.faintOff)
  }

  lemma PalettesAreClean()
    ensures CleanPalette(COLOR) && CleanPalette(PLAIN)
  {
  }

  /** The rule for a code. */
  lemma RuleFor(p: Palette, c: char) returns (i: nat)
    requires IsCode(c)
    ensures i < 23 && Rules(p)[i].Matches(c)
  {
    var n := c as int;
    i := if n <= 2 then n - 1
         else if n <= 6 then n + 1
         else if n <= 8 then n - 5
         else if n <= 0x16 then n - 1
         else n - 2;
  }

  lemma RulesAreForCodes(p: Palette, c: char, i: nat)
    requires i < 23 && Rules(p)[i].Matches(c)
    ensures IsCode(c)
  {
  }

  lemma LabelIsCodeFree(p: Palette, text: string)
    requires CleanPalette(p) && CodeFree(text)
    ensures CodeFree(Label(p, text))
  {
  }

  lemma FirstTextsAreCodeFree(p: Palette)
    requires CleanPalette(p)
    ensures forall i :: 0 <= i < 10 ==> CodeFree(Rules(p)[i].text)
  {
    LabelIsCodeFree(p, "[SUPER->]");
    LabelIsCodeFree(p, "[<-SUPER]");
    LabelIsCodeFree(p, "[SUB->]");
    LabelIsCodeFree(p, "[<-SUB]");
    LabelIsCodeFree(p, "[PAGE NO]");
    LabelIsCodeFree(p, "[KEYBOARD]");
  }

  lemma MiddleTextsAreCodeFree(p: Palette)
    requires CleanPalette(p)
    ensures forall i :: 10 <= i < 15 ==> CodeFree(Rules(p)[i].text)
  {
    LabelIsCodeFree(p, "[STICKY SPACE]");
    LabelIsCodeFree(p, "[MAIL MERGE]");
    LabelIsCodeFree(p, "[0D]");
    LabelIsCodeFree(p, "[DATE]");
    LabelIsCodeFree(p, "[TIME]");
  }

  lemma LastTextsAreCodeFree(p: Palette)
    requires CleanPalette(p)
    ensures forall i :: 15 <= i < 23 ==> CodeFree(Rules(p)[i].text)
  {
    LabelIsCodeFree(p, "[10]");
    LabelIsCodeFree(p, "[11]");
    LabelIsCodeFree(p, "[12]");
    LabelIsCodeFree(p, "[13]");
    LabelIsCodeFree(p, "[14]");
    LabelIsCodeFree(p, "[15]");
    LabelIsCodeFree(p, "[8]");
  }

  lemma RulesAreInert(p: Palette)
    requires CleanPalette(p)
    ensures TextsAreInert(Rules(p))
  {
    FirstTextsAreCodeFree(p);
    MiddleTextsAreCodeFree(p);
    LastTextsAreCodeFree(p);
    var rules := Rules(p);
    forall i, j, n | 0 <= i < 23 && 0 <= j < 23 && 0 <= n < |rules[i].text|
      ensures !rules[j].Matches(rules[i].text[n])
    {
      assert CodeFree(rules[i].text);
      if rules[j].Matches(rules[i].text[n]) {
        RulesAreForCodes(p, rules[i].text[n], j);
      }
    }
  }

  lemma {:induction false} AtOnceIsCodeFree(line: string, n: nat, p: Palette)
    requires n <= |line| && CleanPalette(p)
    ensures CodeFree(AtOnce(line, n, Rules(p), 23))
  {
    if n > 0 {
      AtOnceIsCodeFree(line, n - 1, p);
      ImageIsCodeFree(line[n - 1], p, 23);
    }
  }

  lemma ImageIsCodeFree(c: char, p: Palette, k: nat)
    requires CleanPalette(p) && k == 23
    ensures CodeFree(Image(c, Rules(p), k))
  {
    var rules := Rules(p);
    RulesAreInert(p);
    if IsCode(c) {
      var i := RuleFor(p, c);
      forall n | 0 <= n < |Image(c, rules, k)| ensures !IsCode(Image(c, rules, k)[n]) {
        MatchedImageIsInert(c, rules, k, n);
        if IsCode(Image(c, rules, k)[n]) {
          var j := RuleFor(p, Image(c, rules, k)[n]);
        }
      }
    } else {
      if j :| 0 <= j < k && rules[j].Matches(c) {
        RulesAreForCodes(p, c, j);
      }
      UnmatchedImage(c, rules, k);
    }
  }

  /** The text for every code, by its number. */
  function TextFor(p: Palette, code: int): string
    requires 1 <= code <= 24
  {
    match code
    case 1 => p.boldOn
    case 2 => p.boldOff
    case 3 => p.faintOn + "[SUPER->]" + p.faintOff
    case 4 => p.faintOn + "[<-SUPER]" + p.faintOff
    case 5 => p.faintOn + "[SUB->]" + p.faintOff
    case 6 => p.faintOn + "[<-SUB]" + p.faintOff
    case 7 => p.underOn
    case 8 => p.underOff
    case 9 => p.faintOn + "[PAGE NO]" + p.faintOff
    case 10 => p.faintOn + "[KEYBOARD]" + p.faintOff
    case 11 => p.faintOn + "[STICKY SPACE]" + p.faintOff
    case 12 => p.faintOn + "[MAIL MERGE]" + p.faintOff
    case 13 => p.faintOn + "[0D]" + p.faintOff
    case 14 => p.faintOn + "[DATE]" + p.faintOff
    case 15 => p.faintOn + "[TIME]" + p.faintOff
    case 16 => p.faintOn + "[10]" + p.faintOff
    case 17 => p.faintOn + "[11]" + p.faintOff
    case 18 => p.faintOn + "[12]" + p.faintOff
    case 19 => p.faintOn + "[13]" + p.faintOff
    case 20 => p.faintOn + "[14]" + p.faintOff
    case 21 => p.faintOn + "[15]" + p.faintOff
    case 22 => " "
    case 23 => " "
    case 24 => p.faintOn + "[8]" + p.faintOff
  }

  /** Every code becomes its text, whatever its place in the script, and any other
      character stays. */
  lemma ImagesByCode(p: Palette, c: char, k: nat)
    requires k == 23
    ensures Image(c, Rules(p), k) == if 1 <= c as int <= 24 then TextFor(p, c as int) else [c]
  {
    if 1 <= c as int <= 24 {
      var i := RuleFor(p, c);
      RuleText(p, c, i);
      forall j | 0 <= j < 23 && j != i ensures !Rules(p)[j].Matches(c) {
        if Rules(p)[j].Matches(c) {
          RulesAreApart(p, c, if i < j then i else j, if i < j then j else i);
        }
      }
      ImageOfRule(c, Rules(p), k, i);
    } else {
      if j :| 0 <= j < k && Rules(p)[j].Matches(c) {
        RulesAreForCodes(p, c, j);
      }
      UnmatchedImage(c, Rules(p), k);
    }
  }

  lemma RuleText(p: Palette, c: char, i: nat)
    requires 1 <= c as int <= 24 && i < 23 && Rules(p)[i].Matches(c)
    ensures Rules(p)[i].text == TextFor(p, c as int)
  {
  }

  /** No two rules match the same character. */
  lemma RulesAreApart(p: Palette, c: char, i: nat, j: nat)
    requires i < j < 23 && Rules(p)[i].Matches(c)
    ensures !Rules(p)[j].Matches(c)
  {
  }

  lemma {:induction false} ImageOfRule(c: char, rules: seq<Rule>, k: nat, i: nat)
    requires k <= |rules| && i < k && rules[i].Matches(c)
    requires forall j :: 0 <= j < k && j != i ==> !rules[j].Matches(c)
    ensures Image(c, rules, k) == rules[i].text
    decreases k
  {
    if i < k - 1 {
      ImageOfRule(c, rules, k - 1, i);
    }
  }

  /** The first n characters of the line, with every code replaced by its text. */
  function Decoded(line: string, n: nat, p: Palette): string
    requires n <= |line|
  {
    if n == 0 then ""
    else
      var c := line[n - 1];
      Decoded(line, n - 1, p) + (if 1 <= c as int <= 24 then TextFor(p, c as int) else [c])
  }

  lemma {:induction false} AtOnceIsDecoded(line: string, n: nat, p: Palette, k: nat)
    requires n <= |line| && k == 23
    ensures AtOnce(line, n, Rules(p), k) == Decoded(line, n, p)
    decreases n
  {
    if n > 0 {
      AtOnceIsDecoded(line, n - 1, p, k);
      ImagesByCode(p, line[n - 1], k);
    }
  }

  /** The palettes: nothing, or the escape sequences for bold, underlined and faint print. */
  lemma Palettes()
    ensures PLAIN == Palette([], [], [], [], [], [])
    ensures var e := 27 as char;
      COLOR == Palette([e, '[', '1', 'm'], [e, '[', '2', '2', 'm'], [e, '[', '4', 'm'], [e, '[', '2', '4', 'm'],
                       [e, '[', '2', 'm'], [e, '[', '2', '2', 'm'])
  {
  }

  /** With either palette, a translated line is the original with every code replaced by
      its own text and everything else kept; no code is left. */
  lemma TranslatedLine(line: string, p: Palette)
    requires p == COLOR || p == PLAIN
    ensures Chained(line, Rules(p), 23) == Decoded(line, |line|, p)
    ensures CodeFree(Chained(line, Rules(p), 23))
  {
    PalettesAreClean();
    RulesAreInert(p);
    ChainIsSimultaneous(line, Rules(p), 23, Chained(line, Rules(p), 23));
    AtOnceIsDecoded(line, |line|, p, 23);
    AtOnceIsCodeFree(line, |line|, p);
  }
}
