/** The body of a MultiScribe document (util/wpf2txt): runs of text, each behind a formatting
    code of five characters, and the clean-up of a run. */
module MultiScribe {
  import opened Cleaning

  const ONE := '\U{01}'
  const TWO := '\U{02}'

  // ----- taking the body apart -----

  /** A run of text and the formatting code before it, empty if there is none. */
  datatype Run = Run(code: string, text: string)

  predicate StartsWithCode(s: string) {
    |s| >= 5 && (s[0] == ONE || s[0] == TWO) && s[4] == ONE
  }

  /** The first place of a 0x01 from i on, |s| if there is none. */
  function OneFrom(s: string, i: nat): (k: nat)
    requires i <= |s|
    ensures i <= k <= |s| && (k < |s| ==> s[k] == ONE) && forall j :: i <= j < k ==> s[j] != ONE
    decreases |s| - i
  {
    if i == |s| || s[i] == ONE then i else OneFrom(s, i + 1)
  }

  function CodeLength(s: string): (n: nat)
    ensures n <= |s|
  {
    if StartsWithCode(s) then 5 else 0
  }

  /** A run ends before the next 0x01; one that begins with a 0x01 takes all the rest. */
  function TextLength(s: string): (n: nat)
    ensures n <= |s| && (n == 0 ==> s == "")
  {
    if OneFrom(s, 0) > 0 then OneFrom(s, 0) else |s|
  }

  function FirstRun(s: string): Run {
    var rest := s[CodeLength(s)..];
    Run(s[..CodeLength(s)], rest[..TextLength(rest)])
  }

  function AfterFirstRun(s: string): (rest: string)
    ensures s != "" ==> |rest| < |s|
  {
    var rest := s[CodeLength(s)..];
    rest[TextLength(rest)..]
  }

  /** The runs of a body. */
  function Runs(s: string): seq<Run>
    decreases |s|
  {
    if s == "" then [] else [FirstRun(s)] + Runs(AfterFirstRun(s))
  }

  /** index($CONTENT, "\x01") */
  method IndexOfOne(s: string) returns (k: int)
    ensures -1 <= k < |s|
    ensures if k == -1 then OneFrom(s, 0) == |s| else OneFrom(s, 0) == k
  {
    k := 0;
    while k < |s|
      invariant 0 <= k <= |s| && OneFrom(s, 0) == OneFrom(s, k)
    {
      if s[k] == ONE {
        return;
      }
      k := k + 1;
    }
    return -1;
  }

  predicate AllCleaned(runs: seq<Run>, texts: seq<string>) {
    |texts| == |runs| && forall i :: 0 <= i < |runs| ==> texts[i] == Cleaned(runs[i].text)
  }

  /** The loop of the script: every run of the body, cleaned. */
  method Translate(body: string) returns (runs: seq<Run>, texts: seq<string>)
    ensures runs == Runs(body) && AllCleaned(runs, texts)
  {
    ghost var whole, later := Runs(body), Runs(body);
    var content := body;
    runs, texts := [], [];
    AllToGo(whole);
    while |content| > 0
      invariant later == Runs(content) && Together(whole, runs, later)
      invariant AllCleaned(runs, texts)
      decreases |content|
    {
      var run, rest, tail := TakeRun(content);
      MoveOver(whole, runs, run, tail);
      var text := Clean(run.text);
      AlsoCleaned(runs, texts, run, text);
      runs, texts, content, later := runs + [run], texts + [text], rest, tail;
    }
    assert later == [];
    NoneToGo(whole, runs);
  }

  lemma AlsoCleaned(runs: seq<Run>, texts: seq<string>, run: Run, text: string)
    requires AllCleaned(runs, texts) && text == Cleaned(run.text)
    ensures AllCleaned(runs + [run], texts + [text])
  {
  }

  ghost predicate Together(whole: seq<Run>, a: seq<Run>, b: seq<Run>) {
    whole == a + b
  }

  lemma AllToGo(whole: seq<Run>)
    ensures Together(whole, [], whole)
  {
  }

  lemma NoneToGo(whole: seq<Run>, a: seq<Run>)
    requires Together(whole, a, [])
    ensures a == whole
  {
  }

  lemma MoveOver(whole: seq<Run>, a: seq<Run>, x: Run, b: seq<Run>)
    requires Together(whole, a, [x] + b)
    ensures Together(whole, a + [x], b)
  {
  }

  method TakeRun(content: string) returns (run: Run, rest: string, ghost tail: seq<Run>)
    requires |content| > 0
    ensures tail == Runs(rest) && Runs(content) == [run] + tail && |rest| < |content|
  {
    RunsUnfold(content);
    var code := "";
    rest := content;
    if StartsWithCode(rest) {
      code, rest := rest[..5], rest[5..];
    }
    assert content[..CodeLength(content)] == code && content[CodeLength(content)..] == rest;
    var end := IndexOfOne(rest);
    var n := if end > 0 then end else |rest|;
    run, rest := Run(code, rest[..n]), rest[n..];
    tail := Runs(rest);
  }

  /** The runs put back together. */
  function Joined(runs: seq<Run>): string {
    if runs == [] then "" else runs[0].code + runs[0].text + Joined(runs[1..])
  }

  lemma RunsUnfold(s: string)
    requires s != ""
    ensures Runs(s) == [FirstRun(s)] + Runs(AfterFirstRun(s))
  {
  }

  lemma FirstRunSplits(s: string, code: string, behind: string)
    requires code == s[..CodeLength(s)] && behind == s[CodeLength(s)..]
    ensures s == FirstRun(s).code + FirstRun(s).text + AfterFirstRun(s)
  {
    var text, rest := behind[..TextLength(behind)], behind[TextLength(behind)..];
    assert FirstRun(s) == Run(code, text) && AfterFirstRun(s) == rest;
    Rejoin(s, CodeLength(s));
    Rejoin(behind, TextLength(behind));
    assert code + (text + rest) == code + text + rest;
  }

  lemma Rejoin(s: string, n: nat)
    requires n <= |s|
    ensures s == s[..n] + s[n..]
  {
  }

  lemma RunsCons(s: string) returns (first: Run, rest: string, tail: seq<Run>)
    requires s != ""
    ensures first == FirstRun(s) && rest == AfterFirstRun(s) && |rest| < |s| && tail == Runs(rest)
    ensures Runs(s) == [first] + tail && s == first.code + first.text + rest
  {
    first, rest := FirstRun(s), AfterFirstRun(s);
    tail := Runs(rest);
    RunsUnfold(s);
    FirstRunSplits(s, s[..CodeLength(s)], s[CodeLength(s)..]);
  }

  lemma JoinedCons(first: Run, tail: seq<Run>)
    ensures Joined([first] + tail) == first.code + first.text + Joined(tail)
  {
    assert ([first] + tail)[1..] == tail;
  }

  /** The loop loses and invents nothing. */
  lemma {:induction false} RunsConserve(s: string)
    ensures Joined(Runs(s)) == s
    decreases |s|
  {
    if s != "" {
      var first, rest, tail := RunsCons(s);
      RunsConserve(rest);
      JoinedCons(first, tail);
    }
  }

  predicate IsCode(code: string) {
    |code| == 5 && (code[0] == ONE || code[0] == TWO) && code[4] == ONE
  }

  predicate HasNoOne(text: string) {
    forall i :: 0 <= i < |text| ==> text[i] != ONE
  }

  /** A document: every run has its code, and no text holds a 0x01. */
  predicate IsDocument(runs: seq<Run>) {
    forall i :: 0 <= i < |runs| ==> IsCode(runs[i].code) && HasNoOne(runs[i].text)
  }

  /** Every code but the first begins with 0x01, and every text but the last has characters. */
  predicate CutsRight(runs: seq<Run>) {
    forall i :: 1 <= i < |runs| ==> Behind(runs, i)
  }

  predicate Behind(runs: seq<Run>, i: int)
    requires 1 <= i < |runs|
  {
    runs[i - 1].text != "" && runs[i].code != "" && runs[i].code[0] == ONE
  }

  lemma OneFromIs(s: string, n: nat)
    requires n <= |s| && (n < |s| ==> s[n] == ONE) && forall i :: 0 <= i < n ==> s[i] != ONE
    ensures OneFrom(s, 0) == n
  {
  }

  /** How the loop cuts behind a code. */
  lemma FirstRunOf(run: Run, rest: string)
    requires IsCode(run.code) && HasNoOne(run.text)
    ensures var s := run.code + run.text + rest;
      FirstRun(s) == run <==> rest == "" || (run.text != "" && rest[0] == ONE)
    ensures var s := run.code + run.text + rest;
      FirstRun(s) == run ==> AfterFirstRun(s) == rest
  {
    var s, t := run.code + run.text + rest, run.text + rest;
    assert s[..5] == run.code && s[5..] == t && StartsWithCode(s);
    var n := |run.text|;
    if rest == "" {
      OneFromIs(t, n);
      assert t[..n] == run.text && t[n..] == rest;
    } else if n > 0 && rest[0] == ONE {
      assert forall i :: 0 <= i < n ==> t[i] == run.text[i];
      OneFromIs(t, n);
      assert t[..n] == run.text && t[n..] == rest;
    } else {
      assert TextLength(t) > n by {
        var k := OneFrom(t, 0);
        assert forall i :: 0 <= i < n ==> t[i] == run.text[i];
        assert k >= n && t[n] == rest[0];
      }
    }
  }

  lemma JoinedStart(runs: seq<Run>)
    requires IsDocument(runs) && runs != []
    ensures Joined(runs) != "" && Joined(runs)[0] == runs[0].code[0]
  {
  }

  lemma CutsRightCons(run: Run, tail: seq<Run>)
    requires IsDocument(tail) && tail != []
    ensures CutsRight([run] + tail) <==> run.text != "" && tail[0].code[0] == ONE && CutsRight(tail)
  {
    var runs := [run] + tail;
    if CutsRight(runs) {
      assert Behind(runs, 1);
      forall i | 1 <= i < |tail| ensures Behind(tail, i) {
        assert Behind(runs, i + 1);
      }
    }
    if run.text != "" && tail[0].code[0] == ONE && CutsRight(tail) {
      forall i | 1 <= i < |runs| ensures Behind(runs, i) {
        if i > 1 {
          assert Behind(tail, i - 1);
        }
      }
    }
  }

  /** The loop recovers exactly the documents whose codes, but for the first, begin with
      0x01 and whose texts, but for the last, are not empty. */
  lemma {:induction false} RunsRecoverIff(runs: seq<Run>)
    requires IsDocument(runs)
    ensures Runs(Joined(runs)) == runs <==> CutsRight(runs)
    decreases |runs|
  {
    if runs != [] {
      var run, tail := runs[0], runs[1..];
      assert runs == [run] + tail;
      JoinedCons(run, tail);
      RunsRecoverIff(tail);
      RecoverStep(run, tail, Joined(tail));
    }
  }

  lemma RecoverStep(run: Run, tail: seq<Run>, rest: string)
    requires IsDocument([run] + tail) && IsDocument(tail) && rest == Joined(tail)
    requires Runs(rest) == tail <==> CutsRight(tail)
    ensures Runs(run.code + run.text + rest) == [run] + tail <==> CutsRight([run] + tail)
  {
    assert ([run] + tail)[0] == run;
    var first, after, later := RunsCons(run.code + run.text + rest);
    FirstRunOf(run, rest);
    SameSplit(first, later, run, tail);
    if tail == [] {
      assert rest == "" && CutsRight([run] + tail);
    } else {
      JoinedStart(tail);
      CutsRightCons(run, tail);
    }
  }

  lemma SameSplit(a: Run, s: seq<Run>, b: Run, t: seq<Run>)
    ensures [a] + s == [b] + t <==> a == b && s == t
  {
    assert ([a] + s)[0] == a && ([a] + s)[1..] == s && ([b] + t)[0] == b && ([b] + t)[1..] == t;
  }

  /** Two runs, for instance, with the codes written out. */
  lemma TwoRuns(first: Run, second: Run)
    requires first == Run([2 as char, 'f', 's', 'b', 1 as char], "A")
    requires second == Run([1 as char, 'g', 't', 'c', 1 as char], "B")
    ensures var body := [2 as char, 'f', 's', 'b', 1 as char, 'A', 1 as char, 'g', 't', 'c', 1 as char, 'B'];
      Runs(body) == [first, second]
  {
    JoinTwo(first, second);
    TwoRunsCutRight(first, second);
    RunsRecoverIff([first, second]);
    TwoRunsBody(first, second);
  }

  lemma TwoRunsBody(first: Run, second: Run)
    requires first == Run([2 as char, 'f', 's', 'b', 1 as char], "A")
    requires second == Run([1 as char, 'g', 't', 'c', 1 as char], "B")
    ensures first.code + first.text + (second.code + second.text) ==
      [2 as char, 'f', 's', 'b', 1 as char, 'A', 1 as char, 'g', 't', 'c', 1 as char, 'B']
  {
  }

  lemma TwoRunsCutRight(first: Run, second: Run)
    requires IsCode(first.code) && IsCode(second.code) && HasNoOne(first.text) && HasNoOne(second.text)
    requires first.text != "" && second.code[0] == ONE
    ensures IsDocument([first, second]) && CutsRight([first, second])
  {
    assert Behind([first, second], 1);
  }

  lemma JoinTwo(first: Run, second: Run)
    ensures Joined([first, second]) == first.code + first.text + (second.code + second.text)
  {
    JoinedCons(first, [second]);
    JoinedCons(second, []);
    assert [first, second] == [first] + [second] && [second] == [second] + [];
    assert Joined([]) == "" && second.code + second.text + "" == second.code + second.text;
  }

  /** A second code that begins with 0x02, for instance, is lost in the text before it. */
  lemma SecondCodeIsLost(first: Run, second: Run)
    requires first == Run([ONE, 'f', 's', 'b', ONE], "A") && second == Run([TWO, 'f', 's', 'b', ONE], "B")
    ensures IsDocument([first, second]) && Runs(Joined([first, second])) != [first, second]
  {
    var runs := [first, second];
    assert IsDocument(runs) && !Behind(runs, 1);
    RunsRecoverIff(runs);
  }

  /** Every run after the first begins with 0x01, so a code that begins with 0x02 is only
      ever seen at the very start of a body. */
  lemma {:induction false} LaterRunsBeginWithOne(s: string, runs: seq<Run>, i: nat)
    requires runs == Runs(s) && 1 <= i < |runs|
    ensures BeginsWithOne(runs[i].code + runs[i].text)
    decreases |s|
  {
    var first, rest, tail := RunsCons(s);
    RunAt(runs, first, tail, i);
    if i > 1 {
      LaterRunsBeginWithOne(rest, tail, i - 1);
    } else {
      RestBeginsWithOne(s);
      var second, after, later := RunsCons(rest);
      RunAt(tail, second, later, 0);
      FirstRunBegins(rest);
    }
  }

  predicate BeginsWithOne(s: string) {
    s != "" && s[0] == ONE
  }

  lemma RunAt(runs: seq<Run>, first: Run, tail: seq<Run>, i: nat)
    requires runs == [first] + tail && i < |runs|
    ensures runs[i] == if i == 0 then first else tail[i - 1]
  {
  }

  lemma FirstRunBegins(s: string)
    requires s != ""
    ensures var begin := FirstRun(s).code + FirstRun(s).text; begin != "" && begin[0] == s[0]
  {
    var t := s[CodeLength(s)..];
    assert CodeLength(s) == 0 ==> t == s;
  }

  lemma RestBeginsWithOne(s: string)
    requires AfterFirstRun(s) != ""
    ensures BeginsWithOne(AfterFirstRun(s))
  {
    var t := s[CodeLength(s)..];
    assert AfterFirstRun(s)[0] == t[TextLength(t)];
  }
}
