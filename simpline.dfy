/**
 * The interactive prompt's helpers: the inline hinter, the hint
 * highlighter and the splitting of a submitted line into terms.
 */
module SimpLine {
  import opened Text
  import opened Wrappers

  // ---------------------------------------------------------------------
  // The current word
  // ---------------------------------------------------------------------

  /** `start` begins the word that ends at `pos`: nothing between them is
      ASCII whitespace, and `start` is the buffer's start or follows a
      whitespace byte. */
  predicate IsWordStart(line: string, pos: nat, start: nat) {
    && start <= pos <= |line|
    && (forall i :: start <= i < pos ==> !IsAsciiWhitespace(line[i]))
    && (start == 0 || IsAsciiWhitespace(line[start - 1]))
  }

  /** Where the backward scan from `pos` stops. */
  function WordStart(line: string, pos: nat): (start: nat)
    requires pos <= |line|
    ensures IsWordStart(line, pos, start)
  {
    if pos == 0 || IsAsciiWhitespace(line[pos - 1]) then pos
    else WordStart(line, pos - 1)
  }

  /** The word boundary is unique: any start with the three properties is
      the one the scan finds. */
  lemma {:induction false} WordStartUnique(line: string, pos: nat, start: nat)
    requires pos <= |line|
    requires IsWordStart(line, pos, start)
    ensures start == WordStart(line, pos)
  {
    if start < pos {
      assert !IsAsciiWhitespace(line[pos - 1]);
      WordStartUnique(line, pos - 1, start);
    }
  }

  function CurrentWord(line: string, pos: nat): string
    requires pos <= |line|
  {
    line[WordStart(line, pos)..pos]
  }

  /** The word under the cursor is a piece of the line. */
  lemma CurrentWordInLine(line: string, pos: nat)
    requires pos <= |line|
    ensures Contains(line, CurrentWord(line, pos))
  {
    SliceContained(line, WordStart(line, pos), pos);
  }

  // ---------------------------------------------------------------------
  // Candidate selection
  // ---------------------------------------------------------------------

  /** The filter of the completion search: not yet in the line, and
      extending the current word. */
  predicate Eligible(c: string, line: string, word: string) {
    !Contains(line, c) && StartsWith(c, word)
  }

  predicate IsFirstEligible(completions: seq<string>, k: nat, line: string, word: string) {
    && k < |completions|
    && Eligible(completions[k], line, word)
    && forall j :: 0 <= j < k ==> !Eligible(completions[j], line, word)
  }

  /** `filter(..).next()`: the index of the first eligible completion. */
  function FirstEligible(completions: seq<string>, line: string, word: string): (r: Option<nat>)
    ensures r.Some? ==> IsFirstEligible(completions, r.value, line, word)
    ensures r.None? <==> forall j :: 0 <= j < |completions| ==> !Eligible(completions[j], line, word)
  {
    if completions == [] then None
    else if Eligible(completions[0], line, word) then Some(0)
    else match FirstEligible(completions[1..], line, word)
      case None => None
      case Some(k) => Some(k + 1)
  }

  // ---------------------------------------------------------------------
  // The hint
  // ---------------------------------------------------------------------

  /** The guard under which a hint is looked for at all. */
  predicate Hintable(line: string, pos: nat) {
    !(|line| == 0 || pos < |line| || line[|line| - 1] == ' ')
  }

  /** The value `SimpHinter::hint` returns. */
  function HintOf(line: string, pos: nat, completions: seq<string>): Option<string>
    requires pos <= |line|
  {
    if !Hintable(line, pos) then None
    else
      var word := CurrentWord(line, pos);
      match FirstEligible(completions, line, word)
      case None => None
      case Some(k) =>
        if completions[k] == word then None
        else Some(completions[k][|word|..])
  }

  /** `SimpHinter::hint`: the guard, the backward scan for the start of the
      word, the completion search and the remainder of the completion. */
  method Hint(line: string, pos: nat, completions: seq<string>) returns (hint: Option<string>)
    requires pos <= |line|
    ensures hint == HintOf(line, pos, completions)
  {
    if |line| == 0 || pos < |line| || line[|line| - 1] == ' ' {
      return None;
    }
    var start: nat := pos;
    while start > 0 && !IsAsciiWhitespace(line[start - 1])
      invariant start <= pos
      invariant WordStart(line, start) == WordStart(line, pos)
    {
      start := start - 1;
    }
    var word := line[start..pos];
    var found := FirstEligible(completions, line, word);
    match found
    case None =>
      return None;
    case Some(k) =>
      var completion := completions[k];
      if completion == word {
        return None;
      }
      return Some(completion[|word|..]);
  }

  /** No hint for an empty line, a cursor before the end, or a trailing space. */
  lemma HintNoneOutsideGuard(line: string, pos: nat, completions: seq<string>)
    requires pos <= |line|
    requires |line| == 0 || pos < |line| || line[|line| - 1] == ' '
    ensures HintOf(line, pos, completions) == None
  {
  }

  /** Inside the guard the hint is determined by the first eligible
      completion: none exists exactly when there is no hint, and when the
      k-th completion is the first eligible one, the hint is what it adds to
      the word. The `completion == word` branch never fires. */
  lemma HintFirstEligible(line: string, pos: nat, completions: seq<string>)
    requires pos <= |line|
    requires Hintable(line, pos)
    ensures HintOf(line, pos, completions) == None
            <==> forall j :: 0 <= j < |completions| ==> !Eligible(completions[j], line, CurrentWord(line, pos))
    ensures forall k: nat :: IsFirstEligible(completions, k, line, CurrentWord(line, pos)) ==>
              && completions[k] != CurrentWord(line, pos)
              && HintOf(line, pos, completions) == Some(completions[k][|CurrentWord(line, pos)|..])
  {
    var word := CurrentWord(line, pos);
    CurrentWordInLine(line, pos);
    match FirstEligible(completions, line, word)
    case None =>
    case Some(k) =>
      assert completions[k] != word;
  }

  /** A hint always completes the current word to the first eligible
      completion in list order, and it is never empty. */
  lemma HintCompletesWord(line: string, pos: nat, completions: seq<string>, h: string)
    requires pos <= |line|
    requires HintOf(line, pos, completions) == Some(h)
    ensures Hintable(line, pos)
    ensures |h| > 0
    ensures exists k: nat :: IsFirstEligible(completions, k, line, CurrentWord(line, pos))
                        && completions[k] == CurrentWord(line, pos) + h
  {
    var word := CurrentWord(line, pos);
    CurrentWordInLine(line, pos);
    var k := FirstEligible(completions, line, word).value;
    assert completions[k] != word;
    assert completions[k] == word + h;
  }

  /** Deduplication by containment: a completion that already occurs in the
      line is never the one a hint completes to. */
  lemma UsedCompletionNeverHinted(line: string, pos: nat, completions: seq<string>, h: string)
    requires pos <= |line|
    requires HintOf(line, pos, completions) == Some(h)
    ensures !Contains(line, CurrentWord(line, pos) + h)
  {
    HintCompletesWord(line, pos, completions, h);
  }

  /** The word itself never counts as a remaining completion, since the
      line contains it. */
  lemma WordNeverEligible(line: string, pos: nat)
    requires pos <= |line|
    ensures !Eligible(CurrentWord(line, pos), line, CurrentWord(line, pos))
  {
    CurrentWordInLine(line, pos);
  }

  /** With the cursor in the middle of "py thon", no hint whatever the list. */
  lemma MidLineNoHint(completions: seq<string>)
    ensures HintOf("py thon", 2, completions) == None
  {
  }

  /** "py" with ["python", "pytorch"] hints "thon", the first in order. */
  lemma FirstInOrderExample()
    ensures HintOf("py", 2, ["python", "pytorch"]) == Some("thon")
  {
    assert WordStart("py", 2) == 0;
    AbsentCharNotContained("py", "python", 2);
    assert StartsWith("python", "py");
  }

  /** "python py" does not hint "python" again: ["python"] gives nothing,
      ["python", "pytorch"] gives "torch". */
  lemma NoRehintExample()
    ensures HintOf("python py", 9, ["python"]) == None
    ensures HintOf("python py", 9, ["python", "pytorch"]) == Some("torch")
  {
    assert WordStart("python py", 9) == 7;
    assert CurrentWord("python py", 9) == "py";
    assert StartsWith(("python py")[0..], "python");
    assert Contains("python py", "python");
    assert StartsWith("pytorch", "py");
    AbsentCharNotContained("python py", "pytorch", 4);
  }

  /** Containment is by substring, not by word: once "django" is typed,
      "go" is no longer offered for "g". */
  lemma SubstringSuppressionExample()
    ensures HintOf("django g", 8, ["go", "gradle"]) == Some("radle")
  {
    assert WordStart("django g", 8) == 7;
    assert CurrentWord("django g", 8) == "g";
    assert StartsWith(("django g")[4..], "go");
    assert Contains("django g", "go");
    assert StartsWith("gradle", "g");
    AbsentCharNotContained("django g", "gradle", 1);
  }

  /** Only a trailing space blocks the hint; after a trailing tab the word is
      empty and the first completion not yet in the line is offered whole. */
  lemma TrailingTabOffersWholeCompletion()
    ensures HintOf("node\t", 5, ["node", "rust"]) == Some("rust")
  {
    assert WordStart("node\t", 5) == 5;
    assert StartsWith(("node\t")[0..], "node");
    assert Contains("node\t", "node");
    AbsentCharNotContained("node\t", "rust", 0);
  }

  // ---------------------------------------------------------------------
  // Highlighting
  // ---------------------------------------------------------------------

  /** ANSI "bright black" foreground and reset. */
  const Gray: string := "\U{1B}[90m"
  const Reset: string := "\U{1B}[0m"

  /** `SimpHighlighter::highlight_hint`: the hint wrapped in the gray colour
      and the reset sequence. */
  function HighlightHint(hint: string): (r: string)
    ensures |r| == |Gray| + |hint| + |Reset|
    ensures StartsWith(r, Gray) && EndsWith(r, Reset)
    ensures r[|Gray|..|r| - |Reset|] == hint
  {
    Gray + hint + Reset
  }

  /** Highlighting loses nothing: two hints with the same rendering are equal. */
  lemma HighlightInjective(a: string, b: string)
    requires HighlightHint(a) == HighlightHint(b)
    ensures a == b
  {
    assert a == HighlightHint(a)[|Gray|..|HighlightHint(a)| - |Reset|];
  }

  // ---------------------------------------------------------------------
  // Splitting a submitted line
  // ---------------------------------------------------------------------

  /** Length of the run of non-whitespace characters at the front of `s`. */
  function RunLength(s: string): (n: nat)
    ensures n <= |s|
    ensures forall i :: 0 <= i < n ==> !IsWhitespace(s[i])
    ensures n == |s| || IsWhitespace(s[n])
  {
    if s == [] || IsWhitespace(s[0]) then 0 else 1 + RunLength(s[1..])
  }

  /** `str::split_whitespace`: the maximal runs of non-whitespace characters,
      left to right. */
  function Words(s: string): seq<string>
    decreases |s|
  {
    if s == [] then []
    else if IsWhitespace(s[0]) then Words(s[1..])
    else
      var n := RunLength(s);
      [s[..n]] + Words(s[n..])
  }

  predicate IsToken(w: string) {
    |w| > 0 && forall i :: 0 <= i < |w| ==> !IsWhitespace(w[i])
  }

  /** Every term is non-empty and free of whitespace. */
  lemma {:induction false} WordsAreTokens(s: string)
    ensures forall k :: 0 <= k < |Words(s)| ==> IsToken(Words(s)[k])
    decreases |s|
  {
    if s == [] {
    } else if IsWhitespace(s[0]) {
      WordsAreTokens(s[1..]);
    } else {
      var n := RunLength(s);
      WordsAreTokens(s[n..]);
    }
  }

  /** The characters of `s` that are not whitespace, in order. */
  function NonWhitespace(s: string): string {
    if s == [] then []
    else if IsWhitespace(s[0]) then NonWhitespace(s[1..])
    else [s[0]] + NonWhitespace(s[1..])
  }

  function Concat(ws: seq<string>): string {
    if ws == [] then [] else ws[0] + Concat(ws[1..])
  }

  lemma {:induction false} NonWhitespaceOfRun(s: string, n: nat)
    requires n <= |s|
    requires forall i :: 0 <= i < n ==> !IsWhitespace(s[i])
    ensures NonWhitespace(s) == s[..n] + NonWhitespace(s[n..])
  {
    if n > 0 {
      NonWhitespaceOfRun(s[1..], n - 1);
      assert s[1..][n - 1..] == s[n..];
      assert s[..n] == [s[0]] + s[1..][..n - 1];
    }
  }

  /** The terms, read left to right, spell out exactly the non-whitespace
      characters of the line: nothing is dropped, added or reordered. */
  lemma {:induction false} WordsSpellLine(s: string)
    ensures Concat(Words(s)) == NonWhitespace(s)
    decreases |s|
  {
    if s == [] {
    } else if IsWhitespace(s[0]) {
      WordsSpellLine(s[1..]);
    } else {
      var n := RunLength(s);
      WordsSpellLine(s[n..]);
      NonWhitespaceOfRun(s, n);
      assert Words(s) == [s[..n]] + Words(s[n..]);
      assert ([s[..n]] + Words(s[n..]))[1..] == Words(s[n..]);
    }
  }

  /** An empty or all-whitespace line yields no terms, and only such a line. */
  lemma {:induction false} WordsEmptyIffBlank(s: string)
    ensures Words(s) == [] <==> forall i :: 0 <= i < |s| ==> IsWhitespace(s[i])
    decreases |s|
  {
    if s != [] {
      WordsEmptyIffBlank(s[1..]);
      if IsWhitespace(s[0]) {
        assert forall i :: 1 <= i < |s| ==> s[i] == s[1..][i - 1];
      }
    }
  }

  lemma {:induction false} RunLengthExtend(a: string, x: string)
    requires x == [] || IsWhitespace(x[0]) || RunLength(a) < |a|
    ensures RunLength(a + x) == RunLength(a)
    decreases |a|
  {
    if a == [] {
    } else if !IsWhitespace(a[0]) {
      assert (a + x)[1..] == a[1..] + x;
      RunLengthExtend(a[1..], x);
    }
  }

  /** Any single whitespace character splits the line: the terms on either
      side of it are found independently, so runs of whitespace, leading or
      trailing whitespace and tabs all separate terms alike. */
  lemma {:induction false} WordsSplitAtWhitespace(a: string, c: char, b: string)
    requires IsWhitespace(c)
    ensures Words(a + [c] + b) == Words(a) + Words(b)
    decreases |a|
  {
    var s := a + [c] + b;
    if a == [] {
      assert s[1..] == b;
    } else if IsWhitespace(a[0]) {
      assert s[1..] == a[1..] + [c] + b;
      WordsSplitAtWhitespace(a[1..], c, b);
    } else {
      var n := RunLength(a);
      RunLengthExtend(a, [c] + b);
      assert s == a + ([c] + b);
      assert RunLength(s) == n;
      assert s[..n] == a[..n];
      if n < |a| {
        assert s[n..] == a[n..] + [c] + b;
        WordsSplitAtWhitespace(a[n..], c, b);
      } else {
        assert s[n..] == [c] + b;
        assert s[n..][1..] == b;
        assert a[n..] == [];
      }
    }
  }

  /** Tokens joined by single spaces. */
  function JoinWithSpaces(ts: seq<string>): string {
    if ts == [] then []
    else if |ts| == 1 then ts[0]
    else ts[0] + " " + JoinWithSpaces(ts[1..])
  }

  lemma {:induction false} RunLengthOfToken(t: string, rest: string)
    requires IsToken(t)
    requires rest == [] || IsWhitespace(rest[0])
    ensures RunLength(t + rest) == |t|
    decreases |t|
  {
    if |t| > 1 {
      assert (t + rest)[1..] == t[1..] + rest;
      RunLengthOfToken(t[1..], rest);
    } else {
      assert (t + rest)[1..] == rest;
    }
  }

  /** Round trip: splitting tokens joined by spaces gives the tokens back. */
  lemma {:induction false} WordsOfJoin(ts: seq<string>)
    requires forall k :: 0 <= k < |ts| ==> IsToken(ts[k])
    ensures Words(JoinWithSpaces(ts)) == ts
    decreases |ts|
  {
    if ts == [] {
    } else if |ts| == 1 {
      var t := ts[0];
      RunLengthOfToken(t, []);
      assert t + [] == t;
      assert Words(t) == [t[..|t|]] + Words(t[|t|..]);
    } else {
      var t, rest := ts[0], " " + JoinWithSpaces(ts[1..]);
      var s := t + rest;
      assert s == JoinWithSpaces(ts);
      RunLengthOfToken(t, rest);
      assert s[..|t|] == t && s[|t|..] == rest;
      assert rest[1..] == JoinWithSpaces(ts[1..]);
      WordsOfJoin(ts[1..]);
    }
  }

  /** How `read_line` ends when it does not return a line. */
  datatype ReadlineError = Eof | Interrupted | OtherError

  /** `SimpLineReader::read_words`: propagate a failed read, otherwise push
      the line's terms one by one. */
  method ReadWords(readLine: Result<string, ReadlineError>) returns (r: Result<seq<string>, ReadlineError>)
    ensures readLine.Err? ==> r == Err(readLine.error)
    ensures readLine.Ok? ==> r == Ok(Words(readLine.value))
  {
    var v := [];
    var line :- readLine;
    var words := Words(line);
    for i := 0 to |words|
      invariant v == words[..i]
    {
      v := v + [words[i]];
    }
    assert words[..|words|] == words;
    return Ok(v);
  }
}
