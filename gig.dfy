/**
 * The non-interactive path of the tool: the alias table, the suffix filter
 * over the walked template directory, the matching of terms against file
 * names, and what ends up on standard output or standard error.
 */
module Gig {
  import opened Text
  import opened Wrappers

  const Suffix: string := ".gitignore"

  // ---------------------------------------------------------------------
  // Alias table
  // ---------------------------------------------------------------------

  /** `KNOWN_ALIASES`, fixed for the life of the process. */
  const KnownAliases: map<string, string> := map["vscode" := "visualstudiocode", "c#" := "csharp"]

  /** The lookup in `process_terms`: the mapped name for a key, the term
      itself otherwise. */
  function ResolveAlias(term: string): string {
    if term in KnownAliases then KnownAliases[term] else term
  }

  /** The table's two entries; every other term is returned unchanged, and
      the lookup is case-sensitive. */
  lemma AliasTable(term: string)
    ensures ResolveAlias("vscode") == "visualstudiocode"
    ensures ResolveAlias("c#") == "csharp"
    ensures term != "vscode" && term != "c#" ==> ResolveAlias(term) == term
    ensures ResolveAlias("VSCode") == "VSCode"
  {
  }

  /** No alias maps to another alias key, so the single lookup the source
      does is already a fixed point: resolving again changes nothing. */
  lemma ResolveAliasIdempotent(term: string)
    ensures ResolveAlias(ResolveAlias(term)) == ResolveAlias(term)
  {
  }

  // ---------------------------------------------------------------------
  // Suffix filter
  // ---------------------------------------------------------------------

  /** One file found by the directory walk: its full path and its file name. */
  datatype Entry = Entry(path: string, fileName: string)

  predicate IsTemplateFile(e: Entry) {
    EndsWith(Lower(e.fileName), Suffix)
  }

  function Last<T>(s: seq<T>): T
    requires s != []
  {
    s[|s| - 1]
  }

  function DropLast<T>(s: seq<T>): seq<T>
    requires s != []
  {
    s[..|s| - 1]
  }

  /** The entries kept by the filter of `get_all_files`, in walk order. */
  function TemplatesOf(walk: seq<Entry>): seq<Entry> {
    if walk == [] then []
    else TemplatesOf(DropLast(walk)) + (if IsTemplateFile(Last(walk)) then [Last(walk)] else [])
  }

  /** `get_all_files`, with the walk given as its list of files. */
  method GetAllFiles(walk: seq<Entry>) returns (paths: seq<Entry>)
    ensures paths == TemplatesOf(walk)
  {
    paths := [];
    for i := 0 to |walk|
      invariant paths == TemplatesOf(walk[..i])
    {
      var entry := walk[i];
      assert DropLast(walk[..i + 1]) == walk[..i];
      var fileName := Lower(entry.fileName);
      if EndsWith(fileName, Suffix) {
        paths := paths + [entry];
      }
    }
    assert walk[..|walk|] == walk;
  }

  /** The filter keeps exactly the entries whose lowercased name ends with
      ".gitignore". */
  lemma {:induction false} TemplatesOfMembers(walk: seq<Entry>, e: Entry)
    ensures e in TemplatesOf(walk) <==> e in walk && IsTemplateFile(e)
    decreases |walk|
  {
    if walk != [] {
      TemplatesOfMembers(DropLast(walk), e);
      assert walk == DropLast(walk) + [Last(walk)];
    }
  }

  /** The filter preserves the walk's order: it distributes over
      concatenation. */
  lemma {:induction false} TemplatesOfAppend(a: seq<Entry>, b: seq<Entry>)
    ensures TemplatesOf(a + b) == TemplatesOf(a) + TemplatesOf(b)
    decreases |b|
  {
    if b == [] {
      assert a + b == a;
    } else {
      assert DropLast(a + b) == a + DropLast(b);
      assert Last(a + b) == Last(b);
      TemplatesOfAppend(a, DropLast(b));
    }
  }

  /** The filter only drops entries: it never repeats or invents one. */
  lemma {:induction false} TemplatesOfLength(walk: seq<Entry>)
    ensures |TemplatesOf(walk)| <= |walk|
    ensures |TemplatesOf(walk)| == |walk| <==> forall i :: 0 <= i < |walk| ==> IsTemplateFile(walk[i])
    decreases |walk|
  {
    if walk != [] {
      TemplatesOfLength(DropLast(walk));
      assert forall i :: 0 <= i < |walk| - 1 ==> walk[i] == DropLast(walk)[i];
    }
  }

  // ---------------------------------------------------------------------
  // Matching
  // ---------------------------------------------------------------------

  /** The comparison of `process_terms`: the lowercased file name equals the
      lowercased, alias-resolved term followed by ".gitignore". */
  predicate Matches(e: Entry, term: string) {
    Lower(e.fileName) == Lower(ResolveAlias(term)) + Suffix
  }

  /** The paths one entry contributes: one copy per matching term. */
  function MatchesFor(e: Entry, terms: seq<string>): seq<string> {
    if terms == [] then []
    else MatchesFor(e, DropLast(terms)) + (if Matches(e, Last(terms)) then [e.path] else [])
  }

  /** The matched list: entry by entry, and for each entry term by term. */
  function MatchedPaths(entries: seq<Entry>, terms: seq<string>): seq<string> {
    if entries == [] then []
    else MatchedPaths(DropLast(entries), terms) + MatchesFor(Last(entries), terms)
  }

  /** The nested loops of `process_terms` that build `matched_files`. */
  method MatchFiles(paths: seq<Entry>, terms: seq<string>) returns (matched: seq<string>)
    ensures matched == MatchedPaths(paths, terms)
  {
    matched := [];
    for i := 0 to |paths|
      invariant matched == MatchedPaths(paths[..i], terms)
    {
      var entry := paths[i];
      assert DropLast(paths[..i + 1]) == paths[..i];
      ghost var before := matched;
      for j := 0 to |terms|
        invariant matched == before + MatchesFor(entry, terms[..j])
      {
        assert DropLast(terms[..j + 1]) == terms[..j];
        var term := ResolveAlias(terms[j]);
        var fmtTerm := Lower(term) + Suffix;
        var fileName := Lower(entry.fileName);
        if fileName == fmtTerm {
          matched := matched + [entry.path];
        }
      }
      assert terms[..|terms|] == terms;
    }
    assert paths[..|paths|] == paths;
  }

  /** Matching lowercases both sides: names that agree up to ASCII case
      match the same terms. */
  lemma MatchIgnoresCase(e1: Entry, e2: Entry, term: string)
    requires Lower(e1.fileName) == Lower(e2.fileName)
    ensures Matches(e1, term) <==> Matches(e2, term)
  {
  }

  /** A matching file always passes the suffix filter. */
  lemma MatchIsTemplate(e: Entry, term: string)
    ensures Matches(e, term) ==> IsTemplateFile(e)
  {
    if Matches(e, term) {
      var n := Lower(e.fileName);
      assert n[|n| - |Suffix|..] == Suffix;
    }
  }

  /** The set of positions of the terms that match an entry. */
  function MatchingTerms(e: Entry, terms: seq<string>): set<nat> {
    set j: nat | j < |terms| && Matches(e, terms[j])
  }

  /** An entry's contribution is its path, once per matching term, so two
      terms naming the same file give two copies. */
  lemma {:induction false} MatchesForShape(e: Entry, terms: seq<string>)
    ensures |MatchesFor(e, terms)| == |MatchingTerms(e, terms)|
    ensures forall k :: 0 <= k < |MatchesFor(e, terms)| ==> MatchesFor(e, terms)[k] == e.path
    decreases |terms|
  {
    if terms != [] {
      var init, n := DropLast(terms), |terms| - 1;
      MatchesForShape(e, init);
      var before, after := MatchingTerms(e, init), MatchingTerms(e, terms);
      var last: set<nat> := if Matches(e, terms[n]) then {n} else {};
      forall j: nat
        ensures j in after <==> j in before + last
      {
        if j < n {
          assert terms[j] == init[j];
        }
      }
      assert after == before + last;
      assert n !in before;
    }
  }

  /** An entry contributes something exactly when one of the terms matches it. */
  lemma {:induction false} MatchesForEmpty(e: Entry, terms: seq<string>)
    ensures MatchesFor(e, terms) == [] <==> forall j :: 0 <= j < |terms| ==> !Matches(e, terms[j])
    decreases |terms|
  {
    if terms != [] {
      MatchesForEmpty(e, DropLast(terms));
      assert forall j :: 0 <= j < |terms| - 1 ==> terms[j] == DropLast(terms)[j];
    }
  }

  /** Every matched path comes from the input: it is the path of an entry
      that some term matches. */
  lemma {:induction false} MatchedPathSource(entries: seq<Entry>, terms: seq<string>, p: string)
    returns (i: nat, j: nat)
    requires p in MatchedPaths(entries, terms)
    ensures i < |entries| && j < |terms|
    ensures entries[i].path == p && Matches(entries[i], terms[j])
    decreases |entries|
  {
    var init, e := DropLast(entries), Last(entries);
    var here := MatchesFor(e, terms);
    assert MatchedPaths(entries, terms) == MatchedPaths(init, terms) + here;
    if p in MatchedPaths(init, terms) {
      i, j := MatchedPathSource(init, terms, p);
      assert entries[i] == init[i];
    } else {
      MatchesForShape(e, terms);
      MatchesForEmpty(e, terms);
      assert here[0] == e.path;
      i := |entries| - 1;
      j :| 0 <= j < |terms| && Matches(e, terms[j]);
    }
  }

  /** Every entry that a term matches has its path in the matched list. */
  lemma {:induction false} MatchedPathComplete(entries: seq<Entry>, terms: seq<string>, i: nat, j: nat)
    requires i < |entries| && j < |terms|
    requires Matches(entries[i], terms[j])
    ensures entries[i].path in MatchedPaths(entries, terms)
    decreases |entries|
  {
    var init, e := DropLast(entries), Last(entries);
    var here := MatchesFor(e, terms);
    assert MatchedPaths(entries, terms) == MatchedPaths(init, terms) + here;
    if i < |entries| - 1 {
      assert entries[i] == init[i];
      MatchedPathComplete(init, terms, i, j);
    } else {
      MatchesForShape(e, terms);
      MatchesForEmpty(e, terms);
      assert here[0] == e.path;
    }
  }

  /** The matched list is empty exactly when no (file, term) pair matches. */
  lemma MatchedPathsEmpty(entries: seq<Entry>, terms: seq<string>)
    ensures MatchedPaths(entries, terms) == [] <==>
      forall i, j :: 0 <= i < |entries| && 0 <= j < |terms| ==> !Matches(entries[i], terms[j])
  {
    var m := MatchedPaths(entries, terms);
    if m != [] {
      var i, j := MatchedPathSource(entries, terms, m[0]);
    } else {
      forall i, j | 0 <= i < |entries| && 0 <= j < |terms|
        ensures !Matches(entries[i], terms[j])
      {
        if Matches(entries[i], terms[j]) {
          MatchedPathComplete(entries, terms, i, j);
        }
      }
    }
  }

  /** Entry-major order: the matched list of a concatenation of entries is
      the concatenation of their matched lists. */
  lemma {:induction false} MatchedPathsAppend(a: seq<Entry>, b: seq<Entry>, terms: seq<string>)
    ensures MatchedPaths(a + b, terms) == MatchedPaths(a, terms) + MatchedPaths(b, terms)
    decreases |b|
  {
    if b == [] {
      assert a + b == a;
    } else {
      assert DropLast(a + b) == a + DropLast(b);
      assert Last(a + b) == Last(b);
      MatchedPathsAppend(a, DropLast(b), terms);
    }
  }

  lemma {:induction false} NonTemplateMatchesNothing(e: Entry, terms: seq<string>)
    requires !IsTemplateFile(e)
    ensures MatchesFor(e, terms) == []
  {
    MatchesForEmpty(e, terms);
    forall j | 0 <= j < |terms| ensures !Matches(e, terms[j]) {
      MatchIsTemplate(e, terms[j]);
    }
  }

  /** Filtering by suffix before matching changes nothing: every file a
      term matches is a template file. */
  lemma {:induction false} FilterBeforeMatchRedundant(walk: seq<Entry>, terms: seq<string>)
    ensures MatchedPaths(TemplatesOf(walk), terms) == MatchedPaths(walk, terms)
    decreases |walk|
  {
    if walk != [] {
      var init, e := DropLast(walk), Last(walk);
      FilterBeforeMatchRedundant(init, terms);
      var kept := if IsTemplateFile(e) then [e] else [];
      MatchedPathsAppend(TemplatesOf(init), kept, terms);
      if IsTemplateFile(e) {
        assert DropLast(kept) == [];
        assert MatchedPaths(kept, terms) == MatchesFor(e, terms);
      } else {
        NonTemplateMatchesNothing(e, terms);
        assert TemplatesOf(init) + kept == TemplatesOf(init);
      }
    }
  }

  /** Matching is case-insensitive: "Node" matches "NODE.gitignore". */
  lemma CaseInsensitiveExample(p: string)
    ensures Matches(Entry(p, "NODE.gitignore"), "Node")
  {
    assert ResolveAlias("Node") == "Node";
    assert Lower("NODE.gitignore") == "node.gitignore";
    assert Lower("Node") == "node";
  }

  /** The alias lookup is case-sensitive: "VSCode" is matched as itself and
      not against the Visual Studio Code template. */
  lemma AliasCaseSensitiveExample(p: string)
    ensures !Matches(Entry(p, "VisualStudioCode.gitignore"), "VSCode")
    ensures Matches(Entry(p, "VisualStudioCode.gitignore"), "vscode")
  {
    assert ResolveAlias("VSCode") == "VSCode";
    assert Lower("VSCode") == "vscode";
    assert |Lower("VisualStudioCode.gitignore")| != |"vscode" + Suffix|;
    assert Lower("VisualStudioCode.gitignore") == "visualstudiocode.gitignore";
    assert Lower("visualstudiocode") == "visualstudiocode";
  }

  /** Two terms naming the same file give the file twice. */
  lemma DuplicatesPreservedExample(p: string)
    ensures MatchedPaths([Entry(p, "csharp.gitignore")], ["c#", "CSharp"]) == [p, p]
  {
    var e := Entry(p, "csharp.gitignore");
    LowerOfLowercase("csharp.gitignore");
    LowerOfLowercase("csharp");
    assert Lower("CSharp") == "csharp";
    assert Matches(e, "c#") && Matches(e, "CSharp");
    assert MatchesFor(e, ["c#"]) == MatchesFor(e, []) + [p];
    assert MatchesFor(e, ["c#", "CSharp"]) == MatchesFor(e, ["c#"]) + [p];
    assert MatchedPaths([e], ["c#", "CSharp"]) == MatchedPaths([], ["c#", "CSharp"]) + MatchesFor(e, ["c#", "CSharp"]);
  }

  // ---------------------------------------------------------------------
  // Output
  // ---------------------------------------------------------------------

  /** The line `eprintln!` writes to standard error, newline included. */
  const NoMatchDiagnostic: string := "No matching .gitignore files found.\n"

  /** What a run of `process_terms` leaves behind: the diagnostic on
      standard error, the full output on standard output, or the output
      written before a template could not be read. */
  datatype Outcome =
    | NoMatch(stderr: string)
    | Written(stdout: string)
    | ReadFailed(path: string, stdout: string)

  /** The contents of the given files, each followed by a newline. */
  function Render(paths: seq<string>, contents: map<string, string>): string
    requires forall k :: 0 <= k < |paths| ==> paths[k] in contents
  {
    if paths == [] then []
    else Render(DropLast(paths), contents) + contents[Last(paths)] + "\n"
  }

  /** The position of the first file that cannot be read (one absent from
      `contents`). */
  function FirstUnreadable(paths: seq<string>, contents: map<string, string>): (r: Option<nat>)
    ensures r.None? <==> forall k :: 0 <= k < |paths| ==> paths[k] in contents
    ensures r.Some? ==> r.value < |paths| && paths[r.value] !in contents
                        && forall k :: 0 <= k < r.value ==> paths[k] in contents
  {
    if paths == [] then None
    else if paths[0] !in contents then Some(0)
    else match FirstUnreadable(paths[1..], contents)
      case None => None
      case Some(k) => Some(k + 1)
  }

  /** Writing the matched files in order, stopping at the first read error. */
  function Emit(paths: seq<string>, contents: map<string, string>): Outcome {
    match FirstUnreadable(paths, contents)
    case None => Written(Render(paths, contents))
    case Some(k) => ReadFailed(paths[k], Render(paths[..k], contents))
  }

  /** The outcome of `process_terms` for a walk, the terms and the readable
      templates. */
  function ProcessOutcome(walk: seq<Entry>, terms: seq<string>, contents: map<string, string>): Outcome {
    var matched := MatchedPaths(TemplatesOf(walk), terms);
    if matched == [] then NoMatch(NoMatchDiagnostic) else Emit(matched, contents)
  }

  /** `process_terms`: filter the walk, match, then report or write. */
  method ProcessTerms(walk: seq<Entry>, terms: seq<string>, contents: map<string, string>) returns (out: Outcome)
    ensures out == ProcessOutcome(walk, terms, contents)
  {
    var paths := GetAllFiles(walk);
    var matched := MatchFiles(paths, terms);
    if matched == [] {
      return NoMatch(NoMatchDiagnostic);
    }
    var stdout := "";
    for k := 0 to |matched|
      invariant forall j :: 0 <= j < k ==> matched[j] in contents
      invariant stdout == Render(matched[..k], contents)
    {
      if matched[k] !in contents {
        return ReadFailed(matched[k], stdout);
      }
      assert DropLast(matched[..k + 1]) == matched[..k];
      stdout := stdout + contents[matched[k]] + "\n";
    }
    assert matched[..|matched|] == matched;
    return Written(stdout);
  }

  /** The diagnostic is reported, and nothing written, exactly when no file
      of the walk matches any term. */
  lemma NoMatchIff(walk: seq<Entry>, terms: seq<string>, contents: map<string, string>)
    ensures ProcessOutcome(walk, terms, contents).NoMatch? <==>
      forall i, j :: 0 <= i < |walk| && 0 <= j < |terms| ==> !Matches(walk[i], terms[j])
  {
    FilterBeforeMatchRedundant(walk, terms);
    MatchedPathsEmpty(walk, terms);
  }

  lemma NodeEntryExample(a: Entry)
    requires a == Entry("t/node.gitignore", "node.gitignore")
    ensures MatchesFor(a, ["node", "vscode"]) == [a.path]
  {
    LowerOfLowercase("node.gitignore");
    LowerOfLowercase("node");
    assert Matches(a, "node");
    assert |Lower(a.fileName)| != |Lower(ResolveAlias("vscode")) + Suffix|;
    assert MatchesFor(a, ["node"]) == MatchesFor(a, []) + [a.path];
  }

  lemma OtherEntryExample(r: Entry)
    requires r == Entry("t/README.md", "README.md")
    ensures MatchesFor(r, ["node", "vscode"]) == []
  {
    assert |Lower("README.md")| != |Lower("node") + Suffix|;
    assert |Lower("README.md")| != |Lower(ResolveAlias("vscode")) + Suffix|;
    assert MatchesFor(r, ["node"]) == MatchesFor(r, []);
  }

  lemma CodeEntryExample(b: Entry)
    requires b == Entry("t/visualstudiocode.gitignore", "visualstudiocode.gitignore")
    ensures MatchesFor(b, ["node", "vscode"]) == [b.path]
  {
    LowerOfLowercase("visualstudiocode.gitignore");
    LowerOfLowercase("visualstudiocode");
    assert |Lower(b.fileName)| != |Lower("node") + Suffix|;
    assert Matches(b, "vscode");
    assert MatchesFor(b, ["node"]) == MatchesFor(b, []);
  }

  lemma MatchedExample(a: Entry, r: Entry, b: Entry)
    requires a == Entry("t/node.gitignore", "node.gitignore")
    requires r == Entry("t/README.md", "README.md")
    requires b == Entry("t/visualstudiocode.gitignore", "visualstudiocode.gitignore")
    ensures MatchedPaths([a, r, b], ["node", "vscode"]) == [a.path, b.path]
  {
    var terms := ["node", "vscode"];
    NodeEntryExample(a);
    OtherEntryExample(r);
    CodeEntryExample(b);
    assert DropLast([a, r, b]) == [a, r] && DropLast([a, r]) == [a];
    assert MatchedPaths([a], terms) == MatchedPaths([], terms) + MatchesFor(a, terms);
    assert MatchedPaths([a, r], terms) == MatchedPaths([a], terms) + MatchesFor(r, terms);
    assert MatchedPaths([a, r, b], terms) == MatchedPaths([a, r], terms) + MatchesFor(b, terms);
  }

  /** ["node", "vscode"] against a walk holding node.gitignore, a
      non-template and visualstudiocode.gitignore gives both templates'
      contents, in walk order, each followed by a newline. */
  lemma DirectModeExample(walk: seq<Entry>, contents: map<string, string>, node: string, code: string)
    requires walk == [ Entry("t/node.gitignore", "node.gitignore"),
                       Entry("t/README.md", "README.md"),
                       Entry("t/visualstudiocode.gitignore", "visualstudiocode.gitignore") ]
    requires contents == map["t/node.gitignore" := node, "t/visualstudiocode.gitignore" := code]
    ensures ProcessOutcome(walk, ["node", "vscode"], contents) == Written(node + "\n" + code + "\n")
  {
    var terms := ["node", "vscode"];
    FilterBeforeMatchRedundant(walk, terms);
    MatchedExample(walk[0], walk[1], walk[2]);
    RenderExample(["t/node.gitignore", "t/visualstudiocode.gitignore"], contents, node, code);
  }

  lemma RenderExample(m: seq<string>, contents: map<string, string>, node: string, code: string)
    requires m == ["t/node.gitignore", "t/visualstudiocode.gitignore"]
    requires contents == map["t/node.gitignore" := node, "t/visualstudiocode.gitignore" := code]
    ensures Emit(m, contents) == Written(node + "\n" + code + "\n")
  {
    assert FirstUnreadable(m, contents) == None;
    assert DropLast(m) == ["t/node.gitignore"];
    assert Render(["t/node.gitignore"], contents) == node + "\n";
    assert Render(m, contents) == Render(["t/node.gitignore"], contents) + code + "\n";
  }
}
