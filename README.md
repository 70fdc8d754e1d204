# gig — a Dafny model of its hinting and template matching

`gig` is a command-line tool that prints `.gitignore` templates from a
bundled template collection. This project models two pieces of its logic in
Dafny and proves properties about them:

- **The inline hinter of the interactive prompt** (`simpline.dfy`, module
  `SimpLine`). `Hint` takes the edit line, the cursor position and an
  ordered list of completions. When the cursor is at the end of a non-empty
  line that does not end in a space, it scans backward to the start of the
  current word. It then picks the first completion that starts with that
  word and does not already occur anywhere in the line, and returns what
  that completion adds to the word. The module also covers the gray ANSI
  wrapping of a hint (`HighlightHint`) and how `read_words` splits a
  submitted line into terms (`Words`, `ReadWords`).
- **Term-to-template matching** (`gig.dfy`, module `Gig`). This covers:
  - the alias table (`vscode` → `visualstudiocode`, `c#` → `csharp`);
  - the `.gitignore` suffix filter over the walked files (`GetAllFiles`);
  - the nested loops that match every file against every term (`MatchFiles`);
  - what `process_terms` leaves on standard output or standard error
    (`ProcessTerms`).

`text.dfy` (module `Text`) holds the shared character classes and string
predicates. `wrappers.dfy` holds `Option` and `Result`.

Modelling choices:

- Strings are `seq<char>`, and the cursor is an index into the line.
- Lowercasing is ASCII only.
- The hinter's word boundary uses `u8::is_ascii_whitespace`: space, tab,
  line feed, form feed and carriage return. Vertical tab is not included.
- `split_whitespace` uses `char::is_whitespace`, the Unicode White_Space
  list. That list does include vertical tab and the non-ASCII spaces.
- The directory walk is an input list of `Entry(path, fileName)`.
- The templates that can be read are an input map from path to contents. A
  matched path that is missing from the map stands for a failed
  `read_to_string`.
- `read_line` is an input `Result` that `ReadWords` passes on when it is an
  error, as `?` does.

What the proofs establish:

- The `completion == word` branch of `hint` (src/simpline.rs:31-33) can
  never be taken. The word is a slice of the line, so the `!line.contains(c)`
  filter already rejects a completion equal to it (`HintFirstEligible`,
  `WordNeverEligible`). Every hint is therefore non-empty.
- Only a trailing *space* blocks a hint. After a trailing tab the current
  word is empty, and the first completion that does not occur in the line
  is offered whole (`TrailingTabOffersWholeCompletion`).
- Hints are suppressed by substring containment. Once "django" is typed,
  "go" is never offered for a later "g" (`SubstringSuppressionExample`). Typing
  all of "go" never produces "go" itself, or an empty hint, because the
  typed word is always in the line. A longer completion that starts with
  "go", such as "golang", can still be hinted.
- In `process_terms` the suffix filter makes no difference to the result.
  Any file that a term matches already ends in `.gitignore`
  (`FilterBeforeMatchRedundant`).
- The code compares the lowercased full file name with the lowercased,
  alias-resolved term plus `.gitignore`. It does not build a catalogue of
  names with the suffix stripped, so the model follows the code.

## Model

| member | source | states |
|---|---|---|
| `SimpLine.WordStart` | src/simpline.rs:19-22 | The backward scan stops at a start with nothing but non-whitespace bytes up to the cursor, and with either the buffer start or a whitespace byte just before it. |
| `SimpLine.WordStartUnique` | src/simpline.rs:19-23 | Only one position has those three properties, so the word under the cursor is well defined. |
| `SimpLine.CurrentWordInLine` | src/simpline.rs:23 | The extracted word `line[start..pos]` occurs in the line. |
| `SimpLine.FirstEligible` | src/simpline.rs:26-28 | `filter(..).next()` returns the first index whose completion is absent from the line and starts with the word. It returns none exactly when no completion qualifies. |
| `SimpLine.Hint` | src/simpline.rs:13-39 | The imperative hinter, with its guard, backward loop, search and remainder. It returns exactly `HintOf`, the value the lemmas below describe. |
| `SimpLine.HintNoneOutsideGuard` | src/simpline.rs:14-16 | There is no hint for an empty line, for a cursor before the end, or for a line ending in a space. |
| `SimpLine.HintFirstEligible` | src/simpline.rs:26-38 | Past the guard, there is no hint if and only if no completion is eligible. When the k-th completion is the first eligible one, it differs from the word and the hint is what it adds beyond the word. |
| `SimpLine.HintCompletesWord` | src/simpline.rs:26-35 | A hint `h` is non-empty, and word + `h` is the first eligible completion in list order. |
| `SimpLine.UsedCompletionNeverHinted` | src/simpline.rs:27 | A completion that already occurs in the line is never what a hint completes to. |
| `SimpLine.WordNeverEligible` | src/simpline.rs:31-33 | The word itself is never eligible, which is why the `completion == word` branch is dead. |
| `SimpLine.MidLineNoHint` | src/simpline.rs:14-16 | With the cursor at 2 in "py thon" there is no hint, whatever the completion list. |
| `SimpLine.FirstInOrderExample` | src/simpline.rs:26-35 | For "py" with ["python", "pytorch"] the hint is "thon". |
| `SimpLine.NoRehintExample` | src/simpline.rs:27 | "python py" never hints "python" again. With "pytorch" also in the list, the hint is "torch". |
| `SimpLine.SubstringSuppressionExample` | src/simpline.rs:27 | Suppression is by substring: "django g" skips "go" and hints "radle" from "gradle". |
| `SimpLine.TrailingTabOffersWholeCompletion` | src/simpline.rs:14-23 | After a trailing tab the word is empty, and the first completion not in the line is hinted whole. |
| `SimpLine.HighlightHint` | src/simpline.rs:62-65 | The rendering begins with ESC[90m, ends with ESC[0m, and holds exactly the hint in between. |
| `SimpLine.HighlightInjective` | src/simpline.rs:62-65 | Highlighting keeps all of the hint: two hints with the same rendering are equal. |
| `SimpLine.WordsAreTokens` | src/simpline.rs:115 | Every term from `split_whitespace` is non-empty and contains no whitespace. |
| `SimpLine.WordsSpellLine` | src/simpline.rs:115-117 | Read left to right, the terms spell exactly the line's non-whitespace characters, in order. |
| `SimpLine.WordsEmptyIffBlank` | src/simpline.rs:115-119 | The term list is empty if and only if the line is empty or all whitespace. |
| `SimpLine.WordsSplitAtWhitespace` | src/simpline.rs:115 | Any whitespace character separates terms: the terms of `a + [c] + b` are those of `a` followed by those of `b`. |
| `SimpLine.WordsOfJoin` | src/simpline.rs:115 | Splitting tokens joined by spaces gives the same tokens back. |
| `SimpLine.ReadWords` | src/simpline.rs:111-120 | A failed read is passed on unchanged. Otherwise the result is the line's terms, pushed in order. |
| `Gig.AliasTable` | src/main.rs:11-16 | "vscode" resolves to "visualstudiocode" and "c#" to "csharp". Every other term is unchanged, and the lookup is case-sensitive ("VSCode" is not aliased). |
| `Gig.ResolveAliasIdempotent` | src/main.rs:51-54 | No alias target is itself a key, so the single lookup is final and there is no chaining. |
| `Gig.GetAllFiles` | src/main.rs:28-41 | The loop returns exactly the filter `TemplatesOf` of the walk. |
| `Gig.TemplatesOfMembers` | src/main.rs:34-39 | The filter keeps an entry if and only if it is in the walk and its lowercased name ends with ".gitignore". |
| `Gig.TemplatesOfLength` | src/main.rs:34-39 | The filter never grows the walk, and it keeps every entry exactly when all of them are templates. |
| `Gig.TemplatesOfAppend` | src/main.rs:30-40 | The filter distributes over concatenation, so the walk order is preserved. |
| `Gig.MatchFiles` | src/main.rs:49-61 | The nested loops return exactly `MatchedPaths`: entry by entry, and term by term within each entry. |
| `Gig.MatchIgnoresCase` | src/main.rs:55-57 | File names that agree up to ASCII case match the same terms. |
| `Gig.MatchIsTemplate` | src/main.rs:55-57 | A file that some term matches ends in ".gitignore" (after lowercasing). |
| `Gig.MatchesForShape` | src/main.rs:50-60 | An entry contributes its path once per matching term, so duplicates are kept. |
| `Gig.MatchesForEmpty` | src/main.rs:50-60 | An entry contributes nothing if and only if no term matches it. |
| `Gig.MatchedPathSource` | src/main.rs:49-61 | Every matched path is the path of an input entry that some term matches. |
| `Gig.MatchedPathComplete` | src/main.rs:49-61 | Every (entry, term) pair that matches puts the entry's path in the matched list. |
| `Gig.MatchedPathsEmpty` | src/main.rs:49-63 | The matched list is empty if and only if no (file, term) pair matches. |
| `Gig.MatchedPathsAppend` | src/main.rs:49-61 | Ordering is entry-major: the matched list of concatenated entries is the concatenation of their matched lists. |
| `Gig.NonTemplateMatchesNothing` | src/main.rs:55-57 | A file whose name does not end in ".gitignore" is matched by no term. |
| `Gig.FilterBeforeMatchRedundant` | src/main.rs:48-61 | Matching the filtered walk gives the same list as matching the whole walk. |
| `Gig.CaseInsensitiveExample` | src/main.rs:55-57 | "Node" matches "NODE.gitignore". |
| `Gig.AliasCaseSensitiveExample` | src/main.rs:51-57 | "vscode" matches "VisualStudioCode.gitignore" but "VSCode" does not. |
| `Gig.DuplicatesPreservedExample` | src/main.rs:49-61 | The terms "c#" and "CSharp" both match csharp.gitignore, so its path appears twice. |
| `Gig.FirstUnreadable` | src/main.rs:66-67 | Gives the position of the first matched file that cannot be read. It gives none exactly when every file can be read. |
| `Gig.ProcessTerms` | src/main.rs:45-74 | The output is `ProcessOutcome`. No match means the diagnostic line, newline included, on standard error. Otherwise each file's contents plus "\n" is written in matched order, stopping at the first read failure. |
| `Gig.NoMatchIff` | src/main.rs:63-64 | The diagnostic is reported, and nothing written, exactly when no file of the walk matches any term. |
| `Gig.DirectModeExample` | src/main.rs:45-74 | The terms ["node", "vscode"] against node.gitignore, README.md and visualstudiocode.gitignore write both templates' contents in walk order, each followed by a newline. |

## Left out

- `SimpLineReader::read_line`, the `Editor`/`Config` setup and the passing on of `ReadlineError` (src/simpline.rs:78-109) are terminal I/O through rustyline. `ReadWords` takes the line or the error as an input instead.
- `SimpHelper`, `SimpValidator` and the derive macros (src/simpline.rs:42-56) are library glue with no logic.
- `SimpLineReader::new` only stores its two arguments.
- The `WalkDir` traversal, the path built from `env!("CARGO_MANIFEST_DIR")` and the `is_file` test (src/main.rs:26-33) are file-system access. The walk is an input list of files, and each entry has one file name. The model does not separate `path().file_name()` from `DirEntry::file_name()`, which agree for regular files.
- `fs::read_to_string`, the stdout writes and `eprintln!` (src/main.rs:63-70) are I/O. They appear as an input map of readable contents and an `Outcome` value. A failed stdout write is not modelled.
- `main` and src/args.rs are argument parsing only.
- `to_lowercase` is modelled for ASCII letters only. Full Unicode case mapping, including the cases where lowercasing changes a string's length, is not modelled.
- Rust strings are UTF-8, and `line.len()`, `pos` and slicing count bytes. The model counts characters, which is the same thing for ASCII lines.
- The `once_cell::Lazy` initialisation of `KNOWN_ALIASES` is a constant map.
- `SimpLine.Hint` and `SimpLine.HintOf` require `pos <= |line|`. rustyline always passes a cursor within the line. For a cursor past the end, the source returns `None` when the line is empty or ends in a space (src/simpline.rs:14-16). Otherwise it indexes `line.as_bytes()[pos - 1]` out of bounds and panics (src/simpline.rs:20).
- The interactive mode described for the tool (prompting and then appending to a local `.gitignore`) is not in src/main.rs, which never declares `mod simpline`. That mode is not part of this model, and the hinter is modelled standalone.
