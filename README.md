# templit core in Dafny

This project models the two pieces of templit that do real work:

- **`replaceTokens`** (`src/templating.ts`). It scans every enumerated file for
  `{{name}}` and `{{name:case}}` placeholders. Each occurrence is resolved against a value
  map and a registry of case-style transforms.
  - In dry run it changes nothing and collects the names that have no value.
  - In apply mode it substitutes every occurrence and writes the file back.
  - A failure in one file is recorded as `file: message` and the loop goes on.
  - At the end, any recorded failure makes the whole call fail; otherwise it returns the
    discovered names.
- **The git output parsers** (`src/git.ts`).
  - `getRemotes` keeps the name and url of every `fetch` line of `git remote -v`.
  - `getStatus` sets `untracked` for a `??` line of `git status --porcelain` and `modified`
    for any other status.

Modules, one per file:

| file | module | what it holds |
|---|---|---|
| `wrappers.dfy` | `Wrappers` | `Option` and `Result` |
| `js_text.dfy` | `JsText` | JavaScript's `\s`, `\S` and `.` classes; greedy runs (`SpanEnd`); `split`/`join` on one character; the leftmost-match search `FirstMatch` shared by all three regular expressions |
| `token_syntax.dfy` | `TokenSyntax` | the placeholder pattern as a deterministic matcher (`TokenAt`) and the global scan (`Segments`) |
| `templating.dfy` | `Templating` | the `replacer` closure (`Replace`), one file's `content.replace(...)` (`Rewrite`), the error messages |
| `template_pass.dfy` | `TemplatePass` | the file loop: the disk as a `FileSystem` class, the imperative `ReplaceTokens` method, and the specification function `Pass` with its properties |
| `git.dfy` | `Git` | the remote and status patterns, `GetRemotes` as a pure pipeline, `GetStatus` as a loop with an early `break` |

How each regular expression is modelled:

- Each pattern is a function that tries to match at the start of a string (`TokenAt`,
  `RemoteAt`, `StatusAt`).
- A *soundness* `ensures` or lemma says that whatever the function finds comes from a
  well-formed match at that position.
- A *completeness* lemma says what the function finds whenever some well-formed match sits
  at that position.
  - The placeholder and remote patterns never need to backtrack: each part is a run of a
    class that the next part's first character is outside of. So the match at a position
    is unique, and the completeness lemma says it is exactly what the function finds.
  - The status pattern `(\S+)\s+(.+)` does backtrack: on a line that ends in whitespace,
    `\s+` gives back a character for `.+` (the `exists k` case of `StatusAt`). Its matches
    are not unique either: on `M ab` the file group may be `a` or `ab`. Only the `status`
    group is determined by the position, and only that group is used. So `StatusAt`
    returns just the status, and `StatusAtComplete` says every match there has it.
- The leftmost match of an unanchored `match` is `FirstMatch`.
- A `/g` replace is `Segments`: try a placeholder at the current position, otherwise copy
  one character and move on.

How the file loop is modelled:

- `ReplaceTokens` is a method over a `FileSystem` object. Its loop invariant ties the disk,
  the `tokens` set and the `errors` list to the prefix-recursive function `Pass`.
- The loop body (read, `replace`, then write or record the error) is the method
  `ProcessFile`. It is proved against `Step`, the function for one iteration.
- What the source promises about the whole pass is proved as lemmas about `Pass`.

Behaviour of the code worth knowing:

- The code has no path renamer. Only file contents are rewritten.
- A name whose value is the empty string counts as missing, just like an absent name
  (`!replacement`, `src/templating.ts:20`). It is therefore discovered, and it fails in
  apply mode.
- Names may contain `/` and `\` (`src/templating.ts:61`).
- After an apply pass the output can still hold a placeholder for a name in the value
  map, because substituted values are not scanned again.
  `Templating.OutputMayHoldPlaceholders` proves a counterexample: with `a = "{{b}}"` and
  `b = "x"`, the text `{{a}}` becomes `{{b}}`, which still holds a resolvable placeholder.

## Model

| member | source | states |
|---|---|---|
| JsText.SpanEnd | src/git.ts:22 | a greedy run `\S+` / `\s+` (or a name or case run) ends within the text, and the character at the end, if any, does not belong to the class |
| JsText.SpanEndRun | src/git.ts:22 | every character the greedy run passes over belongs to the class |
| JsText.SpanEndIsUnique | src/git.ts:22 | a run of the class that stops at a character outside it, or at the end, is exactly the greedy run, so the run needs no backtracking |
| JsText.Split | src/git.ts:24 | `split("\n")` yields at least one part, no part contains the separator, and joining the parts with it gives back the text |
| JsText.SplitTrailingSeparator | src/git.ts:24 | a trailing newline adds exactly one empty last part and leaves the other parts alone |
| JsText.FirstMatch | src/git.ts:26 | `line.match(regex)` without `g` finds the leftmost position where the pattern matches; no earlier position matches, and no match found means no position matches |
| JsText.FirstMatchIs | src/git.ts:26 | a match at some position with none before it is the match `FirstMatch` reports |
| TokenSyntax.TokenAt | src/templating.ts:61 | what the placeholder matcher finds at a position is a well-formed placeholder (non-empty name over word characters, `-`, space, `\`, `/`; optional non-empty ASCII-letter case) whose text `{{name}}` or `{{name:case}}` starts there |
| TokenSyntax.TokenAtComplete | src/templating.ts:61 | any well-formed placeholder whose text starts the input is exactly what the matcher finds, so the match at a position is unique and never needs backtracking |
| TokenSyntax.Head | src/templating.ts:61 | the global scan's step either takes the placeholder matched at the current position or copies one character from a position where no placeholder starts |
| TokenSyntax.Segments | src/templating.ts:61 | the scan cuts the text into copied characters and placeholders that concatenate back to the text: nothing but matched placeholders is changed |
| TokenSyntax.SegmentAt | src/templating.ts:61 | left to right and without overlap: segment `j` starts where the earlier segments end; a placeholder segment is the match at that position, and a copied character sits where no placeholder matches |
| Templating.BatchMessage | src/templating.ts:71-73 | the thrown message always begins with the fixed header line; with no errors nothing follows it |
| Templating.BatchMessageLines | src/templating.ts:71-73 | the final error message is the fixed header line followed by every recorded `file: message`, one per line, in order |
| Templating.Replace | src/templating.ts:15-45 | the replacer: dry run returns the occurrence verbatim; apply mode throws exactly when the value is absent or empty (`Token X not found in config`, checked first) or the case style is unknown (`Case type X not supported`); otherwise it returns the value, or the registry's transform of it |
| Templating.ReplaceSegments | src/templating.ts:18-21 | every name the scan adds to `tokens` has an absent or empty value; a name with a non-empty value is never added |
| Templating.DryRunSegments | src/templating.ts:20-34 | in dry run every occurrence, even one with an unknown case style, is returned verbatim, and the names added are exactly the mentioned names with an absent or empty value |
| Templating.DryRunKeepsContent | src/templating.ts:33 | in dry run a file's replaced content equals its original content, and it discovers exactly the mentioned names that have no value |
| Templating.ApplySegments | src/templating.ts:22-44 | in apply mode the scan fails exactly when some occurrence cannot be resolved, with the error of the first such occurrence; otherwise each occurrence becomes its value (or transformed value) and no name is discovered |
| Templating.ApplyRewrite | src/templating.ts:61 | one file's `content.replace(...)` in apply mode has the outcome `ApplySegments` states for the file's scan |
| Templating.Rewrite | src/templating.ts:61 | one file's `content.replace(...)` adds to `tokens` only names that the file's placeholders mention and whose value is absent or empty |
| Templating.OutputMayHoldPlaceholders | src/templating.ts:61 | the apply output can contain a placeholder for a name the value map resolves, because substitution is a single pass |
| TemplatePass.Read | src/templating.ts:60 | a read succeeds exactly for a path that holds a readable file, and then returns its content |
| TemplatePass.Outcome | src/templating.ts:71-76 | the call fails exactly when some error was recorded, and then carries every recorded error, in order; otherwise it returns the discovered names |
| TemplatePass.Step | src/templating.ts:58-68 | one iteration keeps the set of paths, writes nothing in dry run, only adds to `tokens`, and keeps the earlier errors while adding at most one, which names its own path |
| TemplatePass.StepFrame | src/templating.ts:58-68 | one iteration changes at most the entry of its own path |
| TemplatePass.StepErrors | src/templating.ts:58-68 | one iteration adds exactly the error its path fails with, if any, after the earlier ones |
| TemplatePass.Pass | src/templating.ts:56-69 | the loop over the enumerated paths keeps the set of paths on the disk and records at most one error per path |
| TemplatePass.PassFrame | src/templating.ts:58-69 | the loop touches only enumerated paths, and every recorded error names one of them |
| TemplatePass.DryRunWritesNothing | src/templating.ts:63-65 | a dry run leaves the disk unchanged |
| TemplatePass.PassFiles | src/templating.ts:58-65 | the pass writes exactly the enumerated paths whose rewrite completes, each with its rewritten text, and only in apply mode; every other entry, and the set of paths, stays as it was |
| TemplatePass.PassErrors | src/templating.ts:56-69 | every enumerated path is attempted whatever happened before it: the recorded errors are one per failing path, in enumeration order |
| TemplatePass.DryRunFailsOnlyOnReads | src/templating.ts:31-34 | in dry run the only recorded errors are failed reads |
| TemplatePass.DryRunTokens | src/templating.ts:13-21 | a dry run discovers exactly the names that a placeholder in some readable file mentions and the value map leaves absent or empty |
| TemplatePass.ApplySucceedsEmpty | src/templating.ts:20-23 | in apply mode a call that returns normally returns the empty set, since every discovered name comes with a thrown error |
| TemplatePass.ApplyComplete | src/templating.ts:39-44 | applying a value map that resolves every placeholder to readable files succeeds with the empty set and writes each file with every placeholder substituted |
| TemplatePass.FileSystem.ReadFile | src/templating.ts:60 | reading the disk is `Read` on its current content |
| TemplatePass.FileSystem.WriteFile | src/templating.ts:64 | writing replaces the entry of that one path with the new content and changes nothing else |
| TemplatePass.ProcessFile | src/templating.ts:59-68 | the loop body for one path leaves the disk, `tokens` and `errors` as `Step` describes |
| TemplatePass.ReplaceTokens | src/templating.ts:56-76 | the file loop leaves the disk, and returns the result, that `Pass` describes for the enumerated paths |
| Git.Kind | src/git.ts:22 | the type alternation yields `fetch` or `push` only when `(fetch)` or `(push)` follows, and nothing otherwise |
| Git.RemoteAt | src/git.ts:22 | a remote match found at a position has non-empty name, gaps and url, the type `fetch` or `push`, and fits in the text |
| Git.RemoteAtSound | src/git.ts:22 | what the remote matcher finds at a position is a well-formed match: non-empty name and url without whitespace, separated and followed by whitespace, then `(fetch)` or `(push)` |
| Git.RemoteAtComplete | src/git.ts:22 | any well-formed remote match at a position is exactly what the matcher finds there |
| Git.LineRemote | src/git.ts:25-34 | a line yields at most one remote, whose name and url are non-empty and hold no whitespace |
| Git.LineRemoteLeftmost | src/git.ts:26-33 | a line yields the name and url of its leftmost match when that match's type is `fetch`, and nothing when it is `push` |
| Git.LineRemoteNoMatch | src/git.ts:26-33 | a line the pattern matches nowhere yields nothing |
| Git.FilterPresent | src/git.ts:35 | the filter keeps only present entries, never more than it was given |
| Git.FilterPresentAppend | src/git.ts:35 | the filter works entry by entry, in order |
| Git.RemotesOf | src/git.ts:23-35 | every remote returned comes from some line of the output |
| Git.GetRemotes | src/git.ts:20-38 | every returned name and url is non-empty and holds no whitespace, and each remote comes from some line of the output |
| Git.RemotesOfAppend | src/git.ts:23-35 | the remotes of consecutive lines are the concatenation of their remotes: line order is kept and nothing is deduplicated |
| Git.MappedAppend | src/git.ts:25-34 | the `map` over the lines works line by line: mapping consecutive lines gives the concatenation of their results |
| Git.RemotesOfLine | src/git.ts:25-35 | one line contributes exactly its own remote, or nothing |
| Git.GetRemotesTrailingNewline | src/git.ts:23-35 | the empty line left by the output's trailing newline contributes nothing |
| Git.StatusAt | src/git.ts:49 | a status found at a position is a non-empty prefix of the text that leaves at least one character after it |
| Git.StatusAtSound | src/git.ts:49 | what the status matcher reports is the `status` group of a match of `(\S+)\s+(.+)` at that position |
| Git.StatusAtComplete | src/git.ts:49 | every match of the status pattern at a position has the status the matcher reports |
| Git.LineStatus | src/git.ts:55-57 | a status found in a line is non-empty and holds no whitespace |
| Git.LineStatusLeftmost | src/git.ts:55-57 | a line's status is the status group of its leftmost match |
| Git.LineStatusNoMatch | src/git.ts:55-56 | a line the pattern matches nowhere has no status |
| Git.GetStatus | src/git.ts:44-71 | `untracked` holds exactly when some line's status is `??`, and `modified` exactly when some line has another status; the early `break` does not change either |
| Git.FlagsStep | src/git.ts:54-63 | one more line sets a flag exactly when the flag was already set or that line's status sets it |
| Git.FlagsStay | src/git.ts:65-67 | a flag set by some prefix of the lines is set by all of them, so breaking once both are set is safe |
| Git.StatusNoMatches | src/git.ts:51-52 | output in which no line matches sets neither flag |
| Git.EmptyStatus | src/git.ts:70 | empty output, as from a clean working tree, gives `modified` and `untracked` both false |

## Left out

- The glob enumeration (`globIterate`, `resolve` and the include/ignore patterns,
  `src/templating.ts:48-54`) comes from a foreign library. The model takes the enumerated
  paths as an input sequence. The properties about written files assume the paths are
  distinct (`Distinct`), as a glob yields each file once.
- `writeFile` is taken never to fail; a failing write is not modelled.
- Reads follow the disk map. A path missing from the map fails with Node's `ENOENT`
  message. Other read failures carry their reason as given. Encodings, UTF-8 decoding and
  the `async` sequencing are not modelled.
- The concrete transforms of `@luca/cases` are foreign code. They are an abstract registry
  from style name to a string function, and no concrete output is stated. A transform
  that throws is not modelled.
- The `console.error` warning for an unknown case style in dry run is logging only.
- `tokensMap[token]` is a map lookup. A name such as `constructor`, which JavaScript would
  find on `Object.prototype`, is not modelled.
- Strings are sequences of Unicode characters, whereas JavaScript strings are UTF-16 code
  units. This can matter only for characters outside the Basic Multilingual Plane.
- `ReplaceTokens` returns the list of recorded errors instead of throwing.
  `Templating.BatchMessage` gives the text of the thrown message.
- In apply mode a missing name is added to `tokens` before the throw. The model records
  it, but no caller can observe it, because a call that records an error always fails.
- `execCommand`, `addRemote` and `fetchAndMergeBranch` (`src/git.ts:6-13, 40-42, 73-79`) run
  git. The parsers take the command's standard output as a parameter.
- `src/index.ts` is an interactive prompt with no logic of its own.
