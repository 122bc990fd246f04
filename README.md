# httphelper: final-URL resolution, result assembly and output text

httphelper reads a list of URLs, issues one GET per URL and records the URL each one
finally leads to. A 200 response yields the URL the HTTP client ended on after following
redirects. A 403 page that redirects from script with `window.location.replace('…')`
yields the input URL followed by the quoted path. Everything else yields nothing. The
non-empty results are sorted, made distinct and written one per line, or `NA` when
there are none.

This project models the in-memory logic of `main.go` in Dafny:

- `Redirect` (redirect.dfy): the decision `getFinalURL` makes once the response has
  arrived. The HTTP exchange is a parameter: either the transport failed, or a response
  arrived with a status, a body that could or could not be read, and the final request
  URL. The regular expression `window.location.replace\(\'(.*)\'\)` is modelled by a
  concrete leftmost-first search (`FindFrom`). `FindFromSpec` proves it against a
  declarative description of the pattern's matches: each unescaped dot matches any
  character except a newline, the group never crosses a newline, the earliest start
  wins, and from that start the longest group wins, which ends at the last `')` on the
  line. A call ends in one of three ways: it returns `(finalUrl, err)`, it stops the
  process through `log.Fatalf` when a 403 body cannot be read, or it panics. The panic
  happens on a 403 body that contains the exact literal `window.location.replace` but
  where the pattern matches nowhere, because the nil match is indexed (main.go:113-114).
  The model reports this as `PanicNilMatch`, not as an empty result.
- `Results` (results.dfy): the collection loop of `main` as a method with a loop. The
  global slice `furls` becomes a local sequence. Then `sort.Sort`, done by insertion on
  an array with swaps, and `set.Uniq`, a compaction loop that swaps the first copy of
  each distinct string to the front. The slice is then cut to the distinct prefix.
- `Output` (output.dfy): the text `writeResultsToCsv` writes, and a reader that recovers
  the list from it.
- `Pipeline` (pipeline.dfy): the run of `main` from the resolved list to the output
  text.
- `Lex` (lex.dfy): Go's `<` on strings, the order `sort.StringSlice` sorts by, with its
  order laws. `Text` (text.dfy): where a line ends.

Strings are `seq<char>`. Go compares strings byte by byte. For valid UTF-8 this is the
same as comparing code points in order, which is what `Lex.Below` does.

## Model

| member | source | states |
|---|---|---|
| `Redirect.GetFinalUrl` | main.go:90-122 | A returned call never carries an error. A transport failure gives `""`. Status 200 gives the final request URL. Any status other than 200 and 403 gives `""`. The process stops on body-read failure exactly for an unreadable 403 body. A panic happens only on a 403 response. |
| `Redirect.ForbiddenWithoutLiteral` | main.go:101-115 | A readable 403 body without the exact literal `window.location.replace` gives `""`, even when the looser pattern would match. |
| `Redirect.ForbiddenPanics` | main.go:110-114 | On a readable 403 body, the call panics if and only if the literal is present and the pattern matches at no position. |
| `Redirect.ForbiddenResolves` | main.go:110-114 | With the literal present and some match, the call returns the input URL followed by the group of the leftmost-first match. The input URL is a prefix of the result, and the appended part holds no newline. |
| `Redirect.QuotedReplaceResolves` | main.go:110-114 | A 403 body that is exactly `window.location.replace('p')`, with no newline in `p`, resolves to the input URL followed by `p`. |
| `Redirect.QuotedReplaceMatch` | main.go:112-113 | In the body `window.location.replace('p')`, with no newline in `p`, the first match covers the whole body. |
| `Redirect.UnquotedReplacePanics` | main.go:110-114 | A 403 body with the literal but no single quote anywhere, for example a double-quoted argument, makes the call panic. |
| `Redirect.ContainsSubstring` | main.go:110 | `Contains`, the model of `strings.Contains`, holds if and only if the text splits into some prefix, the literal and some suffix. |
| `Redirect.FindSubmatchSpec` | main.go:112-113 | `FindSubmatch`, the model of `FindStringSubmatch(...)` followed by `match[1]`, is nil exactly when the pattern matches at no position. Otherwise it is the group of the leftmost-first match, and that group holds no newline. |
| `Redirect.FindFrom` | main.go:112-113 | The search returns only real matches of the pattern, starting at or after the given position. |
| `Redirect.FindFromSpec` | main.go:112-113 | The search returns the leftmost-first match: no match starts earlier, and none from the same start has a longer group. It returns nothing exactly when no match exists. |
| `Redirect.HeadMatchSpec` | main.go:112 | Where the fixed head matches, the last `')` on the same line ends the longest match from there. With no such `')`, no match starts there. |
| `Redirect.MatchWithinLine` | main.go:112 | A match ends before the first newline after its head, because `.*` does not cross a newline. |
| `Redirect.LastClose` | main.go:112 | Finds the last `')` in a range, or reports that there is none. |
| `Redirect.LeftmostFirstUnique` | main.go:112-113 | At most one match is the leftmost-first one, so the submatch found is well defined. |
| `Redirect.Capture` | main.go:113-114 | The captured group never contains a newline. |
| `Text.LineEnd` | main.go:112 | Returns the first newline at or after a position, or the end of the text. |
| `Results.Collect` | main.go:163-172 | The loop completes exactly when every call returns. It then holds the non-empty final URLs in input order (`Kept` of the per-URL results). Otherwise it stops at the first URL whose call does not return, with that outcome. The `log.Fatalf` on a returned error is unreachable. |
| `Results.Kept` | main.go:168-171 | The kept list holds no empty string and is no longer than its input. |
| `Results.KeptAppend` | main.go:163-172 | Keeping distributes over concatenation, so the input order is preserved. |
| `Results.KeptCounts` | main.go:168-171 | Each non-empty result is kept exactly as often as it occurs. The empty string never is. |
| `Results.KeptMembers` | main.go:168-171 | A string is kept if and only if it is a non-empty result. |
| `Results.FinalUrls` | main.go:163-164 | Gives one final URL per input URL. |
| `Results.Swap` | main.go:175-176 | Exchanges two entries, leaves the others alone, and keeps the same multiset. |
| `Results.SortStrings` | main.go:174-175 | Afterwards the array is ascending under Go's string order and is a permutation of its old contents. |
| `Results.NotBelowTransitive` | main.go:175 | "Not greater than" on strings is transitive. |
| `Results.Uniq` | main.go:176 | On sorted input, the returned prefix is strictly ascending and holds exactly the strings of the input. The whole array stays a permutation of the input. |
| `Results.SortAndUniq` | main.go:174-177 | The truncated slice is strictly ascending. It holds exactly the strings collected, and it is no longer than the collected list. |
| `Lex.BelowProperPrefix` | main.go:175 | Under `Below`, the model of Go's `<` on strings that `sort.StringSlice.Less` uses, a proper prefix comes before the longer string. |
| `Lex.BelowIffDiffers` | main.go:175 | `Below`, the recursive string order, equals the first-difference definition: a proper prefix, or a smaller character at the first difference. |
| `Lex.BelowIrreflexive` | main.go:175 | No string is below itself. |
| `Lex.BelowAsymmetric` | main.go:175 | If `a < b` then not `b < a`. |
| `Lex.BelowTransitive` | main.go:175 | The string order is transitive. |
| `Lex.BelowTotal` | main.go:175 | Two distinct strings are always ordered one way or the other. |
| `Lex.AdjacentGivesStrict` | main.go:176 | A list that rises strictly at every step is strictly ascending. |
| `Lex.StrictHasNoDuplicates` | main.go:176-177 | A strictly ascending list has no repeated entry. |
| `Lex.SortedUnique` | main.go:174-175 | Two sorted lists with the same multiset are equal. Any correct sort leaves the same result as `sort.Sort`. |
| `Lex.AscendingUnique` | main.go:174-177 | Two strictly ascending lists with the same elements are equal. The deduplicated result depends only on the set of collected URLs. |
| `Output.Lines` | main.go:132-135 | The text for a non-empty list ends with a newline. |
| `Output.CsvText` | main.go:132-138 | The text is exactly `NA` if and only if the list is empty. Otherwise it ends with a newline. |
| `Output.SplitFirstLine` | main.go:133-134 | The first line read back is the first entry written, when that entry has no newline. |
| `Output.SplitLinesOfLines` | main.go:133-135 | Splitting the written lines at newlines gives back the list, when no entry holds a newline. |
| `Output.ReadResultsRoundTrip` | main.go:132-138 | Reading the output text back gives the list that was written, `NA` standing for the empty list. |
| `Output.CsvTextInjective` | main.go:132-138 | Different newline-free result lists produce different output texts. |
| `Pipeline.AscendingCount` | main.go:176-177 | A strictly ascending list has as many entries as distinct elements. |
| `Pipeline.FinalUrlNoNewline` | main.go:90-122 | A final URL holds a newline only if the input URL or the final request URL holds one. |
| `Pipeline.RunAll` | main.go:163-180 | If every call returns, the result list is strictly ascending. It holds exactly the distinct non-empty final URLs, one entry each, and the text is `CsvText` of it. The text is `NA` exactly when every final URL is empty. When no input URL or request URL holds a newline, reading the text back gives the result list. If some call does not return, the run stops at the first such URL, with that outcome. |

## Left out

- The HTTP client, its transport, TLS settings, timeouts and redirect following (main.go:94, 146-151), and the deferred `resp.Body.Close()` (main.go:99), which the `log.Fatalf` at main.go:105 skips because it exits the process without running deferred calls: these are network I/O. A response is given as status, body and final request URL, and the k-th exchange of a run as `fetches[k]`.
- Logging (`log.Infof`, `log.Info`, `fmt.Printf`, `fmt.Println`): output only.
- Process exit through `log.Fatalf` and the runtime panic: each is an outcome value (`FatalBodyRead`, `PanicNilMatch`, `Pipeline.Exited`) rather than a termination.
- `loadConfig` and its flags (main.go:32-43): configuration I/O.
- `exists` and `ensureFilePathExists` (main.go:45-73): a busy-poll over `os.Stat`, filesystem I/O with no bounded behaviour to state.
- `readLines` (main.go:75-88): the line splitting is `bufio.Scanner` library behaviour and the open is I/O. The input list is a parameter of `Pipeline.RunAll`.
- Creating, writing and closing the output file in `writeResultsToCsv` (main.go:124-131, 139) and its error path at main.go:180-183. Only the text written is modelled.
- A general regular-expression engine: only the one fixed pattern at main.go:112 is modelled. Go matches on UTF-8 runes and reads an invalid byte as U+FFFD; strings here are sequences of characters, so invalid UTF-8 is not modelled.
- Results.SortStrings: `sort.Sort` runs pattern-defeating quicksort, not insertion sort. A sorted permutation is unique (`Lex.SortedUnique`), so the result is the same, but the order of swaps in between is not.
- Results.Uniq: github.com/xtgo/set is not part of this model. Its `Uniq` is modelled after that package's algorithm: compare with `Less(p, i)` and swap forward. It requires sorted input, which is what `main` provides.
- `sort.StringSlice(furls)` shares the backing array of `furls`, so the Go code also reorders `furls`. `Results.SortAndUniq` copies into a fresh array instead, because `furls` is not read again.
