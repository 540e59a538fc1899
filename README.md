# deadlinks: the link-verification engine of `scan`

deadlinks scans a tree of HTML documents and reports every `href`, `src`
or `action` that cannot be resolved. This project models the engine inside
`scan` and proves what it guarantees.

For each link-bearing element (`<a>`, `<form>`, `<img>`,
`<link rel="stylesheet">`, `<script>`, `<style>`), `scan` takes one
reference. It skips the reference if it is empty, the bare `#`, already in
the cache, or on the sorted ignore list. Otherwise it decides the
reference's fate once and stores the outcome in a cache map:

- `http`/`https` references get a HEAD request, judged by a status
  allow-list.
- `mailto` and `tel` references are alive.
- A reference with a path is looked up on disk, with an `index.html`
  fallback.
- A reference that is only a fragment is looked up among the `id`s of its
  own document.
- Anything else is dead.

At the end `scan` lists the cache keys whose outcome is dead, in sorted
order.

Modules, one per file:

- `Options` (options.dfy): the optional-value datatype.
- `Sorting` (sorting.dfy): Go's order on strings. `sort.SearchStrings` is
  the same bisection loop as in Go, proved against plain membership.
  `sort.Strings` is modelled on sequences. This module also proves that a
  strictly sorted listing of a set is unique.
- `Html` (html.dfy): a document as its elements in document order. It has
  `html.Attr`, the link matcher, `html.FindAll`, and `html.Find` with an
  `id` matcher.
- `Verdict` (verdict.dfy): the outcome for one new href:
  - parse errors;
  - the dispatch precedence (`Classify`);
  - the HTTP allow-list, as a table (`Exemptions`) proved equal to the
    source's chain of tests;
  - path resolution and the `index.html` fallback;
  - fragment matching;
  - the two error paths as the source writes them.
- `Scan` (scan.dfy): the loop over roots, documents and elements, updating
  a local cache map (`Examine`, `ScanElements`, `ScanDocuments`, `Scan`), and the
  collection of dead keys (`CollectDead`). Each layer is proved equal to
  `Run`, a fold of `Step` over the references the walk meets. The lemmas
  about `Run` state at-most-once, ignore exclusion, first-occurrence
  verdicts and the exact dead-link set.

The outside world enters as the fields of `Verdict.Env`, all total
functions: `url.Parse`, `url.QueryUnescape`, whether
`http.NewRequestWithContext` succeeds, the host of the request it builds
(`req.URL.Host`), the HEAD response, `os.Stat`, `filepath.Join` and
`filepath.Dir`.

Points where main.go's behaviour may surprise, and where the model follows
main.go:

- A relative path or a bare `#fragment` is cached under its raw href. It is
  therefore judged only in the first document that contains it: the same
  `#top` or `../x.html` in a later document, where it would resolve
  differently, reuses that first outcome (`Scan.RunFirstOccurrence`,
  `Scan.DeadLinkIff`).
- There is no retry. The code makes one HEAD request, although main_test.go
  passes a retry count and main.go:168,170 leave retries as TODOs.
- Any scheme other than `http`, `https`, `mailto` and `tel` still goes to
  the filesystem check when its path is non-empty. For example, `ftp://h/x`
  is looked up as `/x`. The dispatch does not require an empty scheme.
- The unescaped fragment is offered as a second `id` even when it equals
  the escaped one. This makes no difference to the outcome.
- After `http.NewRequestWithContext` fails, main.go:158-161 records the
  href but does not stop, and then calls `req.Header.Set` on a nil
  request. The model (`Verify`) records `Dead(BadRequest)` and stops.
  `VerifyAsWritten` and `BadRequestPanics` state the code's behaviour. No
  concrete href is known for which the request construction fails here,
  so this is not listed as a finding.

## Model

| member | source | states |
|---|---|---|
| `Sorting.LessIsLexicographic` | main.go:141 | The order `sort.SearchStrings` and `sort.Strings` use is Go's `<` on strings: `a` comes first exactly when the two agree up to some position where `a` ends while `b` goes on, or `a` has the smaller character. |
| `Sorting.SearchStrings` | main.go:141 | On a sorted list, returns the lower bound of the href: every element before it is smaller, none from it on is. |
| `Sorting.Contains` | main.go:141 | On a sorted list, the search-then-compare test is true exactly when the href is in the list. |
| `Sorting.SortStrings` | main.go:228 | `sort.Strings` returns an ascending permutation of its input. |
| `Sorting.SortedDistinctStrict` | main.go:220-228 | Sorting a list without repeats gives a strictly increasing list. |
| `Sorting.StrictlySortedUnique` | main.go:220-228 | Two strictly sorted lists with the same elements are equal, so the output does not depend on the order the cache map is walked in. |
| `Sorting.FixtureListSorted` | main_test.go:11-20 | The test's expected dead-link list is strictly increasing in Go's string order. |
| `Html.FindAll` | main.go:118-125 | The matched elements are exactly the document's `a`, `form`, `img`, `script`, `style` and `link rel="stylesheet"` elements. |
| `Html.FindId` | main.go:206 | Returns the first element whose `id` is one of the wanted values, or None exactly when no element has one. |
| `Scan.ChooseReference` | main.go:126-132 | The tested reference is `href` if non-empty, else `src`, else `action`. It is empty exactly when all three are. |
| `Verdict.ExemptCases` | main.go:164-176 | The allow-list table exempts a code exactly in these cases: 403, 405, 429 from `github.com`, or 520 from `twitter.com`. |
| `Verdict.HttpOutcome` | main.go:162-179 | A response is alive exactly when its status is below 400 or exempted for its host. Any other status is dead with that code, and a transport error is dead. |
| `Verdict.WebVerdict` | main.go:153-179 | An http(s) href is alive exactly when its request can be built and the response status is < 400, 403, 405, 429 with request host `github.com`, or 520 with request host `twitter.com`. |
| `Verdict.ExemptionUsesRequestHost` | main.go:157-172 | A 429 is forgiven when the built request's host (`req.URL.Host`) is `github.com`, whatever host the href itself parsed to (such as `github.com:` with an empty port). |
| `Verdict.Classify` | main.go:153-214 | Dispatch precedence: http/https first, then mailto/tel, then a non-empty path, then a non-empty escaped fragment, else nothing. The probe target has its fragment cleared. |
| `Verdict.PathShadowsFragment` | main.go:188-201 | A reference with both a path and a fragment is checked only as a path. |
| `Verdict.ResolvePath` | main.go:189-192 | A path starting with `/` is used as is. Any other path is joined to the referring document's directory. |
| `Verdict.PathOutcome` | main.go:188-199 | Alive exactly when `root/path`, or else `root/path/index.html`, exists and is not a directory. Otherwise dead, "not found in document root". |
| `Verdict.RootedPathIgnoresDir` | main.go:189-193 | A root-relative path gets the same verdict whichever directory the referring document is in. |
| `Verdict.DirectoryIndexFallback` | main.go:195-196 | A directory link whose `index.html` is a file is alive. |
| `Verdict.FragmentIds` | main.go:202-205 | The accepted ids are the escaped fragment and, when `QueryUnescape` succeeds, its unescaped form, and nothing else. |
| `Verdict.FragmentOutcome` | main.go:201-210 | Alive exactly when some element of the referring document has an `id` equal to the fragment or its unescaped form. |
| `Verdict.Perform` | main.go:153-214 | Each dispatch case runs its own check: a failed request build is dead, a response is judged against the request's host, mailto/tel are alive, and no strategy means dead, "unclear how to test". |
| `Verdict.Verify` | main.go:148-214 | An href that fails to parse is recorded dead. Otherwise the outcome is that of the check its parsed URL is dispatched to. |
| `Verdict.UnverifiedSchemesAlive` | main.go:182-186 | mailto: and tel: references are alive in every context. |
| `Verdict.VerifyAsWritten` | main.go:148-161 | The code as written dereferences nil exactly when `url.Parse` fails, or when the request for an http(s) URL cannot be built. |
| `Verdict.MalformedHrefPanics` | main.go:148-153 | On an href `url.Parse` rejects, the code as written panics, while the corrected model records it dead. |
| `Verdict.BadRequestPanics` | main.go:157-161 | On an http(s) href whose request cannot be built, the code as written panics, while the corrected model records it dead. |
| `Verdict.AsWrittenAgreesOtherwise` | main.go:148-214 | When neither error path is taken, the code as written and the corrected model reach the same outcome. This holds by construction: both run the one dispatch of main.go:153-214. |
| `Scan.ElementRefs` | main.go:118-125 | One reference per matched element, in document order, each the element's chosen reference in the document's context. |
| `Scan.DocumentRefsCover` | main.go:111-125 | Within one root, every reference met comes from a link element of one of its documents, in that document's context (the root, `filepath.Dir` of its path, its elements), and every link element of every document gives one. |
| `Scan.ListRefsCover` | main.go:110-125 | The same over every root: the walk misses no link element and invents no reference. |
| `Scan.Run` | main.go:110-217 | The cache after the walk, with every reference put through `Step` in walk order. It only grows, and by at most one entry per reference. |
| `Scan.CallsAreNewKeys` | main.go:137-148 | The hrefs handed to the verifier are free of repeats, and they are exactly the keys the walk adds to the cache. |
| `Scan.Step` | main.go:133-146 | One reference never changes an existing entry. It adds its own key exactly when it is testable (not "" or "#") and not ignored, and a new entry holds its verdict. |
| `Scan.RunKeepsEntries` | main.go:137-139 | At most once: once an href is cached, its outcome is never replaced, however many elements or documents repeat it. |
| `Scan.RunKeys` | main.go:133-146 | The cache keys are exactly the testable, non-ignored hrefs the scan met, plus any starting keys. |
| `Scan.RunFirstOccurrence` | main.go:137-214 | Each cached href holds the verdict of its first occurrence, judged in the context of that occurrence's document. |
| `Scan.IgnoreMore` | main.go:141-146 | Ignoring more hrefs only removes their entries. Every other entry and outcome stays the same. |
| `Scan.IgnoredNeverCached` | main.go:141-146 | An ignored href never enters the cache, so it is never reported. |
| `Scan.IgnoringEveryDeadLink` | main_test.go:44-55 | Adding every dead href to the ignore list makes the scan report nothing. |
| `Scan.DeadLinkIff` | main.go:108-228 | An href is reported exactly when it is testable, not ignored, and its first occurrence fails its check. |
| `Scan.CollectDead` | main.go:220-228 | The result is strictly increasing and holds exactly the cache keys whose outcome is dead. |
| `Scan.Examine` | main.go:133-214 | One reference leaves the cache exactly as `Step` says. The log gains this href exactly when it is testable, uncached and not found in the ignore list by the binary search, and is unchanged otherwise. |
| `Scan.ScanElements` | main.go:118-216 | Walking one document's matched elements leaves the cache equal to `Run` over their references, and extends the log by exactly their `Calls`. |
| `Scan.ScanDocuments` | main.go:111-217 | The same for every document under one root, each in its own context (root, `filepath.Dir` of its path, its elements). |
| `Scan.Scan` | main.go:108-230 | The result is the strictly sorted set of dead keys of `Run` over every reference of every document. The log of verified hrefs is exactly `Calls` of the walk: free of repeats, and exactly the cache keys. |

## Left out

- Command line, ignore-file reading, exit codes and logging (main.go:23-106, 112-114, 142-144, 222-224): flag parsing, file I/O, `os.Exit` and log output have no effect on the outcomes. The ignore list arrives already sorted, as main.go:58 leaves it.
- HTTP transport (main.go:154-162): the deadline context, the User-Agent header and `http.DefaultClient.Do` are network I/O. `Env.head` returns a status code or a transport error for the parsed URL with its fragment cleared, which keeps the scheme, user information, host, path and raw query that `u.String()` sends. `Env.requestOk` says whether the request could be built, and `Env.requestHost` gives `req.URL.Host` of the built request; the empty-port removal `http.NewRequestWithContext` does is inside that oracle.
- Filesystem: `os.Stat` is `Env.stat`, which returns missing or present with a directory flag.
- `filepath.Join` and `filepath.Dir` are the abstract `Env.join` and `Env.dir`. Their lexical cleaning of `..` and `.` is not modelled; the model only records which paths go through the join.
- HTML parsing: a document arrives as its elements in document order. A parse failure, which ends the process through `must2`, is not modelled. The tree structure is flattened. `html.Match` is taken to match on tag name plus equality of each attribute the pattern carries.
- `url.Parse` and `url.QueryUnescape` are the abstract `Env.parse` and `Env.unescape`. A parsed URL keeps its scheme, scheme-specific part, user information, host, path, raw query and escaped fragment. It does not keep `RawPath` or `ForceQuery`, so two http(s) URLs that differ only in how their path is escaped, or in a trailing bare `?`, get one and the same response from `Env.head`.
- Diagnostic texts (`fmt.Errorf`) are replaced by the tags of `Verdict.Reason`.
- `Sorting.Less`: strings are sequences of Unicode scalar values. For valid UTF-8 this order is Go's byte order. A Go string holding invalid UTF-8, such as a raw byte in an ignore-file line, has no counterpart here.
- `Sorting.SortStrings` returns a new sequence, where `sort.Strings` sorts the slice in place.
- Go's random map iteration order in main.go:220 is a nondeterministic choice in `Scan.CollectDead`.
- The panics of the two error paths are results of `Verdict.VerifyAsWritten`. `Scan.Scan` uses the corrected `Verdict.Verify`, so the model does not show the process stopping part-way through a scan.
- `verified` in `Scan.Scan` is a ghost log of verifier calls, added to state at-most-once. The source has nothing like it. `Scan.Calls` says what it holds: in walk order, each admitted href that is not cached when it is met.
- main_test.go does not match main.go's signatures (it passes a retry count and reads `d.href`). Only its expected fixture list is used. The fixture documents themselves are not part of this model, so the eight-link outcome of `TestScan` is not derived.

## Findings

| source | as written | input that shows it | evidently intended | confidence | as-written member | corrected member |
|---|---|---|---|---|---|---|
| main.go:148-153 | After `url.Parse` fails, the code stores a dead entry but does not `continue`. It then reads `u.Scheme` through the nil `u` and panics. | `<a href=":">`: `url.Parse(":")` fails with "missing protocol scheme" | Record the href as dead and go on with the next element | high; not executed | `Verdict.MalformedHrefPanics` | `Verdict.Verify` |
