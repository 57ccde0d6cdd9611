# llm-code-scorer, modelled in Dafny

llm-code-scorer rates a public GitHub repository. The `/get-score` endpoint
takes a repository URL and checks that it names a GitHub repository. It
clones the repository through a mirror and builds a text digest of the
checkout. The digest holds the README, LICENSE and .gitignore, the commit
subjects, excerpts of up to ten sampled source files, the test and binary file
listings, the size and the number of files. The digest goes to a language
model together with a fixed prompt. The code strips the fence from the model's
reply and parses it as JSON. It averages the per-category scores and picks a
canned comment for the rounded mean. The answer holds the mean, the comment,
the category details and the model's description.

The project models that pipeline:

- `FileClassifier` (file_classifier.dfy): the extension allowlist and the
  null-byte sniff.
- `RepoSummary` (repo_summary.dfy): the walk, sample, excerpt, listing and
  layout steps of `generate_repo_summary`. These are methods with loops,
  proved against specification functions.
- `Locator` (locator.dfy): the URL check as a character-class recogniser,
  and the mirror rewrite.
- `Reply` (reply.dfy): the two-step `strip` of the reply.
- `Scorer` (scorer.dfy): `AICodeScorer.run`.
- `JsonValues` (json.dfy): the decoded JSON values.
- `ScoreService` (score_service.dfy): the `/get-score` handler, as a
  function returning a response.
- `Sequences`, `Strings` and `Wrappers`: the Python list and string
  operations the code relies on, with Python's meaning. `in` is a substring
  test, `strip(chars)` strips a character set, `replace` replaces every
  occurrence, and `str(n)` renders a decimal number.

Some things become parameters:

- The checkout (`clone`).
- The model (`evaluate`).
- `json.loads` (`parse`).
- The draws of `random.sample` (distinct indices) and `random.choice` (a
  number reduced modulo the pool size).
- The prompt text.
- The `du` size text.

The model follows the code as written, including these behaviours:

- Scores are used as they come, without a range check, and the rounded mean
  is used as a bucket key as it is. A mean outside [-1/2, 21/2] finds no comment bucket, and the
  handler answers 500 (`ScoreService.ScoredIffMeanInBuckets`).
- The fence strip is `strip` with character sets: it drops every backtick,
  then every j, s, o and n, at either end, a body's own leading or trailing
  letters among them.
  The two-step strip is not idempotent (`Reply.CleanReplyNotIdempotent`),
  although each single strip is (`Strings.StripIdempotent`).
- An invalid URL fails an `assert` inside `run`. The handler answers it with
  the same 500 as any other failure. The model shows this in two halves,
  because `ScoreService.Respond` takes the scorer as an abstract parameter that
  nothing ties to `Scorer.Run`: `Scorer.Run` gives no result for an invalid URL,
  and `ScoreService.ScorerFailureIsInternalError` answers a scorer that gives no
  result with the 500.
- Line 16 of the allowlist writes `".hpp" ".go"`. Python joins the two
  literals into the single entry `".hpp.go"`, so `.go` files are not source
  files (`FileClassifier.GoFilesAreNotSourceCode`).
- The test listing has no `.git` filter, unlike the binary and total listings
  (`RepoSummary.TestFilesNotWithinCounted`).

## Model

| member | source | states |
|---|---|---|
| FileClassifier.IsSourceCodeFile | src/ai_code_scorer.py:197-198 | a name is a source file iff `any` of the allowlist entries, tried in list order, is a suffix of it |
| FileClassifier.IsBinaryFile | src/ai_code_scorer.py:201-206 | a file is binary iff a null byte is among its first min(1024, length) bytes; the rest of the content is never read |
| FileClassifier.EndsWithAnyIff | src/ai_code_scorer.py:197-198 | `any(name.endswith(ext) ...)`, as used here, holds exactly when some listed extension is a suffix of the name |
| FileClassifier.IsSourceCodeFileIff | src/ai_code_scorer.py:197-198 | a name is a source file iff one of the allowlist entries ends it |
| FileClassifier.EndsWithAnyAppend | src/ai_code_scorer.py:10-62 | matching a concatenated allowlist is matching either part |
| FileClassifier.IsSourceCodeFileByParts | src/ai_code_scorer.py:10-62 | the allowlist is the five leading entries, the joined entry ".hpp.go" (line 16), and the remaining entries |
| FileClassifier.NoMatchWhenLastCharDiffers | src/ai_code_scorer.py:197-198 | no entry matches a name whose last character ends no entry |
| FileClassifier.GoFilesAreNotSourceCode | src/ai_code_scorer.py:16 | a name ending in ".go" but not in ".hpp.go" is not a source file |
| FileClassifier.GoExample | src/ai_code_scorer.py:16 | "main.go" is not a source file |
| FileClassifier.JoinedEntryExample | src/ai_code_scorer.py:16 | "lib.hpp.go" is a source file |
| FileClassifier.MarkdownIsSourceCode | src/ai_code_scorer.py:59 | every name ending in ".md", README.md included, passes the allowlist |
| FileClassifier.BinarySniffIgnoresTail | src/ai_code_scorer.py:204-206 | bytes after the first 1024 never change the verdict |
| RepoSummary.IsSampleCandidate | src/ai_code_scorer.py:258-262 | a file is a sampling candidate iff its name is not exactly README.md and passes the allowlist |
| RepoSummary.IsTestFile | src/ai_code_scorer.py:280-283 | a file is a listed test iff "test" occurs in its full path and the sniff finds no null byte |
| RepoSummary.IsCounted | src/ai_code_scorer.py:301-304 | a file is counted iff ".git" occurs nowhere in its full path |
| RepoSummary.IsListedBinary | src/ai_code_scorer.py:290-295 | a file is listed as binary iff it is counted and the sniff finds a null byte |
| Sequences.Filter | src/ai_code_scorer.py:257-262 | an append-on-condition walk keeps only elements that satisfy the condition, each taken from the walk, never more than the walk |
| Sequences.FilterKeepsEverySatisfyingElement | src/ai_code_scorer.py:257-262 | every element of the walk that satisfies the condition is kept |
| Sequences.FilterAppend | src/ai_code_scorer.py:257-262 | walking two parts one after the other keeps the two results in order |
| Sequences.FilterOfFilter | src/ai_code_scorer.py:287-295 | filtering by a conjunction is filtering twice |
| RepoSummary.Sample | src/ai_code_scorer.py:264-265 | `random.sample` with the draw given: the source files at the drawn distinct positions, in the order drawn |
| RepoSummary.Block | src/ai_code_scorer.py:269-272 | one excerpt: the path marker, the first (up to) 100 lines concatenated, and a closing newline |
| RepoSummary.Excerpt | src/ai_code_scorer.py:266-274 | a sampled file adds its block, or nothing when reading it raises `UnicodeDecodeError` |
| RepoSummary.Collect | src/ai_code_scorer.py:257-262 | the nested walk loop that appends each accepted file produces exactly the filtered walk, in walk order |
| RepoSummary.CollectedExactly | src/ai_code_scorer.py:257-262 | a file is in a listing iff it is in the walk and meets the listing's condition |
| RepoSummary.BinaryFilesWithinCounted | src/ai_code_scorer.py:287-305 | the binary listing is the total listing narrowed to sniffed-binary files, so it is no longer than the file count |
| RepoSummary.IgnoreFileNotCounted | src/ai_code_scorer.py:298-305 | the `.git` substring test drops from the count every path that holds ".gitignore" |
| RepoSummary.WorkflowTestNotCounted | src/ai_code_scorer.py:277-305 | every non-binary file whose path holds ".github" and "test" is a listed test but is not counted |
| RepoSummary.TestFilesNotWithinCounted | src/ai_code_scorer.py:277-305 | the test listing need not be part of the total listing |
| RepoSummary.SampleWithoutReplacement | src/ai_code_scorer.py:264-265 | the sample has min(n, 10) entries, all from the source list, with no path twice when the walk had none twice |
| RepoSummary.BlockIgnoresLaterLines | src/ai_code_scorer.py:269-272 | lines after the hundredth never reach a file's excerpt |
| RepoSummary.BlockQuotesShortFile | src/ai_code_scorer.py:269-272 | a file of at most 100 lines is quoted whole between its path marker and a closing newline |
| RepoSummary.SnapshotContent | src/ai_code_scorer.py:266-274 | the loop over the sample builds the concatenation of the excerpts, in sample order |
| RepoSummary.SnapshotAppend | src/ai_code_scorer.py:266-274 | the code section of two runs of samples is the two sections joined |
| RepoSummary.SnapshotSkipsUndecodable | src/ai_code_scorer.py:273-274 | a file that fails to decode contributes nothing, and the files around it are still quoted |
| RepoSummary.SnapshotOfDecodable | src/ai_code_scorer.py:266-274 | the code section depends only on the sampled files that decode |
| RepoSummary.ExcerptsBounded | src/ai_code_scorer.py:264-274 | at most min(n, 10) excerpts, with distinct paths when the walk's paths are distinct |
| RepoSummary.FilterKeepsDistinctPaths | src/ai_code_scorer.py:257-262 | a listing of a walk with distinct paths has distinct paths |
| RepoSummary.Paths | src/ai_code_scorer.py:283 | a listing has one path per file |
| RepoSummary.SummaryBodies | src/ai_code_scorer.py:305-314 | the nine bodies, in order: the README, LICENSE and .gitignore texts, the commit log, the code section of the sample, the test and the binary paths each joined with "\n", the size text and str of the number of counted files |
| RepoSummary.LayoutSpelledOut | src/ai_code_scorer.py:309-314 | the digest is the nine labels in their fixed order, each followed by ":\n" and its body, the sections separated by newlines |
| RepoSummary.GenerateRepoSummary | src/ai_code_scorer.py:254-315 | the step-by-step f-string and appends produce exactly that layout of the README, LICENSE, .gitignore, log, code section, test and binary listings, size and count |
| RepoSummary.EmptyRepositorySummary | src/ai_code_scorer.py:309-314 | an empty checkout still yields every label with an empty body, and a count of 0 |
| Strings.EndsWith | src/ai_code_scorer.py:198 | `str.endswith`: the last |suffix| characters of the text are the suffix; the empty suffix ends every text |
| Strings.Contains | src/ai_code_scorer.py:281 | Python's `sub in s`: some window of the text, scanned from the left, is `sub` |
| Strings.Join | src/ai_code_scorer.py:310-312 | `sep.join(parts)`: the parts with `sep` between each pair of neighbours; "" for no parts and the part itself for one |
| Strings.Concat | src/ai_code_scorer.py:270 | `''.join(parts)`: the parts one after the other, in order, with nothing between them |
| Strings.ContainsIffOccurs | src/ai_code_scorer.py:281 | Python's `sub in s` holds iff `sub` occurs at some position of `s` |
| Strings.NatToDecimal | src/ai_code_scorer.py:314 | the rendered count is a non-empty run of digits, with a leading zero only for zero |
| Strings.DecimalRoundTrip | src/ai_code_scorer.py:314 | reading the rendered count back gives the count |
| Strings.ReplaceAll | src/ai_code_scorer.py:341-343 | Python's `replace`: every non-overlapping occurrence of the pattern, found left to right, is replaced |
| Strings.ReplaceAllWithoutOccurrence | src/ai_code_scorer.py:341-343 | `replace` leaves a text alone when it lacks a character of the pattern |
| Strings.ReplaceAllAtStart | src/ai_code_scorer.py:341-343 | a leading occurrence is replaced and the scan continues after it |
| Strings.ReplaceLeadingOnly | src/ai_code_scorer.py:341-343 | when the rest holds no occurrence, only the leading pattern is replaced |
| Strings.Strip | src/ai_code_scorer.py:369 | Python's `strip(chars)` with `chars` a set of characters: `lstrip` then `rstrip` with the same set |
| Strings.StripOccurs | src/ai_code_scorer.py:369 | `strip(chars)` leaves a contiguous piece of its input, at the position where `lstrip` stopped |
| Strings.LStrip | src/ai_code_scorer.py:369 | `lstrip(chars)` keeps a suffix of its input, everything before it is in `chars`, and its first character is not |
| Strings.RStrip | src/ai_code_scorer.py:369 | `rstrip(chars)` keeps a prefix of its input, everything after it is in `chars`, and its last character is not |
| Strings.ContainsBoth | src/ai_code_scorer.py:281 | a text holds both pieces written in it, as a workflow path holds ".github" and "test" |
| Strings.ContainsPrefixOf | src/ai_code_scorer.py:291 | a path holding a text also holds every prefix of that text, as ".git" of ".gitignore" |
| Strings.StripEdges | src/ai_code_scorer.py:369 | what `strip(chars)` leaves neither starts nor ends with a character of `chars` |
| Strings.StripCutsOnlyChars | src/ai_code_scorer.py:369 | everything `strip(chars)` cuts from either end is a character of `chars` |
| Strings.StripLeavesTrimmed | src/ai_code_scorer.py:369 | a text whose ends are outside `chars` is unchanged |
| Strings.StripIdempotent | src/ai_code_scorer.py:369 | a single `strip(chars)` is idempotent |
| Strings.StripOneEachSide | src/ai_code_scorer.py:369 | one stripped character on each side of a trimmed text goes |
| Strings.LStripSkipsPrefix | src/ai_code_scorer.py:369 | a prefix made of `chars` is dropped whole |
| Strings.RStripSkipsSuffix | src/ai_code_scorer.py:369 | a suffix made of `chars` is dropped whole |
| Locator.IsValidGithubRepo | src/ai_code_scorer.py:327-333 | the anchored pattern with `(\.git)?$`, matched greedily; AcceptedUrlShape and ShapedUrlAccepted state the language it accepts |
| Locator.NameSpan | src/ai_code_scorer.py:328 | `[a-zA-Z0-9_-]+` matches greedily: the longest run of class characters |
| Locator.AcceptedUrlShape | src/ai_code_scorer.py:324-333 | every accepted URL is the GitHub prefix, a non-empty owner, "/", a non-empty name and one of "", "\n", ".git", ".git\n" |
| Locator.ShapedUrlAccepted | src/ai_code_scorer.py:324-333 | every URL of that shape is accepted, and its owner, name and tail are recovered |
| Locator.ShapedUrlRejected | src/ai_code_scorer.py:327-333 | an owner and a name followed by a tail that starts outside the class and is not an allowed tail are rejected, whatever the owner and name |
| Locator.PlainUrlAccepted | src/ai_code_scorer.py:328 | `https://github.com/vra/flopth` is accepted |
| Locator.GitSuffixAccepted | src/ai_code_scorer.py:328 | the same URL with ".git" is accepted |
| Locator.TrailingNewlineAccepted | src/ai_code_scorer.py:328-331 | `$` also lets one trailing newline through |
| Locator.TrailingSlashRejected | src/ai_code_scorer.py:328 | a trailing "/" is rejected |
| Locator.OwnerOnlyRejected | src/ai_code_scorer.py:328 | a URL with only an owner is rejected |
| Locator.PlainHttpRejected | src/ai_code_scorer.py:328 | the http scheme is rejected |
| Locator.CloneUrl | src/ai_code_scorer.py:341-343 | the mirror URL is `replace` of every GitHub prefix in the URL by the mirror prefix |
| Locator.CloneUrlOfAccepted | src/ai_code_scorer.py:341-343 | for an accepted URL the rewrite replaces the prefix by the mirror's and keeps owner, name and tail |
| Reply.CleanReply | src/ai_code_scorer.py:369 | `strip("```")` then `strip("json")`, each with a set of characters; the Reply lemmas state what it yields |
| Reply.CleanReplyIsSubstring | src/ai_code_scorer.py:369 | the cleaned reply is a contiguous piece of the reply |
| Reply.CleanReplyEdges | src/ai_code_scorer.py:369 | the cleaned reply neither starts nor ends with j, s, o or n |
| Reply.UnfencedReplyUnchanged | src/ai_code_scorer.py:369 | a reply whose ends are neither backticks nor letters of "json" (a bare object, whitespace) passes unchanged |
| Reply.FencedReplyRoundTrip | src/ai_code_scorer.py:369 | a reply fenced with ``` and optionally tagged "json" cleans to its body when the body's ends are outside both sets |
| Reply.TaggedReplyExample | src/ai_code_scorer.py:369 | "```json\n{}\n```" cleans to "\n{}\n": whitespace is kept |
| Reply.CleanReplyNotIdempotent | src/ai_code_scorer.py:369 | cleaning "j`x`j" gives "`x`", and cleaning that again gives "x" |
| Reply.CleanReplyStable | src/ai_code_scorer.py:369 | cleaning is stable once no backtick is left at either end |
| Scorer.Run | src/ai_code_scorer.py:335-372 | an invalid URL is no result; otherwise the mirror URL is cloned, no checkout is no result, and the model's reply to prompt + "\n" + digest is cleaned and parsed |
| JsonValues.Truthy | src/flask_app.py:22-23 | `not repo_url`: null, false, 0 and empty strings, lists and objects are falsy, everything else truthy |
| JsonValues.LastIndexOf | src/flask_app.py:93 | the position found holds the key and no later member holds it; -1 only when no member does |
| JsonValues.Lookup | src/flask_app.py:93 | `d[key]` finds a member with the key, the last one, and nothing for a missing key or a non-object |
| ScoreService.CommentPoolsCoverBuckets | src/flask_app.py:27-89 | the comment table has exactly the buckets 0 to 10, none empty |
| ScoreService.RoundHalfEven | src/flask_app.py:99 | `round` gives the nearest integer, the even one on a tie |
| ScoreService.RoundHalfEvenUnique | src/flask_app.py:99 | no other integer has that property |
| ScoreService.BucketRange | src/flask_app.py:27-89 | the rounded mean is a bucket iff the mean lies in [-1/2, 21/2] |
| ScoreService.ScoreOf | src/flask_app.py:96-98 | a `分数` value `sum` accepts here is an integer, or a boolean counted as 1 or 0; anything else raises |
| ScoreService.HasUrl | src/flask_app.py:22-24 | `data.get("url")` passes `not repo_url` iff the body is an object with a `url` member whose value is truthy |
| ScoreService.ScoreList | src/flask_app.py:96 | the score list has one score per category, in order, and exists iff every category has an integer or boolean score |
| ScoreService.Sum | src/flask_app.py:98 | `sum(score_list)`: the scores added in order, 0 for no scores |
| ScoreService.SumWithinBounds | src/flask_app.py:98 | scores in [0, 10] sum to at most ten per category |
| ScoreService.Respond | src/flask_app.py:20-117 | every failure is 400 "Missing URL parameter" or 500 "Internal server error"; 400 iff the body object has no truthy url; a success is the grading of the scorer's results for that url, and a body with a truthy string url whose scorer returns results is answered with that grading |
| ScoreService.Grade | src/flask_app.py:93-113 | a failure is the 500 answer; a success carries the exact mean of all category scores, a comment from the pool of its round-half-even bucket, and the results' own detail and description |
| ScoreService.MissingUrlRejected | src/flask_app.py:22-25 | a missing or falsy url gives 400 whatever the scorer and the draw |
| ScoreService.ScorerFailureIsInternalError | src/flask_app.py:91 | a scorer that raises gives the 500 answer |
| ScoreService.ScoredIffMeanInBuckets | src/flask_app.py:96-99 | results with usable scores and a description are scored iff the mean lies in [-1/2, 21/2] |
| ScoreService.InRangeScoresAreScored | src/flask_app.py:96-99 | scores all in [0, 10] are always scored, with a mean in [0, 10] |
| ScoreService.NoCategoriesIsInternalError | src/flask_app.py:98 | an empty category object is a division by zero: the 500 answer |
| ScoreService.SixCategoryExample | src/flask_app.py:96-99 | scores 3, 10, 8, 6, 0, 10 sum to 37 and 37/6 rounds to bucket 6 |
| ScoreService.TieExamples | src/flask_app.py:99 | 5/2 rounds to 2, 7/2 to 4 and -1/2 to 0 |

## Left out

- File system and processes: `os.walk`, `open`, `git clone`, `git log`, `du` and the temporary directory are outside the model. The checkout is one `Repository` value: the files in walk order, the three top-level texts, the log text and the size text.
- `get_repo_size` is an input string, so the unreachable lines after its `return` play no part.
- Decoding: which bytes fail to decode as UTF-8 is not modelled. A file's `lines` are given, or `None` when the read of its first 100 lines raises `UnicodeDecodeError`. A decode error in README.md, LICENSE or .gitignore, or an I/O error during the sniff, would make the run raise. Those texts are given as already read.
- Scorer.Run: the `except CalledProcessError` around the clone can never fire, because `subprocess.run` is called without `check=True`. A failed clone surfaces later, when `git log` raises in the empty directory. The model represents that as `clone` returning `None`.
- The language model, its client, the `eval`-based dispatch and the prompt text are parameters. `json.loads` is an opaque partial function.
- Randomness: only membership and cardinality are stated. The draws are inputs: distinct indices for `random.sample`, a number for `random.choice`.
- Floating point: the mean is the exact rational sum/count. Float scores in the reply are not represented in `Json`. Python's float division and `round` agree with the rational rounding for the small integer scores here, but that agreement is not proved.
- ScoreService.ScoreList: it reads every member of the category object. After `json.loads`, a repeated category key would be one dictionary entry, so the handler would average fewer scores. Repeated keys are not modelled.
- ScoreService.Respond: the request body is the decoded JSON value, or `None` when it is not JSON. Flask's own handling of the content type is not modelled; every such case is an exception and so a 500.
- The comment texts are left out. A comment is its bucket and its position in the bucket's pool, and only the pool sizes are kept.
- Flask setup, CORS, the health and image routes, logging and printing are left out.
- src/app.py, the mock endpoint, is not part of this model.
