# gradio.md guide aggregator: a verified model

`gradio.md` is a one-file Node command-line tool. It downloads every markdown
guide under `guides/` in the gradio repository and writes them into a single
markdown document. Before writing, it strips each guide's frontmatter, puts
the guides in their intended reading order, and marks where each section came
from. This project models the pure part of that pipeline in Dafny and proves
what it does:

- `JsText` holds the ECMAScript string primitives the program leans on: the
  `\s` whitespace class, `trim` and `trimEnd`, `split(/\r?\n/)` and `join`.
- `JsNumber` models `Number(string)` together with `Number.isFinite`, as an
  exact real value or none.
- `Frontmatter` models `splitFrontmatter` and `parseFrontmatter`:
  - The block regular expression is a backtracking search. It is proved to
    return the match a backtracking engine chooses, given as a declarative
    predicate on positions.
  - The key/value loop is a method. It is proved equal to a fold over the
    lines, and the fold's properties are proved.
- `OrderResolution` models `extractOrder` as a loop with an early return
  (proved against a specification function), the file-name prefix
  `extractNumericPrefix`, and the `??` fallback between them.
- `RecordOrder` covers the sort:
  - `buildSortKey`, the comparator, and the in-place `files.sort`.
  - `files.sort` is proved to produce `StableSort`, a stable insertion sort.
  - `StableSort` is proved to be a permutation of its input, sorted and
    stable, and to be the only arrangement with those three properties.
- `Assembly` models the sections and the joined document, with their exact
  layout.
- `Cli` models `parseArgs` (a loop proved against a declarative outcome) and
  `isMarkdown`.
- `Guides` is the pipeline in `main`, from the repository tree to the
  document. Downloading is a function parameter.

The document ends in exactly one newline after the last section. When the
last guide's text trims to nothing, that section is the bare source note,
which already ends in a newline, so the document then ends in two
(`DocumentEnding`, `BlankLastBodyEndsInTwoNewlines`).

## Model

| member | source | states |
|---|---|---|
| JsText.TrimEndParts | index.js:305 | `trimEnd` keeps a prefix of the text, and everything it removes is whitespace |
| JsText.TrimRemovesEnds | index.js:153 | `trim` keeps a middle slice, and what it removes on both sides is whitespace |
| JsText.TrimIdempotent | index.js:161 | trimming an already trimmed value changes nothing |
| JsText.SplitLinesRebuild | index.js:151 | the lines of `split(/\r?\n/)` and some breaks, each `\r\n` or `\n`, give the text back; no line holds `\n`, and a break is a bare `\n` only after a line that does not end in `\r` |
| JsText.SplitLinesUnique | index.js:151 | any lines and breaks with those properties are the lines `split(/\r?\n/)` returns |
| JsText.JoinPart | index.js:310 | `join` places every part at its offset, in order |
| JsText.JoinSeparator | index.js:310 | `join` puts exactly the separator between two neighbouring parts |
| JsNumber.DigitRun | index.js:184 | the greedy `\d+` run is all digits and stops at the first non-digit |
| JsNumber.FiniteNumberOfDigits | index.js:188-189 | `Number` of a run of digits is the decimal value of those digits |
| JsNumber.FiniteNumberOfNegatedDigits | index.js:173-174 | `Number` of `-` and digits is the negated decimal value |
| JsNumber.FiniteNumberIgnoresTrim | index.js:173 | trimming before `Number` never changes the result |
| JsNumber.FiniteNumberRoundTrip | index.js:173-174 | the decimal spelling of a natural number reads back as that number |
| Frontmatter.SplitFrontmatter | index.js:135-144 | no block exactly when nothing matches, and then the body is the whole content; otherwise the block and the body are the slices the chosen match delimits |
| Frontmatter.MatchFrontmatterChosen | index.js:136 | the search returns the match a backtracking engine picks: latest opening line with a close, first closing `---` after it, longest trailing whitespace |
| Frontmatter.MatchKeyValue | index.js:157 | a `key: value` match has the shape key characters, blanks, `:`, blanks, then a value on one line |
| Frontmatter.MatchKeyValueComplete | index.js:157 | every line of that shape whose value starts with a non-blank is matched, with exactly that key and value |
| Frontmatter.MatchKeyValueKey | index.js:157 | a matched key is one or more of `[A-Za-z0-9_-]` |
| Frontmatter.UnquoteRemovesOneLayer | index.js:162-163 | a value wrapped in matching `"` or `'` loses exactly that one layer of quotes |
| Frontmatter.UnquoteKeepsUnwrapped | index.js:162-164 | a value not wrapped in matching quotes is kept unchanged |
| Frontmatter.LineEntryKey | index.js:153-160 | a line that contributes an entry is neither blank nor a `#` comment, and its key is a valid key |
| Frontmatter.FrontmatterData | index.js:146-149 | null or empty frontmatter gives the empty dictionary, and every key is a valid key and never `__proto__` |
| Frontmatter.ParseFrontmatter | index.js:146-168 | the line loop builds exactly the fold of the lines' entries |
| Frontmatter.AddLine | index.js:153-165 | one loop step adds that line's entry to the dictionary, or nothing |
| Frontmatter.CollectKeyOrigin | index.js:165 | a key is in the dictionary exactly when some line gave it and it is not `__proto__` |
| Frontmatter.CollectLastWins | index.js:165 | when a key repeats, the value of its last occurrence is kept |
| Frontmatter.FrontmatterKeyOrigin | index.js:151-165 | every key of the dictionary comes from a non-blank, non-comment line of the block |
| OrderResolution.ExtractOrder | index.js:170-180 | the loop with early return gives the order of the first usable key in priority order |
| OrderResolution.OrderFromFirstUsable | index.js:171-179 | no order exactly when no key is present with a finite number; otherwise the order is that of a usable key with no usable key before it |
| OrderResolution.OrderFromHigherPriorityWins | index.js:16 | a usable key of higher priority decides the order, whatever lower keys hold |
| OrderResolution.BasenameOfJoin | index.js:183 | the base name of `dir/name` is `name` |
| OrderResolution.BasePrefixMeans | index.js:184-189 | a prefix exists exactly when the base name starts with digits and then `-`, `_`, a space or `.`, and its value is those digits' value |
| OrderResolution.NumericPrefixIgnoresDirectory | index.js:182-183 | the directory part of the path never changes the prefix |
| OrderResolution.NumericPrefixRoundTrip | index.js:182-190 | a name spelled as a number, a separator and any rest reads back as that number |
| OrderResolution.NumericPrefixNeedsDigit | index.js:184-187 | a base name that does not start with a digit has no prefix |
| OrderResolution.ResolveOrder | index.js:284 | the frontmatter order whenever there is one, the file-name prefix only otherwise, and no order only when both are absent |
| RecordOrder.Compare | index.js:294-301 | an order beats no order, two different orders compare as numbers, and equal orders (two missing ones included) defer to the collator |
| RecordOrder.CompareFlip | index.js:294-301 | swapping two records flips the comparator's sign when the collator's does |
| RecordOrder.CompareTransitive | index.js:294-301 | "not after" is transitive on records when it is on paths |
| RecordOrder.SortPermutes | index.js:294 | sorting neither loses nor adds a record |
| RecordOrder.SortSorted | index.js:294-301 | every record comes no later than every record after it |
| RecordOrder.SortOrdering | index.js:217-223 | numeric orders come before missing ones, numeric orders never decrease, and equal orders are in collator order of their paths |
| RecordOrder.SortStable | index.js:294 | records the comparator cannot tell apart keep their input order |
| RecordOrder.SortedStableIsUnique | index.js:294 | any sorted, stable permutation of the input is `StableSort`, so the engine's algorithm does not matter |
| RecordOrder.SortFiles | index.js:294-301 | the in-place sort leaves the array holding the stable sort of its old contents |
| Assembly.SectionParts | index.js:304-307 | a section is the note, then the guide's text with exactly its trailing whitespace cut |
| Assembly.DocumentLength | index.js:310 | the last section ends just before the single newline that ends the document |
| Assembly.DocumentSections | index.js:303-310 | every guide's section sits in the document at its place, in sorted order |
| Assembly.DocumentSeparators | index.js:310 | between each two neighbouring sections there is exactly `\n\n---\n\n` |
| Assembly.DocumentEnding | index.js:305-310 | the final newline is preceded by a non-blank unless the last guide has no text, in which case two newlines end the document |
| Assembly.BlankLastBodyEndsInTwoNewlines | index.js:305-310 | a single guide with a blank body gives its source note and one more newline |
| Cli.FirstOption | index.js:38 | no option exactly when no argument starts with `-`; otherwise the first argument that does |
| Cli.ParseArgs | index.js:31-47 | the argument loop returns the declarative outcome: the first option decides, then too many arguments, then the output argument |
| Cli.OutcomeOutput | index.js:41-46 | an output argument is returned exactly for no arguments (as `""`) or one argument that is not an option |
| Cli.OutcomeHelp | index.js:33-37 | help is shown exactly when a help flag comes before every other option |
| Cli.IsMarkdownMeans | index.js:192-194 | a path is markdown exactly when it is some name followed by `.md` or `.mdx` |
| Guides.GuideEntries | index.js:266-269 | the guide entries are exactly the blobs under `guides/` with a markdown name |
| Guides.GuideEntriesSingle | index.js:266-269 | the filter keeps one entry exactly when it is a markdown blob under `guides/` |
| Guides.GuideEntriesConcat | index.js:266-269 | the filter works entry by entry, so the guides keep the tree's order and repetitions |
| Guides.LoadRecord | index.js:279-292 | one guide's record: the split body, and the order resolved from its frontmatter and its path |
| Guides.BuildGuide | index.js:266-310 | no guides is an error; otherwise the document of the sorted records |
| Guides.GuideDocumentRecords | index.js:271-310 | the document holds every guide's record exactly once, in stable sorted order, and fails exactly when there are no guides |

## Left out

- Network I/O is not modelled: `fetchOnce`, `fetchRaw`, `fetchJson` and `fetchText` (index.js:81-133), the GitHub API navigation in `main` (index.js:241-264) and the environment token (index.js:232-239). Downloading a guide is the `fetch` parameter of `BuildGuide`, a total function, so a failed fetch has no counterpart.
- `mapWithConcurrency` (index.js:196-215) is modelled as the sequential loop `results[i] = mapper(items[i])`. The bounded asynchronous workers are left out; the order of results is the same.
- `resolveOutputPath`, `mkdir` and `writeFile` (index.js:49-79, 311-312) are left out. They depend on the file system and on `path.resolve`.
- `printUsage`, `process.exit`, the console messages and the exit code (index.js:18-29, 314-320) are left out. Help is the `Help` outcome.
- JsNumber.FiniteNumber: values are exact reals. The model does not round to double precision, so any literal outside the range of doubles keeps its exact value here. A long digit run or a large exponent such as `1e999`, which `Number` turns into `Infinity` (so the program skips that key and tries the next), is a finite order here; a tiny one such as `1e-400`, which `Number` rounds to 0, stays a small positive real. Two orders that round to the same double compare equal in the program but not here.
- RecordOrder.Compare: the collator is an abstract function on paths. The locale rules of `Intl.Collator('en', { numeric: true, sensitivity: 'base' })` are left out. The sort lemmas assume only that it flips sign with its arguments and is transitive.
- RecordOrder.SortFiles: the comparator's value is modelled by its sign, which is all `Array.prototype.sort` uses. The sort is an insertion sort; `SortedStableIsUnique` shows that any stable sort gives the same result.
- Strings are sequences of characters. UTF-16 surrogate pairs and the Windows variant of `path.basename` are not modelled.
- `STRIP_FRONTMATTER` and `INCLUDE_SOURCE_NOTES` are fields of `Assembly.Config`, and the program's values are `Defaults`.
