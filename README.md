# run.js task runner: catalog, selector resolution and run order

`run.js` is the entry point of an Advent of Code solutions repository. The
repository root holds one directory per year (a name of exactly four
digits). Each year holds one directory per day, and each day holds solution
scripts plus an `inputs/` directory. When the script loads, it builds a
catalog of every `(year, day)` record. It splits each record's `inputs/`
listing into test fixtures (names containing `test`) and real inputs. It
then resolves the path given on the command line into a selector of the form
`year/day/solutionPrefix` and keeps the matching records. For each kept
record it keeps the `.js`/`.ts` solutions that export a `run` function and
match the prefix, and it throws when nothing remains. Finally it runs every
solution of every record: first on all tests, then on all inputs. A
`year/day:` header is printed only when more than one record is run.

The Dafny model has six modules:

- `Seqs`: `Array.prototype.filter` as `Filter`, with subsequence,
  concatenation, partition and duplicate-freedom lemmas.
- `Strings`: `startsWith`, `endsWith`, `includes`, `split` by one character
  and `join`.
- `Paths`: `norm` and Node's `path.extname` for directory entries.
- `Catalog`: the in-memory file system, the `allTasks` builder and
  `getSolutions`.
- `Resolver`: `resolveTasks`.
- `Runner`: the main loop. It is modelled as methods with loops that produce
  the sequence of header and invocation events, proved equal to pure
  specification functions. The loop's properties are proved about those
  functions.

The file system is a map from a path (a sequence of segments) to its
directory listing. A path with no entry is one that `Fs.readdirSync` cannot
list; the model returns `Err(Unreadable(path))` where run.js would throw.
The check `typeof require(p).run === 'function'` is the parameter
`exportsRun`. `resolveTasks` receives the output of `Path.relative` (the
invocation path relative to the repository root, spelt with the platform's
separator) and the separator character itself. `norm` happens inside the
model. The catalog is built from the file system as it was at load time,
including the eager read of each `inputs/` listing. `getSolutions` reads the
file system passed to `Resolve`, which may differ.

## Model

| member | source | states |
|---|---|---|
| Paths.Norm | run.js:11 | `norm`: split on the platform separator, join with `/`; its contract is stated by `Paths.NormReplacesSeparator` and `Paths.NormIdentity` |
| Paths.Extname | run.js:34 | Node's `extname` of a directory entry (also used at run.js:81): empty, or a single-dot suffix of the name with at least one character before it; `Paths.ExtnameIs` gives the exact condition |
| Catalog.ReadDir | run.js:20-32 | `Fs.readdirSync`: the listing when the path is in the map, otherwise the error naming the path; its behaviour is carried by the contracts of `Catalog.MakeTask`, `Catalog.DayTasks` and `Catalog.GetSolutions` |
| Catalog.YearTasks | run.js:25-46 | one year's records; its contract is stated by `Catalog.YearTasksShape` |
| Catalog.CollectYears | run.js:22-48 | the `reduce` over the year names; its contract is stated by `Catalog.CollectYearsAcc` and `Catalog.CollectYearsShape` |
| Catalog.BuildCatalog | run.js:20-48 | `allTasks`; its contract is stated by `Catalog.CatalogShape` and `Catalog.CatalogUnique` |
| Resolver.ParseSelector | run.js:52 | the destructured `split('/')`: no segment contains `/`; `Resolver.ParseYear`, `Resolver.ParseYearDay` and `Resolver.ParseYearDaySolution` give the segments of each selector shape |
| Resolver.MatchesTask | run.js:55-59 | the year and day filter; its effect is stated by `Resolver.ResolveMatchesYearAndDay` and `Resolver.ResolveSelects` |
| Resolver.MatchesSolution | run.js:65-67 | the solution prefix filter; its effect is stated by `Resolver.ResolveMatchesSolutions` and `Resolver.ResolveSelects` |
| Runner.SourceOf | run.js:81-88 | the extension dispatch of `readInput`; its contract is stated by `Runner.SourceOfName` |
| Seqs.Filter | run.js:21-29 | `Array.prototype.filter` (also at run.js:32, 55, 65 and 70): the result is no longer than the input; it holds only elements the predicate accepts that occur in the input, and every accepted element of the input; `Seqs.FilterIsSubsequence` adds that order is kept, and `Seqs.FilterPartition` that a predicate and its negation split the input |
| Strings.StartsWith | run.js:66 | `startsWith`: the first characters are the prefix; its use is stated by `Resolver.ResolveMatchesSolutions` |
| Strings.Contains | run.js:28-29 | `includes`; its contract is stated by `Strings.ContainsIff` |
| Strings.Split | run.js:52 | `split` by one character (also at run.js:11): at least one part, and no part holds the separator; `Strings.JoinSplit` ties it to `Strings.Join` |
| Strings.Join | run.js:11 | `join` with one character; its contract, together with `Strings.Split`, is stated by `Strings.JoinSplit` |
| Catalog.IsYearName | run.js:21 | the `/^\d\d\d\d$/` test; its use is stated by `Catalog.CatalogShape` |
| Catalog.IsTestName | run.js:28 | the `includes('test')` rule for tests; its use is stated by `Catalog.InputsPartition` |
| Catalog.IsInputName | run.js:29 | the negated rule for inputs; its use is stated by `Catalog.InputsPartition` |
| Catalog.IsScriptName | run.js:34 | the `.js`/`.ts` extension test; its contract is stated by `Catalog.ScriptNames` |
| Resolver.Segment | run.js:52 | a destructured element, `""` standing for a missing one; its use is stated by `Resolver.ParseYear`, `Resolver.ParseYearDay` and `Resolver.ParseYearDaySolution` |
| Resolver.HasSolutions | run.js:70 | `task.solutions.length` as a condition; its use is stated by `Resolver.Resolve` and `Resolver.ResolveSelects` |
| Strings.ContainsIff | run.js:28-29 | `includes` holds exactly when the substring occurs at some index |
| Strings.JoinSplit | run.js:11 | splitting on one character and joining with another replaces every occurrence of the first by the second |
| Paths.NormReplacesSeparator | run.js:11 | `norm` keeps the length and maps every platform separator to `/` and every other character to itself |
| Paths.NormIdentity | run.js:11 | with `/` as the separator, `norm` is the identity |
| Paths.ExtnameIs | run.js:34 | for an extension such as `.js`, `extname(n)` equals it exactly when `n` ends in it and has at least one character before it |
| Catalog.MakeTask | run.js:25-45 | a day record exists exactly when `root/year/day/inputs` can be listed; then it has that year, day and directory, with `tests`/`inputs` being its listing filtered by the `test` rule; otherwise the error names that path |
| Catalog.DayTasks | run.js:25-46 | one record per day entry, in listing order, exactly when every `inputs/` listing is readable; otherwise the error names an unreadable path |
| Catalog.GetSolutions | run.js:31-36 | succeeds exactly when the record's directory can be listed; the result is a subsequence of the listing; each element is a `.js`/`.ts` name whose module exports `run`, and every such listed name is in it |
| Catalog.CollectYearsAcc | run.js:22-48 | the records gathered by the `reduce` so far only ever stand in front of the records of the remaining years |
| Catalog.YearTasksShape | run.js:25-46 | one year's records exist exactly when its listing and all its days' `inputs/` listings can be read; then there is one record per day entry in listing order, each built from that year and day |
| Catalog.CollectYearsShape | run.js:22-48 | the reduce over years succeeds exactly when every year is readable; the records' `(year, day)` pairs are the years in order, each followed by its days in listing order |
| Catalog.CatalogShape | run.js:20-48 | `allTasks` succeeds exactly when all listings it reads are readable; its `(year, day)` pairs are exactly the four-digit root entries in listing order, each followed by its days in listing order; every record has `dir = root/year/day` and its `tests`/`inputs` split; otherwise the error names an unreadable path |
| Catalog.ExpectedPairsMembers | run.js:20-47 | the reference shape holds `(year, day)` exactly when `year` is one of the years and `day` is in its listing |
| Catalog.ExpectedPairsCount | run.js:20-47 | the reference shape has one pair per day entry over all years |
| Catalog.ExpectedPairsUnique | run.js:20-47 | with duplicate-free listings, no `(year, day)` pair occurs twice in the reference shape |
| Catalog.CatalogUnique | run.js:20-47 | with duplicate-free listings, the catalog holds each `(year, day)` pair once, and it has as many records as there are day entries under the four-digit years |
| Catalog.InputsPartition | run.js:27-29 | `tests` and `inputs` together are the `inputs/` listing as a multiset; both keep listing order; `tests` holds exactly the names containing `test`, and `inputs` exactly the others |
| Catalog.ScriptNames | run.js:34 | an entry passes the extension test exactly when it has more than three characters and ends in `.js` or `.ts` |
| Resolver.AttachSolutions | run.js:60-69 | succeeds exactly when every matching record's directory can be listed; then each record in order carries its `getSolutions` result filtered by the prefix rule; otherwise the error names one unlistable directory |
| Resolver.Resolve | run.js:50-77 | a successful result is non-empty, and every record in it has at least one solution; a no-match error carries the normalised selector |
| Resolver.NoMatchMessage | run.js:73 | the thrown message starts with `selector [` and contains the normalised selector |
| Resolver.PipelineSelects | run.js:54-70 | filter, map and filter together keep, in catalog order, exactly the matching records that have a matching solution |
| Resolver.ResolveSelects | run.js:54-70 | the plan's records are the catalog filtered by "year and day match and some solution matches", in catalog order; each carries exactly its matching solutions |
| Resolver.ResolveMatchesYearAndDay | run.js:54-59 | the plan is a subsequence of the catalog; each record's year equals a non-empty year segment and its day a non-empty day segment |
| Resolver.ResolveMatchesSolutions | run.js:60-68 | each planned solution starts with a non-empty solution segment; with an empty segment each record carries its whole `getSolutions` list |
| Resolver.ResolveNoMatch | run.js:70-74 | the no-match error is raised exactly when every matching directory can be listed and no matching record keeps a solution |
| Resolver.ResolveUnreadable | run.js:63-64 | resolution fails on an unlistable directory exactly when some record matching year and day has one, and the error names such a directory |
| Resolver.ResolveRootSelectsAll | run.js:50-59 | invoked at the root, the plan is every catalog record with at least one solution, in order, each with all its solutions |
| Resolver.ParseYear | run.js:52 | a selector without `/` is a year filter alone |
| Resolver.ParseYearDay | run.js:52 | `year/day` sets the year and day filters and no solution filter |
| Resolver.ParseYearDaySolution | run.js:52 | `year/day/solution` sets all three segments, and everything after the third `/` is ignored |
| Resolver.ResolveIgnoresTail | run.js:52 | with `/` as the platform separator, adding segments after the third gives the same outcome: both succeed with the same plan or both fail, and when either fails on an unlistable directory both fail with the same error |
| Runner.SourceOfName | run.js:79-89 | `readInput` reads a `.txt` name as text, loads a script name as a module, and yields `undefined` for every other name |
| Runner.RunAll | run.js:120-130 | one innermost loop produces one invocation per name, in order |
| Runner.RunTask | run.js:113-131 | one record's events are its header when due, then each solution's tests and inputs in order |
| Runner.RunPlan | run.js:112-132 | the loop's events equal the specification of the whole run |
| Runner.InvocationsAt | run.js:120-130 | the `k`-th event of an innermost loop invokes the solution on the `k`-th name; there are as many events as names, and no headers |
| Runner.SolutionOrder | run.js:119-131 | per solution, all tests run first, in order, then all inputs, in order, and nothing else |
| Runner.SolutionsCounts | run.js:119-131 | a record's solutions make \|solutions\| × (\|tests\| + \|inputs\|) invocations and no header |
| Runner.TaskCounts | run.js:113-131 | one record makes its share of invocations and one header exactly when headers are due |
| Runner.TasksCounts | run.js:112-132 | a sequence of records makes Σ \|solutions\| × (\|tests\| + \|inputs\|) invocations, and one header per record when headers are due |
| Runner.PlanCounts | run.js:112-132 | the whole run makes Σ \|solutions\| × (\|tests\| + \|inputs\|) invocations, and a header per record only when more than one record is planned |
| Runner.EventsFromPlan | run.js:112-132 | every event is the header of a planned record (only when headers are due) or an invocation in that record's directory of one of its solutions, on one of its tests when labelled `Test` or one of its inputs when labelled `Run` |
| Runner.FromSolutions | run.js:119-131 | every event of a record's solution loop is an invocation in its directory of one of those solutions, on a test or on an input according to its label |

## Left out

- `formatTime` (run.js:91-99) is floating-point formatting with `toFixed`.
- The timing with `performance.now` (run.js:104-106) is wall-clock and nondeterministic.
- The `chalk` colouring and the `console.log` lines (run.js:107, 114-127) are presentation. The loop records a header or an invocation event instead.
- `@babel/register` (run.js:14-18) and loading modules with `require` (run.js:35, 86, 103) are foreign code. Whether a module exports `run` is the parameter `exportsRun`. Running a solution is the invocation event.
- A module that throws while it is being loaded is not modelled; `exportsRun` is a total predicate.
- `readInput` (run.js:79-89) is reduced to its dispatch on the extension (`SourceOf`). The file's text and a module's `input` export are not modelled, and the dispatch's result is not part of an invocation event.
- `Fs.readdirSync` and `Fs.readFileSync` (run.js:20, 25, 27, 32, 83) are replaced by the in-memory listing map. Listing order is whatever the map says. What makes a listing unreadable (a missing path, a plain file, permissions) is collapsed into "the path has no entry".
- `Path.resolve` and `Path.relative` (run.js:12, 51, 80, 102) are outside the model. `Resolve` receives the root-relative string. A path outside the root gives `..` segments, which match no four-digit year.
- The command-line call `resolveTasks(...process.argv.slice(2))` (run.js:110) is outside the model. A second argument would be ignored by `resolveTasks` in any case.
- Runner.RunPlan: the event sequence assumes that every input read and every `run` call returns. In run.js the program stops at the first one that throws: a failing `Fs.readFileSync` (run.js:83), a `require(path).input` that throws (run.js:86), or a `run(input)` that throws (run.js:105). A `run` that never returns stalls the loop. Such truncated or stalled runs are not modelled.
- Catalog.CatalogUnique: it assumes duplicate-free directory listings, which real listings are. The builder itself does not check this.
