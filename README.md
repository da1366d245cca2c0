# reqursive, modelled in Dafny

reqursive crawls the `require()` graph of a JavaScript program. Its core is
`index.js`, and this project models all of it.

- **`findRelative`** probes the five candidate forms of a relative specifier. The last one that exists wins.
- **`findModule`** asks the platform's module locator about a package specifier. The answer is a builtin, a package with its main file, or nothing.
- **`entryObject`** builds the record of an entry file.
- **`getChildren`** handles one file in these steps:
  - it reads the file;
  - it drops a `#!/` first line;
  - it extracts the required specifiers;
  - it resolves each specifier and drops records without an id;
  - it collapses duplicates with `nub.by`. Two packages are duplicates if their ids match; any other pair, if their filenames match.
- **`children`** puts the file's own entry record in front of its direct children.
- **`getChildrenRecursive`** runs the crawl:
  - it seeds a registry of records (`results`) and a queue with the resolved entries;
  - it expands queued files one at a time;
  - each child is merged into the registry: a file already registered gains a parent; builtins are stored under `native::<id>`; new plain files are queued, and packages too when `traverseModules` is set;
  - at the end it presents every record in key-insertion order. Parents are deduplicated, and parents and filenames are optionally made relative to the first entry's directory.

## How the model is built

The filesystem, the specifier extractor (`detective`), the module locator
and the path functions are fields of one value, `Env.World`. Every operation
is therefore a total function of the world it is given.

Specifiers are classified as the source does: a specifier is relative when it
starts with `.` or `/`. The lookup paths, the `native` test and the
`findPath` result are folded into one locator verdict, `Env.Verdict`.

The source's own form is kept:

- `findRelative`'s `forEach` is a loop. It is proved equal to `LastExisting` on the candidate list.
- `getChildren`, `findModule`, `entryObject` and `children` are functions.
- The crawl is a class, `Crawler.Crawl`. Its fields `order`, `nodes`, `queue` and `first` are updated in place by:
  - the seeding constructor;
  - `Step`, one iteration;
  - `MergeInto`, one child of the `forEach`;
  - `Run`, the `whilst` loop;
  - `Finish`, the `finished` callback.
- Each method except `Run` is proved against a specification function on the value `Registry.Merged`. These functions are `Seed`, `MergeChild`, `MergeAll`, `Worklist.StepSpec` and `Finalize.Finalized`.
- `Run`, the loop, is proved against `Worklist.Crawled`, which iterates `StepSpec` until the queue is empty or a step aborts. Its loop body is the method `Advance`. `Crawler.CrawlFrom` is `Crawled` from the seeded registry, and `Crawler.CrawlResult` is its presentation. `GetChildrenRecursive` returns exactly `CrawlResult`. So the report's records, their contents, their errors and their order are the ones the source's steps produce.
- The registry invariant `Registry.Inv` is proved to hold from seeding through every step. It says:
  - every key is listed once;
  - file keys hold their file's record and builtin keys their builtin;
  - everything queued or named as a parent is an expandable registered file;
  - entries keep the id, kind and group of their entry record (their parents may grow and an error may be recorded on them);
  - packages are their own group, and plain files inherit the group of the file that found them.
- The crawl also keeps a ghost set of the files expanded so far. Every expandable registered file is queued or expanded, and every expanded file has all the children its expansion yields recorded: builtins under their key, other children with that file among their parents (`Registry.Frontier`). When the queue runs empty this gives `Registry.Closed`.
- Every record in the registry is accounted for (`Registry.Sound`). Its key is an entry's, or some expanded file's expansion yields it. Each of its parents is an expanded file whose expansion yields it. Each expanded file is a non-empty, expandable path. This is kept from seeding through every step. It matches records by key (filename or builtin id) only; the exact contents come from `CrawlResult`.
- The loop is proved to end. The measure is the number of readable files not yet registered, plus the readable files in the queue.

Where the project's prose disagrees with the code, the model follows the code:

- `traverseModules` is off unless it is set to true. The doc comment says it is enabled by default, but line 188 uses `!!options.traverseModules`.
- An unreadable first entry does not abort the crawl. A read error becomes an empty child list, so the first expansion succeeds and `first` is cleared.
- Only an extractor error on the first file expanded aborts the crawl. A later extractor error is recorded on that file's record.
- A builtin required by several files is stored again each time under `native::<id>`. The lookup at line 219 goes by `child.filename`, which a builtin does not have. So a builtin's reported parent is the last file that required it (`Registry.NativeOverwritten`).

## Model

| member | source | states |
|---|---|---|
| Env.Read | index.js:121-122 | a file can be read exactly when it is in the world's files, and reading gives its text |
| Env.Truthy | index.js:188 | an option is on exactly when it is given as true; a missing option is off |
| Nub.NubBy | index.js:151-156 | `nub.by` itself, stated by `NubBySpec`, `NubByFirst` and `NubByCovers` |
| Nub.NubByCovers | index.js:151-156 | the kept elements form a subsequence of the input; no kept element is the same as an earlier kept one; every input element is kept or is the same as a kept one |
| Nub.NubByFirst | index.js:151-156 | the kept elements sit at increasing input positions, and a position is kept exactly when its element is not the same as any element kept before it |
| Nub.NubBySpec | index.js:151-156 | `nub.by` keeps a subsequence of its input in first-occurrence order: the kept elements sit at increasing input positions, and a position is kept exactly when its element is not the same as any element kept before it; no kept element is the same as an earlier kept one; every input element is the same as some kept element |
| Nub.DedupSpec | index.js:249-250 | `nub` keeps a duplicate-free subsequence with exactly the input's members, each at its first occurrence, in input order |
| Nub.Dedup | index.js:249 | `nub` itself, stated by `DedupSpec`, `DedupFirst` and `DedupSnoc` |
| Nub.DedupFirst | index.js:249 | every kept element sits at its first occurrence in the input, and the kept elements keep input order |
| Nub.DedupSnoc | index.js:249 | appending a value to the input appends it to the result exactly when it was not already in the input |
| Records.OrFalse | index.js:45 | `group \|\| false`: an empty group counts as none; any other group is kept |
| Records.IdOr | index.js:66 | `parent.id \|\| request`: the parent's id when it is non-empty, otherwise the request |
| Records.ParentOf | index.js:207 | a registered record used as a parent gives its filename, group and id |
| Records.EntryObject | index.js:97-105 | an entry record has the file's basename as its id and the file as its filename; it has no parents, no group, no error, and is neither package nor builtin |
| Records.Candidates | index.js:24-30 | there are five candidates, the bare target first; each extends the target and is strictly longer than the one before, so no two coincide |
| Records.LastExisting | index.js:24-37 | the winner of the probing loop, stated by `LastExistingSpec` |
| Records.LastExistingSpec | index.js:30-37 | with no existing candidate the target stays as it was; otherwise the result is an existing candidate, and no later candidate exists |
| Records.RelativeRecord | index.js:20-47 | a relative record names one of the candidates, its id is that candidate's basename, its parent is the requiring file and it inherits the parent's group; a candidate that does not exist is chosen only as the bare target |
| Records.FindRelative | index.js:20-47 | the probing loop builds exactly the record `RelativeRecord` describes |
| Records.ModuleRecord | index.js:70-94 | the locator's verdict decides the record: none when nothing is found; for a builtin, a package record with no filename whose group is the request; for a package, its id and its main file, grouped under that id |
| Records.FindModule | index.js:56-95 | the locator is asked about the request with the parent's id (or the request) from the parent's directory; no record exactly when it finds nothing; a record is a package record with the parent as its only parent and is its own group |
| Children.JoinSplit | index.js:126-130 | joining the split lines with newlines gives the text back |
| Children.Split | index.js:126-130 | splitting at newlines gives at least one line; `JoinSplit` states its inverse |
| Children.Join | index.js:126-130 | joining lines with newlines, the inverse of `Split` as `JoinSplit` states |
| Children.StripHashbang | index.js:126-130 | the hashbang removal, stated by `StripHashbangSpec` |
| Children.StripHashbangSpec | index.js:126-130 | text not starting with `#!/` is unchanged; otherwise the first line and its newline are removed |
| Children.IsRelative | index.js:139 | the test `/^[\.\/]/`, whose two outcomes `ResolveSpecifier` states |
| Children.VerdictFor | index.js:62-68 | the locator query for a package specifier, whose outcomes `FindModule` and `ResolveSpecifier` state |
| Children.ResolveSpecifier | index.js:138-149 | relative specifiers give plain-file records for the last existing candidate, and such a specifier is dropped exactly when that candidate's basename is empty; other specifiers give package records as the locator says; a result that is missing or has an empty id is dropped, and this happens exactly in the cases listed; every kept record has the child shape |
| Children.Resolved | index.js:138-149 | a record is in the mapped and filtered list exactly when some specifier resolves to it, and every such record has the child shape |
| Children.ResolvedAppend | index.js:138-149 | the mapped and filtered list keeps the specifiers' order: the records of two specifier lists joined are the first list's records followed by the second's |
| Children.ResolvedSnoc | index.js:138-149 | one more specifier adds its record at the end when it resolves to one, and adds nothing otherwise |
| Children.SameRef | index.js:151-156 | the `nub.by` comparison: two packages by id, any other pair by filename; `GetChildren` and `GetChildrenCovers` state what it keeps |
| Children.GetChildren | index.js:114-160 | an unreadable file has no children and no error; it fails exactly when the file is readable and the extractor rejects its stripped text, with that error; every child has the child shape, and no two children are the same reference |
| Children.GetChildrenCovers | index.js:138-156 | the children are the resolved records kept at increasing positions, a record being kept exactly when it is not the same reference as any record kept before it; each comes from a specifier; every resolving specifier has a child that is the same reference |
| Children.Children | index.js:268-277 | it fails exactly when `getChildren` of the unresolved file fails, with that error; otherwise the entry record of the resolved file comes first, followed by exactly the file's children, each having the file as its only parent |
| Registry.ShapedAreStorable | index.js:224-227 | every child record has a registry key: builtins by id, the others by filename |
| Registry.MergeChild | index.js:218-233 | the `forEach` body on the registry value, stated by `MergeRediscovered`, `MergeStored`, `MergeChildInv` and `NativeOverwritten` |
| Registry.MergeAll | index.js:218-234 | the `forEach` over all children, stated by `MergeAllInv`, `MergeAllGrowth`, `MergeAllLinks` and `MergeAllReaches` |
| Registry.MergeRediscovered | index.js:219-222 | a child whose filename is registered only adds the current file to that record's parents; nothing else changes |
| Registry.MergeStored | index.js:224-233 | any other child is stored under its key; the key is appended only when new; the child is queued exactly when it is not a builtin and either is a plain file or packages are traversed |
| Registry.NativeOverwritten | index.js:224-229 | a builtin required again replaces its earlier record, and its key keeps its place |
| Registry.MergeChildInv | index.js:218-234 | merging one child of an expandable file keeps the registry invariant and changes no existing file's facts |
| Registry.MergeAllInv | index.js:218-234 | merging all children of an expandable file keeps the registry invariant and changes no existing file's facts |
| Registry.MergeAllGrowth | index.js:218-234 | merging only appends to the key order and the queue, and the queue grows by no more than the keys |
| Registry.MergeAllLinks | index.js:218-234 | after merging the children of an expanded file, each of them is recorded: a builtin under its key, any other child with that file among its record's parents |
| Registry.MergeAllReaches | index.js:218-234 | a file expandable after merging was expandable before or is now queued |
| Registry.FrontierClosed | index.js:197-200 | once the queue is empty, every expandable registered file is one whose children are all recorded |
| Registry.Seed | index.js:190-195 | the seeding on the registry value, stated by `SeedShape`, `SeedOrderDedup` and `SeedInv` |
| Registry.SeedOrderDedup | index.js:190-195 | the seeded key order is `Dedup` of the entries' keys |
| Registry.SeedShape | index.js:190-195 | seeding queues the resolved entries; its key order is `Dedup` of the entries' keys, so each entry's key is registered once, at its first occurrence, in entry order; it registers nothing else, and each key holds its entry record |
| Registry.SeedInv | index.js:190-195 | the seeded registry satisfies the registry invariant |
| Registry.SetErrorInv | index.js:211-213 | recording an extractor error on a file changes nothing else and keeps the invariant |
| Registry.SetError | index.js:212 | recording an extractor error on a file, stated by `SetErrorInv` |
| Registry.MergeAllGrown | index.js:218-234 | merging the children of a file adds only keys of those children, and adds only that file as a parent, and only to a child's record |
| Registry.SetErrorGrown | index.js:211-213 | recording an error adds no key and no parent |
| Registry.SoundParent | index.js:218-222 | in a sound registry, every parent of a record is an expanded, expandable, non-empty file whose expansion yields that record |
| Registry.YieldsStable | index.js:218-234 | what a file's expansion yields survives later merges and error records, because that file's filename, group and id never change |
| Registry.SoundGrow | index.js:207-234 | expanding a file into its children, or into nothing after an error, keeps the registry sound with that file counted as expanded |
| Worklist.FirstNonEmpty | index.js:203-204 | the path picked is a non-empty path of the queue; there is none exactly when every path is empty |
| Worklist.FirstNonEmptyIsFirst | index.js:203-204 | only empty paths come before the path picked, so it is the first path the loop expands |
| Worklist.StepSpec | index.js:202-238 | one iteration on the registry value, stated by `StepInv`, `StepErrors`, `StepFrontier` and `StepPotential` |
| Worklist.NewlyCovered | index.js:207-234 | a step that expands a file and does not abort records every child that expansion yields |
| Worklist.StepFrontier | index.js:202-238 | a step that does not abort keeps every expandable file queued or expanded and every expanded file's children recorded, now counting the file it expanded |
| Worklist.StepSound | index.js:202-238 | a step that does not abort keeps the registry sound, counting the file it expanded |
| Worklist.Crawled | index.js:197-238 | the `whilst` loop as a function: it ends, what it reaches keeps the invariant and only grows stably from where it started, and unless it aborted nothing is left queued |
| Worklist.CrawledStep | index.js:197-238 | one unrolling of the loop: an aborting step ends it with that step's outcome, and any other step continues from the state it produces |
| Worklist.StepInv | index.js:202-238 | inside the invariant a step can always be taken on a non-empty queue, and it keeps the invariant |
| Worklist.StepErrors | index.js:208-216 | a step aborts exactly when `first` holds and the extractor rejects the file, with that error; later a rejection only records the error on the file |
| Worklist.StepPotential | index.js:197-238 | every step lowers the measure, or keeps it and shortens the queue |
| Crawler.ResolveAll | index.js:190-194 | the i-th entry is resolved to the i-th path |
| Crawler.StepValid | index.js:202-238 | a step keeps the crawl invariant unless it aborts; an abort means the first file expanded is rejected (`FirstFails`), and it carries that file's extractor error |
| Crawler.ResolveEntries | index.js:190-195 | the loop over the entries resolves them as `ResolveAll` says while building exactly the registry and queue of `Seed` |
| Crawler.SeedValid | index.js:190-196 | the seeded crawl, with `first` set and nothing dequeued, is a valid crawl state |
| Crawler.SeedSound | index.js:190-195 | the seeded registry is sound with nothing expanded: it holds only the entries' records, and they have no parents |
| Crawler.SeedFrontier | index.js:190-195 | before any step every expandable file is queued, and nothing is expanded yet |
| Crawler.StepPastEmpty | index.js:203-204 | an empty queued path is skipped: no abort, `first` stays, and the first non-empty queued path is unchanged |
| Crawler.FirstExpansion | index.js:203-216 | while `first` holds, the path expanded is the first non-empty entry; the step aborts exactly when the extractor rejects it, with that error, and otherwise clears `first` |
| Crawler.StepFirst | index.js:203-216 | after a step, either `first` still holds and the first non-empty entry is still ahead, or it was cleared after a successful first expansion, or the step aborted with the first expansion's error |
| Crawler.Crawl.constructor | index.js:190-195 | the new crawl's registry and queue are `Seed` of the resolved entries, `first` is set, and the crawl invariant holds |
| Crawler.Crawl.Step | index.js:202-238 | one iteration changes the fields exactly as `StepSpec` says, and adds the path it took to the expanded files unless that path is skipped |
| Crawler.Crawl.MergeInto | index.js:218-234 | merging one child changes the fields exactly as `MergeChild` says |
| Crawler.Crawl.MergeChildren | index.js:218-234 | merging the children one after another changes the fields exactly as `MergeAll` says |
| Crawler.Crawl.Advance | index.js:197-238 | one pass of the loop: the step keeps the crawl valid and stays on course for the loop's end state, and it lowers the loop's measure; or it aborts, and the abort is the loop's end, on the first file's extractor error |
| Crawler.Crawl.Run | index.js:197-238 | the loop ends, and its final registry, queue, `first` flag and abort are exactly what `Crawled` computes from the state it started in (`EndsIn`); it aborts exactly when the first file expanded is rejected, with that error; otherwise the queue is empty, the invariant holds, every expandable registered file has all the children its expansion yields recorded (`Closed`), and every key and parent link comes from an entry or from an expansion of a file the loop took (`Sound`) |
| Crawler.CrawledValid | index.js:197-238 | crawling on from any valid state aborts exactly when the first file expanded is rejected, with that error, and otherwise ends in a finished registry: invariant, empty queue, closed and sound |
| Crawler.CrawlFrom | index.js:190-238 | the seeded crawl run to its end: it aborts exactly when the first file expanded is rejected, with that error, and otherwise ends in a finished registry; its key order starts with the entries' keys, each once, in entry order |
| Crawler.CrawlFromSeed | index.js:190-238 | the whole crawl is the loop run from the seeded registry with `first` set |
| Crawler.CrawlResult | index.js:174-264 | the answer for the resolved entries fails exactly when the first file expanded is rejected, with that error, and a successful report is as `Reported` says |
| Crawler.CrawlResultOf | index.js:240-264 | the answer is the crawl's abort, or the presentation of the crawl's final registry in its key order |
| Crawler.PresentAll | index.js:245-260 | the pass over the keys rewrites every record and collects the rewritten records in key order |
| Crawler.Crawl.Finish | index.js:240-263 | the finishing pass rewrites every record in place and reports `Finalized` of the key order; the key order, the queue and every other field are unchanged |
| Crawler.GetChildrenRecursive | index.js:174-264 | the result is exactly `CrawlResult` of the resolved entries: the abort of the crawl the source performs, or the presentation of the registry it ends with, in insertion order; the crawl fails exactly when the first file expanded is rejected, with that error; otherwise the report is `Reported`: one record for an entry exactly when there are entries; the first entry's record first, its filename made relative to the output directory unless the output is absolute; builtins without a filename; packages as their own group; duplicate-free parents; every entry's record reported; with absolute output, one record per file, every record an entry's or a child that a reported expandable file's expansion yields, every parent a reported expandable file whose expansion yields that record, and every child of a reported expandable file reported (builtins by id, other children with that file among their parents); for either output, the report is `Finalized` of a registry that is closed and sound |
| Finalize.RelAll | index.js:251-253 | each parent is kept, or made relative to the output directory, position by position |
| Finalize.Finalized | index.js:245-260 | the report has one record per key, the i-th being the presented record of the i-th key |
| Finalize.Present | index.js:249-257 | the rewriting of one record, stated by `PresentSpec` |
| Finalize.PresentSpec | index.js:249-257 | presenting keeps a record's id, kind, group and error; its parents are the originals at their first occurrences, in order, each rewritten; none is duplicated when absolute or when the rewriting is injective; with relative output a non-empty filename is made relative to the output directory, and otherwise the filename is unchanged |
| Finalize.ReportedEntry | index.js:240-263 | the first reported record has the first entry's basename as its id, is a plain file (neither package nor builtin) without a group, and names the entry's file: the entry itself with absolute output, otherwise made relative to the output directory |
| Finalize.ReportedEntries | index.js:240-263 | every entry is reported as a plain file named by the entry that has its basename as its id |
| Finalize.ReportedKinds | index.js:240-263 | reported builtins have no filename and are packages; reported packages are their own group |
| Finalize.ReportedParentsDistinct | index.js:249-253 | reported parent lists hold no path twice when the rewriting keeps paths apart |
| Finalize.ReportedFilesDistinct | index.js:240-263 | with absolute output, no two reported records name the same file |
| Finalize.ReportedYield | index.js:240-263 | with absolute output, a record that an expandable file's expansion yields is reported as a child of that file's reported record |
| Finalize.ReportedParentsListed | index.js:240-263 | with absolute output, every reported parent is itself reported as an expandable file whose expansion yields that record |
| Finalize.ReportedParentAt | index.js:240-263 | with absolute output, a parent of a record that is expandable and yields the record is reported as expanding into it |
| Finalize.ReportedSound | index.js:240-263 | with absolute output, every reported record is an entry's or a child that a reported expandable file's expansion yields |
| Finalize.ReportedAccounted | index.js:240-263 | a record whose key is an entry's, or yielded by an expandable file, is reported as accounted for |
| Finalize.ReportedExpansion | index.js:240-263 | with absolute output from a closed registry, every child of each reported expandable file is reported: a builtin by its id, any other child with that file among its parents |
| Finalize.ReportedAbsolute | index.js:240-263 | with absolute output from a closed registry, the report has one record per file and every reported expandable file's children are reported |
| Finalize.ReportedJustified | index.js:240-263 | with absolute output from a sound registry, every parent is a reported expandable file whose expansion yields the record, and every record is an entry's or yielded so |
| Finalize.FinishedReport | index.js:240-263 | a finished registry that keeps the invariant and is closed and sound reports as `Reported` says |

## Left out

- Reading files, the `detective` extractor, the module resolution internals (`_resolveLookupPaths`, `_nodeModulePaths`, `_findPath`) and the `path` functions are uninterpreted oracles in `Env.World`. Their semantics (normalisation, the `node_modules` search) are not modelled.
- The model does not cover `_findPath` returning `false` for a package without a resolvable main file. A package verdict always carries a filename.
- `detective` can throw errors other than parse errors; those are not distinguished. Read errors are swallowed by the source (line 122) and are modelled as such.
- The `async.whilst` callback plumbing is not modelled. This includes options passed as the callback and a missing callback. The crawl is sequential and returns a `Result`.
- `entry` given as a single string is not modelled; the model takes a sequence.
- `path.resolve(nextFile)` at line 205 is taken as the identity on queued paths. Every queued path is already absolute.
- `results[absolute] || absolute` at line 207 always takes its first branch in the model, because every queued path is registered.
- The lookup `results[child.filename]` for a builtin reads the key `undefined`. The model treats a registered file literally named `undefined` like any other path, so that coincidence is not modelled.
- The model does not reorder integer-like keys as `Object.keys` does; records are reported in insertion order. Registry keys are absolute paths or `native::` names, and neither is integer-like.
- `entryObject` sets neither `native` nor `error`. The model gives entry records `isNative` false and no error.
- The unused local `relative` at line 247 is not modelled.
- The command-line tool `bin/reqursive.js` and the test suite `test/test.js` are not part of this model.
- Crawler.Crawl.Run: termination is proved on the assumption that the world's readable files form a finite map.
- ReportedSound: matches a reported record to a child an expansion yields by filename, or by id for a builtin, and not by the record's other fields. The record's exact contents are fixed by `GetChildrenRecursive`'s equality with `CrawlResult`, not by this lemma.
- ReportedAccounted: the same key-only match as `ReportedSound`, for one record.
- ReportedJustified: justifies parents and records by filename or builtin id only; record contents are fixed by `CrawlResult`, as for `ReportedSound`.
- The options `absolute` and `traverseModules` are modelled as optional booleans. JavaScript truthiness of other values, such as `absolute: 1` at line 252, is not modelled. A caller passing such a value corresponds to passing `true` or `false` here.
- Crawler.GetChildrenRecursive: with relative output, the clauses of `Reported` that match a reported parent back to its file are not stated, because that would need `path.relative` to be invertible, which the model does not assume. These are "every child reported", "every record accounted for" and "every parent a reported file that yields it". For both outputs the report is still `Finalized` of a registry that is closed and sound (`Finished`), so these facts hold of the records before rewriting.
- Crawler.GetChildrenRecursive: with relative output, duplicate-free parent lists are proved only when `path.relative` from the first entry's directory never merges two paths. The source promises nothing here, and two different paths could in principle be made relative to the same string.
