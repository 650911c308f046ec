# VS Code build utilities (`build/lib/util.js`) in Dafny

This project models the parts of the VS Code build helper module
`build/lib/util.js` that have real logic in them, and proves properties of that model.

- **`incremental`** (`incremental.dfy`): the stage that re-runs a stream provider. It buffers incoming
  files by path, keyed the way `Object.keys` orders a fresh object. A debounced timer flushes the
  buffer into a new run, and a cancellation token reports "cancel" whenever new files have arrived.
  The stage is a class. Its fields are the run state, the buffer, its key order, the pending-timer
  flag and the list of runs started so far.
- **`debounce`** (`debounce.dfy`): the stage that re-runs a task. Input that arrives during a run
  marks it stale, and a stale run schedules one more run when it ends.
- **`toFileUri`** (`file_uri.dfy`): turns a file path into a `file://` URI. A leading drive letter is
  upper-cased and prefixed with `/`, and backslashes become slashes.
- **`versionStringToNumber`** (`version.dfy`): finds the leftmost `digits.digits.digits` in a
  string and packs it as `major * 10000 + minor * 100 + patch`. A string with no match is an error
  carrying the message the source throws.
- **`cleanNodeModules`** (`node_modules_rules.dfy`): splits the rule file on `\r?\n`, trims each
  line and drops blanks and `#` comments. Each rule becomes an exclude glob, or an include glob
  when it starts with `!`.
- **`rebase`** (`rebase.dfy`): splits a directory on `/` or `\`, drops the first `count` parts
  (`Array.prototype.slice` semantics, including a negative count) and joins with the separator.
- **`filter`** (`stream_filter.dfy`): the stream that passes accepted items on and pushes the
  rest to its `restore` side.
- **`acquireWebNodePaths` and `createExternalLoaderConfig`** (`web_node_paths.dfy`): the
  dependency key list, the entry-point normalisation per package, the minified-variant
  preference, the fixed overrides, and the AMD loader configuration built from them.
- **`rimraf` retries** (`rimraf.dfy`): a deletion is attempted at most five times, and only
  `ENOTEMPTY` causes a retry.

`strings.dfy` and `wrappers.dfy` hold shared helpers: ASCII case mapping, prefix and suffix tests,
the backslash-to-slash replacement, `Array.prototype.join`, and the `Option` and `Result` types.

File contents, `fs.existsSync` and the outcome of each deletion attempt are parameters of the
model; time is not modelled. The timer of `_debounce` is a "timer pending" flag, and its firing is a method that the
environment calls.

A finished `incremental` run does more than go idle: the code calls `eventuallyRun()` when a run
ends (`build/lib/util.js:32-33`). So `Incremental.Controller.RunComplete` re-arms the timer, and a
timer firing on an empty buffer does nothing.

## Model

| member | source | states |
|---|---|---|
| Incremental.Controller.constructor | build/lib/util.js:20-39 | a new stage is idle with an empty buffer; with an initial stream it is running one non-cancellable run of that stream |
| Incremental.Controller.TokenFor | build/lib/util.js:25-28 | no token without cancellation support; otherwise the buffer-watching token for a cancellable run and the never-cancelling token for the initial run |
| Incremental.Controller.IsCancellationRequested | build/lib/util.js:19-25 | a run's token asks for cancellation exactly when it is the buffer token and at least one file is buffered |
| Incremental.Controller.StartRun | build/lib/util.js:26-36 | the stage is running and exactly one run with the requested token is appended; the buffer and timer are untouched |
| Incremental.Controller.Arrive | build/lib/util.js:49-54 | the file replaces any earlier file with its path; a new path goes to the end of the key order and a known one keeps its place; the timer is armed when the stage is idle and unchanged otherwise |
| Incremental.Controller.TimerFire | build/lib/util.js:40-48 | on an empty buffer nothing starts; otherwise one cancellable run of the buffered files starts, in key order, and the buffer is emptied |
| Incremental.Controller.RunComplete | build/lib/util.js:31-34 | a finished run leaves the stage idle with the timer re-armed, and nothing else changes |
| Incremental.PathOrderMatchesBuffer | build/lib/util.js:41-50 | the key order lists exactly the buffered paths, without repeats, and it is empty exactly when the buffer is |
| Incremental.ArrivalStep | build/lib/util.js:50 | one more arrival overwrites its path in the buffer and appends the path to the order only if it is new |
| Incremental.BufferHoldsLatest | build/lib/util.js:50 | each buffered path maps to the last file that arrived with that path |
| Incremental.BufferOf | build/lib/util.js:50 | the buffer after a sequence of arrivals; `BufferHoldsLatest` states what it holds |
| Incremental.PathOrder | build/lib/util.js:41 | the `Object.keys` order of that buffer; `PathOrderMatchesBuffer` states it lists exactly the buffered paths |
| Incremental.Flush | build/lib/util.js:44 | `paths.map(path => buffer[path])`; `DrainIsExact` states what a flush yields |
| Incremental.Drain | build/lib/util.js:41-45 | the input of the run a flush starts: the buffered files in `Object.keys` order; `DrainIsExact` states what it holds |
| Incremental.DrainIsExact | build/lib/util.js:41-45 | a flush yields each arrived path exactly once, carrying its latest file |
| Incremental.CoalescingScenario | build/lib/util.js:40-54 | files a, b, c (a second file for a's path) arriving while idle give one cancellable run of the two latest files, in first-arrival order |
| Debounce.Controller.constructor | build/lib/util.js:58-75 | one run starts at construction and no timer is pending |
| Debounce.Controller.StartRun | build/lib/util.js:62-73 | the stage is running and the run count goes up by one |
| Debounce.Controller.Arrive | build/lib/util.js:76-83 | input while idle arms the timer; input while running or stale marks the run stale and leaves the timer alone |
| Debounce.Controller.RunComplete | build/lib/util.js:65-71 | a finished run makes the stage idle, and the timer is armed exactly when the run had gone stale |
| Debounce.Controller.TimerFire | build/lib/util.js:75 | the timer only fires while idle, and firing starts exactly one run |
| Debounce.StaleRerunScenario | build/lib/util.js:58-85 | input during the first run leads to exactly one more run, after which no timer is pending |
| FileUri.HasDriveLetter | build/lib/util.js:120 | `/^([a-z])\:(.*)$/i` matches: an ASCII letter of either case, a colon, and a rest without a line terminator, since `.` does not match one and `$` is the end of input |
| FileUri.ToFileUri | build/lib/util.js:119-125 | the URI starts with `file://` and holds no backslash; a drive path becomes `file:///` plus the upper-cased drive, and any other path keeps its characters with slashes for backslashes |
| FileUri.ToFileUriKeepsPath | build/lib/util.js:119-125 | a path without backslashes is kept verbatim after `file://`, apart from the drive-letter rewrite |
| FileUri.ToFileUriIgnoresSeparatorStyle | build/lib/util.js:120-124 | converting backslashes to slashes first does not change the URI |
| FileUri.SeparatorsKeepDriveLetter | build/lib/util.js:120 | replacing backslashes neither creates nor destroys a drive-letter match |
| FileUri.ToFileUriDriveCaseInsensitive | build/lib/util.js:120-122 | two drive paths that differ only in the letter's case give the same URI |
| Strings.ForwardSlashesAt | build/lib/util.js:124 | the replacement turns each backslash into `/` and keeps every other character in place |
| Strings.ForwardSlashesHasNoBackslash | build/lib/util.js:124 | no backslash survives the replacement |
| Strings.ForwardSlashesKeeps | build/lib/util.js:124 | a string with no backslash is returned unchanged |
| Strings.ForwardSlashesAppend | build/lib/util.js:124 | the replacement distributes over concatenation |
| Strings.UpperAscii | build/lib/util.js:122 | upper-casing maps an ASCII lower-case letter to its capital and keeps every other character |
| Version.VersionStringToNumber | build/lib/util.js:299-306 | failure exactly when no position of the string starts a `\d+\.\d+\.\d+` match, with the source's error message; on success the number is `major*10000 + minor*100 + patch` of a greedy match with no match to its left, each group read as a decimal |
| Version.VersionOfLeftmostMatch | build/lib/util.js:299-306 | conversely, any greedy match with no match to its left determines the result: its groups read as decimals, packed |
| Version.VersionInText | build/lib/util.js:299-306 | `v1.2.3-beta` gives 10203: text before and after the version is ignored |
| Version.VersionWithLeadingZeros | build/lib/util.js:299-306 | `01.02.03` gives 10203: leading zeros in a group do not matter |
| Version.MatchAt | build/lib/util.js:300-301 | one attempt of the regular expression at a fixed start position; its soundness and completeness are `MatchAtSound` and `MatchAtComplete` |
| Version.FindFrom | build/lib/util.js:301 | the search returns a start position and what the attempt there captures |
| Version.ParseDecimal | build/lib/util.js:305 | `parseInt(group, 10)` of a digit group; `ParseShow` proves it inverts decimal printing |
| Version.Pack | build/lib/util.js:305 | `major * 1e4 + minor * 1e2 + patch`; `PackOrdersVersions` proves it orders versions when minor and patch are below 100 |
| Version.VersionRoundTrip | build/lib/util.js:299-306 | the string `major.minor.patch` parses back to `major*10000 + minor*100 + patch` |
| Version.PackOrdersVersions | build/lib/util.js:305 | for minor and patch below 100, packed numbers compare like versions in lexicographic order |
| Version.VersionIgnoresLeadingText | build/lib/util.js:300-301 | a prefix without digits changes neither whether a version is found nor its number |
| Version.MatchAtSound | build/lib/util.js:300-301 | a match found at a position is three digit groups separated by dots, the last one maximal |
| Version.MatchAtComplete | build/lib/util.js:300-301 | every match of the pattern at a position is the one the matcher returns |
| Version.FindFromLeftmost | build/lib/util.js:301 | the search returns the leftmost matching position, and none when no position matches |
| Version.FirstSomeLeftmost | build/lib/util.js:301 | the scan returns the first successful entry and reports none only when all entries fail |
| Version.FirstSomeSkipsFailures | build/lib/util.js:301 | starting the scan past failed positions gives the same result |
| Version.MatchAtShift | build/lib/util.js:300-301 | matching inside a string after a prefix is matching in the string alone |
| Version.DigitRun | build/lib/util.js:300 | a digit run is greedy and stops at the end or at a non-digit |
| Version.DigitRunDigits | build/lib/util.js:300 | every character of a digit run is a digit |
| Version.DigitRunExact | build/lib/util.js:300 | the run length is the exact length of the maximal digit block |
| Version.ParseShow | build/lib/util.js:305 | decimal parsing inverts decimal printing |
| NodeModulesRules.IsJsWhitespace | build/lib/util.js:138 | what `trim` removes: the JavaScript WhiteSpace and LineTerminator characters, including U+FEFF and the Unicode space separators |
| NodeModulesRules.TrimStartIndex | build/lib/util.js:138 | where the trimmed text starts: at or after the given position, at the end or at a non-white-space character |
| NodeModulesRules.TrimEndIndex | build/lib/util.js:138 | where the trimmed text ends: within the given range, just after a non-white-space character or at its start |
| NodeModulesRules.TrimIdempotent | build/lib/util.js:138 | trimming a trimmed line changes nothing |
| NodeModulesRules.TrimmedIsFixed | build/lib/util.js:138 | a string with no white space at either end is its own trim |
| NodeModulesRules.Trim | build/lib/util.js:138 | trimming gives a string with no whitespace at either end and no longer than the input |
| NodeModulesRules.TrimIsSlice | build/lib/util.js:138 | the trimmed line is the input minus exactly its leading and trailing whitespace |
| NodeModulesRules.TrimStartSkipsWhitespace | build/lib/util.js:138 | everything trimmed from the front is whitespace |
| NodeModulesRules.TrimEndSkipsWhitespace | build/lib/util.js:138 | everything trimmed from the back is whitespace |
| NodeModulesRules.SplitLines | build/lib/util.js:137 | splitting always yields at least one line, and no line contains a line feed |
| NodeModulesRules.SplitJoinLf | build/lib/util.js:137 | lines joined with `\n` split back into the same lines when none but the last ends in `\r` |
| NodeModulesRules.SplitJoinCrLf | build/lib/util.js:137 | lines joined with `\r\n` split back into the same lines |
| NodeModulesRules.SplitLinesCons | build/lib/util.js:137 | the first line is split off and loses a trailing `\r` |
| NodeModulesRules.RuleLines | build/lib/util.js:138-139 | every rule kept is trimmed, non-empty and not a `#` comment |
| NodeModulesRules.RuleLinesExact | build/lib/util.js:138-139 | the rules are exactly the trimmed lines that are neither blank nor comments |
| NodeModulesRules.RuleLinesAppend | build/lib/util.js:138-139 | rule parsing is line by line: rules of concatenated texts concatenate |
| NodeModulesRules.RulesPartition | build/lib/util.js:140-141 | every rule yields exactly one glob: a `!` rule an include glob without its `!`, any other rule a negated exclude glob |
| NodeModulesRules.CleanNodeModulesGlobs | build/lib/util.js:135-141 | there are as many exclude and include globs together as there are rules |
| NodeModulesRules.ParseRules | build/lib/util.js:136-139 | every rule read from the file's text is trimmed, non-empty and not a comment |
| NodeModulesRules.ExcludeGlobs | build/lib/util.js:140 | the negated glob of each rule without a leading `!`; membership and count are `RulesPartition`, order `ExcludeGlobsAppend` |
| NodeModulesRules.IncludeGlobs | build/lib/util.js:141 | the glob of each `!` rule without its `!`; membership and count are `RulesPartition`, order `IncludeGlobsAppend` |
| NodeModulesRules.ExcludeGlobsAppend | build/lib/util.js:140 | exclude globs are produced rule by rule in rule order, one per occurrence: those of concatenated rule lists concatenate |
| NodeModulesRules.IncludeGlobsAppend | build/lib/util.js:141 | include globs are produced rule by rule in rule order, one per occurrence: those of concatenated rule lists concatenate |
| NodeModulesRules.GlobsExample | build/lib/util.js:140-141 | rules `a`, `!b`, `a` give the exclude globs for `a` twice and the include glob for `b` |
| Rebase.IndexOfSeparator | build/lib/util.js:281 | the split point is the end of the string or a `/` or `\` |
| Rebase.IndexOfSeparatorFirst | build/lib/util.js:281 | no separator comes before the split point |
| Rebase.SplitPath | build/lib/util.js:281 | splitting yields at least one part |
| Rebase.SplitPathParts | build/lib/util.js:281 | no part contains a separator |
| Rebase.JoinSplitPath | build/lib/util.js:281-282 | splitting and joining with `/` is the backslash-to-slash replacement |
| Rebase.SplitJoinPath | build/lib/util.js:281-282 | parts without separators joined with a separator split back into the same parts |
| Rebase.SliceFrom | build/lib/util.js:282 | `slice(count)` drops the first `count` parts, or keeps the last `-count` parts when the count is negative, clamped at the ends |
| Rebase.Rebase | build/lib/util.js:279-284 | the new `dirname`: a missing directory stays empty, and dropping at least as many parts as there are leaves it empty; the other cases are `RebaseOfJoin` and `RebaseTwice` |
| Strings.Join | build/lib/util.js:282 | `parts.join(sep)`, also used for the line round trips of the rule file; `JoinEmpty`, `JoinSplitPath` and `SplitJoinPath` state what it gives |
| Strings.ForwardSlashes | build/lib/util.js:124 | `replace(/\\/g, '/')` keeps the length; `ForwardSlashesAt` gives each character |
| Rebase.RebaseZero | build/lib/util.js:279-284 | rebasing by zero on POSIX only normalises separators |
| Rebase.RebaseOfJoin | build/lib/util.js:279-284 | rebasing a joined directory drops its first parts |
| Rebase.RebaseTwice | build/lib/util.js:279-284 | rebasing by m and then by n is rebasing by m + n |
| Rebase.JoinEmpty | build/lib/util.js:281-282 | a join is empty exactly when there are no parts or one empty part |
| StreamFilter.Filter | build/lib/util.js:286-297 | every item goes to exactly one side |
| StreamFilter.FilterRoutes | build/lib/util.js:288-293 | the main side carries only accepted items and the restore side only rejected ones |
| StreamFilter.FilterLosesNothing | build/lib/util.js:286-297 | the two sides together are a permutation of the input |
| StreamFilter.FilterAppend | build/lib/util.js:287-294 | filtering a stream in chunks is filtering it whole |
| StreamFilter.FilterKeepsOrder | build/lib/util.js:288-293 | the restore side is exactly the main side of the negated predicate, in input order |
| WebNodePaths.DependencyNames | build/lib/util.js:324-329 | the names are the web dependencies in order, followed by any distro-only names |
| WebNodePaths.Merge | build/lib/util.js:328 | merging keeps the existing keys first and adds exactly the new ones |
| WebNodePaths.MergeDistinct | build/lib/util.js:328 | merging never introduces duplicate keys |
| WebNodePaths.StripLeading | build/lib/util.js:345-350 | a leading `./` or `/` is removed and the rest is kept |
| WebNodePaths.MinVariant | build/lib/util.js:353 | the minified name keeps everything before the final `.js` and ends in `.min.js` |
| WebNodePaths.MinVariantIsMinified | build/lib/util.js:352-353 | the minified name still ends in `.js` and is not itself a plain `.js` name |
| WebNodePaths.IsPlainJs | build/lib/util.js:352 | `/(?<!\.min)\.js$/i`: the name ends in `.js` and the text before it does not end in `.min`, both compared without regard to ASCII case |
| WebNodePaths.PreferMinified | build/lib/util.js:352-356 | the entry changes only to its minified variant, and it changes whenever the entry ends in `.js` but not `.min.js` (any case) and its `.min.js` variant exists |
| WebNodePaths.PreferMinifiedIdempotent | build/lib/util.js:352-356 | preferring the minified entry twice changes nothing more |
| WebNodePaths.DeclaredEntry | build/lib/util.js:335 | a string `browser` field wins over `main` |
| WebNodePaths.RawEntry | build/lib/util.js:335-343 | the declared entry, or `dist/<key>.min.js` when it is missing or empty (`DefaultEntry`) |
| WebNodePaths.EntryPoint | build/lib/util.js:335-357 | the normalised entry point: declared or default, leading `./` or `/` removed, then the minified variant when it exists (`StripLeading`, `PreferMinified`) |
| WebNodePaths.DefaultEntry | build/lib/util.js:335-343 | a package with no usable entry gets `dist/<key>.min.js` |
| WebNodePaths.EntryPoints | build/lib/util.js:330-359 | the map has exactly the dependency names as keys, each mapped to its normalised entry point |
| WebNodePaths.AcquireWebNodePaths | build/lib/util.js:321-368 | the keys are the web and distro dependencies plus the three fixed overrides; the overrides win; every other key has its normalised entry point |
| WebNodePaths.ExternalLoaderConfig | build/lib/util.js:370-385 | no configuration unless endpoint, commit and quality are all non-empty; otherwise the base URL is `<endpoint>/<quality>/<commit>/out`, stats are recorded, and each node path `p` of key `k` becomes `../node_modules/<k>/<p>`, with no key added or lost |
| WebNodePaths.NodePathsOfConfig | build/lib/util.js:376-378 | reading the entry points back out of a configuration gives exactly the node paths it was built from |
| WebNodePaths.LoaderPathShape | build/lib/util.js:376-378 | each loader path is `../node_modules/<key>/` followed by the entry point |
| WebNodePaths.LoaderConfigDeterminesPaths | build/lib/util.js:370-385 | the configuration determines the node paths it was built from |
| Rimraf.FirstSettled | build/lib/util.js:236-246 | the first attempt not ending in `ENOTEMPTY`, capped at five, with every attempt before it ending in `ENOTEMPTY` |
| Rimraf.RemoveWithRetries | build/lib/util.js:234-249 | between one and five attempts; the result is the last attempt's; a retry happens only after `ENOTEMPTY`; an `ENOTEMPTY` result means all five attempts were used |

## Left out

- The 500 ms delay, `duration` and the `debounce` package: time is not modelled. A pending timer is a flag, and it fires when the environment calls `TimerFire`.
- Stream plumbing: piping input into the provider's stream, relaying to `output` (lines 35 and 72), `es.duplex`, and error events. A run is a record of its input and token.
- `Object.keys` puts integer-like keys first, in numeric order. The model keeps insertion order for every key; file paths are never integer-like in practice.
- File I/O: reading the rule file and the `package.json` files, `fs.existsSync` (a parameter), and the deletion performed by the `rimraf` package, whose outcomes are a parameter.
- Rimraf.RemoveWithRetries: does not model the 10 ms wait between attempts, `maxBusyTries`, or the promise. It also leaves out the `clean-<dir>` task name, which is string formatting with no logic.
- Glob matching itself, done by `gulp-filter`: `cleanNodeModules` is modelled up to the glob lists it passes.
- Version.VersionStringToNumber: numbers are unbounded. `parseInt` losing precision past 2^53 is not modelled, and `Pack` collides when minor or patch is 100 or more, which `PackOrdersVersions` excludes.
- WebNodePaths.EntryPoint: `browser` and `main` are strings or absent. Non-string `main` values are not modelled, and neither is the `console.warn` for a missing entry.
- WebNodePaths.ExternalLoaderConfig: receives the node paths as a parameter instead of calling `acquireWebNodePaths` itself. The `webEndpoint` argument is a string or absent.
- Rebase.Rebase: `path.sep` is a parameter. On POSIX it is `/`; on Windows it is `\`.
- The source map helpers (`loadSourcemaps`, `stripSourceMappingURL`, `appendOwnPathSourceURL`, `rewriteSourceMappingURL`) and the base64 table are not part of this model. They transform file contents through external libraries.
- Other helpers are not part of this model: stream or file-system plumbing without logic, or platform queries. They are `fixWin32DirectoryPermissions`, `setExecutableBit`, `skipDirectories`, `$if`, `streamToPromise`, `getElectronVersion`, `_rreaddir`/`rreddir`, `ensureDir` and `buildWebNodePaths`.
