# path_master: the paths.d aggregation engine in Dafny

path_master looks in `/etc/` for directories named `<prefix>paths.d`. For each
one, it derives an environment-variable key from the directory name and reads
the directory's text files in name order. It keeps every line that passes a
character test and is neither blank nor a comment, expanding `$NAME` and
`${NAME}` in it. The kept values are then joined with `:`. This project models
that engine, all of it in `src/paths.rs`, and proves what each part promises:

- `strings.dfy` (module `Strings`) models the parts of Rust's string library
  the engine uses:
  - `char::is_whitespace` and `str::trim`;
  - `[String]::join`, together with `str::split` as its inverse;
  - the lexicographic order of strings.
- `expansion.dfy` (module `Expansion`) models `expand_env_vars`:
  - `TokenAt` is a hand-written recogniser for the pattern
    `\$(NAME|\{NAME\})`. It is proved to recognise exactly that pattern's
    matches.
  - `Expand` is a reference definition of the whole substitution.
  - `ExpandEnvVars` is the scanning loop of the source, proved equal to
    `Expand`.
- `paths.dfy` (module `Paths`) models `envkey` and the record `Pathd`:
  - `Pathd` is a class whose field `paths` only ever grows.
  - `AddPath` is `add_path`.
  - `PathString` is `path_string`.
  - `GetFiles` is `get_files`, with `is_text_file` and `get_contents` folded
    into the entries it receives.
  - The order of files is a stable sort by name, proved sorted and a
    permutation.
- `discovery.dfy` (module `Discovery`) models `get_paths_dirs_regex` as the
  program calls it: root `/etc/`, pattern `PATHSD`. It also holds `is_valid`.
- `scenarios.dfy` (module `Scenarios`) gives worked examples with exact
  outcomes.

The process environment is a `map<string, string>` parameter. A variable is
set when its name is a key of the map. The file system is passed in as values:
- each entry of a paths.d directory is a `FileEntry`, holding its name, the
  outcome of the text probe, and the lines a read would give;
- each entry of `/etc/` is a `RootEntry`, holding its name, whether the name
  is UTF-8, and what `exists`, `is_dir` and `read_dir` report for it.

The model follows the code throughout. The code refuses both ':' and '\\'
(src/paths.rs:71), so a line such as `C:\foo` is dropped. A ':' reaches a
collected value only through a variable's expansion; see `ValidityIsCheckedBeforeExpansion`.

## Model

| member | source | states |
|---|---|---|
| Strings.IsWhitespace | src/paths.rs:74 | `char::is_whitespace`: the characters with the Unicode White_Space property, the set `trim` removes from both ends |
| Strings.TrimStartDropsWhitespace | src/paths.rs:74 | trimming the start removes only whitespace |
| Strings.Trim | src/paths.rs:74 | a non-empty trimmed line starts at the line's first non-whitespace character |
| Strings.TrimEmpty | src/paths.rs:74 | the trimmed line is empty exactly when every character is whitespace |
| Strings.Join | src/paths.rs:90 | `[String]::join`: the parts with one separator between neighbours; `SplitJoin` proves `Split` undoes it |
| Strings.SplitJoin | src/paths.rs:90 | splitting a ':'-joined list on ':' gives the list back when no element holds ':' |
| Strings.LessEq | src/paths.rs:105 | the order `files.sort()` uses on names: lexicographic by character, a proper prefix first |
| Strings.LessEqTotal | src/paths.rs:105 | any two file names are comparable in the order `files.sort()` uses |
| Strings.LessEqTransitive | src/paths.rs:105 | the name order is transitive |
| Strings.LessEqAntisymmetric | src/paths.rs:105 | two names that are each at most the other are equal |
| Expansion.NameRunSound | src/paths.rs:164 | the name after `$` is a run of name characters that the next character does not extend (the greedy `[a-zA-Z0-9_]*`) |
| Expansion.NameRunExact | src/paths.rs:164 | a run of name characters ending before a non-name character is exactly the run the scanner takes |
| Expansion.TokenAt | src/paths.rs:164 | the recogniser for `$NAME` and `${NAME}` at the start of a text; a token it returns has at least two characters and fits in the text (`TokenAtSound` and `TokenAtComplete` prove it matches exactly the pattern) |
| Expansion.TokenAtSound | src/paths.rs:164 | a recognised token is `$NAME` or `${NAME}` with a valid name, is a prefix of the text, and a plain `$NAME` is not followed by another name character |
| Expansion.TokenAtComplete | src/paths.rs:164 | every occurrence of the pattern at the start of the text is the token `TokenAt` recognises, so the recogniser matches exactly the pattern |
| Expansion.Substitute | src/paths.rs:180-185 | a match becomes its variable's value when the variable is set, and stays as written otherwise |
| Expansion.Expand | src/paths.rs:162-192 | reference definition of the substitution, match by match from the left; `ExpandEnvVars` proves the scanning loop computes it, and the lemmas below give its behaviour per match |
| Expansion.ScanStep | src/paths.rs:168-187 | one round of the scan moves strictly forward and keeps the loop invariant: the output so far, the pending text and the expansion of the rest make up the expansion of the line |
| Expansion.ExpandEnvVars | src/paths.rs:162-192 | the scanning loop returns exactly `Expand` of the line: text between matches copied, each match replaced by its value or kept |
| Expansion.ExpandKeepsUnsetTokens | src/paths.rs:184 | a line whose every match names an unset variable comes back unchanged |
| Expansion.ExpandWithoutTokens | src/paths.rs:168-190 | a line with no match comes back unchanged |
| Expansion.ExpandWithoutDollar | src/paths.rs:168-190 | a line without '$' comes back unchanged |
| Expansion.ExpandInEmptyEnvironment | src/paths.rs:181-185 | with no variable set, every line comes back unchanged |
| Expansion.ExpandUnmatchedPrefix | src/paths.rs:178-190 | text in which no match starts, '$' included, is copied verbatim and the rest is expanded on its own |
| Expansion.ExpandLiteralPrefix | src/paths.rs:178 | a '$'-free prefix is copied and the rest is expanded on its own |
| Expansion.ExpandAfterUnmatchedDollar | src/paths.rs:178-186 | in `$` digit `$NAME` (e.g. `$5$FOO`), the `$` and digit, which start no match, are copied and `$NAME` is still replaced by its value, or kept when unset |
| Expansion.ExpandBraced | src/paths.rs:171-172 | `${NAME}` followed by anything becomes NAME's value, or stays `${NAME}` when unset |
| Expansion.ExpandPlain | src/paths.rs:174 | `$NAME` not followed by a name character becomes NAME's value, or stays `$NAME` when unset |
| Expansion.ExpandExample | src/paths.rs:181-182 | `$FOO/baz` with FOO=bar gives `bar/baz` |
| Expansion.ExpandUnsetExample | src/paths.rs:184 | `$FOO/baz` with FOO unset stays `$FOO/baz` |
| Expansion.ExpandDoesNotRescan | src/paths.rs:182 | a substituted value is not expanded again: `${FOO}` with FOO=`$BAR`, BAR=`x` gives `$BAR` |
| Expansion.ExpandUnclosedBrace | src/paths.rs:164 | `${FOO` without its closing brace is not a match and stays unchanged even with FOO set |
| Paths.MatchesPathsd | src/paths.rs:15 | `is_match` of PATHSD on a name: it ends in `paths`, one character other than a newline, and `d` (`EnvCaptureSpec` and `PathdPathOfMatch` use it) |
| Paths.TailAfterNewlineSpec | src/paths.rs:15 | the result is the longest newline-free end of a text: what a leftmost `.*?` can span before a fixed suffix |
| Paths.EnvCapture | src/paths.rs:127-132 | the `env` group of PATHSD on a matching name, never longer than the text before the 7-character suffix (`EnvCaptureSpec` states which text it is) |
| Paths.EnvCaptureSpec | src/paths.rs:127 | the `env` group is the newline-free text just before the final `paths?d`, reaching back to the start or to a newline |
| Paths.EnvKey | src/paths.rs:119-134 | the key is never empty: an empty capture becomes "PATH" |
| Paths.EnvKeyOfPrefix | src/paths.rs:119-134 | `/etc/<prefix>paths?d` gives back `<prefix>` unchanged for any non-empty newline-free prefix |
| Paths.EnvKeyDefault | src/paths.rs:129-130 | `/etc/paths.d` gives "PATH" |
| Paths.EnvKeyKeepsCase | src/paths.rs:131-132 | `/etc/manpaths.d` gives `man`, not upper-cased |
| Paths.IsRejectedChar | src/paths.rs:71-79 | a character is refused when it is one of the nine listed or lies below U+0020 |
| Paths.HasOnlyAllowedChars | src/paths.rs:76-79 | the character test passes when no character of the line as read is refused |
| Paths.IsBlankOrComment | src/paths.rs:74-82 | the trimmed line is empty or starts with '#' |
| Paths.Accepts | src/paths.rs:71-83 | the line test of `add_path`: no refused character in the line as read, and the trimmed line neither empty nor starting with '#' (`AcceptsCharacterised` restates it without trimming) |
| Paths.Contribution | src/paths.rs:71-83 | what `add_path` appends: the expanded, untrimmed line when it is accepted, nothing otherwise (`AddPath` is proved against it) |
| Paths.AcceptsCharacterised | src/paths.rs:76-82 | a line is kept exactly when it has no refused character and its first non-whitespace character exists and is not '#' |
| Paths.RejectedCharDropsLine | src/paths.rs:71-79 | a line holding any refused character (one of the nine listed, including ':' and '\\', or any character below U+0020, such as tab) contributes nothing |
| Paths.ValidityIsCheckedBeforeExpansion | src/paths.rs:73-83 | the test runs on the line as written: `$X` with X=`C:\bin` is kept and contributes `C:\bin` |
| Paths.AcceptedLines | src/paths.rs:107-109 | what the inner loop appends for one file: the contribution of each line, in line order |
| Paths.ConcatMapAppend | src/paths.rs:107-109 | for any per-line values, those of two runs of lines are those of the first followed by those of the second |
| Paths.ConcatMapAdvance | src/paths.rs:107-109 | one round of the inner loop: the values of line `j` follow those of the lines before it |
| Paths.AcceptedLinesSound | src/paths.rs:82-83 | every kept value is the expansion of an accepted line of the file |
| Paths.ConcatMapSingletons | src/paths.rs:106-110 | when every line gives exactly one value, the values are those of the lines, one per line, in line order |
| Paths.AcceptedLinesOnePerLine | src/paths.rs:82-83 | when every line is accepted, value `i` is the expansion of line `i`: nothing is merged, deduplicated or reordered |
| Paths.TextFiles | src/paths.rs:98-104 | the files kept by the first loop are text files of the listing |
| Paths.TextFilesComplete | src/paths.rs:98-104 | every text file of the listing is kept by the first loop |
| Paths.SortByName | src/paths.rs:105 | `files.sort()` as an insertion sort by name; `SortByNameCorrect` proves it sorted and a permutation, `SortedIsUnique` that no other order qualifies |
| Paths.InsertPermutes | src/paths.rs:105 | inserting a file into the sorted list adds exactly that file |
| Paths.InsertSorted | src/paths.rs:105 | inserting into a name-sorted list keeps it sorted |
| Paths.SortByNameCorrect | src/paths.rs:105 | the sorted files are in ascending name order and are a permutation of the text files |
| Paths.SortedIsUnique | src/paths.rs:105 | two name-sorted lists of the same files with distinct names are equal, so the order is fully determined |
| Paths.SortByNameIgnoresListingOrder | src/paths.rs:98-105 | the sorted order does not depend on the order `read_dir` lists the files in |
| Paths.Collect | src/paths.rs:106-110 | the values of the second loop of `get_files`: each file's accepted lines in order, up to the first unreadable file (`AddFiles` is proved against it) |
| Paths.CollectAppend | src/paths.rs:106-110 | for any per-file values, the values from two runs of files, the first all readable, are those of the first followed by those of the second |
| Paths.ProbeEntries | src/paths.rs:98-104 | the first loop fails exactly when some entry's probe fails, and otherwise keeps exactly the text files in listing order |
| Paths.Pathd.AddLines | src/paths.rs:107-109 | `paths` becomes the old `paths` followed by the accepted, expanded lines of one file, in file order |
| Paths.Pathd.AddFiles | src/paths.rs:106-111 | the second loop succeeds exactly when every file reads, and `paths` grows by the files' accepted lines in order, up to the first unreadable file |
| Paths.Pathd.constructor | src/paths.rs:29-35 | a new record keeps its path, takes the key `envkey` derives from it, and has collected nothing |
| Paths.Pathd.AddPath | src/paths.rs:70-86 | `paths` becomes the old `paths` followed by the expanded, untrimmed line when the line is accepted, and is unchanged otherwise |
| Paths.Pathd.PathString | src/paths.rs:88-94 | the result is absent exactly when nothing was collected |
| Paths.Pathd.GetFiles | src/paths.rs:96-112 | a failed listing or a failing probe gives the error with `paths` unchanged; otherwise the call succeeds exactly when every text file reads, and `paths` becomes the old `paths` followed by the accepted lines of the text files in name order, up to the first unreadable file |
| Paths.CollectStopsAtUnreadable | src/paths.rs:107 | an unreadable file stops the collection, keeping what earlier files gave |
| Paths.PathStringRoundTrip | src/paths.rs:88-94 | with something collected and no ':' in any value, splitting `path_string` on ':' gives `paths` back |
| Paths.AcceptedLiteralHasNoSeparator | src/paths.rs:71-83 | a kept line without '$' is kept as written and holds no ':' |
| Paths.PlainLineKept | src/paths.rs:73-83 | an accepted line (no refused character, not blank, not a comment, leading whitespace allowed) without '$' contributes itself, untrimmed |
| Paths.CollectIgnoresListingOrder | src/paths.rs:96-112 | what `get_files` appends depends only on the multiset of text files, when their names are distinct |
| Paths.TextFilesMultiset | src/paths.rs:98-104 | the first loop keeps each text entry exactly as often as the listing holds it, and nothing else |
| Paths.TextFilesDistinct | src/paths.rs:98-104 | the text files of a listing with distinct names have distinct names |
| Paths.ListingOrderIrrelevant | src/paths.rs:96-112 | two listings of the same entries with distinct names, in any order, make `get_files` append the same values |
| Scenarios.PathStringExample | src/paths.rs:88-94 | `["/usr/bin", "/opt/bin"]` gives `"/usr/bin:/opt/bin"` |
| Scenarios.AggregationExample | src/paths.rs:96-112 | a file with two plain paths around a comment and an empty line contributes the two paths, in order |
| Scenarios.CommentDropped | src/paths.rs:82 | `# comment` contributes nothing |
| Scenarios.BlankDropped | src/paths.rs:82 | an empty line contributes nothing |
| Scenarios.OrderingExample | src/paths.rs:105-110 | file `10-a` is read before file `2-b`: string order, not numeric, not listing order |
| Discovery.IsValid | src/paths.rs:38-69 | valid exactly for a present, non-empty directory; an error exactly when a present directory cannot be listed |
| Discovery.Admit | src/paths.rs:251-263 | an entry is kept exactly when it is a present, non-empty directory with a UTF-8 name matching PATHSD; it fails exactly when it is unreadable or is such a directory that cannot be listed |
| Discovery.Discover | src/paths.rs:247-271 | reference definition of the discovery loop over the entries of /etc/; `DiscoverFails` and `DiscoverKeeps` characterise it and `GetPathsDirs` is proved against it |
| Discovery.DiscoverFails | src/paths.rs:247-259 | discovery fails exactly when some entry of /etc/ aborts it |
| Discovery.DiscoverKeeps | src/paths.rs:247-271 | when it succeeds, discovery returns exactly the names of the kept entries |
| Discovery.PathdPathOfMatch | src/paths.rs:123-127 | a name matching PATHSD, put under /etc/, is a path on which `envkey` does not panic |
| Discovery.DiscoveredArePathdPaths | src/paths.rs:257-258 | every discovered directory can be handed to `Pathd::new` without a panic |
| Discovery.DiscoverErrorPersists | src/paths.rs:247-259 | once an entry has aborted discovery, no later entry undoes it |
| Discovery.GetPathsDirs | src/paths.rs:238-272 | a failed listing of /etc/ or an aborting entry gives the error; otherwise one fresh record per discovered name in listing order, with that name's path, its key and nothing collected |

## Left out

- The file system: `read_dir`, `exists`, `is_dir`, `is_file`, `fs::read` and
  line-by-line reading are replaced by values that carry their outcomes: a
  `Result` for the listing of a paths.d directory, and `FileEntry` and
  `RootEntry` values for its entries and for those of `/etc/`. Reading a line is not modelled on its own: a
  file either gives all its lines or fails.
- The UTF-8 check of `is_text_file` is not modelled on bytes. It is part of
  the probe outcome each `FileEntry` carries. The same goes for the UTF-8 test
  on directory names in discovery, which is a flag.
- Process environment: `env::var` is a map lookup. A variable set to a value
  that is not valid Unicode makes `env::var` fail, so the source keeps the
  token. The map cannot express such a value.
- The regex engine: only the two fixed patterns are modelled, by hand.
  `get_paths_dirs_regex` is modelled only for the root `/etc/` and the pattern
  `PATHSD`, the one way the program calls it. A pattern that fails to
  compile cannot occur with that pattern.
- The `eprintln!` warning for a directory name that is not UTF-8. Only the
  skipping is modelled.
- `Pathd::new` panics when `envkey` fails. This is a precondition of the
  constructor, and `DiscoveredArePathdPaths` shows discovery always meets it.
- `is_valid` reads the file system, so it is a function of the directory's
  status rather than a method of `Pathd`.
- Paths are strings. Sorting `PathBuf`s of one directory compares their file
  names byte by byte. For UTF-8 names this is the code-point order that
  `LessEq` uses.
- src/main.rs (command line, output formatting) and build.rs (manual pages)
  are not part of this model.
