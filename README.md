# Steam download monitor: a verified model of the status engine

This project models in Dafny the deterministic core of a console monitor for
Steam downloads. It also proves properties of that model.

- **Content-log parser** (`LogParser`, with its properties in `LogParserProps`). It reads the tail of
  Steam's `content_log.txt` and infers a download snapshot: the active app id, the
  verbatim rate text, and a status of downloading, paused or unknown.
  It works in four steps:
  1. a backward scan finds the last "AppID N update started" line;
  2. a forward scan records the last pause, resume and rate lines;
  3. index comparisons decide the status and the rate;
  4. fields missing from the new snapshot are carried over from the previous one.
- **Manifests** (`Manifests`): the flat `"key" "value"` parser for `.acf` files,
  the manifest fields taken from the parsed map and the file name, and `remaining_bytes`.
- **Libraries and install location** (`Library`): the registry path splitter,
  the case-insensitive de-duplication of library paths, and the scoring and
  choice of the Steam root among candidate paths, given the set of paths that exist.
- **Entry fusion and rendering** (`Monitoring`). A `Monitor` class keeps the name
  cache and the lazily fetched library list. It builds one report entry per pending
  manifest, plus one for an active title that no pending manifest carries.
  The console report groups the entries by status.
- **Configuration validators** (`Config`): the converters from JSON values to
  settings, the `.env` loader over an `Environment` class whose map stands for
  `os.environ`, and the `;`-separated environment lists.
- `Text` holds the Python string behaviour these rely on (`isspace`, `strip`,
  `splitlines`, `split`, `in`, `int()`). `Common` holds `Option` and `Result`.

The source's loops are methods proved equal to specification functions.
These are `LogParser.Parse`, `Manifests.ParseVdf`, `Library.ListPaths`,
`Library.PickBestCandidate`, `Monitoring.Monitor.BuildEntries`,
`Monitoring.Render` and `Config.Environment.LoadDotenv`. The lemmas state what
those functions promise.

The regular expressions of the log parser are abstract: `LogParser.Patterns`
holds one function per pattern and one for `float()`. The test-case lemmas
hold for any patterns that classify the test lines as the real expressions do.
The token test `"AppID {id}" in line` is kept literal and case-sensitive, so
"AppID 12" also matches a line naming "AppID 123" (`TokenMatchesLongerId`).

## Model

| member | source | states |
|---|---|---|
| Text.TrimStart | src/steam_monitor/config.py:185-186 | `lstrip()`: the result is a suffix that does not start with whitespace, and everything removed is whitespace |
| Text.TrimEnd | src/steam_monitor/config.py:185-186 | `rstrip()`: the result is a prefix that does not end with whitespace, and everything removed is whitespace |
| Text.StripEmptyIffBlank | src/steam_monitor/config.py:185 | `value.strip()` is empty exactly when the value is all whitespace |
| Text.StripEnds | src/steam_monitor/config.py:186 | a stripped string neither starts nor ends with whitespace |
| Text.StripNoop | src/steam_monitor/config.py:186 | `strip()` leaves unchanged a string with no whitespace at its ends |
| Text.StripChar | src/steam_monitor/config.py:65 | `strip(c)` leaves neither end equal to `c` and never lengthens the text |
| Text.StripCharSlice | src/steam_monitor/config.py:65 | `strip(c)` is a slice `s[i..j]` of the text, and everything cut off before `i` and after `j` is `c` |
| Text.ContainsAt | src/steam_monitor/steam.py:277 | an occurrence at any index makes `token in line` true |
| Text.ContainsPrefix | src/steam_monitor/steam.py:274-277 | a line containing `t + u` contains `t` |
| Text.SplitLines | src/steam_monitor/steam.py:258 | no line returned by `splitlines()` contains a line break |
| Text.SplitJoinLines | src/steam_monitor/steam.py:258 | `splitlines()` recovers the lines of a newline-terminated text |
| Text.SplitJoinNewline | src/steam_monitor/steam.py:55 | `splitlines()` recovers the lines of `"\n".join(lines)` when they hold no line break and the last is not empty |
| Text.IndexOf | src/steam_monitor/config.py:61-63 | where `split("=", 1)` cuts: the first occurrence of the character, with none before it, or the length when there is none |
| Text.IndexOfJoined | src/steam_monitor/config.py:63 | in `a + c + b` with no `c` in `a`, the first `c` is at index `|a|` |
| Text.Split | src/steam_monitor/config.py:98 | `split(sep)` yields at least one part, and no part contains the separator |
| Text.JoinSplit | src/steam_monitor/config.py:98 | joining the parts of `split(sep)` with `sep` gives the text back |
| Text.SplitJoin | src/steam_monitor/config.py:98 | splitting separator-free parts joined by the separator gives the parts back |
| Text.NatToString | src/steam_monitor/monitor.py:43 | the decimal text of a count is a non-empty run of digits |
| Text.ParseIntOfInt | src/steam_monitor/config.py:176 | `int(str(i)) == i` for every integer, negative ones included |
| Text.ParseIntOfNat | src/steam_monitor/steam.py:380-385 | `int(str(n)) == n` for every natural number |
| Config.ToInt | src/steam_monitor/config.py:173-181 | succeeds exactly when `int(value)` is defined and meets the lower bound, and then returns it unchanged; otherwise one of the two error messages |
| Config.TruncateTowardZero | src/steam_monitor/config.py:176 | `int()` of a float drops the fraction toward zero, for both signs |
| Config.ToIntOfDecimal | src/steam_monitor/config.py:176-181 | the decimal text of `n` passes a bound `m` exactly when `n >= m`, giving `n` |
| Config.ToIntOfInt | src/steam_monitor/config.py:179-181 | a JSON integer comes back unchanged at or above the bound; below it, the bound error |
| Config.ToIntRejectsStructures | src/steam_monitor/config.py:176-178 | `null`, lists and objects give "Invalid integer for <name>" |
| Config.ToStr | src/steam_monitor/config.py:183-187 | succeeds exactly for a non-blank string, returning it stripped and non-empty; otherwise "Missing or empty value for <name>" |
| Config.ToOptionalStr | src/steam_monitor/config.py:189-193 | a non-blank string gives its stripped text, anything else `None` |
| Config.OptionalStrAgrees | src/steam_monitor/config.py:183-193 | the optional and the strict converter accept the same values and agree on them |
| Config.ToStrIdempotent | src/steam_monitor/config.py:183-187 | converting an accepted string again gives the same result |
| Config.ToLogLevel | src/steam_monitor/config.py:195-201 | succeeds exactly when the stripped, upper-cased string is one of the five level names, and returns it; otherwise "Invalid log level for <name>" |
| Config.LogLevelAnyCase | src/steam_monitor/config.py:197-200 | each level name, in any letter case and with any whitespace padding, is accepted as that level |
| Config.StripPadded | src/steam_monitor/config.py:198 | stripping blank padding off a text with non-blank ends gives that text |
| Config.KeepStrippedMembers | src/steam_monitor/config.py:206 | the list comprehension keeps exactly the non-empty stripped texts, and never more items than it was given |
| Config.KeepStrippedAreStripped | src/steam_monitor/config.py:206 | every kept item is non-empty and stripped |
| Config.KeepStrippedEmpty | src/steam_monitor/config.py:206-207 | nothing is kept exactly when every text is blank |
| Config.KeepStrippedKeepsStripped | src/steam_monitor/config.py:206 | texts already non-empty and stripped are all kept, in order |
| Config.ToList | src/steam_monitor/config.py:203-209 | succeeds exactly for a list with at least one non-blank item, returning the stripped non-blank items; otherwise "Missing or empty list for <name>" |
| Config.ToListOfStrings | src/steam_monitor/config.py:203-209 | a list of strings is accepted exactly when one is not blank, and its items are exactly the non-empty stripped strings |
| Config.CandidatesFromPlatform | src/steam_monitor/config.py:215-219 | a truthy platform entry decides: a list gives its items, anything else gives none even when a "default" list exists |
| Config.CandidatesFallBack | src/steam_monitor/config.py:217-220 | a missing or falsy platform entry falls back to a "default" list, else to none |
| Config.CandidatesAgreeWithList | src/steam_monitor/config.py:205-214 | for a list, the candidates equal the items `_to_list` accepts, and are empty where it errors |
| Config.CandidatesAreStripped | src/steam_monitor/config.py:211-220 | every candidate is a non-empty stripped string |
| Config.EnvListNone | src/steam_monitor/config.py:94-99 | the list is `None` exactly when the variable is unset or all its `;` parts are blank |
| Config.EnvListParts | src/steam_monitor/config.py:98 | every part is non-empty, stripped and free of `;` |
| Config.EnvListJoin | src/steam_monitor/config.py:94-99 | stripped, `;`-free parts joined by `;` into the variable read back as the same list |
| Config.DotenvEntryKey | src/steam_monitor/config.py:63-66 | an assigned key is non-empty, stripped and contains no `=` |
| Config.Environment.LoadDotenv | src/steam_monitor/config.py:57-67 | the environment afterwards is the old one with each line's assignment applied in order, where only unset keys are assigned |
| Config.Environment.AssignIfUnset | src/steam_monitor/config.py:66-67 | a line's assignment is made only when its key is not set yet |
| Config.ApplyKeepsExisting | src/steam_monitor/config.py:66 | applying assignments never changes or removes a variable that is already set |
| Config.DotenvKeepsExisting | src/steam_monitor/config.py:57-67 | loading a `.env` text never overwrites an existing variable |
| Config.ApplyKeys | src/steam_monitor/config.py:66-67 | the variables afterwards are exactly the existing ones plus the assigned keys |
| Config.DotenvKeys | src/steam_monitor/config.py:57-67 | after loading, a key is set exactly when it was set before or some line assigns it |
| Config.ApplyFirstWins | src/steam_monitor/config.py:66-67 | an unset key takes the value of its first assignment |
| Config.DotenvFirstWins | src/steam_monitor/config.py:57-67 | an unset key takes the value from the first line that assigns it |
| Config.StripCharNoop | src/steam_monitor/config.py:65 | `strip(c)` leaves alone a text whose ends are not `c` |
| Config.DotenvEntrySplit | src/steam_monitor/config.py:63-65 | `key=rest` splits at the first `=`, with quotes stripped from the value |
| Config.DotenvEntryAt | src/steam_monitor/config.py:58-66 | a stripped line with an `=` after a non-empty key assigns that key its unquoted stripped value |
| Config.DotenvEntryPlain | src/steam_monitor/config.py:57-67 | a plain `KEY=value` line assigns exactly that key and value |
| Config.DotenvEntryQuoted | src/steam_monitor/config.py:65 | a double-quoted value is assigned without its quotes |
| Config.StripCharEnclosed | src/steam_monitor/config.py:65 | `(c + s + c).strip(c)` is `s` when the ends of `s` are not `c` |
| Config.DotenvSkips | src/steam_monitor/config.py:58-62 | blank lines, `#` comments and lines without `=` assign nothing |
| Library.SplitRegistryPath | src/steam_monitor/steam.py:214-221 | the sub-path is `None` exactly for the empty string, and a hive name is never empty |
| Library.IndexOfAfter | src/steam_monitor/steam.py:218 | the first backslash of `root + "\" + rest` follows a backslash-free root |
| Library.SplitRegistryPathJoined | src/steam_monitor/steam.py:214-221 | a stripped hive name joined to a sub-path by a backslash splits back into the two |
| Library.SplitRegistryPathNoBackslash | src/steam_monitor/steam.py:218-220 | a value without a backslash is all hive name (stripped, `None` if blank), with sub-path "" |
| Library.Unescape | src/steam_monitor/steam.py:404 | replacing `\\` by `\` never lengthens the path |
| Library.UnescapeEscape | src/steam_monitor/steam.py:404 | unescaping a path whose backslashes were doubled gives the path back |
| Library.KeysAppend | src/steam_monitor/steam.py:411-414 | appending a path adds exactly its lower-cased key to the seen set |
| Library.DedupSameKeys | src/steam_monitor/steam.py:408-416 | the de-duplicated list covers every key of the original |
| Library.DedupDistinctKeys | src/steam_monitor/steam.py:408-416 | no two kept paths share a case-insensitive key |
| Library.DedupKeepsFirstSeen | src/steam_monitor/steam.py:410-415 | every kept path is the first path with its key |
| Library.DedupKeepsEveryFirst | src/steam_monitor/steam.py:410-415 | every first path with a new key is kept |
| Library.DedupKeepsHead | src/steam_monitor/steam.py:398-416 | the Steam root is always kept, at the head |
| Library.ListPaths | src/steam_monitor/steam.py:396-416 | the loops build the root plus the unescaped captured paths, de-duplicated case-insensitively |
| Library.Score | src/steam_monitor/steam.py:197-211 | the score is -1 exactly for a path that does not exist, and lies between -1 and 7 |
| Library.LogAndSteamappsOutscore | src/steam_monitor/steam.py:197-211 | a root with the content log and steamapps scores at least 5, above one with neither (at most 2) |
| Library.PickBestCandidate | src/steam_monitor/steam.py:177-195 | the selection loop returns the best of the distinct candidates when its score is at least 1 |
| Library.BestOfIsMax | src/steam_monitor/steam.py:189-192 | the best score bounds every candidate's score and is never below -1 |
| Library.BestOfIsFirstMax | src/steam_monitor/steam.py:190-192 | the strict `>` keeps the first candidate with the best score |
| Library.PickBestIsFirstBest | src/steam_monitor/steam.py:177-195 | a chosen root exists, scores at least 1 and at least as much as any candidate, and more than every candidate before it |
| Library.PickBestNone | src/steam_monitor/steam.py:193-195 | no root is chosen exactly when no distinct candidate scores at least 1 |
| Library.PickBestPrefersLogAndSteamapps | src/steam_monitor/steam.py:177-211 | between two roots, the one with the log and steamapps wins in either order |
| LogParser.Token | src/steam_monitor/steam.py:274 | the token exists exactly for a non-empty id, and is "AppID " followed by the id |
| LogParser.LastStart | src/steam_monitor/steam.py:261-266 | the index of the last "update started" line below the bound, with no later one, or `None` when there is none |
| LogParser.FindStart | src/steam_monitor/steam.py:258-266 | the backward loop finds the active id and the index where scanning starts |
| LogParser.ScanWindow | src/steam_monitor/steam.py:268-286 | the forward loop computes the scan of the window from the start index |
| LogParser.Parse | src/steam_monitor/steam.py:256-311 | `parse` returns the specified snapshot of the text's lines and the previous snapshot |
| LogParserProps.LastStartIsLast | src/steam_monitor/steam.py:261-266 | the backward scan stops at the last "update started" line |
| LogParserProps.ActiveIdFromLastStart | src/steam_monitor/steam.py:259-266 | the active id is the one on the last start line, and scanning starts there; a previous snapshot does not override it |
| LogParserProps.NoStartLine | src/steam_monitor/steam.py:259-260 | without a start line, scanning starts at 0 and the id comes from the previous snapshot |
| LogParserProps.ScanFindsLastPause | src/steam_monitor/steam.py:275-279 | the scan keeps the index of the last pause line of its window |
| LogParserProps.ScanFindsLastResume | src/steam_monitor/steam.py:275-281 | the scan keeps the index of the last resume line; a pause on the same line wins |
| LogParserProps.ScanFindsLastRate | src/steam_monitor/steam.py:282-286 | the scan keeps the last rate line, with that line's text and parsed value |
| LogParserProps.WindowFacts | src/steam_monitor/steam.py:268-286 | the three scan facts hold for the parser's own window and token |
| LogParserProps.PauseAfterLastResume | src/steam_monitor/steam.py:288-298 | a pause with no resume after it gives `paused` and "0 Mbps", whatever the previous snapshot |
| LogParserProps.ResumeAfterLastPause | src/steam_monitor/steam.py:288-291 | a resume with no pause at or after it gives `downloading` |
| LogParserProps.RateDecidesWithoutMarkers | src/steam_monitor/steam.py:292-298 | without markers, the last rate decides: at most zero gives `paused` with the rate "0 Mbps", above zero gives `downloading` |
| LogParserProps.NoEvidenceIsUnknown | src/steam_monitor/steam.py:294-307 | no marker and no parseable rate give `unknown` with no previous snapshot, and the previous status otherwise |
| LogParserProps.UnparseableLastRateIsUnknown | src/steam_monitor/steam.py:284-295 | without markers, a last rate line that `float()` rejects gives `unknown` even after a parseable earlier one, keeping that line's rate text, and the previous status when there is a previous snapshot |
| LogParserProps.DownloadingRateIsFresh | src/steam_monitor/steam.py:299-301 | with no previous snapshot, a downloading result keeps a rate exactly when the last rate line is not before the last resume and is after the last pause, and then it is that line's text |
| LogParserProps.PreviousFillsGaps | src/steam_monitor/steam.py:303-309 | against the result without a previous snapshot, the previous one fills in a missing id and an `unknown` status, and changes the rate only by lending its own rate to a download without a fresh rate, of the same title, when it was downloading too |
| LogParserProps.NothingRecognised | src/steam_monitor/steam.py:258-311 | no recognised line and no previous snapshot give (None, None, unknown) |
| LogParserProps.QuietTailCarriesOver | src/steam_monitor/steam.py:303-309 | a quiet tail keeps the previous id and status, and the previous rate only when that status is `downloading` |
| LogParserProps.EmptyTextKeepsDownloading | tests/test_content_log_parser.py:46-52 | `parse("", previous)` returns a downloading previous snapshot unchanged |
| LogParserProps.TokenMatchesLongerId | src/steam_monitor/steam.py:274-279 | with "AppID 12" active, a cancel line of "AppID 123" pauses it |
| LogParserProps.LoneStartLine | tests/test_content_log_parser.py:33-43 | a lone start line gives ("123", downloading, no rate) |
| LogParserProps.StartThenRate | tests/test_content_log_parser.py:4-15 | a start line then a 10.0 Mbps rate line give ("123", downloading, "10.0 Mbps") |
| LogParserProps.StartRateCancel | tests/test_content_log_parser.py:18-30 | start, rate, then a cancel give ("123", paused, "0 Mbps") |
| Manifests.RemainingBytes | src/steam_monitor/steam.py:41-44 | what is left is never negative, is the difference when positive, and is positive exactly when more is to be downloaded than was |
| Manifests.SkipSpaces | src/steam_monitor/steam.py:51 | `\s*` stops at the first non-whitespace character |
| Manifests.NextQuote | src/steam_monitor/steam.py:51 | `[^"]*` stops at the first quote |
| Manifests.LayoutMatches | src/steam_monitor/steam.py:51 | a line of the shape `\s*"k"\s+"v"\s*` matches, capturing `k` and `v` |
| Manifests.MatchHasLayout | src/steam_monitor/steam.py:51 | a line matches only with that shape, and the captures are its key and value |
| Manifests.KeyValueLineLayout | src/steam_monitor/steam.py:51 | a line assembled from padding, a non-empty quote-free key and a quote-free value has that shape |
| Manifests.MatchKeyValueLine | src/steam_monitor/steam.py:51-59 | such a line reads back as exactly its key and value |
| Manifests.QuotedPairMatches | src/steam_monitor/steam.py:51 | `"key" "value"` reads back as its key and value |
| Manifests.PairStep | src/steam_monitor/steam.py:56-59 | a matching line stores its value under its key |
| Manifests.StoreMatch | src/steam_monitor/steam.py:57-59 | one loop step: a match stores its value under its key, other lines change nothing |
| Manifests.ParseVdf | src/steam_monitor/steam.py:53-60 | the loop builds the map the specification gives for the text's lines |
| Manifests.KeyValuesHasKey | src/steam_monitor/steam.py:55-59 | a key is in the map exactly when some line matches with that key |
| Manifests.KeyValuesLastWins | src/steam_monitor/steam.py:58-59 | the stored value comes from the last line with that key |
| Manifests.FivePairs | src/steam_monitor/steam.py:53-60 | five `"key" "value"` lines parse to their pairs, later keys overwriting earlier ones |
| Manifests.QuotedPairNoBreak | src/steam_monitor/steam.py:51 | a `"key" "value"` line of break-free parts holds no line break |
| Manifests.FivePairsText | src/steam_monitor/steam.py:53-60 | five such lines joined by "\n", as a file holds them, parse to their pairs |
| Manifests.TestManifestText | tests/test_manifest_store.py:8-17 | the test's text, `"\n".join` of its five lines, parses to its five fields |
| Manifests.DigitRunEnd | src/steam_monitor/steam.py:370 | `\d+` ends at the first character that is not a digit |
| Manifests.AppIdFromStandardName | src/steam_monitor/steam.py:368-371 | the id is read back from `appmanifest_<n>.acf` |
| Manifests.AppIdFromFilenameIsDigits | src/steam_monitor/steam.py:368-371 | an id found in a file name is a non-empty run of digits |
| Manifests.ManifestFromFields | src/steam_monitor/steam.py:352-366 | a manifest exists exactly when an id comes from the map or the file name; its id and name are never empty, and the name falls back to "AppID <id>" |
| Manifests.FieldOfNat | src/steam_monitor/steam.py:380-385 | `_to_int` reads back the decimal text of a count |
| Manifests.ManifestOfFields | src/steam_monitor/steam.py:352-366 | a map with an id, a name and decimal counters gives exactly those fields, whatever the file name |
| Manifests.TestManifest | tests/test_manifest_store.py:23-29 | the test's fields give the manifest ("123", "Test Game", 100, 1000) with 900 bytes remaining |
| Monitoring.StatusTextNotQueued | src/steam_monitor/monitor.py:142-146 | a snapshot status is never "queued" and never empty |
| Monitoring.ActiveRateFacts | src/steam_monitor/monitor.py:140 | the active rate is never empty: "0 Mbps" when paused; otherwise the snapshot's rate when it is non-empty, and "N/A" exactly when it is missing, empty or itself "N/A" |
| Monitoring.PendingMembers | src/steam_monitor/monitor.py:135 | a manifest is pending exactly when it is in the catalog with bytes left |
| Monitoring.PendingEntries | src/steam_monitor/monitor.py:141-158 | one entry per pending manifest, in order |
| Monitoring.LastByAppId | src/steam_monitor/monitor.py:134 | the lookup finds a manifest exactly when one has the id; the one found has the id and no later manifest has it (the dict keeps the last) |
| Monitoring.EntriesShape | src/steam_monitor/monitor.py:135-188 | the entries are the pending manifests in order, each with its counters and bytes left, plus one extra entry exactly when needed |
| Monitoring.EntriesStatus | src/steam_monitor/monitor.py:140-146 | an entry is "queued" at "N/A" exactly when it is not the active title; the active one carries the snapshot's status and the active rate |
| Monitoring.ExtraEntryFacts | src/steam_monitor/monitor.py:160-188 | the extra entry comes last, names the active title, has a non-empty name, the snapshot's status and the active rate; its counters are those of the last catalog manifest of the title, or zero without one |
| Monitoring.ExtraNameOrder | src/steam_monitor/monitor.py:166-176 | the extra name is the catalog name, else the cached name, else "AppID <id>" |
| Monitoring.CacheNamesFacts | src/steam_monitor/monitor.py:147 | the pending loop removes nothing, leaves other names alone, and leaves each pending title with the name of its last pending manifest |
| Monitoring.CacheGrows | src/steam_monitor/monitor.py:147-171 | the name cache only grows; afterwards each pending title has the name of its last pending manifest, and an extra title found in the catalog has the name of its last catalog manifest |
| Monitoring.MakeEntry | src/steam_monitor/monitor.py:142-157 | the loop body builds the specified entry of one pending manifest |
| Monitoring.Monitor.QueuePending | src/steam_monitor/monitor.py:141-158 | the pending loop returns the pending entries and writes their names into the cache |
| Monitoring.Monitor.BuildEntries | src/steam_monitor/monitor.py:132-190 | `_build_entries` returns the specified entries and leaves the specified cache; the library list is untouched |
| Monitoring.Monitor.GetLibraryPaths | src/steam_monitor/monitor.py:192-196 | the provider's list is fetched on the first call only, and the cached list is returned afterwards |
| Monitoring.LibraryPathsTwice | src/steam_monitor/monitor.py:192-196 | two calls return the same list, and the provider runs at most once |
| Monitoring.FormatProgressGuard | src/steam_monitor/monitor.py:53-56 | "Progress: N/A" appears exactly for a total that is not positive |
| Monitoring.Group | src/steam_monitor/monitor.py:33-35 | an entry is in a group exactly when it is among the entries and has the group's status |
| Monitoring.GroupAppend | src/steam_monitor/monitor.py:34-35 | grouping keeps the order: the group of `a + b` is the group of `a` followed by that of `b` |
| Monitoring.GroupCount | src/steam_monitor/monitor.py:33-43 | the count in a section title is the number of entries with that status |
| Monitoring.GroupEmpty | src/steam_monitor/monitor.py:33-41 | a group is empty exactly when no entry has its status |
| Monitoring.ItemLines | src/steam_monitor/monitor.py:44-46 | one line per item, in order, each the `- name | Rate: rate | progress` line of its item |
| Monitoring.SectionsEmpty | src/steam_monitor/monitor.py:38-49 | no section is printed exactly when no entry has a status listed in `order` |
| Monitoring.RenderedFrame | src/steam_monitor/monitor.py:37-51 | the report starts with the timestamp line and ends with "", and is just the placeholder exactly when no status in `order` has an entry |
| Monitoring.SectionStartsWithTitle | src/steam_monitor/monitor.py:38-46 | a non-empty body opens with the section of the first status in `order` that has entries: its title with the count, then the line of its first item |
| Monitoring.GroupByStatus | src/steam_monitor/monitor.py:33-35 | the grouping loop gives every status in `order` its entries, in order |
| Monitoring.AppendItems | src/steam_monitor/monitor.py:44-46 | the item loop appends one line per item |
| Monitoring.AppendSection | src/steam_monitor/monitor.py:38-46 | one pass of the status loop appends the section: nothing for an empty group, else the title with the count, then the items |
| Monitoring.Render | src/steam_monitor/monitor.py:31-51 | `render` returns the specified report |

## Left out

- Python's `re` engine. The log patterns and `float()` are abstract functions in `LogParser.Patterns`. The `.vdf` line pattern and the manifest file-name pattern are modelled by hand for ASCII input. The `"path"` pattern of `libraryfolders.vdf` is not modelled: `Library.ListPaths` takes the values it captures as a parameter. `\d` is taken as `0-9`, while Python's `\d` also matches other Unicode digits.
- `str.upper()` and `str.lower()`: ASCII case mapping only, with no Unicode case folding. This affects the log-level names and the path keys.
- `int()` of a string: decimal digits with underscores between them, an optional sign and surrounding whitespace. Non-ASCII digits are not accepted, and `int()` of an infinite or NaN float (an `OverflowError` or `ValueError`) is not modelled.
- Config.Render: `str()` of a float, list or object item is a fixed non-blank stand-in ("0.0", "[]", "{}"), not Python's text. Which items are kept is the same, since none of these is blank after stripping, but the kept text differs: `[1.5]` gives `["0.0"]` here and `["1.5"]` in Python.
- Paths are plain strings. `pathlib` normalisation, separators and `path / name` joining are reduced to string concatenation. An absolute `log_rel_path` does not replace the root.
- File system and process I/O: `ContentLogReader.read`, the manifest glob and reads, the `libraryfolders.vdf` read, the `.env` file existence check and read, and `_read_json`. The model takes the text, the captured values or the set of existing paths as parameters.
- The registry and process probes (`winreg`, `subprocess`, `expandvars`/`expanduser`), `platform.system()` and `_platform_key`. The platform key is a parameter of `Config.ToCandidates`.
- `ConfigLoader.load`, `_build_config` and the rest of `_merge_env` apart from `env_list`. These only wire validated values into the settings record.
- Monitoring.FormatProgress: `_format_bytes` and the percent computation use floating point. The detailed progress text is an abstract function, and only the N/A guard is modelled.
- Config.Environment: the map is case-sensitive, as `os.environ` is on POSIX. On Windows `os.environ` ignores the case of keys, so `.env` lines `a=1` then `A=2` set one variable there and two here. The model's `DotenvKeys`, `DotenvFirstWins` and `AssignIfUnset` describe the case-sensitive behaviour.
- `asyncio` scheduling, timestamps, logging, `app.py` and the entry script.
- Monitoring.Monitor.GetLibraryPaths: the provider call is modelled by its result. A ghost counter records that it is taken at most once.
