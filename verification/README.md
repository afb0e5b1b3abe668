# clay, modelled in Dafny

clay is a small version-control tool for rapid prototyping. A background
server (the daemon) keeps an engine (`Core`) over a SQLite snapshot store.
The engine takes automatic snapshots while the user is active, lists them and
restores them. It also keeps a single in-memory "temp branch" flag. The
`clay` command line starts and stops the server itself. It forwards every
other command over a Unix socket as a length-prefixed frame. The server
splits the frame into words, runs them through the command dispatcher and
sends the command's report back in a frame.

The model follows the source file by file:

| module | source | form |
|---|---|---|
| `Snapshots` | include/clay/snapshot.hpp | datatypes and functions |
| `Storage` | src/storage.cpp | class `Storage` over a snapshot table and a delta table (maps), specified by ghost predicates on the tables |
| `Config`, `Ignore` | the text handling of src/core.cpp (`trim`, the `key = value` lines of clay.conf, `std::stoi`, the comma split, `isIgnored`) | functions and lemmas |
| `Engine` | src/core.cpp | class `Core` with the fields of `Core::Impl` |
| `Command` | src/command.cpp | one method per command and `Execute`, writing the report to `out` and complaints to `err` |
| `Wire` | the socket protocol shared by src/daemon.cpp and src/main.cpp | frames, the request text and its splitting into words |
| `Daemon` | src/daemon.cpp | class `Daemon` |
| `Client` | src/main.cpp | the client |

`Wrappers` holds `Option`, `Result` and `Outcome`. `Text` holds bytes,
`isspace`, ASCII case and substring search.

Several things the code draws from the world are parameters:

- `Env` in `Engine` carries the wall clock, the `steady_clock` reading, the
  `strftime` snapshot id, `Snapshot::timeString`, the text of clay.conf,
  whether the database opens, and the two tables its database file holds.
- `Daemon.Host` carries the pid files and the live processes.
- The server's accept loop sees a sequence of `Daemon.Accept` events.
- The client gets the set of existing paths and the bytes the server
  answers.

Where SQL leaves an order open, the model leaves it open too: `ORDER BY
timestamp` among equal timestamps, the rows of `loadDeltas`, and which of
several equally old rows `LIMIT` removes. The contracts hold for every
choice.

`Command::execute` is modelled with the report stream that src/daemon.cpp and
src/main.cpp pass to it (`execute(args, result)`, `help(std::cout)`). The
report goes to that stream and the complaints go to `std::cerr`.
src/command.cpp as written prints to `std::cout` directly.
`Core::isInitialized` is called at src/command.cpp:61, 68, 86 and 115 but is
neither declared nor defined in the code; the model reads it as a flag that
a successful `init` sets and nothing clears.

## Model

| member | source | states |
|---|---|---|
| `Snapshots.NewFileDelta` | include/clay/snapshot.hpp:18-19 | the delta holds the given path, action and content, with no base snapshot |
| `Snapshots.NewFileDeltaDefault` | include/clay/snapshot.hpp:18 | the content defaults to empty |
| `Snapshots.ShortId` | include/clay/snapshot.hpp:30-32 | the short id is a prefix of the id, 8 characters long or the whole id when it is shorter |
| `Snapshots.Summary` | include/clay/snapshot.hpp:40-42 | a message of at most 50 characters is kept as it is; a longer one is cut to its first 50 characters followed by "..."; the result is never longer than 53 |
| `Snapshots.SummaryIdempotent` | include/clay/snapshot.hpp:40-42 | summarising a summary changes nothing |
| `Text.FromBytes` | src/daemon.cpp:207 | the text of a byte buffer has one character per byte, with the same value |
| `Text.ToBytes` | src/daemon.cpp:220-223 | the bytes written for a text have one byte per character, with the same value when the text holds bytes only |
| `Text.TextRoundTrip` | src/daemon.cpp:207 | a byte text sent and read back is unchanged |
| `Text.BytesRoundTrip` | src/main.cpp:92 | bytes read as text and written again are unchanged |
| `Text.Lower` | src/core.cpp:280 | `icase` folds exactly the ASCII capitals to lower case |
| `Text.OccursAt` | src/command.cpp:101 | `find("min") != npos` holds exactly when "min" occurs at some index |
| `Storage.ActionOf` | src/storage.cpp:294 | the stored action code is read back as the action it encodes |
| `Storage.SnapshotOf` | src/storage.cpp:116-125 | a loaded snapshot has the requested id, the row's timestamp, flag and message, and the loaded deltas |
| `Storage.NullIfEmpty` | src/storage.cpp:245-255 | an empty base id or content is bound as SQL NULL, anything else as itself |
| `Storage.EmptyIfNull` | src/storage.cpp:283-292 | a NULL column is read as empty, anything else as itself |
| `Storage.DeltaRoundTrip` | src/storage.cpp:242-257 | a delta stored by `storeDelta` and read by `loadDeltas` is the same delta |
| `Storage.DropDeltas` | src/storage.cpp:156-165 | exactly the delta rows of the removed snapshot are deleted; the others keep their contents |
| `Storage.InsertDeltasSucceeds` | src/storage.cpp:86-93 | inserting a snapshot's deltas succeeds exactly when their paths are distinct and none of their (snapshot id, path) keys is taken |
| `Storage.InsertDeltasRows` | src/storage.cpp:233-264 | after a successful insert every earlier row is kept, each delta has its own row holding it, and there is no other new row |
| `Storage.InsertKeeps` | src/storage.cpp:233-264 | a successful insert keeps every earlier row with its contents |
| `Storage.InsertHolds` | src/storage.cpp:233-264 | after a successful insert each delta of the snapshot has its own row, keyed by the snapshot id and its path, holding it |
| `Storage.InsertOnly` | src/storage.cpp:86-93 | a successful insert adds no row but those of the snapshot's deltas |
| `Storage.StoreThenLoad` | src/storage.cpp:66-128 | after a successful store whose snapshot survives cleanup, the id is returned; loading it gives back the snapshot's row, and, when no delta rows of its id were left behind by earlier evictions, exactly its deltas in some order |
| `Storage.StoreThenLoadRow` | src/storage.cpp:66-125 | after a successful store into a table with room, or of a snapshot strictly newer than every row, the id is returned and its row loads back as the snapshot |
| `Storage.StoreThenLoadDeltas` | src/storage.cpp:86-128 | after a successful store of a snapshot whose id had no delta rows, any listing of its delta rows has exactly the snapshot's deltas, as many of them |
| `Storage.StoreEvictsOlder` | src/storage.cpp:66-99 | storing into a full table a snapshot older than every row succeeds and returns its id, yet `cleanup` has deleted that row |
| `Storage.StoreAllOrNothing` | src/storage.cpp:79-93 | a failed store leaves both tables as they were, when no delta row of that id existed before |
| `Storage.StoredDeltasLoadBack` | src/storage.cpp:101-128 | the deltas loaded for a freshly stored snapshot are the stored ones: the same number, the same members |
| `Storage.DistinctCount` | src/storage.cpp:51 | deltas with distinct paths have as many paths as deltas |
| `Storage.ListingDone` | src/storage.cpp:130-152 | when the listing loop has consumed every row, its result lists each row exactly once in timestamp order |
| `Storage.ListingStep` | src/storage.cpp:140-148 | appending an oldest remaining row keeps the listing invariant |
| `Storage.Oldest` | src/storage.cpp:134 | the row picked next is present and no row is older |
| `Storage.Storage.constructor` | src/storage.cpp:18-23 | a new store is empty |
| `Storage.Storage.Open` | src/storage.cpp:18-32 | a store opened on a database file holds exactly that file's tables |
| `Storage.Storage.Store` | src/storage.cpp:66-99 | a taken id fails and changes nothing; a taken delta key fails, rolls the snapshot back and drops every delta row of that id; otherwise the rows are in, cleanup has run and the id is returned |
| `Storage.Storage.StoreDelta` | src/storage.cpp:233-264 | the insert succeeds exactly when the (snapshot id, path) key is free, and then adds that one encoded row |
| `Storage.Storage.Load` | src/storage.cpp:101-128 | a missing id fails with "Snapshot not found"; otherwise the row of that id and exactly its delta rows |
| `Storage.Storage.LoadDeltas` | src/storage.cpp:266-301 | every delta row of the snapshot, each once, decoded, and nothing else |
| `Storage.Storage.List` | src/storage.cpp:130-152 | every row exactly once, without deltas, in non-decreasing timestamp order |
| `Storage.Storage.Remove` | src/storage.cpp:154-180 | the snapshot row and its delta rows are gone; the result is true whether or not the id existed |
| `Storage.Storage.Cleanup` | src/storage.cpp:182-212 | beyond 100 rows exactly the excess is deleted and no deleted row is newer than a kept one; otherwise nothing changes; delta rows are untouched |
| `Storage.Storage.LastSnapshotId` | src/storage.cpp:214-230 | "" for an empty table, otherwise the id of a row with the greatest timestamp |
| `Config.SkipSpacesSpec` | src/core.cpp:300-301 | the first non-whitespace position: everything before it is whitespace, the character at it is not |
| `Config.EndOfTextSpec` | src/core.cpp:302-303 | the end of the last non-whitespace character: everything after it is whitespace |
| `Config.TrimSpec` | src/core.cpp:299-305 | the trimmed text is a contiguous piece of the input with no whitespace at either end, and it is empty exactly when the input is all whitespace |
| `Config.TrimText` | src/core.cpp:299-305 | when some character is not whitespace, the trimmed text runs from the first to the last such character |
| `Config.TrimTextAt` | src/core.cpp:300-305 | the trimmed text sits at the first non-whitespace position with only whitespace before and after it |
| `Config.TrimTextEnds` | src/core.cpp:300-305 | a text with a non-whitespace character trims to a text that starts and ends with one |
| `Config.TrimNothing` | src/core.cpp:299-305 | a text without a non-whitespace character is all whitespace and trims to nothing |
| `Config.TrimKeepsOut` | src/core.cpp:299-305 | trimming only removes characters: a character absent from the input is absent from the result |
| `Config.TrimIdempotent` | src/core.cpp:299-305 | trimming twice is trimming once |
| `Config.TrimPadding` | src/core.cpp:299-305 | whitespace added on either side of a trimmed text is removed again |
| `Config.FindCharSpec` | src/core.cpp:244 | `find` gives the first occurrence, or none exactly when the character is absent |
| `Config.ParseLine` | src/core.cpp:238-248 | empty lines, comments, section headers and lines without '=' are skipped; otherwise the key is the trimmed text before the first '=' and the value the trimmed rest |
| `Config.ParseConfigLine` | src/core.cpp:347-353 | a line `key = value` as the default configuration writes it is read back as that key and value |
| `Config.ParseLineAt` | src/core.cpp:243-248 | the key and value are split at the first '=' |
| `Config.SplitAtCommasSpec` | src/core.cpp:258-263 | a value splits into one more piece than it has commas, the pieces hold no comma, and joining them with commas gives back the value |
| `Config.SplitAtCommasCount` | src/core.cpp:258-263 | there is one more piece than there are commas |
| `Config.SplitAtCommasPieces` | src/core.cpp:258-263 | no piece holds a comma |
| `Config.SplitAtCommasJoin` | src/core.cpp:258-263 | joining the pieces with commas gives back the value |
| `Config.SplitPatternsCount` | src/core.cpp:258-263 | the patterns are the comma-separated pieces, each trimmed |
| `Config.SplitPatternsStep` | src/core.cpp:259-261 | the first pattern is the trimmed text before the first comma, and the rest come from the text after it |
| `Config.SplitPatternsLast` | src/core.cpp:263 | without a comma, the whole trimmed value is the one pattern |
| `Config.TrimAllSpec` | src/core.cpp:260-263 | every piece is trimmed, in order |
| `Config.DigitPrefixSpec` | src/core.cpp:251 | `stoi` reads the longest run of leading digits |
| `Config.Stoi` | src/core.cpp:251-255 | a converted value lies within `int`; a failure is reported as "stoi" |
| `Config.DecimalValue` | src/core.cpp:251 | decimal digits denote the number they write |
| `Config.StoiDecimal` | src/core.cpp:251-255 | `stoi` of the decimal notation of an `int`, with or without a minus sign, is that number |
| `Config.ApplyLine` | src/core.cpp:246-264 | a skipped line changes nothing; a numeric key stores the value `stoi` reads in its own field only, and fails exactly when `stoi` throws, with its error; `ignore_patterns` appends its patterns; no other key fails or changes anything |
| `Config.ApplyLinesAppend` | src/core.cpp:238-265 | reading a file in two parts is reading it at once, and nothing after a throwing line has an effect |
| `Config.SkippedLinesChangeNothing` | src/core.cpp:238-245 | a file of comments, headers and lines without '=' leaves the settings as they were |
| `Config.SplitLinesOfLines` | src/core.cpp:238 | `getline` over text whose every line ends in a newline gives back those lines |
| `Ignore.WildMatchMeansFill` | src/core.cpp:273-284 | the wildcard match holds exactly when some choice of text for each '*' turns the pattern into the path, ignoring case |
| `Ignore.FillMatches` | src/core.cpp:273-284 | every filling of the stars is matched |
| `Ignore.MatchFill` | src/core.cpp:273-284 | every match comes from a filling of the stars |
| `Ignore.WildMatchNoStar` | src/core.cpp:280-281 | without '*', matching is equality ignoring case |
| `Ignore.WildMatchSuffix` | src/core.cpp:273-284 | `*ext` matches exactly the paths ending in `ext`, ignoring case |
| `Ignore.IsIgnored` | src/core.cpp:268-292 | a path is ignored exactly when some pattern matches it: the wildcard match for a pattern with '*', exact equality otherwise |
| `Ignore.DefaultPatterns` | src/core.cpp:352 | the default patterns ignore every path ending in `.tmp` in any letter case, and the exact path `build/` |
| `Ignore.SuffixPatternIgnores` | src/core.cpp:268-292 | a list holding `*ext` at some position ignores every path ending in `ext`, ignoring case |
| `Ignore.DefaultIgnoresTmp` | src/core.cpp:352 | a path whose last four characters are `.tmp` in any letter case is ignored through the pattern `*.tmp` |
| `Ignore.DefaultIgnoresUpperTmp` | src/core.cpp:352 | a name followed by `.TMP` is ignored |
| `Ignore.DefaultIgnoresBuild` | src/core.cpp:352 | the default list ignores the exact path `build/` |
| `Ignore.RegexAgrees` | src/core.cpp:275-281 | for a pattern without '.' and a path without line breaks, the regex the source builds and the wildcard match agree |
| `Ignore.RegexDotMatchesAnything` | src/core.cpp:275-281 | the regex built from `*.tmp` matches `footmp`, which the wildcard reading rejects |
| `Engine.WholeSeconds` | src/core.cpp:100-102 | `duration_cast<seconds>` truncates toward zero, for negative durations too |
| `Engine.AutosaveInTicks` | src/core.cpp:100-102 | for clock readings that do not go back, an autosave is due exactly when the user was active less than the idle threshold ago and the interval has passed since the last snapshot |
| `Engine.MessageOrDefault` | src/core.cpp:141 | a stored message is never empty and a given message is kept |
| `Engine.ListLineSpec` | src/core.cpp:182-185 | a listing line starts with the short id and the time and ends with the origin and the summary |
| `Engine.BranchStep` | src/core.cpp:197-228 | after create the flag is set; after commit or discard it is clear |
| `Engine.BranchStepsLast` | src/core.cpp:197-228 | after any sequence of branch calls, the flag says whether the last one was a create |
| `Engine.ListLines` | src/core.cpp:181-187 | one line per snapshot, in listing order |
| `Engine.LastListedIsNewest` | src/core.cpp:171 | the last snapshot of a listing has the greatest timestamp |
| `Engine.Core.constructor` | src/core.cpp:35-42 | not initialised, no temp branch, the default settings, both clock fields at construction time |
| `Engine.Core.AppendPatterns` | src/core.cpp:256-264 | the patterns of the value are appended in order |
| `Engine.Core.LoadConfig` | src/core.cpp:231-266 | the settings are those of reading the lines in order, stopping at a throwing `stoi` |
| `Engine.Core.Init` | src/core.cpp:44-77 | a database that does not open gives false and changes no setting and no table; otherwise the store is replaced by one on the workspace's database file, the configuration is read, a `stoi` failure propagates, and success marks the engine initialised |
| `Engine.Core.OnFileEvent` | src/core.cpp:86-91 | a file event on a path no pattern ignores marks activity now; directory events and ignored paths change nothing |
| `Engine.Core.TakeSnapshot` | src/core.cpp:123-147 | stores a snapshot with the wall-clock id and time and the message or its default; the store's outcome decides the tables; the clock is reset only on success |
| `Engine.Core.Tick` | src/core.cpp:96-111 | when no autosave is due the store is untouched; when one is due an automatic snapshot is stored and the loop stops on failure, keeping the time of the last snapshot; a key press marks activity |
| `Engine.Core.RestoreSnapshot` | src/core.cpp:149-161 | succeeds exactly when the snapshot exists |
| `Engine.Core.Undo` | src/core.cpp:163-175 | fails exactly on an empty store, otherwise restores a snapshot with the greatest timestamp |
| `Engine.Core.ListSnapshots` | src/core.cpp:177-190 | one formatted line for each snapshot of the listing, in listing order |
| `Engine.Core.CurrentSnapshotId` | src/core.cpp:192-195 | the id of a newest snapshot, "" for none |
| `Engine.Core.CreateTempBranch` | src/core.cpp:197-206 | refused when a temp branch is active, otherwise sets the flag |
| `Engine.Core.CommitTempBranch` | src/core.cpp:208-217 | refused when no temp branch is active, otherwise clears the flag |
| `Engine.Core.DiscardTempBranch` | src/core.cpp:219-228 | refused when no temp branch is active, otherwise clears the flag |
| `Command.DashesOnly` | src/command.cpp:79 | the timeline rule holds no line break |
| `Command.Lookup` | src/command.cpp:20-34 | a known word names the command with that word; an unknown word names none |
| `Command.ClassifyTarget` | src/command.cpp:96-111 | a ':' anywhere makes a clock time; otherwise "min" anywhere makes a relative time; otherwise it is a snapshot id |
| `Command.ParseBranch` | src/command.cpp:124-140 | fewer than two arguments is a usage error; `--temp` starts a temp branch; `--keep` with a name keeps it under that name; anything else is invalid |
| `Command.BranchRefusals` | src/command.cpp:133-139 | `--keep` without a name and any unknown flag are invalid, whatever follows |
| `Command.CommitMessageUses` | src/command.cpp:142-146 | the message is the second argument, later ones are ignored, and it defaults to "Manual snapshot" |
| `Command.ListingLines` | src/command.cpp:71 | one line per listed snapshot, in order |
| `Command.TimelineLines` | src/command.cpp:78-82 | the timeline report splits back into the title, the rule and the listing lines |
| `Command.TimelineReport` | src/command.cpp:73-82 | the notice when there are no lines, otherwise the title, the rule and each line, each followed by a newline |
| `Command.RunInit` | src/command.cpp:47-58 | a database that does not open is an error and changes nothing; otherwise the tables become those of the workspace's database file, the settings become those read from clay.conf and the outcome is that of reading it; the engine is initialised exactly when that succeeded or it already was; nothing else changes; success reports the path, "." by default |
| `Command.RunStatus` | src/command.cpp:60-65 | refused before init; otherwise reports the id of a newest snapshot, or an empty id |
| `Command.RunTimeline` | src/command.cpp:67-83 | refused before init; otherwise the timeline report of a listing of the store |
| `Command.RunRewind` | src/command.cpp:85-112 | refused before init or without a target; a clock or relative target is only announced; an id is restored, failing exactly when it is not stored |
| `Command.RunUndo` | src/command.cpp:114-122 | refused before init; fails exactly when the store is empty |
| `Command.RunBranch` | src/command.cpp:124-140 | usage and invalid forms are errors that change nothing; `--temp` and `--keep` report success and apply the engine step to the flag; nothing else changes |
| `Command.RunCommit` | src/command.cpp:142-150 | stores a manual snapshot with the commit message, whose failure is the error; the time of the last snapshot moves to now only on success; nothing else changes |
| `Command.Execute` | src/command.cpp:11-45 | no command or an unknown one gives 1 and the help, the unknown one also a complaint, and leaves the engine alone; for a known command its handler's outcome, report and new state, with 0 exactly when it succeeded and otherwise 1, no report and the error as one "Error: " line |
| `Command.Dispatch` | src/command.cpp:20-33 | the handler the command word names runs, with its outcome, report and new state |
| `Command.ExecutedCodes` | src/command.cpp:11-45 | the exit code is 0 or 1; for a known command it is 0 exactly when nothing went to the error stream, and a failure prints no report; the reading commands and a missing or unknown command leave the engine untouched |
| `Wire.EncodeLength` | src/main.cpp:54 | the length prefix is four bytes |
| `Wire.DecodeLength` | src/daemon.cpp:200 | four bytes decode to a 32-bit length |
| `Wire.LengthRoundTrip` | src/daemon.cpp:200 | `ntohl` undoes `htonl` |
| `Wire.PrefixRoundTrip` | src/main.cpp:77 | `htonl` undoes `ntohl` |
| `Wire.Frame` | src/daemon.cpp:220-223 | a frame is four length bytes followed by the payload |
| `Wire.ReadFrame` | src/daemon.cpp:194-205 | a read fails exactly when the length or the payload comes up short; otherwise the payload has the declared length and begins right after the prefix |
| `Wire.FrameRoundTrip` | src/daemon.cpp:194-223 | a frame is read back as its payload, whatever follows it |
| `Wire.TruncatedFrame` | src/main.cpp:70-90 | a frame cut short anywhere is rejected |
| `Wire.RequestLength` | src/main.cpp:49-54 | the request is as long as its arguments together plus one space each |
| `Wire.WordLengthSpec` | src/daemon.cpp:211 | a word is the maximal run of non-whitespace characters at the start |
| `Wire.TokensSpec` | src/daemon.cpp:207-213 | no word is empty or holds whitespace, and a text yields no word exactly when it is all whitespace |
| `Wire.TokensSplit` | src/daemon.cpp:211-213 | a whitespace character separates the words before it from those after it |
| `Wire.TokensSplitSpace` | src/daemon.cpp:211-213 | the separation holds when the text before the separator starts with whitespace |
| `Wire.TokensSplitWord` | src/daemon.cpp:211-213 | the separation holds when the text before the separator starts with a word |
| `Wire.TokensOfWord` | src/daemon.cpp:211-213 | a single word is its only word |
| `Wire.TokensOfRequest` | src/daemon.cpp:207-213 | splitting the client's request text gives back the arguments when each is a non-empty run without whitespace |
| `Wire.Tokenize` | src/daemon.cpp:207-213 | the tokenizing loop yields exactly the words of the text |
| `Daemon.ServedStopsAtFailure` | src/daemon.cpp:178-181 | nothing after a failed accept is served |
| `Daemon.ServedSkipsInterrupt` | src/daemon.cpp:179 | an interrupted accept changes nothing |
| `Daemon.Daemon.constructor` | src/daemon.cpp:27 | a new object has empty paths and is not running |
| `Daemon.Daemon.IsRunning` | src/daemon.cpp:129-141 | running exactly when the pid path is set and names a pid file of a live process; never with an empty pid path |
| `Daemon.Daemon.Start` | src/daemon.cpp:29-45 | refused with "Daemon is already running" when a server runs; otherwise the outcome of `fork`, whose failure is the `perror("fork")` line; a complaint is written exactly when the start is refused |
| `Daemon.Daemon.Stop` | src/daemon.cpp:101-127 | refused with "Daemon is not running" when no server runs; a failed signal is the `perror("kill")` line; otherwise succeeds exactly when the server is gone afterwards, with nothing on the error stream |
| `Daemon.Daemon.Serve` | src/daemon.cpp:72-93 | records the pid and socket paths of the workspace; serves exactly when the engine comes up, and then handles the accepted connections in order, starting from the engine as `init` left it (the workspace's tables and the clay.conf settings), each one running its command against the state the previous one left |
| `Daemon.Daemon.MainLoop` | src/daemon.cpp:173-187 | serves the connections before the first failed accept, skipping interrupted ones; the engine passes through one state per connection, each connection runs `execute` on its request's words against the state the previous one left and is answered with its report, and an incomplete request runs nothing and gets no answer |
| `Daemon.Daemon.Handle` | src/daemon.cpp:184-186 | one round of the loop: the connection is answered exactly when its request frame is complete, and the loop's sequence of engine states grows by the state it leaves |
| `Daemon.Daemon.HandleClient` | src/daemon.cpp:192-224 | a short read runs nothing and answers nothing; otherwise `execute` runs on the words of the request, with its outcome and new state, and its report comes back in a frame |
| `Daemon.Daemon.Answer` | src/daemon.cpp:184-186 | one connection: an incomplete request frame runs nothing and is not answered; a complete one runs `execute` on its words, with that command's new state, and is answered with a frame of its report |
| `Daemon.TraceStep` | src/daemon.cpp:173-187 | handling one more connection, after the ones before it, extends the loop's sequence of engine states by the state that connection leaves |
| `Daemon.UnansweredKeepsState` | src/daemon.cpp:192-205 | a loop whose every request frame comes up short answers nothing and leaves the engine as it found it |
| `Daemon.ClientStop` | src/main.cpp:116-121 | the client's `stop` as written is refused whatever runs, always with "Daemon is not running" |
| `Daemon.ClientStatus` | src/main.cpp:122-128 | the client's `status` as written always reports the server as stopped |
| `Daemon.ClientStart` | src/main.cpp:108-114 | the client's `init` as written is never refused: the outcome is that of `fork`, whatever runs, and only a failed `fork` complains |
| `Daemon.ClientMissesLiveServer` | src/main.cpp:108-128 | with a live server for "." the pid path the client as written holds finds nothing, while the workspace's pid path finds the server |
| `Daemon.ForWorkspace` | src/daemon.cpp:72-82 | an object for a workspace has that workspace's pid and socket paths and is not running |
| `Daemon.ClientStartIn` | src/main.cpp:109-115 | with the workspace's pid path, `init` is refused exactly when a server of that workspace runs ("Daemon is already running") or `fork` fails (its `perror` line) |
| `Daemon.ClientStopIn` | src/main.cpp:116-121 | with the workspace's pid path, `stop` succeeds exactly when that server runs, the signal is sent and the server is gone afterwards; no server gives "Daemon is not running" and a failed signal its `perror` line |
| `Daemon.ClientStatusIn` | src/main.cpp:122-128 | with the workspace's pid path, a live server of the workspace is reported as running |
| `Client.FindSocket` | src/main.cpp:17-28 | the first existing socket path among the workspace and its five nearest parents, nearest first, or none when none exists |
| `Client.BuildRequest` | src/main.cpp:49-53 | the request text is each argument followed by one space |
| `Client.RequestRoundTrip` | src/main.cpp:49-67 | the server reads back exactly the client's arguments, when they are non-empty byte words without whitespace and the request fits a 32-bit length |
| `Client.RequestFrame` | src/main.cpp:54-67 | the frame of a byte text is read back as that text |
| `Client.RequestBytes` | src/main.cpp:49-53 | a request built from byte strings is a byte string |
| `Client.ReadReply` | src/main.cpp:70-94 | 0 and the payload exactly when a complete frame arrives, otherwise 1 and nothing printed |
| `Client.ReplyComplaint` | src/main.cpp:70-89 | nothing for a complete frame; the `perror` line when the length does not arrive; the received and announced byte counts when the payload comes up short |
| `Client.SendCommand` | src/main.cpp:15-95 | with no socket found, 1 and the "not running" complaint, nothing sent; otherwise the request frame is sent, the reply decides the result, and a complaint goes to the error stream exactly when the result is 1 |
| `Client.RouteOf` | src/main.cpp:103-131 | no argument shows the help; `init` (workspace "." by default), `stop` and a bare `status` are local; everything else is forwarded |
| `Client.StatusWithArgumentsForwarded` | src/main.cpp:122 | `status` with an argument goes to the server |
| `Client.Run` | src/main.cpp:97-132 | help and 1 without arguments; the local commands answer from the workspace's pid file and the outcome of `fork` and `kill`, with the server object's complaint on a refusal; a forwarded command fails with "not running" when no socket is found and otherwise returns what the reply says, with its complaint |

## Left out

- File and socket I/O are inputs: the file system is a set of paths, the database a pair of tables, the socket a sequence of accept events and byte strings.
- The watcher (src/watcher.cpp) is not part of this model. Its callback is `Engine.Core.OnFileEvent`, and the path passed to it is taken to be relative already: `fs::relative` is not modelled.
- Path equality in `isIgnored` is string equality; `fs::path` normalisation is not modelled.
- `Ignore.IsIgnored`: the source compiles a `*` pattern as a regular expression. The model uses the wildcard reading (see Findings). Regex metacharacters other than `*` and `.` are not modelled in `Ignore.RegexMatch` either.
- SQLite failures other than the modelled key clashes are out: failing prepares, failing open beyond the one `storageOpens` flag, and failing steps. A failing `DELETE` inside `remove` is out too.
- `Storage.Storage.constructor` / `init`: the database file, the `CREATE TABLE` statements and the `.clay` directory and clay.conf creation in `Core::init` are not modelled. `Env.storageOpens` stands for all of them.
- Time formatting (`strftime`, `localtime`) is the function `Env.timeString`, and the snapshot id is `Env.snapshotId`.
- The engine's own logging to `std::cout` and `std::cerr` is not modelled: the server closes both.
- Calls on the engine before `init` (when the storage pointer is still null) are not modelled; the model's engine always has its store.
- Threads, the snapshot mutex, the atomics and the one-second sleep of `run` are out. `Engine.Core.Tick` is one round of the loop, and `running_`/`shutdown` are not modelled.
- `isKeyPressed` (terminal I/O) is the `keyPressed` input of `Tick`.
- `Core::instance` and `Daemon::instance` are singletons in the source; the model passes the objects explicitly.
- The daemonising steps of `start` are out: `umask`, `setsid`, closing descriptors, `chdir`, writing the pid file, and socket `bind`/`listen` failures. Because the server changes into the workspace (src/daemon.cpp:57) before it writes `workspace + "/.clay/clay.pid"` (:72) and binds `workspace + "/.clay/clay.sock"` (:82), a relative workspace makes those paths resolve below the workspace itself; `Daemon.PidPath(workspace)` and `Daemon.SockPath(workspace)` name the files the server uses only when the workspace is "." or absolute, and the model records them regardless.
- `Engine.Core.Init`: when the database does not open (src/core.cpp:67-71), the source is left holding the new, unopened store, whose later statements fail; the model keeps the tables held before. A failure to create the `.clay` directory (:49-54) returns before the store is replaced and is covered by the same `storageOpens` flag.
- `Storage.Storage.Store`, `Storage.Storage.Load`: text is bound with length -1 (src/storage.cpp:74, 77, 109, 163, 175, 242, 243, 248, 277) and read back with `sqlite3_column_text` (:117, 120, 142, 145, 227, 281, 284), so SQLite stops every id, message, path and base id at its first NUL character; the model stores and returns whole strings, so its round trips hold only for text without NUL.
- The client takes `socket`, `connect` and `write` to succeed, and each `read` returns all the bytes available.
- `Wire.Frame` keeps the low 32 bits of the length as `htonl` does, but payloads of 2^32 bytes or more are not otherwise considered.
- `Daemon.Daemon.HandleClient` returns the parsed words, the exit code, the report and the error text only as ghost results; the server sends the report frame and nothing else.
- `strerror(errno)`, which `perror` appends, is the `reason` input of `Client.SendCommand`, `Client.Run`, `Daemon.Daemon.Start` and `Daemon.Daemon.Stop`; a `read` that fails outright (`bytes_read < 0`) is not modelled.
- `Daemon.Daemon.Stop`: its `perror("pid file")` (src/daemon.cpp:108-111) is not modelled, because the pid file `isRunning` has just read successfully is taken to be still there.
- `Storage.StoreThenLoad` holds only when the table had room or the new snapshot is strictly newer than every stored one. Otherwise `store` returns the id of a row its own `cleanup` may have deleted, and loading that id then fails; `Storage.StoreEvictsOlder` proves that this happens.
- The source's `undo` restores the newest snapshot, not the one before it; the model keeps that.
- `restoreSnapshot` and the clock and relative forms of `rewind` do not touch files in the source; the model keeps that.
- `cleanup` deletes snapshot rows only and leaves their delta rows behind; the model keeps that, so a later store of the same id and path fails.
- `max_snapshots` from clay.conf sets a field nothing reads; the store always keeps 100.
- `remove` reports success even when the id is absent.
- The server never calls `Core::run`, so it takes no automatic snapshots; `Tick` models `run` on its own.
- `Command.RunBranch`: the report is printed even when the engine refused the call, as in the source.
- `Client.Run`: a forwarded command that fails still exits 0 with an empty reply. The error went to the server's closed `std::cerr`.

## Findings

| source | as written | input that shows it | evidently intended | confidence | as-written member | corrected member |
|---|---|---|---|---|---|---|
| src/core.cpp:275-281 | each `*` becomes `.*` and the rest of the pattern is compiled as a regular expression, so the `.` of `*.tmp` matches any character | the path `footmp` is ignored under `*.tmp` | `*.tmp` ignores exactly the paths ending in `.tmp`, ignoring case | high, not executed | `Ignore.RegexMatch`, `Ignore.RegexDotMatchesAnything` | `Ignore.IsIgnored`, `Ignore.WildMatchSuffix` |
| src/main.cpp:108-128 | the client asks `Daemon::instance()`, whose pid path (src/daemon.cpp:27) only the server process sets (src/daemon.cpp:72), so `isRunning` returns false at once | a server runs for ".", and its pid file names the live pid 42: `clay init` is not refused, `clay stop` fails and `clay status` prints "stopped" | the client reads the pid file of the workspace it runs in | high, not executed | `Daemon.ClientStart`, `Daemon.ClientStop`, `Daemon.ClientStatus`, `Daemon.ClientMissesLiveServer` | `Daemon.ClientStartIn`, `Daemon.ClientStopIn`, `Daemon.ClientStatusIn` |
