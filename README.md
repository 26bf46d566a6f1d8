# gvt: a single-branch snapshot version store, modelled in Dafny

gvt keeps linear, numbered snapshots of chosen files of one working
directory, in a hidden `.gvt` directory. That directory holds:

- `HEAD` and `ACTIVE`, which store version counters as text;
- `index.txt`, the list of tracked file names;
- one `versions/<id>/` directory per version, holding a `message.txt` and a
  `files/` copy of every tracked file that existed at that moment.

The commands are `init`, `add`, `detach`, `commit`, `history`, `version`
and `checkout`. Each one exits with a code and a message.

The model has three layers:

- **Values** (`Snapshots`). A pure description of the store: the disk as a
  datatype, the controller's in-memory counters, and the transition each
  controller operation performs. Lemmas state what each transition
  promises. The main one is the invariant `Consistent`: it holds for every
  store gvt itself produces, and every command keeps it.
- **The controller object** (`VersionControl.VersionController`). A class
  whose fields are the Java fields plus the persisted files, updated in
  place. Each method is proved to perform exactly its `Snapshots`
  transition. The three loops of the source (copying the tracked files into
  a new version, counting the history down, copying a version's files
  back) are methods with loop invariants.
- **The commands** (`Commands`, `Gvt`, `GvtMain`). Each command's effect is
  a function from the store before to the exit, the store after and the
  working directory after. Each `Execute…` method is proved to have that
  effect on the object, and the lemmas state what the commands promise.

`Walkthrough` replays a first session run by run: init, add, edit, commit,
detach, checkout 1, version 99.

The working directory is a map from relative file paths, in the form
`Paths.get` prints them, to byte strings. It is
passed in, and `checkout` returns its new value. Java's behaviour is
written out where the program depends on it: `int` wrap-around,
`Integer.parseInt`, `String.trim`, `String.valueOf(int)`,
`Paths.get` (runs of '/' collapsed, a trailing '/' dropped),
`Path.getFileName`, `split("\n")[0]`, and the regular expression `^"|"$`
(whose `$` also matches before a final line terminator).

The model follows the code, including these behaviours a reader might not
expect:

- `history -last N` does not clamp at version 0. It prints N lines from
  head down to head − N + 1, and ids below 0 print as `(no message)`.
  `-last 0` prints everything.
- Tracking is idempotent only for plain names. `add` checks the full path
  against `index.txt` but stores only the base name. So `add dir/a.txt`
  twice appends `a.txt` twice, and the same path is never reported as
  added. Likewise `add a.txt/` finds `a.txt` (the existence check sees the
  normalised path) and tracks `a.txt`, while `commit a.txt/` finds the
  file but reports it as not added.
- `createNewVersion` writes the new head into `ACTIVE` but leaves the
  in-memory `active` alone. `checkout` changes neither.
- Version 0's message is `GVT initialized.`.
- `init` on a directory whose `.gvt` already exists but does not load
  still exits 0. The failing `createDirectory` is caught and reported
  inside `Gvt.initialize`.
- A malformed `ACTIVE` makes `version` without an argument throw
  `NumberFormatException`. `mainInternal` catches it as an unknown command
  (exit 1). A store loaded from disk never reaches that path
  (`GvtMain.LoadedVersionNeverEscapes`).

## Model

| member | source | states |
|---|---|---|
| Text.Wrap32 | src/main/java/uj/wmii/pwj/gvt/VersionController.java:139 | Java `int` arithmetic: the result is in the int range, congruent to the exact value modulo 2^32, and equal to it when it is in range |
| Text.TrimStart | src/main/java/uj/wmii/pwj/gvt/VersionController.java:50-51 | the leading half of `trim()`: the result is a suffix of the input, every dropped character is <= ' ' and a non-empty result does not start with one |
| Text.TrimEnd | src/main/java/uj/wmii/pwj/gvt/VersionController.java:50-51 | the trailing half of `trim()`: the result is a prefix of the input, every dropped character is <= ' ' and a non-empty result does not end with one |
| Text.Trim | src/main/java/uj/wmii/pwj/gvt/VersionController.java:50-51 | `trim()` leaves no character <= ' ' at either end, and leaves an already trimmed string unchanged |
| Text.ParseInt | src/main/java/uj/wmii/pwj/gvt/Command.java:146 | `Integer.parseInt` yields only int-range values and rejects the empty string |
| Text.ParseIntRoundTrip | src/main/java/uj/wmii/pwj/gvt/VersionController.java:118-119 | every int written by `String.valueOf` parses back to itself |
| Text.TrimIntToString | src/main/java/uj/wmii/pwj/gvt/VersionController.java:50-51 | `trim` leaves a printed int unchanged, so `HEAD` and `ACTIVE` read back exactly |
| Text.NatToStringValue | src/main/java/uj/wmii/pwj/gvt/VersionController.java:118 | the decimal digits printed for n have value n |
| Text.NatToString | src/main/java/uj/wmii/pwj/gvt/VersionController.java:118 | the decimal form of a non-negative int is a non-empty string of digits without a leading zero: it starts with '0' exactly for 0, and is then "0" |
| Text.IntToString | src/main/java/uj/wmii/pwj/gvt/VersionController.java:118 | `String.valueOf(int)` is non-empty, all decimal digits except a leading '-', which appears exactly for negative values, and never has a leading zero (after the '-' for negative values; only "0" itself starts with '0') |
| Text.DropTrailingSlashes | src/main/java/uj/wmii/pwj/gvt/VersionController.java:91 | trailing '/' are not part of a path's last name: the result is a prefix of the path that does not end in '/', and every character dropped is a '/' |
| Text.LastComponentAfterSlash | src/main/java/uj/wmii/pwj/gvt/VersionController.java:91 | the last component of `a/b`, for a '/'-free b, is b |
| Text.LastComponent | src/main/java/uj/wmii/pwj/gvt/VersionController.java:91 | the characters after the last '/' contain no '/' |
| Text.LastComponentOfPlainName | src/main/java/uj/wmii/pwj/gvt/VersionController.java:91 | a string without '/' is its own last component |
| Text.BaseName | src/main/java/uj/wmii/pwj/gvt/VersionController.java:91 | `getFileName()` of a relative path never contains '/' |
| Text.BaseNameIsLastName | src/main/java/uj/wmii/pwj/gvt/VersionController.java:91 | the file name is the longest '/'-free suffix of the path without its trailing '/' |
| Text.NestedBaseName | src/main/java/uj/wmii/pwj/gvt/VersionController.java:91 | the file name of "dir/a.txt", and of "dir/a.txt/", is "a.txt" |
| Text.LastComponentIsSuffix | src/main/java/uj/wmii/pwj/gvt/VersionController.java:91 | the file name is a suffix of the path, preceded by '/' when it is shorter |
| Text.BaseNameOfPlainName | src/main/java/uj/wmii/pwj/gvt/VersionController.java:91 | a name without '/' is its own file name |
| Text.JavaPath | src/main/java/uj/wmii/pwj/gvt/Command.java:35-37 | the string form of `Paths.get`: a name without '/' is unchanged, no '/' is doubled, and no '/' ends a path longer than one character |
| Text.CollapseSlashes | src/main/java/uj/wmii/pwj/gvt/Command.java:35 | no doubled '/' remains; the first character and a name without '/' are kept |
| Text.CollapseDoubled | src/main/java/uj/wmii/pwj/gvt/Command.java:35 | a '/' next to another '/' disappears, so with CollapseNormal each run of '/' leaves exactly one '/' and nothing else changes |
| Text.JoinedNames | src/main/java/uj/wmii/pwj/gvt/Command.java:35-37 | `dir//a.txt` is the path `dir/a.txt`: two plain names joined by "//" print joined by one '/' |
| Text.CollapseNormal | src/main/java/uj/wmii/pwj/gvt/Command.java:35 | a string without a doubled '/' is left alone |
| Text.JavaPathIdempotent | src/main/java/uj/wmii/pwj/gvt/Command.java:35 | the string form of a path is its own string form |
| Text.JavaPathTrailingSlash | src/main/java/uj/wmii/pwj/gvt/Command.java:35-37 | a plain name with a trailing '/' denotes the file with that name |
| Text.FirstLine | src/main/java/uj/wmii/pwj/gvt/VersionController.java:146 | `split("\n")[0]` is the prefix before the first newline, which contains no newline |
| Text.FirstLineOfLine | src/main/java/uj/wmii/pwj/gvt/VersionController.java:146 | the first line of a newline-free text followed by a newline (or by nothing) is that text |
| Text.ToUpper | src/main/java/uj/wmii/pwj/gvt/Gvt.java:42 | `toUpperCase` keeps the length and upper-cases each ASCII letter |
| Text.StripLeadingQuote | src/main/java/uj/wmii/pwj/gvt/Command.java:233 | `^"` removes one quote at the start and nothing else |
| Text.StripTrailingQuote | src/main/java/uj/wmii/pwj/gvt/Command.java:233 | `"$` removes at most one quote, within the last three characters, and nothing else |
| Text.EndQuoteNearEnd | src/main/java/uj/wmii/pwj/gvt/Command.java:233 | a quote that `"$` can match is last, before a final line terminator, or before a final `\r\n` |
| Text.OnlyEndQuote | src/main/java/uj/wmii/pwj/gvt/Command.java:233 | at most one quote is followed by the end or by one final line terminator |
| Text.StripTrailingQuoteExact | src/main/java/uj/wmii/pwj/gvt/Command.java:233 | `"$` changes the text exactly when a quote is followed by nothing or by one final line terminator (`\r\n` counting as one), and then removes exactly that quote |
| Text.CleanMessage | src/main/java/uj/wmii/pwj/gvt/Command.java:233 | the cleaned message has no blank at either end |
| Text.CleanQuoted | src/main/java/uj/wmii/pwj/gvt/Command.java:233 | a quoted message loses exactly its two quotes |
| Text.CleanClosingQuote | src/main/java/uj/wmii/pwj/gvt/Command.java:233 | a message with only a closing quote (`msg"`) loses that quote |
| Text.QuoteBeforeNewline | src/main/java/uj/wmii/pwj/gvt/Command.java:233 | the quote just before a final newline is the one `"$` removes |
| Text.TrimNewline | src/main/java/uj/wmii/pwj/gvt/Command.java:233 | `trim` drops a final newline after a trimmed text |
| Text.CleanQuotedLine | src/main/java/uj/wmii/pwj/gvt/Command.java:233 | `"msg"` followed by a newline cleans to msg: the closing quote goes although it is not last, and `trim` drops the newline |
| Snapshots.Load | src/main/java/uj/wmii/pwj/gvt/VersionController.java:45-58 | the store is initialized iff both `HEAD` and `ACTIVE` exist and parse after `trim`, and then the counters are their values; otherwise `active` stays 0 |
| Snapshots.LoadEmpty | src/main/java/uj/wmii/pwj/gvt/VersionController.java:45-58 | a directory without `.gvt` loads as uninitialized, satisfying the invariant |
| Snapshots.ReloadPersisted | src/main/java/uj/wmii/pwj/gvt/VersionController.java:45-58 | what gvt wrote loads back as the same store, with `active` equal to head |
| Snapshots.PersistedActive | src/main/java/uj/wmii/pwj/gvt/Gvt.java:97-105 | `getActiveVersion`: 0 without `ACTIVE`, and an int value whenever it parses |
| Snapshots.PersistedActiveIsHead | src/main/java/uj/wmii/pwj/gvt/Gvt.java:97-105 | on a consistent store, `getActiveVersion` reads head, whatever the in-memory `active` holds |
| Snapshots.VersionIds | src/main/java/uj/wmii/pwj/gvt/Gvt.java:107-110 | on a consistent store, exactly the ids 0..head are versions |
| Snapshots.PathNeverTracked | src/main/java/uj/wmii/pwj/gvt/Gvt.java:71-79 | a path containing '/' is never reported as tracked, because the index holds base names |
| Snapshots.IsTracked | src/main/java/uj/wmii/pwj/gvt/VersionController.java:81-88 | `checkFile` holds exactly when the name is in the index, and never without `index.txt` |
| Snapshots.FileExists | src/main/java/uj/wmii/pwj/gvt/Command.java:35-37 | for a name without '/', `Files.exists` holds exactly when the working directory has that name |
| Snapshots.InitializeStore | src/main/java/uj/wmii/pwj/gvt/VersionController.java:60-79 | `initialize` changes the store exactly when `.gvt` is absent, always leaves `.gvt` present and never touches the index |
| Snapshots.InitializeFresh | src/main/java/uj/wmii/pwj/gvt/VersionController.java:60-79 | `initialize` on a fresh directory gives head = active = 0, `HEAD` = `ACTIVE` = "0", and one version 0 with message "GVT initialized." and no files; the invariant holds |
| Snapshots.InitializeExisting | src/main/java/uj/wmii/pwj/gvt/VersionController.java:61 | when `.gvt` exists, the first `createDirectory` fails and nothing changes |
| Snapshots.TrackName | src/main/java/uj/wmii/pwj/gvt/VersionController.java:90-100 | `addFile` makes exactly the one more name tracked, grows the index by one entry, and changes nothing but the index |
| Snapshots.FirstIndex | src/main/java/uj/wmii/pwj/gvt/VersionController.java:129 | the position of the first occurrence of a name |
| Snapshots.RemoveFirst | src/main/java/uj/wmii/pwj/gvt/VersionController.java:129 | `List.remove` shortens the list by one exactly when the name is present, and introduces no new names |
| Snapshots.RemoveFirstAbsent | src/main/java/uj/wmii/pwj/gvt/VersionController.java:129 | `List.remove` of an absent name leaves the list unchanged |
| Snapshots.RemoveFirstPresent | src/main/java/uj/wmii/pwj/gvt/VersionController.java:129 | `List.remove` of a present name removes exactly one copy from the multiset of names |
| Snapshots.RemoveFirstSplit | src/main/java/uj/wmii/pwj/gvt/VersionController.java:129 | removal drops exactly the first occurrence: the list after it is the part before the first occurrence followed by the part after it |
| Snapshots.UntrackName | src/main/java/uj/wmii/pwj/gvt/VersionController.java:123-131 | `detachFile` keeps whether `index.txt` exists, makes no name newly tracked, and changes nothing but the index |
| Snapshots.TrackPreserves | src/main/java/uj/wmii/pwj/gvt/VersionController.java:90-100 | appending a base name keeps the invariant |
| Snapshots.UntrackPreserves | src/main/java/uj/wmii/pwj/gvt/VersionController.java:123-131 | detaching keeps the invariant |
| Snapshots.TrackTwiceDuplicates | src/main/java/uj/wmii/pwj/gvt/VersionController.java:98 | `addFile` twice appends the name twice: the index is a list, not a set |
| Snapshots.SnapshotStep | src/main/java/uj/wmii/pwj/gvt/VersionController.java:109-115 | one more tracked name is copied exactly when it exists in the working directory |
| Snapshots.Snapshot | src/main/java/uj/wmii/pwj/gvt/VersionController.java:106-116 | the copied files are exactly the tracked names present in the working directory, each with its working bytes |
| Snapshots.PriorFiles | src/main/java/uj/wmii/pwj/gvt/VersionController.java:104-105 | the files already under `versions/<id>/files/` are exactly the ones each stored-file lookup finds, with the same bytes |
| Snapshots.CreateVersion | src/main/java/uj/wmii/pwj/gvt/VersionController.java:102-120 | head moves up by one, `HEAD` and `ACTIVE` hold the new head, the in-memory `active` and the index are unchanged, there is one new version with the message, and all other versions are kept |
| Snapshots.CreateVersionFresh | src/main/java/uj/wmii/pwj/gvt/VersionController.java:102-120 | on a consistent store the new snapshot holds exactly the tracked names present in the working directory, with their bytes; earlier versions are untouched; `active` < head afterwards; the invariant holds |
| Snapshots.CreateVersionReload | src/main/java/uj/wmii/pwj/gvt/VersionController.java:118-119 | a later load sees the new version as head and as active, unlike the in-memory `active` |
| Snapshots.HistoryLast | src/main/java/uj/wmii/pwj/gvt/VersionController.java:139 | without a limit the bound is -1; otherwise it is `head - limit - 1` in `int` arithmetic |
| Snapshots.IdsShape | src/main/java/uj/wmii/pwj/gvt/VersionController.java:143 | the countdown visits hi − last ids, strictly descending from hi |
| Snapshots.Line | src/main/java/uj/wmii/pwj/gvt/VersionController.java:144-148 | one history line: "<id>: ", then the first line of the version's message, or "(no message)" without one, then the line's only newline |
| Snapshots.HistoryMessage | src/main/java/uj/wmii/pwj/gvt/VersionController.java:145-147 | the text a history line shows never holds a newline |
| Snapshots.HistoryEntry | src/main/java/uj/wmii/pwj/gvt/VersionController.java:148 | `id + ": " + text + "\n"` holds the text between the prefix and its one newline |
| Snapshots.OneNewline | src/main/java/uj/wmii/pwj/gvt/VersionController.java:148 | two newline-free texts and a newline hold one newline, with each text in its place |
| Snapshots.HistoryLineOfCreated | src/main/java/uj/wmii/pwj/gvt/VersionController.java:144-148 | the history line of a created version is "<head>: " followed by the first line of the message it was created with |
| Snapshots.Render | src/main/java/uj/wmii/pwj/gvt/VersionController.java:142-150 | the rendered history holds one newline per visited id |
| Snapshots.RenderSnoc | src/main/java/uj/wmii/pwj/gvt/VersionController.java:148 | each visited id appends one line |
| Snapshots.HistoryText | src/main/java/uj/wmii/pwj/gvt/VersionController.java:137-151 | `printHistory` is "" without `versions/`, and otherwise has one line per id of the countdown |
| Snapshots.HistoryAll | src/main/java/uj/wmii/pwj/gvt/VersionController.java:137-151 | without a limit, the history lists head down to 0, all of them existing versions |
| Snapshots.HistoryLimited | src/main/java/uj/wmii/pwj/gvt/VersionController.java:139-143 | with limit L >= 0 the history has L + 1 lines, head down to head − L, not clamped at 0 |
| Snapshots.NegativeIdLine | src/main/java/uj/wmii/pwj/gvt/VersionController.java:145-148 | an id below 0 prints as `(no message)` |
| Snapshots.Details | src/main/java/uj/wmii/pwj/gvt/VersionController.java:153-161 | `printVersionDetails` is the header "Version: <id>\n" followed by the stored message, or by "(no message)" without one |
| Snapshots.DetailsOfCreated | src/main/java/uj/wmii/pwj/gvt/VersionController.java:153-161 | the details of a version are the header "Version: <id>\n" followed by its message, verbatim |
| Snapshots.Restore | src/main/java/uj/wmii/pwj/gvt/VersionController.java:163-178 | checkout adds the version's files to the working directory, gives each the stored bytes, and keeps every file the version does not hold |
| Snapshots.RestoreCreated | src/main/java/uj/wmii/pwj/gvt/VersionController.java:163-178 | checking out a version restores the bytes it snapshotted, adds its files, and leaves every other file as it is |
| VersionControl.CopyTracked | src/main/java/uj/wmii/pwj/gvt/VersionController.java:106-116 | the copy loop yields the files already in the directory overwritten by the snapshot of the tracked files |
| VersionControl.CountDown | src/main/java/uj/wmii/pwj/gvt/VersionController.java:142-150 | the countdown loop yields the rendered lines of the ids from head down to last + 1 |
| VersionControl.VersionController.constructor | src/main/java/uj/wmii/pwj/gvt/VersionController.java:24-27 | the new object's state is the load of the disk |
| VersionControl.VersionController.Init | src/main/java/uj/wmii/pwj/gvt/VersionController.java:45-58 | starting from Java's defaults, `init()` produces the loaded counters |
| VersionControl.VersionController.Initialize | src/main/java/uj/wmii/pwj/gvt/VersionController.java:60-79 | the state after `initialize()` is the transition `InitializeStore`, and it succeeds iff `.gvt` was absent |
| VersionControl.VersionController.CheckFile | src/main/java/uj/wmii/pwj/gvt/VersionController.java:81-88 | true iff `index.txt` exists and lists the name exactly |
| VersionControl.VersionController.AddFile | src/main/java/uj/wmii/pwj/gvt/VersionController.java:90-100 | the index gains the path's base name at its end, and nothing else changes |
| VersionControl.VersionController.DetachFile | src/main/java/uj/wmii/pwj/gvt/VersionController.java:123-131 | the first occurrence is removed; without `index.txt` nothing changes |
| VersionControl.VersionController.CreateNewVersion | src/main/java/uj/wmii/pwj/gvt/VersionController.java:102-120 | performs the transition `CreateVersion`: head + 1, `active` and index unchanged |
| VersionControl.VersionController.PrintHistory | src/main/java/uj/wmii/pwj/gvt/VersionController.java:137-151 | the text is the history of the store; it is empty without `versions/` |
| VersionControl.VersionController.PrintVersionDetails | src/main/java/uj/wmii/pwj/gvt/VersionController.java:153-161 | the text starts with "Version: <id>\n" and is the version's details |
| VersionControl.VersionController.CheckoutVersion | src/main/java/uj/wmii/pwj/gvt/VersionController.java:163-178 | the result is the working directory overwritten by the version's files; no file is removed |
| Gvt.VersionExists | src/main/java/uj/wmii/pwj/gvt/Gvt.java:107-110 | true iff the version directory exists; on a consistent store, iff 0 <= id <= head |
| Gvt.GetActiveVersion | src/main/java/uj/wmii/pwj/gvt/Gvt.java:97-105 | 0 without `ACTIVE`, else its trimmed parse (None for the exception); on a consistent store, head |
| Gvt.IsFileAlreadyAdded | src/main/java/uj/wmii/pwj/gvt/Gvt.java:71-79 | the index lists the name; never true for a path containing '/' |
| Commands.NoFileArgument | src/main/java/uj/wmii/pwj/gvt/Command.java:28 | no file is given exactly when there are no arguments or the first one begins with '-' (also Command.java:69 and 103) |
| Commands.FindMessage | src/main/java/uj/wmii/pwj/gvt/Command.java:229-237 | a message is found iff some "-m" has an argument after it, and then it is the cleaned argument after the first such "-m" |
| Commands.ExtractMessage | src/main/java/uj/wmii/pwj/gvt/Command.java:229-237 | a message is found iff some "-m" has an argument after it, and a found message has no blank at either end |
| Commands.ExtractQuotedMessage | src/main/java/uj/wmii/pwj/gvt/Command.java:229-237 | `-m "<text>"` yields the text without its quotes |
| Commands.DanglingFlagIgnored | src/main/java/uj/wmii/pwj/gvt/Command.java:230 | a final "-m" with nothing after it gives no message |
| Commands.HistoryLimit | src/main/java/uj/wmii/pwj/gvt/Command.java:143-150 | the limit is an int, and it is other than -1 only for `-last` followed by a parsable count |
| Commands.HistoryLastCount | src/main/java/uj/wmii/pwj/gvt/Command.java:143-150 | `-last N` prints exactly N lines for N >= 1; `-last 0` prints all of them |
| Commands.HistoryLimitDefault | src/main/java/uj/wmii/pwj/gvt/Command.java:143-150 | without `-last`, or with a count that does not parse, the limit is −1 |
| Commands.DetachedText | src/main/java/uj/wmii/pwj/gvt/Command.java:84 | the fixed part starts with "File detached successfully. File: " and holds no line break when the file name holds none |
| Commands.UserLine | src/main/java/uj/wmii/pwj/gvt/Command.java:85 | the appended part is empty exactly when there is no user message, and otherwise is a line break followed by the user's message |
| Commands.DetachMessage | src/main/java/uj/wmii/pwj/gvt/Command.java:84-85 | the message starts with the fixed part `DetachedText(<arg>)`, and is exactly that fixed part when no "-m" pair is given |
| Commands.DetachUserText | src/main/java/uj/wmii/pwj/gvt/Command.java:84-85 | with a "-m" pair, the message is the fixed part, a newline and the user's message |
| Commands.UserLineText | src/main/java/uj/wmii/pwj/gvt/Command.java:85 | appending the user's line puts one newline between the fixed part and the user's message |
| Commands.DetachQuotedMessage | src/main/java/uj/wmii/pwj/gvt/Command.java:74-87 | `detach <name> -m "<text>"` stores and prints the fixed part, a newline and the text without its quotes |
| Commands.DetachHistoryLine | src/main/java/uj/wmii/pwj/gvt/Command.java:84-86 | the user's message goes on a line of its own, so the history line of a DETACH version is the fixed text |
| Commands.FullMessage | src/main/java/uj/wmii/pwj/gvt/Command.java:49-50 | `fullMessage` of ADD (and of COMMIT, lines 125-126): without a "-m" pair it is the fixed text of the command; with one it is the user's message |
| Commands.RequestedVersion | src/main/java/uj/wmii/pwj/gvt/Command.java:168-178 | VERSION asks for an int id; without an argument and without `ACTIVE` it asks for version 0 |
| Commands.InitEffect | src/main/java/uj/wmii/pwj/gvt/Command.java:9-18 | INIT always exits and leaves the working directory alone |
| Commands.AddEffect | src/main/java/uj/wmii/pwj/gvt/Command.java:20-58 | ADD always exits and leaves the working directory alone |
| Commands.DetachEffect | src/main/java/uj/wmii/pwj/gvt/Command.java:61-92 | DETACH always exits and leaves the working directory alone |
| Commands.CommitEffect | src/main/java/uj/wmii/pwj/gvt/Command.java:95-133 | COMMIT always exits and leaves the working directory alone |
| Commands.HistoryEffect | src/main/java/uj/wmii/pwj/gvt/Command.java:135-158 | HISTORY changes neither the store nor the working directory |
| Commands.VersionEffect | src/main/java/uj/wmii/pwj/gvt/Command.java:160-191 | VERSION changes nothing; it escapes only without an argument and with an unparsable `ACTIVE` |
| Commands.CheckoutEffect | src/main/java/uj/wmii/pwj/gvt/Command.java:193-224 | CHECKOUT never changes the store, and it changes the working directory only when it exits 0 |
| Commands.CommandEffect | src/main/java/uj/wmii/pwj/gvt/Command.java:8-227 | only VERSION can escape; HISTORY, VERSION and CHECKOUT leave the store alone; only CHECKOUT touches the working directory |
| Commands.InitOutcomes | src/main/java/uj/wmii/pwj/gvt/Command.java:9-18 | INIT exits 10 and changes nothing when initialized; otherwise it exits 0 with head = active = 0 and version 0 only |
| Commands.MissingFileArgument | src/main/java/uj/wmii/pwj/gvt/Command.java:28-31 | with no file argument, or one starting with '-', ADD, DETACH and COMMIT exit 20, 30 and 50 and change nothing |
| Commands.AddOutcomes | src/main/java/uj/wmii/pwj/gvt/Command.java:20-58 | a missing file exits 21 and a tracked one exits 0, both changing nothing; otherwise the base name is appended and a version is created with the user's or the default message, holding the file's current bytes for a plain name |
| Commands.AddStep | src/main/java/uj/wmii/pwj/gvt/Command.java:42-52 | one successful ADD keeps the invariant, increases head by one and appends the base name |
| Commands.AddPlainTwice | src/main/java/uj/wmii/pwj/gvt/Command.java:42-45 | for a plain name, ADD twice is ADD once: the second reports "File already added." and changes nothing |
| Commands.AddPathTwice | src/main/java/uj/wmii/pwj/gvt/Command.java:42-48 | for a path containing '/', ADD twice appends the base name twice and creates two versions |
| Commands.AddNestedPath | src/main/java/uj/wmii/pwj/gvt/Command.java:33-52 | `add dir/a.txt` of an existing untracked file succeeds, echoes the path as typed and tracks only "a.txt" |
| Commands.AddTrailingSlash | src/main/java/uj/wmii/pwj/gvt/Command.java:33-52 | `add a.txt/` of an existing untracked a.txt succeeds, echoes the argument as typed and tracks "a.txt" |
| Commands.CommitTrailingSlash | src/main/java/uj/wmii/pwj/gvt/Command.java:108-120 | `commit a.txt/` of an existing a.txt passes the existence check but reports the file as not added and changes nothing |
| Commands.DetachOutcomes | src/main/java/uj/wmii/pwj/gvt/Command.java:61-92 | an untracked name exits 0 and changes nothing; a tracked one loses its first index entry, a version is created with the combined message, and that version lacks the file if it was listed once; the working directory is never touched |
| Commands.CommitOutcomes | src/main/java/uj/wmii/pwj/gvt/Command.java:95-133 | existence is checked before tracking; a successful commit keeps the index and snapshots the file's current bytes under the user's or the default message |
| Commands.InvalidVersionRefused | src/main/java/uj/wmii/pwj/gvt/Command.java:180-183 | VERSION and CHECKOUT of an id that is not a version exit 60 "Invalid version number: <id>" and change nothing |
| Commands.CheckoutOutcome | src/main/java/uj/wmii/pwj/gvt/Command.java:212-219 | checking out an existing version writes back each of its files, keeps every other file, and leaves the store alone |
| Commands.CreateVersionKept | src/main/java/uj/wmii/pwj/gvt/VersionController.java:102-120 | creating a version keeps the invariant and the old versions, and advances head by one |
| Commands.InitKept | src/main/java/uj/wmii/pwj/gvt/Command.java:9-18 | INIT keeps the invariant and the old versions |
| Commands.AddKept | src/main/java/uj/wmii/pwj/gvt/Command.java:20-58 | ADD keeps the invariant and the old versions |
| Commands.DetachKept | src/main/java/uj/wmii/pwj/gvt/Command.java:61-92 | DETACH keeps the invariant and the old versions |
| Commands.CommitKept | src/main/java/uj/wmii/pwj/gvt/Command.java:95-133 | COMMIT keeps the invariant and the old versions |
| Commands.CommandKeepsInvariant | src/main/java/uj/wmii/pwj/gvt/Command.java:8-225 | every command keeps the invariant and every existing version, and moves head by at most one; only ADD, DETACH and COMMIT exiting 0 create a version, and only CHECKOUT changes the working directory |
| Commands.ExecuteInit | src/main/java/uj/wmii/pwj/gvt/Command.java:9-18 | the exit and the new state of the object are those of INIT's effect |
| Commands.ExecuteAdd | src/main/java/uj/wmii/pwj/gvt/Command.java:20-58 | the exit and the new state of the object are those of ADD's effect |
| Commands.ExecuteDetach | src/main/java/uj/wmii/pwj/gvt/Command.java:61-92 | the exit and the new state of the object are those of DETACH's effect |
| Commands.ExecuteCommit | src/main/java/uj/wmii/pwj/gvt/Command.java:95-133 | the exit and the new state of the object are those of COMMIT's effect |
| Commands.ExecuteHistory | src/main/java/uj/wmii/pwj/gvt/Command.java:135-158 | exit -2 before init, else exit 0 with the history for the parsed limit |
| Commands.ExecuteVersion | src/main/java/uj/wmii/pwj/gvt/Command.java:160-191 | exit -2 before init; 60 with a trailing "." for an unparsable argument; the escape for an unparsable `ACTIVE`; 60 for a missing version; else 0 with its details |
| Commands.ExecuteCheckout | src/main/java/uj/wmii/pwj/gvt/Command.java:193-224 | exit -2, 60 "(none)", 60 for an unparsable or missing id, each leaving files alone; else 0 with the version restored |
| Commands.Execute | src/main/java/uj/wmii/pwj/gvt/Command.java:227 | running a command has exactly that command's effect |
| GvtMain.ParseCommand | src/main/java/uj/wmii/pwj/gvt/Gvt.java:42 | `Command.valueOf(name.toUpperCase())` selects only the command whose name is the upper-cased argument |
| GvtMain.ParseCommandExact | src/main/java/uj/wmii/pwj/gvt/Gvt.java:42 | a name selects a command iff it upper-cases to that command's name |
| GvtMain.ParseCommandIgnoresCase | src/main/java/uj/wmii/pwj/gvt/Gvt.java:42 | names that differ only in the case of ASCII letters select the same command |
| GvtMain.LowerCaseNames | src/main/java/uj/wmii/pwj/gvt/Gvt.java:42 | the lower-case command names select their commands; an unknown name selects none |
| GvtMain.RouteOf | src/main/java/uj/wmii/pwj/gvt/Gvt.java:36-51 | no arguments or an unknown name are refused; before init only INIT runs; a known command runs on the remaining arguments exactly when the directory is initialized or the command is INIT |
| GvtMain.MainEffect | src/main/java/uj/wmii/pwj/gvt/Gvt.java:36-56 | every run ends with an exit: an escaping exception becomes exit 1 "Unknown command <name>." |
| GvtMain.MainInternal | src/main/java/uj/wmii/pwj/gvt/Gvt.java:36-56 | the exit, the new state of the object and the working directory are those of one run |
| GvtMain.RefusedRuns | src/main/java/uj/wmii/pwj/gvt/Gvt.java:37-50 | no command (exit 1), an unknown command (exit 1), and any command but INIT before init (exit -2) change nothing |
| GvtMain.AcceptedRuns | src/main/java/uj/wmii/pwj/gvt/Gvt.java:42-55 | a known command that is allowed to run has its own effect, except that an escaping exception becomes exit 1 "Unknown command <name>." |
| GvtMain.MainKeepsInvariant | src/main/java/uj/wmii/pwj/gvt/Gvt.java:36-56 | every run keeps the invariant and all existing versions, moves head by at most one, and changes the working directory only for CHECKOUT |
| GvtMain.LoadedVersionNeverEscapes | src/main/java/uj/wmii/pwj/gvt/Command.java:168-170 | on a store just loaded, VERSION without an argument always exits, because a store that loads as initialized has a parsable `ACTIVE` |
| GvtMain.FirstRunNeedsInit | src/main/java/uj/wmii/pwj/gvt/Gvt.java:47-50 | in a directory without `.gvt`, INIT succeeds with head 0, and every other command exits -2 and changes nothing |
| Walkthrough.PlainArgument | src/main/java/uj/wmii/pwj/gvt/Command.java:28-37 | `a.txt` is a file argument without a message, its own base name and its own path |
| Walkthrough.InitStep | src/main/java/uj/wmii/pwj/gvt/Command.java:9-18 | `init` on a fresh directory: head = active = 0, no index, only version 0 |
| Walkthrough.RunsOfPlainFile | src/main/java/uj/wmii/pwj/gvt/Gvt.java:42-51 | on an initialized store, `add a.txt` and `commit a.txt` are ADD and COMMIT of "a.txt" |
| Walkthrough.AddFirstFile | src/main/java/uj/wmii/pwj/gvt/Command.java:33-52 | ADD of an existing plain name into an empty index: the index is that name, head moves by one, and the version holds exactly that file with its bytes and the default message |
| Walkthrough.AddStepOne | src/main/java/uj/wmii/pwj/gvt/Command.java:20-58 | `add a.txt` after init: head 1, index [a.txt], version 1 holds exactly a.txt with its bytes |
| Walkthrough.CommitTrackedFile | src/main/java/uj/wmii/pwj/gvt/Command.java:108-128 | COMMIT of the one tracked plain name snapshots its current bytes, keeps the index and every older version |
| Walkthrough.CommitStep | src/main/java/uj/wmii/pwj/gvt/Command.java:95-133 | `commit a.txt` after an edit: the new version holds the new bytes, and older versions are unchanged |
| Walkthrough.DetachStep | src/main/java/uj/wmii/pwj/gvt/Command.java:61-92 | `detach a.txt`: the index is empty, the new version holds no files, and the working directory is unchanged |
| Walkthrough.CheckoutStep | src/main/java/uj/wmii/pwj/gvt/Command.java:193-224 | `checkout 1` restores a.txt to the bytes of version 1, whatever it holds now |
| Walkthrough.MissingVersionStep | src/main/java/uj/wmii/pwj/gvt/Command.java:160-183 | `version 99` below head 99 exits 60 and changes nothing |
| Walkthrough.Session | src/main/java/uj/wmii/pwj/gvt/Gvt.java:31-56 | the whole session, each run loading the store the previous one left on disk: heads 0, 1, 2 and 3; version 1 keeps the old bytes and version 2 has the new ones; version 3 is empty; checkout 1 restores the old bytes; version 99 is refused |

## Left out

- File-system failures are not modelled: every `IOException`, the exit codes 22, 31, 52 and -3, and the messages printed by the HISTORY and VERSION handlers after an `IOException`. The disk is a value and always succeeds.
- The console output and `System.exit` are not modelled. `ExitHandler.exit` is the end of the run: every command returns its first exit. CHECKOUT's missing `return` after exits -2 and 60 makes no difference under that reading.
- `Gvt.GetActiveVersion`: the `IOException` of reading `ACTIVE`, which returns 0, is left out with the other file-system failures.
- The working directory is a flat map from relative paths to bytes, holding regular files only. `Paths.get` is modelled by `Text.JavaPath` (runs of '/' collapsed, a trailing '/' dropped), which ADD and COMMIT apply before their existence check. Left out: directories (so also `Files.exists` of "" or ".", which name the working directory), absolute paths, and the operating system's resolution of "." and ".." components, so `./a.txt` is not found although Java finds it. `createNewVersion` looks up each index entry verbatim, which agrees with `Paths.get` because index entries are base names. Also left out: the `NullPointerException` of `getFileName()` on a root path, and the `InvalidPathException` of a name containing NUL (an `IllegalArgumentException`, which would become "Unknown command").
- `readAllLines` splits a name that contains '\n' or '\r' into several index lines. Index lines are modelled as the names written.
- `Text.ParseInt` accepts ASCII digits only, while `Integer.parseInt` also accepts other Unicode decimal digits.
- `Text.ToUpper` upper-cases ASCII letters only. Java's `toUpperCase` also maps some non-ASCII letters onto command names, for example the dotless 'ı' (U+0131) to 'I'.
- `split("\n")[0]` throws for a message made only of newlines. Such input is out of scope: `Text.FirstLine` returns "" there.
- head is an unbounded integer. The wrap-around of `head++` past 2^31 − 1 is not modelled, which is why some lemmas require head <= MaxInt.
- `checkoutVersion` copies the files in the order the directory lists them. Names in one directory are distinct, so the order does not matter and the model copies them as one map update.
- `Gvt.main`, the `Gvt` constructor and the getters hold no logic beyond `mainInternal` and are not modelled separately. `VersionController.commitFile` has an empty body, and `CommitFile` is kept as an empty method with no contract.
