# Phalanx migration core, in Dafny

Phalanx brings a Cassandra keyspace up to date from a directory of CQL
migration files. Each file's name carries a version and a description
(`<prefix><version><separator><description><extension>`). A file may also
start with an embedded `metadata:` header that overrides the description,
the consistency level and the delay after the statement runs. The engine
works in four stages:

1. It reads the cluster's migration state: no keyspace, no state table, or
   the state-table rows ordered by version.
2. It collects the migration files, rejecting duplicate versions.
3. It creates the keyspace from the version-0 file and then the state
   table, if either is missing.
4. It checks the hashes of the files already installed, then runs every
   newer file in version order. Each one gets a ledger row with the next
   rank.

This project models that core and proves what it promises. It has one
module per source file.

- `Text`: the Foundation string operations the core relies on. These are
  `components(separatedBy:)`, `joined(separator:)`,
  `replacingOccurrences`, `range(of:)`, trimming, line splitting and
  lower-casing.
- `Sorting`: Swift's `sorted`, as an insertion sort by an integer key.
- `StringExtensions`: `versionInt`, `cassandraConsistency`,
  `extractInternalMetadata` and `detectKeyspaceCreation`. The YAML decoder
  is a function passed in, and returns `None` when decoding fails.
- `MigrationFileDescriptors`: `MigrationFileDescriptor.from` over a
  directory listing.
- `MigrationFiles`: `MigrationFile.from`. The file system is a map from
  each existing path to its contents, or to nothing when the path cannot
  be read as text. SHA-256 is a function of the contents.
- `MigrationState`: `InstalledMigrationVersion`, `InstalledMigrationState`,
  `noKeyspace` and `noTable`.
- `RemoteCluster`: the cluster as a value. It holds the keyspaces, the
  state tables and their rows, the log of migration statements sent, and a
  clock. A migration statement is judged by an executor function, which
  may reject it.
- `Engine`: the `MigrationEngine` class and, for each of its operations,
  the pure function that specifies it. The class keeps the configured
  settings and the cluster. Each method changes the cluster exactly as its
  specification function says, including the `detectFileMigrations`
  duplicate loop and the install loop with its running rank.
- `EngineProperties`: lemmas about those specification functions. They
  cover ranks, ledger rows, the abort conditions, the hash check, the
  duplicate check and the configuration guards.

Behaviour of the code that the model keeps on purpose:

- `maxRank` is read from the last row by version
  (MigrationEngine.swift:322-323); it is not computed as the largest rank.
  `DetectedStateBounds` shows the two agree whenever ranks follow versions
  in the ledger, and `InstallOnDetectedState` shows that an install keeps
  that property.
- A run is idempotent for files in strictly increasing version order, as
  `detectFileMigrations` returns them, and under the executor model below.
  After a successful bootstrap from a cluster without the keyspace, running
  again with the same files installs nothing and passes the hash check
  (`RerunAfterBootstrap`). The same holds after a successful run on a
  cluster whose keyspace and state table exist, provided its ledger has one
  row per version and ranks that follow versions (`RerunExecutesNothing`).
  On such a cluster, an install that fails part-way resumes, the next time,
  at the first file it did not record (`RerunResumes`).
- Steps 3 and 4 of `executeMigration` read the state passed in, even after
  steps 1 and 2 have changed the cluster. On a fresh cluster, hash checking
  is therefore skipped and ranks start at 1 (`BootstrapLedger`).
- `versionInt` returns 0 for a non-empty token that trims to zeros (or to
  nothing). It keeps a sign that follows the zeros (`"00-3"` gives -3).
- `"all"` is not a consistency name. A file whose metadata asks for it
  fails at install time.
- The description guard of `from` never rejects an entry.
- The keyspace placeholder `$${{KEYSPACE}}$$` is replaced at every
  occurrence before a statement is sent.
- The delay comes from the file's metadata, else from the configuration,
  else it is 0.

## Model

| member | source | states |
|---|---|---|
| Text.IndexOf | Sources/PhalanxLib/MigrationFileDescriptor.swift:34 | the result is the first position where the pattern occurs, and it is absent exactly when the pattern occurs nowhere |
| Text.JoinComponents | Sources/PhalanxLib/MigrationFileDescriptor.swift:40 | joining the components with the separator gives back the original string |
| Text.ComponentsAvoidSeparator | Sources/PhalanxLib/MigrationFileDescriptor.swift:40 | no component contains a non-empty separator |
| Text.ComponentsHead | Sources/PhalanxLib/MigrationFileDescriptor.swift:40 | the first component is the text before the first occurrence; with no occurrence the whole string is the only component |
| Text.ComponentsCount | Sources/PhalanxLib/MigrationFileDescriptor.swift:40-44 | there is more than one component exactly when the separator is non-empty and occurs |
| Text.AfterFirstSeparator | Sources/PhalanxLib/MigrationFileDescriptor.swift:50-52 | re-joining all components but the first gives the text after the first separator |
| Text.ReplaceAllIsJoin | Sources/PhalanxLib/MigrationEngine.swift:254-257 | replacing every occurrence is splitting at the occurrences and joining with the replacement |
| Text.ReplaceAllReplacesEveryOccurrence | Sources/PhalanxLib/MigrationEngine.swift:254-257 | the original string and the replaced one are the same occurrence-free pieces, joined with the pattern and with the replacement respectively |
| Text.ReplaceAllAbsent | Sources/PhalanxLib/MigrationEngine.swift:365-368 | a statement without the placeholder is sent unchanged |
| Text.TrimStart | Sources/PhalanxLib/String+Extensions.swift:22 | trimming the front leaves a suffix of the input |
| Text.TrimEnd | Sources/PhalanxLib/String+Extensions.swift:22 | trimming the back leaves a prefix of the input |
| Text.TrimStartDropsLeadingRun | Sources/PhalanxLib/String+Extensions.swift:22 | every character trimmed from the front is one of the dropped set |
| Text.TrimStartStopsAtKept | Sources/PhalanxLib/String+Extensions.swift:22 | what is left after trimming the front is empty or starts with a kept character |
| Text.TrimEndDropsTrailingRun | Sources/PhalanxLib/String+Extensions.swift:22 | trimming the back removes exactly the trailing run of dropped characters: each removed one is dropped, and the result is empty or ends with a kept one |
| Text.TrimEndKeeps | Sources/PhalanxLib/String+Extensions.swift:22 | a character that is not trimmed survives trimming from the end |
| Text.TrimKeepsPrefix | Sources/PhalanxLib/String+Extensions.swift:92-93 | a prefix that starts and ends with non-trimmed characters is still a prefix after trimming |
| Text.Lines | Sources/PhalanxLib/String+Extensions.swift:60 | splitting at newlines always yields at least one line |
| Text.LinesWithoutNewline | Sources/PhalanxLib/String+Extensions.swift:60 | text without a newline character is a single line |
| Text.LinesAtNewline | Sources/PhalanxLib/String+Extensions.swift:88 | a newline splits the text into the lines before it and the lines after it |
| Text.FirstLineStartsWith | Sources/PhalanxLib/String+Extensions.swift:88 | text with no newline at its start begins the first line |
| Sorting.SortBy | Sources/PhalanxLib/MigrationFileDescriptor.swift:63 | the result is ordered by the key and is a permutation of the input |
| Sorting.LastIsLargest | Sources/PhalanxLib/MigrationEngine.swift:322 | in a sequence sorted by version, the last element has the largest version |
| StringExtensions.ParseInt | Sources/PhalanxLib/String+Extensions.swift:32 | a parsed value lies within the 64-bit `Int` range and was written as an optional sign and one or more digits; a string of digits parses to its value exactly when that fits, and gives none otherwise |
| StringExtensions.StripLeadingZeros | Sources/PhalanxLib/String+Extensions.swift:23-25 | removing leading zeros leaves a suffix of the token |
| StringExtensions.VersionInt | Sources/PhalanxLib/String+Extensions.swift:21-33 | the loop that removes one `0` at a time computes `versionInt` |
| StringExtensions.StripLeadingZerosValue | Sources/PhalanxLib/String+Extensions.swift:23-25 | removing leading zeros from digits keeps the digits and their value, and leaves no leading zero |
| StringExtensions.VersionIntOfDigits | Sources/PhalanxLib/String+Extensions.swift:19-33 | a digit string within range parses to its decimal value, leading zeros notwithstanding |
| StringExtensions.VersionIntOfZeros | Sources/PhalanxLib/String+Extensions.swift:27-30 | a non-empty token that trims to zeros only gives 0 |
| StringExtensions.VersionIntOfRejects | Sources/PhalanxLib/String+Extensions.swift:22-32 | a token that, once trimmed and stripped of zeros, is not an optional sign and one or more digits gives no version |
| StringExtensions.VersionIntOfOutOfRange | Sources/PhalanxLib/String+Extensions.swift:22-32 | digits whose value exceeds the 64-bit `Int` range give no version |
| StringExtensions.VersionIntRejectsExamples | Sources/PhalanxLib/String+Extensions.swift:19-32 | `1a`, `--1` and a lone `+` give no version |
| StringExtensions.VersionIntOfEmpty | Sources/PhalanxLib/String+Extensions.swift:28-32 | the empty string gives no version |
| StringExtensions.VersionIntExample | Sources/PhalanxLib/String+Extensions.swift:19-20 | `"0123"` gives 123 |
| StringExtensions.VersionIntOfSignAfterZeros | Sources/PhalanxLib/String+Extensions.swift:23-32 | a sign after the leading zeros is kept and parsed, so `"00-3"` gives -3 |
| StringExtensions.ConsistencyNames | Sources/PhalanxLib/String+Extensions.swift:39-49 | a name maps to a level exactly when it is that level's name |
| StringExtensions.ConsistencyRecognised | Sources/PhalanxLib/String+Extensions.swift:39-49 | exactly the six names are recognised, case-sensitively; `all` and `ONE` are not |
| StringExtensions.TrimmedLines | Sources/PhalanxLib/String+Extensions.swift:60-61 | there is one trimmed line per line of the contents |
| StringExtensions.MetadataBlock | Sources/PhalanxLib/String+Extensions.swift:67-72 | the block is the prefix of the lines up to and including the first empty one; every line before its last is non-empty |
| StringExtensions.CollectMetadataLines | Sources/PhalanxLib/String+Extensions.swift:67-72 | the loop with the `finished` flag collects exactly the metadata block |
| StringExtensions.ExtractInternalMetadata | Sources/PhalanxLib/String+Extensions.swift:59-84 | the method computes the marker check, block collection, prefix stripping and decode of `extractInternalMetadata` |
| StringExtensions.MetadataBlockStopsAtFirstBlank | Sources/PhalanxLib/String+Extensions.swift:67-72 | the block ends at the first blank line, whatever follows |
| StringExtensions.MetadataIgnoresLinesAfterBlank | Sources/PhalanxLib/String+Extensions.swift:67-72 | two contents that agree up to the first blank line yield the same metadata |
| StringExtensions.LeadingBlankLineMeansNoMetadata | Sources/PhalanxLib/String+Extensions.swift:60-65 | contents starting with a newline have no metadata |
| StringExtensions.MetadataNeedsMarker | Sources/PhalanxLib/String+Extensions.swift:63-83 | metadata is found only when the first trimmed line is a marker, and is then the decode of the stripped block |
| StringExtensions.CreatesKeyspaceWhenPrefixed | Sources/PhalanxLib/String+Extensions.swift:89-93 | a line that starts with indentation and any casing of `create keyspace` counts as a keyspace creation |
| StringExtensions.DetectsKeyspaceCreation | Sources/PhalanxLib/String+Extensions.swift:87-95 | a `CREATE KEYSPACE` line is detected on the first line or after any newline |
| MigrationFileDescriptors.CompactMap | Sources/PhalanxLib/MigrationFileDescriptor.swift:21 | `compactMap` never yields more elements than it is given |
| MigrationFileDescriptors.CompactMapSound | Sources/PhalanxLib/MigrationFileDescriptor.swift:21 | every result comes from some input element |
| MigrationFileDescriptors.CompactMapComplete | Sources/PhalanxLib/MigrationFileDescriptor.swift:21 | every present result of an input element is in the output |
| MigrationFileDescriptors.From | Sources/PhalanxLib/MigrationFileDescriptor.swift:13-64 | the descriptors are ordered by version, are a permutation of the parsed entries, and are no more than the listing |
| MigrationFileDescriptors.FromMembers | Sources/PhalanxLib/MigrationFileDescriptor.swift:21-63 | a descriptor is in the result exactly when some listed name parses to it, so duplicate versions are kept |
| MigrationFileDescriptors.StripPrefixOfPrefixed | Sources/PhalanxLib/MigrationFileDescriptor.swift:33-37 | a name that starts with a non-empty prefix loses exactly that prefix |
| MigrationFileDescriptors.EmptyPrefixKeepsName | Sources/PhalanxLib/MigrationFileDescriptor.swift:23-37 | an empty prefix admits every name and removes nothing |
| MigrationFileDescriptors.ParseEntryExactly | Sources/PhalanxLib/MigrationFileDescriptor.swift:22-56 | a name parses exactly when it has the prefix and extension, its stripped form contains the separator, and the token before it is a non-negative version |
| MigrationFileDescriptors.DescriptionAfterSeparator | Sources/PhalanxLib/MigrationFileDescriptor.swift:50-56 | the description is the text after the first separator with `_` made spaces, cut at the first `.`, so it holds neither |
| MigrationFileDescriptors.ParseEntryFields | Sources/PhalanxLib/MigrationFileDescriptor.swift:21-62 | a parsed entry has the joined path, the version of the first component and the cleaned description |
| MigrationFileDescriptors.ParseEntrySound | Sources/PhalanxLib/MigrationFileDescriptor.swift:21-62 | a parsed name has the configured prefix and extension, its path is `directory/name`, and its version is `versionInt` of the text before the first separator and is not negative |
| MigrationFileDescriptors.ParseEntryOfParts | Sources/PhalanxLib/MigrationFileDescriptor.swift:21-62 | a name passing every guard yields the descriptor built from its parts |
| MigrationFileDescriptors.ParseEntryExample | Sources/PhalanxLib/MigrationFileDescriptor.swift:21-62 | `v001-create_table.cql` with prefix `v`, separator `-` and extension `.cql` gives version 1 and description `create table` |
| MigrationFiles.NonEmpty | Sources/PhalanxLib/MigrationFile.swift:35 | the path pieces kept are the non-empty ones |
| MigrationFiles.NonEmptyOfSlashes | Sources/PhalanxLib/MigrationFile.swift:35-37 | a path has no non-empty piece exactly when it is made of slashes only |
| MigrationFiles.LastPathComponentSound | Sources/PhalanxLib/MigrationFile.swift:35-37 | a file name is non-empty and has no `/`; there is none exactly when the path is all slashes |
| MigrationFiles.FileNameOfJoinedPath | Sources/PhalanxLib/MigrationFile.swift:35 | the file name of `directory/name` is `name` |
| MigrationFiles.LoadMigrationFileFailures | Sources/PhalanxLib/MigrationFile.swift:31-39 | a missing path fails with `fileNotFound` first, a path of slashes fails with `fileNameNotDetected`, an existing path that cannot be read as text fails as unreadable, and loading succeeds otherwise |
| MigrationFiles.LoadMigrationFileSound | Sources/PhalanxLib/MigrationFile.swift:26-49 | a loaded file keeps the version and the verbatim contents, hashes the contents, takes its name from the path, and takes its description from the metadata when present |
| MigrationFiles.LoadListedFile | Sources/PhalanxLib/MigrationFile.swift:26-49 | a readable listed file loads, with the listed name as its file name |
| MigrationState.NoKeyspace | Sources/PhalanxLib/InstalledMigrationState.swift:10-14 | no keyspace, no state table and no rows |
| MigrationState.NoTable | Sources/PhalanxLib/InstalledMigrationState.swift:16-22 | the given keyspace, no state table and no rows |
| MigrationState.LastRow | Sources/PhalanxLib/MigrationEngine.swift:322-323 | the last row exists exactly when there are rows, and is the final one |
| RemoteCluster.Run | Sources/PhalanxLib/MigrationEngine.swift:362-373 | a statement is logged whatever the answer; a rejected one changes nothing else, and an applied one only adds keyspaces and advances the clock |
| RemoteCluster.CreateTable | Sources/PhalanxLib/MigrationEngine.swift:272-282 | the table is created, empty, exactly when the keyspace exists and the table does not |
| RemoteCluster.InsertIfNotExists | Sources/PhalanxLib/MigrationEngine.swift:383-394 | a row is appended unless its rank is taken, in which case nothing changes; only the ledger changes |
| RemoteCluster.Pause | Sources/PhalanxLib/MigrationEngine.swift:399-402 | the clock moves on by the delay when it is positive, and nothing else changes |
| Engine.DetectMigrationState | Sources/PhalanxLib/MigrationEngine.swift:124-147 | no keyspace, no table, or the table's rows ordered by version and a permutation of them |
| Engine.Traverse | Sources/PhalanxLib/MigrationEngine.swift:184-190 | a successful traversal has one result per element |
| Engine.TraverseElementwise | Sources/PhalanxLib/MigrationEngine.swift:184-190 | after a successful traversal, each result is the function applied to its element |
| Engine.FirstWithVersion | Sources/PhalanxLib/MigrationEngine.swift:303 | the row found has the version and no earlier row has it, and none is found exactly when no row has it |
| Engine.Pending | Sources/PhalanxLib/MigrationEngine.swift:326 | only files above the installed version are selected |
| Engine.FindDuplicateVersion | Sources/PhalanxLib/MigrationEngine.swift:176-182 | the loop over the `dupeCheck` set finds the first repeated version |
| Engine.LoadFiles | Sources/PhalanxLib/MigrationEngine.swift:184-190 | loading in order stops at the first failure and otherwise yields every file |
| Engine.MigrationEngine.constructor | Sources/PhalanxLib/MigrationEngine.swift:28-73 | the engine holds the settings the configuration guards produce |
| Engine.MigrationEngine.DetectFileMigrations | Sources/PhalanxLib/MigrationEngine.swift:160-191 | the directory and separator guards, then the duplicate check, then the loads |
| Engine.MigrationEngine.GenerateKeyspaceFromVersionZero | Sources/PhalanxLib/MigrationEngine.swift:241-265 | the cluster and outcome are those of the version-0 bootstrap |
| Engine.MigrationEngine.GenerateStateTable | Sources/PhalanxLib/MigrationEngine.swift:268-289 | the cluster and outcome are those of the state-table bootstrap |
| Engine.MigrationEngine.InstallNewMigrations | Sources/PhalanxLib/MigrationEngine.swift:315-404 | the cluster and outcome are those of installing the files above the installed version |
| Engine.MigrationEngine.InstallAll | Sources/PhalanxLib/MigrationEngine.swift:333-404 | the loop with its running rank installs the selection in order, stopping at the first failure |
| Engine.MigrationEngine.InstallMigration | Sources/PhalanxLib/MigrationEngine.swift:335-402 | one pass of the install loop changes the cluster as the install step says |
| Engine.MigrationEngine.ExecuteMigration | Sources/PhalanxLib/MigrationEngine.swift:196-237 | the four steps run in order, each only when the one before passed |
| EngineProperties.InstallOneEffect | Sources/PhalanxLib/MigrationEngine.swift:335-402 | one install sends at most the substituted statement; a failure leaves the ledger alone; a success appends one row with the given rank describing the file, unless the rank is taken |
| EngineProperties.InstallFromEffect | Sources/PhalanxLib/MigrationEngine.swift:333-404 | the loop sends the selection's statements in order and appends rows with consecutive ranks describing them; on success every file is installed, on failure the failing file gets no row and nothing after it runs |
| EngineProperties.InstallNewMigrationsEffect | Sources/PhalanxLib/MigrationEngine.swift:322-334 | the files above the last row's version are installed with ranks from the last row's rank + 1 |
| EngineProperties.EmptySelectionChangesNothing | Sources/PhalanxLib/MigrationEngine.swift:328-331 | with nothing above the installed version, the cluster is untouched |
| EngineProperties.PendingMembers | Sources/PhalanxLib/MigrationEngine.swift:326 | a file is selected exactly when it is above the installed version; the selection is empty exactly when no file is |
| EngineProperties.PendingIsSuffix | Sources/PhalanxLib/MigrationEngine.swift:325-326 | over files in version order, the selection is a suffix |
| EngineProperties.SelectAll | Sources/PhalanxLib/MigrationEngine.swift:326 | when every file is above the installed version, all are selected in order |
| EngineProperties.PendingIncreasing | Sources/PhalanxLib/MigrationEngine.swift:325-326 | the selection from files in increasing version order is in increasing version order |
| EngineProperties.RankCollisionWritesNoRow | Sources/PhalanxLib/MigrationEngine.swift:383-394 | a successful install at a taken rank writes no row |
| EngineProperties.ExecutedIffChecksPass | Sources/PhalanxLib/MigrationEngine.swift:335-373 | the statement is sent exactly when the `$$` checks and the consistency check pass; otherwise the cluster is unchanged and the install fails |
| EngineProperties.ConsistencyAllRejected | Sources/PhalanxLib/MigrationEngine.swift:347-351 | a file whose metadata asks for `all` fails with an invalid configuration and changes nothing |
| EngineProperties.RejectedStatementAborts | Sources/PhalanxLib/MigrationEngine.swift:363-373 | a rejected statement fails with its message and writes no row |
| EngineProperties.ConnectionChoice | Sources/PhalanxLib/MigrationEngine.swift:345-359 | a transient client is used exactly for a known level different from the configured one, and an unknown name is an error |
| EngineProperties.DelayPrecedence | Sources/PhalanxLib/MigrationEngine.swift:399-402 | the pause is the metadata delay, else the configured delay, else none |
| EngineProperties.MissingVersionZeroAborts | Sources/PhalanxLib/MigrationEngine.swift:245-247 | without a keyspace and a version-0 file, the run fails with nothing changed |
| EngineProperties.VersionZeroWithoutCreateKeyspaceAborts | Sources/PhalanxLib/MigrationEngine.swift:249-251 | without a keyspace, a version-0 file lacking `CREATE KEYSPACE` fails the run with nothing changed |
| EngineProperties.NameMismatchAborts | Sources/PhalanxLib/MigrationEngine.swift:207-222 | a state naming another keyspace or another state table fails the run with nothing changed |
| EngineProperties.HashesSkipped | Sources/PhalanxLib/MigrationEngine.swift:225-230 | with hashes ignored or no rows, the run is just the install step |
| EngineProperties.HashMismatchAborts | Sources/PhalanxLib/MigrationEngine.swift:224-230 | a failed hash check fails the run before anything is installed |
| EngineProperties.BootstrapLedger | Sources/PhalanxLib/MigrationEngine.swift:196-237 | a successful run on a cluster without the keyspace records every file above version 0, in order, with ranks from 1 |
| EngineProperties.CheckHashesSound | Sources/PhalanxLib/MigrationEngine.swift:302-310 | the check passes exactly when every file with `0 < version <= maxVersion` has a row of its version with an equal hash; on failure it reports the first file that does not |
| EngineProperties.VerifyHistoricalHashesSound | Sources/PhalanxLib/MigrationEngine.swift:291-313 | verification passes exactly when there are no rows or every checked file matches its row |
| EngineProperties.FirstDuplicateSound | Sources/PhalanxLib/MigrationEngine.swift:176-182 | no duplicate is found exactly when the versions are distinct; a reported version really occurs twice |
| EngineProperties.DuplicateDecides | Sources/PhalanxLib/MigrationEngine.swift:176-184 | a repeated version fails detection with the first duplicate |
| EngineProperties.DuplicateFailsBeforeLoading | Sources/PhalanxLib/MigrationEngine.swift:176-190 | with a repeated version the outcome does not depend on the files at all, and names a version two descriptors share |
| EngineProperties.DetectedFilesOrdered | Sources/PhalanxLib/MigrationEngine.swift:169-190 | detected files are in strictly increasing version order, one per descriptor, with the described contents and their hash |
| EngineProperties.ConfigureSucceeds | Sources/PhalanxLib/MigrationEngine.swift:36-73 | configuration succeeds exactly when hosts, a port and a known protocol version that fit in 32 bits, keyspace, state table and a valid consistency are present, and the settings carry them |
| EngineProperties.ConfigureGuardOrder | Sources/PhalanxLib/MigrationEngine.swift:36-58 | missing hosts are reported before a missing port, which comes before a missing protocol version; a port or protocol version outside 32 bits is reported as missing; every failure is an invalid configuration |
| Engine.Int32Exactly | Sources/PhalanxLib/MigrationEngine.swift:40-46 | `flatMap(Int32.init)` keeps a value exactly when it is present and fits in 32 bits, and then keeps it unchanged |
| EngineProperties.DetectedStateBounds | Sources/PhalanxLib/MigrationEngine.swift:322-323 | when ranks follow versions, the last row by version has the largest version and the largest rank |
| EngineProperties.AppendKeepsRanksFollowingVersions | Sources/PhalanxLib/MigrationEngine.swift:383-396 | rows appended above every existing version and rank, in version order with consecutive ranks, keep ranks following versions |
| EngineProperties.InstallOnDetectedState | Sources/PhalanxLib/MigrationEngine.swift:315-404 | installing on the detected state appends ranks after every existing rank and keeps ranks following versions |
| EngineProperties.DetectedEffectKeepsRanks | Sources/PhalanxLib/MigrationEngine.swift:322-334 | any outcome of the install loop that starts after the detected maximum version and rank keeps ranks following versions in the ledger |
| EngineProperties.RecordedKeepsRanksFollowingVersions | Sources/PhalanxLib/MigrationEngine.swift:322-334 | rows an install records above every existing version and rank keep ranks following versions |
| EngineProperties.DetectedMaxVersion | Sources/PhalanxLib/MigrationEngine.swift:322 | the version read from the state is 0 for an empty table and otherwise that of one of its rows, and no row has a larger one |
| EngineProperties.InstallFromKeepsKeyspaces | Sources/PhalanxLib/MigrationEngine.swift:333-404 | under the executor model, where a migration can only add keyspaces, the install loop never removes one |
| EngineProperties.InstallNewMigrationsKeepsKeyspaces | Sources/PhalanxLib/MigrationEngine.swift:315-404 | under the executor model, where a migration can only add keyspaces, `installNewMigrations` never removes one |
| EngineProperties.PendingAfter | Sources/PhalanxLib/MigrationEngine.swift:326 | over files in increasing version order, the files above a file's version are exactly those after it |
| EngineProperties.ResumeAfterRecorded | Sources/PhalanxLib/MigrationEngine.swift:322-326 | once rows are recorded for the first files of the selection, the files above the largest recorded version are the rest of the selection |
| EngineProperties.RedetectedAfterEffect | Sources/PhalanxLib/MigrationEngine.swift:322-334 | reading the state back after an install: the rows recorded are for the first files of the selection, all of them exactly when the install passed, and what is pending is the rest |
| EngineProperties.RerunResumes | Sources/PhalanxLib/MigrationEngine.swift:315-404 | on an existing state table whose ranks follow versions, an install followed by reading the state again leaves pending exactly the files it did not record, so a failed run resumes at the first of them |
| EngineProperties.RerunInstallsNothing | Sources/PhalanxLib/MigrationEngine.swift:315-331 | after a successful install nothing is pending, and installing again passes without changing the cluster |
| EngineProperties.FirstWithVersionOfDistinct | Sources/PhalanxLib/MigrationEngine.swift:303 | with one row per version, the row found for a row's version in any ordering of the rows is that row |
| EngineProperties.AppendKeepsDistinctVersions | Sources/PhalanxLib/MigrationEngine.swift:383-396 | rows appended above every existing version, for files in increasing version order, keep one row per version |
| EngineProperties.RecordedHashesMatch | Sources/PhalanxLib/MigrationEngine.swift:291-313 | after the pending files are recorded on top of rows whose hashes matched, every file above version 0 has a row of its version with its hash |
| EngineProperties.SuccessfulInstallExtendsLedger | Sources/PhalanxLib/MigrationEngine.swift:315-404 | a successful install keeps the keyspace and table, adds one row per selected file after the existing rows, and keeps one row per version with ranks following versions |
| EngineProperties.BootstrapKeepsKeyspace | Sources/PhalanxLib/MigrationEngine.swift:196-237 | under the executor model, a bootstrap that passed leaves the keyspace it created in place |
| EngineProperties.BootstrapLeavesLedger | Sources/PhalanxLib/MigrationEngine.swift:196-237 | a bootstrap that passed leaves the keyspace and the state table, with one row per file above version 0, ranked from 1, one per version |
| EngineProperties.FullLedgerRunsNothing | Sources/PhalanxLib/MigrationEngine.swift:196-237 | when the ledger records every file above version 0 once, a run on the state read back passes, hash check included, and changes nothing |
| EngineProperties.RerunAfterBootstrap | Sources/PhalanxLib/MigrationEngine.swift:196-237 | after a successful bootstrap from a cluster without the keyspace, a second run with the same files passes, hash check included, and changes nothing |
| EngineProperties.RerunExecutesNothing | Sources/PhalanxLib/MigrationEngine.swift:196-237 | on a cluster whose keyspace and state table exist, whose ledger has one row per version with ranks following versions, and for files in increasing version order: after a successful run the ledger keeps both properties, and a second run with the same files passes, hash check included, and changes nothing |

## Left out

- The command-line front end, its print handlers and the YAML
  configuration loader are outside the core. The configuration is an
  input record.
- SHA-256 and the YAML decoder are functions passed in. Their internals
  are not modelled.
- The CQL client is not modelled: connection setup, lazy clients, shutdown
  and `ProtocolVersion(rawValue:)` (a predicate passed in). The statements
  the engine issues itself are modelled as always reaching the cluster, so
  a transport failure of `DESC`, `SELECT`, `CREATE TABLE` or `INSERT` only
  shows as the failure cases the cluster value defines.
- A migration's statement is judged by an executor function. It may reject
  the statement, or report the keyspaces it created and how long it took.
  Its other effects on the cluster are not modelled. In particular, a
  migration is assumed not to drop a keyspace or a table and not to write
  the state table, although the source sends whatever CQL a file holds
  (MigrationEngine.swift:364-369). `InstallFromKeepsKeyspaces`,
  `InstallNewMigrationsKeepsKeyspaces`, `BootstrapKeepsKeyspace`,
  `RerunResumes`, `RerunInstallsNothing`, `SuccessfulInstallExtendsLedger`,
  `RerunExecutesNothing`, `BootstrapLeavesLedger` and `RerunAfterBootstrap`
  rely on that assumption.
- `dropKeyspace` is not modelled: it backs a different command.
- Two runs racing against one cluster are not modelled; `IF NOT EXISTS`
  appears only as "a taken rank writes nothing".
- async/await and `Task.sleep` are not modelled. Wall-clock time is the
  cluster's clock: a pause advances it, and a statement's duration is what
  the executor reports.
- File-system access is not modelled. The directory listing and a map
  from each existing path to its contents (or to nothing, when the path
  cannot be read as text) are inputs.
- `Text.Lower` maps only ASCII letters. Strings are sequences of code
  points, so grapheme clusters and Unicode case mapping are not modelled.
- The state table's `int` columns are unbounded integers here.
- `Sorting.SortBy` is a stable insertion sort. Swift's `sorted` does not
  promise an order among equal keys, and no contract here relies on one.
- Errors carry structured payloads in place of the source's message
  strings.
