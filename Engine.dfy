/**
 * `MigrationEngine`: configuration checks, reading the cluster's migration
 * state, collecting the migration files, and the four steps that bring a
 * cluster up to date. Each step is specified by a function over the cluster
 * value; the engine class changes its cluster exactly as that function says.
 */
module Engine {
  import opened Wrappers
  import opened Text
  import opened Sorting
  import opened StringExtensions
  import opened MigrationFileDescriptors
  import opened MigrationFiles
  import opened MigrationState
  import opened RemoteCluster

  // ----- Configuration -----

  datatype ClientConfig = ClientConfig(
    hosts: Option<seq<string>>,
    port: Option<int>,
    protocolVersion: Option<int>,
    keyspace: Option<string>,
    username: Option<string>,
    password: Option<string>,
    consistency: Option<string>)

  datatype MigrationConfig = MigrationConfig(
    invocationDelay: Option<int>,
    directory: Option<string>,
    fileSeparator: Option<string>,
    filePrefix: Option<string>,
    fileExtension: Option<string>,
    ignoreHistoricalHashes: Option<bool>)

  datatype Config = Config(
    client: Option<ClientConfig>,
    phalanxStateTable: Option<string>,
    migration: Option<MigrationConfig>)

  /** What a configured engine holds. `consistency` is `None` when the client library's default applies. */
  datatype Settings = Settings(
    hosts: seq<string>,
    port: int,
    protocolVersion: int,
    keyspace: string,
    stateTable: string,
    consistency: Option<Consistency>,
    username: Option<string>,
    password: Option<string>,
    migration: Option<MigrationConfig>)

  // ----- Errors -----

  datatype ConfigProblem =
    | HostsMissing
    | PortMissing
    | ProtocolVersionMissing
    | ProtocolVersionInvalid(protocolVersion: int)
    | KeyspaceMissing
    | StateTableMissing
    | ConsistencyInvalid(name: string)
    | DirectoryMissing
    | SeparatorMissing
    | MigrationConsistencyInvalid(version: int, name: string)

  datatype MetadataField = FileName(file: string) | Description(description: string)

  datatype KeyspaceCheck =
    | StateKeyspaceMismatch(found: string)
    | StateTableMismatch(found: string)
    | KeyspaceNotCreated
    | StateTableNotCreated

  datatype BootstrapProblem = VersionZeroMissing | NoCreateKeyspace

  datatype HashProblem = NotInstalled | HashDiffers(fileHash: string, installedHash: string)

  datatype MigrationEngineError =
    | InvalidConfig(problem: ConfigProblem)
    | InvalidFileMetadata(version: int, field: MetadataField)
    | IncorrectKeyspace(check: KeyspaceCheck)
    | NoKeyspaceMigration(reason: BootstrapProblem)
    | DuplicateVersions(version: int)
    | MigrationMismatch(version: int, mismatch: HashProblem)
    | MigrationError(message: string)

  /** Whatever a step can throw: an engine error, a file error, or an error of a statement the engine issued. */
  datatype Failure = Engine(error: MigrationEngineError) | File(fileError: MigrationFileError) | Client(message: string)

  // ----- init -----

  const INT32_MIN: int := -0x8000_0000
  const INT32_MAX: int := 0x7FFF_FFFF

  /**
   * `flatMap(Int32.init)` on an optional `Int`: the failable `init?(exactly:)`
   * is the initialiser that fits `flatMap`, so a value outside 32 bits is
   * dropped, just like a missing one.
   */
  function Int32Exactly(x: Option<int>): (r: Option<int>)
    ensures r.Some? <==> x.Some? && INT32_MIN <= x.value <= INT32_MAX
    ensures r.Some? ==> r.value == x.value
  {
    if x.Some? && INT32_MIN <= x.value <= INT32_MAX then x else None
  }

  predicate HasHosts(config: Config) {
    config.client.Some? && config.client.value.hosts.Some? && |config.client.value.hosts.value| > 0
  }

  /**
   * The guards of `init`, in order. `protocolKnown` is the client library's
   * `ProtocolVersion(rawValue:)`.
   */
  function Configure(config: Config, protocolKnown: int -> bool): Result<Settings, MigrationEngineError> {
    if !HasHosts(config) then Failure(InvalidConfig(HostsMissing))
    else
      var client := config.client.value;
      var port := Int32Exactly(client.port);
      var protocolVersion := Int32Exactly(client.protocolVersion);
      if port.None? then Failure(InvalidConfig(PortMissing))
      else if protocolVersion.None? then Failure(InvalidConfig(ProtocolVersionMissing))
      else if !protocolKnown(protocolVersion.value) then
        Failure(InvalidConfig(ProtocolVersionInvalid(protocolVersion.value)))
      else if client.keyspace.None? then Failure(InvalidConfig(KeyspaceMissing))
      else if config.phalanxStateTable.None? then Failure(InvalidConfig(StateTableMissing))
      else if client.consistency.Some? && ConsistencyOf(client.consistency.value).None? then
        Failure(InvalidConfig(ConsistencyInvalid(client.consistency.value)))
      else
        var consistency := if client.consistency.Some? then ConsistencyOf(client.consistency.value) else None;
        Success(Settings(client.hosts.value, port.value, protocolVersion.value,
          client.keyspace.value, config.phalanxStateTable.value, consistency,
          client.username, client.password, config.migration))
  }

  // ----- detectMigrationState -----

  /**
   * `detectMigrationState`: no keyspace, no state table, or the table's rows
   * ordered by version.
   */
  function DetectMigrationState(cs: ClusterState, keyspace: string, table: string): (r: InstalledMigrationState)
    ensures r.keyspace.None? <==> keyspace !in cs.keyspaces
    ensures r.keyspace.Some? ==> r.keyspace.value == keyspace
    ensures r.stateTable.Some? <==> keyspace in cs.keyspaces && (keyspace, table) in cs.ledgers
    ensures r.stateTable.Some? ==> r.stateTable.value == table
    ensures r.migrations.Some? <==> r.stateTable.Some?
    ensures r.migrations.Some? ==>
      && SortedBy(r.migrations.value, RowVersion)
      && multiset(r.migrations.value) == multiset(cs.ledgers[(keyspace, table)])
  {
    if keyspace !in cs.keyspaces then NoKeyspace()
    else if (keyspace, table) !in cs.ledgers then NoTable(keyspace)
    else InstalledMigrationState(Some(keyspace), Some(table), Some(SortBy(cs.ledgers[(keyspace, table)], RowVersion)))
  }

  // ----- detectFileMigrations -----

  /** The version of the first descriptor whose version was already seen, before or earlier in the list. */
  function FirstDuplicate(ds: seq<MigrationFileDescriptor>, seen: set<int>): Option<int> {
    if ds == [] then None
    else if ds[0].version in seen then Some(ds[0].version)
    else FirstDuplicate(ds[1..], seen + {ds[0].version})
  }

  /** Apply `f` to each element in order, stopping at the first failure. */
  function Traverse<A, B, E>(xs: seq<A>, f: A -> Result<B, E>): (r: Result<seq<B>, E>)
    ensures r.Success? ==> |r.value| == |xs|
  {
    if xs == [] then Success([])
    else match f(xs[0])
      case Failure(e) => Failure(e)
      case Success(b) =>
        match Traverse(xs[1..], f)
        case Failure(e) => Failure(e)
        case Success(rest) => Success([b] + rest)
  }

  /** `MigrationFile.from` for a descriptor. */
  function Loader(fs: FileSystem, decode: Decoder, sha256: Hasher): MigrationFileDescriptor -> Result<MigrationFile, MigrationFileError> {
    (d: MigrationFileDescriptor) => LoadMigrationFile(d.path, d.version, d.fileNameDescription, fs, decode, sha256)
  }

  /** Load every described file, stopping at the first that fails. */
  function LoadAll(ds: seq<MigrationFileDescriptor>, fs: FileSystem, decode: Decoder, sha256: Hasher)
    : Result<seq<MigrationFile>, MigrationFileError>
  {
    Traverse(ds, Loader(fs, decode, sha256))
  }

  function NamingOf(m: MigrationConfig, separator: string): NamingScheme {
    NamingScheme(m.filePrefix, separator, m.fileExtension)
  }

  /** The descriptors `detectFileMigrations` works on, once directory and separator are configured. */
  function Descriptors(m: MigrationConfig, listing: seq<string>): seq<MigrationFileDescriptor>
    requires m.directory.Some? && m.fileSeparator.Some?
  {
    From(m.directory.value, listing, NamingOf(m, m.fileSeparator.value))
  }

  /** `detectFileMigrations` over the directory's listing and the file system. */
  function DetectFileMigrationsOf(
    migration: Option<MigrationConfig>, listing: seq<string>, fs: FileSystem, decode: Decoder, sha256: Hasher)
    : Result<seq<MigrationFile>, Failure>
  {
    if migration.None? || migration.value.directory.None? then Failure(Engine(InvalidConfig(DirectoryMissing)))
    else if migration.value.fileSeparator.None? then Failure(Engine(InvalidConfig(SeparatorMissing)))
    else
      var ds := Descriptors(migration.value, listing);
      match FirstDuplicate(ds, {})
      case Some(v) => Failure(Engine(DuplicateVersions(v)))
      case None =>
        match LoadAll(ds, fs, decode, sha256)
        case Failure(e) => Failure(File(e))
        case Success(files) => Success(files)
  }

  // ----- Hash verification -----

  /** `first(where: { $0.version == version })`, for rows and for files alike. */
  function FirstWithVersion<T>(xs: seq<T>, versionOf: T -> int, version: int): (r: Option<T>)
    ensures r.Some? ==> r.value in xs && versionOf(r.value) == version
    ensures r.Some? ==>
      exists i :: 0 <= i < |xs| && xs[i] == r.value && forall j :: 0 <= j < i ==> versionOf(xs[j]) != version
    ensures r.None? <==> forall k :: 0 <= k < |xs| ==> versionOf(xs[k]) != version
  {
    if xs == [] then None
    else if versionOf(xs[0]) == version then Some(xs[0])
    else
      var rest := FirstWithVersion(xs[1..], versionOf, version);
      assert rest.Some? ==>
        exists i :: 0 < i < |xs| && xs[i] == rest.value && forall j :: 0 <= j < i ==> versionOf(xs[j]) != version by {
        if rest.Some? {
          var i :| 0 <= i < |xs[1..]| && xs[1..][i] == rest.value &&
            forall j :: 0 <= j < i ==> versionOf(xs[1..][j]) != version;
          assert xs[i + 1] == rest.value;
          forall j | 0 <= j < i + 1 ensures versionOf(xs[j]) != version {
            if j > 0 { assert xs[j] == xs[1..][j - 1]; }
          }
        }
      }
      rest
  }

  function FileVersion(m: MigrationFile): int {
    m.version
  }

  /** The hash check of one file against the rows. */
  function CheckHash(rows: seq<InstalledMigrationVersion>, file: MigrationFile): Outcome<MigrationEngineError> {
    match FirstWithVersion(rows, RowVersion, file.version)
    case None => Fail(MigrationMismatch(file.version, NotInstalled))
    case Some(row) =>
      if row.hash != file.hash then Fail(MigrationMismatch(file.version, HashDiffers(file.hash, row.hash)))
      else Pass
  }

  /** Check, in order, every file with `0 < version <= maxVersion`; the first failure is reported. */
  function CheckHashes(rows: seq<InstalledMigrationVersion>, files: seq<MigrationFile>, maxVersion: int)
    : Outcome<MigrationEngineError>
  {
    if files == [] then Pass
    else if 0 < files[0].version <= maxVersion && CheckHash(rows, files[0]).Fail? then CheckHash(rows, files[0])
    else CheckHashes(rows, files[1..], maxVersion)
  }

  /** `verifyHistoricalHashes`: nothing to check without rows; otherwise up to the last row's version. */
  function VerifyHistoricalHashes(state: InstalledMigrationState, files: seq<MigrationFile>): Outcome<MigrationEngineError> {
    match LastRow(state)
    case None => Pass
    case Some(last) => CheckHashes(state.migrations.value, files, last.version)
  }

  // ----- Installation -----

  /** The placeholder a migration may use for the configured keyspace. */
  const KeyspacePlaceholder: string := "$${{KEYSPACE}}$$"

  /** The statement actually sent: every placeholder replaced by the keyspace. */
  function Substitute(contents: string, keyspace: string): string {
    ReplaceAll(contents, KeyspacePlaceholder, keyspace)
  }

  /** `fileMigrations.filter { $0.version > maxVersion }` */
  function Pending(files: seq<MigrationFile>, maxVersion: int): (r: seq<MigrationFile>)
    ensures |r| <= |files|
    ensures forall k :: 0 <= k < |r| ==> r[k].version > maxVersion && r[k] in files
  {
    if files == [] then []
    else if files[0].version > maxVersion then [files[0]] + Pending(files[1..], maxVersion)
    else Pending(files[1..], maxVersion)
  }

  /** The abstract parts of the world: the cluster's executor, the YAML decoder and SHA-256. */
  datatype Oracles = Oracles(react: Executor, decode: Decoder, sha256: Hasher)

  /** The client a migration runs on: a transient one only when its metadata names a different level. */
  function ConnectionFor(m: MigrationFile, s: Settings, decode: Decoder): Result<Connection, MigrationEngineError> {
    var metadata := InternalMetadataOf(m.contents, decode);
    if metadata.None? || metadata.value.consistency.None? then Success(Configured)
    else
      var name := metadata.value.consistency.value;
      match ConsistencyOf(name)
      case None => Failure(InvalidConfig(MigrationConsistencyInvalid(m.version, name)))
      case Some(level) => if Some(level) != s.consistency then Success(Transient(level)) else Success(Configured)
  }

  /** `migrationMetadata?.invocationDelay ?? config.migration?.invocationDelay ?? 0` */
  function DelayFor(m: MigrationFile, s: Settings, decode: Decoder): int {
    var metadata := InternalMetadataOf(m.contents, decode);
    if metadata.Some? && metadata.value.invocationDelay.Some? then metadata.value.invocationDelay.value
    else if s.migration.Some? && s.migration.value.invocationDelay.Some? then s.migration.value.invocationDelay.value
    else 0
  }

  datatype InstallResult = InstallResult(cluster: ClusterState, outcome: Outcome<Failure>)

  /** The ledger row written for a migration. */
  function RowFor(m: MigrationFile, rank: int, installed: int, duration: int): InstalledMigrationVersion {
    InstalledMigrationVersion(rank, m.version, m.description, m.file, m.hash, installed, duration)
  }

  /** One pass of the install loop: checks, execution, the ledger row, the pause. */
  function InstallOne(cs: ClusterState, m: MigrationFile, rank: int, s: Settings, o: Oracles): InstallResult {
    if Contains(m.file, "$$") then InstallResult(cs, Fail(Engine(InvalidFileMetadata(m.version, FileName(m.file)))))
    else if Contains(m.description, "$$") then
      InstallResult(cs, Fail(Engine(InvalidFileMetadata(m.version, Description(m.description)))))
    else match ConnectionFor(m, s, o.decode)
      case Failure(e) => InstallResult(cs, Fail(Engine(e)))
      case Success(via) =>
        var run := Run(cs, Invocation(Substitute(m.contents, s.keyspace), via), o.react);
        match run.reaction
        case Rejected(message) => InstallResult(run.cluster, Fail(Engine(MigrationError(message))))
        case Applied(_, seconds) =>
          var row := RowFor(m, rank, run.cluster.clock, seconds);
          match InsertIfNotExists(run.cluster, s.keyspace, s.stateTable, row)
          case Failure(message) => InstallResult(run.cluster, Fail(Client(message)))
          case Success(written) => InstallResult(Pause(written, DelayFor(m, s, o.decode)), Pass)
  }

  /** The install loop from position `i` of the selection, with `rank` the next rank. */
  function InstallFrom(cs: ClusterState, sel: seq<MigrationFile>, i: nat, rank: int, s: Settings, o: Oracles): InstallResult
    requires i <= |sel|
    decreases |sel| - i
  {
    if i == |sel| then InstallResult(cs, Pass)
    else
      var step := InstallOne(cs, sel[i], rank, s, o);
      if step.outcome.Fail? then step
      else InstallFrom(step.cluster, sel, i + 1, rank + 1, s, o)
  }

  /**
   * `installNewMigrations`: the files above the last row's version, ranked from
   * the last row's rank + 1. With nothing above it the loop runs zero times, the
   * same outcome as the source's early return.
   */
  function InstallNewMigrationsOf(cs: ClusterState, state: InstalledMigrationState, files: seq<MigrationFile>, s: Settings, o: Oracles)
    : InstallResult
  {
    InstallFrom(cs, Pending(files, MaxVersion(state)), 0, MaxRank(state) + 1, s, o)
  }

  // ----- Bootstrap -----

  /** `generateKeyspaceFromVersionZero` */
  function GenerateKeyspaceOf(cs: ClusterState, files: seq<MigrationFile>, s: Settings, o: Oracles): InstallResult {
    match FirstWithVersion(files, FileVersion, 0)
    case None => InstallResult(cs, Fail(Engine(NoKeyspaceMigration(VersionZeroMissing))))
    case Some(m) =>
      if !DetectKeyspaceCreation(m.contents) then InstallResult(cs, Fail(Engine(NoKeyspaceMigration(NoCreateKeyspace))))
      else
        var run := Run(cs, Invocation(Substitute(m.contents, s.keyspace), Neutral), o.react);
        match run.reaction
        case Rejected(message) => InstallResult(run.cluster, Fail(Client(message)))
        case Applied(_, _) =>
          if DetectMigrationState(run.cluster, s.keyspace, s.stateTable).keyspace != Some(s.keyspace) then
            InstallResult(run.cluster, Fail(Engine(IncorrectKeyspace(KeyspaceNotCreated))))
          else InstallResult(run.cluster, Pass)
  }

  /** `generateStateTable` */
  function GenerateStateTableOf(cs: ClusterState, s: Settings): InstallResult {
    match CreateTable(cs, s.keyspace, s.stateTable)
    case Failure(message) => InstallResult(cs, Fail(Client(message)))
    case Success(created) =>
      if DetectMigrationState(created, s.keyspace, s.stateTable).stateTable != Some(s.stateTable) then
        InstallResult(created, Fail(Engine(IncorrectKeyspace(StateTableNotCreated))))
      else InstallResult(created, Pass)
  }

  predicate IgnoresHistoricalHashes(s: Settings) {
    s.migration.Some? && s.migration.value.ignoreHistoricalHashes == Some(true)
  }

  /** Step 1: create the keyspace, or check that the state names the engine's keyspace. */
  function KeyspaceStep(cs: ClusterState, state: InstalledMigrationState, files: seq<MigrationFile>, s: Settings, o: Oracles)
    : InstallResult
  {
    if state.keyspace.None? then GenerateKeyspaceOf(cs, files, s, o)
    else if state.keyspace.value != s.keyspace then
      InstallResult(cs, Fail(Engine(IncorrectKeyspace(StateKeyspaceMismatch(state.keyspace.value)))))
    else InstallResult(cs, Pass)
  }

  /** Step 2: create the state table, or check that the state names the engine's table. */
  function TableStep(cs: ClusterState, state: InstalledMigrationState, s: Settings): InstallResult {
    if state.stateTable.None? then GenerateStateTableOf(cs, s)
    else if state.stateTable.value != s.stateTable then
      InstallResult(cs, Fail(Engine(IncorrectKeyspace(StateTableMismatch(state.stateTable.value)))))
    else InstallResult(cs, Pass)
  }

  /**
   * `executeMigration`: the four steps in order, each run only when the one
   * before passed. Steps 3 and 4 read the state passed in, even when steps 1
   * and 2 have just changed the cluster.
   */
  function ExecuteMigrationOf(cs: ClusterState, state: InstalledMigrationState, files: seq<MigrationFile>, s: Settings, o: Oracles)
    : InstallResult
  {
    var step1 := KeyspaceStep(cs, state, files, s, o);
    if step1.outcome.Fail? then step1
    else
      var step2 := TableStep(step1.cluster, state, s);
      if step2.outcome.Fail? then step2
      else if !IgnoresHistoricalHashes(s) && VerifyHistoricalHashes(state, files).Fail? then
        InstallResult(step2.cluster, Fail(Engine(VerifyHistoricalHashes(state, files).error)))
      else InstallNewMigrationsOf(step2.cluster, state, files, s, o)
  }

  /** Results already gathered in front of the rest of a traversal. */
  function Prepend<B, E>(done: seq<B>, rest: Result<seq<B>, E>): Result<seq<B>, E> {
    match rest
    case Failure(e) => Failure(e)
    case Success(more) => Success(done + more)
  }

  lemma PrependNothing<B, E>(r: Result<seq<B>, E>)
    ensures Prepend([], r) == r
  {
    if r.Success? {
      assert [] + r.value == r.value;
    }
  }

  /** One turn of a traversal loop, seen from its invariant. */
  lemma TraverseStep<A, B, E>(xs: seq<A>, i: nat, done: seq<B>, f: A -> Result<B, E>, y: Result<B, E>)
    requires i < |xs| && y == f(xs[i])
    requires Traverse(xs, f) == Prepend(done, Traverse(xs[i..], f))
    ensures y.Failure? ==> Traverse(xs, f) == Failure(y.error)
    ensures y.Success? ==> Traverse(xs, f) == Prepend(done + [y.value], Traverse(xs[i + 1..], f))
  {
    assert xs[i..][1..] == xs[i + 1..];
    if y.Success? {
      var rest := Traverse(xs[i + 1..], f);
      if rest.Success? {
        assert done + ([y.value] + rest.value) == (done + [y.value]) + rest.value;
      }
    }
  }

  /** A successful traversal holds, at each position, the result of that element. */
  lemma {:induction false} TraverseElementwise<A, B, E>(xs: seq<A>, f: A -> Result<B, E>)
    requires Traverse(xs, f).Success?
    ensures |Traverse(xs, f).value| == |xs|
    ensures forall k :: 0 <= k < |xs| ==> f(xs[k]) == Success(Traverse(xs, f).value[k])
  {
    if xs != [] {
      TraverseElementwise(xs[1..], f);
      var rest := Traverse(xs[1..], f).value;
      forall k | 1 <= k < |xs|
        ensures f(xs[k]) == Success(Traverse(xs, f).value[k])
      {
        assert xs[k] == xs[1..][k - 1];
      }
    }
  }

  /** One turn of the install loop, seen from the loop invariant. */
  lemma InstallLoopStep(before: ClusterState, after: ClusterState, outcome: Outcome<Failure>, sel: seq<MigrationFile>, i: nat, rank: int, s: Settings, o: Oracles, goal: InstallResult)
    requires i < |sel| && InstallFrom(before, sel, i, rank, s, o) == goal
    requires InstallResult(after, outcome) == InstallOne(before, sel[i], rank, s, o)
    ensures outcome.Fail? ==> InstallResult(after, outcome) == goal
    ensures outcome.Pass? ==> InstallFrom(after, sel, i + 1, rank + 1, s, o) == goal
  {
  }

  /** The duplicate-version loop of `detectFileMigrations`. */
  method FindDuplicateVersion(descriptors: seq<MigrationFileDescriptor>) returns (duplicate: Option<int>)
    ensures duplicate == FirstDuplicate(descriptors, {})
  {
    var dupeCheck: set<int> := {};
    var i := 0;
    while i < |descriptors|
      invariant 0 <= i <= |descriptors|
      invariant FirstDuplicate(descriptors, {}) == FirstDuplicate(descriptors[i..], dupeCheck)
    {
      assert descriptors[i..][1..] == descriptors[i + 1..];
      if descriptors[i].version in dupeCheck {
        return Some(descriptors[i].version);
      }
      dupeCheck := dupeCheck + {descriptors[i].version};
      i := i + 1;
    }
    return None;
  }

  /** The loading loop of `detectFileMigrations`. */
  method LoadFiles(descriptors: seq<MigrationFileDescriptor>, fs: FileSystem, decode: Decoder, sha256: Hasher)
    returns (r: Result<seq<MigrationFile>, MigrationFileError>)
    ensures r == LoadAll(descriptors, fs, decode, sha256)
  {
    var files: seq<MigrationFile> := [];
    var i := 0;
    ghost var load := Loader(fs, decode, sha256);
    assert descriptors[i..] == descriptors;
    PrependNothing(Traverse(descriptors, load));
    while i < |descriptors|
      invariant 0 <= i <= |descriptors|
      invariant Traverse(descriptors, load) == Prepend(files, Traverse(descriptors[i..], load))
    {
      var d := descriptors[i];
      var loaded := LoadMigrationFile(d.path, d.version, d.fileNameDescription, fs, decode, sha256);
      TraverseStep(descriptors, i, files, load, loaded);
      if loaded.Failure? {
        return Failure(loaded.error);
      }
      files := files + [loaded.value];
      i := i + 1;
    }
    assert descriptors[i..] == [];
    assert files + [] == files;
    return Success(files);
  }

  // ----- The engine -----

  class MigrationEngine {
    const settings: Settings
    const oracles: Oracles
    /** The cluster the engine talks to. */
    var cluster: ClusterState

    /** `init`, once its guards (`Configure`) have passed. */
    constructor(config: Config, protocolKnown: int -> bool, oracles: Oracles, cluster: ClusterState)
      requires Configure(config, protocolKnown).Success?
      ensures settings == Configure(config, protocolKnown).value
      ensures this.oracles == oracles && this.cluster == cluster
    {
      settings := Configure(config, protocolKnown).value;
      this.oracles := oracles;
      this.cluster := cluster;
    }

    /** `detectFileMigrations`: the duplicate check over all descriptors comes before any file is loaded. */
    method DetectFileMigrations(listing: seq<string>, fs: FileSystem) returns (r: Result<seq<MigrationFile>, Failure>)
      ensures r == DetectFileMigrationsOf(settings.migration, listing, fs, oracles.decode, oracles.sha256)
    {
      var migration := settings.migration;
      if migration.None? || migration.value.directory.None? {
        return Failure(Engine(InvalidConfig(DirectoryMissing)));
      }
      if migration.value.fileSeparator.None? {
        return Failure(Engine(InvalidConfig(SeparatorMissing)));
      }
      var descriptors := Descriptors(migration.value, listing);
      var duplicate := FindDuplicateVersion(descriptors);
      if duplicate.Some? {
        return Failure(Engine(DuplicateVersions(duplicate.value)));
      }
      var loaded := LoadFiles(descriptors, fs, oracles.decode, oracles.sha256);
      if loaded.Failure? {
        return Failure(File(loaded.error));
      }
      return Success(loaded.value);
    }

    /** `generateKeyspaceFromVersionZero` */
    method GenerateKeyspaceFromVersionZero(files: seq<MigrationFile>) returns (outcome: Outcome<Failure>)
      modifies this
      ensures InstallResult(cluster, outcome) == GenerateKeyspaceOf(old(cluster), files, settings, oracles)
    {
      var found := FirstWithVersion(files, FileVersion, 0);
      if found.None? {
        return Fail(Engine(NoKeyspaceMigration(VersionZeroMissing)));
      }
      var migration := found.value;
      if !DetectKeyspaceCreation(migration.contents) {
        return Fail(Engine(NoKeyspaceMigration(NoCreateKeyspace)));
      }
      var run := Run(cluster, Invocation(Substitute(migration.contents, settings.keyspace), Neutral), oracles.react);
      cluster := run.cluster;
      if run.reaction.Rejected? {
        return Fail(Client(run.reaction.message));
      }
      var newState := DetectMigrationState(cluster, settings.keyspace, settings.stateTable);
      if newState.keyspace != Some(settings.keyspace) {
        return Fail(Engine(IncorrectKeyspace(KeyspaceNotCreated)));
      }
      return Pass;
    }

    /** `generateStateTable` */
    method GenerateStateTable() returns (outcome: Outcome<Failure>)
      modifies this
      ensures InstallResult(cluster, outcome) == GenerateStateTableOf(old(cluster), settings)
    {
      var created := CreateTable(cluster, settings.keyspace, settings.stateTable);
      if created.Failure? {
        return Fail(Client(created.error));
      }
      cluster := created.value;
      var newState := DetectMigrationState(cluster, settings.keyspace, settings.stateTable);
      if newState.stateTable != Some(settings.stateTable) {
        return Fail(Engine(IncorrectKeyspace(StateTableNotCreated)));
      }
      return Pass;
    }

    /** `installNewMigrations`: the files above the last row's version, ranked on from the last row's rank. */
    method InstallNewMigrations(state: InstalledMigrationState, files: seq<MigrationFile>) returns (outcome: Outcome<Failure>)
      modifies this
      ensures InstallResult(cluster, outcome) == InstallNewMigrationsOf(old(cluster), state, files, settings, oracles)
    {
      var maxVersion := MaxVersion(state);
      var maxRank := MaxRank(state);
      var toBeInstalled := Pending(files, maxVersion);
      if toBeInstalled == [] {
        return Pass;
      }
      outcome := InstallAll(toBeInstalled, maxRank + 1);
    }

    /** The install loop: one migration after another, ranks counting up from `firstRank`. */
    method InstallAll(toBeInstalled: seq<MigrationFile>, firstRank: int) returns (outcome: Outcome<Failure>)
      modifies this
      ensures InstallResult(cluster, outcome) == InstallFrom(old(cluster), toBeInstalled, 0, firstRank, settings, oracles)
    {
      var nextRank := firstRank;
      var i := 0;
      ghost var goal := InstallFrom(cluster, toBeInstalled, 0, nextRank, settings, oracles);
      while i < |toBeInstalled|
        invariant 0 <= i <= |toBeInstalled|
        invariant nextRank == firstRank + i
        invariant InstallFrom(cluster, toBeInstalled, i, nextRank, settings, oracles) == goal
      {
        ghost var before := cluster;
        outcome := InstallMigration(toBeInstalled[i], nextRank);
        InstallLoopStep(before, cluster, outcome, toBeInstalled, i, nextRank, settings, oracles, goal);
        if outcome.Fail? {
          return;
        }
        nextRank := nextRank + 1;
        i := i + 1;
      }
      assert InstallFrom(cluster, toBeInstalled, i, nextRank, settings, oracles) == InstallResult(cluster, Pass);
      return Pass;
    }

    /** The body of the install loop for one migration, written with rank `rank`. */
    method InstallMigration(migration: MigrationFile, rank: int) returns (outcome: Outcome<Failure>)
      modifies this
      ensures InstallResult(cluster, outcome) == InstallOne(old(cluster), migration, rank, settings, oracles)
    {
      if Contains(migration.file, "$$") {
        return Fail(Engine(InvalidFileMetadata(migration.version, FileName(migration.file))));
      }
      if Contains(migration.description, "$$") {
        return Fail(Engine(InvalidFileMetadata(migration.version, Description(migration.description))));
      }

      var invocationClient := Configured;
      var metadata := ExtractInternalMetadata(migration.contents, oracles.decode);
      if metadata.Some? && metadata.value.consistency.Some? {
        var resolved := ConsistencyOf(metadata.value.consistency.value);
        if resolved.None? {
          return Fail(Engine(InvalidConfig(MigrationConsistencyInvalid(migration.version, metadata.value.consistency.value))));
        }
        if Some(resolved.value) != settings.consistency {
          invocationClient := Transient(resolved.value);
        }
      }
      assert ConnectionFor(migration, settings, oracles.decode) == Success(invocationClient);

      var run := Run(cluster, Invocation(Substitute(migration.contents, settings.keyspace), invocationClient), oracles.react);
      cluster := run.cluster;
      if run.reaction.Rejected? {
        return Fail(Engine(MigrationError(run.reaction.message)));
      }
      var duration := run.reaction.seconds;

      var inserted := InsertIfNotExists(cluster, settings.keyspace, settings.stateTable,
        RowFor(migration, rank, cluster.clock, duration));
      if inserted.Failure? {
        return Fail(Client(inserted.error));
      }
      cluster := inserted.value;

      var delayTime := 0;
      if metadata.Some? && metadata.value.invocationDelay.Some? {
        delayTime := metadata.value.invocationDelay.value;
      } else if settings.migration.Some? && settings.migration.value.invocationDelay.Some? {
        delayTime := settings.migration.value.invocationDelay.value;
      }
      assert delayTime == DelayFor(migration, settings, oracles.decode);
      if delayTime > 0 {
        cluster := Pause(cluster, delayTime);
      }
      return Pass;
    }

    /** `executeMigration`: bootstrap the keyspace and the table if needed, verify hashes, install. */
    method ExecuteMigration(state: InstalledMigrationState, files: seq<MigrationFile>) returns (outcome: Outcome<Failure>)
      modifies this
      ensures InstallResult(cluster, outcome) == ExecuteMigrationOf(old(cluster), state, files, settings, oracles)
    {
      if state.keyspace.None? {
        outcome := GenerateKeyspaceFromVersionZero(files);
        if outcome.Fail? {
          return;
        }
      } else if state.keyspace.value != settings.keyspace {
        return Fail(Engine(IncorrectKeyspace(StateKeyspaceMismatch(state.keyspace.value))));
      }

      if state.stateTable.None? {
        outcome := GenerateStateTable();
        if outcome.Fail? {
          return;
        }
      } else if state.stateTable.value != settings.stateTable {
        return Fail(Engine(IncorrectKeyspace(StateTableMismatch(state.stateTable.value))));
      }

      if !IgnoresHistoricalHashes(settings) {
        var verified := VerifyHistoricalHashes(state, files);
        if verified.Fail? {
          return Fail(Engine(verified.error));
        }
      }

      outcome := InstallNewMigrations(state, files);
    }
  }
}
