/**
 * What the engine's steps guarantee: the duplicate check, the ordering of
 * the collected files, the bootstrap and name checks, hash verification,
 * and the install loop's ledger rows and statements.
 */
module EngineProperties {
  import opened Wrappers
  import opened Text
  import opened Sorting
  import opened StringExtensions
  import opened MigrationFileDescriptors
  import opened MigrationFiles
  import opened MigrationState
  import opened RemoteCluster
  import opened Engine

  // ----- The install loop -----

  /** A ledger row records the file it was written for. */
  predicate Describes(row: InstalledMigrationVersion, m: MigrationFile) {
    row.version == m.version && row.description == m.description && row.file == m.file && row.hash == m.hash
  }

  /** `rows` are the rows for `sel[i..]`, in order, ranked from `rank` upwards one by one. */
  predicate Records(rows: seq<InstalledMigrationVersion>, sel: seq<MigrationFile>, i: int, rank: int) {
    forall k :: 0 <= k < |rows| ==> 0 <= i + k < |sel| && rows[k].rank == rank + k && Describes(rows[k], sel[i + k])
  }

  predicate RanksBelow(rows: seq<InstalledMigrationVersion>, rank: int) {
    forall k :: 0 <= k < |rows| ==> rows[k].rank < rank
  }

  /** `sent` are the statements `stmt` gives for `sel[i..]`, in order. */
  predicate Sends(sent: seq<Invocation>, sel: seq<MigrationFile>, i: int, stmt: MigrationFile -> string) {
    forall k :: 0 <= k < |sent| ==> 0 <= i + k < |sel| && sent[k].statement == stmt(sel[i + k])
  }

  /** The statement the engine sends for a file: its contents with the keyspace substituted. */
  function StatementIn(keyspace: string): MigrationFile -> string {
    (m: MigrationFile) => Substitute(m.contents, keyspace)
  }

  function StateKey(s: Settings): (string, string) {
    (s.keyspace, s.stateTable)
  }

  /**
   * What one pass of the install loop does to the cluster: on success
   * exactly one statement is sent and one row of rank `rank` is added (when
   * the rank is free); on failure no row is added and at most the
   * migration's own statement was sent.
   */
  predicate OneEffect(cs: ClusterState, r: InstallResult, m: MigrationFile, rank: int, s: Settings,
                    stmt: MigrationFile -> string)
    requires StateKey(s) in cs.ledgers
  {
    && StateKey(s) in r.cluster.ledgers
    && cs.log <= r.cluster.log && |r.cluster.log| <= |cs.log| + 1
    && (|r.cluster.log| > |cs.log| ==> r.cluster.log[|cs.log|].statement == stmt(m))
    && (r.outcome.Fail? ==> r.cluster.ledgers == cs.ledgers)
    && (r.outcome.Pass? ==>
      && |r.cluster.log| == |cs.log| + 1
      && var before := cs.ledgers[StateKey(s)];
         var after := r.cluster.ledgers[StateKey(s)];
         (if HasRank(before, rank) then after == before
          else (|after| == |before| + 1 && after[..|before|] == before
                && after[|before|].rank == rank && Describes(after[|before|], m))))
  }

  /**
   * What the install loop from position `i` does: the ledger gains rows for
   * a prefix of `sel[i..]`, ranked consecutively from `rank`; all of them on
   * success, and on failure none for the file that failed or any after it.
   * The statements sent are those of the same prefix, plus at most the
   * failing file's own.
   */
  predicate FromEffect(cs: ClusterState, r: InstallResult, sel: seq<MigrationFile>, i: int, rank: int, s: Settings,
                     stmt: MigrationFile -> string)
    requires StateKey(s) in cs.ledgers
  {
    && StateKey(s) in r.cluster.ledgers
    && var before := cs.ledgers[StateKey(s)];
       var after := r.cluster.ledgers[StateKey(s)];
       var written := |after| - |before|;
       && |before| <= |after| && after[..|before|] == before
       && Records(after[|before|..], sel, i, rank)
       && cs.log <= r.cluster.log
       && Sends(r.cluster.log[|cs.log|..], sel, i, stmt)
       && written <= |r.cluster.log| - |cs.log| <= written + 1
       && (r.outcome.Pass? ==> written == |sel| - i && |r.cluster.log| - |cs.log| == written)
       && (r.outcome.Fail? ==> i + written < |sel|)
  }

  lemma InstallOneEffect(cs: ClusterState, m: MigrationFile, rank: int, s: Settings, o: Oracles)
    requires StateKey(s) in cs.ledgers
    ensures OneEffect(cs, InstallOne(cs, m, rank, s, o), m, rank, s, StatementIn(s.keyspace))
  {
    var r := InstallOne(cs, m, rank, s, o);
    if !Contains(m.file, "$$") && !Contains(m.description, "$$") && ConnectionFor(m, s, o.decode).Success? {
      var run := Run(cs, Invocation(Substitute(m.contents, s.keyspace), ConnectionFor(m, s, o.decode).value), o.react);
      if run.reaction.Applied? {
        var before := cs.ledgers[StateKey(s)];
        var row := RowFor(m, rank, run.cluster.clock, run.reaction.seconds);
        var written := InsertIfNotExists(run.cluster, s.keyspace, s.stateTable, row);
        assert written.Success?;
        if !HasRank(before, rank) {
          assert written.value.ledgers[StateKey(s)] == before + [row];
          assert (before + [row])[..|before|] == before;
        }
      }
    }
  }

  /** The loop with nothing left to install. */
  lemma FromEffectDone(cs: ClusterState, sel: seq<MigrationFile>, rank: int, s: Settings, stmt: MigrationFile -> string)
    requires StateKey(s) in cs.ledgers
    ensures FromEffect(cs, InstallResult(cs, Pass), sel, |sel|, rank, s, stmt)
  {
    var before := cs.ledgers[StateKey(s)];
    assert before[..|before|] == before;
    assert before[|before|..] == [];
    assert cs.log[|cs.log|..] == [];
  }

  /** The loop stopping at its first file. */
  lemma FromEffectStop(cs: ClusterState, step: InstallResult, sel: seq<MigrationFile>, i: nat, rank: int, s: Settings,
                       stmt: MigrationFile -> string)
    requires i < |sel| && StateKey(s) in cs.ledgers
    requires OneEffect(cs, step, sel[i], rank, s, stmt) && step.outcome.Fail?
    ensures FromEffect(cs, step, sel, i, rank, s, stmt)
  {
    var before := cs.ledgers[StateKey(s)];
    var after := step.cluster.ledgers[StateKey(s)];
    assert after == before;
    assert after[..|before|] == before;
    assert Records(after[|before|..], sel, i, rank) by {
      assert after[|before|..] == [];
    }
    var sent := step.cluster.log[|cs.log|..];
    assert Sends(sent, sel, i, stmt) by {
      if |sent| > 0 {
        assert |sent| == 1 && sent[0] == step.cluster.log[|cs.log|];
      }
    }
  }

  /** After a successful pass the new row's rank is the largest. */
  lemma OneEffectRanks(cs: ClusterState, step: InstallResult, m: MigrationFile, rank: int, s: Settings,
                       stmt: MigrationFile -> string)
    requires StateKey(s) in cs.ledgers && RanksBelow(cs.ledgers[StateKey(s)], rank)
    requires OneEffect(cs, step, m, rank, s, stmt) && step.outcome.Pass?
    ensures StateKey(s) in step.cluster.ledgers && RanksBelow(step.cluster.ledgers[StateKey(s)], rank + 1)
  {
    var before := cs.ledgers[StateKey(s)];
    assert !HasRank(before, rank);
    var after := step.cluster.ledgers[StateKey(s)];
    forall k | 0 <= k < |after|
      ensures after[k].rank < rank + 1
    {
      if k < |before| {
        assert after[k] == after[..|before|][k];
      }
    }
  }

  /** The first file installed, then the rest of the loop. */
  lemma FromEffectStep(cs: ClusterState, step: InstallResult, rest: InstallResult, sel: seq<MigrationFile>, i: nat,
                       rank: int, s: Settings, stmt: MigrationFile -> string)
    requires i < |sel| && StateKey(s) in cs.ledgers && RanksBelow(cs.ledgers[StateKey(s)], rank)
    requires OneEffect(cs, step, sel[i], rank, s, stmt) && step.outcome.Pass?
    requires StateKey(s) in step.cluster.ledgers && FromEffect(step.cluster, rest, sel, i + 1, rank + 1, s, stmt)
    ensures FromEffect(cs, rest, sel, i, rank, s, stmt)
  {
    var key := StateKey(s);
    var before := cs.ledgers[key];
    assert !HasRank(before, rank);
    var mid := step.cluster.ledgers[key];
    var after := rest.cluster.ledgers[key];
    assert after[..|before|] == before by {
      assert after[..|mid|] == mid;
      assert after[..|before|] == after[..|mid|][..|before|];
    }
    assert Records(after[|before|..], sel, i, rank) by {
      forall k | 0 <= k < |after| - |before|
        ensures 0 <= i + k < |sel| && after[|before|..][k].rank == rank + k && Describes(after[|before|..][k], sel[i + k])
      {
        if k == 0 {
          assert after[|before|] == after[..|mid|][|before|];
        } else {
          assert after[|before|..][k] == after[|mid|..][k - 1];
        }
      }
    }
    var sent := rest.cluster.log[|cs.log|..];
    assert Sends(sent, sel, i, stmt) by {
      forall k | 0 <= k < |sent|
        ensures 0 <= i + k < |sel| && sent[k].statement == stmt(sel[i + k])
      {
        if k == 0 {
          assert sent[0] == step.cluster.log[|cs.log|];
        } else {
          assert sent[k] == rest.cluster.log[|step.cluster.log|..][k - 1];
        }
      }
    }
  }

  /** Every run of the install loop has the effect `FromEffect` describes. */
  lemma {:induction false} InstallFromEffect(cs: ClusterState, sel: seq<MigrationFile>, i: nat, rank: int, s: Settings, o: Oracles)
    requires i <= |sel| && StateKey(s) in cs.ledgers && RanksBelow(cs.ledgers[StateKey(s)], rank)
    ensures FromEffect(cs, InstallFrom(cs, sel, i, rank, s, o), sel, i, rank, s, StatementIn(s.keyspace))
    decreases |sel| - i
  {
    if i == |sel| {
      FromEffectDone(cs, sel, rank, s, StatementIn(s.keyspace));
    } else {
      var step := InstallOne(cs, sel[i], rank, s, o);
      InstallOneEffect(cs, sel[i], rank, s, o);
      if step.outcome.Fail? {
        FromEffectStop(cs, step, sel, i, rank, s, StatementIn(s.keyspace));
      } else {
        OneEffectRanks(cs, step, sel[i], rank, s, StatementIn(s.keyspace));
        InstallFromEffect(step.cluster, sel, i + 1, rank + 1, s, o);
        FromEffectStep(cs, step, InstallFrom(step.cluster, sel, i + 1, rank + 1, s, o), sel, i, rank, s, StatementIn(s.keyspace));
      }
    }
  }

  /**
   * `installNewMigrations`: the files above the last row's version get rows
   * ranked consecutively from the last row's rank + 1 (from 1 when there
   * are no rows), provided no row already holds a higher rank.
   */
  lemma InstallNewMigrationsEffect(cs: ClusterState, state: InstalledMigrationState, files: seq<MigrationFile>, s: Settings, o: Oracles)
    requires StateKey(s) in cs.ledgers
    requires forall k :: 0 <= k < |cs.ledgers[StateKey(s)]| ==> cs.ledgers[StateKey(s)][k].rank <= MaxRank(state)
    ensures FromEffect(cs, InstallNewMigrationsOf(cs, state, files, s, o), Pending(files, MaxVersion(state)), 0, MaxRank(state) + 1, s,
      StatementIn(s.keyspace))
  {
    var sel := Pending(files, MaxVersion(state));
    if sel == [] {
      FromEffectDone(cs, sel, MaxRank(state) + 1, s, StatementIn(s.keyspace));
    } else {
      InstallFromEffect(cs, sel, 0, MaxRank(state) + 1, s, o);
    }
  }

  /** Nothing to install: the cluster is left exactly as it was. */
  lemma EmptySelectionChangesNothing(cs: ClusterState, state: InstalledMigrationState, files: seq<MigrationFile>, s: Settings, o: Oracles)
    requires forall k :: 0 <= k < |files| ==> files[k].version <= MaxVersion(state)
    ensures InstallNewMigrationsOf(cs, state, files, s, o) == InstallResult(cs, Pass)
  {
    PendingMembers(files, MaxVersion(state));
  }

  /** The selection is exactly the files above `maxVersion`; with no rows that excludes version 0. */
  lemma {:induction false} PendingMembers(files: seq<MigrationFile>, maxVersion: int)
    ensures forall f :: f in Pending(files, maxVersion) <==> f in files && f.version > maxVersion
    ensures Pending(files, maxVersion) == [] <==> forall k :: 0 <= k < |files| ==> files[k].version <= maxVersion
  {
    if files != [] {
      PendingMembers(files[1..], maxVersion);
      assert files == [files[0]] + files[1..];
    }
  }

  predicate StrictlyIncreasing(files: seq<MigrationFile>) {
    forall i, j :: 0 <= i < j < |files| ==> files[i].version < files[j].version
  }

  /** Over files in increasing version order the selection is a suffix: the files after the installed ones. */
  lemma {:induction false} PendingIsSuffix(files: seq<MigrationFile>, maxVersion: int)
    requires StrictlyIncreasing(files)
    ensures |Pending(files, maxVersion)| <= |files|
    ensures Pending(files, maxVersion) == files[|files| - |Pending(files, maxVersion)|..]
  {
    if files != [] {
      PendingIsSuffix(files[1..], maxVersion);
      if files[0].version > maxVersion {
        PendingMembers(files[1..], maxVersion);
        assert forall k :: 0 <= k < |files[1..]| ==> files[1..][k].version > maxVersion;
        SelectAll(files[1..], maxVersion);
        assert files[|files| - |Pending(files, maxVersion)|..] == files;
      }
    }
  }

  /** When every file is above `maxVersion`, all of them are selected. */
  lemma {:induction false} SelectAll(files: seq<MigrationFile>, maxVersion: int)
    requires forall k :: 0 <= k < |files| ==> files[k].version > maxVersion
    ensures Pending(files, maxVersion) == files
  {
    if files != [] {
      SelectAll(files[1..], maxVersion);
      assert files == [files[0]] + files[1..];
    }
  }

  /**
   * `INSERT ... IF NOT EXISTS` under a rank that is already taken: the pass
   * succeeds and writes no row. This is what happens when the last row by
   * version does not hold the highest rank.
   */
  lemma RankCollisionWritesNoRow(cs: ClusterState, m: MigrationFile, rank: int, s: Settings, o: Oracles)
    requires StateKey(s) in cs.ledgers && HasRank(cs.ledgers[StateKey(s)], rank)
    requires InstallOne(cs, m, rank, s, o).outcome.Pass?
    ensures InstallOne(cs, m, rank, s, o).cluster.ledgers[StateKey(s)] == cs.ledgers[StateKey(s)]
  {
    InstallOneEffect(cs, m, rank, s, o);
  }

  /**
   * A migration is sent to the cluster exactly when its name and description
   * carry no `$$` and its consistency override, if any, is known; otherwise
   * the cluster is left untouched.
   */
  lemma ExecutedIffChecksPass(cs: ClusterState, m: MigrationFile, rank: int, s: Settings, o: Oracles)
    ensures var r := InstallOne(cs, m, rank, s, o);
      |r.cluster.log| > |cs.log| <==>
        !Contains(m.file, "$$") && !Contains(m.description, "$$") && ConnectionFor(m, s, o.decode).Success?
    ensures var r := InstallOne(cs, m, rank, s, o);
      |r.cluster.log| == |cs.log| ==> r.cluster == cs && r.outcome.Fail?
  {
  }

  /** Metadata asking for consistency `all` makes the install fail before the statement is sent. */
  lemma ConsistencyAllRejected(cs: ClusterState, m: MigrationFile, rank: int, s: Settings, o: Oracles)
    requires !Contains(m.file, "$$") && !Contains(m.description, "$$")
    requires var metadata := InternalMetadataOf(m.contents, o.decode);
      metadata.Some? && metadata.value.consistency == Some("all")
    ensures InstallOne(cs, m, rank, s, o) == InstallResult(cs, Fail(Engine(InvalidConfig(MigrationConsistencyInvalid(m.version, "all")))))
  {
    ConsistencyRecognised("all");
  }

  /** A rejected statement aborts with `migrationError`: it was sent, and no row is written. */
  lemma RejectedStatementAborts(cs: ClusterState, m: MigrationFile, rank: int, s: Settings, o: Oracles, message: string)
    requires !Contains(m.file, "$$") && !Contains(m.description, "$$") && ConnectionFor(m, s, o.decode).Success?
    requires o.react(cs, Invocation(Substitute(m.contents, s.keyspace), ConnectionFor(m, s, o.decode).value)) == Rejected(message)
    ensures var r := InstallOne(cs, m, rank, s, o);
      && r.outcome == Fail(Engine(MigrationError(message)))
      && r.cluster.ledgers == cs.ledgers
      && r.cluster.log == cs.log + [Invocation(Substitute(m.contents, s.keyspace), ConnectionFor(m, s, o.decode).value)]
  {
  }

  /**
   * The connection: the configured client unless the metadata names a known
   * level different from the configured one; an unknown name is an error.
   */
  lemma ConnectionChoice(m: MigrationFile, s: Settings, decode: Decoder)
    ensures var metadata := InternalMetadataOf(m.contents, decode);
      var c := ConnectionFor(m, s, decode);
      && (c.Success? && c.value.Transient? <==>
           metadata.Some? && metadata.value.consistency.Some?
           && ConsistencyOf(metadata.value.consistency.value).Some?
           && ConsistencyOf(metadata.value.consistency.value) != s.consistency)
      && (c.Success? && c.value.Transient? ==> ConsistencyName(c.value.level) == metadata.value.consistency.value)
      && (c.Failure? <==>
           (metadata.Some? && metadata.value.consistency.Some?
            && metadata.value.consistency.value !in {"any", "one", "two", "three", "quorum", "serial"}))
  {
    var metadata := InternalMetadataOf(m.contents, decode);
    if metadata.Some? && metadata.value.consistency.Some? {
      var name := metadata.value.consistency.value;
      ConsistencyRecognised(name);
      if ConsistencyOf(name).Some? {
        ConsistencyNames(name, ConsistencyOf(name).value);
      }
    }
  }

  /** A successful pass waits the metadata delay, else the configured delay, else not at all. */
  lemma DelayPrecedence(cs: ClusterState, m: MigrationFile, rank: int, s: Settings, o: Oracles)
    requires InstallOne(cs, m, rank, s, o).outcome.Pass?
    ensures var metadata := InternalMetadataOf(m.contents, o.decode);
      var run := Run(cs, Invocation(Substitute(m.contents, s.keyspace), ConnectionFor(m, s, o.decode).value), o.react);
      var delay :=
        if metadata.Some? && metadata.value.invocationDelay.Some? then metadata.value.invocationDelay.value
        else if s.migration.Some? && s.migration.value.invocationDelay.Some? then s.migration.value.invocationDelay.value
        else 0;
      InstallOne(cs, m, rank, s, o).cluster.clock == run.cluster.clock + (if delay > 0 then delay else 0)
  {
  }

  // ----- executeMigration -----

  /** Without a keyspace and without a version-0 file nothing is sent and the run aborts. */
  lemma MissingVersionZeroAborts(cs: ClusterState, state: InstalledMigrationState, files: seq<MigrationFile>, s: Settings, o: Oracles)
    requires state.keyspace.None?
    requires forall k :: 0 <= k < |files| ==> files[k].version != 0
    ensures ExecuteMigrationOf(cs, state, files, s, o) == InstallResult(cs, Fail(Engine(NoKeyspaceMigration(VersionZeroMissing))))
  {
  }

  /** Without a keyspace, a first version-0 file lacking `CREATE KEYSPACE` aborts the run before anything is sent. */
  lemma VersionZeroWithoutCreateKeyspaceAborts(cs: ClusterState, state: InstalledMigrationState, files: seq<MigrationFile>,
                                               s: Settings, o: Oracles, m: MigrationFile)
    requires state.keyspace.None?
    requires FirstWithVersion(files, FileVersion, 0) == Some(m) && !DetectKeyspaceCreation(m.contents)
    ensures ExecuteMigrationOf(cs, state, files, s, o) == InstallResult(cs, Fail(Engine(NoKeyspaceMigration(NoCreateKeyspace))))
  {
  }

  /** A state naming another keyspace, or another state table, aborts the run with the cluster untouched. */
  lemma NameMismatchAborts(cs: ClusterState, state: InstalledMigrationState, files: seq<MigrationFile>, s: Settings, o: Oracles)
    ensures state.keyspace.Some? && state.keyspace.value != s.keyspace ==>
      ExecuteMigrationOf(cs, state, files, s, o)
        == InstallResult(cs, Fail(Engine(IncorrectKeyspace(StateKeyspaceMismatch(state.keyspace.value)))))
    ensures state.keyspace == Some(s.keyspace) && state.stateTable.Some? && state.stateTable.value != s.stateTable ==>
      ExecuteMigrationOf(cs, state, files, s, o)
        == InstallResult(cs, Fail(Engine(IncorrectKeyspace(StateTableMismatch(state.stateTable.value)))))
  {
  }

  /**
   * With the engine's own keyspace and table already in place, hash
   * verification is skipped when configured so or when there are no rows,
   * and the run is just the install.
   */
  lemma HashesSkipped(cs: ClusterState, state: InstalledMigrationState, files: seq<MigrationFile>, s: Settings, o: Oracles)
    requires state.keyspace == Some(s.keyspace) && state.stateTable == Some(s.stateTable)
    requires IgnoresHistoricalHashes(s) || LastRow(state).None?
    ensures ExecuteMigrationOf(cs, state, files, s, o) == InstallNewMigrationsOf(cs, state, files, s, o)
  {
  }

  /** A failed hash check aborts the run before any migration is sent. */
  lemma HashMismatchAborts(cs: ClusterState, state: InstalledMigrationState, files: seq<MigrationFile>, s: Settings, o: Oracles)
    requires state.keyspace == Some(s.keyspace) && state.stateTable == Some(s.stateTable)
    requires !IgnoresHistoricalHashes(s) && VerifyHistoricalHashes(state, files).Fail?
    ensures ExecuteMigrationOf(cs, state, files, s, o)
      == InstallResult(cs, Fail(Engine(VerifyHistoricalHashes(state, files).error)))
  {
  }

  /**
   * Bootstrapping a cluster with no keyspace: when the run succeeds, the new
   * state table holds one row for each file above version 0, in file order,
   * ranked 1, 2, 3, ... Steps 3 and 4 see the stale empty state, so the
   * version-0 file is never recorded.
   */
  lemma BootstrapLedger(cs: ClusterState, files: seq<MigrationFile>, s: Settings, o: Oracles)
    requires ExecuteMigrationOf(cs, NoKeyspace(), files, s, o).outcome.Pass?
    ensures var r := ExecuteMigrationOf(cs, NoKeyspace(), files, s, o);
      && StateKey(s) in r.cluster.ledgers
      && |r.cluster.ledgers[StateKey(s)]| == |Pending(files, 0)|
      && Records(r.cluster.ledgers[StateKey(s)], Pending(files, 0), 0, 1)
  {
    var state := NoKeyspace();
    var step1 := KeyspaceStep(cs, state, files, s, o);
    var step2 := TableStep(step1.cluster, state, s);
    assert step2.cluster.ledgers[StateKey(s)] == [];
    assert MaxVersion(state) == 0 && MaxRank(state) == 0;
    InstallNewMigrationsEffect(step2.cluster, state, files, s, o);
    var after := ExecuteMigrationOf(cs, state, files, s, o).cluster.ledgers[StateKey(s)];
    assert after[0..] == after;
  }

  // ----- verifyHistoricalHashes -----

  /** A file passes the hash check when the first row of its version has its hash. */
  predicate HashMatches(rows: seq<InstalledMigrationVersion>, file: MigrationFile) {
    FirstWithVersion(rows, RowVersion, file.version).Some? && FirstWithVersion(rows, RowVersion, file.version).value.hash == file.hash
  }

  /** The checked files are those with `0 < version <= maxVersion`. */
  predicate Checked(file: MigrationFile, maxVersion: int) {
    0 < file.version <= maxVersion
  }

  /**
   * The hash check passes iff every checked file has a matching row; when it
   * fails, it reports the first checked file that does not.
   */
  lemma {:induction false} CheckHashesSound(rows: seq<InstalledMigrationVersion>, files: seq<MigrationFile>, maxVersion: int)
    ensures CheckHashes(rows, files, maxVersion) == Pass <==>
      forall k :: 0 <= k < |files| && Checked(files[k], maxVersion) ==> HashMatches(rows, files[k])
    ensures CheckHashes(rows, files, maxVersion).Fail? ==>
      exists k :: 0 <= k < |files| && Checked(files[k], maxVersion) && !HashMatches(rows, files[k])
        && CheckHashes(rows, files, maxVersion) == CheckHash(rows, files[k])
        && forall j :: 0 <= j < k && Checked(files[j], maxVersion) ==> HashMatches(rows, files[j])
  {
    if files != [] {
      CheckHashesSound(rows, files[1..], maxVersion);
      assert forall k :: 1 <= k < |files| ==> files[k] == files[1..][k - 1];
      if Checked(files[0], maxVersion) && CheckHash(rows, files[0]).Fail? {
        assert !HashMatches(rows, files[0]);
      } else if CheckHashes(rows, files, maxVersion).Fail? {
        var k :| 0 <= k < |files[1..]| && Checked(files[1..][k], maxVersion) && !HashMatches(rows, files[1..][k])
          && CheckHashes(rows, files[1..], maxVersion) == CheckHash(rows, files[1..][k])
          && forall j :: 0 <= j < k && Checked(files[1..][j], maxVersion) ==> HashMatches(rows, files[1..][j]);
        assert files[k + 1] == files[1..][k];
        forall j | 0 <= j < k + 1 && Checked(files[j], maxVersion)
          ensures HashMatches(rows, files[j])
        {
          if j > 0 {
            assert files[j] == files[1..][j - 1];
          }
        }
      }
    }
  }

  /**
   * `verifyHistoricalHashes` passes iff there are no rows, or every file with
   * `0 < version <=` the last row's version has a row of its version with an
   * equal hash.
   */
  lemma VerifyHistoricalHashesSound(state: InstalledMigrationState, files: seq<MigrationFile>)
    ensures VerifyHistoricalHashes(state, files) == Pass <==>
      LastRow(state).None? ||
      forall k :: 0 <= k < |files| && Checked(files[k], LastRow(state).value.version) ==>
        HashMatches(state.migrations.value, files[k])
  {
    if LastRow(state).Some? {
      CheckHashesSound(state.migrations.value, files, LastRow(state).value.version);
    }
  }

  // ----- detectFileMigrations -----

  predicate DistinctVersions(ds: seq<MigrationFileDescriptor>) {
    forall i, j :: 0 <= i < j < |ds| ==> ds[i].version != ds[j].version
  }

  /**
   * The duplicate scan finds nothing iff all versions differ (and none was
   * seen before); what it reports is a version that occurs twice.
   */
  lemma {:induction false} FirstDuplicateSound(ds: seq<MigrationFileDescriptor>, seen: set<int>)
    ensures FirstDuplicate(ds, seen).None? <==>
      DistinctVersions(ds) && forall k :: 0 <= k < |ds| ==> ds[k].version !in seen
    ensures FirstDuplicate(ds, seen).Some? ==>
      exists j :: 0 <= j < |ds| && ds[j].version == FirstDuplicate(ds, seen).value
        && (ds[j].version in seen || exists i :: 0 <= i < j && ds[i].version == ds[j].version)
  {
    if ds != [] {
      var v := ds[0].version;
      FirstDuplicateSound(ds[1..], seen + {v});
      assert forall k :: 1 <= k < |ds| ==> ds[k] == ds[1..][k - 1];
      if v !in seen && FirstDuplicate(ds, seen).Some? {
        var j :| 0 <= j < |ds[1..]| && ds[1..][j].version == FirstDuplicate(ds, seen).value
          && (ds[1..][j].version in seen + {v} || exists i :: 0 <= i < j && ds[1..][i].version == ds[1..][j].version);
        if ds[1..][j].version !in seen + {v} {
          var i :| 0 <= i < j && ds[1..][i].version == ds[1..][j].version;
          assert ds[i + 1].version == ds[j + 1].version;
        } else if ds[1..][j].version == v {
          assert ds[0].version == ds[j + 1].version;
        }
        assert ds[j + 1].version == FirstDuplicate(ds, seen).value;
      }
    }
  }

  predicate OccursTwice(ds: seq<MigrationFileDescriptor>, version: int) {
    exists i, j :: 0 <= i < j < |ds| && ds[i].version == version && ds[j].version == version
  }

  /** With a repeated version, the duplicate scan decides the outcome. */
  lemma DuplicateDecides(migration: MigrationConfig, listing: seq<string>, fs: FileSystem, decode: Decoder, sha256: Hasher)
    requires migration.directory.Some? && migration.fileSeparator.Some?
    requires FirstDuplicate(Descriptors(migration, listing), {}).Some?
    ensures DetectFileMigrationsOf(Some(migration), listing, fs, decode, sha256)
      == Failure(Engine(DuplicateVersions(FirstDuplicate(Descriptors(migration, listing), {}).value)))
  {
  }

  /**
   * Two migration files with one version are rejected before any file is
   * read: the outcome does not depend on the file system at all, and names
   * a version that two descriptors share.
   */
  lemma DuplicateFailsBeforeLoading(migration: MigrationConfig, listing: seq<string>, fs1: FileSystem, fs2: FileSystem,
                                    decode: Decoder, sha256: Hasher)
    requires migration.directory.Some? && migration.fileSeparator.Some?
    requires !DistinctVersions(Descriptors(migration, listing))
    ensures var r := DetectFileMigrationsOf(Some(migration), listing, fs1, decode, sha256);
      && r == DetectFileMigrationsOf(Some(migration), listing, fs2, decode, sha256)
      && r.Failure? && r.error.Engine? && r.error.error.DuplicateVersions?
      && OccursTwice(Descriptors(migration, listing), r.error.error.version)
  {
    var ds := Descriptors(migration, listing);
    FirstDuplicateSound(ds, {});
    var v := FirstDuplicate(ds, {}).value;
    DuplicateDecides(migration, listing, fs1, decode, sha256);
    DuplicateDecides(migration, listing, fs2, decode, sha256);
    var j :| 0 <= j < |ds| && ds[j].version == v
      && (ds[j].version in {} || exists i :: 0 <= i < j && ds[i].version == ds[j].version);
    var i :| 0 <= i < j && ds[i].version == ds[j].version;
    assert OccursTwice(ds, v);
  }

  /**
   * The files `detectFileMigrations` returns are in strictly increasing
   * version order, one per descriptor, each holding its file's contents and
   * their hash.
   */
  lemma DetectedFilesOrdered(migration: MigrationConfig, listing: seq<string>, fs: FileSystem, decode: Decoder, sha256: Hasher)
    requires migration.directory.Some? && migration.fileSeparator.Some?
    requires DetectFileMigrationsOf(Some(migration), listing, fs, decode, sha256).Success?
    ensures var files := DetectFileMigrationsOf(Some(migration), listing, fs, decode, sha256).value;
      var ds := Descriptors(migration, listing);
      && StrictlyIncreasing(files)
      && |files| == |ds|
      && forall k :: 0 <= k < |files| ==>
        files[k].version == ds[k].version && ds[k].path in fs
        && fs[ds[k].path] == Some(files[k].contents) && files[k].hash == sha256(files[k].contents)
  {
    var ds := Descriptors(migration, listing);
    FirstDuplicateSound(ds, {});
    var load := Loader(fs, decode, sha256);
    TraverseElementwise(ds, load);
    var files := Traverse(ds, load).value;
    forall k | 0 <= k < |files|
      ensures files[k].version == ds[k].version && ds[k].path in fs
        && fs[ds[k].path] == Some(files[k].contents) && files[k].hash == sha256(files[k].contents)
    {
      assert load(ds[k]) == Success(files[k]);
      LoadMigrationFileSound(ds[k].path, ds[k].version, ds[k].fileNameDescription, fs, decode, sha256, files[k]);
    }
    forall i, j | 0 <= i < j < |files|
      ensures files[i].version < files[j].version
    {
      assert VersionKey(ds[i]) <= VersionKey(ds[j]);
    }
  }

  // ----- init -----

  /** The configuration is accepted exactly when every required value is there and valid. */
  lemma ConfigureSucceeds(config: Config, protocolKnown: int -> bool)
    ensures Configure(config, protocolKnown).Success? <==>
      && HasHosts(config)
      && config.client.value.port.Some? && INT32_MIN <= config.client.value.port.value <= INT32_MAX
      && config.client.value.protocolVersion.Some?
      && INT32_MIN <= config.client.value.protocolVersion.value <= INT32_MAX
      && protocolKnown(config.client.value.protocolVersion.value)
      && config.client.value.keyspace.Some?
      && config.phalanxStateTable.Some?
      && (config.client.value.consistency.Some? ==> ConsistencyOf(config.client.value.consistency.value).Some?)
    ensures Configure(config, protocolKnown).Success? ==>
      var s := Configure(config, protocolKnown).value;
      var client := config.client.value;
      && s.hosts == client.hosts.value && |s.hosts| > 0
      && s.port == client.port.value && INT32_MIN <= s.port <= INT32_MAX
      && s.protocolVersion == client.protocolVersion.value && INT32_MIN <= s.protocolVersion <= INT32_MAX
      && s.keyspace == client.keyspace.value && s.stateTable == config.phalanxStateTable.value
      && (s.consistency.Some? <==> client.consistency.Some?)
      && (s.consistency.Some? ==> ConsistencyName(s.consistency.value) == client.consistency.value)
      && s.migration == config.migration
  {
    var r := Configure(config, protocolKnown);
    if r.Success? && config.client.value.consistency.Some? {
      var name := config.client.value.consistency.value;
      ConsistencyNames(name, ConsistencyOf(name).value);
    }
  }

  /**
   * Missing hosts are reported first, whatever else is wrong; then the port,
   * then the protocol version. A port or protocol version outside 32 bits is
   * reported as missing.
   */
  lemma ConfigureGuardOrder(config: Config, protocolKnown: int -> bool)
    ensures !HasHosts(config) ==> Configure(config, protocolKnown) == Failure(InvalidConfig(HostsMissing))
    ensures HasHosts(config) && Int32Exactly(config.client.value.port).None? ==>
      Configure(config, protocolKnown) == Failure(InvalidConfig(PortMissing))
    ensures (HasHosts(config) && Int32Exactly(config.client.value.port).Some? &&
             Int32Exactly(config.client.value.protocolVersion).None?) ==>
      Configure(config, protocolKnown) == Failure(InvalidConfig(ProtocolVersionMissing))
    ensures Configure(config, protocolKnown) == Failure(InvalidConfig(StateTableMissing)) ==>
      config.client.value.keyspace.Some? && config.phalanxStateTable.None?
    ensures Configure(config, protocolKnown).Failure? ==>
      Configure(config, protocolKnown).error.InvalidConfig?
      && !Configure(config, protocolKnown).error.problem.MigrationConsistencyInvalid?
  {
  }

  // ----- detectMigrationState and ranks -----

  /** Rank order agrees with version order. */
  predicate RanksFollowVersions(rows: seq<InstalledMigrationVersion>) {
    forall i, j :: 0 <= i < |rows| && 0 <= j < |rows| && rows[i].version <= rows[j].version ==> rows[i].rank <= rows[j].rank
  }

  /**
   * When rank order agrees with version order, the state read from the
   * cluster has the largest version and the largest rank in its last row.
   */
  lemma DetectedStateBounds(cs: ClusterState, keyspace: string, table: string)
    requires keyspace in cs.keyspaces && (keyspace, table) in cs.ledgers
    requires RanksFollowVersions(cs.ledgers[(keyspace, table)])
    ensures var state := DetectMigrationState(cs, keyspace, table);
      var rows := cs.ledgers[(keyspace, table)];
      forall k :: 0 <= k < |rows| ==> rows[k].version <= MaxVersion(state) && rows[k].rank <= MaxRank(state)
  {
    var state := DetectMigrationState(cs, keyspace, table);
    var rows := cs.ledgers[(keyspace, table)];
    var sorted := state.migrations.value;
    forall k | 0 <= k < |rows|
      ensures rows[k].version <= MaxVersion(state) && rows[k].rank <= MaxRank(state)
    {
      assert rows[k] in multiset(rows);
      assert rows[k] in sorted;
      var last := sorted[|sorted| - 1];
      LastIsLargest(sorted, RowVersion, rows[k]);
      assert last in multiset(sorted);
      var l :| 0 <= l < |rows| && rows[l] == last;
    }
  }

  /**
   * Rows appended after every existing version and rank, for files in
   * increasing version order and ranked consecutively, keep rank order in
   * step with version order.
   */
  lemma AppendKeepsRanksFollowingVersions(before: seq<InstalledMigrationVersion>, after: seq<InstalledMigrationVersion>,
                                          sel: seq<MigrationFile>, maxVersion: int, rank: int)
    requires |before| <= |after| && after[..|before|] == before
    requires Records(after[|before|..], sel, 0, rank) && StrictlyIncreasing(sel)
    requires RanksFollowVersions(before)
    requires forall k :: 0 <= k < |before| ==> before[k].version <= maxVersion && before[k].rank < rank
    requires forall k :: 0 <= k < |sel| ==> sel[k].version > maxVersion
    ensures RanksFollowVersions(after)
  {
    var added := after[|before|..];
    assert forall k :: 0 <= k < |before| ==> after[k] == before[k];
    assert forall k :: |before| <= k < |after| ==> after[k] == added[k - |before|];
    forall i, j | 0 <= i < |after| && 0 <= j < |after| && after[i].version <= after[j].version
      ensures after[i].rank <= after[j].rank
    {
    }
  }

  /** A suffix of files in increasing version order is in increasing version order. */
  lemma SuffixIncreasing(files: seq<MigrationFile>, n: nat)
    requires StrictlyIncreasing(files) && n <= |files|
    ensures StrictlyIncreasing(files[n..])
  {
    forall i, j | 0 <= i < j < |files[n..]|
      ensures files[n..][i].version < files[n..][j].version
    {
      assert files[n..][i] == files[n + i] && files[n..][j] == files[n + j];
    }
  }

  /** The selection out of files in increasing version order is in increasing version order. */
  lemma PendingIncreasing(files: seq<MigrationFile>, maxVersion: int)
    requires StrictlyIncreasing(files)
    ensures StrictlyIncreasing(Pending(files, maxVersion))
  {
    PendingIsSuffix(files, maxVersion);
    SuffixIncreasing(files, |files| - |Pending(files, maxVersion)|);
  }

  /**
   * Installing on the state read from a cluster whose ranks follow its
   * versions: the new rows are ranked consecutively after every existing
   * rank, and the ranks still follow the versions when the files come in
   * increasing version order.
   */
  lemma InstallOnDetectedState(cs: ClusterState, files: seq<MigrationFile>, s: Settings, o: Oracles)
    requires s.keyspace in cs.keyspaces && StateKey(s) in cs.ledgers
    requires RanksFollowVersions(cs.ledgers[StateKey(s)])
    requires StrictlyIncreasing(files)
    ensures var state := DetectMigrationState(cs, s.keyspace, s.stateTable);
      var r := InstallNewMigrationsOf(cs, state, files, s, o);
      && FromEffect(cs, r, Pending(files, MaxVersion(state)), 0, MaxRank(state) + 1, s, StatementIn(s.keyspace))
      && RanksFollowVersions(r.cluster.ledgers[StateKey(s)])
  {
    var state := DetectMigrationState(cs, s.keyspace, s.stateTable);
    assert forall k :: 0 <= k < |cs.ledgers[StateKey(s)]| ==> cs.ledgers[StateKey(s)][k].rank <= MaxRank(state) by {
      DetectedStateBounds(cs, s.keyspace, s.stateTable);
    }
    InstallNewMigrationsEffect(cs, state, files, s, o);
    DetectedEffectKeepsRanks(cs, InstallNewMigrationsOf(cs, state, files, s, o), files, s, StatementIn(s.keyspace));
  }

  /** Any outcome of the install loop on the detected state keeps ranks following versions. */
  lemma DetectedEffectKeepsRanks(cs: ClusterState, r: InstallResult, files: seq<MigrationFile>, s: Settings,
                                 stmt: MigrationFile -> string)
    requires s.keyspace in cs.keyspaces && StateKey(s) in cs.ledgers
    requires RanksFollowVersions(cs.ledgers[StateKey(s)])
    requires StrictlyIncreasing(files)
    requires var state := DetectMigrationState(cs, s.keyspace, s.stateTable);
      FromEffect(cs, r, Pending(files, MaxVersion(state)), 0, MaxRank(state) + 1, s, stmt)
    ensures RanksFollowVersions(r.cluster.ledgers[StateKey(s)])
  {
    var state := DetectMigrationState(cs, s.keyspace, s.stateTable);
    DetectedStateBounds(cs, s.keyspace, s.stateTable);
    RecordedKeepsRanksFollowingVersions(cs, r, files, MaxVersion(state), MaxRank(state), s, stmt);
  }

  /** The rows an install records above every existing version and rank keep ranks following versions. */
  lemma RecordedKeepsRanksFollowingVersions(cs: ClusterState, r: InstallResult, files: seq<MigrationFile>,
                                            maxVersion: int, maxRank: int, s: Settings, stmt: MigrationFile -> string)
    requires StateKey(s) in cs.ledgers && RanksFollowVersions(cs.ledgers[StateKey(s)])
    requires forall k :: 0 <= k < |cs.ledgers[StateKey(s)]| ==>
      cs.ledgers[StateKey(s)][k].version <= maxVersion && cs.ledgers[StateKey(s)][k].rank <= maxRank
    requires StrictlyIncreasing(files)
    requires FromEffect(cs, r, Pending(files, maxVersion), 0, maxRank + 1, s, stmt)
    ensures RanksFollowVersions(r.cluster.ledgers[StateKey(s)])
  {
    var sel := Pending(files, maxVersion);
    PendingIncreasing(files, maxVersion);
    AppendKeepsRanksFollowingVersions(cs.ledgers[StateKey(s)], r.cluster.ledgers[StateKey(s)], sel,
      maxVersion, maxRank + 1);
  }

  // ----- Running again -----

  /** No two ledger rows record the same version. */
  predicate DistinctRowVersions(rows: seq<InstalledMigrationVersion>) {
    forall i, j :: 0 <= i < j < |rows| ==> rows[i].version != rows[j].version
  }

  /**
   * The version read from a state table is 0 when the table is empty and
   * otherwise that of one of its rows; no row has a larger one.
   */
  lemma DetectedMaxVersion(cs: ClusterState, keyspace: string, table: string)
    requires keyspace in cs.keyspaces && (keyspace, table) in cs.ledgers
    ensures var state := DetectMigrationState(cs, keyspace, table);
      var rows := cs.ledgers[(keyspace, table)];
      && (forall k :: 0 <= k < |rows| ==> rows[k].version <= MaxVersion(state))
      && (rows == [] ==> MaxVersion(state) == 0)
      && (rows != [] ==> exists k :: 0 <= k < |rows| && rows[k].version == MaxVersion(state))
  {
    var state := DetectMigrationState(cs, keyspace, table);
    var rows := cs.ledgers[(keyspace, table)];
    var sorted := state.migrations.value;
    forall k | 0 <= k < |rows|
      ensures rows[k].version <= MaxVersion(state)
    {
      assert rows[k] in multiset(rows);
      LastIsLargest(sorted, RowVersion, rows[k]);
    }
    if rows != [] {
      assert sorted[|sorted| - 1] in multiset(sorted);
    }
  }

  /** One pass of the install loop never removes a keyspace. */
  lemma InstallOneKeepsKeyspaces(cs: ClusterState, m: MigrationFile, rank: int, s: Settings, o: Oracles)
    ensures cs.keyspaces <= InstallOne(cs, m, rank, s, o).cluster.keyspaces
  {
  }

  /** The install loop never removes a keyspace. */
  lemma {:induction false} InstallFromKeepsKeyspaces(cs: ClusterState, sel: seq<MigrationFile>, i: nat, rank: int,
                                                     s: Settings, o: Oracles)
    requires i <= |sel|
    ensures cs.keyspaces <= InstallFrom(cs, sel, i, rank, s, o).cluster.keyspaces
    decreases |sel| - i
  {
    if i < |sel| {
      InstallOneKeepsKeyspaces(cs, sel[i], rank, s, o);
      var step := InstallOne(cs, sel[i], rank, s, o);
      if step.outcome.Pass? {
        InstallFromKeepsKeyspaces(step.cluster, sel, i + 1, rank + 1, s, o);
      }
    }
  }

  /** `installNewMigrations` never removes a keyspace. */
  lemma InstallNewMigrationsKeepsKeyspaces(cs: ClusterState, state: InstalledMigrationState, files: seq<MigrationFile>,
                                           s: Settings, o: Oracles)
    ensures cs.keyspaces <= InstallNewMigrationsOf(cs, state, files, s, o).cluster.keyspaces
  {
    var sel := Pending(files, MaxVersion(state));
    if sel != [] {
      InstallFromKeepsKeyspaces(cs, sel, 0, MaxRank(state) + 1, s, o);
    }
  }

  /** Over files in increasing version order, the files above the version of `files[m]` are those after it. */
  lemma {:induction false} PendingAfter(files: seq<MigrationFile>, m: nat)
    requires StrictlyIncreasing(files) && m < |files|
    ensures Pending(files, files[m].version) == files[m + 1..]
  {
    SuffixIncreasing(files, 1);
    if m == 0 {
      forall k | 0 <= k < |files[1..]|
        ensures files[1..][k].version > files[0].version
      {
        assert files[1..][k] == files[k + 1];
      }
      SelectAll(files[1..], files[0].version);
    } else {
      assert files[1..][m - 1] == files[m];
      PendingAfter(files[1..], m - 1);
      assert files[1..][m..] == files[m + 1..];
    }
  }

  /**
   * Rows recorded, in increasing version order, for the first files of a
   * selection that lies above every existing version: the last one recorded
   * holds the largest version.
   */
  lemma RecordedMaxVersion(before: seq<InstalledMigrationVersion>, after: seq<InstalledMigrationVersion>,
                           sel: seq<MigrationFile>, maxVersion: int, rank: int)
    requires |before| < |after| && after[..|before|] == before
    requires Records(after[|before|..], sel, 0, rank) && StrictlyIncreasing(sel)
    requires forall k :: 0 <= k < |before| ==> before[k].version <= maxVersion
    requires forall k :: 0 <= k < |sel| ==> sel[k].version > maxVersion
    ensures after[|after| - 1].version == sel[|after| - |before| - 1].version
    ensures forall k :: 0 <= k < |after| ==> after[k].version <= sel[|after| - |before| - 1].version
  {
    var added := after[|before|..];
    var last := |added| - 1;
    assert after[|after| - 1] == added[last];
    forall k | 0 <= k < |after|
      ensures after[k].version <= sel[last].version
    {
      if k < |before| {
        assert after[k] == before[k];
      } else {
        assert after[k] == added[k - |before|];
      }
    }
  }

  /**
   * Rows recorded for the first files of the selection above `maxVersion`:
   * the files above the largest version in the ledger are the rest of the
   * selection.
   */
  lemma ResumeAfterRecorded(files: seq<MigrationFile>, maxVersion: int, before: seq<InstalledMigrationVersion>,
                            after: seq<InstalledMigrationVersion>, rank: int, newMax: int)
    requires StrictlyIncreasing(files)
    requires |before| < |after| && after[..|before|] == before
    requires Records(after[|before|..], Pending(files, maxVersion), 0, rank)
    requires forall k :: 0 <= k < |before| ==> before[k].version <= maxVersion
    requires forall k :: 0 <= k < |after| ==> after[k].version <= newMax
    requires exists k :: 0 <= k < |after| && after[k].version == newMax
    ensures |after| - |before| <= |Pending(files, maxVersion)|
    ensures Pending(files, newMax) == Pending(files, maxVersion)[|after| - |before|..]
  {
    assert |after| - |before| - 1 < |Pending(files, maxVersion)| by {
      assert after[|before|..][|after| - |before| - 1] == after[|after| - 1];
    }
    var sel := Pending(files, maxVersion);
    var recorded := |after| - |before|;
    PendingIsSuffix(files, maxVersion);
    PendingIncreasing(files, maxVersion);
    RecordedMaxVersion(before, after, sel, maxVersion, rank);
    assert newMax == sel[recorded - 1].version;
    var n := |files| - |sel|;
    assert sel[recorded - 1] == files[n + recorded - 1];
    PendingAfter(files, n + recorded - 1);
    assert files[n + recorded..] == sel[recorded..];
  }

  /** The ledger an install leaves behind, read again: what is pending is the selection after the files recorded. */
  lemma RedetectedAfterEffect(cs: ClusterState, r: InstallResult, files: seq<MigrationFile>, s: Settings,
                              stmt: MigrationFile -> string)
    requires s.keyspace in cs.keyspaces && StateKey(s) in cs.ledgers && StrictlyIncreasing(files)
    requires s.keyspace in r.cluster.keyspaces
    requires var state := DetectMigrationState(cs, s.keyspace, s.stateTable);
      FromEffect(cs, r, Pending(files, MaxVersion(state)), 0, MaxRank(state) + 1, s, stmt)
    ensures var state := DetectMigrationState(cs, s.keyspace, s.stateTable);
      var sel := Pending(files, MaxVersion(state));
      var recorded := |r.cluster.ledgers[StateKey(s)]| - |cs.ledgers[StateKey(s)]|;
      && 0 <= recorded <= |sel|
      && Records(r.cluster.ledgers[StateKey(s)][|cs.ledgers[StateKey(s)]|..], sel, 0, MaxRank(state) + 1)
      && (r.outcome.Pass? <==> recorded == |sel|)
      && Pending(files, MaxVersion(DetectMigrationState(r.cluster, s.keyspace, s.stateTable))) == sel[recorded..]
  {
    var state := DetectMigrationState(cs, s.keyspace, s.stateTable);
    var sel := Pending(files, MaxVersion(state));
    var before := cs.ledgers[StateKey(s)];
    var after := r.cluster.ledgers[StateKey(s)];
    var again := DetectMigrationState(r.cluster, s.keyspace, s.stateTable);
    if |after| == |before| {
      assert again == state by {
        assert after == before;
      }
      assert sel[0..] == sel;
    } else {
      var v, w := MaxVersion(state), MaxVersion(again);
      assert forall k :: 0 <= k < |before| ==> before[k].version <= v by {
        DetectedMaxVersion(cs, s.keyspace, s.stateTable);
      }
      assert (forall k :: 0 <= k < |after| ==> after[k].version <= w)
          && (exists k :: 0 <= k < |after| && after[k].version == w) by {
        DetectedMaxVersion(r.cluster, s.keyspace, s.stateTable);
      }
      ResumeAfterRecorded(files, v, before, after, MaxRank(state) + 1, w);
    }
  }

  /**
   * An install on the detected state, followed by reading the state again:
   * the files recorded are the first of the selection, all of them when the
   * install passed, and what is still pending is the rest of the selection.
   * A run that fails part-way therefore resumes, the next time, at the first
   * file it did not record.
   */
  lemma RerunResumes(cs: ClusterState, files: seq<MigrationFile>, s: Settings, o: Oracles)
    requires s.keyspace in cs.keyspaces && StateKey(s) in cs.ledgers
    requires RanksFollowVersions(cs.ledgers[StateKey(s)])
    requires StrictlyIncreasing(files)
    ensures var state := DetectMigrationState(cs, s.keyspace, s.stateTable);
      var sel := Pending(files, MaxVersion(state));
      var r := InstallNewMigrationsOf(cs, state, files, s, o);
      && StateKey(s) in r.cluster.ledgers
      && var recorded := |r.cluster.ledgers[StateKey(s)]| - |cs.ledgers[StateKey(s)]|;
      && 0 <= recorded <= |sel|
      && Records(r.cluster.ledgers[StateKey(s)][|cs.ledgers[StateKey(s)]|..], sel, 0, MaxRank(state) + 1)
      && (r.outcome.Pass? <==> recorded == |sel|)
      && Pending(files, MaxVersion(DetectMigrationState(r.cluster, s.keyspace, s.stateTable))) == sel[recorded..]
  {
    var state := DetectMigrationState(cs, s.keyspace, s.stateTable);
    var r := InstallNewMigrationsOf(cs, state, files, s, o);
    InstallOnDetectedState(cs, files, s, o);
    InstallNewMigrationsKeepsKeyspaces(cs, state, files, s, o);
    RedetectedAfterEffect(cs, r, files, s, StatementIn(s.keyspace));
  }

  /**
   * `installNewMigrations` is idempotent: after a successful install on the
   * detected state, reading the state again leaves nothing pending, and a
   * second install changes nothing.
   */
  lemma RerunInstallsNothing(cs: ClusterState, files: seq<MigrationFile>, s: Settings, o: Oracles)
    requires s.keyspace in cs.keyspaces && StateKey(s) in cs.ledgers
    requires RanksFollowVersions(cs.ledgers[StateKey(s)])
    requires StrictlyIncreasing(files)
    requires InstallNewMigrationsOf(cs, DetectMigrationState(cs, s.keyspace, s.stateTable), files, s, o).outcome.Pass?
    ensures var next := InstallNewMigrationsOf(cs, DetectMigrationState(cs, s.keyspace, s.stateTable), files, s, o).cluster;
      var again := DetectMigrationState(next, s.keyspace, s.stateTable);
      && Pending(files, MaxVersion(again)) == []
      && InstallNewMigrationsOf(next, again, files, s, o) == InstallResult(next, Pass)
  {
    RerunResumes(cs, files, s, o);
  }

  /** With distinct versions, the first row of a row's version, in any reordering of the rows, is that row. */
  lemma FirstWithVersionOfDistinct(rows: seq<InstalledMigrationVersion>, reordered: seq<InstalledMigrationVersion>,
                                   row: InstalledMigrationVersion)
    requires DistinctRowVersions(rows) && multiset(reordered) == multiset(rows) && row in rows
    ensures FirstWithVersion(reordered, RowVersion, row.version) == Some(row)
  {
    assert row in multiset(reordered);
    var w :| 0 <= w < |reordered| && reordered[w] == row;
    var found := FirstWithVersion(reordered, RowVersion, row.version);
    assert found.Some? by {
      assert RowVersion(reordered[w]) == row.version;
    }
    assert found.value in multiset(rows);
    var i :| 0 <= i < |rows| && rows[i] == row;
    var j :| 0 <= j < |rows| && rows[j] == found.value;
    if i < j {
      assert rows[i].version != rows[j].version;
    } else if j < i {
      assert rows[j].version != rows[i].version;
    }
  }

  /**
   * Rows appended above every existing version, for files in increasing
   * version order, keep one row per version.
   */
  lemma AppendKeepsDistinctVersions(before: seq<InstalledMigrationVersion>, after: seq<InstalledMigrationVersion>,
                                    sel: seq<MigrationFile>, maxVersion: int, rank: int)
    requires |before| <= |after| && after[..|before|] == before
    requires Records(after[|before|..], sel, 0, rank) && StrictlyIncreasing(sel)
    requires DistinctRowVersions(before)
    requires forall k :: 0 <= k < |before| ==> before[k].version <= maxVersion
    requires forall k :: 0 <= k < |sel| ==> sel[k].version > maxVersion
    ensures DistinctRowVersions(after)
  {
    var added := after[|before|..];
    assert forall k :: 0 <= k < |before| ==> after[k] == before[k];
    assert forall k :: |before| <= k < |after| ==> after[k] == added[k - |before|];
  }

  /**
   * After every file above `maxVersion` is recorded on top of rows that
   * matched the hashes of the files up to `maxVersion`, every file above
   * version 0 has a row of its version with its hash, in any ordering of the
   * rows.
   */
  lemma RecordedHashesMatch(files: seq<MigrationFile>, maxVersion: int, before: seq<InstalledMigrationVersion>,
                            after: seq<InstalledMigrationVersion>, rank: int,
                            sortedBefore: seq<InstalledMigrationVersion>, sortedAfter: seq<InstalledMigrationVersion>)
    requires |before| <= |after| && after[..|before|] == before
    requires |after| - |before| == |Pending(files, maxVersion)|
    requires Records(after[|before|..], Pending(files, maxVersion), 0, rank)
    requires DistinctRowVersions(after)
    requires multiset(sortedBefore) == multiset(before) && multiset(sortedAfter) == multiset(after)
    requires forall k :: 0 <= k < |files| && Checked(files[k], maxVersion) ==> HashMatches(sortedBefore, files[k])
    ensures forall k :: 0 <= k < |files| && 0 < files[k].version ==> HashMatches(sortedAfter, files[k])
  {
    var sel := Pending(files, maxVersion);
    PendingMembers(files, maxVersion);
    forall k | 0 <= k < |files| && 0 < files[k].version
      ensures HashMatches(sortedAfter, files[k])
    {
      var f := files[k];
      if f.version <= maxVersion {
        assert Checked(f, maxVersion);
        var row := FirstWithVersion(sortedBefore, RowVersion, f.version).value;
        assert row in multiset(before);
        var i :| 0 <= i < |before| && before[i] == row;
        assert after[i] == row;
        FirstWithVersionOfDistinct(after, sortedAfter, row);
      } else {
        assert f in sel;
        var j :| 0 <= j < |sel| && sel[j] == f;
        var row := after[|before| + j];
        assert row == after[|before|..][j];
        FirstWithVersionOfDistinct(after, sortedAfter, row);
      }
    }
  }

  /**
   * A successful install on the detected state keeps the keyspace and the
   * table, extends the ledger by one row per selected file, and keeps one
   * row per version with ranks following versions.
   */
  lemma SuccessfulInstallExtendsLedger(cs: ClusterState, files: seq<MigrationFile>, s: Settings, o: Oracles)
    requires s.keyspace in cs.keyspaces && StateKey(s) in cs.ledgers
    requires RanksFollowVersions(cs.ledgers[StateKey(s)]) && DistinctRowVersions(cs.ledgers[StateKey(s)])
    requires StrictlyIncreasing(files)
    requires InstallNewMigrationsOf(cs, DetectMigrationState(cs, s.keyspace, s.stateTable), files, s, o).outcome.Pass?
    ensures var state := DetectMigrationState(cs, s.keyspace, s.stateTable);
      var next := InstallNewMigrationsOf(cs, state, files, s, o).cluster;
      var sel := Pending(files, MaxVersion(state));
      var before := cs.ledgers[StateKey(s)];
      && s.keyspace in next.keyspaces && StateKey(s) in next.ledgers
      && var after := next.ledgers[StateKey(s)];
      && |before| <= |after| && after[..|before|] == before
      && |after| - |before| == |sel|
      && Records(after[|before|..], sel, 0, MaxRank(state) + 1)
      && RanksFollowVersions(after) && DistinctRowVersions(after)
  {
    var state := DetectMigrationState(cs, s.keyspace, s.stateTable);
    var r := InstallNewMigrationsOf(cs, state, files, s, o);
    var sel := Pending(files, MaxVersion(state));
    RerunResumes(cs, files, s, o);
    InstallOnDetectedState(cs, files, s, o);
    InstallNewMigrationsKeepsKeyspaces(cs, state, files, s, o);
    var before := cs.ledgers[StateKey(s)];
    var after := r.cluster.ledgers[StateKey(s)];
    DetectedMaxVersion(cs, s.keyspace, s.stateTable);
    PendingIncreasing(files, MaxVersion(state));
    AppendKeepsDistinctVersions(before, after, sel, MaxVersion(state), MaxRank(state) + 1);
  }

  /**
   * `executeMigration` is idempotent. On a cluster that has the engine's
   * keyspace and state table, whose ledger has one row per version and ranks
   * following versions, a successful run leaves a ledger with the same two
   * properties, and running again with the same files passes, hash check
   * included, and changes nothing.
   */
  lemma RerunExecutesNothing(cs: ClusterState, files: seq<MigrationFile>, s: Settings, o: Oracles)
    requires s.keyspace in cs.keyspaces && StateKey(s) in cs.ledgers
    requires RanksFollowVersions(cs.ledgers[StateKey(s)]) && DistinctRowVersions(cs.ledgers[StateKey(s)])
    requires StrictlyIncreasing(files)
    requires ExecuteMigrationOf(cs, DetectMigrationState(cs, s.keyspace, s.stateTable), files, s, o).outcome.Pass?
    ensures var next := ExecuteMigrationOf(cs, DetectMigrationState(cs, s.keyspace, s.stateTable), files, s, o).cluster;
      && s.keyspace in next.keyspaces && StateKey(s) in next.ledgers
      && RanksFollowVersions(next.ledgers[StateKey(s)]) && DistinctRowVersions(next.ledgers[StateKey(s)])
      && ExecuteMigrationOf(next, DetectMigrationState(next, s.keyspace, s.stateTable), files, s, o)
         == InstallResult(next, Pass)
  {
    var state := DetectMigrationState(cs, s.keyspace, s.stateTable);
    var r := InstallNewMigrationsOf(cs, state, files, s, o);
    var checked := !IgnoresHistoricalHashes(s);
    assert ExecuteMigrationOf(cs, state, files, s, o) == r;
    assert checked ==> VerifyHistoricalHashes(state, files) == Pass;
    SuccessfulInstallExtendsLedger(cs, files, s, o);
    RerunInstallsNothing(cs, files, s, o);
    var next := r.cluster;
    var again := DetectMigrationState(next, s.keyspace, s.stateTable);
    if checked {
      var before := cs.ledgers[StateKey(s)];
      var after := next.ledgers[StateKey(s)];
      VerifyHistoricalHashesSound(state, files);
      RecordedHashesMatch(files, MaxVersion(state), before, after, MaxRank(state) + 1,
        state.migrations.value, again.migrations.value);
      VerifyHistoricalHashesSound(again, files);
    }
  }

  /** A bootstrap that passed leaves the keyspace it created in place. */
  lemma BootstrapKeepsKeyspace(cs: ClusterState, files: seq<MigrationFile>, s: Settings, o: Oracles)
    requires ExecuteMigrationOf(cs, NoKeyspace(), files, s, o).outcome.Pass?
    ensures s.keyspace in ExecuteMigrationOf(cs, NoKeyspace(), files, s, o).cluster.keyspaces
  {
    var state := NoKeyspace();
    var step1 := KeyspaceStep(cs, state, files, s, o);
    var step2 := TableStep(step1.cluster, state, s);
    assert s.keyspace in step2.cluster.keyspaces;
    InstallNewMigrationsKeepsKeyspaces(step2.cluster, state, files, s, o);
  }

  /**
   * A bootstrap that passed leaves the keyspace and the state table in place,
   * with one row per file above version 0, ranked from 1 and one per version.
   */
  lemma BootstrapLeavesLedger(cs: ClusterState, files: seq<MigrationFile>, s: Settings, o: Oracles)
    requires StrictlyIncreasing(files)
    requires ExecuteMigrationOf(cs, NoKeyspace(), files, s, o).outcome.Pass?
    ensures var next := ExecuteMigrationOf(cs, NoKeyspace(), files, s, o).cluster;
      && s.keyspace in next.keyspaces && StateKey(s) in next.ledgers
      && |next.ledgers[StateKey(s)]| == |Pending(files, 0)|
      && Records(next.ledgers[StateKey(s)], Pending(files, 0), 0, 1)
      && DistinctRowVersions(next.ledgers[StateKey(s)])
  {
    BootstrapKeepsKeyspace(cs, files, s, o);
    BootstrapLedger(cs, files, s, o);
    var rows := ExecuteMigrationOf(cs, NoKeyspace(), files, s, o).cluster.ledgers[StateKey(s)];
    assert rows[..0] == [] && rows[0..] == rows;
    PendingIncreasing(files, 0);
    PendingMembers(files, 0);
    AppendKeepsDistinctVersions([], rows, Pending(files, 0), 0, 1);
  }

  /**
   * A cluster whose ledger records every file above version 0, one row per
   * version, runs nothing more: a run on the state read back passes, hash
   * check included, and changes nothing.
   */
  lemma FullLedgerRunsNothing(next: ClusterState, files: seq<MigrationFile>, s: Settings, o: Oracles)
    requires StrictlyIncreasing(files)
    requires s.keyspace in next.keyspaces && StateKey(s) in next.ledgers
    requires |next.ledgers[StateKey(s)]| == |Pending(files, 0)|
    requires Records(next.ledgers[StateKey(s)], Pending(files, 0), 0, 1)
    requires DistinctRowVersions(next.ledgers[StateKey(s)])
    ensures ExecuteMigrationOf(next, DetectMigrationState(next, s.keyspace, s.stateTable), files, s, o)
      == InstallResult(next, Pass)
  {
    var rows := next.ledgers[StateKey(s)];
    assert rows[..0] == [] && rows[0..] == rows;
    var again := DetectMigrationState(next, s.keyspace, s.stateTable);
    DetectedMaxVersion(next, s.keyspace, s.stateTable);
    if rows != [] {
      ResumeAfterRecorded(files, 0, [], rows, 1, MaxVersion(again));
    }
    assert Pending(files, MaxVersion(again)) == [];
    if !IgnoresHistoricalHashes(s) {
      RecordedHashesMatch(files, 0, [], rows, 1, [], again.migrations.value);
      VerifyHistoricalHashesSound(again, files);
    }
  }

  /**
   * `executeMigration` is idempotent after a bootstrap as well: once a run on
   * a cluster without the keyspace has passed, for files in increasing
   * version order, running again with the same files on the state read back
   * passes, hash check included, and changes nothing.
   */
  lemma RerunAfterBootstrap(cs: ClusterState, files: seq<MigrationFile>, s: Settings, o: Oracles)
    requires StrictlyIncreasing(files)
    requires ExecuteMigrationOf(cs, NoKeyspace(), files, s, o).outcome.Pass?
    ensures var next := ExecuteMigrationOf(cs, NoKeyspace(), files, s, o).cluster;
      && s.keyspace in next.keyspaces && StateKey(s) in next.ledgers
      && DistinctRowVersions(next.ledgers[StateKey(s)])
      && ExecuteMigrationOf(next, DetectMigrationState(next, s.keyspace, s.stateTable), files, s, o)
         == InstallResult(next, Pass)
  {
    BootstrapLeavesLedger(cs, files, s, o);
    FullLedgerRunsNothing(ExecuteMigrationOf(cs, NoKeyspace(), files, s, o).cluster, files, s, o);
  }
}
