/**
 * `InstalledMigrationVersion` (one row of the state table) and
 * `InstalledMigrationState` (what the engine finds on the cluster).
 */
module MigrationState {
  import opened Wrappers

  /** One ledger row; `installed` is the cluster clock, in seconds, when the row was written. */
  datatype InstalledMigrationVersion = InstalledMigrationVersion(
    rank: int,
    version: int,
    description: string,
    file: string,
    hash: string,
    installed: int,
    duration: int)

  datatype InstalledMigrationState = InstalledMigrationState(
    keyspace: Option<string>,
    stateTable: Option<string>,
    migrations: Option<seq<InstalledMigrationVersion>>)

  /** The keyspace is absent, so nothing else is known. */
  function NoKeyspace(): (r: InstalledMigrationState)
    ensures r.keyspace.None? && r.stateTable.None? && r.migrations.None?
  {
    InstalledMigrationState(None, None, None)
  }

  /** The keyspace exists but the state table does not. */
  function NoTable(keyspace: string): (r: InstalledMigrationState)
    ensures r.keyspace == Some(keyspace)
    ensures r.stateTable.None? && r.migrations.None?
  {
    InstalledMigrationState(Some(keyspace), None, None)
  }

  function RowVersion(row: InstalledMigrationVersion): int {
    row.version
  }

  /** `migrations?.last`: the last row, absent when there are no rows. */
  function LastRow(state: InstalledMigrationState): (r: Option<InstalledMigrationVersion>)
    ensures r.Some? <==> state.migrations.Some? && |state.migrations.value| > 0
    ensures r.Some? ==> r.value == state.migrations.value[|state.migrations.value| - 1]
  {
    match state.migrations
    case None => None
    case Some(rows) => if rows == [] then None else Some(rows[|rows| - 1])
  }

  /** `migrations?.last?.version ?? 0` */
  function MaxVersion(state: InstalledMigrationState): int {
    match LastRow(state)
    case None => 0
    case Some(row) => row.version
  }

  /** `migrations?.last?.rank ?? 0`: the rank of the LAST row, not the largest rank. */
  function MaxRank(state: InstalledMigrationState): int {
    match LastRow(state)
    case None => 0
    case Some(row) => row.rank
  }
}
