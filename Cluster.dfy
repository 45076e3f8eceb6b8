/**
 * The remote cluster, as a value: the keyspaces that exist, the state
 * tables with their rows, every migration statement sent to it, and its
 * clock. The statements the engine issues itself (listing keyspaces,
 * describing and creating the state table, selecting and inserting rows)
 * have fixed meanings here; a migration's own statement is judged by an
 * executor passed in, which may reject it or report the keyspaces it
 * created and how long it took.
 */
module RemoteCluster {
  import opened Wrappers
  import opened StringExtensions
  import opened MigrationState

  /** The client a statement is sent through. */
  datatype Connection =
    | Neutral                       // no keyspace bound: keyspace creation
    | Configured                    // the engine's configured client
    | Transient(level: Consistency) // a one-off client for a consistency override

  datatype Invocation = Invocation(statement: string, via: Connection)

  datatype Reaction = Rejected(message: string) | Applied(createdKeyspaces: set<string>, seconds: nat)

  datatype ClusterState = ClusterState(
    keyspaces: set<string>,
    ledgers: map<(string, string), seq<InstalledMigrationVersion>>,
    log: seq<Invocation>,
    clock: int)

  /** How the cluster answers a migration statement, given its state. */
  type Executor = (ClusterState, Invocation) -> Reaction

  datatype Execution = Execution(reaction: Reaction, cluster: ClusterState)

  /**
   * Send a migration statement. It is recorded whatever the answer; when
   * applied, its keyspaces exist afterwards and the clock has moved on by
   * the time it took.
   */
  function Run(cs: ClusterState, inv: Invocation, react: Executor): (r: Execution)
    ensures r.reaction == react(cs, inv)
    ensures r.cluster.log == cs.log + [inv] && r.cluster.ledgers == cs.ledgers
    ensures cs.keyspaces <= r.cluster.keyspaces && cs.clock <= r.cluster.clock
    ensures r.reaction.Rejected? ==> r.cluster.keyspaces == cs.keyspaces && r.cluster.clock == cs.clock
  {
    match react(cs, inv)
    case Rejected(message) => Execution(Rejected(message), cs.(log := cs.log + [inv]))
    case Applied(created, seconds) =>
      Execution(Applied(created, seconds),
        cs.(keyspaces := cs.keyspaces + created, log := cs.log + [inv], clock := cs.clock + seconds))
  }

  /** `CREATE TABLE keyspace.table (...)`: fails when the keyspace is missing or the table exists. */
  function CreateTable(cs: ClusterState, keyspace: string, table: string): (r: Result<ClusterState, string>)
    ensures r.Success? <==> keyspace in cs.keyspaces && (keyspace, table) !in cs.ledgers
    ensures r.Success? ==> r.value == cs.(ledgers := cs.ledgers[(keyspace, table) := []])
  {
    if keyspace !in cs.keyspaces then Failure("keyspace " + keyspace + " does not exist")
    else if (keyspace, table) in cs.ledgers then Failure("table " + table + " already exists")
    else Success(cs.(ledgers := cs.ledgers[(keyspace, table) := []]))
  }

  predicate HasRank(rows: seq<InstalledMigrationVersion>, rank: int) {
    exists k :: 0 <= k < |rows| && rows[k].rank == rank
  }

  /**
   * `INSERT ... IF NOT EXISTS` keyed by rank: the row is added unless its
   * rank is taken, in which case nothing changes and no error is raised.
   */
  function InsertIfNotExists(cs: ClusterState, keyspace: string, table: string, row: InstalledMigrationVersion)
    : (r: Result<ClusterState, string>)
    ensures r.Success? <==> (keyspace, table) in cs.ledgers
    ensures r.Success? ==> r.value.keyspaces == cs.keyspaces && r.value.log == cs.log && r.value.clock == cs.clock
    ensures r.Success? ==> r.value.ledgers == cs.ledgers[(keyspace, table) :=
      if HasRank(cs.ledgers[(keyspace, table)], row.rank) then cs.ledgers[(keyspace, table)]
      else cs.ledgers[(keyspace, table)] + [row]]
  {
    if (keyspace, table) !in cs.ledgers then Failure("unconfigured table " + table)
    else
      var rows := cs.ledgers[(keyspace, table)];
      if HasRank(rows, row.rank) then Success(cs)
      else Success(cs.(ledgers := cs.ledgers[(keyspace, table) := rows + [row]]))
  }

  /** Wait: the clock moves on by a positive delay. */
  function Pause(cs: ClusterState, seconds: int): (r: ClusterState)
    ensures r == cs.(clock := cs.clock + if seconds > 0 then seconds else 0)
  {
    if seconds > 0 then cs.(clock := cs.clock + seconds) else cs
  }
}
