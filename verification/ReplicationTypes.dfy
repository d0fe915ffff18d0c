/** Values exchanged by the replication layer: hybrid-clock timestamps, changes and changesets. */
module ReplicationTypes {
  import opened Common

  /** Timestamps carry the derived (lexicographic) order of their three fields. */
  datatype HlcTimestamp = HlcTimestamp(wallTime: U64, counter: U32, nodeHash: U32) {

    predicate LessThan(other: HlcTimestamp) {
      || wallTime < other.wallTime
      || (wallTime == other.wallTime && counter < other.counter)
      || (wallTime == other.wallTime && counter == other.counter && nodeHash < other.nodeHash)
    }

    predicate AtMost(other: HlcTimestamp) {
      this == other || LessThan(other)
    }
  }

  datatype ChangeKind = Insert | Update | Delete

  datatype Change = Change(
    id: U64,
    table: string,
    pk: string,
    kind: ChangeKind,
    data: string,
    timestamp: HlcTimestamp,
    origin: string)

  datatype ChangeSet = ChangeSet(source: string, seqNo: nat, changes: seq<Change>, checksum: U32)

  /** The columns the store looks up in a change's JSON payload; absent ones are None. */
  datatype BackendJson = BackendJson(
    app: Option<string>,
    region: Option<string>,
    country: Option<string>,
    wgIp: Option<string>,
    port: Option<int>,
    healthy: Option<int>,
    weight: Option<int>,
    softLimit: Option<int>,
    hardLimit: Option<int>)

  /** Foreign code the replication layer calls: CRC32 of a node id, CRC32 of the encoded changes, JSON parsing. */
  datatype Env = Env(
    nodeHash: string -> U32,
    checksum: seq<Change> -> U32,
    parse: string -> Option<BackendJson>)

  /** `HLCTimestamp::now`: the counter is always zero. */
  function Now(env: Env, nodeId: string, wall: U64): HlcTimestamp {
    HlcTimestamp(wall, 0, env.nodeHash(nodeId))
  }

  function NewChangeSet(env: Env, source: string, seqNo: nat, changes: seq<Change>): ChangeSet {
    ChangeSet(source, seqNo, changes, env.checksum(changes))
  }

  predicate Verify(env: Env, cs: ChangeSet) {
    cs.checksum == env.checksum(cs.changes)
  }
}
