/** Per-node sequence numbers: the highest changeset number seen from each source. */
module VersionVectors {
  import opened Common

  function Seen(versions: map<string, nat>, node: string): nat {
    if node in versions then versions[node] else 0
  }

  function Bump(versions: map<string, nat>, node: string, seqNo: nat): map<string, nat> {
    versions[node := Max(Seen(versions, node), seqNo)]
  }

  class VersionVector {
    var versions: map<string, nat>

    constructor ()
      ensures versions == map[]
    {
      versions := map[];
    }

    method Get(node: string) returns (r: nat)
      ensures r == Seen(versions, node)
    {
      r := if node in versions then versions[node] else 0;
    }

    method Update(node: string, seqNo: nat)
      modifies this
      ensures versions == Bump(old(versions), node, seqNo)
    {
      if node !in versions {
        versions := versions[node := 0];
      }
      if seqNo > versions[node] {
        versions := versions[node := seqNo];
      }
      assert versions == Bump(old(versions), node, seqNo);
    }

    method HasSeen(node: string, seqNo: nat) returns (r: bool)
      ensures r <==> seqNo <= Seen(versions, node)
    {
      var current := Get(node);
      r := current >= seqNo;
    }

    /** Merging takes the least upper bound: every node's number becomes the greater of the two. */
    method Merge(other: map<string, nat>)
      modifies this
      ensures versions.Keys == old(versions).Keys + other.Keys
      ensures forall node :: Seen(versions, node) == Max(Seen(old(versions), node), Seen(other, node))
    {
      var todo := other.Keys;
      while todo != {}
        invariant todo <= other.Keys
        invariant versions.Keys == old(versions).Keys + (other.Keys - todo)
        invariant forall node ::
            Seen(versions, node) == if node in todo then Seen(old(versions), node)
                                    else Max(Seen(old(versions), node), Seen(other, node))
        decreases todo
      {
        var node :| node in todo;
        Update(node, other[node]);
        todo := todo - {node};
      }
    }
  }
}
