/**
 The repair of a lost chunk from end to end: plan, group by agent, pack, cut apart, encode at the
 agents, add up. The result is the chunk that was lost.
 */
module RepairChunk {
  import opened Wrappers
  import opened Gf256
  import opened Linear
  import opened Blocks
  import opened Sequences
  import opened ReedSolomon
  import opened ChunkGroups
  import opened CarRepair
  import opened CarProxy
  import opened CarAgent

  /** Where the chunks of the stripe are, and what reading them returns. */
  datatype Cluster = Cluster(containers: seq<int>, ids: seq<int>, agentOf: map<int, string>, fetch: Fetch)

  /** Every chunk but the lost one is alive, in a container of an agent with a proper address. */
  predicate OneLost(cluster: Cluster, status: seq<bool>, lost: nat) {
    && |cluster.containers| == |cluster.ids| == |status| && lost < |status|
    && (forall i :: 0 <= i < |status| ==> (status[i] <==> i != lost))
    && (forall i :: 0 <= i < |status| && status[i] ==> cluster.containers[i] in cluster.agentOf)
    && (forall c :: c in cluster.agentOf ==> ';' !in cluster.agentOf[c])
  }

  /** Chunk i can be read at the agent its container belongs to. */
  predicate ReadableAtOwner(cluster: Cluster, i: nat) {
    && i < |cluster.containers| == |cluster.ids| && cluster.containers[i] in cluster.agentOf
    && cluster.fetch(cluster.agentOf[cluster.containers[i]], cluster.containers[i], cluster.ids[i]).Some?
  }

  /** The request of each group is readable at its address exactly when the inputs are at their owners. */
  lemma GroupsReadable(cluster: Cluster, job: Job, requests: seq<EncodeRequest>, ps: seq<Positions>,
                       holders: seq<string>)
    requires job.Valid() && job.ids == cluster.ids && job.containers == cluster.containers
    requires job.agentOf == cluster.agentOf
    requires |ps| == |holders| == |requests| && AllWithin(ps, |job.inputs|) && Within(Concat(ps), |job.inputs|)
    requires forall r :: 0 <= r < |ps| ==> job.HeldBy(ps[r], holders[r])
    requires forall r :: 0 <= r < |ps| ==>
               requests[r] ==
                 EncodeRequest(Select(job.InputIds(), ps[r]), Select(job.InputContainers(), ps[r]),
                               Select(job.row, ps[r]), holders[r])
    requires forall x: nat :: x < |job.inputs| ==> x in Concat(ps) && job.containers[job.inputs[x]] in job.agentOf
    ensures (forall r :: 0 <= r < |requests| ==> Readable(cluster.fetch, requests[r])) <==>
            (forall x :: 0 <= x < |job.inputs| ==> ReadableAtOwner(cluster, job.inputs[x]))
  {
    if forall r :: 0 <= r < |requests| ==> Readable(cluster.fetch, requests[r]) {
      forall x | 0 <= x < |job.inputs|
        ensures ReadableAtOwner(cluster, job.inputs[x])
      {
        var r, j := FindInConcat(ps, x);
        assert Readable(cluster.fetch, requests[r]) && job.HeldBy(ps[r], holders[r]);
        assert requests[r].ids[j] == cluster.ids[job.inputs[x]];
      }
    }
    if forall x :: 0 <= x < |job.inputs| ==> ReadableAtOwner(cluster, job.inputs[x]) {
      forall r, j | 0 <= r < |requests| && 0 <= j < |requests[r].ids|
        ensures cluster.fetch(requests[r].address, requests[r].containers[j], requests[r].ids[j]).Some?
      {
        assert job.HeldBy(ps[r], holders[r]);
        assert ReadableAtOwner(cluster, job.inputs[ps[r][j]]);
      }
    }
  }

  lemma {:induction false} FindInConcat(ps: seq<Positions>, x: nat) returns (r: nat, j: nat)
    requires x in Concat(ps)
    ensures r < |ps| && j < |ps[r]| && ps[r][j] == x
  {
    if x in ps[0] {
      r := 0;
      j :| 0 <= j < |ps[0]| && ps[0][j] == x;
    } else {
      r, j := FindInConcat(ps[1..], x);
      r := r + 1;
    }
  }

  lemma InputsLocated(code: Code, cluster: Cluster, status: seq<bool>, lost: nat, job: Job)
    requires code.Valid() && code.k < code.n == |status| && OneLost(cluster, status, lost)
    requires job.inputs == FirstInputs(code, [lost]) && job.containers == cluster.containers
    requires job.agentOf == cluster.agentOf
    ensures forall x :: 0 <= x < |job.inputs| ==>
              && job.inputs[x] < |status| && Located(job.containers, status, job.agentOf, job.inputs[x])
              && job.containers[job.inputs[x]] in job.agentOf
  {
    var left := Alive([lost], code.n);
    AliveIsAscending([lost], code.n);
    AliveCount([lost], code.n, 1);
    forall x | 0 <= x < |job.inputs|
      ensures job.inputs[x] != lost
    {
      assert left[x] in left;
    }
  }

  lemma HoldersAreAddresses(cluster: Cluster, status: seq<bool>, lost: nat, job: Job, ps: seq<Positions>,
                            holders: seq<string>)
    requires OneLost(cluster, status, lost) && job.Valid() && job.agentOf == cluster.agentOf && |ps| == |holders|
    requires forall r :: 0 <= r < |ps| ==> job.HeldBy(ps[r], holders[r])
    ensures forall r :: 0 <= r < |holders| ==> ';' !in holders[r]
    ensures forall r :: 0 <= r < |ps| ==> ps[r] != []
  {
    forall r | 0 <= r < |holders|
      ensures ';' !in holders[r] && ps[r] != []
    {
      assert job.HeldBy(ps[r], holders[r]);
      var c := job.containers[job.inputs[ps[r][0]]];
    }
  }

  lemma {:induction false} AliveAre(lost: nat, n: nat)
    requires lost < n
    ensures Alive([lost], n) == Others(n - 1, lost)
  {
    if n - 1 == lost {
      NoneFailed(lost, lost);
    } else {
      AliveAre(lost, n - 1);
    }
  }

  lemma {:induction false} NoneFailed(lost: nat, n: nat)
    requires n <= lost
    ensures Alive([lost], n) == Others(n, lost)
  {
    if n > 0 {
      NoneFailed(lost, n - 1);
    }
  }

  /** Which chunks are used, and what it means that they can be read. */
  lemma InputsAre(code: Code, cluster: Cluster, status: seq<bool>, lost: nat)
    requires code.Valid() && code.k < code.n == |status| && OneLost(cluster, status, lost)
    ensures FirstInputs(code, [lost]) == Others(code.k, lost)
    ensures (forall x :: 0 <= x < code.k ==> ReadableAtOwner(cluster, FirstInputs(code, [lost])[x])) <==>
            forall x :: 0 <= x < code.k ==>
              var i := Others(code.k, lost)[x];
              cluster.fetch(cluster.agentOf[cluster.containers[i]], cluster.containers[i], cluster.ids[i]).Some?
  {
    AliveAre(lost, code.n);
    var inputs := FirstInputs(code, [lost]);
    assert inputs == Others(code.k, lost);
  }

  /**
   Rebuilds the one lost chunk of a stripe. The result is the lost chunk, and there is one exactly when
   the rows of the first k chunks left can be inverted and all of them can be read at their owners.
   */
  method Repair(code: Code, cluster: Cluster, status: seq<bool>, lost: nat, invert: Matrix -> Option<Matrix>,
                ghost data: seq<Byte>)
    returns (repaired: Option<Chunk>)
    requires code.Valid() && SoundInverter(invert, code.k) && code.k < code.n == |status|
    requires OneLost(cluster, status, lost)
    requires Serves(cluster.fetch, cluster.containers, cluster.ids, Encode(code, data))
    ensures repaired.Some? ==> repaired.value == Encode(code, data)[lost]
    ensures repaired.Some? <==>
              && data != []
              && invert(Select(code.matrix, FirstInputs(code, [lost]))).Some?
              && forall x :: 0 <= x < code.k ==> ReadableAtOwner(cluster, FirstInputs(code, [lost])[x])
    // the chunks used are the first k but the lost one, each read at the agent of its container
    ensures repaired.Some? <==>
              && data != [] && invert(Select(code.matrix, Others(code.k, lost))).Some?
              && forall x :: 0 <= x < code.k ==>
                   var i := Others(code.k, lost)[x];
                   cluster.fetch(cluster.agentOf[cluster.containers[i]], cluster.containers[i], cluster.ids[i]).Some?
  {
    hide Encode, ChunkSize, Alive, Rebuilds, Groups, RowHolds, Stored, Concat, Flatten, Addresses, Job.HeldBy, Readable,
      Serves, SoundInverter, Located, OneLost, Select, ReadableAtOwner, Others;
    SingleFailure(code, cluster, status, lost);
    InputsAre(code, cluster, status, lost);
    var plan := PreDecode(code, [lost], true, invert);
    if plan.None? {
      return None;
    }
    var n, k := code.n, code.k;
    MulSteps(k, 1, k + 1);
    var table, groupMap, containerMap := new int[n * (n + 1)], new int[k * (k + 1)], new int[k];
    var numGroups, groups, owners := FindChunkGroups(cluster.containers, status, cluster.agentOf, table);
    var job := Job(plan.value.inputs[..k], plan.value.repair[0], cluster.ids, cluster.containers, cluster.agentOf);
    JobIsValid(code, cluster, status, lost, job);
    InputsLocated(code, cluster, status, lost, job);
    var numSub, matrix, agents, ps, holders := PackGroups(job, table[..], n, numGroups, groupMap, containerMap, groups,
                                                          owners, status);
    PackedIsSent(job, groupMap[..], containerMap[..], matrix, ps);
    HoldersAreAddresses(cluster, status, lost, job, ps, holders);
    var requests := CutRequests(groupMap[..numSub + k], containerMap[..k], matrix, agents, numSub, ps, holders,
                                job.InputIds(), job.InputContainers(), job.row);
    GroupsReadable(cluster, job, requests, ps, holders);
    ghost var stored, size := Select(Encode(code, data), job.inputs), ChunkSize(k, |data|);
    ServesGroup(cluster.fetch, cluster.containers, cluster.ids, Encode(code, data), size, job.inputs);
    SomeGroup(ps);
    repaired := CombinePartials(requests, cluster.fetch, ps, job.InputIds(), job.InputContainers(), job.row, stored,
                                size);
    RebuiltIsLost(code, job.row, job.inputs, lost, data);
    NoEmptyChunks(k, data);
  }

  lemma SomeGroup(ps: seq<Positions>)
    ensures Concat(ps) != [] ==> ps != []
  {
  }

  lemma RebuiltIsLost(code: Code, row: Row, ids: seq<nat>, lost: nat, data: seq<Byte>)
    requires code.Valid() && Rebuilds(code, row, ids, lost)
    ensures |row| == |ids| && Within(ids, code.n) && lost < code.n
    ensures Blend(row, Select(Encode(code, data), ids), ChunkSize(code.k, |data|)) == Encode(code, data)[lost]
  {
    hide Encode, ChunkSize, Blend;
    assert RebuildsFor(code, row, ids, lost, data);
  }

  lemma NoEmptyChunks(k: nat, data: seq<Byte>)
    requires k > 0
    ensures data != [] <==> ChunkSize(k, |data|) > 0
  {
    ChunkSizeCovers(k, |data|);
  }

  lemma SingleFailure(code: Code, cluster: Cluster, status: seq<bool>, lost: nat)
    requires code.Valid() && code.n == |status| && OneLost(cluster, status, lost)
    ensures Ascending([lost], code.n) && |cluster.containers| == |cluster.ids| == |status|
  {
  }

  lemma JobIsValid(code: Code, cluster: Cluster, status: seq<bool>, lost: nat, job: Job)
    requires code.Valid() && code.k < code.n == |status| && OneLost(cluster, status, lost)
    requires job.inputs == FirstInputs(code, [lost]) && job.containers == cluster.containers && job.ids == cluster.ids
    requires Rebuilds(code, job.row, job.inputs, lost)
    ensures job.Valid()
  {
  }

  /** The part of the buffers that is sent is exactly the packed request. */
  lemma PackedIsSent(job: Job, groupMap: seq<int>, containerMap: seq<int>, matrix: Row, ps: seq<Positions>)
    requires job.Valid() && Stored(job, groupMap, containerMap, matrix, ps) && Distinct(Concat(ps))
    requires forall x: nat :: x < |job.inputs| ==> x in Concat(ps)
    ensures |Concat(ps)| == |job.inputs| && Within(Concat(ps), |job.inputs|) && AllWithin(ps, |job.inputs|)
    ensures |ps| + |job.inputs| <= |groupMap| && |job.inputs| <= |containerMap|
    ensures groupMap[..|ps| + |job.inputs|] == Flatten(ps, job.InputIds())
    ensures containerMap[..|job.inputs|] == Select(job.InputContainers(), Concat(ps))
    ensures matrix == Select(job.row, Concat(ps))
  {
    FlattenLength(ps, job.InputIds());
    DistinctCovers(Concat(ps), |job.inputs|);
  }
}
