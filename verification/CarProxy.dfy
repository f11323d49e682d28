/** Packing the repair request at the proxy, `repairFile` of src/proxy/chunk_manager.cc. */
module CarProxy {
  import opened Linear
  import opened Sequences
  import opened ReedSolomon
  import opened ChunkGroups
  import opened CarRepair

  /** What the packing works on: the inputs chosen for the repair and where the chunks are. */
  datatype Job = Job(inputs: seq<nat>, row: Row, ids: seq<int>, containers: seq<int>, agentOf: map<int, string>) {
    ghost predicate Valid() {
      |inputs| == |row| && |ids| == |containers| && Within(inputs, |ids|) && Distinct(inputs)
    }

    /** The chunk ids of the inputs. */
    function InputIds(): (s: seq<int>)
      requires |ids| == |containers| && Within(inputs, |ids|)
      ensures |s| == |inputs|
    {
      Select(ids, inputs)
    }

    function InputContainers(): (s: seq<int>)
      requires |ids| == |containers| && Within(inputs, |ids|)
      ensures |s| == |inputs|
    {
      Select(containers, inputs)
    }

    /** All chunks of group g are held by the agent at `holder`. */
    ghost predicate HeldBy(g: Positions, holder: string)
      requires Valid()
    {
      g != [] && forall j :: 0 <= j < |g| ==>
        g[j] < |inputs| && containers[inputs[g[j]]] in agentOf && agentOf[containers[inputs[g[j]]]] == holder
    }
  }

  ghost predicate InGroups(groups: seq<seq<nat>>, upTo: nat, c: nat)
    requires upTo <= |groups|
  {
    exists r :: 0 <= r < upTo && c in groups[r]
  }

  /** The buffers hold the groups packed so far followed by an open group `open`. */
  ghost predicate Buffers(job: Job, groupMap: seq<int>, containerMap: seq<int>, matrix: Row, ps: seq<Positions>,
                          open: Positions)
    requires job.Valid()
  {
    && AllWithin(ps, |job.inputs|) && Within(Concat(ps) + open, |job.inputs|) && Within(open, |job.inputs|)
    && Flatten(ps, job.InputIds()) + [|open|] + Select(job.InputIds(), open) <= groupMap
    && Select(job.InputContainers(), Concat(ps) + open) <= containerMap
    && matrix == Select(job.row, Concat(ps) + open)
  }

  /** Exactly the inputs met so far are packed, each once. */
  ghost predicate Covers(job: Job, groups: seq<seq<nat>>, i: nat, j: nat, packed: Positions)
    requires job.Valid() && i <= |groups| && (i < |groups| ==> j <= |groups[i]|)
  {
    && Distinct(packed)
    && forall x: nat :: x in packed <==>
         x < |job.inputs| && (InGroups(groups, i, job.inputs[x]) || (i < |groups| && job.inputs[x] in groups[i][..j]))
  }

  /** One more chunk of group i is met and it is input x. */
  lemma MeetInput(job: Job, groups: seq<seq<nat>>, owners: seq<string>, status: seq<bool>, n: nat, i: nat, j: nat,
                  packed: Positions, x: nat)
    requires job.Valid() && |job.containers| == |status|
    requires Groups(groups, owners, job.containers, status, job.agentOf, n)
    requires i < |groups| && j < |groups[i]| && Covers(job, groups, i, j, packed)
    requires x < |job.inputs| && job.inputs[x] == groups[i][j]
    ensures Covers(job, groups, i, j + 1, packed + [x])
    ensures |packed| < |job.inputs|
  {
    assert x !in packed;
    forall y | 0 <= y < |packed + [x]|
      ensures (packed + [x])[y] < |job.inputs|
    {
      assert y < |packed| ==> packed[y] in packed;
    }
    DistinctBelow(packed + [x], |job.inputs|);
    assert groups[i][..j + 1] == groups[i][..j] + [groups[i][j]];
  }

  /** One more chunk of group i is met and it is no input. */
  lemma MeetOther(job: Job, groups: seq<seq<nat>>, i: nat, j: nat, packed: Positions)
    requires job.Valid() && i < |groups| && j < |groups[i]| && Covers(job, groups, i, j, packed)
    requires groups[i][j] !in job.inputs
    ensures Covers(job, groups, i, j + 1, packed)
  {
    assert groups[i][..j + 1] == groups[i][..j] + [groups[i][j]];
  }

  lemma CloseGroup(job: Job, groups: seq<seq<nat>>, i: nat, packed: Positions)
    requires job.Valid() && i < |groups| && Covers(job, groups, i, |groups[i]|, packed)
    ensures Covers(job, groups, i + 1, 0, packed)
  {
    assert groups[i][..|groups[i]|] == groups[i];
    forall c: nat
      ensures InGroups(groups, i + 1, c) <==> InGroups(groups, i, c) || c in groups[i]
    {
    }
  }

  lemma OpenGroup(job: Job, groups: seq<seq<nat>>, i: nat, packed: Positions)
    requires job.Valid() && i <= |groups| && Covers(job, groups, i, 0, packed)
    ensures i < |groups| ==> Covers(job, groups, i, 0, packed + [])
  {
    assert packed + [] == packed;
  }

  lemma {:induction false} GroupsAtMost(ps: seq<Positions>)
    requires forall r :: 0 <= r < |ps| ==> ps[r] != []
    ensures |ps| <= |Concat(ps)|
  {
    if ps != [] {
      GroupsAtMost(ps[1..]);
    }
  }

  /** The buffers hold the groups packed so far, and nothing is open. */
  ghost predicate Stored(job: Job, groupMap: seq<int>, containerMap: seq<int>, matrix: Row, ps: seq<Positions>)
    requires job.Valid()
  {
    && AllWithin(ps, |job.inputs|) && Within(Concat(ps), |job.inputs|)
    && Flatten(ps, job.InputIds()) <= groupMap
    && Select(job.InputContainers(), Concat(ps)) <= containerMap
    && matrix == Select(job.row, Concat(ps))
  }

  /** Opening a group writes a zero size behind the groups packed so far. */
  lemma OpenBuffers(job: Job, groupMap: seq<int>, containerMap: seq<int>, matrix: Row, ps: seq<Positions>)
    requires job.Valid() && Stored(job, groupMap, containerMap, matrix, ps) && |ps| + |matrix| < |groupMap|
    ensures Buffers(job, groupMap[|ps| + |matrix| := 0], containerMap, matrix, ps, [])
  {
    FlattenLength(ps, job.InputIds());
    assert Concat(ps) + [] == Concat(ps);
    assert Select(job.InputIds(), []) == [];
  }

  /** Adding input x to the open group. */
  lemma PushBuffers(job: Job, groupMap: seq<int>, containerMap: seq<int>, matrix: Row, ps: seq<Positions>,
                    open: Positions, x: nat)
    requires job.Valid() && Buffers(job, groupMap, containerMap, matrix, ps, open) && x < |job.inputs|
    requires |ps| + |matrix| + 1 < |groupMap| && |matrix| < |containerMap|
    ensures |matrix| == |Concat(ps)| + |open|
    ensures groupMap[|ps| + |Concat(ps)|] == |open|
    ensures Buffers(job,
                    groupMap[|ps| + |matrix| + 1 := job.ids[job.inputs[x]]][|ps| + |Concat(ps)| := |open| + 1],
                    containerMap[|matrix| := job.containers[job.inputs[x]]],
                    matrix + [job.row[x]], ps, open + [x])
  {
    hide Flatten, Concat;
    var done := Flatten(ps, job.InputIds());
    FlattenLength(ps, job.InputIds());
    assert Concat(ps) + (open + [x]) == (Concat(ps) + open) + [x];
    SelectAppends(job.InputIds(), open, [x]);
    SelectAppends(job.InputContainers(), Concat(ps) + open, [x]);
    SelectAppends(job.row, Concat(ps) + open, [x]);
    assert done + [|open|] + Select(job.InputIds(), open) + [job.ids[job.inputs[x]]]
        <= groupMap[|ps| + |matrix| + 1 := job.ids[job.inputs[x]]];
  }

  /** Closing the open group: it joins the packed groups, unless it stayed empty. */
  lemma CloseBuffers(job: Job, groupMap: seq<int>, containerMap: seq<int>, matrix: Row, ps: seq<Positions>,
                     open: Positions)
    requires job.Valid() && Buffers(job, groupMap, containerMap, matrix, ps, open)
    ensures |matrix| == |Concat(ps)| + |open|
    ensures |ps| + |Concat(ps)| < |groupMap| && groupMap[|ps| + |Concat(ps)|] == |open|
    ensures open == [] ==> Stored(job, groupMap, containerMap, matrix, ps)
    ensures open != [] ==>
              |Concat(ps)| < |containerMap| && containerMap[|Concat(ps)|] == job.containers[job.inputs[open[0]]]
    ensures open != [] ==>
              Stored(job, groupMap, containerMap, matrix, ps + [open]) && Concat(ps + [open]) == Concat(ps) + open
  {
    hide Flatten, Concat;
    FlattenLength(ps, job.InputIds());
    FlattenSnoc(ps, open, job.InputIds());
    ConcatSnoc(ps, open);
    assert open == [] ==> Concat(ps) + open == Concat(ps);
    if open != [] {
      assert (Concat(ps) + open)[|Concat(ps)|] == open[0];
      assert Select(job.InputContainers(), Concat(ps) + open)[|Concat(ps)|] == job.containers[job.inputs[open[0]]];
    }
  }

  /** The map from a chunk to its position among the inputs. */
  method SelectedChunks(inputs: seq<nat>) returns (selected: map<nat, nat>)
    requires Distinct(inputs)
    ensures forall c :: c in selected <==> c in inputs
    ensures forall c :: c in selected ==> selected[c] < |inputs| && inputs[selected[c]] == c
  {
    selected := map[];
    for i := 0 to |inputs|
      invariant forall c :: c in selected <==> c in inputs[..i]
      invariant forall c :: c in selected ==> selected[c] < i && inputs[selected[c]] == c
    {
      selected := selected[inputs[i] := i];
    }
    assert inputs[..|inputs|] == inputs;
  }

  /** Packs the inputs found in group i behind the groups packed so far. */
  method PackGroup(job: Job, selected: map<nat, nat>, table: seq<int>, n: nat, i: nat, numSub: nat,
                   groupMap: array<int>, containerMap: array<int>, matrix: Row, ghost groups: seq<seq<nat>>,
                   ghost owners: seq<string>, ghost status: seq<bool>, ghost ps: seq<Positions>)
    returns (matrix': Row, ghost open: Positions)
    requires job.Valid() && n == |job.containers| == |status|
    requires Groups(groups, owners, job.containers, status, job.agentOf, n)
    requires i < |groups| && RowHolds(table, n, groups, i)
    requires forall c :: c in selected <==> c in job.inputs
    requires forall c :: c in selected ==> selected[c] < |job.inputs| && job.inputs[selected[c]] == c
    requires Stored(job, groupMap[..], containerMap[..], matrix, ps) && numSub == |ps| <= |Concat(ps)|
    requires Covers(job, groups, i, 0, Concat(ps))
    requires |matrix| < |job.inputs| && 2 * |job.inputs| <= groupMap.Length && |job.inputs| <= containerMap.Length
    requires groupMap != containerMap
    modifies groupMap, containerMap
    ensures Buffers(job, groupMap[..], containerMap[..], matrix', ps, open)
    ensures Covers(job, groups, i + 1, 0, Concat(ps) + open)
    ensures open != [] ==> job.HeldBy(open, owners[i])
  {
    hide Groups, Flatten, Concat, Buffers, Covers, Stored, Cell;
    var start := |matrix|;
    matrix', open := matrix, [];
    RowSize(table, n, groups, i, owners, job.containers, status, job.agentOf);
    StoredLength(job, groupMap[..], containerMap[..], matrix, ps);
    OpenBuffers(job, groupMap[..], containerMap[..], matrix, ps);
    OpenGroup(job, groups, i, Concat(ps));
    ghost var gm, cm := groupMap[..], containerMap[..];
    groupMap[start + numSub] := 0;
    assert groupMap[..] == gm[start + numSub := 0];
    for j := 0 to table[Cell(n, i, 0)]
      invariant Buffers(job, groupMap[..], containerMap[..], matrix', ps, open)
      invariant Covers(job, groups, i, j, Concat(ps) + open)
      invariant |matrix'| == |Concat(ps)| + |open|
      invariant open != [] ==> job.HeldBy(open, owners[i])
    {
      assert CellHolds(table, n, groups, i, j);
      var cid: nat := table[Cell(n, i, j + 1)];
      if cid in selected {
        var x := selected[cid];
        GroupOwner(groups, owners, job.containers, status, job.agentOf, n, i, j);
        MeetInput(job, groups, owners, status, n, i, j, Concat(ps) + open, x);
        PushBuffers(job, groupMap[..], containerMap[..], matrix', ps, open, x);
        assert Concat(ps) + open + [x] == Concat(ps) + (open + [x]);
        gm, cm := groupMap[..], containerMap[..];
        groupMap[numSub + |matrix'| + 1] := job.ids[cid];
        containerMap[|matrix'|] := job.containers[cid];
        groupMap[start + numSub] := groupMap[start + numSub] + 1;
        assert groupMap[..] == gm[numSub + |matrix'| + 1 := job.ids[cid]][start + numSub := |open| + 1];
        assert containerMap[..] == cm[|matrix'| := job.containers[cid]];
        matrix', open := matrix' + [job.row[x]], open + [x];
      } else {
        MeetOther(job, groups, i, j, Concat(ps) + open);
      }
    }
    CloseGroup(job, groups, i, Concat(ps) + open);
  }

  lemma StoredLength(job: Job, groupMap: seq<int>, containerMap: seq<int>, matrix: Row, ps: seq<Positions>)
    requires job.Valid() && Stored(job, groupMap, containerMap, matrix, ps)
    ensures |matrix| == |Concat(ps)|
  {
  }

  lemma RowSize(table: seq<int>, n: nat, groups: seq<seq<nat>>, i: nat, owners: seq<string>, containers: seq<int>,
                status: seq<bool>, agentOf: map<int, string>)
    requires |containers| == |status| && Groups(groups, owners, containers, status, agentOf, n)
    requires i < |groups| && RowHolds(table, n, groups, i)
    ensures |owners| == |groups| && Cell(n, i, 0) < |table| && table[Cell(n, i, 0)] == |groups[i]|
  {
  }

  lemma GroupOwner(groups: seq<seq<nat>>, owners: seq<string>, containers: seq<int>, status: seq<bool>,
                   agentOf: map<int, string>, n: nat, i: nat, j: nat)
    requires |containers| == |status| && Groups(groups, owners, containers, status, agentOf, n)
    requires i < |groups| && j < |groups[i]|
    ensures groups[i][j] < |containers| && containers[groups[i][j]] in agentOf
    ensures agentOf[containers[groups[i][j]]] == owners[i]
  {
  }

  /**
   Packs all inputs found in the groups: a flat table of groups, their containers and coefficients in
   the same order, and for each group the address of the agent that holds all of its chunks. Every
   input that is located is packed exactly once.
   */
  method PackGroups(job: Job, table: seq<int>, n: nat, numGroups: nat, groupMap: array<int>, containerMap: array<int>,
                    ghost groups: seq<seq<nat>>, ghost owners: seq<string>, ghost status: seq<bool>)
    returns (numSub: nat, matrix: Row, agents: string, ghost ps: seq<Positions>, ghost holders: seq<string>)
    requires job.Valid() && n == |job.containers| == |status|
    requires Groups(groups, owners, job.containers, status, job.agentOf, n)
    requires numGroups == |groups| && forall r :: 0 <= r < numGroups ==> RowHolds(table, n, groups, r)
    requires 2 * |job.inputs| <= groupMap.Length && |job.inputs| <= containerMap.Length && groupMap != containerMap
    modifies groupMap, containerMap
    ensures numSub == |ps| == |holders| && agents == Addresses(holders)
    ensures Stored(job, groupMap[..], containerMap[..], matrix, ps) && Distinct(Concat(ps))
    ensures forall r :: 0 <= r < numSub ==> job.HeldBy(ps[r], holders[r])
    ensures forall x: nat :: x < |job.inputs| && Located(job.containers, status, job.agentOf, job.inputs[x]) ==>
              x in Concat(ps)
  {
    hide Groups, Flatten, Concat, Buffers, Covers, Stored, Cell, RowHolds, Job.HeldBy;
    var selected := SelectedChunks(job.inputs);
    numSub, matrix, agents, ps, holders := 0, [], "", [], [];
    StartPacking(job, groupMap[..], containerMap[..], groups);
    var i := 0;
    while i < numGroups && |matrix| < |job.inputs|
      invariant 0 <= i <= numGroups && numSub == |ps| == |holders| && agents == Addresses(holders)
      invariant Stored(job, groupMap[..], containerMap[..], matrix, ps)
      invariant Covers(job, groups, i, 0, Concat(ps))
      invariant forall r :: 0 <= r < numSub ==> job.HeldBy(ps[r], holders[r])
    {
      NoEmptyGroups(job, ps, holders);
      RowSize(table, n, groups, i, owners, job.containers, status, job.agentOf);
      StoredLength(job, groupMap[..], containerMap[..], matrix, ps);
      var start := |matrix|;
      ghost var open;
      matrix, open := PackGroup(job, selected, table, n, i, numSub, groupMap, containerMap, matrix, groups, owners,
                                status, ps);
      CloseBuffers(job, groupMap[..], containerMap[..], matrix, ps, open);
      if groupMap[start + numSub] > 0 {
        FirstHeld(job, open, owners[i]);
        agents := agents + job.agentOf[containerMap[start]] + ";";
        AddressesSnoc(holders, owners[i]);
        numSub, ps, holders := numSub + 1, ps + [open], holders + [owners[i]];
      } else {
        assert Concat(ps) + open == Concat(ps);
      }
      i := i + 1;
    }
    StoredLength(job, groupMap[..], containerMap[..], matrix, ps);
    AllPacked(job, groups, owners, status, i, Concat(ps));
  }

  lemma StartPacking(job: Job, groupMap: seq<int>, containerMap: seq<int>, groups: seq<seq<nat>>)
    requires job.Valid()
    ensures Stored(job, groupMap, containerMap, [], []) && Covers(job, groups, 0, 0, Concat([]))
  {
  }

  lemma NoEmptyGroups(job: Job, ps: seq<Positions>, holders: seq<string>)
    requires job.Valid() && |ps| == |holders|
    requires forall r :: 0 <= r < |ps| ==> job.HeldBy(ps[r], holders[r])
    ensures |ps| <= |Concat(ps)|
  {
    GroupsAtMost(ps);
  }

  lemma FirstHeld(job: Job, open: Positions, holder: string)
    requires job.Valid() && open != [] && job.HeldBy(open, holder)
    ensures open[0] < |job.inputs| && job.containers[job.inputs[open[0]]] in job.agentOf
    ensures job.agentOf[job.containers[job.inputs[open[0]]]] == holder
  {
  }

  /** When the scan ends, because all groups were seen or all inputs found, all located inputs are packed. */
  lemma AllPacked(job: Job, groups: seq<seq<nat>>, owners: seq<string>, status: seq<bool>, i: nat, packed: Positions)
    requires job.Valid() && |job.containers| == |status|
    requires Groups(groups, owners, job.containers, status, job.agentOf, |job.containers|)
    requires i <= |groups| && Covers(job, groups, i, 0, packed)
    requires i == |groups| || |packed| >= |job.inputs|
    ensures Distinct(packed)
    ensures forall x: nat :: x < |job.inputs| && Located(job.containers, status, job.agentOf, job.inputs[x]) ==>
              x in packed
  {
    forall y | 0 <= y < |packed|
      ensures packed[y] < |job.inputs|
    {
      assert packed[y] in packed;
    }
    DistinctBelow(packed, |job.inputs|);
    ElementsCount(packed);
    SetBelow(Elements(packed), |job.inputs|);
    forall x: nat | x < |job.inputs| && Located(job.containers, status, job.agentOf, job.inputs[x])
      ensures x in packed
    {
      if i == |groups| {
        assert InGroups(groups, i, job.inputs[x]);
      } else {
        assert x in Elements(packed);
      }
    }
  }
}
