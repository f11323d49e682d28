/**
 Grouping the alive chunks of a stripe by the agent that holds them, `findChunkGroups` of
 src/proxy/coordinator.cc. The result is a table with one row of n + 1 numbers for each group: its
 size, then its chunks.
 */
module ChunkGroups {
  import opened Blocks
  import opened Sequences

  /** The cell of column j in row r of a table with rows of n + 1 numbers. */
  function Cell(n: nat, r: nat, j: nat): nat {
    r * (n + 1) + j
  }

  lemma CellFits(n: nat, rows: nat, r: nat, j: nat)
    requires r < rows && j <= n
    ensures Cell(n, r, j) < rows * (n + 1)
  {
    MulSteps(n + 1, r, rows);
  }

  lemma CellsDiffer(n: nat, r: nat, j: nat, r': nat, j': nat)
    requires j <= n && j' <= n && (r != r' || j != j')
    ensures Cell(n, r, j) != Cell(n, r', j')
  {
    if r < r' {
      MulSteps(n + 1, r, r');
    } else if r' < r {
      MulSteps(n + 1, r', r);
    }
  }

  /** Chunk i is alive and its container belongs to a known agent. */
  predicate Located(containers: seq<int>, status: seq<bool>, agentOf: map<int, string>, i: nat)
    requires |containers| == |status|
  {
    i < |containers| && status[i] && containers[i] in agentOf
  }

  /** The groups are the located chunks by owner: one group per owner, each chunk in the group of its owner. */
  ghost predicate Groups(groups: seq<seq<nat>>, owners: seq<string>, containers: seq<int>, status: seq<bool>,
                         agentOf: map<int, string>, upTo: nat)
    requires |containers| == |status|
  {
    && |groups| == |owners| && Distinct(owners)
    && (forall r :: 0 <= r < |groups| ==> groups[r] != [] && Distinct(groups[r]))
    && (forall r, j :: 0 <= r < |groups| && 0 <= j < |groups[r]| ==>
          && groups[r][j] < upTo && Located(containers, status, agentOf, groups[r][j])
          && agentOf[containers[groups[r][j]]] == owners[r])
    && (forall i :: 0 <= i < upTo && Located(containers, status, agentOf, i) ==>
          exists r :: 0 <= r < |groups| && owners[r] == agentOf[containers[i]] && i in groups[r])
  }

  /** Cell j of row r holds chunk j of group r. */
  ghost predicate CellHolds(table: seq<int>, n: nat, groups: seq<seq<nat>>, r: nat, j: nat)
    requires r < |groups| && j < |groups[r]|
  {
    |groups[r]| <= n && Cell(n, r, j + 1) < |table| && table[Cell(n, r, j + 1)] == groups[r][j]
  }

  /** Row r of the table lists group r: its size and its chunks. */
  ghost predicate RowHolds(table: seq<int>, n: nat, groups: seq<seq<nat>>, r: nat)
    requires r < |groups|
  {
    && |groups[r]| <= n && Cell(n, r, n) < |table|
    && table[Cell(n, r, 0)] == |groups[r]|
    && forall j :: 0 <= j < |groups[r]| ==> CellHolds(table, n, groups, r, j)
  }

  /** The contents of the rows while the table is being filled, the sizes still missing. */
  ghost predicate Filled(table: seq<int>, n: nat, groups: seq<seq<nat>>) {
    forall r, j :: 0 <= r < |groups| && 0 <= j < |groups[r]| ==> CellHolds(table, n, groups, r, j)
  }

  /** The groups with chunk i put into group g, or into a new group at the end. */
  ghost function Place(groups: seq<seq<nat>>, g: nat, i: nat): seq<seq<nat>>
    requires g <= |groups|
  {
    if g == |groups| then groups + [[i]] else groups[g := groups[g] + [i]]
  }

  lemma PlaceKeepsGroups(groups: seq<seq<nat>>, owners: seq<string>, containers: seq<int>, status: seq<bool>,
                         agentOf: map<int, string>, i: nat, g: nat)
    requires |containers| == |status| && Located(containers, status, agentOf, i)
    requires Groups(groups, owners, containers, status, agentOf, i)
    requires g <= |groups|
    requires if g < |groups| then owners[g] == agentOf[containers[i]] else agentOf[containers[i]] !in owners
    ensures Groups(Place(groups, g, i), if g < |groups| then owners else owners + [agentOf[containers[i]]], containers,
                   status, agentOf, i + 1)
  {
    var groups' := Place(groups, g, i);
    var owners' := if g < |groups| then owners else owners + [agentOf[containers[i]]];
    assert i in groups'[g];
    forall x | 0 <= x < i + 1 && Located(containers, status, agentOf, x)
      ensures exists r :: 0 <= r < |groups'| && owners'[r] == agentOf[containers[x]] && x in groups'[r]
    {
      if x < i {
        var r :| 0 <= r < |groups| && owners[r] == agentOf[containers[x]] && x in groups[r];
        assert x in groups'[r];
      } else {
        assert owners'[g] == agentOf[containers[x]];
      }
    }
  }

  lemma PlaceFills(table: seq<int>, table': seq<int>, n: nat, groups: seq<seq<nat>>, g: nat, i: nat)
    requires Filled(table, n, groups) && g <= |groups|
    requires g < |groups| ==> |groups[g]| < n
    requires var cell := Cell(n, g, (if g < |groups| then |groups[g]| else 0) + 1);
             0 < n && cell < |table| && table' == table[cell := i]
    ensures Filled(table', n, Place(groups, g, i))
  {
    hide Cell;
    var groups', size := Place(groups, g, i), if g < |groups| then |groups[g]| else 0;
    forall r, j | 0 <= r < |groups'| && 0 <= j < |groups'[r]|
      ensures CellHolds(table', n, groups', r, j)
    {
      if r != g || j != size {
        assert CellHolds(table, n, groups, r, j);
        CellsDiffer(n, r, j + 1, g, size + 1);
      }
    }
  }

  /** A chunk is in the group of its agent exactly when it is alive and has one. */
  lemma GroupsMean(groups: seq<seq<nat>>, owners: seq<string>, containers: seq<int>, status: seq<bool>,
                   agentOf: map<int, string>)
    requires |containers| == |status| && Groups(groups, owners, containers, status, agentOf, |containers|)
    ensures |groups| == |owners|
    ensures forall r, j :: 0 <= r < |groups| && 0 <= j < |groups[r]| ==>
              var i := groups[r][j];
              && i < |containers| && status[i] && containers[i] in agentOf && agentOf[containers[i]] == owners[r]
    ensures forall i :: 0 <= i < |containers| && status[i] && containers[i] in agentOf ==>
              exists r :: 0 <= r < |groups| && owners[r] == agentOf[containers[i]] && i in groups[r]
  {
    forall i | 0 <= i < |containers| && status[i] && containers[i] in agentOf
      ensures exists r :: 0 <= r < |groups| && owners[r] == agentOf[containers[i]] && i in groups[r]
    {
      assert Located(containers, status, agentOf, i);
    }
  }

  /** Groups the located chunks by owner and lists the groups in the table. */
  method FindChunkGroups(containers: seq<int>, status: seq<bool>, agentOf: map<int, string>, table: array<int>)
    returns (numGroups: nat, ghost groups: seq<seq<nat>>, ghost owners: seq<string>)
    requires |containers| == |status| && table.Length >= |containers| * (|containers| + 1)
    modifies table
    ensures numGroups == |groups| && Groups(groups, owners, containers, status, agentOf, |containers|)
    ensures forall r :: 0 <= r < numGroups ==> RowHolds(table[..], |containers|, groups, r)
  {
    hide Cell, Filled, Groups, Place;
    var n := |containers|;
    var groupOf: map<string, nat> := map[];
    var sizes := new nat[n](_ => 0);
    numGroups, groups, owners := 0, [], [];
    MulSteps(n + 1, 0, n + 1);
    StartEmpty(table[..], n, containers, status, agentOf);
    for i := 0 to n
      invariant numGroups == |groups| == |owners| <= i
      invariant Groups(groups, owners, containers, status, agentOf, i) && Filled(table[..], n, groups)
      invariant forall r :: 0 <= r < numGroups ==> sizes[r] == |groups[r]| <= i
      invariant forall r :: numGroups <= r < n ==> sizes[r] == 0
      invariant forall o :: o in groupOf <==> o in owners
      invariant forall o :: o in groupOf ==> groupOf[o] < numGroups && owners[groupOf[o]] == o
    {
      if !status[i] || containers[i] !in agentOf {
        SkipKeepsGroups(groups, owners, containers, status, agentOf, i);
      } else {
        var agent := agentOf[containers[i]];
        ghost var before, was := table[..], groups;
        if agent !in groupOf {
          groupOf := groupOf[agent := numGroups];
          numGroups := numGroups + 1;
        }
        var g := groupOf[agent];
        CellFits(n, n, g, sizes[g] + 1);
        PlaceKeepsGroups(groups, owners, containers, status, agentOf, i, g);
        table[Cell(n, g, sizes[g] + 1)] := i;
        PlaceFills(before, table[..], n, groups, g, i);
        PlaceAt(groups, g, i);
        sizes[g] := sizes[g] + 1;
        groups, owners := Place(groups, g, i), if g < |was| then owners else owners + [agent];
      }
    }
    for r := 0 to numGroups
      invariant forall x :: 0 <= x < numGroups ==> sizes[x] == |groups[x]| <= n
      invariant Filled(table[..], n, groups)
      invariant forall x :: 0 <= x < r ==> RowHolds(table[..], n, groups, x)
    {
      ghost var before := table[..];
      CellFits(n, n, r, 0);
      CellFits(n, n, r, n);
      table[Cell(n, r, 0)] := sizes[r];
      assert table[..] == before[Cell(n, r, 0) := sizes[r]];
      SizeFills(before, table[..], n, groups, r);
    }
  }

  /** Writing the size of group r completes its row and leaves the others alone. */
  lemma SizeFills(table: seq<int>, table': seq<int>, n: nat, groups: seq<seq<nat>>, r: nat)
    requires Filled(table, n, groups) && r < |groups| && |groups[r]| <= n && Cell(n, r, 0) < |table|
    requires Cell(n, r, n) < |table|
    requires table' == table[Cell(n, r, 0) := |groups[r]|]
    requires forall x :: 0 <= x < r ==> RowHolds(table, n, groups, x)
    ensures Filled(table', n, groups)
    ensures forall x :: 0 <= x <= r ==> RowHolds(table', n, groups, x)
  {
    forall x, j | 0 <= x < |groups| && 0 <= j < |groups[x]|
      ensures CellHolds(table', n, groups, x, j)
    {
      assert CellHolds(table, n, groups, x, j);
      CellsDiffer(n, x, j + 1, r, 0);
    }
    forall x | 0 <= x < r
      ensures RowHolds(table', n, groups, x)
    {
      assert RowHolds(table, n, groups, x);
      CellsDiffer(n, x, 0, r, 0);
      assert table'[Cell(n, x, 0)] == |groups[x]|;
      assert forall j :: 0 <= j < |groups[x]| ==> CellHolds(table', n, groups, x, j);
    }
    assert forall j :: 0 <= j < |groups[r]| ==> CellHolds(table', n, groups, r, j);
  }

  lemma PlaceAt(groups: seq<seq<nat>>, g: nat, i: nat)
    requires g <= |groups|
    ensures |Place(groups, g, i)| == if g == |groups| then |groups| + 1 else |groups|
    ensures forall r :: 0 <= r < |groups| && r != g ==> Place(groups, g, i)[r] == groups[r]
    ensures |Place(groups, g, i)[g]| == 1 + if g < |groups| then |groups[g]| else 0
  {
  }

  lemma StartEmpty(table: seq<int>, n: nat, containers: seq<int>, status: seq<bool>, agentOf: map<int, string>)
    requires |containers| == |status|
    ensures Filled(table, n, []) && Groups([], [], containers, status, agentOf, 0)
  {
  }

  lemma SkipKeepsGroups(groups: seq<seq<nat>>, owners: seq<string>, containers: seq<int>, status: seq<bool>,
                        agentOf: map<int, string>, i: nat)
    requires |containers| == |status| && i < |containers| && !Located(containers, status, agentOf, i)
    requires Groups(groups, owners, containers, status, agentOf, i)
    ensures Groups(groups, owners, containers, status, agentOf, i + 1)
  {
  }
}
