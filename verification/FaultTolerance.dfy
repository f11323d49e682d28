/**
 What the limit per agent is for: a stripe placed on fresh containers can be read after any f agents fail.
 The liveness check is the one of src/proxy/coordinator.cc.
 */
module FaultTolerance {
  import opened Wrappers
  import opened Gf256
  import opened Linear
  import opened Sequences
  import opened Address
  import opened Registry
  import opened Placement
  import opened ReedSolomon
  import opened ChunkAccess
  import opened StripeRead
  import opened Striping
  import opened StripeWrite
  import opened FileRead
  import HealthyRun

  const UNUSED_CONTAINER_ID := -2

  /** A container is online when it is mapped to an agent and that agent is alive. */
  predicate Online(id: int, owners: map<int, string>, status: map<string, bool>) {
    id in owners && AddrIP(owners[id]) in status && status[AddrIP(owners[id])]
  }

  predicate Fails(id: int, owners: map<int, string>, status: map<string, bool>, treatUnused: bool) {
    if id == UNUSED_CONTAINER_ID then treatUnused else !Online(id, owners, status)
  }

  function Failures(ids: seq<int>, owners: map<int, string>, status: map<string, bool>, treatUnused: bool): nat {
    if ids == [] then 0
    else
      var last := |ids| - 1;
      var one := if Fails(ids[last], owners, status, treatUnused) then 1 else 0;
      Failures(ids[..last], owners, status, treatUnused) + one
  }

  lemma {:induction false} FailuresSeen(ids: seq<int>, i: nat, owners: map<int, string>, status: map<string, bool>,
                                        treatUnused: bool)
    requires i < |ids|
    ensures Fails(ids[i], owners, status, treatUnused) ==> Failures(ids, owners, status, treatUnused) > 0
  {
    hide Fails;
    if i < |ids| - 1 {
      FailuresSeen(ids[..|ids| - 1], i, owners, status, treatUnused);
    }
  }

  /** The positions of the containers that are not of an agent alive, and those not used if they count. */
  ghost function Offline(ids: seq<int>, owners: map<int, string>, alive: set<string>, treatUnused: bool): set<nat> {
    set i: nat | i < |ids| && if ids[i] == UNUSED_CONTAINER_ID then treatUnused
                              else !(ids[i] in owners && AddrIP(owners[ids[i]]) in alive)
  }

  lemma OnlineIsAlive(coordinator: Coordinator, id: int)
    requires coordinator.Valid()
    ensures Online(id, coordinator.containerToAgent, coordinator.status) <==>
              id in coordinator.containerToAgent && AddrIP(coordinator.containerToAgent[id]) in coordinator.alive
  {
    hide AddrIP, Consistent;
  }

  lemma OfflineLast(ids: seq<int>, owners: map<int, string>, alive: set<string>, treatUnused: bool)
    requires ids != []
    ensures var last := |ids| - 1;
            var off := if ids[last] == UNUSED_CONTAINER_ID then treatUnused
                       else !(ids[last] in owners && AddrIP(owners[ids[last]]) in alive);
            |Offline(ids, owners, alive, treatUnused)| ==
              |Offline(ids[..last], owners, alive, treatUnused)| + if off then 1 else 0
  {
    hide AddrIP;
    var last := |ids| - 1;
    var all, front := Offline(ids, owners, alive, treatUnused), Offline(ids[..last], owners, alive, treatUnused);
    assert all == front + if last in all then {last} else {};
  }

  lemma {:induction false} OfflineCount(ids: seq<int>, owners: map<int, string>, status: map<string, bool>,
                                        alive: set<string>, treatUnused: bool)
    requires forall id :: Online(id, owners, status) <==> id in owners && AddrIP(owners[id]) in alive
    ensures Failures(ids, owners, status, treatUnused) == |Offline(ids, owners, alive, treatUnused)|
  {
    if ids == [] {
      assert Offline(ids, owners, alive, treatUnused) == {};
    } else {
      hide AddrIP, Online, Offline;
      OfflineCount(ids[..|ids| - 1], owners, status, alive, treatUnused);
      OfflineLast(ids, owners, alive, treatUnused);
    }
  }

  lemma CountsOffline(ids: seq<int>, coordinator: Coordinator, treatUnused: bool)
    ensures coordinator.Valid() ==>
              && Failures(ids, coordinator.containerToAgent, coordinator.status, treatUnused) ==
                   |Offline(ids, coordinator.containerToAgent, coordinator.alive, treatUnused)|
              && forall id :: Online(id, coordinator.containerToAgent, coordinator.status) <==>
                   && id in coordinator.containerToAgent
                   && AddrIP(coordinator.containerToAgent[id]) in coordinator.alive
  {
    hide AddrIP, Online, Failures, Consistent;
    if coordinator.Valid() {
      forall id: int {
        OnlineIsAlive(coordinator, id);
      }
      OfflineCount(ids, coordinator.containerToAgent, coordinator.status, coordinator.alive, treatUnused);
    }
  }

  /**
   Marks which containers are online, and counts those that are not. With `checkAll` every container
   is looked at; without, the check may end early, and still tells whether there is a failure.
   */
  method CheckContainerLiveness(coordinator: Coordinator, ids: seq<int>, status: array<bool>, checkAll: bool,
                                treatUnused: bool)
    returns (numFailed: nat)
    requires |ids| <= status.Length
    modifies status
    ensures checkAll ==> numFailed == Failures(ids, coordinator.containerToAgent, coordinator.status, treatUnused)
    ensures numFailed > 0 <==> Failures(ids, coordinator.containerToAgent, coordinator.status, treatUnused) > 0
    ensures checkAll ==> forall i :: 0 <= i < |ids| ==>
              status[i] == if ids[i] == UNUSED_CONTAINER_ID && !treatUnused then old(status[i])
                           else !Fails(ids[i], coordinator.containerToAgent, coordinator.status, treatUnused)
    // a container is marked exactly when it belongs to an agent that is alive, and the others are counted
    ensures coordinator.Valid() && checkAll ==>
              && (forall i :: 0 <= i < |ids| && ids[i] != UNUSED_CONTAINER_ID ==>
                    (status[i] <==> && ids[i] in coordinator.containerToAgent
                                    && AddrIP(coordinator.containerToAgent[ids[i]]) in coordinator.alive))
              && numFailed == |Offline(ids, coordinator.containerToAgent, coordinator.alive, treatUnused)|
  {
    hide AddrIP;
    CountsOffline(ids, coordinator, treatUnused);
    numFailed := 0;
    for i := 0 to |ids|
      invariant numFailed == Failures(ids[..i], coordinator.containerToAgent, coordinator.status, treatUnused)
      invariant forall j :: 0 <= j < i ==>
                  status[j] == if ids[j] == UNUSED_CONTAINER_ID && !treatUnused then old(status[j])
                               else !Fails(ids[j], coordinator.containerToAgent, coordinator.status, treatUnused)
      invariant forall j :: i <= j < status.Length ==> status[j] == old(status[j])
    {
      FailuresSeen(ids, i, coordinator.containerToAgent, coordinator.status, treatUnused);
      assert ids[..i + 1][..i] == ids[..i];
      if ids[i] == UNUSED_CONTAINER_ID {
        if treatUnused {
          status[i] := false;
          numFailed := numFailed + 1;
          if !checkAll {
            return;
          }
        }
      } else if ids[i] !in coordinator.containerToAgent
                || AddrIP(coordinator.containerToAgent[ids[i]]) !in coordinator.status {
        status[i] := false;
        numFailed := numFailed + 1;
        if !checkAll {
          return;
        }
      } else {
        status[i] := coordinator.status[AddrIP(coordinator.containerToAgent[ids[i]])];
        numFailed := numFailed + if status[i] then 0 else 1;
      }
    }
    assert ids[..|ids|] == ids;
  }

  /** How many of the containers belong to one of the agents. */
  function OwnedIn(ids: seq<int>, owners: map<int, string>, ips: set<string>): nat {
    if ids == [] then 0
    else
      var id := ids[|ids| - 1];
      OwnedIn(ids[..|ids| - 1], owners, ips) + if id in owners && AddrIP(owners[id]) in ips then 1 else 0
  }

  lemma {:induction false} OwnedInSplits(ids: seq<int>, owners: map<int, string>, ips: set<string>, ip: string)
    requires ip in ips
    ensures OwnedIn(ids, owners, ips) == OwnedIn(ids, owners, ips - {ip}) + Owned(ids, owners, ip)
  {
    hide AddrIP;
    if ids != [] {
      OwnedInSplits(ids[..|ids| - 1], owners, ips, ip);
    }
  }

  lemma {:induction false} OwnedInNone(ids: seq<int>, owners: map<int, string>)
    ensures OwnedIn(ids, owners, {}) == 0
  {
    if ids != [] {
      OwnedInNone(ids[..|ids| - 1], owners);
    }
  }

  lemma OneMore(count: nat, limit: nat)
    ensures (count + 1) * limit == count * limit + limit
  {
  }

  lemma {:induction false} OwnedInBound(ids: seq<int>, owners: map<int, string>, ips: set<string>, limit: nat)
    requires forall ip :: Owned(ids, owners, ip) <= limit
    ensures OwnedIn(ids, owners, ips) <= |ips| * limit
    decreases ips
  {
    hide OwnedIn, Owned;
    if ips == {} {
      OwnedInNone(ids, owners);
    } else {
      var ip :| ip in ips;
      OwnedInSplits(ids, owners, ips, ip);
      OwnedInBound(ids, owners, ips - {ip}, limit);
      assert |ips| == |ips - {ip}| + 1;
      OneMore(|ips - {ip}|, limit);
    }
  }

  lemma {:induction false} FailuresAreDown(ids: seq<int>, owners: map<int, string>, status: map<string, bool>,
                                           down: set<string>)
    requires forall x :: 0 <= x < |ids| ==>
               ids[x] in owners && (Online(ids[x], owners, status) || AddrIP(owners[ids[x]]) in down)
    ensures Failures(ids, owners, status, false) <= OwnedIn(ids, owners, down)
  {
    hide AddrIP;
    if ids != [] {
      FailuresAreDown(ids[..|ids| - 1], owners, status, down);
    }
  }

  lemma LimitFits(meta: CodingMeta, failed: nat)
    requires meta.Valid() && failed <= meta.f
    ensures meta.f > 0 ==> failed * meta.Limit() <= meta.n - meta.k
  {
    if meta.f > 0 {
      var l := meta.Limit();
      assert meta.f * l <= meta.n - meta.k;
      assert failed * l + (meta.f - failed) * l == meta.f * l;
    }
  }

  /** With at most `Limit` containers per agent, no f agents take more than n - k chunks with them. */
  lemma FailuresBounded(meta: CodingMeta, ids: seq<int>, owners: map<int, string>, status: map<string, bool>,
                        down: set<string>)
    requires meta.Valid() && meta.f > 0 && |down| <= meta.f
    requires forall ip :: Owned(ids, owners, ip) <= meta.Limit()
    requires forall x :: 0 <= x < |ids| ==>
               ids[x] in owners && (Online(ids[x], owners, status) || AddrIP(owners[ids[x]]) in down)
    ensures Failures(ids, owners, status, false) <= meta.n - meta.k
  {
    hide Failures, Owned, OwnedIn, Online, AddrIP;
    FailuresAreDown(ids, owners, status, down);
    OwnedInBound(ids, owners, down, meta.Limit());
    LimitFits(meta, |down|);
  }

  ghost function AliveSet(alive: seq<bool>): set<nat> {
    set i: nat | i < |alive| && alive[i]
  }

  lemma AliveSetLast(alive: seq<bool>)
    requires alive != []
    ensures |AliveSet(alive)| == |AliveSet(alive[..|alive| - 1])| + if alive[|alive| - 1] then 1 else 0
  {
    var last := |alive| - 1;
    assert AliveSet(alive) == AliveSet(alive[..last]) + if alive[last] then {last} else {};
  }

  lemma {:induction false} AliveSetCount(alive: seq<bool>, ids: seq<int>, owners: map<int, string>,
                                         status: map<string, bool>)
    requires |alive| == |ids| && forall i :: 0 <= i < |ids| ==> alive[i] == !Fails(ids[i], owners, status, false)
    ensures |AliveSet(alive)| == |ids| - Failures(ids, owners, status, false)
  {
    hide Fails;
    if ids == [] {
      assert AliveSet(alive) == {};
    } else {
      var last := |ids| - 1;
      AliveSetCount(alive[..last], ids[..last], owners, status);
      AliveSetLast(alive);
    }
  }

  /** Marks agents down one after the other. */
  method FailAgents(coordinator: Coordinator, downs: seq<string>)
    requires coordinator.Valid()
    modifies coordinator
    ensures coordinator.Valid() && coordinator.containerToAgent == old(coordinator.containerToAgent)
    ensures forall ip :: ip in old(coordinator.alive) && ip !in downs ==> ip in coordinator.alive
    ensures forall ip :: ip in coordinator.alive ==> ip in old(coordinator.alive) && ip !in downs
    ensures coordinator.alive == old(coordinator.alive) - Elements(downs)
  {
    hide Consistent;
    for d := 0 to |downs|
      invariant coordinator.Valid() && coordinator.containerToAgent == old(coordinator.containerToAgent)
      invariant forall ip :: ip in old(coordinator.alive) && ip !in downs[..d] ==> ip in coordinator.alive
      invariant forall ip :: ip in coordinator.alive ==> ip in old(coordinator.alive) && ip !in downs[..d]
    {
      var _ := coordinator.SetAgentDown(downs[d]);
    }
  }

  /** After agents fail, a container placed on an agent that was alive is online or of a failed agent. */
  lemma PlacedOnlineOrDown(coordinator: Coordinator, ids: seq<int>, agents0: map<string, AgentInfo>, demand: Demand,
                           limit: nat, alive0: set<string>, downs: seq<string>)
    requires coordinator.Valid() && demand.k > 0
    requires Selection(ids, coordinator.containerToAgent, agents0, demand, limit, alive0)
    requires forall ip :: ip in alive0 && ip !in downs ==> ip in coordinator.alive
    ensures forall x :: 0 <= x < |ids| ==>
              && ids[x] in coordinator.containerToAgent
              && (|| Online(ids[x], coordinator.containerToAgent, coordinator.status)
                  || AddrIP(coordinator.containerToAgent[ids[x]]) in Elements(downs))
  {
    hide AddrIP, Demand.MetBy, Consistent, Owned, InUseAt;
    forall x | 0 <= x < |ids|
      ensures ids[x] in coordinator.containerToAgent
      ensures || Online(ids[x], coordinator.containerToAgent, coordinator.status)
              || AddrIP(coordinator.containerToAgent[ids[x]]) in Elements(downs)
    {
      assert Eligible(ids[x], coordinator.containerToAgent, agents0, demand, limit, alive0);
    }
  }

  /** Of the containers chosen, at most n - k are of agents that failed. */
  lemma FewFail(coordinator: Coordinator, ids: seq<int>, agents0: map<string, AgentInfo>, demand: Demand,
                meta: CodingMeta, alive0: set<string>, downs: seq<string>)
    requires coordinator.Valid() && meta.Valid() && meta.f > 0 && demand.k > 0 && |Elements(downs)| <= meta.f
    requires Selection(ids, coordinator.containerToAgent, agents0, demand, meta.Limit(), alive0)
    requires forall ip :: ip in alive0 && ip !in downs ==> ip in coordinator.alive
    ensures Failures(ids, coordinator.containerToAgent, coordinator.status, false) <= meta.n - meta.k
  {
    hide Selection, Consistent, Online, Failures;
    PlacedOnlineOrDown(coordinator, ids, agents0, demand, meta.Limit(), alive0, downs);
    SelectionLimits(ids, coordinator.containerToAgent, agents0, demand, meta.Limit(), alive0);
    FailuresBounded(meta, ids, coordinator.containerToAgent, coordinator.status, Elements(downs));
  }

  /** The agents have room for the chunks of the stripe, n or more within the limit. */
  ghost predicate Spacious(agents: map<string, AgentInfo>, order: seq<string>, policy: Policy, meta: CodingMeta,
                           size: nat)
    requires meta.Valid()
  {
    AllRoomy(agents, Elements(order), Demand({}, size, meta.k)) && Supply(agents, order, policy, meta.Limit()) >= meta.n
  }

  /** Agents with m containers each, with room, have room for the stripe if m times f is within n - k, and n fit. */
  lemma StockedIsSpacious(agents: map<string, AgentInfo>, order: seq<string>, policy: Policy, meta: CodingMeta,
                          size: nat, m: nat)
    requires meta.Valid() && if meta.f > 0 then meta.f * m <= meta.n - meta.k else m <= meta.n
    requires forall a :: 0 <= a < |order| ==>
               order[a] in agents && Stocked(agents[order[a]], policy, meta.k, size, m)
    requires meta.n <= |order| * m
    ensures Spacious(agents, order, policy, meta, size)
  {
    hide AllRoomy, Supply, Stocked;
    StockedSuffices(agents, order, policy, meta, size, m);
  }

  /** Chooses containers for all chunks of a stripe that has none yet. */
  method PlaceStripe(coordinator: Coordinator, spares: array<int>, size: nat, meta: CodingMeta, policy: Policy,
                     order: seq<string>)
    returns (selected: nat, ghost demand: Demand)
    requires coordinator.Valid() && meta.Valid() && spares.Length == meta.n
    requires Distinct(order) && Elements(order) == coordinator.alive
    requires AllScreenable(coordinator.agents, coordinator.alive, policy)
    modifies coordinator`agents, coordinator`startingAgent, spares
    ensures coordinator.Valid() && demand == Demand({}, size, meta.k) && selected <= meta.n
    ensures Selection(spares[..selected], coordinator.containerToAgent, old(coordinator.agents), demand, meta.Limit(),
                      coordinator.alive)
    ensures Distinct(spares[..selected])
    ensures forall x :: 0 <= x < selected ==>
              && spares[x] in coordinator.containerToAgent
              && AddrIP(coordinator.containerToAgent[spares[x]]) in coordinator.alive
    ensures Spacious(old(coordinator.agents), order, policy, meta, size) ==> selected == meta.n
  {
    hide Selection, Consistent, Distinct, Screenable, AllScreenable, OnlyStarts, AllRoomy, Supply, AllDrained, Ranked,
      Queue, ChunkSize, AddrIP;
    ghost var near;
    selected, demand, near := FindSpareContainers(coordinator, [], [], spares, meta.n, size, meta, policy, order);
    NothingInUse(demand);
  }

  /** The stripe placed on fresh containers keeps at least k chunks online whatever f agents fail. */
  method PlaceAndFail(coordinator: Coordinator, spares: array<int>, size: nat, meta: CodingMeta, policy: Policy,
                      order: seq<string>, downs: seq<string>)
    returns (selected: nat, alive: seq<bool>, numFailed: nat)
    requires coordinator.Valid() && meta.Valid() && meta.f > 0 && spares.Length == meta.n
    requires Distinct(order) && Elements(order) == coordinator.alive
    requires AllScreenable(coordinator.agents, coordinator.alive, policy)
    requires UNUSED_CONTAINER_ID !in coordinator.containerToAgent && |Elements(downs)| <= meta.f
    modifies coordinator, spares
    ensures coordinator.Valid() && selected <= meta.n && |alive| == selected && Distinct(spares[..selected])
    ensures forall i :: 0 <= i < selected ==>
              alive[i] == Online(spares[i], coordinator.containerToAgent, coordinator.status)
    ensures forall i :: 0 <= i < selected ==>
              && spares[i] in coordinator.containerToAgent
              && (alive[i] <==> AddrIP(coordinator.containerToAgent[spares[i]]) !in downs)
    ensures Spacious(old(coordinator.agents), order, policy, meta, size) ==> selected == meta.n
    ensures numFailed <= meta.n - meta.k && |AliveSet(alive)| == selected - numFailed
    ensures selected == meta.n ==> |AliveSet(alive)| >= meta.k
  {
    hide Selection, Consistent, Distinct, Screenable, AllScreenable, Online, Failures, OnlyStarts, AllRoomy, Supply;
    ghost var agents0, alive0 := coordinator.agents, coordinator.alive;
    ghost var demand;
    selected, demand := PlaceStripe(coordinator, spares, size, meta, policy, order);
    var ids := spares[..selected];
    FailAgents(coordinator, downs);
    var status := new bool[selected];
    numFailed := CheckContainerLiveness(coordinator, ids, status, true, false);
    alive := status[..];
    FewFail(coordinator, ids, agents0, demand, meta, alive0, downs);
    AliveSetCount(alive, ids, coordinator.containerToAgent, coordinator.status);
  }

  /** The containers of a stripe that are alive. */
  function Kept(ids: seq<int>, alive: seq<bool>): (kept: seq<int>)
    requires |ids| == |alive|
    ensures forall c :: c in kept <==> exists i :: 0 <= i < |ids| && alive[i] && ids[i] == c
  {
    if ids == [] then []
    else
      var last := |ids| - 1;
      var front := Kept(ids[..last], alive[..last]);
      assert forall i :: 0 <= i < last ==> ids[..last][i] == ids[i] && alive[..last][i] == alive[i];
      if alive[last] then front + [ids[last]] else front
  }

  /** What is in use at an agent is what the stripe has there. */
  lemma KeptIsInUse(kept: seq<int>, inUse: set<int>, owners: map<int, string>, ip: string)
    requires Distinct(kept) && forall c :: c in inUse <==> c in kept
    ensures Owned(kept, owners, ip) == |InUseAt(inUse, owners, ip)|
  {
    hide Owned, AddrIP;
    OwnedIdsCount(kept, owners, ip);
    forall c: int
      ensures c in OwnedIds(kept, owners, ip) <==> c in InUseAt(inUse, owners, ip)
    {
      assert c in inUse <==> c in kept;
    }
    assert OwnedIds(kept, owners, ip) == InUseAt(inUse, owners, ip);
  }

  /** Agents that are not alive have nothing of the stripe, the others no more than the limit. */
  lemma StripeWithinLimit(kept: seq<int>, chosen: seq<int>, inUse: set<int>, owners: map<int, string>,
                          alive: set<string>, limit: nat, ip: string)
    requires Distinct(kept) && forall c :: c in inUse <==> c in kept
    requires forall x :: 0 <= x < |kept| ==> kept[x] in owners && AddrIP(owners[kept[x]]) in alive
    requires forall x :: 0 <= x < |chosen| ==> chosen[x] in owners && AddrIP(owners[chosen[x]]) in alive
    requires ip in alive ==> Owned(chosen, owners, ip) + |InUseAt(inUse, owners, ip)| <= limit
    ensures Owned(kept + chosen, owners, ip) <= limit
  {
    hide Owned, AddrIP, InUseAt, Distinct;
    OwnedConcat(kept, chosen, owners, ip);
    if ip in alive {
      KeptIsInUse(kept, inUse, owners, ip);
    } else {
      OwnedByOthers(kept, owners, ip);
      OwnedByOthers(chosen, owners, ip);
    }
  }

  lemma KeptAre(ids: seq<int>, alive: seq<bool>, inUse: set<int>)
    requires |ids| == |alive|
    requires forall c :: c in inUse <==> exists i :: 0 <= i < |ids| && alive[i] && ids[i] == c
    ensures inUse == Elements(Kept(ids, alive))
  {
    hide Kept;
    forall c: int
      ensures c in inUse <==> c in Elements(Kept(ids, alive))
    {
      assert c in inUse <==> exists i :: 0 <= i < |ids| && alive[i] && ids[i] == c;
      assert c in Kept(ids, alive) <==> exists i :: 0 <= i < |ids| && alive[i] && ids[i] == c;
    }
  }

  lemma JoinIsDistinct(a: seq<int>, b: seq<int>)
    requires Distinct(a) && Distinct(b) && forall x :: 0 <= x < |b| ==> b[x] !in a
    ensures Distinct(a + b)
  {
  }

  /** Replaces the containers of a stripe that are not alive. */
  method ReplaceContainers(coordinator: Coordinator, ids: seq<int>, alive: seq<bool>, spares: array<int>, numSpare: nat,
                           size: nat, meta: CodingMeta, policy: Policy, order: seq<string>)
    returns (stripe: seq<int>)
    requires coordinator.Valid() && meta.Valid() && |ids| == |alive| && numSpare <= spares.Length
    requires Distinct(order) && Elements(order) == coordinator.alive
    requires AllScreenable(coordinator.agents, coordinator.alive, policy)
    requires !policy.LeastUsed? && Distinct(Kept(ids, alive))
    requires forall x :: 0 <= x < |Kept(ids, alive)| ==>
               && Kept(ids, alive)[x] in coordinator.containerToAgent
               && AddrIP(coordinator.containerToAgent[Kept(ids, alive)[x]]) in coordinator.alive
    requires forall ip :: ip in coordinator.alive ==>
               && ip in coordinator.agents
               && InUseEarly(coordinator.agents[ip], policy, Elements(Kept(ids, alive)), meta.Limit())
    modifies coordinator`agents, coordinator`startingAgent, spares
    ensures coordinator.Valid() && Kept(ids, alive) <= stripe && Distinct(stripe)
    ensures |stripe| <= |Kept(ids, alive)| + numSpare
    ensures forall x :: 0 <= x < |stripe| ==>
              && stripe[x] in coordinator.containerToAgent
              && AddrIP(coordinator.containerToAgent[stripe[x]]) in coordinator.alive
    ensures forall ip :: Owned(stripe, coordinator.containerToAgent, ip) <= meta.Limit()
  {
    hide Selection, Consistent, Screenable, AllScreenable, OnlyStarts, AllRoomy, Supply, AllDrained, Ranked, Queue,
      InUseEarly, Roomy, InUseAt, Owned, AddrIP, ChunkSize, Distinct;
    var kept := Kept(ids, alive);
    ghost var demand, near;
    var selected;
    selected, demand, near := FindSpareContainers(coordinator, ids, alive, spares, numSpare, size, meta, policy, order);
    var chosen := spares[..selected];
    stripe := kept + chosen;
    KeptAre(ids, alive, demand.inUse);
    JoinIsDistinct(kept, chosen);
    forall ip: string {
      StripeWithinLimit(kept, chosen, demand.inUse, coordinator.containerToAgent, coordinator.alive, meta.Limit(), ip);
    }
  }

  /**
   The containers of a stripe that are not alive are replaced. If every agent looks at those in use in time, the stripe
   has again no more than the limit per agent, and if it is whole, keeps k chunks online whatever f agents fail.
   */
  method ReplaceAndFail(coordinator: Coordinator, ids: seq<int>, alive: seq<bool>, spares: array<int>, numSpare: nat,
                        size: nat, meta: CodingMeta, policy: Policy, order: seq<string>, downs: seq<string>)
    returns (stripe: seq<int>, online: seq<bool>, numFailed: nat)
    requires coordinator.Valid() && meta.Valid() && meta.f > 0 && |ids| == |alive| && numSpare <= spares.Length
    requires Distinct(order) && Elements(order) == coordinator.alive
    requires AllScreenable(coordinator.agents, coordinator.alive, policy)
    requires UNUSED_CONTAINER_ID !in coordinator.containerToAgent && |Elements(downs)| <= meta.f
    requires !policy.LeastUsed? && Distinct(Kept(ids, alive))
    requires forall x :: 0 <= x < |Kept(ids, alive)| ==>
               && Kept(ids, alive)[x] in coordinator.containerToAgent
               && AddrIP(coordinator.containerToAgent[Kept(ids, alive)[x]]) in coordinator.alive
    requires forall ip :: ip in coordinator.alive ==>
               && ip in coordinator.agents
               && InUseEarly(coordinator.agents[ip], policy, Elements(Kept(ids, alive)), meta.Limit())
    modifies coordinator, spares
    ensures coordinator.Valid() && coordinator.alive == old(coordinator.alive) - Elements(downs)
    ensures |stripe| == |online| && Kept(ids, alive) <= stripe && Distinct(stripe)
    ensures forall ip :: Owned(stripe, coordinator.containerToAgent, ip) <= meta.Limit()
    ensures forall x :: 0 <= x < |stripe| ==>
              && stripe[x] in coordinator.containerToAgent
              && (online[x] <==> AddrIP(coordinator.containerToAgent[stripe[x]]) !in downs)
    ensures numFailed <= meta.n - meta.k && |AliveSet(online)| == |stripe| - numFailed
    ensures |stripe| == meta.n ==> |AliveSet(online)| >= meta.k
  {
    hide Consistent, Screenable, AllScreenable, Failures, InUseEarly, Owned, AddrIP, Distinct;
    stripe := ReplaceContainers(coordinator, ids, alive, spares, numSpare, size, meta, policy, order);
    ghost var alive0 := coordinator.alive;
    FailAgents(coordinator, downs);
    var status := new bool[|stripe|];
    numFailed := CheckContainerLiveness(coordinator, stripe, status, true, false);
    online := status[..];
    forall x | 0 <= x < |stripe| {
      OnlineIsAlive(coordinator, stripe[x]);
    }
    hide Online, AliveSet;
    FailuresBounded(meta, stripe, coordinator.containerToAgent, coordinator.status, Elements(downs));
    AliveSetCount(online, stripe, coordinator.containerToAgent, coordinator.status);
  }

  /** A chunk with a container is online, or was sent to a container that fails. */
  lemma {:induction false} PlacedAlive(containers: seq<int>, spares: seq<int>, alive: seq<bool>,
                                       owners: map<int, string>, status: map<string, bool>)
    requires |containers| == |spares| == |alive|
    requires forall i :: 0 <= i < |alive| ==> containers[i] == spares[i] || containers[i] == INVALID_CONTAINER_ID
    requires forall i :: 0 <= i < |alive| ==> alive[i] == !Fails(containers[i], owners, status, false)
    ensures |AliveSet(alive)| + Failures(spares, owners, status, false) >= Placed(containers)
  {
    hide Fails, AliveSet;
    if alive != [] {
      var last := |alive| - 1;
      PlacedAlive(containers[..last], spares[..last], alive[..last], owners, status);
      AliveSetLast(alive);
    }
  }

  /** The containers chosen are real ones. */
  lemma SelectionIsReal(ids: seq<int>, owners: map<int, string>, agents: map<string, AgentInfo>, demand: Demand,
                        limit: nat, done: set<string>)
    requires demand.k > 0 && Selection(ids, owners, agents, demand, limit, done)
    ensures forall x :: 0 <= x < |ids| ==> ids[x] in owners && AddrIP(owners[ids[x]]) in done
  {
    hide AddrIP, Demand.MetBy, Owned, InUseAt;
    forall x | 0 <= x < |ids|
      ensures ids[x] in owners && AddrIP(owners[ids[x]]) in done
    {
      assert Eligible(ids[x], owners, agents, demand, limit, done);
    }
  }

  /** Reads a stripe just written, through the containers that are online. */
  method ReadWritten(agents: Agents, sc: StorageClass, metas: seq<ChunkMeta>, containers: seq<int>, alive: seq<bool>,
                     network: Event -> Delivery, invert: Matrix -> Option<Matrix>, firstId: nat, ghost version: nat,
                     ghost stripe: nat, ghost data: seq<Byte>)
    returns (result: Option<seq<Byte>>, a: Access, ghost log: Log)
    requires agents.Valid() && sc.Valid()
    requires StripeStored(agents.store, sc, version, data, stripe, metas, containers)
    requires |alive| == sc.code.n
    requires Serves(network, agents.store, agents.verify, sc.md5) && SoundInverter(invert, sc.code.k)
    ensures a == Access(Get, metas, containers, agents.verify, sc.md5, network) && a.Valid() && |a.chunks| == |alive|
    ensures result.Some? ==> result.value == Padded(data, sc.code.k)
    ensures log.first == firstId && Sound(log, alive)
    ensures result.None? ==> |Reliable(a, alive, log)| < sc.code.k || InversionFails(sc.code, alive, invert)
  {
    hide Encode, Metas, Placed, Padded, Faithful, Echoes, Describes, Serves, SoundInverter, InversionFails, Reliable,
      Sound, Honest, Pos, ChunkSize;
    var reader := Reader(network, agents.verify, alive, invert, firstId);
    ghost var file := FileMeta(version, |data|, 1, metas, containers);
    a := reader.AccessTo(sc, metas, containers);
    ListedIsDescribed(agents.store, sc, version, data, stripe, metas, containers, reader, file);
    StoredIsFaithful(agents.store, sc, version, data, stripe, metas, containers, reader, file);
    var nextId;
    result, nextId, log := ReadStripe(sc.code, a, alive, invert, firstId, data, Pos(stripe, sc.code.n));
  }

  /** Chooses containers for a stripe of a file and writes it to them. */
  method PlaceAndWrite(coordinator: Coordinator, agents: Agents, sc: StorageClass, spares: array<int>, size: nat,
                       meta: CodingMeta, policy: Policy, order: seq<string>, version: nat, stripe: nat, data: seq<Byte>)
    returns (placed: bool, written: bool, containers: seq<int>, metas: seq<ChunkMeta>, ghost demand: Demand)
    requires coordinator.Valid() && meta.Valid() && spares.Length == meta.n
    requires Distinct(order) && Elements(order) == coordinator.alive
    requires AllScreenable(coordinator.agents, coordinator.alive, policy)
    requires INVALID_CONTAINER_ID !in coordinator.containerToAgent && data != []
    requires agents.Valid() && sc.Valid() && sc.md5 == agents.md5 && sc.code.n == meta.n && sc.code.k == meta.k
    modifies coordinator`agents, coordinator`startingAgent, agents, spares
    ensures coordinator.Valid() && agents.Valid() && demand.k == meta.k
    ensures Spacious(old(coordinator.agents), order, policy, meta, size) ==> placed
    ensures placed ==>
              Selection(spares[..], coordinator.containerToAgent, old(coordinator.agents), demand, meta.Limit(),
                        coordinator.alive)
    ensures placed && Healthy(agents.verify, agents.put) ==> written && containers == spares[..]
    ensures written ==> placed && StripeStored(agents.store, sc, version, data, stripe, metas, containers)
    ensures written ==>
              && |containers| == meta.n
              && forall i :: 0 <= i < meta.n ==> containers[i] == spares[i] || containers[i] == INVALID_CONTAINER_ID
  {
    hide Selection, Consistent, Distinct, Screenable, AllScreenable, OnlyStarts, Placed, Encode, Metas, Honest, Healthy,
      AllRoomy, Supply, Written, AllWritten, Undoable, Traceless, Confirmed, Has, SameOutside, Pos, ChunkSize,
      StorageClass.StripeSize, Spacious, AddrIP, PutAt, Acknowledged;
    written, containers, metas := false, [], [];
    var selected;
    selected, demand := PlaceStripe(coordinator, spares, size, meta, policy, order);
    placed := selected == meta.n;
    if placed {
      var ids := spares[..selected];
      assert ids == spares[..];
      var stripeSize := FullStripe(sc);
      written, containers, metas := WriteFileStripe(agents, sc.code, version, data, Pos(stripe, stripeSize), stripeSize,
                                                    ids, false, stripe);
      HealthyKeepsAll(agents, old(agents.nextEvent), ids, metas, Encode(sc.code, data), containers);
    }
  }

  lemma HealthyKeepsAll(agents: Agents, event: nat, ids: seq<int>, metas: seq<ChunkMeta>, encoded: seq<Chunk>,
                        containers: seq<int>)
    requires |metas| == |encoded| == |containers| == |ids| && INVALID_CONTAINER_ID !in ids
    requires forall i :: 0 <= i < |metas| ==>
               containers[i] == if Written(agents, event, ids, metas, encoded, i) then ids[i] else INVALID_CONTAINER_ID
    ensures Healthy(agents.verify, agents.put) ==> containers == ids
  {
    hide Written, Healthy, AllWritten, Placed;
    if Healthy(agents.verify, agents.put) {
      HealthyWritesAll(agents, event, ids, metas, encoded);
      KeepsAll(agents, event, ids, metas, encoded, containers);
    }
  }

  /** Lets agents fail, and checks which of the containers of the stripe are online. */
  method FailAndCheck(coordinator: Coordinator, ids: seq<int>, containers: seq<int>, downs: seq<string>,
                      ghost meta: CodingMeta, ghost agents0: map<string, AgentInfo>, ghost demand: Demand)
    returns (alive: seq<bool>)
    requires coordinator.Valid() && meta.Valid() && meta.f > 0 && demand.k > 0 && |Elements(downs)| <= meta.f
    requires UNUSED_CONTAINER_ID !in coordinator.containerToAgent
    requires Selection(ids, coordinator.containerToAgent, agents0, demand, meta.Limit(), coordinator.alive)
    requires |ids| == |containers|
    requires forall i :: 0 <= i < |ids| ==> containers[i] == ids[i] || containers[i] == INVALID_CONTAINER_ID
    modifies coordinator
    ensures |alive| == |containers| && coordinator.Valid()
    ensures coordinator.containerToAgent == old(coordinator.containerToAgent)
    ensures coordinator.alive == old(coordinator.alive) - Elements(downs)
    ensures forall i :: 0 <= i < |ids| ==>
              alive[i] == Online(containers[i], coordinator.containerToAgent, coordinator.status)
    // a container is online exactly when it was written and its agent is not one of those that failed
    ensures INVALID_CONTAINER_ID !in coordinator.containerToAgent ==>
              forall i :: 0 <= i < |ids| ==>
                && ids[i] in coordinator.containerToAgent
                && (alive[i] <==> && containers[i] == ids[i]
                                  && AddrIP(coordinator.containerToAgent[ids[i]]) !in downs)
    ensures |AliveSet(alive)| + (meta.n - meta.k) >= Placed(containers)
  {
    hide Online, Selection, Consistent, Failures, Placed;
    ghost var alive0 := coordinator.alive;
    SelectionIsReal(ids, coordinator.containerToAgent, agents0, demand, meta.Limit(), alive0);
    FailAgents(coordinator, downs);
    var status := new bool[|containers|];
    var numFailed := CheckContainerLiveness(coordinator, containers, status, true, false);
    alive := status[..];
    FewFail(coordinator, ids, agents0, demand, meta, alive0, downs);
    PlacedAlive(containers, ids, alive, coordinator.containerToAgent, coordinator.status);
  }

  /**
   End to end: a stripe of a file is placed and written, any f agents fail, and the stripe is read
   from the containers it was written to. Of the chunks acknowledged at most n - k are lost; if the others
   answer and are k or more, and the library inverts the rows of any k of them, the data comes back.
   */
  method ReadAfterFailures(coordinator: Coordinator, agents: Agents, sc: StorageClass, spares: array<int>, size: nat,
                           meta: CodingMeta, policy: Policy, order: seq<string>, downs: seq<string>, version: nat,
                           stripe: nat, data: seq<Byte>, serve: Store -> (Event -> Delivery),
                           invert: Matrix -> Option<Matrix>, firstId: nat)
    returns (placed: bool, written: bool, containers: seq<int>, alive: seq<bool>, result: Option<seq<Byte>>,
             a: Access, ghost log: Log)
    requires coordinator.Valid() && meta.Valid() && meta.f > 0 && spares.Length == meta.n
    requires Distinct(order) && Elements(order) == coordinator.alive
    requires AllScreenable(coordinator.agents, coordinator.alive, policy)
    requires UNUSED_CONTAINER_ID !in coordinator.containerToAgent
    requires INVALID_CONTAINER_ID !in coordinator.containerToAgent
    requires |Elements(downs)| <= meta.f && data != []
    requires agents.Valid() && sc.Valid() && sc.md5 == agents.md5 && sc.code.n == meta.n && sc.code.k == meta.k
    requires SoundInverter(invert, sc.code.k)
    requires forall store :: Serves(serve(store), store, agents.verify, sc.md5)
    modifies coordinator, agents, spares
    ensures coordinator.Valid() && coordinator.containerToAgent == old(coordinator.containerToAgent)
    ensures Spacious(old(coordinator.agents), order, policy, meta, size) ==> placed
    ensures placed && Healthy(agents.verify, agents.put) ==> written && containers == spares[..]
    ensures written ==> placed && |alive| == |containers| == meta.n && Placed(containers) >= meta.k
    ensures written ==> coordinator.alive == old(coordinator.alive) - Elements(downs)
    ensures written ==>
              forall i :: 0 <= i < meta.n ==> containers[i] == spares[i] || containers[i] == INVALID_CONTAINER_ID
    ensures written ==>
              forall i :: 0 <= i < meta.n ==>
                alive[i] == Online(containers[i], coordinator.containerToAgent, coordinator.status)
    // a container is online exactly when it was written and its agent is not one of those that failed
    ensures written ==>
              forall i :: 0 <= i < meta.n ==>
                && spares[i] in coordinator.containerToAgent
                && (alive[i] <==> && containers[i] == spares[i]
                                  && AddrIP(coordinator.containerToAgent[spares[i]]) !in downs)
    ensures written ==> |AliveSet(alive)| + (meta.n - meta.k) >= Placed(containers)
    ensures written ==>
              a.Valid() && |a.chunks| == meta.n && a.network == serve(agents.store) && a.containers == containers
    ensures written ==>
              && a == Access(Get, a.chunks, containers, agents.verify, sc.md5, serve(agents.store))
              && StripeStored(agents.store, sc, version, data, stripe, a.chunks, containers)
    // with k chunks online that answer the requests sent for them, only the inversion can fail
    ensures written && |Reliable(a, alive, log)| >= meta.k ==> result.Some? || InversionFails(sc.code, alive, invert)
    ensures written && (forall i: nat :: i < meta.n && alive[i] ==> !Unanswered(a, log, i)) ==>
              |Reliable(a, alive, log)| + (meta.n - meta.k) >= Placed(containers)
    ensures result.Some? ==> result.value == Padded(data, meta.k)
  {
    hide Online, Selection, Consistent, Distinct, Screenable, AllScreenable, Placed, Padded, Encode, Metas, Serves,
      Spacious, SoundInverter, InversionFails, Unanswered, Honest, Healthy, Has, Pos;
    ghost var agents0 := coordinator.agents;
    ghost var demand;
    var metas;
    alive, result, log := [], None, Log(firstId, []);
    a := Access(Get, [], [], agents.verify, sc.md5, serve(agents.store));
    placed, written, containers, metas, demand := PlaceAndWrite(coordinator, agents, sc, spares, size, meta, policy,
                                                                order, version, stripe, data);
    if written {
      alive := FailAndCheck(coordinator, spares[..], containers, downs, meta, agents0, demand);
      result, a, log := ReadWritten(agents, sc, metas, containers, alive, serve(agents.store), invert, firstId, version,
                                    stripe, data);
      if forall i: nat :: i < meta.n && alive[i] ==> !Unanswered(a, log, i) {
        assert Reliable(a, alive, log) == AliveSet(alive);
      }
    }
  }

  /** With all containers written, the chunks online are k or more, and all of them answer. */
  lemma OnlineSuffice(store: Store, sc: StorageClass, version: nat, data: seq<Byte>, stripe: nat, metas: seq<ChunkMeta>,
                      containers: seq<int>, verify: bool, alive: seq<bool>, log: Log)
    requires sc.Valid() && StripeStored(store, sc, version, data, stripe, metas, containers)
    requires |alive| == sc.code.n && INVALID_CONTAINER_ID !in containers
    requires |AliveSet(alive)| + (sc.code.n - sc.code.k) >= Placed(containers)
    ensures var a := Access(Get, metas, containers, verify, sc.md5, HealthyRun.Replies(store));
            a.Valid() && |Reliable(a, alive, log)| >= sc.code.k
  {
    hide Encode, Metas, Pos, Placed, Has, HealthyRun.Replies, Access.Accepts, Reliable;
    AllPlaced(containers, containers, sc.code.n);
    HealthyRun.UpIsReliable(store, sc, version, data, stripe, metas, containers, verify, alive, log);
    assert HealthyRun.Up(alive, containers) == AliveSet(alive);
  }

  /**
   The promise in full: agents with room, that acknowledge what they get and answer with what they have, and a library
   that inverts the rows of any k chunks. Then a stripe is placed and written, and whatever f agents fail, it is
   read back.
   */
  method SurvivesFailures(coordinator: Coordinator, agents: Agents, sc: StorageClass, spares: array<int>, size: nat,
                          meta: CodingMeta, policy: Policy, order: seq<string>, downs: seq<string>, version: nat,
                          stripe: nat, data: seq<Byte>, invert: Matrix -> Option<Matrix>, firstId: nat,
                          ghost perAgent: nat)
    returns (bytes: seq<Byte>)
    requires coordinator.Valid() && meta.Valid() && meta.f > 0 && spares.Length == meta.n
    requires Distinct(order) && Elements(order) == coordinator.alive
    requires AllScreenable(coordinator.agents, coordinator.alive, policy)
    requires UNUSED_CONTAINER_ID !in coordinator.containerToAgent
    requires INVALID_CONTAINER_ID !in coordinator.containerToAgent
    requires meta.f * perAgent <= meta.n - meta.k && meta.n <= |order| * perAgent
    requires forall ip :: ip in coordinator.alive ==>
               ip in coordinator.agents && Stocked(coordinator.agents[ip], policy, meta.k, size, perAgent)
    requires |Elements(downs)| <= meta.f && data != []
    requires agents.Valid() && sc.Valid() && sc.md5 == agents.md5 && sc.code.n == meta.n && sc.code.k == meta.k
    requires Healthy(agents.verify, agents.put)
    requires SoundInverter(invert, sc.code.k) && HealthyRun.Complete(invert, sc.code)
    modifies coordinator, agents, spares
    ensures |data| <= |bytes| && bytes[..|data|] == data
    ensures coordinator.alive == old(coordinator.alive) - Elements(downs)
  {
    hide Selection, Consistent, Distinct, Screenable, AllScreenable, Stocked, Spacious, Placed, Padded, Encode, Metas,
      SoundInverter, Honest, Healthy, Has, Pos, HealthyRun.Replies, Serves, Reliable, AddrIP, Online;
    forall store: Store {
      HealthyRun.RepliesServe(store, agents.verify, sc.md5);
    }
    assert forall x :: 0 <= x < |order| ==> order[x] in Elements(order);
    StockedIsSpacious(coordinator.agents, order, policy, meta, size, perAgent);
    var placed, written, containers, alive, result, a;
    ghost var log;
    placed, written, containers, alive, result, a, log :=
      ReadAfterFailures(coordinator, agents, sc, spares, size, meta, policy, order, downs, version, stripe, data,
                        store => HealthyRun.Replies(store), invert, firstId);
    OnlineSuffice(agents.store, sc, version, data, stripe, a.chunks, containers, agents.verify, alive, log);
    assert !InversionFails(sc.code, alive, invert);
    PaddedStarts(data, meta.k);
    bytes := result.value;
  }

  lemma PaddedStarts(data: seq<Byte>, k: nat)
    requires k > 0
    ensures |data| <= |Padded(data, k)| && Padded(data, k)[..|data|] == data
  {
  }
}
