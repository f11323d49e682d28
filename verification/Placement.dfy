/**
 Choosing containers for new chunks, src/proxy/coordinator.cc: agent by agent, at most `Limit` of each,
 skipping containers that are in use or too full, and putting off the agents of low priority.
 */
module Placement {
  import opened Sequences
  import opened Address
  import opened Registry
  import Blocks
  import ReedSolomon

  datatype Policy = Static | RoundRobin | LeastUsed

  /** The coding of a stripe: n chunks, any k of them enough, f agents allowed to fail (0: not considered). */
  datatype CodingMeta = CodingMeta(n: nat, k: nat, f: nat) {
    ghost predicate Valid() {
      0 < k <= n
    }

    function Limit(): nat
      requires k <= n
    {
      if f > 0 then (n - k) / f else n
    }
  }

  /** What is asked of a container: not one in use, and room for one chunk of the stripe. */
  datatype Demand = Demand(inUse: set<int>, size: nat, k: nat) {
    predicate HasRoom(c: Container)
      requires k > 0
    {
      c.usage + (size + 2 * k) / k <= c.capacity
    }

    ghost predicate MetBy(info: AgentInfo, id: int)
      requires k > 0
    {
      && id !in inUse
      && exists i :: 0 <= i < |info.containers| && info.containers[i].id == id && HasRoom(info.containers[i])
    }
  }

  /** Indices the screening starts from are indices of containers. */
  predicate Screenable(info: AgentInfo, policy: Policy) {
    if policy.LeastUsed? then
      Distinct(info.byUsage) && forall u :: 0 <= u < |info.byUsage| ==> info.byUsage[u] < |info.containers|
    else
      |info.containers| > 0 ==> info.startIndex < |info.containers|
  }

  /** Moving on to the next of n indices, from the last to the first. */
  function Next(i: nat, n: nat): (j: nat)
    requires n > 0
    ensures j < n && (i < n ==> j == if i + 1 == n then 0 else i + 1)
  {
    (i + 1) % n
  }

  /** The containers in the order they are screened while none is in use. */
  ghost function Route(info: AgentInfo, policy: Policy): (route: seq<nat>)
    requires Screenable(info, policy)
    ensures Distinct(route) && forall t :: 0 <= t < |route| ==> route[t] < |info.containers|
  {
    if policy.LeastUsed? then info.byUsage
    else
      var n := |info.containers|;
      seq(n, t => if info.startIndex + t < n then info.startIndex + t else info.startIndex + t - n)
  }

  /** The container at step t of the route has this id. */
  ghost predicate Passed(info: AgentInfo, route: seq<nat>, t: nat, id: int) {
    t < |route| && route[t] < |info.containers| && info.containers[route[t]].id == id
  }

  /** The ids found so far are of containers on the route before `step`. */
  ghost predicate Behind(found: seq<int>, info: AgentInfo, route: seq<nat>, step: nat) {
    forall x :: 0 <= x < |found| ==> Met(info, route, step, found[x])
  }

  ghost predicate Met(info: AgentInfo, route: seq<nat>, step: nat, id: int) {
    exists t: nat :: t < step && Passed(info, route, t, id)
  }

  lemma NextIsNew(found: seq<int>, info: AgentInfo, route: seq<nat>, step: nat)
    requires (forall t :: 0 <= t < |route| ==> route[t] < |info.containers|) && Distinct(route)
    requires Distinct(Ids(info.containers))
    requires Behind(found, info, route, step) && step < |route|
    ensures info.containers[route[step]].id !in found
    ensures Behind(found + [info.containers[route[step]].id], info, route, step + 1)
  {
    var id := info.containers[route[step]].id;
    forall x | 0 <= x < |found|
      ensures found[x] != id
    {
      assert Met(info, route, step, found[x]);
      var t: nat :| t < step && Passed(info, route, t, found[x]);
      assert Ids(info.containers)[route[t]] == found[x] && Ids(info.containers)[route[step]] == id;
    }
    assert Passed(info, route, step, id);
    BehindGrows(found, info, route, step);
  }

  lemma BehindGrows(found: seq<int>, info: AgentInfo, route: seq<nat>, step: nat)
    requires Behind(found, info, route, step)
    ensures Behind(found, info, route, step + 1)
  {
    forall x | 0 <= x < |found|
      ensures Met(info, route, step + 1, found[x])
    {
      assert Met(info, route, step, found[x]);
    }
  }

  /** `spares` after `found` is written from position `from`. */
  ghost predicate WrittenAt(before: seq<int>, after: seq<int>, from: nat, found: seq<int>) {
    && |after| == |before| && from + |found| <= |after|
    && after[..from] == before[..from] && after[from..from + |found|] == found
  }

  lemma WritesNext(before: seq<int>, after: seq<int>, from: nat, found: seq<int>, id: int)
    requires WrittenAt(before, after, from, found) && from + |found| < |after|
    ensures WrittenAt(before, after[from + |found| := id], from, found + [id])
  {
    var next := after[from + |found| := id];
    assert next[..from] == after[..from];
    assert next[from..from + |found| + 1] == after[from..from + |found|] + [id];
  }

  /** Of the containers on the route before `step`, those that are not in use are among `ids`. */
  ghost predicate Covers(ids: seq<int>, info: AgentInfo, route: seq<nat>, step: nat, inUse: set<int>) {
    forall t :: 0 <= t < step && t < |route| && route[t] < |info.containers| ==>
      info.containers[route[t]].id in inUse || info.containers[route[t]].id in ids
  }

  lemma CoversMore(ids: seq<int>, more: seq<int>, info: AgentInfo, route: seq<nat>, step: nat, inUse: set<int>)
    requires Covers(ids, info, route, step, inUse) && forall x :: 0 <= x < |ids| ==> ids[x] in more
    ensures Covers(more, info, route, step, inUse)
  {
  }

  /** The containers on the route before `step` are in use or have room. */
  ghost predicate Open(info: AgentInfo, route: seq<nat>, step: nat, demand: Demand)
    requires demand.k > 0
  {
    forall t :: 0 <= t < step && t < |route| && route[t] < |info.containers| ==>
      info.containers[route[t]].id in demand.inUse || demand.HasRoom(info.containers[route[t]])
  }

  /** The screening has come `step` containers along the route, and found different ids on it. */
  ghost predicate OnRoute(info: AgentInfo, policy: Policy, demand: Demand, screened: nat, step: nat, u: nat, cidx: nat,
                          found: seq<int>)
    requires demand.k > 0
  {
    && Screenable(info, policy) && Distinct(Ids(info.containers)) && Distinct(found)
    && Behind(found, info, Route(info, policy), step) && Covers(found, info, Route(info, policy), step, demand.inUse)
    && Open(info, Route(info, policy), step, demand)
    && (step < |Route(info, policy)| ==> cidx == Route(info, policy)[step])
    && step <= screened <= |Route(info, policy)| && (policy.LeastUsed? ==> u == step && demand.inUse == {})
    && (step < screened ==> Stuck(info, demand, cidx))
  }

  /** A container that is too full and not in use is looked at again and again. */
  ghost predicate Stuck(info: AgentInfo, demand: Demand, cidx: nat)
    requires demand.k > 0
  {
    && cidx < |info.containers| && info.containers[cidx].id !in demand.inUse
    && !demand.HasRoom(info.containers[cidx])
  }

  /**
   All of the agent that is not in use is among `ids`, as far as the first container too full for a chunk, or
   up to the limit. Containers are looked at from the starting index on, or from the least used one.
   */
  ghost predicate Drained(ids: seq<int>, info: AgentInfo, policy: Policy, demand: Demand, limit: nat) {
    Screenable(info, policy) && demand.k > 0 && exists step: nat :: StopsAt(ids, info, policy, demand, limit, step)
  }

  ghost predicate StopsAt(ids: seq<int>, info: AgentInfo, policy: Policy, demand: Demand, limit: nat, step: nat)
    requires Screenable(info, policy) && demand.k > 0
  {
    var route := Route(info, policy);
    && Covers(ids, info, route, step, demand.inUse)
    && (|| step == limit || step == |route|
        || (step < |route| && var c := info.containers[route[step]];
            && c.id !in demand.inUse && !demand.HasRoom(c)
            && c.usage + ReedSolomon.ChunkSize(demand.k, demand.size) + 2 > c.capacity))
  }

  /** Room for a chunk in the sense of the screening, and room for the chunk that will be stored. */
  lemma RoomForChunk(demand: Demand, c: Container)
    requires demand.k > 0
    ensures demand.HasRoom(c) ==> c.usage + ReedSolomon.ChunkSize(demand.k, demand.size) <= c.capacity
    ensures !demand.HasRoom(c) ==> c.usage + ReedSolomon.ChunkSize(demand.k, demand.size) + 2 > c.capacity
  {
    var k, size := demand.k, demand.size;
    var q, r := size / k, size % k;
    Blocks.ModUnique(size + 2 * k, q + 2, r, k);
    if r == 0 {
      Blocks.ModUnique(size + k - 1, q, k - 1, k);
    } else {
      Blocks.ModUnique(size + k - 1, q + 1, r - 1, k);
    }
  }

  lemma RouteStarts(info: AgentInfo, policy: Policy, demand: Demand, cidx: nat)
    requires demand.k > 0 && Screenable(info, policy) && Distinct(Ids(info.containers))
    requires policy.LeastUsed? ==> demand.inUse == {}
    requires cidx == if policy.LeastUsed? && info.byUsage != [] then info.byUsage[0] else info.startIndex
    ensures OnRoute(info, policy, demand, 0, 0, 0, cidx, [])
  {
    hide Demand.HasRoom;
  }

  lemma RouteSkips(info: AgentInfo, policy: Policy, demand: Demand, screened: nat, step: nat, u: nat, cidx: nat,
                   found: seq<int>, next: nat)
    requires demand.k > 0 && OnRoute(info, policy, demand, screened, step, u, cidx, found)
    requires screened < |Route(info, policy)| && cidx < |info.containers|
    requires info.containers[cidx].id in demand.inUse
    requires !policy.LeastUsed? ==> next == Next(cidx, |info.containers|)
    ensures OnRoute(info, policy, demand, screened + 1, step + 1, u, next, found)
  {
    hide Next, Demand.HasRoom;
    BehindGrows(found, info, Route(info, policy), step);
  }

  lemma RouteStops(info: AgentInfo, policy: Policy, demand: Demand, screened: nat, step: nat, u: nat, cidx: nat,
                   found: seq<int>)
    requires demand.k > 0 && OnRoute(info, policy, demand, screened, step, u, cidx, found)
    requires screened < |Route(info, policy)| && cidx < |info.containers|
    requires info.containers[cidx].id !in demand.inUse && !demand.HasRoom(info.containers[cidx])
    ensures OnRoute(info, policy, demand, screened + 1, step, u, cidx, found)
  {
    hide Demand.HasRoom, Route, Behind, Covers, Distinct, Screenable, Open;
  }

  lemma RouteTakes(info: AgentInfo, policy: Policy, demand: Demand, screened: nat, step: nat, u: nat, cidx: nat,
                   found: seq<int>, next: nat)
    requires demand.k > 0 && OnRoute(info, policy, demand, screened, step, u, cidx, found)
    requires screened < |Route(info, policy)| && cidx < |info.containers|
    requires demand.HasRoom(info.containers[cidx])
    requires if policy.LeastUsed? then u + 1 < |info.byUsage| ==> next == info.byUsage[u + 1]
             else next == Next(cidx, |info.containers|)
    ensures OnRoute(info, policy, demand, screened + 1, step + 1, u + 1, next, found + [info.containers[cidx].id])
  {
    hide Next, Demand.HasRoom;
    NextIsNew(found, info, Route(info, policy), step);
  }

  /** The container is among the first `limit` that are looked at, and all before it are in use or have room. */
  ghost predicate OnWay(info: AgentInfo, policy: Policy, demand: Demand, limit: nat, id: int)
    requires demand.k > 0
  {
    Screenable(info, policy) &&
    exists t: nat :: t < limit && Passed(info, Route(info, policy), t, id) && Open(info, Route(info, policy), t, demand)
  }

  ghost predicate AllOnWay(info: AgentInfo, policy: Policy, demand: Demand, limit: nat, ids: seq<int>)
    requires demand.k > 0
  {
    forall x :: 0 <= x < |ids| ==> OnWay(info, policy, demand, limit, ids[x])
  }

  lemma RouteEnds(info: AgentInfo, policy: Policy, demand: Demand, screened: nat, step: nat, u: nat, cidx: nat,
                  found: seq<int>, limit: nat)
    requires demand.k > 0 && OnRoute(info, policy, demand, screened, step, u, cidx, found) && step <= limit
    ensures Distinct(found) && AllOnWay(info, policy, demand, limit, found)
    ensures screened == |Route(info, policy)| || step == limit || (policy.LeastUsed? && u == |info.byUsage|) ==>
              Drained(found, info, policy, demand, limit)
  {
    hide Distinct, Covers, Demand.HasRoom, ReedSolomon.ChunkSize;
    forall x | 0 <= x < |found|
      ensures OnWay(info, policy, demand, limit, found[x])
    {
      assert Met(info, Route(info, policy), step, found[x]);
      var t: nat :| t < step && Passed(info, Route(info, policy), t, found[x]);
      assert Open(info, Route(info, policy), t, demand);
    }
    if cidx < |info.containers| {
      RoomForChunk(demand, info.containers[cidx]);
    }
    if screened == |Route(info, policy)| || step == limit || (policy.LeastUsed? && u == |info.byUsage|) {
      assert StopsAt(found, info, policy, demand, limit, step);
    }
  }

  ghost predicate AllMet(demand: Demand, info: AgentInfo, found: seq<int>)
    requires demand.k > 0
  {
    forall x :: 0 <= x < |found| ==> demand.MetBy(info, found[x])
  }

  lemma OneMoreMet(demand: Demand, info: AgentInfo, found: seq<int>, cidx: nat)
    requires demand.k > 0 && AllMet(demand, info, found) && cidx < |info.containers|
    requires info.containers[cidx].id !in demand.inUse && demand.HasRoom(info.containers[cidx])
    ensures AllMet(demand, info, found + [info.containers[cidx].id])
  {
  }

  lemma IndicesFit(info: AgentInfo, policy: Policy)
    requires Screenable(info, policy)
    ensures policy.LeastUsed? ==>
              && |info.byUsage| <= |info.containers|
              && forall u :: 0 <= u < |info.byUsage| ==> info.byUsage[u] < |info.containers|
    ensures !policy.LeastUsed? && |info.containers| > 0 ==> info.startIndex < |info.containers|
  {
    if policy.LeastUsed? {
      DistinctBelow(info.byUsage, |info.containers|);
    }
  }

  /** The state of the selection: what was found is in `spares`, or postponed. */
  ghost predicate Recorded(before: seq<int>, after: seq<int>, low: bool, placed0: nat, placed: nat,
                           postponed0: seq<int>, postponed: seq<int>, found: seq<int>)
  {
    && placed == (if low then placed0 else placed0 + |found|)
    && postponed == (if low then postponed0 + found else postponed0)
    && WrittenAt(before, after, placed0, if low then [] else found)
  }

  lemma NothingFound(s: seq<int>, low: bool, placed: nat, postponed: seq<int>, demand: Demand, info: AgentInfo)
    requires placed <= |s| && demand.k > 0
    ensures Recorded(s, s, low, placed, placed, postponed, postponed, []) && AllMet(demand, info, [])
  {
  }

  method Record(id: int, low: bool, spares: array<int>, placed: nat, postponed: seq<int>, ghost before: seq<int>,
                ghost placed0: nat, ghost postponed0: seq<int>, ghost found: seq<int>)
    returns (placed': nat, postponed': seq<int>)
    requires placed < spares.Length && Recorded(before, spares[..], low, placed0, placed, postponed0, postponed, found)
    modifies spares
    ensures placed' == if low then placed else placed + 1
    ensures Recorded(before, spares[..], low, placed0, placed', postponed0, postponed', found + [id])
  {
    placed', postponed' := placed, postponed;
    if low {
      postponed' := postponed + [id];
    } else {
      WritesNext(before, spares[..], placed0, found, id);
      ghost var now := spares[..];
      spares[placed] := id;
      assert spares[..] == now[placed := id];
      placed' := placed + 1;
    }
  }

  /** What an agent can give: its containers, up to the limit. */
  ghost function Offer(info: AgentInfo, policy: Policy, limit: nat): nat {
    var count := if policy.LeastUsed? then |info.byUsage| else |info.containers|;
    if count < limit then count else limit
  }

  ghost predicate Roomy(info: AgentInfo, demand: Demand)
    requires demand.k > 0
  {
    forall i :: 0 <= i < |info.containers| ==> demand.HasRoom(info.containers[i])
  }

  /** How the counters of the screening go together. */
  ghost predicate Pace(info: AgentInfo, policy: Policy, demand: Demand, low: bool, screened: nat, selected: nat, u: nat,
                       cidx: nat, startIndex: nat, found: seq<int>)
    requires demand.k > 0
  {
    && (|info.containers| > 0 && info.startIndex < |info.containers| ==> startIndex < |info.containers|)
    && (startIndex != info.startIndex ==> policy.RoundRobin? && !low && found != [])
    && (demand.inUse == {} ==>
          selected == |found| && (policy.LeastUsed? ==> u == |found|) && (Roomy(info, demand) ==> screened == |found|))
    && (demand.inUse == {} && policy.RoundRobin? && !low ==>
          if found == [] then cidx == info.startIndex
          else |info.containers| > 0 && startIndex == Next(info.startIndex, |info.containers|))
  }

  lemma PaceStarts(info: AgentInfo, policy: Policy, demand: Demand, low: bool, cidx: nat)
    requires demand.k > 0 && (!policy.LeastUsed? ==> cidx == info.startIndex)
    ensures Pace(info, policy, demand, low, 0, 0, 0, cidx, info.startIndex, [])
  {
  }

  lemma PaceSkips(info: AgentInfo, policy: Policy, demand: Demand, low: bool, screened: nat, selected: nat, u: nat,
                  cidx: nat, startIndex: nat, found: seq<int>, next: nat)
    requires demand.k > 0 && Pace(info, policy, demand, low, screened, selected, u, cidx, startIndex, found)
    requires cidx < |info.containers|
    ensures info.containers[cidx].id in demand.inUse ==>
              Pace(info, policy, demand, low, screened + 1, selected + 1, u, next, startIndex, found)
    ensures !demand.HasRoom(info.containers[cidx]) ==>
              Pace(info, policy, demand, low, screened + 1, selected, u, cidx, startIndex, found)
  {
    hide Demand.HasRoom, Next;
  }

  lemma PaceTakes(info: AgentInfo, policy: Policy, demand: Demand, low: bool, screened: nat, selected: nat, u: nat,
                  cidx: nat, startIndex: nat, found: seq<int>, next: nat)
    requires demand.k > 0 && Pace(info, policy, demand, low, screened, selected, u, cidx, startIndex, found)
    requires cidx < |info.containers| && |found| <= selected
    ensures var start :=
              if !low && policy.RoundRobin? && selected == 0 then Next(cidx, |info.containers|) else startIndex;
            Pace(info, policy, demand, low, screened + 1, selected + 1, u + 1, next, start,
                 found + [info.containers[cidx].id])
  {
    hide Demand.HasRoom, Next;
  }

  /** When the screening ends, nothing that fits was left out. */
  lemma PaceEnds(info: AgentInfo, policy: Policy, demand: Demand, low: bool, screened: nat, selected: nat, u: nat,
                 cidx: nat, startIndex: nat, found: seq<int>, limit: nat, placed0: nat, numSpare: nat)
    requires demand.k > 0 && Pace(info, policy, demand, low, screened, selected, u, cidx, startIndex, found)
    requires var toScreen := if policy.LeastUsed? then |info.byUsage| else |info.containers|;
             var placed := if low then placed0 else placed0 + |found|;
             && placed <= numSpare && screened <= toScreen && selected <= limit && (policy.LeastUsed? ==> u <= toScreen)
             && (|| screened == toScreen || placed == numSpare || selected == limit
                 || (policy.LeastUsed? && u == toScreen))
    ensures |info.containers| > 0 && info.startIndex < |info.containers| ==> startIndex < |info.containers|
    ensures startIndex != info.startIndex ==> policy.RoundRobin? && !low && found != []
    ensures demand.inUse == {} && policy.RoundRobin? && !low && found != [] ==>
              |info.containers| > 0 && startIndex == Next(info.startIndex, |info.containers|)
    ensures demand.inUse == {} && Roomy(info, demand) && placed0 < numSpare ==>
              |found| == if low || Offer(info, policy, limit) <= numSpare - placed0 then Offer(info, policy, limit)
                         else numSpare - placed0
  {
    hide Roomy, Next;
  }

  /**
   Screens the containers of one agent. Those found go to `spares`, or to `postponed` when the agent
   has low priority; in-use containers count towards the limit, full ones are looked at again.
   */
  method ScreenAgent(info: AgentInfo, demand: Demand, policy: Policy, limit: nat, low: bool, spares: array<int>,
                     placed0: nat, numSpare: nat, postponed0: seq<int>)
    returns (placed: nat, postponed: seq<int>, startIndex: nat, ghost found: seq<int>)
    requires demand.k > 0 && Screenable(info, policy) && placed0 <= numSpare <= spares.Length
    requires policy.LeastUsed? ==> info.byUsage != []
    modifies spares
    ensures Recorded(old(spares[..]), spares[..], low, placed0, placed, postponed0, postponed, found)
    ensures placed <= numSpare
    ensures |found| <= limit && AllMet(demand, info, found)
    ensures (policy.LeastUsed? ==> demand.inUse == {}) && Distinct(Ids(info.containers)) ==>
              && Distinct(found) && AllOnWay(info, policy, demand, limit, found)
              && (placed < numSpare ==> Drained(found, info, policy, demand, limit))
    ensures |info.containers| > 0 && info.startIndex < |info.containers| ==> startIndex < |info.containers|
    ensures startIndex != info.startIndex ==> policy.RoundRobin? && !low && found != []
    // with nothing in use: the next round starts one further, and nothing that fits is left out
    ensures demand.inUse == {} && policy.RoundRobin? && !low && found != [] ==>
              |info.containers| > 0 && startIndex == Next(info.startIndex, |info.containers|)
    ensures demand.inUse == {} && Roomy(info, demand) && placed0 < numSpare ==>
              |found| == if low || Offer(info, policy, limit) <= numSpare - placed0 then Offer(info, policy, limit)
                         else numSpare - placed0
  {
    hide Next, Screenable, Demand.HasRoom, Recorded, OnRoute, AllMet, Distinct, Ids, Pace, Roomy, Offer, Drained,
      AllOnWay;
    placed, postponed, startIndex, found := placed0, postponed0, info.startIndex, [];
    var toScreen := if policy.LeastUsed? then |info.byUsage| else |info.containers|;
    var u, cidx: nat := 0, if policy.LeastUsed? then info.byUsage[0] else info.startIndex;
    IndicesFit(info, policy);
    ghost var routed := (policy.LeastUsed? ==> demand.inUse == {}) && Distinct(Ids(info.containers));
    if routed {
      RouteStarts(info, policy, demand, cidx);
    }
    NothingFound(spares[..], low, placed0, postponed0, demand, info);
    PaceStarts(info, policy, demand, low, cidx);
    var screened, selected := 0, 0;
    while screened < toScreen && placed < numSpare && selected < limit
      invariant selected <= screened <= toScreen <= |info.containers| && |found| <= selected <= limit
      invariant toScreen > 0 ==> cidx < |info.containers|
      invariant policy.LeastUsed? ==> u < |info.byUsage|
      invariant Recorded(old(spares[..]), spares[..], low, placed0, placed, postponed0, postponed, found)
      invariant placed <= numSpare
      invariant AllMet(demand, info, found)
      invariant routed ==> OnRoute(info, policy, demand, screened, selected, u, cidx, found)
      invariant placed == if low then placed0 else placed0 + |found|
      invariant Pace(info, policy, demand, low, screened, selected, u, cidx, startIndex, found)
    {
      var c := info.containers[cidx];
      PaceSkips(info, policy, demand, low, screened, selected, u, cidx, startIndex, found, Next(cidx, toScreen));
      ghost var screened0, u0 := screened, u;
      screened := screened + 1;
      if c.id in demand.inUse {
        if routed {
          RouteSkips(info, policy, demand, screened0, selected, u, cidx, found, Next(cidx, toScreen));
        }
        cidx := Next(cidx, toScreen);
        selected := selected + 1;
        continue;
      }
      if !demand.HasRoom(c) {
        if routed {
          RouteStops(info, policy, demand, screened0, selected, u, cidx, found);
        }
        continue;
      }
      OneMoreMet(demand, info, found, cidx);
      placed, postponed := Record(c.id, low, spares, placed, postponed, old(spares[..]), placed0, postponed0, found);
      ghost var startIndex0 := startIndex;
      if !low && policy.RoundRobin? && selected == 0 {
        startIndex := Next(cidx, |info.containers|);
      }
      u := u + 1;
      var next := if !policy.LeastUsed? then Next(cidx, toScreen)
                  else if u < |info.byUsage| then info.byUsage[u] else cidx;
      if routed {
        RouteTakes(info, policy, demand, screened0, selected, u0, cidx, found, next);
      }
      PaceTakes(info, policy, demand, low, screened0, selected, u0, cidx, startIndex0, found, next);
      found, cidx, selected := found + [c.id], next, selected + 1;
      if policy.LeastUsed? && u == |info.byUsage| {
        break;
      }
    }
    if routed {
      RouteEnds(info, policy, demand, screened, selected, u, cidx, found, limit);
    }
    PaceEnds(info, policy, demand, low, screened, selected, u, cidx, startIndex, found, limit, placed0, numSpare);
  }

  /** How many of the ids belong to the agent. */
  function Owned(ids: seq<int>, owners: map<int, string>, ip: string): (count: nat)
    ensures count <= |ids|
  {
    if ids == [] then 0
    else
      var id := ids[|ids| - 1];
      Owned(ids[..|ids| - 1], owners, ip) + if id in owners && AddrIP(owners[id]) == ip then 1 else 0
  }

  lemma {:induction false} OwnedConcat(a: seq<int>, b: seq<int>, owners: map<int, string>, ip: string)
    ensures Owned(a + b, owners, ip) == Owned(a, owners, ip) + Owned(b, owners, ip)
  {
    hide AddrIP;
    if b == [] {
      assert a + b == a;
    } else {
      OwnedConcat(a, b[..|b| - 1], owners, ip);
      assert (a + b)[..|a + b| - 1] == a + b[..|b| - 1];
    }
  }

  lemma {:induction false} OwnedByOthers(ids: seq<int>, owners: map<int, string>, ip: string)
    requires forall x :: 0 <= x < |ids| ==> ids[x] in owners && AddrIP(owners[ids[x]]) != ip
    ensures Owned(ids, owners, ip) == 0
  {
    hide AddrIP;
    if ids != [] {
      OwnedByOthers(ids[..|ids| - 1], owners, ip);
    }
  }

  /** The containers of the agent that are in use. */
  ghost function InUseAt(inUse: set<int>, owners: map<int, string>, ip: string): set<int> {
    set c | c in inUse && c in owners && AddrIP(owners[c]) == ip
  }

  /**
   A chosen container belongs to an agent that was considered and has not reached the limit, and meets the demand there.
   */
  ghost predicate Eligible(id: int, owners: map<int, string>, agents: map<string, AgentInfo>, demand: Demand,
                           limit: nat, done: set<string>)
    requires demand.k > 0
  {
    && id in owners && AddrIP(owners[id]) in done && AddrIP(owners[id]) in agents
    && demand.MetBy(agents[AddrIP(owners[id])], id)
    && |InUseAt(demand.inUse, owners, AddrIP(owners[id]))| < limit
  }

  /** Containers chosen from the agents considered so far, no more than the limit of each. */
  ghost predicate Selection(ids: seq<int>, owners: map<int, string>, agents: map<string, AgentInfo>, demand: Demand,
                            limit: nat, done: set<string>)
    requires demand.k > 0
  {
    && (forall x :: 0 <= x < |ids| ==> Eligible(ids[x], owners, agents, demand, limit, done))
    && (forall ip :: Owned(ids, owners, ip) <= limit)
  }

  lemma SelectionLimits(ids: seq<int>, owners: map<int, string>, agents: map<string, AgentInfo>, demand: Demand,
                        limit: nat, done: set<string>)
    requires demand.k > 0 && Selection(ids, owners, agents, demand, limit, done)
    ensures forall ip :: Owned(ids, owners, ip) <= limit
  {
  }

  lemma FoundOwned(owners: map<int, string>, agents: map<string, AgentInfo>, demand: Demand, ip: string,
                   found: seq<int>)
    requires Consistent(owners, agents) && demand.k > 0 && ip in agents && AllMet(demand, agents[ip], found)
    ensures forall x :: 0 <= x < |found| ==> found[x] in owners && AddrIP(owners[found[x]]) == ip
  {
    hide AddrIP, Demand.HasRoom;
    forall x | 0 <= x < |found|
      ensures found[x] in owners && AddrIP(owners[found[x]]) == ip
    {
      var info := agents[ip];
      assert demand.MetBy(info, found[x]);
      var i :| 0 <= i < |info.containers| && info.containers[i].id == found[x];
      assert Ids(info.containers)[i] == found[x];
      assert found[x] in IdSet(info.containers);
    }
  }

  lemma FoundAtOwner(owners: map<int, string>, agents: map<string, AgentInfo>, demand: Demand, limit: nat, ip: string,
                     found: seq<int>)
    requires Consistent(owners, agents) && demand.k > 0 && ip in agents && AllMet(demand, agents[ip], found)
    requires found != [] ==> |InUseAt(demand.inUse, owners, ip)| < limit
    ensures forall x :: 0 <= x < |found| ==> Eligible(found[x], owners, agents, demand, limit, {ip})
  {
    hide AddrIP, Demand.MetBy, Consistent;
    FoundOwned(owners, agents, demand, ip, found);
  }

  /** Containers of one more agent are put between what was placed and what was postponed. */
  lemma SelectionGrows(a: seq<int>, found: seq<int>, b: seq<int>, owners: map<int, string>,
                       agents: map<string, AgentInfo>, demand: Demand, limit: nat, done: set<string>, ip: string)
    requires Consistent(owners, agents) && demand.k > 0 && ip in agents && ip !in done
    requires Selection(a + b, owners, agents, demand, limit, done) && AllMet(demand, agents[ip], found)
    requires |found| <= limit
    requires found != [] ==> |InUseAt(demand.inUse, owners, ip)| < limit
    ensures Selection(a + found + b, owners, agents, demand, limit, done + {ip})
    ensures Distinct(a + b) && Distinct(found) ==> Distinct(a + found + b)
  {
    hide AddrIP, Demand.MetBy, Owned, Consistent, AllMet;
    FoundAtOwner(owners, agents, demand, limit, ip, found);
    var was, now := a + b, a + found + b;
    forall x | 0 <= x < |now|
      ensures Eligible(now[x], owners, agents, demand, limit, done + {ip})
    {
      if |a| <= x < |a| + |found| {
        assert Eligible(found[x - |a|], owners, agents, demand, limit, {ip});
      } else {
        assert Eligible(was[if x < |a| then x else x - |found|], owners, agents, demand, limit, done);
      }
    }
    forall other: string
      ensures Owned(now, owners, other) <= limit
    {
      OwnedConcat(a, b, owners, other);
      OwnedConcat(a + found, b, owners, other);
      OwnedConcat(a, found, owners, other);
      if other == ip {
        OwnedByOthers(was, owners, other);
      } else {
        OwnedByOthers(found, owners, other);
      }
    }
    if Distinct(was) && Distinct(found) {
      DisjointJoin(a, found, b, owners, ip);
    }
  }

  lemma DisjointJoin(a: seq<int>, found: seq<int>, b: seq<int>, owners: map<int, string>, ip: string)
    requires Distinct(a + b) && Distinct(found)
    requires forall x :: 0 <= x < |found| ==> found[x] in owners && AddrIP(owners[found[x]]) == ip
    requires forall x :: 0 <= x < |a + b| ==> (a + b)[x] in owners && AddrIP(owners[(a + b)[x]]) != ip
    ensures Distinct(a + found + b)
  {
    hide AddrIP;
    assert forall x :: 0 <= x < |a| ==> a[x] == (a + b)[x];
    assert forall x :: 0 <= x < |b| ==> b[x] == (a + b)[|a| + x];
  }

  lemma SelectionPrefix(ids: seq<int>, count: nat, owners: map<int, string>, agents: map<string, AgentInfo>,
                        demand: Demand, limit: nat, done: set<string>)
    requires demand.k > 0 && count <= |ids| && Selection(ids, owners, agents, demand, limit, done)
    ensures Selection(ids[..count], owners, agents, demand, limit, done)
  {
    hide Eligible, Owned;
    forall ip: string
      ensures Owned(ids[..count], owners, ip) <= limit
    {
      assert ids == ids[..count] + ids[count..];
      OwnedConcat(ids[..count], ids[count..], owners, ip);
    }
  }

  lemma InUseGrows(inUse: set<int>, id: int, owners: map<int, string>, ip: string)
    requires id !in inUse
    ensures var one := if id in owners && AddrIP(owners[id]) == ip then 1 else 0;
            |InUseAt(inUse + {id}, owners, ip)| == |InUseAt(inUse, owners, ip)| + one
  {
    hide AddrIP;
    var one := if id in owners && AddrIP(owners[id]) == ip then {id} else {};
    assert InUseAt(inUse + {id}, owners, ip) == InUseAt(inUse, owners, ip) + one;
  }

  function CountOf(counts: map<string, nat>, ip: string): nat {
    if ip in counts then counts[ip] else 0
  }

  ghost predicate CountsInUse(counts: map<string, nat>, ip: string) {
    ip in counts ==> counts[ip] > 0
  }

  /** Collects the containers of a stripe that are alive, and counts the different ones of each agent. */
  method CountInUse(ids: seq<int>, alive: seq<bool>, owners: map<int, string>)
    returns (inUse: set<int>, counts: map<string, nat>)
    requires |ids| == |alive|
    ensures forall c :: c in inUse <==> exists i :: 0 <= i < |ids| && alive[i] && ids[i] == c
    ensures forall ip :: CountOf(counts, ip) == |InUseAt(inUse, owners, ip)| && CountsInUse(counts, ip)
  {
    inUse, counts := {}, map[];
    assert forall ip :: InUseAt(inUse, owners, ip) == {};
    for i := 0 to |ids|
      invariant forall c :: c in inUse <==> exists j :: 0 <= j < i && alive[j] && ids[j] == c
      invariant forall ip :: CountOf(counts, ip) == |InUseAt(inUse, owners, ip)| && CountsInUse(counts, ip)
    {
      hide InUseAt, AddrIP;
      if alive[i] && ids[i] !in inUse {
        forall ip: string {
          InUseGrows(inUse, ids[i], owners, ip);
        }
        inUse := inUse + {ids[i]};
        if ids[i] in owners {
          var ip := AddrIP(owners[ids[i]]);
          counts := counts[ip := CountOf(counts, ip) + 1];
        }
      }
    }
  }

  /** Selections change where screening starts next, and nothing else about the agents. */
  ghost predicate OnlyStarts(before: map<string, AgentInfo>, after: map<string, AgentInfo>, done: set<string>) {
    && before.Keys == after.Keys
    && (forall ip :: ip in after ==> after[ip] == before[ip].(startIndex := after[ip].startIndex))
    && (forall ip :: ip in after && ip !in done ==> after[ip] == before[ip])
  }

  lemma OnlyStartsMean(before: map<string, AgentInfo>, after: map<string, AgentInfo>, done: set<string>)
    requires OnlyStarts(before, after, done)
    ensures before.Keys == after.Keys && forall ip :: ip in after ==> after[ip].containers == before[ip].containers
  {
  }

  lemma StartsKeepConsistency(owners: map<int, string>, before: map<string, AgentInfo>, after: map<string, AgentInfo>,
                              done: set<string>)
    requires Consistent(owners, before) && OnlyStarts(before, after, done)
    ensures Consistent(owners, after) && before.Keys == after.Keys
  {
    hide AddrIP, IdSet, Ids;
    assert forall ip :: ip in after ==> after[ip].containers == before[ip].containers;
  }

  /** Whether every agent that is alive can be screened. */
  ghost predicate AllScreenable(agents: map<string, AgentInfo>, alive: set<string>, policy: Policy) {
    forall ip :: ip in alive ==> ip in agents && Screenable(agents[ip], policy)
  }

  /**
   When agents stay ready for placement. An accepted registration starts at the first container, and touches no
   other agent that is alive; one that is refused may leave the agent, if alive, with fewer containers than its
   starting index.
   */
  method RegisterScreenable(coordinator: Coordinator, req: Registration, policy: Policy) returns (ok: bool)
    requires coordinator.Valid() && AllScreenable(coordinator.agents, coordinator.alive, policy)
    modifies coordinator
    ensures ok && Screenable(AgentInfo(req.containers, req.isNear, 0, req.byUsage), policy) ==>
              AllScreenable(coordinator.agents, coordinator.alive, policy)
    ensures !ok && AddrIP(req.addr) !in old(coordinator.alive) ==>
              AllScreenable(coordinator.agents, coordinator.alive, policy)
  {
    hide Consistent, AddrIP, Ids, Distinct, Screenable;
    ghost var rejected;
    ok, rejected := coordinator.RegisterAgent(req);
  }

  /** The selection after the agent is screened. */
  lemma Screened(before: seq<int>, after: seq<int>, low: bool, placed0: nat, placed: nat, postponed0: seq<int>,
                 postponed: seq<int>, found: seq<int>, owners: map<int, string>, agents: map<string, AgentInfo>,
                 demand: Demand, limit: nat, done: set<string>, ip: string)
    requires Recorded(before, after, low, placed0, placed, postponed0, postponed, found) && placed0 <= |before|
    requires Consistent(owners, agents) && demand.k > 0 && ip in agents && ip !in done
    requires Selection(before[..placed0] + postponed0, owners, agents, demand, limit, done)
    requires AllMet(demand, agents[ip], found) && |found| <= limit
    requires (found != [] ==> |InUseAt(demand.inUse, owners, ip)| < limit)
    ensures placed <= |after| && Selection(after[..placed] + postponed, owners, agents, demand, limit, done + {ip})
    ensures Distinct(before[..placed0] + postponed0) && Distinct(found) ==> Distinct(after[..placed] + postponed)
  {
    hide Selection, AllMet, Consistent, Distinct;
    if low {
      assert after[..placed] == before[..placed0];
      assert before[..placed0] + postponed0 + [] == before[..placed0] + postponed0;
      SelectionGrows(before[..placed0] + postponed0, found, [], owners, agents, demand, limit, done, ip);
      assert before[..placed0] + postponed0 + found + [] == after[..placed] + postponed;
    } else {
      assert after[..placed] == before[..placed0] + found;
      SelectionGrows(before[..placed0], found, postponed0, owners, agents, demand, limit, done, ip);
    }
  }

  lemma SkippedAgent(ids: seq<int>, owners: map<int, string>, agents: map<string, AgentInfo>, demand: Demand,
                     limit: nat, done: set<string>, more: set<string>)
    requires demand.k > 0 && Selection(ids, owners, agents, demand, limit, done) && done <= more
    ensures Selection(ids, owners, agents, demand, limit, more)
  {
    hide Demand.MetBy, Owned, AddrIP;
    assert forall x :: 0 <= x < |ids| ==> Eligible(ids[x], owners, agents, demand, limit, done);
  }

  /** Each container chosen is among the first `limit` of its agent, and none before it is too full. */
  ghost predicate Reached(ids: seq<int>, owners: map<int, string>, agents: map<string, AgentInfo>, policy: Policy,
                          demand: Demand, limit: nat)
    requires demand.k > 0
  {
    forall x :: 0 <= x < |ids| ==>
      && ids[x] in owners && AddrIP(owners[ids[x]]) in agents
      && OnWay(agents[AddrIP(owners[ids[x]])], policy, demand, limit, ids[x])
  }

  lemma ReachedGrows(before: seq<int>, after: seq<int>, low: bool, placed0: nat, placed: nat, postponed0: seq<int>,
                     postponed: seq<int>, found: seq<int>, owners: map<int, string>, agents: map<string, AgentInfo>,
                     demand: Demand, policy: Policy, limit: nat, ip: string)
    requires Recorded(before, after, low, placed0, placed, postponed0, postponed, found) && placed0 <= |before|
    requires Consistent(owners, agents) && demand.k > 0 && ip in agents && AllMet(demand, agents[ip], found)
    requires Reached(before[..placed0] + postponed0, owners, agents, policy, demand, limit)
    requires AllOnWay(agents[ip], policy, demand, limit, found)
    ensures placed <= |after| && Reached(after[..placed] + postponed, owners, agents, policy, demand, limit)
  {
    hide AddrIP, Consistent, AllMet, OnWay;
    FoundOwned(owners, agents, demand, ip, found);
    assert after[..placed] == before[..placed0] + if low then [] else found;
    var was, now := before[..placed0] + postponed0, after[..placed] + postponed;
    forall x | 0 <= x < |now|
      ensures now[x] in was || now[x] in found
    {
    }
    assert forall x :: 0 <= x < |was| ==> was[x] in owners && AddrIP(owners[was[x]]) in agents;
  }

  lemma ReachedPrefix(ids: seq<int>, count: nat, owners: map<int, string>, agents: map<string, AgentInfo>,
                      policy: Policy, demand: Demand, limit: nat)
    requires demand.k > 0 && count <= |ids|
    ensures Reached(ids, owners, agents, policy, demand, limit) ==>
              Reached(ids[..count], owners, agents, policy, demand, limit)
  {
  }

  /** All that holds of the selection once the agents in `done` are considered. */
  ghost predicate Progress(chosen: seq<int>, owners: map<int, string>, agents0: map<string, AgentInfo>,
                           agents: map<string, AgentInfo>, demand: Demand, limit: nat, policy: Policy,
                           alive: set<string>, done: set<string>)
    requires demand.k > 0
  {
    && Selection(chosen, owners, agents0, demand, limit, done)
    && ((policy.LeastUsed? ==> demand.inUse == {}) ==>
          Distinct(chosen) && Reached(chosen, owners, agents0, policy, demand, limit))
    && OnlyStarts(agents0, agents, done) && AllScreenable(agents, alive, policy)
  }

  lemma ProgressStarts(owners: map<int, string>, agents: map<string, AgentInfo>, demand: Demand, limit: nat,
                       policy: Policy, alive: set<string>)
    requires demand.k > 0 && AllScreenable(agents, alive, policy)
    ensures Progress([], owners, agents, agents, demand, limit, policy, alive, {})
  {
  }

  lemma ProgressSkips(chosen: seq<int>, owners: map<int, string>, agents0: map<string, AgentInfo>,
                      agents: map<string, AgentInfo>, demand: Demand, limit: nat, policy: Policy, alive: set<string>,
                      done: set<string>, more: set<string>)
    requires demand.k > 0 && Progress(chosen, owners, agents0, agents, demand, limit, policy, alive, done)
    requires done <= more
    ensures Progress(chosen, owners, agents0, agents, demand, limit, policy, alive, more)
  {
    hide Selection, AllScreenable, Distinct, Reached;
    SkippedAgent(chosen, owners, agents0, demand, limit, done, more);
  }

  lemma StartMoves(agents0: map<string, AgentInfo>, agents: map<string, AgentInfo>, policy: Policy, alive: set<string>,
                   done: set<string>, ip: string, startIndex: nat)
    requires OnlyStarts(agents0, agents, done) && AllScreenable(agents, alive, policy) && ip in agents && ip !in done
    requires |agents[ip].containers| > 0 && agents[ip].startIndex < |agents[ip].containers| ==>
               startIndex < |agents[ip].containers|
    ensures OnlyStarts(agents0, agents[ip := agents[ip].(startIndex := startIndex)], done + {ip})
    ensures AllScreenable(agents[ip := agents[ip].(startIndex := startIndex)], alive, policy)
  {
    hide Distinct;
  }

  lemma StartOf(agents0: map<string, AgentInfo>, agents: map<string, AgentInfo>, policy: Policy, alive: set<string>,
                done: set<string>, ip: string)
    requires OnlyStarts(agents0, agents, done) && AllScreenable(agents, alive, policy) && ip in alive && ip !in done
    ensures ip in agents && ip in agents0 && agents[ip] == agents0[ip] && Screenable(agents[ip], policy)
  {
  }

  /** The agent is passed over: it is at its limit, or has no utilisation to go by. */
  ghost predicate Skipped(ip: string, owners: map<int, string>, agents: map<string, AgentInfo>, demand: Demand,
                          limit: nat, policy: Policy)
  {
    || (InUseAt(demand.inUse, owners, ip) != {} && |InUseAt(demand.inUse, owners, ip)| >= limit)
    || (policy.LeastUsed? && ip in agents && agents[ip].byUsage == [])
  }

  /** The agents that are screened, in order. */
  ghost function Queue(order: seq<string>, owners: map<int, string>, agents: map<string, AgentInfo>, demand: Demand,
                       limit: nat, policy: Policy): seq<string>
  {
    if order == [] then []
    else
      var ip := order[|order| - 1];
      Queue(order[..|order| - 1], owners, agents, demand, limit, policy) +
      if Skipped(ip, owners, agents, demand, limit, policy) then [] else [ip]
  }

  lemma {:induction false} QueueIsDistinct(order: seq<string>, owners: map<int, string>,
                                           agents: map<string, AgentInfo>, demand: Demand, limit: nat, policy: Policy)
    requires Distinct(order)
    ensures Distinct(Queue(order, owners, agents, demand, limit, policy))
    ensures forall ip :: ip in Queue(order, owners, agents, demand, limit, policy) ==> ip in order
  {
    hide Skipped;
    if order != [] {
      var last := order[|order| - 1];
      QueueIsDistinct(order[..|order| - 1], owners, agents, demand, limit, policy);
      assert last !in order[..|order| - 1];
    }
  }

  lemma {:induction false} QueueGrows(order: seq<string>, a: nat, owners: map<int, string>,
                                      agents: map<string, AgentInfo>, demand: Demand, limit: nat, policy: Policy)
    requires a <= |order|
    ensures Queue(order[..a], owners, agents, demand, limit, policy) <=
              Queue(order, owners, agents, demand, limit, policy)
    decreases |order|
  {
    hide Skipped;
    if a == |order| {
      assert order[..a] == order;
    } else {
      var front := order[..|order| - 1];
      QueueGrows(front, a, owners, agents, demand, limit, policy);
      assert front[..a] == order[..a];
    }
  }

  /** With nothing in use, and no regard to utilisation, every agent is screened. */
  lemma {:induction false} QueueIsOrder(order: seq<string>, owners: map<int, string>, agents: map<string, AgentInfo>,
                                        demand: Demand, limit: nat, policy: Policy)
    requires demand.inUse == {} && !policy.LeastUsed?
    ensures Queue(order, owners, agents, demand, limit, policy) == order
  {
    if order != [] {
      QueueIsOrder(order[..|order| - 1], owners, agents, demand, limit, policy);
      assert InUseAt(demand.inUse, owners, order[|order| - 1]) == {};
    }
  }

  /** The agent is among the first `start` of the queue. */
  ghost predicate Early(queue: seq<string>, start: nat, ip: string) {
    exists a: nat :: a < |queue| && a < start && queue[a] == ip
  }

  lemma EarlyStays(queue: seq<string>, more: seq<string>, start: nat, ip: string)
    requires queue <= more && ip in queue && Distinct(more)
    ensures Early(more, start, ip) <==> Early(queue, start, ip)
  {
    var a: nat :| a < |queue| && queue[a] == ip;
    assert more[a] == ip;
  }

  /** Whether containers of the agent are chosen right away, and not postponed. */
  ghost predicate Preferred(ip: string, agents: map<string, AgentInfo>, policy: Policy, queue: seq<string>,
                            start: nat)
  {
    !Early(queue, start, ip) && (policy.Static? ==> ip in agents && agents[ip].isNear)
  }

  /** The containers are all of agents that are preferred, or all of agents that are not. */
  ghost predicate Ranked(ids: seq<int>, owners: map<int, string>, agents: map<string, AgentInfo>, policy: Policy,
                         queue: seq<string>, start: nat, preferred: bool)
  {
    forall x :: 0 <= x < |ids| ==>
      && ids[x] in owners && AddrIP(owners[ids[x]]) in queue
      && Preferred(AddrIP(owners[ids[x]]), agents, policy, queue, start) == preferred
  }

  lemma RanksStay(ids: seq<int>, owners: map<int, string>, agents: map<string, AgentInfo>, policy: Policy,
                  queue: seq<string>, more: seq<string>, start: nat, preferred: bool)
    requires Ranked(ids, owners, agents, policy, queue, start, preferred) && queue <= more && Distinct(more)
    ensures Ranked(ids, owners, agents, policy, more, start, preferred)
  {
    hide AddrIP, Early, Distinct;
    forall x | 0 <= x < |ids|
      ensures AddrIP(owners[ids[x]]) in more
      ensures Preferred(AddrIP(owners[ids[x]]), agents, policy, more, start) == preferred
    {
      EarlyStays(queue, more, start, AddrIP(owners[ids[x]]));
    }
  }

  lemma RanksJoin(a: seq<int>, b: seq<int>, owners: map<int, string>, agents: map<string, AgentInfo>, policy: Policy,
                  queue: seq<string>, start: nat, preferred: bool)
    requires Ranked(a, owners, agents, policy, queue, start, preferred)
    requires Ranked(b, owners, agents, policy, queue, start, preferred)
    ensures Ranked(a + b, owners, agents, policy, queue, start, preferred)
  {
    hide AddrIP, Preferred;
  }

  /** The containers of the next agent are ranked by its turn, and by whether it is near. */
  lemma FoundRanked(found: seq<int>, owners: map<int, string>, agents: map<string, AgentInfo>, demand: Demand,
                    policy: Policy, queue: seq<string>, start: nat, ip: string)
    requires Consistent(owners, agents) && demand.k > 0 && ip in agents && AllMet(demand, agents[ip], found)
    requires ip !in queue
    ensures Ranked(found, owners, agents, policy, queue + [ip], start,
                   !(|queue| < start || (policy.Static? && !agents[ip].isNear)))
  {
    hide AddrIP, Consistent, AllMet, Demand.MetBy;
    FoundOwned(owners, agents, demand, ip, found);
    assert (queue + [ip])[|queue|] == ip;
  }

  /** Only containers of agents that are not preferred are postponed. */
  lemma RanksGrow(before: seq<int>, after: seq<int>, low: bool, placed0: nat, placed: nat, postponed0: seq<int>,
                  postponed: seq<int>, found: seq<int>, owners: map<int, string>, agents: map<string, AgentInfo>,
                  demand: Demand, policy: Policy, queue: seq<string>, start: nat, ip: string)
    requires Recorded(before, after, low, placed0, placed, postponed0, postponed, found) && placed0 <= |before|
    requires Consistent(owners, agents) && demand.k > 0 && ip in agents && AllMet(demand, agents[ip], found)
    requires low == (|queue| < start || (policy.Static? && !agents[ip].isNear))
    requires Distinct(queue) && ip !in queue
    requires Ranked(before[..placed0], owners, agents, policy, queue, start, true)
    requires Ranked(postponed0, owners, agents, policy, queue, start, false)
    ensures placed <= |after| && Ranked(after[..placed], owners, agents, policy, queue + [ip], start, true)
    ensures Ranked(postponed, owners, agents, policy, queue + [ip], start, false)
  {
    assert Distinct(queue + [ip]);
    hide Consistent, AllMet, Ranked, Distinct;
    FoundRanked(found, owners, agents, demand, policy, queue, start, ip);
    RanksStay(before[..placed0], owners, agents, policy, queue, queue + [ip], start, true);
    RanksStay(postponed0, owners, agents, policy, queue, queue + [ip], start, false);
    if low {
      assert after[..placed] == before[..placed0];
      RanksJoin(postponed0, found, owners, agents, policy, queue + [ip], start, false);
    } else {
      assert after[..placed] == before[..placed0] + found;
      RanksJoin(before[..placed0], found, owners, agents, policy, queue + [ip], start, true);
    }
  }

  /** Every agent considered that is below its limit has given all it could. */
  ghost predicate AllDrained(ids: seq<int>, owners: map<int, string>, agents: map<string, AgentInfo>, policy: Policy,
                             demand: Demand, limit: nat, done: set<string>)
  {
    forall ip :: ip in done && ip in agents && |InUseAt(demand.inUse, owners, ip)| < limit ==>
      Drained(ids, agents[ip], policy, demand, limit)
  }

  lemma DrainedMore(ids: seq<int>, more: seq<int>, info: AgentInfo, policy: Policy, demand: Demand, limit: nat)
    requires Drained(ids, info, policy, demand, limit) && forall x :: 0 <= x < |ids| ==> ids[x] in more
    ensures Drained(more, info, policy, demand, limit)
  {
    hide Screenable, Covers, Route, ReedSolomon.ChunkSize;
    var step: nat :| StopsAt(ids, info, policy, demand, limit, step);
    CoversMore(ids, more, info, Route(info, policy), step, demand.inUse);
    assert StopsAt(more, info, policy, demand, limit, step);
  }

  lemma DrainsNext(ids: seq<int>, more: seq<int>, owners: map<int, string>, agents: map<string, AgentInfo>,
                   policy: Policy, demand: Demand, limit: nat, done: set<string>, ip: string)
    requires AllDrained(ids, owners, agents, policy, demand, limit, done)
    requires forall x :: 0 <= x < |ids| ==> ids[x] in more
    requires ip in agents && |InUseAt(demand.inUse, owners, ip)| < limit ==>
               Drained(more, agents[ip], policy, demand, limit)
    ensures AllDrained(more, owners, agents, policy, demand, limit, done + {ip})
  {
    hide Drained, InUseAt;
    forall q | q in done + {ip} && q in agents && |InUseAt(demand.inUse, owners, q)| < limit
      ensures Drained(more, agents[q], policy, demand, limit)
    {
      if q != ip {
        DrainedMore(ids, more, agents[q], policy, demand, limit);
      }
    }
  }

  /** Without utilisation there is nothing to take. */
  lemma NothingToDrain(ids: seq<int>, info: AgentInfo, policy: Policy, demand: Demand, limit: nat)
    requires Screenable(info, policy) && demand.k > 0 && policy.LeastUsed? && info.byUsage == []
    ensures Drained(ids, info, policy, demand, limit)
  {
    assert StopsAt(ids, info, policy, demand, limit, 0);
  }

  /** What was found goes to the selection, so the selection holds all that the agent could give. */
  lemma RecordedDrains(before: seq<int>, after: seq<int>, low: bool, placed0: nat, placed: nat, postponed0: seq<int>,
                       postponed: seq<int>, found: seq<int>, owners: map<int, string>, agents: map<string, AgentInfo>,
                       policy: Policy, demand: Demand, limit: nat, done: set<string>, ip: string)
    requires Recorded(before, after, low, placed0, placed, postponed0, postponed, found) && placed0 <= |before|
    requires AllDrained(before[..placed0] + postponed0, owners, agents, policy, demand, limit, done)
    requires ip in agents && Drained(found, agents[ip], policy, demand, limit)
    ensures placed <= |after|
    ensures AllDrained(after[..placed] + postponed, owners, agents, policy, demand, limit, done + {ip})
  {
    hide AllDrained, Drained;
    var was, now := before[..placed0] + postponed0, after[..placed] + postponed;
    assert after[..placed] == before[..placed0] + if low then [] else found;
    assert forall x :: 0 <= x < |was| ==> was[x] in now;
    assert forall x :: 0 <= x < |found| ==> found[x] in now;
    DrainedMore(found, now, agents[ip], policy, demand, limit);
    DrainsNext(was, now, owners, agents, policy, demand, limit, done, ip);
  }

  ghost predicate AllRoomy(agents: map<string, AgentInfo>, alive: set<string>, demand: Demand)
    requires demand.k > 0
  {
    forall ip :: ip in alive && ip in agents ==> Roomy(agents[ip], demand)
  }

  /** What the agents can give together. */
  ghost function Supply(agents: map<string, AgentInfo>, order: seq<string>, policy: Policy, limit: nat): nat {
    if order == [] then 0
    else
      var ip := order[|order| - 1];
      Supply(agents, order[..|order| - 1], policy, limit) + if ip in agents then Offer(agents[ip], policy, limit) else 0
  }

  lemma {:induction false} SupplyGrows(agents: map<string, AgentInfo>, order: seq<string>, a: nat, policy: Policy,
                                       limit: nat)
    requires a <= |order|
    ensures Supply(agents, order[..a], policy, limit) <= Supply(agents, order, policy, limit)
    decreases |order|
  {
    hide Offer;
    if a == |order| {
      assert order[..a] == order;
    } else {
      var front := order[..|order| - 1];
      SupplyGrows(agents, front, a, policy, limit);
      assert front[..a] == order[..a];
    }
  }

  lemma LimitReached(meta: CodingMeta, m: nat)
    requires meta.Valid() && if meta.f > 0 then meta.f * m <= meta.n - meta.k else m <= meta.n
    ensures m <= meta.Limit()
  {
    if meta.f > 0 && meta.Limit() < m {
      Blocks.MulSteps(meta.f, meta.Limit(), m);
    }
  }

  lemma {:induction false} SupplyAtLeast(agents: map<string, AgentInfo>, order: seq<string>, policy: Policy, limit: nat,
                                         m: nat)
    requires forall a :: 0 <= a < |order| ==> order[a] in agents && m <= Offer(agents[order[a]], policy, limit)
    ensures |order| * m <= Supply(agents, order, policy, limit)
  {
    hide Offer;
    if order != [] {
      SupplyAtLeast(agents, order[..|order| - 1], policy, limit, m);
    }
  }

  /** The agent has m or more containers to screen, and each has room for a chunk with two bytes to spare. */
  ghost predicate Stocked(info: AgentInfo, policy: Policy, k: nat, size: nat, m: nat)
    requires k > 0
  {
    && m <= (if policy.LeastUsed? then |info.byUsage| else |info.containers|)
    && forall i :: 0 <= i < |info.containers| ==>
         info.containers[i].usage + ReedSolomon.ChunkSize(k, size) + 2 <= info.containers[i].capacity
  }

  lemma StockedIsRoomy(info: AgentInfo, policy: Policy, k: nat, size: nat, m: nat)
    requires k > 0 && Stocked(info, policy, k, size, m)
    ensures Roomy(info, Demand({}, size, k))
  {
    hide Demand.HasRoom, ReedSolomon.ChunkSize;
    forall i | 0 <= i < |info.containers|
      ensures Demand({}, size, k).HasRoom(info.containers[i])
    {
      RoomForChunk(Demand({}, size, k), info.containers[i]);
    }
  }

  /** With m containers on every agent, and m times f no more than n - k, as many chunks as agents times m find room. */
  lemma StockedSuffices(agents: map<string, AgentInfo>, order: seq<string>, policy: Policy, meta: CodingMeta, size: nat,
                        m: nat)
    requires meta.Valid() && if meta.f > 0 then meta.f * m <= meta.n - meta.k else m <= meta.n
    requires forall a :: 0 <= a < |order| ==>
               order[a] in agents && Stocked(agents[order[a]], policy, meta.k, size, m)
    ensures AllRoomy(agents, Elements(order), Demand({}, size, meta.k))
    ensures |order| * m <= Supply(agents, order, policy, meta.Limit())
  {
    hide Supply, CodingMeta.Limit, Roomy;
    LimitReached(meta, m);
    SupplyAtLeast(agents, order, policy, meta.Limit(), m);
    forall a | 0 <= a < |order|
      ensures Roomy(agents[order[a]], Demand({}, size, meta.k))
    {
      hide Stocked;
      StockedIsRoomy(agents[order[a]], policy, meta.k, size, m);
    }
  }

  /** Nothing is in use, so all that the agents can give counts: enough is placed, or all of it is found. */
  ghost predicate Exhaustive(demand: Demand, agents: map<string, AgentInfo>, alive: set<string>, placed: nat,
                             postponed: seq<int>, numSpare: nat, supply: nat)
    requires demand.k > 0
  {
    demand.inUse == {} && AllRoomy(agents, alive, demand) ==>
      placed + |postponed| <= supply && (placed == numSpare || placed + |postponed| == supply)
  }

  lemma ScreenedAll(before: seq<int>, after: seq<int>, low: bool, placed0: nat, placed: nat, postponed0: seq<int>,
                    postponed: seq<int>, found: seq<int>, demand: Demand, agents: map<string, AgentInfo>,
                    alive: set<string>, numSpare: nat, supply: nat, offer: nat)
    requires Recorded(before, after, low, placed0, placed, postponed0, postponed, found) && demand.k > 0
    requires placed0 < numSpare
    requires Exhaustive(demand, agents, alive, placed0, postponed0, numSpare, supply)
    requires demand.inUse == {} && AllRoomy(agents, alive, demand) ==>
               |found| == if low || offer <= numSpare - placed0 then offer else numSpare - placed0
    ensures Exhaustive(demand, agents, alive, placed, postponed, numSpare, supply + offer)
  {
    hide WrittenAt, AllRoomy;
  }

  lemma NoneInUse(demand: Demand, owners: map<int, string>, ip: string)
    requires demand.inUse == {}
    ensures |InUseAt(demand.inUse, owners, ip)| == 0
  {
    assert InUseAt(demand.inUse, owners, ip) == {};
  }

  /** Screens one agent, unless it is at its limit or has no utilisation recorded. */
  method ScreenNext(coordinator: Coordinator, ip: string, demand: Demand, counts: map<string, nat>, spares: array<int>,
                    numSpare: nat, limit: nat, policy: Policy, agentCount: nat, placed0: nat, postponed0: seq<int>,
                    ghost agents0: map<string, AgentInfo>, ghost done: set<string>, ghost supply: nat,
                    ghost queue: seq<string>)
    returns (screened: bool, placed: nat, postponed: seq<int>)
    requires placed0 < numSpare <= spares.Length && demand.k > 0 && ip in coordinator.alive && ip !in done
    requires Exhaustive(demand, agents0, coordinator.alive, placed0, postponed0, numSpare, supply)
    requires Consistent(coordinator.containerToAgent, agents0)
    requires Progress(spares[..placed0] + postponed0, coordinator.containerToAgent, agents0, coordinator.agents, demand,
                      limit, policy, coordinator.alive, done)
    requires CountOf(counts, ip) == |InUseAt(demand.inUse, coordinator.containerToAgent, ip)|
    requires CountsInUse(counts, ip)
    requires |queue| == agentCount && Distinct(queue) && ip !in queue
    requires Ranked(spares[..placed0], coordinator.containerToAgent, agents0, policy, queue, coordinator.startingAgent,
                    true)
    requires Ranked(postponed0, coordinator.containerToAgent, agents0, policy, queue, coordinator.startingAgent, false)
    requires (policy.LeastUsed? ==> demand.inUse == {}) ==>
               AllDrained(spares[..placed0] + postponed0, coordinator.containerToAgent, agents0, policy, demand, limit,
                          done)
    modifies coordinator`agents, spares
    ensures placed <= numSpare && (!screened ==> placed == placed0) && ip in agents0
    ensures Exhaustive(demand, agents0, coordinator.alive, placed, postponed, numSpare,
                       supply + Offer(agents0[ip], policy, limit))
    ensures Progress(spares[..placed] + postponed, coordinator.containerToAgent, agents0, coordinator.agents, demand,
                     limit, policy, coordinator.alive, done + {ip})
    // its containers come at once or later, by its turn and by whether it is near
    ensures screened <==> !Skipped(ip, coordinator.containerToAgent, agents0, demand, limit, policy)
    ensures var queue' := if screened then queue + [ip] else queue;
            && Ranked(spares[..placed], coordinator.containerToAgent, agents0, policy, queue',
                      coordinator.startingAgent, true)
            && Ranked(postponed, coordinator.containerToAgent, agents0, policy, queue', coordinator.startingAgent,
                      false)
    ensures (policy.LeastUsed? ==> demand.inUse == {}) && placed < numSpare ==>
              AllDrained(spares[..placed] + postponed, coordinator.containerToAgent, agents0, policy, demand, limit,
                         done + {ip})
  {
    hide AllDrained, Drained, Ranked, Selection, Distinct, OnlyStarts, AllScreenable, Screenable, Recorded, AllMet,
      InUseAt, Ids, Consistent, Roomy, Reached, AllOnWay;
    screened, placed, postponed := false, placed0, postponed0;
    ghost var owners, agents1, before := coordinator.containerToAgent, coordinator.agents, spares[..];
    StartOf(agents0, agents1, policy, coordinator.alive, done, ip);
    var info := coordinator.agents[ip];
    if (ip in counts && counts[ip] >= limit) || (policy.LeastUsed? && info.byUsage == []) {
      ProgressSkips(spares[..placed] + postponed, owners, agents0, agents1, demand, limit, policy, coordinator.alive,
                    done, done + {ip});
      if demand.inUse == {} {
        NoneInUse(demand, owners, ip);
      }
      if policy.LeastUsed? && info.byUsage == [] {
        NothingToDrain(spares[..placed] + postponed, info, policy, demand, limit);
      }
      if policy.LeastUsed? ==> demand.inUse == {} {
        DrainsNext(spares[..placed] + postponed, spares[..placed] + postponed, owners, agents0, policy, demand, limit,
                   done, ip);
      }
      return;
    }
    screened := true;
    var low := agentCount < coordinator.startingAgent || (policy.Static? && !info.isNear);
    var startIndex;
    ghost var found;
    placed, postponed, startIndex, found := ScreenAgent(info, demand, policy, limit, low, spares, placed0, numSpare,
                                                        postponed0);
    coordinator.agents := coordinator.agents[ip := info.(startIndex := startIndex)];
    OwnIdsDiffer(owners, agents0, ip);
    StartMoves(agents0, agents1, policy, coordinator.alive, done, ip, startIndex);
    Screened(before, spares[..], low, placed0, placed, postponed0, postponed, found, owners, agents0, demand, limit,
             done, ip);
    ScreenedAll(before, spares[..], low, placed0, placed, postponed0, postponed, found, demand, agents0,
                coordinator.alive, numSpare, supply, Offer(info, policy, limit));
    RanksGrow(before, spares[..], low, placed0, placed, postponed0, postponed, found, owners, agents0, demand, policy,
              queue, coordinator.startingAgent, ip);
    if policy.LeastUsed? ==> demand.inUse == {} {
      ReachedGrows(before, spares[..], low, placed0, placed, postponed0, postponed, found, owners, agents0, demand,
                   policy, limit, ip);
    }
    if (policy.LeastUsed? ==> demand.inUse == {}) && placed < numSpare {
      RecordedDrains(before, spares[..], low, placed0, placed, postponed0, postponed, found, owners, agents0, policy,
                     demand, limit, done, ip);
    }
  }

  lemma OwnIdsDiffer(owners: map<int, string>, agents: map<string, AgentInfo>, ip: string)
    requires Consistent(owners, agents) && ip in agents
    ensures Distinct(Ids(agents[ip].containers))
  {
  }

  lemma NoSupply(agents: map<string, AgentInfo>, order: seq<string>, policy: Policy, limit: nat)
    ensures Supply(agents, order[..0], policy, limit) == 0 && order[..|order|] == order
  {
  }

  lemma NextSupply(agents: map<string, AgentInfo>, order: seq<string>, a: nat, policy: Policy, limit: nat)
    requires a < |order|
    ensures order[a] in agents ==>
              Supply(agents, order[..a + 1], policy, limit) ==
                Supply(agents, order[..a], policy, limit) + Offer(agents[order[a]], policy, limit)
  {
    hide Offer;
    assert order[..a + 1][..a] == order[..a];
  }

  lemma NoneYet(order: seq<string>, owners: map<int, string>, agents: map<string, AgentInfo>, demand: Demand,
                limit: nat, policy: Policy, start: nat)
    ensures Queue(order[..0], owners, agents, demand, limit, policy) == []
    ensures forall queue, preferred :: Ranked([], owners, agents, policy, queue, start, preferred)
    ensures AllDrained([], owners, agents, policy, demand, limit, {})
  {
  }

  lemma NextInQueue(order: seq<string>, a: nat, owners: map<int, string>, agents: map<string, AgentInfo>,
                    demand: Demand, limit: nat, policy: Policy)
    requires a < |order| && Distinct(order)
    ensures var queue := Queue(order[..a], owners, agents, demand, limit, policy);
            && Distinct(queue) && order[a] !in queue
            && Queue(order[..a + 1], owners, agents, demand, limit, policy) ==
                 if Skipped(order[a], owners, agents, demand, limit, policy) then queue else queue + [order[a]]
  {
    hide Skipped;
    QueueIsDistinct(order[..a], owners, agents, demand, limit, policy);
    assert order[..a + 1][..a] == order[..a];
  }

  /** Screens the agents one by one until enough containers are placed. */
  method ScreenAgents(coordinator: Coordinator, demand: Demand, counts: map<string, nat>, spares: array<int>,
                      numSpare: nat, limit: nat, policy: Policy, order: seq<string>)
    returns (placed: nat, postponed: seq<int>)
    requires coordinator.Valid() && 0 < numSpare <= spares.Length && demand.k > 0
    requires Distinct(order) && Elements(order) == coordinator.alive
    requires AllScreenable(coordinator.agents, coordinator.alive, policy)
    requires forall ip :: CountOf(counts, ip) == |InUseAt(demand.inUse, coordinator.containerToAgent, ip)|
    requires forall ip :: CountsInUse(counts, ip)
    modifies coordinator`agents, spares
    ensures placed <= numSpare
    ensures Exhaustive(demand, old(coordinator.agents), coordinator.alive, placed, postponed, numSpare,
                       Supply(old(coordinator.agents), order, policy, limit))
    ensures Progress(spares[..placed] + postponed, coordinator.containerToAgent, old(coordinator.agents),
                     coordinator.agents, demand, limit, policy, coordinator.alive, coordinator.alive)
    ensures var queue := Queue(order, coordinator.containerToAgent, old(coordinator.agents), demand, limit, policy);
            && Ranked(spares[..placed], coordinator.containerToAgent, old(coordinator.agents), policy, queue,
                      coordinator.startingAgent, true)
            && Ranked(postponed, coordinator.containerToAgent, old(coordinator.agents), policy, queue,
                      coordinator.startingAgent, false)
    ensures (policy.LeastUsed? ==> demand.inUse == {}) && placed < numSpare ==>
              AllDrained(spares[..placed] + postponed, coordinator.containerToAgent, old(coordinator.agents), policy,
                         demand, limit, coordinator.alive)
  {
    hide Progress, InUseAt, Consistent, AllScreenable, CountOf, CountsInUse, Supply, AllRoomy, Offer, AllDrained,
      Ranked, Queue, Skipped;
    var agentCount := 0;
    placed, postponed := 0, [];
    ghost var agents0, owners := coordinator.agents, coordinator.containerToAgent;
    ghost var done: set<string> := {};
    ProgressStarts(owners, agents0, demand, limit, policy, coordinator.alive);
    assert spares[..0] + [] == [];
    NoSupply(agents0, order, policy, limit);
    ghost var queue, last := [], |order|;
    NoneYet(order, owners, agents0, demand, limit, policy, coordinator.startingAgent);
    for a := 0 to |order|
      invariant placed < numSpare && done == Elements(order[..a])
      invariant Exhaustive(demand, agents0, coordinator.alive, placed, postponed, numSpare,
                           Supply(agents0, order[..a], policy, limit))
      invariant Progress(spares[..placed] + postponed, owners, agents0, coordinator.agents, demand, limit, policy,
                         coordinator.alive, done)
      invariant queue == Queue(order[..a], owners, agents0, demand, limit, policy) && |queue| == agentCount
      invariant Ranked(spares[..placed], owners, agents0, policy, queue, coordinator.startingAgent, true)
      invariant Ranked(postponed, owners, agents0, policy, queue, coordinator.startingAgent, false)
      invariant (policy.LeastUsed? ==> demand.inUse == {}) ==>
                  AllDrained(spares[..placed] + postponed, owners, agents0, policy, demand, limit, done)
      invariant last == |order|
    {
      var screened;
      assert order[a] in Elements(order) && order[a] !in done;
      NextSupply(agents0, order, a, policy, limit);
      NextInQueue(order, a, owners, agents0, demand, limit, policy);
      screened, placed, postponed := ScreenNext(coordinator, order[a], demand, counts, spares, numSpare, limit, policy,
                                                agentCount, placed, postponed, agents0, done,
                                                Supply(agents0, order[..a], policy, limit), queue);
      done := done + {order[a]};
      queue := Queue(order[..a + 1], owners, agents0, demand, limit, policy);
      if screened && placed >= numSpare {
        SupplyGrows(agents0, order, a + 1, policy, limit);
        last := a + 1;
        break;
      }
      if screened {
        agentCount := agentCount + 1;
      }
    }
    ProgressSkips(spares[..placed] + postponed, owners, agents0, coordinator.agents, demand, limit, policy,
                  coordinator.alive, done, coordinator.alive);
    QueueIsDistinct(order, owners, agents0, demand, limit, policy);
    QueueGrows(order, last, owners, agents0, demand, limit, policy);
    ghost var all := Queue(order, owners, agents0, demand, limit, policy);
    RanksStay(spares[..placed], owners, agents0, policy, queue, all, coordinator.startingAgent, true);
    RanksStay(postponed, owners, agents0, policy, queue, all, coordinator.startingAgent, false);
  }

  /** Fills up the selection with postponed containers. */
  method AddPostponed(spares: array<int>, placed: nat, numSpare: nat, postponed: seq<int>) returns (selected: nat)
    requires placed <= numSpare <= spares.Length
    modifies spares
    ensures placed <= selected <= numSpare && selected - placed <= |postponed|
    ensures spares[..selected] == old(spares[..placed]) + postponed[..selected - placed]
    ensures selected == numSpare || selected == placed + |postponed|
  {
    selected := placed;
    for i := 0 to |postponed|
      invariant selected == placed + i <= numSpare
      invariant spares[..selected] == old(spares[..placed]) + postponed[..i]
    {
      if selected == numSpare {
        break;
      }
      spares[selected] := postponed[i];
      selected := selected + 1;
      assert spares[..selected] == spares[..placed + i] + [postponed[i]];
    }
  }

  lemma DistinctPrefix(s: seq<int>, count: nat)
    requires count <= |s|
    ensures Distinct(s) ==> Distinct(s[..count])
  {
  }

  lemma RanksPrefix(ids: seq<int>, count: nat, owners: map<int, string>, agents: map<string, AgentInfo>,
                    policy: Policy, queue: seq<string>, start: nat, preferred: bool)
    requires count <= |ids| && Ranked(ids, owners, agents, policy, queue, start, preferred)
    ensures Ranked(ids[..count], owners, agents, policy, queue, start, preferred)
  {
  }

  /** What the ranks mean: agents before the starting one come last, and with `Static` those not near. */
  lemma RanksMean(ids: seq<int>, near: nat, owners: map<int, string>, agents: map<string, AgentInfo>, demand: Demand,
                  limit: nat, policy: Policy, order: seq<string>, start: nat)
    requires near <= |ids| && Distinct(order)
    requires Ranked(ids[..near], owners, agents, policy, Queue(order, owners, agents, demand, limit, policy), start,
                    true)
    requires Ranked(ids[near..], owners, agents, policy, Queue(order, owners, agents, demand, limit, policy), start,
                    false)
    ensures forall x :: 0 <= x < |ids| ==> ids[x] in owners
    ensures policy.RoundRobin? && demand.inUse == {} ==>
              forall x, a :: 0 <= x < |ids| && 0 <= a < |order| && order[a] == AddrIP(owners[ids[x]]) ==>
                (x < near <==> a >= start)
    ensures policy.Static? && start == 0 ==>
              forall x :: 0 <= x < |ids| && AddrIP(owners[ids[x]]) in agents ==>
                (x < near <==> agents[AddrIP(owners[ids[x]])].isNear)
  {
    hide AddrIP, Queue;
    var queue := Queue(order, owners, agents, demand, limit, policy);
    forall x | 0 <= x < |ids|
      ensures ids[x] in owners && (x < near <==> Preferred(AddrIP(owners[ids[x]]), agents, policy, queue, start))
    {
      if x < near {
        assert ids[..near][x] == ids[x];
      } else {
        assert ids[near..][x - near] == ids[x];
      }
    }
    if policy.RoundRobin? && demand.inUse == {} {
      QueueIsOrder(order, owners, agents, demand, limit, policy);
    }
  }

  /** The containers of the agent that are in use are among the first `limit` that are looked at. */
  ghost predicate InUseEarly(info: AgentInfo, policy: Policy, inUse: set<int>, limit: nat) {
    Screenable(info, policy) &&
    forall t :: limit <= t < |Route(info, policy)| ==> info.containers[Route(info, policy)[t]].id !in inUse
  }

  /** The first containers on the route. */
  ghost function FirstOnes(info: AgentInfo, route: seq<nat>, count: nat): (ids: set<int>)
    requires forall t :: 0 <= t < |route| ==> route[t] < |info.containers|
  {
    set t: nat | t < count && t < |route| :: info.containers[route[t]].id
  }

  lemma {:induction false} FirstOnesCount(info: AgentInfo, route: seq<nat>, count: nat)
    requires (forall t :: 0 <= t < |route| ==> route[t] < |info.containers|) && Distinct(route)
    requires Distinct(Ids(info.containers))
    ensures |FirstOnes(info, route, count)| == if count < |route| then count else |route|
  {
    hide Distinct;
    if count == 0 {
      assert FirstOnes(info, route, count) == {};
    } else {
      FirstOnesCount(info, route, count - 1);
      if count - 1 < |route| {
        var id := info.containers[route[count - 1]].id;
        FirstIsNew(info, route, count - 1);
        assert FirstOnes(info, route, count) == FirstOnes(info, route, count - 1) + {id};
      } else {
        assert FirstOnes(info, route, count) == FirstOnes(info, route, count - 1);
      }
    }
  }

  lemma FirstIsNew(info: AgentInfo, route: seq<nat>, t: nat)
    requires (forall t :: 0 <= t < |route| ==> route[t] < |info.containers|) && Distinct(route) && t < |route|
    requires Distinct(Ids(info.containers))
    ensures info.containers[route[t]].id !in FirstOnes(info, route, t)
  {
    forall u: nat | u < t
      ensures info.containers[route[u]].id != info.containers[route[t]].id
    {
      assert Ids(info.containers)[route[u]] == info.containers[route[u]].id;
      assert Ids(info.containers)[route[t]] == info.containers[route[t]].id;
    }
  }

  /** The ids that belong to the agent. */
  ghost function OwnedIds(ids: seq<int>, owners: map<int, string>, ip: string): set<int> {
    set id | id in ids && id in owners && AddrIP(owners[id]) == ip
  }

  lemma {:induction false} OwnedIdsCount(ids: seq<int>, owners: map<int, string>, ip: string)
    requires Distinct(ids)
    ensures |OwnedIds(ids, owners, ip)| == Owned(ids, owners, ip)
  {
    hide AddrIP;
    if ids == [] {
      assert OwnedIds(ids, owners, ip) == {};
    } else {
      var front, id := ids[..|ids| - 1], ids[|ids| - 1];
      OwnedIdsCount(front, owners, ip);
      var one := if id in owners && AddrIP(owners[id]) == ip then {id} else {};
      assert OwnedIds(ids, owners, ip) == OwnedIds(front, owners, ip) + one;
    }
  }

  /** A container of the agent is on the route, unless the route follows utilisation. */
  lemma UsedIsOnRoute(owners: map<int, string>, agents: map<string, AgentInfo>, policy: Policy, ip: string, id: int)
    requires Consistent(owners, agents) && ip in agents && Screenable(agents[ip], policy) && !policy.LeastUsed?
    requires id in owners && AddrIP(owners[id]) == ip
    ensures exists t: nat :: Passed(agents[ip], Route(agents[ip], policy), t, id)
  {
    hide AddrIP;
    var info := agents[ip];
    var n, route := |info.containers|, Route(info, policy);
    assert id in IdSet(info.containers);
    var i :| 0 <= i < n && Ids(info.containers)[i] == id;
    var t := if i >= info.startIndex then i - info.startIndex else i - info.startIndex + n;
    assert route[t] == i;
    assert Passed(info, route, t, id);
  }

  lemma OnWayIsFirst(info: AgentInfo, policy: Policy, demand: Demand, limit: nat, id: int)
    requires demand.k > 0 && OnWay(info, policy, demand, limit, id)
    ensures Screenable(info, policy) && id in FirstOnes(info, Route(info, policy), limit)
  {
    hide Open, Route;
    var t: nat :| t < limit && Passed(info, Route(info, policy), t, id) && Open(info, Route(info, policy), t, demand);
  }

  /** What is chosen and what is in use stays within the limit, if what is in use is on the way. */
  lemma EarlyStaysWithin(ids: seq<int>, owners: map<int, string>, agents: map<string, AgentInfo>, policy: Policy,
                         demand: Demand, limit: nat, ip: string)
    requires Consistent(owners, agents) && demand.k > 0 && (policy.LeastUsed? ==> demand.inUse == {})
    requires Distinct(ids) && Reached(ids, owners, agents, policy, demand, limit) && ip in agents
    requires forall x :: 0 <= x < |ids| ==> ids[x] !in demand.inUse
    requires InUseEarly(agents[ip], policy, demand.inUse, limit)
    ensures Owned(ids, owners, ip) + |InUseAt(demand.inUse, owners, ip)| <= limit
  {
    hide AddrIP, Consistent, Distinct, Route, Owned, OnWay;
    OwnIdsDiffer(owners, agents, ip);
    var info, route := agents[ip], Route(agents[ip], policy);
    var first := FirstOnes(info, route, limit);
    FirstOnesCount(info, route, limit);
    OwnedIdsCount(ids, owners, ip);
    var chosen, used := OwnedIds(ids, owners, ip), InUseAt(demand.inUse, owners, ip);
    forall id | id in chosen
      ensures id in first
    {
      var x :| 0 <= x < |ids| && ids[x] == id;
      OnWayIsFirst(info, policy, demand, limit, id);
    }
    forall id | id in used
      ensures id in first
    {
      UsedIsOnRoute(owners, agents, policy, ip, id);
      var t: nat :| Passed(info, route, t, id);
    }
    assert chosen !! used;
    assert |chosen + used| == |chosen| + |used|;
    SubsetIsSmaller(chosen + used, first);
  }

  /** If something in use is not on the way, an agent with room that gives all it can goes over the limit. */
  lemma LateGoesOver(ids: seq<int>, owners: map<int, string>, agents: map<string, AgentInfo>, policy: Policy,
                     demand: Demand, limit: nat, ip: string)
    requires Consistent(owners, agents) && demand.k > 0 && !policy.LeastUsed? && Distinct(ids) && ip in agents
    requires Screenable(agents[ip], policy) && !InUseEarly(agents[ip], policy, demand.inUse, limit)
    requires Roomy(agents[ip], demand) && Drained(ids, agents[ip], policy, demand, limit)
    requires forall x :: 0 <= x < |ids| ==> ids[x] !in demand.inUse
    ensures Owned(ids, owners, ip) + |InUseAt(demand.inUse, owners, ip)| > limit
  {
    hide AddrIP, Distinct, Consistent, Roomy, Drained, Route;
    OwnIdsDiffer(owners, agents, ip);
    OwnedIdsCount(ids, owners, ip);
    var info, route := agents[ip], Route(agents[ip], policy);
    var chosen, used := OwnedIds(ids, owners, ip), InUseAt(demand.inUse, owners, ip);
    var first := FirstOnes(info, route, limit);
    FirstOnesCount(info, route, limit);
    var t :| limit <= t < |route| && info.containers[route[t]].id in demand.inUse;
    var id := info.containers[route[t]].id;
    LaterIsOther(info, route, limit, t);
    RouteIsOwned(owners, agents, route, ip);
    DrainedMeans(ids, info, policy, demand, limit);
    forall other | other in first + {id}
      ensures other in chosen + used
    {
      if other in first {
        var u: nat :| u < limit && u < |route| && other == info.containers[route[u]].id;
      }
    }
    assert |first + {id}| == limit + 1;
    assert chosen !! used;
    assert |chosen + used| == |chosen| + |used|;
    SubsetIsSmaller(first + {id}, chosen + used);
  }

  lemma LaterIsOther(info: AgentInfo, route: seq<nat>, count: nat, t: nat)
    requires (forall t :: 0 <= t < |route| ==> route[t] < |info.containers|) && Distinct(route)
    requires Distinct(Ids(info.containers)) && count <= t < |route|
    ensures info.containers[route[t]].id !in FirstOnes(info, route, count)
  {
    FirstIsNew(info, route, t);
  }

  lemma RouteIsOwned(owners: map<int, string>, agents: map<string, AgentInfo>, route: seq<nat>, ip: string)
    requires Consistent(owners, agents) && ip in agents
    requires forall t :: 0 <= t < |route| ==> route[t] < |agents[ip].containers|
    ensures forall t :: 0 <= t < |route| ==>
              var id := agents[ip].containers[route[t]].id;
              id in owners && AddrIP(owners[id]) == ip
  {
    hide AddrIP;
    forall t | 0 <= t < |route|
      ensures agents[ip].containers[route[t]].id in IdSet(agents[ip].containers)
    {
      assert Ids(agents[ip].containers)[route[t]] == agents[ip].containers[route[t]].id;
    }
  }

  /** An agent with room that has given all it could has given its first containers, up to the limit. */
  lemma DrainedMeans(ids: seq<int>, info: AgentInfo, policy: Policy, demand: Demand, limit: nat)
    requires demand.k > 0 && Roomy(info, demand) && Drained(ids, info, policy, demand, limit)
    ensures Covers(ids, info, Route(info, policy), limit, demand.inUse)
  {
    hide Demand.HasRoom, ReedSolomon.ChunkSize;
    var step: nat :| StopsAt(ids, info, policy, demand, limit, step);
  }

  /** Each container chosen is one of its agent, with room for the chunk. */
  lemma SelectionHasRoom(ids: seq<int>, owners: map<int, string>, agents: map<string, AgentInfo>, demand: Demand,
                         limit: nat, done: set<string>)
    requires demand.k > 0 && Selection(ids, owners, agents, demand, limit, done)
    ensures forall x :: 0 <= x < |ids| ==>
              && ids[x] in owners && ids[x] !in demand.inUse
              && var ip := AddrIP(owners[ids[x]]);
                 && ip in done && ip in agents
                 && exists c :: c in agents[ip].containers && c.id == ids[x]
                                && c.usage + ReedSolomon.ChunkSize(demand.k, demand.size) <= c.capacity
  {
    hide AddrIP, Owned, InUseAt, Demand.HasRoom, ReedSolomon.ChunkSize;
    forall x | 0 <= x < |ids|
      ensures && ids[x] in owners && ids[x] !in demand.inUse
              && var ip := AddrIP(owners[ids[x]]);
                 && ip in done && ip in agents
                 && exists c :: c in agents[ip].containers && c.id == ids[x]
                                && c.usage + ReedSolomon.ChunkSize(demand.k, demand.size) <= c.capacity
    {
      assert Eligible(ids[x], owners, agents, demand, limit, done);
      var info := agents[AddrIP(owners[ids[x]])];
      var i :| 0 <= i < |info.containers| && info.containers[i].id == ids[x] && demand.HasRoom(info.containers[i]);
      RoomForChunk(demand, info.containers[i]);
      assert info.containers[i] in info.containers;
    }
  }

  /** The limit for what is chosen together with what is in use. */
  lemma LimitTogether(ids: seq<int>, owners: map<int, string>, agents0: map<string, AgentInfo>,
                      agents: map<string, AgentInfo>, policy: Policy, demand: Demand, limit: nat, alive: set<string>,
                      short: bool)
    requires demand.k > 0 && Consistent(owners, agents0)
    requires Progress(ids, owners, agents0, agents, demand, limit, policy, alive, alive)
    requires short && (policy.LeastUsed? ==> demand.inUse == {}) ==>
               AllDrained(ids, owners, agents0, policy, demand, limit, alive)
    ensures (policy.LeastUsed? ==> demand.inUse == {}) ==>
              forall ip :: ip in alive && ip in agents0 && InUseEarly(agents0[ip], policy, demand.inUse, limit) ==>
                Owned(ids, owners, ip) + |InUseAt(demand.inUse, owners, ip)| <= limit
    ensures short && !policy.LeastUsed? ==>
              forall ip :: ip in alive && ip in agents0 && Roomy(agents0[ip], demand)
                           && |InUseAt(demand.inUse, owners, ip)| < limit
                           && Owned(ids, owners, ip) + |InUseAt(demand.inUse, owners, ip)| <= limit ==>
                InUseEarly(agents0[ip], policy, demand.inUse, limit)
  {
    hide Consistent, AddrIP, Distinct, InUseAt, Owned, StopsAt, Roomy, InUseEarly, Reached, ReedSolomon.ChunkSize;
    SelectionHasRoom(ids, owners, agents0, demand, limit, alive);
    forall ip | ip in alive && ip in agents0 && (policy.LeastUsed? ==> demand.inUse == {})
                && InUseEarly(agents0[ip], policy, demand.inUse, limit) {
      EarlyStaysWithin(ids, owners, agents0, policy, demand, limit, ip);
    }
    forall ip | ip in alive && ip in agents0 && short && !policy.LeastUsed? && Roomy(agents0[ip], demand)
                && |InUseAt(demand.inUse, owners, ip)| < limit
                && !InUseEarly(agents0[ip], policy, demand.inUse, limit) {
      LateGoesOver(ids, owners, agents0, policy, demand, limit, ip);
    }
  }

  /** Screens the agents, and fills up with the containers that were postponed. */
  method SelectContainers(coordinator: Coordinator, demand: Demand, counts: map<string, nat>, spares: array<int>,
                          numSpare: int, limit: nat, policy: Policy, order: seq<string>)
    returns (selected: nat, ghost near: nat)
    requires coordinator.Valid() && numSpare <= spares.Length && demand.k > 0
    requires Distinct(order) && Elements(order) == coordinator.alive
    requires AllScreenable(coordinator.agents, coordinator.alive, policy)
    requires forall ip :: CountOf(counts, ip) == |InUseAt(demand.inUse, coordinator.containerToAgent, ip)|
    requires forall ip :: CountsInUse(counts, ip)
    modifies coordinator`agents, spares
    ensures near <= selected <= if numSpare > 0 then numSpare else 0
    ensures Progress(spares[..selected], coordinator.containerToAgent, old(coordinator.agents), coordinator.agents,
                     demand, limit, policy, coordinator.alive, coordinator.alive)
    ensures selected < numSpare && (policy.LeastUsed? ==> demand.inUse == {}) ==>
              AllDrained(spares[..selected], coordinator.containerToAgent, old(coordinator.agents), policy, demand,
                         limit, coordinator.alive)
    ensures var queue := Queue(order, coordinator.containerToAgent, old(coordinator.agents), demand, limit, policy);
            && Ranked(spares[..near], coordinator.containerToAgent, old(coordinator.agents), policy, queue,
                      coordinator.startingAgent, true)
            && Ranked(spares[near..selected], coordinator.containerToAgent, old(coordinator.agents), policy, queue,
                      coordinator.startingAgent, false)
    ensures numSpare > 0 && demand.inUse == {} && AllRoomy(old(coordinator.agents), coordinator.alive, demand) ==>
              selected ==
                var supply := Supply(old(coordinator.agents), order, policy, limit);
                if supply < numSpare then supply else numSpare
  {
    hide Selection, OnlyStarts, AllScreenable, Consistent, InUseAt, Distinct, CountOf, CountsInUse, Supply, AllRoomy,
      AllDrained, Ranked, Queue, Reached;
    selected, near := 0, 0;
    if numSpare <= 0 {
      NoneYet(order, coordinator.containerToAgent, coordinator.agents, demand, limit, policy,
              coordinator.startingAgent);
      ProgressStarts(coordinator.containerToAgent, coordinator.agents, demand, limit, policy, coordinator.alive);
      ProgressSkips([], coordinator.containerToAgent, coordinator.agents, coordinator.agents, demand, limit, policy,
                    coordinator.alive, {}, coordinator.alive);
      assert spares[..0] == [] && spares[0..0] == [];
      return;
    }
    var postponed;
    selected, postponed := ScreenAgents(coordinator, demand, counts, spares, numSpare, limit, policy, order);
    ghost var chosen := spares[..selected] + postponed;
    near := selected;
    selected := AddPostponed(spares, selected, numSpare, postponed);
    assert spares[..selected] == chosen[..selected] && (selected < numSpare ==> chosen[..selected] == chosen);
    SelectionPrefix(chosen, selected, coordinator.containerToAgent, old(coordinator.agents), demand, limit,
                    coordinator.alive);
    DistinctPrefix(chosen, selected);
    ReachedPrefix(chosen, selected, coordinator.containerToAgent, old(coordinator.agents), policy, demand, limit);
    assert spares[..near] == chosen[..near] && spares[near..selected] == postponed[..selected - near];
    RanksPrefix(postponed, selected - near, coordinator.containerToAgent, old(coordinator.agents), policy,
                Queue(order, coordinator.containerToAgent, old(coordinator.agents), demand, limit, policy),
                coordinator.startingAgent, false);
  }

  /**
   Chooses up to `numSpare` containers to store new chunks in, besides those of the stripe that are alive.
   The agents alive are given in the order they are looked at.
   */
  method FindSpareContainers(coordinator: Coordinator, ids: seq<int>, alive: seq<bool>, spares: array<int>,
                             numSpare: int, size: nat, meta: CodingMeta, policy: Policy, order: seq<string>)
    returns (selected: nat, ghost demand: Demand, ghost near: nat)
    requires coordinator.Valid() && |ids| == |alive| && numSpare <= spares.Length && meta.Valid()
    requires Distinct(order) && Elements(order) == coordinator.alive
    requires AllScreenable(coordinator.agents, coordinator.alive, policy)
    modifies coordinator`agents, coordinator`startingAgent, spares
    ensures demand.k == meta.k && demand.size == size
    ensures forall c :: c in demand.inUse <==> exists i :: 0 <= i < |ids| && alive[i] && ids[i] == c
    ensures numSpare <= 0 ==> selected == 0
    ensures numSpare > 0 ==> selected <= numSpare
    ensures Selection(spares[..selected], coordinator.containerToAgent, old(coordinator.agents), demand, meta.Limit(),
                      coordinator.alive)
    ensures (policy.LeastUsed? ==> demand.inUse == {}) ==> Distinct(spares[..selected])
    // what is chosen is a container of an agent alive, not in use, with room for the chunk
    ensures forall x :: 0 <= x < selected ==>
              && spares[x] in coordinator.containerToAgent && spares[x] !in demand.inUse
              && var ip := AddrIP(coordinator.containerToAgent[spares[x]]);
                 && ip in coordinator.alive && ip in old(coordinator.agents)
                 && exists c :: c in old(coordinator.agents)[ip].containers && c.id == spares[x]
                                && c.usage + ReedSolomon.ChunkSize(meta.k, size) <= c.capacity
    // it is among the first `limit` of its agent, and none before it is too full
    ensures (policy.LeastUsed? ==> demand.inUse == {}) ==>
              Reached(spares[..selected], coordinator.containerToAgent, old(coordinator.agents), policy, demand,
                      meta.Limit())
    // fewer than wanted are chosen only if all agents gave what they could
    ensures selected < numSpare && (policy.LeastUsed? ==> demand.inUse == {}) ==>
              AllDrained(spares[..selected], coordinator.containerToAgent, old(coordinator.agents), policy, demand,
                         meta.Limit(), coordinator.alive)
    // together with the containers in use an agent stays within the limit if it looks at these in time
    ensures (policy.LeastUsed? ==> demand.inUse == {}) ==>
              forall ip :: ip in coordinator.alive && ip in old(coordinator.agents)
                           && InUseEarly(old(coordinator.agents)[ip], policy, demand.inUse, meta.Limit()) ==>
                Owned(spares[..selected], coordinator.containerToAgent, ip) +
                  |InUseAt(demand.inUse, coordinator.containerToAgent, ip)| <= meta.Limit()
    // and only then, if it has room, and gave all it could
    ensures selected < numSpare && !policy.LeastUsed? ==>
              forall ip :: ip in coordinator.alive && ip in old(coordinator.agents)
                           && Roomy(old(coordinator.agents)[ip], demand)
                           && |InUseAt(demand.inUse, coordinator.containerToAgent, ip)| < meta.Limit()
                           && Owned(spares[..selected], coordinator.containerToAgent, ip) +
                                |InUseAt(demand.inUse, coordinator.containerToAgent, ip)| <= meta.Limit() ==>
                InUseEarly(old(coordinator.agents)[ip], policy, demand.inUse, meta.Limit())
    // the containers of preferred agents come first
    ensures near <= selected
    ensures var queue := Queue(order, coordinator.containerToAgent, old(coordinator.agents), demand, meta.Limit(),
                               policy);
            && Ranked(spares[..near], coordinator.containerToAgent, old(coordinator.agents), policy, queue,
                      old(coordinator.startingAgent), true)
            && Ranked(spares[near..selected], coordinator.containerToAgent, old(coordinator.agents), policy, queue,
                      old(coordinator.startingAgent), false)
    ensures policy.RoundRobin? && demand.inUse == {} ==>
              forall x, a :: 0 <= x < selected && 0 <= a < |order|
                             && order[a] == AddrIP(coordinator.containerToAgent[spares[x]]) ==>
                (x < near <==> a >= old(coordinator.startingAgent))
    ensures policy.Static? && old(coordinator.startingAgent) == 0 ==>
              forall x :: 0 <= x < selected ==>
                (x < near <==> old(coordinator.agents)[AddrIP(coordinator.containerToAgent[spares[x]])].isNear)
    // with nothing in use and room everywhere, as many as wanted are chosen, or all that the agents can give
    ensures numSpare > 0 && demand.inUse == {} && AllRoomy(old(coordinator.agents), coordinator.alive, demand) ==>
              selected ==
                var supply := Supply(old(coordinator.agents), order, policy, meta.Limit());
                if supply < numSpare then supply else numSpare
    ensures coordinator.Valid() && OnlyStarts(old(coordinator.agents), coordinator.agents, coordinator.alive)
    ensures AllScreenable(coordinator.agents, coordinator.alive, policy)
    ensures coordinator.startingAgent ==
              if policy.RoundRobin? && numSpare > 0 && |order| > 0 then Next(old(coordinator.startingAgent), |order|)
              else old(coordinator.startingAgent)
  {
    hide Selection, OnlyStarts, AllScreenable, Consistent, InUseAt, Distinct, CountOf, CountsInUse, Supply, AllRoomy,
      Next, AllDrained, Ranked, Queue, AddrIP, ReedSolomon.ChunkSize, Reached, InUseEarly, Roomy, Owned;
    var inUse, counts := CountInUse(ids, alive, coordinator.containerToAgent);
    demand := Demand(inUse, size, meta.k);
    selected, near := SelectContainers(coordinator, Demand(inUse, size, meta.k), counts, spares, numSpare, meta.Limit(),
                                       policy, order);
    ghost var chosen := spares[..selected];
    assert chosen[..near] == spares[..near] && chosen[near..] == spares[near..selected];
    assert forall x :: 0 <= x < selected ==> spares[x] == chosen[x];
    RanksMean(chosen, near, coordinator.containerToAgent, old(coordinator.agents), demand, meta.Limit(),
              policy, order, coordinator.startingAgent);
    SelectionHasRoom(chosen, coordinator.containerToAgent, old(coordinator.agents), demand, meta.Limit(),
                     coordinator.alive);
    LimitTogether(chosen, coordinator.containerToAgent, old(coordinator.agents), coordinator.agents, policy,
                  demand, meta.Limit(), coordinator.alive, selected < numSpare);
    if policy.RoundRobin? && numSpare > 0 && |order| > 0 {
      coordinator.startingAgent := Next(coordinator.startingAgent, |order|);
    }
    StartsKeepConsistency(coordinator.containerToAgent, old(coordinator.agents), coordinator.agents, coordinator.alive);
  }

  const TWO := [Container(1, 100, 100), Container(2, 0, 100)]

  lemma SecondIsHidden(info: AgentInfo, demand: Demand, id: int)
    requires info.containers == TWO && info.startIndex == 0 && demand.inUse == {} && demand.k == 1
    ensures Screenable(info, RoundRobin) && Distinct(Ids(info.containers))
    ensures OnWay(info, RoundRobin, demand, 2, id) ==> id == 1
  {
    var route := Route(info, RoundRobin);
    assert route[0] == 0 && route[1] == 1;
    assert !demand.HasRoom(info.containers[route[0]]);
  }

  /** A pool without members is empty. */
  lemma NothingInUse(demand: Demand)
    requires forall c :: c !in demand.inUse
    ensures demand == Demand({}, demand.size, demand.k)
  {
    if demand.inUse != {} {
      var c := Any(demand.inUse);
    }
  }

  method TwoContainers(addr: string) returns (c: Coordinator)
    ensures fresh(c) && c.Valid() && c.alive == {AddrIP(addr)} == Elements([AddrIP(addr)])
    ensures AddrIP(addr) in c.agents && c.agents[AddrIP(addr)] == AgentInfo(TWO, true, 0, [])
    ensures AllScreenable(c.agents, c.alive, RoundRobin) && c.startingAgent == 0
    ensures forall id :: id in c.containerToAgent ==> c.containerToAgent[id] == addr
  {
    hide AddrIP, Consistent, Refuses, Harmless;
    c := new Coordinator();
    var req := Registration(addr, TWO, true, []);
    assert Ids(TWO) == [1, 2] && Distinct([1, 2]);
    var ok;
    ghost var rejected;
    ok, rejected := c.RegisterAgent(req);
  }

  /** A full container hides those after it: of an agent with a full container and an empty one, none is chosen. */
  method FullHides(addr: string) returns (c: Coordinator, selected: nat)
    ensures c.Valid() && selected == 0 && AddrIP(addr) in c.alive && AddrIP(addr) in c.agents
    ensures c.agents[AddrIP(addr)].containers == TWO
  {
    hide AddrIP, Consistent, Selection, AllDrained, Ranked, Queue, InUseEarly, Roomy, InUseAt, Supply, AllRoomy,
      Screenable, Owned, Ids, IdSet, OnWay, OnlyStarts;
    c := TwoContainers(addr);
    var ip := AddrIP(addr);
    var spares := new int[1];
    ghost var demand, near;
    ghost var agents0, info := c.agents, c.agents[ip];
    selected, demand, near := FindSpareContainers(c, [], [], spares, 1, 1, CodingMeta(3, 1, 1), RoundRobin, [ip]);
    NothingInUse(demand);
    OnlyStartsMean(agents0, c.agents, c.alive);
    if selected > 0 {
      SecondIsHidden(info, demand, spares[0]);
    }
  }

  const THREE := [Container(1, 0, 100), Container(2, 0, 100), Container(3, 0, 100)]

  /** The agent looks at containers 1 and 2, and not at 3. */
  lemma ThirdIsLate(info: AgentInfo, owners: map<int, string>, demand: Demand)
    requires info.containers == THREE && info.startIndex == 0 && demand == Demand({3}, 1, 1)
    requires 3 in owners
    ensures Screenable(info, RoundRobin) && Distinct(Ids(info.containers)) && Roomy(info, demand)
    ensures !InUseEarly(info, RoundRobin, demand.inUse, 2) && |InUseAt(demand.inUse, owners, AddrIP(owners[3]))| == 1
    ensures CodingMeta(3, 1, 1).Limit() == 2
  {
    hide AddrIP;
    assert InUseAt(demand.inUse, owners, AddrIP(owners[3])) == {3};
    var route := Route(info, RoundRobin);
    assert route[2] == 2 && info.containers[route[2]].id in demand.inUse;
  }

  lemma {:induction false} AllOwned(ids: seq<int>, owners: map<int, string>, ip: string)
    requires forall x :: 0 <= x < |ids| ==> ids[x] in owners && AddrIP(owners[ids[x]]) == ip
    ensures Owned(ids, owners, ip) == |ids|
  {
    hide AddrIP;
    if ids != [] {
      AllOwned(ids[..|ids| - 1], owners, ip);
    }
  }

  method ThreeContainers(addr: string) returns (c: Coordinator)
    ensures fresh(c) && c.Valid() && c.alive == {AddrIP(addr)} == Elements([AddrIP(addr)])
    ensures AddrIP(addr) in c.agents && c.agents[AddrIP(addr)] == AgentInfo(THREE, true, 0, [])
    ensures AllScreenable(c.agents, c.alive, RoundRobin)
    ensures forall id :: id in c.containerToAgent <==> id in {1, 2, 3}
    ensures forall id :: id in c.containerToAgent ==> c.containerToAgent[id] == addr
  {
    hide AddrIP, Consistent, Refuses, Harmless;
    c := new Coordinator();
    var req := Registration(addr, THREE, true, []);
    assert Ids(THREE) == [1, 2, 3] && Distinct([1, 2, 3]);
    var ok;
    ghost var rejected;
    ok, rejected := c.RegisterAgent(req);
  }

  lemma OnlyInUse(demand: Demand)
    requires demand.k == 1 && demand.size == 1
    requires forall c :: c in demand.inUse <==> exists i :: 0 <= i < 1 && [true][i] && [3][i] == c
    ensures demand == Demand({3}, 1, 1)
  {
    forall c: int
      ensures c in demand.inUse <==> c in {3}
    {
      assert c in demand.inUse ==> exists i :: 0 <= i < 1 && [true][i] && [3][i] == c;
      assert [true][0] && [3][0] == 3;
    }
  }

  /**
   What is in use counts only as far as it is looked at. A stripe of three chunks, any one of which is enough, may lose
   an agent if that has two chunks; one is in its third container, and the other two are put into its first ones.
   */
  method OverLimit(addr: string) returns (c: Coordinator, chosen: seq<int>)
    ensures c.Valid() && |chosen| == 2 && Distinct(chosen) && 3 !in chosen
    ensures forall id :: id in chosen + [3] ==> id in c.containerToAgent && c.containerToAgent[id] == addr
  {
    hide AddrIP, Consistent, Selection, OnlyStarts, AllDrained, Ranked, Queue, InUseEarly, Roomy, InUseAt, Supply,
      AllRoomy, Screenable, Owned, ReedSolomon.ChunkSize, Ids, IdSet;
    c := ThreeContainers(addr);
    var ip := AddrIP(addr);
    ghost var agents0 := c.agents;
    ThirdIsLate(agents0[ip], c.containerToAgent, Demand({3}, 1, 1));
    var spares := new int[3];
    ghost var near, demand;
    var selected;
    selected, demand, near := FindSpareContainers(c, [3], [true], spares, 3, 1, CodingMeta(3, 1, 1), RoundRobin, [ip]);
    OnlyInUse(demand);
    chosen := spares[..selected];
    AllOwned(chosen, c.containerToAgent, ip);
    SelectionLimits(chosen, c.containerToAgent, agents0, demand, 2, c.alive);
  }
}
