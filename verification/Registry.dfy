/**
 The registry of agents and containers at the proxy, src/proxy/coordinator.cc: which agent serves a
 container, which agents are alive, and how registrations change both.
 */
module Registry {
  import opened Sequences
  import opened Address

  datatype Container = Container(id: int, usage: nat, capacity: nat)

  /** What the proxy keeps about an agent; byUsage lists container indices from least to most used. */
  datatype AgentInfo = AgentInfo(containers: seq<Container>, isNear: bool, startIndex: nat, byUsage: seq<nat>)

  /** A registration request of the agent at `addr`. */
  datatype Registration = Registration(addr: string, containers: seq<Container>, isNear: bool, byUsage: seq<nat>)

  function Ids(cs: seq<Container>): (ids: seq<int>)
    ensures |ids| == |cs|
  {
    seq(|cs|, i requires 0 <= i < |cs| => cs[i].id)
  }

  function IdSet(cs: seq<Container>): set<int> {
    Elements(Ids(cs))
  }

  /** The position the source searches for: the first match that is not the last container. */
  function MatchBeforeLast(cs: seq<Container>, id: int): (j: nat)
    ensures j < |cs| - 1 ==> cs[j].id == id
    ensures j >= |cs| - 1 ==> forall x :: 0 <= x < |cs| - 1 ==> cs[x].id != id
  {
    if |cs| <= 1 then 0 else if cs[0].id == id then 0 else 1 + MatchBeforeLast(cs[1..], id)
  }

  /** Shifting the following containers over the match and shortening the list by one. */
  function Release(cs: seq<Container>, id: int): seq<Container> {
    var j := MatchBeforeLast(cs, id);
    if cs == [] then [] else if j < |cs| - 1 then cs[..j] + cs[j + 1..] else cs[..|cs| - 1]
  }

  /** Releasing a container of a list without repetition takes out that container and no other. */
  lemma ReleaseRemoves(cs: seq<Container>, id: int)
    requires Distinct(Ids(cs)) && id in IdSet(cs)
    ensures Distinct(Ids(Release(cs, id))) && IdSet(Release(cs, id)) == IdSet(cs) - {id}
  {
    hide MatchBeforeLast, Release;
    var ids := Ids(cs);
    var i :| 0 <= i < |cs| && ids[i] == id;
    forall x | 0 <= x < |cs| && x != i
      ensures cs[x].id != id
    {
      assert ids[x] == cs[x].id && ids[x] != ids[i];
    }
    ReleasedAt(cs, id, i);
    RemovedAt(ids, i);
    IdsRemoved(cs, i);
  }

  /** Releasing a container that is not in the list takes out the last one instead. */
  lemma ReleaseDropsLast(cs: seq<Container>, id: int)
    requires Distinct(Ids(cs)) && id !in IdSet(cs)
    ensures Distinct(Ids(Release(cs, id))) && IdSet(Release(cs, id)) <= IdSet(cs)
    ensures cs != [] ==> IdSet(Release(cs, id)) != IdSet(cs)
  {
    if cs != [] {
      var last, ids := |cs| - 1, Ids(cs);
      assert forall x :: 0 <= x < |cs| ==> ids[x] == cs[x].id && ids[x] in IdSet(cs);
      assert Release(cs, id) == cs[..last] && Ids(cs[..last]) == ids[..last];
      assert ids[last] !in ids[..last];
    }
  }

  /** What is left in the list of an agent; one whose list was shaken lacks something of what it should have. */
  ghost predicate Remains(listed: set<int>, left: set<int>, shaken: bool) {
    && listed <= left && (!shaken ==> listed == left)
    && (shaken && left != {} ==> listed != left)
  }

  lemma Missing(listed: set<int>, left: set<int>) returns (c: int)
    requires listed <= left && listed != left
    ensures c in left && c !in listed
  {
    NothingLeft(left, listed);
    assert left <= listed ==> left == listed;
    c := Any(left - listed);
  }

  lemma NothingLeft(all: set<int>, gone: set<int>)
    ensures all - gone == {} <==> all <= gone
  {
    if all - gone == {} {
      forall c | c in all
        ensures c in gone
      {
        assert c !in all - gone;
      }
    }
  }

  lemma ReleaseRemains(cs: seq<Container>, id: int, left: set<int>, shaken: bool)
    requires Distinct(Ids(cs)) && Remains(IdSet(cs), left, shaken)
    ensures Distinct(Ids(Release(cs, id))) && Remains(IdSet(Release(cs, id)), left - {id}, shaken || id !in left)
  {
    hide Release, Distinct;
    if id in IdSet(cs) {
      ReleaseRemoves(cs, id);
      if shaken {
        var x := Missing(IdSet(cs), left);
        assert x in left - {id} && x !in IdSet(Release(cs, id));
      }
    } else {
      ReleaseDropsLast(cs, id);
    }
  }

  lemma IdsRemoved(cs: seq<Container>, i: nat)
    requires i < |cs|
    ensures Ids(cs[..i] + cs[i + 1..]) == Ids(cs)[..i] + Ids(cs)[i + 1..]
  {
  }

  lemma ReleasedAt(cs: seq<Container>, id: int, i: nat)
    requires i < |cs| && cs[i].id == id && forall x :: 0 <= x < |cs| && x != i ==> cs[x].id != id
    ensures Release(cs, id) == cs[..i] + cs[i + 1..]
  {
    var j := MatchBeforeLast(cs, id);
    if j >= |cs| - 1 {
      assert i == |cs| - 1;
    }
  }

  lemma RemovedAt(s: seq<int>, i: nat)
    requires i < |s| && Distinct(s)
    ensures Distinct(s[..i] + s[i + 1..]) && Elements(s[..i] + s[i + 1..]) == Elements(s) - {s[i]}
  {
    assert s == s[..i] + [s[i]] + s[i + 1..];
  }

  /** The container belongs to an agent by the map exactly when it is in the list of that agent. */
  ghost predicate Consistent(containerToAgent: map<int, string>, agents: map<string, AgentInfo>) {
    && (forall c :: c in containerToAgent ==>
          AddrIP(containerToAgent[c]) in agents && c in IdSet(agents[AddrIP(containerToAgent[c])].containers))
    && (forall ip, c :: ip in agents && c in IdSet(agents[ip].containers) ==>
          c in containerToAgent && AddrIP(containerToAgent[c]) == ip)
    && (forall ip :: ip in agents ==> Distinct(Ids(agents[ip].containers)))
  }

  /**
   The state half way through a registration: the first containers are moved to the new address. Each time
   one of them is repeated, the agent at that address loses a container from its list.
   */
  ghost predicate Moving(before: map<int, string>, agents0: map<string, AgentInfo>, now: map<int, string>,
                         agents: map<string, AgentInfo>, moved: seq<int>, addr: string)
  {
    && (forall c :: c in now <==> c in before || c in moved)
    && (forall c :: c in now ==> now[c] == if c in moved then addr else before[c])
    && agents.Keys == agents0.Keys
    && (forall ip :: ip in agents ==>
          && Distinct(Ids(agents[ip].containers))
          && Remains(IdSet(agents[ip].containers), IdSet(agents0[ip].containers) - Elements(moved),
                     ip == AddrIP(addr) && !Distinct(moved)))
  }

  /** A registration is in conflict over a container that another address serves with its agent alive. */
  predicate Conflict(containerToAgent: map<int, string>, status: map<string, bool>, addr: string, id: int) {
    && id in containerToAgent && containerToAgent[id] != addr
    && AddrIP(containerToAgent[id]) in status && status[AddrIP(containerToAgent[id])]
  }

  /** A request is refused at a container in conflict, or repeated by an agent that is not known yet. */
  predicate Refuses(containerToAgent: map<int, string>, agents: map<string, AgentInfo>, status: map<string, bool>,
                    addr: string, ids: seq<int>, i: nat)
    requires i < |ids|
  {
    if ids[i] in ids[..i] then AddrIP(addr) !in agents else Conflict(containerToAgent, status, addr, ids[i])
  }

  lemma {:induction false} FirstOccurrence(ids: seq<int>, i: nat) returns (j: nat)
    requires i < |ids|
    ensures j <= i && ids[j] == ids[i] && ids[j] !in ids[..j]
  {
    j := i;
    if ids[i] in ids[..i] {
      var x :| 0 <= x < i && ids[x] == ids[i];
      j := FirstOccurrence(ids, x);
    }
  }

  /** What no container being refused means, in terms of the agents alive. */
  lemma NoneRefused(containerToAgent: map<int, string>, agents: map<string, AgentInfo>, status: map<string, bool>,
                    alive: set<string>, req: Registration)
    requires forall ip :: ip in alive <==> ip in status && status[ip]
    ensures (forall i :: 0 <= i < |req.containers| ==>
               !Refuses(containerToAgent, agents, status, req.addr, Ids(req.containers), i)) ==>
              forall i :: 0 <= i < |req.containers| ==>
                var id := req.containers[i].id;
                || id !in containerToAgent || containerToAgent[id] == req.addr
                || AddrIP(containerToAgent[id]) !in alive
    ensures forall i :: 0 <= i < |req.containers| ==>
              var id := req.containers[i].id;
              Distinct(Ids(req.containers)) && (|| id !in containerToAgent || containerToAgent[id] == req.addr
                                                || AddrIP(containerToAgent[id]) !in alive) ==>
                !Refuses(containerToAgent, agents, status, req.addr, Ids(req.containers), i)
  {
    hide AddrIP;
    var ids := Ids(req.containers);
    assert |ids| == |req.containers| && forall i :: 0 <= i < |ids| ==> ids[i] == req.containers[i].id;
    forall i | 0 <= i < |ids|
      ensures Distinct(ids) ==> ids[i] !in ids[..i]
      ensures Conflict(containerToAgent, status, req.addr, ids[i]) ==>
                exists j :: 0 <= j < |ids| && Refuses(containerToAgent, agents, status, req.addr, ids, j)
    {
      var j := FirstOccurrence(ids, i);
      assert Conflict(containerToAgent, status, req.addr, ids[i]) ==>
          Refuses(containerToAgent, agents, status, req.addr, ids, j);
    }
  }

  /** Moving these containers loses none that the agent had: none is repeated, or all it had are among them. */
  predicate Harmless(agents: map<string, AgentInfo>, addr: string, ids: seq<int>) {
    Distinct(ids) || AddrIP(addr) !in agents || IdSet(agents[AddrIP(addr)].containers) <= Elements(ids)
  }

  lemma DistinctIsHarmless(agents: map<string, AgentInfo>, addr: string, ids: seq<int>, i: nat)
    requires i <= |ids|
    ensures Distinct(ids) ==> Harmless(agents, addr, ids[..i])
  {
  }

  lemma MovingKeys(before: map<int, string>, agents0: map<string, AgentInfo>, now: map<int, string>,
                   agents: map<string, AgentInfo>, moved: seq<int>, addr: string)
    requires Moving(before, agents0, now, agents, moved, addr)
    ensures agents.Keys == agents0.Keys
  {
  }

  lemma KeysWith(agents: map<string, AgentInfo>, ip: string, info: AgentInfo)
    ensures agents[ip := info].Keys == agents.Keys + {ip}
  {
  }

  lemma RepeatedIsInconsistent(containerToAgent: map<int, string>, agents: map<string, AgentInfo>, ip: string)
    requires ip in agents
    ensures Consistent(containerToAgent, agents) ==> Distinct(Ids(agents[ip].containers))
  {
  }

  lemma NothingMoved(before: map<int, string>, agents: map<string, AgentInfo>, addr: string, ids: seq<int>)
    requires Consistent(before, agents)
    ensures Moving(before, agents, before, agents, ids[..0], addr)
  {
    assert Elements(ids[..0]) == {};
  }

  /** What a step of the registration loop can rely on for container i. */
  lemma StepFacts(before: map<int, string>, agents0: map<string, AgentInfo>, now: map<int, string>,
                  agents: map<string, AgentInfo>, req: Registration, i: nat)
    requires Consistent(before, agents0) && i < |req.containers|
    requires Moving(before, agents0, now, agents, Ids(req.containers)[..i], req.addr)
    ensures Ids(req.containers)[i] == req.containers[i].id
    ensures Ids(req.containers)[..i + 1] == Ids(req.containers)[..i] + [req.containers[i].id]
    ensures var id, moved := req.containers[i].id, Ids(req.containers)[..i];
            && (id in now <==> id in before || id in moved)
            && (id in now ==> now[id] == if id in moved then req.addr else before[id])
            && (id in now && id !in moved ==> AddrIP(now[id]) in agents)
            && now - Elements(moved) == before - Elements(moved)
  {
    hide AddrIP, IdSet;
    ErasedAlike(before, now, Ids(req.containers)[..i]);
  }

  lemma ErasedAlike(before: map<int, string>, now: map<int, string>, moved: seq<int>)
    requires forall c :: c in now <==> c in before || c in moved
    requires forall c :: c in now && c !in moved ==> now[c] == before[c]
    ensures now - Elements(moved) == before - Elements(moved)
  {
    var l, r := now - Elements(moved), before - Elements(moved);
    assert forall c :: c in Elements(moved) <==> c in moved;
    assert forall c :: c in l <==> c in now && c !in moved;
    assert forall c :: c in r <==> c in before && c !in moved;
    assert forall c :: c in l <==> c in r;
    forall c | c in l
      ensures l[c] == r[c]
    {
      assert l[c] == now[c] && r[c] == before[c];
    }
  }

  /** A container nobody serves is taken over. */
  lemma MoveNew(before: map<int, string>, agents0: map<string, AgentInfo>, now: map<int, string>,
                agents: map<string, AgentInfo>, moved: seq<int>, addr: string, id: int)
    requires Consistent(before, agents0) && Moving(before, agents0, now, agents, moved, addr) && id !in now
    ensures Moving(before, agents0, now[id := addr], agents, moved + [id], addr)
  {
    hide AddrIP, IdSet, Ids, Remains, Distinct;
    MovedNext(moved, id);
    forall ip | ip in agents
      ensures IdSet(agents0[ip].containers) - Elements(moved + [id]) == IdSet(agents0[ip].containers) - Elements(moved)
    {
      assert id !in IdSet(agents0[ip].containers);
    }
  }

  lemma MovedNext(moved: seq<int>, id: int)
    ensures Elements(moved + [id]) == Elements(moved) + {id}
    ensures Distinct(moved + [id]) <==> Distinct(moved) && id !in moved
  {
    var next := moved + [id];
    if Distinct(next) {
      assert forall i :: 0 <= i < |moved| ==> moved[i] == next[i];
      assert next[|moved|] == id;
    }
  }

  /** A container is moved out of the list of the agent that had it; a repeated one was already moved. */
  lemma MoveOwned(before: map<int, string>, agents0: map<string, AgentInfo>, now: map<int, string>,
                  agents: map<string, AgentInfo>, moved: seq<int>, addr: string, id: int)
    requires Consistent(before, agents0) && Moving(before, agents0, now, agents, moved, addr) && id in now
    requires AddrIP(now[id]) in agents
    ensures var ip := AddrIP(now[id]);
            var info := agents[ip].(containers := Release(agents[ip].containers, id));
            Moving(before, agents0, now[id := addr], agents[ip := info], moved + [id], addr)
  {
    hide AddrIP, IdSet, Ids, Release, Remains, Distinct;
    MovedNext(moved, id);
    var ip := AddrIP(now[id]);
    var left := IdSet(agents0[ip].containers) - Elements(moved);
    ReleaseRemains(agents[ip].containers, id, left, ip == AddrIP(addr) && !Distinct(moved));
    assert IdSet(agents0[ip].containers) - Elements(moved + [id]) == left - {id};
    assert id in left <==> id !in moved;
    forall other | other in agents && other != ip
      ensures IdSet(agents0[other].containers) - Elements(moved + [id]) ==
                IdSet(agents0[other].containers) - Elements(moved)
    {
      assert id in moved || id !in IdSet(agents0[other].containers);
    }
  }

  /** Erasing the moved containers from the map leaves map and lists consistent, unless the agent has lost one. */
  lemma RollBack(before: map<int, string>, agents0: map<string, AgentInfo>, now: map<int, string>,
                 agents: map<string, AgentInfo>, moved: seq<int>, addr: string)
    requires Consistent(before, agents0) && Moving(before, agents0, now, agents, moved, addr)
    ensures Consistent(now - Elements(moved), agents) <==> Harmless(agents0, addr, moved)
  {
    hide AddrIP, IdSet, Ids, Distinct;
    if !Harmless(agents0, addr, moved) {
      var ip := AddrIP(addr);
      var listed, left := IdSet(agents[ip].containers), IdSet(agents0[ip].containers) - Elements(moved);
      NothingLeft(IdSet(agents0[ip].containers), Elements(moved));
      var c := Missing(listed, left);
      assert c in now - Elements(moved) && AddrIP(now[c]) == ip;
    }
  }

  /** The map after the list of an agent is replaced: what it served before and lost is erased. */
  function Replaced(now: map<int, string>, agents: map<string, AgentInfo>, ip: string): map<int, string> {
    if ip in agents then now - IdSet(agents[ip].containers) else now
  }

  lemma CompleteMove(before: map<int, string>, agents0: map<string, AgentInfo>, now: map<int, string>,
                     agents: map<string, AgentInfo>, addr: string, info: AgentInfo)
    requires Consistent(before, agents0) && Moving(before, agents0, now, agents, Ids(info.containers), addr)
    requires Distinct(Ids(info.containers))
    ensures Consistent(Replaced(now, agents, AddrIP(addr)), agents[AddrIP(addr) := info])
    ensures forall c :: c in Replaced(now, agents, AddrIP(addr)) <==>
              c in Ids(info.containers) || (c in before && AddrIP(before[c]) != AddrIP(addr))
    ensures forall c :: c in Replaced(now, agents, AddrIP(addr)) ==>
              Replaced(now, agents, AddrIP(addr))[c] == if c in Ids(info.containers) then addr else before[c]
  {
    hide AddrIP, Ids, Distinct;
  }

  /** No container is in the lists of two agents. */
  lemma OneOwner(containerToAgent: map<int, string>, agents: map<string, AgentInfo>, ip: string, other: string)
    requires Consistent(containerToAgent, agents) && ip in agents && other in agents && ip != other
    ensures IdSet(agents[ip].containers) !! IdSet(agents[other].containers)
  {
    hide IdSet, AddrIP;
    forall c | c in IdSet(agents[ip].containers)
      ensures c !in IdSet(agents[other].containers)
    {
      assert AddrIP(containerToAgent[c]) == ip;
    }
  }

  /** The agents that are marked alive. */
  ghost function AliveIn(status: map<string, bool>): set<string> {
    set ip | ip in status && status[ip]
  }

  lemma AliveWith(status: map<string, bool>, ip: string)
    ensures AliveIn(status[ip := true]) == AliveIn(status) + {ip}
  {
  }

  lemma AliveIsKnown(status: map<string, bool>)
    ensures forall ip :: ip in AliveIn(status) <==> ip in status && status[ip]
  {
  }

  /** A step of the registry: an agent registers, or cannot be reached. */
  datatype Step = Register(req: Registration) | Down(ip: string)

  class Coordinator {
    var containerToAgent: map<int, string>
    var agents: map<string, AgentInfo>
    var status: map<string, bool>
    var alive: set<string>
    var startingAgent: nat

    ghost predicate Valid()
      reads this
    {
      && Consistent(containerToAgent, agents)
      && status.Keys == agents.Keys
      && alive == AliveIn(status)
    }

    constructor ()
      ensures Valid() && containerToAgent == map[] && agents == map[] && alive == {} && startingAgent == 0
    {
      containerToAgent, agents, status, alive, startingAgent := map[], map[], map[], {}, 0;
    }

    method SetAgentAlive(ip: string)
      modifies this
      ensures status == old(status)[ip := true] && alive == old(alive) + {ip}
      ensures containerToAgent == old(containerToAgent) && agents == old(agents) && startingAgent == old(startingAgent)
    {
      alive := alive + {ip};
      status := status[ip := true];
    }

    /** An agent that cannot be reached is marked down; one never seen is reported. */
    method SetAgentDown(ip: string) returns (known: bool)
      requires Valid()
      modifies this
      ensures Valid() && (known <==> ip in old(status)) && alive == old(alive) - {ip}
      ensures status == if known then old(status)[ip := false] else old(status)
      ensures containerToAgent == old(containerToAgent) && agents == old(agents) && startingAgent == old(startingAgent)
    {
      alive := alive - {ip};
      known := ip in status;
      if known {
        status := status[ip := false];
      }
    }

    /** Claims container i of a request; on a conflict the containers claimed before are erased. */
    method ClaimContainer(req: Registration, i: nat, ghost before: map<int, string>,
                          ghost agents0: map<string, AgentInfo>)
      returns (ok: bool)
      requires Consistent(before, agents0) && i < |req.containers| && agents0.Keys == status.Keys
      requires Moving(before, agents0, containerToAgent, agents, Ids(req.containers)[..i], req.addr)
      modifies this`containerToAgent, this`agents
      ensures agents.Keys == agents0.Keys
      ensures forall ip :: ip in agents0 && status[ip] && ip != AddrIP(req.addr) ==> agents[ip] == old(agents)[ip]
      ensures ok <==> !Refuses(before, agents0, status, req.addr, Ids(req.containers), i)
      // it can be claimed when it is free, of this address, or of an agent that is down
      ensures var id := req.containers[i].id;
              id !in Ids(req.containers)[..i] ==>
                (ok <==> || id !in before || before[id] == req.addr
                         || (AddrIP(before[id]) in status && !status[AddrIP(before[id])]))
      ensures req.containers[i].id in Ids(req.containers)[..i] ==> (ok <==> AddrIP(req.addr) in agents0)
      ensures ok ==> Moving(before, agents0, containerToAgent, agents, Ids(req.containers)[..i + 1], req.addr)
      ensures !ok ==> containerToAgent == before - Elements(Ids(req.containers)[..i])
      ensures !ok ==> (Consistent(containerToAgent, agents) <==> Harmless(agents0, req.addr, Ids(req.containers)[..i]))
    {
      hide AddrIP, Ids, IdSet, Consistent, Moving, Release, Distinct, Elements, Harmless;
      var id := req.containers[i].id;
      ghost var moved := Ids(req.containers)[..i];
      MovingKeys(before, agents0, containerToAgent, agents, moved, req.addr);
      StepFacts(before, agents0, containerToAgent, agents, req, i);
      if id !in containerToAgent {
        MoveNew(before, agents0, containerToAgent, agents, moved, req.addr, id);
        containerToAgent := containerToAgent[id := req.addr];
        return true;
      }
      var ip := AddrIP(containerToAgent[id]);
      if (containerToAgent[id] != req.addr && status[ip]) || ip !in agents {
        RollBack(before, agents0, containerToAgent, agents, moved, req.addr);
        containerToAgent := containerToAgent - Elements(Ids(req.containers)[..i]);
        return false;
      }
      MoveOwned(before, agents0, containerToAgent, agents, moved, req.addr, id);
      agents := agents[ip := agents[ip].(containers := Release(agents[ip].containers, id))];
      containerToAgent := containerToAgent[id := req.addr];
      return true;
    }

    /** Claims the containers of a request one by one. */
    method ClaimContainers(req: Registration) returns (ok: bool, list: seq<Container>, ghost rejected: nat)
      requires Valid()
      modifies this`containerToAgent, this`agents
      ensures agents.Keys == old(agents).Keys
      ensures forall ip :: ip in agents && status[ip] && ip != AddrIP(req.addr) ==> agents[ip] == old(agents)[ip]
      ensures ok ==> list == req.containers
      ensures ok ==>
                Moving(old(containerToAgent), old(agents), containerToAgent, agents, Ids(req.containers), req.addr)
      ensures ok ==> forall i :: 0 <= i < |req.containers| ==>
                !Refuses(old(containerToAgent), old(agents), status, req.addr, Ids(req.containers), i)
      ensures !ok ==>
                && rejected < |req.containers|
                && Refuses(old(containerToAgent), old(agents), status, req.addr, Ids(req.containers), rejected)
                && (forall i :: 0 <= i < rejected ==>
                      !Refuses(old(containerToAgent), old(agents), status, req.addr, Ids(req.containers), i))
                && containerToAgent == old(containerToAgent) - Elements(Ids(req.containers)[..rejected])
                && (Consistent(containerToAgent, agents) <==>
                    Harmless(old(agents), req.addr, Ids(req.containers)[..rejected]))
    {
      hide AddrIP, Ids, IdSet, Consistent, Moving, Distinct, Elements, Refuses, Harmless;
      list := [];
      ghost var before, agents0 := containerToAgent, agents;
      ghost var ids := Ids(req.containers);
      NothingMoved(before, agents, req.addr, ids);
      ok, rejected := true, 0;
      for i := 0 to |req.containers|
        invariant agents.Keys == agents0.Keys && list == req.containers[..i] && ok
        invariant Moving(before, agents0, containerToAgent, agents, ids[..i], req.addr)
        invariant forall ip :: ip in agents0 && status[ip] && ip != AddrIP(req.addr) ==> agents[ip] == agents0[ip]
        invariant forall x :: 0 <= x < i ==> !Refuses(before, agents0, status, req.addr, ids, x)
      {
        ok := ClaimContainer(req, i, before, agents0);
        if !ok {
          rejected := i;
          return;
        }
        list := list + [req.containers[i]];
      }
      assert list == req.containers && ids[..|req.containers|] == ids;
    }

    /**
     Registers an agent with its containers. It is refused when a container is served by another
     address whose agent is alive; containers of agents that are down, or of the agent itself, move.
     */
    method RegisterAgent(req: Registration) returns (ok: bool, ghost rejected: nat)
      requires Valid()
      modifies this
      // refused exactly when some container is
      ensures ok <==> forall i :: 0 <= i < |req.containers| ==>
                        !Refuses(old(containerToAgent), old(agents), old(status), req.addr, Ids(req.containers), i)
      // each container asked for is free, of this address, or of an agent that is down; this is enough if they differ
      ensures ok ==> forall i :: 0 <= i < |req.containers| ==>
                var id := req.containers[i].id;
                || id !in old(containerToAgent) || old(containerToAgent)[id] == req.addr
                || AddrIP(old(containerToAgent)[id]) !in old(alive)
      ensures Distinct(Ids(req.containers)) && (forall i :: 0 <= i < |req.containers| ==>
                var id := req.containers[i].id;
                || id !in old(containerToAgent) || old(containerToAgent)[id] == req.addr
                || AddrIP(old(containerToAgent)[id]) !in old(alive)) ==>
                ok
      // an accepted agent is alive with exactly the containers it asked for
      ensures ok ==>
                && AddrIP(req.addr) in agents
                && agents[AddrIP(req.addr)] == AgentInfo(req.containers, req.isNear, 0, req.byUsage)
                && alive == old(alive) + {AddrIP(req.addr)} && status == old(status)[AddrIP(req.addr) := true]
      ensures ok && Distinct(Ids(req.containers)) ==>
                && (forall c :: c in containerToAgent <==>
                      || c in Ids(req.containers)
                      || (c in old(containerToAgent) && AddrIP(old(containerToAgent)[c]) != AddrIP(req.addr)))
                && (forall c :: c in containerToAgent ==>
                      containerToAgent[c] == if c in Ids(req.containers) then req.addr else old(containerToAgent)[c])
      ensures ok ==> agents.Keys == old(agents).Keys + {AddrIP(req.addr)}
      ensures !ok ==> agents.Keys == old(agents).Keys
      // the other agents that are alive keep all they have
      ensures forall ip :: ip in old(alive) && ip != AddrIP(req.addr) ==>
                ip in agents && ip in old(agents) && agents[ip] == old(agents)[ip]
      // a refused one changes no liveness, and costs exactly the containers listed before the refusal
      ensures !ok ==> alive == old(alive) && status == old(status)
      ensures !ok ==>
                && rejected < |req.containers|
                && Refuses(old(containerToAgent), old(agents), old(status), req.addr, Ids(req.containers), rejected)
                && (forall i :: 0 <= i < rejected ==>
                      !Refuses(old(containerToAgent), old(agents), old(status), req.addr, Ids(req.containers), i))
                && containerToAgent == old(containerToAgent) - Elements(Ids(req.containers)[..rejected])
      // the registry stays consistent exactly when an accepted request repeats no id, or a refused one is harmless
      ensures Distinct(Ids(req.containers)) ==> Valid()
      ensures ok ==> (Valid() <==> Distinct(Ids(req.containers)))
      ensures !ok ==> (Valid() <==> Harmless(old(agents), req.addr, Ids(req.containers)[..rejected]))
      ensures startingAgent == old(startingAgent)
    {
      hide AddrIP, Ids, IdSet, Consistent, Moving, Distinct, Elements, Refuses, Harmless, AliveIn;
      AliveIsKnown(status);
      ghost var before, agents0 := containerToAgent, agents;
      NoneRefused(before, agents0, status, alive, req);
      var list;
      ok, list, rejected := ClaimContainers(req);
      if !ok {
        DistinctIsHarmless(agents0, req.addr, Ids(req.containers), rejected);
        return;
      }
      var ip := AddrIP(req.addr);
      var info := AgentInfo(list, req.isNear, 0, req.byUsage);
      SetAgentAlive(ip);
      AliveWith(old(status), ip);
      if Distinct(Ids(req.containers)) {
        CompleteMove(before, agents0, containerToAgent, agents, req.addr, info);
      }
      containerToAgent := Replaced(containerToAgent, agents, ip);
      KeysWith(agents, ip, info);
      agents := agents[ip := info];
      RepeatedIsInconsistent(containerToAgent, agents, ip);
    }

    /**
     Any run of registrations and failures keeps the registry valid, the refused registrations with
     their rollback included, as long as no request repeats a container.
     */
    method Run(steps: seq<Step>)
      requires Valid()
      requires forall s :: 0 <= s < |steps| && steps[s].Register? ==> Distinct(Ids(steps[s].req.containers))
      modifies this
      ensures Valid()
      // an agent never seen to register in the run stays unknown
      ensures forall ip :: ip in agents && ip !in old(agents) ==>
                exists s :: 0 <= s < |steps| && steps[s].Register? && AddrIP(steps[s].req.addr) == ip
    {
      hide AddrIP, Ids, Consistent, Distinct;
      for s := 0 to |steps|
        invariant Valid()
        invariant forall ip :: ip in agents && ip !in old(agents) ==>
                    exists r :: 0 <= r < s && steps[r].Register? && AddrIP(steps[r].req.addr) == ip
      {
        match steps[s]
        case Register(req) =>
          var _, _ := RegisterAgent(req);
        case Down(ip) =>
          var _ := SetAgentDown(ip);
      }
    }
  }

  /** A request for these containers. */
  function Asks(addr: string, ids: seq<int>): (req: Registration)
    ensures req.addr == addr && Ids(req.containers) == ids
  {
    var containers := seq(|ids|, i requires 0 <= i < |ids| => Container(ids[i], 0, 1));
    assert Ids(containers) == ids;
    Registration(addr, containers, false, [])
  }

  lemma IdsAre(cs: seq<Container>)
    ensures |Ids(cs)| == |cs| && forall i :: 0 <= i < |cs| ==> Ids(cs)[i] == cs[i].id
  {
  }

  /** In a consistent registry the list of an agent is what the map gives it. */
  lemma ListIs(containerToAgent: map<int, string>, agents: map<string, AgentInfo>, ip: string, ids: set<int>)
    requires Consistent(containerToAgent, agents) && ip in agents
    requires forall id :: id in ids <==> id in containerToAgent && AddrIP(containerToAgent[id]) == ip
    ensures IdSet(agents[ip].containers) == ids
  {
    hide AddrIP, IdSet;
    forall id: int
      ensures id in IdSet(agents[ip].containers) <==> id in ids
    {
      if id in ids {
        assert id in IdSet(agents[AddrIP(containerToAgent[id])].containers);
      }
    }
  }

  /**
   One agent registers, and goes down or not; then another registers. It is accepted when the first is down, or
   they share no container. What they share is then in the list of the second, and no longer in that of the first.
   */
  method TakeOver(first: Registration, second: Registration, down: bool) returns (c: Coordinator, ok: bool)
    requires AddrIP(first.addr) != AddrIP(second.addr)
    requires Distinct(Ids(first.containers)) && Distinct(Ids(second.containers))
    ensures c.Valid()
    ensures ok <==> down || Elements(Ids(first.containers)) !! Elements(Ids(second.containers))
    ensures ok ==>
              forall id :: id in c.containerToAgent <==> id in Ids(first.containers) || id in Ids(second.containers)
    ensures ok ==>
              forall id :: id in c.containerToAgent ==>
                c.containerToAgent[id] == if id in Ids(second.containers) then second.addr else first.addr
    ensures ok ==>
              && AddrIP(first.addr) in c.agents && AddrIP(second.addr) in c.agents
              && c.agents[AddrIP(second.addr)].containers == second.containers
              && IdSet(c.agents[AddrIP(first.addr)].containers) ==
                   Elements(Ids(first.containers)) - Elements(Ids(second.containers))
    ensures ok ==> AddrIP(second.addr) in c.alive && (AddrIP(first.addr) in c.alive <==> !down)
  {
    hide AddrIP, Consistent, IdSet, Ids, Distinct, Refuses, Harmless;
    c := new Coordinator();
    ghost var rejected;
    ok, rejected := c.RegisterAgent(first);
    if down {
      var _ := c.SetAgentDown(AddrIP(first.addr));
    }
    IdsAre(second.containers);
    ghost var taken := Elements(Ids(first.containers));
    assert forall id :: id in c.containerToAgent <==> id in taken;
    assert forall i :: 0 <= i < |second.containers| ==> second.containers[i].id in Elements(Ids(second.containers));
    ok, rejected := c.RegisterAgent(second);
    assert !down && ok ==> forall i :: 0 <= i < |second.containers| ==> second.containers[i].id !in taken;
    if ok {
      ListIs(c.containerToAgent, c.agents, AddrIP(first.addr),
             Elements(Ids(first.containers)) - Elements(Ids(second.containers)));
    }
  }

  /** An agent with containers 1 and 2 that registers 1 twice is accepted, and the registry is inconsistent. */
  method RepeatIsAccepted(addr: string) returns (c: Coordinator, ok: bool)
    ensures ok && !c.Valid()
  {
    hide AddrIP, Consistent, Ids, IdSet, Asks;
    c := new Coordinator();
    var first, second := Asks(addr, [1, 2]), Asks(addr, [1, 1]);
    ghost var rejected;
    ok, rejected := c.RegisterAgent(first);
    assert 1 in Ids(first.containers);
    assert Ids(second.containers)[0] == Ids(second.containers)[1] == 1;
    ok, rejected := c.RegisterAgent(second);
  }

  /** Two agents, with containers 1 and 2, and 9. */
  method TwoAgents(addr: string, other: string) returns (c: Coordinator)
    requires AddrIP(addr) != AddrIP(other)
    ensures fresh(c) && c.Valid() && c.containerToAgent.Keys == {1, 2, 9}
    ensures c.containerToAgent[1] == c.containerToAgent[2] == addr && c.containerToAgent[9] == other
    ensures AddrIP(addr) in c.agents && IdSet(c.agents[AddrIP(addr)].containers) == {1, 2}
    ensures AddrIP(other) in c.status && c.status[AddrIP(other)]
  {
    hide AddrIP, Consistent, Ids, Asks, Harmless;
    c := new Coordinator();
    var first, second := Asks(other, [9]), Asks(addr, [1, 2]);
    assert Distinct([1, 2]) && Distinct([9]) && Elements([1, 2]) == {1, 2};
    var ok;
    ghost var rejected;
    ok, rejected := c.RegisterAgent(first);
    assert ok && forall x :: x in c.containerToAgent <==> x in [9];
    assert 1 !in c.containerToAgent && 2 !in c.containerToAgent;
    ok, rejected := c.RegisterAgent(second);
    assert forall x :: x in c.containerToAgent <==> x in [1, 2] || x in [9];
  }

  lemma RepeatLosesOne(agents: map<string, AgentInfo>, addr: string)
    requires AddrIP(addr) in agents && IdSet(agents[AddrIP(addr)].containers) == {1, 2}
    ensures !Harmless(agents, addr, [1, 1])
  {
    hide AddrIP, IdSet;
    assert [1, 1][0] == [1, 1][1];
    assert 2 !in Elements([1, 1]);
  }

  /** Followed by a container that another agent serves, the request is refused, and 2 is no longer in the list. */
  method RepeatIsRefused(addr: string, other: string) returns (c: Coordinator, ok: bool)
    requires AddrIP(addr) != AddrIP(other)
    ensures !ok && !c.Valid()
  {
    hide AddrIP, Consistent, Ids, IdSet, Elements, Distinct, Harmless, Asks;
    c := TwoAgents(addr, other);
    var req := Asks(addr, [1, 1, 9]);
    ghost var ids := Ids(req.containers);
    assert ids[..0] == [] && ids[..1] == [1] && ids[..2] == [1, 1] && ids[2] == 9;
    assert Refuses(c.containerToAgent, c.agents, c.status, addr, ids, 2);
    RepeatLosesOne(c.agents, addr);
    ghost var rejected;
    ok, rejected := c.RegisterAgent(req);
    assert rejected == 2;
  }
}
