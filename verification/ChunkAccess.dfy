/**
 Accessing the chunks of a stripe at their agents, src/proxy/chunk_manager.cc: requests go out in
 rounds, the chunks of a node that fails are thrown away by shifting the parallel arrays, and a
 read goes on with chunks not tried yet. Agents are an arbitrary function of the request.
 */
module ChunkAccess {
  import opened Gf256
  import opened Blocks
  import opened Sequences
  import opened ReedSolomon

  type Digest = seq<Byte>

  datatype Operation = Get | Delete | Check | Revert

  /** What is known of a chunk; together with the version of its file the id is its name. */
  datatype ChunkMeta = ChunkMeta(id: nat, size: nat, md5: Digest, version: nat)

  /** A slot of the event array: request slots come first, reply slots after them. */
  datatype Event =
    | Idle
    | Request(id: nat, op: Operation, chunk: ChunkMeta, container: int)
    | Answer(success: bool, chunkId: nat, data: Chunk)

  /** What comes back for a request: whether the exchange went through, and the reply slot. */
  datatype Delivery = Delivery(sent: bool, reply: Event)

  /** One access: the operation, the chunks of the file, the checksum in use, and the agents. */
  datatype Access = Access(
    op: Operation,
    chunks: seq<ChunkMeta>,
    containers: seq<int>,
    verify: bool,
    md5: Chunk -> Digest,
    network: Event -> Delivery
  ) {
    predicate Valid() {
      |chunks| == |containers|
    }

    function RequestFor(id: nat, index: nat): Event
      requires Valid() && index < |chunks|
    {
      Request(id, op, chunks[index], containers[index])
    }

    /** The reply has the expected opcode and, for a read, the right size and checksum. */
    predicate Accepts(index: nat, d: Delivery)
      requires index < |chunks|
    {
      && d.sent && d.reply.Answer? && d.reply.success
      && (op.Get? ==>
            && |d.reply.data| == chunks[index].size
            && (verify ==> md5(d.reply.data) == chunks[index].md5))
    }

    /** A request slot and its reply slot belong to the chunk at `index`. */
    ghost predicate Matches(request: Event, sent: bool, reply: Event, index: nat)
      requires Valid()
    {
      && index < |chunks|
      && request.Request?
      && request == RequestFor(request.id, index)
      && network(request) == Delivery(sent, reply)
    }
  }

  /** The positions of the original list still in use: increasing, and made of whole nodes. */
  ghost predicate Keeps(keep: seq<nat>, total: nat, perNode: nat)
    requires perNode > 0
  {
    && (forall x :: 0 <= x < |keep| ==> keep[x] < total && keep[x] % perNode == x % perNode)
    && (forall x, y :: 0 <= x < y < |keep| ==> keep[x] < keep[y])
    && (forall x :: 0 < x < |keep| && x % perNode != 0 ==> keep[x] == keep[x - 1] + 1)
  }

  function Drop<T>(s: seq<T>, start: nat, count: nat): seq<T>
    requires start + count <= |s|
  {
    s[..start] + s[start + count..]
  }

  lemma DropAt<T>(s: seq<T>, start: nat, count: nat)
    requires start + count <= |s|
    ensures |Drop(s, start, count)| == |s| - count
    ensures forall x :: 0 <= x < start ==> Drop(s, start, count)[x] == s[x]
    ensures forall x :: start <= x < |s| - count ==> Drop(s, start, count)[x] == s[x + count]
  {
  }

  lemma DropKeeps(keep: seq<nat>, total: nat, perNode: nat, start: nat)
    requires perNode > 0 && Keeps(keep, total, perNode)
    requires start % perNode == 0 && start + perNode <= |keep|
    ensures Keeps(Drop(keep, start, perNode), total, perNode)
  {
    var rest := Drop(keep, start, perNode);
    forall x | 0 <= x < |rest|
      ensures rest[x] < total && rest[x] % perNode == x % perNode
      ensures 0 < x && x % perNode != 0 ==> rest[x] == rest[x - 1] + 1
    {
      ModAdds(perNode, x, perNode);
    }
  }

  /** The chunk at position x of a node is x - start places after the first one of that node. */
  lemma {:induction false} NodeIsConsecutive(keep: seq<nat>, total: nat, perNode: nat, start: nat, x: nat)
    requires perNode > 0 && Keeps(keep, total, perNode)
    requires start % perNode == 0 && start <= x < start + perNode && x < |keep|
    ensures keep[x] == keep[start] + (x - start)
    ensures Start(keep[x], perNode) == keep[start]
  {
    StartUnique(keep[start], keep[start] + (x - start), perNode);
    if x != start {
      NodeIsConsecutive(keep, total, perNode, start, x - 1);
      ModAdds(start, x - start, perNode);
      ModUnique(x - start, 0, x - start, perNode);
    }
  }

  /** The request numbered id for the chunk at orig[x] is answered as expected. */
  predicate Answered(a: Access, orig: seq<nat>, id: nat, x: nat)
    requires a.Valid() && Within(orig, |a.chunks|) && x < |orig|
  {
    a.Accepts(orig[x], a.network(a.RequestFor(id, orig[x])))
  }

  /** The requests of an access: request first + j asked for position asked[j] of the list. */
  datatype Log = Log(first: nat, asked: seq<nat>) {
    /** The number of the next request. */
    function Next(): nat {
      first + |asked|
    }

    /** Request id was sent, and asked for position y. */
    predicate Has(id: nat, y: nat) {
      first <= id < Next() && asked[id - first] == y
    }
  }

  /** A request that was sent for position z was not answered as expected. */
  ghost predicate Failed(a: Access, orig: seq<nat>, log: Log, z: nat)
    requires a.Valid() && Within(orig, |a.chunks|) && z < |orig|
  {
    exists id: nat :: log.Has(id, z) && !Answered(a, orig, id, z)
  }

  /** A request that was sent to the node of position y was not answered as expected. */
  ghost predicate NodeFails(a: Access, orig: seq<nat>, perNode: nat, log: Log, y: nat)
    requires a.Valid() && perNode > 0 && Within(orig, |a.chunks|)
  {
    exists z :: 0 <= z < |orig| && Start(z, perNode) == Start(y, perNode) && Failed(a, orig, log, z)
  }

  /** Requests sent later do not undo a failure. */
  lemma FailureStays(a: Access, orig: seq<nat>, perNode: nat, log: Log, more: Log, y: nat)
    requires a.Valid() && perNode > 0 && Within(orig, |a.chunks|)
    requires log.first == more.first && log.asked <= more.asked
    ensures NodeFails(a, orig, perNode, log, y) ==> NodeFails(a, orig, perNode, more, y)
  {
    hide Start, Answered;
    if NodeFails(a, orig, perNode, log, y) {
      var z :| 0 <= z < |orig| && Start(z, perNode) == Start(y, perNode) && Failed(a, orig, log, z);
      var id: nat :| log.Has(id, z) && !Answered(a, orig, id, z);
      assert more.Has(id, z);
      assert Failed(a, orig, more, z);
    }
  }

  lemma DroppedNodeFails(a: Access, orig: seq<nat>, keep: seq<nat>, perNode: nat, log: Log, start: nat, i: nat, y: nat)
    requires a.Valid() && perNode > 0 && Within(orig, |a.chunks|) && Keeps(keep, |orig|, perNode)
    requires start % perNode == 0 && start <= i < start + perNode <= |keep|
    requires Failed(a, orig, log, keep[i])
    requires y in keep && y !in Drop(keep, start, perNode)
    ensures NodeFails(a, orig, perNode, log, y)
  {
    hide Failed;
    assert keep == keep[..start] + keep[start..start + perNode] + keep[start + perNode..];
    assert y in keep[start..start + perNode];
    var x :| start <= x < start + perNode && keep[x] == y;
    NodeIsConsecutive(keep, |orig|, perNode, start, x);
    NodeIsConsecutive(keep, |orig|, perNode, start, i);
  }

  /** Whether all requests to the node of slot t succeeded, up to and including slot t. */
  ghost predicate Mark(passed: seq<bool>, perNode: nat, t: nat)
    requires perNode > 0 && t < |passed|
  {
    forall u :: Start(t, perNode) <= u <= t ==> passed[u]
  }

  /** An overlapping move of a[start + count..end] down to `start`. */
  method ShiftDown<T>(a: array<T>, start: nat, count: nat, end: nat)
    requires start + count <= end <= a.Length
    modifies a
    ensures forall x :: start <= x < end - count ==> a[x] == old(a[x + count])
    ensures forall x :: 0 <= x < a.Length && !(start <= x < end - count) ==> a[x] == old(a[x])
  {
    forall x | start <= x < end - count {
      a[x] := a[x + count];
    }
  }

  /** Swaps the first `count` events of a range step by step behind the others. */
  method RotateOut(events: array<Event>, start: nat, count: nat, end: nat)
    requires start + count <= end <= events.Length
    modifies events
    ensures forall x :: start <= x < end - count ==> events[x] == old(events[x + count])
    ensures forall x :: 0 <= x < events.Length && !(start <= x < end) ==> events[x] == old(events[x])
  {
    for idx := start to end - count
      invariant forall x :: start <= x < idx ==> events[x] == old(events[x + count])
      invariant forall x :: idx + count <= x < end ==> events[x] == old(events[x])
      invariant forall x :: 0 <= x < events.Length && !(start <= x < end) ==> events[x] == old(events[x])
    {
      events[idx], events[idx + count] := events[idx + count], events[idx];
    }
  }

  ghost predicate Listed(list: array?<nat>, orig: seq<nat>, keep: seq<nat>)
    reads list
  {
    list != null ==>
      && |keep| <= list.Length
      && forall x :: 0 <= x < |keep| ==> keep[x] < |orig| && list[x] == orig[keep[x]]
  }

  /** Slot x holds an accepted reply to a request for its chunk. */
  ghost predicate Holds(a: Access, events: array<Event>, n: nat, orig: seq<nat>, keep: seq<nat>, x: nat)
    requires a.Valid() && events.Length == 2 * n && x < n && x < |keep|
    reads events
  {
    && keep[x] < |orig|
    && a.Matches(events[x], true, events[n + x], orig[keep[x]])
    && a.Accepts(orig[keep[x]], Delivery(true, events[n + x]))
  }

  /** Slot x holds whatever came back for the request for its chunk in this round. */
  ghost predicate Pending(a: Access, events: array<Event>, sent: array<bool>, n: nat, orig: seq<nat>, keep: seq<nat>,
                          log: Log, passed: seq<bool>, x: nat)
    requires a.Valid() && events.Length == 2 * n && sent.Length == n && x < n && x < |keep| && x < |passed|
    reads events, sent
  {
    && keep[x] < |orig|
    && a.Matches(events[x], sent[x], events[n + x], orig[keep[x]]) && log.Has(events[x].id, keep[x])
    && passed[x] == a.Accepts(orig[keep[x]], Delivery(sent[x], events[n + x]))
  }

  /** Clears the replies of the node at `start` and moves the slots after it into its place. */
  method ShiftSlots(events: array<Event>, sent: array<bool>, n: nat, p: nat, start: nat, toCheck: nat)
    requires events.Length == 2 * n && sent.Length == n && start + p <= toCheck <= n
    modifies events, sent
    ensures forall x :: start <= x < toCheck - p ==> events[x] == old(events[x + p])
    ensures forall x :: n + start <= x < n + toCheck - p ==> events[x] == old(events[x + p])
    ensures forall x :: start <= x < toCheck - p ==> sent[x] == old(sent[x + p])
    ensures forall x :: 0 <= x < start ==> events[x] == old(events[x])
    ensures forall x :: n <= x < n + start ==> events[x] == old(events[x])
  {
    var j := start;
    while j < start + p
      modifies events
      invariant start <= j <= start + p
      invariant forall x :: 0 <= x < n + start || n + start + p <= x < 2 * n ==> events[x] == old(events[x])
    {
      events[n + j] := Idle;
      j := j + 1;
    }
    if start + p < n {
      ShiftDown(sent, start, p, n);
      RotateOut(events, start, p, toCheck);
      RotateOut(events, n + start, p, n + toCheck);
    }
  }

  /** Throws the node at `start` out of all parallel arrays. */
  method DropNode(a: Access, events: array<Event>, sent: array<bool>, n: nat, p: nat, list: array?<nat>, size: nat,
                  start: nat, toCheck: nat, ghost orig: seq<nat>, ghost keep: seq<nat>, ghost log: Log,
                  ghost passed: seq<bool>)
    requires a.Valid() && p > 0 && events.Length == 2 * n && sent.Length == n
    requires start + p <= toCheck <= n && toCheck <= size == |keep| && Listed(list, orig, keep) && toCheck <= |passed|
    requires forall x :: 0 <= x < start ==> Holds(a, events, n, orig, keep, x)
    requires forall x :: start + p <= x < toCheck ==> Pending(a, events, sent, n, orig, keep, log, passed, x)
    modifies events, sent, list
    ensures Listed(list, orig, Drop(keep, start, p))
    ensures forall x :: 0 <= x < start ==> Holds(a, events, n, orig, Drop(keep, start, p), x)
    ensures forall x :: start <= x < toCheck - p ==>
              Pending(a, events, sent, n, orig, Drop(keep, start, p), log, Drop(passed, start, p), x)
  {
    ShiftSlots(events, sent, n, p, start, toCheck);
    if start + p < size && list != null {
      ShiftDown(list, start, p, size);
    }
    ghost var rest := Drop(keep, start, p);
    forall x | start <= x < toCheck - p
      ensures Pending(a, events, sent, n, orig, rest, log, Drop(passed, start, p), x)
    {
      assert old(Pending(a, events, sent, n, orig, keep, log, passed, x + p));
      assert events[n + x] == old(events[n + x + p]);
    }
    forall x | 0 <= x < start
      ensures Holds(a, events, n, orig, rest, x)
    {
      assert old(Holds(a, events, n, orig, keep, x));
    }
  }

  lemma StartNext(i: nat, p: nat)
    requires p > 0
    ensures Start(i + 1, p) == (if i + 1 == Start(i, p) + p then i + 1 else Start(i, p))
  {
    hide Start;
    var s := Start(i, p);
    if i + 1 == s + p {
      ModAdds(s, p, p);
      StartUnique(i + 1, i + 1, p);
    } else {
      StartUnique(s, i + 1, p);
    }
  }

  /** Marking the slots of a node from its first failure on: none of them is alive. */
  lemma FailureMarks(passed: seq<bool>, p: nat, start: nat, shift: nat, i: nat, t: nat)
    requires p > 0 && start % p == 0 && shift % p == 0
    requires start <= i && i + shift <= t < start + shift + p && t < |passed| && !passed[i + shift]
    ensures !Mark(passed, p, t)
  {
    hide Start;
    ModAdds(start, shift, p);
    StartUnique(start + shift, t, p);
  }

  lemma SuccessMarks(passed: seq<bool>, p: nat, shift: nat, i: nat)
    requires p > 0 && shift % p == 0 && i + shift < |passed| && passed[i + shift]
    requires forall u :: Start(i, p) + shift <= u < i + shift ==> passed[u]
    ensures Mark(passed, p, i + shift)
  {
    hide Start;
    ModAdds(Start(i, p), shift, p);
    StartUnique(Start(i, p) + shift, i + shift, p);
  }

  lemma StartFits(first: nat, i: nat, end: nat, p: nat)
    requires p > 0 && first % p == 0 && end % p == 0 && first <= i < end
    ensures first <= Start(i, p) && Start(i, p) + p <= end
  {
    hide Start;
    if Start(i, p) < first {
      MultiplesApart(Start(i, p), first, p);
    }
    MultiplesApart(Start(i, p), end, p);
  }

  /** Marks the slots of a node from `i` on as failed, when the access asks for marks. */
  method MarkFailures(indicator: array?<bool>, wanted: bool, marked: nat, p: nat, start: nat, i: nat)
    returns (next: nat)
    requires start <= i < start + p
    requires wanted ==> indicator != null && marked + (start + p - i) <= indicator.Length
    modifies indicator
    ensures next == if wanted then marked + (start + p - i) else marked
    ensures indicator != null ==>
              forall t :: 0 <= t < indicator.Length ==>
                indicator[t] == if marked <= t < next then false else old(indicator[t])
  {
    next := marked;
    for j := start to start + p
      invariant next == if wanted && i <= j then marked + (j - i) else marked
      invariant indicator != null ==>
                  forall t :: 0 <= t < indicator.Length ==>
                    indicator[t] == if marked <= t < next then false else old(indicator[t])
    {
      if wanted && j >= i {
        indicator[next] := false;
        next := next + 1;
      }
    }
  }

  /** The index the check reads is in range, and it decides as the chunk of the slot would. */
  lemma CheckedIndex(a: Access, list: array?<nat>, orig: seq<nat>, keep: seq<nat>, p: nat, i: nat)
    requires a.Valid() && p > 0 && Within(orig, |a.chunks|) && Keeps(keep, |orig|, p) && Listed(list, orig, keep)
    requires i < |keep| && (list == null ==> !a.op.Get? && i < |a.chunks|)
    ensures list != null ==> i < list.Length
    ensures keep[i] < |orig|
    ensures var index := if list != null then list[i] else i;
            index < |a.chunks| && forall d :: a.Accepts(index, d) == a.Accepts(orig[keep[i]], d)
  {
  }

  /** A slot whose reply is accepted is done; a reply not accepted is one to a request that was sent. */
  lemma CheckedSlot(a: Access, events: array<Event>, sent: array<bool>, n: nat, orig: seq<nat>, keep: seq<nat>,
                    log: Log, passed: seq<bool>, i: nat)
    requires a.Valid() && Within(orig, |a.chunks|) && events.Length == 2 * n && sent.Length == n && i < n && i < |keep|
    requires i < |passed|
    requires Pending(a, events, sent, n, orig, keep, log, passed, i)
    ensures keep[i] < |orig| && orig[keep[i]] < |a.chunks|
    ensures passed[i] == a.Accepts(orig[keep[i]], Delivery(sent[i], events[n + i]))
    ensures passed[i] ==> Holds(a, events, n, orig, keep, i)
    ensures !passed[i] ==> Failed(a, orig, log, keep[i])
  {
    assert a.RequestFor(events[i].id, orig[keep[i]]) == events[i];
    assert passed[i] == Answered(a, orig, events[i].id, keep[i]);
  }

  /** The state of a round: slots before i hold accepted replies, slots up to toCheck are unchecked. */
  ghost predicate Checking(a: Access, events: array<Event>, sent: array<bool>, n: nat, p: nat, list: array?<nat>,
                           i: nat, toCheck: nat, orig: seq<nat>, keep0: seq<nat>, keep: seq<nat>, log: Log,
                           passed0: seq<bool>, passed: seq<bool>)
    reads events, sent, list
  {
    && a.Valid() && p > 0 && events.Length == 2 * n && sent.Length == n && Within(orig, |a.chunks|)
    && n % p == toCheck % p == 0 && i <= toCheck <= n && toCheck <= |keep| && n <= |keep0|
    && |keep0| - |keep| == n - toCheck
    && Keeps(keep, |orig|, p) && Listed(list, orig, keep)
    && |passed0| == n && |passed| == toCheck
    && (forall x :: i <= x < toCheck ==> passed[x] == passed0[x + (n - toCheck)])
    && (forall x :: 0 <= x < i ==> Holds(a, events, n, orig, keep, x))
    && (forall x :: i <= x < toCheck ==> Pending(a, events, sent, n, orig, keep, log, passed, x))
    && keep[toCheck..] == keep0[n..]
    && (forall y :: y in keep0 ==> y in keep || NodeFails(a, orig, p, log, y))
  }

  lemma CheckingLengths(a: Access, events: array<Event>, sent: array<bool>, n: nat, p: nat, list: array?<nat>,
                        first: nat, orig: seq<nat>, keep: seq<nat>, log: Log, passed: seq<bool>)
    requires Checking(a, events, sent, n, p, list, first, n, orig, keep, keep, log, passed, passed)
    ensures events.Length == 2 * n && sent.Length == n && p > 0 && n % p == 0 && first <= n <= |keep| && |passed| == n
  {
  }

  /** What the check of slot i reads, and what it decides. */
  lemma CheckingAt(a: Access, events: array<Event>, sent: array<bool>, n: nat, p: nat, list: array?<nat>, i: nat,
                   toCheck: nat, orig: seq<nat>, keep0: seq<nat>, keep: seq<nat>, log: Log, passed0: seq<bool>,
                   passed: seq<bool>)
    requires Checking(a, events, sent, n, p, list, i, toCheck, orig, keep0, keep, log, passed0, passed) && i < toCheck
    requires list == null ==> !a.op.Get? && n <= |a.chunks|
    ensures a.Valid() && p > 0 && i < n && events.Length == 2 * n && sent.Length == n && |passed0| == n
    ensures |passed| == toCheck
    ensures list != null ==> i < list.Length
    ensures var index := if list != null then list[i] else i;
            && index < |a.chunks|
            && a.Accepts(index, Delivery(sent[i], events[n + i])) == passed[i] == passed0[i + (n - toCheck)]
  {
    hide Start, Keeps, Listed, Holds, Pending, NodeFails;
    CheckedIndex(a, list, orig, keep, p, i);
    CheckedSlot(a, events, sent, n, orig, keep, log, passed, i);
  }

  lemma CheckingDone(a: Access, events: array<Event>, sent: array<bool>, n: nat, p: nat, list: array?<nat>, i: nat,
                     toCheck: nat, orig: seq<nat>, keep0: seq<nat>, keep: seq<nat>, log: Log, passed0: seq<bool>,
                     passed: seq<bool>)
    requires Checking(a, events, sent, n, p, list, i, toCheck, orig, keep0, keep, log, passed0, passed) && i == toCheck
    ensures a.Valid() && p > 0 && Within(orig, |a.chunks|) && toCheck % p == 0 && n <= |keep0| && toCheck <= |keep|
    ensures events.Length == 2 * n
    ensures Keeps(keep, |orig|, p) && Listed(list, orig, keep) && keep[i..] == keep0[n..]
    ensures forall x :: 0 <= x < i ==> Holds(a, events, n, orig, keep, x)
    ensures forall y :: y in keep0 ==> y in keep || NodeFails(a, orig, p, log, y)
  {
  }

  /** One more slot accepted. */
  lemma AcceptSlot(a: Access, events: array<Event>, sent: array<bool>, n: nat, p: nat, list: array?<nat>, i: nat,
                   toCheck: nat, orig: seq<nat>, keep0: seq<nat>, keep: seq<nat>, log: Log, passed0: seq<bool>,
                   passed: seq<bool>)
    requires Checking(a, events, sent, n, p, list, i, toCheck, orig, keep0, keep, log, passed0, passed)
    requires i < toCheck && passed[i]
    ensures Checking(a, events, sent, n, p, list, i + 1, toCheck, orig, keep0, keep, log, passed0, passed)
  {
    hide Start, Keeps, Listed, Holds, Pending, NodeFails;
    CheckedSlot(a, events, sent, n, orig, keep, log, passed, i);
  }

  /** The node of slot i thrown out, after its reply was not accepted. */
  method FailSlot(a: Access, events: array<Event>, sent: array<bool>, n: nat, p: nat, list: array?<nat>, size: nat,
                  i: nat, toCheck: nat, start: nat, ghost orig: seq<nat>, ghost keep0: seq<nat>, ghost keep: seq<nat>,
                  ghost log: Log, ghost passed0: seq<bool>, ghost passed: seq<bool>)
    returns (ghost keep': seq<nat>, ghost passed': seq<bool>)
    requires Checking(a, events, sent, n, p, list, i, toCheck, orig, keep0, keep, log, passed0, passed)
    requires i < toCheck && !passed[i] && start == Start(i, p) && size == |keep|
    modifies events, sent, list
    ensures p <= toCheck && start <= toCheck - p && |keep'| == |keep| - p
    ensures Checking(a, events, sent, n, p, list, start, toCheck - p, orig, keep0, keep', log, passed0, passed')
  {
    hide Start, Keeps, Listed, Holds, Pending, NodeFails, Drop;
    StartFits(0, i, toCheck, p);
    CheckedSlot(a, events, sent, n, orig, keep, log, passed, i);
    DropNode(a, events, sent, n, p, list, size, start, toCheck, orig, keep, log, passed);
    DropKeeps(keep, |orig|, p, start);
    DropAt(keep, start, p);
    DropAt(passed, start, p);
    keep', passed' := Drop(keep, start, p), Drop(passed, start, p);
    assert keep'[toCheck - p..] == keep[toCheck..];
    forall y | y in keep0
      ensures y in keep' || NodeFails(a, orig, p, log, y)
    {
      if y in keep && y !in keep' {
        DroppedNodeFails(a, orig, keep, p, log, start, i, y);
      }
    }
    ModSubtracts(p, toCheck, p);
  }

  /** The state of the marks: one per original slot checked so far, when all of them are marked. */
  ghost predicate Marked(indicator: array?<bool>, marking: bool, marked: nat, n: nat, p: nat, first: nat, i: nat,
                         toCheck: nat, passed0: seq<bool>)
    reads indicator
  {
    && p > 0 && n % p == first % p == toCheck % p == 0 && first <= i <= toCheck <= n == |passed0|
    && marked <= (i - first) + (n - toCheck)
    && (indicator != null ==> n <= indicator.Length)
    && (marking ==> indicator != null && first == 0 && marked == i + (n - toCheck)
                    && forall t :: 0 <= t < marked ==> indicator[t] == Mark(passed0, p, t))
    && (i < toCheck ==> forall u :: Start(i, p) + (n - toCheck) <= u < i + (n - toCheck) ==> passed0[u])
  }

  lemma NothingMarked(indicator: array?<bool>, marking: bool, n: nat, p: nat, first: nat, passed0: seq<bool>)
    requires p > 0 && n % p == first % p == 0 && first <= n == |passed0|
    requires (indicator != null ==> n <= indicator.Length)
    requires marking ==> indicator != null && first == 0
    ensures Marked(indicator, marking, 0, n, p, first, first, n, passed0)
  {
    hide Start;
    StartUnique(first, first, p);
  }

  lemma AllMarked(indicator: array?<bool>, marking: bool, marked: nat, n: nat, p: nat, first: nat, i: nat, toCheck: nat,
                  passed0: seq<bool>)
    requires Marked(indicator, marking, marked, n, p, first, i, toCheck, passed0) && i == toCheck
    ensures marking ==> p > 0 && |passed0| == n && indicator != null && n <= indicator.Length
                        && forall t :: 0 <= t < n ==> indicator[t] == Mark(passed0, p, t)
  {
  }

  /** Marks slot i alive, or the rest of its node failed. */
  method MarkSlot(indicator: array?<bool>, wanted: bool, marked: nat, n: nat, p: nat, start: nat, i: nat, toCheck: nat,
                  accepted: bool, ghost marking: bool, ghost first: nat, ghost passed0: seq<bool>)
    returns (next: nat)
    requires Marked(indicator, marking, marked, n, p, first, i, toCheck, passed0)
    requires i < toCheck && start == Start(i, p) && accepted == passed0[i + (n - toCheck)]
    requires marking ==> wanted
    requires wanted ==> indicator != null
    modifies indicator
    ensures p <= toCheck
    ensures accepted ==> Marked(indicator, marking, next, n, p, first, i + 1, toCheck, passed0)
    ensures !accepted ==> Marked(indicator, marking, next, n, p, first, start, toCheck - p, passed0)
  {
    hide Start, Mark;
    ghost var shift := n - toCheck;
    ModSubtracts(toCheck, n, p);
    StartFits(first, i, toCheck, p);
    StartUnique(start, start, p);
    ModSubtracts(p, toCheck, p);
    StartNext(i, p);
    next := marked;
    if accepted {
      SuccessMarks(passed0, p, shift, i);
      if wanted {
        indicator[next] := true;
        next := next + 1;
      }
      return;
    }
    next := MarkFailures(indicator, wanted, marked, p, start, i);
    forall t | marking && i + shift <= t < next
      ensures !Mark(passed0, p, t)
    {
      FailureMarks(passed0, p, start, shift, i, t);
    }
  }

  /** Every slot was answered as expected. */
  ghost predicate AllPassed(passed: seq<bool>) {
    forall t :: 0 <= t < |passed| ==> passed[t]
  }

  /**
   Checks the replies of one round. Nodes with a failed reply disappear from all arrays, the slots
   left hold accepted replies to their own chunks, and the marks follow the original slots.
   */
  method CheckReplies(a: Access, events: array<Event>, sent: array<bool>, n: nat, p: nat, list: array?<nat>,
                      indicator: array?<bool>, first: nat, size0: nat, ghost orig: seq<nat>, ghost keep0: seq<nat>,
                      ghost log: Log, ghost passed0: seq<bool>)
    returns (numSuccess: nat, size: nat, allSuccess: bool, ghost keep: seq<nat>)
    requires Checking(a, events, sent, n, p, list, first, n, orig, keep0, keep0, log, passed0, passed0)
    requires first % p == 0 && size0 == |keep0| && sent != indicator
    requires list == null ==> !a.op.Get? && n <= |a.chunks|
    requires indicator != null ==> n <= indicator.Length
    modifies events, sent, list, indicator
    ensures numSuccess <= n && numSuccess % p == 0 && size == |keep| && size0 - size == n - numSuccess
    ensures allSuccess <==> numSuccess == n
    ensures first == 0 ==> (allSuccess <==> AllPassed(passed0))
    ensures Keeps(keep, |orig|, p) && Listed(list, orig, keep) && keep[numSuccess..] == keep0[n..]
    ensures forall x :: 0 <= x < numSuccess ==> Holds(a, events, n, orig, keep, x)
    ensures forall y :: y in keep0 ==> y in keep || NodeFails(a, orig, p, log, y)
    ensures indicator != null && size0 <= n && first == 0 ==>
              forall t :: 0 <= t < n ==> indicator[t] == Mark(passed0, p, t)
  {
    hide Start, Keeps, Listed, Holds, NodeFails, Mark, Checking, Marked, Access.Accepts;
    CheckingLengths(a, events, sent, n, p, list, first, orig, keep0, log, passed0);
    size, keep, allSuccess := size0, keep0, true;
    ghost var passed := passed0;
    ghost var marking := indicator != null && size0 <= n && first == 0;
    var i: nat, toCheck: nat, marked: nat := first, n, 0;
    NothingMarked(indicator, marking, n, p, first, passed0);
    while i < toCheck
      invariant Checking(a, events, sent, n, p, list, i, toCheck, orig, keep0, keep, log, passed0, passed)
      invariant Marked(indicator, marking, marked, n, p, first, i, toCheck, passed0)
      invariant size == |keep| && (allSuccess <==> toCheck == n)
      invariant events.Length == 2 * n && sent.Length == n && i <= toCheck <= n && toCheck <= size
      invariant size0 - size == n - toCheck
      invariant allSuccess ==> forall t :: first <= t < i ==> passed0[t]
      invariant !allSuccess ==> exists t :: 0 <= t < n && !passed0[t]
      decreases toCheck, toCheck - i
    {
      CheckingAt(a, events, sent, n, p, list, i, toCheck, orig, keep0, keep, log, passed0, passed);
      var index := if list != null then list[i] else i;
      var start := Start(i, p);
      var accepted := a.Accepts(index, Delivery(sent[i], events[n + i]));
      marked := MarkSlot(indicator, indicator != null && n >= size, marked, n, p, start, i, toCheck, accepted, marking,
                         first, passed0);
      if accepted {
        AcceptSlot(a, events, sent, n, p, list, i, toCheck, orig, keep0, keep, log, passed0, passed);
        i := i + 1;
      } else {
        keep, passed := FailSlot(a, events, sent, n, p, list, size, i, toCheck, start, orig, keep0, keep, log, passed0,
                                 passed);
        size, toCheck, i, allSuccess := size - p, toCheck - p, start, false;
      }
    }
    numSuccess := i;
    CheckingDone(a, events, sent, n, p, list, i, toCheck, orig, keep0, keep, log, passed0, passed);
    AllMarked(indicator, marking, marked, n, p, first, i, toCheck, passed0);
  }

  /** Which of the requests numbered from firstId on, one per chunk wanted, are answered as expected. */
  function Outcomes(a: Access, orig: seq<nat>, firstId: nat): (o: seq<bool>)
    requires a.Valid() && Within(orig, |a.chunks|)
    ensures |o| == |orig|
  {
    seq(|orig|, x requires 0 <= x < |orig| => Answered(a, orig, firstId + x, x))
  }

  /** Requests for the first n of the list, numbered from firstId on, are all answered as expected. */
  ghost predicate AllAnswered(a: Access, orig: seq<nat>, firstId: nat, n: nat)
    requires a.Valid() && Within(orig, |a.chunks|) && n <= |orig|
  {
    forall x :: 0 <= x < n ==> a.Accepts(orig[x], a.network(a.RequestFor(firstId + x, orig[x])))
  }

  /** For an operation other than a read the reply has to be a success. */
  lemma PlainAnswers(a: Access, orig: seq<nat>, firstId: nat, n: nat)
    requires a.Valid() && Within(orig, |a.chunks|) && n <= |orig| && !a.op.Get?
    ensures AllAnswered(a, orig, firstId, n) <==>
              forall x :: 0 <= x < n ==>
                var d := a.network(Request(firstId + x, a.op, a.chunks[orig[x]], a.containers[orig[x]]));
                d.sent && d.reply.Answer? && d.reply.success
  {
  }

  /** Reply slot x says success, and for a read it has the size and, when verified, the checksum of its chunk. */
  ghost predicate Delivered(a: Access, events: array<Event>, n: nat, orig: seq<nat>, keep: seq<nat>, x: nat)
    requires a.Valid() && events.Length == 2 * n && x < n && x < |keep|
    reads events
  {
    && events[n + x].Answer? && events[n + x].success && keep[x] < |orig| && orig[keep[x]] < |a.chunks|
    && (a.op.Get? ==>
          && |events[n + x].data| == a.chunks[orig[keep[x]]].size
          && (a.verify ==> a.md5(events[n + x].data) == a.chunks[orig[keep[x]]].md5))
  }

  lemma HoldsMeans(a: Access, events: array<Event>, n: nat, orig: seq<nat>, keep: seq<nat>, x: nat)
    requires a.Valid() && events.Length == 2 * n && x < n && x < |keep| && Holds(a, events, n, orig, keep, x)
    ensures Delivered(a, events, n, orig, keep, x)
  {
  }

  /** Fills the request slots first..n. */
  method SendRequests(a: Access, events: array<Event>, n: nat, list: array?<nat>, first: nat, firstId: nat,
                      ghost orig: seq<nat>, ghost keep: seq<nat>)
    requires a.Valid() && events.Length == 2 * n && first <= n <= |keep| && Within(orig, |a.chunks|)
    requires Within(keep, |orig|) && Listed(list, orig, keep)
    requires list == null ==> forall x :: 0 <= x < n ==> orig[keep[x]] == x
    modifies events
    ensures forall x :: first <= x < n ==> events[x] == a.RequestFor(firstId + (x - first), orig[keep[x]])
    ensures forall x :: 0 <= x < first || n <= x < 2 * n ==> events[x] == old(events[x])
  {
    hide Access.Valid;
    for i := first to n
      invariant forall x :: first <= x < i ==> events[x] == a.RequestFor(firstId + (x - first), orig[keep[x]])
      invariant forall x :: 0 <= x < first || n <= x < 2 * n ==> events[x] == old(events[x])
    {
      var index := if list != null then list[i] else i;
      events[i] := a.RequestFor(firstId + (i - first), index);
    }
  }

  /** Waits for the replies to the requests in slots first..n. */
  method AwaitReplies(a: Access, events: array<Event>, sent: array<bool>, n: nat, first: nat)
    requires events.Length == 2 * n && sent.Length == n && first <= n
    modifies events, sent
    ensures forall x :: first <= x < n ==> a.network(events[x]) == Delivery(sent[x], events[n + x])
    ensures forall x :: 0 <= x < n + first ==> events[x] == old(events[x])
  {
    for i := first to n
      invariant forall x :: first <= x < i ==> a.network(events[x]) == Delivery(sent[x], events[n + x])
      invariant forall x :: 0 <= x < n + first ==> events[x] == old(events[x])
    {
      var d := a.network(events[i]);
      sent[i] := d.sent;
      events[n + i] := d.reply;
    }
  }

  /** One round of requests and replies for the slots that are not done yet. */
  method IssueRound(a: Access, events: array<Event>, sent: array<bool>, n: nat, p: nat, list: array?<nat>, first: nat,
                    firstId: nat, ghost orig: seq<nat>, ghost keep: seq<nat>, ghost log: Log)
    returns (ghost passed: seq<bool>)
    requires forall x :: first <= x < n && x < |keep| ==> log.Has(firstId + (x - first), keep[x])
    requires a.Valid() && p > 0 && n % p == 0 && events.Length == 2 * n && sent.Length == n && first <= n <= |keep|
    requires Within(orig, |a.chunks|) && Keeps(keep, |orig|, p) && Listed(list, orig, keep)
    requires list == null ==> forall x :: 0 <= x < n ==> orig[keep[x]] == x
    requires forall x :: 0 <= x < first ==> Holds(a, events, n, orig, keep, x)
    modifies events, sent
    ensures Checking(a, events, sent, n, p, list, first, n, orig, keep, keep, log, passed, passed)
    ensures forall x :: first <= x < n ==>
              keep[x] < |orig| && passed[x] == Answered(a, orig, firstId + (x - first), keep[x])
  {
    SendRequests(a, events, n, list, first, firstId, orig, keep);
    AwaitReplies(a, events, sent, n, first);
    passed := seq(n, x requires 0 <= x < n => first <= x && Answered(a, orig, firstId + (x - first), keep[x]));
    forall x | 0 <= x < first
      ensures Holds(a, events, n, orig, keep, x)
    {
      assert old(Holds(a, events, n, orig, keep, x));
    }
    forall x | first <= x < n
      ensures Pending(a, events, sent, n, orig, keep, log, passed, x)
    {
    }
  }

  /** Sends what is missing and checks what comes back. */
  method Round(a: Access, events: array<Event>, n: nat, p: nat, list: array?<nat>, indicator: array?<bool>, first: nat,
               size0: nat, firstId: nat, ghost orig: seq<nat>, ghost keep0: seq<nat>, ghost log0: Log)
    returns (numSuccess: nat, size: nat, allSuccess: bool, ghost keep: seq<nat>, ghost log: Log)
    requires firstId == log0.Next()
    requires a.Valid() && p > 0 && n % p == first % p == 0 && events.Length == 2 * n && first <= n <= size0 == |keep0|
    requires Within(orig, |a.chunks|) && Keeps(keep0, |orig|, p) && Listed(list, orig, keep0)
    requires list == null ==> !a.op.Get? && orig == keep0 == Identity(n)
    requires indicator != null ==> n <= indicator.Length
    requires forall x :: 0 <= x < first ==> Holds(a, events, n, orig, keep0, x)
    modifies events, list, indicator
    ensures numSuccess <= n && numSuccess % p == 0 && size == |keep| && size0 - size == n - numSuccess
    ensures allSuccess <==> numSuccess == n
    ensures first == 0 && keep0 == Identity(|orig|) ==>
              Within(orig, |a.chunks|) && n <= |orig| && (allSuccess <==> AllAnswered(a, orig, firstId, n))
    ensures Keeps(keep, |orig|, p) && Listed(list, orig, keep) && keep[numSuccess..] == keep0[n..]
    ensures forall x :: 0 <= x < numSuccess ==> Holds(a, events, n, orig, keep, x)
    ensures forall y :: y in keep0 ==> y in keep || NodeFails(a, orig, p, log, y)
    ensures log == Log(log0.first, log0.asked + keep0[first..n])
    ensures indicator != null && first == 0 && |orig| == n && keep0 == Identity(n) ==>
              forall t :: 0 <= t < n ==> indicator[t] == Mark(Outcomes(a, orig, firstId), p, t)
  {
    hide Start, Keeps, Listed, Holds, Pending, NodeFails, Mark, Answered, Checking, Identity, AllAnswered, Outcomes,
      AllPassed;
    var sent := new bool[n];
    log := Log(log0.first, log0.asked + keep0[first..n]);
    ghost var passed := IssueRound(a, events, sent, n, p, list, first, firstId, orig, keep0, log);
    CheckingLengths(a, events, sent, n, p, list, first, orig, keep0, log, passed);
    if first == 0 && |orig| == n && keep0 == Identity(n) {
      PassedIsOutcomes(a, orig, firstId, keep0, passed);
    }
    assert list == null && n > 0 ==> orig[n - 1] == n - 1;
    numSuccess, size, allSuccess, keep := CheckReplies(a, events, sent, n, p, list, indicator, first, size0, orig,
                                                       keep0, log, passed);
    if first == 0 && keep0 == Identity(|orig|) {
      PassedAll(a, orig, firstId, n, keep0, passed);
    }
  }

  lemma PassedIsOutcomes(a: Access, orig: seq<nat>, firstId: nat, keep: seq<nat>, passed: seq<bool>)
    requires a.Valid() && Within(orig, |a.chunks|) && |passed| == |orig| && keep == Identity(|orig|)
    requires forall x :: 0 <= x < |orig| ==>
               keep[x] < |orig| && passed[x] == Answered(a, orig, firstId + (x - 0), keep[x])
    ensures passed == Outcomes(a, orig, firstId)
  {
    hide Answered;
  }

  lemma PassedAll(a: Access, orig: seq<nat>, firstId: nat, n: nat, keep: seq<nat>, passed: seq<bool>)
    requires a.Valid() && Within(orig, |a.chunks|) && n <= |keep| && |passed| == n && keep == Identity(|orig|)
    requires forall x :: 0 <= x < n ==> keep[x] < |orig| && passed[x] == Answered(a, orig, firstId + (x - 0), keep[x])
    ensures AllPassed(passed) <==> AllAnswered(a, orig, firstId, n)
  {
    hide Access.Accepts;
    if AllAnswered(a, orig, firstId, n) {
      forall t | 0 <= t < n
        ensures passed[t]
      {
        assert keep[t] == t && a.Accepts(orig[t], a.network(a.RequestFor(firstId + t, orig[t])));
      }
    }
    if AllPassed(passed) {
      forall x | 0 <= x < n
        ensures a.Accepts(orig[x], a.network(a.RequestFor(firstId + x, orig[x])))
      {
        assert keep[x] == x && passed[x];
      }
    }
  }

  lemma IdentityKeeps(size: nat, p: nat)
    requires p > 0
    ensures Keeps(Identity(size), size, p)
  {
  }

  function ListSize(n: nat, listSize: int): nat
    requires listSize >= -1
  {
    if listSize == -1 then n else listSize
  }

  /**
   Accesses `n` chunks, p to a node. A read retries with chunks of the list not tried yet until n
   of them are in or fewer than n are left. `orig` is the list as it was passed in.
   */
  method AccessChunks(a: Access, events: array<Event>, n: nat, p: nat, list: array?<nat>, listSize: int,
                      indicator: array?<bool>, firstId: nat, ghost orig: seq<nat>)
    returns (ok: bool, nextId: nat, ghost keep: seq<nat>, ghost log: Log)
    requires a.Valid() && p > 0 && n % p == 0 && events.Length == 2 * n && listSize >= -1
    requires list == null ==> listSize == -1 && !a.op.Get? && orig == Identity(n)
    requires list != null ==> ListSize(n, listSize) <= list.Length && orig == list[..ListSize(n, listSize)]
    requires Within(orig, |a.chunks|)
    requires indicator != null ==> n <= indicator.Length
    modifies events, list, indicator
    // what is left is made of whole nodes of the list, in its order
    ensures Keeps(keep, |orig|, p) && Listed(list, orig, keep)
    // on success every slot holds an accepted reply to a request for the chunk its index names
    ensures ok ==> n <= |keep| && forall x :: 0 <= x < n ==> Holds(a, events, n, orig, keep, x)
    // no chunk is asked for twice
    ensures log.first == firstId && nextId == log.Next() <= firstId + |orig| && Distinct(log.asked)
    ensures Within(log.asked, |orig|)
    // a read succeeds exactly when enough chunks are left, and it gives up only chunks of nodes that failed a request
    ensures a.op.Get? && n > 0 ==> (ok <==> n <= |keep|)
    ensures forall y :: 0 <= y < |orig| ==> y in keep || NodeFails(a, orig, p, log, y)
    // any other operation succeeds exactly when all requests were sent and answered with success
    ensures !a.op.Get? && 0 < n <= |orig| ==>
              (ok <==> forall x :: 0 <= x < n ==>
                         var d := a.network(Request(firstId + x, a.op, a.chunks[orig[x]], a.containers[orig[x]]));
                         d.sent && d.reply.Answer? && d.reply.success)
    ensures !a.op.Get? && n > |orig| ==> !ok
    // an accepted chunk has its size and, when they are verified, its checksum
    ensures ok ==> forall x :: 0 <= x < n ==> Delivered(a, events, n, orig, keep, x)
    // without retries, mark t tells the fate of request t
    ensures !a.op.Get? && listSize == -1 && indicator != null ==>
              forall t :: 0 <= t < n ==> indicator[t] == Mark(Outcomes(a, orig, firstId), p, t)
  {
    hide Start, Keeps, Listed, Holds, Pending, NodeFails, Mark, Answered, AllAnswered, Delivered, Checking, Identity;
    var size: nat := ListSize(n, listSize);
    var numSuccess: nat := 0;
    ok, nextId := false, firstId;
    keep, log := Identity(size), Log(firstId, []);
    IdentityKeeps(size, p);
    IdentityHasAll(size);
    assert Listed(list, orig, keep) by { IdentityLists(list, orig, size); }
    while numSuccess < n && size >= n
      invariant numSuccess <= n && numSuccess % p == 0 && size == |keep|
      invariant Keeps(keep, |orig|, p) && Listed(list, orig, keep)
      invariant forall x :: 0 <= x < numSuccess && x < |keep| ==> Holds(a, events, n, orig, keep, x)
      invariant forall y :: 0 <= y < |orig| ==> y in keep || NodeFails(a, orig, p, log, y)
      invariant if n > 0 then ok <==> numSuccess == n else !ok
      invariant ok ==> n <= size
      invariant numSuccess <= |keep| ==> Asked(log, keep, numSuccess, |orig|)
      invariant log.first == firstId && nextId == log.Next() && Distinct(log.asked) && Within(log.asked, |orig|)
      invariant !a.op.Get? ==> numSuccess == 0 && nextId == firstId && keep == Identity(size) && size == |orig|
      decreases size, n - numSuccess
    {
      ghost var before, log0, first := keep, log, numSuccess;
      nextId := nextId + (n - numSuccess);
      numSuccess, size, ok, keep, log := Round(a, events, n, p, list, indicator, numSuccess, size,
                                               nextId - (n - numSuccess), orig, before, log0);
      AskedGrows(log0, before, first, n, |orig|, p, keep, numSuccess);
      forall y | 0 <= y < |orig|
        ensures y in keep || NodeFails(a, orig, p, log, y)
      {
        FailureStays(a, orig, p, log0, log, y);
      }
      if !a.op.Get? {
        break;
      }
    }
    AskedOnce(log, |orig|);
    if !a.op.Get? && n <= |orig| {
      PlainAnswers(a, orig, firstId, n);
    }
    if ok {
      forall x | 0 <= x < n
        ensures Delivered(a, events, n, orig, keep, x)
      {
        HoldsMeans(a, events, n, orig, keep, x);
      }
    }
  }

  /** The positions from `first` on have not been asked for. */
  ghost predicate Asked(log: Log, keep: seq<nat>, first: nat, total: nat)
    requires first <= |keep|
  {
    && Distinct(log.asked) && Within(log.asked, total)
    && forall x :: first <= x < |keep| ==> keep[x] !in log.asked
  }

  lemma AskedGrows(log: Log, keep: seq<nat>, first: nat, n: nat, total: nat, p: nat, keep': seq<nat>, first': nat)
    requires p > 0 && Keeps(keep, total, p) && first <= n <= |keep| && Asked(log, keep, first, total)
    requires first' <= |keep'| && keep'[first'..] == keep[n..]
    ensures Asked(Log(log.first, log.asked + keep[first..n]), keep', first', total)
  {
    var more := log.asked + keep[first..n];
    forall x | first' <= x < |keep'|
      ensures keep'[x] !in more
    {
      assert keep'[x] == keep'[first'..][x - first'] == keep[n..][x - first'];
    }
  }

  lemma AskedOnce(log: Log, total: nat)
    requires Distinct(log.asked) && Within(log.asked, total)
    ensures log.Next() <= log.first + total
  {
    DistinctBelow(log.asked, total);
  }

  lemma IdentityHasAll(size: nat)
    ensures forall y :: 0 <= y < size ==> y in Identity(size)
  {
    forall y | 0 <= y < size
      ensures y in Identity(size)
    {
      assert Identity(size)[y] == y;
    }
  }

  lemma IdentityLists(list: array?<nat>, orig: seq<nat>, size: nat)
    requires |orig| == size
    requires list != null ==> size <= list.Length && orig == list[..size]
    ensures Listed(list, orig, Identity(size))
  {
  }

  lemma MarkOfOne(passed: seq<bool>, t: nat)
    requires t < |passed|
    ensures Mark(passed, 1, t) == passed[t]
  {
    StartUnique(t, t, 1);
  }

  /** Checks every chunk of a file: a chunk is marked alive exactly when its own request was answered as expected. */
  method CheckFile(a: Access, indicator: array<bool>, firstId: nat)
    requires a.Valid() && a.op.Check? && |a.chunks| <= indicator.Length
    modifies indicator
    ensures forall t :: 0 <= t < |a.chunks| ==>
              var d := a.network(Request(firstId + t, Check, a.chunks[t], a.containers[t]));
              indicator[t] <==> d.sent && d.reply.Answer? && d.reply.success
  {
    hide Mark;
    var n := |a.chunks|;
    var events := new Event[2 * n](_ => Idle);
    var _, _, _, _ := AccessChunks(a, events, n, 1, null, -1, indicator, firstId, Identity(n));
    forall t | 0 <= t < n
      ensures indicator[t] == a.Accepts(t, a.network(a.RequestFor(firstId + t, t)))
    {
      MarkOfOne(Outcomes(a, Identity(n), firstId), t);
      assert Outcomes(a, Identity(n), firstId)[t] == Answered(a, Identity(n), firstId + t, t);
    }
  }
}
