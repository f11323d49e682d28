/**
 Reading one stripe, src/proxy/chunk_manager.cc: plan with the chunks that are alive, fetch k of
 them with retries, and decode. The bytes returned are the bytes that were encoded.
 */
module StripeRead {
  import opened Wrappers
  import opened Gf256
  import opened Linear
  import opened Blocks
  import opened Sequences
  import opened ReedSolomon
  import opened ChunkAccess

  /** The chunk list describes the chunks of a stripe: equal sizes, and ids that start at a multiple of n. */
  ghost predicate Describes(chunks: seq<ChunkMeta>, code: Code, data: seq<Byte>, base: nat)
    requires code.Valid()
  {
    && |chunks| == code.n && base % code.n == 0
    && forall i :: 0 <= i < code.n ==> chunks[i].id == base + i && chunks[i].size == ChunkSize(code.k, |data|)
  }

  /** A reply that passes the size and checksum checks carries the id asked for. */
  ghost predicate Echoes(a: Access)
    requires a.Valid()
  {
    forall id: nat, i: nat :: i < |a.chunks| && a.Accepts(i, a.network(a.RequestFor(id, i))) ==>
      a.network(a.RequestFor(id, i)).reply.chunkId == a.chunks[i].id
  }

  /** A reply that passes these checks carries the chunk that was encoded. */
  ghost predicate Faithful(a: Access, code: Code, data: seq<Byte>)
    requires code.Valid() && a.Valid() && |a.chunks| == code.n
  {
    forall id: nat, i: nat :: i < code.n && a.Accepts(i, a.network(a.RequestFor(id, i))) ==>
      a.network(a.RequestFor(id, i)).reply.data == Encode(code, data)[i]
  }

  /** A request that was sent for chunk i was not answered as expected. */
  ghost predicate Unanswered(a: Access, log: Log, i: nat)
    requires a.Valid() && i < |a.chunks|
  {
    exists id: nat :: log.Has(id, i) && !a.Accepts(i, a.network(a.RequestFor(id, i)))
  }

  /** The chunks that are alive and answered the requests that were sent for them as expected. */
  ghost function Reliable(a: Access, alive: seq<bool>, log: Log): set<nat>
    requires a.Valid() && |a.chunks| == |alive|
  {
    set i: nat | i < |alive| && alive[i] && !Unanswered(a, log, i)
  }

  /** The log of an access, with the chunks that were asked for in place of their positions in the list. */
  ghost function ChunkLog(orig: seq<nat>, log: Log): Log
    requires Within(log.asked, |orig|)
  {
    Log(log.first, Select(orig, log.asked))
  }

  /** Each request was for another chunk, and one that is alive. */
  ghost predicate Sound(log: Log, alive: seq<bool>) {
    Distinct(log.asked) && forall t :: 0 <= t < |log.asked| ==> log.asked[t] < |alive| && alive[log.asked[t]]
  }

  /** Some k alive chunks have rows the library cannot invert. */
  ghost predicate InversionFails(code: Code, alive: seq<bool>, invert: Matrix -> Option<Matrix>)
    requires code.Valid() && |alive| == code.n
  {
    exists ids: seq<nat> :: Ascending(ids, code.n) && |ids| == code.k && (forall x :: 0 <= x < |ids| ==> alive[ids[x]])
                            && invert(Select(code.matrix, ids)).None?
  }

  /** A position that was dropped had a request that failed. */
  lemma DroppedHasFailed(a: Access, orig: seq<nat>, log: Log, y: nat)
    requires a.Valid() && Within(orig, |a.chunks|) && y < |orig| && NodeFails(a, orig, 1, log, y)
    requires Within(log.asked, |orig|)
    ensures Unanswered(a, ChunkLog(orig, log), orig[y])
  {
    hide Start;
    var z :| 0 <= z < |orig| && Start(z, 1) == Start(y, 1) && Failed(a, orig, log, z);
    StartUnique(z, z, 1);
    StartUnique(y, y, 1);
    var id: nat :| log.Has(id, z) && !Answered(a, orig, id, z);
    assert ChunkLog(orig, log).Has(id, orig[y]);
  }

  /** Every reliable chunk is among those left over. */
  lemma TooFewReliable(a: Access, alive: seq<bool>, orig: seq<nat>, keep: seq<nat>, log: Log)
    requires a.Valid() && |a.chunks| == |alive| && Within(orig, |a.chunks|) && Within(keep, |orig|)
    requires forall i: nat :: i < |alive| && alive[i] ==> i in orig
    requires forall y :: 0 <= y < |orig| ==> y in keep || NodeFails(a, orig, 1, log, y)
    requires Within(log.asked, |orig|)
    ensures |Reliable(a, alive, ChunkLog(orig, log))| <= |keep|
  {
    hide NodeFails, Unanswered;
    var kept, reliable := Select(orig, keep), Reliable(a, alive, ChunkLog(orig, log));
    forall i | i in reliable
      ensures i in kept
    {
      var y :| 0 <= y < |orig| && orig[y] == i;
      if y !in keep {
        DroppedHasFailed(a, orig, log, y);
      }
      var x :| 0 <= x < |keep| && keep[x] == y;
      assert kept[x] == i;
    }
    ElementsCount(kept);
    SubsetIsSmaller(reliable, Elements(kept));
  }

  lemma AllUnreliable(a: Access, alive: seq<bool>, orig: seq<nat>, log: Log)
    requires a.Valid() && |a.chunks| == |alive|
    requires forall i: nat :: i < |alive| && alive[i] ==> i in orig
    ensures |Reliable(a, alive, log)| <= |orig|
  {
    ElementsCount(orig);
    SubsetIsSmaller(Reliable(a, alive, log), Elements(orig));
  }

  lemma LogIsSound(orig: seq<nat>, log: Log, alive: seq<bool>)
    requires Ascending(orig, |alive|) && Within(log.asked, |orig|) && Distinct(log.asked)
    requires forall i: nat :: i in orig ==> i < |alive| && alive[i]
    ensures Sound(ChunkLog(orig, log), alive)
  {
    var asked := ChunkLog(orig, log).asked;
    forall i, j | 0 <= i < j < |asked|
      ensures asked[i] != asked[j]
    {
      assert log.asked[i] != log.asked[j];
    }
  }

  lemma SlotsAreAscending(orig: seq<nat>, keep: seq<nat>, n: nat, k: nat)
    requires Ascending(orig, n) && Keeps(keep, |orig|, 1) && k <= |keep|
    ensures Within(keep, |orig|) && Ascending(Select(orig, keep[..k]), n)
  {
  }

  /** The index of a chunk in its stripe is found back from its id. */
  lemma IdsFoldBack(n: nat, base: nat, i: nat)
    requires i < n && base % n == 0
    ensures (base + i) % n == i
  {
    ModAdds(base, i, n);
    ModUnique(i, 0, i, n);
  }

  /** The ids of the chunks that are not alive, as the caller collects them. */
  method FailedChunks(alive: seq<bool>) returns (failed: seq<nat>)
    ensures Ascending(failed, |alive|)
    ensures forall i: nat :: i in failed <==> i < |alive| && !alive[i]
  {
    failed := [];
    for i := 0 to |alive|
      invariant Ascending(failed, i)
      invariant forall x: nat :: x in failed <==> x < i && !alive[x]
    {
      if !alive[i] {
        failed := failed + [i];
      }
    }
  }

  /** A slot of a successful access carries the chunk its request names. */
  lemma SlotCarries(code: Code, a: Access, events: array<Event>, orig: seq<nat>, keep: seq<nat>, data: seq<Byte>,
                    base: nat, x: nat)
    requires code.Valid() && a.Valid() && a.op.Get? && events.Length == 2 * code.k && x < code.k <= |keep|
    requires Describes(a.chunks, code, data, base) && Echoes(a)
    requires Holds(a, events, code.k, orig, keep, x)
    ensures events[x].Request? && events[code.k + x].Answer? && keep[x] < |orig| && orig[keep[x]] < code.n
    ensures events[code.k + x].chunkId % code.n == orig[keep[x]]
    ensures events[x].chunk.size == |events[code.k + x].data| == ChunkSize(code.k, |data|)
    ensures Faithful(a, code, data) ==> events[code.k + x].data == Encode(code, data)[orig[keep[x]]]
  {
    hide Encode, ChunkSize, Code.Valid;
    var i := orig[keep[x]];
    IdsFoldBack(code.n, base, i);
    assert a.network(a.RequestFor(events[x].id, i)).reply == events[code.k + x];
  }

  /** Gathers the replies of an access and decodes them. */
  method DecodeReplies(code: Code, a: Access, events: array<Event>, invert: Matrix -> Option<Matrix>,
                       ghost orig: seq<nat>, ghost keep: seq<nat>, ghost data: seq<Byte>, ghost base: nat)
    returns (result: Option<seq<Byte>>, ghost ids: seq<nat>)
    requires code.Valid() && SoundInverter(invert, code.k) && a.Valid() && a.op.Get?
    requires events.Length == 2 * code.k && code.k <= |keep| && Keeps(keep, |orig|, 1) && Ascending(orig, code.n)
    requires Describes(a.chunks, code, data, base) && Echoes(a)
    requires forall x :: 0 <= x < code.k ==> Holds(a, events, code.k, orig, keep, x)
    ensures Within(keep, |orig|) && ids == Select(orig, keep[..code.k]) && Ascending(ids, code.n)
    ensures result.Some? ==> |result.value| == code.k * ChunkSize(code.k, |data|)
    ensures result.Some? && Faithful(a, code, data) ==> result.value == Padded(data, code.k)
    ensures result.None? ==> invert(Select(code.matrix, ids)).None?
  {
    SlotsAreAscending(orig, keep, code.n, code.k);
    ids := Select(orig, keep[..code.k]);
    hide Encode, Padded, ChunkSize, Keeps, Ascending, SoundInverter, Holds, Echoes, Faithful, Describes, Access.Valid,
      Code.Valid;
    SlotCarries(code, a, events, orig, keep, data, base, 0);
    var size := events[0].chunk.size;
    var gathered: seq<nat>, inputs: seq<Chunk> := [], [];
    for x := 0 to code.k
      invariant |gathered| == |inputs| == x
      invariant forall y :: 0 <= y < x ==> gathered[y] == ids[y] && |inputs[y]| == size
      invariant Faithful(a, code, data) ==> forall y :: 0 <= y < x ==> inputs[y] == Encode(code, data)[ids[y]]
    {
      SlotCarries(code, a, events, orig, keep, data, base, x);
      gathered := gathered + [events[code.k + x].chunkId % code.n];
      inputs := inputs + [events[code.k + x].data];
    }
    assert gathered == ids;
    assert Faithful(a, code, data) ==> inputs == Select(Encode(code, data), ids);
    result := Decode(code, gathered, inputs, size, invert);
    assert ids[..code.k] == ids;
  }

  /**
   Reads the stripe through the chunks marked alive. A result is as long as the padded data of the
   stripe, and if the agents still have the chunks that were encoded, it is the padded data. There is
   none only when fewer than k of these chunks answered the requests that were sent, or the library
   cannot invert the rows of k of them. At most one request is sent per chunk.
   */
  method ReadStripe(code: Code, a: Access, alive: seq<bool>, invert: Matrix -> Option<Matrix>, firstId: nat,
                    ghost data: seq<Byte>, ghost base: nat)
    returns (result: Option<seq<Byte>>, nextId: nat, ghost log: Log)
    requires code.Valid() && SoundInverter(invert, code.k) && a.Valid() && a.op.Get? && |alive| == code.n
    requires Describes(a.chunks, code, data, base) && Echoes(a)
    ensures log.first == firstId && nextId == log.Next() <= firstId + code.n && Sound(log, alive)
    ensures result.Some? ==> |result.value| == code.k * ChunkSize(code.k, |data|)
    ensures result.Some? && Faithful(a, code, data) ==> result.value == Padded(data, code.k)
    ensures result.None? ==> |Reliable(a, alive, log)| < code.k || InversionFails(code, alive, invert)
  {
    hide Encode, Padded, ChunkSize, Holds, NodeFails, Unanswered;
    var failed := FailedChunks(alive);
    var plan := PreDecode(code, failed, false, invert);
    AliveIsAscending(failed, code.n);
    AliveCount(failed, code.n, |failed|);
    if plan.None? {
      log := Log(firstId, []);
      AllUnreliable(a, alive, Alive(failed, code.n), log);
      return None, firstId, log;
    }
    var inputs := plan.value.inputs;
    var k := plan.value.minInputs;
    var events := new Event[2 * k](_ => Idle);
    var list := new nat[|inputs|](x requires 0 <= x < |inputs| => inputs[x]);
    assert list[..|inputs|] == inputs;
    var ok;
    ghost var keep, sent;
    ok, nextId, keep, sent := AccessChunks(a, events, k, 1, list, |inputs|, null, firstId, inputs);
    log := ChunkLog(inputs, sent);
    LogIsSound(inputs, sent, alive);
    if !ok {
      TooFewReliable(a, alive, inputs, keep, sent);
      return None, nextId, log;
    }
    ghost var ids;
    result, ids := DecodeReplies(code, a, events, invert, inputs, keep, data, base);
    assert forall x :: 0 <= x < |ids| ==> alive[ids[x]];
  }
}
