/**
 Writing one stripe in the foreground, src/proxy/chunk_manager.cc: encode, send each chunk to its
 container, and keep the container ids of the chunks that were acknowledged.
 */
module StripeWrite {
  import opened Wrappers
  import opened Gf256
  import opened Linear
  import opened Blocks
  import opened ReedSolomon
  import opened ChunkAccess
  import opened Striping

  const INVALID_CONTAINER_ID := -1

  /** The file of a chunk: its container, the version of the file it belongs to, and its id. */
  datatype Key = Key(container: int, version: nat, id: nat)

  /** The chunks in the containers. */
  type Store = map<Key, Chunk>

  function KeyOf(container: int, chunk: ChunkMeta): Key {
    Key(container, chunk.version, chunk.id)
  }

  datatype PutRequest = PutRequest(event: nat, container: int, chunk: ChunkMeta, data: Chunk)

  /**
   How a request ends: whether a reply arrived and what it says, and the bytes the container now has, if they changed.
   */
  datatype PutReply = PutReply(arrived: bool, success: bool, container: int, md5: Digest, kept: Option<Chunk>)

  /** A request to go back to the chunk before the last write, or to delete the chunk. */
  datatype UndoRequest = UndoRequest(event: nat, isRevert: bool, container: int, chunk: ChunkMeta)

  /** How it ends: done, or not and then what it does to the chunk. */
  datatype UndoReply = Undone | Unchanged | Gone | Changed(chunk: Chunk)

  /** The agents and the chunks in their containers; `put` and `undo` decide freely which requests succeed. */
  class Agents {
    var store: Store
    var nextEvent: nat
    // the requests sent so far that were acknowledged
    ghost var acked: set<PutRequest>
    const verify: bool
    const md5: Chunk -> Digest
    const put: PutRequest -> PutReply
    const undo: UndoRequest -> UndoReply
    // what the chunks of a range may be after they were cleaned up
    const leftover: nat -> Store

    constructor (verify: bool, md5: Chunk -> Digest, put: PutRequest -> PutReply, undo: UndoRequest -> UndoReply,
                 leftover: nat -> Store)
      requires Honest(verify, put)
      ensures Valid() && this.verify == verify && this.md5 == md5 && this.put == put && store == map[] && acked == {}
    {
      store, nextEvent, acked := map[], 0, {};
      this.verify, this.md5, this.put, this.undo, this.leftover := verify, md5, put, undo, leftover;
    }

    ghost predicate Valid()
      reads this
    {
      && Honest(verify, put) && (forall key :: key in store ==> key.container != INVALID_CONTAINER_ID)
      && forall r :: r in acked ==> Acknowledged(verify, r, put(r))
    }
  }

  /** The reply says success, with the checksum of the chunk when checksums are verified. */
  predicate Acknowledged(verify: bool, r: PutRequest, reply: PutReply) {
    reply.arrived && reply.success && (verify ==> reply.md5 == r.chunk.md5)
  }

  /** An acknowledged chunk is stored where it was sent; nothing arrives from, or is stored in, no container. */
  ghost predicate Honest(verify: bool, put: PutRequest -> PutReply) {
    forall r ::
      && (Acknowledged(verify, r, put(r)) ==> put(r).container == r.container && put(r).kept == Some(r.data))
      && (r.container == INVALID_CONTAINER_ID ==> !put(r).arrived && put(r).kept.None?)
  }

  /** Every chunk sent to a container is acknowledged. */
  ghost predicate Healthy(verify: bool, put: PutRequest -> PutReply) {
    forall r: PutRequest :: r.container != INVALID_CONTAINER_ID ==> Acknowledged(verify, r, put(r))
  }

  /** The chunks of a stripe with their ids, sizes and checksums. */
  function Metas(md5: Chunk -> Digest, code: Code, data: seq<Byte>, version: nat, base: nat): (ms: seq<ChunkMeta>)
    requires code.Valid()
    ensures |ms| == code.n
    ensures forall i :: 0 <= i < code.n ==>
              ms[i] == ChunkMeta(base + i, ChunkSize(code.k, |data|), md5(Encode(code, data)[i]), version)
  {
    seq(code.n, i requires 0 <= i < code.n =>
      ChunkMeta(base + i, ChunkSize(code.k, |data|), md5(Encode(code, data)[i]), version))
  }

  /** Encodes a stripe: chunk i of the stripe at file offset `offset` gets the id offset / a * n + i. */
  method EncodeFile(agents: Agents, code: Code, version: nat, data: seq<Byte>, offset: nat, a: nat, ghost stripe: nat)
    returns (encoded: seq<Chunk>, metas: seq<ChunkMeta>)
    requires code.Valid() && a > 0 && offset == Pos(stripe, a)
    ensures encoded == Encode(code, data) && metas == Metas(agents.md5, code, data, version, Pos(stripe, code.n))
  {
    hide Encode, ChunkSize;
    encoded := Encode(code, data);
    ModUnique(offset, stripe, 0, a);
    var idOffset := offset / a * code.n;
    metas := [];
    for i := 0 to code.n
      invariant metas == Metas(agents.md5, code, data, version, Pos(stripe, code.n))[..i]
    {
      metas := metas + [ChunkMeta(i + idOffset, |encoded[i]|, agents.md5(encoded[i]), version)];
    }
  }

  /** Request i of the write of a stripe. */
  function PutAt(event: nat, spares: seq<int>, metas: seq<ChunkMeta>, encoded: seq<Chunk>, i: nat): PutRequest
    requires i < |spares| && i < |metas| == |encoded|
  {
    PutRequest(event + i, spares[i], metas[i], encoded[i])
  }

  /** Chunk i was sent to a container and acknowledged. */
  ghost predicate Written(agents: Agents, event: nat, spares: seq<int>, metas: seq<ChunkMeta>, encoded: seq<Chunk>,
                          i: nat)
    requires |metas| == |encoded|
  {
    && i < |spares| && i < |metas|
    && Acknowledged(agents.verify, PutAt(event, spares, metas, encoded, i),
                    agents.put(PutAt(event, spares, metas, encoded, i)))
  }

  /** The first requests of the write that were acknowledged. */
  ghost function Acks(agents: Agents, event: nat, spares: seq<int>, metas: seq<ChunkMeta>, encoded: seq<Chunk>,
                      count: nat): set<PutRequest>
    requires count <= |spares| <= |metas| == |encoded|
  {
    set i: nat | i < count && Written(agents, event, spares, metas, encoded, i) ::
      PutAt(event, spares, metas, encoded, i)
  }

  /** The container acknowledged the chunk, as the metadata describes it. */
  ghost predicate Confirmed(acked: set<PutRequest>, container: int, meta: ChunkMeta, chunk: Chunk) {
    exists r :: r in acked && r.container == container && r.chunk == meta && r.data == chunk
  }

  lemma AcksNext(agents: Agents, event: nat, spares: seq<int>, metas: seq<ChunkMeta>, encoded: seq<Chunk>, i: nat)
    requires i < |spares| <= |metas| == |encoded|
    ensures var r := PutAt(event, spares, metas, encoded, i);
            Acks(agents, event, spares, metas, encoded, i + 1) == Acks(agents, event, spares, metas, encoded, i)
            + if Acknowledged(agents.verify, r, agents.put(r)) then {r} else {}
  {
    var r := PutAt(event, spares, metas, encoded, i);
    assert Written(agents, event, spares, metas, encoded, i) <==> Acknowledged(agents.verify, r, agents.put(r));
  }

  lemma NoAcks(agents: Agents, event: nat, spares: seq<int>, metas: seq<ChunkMeta>, encoded: seq<Chunk>)
    requires |spares| <= |metas| == |encoded|
    ensures Acks(agents, event, spares, metas, encoded, 0) == {}
  {
  }

  lemma WrittenIsConfirmed(agents: Agents, event: nat, spares: seq<int>, metas: seq<ChunkMeta>, encoded: seq<Chunk>,
                           acked: set<PutRequest>, i: nat)
    requires i < |spares| <= |metas| == |encoded| && Acks(agents, event, spares, metas, encoded, |spares|) <= acked
    requires Written(agents, event, spares, metas, encoded, i)
    ensures Confirmed(acked, spares[i], metas[i], encoded[i])
  {
    assert PutAt(event, spares, metas, encoded, i) in Acks(agents, event, spares, metas, encoded, |spares|);
  }

  /** The chunk is the same in both. */
  ghost predicate SameAt(before: Store, after: Store, key: Key) {
    (key in before <==> key in after) && (key in before ==> before[key] == after[key])
  }

  /** Only chunks of this version with an id in base..base + count differ. */
  ghost predicate SameOutside(before: Store, after: Store, version: nat, base: nat, count: nat) {
    forall key: Key :: !(key.version == version && base <= key.id < base + count) ==> SameAt(before, after, key)
  }

  /** The chunk is in the container. */
  ghost predicate Has(store: Store, key: Key, chunk: Chunk) {
    key in store && store[key] == chunk
  }

  ghost predicate Numbered(metas: seq<ChunkMeta>, version: nat, base: nat) {
    forall i :: 0 <= i < |metas| ==> metas[i].id == base + i && metas[i].version == version
  }

  lemma SameAsItself(store: Store, version: nat, base: nat, count: nat)
    ensures SameOutside(store, store, version, base, count)
  {
  }

  /** What the containers hold after request i. */
  function Stored(store: Store, r: PutRequest, reply: PutReply): Store {
    if reply.kept.Some? then store[KeyOf(r.container, r.chunk) := reply.kept.value] else store
  }

  /** The first requests changed each the chunk it is about, as its reply says, and no other chunk. */
  ghost predicate Sent(agents: Agents, before: Store, after: Store, event: nat, spares: seq<int>, metas: seq<ChunkMeta>,
                       encoded: seq<Chunk>, version: nat, base: nat, count: nat)
    requires count <= |spares| <= |metas| == |encoded|
  {
    forall key: Key ::
      var i := key.id - base;
      if && 0 <= i < count && key.version == version && key.container == spares[i]
         && agents.put(PutAt(event, spares, metas, encoded, i)).kept.Some? then
        Has(after, key, agents.put(PutAt(event, spares, metas, encoded, i)).kept.value)
      else
        SameAt(before, after, key)
  }

  lemma NothingSent(agents: Agents, store: Store, event: nat, spares: seq<int>, metas: seq<ChunkMeta>,
                    encoded: seq<Chunk>, version: nat, base: nat)
    requires |spares| <= |metas| == |encoded|
    ensures Sent(agents, store, store, event, spares, metas, encoded, version, base, 0)
  {
  }

  lemma SentNext(agents: Agents, before: Store, store: Store, event: nat, spares: seq<int>, metas: seq<ChunkMeta>,
                 encoded: seq<Chunk>, version: nat, base: nat, i: nat)
    requires i < |spares| <= |metas| == |encoded| && Numbered(metas, version, base)
    requires Sent(agents, before, store, event, spares, metas, encoded, version, base, i)
    ensures var r := PutAt(event, spares, metas, encoded, i);
            Sent(agents, before, Stored(store, r, agents.put(r)), event, spares, metas, encoded, version, base, i + 1)
  {
    var r := PutAt(event, spares, metas, encoded, i);
    var after := Stored(store, r, agents.put(r));
    forall key: Key
      ensures key != Key(spares[i], version, base + i) ==> SameAt(store, after, key)
    {
    }
  }

  /** An acknowledged chunk is stored, and chunks with other ids are as before. */
  lemma SentMeans(agents: Agents, before: Store, after: Store, event: nat, spares: seq<int>, metas: seq<ChunkMeta>,
                  encoded: seq<Chunk>, version: nat, base: nat)
    requires Honest(agents.verify, agents.put) && |spares| <= |metas| == |encoded| && Numbered(metas, version, base)
    requires Sent(agents, before, after, event, spares, metas, encoded, version, base, |spares|)
    requires forall key :: key in before ==> key.container != INVALID_CONTAINER_ID
    ensures SameOutside(before, after, version, base, |metas|)
    ensures forall key :: key in after ==> key.container != INVALID_CONTAINER_ID
    ensures forall i :: 0 <= i < |spares| && Written(agents, event, spares, metas, encoded, i) ==>
              Has(after, KeyOf(spares[i], metas[i]), encoded[i])
  {
    forall i | 0 <= i < |spares| && Written(agents, event, spares, metas, encoded, i)
      ensures Has(after, KeyOf(spares[i], metas[i]), encoded[i])
    {
      var key := Key(spares[i], version, base + i);
      assert key.id - base == i;
    }
    forall key | key in after
      ensures key.container != INVALID_CONTAINER_ID
    {
      if !SameAt(before, after, key) {
        var i := key.id - base;
        assert PutAt(event, spares, metas, encoded, i).container == spares[i];
      }
    }
  }

  lemma NotSent(agents: Agents, event: nat, spares: seq<int>, metas: seq<ChunkMeta>, encoded: seq<Chunk>, i: nat)
    requires |metas| == |encoded| && i >= |spares|
    ensures !Written(agents, event, spares, metas, encoded, i)
  {
  }

  /** Sends the chunks to their containers. */
  method SendChunks(agents: Agents, spares: seq<int>, metas: seq<ChunkMeta>, encoded: seq<Chunk>, ghost version: nat,
                    ghost base: nat)
    returns (replies: seq<PutReply>)
    requires agents.Valid() && |metas| == |encoded| && |spares| <= |metas| && Numbered(metas, version, base)
    modifies agents
    ensures agents.Valid() && |replies| == |spares|
    ensures forall i :: 0 <= i < |spares| ==>
              replies[i] == agents.put(PutAt(old(agents.nextEvent), spares, metas, encoded, i))
    ensures agents.nextEvent == old(agents.nextEvent) + |metas|
    ensures agents.acked == old(agents.acked) + Acks(agents, old(agents.nextEvent), spares, metas, encoded, |spares|)
    ensures Sent(agents, old(agents.store), agents.store, old(agents.nextEvent), spares, metas, encoded, version, base,
                 |spares|)
    ensures SameOutside(old(agents.store), agents.store, version, base, |metas|)
    ensures forall i :: 0 <= i < |spares| && Written(agents, old(agents.nextEvent), spares, metas, encoded, i) ==>
              Has(agents.store, KeyOf(spares[i], metas[i]), encoded[i])
  {
    hide SameOutside, Honest, Has, Written, Acks, Sent, Numbered;
    replies := [];
    var event := agents.nextEvent;
    NothingSent(agents, agents.store, event, spares, metas, encoded, version, base);
    NoAcks(agents, event, spares, metas, encoded);
    for i := 0 to |metas|
      invariant |replies| == (if i < |spares| then i else |spares|) && agents.nextEvent == event + i
      invariant forall j :: 0 <= j < |replies| ==> replies[j] == agents.put(PutAt(event, spares, metas, encoded, j))
      invariant agents.acked == old(agents.acked) + Acks(agents, event, spares, metas, encoded, |replies|)
      invariant forall r :: r in agents.acked ==> Acknowledged(agents.verify, r, agents.put(r))
      invariant Sent(agents, old(agents.store), agents.store, event, spares, metas, encoded, version, base, |replies|)
    {
      agents.nextEvent := agents.nextEvent + 1;
      if i < |spares| {
        var r := PutAt(event, spares, metas, encoded, i);
        var reply := agents.put(r);
        SentNext(agents, old(agents.store), agents.store, event, spares, metas, encoded, version, base, i);
        if reply.kept.Some? {
          agents.store := agents.store[KeyOf(r.container, r.chunk) := reply.kept.value];
        }
        AcksNext(agents, event, spares, metas, encoded, i);
        if Acknowledged(agents.verify, r, reply) {
          agents.acked := agents.acked + {r};
        }
        replies := replies + [reply];
      }
    }
    SentMeans(agents, old(agents.store), agents.store, event, spares, metas, encoded, version, base);
  }

  /** The number of chunks with a container. */
  function Placed(containers: seq<int>): (count: nat)
    ensures count <= |containers|
  {
    if containers == [] then 0
    else Placed(containers[..|containers| - 1]) + if containers[|containers| - 1] != INVALID_CONTAINER_ID then 1 else 0
  }

  /** Every chunk that has a container to go to was acknowledged. */
  ghost predicate AllWritten(agents: Agents, event: nat, spares: seq<int>, metas: seq<ChunkMeta>, encoded: seq<Chunk>,
                             count: nat)
    requires |metas| == |encoded|
  {
    forall i :: 0 <= i < count && i < |spares| ==>
      Written(agents, event, spares, metas, encoded, i) || spares[i] == INVALID_CONTAINER_ID
  }

  lemma NonePlaced(agents: Agents, event: nat, spares: seq<int>, metas: seq<ChunkMeta>, encoded: seq<Chunk>)
    requires |metas| == |encoded|
    ensures Placed([]) == 0 && AllWritten(agents, event, spares, metas, encoded, 0)
  {
  }

  lemma PlacedSnoc(containers: seq<int>, container: int)
    ensures Placed(containers + [container]) == Placed(containers) + if container != INVALID_CONTAINER_ID then 1 else 0
  {
    assert (containers + [container])[..|containers|] == containers;
  }

  /** A chunk keeps its container exactly when the reply arrives, says success, and has the checksum if it counts. */
  lemma AcknowledgedKeep(agents: Agents, event: nat, spares: seq<int>, metas: seq<ChunkMeta>, encoded: seq<Chunk>,
                         containers: seq<int>)
    requires |spares| <= |metas| == |encoded| == |containers|
    requires forall i :: 0 <= i < |spares| ==>
               containers[i] ==
                 if Written(agents, event, spares, metas, encoded, i) then spares[i] else INVALID_CONTAINER_ID
    ensures forall i :: 0 <= i < |spares| && spares[i] != INVALID_CONTAINER_ID ==>
              var reply := agents.put(PutRequest(event + i, spares[i], metas[i], encoded[i]));
              (containers[i] == spares[i] <==>
               reply.arrived && reply.success && (agents.verify ==> reply.md5 == metas[i].md5))
  {
  }

  lemma ReplyMeans(agents: Agents, event: nat, spares: seq<int>, metas: seq<ChunkMeta>, encoded: seq<Chunk>, i: nat)
    requires agents.Valid() && i < |metas| == |encoded|
    ensures Written(agents, event, spares, metas, encoded, i) <==>
              && i < |spares|
              && var r := PutAt(event, spares, metas, encoded, i);
                 Acknowledged(agents.verify, r, agents.put(r))
    ensures Written(agents, event, spares, metas, encoded, i) ==>
              agents.put(PutAt(event, spares, metas, encoded, i)).container == spares[i] != INVALID_CONTAINER_ID
    ensures AllWritten(agents, event, spares, metas, encoded, i + 1) <==>
              && AllWritten(agents, event, spares, metas, encoded, i)
              && (i < |spares| ==>
                    Written(agents, event, spares, metas, encoded, i) || spares[i] == INVALID_CONTAINER_ID)
  {
  }

  /** Checks the replies, and gathers the container ids. */
  method CheckPuts(agents: Agents, spares: seq<int>, metas: seq<ChunkMeta>, encoded: seq<Chunk>, replies: seq<PutReply>,
                   ghost event: nat)
    returns (containers: array<int>, allSuccess: bool, numSuccess: nat)
    requires agents.Valid() && |metas| == |encoded| && |replies| == |spares| <= |metas|
    requires forall i :: 0 <= i < |spares| ==> replies[i] == agents.put(PutAt(event, spares, metas, encoded, i))
    ensures fresh(containers) && containers.Length == |metas|
    ensures forall i :: 0 <= i < |metas| ==>
              containers[i] == if Written(agents, event, spares, metas, encoded, i) then spares[i]
                               else INVALID_CONTAINER_ID
    ensures allSuccess <==> AllWritten(agents, event, spares, metas, encoded, |metas|)
    ensures numSuccess == Placed(containers[..])
  {
    hide Written, Honest, Placed, AllWritten;
    containers := new int[|metas|](_ => INVALID_CONTAINER_ID);
    allSuccess, numSuccess := true, 0;
    NonePlaced(agents, event, spares, metas, encoded);
    assert containers[..0] == [];
    for i := 0 to |metas|
      invariant forall j :: 0 <= j < i && Written(agents, event, spares, metas, encoded, j) ==> j < |spares|
      invariant forall j :: 0 <= j < |metas| ==>
                  containers[j] == if j < i && Written(agents, event, spares, metas, encoded, j) then spares[j]
                                   else INVALID_CONTAINER_ID
      invariant allSuccess <==> AllWritten(agents, event, spares, metas, encoded, i)
      invariant numSuccess == Placed(containers[..i])
    {
      ReplyMeans(agents, event, spares, metas, encoded, i);
      if i < |spares| {
        if !replies[i].arrived {
          allSuccess := allSuccess && spares[i] == INVALID_CONTAINER_ID;
        } else if replies[i].success && (agents.verify ==> replies[i].md5 == metas[i].md5) {
          containers[i] := replies[i].container;
          numSuccess := numSuccess + 1;
        } else {
          allSuccess := allSuccess && spares[i] == INVALID_CONTAINER_ID;
        }
      }
      assert containers[..i + 1] == containers[..i] + [containers[i]];
      PlacedSnoc(containers[..i], containers[i]);
    }
    assert containers[..|metas|] == containers[..];
  }

  /** The chunks whose replies say that they were stored, whatever their checksum. */
  function Marks(agents: Agents, event: nat, spares: seq<int>, metas: seq<ChunkMeta>, encoded: seq<Chunk>)
    : (marks: seq<bool>)
    requires |spares| <= |metas| == |encoded|
    ensures |marks| == |metas|
  {
    seq(|metas|, i requires 0 <= i < |metas| =>
      && i < |spares|
      && var reply := agents.put(PutAt(event, spares, metas, encoded, i));
         reply.arrived && reply.success)
  }

  method MarkStored(agents: Agents, spares: seq<int>, metas: seq<ChunkMeta>, encoded: seq<Chunk>,
                    replies: seq<PutReply>, ghost event: nat)
    returns (indicator: seq<bool>)
    requires |replies| == |spares| <= |metas| == |encoded|
    requires forall i :: 0 <= i < |spares| ==> replies[i] == agents.put(PutAt(event, spares, metas, encoded, i))
    ensures indicator == Marks(agents, event, spares, metas, encoded)
  {
    indicator := [];
    for i := 0 to |metas|
      invariant indicator == Marks(agents, event, spares, metas, encoded)[..i]
    {
      indicator := indicator + [i < |replies| && replies[i].arrived && replies[i].success];
    }
  }

  /** The number of chunks selected. */
  function Selected(indicator: seq<bool>): nat {
    if indicator == [] then 0
    else Selected(indicator[..|indicator| - 1]) + if indicator[|indicator| - 1] then 1 else 0
  }

  /** The request for chunk i, when requests for the selected chunks are numbered from `event` on. */
  function UndoAt(event: nat, isRevert: bool, containers: seq<int>, metas: seq<ChunkMeta>, indicator: seq<bool>,
                  i: nat): UndoRequest
    requires i < |containers| == |metas| == |indicator|
  {
    UndoRequest(event + Selected(indicator[..i]), isRevert, containers[i], metas[i])
  }

  /** The containers after a request; a revert brings back what was there before the write. */
  function AfterUndo(before: Store, store: Store, r: UndoRequest, reply: UndoReply): Store {
    var key := KeyOf(r.container, r.chunk);
    if r.container == INVALID_CONTAINER_ID then store
    else
      match reply
      case Undone => if r.isRevert && key in before then store[key := before[key]] else store - {key}
      case Unchanged => store
      case Gone => store - {key}
      case Changed(chunk) => store[key := chunk]
  }

  /** The chunk was changed as the reply to the request about it says, if that is one of the first. */
  ghost predicate RevertedAt(agents: Agents, before: Store, store: Store, after: Store, event: nat, isRevert: bool,
                             containers: seq<int>, metas: seq<ChunkMeta>, indicator: seq<bool>, version: nat, base: nat,
                             count: nat, key: Key)
    requires count <= |containers| == |metas| == |indicator|
  {
    var i := key.id - base;
    if 0 <= i < count && key.version == version && indicator[i] && key.container == containers[i] then
      var r := UndoAt(event, isRevert, containers, metas, indicator, i);
      SameAt(AfterUndo(before, store, r, agents.undo(r)), after, key)
    else
      SameAt(store, after, key)
  }

  ghost predicate Reverted(agents: Agents, before: Store, store: Store, after: Store, event: nat, isRevert: bool,
                           containers: seq<int>, metas: seq<ChunkMeta>, indicator: seq<bool>, version: nat, base: nat,
                           count: nat)
    requires count <= |containers| == |metas| == |indicator|
  {
    forall key: Key ::
      RevertedAt(agents, before, store, after, event, isRevert, containers, metas, indicator, version, base, count, key)
  }

  lemma UndoEffect(before: Store, store: Store, store': Store, r: UndoRequest, reply: UndoReply, key: Key)
    ensures key != KeyOf(r.container, r.chunk) ==> SameAt(store, AfterUndo(before, store, r, reply), key)
    ensures SameAt(store, store', key) && key == KeyOf(r.container, r.chunk) ==>
              SameAt(AfterUndo(before, store, r, reply), AfterUndo(before, store', r, reply), key)
    ensures r.container == INVALID_CONTAINER_ID ==> AfterUndo(before, store, r, reply) == store
  {
  }

  lemma NothingReverted(agents: Agents, before: Store, store: Store, event: nat, isRevert: bool, containers: seq<int>,
                        metas: seq<ChunkMeta>, indicator: seq<bool>, version: nat, base: nat)
    requires |containers| == |metas| == |indicator|
    ensures Reverted(agents, before, store, store, event, isRevert, containers, metas, indicator, version, base, 0)
  {
  }

  lemma RevertedNext(agents: Agents, before: Store, store: Store, after: Store, event: nat, isRevert: bool,
                     containers: seq<int>, metas: seq<ChunkMeta>, indicator: seq<bool>, version: nat, base: nat, i: nat)
    requires i < |containers| == |metas| == |indicator| && Numbered(metas, version, base)
    requires Reverted(agents, before, store, after, event, isRevert, containers, metas, indicator, version, base, i)
    ensures var r := UndoAt(event, isRevert, containers, metas, indicator, i);
            var after' := if indicator[i] then AfterUndo(before, after, r, agents.undo(r)) else after;
            Reverted(agents, before, store, after', event, isRevert, containers, metas, indicator, version, base, i + 1)
  {
    hide AfterUndo, UndoAt;
    var r := UndoAt(event, isRevert, containers, metas, indicator, i);
    var after' := if indicator[i] then AfterUndo(before, after, r, agents.undo(r)) else after;
    var next := i + 1;
    UndoIsAbout(event, isRevert, containers, metas, indicator, i);
    forall key: Key
      ensures RevertedAt(agents, before, store, after', event, isRevert, containers, metas, indicator, version, base,
                         next, key)
    {
      assert RevertedAt(agents, before, store, after, event, isRevert, containers, metas, indicator, version, base, i,
                        key);
      UndoEffect(before, after, after, r, agents.undo(r), key);
      UndoEffect(before, store, after, r, agents.undo(r), key);
    }
  }

  lemma UndoIsAbout(event: nat, isRevert: bool, containers: seq<int>, metas: seq<ChunkMeta>, indicator: seq<bool>,
                    i: nat)
    requires i < |containers| == |metas| == |indicator|
    ensures var r := UndoAt(event, isRevert, containers, metas, indicator, i);
            r.container == containers[i] && r.chunk == metas[i] && r.isRevert == isRevert
  {
  }

  /** Chunks with other ids are as before, and no chunk is in no container. */
  lemma RevertedMeans(agents: Agents, before: Store, store: Store, after: Store, event: nat, isRevert: bool,
                      containers: seq<int>, metas: seq<ChunkMeta>, indicator: seq<bool>, version: nat, base: nat)
    requires |containers| == |metas| == |indicator| && Numbered(metas, version, base)
    requires Reverted(agents, before, store, after, event, isRevert, containers, metas, indicator, version, base,
                      |metas|)
    requires forall key :: key in store ==> key.container != INVALID_CONTAINER_ID
    ensures SameOutside(store, after, version, base, |metas|)
    ensures forall key :: key in after ==> key.container != INVALID_CONTAINER_ID
  {
    forall key: Key | !(key.version == version && base <= key.id < base + |metas|)
      ensures SameAt(store, after, key)
    {
      assert RevertedAt(agents, before, store, after, event, isRevert, containers, metas, indicator, version, base,
                        |metas|, key);
    }
    forall key | key in after
      ensures key.container != INVALID_CONTAINER_ID
    {
      assert RevertedAt(agents, before, store, after, event, isRevert, containers, metas, indicator, version, base,
                        |metas|, key);
    }
  }

  lemma SelectedNext(indicator: seq<bool>, i: nat)
    requires i < |indicator|
    ensures Selected(indicator[..i + 1]) == Selected(indicator[..i]) + if indicator[i] then 1 else 0
  {
    assert indicator[..i + 1][..i] == indicator[..i];
  }

  /** Asks for the selected chunks to be reverted or deleted, each where its container id says. */
  method RollBack(agents: Agents, isRevert: bool, containers: seq<int>, metas: seq<ChunkMeta>, indicator: seq<bool>,
                  before: Store, ghost version: nat, ghost base: nat)
    requires agents.Valid() && |containers| == |metas| == |indicator| && Numbered(metas, version, base)
    modifies agents
    ensures agents.Valid() && agents.acked == old(agents.acked)
    ensures Reverted(agents, before, old(agents.store), agents.store, old(agents.nextEvent), isRevert, containers,
                     metas, indicator, version, base, |metas|)
    ensures SameOutside(old(agents.store), agents.store, version, base, |metas|)
  {
    hide Reverted, Numbered, Honest, AfterUndo, SameOutside, Selected;
    ghost var event := agents.nextEvent;
    NothingReverted(agents, before, agents.store, event, isRevert, containers, metas, indicator, version, base);
    SelectedNone(indicator);
    for i := 0 to |metas|
      invariant agents.nextEvent == event + Selected(indicator[..i]) && agents.acked == old(agents.acked)
      invariant Reverted(agents, before, old(agents.store), agents.store, event, isRevert, containers, metas, indicator,
                         version, base, i)
    {
      RevertedNext(agents, before, old(agents.store), agents.store, event, isRevert, containers, metas, indicator,
                   version, base, i);
      SelectedNext(indicator, i);
      if indicator[i] {
        var r := UndoRequest(agents.nextEvent, isRevert, containers[i], metas[i]);
        agents.nextEvent := agents.nextEvent + 1;
        agents.store := AfterUndo(before, agents.store, r, agents.undo(r));
      }
    }
    RevertedMeans(agents, before, old(agents.store), agents.store, event, isRevert, containers, metas, indicator,
                  version, base);
  }

  lemma SelectedNone(indicator: seq<bool>)
    ensures Selected(indicator[..0]) == 0
  {
  }

  /** The write of chunk i, if it was acknowledged, is undone. */
  ghost predicate Undoable(agents: Agents, before: Store, event: nat, spares: seq<int>, metas: seq<ChunkMeta>,
                           encoded: seq<Chunk>, isRevert: bool, i: nat)
    requires i < |spares| <= |metas| == |encoded|
  {
    var indicator := Marks(agents, event, spares, metas, encoded);
    Written(agents, event, spares, metas, encoded, i) ==>
      && (isRevert <==> KeyOf(spares[i], metas[i]) in before)
      && agents.undo(UndoRequest(event + |metas| + Selected(indicator[..i]), isRevert, spares[i], metas[i])).Undone?
  }

  /** The write of chunk i, if it was not acknowledged, left in the container what was there. */
  ghost predicate Traceless(agents: Agents, before: Store, event: nat, spares: seq<int>, metas: seq<ChunkMeta>,
                            encoded: seq<Chunk>, i: nat)
    requires i < |spares| <= |metas| == |encoded|
  {
    var reply := agents.put(PutAt(event, spares, metas, encoded, i));
    !Written(agents, event, spares, metas, encoded, i) && reply.kept.Some? ==>
      Has(before, KeyOf(spares[i], metas[i]), reply.kept.value)
  }

  /** A chunk of a stripe that was rolled back is as it was, if its write is undone or left no trace. */
  lemma ChunkRestored(agents: Agents, before: Store, store: Store, after: Store, event: nat, spares: seq<int>,
                      metas: seq<ChunkMeta>, encoded: seq<Chunk>, containers: seq<int>, isRevert: bool, version: nat,
                      base: nat, key: Key)
    requires |spares| <= |metas| == |encoded| == |containers| && Numbered(metas, version, base)
    requires Honest(agents.verify, agents.put)
    requires Sent(agents, before, store, event, spares, metas, encoded, version, base, |spares|)
    requires forall i :: 0 <= i < |metas| ==>
               containers[i] == if Written(agents, event, spares, metas, encoded, i) then spares[i]
                                else INVALID_CONTAINER_ID
    requires Reverted(agents, before, store, after, event + |metas|, isRevert, containers, metas,
                      Marks(agents, event, spares, metas, encoded), version, base, |metas|)
    requires forall i :: 0 <= i < |spares| ==>
               && Undoable(agents, before, event, spares, metas, encoded, isRevert, i)
               && Traceless(agents, before, event, spares, metas, encoded, i)
    ensures SameAt(before, after, key)
  {
    hide Honest, Written, AfterUndo, Selected, Marks;
    var indicator := Marks(agents, event, spares, metas, encoded);
    assert RevertedAt(agents, before, store, after, event + |metas|, isRevert, containers, metas, indicator, version,
                      base, |metas|, key);
    var i := key.id - base;
    if 0 <= i < |metas| && key.version == version {
      var undo := UndoAt(event + |metas|, isRevert, containers, metas, indicator, i);
      WrittenIsKept(agents, event, spares, metas, encoded, i);
      UndoEffect(before, store, store, undo, agents.undo(undo), key);
      if i < |spares| && key.container == spares[i] && agents.put(PutAt(event, spares, metas, encoded, i)).kept.Some? {
        assert Undoable(agents, before, event, spares, metas, encoded, isRevert, i);
        assert Traceless(agents, before, event, spares, metas, encoded, i);
        if Written(agents, event, spares, metas, encoded, i) {
          UndoneAt(before, store, undo, key);
        }
      }
    }
  }

  /**
   When the writes that were acknowledged are undone, all chunks are as they were exactly when the others left in the
   containers what was there.
   */
  lemma UndoneRestores(agents: Agents, before: Store, store: Store, after: Store, event: nat, spares: seq<int>,
                       metas: seq<ChunkMeta>, encoded: seq<Chunk>, containers: seq<int>, isRevert: bool, version: nat,
                       base: nat)
    requires |spares| <= |metas| == |encoded| == |containers| && Numbered(metas, version, base)
    requires Honest(agents.verify, agents.put)
    requires Sent(agents, before, store, event, spares, metas, encoded, version, base, |spares|)
    requires forall i :: 0 <= i < |metas| ==>
               containers[i] == if Written(agents, event, spares, metas, encoded, i) then spares[i]
                                else INVALID_CONTAINER_ID
    requires Reverted(agents, before, store, after, event + |metas|, isRevert, containers, metas,
                      Marks(agents, event, spares, metas, encoded), version, base, |metas|)
    requires forall i :: 0 <= i < |spares| ==> Undoable(agents, before, event, spares, metas, encoded, isRevert, i)
    ensures after == before <==>
              forall i :: 0 <= i < |spares| ==> Traceless(agents, before, event, spares, metas, encoded, i)
  {
    hide Honest, Written, Sent, Reverted, Undoable, Numbered, Has;
    if forall i :: 0 <= i < |spares| ==> Traceless(agents, before, event, spares, metas, encoded, i) {
      forall key: Key
        ensures SameAt(before, after, key)
      {
        ChunkRestored(agents, before, store, after, event, spares, metas, encoded, containers, isRevert, version, base,
                      key);
      }
      SameEverywhere(before, after);
    }
    if after == before {
      forall i | 0 <= i < |spares|
        ensures Traceless(agents, before, event, spares, metas, encoded, i)
      {
        if !Written(agents, event, spares, metas, encoded, i) {
          RejectedStays(agents, before, store, after, event, spares, metas, encoded, containers, isRevert, version,
                        base, i);
          KeyAt(spares, metas, version, base, i);
        }
      }
    }
  }

  lemma KeyAt(spares: seq<int>, metas: seq<ChunkMeta>, version: nat, base: nat, i: nat)
    requires i < |spares| <= |metas| && Numbered(metas, version, base)
    ensures KeyOf(spares[i], metas[i]) == Key(spares[i], version, base + i)
  {
  }

  lemma SameEverywhere(before: Store, after: Store)
    requires forall key: Key :: SameAt(before, after, key)
    ensures after == before
  {
    forall key: Key
      ensures key in before <==> key in after
      ensures key in before ==> before[key] == after[key]
    {
      assert SameAt(before, after, key);
    }
  }

  lemma WrittenIsKept(agents: Agents, event: nat, spares: seq<int>, metas: seq<ChunkMeta>, encoded: seq<Chunk>, i: nat)
    requires Honest(agents.verify, agents.put) && i < |metas| == |encoded|
    ensures i < |spares| && agents.put(PutAt(event, spares, metas, encoded, i)).kept.Some? ==>
              spares[i] != INVALID_CONTAINER_ID
    ensures Written(agents, event, spares, metas, encoded, i) ==>
              && i < |spares| && agents.put(PutAt(event, spares, metas, encoded, i)).kept.Some?
              && (|spares| <= |metas| ==> Marks(agents, event, spares, metas, encoded)[i])
  {
  }

  /** A chunk that was stored but not acknowledged has no container id, so it is not undone. */
  lemma RejectedStays(agents: Agents, before: Store, store: Store, after: Store, event: nat, spares: seq<int>,
                      metas: seq<ChunkMeta>, encoded: seq<Chunk>, containers: seq<int>, isRevert: bool, version: nat,
                      base: nat, i: nat)
    requires i < |spares| <= |metas| == |encoded| == |containers| && Numbered(metas, version, base)
    requires Honest(agents.verify, agents.put) && containers[i] == INVALID_CONTAINER_ID
    requires Sent(agents, before, store, event, spares, metas, encoded, version, base, |spares|)
    requires Reverted(agents, before, store, after, event + |metas|, isRevert, containers, metas,
                      Marks(agents, event, spares, metas, encoded), version, base, |metas|)
    ensures var r := PutAt(event, spares, metas, encoded, i);
            agents.put(r).kept.Some? ==> Has(after, Key(spares[i], version, base + i), agents.put(r).kept.value)
  {
    hide Honest, AfterUndo, Selected, Marks;
    var indicator, key := Marks(agents, event, spares, metas, encoded), Key(spares[i], version, base + i);
    WrittenIsKept(agents, event, spares, metas, encoded, i);
    assert key.id - base == i;
    assert RevertedAt(agents, before, store, after, event + |metas|, isRevert, containers, metas, indicator, version,
                      base, |metas|, key);
  }

  lemma UndoneAt(before: Store, store: Store, r: UndoRequest, key: Key)
    requires key == KeyOf(r.container, r.chunk) && r.container != INVALID_CONTAINER_ID
    requires (r.isRevert <==> key in before)
    ensures SameAt(before, AfterUndo(before, store, r, Undone), key)
  {
  }

  /** Undoes the writes of a stripe that failed. */
  method CleanUpStripe(agents: Agents, isOverwrite: bool, spares: seq<int>, containers: seq<int>, metas: seq<ChunkMeta>,
                       ghost encoded: seq<Chunk>, indicator: seq<bool>, before: Store, ghost version: nat,
                       ghost base: nat, ghost event: nat)
    requires agents.Valid() && |spares| <= |metas| == |encoded| == |containers| && Numbered(metas, version, base)
    requires agents.nextEvent == event + |metas|
    requires forall key :: key in before ==> key.container != INVALID_CONTAINER_ID
    requires indicator == Marks(agents, event, spares, metas, encoded)
    requires Sent(agents, before, agents.store, event, spares, metas, encoded, version, base, |spares|)
    requires SameOutside(before, agents.store, version, base, |metas|)
    requires forall i :: 0 <= i < |metas| ==>
               containers[i] == if Written(agents, event, spares, metas, encoded, i) then spares[i]
                                else INVALID_CONTAINER_ID
    modifies agents
    ensures agents.Valid() && agents.acked == old(agents.acked)
    ensures SameOutside(before, agents.store, version, base, |metas|)
    ensures (forall i :: 0 <= i < |spares| ==>
               Undoable(agents, before, event, spares, metas, encoded, isOverwrite, i)) ==>
              (agents.store == before <==>
               forall i :: 0 <= i < |spares| ==> Traceless(agents, before, event, spares, metas, encoded, i))
    ensures forall i :: 0 <= i < |spares| && containers[i] == INVALID_CONTAINER_ID ==>
              var reply := agents.put(PutAt(event, spares, metas, encoded, i));
              reply.kept.Some? ==> Has(agents.store, Key(spares[i], version, base + i), reply.kept.value)
  {
    hide Written, Honest, SameOutside, Has, Sent, Reverted, Undoable, Traceless, Marks, Numbered;
    ghost var store := agents.store;
    RollBack(agents, isOverwrite, containers, metas, indicator, before, version, base);
    OutsideTwice(before, store, agents.store, version, base, |metas|);
    if forall i :: 0 <= i < |spares| ==> Undoable(agents, before, event, spares, metas, encoded, isOverwrite, i) {
      UndoneRestores(agents, before, store, agents.store, event, spares, metas, encoded, containers, isOverwrite,
                     version, base);
    }
    forall i | 0 <= i < |spares| && containers[i] == INVALID_CONTAINER_ID {
      RejectedStays(agents, before, store, agents.store, event, spares, metas, encoded, containers, isOverwrite,
                    version, base, i);
    }
  }

  lemma OutsideTwice(before: Store, store: Store, after: Store, version: nat, base: nat, count: nat)
    requires SameOutside(before, store, version, base, count) && SameOutside(store, after, version, base, count)
    ensures SameOutside(before, after, version, base, count)
  {
  }

  /**
   Writes a stripe. An overwrite succeeds when every chunk that has a container is acknowledged, and
   then keeps all containers; a new stripe also succeeds when k chunks are. After a failure the chunks that
   were acknowledged are reverted or deleted.
   */
  method WriteFileStripe(agents: Agents, code: Code, version: nat, data: seq<Byte>, offset: nat, a: nat,
                         spares: seq<int>, isOverwrite: bool, ghost stripe: nat)
    returns (ok: bool, containers: seq<int>, metas: seq<ChunkMeta>)
    requires agents.Valid() && code.Valid() && a > 0 && offset == Pos(stripe, a) && |spares| <= code.n && data != []
    modifies agents
    ensures agents.Valid() && |containers| == code.n
    ensures metas == Metas(agents.md5, code, data, version, Pos(stripe, code.n))
    ensures SameOutside(old(agents.store), agents.store, version, Pos(stripe, code.n), code.n)
    // a chunk keeps a container id exactly when it was acknowledged there, and on success it is stored there
    ensures forall i :: 0 <= i < code.n ==>
              containers[i] ==
                if Written(agents, old(agents.nextEvent), spares, metas, Encode(code, data), i) then spares[i]
                else INVALID_CONTAINER_ID
    ensures forall i :: 0 <= i < |spares| && spares[i] != INVALID_CONTAINER_ID ==>
              var r := PutRequest(old(agents.nextEvent) + i, spares[i], metas[i], Encode(code, data)[i]);
              var reply := agents.put(r);
              (containers[i] == spares[i] <==>
               reply.arrived && reply.success && (agents.verify ==> reply.md5 == agents.md5(Encode(code, data)[i])))
    ensures ok ==> forall i :: 0 <= i < code.n && containers[i] != INVALID_CONTAINER_ID ==>
              Has(agents.store, Key(containers[i], version, Pos(stripe, code.n) + i), Encode(code, data)[i])
    ensures old(agents.acked) <= agents.acked
    ensures forall i :: 0 <= i < code.n && containers[i] != INVALID_CONTAINER_ID ==>
              Confirmed(agents.acked, containers[i], metas[i], Encode(code, data)[i])
    ensures ok <==>
              || AllWritten(agents, old(agents.nextEvent), spares, metas, Encode(code, data), code.n)
              || (!isOverwrite && Placed(containers) >= code.k)
    ensures Healthy(agents.verify, agents.put) ==> ok
    // what success means
    ensures ok && isOverwrite && |spares| == code.n ==> containers == spares
    ensures ok && !isOverwrite && |spares| >= code.k && INVALID_CONTAINER_ID !in spares ==> Placed(containers) >= code.k
    // when the writes that were acknowledged are undone, a failure leaves no trace exactly when the others left none
    ensures !ok && (forall i :: 0 <= i < |spares| ==>
                      Undoable(agents, old(agents.store), old(agents.nextEvent), spares, metas, Encode(code, data),
                               isOverwrite, i)) ==>
              (agents.store == old(agents.store) <==>
               forall i :: 0 <= i < |spares| ==>
                 Traceless(agents, old(agents.store), old(agents.nextEvent), spares, metas, Encode(code, data), i))
    // one that changed a chunk and was not acknowledged is not undone
    ensures !ok ==> forall i :: 0 <= i < |spares| && containers[i] == INVALID_CONTAINER_ID ==>
              var reply := agents.put(PutAt(old(agents.nextEvent), spares, metas, Encode(code, data), i));
              reply.kept.Some? ==> Has(agents.store, Key(spares[i], version, Pos(stripe, code.n) + i), reply.kept.value)
  {
    hide Encode, Metas, Written, Honest, Healthy, SameOutside, Has, Placed, AllWritten, Pos, Acks, Confirmed, Sent,
      Reverted, Undoable, Traceless, Marks;
    ghost var event := agents.nextEvent;
    var before, encoded := agents.store, [];
    encoded, metas := EncodeFile(agents, code, version, data, offset, a, stripe);
    var replies := SendChunks(agents, spares, metas, encoded, version, Pos(stripe, code.n));
    var list, allSuccess, numSuccess := CheckPuts(agents, spares, metas, encoded, replies, event);
    containers := list[..];
    forall i | |spares| <= i < code.n {
      NotSent(agents, event, spares, metas, encoded, i);
    }
    AcknowledgedKeep(agents, event, spares, metas, encoded, containers);
    forall i | 0 <= i < code.n && containers[i] != INVALID_CONTAINER_ID
      ensures Confirmed(agents.acked, containers[i], metas[i], encoded[i])
    {
      WrittenIsConfirmed(agents, event, spares, metas, encoded, agents.acked, i);
    }
    ok := if isOverwrite then allSuccess else allSuccess || numSuccess >= code.k;
    if Healthy(agents.verify, agents.put) {
      HealthyWritesAll(agents, event, spares, metas, encoded);
    }
    if allSuccess {
      KeepsAll(agents, event, spares, metas, encoded, containers);
    }
    if !ok {
      var indicator := MarkStored(agents, spares, metas, encoded, replies, event);
      CleanUpStripe(agents, isOverwrite, spares, containers, metas, encoded, indicator, before, version,
                    Pos(stripe, code.n), event);
    }
  }

  lemma HealthyWritesAll(agents: Agents, event: nat, spares: seq<int>, metas: seq<ChunkMeta>, encoded: seq<Chunk>)
    requires |metas| == |encoded| && Healthy(agents.verify, agents.put)
    ensures AllWritten(agents, event, spares, metas, encoded, |metas|)
  {
  }

  /** When all chunks with a container were written, the containers are those they were sent to. */
  lemma KeepsAll(agents: Agents, event: nat, spares: seq<int>, metas: seq<ChunkMeta>, encoded: seq<Chunk>,
                 containers: seq<int>)
    requires |metas| == |encoded| == |containers| && |spares| <= |metas|
    requires AllWritten(agents, event, spares, metas, encoded, |metas|)
    requires forall i :: 0 <= i < |metas| ==>
               containers[i] == if Written(agents, event, spares, metas, encoded, i) then spares[i]
                                else INVALID_CONTAINER_ID
    ensures containers[..|spares|] == spares
    ensures |spares| == |containers| ==> containers == spares
    ensures INVALID_CONTAINER_ID !in spares ==> Placed(containers) >= |spares|
  {
    hide Placed;
    if INVALID_CONTAINER_ID !in spares {
      AllPlaced(containers, spares, |spares|);
    }
  }

  lemma {:induction false} AllPlaced(containers: seq<int>, spares: seq<int>, count: nat)
    requires count <= |spares| <= |containers| && INVALID_CONTAINER_ID !in spares
    requires forall i :: 0 <= i < count ==> containers[i] == spares[i]
    ensures Placed(containers) >= count
    decreases |containers|
  {
    if containers != [] {
      var last := |containers| - 1;
      if count == |containers| {
        AllPlaced(containers[..last], spares[..last], last);
      } else if |spares| == |containers| {
        AllPlaced(containers[..last], spares[..last], count);
      } else {
        AllPlaced(containers[..last], spares, count);
      }
    }
  }

  /** A chunk that arrives with another checksum fails the overwrite, and stays although every undo would succeed. */
  method WrongChecksumStays() returns (agents: Agents, ok: bool)
    ensures !ok && Key(7, 0, 0) in agents.store
  {
    hide Encode, Metas, SameOutside, Placed, Confirmed, Undoable, Traceless;
    var put := (r: PutRequest) =>
      var placed := r.container != INVALID_CONTAINER_ID;
      PutReply(placed, true, r.container, [Zero], if placed then Some(r.data) else None);
    agents := new Agents(true, _ => [], put, _ => Undone, _ => map[]);
    var code, data := Code(1, 1, [[One]]), [Zero];
    assert Unit(1, 0) == [One];
    assert Pos(0, 1) == 0;
    var containers, metas;
    ghost var event := agents.nextEvent;
    ok, containers, metas := WriteFileStripe(agents, code, 0, data, 0, 1, [7], true, 0);
    assert metas[0].md5 == [] && !Written(agents, event, [7], metas, Encode(code, data), 0);
    assert agents.put(PutAt(event, [7], metas, Encode(code, data), 0)).kept.Some?;
  }
}
