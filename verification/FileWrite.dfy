/**
 Writing a range of a file stripe by stripe, src/proxy/proxy_file_ops.cc.
 */
module FileWrite {
  import opened Wrappers
  import opened Gf256
  import opened Sequences
  import opened ReedSolomon
  import opened ChunkAccess
  import opened Striping
  import opened StripeWrite
  import opened FileRead

  /** The containers found for a new stripe: at most n, and real ones. */
  ghost predicate Picks(pick: nat -> seq<int>, n: nat) {
    forall s :: |pick(s)| <= n && INVALID_CONTAINER_ID !in pick(s)
  }

  /** Nothing stands in the way of a write: the agents acknowledge, and there are enough containers. */
  ghost predicate Willing(agents: Agents, pick: nat -> seq<int>, k: nat) {
    Healthy(agents.verify, agents.put) && forall s :: |pick(s)| >= k
  }

  /** A stripe whose chunk ids lie outside the range written is as before. */
  lemma StripeUntouched(before: Store, after: Store, sc: StorageClass, version: nat, data: seq<Byte>, s: nat,
                        metas: seq<ChunkMeta>, containers: seq<int>, written: nat, base: nat, count: nat)
    requires sc.Valid() && StripeStored(before, sc, version, data, s, metas, containers)
    requires SameOutside(before, after, written, base, count)
    requires version != written || Pos(s, sc.code.n) + sc.code.n <= base || base + count <= Pos(s, sc.code.n)
    ensures StripeStored(after, sc, version, data, s, metas, containers)
  {
    hide Encode, StripeListed, Pos, Code.Valid;
    ListedLengths(sc, version, data, s, metas, containers);
    forall i | 0 <= i < sc.code.n && containers[i] != INVALID_CONTAINER_ID
      ensures Has(after, Key(containers[i], version, Pos(s, sc.code.n) + i), Encode(sc.code, data)[i])
    {
      assert Has(before, Key(containers[i], version, Pos(s, sc.code.n) + i), Encode(sc.code, data)[i]);
    }
  }

  lemma ListedLengths(sc: StorageClass, version: nat, data: seq<Byte>, s: nat, metas: seq<ChunkMeta>,
                      containers: seq<int>)
    requires sc.Valid() && StripeListed(sc, version, data, s, metas, containers)
    ensures |metas| == |containers| == sc.code.n
  {
  }

  /** What was acknowledged stays so. */
  lemma StaysConfirmed(acked: set<PutRequest>, acked': set<PutRequest>, sc: StorageClass, version: nat, data: seq<Byte>,
                       s: nat, metas: seq<ChunkMeta>, containers: seq<int>)
    requires sc.Valid() && StripeConfirmed(acked, sc, version, data, s, metas, containers) && acked <= acked'
    ensures StripeConfirmed(acked', sc, version, data, s, metas, containers)
  {
    hide Encode, StripeListed, Pos, Code.Valid;
    ListedLengths(sc, version, data, s, metas, containers);
    forall i | 0 <= i < sc.code.n && containers[i] != INVALID_CONTAINER_ID
      ensures Confirmed(acked', containers[i], metas[i], Encode(sc.code, data)[i])
    {
      assert Confirmed(acked, containers[i], metas[i], Encode(sc.code, data)[i]);
    }
  }

  lemma OutsideGrows(before: Store, after: Store, version: nat, base: nat, count: nat, count': nat)
    requires SameOutside(before, after, version, base, count) && count <= count'
    ensures SameOutside(before, after, version, base, count')
  {
  }

  lemma OutsideWidens(s0: Store, s1: Store, s2: Store, version: nat, base: nat, count: nat, base2: nat, count2: nat)
    requires SameOutside(s0, s1, version, base, count) && SameOutside(s1, s2, version, base2, count2)
    requires count == 0 || (base2 == base + count)
    requires count == 0 ==> base2 == base
    ensures SameOutside(s0, s2, version, base, count + count2)
  {
  }

  lemma GroupWritten<T>(before: seq<T>, after: seq<T>, n: nat, s: nat, source: seq<T>)
    requires |source| == n && Pos(s, n) + n <= |before|
    requires after == before[..Pos(s, n)] + source + before[Pos(s, n) + n..]
    ensures |after| == |before| && Group(after, n, s) == source
    ensures forall j: nat :: j != s && Pos(j, n) + n <= |before| ==> Group(after, n, j) == Group(before, n, j)
  {
    forall j: nat | j != s && Pos(j, n) + n <= |before|
      ensures Group(after, n, j) == Group(before, n, j)
    {
      if j < s {
        PosSteps(j, s, n);
      } else {
        PosSteps(s, j, n);
      }
      hide Pos;
    }
  }

  /** Stripe s of the new content is acknowledged and stored as the arrays of the file being written say. */
  ghost predicate Done(acked: set<PutRequest>, store: Store, sc: StorageClass, version: nat, content: seq<Byte>, s: nat,
                       chunks: seq<ChunkMeta>, containers: seq<int>)
    requires sc.Valid()
  {
    && Pos(s, sc.StripeSize()) <= |content| && Pos(s, sc.code.n) + sc.code.n <= |chunks| == |containers|
    && var data, metas := Part(content, sc.StripeSize(), s), Group(chunks, sc.code.n, s);
       var cs := Group(containers, sc.code.n, s);
       StripeStored(store, sc, version, data, s, metas, cs) && StripeConfirmed(acked, sc, version, data, s, metas, cs)
  }

  /** Every stripe of the file has at least k containers. */
  ghost predicate Durable(file: FileMeta, n: nat, k: nat) {
    forall s: nat :: s < file.numStripes ==>
      Pos(s, n) + n <= |file.containers| && Placed(Group(file.containers, n, s)) >= k
  }

  /** The data at hand, which starts at `offset` of the file, includes stripe i of the content. */
  ghost predicate Supplies(data: seq<Byte>, offset: nat, content: seq<Byte>, a: nat, i: nat) {
    && offset <= Pos(i, a) < |content|
    && Pos(i, a) - offset + WriteLength(|content|, a, i) <= |data|
    && data[Pos(i, a) - offset..Pos(i, a) - offset + WriteLength(|content|, a, i)] == Part(content, a, i)
  }

  /** Stripes of the file are overwritten where they are; new ones go to the containers picked. */
  method ChooseContainers(file: FileMeta, n: nat, k: nat, i: nat, pick: nat -> seq<int>)
    returns (ok: bool, spares: seq<int>)
    requires Picks(pick, n) && Durable(file, n, k)
    ensures i < file.numStripes ==> ok && Pos(i, n) + n <= |file.containers| && spares == Group(file.containers, n, i)
    ensures i >= file.numStripes ==> spares == pick(i) && (ok <==> |spares| >= k)
  {
    if i >= file.numStripes {
      spares := pick(i);
      return |spares| >= k, spares;
    }
    spares := [];
    for c := 0 to n
      invariant spares == Group(file.containers, n, i)[..c]
    {
      spares := spares + [file.containers[Pos(i, n) + c]];
    }
    ok := true;
  }

  /** Agents that store nothing they do not acknowledge, and undo what they are asked to. */
  ghost predicate Tidy(agents: Agents) {
    && (forall r :: agents.put(r).kept.Some? ==> Acknowledged(agents.verify, r, agents.put(r)))
    && (forall r :: agents.undo(r).Undone?)
  }

  /** Agents that store all they get, also when they do not acknowledge it. */
  ghost predicate Sticky(agents: Agents) {
    forall r: PutRequest :: r.container != INVALID_CONTAINER_ID ==> agents.put(r).kept == Some(r.data)
  }

  /** Every container on record for stripe s has a chunk of it. */
  ghost predicate Present(store: Store, file: FileMeta, n: nat, s: nat) {
    && Pos(s, n) + n <= |file.containers|
    && forall i :: 0 <= i < n && Group(file.containers, n, s)[i] != INVALID_CONTAINER_ID ==>
         Key(Group(file.containers, n, s)[i], file.version, Pos(s, n) + i) in store
  }

  /** Some container on record for stripe s has the chunk that belongs to other data. */
  ghost predicate Spoiled(store: Store, sc: StorageClass, file: FileMeta, data: seq<Byte>, s: nat)
    requires sc.Valid()
  {
    && Pos(s, sc.code.n) + sc.code.n <= |file.containers|
    && exists i: nat ::
         && i < sc.code.n && Group(file.containers, sc.code.n, s)[i] != INVALID_CONTAINER_ID
         && Has(store, Key(Group(file.containers, sc.code.n, s)[i], file.version, Pos(s, sc.code.n) + i),
                Encode(sc.code, data)[i])
  }

  /** What a failed attempt to overwrite stripe s with the data leaves behind. */
  ghost predicate Failure(agents: Agents, before: Store, after: Store, sc: StorageClass, file: FileMeta,
                          data: seq<Byte>, s: nat)
    requires sc.Valid()
  {
    && (Tidy(agents) && Present(before, file, sc.code.n, s) ==> after == before)
    && (Sticky(agents) ==> Spoiled(after, sc, file, data, s))
  }

  /** A stripe that could not be overwritten is undone if the agents are tidy, and spoiled if they are sticky. */
  lemma StripeFailure(agents: Agents, before: Store, after: Store, event: nat, sc: StorageClass, file: FileMeta,
                      data: seq<Byte>, s: nat, metas: seq<ChunkMeta>, containers: seq<int>)
    requires sc.Valid() && Pos(s, sc.code.n) + sc.code.n <= |file.containers| && |containers| == sc.code.n
    requires metas == Metas(sc.md5, sc.code, data, file.version, Pos(s, sc.code.n))
    requires Honest(agents.verify, agents.put)
    requires var spares, encoded := Group(file.containers, sc.code.n, s), Encode(sc.code, data);
             && !AllWritten(agents, event, spares, metas, encoded, sc.code.n)
             && (forall i :: 0 <= i < sc.code.n ==>
                   containers[i] == if Written(agents, event, spares, metas, encoded, i) then spares[i]
                                    else INVALID_CONTAINER_ID)
             && ((forall i :: 0 <= i < sc.code.n ==>
                    Undoable(agents, before, event, spares, metas, encoded, true, i)) ==>
                   (after == before <==>
                    forall i :: 0 <= i < sc.code.n ==> Traceless(agents, before, event, spares, metas, encoded, i)))
             && (forall i :: 0 <= i < sc.code.n && containers[i] == INVALID_CONTAINER_ID ==>
                   var reply := agents.put(PutAt(event, spares, metas, encoded, i));
                   reply.kept.Some? ==>
                     Has(after, Key(spares[i], file.version, Pos(s, sc.code.n) + i), reply.kept.value))
    ensures Failure(agents, before, after, sc, file, data, s)
  {
    hide Encode, Metas, Pos, Group, Selected, Marks, Has;
    var spares, encoded := Group(file.containers, sc.code.n, s), Encode(sc.code, data);
    if Tidy(agents) && Present(before, file, sc.code.n, s) {
      forall i | 0 <= i < sc.code.n
        ensures Undoable(agents, before, event, spares, metas, encoded, true, i)
        ensures Traceless(agents, before, event, spares, metas, encoded, i)
      {
        WrittenIsKept(agents, event, spares, metas, encoded, i);
      }
    }
    if Sticky(agents) {
      var i: nat :| i < sc.code.n && !Written(agents, event, spares, metas, encoded, i)
                    && spares[i] != INVALID_CONTAINER_ID;
      assert agents.put(PutAt(event, spares, metas, encoded, i)).kept == Some(encoded[i]);
    }
  }

  /** Writes stripe i of the file, and enters it into the arrays of the new metadata. */
  method WriteStripe(agents: Agents, sc: StorageClass, a: nat, file: FileMeta, size: nat, offset: nat, data: seq<Byte>,
                     i: nat, pick: nat -> seq<int>, chunks: array<ChunkMeta>, containers: array<int>,
                     ghost content: seq<Byte>)
    returns (ok: bool)
    requires agents.Valid() && sc.Valid() && sc.md5 == agents.md5 && a == sc.StripeSize() > 0 && Picks(pick, sc.code.n)
    requires Durable(file, sc.code.n, sc.code.k)
    requires size == |content| && Supplies(data, offset, content, a, i)
    requires Pos(i, sc.code.n) + sc.code.n <= chunks.Length == containers.Length
    modifies agents, chunks, containers
    ensures agents.Valid() && old(agents.acked) <= agents.acked
    ensures SameOutside(old(agents.store), agents.store, file.version, Pos(i, sc.code.n), sc.code.n)
    ensures Willing(agents, pick, sc.code.k) ==> ok
    ensures ok ==> Done(agents.acked, agents.store, sc, file.version, content, i, chunks[..], containers[..])
    ensures ok && i < file.numStripes ==> Group(containers[..], sc.code.n, i) == Group(file.containers, sc.code.n, i)
    ensures !ok && i < file.numStripes ==>
              && Pos(i, a) <= |content|
              && Failure(agents, old(agents.store), agents.store, sc, file, Part(content, a, i), i)
    ensures ok ==> forall j: nat :: j != i && Pos(j, sc.code.n) + sc.code.n <= chunks.Length ==>
              && Group(chunks[..], sc.code.n, j) == Group(old(chunks[..]), sc.code.n, j)
              && Group(containers[..], sc.code.n, j) == Group(old(containers[..]), sc.code.n, j)
  {
    hide Encode, Pos, Metas, Placed, Has, SameOutside, Honest, Healthy, Group, Picks, Durable, ChunkSize, AllWritten,
      Written, Confirmed, Undoable, Traceless, Failure, Part, WriteLength;
    ghost var before, before' := chunks[..], containers[..];
    var n := sc.code.n;
    var spares, cs, metas;
    ok, spares := ChooseContainers(file, n, sc.code.k, i, pick);
    if !ok {
      SameAsItself(agents.store, file.version, Pos(i, n), n);
      return;
    }
    PickedIsReal(file, sc, i, pick);
    NoEmptyStripe(content, a, i);
    var from := Pos(i, a) - offset;
    ghost var event, store := agents.nextEvent, agents.store;
    ok, cs, metas := WriteFileStripe(agents, sc.code, file.version, data[from..from + WriteLength(size, a, i)],
                                     Pos(i, a), a, spares, i < file.numStripes, i);
    if !ok {
      if i < file.numStripes {
        StripeFailure(agents, store, agents.store, event, sc, file, Part(content, a, i), i, metas, cs);
      }
      return;
    }
    assert StripeStored(agents.store, sc, file.version, Part(content, a, i), i, metas, cs);
    assert StripeConfirmed(agents.acked, sc, file.version, Part(content, a, i), i, metas, cs);
    hide StripeStored, StripeConfirmed;
    CopyRange(containers, Pos(i, n), cs);
    CopyRange(chunks, Pos(i, n), metas);
    GroupWritten(before, chunks[..], n, i, metas);
    GroupWritten(before', containers[..], n, i, cs);
  }

  lemma NoEmptyStripe(content: seq<Byte>, a: nat, i: nat)
    requires a > 0 && Pos(i, a) < |content|
    ensures WriteLength(|content|, a, i) > 0
  {
  }

  lemma PickedIsReal(file: FileMeta, sc: StorageClass, i: nat, pick: nat -> seq<int>)
    requires sc.Valid() && Picks(pick, sc.code.n) && Durable(file, sc.code.n, sc.code.k)
    ensures |pick(i)| <= sc.code.n && INVALID_CONTAINER_ID !in pick(i)
    ensures i < file.numStripes ==>
              && Pos(i, sc.code.n) + sc.code.n <= |file.containers|
              && Placed(Group(file.containers, sc.code.n, i)) >= sc.code.k
  {
  }

  /** Whole stripes of the content, or up to its end, are at hand. */
  ghost predicate Range(data: seq<Byte>, offset: nat, length: nat, content: seq<Byte>, a: nat) {
    && a > 0 && offset % a == 0 && length <= |data| && offset + length <= |content|
    && (offset + length == |content| || (offset + length) % a == 0)
    && data[..length] == content[offset..offset + length]
  }

  lemma RangeReaches(offset: nat, length: nat, size: nat, a: nat, i: nat)
    requires a > 0 && offset % a == 0 && offset + length <= size
    requires (offset + length == size || (offset + length) % a == 0)
    requires offset / a <= i < Stripes(offset + length, a)
    ensures offset <= Pos(i, a) < size && i < Stripes(size, a) && Pos(i, a) + WriteLength(size, a, i) <= offset + length
  {
    hide Stripes, Pos;
    StripesCover(offset, a);
    StripesCover(offset + length, a);
    StripesCover(size, a);
    if offset / a < i {
      PosSteps(offset / a, i, a);
    }
    PosNext(i, a);
    if i + 1 < Stripes(offset + length, a) {
      PosSteps(i + 1, Stripes(offset + length, a), a);
    }
  }

  lemma RangeSupplies(data: seq<Byte>, offset: nat, length: nat, content: seq<Byte>, a: nat, i: nat)
    requires Range(data, offset, length, content, a) && offset / a <= i < Stripes(offset + length, a)
    ensures Supplies(data, offset, content, a, i) && i < Stripes(|content|, a)
  {
    hide Stripes, Pos, WriteLength;
    RangeReaches(offset, length, |content|, a, i);
    SliceOf(data, length, content, offset, Pos(i, a), WriteLength(|content|, a, i));
  }

  lemma SliceOf(data: seq<Byte>, length: nat, content: seq<Byte>, offset: nat, at: nat, count: nat)
    requires length <= |data| && offset + length <= |content| && data[..length] == content[offset..offset + length]
    requires offset <= at && at + count <= offset + length
    ensures data[at - offset..at - offset + count] == content[at..at + count]
  {
    var from := at - offset;
    assert data[from..from + count] == data[..length][from..from + count];
    assert content[at..at + count] == content[offset..offset + length][from..from + count];
  }

  /** What the stripes written so far amount to. */
  ghost predicate Progress(acked: set<PutRequest>, store: Store, sc: StorageClass, file: FileMeta, content: seq<Byte>,
                           start: nat, i: nat, chunks: seq<ChunkMeta>, containers: seq<int>)
    requires sc.Valid()
  {
    forall s: nat :: start <= s < i ==>
      && Done(acked, store, sc, file.version, content, s, chunks, containers)
      && (s < file.numStripes && Pos(s, sc.code.n) + sc.code.n <= |file.containers| ==>
            Group(containers, sc.code.n, s) == Group(file.containers, sc.code.n, s))
  }

  lemma ProgressExtends(acked: set<PutRequest>, acked': set<PutRequest>, before: Store, after: Store, sc: StorageClass,
                        file: FileMeta, content: seq<Byte>, start: nat, i: nat, chunks: seq<ChunkMeta>,
                        containers: seq<int>, chunks': seq<ChunkMeta>, containers': seq<int>)
    requires sc.Valid() && Progress(acked, before, sc, file, content, start, i, chunks, containers)
    requires SameOutside(before, after, file.version, Pos(i, sc.code.n), sc.code.n)
    requires acked <= acked' && |chunks| == |chunks'| == |containers| == |containers'|
    requires Done(acked', after, sc, file.version, content, i, chunks', containers')
    requires i < file.numStripes && Pos(i, sc.code.n) + sc.code.n <= |file.containers| ==>
               Group(containers', sc.code.n, i) == Group(file.containers, sc.code.n, i)
    requires forall j: nat :: j != i && Pos(j, sc.code.n) + sc.code.n <= |chunks| ==>
               && Group(chunks', sc.code.n, j) == Group(chunks, sc.code.n, j)
               && Group(containers', sc.code.n, j) == Group(containers, sc.code.n, j)
    ensures Progress(acked', after, sc, file, content, start, i + 1, chunks', containers')
  {
    hide StripeStored, StripeConfirmed, Group, Part, SameOutside, Code.Valid;
    var n := sc.code.n;
    forall s: nat | start <= s < i
      ensures Done(acked', after, sc, file.version, content, s, chunks', containers')
    {
      assert Done(acked, before, sc, file.version, content, s, chunks, containers);
      PosSteps(s, i, n);
      StripeUntouched(before, after, sc, file.version, Part(content, sc.StripeSize(), s), s, Group(chunks, n, s),
                      Group(containers, n, s), file.version, Pos(i, n), n);
      StaysConfirmed(acked, acked', sc, file.version, Part(content, sc.StripeSize(), s), s, Group(chunks, n, s),
                     Group(containers, n, s));
    }
  }

  /** The number of entries of the stripes from start to end. */
  function Span(start: nat, end: nat, n: nat): nat
    requires start <= end
  {
    if start < end then
      PosSteps(start, end, n);
      Pos(end, n) - Pos(start, n)
    else 0
  }

  lemma SpanNext(start: nat, i: nat, n: nat)
    requires start <= i
    ensures Span(start, i + 1, n) == Span(start, i, n) + n && Pos(start, n) + Span(start, i, n) == Pos(i, n)
  {
    PosNext(i, n);
  }

  lemma SpanGrows(start: nat, i: nat, end: nat, n: nat)
    requires start <= i <= end
    ensures Span(start, i, n) <= Span(start, end, n)
  {
    PosOrder(i, end, n);
  }

  /** The chunks of a range replaced by others. */
  function Overlay(store: Store, other: Store, version: nat, base: nat, count: nat): Store {
    map key |
      && key in store.Keys + other.Keys
      && if key.version == version && base <= key.id < base + count
         then key in other && key.container != INVALID_CONTAINER_ID else key in store ::
      if key.version == version && base <= key.id < base + count then other[key] else store[key]
  }

  /** Cleans up chunks of a version of the file; they may be anything after that. */
  method Discard(agents: Agents, version: nat, base: nat, count: nat)
    requires agents.Valid()
    modifies agents
    ensures agents.Valid() && agents.acked == old(agents.acked)
    ensures SameOutside(old(agents.store), agents.store, version, base, count)
  {
    hide Honest;
    agents.store := Overlay(agents.store, agents.leftover(agents.nextEvent), version, base, count);
    agents.nextEvent := agents.nextEvent + 1;
  }

  /** Writes stripes one by one. */
  method WriteRange(agents: Agents, sc: StorageClass, a: nat, start: nat, end: nat, file: FileMeta, size: nat,
                    offset: nat, length: nat, data: seq<Byte>, pick: nat -> seq<int>, chunks: array<ChunkMeta>,
                    containers: array<int>, ghost content: seq<Byte>)
    returns (ok: bool)
    requires agents.Valid() && sc.Valid() && sc.md5 == agents.md5 && Picks(pick, sc.code.n)
    requires Durable(file, sc.code.n, sc.code.k)
    requires size == |content| && a == sc.StripeSize() > 0 && Range(data, offset, length, content, a)
    requires chunks.Length == containers.Length == Pos(Stripes(size, a), sc.code.n)
    requires start == offset / a <= end == Stripes(offset + length, a)
    modifies agents, chunks, containers
    ensures agents.Valid() && old(agents.acked) <= agents.acked && (Willing(agents, pick, sc.code.k) ==> ok)
    ensures ok ==> Progress(agents.acked, agents.store, sc, file, content, start, end, chunks[..], containers[..])
    ensures SameOutside(old(agents.store), agents.store, file.version, Pos(start, sc.code.n),
                        Span(start, end, sc.code.n))
    ensures !ok && end == start + 1 && start < file.numStripes ==>
              && Pos(start, a) <= |content|
              && Failure(agents, old(agents.store), agents.store, sc, file, Part(content, a, start), start)
  {
    hide Progress, Stripes, Done, Group, Pos, Range, Durable, Picks, Willing, SameOutside, Span, Honest, Supplies,
      Failure, StorageClass.StripeSize, StorageClass.Valid;
    var n := sc.code.n;
    ghost var store0 := agents.store;
    NoProgress(agents.acked, store0, sc, file, content, start, chunks[..], containers[..]);
    SpanNext(start, start, n);
    SameAsItself(store0, file.version, Pos(start, n), Span(start, start, n));
    for i := start to end
      invariant agents.Valid() && old(agents.acked) <= agents.acked
      invariant Progress(agents.acked, agents.store, sc, file, content, start, i, chunks[..], containers[..])
      invariant SameOutside(store0, agents.store, file.version, Pos(start, n), Span(start, i, n))
      invariant i == start ==> agents.store == store0
    {
      RangeSupplies(data, offset, length, content, a, i);
      PosFits(i, Stripes(size, a), n);
      ghost var before, before', store, acked := chunks[..], containers[..], agents.store, agents.acked;
      ok := WriteStripe(agents, sc, a, file, size, offset, data, i, pick, chunks, containers, content);
      SpanNext(start, i, n);
      OutsideWidens(store0, store, agents.store, file.version, Pos(start, n), Span(start, i, n), Pos(i, n), n);
      if !ok {
        if i > start {
          ghost var written := agents.store;
          Discard(agents, file.version, Pos(start, n), Span(start, i, n));
          OutsideGrows(written, agents.store, file.version, Pos(start, n), Span(start, i, n), Span(start, i + 1, n));
          OutsideTwice(store0, written, agents.store, file.version, Pos(start, n), Span(start, i + 1, n));
        }
        SpanGrows(start, i + 1, end, n);
        OutsideGrows(store0, agents.store, file.version, Pos(start, n), Span(start, i + 1, n), Span(start, end, n));
        return;
      }
      ProgressExtends(acked, agents.acked, store, agents.store, sc, file, content, start, i, before, before',
                      chunks[..], containers[..]);
    }
    ok := true;
  }

  /**
   Writes the stripes of a range. When it succeeds each of them is stored with its part of the content,
   stripes the file had are still in the same containers, and no chunk of another stripe was touched.
   */
  method WriteFileStripes(agents: Agents, sc: StorageClass, file: FileMeta, size: nat, offset: nat, length: nat,
                          data: seq<Byte>, pick: nat -> seq<int>, ghost content: seq<Byte>)
    returns (ok: bool, numStripes: nat, chunks: array<ChunkMeta>, containers: array<int>)
    requires agents.Valid() && sc.Valid() && sc.md5 == agents.md5 && Picks(pick, sc.code.n)
    requires Durable(file, sc.code.n, sc.code.k)
    requires size == |content| && Range(data, offset, length, content, sc.StripeSize())
    modifies agents
    ensures agents.Valid() && old(agents.acked) <= agents.acked && fresh(chunks) && fresh(containers)
    ensures (Willing(agents, pick, sc.code.k) ==> ok)
    ensures numStripes == Stripes(size, sc.StripeSize())
    ensures chunks.Length == containers.Length == Pos(numStripes, sc.code.n)
    ensures offset / sc.StripeSize() <= Stripes(offset + length, sc.StripeSize()) <= numStripes
    ensures ok ==>
              Progress(agents.acked, agents.store, sc, file, content, offset / sc.StripeSize(),
                       Stripes(offset + length, sc.StripeSize()), chunks[..], containers[..])
    ensures SameOutside(old(agents.store), agents.store, file.version, Pos(offset / sc.StripeSize(), sc.code.n),
                        Span(offset / sc.StripeSize(), Stripes(offset + length, sc.StripeSize()), sc.code.n))
    // one stripe of the file that could not be overwritten
    ensures var start, end := offset / sc.StripeSize(), Stripes(offset + length, sc.StripeSize());
            !ok && end == start + 1 && start < file.numStripes ==>
              && Pos(start, sc.StripeSize()) <= |content|
              && Failure(agents, old(agents.store), agents.store, sc, file, Part(content, sc.StripeSize(), start),
                         start)
  {
    var a := FullStripe(sc);
    var n := sc.code.n;
    hide Progress, Stripes, Done, Group, Pos, Range, Durable, Picks, Willing, SameOutside, Span, Honest, Supplies,
      Failure, StorageClass.StripeSize;
    numStripes := Stripes(size, a);
    chunks := new ChunkMeta[Pos(numStripes, n)](_ => ChunkMeta(0, 0, [], 0));
    containers := new int[Pos(numStripes, n)](_ => INVALID_CONTAINER_ID);
    var start, end := offset / a, (offset + length + a - 1) / a;
    CeilIsStripes(offset + length, a);
    RangeOrder(data, offset, length, content, a);
    ok := WriteRange(agents, sc, a, start, end, file, size, offset, length, data, pick, chunks, containers, content);
  }

  lemma NoProgress(acked: set<PutRequest>, store: Store, sc: StorageClass, file: FileMeta, content: seq<Byte>,
                   start: nat, chunks: seq<ChunkMeta>, containers: seq<int>)
    requires sc.Valid()
    ensures Progress(acked, store, sc, file, content, start, start, chunks, containers)
  {
  }

  lemma PosFits(i: nat, count: nat, n: nat)
    requires i < count
    ensures Pos(i, n) + n <= Pos(count, n)
  {
    PosSteps(i, count, n);
  }

  lemma RangeOrder(data: seq<Byte>, offset: nat, length: nat, content: seq<Byte>, a: nat)
    requires Range(data, offset, length, content, a)
    ensures a > 0 && offset / a <= Stripes(offset + length, a) <= Stripes(|content|, a)
  {
    hide Stripes, Pos;
    StripesCover(offset, a);
    StripesCover(offset + length, a);
    StripesCover(|content|, a);
    PosReflects(offset / a, Stripes(offset + length, a), a);
  }
}
