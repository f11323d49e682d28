/**
 A file as stripes stored at agents, and reading it back, src/proxy/proxy_file_ops.cc.
 */
module FileRead {
  import opened Wrappers
  import opened Gf256
  import opened Linear
  import opened Blocks
  import opened Sequences
  import opened ReedSolomon
  import opened ChunkAccess
  import opened StripeRead
  import opened Striping
  import opened StripeWrite

  /** What the metadata store keeps about a file. */
  datatype FileMeta = FileMeta(version: nat, size: nat, numStripes: nat, chunks: seq<ChunkMeta>, containers: seq<int>)

  /** The storage class of a file: the code, and the largest size of a chunk. */
  datatype StorageClass = StorageClass(code: Code, maxChunkSize: nat, md5: Chunk -> Digest) {
    ghost predicate Valid() {
      code.Valid() && maxChunkSize > 0
    }

    /** The size of a full stripe. */
    ghost function StripeSize(): nat {
      code.k * maxChunkSize
    }
  }

  /** The entries of stripe s. */
  function Group<T>(xs: seq<T>, n: nat, s: nat): (g: seq<T>)
    requires Pos(s, n) + n <= |xs|
    ensures |g| == n
  {
    xs[Pos(s, n)..Pos(s, n) + n]
  }

  /** The entries of a stripe with this data: the metadata of its chunks, and at least k containers. */
  ghost predicate StripeListed(sc: StorageClass, version: nat, data: seq<Byte>, s: nat, metas: seq<ChunkMeta>,
                               containers: seq<int>)
    requires sc.Valid()
  {
    && |containers| == sc.code.n && metas == Metas(sc.md5, sc.code, data, version, Pos(s, sc.code.n))
    && Placed(containers) >= sc.code.k
  }

  /** Every chunk of the stripe that has a container is stored there. */
  ghost predicate StripeStored(store: Store, sc: StorageClass, version: nat, data: seq<Byte>, s: nat,
                               metas: seq<ChunkMeta>, containers: seq<int>)
    requires sc.Valid()
  {
    && StripeListed(sc, version, data, s, metas, containers)
    && forall i :: 0 <= i < sc.code.n && containers[i] != INVALID_CONTAINER_ID ==>
         Has(store, Key(containers[i], version, Pos(s, sc.code.n) + i), Encode(sc.code, data)[i])
  }

  /** Every chunk of the stripe that has a container was acknowledged there, as its metadata says. */
  ghost predicate StripeConfirmed(acked: set<PutRequest>, sc: StorageClass, version: nat, data: seq<Byte>, s: nat,
                                  metas: seq<ChunkMeta>, containers: seq<int>)
    requires sc.Valid()
  {
    && StripeListed(sc, version, data, s, metas, containers)
    && forall i :: 0 <= i < sc.code.n && containers[i] != INVALID_CONTAINER_ID ==>
         Confirmed(acked, containers[i], metas[i], Encode(sc.code, data)[i])
  }

  lemma SizeIsPositive(sc: StorageClass)
    requires sc.Valid()
    ensures sc.StripeSize() > 0
  {
    MulSteps(sc.maxChunkSize, 0, sc.code.k);
  }

  method FullStripe(sc: StorageClass) returns (a: nat)
    requires sc.Valid()
    ensures a == sc.StripeSize() > 0
  {
    SizeIsPositive(sc);
    a := StripeSize(sc.code.k, sc.maxChunkSize);
  }

  /** The metadata has the shape of a file with that many bytes. */
  ghost predicate Shaped(file: FileMeta, sc: StorageClass) {
    && sc.Valid() && sc.StripeSize() > 0 && file.numStripes == Stripes(file.size, sc.StripeSize())
    && |file.chunks| == |file.containers| == Pos(file.numStripes, sc.code.n)
  }

  /** Stripe s of the content has a place in the metadata. */
  ghost predicate PartFound(sc: StorageClass, file: FileMeta, content: seq<Byte>, s: nat) {
    Pos(s, sc.StripeSize()) <= |content| && Pos(s, sc.code.n) + sc.code.n <= |file.chunks| == |file.containers|
  }

  ghost predicate PartListed(sc: StorageClass, file: FileMeta, content: seq<Byte>, s: nat)
    requires sc.Valid()
  {
    && PartFound(sc, file, content, s)
    && StripeListed(sc, file.version, Part(content, sc.StripeSize(), s), s, Group(file.chunks, sc.code.n, s),
                    Group(file.containers, sc.code.n, s))
  }

  ghost predicate PartStored(store: Store, sc: StorageClass, file: FileMeta, content: seq<Byte>, s: nat)
    requires sc.Valid()
  {
    && PartFound(sc, file, content, s)
    && StripeStored(store, sc, file.version, Part(content, sc.StripeSize(), s), s, Group(file.chunks, sc.code.n, s),
                    Group(file.containers, sc.code.n, s))
  }

  ghost predicate PartConfirmed(acked: set<PutRequest>, sc: StorageClass, file: FileMeta, content: seq<Byte>, s: nat)
    requires sc.Valid()
  {
    && PartFound(sc, file, content, s)
    && StripeConfirmed(acked, sc, file.version, Part(content, sc.StripeSize(), s), s, Group(file.chunks, sc.code.n, s),
                       Group(file.containers, sc.code.n, s))
  }

  /** The metadata of the file describes this content, with at least k containers for every stripe. */
  ghost predicate FileListed(sc: StorageClass, file: FileMeta, content: seq<Byte>) {
    && Shaped(file, sc) && file.size == |content|
    && forall s: nat :: s < file.numStripes ==> PartListed(sc, file, content, s)
  }

  /** The stripes start..end-1 of the file are stored. */
  ghost predicate RangeStored(store: Store, sc: StorageClass, file: FileMeta, content: seq<Byte>, start: nat, end: nat)
    requires sc.Valid()
  {
    forall s: nat :: start <= s < end && s < file.numStripes ==> PartStored(store, sc, file, content, s)
  }

  /** The file with this metadata has this content. */
  ghost predicate FileStored(store: Store, sc: StorageClass, file: FileMeta, content: seq<Byte>) {
    && Shaped(file, sc) && file.size == |content|
    && forall s: nat :: s < file.numStripes ==> PartStored(store, sc, file, content, s)
  }

  /** The metadata describes this content, and every chunk was acknowledged by the container listed for it. */
  ghost predicate FileConfirmed(acked: set<PutRequest>, sc: StorageClass, file: FileMeta, content: seq<Byte>) {
    && Shaped(file, sc) && file.size == |content|
    && forall s: nat :: s < file.numStripes ==> PartConfirmed(acked, sc, file, content, s)
  }

  lemma StoredIsListed(store: Store, sc: StorageClass, file: FileMeta, content: seq<Byte>)
    requires FileStored(store, sc, file, content)
    ensures FileListed(sc, file, content) && forall start, end :: RangeStored(store, sc, file, content, start, end)
  {
    hide StripeListed, Group, Part, Pos, Stripes, PartFound;
    forall s: nat | s < file.numStripes
      ensures PartListed(sc, file, content, s)
    {
      assert PartStored(store, sc, file, content, s);
    }
  }

  lemma ConfirmedIsListed(acked: set<PutRequest>, sc: StorageClass, file: FileMeta, content: seq<Byte>)
    requires FileConfirmed(acked, sc, file, content)
    ensures FileListed(sc, file, content)
  {
    hide StripeListed, Group, Part, Pos, Stripes, PartFound;
    forall s: nat | s < file.numStripes
      ensures PartListed(sc, file, content, s)
    {
      assert PartConfirmed(acked, sc, file, content, s);
    }
  }

  /** A chunk in a reply that passes the size and checksum checks is the chunk asked for, as the container has it. */
  ghost predicate Serves(network: Event -> Delivery, store: Store, verify: bool, md5: Chunk -> Digest) {
    forall r: Event :: r.Request? && network(r).sent && network(r).reply.Answer? && network(r).reply.success
                       && |network(r).reply.data| == r.chunk.size
                       && (verify ==> md5(network(r).reply.data) == r.chunk.md5) ==>
      && network(r).reply.chunkId == r.chunk.id
      && Has(store, KeyOf(r.container, r.chunk), network(r).reply.data)
  }

  /** What a reader has at hand: the agents, which containers look alive, and the library's inversion. */
  datatype Reader = Reader(network: Event -> Delivery, verify: bool, alive: seq<bool>, invert: Matrix -> Option<Matrix>,
                           firstId: nat) {
    ghost predicate Valid(store: Store, sc: StorageClass, file: FileMeta)
      requires sc.Valid()
    {
      && Serves(network, store, verify, sc.md5) && SoundInverter(invert, sc.code.k) && |alive| == |file.chunks|
      && forall key :: key in store ==> key.container != INVALID_CONTAINER_ID
    }

    function AccessTo(sc: StorageClass, chunks: seq<ChunkMeta>, containers: seq<int>): Access {
      Access(Get, chunks, containers, verify, sc.md5, network)
    }

    /**
     Stripe s cannot be read with the requests of the log: too few of its chunks are alive and answer the requests
     sent for them, or inversion fails for some.
     */
    ghost predicate Unreadable(sc: StorageClass, file: FileMeta, s: nat, log: Log)
      requires sc.Valid() && Pos(s, sc.code.n) + sc.code.n <= |file.chunks| == |file.containers| == |alive|
    {
      var a := AccessTo(sc, Group(file.chunks, sc.code.n, s), Group(file.containers, sc.code.n, s));
      var live := Group(alive, sc.code.n, s);
      Sound(log, live) && (|Reliable(a, live, log)| < sc.code.k || InversionFails(sc.code, live, invert))
    }

    /**
     Some stripe in start..end-1 cannot be read with one request for each of its chunks, numbered as they may be when
     these stripes are read.
     */
    ghost predicate Blocked(sc: StorageClass, file: FileMeta, start: nat, end: nat)
      requires sc.Valid() && start <= end
    {
      exists s: nat, log: Log ::
        && start <= s < end && s < file.numStripes
        && Pos(s, sc.code.n) + sc.code.n <= |file.chunks| == |file.containers| == |alive|
        && firstId <= log.first && log.Next() <= firstId + Pos(end - start, sc.code.n)
        && Unreadable(sc, file, s, log)
    }
  }

  /** A range of stripes is blocked if a part of it is. */
  lemma BlockedWidens(reader: Reader, sc: StorageClass, file: FileMeta, start: nat, end: nat, start': nat, end': nat)
    requires sc.Valid() && start' <= start <= end <= end' && reader.Blocked(sc, file, start, end)
    ensures reader.Blocked(sc, file, start', end')
  {
    hide Reader.Unreadable, Pos, StorageClass.Valid;
    PosOrder(end - start, end' - start', sc.code.n);
  }

  /** The metadata describes the chunks of the stripe, and the agents answer with the chunk asked for. */
  lemma ListedIsDescribed(store: Store, sc: StorageClass, version: nat, data: seq<Byte>, s: nat, metas: seq<ChunkMeta>,
                          containers: seq<int>, reader: Reader, file: FileMeta)
    requires sc.Valid() && StripeListed(sc, version, data, s, metas, containers) && reader.Valid(store, sc, file)
    ensures reader.AccessTo(sc, metas, containers).Valid() && Echoes(reader.AccessTo(sc, metas, containers))
    ensures Describes(metas, sc.code, data, Pos(s, sc.code.n))
  {
    hide Encode, ChunkSize, Pos, Placed;
    var a, n := reader.AccessTo(sc, metas, containers), sc.code.n;
    PosIsMultiple(s, n);
    forall id: nat, i: nat | i < n && a.Accepts(i, a.network(a.RequestFor(id, i)))
      ensures a.network(a.RequestFor(id, i)).reply.chunkId == a.chunks[i].id
    {
      var r := a.RequestFor(id, i);
      assert r.Request? && KeyOf(r.container, r.chunk) in store;
    }
  }

  /** The chunks of a stored stripe are answered as they were encoded. */
  lemma StoredIsFaithful(store: Store, sc: StorageClass, version: nat, data: seq<Byte>, s: nat, metas: seq<ChunkMeta>,
                         containers: seq<int>, reader: Reader, file: FileMeta)
    requires sc.Valid() && StripeStored(store, sc, version, data, s, metas, containers) && reader.Valid(store, sc, file)
    ensures reader.AccessTo(sc, metas, containers).Valid()
    ensures Faithful(reader.AccessTo(sc, metas, containers), sc.code, data)
  {
    hide Encode, ChunkSize, Pos, Placed;
    var a, n := reader.AccessTo(sc, metas, containers), sc.code.n;
    forall id: nat, i: nat | i < n && a.Accepts(i, a.network(a.RequestFor(id, i)))
      ensures a.network(a.RequestFor(id, i)).reply.data == Encode(sc.code, data)[i]
    {
      var r := a.RequestFor(id, i);
      assert r.Request? && KeyOf(r.container, r.chunk) in store;
      assert Has(store, Key(containers[i], version, Pos(s, n) + i), Encode(sc.code, data)[i]);
    }
  }

  lemma PosIsMultiple(s: nat, n: nat)
    requires n > 0
    ensures Pos(s, n) % n == 0
  {
    ModUnique(Pos(s, n), s, 0, n);
  }

  /**
   Reads stripe s of a file, with requests numbered from firstId on. If it is stored the result starts with its bytes.
   */
  method ReadPart(sc: StorageClass, file: FileMeta, s: nat, reader: Reader, firstId: nat, ghost store: Store,
                  ghost content: seq<Byte>)
    returns (result: Option<seq<Byte>>, nextId: nat, ghost log: Log)
    requires FileListed(sc, file, content) && reader.Valid(store, sc, file) && s < file.numStripes
    ensures PartFound(sc, file, content, s) && log.first == firstId && nextId == log.Next() <= firstId + sc.code.n
    ensures result.Some? ==> |Part(content, sc.StripeSize(), s)| <= |result.value|
    ensures result.Some? && PartStored(store, sc, file, content, s) ==>
              Part(content, sc.StripeSize(), s) <= result.value
    ensures result.None? ==> reader.Unreadable(sc, file, s, log)
  {
    hide Faithful, Echoes, Describes, Encode, Padded, Pos, Part, StripeListed, StripeStored, SoundInverter,
      InversionFails, Reliable, Sound, Serves, Stripes, ChunkSize;
    var n := sc.code.n;
    assert PartListed(sc, file, content, s);
    var a := reader.AccessTo(sc, Group(file.chunks, n, s), Group(file.containers, n, s));
    ghost var data := Part(content, sc.StripeSize(), s);
    ListedIsDescribed(store, sc, file.version, data, s, a.chunks, a.containers, reader, file);
    if PartStored(store, sc, file, content, s) {
      StoredIsFaithful(store, sc, file.version, data, s, a.chunks, a.containers, reader, file);
    }
    ChunkSizeCovers(sc.code.k, |data|);
    result, nextId, log := ReadStripe(sc.code, a, Group(reader.alive, n, s), reader.invert, firstId, data, Pos(s, n));
  }

  /** A stripe of the range that cannot be read blocks it. */
  lemma PartBlocks(reader: Reader, sc: StorageClass, file: FileMeta, s: nat, start: nat, end: nat, log: Log)
    requires sc.Valid() && Pos(s, sc.code.n) + sc.code.n <= |file.chunks| == |file.containers| == |reader.alive|
    requires start <= s < end && s < file.numStripes
    requires reader.firstId <= log.first <= reader.firstId + Pos(s - start, sc.code.n)
    requires log.Next() <= log.first + sc.code.n && reader.Unreadable(sc, file, s, log)
    ensures reader.Blocked(sc, file, start, end)
  {
    hide Reader.Unreadable, Pos, StorageClass.Valid;
    PosNext(s - start, sc.code.n);
    PosOrder(s - start + 1, end - start, sc.code.n);
  }

  /** The buffer holds bytes [offset, offset + count) of the content. */
  ghost predicate Filled(buffer: seq<Byte>, content: seq<Byte>, offset: nat, count: nat) {
    offset + count <= |content| && count <= |buffer| && buffer[..count] == content[offset..offset + count]
  }

  /** The range is of whole stripes. */
  predicate Aligned(offset: nat, length: nat, a: nat)
    requires a > 0
  {
    offset % a == 0 && length % a == 0
  }

  /** The stripes a read covers. */
  function EndStripe(size: nat, a: nat, offset: nat, length: nat, isPartial: bool): nat
    requires a > 0
  {
    if isPartial && offset + length <= size then (offset + length) / a else Stripes(size, a)
  }

  /** The end of the range read. */
  function EndOf(size: nat, offset: nat, length: nat): nat {
    if offset + length <= size then offset + length else size
  }

  /** The offset after stripe i, within the file. */
  function After(size: nat, a: nat, i: nat): nat {
    if Pos(i, a) < size then Pos(i, a) else size
  }

  lemma NoStripes(size: nat, a: nat)
    requires a > 0
    ensures Stripes(size, a) == 0 <==> size == 0
  {
    StripesCover(size, a);
    PosNext(0, a);
  }

  lemma RangeOfStripes(size: nat, a: nat, offset: nat, length: nat, isPartial: bool)
    requires a > 0 && offset < size && (isPartial ==> Aligned(offset, length, a))
    requires (!isPartial ==> offset == 0 && size <= length)
    ensures var end := EndStripe(size, a, offset, length, isPartial);
            && Pos(StripeAt(offset, a), a) == offset && StripeAt(offset, a) <= end <= Stripes(size, a)
            && (offset == 0 ==> StripeAt(offset, a) == 0)
            && After(size, a, end) == EndOf(size, offset, length)
  {
    StripesCover(size, a);
    StripesCover(offset, a);
    StripesCover(offset + length, a);
    if offset % a == 0 && length % a == 0 {
      ModAdds(offset, length, a);
    }
    var end := EndStripe(size, a, offset, length, isPartial);
    assert Pos(offset / a, a) <= Pos(end, a);
    PosReflects(offset / a, end, a);
  }

  lemma PartExtends(buffer: seq<Byte>, after: seq<Byte>, content: seq<Byte>, a: nat, offset: nat, i: nat)
    requires a > 0 && i < Stripes(|content|, a) && offset <= Pos(i, a) < |content|
    requires Filled(buffer, content, offset, Pos(i, a) - offset)
    requires var at := Pos(i, a) - offset;
             && at + |Part(content, a, i)| <= |buffer|
             && after == buffer[..at] + Part(content, a, i) + buffer[at + |Part(content, a, i)|..]
    ensures Filled(after, content, offset, After(|content|, a, i + 1) - offset) && |after| == |buffer|
  {
    hide Stripes;
    PosNext(i, a);
    var at, count := Pos(i, a) - offset, |Part(content, a, i)|;
    hide Pos;
    assert After(|content|, a, i + 1) == Pos(i, a) + count;
    assert after[..at + count] == content[offset..Pos(i, a)] + content[Pos(i, a)..Pos(i, a) + count];
  }

  lemma PartFits(size: nat, a: nat, i: nat, end: nat)
    requires a > 0 && i < end <= Stripes(size, a)
    ensures Pos(i, a) < size && Pos(i, a) + ReadLength(size, a, i) == After(size, a, i + 1) <= After(size, a, end)
    ensures ReadLength(size, a, i) == WriteLength(size, a, i) && After(size, a, i) == Pos(i, a)
  {
    StripesCover(size, a);
    LengthsAgree(size, a, i);
    PosNext(i, a);
    if i + 1 < end {
      PosSteps(i + 1, end, a);
    }
  }

  /** Reads stripes one by one into the buffer. */
  method ReadParts(sc: StorageClass, file: FileMeta, a: nat, start: nat, end: nat, offset: nat, buffer: array<Byte>,
                   reader: Reader, ghost store: Store, ghost content: seq<Byte>)
    returns (ok: bool, bytesRead: nat)
    requires FileListed(sc, file, content) && reader.Valid(store, sc, file) && a == sc.StripeSize() > 0
    requires start <= end <= Stripes(file.size, a) && Pos(start, a) == offset < file.size
    requires After(file.size, a, end) - offset <= buffer.Length
    modifies buffer
    ensures ok ==> bytesRead == After(file.size, a, end) - offset <= buffer.Length
    ensures ok && RangeStored(store, sc, file, content, start, end) ==> Filled(buffer[..], content, offset, bytesRead)
    ensures !ok ==> reader.Blocked(sc, file, start, end)
  {
    hide FileListed, PartStored, Reader.Valid, Reader.Blocked, Reader.Unreadable, Stripes, Pos, Filled, After,
      WriteLength, ReadLength, Part, StorageClass.StripeSize, StorageClass.Valid;
    SizesOf(sc, file, content);
    NothingFilled(buffer[..], content, offset);
    bytesRead := 0;
    StartsAt(file.size, a, start);
    PosNext(0, sc.code.n);
    var nextId := reader.firstId;
    for i := start to end
      invariant reader.firstId <= nextId <= reader.firstId + Pos(i - start, sc.code.n)
      invariant bytesRead == After(file.size, a, i) - offset
      invariant RangeStored(store, sc, file, content, start, i) ==> Filled(buffer[..], content, offset, bytesRead)
    {
      PartFits(file.size, a, i, end);
      PosNext(i - start, sc.code.n);
      var part;
      ghost var log;
      part, nextId, log := ReadPart(sc, file, i, reader, nextId, store, content);
      FoundPart(reader, store, sc, file, content, i);
      if part.None? {
        PartBlocks(reader, sc, file, i, start, end, log);
        return false, bytesRead;
      }
      var count := ReadLength(file.size, a, i);
      ghost var before := buffer[..];
      CopyRange(buffer, Pos(i, a) - offset, part.value[..count]);
      if RangeStored(store, sc, file, content, start, i + 1) {
        assert part.value[..count] == Part(content, a, i);
        PartExtends(before, buffer[..], content, a, offset, i);
      }
      bytesRead := bytesRead + count;
    }
    ok := true;
  }

  lemma StartsAt(size: nat, a: nat, start: nat)
    requires Pos(start, a) < size
    ensures After(size, a, start) == Pos(start, a)
  {
  }

  /**
   Reads a range of the file into the buffer; a partial read is of whole stripes. What is read is the
   content of the file, as far as it goes.
   */
  method ReadFile(sc: StorageClass, file: FileMeta, offset: nat, length: nat, isPartial: bool, buffer: array<Byte>,
                  reader: Reader, callerSize: nat, ghost store: Store, ghost content: seq<Byte>)
    returns (ok: bool, size: nat)
    requires FileListed(sc, file, content) && reader.Valid(store, sc, file)
    requires buffer.Length == length > 0 && (!isPartial ==> offset == 0 && file.size <= length)
    modifies buffer
    ensures |content| == 0 ==> ok && size == callerSize
    ensures ok && |content| > 0 ==> offset < |content| && size == EndOf(|content|, offset, length) - offset
    ensures ok && |content| > 0 ==> size == if offset + length <= |content| then length else |content| - offset
    // a partial read of other than whole stripes is refused
    ensures isPartial && |content| > 0 && (offset % sc.StripeSize() != 0 || length % sc.StripeSize() != 0) ==> !ok
    ensures ok && |content| > 0
            && RangeStored(store, sc, file, content, StripeAt(offset, sc.StripeSize()),
                           EndStripe(|content|, sc.StripeSize(), offset, length, isPartial))
            ==> Filled(buffer[..], content, offset, size)
    ensures !ok ==>
              || (isPartial && (offset % sc.StripeSize() != 0 || length % sc.StripeSize() != 0))
              || |content| <= offset
              || (var start := StripeAt(offset, sc.StripeSize());
                  var end := EndStripe(|content|, sc.StripeSize(), offset, length, isPartial);
                  start <= end && reader.Blocked(sc, file, start, end))
  {
    hide FileListed, RangeStored, Reader.Valid, Reader.Blocked, Stripes, StripeAt, EndStripe, Pos, Filled,
      StorageClass.StripeSize, StorageClass.Valid, After;
    size := callerSize;
    SizesOf(sc, file, content);
    NoStripes(file.size, sc.StripeSize());
    if file.size == 0 || file.numStripes == 0 {
      return true, size;
    }
    var a := FullStripe(sc);
    if isPartial && !Aligned(offset, length, a) {
      return false, size;
    }
    // no block of the file starts in the range
    if file.size <= offset {
      return false, size;
    }
    var start := if isPartial then StripeAt(offset, a) else 0;
    var end := EndStripe(file.size, a, offset, length, isPartial);
    RangeOfStripes(file.size, a, offset, length, isPartial);
    var bytesRead;
    ok, bytesRead := ReadParts(sc, file, a, start, end, offset, buffer, reader, store, content);
    if ok {
      size := if isPartial then bytesRead else file.size;
    }
  }

  lemma SizesOf(sc: StorageClass, file: FileMeta, content: seq<Byte>)
    requires FileListed(sc, file, content)
    ensures sc.Valid() && file.size == |content| && sc.StripeSize() > 0
    ensures file.numStripes == Stripes(file.size, sc.StripeSize())
  {
  }

  lemma FoundPart(reader: Reader, store: Store, sc: StorageClass, file: FileMeta, content: seq<Byte>, s: nat)
    requires sc.Valid() && PartFound(sc, file, content, s) && reader.Valid(store, sc, file)
    ensures Pos(s, sc.code.n) + sc.code.n <= |file.chunks| == |file.containers| == |reader.alive|
  {
  }

  lemma NothingFilled(buffer: seq<Byte>, content: seq<Byte>, offset: nat)
    requires offset <= |content|
    ensures Filled(buffer, content, offset, 0)
  {
  }
}
