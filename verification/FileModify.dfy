/**
 Writing, overwriting and appending to a file, src/proxy/proxy_file_ops.cc: a file behaves as a
 sequence of bytes, whatever the alignment of the ranges written.
 */
module FileModify {
  import opened Gf256
  import opened Blocks
  import opened Sequences
  import opened ReedSolomon
  import opened ChunkAccess
  import opened Striping
  import opened StripeWrite
  import opened FileRead
  import opened FileWrite

  /** The content with the bytes from `offset` on replaced, and longer if they reach past its end. */
  function Splice(content: seq<Byte>, offset: nat, bytes: seq<Byte>): (r: seq<Byte>)
    requires offset <= |content|
    ensures |r| == if offset + |bytes| < |content| then |content| else offset + |bytes|
  {
    content[..offset] + bytes + if offset + |bytes| < |content| then content[offset + |bytes|..] else []
  }

  /** A file is what its stripes are. */
  lemma StoredFromParts(acked: set<PutRequest>, store: Store, sc: StorageClass, file: FileMeta, content: seq<Byte>)
    requires Shaped(file, sc) && file.size == |content|
    requires forall s: nat :: s < file.numStripes ==>
               Done(acked, store, sc, file.version, content, s, file.chunks, file.containers)
    ensures FileStored(store, sc, file, content) && FileConfirmed(acked, sc, file, content)
  {
    hide StripeStored, StripeConfirmed, Group, Part, Pos, Stripes;
    forall s: nat | s < file.numStripes
      ensures PartStored(store, sc, file, content, s) && PartConfirmed(acked, sc, file, content, s)
    {
      assert Done(acked, store, sc, file.version, content, s, file.chunks, file.containers);
    }
  }

  /** A file on record has at least k containers for every stripe. */
  lemma ListedIsDurable(sc: StorageClass, file: FileMeta, content: seq<Byte>)
    requires FileListed(sc, file, content)
    ensures Durable(file, sc.code.n, sc.code.k)
  {
    hide Encode, Metas, Placed, Part, Pos, Stripes;
    forall s: nat | s < file.numStripes
      ensures Pos(s, sc.code.n) + sc.code.n <= |file.containers|
      ensures Placed(Group(file.containers, sc.code.n, s)) >= sc.code.k
    {
      assert PartListed(sc, file, content, s);
    }
  }

  /** Writes a whole file as this version. */
  method WriteFile(agents: Agents, sc: StorageClass, version: nat, data: seq<Byte>, pick: nat -> seq<int>)
    returns (ok: bool, file: FileMeta)
    requires agents.Valid() && sc.Valid() && sc.md5 == agents.md5 && Picks(pick, sc.code.n)
    modifies agents
    ensures agents.Valid() && old(agents.acked) <= agents.acked && file.version == version
    ensures ok ==> FileStored(agents.store, sc, file, data) && FileConfirmed(agents.acked, sc, file, data)
    ensures sc.StripeSize() > 0
    ensures SameOutside(old(agents.store), agents.store, version, 0, Pos(Stripes(|data|, sc.StripeSize()), sc.code.n))
    ensures data == [] || Willing(agents, pick, sc.code.k) ==> ok
  {
    hide FileStored, FileConfirmed, Progress, Done, Stripes, Pos, Picks, Willing, Honest, StorageClass.StripeSize,
      SameOutside, Failure;
    file := FileMeta(version, 0, 0, [], []);
    SizeIsPositive(sc);
    if |data| == 0 {
      EmptyIsStored(agents.acked, agents.store, sc, version);
      SameAsItself(agents.store, version, 0, Pos(Stripes(0, sc.StripeSize()), sc.code.n));
      return true, file;
    }
    WholeRange(data, sc.StripeSize());
    PosNext(0, sc.code.n);
    SpanEnds(0, Stripes(|data|, sc.StripeSize()), sc.code.n);
    var numStripes, chunks, containers;
    ok, numStripes, chunks, containers := WriteFileStripes(agents, sc, file, |data|, 0, |data|, data, pick, data);
    file := FileMeta(version, |data|, numStripes, chunks[..], containers[..]);
    if ok {
      AllDone(agents.acked, agents.store, sc, FileMeta(version, 0, 0, [], []), file, data);
    }
  }

  lemma EmptyIsStored(acked: set<PutRequest>, store: Store, sc: StorageClass, version: nat)
    requires sc.Valid() && sc.StripeSize() > 0
    ensures var file := FileMeta(version, 0, 0, [], []);
            FileStored(store, sc, file, []) && FileConfirmed(acked, sc, file, [])
  {
    StripesCover(0, sc.StripeSize());
    PosNext(0, sc.StripeSize());
    PosNext(0, sc.code.n);
  }

  /**
   Writes a whole file in place of the one on record, as its next version, and then removes the old data if it is not
   to be kept. A failure leaves everything stored of the file on record.
   */
  method ReplaceFile(agents: Agents, sc: StorageClass, file: FileMeta, data: seq<Byte>, pick: nat -> seq<int>,
                     keepOld: bool, ghost content: seq<Byte>)
    returns (ok: bool, file': FileMeta)
    requires agents.Valid() && sc.Valid() && sc.md5 == agents.md5 && Picks(pick, sc.code.n)
    requires FileConfirmed(agents.acked, sc, file, content)
    modifies agents
    ensures agents.Valid() && old(agents.acked) <= agents.acked
    ensures data == [] || Willing(agents, pick, sc.code.k) ==> ok
    ensures ok ==> FileStored(agents.store, sc, file', data) && FileConfirmed(agents.acked, sc, file', data)
    ensures ok ==> file'.version == file.version + 1
    ensures !ok ==> file' == file && FileConfirmed(agents.acked, sc, file, content)
    ensures !ok || keepOld ==>
              forall s: nat :: PartStored(old(agents.store), sc, file, content, s) ==>
                PartStored(agents.store, sc, file, content, s)
  {
    hide FileStored, FileConfirmed, PartStored, Picks, Willing, Honest, SameOutside, Stripes, Pos,
      StorageClass.StripeSize, StorageClass.Valid;
    ghost var before, acked := agents.store, agents.acked;
    ok, file' := WriteFile(agents, sc, file.version + 1, data, pick);
    VersionPersists(before, agents.store, sc, file, content, file.version + 1, 0,
                    Pos(Stripes(|data|, sc.StripeSize()), sc.code.n));
    if !ok {
      file' := file;
      FileStaysConfirmed(acked, agents.acked, sc, file, content);
    } else if !keepOld {
      ghost var written := agents.store;
      Discard(agents, file.version, 0, |file.chunks|);
      FileStaysStored(written, agents.store, sc, file', data, file.version, 0, |file.chunks|);
    }
  }

  /** Chunks of another version are of no concern to a stripe. */
  lemma VersionPersists(before: Store, after: Store, sc: StorageClass, file: FileMeta, content: seq<Byte>, written: nat,
                        base: nat, count: nat)
    requires sc.Valid() && SameOutside(before, after, written, base, count) && written != file.version
    ensures forall s: nat :: PartStored(before, sc, file, content, s) ==> PartStored(after, sc, file, content, s)
  {
    hide StripeStored, SameOutside, Group, Part, Pos, StorageClass.StripeSize, StorageClass.Valid;
    forall s: nat | PartStored(before, sc, file, content, s)
      ensures PartStored(after, sc, file, content, s)
    {
      StripeUntouched(before, after, sc, file.version, Part(content, sc.StripeSize(), s), s,
                      Group(file.chunks, sc.code.n, s), Group(file.containers, sc.code.n, s), written, base, count);
    }
  }

  lemma FileStaysStored(before: Store, after: Store, sc: StorageClass, file: FileMeta, content: seq<Byte>, written: nat,
                        base: nat, count: nat)
    requires FileStored(before, sc, file, content)
    requires SameOutside(before, after, written, base, count) && written != file.version
    ensures FileStored(after, sc, file, content)
  {
    hide PartStored, SameOutside, Pos, Stripes;
    VersionPersists(before, after, sc, file, content, written, base, count);
  }

  lemma WholeRange(data: seq<Byte>, a: nat)
    requires a > 0
    ensures Range(data, 0, |data|, data, a) && 0 / a == 0
  {
    ModUnique(0, 0, 0, a);
  }

  lemma AllDone(acked: set<PutRequest>, store: Store, sc: StorageClass, previous: FileMeta, file: FileMeta,
                content: seq<Byte>)
    requires Shaped(file, sc) && file.size == |content| && file.version == previous.version
    requires Progress(acked, store, sc, previous, content, 0, file.numStripes, file.chunks, file.containers)
    ensures FileStored(store, sc, file, content) && FileConfirmed(acked, sc, file, content)
  {
    hide Done, Stripes, Pos, Group, FileStored, FileConfirmed;
    StoredFromParts(acked, store, sc, file, content);
  }

  /** Where the unaligned overwrite reads from, and how much. */
  function ReadOffset(offset: nat, a: nat): nat
    requires a > 0
  {
    offset / a * a
  }

  function ReadLengthFor(offset: nat, length: nat, a: nat, r: nat): nat
    requires a > 0 && r > 0 && ReadOffset(offset, a) <= offset
  {
    (offset - ReadOffset(offset, a) + length + r - 1) / r * r
  }

  /** The end of the range that is rewritten. */
  function RewriteEnd(size: nat, offset: nat, length: nat, readEnd: nat): nat {
    var oldEnd := if readEnd < size then readEnd else size;
    if offset + length > oldEnd then offset + length else oldEnd
  }

  lemma ReadOffsetBelow(offset: nat, a: nat)
    requires a > 0
    ensures ReadOffset(offset, a) == Pos(offset / a, a) <= offset < ReadOffset(offset, a) + a
    ensures ReadOffset(offset, a) % a == 0
    ensures ReadOffset(offset, a) / a == offset / a
  {
    StripesCover(offset, a);
    ModUnique(Pos(offset / a, a), offset / a, 0, a);
  }

  lemma RoundUp(x: nat, r: nat)
    requires r > 0
    ensures var y := (x + r - 1) / r * r; x <= y < x + r && y % r == 0
  {
    CeilIsStripes(x, r);
    StripesCover(x, r);
    PosIsMultiple(Stripes(x, r), r);
  }

  /** Rounding up the range from the start of its stripe is rounding up its end. */
  lemma ReadEnd(offset: nat, length: nat, a: nat)
    requires a > 0
    ensures var roff := ReadOffset(offset, a);
            roff <= offset && roff + ReadLengthFor(offset, length, a, a) == Pos(Stripes(offset + length, a), a)
  {
    hide Stripes, Pos;
    ReadOffsetBelow(offset, a);
    var roff := ReadOffset(offset, a);
    RoundUp(offset - roff + length, a);
    StripesCover(offset + length, a);
    PosIsMultiple(Stripes(offset + length, a), a);
    var x, y := roff + ReadLengthFor(offset, length, a, a), Pos(Stripes(offset + length, a), a);
    ModAdds(roff, ReadLengthFor(offset, length, a, a), a);
    if x < y {
      MultiplesApart(x, y, a);
    } else if y < x {
      MultiplesApart(y, x, a);
    }
  }

  /** The range rewritten ends at a stripe or at the end of the file, and meets no stripe after those modified. */
  lemma RewriteIsWhole(size: nat, offset: nat, length: nat, a: nat, r: nat)
    requires a > 0 && r > 0 && offset <= size && 0 < size && (size >= a ==> r == a) && (size < a ==> size <= r)
    requires offset % a != 0 || length % a != 0
    ensures ReadOffset(offset, a) <= offset
    ensures var end := RewriteEnd(size, offset, length, ReadOffset(offset, a) + ReadLengthFor(offset, length, a, r));
            && offset + length <= end
            && (end == (if offset + length < size then size else offset + length) || end % a == 0)
            && (Stripes(offset + length, a) < Stripes(size, a) ==> Stripes(end, a) <= Stripes(offset + length, a))
    ensures 0 < offset - ReadOffset(offset, a) + length <= ReadLengthFor(offset, length, a, r)
  {
    hide Stripes, Pos;
    ReadOffsetBelow(offset, a);
    var roff := ReadOffset(offset, a);
    RoundUp(offset - roff + length, r);
    var rlen := ReadLengthFor(offset, length, a, r);
    var end := RewriteEnd(size, offset, length, roff + rlen);
    SomethingToRead(offset, length, a);
    if size >= a {
      ReadEnd(offset, length, a);
      PosIsMultiple(Stripes(offset + length, a), a);
    } else {
      MultiplesApart0(roff, a, size);
      AtLeastOne(rlen, r);
    }
    if Stripes(offset + length, a) < Stripes(size, a) {
      LaterStripe(size, offset, length, a, end, if size >= a then roff + rlen else size);
    }
  }

  lemma SomethingToRead(offset: nat, length: nat, a: nat)
    requires a > 0 && (offset % a != 0 || length % a != 0)
    ensures 0 < offset - ReadOffset(offset, a) + length
  {
    ReadOffsetBelow(offset, a);
    if length == 0 {
      ModUnique(0, 0, 0, a);
    }
  }

  lemma MultiplesApart0(x: nat, a: nat, size: nat)
    requires a > 0 && x % a == 0 && x <= size < a
    ensures x == 0
  {
    if x > 0 {
      ModUnique(0, 0, 0, a);
      MultiplesApart(0, x, a);
    }
  }

  lemma AtLeastOne(x: nat, r: nat)
    requires r > 0 && x % r == 0 && x > 0
    ensures x >= r
  {
    ModUnique(0, 0, 0, r);
    MultiplesApart(0, x, r);
  }

  lemma LaterStripe(size: nat, offset: nat, length: nat, a: nat, end: nat, readEnd: nat)
    requires a > 0 && Stripes(offset + length, a) < Stripes(size, a) && end == RewriteEnd(size, offset, length, readEnd)
    requires readEnd == Pos(Stripes(offset + length, a), a) || (size < a && readEnd == size && 0 < offset + length)
    ensures Stripes(end, a) <= Stripes(offset + length, a)
  {
    hide Stripes, Pos;
    StripesCover(offset + length, a);
    StripesCover(size, a);
    StripesCover(end, a);
    if size < a {
      PosNext(0, a);
      var s := Stripes(offset + length, a);
      if 0 < s {
        PosSteps(0, s, a);
      }
    }
  }

  /** The size of the first chunk tells the size of the data it was encoded from, rounded up to k. */
  lemma FirstChunk(sc: StorageClass, file: FileMeta, content: seq<Byte>)
    requires FileListed(sc, file, content) && file.size > 0
    ensures |file.chunks| > 0
    ensures var r := sc.code.k * file.chunks[0].size;
            && r > 0 && (file.size >= sc.StripeSize() ==> r == sc.StripeSize())
            && (file.size < sc.StripeSize() ==> file.size <= r)
  {
    hide Encode, Placed, Pos, Stripes, Part;
    var a, n, k := sc.StripeSize(), sc.code.n, sc.code.k;
    StripesCover(file.size, a);
    PosNext(0, n);
    PosNext(0, a);
    assert PartListed(sc, file, content, 0);
    assert file.chunks[0] == Group(file.chunks, n, 0)[0];
    var first := Part(content, a, 0);
    assert file.chunks[0].size == ChunkSize(k, |first|);
    if file.size >= a {
      FullChunks(k, sc.maxChunkSize);
    } else {
      ChunkSizeCovers(k, |first|);
    }
  }

  /** The bytes to write, and their place, put the data into the content; no other stripe is concerned. */
  ghost predicate Prepared(bytes: seq<Byte>, foffset: nat, flength: nat, content: seq<Byte>, offset: nat,
                           data: seq<Byte>, a: nat)
  {
    && offset <= |content| && Range(bytes, foffset, flength, Splice(content, offset, data), a)
    && foffset <= offset && offset + |data| <= foffset + flength && foffset / a == offset / a
    && (Stripes(offset + |data|, a) < Stripes(|content|, a) ==>
          Stripes(foffset + flength, a) <= Stripes(offset + |data|, a))
  }

  /** A range that needs no reading: it is aligned, or starts at the end of whole stripes. */
  lemma DirectIsPrepared(content: seq<Byte>, offset: nat, data: seq<Byte>, a: nat)
    requires a > 0 && offset <= |content| && offset % a == 0
    requires |data| % a == 0 || offset == |content|
    ensures Prepared(data, offset, |data|, content, offset, data, a)
  {
    hide Stripes;
    if |data| % a == 0 {
      ModAdds(offset, |data|, a);
    }
    var r := Splice(content, offset, data);
    assert data[..|data|] == r[offset..offset + |data|];
  }

  /** Old bytes read back and overwritten with the data are bytes of the new content. */
  lemma PatchIsSlice(content: seq<Byte>, offset: nat, data: seq<Byte>, roff: nat, rsize: nat, read: seq<Byte>,
                     patched: seq<Byte>, flength: nat)
    requires roff <= offset <= roff + rsize <= |content| && Filled(read, content, roff, rsize)
    requires offset - roff + |data| <= |read|
    requires patched == read[..offset - roff] + data + read[offset - roff + |data|..]
    requires flength == if offset + |data| > roff + rsize then offset - roff + |data| else rsize
    ensures roff + flength <= |Splice(content, offset, data)|
    ensures patched[..flength] == Splice(content, offset, data)[roff..roff + flength]
  {
    hide Splice, Filled;
    var at := offset - roff;
    var front := content[roff..offset] + data;
    SameSlices(read, content, roff, rsize, 0, at);
    assert patched == front + read[at + |data|..];
    SpliceFrom(content, offset, data, roff);
    var tail := if offset + |data| < |content| then content[offset + |data|..] else [];
    if offset + |data| <= roff + rsize {
      SameSlices(read, content, roff, rsize, at + |data|, rsize);
      assert patched[..rsize] == front + read[at + |data|..rsize];
      assert tail[..roff + rsize - offset - |data|] == content[offset + |data|..roff + rsize];
      assert Splice(content, offset, data)[roff..][..rsize] == front + tail[..roff + rsize - offset - |data|];
    } else {
      assert patched[..flength] == front;
      assert Splice(content, offset, data)[roff..][..flength] == front;
    }
    assert Splice(content, offset, data)[roff..roff + flength] == Splice(content, offset, data)[roff..][..flength];
  }

  lemma SameSlices(read: seq<Byte>, content: seq<Byte>, roff: nat, rsize: nat, from: nat, to: nat)
    requires Filled(read, content, roff, rsize) && from <= to <= rsize
    ensures rsize <= |read| && roff + rsize <= |content|
    ensures read[from..to] == content[roff + from..roff + to]
  {
    SliceOfSlice(read, 0, rsize, from, to);
    SliceOfSlice(content, roff, roff + rsize, from, to);
  }

  lemma SpliceFrom(content: seq<Byte>, offset: nat, data: seq<Byte>, roff: nat)
    requires roff <= offset <= |content|
    ensures Splice(content, offset, data)[roff..] ==
              content[roff..offset] + data + if offset + |data| < |content| then content[offset + |data|..] else []
  {
  }

  /** The patched buffer is what has to be written. */
  lemma PatchPrepares(content: seq<Byte>, offset: nat, data: seq<Byte>, a: nat, r: nat, read: seq<Byte>,
                      patched: seq<Byte>, flength: nat)
    requires a > 0 && r > 0 && offset <= |content| && 0 < |content| && (|content| >= a ==> r == a)
    requires (|content| < a ==> |content| <= r)
    requires offset % a != 0 || |data| % a != 0
    requires ReadOffset(offset, a) <= offset && ReadOffset(offset, a) < |content|
    requires |read| == ReadLengthFor(offset, |data|, a, r)
    requires var roff := ReadOffset(offset, a); var rsize := EndOf(|content|, roff, |read|) - roff;
             && Filled(read, content, roff, rsize) && offset - roff + |data| <= |read|
             && patched == read[..offset - roff] + data + read[offset - roff + |data|..]
             && flength == if offset + |data| > roff + rsize then offset - roff + |data| else rsize
    ensures Prepared(patched, ReadOffset(offset, a), flength, content, offset, data, a)
  {
    hide Filled, Stripes, Splice;
    ReadOffsetBelow(offset, a);
    RewriteIsWhole(|content|, offset, |data|, a, r);
    hide ReadOffset, ReadLengthFor;
    var roff := ReadOffset(offset, a);
    PatchIsSlice(content, offset, data, roff, EndOf(|content|, roff, |read|) - roff, read, patched, flength);
  }

  /** The offset is the end of a file of whole stripes. */
  predicate AtEnd(offset: nat, size: nat, a: nat)
    requires a > 0
  {
    offset == size && size % a == 0
  }

  lemma AtEndMeans(offset: nat, size: nat, a: nat)
    requires a > 0 && offset <= size
    ensures AtEnd(offset, size, a) <==> size <= ReadOffset(offset, a)
  {
    ReadOffsetBelow(offset, a);
    StripesCover(size, a);
  }

  /** The range read back is of whole stripes, unless it is the whole of a file smaller than a stripe. */
  lemma ReadIsAligned(size: nat, offset: nat, length: nat, a: nat, r: nat)
    requires a > 0 && r > 0 && offset <= size && 0 < size && (size >= a ==> r == a) && (size < a ==> size <= r)
    requires offset % a != 0 || length % a != 0
    ensures ReadOffset(offset, a) <= offset
    ensures var roff, rlen := ReadOffset(offset, a), ReadLengthFor(offset, length, a, r);
            Aligned(roff, rlen, a) || (roff == 0 && size <= rlen)
  {
    ReadOffsetBelow(offset, a);
    var roff := ReadOffset(offset, a);
    RoundUp(offset - roff + length, r);
    SomethingToRead(offset, length, a);
    hide ReadOffset, ReadLengthFor;
    if size < a {
      MultiplesApart0(roff, a, size);
      AtLeastOne(ReadLengthFor(offset, length, a, r), r);
    }
  }

  lemma StripeOrder(offset: nat, length: nat, a: nat)
    requires a > 0
    ensures StripeAt(offset, a) <= Stripes(offset + length, a)
  {
    hide Stripes, Pos;
    StripesCover(offset, a);
    StripesCover(offset + length, a);
    PosReflects(StripeAt(offset, a), Stripes(offset + length, a), a);
  }

  /** The stripes read back are among those the range modified reaches. */
  lemma ReadIsWithin(size: nat, offset: nat, length: nat, a: nat, r: nat)
    requires a > 0 && r > 0 && offset <= size && 0 < size && (size >= a ==> r == a) && (size < a ==> size <= r)
    requires offset % a != 0 || length % a != 0
    ensures ReadOffset(offset, a) <= offset
    ensures var roff, rlen := ReadOffset(offset, a), ReadLengthFor(offset, length, a, r);
            && StripeAt(roff, a) == StripeAt(offset, a) <= Stripes(offset + length, a)
            && EndStripe(size, a, roff, rlen, roff != 0 || roff + rlen < size) <= Stripes(offset + length, a)
            && EndOf(size, roff, rlen) <= Pos(Stripes(offset + length, a), a)
  {
    ReadOffsetBelow(offset, a);
    StripeOrder(offset, length, a);
    hide Stripes, Pos, ReadOffset, ReadLengthFor, EndStripe;
    var roff, rlen, last := ReadOffset(offset, a), ReadLengthFor(offset, length, a, r), Stripes(offset + length, a);
    if size >= a {
      ReadEnd(offset, length, a);
      EndIsWithin(size, a, roff, rlen, last);
    } else {
      RoundUp(offset - roff + length, r);
      ReadIsAligned(size, offset, length, a, r);
      SomethingToRead(offset, length, a);
      MultiplesApart0(roff, a, size);
      ReadIsSmall(size, offset, length, a, r);
    }
  }

  lemma EndIsWithin(size: nat, a: nat, offset: nat, length: nat, last: nat)
    requires a > 0 && offset + length == Pos(last, a)
    ensures EndStripe(size, a, offset, length, offset != 0 || offset + length < size) <= last
  {
    ModUnique(Pos(last, a), last, 0, a);
    hide Stripes, Pos;
    NoMoreStripes(size, last, a);
  }

  lemma ReadIsSmall(size: nat, offset: nat, length: nat, a: nat, r: nat)
    requires 0 < size < a && r >= size && offset <= size && 0 < offset + length && ReadOffset(offset, a) == 0
    ensures var rlen := ReadLengthFor(offset, length, a, r);
            && EndStripe(size, a, 0, rlen, rlen < size) <= Stripes(offset + length, a)
            && EndOf(size, 0, rlen) <= Pos(Stripes(offset + length, a), a)
  {
    hide Stripes, Pos, ReadOffset;
    var last := Stripes(offset + length, a);
    RoundUp(offset + length, r);
    AtLeastOne(ReadLengthFor(offset, length, a, r), r);
    OneStripe(size, offset + length, a);
    PosOrder(1, last, a);
  }

  lemma NoMoreStripes(size: nat, last: nat, a: nat)
    requires a > 0
    ensures size <= Pos(last, a) ==> Stripes(size, a) <= last
  {
    hide Stripes;
    StripesCover(size, a);
  }

  lemma OneStripe(size: nat, other: nat, a: nat)
    requires 0 < size < a && 0 < other
    ensures Stripes(size, a) <= 1 <= Stripes(other, a) && Pos(1, a) == a
  {
    PosNext(0, a);
    StripesCover(other, a);
    NoMoreStripes(size, 1, a);
  }

  /** Both have the same bytes outside the stripes start..end-1. */
  ghost predicate SameParts(content: seq<Byte>, content': seq<Byte>, a: nat, start: nat, end: nat) {
    && |content| == |content'|
    && forall s: nat :: (s < start || end <= s) && Pos(s, a) <= |content| ==>
         Part(content', a, s) == Part(content, a, s)
  }

  lemma SameWithItself(content: seq<Byte>, a: nat, start: nat, end: nat)
    ensures SameParts(content, content, a, start, end)
  {
  }

  lemma RangeNarrows(store: Store, sc: StorageClass, file: FileMeta, content: seq<Byte>, start: nat, end: nat,
                     end': nat)
    requires sc.Valid() && end <= end'
    ensures RangeStored(store, sc, file, content, start, end') ==> RangeStored(store, sc, file, content, start, end)
  {
  }

  /** What the file contains to one who read the first `count` bytes of the buffer from it. */
  ghost function Seen(content: seq<Byte>, offset: nat, buffer: seq<Byte>, count: nat): (seen: seq<Byte>)
    requires offset + count <= |content| && count <= |buffer|
    ensures |seen| == |content| && Filled(buffer, seen, offset, count)
    ensures Filled(buffer, content, offset, count) ==> seen == content
  {
    var seen := content[..offset] + buffer[..count] + content[offset + count..];
    assert seen[offset..offset + count] == buffer[..count];
    seen
  }

  lemma SeenElsewhere(content: seq<Byte>, offset: nat, buffer: seq<Byte>, count: nat, a: nat, start: nat, end: nat)
    requires offset + count <= |content| && count <= |buffer| && Pos(start, a) <= offset
    requires offset + count <= Pos(end, a)
    ensures SameParts(content, Seen(content, offset, buffer, count), a, start, end)
  {
    hide Pos;
    var seen := Seen(content, offset, buffer, count);
    forall s: nat | (s < start || end <= s) && Pos(s, a) <= |content|
      ensures Part(seen, a, s) == Part(content, a, s)
    {
      if s < start {
        PosSteps(s, start, a);
        assert seen[Pos(s, a)..Pos(s, a) + a] == content[Pos(s, a)..Pos(s, a) + a];
      } else {
        PosOrder(end, s, a);
        assert seen[Pos(s, a)..] == content[Pos(s, a)..];
      }
    }
  }

  /**
   Reads the stripes an unaligned range lies in. If some of them are not stored as the metadata says,
   what is read may differ from the content there.
   */
  method ReadBack(sc: StorageClass, a: nat, file: FileMeta, offset: nat, length: nat, reader: Reader,
                  ghost store: Store, ghost content: seq<Byte>)
    returns (ok: bool, foffset: nat, buffer: array<Byte>, rsize: nat, r: nat, ghost seen: seq<Byte>)
    requires FileListed(sc, file, content) && reader.Valid(store, sc, file) && a == sc.StripeSize() > 0
    requires 0 < file.size && offset <= file.size && (offset % a != 0 || length % a != 0)
    ensures fresh(buffer) && foffset == ReadOffset(offset, a) <= offset
    ensures r > 0 && (file.size >= a ==> r == a) && (file.size < a ==> file.size <= r)
    ensures buffer.Length == ReadLengthFor(offset, length, a, r)
    ensures StripeAt(offset, a) <= Stripes(offset + length, a)
    ensures SameParts(content, seen, a, StripeAt(offset, a), Stripes(offset + length, a))
    ensures RangeStored(store, sc, file, content, StripeAt(offset, a), Stripes(offset + length, a)) ==> seen == content
    ensures ok ==> foffset < |content| && rsize == EndOf(|content|, foffset, buffer.Length) - foffset
    ensures ok ==> Filled(buffer[..], seen, foffset, rsize) && !AtEnd(offset, |content|, a)
    ensures !ok ==>
              AtEnd(offset, |content|, a) || reader.Blocked(sc, file, StripeAt(offset, a), Stripes(offset + length, a))
  {
    hide FileListed, RangeStored, Reader.Valid, Reader.Blocked, AtEnd, Filled, Stripes, EndStripe, Pos,
      StorageClass.StripeSize, ReadOffset, ReadLengthFor, SameParts, Seen;
    SizesOf(sc, file, content);
    FirstChunk(sc, file, content);
    ReadOffsetBelow(offset, a);
    r := StripeSize(sc.code.k, file.chunks[0].size);
    SomethingToRead(offset, length, a);
    RoundUp(offset - ReadOffset(offset, a) + length, r);
    ReadIsAligned(file.size, offset, length, a, r);
    ReadIsWithin(file.size, offset, length, a, r);
    AtEndMeans(offset, file.size, a);
    foffset := ReadOffset(offset, a);
    ReadsSomething(offset, length, a, r);
    buffer := new Byte[ReadLengthFor(offset, length, a, r)](_ => Zero);
    var isPartial := foffset != 0 || foffset + buffer.Length < file.size;
    ok, rsize := ReadFile(sc, file, foffset, buffer.Length, isPartial, buffer, reader, file.size, store, content);
    ghost var start, last := StripeAt(offset, a), Stripes(offset + length, a);
    ghost var end := EndStripe(file.size, a, foffset, buffer.Length, isPartial);
    seen := content;
    SameWithItself(content, a, start, last);
    if ok {
      RangeNarrows(store, sc, file, content, start, end, last);
      seen := Seen(content, foffset, buffer[..], rsize);
      SeenElsewhere(content, foffset, buffer[..], rsize, a, start, last);
    } else if !AtEnd(offset, |content|, a) {
      BlockedWidens(reader, sc, file, start, end, start, last);
    }
  }

  lemma ReadsSomething(offset: nat, length: nat, a: nat, r: nat)
    requires a > 0 && r > 0 && ReadOffset(offset, a) <= offset && 0 < offset - ReadOffset(offset, a) + length
    ensures offset - ReadOffset(offset, a) + length <= ReadLengthFor(offset, length, a, r)
  {
    hide ReadOffset;
    RoundUp(offset - ReadOffset(offset, a) + length, r);
  }

  /** Reads the stripes an unaligned range lies in, and puts the data over them. */
  method ReadAndPatch(sc: StorageClass, a: nat, file: FileMeta, offset: nat, data: seq<Byte>, reader: Reader,
                      ghost store: Store, ghost content: seq<Byte>)
    returns (ok: bool, foffset: nat, flength: nat, bytes: seq<Byte>, ghost seen: seq<Byte>)
    requires FileListed(sc, file, content) && reader.Valid(store, sc, file) && a == sc.StripeSize() > 0
    requires 0 < file.size && offset <= file.size && (offset % a != 0 || |data| % a != 0)
    ensures StripeAt(offset, a) <= Stripes(offset + |data|, a)
    ensures SameParts(content, seen, a, StripeAt(offset, a), Stripes(offset + |data|, a))
    ensures RangeStored(store, sc, file, content, StripeAt(offset, a), Stripes(offset + |data|, a)) ==> seen == content
    ensures ok ==> Prepared(bytes, foffset, flength, seen, offset, data, a)
    ensures ok ==> !AtEnd(offset, |content|, a)
    ensures !ok ==>
              AtEnd(offset, |content|, a) || reader.Blocked(sc, file, StripeAt(offset, a), Stripes(offset + |data|, a))
  {
    hide FileListed, RangeStored, Reader.Valid, Reader.Blocked, AtEnd, Filled, Stripes, StripeAt,
      StorageClass.StripeSize, ReadOffset, ReadLengthFor, Prepared, SameParts;
    SizesOf(sc, file, content);
    SomethingToRead(offset, |data|, a);
    var buffer, rsize, r;
    ok, foffset, buffer, rsize, r, seen := ReadBack(sc, a, file, offset, |data|, reader, store, content);
    flength, bytes := 0, [];
    if ok {
      SamePartsLength(content, seen, a, StripeAt(offset, a), Stripes(offset + |data|, a));
      ReadsSomething(offset, |data|, a, r);
      ghost var read := buffer[..];
      CopyRange(buffer, offset - foffset, data);
      bytes := buffer[..];
      flength := if offset + |data| > foffset + rsize then offset - foffset + |data| else rsize;
      PatchPrepares(seen, offset, data, a, r, read, bytes, flength);
    }
  }

  lemma FrontCopied<T>(before: seq<T>, after: seq<T>, source: seq<T>, n: nat, start: nat)
    requires Pos(start, n) <= |source| && Pos(start, n) <= |before|
    requires after == source[..Pos(start, n)] + before[Pos(start, n)..]
    ensures forall s: nat :: s < start ==>
              Pos(s, n) + n <= |source| && Pos(s, n) + n <= |after| && Group(after, n, s) == Group(source, n, s)
    ensures forall s: nat :: start <= s && Pos(s, n) + n <= |before| ==>
              Pos(s, n) + n <= |after| && Group(after, n, s) == Group(before, n, s)
  {
    hide Pos;
    forall s: nat | s < start
      ensures Pos(s, n) + n <= |source| && Pos(s, n) + n <= |after| && Group(after, n, s) == Group(source, n, s)
    {
      PosSteps(s, start, n);
    }
    forall s: nat | start <= s && Pos(s, n) + n <= |before|
      ensures Group(after, n, s) == Group(before, n, s)
    {
      if start < s {
        PosSteps(start, s, n);
      }
    }
  }

  lemma RearCopied<T>(before: seq<T>, after: seq<T>, source: seq<T>, n: nat, end: nat, count: nat)
    requires end <= count && Pos(end, n) <= Pos(count, n) <= |source| && Pos(count, n) <= |before|
    requires after == before[..Pos(end, n)] + source[Pos(end, n)..Pos(count, n)] + before[Pos(count, n)..]
    ensures forall s: nat :: s < end ==> Pos(s, n) + n <= |before| && Group(after, n, s) == Group(before, n, s)
    ensures forall s: nat :: end <= s < count ==>
              Pos(s, n) + n <= |source| && Pos(s, n) + n <= |after| && Group(after, n, s) == Group(source, n, s)
  {
    hide Pos;
    forall s: nat | s < end
      ensures Pos(s, n) + n <= |before| && Group(after, n, s) == Group(before, n, s)
    {
      PosSteps(s, end, n);
    }
    forall s: nat | end <= s < count
      ensures Pos(s, n) + n <= |source| && Pos(s, n) + n <= |after| && Group(after, n, s) == Group(source, n, s)
    {
      PosSteps(s, count, n);
      if end < s {
        PosSteps(end, s, n);
      }
    }
  }

  /** Copies the entries of the stripes before `start`, and of those from `end` on that the source has. */
  method CopyStripes<T>(target: array<T>, source: seq<T>, n: nat, start: nat, end: nat, count: nat)
    requires start <= end && start <= count && Pos(count, n) == |source| && Pos(start, n) <= target.Length
    requires (end < count ==> Pos(count, n) <= target.Length)
    modifies target
    ensures forall s: nat :: s < count && (s < start || end <= s) ==>
              && Pos(s, n) + n <= |source| && Pos(s, n) + n <= target.Length
              && Group(target[..], n, s) == Group(source, n, s)
    ensures forall s: nat :: start <= s < end && Pos(s, n) + n <= target.Length ==>
              Group(target[..], n, s) == Group(old(target[..]), n, s)
  {
    ghost var before := target[..];
    PosOrder(start, count, n);
    hide Pos, Group;
    if start > 0 {
      CopyRange(target, 0, source[..Pos(start, n)]);
      assert target[..] == source[..Pos(start, n)] + before[Pos(start, n)..];
      FrontCopied(before, target[..], source, n, start);
    }
    if end < count {
      PosOrder(end, count, n);
      ghost var middle := target[..];
      CopyRange(target, Pos(end, n), source[Pos(end, n)..Pos(count, n)]);
      RearCopied(middle, target[..], source, n, end, count);
    }
  }

  lemma SpliceKeeps(content: seq<Byte>, offset: nat, data: seq<Byte>)
    requires offset <= |content|
    ensures Splice(content, offset, data)[..offset] == content[..offset]
    ensures offset + |data| <= |content| ==>
              Splice(content, offset, data)[offset + |data|..] == content[offset + |data|..]
  {
  }

  lemma SameFront(x: seq<Byte>, y: seq<Byte>, offset: nat, a: nat, s: nat)
    requires offset <= |x| && offset <= |y| && x[..offset] == y[..offset] && Pos(s, a) + a <= offset
    ensures Part(x, a, s) == Part(y, a, s)
  {
    hide Pos;
    assert Part(x, a, s) == x[..offset][Pos(s, a)..Pos(s, a) + a];
    assert Part(y, a, s) == y[..offset][Pos(s, a)..Pos(s, a) + a];
  }

  lemma SameRear(x: seq<Byte>, y: seq<Byte>, offset: nat, a: nat, s: nat)
    requires |x| == |y| && offset <= |x| && x[offset..] == y[offset..] && offset <= Pos(s, a) <= |x|
    ensures Part(x, a, s) == Part(y, a, s)
  {
    hide Pos;
    var from, count := Pos(s, a), |Part(x, a, s)|;
    SliceOfSlice(x, offset, |x|, from - offset, from - offset + count);
    SliceOfSlice(y, offset, |y|, from - offset, from - offset + count);
    assert x[offset..|x|] == x[offset..] && y[offset..|y|] == y[offset..];
  }

  /** A stripe that the data does not reach has the same bytes before and after. */
  lemma OtherPartsSame(content: seq<Byte>, seen: seq<Byte>, offset: nat, data: seq<Byte>, a: nat, s: nat)
    requires a > 0 && offset <= |seen|
    requires SameParts(content, seen, a, StripeAt(offset, a), Stripes(offset + |data|, a))
    requires s < Stripes(|content|, a) && (s < StripeAt(offset, a) || Stripes(offset + |data|, a) <= s)
    ensures Pos(s, a) < |content| && Pos(s, a) <= |Splice(seen, offset, data)|
    ensures Part(Splice(seen, offset, data), a, s) == Part(content, a, s)
  {
    hide Stripes, Pos, Part, Splice;
    StripesCover(|content|, a);
    SpliceKeeps(seen, offset, data);
    if s < StripeAt(offset, a) {
      StripesCover(offset, a);
      PosSteps(s, StripeAt(offset, a), a);
      SameFront(Splice(seen, offset, data), seen, offset, a, s);
    } else {
      StripesCover(offset + |data|, a);
      SameRear(Splice(seen, offset, data), seen, offset + |data|, a, s);
    }
  }

  /** Stripes outside start..end-1 that were stored are stored, with the same entries and bytes. */
  ghost predicate Persist(before: Store, after: Store, sc: StorageClass, file: FileMeta, file': FileMeta,
                          content: seq<Byte>, content': seq<Byte>, start: nat, end: nat)
    requires sc.Valid()
  {
    forall s: nat :: s < file.numStripes && (s < start || end <= s) && PartStored(before, sc, file, content, s) ==>
      PartStored(after, sc, file', content', s)
  }

  /** A stripe whose entries are copied stays acknowledged, and stored if it was. */
  lemma OtherIsKept(acked: set<PutRequest>, acked': set<PutRequest>, before: Store, after: Store, sc: StorageClass,
                    file: FileMeta, file': FileMeta, content: seq<Byte>, content': seq<Byte>, start: nat, end: nat,
                    s: nat)
    requires sc.Valid() && acked <= acked' && start <= end && (s < start || end <= s)
    requires SameOutside(before, after, file.version, Pos(start, sc.code.n), Span(start, end, sc.code.n))
    requires SameEntries(file, file', sc.code.n, s) && file'.version == file.version && PartFound(sc, file, content, s)
    requires Pos(s, sc.StripeSize()) <= |content'|
    requires Part(content', sc.StripeSize(), s) == Part(content, sc.StripeSize(), s)
    ensures PartConfirmed(acked, sc, file, content, s) ==> PartConfirmed(acked', sc, file', content', s)
    ensures PartStored(before, sc, file, content, s) ==> PartStored(after, sc, file', content', s)
  {
    hide StripeStored, StripeConfirmed, Group, Part, Pos, SameOutside, Span, StorageClass.StripeSize;
    var n, data := sc.code.n, Part(content, sc.StripeSize(), s);
    if s < start {
      PosSteps(s, start, n);
    } else {
      PosOrder(end, s, n);
    }
    SpanEnds(start, end, n);
    if PartConfirmed(acked, sc, file, content, s) {
      StaysConfirmed(acked, acked', sc, file.version, data, s, Group(file.chunks, n, s), Group(file.containers, n, s));
    }
    if PartStored(before, sc, file, content, s) {
      StripeUntouched(before, after, sc, file.version, data, s, Group(file.chunks, n, s), Group(file.containers, n, s),
                      file.version, Pos(start, n), Span(start, end, n));
    }
  }

  /** Chunks outside the stripes start..end-1 are as before, so these are. */
  lemma OutsidePersists(before: Store, after: Store, sc: StorageClass, file: FileMeta, content: seq<Byte>, start: nat,
                        end: nat)
    requires sc.Valid() && start <= end
    requires SameOutside(before, after, file.version, Pos(start, sc.code.n), Span(start, end, sc.code.n))
    ensures Persist(before, after, sc, file, file, content, content, start, end)
  {
    hide SameOutside, PartStored, PartFound, SameEntries, Group, Pos, Span, StorageClass.StripeSize, StorageClass.Valid;
    forall s: nat | s < file.numStripes && (s < start || end <= s) && PartStored(before, sc, file, content, s)
      ensures PartStored(after, sc, file, content, s)
    {
      FoundIsSame(before, sc, file, content, s);
      OtherIsKept({}, {}, before, after, sc, file, file, content, content, start, end, s);
    }
  }

  lemma FoundIsSame(store: Store, sc: StorageClass, file: FileMeta, content: seq<Byte>, s: nat)
    requires sc.Valid() && PartStored(store, sc, file, content, s)
    ensures PartFound(sc, file, content, s) && SameEntries(file, file, sc.code.n, s)
    ensures Pos(s, sc.StripeSize()) <= |content|
  {
  }

  lemma SpanEnds(start: nat, end: nat, n: nat)
    requires start <= end
    ensures Pos(start, n) + Span(start, end, n) == Pos(end, n)
  {
  }

  /** A stripe has the same chunk and container entries in both. */
  ghost predicate SameEntries(file: FileMeta, file': FileMeta, n: nat, s: nat) {
    && Pos(s, n) + n <= |file.chunks| == |file.containers| && Pos(s, n) + n <= |file'.chunks| == |file'.containers|
    && Group(file'.chunks, n, s) == Group(file.chunks, n, s)
    && Group(file'.containers, n, s) == Group(file.containers, n, s)
  }

  lemma CountsFit(content: seq<Byte>, offset: nat, data: seq<Byte>, bytes: seq<Byte>, foffset: nat, flength: nat,
                  a: nat)
    requires a > 0 && Prepared(bytes, foffset, flength, content, offset, data, a)
    ensures foffset / a <= Stripes(|content|, a) <= Stripes(|Splice(content, offset, data)|, a)
    ensures |Splice(content, offset, data)| == if foffset + flength > |content| then foffset + flength else |content|
    ensures Stripes(foffset + flength, a) < Stripes(|Splice(content, offset, data)|, a) ==>
              Stripes(|Splice(content, offset, data)|, a) == Stripes(|content|, a)
  {
    hide Stripes, Pos;
    var r := Splice(content, offset, data);
    StripesCover(foffset, a);
    StripesCover(|content|, a);
    StripesCover(|r|, a);
    PosReflects(foffset / a, Stripes(|content|, a), a);
  }

  /** The stripes rewritten, and all others copied. */
  ghost predicate Merged(file: FileMeta, file': FileMeta, n: nat, start: nat, end: nat) {
    && file'.version == file.version
    && (forall s: nat :: s < file.numStripes && (s < start || end <= s) ==> SameEntries(file, file', n, s))
    && (forall s: nat ::
          s < file.numStripes && Pos(s, n) + n <= |file.containers| && Pos(s, n) + n <= |file'.containers| ==>
          Group(file'.containers, n, s) == Group(file.containers, n, s))
  }

  /** The entries of the stripes rewritten are kept, those of the others are the file's. */
  ghost predicate Copied(file: FileMeta, written: FileMeta, file': FileMeta, n: nat, start: nat, end: nat) {
    && (forall s: nat :: s < file.numStripes && (s < start || end <= s) ==> SameEntries(file, file', n, s))
    && (forall s: nat :: start <= s < end && Pos(s, n) + n <= |written.chunks| ==> SameEntries(written, file', n, s))
  }

  /** Copies the metadata of the stripes that were not rewritten. */
  method CompleteMeta(file: FileMeta, n: nat, start: nat, end: nat, size: nat, numStripes: nat,
                      chunks: array<ChunkMeta>, containers: array<int>)
    returns (file': FileMeta)
    requires start <= end && start <= file.numStripes <= numStripes
    requires |file.chunks| == |file.containers| == Pos(file.numStripes, n)
    requires chunks.Length == containers.Length == Pos(numStripes, n)
    modifies chunks, containers
    ensures file'.version == file.version && file'.size == size && file'.numStripes == numStripes
    ensures |file'.chunks| == |file'.containers| == Pos(numStripes, n)
    ensures Copied(file, FileMeta(file.version, size, numStripes, old(chunks[..]), old(containers[..])), file', n,
                   start, end)
  {
    PosOrder(start, numStripes, n);
    PosOrder(file.numStripes, numStripes, n);
    hide Pos, Group;
    CopyStripes(containers, file.containers, n, start, end, file.numStripes);
    CopyStripes(chunks, file.chunks, n, start, end, file.numStripes);
    file' := FileMeta(file.version, size, numStripes, chunks[..], containers[..]);
  }

  /** The number of stripes rewritten, and how many there are then. */
  lemma TouchedStripes(content: seq<Byte>, offset: nat, data: seq<Byte>, bytes: seq<Byte>, foffset: nat, flength: nat,
                       a: nat)
    requires a > 0 && Prepared(bytes, foffset, flength, content, offset, data, a)
    ensures foffset / a == StripeAt(offset, a) && Stripes(foffset + flength, a) == Stripes(offset + |data|, a)
    ensures StripeAt(offset, a) <= Stripes(offset + |data|, a)
  {
    hide Stripes, Pos;
    CountsFit(content, offset, data, bytes, foffset, flength, a);
    StripesCover(offset, a);
    StripesCover(offset + |data|, a);
    StripesCover(foffset + flength, a);
    PosReflects(StripeAt(offset, a), Stripes(offset + |data|, a), a);
    NoMoreStripes(offset + |data|, Stripes(foffset + flength, a), a);
    if |content| <= offset + |data| {
      NoMoreStripes(foffset + flength, Stripes(offset + |data|, a), a);
    } else {
      StripesCover(|content|, a);
      NoMoreStripes(foffset + flength, Stripes(|content|, a), a);
      NoMoreStripes(offset + |data|, Stripes(|content|, a), a);
    }
  }

  /** When the range is one stripe of the file, what the failure leaves behind. */
  ghost predicate OneFails(agents: Agents, before: Store, after: Store, sc: StorageClass, file: FileMeta,
                           content': seq<Byte>, start: nat, end: nat)
    requires sc.Valid()
  {
    end == start + 1 && start < file.numStripes ==>
      && Pos(start, sc.StripeSize()) <= |content'|
      && Failure(agents, before, after, sc, file, Part(content', sc.StripeSize(), start), start)
  }

  /**
   Writes the prepared range, and completes the metadata with that of the other stripes. Those that were
   stored still are, whether the write succeeds or not.
   */
  method Rewrite(agents: Agents, sc: StorageClass, file: FileMeta, size: nat, foffset: nat, flength: nat,
                 bytes: seq<Byte>, pick: nat -> seq<int>, ghost content: seq<Byte>, ghost seen: seq<Byte>,
                 ghost offset: nat, ghost data: seq<Byte>)
    returns (ok: bool, file': FileMeta)
    requires agents.Valid() && sc.Valid() && sc.StripeSize() > 0 && sc.md5 == agents.md5 && Picks(pick, sc.code.n)
    requires FileConfirmed(agents.acked, sc, file, content)
    requires SameParts(content, seen, sc.StripeSize(), StripeAt(offset, sc.StripeSize()),
                       Stripes(offset + |data|, sc.StripeSize()))
    requires Prepared(bytes, foffset, flength, seen, offset, data, sc.StripeSize())
    requires size == |Splice(seen, offset, data)|
    modifies agents
    ensures agents.Valid() && old(agents.acked) <= agents.acked && (Willing(agents, pick, sc.code.k) ==> ok)
    ensures !ok ==> file' == file
    ensures FileConfirmed(agents.acked, sc, file', if ok then Splice(seen, offset, data) else content)
    ensures ok ==>
              Rewritten(agents.store, sc, file, file', Splice(seen, offset, data), StripeAt(offset, sc.StripeSize()),
                        Stripes(offset + |data|, sc.StripeSize()))
    ensures Persist(old(agents.store), agents.store, sc, file, file', content,
                    if ok then Splice(seen, offset, data) else content,
                    StripeAt(offset, sc.StripeSize()), Stripes(offset + |data|, sc.StripeSize()))
    ensures !ok ==>
              OneFails(agents, old(agents.store), agents.store, sc, file, Splice(seen, offset, data),
                       StripeAt(offset, sc.StripeSize()), Stripes(offset + |data|, sc.StripeSize()))
  {
    hide FileConfirmed, FileListed, Prepared, Progress, Done, Stripes, StripeAt, Pos, Group, Picks, Willing, Honest,
      StorageClass.StripeSize, StorageClass.Valid, Span, SameOutside, SameParts, Splice, Durable, Range, Copied, Merged,
      RangeStored, Persist, Failure;
    var a := FullStripe(sc);
    var n := sc.code.n;
    TouchedStripes(seen, offset, data, bytes, foffset, flength, a);
    SamePartsLength(content, seen, a, foffset / a, Stripes(foffset + flength, a));
    PreparedRange(bytes, foffset, flength, seen, offset, data, a);
    ghost var store, acked, result := agents.store, agents.acked, Splice(seen, offset, data);
    ConfirmedIsListed(acked, sc, file, content);
    ListedIsDurable(sc, file, content);
    ShapeOf(acked, sc, file, content);
    CountsFit(seen, offset, data, bytes, foffset, flength, a);
    var numStripes, chunks, containers;
    ok, numStripes, chunks, containers := WriteFileStripes(agents, sc, file, size, foffset, flength, bytes, pick,
                                                           result);
    file' := file;
    if !ok {
      OutsidePersists(store, agents.store, sc, file, content, StripeAt(offset, a), Stripes(offset + |data|, a));
      FileStaysConfirmed(acked, agents.acked, sc, file, content);
      return;
    }
    var start, end := foffset / a, (foffset + flength + a - 1) / a;
    CeilIsStripes(foffset + flength, a);
    ghost var written := FileMeta(file.version, size, numStripes, chunks[..], containers[..]);
    file' := CompleteMeta(file, n, start, end, size, numStripes, chunks, containers);
    MergedIsKept(acked, agents.acked, store, agents.store, sc, file, written, file', content, seen, offset, data, bytes,
                 foffset, flength);
    CopiedIsMerged(agents.acked, agents.store, sc, file, written, file', result, start, end);
  }

  /**
   The stripes start..end-1 are stored; the others have the entries they had, and no stripe changed its containers.
   */
  ghost predicate Rewritten(store: Store, sc: StorageClass, file: FileMeta, file': FileMeta, content': seq<Byte>,
                            start: nat, end: nat)
    requires sc.Valid()
  {
    && start <= end && RangeStored(store, sc, file', content', start, end) && Merged(file, file', sc.code.n, start, end)
    && file.numStripes <= file'.numStripes
    && (file.numStripes < file'.numStripes ==> start <= file.numStripes && end == file'.numStripes)
  }

  lemma ShapeOf(acked: set<PutRequest>, sc: StorageClass, file: FileMeta, content: seq<Byte>)
    requires FileConfirmed(acked, sc, file, content)
    ensures Shaped(file, sc) && file.size == |content|
  {
  }

  lemma FileStaysConfirmed(acked: set<PutRequest>, acked': set<PutRequest>, sc: StorageClass, file: FileMeta,
                           content: seq<Byte>)
    requires FileConfirmed(acked, sc, file, content) && acked <= acked'
    ensures FileConfirmed(acked', sc, file, content)
  {
    hide StripeConfirmed, Part, Pos, Group, StorageClass.StripeSize, Stripes;
    forall s: nat | s < file.numStripes
      ensures PartConfirmed(acked', sc, file, content, s)
    {
      assert PartConfirmed(acked, sc, file, content, s);
      StaysConfirmed(acked, acked', sc, file.version, Part(content, sc.StripeSize(), s), s,
                     Group(file.chunks, sc.code.n, s), Group(file.containers, sc.code.n, s));
    }
  }

  lemma PreparedRange(bytes: seq<Byte>, foffset: nat, flength: nat, content: seq<Byte>, offset: nat, data: seq<Byte>,
                      a: nat)
    requires Prepared(bytes, foffset, flength, content, offset, data, a)
    ensures offset <= |content| && Range(bytes, foffset, flength, Splice(content, offset, data), a)
  {
  }

  /** A rewritten stripe is stored as the completed metadata says. */
  lemma RewrittenIsDone(acked: set<PutRequest>, store: Store, sc: StorageClass, file: FileMeta, written: FileMeta,
                        file': FileMeta, content: seq<Byte>, start: nat, end: nat, s: nat)
    requires sc.Valid() && Progress(acked, store, sc, file, content, start, end, written.chunks, written.containers)
    requires start <= s < end
    requires Copied(file, written, file', sc.code.n, start, end)
    ensures Done(acked, store, sc, file.version, content, s, file'.chunks, file'.containers)
    ensures s < file.numStripes && Pos(s, sc.code.n) + sc.code.n <= |file.containers| ==>
              Group(file'.containers, sc.code.n, s) == Group(file.containers, sc.code.n, s)
  {
    hide StripeStored, Group, Part, Pos, StorageClass.StripeSize;
    assert Done(acked, store, sc, file.version, content, s, written.chunks, written.containers);
    assert SameEntries(written, file', sc.code.n, s);
  }

  lemma CopiedIsMerged(acked: set<PutRequest>, store: Store, sc: StorageClass, file: FileMeta, written: FileMeta,
                       file': FileMeta, content: seq<Byte>, start: nat, end: nat)
    requires sc.Valid() && Progress(acked, store, sc, file, content, start, end, written.chunks, written.containers)
    requires Copied(file, written, file', sc.code.n, start, end) && file'.version == file.version
    ensures Merged(file, file', sc.code.n, start, end)
  {
    hide Group, Pos, Progress, StorageClass.StripeSize, StorageClass.Valid;
    forall s: nat | s < file.numStripes && Pos(s, sc.code.n) + sc.code.n <= |file.containers|
                    && Pos(s, sc.code.n) + sc.code.n <= |file'.containers|
      ensures Group(file'.containers, sc.code.n, s) == Group(file.containers, sc.code.n, s)
    {
      if start <= s < end {
        RewrittenIsDone(acked, store, sc, file, written, file', content, start, end, s);
      } else {
        assert SameEntries(file, file', sc.code.n, s);
      }
    }
  }

  lemma MergedIsKept(acked: set<PutRequest>, acked': set<PutRequest>, before: Store, after: Store, sc: StorageClass,
                     file: FileMeta, written: FileMeta, file': FileMeta, content: seq<Byte>, seen: seq<Byte>,
                     offset: nat, data: seq<Byte>, bytes: seq<Byte>, foffset: nat, flength: nat)
    requires FileConfirmed(acked, sc, file, content) && acked <= acked' && Shaped(file', sc)
    requires Prepared(bytes, foffset, flength, seen, offset, data, sc.StripeSize())
    requires file'.size == |Splice(seen, offset, data)| && file'.version == file.version
    requires var start, end, n := foffset / sc.StripeSize(), Stripes(foffset + flength, sc.StripeSize()), sc.code.n;
             && start <= end && SameOutside(before, after, file.version, Pos(start, n), Span(start, end, n))
             && SameParts(content, seen, sc.StripeSize(), start, end)
             && Progress(acked', after, sc, file, Splice(seen, offset, data), start, end, written.chunks,
                         written.containers)
             && Copied(file, written, file', n, start, end)
    ensures FileConfirmed(acked', sc, file', Splice(seen, offset, data))
    ensures var start, end := foffset / sc.StripeSize(), Stripes(foffset + flength, sc.StripeSize());
            && Persist(before, after, sc, file, file', content, Splice(seen, offset, data), start, end)
            && RangeStored(after, sc, file', Splice(seen, offset, data), start, end)
  {
    PreparedRange(bytes, foffset, flength, seen, offset, data, sc.StripeSize());
    TouchedStripes(seen, offset, data, bytes, foffset, flength, sc.StripeSize());
    hide PartStored, PartConfirmed, PartFound, Group, Part, Pos, Stripes, SameOutside, SameParts, Prepared, Span,
      Splice, StorageClass.StripeSize, Progress, Copied, Done, Range;
    var start, end, result := foffset / sc.StripeSize(), Stripes(foffset + flength, sc.StripeSize()),
                              Splice(seen, offset, data);
    SamePartsLength(content, seen, sc.StripeSize(), start, end);
    CountsFit(seen, offset, data, bytes, foffset, flength, sc.StripeSize());
    forall s: nat | start <= s < end
      ensures PartStored(after, sc, file', result, s) && PartConfirmed(acked', sc, file', result, s)
    {
      RewrittenIsDone(acked', after, sc, file, written, file', result, start, end, s);
      DoneMeans(acked', after, sc, file', result, s);
    }
    forall s: nat | s < file.numStripes && (s < start || end <= s)
      ensures PartConfirmed(acked', sc, file', result, s)
      ensures PartStored(before, sc, file, content, s) ==> PartStored(after, sc, file', result, s)
    {
      CopiedAt(file, written, file', sc.code.n, start, end, s);
      OtherPartsSame(content, seen, offset, data, sc.StripeSize(), s);
      ConfirmedIsFound(acked, sc, file, content, s);
      OtherIsKept(acked, acked', before, after, sc, file, file', content, result, start, end, s);
    }
  }

  lemma SamePartsLength(content: seq<Byte>, seen: seq<Byte>, a: nat, start: nat, end: nat)
    requires SameParts(content, seen, a, start, end)
    ensures |content| == |seen|
  {
  }

  lemma DoneMeans(acked: set<PutRequest>, store: Store, sc: StorageClass, file: FileMeta, content: seq<Byte>, s: nat)
    requires sc.Valid() && Done(acked, store, sc, file.version, content, s, file.chunks, file.containers)
    ensures PartStored(store, sc, file, content, s) && PartConfirmed(acked, sc, file, content, s)
  {
    hide StripeStored, StripeConfirmed;
  }

  lemma ConfirmedIsFound(acked: set<PutRequest>, sc: StorageClass, file: FileMeta, content: seq<Byte>, s: nat)
    requires FileConfirmed(acked, sc, file, content) && s < file.numStripes
    ensures PartConfirmed(acked, sc, file, content, s) && PartFound(sc, file, content, s)
  {
    hide StripeConfirmed, Group, Part, Pos, Stripes;
    assert PartConfirmed(acked, sc, file, content, s);
  }

  lemma CopiedAt(file: FileMeta, written: FileMeta, file': FileMeta, n: nat, start: nat, end: nat, s: nat)
    requires Copied(file, written, file', n, start, end) && s < file.numStripes && (s < start || end <= s)
    ensures SameEntries(file, file', n, s)
  {
  }

  /**
   The requests that can be carried out: within the file, and an unaligned range after its last whole stripe only as an
   append.
   */
  predicate Acceptable(isAppend: bool, offset: nat, length: nat, size: nat, a: nat)
    requires a > 0
  {
    offset <= size && (0 < size && AtEnd(offset, size, a) && length % a != 0 ==> isAppend)
  }

  /** The requests for which old stripes are read: unaligned ones, but for an append after whole stripes. */
  predicate NeedsRead(isAppend: bool, offset: nat, length: nat, size: nat, a: nat)
    requires a > 0
  {
    && 0 < size && (offset % a != 0 || length % a != 0)
    && !(isAppend && size % a == 0 && size <= offset)
  }

  /**
   Overwrites or appends to a file whose stripes need not all be stored: an earlier change may have failed.
   If it succeeds, the metadata and the stripes that the data reaches are those of the content with the data
   spliced in; if it fails, the metadata is the old one. Either way the other stripes are as they were.
   */
  method ModifyFile(agents: Agents, sc: StorageClass, file: FileMeta, isAppend: bool, offset: nat, data: seq<Byte>,
                    pick: nat -> seq<int>, reader: Reader, ghost content: seq<Byte>)
    returns (ok: bool, file': FileMeta, a: nat, ghost seen: seq<Byte>, ghost wrote: bool)
    requires agents.Valid() && sc.Valid() && sc.md5 == agents.md5 && Picks(pick, sc.code.n)
    requires FileConfirmed(agents.acked, sc, file, content) && reader.Valid(agents.store, sc, file)
    modifies agents
    ensures agents.Valid() && old(agents.acked) <= agents.acked && a == sc.StripeSize() && a > 0
    // it gets to writing on exactly these requests, when the stripes to be read can be read
    ensures StripeAt(offset, a) <= Stripes(offset + |data|, a)
    ensures wrote ==> Acceptable(isAppend, offset, |data|, |content|, a)
    ensures Acceptable(isAppend, offset, |data|, |content|, a) && !wrote ==>
              && NeedsRead(isAppend, offset, |data|, |content|, a)
              && reader.Blocked(sc, file, StripeAt(offset, a), Stripes(offset + |data|, a))
    // past the end it never does; within the file, and for an append at its end, only a read can prevent it
    ensures offset > |content| ==> !wrote
    ensures offset < |content| || (offset == |content| && (isAppend || |content| == 0 || |content| % a != 0)) ==>
              wrote || reader.Blocked(sc, file, StripeAt(offset, a), Stripes(offset + |data|, a))
    // nothing is read for whole stripes, nor for an append after whole stripes, nor for an empty file
    ensures offset <= |content| && offset % a == 0 && |data| % a == 0 ==> wrote && seen == content
    ensures offset == |content| && |content| % a == 0 && (isAppend || |content| == 0) ==> wrote && seen == content
    // part of a stripe after whole stripes is written only as an append
    ensures offset == |content| > 0 && |content| % a == 0 && !isAppend ==> (wrote <==> |data| % a == 0)
    ensures !wrote ==> !ok && agents.store == old(agents.store)
    // and then succeeds when the agents acknowledge
    ensures wrote && Willing(agents, pick, sc.code.k) ==> ok
    // what was read of the old content is right if it is still stored
    ensures SameParts(content, seen, a, StripeAt(offset, a), Stripes(offset + |data|, a))
    ensures (wrote ==> offset <= |seen|)
    ensures RangeStored(old(agents.store), sc, file, content, StripeAt(offset, a), Stripes(offset + |data|, a)) ==>
              seen == content
    ensures !NeedsRead(isAppend, offset, |data|, |content|, a) ==> seen == content
    ensures !ok ==> file' == file
    ensures FileConfirmed(agents.acked, sc, file', if ok then Splice(seen, offset, data) else content)
    ensures ok ==>
              Rewritten(agents.store, sc, file, file', Splice(seen, offset, data), StripeAt(offset, a),
                        Stripes(offset + |data|, a))
    ensures Persist(old(agents.store), agents.store, sc, file, file', content,
                    if ok then Splice(seen, offset, data) else content,
                    StripeAt(offset, a), Stripes(offset + |data|, a))
    ensures wrote && !ok ==>
              OneFails(agents, old(agents.store), agents.store, sc, file, Splice(seen, offset, data),
                       StripeAt(offset, a), Stripes(offset + |data|, a))
    ensures ok && FileStored(old(agents.store), sc, file, content) ==>
              seen == content && FileStored(agents.store, sc, file', Splice(content, offset, data))
  {
    hide FileConfirmed, FileStored, Prepared, Picks, Willing, Honest, StorageClass.StripeSize, Splice, Reader.Valid,
      Reader.Blocked, Stripes, StripeAt, SameParts, RangeStored, Rewritten, Persist, OneFails;
    ShapeOf(agents.acked, sc, file, content);
    ghost var store := agents.store;
    a := FullStripe(sc);
    ok, file', seen, wrote := true, file, content, false;
    SameWithItself(content, a, StripeAt(offset, a), Stripes(offset + |data|, a));
    StripeOrder(offset, |data|, a);
    var append, foffset, flength, bytes := isAppend, offset, |data|, data;
    if append {
      if file.size % a != 0 {
        append := false;
      }
      if file.size > offset {
        append := false;
      } else if file.size < offset {
        ok := false;
      }
    }
    if !append {
      if file.size < offset {
        ok := false;
      } else if file.size > 0 && (offset % a != 0 || |data| % a != 0) {
        ConfirmedIsListed(agents.acked, sc, file, content);
        ok, foffset, flength, bytes, seen := ReadAndPatch(sc, a, file, offset, data, reader, agents.store, content);
      } else if ok {
        DirectOverwrite(content, offset, data, a);
      }
    } else if ok {
      DirectIsPrepared(content, offset, data, a);
    }
    if !ok {
      NothingChanged(agents.store, sc, file, content, StripeAt(offset, a), Stripes(offset + |data|, a));
      return;
    }
    SamePartsLength(content, seen, a, StripeAt(offset, a), Stripes(offset + |data|, a));
    CountsFit(seen, offset, data, bytes, foffset, flength, a);
    assert Prepared(bytes, foffset, flength, seen, offset, data, a);
    PreparedRange(bytes, foffset, flength, seen, offset, data, a);
    var size := if append then file.size + flength
                else if foffset + flength > file.size then foffset + flength else file.size;
    wrote := true;
    ok, file' := Rewrite(agents, sc, file, size, foffset, flength, bytes, pick, content, seen, offset, data);
    if ok && FileStored(store, sc, file, content) {
      StoredIsListed(store, sc, file, content);
      ModifiedIsStored(agents.acked, store, agents.store, sc, file, file', content, Splice(seen, offset, data),
                       StripeAt(offset, a), Stripes(offset + |data|, a));
    }
  }

  lemma NothingChanged(store: Store, sc: StorageClass, file: FileMeta, content: seq<Byte>, start: nat, end: nat)
    requires sc.Valid()
    ensures Persist(store, store, sc, file, file, content, content, start, end)
  {
  }

  /** A stored file that is modified successfully is stored with the data spliced in. */
  lemma ModifiedIsStored(acked: set<PutRequest>, before: Store, after: Store, sc: StorageClass, file: FileMeta,
                         file': FileMeta, content: seq<Byte>, content': seq<Byte>, start: nat, end: nat)
    requires FileStored(before, sc, file, content) && FileConfirmed(acked, sc, file', content')
    requires Rewritten(after, sc, file, file', content', start, end)
    requires Persist(before, after, sc, file, file', content, content', start, end)
    ensures FileStored(after, sc, file', content')
  {
    hide PartStored, PartConfirmed, Stripes, Pos, Merged, StorageClass.StripeSize;
  }

  lemma DirectOverwrite(content: seq<Byte>, offset: nat, data: seq<Byte>, a: nat)
    requires a > 0 && offset <= |content| && (|content| == 0 || (offset % a == 0 && |data| % a == 0))
    ensures Prepared(data, offset, |data|, content, offset, data, a)
  {
    hide Prepared;
    if |content| == 0 {
      ModUnique(0, 0, 0, a);
    }
    DirectIsPrepared(content, offset, data, a);
  }

  /**
   Data that is not whole stripes, put at the end of a file that is: as an overwrite it is refused and nothing changes,
   as an append it is written.
   */
  method OverwriteAtEnd(agents: Agents, sc: StorageClass, file: FileMeta, data: seq<Byte>, pick: nat -> seq<int>,
                        reader: Reader, ghost content: seq<Byte>)
    returns (overwritten: bool, appended: bool, file': FileMeta)
    requires agents.Valid() && sc.Valid() && sc.md5 == agents.md5 && Picks(pick, sc.code.n) && sc.StripeSize() > 0
    requires FileStored(agents.store, sc, file, content) && FileConfirmed(agents.acked, sc, file, content)
    requires reader.Valid(agents.store, sc, file)
    requires 0 < file.size && file.size % sc.StripeSize() == 0 && |data| % sc.StripeSize() != 0
    modifies agents
    ensures !overwritten && (Willing(agents, pick, sc.code.k) ==> appended)
    ensures appended ==> FileStored(agents.store, sc, file', content + data)
  {
    hide FileConfirmed, FileStored, Picks, Willing, Honest, StorageClass.StripeSize, Reader.Valid, Reader.Blocked,
      Stripes, StripeAt, SameParts, RangeStored, Rewritten, Persist, OneFails;
    ShapeOf(agents.acked, sc, file, content);
    var a;
    ghost var seen, wrote;
    overwritten, file', a, seen, wrote := ModifyFile(agents, sc, file, false, file.size, data, pick, reader, content);
    appended, file', a, seen, wrote := ModifyFile(agents, sc, file, true, file.size, data, pick, reader, content);
    assert Splice(content, file.size, data) == content + data;
  }
}
