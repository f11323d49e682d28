/**
 Runs while all goes well, src/proxy/proxy_file_ops.cc: agents answer with what they store and acknowledge what
 they get. Then every request succeeds that is not refused for its offset, and the content is what the
 requests say, byte by byte.
 */
module HealthyRun {
  import opened Wrappers
  import opened Gf256
  import opened Linear
  import opened Sequences
  import opened ReedSolomon
  import opened ChunkAccess
  import opened StripeRead
  import opened Striping
  import opened StripeWrite
  import opened FileRead
  import opened FileWrite
  import opened FileModify
  import opened FileRun

  /** Agents that answer: with the chunk, if the container has it. */
  function Replies(store: Store): Event -> Delivery {
    (e: Event) =>
      if e.Request? && KeyOf(e.container, e.chunk) in store then
        Delivery(true, Answer(true, e.chunk.id, store[KeyOf(e.container, e.chunk)]))
      else
        Delivery(true, Answer(false, 0, []))
  }

  lemma RepliesServe(store: Store, verify: bool, md5: Chunk -> Digest)
    ensures Serves(Replies(store), store, verify, md5)
  {
  }

  /** The library inverts the rows of any k chunks. */
  ghost predicate Complete(invert: Matrix -> Option<Matrix>, code: Code)
    requires code.Valid()
  {
    forall ids: seq<nat> :: Ascending(ids, code.n) && |ids| == code.k ==> invert(Select(code.matrix, ids)).Some?
  }

  /** There is such a library for one parity chunk. */
  lemma ParityIsComplete(k: nat)
    requires k > 0
    ensures Parity(k).Valid() && Complete(rows => InvertParity(k, rows), Parity(k))
    ensures SoundInverter(rows => InvertParity(k, rows), k)
  {
    hide InvertParity;
    var all := seq(k, i => i);
    ParityNeverFails(k, all);
    forall ids: seq<nat> | Ascending(ids, Parity(k).n) && |ids| == Parity(k).k
      ensures InvertParity(k, Select(Parity(k).matrix, ids)).Some?
    {
      ParityNeverFails(k, ids);
    }
  }

  /** The chunks of a stripe that are alive and have a container. */
  ghost function Up(alive: seq<bool>, containers: seq<int>): set<nat>
    requires |alive| == |containers|
  {
    set i: nat | i < |alive| && alive[i] && containers[i] != INVALID_CONTAINER_ID
  }

  /** A stored chunk is answered as expected. */
  lemma StoredIsAnswered(store: Store, sc: StorageClass, version: nat, data: seq<Byte>, s: nat, metas: seq<ChunkMeta>,
                         containers: seq<int>, verify: bool, id: nat, i: nat)
    requires sc.Valid() && StripeStored(store, sc, version, data, s, metas, containers)
    requires i < sc.code.n && containers[i] != INVALID_CONTAINER_ID
    ensures var a := Access(Get, metas, containers, verify, sc.md5, Replies(store));
            a.Valid() && a.Accepts(i, a.network(a.RequestFor(id, i)))
  {
    hide Encode, ChunkSize, Pos, Placed;
    assert Has(store, Key(containers[i], version, Pos(s, sc.code.n) + i), Encode(sc.code, data)[i]);
  }

  /** So all that are up are reliable, whatever was sent. */
  lemma UpIsReliable(store: Store, sc: StorageClass, version: nat, data: seq<Byte>, s: nat, metas: seq<ChunkMeta>,
                     containers: seq<int>, verify: bool, alive: seq<bool>, log: Log)
    requires sc.Valid() && StripeStored(store, sc, version, data, s, metas, containers) && |alive| == sc.code.n
    ensures var a := Access(Get, metas, containers, verify, sc.md5, Replies(store));
            a.Valid() && |Up(alive, containers)| <= |Reliable(a, alive, log)|
  {
    hide Encode, Metas, Pos, Placed, Has, Replies, Access.Accepts;
    var a := Access(Get, metas, containers, verify, sc.md5, Replies(store));
    forall i | i in Up(alive, containers)
      ensures i in Reliable(a, alive, log)
    {
      forall id: nat
        ensures a.Accepts(i, a.network(a.RequestFor(id, i)))
      {
        StoredIsAnswered(store, sc, version, data, s, metas, containers, verify, id, i);
      }
    }
    SubsetIsSmaller(Up(alive, containers), Reliable(a, alive, log));
  }

  /** In each of the stripes start..end-1 of the file, k chunks or more are up. */
  ghost predicate EnoughUp(sc: StorageClass, file: FileMeta, alive: seq<bool>, start: nat, end: nat) {
    forall s: nat ::
      && start <= s < end && s < file.numStripes
      && Pos(s, sc.code.n) + sc.code.n <= |file.chunks| == |file.containers| == |alive| ==>
        |Up(Group(alive, sc.code.n, s), Group(file.containers, sc.code.n, s))| >= sc.code.k
  }

  /** With k chunks of each stripe up, a stored file can be read. */
  lemma NeverBlocked(store: Store, sc: StorageClass, file: FileMeta, content: seq<Byte>, reader: Reader, start: nat,
                     end: nat)
    requires FileStored(store, sc, file, content) && start <= end
    requires reader.network == Replies(store) && Complete(reader.invert, sc.code)
    requires EnoughUp(sc, file, reader.alive, start, end)
    ensures !reader.Blocked(sc, file, start, end)
  {
    hide StripeStored, Group, Pos, Stripes, Part, Up, Sound, Replies, Reliable, StorageClass.StripeSize;
    forall s: nat, log: Log |
      && start <= s < end && s < file.numStripes
      && Pos(s, sc.code.n) + sc.code.n <= |file.chunks| == |file.containers| == |reader.alive|
      ensures !reader.Unreadable(sc, file, s, log)
    {
      assert PartStored(store, sc, file, content, s);
      UpIsReliable(store, sc, file.version, Part(content, sc.StripeSize(), s), s, Group(file.chunks, sc.code.n, s),
                   Group(file.containers, sc.code.n, s), reader.verify, Group(reader.alive, sc.code.n, s), log);
    }
  }

  lemma {:induction false} UpCount(alive: seq<bool>, containers: seq<int>)
    requires |alive| == |containers| && forall i :: 0 <= i < |alive| ==> alive[i]
    ensures |Up(alive, containers)| == Placed(containers)
  {
    if alive == [] {
      assert Up(alive, containers) == {};
    } else {
      var last := |alive| - 1;
      UpCount(alive[..last], containers[..last]);
      assert Up(alive, containers) ==
             Up(alive[..last], containers[..last]) + if containers[last] != INVALID_CONTAINER_ID then {last} else {};
    }
  }

  /** With all agents alive, k chunks of every stripe are up. */
  lemma AllUp(store: Store, sc: StorageClass, file: FileMeta, content: seq<Byte>, alive: seq<bool>, start: nat,
              end: nat)
    requires FileStored(store, sc, file, content) && forall i :: 0 <= i < |alive| ==> alive[i]
    ensures EnoughUp(sc, file, alive, start, end)
  {
    hide Pos, Stripes, Part, Up, Placed, Metas, StorageClass.StripeSize;
    forall s: nat |
      && start <= s < end && s < file.numStripes
      && Pos(s, sc.code.n) + sc.code.n <= |file.chunks| == |file.containers| == |alive|
      ensures |Up(Group(alive, sc.code.n, s), Group(file.containers, sc.code.n, s))| >= sc.code.k
    {
      assert PartStored(store, sc, file, content, s);
      UpCount(Group(alive, sc.code.n, s), Group(file.containers, sc.code.n, s));
    }
  }

  /** The world while all goes well. */
  function Fair(pick: (nat, nat) -> seq<int>, invert: Matrix -> Option<Matrix>, keepOld: bool): World {
    World((step, store) => Replies(store), (step, count: nat) => seq(count, _ => true), pick, invert, _ => 0, keepOld)
  }

  lemma FairIsValid(pick: (nat, nat) -> seq<int>, invert: Matrix -> Option<Matrix>, keepOld: bool, sc: StorageClass,
                    verify: bool)
    requires sc.Valid() && SoundInverter(invert, sc.code.k)
    requires forall j, s :: |pick(j, s)| <= sc.code.n && INVALID_CONTAINER_ID !in pick(j, s)
    ensures Fair(pick, invert, keepOld).Valid(sc, verify)
  {
    hide Replies, Serves, SoundInverter;
    forall store: Store {
      RepliesServe(store, verify, sc.md5);
    }
  }

  /** A stored file obstructs no step. */
  lemma NotObstructed(pick: (nat, nat) -> seq<int>, invert: Matrix -> Option<Matrix>, keepOld: bool, sc: StorageClass,
                      verify: bool, j: nat, step: Step, m: Moment)
    requires sc.Valid() && sc.StripeSize() > 0 && FileStored(m.store, sc, m.file, m.content)
    requires Complete(invert, sc.code)
    ensures !step.Obstructed(Fair(pick, invert, keepOld).ReaderAt(j, m.store, verify, m.file), sc, m.file, |m.content|)
  {
    hide FileStored, Complete, Reader.Blocked, EnoughUp, StorageClass.StripeSize, Step.NeedsRead, Step.Start, Step.End;
    var a := sc.StripeSize();
    var reader := Fair(pick, invert, keepOld).ReaderAt(j, m.store, verify, m.file);
    if step.Start(a) <= step.End(a) {
      AllUp(m.store, sc, m.file, m.content, reader.alive, step.Start(a), step.End(a));
      NeverBlocked(m.store, sc, m.file, m.content, reader, step.Start(a), step.End(a));
    }
  }

  /** How a request ends while all goes well, and the content after it. */
  ghost predicate Ends(step: Step, ok: bool, content: seq<Byte>, content': seq<Byte>, a: nat)
    requires a > 0
  {
    match step
    case Write(data) => ok && content' == data
    case Modify(isAppend, offset, data) =>
      var size, end := |content|, offset + |data|;
      && (ok <==> || offset < size
                  || (offset == size && (isAppend || size == 0 || size % a != 0 || |data| % a == 0)))
      && content' == if !ok then content
                     else content[..offset] + data + if end < size then content[end..] else []
  }

  /** One step from a stored file. */
  lemma HealthyStep(agents: Agents, acked: set<PutRequest>, pick: (nat, nat) -> seq<int>,
                    invert: Matrix -> Option<Matrix>, keepOld: bool, sc: StorageClass, j: nat, step: Step, ok: bool,
                    m: Moment, m': Moment)
    requires sc.Valid() && sc.StripeSize() > 0 && Complete(invert, sc.code) && Healthy(agents.verify, agents.put)
    requires forall s :: |pick(j, s)| >= sc.code.k
    requires FileStored(m.store, sc, m.file, m.content) && FileConfirmed(acked, sc, m'.file, m'.content)
    requires Next(agents, sc, step, ok, m, m')
    requires Serviced(agents, Fair(pick, invert, keepOld), sc, j, step, ok, m)
    ensures FileStored(m'.store, sc, m'.file, m'.content) && Ends(step, ok, m.content, m'.content, sc.StripeSize())
  {
    hide FileStored, FileConfirmed, RangeStored, Rewritten, Persist, SameParts, Complete, Healthy, Step.Obstructed,
      FileModify.NeedsRead, Stripes, StripeAt, Tidy, StorageClass.StripeSize;
    NotObstructed(pick, invert, keepOld, sc, agents.verify, j, step, m);
    StoredIsListed(m.store, sc, m.file, m.content);
    if ok && step.Modify? {
      ModifiedIsStored(acked, m.store, m'.store, sc, m.file, m'.file, m.content, m'.content,
                       step.Start(sc.StripeSize()), step.End(sc.StripeSize()));
    }
  }

  /** By induction over the run. */
  lemma {:induction false} HealthyTrace(agents: Agents, acked: set<PutRequest>, pick: (nat, nat) -> seq<int>,
                                        invert: Matrix -> Option<Matrix>, keepOld: bool, sc: StorageClass,
                                        steps: seq<Step>, oks: seq<bool>, trace: seq<Moment>, j: nat)
    requires Trace(agents, sc, steps, oks, trace) && Lasting(acked, sc, trace) && j <= |steps|
    requires sc.Valid() && Complete(invert, sc.code) && Healthy(agents.verify, agents.put)
    requires forall x, s :: |pick(x, s)| >= sc.code.k
    requires forall x :: 0 <= x < |steps| ==>
               Serviced(agents, Fair(pick, invert, keepOld), sc, x, steps[x], oks[x], trace[x])
    requires FileStored(trace[0].store, sc, trace[0].file, trace[0].content)
    ensures FileStored(trace[j].store, sc, trace[j].file, trace[j].content)
    ensures forall x :: 0 <= x < j ==>
              Ends(steps[x], oks[x], trace[x].content, trace[x + 1].content, sc.StripeSize())
  {
    hide FileStored, FileConfirmed, Durable, Next, Serviced, Complete, Healthy, Ends, Fair, StorageClass.StripeSize;
    if j > 0 {
      HealthyTrace(agents, acked, pick, invert, keepOld, sc, steps, oks, trace, j - 1);
      assert Next(agents, sc, steps[j - 1], oks[j - 1], trace[j - 1], trace[j]);
      HealthyStep(agents, acked, pick, invert, keepOld, sc, j - 1, steps[j - 1], oks[j - 1], trace[j - 1], trace[j]);
    }
  }

  /** Reads a stored file from agents that answer. */
  method ReadAll(agents: Agents, sc: StorageClass, file: FileMeta, invert: Matrix -> Option<Matrix>,
                 ghost content: seq<Byte>)
    returns (read: bool, bytes: seq<Byte>)
    requires agents.Valid() && sc.Valid() && SoundInverter(invert, sc.code.k) && Complete(invert, sc.code)
    requires FileStored(agents.store, sc, file, content)
    ensures read && bytes == content
  {
    hide FileStored, FileListed, Complete, RangeStored, Reader.Blocked, EnoughUp, Stripes, StripeAt, EndStripe, Honest,
      SoundInverter, Serves, Replies, StorageClass.StripeSize;
    StoredIsListed(agents.store, sc, file, content);
    SizesOf(sc, file, content);
    var alive := seq(|file.chunks|, _ => true);
    var reader := Reader(Replies(agents.store), agents.verify, alive, invert, 0);
    RepliesServe(agents.store, agents.verify, sc.md5);
    var size;
    if file.size == 0 {
      return true, [];
    }
    var buffer := new Byte[file.size](_ => Zero);
    ghost var start, end := StripeAt(0, sc.StripeSize()), EndStripe(|content|, sc.StripeSize(), 0, file.size, false);
    read, size := ReadFile(sc, file, 0, file.size, false, buffer, reader, 0, agents.store, content);
    if start <= end {
      AllUp(agents.store, sc, file, content, alive, start, end);
      NeverBlocked(agents.store, sc, file, content, reader, start, end);
    }
    bytes := buffer[..];
  }

  /**
   Any run of writes, overwrites and appends while all goes well, and a read of the whole file after it. A write
   succeeds; so does a change, unless it starts past the end, or is part of a stripe put after whole stripes but not
   as an append. The bytes read are those of the requests that succeed, in order.
   */
  method RunThenRead(agents: Agents, sc: StorageClass, file: FileMeta, steps: seq<Step>, pick: (nat, nat) -> seq<int>,
                     invert: Matrix -> Option<Matrix>, keepOld: bool, ghost content: seq<Byte>)
    returns (oks: seq<bool>, read: bool, bytes: seq<Byte>, ghost contents: seq<seq<Byte>>)
    requires agents.Valid() && sc.Valid() && sc.md5 == agents.md5 && Healthy(agents.verify, agents.put)
    requires SoundInverter(invert, sc.code.k) && Complete(invert, sc.code)
    requires forall j, s :: sc.code.k <= |pick(j, s)| <= sc.code.n && INVALID_CONTAINER_ID !in pick(j, s)
    requires FileStored(agents.store, sc, file, content) && FileConfirmed(agents.acked, sc, file, content)
    modifies agents
    ensures agents.Valid() && |oks| == |steps| && |contents| == |steps| + 1 && contents[0] == content
    ensures 0 < sc.code.k * sc.maxChunkSize
    ensures forall j :: 0 <= j < |steps| ==>
              Ends(steps[j], oks[j], contents[j], contents[j + 1], sc.code.k * sc.maxChunkSize)
    ensures read && bytes == contents[|steps|]
  {
    hide FileStored, FileConfirmed, FileListed, Durable, Serviced, Complete, Healthy, Ends, Fair, World.Valid,
      World.ReaderAt, Next, RangeStored, Reader.Blocked, Reader.Valid, EnoughUp, Stripes, StripeAt, EndStripe, Honest,
      SoundInverter;
    SizeIsPositive(sc);
    var world := Fair(pick, invert, keepOld);
    FairIsValid(pick, invert, keepOld, sc, agents.verify);
    var file';
    ghost var trace;
    oks, file', trace := Run(agents, sc, file, steps, world, content);
    HealthyTrace(agents, agents.acked, pick, invert, keepOld, sc, steps, oks, trace, |steps|);
    contents := seq(|trace|, j requires 0 <= j < |trace| => trace[j].content);
    read, bytes := ReadAll(agents, sc, file', invert, contents[|steps|]);
  }

  /** Agents that store and acknowledge every chunk sent to a container. */
  function KeepsAll(r: PutRequest): PutReply {
    var placed := r.container != INVALID_CONTAINER_ID;
    PutReply(placed, true, r.container, r.chunk.md5, if placed then Some(r.data) else None)
  }

  lemma KeepsAllIsHealthy(verify: bool)
    ensures Honest(verify, KeepsAll) && Healthy(verify, KeepsAll)
  {
  }

  /** A file of no bytes needs no chunks. */
  lemma NothingIsStored(acked: set<PutRequest>, store: Store, sc: StorageClass)
    requires sc.Valid()
    ensures FileStored(store, sc, FileMeta(0, 0, 0, [], []), [])
    ensures FileConfirmed(acked, sc, FileMeta(0, 0, 0, [], []), [])
  {
    SizeIsPositive(sc);
  }

  /** The same from an empty file, with agents that keep everything. */
  method FromScratch(sc: StorageClass, verify: bool, steps: seq<Step>, pick: (nat, nat) -> seq<int>,
                     invert: Matrix -> Option<Matrix>, keepOld: bool)
    returns (oks: seq<bool>, read: bool, bytes: seq<Byte>, ghost contents: seq<seq<Byte>>)
    requires sc.Valid() && SoundInverter(invert, sc.code.k) && Complete(invert, sc.code)
    requires forall j, s :: sc.code.k <= |pick(j, s)| <= sc.code.n && INVALID_CONTAINER_ID !in pick(j, s)
    ensures |oks| == |steps| && |contents| == |steps| + 1 && contents[0] == []
    ensures 0 < sc.code.k * sc.maxChunkSize
    ensures forall j :: 0 <= j < |steps| ==>
              Ends(steps[j], oks[j], contents[j], contents[j + 1], sc.code.k * sc.maxChunkSize)
    ensures read && bytes == contents[|steps|]
  {
    hide FileStored, FileConfirmed, Complete, Healthy, Honest, SoundInverter, Ends, KeepsAll, StorageClass.Valid;
    KeepsAllIsHealthy(verify);
    var agents := new Agents(verify, sc.md5, KeepsAll, _ => Unchanged, _ => map[]);
    NothingIsStored(agents.acked, agents.store, sc);
    oks, read, bytes, contents := RunThenRead(agents, sc, FileMeta(0, 0, 0, [], []), steps, pick, invert, keepOld, []);
  }
}
