/**
 Runs of file operations in which some fail, src/proxy/proxy_file_ops.cc: the metadata always describes
 chunks that were acknowledged, and a failure harms no other stripes than those it was writing.
 */
module FileRun {
  import opened Wrappers
  import opened Gf256
  import opened Linear
  import opened ReedSolomon
  import opened ChunkAccess
  import opened Striping
  import opened StripeWrite
  import opened FileRead
  import opened FileWrite
  import opened FileModify

  /** Reads back a file that was just written: the bytes are the same, if enough chunks answer. */
  method WriteThenRead(agents: Agents, sc: StorageClass, data: seq<Byte>, pick: nat -> seq<int>, buffer: array<Byte>,
                       serve: Store -> (Event -> Delivery), alive: nat -> seq<bool>, invert: Matrix -> Option<Matrix>)
    returns (written: bool, read: bool, file: FileMeta, reader: Reader)
    requires agents.Valid() && sc.Valid() && sc.md5 == agents.md5 && Picks(pick, sc.code.n)
    requires SoundInverter(invert, sc.code.k)
    requires buffer.Length == |data| > 0
    requires forall store :: Serves(serve(store), store, agents.verify, sc.md5)
    requires forall count: nat :: |alive(count)| == count
    modifies agents, buffer
    ensures reader == Reader(serve(agents.store), agents.verify, alive(|file.chunks|), invert, 0)
    ensures written && read ==> buffer[..] == data
    ensures Willing(agents, pick, sc.code.k) ==> written
    ensures written ==> read || reader.Blocked(sc, file, 0, file.numStripes)
  {
    hide FileStored, FileConfirmed, FileListed, RangeStored, Reader.Blocked, Serves, SoundInverter, Picks, Willing,
      Honest, StorageClass.StripeSize;
    var size;
    read := false;
    written, file := WriteFile(agents, sc, 0, data, pick);
    reader := Reader(serve(agents.store), agents.verify, alive(|file.chunks|), invert, 0);
    if written {
      StoredIsListed(agents.store, sc, file, data);
      SizesOf(sc, file, data);
      read, size := ReadFile(sc, file, 0, |data|, false, buffer, reader, 0, agents.store, data);
    }
  }

  /** A request of a client. */
  datatype Step = Write(data: seq<Byte>) | Modify(isAppend: bool, offset: nat, data: seq<Byte>) {
    /** The stripes it writes. */
    function Start(a: nat): nat
      requires a > 0
    {
      if Write? then 0 else StripeAt(offset, a)
    }

    function End(a: nat): nat
      requires a > 0
    {
      Stripes((if Write? then 0 else offset) + |data|, a)
    }

    predicate Writes(s: nat, a: nat)
      requires a > 0
    {
      Start(a) <= s < End(a)
    }

    predicate Acceptable(size: nat, a: nat)
      requires a > 0
    {
      Write? || FileModify.Acceptable(isAppend, offset, |data|, size, a)
    }

    predicate NeedsRead(size: nat, a: nat)
      requires a > 0
    {
      Modify? && FileModify.NeedsRead(isAppend, offset, |data|, size, a)
    }

    /** Stripes that the step has to read cannot be read. */
    ghost predicate Obstructed(reader: Reader, sc: StorageClass, file: FileMeta, size: nat)
      requires sc.Valid() && sc.StripeSize() > 0
    {
      && NeedsRead(size, sc.StripeSize()) && Start(sc.StripeSize()) <= End(sc.StripeSize())
      && reader.Blocked(sc, file, Start(sc.StripeSize()), End(sc.StripeSize()))
    }
  }

  /** What is on record at a point of a run, and what the containers hold. */
  datatype Moment = Moment(file: FileMeta, content: seq<Byte>, store: Store)

  /** Stripe s is stored as the metadata says. */
  ghost predicate Intact(sc: StorageClass, m: Moment, s: nat)
    requires sc.Valid()
  {
    PartStored(m.store, sc, m.file, m.content, s)
  }

  /** The stripes that the step reads, if it reads any, are intact. */
  ghost predicate Clear(sc: StorageClass, m: Moment, step: Step)
    requires sc.Valid() && sc.StripeSize() > 0
  {
    var a := sc.StripeSize();
    step.NeedsRead(|m.content|, a) ==> RangeStored(m.store, sc, m.file, m.content, step.Start(a), step.End(a))
  }

  /** The content is the old one with the data spliced in, but for bytes read from stripes that are not intact. */
  ghost predicate Spliced(sc: StorageClass, m: Moment, content': seq<Byte>, step: Step)
    requires step.Modify? && sc.Valid() && sc.StripeSize() > 0
  {
    var a := sc.StripeSize();
    exists seen :: SameParts(m.content, seen, a, step.Start(a), step.End(a)) && step.offset <= |seen|
                   && (Clear(sc, m, step) ==> seen == m.content)
                   && content' == Splice(seen, step.offset, step.data)
  }

  /** All stripes that were intact, but for start..end-1, are intact. */
  ghost predicate Spares(sc: StorageClass, m: Moment, m': Moment, start: nat, end: nat)
    requires sc.Valid()
  {
    Persist(m.store, m'.store, sc, m.file, m'.file, m.content, m'.content, start, end)
  }

  /** A step that succeeds. */
  ghost predicate Succeeds(sc: StorageClass, step: Step, m: Moment, m': Moment)
    requires sc.Valid() && sc.StripeSize() > 0
  {
    var a := sc.StripeSize();
    if step.Write? then
      && m'.content == step.data && m'.file.version == m.file.version + 1
      && FileStored(m'.store, sc, m'.file, m'.content)
    else
      && step.Acceptable(|m.content|, a) && Spliced(sc, m, m'.content, step)
      && Rewritten(m'.store, sc, m.file, m'.file, m'.content, step.Start(a), step.End(a))
      && Spares(sc, m, m', step.Start(a), step.End(a))
  }

  /**
   A step that fails. What is on record stays. A write of the whole file spares all stripes, a change those it does not
   write; one that is refused changes nothing, nor does one of a single stripe if the agents are tidy.
   */
  ghost predicate Fails(agents: Agents, sc: StorageClass, step: Step, m: Moment, m': Moment)
    requires sc.Valid() && sc.StripeSize() > 0
  {
    var a := sc.StripeSize();
    && m'.file == m.file && m'.content == m.content
    && if step.Write? then Spares(sc, m, m', 0, 0)
       else
         && Spares(sc, m, m', step.Start(a), step.End(a))
         && (!step.Acceptable(|m.content|, a) ==> m'.store == m.store)
         && (Tidy(agents) && step.End(a) == step.Start(a) + 1 && step.Start(a) < m.file.numStripes ==>
               Intact(sc, m, step.Start(a)) ==> m'.store == m.store)
  }

  ghost predicate Next(agents: Agents, sc: StorageClass, step: Step, ok: bool, m: Moment, m': Moment)
    requires sc.Valid() && sc.StripeSize() > 0
  {
    if ok then Succeeds(sc, step, m, m') else Fails(agents, sc, step, m, m')
  }

  /** What the proxy meets at each step of a run: agents that serve what they store, and containers to use. */
  datatype World = World(serve: (nat, Store) -> (Event -> Delivery), alive: (nat, nat) -> seq<bool>,
                         pick: (nat, nat) -> seq<int>, invert: Matrix -> Option<Matrix>, firstId: nat -> nat,
                         keepOld: bool) {
    ghost predicate Valid(sc: StorageClass, verify: bool)
      requires sc.Valid()
    {
      && (forall step, store :: Serves(serve(step, store), store, verify, sc.md5))
      && (forall step, count: nat :: |alive(step, count)| == count)
      && (forall step, s :: |pick(step, s)| <= sc.code.n && INVALID_CONTAINER_ID !in pick(step, s))
      && SoundInverter(invert, sc.code.k)
    }

    /** The reader at a step. */
    function ReaderAt(step: nat, store: Store, verify: bool, file: FileMeta): Reader {
      Reader(serve(step, store), verify, alive(step, |file.chunks|), invert, firstId(step))
    }
  }

  method StepWorld(world: World, sc: StorageClass, agents: Agents, step: nat, file: FileMeta)
    returns (reader: Reader, pick: nat -> seq<int>)
    requires agents.Valid() && sc.Valid() && world.Valid(sc, agents.verify)
    ensures reader == world.ReaderAt(step, agents.store, agents.verify, file) && reader.Valid(agents.store, sc, file)
    ensures Picks(pick, sc.code.n) && forall s :: pick(s) == world.pick(step, s)
  {
    hide Serves, SoundInverter, Honest;
    reader := world.ReaderAt(step, agents.store, agents.verify, file);
    pick := (s: nat) => world.pick(step, s);
  }

  /** A change that fails: with tidy agents one stripe is undone. */
  lemma ChangeFails(agents: Agents, sc: StorageClass, step: Step, m: Moment, m': Moment, content': seq<Byte>)
    requires sc.Valid() && sc.StripeSize() > 0 && step.Modify? && m'.file == m.file && m'.content == m.content
    requires Spares(sc, m, m', step.Start(sc.StripeSize()), step.End(sc.StripeSize()))
    requires !step.Acceptable(|m.content|, sc.StripeSize()) ==> m'.store == m.store
    requires || m'.store == m.store
             || OneFails(agents, m.store, m'.store, sc, m.file, content', step.Start(sc.StripeSize()),
                         step.End(sc.StripeSize()))
    ensures Fails(agents, sc, step, m, m')
  {
    hide Tidy, Sticky, Spoiled, Spares, Stripes, StripeAt, StorageClass.StripeSize, Step.Acceptable;
    if Intact(sc, m, step.Start(sc.StripeSize())) {
      IntactIsPresent(sc, m, step.Start(sc.StripeSize()));
    }
  }

  lemma IntactIsPresent(sc: StorageClass, m: Moment, s: nat)
    requires sc.Valid() && Intact(sc, m, s)
    ensures Present(m.store, m.file, sc.code.n, s)
  {
    hide Encode, Metas, Pos, Group, Part, Placed, StorageClass.StripeSize;
    var n, data := sc.code.n, Part(m.content, sc.StripeSize(), s);
    forall i | 0 <= i < n && Group(m.file.containers, n, s)[i] != INVALID_CONTAINER_ID
      ensures Key(Group(m.file.containers, n, s)[i], m.file.version, Pos(s, n) + i) in m.store
    {
      assert Has(m.store, Key(Group(m.file.containers, n, s)[i], m.file.version, Pos(s, n) + i),
                 Encode(sc.code, data)[i]);
    }
  }

  lemma ChangeSucceeds(sc: StorageClass, step: Step, m: Moment, m': Moment, seen: seq<Byte>)
    requires sc.Valid() && sc.StripeSize() > 0 && step.Modify? && step.offset <= |seen|
    requires step.Acceptable(|m.content|, sc.StripeSize()) && m'.content == Splice(seen, step.offset, step.data)
    requires SameParts(m.content, seen, sc.StripeSize(), step.Start(sc.StripeSize()), step.End(sc.StripeSize()))
    requires Clear(sc, m, step) ==> seen == m.content
    requires Rewritten(m'.store, sc, m.file, m'.file, m'.content, step.Start(sc.StripeSize()),
                       step.End(sc.StripeSize()))
    requires Spares(sc, m, m', step.Start(sc.StripeSize()), step.End(sc.StripeSize()))
    ensures Succeeds(sc, step, m, m')
  {
    hide Clear, SameParts, Rewritten, Spares, Splice, StorageClass.StripeSize, Step.Start, Step.End, Step.Acceptable;
  }

  /** Carries out one request. */
  method TakeStep(agents: Agents, sc: StorageClass, file: FileMeta, step: Step, reader: Reader, pick: nat -> seq<int>,
                  keepOld: bool, ghost content: seq<Byte>)
    returns (ok: bool, file': FileMeta, ghost content': seq<Byte>)
    requires agents.Valid() && sc.Valid() && sc.StripeSize() > 0 && sc.md5 == agents.md5
    requires reader.Valid(agents.store, sc, file) && Picks(pick, sc.code.n)
    requires FileConfirmed(agents.acked, sc, file, content)
    modifies agents
    ensures agents.Valid() && old(agents.acked) <= agents.acked && FileConfirmed(agents.acked, sc, file', content')
    // it succeeds when the agents acknowledge, and the stripes it reads can be read
    ensures Willing(agents, pick, sc.code.k) && step.Acceptable(|content|, sc.StripeSize()) ==>
              ok || step.Obstructed(reader, sc, file, |content|)
    ensures Next(agents, sc, step, ok, Moment(file, content, old(agents.store)),
                 Moment(file', content', agents.store))
  {
    hide Clear, FileConfirmed, FileStored, PartStored, Reader.Valid, Reader.Blocked, Rewritten, SameParts,
      RangeStored, OneFails, Splice, Picks, Willing, FileModify.Acceptable, FileModify.NeedsRead, Honest, Tidy, Stripes,
      StripeAt, StorageClass.StripeSize;
    ghost var m := Moment(file, content, agents.store);
    match step {
      case Write(data) =>
        ok, file' := ReplaceFile(agents, sc, file, data, pick, keepOld, content);
        content' := if ok then data else content;
      case Modify(isAppend, offset, data) =>
        var a;
        ghost var seen, wrote;
        ok, file', a, seen, wrote := ModifyFile(agents, sc, file, isAppend, offset, data, pick, reader, content);
        content' := if ok then Splice(seen, offset, data) else content;
        ghost var m' := Moment(file', content', agents.store);
        if ok {
          ClearMeans(sc, m, step);
          ChangeSucceeds(sc, step, m, m', seen);
        } else {
          ChangeFails(agents, sc, step, m, m', if wrote then Splice(seen, offset, data) else content);
        }
    }
  }

  lemma ClearMeans(sc: StorageClass, m: Moment, step: Step)
    requires sc.Valid() && sc.StripeSize() > 0
    ensures Clear(sc, m, step) ==>
              || !step.NeedsRead(|m.content|, sc.StripeSize())
              || RangeStored(m.store, sc, m.file, m.content, step.Start(sc.StripeSize()), step.End(sc.StripeSize()))
  {
  }

  /** The moments of a run in which step j ends as oks[j] says. */
  ghost predicate Trace(agents: Agents, sc: StorageClass, steps: seq<Step>, oks: seq<bool>, trace: seq<Moment>) {
    && sc.Valid() && sc.StripeSize() > 0 && |oks| == |steps| && |trace| == |steps| + 1
    && forall j :: 0 <= j < |steps| ==> Next(agents, sc, steps[j], oks[j], trace[j], trace[j + 1])
  }

  /** The metadata of the file at every moment: acknowledged chunks, and at least k containers for every stripe. */
  ghost predicate Lasting(acked: set<PutRequest>, sc: StorageClass, trace: seq<Moment>) {
    forall j :: 0 <= j < |trace| ==>
      && FileConfirmed(acked, sc, trace[j].file, trace[j].content)
      && Durable(trace[j].file, sc.code.n, sc.code.k)
  }

  /**
   An acceptable step succeeds when the agents acknowledge, there are containers, and the stripes that it reads can be
   read.
   */
  ghost predicate Serviced(agents: Agents, world: World, sc: StorageClass, j: nat, step: Step, ok: bool, m: Moment)
    requires sc.Valid() && sc.StripeSize() > 0
  {
    Healthy(agents.verify, agents.put) && (forall s :: |world.pick(j, s)| >= sc.code.k)
    && step.Acceptable(|m.content|, sc.StripeSize()) ==>
      ok || step.Obstructed(world.ReaderAt(j, m.store, agents.verify, m.file), sc, m.file, |m.content|)
  }

  lemma IsServiced(agents: Agents, world: World, sc: StorageClass, j: nat, step: Step, ok: bool, m: Moment,
                   pick: nat -> seq<int>)
    requires sc.Valid() && sc.StripeSize() > 0 && forall s :: pick(s) == world.pick(j, s)
    requires Willing(agents, pick, sc.code.k) && step.Acceptable(|m.content|, sc.StripeSize()) ==>
               ok || step.Obstructed(world.ReaderAt(j, m.store, agents.verify, m.file), sc, m.file, |m.content|)
    ensures Serviced(agents, world, sc, j, step, ok, m)
  {
    hide Healthy, Step.Acceptable, Step.Obstructed;
  }

  lemma LastingExtends(acked: set<PutRequest>, acked': set<PutRequest>, sc: StorageClass, trace: seq<Moment>, m: Moment)
    requires Lasting(acked, sc, trace) && acked <= acked' && FileConfirmed(acked', sc, m.file, m.content)
    ensures Lasting(acked', sc, trace + [m])
  {
    hide FileConfirmed, FileListed, Durable;
    var trace' := trace + [m];
    forall j | 0 <= j < |trace'|
      ensures FileConfirmed(acked', sc, trace'[j].file, trace'[j].content)
      ensures Durable(trace'[j].file, sc.code.n, sc.code.k)
    {
      if j < |trace| {
        FileStaysConfirmed(acked, acked', sc, trace[j].file, trace[j].content);
      }
      ConfirmedIsListed(acked', sc, trace'[j].file, trace'[j].content);
      ListedIsDurable(sc, trace'[j].file, trace'[j].content);
    }
  }

  lemma TraceExtends(agents: Agents, sc: StorageClass, steps: seq<Step>, oks: seq<bool>, trace: seq<Moment>, step: Step,
                     ok: bool, m: Moment)
    requires Trace(agents, sc, steps, oks, trace) && Next(agents, sc, step, ok, trace[|steps|], m)
    ensures Trace(agents, sc, steps + [step], oks + [ok], trace + [m])
  {
    hide Next, StorageClass.Valid, StorageClass.StripeSize;
    var steps', oks', trace' := steps + [step], oks + [ok], trace + [m];
    forall j | 0 <= j < |steps'|
      ensures Next(agents, sc, steps'[j], oks'[j], trace'[j], trace'[j + 1])
    {
      if j < |steps| {
        assert Next(agents, sc, steps[j], oks[j], trace[j], trace[j + 1]);
      }
    }
  }

  /**
   A run of writes, overwrites and appends, some of which may fail at any point. After every step the
   metadata lists acknowledged chunks of the content on record in at least k containers for each stripe. A
   failed step leaves it as it was, and a change moves no stripe.
   */
  method Run(agents: Agents, sc: StorageClass, file: FileMeta, steps: seq<Step>, world: World, ghost content: seq<Byte>)
    returns (oks: seq<bool>, file': FileMeta, ghost trace: seq<Moment>)
    requires agents.Valid() && sc.Valid() && sc.md5 == agents.md5 && world.Valid(sc, agents.verify)
    requires FileConfirmed(agents.acked, sc, file, content)
    modifies agents
    ensures agents.Valid() && Trace(agents, sc, steps, oks, trace)
    ensures trace[0] == Moment(file, content, old(agents.store))
    ensures trace[|steps|].file == file' && trace[|steps|].store == agents.store
    ensures forall j :: 0 <= j < |steps| ==> Serviced(agents, world, sc, j, steps[j], oks[j], trace[j])
    // with agents that acknowledge: writes succeed, and changes within the file or appends at its end that can read
    ensures forall j :: 0 <= j < |steps| && Healthy(agents.verify, agents.put)
                        && (forall s :: |world.pick(j, s)| >= sc.code.k) ==>
              && (steps[j].Write? ==> oks[j])
              && (steps[j].Modify? && (|| steps[j].offset < |trace[j].content|
                                       || (steps[j].isAppend && steps[j].offset == |trace[j].content|)) ==>
                    oks[j] || steps[j].Obstructed(world.ReaderAt(j, trace[j].store, agents.verify, trace[j].file), sc,
                                                  trace[j].file, |trace[j].content|))
    ensures forall j :: 0 <= j < |steps| && steps[j].Modify? && steps[j].offset > |trace[j].content| ==> !oks[j]
    ensures Lasting(agents.acked, sc, trace)
    // when nothing fails, the file has the content of all changes applied in order
    ensures FileStored(old(agents.store), sc, file, content) && (forall j :: 0 <= j < |oks| ==> oks[j]) ==>
              FileStored(agents.store, sc, file', Applied(content, steps, oks))
  {
    hide FileStored, FileConfirmed, Lasting, Next, Serviced, World.Valid, World.ReaderAt, Picks, Willing, Honest,
      Step.Acceptable, Step.Obstructed, StorageClass.StripeSize, Reader.Valid, Durable;
    SizeIsPositive(sc);
    ghost var store0 := agents.store;
    oks, file', trace := [], file, [Moment(file, content, agents.store)];
    NothingYet(agents.acked, sc);
    LastingExtends(agents.acked, agents.acked, sc, [], trace[0]);
    assert [] + [trace[0]] == trace;
    for j := 0 to |steps|
      invariant agents.Valid() && Trace(agents, sc, steps[..j], oks, trace)
      invariant trace[0] == Moment(file, content, store0) && trace[j].file == file' && trace[j].store == agents.store
      invariant forall x :: 0 <= x < j ==> Serviced(agents, world, sc, x, steps[x], oks[x], trace[x])
      invariant Lasting(agents.acked, sc, trace) && FileConfirmed(agents.acked, sc, file', trace[j].content)
    {
      var reader, pick := StepWorld(world, sc, agents, j, file');
      ghost var m, acked := trace[j], agents.acked;
      var ok, next;
      ghost var content';
      ok, next, content' := TakeStep(agents, sc, file', steps[j], reader, pick, world.keepOld, m.content);
      IsServiced(agents, world, sc, j, steps[j], ok, m, pick);
      ghost var m' := Moment(next, content', agents.store);
      TraceExtends(agents, sc, steps[..j], oks, trace, steps[j], ok, m');
      LastingExtends(acked, agents.acked, sc, trace, m');
      assert steps[..j + 1] == steps[..j] + [steps[j]];
      oks, file', trace := oks + [ok], next, trace + [m'];
    }
    assert steps[..|steps|] == steps;
    forall j | 0 <= j < |steps| {
      ServicedMeans(agents, world, sc, j, steps[j], oks[j], trace[j], trace[j + 1]);
    }
    if FileStored(store0, sc, file, content) && forall j :: 0 <= j < |oks| ==> oks[j] {
      NothingFailed(agents, agents.acked, sc, steps, oks, trace, |steps|);
    }
  }

  lemma ServicedMeans(agents: Agents, world: World, sc: StorageClass, j: nat, step: Step, ok: bool, m: Moment,
                      m': Moment)
    requires sc.Valid() && sc.StripeSize() > 0 && Serviced(agents, world, sc, j, step, ok, m)
    requires Next(agents, sc, step, ok, m, m')
    ensures Healthy(agents.verify, agents.put) && (forall s :: |world.pick(j, s)| >= sc.code.k) ==>
              && (step.Write? ==> ok)
              && (step.Modify? && (step.offset < |m.content| || (step.isAppend && step.offset == |m.content|)) ==>
                    ok || step.Obstructed(world.ReaderAt(j, m.store, agents.verify, m.file), sc, m.file, |m.content|))
    ensures step.Modify? && step.offset > |m.content| ==> !ok
  {
    hide Healthy, Spliced, Rewritten, Spares, FileStored, Fails, StorageClass.StripeSize, StorageClass.Valid,
      Reader.Blocked, World.ReaderAt;
  }

  lemma NothingYet(acked: set<PutRequest>, sc: StorageClass)
    ensures Lasting(acked, sc, [])
  {
  }

  /**
   A container that a file on record lists for a chunk acknowledged it, with its checksum if checksums are verified.
   */
  lemma ListedIsAcknowledged(agents: Agents, sc: StorageClass, file: FileMeta, content: seq<Byte>, s: nat, i: nat)
    requires agents.Valid() && FileConfirmed(agents.acked, sc, file, content) && s < file.numStripes && i < sc.code.n
    ensures PartFound(sc, file, content, s)
    ensures var container, meta := Group(file.containers, sc.code.n, s)[i], Group(file.chunks, sc.code.n, s)[i];
            container != INVALID_CONTAINER_ID ==>
              exists r :: r in agents.acked && r.container == agents.put(r).container == container
                          && r.data == Encode(sc.code, Part(content, sc.StripeSize(), s))[i]
                          && meta.md5 == sc.md5(r.data) && (agents.verify ==> agents.put(r).md5 == meta.md5)
  {
    hide Encode, Part, Pos, Stripes, Group, Placed, StorageClass.StripeSize;
    assert PartConfirmed(agents.acked, sc, file, content, s);
    var data, metas := Part(content, sc.StripeSize(), s), Group(file.chunks, sc.code.n, s);
    var containers := Group(file.containers, sc.code.n, s);
    if containers[i] != INVALID_CONTAINER_ID {
      assert Confirmed(agents.acked, containers[i], metas[i], Encode(sc.code, data)[i]);
    }
  }

  /** The content after the steps that succeed. */
  ghost function Applied(content: seq<Byte>, steps: seq<Step>, oks: seq<bool>): seq<Byte>
    requires |steps| == |oks|
  {
    if steps == [] then content
    else
      var last := |steps| - 1;
      var before := Applied(content, steps[..last], oks[..last]);
      if !oks[last] then before
      else if steps[last].Write? then steps[last].data
      else if steps[last].offset <= |before| then Splice(before, steps[last].offset, steps[last].data)
      else before
  }

  /**
   The content on record is that of the steps that succeed, in order, as long as the stripes that these read are
   intact.
   */
  lemma {:induction false} ContentOnRecord(agents: Agents, sc: StorageClass, steps: seq<Step>, oks: seq<bool>,
                                           trace: seq<Moment>, i: nat, j: nat)
    requires Trace(agents, sc, steps, oks, trace) && i <= j <= |steps|
    requires forall x :: i <= x < j && oks[x] ==> Clear(sc, trace[x], steps[x])
    ensures trace[j].content == Applied(trace[i].content, steps[i..j], oks[i..j])
    decreases j
  {
    hide Splice, Clear, SameParts, Rewritten, Spares, FileStored, Fails, Step.Acceptable, StorageClass.StripeSize,
      StorageClass.Valid;
    if i < j {
      ContentOnRecord(agents, sc, steps, oks, trace, i, j - 1);
      assert Next(agents, sc, steps[j - 1], oks[j - 1], trace[j - 1], trace[j]);
      ContentStays(agents, sc, steps[j - 1], trace[j - 1], trace[j]);
      assert steps[i..j][..j - 1 - i] == steps[i..j - 1] && oks[i..j][..j - 1 - i] == oks[i..j - 1];
    }
  }

  lemma ContentStays(agents: Agents, sc: StorageClass, step: Step, m: Moment, m': Moment)
    requires sc.Valid() && sc.StripeSize() > 0
    ensures Fails(agents, sc, step, m, m') ==> m'.content == m.content && m'.file == m.file
  {
  }

  /** The step stores stripe s anew. */
  predicate Heals(step: Step, ok: bool, s: nat, a: nat)
    requires a > 0
  {
    ok && (step.Write? || step.Writes(s, a))
  }

  /** The step fails while it is writing stripe s: an acceptable change, and it changes what the containers hold. */
  ghost predicate Harms(sc: StorageClass, step: Step, ok: bool, m: Moment, m': Moment, s: nat)
    requires sc.Valid() && sc.StripeSize() > 0
  {
    && step.Modify? && !ok && step.Acceptable(|m.content|, sc.StripeSize()) && step.Writes(s, sc.StripeSize())
    && m'.store != m.store
  }

  /** Step i failed while writing stripe s, and none of those up to j has stored it since. */
  ghost predicate Harmed(sc: StorageClass, steps: seq<Step>, oks: seq<bool>, trace: seq<Moment>, s: nat, i: nat, j: nat)
    requires sc.Valid() && sc.StripeSize() > 0 && j <= |steps| == |oks| < |trace|
  {
    && i < j && Harms(sc, steps[i], oks[i], trace[i], trace[i + 1], s)
    && forall x :: i < x < j ==> !Heals(steps[x], oks[x], s, sc.StripeSize())
  }

  /**
   A stripe on record that a step stores is intact; one that was intact, or is new, is lost only to a failed change.
   */
  lemma StepLoses(agents: Agents, sc: StorageClass, step: Step, ok: bool, m: Moment, m': Moment, s: nat)
    requires sc.Valid() && sc.StripeSize() > 0 && Next(agents, sc, step, ok, m, m') && s < m'.file.numStripes
    ensures Heals(step, ok, s, sc.StripeSize()) ==> Intact(sc, m', s)
    ensures (s < m.file.numStripes ==> Intact(sc, m, s)) && !Intact(sc, m', s) ==> Harms(sc, step, ok, m, m', s)
  {
    hide PartStored, Spliced, Merged, Stripes, StripeAt, StorageClass.StripeSize, StorageClass.Valid;
  }

  /** A stripe on record that is not stored was being written by a step that failed, and none has stored it since. */
  lemma {:induction false} LostMeans(agents: Agents, sc: StorageClass, steps: seq<Step>, oks: seq<bool>,
                                     trace: seq<Moment>, s: nat, j: nat)
    requires Trace(agents, sc, steps, oks, trace) && j <= |steps|
    requires FileStored(trace[0].store, sc, trace[0].file, trace[0].content)
    requires s < trace[j].file.numStripes && !Intact(sc, trace[j], s)
    ensures exists i: nat :: Harmed(sc, steps, oks, trace, s, i, j)
  {
    hide PartStored, Next, Harms, Heals, Stripes, StorageClass.StripeSize, StorageClass.Valid;
    if j > 0 {
      var m, m' := trace[j - 1], trace[j];
      assert Next(agents, sc, steps[j - 1], oks[j - 1], m, m');
      StepLoses(agents, sc, steps[j - 1], oks[j - 1], m, m', s);
      if s < m.file.numStripes && !Intact(sc, m, s) {
        LostMeans(agents, sc, steps, oks, trace, s, j - 1);
        var i: nat :| Harmed(sc, steps, oks, trace, s, i, j - 1);
        assert Harmed(sc, steps, oks, trace, s, i, j);
      } else {
        assert Harmed(sc, steps, oks, trace, s, j - 1, j);
      }
    }
  }

  /** Up to the first failure the file is stored, and the content is that of all steps. */
  lemma NothingFailed(agents: Agents, acked: set<PutRequest>, sc: StorageClass, steps: seq<Step>, oks: seq<bool>,
                      trace: seq<Moment>, j: nat)
    requires Trace(agents, sc, steps, oks, trace) && Lasting(acked, sc, trace)
    requires FileStored(trace[0].store, sc, trace[0].file, trace[0].content)
    requires j <= |steps| && forall x :: 0 <= x < j ==> oks[x]
    ensures FileStored(trace[j].store, sc, trace[j].file, trace[j].content)
    ensures trace[j].content == Applied(trace[0].content, steps[..j], oks[..j])
    ensures j == |steps| ==> trace[j].content == Applied(trace[0].content, steps, oks)
  {
    hide PartStored, FileConfirmed, Durable, Next, Stripes, Pos, Splice, StorageClass.StripeSize, StorageClass.Valid;
    forall x | 0 <= x <= j
      ensures FileStored(trace[x].store, sc, trace[x].file, trace[x].content)
    {
      AllIntact(agents, acked, sc, steps, oks, trace, x);
    }
    forall x | 0 <= x < j
      ensures Clear(sc, trace[x], steps[x])
    {
      StoredIsListed(trace[x].store, sc, trace[x].file, trace[x].content);
    }
    ContentOnRecord(agents, sc, steps, oks, trace, 0, j);
    assert steps[0..j] == steps[..j] && oks[0..j] == oks[..j];
    assert j == |steps| ==> steps[..j] == steps && oks[..j] == oks;
  }

  lemma AllIntact(agents: Agents, acked: set<PutRequest>, sc: StorageClass, steps: seq<Step>, oks: seq<bool>,
                  trace: seq<Moment>, j: nat)
    requires Trace(agents, sc, steps, oks, trace) && Lasting(acked, sc, trace)
    requires FileStored(trace[0].store, sc, trace[0].file, trace[0].content)
    requires j <= |steps| && forall x :: 0 <= x < j ==> oks[x]
    ensures FileStored(trace[j].store, sc, trace[j].file, trace[j].content)
  {
    hide PartStored, FileConfirmed, Durable, Next, Stripes, Pos, StorageClass.StripeSize, StorageClass.Valid;
    ShapeOf(acked, sc, trace[j].file, trace[j].content);
    forall s: nat | s < trace[j].file.numStripes
      ensures PartStored(trace[j].store, sc, trace[j].file, trace[j].content, s)
    {
      if !Intact(sc, trace[j], s) {
        LostMeans(agents, sc, steps, oks, trace, s, j);
      }
    }
  }

  /** A stripe one of whose containers has the chunk of other data is not stored. */
  lemma SpoiledIsLost(store: Store, sc: StorageClass, file: FileMeta, content: seq<Byte>, data: seq<Byte>, s: nat)
    requires sc.Valid() && Spoiled(store, sc, file, data, s) && Pos(s, sc.StripeSize()) <= |content|
    requires forall i :: 0 <= i < sc.code.n ==>
               Encode(sc.code, data)[i] != Encode(sc.code, Part(content, sc.StripeSize(), s))[i]
    ensures !PartStored(store, sc, file, content, s)
  {
    hide Encode, Metas, Pos, Group, Part, Placed, StorageClass.StripeSize;
    var n := sc.code.n;
    var i: nat :| i < n && Group(file.containers, n, s)[i] != INVALID_CONTAINER_ID
                  && Has(store, Key(Group(file.containers, n, s)[i], file.version, Pos(s, n) + i),
                         Encode(sc.code, data)[i]);
  }

  /** One chunk for one byte. */
  const COPY := StorageClass(Code(1, 1, [[One]]), 1, _ => [])

  lemma CopyIsData(b: Byte)
    ensures COPY.Valid() && COPY.StripeSize() == 1 && Encode(COPY.code, [b]) == [[b]]
  {
    assert Unit(1, 0) == [One];
    assert ChunkSize(1, 1) == 1 && Padded([b], 1) == [b];
    assert Chop([b], 1, 1) == [[b]];
  }

  /** Agents that store all they get, and return a checksum that only the chunk of a zero has. */
  function ZeroOnly(r: PutRequest): PutReply {
    var placed := r.container != INVALID_CONTAINER_ID;
    PutReply(placed, true, r.container, if r.data == [Zero] then [] else [Zero], if placed then Some(r.data) else None)
  }

  /** A stripe makes a file. */
  lemma StripeIsFile(acked: set<PutRequest>, store: Store, sc: StorageClass, version: nat, data: seq<Byte>,
                     metas: seq<ChunkMeta>, containers: seq<int>)
    requires sc.Valid() && 0 < |data| <= sc.StripeSize()
    requires StripeStored(store, sc, version, data, 0, metas, containers)
    requires StripeConfirmed(acked, sc, version, data, 0, metas, containers)
    ensures var file := FileMeta(version, |data|, 1, metas, containers);
            FileStored(store, sc, file, data) && FileConfirmed(acked, sc, file, data)
  {
    var file, a, n := FileMeta(version, |data|, 1, metas, containers), sc.StripeSize(), sc.code.n;
    PosNext(0, a);
    PosNext(0, n);
    StripesCover(|data|, a);
    PosReflects(Stripes(|data|, a), 1, a);
    assert Part(data, a, 0) == data;
    assert Group(metas, n, 0) == metas && Group(containers, n, 0) == containers;
    hide StripeStored, StripeConfirmed, Stripes, Pos, Part, Group, StorageClass.StripeSize;
    assert PartStored(store, sc, file, data, 0) && PartConfirmed(acked, sc, file, data, 0);
  }

  lemma ZeroOnlyIsHonest()
    ensures Honest(true, ZeroOnly)
  {
  }

  /** The file on record is one zero, in container 7. */
  method StoreZero() returns (agents: Agents, file: FileMeta)
    ensures fresh(agents) && agents.Valid() && agents.put == ZeroOnly && agents.verify && agents.md5 == COPY.md5
    ensures COPY.Valid() && FileStored(agents.store, COPY, file, [Zero])
    ensures FileConfirmed(agents.acked, COPY, file, [Zero]) && file.version == 0 && |file.chunks| == 1
  {
    hide Encode, Metas, SameOutside, Undoable, Traceless, COPY, Honest, FileStored, FileConfirmed, ZeroOnly;
    CopyIsData(Zero);
    CopyShape();
    ZeroOnlyIsHonest();
    agents := new Agents(true, COPY.md5, ZeroOnly, _ => Unchanged, _ => map[]);
    ghost var event := agents.nextEvent;
    var ok, containers, metas := WriteFileStripe(agents, COPY.code, 0, [Zero], 0, 1, [7], false, 0);
    ZeroIsWritten(agents, event, metas);
    assert containers == [7];
    StripeIsFile(agents.acked, agents.store, COPY, 0, [Zero], metas, containers);
    file := FileMeta(0, 1, 1, metas, containers);
  }

  lemma ZeroIsWritten(agents: Agents, event: nat, metas: seq<ChunkMeta>)
    requires agents.put == ZeroOnly && COPY.Valid() && metas == Metas(COPY.md5, COPY.code, [Zero], 0, 0)
    requires Encode(COPY.code, [Zero]) == [[Zero]] && |metas| == 1
    ensures Written(agents, event, [7], metas, Encode(COPY.code, [Zero]), 0)
  {
    hide Encode;
    assert metas[0].md5 == [];
  }

  lemma CopyShape()
    ensures COPY.code.n == COPY.code.k == 1 && Pos(0, 1) == 0 && Stripes(1, 1) == 1
    ensures forall c :: COPY.md5(c) == []
  {
  }

  lemma OnePart(b: Byte)
    ensures Pos(0, 1) == 0 && Part([b], 1, 0) == [b] && StripeAt(0, 1) == 0 && Stripes(1, 1) == 1
    ensures !NeedsRead(false, 0, 1, 1, 1) && Acceptable(false, 0, 1, 1, 1)
  {
  }

  lemma OnlyContainer(containers: seq<int>)
    requires |containers| == 1 && Placed(containers) >= 1
    ensures containers[0] != INVALID_CONTAINER_ID
  {
    assert containers[..0] == [];
  }

  /** Nothing but zeros is acknowledged, so no file with another byte is on record. */
  lemma OnlyZeroOnRecord(agents: Agents, file: FileMeta)
    requires agents.Valid() && agents.put == ZeroOnly && agents.verify
    ensures !FileConfirmed(agents.acked, COPY, file, [One])
  {
    hide Encode, Metas, Honest, Pos, Stripes, Part, Group, Placed, COPY, StorageClass.StripeSize, StorageClass.Valid;
    CopyIsData(One);
    CopyShape();
    OnePart(One);
    if FileConfirmed(agents.acked, COPY, file, [One]) {
      ListedIsAcknowledged(agents, COPY, file, [One], 0, 0);
      assert PartConfirmed(agents.acked, COPY, file, [One], 0);
      OnlyContainer(Group(file.containers, 1, 0));
    }
  }

  lemma SpliceOne()
    ensures Splice([Zero], 0, [One]) == [One]
  {
  }

  lemma ZeroOnlyIsSticky(agents: Agents)
    requires agents.put == ZeroOnly
    ensures Sticky(agents)
  {
  }

  /** What the failed overwrite of one zero by a one leaves behind. */
  lemma OneSpoils(agents: Agents, before: Store, after: Store, file: FileMeta)
    requires COPY.Valid() && Sticky(agents) && file.numStripes == 1
    requires OneFails(agents, before, after, COPY, file, Splice([Zero], 0, [One]), 0, 1)
    ensures !PartStored(after, COPY, file, [Zero], 0)
  {
    hide Sticky, Tidy, Spoiled, PartStored, Encode, COPY;
    CopyIsData(Zero);
    CopyIsData(One);
    CopyShape();
    OnePart(Zero);
    OnePart(One);
    assert Splice([Zero], 0, [One]) == [One];
    SpoiledIsLost(after, COPY, file, [Zero], [One], 0);
  }

  /**
   A failed overwrite can lose a stripe: the zero on record is overwritten with a one, which the agent stores but does
   not acknowledge.
   */
  method OverwriteLoses() returns (agents: Agents, file: FileMeta, ok: bool)
    ensures COPY.Valid() && !ok && FileConfirmed(agents.acked, COPY, file, [Zero])
    ensures file.numStripes == 1 && !PartStored(agents.store, COPY, file, [Zero], 0)
  {
    hide COPY, FileConfirmed, FileStored, FileListed, PartStored, Honest, Willing, Reader.Blocked, Stripes, StripeAt,
      NeedsRead, Acceptable, SameParts, RangeStored, Rewritten, Persist, OneFails, Sticky, ZeroOnly, Splice,
      StorageClass.StripeSize, StorageClass.Valid;
    agents, file := StoreZero();
    CopyIsData(Zero);
    CopyShape();
    OnePart(Zero);
    ShapeOf(agents.acked, COPY, file, [Zero]);
    var reader := Reader(_ => Delivery(false, Idle), true, [true], _ => None, 0);
    var file', a;
    ghost var seen, wrote;
    ghost var before := agents.store;
    StoredIsListed(before, COPY, file, [Zero]);
    ok, file', a, seen, wrote := ModifyFile(agents, COPY, file, false, 0, [One], _ => [7], reader, [Zero]);
    SpliceOne();
    OnlyZeroOnRecord(agents, file');
    ZeroOnlyIsSticky(agents);
    OneSpoils(agents, before, agents.store, file);
  }
}
