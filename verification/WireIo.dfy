/**
 Sending and receiving chunk events frame by frame, src/common/io.cc. Each frame is sent with or
 without the flag that more frames follow; the receiver sees one message up to a frame without it.
 */
module WireIo {
  import opened Wrappers
  import opened Octets
  import opened Wire

  datatype Frame = Frame(payload: Payload, more: bool)

  function Payloads(frames: seq<Frame>): (ps: seq<Payload>)
    ensures |ps| == |frames|
  {
    seq(|frames|, i requires 0 <= i < |frames| => frames[i].payload)
  }

  lemma PayloadsConcat(a: seq<Frame>, b: seq<Frame>)
    ensures Payloads(a + b) == Payloads(a) + Payloads(b)
  {
  }

  /** The flag is set on every frame. */
  ghost predicate Open(frames: seq<Frame>) {
    forall i :: 0 <= i < |frames| ==> frames[i].more
  }

  /** The flag is set on exactly the frames that are not the last. */
  ghost predicate WellFramed(frames: seq<Frame>) {
    forall i :: 0 <= i < |frames| ==> frames[i].more == (i + 1 < |frames|)
  }

  /** Some frame before the last one ends the message. */
  ghost predicate Broken(frames: seq<Frame>) {
    exists i :: 0 <= i && i + 1 < |frames| && !frames[i].more
  }

  lemma FramesJoin(a: seq<Frame>, b: seq<Frame>)
    requires Open(a)
    ensures Payloads(a + b) == Payloads(a) + Payloads(b)
    ensures Open(b) ==> Open(a + b)
    ensures b != [] && WellFramed(b) ==> WellFramed(a + b)
    ensures Broken(b) ==> Broken(a + b)
  {
    if Broken(b) {
      var i :| 0 <= i && i + 1 < |b| && !b[i].more;
      assert !(a + b)[|a| + i].more;
    }
  }

  /** The events whose messages are framed correctly. */
  predicate Framed(e: Event) {
    !(HasContainerIds(e.opcode) && e.numChunks == 0) && !(HasRepairInfo(e.opcode) && e.codingState == [])
  }

  method SendStamps(xs: seq<int>, moreAfter: bool) returns (frames: seq<Frame>)
    requires (forall i :: 0 <= i < |xs| ==> Fits(xs[i], 8)) && xs != []
    ensures Payloads(frames) == PrintStamps(xs) && frames != []
    ensures if moreAfter then Open(frames) else WellFramed(frames)
  {
    hide PutInt, Fits;
    frames := [];
    for i := 0 to |xs|
      invariant |frames| == i && Payloads(frames) == PrintStamps(xs)[..i]
      invariant forall j :: 0 <= j < i ==> frames[j].more == (moreAfter || j + 1 < |xs|)
    {
      StampAt(xs, i);
      PayloadsConcat(frames, [Frame(PutInt(xs[i], 8), moreAfter || i + 1 < |xs|)]);
      frames := frames + [Frame(PutInt(xs[i], 8), moreAfter || i + 1 < |xs|)];
    }
  }

  lemma {:induction false} StampAt(xs: seq<int>, i: nat)
    requires (forall i :: 0 <= i < |xs| ==> Fits(xs[i], 8)) && i < |xs|
    ensures PrintStamps(xs)[i] == PutInt(xs[i], 8)
  {
    hide PutInt, Fits;
    if i > 0 {
      StampAt(xs[1..], i - 1);
    }
  }

  /** One chunk; its last frame ends the message when the chunk is the last of a message without coding. */
  method SendChunk(op: nat, c: ChunkInfo, last: bool) returns (frames: seq<Frame>)
    requires ChunkFits(op, c)
    ensures Payloads(frames) == PrintChunk(op, c) && frames != []
    ensures if last && !NeedsCoding(op) then WellFramed(frames) else Open(frames)
  {
    hide PutInt, Fits;
    frames := [
      Frame([c.namespaceId], true), Frame(c.uuid, true), Frame(PutInt(c.chunkId, 4), true),
      Frame(PutInt(c.fileVersion, 4), true), Frame([|c.version|], true)
    ];
    if |c.version| > 0 {
      frames := frames + [Frame(c.version, true)];
    }
    frames := frames + [Frame(c.md5, true), Frame(PutInt(c.size, 4), !(!HasChunkData(op) && !NeedsCoding(op) && last))];
    if HasChunkData(op) {
      frames := frames + [Frame(c.data, !(!NeedsCoding(op) && last))];
    }
    assert Payloads(frames) == HeadFrames(c) + VersionFrames(c) + BodyFrames(op, c);
  }

  lemma {:induction false} ChunksSnoc(op: nat, cs: seq<ChunkInfo>, c: ChunkInfo)
    requires (forall i :: 0 <= i < |cs| ==> ChunkFits(op, cs[i])) && ChunkFits(op, c)
    ensures PrintChunks(op, cs + [c]) == PrintChunks(op, cs) + PrintChunk(op, c)
  {
    hide ChunkFits, PrintChunk;
    if cs == [] {
      assert cs + [c] == [c];
    } else {
      ChunksSnoc(op, cs[1..], c);
      assert (cs + [c])[1..] == cs[1..] + [c];
    }
  }

  method SendChunks(op: nat, cs: seq<ChunkInfo>) returns (frames: seq<Frame>)
    requires forall i :: 0 <= i < |cs| ==> ChunkFits(op, cs[i])
    ensures Payloads(frames) == PrintChunks(op, cs) && (frames == [] <==> cs == [])
    ensures if NeedsCoding(op) then Open(frames) else WellFramed(frames)
  {
    hide ChunkFits, PrintChunk, NeedsCoding;
    frames := [];
    for i := 0 to |cs|
      invariant Payloads(frames) == PrintChunks(op, cs[..i]) && (frames == [] <==> i == 0)
      invariant if NeedsCoding(op) || i < |cs| then Open(frames) else WellFramed(frames)
    {
      var chunk := SendChunk(op, cs[i], i + 1 == |cs|);
      FramesJoin(frames, chunk);
      ChunksSnoc(op, cs[..i], cs[i]);
      assert cs[..i + 1] == cs[..i] + [cs[i]];
      frames := frames + chunk;
    }
    assert cs[..|cs|] == cs;
  }

  method SendTail(op: nat, state: Payload, r: RepairInfo) returns (frames: seq<Frame>)
    requires TailFits(op, state, r) && NeedsCoding(op)
    ensures Payloads(frames) == PrintTail(op, state, r) && frames != []
    ensures if HasRepairInfo(op) && state == [] then Broken(frames) else WellFramed(frames)
  {
    hide PutInt, PutInts, Fits, AllFit;
    frames := [Frame(PutInt(|state|, 4), |state| > 0)];
    if |state| > 0 {
      frames := frames + [Frame(state, HasRepairInfo(op))];
    }
    if HasRepairInfo(op) {
      var repair := [
        Frame([r.coding], true), Frame(PutInt(r.numGroups, 4), true), Frame(PutInt(r.numInputs, 4), true),
        Frame(PutInts(r.chunkMap), true), Frame(PutInts(r.containerMap), true), Frame(r.agents, true),
        Frame([if r.car then 1 else 0], false)
      ];
      assert Payloads(repair) == PrintRepair(r);
      PayloadsConcat(frames, repair);
      if state == [] {
        assert !(frames + repair)[0].more;
      }
      frames := frames + repair;
    }
    assert Payloads(frames) == PrintCoding(state) + if HasRepairInfo(op) then PrintRepair(r) else [];
  }

  /** Everything after the header. */
  method SendData(e: Event) returns (frames: seq<Frame>)
    requires WellFormed(e) && HasData(e.opcode)
    ensures Payloads(frames) == [PutInt(e.numChunks, 4)] + PrintLists(e) && frames != []
    ensures if Framed(e) then WellFramed(frames) else Broken(frames)
  {
    hide PutInt, PutInts, Fits, AllFit, ChunkFits, RepairFits, PrintChunks, PrintTail, HasContainerIds, NeedsCoding,
      HasData;
    frames := [Frame(PutInt(e.numChunks, 4), e.numChunks > 0)];
    if HasContainerIds(e.opcode) {
      frames := frames + [Frame(PutInts(e.containers), true)];
    }
    assert Payloads(frames) == [PutInt(e.numChunks, 4)] + PrintContainers(e.opcode, e.containers);
    var chunks := SendChunks(e.opcode, e.chunks);
    var tail := [];
    if NeedsCoding(e.opcode) {
      tail := SendTail(e.opcode, e.codingState, e.repair);
      FramesJoin(chunks, tail);
    } else {
      NoTail(e);
      assert chunks + tail == chunks;
    }
    PayloadsConcat(chunks, tail);
    PayloadsConcat(frames, chunks + tail);
    CodingHasContainers(e.opcode);
    ChunkCount(e);
    if e.numChunks > 0 {
      FramesJoin(frames, chunks + tail);
    } else if HasContainerIds(e.opcode) {
      assert !(frames + (chunks + tail))[0].more;
    }
    frames := frames + (chunks + tail);
  }

  lemma NoTail(e: Event)
    requires WellFormed(e) && !NeedsCoding(e.opcode)
    ensures PrintTail(e.opcode, e.codingState, e.repair) == [] && !HasRepairInfo(e.opcode)
  {
  }

  lemma CodingHasContainers(op: nat)
    ensures NeedsCoding(op) ==> HasContainerIds(op)
  {
  }

  lemma ChunkCount(e: Event)
    requires WellFormed(e)
    ensures e.chunks == [] <==> e.numChunks == 0
  {
  }

  /** Sends an event. The flags are right exactly for the events that are framed correctly. */
  method SendChunkEvent(e: Event) returns (frames: seq<Frame>)
    requires WellFormed(e)
    ensures Payloads(frames) == Print(e)
    ensures if Framed(e) then WellFramed(frames) else Broken(frames)
    ensures Framed(e) <==> WellFramed(frames)
  {
    hide PutNat, PrintStamps, PrintLists, PutInt, Fits, ChunkFits, RepairFits, AllFit, HasData;
    frames := [Frame(PutNat(e.id, 4), true), Frame(PutNat(e.opcode, 2), true)];
    assert Payloads(frames) == [PutNat(e.id, 4), PutNat(e.opcode, 2)];
    var stamps := SendStamps(e.stamps, HasData(e.opcode));
    FramesJoin(frames, stamps);
    frames := frames + stamps;
    DataFraming(e);
    if HasData(e.opcode) {
      var data := SendData(e);
      FramesJoin(frames, data);
      frames := frames + data;
    }
    BrokenIsNotWellFramed(frames);
  }

  lemma DataFraming(e: Event)
    ensures !HasData(e.opcode) ==> Framed(e)
  {
  }

  lemma BrokenIsNotWellFramed(frames: seq<Frame>)
    ensures !(Broken(frames) && WellFramed(frames))
  {
  }

  /** What the receiver gets as one message. */
  function FirstMessage(frames: seq<Frame>): (ps: seq<Payload>)
    ensures |ps| <= |frames|
  {
    if frames == [] then [] else [frames[0].payload] + if frames[0].more then FirstMessage(frames[1..]) else []
  }

  lemma {:induction false} FirstMessageIs(frames: seq<Frame>)
    ensures FirstMessage(frames) == Payloads(frames)[..|FirstMessage(frames)|]
    ensures WellFramed(frames) ==> FirstMessage(frames) == Payloads(frames)
    ensures Broken(frames) ==> |FirstMessage(frames)| < |frames|
  {
    if frames != [] {
      FirstMessageIs(frames[1..]);
      assert Payloads(frames) == [frames[0].payload] + Payloads(frames[1..]);
      if WellFramed(frames) && frames[0].more {
        assert forall i :: 0 <= i < |frames| - 1 ==> frames[1..][i] == frames[i + 1];
        assert WellFramed(frames[1..]);
      }
      if Broken(frames) && frames[0].more {
        var i :| 0 <= i && i + 1 < |frames| && !frames[i].more;
        assert !frames[1..][i - 1].more;
      }
    }
  }

  /** An event arrives as it was sent exactly when it is framed correctly; otherwise it is rejected. */
  method Transmit(e: Event) returns (received: Option<Event>)
    requires WellFormed(e)
    ensures received == if Framed(e) then Some(e) else None
  {
    hide Parse, Print, WellFramed, Broken, WellFormed, Framed;
    var frames := SendChunkEvent(e);
    FirstMessageIs(frames);
    received := GetChunkEvent(FirstMessage(frames));
    if Framed(e) {
      RoundTrip(e);
    } else {
      TruncatedIsRejected(e, |FirstMessage(frames)|);
    }
  }

  /** An event with all its fields filled in, chunk data, coding state and repair information included. */
  ghost predicate Filled(e: Event) {
    && e.id < Power(4) && e.opcode < Power(2)
    && |e.stamps| == (if e.opcode in {PUT_CHUNK_REQ, GET_CHUNK_REQ, DEL_CHUNK_REQ, CPY_CHUNK_REQ, ENC_CHUNK_REQ,
                                      REG_AGENT_REQ, UPD_AGENT_REQ, SYN_PING, RPR_CHUNK_REQ, CHK_CHUNK_REQ,
                                      MOV_CHUNK_REQ, VRF_CHUNK_REQ}
                      then 2 else 8)
    && (forall i :: 0 <= i < |e.stamps| ==> Fits(e.stamps[i], 8))
    && Fits(e.numChunks, 4) && |e.containers| == e.numChunks && AllFit(e.containers)
    && |e.chunks| == e.numChunks * (if e.opcode in {CPY_CHUNK_REQ, MOV_CHUNK_REQ} then 2 else 1)
    && (forall i :: 0 <= i < |e.chunks| ==> FilledChunk(e.chunks[i]))
    && Fits(|e.codingState|, 4) && RepairFits(e.repair)
  }

  ghost predicate FilledChunk(c: ChunkInfo) {
    && |c.uuid| == UUID_SIZE && |c.md5| == MD5_SIZE && |c.version| < CHUNK_VERSION_MAX_LEN
    && Fits(c.chunkId, 4) && Fits(c.fileVersion, 4) && Fits(c.size, 4) && c.size == |c.data|
  }

  /** What a message with its opcode carries of an event. */
  function Carried(e: Event): (r: Event)
    ensures r.opcode == e.opcode
  {
    if !HasData(e.opcode) then Event(e.id, e.opcode, e.stamps, 0, [], [], [], NO_REPAIR)
    else
      Event(e.id, e.opcode, e.stamps, e.numChunks, if HasContainerIds(e.opcode) then e.containers else [],
            CarriedChunks(e.opcode, e.chunks), if NeedsCoding(e.opcode) then e.codingState else [],
            if HasRepairInfo(e.opcode) then e.repair else NO_REPAIR)
  }

  function CarriedChunks(op: nat, cs: seq<ChunkInfo>): (rs: seq<ChunkInfo>)
    ensures |rs| == |cs|
  {
    seq(|cs|, i requires 0 <= i < |cs| => if HasChunkData(op) then cs[i] else cs[i].(data := []))
  }

  lemma CarriedIsWellFormed(e: Event)
    requires Filled(e)
    ensures WellFormed(Carried(e))
  {
    hide Power, RepairFits, HasChunkData;
    assert Fits(0, 4) by {
      ZeroFits();
    }
    hide Fits;
    forall i | 0 <= i < |Carried(e).chunks|
      ensures ChunkFits(e.opcode, Carried(e).chunks[i])
    {
      assert FilledChunk(e.chunks[i]);
    }
  }

  lemma ZeroFits()
    ensures Fits(0, 4)
  {
    assert Power(4) == 256 * 256 * 256 * 256;
  }

  /**
   An event sent with all its fields arrives with those of its opcode. Failures, and replies to a delete, are a header;
   any other message brings the chunks. Data comes with a put, with the reply to a get and with the reply to an
   encoding request; container ids with all but the replies to encoding and verification; the coding state with
   requests to encode or repair, and the repair information with the latter.
   */
  method TransmitFilled(e: Event) returns (received: Option<Event>)
    requires Filled(e)
    ensures e.opcode in {PUT_CHUNK_REP_FAIL, GET_CHUNK_REP_FAIL, DEL_CHUNK_REP_FAIL, DEL_CHUNK_REP_SUCCESS,
                         ENC_CHUNK_REP_FAIL, CHK_CHUNK_REP_FAIL, VRF_CHUNK_REP_FAIL} ==>
              received == Some(Event(e.id, e.opcode, e.stamps, 0, [], [], [], NO_REPAIR))
    ensures e.opcode !in {PUT_CHUNK_REP_FAIL, GET_CHUNK_REP_FAIL, DEL_CHUNK_REP_FAIL, DEL_CHUNK_REP_SUCCESS,
                          ENC_CHUNK_REP_FAIL, CHK_CHUNK_REP_FAIL, VRF_CHUNK_REP_FAIL}
            && e.numChunks > 0 && (e.opcode == RPR_CHUNK_REQ ==> e.codingState != []) ==>
              && received.Some? && var r := received.value;
                 && r.id == e.id && r.opcode == e.opcode && r.stamps == e.stamps && r.numChunks == e.numChunks
                 && r.containers ==
                      (if e.opcode in {ENC_CHUNK_REP_SUCCESS, VRF_CHUNK_REP_SUCCESS} then [] else e.containers)
                 && |r.chunks| == |e.chunks|
                 && (forall i :: 0 <= i < |e.chunks| ==>
                       r.chunks[i] ==
                         if e.opcode in {PUT_CHUNK_REQ, GET_CHUNK_REP_SUCCESS, ENC_CHUNK_REP_SUCCESS} then e.chunks[i]
                         else e.chunks[i].(data := []))
                 && r.codingState == (if e.opcode in {ENC_CHUNK_REQ, RPR_CHUNK_REQ} then e.codingState else [])
                 && r.repair == if e.opcode == RPR_CHUNK_REQ then e.repair else NO_REPAIR
  {
    hide WellFormed, Filled;
    CarriedIsWellFormed(e);
    received := Transmit(Carried(e));
  }

  method GetStamps(rest0: seq<Payload>, n: nat) returns (ok: bool, xs: seq<int>, rest: seq<Payload>)
    ensures ReadStamps(rest0, n) == if ok then Some((xs, rest)) else None
  {
    hide GetInt;
    xs, rest := [], rest0;
    ghost var all := ReadStamps(rest0, n);
    assert all.Some? ==> [] + all.value.0 == all.value.0;
    for i := 0 to n
      invariant ReadStamps(rest0, n) ==
                  match ReadStamps(rest, n - i) { case None => None case Some((ys, after)) => Some((xs + ys, after)) }
    {
      if rest == [] {
        return false, xs, rest;
      }
      var x := GetInt(rest[0], 8);
      if x.None? {
        return false, xs, rest;
      }
      ghost var later := ReadStamps(rest[1..], n - i - 1);
      assert later.Some? ==> xs + ([x.value] + later.value.0) == xs + [x.value] + later.value.0;
      xs, rest := xs + [x.value], rest[1..];
    }
    assert xs + [] == xs;
    ok := true;
  }

  method GetChunk(op: nat, rest0: seq<Payload>) returns (ok: bool, c: ChunkInfo, rest: seq<Payload>)
    ensures ReadChunk(op, rest0) == if ok then Some((c, rest)) else None
  {
    hide GetInt, GetNat, GetBytes, HasChunkData;
    ok, rest, c := false, rest0, ChunkInfo(0, [], 0, 0, [], [], 0, []);
    var head := ReadHead(rest);
    if head.None? {
      return;
    }
    rest := head.value.1;
    var version := ReadVersion(rest, head.value.0.versionLength);
    if version.None? {
      return;
    }
    rest := version.value.1;
    var body := ReadBody(op, rest);
    if body.None? {
      return;
    }
    var h, b := head.value.0, body.value.0;
    ok, c, rest := true, ChunkInfo(h.namespaceId, h.uuid, h.chunkId, h.fileVersion, version.value.0, b.0, b.1, b.2),
                   body.value.1;
  }

  method GetChunks(op: nat, rest0: seq<Payload>, n: nat) returns (ok: bool, cs: seq<ChunkInfo>, rest: seq<Payload>)
    ensures ReadChunks(op, rest0, n) == if ok then Some((cs, rest)) else None
  {
    hide ReadChunk;
    cs, rest := [], rest0;
    ghost var all := ReadChunks(op, rest0, n);
    assert all.Some? ==> [] + all.value.0 == all.value.0;
    for i := 0 to n
      invariant ReadChunks(op, rest0, n) ==
                  match ReadChunks(op, rest, n - i) {
                    case None => None
                    case Some((ds, after)) => Some((cs + ds, after))
                  }
    {
      var c, rest1;
      ok, c, rest1 := GetChunk(op, rest);
      if !ok {
        return;
      }
      ghost var later := ReadChunks(op, rest1, n - i - 1);
      assert later.Some? ==> cs + ([c] + later.value.0) == cs + [c] + later.value.0;
      cs, rest := cs + [c], rest1;
    }
    assert cs + [] == cs;
    ok := true;
  }

  /** Receives an event, frame by frame. */
  method GetChunkEvent(ps: seq<Payload>) returns (e: Option<Event>)
    ensures e == Parse(ps)
  {
    hide GetInt, GetNat, ReadStamps, ReadChunks, ReadTail, ReadContainers, HasData, NumStamps, Factor;
    if |ps| < 2 || GetNat(ps[0], 4).None? || GetNat(ps[1], 2).None? {
      return None;
    }
    var id, op := GetNat(ps[0], 4).value, GetNat(ps[1], 2).value;
    var ok, stamps, rest := GetStamps(ps[2..], NumStamps(op));
    if !ok {
      return None;
    }
    if !HasData(op) {
      return Some(Event(id, op, stamps, 0, [], [], [], NO_REPAIR));
    }
    if rest == [] || GetInt(rest[0], 4).None? || GetInt(rest[0], 4).value < 0 {
      return None;
    }
    var n: nat := GetInt(rest[0], 4).value;
    var containers := ReadContainers(op, rest[1..], n);
    if containers.None? {
      return None;
    }
    var chunks;
    ok, chunks, rest := GetChunks(op, containers.value.1, n * Factor(op));
    if !ok {
      return None;
    }
    var tail := ReadTail(op, rest);
    if tail.None? {
      return None;
    }
    e := Some(Event(id, op, stamps, n, containers.value.0, chunks, tail.value.0.0, tail.value.0.1));
  }

  const NO_CHUNKS := Event(0, GET_CHUNK_REQ, [0, 0], 0, [], [], [], NO_REPAIR)

  const NO_STATE :=
    Event(0, RPR_CHUNK_REQ, [0, 0], 1, [0],
          [ChunkInfo(0, seq(UUID_SIZE, _ => 0), 0, 0, [], seq(MD5_SIZE, _ => 0), 0, [])], [], NO_REPAIR)

  lemma LostAreWellFormed()
    ensures WellFormed(NO_CHUNKS) && WellFormed(NO_STATE)
  {
    assert Power(2) == 256 * 256 && Power(4) == 256 * 256 * 256 * 256;
    assert ChunkFits(RPR_CHUNK_REQ, NO_STATE.chunks[0]);
  }

  /** A request for no chunk, and a repair request with an empty coding state, do not arrive. */
  method LoseEvents() returns (first: Option<Event>, second: Option<Event>)
    ensures WellFormed(NO_CHUNKS) && WellFormed(NO_STATE) && first == second == None
  {
    hide WellFormed;
    LostAreWellFormed();
    first := Transmit(NO_CHUNKS);
    second := Transmit(NO_STATE);
  }
}
