/**
 The messages between proxy and agents, src/common/io.cc: a chunk event is sent as a multipart
 message whose layout depends on the opcode, and read back frame by frame.
 */
module Wire {
  import opened Wrappers
  import opened Octets

  const PUT_CHUNK_REQ := 0
  const GET_CHUNK_REQ := 1
  const DEL_CHUNK_REQ := 2
  const CPY_CHUNK_REQ := 3
  const ENC_CHUNK_REQ := 4
  const GET_CHUNK_REP_SUCCESS := 6
  const DEL_CHUNK_REP_SUCCESS := 7
  const ENC_CHUNK_REP_SUCCESS := 9
  const PUT_CHUNK_REP_FAIL := 10
  const GET_CHUNK_REP_FAIL := 11
  const DEL_CHUNK_REP_FAIL := 12
  const ENC_CHUNK_REP_FAIL := 14
  const REG_AGENT_REQ := 15
  const UPD_AGENT_REQ := 18
  const SYN_PING := 20
  const RPR_CHUNK_REQ := 22
  const CHK_CHUNK_REQ := 25
  const CHK_CHUNK_REP_FAIL := 27
  const MOV_CHUNK_REQ := 28
  const VRF_CHUNK_REQ := 36
  const VRF_CHUNK_REP_SUCCESS := 37
  const VRF_CHUNK_REP_FAIL := 38

  const CHUNK_VERSION_MAX_LEN := 128
  const UUID_SIZE := 16
  const MD5_SIZE := 16

  predicate IsFromProxy(op: nat) {
    op in {PUT_CHUNK_REQ, GET_CHUNK_REQ, DEL_CHUNK_REQ, CPY_CHUNK_REQ, ENC_CHUNK_REQ, REG_AGENT_REQ, UPD_AGENT_REQ,
           SYN_PING, RPR_CHUNK_REQ, CHK_CHUNK_REQ, MOV_CHUNK_REQ, VRF_CHUNK_REQ}
  }

  predicate HasData(op: nat) {
    op !in {PUT_CHUNK_REP_FAIL, GET_CHUNK_REP_FAIL, DEL_CHUNK_REP_FAIL, DEL_CHUNK_REP_SUCCESS, ENC_CHUNK_REP_FAIL,
            CHK_CHUNK_REP_FAIL, VRF_CHUNK_REP_FAIL}
  }

  predicate HasContainerIds(op: nat) {
    op !in {ENC_CHUNK_REP_SUCCESS, ENC_CHUNK_REP_FAIL, VRF_CHUNK_REP_SUCCESS, VRF_CHUNK_REP_FAIL} && HasData(op)
  }

  predicate HasChunkData(op: nat) {
    op in {PUT_CHUNK_REQ, GET_CHUNK_REP_SUCCESS, ENC_CHUNK_REP_SUCCESS} && HasData(op)
  }

  predicate NeedsCoding(op: nat) {
    op in {ENC_CHUNK_REQ, RPR_CHUNK_REQ}
  }

  predicate HasRepairInfo(op: nat) {
    op == RPR_CHUNK_REQ
  }

  function Factor(op: nat): nat {
    if op in {CPY_CHUNK_REQ, MOV_CHUNK_REQ} then 2 else 1
  }

  /** The number of time stamps in the header: one of two numbers from a proxy, four from an agent. */
  function NumStamps(op: nat): nat {
    if IsFromProxy(op) then 2 else 8
  }

  datatype ChunkInfo = ChunkInfo(namespaceId: Octet, uuid: Payload, chunkId: int, fileVersion: int, version: Payload,
                                 md5: Payload, size: int, data: Payload)

  datatype RepairInfo = RepairInfo(coding: Octet, numGroups: nat, numInputs: nat, chunkMap: seq<int>,
                                   containerMap: seq<int>, agents: Payload, car: bool)

  datatype Event = Event(id: nat, opcode: nat, stamps: seq<int>, numChunks: nat, containers: seq<int>,
                         chunks: seq<ChunkInfo>, codingState: Payload, repair: RepairInfo)

  const NO_REPAIR := RepairInfo(0, 0, 0, [], [], [], false)

  /** A chunk as an event of this opcode carries it. */
  ghost predicate ChunkFits(op: nat, c: ChunkInfo) {
    && |c.uuid| == UUID_SIZE && |c.md5| == MD5_SIZE && Fits(c.chunkId, 4) && Fits(c.fileVersion, 4) && Fits(c.size, 4)
    && |c.version| < CHUNK_VERSION_MAX_LEN
    && if HasChunkData(op) then c.size == |c.data| else c.data == []
  }

  ghost predicate RepairFits(r: RepairInfo) {
    && Fits(r.numGroups, 4) && Fits(r.numInputs, 4) && |r.chunkMap| == r.numGroups + r.numInputs
    && |r.containerMap| == r.numInputs
    && AllFit(r.chunkMap) && AllFit(r.containerMap)
  }

  /** A well-formed event: it has what its opcode carries and nothing else, within the range of the fields. */
  ghost predicate WellFormed(e: Event) {
    && e.id < Power(4) && e.opcode < Power(2) && |e.stamps| == NumStamps(e.opcode)
    && (forall i :: 0 <= i < |e.stamps| ==> Fits(e.stamps[i], 8))
    && Fits(e.numChunks, 4) && AllFit(e.containers) && Fits(|e.codingState|, 4)
    && (!HasData(e.opcode) ==> e.numChunks == 0)
    && |e.containers| == (if HasContainerIds(e.opcode) then e.numChunks else 0)
    && |e.chunks| == e.numChunks * Factor(e.opcode)
    && (forall i :: 0 <= i < |e.chunks| ==> ChunkFits(e.opcode, e.chunks[i]))
    && (!NeedsCoding(e.opcode) ==> e.codingState == [])
    && if HasRepairInfo(e.opcode) then RepairFits(e.repair) else e.repair == NO_REPAIR
  }

  // What is sent, block by block.

  function PrintStamps(xs: seq<int>): (ps: seq<Payload>)
    requires forall i :: 0 <= i < |xs| ==> Fits(xs[i], 8)
    ensures |ps| == |xs|
  {
    if xs == [] then [] else [PutInt(xs[0], 8)] + PrintStamps(xs[1..])
  }

  function HeadFrames(c: ChunkInfo): (ps: seq<Payload>)
    requires Fits(c.chunkId, 4) && Fits(c.fileVersion, 4) && |c.version| < 256
    ensures |ps| == 5
  {
    [[c.namespaceId], c.uuid, PutInt(c.chunkId, 4), PutInt(c.fileVersion, 4), [|c.version|]]
  }

  function BodyFrames(op: nat, c: ChunkInfo): (ps: seq<Payload>)
    requires Fits(c.size, 4)
    ensures |ps| == 2 + if HasChunkData(op) then 1 else 0
  {
    [c.md5, PutInt(c.size, 4)] + if HasChunkData(op) then [c.data] else []
  }

  function VersionFrames(c: ChunkInfo): (ps: seq<Payload>)
    ensures |ps| <= 1
  {
    if |c.version| > 0 then [c.version] else []
  }

  function PrintChunk(op: nat, c: ChunkInfo): (ps: seq<Payload>)
    requires ChunkFits(op, c)
  {
    HeadFrames(c) + VersionFrames(c) + BodyFrames(op, c)
  }

  function PrintChunks(op: nat, cs: seq<ChunkInfo>): seq<Payload>
    requires forall i :: 0 <= i < |cs| ==> ChunkFits(op, cs[i])
  {
    if cs == [] then [] else PrintChunk(op, cs[0]) + PrintChunks(op, cs[1..])
  }

  /** Reading blocks: the value and the frames left, or none when frames are missing or too short. */
  function ReadStamps(rest: seq<Payload>, n: nat): Option<(seq<int>, seq<Payload>)> {
    if n == 0 then Some(([], rest))
    else if rest == [] then None
    else
      match GetInt(rest[0], 8)
      case None => None
      case Some(x) =>
        match ReadStamps(rest[1..], n - 1)
        case None => None
        case Some((xs, after)) => Some(([x] + xs, after))
  }

  lemma {:induction false} StampsRead(xs: seq<int>, after: seq<Payload>)
    requires forall i :: 0 <= i < |xs| ==> Fits(xs[i], 8)
    ensures ReadStamps(PrintStamps(xs) + after, |xs|) == Some((xs, after))
  {
    hide PutInt, GetInt, Fits;
    if xs == [] {
      assert PrintStamps(xs) + after == after;
    } else {
      StampsRead(xs[1..], after);
      IntRoundTrip(xs[0], 8);
      assert (PrintStamps(xs) + after)[1..] == PrintStamps(xs[1..]) + after;
      assert [xs[0]] + xs[1..] == xs;
    }
  }

  lemma {:induction false} StampsCut(xs: seq<int>, m: nat)
    requires (forall i :: 0 <= i < |xs| ==> Fits(xs[i], 8)) && m < |xs|
    ensures ReadStamps(PrintStamps(xs)[..m], |xs|).None?
  {
    hide PutInt, GetInt, Fits;
    if m > 0 {
      StampsCut(xs[1..], m - 1);
      assert PrintStamps(xs)[..m][1..] == PrintStamps(xs[1..])[..m - 1];
    }
  }

  /** The bytes of a field of fixed size, which may be followed by others. */
  function GetBytes(p: Payload, n: nat): Option<Payload> {
    if |p| < n then None else Some(p[..n])
  }

  datatype ChunkHead = ChunkHead(namespaceId: Octet, uuid: Payload, chunkId: int, fileVersion: int, versionLength: nat)

  function ReadHead(rest: seq<Payload>): Option<(ChunkHead, seq<Payload>)> {
    if |rest| < 5 then None
    else
      match (GetNat(rest[0], 1), GetBytes(rest[1], UUID_SIZE), GetInt(rest[2], 4), GetInt(rest[3], 4),
             GetNat(rest[4], 1))
      case (Some(ns), Some(uuid), Some(id), Some(version), Some(length)) =>
        NumberOfOne(rest[0]);
        var used := if length > CHUNK_VERSION_MAX_LEN - 1 then CHUNK_VERSION_MAX_LEN - 1 else length;
        Some((ChunkHead(ns, uuid, id, version, used), rest[5..]))
      case _ => None
  }

  lemma NumberOfOne(p: Payload)
    requires |p| >= 1
    ensures Number(p[..1]) == p[0]
  {
    assert p[..1][1..] == [];
  }

  function ReadVersion(rest: seq<Payload>, length: nat): Option<(Payload, seq<Payload>)> {
    if length == 0 then Some(([], rest))
    else if rest == [] then None
    else
      match GetBytes(rest[0], length)
      case None => None
      case Some(version) => Some((version, rest[1..]))
  }

  function ReadBody(op: nat, rest: seq<Payload>): Option<((Payload, int, Payload), seq<Payload>)> {
    if |rest| < 2 then None
    else
      match (GetBytes(rest[0], MD5_SIZE), GetInt(rest[1], 4))
      case (Some(md5), Some(size)) =>
        if !HasChunkData(op) then Some(((md5, size, []), rest[2..]))
        else if |rest| < 3 || size < 0 then None
        else
          (match GetBytes(rest[2], size)
           case None => None
           case Some(data) => Some(((md5, size, data), rest[3..])))
      case _ => None
  }

  function ReadChunk(op: nat, rest: seq<Payload>): Option<(ChunkInfo, seq<Payload>)> {
    match ReadHead(rest)
    case None => None
    case Some((h, rest1)) =>
      match ReadVersion(rest1, h.versionLength)
      case None => None
      case Some((version, rest2)) =>
        match ReadBody(op, rest2)
        case None => None
        case Some(((md5, size, data), after)) =>
          Some((ChunkInfo(h.namespaceId, h.uuid, h.chunkId, h.fileVersion, version, md5, size, data), after))
  }

  lemma HeadRead(op: nat, c: ChunkInfo, after: seq<Payload>)
    requires ChunkFits(op, c)
    ensures ReadHead(HeadFrames(c) + after) ==
              Some((ChunkHead(c.namespaceId, c.uuid, c.chunkId, c.fileVersion, |c.version|), after))
  {
    hide PutInt, GetInt, Fits, Number, HasChunkData;
    IntRoundTrip(c.chunkId, 4);
    IntRoundTrip(c.fileVersion, 4);
    NumberOfOne([c.namespaceId]);
    NumberOfOne([|c.version|]);
    var ps := HeadFrames(c) + after;
    assert ps[0] == [c.namespaceId] && ps[1] == c.uuid && ps[4] == [|c.version|];
    assert c.uuid[..UUID_SIZE] == c.uuid && ps[5..] == after;
  }

  lemma VersionRead(c: ChunkInfo, after: seq<Payload>)
    ensures ReadVersion(VersionFrames(c) + after, |c.version|) == Some((c.version, after))
  {
    if |c.version| == 0 {
      assert VersionFrames(c) + after == after;
    } else {
      assert (VersionFrames(c) + after)[1..] == after;
      assert c.version[..|c.version|] == c.version;
    }
  }

  lemma BodyRead(op: nat, c: ChunkInfo, after: seq<Payload>)
    requires ChunkFits(op, c)
    ensures ReadBody(op, BodyFrames(op, c) + after) == Some(((c.md5, c.size, c.data), after))
  {
    hide PutInt, GetInt, Fits;
    IntRoundTrip(c.size, 4);
    var ps := BodyFrames(op, c) + after;
    assert ps[0] == c.md5 && c.md5[..MD5_SIZE] == c.md5;
    if HasChunkData(op) {
      assert ps[2] == c.data && c.data[..c.size] == c.data && ps[3..] == after;
    } else {
      assert ps[2..] == after;
    }
  }

  lemma ChunkRead(op: nat, c: ChunkInfo, after: seq<Payload>)
    requires ChunkFits(op, c)
    ensures ReadChunk(op, PrintChunk(op, c) + after) == Some((c, after))
  {
    hide ReadHead, ReadVersion, ReadBody, HeadFrames, VersionFrames, BodyFrames;
    assert PrintChunk(op, c) + after == HeadFrames(c) + (VersionFrames(c) + (BodyFrames(op, c) + after));
    HeadRead(op, c, VersionFrames(c) + (BodyFrames(op, c) + after));
    VersionRead(c, BodyFrames(op, c) + after);
    BodyRead(op, c, after);
  }

  lemma ChunkCut(op: nat, c: ChunkInfo, m: nat)
    requires ChunkFits(op, c) && m < |PrintChunk(op, c)|
    ensures ReadChunk(op, PrintChunk(op, c)[..m]).None?
  {
    hide HeadFrames, VersionFrames, BodyFrames, GetInt, GetBytes, GetNat, HasChunkData;
    var h, v := 5, |VersionFrames(c)|;
    var ps := PrintChunk(op, c)[..m];
    if m >= h {
      var rest := (VersionFrames(c) + BodyFrames(op, c))[..m - h];
      assert ps == HeadFrames(c) + rest;
      HeadRead(op, c, rest);
      if m - h >= v {
        var body := BodyFrames(op, c)[..m - h - v];
        assert rest == VersionFrames(c) + body;
        VersionRead(c, body);
      } else {
        VersionNonEmpty(c);
      }
    }
  }

  lemma VersionNonEmpty(c: ChunkInfo)
    ensures |VersionFrames(c)| == 0 <==> |c.version| == 0
  {
  }

  function ReadChunks(op: nat, rest: seq<Payload>, n: nat): Option<(seq<ChunkInfo>, seq<Payload>)> {
    if n == 0 then Some(([], rest))
    else
      match ReadChunk(op, rest)
      case None => None
      case Some((c, rest1)) =>
        match ReadChunks(op, rest1, n - 1)
        case None => None
        case Some((cs, after)) => Some(([c] + cs, after))
  }

  lemma {:induction false} ChunksRead(op: nat, cs: seq<ChunkInfo>, after: seq<Payload>)
    requires forall i :: 0 <= i < |cs| ==> ChunkFits(op, cs[i])
    ensures ReadChunks(op, PrintChunks(op, cs) + after, |cs|) == Some((cs, after))
  {
    hide PrintChunk, ReadChunk, ChunkFits;
    if cs == [] {
      assert PrintChunks(op, cs) + after == after;
    } else {
      var tail := PrintChunks(op, cs[1..]) + after;
      ChunksRead(op, cs[1..], after);
      ChunkRead(op, cs[0], tail);
      assert PrintChunks(op, cs) + after == PrintChunk(op, cs[0]) + tail;
      assert [cs[0]] + cs[1..] == cs;
    }
  }

  lemma {:induction false} ChunksCut(op: nat, cs: seq<ChunkInfo>, m: nat)
    requires (forall i :: 0 <= i < |cs| ==> ChunkFits(op, cs[i])) && m < |PrintChunks(op, cs)|
    ensures ReadChunks(op, PrintChunks(op, cs)[..m], |cs|).None?
    decreases |cs|
  {
    hide PrintChunk, ReadChunk, ChunkFits;
    var first := PrintChunk(op, cs[0]);
    var ps := PrintChunks(op, cs)[..m];
    if m < |first| {
      ChunkCut(op, cs[0], m);
      assert ps == first[..m];
    } else {
      var tail := PrintChunks(op, cs[1..])[..m - |first|];
      assert ps == first + tail;
      ChunkRead(op, cs[0], tail);
      ChunksCut(op, cs[1..], m - |first|);
    }
  }

  function PrintCoding(state: Payload): seq<Payload>
    requires Fits(|state|, 4)
  {
    [PutInt(|state|, 4)] + if |state| > 0 then [state] else []
  }

  function PrintRepair(r: RepairInfo): (ps: seq<Payload>)
    requires RepairFits(r)
    ensures |ps| == 7
  {
    [[r.coding], PutInt(r.numGroups, 4), PutInt(r.numInputs, 4), PutInts(r.chunkMap), PutInts(r.containerMap),
     r.agents, [if r.car then 1 else 0]]
  }

  /** The size of the coding state and, unless it is empty, the state. */
  function ReadCoding(rest: seq<Payload>): Option<(Payload, seq<Payload>)> {
    if rest == [] then None
    else
      match GetInt(rest[0], 4)
      case None => None
      case Some(size) =>
        if size <= 0 then Some(([], rest[1..]))
        else if |rest| < 2 then None
        else
          match GetBytes(rest[1], size)
          case None => None
          case Some(state) => Some((state, rest[2..]))
  }

  lemma CodingRead(state: Payload, after: seq<Payload>)
    requires Fits(|state|, 4)
    ensures ReadCoding(PrintCoding(state) + after) == Some((state, after))
  {
    hide PutInt, GetInt, Fits;
    IntRoundTrip(|state|, 4);
    var ps := PrintCoding(state) + after;
    if |state| > 0 {
      assert ps[1] == state && state[..|state|] == state && ps[2..] == after;
    } else {
      assert ps[1..] == after;
    }
  }

  lemma CodingCut(state: Payload, m: nat)
    requires Fits(|state|, 4) && m < |PrintCoding(state)|
    ensures ReadCoding(PrintCoding(state)[..m]).None?
  {
    hide PutInt, GetInt, Fits;
    IntRoundTrip(|state|, 4);
  }

  function ReadRepair(rest: seq<Payload>): Option<(RepairInfo, seq<Payload>)> {
    if |rest| < 7 then None
    else
      match (GetNat(rest[0], 1), GetInt(rest[1], 4), GetInt(rest[2], 4), GetNat(rest[6], 1))
      case (Some(coding), Some(groups), Some(inputs), Some(car)) =>
        NumberOfOne(rest[0]);
        if groups < 0 || inputs < 0 then None
        else
          (match (GetInts(rest[3], groups + inputs), GetInts(rest[4], inputs))
           case (Some(chunkMap), Some(containerMap)) =>
             Some((RepairInfo(coding, groups, inputs, chunkMap, containerMap, rest[5], car != 0), rest[7..]))
           case _ => None)
      case _ => None
  }

  lemma RepairRead(r: RepairInfo, after: seq<Payload>)
    requires RepairFits(r)
    ensures ReadRepair(PrintRepair(r) + after) == Some((r, after))
  {
    hide PutInt, GetInt, Fits, Number, PutInts, GetInts, AllFit;
    IntRoundTrip(r.numGroups, 4);
    IntRoundTrip(r.numInputs, 4);
    IntsRoundTrip(r.chunkMap);
    IntsRoundTrip(r.containerMap);
    var ps := PrintRepair(r) + after;
    NumberOfOne(ps[0]);
    NumberOfOne(ps[6]);
    assert ps[7..] == after;
  }

  /** The blocks after the chunks: coding state and repair information, for the opcodes that have them. */
  function PrintTail(op: nat, state: Payload, r: RepairInfo): seq<Payload>
    requires Fits(|state|, 4) && (HasRepairInfo(op) ==> RepairFits(r))
  {
    if NeedsCoding(op) then PrintCoding(state) + if HasRepairInfo(op) then PrintRepair(r) else [] else []
  }

  function ReadTail(op: nat, rest: seq<Payload>): Option<((Payload, RepairInfo), seq<Payload>)> {
    if !NeedsCoding(op) then Some((([], NO_REPAIR), rest))
    else
      match ReadCoding(rest)
      case None => None
      case Some((state, rest1)) =>
        if !HasRepairInfo(op) then Some(((state, NO_REPAIR), rest1))
        else
          match ReadRepair(rest1)
          case None => None
          case Some((r, after)) => Some(((state, r), after))
  }

  ghost predicate TailFits(op: nat, state: Payload, r: RepairInfo) {
    && Fits(|state|, 4) && (!NeedsCoding(op) ==> state == [])
    && if HasRepairInfo(op) then RepairFits(r) else r == NO_REPAIR
  }

  lemma TailRead(op: nat, state: Payload, r: RepairInfo, after: seq<Payload>)
    requires TailFits(op, state, r)
    ensures ReadTail(op, PrintTail(op, state, r) + after) == Some(((state, r), after))
  {
    hide PrintCoding, ReadCoding, PrintRepair, ReadRepair, Fits, RepairFits;
    if !NeedsCoding(op) {
      assert PrintTail(op, state, r) + after == after;
    } else {
      var rest := if HasRepairInfo(op) then PrintRepair(r) else [];
      CodingRead(state, rest + after);
      assert PrintTail(op, state, r) + after == PrintCoding(state) + (rest + after);
      if HasRepairInfo(op) {
        RepairRead(r, after);
      } else {
        assert rest + after == after;
      }
    }
  }

  lemma TailCut(op: nat, state: Payload, r: RepairInfo, m: nat)
    requires TailFits(op, state, r) && m < |PrintTail(op, state, r)|
    ensures ReadTail(op, PrintTail(op, state, r)[..m]).None?
  {
    hide PrintCoding, ReadCoding, PrintRepair, Fits, RepairFits;
    var first := PrintCoding(state);
    var ps := PrintTail(op, state, r)[..m];
    if m < |first| {
      CodingCut(state, m);
      assert ps == first[..m];
    } else {
      var tail := PrintRepair(r)[..m - |first|];
      assert ps == first + tail;
      CodingRead(state, tail);
    }
  }

  function PrintContainers(op: nat, containers: seq<int>): seq<Payload>
    requires AllFit(containers)
  {
    if HasContainerIds(op) then [PutInts(containers)] else []
  }

  function ReadContainers(op: nat, rest: seq<Payload>, n: nat): Option<(seq<int>, seq<Payload>)> {
    if !HasContainerIds(op) then Some(([], rest))
    else if rest == [] then None
    else
      match GetInts(rest[0], n)
      case None => None
      case Some(containers) => Some((containers, rest[1..]))
  }

  lemma ContainersRead(op: nat, containers: seq<int>, n: nat, after: seq<Payload>)
    requires AllFit(containers) && |containers| == if HasContainerIds(op) then n else 0
    ensures ReadContainers(op, PrintContainers(op, containers) + after, n) == Some((containers, after))
  {
    hide PutInts, GetInts, HasContainerIds, AllFit;
    IntsRoundTrip(containers);
    if HasContainerIds(op) {
      assert (PrintContainers(op, containers) + after)[1..] == after;
    } else {
      assert PrintContainers(op, containers) + after == after;
    }
  }

  /** The blocks after the number of chunks. */
  function PrintLists(e: Event): seq<Payload>
    requires WellFormed(e)
  {
    PrintContainers(e.opcode, e.containers)
    + (PrintChunks(e.opcode, e.chunks) + PrintTail(e.opcode, e.codingState, e.repair))
  }

  datatype Lists = Lists(containers: seq<int>, chunks: seq<ChunkInfo>, codingState: Payload, repair: RepairInfo)

  function ReadLists(op: nat, rest: seq<Payload>, n: nat): Option<(Lists, seq<Payload>)> {
    match ReadContainers(op, rest, n)
    case None => None
    case Some((containers, rest1)) =>
      match ReadChunks(op, rest1, n * Factor(op))
      case None => None
      case Some((chunks, rest2)) =>
        match ReadTail(op, rest2)
        case None => None
        case Some(((state, r), after)) => Some((Lists(containers, chunks, state, r), after))
  }

  lemma ListsRead(e: Event, after: seq<Payload>)
    requires WellFormed(e)
    ensures ReadLists(e.opcode, PrintLists(e) + after, e.numChunks) ==
              Some((Lists(e.containers, e.chunks, e.codingState, e.repair), after))
  {
    hide PrintContainers, ReadContainers, PrintChunks, ReadChunks, PrintTail, ReadTail, ChunkFits, RepairFits, Fits,
      AllFit, Factor;
    var op := e.opcode;
    var tail := PrintTail(op, e.codingState, e.repair) + after;
    TailRead(op, e.codingState, e.repair, after);
    ChunksRead(op, e.chunks, tail);
    ContainersRead(op, e.containers, e.numChunks, PrintChunks(op, e.chunks) + tail);
    assert PrintLists(e) + after == PrintContainers(op, e.containers) + (PrintChunks(op, e.chunks) + tail);
  }

  lemma ListsCut(e: Event, m: nat)
    requires WellFormed(e) && m < |PrintLists(e)|
    ensures ReadLists(e.opcode, PrintLists(e)[..m], e.numChunks).None?
  {
    hide PrintChunks, ReadChunks, PrintTail, ReadTail, ChunkFits, RepairFits, Fits, AllFit, Factor, PutInts, GetInts,
      HasContainerIds;
    var op, ps := e.opcode, PrintLists(e)[..m];
    var c, k := PrintContainers(op, e.containers), PrintChunks(op, e.chunks);
    if m >= |c| {
      var rest := (k + PrintTail(op, e.codingState, e.repair))[..m - |c|];
      assert ps == c + rest;
      ContainersRead(op, e.containers, e.numChunks, rest);
      if m - |c| < |k| {
        ChunksCut(op, e.chunks, m - |c|);
        assert rest == k[..m - |c|];
      } else {
        var tail := PrintTail(op, e.codingState, e.repair)[..m - |c| - |k|];
        assert rest == k + tail;
        ChunksRead(op, e.chunks, tail);
        TailCut(op, e.codingState, e.repair, m - |c| - |k|);
      }
    }
  }

  /** The whole message. */
  function Print(e: Event): (ps: seq<Payload>)
    requires WellFormed(e)
    ensures |ps| >= 4
  {
    [PutNat(e.id, 4), PutNat(e.opcode, 2)] + PrintStamps(e.stamps)
    + if HasData(e.opcode) then [PutInt(e.numChunks, 4)] + PrintLists(e) else []
  }

  function ReadData(op: nat, rest: seq<Payload>): Option<(nat, Lists)> {
    if rest == [] then None
    else
      match GetInt(rest[0], 4)
      case None => None
      case Some(n) =>
        if n < 0 then None
        else
          match ReadLists(op, rest[1..], n)
          case None => None
          case Some((lists, after)) => Some((n, lists))
  }

  /** What the receiver makes of a message. */
  function Parse(ps: seq<Payload>): Option<Event> {
    if |ps| < 2 then None
    else
      match (GetNat(ps[0], 4), GetNat(ps[1], 2))
      case (Some(id), Some(op)) =>
        (match ReadStamps(ps[2..], NumStamps(op))
         case None => None
         case Some((stamps, rest)) =>
           if !HasData(op) then Some(Event(id, op, stamps, 0, [], [], [], NO_REPAIR))
           else
             match ReadData(op, rest)
             case None => None
             case Some((n, lists)) =>
               Some(Event(id, op, stamps, n, lists.containers, lists.chunks, lists.codingState, lists.repair)))
      case _ => None
  }

  lemma DataRead(e: Event)
    requires WellFormed(e)
    ensures ReadData(e.opcode, [PutInt(e.numChunks, 4)] + PrintLists(e)) ==
              Some((e.numChunks, Lists(e.containers, e.chunks, e.codingState, e.repair)))
  {
    hide PrintLists, ReadLists, ChunkFits, RepairFits, Fits, AllFit, PutInt, GetInt;
    IntRoundTrip(e.numChunks, 4);
    ListsRead(e, []);
    var ps := [PutInt(e.numChunks, 4)] + PrintLists(e);
    assert ps[1..] == PrintLists(e) + [];
  }

  lemma DataCut(e: Event, m: nat)
    requires WellFormed(e) && m < 1 + |PrintLists(e)|
    ensures ReadData(e.opcode, ([PutInt(e.numChunks, 4)] + PrintLists(e))[..m]).None?
  {
    hide PrintLists, ReadLists, ChunkFits, RepairFits, Fits, AllFit, PutInt, GetInt;
    if m > 0 {
      IntRoundTrip(e.numChunks, 4);
      ListsCut(e, m - 1);
      var ps := [PutInt(e.numChunks, 4)] + PrintLists(e);
      assert ps[..m][1..] == PrintLists(e)[..m - 1];
    }
  }

  /** Every well-formed event is read back as it was sent. */
  lemma RoundTrip(e: Event)
    requires WellFormed(e)
    ensures Parse(Print(e)) == Some(e)
  {
    hide PrintLists, ReadData, PrintStamps, ReadStamps, ChunkFits, RepairFits, Fits, AllFit, PutInt, GetInt, PutNat,
      GetNat, Power;
    NatRoundTrip(e.id, 4);
    NatRoundTrip(e.opcode, 2);
    var data := if HasData(e.opcode) then [PutInt(e.numChunks, 4)] + PrintLists(e) else [];
    StampsRead(e.stamps, data);
    assert Print(e)[2..] == PrintStamps(e.stamps) + data;
    if HasData(e.opcode) {
      DataRead(e);
    } else {
      NoData(e);
    }
  }

  lemma NoData(e: Event)
    requires WellFormed(e) && !HasData(e.opcode)
    ensures e == Event(e.id, e.opcode, e.stamps, 0, [], [], [], NO_REPAIR)
  {
    assert e.containers == [] && e.chunks == [];
  }

  /** A message that ends early is rejected, wherever it ends. */
  lemma TruncatedIsRejected(e: Event, m: nat)
    requires WellFormed(e) && m < |Print(e)|
    ensures Parse(Print(e)[..m]).None?
  {
    hide PrintLists, ReadData, PrintStamps, ReadStamps, ChunkFits, RepairFits, Fits, AllFit, PutInt, GetInt, PutNat,
      GetNat, Power, HasData, NumStamps;
    if m >= 2 {
      NatRoundTrip(e.id, 4);
      NatRoundTrip(e.opcode, 2);
      var s := PrintStamps(e.stamps);
      var ps := Print(e)[..m];
      if m - 2 < |s| {
        StampsCut(e.stamps, m - 2);
        assert ps[2..] == s[..m - 2];
      } else {
        var data := ([PutInt(e.numChunks, 4)] + PrintLists(e))[..m - 2 - |s|];
        assert ps[2..] == s + data;
        StampsRead(e.stamps, data);
        DataCut(e, m - 2 - |s|);
      }
    }
  }
}
