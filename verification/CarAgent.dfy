/**
 Repairing a chunk at an agent: the RPR_CHUNK_REQ branch of src/agent/agent.cc, which cuts the packed
 request apart, and `getEncodedChunks` of src/agent/container_manager.cc, which serves each part.
 */
module CarAgent {
  import opened Wrappers
  import opened Linear
  import opened Sequences
  import opened ReedSolomon
  import opened CarRepair

  datatype EncodeRequest = EncodeRequest(ids: seq<int>, containers: seq<int>, coefficients: Row, address: string)

  /** The index of the first c in s at or after `from`, or the length of s. */
  function FindFrom(s: string, c: char, from: nat): (i: nat)
    requires from <= |s|
    ensures from <= i <= |s|
    decreases |s| - from
  {
    if from == |s| || s[from] == c then from else FindFrom(s, c, from + 1)
  }

  lemma {:induction false} FindsWordEnd(s: string, c: char, from: nat, word: string)
    requires from + |word| < |s| && s[from..from + |word|] == word && s[from + |word|] == c && c !in word
    ensures FindFrom(s, c, from) == from + |word|
    decreases |word|
  {
    if word != "" {
      assert s[from] == word[0];
      FindsWordEnd(s, c, from + 1, word[1..]);
    }
  }

  /** Address r starts behind the first r addresses and ends at the next semicolon. */
  lemma AddressIsFound(holders: seq<string>, r: nat)
    requires r < |holders| && ';' !in holders[r]
    ensures |Addresses(holders[..r])| + |holders[r]| < |Addresses(holders)|
    ensures FindFrom(Addresses(holders), ';', |Addresses(holders[..r])|) == |Addresses(holders[..r])| + |holders[r]|
    ensures Addresses(holders)[|Addresses(holders[..r])|..|Addresses(holders[..r])| + |holders[r]|] == holders[r]
    ensures |Addresses(holders[..r + 1])| == |Addresses(holders[..r])| + |holders[r]| + 1
  {
    hide Addresses;
    AddressesSplits(holders, r);
    AddressesCons(holders, r);
    assert holders[..r + 1] == holders[..r] + [holders[r]];
    AddressesSnoc(holders[..r], holders[r]);
    FindsWordEnd(Addresses(holders), ';', |Addresses(holders[..r])|, holders[r]);
  }

  lemma AddressesCons(holders: seq<string>, r: nat)
    requires r < |holders|
    ensures Addresses(holders[r..]) == holders[r] + ";" + Addresses(holders[r + 1..])
  {
    assert holders[r..][1..] == holders[r + 1..];
  }

  /** Group r starts in the table behind the first r groups, with its size. */
  lemma GroupIsFound(ps: seq<Positions>, ids: seq<int>, r: nat)
    requires AllWithin(ps, |ids|) && r < |ps|
    ensures Within(Concat(ps), |ids|)
    ensures r + |Concat(ps[..r])| + |ps[r]| < |Flatten(ps, ids)| && |Concat(ps[..r])| + |ps[r]| <= |Concat(ps)|
    ensures Flatten(ps, ids)[r + |Concat(ps[..r])|] == |ps[r]|
    ensures Flatten(ps, ids)[r + |Concat(ps[..r])| + 1..r + |Concat(ps[..r])| + 1 + |ps[r]|] == Select(ids, ps[r])
    ensures Concat(ps)[|Concat(ps[..r])|..|Concat(ps[..r])| + |ps[r]|] == ps[r]
    ensures |Concat(ps[..r + 1])| == |Concat(ps[..r])| + |ps[r]|
  {
    hide Within, Select;
    var tail := ps[r..];
    FlattenLength(ps, ids);
    FlattenSplits(ps, r, ids);
    FlattenLength(ps[..r], ids);
    ConcatSplits(ps, r);
    assert tail[0] == ps[r];
    assert ps[..r + 1] == ps[..r] + [ps[r]];
    ConcatSnoc(ps[..r], ps[r]);
  }

  lemma SelectSlices<T>(xs: seq<T>, all: Positions, from: nat, g: Positions)
    requires Within(all, |xs|) && from + |g| <= |all| && all[from..from + |g|] == g
    ensures Within(g, |xs|) && Select(xs, all)[from..from + |g|] == Select(xs, g)
  {
    forall j | 0 <= j < |g|
      ensures g[j] < |xs| && Select(xs, all)[from + j] == xs[g[j]]
    {
      assert g[j] == all[from..from + |g|][j];
    }
  }

  /** Walks over the packed request and cuts out one encode request per group. */
  method CutRequests(groupMap: seq<int>, containerMap: seq<int>, matrix: Row, agents: string, numGroups: nat,
                     ghost ps: seq<Positions>, ghost holders: seq<string>, ghost ids: seq<int>,
                     ghost containers: seq<int>, ghost row: Row)
    returns (requests: seq<EncodeRequest>)
    requires |ids| == |containers| == |row| && AllWithin(ps, |ids|) && numGroups == |ps| == |holders|
    requires Within(Concat(ps), |ids|)
    requires groupMap == Flatten(ps, ids) && containerMap == Select(containers, Concat(ps))
    requires matrix == Select(row, Concat(ps))
    requires agents == Addresses(holders) && forall r :: 0 <= r < |holders| ==> ';' !in holders[r]
    ensures |requests| == numGroups
    ensures forall r :: 0 <= r < numGroups ==>
              requests[r] ==
                EncodeRequest(Select(ids, ps[r]), Select(containers, ps[r]), Select(row, ps[r]), holders[r])
  {
    hide Flatten, Concat, Addresses, Select, FindFrom;
    requests := [];
    var chunkPos, addrStart := 0, 0;
    StartCutting(ps, holders);
    for reqIdx := 0 to numGroups
      invariant |requests| == reqIdx
      invariant chunkPos == |Concat(ps[..reqIdx])| && addrStart == |Addresses(holders[..reqIdx])|
      invariant forall r :: 0 <= r < reqIdx ==>
                  requests[r] ==
                    EncodeRequest(Select(ids, ps[r]), Select(containers, ps[r]), Select(row, ps[r]), holders[r])
    {
      GroupIsFound(ps, ids, reqIdx);
      AddressIsFound(holders, reqIdx);
      SelectSlices(containers, Concat(ps), chunkPos, ps[reqIdx]);
      SelectSlices(row, Concat(ps), chunkPos, ps[reqIdx]);
      var numChunks := groupMap[reqIdx + chunkPos];
      var chunkIds := [];
      for chunkIdx := 0 to numChunks
        invariant chunkIds == groupMap[reqIdx + chunkPos + 1..reqIdx + chunkPos + 1 + chunkIdx]
      {
        chunkIds := chunkIds + [groupMap[chunkPos + reqIdx + chunkIdx + 1]];
      }
      var addrEnd := FindFrom(agents, ';', addrStart);
      requests := requests + [EncodeRequest(chunkIds, containerMap[chunkPos..chunkPos + numChunks],
                                            matrix[chunkPos..chunkPos + numChunks], agents[addrStart..addrEnd])];
      addrStart := addrEnd + 1;
      chunkPos := chunkPos + numChunks;
    }
  }

  lemma StartCutting(ps: seq<Positions>, holders: seq<string>)
    ensures |Concat(ps[..0])| == 0 && |Addresses(holders[..0])| == 0
  {
  }

  /** Reading a chunk from a container at an agent. */
  type Fetch = (string, int, int) -> Option<Chunk>

  /** What is read back under an id, if anything, is the chunk that was stored under it. */
  ghost predicate Serves(fetch: Fetch, containers: seq<int>, ids: seq<int>, stored: seq<Chunk>)
    requires |containers| == |ids| == |stored|
  {
    forall address, j :: 0 <= j < |ids| && fetch(address, containers[j], ids[j]).Some? ==>
      fetch(address, containers[j], ids[j]).value == stored[j]
  }

  /** All chunks can be read at the given address. */
  predicate Readable(fetch: Fetch, request: EncodeRequest) {
    && |request.containers| == |request.ids|
    && forall j :: 0 <= j < |request.ids| ==>
         fetch(request.address, request.containers[j], request.ids[j]).Some?
  }

  /** Reads the chunks of a request and encodes them with its coefficients. */
  method GetEncodedChunks(request: EncodeRequest, fetch: Fetch, ghost stored: seq<Chunk>, ghost size: nat)
    returns (encoded: Option<Chunk>)
    requires |request.ids| == |request.containers| == |request.coefficients| == |stored|
    requires Uniform(stored, size) && Serves(fetch, request.containers, request.ids, stored)
    ensures encoded.Some? ==> encoded.value == Blend(request.coefficients, stored, size)
    ensures encoded.Some? <==> request.ids != [] && size > 0 && Readable(fetch, request)
  {
    var raw: seq<Chunk> := [];
    for i := 0 to |request.ids|
      invariant raw == stored[..i]
      invariant forall j :: 0 <= j < i ==> fetch(request.address, request.containers[j], request.ids[j]).Some?
    {
      var chunk := fetch(request.address, request.containers[i], request.ids[i]);
      if chunk.None? {
        return None;
      }
      raw := raw + [chunk.value];
    }
    assert raw == stored;
    if raw == [] || |raw[0]| == 0 {
      return None;
    }
    encoded := Some(Blend(request.coefficients, raw, |raw[0]|));
  }

  /** The requests for the inputs divided into the groups `ps`. */
  ghost predicate RequestsFor(requests: seq<EncodeRequest>, ps: seq<Positions>, ids: seq<int>, containers: seq<int>,
                              row: Row)
  {
    && |ids| == |containers| == |row| && AllWithin(ps, |ids|) && |requests| == |ps|
    && forall r :: 0 <= r < |ps| ==>
         && requests[r].ids == Select(ids, ps[r])
         && requests[r].containers == Select(containers, ps[r])
         && requests[r].coefficients == Select(row, ps[r])
  }

  lemma ServesGroup(fetch: Fetch, containers: seq<int>, ids: seq<int>, stored: seq<Chunk>, size: nat, g: Positions)
    requires |containers| == |ids| == |stored| && Serves(fetch, containers, ids, stored) && Uniform(stored, size)
    requires Within(g, |ids|)
    ensures Serves(fetch, Select(containers, g), Select(ids, g), Select(stored, g)) && Uniform(Select(stored, g), size)
  {
    forall address, j | 0 <= j < |g| && fetch(address, Select(containers, g)[j], Select(ids, g)[j]).Some?
      ensures fetch(address, Select(containers, g)[j], Select(ids, g)[j]).value == Select(stored, g)[j]
    {
      assert fetch(address, containers[g[j]], ids[g[j]]).Some?;
    }
  }

  /** Lets every group be encoded and adds up the results. */
  method CombinePartials(requests: seq<EncodeRequest>, fetch: Fetch, ghost ps: seq<Positions>, ghost ids: seq<int>,
                         ghost containers: seq<int>, ghost row: Row, ghost stored: seq<Chunk>, ghost size: nat)
    returns (repaired: Option<Chunk>)
    requires RequestsFor(requests, ps, ids, containers, row) && ps != [] && (forall r :: 0 <= r < |ps| ==> ps[r] != [])
    requires |stored| == |ids| && Uniform(stored, size) && Serves(fetch, containers, ids, stored)
    requires Distinct(Concat(ps)) && |Concat(ps)| == |ids|
    ensures repaired.Some? ==> repaired.value == Blend(row, stored, size)
    ensures repaired.Some? <==> size > 0 && forall r :: 0 <= r < |requests| ==> Readable(fetch, requests[r])
  {
    hide Serves, Blend, Concat, Readable;
    var partials: seq<Chunk> := [];
    for r := 0 to |requests|
      invariant |partials| == r && (r > 0 ==> size > 0)
      invariant forall x :: 0 <= x < r ==> partials[x] == Blend(Select(row, ps[x]), Select(stored, ps[x]), size)
      invariant forall x :: 0 <= x < r ==> Readable(fetch, requests[x])
    {
      ServesGroup(fetch, containers, ids, stored, size, ps[r]);
      var partial := GetEncodedChunks(requests[r], fetch, Select(stored, ps[r]), size);
      if partial.None? {
        return None;
      }
      partials := partials + [partial.value];
    }
    assert partials == Partials(row, stored, size, ps);
    PartialsAddUp(row, stored, size, ps);
    repaired := Some(Blend(Ones(|requests|), partials, |partials[0]|));
  }
}
