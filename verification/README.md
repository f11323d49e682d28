# Nexoedge: a verified model of the storage proxy

Nexoedge stores files as erasure-coded stripes over containers at many agents. This project models, in
Dafny, the parts of the proxy and the agents where the hard logic is, and proves what they are for: a file
behaves as a sequence of bytes, a stripe survives the failures it was placed to survive, a lost chunk is
rebuilt from partial sums computed where the other chunks are, and every message, count and backup adds up.
`dafny verify dfyconfig.toml` checks all of it.

The main results, bottom up:

- **Reed-Solomon coding** (`Gf256`, `GfField`, `Linear`, `ReedSolomon`). Multiplication of bytes is that of the field
  with 256 elements that ISA-L computes in (polynomial 0x11d), and its laws are proved, not assumed: 2 generates all
  bytes but zero, so each of them has an inverse. Decoding any k of the n chunks gives back the padded data; a repair
  row rebuilds a lost chunk. Inverting a matrix is a parameter: it may fail, and when it does not, the result is an
  inverse. For one parity chunk an inverter that never fails is given, for every k.
- **Retrying access** (`ChunkAccess`, `StripeRead`). For every pattern of failed replies the four parallel arrays
  stay aligned while whole nodes are shifted out, the loop ends, and on success each slot holds an accepted reply
  for the chunk its index names. No chunk is asked for twice, and only nodes that failed a request that was sent are
  given up. Reading a stripe returns its data.
- **Distributed repair** (`ChunkGroups`, `CarRepair`, `CarProxy`, `CarAgent`, `RepairChunk`). Grouping, packing,
  unpacking, partial encoding and the final XOR yield the lost chunk, exactly when the plan can be made and the
  inputs can be read at the agents that own them.
- **Registry, placement, fault tolerance** (`Registry`, `Placement`, `FaultTolerance`). The registry stays
  consistent over every run of registrations and failures, refused registrations with their rollback included. A
  fresh placement has at most (n-k)/f containers per agent: a stripe that is placed, written, and read from the
  containers it was written to comes back whatever f agents fail in between. For a stripe that is repaired it is stated
  exactly when this limit still holds.
- **Files** (`Striping`, `StripeWrite`, `FileRead`, `FileWrite`, `FileModify`, `FileRun`, `HealthyRun`). Overwriting
  and appending, aligned or not, splice the data into the content and leave every other stripe alone; it is stated
  exactly which requests can be carried out. Over every run of writes, overwrites and appends, any of which may fail
  at any chunk, the metadata describes chunks that were acknowledged, at least k for every stripe. A stripe on record
  that is no longer stored was being written by an overwrite or append that failed, and none has stored it since; a
  failed write of the whole file and a refused request lose nothing, nor does a failed change of one stripe by agents
  that store only what they acknowledge and undo what they are asked to. While agents acknowledge and answer, exactly
  the requests succeed that are not refused for their offset, and reading gives back the bytes they say.
- **Messages** (`Octets`, `Wire`, `WireIo`). Every well-formed event survives the wire exactly when it is framed
  correctly, and it is stated exactly when that is, and opcode by opcode what it brings; every message cut short is
  rejected.
- **Smaller cores**: in-place deduplication and coalescing (`Dedup`), the checksum report (`Checksums`), put and
  revert as a stack of backups (`FsContainer`), start dates of immutability policies (`PolicyDate`), background task
  counts (`TaskQueue`).

Agents, network and clock are parameters: arbitrary functions of the request that include its event number, so that
every reply may differ. A region under a lock is one atomic step. Integers are unbounded unless a width is named.

Where code and intent part, the model follows the code, the exact condition is proved, and a member exhibits an input:

- An agent that registers with a repeated container id is accepted if the registry knows it and there is no conflict,
  and then the registry is inconsistent; if it is refused, the registry stays consistent exactly when no id before the
  refusal is repeated or these ids include all the agent had (`Registry.Coordinator.RegisterAgent`,
  `Registry.RepeatIsAccepted`, `Registry.RepeatIsRefused`).
- A chunk stored with a wrong checksum is not reverted when its stripe fails, although the comment at
  `src/proxy/chunk_manager.cc:301` says so: its container id is erased before. When all acknowledged writes are undone,
  the containers are as before exactly when no such chunk differs from what was there (`StripeWrite.UndoneRestores`,
  `StripeWrite.WrongChecksumStays`). So a failed overwrite can lose a stripe (`FileRun.OverwriteLoses`).
- An event that carries container ids but no chunk, or a repair request with an empty coding state, is sent with a
  wrong frame flag and is lost (`WireIo.Transmit`, `WireIo.LoseEvents`).
- Overwriting at the very end of a file of whole stripes with a length that is not whole stripes is refused, although
  an append of the same data is not (`FileModify.ModifyFile`, `FileModify.OverwriteAtEnd`).
- The limit per agent counts containers in use only as far as they are looked at: a repair may put more than (n-k)/f
  chunks of a stripe on one agent. An agent with room that gives all it can stays within the limit exactly when those in
  use are among the first `limit` it looks at (`Placement.FindSpareContainers`, `Placement.OverLimit`,
  `FaultTolerance.ReplaceAndFail`).
- A container that is too full is looked at again and again, so an agent gives exactly those before the first one that
  is too full, up to the limit, whatever comes after it (`Placement.FindSpareContainers`, `Placement.FullHides`).
- Two writes of a chunk in the same second lose a backup (`FsContainer.Container.PutsThenReverts`,
  `FsContainer.SameSecond`).
- A corrupted chunk is attributed to another one when an intact chunk before it has the same name; no outcome is
  misreported exactly when the names differ (`Checksums.MatchReply`, `Checksums.DistinctExactly`,
  `Checksums.WrongChunkReported`).
- The seconds of a date leave 32 bits exactly from 2^31 on (`PolicyDate.OverflowExactly`, `PolicyDate.FirstOverflow`).

## Model

| member | source | states |
|---|---|---|
| Gf256.MulAdds | src/common/coding/rs.cc:216-221 | products distribute over XOR, the sum of the field |
| Gf256.MulCommutes | src/common/coding/rs.cc:216-221 | products commute |
| Gf256.MulAssociates | src/common/coding/rs.cc:216-221 | scaling twice is scaling by the product |
| Gf256.MulOne | src/agent/agent.cc:295-296 | the coefficient 1 changes nothing, so a combination with ones is a plain XOR |
| GfField.Reduction | src/common/coding/rs.cc:26-27 | the polynomial of the field of ISA-L: x^8 is x^4 + x^3 + x^2 + 1 |
| GfField.Generates | src/common/coding/rs.cc:26-27 | 2 generates the field: every byte but zero is one of its first 255 powers |
| GfField.Inverse | src/common/coding/rs.cc:194-204 | every byte but zero has an inverse |
| GfField.NoZeroDivisors | src/common/coding/rs.cc:216-221 | a product is zero only if a factor is |
| Linear.SumPermutes | src/agent/agent.cc:353-354 | the XOR of bytes does not depend on their order |
| Linear.DotCombines | src/common/coding/rs.cc:312-318 | combining chunks by a combined row is combining the combinations |
| Linear.InverseUndoes | src/common/coding/rs.cc:194-204 | applying an inverse after a matrix gives the data back |
| ReedSolomon.EncodeIsRow | src/common/coding/rs.cc:57-92 | every stored chunk, copied slice or coded, is the combination of the data chunks that its matrix row names |
| ReedSolomon.EncodeIsSlice | src/common/coding/rs.cc:57-92 | the first k chunks are the data byte by byte, padded with zeros |
| ReedSolomon.DecodeRecovers | src/common/coding/rs.cc:194-235 | for any k different chunks and an inverse of their rows, decoding yields the data chunks |
| ReedSolomon.RepairRowRebuilds | src/common/coding/rs.cc:303-319 | the repair row of a lost chunk, data or code, combines the inputs into that chunk |
| ReedSolomon.PreDecode | src/common/coding/rs.cc:238-322 | the inputs are all alive chunks in order; a read plan exists iff at most n-k failed, a repair plan iff also the rows invert; each repair row rebuilds its target for all data |
| ReedSolomon.RepairMatrix | src/common/coding/rs.cc:303-319 | every row computed, copied or multiplied out, rebuilds its target |
| ReedSolomon.CombinedRow | src/common/coding/rs.cc:312-318 | the nested loops compute the row of a lost code chunk |
| ReedSolomon.MatchRows | src/common/coding/rs.cc:138-157 | the scan finds all inputs iff their ids ascend, and then collects their rows |
| ReedSolomon.Decode | src/common/coding/rs.cc:111-236 | from k chunks in ascending order a result has k chunks and is the padded data if they were encoded from it; there is none exactly when the rows do not invert |
| ReedSolomon.ReplicationInverts | src/common/coding/rs.cc:111-236 | an instance for k = 1: every copy decodes, so the assumptions can be met |
| ReedSolomon.ParityInverts | src/common/coding/rs.cc:111-236 | with one parity chunk, for every k and every chunk lost, an explicit inverse of the rows left |
| ReedSolomon.ParityNeverFails | src/common/coding/rs.cc:194-204 | for that code there is a sound inverter that succeeds for any k of the k+1 chunks, so the assumptions on inversion can be met |
| ChunkAccess.ShiftDown | src/proxy/chunk_manager.cc:1596-1612 | the move drops one node from an array and keeps the order of the rest |
| ChunkAccess.RotateOut | src/proxy/chunk_manager.cc:1613-1628 | the pairwise swaps drop one node from a range of events and keep the order of the rest |
| ChunkAccess.DropNode | src/proxy/chunk_manager.cc:1596-1631 | all four arrays drop the same node, so slots, flags, requests and replies still belong together |
| ChunkAccess.MarkFailures | src/proxy/chunk_manager.cc:1576-1584 | the rest of a failed node is marked failed, and nothing else |
| ChunkAccess.FailSlot | src/proxy/chunk_manager.cc:1574-1643 | after a failure the remaining slots are aligned as before, one node shorter |
| ChunkAccess.CheckReplies | src/proxy/chunk_manager.cc:1545-1661 | checking ends with aligned, accepted slots; what is gone was on a node of which a request sent in this access was not answered as expected; a first round is a success iff all slots passed; marks follow the original slots despite the shifts |
| ChunkAccess.SendRequests | src/proxy/chunk_manager.cc:1487-1524 | request slot i asks for the chunk that index i names |
| ChunkAccess.AwaitReplies | src/proxy/chunk_manager.cc:1531-1540 | flag and reply slot i belong to request i |
| ChunkAccess.Round | src/proxy/chunk_manager.cc:1484-1661 | one round keeps alignment and makes the remaining list shorter, or finishes |
| ChunkAccess.AccessChunks | src/proxy/chunk_manager.cc:1442-1676 | for every pattern of failures it ends; what is left is a subsequence of whole nodes; success means accepted replies for the chunks named, of the right size and checksum for a read; no chunk is asked for twice; a read succeeds iff enough chunks are left, and gives up only nodes that failed a request it sent; any other operation succeeds iff every request is sent and answered with success; without a list mark t is the fate of request t |
| ChunkAccess.CheckFile | src/proxy/chunk_manager.cc:1241-1255 | with one chunk per node a chunk is marked alive exactly when its own request was sent and answered with success |
| StripeRead.FailedChunks | src/proxy/chunk_manager.cc:657-661 | exactly the chunks not alive, in order |
| StripeRead.DecodeReplies | src/proxy/chunk_manager.cc:738-800 | the replies, placed by the chunk ids they carry, decode to as many bytes as the padded data, and to that data if they are the chunks encoded |
| StripeRead.ReadStripe | src/proxy/chunk_manager.cc:639-736 | a result is the padded data if the agents have the chunks encoded; there is none only if fewer than k alive chunks answered the request sent for them, at most one per chunk, or inversion fails |
| ChunkGroups.FindChunkGroups | src/proxy/coordinator.cc:334-366 | the table holds, per agent address, the alive located chunks in order; groups are disjoint and cover them, each with its own address |
| ChunkGroups.GroupsMean | src/proxy/coordinator.cc:341-366 | a chunk is in a group exactly when it is alive and its container has an agent, and it is the group of that agent |
| CarRepair.GroupingPreservesSum | src/agent/agent.cc:353-354 | adding up group sums is adding up all terms when the groups use each position once |
| CarRepair.PartialsAddUp | src/agent/agent.cc:341-354 | the XOR of the partial combinations of the groups is the full combination with its own coefficients |
| CarProxy.SelectedChunks | src/proxy/chunk_manager.cc:931-935 | the map sends each input chunk to its position in the plan |
| CarProxy.PackGroup | src/proxy/chunk_manager.cc:938-968 | a row of the group table adds its inputs to the packed buffers, each with its id, container and coefficient |
| CarProxy.PackGroups | src/proxy/chunk_manager.cc:928-983 | the packed tables use each input exactly once with its own coefficient, and address r is the agent that holds all of group r; packing fails only if an input is in no group |
| CarAgent.GroupIsFound | src/agent/agent.cc:265-291 | size and ids of group r lie where the cursor computes them in the flattened table |
| CarAgent.AddressIsFound | src/agent/agent.cc:308-310 | cutting at semicolons finds the r-th address |
| CarAgent.CutRequests | src/agent/agent.cc:265-317 | request r has the ids, containers, coefficients and address of group r |
| CarAgent.GetEncodedChunks | src/agent/container_manager.cc:227-264 | the partial combination of the chunks stored, iff all of them can be read |
| CarAgent.CombinePartials | src/agent/agent.cc:318-354 | the XOR of the partials, iff every request succeeds |
| RepairChunk.Repair | src/proxy/chunk_manager.cc:897-983 | the rebuilt chunk is the lost chunk; it is rebuilt iff the rows of the first k chunks but the lost one invert and each of these can be read at the agent of its container |
| Address.AddrIPOfGenAddr | src/common/io.cc:370-385 | the IP is found back from a generated address iff it has no slash |
| Registry.ReleaseRemoves | src/proxy/coordinator.cc:465-479 | shifting the list over a match takes out that container and no other |
| Registry.ReleaseDropsLast | src/proxy/coordinator.cc:465-479 | releasing a container that is not in the list takes out the last one |
| Registry.MoveOwned | src/proxy/coordinator.cc:462-482 | moving a container keeps map and lists in step; moving it again costs the agent a container of its list |
| Registry.RollBack | src/proxy/coordinator.cc:454-461 | erasing the containers moved so far leaves map and lists consistent iff none was repeated or they include all the agent had |
| Registry.CompleteMove | src/proxy/coordinator.cc:526-538 | replacing the list of the agent leaves map and lists consistent, with exactly the containers asked for |
| Registry.OneOwner | src/proxy/coordinator.cc:443-541 | no container is in the lists of two agents |
| Registry.Coordinator.SetAgentAlive | src/proxy/coordinator.cc:393-399 | status and alive set after an agent comes up |
| Registry.Coordinator.SetAgentDown | src/proxy/coordinator.cc:401-409 | an agent is in the alive set exactly when its status is true; unknown ones are reported |
| Registry.Coordinator.ClaimContainer | src/proxy/coordinator.cc:451-492 | one container is moved, or all are rolled back; a new one moves iff it is free, of this address, or of an agent that is down, a repeated one iff the agent is known |
| Registry.Coordinator.ClaimContainers | src/proxy/coordinator.cc:451-500 | all containers are moved, or those before the first refused one are rolled back |
| Registry.Coordinator.RegisterAgent | src/proxy/coordinator.cc:443-541 | exactly when a request is refused, repeated ids included: different containers are accepted iff each is free, of this address, or of an agent not in the alive set; the new state in both cases; other agents alive are untouched; exactly when the registry is valid after an accepted and after a refused request |
| Registry.Coordinator.Run | src/proxy/coordinator.cc:393-541 | any run of registrations and failures keeps the registry valid |
| Registry.TakeOver | src/proxy/coordinator.cc:454-482 | two agents register, the first going down in between or not: the second is accepted iff the first is down or they share no container, and then what they share is in its list and no longer in that of the first |
| Registry.RepeatIsAccepted | src/proxy/coordinator.cc:462-482 | an agent with containers 1 and 2 that registers 1 twice is accepted and leaves the registry invalid |
| Registry.RepeatIsRefused | src/proxy/coordinator.cc:454-461 | followed by a container of another agent the request is refused and leaves the registry invalid |
| Placement.CountInUse | src/proxy/coordinator.cc:203-225 | the pool is the set of alive ids, and the counts are its sizes per agent, duplicates and unmapped ids not counted |
| Placement.RoomForChunk | src/proxy/coordinator.cc:278 | room in the sense of the screening means that a chunk fits; a container with two bytes more than a chunk free has it |
| Placement.ScreenAgent | src/proxy/coordinator.cc:244-308 | the loop ends with at most the limit of different containers that have room and are not in use, all among the first `limit` on the way; unless enough are placed, it took everything on the way up to the limit or the first container too full for a chunk; with nothing in use round-robin starts one further next time, and with room everywhere nothing is left out |
| Placement.ScreenNext | src/proxy/coordinator.cc:241-316 | one agent adds its containers to the selection, at most the limit, none if it is at the limit; they are postponed iff fewer agents than the starting index were screened before it, or for STATIC if it is not near |
| Placement.ScreenAgents | src/proxy/coordinator.cc:241-316 | the selection over all agents, until enough containers are placed or all agents gave what they could |
| Placement.AddPostponed | src/proxy/coordinator.cc:318-322 | postponed containers fill the rest, in order |
| Placement.RegisterScreenable | src/proxy/coordinator.cc:443-541 | starting indices stay in range over an accepted registration, and over a refused one of an agent that is not alive |
| Placement.FindSpareContainers | src/proxy/coordinator.cc:186-332 | at most numSpare containers, of alive agents below the limit, not in use, each with room for ceil(size/k) bytes and none before it too full, no more than the limit per agent; fewer only if every agent below its limit gave all up to the limit or a container with less than ceil(size/k)+2 bytes free; different ones for STATIC, RR and fresh LU; agents from the starting index on come first for RR, near ones for STATIC; together with those in use an agent stays within the limit if these are among the first it looks at, and only then if it has room and gave all it could; with nothing in use and room everywhere as many as wanted or all there are |
| Placement.StockedSuffices | src/proxy/coordinator.cc:227-320 | with m containers with room on each of the agents, and m times f at most n-k, the agents can give m each |
| Placement.OverLimit | src/proxy/coordinator.cc:265-275 | three chunks of which one agent may have two: one is in use in its third container, and its first two are chosen |
| Placement.FullHides | src/proxy/coordinator.cc:277-281 | of an agent with a full container and an empty one after it none is chosen |
| FaultTolerance.CheckContainerLiveness | src/proxy/coordinator.cc:125-163 | for a valid registry a container is marked online iff it is mapped to an agent of the alive set, and the number of the others is returned; stopping early still tells whether there is one |
| FaultTolerance.FailuresBounded | src/proxy/coordinator.cc:227-230 | with at most floor((n-k)/f) containers per agent, f agents going down fail at most n-k chunks |
| FaultTolerance.FailAgents | src/proxy/coordinator.cc:401-409 | a run of failures leaves exactly the other agents alive |
| FaultTolerance.StockedIsSpacious | src/proxy/coordinator.cc:227-320 | agents with m containers with room each have room for the stripe if m times f is at most n-k and there are n in all |
| FaultTolerance.PlaceAndFail | src/proxy/coordinator.cc:186-332 | whatever f agents fail, exactly the containers of these are offline, at most n-k of those chosen, so a full fresh placement keeps at least k chunks online; it is full if the agents have room |
| FaultTolerance.ReplaceContainers | src/proxy/proxy_file_ops.cc:1873-1901 | the chunks alive together with the containers chosen for the others are no more than the limit per agent, if every agent looks at those in use in time |
| FaultTolerance.ReplaceAndFail | src/proxy/proxy_file_ops.cc:1873-1901 | a stripe made whole again in this way keeps at least k chunks online whatever f agents fail next |
| FaultTolerance.PlaceAndWrite | src/proxy/chunk_manager.cc:66-367 | any stripe of a file written to the containers chosen is stored there, in all of them if the agents acknowledge |
| FaultTolerance.FailAndCheck | src/proxy/coordinator.cc:125-163 | after any f agents fail a container is found online iff the chunk was written there and its agent is not one of them, which holds for all but n-k |
| FaultTolerance.ReadWritten | src/proxy/chunk_manager.cc:639-736 | a stripe read from the containers it was written to comes back, or too few online chunks answered the requests sent for them, or inversion fails |
| FaultTolerance.ReadAfterFailures | src/proxy/chunk_manager.cc:657-687 | for every stripe of a file: place it, write it there, fail any f agents, check, read from the containers written: exactly the chunks written to agents that did not fail are online; with k of them that answer the requests sent for them the data comes back unless inversion fails, and k are online if all n were acknowledged; with room and agents that acknowledge it is placed and written |
| FaultTolerance.SurvivesFailures | src/proxy/chunk_manager.cc:657-687 | with agents that have room, acknowledge and answer, and a library that inverts, the data of a stripe is read back whatever f agents fail after it was written |
| Striping.MaxDataSize | src/proxy/chunk_manager.cc:1396-1401 | the largest size at or below the start of the loop that fits; all smaller ones fit if chunk sizes are monotone |
| Striping.StripeSize | src/proxy/chunk_manager.cc:1387-1401 | for Reed-Solomon it is k whole chunks |
| Striping.StripesCover | src/proxy/proxy_file_ops.cc:547-548 | stripe i exists iff it starts inside the file, and the stripes reach the end of the file and less than one stripe beyond |
| Striping.CeilIsStripes | src/proxy/proxy_file_ops.cc:564 | rounding the end of a range up counts the stripes up to it |
| Striping.LengthsAgree | src/proxy/proxy_file_ops.cc:2079 | the reader computes the same stripe lengths as the writer |
| Striping.PartsPartition | src/proxy/proxy_file_ops.cc:563-579 | the stripes one after the other are the file |
| Striping.ChunkIdsUnique | src/proxy/chunk_manager.cc:442-447 | stripe * n + index determines stripe and index |
| StripeWrite.EncodeFile | src/proxy/chunk_manager.cc:369-452 | the chunks of the stripe with ids stripe * n + index, sizes and checksums |
| StripeWrite.SendChunks | src/proxy/chunk_manager.cc:148-204 | what every container has after the requests; chunks acknowledged are stored and recorded as such; chunks of other stripes are untouched |
| StripeWrite.CheckPuts | src/proxy/chunk_manager.cc:210-316 | a chunk keeps a container id iff it was acknowledged, with matching MD5 when verified; success flag and count mean what they say |
| StripeWrite.RollBack | src/proxy/chunk_manager.cc:811-854 | each selected chunk is asked for once where its container id says, and nothing else is touched |
| StripeWrite.UndoneRestores | src/proxy/chunk_manager.cc:349-358 | when the acknowledged writes are undone, all containers are as before the write iff the others left in them what was there |
| StripeWrite.RejectedStays | src/proxy/chunk_manager.cc:294-303 | a chunk stored but not acknowledged is not undone |
| StripeWrite.CleanUpStripe | src/proxy/chunk_manager.cc:349-358 | after the roll-back of a stripe whose acknowledged writes are undone: restored iff the others left no trace; what was not acknowledged stays |
| StripeWrite.WrongChecksumStays | src/proxy/chunk_manager.cc:294-303 | an overwrite that fails for its checksum leaves the chunk in the container although every undo would succeed |
| StripeWrite.WriteFileStripe | src/proxy/chunk_manager.cc:66-367 | a chunk keeps its container iff the reply arrives, says success and has the MD5 if it is verified; an overwrite succeeds iff all chunks with a container are acknowledged, and keeps all containers; a new stripe also if k are; chunks with an id are stored; after a failure whose acknowledged writes are undone nothing has changed iff the others left no trace |
| FileRead.ReadPart | src/proxy/proxy_file_ops.cc:1122-1187 | a stripe that is stored is read back, and a result is at least as long as the stripe; if there is none that stripe is unreadable with the requests sent for its chunks |
| FileRead.ReadParts | src/proxy/proxy_file_ops.cc:1116-1202 | stripes read one by one fill the buffer with the content if they are stored; it fails only if one of them is unreadable |
| FileRead.ReadFile | src/proxy/proxy_file_ops.cc:938-1211 | the buffer holds the content of the range as far as it goes, if the stripes of the range are stored, with its length; a partial read of other than whole stripes is refused, and otherwise it fails only for ranges past the end and unreadable stripes of the range |
| FileWrite.ChooseContainers | src/proxy/proxy_file_ops.cc:586-592 | an existing stripe is written where it is, a new one needs at least k containers |
| FileWrite.StripeFailure | src/proxy/chunk_manager.cc:349-358 | a failed overwrite of a stripe changes nothing if the agents store only what they acknowledge and undo what they are asked to; if they store all they get, a container has a chunk of the new data |
| FileWrite.WriteStripe | src/proxy/proxy_file_ops.cc:570-716 | the stripe is acknowledged and stored as the new metadata says, entries of other stripes are untouched |
| FileWrite.WriteFileStripes | src/proxy/proxy_file_ops.cc:534-741 | every stripe of the range is acknowledged and stored with its part of the content, existing ones in their containers; whether it succeeds or not, no chunk of another stripe or version is touched; it succeeds if the agents acknowledge |
| FileModify.ListedIsDurable | src/proxy/chunk_manager.cc:349-358 | metadata that describes a content has at least k containers for every stripe |
| FileModify.WriteFile | src/proxy/proxy_file_ops.cc:71-107 | a file written is stored with that content under its version and all its chunks were acknowledged; it succeeds if the agents acknowledge; a failure touches no other version |
| FileModify.ReplaceFile | src/proxy/proxy_file_ops.cc:51-184 | a write in place of a file on record is stored as its next version, also after the old data is removed; if it fails, all that was stored of the file on record still is |
| FileModify.RewriteIsWhole | src/proxy/proxy_file_ops.cc:326-347 | the range rewritten ends at a stripe or the end of the file and meets no later stripe |
| FileModify.FirstChunk | src/proxy/proxy_file_ops.cc:327 | the size of the first chunk gives a read alignment of a whole stripe, or of the whole of a smaller file |
| FileModify.PatchIsSlice | src/proxy/proxy_file_ops.cc:341-347 | old bytes with the data copied over them are a slice of the spliced content |
| FileModify.ReadBack | src/proxy/proxy_file_ops.cc:326-340 | what is read back differs from the content at most in stripes of the range, and not at all if these are stored; refused at the end of whole stripes, and otherwise only if a stripe of the range is unreadable |
| FileModify.ReadAndPatch | src/proxy/proxy_file_ops.cc:326-350 | read, patch and widen prepare exactly the splice into what was read |
| FileModify.CompleteMeta | src/proxy/proxy_file_ops.cc:427-457 | stripes rewritten keep the new entries, all others get the old ones |
| FileModify.Rewrite | src/proxy/proxy_file_ops.cc:384-457 | the stripes rewritten are stored and the merged metadata describes the spliced content, all acknowledged; on failure the metadata is the old one; other stripes are as stored as they were |
| FileModify.ModifyFile | src/proxy/proxy_file_ops.cc:301-532 | also for a file some stripes of which are lost: the content becomes the splice, stripes the data does not reach keep entries and bytes, no stripe changes containers, a failure keeps the metadata; past the end nothing is written, within the file and for appends at its end only unreadable stripes prevent it, for whole stripes and appends after whole stripes nothing does, and part of a stripe after whole ones is written iff it is an append; what gets to writing succeeds if the agents acknowledge; all else changes nothing |
| FileModify.OverwriteAtEnd | src/proxy/proxy_file_ops.cc:305-326 | for every file of whole stripes and data that is not: an overwrite at its end is refused, the append of the same data is written |
| FileRun.WriteThenRead | src/proxy/proxy_file_ops.cc:71-107 | what is written is read back byte for byte, unless a stripe is unreadable |
| FileRun.TakeStep | src/proxy/proxy_file_ops.cc:51-532 | one write, overwrite or append: the metadata still describes acknowledged chunks; a failed write of the whole file spares all stripes, a failed change those it does not write, and a refused one changes nothing |
| FileRun.Run | src/proxy/proxy_file_ops.cc:51-532 | over every run with failures, after every step: at least k containers per stripe, all acknowledged; a failed step keeps the metadata, a change keeps all positions; if the agents acknowledge, a write succeeds, and a change within the file or an append at its end does if what it reads can be read; past the end it fails; without failures the content is the changes applied in order |
| FileRun.ListedIsAcknowledged | src/proxy/chunk_manager.cc:261-281 | a container on record acknowledged its chunk, with its MD5 if checksums are verified |
| FileRun.ContentOnRecord | src/proxy/proxy_file_ops.cc:301-532 | the content on record is that of the successful steps in order, as long as the stripes that they read are stored |
| FileRun.NothingFailed | src/proxy/proxy_file_ops.cc:301-532 | up to the first failure the file is stored and its content is that of all steps |
| FileRun.LostMeans | src/proxy/proxy_file_ops.cc:534-741 | in every run, a stripe on record that is not stored was being written by an acceptable overwrite or append that failed and changed the containers, and no step has stored it since |
| FileRun.SpoiledIsLost | src/proxy/chunk_manager.cc:294-303 | a stripe one of whose containers has the chunk of other data is not stored |
| FileRun.OverwriteLoses | src/proxy/proxy_file_ops.cc:301-532 | a call that overwrites a stored file, fails, and leaves the file on record without its stripe |
| HealthyRun.ParityIsComplete | src/common/coding/rs.cc:194-204 | for one parity chunk there is a sound library that inverts the rows of any k chunks |
| HealthyRun.NeverBlocked | src/proxy/chunk_manager.cc:639-736 | a stored file can be read if in each stripe k chunks that have a container are alive and their agents answer |
| HealthyRun.ReadAll | src/proxy/proxy_file_ops.cc:938-1211 | a stored file is read back whole from agents that answer |
| HealthyRun.RunThenRead | src/proxy/proxy_file_ops.cc:51-532 | any run with agents that acknowledge and answer, and a read after it: every request succeeds but for changes past the end, and for part of a stripe put after whole ones not as an append; the bytes read are those of the successful requests, each one spliced in at its offset |
| HealthyRun.FromScratch | src/proxy/proxy_file_ops.cc:51-532 | the same from an empty file, with agents that keep everything they get |
| Octets.IntRoundTrip | src/common/io.cc:114-117 | a signed field is read back from its bytes |
| Octets.IntsRoundTrip | src/common/io.cc:160-168 | an array of 32-bit fields is read back from its bytes |
| Wire.ChunkRead | src/common/io.cc:174-219 | a chunk is read back from its frames, whatever follows |
| Wire.ChunkCut | src/common/io.cc:174-219 | a chunk with missing frames is rejected |
| Wire.TailRead | src/common/io.cc:233-268 | coding state and repair information are read back |
| Wire.TailCut | src/common/io.cc:233-268 | with missing frames they are rejected |
| Wire.RoundTrip | src/common/io.cc:104-276 | every well-formed event of every opcode is read back from its frames |
| Wire.TruncatedIsRejected | src/common/io.cc:104-276 | every proper prefix of the frames is rejected |
| WireIo.SendChunk | src/common/io.cc:314-338 | the frames of a chunk, the flag off only at the end of a last chunk without coding |
| WireIo.SendTail | src/common/io.cc:343-363 | the frames of the tail, framed correctly unless a repair has an empty coding state |
| WireIo.SendChunkEvent | src/common/io.cc:278-368 | the frames printed, with the flag on exactly the non-final ones iff the event has chunks for its container ids and a coding state for its repair |
| WireIo.GetStamps | src/common/io.cc:126-149 | the loop reads what the layout says |
| WireIo.GetChunks | src/common/io.cc:170-219 | the loop reads what the layout says |
| WireIo.GetChunkEvent | src/common/io.cc:104-276 | the receiver computes the parse of the message |
| WireIo.Transmit | src/common/io.cc:104-368 | sent, delivered up to the first frame without the flag and received: the same event iff it is framed correctly, otherwise rejected |
| WireIo.TransmitFilled | src/common/io.cc:41-368 | opcode by opcode, an event sent with all fields arrives with those its opcode carries: chunk data with a put, a reply to a get and a reply to an encoding request, for any bytes; container ids, coding state, repair information and the number of chunks likewise |
| WireIo.LoseEvents | src/common/io.cc:278-368 | a request for no chunk and a repair request with an empty state, both well-formed, do not arrive |
| Dedup.MoveLeft | src/proxy/proxy_file_ops.cc:778 | an overlapping move to the left moves the bytes and nothing else |
| Dedup.DedupStripe | src/proxy/proxy_file_ops.cc:759-791 | the unique bytes in order at the front, each block at its recorded offset, the length their sum, unique and duplicate lists complete |
| Dedup.InIsStripe | src/proxy/proxy_file_ops.cc:1291-1294 | table t is made of exactly the blocks that start in stripe first + t |
| Dedup.CoalesceBlocks | src/proxy/proxy_file_ops.cc:1284-1305 | every table sends each byte where its blocks do, its entries start in its stripe, and no neighbour continues the one before it |
| Dedup.LocateRestores | src/proxy/proxy_file_ops.cc:775-788 | a byte of a unique block is found back where its entry says, and no other byte is found |
| Checksums.VerifyChunks | src/agent/container_manager.cc:193-213 | the front of the list is exactly the corrupted chunks in order, with their number; -1 iff a container is missing |
| Checksums.MatchReply | src/proxy/chunk_manager.cc:1301-1314 | the marks are exact iff no intact chunk has the name of the next corrupted one |
| Checksums.DistinctIsExact | src/proxy/chunk_manager.cc:1301-1314 | different names are enough |
| Checksums.DistinctExactly | src/proxy/chunk_manager.cc:1301-1314 | no outcome of the verification is misreported iff the names differ |
| Checksums.WrongChunkReported | src/proxy/chunk_manager.cc:1301-1314 | two chunks of the same name, the second corrupted, are misreported |
| Checksums.VerifyFileChecksums | src/proxy/chunk_manager.cc:1257-1317 | a chunk is marked exactly when its verification failed, and the count is the number marked; on failure nothing is marked |
| FsFiles.ChunkIsNotOld | src/agent/container/fs.cc:376-381 | the file of a chunk is never taken for a backup |
| FsFiles.BackupIsOld | src/agent/container/fs.cc:376-381 | a backup always is |
| FsFiles.PathsDiffer | src/agent/container/fs.cc:46-55 | files of different chunks and versions are different |
| FsFiles.RevertEffect | src/agent/container/fs.cc:328-338 | the renames through the temporary name put the version in place, or change nothing |
| FsFiles.RevertUndoesPut | src/agent/container/fs.cc:62-77 | reverting a put restores all files but the backup used |
| FsContainer.Container.constructor | src/agent/container/fs.cc:22-35 | an empty container has no temporary file |
| FsContainer.Container.PutChunk | src/agent/container/fs.cc:57-134 | the files and the version after a put, successful or failed at the backup, the opening, the write or the reading back; no temporary file remains |
| FsContainer.Container.RevertChunk | src/agent/container/fs.cc:321-341 | it succeeds iff the version exists, and changes the files of no other chunk; no temporary file remains |
| FsContainer.Container.PutThenRevert | src/agent/container/fs.cc:57-341 | however a put ends, once the backup was made a revert restores all files but the backup |
| FsContainer.Container.CleanUpOldChunks | src/agent/container/fs.cc:405-426 | exactly the expired backups are removed, never a chunk |
| FsContainer.Container.PutsThenReverts | src/agent/container/fs.cc:57-341 | reverting any number of puts in reverse order succeeds iff their times differ, and then the files are as before |
| FsContainer.SameSecond | src/agent/container/fs.cc:66 | two puts in the same second cannot both be reverted |
| PolicyDate.DaysToFormula | src/ds/immutable_policy.cc:182-186 | the quotients of the formula count the days of the Gregorian years since 1970 |
| PolicyDate.SecondsOfDate | src/ds/immutable_policy.cc:177-188 | the formula returns every second t from the date of t |
| PolicyDate.OverflowExactly | src/ds/immutable_policy.cc:177-188 | no term or partial sum leaves 32 bits iff t is below 2^31 |
| PolicyDate.FirstOverflow | src/ds/immutable_policy.cc:177-188 | the last second that fits, and the one after it that does not |
| PolicyDate.MidnightOfDate | src/ds/immutable_policy.cc:64-76 | clearing the time of day rounds t down to midnight |
| PolicyDate.ImmutablePolicy.constructor | src/ds/immutable_policy.cc:170-175 | a reset policy is valid |
| PolicyDate.ImmutablePolicy.SetStartDate | src/ds/immutable_policy.cc:64-84 | the start becomes midnight of the day, refused exactly on the first day of the epoch |
| PolicyDate.ImmutablePolicy.SetStartDateTwice | src/ds/immutable_policy.cc:64-84 | setting the date that was set changes nothing |
| PolicyDate.ImmutablePolicy.SetDuration | src/ds/immutable_policy.cc:101-107 | at least one day |
| PolicyDate.ImmutablePolicy.EndDate | src/ds/immutable_policy.cc:113-115 | a policy ends at midnight, its duration after it starts |
| TaskQueue.KeyRoundTrip | src/proxy/bg_chunk_handler.cc:211-221 | splitting a key gives namespace and name, for names with underscores too |
| TaskQueue.KeysDiffer | src/proxy/bg_chunk_handler.cc:211-215 | different files have different keys |
| TaskQueue.Queue.constructor | src/proxy/bg_chunk_handler.cc:9-20 | the empty queue is valid |
| TaskQueue.Queue.AddChunkTask | src/proxy/bg_chunk_handler.cc:33-43 | the count of the file grows with the queue |
| TaskQueue.Queue.TakeTask | src/proxy/bg_chunk_handler.cc:61-68 | a task taken is still counted |
| TaskQueue.Queue.FinishTask | src/proxy/bg_chunk_handler.cc:165-172 | the count shrinks, and the key goes with the last task |
| TaskQueue.Queue.TaskExistsForFile | src/proxy/bg_chunk_handler.cc:184-188 | true iff a task of the file is queued or with a worker |
| TaskQueue.Queue.Run | src/proxy/bg_chunk_handler.cc:33-172 | over every interleaving the count is queued plus in-flight tasks and absent iff that is zero |

## Left out

- ISA-L: the inversion of matrices is a parameter that is assumed sound, not complete; generating the encoding matrix is a parameter too, with the identity on top.
- Sockets, threads, timers, Redis, logging, benchmarks, memory exhaustion: replies are arbitrary inputs and locked regions are atomic.
- Cloud containers, the journal, staging, statistics, configuration, the C client: thin or switched off in this mode.
- Background redundancy in `writeFileStripe`: only the foreground mode is modelled.
- FileWrite.Discard: the stripes written before one that failed, and the old version of a file that was replaced, may be anything after their clean-up; for the former the code asks only for their first chunk, at a container id that is moved by bytes instead of elements, and this is not followed.
- FileRun.LostMeans: says which stripes can be lost, not which are; that depends on the clean-up of `FileWrite.Discard`. For a change of one stripe `FileWrite.StripeFailure` says it.
- StripeWrite.SendChunks: an acknowledged chunk is taken to be stored as sent and to name the container it was sent to; a revert that is done brings back what was there before the write. Agents may otherwise do anything.
- FileRead.ReadFile: deduplication is off, as in the default configuration, so that each stripe is one block; a reply that passes size and checksum checks is taken to be the stored chunk, under its id.
- ChunkAccess.CheckFile: the value returned by `checkFile` counts live entries and is not modelled; the indicator array is.
- FileModify.ModifyFile: a metadata store that refuses the new metadata, renamed files, a change of the storage class, immutability checks and the size reported to the caller are left out; the containers of new stripes are given, as `Placement.FindSpareContainers` would choose them, and stripe bookkeeping of coding state is empty for Reed-Solomon.
- Repair at the proxy and repair of several chunks: the packing for repair at an agent with one failed chunk is modelled. Storing the repaired chunk is not.
- Registry.Coordinator.RegisterAgent: the array moves shift by whole elements, as intended by their byte counts; `updateAgentStatus` and the utilisation fractions are left out, the order by utilisation is given with the request.
- Placement.FindSpareContainers: needs the starting indices in range, since past the list the code reads array entries that are no longer part of it; `Placement.RegisterScreenable` says when registrations keep them there; with containers in use under LU neither distinctness nor completeness is claimed, since the search then leaves the order by utilisation. The sizes are not cut to 64 bits.
- Wire.Parse: a frame shorter than its field, and a negative count, are rejected, where the code would read past the frame or fail to allocate.
- FsContainer.Container.PutChunk: a file that can be read back right after it is written has the bytes written; the time is not zero.
- PolicyDate.SecondsOfDate: dates before the epoch and RFC 7231 strings are left out.
- Checksums.VerifyChunks: the data of chunks is released, not modelled.
