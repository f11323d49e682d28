/**
 The Reed-Solomon code of src/common/coding/rs.cc: encoding a stripe, planning and carrying out
 its decoding from any k chunks, and the repair matrix that rebuilds lost chunks.
 Inverting a matrix is left to the coding library; here it is a parameter that may fail, and
 that returns an inverse when it does not.
 */
module ReedSolomon {
  import opened Wrappers
  import opened Gf256
  import opened Linear

  type Chunk = seq<Byte>

  /** n chunks per stripe, any k of them meant to be enough; the first k rows copy the data. */
  datatype Code = Code(n: nat, k: nat, matrix: Matrix) {
    ghost predicate Valid() {
      && 0 < k <= n
      && IsMatrix(matrix, n, k)
      && forall i :: 0 <= i < k ==> matrix[i] == Unit(k, i)
    }
  }

  /** What a plan tells the caller: the chunks to fetch, how many suffice, and the repair matrix. */
  datatype Plan = Plan(inputs: seq<nat>, minInputs: nat, repair: Matrix)

  predicate Uniform(chunks: seq<Chunk>, size: nat) {
    forall j :: 0 <= j < |chunks| ==> |chunks[j]| == size
  }

  function Column(chunks: seq<Chunk>, size: nat, t: nat): (c: seq<Byte>)
    requires Uniform(chunks, size) && t < size
    ensures |c| == |chunks|
  {
    seq(|chunks|, j requires 0 <= j < |chunks| => chunks[j][t])
  }

  /** One output of the coding kernel: byte by byte, the combination of the chunks given by a row. */
  function Blend(row: Row, chunks: seq<Chunk>, size: nat): (c: Chunk)
    requires |row| == |chunks| && Uniform(chunks, size)
    ensures |c| == size
  {
    seq(size, t requires 0 <= t < size => Dot(row, Column(chunks, size, t)))
  }

  function ChunkSize(k: nat, size: nat): nat
    requires k > 0
  {
    (size + k - 1) / k
  }

  lemma ChunkSizeCovers(k: nat, size: nat)
    requires k > 0
    ensures size <= k * ChunkSize(k, size) < size + k
  {
  }

  /** The data extended with zeros to k whole chunks. */
  function Padded(data: seq<Byte>, k: nat): (p: seq<Byte>)
    requires k > 0
    ensures |p| == k * ChunkSize(k, |data|)
    ensures data <= p
  {
    ChunkSizeCovers(k, |data|);
    data + Zeros(k * ChunkSize(k, |data|) - |data|)
  }

  /** The buffer cut into `count` chunks of `size` bytes. */
  function Chop(buffer: seq<Byte>, count: nat, size: nat): (cs: seq<Chunk>)
    requires |buffer| == count * size
    ensures |cs| == count && Uniform(cs, size)
  {
    if count == 0 then [] else
      assert count * size == (count - 1) * size + size;
      [buffer[..size]] + Chop(buffer[size..], count - 1, size)
  }

  function DataChunks(data: seq<Byte>, k: nat): (cs: seq<Chunk>)
    requires k > 0
    ensures |cs| == k && Uniform(cs, ChunkSize(k, |data|))
  {
    Chop(Padded(data, k), k, ChunkSize(k, |data|))
  }

  /** The n chunks stored for a stripe: k slices of the padded data, then n - k combinations of them. */
  function Encode(code: Code, data: seq<Byte>): (cs: seq<Chunk>)
    requires code.Valid()
    ensures |cs| == code.n && Uniform(cs, ChunkSize(code.k, |data|))
  {
    var slices := DataChunks(data, code.k);
    seq(code.n, i requires 0 <= i < code.n =>
      if i < code.k then slices[i] else Blend(code.matrix[i], slices, ChunkSize(code.k, |data|)))
  }

  lemma OneLess(i: nat, size: nat)
    requires i > 0
    ensures i * size == (i - 1) * size + size
  {
  }

  /** Where slice i starts. */
  ghost function SliceStart(i: nat, size: nat): nat {
    if i == 0 then 0 else SliceStart(i - 1, size) + size
  }

  lemma {:induction false} SliceStartIs(i: nat, size: nat)
    ensures SliceStart(i, size) == i * size
  {
    if i > 0 {
      SliceStartIs(i - 1, size);
      OneLess(i, size);
    }
  }

  lemma {:induction false} ChopStep(buffer: seq<Byte>, count: nat, size: nat)
    requires |buffer| == count * size && count > 0
    ensures size <= |buffer| && |buffer[size..]| == (count - 1) * size
    ensures Chop(buffer, count, size) == [buffer[..size]] + Chop(buffer[size..], count - 1, size)
  {
    OneLess(count, size);
  }

  lemma {:induction false} ChopAt(buffer: seq<Byte>, count: nat, size: nat, i: nat)
    requires |buffer| == count * size && i < count
    ensures SliceStart(i, size) + size <= |buffer|
    ensures Chop(buffer, count, size)[i] == buffer[SliceStart(i, size)..SliceStart(i, size) + size]
  {
    hide Chop, Uniform;
    ChopStep(buffer, count, size);
    if i > 0 {
      ChopAt(buffer[size..], count - 1, size, i - 1);
      SliceOfRest(buffer, size, SliceStart(i - 1, size));
    }
  }

  lemma SliceOfRest(buffer: seq<Byte>, size: nat, at: nat)
    requires size <= |buffer| && at + size <= |buffer| - size
    ensures buffer[size..][at..at + size] == buffer[at + size..at + size + size]
  {
  }

  /** The first k chunks are the data, cut into slices and padded with zeros. */
  lemma EncodeIsSlice(code: Code, data: seq<Byte>, i: nat, x: nat)
    requires code.Valid() && i < code.k && x < ChunkSize(code.k, |data|)
    ensures Encode(code, data)[i][x] ==
              var at := i * ChunkSize(code.k, |data|) + x;
              if at < |data| then data[at] else Zero
  {
    var size := ChunkSize(code.k, |data|);
    hide ChunkSize;
    SliceStartIs(i, size);
    ChopAt(Padded(data, code.k), code.k, size, i);
  }

  /** Every stored chunk, data or code, is the combination of the data chunks given by its row. */
  lemma EncodeIsRow(code: Code, data: seq<Byte>, i: nat)
    requires code.Valid() && i < code.n
    ensures Encode(code, data)[i] == Blend(code.matrix[i], DataChunks(data, code.k), ChunkSize(code.k, |data|))
  {
    hide Dot, DataChunks;
    var slices, size := DataChunks(data, code.k), ChunkSize(code.k, |data|);
    if i < code.k {
      forall t | 0 <= t < size
        ensures Blend(code.matrix[i], slices, size)[t] == slices[i][t]
      {
        DotUnit(code.k, i, Column(slices, size, t));
      }
    }
  }

  function Join(chunks: seq<Chunk>): seq<Byte> {
    if chunks == [] then [] else chunks[0] + Join(chunks[1..])
  }

  lemma {:induction false} JoinLength(chunks: seq<Chunk>, size: nat)
    requires Uniform(chunks, size)
    ensures |Join(chunks)| == |chunks| * size
  {
    if chunks != [] {
      JoinLength(chunks[1..], size);
    }
  }

  lemma {:induction false} JoinChops(buffer: seq<Byte>, count: nat, size: nat)
    requires |buffer| == count * size
    ensures Join(Chop(buffer, count, size)) == buffer
  {
    if count != 0 {
      assert count * size == (count - 1) * size + size;
      JoinChops(buffer[size..], count - 1, size);
    }
  }

  predicate Ascending(ids: seq<nat>, n: nat) {
    && (forall i :: 0 <= i < |ids| ==> ids[i] < n)
    && (forall i, j :: 0 <= i < j < |ids| ==> ids[i] < ids[j])
  }

  predicate Within(ids: seq<nat>, n: nat) {
    forall i :: 0 <= i < |ids| ==> ids[i] < n
  }

  function Select<T>(xs: seq<T>, ids: seq<nat>): (ys: seq<T>)
    requires Within(ids, |xs|)
    ensures |ys| == |ids|
  {
    seq(|ids|, i requires 0 <= i < |ids| => xs[ids[i]])
  }

  lemma SelectedRows(code: Code, ids: seq<nat>)
    requires code.Valid() && Within(ids, code.n)
    ensures IsMatrix(Select(code.matrix, ids), |ids|, code.k)
  {
  }

  /** Byte t of the chunks at `ids` is the matching rows applied to byte t of the data chunks. */
  lemma ColumnsOfChunks(code: Code, data: seq<Byte>, ids: seq<nat>, t: nat)
    requires code.Valid() && Within(ids, code.n) && t < ChunkSize(code.k, |data|)
    ensures IsMatrix(Select(code.matrix, ids), |ids|, code.k)
    ensures Column(Select(Encode(code, data), ids), ChunkSize(code.k, |data|), t)
            == Apply(Select(code.matrix, ids), Column(DataChunks(data, code.k), ChunkSize(code.k, |data|), t))
  {
    hide Dot, DataChunks, Encode, ChunkSize;
    var size := ChunkSize(code.k, |data|);
    var chunks, slices := Encode(code, data), DataChunks(data, code.k);
    forall j | 0 <= j < |ids|
      ensures Column(Select(chunks, ids), size, t)[j] == Apply(Select(code.matrix, ids), Column(slices, size, t))[j]
    {
      EncodeIsRow(code, data, ids[j]);
    }
  }

  /** The k decoded data chunks, one per row of the inverted matrix. */
  function DecodeWith(inverse: Matrix, inputs: seq<Chunk>, size: nat): (cs: seq<Chunk>)
    requires IsMatrix(inverse, |inverse|, |inputs|) && Uniform(inputs, size)
    ensures |cs| == |inverse| && Uniform(cs, size)
  {
    seq(|inverse|, l requires 0 <= l < |inverse| => Blend(inverse[l], inputs, size))
  }

  /** Any k chunks whose rows were inverted give back the data chunks. */
  lemma DecodeRecovers(code: Code, data: seq<Byte>, ids: seq<nat>, inverse: Matrix)
    requires code.Valid() && Within(ids, code.n)
    requires IsInverse(inverse, Select(code.matrix, ids), code.k)
    ensures DecodeWith(inverse, Select(Encode(code, data), ids), ChunkSize(code.k, |data|)) == DataChunks(data, code.k)
  {
    hide Dot, DataChunks, Encode, ChunkSize, Column, Apply;
    var size := ChunkSize(code.k, |data|);
    var inputs, slices := Select(Encode(code, data), ids), DataChunks(data, code.k);
    forall l, t | 0 <= l < code.k && 0 <= t < size
      ensures Blend(inverse[l], inputs, size)[t] == slices[l][t]
    {
      ByteRecovers(code, data, ids, inverse, l, t);
    }
    forall l | 0 <= l < code.k
      ensures DecodeWith(inverse, inputs, size)[l] == slices[l]
    {
    }
  }

  lemma ByteRecovers(code: Code, data: seq<Byte>, ids: seq<nat>, inverse: Matrix, l: nat, t: nat)
    requires code.Valid() && Within(ids, code.n)
    requires IsInverse(inverse, Select(code.matrix, ids), code.k)
    requires l < code.k && t < ChunkSize(code.k, |data|)
    ensures Blend(inverse[l], Select(Encode(code, data), ids), ChunkSize(code.k, |data|))[t] ==
              DataChunks(data, code.k)[l][t]
  {
    hide Dot, DataChunks, Encode, ChunkSize;
    var column := Column(DataChunks(data, code.k), ChunkSize(code.k, |data|), t);
    ColumnsOfChunks(code, data, ids, t);
    InverseUndoes(inverse, Select(code.matrix, ids), column);
    assert Apply(inverse, Apply(Select(code.matrix, ids), column))[l] == column[l];
  }

  /** The row that rebuilds chunk t out of the inputs, as a combination of the inverted rows. */
  function RepairRow(code: Code, inverse: Matrix, t: nat): (r: Row)
    requires code.Valid() && IsMatrix(inverse, code.k, code.k) && t < code.n
    ensures |r| == code.k
  {
    Combine(code.matrix[t], inverse, code.k)
  }

  /** Applying the repair row of chunk t to the k inputs gives chunk t, whatever the data was. */
  lemma RepairRowRebuilds(code: Code, data: seq<Byte>, ids: seq<nat>, inverse: Matrix, target: nat)
    requires code.Valid() && Within(ids, code.n) && target < code.n
    requires IsInverse(inverse, Select(code.matrix, ids), code.k)
    ensures Blend(RepairRow(code, inverse, target), Select(Encode(code, data), ids), ChunkSize(code.k, |data|))
            == Encode(code, data)[target]
  {
    hide Dot, DataChunks, Encode, ChunkSize, Combine;
    var size := ChunkSize(code.k, |data|);
    var inputs, slices := Select(Encode(code, data), ids), DataChunks(data, code.k);
    EncodeIsRow(code, data, target);
    forall t | 0 <= t < size
      ensures Blend(RepairRow(code, inverse, target), inputs, size)[t] == Blend(code.matrix[target], slices, size)[t]
    {
      var column := Column(slices, size, t);
      ColumnsOfChunks(code, data, ids, t);
      InverseUndoes(inverse, Select(code.matrix, ids), column);
      DotCombines(code.matrix[target], inverse, Column(inputs, size, t));
    }
  }

  /** The contract of the library's matrix inversion: it may fail, and never returns a wrong inverse. */
  ghost predicate SoundInverter(invert: Matrix -> Option<Matrix>, k: nat) {
    forall m: Matrix :: IsMatrix(m, k, k) && invert(m).Some? ==> IsInverse(invert(m).value, m, k)
  }

  /** The chunks below n that did not fail, in order. */
  function Alive(failed: seq<nat>, n: nat): seq<nat> {
    if n == 0 then [] else Alive(failed, n - 1) + (if n - 1 in failed then [] else [n - 1])
  }

  lemma {:induction false} AliveIsAscending(failed: seq<nat>, n: nat)
    ensures Ascending(Alive(failed, n), n)
    ensures forall i: nat :: i in Alive(failed, n) <==> i < n && i !in failed
  {
    if n != 0 {
      AliveIsAscending(failed, n - 1);
    }
  }

  /** n chunks of which e failed leave n - e. */
  lemma {:induction false} AliveCount(failed: seq<nat>, n: nat, e: nat)
    requires Ascending(failed, if failed == [] then n else failed[|failed| - 1] + 1) && e <= |failed|
    requires forall x :: 0 <= x < e ==> failed[x] < n
    requires forall x :: e <= x < |failed| ==> n <= failed[x]
    ensures |Alive(failed, n)| == n - e
  {
    if n != 0 {
      if n - 1 in failed {
        assert failed[e - 1] == n - 1;
        AliveCount(failed, n - 1, e - 1);
      } else {
        AliveCount(failed, n - 1, e);
      }
    }
  }

  /** The first k chunks left when the given ones failed. */
  ghost function FirstInputs(code: Code, failed: seq<nat>): (ids: seq<nat>)
    requires code.Valid() && Ascending(failed, code.n) && |failed| <= code.n - code.k
    ensures |ids| == code.k && Ascending(ids, code.n)
  {
    AliveIsAscending(failed, code.n);
    AliveCount(failed, code.n, |failed|);
    Alive(failed, code.n)[..code.k]
  }

  /** `row` rebuilds chunk `target` of the stripe of `data` out of the chunks at `ids`. */
  ghost predicate RebuildsFor(code: Code, row: Row, ids: seq<nat>, target: nat, data: seq<Byte>)
    requires code.Valid() && |row| == |ids| && Within(ids, code.n) && target < code.n
  {
    Blend(row, Select(Encode(code, data), ids), ChunkSize(code.k, |data|)) == Encode(code, data)[target]
  }

  /** `row` rebuilds chunk `target` of every stripe out of the chunks at `ids`. */
  ghost predicate Rebuilds(code: Code, row: Row, ids: seq<nat>, target: nat)
    requires code.Valid()
  {
    && |row| == |ids| && Within(ids, code.n) && target < code.n
    && forall data :: RebuildsFor(code, row, ids, target, data)
  }

  lemma RepairRowRebuildsAll(code: Code, ids: seq<nat>, inverse: Matrix, target: nat)
    requires code.Valid() && Within(ids, code.n) && |ids| == code.k && target < code.n
    requires IsInverse(inverse, Select(code.matrix, ids), code.k)
    ensures Rebuilds(code, RepairRow(code, inverse, target), ids, target)
  {
    hide RepairRow, Blend, Encode, ChunkSize;
    forall data
      ensures RebuildsFor(code, RepairRow(code, inverse, target), ids, target, data)
    {
      RepairRowRebuilds(code, data, ids, inverse, target);
    }
  }

  /**
   Plans a decoding: all chunks that did not fail are inputs, any k of them are enough, and for a
   repair one row per failed chunk says how the first k inputs rebuild it.
   */
  method PreDecode(code: Code, failed: seq<nat>, isRepair: bool, invert: Matrix -> Option<Matrix>)
    returns (plan: Option<Plan>)
    requires code.Valid() && Ascending(failed, code.n) && SoundInverter(invert, code.k)
    ensures plan.Some? ==>
              && plan.value.inputs == Alive(failed, code.n)
              && plan.value.minInputs == code.k <= |plan.value.inputs|
    ensures !isRepair ==> (plan.Some? <==> |failed| <= code.n - code.k)
    ensures isRepair ==>
              (plan.Some? <==>
               |failed| <= code.n - code.k && invert(Select(code.matrix, FirstInputs(code, failed))).Some?)
    ensures isRepair && plan.Some? ==>
              && |plan.value.repair| == |failed|
              && forall e :: 0 <= e < |failed| ==>
                   Rebuilds(code, plan.value.repair[e], FirstInputs(code, failed), failed[e])
  {
    if |failed| > code.n - code.k {
      return None;
    }
    var inputs: seq<nat> := [];
    var e := 0;
    for i := 0 to code.n
      invariant inputs == Alive(failed, i)
      invariant 0 <= e <= |failed| && e + |inputs| == i
      invariant forall x :: 0 <= x < e ==> failed[x] < i
      invariant forall x :: e <= x < |failed| ==> i <= failed[x]
    {
      if e < |failed| && failed[e] == i {
        e := e + 1;
      } else {
        assert i !in failed;
        inputs := inputs + [i];
      }
    }
    if !isRepair {
      return Some(Plan(inputs, code.k, []));
    }
    var ids := inputs[..code.k];
    AliveIsAscending(failed, code.n);
    SelectedRows(code, ids);
    var inverse := invert(Select(code.matrix, ids));
    if inverse.None? {
      return None;
    }
    var repair := RepairMatrix(code, ids, inverse.value, failed);
    plan := Some(Plan(inputs, code.k, repair));
  }

  /** Copies the inverted rows of lost data chunks, and combines them for lost code chunks. */
  method RepairMatrix(code: Code, ids: seq<nat>, inverse: Matrix, failed: seq<nat>) returns (repair: Matrix)
    requires code.Valid() && Within(ids, code.n) && |ids| == code.k && Within(failed, code.n)
    requires IsInverse(inverse, Select(code.matrix, ids), code.k)
    ensures |repair| == |failed|
    ensures forall e :: 0 <= e < |failed| ==> Rebuilds(code, repair[e], ids, failed[e])
  {
    hide Rebuilds, RepairRow;
    repair := [];
    var i := 0;
    while i < |failed| && failed[i] < code.k
      invariant 0 <= i <= |failed| && |repair| == i
      invariant forall e :: 0 <= e < i ==> Rebuilds(code, repair[e], ids, failed[e])
    {
      CopiedRowRebuilds(code, ids, inverse, failed[i]);
      repair := repair + [inverse[failed[i]]];
      i := i + 1;
    }
    while i < |failed|
      invariant 0 <= i <= |failed| && |repair| == i
      invariant forall e :: 0 <= e < i ==> Rebuilds(code, repair[e], ids, failed[e])
    {
      var row := CombinedRow(code, inverse, failed[i]);
      RepairRowRebuildsAll(code, ids, inverse, failed[i]);
      repair := repair + [row];
      i := i + 1;
    }
  }

  lemma CopiedRowRebuilds(code: Code, ids: seq<nat>, inverse: Matrix, target: nat)
    requires code.Valid() && Within(ids, code.n) && |ids| == code.k && target < code.k
    requires IsInverse(inverse, Select(code.matrix, ids), code.k)
    ensures Rebuilds(code, inverse[target], ids, target)
  {
    hide Rebuilds, Combine;
    CombineUnit(code.k, target, inverse, code.k);
    RepairRowRebuildsAll(code, ids, inverse, target);
  }

  /** The double loop that multiplies a row of the encoding matrix with the inverse. */
  method CombinedRow(code: Code, inverse: Matrix, target: nat) returns (row: Row)
    requires code.Valid() && IsMatrix(inverse, code.k, code.k) && target < code.n
    ensures row == RepairRow(code, inverse, target)
  {
    hide Add, Mul, Combine;
    var e := code.matrix[target];
    row := [];
    for j := 0 to code.k
      invariant |row| == j
      invariant forall x :: 0 <= x < j ==> row[x] == Combine(e, inverse, code.k)[x]
    {
      var s := Zero;
      ghost var terms := Products(ColumnOf(inverse, code.k, j), e);
      for l := 0 to code.k
        invariant s == Sum(terms[..l])
      {
        s := Add(s, Mul(inverse[l][j], e[l]));
        SumSnoc(terms[..l], terms[l]);
        assert terms[..l + 1] == terms[..l] + [terms[l]];
      }
      assert terms[..code.k] == terms;
      CombineAt(e, inverse, code.k, j);
      row := row + [s];
    }
  }

  /**
   Walks over the chunk ids 0..n-1 and collects the encoding row of each input in turn. All inputs
   are matched exactly when their ids come in ascending order.
   */
  method MatchRows(code: Code, ids: seq<nat>) returns (rows: Matrix, matched: nat)
    requires code.Valid()
    ensures matched <= |ids| && Within(ids[..matched], code.n)
    ensures rows == Select(code.matrix, ids[..matched])
    ensures matched == |ids| <==> Ascending(ids, code.n)
  {
    rows, matched := [], 0;
    for i := 0 to code.n
      invariant matched <= |ids| && Ascending(ids[..matched], i)
      invariant rows == Select(code.matrix, ids[..matched])
      invariant matched < |ids| && ids[matched] < i ==> 0 < matched && ids[matched] <= ids[matched - 1]
    {
      if matched < |ids| && ids[matched] == i {
        rows := rows + [code.matrix[i]];
        assert ids[..matched + 1] == ids[..matched] + [i];
        matched := matched + 1;
      }
    }
    assert matched == |ids| ==> ids[..matched] == ids;
  }

  /** Decoding: when it succeeds on chunks of a stripe, the result is the padded data of that stripe. */
  method Decode(code: Code, ids: seq<nat>, inputs: seq<Chunk>, size: nat, invert: Matrix -> Option<Matrix>)
    returns (decoded: Option<seq<Byte>>)
    requires code.Valid() && Ascending(ids, code.n) && |ids| == |inputs| && Uniform(inputs, size)
    requires SoundInverter(invert, code.k)
    ensures decoded.None? <==> |ids| < code.k || invert(Select(code.matrix, ids[..code.k])).None?
    ensures decoded.Some? ==> |decoded.value| == code.k * size
    ensures forall data {:trigger Encode(code, data)} ::
              size == ChunkSize(code.k, |data|) && inputs == Select(Encode(code, data), ids) && decoded.Some? ==>
                decoded.value == Padded(data, code.k)
  {
    if |ids| < code.k {
      return None;
    }
    var rows, matched := MatchRows(code, ids);
    assert ids[..matched] == ids;
    var first := ids[..code.k];
    assert rows[..code.k] == Select(code.matrix, first);
    SelectedRows(code, first);
    var inverse := invert(rows[..code.k]);
    if inverse.None? {
      return None;
    }
    var chunks := DecodeWith(inverse.value, inputs[..code.k], size);
    decoded := Some(Join(chunks));
    JoinLength(chunks, size);
    forall data {:trigger Encode(code, data)} | size == ChunkSize(code.k, |data|)
                                                && inputs == Select(Encode(code, data), ids)
      ensures Join(chunks) == Padded(data, code.k)
    {
      assert inputs[..code.k] == Select(Encode(code, data), first);
      DecodeRecovers(code, data, first, inverse.value);
      JoinChops(Padded(data, code.k), code.k, size);
    }
  }

  /** The replication code, k = 1: every chunk is a copy of the data, and every one can be inverted. */
  lemma ReplicationInverts(n: nat, id: nat)
    requires id < n
    ensures var code := Code(n, 1, seq(n, _ => [One]));
            code.Valid() && IsInverse([[One]], Select(code.matrix, [id]), 1)
  {
    var code := Code(n, 1, seq(n, _ => [One]));
    assert Unit(1, 0) == [One];
    assert Select(code.matrix, [id]) == [[One]];
    CombineUnit(1, 0, [[One]], 1);
  }

  /** The code with one parity chunk, the XOR of the data chunks. */
  function Parity(k: nat): Code {
    Code(k + 1, k, seq(k + 1, (i: nat) => if i < k then Unit(k, i) else Ones(k)))
  }

  /** All chunks but one. */
  function Others(k: nat, lost: nat): (ids: seq<nat>)
    ensures |ids| == k
  {
    seq(k, j => if j < lost then j else j + 1)
  }

  /** A lost data chunk is the XOR of all others; the rest are at hand. */
  function ParityInverse(k: nat, lost: nat): Matrix {
    seq(k, (i: nat) => if i < lost then Unit(k, i) else if i == lost then Ones(k) else Unit(k, i - 1))
  }

  /** The XOR of the rows left from row j on: each data row from there on cancels against the parity row. */
  function Cancelled(k: nat, lost: nat, j: nat): Row {
    seq(k, c => if c == lost || (if c < lost then c else c - 1) < j then One else Zero)
  }

  lemma ScaleOne(row: Row)
    ensures ScaleRow(One, row) == row
  {
    hide Mul;
    forall c | 0 <= c < |row|
      ensures Mul(row[c], One) == row[c]
    {
      MulOne(row[c]);
    }
  }

  lemma AddZeros(row: Row)
    ensures AddRows(row, Zeros(|row|)) == row
  {
    hide Add;
    forall c | 0 <= c < |row|
      ensures Add(row[c], Zero) == row[c]
    {
      AddZero(row[c]);
    }
  }

  /** The rows of the chunks left when data chunk `lost` is missing. */
  ghost predicate ParityLeft(k: nat, lost: nat, rows: Matrix) {
    && IsMatrix(rows, k, k) && lost < k && rows[k - 1] == Ones(k)
    && forall j :: 0 <= j < k - 1 ==> rows[j] == Unit(k, Others(k, lost)[j])
  }

  lemma LastCancelled(k: nat, lost: nat)
    requires lost < k
    ensures Cancelled(k, lost, k - 1) == Ones(k) && Cancelled(k, lost, 0) == Unit(k, lost)
  {
  }

  lemma CombineOnes(k: nat, rows: Matrix)
    requires IsMatrix(rows, |rows|, k) && rows != []
    ensures Combine(Ones(|rows|), rows, k) == AddRows(rows[0], Combine(Ones(|rows| - 1), rows[1..], k))
  {
    hide Mul, Add, AddRows;
    assert Ones(|rows|)[1..] == Ones(|rows| - 1);
    ScaleOne(rows[0]);
  }

  lemma CombineOne(k: nat, row: Row)
    requires |row| == k
    ensures Combine(Ones(1), [row], k) == row
  {
    hide Mul, Add, AddRows;
    CombineOnes(k, [row]);
    AddZeros(row);
  }

  lemma {:induction false} OnesCancel(k: nat, lost: nat, rows: Matrix, j: nat)
    requires j < k && ParityLeft(k, lost, rows)
    ensures IsMatrix(rows[j..], k - j, k)
    ensures Combine(Ones(k - j), rows[j..], k) == Cancelled(k, lost, j)
    decreases k - j
  {
    hide Combine, Ones, Unit, Others, Cancelled, AddRows;
    if j + 1 == k {
      assert rows[j..] == [rows[j]];
      CombineOne(k, rows[j]);
      LastCancelled(k, lost);
    } else {
      CombineOnes(k, rows[j..]);
      assert rows[j..][1..] == rows[j + 1..] && rows[j..][0] == rows[j];
      OnesCancel(k, lost, rows, j + 1);
      CancelStep(k, lost, j);
    }
  }

  lemma CancelStep(k: nat, lost: nat, j: nat)
    requires j + 1 < k && lost < k
    ensures AddRows(Unit(k, Others(k, lost)[j]), Cancelled(k, lost, j + 1)) == Cancelled(k, lost, j)
  {
    var next, row := Cancelled(k, lost, j + 1), Unit(k, Others(k, lost)[j]);
    assert Add(One, One) == Zero;
    forall c | 0 <= c < k
      ensures Add(row[c], next[c]) == Cancelled(k, lost, j)[c]
    {
      AddZero(next[c]);
    }
  }

  lemma ParityIsValid(k: nat)
    requires 0 < k
    ensures Parity(k).Valid() && IsMatrix(Parity(k).matrix, k + 1, k)
  {
    assert IsMatrix(Parity(k).matrix, k + 1, k);
  }

  lemma InverseIsMatrix(k: nat, lost: nat)
    ensures IsMatrix(ParityInverse(k, lost), k, k)
  {
    forall i | 0 <= i < k
      ensures |ParityInverse(k, lost)[i]| == k
    {
      var row := if i < lost then Unit(k, i) else if i == lost then Ones(k) else Unit(k, i - 1);
      assert ParityInverse(k, lost)[i] == row;
    }
  }

  lemma OthersAre(k: nat, lost: nat)
    requires lost <= k
    ensures Ascending(Others(k, lost), k + 1)
    ensures forall x :: 0 <= x < k ==> Others(k, lost)[x] == if x < lost then x else x + 1
  {
  }

  lemma ParityRowsAre(k: nat)
    requires 0 < k
    ensures |Parity(k).matrix| == k + 1 && Parity(k).matrix[k] == Ones(k)
    ensures forall i :: 0 <= i < k ==> Parity(k).matrix[i] == Unit(k, i)
  {
  }

  lemma ParityRows(k: nat, lost: nat)
    requires 0 < k && lost <= k
    ensures Parity(k).Valid() && Ascending(Others(k, lost), k + 1)
    ensures var rows := Select(Parity(k).matrix, Others(k, lost));
            && IsMatrix(rows, k, k) && (lost < k ==> ParityLeft(k, lost, rows))
            && forall i :: 0 <= i < k && i != lost ==> rows[if i < lost then i else i - 1] == Unit(k, i)
    ensures IsMatrix(ParityInverse(k, lost), k, k)
  {
    hide Code.Valid, ParityInverse, Unit, Ones, Others, Parity;
    ParityIsValid(k);
    ParityRowsAre(k);
    InverseIsMatrix(k, lost);
    OthersAre(k, lost);
    var matrix, ids := Parity(k).matrix, Others(k, lost);
    var rows := Select(matrix, ids);
    forall j | 0 <= j < k
      ensures rows[j] == matrix[ids[j]]
    {
    }
    forall i | 0 <= i < k && i != lost
      ensures rows[if i < lost then i else i - 1] == Unit(k, i)
    {
      assert ids[if i < lost then i else i - 1] == i && matrix[i] == Unit(k, i);
    }
  }

  lemma ParityRow(k: nat, lost: nat, rows: Matrix, i: nat)
    requires i < k && IsMatrix(rows, k, k) && (lost < k ==> ParityLeft(k, lost, rows))
    requires i != lost ==> rows[if i < lost then i else i - 1] == Unit(k, i)
    ensures Combine(ParityInverse(k, lost)[i], rows, k) == Unit(k, i)
  {
    hide Combine, ParityLeft, Cancelled, Unit;
    if i == lost {
      OnesCancel(k, lost, rows, 0);
      assert rows[0..] == rows;
      LastCancelled(k, lost);
    } else {
      CombineUnit(k, if i < lost then i else i - 1, rows, k);
    }
  }

  /** With one parity chunk any k of the k + 1 chunks can be decoded, for every k. */
  lemma ParityInverts(k: nat, lost: nat)
    requires 0 < k && lost <= k
    ensures Parity(k).Valid() && Ascending(Others(k, lost), k + 1)
    ensures IsInverse(ParityInverse(k, lost), Select(Parity(k).matrix, Others(k, lost)), k)
  {
    ParityRows(k, lost);
    hide Combine, Parity, ParityInverse, ParityLeft, Others, Select, Unit;
    var rows := Select(Parity(k).matrix, Others(k, lost));
    forall i: nat | i < k {
      ParityRow(k, lost, rows, i);
    }
  }

  lemma {:induction false} AscendingGrows(ids: seq<nat>, j: nat, i: nat)
    requires j <= i < |ids| && forall x, y :: 0 <= x < y < |ids| ==> ids[x] < ids[y]
    ensures ids[i] - ids[j] >= i - j
  {
    if j < i {
      AscendingGrows(ids, j, i - 1);
    }
  }

  /** Any k of the k + 1 chunks are all but one. */
  lemma {:induction false} AllButOne(k: nat, ids: seq<nat>, j: nat) returns (lost: nat)
    requires Ascending(ids, k + 1) && j <= |ids| == k && forall x :: 0 <= x < j ==> ids[x] == x
    ensures j <= lost <= k && ids == Others(k, lost)
    decreases k - j
  {
    if j < k {
      AscendingGrows(ids, j, k - 1);
      AscendingGrows(ids, 0, j);
    }
    if j < k && ids[j] == j {
      lost := AllButOne(k, ids, j + 1);
    } else {
      lost := j;
      forall x | j <= x < k
        ensures ids[x] == x + 1
      {
        AscendingGrows(ids, j, x);
        AscendingGrows(ids, x, k - 1);
      }
    }
  }

  /** The rows of all chunks but one. */
  ghost predicate LeftOf(k: nat, lost: nat, rows: Matrix) {
    lost <= k && Within(Others(k, lost), |Parity(k).matrix|) && rows == Select(Parity(k).matrix, Others(k, lost))
  }

  /** An inverter for the code with one parity chunk. */
  ghost function InvertParity(k: nat, rows: Matrix): Option<Matrix> {
    if exists lost: nat :: LeftOf(k, lost, rows) then
      var lost: nat :| LeftOf(k, lost, rows);
      Some(ParityInverse(k, lost))
    else
      None
  }

  lemma InvertedIsInverse(k: nat, rows: Matrix)
    requires 0 < k && InvertParity(k, rows).Some?
    ensures IsInverse(InvertParity(k, rows).value, rows, k)
  {
    hide Parity, ParityInverse, Others, IsInverse, Select;
    var lost: nat :| LeftOf(k, lost, rows) && InvertParity(k, rows).value == ParityInverse(k, lost);
    ParityInverts(k, lost);
  }

  /** It is sound, and never fails for k different chunks. */
  lemma ParityNeverFails(k: nat, ids: seq<nat>)
    requires 0 < k && Ascending(ids, k + 1) && |ids| == k
    ensures Parity(k).Valid() && |Parity(k).matrix| == k + 1 && InvertParity(k, Select(Parity(k).matrix, ids)).Some?
    ensures SoundInverter(rows => InvertParity(k, rows), k)
  {
    ParityRows(k, 0);
    assert |Parity(k).matrix| == k + 1;
    hide Parity, ParityInverse, Others, IsInverse, InvertParity, Select;
    var lost := AllButOne(k, ids, 0);
    LeftIsInverted(k, lost, Select(Parity(k).matrix, ids));
    forall rows | InvertParity(k, rows).Some? {
      InvertedIsInverse(k, rows);
    }
  }

  lemma LeftIsInverted(k: nat, lost: nat, rows: Matrix)
    requires LeftOf(k, lost, rows)
    ensures InvertParity(k, rows).Some?
  {
  }
}
