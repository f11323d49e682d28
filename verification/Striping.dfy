/**
 The arithmetic of stripes, src/proxy/chunk_manager.cc and src/proxy/proxy_file_ops.cc: how large a
 stripe is, how a file is cut into stripes when it is written and when it is read.
 */
module Striping {
  import opened Blocks
  import opened ReedSolomon

  /** The chunks of a stripe with `size` bytes of data fit into the room of a node. */
  predicate Fits(chunkSizeOf: nat -> nat, perNode: nat, chunkSize: nat, size: nat) {
    chunkSizeOf(size) * perNode <= chunkSize
  }

  /** What the data chunks can take at most. */
  function Capacity(perNode: nat, dataChunks: nat, chunkSize: nat): nat
    requires perNode > 0
  {
    chunkSize / perNode * dataChunks
  }

  ghost predicate Monotone(f: nat -> nat) {
    forall x, y :: x <= y ==> f(x) <= f(y)
  }

  lemma SmallerFits(chunkSizeOf: nat -> nat, perNode: nat, chunkSize: nat, s: nat, size: nat)
    requires Monotone(chunkSizeOf) && s <= size && Fits(chunkSizeOf, perNode, chunkSize, size)
    ensures Fits(chunkSizeOf, perNode, chunkSize, s)
  {
    var x, y := chunkSizeOf(s), chunkSizeOf(size);
    if x < y {
      MulSteps(perNode, x, y);
    }
  }

  /**
   The size of the data of a stripe: from what the data chunks can take, downwards to the first size
   that fits. It is the largest one that fits; for a monotone chunk size, the smaller ones fit too.
   */
  method MaxDataSize(chunkSizeOf: nat -> nat, perNode: nat, dataChunks: nat, extra: nat, chunkSize: nat)
    returns (size: nat)
    requires perNode > 0 && extra <= Capacity(perNode, dataChunks, chunkSize)
    requires Fits(chunkSizeOf, perNode, chunkSize, 0)
    ensures size <= Capacity(perNode, dataChunks, chunkSize) - extra && Fits(chunkSizeOf, perNode, chunkSize, size)
    ensures forall s: nat :: size < s <= Capacity(perNode, dataChunks, chunkSize) - extra ==>
              !Fits(chunkSizeOf, perNode, chunkSize, s)
    ensures Monotone(chunkSizeOf) ==> forall s: nat :: s <= size ==> Fits(chunkSizeOf, perNode, chunkSize, s)
  {
    hide Fits, Capacity, Monotone;
    size := Capacity(perNode, dataChunks, chunkSize) - extra;
    while !Fits(chunkSizeOf, perNode, chunkSize, size)
      invariant size <= Capacity(perNode, dataChunks, chunkSize) - extra
      invariant forall s: nat :: size < s <= Capacity(perNode, dataChunks, chunkSize) - extra ==>
                  !Fits(chunkSizeOf, perNode, chunkSize, s)
      decreases size
    {
      size := size - 1;
    }
    forall s: nat | s <= size && Monotone(chunkSizeOf)
      ensures Fits(chunkSizeOf, perNode, chunkSize, s)
    {
      SmallerFits(chunkSizeOf, perNode, chunkSize, s, size);
    }
  }

  /** For Reed-Solomon codes it is k whole chunks. */
  method StripeSize(k: nat, chunkSize: nat) returns (size: nat)
    requires k > 0
    ensures size == k * chunkSize
  {
    var chunkSizeOf := (s: nat) => ChunkSize(k, s);
    FullChunks(k, chunkSize);
    hide Fits, Capacity;
    size := MaxDataSize(chunkSizeOf, 1, k, 0, chunkSize);
  }

  lemma FullChunks(k: nat, c: nat)
    requires k > 0
    ensures ChunkSize(k, k * c) == c && Capacity(1, k, c) == k * c
    ensures Fits(s => ChunkSize(k, s), 1, c, 0) && Fits(s => ChunkSize(k, s), 1, c, k * c)
  {
    ModUnique(k * c + k - 1, c, k - 1, k);
    ModUnique(k - 1, 0, k - 1, k);
  }

  /** The file offset of stripe i. */
  function Pos(i: nat, a: nat): nat {
    a * i
  }

  lemma PosSteps(i: nat, j: nat, a: nat)
    requires i < j
    ensures Pos(i, a) + a <= Pos(j, a)
  {
    MulSteps(a, i, j);
  }

  lemma PosOrder(i: nat, j: nat, n: nat)
    requires i <= j
    ensures Pos(i, n) <= Pos(j, n)
  {
    if i < j {
      PosSteps(i, j, n);
    }
  }

  lemma PosReflects(i: nat, j: nat, a: nat)
    requires a > 0 && Pos(i, a) <= Pos(j, a)
    ensures i <= j
  {
    hide Pos;
    if j < i {
      PosSteps(j, i, a);
    }
  }

  lemma PosNext(i: nat, a: nat)
    ensures Pos(i + 1, a) == Pos(i, a) + a && Pos(0, a) == 0
  {
  }

  /** The stripe a file offset lies in. */
  function StripeAt(offset: nat, a: nat): nat
    requires a > 0
  {
    offset / a
  }

  /** The number of stripes of a file, as the writer computes it. */
  function Stripes(size: nat, a: nat): nat
    requires a > 0
  {
    size / a + if size % a == 0 then 0 else 1
  }

  lemma StripesCover(size: nat, a: nat)
    requires a > 0
    ensures Pos(size / a, a) <= size < Pos(size / a, a) + a
    ensures size <= Pos(Stripes(size, a), a) < size + a
    ensures size % a == 0 <==> Pos(size / a, a) == size
    ensures size % a == 0 ==> Pos(Stripes(size, a), a) == size
    ensures forall i: nat :: i < Stripes(size, a) <==> Pos(i, a) < size
  {
    var q := size / a;
    assert size == a * q + size % a;
    PosNext(q, a);
    forall i: nat
      ensures i < Stripes(size, a) <==> Pos(i, a) < size
    {
      if i < q {
        PosSteps(i, q, a);
      } else if q < i {
        PosSteps(q, i, a);
      }
    }
  }

  /** Rounding the end of a range up to stripes counts the same stripes. */
  lemma CeilIsStripes(size: nat, a: nat)
    requires a > 0
    ensures (size + a - 1) / a == Stripes(size, a)
  {
    var q := size / a;
    assert size == a * q + size % a;
    if size % a == 0 {
      ModUnique(size + a - 1, q, a - 1, a);
    } else {
      ModUnique(size + a - 1, q + 1, size % a - 1, a);
    }
  }

  /** The length of stripe i, as the writer computes it. */
  function WriteLength(size: nat, a: nat, i: nat): nat
    requires Pos(i, a) <= size
  {
    if size - Pos(i, a) > a then a else size - Pos(i, a)
  }

  /** The length of stripe i, as the reader computes it. */
  function ReadLength(size: nat, a: nat, i: nat): nat
    requires Pos(i, a) <= size
  {
    if size > Pos(i + 1, a) then a else size - Pos(i, a)
  }

  lemma LengthsAgree(size: nat, a: nat, i: nat)
    requires Pos(i, a) <= size
    ensures WriteLength(size, a, i) == ReadLength(size, a, i)
  {
    PosNext(i, a);
  }

  /** The bytes of stripe i. */
  function Part<T>(content: seq<T>, a: nat, i: nat): (p: seq<T>)
    requires Pos(i, a) <= |content|
    ensures |p| == WriteLength(|content|, a, i)
  {
    content[Pos(i, a)..Pos(i, a) + WriteLength(|content|, a, i)]
  }

  /** The stripes one after the other, up to stripe `count`. */
  function Parts<T>(content: seq<T>, a: nat, count: nat): seq<T>
    requires a > 0 && count <= Stripes(|content|, a)
  {
    if count == 0 then []
    else
      StripesCover(|content|, a);
      Parts(content, a, count - 1) + Part(content, a, count - 1)
  }

  /** The stripes of a file are the file: no byte is left out, none is in two stripes. */
  lemma {:induction false} PartsPartition<T>(content: seq<T>, a: nat, count: nat)
    requires a > 0 && count <= Stripes(|content|, a)
    ensures Parts(content, a, count) == if Pos(count, a) < |content| then content[..Pos(count, a)] else content
    ensures count == Stripes(|content|, a) ==> Parts(content, a, count) == content
  {
    hide Pos, Stripes;
    StripesCover(|content|, a);
    if count == 0 {
      PosNext(0, a);
    } else {
      PartsPartition(content, a, count - 1);
      PosNext(count - 1, a);
      var from := Pos(count - 1, a);
      var to := from + WriteLength(|content|, a, count - 1);
      assert content[..from] + content[from..to] == content[..to];
    }
  }

  /** Chunk ids of different stripes, or of different places in a stripe, differ. */
  lemma ChunkIdsUnique(i: nat, x: nat, j: nat, y: nat, n: nat)
    requires x < n && y < n && Pos(i, n) + x == Pos(j, n) + y
    ensures i == j && x == y
  {
    if i < j {
      PosSteps(i, j, n);
    } else if j < i {
      PosSteps(j, i, n);
    }
  }
}
