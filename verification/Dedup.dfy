/**
 Deduplication at the proxy, src/proxy/proxy_file_ops.cc: the unique blocks of a stripe are moved
 together in place, and on reading, neighbouring blocks are merged into one copy.
 */
module Dedup {
  import opened Wrappers
  import opened Blocks

  /** A block of a stripe, by its offset in the file. */
  datatype Block = Block(offset: nat, length: nat, duplicate: bool)

  /** Blocks in order and apart, inside a stripe of the file that starts at `start` and has `size` bytes. */
  ghost predicate InOrder(blocks: seq<Block>, start: nat, size: nat) {
    && (forall i :: 0 <= i < |blocks| ==>
          start <= blocks[i].offset && blocks[i].offset + blocks[i].length <= start + size)
    && (forall i, j :: 0 <= i < j < |blocks| ==> blocks[i].offset + blocks[i].length <= blocks[j].offset)
  }

  /** The bytes of the unique blocks one after the other. */
  function Compacted<T>(data: seq<T>, blocks: seq<Block>, start: nat): (c: seq<T>)
    requires InOrder(blocks, start, |data|)
  {
    if blocks == [] then []
    else
      var b := blocks[|blocks| - 1];
      var before := Compacted(data, blocks[..|blocks| - 1], start);
      if b.duplicate then before else before + data[b.offset - start..b.offset - start + b.length]
  }

  /** The unique bytes never outgrow the part of the stripe they come from. */
  lemma {:induction false} CompactedFits<T>(data: seq<T>, blocks: seq<Block>, start: nat)
    requires InOrder(blocks, start, |data|)
    ensures blocks != [] ==>
              start + |Compacted(data, blocks, start)| <= blocks[|blocks| - 1].offset + blocks[|blocks| - 1].length
  {
    if |blocks| > 1 {
      CompactedFits(data, blocks[..|blocks| - 1], start);
    }
  }

  /** Moves a block of bytes to the left; the two places may overlap. */
  method MoveLeft<T>(data: array<T>, to: nat, from: nat, length: nat)
    requires to <= from && from + length <= data.Length
    modifies data
    ensures data[..to] == old(data[..to]) && data[to..to + length] == old(data[from..from + length])
    ensures data[to + length..] == old(data[to + length..])
  {
    for i := 0 to length
      invariant data[..to] == old(data[..to]) && data[to + i..] == old(data[to + i..])
      invariant data[to..to + i] == old(data[from..from + i])
    {
      assert data[from + i] == data[to + i..][from - to] == old(data[from + i]);
      data[to + i] := data[from + i];
      assert data[to..to + i + 1] == old(data[from..from + i]) + [old(data[from + i])];
    }
  }

  /** Moves a block behind the front; what follows is still as it was before. */
  method MoveBlock<T>(data: array<T>, front: nat, from: nat, length: nat, ghost before: seq<T>)
    requires front <= from && from + length <= data.Length == |before| && data[front..] == before[front..]
    modifies data
    ensures data[..front + length] == old(data[..front]) + before[from..from + length]
    ensures data[front + length..] == before[front + length..]
  {
    SameBehind(data[..], before, front, from, length);
    SameBehind(data[..], before, front, front + length, |before| - front - length);
    assert data[..][front..] == data[front..];
    MoveLeft(data, front, from, length);
    assert data[..front + length] == data[..front] + data[front..front + length];
  }

  /** The unique block was recorded with the place its bytes are at. */
  ghost predicate Recorded<T>(b: Block, physical: nat, before: seq<T>, after: seq<T>, start: nat)
  {
    && start <= b.offset && b.offset - start + b.length <= |before| && physical + b.length <= |after|
    && after[physical..physical + b.length] == before[b.offset - start..b.offset - start + b.length]
  }

  ghost predicate AllRecorded<T>(unique: seq<(Block, nat)>, before: seq<T>, after: seq<T>, start: nat) {
    forall u :: 0 <= u < |unique| ==> Recorded(unique[u].0, unique[u].1, before, after, start)
  }

  /** The blocks that are duplicates, or those that are not, in order. */
  function Only(blocks: seq<Block>, duplicate: bool): seq<Block> {
    if blocks == [] then []
    else
      var last := |blocks| - 1;
      Only(blocks[..last], duplicate) + if blocks[last].duplicate == duplicate then [blocks[last]] else []
  }

  function Places(unique: seq<(Block, nat)>): (bs: seq<Block>)
    ensures |bs| == |unique|
  {
    seq(|unique|, i requires 0 <= i < |unique| => unique[i].0)
  }

  /** The next unique block can be moved: what is still to be read lies behind. */
  lemma NextBlock<T>(data: seq<T>, blocks: seq<Block>, start: nat, i: nat)
    requires InOrder(blocks, start, |data|) && i < |blocks|
    ensures InOrder(blocks[..i], start, |data|) && InOrder(blocks[..i + 1], start, |data|)
    ensures start + |Compacted(data, blocks[..i], start)| <= blocks[i].offset
    ensures var b, from := blocks[i], blocks[i].offset - start;
            var bytes := if b.duplicate then [] else data[from..from + b.length];
            Compacted(data, blocks[..i + 1], start) == Compacted(data, blocks[..i], start) + bytes
    ensures forall d ::
              Only(blocks[..i + 1], d) == Only(blocks[..i], d) + if blocks[i].duplicate == d then [blocks[i]] else []
  {
    CompactedFits(data, blocks[..i], start);
    assert blocks[..i + 1][..i] == blocks[..i];
  }

  /**
   Trims the duplicate blocks of a stripe in place. Afterwards the unique bytes are at the front, in order,
   each unique block at the offset recorded for it, and the length is that of the unique blocks.
   */
  method DedupStripe<T>(data: array<T>, start: nat, blocks: seq<Block>)
    returns (unique: seq<(Block, nat)>, duplicates: seq<Block>, physicalLength: nat)
    requires InOrder(blocks, start, data.Length)
    modifies data
    ensures physicalLength <= data.Length && data[..physicalLength] == Compacted(old(data[..]), blocks, start)
    ensures Places(unique) == Only(blocks, false) && duplicates == Only(blocks, true)
    ensures AllRecorded(unique, old(data[..]), data[..physicalLength], start)
  {
    hide Compacted, Only, InOrder;
    unique, duplicates, physicalLength := [], [], 0;
    ghost var before := data[..];
    NoBlocks(before, blocks, start);
    for i := 0 to |blocks|
      invariant physicalLength <= data.Length && InOrder(blocks[..i], start, |before|)
      invariant data[..physicalLength] == Compacted(before, blocks[..i], start)
      invariant data[physicalLength..] == before[physicalLength..]
      invariant Places(unique) == Only(blocks[..i], false) && duplicates == Only(blocks[..i], true)
      invariant AllRecorded(unique, before, data[..physicalLength], start)
    {
      NextBlock(before, blocks, start, i);
      var b := blocks[i];
      InBounds(blocks, start, data.Length, i);
      if b.duplicate {
        duplicates := duplicates + [b];
      } else {
        ghost var front := data[..physicalLength];
        MoveBlock(data, physicalLength, b.offset - start, b.length, before);
        RecordsGrow(unique, b, before, front, data[..physicalLength + b.length], start);
        PlacesSnoc(unique, b, physicalLength);
        unique := unique + [(b, physicalLength)];
        physicalLength := physicalLength + b.length;
      }
    }
    assert blocks[..|blocks|] == blocks;
  }

  lemma NoBlocks<T>(data: seq<T>, blocks: seq<Block>, start: nat)
    ensures InOrder(blocks[..0], start, |data|) && Compacted(data, blocks[..0], start) == []
    ensures Only(blocks[..0], false) == Only(blocks[..0], true) == []
  {
  }

  lemma InBounds(blocks: seq<Block>, start: nat, size: nat, i: nat)
    requires InOrder(blocks, start, size) && i < |blocks|
    ensures start <= blocks[i].offset && blocks[i].offset + blocks[i].length <= start + size
  {
  }

  lemma SameBehind<T>(now: seq<T>, before: seq<T>, front: nat, from: nat, length: nat)
    requires |now| == |before| && front <= from && from + length <= |now| && now[front..] == before[front..]
    ensures now[from..from + length] == before[from..from + length]
  {
    assert now[from..from + length] == now[front..][from - front..from - front + length];
    assert before[from..from + length] == before[front..][from - front..from - front + length];
  }

  lemma RecordsGrow<T>(unique: seq<(Block, nat)>, b: Block, before: seq<T>, front: seq<T>, longer: seq<T>, start: nat)
    requires AllRecorded(unique, before, front, start) && start <= b.offset && b.offset - start + b.length <= |before|
    requires longer == front + before[b.offset - start..b.offset - start + b.length]
    ensures AllRecorded(unique + [(b, |front|)], before, longer, start)
  {
    forall u | 0 <= u < |unique|
      ensures Recorded(unique[u].0, unique[u].1, before, longer, start)
    {
      var c, p := unique[u].0, unique[u].1;
      assert Recorded(c, p, before, front, start);
      assert longer[p..p + c.length] == front[p..p + c.length];
    }
    assert Recorded(b, |front|, before, longer, start);
  }

  lemma PlacesSnoc(unique: seq<(Block, nat)>, b: Block, p: nat)
    ensures Places(unique + [(b, p)]) == Places(unique) + [b]
  {
  }

  /** A unique block with its place in the stripe, and a run of them that is copied at once. */
  datatype Entry = Entry(offset: nat, length: nat, physical: nat) {
    predicate Covers(x: nat) {
      offset <= x < offset + length
    }

    /** The other entry goes on where this one ends, in the file and in the stripe. */
    predicate Meets(other: Entry) {
      offset + length == other.offset && physical + length == other.physical
    }
  }

  /** Where the byte at file offset x is in the stripe. */
  function Locate(entries: seq<Entry>, x: nat): Option<nat> {
    if entries == [] then None
    else
      var e := entries[|entries| - 1];
      if e.Covers(x) then Some(e.physical + (x - e.offset)) else Locate(entries[..|entries| - 1], x)
  }

  /** No entry can be merged with the next. */
  ghost predicate Maximal(entries: seq<Entry>) {
    forall i :: 0 < i < |entries| ==> !entries[i - 1].Meets(entries[i])
  }

  ghost predicate Sorted(entries: seq<Entry>) {
    forall i, j :: 0 <= i < j < |entries| ==> entries[i].offset < entries[j].offset
  }

  /** The table a block belongs to: one for all, or one per stripe from the first stripe on. */
  function TableOf(e: Entry, stripeSize: Option<nat>, first: nat): int
    requires stripeSize.Some? ==> stripeSize.value > 0
  {
    if stripeSize.Some? then e.offset / stripeSize.value - first else 0
  }

  /** The blocks of one table. */
  function In(blocks: seq<Entry>, stripeSize: Option<nat>, first: nat, t: int): seq<Entry>
    requires stripeSize.Some? ==> stripeSize.value > 0
  {
    if blocks == [] then []
    else
      var e := blocks[|blocks| - 1];
      In(blocks[..|blocks| - 1], stripeSize, first, t) + if TableOf(e, stripeSize, first) == t then [e] else []
  }

  /** Table t holds the blocks that start in stripe first + t, and no other. */
  lemma {:induction false} InIsStripe(blocks: seq<Entry>, stripeSize: nat, first: nat, t: nat, e: Entry)
    requires stripeSize > 0
    ensures e in In(blocks, Some(stripeSize), first, t) <==>
              e in blocks && (first + t) * stripeSize <= e.offset < (first + t + 1) * stripeSize
  {
    if blocks != [] {
      var b := blocks[|blocks| - 1];
      InIsStripe(blocks[..|blocks| - 1], stripeSize, first, t, e);
      StripeOf(b.offset, stripeSize, first + t);
    }
  }

  lemma StripeOf(offset: nat, s: nat, q: nat)
    requires s > 0
    ensures offset / s == q <==> q * s <= offset < (q + 1) * s
  {
    if q * s <= offset < (q + 1) * s {
      ModUnique(offset, q, offset - q * s, s);
    }
  }

  /** Without a stripe size there is one table for all. */
  lemma {:induction false} InIsAll(blocks: seq<Entry>, first: nat)
    ensures In(blocks, None, first, 0) == blocks
  {
    if blocks != [] {
      InIsAll(blocks[..|blocks| - 1], first);
    }
  }

  /**
   A table is maximal and sends every byte where the blocks it was made from send it; each of its entries begins with
   one of them.
   */
  ghost predicate Faithful(table: seq<Entry>, blocks: seq<Entry>) {
    && Maximal(table) && (forall x :: Locate(table, x) == Locate(blocks, x))
    && forall i :: 0 <= i < |table| ==> Begins(table[i], blocks)
  }

  ghost predicate Begins(e: Entry, blocks: seq<Entry>) {
    exists b :: b in blocks && b.offset == e.offset && b.physical == e.physical
  }

  lemma BeginsLater(e: Entry, blocks: seq<Entry>, b: Entry)
    requires Begins(e, blocks) || (b.offset == e.offset && b.physical == e.physical)
    ensures Begins(e, blocks + [b])
  {
    if Begins(e, blocks) {
      var a :| a in blocks && a.offset == e.offset && a.physical == e.physical;
      assert a in blocks + [b];
    } else {
      assert b in blocks + [b];
    }
  }

  lemma {:induction false} MergedLocates(table: seq<Entry>, blocks: seq<Entry>, e: Entry, x: nat)
    requires Locate(table, x) == Locate(blocks, x) && table != [] && table[|table| - 1].Meets(e)
    ensures var last := table[|table| - 1];
            Locate(table[..|table| - 1] + [last.(length := last.length + e.length)], x) == Locate(blocks + [e], x)
  {
    var front, last := table[..|table| - 1], table[|table| - 1];
    var merged := front + [last.(length := last.length + e.length)];
    assert merged[..|merged| - 1] == front && (blocks + [e])[..|blocks|] == blocks;
  }

  lemma Merging(table: seq<Entry>, blocks: seq<Entry>, e: Entry)
    requires Faithful(table, blocks) && table != [] && table[|table| - 1].Meets(e)
    ensures var last := table[|table| - 1];
            Faithful(table[..|table| - 1] + [last.(length := last.length + e.length)], blocks + [e])
  {
    var front, last := table[..|table| - 1], table[|table| - 1];
    var longer := last.(length := last.length + e.length);
    var merged := front + [longer];
    forall x: nat {
      MergedLocates(table, blocks, e, x);
    }
    hide Locate, Begins;
    forall i | 0 < i < |merged|
      ensures !merged[i - 1].Meets(merged[i])
    {
      assert !table[i - 1].Meets(table[i]);
    }
    forall i | 0 <= i < |merged|
      ensures Begins(merged[i], blocks + [e])
    {
      assert Begins(table[i], blocks);
      BeginsLater(merged[i], blocks, e);
    }
  }

  lemma Appending(table: seq<Entry>, blocks: seq<Entry>, e: Entry)
    requires Faithful(table, blocks) && (table != [] ==> !table[|table| - 1].Meets(e))
    ensures Faithful(table + [e], blocks + [e])
  {
    var longer := table + [e];
    assert longer[..|table|] == table && (blocks + [e])[..|blocks|] == blocks;
    forall x: nat
      ensures Locate(longer, x) == Locate(blocks + [e], x)
    {
      assert Locate(table, x) == Locate(blocks, x);
    }
    forall i | 0 < i < |longer|
      ensures !longer[i - 1].Meets(longer[i])
    {
      if i < |table| {
        assert !table[i - 1].Meets(table[i]);
      }
    }
    forall i | 0 <= i < |longer|
      ensures Begins(longer[i], blocks + [e])
    {
      BeginsLater(longer[i], blocks, e);
    }
  }

  function TableAt(tables: map<int, seq<Entry>>, t: int): seq<Entry> {
    if t in tables then tables[t] else []
  }

  lemma TablesAscend(a: Entry, b: Entry, stripeSize: Option<nat>, first: nat)
    requires (stripeSize.Some? ==> stripeSize.value > 0) && a.offset <= b.offset
    ensures TableOf(a, stripeSize, first) <= TableOf(b, stripeSize, first)
  {
    if stripeSize.Some? {
      var s := stripeSize.value;
      if b.offset / s < a.offset / s {
        MulSteps(s, b.offset / s, a.offset / s);
      }
    }
  }

  /** All tables with entries are at or before `last`. */
  ghost predicate UpTo(tables: map<int, seq<Entry>>, last: int) {
    forall t :: t > last ==> TableAt(tables, t) == []
  }

  lemma UpToGrows(tables: map<int, seq<Entry>>, last: int, t: int, table: seq<Entry>)
    requires UpTo(tables, last) && last <= t
    ensures UpTo(tables[t := table], t)
  {
    var after := tables[t := table];
    forall u | u > t
      ensures TableAt(after, u) == []
    {
      assert TableAt(tables, u) == [];
    }
  }

  /** Every table says the same as its blocks. */
  ghost predicate AllFaithful(tables: map<int, seq<Entry>>, blocks: seq<Entry>, stripeSize: Option<nat>, first: nat)
    requires stripeSize.Some? ==> stripeSize.value > 0
  {
    forall t :: Faithful(TableAt(tables, t), In(blocks, stripeSize, first, t))
  }

  lemma TableGrows(tables: map<int, seq<Entry>>, blocks: seq<Entry>, i: nat, stripeSize: Option<nat>, first: nat,
                   table: seq<Entry>)
    requires (stripeSize.Some? ==> stripeSize.value > 0) && i < |blocks|
    requires AllFaithful(tables, blocks[..i], stripeSize, first)
    requires Faithful(table, In(blocks[..i], stripeSize, first, TableOf(blocks[i], stripeSize, first)) + [blocks[i]])
    ensures AllFaithful(tables[TableOf(blocks[i], stripeSize, first) := table], blocks[..i + 1], stripeSize, first)
  {
    hide Faithful, TableOf;
    var after := tables[TableOf(blocks[i], stripeSize, first) := table];
    assert blocks[..i + 1][..i] == blocks[..i];
    forall t: int
      ensures Faithful(TableAt(after, t), In(blocks[..i + 1], stripeSize, first, t))
    {
      assert Faithful(TableAt(tables, t), In(blocks[..i], stripeSize, first, t));
      assert In(blocks[..i], stripeSize, first, t) + [] == In(blocks[..i], stripeSize, first, t);
    }
  }

  /**
   Merges neighbouring blocks, table by table. Every table sends each byte to the same place as the blocks
   do, and no two neighbours in a table can still be merged.
   */
  method CoalesceBlocks(blocks: seq<Entry>, stripeSize: Option<nat>, first: nat) returns (tables: map<int, seq<Entry>>)
    requires (stripeSize.Some? ==> stripeSize.value > 0) && Sorted(blocks)
    requires forall i :: 0 <= i < |blocks| ==> TableOf(blocks[i], stripeSize, first) >= 0
    ensures AllFaithful(tables, blocks, stripeSize, first)
    // neighbours in a table that continue each other have been merged
    ensures forall t: int, i :: 0 < i < |TableAt(tables, t)| ==>
              var a, b := TableAt(tables, t)[i - 1], TableAt(tables, t)[i];
              a.offset + a.length != b.offset || a.physical + a.length != b.physical
    // the entries of a table start in its stripe
    ensures stripeSize.Some? ==>
              forall t: nat, i :: 0 <= i < |TableAt(tables, t)| ==>
                (first + t) * stripeSize.value <= TableAt(tables, t)[i].offset < (first + t + 1) * stripeSize.value
  {
    hide Faithful, TableOf, In, AllFaithful;
    tables := map[];
    var previous := -1;
    NoTables(blocks, stripeSize, first);
    for i := 0 to |blocks|
      invariant AllFaithful(tables, blocks[..i], stripeSize, first) && UpTo(tables, previous)
      invariant previous == if i == 0 then -1 else TableOf(blocks[i - 1], stripeSize, first)
      invariant i > 0 ==> TableAt(tables, previous) != []
    {
      var t := TableOf(blocks[i], stripeSize, first);
      var table := TableAt(tables, t);
      FaithfulAt(tables, blocks[..i], stripeSize, first, t);
      if i > 0 {
        TablesAscend(blocks[i - 1], blocks[i], stripeSize, first);
      }
      if previous == t && table[|table| - 1].Meets(blocks[i]) {
        var last := table[|table| - 1];
        Merging(table, In(blocks[..i], stripeSize, first, t), blocks[i]);
        table := table[..|table| - 1] + [last.(length := last.length + blocks[i].length)];
      } else {
        Appending(table, In(blocks[..i], stripeSize, first, t), blocks[i]);
        table := table + [blocks[i]];
      }
      TableGrows(tables, blocks, i, stripeSize, first, table);
      UpToGrows(tables, previous, t, table);
      tables, previous := tables[t := table], t;
    }
    assert blocks[..|blocks|] == blocks;
    forall t: int {
      NeighboursDiffer(tables, blocks, stripeSize, first, t);
    }
    if stripeSize.Some? {
      forall t: nat {
        EntriesInStripe(tables, blocks, stripeSize.value, first, t);
      }
    }
  }

  lemma NeighboursDiffer(tables: map<int, seq<Entry>>, blocks: seq<Entry>, stripeSize: Option<nat>, first: nat, t: int)
    requires (stripeSize.Some? ==> stripeSize.value > 0) && AllFaithful(tables, blocks, stripeSize, first)
    ensures forall i :: 0 < i < |TableAt(tables, t)| ==>
              var a, b := TableAt(tables, t)[i - 1], TableAt(tables, t)[i];
              a.offset + a.length != b.offset || a.physical + a.length != b.physical
  {
    hide In, Locate, TableAt;
    FaithfulAt(tables, blocks, stripeSize, first, t);
  }

  lemma EntriesInStripe(tables: map<int, seq<Entry>>, blocks: seq<Entry>, s: nat, first: nat, t: nat)
    requires s > 0 && AllFaithful(tables, blocks, Some(s), first)
    ensures forall i :: 0 <= i < |TableAt(tables, t)| ==>
              (first + t) * s <= TableAt(tables, t)[i].offset < (first + t + 1) * s
  {
    hide In, Maximal, Locate;
    FaithfulAt(tables, blocks, Some(s), first, t);
    var table, part := TableAt(tables, t), In(blocks, Some(s), first, t);
    forall i | 0 <= i < |table|
      ensures (first + t) * s <= table[i].offset < (first + t + 1) * s
    {
      assert Begins(table[i], part);
      var b :| b in part && b.offset == table[i].offset && b.physical == table[i].physical;
      InIsStripe(blocks, s, first, t, b);
    }
  }

  lemma NoTables(blocks: seq<Entry>, stripeSize: Option<nat>, first: nat)
    requires stripeSize.Some? ==> stripeSize.value > 0
    ensures AllFaithful(map[], blocks[..0], stripeSize, first)
  {
  }

  lemma FaithfulAt(tables: map<int, seq<Entry>>, blocks: seq<Entry>, stripeSize: Option<nat>, first: nat, t: int)
    requires (stripeSize.Some? ==> stripeSize.value > 0) && AllFaithful(tables, blocks, stripeSize, first)
    ensures Faithful(TableAt(tables, t), In(blocks, stripeSize, first, t))
  {
  }

  function EntriesOf(unique: seq<(Block, nat)>): (es: seq<Entry>)
    ensures |es| == |unique|
  {
    seq(|unique|, i requires 0 <= i < |unique| => Entry(unique[i].0.offset, unique[i].0.length, unique[i].1))
  }

  /** What was compacted is found back: each byte of a unique block is where its entry says, and no other byte is. */
  lemma {:induction false} LocateRestores<T>(unique: seq<(Block, nat)>, before: seq<T>, after: seq<T>, start: nat,
                                             x: nat)
    requires AllRecorded(unique, before, after, start)
    ensures match Locate(EntriesOf(unique), x)
            case Some(p) => p < |after| && start <= x < start + |before| && after[p] == before[x - start]
            case None =>
              forall u :: 0 <= u < |unique| ==> !(unique[u].0.offset <= x < unique[u].0.offset + unique[u].0.length)
  {
    if unique != [] {
      var front := unique[..|unique| - 1];
      var b, p := unique[|unique| - 1].0, unique[|unique| - 1].1;
      assert EntriesOf(unique)[..|unique| - 1] == EntriesOf(front);
      assert Recorded(b, p, before, after, start);
      if b.offset <= x < b.offset + b.length {
        var from := b.offset - start;
        assert after[p..p + b.length][x - b.offset] == before[from..from + b.length][x - b.offset];
      } else {
        assert forall u :: 0 <= u < |front| ==> unique[u] == front[u];
        LocateRestores(front, before, after, start, x);
      }
    }
  }
}
