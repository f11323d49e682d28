/**
 Repairing one lost chunk by partial encoding at the agents (CAR). The proxy packs the input chunks
 by agent into a flat table of [size, ids...] groups, one coefficient per input and one address per
 group (repairFile, src/proxy/chunk_manager.cc). The repairing agent cuts the table apart again,
 lets each agent encode its own group, and adds up the results (src/agent/agent.cc).
 */
module CarRepair {
  import opened Gf256
  import opened Linear
  import opened Sequences
  import opened ReedSolomon

  /** A group is a list of positions in the list of inputs. */
  type Positions = seq<nat>

  function Concat(ps: seq<Positions>): Positions {
    if ps == [] then [] else ps[0] + Concat(ps[1..])
  }

  /** The table the proxy sends: for each group its size and the ids of its chunks. */
  function Flatten(ps: seq<Positions>, ids: seq<int>): seq<int>
    requires forall r :: 0 <= r < |ps| ==> Within(ps[r], |ids|)
  {
    if ps == [] then [] else [|ps[0]|] + Select(ids, ps[0]) + Flatten(ps[1..], ids)
  }

  /** The address list: each address ends with a semicolon. */
  function Addresses(owners: seq<string>): string {
    if owners == [] then "" else owners[0] + ";" + Addresses(owners[1..])
  }

  ghost predicate AllWithin(ps: seq<Positions>, k: nat) {
    forall r :: 0 <= r < |ps| ==> Within(ps[r], k)
  }

  lemma {:induction false} ConcatSnoc(ps: seq<Positions>, g: Positions)
    ensures Concat(ps + [g]) == Concat(ps) + g
  {
    if ps != [] {
      ConcatSnoc(ps[1..], g);
      assert (ps + [g])[1..] == ps[1..] + [g];
    } else {
      assert ps + [g] == [g];
    }
  }

  lemma {:induction false} ConcatSplits(ps: seq<Positions>, r: nat)
    requires r <= |ps|
    ensures Concat(ps) == Concat(ps[..r]) + Concat(ps[r..])
  {
    if r == 0 {
      assert ps[0..] == ps;
    } else {
      ConcatSplits(ps[1..], r - 1);
      assert ps[..r][1..] == ps[1..][..r - 1] && ps[r..] == ps[1..][r - 1..];
    }
  }

  lemma {:induction false} FlattenSnoc(ps: seq<Positions>, g: Positions, ids: seq<int>)
    requires AllWithin(ps, |ids|) && Within(g, |ids|)
    ensures AllWithin(ps + [g], |ids|)
    ensures Flatten(ps + [g], ids) == Flatten(ps, ids) + [|g|] + Select(ids, g)
  {
    if ps != [] {
      FlattenSnoc(ps[1..], g, ids);
      assert (ps + [g])[1..] == ps[1..] + [g];
    } else {
      assert ps + [g] == [g];
    }
  }

  lemma {:induction false} FlattenSplits(ps: seq<Positions>, r: nat, ids: seq<int>)
    requires AllWithin(ps, |ids|) && r <= |ps|
    ensures Flatten(ps, ids) == Flatten(ps[..r], ids) + Flatten(ps[r..], ids)
  {
    hide Within, Select;
    if r == 0 {
      assert ps[0..] == ps;
    } else {
      FlattenSplits(ps[1..], r - 1, ids);
      assert ps[..r][1..] == ps[1..][..r - 1] && ps[r..] == ps[1..][r - 1..];
      assert ps[..r][0] == ps[0];
    }
  }

  lemma {:induction false} FlattenLength(ps: seq<Positions>, ids: seq<int>)
    requires AllWithin(ps, |ids|)
    ensures |Flatten(ps, ids)| == |ps| + |Concat(ps)|
    ensures Within(Concat(ps), |ids|)
  {
    if ps != [] {
      FlattenLength(ps[1..], ids);
    }
  }

  lemma {:induction false} AddressesSnoc(owners: seq<string>, o: string)
    ensures Addresses(owners + [o]) == Addresses(owners) + o + ";"
  {
    if owners != [] {
      AddressesSnoc(owners[1..], o);
      assert (owners + [o])[1..] == owners[1..] + [o];
    } else {
      assert owners + [o] == [o];
    }
  }

  lemma {:induction false} AddressesSplits(owners: seq<string>, r: nat)
    requires r <= |owners|
    ensures Addresses(owners) == Addresses(owners[..r]) + Addresses(owners[r..])
  {
    if r == 0 {
      assert owners[0..] == owners;
    } else {
      AddressesSplits(owners[1..], r - 1);
      assert owners[..r][1..] == owners[1..][..r - 1] && owners[r..] == owners[1..][r - 1..];
    }
  }

  // Sums over groups

  lemma SelectAppends<T>(xs: seq<T>, a: Positions, b: Positions)
    requires Within(a, |xs|) && Within(b, |xs|)
    ensures Within(a + b, |xs|) && Select(xs, a + b) == Select(xs, a) + Select(xs, b)
  {
  }

  lemma {:induction false} SelectPermutes<T>(xs: seq<T>, a: Positions, b: Positions)
    requires Within(a, |xs|) && Within(b, |xs|) && multiset(a) == multiset(b)
    ensures multiset(Select(xs, a)) == multiset(Select(xs, b))
    decreases |a|
  {
    hide Select, Within;
    if a == [] {
      assert |multiset(b)| == 0;
    } else {
      assert a[0] in multiset(b);
      var i :| 0 <= i < |b| && b[i] == a[0];
      SelectRemoves(xs, a, 0);
      SelectRemoves(xs, b, i);
      RemovalShrinks(a, 0);
      RemovalShrinks(b, i);
      assert a[..0] + a[1..] == a[1..];
      SelectPermutes(xs, a[1..], b[..i] + b[i + 1..]);
    }
  }

  lemma SelectRemoves<T>(xs: seq<T>, a: Positions, i: nat)
    requires Within(a, |xs|) && i < |a|
    ensures Within(a[..i] + a[i + 1..], |xs|)
    ensures multiset(Select(xs, a)) == multiset(Select(xs, a[..i] + a[i + 1..])) + multiset{xs[a[i]]}
  {
    assert Select(xs, a) == Select(xs, a[..i]) + ([xs[a[i]]] + Select(xs, a[i + 1..]));
    assert Select(xs, a[..i] + a[i + 1..]) == Select(xs, a[..i]) + Select(xs, a[i + 1..]);
  }

  /** The sums of the groups. */
  function GroupSums(terms: seq<Byte>, ps: seq<Positions>): (sums: seq<Byte>)
    requires AllWithin(ps, |terms|)
    ensures |sums| == |ps|
  {
    seq(|ps|, r requires 0 <= r < |ps| => Sum(Select(terms, ps[r])))
  }

  lemma {:induction false} SumOfGroups(terms: seq<Byte>, ps: seq<Positions>)
    requires AllWithin(ps, |terms|)
    ensures Within(Concat(ps), |terms|)
    ensures Sum(GroupSums(terms, ps)) == Sum(Select(terms, Concat(ps)))
  {
    hide Add;
    if ps != [] {
      SumOfGroups(terms, ps[1..]);
      assert GroupSums(terms, ps)[1..] == GroupSums(terms, ps[1..]);
      SelectAppends(terms, ps[0], Concat(ps[1..]));
      SumAppends(Select(terms, ps[0]), Select(terms, Concat(ps[1..])));
    }
  }

  /** However the terms are grouped and ordered, the sums of the groups add up to the same total. */
  lemma GroupingPreservesSum(terms: seq<Byte>, ps: seq<Positions>)
    requires AllWithin(ps, |terms|) && Distinct(Concat(ps)) && |Concat(ps)| == |terms|
    ensures Sum(GroupSums(terms, ps)) == Sum(terms)
  {
    hide Add;
    SumOfGroups(terms, ps);
    DistinctPermutes(Concat(ps), |terms|);
    SelectPermutes(terms, Concat(ps), Identity(|terms|));
    assert Select(terms, Identity(|terms|)) == terms;
    SumPermutes(Select(terms, Concat(ps)), terms);
  }

  /** What the agents of the groups encode, each with the coefficients of its own chunks. */
  function Partials(row: Row, chunks: seq<Chunk>, size: nat, ps: seq<Positions>): (partials: seq<Chunk>)
    requires |row| == |chunks| && Uniform(chunks, size) && AllWithin(ps, |row|)
    ensures |partials| == |ps| && Uniform(partials, size)
  {
    seq(|ps|, r requires 0 <= r < |ps| => Blend(Select(row, ps[r]), Select(chunks, ps[r]), size))
  }

  lemma {:induction false} DotOnes(column: seq<Byte>)
    ensures Dot(Ones(|column|), column) == Sum(column)
  {
    hide Add, Mul;
    if column != [] {
      DotOnes(column[1..]);
      assert Ones(|column|)[1..] == Ones(|column| - 1);
      MulOne(column[0]);
    }
  }

  lemma PartialByte(row: Row, chunks: seq<Chunk>, size: nat, g: Positions, t: nat)
    requires |row| == |chunks| && Uniform(chunks, size) && Within(g, |row|) && t < size
    ensures Blend(Select(row, g), Select(chunks, g), size)[t] == Sum(Select(Products(row, Column(chunks, size, t)), g))
  {
    hide Mul, Dot;
    var column := Column(Select(chunks, g), size, t);
    DotIsSum(Select(row, g), column);
    assert Products(Select(row, g), column) == Select(Products(row, Column(chunks, size, t)), g);
  }

  /**
   The heart of the method: for every way to divide the inputs among agents, adding up the partial
   encodings gives the combination of all inputs.
   */
  lemma PartialsAddUp(row: Row, chunks: seq<Chunk>, size: nat, ps: seq<Positions>)
    requires |row| == |chunks| && Uniform(chunks, size) && AllWithin(ps, |row|)
    requires Distinct(Concat(ps)) && |Concat(ps)| == |row|
    ensures Blend(Ones(|ps|), Partials(row, chunks, size, ps), size) == Blend(row, chunks, size)
  {
    var partials := Partials(row, chunks, size, ps);
    forall t | 0 <= t < size
      ensures Blend(Ones(|ps|), partials, size)[t] == Blend(row, chunks, size)[t]
    {
      hide Dot, Mul, Sum, Concat;
      var column := Column(chunks, size, t);
      var terms := Products(row, column);
      forall r | 0 <= r < |ps|
        ensures Column(partials, size, t)[r] == GroupSums(terms, ps)[r]
      {
        PartialByte(row, chunks, size, ps[r], t);
      }
      assert Column(partials, size, t) == GroupSums(terms, ps);
      DotOnes(Column(partials, size, t));
      GroupingPreservesSum(terms, ps);
      DotIsSum(row, column);
    }
  }
}
