/**
 Verifying checksums: the agent leaves the corrupted chunks at the front of the list it was given,
 src/agent/container_manager.cc, and the proxy matches them with its own list, src/proxy/chunk_manager.cc.
 */
module Checksums {
  import opened Sequences

  datatype ChunkRef = ChunkRef(name: string, md5: string) | Released

  /** The outcome for one chunk: its container is not at this agent, or the checksum is right or wrong. */
  datatype Check = NoContainer | Intact | Corrupted

  /** The chunks that are marked, in order. */
  function Marked<T>(xs: seq<T>, marks: seq<bool>): (ys: seq<T>)
    requires |xs| == |marks|
    ensures |ys| <= |xs|
  {
    if xs == [] then [] else (if marks[0] then [xs[0]] else []) + Marked(xs[1..], marks[1..])
  }

  lemma {:induction false} MarkedSnoc<T>(xs: seq<T>, marks: seq<bool>, x: T, mark: bool)
    requires |xs| == |marks|
    ensures Marked(xs + [x], marks + [mark]) == Marked(xs, marks) + if mark then [x] else []
  {
    var ys, more := xs + [x], marks + [mark];
    assert ys[1..] == if xs == [] then [] else xs[1..] + [x];
    assert more[1..] == if marks == [] then [] else marks[1..] + [mark];
    if xs != [] {
      MarkedSnoc(xs[1..], marks[1..], x, mark);
      assert ys[0] == xs[0] && more[0] == marks[0];
      var head := if marks[0] then [xs[0]] else [];
      assert Marked(ys, more) == head + (Marked(xs[1..], marks[1..]) + if mark then [x] else []);
    }
  }

  lemma NoneMarked<T>(xs: seq<T>, marks: seq<bool>)
    ensures Marked(xs[..0], marks[..0]) == []
  {
  }

  function Marks(checks: seq<Check>): (marks: seq<bool>)
    ensures |marks| == |checks|
  {
    seq(|checks|, i requires 0 <= i < |checks| => checks[i].Corrupted?)
  }

  /** Verifies the chunks, moving the corrupted ones to the front of the array. */
  method VerifyChunks(chunks: array<ChunkRef>, containers: seq<int>, verify: (int, ChunkRef) -> Check)
    returns (count: int, ghost checks: seq<Check>)
    requires |containers| == chunks.Length
    modifies chunks
    ensures |checks| == chunks.Length
    ensures forall i :: 0 <= i < chunks.Length ==> checks[i] == verify(containers[i], old(chunks[i]))
    ensures count == -1 <==> NoContainer in checks
    ensures count != -1 ==> 0 <= count <= chunks.Length && chunks[..count] == Marked(old(chunks[..]), Marks(checks))
  {
    hide Marked;
    ghost var before := chunks[..];
    checks := seq(chunks.Length, i requires 0 <= i < chunks.Length => verify(containers[i], before[i]));
    ghost var marks := Marks(checks);
    count := 0;
    NoneMarked(before, marks);
    for i := 0 to chunks.Length
      invariant 0 <= count <= i && chunks[..count] == Marked(before[..i], marks[..i])
      invariant chunks[i..] == before[i..] && NoContainer !in checks[..i]
    {
      assert chunks[i] == chunks[i..][0] == before[i];
      assert before[..i + 1] == before[..i] + [before[i]] && marks[..i + 1] == marks[..i] + [marks[i]];
      assert checks[..i + 1] == checks[..i] + [checks[i]];
      MarkedSnoc(before[..i], marks[..i], before[i], marks[i]);
      var outcome := verify(containers[i], chunks[i]);
      if outcome.NoContainer? {
        assert checks[i] in checks;
        count := -1;
        return;
      }
      if outcome.Corrupted? {
        ghost var front := chunks[..count];
        if i != count {
          chunks[count] := chunks[i];
          chunks[i] := Released;
        }
        assert chunks[..count + 1] == front + [before[i]];
        count := count + 1;
      }
    }
    assert before[..|before|] == before && marks[..|marks|] == marks && checks[..|checks|] == checks;
  }

  /** Chunk i passed, but has the name of the next chunk that did not: the proxy would take it for that one. */
  ghost predicate Mistaken(names: seq<string>, marks: seq<bool>, i: nat)
    requires |names| == |marks|
  {
    i < |names| && !marks[i] && Marked(names[i..], marks[i..]) != [] && Marked(names[i..], marks[i..])[0] == names[i]
  }

  lemma {:induction false} MarkedIsIn(names: seq<string>, marks: seq<bool>, name: string)
    requires |names| == |marks| && name in Marked(names, marks)
    ensures exists j :: 0 <= j < |names| && marks[j] && names[j] == name
  {
    if names != [] && name in Marked(names[1..], marks[1..]) {
      MarkedIsIn(names[1..], marks[1..], name);
      var j :| 0 <= j < |names| - 1 && marks[1..][j] && names[1..][j] == name;
      assert marks[j + 1] && names[j + 1] == name;
    }
  }

  /** With different names no chunk is mistaken for another. */
  lemma DistinctIsExact(names: seq<string>, marks: seq<bool>)
    requires |names| == |marks| && Distinct(names)
    ensures forall i: nat :: !Mistaken(names, marks, i)
  {
    forall i: nat
      ensures !Mistaken(names, marks, i)
    {
      if Mistaken(names, marks, i) {
        MarkedIsIn(names[i..], marks[i..], names[i]);
      }
    }
  }

  /** The first that is marked comes first. */
  lemma {:induction false} FirstMarked<T>(xs: seq<T>, marks: seq<bool>, j: nat)
    requires j < |xs| == |marks| && marks[j] && forall x :: 0 <= x < j ==> !marks[x]
    ensures Marked(xs, marks) != [] && Marked(xs, marks)[0] == xs[j]
  {
    if j > 0 {
      FirstMarked(xs[1..], marks[1..], j - 1);
    }
  }

  /** Of two chunks with the same name, the first is mistaken for the second when only that is corrupted. */
  lemma SameNameIsMistaken(names: seq<string>, i: nat, j: nat)
    requires i < j < |names| && names[i] == names[j]
    ensures Mistaken(names, seq(|names|, x => x == j), i)
  {
    var marks := seq(|names|, x => x == j);
    FirstMarked(names[i..], marks[i..], j - i);
  }

  /** No outcome of the verification is reported wrongly exactly when the names differ. */
  lemma DistinctExactly(names: seq<string>)
    ensures Distinct(names) <==> forall marks, i: nat :: |marks| == |names| ==> !Mistaken(names, marks, i)
  {
    hide Mistaken;
    if Distinct(names) {
      forall marks, i: nat | |marks| == |names|
        ensures !Mistaken(names, marks, i)
      {
        DistinctIsExact(names, marks);
      }
    } else {
      var i, j :| 0 <= i < j < |names| && names[i] == names[j];
      SameNameIsMistaken(names, i, j);
    }
  }

  /** Two chunks of the same name, of which the second is corrupted. */
  lemma WrongChunkReported()
    ensures Mistaken(["chunk", "chunk"], [false, true], 0)
  {
    SameNameIsMistaken(["chunk", "chunk"], 0, 1);
    assert seq(2, x => x == 1) == [false, true];
  }

  /** One step of matching, while it agrees with the marks. */
  lemma MatchStep(names: seq<string>, marks: seq<bool>, i: nat, reply: seq<string>, next: nat)
    requires i < |names| == |marks| && next <= |reply| && reply[next..] == Marked(names[i..], marks[i..])
    ensures var hit := next < |reply| && names[i] == reply[next];
            && (hit == marks[i] <==> !Mistaken(names, marks, i))
            && (hit == marks[i] ==> reply[if hit then next + 1 else next..] == Marked(names[i + 1..], marks[i + 1..]))
  {
    assert names[i..][1..] == names[i + 1..] && marks[i..][1..] == marks[i + 1..];
    if next < |reply| {
      assert reply[next..][0] == reply[next] && reply[next..][1..] == reply[next + 1..];
    }
  }

  /** Marks the chunks of the proxy's list that the reply lists as corrupted; both are in the same order. */
  method MatchReply(names: seq<string>, reply: seq<string>, indicator: array<bool>, ghost marks: seq<bool>)
    requires |names| == |marks| == indicator.Length && reply == Marked(names, marks)
    modifies indicator
    ensures indicator[..] == marks <==> forall i: nat :: !Mistaken(names, marks, i)
  {
    hide Marked;
    var next := 0;
    ghost var agrees := true;
    assert names[0..] == names && marks[0..] == marks;
    for i := 0 to |names|
      invariant 0 <= next && agrees == (indicator[..i] == marks[..i])
      invariant agrees ==> next <= |reply| && reply[next..] == Marked(names[i..], marks[i..])
      invariant agrees <==> forall x: nat :: x < i ==> !Mistaken(names, marks, x)
    {
      hide Mistaken;
      ghost var hit := next < |reply| && names[i] == reply[next];
      if agrees {
        MatchStep(names, marks, i, reply, next);
      }
      if |reply| == 0 || next >= |reply| || names[i] != reply[next] {
        indicator[i] := false;
      } else {
        indicator[i] := true;
        next := next + 1;
      }
      assert indicator[..i + 1] == indicator[..i] + [hit] && marks[..i + 1] == marks[..i] + [marks[i]];
      assert indicator[..i + 1][..i] == indicator[..i] && indicator[..i + 1][i] == hit;
      assert marks[..i + 1][..i] == marks[..i];
      agrees := agrees && hit == marks[i];
    }
    assert indicator[..] == indicator[..|names|] && marks == marks[..|names|];
    assert forall i: nat :: i >= |names| ==> !Mistaken(names, marks, i);
  }

  function Names(chunks: seq<ChunkRef>): (names: seq<string>)
    requires forall i :: 0 <= i < |chunks| ==> chunks[i].ChunkRef?
    ensures |names| == |chunks|
  {
    seq(|chunks|, i requires 0 <= i < |chunks| => chunks[i].name)
  }

  lemma {:induction false} MarkedNames(chunks: seq<ChunkRef>, marks: seq<bool>)
    requires |chunks| == |marks| && forall i :: 0 <= i < |chunks| ==> chunks[i].ChunkRef?
    ensures forall i :: 0 <= i < |Marked(chunks, marks)| ==> Marked(chunks, marks)[i].ChunkRef?
    ensures Names(Marked(chunks, marks)) == Marked(Names(chunks), marks)
  {
    if chunks != [] {
      MarkedNames(chunks[1..], marks[1..]);
      assert Names(chunks)[1..] == Names(chunks[1..]);
      var first := if marks[0] then [chunks[0].name] else [];
      assert Names(Marked(chunks, marks)) == first + Names(Marked(chunks[1..], marks[1..]));
    }
  }

  /**
   Verifies the chunks of a file in one container, through the agent. With different names a chunk is marked
   exactly when its verification failed, and the result is the number of those chunks.
   */
  method VerifyFileChecksums(chunks: seq<ChunkRef>, container: int, verify: (int, ChunkRef) -> Check, arrives: bool,
                             indicator: array<bool>)
    returns (count: int)
    requires indicator.Length == |chunks| && forall i :: 0 <= i < |chunks| ==> chunks[i].ChunkRef?
    modifies indicator
    ensures count == -1 <==> !arrives || exists i :: 0 <= i < |chunks| && verify(container, chunks[i]).NoContainer?
    ensures count == -1 ==> forall i :: 0 <= i < |chunks| ==> !indicator[i]
    ensures count != -1 && Distinct(Names(chunks)) ==>
              && (forall i :: 0 <= i < |chunks| ==> (indicator[i] <==> verify(container, chunks[i]).Corrupted?))
              && count == |Marked(chunks, indicator[..])|
  {
    hide Marked, Mistaken, Distinct, Names;
    var request := new ChunkRef[|chunks|](i requires 0 <= i < |chunks| => chunks[i]);
    assert request[..] == chunks;
    ghost var checks: seq<Check>;
    count, checks := VerifyChunks(request, seq(|chunks|, _ => container), verify);
    if !arrives || count == -1 {
      for i := 0 to |chunks|
        invariant forall j :: 0 <= j < i ==> !indicator[j]
      {
        indicator[i] := false;
      }
      count := -1;
      return;
    }
    ghost var marks := Marks(checks);
    MarkedNames(chunks, marks);
    MatchReply(Names(chunks), Names(request[..count]), indicator, marks);
    if Distinct(Names(chunks)) {
      DistinctIsExact(Names(chunks), marks);
    }
  }
}
