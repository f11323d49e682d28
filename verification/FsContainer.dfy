/**
 A container of an agent, src/agent/container/fs.cc: writing, reverting and cleaning up chunks.
 */
module FsContainer {
  import opened Gf256
  import opened Sequences
  import opened Decimal
  import opened FsFiles

  /**
   What can go wrong when a chunk is written: the backup, opening the file, the write after so many bytes,
   or reading it back to verify its checksum.
   */
  datatype Fault = NoFault | RenameFails | OpenFails | WriteStops(count: nat) | ReadBackFails {
    /** What of the data is written, if the file is opened. */
    function Written(data: seq<Byte>): seq<Byte> {
      if WriteStops? && count < |data| then data[..count] else data
    }
  }

  /** The files after a chunk is written several times, each time at another moment. */
  function AfterPuts(files: Files, path: string, datas: seq<seq<Byte>>, times: seq<nat>): Files
    requires |datas| == |times|
  {
    if times == [] then files
    else
      var last := |times| - 1;
      AfterPut(AfterPuts(files, path, datas[..last], times[..last]), path, Print(times[last]), datas[last])
  }

  function Backups(path: string, times: seq<nat>): set<string> {
    set t | t in times :: OldPath(path, Print(t))
  }

  lemma BackupOf(path: string, times: seq<nat>, t: nat)
    ensures OldPath(path, Print(t)) in Backups(path, times) <==> t in times
    ensures path !in Backups(path, times)
  {
    hide Print, OldPath;
    forall s | s in times
      ensures OldPath(path, Print(s)) == OldPath(path, Print(t)) ==> s == t
      ensures OldPath(path, Print(s)) != path
    {
      VersionsDiffer(path, Print(s), Print(t));
      if Print(s) == Print(t) {
        PrintInjective(s, t);
      }
    }
  }

  lemma NotZero(t: nat)
    ensures Print(t) == "0" <==> t == 0
  {
    if Print(t) == "0" {
      assert Print(0) == "0";
      PrintInjective(t, 0);
    }
  }

  /** The chunk and all backups are there, and no file is left in between. */
  lemma {:induction false} PutsLeave(files: Files, path: string, datas: seq<seq<Byte>>, times: seq<nat>)
    requires |datas| == |times| && path in files && OldPath(path, "0") !in files && 0 !in times
    ensures path in AfterPuts(files, path, datas, times) && OldPath(path, "0") !in AfterPuts(files, path, datas, times)
    ensures forall t :: t in times ==> OldPath(path, Print(t)) in AfterPuts(files, path, datas, times)
  {
    hide Print, OldPath;
    if times != [] {
      var last := |times| - 1;
      PutsLeave(files, path, datas[..last], times[..last]);
      var t := times[last];
      NotZero(t);
      VersionsDiffer(path, Print(t), "0");
      VersionsDiffer(path, "0", Print(t));
      forall s | s in times
        ensures OldPath(path, Print(s)) in AfterPuts(files, path, datas, times)
      {
        VersionsDiffer(path, Print(s), "0");
        if s != t {
          assert s in times[..last];
        }
      }
    }
  }

  lemma NoPuts(files: Files, path: string, datas: seq<seq<Byte>>, times: seq<nat>)
    requires |datas| == |times|
    ensures AfterPuts(files, path, datas[..0], times[..0]) == files
    ensures Backups(path, times[|times|..]) == {}
  {
  }

  lemma NextPut(files: Files, path: string, datas: seq<seq<Byte>>, times: seq<nat>, i: nat)
    requires |datas| == |times| && i < |times|
    ensures AfterPuts(files, path, datas[..i + 1], times[..i + 1]) ==
              AfterPut(AfterPuts(files, path, datas[..i], times[..i]), path, Print(times[i]), datas[i])
  {
    hide AfterPut;
    assert datas[..i + 1][..i] == datas[..i] && times[..i + 1][..i] == times[..i];
  }

  /** The files after going back to `version`, when there is one. */
  function Reverted(files: Files, path: string, version: string): Files {
    if OldPath(path, version) in files then files[path := files[OldPath(path, version)]] - {OldPath(path, version)}
    else files
  }

  lemma RevertStep(path: string, times: seq<nat>, i: nat, before: Files)
    requires i < |times|
    ensures forall t :: t in times ==>
              (OldPath(path, Print(t)) in Reverted(before, path, Print(times[i])) <==>
               OldPath(path, Print(t)) in before && t != times[i])
    ensures forall t :: t in times[i..] <==> t == times[i] || t in times[i + 1..]
  {
    hide OldPath, Print;
    forall t | t in times
      ensures OldPath(path, Print(t)) in Reverted(before, path, Print(times[i])) <==>
                OldPath(path, Print(t)) in before && t != times[i]
    {
      VersionsDiffer(path, Print(t), Print(times[i]));
      if Print(t) == Print(times[i]) {
        PrintInjective(t, times[i]);
      }
    }
    assert times[i..] == [times[i]] + times[i + 1..];
  }

  /** One revert undoes one write. */
  lemma UndoStep(files: Files, path: string, datas: seq<seq<Byte>>, times: seq<nat>, i: nat)
    requires |datas| == |times| && i < |times| && Distinct(times) && 0 !in times && path in files
    requires OldPath(path, "0") !in files
    ensures Reverted(AfterPuts(files, path, datas[..i + 1], times[..i + 1]) - Backups(path, times[i + 1..]), path,
                     Print(times[i]))
            == AfterPuts(files, path, datas[..i], times[..i]) - Backups(path, times[i..])
  {
    hide OldPath, Print, AfterPuts, AfterPut, AfterRevert, Backups;
    var state, gone, version := AfterPuts(files, path, datas[..i],
                                          times[..i]), Backups(path, times[i + 1..]), Print(times[i]);
    NextPut(files, path, datas, times, i);
    PutsLeave(files, path, datas[..i], times[..i]);
    PutsLeave(files, path, datas[..i + 1], times[..i + 1]);
    NotZero(times[i]);
    BackupOf(path, times[i + 1..], times[i]);
    RevertUndoesPut(state, path, version, datas[i], gone);
    RevertEffect(AfterPuts(files, path, datas[..i + 1], times[..i + 1]) - gone, path, version);
    BackupsSplit(path, times, i);
    assert state - gone - {OldPath(path, version)} == state - (gone + {OldPath(path, version)});
  }

  lemma BackupsSplit(path: string, times: seq<nat>, i: nat)
    requires i < |times|
    ensures Backups(path, times[i..]) == Backups(path, times[i + 1..]) + {OldPath(path, Print(times[i]))}
  {
    assert times[i..] == [times[i]] + times[i + 1..];
  }

  lemma DistinctBySuffix(times: seq<nat>)
    ensures Distinct(times) <==> forall x :: 0 <= x < |times| ==> times[x] !in times[x + 1..]
  {
    if forall x :: 0 <= x < |times| ==> times[x] !in times[x + 1..] {
      forall i, j | 0 <= i < j < |times|
        ensures times[i] != times[j]
      {
        assert times[i + 1..][j - i - 1] == times[j];
      }
    }
  }

  /** How far the reverts have come: those from i on are done, and all succeeded exactly when their times differ. */
  ghost predicate Undone(files: Files, files0: Files, path: string, datas: seq<seq<Byte>>, times: seq<nat>, i: nat,
                         ok: bool)
    requires |datas| == |times| && i <= |times|
  {
    && (ok <==> forall x :: i <= x < |times| ==> times[x] !in times[x + 1..])
    && (ok ==> forall t :: t in times ==> (OldPath(path, Print(t)) in files <==> t !in times[i..]))
    && (Distinct(times) ==> files == AfterPuts(files0, path, datas[..i], times[..i]) - Backups(path, times[i..]))
  }

  lemma NoneUndone(files0: Files, path: string, datas: seq<seq<Byte>>, times: seq<nat>)
    requires |datas| == |times| && path in files0 && OldPath(path, "0") !in files0 && 0 !in times
    ensures Undone(AfterPuts(files0, path, datas, times), files0, path, datas, times, |times|, true)
  {
    hide OldPath, Print, AfterPuts, Backups;
    PutsLeave(files0, path, datas, times);
    NoPuts(files0, path, datas, times);
    assert times[..|times|] == times && datas[..|times|] == datas;
  }

  lemma UndoneStep(files: Files, files0: Files, path: string, datas: seq<seq<Byte>>, times: seq<nat>, i: nat, ok: bool)
    requires |datas| == |times| && i < |times| && path in files0 && OldPath(path, "0") !in files0 && 0 !in times
    requires Undone(files, files0, path, datas, times, i + 1, ok)
    ensures Undone(Reverted(files, path, Print(times[i])), files0, path, datas, times, i,
                   ok && OldPath(path, Print(times[i])) in files)
  {
    hide OldPath, Print, AfterPuts, Backups, Reverted, Distinct;
    RevertStep(path, times, i, files);
    if Distinct(times) {
      UndoStep(files0, path, datas, times, i);
    }
  }

  lemma AllUndone(files: Files, files0: Files, path: string, datas: seq<seq<Byte>>, times: seq<nat>, ok: bool)
    requires |datas| == |times| && Undone(files, files0, path, datas, times, 0, ok)
    ensures ok <==> Distinct(times)
    ensures ok ==> files == files0 - Backups(path, times)
  {
    hide OldPath, Print, AfterPuts, Backups;
    NoPuts(files0, path, datas, times);
    DistinctBySuffix(times);
    assert times[0..] == times;
  }

  class Container {
    const dir: string
    var files: Files

    constructor (dir: string)
      ensures Valid() && this.dir == dir && files == map[]
    {
      this.dir, files := dir, map[];
    }

    /** No chunk has a file that an unfinished revert would leave. */
    ghost predicate Valid()
      reads this
    {
      forall name :: IsName(name) ==> OldPath(ChunkPath(dir, name), "0") !in files
    }

    /** Writes a chunk; one that is there is kept under the time, which becomes its version. */
    method PutChunk(name: string, data: seq<Byte>, now: nat, fault: Fault) returns (ok: bool, version: string)
      requires Valid() && IsName(name) && now != 0
      modifies this`files
      ensures Valid()
      ensures var path := ChunkPath(dir, name);
              if |path| >= PATH_MAX then !ok && files == old(files)
              else if path in old(files) && fault.RenameFails? then !ok && files == old(files)
              else
                && version == (if path in old(files) then Print(now) else "")
                && (ok <==> !fault.OpenFails? && !fault.ReadBackFails? && fault.Written(data) == data)
                && files == if fault.OpenFails? then Rename(old(files), path, OldPath(path, version))
                            else AfterPut(old(files), path, version, fault.Written(data))
    {
      hide IsName, ChunkPath, OldPath, Print;
      var path := ChunkPath(dir, name);
      version := "";
      NotZero(now);
      if |path| >= PATH_MAX {
        return false, version;
      }
      forall other: string | IsName(other) {
        PathsDiffer(dir, name, Print(now), other, "0");
      }
      if path in files {
        if fault.RenameFails? {
          return false, version;
        }
        version := Print(now);
        files := Rename(files, path, OldPath(path, version));
      }
      if fault.OpenFails? {
        return false, version;
      }
      if fault.WriteStops? && fault.count < |data| {
        files := files[path := data[..fault.count]];
        return false, version;
      }
      files := files[path := data];
      ok := !fault.ReadBackFails?;
    }

    /** Goes back to a version of the chunk. */
    method RevertChunk(name: string, version: string) returns (ok: bool)
      requires Valid() && IsName(name) && version != "0"
      modifies this`files
      ensures Valid()
      ensures var path := ChunkPath(dir, name);
              && (ok <==> |path| < PATH_MAX && OldPath(path, version) in old(files))
              && files == if |path| < PATH_MAX then Reverted(old(files), path, version) else old(files)
    {
      hide IsName, OldPath;
      var path := ChunkPath(dir, name);
      if |path| >= PATH_MAX {
        return false;
      }
      RevertEffect(files, path, version);
      forall other: string | IsName(other) {
        PathsDiffer(dir, name, "", other, "0");
      }
      files := Rename(files, path, OldPath(path, "0"));
      ok := OldPath(path, version) in files;
      if ok {
        files := Rename(files, OldPath(path, version), path);
        files := files - {OldPath(path, "0")};
      } else {
        files := Rename(files, OldPath(path, "0"), path);
      }
    }

    /**
     Writes over a chunk and reverts it. However the write ended, the revert succeeds once the backup was made,
     and only the version it used is gone.
     */
    method PutThenRevert(name: string, data: seq<Byte>, now: nat, fault: Fault) returns (reverted: bool)
      requires Valid() && IsName(name) && now != 0
      requires |ChunkPath(dir, name)| < PATH_MAX && ChunkPath(dir, name) in files
      modifies this`files
      ensures Valid()
      ensures !fault.RenameFails? ==> reverted && files == old(files) - {OldPath(ChunkPath(dir, name), Print(now))}
    {
      hide IsName, OldPath, Print, ChunkPath;
      ghost var path := ChunkPath(dir, name);
      NotZero(now);
      VersionsDiffer(path, Print(now), "0");
      var _, version := PutChunk(name, data, now, fault);
      reverted := false;
      if !fault.RenameFails? {
        reverted := RevertChunk(name, version);
      }
    }

    /** Removes backups that have expired, and no chunk. */
    method CleanUpOldChunks(listing: seq<string>, expired: string -> bool)
      requires Valid() && Elements(listing) == files.Keys
      modifies this`files
      ensures Valid()
      ensures forall p :: p in files <==> p in old(files) && !(IsOld(p) && expired(p))
      ensures forall p :: p in files ==> files[p] == old(files)[p]
      ensures forall name :: IsName(name) && ChunkPath(dir, name) in old(files) ==> ChunkPath(dir, name) in files
    {
      hide IsOld, IsName;
      for i := 0 to |listing|
        invariant forall p :: p in files <==> p in old(files) && !(IsOld(p) && expired(p) && p in listing[..i])
        invariant forall p :: p in files ==> files[p] == old(files)[p]
      {
        if IsOld(listing[i]) && expired(listing[i]) {
          files := files - {listing[i]};
        }
      }
      assert listing[..|listing|] == listing && forall p :: p in old(files) ==> p in Elements(listing);
      forall name: string | IsName(name) {
        ChunkIsNotOld(dir, name);
      }
    }

    /** Writes over a chunk several times. */
    method PutAll(name: string, datas: seq<seq<Byte>>, times: seq<nat>) returns (versions: seq<string>)
      requires Valid() && IsName(name) && |datas| == |times| && 0 !in times
      requires |ChunkPath(dir, name)| < PATH_MAX && ChunkPath(dir, name) in files
      modifies this`files
      ensures Valid() && files == AfterPuts(old(files), ChunkPath(dir, name), datas, times)
      ensures |versions| == |times| && forall j :: 0 <= j < |times| ==> versions[j] == Print(times[j])
    {
      hide IsName, OldPath, Print, AfterPuts, Backups, ChunkPath, AfterPut;
      var path := ChunkPath(dir, name);
      versions := [];
      NoPuts(files, path, datas, times);
      for i := 0 to |times|
        invariant Valid() && files == AfterPuts(old(files), path, datas[..i], times[..i])
        invariant |versions| == i && forall j :: 0 <= j < i ==> versions[j] == Print(times[j])
      {
        PutsLeave(old(files), path, datas[..i], times[..i]);
        NextPut(old(files), path, datas, times, i);
        var _, version := PutChunk(name, datas[i], times[i], NoFault);
        versions := versions + [version];
      }
      assert times[..|times|] == times && datas[..|times|] == datas;
    }

    /**
     Writes over a chunk several times and reverts the versions in reverse order. All reverts succeed exactly
     when no two writes have the same time, and then the files are as they were, without the backups used.
     */
    method PutsThenReverts(name: string, datas: seq<seq<Byte>>, times: seq<nat>) returns (ok: bool)
      requires Valid() && IsName(name) && |datas| == |times| && 0 !in times
      requires |ChunkPath(dir, name)| < PATH_MAX && ChunkPath(dir, name) in files
      modifies this`files
      ensures Valid()
      ensures ok <==> Distinct(times)
      ensures ok ==> files == old(files) - Backups(ChunkPath(dir, name), times)
    {
      hide IsName, OldPath, Print, ChunkPath, Undone, Reverted, Backups, AfterPuts, Distinct;
      ghost var path, before := ChunkPath(dir, name), files;
      var versions := PutAll(name, datas, times);
      NoneUndone(before, path, datas, times);
      ok := true;
      var i := |times|;
      while i > 0
        invariant 0 <= i <= |times| && Valid() && Undone(files, before, path, datas, times, i, ok)
      {
        i := i - 1;
        NotZero(times[i]);
        UndoneStep(files, before, path, datas, times, i, ok);
        var reverted := RevertChunk(name, versions[i]);
        ok := ok && reverted;
      }
      AllUndone(files, before, path, datas, times, ok);
    }
  }

  /** A chunk is written over twice in the same second: the first backup is lost, and only one revert succeeds. */
  method SameSecond() returns (container: Container, ok: bool)
    ensures fresh(container) && !ok
  {
    hide IsName, Print, OldPath;
    container := new Container("dir");
    NameIsShort();
    var _, _ := container.PutChunk("chunk", [], 5, NoFault);
    ok := container.PutsThenReverts("chunk", [[], []], [5, 5]);
    assert [5, 5][0] == [5, 5][1];
  }

  lemma NameIsShort()
    ensures IsName("chunk") && |ChunkPath("dir", "chunk")| < PATH_MAX
  {
  }
}
