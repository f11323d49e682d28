/**
 Chunks as files, src/agent/container/fs.cc: writing over a chunk keeps the old one under a name with
 the time, and reverting puts it back.
 */
module FsFiles {
  import opened Gf256
  import opened Address

  type Files = map<string, seq<Byte>>

  const PATH_MAX := 4096

  function ChunkPath(dir: string, name: string): string {
    dir + "/" + name
  }

  /** Where the version of a chunk is kept. */
  function OldPath(path: string, version: string): string {
    path + "." + version
  }

  /** Names of chunks have neither dots nor slashes. */
  predicate IsName(name: string) {
    '.' !in name && '/' !in name
  }

  /** Whether the file name contains a dot. */
  predicate IsOld(path: string) {
    '.' in path[AfterLast(path, '/')..]
  }

  lemma ChunkIsNotOld(dir: string, name: string)
    requires IsName(name)
    ensures !IsOld(ChunkPath(dir, name))
  {
    hide AfterLast;
    var path := ChunkPath(dir, name);
    LastIsUnique(path, '/', |dir| + 1);
    assert path[|dir| + 1..] == name;
  }

  lemma BackupIsOld(dir: string, name: string, version: string)
    requires IsName(name) && '/' !in version
    ensures IsOld(OldPath(ChunkPath(dir, name), version))
  {
    hide AfterLast;
    var path := OldPath(ChunkPath(dir, name), version);
    LastIsUnique(path, '/', |dir| + 1);
    assert path[|dir| + 1..] == name + "." + version;
    assert (name + "." + version)[|name|] == '.';
  }

  lemma FirstDot(name: string, v: string, other: string, w: string)
    requires '.' !in name && '.' !in other && name + "." + v == other + "." + w
    ensures name == other && v == w
  {
    var s, t := name + "." + v, other + "." + w;
    assert s[|name|] == '.' && t[|other|] == '.';
    assert forall i :: 0 <= i < |name| ==> s[i] == name[i];
    assert forall i :: 0 <= i < |other| ==> t[i] == other[i];
    assert |name| == |other|;
    assert s[..|name|] == name && t[..|other|] == other;
    assert s[|name| + 1..] == v && t[|other| + 1..] == w;
  }

  /** The files of chunks and of their versions are different files for different chunks and versions. */
  lemma PathsDiffer(dir: string, name: string, v: string, other: string, w: string)
    requires IsName(name) && IsName(other) && '/' !in w
    ensures ChunkPath(dir, name) != OldPath(ChunkPath(dir, other), w)
    ensures OldPath(ChunkPath(dir, name), v) == OldPath(ChunkPath(dir, other), w) ==> name == other && v == w
  {
    hide IsOld;
    ChunkIsNotOld(dir, name);
    BackupIsOld(dir, other, w);
    var x, y := OldPath(ChunkPath(dir, name), v), OldPath(ChunkPath(dir, other), w);
    assert x[|dir| + 1..] == name + "." + v && y[|dir| + 1..] == other + "." + w;
    if x == y {
      FirstDot(name, v, other, w);
    }
  }

  /** Renaming replaces the target; nothing happens when there is no file. */
  function Rename(files: Files, from: string, to: string): Files {
    if from in files then (files - {from})[to := files[from]] else files
  }

  /** The files after a chunk is written over: the old one, if any, is kept as `version`. */
  function AfterPut(files: Files, path: string, version: string, data: seq<Byte>): Files {
    Rename(files, path, OldPath(path, version))[path := data]
  }

  lemma VersionsDiffer(path: string, v: string, w: string)
    ensures OldPath(path, v) == OldPath(path, w) <==> v == w
    ensures OldPath(path, v) != path
  {
    assert OldPath(path, v)[|path| + 1..] == v && OldPath(path, w)[|path| + 1..] == w;
    assert |OldPath(path, v)| > |path|;
  }

  /** The files after going back to a version, and whether there was one. */
  function AfterRevert(files: Files, path: string, version: string): (r: (Files, bool))
  {
    var moved := Rename(files, path, OldPath(path, "0"));
    if OldPath(path, version) in moved then (Rename(moved, OldPath(path, version), path) - {OldPath(path, "0")}, true)
    else (Rename(moved, OldPath(path, "0"), path), false)
  }

  /** What a revert does: the version takes the place of the chunk; without it nothing changes. */
  lemma RevertEffect(files: Files, path: string, version: string)
    requires version != "0" && OldPath(path, "0") !in files
    ensures AfterRevert(files, path, version).1 <==> OldPath(path, version) in files
    ensures var backup := OldPath(path, version);
            AfterRevert(files, path, version).0 ==
              if backup in files then files[path := files[backup]] - {backup} else files
  {
    hide OldPath;
    VersionsDiffer(path, version, "0");
    VersionsDiffer(path, "0", version);
  }

  /** Reverting a write brings the files back, but for the version it used, with or without some other files. */
  lemma RevertUndoesPut(files: Files, path: string, version: string, data: seq<Byte>, gone: set<string>)
    requires path in files && version != "0" && OldPath(path, "0") !in files && path !in gone
    requires OldPath(path, version) !in gone
    ensures AfterRevert(AfterPut(files, path, version, data) - gone, path, version) ==
              (files - gone - {OldPath(path, version)}, true)
  {
    hide OldPath, AfterRevert;
    var put := AfterPut(files, path, version, data) - gone;
    VersionsDiffer(path, version, "0");
    VersionsDiffer(path, "0", version);
    RevertEffect(put, path, version);
    var backup := OldPath(path, version);
    assert backup in put && put[backup] == files[path];
    assert put[path := put[backup]] - {backup} == files - gone - {backup};
  }
}
