/**
 * The part of the operating system the core touches: a file system that can
 * be asked whether a path exists and for a file's bytes, and Go's
 * `filepath.Base` for slash-separated paths.
 */
module Os {
  import opened Bytes
  import opened Wrappers

  type Path = seq<byte>

  /** What a path names: a file whose bytes can be read, or something that cannot be read (a directory, a file without permission). */
  datatype Entry = File(data: seq<byte>) | Unreadable

  datatype FileSystem = FileSystem(entries: map<Path, Entry>)

  /** `utils.FileExists`: the path names something. */
  predicate FileExists(fs: FileSystem, p: Path)
  {
    p in fs.entries
  }

  /** `os.ReadFile`: the bytes of the file, or the failing path. */
  function ReadFile(fs: FileSystem, p: Path): (r: Result<seq<byte>, Path>)
    ensures r.Ok? ==> FileExists(fs, p) && fs.entries[p] == File(r.value)
    ensures r.Err? ==> r.error == p && (!FileExists(fs, p) || fs.entries[p] == Unreadable)
  {
    if p in fs.entries && fs.entries[p].File? then Ok(fs.entries[p].data) else Err(p)
  }

  const Slash: byte := '/'

  /** The path without its trailing slashes. */
  function TrimTrailingSlashes(p: Path): (r: Path)
    ensures |r| <= |p| && r == p[..|r|]
    ensures r == [] || r[|r| - 1] != Slash
    ensures forall k | |r| <= k < |p| :: p[k] == Slash
  {
    if p != [] && p[|p| - 1] == Slash then TrimTrailingSlashes(p[..|p| - 1]) else p
  }

  /** The part of `p` after its last slash (all of `p` when it has none). */
  function LastElement(p: Path): (r: Path)
    ensures |r| <= |p| && r == p[|p| - |r|..]
    ensures forall k | 0 <= k < |r| :: r[k] != Slash
    ensures |r| < |p| ==> p[|p| - |r| - 1] == Slash
  {
    if p == [] || p[|p| - 1] == Slash then [] else LastElement(p[..|p| - 1]) + [p[|p| - 1]]
  }

  /**
   * `filepath.Base` with '/' as the only separator: "." for the empty path,
   * "/" for a path of slashes only, otherwise the last element after the
   * trailing slashes are removed.
   */
  function Base(p: Path): (r: Path)
    ensures r != []
    ensures r == "/" || forall k | 0 <= k < |r| :: r[k] != Slash
    ensures p == [] ==> r == "."
  {
    if p == [] then "."
    else
      var trimmed := TrimTrailingSlashes(p);
      var last := LastElement(trimmed);
      if last == [] then "/" else last
  }

  /** The base of "dir/name" (any number of trailing slashes) is `name`. */
  lemma {:induction false} BaseOfJoin(dir: Path, name: Path, slashes: nat)
    requires name != [] && forall k | 0 <= k < |name| :: name[k] != Slash
    ensures Base(dir + "/" + name + seq(slashes, _ => Slash)) == name
  {
    var p := dir + "/" + name + seq(slashes, _ => Slash);
    var q := dir + "/" + name;
    assert TrimTrailingSlashes(p) == q by {
      TrimSlashesRun(q, slashes);
    }
    LastElementAfterSlash(dir + "/", name);
  }

  /** The base of a bare name, with any number of trailing slashes, is the name itself. */
  lemma BaseOfName(name: Path, slashes: nat)
    requires name != [] && forall k | 0 <= k < |name| :: name[k] != Slash
    ensures Base(name + seq(slashes, _ => Slash)) == name
  {
    TrimSlashesRun(name, slashes);
    LastElementOfName(name);
  }

  /** The base of a path made of slashes only is "/". */
  lemma BaseOfSlashes(n: nat)
    requires n > 0
    ensures Base(seq(n, _ => Slash)) == "/"
  {
    var p: Path := seq(n, _ => Slash);
    AllSlashesTrimAway(p);
    assert LastElement([]) == [];
  }

  lemma {:induction false} LastElementOfName(name: Path)
    requires forall k | 0 <= k < |name| :: name[k] != Slash
    ensures LastElement(name) == name
  {
    if name != [] {
      LastElementOfName(name[..|name| - 1]);
      assert name[..|name| - 1] + [name[|name| - 1]] == name;
    }
  }

  lemma {:induction false} AllSlashesTrimAway(p: Path)
    requires forall k | 0 <= k < |p| :: p[k] == Slash
    ensures TrimTrailingSlashes(p) == []
  {
    if p != [] {
      AllSlashesTrimAway(p[..|p| - 1]);
    }
  }

  lemma {:induction false} TrimSlashesRun(q: Path, n: nat)
    requires q != [] && q[|q| - 1] != Slash
    ensures TrimTrailingSlashes(q + seq(n, _ => Slash)) == q
  {
    if n > 0 {
      var p := q + seq(n, _ => Slash);
      assert p[..|p| - 1] == q + seq(n - 1, _ => Slash);
      TrimSlashesRun(q, n - 1);
    }
  }

  lemma {:induction false} LastElementAfterSlash(head: Path, name: Path)
    requires head != [] && head[|head| - 1] == Slash
    requires forall k | 0 <= k < |name| :: name[k] != Slash
    ensures LastElement(head + name) == name
  {
    if name == [] {
      assert head + name == head;
    } else {
      var p := head + name;
      assert p[..|p| - 1] == head + name[..|name| - 1];
      LastElementAfterSlash(head, name[..|name| - 1]);
    }
  }
}
