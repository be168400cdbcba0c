/** The filesystem the restore engine writes into, as an oracle: a map from an
    absolute path (its segments below `/`) to a node. The root `/` is always a
    directory and is not stored in the map. Ownership, timestamps, symbolic links,
    free space and permission errors are not modelled. */
module FileSystems {
  import opened Strings
  import opened Paths

  /** A regular file (its size and permission bits) or a directory. */
  datatype Node = File(size: nat, mode: nat) | Dir

  type Tree = map<Segments, Node>

  datatype Result<T> = Ok(value: T) | Err(reason: string)

  predicate IsDirAt(t: Tree, p: Segments) {
    p == [] || (p in t && t[p].Dir?)
  }

  predicate IsFileAt(t: Tree, p: Segments) {
    p in t && t[p].File?
  }

  /** `Path.exists()`. */
  predicate Exists(t: Tree, p: Segments) {
    p == [] || p in t
  }

  /** Every node hangs below a directory. */
  predicate Valid(t: Tree) {
    forall p :: p in t ==> p != [] && IsDirAt(t, Parent(p))
  }

  const FileExistsReason := "File exists"
  const NotADirectoryReason := "Not a directory"
  const IsADirectoryReason := "Is a directory"
  const NoSuchFileReason := "No such file or directory"

  /** Mode of a file made by `tempfile.NamedTemporaryFile`: 0o600. */
  const TempMode: nat := 0x180

  /** `Path.mkdir(parents=True, exist_ok=True)`: creates the missing directories
      from the top down; an existing file on the way is an error. */
  function MakeDirs(t: Tree, p: Segments): Result<Tree>
    decreases |p|
  {
    if p == [] then Ok(t)
    else if p in t then (if t[p].Dir? then Ok(t) else Err(FileExistsReason))
    else match MakeDirs(t, Parent(p))
      case Err(_) => Err(NotADirectoryReason)
      case Ok(t1) => Ok(t1[p := Dir])
  }

  /** A directory's ancestors are directories too. */
  lemma {:induction false} DirAncestors(t: Tree, p: Segments)
    requires Valid(t) && IsDirAt(t, p)
    ensures forall k :: 0 <= k <= |p| ==> IsDirAt(t, p[..k])
    decreases |p|
  {
    if p != [] {
      DirAncestors(t, Parent(p));
      forall k | 0 <= k <= |p| ensures IsDirAt(t, p[..k]) {
        if k < |p| {
          assert p[..k] == Parent(p)[..k];
        } else {
          assert p[..k] == p;
        }
      }
    }
  }

  /** Success of `mkdir -p` leaves a directory at the path, keeps every existing
      node as it was, and adds only directories on the way to the path. */
  lemma {:induction false} MakeDirsOk(t: Tree, p: Segments)
    requires MakeDirs(t, p).Ok?
    ensures IsDirAt(MakeDirs(t, p).value, p)
    ensures forall q :: q in t ==> q in MakeDirs(t, p).value && MakeDirs(t, p).value[q] == t[q]
    ensures forall q :: q in MakeDirs(t, p).value && q !in t ==>
              q <= p && MakeDirs(t, p).value[q] == Dir
    decreases |p|
  {
    if p != [] && p !in t {
      MakeDirsOk(t, Parent(p));
      var t1 := MakeDirs(t, Parent(p)).value;
      forall q | q in t1 && q !in t ensures q <= p {
        assert q <= Parent(p);
      }
    }
  }

  /** `mkdir -p` fails exactly when some prefix of the path is a file. */
  lemma {:induction false} MakeDirsFails(t: Tree, p: Segments)
    requires Valid(t)
    ensures MakeDirs(t, p).Err? <==> exists k :: 0 < k <= |p| && IsFileAt(t, p[..k])
    decreases |p|
  {
    if p == [] {
    } else if p in t {
      if t[p].Dir? {
        DirAncestors(t, p);
        forall k | 0 < k <= |p| ensures !IsFileAt(t, p[..k]) {
          assert IsDirAt(t, p[..k]);
        }
      } else {
        assert p[..|p|] == p;
      }
    } else {
      MakeDirsFails(t, Parent(p));
      var pp := Parent(p);
      if MakeDirs(t, pp).Err? {
        var k :| 0 < k <= |pp| && IsFileAt(t, pp[..k]);
        assert pp[..k] == p[..k];
      } else {
        forall k | 0 < k <= |p| ensures !IsFileAt(t, p[..k]) {
          if k < |p| {
            assert pp[..k] == p[..k];
          } else {
            assert p[..k] == p;
          }
        }
      }
    }
  }

  /** `mkdir -p` keeps the tree well formed. */
  lemma {:induction false} MakeDirsValid(t: Tree, p: Segments)
    requires Valid(t) && MakeDirs(t, p).Ok?
    ensures Valid(MakeDirs(t, p).value)
    decreases |p|
  {
    if p != [] && p !in t {
      MakeDirsValid(t, Parent(p));
      MakeDirsOk(t, Parent(p));
    }
  }

  /** Where a directory already exists, `mkdir -p` changes nothing. */
  lemma MakeDirsExisting(t: Tree, p: Segments)
    requires IsDirAt(t, p)
    ensures MakeDirs(t, p) == Ok(t)
  {
  }

  /** The filesystem as mutable state, with the primitives the extraction calls. */
  class FileSystem {
    var tree: Tree

    constructor (tree: Tree)
      ensures this.tree == tree
    {
      this.tree := tree;
    }

    method MkdirAll(p: Segments) returns (err: Option<string>)
      modifies this
      ensures MakeDirs(old(tree), p).Ok? ==> err.None? && tree == MakeDirs(old(tree), p).value
      ensures MakeDirs(old(tree), p).Err? ==> err == Some(MakeDirs(old(tree), p).reason) && tree == old(tree)
    {
      var r := MakeDirs(tree, p);
      if r.Ok? {
        tree := r.value;
        err := None;
      } else {
        err := Some(r.reason);
      }
    }

    /** `NamedTemporaryFile(dir=dir, delete=False, suffix=".tmp")`: an empty file of
        mode 0o600 under a name no node in `dir` has, and not `avoid` either. */
    method CreateTemp(dir: Segments, avoid: string) returns (tmp: Segments)
      requires IsDirAt(tree, dir)
      modifies this
      ensures |tmp| == |dir| + 1 && tmp[..|dir|] == dir
      ensures ProperName(tmp[|dir|]) && EndsWith(tmp[|dir|], ".tmp") && tmp[|dir|] != avoid
      ensures tmp !in old(tree)
      ensures tree == old(tree)[tmp := File(0, TempMode)]
    {
      var keys := tree.Keys;
      var n: nat := |avoid|;
      while keys != {}
        invariant keys <= tree.Keys
        invariant |avoid| <= n
        invariant forall q :: q in tree && q !in keys && |q| > 0 ==> |q[|q| - 1]| <= n
        decreases |keys|
      {
        var q :| q in keys;
        if |q| > 0 && |q[|q| - 1]| > n {
          n := |q[|q| - 1]|;
        }
        keys := keys - {q};
      }
      var name := seq(n, _ => 't') + ".tmp";
      assert name[|name| - 4..] == ".tmp";
      assert '/' !in name by {
        forall i | 0 <= i < |name| ensures name[i] != '/' {
          if i >= n { assert name[i] == ".tmp"[i - n]; }
        }
      }
      tmp := dir + [name];
      assert tmp[..|dir|] == dir;
      assert tmp[|tmp| - 1] == name && |name| > n;
      tree := tree[tmp := File(0, TempMode)];
    }

    /** Copying a member's data into an open file: a member that does not read
        back raises; otherwise the file holds the member's declared size. */
    method WriteMember(f: Segments, size: nat, intact: bool) returns (err: Option<string>)
      requires IsFileAt(tree, f)
      modifies this
      ensures intact ==> err.None? && tree == old(tree)[f := File(size, old(tree)[f].mode)]
      ensures !intact ==> err == Some(CorruptDataReason) && tree == old(tree)
    {
      if intact {
        tree := tree[f := File(size, tree[f].mode)];
        err := None;
      } else {
        err := Some(CorruptDataReason);
      }
    }

    /** `Path.replace`: renames a file over the destination, which must not be a
        directory and must sit in an existing directory. */
    method Replace(src: Segments, dst: Segments) returns (err: Option<string>)
      requires IsFileAt(tree, src)
      modifies this
      ensures IsDirAt(old(tree), dst) ==> err == Some(IsADirectoryReason) && tree == old(tree)
      ensures !IsDirAt(old(tree), dst) && !IsDirAt(old(tree), Parent(dst)) ==>
                err == Some(NoSuchFileReason) && tree == old(tree)
      ensures !IsDirAt(old(tree), dst) && IsDirAt(old(tree), Parent(dst)) ==>
                err.None? && tree == (old(tree) - {src})[dst := old(tree)[src]]
    {
      if IsDirAt(tree, dst) {
        err := Some(IsADirectoryReason);
      } else if !IsDirAt(tree, Parent(dst)) {
        err := Some(NoSuchFileReason);
      } else {
        tree := (tree - {src})[dst := tree[src]];
        err := None;
      }
    }

    /** `Path.chmod` on a regular file. */
    method Chmod(f: Segments, mode: nat)
      requires IsFileAt(tree, f)
      modifies this
      ensures tree == old(tree)[f := File(old(tree)[f].size, mode)]
    {
      tree := tree[f := File(tree[f].size, mode)];
    }

    /** `Path.unlink` on a regular file. */
    method Unlink(f: Segments)
      requires IsFileAt(tree, f)
      modifies this
      ensures tree == old(tree) - {f}
    {
      tree := tree - {f};
    }
  }

  /** What reading a corrupt member raises. */
  const CorruptDataReason := "Bad CRC-32"
}
