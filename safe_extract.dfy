/** `safe_extract_member`: the checks a ZIP member's name must pass and the
    filesystem steps that write it below the target directory. */
module SafeExtract {
  import opened Strings
  import opened Paths
  import opened ZipArchives
  import opened FileSystems

  /** The `(success, message)` pair the function returns, or an exception that
      escapes it (the parent `mkdir` runs outside the `try`). */
  datatype Outcome = Done(success: bool, message: string) | Escaped(reason: string)

  /** What the checks before any write decide: a refusal, or the resolved target. */
  datatype Check = Rejected(message: string) | Target(path: Segments)

  predicate Succeeded(o: Outcome) {
    o.Done? && o.success
  }

  /** What resolving a path that holds a NUL character raises. */
  const NulReason := "embedded null byte"

  /** `(target_dir / member.filename).resolve()`. */
  function ResolvedTarget(root: Segments, filename: string): (r: Segments)
    requires Resolved(root)
    ensures Resolved(r)
  {
    Normalize(root, Parts(filename))
  }

  /** The absolute-path test, the resolution and the string-prefix containment test. */
  function CheckMember(m: Member, root: Segments): Check
    requires Resolved(root)
  {
    if IsAbsolute(m.filename) then Rejected("Skipping absolute path: " + m.filename)
    else if '\0' in m.filename then Rejected("Invalid path " + m.filename + ": " + NulReason)
    else if !StartsWith(PathString(ResolvedTarget(root, m.filename)), PathString(root)) then
      Rejected("Skipping path traversal attempt: " + m.filename)
    else Target(ResolvedTarget(root, m.filename))
  }

  function FailureMessage(filename: string, reason: string): string {
    "Failed to extract " + filename + ": " + reason
  }

  function ExtractedMessage(filename: string): string {
    "Extracted: " + filename
  }

  function SkippedMessage(filename: string): string {
    "Skipped (already exists): " + filename
  }

  /** The mode an extracted file ends with: the stored permission bits when the
      attributes and the bits are non-zero, otherwise the temporary file's 0o600. */
  function FinalMode(attr: U32): nat {
    if attr != 0 && PermissionBits(attr) != 0 then PermissionBits(attr) else TempMode
  }

  /** The `try` block, once the parent directory exists: a directory member is
      made with `mkdir -p`; a file member is copied to a temporary file that is
      renamed over the target, and removed again if the copy or the rename fails. */
  function WriteTarget(t: Tree, m: Member, target: Segments): (Outcome, Tree)
  {
    if IsDir(m) then
      match MakeDirs(t, target)
      case Err(e) => (Done(false, FailureMessage(m.filename, e)), t)
      case Ok(t2) => (Done(true, ExtractedMessage(m.filename)), t2)
    else WriteFile(t, m, target)
  }

  /** The file branch of the `try` block: a corrupt member or a directory in the
      way fails and leaves the tree as it was; otherwise the file is in place. */
  function WriteFile(t: Tree, m: Member, target: Segments): (Outcome, Tree)
  {
    if !m.intact then (Done(false, FailureMessage(m.filename, CorruptDataReason)), t)
    else if IsDirAt(t, target) then (Done(false, FailureMessage(m.filename, IsADirectoryReason)), t)
    else (Done(true, ExtractedMessage(m.filename)), t[target := File(m.fileSize, FinalMode(m.externalAttr))])
  }

  /** The whole of `safe_extract_member` on a filesystem state: its outcome and the
      state it leaves. */
  function ExtractMember(t: Tree, m: Member, root: Segments, overwrite: bool): (Outcome, Tree)
    requires Resolved(root)
  {
    match CheckMember(m, root)
    case Rejected(msg) => (Done(false, msg), t)
    case Target(target) =>
      if !overwrite && IsFileAt(t, target) then
        if t[target].size == m.fileSize then (Done(true, SkippedMessage(m.filename)), t)
        else (Done(false, "File exists with different size: " + m.filename), t)
      else match MakeDirs(t, Parent(target))
        case Err(e) => (Escaped(e), t)
        case Ok(t1) => WriteTarget(t1, m, target)
  }

  /** `safe_extract_member`, step by step on the filesystem. */
  method SafeExtractMember(fs: FileSystem, m: Member, root: Segments, overwrite: bool)
    returns (outcome: Outcome)
    requires Resolved(root)
    modifies fs
    ensures (outcome, fs.tree) == ExtractMember(old(fs.tree), m, root, overwrite)
  {
    var name := m.filename;
    if IsAbsolute(name) {
      return Done(false, "Skipping absolute path: " + name);
    }
    if '\0' in name {
      return Done(false, "Invalid path " + name + ": " + NulReason);
    }
    var target := ResolvedTarget(root, name);
    if !StartsWith(PathString(target), PathString(root)) {
      return Done(false, "Skipping path traversal attempt: " + name);
    }
    if Exists(fs.tree, target) && !overwrite && IsFileAt(fs.tree, target) {
      if fs.tree[target].size == m.fileSize {
        return Done(true, SkippedMessage(name));
      }
      return Done(false, "File exists with different size: " + name);
    }

    var parentErr := fs.MkdirAll(Parent(target));
    if parentErr.Some? {
      return Escaped(parentErr.value);
    }
    MakeDirsOk(old(fs.tree), Parent(target));
    outcome := WriteMemberTarget(fs, m, target);
  }

  /** The `try` block of `safe_extract_member`, once the parent directory exists. */
  method WriteMemberTarget(fs: FileSystem, m: Member, target: Segments) returns (outcome: Outcome)
    requires IsDirAt(fs.tree, Parent(target))
    modifies fs
    ensures (outcome, fs.tree) == WriteTarget(old(fs.tree), m, target)
  {
    if IsDir(m) {
      var err := fs.MkdirAll(target);
      if err.Some? {
        return Done(false, FailureMessage(m.filename, err.value));
      }
      return Done(true, ExtractedMessage(m.filename));
    }
    outcome := WriteFileMember(fs, m, target);
  }

  /** The file branch of the `try` block: copy to a temporary file beside the
      target, rename it over the target and set the stored mode; on a failure the
      temporary file is removed and the tree is as before. */
  method WriteFileMember(fs: FileSystem, m: Member, target: Segments) returns (outcome: Outcome)
    requires IsDirAt(fs.tree, Parent(target))
    modifies fs
    ensures (outcome, fs.tree) == WriteFile(old(fs.tree), m, target)
  {
    ghost var t1 := fs.tree;
    var last := if target == [] then "" else target[|target| - 1];
    var tmp := fs.CreateTemp(Parent(target), last);
    assert target != [] ==> target == Parent(target) + [last];
    assert tmp != target && tmp != Parent(target);
    assert IsDirAt(fs.tree, target) == IsDirAt(t1, target) && IsDirAt(fs.tree, Parent(target));
    var err := fs.WriteMember(tmp, m.fileSize, m.intact);
    if err.None? {
      assert fs.tree == t1[tmp := File(m.fileSize, TempMode)];
      err := fs.Replace(tmp, target);
      if err.None? {
        TempRenamed(t1, tmp, target, File(m.fileSize, TempMode));
      } else {
        assert err == Some(IsADirectoryReason) && IsDirAt(t1, target);
      }
    } else {
      assert err == Some(CorruptDataReason) && !m.intact;
    }
    if err.Some? {
      if tmp in fs.tree {
        fs.Unlink(tmp);
      }
      TempRemoved(t1, tmp, File(0, TempMode), File(m.fileSize, TempMode));
      assert fs.tree == t1;
      return Done(false, FailureMessage(m.filename, err.value));
    }
    var mode := PermissionBits(m.externalAttr);
    if m.externalAttr != 0 && mode != 0 {
      fs.Chmod(target, mode);
    }
    assert fs.tree == t1[target := File(m.fileSize, FinalMode(m.externalAttr))];
    return Done(true, ExtractedMessage(m.filename));
  }

  /** Removing a temporary file that was not there before restores the tree. */
  lemma TempRemoved(t: Tree, tmp: Segments, v: Node, w: Node)
    requires tmp !in t
    ensures t[tmp := v] - {tmp} == t && t[tmp := w] - {tmp} == t
  {
  }

  /** Renaming a temporary file that was not there before over `dst` puts its
      node at `dst` and leaves no trace of the temporary name. */
  lemma TempRenamed(t: Tree, tmp: Segments, dst: Segments, v: Node)
    requires tmp !in t && tmp != dst
    ensures (t[tmp := v] - {tmp})[dst := v] == t[dst := v]
  {
  }

  /** A member whose name is absolute, does not resolve, or resolves to a path
      whose string does not start with the target directory's string is refused,
      and nothing is written. */
  lemma UnsafeNamesRejected(t: Tree, m: Member, root: Segments, overwrite: bool)
    requires Resolved(root)
    requires IsAbsolute(m.filename) || '\0' in m.filename
             || !StartsWith(PathString(ResolvedTarget(root, m.filename)), PathString(root))
    ensures var (o, t') := ExtractMember(t, m, root, overwrite);
            o.Done? && !o.success && t' == t
  {
  }

  /** Without `overwrite`, an existing regular file at the target is never
      touched: the same size counts as already extracted, another size fails. */
  lemma ExistingFilePolicy(t: Tree, m: Member, root: Segments)
    requires Resolved(root) && CheckMember(m, root).Target?
    requires IsFileAt(t, CheckMember(m, root).path)
    ensures var (o, t') := ExtractMember(t, m, root, false);
            t' == t && o.Done?
            && (o.success <==> t[CheckMember(m, root).path].size == m.fileSize)
            && (o.success ==> o.message == SkippedMessage(m.filename))
  {
  }

  /** Only the target and directories on the way to it change: every other node
      is kept as it was, and no temporary file is left behind. */
  lemma {:induction false} ExtractFrame(t: Tree, m: Member, root: Segments, overwrite: bool)
    requires Resolved(root)
    ensures var t' := ExtractMember(t, m, root, overwrite).1;
            CheckMember(m, root).Rejected? ==> t' == t
    ensures var t' := ExtractMember(t, m, root, overwrite).1;
            CheckMember(m, root).Target? ==>
              var target := CheckMember(m, root).path;
              (forall q :: q in t && q != target ==> q in t' && t'[q] == t[q])
              && (forall q :: q in t' && q !in t ==> q <= target && (q != target ==> t'[q] == Dir))
  {
    if CheckMember(m, root).Target? {
      var target := CheckMember(m, root).path;
      if !(!overwrite && IsFileAt(t, target)) && MakeDirs(t, Parent(target)).Ok? {
        MakeDirsOk(t, Parent(target));
        var t1 := MakeDirs(t, Parent(target)).value;
        forall q | q in t1 && q !in t ensures q <= target {
          assert q <= Parent(target);
        }
        if IsDir(m) && MakeDirs(t1, target).Ok? {
          MakeDirsOk(t1, target);
        }
      }
    }
  }

  /** What a success means: either the existing file was kept, or the member is
      now at the target, a file with the member's size and its final mode. */
  lemma SuccessMeans(t: Tree, m: Member, root: Segments, overwrite: bool)
    requires Resolved(root)
    requires Succeeded(ExtractMember(t, m, root, overwrite).0)
    ensures CheckMember(m, root).Target?
    ensures var (o, t') := ExtractMember(t, m, root, overwrite);
            var target := CheckMember(m, root).path;
            (o.message == SkippedMessage(m.filename) && !overwrite && IsFileAt(t, target)
             && t[target].size == m.fileSize && t' == t)
            || (o.message == ExtractedMessage(m.filename)
                && (IsDir(m) ==> IsDirAt(t', target))
                && (!IsDir(m) ==> m.intact && target in t'
                                  && t'[target] == File(m.fileSize, FinalMode(m.externalAttr))))
  {
    var target := CheckMember(m, root).path;
    if !(!overwrite && IsFileAt(t, target)) {
      var t1 := MakeDirs(t, Parent(target)).value;
      if IsDir(m) {
        MakeDirsOk(t1, target);
      }
    }
  }

  /** A failure or an escaped exception leaves the target as it was. */
  lemma FailureKeepsTarget(t: Tree, m: Member, root: Segments, overwrite: bool)
    requires Resolved(root) && CheckMember(m, root).Target?
    requires !Succeeded(ExtractMember(t, m, root, overwrite).0)
    ensures var t' := ExtractMember(t, m, root, overwrite).1;
            var target := CheckMember(m, root).path;
            (target in t' <==> target in t) && (target in t ==> t'[target] == t[target])
  {
    var target := CheckMember(m, root).path;
    if !(!overwrite && IsFileAt(t, target)) && MakeDirs(t, Parent(target)).Ok? {
      MakeDirsOk(t, Parent(target));
      assert target != [] ==> !(target <= Parent(target));
    }
  }

  /** Extraction keeps the filesystem well formed. */
  lemma {:induction false} ExtractKeepsValid(t: Tree, m: Member, root: Segments, overwrite: bool)
    requires Resolved(root) && Valid(t)
    ensures Valid(ExtractMember(t, m, root, overwrite).1)
  {
    if CheckMember(m, root).Target? {
      var target := CheckMember(m, root).path;
      if !(!overwrite && IsFileAt(t, target)) && MakeDirs(t, Parent(target)).Ok? {
        MakeDirsValid(t, Parent(target));
        MakeDirsOk(t, Parent(target));
        var t1 := MakeDirs(t, Parent(target)).value;
        if IsDir(m) {
          if MakeDirs(t1, target).Ok? {
            MakeDirsValid(t1, target);
          }
        } else if m.intact && !IsDirAt(t1, target) {
          var t' := t1[target := File(m.fileSize, FinalMode(m.externalAttr))];
          forall q | q in t' ensures q != [] && IsDirAt(t', Parent(q)) {
            if q != target {
              assert IsDirAt(t1, Parent(q));
            }
          }
        }
      }
    }
  }

  /** The exception that escapes: with the checks passed and no existing file
      kept, it is raised exactly when some directory above the target is a file. */
  lemma EscapeWhen(t: Tree, m: Member, root: Segments, overwrite: bool)
    requires Resolved(root) && Valid(t) && CheckMember(m, root).Target?
    requires !(!overwrite && IsFileAt(t, CheckMember(m, root).path))
    ensures var (o, t') := ExtractMember(t, m, root, overwrite);
            var target := CheckMember(m, root).path;
            (o.Escaped? <==> exists k :: 0 < k < |target| && IsFileAt(t, target[..k]))
            && (o.Escaped? ==> t' == t)
  {
    var target := CheckMember(m, root).path;
    EscapesOnParent(t, m, root, overwrite);
    MakeDirsFails(t, Parent(target));
    ParentPrefixes(t, target);
  }

  lemma EscapesOnParent(t: Tree, m: Member, root: Segments, overwrite: bool)
    requires Resolved(root) && CheckMember(m, root).Target?
    requires !(!overwrite && IsFileAt(t, CheckMember(m, root).path))
    ensures var (o, t') := ExtractMember(t, m, root, overwrite);
            (o.Escaped? <==> MakeDirs(t, Parent(CheckMember(m, root).path)).Err?)
            && (o.Escaped? ==> t' == t)
  {
    var target := CheckMember(m, root).path;
    if MakeDirs(t, Parent(target)).Ok? {
      var t1 := MakeDirs(t, Parent(target)).value;
      assert WriteTarget(t1, m, target).0.Done?;
    }
  }

  lemma ParentPrefixes(t: Tree, target: Segments)
    ensures (exists k :: 0 < k <= |Parent(target)| && IsFileAt(t, Parent(target)[..k]))
        <==> (exists k :: 0 < k < |target| && IsFileAt(t, target[..k]))
  {
    var pp := Parent(target);
    assert forall k :: 0 < k < |target| ==> pp[..k] == target[..k];
  }

  /** An existing directory where a file member belongs is not caught by the
      existing-target policy: the write is attempted and fails, changing nothing. */
  lemma ExistingDirFallsThrough(t: Tree, m: Member, root: Segments, overwrite: bool)
    requires Resolved(root) && Valid(t) && CheckMember(m, root).Target?
    requires IsDirAt(t, CheckMember(m, root).path) && !IsDir(m)
    ensures ExtractMember(t, m, root, overwrite)
         == (Done(false, FailureMessage(m.filename,
                           if m.intact then IsADirectoryReason else CorruptDataReason)), t)
  {
    var target := CheckMember(m, root).path;
    DirAncestors(t, target);
    if target != [] {
      assert Parent(target) == target[..|target| - 1];
    }
    MakeDirsExisting(t, Parent(target));
  }

  /** A relative name without `..` always passes the containment test and lands
      inside the target directory. */
  lemma {:induction false} PlainNamesContained(m: Member, root: Segments)
    requires Resolved(root)
    requires !IsAbsolute(m.filename) && '\0' !in m.filename
    requires ".." !in Parts(m.filename)
    ensures CheckMember(m, root).Target?
    ensures root <= CheckMember(m, root).path
  {
    var parts := Parts(m.filename);
    NormalizeDescends(root, parts);
    var target := ResolvedTarget(root, m.filename);
    assert target == root + target[|root|..];
    PathStringExtends(root, target[|root|..]);
  }

  lemma NormalizeThree(r: string, d: string, x: string)
    requires ProperName(r) && ProperName(d) && ProperName(x)
    ensures Normalize([r], ["..", d, x]) == [d, x]
  {
    var rel := ["..", d, x];
    assert rel[1..] == [d, x] && rel[1..][1..] == [x] && rel[1..][1..][1..] == [];
    assert Parent([r]) == [];
    assert [] + [d] == [d] && [d] + [x] == [d, x];
    assert Normalize([d, x], []) == [d, x];
    assert Normalize([d], [x]) == [d, x];
    assert Normalize([], [d, x]) == [d, x];
  }

  lemma JoinTwo(a: string, b: string)
    ensures PathString([a, b]) == "/" + a + "/" + b
  {
    assert [a, b][1..] == [b];
    assert Join([b], "/") == b;
    assert Join([a, b], "/") == a + "/" + b;
  }

  /** The containment test compares strings: for a target directory `/r`, a
      member `../rs/x` (with `rs` a sibling whose name extends `r`, as `/out2`
      extends `/out`) resolves to `/rs/x`, whose string starts with `/r`; it passes
      and is written outside the target directory. */
  lemma SiblingPrefixEscapes(r: string, tail: string, x: string, m: Member, t: Tree)
    requires ProperName(r) && ProperName(x) && tail != [] && '/' !in tail
    requires '\0' !in r && '\0' !in tail && '\0' !in x
    requires m.filename == "../" + r + tail + "/" + x && m.intact
    requires t == map[[r] := Dir]
    ensures ExtractMember(t, m, [r], false)
         == (Done(true, ExtractedMessage(m.filename)),
             t[[r + tail] := Dir][[r + tail, x] := File(m.fileSize, FinalMode(m.externalAttr))])
    ensures !([r] <= [r + tail, x])
  {
    SiblingPasses(r, tail, x, m);
    ClimbIsRelative(r + tail, x, m.filename);
    ExtractBeside(t, m, r, r + tail, x);
  }

  /** A file member whose target is `/s/x`, for a top-level `s` other than the
      target directory `/r`, is written there after `s` is made. */
  lemma ExtractBeside(t: Tree, m: Member, r: string, s: string, x: string)
    requires ProperName(r) && ProperName(s) && ProperName(x) && s != r
    requires CheckMember(m, [r]) == Target([s, x])
    requires !IsDir(m) && m.intact
    requires t == map[[r] := Dir]
    ensures ExtractMember(t, m, [r], false)
         == (Done(true, ExtractedMessage(m.filename)),
             t[[s] := Dir][[s, x] := File(m.fileSize, FinalMode(m.externalAttr))])
  {
    assert Parent([s, x]) == [s];
    MakeTopDir(t, s);
    ExtractFileInto(t, m, [r], [s, x], t[[s] := Dir]);
  }

  /** A file member that passes the checks, has no file at its target and whose
      parent directories can be made is written there. */
  lemma ExtractFileInto(t: Tree, m: Member, root: Segments, target: Segments, t1: Tree)
    requires Resolved(root) && CheckMember(m, root) == Target(target)
    requires !IsFileAt(t, target) && MakeDirs(t, Parent(target)) == Ok(t1)
    requires !IsDir(m) && m.intact && !IsDirAt(t1, target)
    ensures ExtractMember(t, m, root, false)
         == (Done(true, ExtractedMessage(m.filename)), t1[target := File(m.fileSize, FinalMode(m.externalAttr))])
  {
  }

  lemma SiblingPasses(r: string, tail: string, x: string, m: Member)
    requires ProperName(r) && ProperName(x) && tail != [] && '/' !in tail
    requires '\0' !in r && '\0' !in tail && '\0' !in x
    requires m.filename == "../" + r + tail + "/" + x
    ensures CheckMember(m, [r]) == Target([r + tail, x])
    ensures ProperName(r + tail) && r + tail != r
  {
    var sib := r + tail;
    SiblingName(r, tail);
    ClimbResolves(r, sib, x, m.filename);
    SiblingStringPrefix(r, tail, x);
    ClimbIsRelative(sib, x, m.filename);
    CheckPasses(m, [r], [sib, x]);
  }

  /** The checks let through a relative name without NUL whose resolved path's
      string starts with the target directory's. */
  lemma CheckPasses(m: Member, root: Segments, target: Segments)
    requires Resolved(root)
    requires !IsAbsolute(m.filename) && '\0' !in m.filename
    requires ResolvedTarget(root, m.filename) == target
    requires StartsWith(PathString(target), PathString(root))
    ensures CheckMember(m, root) == Target(target)
  {
  }

  /** `../d/x` is relative and has no NUL when `d` and `x` have none. */
  lemma ClimbIsRelative(d: string, x: string, name: string)
    requires '\0' !in d && '\0' !in x && x != ""
    requires name == "../" + d + "/" + x
    ensures !IsAbsolute(name) && '\0' !in name && name[|name| - 1] == x[|x| - 1]
  {
    assert name[0] == '.';
    assert name == "../" + (d + ("/" + x));
  }

  /** `mkdir -p` of a missing top-level directory adds just that directory. */
  lemma MakeTopDir(t: Tree, d: string)
    requires [d] !in t
    ensures MakeDirs(t, [d]) == Ok(t[[d] := Dir])
  {
    assert Parent([d]) == [];
  }

  /** A name that extends a proper name by characters other than `/` is another
      proper name. */
  lemma SiblingName(r: string, tail: string)
    requires ProperName(r) && tail != [] && '/' !in tail
    ensures ProperName(r + tail) && r + tail != r && (r + tail)[..|r|] == r
  {
    var sib := r + tail;
    assert '/' !in sib by {
      forall i | 0 <= i < |sib| ensures sib[i] != '/' {
        if i < |r| { assert sib[i] == r[i]; } else { assert sib[i] == tail[i - |r|]; }
      }
    }
    assert sib != ".." by {
      assert sib[0] == r[0];
      assert |r| == 1 ==> r[0] != '.' by { if |r| == 1 { assert r == [r[0]]; } }
    }
  }

  /** `/r/../d/x` resolves to `/d/x`. */
  lemma ClimbResolves(r: string, d: string, x: string, name: string)
    requires ProperName(r) && ProperName(d) && ProperName(x)
    requires name == "../" + d + "/" + x
    ensures ResolvedTarget([r], name) == [d, x]
  {
    assert name == ".." + "/" + d + "/" + x;
    PartsOfThree("..", d, x);
    NormalizeThree(r, d, x);
  }

  /** The string of `/rs/x` starts with the string of `/r`. */
  lemma SiblingStringPrefix(r: string, tail: string, x: string)
    ensures StartsWith(PathString([r + tail, x]), PathString([r]))
  {
    JoinTwo(r + tail, x);
    assert PathString([r]) == "/" + r;
    assert ("/" + (r + tail) + "/" + x)[..|r| + 1] == "/" + r;
  }

  /** A member that climbs out to a directory whose name starts differently from
      the target directory's name is refused. */
  lemma TraversalRefused(r: string, d: string, x: string, size: nat, attr: U32, t: Tree)
    requires ProperName(r) && ProperName(d) && ProperName(x) && d[0] != r[0]
    requires '\0' !in d && '\0' !in x
    ensures var m := Member("../" + d + "/" + x, size, attr, true);
            ExtractMember(t, m, [r], false)
            == (Done(false, "Skipping path traversal attempt: " + m.filename), t)
  {
    var name := "../" + d + "/" + x;
    assert name == ".." + "/" + d + "/" + x;
    PartsOfThree("..", d, x);
    NormalizeThree(r, d, x);
    JoinTwo(d, x);
    assert PathString([r]) == "/" + r;
    assert ("/" + d + "/" + x)[1] != ("/" + r)[1];
  }
}
