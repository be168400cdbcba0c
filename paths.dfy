/** POSIX paths as `pathlib.PurePosixPath` parses them and as `Path.resolve()`
    normalises them when no symbolic link is involved: an absolute path is the
    sequence of its segments below `/`. */
module Paths {
  import opened Strings

  type Segments = seq<string>

  /** A segment a resolved path can hold: a real name, never `.`, `..` or empty. */
  predicate ProperName(s: string) {
    s != "" && s != "." && s != ".." && '/' !in s
  }

  predicate Resolved(p: Segments) {
    forall i :: 0 <= i < |p| ==> ProperName(p[i])
  }

  /** `s.split(c)`. */
  function Split(s: string, c: char): (r: seq<string>)
    ensures |r| > 0
    ensures forall i :: 0 <= i < |r| ==> c !in r[i]
    decreases |s|
  {
    match FindChar(s, c)
    case None => [s]
    case Some(k) => [s[..k]] + Split(s[k + 1..], c)
  }

  /** Splitting at the first separator. */
  lemma SplitAt(a: string, b: string, c: char)
    requires c !in a
    ensures Split(a + [c] + b, c) == [a] + Split(b, c)
  {
    var s := a + [c] + b;
    assert s[|a|] == c;
    assert forall i :: 0 <= i < |a| ==> s[i] == a[i];
    assert forall k :: |a| < k <= |s| ==> s[..k][|a|] == c;
    assert s[..|a|] == a && s[|a| + 1..] == b;
  }

  lemma SplitNone(a: string, c: char)
    requires c !in a
    ensures Split(a, c) == [a]
  {
  }

  /** The parts of `x/y/z` for three proper names. */
  lemma PartsOfThree(x: string, y: string, z: string)
    requires x != "" && y != "" && z != "" && '/' !in x && '/' !in y && '/' !in z
    requires x != "." && y != "." && z != "."
    ensures Parts(x + "/" + y + "/" + z) == [x, y, z]
  {
    assert x + "/" + y + "/" + z == x + ['/'] + (y + ['/'] + z);
    SplitThree(x, y, z, '/');
    CleanKeeps([x, y, z]);
  }

  lemma SplitThree(x: string, y: string, z: string, c: char)
    requires c !in x && c !in y && c !in z
    ensures Split(x + [c] + (y + [c] + z), c) == [x, y, z]
  {
    SplitNone(z, c);
    SplitAt(y, z, c);
    SplitAt(x, y + [c] + z, c);
  }

  /** Components that are neither empty nor `.` all survive `Clean`. */
  lemma {:induction false} CleanKeeps(xs: seq<string>)
    requires forall i :: 0 <= i < |xs| ==> xs[i] != "" && xs[i] != "."
    ensures Clean(xs) == xs
  {
    if |xs| > 0 {
      CleanKeeps(xs[1..]);
      assert xs == [xs[0]] + xs[1..];
    }
  }

  /** Drops the empty and `.` components, as `PurePosixPath` does. */
  function Clean(xs: seq<string>): (r: seq<string>)
    ensures |r| <= |xs|
    ensures forall i :: 0 <= i < |r| ==> r[i] != "" && r[i] != "." && r[i] in xs
  {
    if |xs| == 0 then []
    else if xs[0] == "" || xs[0] == "." then Clean(xs[1..])
    else [xs[0]] + Clean(xs[1..])
  }

  /** `PurePosixPath(s).parts` without the root. */
  function Parts(s: string): (r: seq<string>)
    ensures forall i :: 0 <= i < |r| ==> r[i] != "" && r[i] != "." && '/' !in r[i]
  {
    Clean(Split(s, '/'))
  }

  /** `PurePosixPath(s).is_absolute()`. */
  predicate IsAbsolute(s: string) {
    |s| > 0 && s[0] == '/'
  }

  function Parent(p: Segments): (r: Segments)
    ensures |p| > 0 ==> r == p[..|p| - 1]
    ensures |p| == 0 ==> r == []
  {
    if |p| == 0 then [] else p[..|p| - 1]
  }

  /** Lexical `resolve()`: `..` drops the last segment (and stays at `/`). */
  function Normalize(base: Segments, rel: seq<string>): (r: Segments)
    requires Resolved(base)
    requires forall i :: 0 <= i < |rel| ==> rel[i] != "" && '/' !in rel[i]
    ensures Resolved(r)
    decreases |rel|
  {
    if |rel| == 0 then base
    else if rel[0] == ".." then Normalize(Parent(base), rel[1..])
    else if rel[0] == "." then Normalize(base, rel[1..])
    else Normalize(base + [rel[0]], rel[1..])
  }

  /** Without `..`, resolution only descends: the base stays a prefix. */
  lemma {:induction false} NormalizeDescends(base: Segments, rel: seq<string>)
    requires Resolved(base)
    requires forall i :: 0 <= i < |rel| ==> rel[i] != "" && '/' !in rel[i] && rel[i] != ".."
    ensures |base| <= |Normalize(base, rel)| && Normalize(base, rel)[..|base|] == base
    decreases |rel|
  {
    if |rel| > 0 {
      if rel[0] == "." {
        NormalizeDescends(base, rel[1..]);
      } else {
        NormalizeDescends(base + [rel[0]], rel[1..]);
        assert (base + [rel[0]])[..|base|] == base;
      }
    }
  }

  /** `str(path)` of an absolute path. */
  function PathString(p: Segments): string {
    "/" + Join(p, "/")
  }

  /** A path below another one is below it as a string too. */
  lemma {:induction false} PathStringExtends(base: Segments, ext: Segments)
    ensures StartsWith(PathString(base + ext), PathString(base))
    decreases |ext|
  {
    if |ext| > 0 && |base| > 0 {
      var init := base + ext[..|ext| - 1];
      assert base + ext == init + [ext[|ext| - 1]];
      assert init == base + ext[..|ext| - 1];
      PathStringExtends(base, ext[..|ext| - 1]);
      JoinSnoc(init, ext[|ext| - 1], "/");
      assert PathString(base + ext) == PathString(init) + "/" + ext[|ext| - 1];
    } else if |ext| > 0 {
      assert base + ext == ext;
    } else {
      assert base + ext == base;
    }
  }

  predicate HasNul(p: seq<string>) {
    exists i :: 0 <= i < |p| && '\0' in p[i]
  }

  /** `os.path.expanduser` on the first component: `~` is the home directory,
      `~name` a user's home directory from `users`, and an unknown user is an error
      (`pathlib` raises RuntimeError). Other paths are unchanged. */
  function ExpandUser(parts: seq<string>, absolute: bool, home: Segments,
                      users: map<string, Segments>): (r: Option<(bool, seq<string>)>)
    ensures !absolute && |parts| > 0 && parts[0] == "~" ==> r == Some((true, home + parts[1..]))
    ensures absolute || |parts| == 0 || !StartsWith(parts[0], "~") ==> r == Some((absolute, parts))
  {
    if absolute || |parts| == 0 || !StartsWith(parts[0], "~") then Some((absolute, parts))
    else if parts[0] == "~" then Some((true, home + parts[1..]))
    else if parts[0][1..] in users then Some((true, users[parts[0][1..]] + parts[1..]))
    else None
  }

  /** Splitting a joined path gives back its segments. */
  lemma {:induction false} SplitJoin(p: Segments)
    requires |p| > 0 && forall i :: 0 <= i < |p| ==> '/' !in p[i]
    ensures Split(Join(p, "/"), '/') == p
  {
    if |p| == 1 {
      SplitNone(p[0], '/');
    } else {
      SplitJoin(p[1..]);
      assert Join(p, "/") == p[0] + ['/'] + Join(p[1..], "/");
      SplitAt(p[0], Join(p[1..], "/"), '/');
      assert p == [p[0]] + p[1..];
    }
  }

  lemma {:induction false} CleanResolved(p: Segments)
    requires Resolved(p)
    ensures Clean(p) == p
  {
    if |p| > 0 {
      CleanResolved(p[1..]);
      assert p == [p[0]] + p[1..];
    }
  }

  /** The string form of a resolved path parses back to the same segments. */
  lemma PartsOfPathString(p: Segments)
    requires Resolved(p)
    ensures Parts(PathString(p)) == p
  {
    if |p| == 0 {
      assert PathString(p) == "/";
      assert Split("/", '/') == ["", ""] by {
        assert "/" == "" + ['/'] + "";
        SplitAt("", "", '/');
        SplitNone("", '/');
      }
    } else {
      SplitJoin(p);
      assert PathString(p) == "" + ['/'] + Join(p, "/");
      SplitAt("", Join(p, "/"), '/');
      CleanResolved(p);
    }
  }

  /** Resolving proper names appends them. */
  lemma {:induction false} NormalizeProper(base: Segments, rel: Segments)
    requires Resolved(base) && Resolved(rel)
    ensures Normalize(base, rel) == base + rel
    decreases |rel|
  {
    if |rel| > 0 {
      NormalizeProper(base + [rel[0]], rel[1..]);
      assert base + [rel[0]] + rel[1..] == base + rel;
    }
  }

  /** A character of a split piece is a character of the string. */
  lemma {:induction false} SplitChars(s: string, c: char, d: char)
    ensures forall i :: 0 <= i < |Split(s, c)| && d in Split(s, c)[i] ==> d in s
    decreases |s|
  {
    match FindChar(s, c)
    case None =>
    case Some(k) =>
      SplitChars(s[k + 1..], c, d);
      var r := Split(s, c);
      forall i | 0 <= i < |r| && d in r[i] ensures d in s {
        if i == 0 {
          var j :| 0 <= j < |s[..k]| && s[..k][j] == d;
          assert s[j] == d;
        } else {
          assert r[i] == Split(s[k + 1..], c)[i - 1];
          var j :| 0 <= j < |s[k + 1..]| && s[k + 1..][j] == d;
          assert s[k + 1 + j] == d;
        }
      }
  }

  /** A character of a parsed component is a character of the path string. */
  lemma PartsChars(s: string, d: char)
    ensures forall i :: 0 <= i < |Parts(s)| && d in Parts(s)[i] ==> d in s
  {
    SplitChars(s, '/', d);
  }
}
