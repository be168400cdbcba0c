/** The part of `zotunzip`'s entry point that turns its two arguments into the
    directory to scan, the file-name prefix of the parts and the directory to
    extract into. The working directory and the home directories are parameters;
    argument parsing, logging and the exit status are not modelled. */
module CommandLine {
  import opened Strings
  import opened Paths

  /** Where the home directories come from: the working directory, `$HOME`, and
      each user's home directory, all absolute and resolved. */
  datatype Environment = Environment(cwd: Segments, home: Segments, users: map<string, Segments>)

  predicate WellFormed(env: Environment) {
    Resolved(env.cwd) && !HasNul(env.cwd)
    && Resolved(env.home) && !HasNul(env.home)
    && forall u :: u in env.users ==> Resolved(env.users[u]) && !HasNul(env.users[u])
  }

  /** `Path(s).expanduser()` as an absolute flag and its components; `None` when it
      names an unknown user. */
  function Expanded(s: string, env: Environment): (r: Option<(bool, seq<string>)>)
    requires WellFormed(env)
    ensures r.Some? ==> forall i :: 0 <= i < |r.value.1| ==> r.value.1[i] != "" && '/' !in r.value.1[i]
    ensures r.Some? ==> HasNul(r.value.1) ==> '\0' in s
    ensures r.None? ==> '~' in s
  {
    var parts := Parts(s);
    PartsChars(s, '\0');
    PartsChars(s, '~');
    var e := ExpandUser(parts, IsAbsolute(s), env.home, env.users);
    if e.None? then
      assert parts[0][0] == '~';
      None
    else
      var (absolute, ps) := e.value;
      assert forall i :: 0 <= i < |ps| ==> ps[i] != "" && '/' !in ps[i] by {
        if !(IsAbsolute(s) || |parts| == 0 || !StartsWith(parts[0], "~")) {
          if parts[0] == "~" {
            assert ps == env.home + parts[1..];
          } else {
            assert ps == env.users[parts[0][1..]] + parts[1..];
          }
        }
      }
      assert HasNul(ps) ==> '\0' in s by {
        if HasNul(ps) {
          var i :| 0 <= i < |ps| && '\0' in ps[i];
          if !(IsAbsolute(s) || |parts| == 0 || !StartsWith(parts[0], "~")) {
            if parts[0] == "~" {
              assert ps == env.home + parts[1..];
              assert ps[i] == parts[1..][i - |env.home|];
            } else {
              var h := env.users[parts[0][1..]];
              assert ps == h + parts[1..];
              assert ps[i] == parts[1..][i - |h|];
            }
          }
        }
      }
      Some((absolute, ps))
  }

  /** `Path(...).resolve()` of an expanded path: a relative path is taken from the
      working directory, and an embedded NUL raises. */
  function ResolveExpanded(absolute: bool, ps: seq<string>, env: Environment): (r: Option<Segments>)
    requires WellFormed(env)
    requires forall i :: 0 <= i < |ps| ==> ps[i] != "" && '/' !in ps[i]
  {
    if HasNul(ps) then None else Some(Normalize(if absolute then [] else env.cwd, ps))
  }

  /** The pattern-splitting branch of the entry point: a pattern that is absolute,
      has a `/` or starts with `~` is split into its parent directory, resolved,
      and its last name; any other pattern is a prefix in the working directory.
      `None` is the exception an unknown user or an embedded NUL raises. */
  function SplitPattern(pattern: string, env: Environment): (r: Option<(Segments, string)>)
    requires WellFormed(env)
    ensures r.Some? ==> Resolved(r.value.0) && '/' !in r.value.1
    ensures r.None? ==> '~' in pattern || '\0' in pattern
  {
    if !(IsAbsolute(pattern) || '/' in pattern || StartsWith(pattern, "~")) then
      Some((env.cwd, pattern))
    else match Expanded(pattern, env)
      case None => None
      case Some((absolute, ps)) =>
        var name := if |ps| == 0 then "" else ps[|ps| - 1];
        assert HasNul(Parent(ps)) ==> HasNul(ps);
        match ResolveExpanded(absolute, Parent(ps), env)
        case None => None
        case Some(dir) => Some((dir, name))
  }

  /** `args.output.expanduser().resolve()`. */
  function ResolveOutput(output: string, env: Environment): (r: Option<Segments>)
    requires WellFormed(env)
    ensures r.Some? ==> Resolved(r.value)
    ensures r.None? ==> '~' in output || '\0' in output
  {
    match Expanded(output, env)
    case None => None
    case Some((absolute, ps)) => ResolveExpanded(absolute, ps, env)
  }

  /** The full path of a part's prefix splits into its directory and the prefix. */
  lemma SplitFullPattern(env: Environment, dir: Segments, prefix: string)
    requires WellFormed(env)
    requires Resolved(dir) && !HasNul(dir)
    requires ProperName(prefix) && '\0' !in prefix
    ensures SplitPattern(PathString(dir + [prefix]), env) == Some((dir, prefix))
  {
    var p := dir + [prefix];
    var s := PathString(p);
    assert Resolved(p);
    PartsOfPathString(p);
    assert IsAbsolute(s);
    assert Parent(p) == dir;
    assert !HasNul(dir);
    NormalizeProper([], dir);
    assert [] + dir == dir;
  }

  /** `~/prefix` is the prefix in the home directory. */
  lemma SplitHomePattern(env: Environment, prefix: string)
    requires WellFormed(env)
    requires ProperName(prefix) && prefix != "~" && '\0' !in prefix
    ensures SplitPattern("~/" + prefix, env) == Some((env.home, prefix))
  {
    var s := "~/" + prefix;
    assert s == "~" + ['/'] + prefix;
    SplitNone(prefix, '/');
    SplitAt("~", prefix, '/');
    assert Split(s, '/') == ["~", prefix];
    assert Clean([prefix]) == [prefix];
    assert ["~", prefix][1..] == [prefix];
    assert Parts(s) == ["~", prefix];
    assert StartsWith(s, "~");
    assert Parent(env.home + [prefix]) == env.home;
    NormalizeProper([], env.home);
    assert [] + env.home == env.home;
  }

  /** `./prefix` is the prefix in the working directory, like a bare prefix. */
  lemma SplitDotPattern(env: Environment, prefix: string)
    requires WellFormed(env)
    requires ProperName(prefix) && prefix[0] != '~' && '\0' !in prefix
    ensures SplitPattern("./" + prefix, env) == Some((env.cwd, prefix))
    ensures SplitPattern(prefix, env) == Some((env.cwd, prefix))
  {
    var s := "./" + prefix;
    assert s == "." + ['/'] + prefix;
    SplitNone(prefix, '/');
    SplitAt(".", prefix, '/');
    assert Split(s, '/') == [".", prefix];
    assert Clean([prefix]) == [prefix];
    assert [".", prefix][1..] == [prefix];
    assert Parts(s) == [prefix];
    assert !StartsWith(s, "~") && !IsAbsolute(s);
    assert s[1] == '/';
    assert Parent([prefix]) == [];
    assert !StartsWith(prefix, "~");
  }

  /** A resolved absolute output directory resolves to itself. */
  lemma ResolveAbsoluteOutput(env: Environment, dir: Segments)
    requires WellFormed(env)
    requires Resolved(dir) && !HasNul(dir)
    ensures ResolveOutput(PathString(dir), env) == Some(dir)
  {
    PartsOfPathString(dir);
    assert IsAbsolute(PathString(dir));
    NormalizeProper([], dir);
    assert [] + dir == dir;
  }
}
