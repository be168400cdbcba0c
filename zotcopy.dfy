/** `zotcopy`: copying every attachment out of a Zotero storage tree into one
    flat directory, keeping only the newest file of each base name. The walk of
    the source tree, the modification times and the outcome of each copy are
    inputs; the copying itself is not modelled. */
module FileCopy {
  import opened Strings
  import opened Sorting

  /** The position of the last `c` in `s`. */
  function LastIndex(s: string, c: char): (r: Option<nat>)
    ensures r.None? <==> c !in s
    ensures r.Some? ==> r.value < |s| && s[r.value] == c && c !in s[r.value + 1..]
    decreases |s|
  {
    if |s| == 0 then None
    else if s[|s| - 1] == c then Some(|s| - 1)
    else
      var r := LastIndex(s[..|s| - 1], c);
      assert r.Some? ==> s[r.value + 1..] == s[..|s| - 1][r.value + 1..] + [s[|s| - 1]];
      assert r.None? ==> s == s[..|s| - 1] + [s[|s| - 1]];
      r
  }

  /** `os.path.splitext`: the extension starts at the last dot of the last path
      component, unless only dots come before it in that component. */
  function SplitExt(p: string): (r: (string, string))
    ensures r.0 + r.1 == p
    ensures r.1 == "" || (r.1[0] == '.' && '.' !in r.1[1..] && '/' !in r.1)
  {
    var dot := LastIndex(p, '.');
    var sep := LastIndex(p, '/');
    var start := if sep.Some? then sep.value + 1 else 0;
    if dot.Some? && start <= dot.value && exists i :: start <= i < dot.value && p[i] != '.' then
      assert p[..dot.value] + p[dot.value..] == p;
      assert p[dot.value..][1..] == p[dot.value + 1..];
      assert '/' !in p[dot.value..] by {
        if sep.Some? {
          assert p[dot.value..] == p[sep.value + 1..][dot.value - sep.value - 1..];
        }
      }
      (p[..dot.value], p[dot.value..])
    else (p, "")
  }

  /** Where the longest suffix of characters satisfying `inRun` starts. */
  function RunStart(s: string, inRun: char -> bool): (k: nat)
    ensures k <= |s|
    ensures forall i :: k <= i < |s| ==> inRun(s[i])
    ensures k > 0 ==> !inRun(s[k - 1])
    decreases |s|
  {
    if |s| == 0 || !inRun(s[|s| - 1]) then |s| else RunStart(s[..|s| - 1], inRun)
  }

  /** Removes a trailing run of digits together with the whitespace run before
      it, when there is such whitespace. */
  function DropNumber(s: string): (r: string)
    ensures StartsWith(s, r)
  {
    var d := RunStart(s, IsDigit);
    if d == |s| then s
    else
      var w := RunStart(s[..d], IsSpace);
      if w == d then s else s[..w]
  }

  /** `re.sub(r"\s+\d+$", "", s)`: `$` matches at the end and before a final
      newline, and the match starts at the leftmost whitespace of the run. */
  function StripCopyNumber(s: string): (r: string)
  {
    if |s| > 0 && s[|s| - 1] == '\n' then DropNumber(s[..|s| - 1]) + "\n" else DropNumber(s)
  }

  /** `extract_base_name`: the extension, then a trailing ` <digits>` copy number,
      are removed and the rest is lower-cased. */
  function BaseName(filename: string): (r: string)
    ensures forall i :: 0 <= i < |r| ==> !IsUpper(r[i])
  {
    Lower(StripCopyNumber(SplitExt(filename).0))
  }

  /** A name with an extension is split at its last dot. */
  lemma SplitExtAtDot(stem: string, e: string)
    requires '/' !in stem && '/' !in e && '.' !in e
    requires |stem| > 0 && stem[|stem| - 1] != '.'
    ensures SplitExt(stem + "." + e) == (stem, "." + e)
  {
    var p := stem + "." + e;
    assert p[|stem|] == '.';
    assert p[|stem| + 1..] == e;
    assert '/' !in p by {
      forall i | 0 <= i < |p| ensures p[i] != '/' {
        if i < |stem| { assert p[i] == stem[i]; }
        else if i > |stem| { assert p[i] == e[i - |stem| - 1]; }
      }
    }
    assert LastIndex(p, '.') == Some(|stem|);
    assert p[|stem| - 1] == stem[|stem| - 1];
    assert p[..|stem|] == stem && p[|stem|..] == "." + e;
  }

  /** The run start is the only position with its two properties. */
  lemma RunStartIs(s: string, inRun: char -> bool, k: nat)
    requires k <= |s| && forall i :: k <= i < |s| ==> inRun(s[i])
    requires k > 0 ==> !inRun(s[k - 1])
    ensures RunStart(s, inRun) == k
  {
    var r := RunStart(s, inRun);
    assert k > 0 ==> !inRun(s[k - 1]);
    assert r > 0 ==> !inRun(s[r - 1]);
  }

  /** A name ending in neither whitespace nor a digit has no copy number. */
  lemma NoCopyNumber(name: string)
    requires |name| > 0 && !IsSpace(name[|name| - 1]) && !IsDigit(name[|name| - 1])
    ensures StripCopyNumber(name) == name
  {
    RunStartIs(name, IsDigit, |name|);
  }

  /** ` <digits>` after such a name is removed. */
  lemma {:induction false} DropsCopyNumber(name: string, n: string)
    requires |name| > 0 && !IsSpace(name[|name| - 1]) && !IsDigit(name[|name| - 1])
    requires |n| > 0 && forall i :: 0 <= i < |n| ==> IsDigit(n[i])
    ensures StripCopyNumber(name + " " + n) == name
  {
    var copy := name + " " + n;
    assert copy[|copy| - 1] == n[|n| - 1];
    assert copy[|name|] == ' ';
    assert forall i :: |name| + 1 <= i < |copy| ==> copy[i] == n[i - |name| - 1];
    RunStartIs(copy, IsDigit, |name| + 1);
    var front := copy[..|name| + 1];
    assert front == name + " ";
    assert front[|name| - 1] == name[|name| - 1];
    RunStartIs(front, IsSpace, |name|);
    assert copy[..|name|] == name;
  }

  /** `name.ext`, `name 1.ext` and `name 123.ext` all have the base name `name`,
      lower-cased, when `name` ends in a character that is neither whitespace, a
      digit nor a dot. */
  lemma CopiesShareBaseName(name: string, n: string, e: string)
    requires |name| > 0 && '/' !in name
    requires var c := name[|name| - 1]; !IsSpace(c) && !IsDigit(c) && c != '.'
    requires |n| > 0 && forall i :: 0 <= i < |n| ==> IsDigit(n[i])
    requires '/' !in e && '.' !in e
    ensures BaseName(name + "." + e) == Lower(name)
    ensures BaseName(name + " " + n + "." + e) == Lower(name)
  {
    SplitExtAtDot(name, e);
    NoCopyNumber(name);
    var copy := name + " " + n;
    assert '/' !in copy by {
      forall i | 0 <= i < |copy| ensures copy[i] != '/' {
        if i < |name| { assert copy[i] == name[i]; }
        else if i > |name| { assert copy[i] == n[i - |name| - 1]; }
      }
    }
    assert copy[|copy| - 1] == n[|n| - 1];
    SplitExtAtDot(copy, e);
    DropsCopyNumber(name, n);
  }

  /** A file the walk found: its name, its path and its modification time. */
  datatype FileRecord = FileRecord(name: string, path: string, mtime: int)

  /** An older file with a kept file's base name: its path and modification time. */
  datatype Sighting = Sighting(path: string, mtime: int)

  /** The extension filter: `.*` accepts every name. */
  predicate Accepts(extension: string, name: string) {
    extension == ".*" || EndsWith(name, extension)
  }

  /** The files the walk visits that pass the filter, in walk order. */
  function Candidates(walked: seq<FileRecord>, extension: string): (r: seq<FileRecord>)
    ensures forall f :: f in r <==> f in walked && Accepts(extension, f.name)
    ensures extension == ".*" ==> r == walked
    decreases |walked|
  {
    if |walked| == 0 then []
    else
      var init := walked[..|walked| - 1];
      var f := walked[|walked| - 1];
      assert walked == init + [f];
      Candidates(init, extension) + (if Accepts(extension, f.name) then [f] else [])
  }

  /** The collecting loop of `copy_files`. */
  method CollectFiles(walked: seq<FileRecord>, extension: string) returns (allFiles: seq<FileRecord>)
    ensures allFiles == Candidates(walked, extension)
  {
    allFiles := [];
    var i := 0;
    while i < |walked|
      invariant 0 <= i <= |walked|
      invariant allFiles == Candidates(walked[..i], extension)
    {
      var f := walked[i];
      assert walked[..i + 1] == walked[..i] + [f];
      if extension == ".*" || EndsWith(f.name, extension) {
        allFiles := allFiles + [f];
      }
      i := i + 1;
    }
    assert walked[..i] == walked;
  }

  /** The sort key of `sort(key=mtime, reverse=True)`. */
  function NewestFirst(f: FileRecord): int {
    -f.mtime
  }

  function NewerSighting(x: Sighting): int {
    -x.mtime
  }

  /** The state of the de-duplication loop: `files_to_copy`, `seen_base_names`
      and `duplicates`. */
  datatype Dedupe = Dedupe(kept: seq<FileRecord>, seen: map<string, FileRecord>,
                           duplicates: map<string, seq<Sighting>>)

  /** One iteration: a file whose base name was seen is recorded under the name of
      the file kept for it; any other file is kept. */
  function Step(d: Dedupe, f: FileRecord, baseOf: string -> string): Dedupe {
    var b := baseOf(f.name);
    if b in d.seen then
      var original := d.seen[b].name;
      var earlier := if original in d.duplicates then d.duplicates[original] else [];
      d.(duplicates := d.duplicates[original := earlier + [Sighting(f.path, f.mtime)]])
    else
      Dedupe(d.kept + [f], d.seen[b := f], d.duplicates)
  }

  function Dedup(s: seq<FileRecord>, baseOf: string -> string): Dedupe
    decreases |s|
  {
    if |s| == 0 then Dedupe([], map[], map[]) else Step(Dedup(s[..|s| - 1], baseOf), s[|s| - 1], baseOf)
  }

  /** One iteration of the de-duplication loop. */
  method RecordFile(f: FileRecord, filesToCopy: seq<FileRecord>, seenBaseNames: map<string, FileRecord>,
                    duplicates: map<string, seq<Sighting>>)
    returns (filesToCopy': seq<FileRecord>, seenBaseNames': map<string, FileRecord>,
             duplicates': map<string, seq<Sighting>>)
    ensures Dedupe(filesToCopy', seenBaseNames', duplicates')
         == Step(Dedupe(filesToCopy, seenBaseNames, duplicates), f, BaseName)
  {
    filesToCopy', seenBaseNames', duplicates' := filesToCopy, seenBaseNames, duplicates;
    var baseName := BaseName(f.name);
    if baseName in seenBaseNames' {
      var original := seenBaseNames'[baseName].name;
      if original !in duplicates' {
        duplicates' := duplicates'[original := []];
      }
      duplicates' := duplicates'[original := duplicates'[original] + [Sighting(f.path, f.mtime)]];
    } else {
      seenBaseNames' := seenBaseNames'[baseName := f];
      filesToCopy' := filesToCopy' + [f];
    }
  }

  /** The de-duplication loop of `copy_files`. */
  method DedupFiles(sorted: seq<FileRecord>)
    returns (filesToCopy: seq<FileRecord>, seenBaseNames: map<string, FileRecord>,
             duplicates: map<string, seq<Sighting>>)
    ensures Dedupe(filesToCopy, seenBaseNames, duplicates) == Dedup(sorted, BaseName)
  {
    filesToCopy, seenBaseNames, duplicates := [], map[], map[];
    var i := 0;
    assert sorted[..i] == [];
    while i < |sorted|
      invariant 0 <= i <= |sorted|
      invariant Dedupe(filesToCopy, seenBaseNames, duplicates) == Dedup(sorted[..i], BaseName)
    {
      assert sorted[..i + 1][..i] == sorted[..i];
      filesToCopy, seenBaseNames, duplicates := RecordFile(sorted[i], filesToCopy, seenBaseNames, duplicates);
      i := i + 1;
    }
    assert sorted[..i] == sorted;
  }

  /** No earlier file has the base name of the file at `i`. */
  ghost predicate IsFirst(s: seq<FileRecord>, i: int, baseOf: string -> string)
    requires 0 <= i < |s|
  {
    forall j :: 0 <= j < i ==> baseOf(s[j].name) != baseOf(s[i].name)
  }

  ghost predicate HasBase(s: seq<FileRecord>, b: string, baseOf: string -> string) {
    exists i :: 0 <= i < |s| && baseOf(s[i].name) == b
  }

  /** The first file of each base name, in order. */
  ghost function Firsts(s: seq<FileRecord>, baseOf: string -> string): seq<FileRecord>
    decreases |s|
  {
    if |s| == 0 then []
    else Firsts(s[..|s| - 1], baseOf) + (if IsFirst(s, |s| - 1, baseOf) then [s[|s| - 1]] else [])
  }

  /** The files after the first with base name `b`, in order. */
  ghost function Later(s: seq<FileRecord>, b: string, baseOf: string -> string): seq<Sighting>
    decreases |s|
  {
    if |s| == 0 then []
    else
      var f := s[|s| - 1];
      Later(s[..|s| - 1], b, baseOf)
      + (if baseOf(f.name) == b && !IsFirst(s, |s| - 1, baseOf) then [Sighting(f.path, f.mtime)] else [])
  }

  /** `files_to_copy` is the first file of each base name, each recorded in
      `seen_base_names`. */
  ghost predicate KeptOk(s: seq<FileRecord>, d: Dedupe, baseOf: string -> string) {
    && d.kept == Firsts(s, baseOf)
    && (forall i :: 0 <= i < |d.kept| ==> baseOf(d.kept[i].name) in d.seen)
    && (forall i, j :: 0 <= i < j < |d.kept| ==> baseOf(d.kept[i].name) != baseOf(d.kept[j].name))
  }

  /** `seen_base_names` maps each base name met so far to its kept file. */
  ghost predicate SeenOk(s: seq<FileRecord>, d: Dedupe, baseOf: string -> string) {
    && (forall b :: b in d.seen <==> HasBase(s, b, baseOf))
    && (forall b :: b in d.seen ==> baseOf(d.seen[b].name) == b && d.seen[b] in d.kept)
  }

  /** `duplicates` lists, under a kept file's name, the later files of its base name. */
  ghost predicate DuplicatesOk(s: seq<FileRecord>, d: Dedupe, baseOf: string -> string) {
    && (forall n :: n in d.duplicates ==>
          baseOf(n) in d.seen && d.seen[baseOf(n)].name == n && d.duplicates[n] == Later(s, baseOf(n), baseOf))
    && (forall b :: b in d.seen && |Later(s, b, baseOf)| > 0 ==> d.seen[b].name in d.duplicates)
  }

  /** What the de-duplication state says about the files seen so far. */
  ghost predicate Describes(s: seq<FileRecord>, d: Dedupe, baseOf: string -> string) {
    KeptOk(s, d, baseOf) && SeenOk(s, d, baseOf) && DuplicatesOk(s, d, baseOf)
  }

  /** Every later sighting of `b` is a file of `s` with that base name. */
  lemma {:induction false} LaterFrom(s: seq<FileRecord>, b: string, baseOf: string -> string)
    ensures forall y :: y in Later(s, b, baseOf) ==>
              exists i :: 0 <= i < |s| && baseOf(s[i].name) == b && y == Sighting(s[i].path, s[i].mtime)
    ensures |Later(s, b, baseOf)| > 0 ==> HasBase(s, b, baseOf)
    decreases |s|
  {
    if |s| > 0 {
      var init := s[..|s| - 1];
      LaterFrom(init, b, baseOf);
      assert forall i :: 0 <= i < |init| ==> s[i] == init[i];
    }
  }

  /** A file is first of its base name exactly when no earlier file has it. */
  lemma FirstAtEnd(s: seq<FileRecord>, f: FileRecord, baseOf: string -> string)
    ensures IsFirst(s + [f], |s|, baseOf) <==> !HasBase(s, baseOf(f.name), baseOf)
  {
    var s' := s + [f];
    assert forall i :: 0 <= i < |s| ==> s'[i] == s[i];
  }

  lemma HasBaseExtend(s: seq<FileRecord>, f: FileRecord, baseOf: string -> string)
    ensures forall c :: HasBase(s + [f], c, baseOf) <==> HasBase(s, c, baseOf) || c == baseOf(f.name)
  {
    var s' := s + [f];
    assert forall i :: 0 <= i < |s| ==> s'[i] == s[i];
    assert s'[|s|] == f;
  }

  /** How the first files and the later sightings grow by one file. */
  lemma ExtendFacts(s: seq<FileRecord>, f: FileRecord, baseOf: string -> string)
    ensures var s', b := s + [f], baseOf(f.name);
            && Firsts(s', baseOf) == Firsts(s, baseOf) + (if HasBase(s, b, baseOf) then [] else [f])
            && (forall c :: c != b ==> Later(s', c, baseOf) == Later(s, c, baseOf))
            && Later(s', b, baseOf)
               == Later(s, b, baseOf) + (if HasBase(s, b, baseOf) then [Sighting(f.path, f.mtime)] else [])
  {
    var s' := s + [f];
    assert s'[..|s|] == s;
    FirstAtEnd(s, f, baseOf);
  }

  lemma StepDuplicate(s: seq<FileRecord>, f: FileRecord, d: Dedupe, baseOf: string -> string)
    requires Describes(s, d, baseOf) && baseOf(f.name) in d.seen
    ensures Describes(s + [f], Step(d, f, baseOf), baseOf)
  {
    var s', b := s + [f], baseOf(f.name);
    var d' := Step(d, f, baseOf);
    var original := d.seen[b].name;
    var x := Sighting(f.path, f.mtime);
    ExtendFacts(s, f, baseOf);
    HasBaseExtend(s, f, baseOf);
    assert HasBase(s, b, baseOf);
    assert d'.kept == d.kept && d'.seen == d.seen;
    assert d'.duplicates == d.duplicates[original := (if original in d.duplicates then d.duplicates[original] else []) + [x]];
    assert baseOf(original) == b;
    assert original !in d.duplicates ==> Later(s, b, baseOf) == [];
    forall n | n in d'.duplicates
      ensures baseOf(n) in d'.seen && d'.seen[baseOf(n)].name == n
              && d'.duplicates[n] == Later(s', baseOf(n), baseOf)
    {
      if n == original {
        assert d'.duplicates[n] == Later(s, b, baseOf) + [x];
      } else {
        assert baseOf(n) != b;
      }
    }
    forall c | c in d'.seen && |Later(s', c, baseOf)| > 0
      ensures d'.seen[c].name in d'.duplicates
    {
      if c != b {
        assert Later(s', c, baseOf) == Later(s, c, baseOf);
      }
    }
  }

  lemma StepNew(s: seq<FileRecord>, f: FileRecord, d: Dedupe, baseOf: string -> string)
    requires Describes(s, d, baseOf) && baseOf(f.name) !in d.seen
    ensures Describes(s + [f], Step(d, f, baseOf), baseOf)
  {
    StepNewKept(s, f, d, baseOf);
    StepNewSeen(s, f, d, baseOf);
    StepNewDuplicates(s, f, d, baseOf);
  }

  lemma StepNewKept(s: seq<FileRecord>, f: FileRecord, d: Dedupe, baseOf: string -> string)
    requires Describes(s, d, baseOf) && baseOf(f.name) !in d.seen
    ensures KeptOk(s + [f], Step(d, f, baseOf), baseOf)
  {
    var s', b := s + [f], baseOf(f.name);
    var d' := Step(d, f, baseOf);
    ExtendFacts(s, f, baseOf);
    assert !HasBase(s, b, baseOf);
    assert d' == Dedupe(d.kept + [f], d.seen[b := f], d.duplicates);
    forall i, j | 0 <= i < j < |d'.kept|
      ensures baseOf(d'.kept[i].name) != baseOf(d'.kept[j].name)
    {
      if j == |d.kept| {
        assert baseOf(d.kept[i].name) in d.seen;
      }
    }
  }

  lemma StepNewSeen(s: seq<FileRecord>, f: FileRecord, d: Dedupe, baseOf: string -> string)
    requires Describes(s, d, baseOf) && baseOf(f.name) !in d.seen
    ensures SeenOk(s + [f], Step(d, f, baseOf), baseOf)
  {
    var b := baseOf(f.name);
    var d' := Step(d, f, baseOf);
    HasBaseExtend(s, f, baseOf);
    assert d' == Dedupe(d.kept + [f], d.seen[b := f], d.duplicates);
    forall c | c in d'.seen
      ensures baseOf(d'.seen[c].name) == c && d'.seen[c] in d'.kept
    {
      if c != b {
        assert d'.seen[c] == d.seen[c];
      }
    }
  }

  lemma StepNewDuplicates(s: seq<FileRecord>, f: FileRecord, d: Dedupe, baseOf: string -> string)
    requires Describes(s, d, baseOf) && baseOf(f.name) !in d.seen
    ensures DuplicatesOk(s + [f], Step(d, f, baseOf), baseOf)
  {
    var s', b := s + [f], baseOf(f.name);
    var d' := Step(d, f, baseOf);
    ExtendFacts(s, f, baseOf);
    LaterFrom(s, b, baseOf);
    assert d' == Dedupe(d.kept + [f], d.seen[b := f], d.duplicates);
    forall n | n in d'.duplicates
      ensures baseOf(n) in d'.seen && d'.seen[baseOf(n)].name == n
              && d'.duplicates[n] == Later(s', baseOf(n), baseOf)
    {
      assert baseOf(n) != b;
    }
    forall c | c in d'.seen && |Later(s', c, baseOf)| > 0
      ensures d'.seen[c].name in d'.duplicates
    {
      assert c != b;
      assert Later(s', c, baseOf) == Later(s, c, baseOf);
    }
  }

  /** One loop iteration keeps the description true. */
  lemma DescribesStep(s: seq<FileRecord>, f: FileRecord, d: Dedupe, baseOf: string -> string)
    requires Describes(s, d, baseOf)
    ensures Describes(s + [f], Step(d, f, baseOf), baseOf)
  {
    if baseOf(f.name) in d.seen {
      StepDuplicate(s, f, d, baseOf);
    } else {
      StepNew(s, f, d, baseOf);
    }
  }

  lemma {:induction false} DedupDescribes(s: seq<FileRecord>, baseOf: string -> string)
    ensures Describes(s, Dedup(s, baseOf), baseOf)
    decreases |s|
  {
    if |s| > 0 {
      var init := s[..|s| - 1];
      DedupDescribes(init, baseOf);
      DescribesStep(init, s[|s| - 1], Dedup(init, baseOf), baseOf);
      assert init + [s[|s| - 1]] == s;
    }
  }

  lemma FirstsPrefix(s: seq<FileRecord>, baseOf: string -> string)
    requires |s| > 0
    ensures forall i :: 0 <= i < |s| - 1 ==> (IsFirst(s, i, baseOf) <==> IsFirst(s[..|s| - 1], i, baseOf))
  {
    var init := s[..|s| - 1];
    assert forall i :: 0 <= i < |init| ==> s[i] == init[i];
  }

  /** Every first file is the first of its base name. */
  lemma {:induction false} FirstsAreFirst(s: seq<FileRecord>, baseOf: string -> string)
    ensures forall j :: 0 <= j < |Firsts(s, baseOf)| ==>
              exists i :: 0 <= i < |s| && Firsts(s, baseOf)[j] == s[i] && IsFirst(s, i, baseOf)
    decreases |s|
  {
    if |s| > 0 {
      var init := s[..|s| - 1];
      FirstsAreFirst(init, baseOf);
      FirstsPrefix(s, baseOf);
      var fs := Firsts(s, baseOf);
      assert fs == Firsts(init, baseOf) + (if IsFirst(s, |s| - 1, baseOf) then [s[|s| - 1]] else []);
      forall j | 0 <= j < |fs| ensures exists i :: 0 <= i < |s| && fs[j] == s[i] && IsFirst(s, i, baseOf) {
        if j < |Firsts(init, baseOf)| {
          var i :| 0 <= i < |init| && Firsts(init, baseOf)[j] == init[i] && IsFirst(init, i, baseOf);
          assert fs[j] == s[i];
        } else {
          assert IsFirst(s, |s| - 1, baseOf) && fs[j] == s[|s| - 1];
        }
      }
    } else {
      assert |Firsts(s, baseOf)| == 0;
    }
  }

  /** Every file no earlier file shares a base name with is a first file. */
  lemma {:induction false} FirstsHoldFirst(s: seq<FileRecord>, baseOf: string -> string)
    ensures forall i :: 0 <= i < |s| && IsFirst(s, i, baseOf) ==> s[i] in Firsts(s, baseOf)
    decreases |s|
  {
    if |s| > 0 {
      var init := s[..|s| - 1];
      FirstsHoldFirst(init, baseOf);
      FirstsPrefix(s, baseOf);
      assert forall i :: 0 <= i < |init| ==> s[i] == init[i];
    }
  }

  ghost predicate DistinctBases(kept: seq<FileRecord>, baseOf: string -> string) {
    forall i, j :: 0 <= i < j < |kept| ==> baseOf(kept[i].name) != baseOf(kept[j].name)
  }

  /** Every base name among the files is the base name of a kept file. */
  ghost predicate CoversBases(s: seq<FileRecord>, kept: seq<FileRecord>, baseOf: string -> string) {
    forall i :: 0 <= i < |s| ==> exists j :: 0 <= j < |kept| && baseOf(kept[j].name) == baseOf(s[i].name)
  }

  /** Every kept file is the first file of its base name. */
  ghost predicate AllFirst(s: seq<FileRecord>, kept: seq<FileRecord>, baseOf: string -> string) {
    forall j :: 0 <= j < |kept| ==> exists i :: 0 <= i < |s| && kept[j] == s[i] && IsFirst(s, i, baseOf)
  }

  lemma KeptCovers(s: seq<FileRecord>, baseOf: string -> string)
    ensures CoversBases(s, Dedup(s, baseOf).kept, baseOf)
  {
    var d := Dedup(s, baseOf);
    DedupDescribes(s, baseOf);
    forall i | 0 <= i < |s|
      ensures exists j :: 0 <= j < |d.kept| && baseOf(d.kept[j].name) == baseOf(s[i].name)
    {
      var b := baseOf(s[i].name);
      assert HasBase(s, b, baseOf);
      assert b in d.seen && d.seen[b] in d.kept;
      var j :| 0 <= j < |d.kept| && d.kept[j] == d.seen[b];
    }
  }

  /** `files_to_copy` holds one file per base name: the first, in the sorted
      order, of the files sharing it. */
  lemma OnePerBaseName(s: seq<FileRecord>, baseOf: string -> string)
    ensures DistinctBases(Dedup(s, baseOf).kept, baseOf)
    ensures CoversBases(s, Dedup(s, baseOf).kept, baseOf)
    ensures AllFirst(s, Dedup(s, baseOf).kept, baseOf)
  {
    KeptCovers(s, baseOf);
    DedupDescribes(s, baseOf);
    FirstsAreFirst(s, baseOf);
  }

  /** `duplicates` is keyed by the names of kept files, and each list holds, in
      order, every later file with that kept file's base name; a kept file with
      such later files has a list. */
  lemma DuplicatesAreLater(s: seq<FileRecord>, baseOf: string -> string)
    ensures var d := Dedup(s, baseOf);
            && (forall n :: n in d.duplicates ==>
                  (exists j :: 0 <= j < |d.kept| && d.kept[j].name == n)
                  && d.duplicates[n] == Later(s, baseOf(n), baseOf) && |d.duplicates[n]| > 0)
            && (forall j :: 0 <= j < |d.kept| && |Later(s, baseOf(d.kept[j].name), baseOf)| > 0 ==>
                  d.kept[j].name in d.duplicates)
  {
    DuplicatesOfKept(s, baseOf);
    KeptWithLaterListed(s, baseOf);
  }

  lemma DuplicatesOfKept(s: seq<FileRecord>, baseOf: string -> string)
    ensures var d := Dedup(s, baseOf);
            forall n :: n in d.duplicates ==>
              (exists j :: 0 <= j < |d.kept| && d.kept[j].name == n)
              && d.duplicates[n] == Later(s, baseOf(n), baseOf) && |d.duplicates[n]| > 0
  {
    var d := Dedup(s, baseOf);
    DedupDescribes(s, baseOf);
    forall n | n in d.duplicates
      ensures (exists j :: 0 <= j < |d.kept| && d.kept[j].name == n) && |d.duplicates[n]| > 0
    {
      var j :| 0 <= j < |d.kept| && d.kept[j] == d.seen[baseOf(n)];
      DedupNonEmpty(s, baseOf, n);
    }
  }

  lemma KeptWithLaterListed(s: seq<FileRecord>, baseOf: string -> string)
    ensures var d := Dedup(s, baseOf);
            forall j :: 0 <= j < |d.kept| && |Later(s, baseOf(d.kept[j].name), baseOf)| > 0 ==>
              d.kept[j].name in d.duplicates
  {
    var d := Dedup(s, baseOf);
    forall j | 0 <= j < |d.kept| && |Later(s, baseOf(d.kept[j].name), baseOf)| > 0
      ensures d.kept[j].name in d.duplicates
    {
      KeptIsSeen(s, baseOf, j);
    }
  }

  /** A kept file is the one recorded for its base name. */
  lemma KeptIsSeen(s: seq<FileRecord>, baseOf: string -> string, j: int)
    requires 0 <= j < |Dedup(s, baseOf).kept|
    ensures var d, b := Dedup(s, baseOf), baseOf(Dedup(s, baseOf).kept[j].name);
            && b in d.seen && d.seen[b] == d.kept[j]
            && (|Later(s, b, baseOf)| > 0 ==> d.seen[b].name in d.duplicates)
  {
    var d := Dedup(s, baseOf);
    DedupDescribes(s, baseOf);
    var b := baseOf(d.kept[j].name);
    assert KeptOk(s, d, baseOf) && SeenOk(s, d, baseOf);
    assert b in d.seen;
    assert d.seen[b] in d.kept && baseOf(d.seen[b].name) == b;
    var k :| 0 <= k < |d.kept| && d.kept[k] == d.seen[b];
    assert k == j;
  }

  /** A duplicates list is never empty. */
  lemma {:induction false} DedupNonEmpty(s: seq<FileRecord>, baseOf: string -> string, n: string)
    ensures n in Dedup(s, baseOf).duplicates ==> |Dedup(s, baseOf).duplicates[n]| > 0
    decreases |s|
  {
    if |s| > 0 {
      DedupNonEmpty(s[..|s| - 1], baseOf, n);
    }
  }

  /** The length of every duplicates list, summed over the kept files; since
      every key of `duplicates` is a kept file's name, this is the sum over all
      the lists. */
  function DuplicateCount(kept: seq<FileRecord>, duplicates: map<string, seq<Sighting>>): nat
    decreases |kept|
  {
    if |kept| == 0 then 0
    else
      var f := kept[|kept| - 1];
      DuplicateCount(kept[..|kept| - 1], duplicates) + (if f.name in duplicates then |duplicates[f.name]| else 0)
  }

  lemma {:induction false} CountUnchanged(kept: seq<FileRecord>, duplicates: map<string, seq<Sighting>>,
                                          n: string, v: seq<Sighting>)
    requires forall j :: 0 <= j < |kept| ==> kept[j].name != n
    ensures DuplicateCount(kept, duplicates[n := v]) == DuplicateCount(kept, duplicates)
    decreases |kept|
  {
    if |kept| > 0 {
      CountUnchanged(kept[..|kept| - 1], duplicates, n, v);
    }
  }

  /** One more sighting under the name of exactly one kept file adds one. */
  lemma {:induction false} CountBump(kept: seq<FileRecord>, duplicates: map<string, seq<Sighting>>,
                                     n: string, v: seq<Sighting>)
    requires forall i, j :: 0 <= i < j < |kept| ==> kept[i].name != kept[j].name
    requires exists j :: 0 <= j < |kept| && kept[j].name == n
    requires |v| == (if n in duplicates then |duplicates[n]| else 0) + 1
    ensures DuplicateCount(kept, duplicates[n := v]) == DuplicateCount(kept, duplicates) + 1
    decreases |kept|
  {
    var init := kept[..|kept| - 1];
    if kept[|kept| - 1].name == n {
      CountUnchanged(init, duplicates, n, v);
    } else {
      var j :| 0 <= j < |kept| && kept[j].name == n;
      assert init[j].name == n;
      CountBump(init, duplicates, n, v);
    }
  }

  /** Every file is either kept or counted once as a duplicate:
      `|files_to_copy| + total duplicates == |all_files|`. */
  lemma {:induction false} DedupCount(s: seq<FileRecord>, baseOf: string -> string)
    ensures var d := Dedup(s, baseOf);
            |d.kept| + DuplicateCount(d.kept, d.duplicates) == |s|
    decreases |s|
  {
    if |s| > 0 {
      var init, f := s[..|s| - 1], s[|s| - 1];
      var d := Dedup(init, baseOf);
      var b := baseOf(f.name);
      DedupCount(init, baseOf);
      DedupDescribes(init, baseOf);
      if b in d.seen {
        var original := d.seen[b].name;
        var j :| 0 <= j < |d.kept| && d.kept[j] == d.seen[b];
        forall i, k | 0 <= i < k < |d.kept| ensures d.kept[i].name != d.kept[k].name {
          assert baseOf(d.kept[i].name) != baseOf(d.kept[k].name);
        }
        CountBump(d.kept, d.duplicates, original,
                  (if original in d.duplicates then d.duplicates[original] else []) + [Sighting(f.path, f.mtime)]);
      } else {
        assert f.name !in d.duplicates;
        assert (d.kept + [f])[..|d.kept|] == d.kept;
      }
    }
  }

  /** Later files come later in the sorted order, so every duplicates list is
      already newest first. */
  lemma {:induction false} LaterSorted(s: seq<FileRecord>, b: string, baseOf: string -> string)
    requires SortedBy(s, NewestFirst)
    ensures SortedBy(Later(s, b, baseOf), NewerSighting)
    decreases |s|
  {
    if |s| > 0 {
      var init, f := s[..|s| - 1], s[|s| - 1];
      LaterSorted(init, b, baseOf);
      LaterFrom(init, b, baseOf);
      var l := Later(init, b, baseOf);
      forall k | 0 <= k < |l| ensures l[k].mtime >= f.mtime {
        assert l[k] in l;
        var i :| 0 <= i < |init| && baseOf(init[i].name) == b && l[k] == Sighting(init[i].path, init[i].mtime);
        assert s[i] == init[i];
      }
    }
  }

  /** The re-sort of each duplicates list leaves it as it was. */
  lemma DuplicatesAlreadySorted(s: seq<FileRecord>, baseOf: string -> string)
    requires SortedBy(s, NewestFirst)
    ensures var d := Dedup(s, baseOf);
            forall n :: n in d.duplicates ==> SortBy(d.duplicates[n], NewerSighting) == d.duplicates[n]
  {
    var d := Dedup(s, baseOf);
    DedupDescribes(s, baseOf);
    forall n | n in d.duplicates ensures SortBy(d.duplicates[n], NewerSighting) == d.duplicates[n] {
      LaterSorted(s, baseOf(n), baseOf);
      SortBySorted(d.duplicates[n], NewerSighting);
    }
  }

  /** The loop that sorts every duplicates list newest first. */
  method SortDuplicates(duplicates: map<string, seq<Sighting>>) returns (sorted: map<string, seq<Sighting>>)
    ensures sorted.Keys == duplicates.Keys
    ensures forall n :: n in sorted ==> sorted[n] == SortBy(duplicates[n], NewerSighting)
  {
    sorted := duplicates;
    var pending := duplicates.Keys;
    while pending != {}
      invariant pending <= duplicates.Keys && sorted.Keys == duplicates.Keys
      invariant forall n :: n in sorted ==>
                  sorted[n] == if n in pending then duplicates[n] else SortBy(duplicates[n], NewerSighting)
      decreases |pending|
    {
      var n :| n in pending;
      sorted := sorted[n := SortBy(sorted[n], NewerSighting)];
      pending := pending - {n};
    }
  }

  /** The names the copy loop reports as copied, in order: every kept file the
      copy oracle does not fail. */
  function Copied(files: seq<FileRecord>, failures: map<string, string>): seq<string>
    decreases |files|
  {
    if |files| == 0 then []
    else
      var f := files[|files| - 1];
      Copied(files[..|files| - 1], failures) + (if f.path in failures then [] else [f.name])
  }

  /** The files the copy loop reports as skipped, with the reason, in order. */
  function Skipped(files: seq<FileRecord>, failures: map<string, string>): seq<(string, string)>
    decreases |files|
  {
    if |files| == 0 then []
    else
      var f := files[|files| - 1];
      Skipped(files[..|files| - 1], failures) + (if f.path in failures then [(f.path, failures[f.path])] else [])
  }

  /** Each file to copy ends up in exactly one of the two lists. */
  lemma {:induction false} CopyPartition(files: seq<FileRecord>, failures: map<string, string>)
    ensures |Copied(files, failures)| + |Skipped(files, failures)| == |files|
    ensures forall i :: 0 <= i < |files| && files[i].path !in failures ==> files[i].name in Copied(files, failures)
    ensures forall i :: 0 <= i < |files| && files[i].path in failures ==>
              (files[i].path, failures[files[i].path]) in Skipped(files, failures)
    ensures forall x :: x in Skipped(files, failures) ==> x.0 in failures && x.1 == failures[x.0]
    decreases |files|
  {
    if |files| > 0 {
      var init := files[..|files| - 1];
      CopyPartition(init, failures);
      assert forall i :: 0 <= i < |init| ==> files[i] == init[i];
    }
  }

  /** The copy loop of `copy_files`: `failures` maps a source path to the reason
      its copy raised or timed out; every other copy succeeds and reports the
      file name. */
  method CopyAll(files: seq<FileRecord>, failures: map<string, string>)
    returns (copied: seq<string>, skipped: seq<(string, string)>)
    ensures copied == Copied(files, failures) && skipped == Skipped(files, failures)
  {
    copied, skipped := [], [];
    var i := 0;
    while i < |files|
      invariant 0 <= i <= |files|
      invariant copied == Copied(files[..i], failures) && skipped == Skipped(files[..i], failures)
    {
      assert files[..i + 1][..i] == files[..i];
      var f := files[i];
      if f.path in failures {
        skipped := skipped + [(f.path, failures[f.path])];
      } else {
        copied := copied + [f.name];
      }
      i := i + 1;
    }
    assert files[..i] == files;
  }

  /** `copy_files` from the walk on: collect, sort newest first, de-duplicate,
      sort the duplicates lists, copy. */
  method CopyFiles(walked: seq<FileRecord>, extension: string, failures: map<string, string>)
    returns (copied: seq<string>, duplicates: map<string, seq<Sighting>>, skipped: seq<(string, string)>)
    ensures var d := Dedup(SortBy(Candidates(walked, extension), NewestFirst), BaseName);
            && duplicates == d.duplicates
            && copied == Copied(d.kept, failures)
            && skipped == Skipped(d.kept, failures)
  {
    var allFiles := CollectFiles(walked, extension);
    allFiles := SortBy(allFiles, NewestFirst);
    SortByFacts(Candidates(walked, extension), NewestFirst);
    var filesToCopy, seenBaseNames, found := DedupFiles(allFiles);
    DuplicatesAlreadySorted(allFiles, BaseName);
    duplicates := SortDuplicates(found);
    copied, skipped := CopyAll(filesToCopy, failures);
  }
}
