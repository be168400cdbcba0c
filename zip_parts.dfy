/** Discovery, ordering, continuity and validation of the numbered ZIP parts
    (`find_zip_files`, `check_sequence_continuity`, `validate_zip_file`). */
module ZipParts {
  import opened Strings
  import opened Sorting
  import opened ZipArchives

  /** One entry of the source directory as `iterdir()` yields it. */
  datatype DirEntry = DirEntry(name: string, isFile: bool, size: nat)

  /** What discovery records about a part: its path, number and size. */
  datatype Part = Part(path: string, number: nat, size: nat)

  /** `ZipFileInfo`: discovery fixes the path, part number and size; validation
      updates `isValid` and `errorMessage` in place. */
  class ZipFileInfo {
    const path: string
    const partNumber: nat
    const size: nat
    var isValid: bool
    var errorMessage: Option<string>

    constructor (path: string, partNumber: nat, size: nat)
      ensures this.path == path && this.partNumber == partNumber && this.size == size
      ensures isValid && errorMessage == None
    {
      this.path := path;
      this.partNumber := partNumber;
      this.size := size;
      isValid := true;
      errorMessage := None;
    }
  }

  function RecordOf(f: ZipFileInfo): Part {
    Part(f.path, f.partNumber, f.size)
  }

  function NumberOf(f: ZipFileInfo): int {
    f.partNumber
  }

  function PartKey(p: Part): int {
    p.number
  }

  const ZipSuffix: string := ".zip"

  predicate AllDigits(d: string) {
    forall i :: 0 <= i < |d| ==> IsDigit(d[i])
  }

  /** Python's `$` matches at the end or just before one final newline. */
  function WithoutFinalNewline(name: string): string
  {
    if |name| > 0 && name[|name| - 1] == '\n' then name[..|name| - 1] else name
  }

  /** The anchored pattern `<escaped prefix>(\d+)\.zip` against the whole of `core`. */
  function MatchCore(core: string, prefix: string): Option<nat>
  {
    if |core| < |prefix| + 1 + |ZipSuffix| then None
    else if !EqualIgnoringCase(core[..|prefix|], prefix) then None
    else if !EqualIgnoringCase(core[|core| - |ZipSuffix|..], ZipSuffix) then None
    else if AllDigits(core[|prefix|..|core| - |ZipSuffix|]) then
      Some(DigitsValue(core[|prefix|..|core| - |ZipSuffix|]))
    else None
  }

  /** `build_zip_pattern(prefix).match(name)`: the regex `^<escaped prefix>(\d+)\.zip$`
      compiled with IGNORECASE. The prefix is compared literally (it is escaped) but,
      like the rest of the pattern, without regard to case; `$` also accepts a single
      final newline. The result is `int()` of the digit group. */
  function MatchPartName(name: string, prefix: string): Option<nat>
  {
    MatchCore(WithoutFinalNewline(name), prefix)
  }

  lemma SameLengthIgnoringCase(a: string, b: string)
    requires EqualIgnoringCase(a, b)
    ensures |a| == |b|
  {
    assert |Lower(a)| == |Lower(b)|;
  }

  lemma {:induction false} MatchCoreBuilt(prefix: string, casedPrefix: string, digits: string, ext: string)
    requires EqualIgnoringCase(casedPrefix, prefix)
    requires |digits| > 0 && AllDigits(digits)
    requires EqualIgnoringCase(ext, ZipSuffix)
    ensures MatchCore(casedPrefix + digits + ext, prefix) == Some(DigitsValue(digits))
  {
    SameLengthIgnoringCase(casedPrefix, prefix);
    SameLengthIgnoringCase(ext, ZipSuffix);
    var core := casedPrefix + digits + ext;
    assert core[..|prefix|] == casedPrefix;
    assert core[|core| - |ZipSuffix|..] == ext;
    assert core[|prefix|..|core| - |ZipSuffix|] == digits;
  }

  lemma {:induction false} SuffixNotNewline(ext: string)
    requires EqualIgnoringCase(ext, ZipSuffix)
    ensures |ext| == 4 && ext[3] != '\n'
  {
    SameLengthIgnoringCase(ext, ZipSuffix);
    assert Lower(ext)[3] == Lower(ZipSuffix)[3] == 'p';
  }

  /** Every name built as prefix, digits, `.zip` (each in any case), optionally
      followed by one newline, is a part whose number is the digits' value. */
  lemma {:induction false} PartNameMatches(prefix: string, casedPrefix: string, digits: string, ext: string, newline: bool)
    requires EqualIgnoringCase(casedPrefix, prefix)
    requires |digits| > 0 && AllDigits(digits)
    requires EqualIgnoringCase(ext, ZipSuffix)
    ensures MatchPartName(casedPrefix + digits + ext + (if newline then "\n" else ""), prefix)
         == Some(DigitsValue(digits))
  {
    var core := casedPrefix + digits + ext;
    MatchCoreBuilt(prefix, casedPrefix, digits, ext);
    SuffixNotNewline(ext);
    if newline {
      var name := core + "\n";
      assert name[..|name| - 1] == core;
      assert WithoutFinalNewline(name) == core;
    } else {
      assert core[|core| - 1] == ext[3];
      assert WithoutFinalNewline(core) == core;
      assert core + "" == core;
    }
  }

  /** A match reads the prefix literally: regex metacharacters in it are not
      interpreted, so only the prefix itself (in some case) can start the name,
      and the number is the value of the digits that follow it. */
  lemma MatchIsLiteral(name: string, prefix: string)
    requires MatchPartName(name, prefix).Some?
    ensures |prefix| < |name| && EqualIgnoringCase(name[..|prefix|], prefix)
    ensures exists k :: |prefix| < k <= |name| - |ZipSuffix| && AllDigits(name[|prefix|..k])
                        && MatchPartName(name, prefix).value == DigitsValue(name[|prefix|..k])
  {
    var core := WithoutFinalNewline(name);
    assert MatchCore(core, prefix).Some?;
    var k := |core| - |ZipSuffix|;
    assert |prefix| < k && AllDigits(core[|prefix|..k]);
    assert core == name[..|core|];
    assert core[..|prefix|] == name[..|prefix|];
    assert core[|prefix|..k] == name[|prefix|..k];
  }

  /** The part one listing entry contributes, if any. */
  function EntryPart(e: DirEntry, prefix: string, matches: (string, string) -> Option<nat>): seq<Part>
  {
    var m := matches(e.name, prefix);
    if e.isFile && m.Some? then [Part(e.name, m.value, e.size)] else []
  }

  /** The parts the loop of `find_zip_files` appends, in listing order. */
  function Matches(entries: seq<DirEntry>, prefix: string, matches: (string, string) -> Option<nat>): (r: seq<Part>)
    ensures |r| <= |entries|
  {
    if |entries| == 0 then []
    else Matches(entries[..|entries| - 1], prefix, matches) + EntryPart(entries[|entries| - 1], prefix, matches)
  }

  /** `find_zip_files`: the matching regular files sorted by part number; a missing
      directory gives the empty list. */
  function Catalog(listing: Option<seq<DirEntry>>, prefix: string): seq<Part>
  {
    match listing
    case None => []
    case Some(entries) => SortBy(Matches(entries, prefix, MatchPartName), PartKey)
  }

  /** Entry `e` is a regular file whose name matches, and `p` records it. */
  predicate Yields(e: DirEntry, prefix: string, p: Part, matches: (string, string) -> Option<nat>) {
    e.isFile && matches(e.name, prefix) == Some(p.number) && p.path == e.name && p.size == e.size
  }

  lemma EntryPartYields(e: DirEntry, prefix: string, p: Part, matches: (string, string) -> Option<nat>)
    ensures p in EntryPart(e, prefix, matches) <==> Yields(e, prefix, p, matches)
  {
  }

  lemma {:induction false} MatchesMembers(entries: seq<DirEntry>, prefix: string, p: Part, matches: (string, string) -> Option<nat>)
    ensures p in Matches(entries, prefix, matches)
            <==> exists i :: 0 <= i < |entries| && Yields(entries[i], prefix, p, matches)
  {
    if |entries| > 0 {
      var last := |entries| - 1;
      var init := entries[..last];
      MatchesMembers(init, prefix, p, matches);
      EntryPartYields(entries[last], prefix, p, matches);
      assert forall i :: 0 <= i < last ==> init[i] == entries[i];
    }
  }

  /** The catalogue holds exactly the regular files whose name matches, each with
      the number its digits spell, sorted ascending; equal numbers keep listing order. */
  lemma CatalogSpec(entries: seq<DirEntry>, prefix: string, p: Part, n: int)
    ensures p in Catalog(Some(entries), prefix) <==> exists i :: 0 <= i < |entries| && Yields(entries[i], prefix, p, MatchPartName)
    ensures SortedBy(Catalog(Some(entries), prefix), PartKey)
    ensures multiset(Catalog(Some(entries), prefix)) == multiset(Matches(entries, prefix, MatchPartName))
    ensures WithKey(Catalog(Some(entries), prefix), PartKey, n) == WithKey(Matches(entries, prefix, MatchPartName), PartKey, n)
  {
    SortByFacts(Matches(entries, prefix, MatchPartName), PartKey);
    SortByStable(Matches(entries, prefix, MatchPartName), PartKey, n);
    MatchesMembers(entries, prefix, p, MatchPartName);
    assert p in Catalog(Some(entries), prefix) <==> p in multiset(Catalog(Some(entries), prefix));
  }

  lemma MatchesSnoc(entries: seq<DirEntry>, i: nat, prefix: string, matches: (string, string) -> Option<nat>)
    requires i < |entries|
    ensures Matches(entries[..i + 1], prefix, matches)
            == Matches(entries[..i], prefix, matches) + EntryPart(entries[i], prefix, matches)
  {
    assert entries[..i + 1][..i] == entries[..i];
  }

  /** `find_zip_files`: scans the listing, creating a `ZipFileInfo` per matching
      regular file, then sorts them by part number. */
  method FindZipFiles(listing: Option<seq<DirEntry>>, prefix: string) returns (files: seq<ZipFileInfo>)
    ensures forall f :: f in files ==> fresh(f) && f.isValid && f.errorMessage == None
    ensures MapSeq(files, RecordOf) == Catalog(listing, prefix)
  {
    if listing.None? {
      return [];
    }
    var entries := listing.value;
    var found: seq<ZipFileInfo> := [];
    var i := 0;
    while i < |entries|
      invariant 0 <= i <= |entries|
      invariant MapSeq(found, RecordOf) == Matches(entries[..i], prefix, MatchPartName)
      invariant forall f :: f in found ==> fresh(f) && f.isValid && f.errorMessage == None
    {
      MatchesSnoc(entries, i, prefix, MatchPartName);
      found := ScanEntry(found, entries[i], prefix);
      i := i + 1;
    }
    assert entries[..i] == entries;
    files := SortBy(found, NumberOf);
    SortedCatalog(found, entries, prefix);
  }

  /** One iteration of the scan: a regular file whose name matches is appended. */
  method ScanEntry(found: seq<ZipFileInfo>, e: DirEntry, prefix: string) returns (found': seq<ZipFileInfo>)
    ensures MapSeq(found', RecordOf) == MapSeq(found, RecordOf) + EntryPart(e, prefix, MatchPartName)
    ensures forall f :: f in found' ==> f in found || (fresh(f) && f.isValid && f.errorMessage == None)
  {
    found' := found;
    if e.isFile {
      var m := MatchPartName(e.name, prefix);
      if m.Some? {
        var info := new ZipFileInfo(e.name, m.value, e.size);
        MapSeqSnoc(found, info, RecordOf);
        found' := found + [info];
      }
    }
  }

  lemma SortedCatalog(found: seq<ZipFileInfo>, entries: seq<DirEntry>, prefix: string)
    requires MapSeq(found, RecordOf) == Matches(entries, prefix, MatchPartName)
    ensures MapSeq(SortBy(found, NumberOf), RecordOf) == Catalog(Some(entries), prefix)
    ensures forall f :: f in SortBy(found, NumberOf) ==> f in found
  {
    SortByMap(found, RecordOf, NumberOf, PartKey);
    SortByFacts(found, NumberOf);
    forall f | f in SortBy(found, NumberOf) ensures f in found {
      assert f in multiset(SortBy(found, NumberOf));
    }
  }

  /** Outcome of `check_sequence_continuity`: the message it returns names one of
      these three cases. */
  datatype Continuity =
    | NoParts
    | Gaps(missing: seq<int>)
    | Complete(first: int, last: int)

  function Min(s: seq<int>): (m: int)
    requires |s| > 0
    ensures m in s && forall i :: 0 <= i < |s| ==> m <= s[i]
  {
    if |s| == 1 then s[0]
    else var r := Min(s[1..]); if s[0] <= r then s[0] else r
  }

  function Max(s: seq<int>): (m: int)
    requires |s| > 0
    ensures m in s && forall i :: 0 <= i < |s| ==> s[i] <= m
  {
    if |s| == 1 then s[0]
    else var r := Max(s[1..]); if s[0] >= r then s[0] else r
  }

  /** `sorted(set(range(lo, hi + 1)) - set(numbers))`. */
  function MissingBetween(lo: int, hi: int, numbers: seq<int>): (r: seq<int>)
    ensures forall x :: x in r <==> lo <= x <= hi && x !in numbers
    ensures forall i, j :: 0 <= i < j < |r| ==> r[i] < r[j]
    ensures forall i :: 0 <= i < |r| ==> lo <= r[i]
    decreases hi - lo
  {
    if lo > hi then []
    else if lo in numbers then MissingBetween(lo + 1, hi, numbers)
    else [lo] + MissingBetween(lo + 1, hi, numbers)
  }

  function ContinuityOf(numbers: seq<int>): Continuity
  {
    if |numbers| == 0 then NoParts
    else
      var missing := MissingBetween(Min(numbers), Max(numbers), numbers);
      if |missing| > 0 then Gaps(missing) else Complete(Min(numbers), Max(numbers))
  }

  /** `check_sequence_continuity` on the part records. */
  function CheckSequenceContinuity(files: seq<ZipFileInfo>): Continuity
  {
    ContinuityOf(MapSeq(files, NumberOf))
  }

  /** No parts is never continuous; otherwise the sequence is continuous exactly
      when every integer between the lowest and highest number is present, and the
      gaps are reported as the sorted list of the absent ones. */
  lemma ContinuitySpec(numbers: seq<int>)
    ensures numbers == [] <==> ContinuityOf(numbers).NoParts?
    ensures numbers != [] ==>
      (ContinuityOf(numbers).Complete? <==>
         forall x :: Min(numbers) <= x <= Max(numbers) ==> x in numbers)
    ensures ContinuityOf(numbers).Complete? ==>
      ContinuityOf(numbers).first in numbers && ContinuityOf(numbers).last in numbers
    ensures ContinuityOf(numbers).Gaps? ==>
      var g := ContinuityOf(numbers).missing;
      |g| > 0
      && (forall x :: x in g <==> Min(numbers) <= x <= Max(numbers) && x !in numbers)
      && (forall i, j :: 0 <= i < j < |g| ==> g[i] < g[j])
  {
    if numbers != [] {
      var missing := MissingBetween(Min(numbers), Max(numbers), numbers);
      if |missing| > 0 {
        assert missing[0] in missing;
      }
    }
  }

  lemma ContinuityExamples()
    ensures ContinuityOf([1, 2, 4]) == Gaps([3])
    ensures ContinuityOf([1, 2, 3]) == Complete(1, 3)
    ensures ContinuityOf([]) == NoParts
  {
    assert MissingBetween(4, 4, [1, 2, 4]) == [];
    assert MissingBetween(3, 4, [1, 2, 4]) == [3];
    assert MissingBetween(1, 4, [1, 2, 4]) == [3];
    assert MissingBetween(1, 3, [1, 2, 3]) == [];
  }

  /** The message `validate_zip_file` records, or None when the archive is sound:
      a corrupt member, a `BadZipFile`, or any other error when opening. */
  function ValidationError(archives: Archives, path: string): (r: Option<string>)
    ensures r.Some? ==> |r.value| > 0
  {
    match OpenArchive(archives, path)
    case Readable(members) =>
      (match TestZip(members)
       case Some(bad) => Some("Corrupted file in archive: " + bad)
       case None => None)
    case BadZip(reason) => Some("Bad ZIP file: " + reason)
    case Unreadable(reason) => Some("Validation error: " + reason)
  }

  /** An archive validates exactly when it opens and every member reads back. */
  lemma ValidationSpec(archives: Archives, path: string)
    ensures ValidationError(archives, path).None? <==>
      path in archives && archives[path].Readable?
      && forall i :: 0 <= i < |archives[path].members| ==> archives[path].members[i].intact
  {
  }

  /** `validate_zip_file`: never raises; records the verdict in the part. On
      success only `isValid` is set (an earlier `errorMessage` is kept). */
  method ValidateZipFile(info: ZipFileInfo, archives: Archives) returns (ok: bool)
    modifies info
    ensures ok == info.isValid
    ensures ok <==> ValidationError(archives, info.path).None?
    ensures !ok ==> info.errorMessage == ValidationError(archives, info.path)
    ensures ok ==> info.errorMessage == old(info.errorMessage)
  {
    var archive := OpenArchive(archives, info.path);
    match archive {
      case Readable(members) =>
        var bad := TestZip(members);
        if bad.Some? {
          info.isValid := false;
          info.errorMessage := Some("Corrupted file in archive: " + bad.value);
          return false;
        }
        info.isValid := true;
        return true;
      case BadZip(reason) =>
        info.isValid := false;
        info.errorMessage := Some("Bad ZIP file: " + reason);
        return false;
      case Unreadable(reason) =>
        info.isValid := false;
        info.errorMessage := Some("Validation error: " + reason);
        return false;
    }
  }
}
