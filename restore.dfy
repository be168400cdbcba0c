/** The restore run: `extract_zip_file` over one part, `unzip_all` over all of
    them, and the way `main` turns its pattern argument into a source directory
    and a file-name prefix. */
module Restore {
  import opened Strings
  import opened Sorting
  import opened Paths
  import opened ZipArchives
  import opened FileSystems
  import opened ZipParts
  import opened SafeExtract

  datatype Counts = Counts(extracted: nat, skipped: nat, errors: nat)

  const NoCounts := Counts(0, 0, 0)

  function Total(c: Counts): nat {
    c.extracted + c.skipped + c.errors
  }

  function Add(a: Counts, b: Counts): Counts {
    Counts(a.extracted + b.extracted, a.skipped + b.skipped, a.errors + b.errors)
  }

  /** How one member's result is counted: a success whose message mentions
      "Skipped" is a skip, any other success an extraction, a failure an error. */
  function Tally(c: Counts, success: bool, message: string): Counts {
    if success then
      if Contains(message, "Skipped") then c.(skipped := c.skipped + 1)
      else c.(extracted := c.extracted + 1)
    else c.(errors := c.errors + 1)
  }

  /** The counts of one part, the filesystem it leaves, and whether an exception
      ended the part early. */
  datatype Run = Run(counts: Counts, tree: Tree, abandoned: bool)

  /** The member loop from counts `c` on: an exception escaping a member adds one
      error and abandons the rest of the part. */
  function ExtractMembers(t: Tree, members: seq<Member>, root: Segments, overwrite: bool, c: Counts): Run
    requires Resolved(root)
    decreases |members|
  {
    if |members| == 0 then Run(c, t, false)
    else
      var (o, t1) := ExtractMember(t, members[0], root, overwrite);
      if o.Escaped? then Run(c.(errors := c.errors + 1), t1, true)
      else ExtractMembers(t1, members[1..], root, overwrite, Tally(c, o.success, o.message))
  }

  /** `extract_zip_file` on the archive found at the part's path: an archive that
      does not open counts one error. */
  function ExtractArchive(t: Tree, archive: Archive, root: Segments, overwrite: bool): Run
    requires Resolved(root)
  {
    match archive
    case Readable(members) => ExtractMembers(t, members, root, overwrite, NoCounts)
    case _ => Run(Counts(0, 0, 1), t, true)
  }

  /** `extract_zip_file`: the member loop over the part, step by step. */
  method ExtractZipFile(fs: FileSystem, info: ZipFileInfo, archives: Archives, root: Segments, overwrite: bool)
    returns (extracted: nat, skipped: nat, errors: nat)
    requires Resolved(root)
    modifies fs
    ensures var r := ExtractArchive(old(fs.tree), OpenArchive(archives, info.path), root, overwrite);
            Counts(extracted, skipped, errors) == r.counts && fs.tree == r.tree
  {
    extracted, skipped, errors := 0, 0, 0;
    var archive := OpenArchive(archives, info.path);
    if !archive.Readable? {
      errors := errors + 1;
      return;
    }
    var members := archive.members;
    var i := 0;
    while i < |members|
      invariant 0 <= i <= |members|
      invariant ExtractMembers(old(fs.tree), members, root, overwrite, NoCounts)
             == ExtractMembers(fs.tree, members[i..], root, overwrite, Counts(extracted, skipped, errors))
    {
      MembersStep(fs.tree, members, i, root, overwrite, Counts(extracted, skipped, errors));
      var stop;
      extracted, skipped, errors, stop := ExtractOne(fs, members[i], root, overwrite, extracted, skipped, errors);
      if stop {
        return;
      }
      i := i + 1;
    }
  }

  /** The member loop from member `i` on is the first of those members followed by
      the loop over the rest. */
  lemma MembersStep(t: Tree, members: seq<Member>, i: nat, root: Segments, overwrite: bool, c: Counts)
    requires Resolved(root) && i < |members|
    ensures ExtractMembers(t, members[i..], root, overwrite, c)
         == var (o, t1) := ExtractMember(t, members[i], root, overwrite);
            if o.Escaped? then Run(c.(errors := c.errors + 1), t1, true)
            else ExtractMembers(t1, members[i + 1..], root, overwrite, Tally(c, o.success, o.message))
  {
    assert members[i..][0] == members[i] && members[i..][1..] == members[i + 1..];
  }

  /** One iteration of the member loop: the member is extracted and its result
      counted; `stop` reports the exception that ends the part. */
  method ExtractOne(fs: FileSystem, m: Member, root: Segments, overwrite: bool,
                    extracted: nat, skipped: nat, errors: nat)
    returns (extracted': nat, skipped': nat, errors': nat, stop: bool)
    requires Resolved(root)
    modifies fs
    ensures var (o, t1) := ExtractMember(old(fs.tree), m, root, overwrite);
            && fs.tree == t1 && stop == o.Escaped?
            && Counts(extracted', skipped', errors')
               == (if o.Escaped? then Counts(extracted, skipped, errors + 1)
                   else Tally(Counts(extracted, skipped, errors), o.success, o.message))
  {
    extracted', skipped', errors' := extracted, skipped, errors;
    var outcome := SafeExtractMember(fs, m, root, overwrite);
    stop := outcome.Escaped?;
    if outcome.Escaped? {
      errors' := errors' + 1;
      return;
    }
    if outcome.success {
      if Contains(outcome.message, "Skipped") {
        skipped' := skipped' + 1;
      } else {
        extracted' := extracted' + 1;
      }
    } else {
      errors' := errors' + 1;
    }
  }

  /** Each member result adds exactly one to exactly one counter. */
  lemma TallyAddsOne(c: Counts, success: bool, message: string)
    ensures var c' := Tally(c, success, message);
            Total(c') == Total(c) + 1
            && (c'.skipped == c.skipped + 1 <==> success && Contains(message, "Skipped"))
            && (c'.extracted == c.extracted + 1 <==> success && !Contains(message, "Skipped"))
            && (c'.errors == c.errors + 1 <==> !success)
  {
  }

  /** Every member the loop reaches adds one to the total: all of them when the part
      runs to the end, and at least one (the one whose exception ended it) when not. */
  lemma {:induction false} MembersTotal(t: Tree, members: seq<Member>, root: Segments, overwrite: bool, c: Counts)
    requires Resolved(root)
    ensures var r := ExtractMembers(t, members, root, overwrite, c);
            (!r.abandoned ==> Total(r.counts) == Total(c) + |members|)
            && (r.abandoned ==> Total(c) < Total(r.counts) <= Total(c) + |members| && r.counts.errors > c.errors)
    decreases |members|
  {
    if |members| > 0 {
      var (o, t1) := ExtractMember(t, members[0], root, overwrite);
      if o.Done? {
        MembersTotal(t1, members[1..], root, overwrite, Tally(c, o.success, o.message));
        TallyAddsOne(c, o.success, o.message);
        MembersErrorsGrow(t1, members[1..], root, overwrite, Tally(c, o.success, o.message));
      }
    }
  }

  lemma {:induction false} MembersErrorsGrow(t: Tree, members: seq<Member>, root: Segments, overwrite: bool, c: Counts)
    requires Resolved(root)
    ensures ExtractMembers(t, members, root, overwrite, c).counts.errors >= c.errors
    decreases |members|
  {
    if |members| > 0 {
      var (o, t1) := ExtractMember(t, members[0], root, overwrite);
      if o.Done? {
        MembersErrorsGrow(t1, members[1..], root, overwrite, Tally(c, o.success, o.message));
      }
    }
  }

  /** The skip count tests the message, not the outcome: a member extracted
      afresh is counted as skipped exactly when its own name contains "Skipped". */
  lemma SkippedCountsNames(t: Tree, m: Member, root: Segments, overwrite: bool)
    requires Resolved(root) && Succeeded(ExtractMember(t, m, root, overwrite).0)
    ensures var o := ExtractMember(t, m, root, overwrite).0;
            Tally(NoCounts, true, o.message).skipped == 1
            <==> o.message == SkippedMessage(m.filename) || Contains(m.filename, "Skipped")
  {
    var o := ExtractMember(t, m, root, overwrite).0;
    SuccessMeans(t, m, root, overwrite);
    assert OccursAt(SkippedMessage(m.filename), "Skipped", 0);
    ContainsAfterPrefix("Extracted: ", m.filename, "Skipped");
    if o.message == SkippedMessage(m.filename) {
      assert Contains(o.message, "Skipped");
    }
  }

  /** Extraction keeps the filesystem well formed over a whole part. */
  lemma {:induction false} MembersKeepValid(t: Tree, members: seq<Member>, root: Segments, overwrite: bool, c: Counts)
    requires Resolved(root) && Valid(t)
    ensures Valid(ExtractMembers(t, members, root, overwrite, c).tree)
    decreases |members|
  {
    if |members| > 0 {
      ExtractKeepsValid(t, members[0], root, overwrite);
      var (o, t1) := ExtractMember(t, members[0], root, overwrite);
      if o.Done? {
        MembersKeepValid(t1, members[1..], root, overwrite, Tally(c, o.success, o.message));
      }
    }
  }

  /** The per-part runs of the extraction phase, each on the filesystem the
      previous one left. */
  function PartRuns(t: Tree, parts: seq<Part>, archives: Archives, root: Segments, overwrite: bool): (runs: seq<Run>)
    requires Resolved(root)
    ensures |runs| == |parts|
    decreases |parts|
  {
    if |parts| == 0 then []
    else
      var r := ExtractArchive(t, OpenArchive(archives, parts[0].path), root, overwrite);
      [r] + PartRuns(r.tree, parts[1..], archives, root, overwrite)
  }

  /** The extraction phase over all parts: the summed counts and the final
      filesystem. */
  datatype Pass = Pass(totals: Counts, tree: Tree)

  function ExtractParts(t: Tree, parts: seq<Part>, archives: Archives, root: Segments, overwrite: bool): Pass
    requires Resolved(root)
    decreases |parts|
  {
    if |parts| == 0 then Pass(NoCounts, t)
    else
      var r := ExtractArchive(t, OpenArchive(archives, parts[0].path), root, overwrite);
      var rest := ExtractParts(r.tree, parts[1..], archives, root, overwrite);
      Pass(Add(r.counts, rest.totals), rest.tree)
  }

  /** One step of the extraction pass: the part at `i` runs on the filesystem the
      previous parts left. */
  lemma NextPart(t: Tree, parts: seq<Part>, i: nat, archives: Archives, root: Segments, overwrite: bool)
    requires Resolved(root) && i < |parts|
    ensures var r := ExtractArchive(t, OpenArchive(archives, parts[i].path), root, overwrite);
            var rest := ExtractParts(r.tree, parts[i + 1..], archives, root, overwrite);
            ExtractParts(t, parts[i..], archives, root, overwrite) == Pass(Add(r.counts, rest.totals), rest.tree)
  {
    assert parts[i..][1..] == parts[i + 1..];
  }

  function SumCounts(runs: seq<Run>): Counts
    decreases |runs|
  {
    if |runs| == 0 then NoCounts else Add(runs[0].counts, SumCounts(runs[1..]))
  }

  /** The run reports success exactly when no part had an error. */
  lemma {:induction false} NoErrorsAnywhere(runs: seq<Run>)
    ensures SumCounts(runs).errors == 0 <==> forall i :: 0 <= i < |runs| ==> runs[i].counts.errors == 0
    decreases |runs|
  {
    if |runs| > 0 {
      NoErrorsAnywhere(runs[1..]);
      assert forall i :: 1 <= i < |runs| ==> runs[i] == runs[1..][i - 1];
    }
  }

  /** The totals are the sums of the per-part counts. */
  lemma {:induction false} TotalsAreSums(t: Tree, parts: seq<Part>, archives: Archives, root: Segments, overwrite: bool)
    requires Resolved(root)
    ensures ExtractParts(t, parts, archives, root, overwrite).totals
         == SumCounts(PartRuns(t, parts, archives, root, overwrite))
    decreases |parts|
  {
    if |parts| > 0 {
      var r := ExtractArchive(t, OpenArchive(archives, parts[0].path), root, overwrite);
      TotalsAreSums(r.tree, parts[1..], archives, root, overwrite);
      assert PartRuns(t, parts, archives, root, overwrite)[1..]
          == PartRuns(r.tree, parts[1..], archives, root, overwrite);
    }
  }

  /** What `unzip_all` ends with: its result, the filesystem, and the totals when
      the extraction phase ran. */
  datatype Report = Report(ok: bool, tree: Tree, totals: Option<Counts>)

  predicate GapFound(parts: seq<Part>) {
    !ContinuityOf(MapSeq(parts, PartKey)).Complete?
  }

  predicate AnyInvalid(parts: seq<Part>, archives: Archives) {
    exists i :: 0 <= i < |parts| && ValidationError(archives, parts[i].path).Some?
  }

  /** `unzip_all` on a filesystem state; `continueOnGap` is the answer to the
      prompt that a gap in the numbering raises. */
  function UnzipAllSpec(t: Tree, listing: Option<seq<DirEntry>>, archives: Archives, prefix: string,
                        root: Segments, dryRun: bool, validate: bool, overwrite: bool,
                        continueOnGap: bool): Report
    requires Resolved(root)
  {
    var parts := Catalog(listing, prefix);
    if |parts| == 0 then Report(false, t, None)
    else if GapFound(parts) && !continueOnGap then Report(false, t, None)
    else if validate && AnyInvalid(parts, archives) then Report(false, t, None)
    else if dryRun then Report(true, t, None)
    else match MakeDirs(t, root)
      case Err(_) => Report(false, t, None)
      case Ok(t1) =>
        var pass := ExtractParts(t1, parts, archives, root, overwrite);
        Report(pass.totals.errors == 0, pass.tree, Some(pass.totals))
  }

  /** Whether `unzip_all` goes on past its checks: some part was found, a gap in
      the numbering was accepted, and, when validating, every part is sound. */
  predicate ChecksPass(parts: seq<Part>, archives: Archives, validate: bool, continueOnGap: bool) {
    |parts| > 0 && !(GapFound(parts) && !continueOnGap) && !(validate && AnyInvalid(parts, archives))
  }

  /** The extraction phase keeps the filesystem well formed. */
  lemma {:induction false} PassKeepsValid(t: Tree, parts: seq<Part>, archives: Archives, root: Segments, overwrite: bool)
    requires Resolved(root) && Valid(t)
    ensures Valid(ExtractParts(t, parts, archives, root, overwrite).tree)
    decreases |parts|
  {
    if |parts| > 0 {
      var archive := OpenArchive(archives, parts[0].path);
      if archive.Readable? {
        MembersKeepValid(t, archive.members, root, overwrite, NoCounts);
      }
      var r := ExtractArchive(t, archive, root, overwrite);
      PassKeepsValid(r.tree, parts[1..], archives, root, overwrite);
    }
  }

  /** What `unzip_all` promises: it stops with `False` and an untouched filesystem
      when no part is found, a gap is declined, or a part fails validation; a dry
      run answers `True` and touches nothing; otherwise the totals are the sums of
      the per-part counts and the answer is `True` exactly when no part had an
      error. The filesystem stays well formed throughout. */
  lemma UnzipOutcome(t: Tree, listing: Option<seq<DirEntry>>, archives: Archives, prefix: string,
                     root: Segments, dryRun: bool, validate: bool, overwrite: bool, continueOnGap: bool)
    requires Resolved(root) && Valid(t)
    ensures var r := UnzipAllSpec(t, listing, archives, prefix, root, dryRun, validate, overwrite, continueOnGap);
            var parts := Catalog(listing, prefix);
            && (!ChecksPass(parts, archives, validate, continueOnGap) ==> r == Report(false, t, None))
            && (ChecksPass(parts, archives, validate, continueOnGap) && dryRun ==> r == Report(true, t, None))
            && (ChecksPass(parts, archives, validate, continueOnGap) && !dryRun && MakeDirs(t, root).Err? ==>
                  r == Report(false, t, None))
            && (ChecksPass(parts, archives, validate, continueOnGap) && !dryRun && MakeDirs(t, root).Ok? ==>
                  var runs := PartRuns(MakeDirs(t, root).value, parts, archives, root, overwrite);
                  r.totals == Some(SumCounts(runs))
                  && (r.ok <==> forall i :: 0 <= i < |runs| ==> runs[i].counts.errors == 0))
            && Valid(r.tree)
  {
    var parts := Catalog(listing, prefix);
    if ChecksPass(parts, archives, validate, continueOnGap) && !dryRun && MakeDirs(t, root).Ok? {
      var t1 := MakeDirs(t, root).value;
      MakeDirsValid(t, root);
      PassKeepsValid(t1, parts, archives, root, overwrite);
      TotalsAreSums(t1, parts, archives, root, overwrite);
      NoErrorsAnywhere(PartRuns(t1, parts, archives, root, overwrite));
    }
  }

  /** `unzip_all`, step by step. */
  method UnzipAll(fs: FileSystem, listing: Option<seq<DirEntry>>, archives: Archives, prefix: string,
                  root: Segments, dryRun: bool, validate: bool, overwrite: bool, continueOnGap: bool)
    returns (ok: bool)
    requires Resolved(root)
    modifies fs
    ensures var r := UnzipAllSpec(old(fs.tree), listing, archives, prefix, root, dryRun, validate,
                                  overwrite, continueOnGap);
            ok == r.ok && fs.tree == r.tree
  {
    var proceed, zipFiles := CheckParts(listing, archives, prefix, validate, continueOnGap);
    ghost var parts := Catalog(listing, prefix);
    if !proceed {
      return false;
    }
    if dryRun {
      return true;
    }
    var mkErr := fs.MkdirAll(root);
    if mkErr.Some? {
      return false;
    }
    PathsOfParts(zipFiles, parts);
    var totals := ExtractAll(fs, zipFiles, parts, archives, root, overwrite);
    ok := totals.errors == 0;
  }

  /** Discovery, the continuity check and the validation pass of `unzip_all`. */
  method CheckParts(listing: Option<seq<DirEntry>>, archives: Archives, prefix: string,
                    validate: bool, continueOnGap: bool)
    returns (proceed: bool, zipFiles: seq<ZipFileInfo>)
    ensures MapSeq(zipFiles, RecordOf) == Catalog(listing, prefix)
    ensures proceed <==> ChecksPass(Catalog(listing, prefix), archives, validate, continueOnGap)
  {
    zipFiles := FindZipFiles(listing, prefix);
    ghost var parts := Catalog(listing, prefix);
    if |zipFiles| == 0 {
      return false, zipFiles;
    }
    var continuity := CheckSequenceContinuity(zipFiles);
    ContinuityOfParts(zipFiles, parts);
    if !continuity.Complete? && !continueOnGap {
      return false, zipFiles;
    }
    if validate {
      PathsOfParts(zipFiles, parts);
      var allValid := ValidateAll(zipFiles, archives, parts);
      if !allValid {
        return false, zipFiles;
      }
    }
    return true, zipFiles;
  }

  lemma ContinuityOfParts(zipFiles: seq<ZipFileInfo>, parts: seq<Part>)
    requires MapSeq(zipFiles, RecordOf) == parts
    ensures CheckSequenceContinuity(zipFiles) == ContinuityOf(MapSeq(parts, PartKey))
  {
    MapSeqCompose(zipFiles, RecordOf, PartKey, NumberOf);
  }

  lemma PathsOfParts(zipFiles: seq<ZipFileInfo>, parts: seq<Part>)
    requires MapSeq(zipFiles, RecordOf) == parts
    ensures |zipFiles| == |parts|
    ensures forall i :: 0 <= i < |zipFiles| ==> zipFiles[i].path == parts[i].path
  {
    assert forall i :: 0 <= i < |zipFiles| ==> MapSeq(zipFiles, RecordOf)[i] == parts[i];
  }

  /** The validation pass: every part is validated, and the verdict is whether
      all of them are sound. */
  method ValidateAll(zipFiles: seq<ZipFileInfo>, archives: Archives, ghost parts: seq<Part>)
    returns (allValid: bool)
    requires |zipFiles| == |parts|
    requires forall i :: 0 <= i < |zipFiles| ==> zipFiles[i].path == parts[i].path
    modifies set f | f in zipFiles
    ensures allValid <==> !AnyInvalid(parts, archives)
    ensures forall i :: 0 <= i < |zipFiles| ==>
              (zipFiles[i].isValid <==> ValidationError(archives, parts[i].path).None?)
  {
    allValid := true;
    var j := 0;
    while j < |zipFiles|
      invariant 0 <= j <= |zipFiles|
      invariant allValid <==> forall i :: 0 <= i < j ==> ValidationError(archives, parts[i].path).None?
      invariant forall i :: 0 <= i < j ==>
                  (zipFiles[i].isValid <==> ValidationError(archives, parts[i].path).None?)
    {
      var valid := ValidateZipFile(zipFiles[j], archives);
      if !valid {
        allValid := false;
      }
      j := j + 1;
    }
  }

  lemma AddStep(whole: Pass, acc: Counts, c: Counts, rest: Pass, current: Pass)
    requires whole == Pass(Add(acc, current.totals), current.tree)
    requires current == Pass(Add(c, rest.totals), rest.tree)
    ensures whole == Pass(Add(Add(acc, c), rest.totals), rest.tree)
  {
  }

  /** One iteration of the pass: the part at `i` extracted onto the filesystem. */
  method ExtractPart(fs: FileSystem, info: ZipFileInfo, ghost parts: seq<Part>, ghost i: nat,
                     archives: Archives, root: Segments, overwrite: bool)
    returns (counts: Counts)
    requires Resolved(root) && i < |parts| && info.path == parts[i].path
    modifies fs
    ensures var rest := ExtractParts(fs.tree, parts[i + 1..], archives, root, overwrite);
            ExtractParts(old(fs.tree), parts[i..], archives, root, overwrite)
            == Pass(Add(counts, rest.totals), rest.tree)
  {
    NextPart(fs.tree, parts, i, archives, root, overwrite);
    var extracted, skipped, errors := ExtractZipFile(fs, info, archives, root, overwrite);
    counts := Counts(extracted, skipped, errors);
  }

  /** The extraction pass: every part in order, the counts summed. */
  method ExtractAll(fs: FileSystem, zipFiles: seq<ZipFileInfo>, ghost parts: seq<Part>,
                    archives: Archives, root: Segments, overwrite: bool)
    returns (totals: Counts)
    requires Resolved(root)
    requires |zipFiles| == |parts|
    requires forall i :: 0 <= i < |zipFiles| ==> zipFiles[i].path == parts[i].path
    modifies fs
    ensures Pass(totals, fs.tree) == ExtractParts(old(fs.tree), parts, archives, root, overwrite)
  {
    ghost var whole := ExtractParts(fs.tree, parts, archives, root, overwrite);
    totals := NoCounts;
    var i := 0;
    assert parts[i..] == parts;
    assert Add(totals, whole.totals) == whole.totals;
    while i < |zipFiles|
      invariant 0 <= i <= |zipFiles|
      invariant var rest := ExtractParts(fs.tree, parts[i..], archives, root, overwrite);
                whole == Pass(Add(totals, rest.totals), rest.tree)
    {
      ghost var current := ExtractParts(fs.tree, parts[i..], archives, root, overwrite);
      var counts := ExtractPart(fs, zipFiles[i], parts, i, archives, root, overwrite);
      AddStep(whole, totals, counts, ExtractParts(fs.tree, parts[i + 1..], archives, root, overwrite), current);
      totals := Add(totals, counts);
      i := i + 1;
    }
    assert parts[i..] == [];
    assert Add(totals, NoCounts) == totals;
  }
}
